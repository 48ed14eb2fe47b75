// After any loss: the next frame whose packets all arrive.
module Recovery {
  import opened Bytes
  import opened StartCode
  import opened Nal
  import opened Reassembly
  import opened Stream
  import opened Transport
  import opened LossSafety
  import opened RoundTrip

  // ----- what a packet says about its unit -----

  /** The last unit of a frame: at most its last three bytes are a start code. */
  ghost predicate Tail(u: seq<byte>) {
    u != [] && NoCode(u[..|u| - 1])
  }

  /** A packet carries all of its unit exactly when the unit goes out unsplit; the packet that
      ends the last unit of a frame is marked, and no other unit hides a start code. */
  ghost predicate Parcel(codec: Codec, us: seq<seq<byte>>, c: Chunk, pktsize: nat)
    requires SizeOk(codec, pktsize)
  {
    && c.unit < |us|
    && (Whole(us, c) <==> !Splits(codec, us[c.unit], pktsize))
    && (c.upto == 3 + |us[c.unit]| ==> if c.marker then Tail(us[c.unit]) else NoCode(us[c.unit]))
  }

  ghost predicate Parcels(s: Sent, pktsize: nat)
    requires SizeOk(s.codec, pktsize)
  {
    forall j :: 0 <= j < |s.cs| ==> Parcel(s.codec, s.us, s.cs[j], pktsize)
  }

  predicate Fragmentary(c: Chunk, n: nat, total: nat, marker: bool) {
    && c.unit == n && (c.from > 0 || c.upto < total) && c.upto <= total
    && (c.upto == total ==> c.marker == marker)
  }

  predicate AllFragmentary(cs: seq<Chunk>, n: nat, total: nat, marker: bool) {
    forall i :: 0 <= i < |cs| ==> Fragmentary(cs[i], n, total, marker)
  }

  lemma {:induction false} FuParcels(n: nat, from: nat, body: nat, total: nat, sz: nat, marker: bool)
    requires sz > 0 && from <= body < total && 0 < body
    requires from < body ==> total > body + sz
    ensures var cs := FuChunks(n, from, body, total, sz, marker);
            AllFragmentary(cs, n, total, marker)
    decreases total - body
  {
    if total <= body + sz {
    } else {
      FuParcels(n, body + sz, body + sz, total, sz, marker);
    }
  }

  lemma UnitParcels(codec: Codec, us: seq<seq<byte>>, n: nat, marker: bool, pktsize: nat)
    requires SizeOk(codec, pktsize) && n < |us| && if marker then Tail(us[n]) else NoCode(us[n])
    ensures var cs := UnitChunks(codec, n, us[n], marker, pktsize);
            forall j :: 0 <= j < |cs| ==> Parcel(codec, us, cs[j], pktsize)
  {
    hide Tail, NoCode;
    if Splits(codec, us[n], pktsize) {
      FuParcels(n, 0, 3 + HdrLen(codec), 3 + |us[n]|, pktsize - HdrLen(codec) - 1, marker);
      var cs := UnitChunks(codec, n, us[n], marker, pktsize);
      forall j | 0 <= j < |cs| ensures Parcel(codec, us, cs[j], pktsize) {
        assert Fragmentary(cs[j], n, 3 + |us[n]|, marker);
      }
    }
  }

  lemma AddUnitParcels(s: Sent, u: seq<byte>, marker: bool, pktsize: nat)
    requires SizeOk(s.codec, pktsize) && Legal(s.codec, u) && Parcels(s, pktsize)
    requires if marker then Tail(u) else NoCode(u)
    ensures Parcels(AddUnit(s, u, marker, pktsize), pktsize)
  {
    hide Tail, NoCode, UnitChunks, UnitPackets, Legal, Splits;
    var t := AddUnit(s, u, marker, pktsize);
    var cs := UnitChunks(s.codec, |s.us|, u, marker, pktsize);
    UnitParcels(s.codec, t.us, |s.us|, marker, pktsize);
    forall j | 0 <= j < |t.cs| ensures Parcel(t.codec, t.us, t.cs[j], pktsize) {
      if j < |s.cs| {
        assert Parcel(s.codec, s.us, s.cs[j], pktsize) && t.us[s.cs[j].unit] == s.us[s.cs[j].unit];
      } else {
        assert t.cs[j] == cs[j - |s.cs|];
      }
    }
  }

  lemma {:induction false} AddUnitsParcels(s: Sent, us: seq<seq<byte>>, k: nat, pktsize: nat)
    requires SizeOk(s.codec, pktsize) && k <= |us| && Parcels(s, pktsize) && Splittable(us)
    requires forall i :: 0 <= i < |us| ==> Legal(s.codec, us[i])
    ensures Parcels(AddUnits(s, us, k, pktsize), pktsize)
  {
    hide NoCode, Legal, Parcels, AddUnit;
    if k == 0 {
    } else {
      AddUnitsParcels(s, us, k - 1, pktsize);
      AddUnitParcels(AddUnits(s, us, k - 1, pktsize), us[k - 1], k == |us|, pktsize);
    }
  }

  lemma {:induction false} SendParcels(codec: Codec, frames: seq<seq<byte>>, k: nat, pktsize: nat)
    requires SizeOk(codec, pktsize) && LegalFrames(codec, frames) && k <= |frames|
    ensures Parcels(Send(codec, frames, k, pktsize), pktsize)
  {
    hide Parcels, AddUnits, Legal, Good, Units, Splittable;
    if k == 0 {
      NoParcels(codec, pktsize);
    } else {
      SendParcels(codec, frames, k - 1, pktsize);
      UnitsOf(frames[k - 1]);
      var us := Units(frames[k - 1]);
      AddUnitsParcels(Send(codec, frames, k - 1, pktsize), us, |us|, pktsize);
    }
  }

  lemma NoParcels(codec: Codec, pktsize: nat)
    requires SizeOk(codec, pktsize)
    ensures Parcels(Sent(codec, [], [], []), pktsize)
  {
  }

  // ----- what any run leaves behind -----

  /** The buffer is within the limit; its complete units are ones that the decoder takes and
      hide no start code; what was handed over can be cut again. */
  ghost predicate Tidy(s: Sent, t: Track, pktsize: nat)
    requires SizeOk(s.codec, pktsize) && Sound(s, t)
  {
    && |Buffer(s, t)| <= DECODE_MAXSZ
    && (forall k :: 0 <= k < |t.done| ==>
          !HeldBack(s.codec, s.us[t.done[k]], pktsize, t.gotKey) && NoCode(s.us[t.done[k]]))
    && forall k :: 0 <= k < |t.given| ==> Splittable(Listed(s.us, t.given[k]))
  }

  lemma CompleteTidy(s: Sent, t: Track, n: nat, marker: bool, lib: LibAnswer, pktsize: nat)
    requires SizeOk(s.codec, pktsize) && Sound(s, t) && Tidy(s, t, pktsize) && n < |s.us|
    requires !HeldBack(s.codec, s.us[n], pktsize, t.gotKey)
    requires if marker then Tail(s.us[n]) else NoCode(s.us[n])
    ensures Tidy(s, Settle(s, Complete(s, t, n), marker, lib), pktsize)
  {
    hide HeldBack, NoCode, AnnexB;
    FlatEmpty(s.us);
    if marker {
      FlatSnoc(s.us, t.done, n);
      var us := Listed(s.us, t.done + [n]);
      assert us[|us| - 1] == s.us[n];
      assert Splittable(us);
    }
  }

  lemma StepTidy(s: Sent, t: Track, d: Delivery, pktsize: nat)
    requires SizeOk(s.codec, pktsize) && Good(s) && Sound(s, t) && Tidy(s, t, pktsize) && d.idx < |s.cs|
    requires Parcel(s.codec, s.us, s.cs[d.idx], pktsize)
    ensures Tidy(s, TrackStep(s, t, d), pktsize)
  {
    hide PlainView, Flat, Splittable, NoCode, Tail, Splits;
    var c := s.cs[d.idx];
    assert Cut(s.codec, s.ps[d.idx], c, s.us);
    FlatEmpty(s.us);
    if c.upto == 3 + |s.us[c.unit]| && !Held(s, d.idx, t.gotKey) {
      CompleteTidy(s, t, c.unit, c.marker, d.lib, pktsize);
    }
  }

  lemma {:induction false} RunTidy(s: Sent, gotKey: bool, ds: seq<Delivery>, pktsize: nat)
    requires SizeOk(s.codec, pktsize) && Good(s) && InRange(s, ds) && Parcels(s, pktsize)
    ensures Tidy(s, TrackRun(s, Start(gotKey), ds), pktsize)
  {
    hide TrackStep, Tidy, Cut, Next, Parcel;
    if ds == [] {
      StartTidy(s, gotKey, pktsize);
    } else {
      RunTidy(s, gotKey, ds[..|ds| - 1], pktsize);
      StepTidy(s, TrackRun(s, Start(gotKey), ds[..|ds| - 1]), ds[|ds| - 1], pktsize);
    }
  }

  lemma StartTidy(s: Sent, gotKey: bool, pktsize: nat)
    requires SizeOk(s.codec, pktsize)
    ensures Tidy(s, Start(gotKey), pktsize)
  {
    FlatEmpty(s.us);
  }

  // ----- one more frame, complete -----

  // The packet after the one that an open unit has got to.
  lemma NextTells(s: Sent, t: Track, d: Delivery)
    requires Good(s) && Sound(s, t) && d.idx < |s.cs| && (t.open ==> d.idx == t.at + 1)
    ensures TrackStep(s, t, d).open ==> TrackStep(s, t, d).at == d.idx
  {
    hide PlainView, TrackStep, Flat;
    assert Cut(s.codec, s.ps[d.idx], s.cs[d.idx], s.us);
    LooksAt(s, t, d);
    if t.open {
      assert Next(s.us, s.cs[t.at], s.cs[d.idx]);
    }
  }

  lemma InRangeConcat(s: Sent, a: seq<Delivery>, b: seq<Delivery>)
    requires InRange(s, a) && InRange(s, b)
    ensures InRange(s, a + b)
  {
  }

  // Consecutive packets, from a first one of a unit on, can always be told.
  lemma {:induction false} MoreTells(s: Sent, gotKey: bool, ds: seq<Delivery>, more: seq<Delivery>, f: nat)
    requires Good(s) && InRange(s, ds) && Tellable(s, gotKey, ds) && !TrackRun(s, Start(gotKey), ds).open
    requires InRange(s, more) && Consecutive(more, f) && InRange(s, ds + more)
    ensures Tellable(s, gotKey, ds + more)
    ensures TrackRun(s, Start(gotKey), ds + more).open ==>
              more != [] && TrackRun(s, Start(gotKey), ds + more).at == f + |more| - 1
  {
    hide Good, TrackStep;
    if more == [] {
      assert ds + more == ds;
    } else {
      var m := |more| - 1;
      var d, all := more[m], ds + more;
      InRangeConcat(s, ds, more[..m]);
      MoreTells(s, gotKey, ds, more[..m], f);
      assert all[..|all| - 1] == ds + more[..m] && all[|all| - 1] == d && d.idx == f + m;
      SameLengths(s);
      NextTells(s, TrackRun(s, Start(gotKey), ds + more[..m]), d);
    }
  }

  /** The receiver of whole units with what the decoder holds. */
  function RxOf(s: Sent, t: Track): Rx
    requires Known(s.us, t.done) && forall k :: 0 <= k < |t.given| ==> Known(s.us, t.given[k])
  {
    Rx(Listed(s.us, t.done), t.gotKey,
       seq(|t.given|, k requires 0 <= k < |t.given| => Listed(s.us, t.given[k])))
  }

  lemma RxOfMirrors(s: Sent, t: Track, pktsize: nat)
    requires SizeOk(s.codec, pktsize) && Sound(s, t) && Tidy(s, t, pktsize) && !t.open
    ensures Mirrors(s, t, RxOf(s, t)) && Neat(s.codec, pktsize, RxOf(s, t))
  {
    hide HeldBack, NoCode, AnnexB, Splittable;
    BufferOf(s, t);
  }

  // The bytes behind a run that the receiver of whole units follows.
  lemma MirrorBytes(s: Sent, seq0: nat, gotKey: bool, ds: seq<Delivery>, x: Rx)
    requires Good(s) && InRange(s, ds) && Tellable(s, gotKey, ds)
    requires Mirrors(s, TrackRun(s, Start(gotKey), ds), x)
    ensures var r := Run(s, seq0, RunState(Clean(gotKey), []), ds);
            && r.st.mb == AnnexB(x.units) && r.st.gotKey == x.gotKey && |r.given| == |x.given|
            && forall i :: 0 <= i < |x.given| ==> r.given[i] == AnnexB(x.given[i])
  {
    hide Good, AnnexB, Run, TrackRun, Tellable;
    RunFollows(s, seq0, gotKey, ds);
    BufferOf(s, TrackRun(s, Start(gotKey), ds));
  }

  /** The packets of frame k, in order. */
  predicate AllOf(codec: Codec, frames: seq<seq<byte>>, k: nat, pktsize: nat, ds: seq<Delivery>)
    requires SizeOk(codec, pktsize) && LegalFrames(codec, frames) && k < |frames|
  {
    && Consecutive(ds, |Send(codec, frames, k, pktsize).ps|)
    && |ds| + |Send(codec, frames, k, pktsize).ps| == |Send(codec, frames, k + 1, pktsize).ps|
  }

  lemma FrameReceived(codec: Codec, frames: seq<seq<byte>>, k: nat, pktsize: nat, t: Track, more: seq<Delivery>, x: Rx)
    requires SizeOk(codec, pktsize) && LegalFrames(codec, frames) && k < |frames| && Units(frames[k]) != []
    requires AllOf(codec, frames, k, pktsize, more)
    requires Sound(Send(codec, frames, |frames|, pktsize), t) && Mirrors(Send(codec, frames, |frames|, pktsize), t, x)
    ensures var s := Send(codec, frames, |frames|, pktsize);
            && InRange(s, more) && more != [] && |s.ps| == |s.cs|
            && var us := Units(frames[k]);
               Mirrors(s, TrackRun(s, t, more), RxUnits(codec, pktsize, x, us, |us|, more[|more| - 1].lib))
  {
    hide Good, Legal, AddUnits, Mirrors, Sound, Units, RxUnits, TrackRun, LegalFrames;
    var s, a, b := Send(codec, frames, |frames|, pktsize), Send(codec, frames, k, pktsize),
                   Send(codec, frames, k + 1, pktsize);
    SendBegins(codec, frames, k, k + 1, pktsize);
    SendBegins(codec, frames, k + 1, |frames|, pktsize);
    SameCount(a, s);
    SameCount(b, s);
    LegalUnits(codec, frames, k);
    PacketsOfFrame(a, Units(frames[k]), pktsize);
    var us := Units(frames[k]);
    UnitsReceived(s, a, us, |us|, pktsize, t, more, x, more[|more| - 1].lib);
  }

  // A frame with units has packets.
  lemma PacketsOfFrame(a: Sent, us: seq<seq<byte>>, pktsize: nat)
    requires SizeOk(a.codec, pktsize) && us != [] && forall i :: 0 <= i < |us| ==> Legal(a.codec, us[i])
    ensures |a.cs| < |AddUnits(a, us, |us|, pktsize).cs|
  {
    hide UnitChunks, UnitPackets, Legal;
    AddNone(a, us, pktsize);
    assert AddUnits(a, us, 1, pktsize) == AddUnit(a, us[0], 1 == |us|, pktsize);
    UnitMarkers(a.codec, |a.us|, us[0], 1 == |us|, pktsize);
    AddUnitsBegins(a, us, 1, |us|, pktsize);
  }

  /** Recovery. After any run in which the numbers can tell, whatever was lost, repeated or
      reordered, with no unit left open: a frame all of whose packets arrive is handed over as
      it is if and only if nothing was left in the buffer before it, none of its units is an
      unsplit slice while no keyframe was seen, and all but its last packet is within the
      limit. */
  lemma FrameAfterLoss(codec: Codec, frames: seq<seq<byte>>, k: nat, pktsize: nat, seq0: nat, gotKey: bool,
                       ds: seq<Delivery>, more: seq<Delivery>)
    requires SizeOk(codec, pktsize) && LegalFrames(codec, frames) && k < |frames| && Units(frames[k]) != []
    requires var s := Send(codec, frames, |frames|, pktsize);
             && InRange(s, ds) && Tellable(s, gotKey, ds)
             && !Run(s, seq0, RunState(Clean(gotKey), []), ds).st.frag
    requires AllOf(codec, frames, k, pktsize, more)
    ensures var s := Send(codec, frames, |frames|, pktsize);
            && InRange(s, ds + more)
            && var before := Run(s, seq0, RunState(Clean(gotKey), []), ds);
               var after := Run(s, seq0, RunState(Clean(gotKey), []), ds + more);
               after.given == before.given + [frames[k][Find(frames[k], 0)..]]
               <==> before.st.mb == [] && Survives(codec, Units(frames[k]), pktsize, before.st.gotKey)
  {
    hide Legal, Good, Send, Run, TrackRun, Tellable, AnnexB, Splittable, RxUnits, Units, Survives, Mirrors, Neat, AllOf,
         Consecutive;
    var s := Send(codec, frames, |frames|, pktsize);
    var t := TrackRun(s, Start(gotKey), ds);
    assert !t.open by { RunFollows(s, seq0, gotKey, ds); }
    SendParcels(codec, frames, |frames|, pktsize);
    RunTidy(s, gotKey, ds, pktsize);
    RxOfMirrors(s, t, pktsize);
    var x := RxOf(s, t);
    FrameReceived(codec, frames, k, pktsize, t, more, x);
    AllOfConsecutive(codec, frames, k, pktsize, more);
    InRangeConcat(s, ds, more);
    MoreTells(s, gotKey, ds, more, |Send(codec, frames, k, pktsize).ps|);
    RunConcat(s, Start(gotKey), ds, more);
    var us, lib := Units(frames[k]), more[|more| - 1].lib;
    var z := RxUnits(codec, pktsize, x, us, |us|, lib);
    MirrorBytes(s, seq0, gotKey, ds, x);
    MirrorBytes(s, seq0, gotKey, ds + more, z);
    UnitsOf(frames[k]);
    OneFrame(codec, pktsize, x, us, lib);
    UnitsKeepNeat(codec, pktsize, x, us, |us|, lib);
    NoBytes(x.units);
    NeatGiven(codec, pktsize, x);
    NeatGiven(codec, pktsize, z);
    var before, after := Run(s, seq0, RunState(Clean(gotKey), []), ds),
                         Run(s, seq0, RunState(Clean(gotKey), []), ds + more);
    SameLists(z.given, x.given + [us], after.given, before.given + [frames[k][Find(frames[k], 0)..]]);
  }

  lemma AllOfConsecutive(codec: Codec, frames: seq<seq<byte>>, k: nat, pktsize: nat, ds: seq<Delivery>)
    requires SizeOk(codec, pktsize) && LegalFrames(codec, frames) && k < |frames|
    requires AllOf(codec, frames, k, pktsize, ds)
    ensures Consecutive(ds, |Send(codec, frames, k, pktsize).ps|)
  {
  }

  lemma NeatGiven(codec: Codec, pktsize: nat, x: Rx)
    requires SizeOk(codec, pktsize) && Neat(codec, pktsize, x)
    ensures forall i :: 0 <= i < |x.given| ==> Splittable(x.given[i])
  {
  }
}
