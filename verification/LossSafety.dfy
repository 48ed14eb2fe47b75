// What arrives at the codec library when packets are lost, repeated or reordered.
module LossSafety {
  import opened Bytes
  import opened StartCode
  import opened Nal
  import opened Reassembly
  import opened Stream
  import opened Transport

  /** Loss safety. Send any frames of legal units, let any of the packets arrive in any
      order and number as long as the 16-bit numbers can tell. After every one of them the buffer is complete
      sent units, each behind a start code, followed by a proper nonempty prefix of one
      more exactly when `frag` is set; and everything handed over was complete sent units. */
  lemma OnlyWholeUnits(codec: Codec, frames: seq<seq<byte>>, pktsize: nat, seq0: nat, gotKey: bool, ds: seq<Delivery>)
    requires SizeOk(codec, pktsize) && LegalFrames(codec, frames)
    requires var s := Send(codec, frames, |frames|, pktsize);
             InRange(s, ds) && Tellable(s, gotKey, ds)
    ensures var s := Send(codec, frames, |frames|, pktsize);
            var r := Run(s, seq0, RunState(Clean(gotKey), []), ds);
            var t := TrackRun(s, Start(gotKey), ds);
            && r.st.mb == Flat(s.us, t.done) + Partial(s, t)
            && (if r.st.frag then t.open && 0 < |Partial(s, t)| < 3 + |s.us[s.cs[t.at].unit]| else Partial(s, t) == [])
            && |r.given| == |t.given|
            && forall k :: 0 <= k < |r.given| ==> r.given[k] == Flat(s.us, t.given[k])
  {
    hide Good, Legal, Send, Run, TrackRun, Tellable, Flat;
    var s := Send(codec, frames, |frames|, pktsize);
    RunFollows(s, seq0, gotKey, ds);
    var t := TrackRun(s, Start(gotKey), ds);
    if t.open { ReachesIn(s, t.at); }
  }

  lemma ReachesIn(s: Sent, k: nat)
    requires Good(s) && k < |s.cs|
    ensures 0 < s.cs[k].upto
  {
    assert Cut(s.codec, s.ps[k], s.cs[k], s.us);
  }

  /** In a run of at most 2^16 packets the numbers can tell, whatever arrives. */
  lemma ShortRuns(s: Sent, gotKey: bool, ds: seq<Delivery>)
    requires Good(s) && InRange(s, ds) && |s.ps| <= 0x10000
    ensures Tellable(s, gotKey, ds)
  {
    ShortWindow(s, ds);
    WindowTells(s, gotKey, ds);
  }

  lemma {:induction false} ShortWindow(s: Sent, ds: seq<Delivery>)
    requires Good(s) && InRange(s, ds) && |s.ps| <= 0x10000
    ensures Window(s, ds)
    ensures LastFragment(s, ds).Some? ==> LastFragment(s, ds).value < |s.ps|
  {
    hide Cut, Next;
    if ds == [] {
    } else {
      ShortWindow(s, ds[..|ds| - 1]);
    }
  }

  /** The arrival that the fragment state was last looked at for: the last packet that was not
      an unsplit slice before the first keyframe. */
  ghost function LastSeen(s: Sent, gotKey: bool, ds: seq<Delivery>): (i: Option<nat>)
    requires Good(s) && InRange(s, ds)
  {
    if ds == [] then None
    else
      var front, idx := ds[..|ds| - 1], ds[|ds| - 1].idx;
      assert Cut(s.codec, s.ps[idx], s.cs[idx], s.us);
      if Held(s, idx, TrackRun(s, Start(gotKey), front).gotKey) then LastSeen(s, gotKey, front) else Some(idx)
  }

  /** Packets arrive in the order sent, each at most 2^16 after the last one that was looked
      at: at most 65535 in a row are lost or held back. */
  ghost predicate ShortGaps(s: Sent, gotKey: bool, ds: seq<Delivery>)
    requires Good(s) && InRange(s, ds)
  {
    ds != [] ==>
      var front, idx := ds[..|ds| - 1], ds[|ds| - 1].idx;
      && ShortGaps(s, gotKey, front)
      && match LastSeen(s, gotKey, front)
         case None => true
         case Some(i) => i < idx <= i + 0x10000
  }

  lemma UnitOf(s: Sent, k: nat)
    requires Good(s) && k < |s.ps|
    ensures k < |s.cs| && s.cs[k].unit < |s.us| && s.us[s.cs[k].unit] != []
  {
    assert Cut(s.codec, s.ps[k], s.cs[k], s.us);
  }

  /** However long the run, the numbers can tell when no gap is too long. */
  lemma {:induction false} ShortGapsTell(s: Sent, gotKey: bool, ds: seq<Delivery>)
    requires Good(s) && InRange(s, ds) && ShortGaps(s, gotKey, ds)
    ensures Tellable(s, gotKey, ds)
    ensures var t := TrackRun(s, Start(gotKey), ds);
            t.open ==> LastSeen(s, gotKey, ds) == Some(t.at)
  {
    hide TrackStep, Held, Good;
    if ds == [] {
    } else {
      var front, d := ds[..|ds| - 1], ds[|ds| - 1];
      ShortGapsTell(s, gotKey, front);
      UnitOf(s, d.idx);
      LooksAt(s, TrackRun(s, Start(gotKey), front), d);
    }
  }

  lemma LooksAt(s: Sent, t: Track, d: Delivery)
    requires Good(s) && Sound(s, t) && d.idx < |s.cs|
    requires s.cs[d.idx].unit < |s.us| && s.us[s.cs[d.idx].unit] != []
    ensures var t' := TrackStep(s, t, d);
            if Held(s, d.idx, t.gotKey) then t' == t else t'.open ==> t'.at == d.idx
    ensures s.codec.H265? || t.gotKey ==> !Held(s, d.idx, t.gotKey)
  {
    hide PlainView, Flat;
    assert Cut(s.codec, s.ps[d.idx], s.cs[d.idx], s.us);
  }

  lemma StaysSeen(s: Sent, t: Track, d: Delivery)
    requires Good(s) && Sound(s, t) && d.idx < |s.cs| && t.gotKey
    ensures TrackStep(s, t, d).gotKey
  {
    hide Flat, PlainView;
  }

  /** For H.265, and for H.264 once a keyframe was seen, every packet is looked at: in a run of
      any length the numbers can tell as long as packets arrive in the order sent and at most
      65535 are lost in a row. (Before the first H.264 keyframe the gaps of `ShortGaps` count
      refused slices too: they leave an open fragment as it is, see `Splicing.GatedShown`.) */
  lemma {:induction false} ShortBursts(s: Sent, gotKey: bool, ds: seq<Delivery>)
    requires Good(s) && InRange(s, ds) && (s.codec.H265? || gotKey)
    requires forall k :: 0 < k < |ds| ==> ds[k - 1].idx < ds[k].idx <= ds[k - 1].idx + 0x10000
    ensures ShortGaps(s, gotKey, ds) && Tellable(s, gotKey, ds)
    ensures gotKey ==> TrackRun(s, Start(gotKey), ds).gotKey
    ensures LastSeen(s, gotKey, ds) == if ds == [] then None else Some(ds[|ds| - 1].idx)
  {
    hide TrackStep, Held, Good;
    if ds == [] {
    } else {
      var front, d := ds[..|ds| - 1], ds[|ds| - 1];
      ShortBursts(s, gotKey, front);
      UnitOf(s, d.idx);
      var t := TrackRun(s, Start(gotKey), front);
      LooksAt(s, t, d);
      if gotKey { StaysSeen(s, t, d); }
    }
    ShortGapsTell(s, gotKey, ds);
  }

  // ----- the condition is exact -----

  /** The condition is exact: a continuation other than the next one is dropped, and the
      unfinished unit with it, if and only if the numbers can tell it from the next one;
      otherwise its bytes are spliced on. */
  lemma DroppedExactlyWhen(s: Sent, seq0: nat, r: RunState, t: Track, d: Delivery)
    requires Good(s) && Sound(s, t) && Follows(s, seq0, r, t) && d.idx < |s.ps|
    requires t.open && s.cs[d.idx].from > 0 && d.idx != t.at + 1
    ensures s.cs[d.idx].unit < |s.us| && s.cs[d.idx].upto <= 3 + |s.us[s.cs[d.idx].unit]|
    ensures var c := s.cs[d.idx];
            var v := ViewOf(s.codec, s.ps[d.idx].pld, r.st.gotKey);
            var k := Take(r.st, v, (seq0 + d.idx) % 0x10000);
            && (k.st.mb == Flat(s.us, t.done) && !k.st.frag && !k.go <==> Told(t.at, d.idx))
            && (!Told(t.at, d.idx) ==>
                  k == Taken(State(Buffer(s, t) + Carried(s, d.idx), c.upto < 3 + |s.us[c.unit]|, r.st.fragStart,
                                   (seq0 + d.idx) % 0x10000, r.st.gotKey), true, Ok))
  {
    hide ViewOf, PlainView, NextSeq, Flat, Take, Cut, Next, Rewound;
    ContinuationView(s, d.idx, t.gotKey);
    var c := s.cs[d.idx];
    TakeContinuation(r.st, Carried(s, d.idx), c.upto == 3 + |s.us[c.unit]|, (seq0 + d.idx) % 0x10000);
    NextSeqIs(seq0, t.at, d.idx);
    RewoundIs(s, seq0, r, t);
  }

  /** No continuation was taken in behind a fragment that it does not follow. */
  ghost predicate NothingSpliced(s: Sent, seq0: nat, gotKey: bool, ds: seq<Delivery>)
    requires Good(s) && InRange(s, ds)
  {
    ds != [] ==>
      var front, idx := ds[..|ds| - 1], ds[|ds| - 1].idx;
      var st := Run(s, seq0, RunState(Clean(gotKey), []), front).st;
      var t := TrackRun(s, Start(gotKey), front);
      && NothingSpliced(s, seq0, gotKey, front)
      && (t.open && s.cs[idx].from > 0 && idx != t.at + 1 ==>
            !Take(st, ViewOf(s.codec, s.ps[idx].pld, st.gotKey), (seq0 + idx) % 0x10000).go)
  }

  /** Over whole runs: nothing is spliced if and only if the numbers can tell. */
  lemma {:induction false} NothingSplicedExactlyWhen(s: Sent, seq0: nat, gotKey: bool, ds: seq<Delivery>)
    requires Good(s) && InRange(s, ds)
    ensures NothingSpliced(s, seq0, gotKey, ds) <==> Tellable(s, gotKey, ds)
  {
    hide ViewOf, Take, TrackStep, RunStep, Follows, Good, Flat, Carried;
    if ds == [] {
    } else {
      var front, d := ds[..|ds| - 1], ds[|ds| - 1];
      NothingSplicedExactlyWhen(s, seq0, gotKey, front);
      var t := TrackRun(s, Start(gotKey), front);
      assert |s.ps| == |s.cs| by { SameLengths(s); }
      if Tellable(s, gotKey, front) && t.open && s.cs[d.idx].from > 0 && d.idx != t.at + 1 {
        RunFollows(s, seq0, gotKey, front);
        DroppedExactlyWhen(s, seq0, Run(s, seq0, RunState(Clean(gotKey), []), front), t, d);
      }
    }
  }

  lemma SameLengths(s: Sent)
    requires Good(s)
    ensures |s.ps| == |s.cs|
  {
  }

  // ----- order -----

  predicate Increasing(ds: seq<Delivery>) {
    forall k :: 0 < k < |ds| ==> ds[k - 1].idx < ds[k].idx
  }

  predicate Ascending(ids: seq<nat>) {
    forall k :: 0 < k < |ids| ==> ids[k - 1] < ids[k]
  }

  function Joined(given: seq<seq<nat>>): seq<nat> {
    if given == [] then [] else Joined(given[..|given| - 1]) + given[|given| - 1]
  }

  /** The numbers of all units handed over and still buffered, in order. */
  function Numbers(t: Track): seq<nat> {
    Joined(t.given) + t.done
  }

  lemma {:induction false} ChunksAscend(s: Sent, i: nat, j: nat)
    requires Good(s) && i < j < |s.cs|
    ensures s.cs[i].unit < |s.us|
    ensures s.cs[i].unit <= s.cs[j].unit
    ensures s.cs[i].upto == 3 + |s.us[s.cs[i].unit]| ==> s.cs[i].unit < s.cs[j].unit
    decreases j
  {
    hide Cut;
    assert Next(s.us, s.cs[j - 1], s.cs[j]);
    if i == j - 1 {
    } else {
      ChunksAscend(s, i, j - 1);
    }
  }

  /** Every number so far is of a unit that ended at or before packet `last`. */
  ghost predicate EndedBy(s: Sent, ids: seq<nat>, last: nat)
    requires last < |s.cs|
  {
    s.cs[last].unit < |s.us| &&
    forall k :: 0 <= k < |ids| ==>
      ids[k] < s.cs[last].unit
      || (ids[k] == s.cs[last].unit && s.cs[last].upto == 3 + |s.us[s.cs[last].unit]|)
  }

  lemma NumbersSettle(s: Sent, t: Track, marker: bool, lib: LibAnswer)
    requires Sound(s, t)
    ensures Numbers(Settle(s, t, marker, lib)) <= Numbers(t)
  {
    hide Flat;
    var t' := Settle(s, t, marker, lib);
    if t'.given != t.given {
      assert t'.given[..|t'.given| - 1] == t.given;
      assert Joined(t.given) + t.done + [] == Joined(t.given) + t.done;
    } else {
      assert Joined(t.given) + [] == Joined(t.given);
    }
  }

  // A step adds at most the number of the unit its packet ends, and may drop the buffer.
  lemma NumbersStep(s: Sent, t: Track, d: Delivery)
    requires Good(s) && Sound(s, t) && d.idx < |s.cs|
    requires s.cs[d.idx].unit < |s.us|
    ensures var c := s.cs[d.idx];
            Numbers(TrackStep(s, t, d)) <= Numbers(t) + if c.upto == 3 + |s.us[c.unit]| then [c.unit] else []
  {
    hide Flat, PlainView, Settle, Joined;
    assert Cut(s.codec, s.ps[d.idx], s.cs[d.idx], s.us);
    var c := s.cs[d.idx];
    var ended := t.(done := t.done + [c.unit], open := false, at := 0);
    Assoc(Joined(t.given), t.done, [c.unit]);
    if Known(s.us, ended.done) { NumbersSettle(s, ended, c.marker, d.lib); }
    if c.upto < 3 + |s.us[c.unit]| {
      NumbersSettle(s, t.(open := true, at := d.idx), c.marker, d.lib);
    }
  }

  lemma AscendingGrows(s: Sent, ids: seq<nat>, ids': seq<nat>, prev: nat, idx: nat)
    requires Good(s) && prev < idx < |s.cs| && EndedBy(s, ids, prev) && Ascending(ids)
    requires s.cs[idx].unit < |s.us|
    requires ids' <= ids + if s.cs[idx].upto == 3 + |s.us[s.cs[idx].unit]| then [s.cs[idx].unit] else []
    ensures Ascending(ids') && EndedBy(s, ids', idx)
  {
    hide Good;
    ChunksAscend(s, prev, idx);
    var all := ids + if s.cs[idx].upto == 3 + |s.us[s.cs[idx].unit]| then [s.cs[idx].unit] else [];
    assert forall k :: 0 <= k < |ids'| ==> ids'[k] == all[k];
  }

  /** When packets arrive in the order sent, units come out in the order sent, each at most
      once, however many packets are missing. */
  lemma {:induction false} InOrder(s: Sent, gotKey: bool, ds: seq<Delivery>)
    requires Good(s) && InRange(s, ds) && Increasing(ds)
    ensures Ascending(Numbers(TrackRun(s, Start(gotKey), ds)))
    ensures if ds == [] then Numbers(TrackRun(s, Start(gotKey), ds)) == []
            else EndedBy(s, Numbers(TrackRun(s, Start(gotKey), ds)), ds[|ds| - 1].idx)
  {
    hide PlainView, TrackStep, Numbers;
    if ds == [] {
      StartEmpty(gotKey);
    } else {
      var front, d := ds[..|ds| - 1], ds[|ds| - 1];
      InOrder(s, gotKey, front);
      assert Cut(s.codec, s.ps[d.idx], s.cs[d.idx], s.us);
      var t := TrackRun(s, Start(gotKey), front);
      NumbersStep(s, t, d);
      if front != [] {
        AscendingGrows(s, Numbers(t), Numbers(TrackStep(s, t, d)), front[|front| - 1].idx, d.idx);
      }
    }
  }

  lemma StartEmpty(gotKey: bool)
    ensures Numbers(Start(gotKey)) == []
  {
  }

  // ----- nothing intact is thrown away -----

  predicate Consecutive(ds: seq<Delivery>, first: nat) {
    forall k :: 0 <= k < |ds| ==> ds[k].idx == first + k
  }

  // Between the first and the last packet of a unit.
  lemma {:induction false} MidUnit(s: Sent, f: nat, i: nat, l: nat)
    requires Good(s) && f <= i < l < |s.cs| && s.cs[f].unit == s.cs[l].unit
    ensures s.cs[i].unit == s.cs[i + 1].unit == s.cs[l].unit < |s.us|
    ensures s.cs[i].upto < 3 + |s.us[s.cs[i].unit]| && !s.cs[i].marker
    ensures s.cs[i + 1].from == s.cs[i].upto > 0 && s.cs[i].upto <= s.cs[l].from
    decreases l - i
  {
    hide PlainView;
    assert Cut(s.codec, s.ps[i], s.cs[i], s.us);
    assert Cut(s.codec, s.ps[i + 1], s.cs[i + 1], s.us);
    assert Next(s.us, s.cs[i], s.cs[i + 1]);
    ChunksAscend(s, i, l);
    if f < i { ChunksAscend(s, f, i); }
    if i + 1 == l {
    } else {
      MidUnit(s, f, i + 1, l);
    }
  }

  // What a packet of a unit that is not its last leaves, the frame's complete units taking
  // `size` bytes: the unit open as far as packet k goes, or nothing.
  function Started(t: Track, size: nat, s: Sent, k: nat): Track
    requires k < |s.cs|
  {
    if size + s.cs[k].upto <= DECODE_MAXSZ then t.(open := true, at := k) else t.(done := [], open := false, at := 0)
  }

  lemma FirstPacket(s: Sent, t: Track, f: nat, lib: LibAnswer)
    requires Good(s) && Sound(s, t) && f < |s.cs| && s.cs[f].unit < |s.us|
    requires s.cs[f].from == 0 && s.cs[f].upto < 3 + |s.us[s.cs[f].unit]| && !s.cs[f].marker
    ensures TrackStep(s, t, Delivery(f, lib)) == Started(t, |Flat(s.us, t.done)|, s, f)
  {
    hide PlainView, Flat;
    assert Cut(s.codec, s.ps[f], s.cs[f], s.us);
  }

  lemma NextPacket(s: Sent, t: Track, k: nat, lib: LibAnswer)
    requires Good(s) && Sound(s, t) && 0 < k < |s.cs| && s.cs[k].unit < |s.us|
    requires t.open && t.at == k - 1 && s.cs[k].from > 0
    requires s.cs[k].upto < 3 + |s.us[s.cs[k].unit]| && !s.cs[k].marker
    ensures TrackStep(s, t, Delivery(k, lib)) == Started(t, |Flat(s.us, t.done)|, s, k)
  {
    hide PlainView, Flat;
    assert Cut(s.codec, s.ps[k], s.cs[k], s.us);
  }

  lemma LastPacket(s: Sent, t: Track, k: nat, lib: LibAnswer)
    requires Good(s) && Sound(s, t) && k < |s.cs| && s.cs[k].unit < |s.us|
    requires s.us[s.cs[k].unit] != [] && !Held(s, k, t.gotKey)
    requires s.cs[k].from > 0 ==> t.open && t.at + 1 == k
    requires s.cs[k].upto == 3 + |s.us[s.cs[k].unit]|
    ensures TrackStep(s, t, Delivery(k, lib)) == Settle(s, Complete(s, t, s.cs[k].unit), s.cs[k].marker, lib)
  {
    hide PlainView, Flat, Settle;
  }

  // Some of a unit's packets, from its first on, without its last.
  lemma {:induction false} Partway(s: Sent, t: Track, f: nat, l: nat, ds: seq<Delivery>)
    requires Good(s) && Sound(s, t) && InRange(s, ds) && Consecutive(ds, f)
    requires f < l < |s.cs| && s.cs[f].from == 0 && s.cs[l].unit == s.cs[f].unit
    requires 0 < |ds| <= l - f
    ensures TrackRun(s, t, ds) == Started(t, |Flat(s.us, t.done)|, s, f + |ds| - 1)
  {
    hide Good, Flat, TrackStep;
    var n := |ds| - 1;
    assert ds[n] == Delivery(f + n, ds[n].lib);
    MidUnit(s, f, f + n, l);
    if n > 0 {
      Partway(s, t, f, l, ds[..n]);
      MidUnit(s, f, f + n - 1, l);
      FromUpto(s, f + n);
      var p := TrackRun(s, t, ds[..n]);
      if p.open {
        NextPacket(s, p, f + n, ds[n].lib);
      } else {
        StrayPacket(s, p, f + n, ds[n].lib);
      }
    } else {
      FirstPacket(s, t, f, ds[n].lib);
    }
  }

  /** All packets of a unit, one after the other, whatever happened before: an unsplit slice
      before the first keyframe leaves everything as it was; a frame that outgrows the limit
      before the unit's last packet is thrown away so far; otherwise the unit is complete. */
  lemma UnitArrives(s: Sent, t: Track, f: nat, ds: seq<Delivery>)
    requires Good(s) && Sound(s, t) && InRange(s, ds) && ds != [] && Consecutive(ds, f)
    requires f + |ds| <= |s.cs| && |Flat(s.us, t.done)| <= DECODE_MAXSZ
    requires s.cs[f].from == 0 && s.cs[f].unit < |s.us| && s.us[s.cs[f].unit] != []
    requires var c := s.cs[f + |ds| - 1]; c.unit == s.cs[f].unit && c.upto == 3 + |s.us[c.unit]|
    ensures var c := s.cs[f + |ds| - 1];
            TrackRun(s, t, ds)
            == if Held(s, f, t.gotKey) then t
               else if |Flat(s.us, t.done)| + c.from > DECODE_MAXSZ then t.(done := [], open := false, at := 0)
               else Settle(s, Complete(s, t, c.unit), c.marker, ds[|ds| - 1].lib)
  {
    hide Cut, Next, Flat, TrackStep, TrackRun, Good, Consecutive, Settle;
    var n := |ds| - 1;
    var l := f + n;
    LastOfConsecutive(ds, f);
    RunUnfolds(s, t, ds);
    if n > 0 {
      FrontOfConsecutive(ds, f);
      Partway(s, t, f, l, ds[..n]);
      MidUnit(s, f, l - 1, l);
      MidUnit(s, f, f, l);
      var p := TrackRun(s, t, ds[..n]);
      if p.open {
        LastPacket(s, p, l, ds[n].lib);
      } else {
        StrayPacket(s, p, l, ds[n].lib);
      }
    } else {
      assert TrackRun(s, t, ds[..0]) == t by { RunEmpty(s, t, ds[..0]); }
      if Held(s, f, t.gotKey) {
        HeldPacket(s, t, f, ds[0].lib);
      } else {
        LastPacket(s, t, l, ds[0].lib);
      }
    }
  }

  lemma HeldPacket(s: Sent, t: Track, k: nat, lib: LibAnswer)
    requires Good(s) && Sound(s, t) && k < |s.cs| && s.cs[k].unit < |s.us| && s.us[s.cs[k].unit] != []
    requires Held(s, k, t.gotKey)
    ensures TrackStep(s, t, Delivery(k, lib)) == t
  {
    hide PlainView, Flat, Settle;
  }

  /** So no intact unit is thrown away, unless it is an unsplit slice before the first keyframe
      or the frame has outgrown the limit before the unit's last packet. */
  lemma IntactUnitKept(s: Sent, t: Track, f: nat, ds: seq<Delivery>)
    requires Good(s) && Sound(s, t) && InRange(s, ds) && ds != [] && Consecutive(ds, f)
    requires f + |ds| <= |s.cs|
    requires s.cs[f].from == 0 && s.cs[f].unit < |s.us| && s.us[s.cs[f].unit] != []
    requires var c := s.cs[f + |ds| - 1];
             c.unit == s.cs[f].unit && c.upto == 3 + |s.us[c.unit]|
             && |Flat(s.us, t.done)| + (if c.marker then c.from else c.upto) <= DECODE_MAXSZ
    requires !Held(s, f, t.gotKey)
    ensures var t' := TrackRun(s, t, ds);
            var done := t.done + [s.cs[f].unit];
            && !t'.open
            && if s.cs[f + |ds| - 1].marker then t'.given == t.given + [done] && t'.done == []
               else t'.given == t.given && t'.done == done
  {
    hide Cut, Next, Flat, TrackStep, TrackRun, Good, Consecutive;
    FromUpto(s, f + |ds| - 1);
    UnitArrives(s, t, f, ds);
    FlatSnoc(s.us, t.done, s.cs[f].unit);
    BufferOf(s, Complete(s, t, s.cs[f].unit));
  }

  lemma RunUnfolds(s: Sent, t: Track, ds: seq<Delivery>)
    requires Good(s) && Sound(s, t) && InRange(s, ds) && ds != []
    ensures TrackRun(s, t, ds) == TrackStep(s, TrackRun(s, t, ds[..|ds| - 1]), ds[|ds| - 1])
  {
  }

  lemma RunEmpty(s: Sent, t: Track, ds: seq<Delivery>)
    requires Good(s) && Sound(s, t) && ds == []
    ensures TrackRun(s, t, ds) == t
  {
  }

  lemma LastOfConsecutive(ds: seq<Delivery>, f: nat)
    requires Consecutive(ds, f) && ds != []
    ensures ds[|ds| - 1] == Delivery(f + |ds| - 1, ds[|ds| - 1].lib)
  {
  }

  lemma FrontOfConsecutive(ds: seq<Delivery>, f: nat)
    requires Consecutive(ds, f) && ds != []
    ensures Consecutive(ds[..|ds| - 1], f)
  {
  }

  lemma FromUpto(s: Sent, k: nat)
    requires Good(s) && k < |s.cs|
    ensures s.cs[k].from < s.cs[k].upto
  {
    assert Cut(s.codec, s.ps[k], s.cs[k], s.us);
  }

  lemma BufferOf(s: Sent, t: Track)
    requires Sound(s, t) && !t.open
    ensures Buffer(s, t) == Flat(s.us, t.done)
  {
  }
}
