// What arrives at the codec library when nothing is lost.
module RoundTrip {
  import opened Bytes
  import opened StartCode
  import opened Nal
  import opened Reassembly
  import opened Stream
  import opened Transport
  import opened LossSafety

  // ----- the last packet of a unit -----

  lemma {:induction false} FuChunkMarkers(n: nat, from: nat, body: nat, total: nat, sz: nat, marker: bool)
    requires sz > 0
    ensures var cs := FuChunks(n, from, body, total, sz, marker);
            && |cs| > 0 && cs[|cs| - 1].marker == marker
            && forall i :: 0 <= i < |cs| ==> cs[i].unit == n && (i < |cs| - 1 ==> !cs[i].marker)
    decreases total - body
  {
    if total <= body + sz {
    } else {
      FuChunkMarkers(n, body + sz, body + sz, total, sz, marker);
      var cs, rest := FuChunks(n, from, body, total, sz, marker), FuChunks(n, body + sz, body + sz, total, sz, marker);
      assert cs == [Chunk(n, from, body + sz, false)] + rest;
      assert forall i :: 0 < i < |cs| ==> cs[i] == rest[i - 1];
    }
  }

  lemma UnitMarkers(codec: Codec, n: nat, u: seq<byte>, marker: bool, pktsize: nat)
    requires SizeOk(codec, pktsize)
    ensures var cs := UnitChunks(codec, n, u, marker, pktsize);
            && cs != [] && cs[|cs| - 1].marker == marker
            && forall i :: 0 <= i < |cs| ==> cs[i].unit == n && (i < |cs| - 1 ==> !cs[i].marker)
  {
    if Splits(codec, u, pktsize) {
      FuChunkMarkers(n, 0, 3 + HdrLen(codec), 3 + |u|, pktsize - HdrLen(codec) - 1, marker);
    }
  }

  /** The bytes of the last packet of a unit, start code and rebuilt header included. */
  function LastBytes(codec: Codec, u: seq<byte>, pktsize: nat): int
    requires SizeOk(codec, pktsize)
  {
    if Splits(codec, u, pktsize)
    then LastPiece(3 + HdrLen(codec), 3 + |u|, pktsize - HdrLen(codec) - 1)
    else 3 + |u|
  }

  function LastPiece(body: nat, total: nat, sz: nat): (r: int)
    requires sz > 0
    ensures body < total ==> 0 < r <= total - body
    decreases total - body
  {
    if total <= body + sz then total - body else LastPiece(body + sz, total, sz)
  }

  /** All but the last packet of the frame stay within the decoder's limit. */
  predicate FrameFits(codec: Codec, us: seq<seq<byte>>, pktsize: nat)
    requires SizeOk(codec, pktsize)
  {
    us != [] ==> |AnnexB(us)| - LastBytes(codec, us[|us| - 1], pktsize) <= DECODE_MAXSZ
  }

  lemma {:induction false} FuChunkBounds(n: nat, from: nat, body: nat, total: nat, sz: nat, marker: bool)
    requires sz > 0 && from <= body < total
    requires from < body ==> total > body + sz
    ensures var cs := FuChunks(n, from, body, total, sz, marker);
            && cs[|cs| - 1].upto == total && cs[|cs| - 1].from == total - LastPiece(body, total, sz)
            && forall i :: 0 <= i < |cs| - 1 ==> cs[i].upto <= total - LastPiece(body, total, sz)
    decreases total - body
  {
    if total <= body + sz {
    } else {
      FuChunkBounds(n, body + sz, body + sz, total, sz, marker);
      var cs, rest := FuChunks(n, from, body, total, sz, marker), FuChunks(n, body + sz, body + sz, total, sz, marker);
      assert cs == [Chunk(n, from, body + sz, false)] + rest;
      assert forall i :: 0 < i < |cs| ==> cs[i] == rest[i - 1];
    }
  }

  /** In the packets of a unit, only the last reaches into its last LastBytes bytes. */
  lemma UnitChunkBounds(codec: Codec, n: nat, u: seq<byte>, marker: bool, pktsize: nat)
    requires SizeOk(codec, pktsize)
    ensures 0 < LastBytes(codec, u, pktsize) <= 3 + |u|
    ensures var cs := UnitChunks(codec, n, u, marker, pktsize);
            && cs != [] && cs[|cs| - 1].upto == 3 + |u|
            && cs[|cs| - 1].from == 3 + |u| - LastBytes(codec, u, pktsize)
            && forall i :: 0 <= i < |cs| - 1 ==> cs[i].upto <= 3 + |u| - LastBytes(codec, u, pktsize)
  {
    if Splits(codec, u, pktsize) {
      FuChunkBounds(n, 0, 3 + HdrLen(codec), 3 + |u|, pktsize - HdrLen(codec) - 1, marker);
    }
  }

  // ----- a receiver without packets -----

  /** What a receiver of whole units holds: the units of the frame so far, whether a keyframe
      was seen, and the unit lists it has handed over. */
  datatype Rx = Rx(units: seq<seq<byte>>, gotKey: bool, given: seq<seq<seq<byte>>>)

  /** An H.264 slice that goes out unsplit is not taken before the first keyframe. */
  predicate HeldBack(codec: Codec, u: seq<byte>, pktsize: nat, gotKey: bool)
    requires SizeOk(codec, pktsize)
  {
    codec.H264? && !gotKey && u != [] && H264Type(u[0]) == H264_SLICE && !Splits(codec, u, pktsize)
  }

  /** One unit: held back, or too much before its last packet, or handed over with what is
      there, or too much after its last packet, or kept. */
  function RxUnit(codec: Codec, pktsize: nat, x: Rx, u: seq<byte>, marker: bool, lib: LibAnswer): Rx
    requires SizeOk(codec, pktsize)
  {
    var size := |AnnexB(x.units)| + 3 + |u|;
    if HeldBack(codec, u, pktsize, x.gotKey) then x
    else if size - LastBytes(codec, u, pktsize) > DECODE_MAXSZ then x.(units := [])
    else if marker then Rx([], x.gotKey || lib == Picture(true), x.given + [x.units + [u]])
    else if size > DECODE_MAXSZ then x.(units := [])
    else x.(units := x.units + [u])
  }

  /** The first k units of a frame. */
  function RxUnits(codec: Codec, pktsize: nat, x: Rx, us: seq<seq<byte>>, k: nat, lib: LibAnswer): Rx
    requires SizeOk(codec, pktsize) && k <= |us|
  {
    if k == 0 then x
    else RxUnit(codec, pktsize, RxUnits(codec, pktsize, x, us, k - 1, lib), us[k - 1], k == |us|, lib)
  }

  /** The first k frames, the library answering libs[i] should frame i be handed over. */
  function RxFrames(codec: Codec, frames: seq<seq<byte>>, k: nat, pktsize: nat, gotKey: bool, libs: seq<LibAnswer>): Rx
    requires SizeOk(codec, pktsize) && k <= |frames| == |libs|
  {
    if k == 0 then Rx([], gotKey, [])
    else
      var us := Units(frames[k - 1]);
      RxUnits(codec, pktsize, RxFrames(codec, frames, k - 1, pktsize, gotKey, libs), us, |us|, libs[k - 1])
  }

  // ----- in sequence the decoder is that receiver -----

  ghost predicate Mirrors(s: Sent, t: Track, x: Rx)
    requires Sound(s, t)
  {
    && !t.open && t.gotKey == x.gotKey
    && Listed(s.us, t.done) == x.units && |AnnexB(x.units)| <= DECODE_MAXSZ
    && |t.given| == |x.given|
    && forall k :: 0 <= k < |t.given| ==> Listed(s.us, t.given[k]) == x.given[k]
  }

  /** Everything sent so far is a beginning of everything sent. */
  predicate Begins(a: Sent, s: Sent) {
    a.codec == s.codec && a.us <= s.us && a.ps <= s.ps && a.cs <= s.cs
  }

  lemma UnitChunkFirst(codec: Codec, n: nat, u: seq<byte>, marker: bool, pktsize: nat)
    requires SizeOk(codec, pktsize)
    ensures var c := UnitChunks(codec, n, u, marker, pktsize)[0];
            c.unit == n && c.from == 0 && (c.upto == 3 + |u| <==> !Splits(codec, u, pktsize))
  {
  }

  // Where the packets of the unit that comes after those in a are.
  lemma UnitAt(s: Sent, a: Sent, u: seq<byte>, marker: bool, pktsize: nat, gotKey: bool)
    requires SizeOk(a.codec, pktsize) && Legal(a.codec, u) && Begins(AddUnit(a, u, marker, pktsize), s)
    ensures u != [] && |a.us| < |s.us| && s.us[|a.us|] == u
    ensures var f, m := |a.cs|, |UnitChunks(a.codec, |a.us|, u, marker, pktsize)|;
            && 0 < m && f + m <= |s.cs|
            && s.cs[f].unit == |a.us| && s.cs[f].from == 0
            && (Held(s, f, gotKey) <==> HeldBack(a.codec, u, pktsize, gotKey))
            && var c := s.cs[f + m - 1];
               c == Chunk(|a.us|, 3 + |u| - LastBytes(a.codec, u, pktsize), 3 + |u|, marker)
  {
    hide UnitChunks, UnitPackets, LastBytes, Splits;
    var f, cs := |a.cs|, UnitChunks(a.codec, |a.us|, u, marker, pktsize);
    UnitChunkFirst(a.codec, |a.us|, u, marker, pktsize);
    UnitChunkBounds(a.codec, |a.us|, u, marker, pktsize);
    UnitMarkers(a.codec, |a.us|, u, marker, pktsize);
    assert forall i :: 0 <= i < |cs| ==> (a.cs + cs)[f + i] == cs[i];
    assert s.us[|a.us|] == (a.us + [u])[|a.us|] == u;
  }

  // The packets of the unit that comes after those in a.
  lemma UnitReceived(s: Sent, a: Sent, u: seq<byte>, marker: bool, pktsize: nat, t: Track, ds: seq<Delivery>, x: Rx)
    requires SizeOk(a.codec, pktsize) && Legal(a.codec, u) && Good(a) && Begins(AddUnit(a, u, marker, pktsize), s)
    requires Good(s) && InRange(s, ds) && Consecutive(ds, |a.cs|)
    requires |ds| == |UnitChunks(a.codec, |a.us|, u, marker, pktsize)|
    requires Sound(s, t) && Mirrors(s, t, x)
    ensures ds != []
    ensures Mirrors(s, TrackRun(s, t, ds), RxUnit(a.codec, pktsize, x, u, marker, ds[|ds| - 1].lib))
  {
    hide Good, Legal, UnitChunks, LastBytes, TrackRun, Consecutive, AnnexB, AddUnit, Begins, Held, HeldBack, InRange;
    SameCount(a, s);
    UnitAt(s, a, u, marker, pktsize, t.gotKey);
    UnitArrives(s, t, |a.cs|, ds);
    SettleMirrors(s, t, x, |a.us|, marker, ds[|ds| - 1].lib);
  }

  lemma SameCount(a: Sent, s: Sent)
    requires Good(a) && Good(s)
    ensures |a.ps| == |a.cs| && |s.ps| == |s.cs|
  {
  }

  lemma SettleMirrors(s: Sent, t: Track, x: Rx, n: nat, marker: bool, lib: LibAnswer)
    requires Sound(s, t) && Mirrors(s, t, x) && n < |s.us|
    ensures Mirrors(s, t.(done := [], open := false, at := 0), x.(units := []))
    ensures var size := |AnnexB(x.units)| + 3 + |s.us[n]|;
            Mirrors(s, Settle(s, Complete(s, t, n), marker, lib),
                    if marker then Rx([], x.gotKey || lib == Picture(true), x.given + [x.units + [s.us[n]]])
                    else if size > DECODE_MAXSZ then x.(units := [])
                    else x.(units := x.units + [s.us[n]]))
  {
    FlatSnoc(s.us, t.done, n);
    FlatEmpty(s.us);
    BufferOf(s, Complete(s, t, n));
  }

  lemma {:induction false} RunConcat(s: Sent, t: Track, a: seq<Delivery>, b: seq<Delivery>)
    requires Good(s) && Sound(s, t) && InRange(s, a) && InRange(s, b)
    ensures InRange(s, a + b)
    ensures TrackRun(s, t, a + b) == TrackRun(s, TrackRun(s, t, a), b)
    decreases |b|
  {
    hide Good, Sound, TrackStep;
    if b == [] {
      assert a + b == a;
    } else {
      assert (a + b)[..|a + b| - 1] == a + b[..|b| - 1];
      RunConcat(s, t, a, b[..|b| - 1]);
    }
  }

  lemma {:induction false} AddUnitsBegins(s: Sent, us: seq<seq<byte>>, j: nat, k: nat, pktsize: nat)
    requires SizeOk(s.codec, pktsize) && j <= k <= |us|
    requires forall i :: 0 <= i < |us| ==> Legal(s.codec, us[i])
    ensures Begins(AddUnits(s, us, j, pktsize), AddUnits(s, us, k, pktsize))
  {
    hide UnitPackets, UnitChunks, Legal;
    if j == k {
    } else {
      AddUnitsBegins(s, us, j, k - 1, pktsize);
    }
  }

  lemma {:induction false} SendBegins(codec: Codec, frames: seq<seq<byte>>, j: nat, k: nat, pktsize: nat)
    requires SizeOk(codec, pktsize) && LegalFrames(codec, frames) && j <= k <= |frames|
    ensures Begins(Send(codec, frames, j, pktsize), Send(codec, frames, k, pktsize))
  {
    hide AddUnits, Legal, Good, Units;
    if j == k {
    } else {
      SendBegins(codec, frames, j, k - 1, pktsize);
      var us := Units(frames[k - 1]);
      AddUnitsBegins(Send(codec, frames, k - 1, pktsize), us, 0, |us|, pktsize);
      AddNone(Send(codec, frames, k - 1, pktsize), us, pktsize);
    }
  }

  lemma AddNone(s: Sent, us: seq<seq<byte>>, pktsize: nat)
    requires SizeOk(s.codec, pktsize)
    requires forall i :: 0 <= i < |us| ==> Legal(s.codec, us[i])
    ensures AddUnits(s, us, 0, pktsize) == s
  {
  }

  /** All packets of a run, each once, in order. */
  predicate InSequence(ds: seq<Delivery>) {
    forall k :: 0 <= k < |ds| ==> ds[k].idx == k
  }

  lemma {:induction false} InSequenceWindow(s: Sent, ds: seq<Delivery>)
    requires Good(s) && InRange(s, ds) && InSequence(ds)
    ensures Window(s, ds)
  {
    hide PlainView;
    if ds == [] {
    } else {
      var n := |ds| - 1;
      InSequenceWindow(s, ds[..n]);
      assert ds[n].idx == n;
      if s.cs[n].from > 0 {
        assert Cut(s.codec, s.ps[n], s.cs[n], s.us);
        assert n > 0 && Next(s.us, s.cs[n - 1], s.cs[n]);
        assert ds[..n][n - 1].idx == n - 1;
        assert LastFragment(s, ds[..n]) == Some(n - 1);
      }
    }
  }

  lemma CutConsecutive(s: Sent, ds: seq<Delivery>, f: nat, m: nat)
    requires InRange(s, ds) && Consecutive(ds, f) && m <= |ds|
    ensures InRange(s, ds[..m]) && Consecutive(ds[..m], f)
    ensures InRange(s, ds[m..]) && Consecutive(ds[m..], f + m)
    ensures ds[..m] + ds[m..] == ds
    ensures m < |ds| ==> ds[m..][|ds| - m - 1] == ds[|ds| - 1]
  {
  }

  lemma BeginsLonger(a: Sent, b: Sent, s: Sent)
    requires Begins(a, b) && Begins(b, s)
    ensures Begins(a, s) && |a.cs| <= |b.cs| <= |s.cs| && |a.ps| <= |b.ps| <= |s.ps|
  {
  }

  // The packets of the first k units of the frame that comes after a.
  lemma {:induction false} UnitsReceived(s: Sent, a: Sent, us: seq<seq<byte>>, k: nat, pktsize: nat,
                                         t: Track, ds: seq<Delivery>, x: Rx, lib: LibAnswer)
    requires SizeOk(a.codec, pktsize) && k <= |us| && forall i :: 0 <= i < |us| ==> Legal(a.codec, us[i])
    requires Good(a) && Good(s) && Begins(AddUnits(a, us, k, pktsize), s)
    requires InRange(s, ds) && Consecutive(ds, |a.cs|) && |ds| == |AddUnits(a, us, k, pktsize).cs| - |a.cs|
    requires ds != [] && k == |us| ==> ds[|ds| - 1].lib == lib
    requires Sound(s, t) && Mirrors(s, t, x)
    ensures Mirrors(s, TrackRun(s, t, ds), RxUnits(a.codec, pktsize, x, us, k, lib))
  {
    hide Good, Legal, AddUnit, Mirrors, Sound, RxUnit, UnitChunks, UnitPackets, InRange, Consecutive, Begins;
    if k == 0 {
      assert ds == [];
    } else {
      var b, u := AddUnits(a, us, k - 1, pktsize), us[k - 1];
      AddUnitsGood(a, us, k - 1, pktsize);
      AddUnitsBegins(a, us, 0, k - 1, pktsize);
      AddNone(a, us, pktsize);
      AddUnitBegins(b, u, k == |us|, pktsize);
      BeginsLonger(a, b, AddUnit(b, u, k == |us|, pktsize));
      BeginsLonger(b, AddUnit(b, u, k == |us|, pktsize), s);
      var m := |b.cs| - |a.cs|;
      var d0, d1 := ds[..m], ds[m..];
      CutConsecutive(s, ds, |a.cs|, m);
      UnitsReceived(s, a, us, k - 1, pktsize, t, d0, x, lib);
      var y := RxUnits(a.codec, pktsize, x, us, k - 1, lib);
      UnitReceived(s, b, u, k == |us|, pktsize, TrackRun(s, t, d0), d1, y);
      RunConcat(s, t, d0, d1);
      OnlyMarkerAsks(a.codec, pktsize, y, u, lib, d1[|d1| - 1].lib);
    }
  }

  lemma OnlyMarkerAsks(codec: Codec, pktsize: nat, x: Rx, u: seq<byte>, lib: LibAnswer, lib': LibAnswer)
    requires SizeOk(codec, pktsize)
    ensures RxUnit(codec, pktsize, x, u, false, lib) == RxUnit(codec, pktsize, x, u, false, lib')
  {
  }

  lemma AddUnitBegins(s: Sent, u: seq<byte>, marker: bool, pktsize: nat)
    requires SizeOk(s.codec, pktsize) && Legal(s.codec, u)
    ensures var t := AddUnit(s, u, marker, pktsize);
            Begins(s, t) && |t.cs| == |s.cs| + |UnitChunks(s.codec, |s.us|, u, marker, pktsize)|
  {
    hide UnitChunks, UnitPackets;
  }

  /** The library's answer at the last packet of frame i. */
  function Answer(codec: Codec, frames: seq<seq<byte>>, i: nat, pktsize: nat, ds: seq<Delivery>): LibAnswer
    requires SizeOk(codec, pktsize) && LegalFrames(codec, frames) && i < |frames|
  {
    var n := |Send(codec, frames, i + 1, pktsize).ps|;
    if 0 < n <= |ds| then ds[n - 1].lib else NoPicture
  }

  function Answers(codec: Codec, frames: seq<seq<byte>>, pktsize: nat, ds: seq<Delivery>): seq<LibAnswer>
    requires SizeOk(codec, pktsize) && LegalFrames(codec, frames)
  {
    seq(|frames|, i requires 0 <= i < |frames| => Answer(codec, frames, i, pktsize, ds))
  }

  // The deliveries from m to n.
  lemma Slice(s: Sent, ds: seq<Delivery>, m: nat, n: nat)
    requires InSequence(ds) && m <= n <= |ds| <= |s.ps|
    ensures InRange(s, ds[..m]) && InRange(s, ds[m..n]) && Consecutive(ds[m..n], m)
    ensures ds[..m] + ds[m..n] == ds[..n]
    ensures m < n ==> ds[m..n][n - m - 1] == ds[n - 1]
  {
  }

  lemma AnswerAt(codec: Codec, frames: seq<seq<byte>>, i: nat, pktsize: nat, ds: seq<Delivery>)
    requires SizeOk(codec, pktsize) && LegalFrames(codec, frames) && i < |frames|
    ensures |Answers(codec, frames, pktsize, ds)| == |frames|
    ensures var n := |Send(codec, frames, i + 1, pktsize).ps|;
            0 < n <= |ds| ==> Answers(codec, frames, pktsize, ds)[i] == ds[n - 1].lib
  {
    hide Send;
  }

  lemma LegalUnits(codec: Codec, frames: seq<seq<byte>>, i: nat)
    requires LegalFrames(codec, frames) && i < |frames|
    ensures forall j :: 0 <= j < |Units(frames[i])| ==> Legal(codec, Units(frames[i])[j])
  {
    hide Legal, Units;
  }

  lemma {:induction false} FramesReceived(codec: Codec, frames: seq<seq<byte>>, k: nat, pktsize: nat, gotKey: bool,
                                          ds: seq<Delivery>)
    requires SizeOk(codec, pktsize) && LegalFrames(codec, frames) && k <= |frames|
    requires InSequence(ds) && |ds| == |Send(codec, frames, |frames|, pktsize).ps|
    ensures var s, n := Send(codec, frames, |frames|, pktsize), |Send(codec, frames, k, pktsize).ps|;
            && n <= |ds| && InRange(s, ds[..n])
            && Mirrors(s, TrackRun(s, Start(gotKey), ds[..n]),
                       RxFrames(codec, frames, k, pktsize, gotKey, Answers(codec, frames, pktsize, ds)))
  {
    hide Good, Legal, AddUnits, Mirrors, Sound, Units, RxUnits, TrackRun, InSequence, InRange, Consecutive, Start,
         Answers, LegalFrames;
    var s, a := Send(codec, frames, |frames|, pktsize), Send(codec, frames, k, pktsize);
    SendBegins(codec, frames, k, |frames|, pktsize);
    SameCount(a, s);
    NothingReceived(s, gotKey);
    if k > 0 {
      var b, us := Send(codec, frames, k - 1, pktsize), Units(frames[k - 1]);
      SendBegins(codec, frames, k - 1, k, pktsize);
      SameCount(b, s);
      FramesReceived(codec, frames, k - 1, pktsize, gotKey, ds);
      var libs := Answers(codec, frames, pktsize, ds);
      AnswerAt(codec, frames, k - 1, pktsize, ds);
      LegalUnits(codec, frames, k - 1);
      var m, n := |b.ps|, |a.ps|;
      Slice(s, ds, m, n);
      RunConcat(s, Start(gotKey), ds[..m], ds[m..n]);
      UnitsReceived(s, b, us, |us|, pktsize, TrackRun(s, Start(gotKey), ds[..m]), ds[m..n],
                    RxFrames(codec, frames, k - 1, pktsize, gotKey, libs), libs[k - 1]);
    } else {
      Slice(s, ds, 0, 0);
      assert ds[..0] == [];
    }
  }

  lemma NothingReceived(s: Sent, gotKey: bool)
    ensures Sound(s, Start(gotKey)) && Mirrors(s, Start(gotKey), Rx([], gotKey, []))
    ensures Good(s) && InRange(s, []) ==> TrackRun(s, Start(gotKey), []) == Start(gotKey)
  {
  }

  /** With nothing lost, after any number of whole frames, buffer, keyframe flag and everything
      handed over are exactly those of the receiver that takes whole units: for every run, all
      frames that are held back or outgrow the limit included. */
  lemma ReceivesUnits(codec: Codec, frames: seq<seq<byte>>, k: nat, pktsize: nat, seq0: nat, gotKey: bool,
                      ds: seq<Delivery>)
    requires SizeOk(codec, pktsize) && LegalFrames(codec, frames) && k <= |frames|
    requires InSequence(ds) && |ds| == |Send(codec, frames, |frames|, pktsize).ps|
    ensures var s, n := Send(codec, frames, |frames|, pktsize), |Send(codec, frames, k, pktsize).ps|;
            && n <= |ds| && InRange(s, ds[..n])
            && var r := Run(s, seq0, RunState(Clean(gotKey), []), ds[..n]);
               var x := RxFrames(codec, frames, k, pktsize, gotKey, Answers(codec, frames, pktsize, ds));
               && r.st.mb == AnnexB(x.units) && !r.st.frag && r.st.gotKey == x.gotKey
               && |r.given| == |x.given|
               && forall i :: 0 <= i < |x.given| ==> r.given[i] == AnnexB(x.given[i])
  {
    hide Good, Legal, Send, AnnexB, RxFrames, Run, TrackRun, Window, Tellable;
    var s, n := Send(codec, frames, |frames|, pktsize), |Send(codec, frames, k, pktsize).ps|;
    FramesReceived(codec, frames, k, pktsize, gotKey, ds);
    InSequenceWindow(s, ds[..n]);
    WindowTells(s, gotKey, ds[..n]);
    RunFollows(s, seq0, gotKey, ds[..n]);
    BufferOf(s, TrackRun(s, Start(gotKey), ds[..n]));
  }

  // ----- what comes through -----

  /** Every unit of the frame is taken, and all but its last packet is within the limit. */
  predicate Survives(codec: Codec, us: seq<seq<byte>>, pktsize: nat, gotKey: bool)
    requires SizeOk(codec, pktsize)
  {
    (forall j :: 0 <= j < |us| ==> !HeldBack(codec, us[j], pktsize, gotKey)) && FrameFits(codec, us, pktsize)
  }

  /** What the receiver may hold: units it takes and that hide no start code; what it handed
      over can be cut again. */
  ghost predicate Neat(codec: Codec, pktsize: nat, x: Rx)
    requires SizeOk(codec, pktsize)
  {
    && (forall i :: 0 <= i < |x.units| ==> !HeldBack(codec, x.units[i], pktsize, x.gotKey) && NoCode(x.units[i]))
    && forall i :: 0 <= i < |x.given| ==> Splittable(x.given[i])
  }

  lemma MiddleUnit(codec: Codec, pktsize: nat, x: Rx, u: seq<byte>, lib: LibAnswer)
    requires SizeOk(codec, pktsize)
    ensures RxUnit(codec, pktsize, x, u, false, lib)
            == if HeldBack(codec, u, pktsize, x.gotKey) then x
               else x.(units := if |AnnexB(x.units)| + 3 + |u| > DECODE_MAXSZ then [] else x.units + [u])
  {
    UnitChunkBounds(codec, 0, u, false, pktsize);
  }

  lemma AnnexBSnoc(us: seq<seq<byte>>, u: seq<byte>)
    ensures |AnnexB(us + [u])| == |AnnexB(us)| + 3 + |u|
  {
    assert (us + [u])[..|us|] == us;
  }

  // Before the last unit: all units are there, or one was held back, or the buffer was emptied.
  lemma {:induction false} UnitsSoFar(codec: Codec, pktsize: nat, x: Rx, us: seq<seq<byte>>, k: nat, lib: LibAnswer)
    requires SizeOk(codec, pktsize) && k < |us|
    ensures var y := RxUnits(codec, pktsize, x, us, k, lib);
            var all := forall j :: 0 <= j < k ==> !HeldBack(codec, us[j], pktsize, x.gotKey);
            && y.gotKey == x.gotKey && y.given == x.given
            && (all ==> y.units == x.units + us[..k] || |y.units| < k)
            && (all && |AnnexB(x.units + us[..k])| <= DECODE_MAXSZ ==> y.units == x.units + us[..k])
  {
    hide AnnexB, HeldBack, RxUnit;
    if k == 0 {
      assert x.units + us[..0] == x.units;
    } else {
      UnitsSoFar(codec, pktsize, x, us, k - 1, lib);
      MiddleUnit(codec, pktsize, RxUnits(codec, pktsize, x, us, k - 1, lib), us[k - 1], lib);
      assert x.units + us[..k] == x.units + us[..k - 1] + [us[k - 1]];
      AnnexBSnoc(x.units + us[..k - 1], us[k - 1]);
    }
  }

  lemma UnitKeepsNeat(codec: Codec, pktsize: nat, x: Rx, u: seq<byte>, marker: bool, lib: LibAnswer)
    requires SizeOk(codec, pktsize) && Neat(codec, pktsize, x)
    requires if marker then u != [] && NoCode(u[..|u| - 1]) else NoCode(u)
    ensures Neat(codec, pktsize, RxUnit(codec, pktsize, x, u, marker, lib))
  {
    hide AnnexB, LastBytes, NoCode, HeldBack;
    assert Splittable([]);
    if marker {
      var us := x.units + [u];
      assert us[|us| - 1] == u;
      assert Splittable(us);
    }
  }

  lemma {:induction false} UnitsKeepNeat(codec: Codec, pktsize: nat, x: Rx, us: seq<seq<byte>>, k: nat, lib: LibAnswer)
    requires SizeOk(codec, pktsize) && k <= |us| && Neat(codec, pktsize, x) && Splittable(us)
    ensures Neat(codec, pktsize, RxUnits(codec, pktsize, x, us, k, lib))
  {
    hide Neat, RxUnit, NoCode;
    if k == 0 {
    } else {
      UnitsKeepNeat(codec, pktsize, x, us, k - 1, lib);
      UnitKeepsNeat(codec, pktsize, RxUnits(codec, pktsize, x, us, k - 1, lib), us[k - 1], k == |us|, lib);
    }
  }

  /** The last unit goes out with all the units before it. */
  predicate HandsOver(codec: Codec, pktsize: nat, y: Rx, u: seq<byte>)
    requires SizeOk(codec, pktsize)
  {
    && !HeldBack(codec, u, pktsize, y.gotKey)
    && |AnnexB(y.units)| + 3 + |u| - LastBytes(codec, u, pktsize) <= DECODE_MAXSZ
  }

  lemma LastUnit(codec: Codec, pktsize: nat, y: Rx, u: seq<byte>, lib: LibAnswer)
    requires SizeOk(codec, pktsize)
    ensures var z := RxUnit(codec, pktsize, y, u, true, lib);
            && (if HandsOver(codec, pktsize, y, u)
                then z == Rx([], y.gotKey || lib == Picture(true), y.given + [y.units + [u]])
                else z.given == y.given)
            && (codec.H265? || z.gotKey ==> z.units == [])
  {
    hide AnnexB, LastBytes, Splits;
  }

  // The units handed over are the frame's: then none was held back, and none was there before.
  lemma OnlyTheFrame(codec: Codec, pktsize: nat, x: Rx, us: seq<seq<byte>>, lib: LibAnswer)
    requires SizeOk(codec, pktsize) && us != [] && Neat(codec, pktsize, x) && Splittable(us)
    requires var y := RxUnits(codec, pktsize, x, us, |us| - 1, lib);
             HandsOver(codec, pktsize, y, us[|us| - 1]) && y.units + [us[|us| - 1]] == us
    ensures x.units == [] && Survives(codec, us, pktsize, x.gotKey)
  {
    hide AnnexB, LastBytes, Splittable, HeldBack, RxUnits, NoCode;
    var n := |us| - 1;
    var y := RxUnits(codec, pktsize, x, us, n, lib);
    UnitsSoFar(codec, pktsize, x, us, n, lib);
    UnitsKeepNeat(codec, pktsize, x, us, n, lib);
    assert y.units == us[..n] && us == us[..n] + [us[n]];
    AnnexBSnoc(us[..n], us[n]);
    forall j | 0 <= j < |us| ensures !HeldBack(codec, us[j], pktsize, x.gotKey) {
      if j < n { assert us[j] == y.units[j]; }
    }
    assert |x.units + us[..n]| == |x.units| + n;
  }

  lemma SameUnits(codec: Codec, pktsize: nat, x: Rx, us: seq<seq<byte>>, lib: LibAnswer)
    requires SizeOk(codec, pktsize) && us != [] && Neat(codec, pktsize, x) && Splittable(us)
    ensures var n := |us| - 1;
            var y := RxUnits(codec, pktsize, x, us, n, lib);
            && y.given == x.given && y.gotKey == x.gotKey
            && (HandsOver(codec, pktsize, y, us[n]) && y.units + [us[n]] == us
                <==> x.units == [] && Survives(codec, us, pktsize, x.gotKey))
  {
    hide AnnexB, LastBytes, Splittable, HeldBack, RxUnits, NoCode, Neat;
    var n := |us| - 1;
    var y, u := RxUnits(codec, pktsize, x, us, n, lib), us[n];
    UnitsSoFar(codec, pktsize, x, us, n, lib);
    if x.units == [] && Survives(codec, us, pktsize, x.gotKey) {
      UnitChunkBounds(codec, 0, u, true, pktsize);
      assert us == us[..n] + [u] && x.units + us[..n] == us[..n];
      AnnexBSnoc(us[..n], u);
    }
    if HandsOver(codec, pktsize, y, u) && y.units + [u] == us {
      OnlyTheFrame(codec, pktsize, x, us, lib);
    }
  }

  /** One frame: it is handed over as it is exactly when nothing was left in the buffer before
      it, every unit of it is taken, and all but its last packet is within the limit. Nothing
      is left after it for H.265 or once a keyframe was seen. */
  lemma OneFrame(codec: Codec, pktsize: nat, x: Rx, us: seq<seq<byte>>, lib: LibAnswer)
    requires SizeOk(codec, pktsize) && us != [] && Neat(codec, pktsize, x) && Splittable(us)
    ensures var z := RxUnits(codec, pktsize, x, us, |us|, lib);
            && (z.given == x.given + [us] <==> x.units == [] && Survives(codec, us, pktsize, x.gotKey))
            && (z.given == x.given + [us] ==> z == Rx([], x.gotKey || lib == Picture(true), x.given + [us]))
            && (z.given == x.given || (|z.given| == |x.given| + 1 && z.given[..|x.given|] == x.given))
            && (codec.H265? || z.gotKey ==> z.units == [])
  {
    hide AnnexB, LastBytes, Splittable, HandsOver, Survives, Neat, RxUnit, NoCode;
    var n := |us| - 1;
    SameUnits(codec, pktsize, x, us, lib);
    var y := RxUnits(codec, pktsize, x, us, n, lib);
    LastUnit(codec, pktsize, y, us[n], lib);
    assert (x.given + [y.units + [us[n]]])[|x.given|] == y.units + [us[n]];
    assert (x.given + [us])[|x.given|] == us;
  }

  // ----- over all frames -----

  /** Whether a keyframe was decoded before frame k: at the start, or the library answered an
      earlier frame with a key picture. */
  predicate KeyBefore(frames: seq<seq<byte>>, k: nat, gotKey: bool, libs: seq<LibAnswer>)
    requires k <= |frames| == |libs|
  {
    if k == 0 then gotKey
    else KeyBefore(frames, k - 1, gotKey, libs) || (Units(frames[k - 1]) != [] && libs[k - 1] == Picture(true))
  }

  /** The units of the first k frames, frame by frame, frames without any left out. */
  function ExpectedUnits(frames: seq<seq<byte>>, k: nat): seq<seq<seq<byte>>>
    requires k <= |frames|
  {
    if k == 0 then []
    else ExpectedUnits(frames, k - 1) + if Units(frames[k - 1]) == [] then [] else [Units(frames[k - 1])]
  }

  predicate AllSurvive(codec: Codec, frames: seq<seq<byte>>, k: nat, pktsize: nat, gotKey: bool, libs: seq<LibAnswer>)
    requires SizeOk(codec, pktsize) && k <= |frames| == |libs|
  {
    forall i :: 0 <= i < k ==> Survives(codec, Units(frames[i]), pktsize, KeyBefore(frames, i, gotKey, libs))
  }

  lemma AllSurviveStep(codec: Codec, frames: seq<seq<byte>>, k: nat, pktsize: nat, gotKey: bool, libs: seq<LibAnswer>)
    requires SizeOk(codec, pktsize) && k < |frames| == |libs|
    ensures AllSurvive(codec, frames, k + 1, pktsize, gotKey, libs)
            <==> AllSurvive(codec, frames, k, pktsize, gotKey, libs)
                 && Survives(codec, Units(frames[k]), pktsize, KeyBefore(frames, k, gotKey, libs))
  {
    hide Survives, KeyBefore, Units;
  }

  lemma NoneYet(codec: Codec, frames: seq<seq<byte>>, pktsize: nat, gotKey: bool, libs: seq<LibAnswer>)
    requires SizeOk(codec, pktsize) && |frames| == |libs|
    ensures AllSurvive(codec, frames, 0, pktsize, gotKey, libs)
  {
  }

  lemma NoUnits(codec: Codec, pktsize: nat, gotKey: bool)
    requires SizeOk(codec, pktsize)
    ensures Survives(codec, [], pktsize, gotKey)
  {
  }

  lemma NeatStart(codec: Codec, pktsize: nat, gotKey: bool)
    requires SizeOk(codec, pktsize)
    ensures Neat(codec, pktsize, Rx([], gotKey, []))
  {
  }

  lemma UnitsOf(frame: seq<byte>)
    ensures Splittable(Units(frame)) && AnnexB(Units(frame)) == frame[Find(frame, 0)..]
  {
    AnnexBInvertsSplit(frame);
  }

  // At a frame boundary.
  lemma {:induction false} Boundary(codec: Codec, frames: seq<seq<byte>>, k: nat, pktsize: nat, gotKey: bool,
                                    libs: seq<LibAnswer>)
    requires SizeOk(codec, pktsize) && k <= |frames| == |libs|
    ensures var x := RxFrames(codec, frames, k, pktsize, gotKey, libs);
            Neat(codec, pktsize, x) && (codec.H265? || x.gotKey ==> x.units == [])
  {
    hide Neat, Units, Splittable, RxUnits, AnnexB;
    if k == 0 {
      NeatStart(codec, pktsize, gotKey);
    } else {
      Boundary(codec, frames, k - 1, pktsize, gotKey, libs);
      var us, x := Units(frames[k - 1]), RxFrames(codec, frames, k - 1, pktsize, gotKey, libs);
      UnitsOf(frames[k - 1]);
      UnitsKeepNeat(codec, pktsize, x, us, |us|, libs[k - 1]);
      if us == [] {
        NoneTaken(codec, pktsize, x, libs[k - 1]);
      } else {
        OneFrame(codec, pktsize, x, us, libs[k - 1]);
      }
    }
  }

  lemma NoneTaken(codec: Codec, pktsize: nat, x: Rx, lib: LibAnswer)
    requires SizeOk(codec, pktsize)
    ensures RxUnits(codec, pktsize, x, [], 0, lib) == x
  {
  }

  /** The receiver of whole units hands over exactly the frames, each as it is, if and only if
      every frame survives. */
  lemma {:induction false} AllHandedOver(codec: Codec, frames: seq<seq<byte>>, k: nat, pktsize: nat, gotKey: bool,
                                         libs: seq<LibAnswer>)
    requires SizeOk(codec, pktsize) && k <= |frames| == |libs|
    ensures var x := RxFrames(codec, frames, k, pktsize, gotKey, libs);
            && |x.given| <= |ExpectedUnits(frames, k)|
            && (x.given == ExpectedUnits(frames, k) <==> AllSurvive(codec, frames, k, pktsize, gotKey, libs))
            && (x.given == ExpectedUnits(frames, k) ==> x.units == [] && x.gotKey == KeyBefore(frames, k, gotKey, libs))
  {
    hide Neat, Units, Splittable, RxUnits, AnnexB, Survives, AllSurvive;
    if k == 0 {
      NoneYet(codec, frames, pktsize, gotKey, libs);
    } else {
      AllSurviveStep(codec, frames, k - 1, pktsize, gotKey, libs);
      AllHandedOver(codec, frames, k - 1, pktsize, gotKey, libs);
      var us, x := Units(frames[k - 1]), RxFrames(codec, frames, k - 1, pktsize, gotKey, libs);
      UnitsOf(frames[k - 1]);
      Boundary(codec, frames, k - 1, pktsize, gotKey, libs);
      if us == [] {
        NoneTaken(codec, pktsize, x, libs[k - 1]);
        NoUnits(codec, pktsize, KeyBefore(frames, k - 1, gotKey, libs));
      } else {
        OneFrame(codec, pktsize, x, us, libs[k - 1]);
        OneMore(x.given, RxFrames(codec, frames, k, pktsize, gotKey, libs).given, ExpectedUnits(frames, k - 1), us);
      }
    }
  }

  lemma OneMore<T>(g: seq<T>, g': seq<T>, want: seq<T>, u: T)
    requires |g| <= |want| && (g' == g || (|g'| == |g| + 1 && g'[..|g|] == g))
    ensures |g'| <= |want + [u]| && (g' == want + [u] <==> g == want && g' == g + [u])
  {
    if g' == want + [u] {
      assert (want + [u])[..|want|] == want;
    }
  }

  // ----- from units to bytes -----

  /** What the library should be given for the first k frames: each frame's bytes from its
      first start code on, except for frames that have none. */
  function Expected(frames: seq<seq<byte>>, k: nat): seq<seq<byte>>
    requires k <= |frames|
  {
    if k == 0 then []
    else Expected(frames, k - 1)
         + if Units(frames[k - 1]) == [] then [] else [frames[k - 1][Find(frames[k - 1], 0)..]]
  }

  lemma {:induction false} ExpectedIs(frames: seq<seq<byte>>, k: nat)
    requires k <= |frames|
    ensures var us, bs := ExpectedUnits(frames, k), Expected(frames, k);
            |us| == |bs| && forall i :: 0 <= i < |us| ==> Splittable(us[i]) && AnnexB(us[i]) == bs[i]
  {
    hide AnnexB, Splittable, Units;
    if k == 0 {
    } else {
      ExpectedIs(frames, k - 1);
      UnitsOf(frames[k - 1]);
    }
  }

  lemma SameBytes(a: seq<seq<byte>>, b: seq<seq<byte>>)
    requires Splittable(a) && Splittable(b) && AnnexB(a) == AnnexB(b)
    ensures a == b
  {
    hide AnnexB, Splittable, Units;
    SplitInvertsAnnexB(a);
    SplitInvertsAnnexB(b);
  }

  lemma SameLists(a: seq<seq<seq<byte>>>, b: seq<seq<seq<byte>>>, out: seq<seq<byte>>, want: seq<seq<byte>>)
    requires |a| == |out| && forall i :: 0 <= i < |a| ==> Splittable(a[i]) && out[i] == AnnexB(a[i])
    requires |b| == |want| && forall i :: 0 <= i < |b| ==> Splittable(b[i]) && want[i] == AnnexB(b[i])
    ensures out == want <==> a == b
  {
    hide AnnexB, Splittable;
    if out == want {
      forall i | 0 <= i < |a| ensures a[i] == b[i] {
        SameBytes(a[i], b[i]);
      }
    }
  }

  /** Round trip, exactly. Any frames of legal units, all packets in order: the library is
      given exactly each frame's bytes from its first start code on, frame by frame, if and
      only if no frame has an unsplit slice before the library has answered with a key
      picture, and every frame without its last packet is within the limit. Then the decoder
      ends empty. */
  lemma NothingLost(codec: Codec, frames: seq<seq<byte>>, pktsize: nat, seq0: nat, gotKey: bool, ds: seq<Delivery>)
    requires SizeOk(codec, pktsize) && LegalFrames(codec, frames)
    requires InSequence(ds) && |ds| == |Send(codec, frames, |frames|, pktsize).ps|
    ensures var r := Run(Send(codec, frames, |frames|, pktsize), seq0, RunState(Clean(gotKey), []), ds);
            && (r.given == Expected(frames, |frames|)
                <==> AllSurvive(codec, frames, |frames|, pktsize, gotKey, Answers(codec, frames, pktsize, ds)))
            && (r.given == Expected(frames, |frames|) ==> r.st.mb == [] && !r.st.frag)
  {
    hide Legal, Good, Send, Run, AnnexB, Splittable, AllSurvive, RxFrames, Answer, Expected, ExpectedUnits;
    var libs := Answers(codec, frames, pktsize, ds);
    ReceivesUnits(codec, frames, |frames|, pktsize, seq0, gotKey, ds);
    assert ds[..|ds|] == ds;
    AllHandedOver(codec, frames, |frames|, pktsize, gotKey, libs);
    Boundary(codec, frames, |frames|, pktsize, gotKey, libs);
    ExpectedIs(frames, |frames|);
    var x := RxFrames(codec, frames, |frames|, pktsize, gotKey, libs);
    var r := Run(Send(codec, frames, |frames|, pktsize), seq0, RunState(Clean(gotKey), []), ds);
    SameLists(x.given, ExpectedUnits(frames, |frames|), r.given, Expected(frames, |frames|));
    assert x.units == [] ==> AnnexB(x.units) == [] by { NoBytes(x.units); }
  }

  lemma NoBytes(us: seq<seq<byte>>)
    ensures AnnexB(us) == [] <==> us == []
  {
  }

  /** The ordinary stream into a new decoder: a first frame without unsplit slices that the
      library answers with a key picture, then any frames. Only the limit can lose a frame. */
  lemma {:induction false} KeyPictureFirst(codec: Codec, frames: seq<seq<byte>>, k: nat, pktsize: nat,
                                           libs: seq<LibAnswer>)
    requires SizeOk(codec, pktsize) && 0 < k <= |frames| == |libs|
    requires Units(frames[0]) != [] && libs[0] == Picture(true)
    requires forall j :: 0 <= j < |Units(frames[0])| ==> !HeldBack(codec, Units(frames[0])[j], pktsize, false)
    ensures KeyBefore(frames, k, false, libs)
    ensures AllSurvive(codec, frames, k, pktsize, false, libs)
            <==> forall i :: 0 <= i < k ==> FrameFits(codec, Units(frames[i]), pktsize)
  {
    hide Units, FrameFits, Splits;
    if k > 1 {
      KeyPictureFirst(codec, frames, k - 1, pktsize, libs);
      AllSurviveStep(codec, frames, k - 1, pktsize, false, libs);
    } else {
      assert !KeyBefore(frames, 0, false, libs);
    }
  }

  /** Every frame on its own, in any run: frame k is handed over as it is exactly when the
      buffer was empty before it, none of its units is an unsplit slice while no keyframe was
      seen, and all but its last packet is within the limit. For H.265, and for H.264 once a
      keyframe was seen, the buffer is always empty there: frames do not disturb each other. */
  lemma FrameByFrame(codec: Codec, frames: seq<seq<byte>>, k: nat, pktsize: nat, seq0: nat, gotKey: bool,
                     ds: seq<Delivery>)
    requires SizeOk(codec, pktsize) && LegalFrames(codec, frames) && k < |frames| && Units(frames[k]) != []
    requires InSequence(ds) && |ds| == |Send(codec, frames, |frames|, pktsize).ps|
    ensures var s := Send(codec, frames, |frames|, pktsize);
            var m, n := |Send(codec, frames, k, pktsize).ps|, |Send(codec, frames, k + 1, pktsize).ps|;
            && m <= n <= |ds| && InRange(s, ds[..m]) && InRange(s, ds[..n])
            && var before := Run(s, seq0, RunState(Clean(gotKey), []), ds[..m]);
               var after := Run(s, seq0, RunState(Clean(gotKey), []), ds[..n]);
               && (after.given == before.given + [frames[k][Find(frames[k], 0)..]]
                   <==> before.st.mb == [] && Survives(codec, Units(frames[k]), pktsize, before.st.gotKey))
               && (codec.H265? || before.st.gotKey ==> before.st.mb == [])
  {
    hide Legal, Good, Send, Run, AnnexB, Splittable, RxUnits, Answer, Units, Survives;
    var libs := Answers(codec, frames, pktsize, ds);
    ReceivesUnits(codec, frames, k, pktsize, seq0, gotKey, ds);
    ReceivesUnits(codec, frames, k + 1, pktsize, seq0, gotKey, ds);
    SendBegins(codec, frames, k, k + 1, pktsize);
    Boundary(codec, frames, k, pktsize, gotKey, libs);
    Boundary(codec, frames, k + 1, pktsize, gotKey, libs);
    UnitsOf(frames[k]);
    var x := RxFrames(codec, frames, k, pktsize, gotKey, libs);
    var z := RxFrames(codec, frames, k + 1, pktsize, gotKey, libs);
    OneFrame(codec, pktsize, x, Units(frames[k]), libs[k]);
    NoBytes(x.units);
    var before := Run(Send(codec, frames, |frames|, pktsize), seq0, RunState(Clean(gotKey), []),
                      ds[..|Send(codec, frames, k, pktsize).ps|]);
    var after := Run(Send(codec, frames, |frames|, pktsize), seq0, RunState(Clean(gotKey), []),
                     ds[..|Send(codec, frames, k + 1, pktsize).ps|]);
    SameLists(z.given, x.given + [Units(frames[k])], after.given, before.given + [frames[k][Find(frames[k], 0)..]]);
  }
}
