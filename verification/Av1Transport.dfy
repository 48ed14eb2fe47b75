// The AV1 decoder against the AV1 sender, under loss, duplication and reordering.
module Av1Transport {
  import opened Bytes
  import opened Nal
  import opened Reassembly
  import opened Av1

  /** A packet carries bytes from..upto of frame number `frame`. */
  datatype Piece = Piece(frame: nat, from: nat, upto: nat, first: bool, last: bool)

  datatype Sent = Sent(frames: seq<Frame>, ps: seq<Packet>, cs: seq<Piece>)

  function FramePieces(n: nat, first: bool, from: nat, total: nat, sz: nat): seq<Piece>
    requires sz > 0
    decreases total - from
  {
    if total <= from + sz then [Piece(n, from, total, first, true)]
    else [Piece(n, from, from + sz, first, false)] + FramePieces(n, false, from + sz, total, sz)
  }

  /** The first k frames; every frame ends with a marker. */
  function Send(frames: seq<Frame>, k: nat, pktsize: nat): Sent
    requires pktsize > HDR_SIZE && k <= |frames|
  {
    if k == 0 then Sent([], [], [])
    else
      var s := Send(frames, k - 1, pktsize);
      var f := frames[k - 1];
      Sent(s.frames + [f],
           s.ps + FramePackets(f, true, f.buf, pktsize - HDR_SIZE, true),
           s.cs + FramePieces(k - 1, true, 0, |f.buf|, pktsize - HDR_SIZE))
  }

  predicate Cut(frames: seq<Frame>, p: Packet, c: Piece) {
    && c.frame < |frames|
    && var f := frames[c.frame];
       && c.from <= c.upto <= |f.buf|
       && p == Packet(c.last, HdrEncode(f.noref, c.first, f.partid, f.picid) + f.buf[c.from..c.upto])
       && (c.first ==> c.from == 0) && (c.last <==> c.upto == |f.buf|)
  }

  predicate Next(c: Piece, d: Piece) {
    if c.last then d.frame == c.frame + 1 && d.first
    else d.frame == c.frame && !d.first && d.from == c.upto
  }

  ghost predicate Good(s: Sent) {
    && |s.ps| == |s.cs|
    && (forall i :: 0 <= i < |s.cs| ==> Cut(s.frames, s.ps[i], s.cs[i]))
    && (forall i :: 0 < i < |s.cs| ==> Next(s.cs[i - 1], s.cs[i]))
    && (s.cs != [] ==> s.cs[0].first && s.cs[|s.cs| - 1].last)
    && (if s.cs == [] then s.frames == [] else s.cs[|s.cs| - 1].frame == |s.frames| - 1 && s.cs[0].frame == 0)
  }

  /** The packets of frame n from byte `from` on. */
  ghost predicate PieceRun(frames: seq<Frame>, ps: seq<Packet>, cs: seq<Piece>, n: nat, first: bool, from: nat) {
    && |ps| == |cs| > 0
    && (forall i :: 0 <= i < |cs| ==> Cut(frames, ps[i], cs[i]))
    && (forall i :: 0 < i < |cs| ==> Next(cs[i - 1], cs[i]))
    && cs[0].frame == cs[|cs| - 1].frame == n && cs[0].first == first && cs[0].from == from
    && cs[|cs| - 1].last
  }

  lemma PieceRunCons(frames: seq<Frame>, p: Packet, c: Piece, ps: seq<Packet>, cs: seq<Piece>)
    requires Cut(frames, p, c) && !c.last
    requires PieceRun(frames, ps, cs, c.frame, false, c.upto)
    ensures PieceRun(frames, [p] + ps, [c] + cs, c.frame, c.first, c.from)
  {
    hide Cut;
    var cs' := [c] + cs;
    assert cs'[|cs'| - 1] == cs[|cs| - 1];
    forall i | 0 < i < |cs'| ensures Next(cs'[i - 1], cs'[i]) {
      if i > 1 { assert cs'[i] == cs[i - 1] && cs'[i - 1] == cs[i - 2]; }
    }
  }

  lemma {:induction false} PiecesGood(frames: seq<Frame>, n: nat, first: bool, from: nat, sz: nat)
    requires sz > 0 && n < |frames| && from <= |frames[n].buf|
    requires if first then from == 0 else from < |frames[n].buf|
    ensures var f := frames[n];
            PieceRun(frames, FramePackets(f, first, f.buf[from..], sz, true),
                     FramePieces(n, first, from, |f.buf|, sz), n, first, from)
    decreases |frames[n].buf| - from
  {
    hide HdrEncode, Cut;
    var f := frames[n];
    var b := f.buf[from..];
    var h := HdrEncode(f.noref, first, f.partid, f.picid);
    PieceCut(frames, n, first, from, if |b| > sz then from + sz else |f.buf|);
    if |b| > sz {
      PiecesGood(frames, n, false, from + sz, sz);
      assert b[sz..] == f.buf[from + sz..] && b[..sz] == f.buf[from..from + sz];
      PieceRunCons(frames, Packet(false, h + b[..sz]), Piece(n, from, from + sz, first, false),
                   FramePackets(f, false, b[sz..], sz, true), FramePieces(n, false, from + sz, |f.buf|, sz));
    } else {
      assert f.buf[from..|f.buf|] == b;
    }
  }

  lemma PieceCut(frames: seq<Frame>, n: nat, first: bool, from: nat, upto: nat)
    requires n < |frames| && from <= upto <= |frames[n].buf| && (first ==> from == 0)
    ensures var f := frames[n];
            var last := upto == |f.buf|;
            Cut(frames, Packet(last, HdrEncode(f.noref, first, f.partid, f.picid) + f.buf[from..upto]),
                Piece(n, from, upto, first, last))
  {
    hide HdrEncode;
  }

  lemma AddFrameGood(s: Sent, f: Frame, ps: seq<Packet>, cs: seq<Piece>)
    requires Good(s) && PieceRun(s.frames + [f], ps, cs, |s.frames|, true, 0)
    ensures Good(Sent(s.frames + [f], s.ps + ps, s.cs + cs))
  {
    hide Cut;
    var t := Sent(s.frames + [f], s.ps + ps, s.cs + cs);
    forall i | 0 <= i < |t.cs| ensures Cut(t.frames, t.ps[i], t.cs[i]) {
      if i < |s.cs| {
        CutGrows(s.frames, s.ps[i], s.cs[i], f);
      } else {
        assert t.cs[i] == cs[i - |s.cs|] && t.ps[i] == ps[i - |s.cs|];
      }
    }
    forall i | 0 < i < |t.cs| ensures Next(t.cs[i - 1], t.cs[i]) {
      if i > |s.cs| {
        assert t.cs[i] == cs[i - |s.cs|] && t.cs[i - 1] == cs[i - 1 - |s.cs|];
      }
    }
    assert t.cs[|t.cs| - 1] == cs[|cs| - 1];
    assert t.cs[0] == if s.cs == [] then cs[0] else s.cs[0];
  }

  lemma CutGrows(frames: seq<Frame>, p: Packet, c: Piece, f: Frame)
    requires Cut(frames, p, c)
    ensures Cut(frames + [f], p, c)
  {
    assert (frames + [f])[c.frame] == frames[c.frame];
  }

  lemma NothingGood()
    ensures Good(Sent([], [], []))
  {
  }

  lemma {:induction false} SendGood(frames: seq<Frame>, k: nat, pktsize: nat)
    requires pktsize > HDR_SIZE && k <= |frames|
    ensures Good(Send(frames, k, pktsize)) && Send(frames, k, pktsize).frames == frames[..k]
  {
    hide FramePackets, FramePieces, PieceRun, Good;
    if k == 0 {
      NothingGood();
    } else {
      SendGood(frames, k - 1, pktsize);
      var s := Send(frames, k - 1, pktsize);
      var f, sz := frames[k - 1], pktsize - HDR_SIZE;
      assert s.frames + [f] == frames[..k];
      PiecesGood(s.frames + [f], k - 1, true, 0, sz);
      assert f.buf[0..] == f.buf;
      AddFrameGood(s, f, FramePackets(f, true, f.buf, sz, true), FramePieces(k - 1, true, 0, |f.buf|, sz));
    }
  }

  // ----- the decoder that thinks in frames -----

  datatype Delivery = Delivery(idx: nat, refused: bool)

  predicate InRange(s: Sent, ds: seq<Delivery>) {
    forall k :: 0 <= k < |ds| ==> ds[k].idx < |s.ps|
  }

  datatype RunState = RunState(st: AvState, given: seq<seq<byte>>)

  function RunStep(s: Sent, seq0: nat, r: RunState, d: Delivery): RunState
    requires d.idx < |s.ps|
  {
    var p := s.ps[d.idx];
    var o := AvStep(r.st, p.pld, p.marker, (seq0 + d.idx) % 0x10000, d.refused);
    RunState(o.st, r.given + match o.given { case None => [] case Some(b) => [b] })
  }

  function Run(s: Sent, seq0: nat, ds: seq<Delivery>): RunState
    requires InRange(s, ds)
  {
    if ds == [] then RunState(AvState([], false, 0), [])
    else RunStep(s, seq0, Run(s, seq0, ds[..|ds| - 1]), ds[|ds| - 1])
  }

  /** `at` is the last packet of the frame being collected, if any. */
  datatype Track = Track(at: Option<nat>, given: seq<nat>)

  /** Only partition 0 (of three bits) starts a frame. */
  predicate Starts(s: Sent, idx: nat)
    requires idx < |s.cs| && s.cs[idx].frame < |s.frames|
  {
    s.cs[idx].first && s.frames[s.cs[idx].frame].partid % 8 == 0
  }

  function TrackStep(s: Sent, t: Track, d: Delivery): Track
    requires d.idx < |s.cs| && s.cs[d.idx].frame < |s.frames|
  {
    var c := s.cs[d.idx];
    if !Starts(s, d.idx) && t.at.None? then t
    else if !Starts(s, d.idx) && d.idx != t.at.value + 1 then t.(at := None)
    else if c.last then Track(None, t.given + [c.frame])
    else if c.upto > DECODE_MAXSZ then t.(at := None)
    else t.(at := Some(d.idx))
  }

  ghost function TrackRun(s: Sent, ds: seq<Delivery>): (t: Track)
    requires Good(s) && InRange(s, ds)
  {
    if ds == [] then Track(None, [])
    else
      var d := ds[|ds| - 1];
      assert Cut(s.frames, s.ps[d.idx], s.cs[d.idx]);
      TrackStep(s, TrackRun(s, ds[..|ds| - 1]), d)
  }

  /** What the buffer holds: the collected frame as far as packet `at` goes. */
  ghost predicate Follows(s: Sent, seq0: nat, r: RunState, t: Track) {
    && (r.st.started <==> t.at.Some?)
    && (t.at.None? ==> r.st.mb == [])
    && (t.at.Some? ==>
          && t.at.value < |s.cs| && var c := s.cs[t.at.value];
          && c.frame < |s.frames| && c.upto < |s.frames[c.frame].buf|
          && s.frames[c.frame].partid % 8 == 0
          && r.st.mb == s.frames[c.frame].buf[..c.upto]
          && r.st.seqno == (seq0 + t.at.value) % 0x10000)
    && |r.given| == |t.given|
    && forall k :: 0 <= k < |t.given| ==>
         t.given[k] < |s.frames| && r.given[k] == s.frames[t.given[k]].buf && s.frames[t.given[k]].partid % 8 == 0
  }

  /** The 16-bit sequence numbers can tell: a packet that arrives while a frame is collected, and
      does not start one, is the next one or not a whole number of wraps away from that. */
  ghost predicate Tellable(s: Sent, ds: seq<Delivery>)
    requires Good(s) && InRange(s, ds)
  {
    ds != [] ==>
      var front, idx := ds[..|ds| - 1], ds[|ds| - 1].idx;
      var t := TrackRun(s, front);
      assert Cut(s.frames, s.ps[idx], s.cs[idx]);
      Tellable(s, front) && (t.at.Some? && !Starts(s, idx) ==> Told(t.at.value, idx))
  }

  /** The bytes that packet k carries. */
  function Carried(s: Sent, k: nat): seq<byte>
    requires k < |s.cs| && s.cs[k].frame < |s.frames|
    requires s.cs[k].from <= s.cs[k].upto <= |s.frames[s.cs[k].frame].buf|
  {
    s.frames[s.cs[k].frame].buf[s.cs[k].from..s.cs[k].upto]
  }

  // What the decoder does with a sent packet, its header read.
  lemma RunStepIs(s: Sent, seq0: nat, r: RunState, d: Delivery)
    requires d.idx < |s.ps| == |s.cs| && Cut(s.frames, s.ps[d.idx], s.cs[d.idx])
    ensures var o := AvBody(r.st, Starts(s, d.idx), Carried(s, d.idx), s.cs[d.idx].last, (seq0 + d.idx) % 0x10000,
                            d.refused);
            RunStep(s, seq0, r, d) == RunState(o.st, r.given + match o.given { case None => [] case Some(b) => [b] })
  {
    hide HdrEncode, HdrDecode, AvBody;
    var c := s.cs[d.idx];
    var f := s.frames[c.frame];
    HdrRoundTrip(f.noref, c.first, f.partid, f.picid, Carried(s, d.idx));
  }

  // The bytes of the next packet extend what was collected.
  lemma Extends(s: Sent, k: nat)
    requires Good(s) && 0 < k < |s.cs| && !s.cs[k - 1].last
    requires Cut(s.frames, s.ps[k - 1], s.cs[k - 1]) && Cut(s.frames, s.ps[k], s.cs[k])
    ensures s.cs[k].frame == s.cs[k - 1].frame && !s.cs[k].first
    ensures var b := s.frames[s.cs[k].frame].buf;
            b[..s.cs[k - 1].upto] + Carried(s, k) == b[..s.cs[k].upto]
  {
    hide HdrEncode;
    assert Next(s.cs[k - 1], s.cs[k]);
  }

  // The end of a packet, with its frame in the buffer as far as it goes.
  lemma FinishFollows(s: Sent, seq0: nat, r: RunState, t: Track, d: Delivery)
    requires Follows(s, seq0, r, t) && d.idx < |s.ps| == |s.cs| && Cut(s.frames, s.ps[d.idx], s.cs[d.idx])
    requires s.frames[s.cs[d.idx].frame].partid % 8 == 0
    ensures var c := s.cs[d.idx];
            var o := AvFinish(s.frames[c.frame].buf[..c.upto], c.last, (seq0 + d.idx) % 0x10000, d.refused);
            Follows(s, seq0, RunState(o.st, r.given + match o.given { case None => [] case Some(b) => [b] }),
                    if c.last then Track(None, t.given + [c.frame])
                    else t.(at := if c.upto > DECODE_MAXSZ then None else Some(d.idx)))
  {
    hide HdrEncode;
    var f := s.frames[s.cs[d.idx].frame];
    assert f.buf[..|f.buf|] == f.buf;
  }

  /** One packet keeps the two decoders in step, as long as the numbers can tell a packet that
      does not start a frame from the next one. */
  lemma StepFollows(s: Sent, seq0: nat, r: RunState, t: Track, d: Delivery)
    requires Good(s) && Follows(s, seq0, r, t) && d.idx < |s.ps|
    requires Cut(s.frames, s.ps[d.idx], s.cs[d.idx])
    requires t.at.Some? && !Starts(s, d.idx) ==> Told(t.at.value, d.idx)
    ensures Follows(s, seq0, RunStep(s, seq0, r, d), TrackStep(s, t, d))
  {
    hide HdrEncode, RunStep, NextSeq, Next, AvFinish;
    var c := s.cs[d.idx];
    RunStepIs(s, seq0, r, d);
    if Starts(s, d.idx) {
      assert [] + Carried(s, d.idx) == s.frames[c.frame].buf[..c.upto];
      FinishFollows(s, seq0, r, t, d);
    } else if t.at.Some? {
      NextSeqIs(seq0, t.at.value, d.idx);
      if d.idx == t.at.value + 1 {
        assert Cut(s.frames, s.ps[t.at.value], s.cs[t.at.value]);
        Extends(s, d.idx);
        FinishFollows(s, seq0, r, t, d);
      }
    }
  }

  /** Loss safety. Whatever frames are sent and whichever packets arrive, as long as the numbers
      can tell, every buffer handed to the codec library is exactly one whole sent frame of
      partition 0, and the buffer in between is a proper prefix of one such frame or empty. */
  lemma {:induction false} OnlyWholeFrames(s: Sent, seq0: nat, ds: seq<Delivery>)
    requires Good(s) && InRange(s, ds) && Tellable(s, ds)
    ensures Follows(s, seq0, Run(s, seq0, ds), TrackRun(s, ds))
  {
    hide Cut, RunStep, Follows;
    if ds == [] {
      NothingFollows(s, seq0);
    } else {
      var front, d := ds[..|ds| - 1], ds[|ds| - 1];
      OnlyWholeFrames(s, seq0, front);
      assert Cut(s.frames, s.ps[d.idx], s.cs[d.idx]);
      CutFrame(s, d.idx);
      StepFollows(s, seq0, Run(s, seq0, front), TrackRun(s, front), d);
    }
  }

  lemma CutFrame(s: Sent, k: nat)
    requires k < |s.cs| && k < |s.ps| && Cut(s.frames, s.ps[k], s.cs[k])
    ensures s.cs[k].frame < |s.frames|
  {
  }

  /** While a frame is collected, its last packet is the last one that arrived. */
  lemma {:induction false} AtIsLast(s: Sent, ds: seq<Delivery>)
    requires Good(s) && InRange(s, ds)
    ensures TrackRun(s, ds).at.Some? ==> ds != [] && TrackRun(s, ds).at.value == ds[|ds| - 1].idx
  {
    hide HdrEncode;
    if ds == [] {
    } else {
      AtIsLast(s, ds[..|ds| - 1]);
    }
  }

  /** In a run of any length the numbers can tell as long as packets arrive in the order sent
      and at most 65535 are lost in a row. */
  lemma {:induction false} ShortBursts(s: Sent, ds: seq<Delivery>)
    requires Good(s) && InRange(s, ds)
    requires forall k :: 0 < k < |ds| ==> ds[k - 1].idx < ds[k].idx <= ds[k - 1].idx + 0x10000
    ensures Tellable(s, ds)
  {
    hide HdrEncode, TrackStep;
    if ds == [] {
    } else {
      ShortBursts(s, ds[..|ds| - 1]);
      AtIsLast(s, ds[..|ds| - 1]);
    }
  }

  lemma NothingFollows(s: Sent, seq0: nat)
    ensures Follows(s, seq0, RunState(AvState([], false, 0), []), Track(None, []))
  {
  }

  // ----- when the numbers cannot tell -----

  /** The condition is exact: a packet that neither starts a frame nor comes next is dropped,
      with what was collected, if and only if its number can be told from the next one's;
      otherwise its bytes are put behind those of another packet. */
  lemma DroppedExactlyWhen(s: Sent, seq0: nat, r: RunState, t: Track, d: Delivery)
    requires Good(s) && Follows(s, seq0, r, t) && d.idx < |s.ps| && t.at.Some?
    requires Cut(s.frames, s.ps[d.idx], s.cs[d.idx]) && !Starts(s, d.idx) && d.idx != t.at.value + 1
    ensures var r' := RunStep(s, seq0, r, d);
            && (r' == RunState(AvState([], false, r.st.seqno), r.given) <==> Told(t.at.value, d.idx))
            && (!Told(t.at.value, d.idx) ==>
                  var both := r.st.mb + Carried(s, d.idx);
                  if s.cs[d.idx].last then r'.given == r.given + [both]
                  else |both| <= DECODE_MAXSZ ==> r'.given == r.given && r'.st.mb == both)
  {
    hide HdrEncode, RunStep, NextSeq;
    RunStepIs(s, seq0, r, d);
    NextSeqIs(seq0, t.at.value, d.idx);
  }

  /** Every packet that neither starts a frame nor comes next is dropped, with what was
      collected. */
  ghost predicate NothingSpliced(s: Sent, seq0: nat, ds: seq<Delivery>)
    requires Good(s) && InRange(s, ds)
  {
    ds != [] ==>
      var front, d := ds[..|ds| - 1], ds[|ds| - 1];
      var r, t := Run(s, seq0, front), TrackRun(s, front);
      assert Cut(s.frames, s.ps[d.idx], s.cs[d.idx]);
      && NothingSpliced(s, seq0, front)
      && (t.at.Some? && !Starts(s, d.idx) && d.idx != t.at.value + 1 ==>
            RunStep(s, seq0, r, d) == RunState(AvState([], false, r.st.seqno), r.given))
  }

  /** Over whole runs: nothing is spliced if and only if the numbers can tell. */
  lemma {:induction false} NothingSplicedExactlyWhen(s: Sent, seq0: nat, ds: seq<Delivery>)
    requires Good(s) && InRange(s, ds)
    ensures NothingSpliced(s, seq0, ds) <==> Tellable(s, ds)
  {
    hide HdrEncode, RunStep, Follows, TrackStep, Carried;
    if ds == [] {
    } else {
      var front, d := ds[..|ds| - 1], ds[|ds| - 1];
      NothingSplicedExactlyWhen(s, seq0, front);
      var t := TrackRun(s, front);
      assert Cut(s.frames, s.ps[d.idx], s.cs[d.idx]);
      if Tellable(s, front) && t.at.Some? && !Starts(s, d.idx) && d.idx != t.at.value + 1 {
        OnlyWholeFrames(s, seq0, front);
        DroppedExactlyWhen(s, seq0, Run(s, seq0, front), t, d);
      }
    }
  }

  lemma FirstHeld(s: Sent, seq0: nat, r: RunState, k: nat)
    requires Good(s) && Follows(s, seq0, r, Track(Some(k), [])) && Cut(s.frames, s.ps[k], s.cs[k]) && s.cs[k].first
    ensures r.st.mb == Carried(s, k) && r.given == []
  {
  }

  /** From a new decoder: the first packet of a frame, then a packet whose number is the next
      one modulo 2^16 without being the next. The two pieces are put together and, with a
      marker, handed over. */
  lemma Spliced(s: Sent, seq0: nat, ds: seq<Delivery>)
    requires Good(s) && InRange(s, ds) && |ds| == 2 && !Told(ds[0].idx, ds[1].idx)
    requires Cut(s.frames, s.ps[ds[0].idx], s.cs[ds[0].idx]) && Cut(s.frames, s.ps[ds[1].idx], s.cs[ds[1].idx])
    requires Starts(s, ds[0].idx) && !s.cs[ds[0].idx].last && s.cs[ds[0].idx].upto <= DECODE_MAXSZ
    requires !Starts(s, ds[1].idx)
    ensures var r := Run(s, seq0, ds);
            var both := Carried(s, ds[0].idx) + Carried(s, ds[1].idx);
            if s.cs[ds[1].idx].last then r.given == [both]
            else |both| <= DECODE_MAXSZ ==> r.given == [] && r.st.mb == both
  {
    hide RunStep, Follows, HdrEncode;
    var r0, t0 := RunState(AvState([], false, 0), []), Track(None, []);
    NothingFollows(s, seq0);
    StepFollows(s, seq0, r0, t0, ds[0]);
    var r, t := RunStep(s, seq0, r0, ds[0]), Track(Some(ds[0].idx), []);
    assert ds[..1][..0] == [] && Run(s, seq0, ds[..1]) == r;
    assert TrackStep(s, t0, ds[0]) == t;
    DroppedExactlyWhen(s, seq0, r, t, ds[1]);
    FirstHeld(s, seq0, r, ds[0].idx);
    assert Run(s, seq0, ds) == RunStep(s, seq0, r, ds[1]);
    assert [] + [Carried(s, ds[0].idx) + Carried(s, ds[1].idx)] == [Carried(s, ds[0].idx) + Carried(s, ds[1].idx)];
  }

  function LongFrame(): Frame {
    Frame(false, 0, 0, seq(0x10003, i => if i <= 0x10000 then 1 else 2))
  }

  lemma {:induction false} PieceAt(n: nat, first: bool, from: nat, total: nat, k: nat)
    requires from + k + 1 < total
    ensures var cs := FramePieces(n, first, from, total, 1);
            k < |cs| && cs[k] == Piece(n, from + k, from + k + 1, first && k == 0, false)
    decreases k
  {
    if k == 0 {
    } else {
      PieceAt(n, false, from + 1, total, k - 1);
    }
  }

  lemma LongFrameSent()
    ensures var s := Send([LongFrame()], 1, HDR_SIZE + 1);
            && Good(s) && s.frames == [LongFrame()] && |s.cs| > 0x10001
            && s.cs[0] == Piece(0, 0, 1, true, false) && s.cs[0x10001] == Piece(0, 0x10001, 0x10002, false, false)
  {
    hide FramePieces, FramePackets, Cut, Next, Good;
    var f := LongFrame();
    var s, s0 := Send([f], 1, HDR_SIZE + 1), Send([f], 0, HDR_SIZE + 1);
    SendGood([f], 1, HDR_SIZE + 1);
    assert s.cs == s0.cs + FramePieces(0, true, 0, |f.buf|, 1) && s0.cs == [];
    PieceAt(0, true, 0, |f.buf|, 0);
    PieceAt(0, true, 0, |f.buf|, 0x10001);
  }

  /** A concrete run: of a frame of 65539 bytes sent byte by byte only the first packet and
      the one 65537 later arrive; the buffer then is no prefix of the frame. */
  lemma SpliceShown(seq0: nat)
    ensures var s := Send([LongFrame()], 1, HDR_SIZE + 1);
            var ds := [Delivery(0, false), Delivery(0x10001, false)];
            InRange(s, ds) && Run(s, seq0, ds).st.mb == [1, 2]
    ensures !([1, 2] <= LongFrame().buf)
  {
    hide Run, Send, HdrEncode;
    LongFrameSent();
    var s := Send([LongFrame()], 1, HDR_SIZE + 1);
    Spliced(s, seq0, [Delivery(0, false), Delivery(0x10001, false)]);
    var b := LongFrame().buf;
    assert b[0..1] + b[0x10001..0x10002] == [1, 2];
    assert b[1] == 1;
  }

  // ----- nothing lost -----

  predicate InSequence(ds: seq<Delivery>) {
    forall k :: 0 <= k < |ds| ==> ds[k].idx == k
  }

  /** The frames that end among the first k packets and come through. */
  ghost function Through(s: Sent, k: nat): seq<nat>
    requires Good(s) && k <= |s.cs|
  {
    if k == 0 then []
    else
      var c := s.cs[k - 1];
      assert Cut(s.frames, s.ps[k - 1], c);
      Through(s, k - 1)
      + if c.last && s.frames[c.frame].partid % 8 == 0 && c.from <= DECODE_MAXSZ then [c.frame] else []
  }

  lemma {:induction false} InSequenceRun(s: Sent, ds: seq<Delivery>)
    requires Good(s) && InRange(s, ds) && InSequence(ds) && |ds| <= |s.cs|
    ensures var t := TrackRun(s, ds);
            && t.given == Through(s, |ds|)
            && (|ds| > 0 ==> var c := s.cs[|ds| - 1];
                 && Cut(s.frames, s.ps[|ds| - 1], c)
                 && t.at == if !c.last && s.frames[c.frame].partid % 8 == 0 && c.upto <= DECODE_MAXSZ
                            then Some(|ds| - 1) else None)
            && (ds == [] ==> t.at == None)
  {
    hide HdrEncode;
    if ds == [] {
    } else {
      var n := |ds| - 1;
      InSequenceRun(s, ds[..n]);
      assert ds[n].idx == n && Cut(s.frames, s.ps[n], s.cs[n]);
      if n > 0 {
        assert Next(s.cs[n - 1], s.cs[n]);
      }
    }
  }

  /** The size of the last packet of n bytes cut in pieces of sz. */
  function LastSize(n: nat, sz: nat): (r: nat)
    requires sz > 0
    ensures r <= n
  {
    if n <= sz then n else LastSize(n - sz, sz)
  }

  /** A frame comes through when its partition id is 0 modulo 8 and all but its last packet
      is within the limit. */
  predicate ComesThrough(f: Frame, pktsize: nat)
    requires pktsize > HDR_SIZE
  {
    f.partid % 8 == 0 && |f.buf| - LastSize(|f.buf|, pktsize - HDR_SIZE) <= DECODE_MAXSZ
  }

  function Expected(frames: seq<Frame>, k: nat, pktsize: nat): seq<seq<byte>>
    requires k <= |frames| && pktsize > HDR_SIZE
  {
    if k == 0 then []
    else Expected(frames, k - 1, pktsize) + if ComesThrough(frames[k - 1], pktsize) then [frames[k - 1].buf] else []
  }

  lemma {:induction false} LastPieceIs(n: nat, first: bool, from: nat, total: nat, sz: nat)
    requires sz > 0 && from <= total
    ensures var cs := FramePieces(n, first, from, total, sz);
            && |cs| > 0 && cs[|cs| - 1].frame == n && cs[|cs| - 1].from == total - LastSize(total - from, sz)
            && forall i :: 0 <= i < |cs| ==> (cs[i].last <==> i == |cs| - 1)
    decreases total - from
  {
    if total <= from + sz {
    } else {
      LastPieceIs(n, false, from + sz, total, sz);
    }
  }

  // Packets that do not end a frame bring none through; earlier packets decide for themselves.
  lemma {:induction false} ThroughPrefix(s: Sent, t: Sent, a: nat, k: nat)
    requires Good(s) && Good(t) && a <= |s.cs| && s.cs <= t.cs && s.frames <= t.frames && a <= k <= |t.cs|
    requires forall i :: a <= i < k ==> !t.cs[i].last
    ensures Through(t, k) == Through(s, a)
  {
    hide HdrEncode, Next;
    if k > a {
      assert !t.cs[k - 1].last;
      ThroughPrefix(s, t, a, k - 1);
    } else if k > 0 {
      assert Cut(s.frames, s.ps[k - 1], s.cs[k - 1]);
      assert t.cs[k - 1] == s.cs[k - 1] && t.frames[s.cs[k - 1].frame] == s.frames[s.cs[k - 1].frame];
      ThroughPrefix(s, t, a - 1, k - 1);
    }
  }

  // The packets of one more frame bring that frame through, or nothing.
  lemma ThroughAdds(s: Sent, t: Sent, cs: seq<Piece>, f: Frame, pktsize: nat)
    requires pktsize > HDR_SIZE && Good(s) && Good(t) && t.cs == s.cs + cs && t.frames == s.frames + [f]
    requires cs == FramePieces(|s.frames|, true, 0, |f.buf|, pktsize - HDR_SIZE)
    ensures Through(t, |t.cs|) == Through(s, |s.cs|) + if ComesThrough(f, pktsize) then [|s.frames|] else []
  {
    hide HdrEncode, FramePieces, Cut, Next, LastSize;
    LastPieceIs(|s.frames|, true, 0, |f.buf|, pktsize - HDR_SIZE);
    assert forall i :: |s.cs| <= i < |t.cs| ==> t.cs[i] == cs[i - |s.cs|];
    ThroughPrefix(s, t, |s.cs|, |t.cs| - 1);
    var c := t.cs[|t.cs| - 1];
    assert c == cs[|cs| - 1] && t.frames[c.frame] == f;
  }

  /** Frame numbers stand for their bytes. */
  ghost predicate StandFor(frames: seq<Frame>, ids: seq<nat>, out: seq<seq<byte>>) {
    |ids| == |out| && forall i :: 0 <= i < |out| ==> ids[i] < |frames| && frames[ids[i]].buf == out[i]
  }

  lemma {:induction false} ThroughIs(frames: seq<Frame>, k: nat, pktsize: nat)
    requires pktsize > HDR_SIZE && k <= |frames|
    ensures var s := Send(frames, k, pktsize);
            && Good(s) && s.frames == frames[..k]
            && StandFor(frames, Through(s, |s.cs|), Expected(frames, k, pktsize))
  {
    hide Good, FramePackets, FramePieces, ComesThrough, Through;
    SendGood(frames, k, pktsize);
    if k == 0 {
      NoneThrough(Send(frames, 0, pktsize));
    } else {
      ThroughIs(frames, k - 1, pktsize);
      var s, t := Send(frames, k - 1, pktsize), Send(frames, k, pktsize);
      var f := frames[k - 1];
      ThroughAdds(s, t, FramePieces(k - 1, true, 0, |f.buf|, pktsize - HDR_SIZE), f, pktsize);
    }
  }

  lemma NoneThrough(s: Sent)
    requires Good(s) && s.cs == []
    ensures Through(s, |s.cs|) == []
  {
  }

  /** Round trip. When all packets arrive in order the library is given exactly the frames
      of partition 0 (modulo 8) that fit, byte for byte and in order, and no others: frames do
      not disturb each other. */
  lemma NothingLost(frames: seq<Frame>, pktsize: nat, seq0: nat, ds: seq<Delivery>)
    requires pktsize > HDR_SIZE
    requires var s := Send(frames, |frames|, pktsize);
             |ds| == |s.ps| && InSequence(ds)
    ensures Run(Send(frames, |frames|, pktsize), seq0, ds).given == Expected(frames, |frames|, pktsize)
  {
    hide HdrEncode, Send, Run, TrackRun, Through, RunStep, Tellable;
    var s := Send(frames, |frames|, pktsize);
    ThroughIs(frames, |frames|, pktsize);
    ShortBursts(s, ds);
    OnlyWholeFrames(s, seq0, ds);
    InSequenceRun(s, ds);
    assert frames[..|frames|] == frames;
  }
}
