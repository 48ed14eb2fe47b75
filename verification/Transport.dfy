// The decoder against the sender: a decoder that thinks in whole units, and the theorem
// that the byte-level one follows it under loss, duplication and reordering.
module Transport {
  import opened Bytes
  import opened StartCode
  import opened Nal
  import opened Reassembly
  import opened Stream

  /** A packet that arrives: its number in the run, and the library's answer should the
      buffer be handed over. Its RTP sequence number is seq0 + idx modulo 2^16. */
  datatype Delivery = Delivery(idx: nat, lib: LibAnswer)

  predicate InRange(s: Sent, ds: seq<Delivery>) {
    forall k :: 0 <= k < |ds| ==> ds[k].idx < |s.ps|
  }

  datatype RunState = RunState(st: State, given: seq<seq<byte>>)

  function RunStep(s: Sent, seq0: nat, r: RunState, d: Delivery): RunState
    requires d.idx < |s.ps|
  {
    var p := s.ps[d.idx];
    var o := Step(r.st, ViewOf(s.codec, p.pld, r.st.gotKey), p.marker, (seq0 + d.idx) % 0x10000, d.lib);
    RunState(o.st, r.given + match o.given { case None => [] case Some(b) => [b] })
  }

  /** The decoder fed with the packets that arrive. */
  function Run(s: Sent, seq0: nat, r: RunState, ds: seq<Delivery>): RunState
    requires InRange(s, ds)
  {
    if ds == [] then r
    else RunStep(s, seq0, Run(s, seq0, r, ds[..|ds| - 1]), ds[|ds| - 1])
  }

  // ----- the decoder that thinks in units -----

  /** `done` lists the complete units in the buffer by number; while `open`, the unit of
      packet `at` follows, as far as that packet goes. */
  datatype Track = Track(done: seq<nat>, open: bool, at: nat, gotKey: bool, given: seq<seq<nat>>)

  predicate Known(us: seq<seq<byte>>, ids: seq<nat>) {
    forall k :: 0 <= k < |ids| ==> ids[k] < |us|
  }

  /** The units with these numbers. */
  function Listed(us: seq<seq<byte>>, ids: seq<nat>): seq<seq<byte>>
    requires Known(us, ids)
  {
    seq(|ids|, k requires 0 <= k < |ids| => us[ids[k]])
  }

  /** Complete units, each behind a start code. */
  function Flat(us: seq<seq<byte>>, ids: seq<nat>): seq<byte>
    requires Known(us, ids)
  {
    AnnexB(Listed(us, ids))
  }

  lemma FlatSnoc(us: seq<seq<byte>>, ids: seq<nat>, n: nat)
    requires Known(us, ids) && n < |us|
    ensures Known(us, ids + [n]) && Listed(us, ids + [n]) == Listed(us, ids) + [us[n]]
    ensures Flat(us, ids + [n]) == Flat(us, ids) + (SC + us[n])
  {
    var vs := Listed(us, ids + [n]);
    assert vs[..|vs| - 1] == Listed(us, ids) && vs[|vs| - 1] == us[n];
    Assoc(Flat(us, ids), SC, us[n]);
  }

  /** A track that makes sense for what was sent: the open unit is really unfinished. */
  ghost predicate Sound(s: Sent, t: Track) {
    && Known(s.us, t.done)
    && (forall k :: 0 <= k < |t.given| ==> Known(s.us, t.given[k]))
    && (t.open ==> t.at < |s.cs| && s.cs[t.at].unit < |s.us| && s.cs[t.at].upto < 3 + |s.us[s.cs[t.at].unit]|)
  }

  function Partial(s: Sent, t: Track): seq<byte>
    requires t.open ==> t.at < |s.cs| && s.cs[t.at].unit < |s.us| && s.cs[t.at].upto < 3 + |s.us[s.cs[t.at].unit]|
  {
    if t.open then (SC + s.us[s.cs[t.at].unit])[..s.cs[t.at].upto] else []
  }

  function Buffer(s: Sent, t: Track): seq<byte>
    requires Sound(s, t)
  {
    Flat(s.us, t.done) + Partial(s, t)
  }

  /** An unsplit H.264 slice before the first keyframe is not taken. */
  predicate Held(s: Sent, idx: nat, gotKey: bool)
    requires idx < |s.cs| && s.cs[idx].unit < |s.us| && s.us[s.cs[idx].unit] != []
  {
    var c := s.cs[idx];
    s.codec.H264? && !gotKey && Whole(s.us, c) && H264Type(s.us[c.unit][0]) == H264_SLICE
  }

  /** The end of a packet: too much without a marker empties the buffer, a marker hands the
      complete units over. */
  ghost function Settle(s: Sent, t: Track, marker: bool, lib: LibAnswer): (t': Track)
    requires Sound(s, t)
    ensures Sound(s, t')
  {
    if !marker then
      if |Buffer(s, t)| > DECODE_MAXSZ then t.(done := [], open := false, at := 0) else t
    else if t.open then t.(done := [], open := false, at := 0)
    else t.(done := [], gotKey := t.gotKey || (lib.Picture? && lib.key), given := t.given + [t.done])
  }

  /** Unit n is complete. */
  ghost function Complete(s: Sent, t: Track, n: nat): (t': Track)
    requires Sound(s, t) && n < |s.us|
    ensures Sound(s, t')
  {
    t.(done := t.done + [n], open := false, at := 0)
  }

  /** One packet. A fragment counts only right after the fragment before it. */
  ghost function TrackStep(s: Sent, t: Track, d: Delivery): (t': Track)
    requires Good(s) && Sound(s, t) && d.idx < |s.cs|
    ensures Sound(s, t')
  {
    assert Cut(s.codec, s.ps[d.idx], s.cs[d.idx], s.us);
    var c := s.cs[d.idx];
    if Held(s, d.idx, t.gotKey) then t
    else if Whole(s.us, c) then
      Settle(s, Complete(s, t, c.unit), c.marker, d.lib)
    else if c.from == 0 then Settle(s, t.(open := true, at := d.idx), c.marker, d.lib)
    else if !t.open then t
    else if d.idx != t.at + 1 then t.(open := false, at := 0)
    else if c.upto < 3 + |s.us[c.unit]| then Settle(s, t.(at := d.idx), c.marker, d.lib)
    else Settle(s, Complete(s, t, c.unit), c.marker, d.lib)
  }

  ghost function TrackRun(s: Sent, t: Track, ds: seq<Delivery>): (t': Track)
    requires Good(s) && Sound(s, t) && InRange(s, ds)
    ensures Sound(s, t')
  {
    if ds == [] then t
    else TrackStep(s, TrackRun(s, t, ds[..|ds| - 1]), ds[|ds| - 1])
  }

  // ----- refinement -----

  /** What the byte-level decoder holds when the unit-level one is at t. */
  ghost predicate Follows(s: Sent, seq0: nat, r: RunState, t: Track)
    requires Sound(s, t)
  {
    && r.st.mb == Buffer(s, t)
    && r.st.frag == t.open && r.st.gotKey == t.gotKey
    && (t.open ==> r.st.fragStart == |Flat(s.us, t.done)| && r.st.fragSeq == (seq0 + t.at) % 0x10000)
    && |r.given| == |t.given|
    && forall k :: 0 <= k < |t.given| ==> r.given[k] == Flat(s.us, t.given[k])
  }

  lemma RewoundIs(s: Sent, seq0: nat, r: RunState, t: Track)
    requires Sound(s, t) && Follows(s, seq0, r, t)
    ensures Rewound(r.st).mb == Flat(s.us, t.done) && !Rewound(r.st).frag && Rewound(r.st).gotKey == t.gotKey
  {
    var f := Flat(s.us, t.done);
    assert (f + Partial(s, t))[..|f|] == f;
    assert !t.open ==> f + Partial(s, t) == f;
  }

  // Both levels treat the end of a packet alike.
  lemma SettleFollows(s: Sent, seq0: nat, st: State, given: seq<seq<byte>>, t: Track, marker: bool, lib: LibAnswer)
    requires Sound(s, t) && Follows(s, seq0, RunState(st, given), t)
    ensures var o := Finish(st, marker, lib);
            var t' := Settle(s, t, marker, lib);
            && Sound(s, t')
            && Follows(s, seq0, RunState(o.st, given + match o.given { case None => [] case Some(b) => [b] }), t')
  {
    FlatEmpty(s.us);
    hide Flat;
    assert Flat(s.us, t.done) + [] == Flat(s.us, t.done);
  }

  lemma FlatEmpty(us: seq<seq<byte>>)
    ensures Flat(us, []) == []
  {
  }

  lemma ViewIs(s: Sent, idx: nat, gotKey: bool)
    requires Good(s) && idx < |s.ps|
    ensures Cut(s.codec, s.ps[idx], s.cs[idx], s.us)
    ensures ViewOf(s.codec, s.ps[idx].pld, gotKey)
            == if Held(s, idx, gotKey) then Ignore(EPROTO) else ChunkView(SC + s.us[s.cs[idx].unit], s.cs[idx])
  {
    hide H264View, H265View, ChunkView;
    assert Cut(s.codec, s.ps[idx], s.cs[idx], s.us);
  }

  /** The bytes that packet k carries, start code and rebuilt header included. */
  function Carried(s: Sent, k: nat): seq<byte>
    requires k < |s.cs| && s.cs[k].unit < |s.us| && s.cs[k].from <= s.cs[k].upto <= 3 + |s.us[s.cs[k].unit]|
  {
    (SC + s.us[s.cs[k].unit])[s.cs[k].from..s.cs[k].upto]
  }

  // A continuation is seen as one, whatever the keyframe flag.
  lemma ContinuationView(s: Sent, idx: nat, gotKey: bool)
    requires Good(s) && idx < |s.ps| && s.cs[idx].from > 0
    ensures s.cs[idx].unit < |s.us| && s.cs[idx].from <= s.cs[idx].upto <= 3 + |s.us[s.cs[idx].unit]|
    ensures ViewOf(s.codec, s.ps[idx].pld, gotKey)
            == Continue(Carried(s, idx), s.cs[idx].upto == 3 + |s.us[s.cs[idx].unit]|)
  {
    hide ViewOf, PlainView;
    ViewIs(s, idx, gotKey);
  }

  // What the decoder takes in when it sees a continuation.
  lemma TakeContinuation(st: State, bytes: seq<byte>, end: bool, seqno: nat)
    ensures Take(st, Continue(bytes, end), seqno)
            == if !st.frag then Taken(st, false, Ok)
               else if !NextSeq(st.fragSeq, seqno) then Taken(Rewound(st), false, Ok)
               else Taken(State(st.mb + bytes, !end, st.fragStart, seqno, st.gotKey), true, Ok)
  {
  }

  lemma WholeFollows(s: Sent, seq0: nat, r: RunState, t: Track, d: Delivery)
    requires Good(s) && Sound(s, t) && Follows(s, seq0, r, t) && d.idx < |s.ps|
    requires Whole(s.us, s.cs[d.idx]) && !Held(s, d.idx, t.gotKey)
    ensures Follows(s, seq0, RunStep(s, seq0, r, d), TrackStep(s, t, d))
  {
    hide ViewOf, PlainView, Finish, Settle, Flat;
    var c := s.cs[d.idx];
    var au := SC + s.us[c.unit];
    ViewIs(s, d.idx, t.gotKey);
    RewoundIs(s, seq0, r, t);
    FlatSnoc(s.us, t.done, c.unit);
    var t' := t.(done := t.done + [c.unit], open := false, at := 0);
    assert Flat(s.us, t'.done) + [] == Flat(s.us, t'.done);
    SettleFollows(s, seq0, Rewound(r.st).(mb := Flat(s.us, t.done) + au), r.given, t', c.marker, d.lib);
  }

  // A first fragment is seen as one, whatever the keyframe flag.
  lemma BeginView(s: Sent, idx: nat, gotKey: bool)
    requires Good(s) && idx < |s.ps| && s.cs[idx].from == 0
    ensures s.cs[idx].unit < |s.us| && s.cs[idx].upto <= 3 + |s.us[s.cs[idx].unit]|
    ensures !Whole(s.us, s.cs[idx]) ==>
              ViewOf(s.codec, s.ps[idx].pld, gotKey) == Begin(Carried(s, idx), false)
              && s.ps[idx].marker == s.cs[idx].marker
  {
    hide ViewOf, PlainView;
    ViewIs(s, idx, gotKey);
  }

  lemma TrackBegins(s: Sent, t: Track, d: Delivery)
    requires Good(s) && Sound(s, t) && d.idx < |s.cs| && s.cs[d.idx].from == 0 && s.cs[d.idx].unit < |s.us|
    requires !Whole(s.us, s.cs[d.idx])
    ensures var t' := t.(open := true, at := d.idx);
            Sound(s, t') && TrackStep(s, t, d) == Settle(s, t', s.cs[d.idx].marker, d.lib)
  {
    hide PlainView, Settle, Flat;
    assert Cut(s.codec, s.ps[d.idx], s.cs[d.idx], s.us);
  }

  lemma BeginFollows(s: Sent, seq0: nat, r: RunState, t: Track, d: Delivery)
    requires Good(s) && Sound(s, t) && Follows(s, seq0, r, t) && d.idx < |s.ps|
    requires s.cs[d.idx].unit < |s.us| && !Whole(s.us, s.cs[d.idx]) && s.cs[d.idx].from == 0
    ensures Follows(s, seq0, RunStep(s, seq0, r, d), TrackStep(s, t, d))
  {
    hide ViewOf, Finish, Settle, Flat, TrackStep, Cut, Next, Rewound;
    var c, f := s.cs[d.idx], Flat(s.us, t.done);
    BeginView(s, d.idx, t.gotKey);
    RewoundIs(s, seq0, r, t);
    TrackBegins(s, t, d);
    var st := State(f + Carried(s, d.idx), true, |f|, (seq0 + d.idx) % 0x10000, r.st.gotKey);
    SettleFollows(s, seq0, st, r.given, t.(open := true, at := d.idx), c.marker, d.lib);
  }

  // The bytes of a continuation extend the partial unit, or complete it.
  lemma Extends(s: Sent, t: Track, k: nat)
    requires Good(s) && Sound(s, t) && t.open && k == t.at + 1 && k < |s.cs| && s.cs[k].from > 0
    ensures s.cs[k].unit < |s.us| && s.cs[k].upto <= 3 + |s.us[s.cs[k].unit]|
    ensures var c := s.cs[k];
            var au := SC + s.us[c.unit];
            var more := Buffer(s, t) + au[c.from..c.upto];
            && (c.upto < |au| ==> Sound(s, t.(at := k)) && more == Buffer(s, t.(at := k)))
            && (c.upto == |au| ==> more == Buffer(s, Complete(s, t, c.unit)))
  {
    hide PlainView, Flat;
    var c, f := s.cs[k], Flat(s.us, t.done);
    assert Cut(s.codec, s.ps[k], c, s.us);
    assert Next(s.us, s.cs[t.at], c);
    var au := SC + s.us[c.unit];
    assert au[..c.from] + au[c.from..c.upto] == au[..c.upto];
    Assoc(f, au[..c.from], au[c.from..c.upto]);
    FlatSnoc(s.us, t.done, c.unit);
    if c.upto == |au| {
      assert au[..|au|] == au && Flat(s.us, t.done + [c.unit]) + [] == f + au;
    }
  }

  lemma ContinueFollows(s: Sent, seq0: nat, r: RunState, t: Track, d: Delivery)
    requires Good(s) && Sound(s, t) && Follows(s, seq0, r, t) && d.idx < |s.ps|
    requires t.open && s.cs[d.idx].from > 0 && d.idx == t.at + 1
    ensures Follows(s, seq0, RunStep(s, seq0, r, d), TrackStep(s, t, d))
  {
    hide ViewOf, Finish, Settle, Flat, PlainView, NextSeq, Partial;
    var c := s.cs[d.idx];
    ViewIs(s, d.idx, t.gotKey);
    NextSeqIs(seq0, t.at, d.idx);
    Extends(s, t, d.idx);
    var au := SC + s.us[c.unit];
    var end := c.upto == |au|;
    var t' := if end then Complete(s, t, c.unit) else t.(at := d.idx);
    var st := State(Buffer(s, t'), !end, r.st.fragStart, (seq0 + d.idx) % 0x10000, r.st.gotKey);
    SettleFollows(s, seq0, st, r.given, t', c.marker, d.lib);
  }

  lemma HeldFollows(s: Sent, seq0: nat, r: RunState, t: Track, d: Delivery)
    requires Good(s) && Sound(s, t) && Follows(s, seq0, r, t) && d.idx < |s.ps|
    requires Cut(s.codec, s.ps[d.idx], s.cs[d.idx], s.us) && Held(s, d.idx, t.gotKey)
    ensures Follows(s, seq0, RunStep(s, seq0, r, d), TrackStep(s, t, d))
  {
    hide ViewOf, PlainView, Finish, Settle, Flat, ChunkView, Next;
    ViewIs(s, d.idx, t.gotKey);
  }

  lemma StrayFollows(s: Sent, seq0: nat, r: RunState, t: Track, d: Delivery)
    requires Good(s) && Sound(s, t) && Follows(s, seq0, r, t) && d.idx < |s.ps|
    requires s.cs[d.idx].from > 0 && !t.open
    ensures Follows(s, seq0, RunStep(s, seq0, r, d), TrackStep(s, t, d))
  {
    hide ViewOf, PlainView, Finish, Flat, Take, TrackStep, Next, Cut, Rewound;
    ContinuationView(s, d.idx, t.gotKey);
    var c, number := s.cs[d.idx], (seq0 + d.idx) % 0x10000;
    TakeContinuation(r.st, Carried(s, d.idx), c.upto == 3 + |s.us[c.unit]|, number);
    StrayPacket(s, t, d.idx, d.lib);
  }

  lemma StrayPacket(s: Sent, t: Track, k: nat, lib: LibAnswer)
    requires Good(s) && Sound(s, t) && k < |s.cs| && !t.open && s.cs[k].from > 0
    ensures TrackStep(s, t, Delivery(k, lib)) == t
  {
    hide PlainView, Flat, Settle;
    assert Cut(s.codec, s.ps[k], s.cs[k], s.us);
  }

  lemma TrackDrops(s: Sent, t: Track, d: Delivery)
    requires Good(s) && Sound(s, t) && d.idx < |s.cs|
    requires t.open && s.cs[d.idx].from > 0 && d.idx != t.at + 1
    ensures TrackStep(s, t, d) == t.(open := false, at := 0)
  {
    hide PlainView, Settle, Flat;
    assert Cut(s.codec, s.ps[d.idx], s.cs[d.idx], s.us);
  }

  lemma DropFollows(s: Sent, seq0: nat, r: RunState, t: Track, d: Delivery)
    requires Good(s) && Sound(s, t) && Follows(s, seq0, r, t) && d.idx < |s.ps|
    requires t.open && s.cs[d.idx].from > 0 && d.idx != t.at + 1 && Told(t.at, d.idx)
    ensures Follows(s, seq0, RunStep(s, seq0, r, d), TrackStep(s, t, d))
  {
    hide ViewOf, PlainView, Finish, Flat, NextSeq, Take, Cut, Next, TrackStep, Rewound;
    ContinuationView(s, d.idx, t.gotKey);
    var c, number := s.cs[d.idx], (seq0 + d.idx) % 0x10000;
    TakeContinuation(r.st, Carried(s, d.idx), c.upto == 3 + |s.us[c.unit]|, number);
    NextSeqIs(seq0, t.at, d.idx);
    RewoundIs(s, seq0, r, t);
    TrackDrops(s, t, d);
    assert Flat(s.us, t.done) + [] == Flat(s.us, t.done);
  }

  /** One packet keeps the byte-level decoder in step with the unit-level one, as long as
      the numbers can tell a continuation of the open unit from any other. */
  lemma StepFollows(s: Sent, seq0: nat, r: RunState, t: Track, d: Delivery)
    requires Good(s) && Sound(s, t) && Follows(s, seq0, r, t) && d.idx < |s.ps|
    requires t.open && s.cs[d.idx].from > 0 ==> Told(t.at, d.idx)
    ensures Follows(s, seq0, RunStep(s, seq0, r, d), TrackStep(s, t, d))
  {
    hide ViewOf, PlainView, RunStep, TrackStep, Follows;
    ViewIs(s, d.idx, t.gotKey);
    var c := s.cs[d.idx];
    if Held(s, d.idx, t.gotKey) {
      HeldFollows(s, seq0, r, t, d);
    } else if Whole(s.us, c) {
      WholeFollows(s, seq0, r, t, d);
    } else if c.from == 0 {
      BeginFollows(s, seq0, r, t, d);
    } else if !t.open {
      StrayFollows(s, seq0, r, t, d);
    } else if d.idx == t.at + 1 {
      ContinueFollows(s, seq0, r, t, d);
    } else {
      DropFollows(s, seq0, r, t, d);
    }
  }

  // ----- runs -----

  function Start(gotKey: bool): Track {
    Track([], false, 0, gotKey, [])
  }

  lemma NothingFollows(s: Sent, seq0: nat, gotKey: bool)
    ensures Follows(s, seq0, RunState(Clean(gotKey), []), Start(gotKey))
  {
    assert Flat(s.us, []) + [] == [];
  }

  /** The 16-bit sequence numbers can tell: a fragment that arrives while a unit is open, and
      continues a unit, is the next one of it or not a whole number of wraps away from that.
      Anything may be lost, repeated or reordered as long as this holds. */
  ghost predicate Tellable(s: Sent, gotKey: bool, ds: seq<Delivery>)
    requires Good(s) && InRange(s, ds)
  {
    ds != [] ==>
      var front, idx := ds[..|ds| - 1], ds[|ds| - 1].idx;
      var t := TrackRun(s, Start(gotKey), front);
      Tellable(s, gotKey, front) && (t.open && s.cs[idx].from > 0 ==> Told(t.at, idx))
  }

  /** Over any run in which the numbers can tell, the byte-level decoder follows the unit-level
      one. */
  lemma {:induction false} RunFollows(s: Sent, seq0: nat, gotKey: bool, ds: seq<Delivery>)
    requires Good(s) && InRange(s, ds)
    requires Tellable(s, gotKey, ds)
    ensures Follows(s, seq0, Run(s, seq0, RunState(Clean(gotKey), []), ds), TrackRun(s, Start(gotKey), ds))
  {
    hide RunStep, TrackStep, Follows, Good;
    if ds == [] {
      NothingFollows(s, seq0, gotKey);
    } else {
      var front, d := ds[..|ds| - 1], ds[|ds| - 1];
      RunFollows(s, seq0, gotKey, front);
      StepFollows(s, seq0, Run(s, seq0, RunState(Clean(gotKey), []), front), TrackRun(s, Start(gotKey), front), d);
    }
  }

  // ----- a condition on the order of arrival alone -----

  /** The last fragment (not a whole unit) that arrived. */
  ghost function LastFragment(s: Sent, ds: seq<Delivery>): Option<nat>
    requires Good(s) && InRange(s, ds)
  {
    if ds == [] then None
    else
      var idx := ds[|ds| - 1].idx;
      assert Cut(s.codec, s.ps[idx], s.cs[idx], s.us);
      if Whole(s.us, s.cs[idx]) then LastFragment(s, ds[..|ds| - 1]) else Some(idx)
  }

  // While a unit is open, its last accepted fragment is the last fragment that arrived.
  lemma {:induction false} OpenIsLast(s: Sent, gotKey: bool, ds: seq<Delivery>)
    requires Good(s) && InRange(s, ds)
    ensures var t := TrackRun(s, Start(gotKey), ds);
            t.open ==> LastFragment(s, ds) == Some(t.at)
  {
    hide PlainView, Settle;
    if ds == [] {
    } else {
      OpenIsLast(s, gotKey, ds[..|ds| - 1]);
      var d := ds[|ds| - 1];
      assert Cut(s.codec, s.ps[d.idx], s.cs[d.idx], s.us);
      TrackStepOpen(s, TrackRun(s, Start(gotKey), ds[..|ds| - 1]), d);
    }
  }

  lemma TrackStepOpen(s: Sent, t: Track, d: Delivery)
    requires Good(s) && Sound(s, t) && d.idx < |s.cs|
    requires s.cs[d.idx].unit < |s.us|
    ensures var t' := TrackStep(s, t, d);
            t'.open ==> if Whole(s.us, s.cs[d.idx]) then t' == t else t'.at == d.idx
  {
    hide Flat;
    assert Cut(s.codec, s.ps[d.idx], s.cs[d.idx], s.us);
  }

  /** A fragment that continues a unit is the one after the fragment that arrived last, or not a
      whole number of wraps away from it. */
  ghost predicate Window(s: Sent, ds: seq<Delivery>)
    requires Good(s) && InRange(s, ds)
  {
    ds != [] ==>
      var idx := ds[|ds| - 1].idx;
      && Window(s, ds[..|ds| - 1])
      && (s.cs[idx].from == 0 ||
          match LastFragment(s, ds[..|ds| - 1])
          case None => true
          case Some(i) => Told(i, idx))
  }

  /** That is enough, whatever the decoder makes of the packets. */
  lemma {:induction false} WindowTells(s: Sent, gotKey: bool, ds: seq<Delivery>)
    requires Good(s) && InRange(s, ds) && Window(s, ds)
    ensures Tellable(s, gotKey, ds)
  {
    hide Good, TrackStep;
    if ds == [] {
    } else {
      WindowTells(s, gotKey, ds[..|ds| - 1]);
      OpenIsLast(s, gotKey, ds[..|ds| - 1]);
    }
  }
}
