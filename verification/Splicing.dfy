// What happens when 16-bit sequence numbers cannot tell a continuation from the next one.
module Splicing {
  import opened Bytes
  import opened StartCode
  import opened Nal
  import opened Reassembly
  import opened Stream
  import opened Transport
  import opened LossSafety

  predicate OpensUnit(s: Sent, k: nat)
    requires k < |s.cs|
  {
    var c := s.cs[k];
    c.unit < |s.us| && c.from == 0 && c.upto < 3 + |s.us[c.unit]| && !c.marker && c.upto <= DECODE_MAXSZ
  }

  predicate HeldSlice(s: Sent, k: nat, gotKey: bool)
    requires k < |s.cs|
  {
    var n := s.cs[k].unit;
    n < |s.us| && s.us[n] != [] && Held(s, k, gotKey)
  }

  /** A first fragment, then only slices that are held back before the first keyframe. */
  predicate OnlyHeldAfter(s: Sent, gotKey: bool, ds: seq<Delivery>)
    requires InRange(s, ds) && |s.ps| == |s.cs|
  {
    && ds != [] && OpensUnit(s, ds[0].idx)
    && forall k :: 0 < k < |ds| ==> HeldSlice(s, ds[k].idx, gotKey)
  }

  // They leave the fragment open.
  lemma {:induction false} StaysOpen(s: Sent, gotKey: bool, ds: seq<Delivery>)
    requires Good(s) && InRange(s, ds) && OnlyHeldAfter(s, gotKey, ds)
    ensures Tellable(s, gotKey, ds)
    ensures TrackRun(s, Start(gotKey), ds) == Start(gotKey).(open := true, at := ds[0].idx)
  {
    hide Flat, TrackStep, Cut, Next;
    var n := |ds| - 1;
    var front, d := ds[..n], ds[n];
    if n == 0 {
      FlatEmpty(s.us);
      FirstPacket(s, Start(gotKey), d.idx, d.lib);
    } else {
      assert front[0] == ds[0];
      StaysOpen(s, gotKey, front);
      HeldPacket(s, TrackRun(s, Start(gotKey), front), d.idx, d.lib);
    }
  }

  // A continuation that cannot be told from the next one.
  lemma SpliceStep(s: Sent, seq0: nat, r: RunState, t: Track, d: Delivery)
    requires Good(s) && Sound(s, t) && Follows(s, seq0, r, t) && d.idx < |s.ps|
    requires t.open && s.cs[d.idx].from > 0 && !Told(t.at, d.idx)
    ensures s.cs[d.idx].unit < |s.us| && s.cs[d.idx].from <= s.cs[d.idx].upto <= 3 + |s.us[s.cs[d.idx].unit]|
    ensures var r' := RunStep(s, seq0, r, d);
            var both := Buffer(s, t) + Carried(s, d.idx);
            if s.cs[d.idx].marker then r'.given == r.given + [both]
            else |both| <= DECODE_MAXSZ ==> r'.given == r.given && r'.st.mb == both
  {
    hide ViewOf, PlainView, NextSeq, Take, Follows, Next, Buffer, Flat, Carried;
    DroppedExactlyWhen(s, seq0, r, t, d);
    assert Cut(s.codec, s.ps[d.idx], s.cs[d.idx], s.us);
    assert r.st.gotKey == t.gotKey by { FollowsKey(s, seq0, r, t); }
  }

  lemma FollowsKey(s: Sent, seq0: nat, r: RunState, t: Track)
    requires Sound(s, t) && Follows(s, seq0, r, t)
    ensures r.st.gotKey == t.gotKey && |r.given| == |t.given|
  {
  }

  /** From a new decoder: the first fragment of a unit, any slices that are held back, then a
      continuation whose number is the next one modulo 2^16 without being the next. The two
      pieces are put together and, with a marker, handed over. */
  lemma Spliced(s: Sent, seq0: nat, gotKey: bool, ds: seq<Delivery>)
    requires Good(s) && InRange(s, ds) && |ds| >= 2 && OnlyHeldAfter(s, gotKey, ds[..|ds| - 1])
    requires !Told(ds[0].idx, ds[|ds| - 1].idx) && s.cs[ds[|ds| - 1].idx].from > 0
    ensures var j := ds[|ds| - 1].idx;
            s.cs[j].unit < |s.us| && s.cs[j].from <= s.cs[j].upto <= 3 + |s.us[s.cs[j].unit]|
    ensures var r := Run(s, seq0, RunState(Clean(gotKey), []), ds);
            var j := ds[|ds| - 1].idx;
            var both := Carried(s, ds[0].idx) + Carried(s, j);
            if s.cs[j].marker then r.given == [both]
            else |both| <= DECODE_MAXSZ ==> r.given == [] && r.st.mb == both
  {
    hide Flat, RunStep, Tellable, Next, Follows, Cut;
    var front, d := ds[..|ds| - 1], ds[|ds| - 1];
    StaysOpen(s, gotKey, front);
    RunFollows(s, seq0, gotKey, front);
    var r, t := Run(s, seq0, RunState(Clean(gotKey), []), front), Start(gotKey).(open := true, at := ds[0].idx);
    FollowsKey(s, seq0, r, t);
    SpliceStep(s, seq0, r, t, d);
    FlatEmpty(s.us);
    assert Buffer(s, t) == Carried(s, ds[0].idx);
  }

  /** One unit of 65540 bytes; its bytes from the 65539th on are different. */
  function LongUnit(): seq<byte> {
    [0x65] + seq(0x10003, i => if i <= 0x10000 then 1 else 2)
  }

  lemma {:induction false} FuChunkAt(n: nat, from: nat, body: nat, total: nat, marker: bool, k: nat)
    requires body + k + 1 < total
    ensures var cs := FuChunks(n, from, body, total, 1, marker);
            k < |cs| && cs[k] == Chunk(n, if k == 0 then from else body + k, body + k + 1, false)
    decreases k
  {
    if k == 0 {
    } else {
      FuChunkAt(n, body + 1, body + 1, total, marker, k - 1);
    }
  }

  lemma LongUnitSent()
    ensures var frame := SC + LongUnit();
            && LegalFrames(H264, [frame])
            && var s := Send(H264, [frame], 1, 3);
               s.us == [LongUnit()] && |s.cs| > 0x10001
               && s.cs[0] == Chunk(0, 0, 5, false) && s.cs[0x10001] == Chunk(0, 0x10005, 0x10006, false)
  {
    hide AnnexB, FuChunks, UnitPackets, Good, Units;
    var u := LongUnit();
    AnnexBOne(u);
    SplitInvertsAnnexB([u]);
    assert Units([SC + u][0]) == [u];
    var s, s0 := Send(H264, [SC + u], 1, 3), Send(H264, [SC + u], 0, 3);
    assert s == AddUnits(s0, [u], 1, 3) == AddUnit(s0, u, true, 3);
    FuChunkAt(0, 0, 4, 3 + |u|, true, 0);
    FuChunkAt(0, 0, 4, 3 + |u|, true, 0x10001);
  }

  /** A concrete run: of this unit, cut into pieces of one byte, only the first fragment and
      the one 65537 packets later arrive; the buffer then is no prefix of what was sent. */
  lemma Shown(seq0: nat, lib: LibAnswer)
    ensures LegalFrames(H264, [SC + LongUnit()])
    ensures var s := Send(H264, [SC + LongUnit()], 1, 3);
            var ds := [Delivery(0, lib), Delivery(0x10001, lib)];
            InRange(s, ds) && Run(s, seq0, RunState(Clean(false), []), ds).st.mb == SC + [0x65, 1, 2]
    ensures !(SC + [0x65, 1, 2] <= SC + LongUnit())
  {
    hide Send, Run, FuChunks;
    LongUnitSent();
    var s := Send(H264, [SC + LongUnit()], 1, 3);
    var ds := [Delivery(0, lib), Delivery(0x10001, lib)];
    assert ds[..1] == [Delivery(0, lib)];
    Spliced(s, seq0, false, ds);
    var au := SC + LongUnit();
    assert au[0..5] + au[0x10005..0x10006] == SC + [0x65, 1, 2];
    assert au[5] == 1 && (SC + [0x65, 1, 2])[5] == 2;
  }

  // ----- short gaps are not enough before the first keyframe -----

  const SLICES: nat := 0xfffc

  /** A unit cut into four fragments, 65532 slices of one byte, another unit of four fragments. */
  function GatedUnits(): seq<seq<byte>> {
    [[0x65, 1, 1, 1, 1]] + seq(SLICES, i => [0x41]) + [[0x65, 2, 2, 2, 2]]
  }

  lemma GatedUnitsLegal()
    ensures |GatedUnits()| == SLICES + 2
    ensures forall i :: 0 <= i < SLICES + 2 ==> Legal(H264, GatedUnits()[i])
    ensures Units(AnnexB(GatedUnits())) == GatedUnits()
  {
    hide Legal, NoCode, AnnexB, Units;
    var us := GatedUnits();
    ThreeUnits();
    forall i | 0 <= i < |us| ensures Legal(H264, us[i]) && NoCode(us[i]) {
    }
    EndUnits();
    assert Splittable(us) by { NoCodeShorter(us[|us| - 1]); }
    SplitInvertsAnnexB(us);
  }

  lemma ThreeUnits()
    ensures Legal(H264, [0x65, 1, 1, 1, 1]) && Legal(H264, [0x41]) && Legal(H264, [0x65, 2, 2, 2, 2])
    ensures NoCode([0x65, 1, 1, 1, 1]) && NoCode([0x41]) && NoCode([0x65, 2, 2, 2, 2])
  {
  }

  lemma NoCodeShorter(u: seq<byte>)
    requires u != [] && NoCode(u)
    ensures NoCode(u[..|u| - 1])
  {
  }

  lemma EndUnits()
    ensures |GatedUnits()| == SLICES + 2
    ensures GatedUnits()[0] == [0x65, 1, 1, 1, 1] && GatedUnits()[SLICES + 1] == [0x65, 2, 2, 2, 2]
  {
  }

  /** The sequence of the chunks after the first unit and k slices. */
  lemma {:induction false} GatedChunks(s: Sent, k: nat)
    requires s == Sent(H264, [], [], []) && k <= SLICES
    requires forall i :: 0 <= i < |GatedUnits()| ==> Legal(H264, GatedUnits()[i])
    ensures var cs := AddUnits(s, GatedUnits(), k + 1, 3).cs;
            && |cs| == 4 + k && cs[0] == Chunk(0, 0, 5, false)
            && forall j :: 4 <= j < 4 + k ==> cs[j] == Chunk(j - 3, 0, 4, false)
  {
    hide UnitPackets, Legal;
    var us := GatedUnits();
    var front := AddUnits(s, us, k, 3);
    assert AddUnits(s, us, k + 1, 3) == AddUnit(front, us[k], false, 3);
    assert |front.us| == k;
    if k == 0 {
      assert front == s && us[0] == [0x65, 1, 1, 1, 1];
      FourChunks(0, false);
    } else {
      GatedChunks(s, k - 1);
      assert us[k] == [0x41];
    }
  }

  lemma FourChunks(n: nat, marker: bool)
    ensures FuChunks(n, 0, 4, 8, 1, marker)
            == [Chunk(n, 0, 5, false), Chunk(n, 5, 6, false), Chunk(n, 6, 7, false), Chunk(n, 7, 8, marker)]
  {
    assert FuChunks(n, 6, 6, 8, 1, marker) == [Chunk(n, 6, 7, false)] + FuChunks(n, 7, 7, 8, 1, marker);
    assert FuChunks(n, 5, 5, 8, 1, marker) == [Chunk(n, 5, 6, false)] + FuChunks(n, 6, 6, 8, 1, marker);
  }

  lemma GatedSent()
    ensures var frame := AnnexB(GatedUnits());
            && LegalFrames(H264, [frame])
            && var s := Send(H264, [frame], 1, 3);
               s.us == GatedUnits() && |s.cs| == SLICES + 8
               && s.cs[0] == Chunk(0, 0, 5, false) && s.cs[0x10001] == Chunk(SLICES + 1, 5, 6, false)
               && forall j :: 4 <= j < 4 + SLICES ==> s.cs[j] == Chunk(j - 3, 0, 4, false)
  {
    hide AnnexB, FuChunks, UnitPackets, Good, Units, Legal, GatedUnits, AddUnits;
    var us, frame := GatedUnits(), AnnexB(GatedUnits());
    GatedUnitsLegal();
    assert Units([frame][0]) == us;
    var s, s0 := Send(H264, [frame], 1, 3), Send(H264, [frame], 0, 3);
    assert s == AddUnits(s0, us, SLICES + 2, 3) && us[..|us|] == us;
    GatedChunks(s0, SLICES);
    LastGated(s0);
  }

  // The last unit behind the others.
  lemma LastGated(s: Sent)
    requires s == Sent(H264, [], [], []) && |GatedUnits()| == SLICES + 2
    requires forall i :: 0 <= i < |GatedUnits()| ==> Legal(H264, GatedUnits()[i])
    ensures AddUnits(s, GatedUnits(), SLICES + 2, 3).cs
            == AddUnits(s, GatedUnits(), SLICES + 1, 3).cs
               + [Chunk(SLICES + 1, 0, 5, false), Chunk(SLICES + 1, 5, 6, false),
                  Chunk(SLICES + 1, 6, 7, false), Chunk(SLICES + 1, 7, 8, true)]
  {
    hide FuChunks, UnitPackets, Legal, GatedUnits;
    var us := GatedUnits();
    var front := AddUnits(s, us, SLICES + 1, 3);
    assert AddUnits(s, us, SLICES + 2, 3) == AddUnit(front, us[SLICES + 1], true, 3) && |front.us| == SLICES + 1;
    EndUnits();
    FourChunks(SLICES + 1, true);
  }

  /** The arrivals: of the first unit only the first fragment, every slice, and of the other
      unit only the second fragment. */
  function GatedArrivals(lib: LibAnswer): seq<Delivery> {
    [Delivery(0, lib)] + seq(SLICES, i requires 0 <= i => Delivery(4 + i, lib)) + [Delivery(0x10001, lib)]
  }

  lemma GatedArrivalsAre(lib: LibAnswer)
    ensures var ds := GatedArrivals(lib);
            && |ds| == SLICES + 2 && ds[0].idx == 0 && ds[SLICES + 1].idx == 0x10001
            && (forall k :: 0 < k <= SLICES ==> ds[k].idx == 3 + k)
            && forall k :: 0 < k < |ds| ==> ds[k - 1].idx < ds[k].idx <= ds[k - 1].idx + 4
  {
  }

  lemma NoUnitBegins()
    ensures forall i :: 0 <= i < |GatedUnits()| ==> !([0x65, 1, 2] <= GatedUnits()[i])
  {
    forall i | 0 <= i < |GatedUnits()| ensures !([0x65, 1, 2] <= GatedUnits()[i]) {
      var u := GatedUnits()[i];
      assert i == 0 ==> u[2] == 1;
      assert i == SLICES + 1 ==> u[1] == 2;
    }
  }

  lemma GatedHeld(s: Sent, lib: LibAnswer)
    requires s.codec == H264 && s.us == GatedUnits() && |s.ps| == |s.cs| == SLICES + 8
    requires s.cs[0] == Chunk(0, 0, 5, false)
    requires forall j :: 4 <= j < 4 + SLICES ==> s.cs[j] == Chunk(j - 3, 0, 4, false)
    ensures InRange(s, GatedArrivals(lib)) && OnlyHeldAfter(s, false, GatedArrivals(lib)[..SLICES + 1])
  {
    GatedArrivalsAre(lib);
    hide GatedArrivals;
    var ds := GatedArrivals(lib);
    forall k | 0 < k < SLICES + 1 ensures HeldSlice(s, ds[k].idx, false) {
      assert s.cs[ds[k].idx] == Chunk(k, 0, 4, false) && GatedUnits()[k] == [0x41];
    }
  }

  /** A concrete run into a new H.264 decoder with no more than three packets lost in a row: the
      slices are held back and leave the first fragment open, and a fragment of another unit
      is put behind it. The buffer is no beginning of any unit sent. */
  lemma GatedShown(seq0: nat, lib: LibAnswer)
    ensures LegalFrames(H264, [AnnexB(GatedUnits())])
    ensures var s, ds := Send(H264, [AnnexB(GatedUnits())], 1, 3), GatedArrivals(lib);
            && InRange(s, ds)
            && (forall k :: 0 < k < |ds| ==> ds[k - 1].idx < ds[k].idx <= ds[k - 1].idx + 4)
            && Run(s, seq0, RunState(Clean(false), []), ds).st.mb == SC + [0x65, 1, 2]
    ensures forall i :: 0 <= i < |GatedUnits()| ==> !([0x65, 1, 2] <= GatedUnits()[i])
  {
    hide Send, Run, FuChunks, AnnexB, GatedUnits, GatedArrivals, OnlyHeldAfter;
    GatedSent();
    GatedArrivalsAre(lib);
    NoUnitBegins();
    var s, ds := Send(H264, [AnnexB(GatedUnits())], 1, 3), GatedArrivals(lib);
    SameLengths(s);
    GatedHeld(s, lib);
    Spliced(s, seq0, false, ds);
    EndUnits();
    assert (SC + [0x65, 1, 1, 1, 1])[0..5] + (SC + [0x65, 2, 2, 2, 2])[5..6] == SC + [0x65, 1, 2];
  }
}
