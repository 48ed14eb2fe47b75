// RTP timestamps: 32 bits on the wire, extended to 64 by counting wraps.
module Timestamp {
  const W32: int := 0x1_0000_0000
  const W64: int := 0x1_0000_0000_0000_0000
  const HALF: int := 0x8000_0000

  /** Conversion to a signed 32-bit integer, two's complement. */
  function Int32(x: int): (r: int)
    ensures -HALF <= r < HALF && (r - x) % W32 == 0
  {
    var m := x % W32;
    if m < HALF then m else m - W32
  }

  /** timestamp_wrap: -1 backwards, 0 none, 1 forward. */
  function Wrap(tsNew: nat, tsOld: nat): int {
    if tsNew < tsOld then
      if Int32(Int32(tsNew) - Int32(tsOld)) > 0 then 1 else 0
    else if Int32(tsOld - tsNew) > 0 then -1
    else 0
  }

  function Epoch(t: nat): nat {
    t / W32
  }

  /** The condition under which one comparison of two 32-bit timestamps can be trusted. */
  predicate Comparable(from: nat, to: nat) {
    var d := to - from;
    if Epoch(to) == Epoch(from) then -HALF <= d <= HALF
    else -HALF < d < HALF
  }

  /** The wrap reported for two true 64-bit timestamps is the difference of their epochs
      exactly when they are comparable: less than 2^31 apart, or within one epoch and at
      most 2^31 apart. */
  lemma WrapExact(from: nat, to: nat)
    ensures Wrap(to % W32, from % W32) == Epoch(to) - Epoch(from) <==> Comparable(from, to)
  {
    var o, n := from % W32, to % W32;
    WrapIs(n, o);
    assert to - from == (Epoch(to) - Epoch(from)) * W32 + n - o;
  }

  // The comparison without the detour through signed arithmetic.
  lemma WrapIs(n: nat, o: nat)
    requires n < W32 && o < W32
    ensures Wrap(n, o) == if o - n > HALF then 1 else if n - o > HALF then -1 else 0
  {
    Int32Difference(n, o);
    Int32Sign(n - o);
    Int32Sign(o - n);
    hide Int32;
  }

  // When a difference of two 32-bit numbers reads as positive.
  lemma Int32Sign(x: int)
    requires -W32 < x < W32
    ensures Int32(x) > 0 <==> 0 < x < HALF || x < -HALF
  {
  }

  // Wrapping the operands first does not change a wrapped difference.
  lemma Int32Difference(a: int, b: int)
    ensures Int32(Int32(a) - Int32(b)) == Int32(a - b)
  {
    Congruent(Int32(a), a, Int32(b), b);
  }

  lemma Congruent(x: int, a: int, y: int, b: int)
    requires (x - a) % W32 == 0 && (y - b) % W32 == 0
    ensures (x - y) % W32 == (a - b) % W32
  {
    var k, l := (x - a) / W32, (y - b) / W32;
    assert x - y == a - b + (k - l) * W32;
  }

  /** `struct timestamp_recv`. */
  datatype Recv = Recv(first: nat, last: nat, isSet: bool, numWraps: nat)

  const NO_PACKETS := Recv(0, 0, false, 0)

  /** update_rtp_timestamp on values; the wrap counter has 32 bits. */
  function Update(r: Recv, ts: nat): Recv {
    if !r.isSet then Recv(ts, ts, true, r.numWraps)
    else
      var w := Wrap(ts, r.last);
      if w == -1 then r
      else Recv(r.first, ts, true, if w == 1 then (r.numWraps + 1) % W32 else r.numWraps)
  }

  class TimestampRecv {
    var first: nat
    var last: nat
    var isSet: bool
    var numWraps: nat

    ghost function Value(): Recv
      reads this
    {
      Recv(first, last, isSet, numWraps)
    }

    constructor ()
      ensures Value() == NO_PACKETS
    {
      first, last, isSet, numWraps := 0, 0, false, 0;
    }

    /** timestamp_set. */
    method Set(ts: nat)
      modifies this
      ensures Value() == Recv(ts, ts, true, old(numWraps))
    {
      first := ts;
      last := ts;
      isSet := true;
    }

    /** update_rtp_timestamp. */
    method UpdateRtp(ts: nat)
      modifies this
      ensures Value() == Update(old(Value()), ts)
    {
      if isSet {
        var wrap := Wrap(ts, last);
        if wrap == -1 {
          return;
        } else if wrap == 1 {
          numWraps := (numWraps + 1) % W32;
        }
      } else {
        Set(ts);
      }
      last := ts;
    }
  }

  /** timestamp_calc_extended. */
  function Extended(numWraps: nat, ts: nat): int {
    (numWraps * W32 + ts) % W64
  }

  /** timestamp_duration, in 64-bit unsigned arithmetic. */
  function Duration(r: Recv): int {
    if !r.isSet then 0 else (Extended(r.numWraps, r.last) - r.first) % W64
  }

  // ----- whole runs -----

  /** The receiver after packets whose true 64-bit timestamps are ts. */
  function Run(ts: seq<nat>): Recv {
    if ts == [] then NO_PACKETS else Update(Run(ts[..|ts| - 1]), ts[|ts| - 1] % W32)
  }

  /** The true timestamp the receiver should be at: the newest packet, unless it belongs to
      an earlier epoch than the one before, in which case it is discarded. */
  function Accepted(ts: seq<nat>): nat
    requires ts != []
  {
    var t := ts[|ts| - 1];
    if |ts| == 1 then t
    else
      var a := Accepted(ts[..|ts| - 1]);
      if Epoch(t) < Epoch(a) then a else t
  }

  /** Every packet is comparable with the last one accepted before it. */
  predicate Trackable(ts: seq<nat>) {
    |ts| >= 2 ==>
      Trackable(ts[..|ts| - 1]) && Comparable(Accepted(ts[..|ts| - 1]), ts[|ts| - 1])
  }

  /** Over any trackable run the 64-bit extension is the true timestamp of the last accepted
      packet counted from the first packet's epoch, and the duration is the true distance to
      the first packet. */
  lemma {:induction false} Tracks(ts: seq<nat>)
    requires ts != [] && Trackable(ts)
    ensures var r := Run(ts);
            var a := Accepted(ts);
            && Epoch(a) >= Epoch(ts[0])
            && r == Recv(ts[0] % W32, a % W32, true, (Epoch(a) - Epoch(ts[0])) % W32)
            && Extended(r.numWraps, r.last) == (a - Epoch(ts[0]) * W32) % W64
            && Duration(r) == (a - ts[0]) % W64
  {
    hide Wrap, Int32, Update, Extended, Epoch, Comparable;
    var n := |ts| - 1;
    if n > 0 {
      Tracks(ts[..n]);
      UpdateTracks(Run(ts[..n]), Accepted(ts[..n]), ts[n], Epoch(ts[0]));
    } else {
      FirstUpdate(ts[0]);
      assert ts[..0] == [];
    }
    ExtendedIs(Accepted(ts), Epoch(ts[0]), ts[0]);
  }

  /** Before the first packet nothing has passed. */
  lemma NothingYet()
    ensures Run([]) == Recv(0, 0, false, 0) && Duration(Run([])) == 0
  {
  }

  /** One packet: the wrap count follows the epoch of the accepted timestamp. */
  lemma UpdateTracks(r: Recv, a: nat, t: nat, e: nat)
    requires Comparable(a, t) && e <= Epoch(a)
    requires r.isSet && r.last == a % W32 && r.numWraps == (Epoch(a) - e) % W32
    ensures var a' := if Epoch(t) < Epoch(a) then a else t;
            Epoch(a') >= Epoch(a) &&
            Update(r, t % W32) == Recv(r.first, a' % W32, true, (Epoch(a') - e) % W32)
  {
    hide Wrap;
    WrapExact(a, t);
    ComparableEpochs(a, t);
    WrapCount(Epoch(a) - e);
  }

  lemma FirstUpdate(t: nat)
    ensures Update(NO_PACKETS, t % W32) == Recv(t % W32, t % W32, true, 0)
  {
  }

  lemma ComparableEpochs(a: nat, t: nat)
    requires Comparable(a, t)
    ensures -1 <= Epoch(t) - Epoch(a) <= 1
  {
  }

  lemma WrapCount(n: int)
    ensures (n % W32 + 1) % W32 == (n + 1) % W32
  {
  }

  lemma ExtendedIs(a: nat, e: nat, t0: nat)
    requires e == Epoch(t0) <= Epoch(a)
    ensures Extended((Epoch(a) - e) % W32, a % W32) == (a - e * W32) % W64
    ensures (Extended((Epoch(a) - e) % W32, a % W32) - t0 % W32) % W64 == (a - t0) % W64
  {
    var k := Epoch(a) - e;
    assert a - e * W32 == k * W32 + a % W32;
    assert k == k / W32 * W32 + k % W32;
    assert a - e * W32 == k / W32 * W64 + (k % W32 * W32 + a % W32);
    ModShift(k % W32 * W32 + a % W32, k / W32);
    var x := a - e * W32;
    assert a - t0 == x - t0 % W32;
    assert x == x / W64 * W64 + x % W64;
    ModShift(x % W64 - t0 % W32, x / W64);
  }

  lemma ModShift(x: int, k: int)
    ensures (k * W64 + x) % W64 == x % W64
  {
  }

  /** Comparable cannot be dropped: one packet 2^31 ticks on, across an epoch, is not seen to
      wrap and the extension falls behind by 2^32. */
  lemma TooFarApart()
    ensures Run([HALF + 1, W32 + 1]) == Recv(HALF + 1, 1, true, 0)
    ensures Accepted([HALF + 1, W32 + 1]) == W32 + 1
  {
    var ts: seq<nat> := [HALF + 1, W32 + 1];
    assert ts[..1] == [HALF + 1] && ts[..1][..0] == [];
    assert Accepted(ts[..1]) == HALF + 1;
    WrapIs(1, HALF + 1);
    assert Run(ts[..1]) == Recv(HALF + 1, HALF + 1, true, 0);
  }
}
