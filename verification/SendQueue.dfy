// The paced video send queue: an encoder that fills it frame by frame and a timer that
// drains it, each under the queue's lock.
module SendQueue {
  import opened Bytes

  const BURST_MAX: nat := 8192
  const W64: int := 0x1_0000_0000_0000_0000

  /** `struct vidqent`, with the size of its buffer. */
  datatype Qent = Qent(marker: bool, pt: nat, ts: nat, size: nat)

  function Size(q: seq<Qent>): nat {
    if q == [] then 0 else Size(q[..|q| - 1]) + q[|q| - 1].size
  }

  /** The bytes one poll may start to send: unsigned 64-bit arithmetic, then the cap. */
  function Burst(jfs: nat, prevJfs: nat, bitrate: nat): (b: nat)
    ensures b <= BURST_MAX
  {
    var burst := (1 + jfs - prevJfs) % W64 * (bitrate / 1000) % W64 / 4;
    if burst < BURST_MAX then burst else BURST_MAX
  }

  /** Milliseconds times kilobits per second, over four, is what may be sent, up to the cap. The
      64-bit products wrap as the product of the integers does. */
  lemma BurstMeans(jfs: nat, prevJfs: nat, bitrate: nat, bytes: nat)
    ensures bytes <= Burst(jfs, prevJfs, bitrate)
            <==> 4 * bytes <= (1 + jfs - prevJfs) * (bitrate / 1000) % W64 && bytes <= 8192
  {
    WrapsOnce(1 + jfs - prevJfs, bitrate / 1000);
  }

  lemma WrapsOnce(a: int, b: int)
    ensures a % W64 * b % W64 == a * b % W64
  {
    var q := a / W64;
    assert a * b == (q * W64 + a % W64) * b == q * b * W64 + a % W64 * b;
    Wraps(a % W64 * b, q * b);
  }

  lemma Wraps(x: int, k: int)
    ensures (k * W64 + x) % W64 == x % W64
  {
  }

  /** What a poll with this burst may take off the queue: at least one packet, no packet
      after the burst is exceeded, and no stop before. */
  predicate PollTakes(q: seq<Qent>, burst: nat, n: nat) {
    && n <= |q|
    && (q != [] ==> n > 0 && Size(q[..n - 1]) <= burst)
    && (n < |q| ==> Size(q[..n]) > burst)
  }

  /** PollTakes leaves no choice. */
  lemma PollDetermined(q: seq<Qent>, burst: nat, m: nat, n: nat)
    requires PollTakes(q, burst, m) && PollTakes(q, burst, n)
    ensures m == n
  {
    if m < n {
      SizeMonotone(q, m, n - 1);
    } else if n < m {
      SizeMonotone(q, n, m - 1);
    }
  }

  lemma {:induction false} SizeMonotone(q: seq<Qent>, i: nat, j: nat)
    requires i <= j <= |q|
    ensures Size(q[..i]) <= Size(q[..j])
  {
    if i == j {
    } else {
      assert q[..j][..j - 1] == q[..j - 1];
      SizeMonotone(q, i, j - 1);
    }
  }

  /** The transmit side of `struct vtx`; what stream_send is given is recorded. */
  class Vtx {
    var sendq: seq<Qent>
    var sent: seq<Qent>
    var skipc: nat
    var tsBase: nat
    var tsLast: nat
    const tsOffset: nat

    constructor (offset: nat)
      ensures sendq == [] && sent == [] && skipc == 0 && tsOffset == offset && tsBase == 0 && tsLast == 0
    {
      sendq, sent, skipc, tsBase, tsLast := [], [], 0, 0, 0;
      tsOffset := offset;
    }

    /** The state seen from outside, when the encoder still has `pending` to hand over of the
        last of the frames it accepted. */
    ghost function Value(pending: seq<Qent>, frames: seq<seq<Qent>>): State
      reads this
    {
      State(sendq, sent, pending, frames, skipc)
    }

    /** packet_handler: 32-bit timestamp with the random offset, appended to the queue. */
    method PacketHandler(marker: bool, ts: nat, pt: nat, hdrLen: nat, pldLen: nat)
      modifies this`sendq, this`tsBase, this`tsLast
      ensures var q := Qent(marker, pt, (tsOffset + ts) % 0x1_0000_0000, hdrLen + pldLen);
              forall rest, frames :: Value(rest, frames) == Step(old(Value([q] + rest, frames)), Emit)
      ensures sendq == old(sendq) + [Qent(marker, pt, (tsOffset + ts) % 0x1_0000_0000, hdrLen + pldLen)]
      ensures tsLast == ts && tsBase == if old(tsBase) == 0 then ts else old(tsBase)
    {
      if tsBase == 0 {
        tsBase := ts;
      }
      tsLast := ts;
      var rtpTs := (tsOffset + ts % 0x1_0000_0000) % 0x1_0000_0000;
      var qent := Qent(marker, pt, rtpTs, hdrLen + pldLen);
      sendq := sendq + [qent];
      assert forall rest :: ([qent] + rest)[1..] == rest;
    }

    /** The test at the head of encode_rtp_send, for a frame that would encode to `pkts`. */
    method MayEncode(ghost pkts: seq<Qent>) returns (yes: bool)
      modifies this`skipc
      ensures yes <==> sendq == []
      ensures forall frames :: Value(if yes then pkts else [], if yes then frames + [pkts] else frames)
                               == Step(old(Value([], frames)), Frame(pkts))
      ensures skipc == old(skipc) + if yes then 0 else 1
    {
      yes := sendq == [];
      if !yes {
        skipc := skipc + 1;
      }
    }

    /** vidqueue_poll: n packets go out. Nothing more is sent once what was sent exceeds the time
        since the last poll at the configured rate, or 8192 bytes; and nothing less. */
    method VidqueuePoll(jfs: nat, prevJfs: nat, bitrate: nat) returns (ghost n: nat)
      modifies this`sendq, this`sent
      ensures PollTakes(old(sendq), Burst(jfs, prevJfs, bitrate), n)
      ensures sendq == old(sendq)[n..] && sent == old(sent) + old(sendq)[..n]
      ensures var x := (1 + jfs - prevJfs) * (bitrate / 1000) % W64;
              && (old(sendq) != [] ==>
                    n > 0 && 4 * Size(old(sendq)[..n - 1]) <= x && Size(old(sendq)[..n - 1]) <= 8192)
              && (n < |old(sendq)| ==> 4 * Size(old(sendq)[..n]) > x || Size(old(sendq)[..n]) > 8192)
      ensures forall pending, frames ::
                Value(pending, frames) == Step(old(Value(pending, frames)), Poll(Burst(jfs, prevJfs, bitrate), n))
    {
      n := 0;
      ghost var q, log := sendq, sent;
      var burst := Burst(jfs, prevJfs, bitrate);
      if sendq == [] {
        assert PollTakes(q, burst, 0) && q[0..] == q && log + q[..0] == log;
        return;
      }
      var bytes := 0;
      while sendq != []
        invariant n <= |q| && sendq == q[n..] && sent == log + q[..n]
        invariant bytes == Size(q[..n]) <= burst
        decreases |sendq|
      {
        var qent := sendq[0];
        bytes := bytes + qent.size;
        sent := sent + [qent];
        sendq := sendq[1..];
        n := n + 1;
        assert q[..n][..n - 1] == q[..n - 1] && q[..n][n - 1] == qent;
        assert log + q[..n - 1] + [qent] == log + q[..n];
        if bytes > burst {
          break;
        }
      }
      if n == |q| { assert q[..n] == q; }
      assert PollTakes(q, burst, n);
      BurstMeans(jfs, prevJfs, bitrate, Size(q[..n - 1]));
      BurstMeans(jfs, prevJfs, bitrate, Size(q[..n]));
    }
  }

  // ----- all interleavings of one encoder and the timer -----

  /** `pending` are the packets the encoder has yet to hand over for the current frame. */
  datatype State = State(queue: seq<Qent>, sent: seq<Qent>, pending: seq<Qent>, frames: seq<seq<Qent>>, skipc: nat)

  /** Frame: the source offers a frame that encodes to these packets. Emit: the encoder hands
      one packet over. Poll: the timer takes n packets. */
  datatype Event = Frame(pkts: seq<Qent>) | Emit | Poll(burst: nat, n: nat)

  predicate Enabled(s: State, e: Event) {
    match e
    case Frame(_) => s.pending == []
    case Emit => s.pending != []
    case Poll(burst, n) => PollTakes(s.queue, burst, n)
  }

  function Step(s: State, e: Event): State
    requires Enabled(s, e)
  {
    match e
    case Frame(pkts) =>
      if s.queue != [] then s.(skipc := s.skipc + 1) else s.(pending := pkts, frames := s.frames + [pkts])
    case Emit => s.(queue := s.queue + [s.pending[0]], pending := s.pending[1..])
    case Poll(_, n) => s.(queue := s.queue[n..], sent := s.sent + s.queue[..n])
  }

  const IDLE := State([], [], [], [], 0)

  /** The state after these events, unless one of them could not happen. */
  function After(es: seq<Event>): Option<State> {
    if es == [] then Some(IDLE)
    else
      match After(es[..|es| - 1])
      case None => None
      case Some(p) => if Enabled(p, es[|es| - 1]) then Some(Step(p, es[|es| - 1])) else None
  }

  function Joined(frames: seq<seq<Qent>>): seq<Qent> {
    if frames == [] then [] else Joined(frames[..|frames| - 1]) + frames[|frames| - 1]
  }

  /** In every reachable state, however the timer and the encoder interleave: the packets
      sent, then those queued, then those still to come are the packets of the accepted
      frames in order; everything not yet sent belongs to the last accepted frame; and
      every frame offered was either accepted or counted as skipped. */
  lemma {:induction false} FramesInOrder(es: seq<Event>, s: State)
    requires After(es) == Some(s)
    ensures s.sent + s.queue + s.pending == Joined(s.frames)
    ensures s.frames != [] ==>
              var last := s.frames[|s.frames| - 1];
              Joined(s.frames[..|s.frames| - 1]) <= s.sent
              && |s.queue + s.pending| <= |last|
              && s.queue + s.pending == last[|last| - |s.queue + s.pending|..]
    ensures |s.frames| + s.skipc == Offered(es)
  {
    hide Joined, Step, Enabled;
    if es == [] {
      NothingOrdered();
    } else {
      var e := es[|es| - 1];
      var p := After(es[..|es| - 1]).value;
      FramesInOrder(es[..|es| - 1], p);
      assert Ordered(p);
      KeepsOrder(p, e);
    }
    assert Ordered(s);
    if s.frames != [] {
      SuffixOfLast(s);
    }
  }

  lemma NothingOrdered()
    ensures Ordered(IDLE)
  {
  }

  function Offered(es: seq<Event>): nat {
    if es == [] then 0 else Offered(es[..|es| - 1]) + if es[|es| - 1].Frame? then 1 else 0
  }

  /** Sent, then queued, then pending packets are those of the accepted frames in order, and
      all of the frames before the last are sent. */
  predicate Ordered(s: State) {
    && s.sent + s.queue + s.pending == Joined(s.frames)
    && (s.frames != [] ==> Joined(s.frames[..|s.frames| - 1]) <= s.sent)
  }

  lemma KeepsOrder(p: State, e: Event)
    requires Enabled(p, e) && Ordered(p)
    ensures Ordered(Step(p, e))
    ensures |Step(p, e).frames| + Step(p, e).skipc == |p.frames| + p.skipc + if e.Frame? then 1 else 0
  {
    hide Joined, Size;
    match e
    case Frame(pkts) =>
      if p.queue == [] { FrameKeepsOrder(p, pkts); }
    case Emit =>
      Moved(p.sent, p.queue, p.pending, 1);
    case Poll(_, n) =>
      PollKeepsOrder(p, n);
  }

  lemma FrameKeepsOrder(p: State, pkts: seq<Qent>)
    requires p.queue == [] == p.pending && Ordered(p)
    ensures Ordered(p.(pending := pkts, frames := p.frames + [pkts]))
  {
    assert (p.frames + [pkts])[..|p.frames|] == p.frames;
    assert p.sent + [] + [] == p.sent;
  }

  lemma Moved<T>(a: seq<T>, b: seq<T>, c: seq<T>, n: nat)
    requires n <= |c|
    ensures a + (b + c[..n]) + c[n..] == a + b + c
    ensures n == 1 ==> c[..n] == [c[0]]
  {
    assert c == c[..n] + c[n..];
  }

  lemma PollKeepsOrder(p: State, n: nat)
    requires Ordered(p) && n <= |p.queue|
    ensures Ordered(p.(queue := p.queue[n..], sent := p.sent + p.queue[..n]))
  {
    assert p.queue == p.queue[..n] + p.queue[n..];
    Assoc(p.sent, p.queue[..n], p.queue[n..]);
  }

  lemma SuffixOfLast(s: State)
    requires s.frames != [] && s.sent + s.queue + s.pending == Joined(s.frames)
    requires Joined(s.frames[..|s.frames| - 1]) <= s.sent
    ensures var last := s.frames[|s.frames| - 1];
            |s.queue + s.pending| <= |last| && s.queue + s.pending == last[|last| - |s.queue + s.pending|..]
  {
    var head, last := Joined(s.frames[..|s.frames| - 1]), s.frames[|s.frames| - 1];
    var rest := s.queue + s.pending;
    assert s.sent + rest == head + last;
    assert (s.sent + rest)[|s.sent|..] == rest;
    assert (head + last)[|s.sent|..] == last[|s.sent| - |head|..];
  }

  // ----- pacing -----

  function Sum(xs: seq<nat>): nat {
    if xs == [] then 0 else Sum(xs[..|xs| - 1]) + xs[|xs| - 1]
  }

  /** Each burst and one packet more. */
  function Allowance(bursts: seq<nat>, max: nat): nat {
    if bursts == [] then 0 else Allowance(bursts[..|bursts| - 1], max) + bursts[|bursts| - 1] + max
  }

  /** The timer alone, with these bursts: ns[i] is what poll i takes off what is left. */
  predicate Polls(q: seq<Qent>, bursts: seq<nat>, ns: seq<nat>)
    requires |bursts| == |ns|
  {
    ns != [] ==>
      var m := |ns| - 1;
      Polls(q, bursts[..m], ns[..m]) && Sum(ns[..m]) <= |q| && PollTakes(q[Sum(ns[..m])..], bursts[m], ns[m])
  }

  lemma {:induction false} SizeConcat(a: seq<Qent>, b: seq<Qent>)
    ensures Size(a + b) == Size(a) + Size(b)
    decreases |b|
  {
    if b == [] {
      assert a + b == a;
    } else {
      assert (a + b)[..|a + b| - 1] == a + b[..|b| - 1];
      SizeConcat(a, b[..|b| - 1]);
    }
  }

  predicate PacketsUpTo(q: seq<Qent>, max: nat) {
    forall i :: 0 <= i < |q| ==> q[i].size <= max
  }

  // One poll takes at most its burst plus one packet.
  lemma PollBytes(q: seq<Qent>, burst: nat, n: nat, max: nat)
    requires PollTakes(q, burst, n) && PacketsUpTo(q, max)
    ensures n <= |q| && Size(q[..n]) <= if n > 0 then burst + max else 0
  {
    if n > 0 {
      assert q[..n][..n - 1] == q[..n - 1];
    }
  }

  lemma OnePollMore(q: seq<Qent>, n: nat, burst: nat, k: nat, max: nat)
    requires n <= |q| && PollTakes(q[n..], burst, k) && PacketsUpTo(q, max)
    ensures n + k <= |q| && (n < |q| ==> k > 0)
    ensures Size(q[..n + k]) <= Size(q[..n]) + burst + max
  {
    PollBytes(q[n..], burst, k, max);
    assert q[..n + k] == q[..n] + q[n..][..k];
    SizeConcat(q[..n], q[n..][..k]);
  }

  /** Pacing over a run of polls: a queue whose packets are at most `max` bytes sends at most
      the sum of the bursts plus one packet for each poll, and as many polls as packets
      always drain it. */
  lemma {:induction false} Paced(q: seq<Qent>, bursts: seq<nat>, ns: seq<nat>, max: nat)
    requires |bursts| == |ns| && Polls(q, bursts, ns) && PacketsUpTo(q, max)
    ensures Sum(ns) <= |q|
    ensures Size(q[..Sum(ns)]) <= Allowance(bursts, max)
    ensures Sum(ns) >= if |ns| < |q| then |ns| else |q|
  {
    if ns == [] {
      assert q[..0] == [];
    } else {
      hide Size, PacketsUpTo, PollTakes;
      var m := |ns| - 1;
      Paced(q, bursts[..m], ns[..m], max);
      OnePollMore(q, Sum(ns[..m]), bursts[m], ns[m], max);
    }
  }

  /** What the polls among these events may send: each its burst and one packet more. */
  function PollAllowance(es: seq<Event>, max: nat): nat {
    if es == [] then 0
    else
      PollAllowance(es[..|es| - 1], max)
      + match es[|es| - 1] { case Poll(burst, n) => (if n > 0 then burst + max else 0) case _ => 0 }
  }

  predicate OffersUpTo(es: seq<Event>, max: nat) {
    forall k :: 0 <= k < |es| && es[k].Frame? ==> PacketsUpTo(es[k].pkts, max)
  }

  lemma StepUpTo(p: State, e: Event, max: nat)
    requires Enabled(p, e) && PacketsUpTo(p.queue, max) && PacketsUpTo(p.pending, max)
    requires e.Frame? ==> PacketsUpTo(e.pkts, max)
    ensures PacketsUpTo(Step(p, e).queue, max) && PacketsUpTo(Step(p, e).pending, max)
  {
  }

  /** Pacing in every reachable state, frames arriving between and during the polls: when no
      packet offered is larger than `max`, the bytes sent are at most the bursts of the polls
      that found a packet, and one packet for each of them. */
  lemma {:induction false} PacedAlways(es: seq<Event>, s: State, max: nat)
    requires After(es) == Some(s) && OffersUpTo(es, max)
    ensures Size(s.sent) <= PollAllowance(es, max)
    ensures PacketsUpTo(s.queue, max) && PacketsUpTo(s.pending, max)
  {
    hide Size, PollTakes, PacketsUpTo;
    if es == [] {
      NothingSent(max);
    } else {
      var e := es[|es| - 1];
      var p := After(es[..|es| - 1]).value;
      PacedAlways(es[..|es| - 1], p, max);
      StepUpTo(p, e, max);
      match e
      case Poll(burst, n) =>
        PollBytes(p.queue, burst, n, max);
        SizeConcat(p.sent, p.queue[..n]);
      case _ =>
    }
  }

  lemma NothingSent(max: nat)
    ensures Size([]) == 0 && PacketsUpTo([], max)
  {
  }
}
