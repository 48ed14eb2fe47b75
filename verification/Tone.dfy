// The tone player: a PCM buffer played a number of times with a pause between copies.
module Tone {
  import opened Bytes

  const W64: int := 0x1_0000_0000_0000_0000

  /** The fields of `struct play` that the audio callback uses. `trep` is the time of the next
      copy, or 0 when a copy is playing. */
  datatype Play = Play(tone: seq<byte>, pos: nat, repeat: int, delay: nat, trep: nat, eof: bool)

  /** play_tone: a repeat count of 0 means once; no delay. */
  function Start(tone: seq<byte>, repeat: int, delay: nat): Play {
    Play(tone, 0, if repeat != 0 then repeat else 1, delay, 0, false)
  }

  /** check_restart: true when the next copy may start. */
  function Check(p: Play, now: nat): (Play, bool) {
    if p.trep != 0 then
      if p.trep > now then (p, false) else (p.(trep := 0), true)
    else
      var r := if p.repeat > 0 then p.repeat - 1 else p.repeat;
      if r == 0 then (p.(repeat := r, eof := true), false)
      else (p.(repeat := r, trep := (now + p.delay) % W64), false)
  }

  /** Copies as much of what is left as is wanted. */
  function Copy(p: Play, want: nat): (Play, seq<byte>)
    requires p.pos <= |p.tone|
  {
    var count := if |p.tone| - p.pos > want then want else |p.tone| - p.pos;
    (p.(pos := p.pos + count), p.tone[p.pos..p.pos + count])
  }

  /** One callback that wants sz bytes: what it leaves, and the bytes copied. The clock is
      read at most twice, at `now` and at `later`. */
  function Callback(p: Play, sz: nat, now: nat, later: nat): (Play, seq<byte>)
    requires p.pos <= |p.tone|
  {
    if p.eof then (p, [])
    else
      var (p1, w1) := Copy(p, sz);
      if |w1| >= sz then (p1, w1)
      else
        var (p2, again) := Check(p1, now);
        if !again then (p2, w1)
        else
          var (p3, w2) := Copy(p2.(pos := 0), sz - |w1|);
          if |w1| + |w2| >= sz then (p3, w1 + w2) else (Check(p3, later).0, w1 + w2)
  }

  /** How many restart times a check at this time computes that are 0, which reads as "a copy
      is playing". */
  function ZeroTimes(p: Play, now: nat): (z: nat)
    ensures z <= 1
  {
    if p.trep == 0 && !Check(p, now).0.eof && (now + p.delay) % W64 == 0 then 1 else 0
  }

  /** The same over one callback. */
  function CallbackZeros(p: Play, sz: nat, now: nat, later: nat): nat
    requires p.pos <= |p.tone|
  {
    if p.eof then 0
    else
      var (p1, w1) := Copy(p, sz);
      if |w1| >= sz then 0
      else
        var (p2, again) := Check(p1, now);
        if !again then ZeroTimes(p1, now)
        else
          var (p3, w2) := Copy(p2.(pos := 0), sz - |w1|);
          if |w1| + |w2| >= sz then 0 else ZeroTimes(p3, later)
  }

  class Player {
    const tone: seq<byte>
    const delay: nat
    var pos: nat
    var repeat: int
    var trep: nat
    var eof: bool

    ghost predicate Valid()
      reads this
    {
      pos <= |tone|
    }

    ghost function Value(): Play
      reads this
    {
      Play(tone, pos, repeat, delay, trep, eof)
    }

    constructor (pcm: seq<byte>, times: int, pause: nat)
      ensures Valid() && Value() == Start(pcm, times, pause)
    {
      tone, delay := pcm, pause;
      pos, repeat, trep, eof := 0, if times != 0 then times else 1, 0, false;
    }

    method CheckRestart(now: nat) returns (again: bool)
      requires Valid()
      modifies this`repeat, this`trep, this`eof
      ensures again ==> old(trep) != 0 && trep == 0 && eof == old(eof)
      ensures Valid() && (Value(), again) == Check(old(Value()), now)
    {
      if trep != 0 {
        if trep > now {
          return false;
        }
        trep := 0;
        return true;
      }
      if repeat > 0 {
        repeat := repeat - 1;
      }
      if repeat == 0 {
        eof := true;
      } else {
        trep := (now + delay) % W64;
      }
      again := false;
    }

    /** mbuf_read_mem of as much as there is and is wanted. */
    method Read(samples: array<byte>, at: nat) returns (count: nat)
      requires Valid() && at <= samples.Length
      modifies this`pos, samples
      ensures Valid() && at + count <= samples.Length
      ensures (Value(), samples[at..at + count]) == Copy(old(Value()), samples.Length - at)
      ensures samples[..at] == old(samples[..at])
      ensures forall i :: at + count <= i < samples.Length ==> samples[i] == old(samples[i])
    {
      var left := |tone| - pos;
      count := if left > samples.Length - at then samples.Length - at else left;
      forall k | 0 <= k < count {
        samples[at + k] := tone[pos + k];
      }
      assert samples[at..at + count] == tone[pos..pos + count];
      pos := pos + count;
    }

    /** write_handler. The loop ends because a copy is started at most once. Only at the end
        of the last copy is the rest of the buffer silenced; during a pause it keeps
        whatever was in it. */
    method WriteHandler(samples: array<byte>, now: nat, later: nat)
      requires Valid()
      modifies this`pos, this`repeat, this`trep, this`eof, samples
      ensures Valid()
      ensures var (p, w) := Callback(old(Value()), samples.Length, now, later);
              && Value() == p
              && |w| <= samples.Length && samples[..|w|] == w
              && forall i :: |w| <= i < samples.Length ==> samples[i] == if p.eof then 0 else old(samples[i])
    {
      var at := 0;
      if !eof {
        at := Fill(samples, now, later);
      }
      if eof {
        ghost var w := samples[..at];
        forall k | at <= k < samples.Length {
          samples[k] := 0;
        }
        assert samples[..at] == w;
      }
    }

    /** The loop of write_handler. */
    method Fill(samples: array<byte>, now: nat, later: nat) returns (at: nat)
      requires Valid() && !eof
      modifies this`pos, this`repeat, this`trep, this`eof, samples
      ensures Valid() && at <= samples.Length
      ensures (Value(), samples[..at]) == Callback(old(Value()), samples.Length, now, later)
      ensures forall i :: at <= i < samples.Length ==> samples[i] == old(samples[i])
    {
      hide Check, Copy;
      var clock := now;
      ghost var first := true;
      ghost var w := [];
      at := 0;
      if samples.Length == 0 {
        NothingWanted(Value());
      }
      while at < samples.Length
        invariant Valid() && at == |w| <= samples.Length && samples[..at] == w && !eof
        invariant forall i :: at <= i < samples.Length ==> samples[i] == old(samples[i])
        invariant first ==> at == 0 && Value() == old(Value()) && clock == now
        invariant !first && at < samples.Length ==>
                    trep == 0 && clock == later
                    && Rest(Value(), w, samples.Length, later) == Callback(old(Value()), samples.Length, now, later)
        invariant !first ==> at < samples.Length
        decreases first
      {
        var count := Read(samples, at);
        assert samples[..at + count] == w + samples[at..at + count];
        w := w + samples[at..at + count];
        at := at + count;
        if at >= samples.Length {
          break;
        }
        var again := CheckRestart(clock);
        if !again {
          break;
        }
        pos := 0;
        clock := later;
        first := false;
      }
    }
  }

  // The second copy of a callback.
  function Rest(p: Play, w: seq<byte>, sz: nat, later: nat): (Play, seq<byte>)
    requires p.pos <= |p.tone| && |w| <= sz
  {
    var (p3, w2) := Copy(p, sz - |w|);
    if |w| + |w2| >= sz then (p3, w + w2) else (Check(p3, later).0, w + w2)
  }

  lemma NothingWanted(p: Play)
    requires p.pos <= |p.tone| && !p.eof
    ensures forall now, later :: Callback(p, 0, now, later) == (p, [])
  {
  }

  // ----- whole runs -----

  /** One callback of a run. */
  datatype Call = Call(sz: nat, now: nat, later: nat)

  /** All bytes copied over a run. */
  function Run(p: Play, calls: seq<Call>): (r: (Play, seq<byte>))
    requires p.pos <= |p.tone|
    ensures r.0.pos <= |r.0.tone| && r.0.tone == p.tone
  {
    if calls == [] then (p, [])
    else
      var c := calls[|calls| - 1];
      var (q, w) := Run(p, calls[..|calls| - 1]);
      var (q', w') := Callback(q, c.sz, c.now, c.later);
      (q', w + w')
  }

  function Copies(tone: seq<byte>, n: nat): seq<byte> {
    if n == 0 then [] else Copies(tone, n - 1) + tone
  }

  /** The restart times computed over a run that are 0. */
  function Zeros(p: Play, calls: seq<Call>): nat
    requires p.pos <= |p.tone|
  {
    if calls == [] then 0
    else
      var c := calls[|calls| - 1];
      Zeros(p, calls[..|calls| - 1]) + CallbackZeros(Run(p, calls[..|calls| - 1]).0, c.sz, c.now, c.later)
  }

  /** After w bytes of a player that is to play n times (forever when n is negative), k copies
      are counted, z of which were never played: their predecessor's restart time was 0. */
  predicate Playing(p: Play, n: int, k: nat, z: nat, w: seq<byte>)
    requires p.pos <= |p.tone|
  {
    && z <= k
    && (n > 0 ==> p.repeat == n - k && k <= n && (p.eof <==> k == n))
    && (p.eof ==> z < k)
    && (n < 0 ==> p.repeat == n && !p.eof)
    && (p.trep != 0 ==> k > 0 && p.pos == |p.tone| && !p.eof)
    && (p.eof || p.trep != 0 ==> w == Copies(p.tone, k - z))
    && (!p.eof && p.trep == 0 ==> w == Copies(p.tone, k - z) + p.tone[..p.pos])
  }

  // Copying goes on with the copy that is playing.
  lemma CopyPlays(p: Play, n: int, k: nat, z: nat, w: seq<byte>, want: nat)
    requires n != 0 && p.pos <= |p.tone| && Playing(p, n, k, z, w) && !p.eof
    ensures var (q, v) := Copy(p, want);
            Playing(q, n, k, z, w + v) && !q.eof && q.delay == p.delay && (|v| < want ==> q.pos == |q.tone|)
  {
    var (q, v) := Copy(p, want);
    assert p.tone[..p.pos] + v == p.tone[..q.pos];
    if p.trep != 0 {
      assert w + v == w;
    } else {
      Assoc(Copies(p.tone, k - z), p.tone[..p.pos], v);
    }
  }

  // At the end of a copy the check counts it once, then waits; a restart time of 0 makes the
  // next check count another copy that was not played.
  lemma CheckPlays(p: Play, n: int, k: nat, z: nat, w: seq<byte>, now: nat)
    requires n != 0 && p.pos == |p.tone| && Playing(p, n, k, z, w) && !p.eof
    ensures var (q, again) := Check(p, now);
            && q.delay == p.delay
            && if again then Playing(q.(pos := 0), n, k, z, w) && !q.eof && q.trep == 0
               else Playing(q, n, if p.trep == 0 then k + 1 else k, z + ZeroTimes(p, now), w)
  {
    assert p.tone[..|p.tone|] == p.tone;
    var q := Check(p, now).0.(pos := 0);
    assert Copies(p.tone, k - z) + q.tone[..0] == Copies(p.tone, k - z);
  }

  lemma CallbackPlays(p: Play, n: int, k: nat, z: nat, w: seq<byte>, c: Call) returns (k': nat)
    requires n != 0 && p.pos <= |p.tone| && Playing(p, n, k, z, w)
    ensures var (q, v) := Callback(p, c.sz, c.now, c.later);
            Playing(q, n, k', z + CallbackZeros(p, c.sz, c.now, c.later), w + v) && q.delay == p.delay
  {
    hide Copies, Playing, Check, ZeroTimes;
    k' := k;
    if p.eof {
      assert w + [] == w;
    } else {
      var (p1, w1) := Copy(p, c.sz);
      CopyPlays(p, n, k, z, w, c.sz);
      if |w1| < c.sz {
        var (p2, again) := Check(p1, c.now);
        CheckPlays(p1, n, k, z, w + w1, c.now);
        if again {
          k' := SecondCopy(p2.(pos := 0), n, k, z, w, w1, c);
        } else if p1.trep == 0 {
          k' := k + 1;
        }
      }
    }
  }

  lemma SecondCopy(p: Play, n: int, k: nat, z: nat, w: seq<byte>, w1: seq<byte>, c: Call) returns (k': nat)
    requires n != 0 && p.pos <= |p.tone| && Playing(p, n, k, z, w + w1) && !p.eof && p.trep == 0 && |w1| < c.sz
    ensures var (q, w2) := Copy(p, c.sz - |w1|);
            if |w1| + |w2| >= c.sz then k' == k && Playing(q, n, k, z, w + (w1 + w2)) && q.delay == p.delay
            else Playing(Check(q, c.later).0, n, k', z + ZeroTimes(q, c.later), w + (w1 + w2))
                 && Check(q, c.later).0.delay == p.delay
  {
    hide Copies, Playing, ZeroTimes;
    k' := k;
    var (q, w2) := Copy(p, c.sz - |w1|);
    CopyPlays(p, n, k, z, w + w1, c.sz - |w1|);
    Assoc(w, w1, w2);
    if |w1| + |w2| < c.sz {
      CheckPlays(q, n, k, z, w + w1 + w2, c.later);
      k' := k + 1;
    }
  }

  lemma StartPlays(p: Play, n: int)
    requires p.pos == 0 && p.repeat == n != 0 && p.trep == 0 && !p.eof
    ensures Playing(p, n, 0, 0, [])
  {
    assert Copies(p.tone, 0) + p.tone[..0] == [];
  }

  lemma {:induction false} RunPlays(tone: seq<byte>, repeat: int, delay: nat, calls: seq<Call>) returns (k: nat)
    ensures var p := Start(tone, repeat, delay);
            var (q, w) := Run(p, calls);
            Playing(q, p.repeat, k, Zeros(p, calls), w) && q.delay == delay
  {
    hide Callback, CallbackZeros, Playing;
    var p := Start(tone, repeat, delay);
    if calls == [] {
      k := 0;
      StartPlays(p, p.repeat);
    } else {
      var front, c := calls[..|calls| - 1], calls[|calls| - 1];
      var k0 := RunPlays(tone, repeat, delay, front);
      var (q, w) := Run(p, front);
      k := CallbackPlays(q, p.repeat, k0, Zeros(p, front), w, c);
    }
  }

  lemma {:induction false} CopiesPrefix(tone: seq<byte>, k: nat, n: nat, pos: nat)
    requires k <= n && pos <= |tone| && (k == n ==> pos == 0)
    ensures Copies(tone, k) + tone[..pos] <= Copies(tone, n)
    decreases n - k
  {
    if k == n {
      assert Copies(tone, k) + tone[..0] == Copies(tone, k);
    } else if k + 1 == n {
      assert tone[..pos] <= tone;
    } else {
      CopiesPrefix(tone, k + 1, n, 0);
      assert Copies(tone, k + 1) + tone[..0] == Copies(tone, k) + tone;
      assert Copies(tone, k) + tone[..pos] <= Copies(tone, k) + tone;
    }
  }

  /** A tone played n times: whatever the callback sizes and the clock, the bytes copied are a
      prefix of n copies of the tone, and the player is at its end exactly when all n are
      counted. Each restart time that came out as 0 has then cost one copy: n copies were
      played if and only if there was none. */
  lemma PlaysNTimes(tone: seq<byte>, n: nat, delay: nat, calls: seq<Call>)
    requires n > 0
    ensures var p := Start(tone, n, delay);
            var (q, w) := Run(p, calls);
            && w <= Copies(tone, n)
            && (q.eof <==> q.repeat == 0)
            && (q.eof ==> Zeros(p, calls) < n && w == Copies(tone, n - Zeros(p, calls)))
            && (q.eof && tone != [] ==> (w == Copies(tone, n) <==> Zeros(p, calls) == 0))
            && (tone != [] && w == Copies(tone, n) && !q.eof ==> q.repeat == 1 && q.pos == |tone| && q.trep == 0)
  {
    hide Run, Zeros, Copies;
    var p := Start(tone, n, delay);
    var k := RunPlays(tone, n, delay, calls);
    PlayedSoFar(Run(p, calls).0, n, k, Zeros(p, calls), Run(p, calls).1);
  }

  lemma PlayedSoFar(q: Play, n: nat, k: nat, z: nat, w: seq<byte>)
    requires n > 0 && q.pos <= |q.tone| && Playing(q, n, k, z, w)
    ensures w <= Copies(q.tone, n) && (q.eof <==> q.repeat == 0)
    ensures q.eof ==> z < n && w == Copies(q.tone, n - z)
    ensures q.eof && q.tone != [] ==> (w == Copies(q.tone, n) <==> z == 0)
    ensures q.tone != [] && w == Copies(q.tone, n) && !q.eof ==> q.repeat == 1 && q.pos == |q.tone| && q.trep == 0
  {
    var m, at := k - z, if q.eof || q.trep != 0 then 0 else q.pos;
    assert w == Copies(q.tone, m) + q.tone[..at];
    CopiesPrefix(q.tone, m, n, at);
    hide Copies;
    CopiesLength(q.tone, m);
    CopiesLength(q.tone, n);
    if q.tone != [] && m < n {
      CopiesShort(|q.tone|, m, n, at);
    }
  }

  lemma {:induction false} CopiesLength(tone: seq<byte>, n: nat)
    ensures |Copies(tone, n)| == n * |tone|
  {
    if n == 0 {
    } else {
      CopiesLength(tone, n - 1);
      assert n * |tone| == (n - 1) * |tone| + |tone|;
    }
  }

  lemma CopiesShort(len: nat, k: nat, n: nat, pos: nat)
    requires len > 0 && k < n && pos <= len
    ensures k * len < n * len
    ensures k * len + pos == n * len ==> k + 1 == n && pos == len
  {
    assert n * len == k * len + (n - k) * len;
    if n - k >= 2 { assert (n - k) * len >= 2 * len; }
  }

  /** A negative count never ends, whatever the clock: always whole copies and the start of one
      more. */
  lemma PlaysForever(tone: seq<byte>, n: int, delay: nat, calls: seq<Call>) returns (k: nat)
    requires n < 0
    ensures var (q, w) := Run(Start(tone, n, delay), calls);
            && !q.eof && q.repeat == n
            && Copies(tone, k) <= w <= Copies(tone, k + 1)
  {
    var p := Start(tone, n, delay);
    k := RunPlays(tone, n, delay, calls);
    k := k - Zeros(p, calls);
    var (q, w) := Run(p, calls);
    if q.trep == 0 {
      CopiesPrefix(tone, k, k + 1, q.pos);
    } else {
      CopiesPrefix(tone, k, k + 1, 0);
      assert Copies(tone, k) + tone[..0] == Copies(tone, k);
    }
  }

  /** Why: at the end of a copy that is not the last, the next check, whenever it comes, leaves
      the count alone exactly when the restart time is not 0. */
  lemma NoCopyLost(p: Play, now: nat, next: nat)
    requires p.repeat > 1 && p.trep == 0
    ensures Check(Check(p, now).0, next).0.repeat == p.repeat - 1 <==> (now + p.delay) % W64 != 0
  {
  }

  /** With the clock at 0 and no delay a tone to be played twice is heard once. */
  lemma CopyLost()
    ensures var (q, w) := Run(Start([7], 2, 0), [Call(2, 0, 0), Call(2, 0, 0)]);
            q.eof && w == [7]
  {
    var calls := [Call(2, 0, 0), Call(2, 0, 0)];
    var p := Start([7], 2, 0);
    assert calls[..1] == [Call(2, 0, 0)] && calls[..1][..0] == [];
    assert [7][0..1] == [7];
    assert Callback(p, 2, 0, 0) == (Play([7], 1, 1, 0, 0, false), [7]);
    assert [] + [7] == [7];
    assert Run(p, calls[..1]) == (Play([7], 1, 1, 0, 0, false), [7]);
  }

  // ----- the pause between copies -----

  /** The clock at which a callback comes to the end of a copy, if it does: the first reading for
      a copy that is playing, the second for one that it starts itself. */
  function EndOfCopy(p: Play, c: Call): Option<nat>
    requires p.pos <= |p.tone|
  {
    if p.eof then None
    else if p.trep == 0 then if |p.tone| - p.pos < c.sz then Some(c.now) else None
    else if p.pos == |p.tone| && p.trep <= c.now && |p.tone| < c.sz then Some(c.later)
    else None
  }

  // After a copy that is not the last, with a restart time that is not mistaken for 0.
  lemma WaitsAfter(p: Play, c: Call)
    requires p.pos <= |p.tone| && EndOfCopy(p, c).Some? && p.repeat != 0 && p.repeat != 1
    requires 0 < EndOfCopy(p, c).value + p.delay < W64
    ensures var q := Callback(p, c.sz, c.now, c.later).0;
            && q.trep == EndOfCopy(p, c).value + p.delay && q.pos == |q.tone| && !q.eof
            && q.tone == p.tone && q.delay == p.delay
            && q.repeat == if p.repeat > 0 then p.repeat - 1 else p.repeat
  {
  }

  predicate AllBefore(calls: seq<Call>, time: nat) {
    forall i :: 0 <= i < |calls| ==> calls[i].now < time
  }

  lemma WaitsOnce(q: Play, c: Call)
    requires q.trep > c.now && q.pos == |q.tone| && !q.eof
    ensures Callback(q, c.sz, c.now, c.later) == (q, [])
  {
    assert q.tone[q.pos..q.pos] == [];
  }

  // While the player waits.
  lemma {:induction false} Waits(q: Play, calls: seq<Call>)
    requires q.trep != 0 && q.pos == |q.tone| && !q.eof && AllBefore(calls, q.trep)
    ensures Run(q, calls) == (q, [])
  {
    hide Callback;
    if calls == [] {
    } else {
      Waits(q, calls[..|calls| - 1]);
      WaitsOnce(q, calls[|calls| - 1]);
      var none: seq<byte> := [];
      assert none + none == none;
    }
  }

  /** The pause is kept: when a copy that is not the last ends at some clock, no callback before
      that clock plus the delay copies a byte or changes anything, and the first one from then
      on that wants a byte starts the tone from its beginning. */
  lemma PauseKept(p: Play, c: Call, calls: seq<Call>, next: Call)
    requires p.pos <= |p.tone| && EndOfCopy(p, c).Some? && p.repeat != 0 && p.repeat != 1
    requires 0 < EndOfCopy(p, c).value + p.delay < W64
    requires AllBefore(calls, EndOfCopy(p, c).value + p.delay)
    requires next.sz > 0 && EndOfCopy(p, c).value + p.delay <= next.now
    ensures var q := Callback(p, c.sz, c.now, c.later).0;
            && Run(q, calls) == (q, [])
            && var (r, w) := Callback(q, next.sz, next.now, next.later);
               w == p.tone[..if |p.tone| < next.sz then |p.tone| else next.sz]
               && (next.sz <= |p.tone| ==> r == q.(trep := 0, pos := next.sz))
  {
    hide Callback, Run;
    WaitsAfter(p, c);
    var q := Callback(p, c.sz, c.now, c.later).0;
    Waits(q, calls);
    Restarts(q, next);
  }

  lemma Restarts(q: Play, c: Call)
    requires q.trep != 0 && q.pos == |q.tone| && !q.eof && c.sz > 0 && q.trep <= c.now
    ensures var (r, w) := Callback(q, c.sz, c.now, c.later);
            && w == q.tone[..if |q.tone| < c.sz then |q.tone| else c.sz]
            && (c.sz <= |q.tone| ==> r == q.(trep := 0, pos := c.sz))
  {
    assert q.tone[q.pos..q.pos] == [];
    assert [] + q.tone[0..if |q.tone| < c.sz then |q.tone| else c.sz]
           == q.tone[..if |q.tone| < c.sz then |q.tone| else c.sz];
  }

  // ----- progress -----

  /** A callback that wants a byte, and does not come before the restart time. */
  predicate Useful(p: Play, c: Call) {
    c.sz > 0 && p.trep <= c.now
  }

  /** How many callbacks of a run are. */
  function UsefulCalls(p: Play, calls: seq<Call>): nat
    requires p.pos <= |p.tone|
  {
    if calls == [] then 0
    else
      var front := calls[..|calls| - 1];
      UsefulCalls(p, front) + if Useful(Run(p, front).0, calls[|calls| - 1]) then 1 else 0
  }

  /** What is left to do: every byte of every copy, and one check after each copy. */
  function Left(p: Play): int {
    if p.eof then 0
    else if p.trep != 0 then p.repeat * (|p.tone| + 1)
    else p.repeat * (|p.tone| + 1) - p.pos
  }

  predicate Busy(p: Play) {
    && p.pos <= |p.tone|
    && (p.trep != 0 ==> p.pos == |p.tone| && !p.eof)
    && (!p.eof ==> p.repeat >= 1)
  }

  lemma LeftPositive(p: Play)
    requires Busy(p)
    ensures Left(p) >= 0 && (p.eof <==> Left(p) == 0)
  {
    if !p.eof { assert p.repeat * (|p.tone| + 1) >= |p.tone| + 1; }
  }

  lemma CopyLess(p: Play, want: nat)
    requires Busy(p) && !p.eof
    ensures var (q, v) := Copy(p, want);
            && Busy(q) && q == p.(pos := q.pos) && (|v| < want ==> q.pos == |q.tone|)
            && (p.trep == 0 ==> Left(q) == Left(p) - |v|) && (p.trep != 0 ==> q == p && v == [])
  {
  }

  lemma CheckLess(p: Play, now: nat)
    requires Busy(p) && !p.eof && p.pos == |p.tone|
    ensures var (q, again) := Check(p, now);
            && (p.trep == 0 ==> !again && Busy(q) && Left(q) < Left(p))
            && (p.trep != 0 && p.trep <= now ==>
                  again && q == p.(trep := 0) && Busy(q.(pos := 0)) && Left(q.(pos := 0)) == Left(p))
            && (p.trep > now ==> !again && q == p)
  {
    assert (p.repeat - 1) * (|p.tone| + 1) == p.repeat * (|p.tone| + 1) - (|p.tone| + 1);
  }

  // A callback never adds to what is left, and a useful one takes something off.
  lemma CallbackLess(p: Play, c: Call)
    requires Busy(p)
    ensures var q := Callback(p, c.sz, c.now, c.later).0;
            Busy(q) && Left(q) <= Left(p) - if !p.eof && Useful(p, c) then 1 else 0
  {
    hide Left, Check;
    if !p.eof {
      var (p1, w1) := Copy(p, c.sz);
      CopyLess(p, c.sz);
      if |w1| < c.sz {
        var (p2, again) := Check(p1, c.now);
        CheckLess(p1, c.now);
        if again {
          var (p3, w2) := Copy(p2.(pos := 0), c.sz - |w1|);
          CopyLess(p2.(pos := 0), c.sz - |w1|);
          if |w1| + |w2| < c.sz { CheckLess(p3, c.later); }
        }
      }
    }
  }

  lemma {:induction false} RunLess(p: Play, calls: seq<Call>)
    requires Busy(p)
    ensures var q := Run(p, calls).0;
            Busy(q) && (!q.eof ==> Left(q) + UsefulCalls(p, calls) <= Left(p))
  {
    hide Callback, Left, Useful;
    if calls == [] {
    } else {
      var front, c := calls[..|calls| - 1], calls[|calls| - 1];
      RunLess(p, front);
      CallbackLess(Run(p, front).0, c);
      if Run(p, front).0.eof { StaysEnded(Run(p, front).0, c); }
    }
  }

  lemma StaysEnded(p: Play, c: Call)
    requires p.pos <= |p.tone| && p.eof
    ensures Callback(p, c.sz, c.now, c.later) == (p, [])
  {
  }

  /** Progress: as many callbacks that want a byte and do not come before the restart time as
      there are bytes to play, and one more for each copy, always reach the end; whatever
      other callbacks come in between. Then all n copies were played, unless a restart time
      came out as 0. A repeat count of 0 means once. */
  lemma ReachesEnd(tone: seq<byte>, repeat: nat, delay: nat, calls: seq<Call>)
    requires var n := if repeat == 0 then 1 else repeat;
             UsefulCalls(Start(tone, repeat, delay), calls) >= n * (|tone| + 1)
    ensures var n := if repeat == 0 then 1 else repeat;
            var p := Start(tone, repeat, delay);
            var (q, w) := Run(p, calls);
            q.eof && Zeros(p, calls) < n && w == Copies(tone, n - Zeros(p, calls))
  {
    hide Run, UsefulCalls, Zeros, Copies;
    var n := if repeat == 0 then 1 else repeat;
    var p := Start(tone, repeat, delay);
    assert p == Start(tone, n, delay);
    RunLess(p, calls);
    LeftPositive(Run(p, calls).0);
    PlaysNTimes(tone, n, delay, calls);
  }
}
