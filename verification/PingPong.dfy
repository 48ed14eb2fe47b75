// The conversion buffer of the AudioUnit driver: two memory blocks used in turn, so that
// what was read last stays in place while new frames are written.
module PingPong {
  const MAX_NB_FRAMES: nat := 4096
  const W32: int := 0x1_0000_0000

  /** The capacity test of init_data_write, in 32-bit unsigned arithmetic. */
  predicate Accepts(nbFrames: nat, n: nat) {
    (nbFrames + n) % W32 <= MAX_NB_FRAMES
  }

  /** The test refuses exactly the writes that do not fit, provided the sum does not wrap. */
  lemma CapacityTestExact(nbFrames: nat, n: nat)
    requires nbFrames <= MAX_NB_FRAMES && n < W32
    ensures (Accepts(nbFrames, n) <==> nbFrames + n <= MAX_NB_FRAMES) <==> nbFrames + n < W32
  {
  }

  // The caller fills the part of the block it was given.
  method Fill<T>(block: array<T>, at: nat, frames: seq<T>)
    requires at + |frames| <= block.Length
    modifies block
    ensures block[..] == old(block[..])[..at] + frames + old(block[..])[at + |frames|..]
  {
    forall i | 0 <= i < |frames| {
      block[at + i] := frames[i];
    }
  }

  /** `struct conv_buf`; an array element is one frame of framesz bytes. */
  class ConvBuf<T(0)> {
    const mem0: array<T>
    const mem1: array<T>
    var memIdx: nat
    var nbFrames: nat

    ghost predicate Valid()
      reads this
    {
      && mem0 != mem1 && mem0.Length == mem1.Length == MAX_NB_FRAMES
      && memIdx < 2 && nbFrames <= MAX_NB_FRAMES
    }

    /** The block being filled. */
    function Mem(): array<T>
      reads this
    {
      if memIdx == 0 then mem0 else mem1
    }

    /** The block last read. */
    function Lent(): array<T>
      reads this
    {
      if memIdx == 0 then mem1 else mem0
    }

    /** The frames waiting, oldest first. */
    ghost function Contents(): seq<T>
      requires Valid()
      reads this, mem0, mem1
    {
      Mem()[..nbFrames]
    }

    /** The whole state: both blocks, every frame of them. */
    ghost function Value(): Buf<T>
      reads this, mem0, mem1
    {
      Buf(Mem()[..], nbFrames, Lent()[..])
    }

    constructor ()
      ensures Valid() && Contents() == [] && memIdx == 0
    {
      mem0 := new T[MAX_NB_FRAMES];
      mem1 := new T[MAX_NB_FRAMES];
      memIdx, nbFrames := 0, 0;
    }

    method GetNbFrames() returns (n: nat)
      requires Valid()
      ensures n == |Contents()|
    {
      n := nbFrames;
    }

    /** init_data_write: room for n frames behind those waiting. */
    method InitDataWrite(n: nat) returns (ok: bool, block: array<T>, offset: nat)
      requires Valid() && n < W32
      modifies this`nbFrames
      ensures Valid()
      ensures ok <==> Accepts(old(nbFrames), n)
      ensures block == Mem() && offset == old(nbFrames)
      ensures nbFrames == if ok then (old(nbFrames) + n) % W32 else old(nbFrames)
    {
      block, offset := Mem(), nbFrames;
      if (nbFrames + n) % W32 > MAX_NB_FRAMES {
        return false, block, offset;
      }
      nbFrames := (nbFrames + n) % W32;
      ok := true;
    }

    // The caller fills the place it was given.
    method Store(at: nat, frames: seq<T>)
      requires Valid() && at + |frames| <= MAX_NB_FRAMES
      modifies Mem()
      ensures Mem()[..] == old(Mem()[..])[..at] + frames + old(Mem()[..])[at + |frames|..]
      ensures Lent()[..] == old(Lent()[..])
    {
      Fill(Mem(), at, frames);
    }

    /** A write as its callers make it: reserve, then fill. Nothing but the reserved part of
        the block being filled changes. */
    method Put(frames: seq<T>) returns (ok: bool)
      requires Valid() && nbFrames + |frames| < W32
      modifies this`nbFrames, Mem()
      ensures Valid()
      ensures ok <==> |old(Contents())| + |frames| <= MAX_NB_FRAMES
      ensures Contents() == if ok then old(Contents()) + frames else old(Contents())
      ensures Ok(old(Value())) && Value() == Do(old(Value()), Write(frames)).0
    {
      ghost var b := Value();
      var block, at;
      hide Do, Accepts;
      CapacityTestExact(nbFrames, |frames|);
      ok, block, at := InitDataWrite(|frames|);
      if ok {
        Store(at, frames);
        Written(b, Value(), frames);
      } else {
        Refused(b, frames);
      }
    }

    /** init_data_read: hands out the block being filled, moves what is left over to the other
        block and goes on filling there. */
    method InitDataRead(n: nat) returns (ok: bool, block: array<T>)
      requires Valid()
      modifies this`memIdx, this`nbFrames, Lent()
      ensures Valid()
      ensures ok <==> n <= old(nbFrames)
      ensures Ok(old(Value())) && Value() == Do(old(Value()), Read(n)).0
      ensures block == old(Mem()) && (ok ==> block == Lent())
    {
      block := Mem();
      ghost var b := Value();
      hide Do;
      if nbFrames < n {
        TooFew(b, n);
        return false, block;
      }
      var delta := nbFrames - n;
      MoveOver(n, delta);
      memIdx := (memIdx + 1) % 2;
      nbFrames := delta;
      ok := true;
      Lends(b, Value(), n);
    }

    /** The memcpy of init_data_read: what is left over goes to the front of the other block. */
    method MoveOver(n: nat, delta: nat)
      requires Valid() && n + delta == nbFrames
      modifies Lent()
      ensures Lent()[..] == [] + Mem()[n..n + delta] + old(Lent()[..])[delta..]
      ensures Mem()[..] == old(Mem()[..])
    {
      ghost var was := Mem()[..];
      Fill(Lent(), 0, Mem()[n..n + delta]);
      assert old(Lent()[..])[..0] == [];
    }
  }

  // ----- whole runs -----

  /** What the methods do, on values: the two blocks in the order being filled, last read. */
  datatype Buf<T> = Buf(filling: seq<T>, n: nat, lent: seq<T>)

  datatype Op<T> = Write(frames: seq<T>) | Read(n: nat)

  ghost predicate Ok<T>(b: Buf<T>) {
    b.n <= MAX_NB_FRAMES == |b.filling| == |b.lent|
  }

  function Waiting<T>(b: Buf<T>): seq<T>
    requires b.n <= |b.filling|
  {
    b.filling[..b.n]
  }

  /** One call and the frames it returns. */
  function Do<T>(b: Buf<T>, op: Op<T>): (r: (Buf<T>, seq<T>))
    requires Ok(b)
    ensures Ok(r.0)
  {
    match op
    case Write(frames) =>
      if b.n + |frames| > MAX_NB_FRAMES then (b, [])
      else (b.(filling := b.filling[..b.n] + frames + b.filling[b.n + |frames|..], n := b.n + |frames|), [])
    case Read(n) =>
      if b.n < n then (b, [])
      else (Buf(b.filling[n..b.n] + b.lent[b.n - n..], b.n - n, b.filling), b.filling[..n])
  }

  lemma Written<T>(b: Buf<T>, c: Buf<T>, frames: seq<T>)
    requires Ok(b) && b.n + |frames| <= MAX_NB_FRAMES
    requires c.filling == b.filling[..b.n] + frames + b.filling[b.n + |frames|..]
    requires c.n == b.n + |frames| && c.lent == b.lent
    ensures c == Do(b, Write(frames)).0 && c.filling[..c.n] == b.filling[..b.n] + frames
  {
  }

  lemma Refused<T>(b: Buf<T>, frames: seq<T>)
    requires Ok(b) && b.n + |frames| > MAX_NB_FRAMES
    ensures Do(b, Write(frames)).0 == b
  {
  }

  lemma Lends<T>(b: Buf<T>, c: Buf<T>, n: nat)
    requires Ok(b) && n <= b.n && c.n == b.n - n && c.lent == b.filling
    requires c.filling == [] + b.filling[n..b.n] + b.lent[b.n - n..]
    ensures c == Do(b, Read(n)).0
  {
    assert [] + b.filling[n..b.n] == b.filling[n..b.n];
  }

  lemma TooFew<T>(b: Buf<T>, n: nat)
    requires Ok(b) && b.n < n
    ensures Do(b, Read(n)).0 == b
  {
  }

  /** A successful read hands out the oldest frames at the front of the block it lends, and
      the younger ones go on waiting, in order, in the other block. */
  lemma ReadMeans<T>(b: Buf<T>, n: nat)
    requires Ok(b) && n <= b.n
    ensures var (c, out) := Do(b, Read(n));
            out == Waiting(b)[..n] && Waiting(c) == Waiting(b)[n..] && c.lent == b.filling && c.lent[..n] == out
  {
    var c := Do(b, Read(n)).0;
    assert c.filling[..c.n] == b.filling[n..b.n];
  }

  predicate Taken<T>(b: Buf<T>, op: Op<T>) {
    match op
    case Write(frames) => b.n + |frames| <= MAX_NB_FRAMES
    case Read(n) => n <= b.n
  }

  /** A run: the final state, all frames accepted and all frames returned. */
  function Run<T>(b: Buf<T>, ops: seq<Op<T>>): (r: (Buf<T>, seq<T>, seq<T>))
    requires Ok(b)
    ensures Ok(r.0)
  {
    if ops == [] then (b, [], [])
    else
      var op := ops[|ops| - 1];
      var (c, i, o) := Run(b, ops[..|ops| - 1]);
      (Do(c, op).0, if op.Write? && Taken(c, op) then i + op.frames else i, o + Do(c, op).1)
  }

  /** First in, first out: after any calls the frames returned, then the frames waiting, are
      the frames that were waiting at first, then those accepted, in order. */
  lemma {:induction false} Fifo<T>(b: Buf<T>, ops: seq<Op<T>>)
    requires Ok(b)
    ensures var (c, i, o) := Run(b, ops);
            o + Waiting(c) == Waiting(b) + i
  {
    if ops == [] {
      assert Waiting(b) + [] == [] + Waiting(b);
    } else {
      var op := ops[|ops| - 1];
      var (c, i, o) := Run(b, ops[..|ops| - 1]);
      Fifo(b, ops[..|ops| - 1]);
      DoFifo(c, op);
      var (d, out) := Do(c, op);
      Assoc3(o, out, Waiting(d));
      if op.Write? && Taken(c, op) {
        Assoc3(o, Waiting(c), op.frames);
        Assoc3(Waiting(b), i, op.frames);
      }
    }
  }

  lemma Assoc3<T>(a: seq<T>, b: seq<T>, c: seq<T>)
    ensures a + (b + c) == a + b + c
  {
  }

  lemma DoFifo<T>(b: Buf<T>, op: Op<T>)
    requires Ok(b)
    ensures var (c, out) := Do(b, op);
            out + Waiting(c) == if op.Write? && Taken(b, op) then Waiting(b) + op.frames else Waiting(b)
  {
    var (c, out) := Do(b, op);
    match op
    case Write(frames) =>
      if Taken(b, op) {
        assert c.filling[..c.n] == b.filling[..b.n] + frames;
        assert [] + Waiting(c) == Waiting(c);
      } else {
        assert [] + Waiting(b) == Waiting(b);
      }
    case Read(n) =>
      if Taken(b, op) {
        assert c.filling[..c.n] == b.filling[n..b.n];
        assert b.filling[..n] + b.filling[n..b.n] == b.filling[..b.n];
      } else {
        assert [] + Waiting(b) == Waiting(b);
      }
  }

  /** No call in the list is a read that succeeds. */
  predicate NoRead<T>(b: Buf<T>, ops: seq<Op<T>>)
    requires Ok(b)
  {
    ops != [] ==>
      && NoRead(b, ops[..|ops| - 1])
      && !(ops[|ops| - 1].Read? && Taken(Run(b, ops[..|ops| - 1]).0, ops[|ops| - 1]))
  }

  /** The block handed out by a successful read keeps every byte, not only the frames read,
      until the next successful read, whatever is written in between; and so its first
      frames are still the ones that were read. */
  lemma {:induction false} LentBlockStays<T>(b: Buf<T>, n: nat, ops: seq<Op<T>>)
    requires Ok(b) && n <= b.n
    requires NoRead(Do(b, Read(n)).0, ops)
    ensures var (c, out) := Do(b, Read(n));
            Run(c, ops).0.lent == b.filling && Run(c, ops).0.lent[..n] == out
  {
    if ops == [] {
    } else {
      LentBlockStays(b, n, ops[..|ops| - 1]);
    }
  }
}
