// Picture planes stored bottom-up are turned top-down in place.
module PlaneFlip {
  import opened Bytes

  function Abs(x: int): nat {
    if x < 0 then -x else x
  }

  /** Where logical row r of a plane begins. */
  function RowAt(data: int, linesize: int, r: int): int {
    data + linesize * r
  }

  predicate RowFits(len: nat, data: int, linesize: int, r: int) {
    0 <= RowAt(data, linesize, r) && RowAt(data, linesize, r) + Abs(linesize) <= len
  }

  /** All h rows of the plane lie in the buffer. */
  ghost predicate Fits(len: nat, data: int, linesize: int, h: nat) {
    forall r :: 0 <= r < h ==> RowFits(len, data, linesize, r)
  }

  /** The bytes of logical row r. */
  function Row(m: seq<byte>, data: int, linesize: int, r: int): seq<byte> {
    if RowFits(|m|, data, linesize, r)
    then m[RowAt(data, linesize, r)..RowAt(data, linesize, r) + Abs(linesize)]
    else []
  }

  lemma RowsApart(data: int, linesize: int, q: int, r: int)
    requires q != r
    ensures RowAt(data, linesize, q) + Abs(linesize) <= RowAt(data, linesize, r)
            || RowAt(data, linesize, r) + Abs(linesize) <= RowAt(data, linesize, q)
  {
    Stride(linesize, q, r);
  }

  lemma Stride(linesize: int, q: int, r: int)
    requires q != r
    ensures linesize * q + Abs(linesize) <= linesize * r || linesize * r + Abs(linesize) <= linesize * q
  {
    var s := Abs(linesize);
    if q < r {
      assert s * (r - q) >= s by { Grow(s, r - q); }
      assert linesize * r - linesize * q == linesize * (r - q);
      assert linesize * (r - q) == if linesize < 0 then -(s * (r - q)) else s * (r - q);
    } else {
      assert s * (q - r) >= s by { Grow(s, q - r); }
      assert linesize * q - linesize * r == linesize * (q - r);
      assert linesize * (q - r) == if linesize < 0 then -(s * (q - r)) else s * (q - r);
    }
  }

  lemma Grow(s: nat, k: nat)
    requires k >= 1
    ensures s * k >= s
  {
    if k > 1 {
      Grow(s, k - 1);
      assert s * k == s * (k - 1) + s;
    }
  }

  /** swap_lines, through a temporary line. */
  method SwapLines(mem: array<byte>, a: nat, b: nat, size: nat)
    requires a + size <= mem.Length && b + size <= mem.Length
    requires a + size <= b || b + size <= a
    modifies mem
    ensures mem[a..a + size] == old(mem[b..b + size]) && mem[b..b + size] == old(mem[a..a + size])
    ensures forall j :: 0 <= j < mem.Length && !(a <= j < a + size) && !(b <= j < b + size) ==> mem[j] == old(mem[j])
  {
    var tmp := mem[a..a + size];
    forall k | 0 <= k < size {
      mem[a + k] := mem[b + k];
    }
    assert mem[b..b + size] == old(mem[b..b + size]);
    forall k | 0 <= k < size {
      mem[b + k] := tmp[k];
    }
    assert mem[a..a + size] == old(mem[b..b + size]);
    assert mem[b..b + size] == tmp;
  }

  /** Which row ends up as row r once the outer i rows on each side have been swapped. */
  function Source(h: nat, i: nat, r: int): int {
    if i <= r < h - i then r else h - 1 - r
  }

  ghost predicate Swapped(m: seq<byte>, was: seq<byte>, data: int, linesize: int, h: nat, i: nat) {
    forall r :: 0 <= r < h ==> Row(m, data, linesize, r) == Row(was, data, linesize, Source(h, i, r))
  }

  /** A byte that belongs to no row of the plane. */
  ghost predicate Outside(j: int, data: int, linesize: int, h: nat) {
    forall r :: 0 <= r < h ==> !(RowAt(data, linesize, r) <= j < RowAt(data, linesize, r) + Abs(linesize))
  }

  /** The bytes outside the plane are what they were. */
  ghost predicate KeepsOutside(m: seq<byte>, was: seq<byte>, data: int, linesize: int, h: nat) {
    |m| == |was| && forall j :: 0 <= j < |m| && Outside(j, data, linesize, h) ==> m[j] == was[j]
  }

  // One swap moves the two rows and leaves every other row alone.
  lemma SwapStep(m: seq<byte>, n: seq<byte>, was: seq<byte>, data: int, linesize: int, h: nat, i: nat)
    requires i < h / 2
    requires Swapped(m, was, data, linesize, h, i)
    requires Row(n, data, linesize, i) == Row(m, data, linesize, h - 1 - i)
    requires Row(n, data, linesize, h - 1 - i) == Row(m, data, linesize, i)
    requires forall r :: 0 <= r < h && r != i && r != h - 1 - i ==>
               Row(n, data, linesize, r) == Row(m, data, linesize, r)
    ensures Swapped(n, was, data, linesize, h, i + 1)
  {
    hide Row;
    forall r | 0 <= r < h
      ensures Row(n, data, linesize, r) == Row(was, data, linesize, Source(h, i + 1, r))
    {
      assert Row(m, data, linesize, r) == Row(was, data, linesize, Source(h, i, r));
      assert Row(m, data, linesize, h - 1 - r) == Row(was, data, linesize, Source(h, i, h - 1 - r));
    }
  }

  // One turn of the loop.
  method SwapRows(mem: array<byte>, data: int, linesize: int, h: nat, i: nat)
    requires Fits(mem.Length, data, linesize, h) && i < h / 2
    modifies mem
    ensures Row(mem[..], data, linesize, i) == Row(old(mem[..]), data, linesize, h - 1 - i)
    ensures Row(mem[..], data, linesize, h - 1 - i) == Row(old(mem[..]), data, linesize, i)
    ensures forall r :: 0 <= r < h && r != i && r != h - 1 - i ==>
              Row(mem[..], data, linesize, r) == Row(old(mem[..]), data, linesize, r)
    ensures forall j :: 0 <= j < mem.Length && Outside(j, data, linesize, h) ==> mem[j] == old(mem[j])
  {
    hide RowAt, Outside, Fits, Row;
    ghost var m := mem[..];
    FitsAt(mem.Length, data, linesize, h, i);
    FitsAt(mem.Length, data, linesize, h, h - 1 - i);
    RowsApart(data, linesize, i, h - 1 - i);
    SwapLines(mem, RowAt(data, linesize, i), RowAt(data, linesize, h - 1 - i), Abs(linesize));
    RowsSwapped(m, mem[..], data, linesize, h, i);
  }

  lemma RowsSwapped(m: seq<byte>, n: seq<byte>, data: int, linesize: int, h: nat, i: nat)
    requires |m| == |n| && Fits(|m|, data, linesize, h) && i < h / 2
    requires RowFits(|m|, data, linesize, i) && RowFits(|m|, data, linesize, h - 1 - i)
    requires var a, b, s := RowAt(data, linesize, i), RowAt(data, linesize, h - 1 - i), Abs(linesize);
             n[a..a + s] == m[b..b + s] && n[b..b + s] == m[a..a + s]
             && forall j :: 0 <= j < |m| && !(a <= j < a + s) && !(b <= j < b + s) ==> n[j] == m[j]
    ensures Row(n, data, linesize, i) == Row(m, data, linesize, h - 1 - i)
    ensures Row(n, data, linesize, h - 1 - i) == Row(m, data, linesize, i)
    ensures forall r :: 0 <= r < h && r != i && r != h - 1 - i ==>
              Row(n, data, linesize, r) == Row(m, data, linesize, r)
    ensures forall j :: 0 <= j < |m| && Outside(j, data, linesize, h) ==> n[j] == m[j]
  {
    hide RowAt, Outside, Fits, Row;
    TwoRows(m, n, data, linesize, i, h - 1 - i);
    forall r | 0 <= r < h && r != i && r != h - 1 - i ensures Row(n, data, linesize, r) == Row(m, data, linesize, r) {
      OtherRow(m, n, data, linesize, h, i, r);
    }
    forall j | 0 <= j < |m| && Outside(j, data, linesize, h) ensures n[j] == m[j] {
      OutsideOf(j, data, linesize, h, i);
      OutsideOf(j, data, linesize, h, h - 1 - i);
    }
  }

  lemma TwoRows(m: seq<byte>, n: seq<byte>, data: int, linesize: int, i: int, k: int)
    requires |m| == |n| && RowFits(|m|, data, linesize, i) && RowFits(|m|, data, linesize, k)
    requires var a, b, s := RowAt(data, linesize, i), RowAt(data, linesize, k), Abs(linesize);
             n[a..a + s] == m[b..b + s] && n[b..b + s] == m[a..a + s]
    ensures Row(n, data, linesize, i) == Row(m, data, linesize, k)
    ensures Row(n, data, linesize, k) == Row(m, data, linesize, i)
  {
  }

  lemma OtherRow(m: seq<byte>, n: seq<byte>, data: int, linesize: int, h: nat, i: nat, r: int)
    requires |m| == |n| && Fits(|m|, data, linesize, h) && i < h / 2
    requires 0 <= r < h && r != i && r != h - 1 - i
    requires forall j :: 0 <= j < |m| && !(RowAt(data, linesize, i) <= j < RowAt(data, linesize, i) + Abs(linesize))
                         && !(RowAt(data, linesize, h - 1 - i) <= j < RowAt(data, linesize, h - 1 - i) + Abs(linesize))
                         ==> m[j] == n[j]
    ensures Row(n, data, linesize, r) == Row(m, data, linesize, r)
  {
    hide RowAt, Fits;
    FitsAt(|m|, data, linesize, h, r);
    RowsApart(data, linesize, i, r);
    RowsApart(data, linesize, h - 1 - i, r);
    SameRow(m, n, RowAt(data, linesize, r), Abs(linesize));
  }

  lemma FitsAt(len: nat, data: int, linesize: int, h: nat, r: int)
    requires Fits(len, data, linesize, h) && 0 <= r < h
    ensures RowFits(len, data, linesize, r)
  {
  }

  lemma OutsideOf(j: int, data: int, linesize: int, h: nat, r: int)
    requires Outside(j, data, linesize, h) && 0 <= r < h
    ensures !(RowAt(data, linesize, r) <= j < RowAt(data, linesize, r) + Abs(linesize))
  {
  }

  /** reverse_lines: row r ends up holding what row h-1-r held, and no byte outside the rows
      is touched. */
  method ReverseLines(mem: array<byte>, data: int, linesize: int, h: nat)
    requires Fits(mem.Length, data, linesize, h)
    modifies mem
    ensures Swapped(mem[..], old(mem[..]), data, linesize, h, h)
    ensures forall j :: 0 <= j < mem.Length && Outside(j, data, linesize, h) ==> mem[j] == old(mem[j])
  {
    hide Row, Outside, Fits;
    ghost var was := mem[..];
    var i := 0;
    NoneSwapped(was, data, linesize, h);
    while i < h / 2
      invariant i <= h / 2
      invariant Swapped(mem[..], was, data, linesize, h, i)
      invariant forall j :: 0 <= j < mem.Length && Outside(j, data, linesize, h) ==> mem[j] == was[j]
    {
      ghost var m := mem[..];
      SwapRows(mem, data, linesize, h, i);
      SwapStep(m, mem[..], was, data, linesize, h, i);
      i := i + 1;
    }
    MiddleRow(mem[..], was, data, linesize, h);
  }

  lemma NoneSwapped(m: seq<byte>, data: int, linesize: int, h: nat)
    ensures Swapped(m, m, data, linesize, h, 0)
  {
  }

  lemma SameRow(m: seq<byte>, n: seq<byte>, at: nat, size: nat)
    requires at + size <= |m| == |n|
    requires forall j :: at <= j < at + size ==> m[j] == n[j]
    ensures m[at..at + size] == n[at..at + size]
  {
  }

  lemma MiddleRow(m: seq<byte>, was: seq<byte>, data: int, linesize: int, h: nat)
    requires Swapped(m, was, data, linesize, h, h / 2)
    ensures Swapped(m, was, data, linesize, h, h)
  {
    hide Row;
    assert forall r :: 0 <= r < h ==> Source(h, h, r) == Source(h, h / 2, r);
  }

  /** Two views of a plane show the same picture. */
  ghost predicate SameRows(m: seq<byte>, data: int, linesize: int, was: seq<byte>, data0: int, linesize0: int, h: nat) {
    forall r :: 0 <= r < h ==> Row(m, data, linesize, r) == Row(was, data0, linesize0, r)
  }

  /** Reading the reversed rows from the other end with the stride turned round gives back
      the original picture. */
  lemma TurnedRound(m: seq<byte>, was: seq<byte>, data: int, linesize: int, h: nat)
    requires linesize < 0 && Fits(|m|, data, linesize, h) && Swapped(m, was, data, linesize, h, h)
    ensures Fits(|m|, data + linesize * (h - 1), -linesize, h)
    ensures SameRows(m, data + linesize * (h - 1), -linesize, was, data, linesize, h)
  {
    hide RowAt;
    var data', up := data + linesize * (h - 1), -linesize;
    forall r | 0 <= r < h ensures RowFits(|m|, data', up, r) {
      OtherEnd(data, linesize, h, r);
      assert RowFits(|m|, data, linesize, h - 1 - r);
    }
    forall r | 0 <= r < h ensures Row(m, data', up, r) == Row(was, data, linesize, r) {
      OtherEnd(data, linesize, h, r);
      assert Row(m, data, linesize, h - 1 - r) == Row(was, data, linesize, Source(h, h, h - 1 - r));
    }
  }

  lemma OtherEnd(data: int, linesize: int, h: nat, r: int)
    ensures RowAt(data + linesize * (h - 1), -linesize, r) == RowAt(data, linesize, h - 1 - r)
  {
    assert linesize * (h - 1) + -linesize * r == linesize * (h - 1 - r);
  }

  /** The rows the code turns over in plane i. */
  function CodeRows(height: nat, i: nat): nat {
    if i == 0 then height else height / 2
  }

  /** The rows a YUV420P plane has: chroma planes have half as many, rounded up. */
  function PlaneRows(height: nat, i: nat): nat {
    if i == 0 then height else (height + 1) / 2
  }

  /** Row 0 being the last in the buffer, as for a picture stored bottom-up: the whole plane can
      be read the new way round, with every row as it was, if and only if the code counted
      all its rows, that is for luma and for even heights. With an odd height the last chroma
      row is looked for behind the buffer. */
  lemma WholePlaneExactlyWhen(m: seq<byte>, was: seq<byte>, data: int, linesize: int, height: nat, i: nat)
    requires linesize < 0 && data + Abs(linesize) == |m| && Fits(|m|, data, linesize, PlaneRows(height, i))
    requires Swapped(m, was, data, linesize, CodeRows(height, i), CodeRows(height, i))
    ensures var data' := data + linesize * (CodeRows(height, i) - 1);
            (&& Fits(|m|, data', -linesize, PlaneRows(height, i))
             && SameRows(m, data', -linesize, was, data, linesize, PlaneRows(height, i)))
            <==> i == 0 || height % 2 == 0
    ensures PlaneRows(height, i) - CodeRows(height, i) == if i == 0 then 0 else height % 2
  {
    hide Row;
    var h: int := CodeRows(height, i);
    if h == PlaneRows(height, i) {
      TurnedRound(m, was, data, linesize, h);
    } else {
      OtherEnd(data, linesize, h, h);
      assert !RowFits(|m|, data + linesize * (h - 1), -linesize, h);
    }
  }

  /** The parts of an AVFrame used here; every plane has its own memory. */
  class Frame {
    const yuv420p: bool
    const height: nat
    const mem: seq<array<byte>>
    var data: seq<int>
    var linesize: seq<int>

    constructor (yuv: bool, h: nat, bufs: seq<array<byte>>, d: seq<int>, ls: seq<int>)
      ensures yuv420p == yuv && height == h && mem == bufs && data == d && linesize == ls
    {
      yuv420p, height, mem, data, linesize := yuv, h, bufs, d, ls;
    }

    /** The rows of plane i that are turned over. */
    function Rows(i: nat): nat {
      CodeRows(height, i)
    }

    ghost predicate Valid()
      reads this
    {
      && |mem| == |data| == |linesize| == 4
      && (forall i, j :: 0 <= i < j < 4 ==> mem[i] != mem[j])
      && forall i :: 0 <= i < 4 ==> Fits(mem[i].Length, data[i], linesize[i], Rows(i))
    }

    /** One plane of a YUV420P frame. */
    method Flip(i: nat)
      requires Valid() && i < 4 && linesize[i] < 0
      modifies this, mem[i]
      ensures Valid()
      ensures data == old(data)[i := data[i]] && linesize == old(linesize)[i := -old(linesize)[i]]
      ensures SameRows(mem[i][..], data[i], linesize[i], old(mem[i][..]), old(data)[i], old(linesize)[i], Rows(i))
      ensures forall j :: 0 <= j < mem[i].Length && Outside(j, old(data)[i], old(linesize)[i], Rows(i))
                          ==> mem[i][j] == old(mem[i][j])
    {
      hide Row, RowAt, RowFits;
      var ls, h := linesize[i], Rows(i);
      ReverseLines(mem[i], data[i], ls, h);
      TurnedRound(mem[i][..], old(mem[i][..]), data[i], ls, h);
      var d := data[i] + ls * (h - 1);
      data := data[i := d];
      linesize := linesize[i := Abs(ls)];
    }

    /** avframe_ensure_topdown: afterwards no stride is negative and each of the first Rows(i)
        logical rows of plane i is what it was, and so are the bytes outside the rows and the
        planes whose stride was not negative; other formats are refused if a stride is negative. */
    method EnsureTopdown() returns (err: Errno)
      requires Valid()
      modifies this, mem
      ensures Valid()
      ensures err == if !yuv420p && exists i :: 0 <= i < 4 && old(linesize)[i] < 0 then EPROTO else Ok
      ensures !yuv420p ==> data == old(data) && linesize == old(linesize)
                           && forall i :: 0 <= i < 4 ==> mem[i][..] == old(mem[i][..])
      ensures yuv420p ==> forall i :: 0 <= i < 4 ==> Turned(i, old(mem[i][..]), old(data)[i], old(linesize)[i])
      ensures forall i :: 0 <= i < 4 ==>
                KeepsOutside(mem[i][..], old(mem[i][..]), old(data)[i], old(linesize)[i], Rows(i))
      ensures forall i :: 0 <= i < 4 && old(linesize)[i] >= 0 ==>
                mem[i][..] == old(mem[i][..]) && data[i] == old(data)[i] && linesize[i] == old(linesize)[i]
    {
      var i := 0;
      if yuv420p {
        while i < 4
          invariant Valid() && i <= 4
          invariant forall k :: 0 <= k < i ==> Turned(k, old(mem[k][..]), old(data)[k], old(linesize)[k])
          invariant forall k :: 0 <= k < 4 ==>
                      KeepsOutside(mem[k][..], old(mem[k][..]), old(data)[k], old(linesize)[k], Rows(k))
          invariant forall k :: 0 <= k < 4 && (k >= i || old(linesize)[k] >= 0) ==>
                      mem[k][..] == old(mem[k][..]) && data[k] == old(data)[k] && linesize[k] == old(linesize)[k]
        {
          if linesize[i] < 0 {
            Flip(i);
          }
          i := i + 1;
        }
      } else {
        while i < 4
          invariant i <= 4 && forall k :: 0 <= k < i ==> linesize[k] >= 0
        {
          if linesize[i] < 0 {
            return EPROTO;
          }
          i := i + 1;
        }
      }
      err := Ok;
    }

    /** Plane i top-down, with the rows it had, as far as they are counted. */
    ghost predicate Turned(i: nat, was: seq<byte>, data0: int, linesize0: int)
      requires Valid() && i < 4
      reads this, mem
    {
      && linesize[i] == Abs(linesize0)
      && SameRows(mem[i][..], data[i], linesize[i], was, data0, linesize0, Rows(i))
    }
  }
}
