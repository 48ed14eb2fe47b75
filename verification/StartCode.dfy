// Start codes of an Annex B byte stream: the word-at-a-time search and the units it cuts.
module StartCode {
  import opened Bytes

  const SC: seq<byte> := [0, 0, 1]

  /** A start code with at least one byte after it: what the search looks for. */
  predicate CodeAt(buf: seq<byte>, i: nat) {
    i + 3 < |buf| && buf[i] == 0 && buf[i + 1] == 0 && buf[i + 2] == 1
  }

  /** The naive scan: the least start code at or after i, or the end of the buffer. */
  function Find(buf: seq<byte>, i: nat): (k: nat)
    requires i <= |buf|
    ensures i <= k <= |buf|
    ensures k == |buf| || CodeAt(buf, k)
    ensures forall j :: i <= j < k ==> !CodeAt(buf, j)
    decreases |buf| - i
  {
    if i == |buf| || CodeAt(buf, i) then i else Find(buf, i + 1)
  }

  /** Nothing else meets Find's contract. */
  lemma FindIs(buf: seq<byte>, i: nat, k: nat)
    requires i <= k <= |buf|
    requires k == |buf| || CodeAt(buf, k)
    requires forall j :: i <= j < k ==> !CodeAt(buf, j)
    ensures Find(buf, i) == k
  {
  }

  // ----- the word test -----

  /** Four bytes read as one 32-bit word on a little- or big-endian machine. */
  function Word(a: bv8, b: bv8, c: bv8, d: bv8, bigEndian: bool): bv32 {
    if bigEndian
    then (a as bv32 << 24) | (b as bv32 << 16) | (c as bv32 << 8) | d as bv32
    else (d as bv32 << 24) | (c as bv32 << 16) | (b as bv32 << 8) | a as bv32
  }

  function Mask(x: bv32): bv32 {
    (x - 0x01010101) & !x & 0x80808080
  }

  lemma MaskFindsZeroLittle(a: bv8, b: bv8, c: bv8, d: bv8)
    ensures var x := (a as bv32) | (b as bv32 << 8) | (c as bv32 << 16) | (d as bv32 << 24);
            Mask(x) != 0 <==> a == 0 || b == 0 || c == 0 || d == 0
  {
  }

  lemma WordIsUnion(a: bv8, b: bv8, c: bv8, d: bv8)
    ensures Word(a, b, c, d, false) == (a as bv32) | (b as bv32 << 8) | (c as bv32 << 16) | (d as bv32 << 24)
    ensures Word(a, b, c, d, true) == Word(d, c, b, a, false)
  {
  }

  /** The mask test is nonzero exactly when some byte of the word is zero, on either
      byte order: a byte of value 1 may set its mask bit only above a zero byte. */
  lemma MaskFindsZero(a: bv8, b: bv8, c: bv8, d: bv8, bigEndian: bool)
    ensures Mask(Word(a, b, c, d, bigEndian)) != 0 <==> a == 0 || b == 0 || c == 0 || d == 0
  {
    WordIsUnion(a, b, c, d);
    WordIsUnion(d, c, b, a);
    MaskFindsZeroLittle(a, b, c, d);
    MaskFindsZeroLittle(d, c, b, a);
  }

  lemma ZeroByte(b: byte)
    ensures b as bv8 == 0 <==> b == 0
  {
  }

  /** The word read at an aligned position. */
  function WordAt(buf: seq<byte>, p: nat, bigEndian: bool): (x: bv32)
    requires p + 4 <= |buf|
    ensures Mask(x) != 0 <==> buf[p] == 0 || buf[p + 1] == 0 || buf[p + 2] == 0 || buf[p + 3] == 0
  {
    ZeroByte(buf[p]);
    ZeroByte(buf[p + 1]);
    ZeroByte(buf[p + 2]);
    ZeroByte(buf[p + 3]);
    MaskFindsZero(buf[p] as bv8, buf[p + 1] as bv8, buf[p + 2] as bv8, buf[p + 3] as bv8, bigEndian);
    Word(buf[p] as bv8, buf[p + 1] as bv8, buf[p + 2] as bv8, buf[p + 3] as bv8, bigEndian)
  }

  /** The byte-by-byte loops: from p, looking at positions below end. */
  method ScanBytes(buf: seq<byte>, start: nat, from: nat, end: int) returns (p: nat, found: bool)
    requires start <= from <= |buf| && end <= |buf| - 3
    requires forall j :: start <= j < from ==> !CodeAt(buf, j)
    ensures from <= p <= |buf|
    ensures forall j :: start <= j < p ==> !CodeAt(buf, j)
    ensures if found then p < end && p == Find(buf, start) else p >= end && (p == from || p <= end)
  {
    p := from;
    while p < end
      invariant from <= p <= |buf| && (p == from || p <= end)
      invariant forall j :: start <= j < p ==> !CodeAt(buf, j)
    {
      if buf[p] == 0 && buf[p + 1] == 0 && buf[p + 2] == 1 {
        FindIs(buf, start, p);
        return p, true;
      }
      p := p + 1;
    }
    found := false;
  }

  /** The four positions tested when the word at p has a zero byte. */
  method ScanWord(buf: seq<byte>, p: nat) returns (r: Option<nat>)
    requires p + 6 < |buf|
    ensures match r
            case None => forall j :: p <= j < p + 4 ==> !CodeAt(buf, j)
            case Some(k) => p <= k < p + 4 && CodeAt(buf, k) && forall j :: p <= j < k ==> !CodeAt(buf, j)
  {
    if buf[p + 1] == 0 {
      if buf[p] == 0 && buf[p + 2] == 1 {
        return Some(p);
      }
      if buf[p + 2] == 0 && buf[p + 3] == 1 {
        return Some(p + 1);
      }
    }
    if buf[p + 3] == 0 {
      if buf[p + 2] == 0 && buf[p + 4] == 1 {
        return Some(p + 2);
      }
      if buf[p + 4] == 0 && buf[p + 5] == 1 {
        return Some(p + 3);
      }
    }
    r := None;
  }

  /** The search of the encoders: byte by byte up to a word boundary, then a word at a
      time while six bytes can be read, then byte by byte. `base` is the address of buf[0]. */
  method FindStartcode(buf: seq<byte>, base: nat, start: nat, bigEndian: bool) returns (r: nat)
    requires start <= |buf|
    ensures r == Find(buf, start)
  {
    var a := start + 4 - (base + start) % 4;
    var end: int := |buf| - 3;
    var p, found := ScanBytes(buf, start, start, if a < end then a else end);
    if found {
      return p;
    }
    end := end - 3;
    while p < end
      invariant start <= p <= |buf|
      invariant forall j :: start <= j < p ==> !CodeAt(buf, j)
    {
      var x := WordAt(buf, p, bigEndian);
      if Mask(x) != 0 {
        var k := ScanWord(buf, p);
        if k.Some? {
          FindIs(buf, start, k.value);
          return k.value;
        }
      }
      p := p + 4;
    }
    end := end + 3;
    p, found := ScanBytes(buf, start, p, end);
    if found {
      return p;
    }
    FindIs(buf, start, |buf|);
    return end + 3;
  }

  // ----- units -----

  /** The units of an Annex B stream, each after its start code. */
  function AnnexB(us: seq<seq<byte>>): seq<byte> {
    if us == [] then [] else AnnexB(us[..|us| - 1]) + SC + us[|us| - 1]
  }

  lemma {:induction false} AnnexBConcat(us: seq<seq<byte>>, vs: seq<seq<byte>>)
    ensures AnnexB(us + vs) == AnnexB(us) + AnnexB(vs)
    decreases |vs|
  {
    if vs == [] {
      assert us + vs == us;
    } else {
      var n := |vs| - 1;
      AnnexBConcat(us, vs[..n]);
      var ws := us + vs;
      assert ws[..|ws| - 1] == us + vs[..n] && ws[|ws| - 1] == vs[n];
      Assoc(AnnexB(us), AnnexB(vs[..n]), SC);
      Assoc(AnnexB(us), AnnexB(vs[..n]) + SC, vs[n]);
    }
  }

  lemma AnnexBOne(u: seq<byte>)
    ensures AnnexB([u]) == SC + u
  {
    var us := [u];
    assert us[..0] == [];
  }

  /** The units cut from a buffer from a start code (or the end) on. */
  function UnitsFrom(buf: seq<byte>, r: nat): (us: seq<seq<byte>>)
    requires r == |buf| || CodeAt(buf, r)
    decreases |buf| - r
  {
    if r == |buf| then []
    else [buf[r + 3..Find(buf, r + 3)]] + UnitsFrom(buf, Find(buf, r + 3))
  }

  function Units(buf: seq<byte>): seq<seq<byte>> {
    UnitsFrom(buf, Find(buf, 0))
  }

  /** No start code inside: the three bytes occur nowhere, at the very end included. */
  ghost predicate NoCode(u: seq<byte>) {
    forall i :: 0 <= i && i + 3 <= |u| ==> !(u[i] == 0 && u[i + 1] == 0 && u[i + 2] == 1)
  }

  /** The unit lists that survive: only the last unit may end with a start code (the
      search ignores one with nothing after it), and the last unit is not empty. */
  ghost predicate Splittable(us: seq<seq<byte>>) {
    && (forall i :: 0 <= i < |us| - 1 ==> NoCode(us[i]))
    && (us != [] ==>
          var u := us[|us| - 1];
          u != [] && NoCode(u[..|u| - 1]))
  }

  /** Cutting loses no byte: joining the units again gives back every byte from the
      first start code on, whatever the buffer holds. */
  lemma {:induction false} UnitsRejoin(buf: seq<byte>, r: nat)
    requires r == |buf| || CodeAt(buf, r)
    ensures AnnexB(UnitsFrom(buf, r)) == buf[r..]
    decreases |buf| - r
  {
    if r == |buf| {
    } else {
      var f := Find(buf, r + 3);
      var u, rest := buf[r + 3..f], UnitsFrom(buf, f);
      UnitsRejoin(buf, f);
      AnnexBConcat([u], rest);
      AnnexBOne(u);
      assert buf[r..r + 3] == SC;
      SliceJoin(buf, r, r + 3, f);
    }
  }

  lemma SliceJoin(buf: seq<byte>, a: nat, b: nat, c: nat)
    requires a <= b <= c <= |buf|
    ensures buf[a..b] + buf[b..c] + buf[c..] == buf[a..]
  {
  }

  // What lies between a start code and the next one, or the end.
  lemma CutHidesNone(buf: seq<byte>, r: nat)
    requires CodeAt(buf, r)
    ensures var f := Find(buf, r + 3);
            if f < |buf| then NoCode(buf[r + 3..f]) else f > r + 3 && NoCode(buf[r + 3..f][..f - r - 4])
  {
    var f := Find(buf, r + 3);
    var u := if f < |buf| then buf[r + 3..f] else buf[r + 3..f][..f - r - 4];
    forall i | 0 <= i && i + 3 <= |u| ensures !(u[i] == 0 && u[i + 1] == 0 && u[i + 2] == 1) {
      assert u[i] == buf[r + 3 + i] && u[i + 1] == buf[r + 4 + i] && u[i + 2] == buf[r + 5 + i];
      assert !CodeAt(buf, r + 3 + i);
    }
  }

  /** No unit cut from a buffer hides a start code. */
  lemma {:induction false} UnitsSplittable(buf: seq<byte>, r: nat)
    requires r == |buf| || CodeAt(buf, r)
    ensures Splittable(UnitsFrom(buf, r))
    decreases |buf| - r
  {
    if r == |buf| {
    } else {
      hide NoCode, Find;
      var f := Find(buf, r + 3);
      UnitsSplittable(buf, f);
      CutHidesNone(buf, r);
      var us, rest := UnitsFrom(buf, r), UnitsFrom(buf, f);
      assert us == [buf[r + 3..f]] + rest;
      forall i | 0 <= i < |us| - 1 ensures NoCode(us[i]) {
        if i > 0 { assert us[i] == rest[i - 1]; }
      }
      if rest != [] { assert us[|us| - 1] == rest[|rest| - 1]; }
    }
  }

  lemma {:induction false} UnitsFound(buf: seq<byte>, r: nat, us: seq<seq<byte>>)
    requires r <= |buf| && buf[r..] == AnnexB(us) && Splittable(us)
    ensures r == |buf| || CodeAt(buf, r)
    ensures UnitsFrom(buf, r) == us
    decreases |us|
  {
    if us == [] {
      assert |buf[r..]| == 0;
    } else {
      hide AnnexB, Splittable, NoCode, Find, CodeAt, UnitsFrom;
      var f := r + 3 + |us[0]|;
      FirstUnitAt(buf, r, us);
      UnitsFound(buf, f, us[1..]);
      NotInside(buf, r, us);
      FindIs(buf, r + 3, f);
      ConsUnit(buf, r, us, f);
    }
  }

  lemma ConsUnit(buf: seq<byte>, r: nat, us: seq<seq<byte>>, f: nat)
    requires CodeAt(buf, r) && us != [] && f == Find(buf, r + 3)
    requires buf[r + 3..f] == us[0] && UnitsFrom(buf, f) == us[1..]
    ensures UnitsFrom(buf, r) == us
  {
    assert us == [us[0]] + us[1..];
  }

  lemma NotInside(buf: seq<byte>, r: nat, us: seq<seq<byte>>)
    requires us != [] && Splittable(us) && r + 3 + |us[0]| <= |buf|
    requires buf[r + 3..r + 3 + |us[0]|] == us[0]
    requires if us[1..] == [] then r + 3 + |us[0]| == |buf| else CodeAt(buf, r + 3 + |us[0]|)
    ensures forall j :: r + 3 <= j < r + 3 + |us[0]| ==> !CodeAt(buf, j)
  {
    forall j | r + 3 <= j < r + 3 + |us[0]| ensures !CodeAt(buf, j) {
      NotHere(buf, r + 3 + |us[0]|, us[0], us[1..] == [], j);
    }
  }

  lemma FirstUnitAt(buf: seq<byte>, r: nat, us: seq<seq<byte>>)
    requires r <= |buf| && us != [] && buf[r..] == AnnexB(us) && Splittable(us)
    ensures CodeAt(buf, r) && r + 3 + |us[0]| <= |buf|
    ensures buf[r + 3..r + 3 + |us[0]|] == us[0]
    ensures buf[r + 3 + |us[0]|..] == AnnexB(us[1..]) && Splittable(us[1..])
    ensures us[1..] == [] <==> r + 3 + |us[0]| == |buf|
  {
    var u, rest := us[0], us[1..];
    AnnexBConcat([u], rest);
    AnnexBOne(u);
    assert us == [u] + rest;
    var t := buf[r..];
    var tail := AnnexB(rest);
    assert t == SC + u + tail;
    assert t[3..3 + |u|] == u && t[3 + |u|..] == tail;
    assert forall i :: 0 <= i < |t| ==> t[i] == buf[r + i];
    assert t[0] == 0 && t[1] == 0 && t[2] == 1;
    if rest == [] {
      assert u == us[|us| - 1];
    } else {
      assert rest[|rest| - 1] == us[|us| - 1];
      assert |tail| >= 3;
    }
  }

  // A start code cannot straddle the end of a unit: its third byte would have to be one
  // of the two zeros of the next start code.
  lemma NotHere(buf: seq<byte>, f: nat, u: seq<byte>, last: bool, j: nat)
    requires |u| <= f <= |buf| && f - |u| <= j < f
    requires buf[f - |u|..f] == u
    requires if last then f == |buf| else CodeAt(buf, f)
    requires if last then NoCode(u[..|u| - 1]) else NoCode(u)
    ensures !CodeAt(buf, j)
  {
    var i := j - (f - |u|);
    assert forall k :: 0 <= k < |u| ==> u[k] == buf[f - |u| + k];
    assert forall k :: 0 <= k < |u| - 1 ==> u[..|u| - 1][k] == u[k];
  }

  /** Serialising units and cutting the stream again gives the same units back exactly
      when none of them hides a start code and the last is not empty. */
  lemma SplitInvertsAnnexB(us: seq<seq<byte>>)
    ensures Units(AnnexB(us)) == us <==> Splittable(us)
  {
    var buf := AnnexB(us);
    if Splittable(us) {
      assert buf[0..] == buf;
      UnitsFound(buf, 0, us);
      FindIs(buf, 0, 0);
    }
    UnitsSplittable(buf, Find(buf, 0));
  }

  /** Cutting any buffer and serialising again drops only what precedes the first start code. */
  lemma AnnexBInvertsSplit(buf: seq<byte>)
    ensures AnnexB(Units(buf)) == buf[Find(buf, 0)..]
    ensures Splittable(Units(buf))
  {
    UnitsRejoin(buf, Find(buf, 0));
    UnitsSplittable(buf, Find(buf, 0));
  }
}
