// RTP header extensions with one-byte headers (RFC 5285 section 4.2).
module RtpExt {
  import opened Bytes

  const TYPE_MAGIC: nat := 0xbede
  const ID_MIN: nat := 1
  const ID_MAX: nat := 14
  const LEN_MIN: nat := 1
  const LEN_MAX: nat := 16
  const MAX_EXTS: nat := 8

  /** `struct rtpext`: both id and len are four-bit fields. */
  datatype Ext = Ext(id: nat, len: nat, data: seq<byte>)

  datatype Result<+T> = Good(value: T) | Bad(err: Errno)

  // ----- one element -----

  function Zeros(n: nat): (z: seq<byte>)
    ensures |z| == n
  {
    if n == 0 then [] else Zeros(n - 1) + [0]
  }

  predicate Encodable(id: nat, data: seq<byte>) {
    ID_MIN <= id <= ID_MAX && LEN_MIN <= |data| <= LEN_MAX
  }

  /** Header byte, data, zeros up to a multiple of four. */
  function Encode(id: nat, data: seq<byte>): (b: seq<byte>)
    requires Encodable(id, data)
    ensures |b| % 4 == 0 && |data| < |b| <= |data| + 4 && b[0] >= 0x10
  {
    [id * 0x10 + (|data| - 1)] + data + Zeros(-(1 + |data|) % 4)
  }

  function SkipZeros(b: seq<byte>): (r: seq<byte>)
    ensures |r| <= |b|
  {
    if b == [] || b[0] != 0 then b else SkipZeros(b[1..])
  }

  /** One element and what follows its padding. The length is kept in four bits, so sixteen
      becomes nothing. */
  function Decode(b: seq<byte>): (r: Result<(Ext, seq<byte>)>)
    ensures r.Good? ==> |r.value.1| < |b|
  {
    if b == [] then Bad(EBADMSG)
    else
      var id, len := b[0] / 0x10, (b[0] % 0x10 + 1) % 0x10;
      if id < ID_MIN || id > ID_MAX then Bad(EBADMSG)
      else if len > |b| - 1 then Bad(ENODATA)
      else Good((Ext(id, len, b[1..1 + len]), SkipZeros(b[1 + len..])))
  }

  /** Exactly the zeros in front are skipped. */
  lemma {:induction false} SkipZerosIs(b: seq<byte>) returns (k: nat)
    ensures k <= |b| && SkipZeros(b) == b[k..]
    ensures (forall i :: 0 <= i < k ==> b[i] == 0) && (k < |b| ==> b[k] != 0)
  {
    if b == [] || b[0] != 0 {
      k := 0;
    } else {
      var j := SkipZerosIs(b[1..]);
      k := j + 1;
      assert forall i :: 0 < i < k ==> b[i] == b[1..][i - 1];
      if k < |b| { assert b[k] == b[1..][j]; }
    }
  }

  /** An id outside 1 to 14 and data cut short are refused, nothing else. */
  lemma DecodeRefuses(b: seq<byte>)
    ensures Decode(b) == Bad(EBADMSG) <==> b == [] || b[0] < 0x10 || b[0] >= 0xf0
    ensures Decode(b) == Bad(ENODATA)
            <==> b != [] && 0x10 <= b[0] < 0xf0 && b[0] % 0x10 != 15 && b[0] % 0x10 + 1 > |b| - 1
    ensures Decode(b).Good? <==> WellFormed(b)
  {
  }

  /** The payload begins with an element that can be read. */
  predicate WellFormed(b: seq<byte>) {
    b != [] && 0x10 <= b[0] < 0xf0 && (b[0] % 0x10 == 15 || b[0] % 0x10 + 2 <= |b|)
  }

  // ----- lists of elements -----

  predicate AllEncodable(xs: seq<Ext>) {
    forall i :: 0 <= i < |xs| ==> Encodable(xs[i].id, xs[i].data) && xs[i].len == |xs[i].data|
  }

  function EncodeAll(xs: seq<Ext>): (b: seq<byte>)
    requires AllEncodable(xs)
    ensures |b| % 4 == 0
    ensures xs == [] <==> b == []
    ensures b != [] ==> b[0] != 0
  {
    if xs == [] then [] else Encode(xs[0].id, xs[0].data) + EncodeAll(xs[1..])
  }

  /** The loop of handle_rtp: at most `room` more elements, until nothing is left. */
  function DecodeAll(b: seq<byte>, room: nat): Result<seq<Ext>>
    decreases room
  {
    if room == 0 || b == [] then Good([])
    else
      match Decode(b)
      case Bad(err) => Bad(err)
      case Good((x, rest)) =>
        match DecodeAll(rest, room - 1)
        case Bad(err) => Bad(err)
        case Good(xs) => Good([x] + xs)
  }

  lemma {:induction false} SkipsExactly(n: nat, rest: seq<byte>)
    requires rest == [] || rest[0] != 0
    ensures SkipZeros(Zeros(n) + rest) == rest
  {
    if n > 0 {
      var z := Zeros(n) + rest;
      ZerosShift(n);
      assert z[1..] == Zeros(n - 1) + rest;
      SkipsExactly(n - 1, rest);
    } else {
      assert Zeros(0) + rest == rest;
    }
  }

  lemma {:induction false} ZerosShift(n: nat)
    requires n > 0
    ensures Zeros(n)[1..] == Zeros(n - 1)
  {
    if n <= 1 {
    } else {
      ZerosShift(n - 1);
      assert (Zeros(n - 1) + [0])[1..] == Zeros(n - 1)[1..] + [0];
    }
  }

  /** Skipping the padding of an element never swallows the next one: an element up to
      fifteen bytes long is read back whole and the rest is untouched. */
  lemma DecodeEncoded(id: nat, data: seq<byte>, rest: seq<byte>)
    requires Encodable(id, data) && |data| <= 15
    requires rest == [] || rest[0] != 0
    ensures Decode(Encode(id, data) + rest) == Good((Ext(id, |data|, data), rest))
  {
    hide SkipZeros, Zeros;
    var n := -(1 + |data|) % 4;
    var h: byte := id * 0x10 + (|data| - 1);
    SkipsExactly(n, rest);
    Layout(h, data, Zeros(n), rest);
    assert h / 0x10 == id && (h % 0x10 + 1) % 0x10 == |data|;
  }

  lemma Layout(h: byte, data: seq<byte>, z: seq<byte>, rest: seq<byte>)
    ensures var b := [h] + data + z + rest;
            b[0] == h && b[1..1 + |data|] == data && b[1 + |data|..] == z + rest
  {
  }

  /** An element of sixteen bytes is read back with length zero. */
  lemma SixteenIsLost(id: nat, data: seq<byte>, rest: seq<byte>)
    requires Encodable(id, data) && |data| == 16
    ensures Decode(Encode(id, data) + rest).Good? && Decode(Encode(id, data) + rest).value.0 == Ext(id, 0, [])
  {
    var b := Encode(id, data) + rest;
    assert b[0] == id * 0x10 + 15;
  }

  predicate AllShort(xs: seq<Ext>) {
    forall i :: 0 <= i < |xs| ==> xs[i].len <= 15
  }

  /** Round trip: a list of encodable elements is read back exactly when there is room for it
      and none is sixteen bytes long. */
  lemma {:induction false} RoundTrip(xs: seq<Ext>, room: nat)
    requires AllEncodable(xs)
    ensures DecodeAll(EncodeAll(xs), room) == Good(xs) <==> |xs| <= room && AllShort(xs)
    decreases |xs|
  {
    hide Decode, Encode;
    if xs == [] || room == 0 {
    } else {
      var x, rest := xs[0], xs[1..];
      assert xs == [x] + rest;
      RoundTrip(rest, room - 1);
      ShortSplit(x, rest);
      if x.len <= 15 {
        DecodeEncoded(x.id, x.data, EncodeAll(rest));
        PrependOne(x, rest, DecodeAll(EncodeAll(rest), room - 1));
      } else {
        SixteenIsLost(x.id, x.data, EncodeAll(rest));
      }
    }
  }

  lemma PrependOne(x: Ext, xs: seq<Ext>, r: Result<seq<Ext>>)
    ensures r.Good? ==> ([x] + r.value == [x] + xs <==> r.value == xs)
  {
    if r.Good? && [x] + r.value == [x] + xs {
      assert ([x] + r.value)[1..] == r.value && ([x] + xs)[1..] == xs;
    }
  }

  lemma ShortSplit(x: Ext, rest: seq<Ext>)
    ensures AllShort([x] + rest) <==> x.len <= 15 && AllShort(rest)
  {
    var xs := [x] + rest;
    assert xs[0] == x && forall i :: 0 <= i < |rest| ==> xs[i + 1] == rest[i];
  }

  /** Elements as any sender may lay them out: each followed by as many zeros as it likes. */
  function Laid(xs: seq<Ext>, pads: seq<nat>): seq<byte>
    requires AllEncodable(xs) && |pads| == |xs|
  {
    if xs == [] then []
    else [xs[0].id * 0x10 + (|xs[0].data| - 1)] + xs[0].data + Zeros(pads[0]) + Laid(xs[1..], pads[1..])
  }

  /** They are all read back, whatever the padding; and when they are as many as there is room
      for, whatever follows them is not looked at. */
  lemma {:induction false} ReadsAny(xs: seq<Ext>, pads: seq<nat>, rest: seq<byte>, room: nat)
    requires AllEncodable(xs) && AllShort(xs) && |pads| == |xs|
    requires |xs| == room || (|xs| < room && rest == [])
    ensures DecodeAll(Laid(xs, pads) + rest, room) == Good(xs)
    decreases |xs|
  {
    hide Decode, Zeros, SkipZeros;
    if xs == [] {
      assert Laid(xs, pads) + rest == rest;
    } else {
      var x, more := xs[0], Laid(xs[1..], pads[1..]);
      assert xs == [x] + xs[1..];
      ReadsAny(xs[1..], pads[1..], rest, room - 1);
      var b := [x.id * 0x10 + (|x.data| - 1)] + x.data + Zeros(pads[0]) + (more + rest);
      assert Laid(xs, pads) + rest == b;
      if more != [] {
        LaidStarts(xs[1..], pads[1..]);
        assert (more + rest)[0] == more[0];
        DecodeLaid(x.id, x.data, pads[0], more + rest);
      } else {
        assert xs[1..] == [];
        DecodeLast(x.id, x.data, pads[0], more + rest);
      }
    }
  }

  lemma LaidStarts(xs: seq<Ext>, pads: seq<nat>)
    requires AllEncodable(xs) && |pads| == |xs|
    ensures Laid(xs, pads) != [] ==> Laid(xs, pads)[0] >= 0x10
    ensures Laid(xs, pads) == [] ==> xs == []
  {
  }

  lemma DecodeLaid(id: nat, data: seq<byte>, pad: nat, rest: seq<byte>)
    requires Encodable(id, data) && |data| <= 15 && (rest == [] || rest[0] != 0)
    ensures Decode([id * 0x10 + (|data| - 1)] + data + Zeros(pad) + rest) == Good((Ext(id, |data|, data), rest))
  {
    hide SkipZeros, Zeros;
    var h: byte := id * 0x10 + (|data| - 1);
    SkipsExactly(pad, rest);
    Layout(h, data, Zeros(pad), rest);
    assert h / 0x10 == id && (h % 0x10 + 1) % 0x10 == |data|;
  }

  lemma DecodeLast(id: nat, data: seq<byte>, pad: nat, rest: seq<byte>)
    requires Encodable(id, data) && |data| <= 15
    ensures var r := Decode([id * 0x10 + (|data| - 1)] + data + Zeros(pad) + rest);
            r.Good? && r.value.0 == Ext(id, |data|, data) && (rest == [] ==> r.value.1 == [])
  {
    hide SkipZeros, Zeros;
    var h: byte := id * 0x10 + (|data| - 1);
    if rest == [] { SkipsExactly(pad, rest); }
    Layout(h, data, Zeros(pad), rest);
    assert h / 0x10 == id && (h % 0x10 + 1) % 0x10 == |data|;
  }

  /** A list longer than the room there is: exactly its first elements are read. */
  lemma FirstOnes(xs: seq<Ext>, pads: seq<nat>, room: nat)
    requires AllEncodable(xs) && AllShort(xs) && |pads| == |xs| && room <= |xs|
    ensures DecodeAll(Laid(xs, pads), room) == Good(xs[..room])
  {
    LaidSplits(xs, pads, room);
    ReadsAny(xs[..room], pads[..room], Laid(xs[room..], pads[room..]), room);
  }

  lemma {:induction false} LaidSplits(xs: seq<Ext>, pads: seq<nat>, k: nat)
    requires AllEncodable(xs) && |pads| == |xs| && k <= |xs|
    ensures Laid(xs, pads) == Laid(xs[..k], pads[..k]) + Laid(xs[k..], pads[k..])
    decreases k
  {
    if k == 0 {
      assert xs[0..] == xs && pads[0..] == pads;
    } else {
      LaidSplits(xs[1..], pads[1..], k - 1);
      assert xs[..k][1..] == xs[1..][..k - 1] && pads[..k][1..] == pads[1..][..k - 1];
      assert xs[1..][k - 1..] == xs[k..] && pads[1..][k - 1..] == pads[k..];
      var head := [xs[0].id * 0x10 + (|xs[0].data| - 1)] + xs[0].data + Zeros(pads[0]);
      Assoc(head, Laid(xs[1..][..k - 1], pads[1..][..k - 1]), Laid(xs[k..], pads[k..]));
    }
  }

  /** One of the first `room` elements is malformed. */
  predicate Malformed(b: seq<byte>, room: nat)
    decreases room
  {
    room > 0 && b != []
    && (!WellFormed(b) || Malformed(SkipZeros(b[1 + (b[0] % 0x10 + 1) % 0x10..]), room - 1))
  }

  lemma {:induction false} BadExactlyWhen(b: seq<byte>, room: nat)
    ensures DecodeAll(b, room).Bad? <==> Malformed(b, room)
    decreases room
  {
    hide SkipZeros;
    if room == 0 || b == [] {
    } else {
      DecodeRefuses(b);
      if WellFormed(b) {
        BadExactlyWhen(SkipZeros(b[1 + (b[0] % 0x10 + 1) % 0x10..]), room - 1);
      }
    }
  }

  // ----- the buffer operations -----

  /** Writing b at position p. */
  function Over(d: seq<byte>, p: nat, b: seq<byte>): seq<byte>
    requires p <= |d|
  {
    d[..p] + b + if p + |b| < |d| then d[p + |b|..] else []
  }

  lemma OverOver(d: seq<byte>, p: nat, a: seq<byte>, b: seq<byte>)
    requires p <= |d|
    ensures p + |a| <= |Over(d, p, a)| && Over(Over(d, p, a), p + |a|, b) == Over(d, p, a + b)
  {
  }

  /** rtpext_hdr_encode: the type and the length in 32-bit words, both 16 bits wide. */
  method HdrEncode(mb: Mbuf, numBytes: nat) returns (err: Errno)
    requires mb.Valid()
    modifies mb
    ensures mb.Valid()
    ensures err == if numBytes == 0 || numBytes % 4 != 0 then EINVAL else Ok
    ensures err != Ok ==> mb.data == old(mb.data) && mb.pos == old(mb.pos)
    ensures err == Ok ==>
              mb.data == Over(old(mb.data), old(mb.pos),
                               [0xbe, 0xde, numBytes / 4 / 0x100 % 0x100, numBytes / 4 % 0x100])
              && mb.pos == old(mb.pos) + 4
  {
    if numBytes == 0 || numBytes % 4 != 0 {
      return EINVAL;
    }
    ghost var d, p := mb.data, mb.pos;
    mb.Write([0xbe, 0xde]);
    OverOver(d, p, [0xbe, 0xde], [numBytes / 4 / 0x100 % 0x100, numBytes / 4 % 0x100]);
    mb.Write([numBytes / 4 / 0x100 % 0x100, numBytes / 4 % 0x100]);
    assert [0xbe, 0xde] + [numBytes / 4 / 0x100 % 0x100, numBytes / 4 % 0x100]
           == [0xbe, 0xde, numBytes / 4 / 0x100 % 0x100, numBytes / 4 % 0x100];
    err := Ok;
  }

  /** rtpext_encode, with its padding loop. */
  method EncodeInto(mb: Mbuf, id: nat, data: seq<byte>) returns (err: Errno)
    requires mb.Valid()
    modifies mb
    ensures mb.Valid()
    ensures err == if Encodable(id, data) then Ok else EINVAL
    ensures err != Ok ==> mb.data == old(mb.data) && mb.pos == old(mb.pos)
    ensures err == Ok ==>
              mb.data == Over(old(mb.data), old(mb.pos), Encode(id, data))
              && mb.pos == old(mb.pos) + |Encode(id, data)|
  {
    if id < ID_MIN || id > ID_MAX {
      return EINVAL;
    }
    if |data| < LEN_MIN || |data| > LEN_MAX {
      return EINVAL;
    }
    ghost var d := mb.data;
    var start := mb.pos;
    var head: seq<byte> := [id * 0x10 + (|data| - 1)];
    assert Over(d, start, []) == d;
    WriteMore(mb, d, start, [], head);
    assert [] + head == head;
    WriteMore(mb, d, start, head, data);
    PadOut(mb, start, d, head + data);
    err := Ok;
  }

  // Writes that follow each other are one write.
  method WriteMore(mb: Mbuf, ghost d: seq<byte>, ghost start: nat, ghost cur: seq<byte>, b: seq<byte>)
    requires mb.Valid() && start <= |d|
    requires mb.data == Over(d, start, cur) && mb.pos == start + |cur|
    modifies mb
    ensures mb.Valid() && mb.data == Over(d, start, cur + b) && mb.pos == start + |cur + b|
  {
    OverOver(d, start, cur, b);
    mb.Write(b);
  }

  method PadOut(mb: Mbuf, start: nat, ghost d: seq<byte>, ghost cur: seq<byte>)
    requires mb.Valid() && start <= |d| && |cur| > 0
    requires mb.data == Over(d, start, cur) && mb.pos == start + |cur|
    modifies mb
    ensures mb.Valid() && mb.data == Over(d, start, cur + Zeros(-|cur| % 4))
    ensures mb.pos == start + |cur| + -|cur| % 4
  {
    hide Over;
    ghost var n := 0;
    assert cur + Zeros(0) == cur;
    while (mb.pos - start) % 4 != 0
      invariant mb.Valid() && n <= -|cur| % 4
      invariant mb.pos == start + |cur| + n
      invariant mb.data == Over(d, start, cur + Zeros(n))
      decreases -|cur| % 4 - n
    {
      WriteMore(mb, d, start, cur + Zeros(n), [0]);
      Assoc(cur, Zeros(n), [0]);
      n := n + 1;
    }
  }

  /** rtpext_decode: reads one element and skips the zeros after it. */
  method DecodeFrom(mb: Mbuf) returns (r: Result<Ext>)
    requires mb.Valid()
    modifies mb`pos
    ensures mb.Valid()
    ensures match Decode(old(mb.Rest()))
            case Bad(err) => r == Bad(err)
            case Good((x, rest)) => r == Good(x) && mb.Rest() == rest
  {
    hide SkipZeros;
    ghost var b := mb.Rest();
    if mb.pos == |mb.data| {
      return Bad(EBADMSG);
    }
    var v := mb.ReadU8();
    var id, len := v / 0x10, (v % 0x10 + 1) % 0x10;
    if id < ID_MIN || id > ID_MAX {
      return Bad(EBADMSG);
    }
    if len > |mb.data| - mb.pos {
      return Bad(ENODATA);
    }
    var data := mb.data[mb.pos..mb.pos + len];
    mb.pos := mb.pos + len;
    assert data == b[1..1 + len] && mb.Rest() == b[1 + len..];
    SkipPadding(mb);
    r := Good(Ext(id, len, data));
  }

  method SkipPadding(mb: Mbuf)
    requires mb.Valid()
    modifies mb`pos
    ensures mb.Valid() && mb.Rest() == SkipZeros(old(mb.Rest()))
  {
    ghost var all := SkipZeros(mb.Rest());
    while mb.pos < |mb.data| && mb.data[mb.pos] == 0
      invariant mb.Valid() && SkipZeros(mb.Rest()) == all
      decreases |mb.data| - mb.pos
    {
      assert mb.data[mb.pos..][1..] == mb.data[mb.pos + 1..];
      mb.pos := mb.pos + 1;
    }
  }

  /** What handle_rtp passes on, or Bad when it drops the packet. */
  function Received(d: seq<byte>, pos: nat, hasExt: bool, xType: nat, xLen: nat): Result<seq<Ext>>
    requires pos <= |d|
  {
    if !hasExt || xLen == 0 || xType != TYPE_MAGIC then Good([])
    else if pos < 4 * xLen then Bad(EBADMSG)
    else DecodeAll(d[pos - 4 * xLen..pos], MAX_EXTS)
  }

  /** handle_rtp up to the call of the handler: the buffer is narrowed to the extension that
      precedes the payload, read, and widened again. A bad extension drops the packet. */
  method HandleRtp(mb: Mbuf, hasExt: bool, xType: nat, xLen: nat) returns (r: Result<seq<Ext>>)
    requires mb.Valid()
    modifies mb
    ensures match Received(old(mb.data), old(mb.pos), hasExt, xType, xLen)
            case Bad(_) => r.Bad?
            case Good(xs) => r == Good(xs) && mb.data == old(mb.data) && mb.pos == old(mb.pos)
    ensures !hasExt || xLen == 0 || xType != 0xbede ==>
              r == Good([]) && mb.data == old(mb.data) && mb.pos == old(mb.pos)
    ensures r.Bad? <==> hasExt && xLen != 0 && xType == 0xbede
                        && (old(mb.pos) < 4 * xLen
                            || Malformed(old(mb.data)[old(mb.pos) - 4 * xLen..old(mb.pos)], 8))
  {
    if hasExt && 4 * xLen <= mb.pos {
      BadExactlyWhen(mb.data[mb.pos - 4 * xLen..mb.pos], MAX_EXTS);
    }
    if !hasExt || xLen == 0 || xType != TYPE_MAGIC {
      return Good([]);
    }
    var pos, all := mb.pos, mb.data;
    var extLen := 4 * xLen;
    if mb.pos < extLen {
      return Bad(EBADMSG);
    }
    mb.pos := mb.pos - extLen;
    mb.data := mb.data[..pos];
    assert mb.Rest() == all[pos - extLen..pos];
    r := ReadExts(mb);
    if r.Good? {
      mb.pos := pos;
      mb.data := all;
    }
  }

  /** The loop of handle_rtp. */
  method ReadExts(mb: Mbuf) returns (r: Result<seq<Ext>>)
    requires mb.Valid()
    modifies mb`pos
    ensures mb.Valid() && r == DecodeAll(old(mb.Rest()), MAX_EXTS)
  {
    hide Decode;
    var exts: seq<Ext> := [];
    ghost var whole := DecodeAll(mb.Rest(), MAX_EXTS);
    if whole.Good? { assert [] + whole.value == whole.value; }
    while |exts| < MAX_EXTS && mb.pos < |mb.data|
      invariant mb.Valid() && |exts| <= MAX_EXTS
      invariant Prepend(exts, DecodeAll(mb.Rest(), MAX_EXTS - |exts|)) == whole
      decreases MAX_EXTS - |exts|
    {
      var x := DecodeFrom(mb);
      if x.Bad? {
        return Bad(x.err);
      }
      PrependStep(exts, x.value, DecodeAll(mb.Rest(), MAX_EXTS - |exts| - 1));
      exts := exts + [x.value];
    }
    r := Good(exts);
    assert exts + [] == exts;
  }

  function Prepend(xs: seq<Ext>, r: Result<seq<Ext>>): Result<seq<Ext>> {
    match r
    case Bad(err) => Bad(err)
    case Good(ys) => Good(xs + ys)
  }

  lemma PrependStep(xs: seq<Ext>, x: Ext, r: Result<seq<Ext>>)
    ensures Prepend(xs + [x], r) == Prepend(xs, Prepend([x], r))
  {
    if r.Good? { assert xs + [x] + r.value == xs + ([x] + r.value); }
  }

  /** End to end: a packet with any header, an extension block holding up to eight elements of
      at most fifteen bytes, and any payload delivers exactly those elements. */
  lemma Delivered(header: seq<byte>, xs: seq<Ext>, payload: seq<byte>)
    requires AllEncodable(xs) && |xs| <= MAX_EXTS && AllShort(xs)
    ensures var b := EncodeAll(xs);
            Received(header + b + payload, |header| + |b|, true, TYPE_MAGIC, |b| / 4) == Good(xs)
  {
    hide DecodeAll, AllEncodable, AllShort;
    var b := EncodeAll(xs);
    RoundTrip(xs, MAX_EXTS);
    var d := header + b + payload;
    assert d[|header|..|header| + |b|] == b;
  }
}
