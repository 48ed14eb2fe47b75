// The AV1 packetizer and decoder (payload header of the VP9 draft): a frame is one run of
// packets, and the decoder keeps one frame at a time.
module Av1 {
  import opened Bytes
  import opened Nal
  import opened Reassembly

  const HDR_SIZE: nat := 4

  // ----- the payload header -----

  datatype Hdr = Hdr(x: bool, noref: bool, start: bool, partid: nat,
                     i: bool, l: bool, t: bool, k: bool,
                     picid: nat, tl0picidx: nat, tid: nat, y: bool, keyidx: nat)

  function HdrEncode(noref: bool, start: bool, partid: byte, picid: nat): (h: seq<byte>)
    ensures |h| == HDR_SIZE
  {
    [0x80 + (if noref then 0x20 else 0) + (if start then 0x10 else 0) + partid % 8,
     0x80,
     0x80 + picid / 0x100 % 0x80,
     picid % 0x100]
  }

  /** A picture id of one or two bytes, when there is one. */
  function PicId(b: seq<byte>, present: bool): Option<(nat, seq<byte>)> {
    if !present then Some((0, b))
    else if b == [] then None
    else if b[0] < 0x80 then Some((b[0], b[1..]))
    else if |b| < 2 then None
    else Some((U16(b[0] % 0x80, b[1]), b[2..]))
  }

  function OneByte(b: seq<byte>, present: bool): Option<(byte, seq<byte>)> {
    if !present then Some((0, b))
    else if b == [] then None
    else Some((b[0], b[1..]))
  }

  /** The header and what follows it; None is a truncated header. */
  function HdrDecode(b: seq<byte>): Option<(Hdr, seq<byte>)> {
    if b == [] then None
    else
      var v := b[0];
      var x := v >= 0x80;
      match OneByte(b[1..], x)
      case None => None
      case Some((e, b1)) =>
        var i, l, t, k := e >= 0x80, e / 0x40 % 2 == 1, e / 0x20 % 2 == 1, e / 0x10 % 2 == 1;
        match PicId(b1, i)
        case None => None
        case Some((picid, b2)) =>
          match OneByte(b2, l)
          case None => None
          case Some((tl0, b3)) =>
            match OneByte(b3, t || k)
            case None => None
            case Some((w, b4)) =>
              Some((Hdr(x, v / 0x20 % 2 == 1, v / 0x10 % 2 == 1, v % 8, i, l, t, k,
                        picid, tl0, w / 0x40, w / 0x20 % 2 == 1, w % 0x20), b4))
  }

  /** The decoder reads back what the encoder wrote: three bits of the partition id and
      fifteen of the picture id, and exactly the four header bytes are consumed. */
  lemma HdrRoundTrip(noref: bool, start: bool, partid: byte, picid: nat, body: seq<byte>)
    ensures HdrDecode(HdrEncode(noref, start, partid, picid) + body)
            == Some((Hdr(true, noref, start, partid % 8, true, false, false, false,
                         picid % 0x8000, 0, 0, false, 0), body))
  {
    var h := HdrEncode(noref, start, partid, picid);
    var b := h + body;
    assert b[1..][1..] == [h[2], h[3]] + body;
    HdrBits(noref, start, partid);
    PicIdRoundTrip(picid, body);
  }

  lemma PicIdRoundTrip(picid: nat, body: seq<byte>)
    ensures PicId([0x80 + picid / 0x100 % 0x80, picid % 0x100] + body, true) == Some((picid % 0x8000, body))
  {
    var b: seq<byte> := [0x80 + picid / 0x100 % 0x80, picid % 0x100] + body;
    assert b[2..] == body;
    assert picid / 0x100 % 0x80 * 0x100 + picid % 0x100 == picid % 0x8000;
  }

  lemma HdrBits(noref: bool, start: bool, partid: byte)
    ensures var v := HdrEncode(noref, start, partid, 0)[0];
            v >= 0x80 && (v / 0x20 % 2 == 1) == noref && (v / 0x10 % 2 == 1) == start && v % 8 == partid % 8
  {
  }

  // ----- headers of any sender -----

  /** A header that makes sense: fields that are not there are zero, a picture id that is there
      has 15 bits. */
  predicate Sensible(h: Hdr) {
    && h.partid < 8
    && (!h.x ==> !h.i && !h.l && !h.t && !h.k)
    && (if h.i then h.picid < 0x8000 else h.picid == 0)
    && (if h.l then h.tl0picidx < 0x100 else h.tl0picidx == 0)
    && (if h.t || h.k then h.tid < 4 && h.keyidx < 0x20 else h.tid == 0 && !h.y && h.keyidx == 0)
  }

  function Bit(b: bool, v: byte): byte {
    if b then v else 0
  }

  /** Its first byte, with any reserved bits. */
  function FirstByte(h: Hdr, r: bool, e: bool): byte
    requires Sensible(h)
  {
    Bit(h.x, 0x80) + Bit(r, 0x40) + Bit(h.noref, 0x20) + Bit(h.start, 0x10) + Bit(e, 8) + h.partid
  }

  function FlagBytes(h: Hdr, low: byte): seq<byte>
    requires low < 0x10
  {
    if h.x then [Bit(h.i, 0x80) + Bit(h.l, 0x40) + Bit(h.t, 0x20) + Bit(h.k, 0x10) + low] else []
  }

  /** The picture id in one byte, if it is small enough, or in two. */
  function PicBytes(h: Hdr, wide: bool): seq<byte>
    requires Sensible(h) && (!wide ==> h.picid < 0x80)
  {
    if !h.i then [] else if wide then [0x80 + h.picid / 0x100, h.picid % 0x100] else [h.picid]
  }

  function LevelBytes(h: Hdr): seq<byte>
    requires Sensible(h)
  {
    if h.l then [h.tl0picidx] else []
  }

  function LayerBytes(h: Hdr): seq<byte>
    requires Sensible(h)
  {
    if h.t || h.k then [h.tid * 0x40 + Bit(h.y, 0x20) + h.keyidx] else []
  }

  function HdrBytes(h: Hdr, wide: bool, r: bool, e: bool, low: byte): seq<byte>
    requires Sensible(h) && (!wide ==> h.picid < 0x80) && low < 0x10
  {
    [FirstByte(h, r, e)] + (FlagBytes(h, low) + (PicBytes(h, wide) + (LevelBytes(h) + LayerBytes(h))))
  }

  lemma FirstByteIs(h: Hdr, r: bool, e: bool)
    requires Sensible(h)
    ensures var v := FirstByte(h, r, e);
            && (v >= 0x80) == h.x && (v / 0x20 % 2 == 1) == h.noref && (v / 0x10 % 2 == 1) == h.start
            && v % 8 == h.partid
  {
    assert h.partid < 8;
    hide Sensible;
    var v := FirstByte(h, r, e);
    var top: int := (if h.x then 4 else 0) + (if r then 2 else 0) + if h.noref then 1 else 0;
    var low: int := Bit(e, 8) as int + h.partid;
    assert v == top * 0x20 + Bit(h.start, 0x10) as int + low && low < 0x10;
    assert v / 0x20 == top && v / 0x10 == 2 * top + if h.start then 1 else 0;
  }

  lemma FlagByteIs(h: Hdr, low: byte)
    requires low < 0x10 && h.x
    ensures var e := FlagBytes(h, low)[0];
            && (e >= 0x80) == h.i && (e / 0x40 % 2 == 1) == h.l && (e / 0x20 % 2 == 1) == h.t
            && (e / 0x10 % 2 == 1) == h.k
  {
    var e := FlagBytes(h, low)[0];
    var top: int := (if h.i then 4 else 0) + (if h.l then 2 else 0) + if h.t then 1 else 0;
    assert e == top * 0x20 + Bit(h.k, 0x10) as int + low;
    assert e / 0x20 == top && e / 0x10 == 2 * top + if h.k then 1 else 0;
    assert e / 0x40 == top / 2;
  }

  lemma PicIdIs(h: Hdr, wide: bool, tail: seq<byte>)
    requires Sensible(h) && (!wide ==> h.picid < 0x80)
    ensures PicId(PicBytes(h, wide) + tail, h.i) == Some((h.picid, tail))
  {
    var b := PicBytes(h, wide) + tail;
    if !h.i {
      assert b == tail;
    } else if wide {
      assert b[2..] == tail;
    } else {
      assert b[1..] == tail;
    }
  }

  lemma OneByteIs(v: byte, present: bool, tail: seq<byte>)
    ensures OneByte((if present then [v] else []) + tail, present) == Some((if present then v else 0, tail))
  {
    var b := (if present then [v] else []) + tail;
    assert if present then b[1..] == tail else b == tail;
  }

  lemma LayerByteIs(h: Hdr)
    requires Sensible(h) && (h.t || h.k)
    ensures var w := LayerBytes(h)[0];
            w / 0x40 == h.tid && (w / 0x20 % 2 == 1) == h.y && w % 0x20 == h.keyidx
  {
  }

  lemma AssocFive<T>(a: seq<T>, b: seq<T>, c: seq<T>, d: seq<T>, e: seq<T>, f: seq<T>)
    ensures a + (b + (c + (d + e))) + f == a + (b + (c + (d + (e + f))))
  {
  }

  /** Every header is read back field by field, whatever its optional parts and reserved bits,
      and what follows it is left. */
  lemma AnyHdr(h: Hdr, wide: bool, r: bool, e: bool, low: byte, body: seq<byte>)
    requires Sensible(h) && (!wide ==> h.picid < 0x80) && low < 0x10
    ensures HdrDecode(HdrBytes(h, wide, r, e, low) + body) == Some((h, body))
  {
    hide FirstByte, FlagBytes, PicBytes, LevelBytes, LayerBytes, OneByte, PicId, Sensible;
    var b4 := LayerBytes(h) + body;
    var b3 := LevelBytes(h) + b4;
    var b2 := PicBytes(h, wide) + b3;
    var b1 := FlagBytes(h, low) + b2;
    var b := HdrBytes(h, wide, r, e, low) + body;
    AssocFive([FirstByte(h, r, e)], FlagBytes(h, low), PicBytes(h, wide), LevelBytes(h), LayerBytes(h), body);
    assert b == [FirstByte(h, r, e)] + b1 && b[1..] == b1 && b[0] == FirstByte(h, r, e);
    FirstByteIs(h, r, e);
    FlagPart(h, low, b2);
    PicIdIs(h, wide, b3);
    LevelPart(h, b4);
    LayerPart(h, body);
  }

  lemma FlagPart(h: Hdr, low: byte, tail: seq<byte>)
    requires Sensible(h) && low < 0x10
    ensures var r := OneByte(FlagBytes(h, low) + tail, h.x);
            r.Some? && r.value.1 == tail
            && var e := r.value.0;
               (e >= 0x80) == h.i && (e / 0x40 % 2 == 1) == h.l && (e / 0x20 % 2 == 1) == h.t
               && (e / 0x10 % 2 == 1) == h.k
  {
    if h.x {
      FlagByteIs(h, low);
      OneByteIs(FlagBytes(h, low)[0], true, tail);
    } else {
      OneByteIs(0, false, tail);
    }
  }

  lemma LevelPart(h: Hdr, tail: seq<byte>)
    requires Sensible(h)
    ensures OneByte(LevelBytes(h) + tail, h.l) == Some((h.tl0picidx, tail))
  {
    OneByteIs(if h.l then h.tl0picidx else 0, h.l, tail);
  }

  lemma LayerPart(h: Hdr, tail: seq<byte>)
    requires Sensible(h)
    ensures var r := OneByte(LayerBytes(h) + tail, h.t || h.k);
            r.Some? && r.value.1 == tail
            && var w := r.value.0;
               w / 0x40 == h.tid && (w / 0x20 % 2 == 1) == h.y && w % 0x20 == h.keyidx
  {
    if h.t || h.k {
      LayerByteIs(h);
      OneByteIs(LayerBytes(h)[0], true, tail);
    } else {
      OneByteIs(0, false, tail);
    }
  }

  lemma LongerPicId(b: seq<byte>, present: bool, c: seq<byte>)
    ensures PicId(b, present).Some? ==>
              PicId(b + c, present) == Some((PicId(b, present).value.0, PicId(b, present).value.1 + c))
  {
    if present && b != [] {
      assert (b + c)[1..] == b[1..] + c;
      if |b| >= 2 { assert (b + c)[2..] == b[2..] + c; }
    }
  }

  lemma LongerOneByte(b: seq<byte>, present: bool, c: seq<byte>)
    ensures OneByte(b, present).Some? ==>
              OneByte(b + c, present) == Some((OneByte(b, present).value.0, OneByte(b, present).value.1 + c))
  {
    if present && b != [] { assert (b + c)[1..] == b[1..] + c; }
  }

  // Bytes behind a header that can be read do not change it.
  lemma LongerHdr(b: seq<byte>, c: seq<byte>)
    requires HdrDecode(b).Some?
    ensures HdrDecode(b + c) == Some((HdrDecode(b).value.0, HdrDecode(b).value.1 + c))
  {
    hide PicId, OneByte;
    assert (b + c)[1..] == b[1..] + c && (b + c)[0] == b[0];
    var x := b[0] >= 0x80;
    LongerOneByte(b[1..], x, c);
    var (e, b1) := OneByte(b[1..], x).value;
    LongerPicId(b1, e >= 0x80, c);
    var (_, b2) := PicId(b1, e >= 0x80).value;
    LongerOneByte(b2, e / 0x40 % 2 == 1, c);
    var (_, b3) := OneByte(b2, e / 0x40 % 2 == 1).value;
    LongerOneByte(b3, e / 0x20 % 2 == 1 || e / 0x10 % 2 == 1, c);
  }

  /** A header cut short anywhere is refused. */
  lemma TruncatedHdr(h: Hdr, wide: bool, r: bool, e: bool, low: byte, n: nat)
    requires Sensible(h) && (!wide ==> h.picid < 0x80) && low < 0x10
    requires n < |HdrBytes(h, wide, r, e, low)|
    ensures HdrDecode(HdrBytes(h, wide, r, e, low)[..n]) == None
  {
    hide HdrDecode, HdrBytes, Sensible;
    var b := HdrBytes(h, wide, r, e, low);
    AnyHdr(h, wide, r, e, low, []);
    assert b + [] == b && b[..n] + b[n..] == b;
    if HdrDecode(b[..n]).Some? { LongerHdr(b[..n], b[n..]); }
  }

  // ----- sending -----

  /** One frame as the encoder library hands it over. */
  datatype Frame = Frame(noref: bool, partid: byte, picid: nat, buf: seq<byte>)

  function FramePackets(f: Frame, start: bool, buf: seq<byte>, sz: nat, marker: bool): seq<Packet>
    requires sz > 0
    decreases |buf|
  {
    var h := HdrEncode(f.noref, start, f.partid, f.picid);
    if |buf| <= sz then [Packet(marker, h + buf)]
    else [Packet(false, h + buf[..sz])] + FramePackets(f, false, buf[sz..], sz, marker)
  }

  /** One packet of a frame, read off its bytes: the start bit, the marker, the frame's own header
      fields and a piece of its bytes. */
  predicate PieceOf(p: Packet, f: Frame, piece: seq<byte>, start: bool, marker: bool) {
    && p.marker == marker && |p.pld| == 4 + |piece| && p.pld[4..] == piece
    && p.pld[0] == 0x80 + (if f.noref then 0x20 else 0) + (if start then 0x10 else 0) + f.partid % 8
    && p.pld[1] == 0x80 && p.pld[2] == 0x80 + f.picid / 0x100 % 0x80 && p.pld[3] == f.picid % 0x100
  }

  lemma HdrIsPiece(f: Frame, start: bool, piece: seq<byte>, marker: bool)
    ensures PieceOf(Packet(marker, HdrEncode(f.noref, start, f.partid, f.picid) + piece), f, piece, start, marker)
  {
  }

  /** The packets of a frame, whatever the marker: the pieces are full but for the last and join
      to the frame, the start bit is on the first, the marker at most on the last. */
  lemma {:induction false} FrameShape(f: Frame, start: bool, buf: seq<byte>, sz: nat, marker: bool)
    requires sz > 0
    ensures var ps, pieces := FramePackets(f, start, buf, sz, marker), Chop(buf, sz);
            && |ps| == |pieces| && Join(pieces) == buf
            && forall i :: 0 <= i < |ps| ==>
                 |pieces[i]| <= sz && PieceOf(ps[i], f, pieces[i], start && i == 0, marker && i == |ps| - 1)
    decreases |buf|
  {
    hide PieceOf, HdrEncode;
    ChopFacts(buf, sz);
    if |buf| <= sz {
      HdrIsPiece(f, start, buf, marker);
    } else {
      FrameShape(f, false, buf[sz..], sz, marker);
      HdrIsPiece(f, start, buf[..sz], false);
      var ps, pieces := FramePackets(f, start, buf, sz, marker), Chop(buf, sz);
      var ps', pieces' := FramePackets(f, false, buf[sz..], sz, marker), Chop(buf[sz..], sz);
      assert ps[1..] == ps' && pieces[1..] == pieces';
      hide FramePackets, Chop;
      forall i | 0 <= i < |ps|
        ensures |pieces[i]| <= sz && PieceOf(ps[i], f, pieces[i], start && i == 0, marker && i == |ps| - 1)
      {
        if i > 0 { assert ps[i] == ps'[i - 1] && pieces[i] == pieces'[i - 1]; }
      }
    }
  }

  /** av1 packetize; the encoder refuses a pktsize that leaves no room for a byte. */
  method Packetize(f: Frame, marker: bool, pktsize: nat) returns (pkts: seq<Packet>)
    requires pktsize > HDR_SIZE
    ensures pkts == FramePackets(f, true, f.buf, pktsize - HDR_SIZE, marker)
  {
    var sz := pktsize - HDR_SIZE;
    var b, start := f.buf, true;
    pkts := [];
    while |b| > sz
      invariant pkts + FramePackets(f, start, b, sz, marker) == FramePackets(f, true, f.buf, sz, marker)
      decreases |b|
    {
      var hdr := HdrEncode(f.noref, start, f.partid, f.picid);
      ghost var rest := FramePackets(f, false, b[sz..], sz, marker);
      assert FramePackets(f, start, b, sz, marker) == [Packet(false, hdr + b[..sz])] + rest;
      Assoc(pkts, [Packet(false, hdr + b[..sz])], rest);
      pkts := pkts + [Packet(false, hdr + b[..sz])];
      b := b[sz..];
      start := false;
    }
    pkts := pkts + [Packet(marker, HdrEncode(f.noref, start, f.partid, f.picid) + b)];
  }

  // ----- receiving -----

  datatype AvState = AvState(mb: seq<byte>, started: bool, seqno: nat)

  datatype AvOutcome = AvOutcome(st: AvState, given: Option<seq<byte>>, err: Errno)

  /** The end of av1_decode, up to and including the call of the codec library, with the packet's
      bytes in the buffer. */
  function AvFinish(mb: seq<byte>, marker: bool, seqno: nat, refused: bool): AvOutcome {
    if marker then AvOutcome(AvState([], false, seqno), Some(mb), if refused then EPROTO else Ok)
    else if |mb| > DECODE_MAXSZ then AvOutcome(AvState([], false, seqno), None, ENOMEM)
    else AvOutcome(AvState(mb, true, seqno), None, Ok)
  }

  /** av1_decode once the header is read. */
  function AvBody(st: AvState, isStart: bool, body: seq<byte>, marker: bool, seqno: nat, refused: bool): AvOutcome {
    if !isStart && !st.started then AvOutcome(st, None, Ok)
    else if !isStart && !NextSeq(st.seqno, seqno) then AvOutcome(AvState([], false, st.seqno), None, Ok)
    else AvFinish((if isStart then [] else st.mb) + body, marker, seqno, refused)
  }

  function AvStep(st: AvState, p: seq<byte>, marker: bool, seqno: nat, refused: bool): AvOutcome {
    match HdrDecode(p)
    case None => AvOutcome(st, None, EBADMSG)
    case Some((h, body)) => AvBody(st, h.start && h.partid == 0, body, marker, seqno, refused)
  }

  /** What a packet does, read off its header: without a frame being collected, packets that
      start none are ignored; one that is not the next ends the collecting; all others add
      their bytes, and the marker hands the frame over. */
  predicate PacketDone(o: AvOutcome, st: AvState, h: Hdr, body: seq<byte>, marker: bool, seqno: nat, refused: bool) {
    var starts := h.start && h.partid == 0;
    var all := if starts then body else st.mb + body;
    if !starts && !st.started then o == AvOutcome(st, None, Ok)
    else if !starts && (seqno - st.seqno) % 0x10000 != 1 then
      o.st.mb == [] && !o.st.started && o.given == None && o.err == Ok
    else if marker then
      o.st.mb == [] && !o.st.started && o.given == Some(all) && o.err == if refused then EPROTO else Ok
    else if |all| > 524288 then o.st.mb == [] && !o.st.started && o.given == None && o.err == ENOMEM
    else o == AvOutcome(AvState(all, true, seqno), None, Ok)
  }

  /** For every header of any sender; and a packet whose header is cut short changes nothing. */
  lemma AnyPacket(st: AvState, h: Hdr, wide: bool, r: bool, e: bool, low: byte, body: seq<byte>, marker: bool,
                  seqno: nat, refused: bool)
    requires Sensible(h) && (!wide ==> h.picid < 0x80) && low < 0x10
    ensures var b := HdrBytes(h, wide, r, e, low);
            && PacketDone(AvStep(st, b + body, marker, seqno, refused), st, h, body, marker, seqno, refused)
            && forall n :: 0 <= n < |b| ==>
                 AvStep(st, b[..n], marker, seqno, refused) == AvOutcome(st, None, EBADMSG)
  {
    hide HdrDecode, HdrBytes, Sensible;
    var b := HdrBytes(h, wide, r, e, low);
    AnyHdr(h, wide, r, e, low, body);
    assert [] + body == body;
    forall n | 0 <= n < |b| ensures AvStep(st, b[..n], marker, seqno, refused) == AvOutcome(st, None, EBADMSG) {
      TruncatedHdr(h, wide, r, e, low, n);
    }
  }

  class Decoder {
    const mb: Mbuf
    var started: bool
    var seqno: nat
    var given: seq<seq<byte>>

    ghost predicate Valid()
      reads this, mb
    {
      mb.Valid() && mb.pos == |mb.data|
    }

    ghost function Abs(): AvState
      reads this, mb
    {
      AvState(mb.data, started, seqno)
    }

    constructor ()
      ensures Valid() && fresh(mb)
      ensures Abs() == AvState([], false, 0) && given == []
    {
      mb := new Mbuf();
      started, seqno, given := false, 0, [];
    }

    method ReadByte(src: Mbuf, present: bool) returns (v: byte, ok: bool)
      requires src.Valid()
      modifies src`pos
      ensures src.Valid()
      ensures match OneByte(old(src.Rest()), present)
              case None => !ok
              case Some((w, rest)) => ok && v == w && src.Rest() == rest
    {
      v, ok := 0, true;
      if present {
        if src.pos == |src.data| {
          return 0, false;
        }
        v := src.ReadU8();
      }
    }

    method ReadPicId(src: Mbuf, present: bool) returns (picid: nat, ok: bool)
      requires src.Valid()
      modifies src`pos
      ensures src.Valid()
      ensures match PicId(old(src.Rest()), present)
              case None => !ok
              case Some((p, rest)) => ok && picid == p && src.Rest() == rest
    {
      picid, ok := 0, true;
      if present {
        ghost var b := src.Rest();
        var p, q;
        p, ok := ReadByte(src, true);
        if !ok {
          return;
        }
        picid := p;
        if p >= 0x80 {
          q, ok := ReadByte(src, true);
          picid := U16(p % 0x80, q);
          assert ok ==> src.Rest() == b[2..];
        }
      }
    }

    /** hdr_decode: consumes the header, field by field. */
    method DecodeHdr(src: Mbuf) returns (h: Option<Hdr>)
      requires src.Valid()
      modifies src`pos
      ensures src.Valid()
      ensures match HdrDecode(old(src.Rest()))
              case None => h.None?
              case Some((hdr, rest)) => h == Some(hdr) && src.Rest() == rest
    {
      hide PicId;
      var v, ok := ReadByte(src, true);
      if !ok {
        return None;
      }
      var x := v >= 0x80;
      var e;
      e, ok := ReadByte(src, x);
      if !ok {
        return None;
      }
      var i, l, t, k := e >= 0x80, e / 0x40 % 2 == 1, e / 0x20 % 2 == 1, e / 0x10 % 2 == 1;
      var picid;
      picid, ok := ReadPicId(src, i);
      if !ok {
        return None;
      }
      var tl0;
      tl0, ok := ReadByte(src, l);
      if !ok {
        return None;
      }
      var w;
      w, ok := ReadByte(src, t || k);
      if !ok {
        return None;
      }
      h := Some(Hdr(x, v / 0x20 % 2 == 1, v / 0x10 % 2 == 1, v % 8, i, l, t, k,
                    picid, tl0, w / 0x40, w / 0x20 % 2 == 1, w % 0x20));
    }

    method Decode(marker: bool, number: nat, src: Mbuf, refused: bool) returns (err: Errno)
      requires Valid() && src.Valid() && src != mb
      modifies this, mb, src`pos
      ensures Valid()
      ensures var o := AvStep(old(Abs()), old(src.Rest()), marker, number, refused);
              && Abs() == o.st && err == o.err
              && given == old(given) + match o.given { case None => [] case Some(b) => [b] }
    {
      hide HdrDecode, NextSeq, AvFinish;
      var hdr := DecodeHdr(src);
      if hdr.None? {
        return EBADMSG;
      }
      var h := hdr.value;
      if h.start && h.partid == 0 {
        mb.Rewind();
        started := true;
      } else {
        if !started {
          return Ok;
        }
        if !NextSeq(seqno, number) {
          mb.Rewind();
          started := false;
          return Ok;
        }
      }
      seqno := number;
      ghost var m, body := mb.data, src.Rest();
      mb.Write(src.Rest());
      assert mb.data == m + body;
      err := Finish(marker, refused);
    }

    /** The end of av1_decode. */
    method Finish(marker: bool, refused: bool) returns (err: Errno)
      requires Valid() && started
      modifies this`started, this`given, mb
      ensures Valid()
      ensures var o := AvFinish(old(mb.data), marker, seqno, refused);
              && Abs() == o.st && err == o.err
              && given == old(given) + match o.given { case None => [] case Some(b) => [b] }
    {
      if !marker {
        if |mb.data| > DECODE_MAXSZ {
          mb.Rewind();
          started := false;
          return ENOMEM;
        }
        return Ok;
      }
      given := given + [mb.data];
      err := if refused then EPROTO else Ok;
      mb.Rewind();
      started := false;
    }
  }
}
