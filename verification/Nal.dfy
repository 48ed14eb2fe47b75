// NAL units and the RTP payloads that carry them: RFC 6184 sections 5.6 and 5.8 (H.264),
// RFC 7798 sections 4.4.1 and 4.4.3 (H.265). One NAL unit is one packet when it fits,
// and a run of fragmentation units when it does not.
module Nal {
  import opened Bytes
  import opened StartCode

  datatype Codec = H264 | H265

  /** What the encoder hands to the packet handler, header and payload joined. */
  datatype Packet = Packet(marker: bool, pld: seq<byte>)

  const H264_SLICE: byte := 1
  const H264_STAP_A: byte := 24
  const H264_FU_A: byte := 28
  const H265_AP: byte := 48
  const H265_FU: byte := 49

  // ----- headers -----

  function H264Type(h: byte): byte {
    h % 0x20
  }

  /** The two NRI bits, below the forbidden bit. */
  function Nri(h: byte): byte {
    h % 0x80 / 0x20
  }

  function FuIndicator(h: byte): byte {
    Nri(h) * 0x20 + H264_FU_A
  }

  datatype H265Hdr = H265Hdr(typ: byte, tid: byte)

  /** h265_nal_decode: the forbidden bit and the layer id must be zero. */
  function H265Decode(p0: byte, p1: byte): (h: Option<H265Hdr>)
    ensures h.Some? ==> H265Encode(h.value.typ, h.value.tid) == [p0, p1]
  {
    if p0 / 0x80 != 0 || p0 % 2 * 0x20 + p1 / 8 != 0 then None
    else Some(H265Hdr(p0 / 2 % 0x40, p1 % 8))
  }

  function H265Encode(typ: byte, tid: byte): seq<byte> {
    [typ % 0x40 * 2, tid % 8]
  }

  /** The two bytes carry exactly six bits of type and three bits of temporal id. */
  lemma H265HdrRoundTrip(typ: byte, tid: byte)
    ensures H265Decode(H265Encode(typ, tid)[0], H265Encode(typ, tid)[1]) == Some(H265Hdr(typ % 0x40, tid % 8))
  {
  }

  // ----- packets of one unit -----

  function ClearStart(fu: byte): byte {
    fu % 0x80
  }

  function SetEnd(fu: byte): byte {
    if fu % 0x80 < 0x40 then fu + 0x40 else fu
  }

  /** The start bit is set in `fu` and cleared after the first fragment; the end bit is added. */
  function FuByte(fu: byte, first: bool, end: bool): byte {
    var f: byte := if first then fu else ClearStart(fu);
    if end then SetEnd(f) else f
  }

  function Fu(pre: seq<byte>, fu: byte, piece: seq<byte>, first: bool, end: bool, marker: bool): Packet {
    Packet(marker && end, pre + [FuByte(fu, first, end)] + piece)
  }

  /** The fragments of a body: every payload starts with `pre` and a fragment header. */
  function FuPackets(pre: seq<byte>, fu: byte, first: bool, body: seq<byte>, sz: nat, last: bool, marker: bool)
    : seq<Packet>
    requires sz > 0
    decreases |body|
  {
    if |body| <= sz then [Fu(pre, fu, body, first, last, marker)]
    else [Fu(pre, fu, body[..sz], first, false, marker)] + FuPackets(pre, fu, false, body[sz..], sz, last, marker)
  }

  /** The packets of an H.264 NAL unit given as header and body. */
  function H264Nal(first: bool, last: bool, marker: bool, hdr: byte, body: seq<byte>, maxsz: nat): seq<Packet>
    requires maxsz > 2
  {
    if first && last && |body| <= maxsz then [Packet(marker, [hdr] + body)]
    else FuPackets([FuIndicator(hdr)], if first then 0x80 + H264Type(hdr) else H264Type(hdr),
                   true, body, maxsz - 2, last, marker)
  }

  /** A long unit whose header H265Decode refuses is not sent at all. */
  function H265Nal(marker: bool, u: seq<byte>, maxlen: nat): seq<Packet>
    requires maxlen > 3
  {
    if |u| <= maxlen then [Packet(marker, u)]
    else
      match H265Decode(u[0], u[1])
      case None => []
      case Some(h) => FuPackets(H265Encode(H265_FU, h.tid), 0x80 + h.typ % 0x40, true, u[2..], maxlen - 3, true, marker)
  }

  /** Room for the fragment headers and one byte more. */
  predicate SizeOk(codec: Codec, pktsize: nat) {
    match codec
    case H264 => pktsize > 2
    case H265 => pktsize > 3
  }

  function UnitPackets(codec: Codec, u: seq<byte>, marker: bool, pktsize: nat): seq<Packet>
    requires SizeOk(codec, pktsize) && (codec.H264? ==> u != [])
  {
    match codec
    case H264 => H264Nal(true, true, marker, u[0], u[1..], pktsize)
    case H265 => H265Nal(marker, u, pktsize)
  }

  /** The H.264 sender takes the first byte of every unit; the H.265 sender does not care. */
  predicate Sendable(codec: Codec, us: seq<seq<byte>>) {
    codec.H264? ==> forall i :: 0 <= i < |us| ==> us[i] != []
  }

  /** The packets of the first k units of an access unit; the marker goes with the last. */
  function PacketsUpto(codec: Codec, us: seq<seq<byte>>, k: nat, pktsize: nat): seq<Packet>
    requires SizeOk(codec, pktsize) && Sendable(codec, us) && k <= |us|
  {
    if k == 0 then []
    else PacketsUpto(codec, us, k - 1, pktsize) + UnitPackets(codec, us[k - 1], k == |us|, pktsize)
  }

  // ----- the shape of fragments -----

  function Chop(body: seq<byte>, sz: nat): (pieces: seq<seq<byte>>)
    requires sz > 0
    ensures pieces != []
    decreases |body|
  {
    if |body| <= sz then [body] else [body[..sz]] + Chop(body[sz..], sz)
  }

  function Join(pieces: seq<seq<byte>>): seq<byte> {
    if pieces == [] then [] else pieces[0] + Join(pieces[1..])
  }

  /** Pieces join to the body; all but the last are full, none is empty unless the body is. */
  lemma {:induction false} ChopFacts(body: seq<byte>, sz: nat)
    requires sz > 0
    ensures var ps := Chop(body, sz);
            && Join(ps) == body
            && (|ps| >= 2 <==> |body| > sz)
            && (forall i :: 0 <= i < |ps| - 1 ==> |ps[i]| == sz)
            && (forall i :: 0 <= i < |ps| ==> |ps[i]| <= sz && (body != [] ==> ps[i] != []))
    decreases |body|
  {
    var ps := Chop(body, sz);
    if |body| <= sz {
      assert ps[1..] == [];
      assert Join(ps) == ps[0] + Join(ps[1..]);
    } else {
      ChopFacts(body[sz..], sz);
      var rest := Chop(body[sz..], sz);
      assert ps[1..] == rest;
      assert forall i :: 1 <= i < |ps| ==> ps[i] == rest[i - 1];
    }
  }

  /** The fragments in closed form: start bit on the first, end bit and marker on the last. */
  lemma {:induction false} FuPacketsAre(pre: seq<byte>, fu: byte, first: bool, body: seq<byte>, sz: nat,
                                        last: bool, marker: bool)
    requires sz > 0
    ensures var ps := FuPackets(pre, fu, first, body, sz, last, marker);
            && |ps| == |Chop(body, sz)|
            && forall i :: 0 <= i < |ps| ==>
                 ps[i] == Fu(pre, fu, Chop(body, sz)[i], first && i == 0, last && i == |ps| - 1, marker)
    decreases |body|
  {
    hide Fu;
    if |body| <= sz {
    } else {
      FuPacketsAre(pre, fu, false, body[sz..], sz, last, marker);
      FuPacketsCons(pre, fu, first, body[..sz], FuPackets(pre, fu, false, body[sz..], sz, last, marker),
                    Chop(body[sz..], sz), last, marker);
    }
  }

  // One more fragment in front.
  lemma FuPacketsCons(pre: seq<byte>, fu: byte, first: bool, piece: seq<byte>, ps: seq<Packet>, pieces: seq<seq<byte>>,
                      last: bool, marker: bool)
    requires |ps| == |pieces| > 0
    requires forall i :: 0 <= i < |ps| ==> ps[i] == Fu(pre, fu, pieces[i], false, last && i == |ps| - 1, marker)
    ensures var qs, all := [Fu(pre, fu, piece, first, false, marker)] + ps, [piece] + pieces;
            forall i :: 0 <= i < |qs| ==> qs[i] == Fu(pre, fu, all[i], first && i == 0, last && i == |qs| - 1, marker)
  {
    hide Fu;
    var qs, all := [Fu(pre, fu, piece, first, false, marker)] + ps, [piece] + pieces;
    forall i | 0 <= i < |qs|
      ensures qs[i] == Fu(pre, fu, all[i], first && i == 0, last && i == |qs| - 1, marker)
    {
      if i > 0 { assert qs[i] == ps[i - 1] && all[i] == pieces[i - 1]; }
    }
  }

  /** A fragment says whose it is: the unit's type, start and end bits, then its piece. */
  predicate Fragment(codec: Codec, u: seq<byte>, piece: seq<byte>, pkt: Packet, start: bool, end: bool, marker: bool)
    requires |u| >= 2
  {
    var p := pkt.pld;
    && (pkt.marker <==> marker && end)
    && match codec
       case H264 =>
         && |p| > 2 && p[2..] == piece
         && H264Type(p[0]) == H264_FU_A && p[0] / 0x20 == Nri(u[0])
         && H264Type(p[1]) == H264Type(u[0])
         && (p[1] >= 0x80 <==> start) && (p[1] % 0x80 >= 0x40 <==> end)
       case H265 =>
         && |p| > 3 && p[3..] == piece
         && H265Decode(u[0], u[1]).Some?
         && H265Decode(p[0], p[1]) == Some(H265Hdr(H265_FU, H265Decode(u[0], u[1]).value.tid))
         && p[2] % 0x40 == H265Decode(u[0], u[1]).value.typ
         && (p[2] >= 0x80 <==> start) && (p[2] % 0x80 >= 0x40 <==> end)
  }

  function HdrLen(codec: Codec): nat {
    match codec
    case H264 => 1
    case H265 => 2
  }

  /** When a unit goes out in fragments. */
  predicate Splits(codec: Codec, u: seq<byte>, pktsize: nat) {
    match codec
    case H264 => |u| > pktsize + 1
    case H265 => |u| > pktsize && |u| >= 2 && H265Decode(u[0], u[1]).Some?
  }

  /** A unit that does not fit: at least two fragments of at most pktsize bytes, start bit
      exactly on the first, end bit exactly on the last, marker at most on the last, the
      unit's type in every fragment header, and bodies that are the unit after its header. */
  lemma FragmentShape(codec: Codec, u: seq<byte>, marker: bool, pktsize: nat)
    requires SizeOk(codec, pktsize) && Splits(codec, u, pktsize)
    ensures var ps := UnitPackets(codec, u, marker, pktsize);
            var h := HdrLen(codec) + 1;
            var pieces := Chop(u[h - 1..], pktsize - h);
            && |ps| == |pieces| >= 2
            && Join(pieces) == u[h - 1..]
            && forall i :: 0 <= i < |ps| ==>
                 && |ps[i].pld| <= pktsize
                 && Fragment(codec, u, pieces[i], ps[i], i == 0, i == |ps| - 1, marker)
  {
    SplitPackets(codec, u, marker, pktsize);
    var h := HdrLen(codec) + 1;
    ChopFacts(u[h - 1..], pktsize - h);
    var ps, pieces := UnitPackets(codec, u, marker, pktsize), Chop(u[h - 1..], pktsize - h);
    forall i | 0 <= i < |ps|
      ensures |ps[i].pld| <= pktsize
      ensures Fragment(codec, u, pieces[i], ps[i], i == 0, i == |ps| - 1, marker)
    {
      FuOfIsFragment(codec, u, pieces[i], i == 0, i == |ps| - 1, marker);
    }
  }

  /** One fragment of a unit that splits. */
  function FuOf(codec: Codec, u: seq<byte>, piece: seq<byte>, first: bool, end: bool, marker: bool): Packet
    requires |u| >= 2 && (codec.H265? ==> H265Decode(u[0], u[1]).Some?)
  {
    match codec
    case H264 => Fu([FuIndicator(u[0])], 0x80 + H264Type(u[0]), piece, first, end, marker)
    case H265 =>
      var h := H265Decode(u[0], u[1]).value;
      Fu(H265Encode(H265_FU, h.tid), 0x80 + h.typ % 0x40, piece, first, end, marker)
  }

  lemma SplitPackets(codec: Codec, u: seq<byte>, marker: bool, pktsize: nat)
    requires SizeOk(codec, pktsize) && Splits(codec, u, pktsize)
    ensures var ps := UnitPackets(codec, u, marker, pktsize);
            var h := HdrLen(codec) + 1;
            var pieces := Chop(u[h - 1..], pktsize - h);
            && |ps| == |pieces|
            && forall i :: 0 <= i < |ps| ==> ps[i] == FuOf(codec, u, pieces[i], i == 0, i == |ps| - 1, marker)
  {
    match codec
    case H264 =>
      FuPacketsAre([FuIndicator(u[0])], 0x80 + H264Type(u[0]), true, u[1..], pktsize - 2, true, marker);
    case H265 =>
      var h := H265Decode(u[0], u[1]).value;
      FuPacketsAre(H265Encode(H265_FU, h.tid), 0x80 + h.typ % 0x40, true, u[2..], pktsize - 3, true, marker);
  }

  lemma FuOfIsFragment(codec: Codec, u: seq<byte>, piece: seq<byte>, first: bool, end: bool, marker: bool)
    requires |u| >= 2 && piece != [] && (codec.H265? ==> H265Decode(u[0], u[1]).Some?)
    ensures var p := FuOf(codec, u, piece, first, end, marker);
            && |p.pld| == HdrLen(codec) + 1 + |piece|
            && Fragment(codec, u, piece, p, first, end, marker)
  {
    match codec
    case H264 => H264FuBits(u[0], first, end);
    case H265 => H265FuBits(u[0], u[1], first, end);
  }

  /** Start bit, end bit and type do not overlap. */
  lemma FuByteBits(t: byte, first: bool, end: bool)
    requires t < 0x40
    ensures FuByte(0x80 + t, first, end) == (if first then 0x80 else 0) + (if end then 0x40 else 0) + t
  {
  }

  lemma H264FuBits(h: byte, first: bool, end: bool)
    ensures H264Type(FuIndicator(h)) == H264_FU_A
    ensures FuIndicator(h) / 0x20 == Nri(h)
    ensures var f := FuByte(0x80 + H264Type(h), first, end);
            (f >= 0x80 <==> first) && (f % 0x80 >= 0x40 <==> end) && H264Type(f) == H264Type(h)
  {
    hide FuByte;
    FuByteBits(H264Type(h), first, end);
  }

  lemma H265FuBits(p0: byte, p1: byte, first: bool, end: bool)
    requires H265Decode(p0, p1).Some?
    ensures var h := H265Decode(p0, p1).value;
            var e := H265Encode(H265_FU, h.tid);
            var f := FuByte(0x80 + h.typ % 0x40, first, end);
            && H265Decode(e[0], e[1]) == Some(H265Hdr(H265_FU, h.tid))
            && (f >= 0x80 <==> first) && (f % 0x80 >= 0x40 <==> end) && f % 0x40 == h.typ
  {
    var h := H265Decode(p0, p1).value;
    assert h.typ < 0x40 && h.tid < 8;
    hide FuByte, H265Decode, H265Encode;
    H265HdrRoundTrip(H265_FU, h.tid);
    FuByteBits(h.typ % 0x40, first, end);
  }

  /** One fragment, read off its bytes. */
  predicate Part(pkt: Packet, hdr: byte, piece: seq<byte>, start: bool, end: bool, marker: bool) {
    var p := pkt.pld;
    && (pkt.marker <==> marker && end)
    && |p| == 2 + |piece| && p[2..] == piece
    && p[0] % 0x20 == 28 && p[0] / 0x20 == hdr % 0x80 / 0x20 && p[1] % 0x20 == hdr % 0x20
    && (p[1] >= 0x80 <==> start) && (p[1] % 0x80 >= 0x40 <==> end)
  }

  lemma FuIsPart(hdr: byte, piece: seq<byte>, first: bool, front: bool, end: bool, marker: bool)
    ensures var fu: byte := if first then 0x80 + H264Type(hdr) else H264Type(hdr);
            Part(Fu([FuIndicator(hdr)], fu, piece, front, end, marker), hdr, piece, first && front, end, marker)
  {
    H264FuBits(hdr, first && front, end);
  }

  /** Fragments for every combination of first and last: the start bit is on the first packet of
      a first part, the end bit on the last packet of a last part, the marker with the end bit. */
  lemma H264PartShape(first: bool, last: bool, marker: bool, hdr: byte, body: seq<byte>, maxsz: nat)
    requires maxsz > 2 && !(first && last && |body| <= maxsz)
    ensures var ps := H264Nal(first, last, marker, hdr, body, maxsz);
            var pieces := Chop(body, maxsz - 2);
            && |ps| == |pieces| && Join(pieces) == body
            && forall i :: 0 <= i < |ps| ==>
                 |pieces[i]| <= maxsz - 2
                 && Part(ps[i], hdr, pieces[i], first && i == 0, last && i == |ps| - 1, marker)
  {
    var fu: byte := if first then 0x80 + H264Type(hdr) else H264Type(hdr);
    hide Fu, FuPackets, Chop, Join, FuIndicator, Part;
    ChopFacts(body, maxsz - 2);
    FuPacketsAre([FuIndicator(hdr)], fu, true, body, maxsz - 2, last, marker);
    var ps, pieces := H264Nal(first, last, marker, hdr, body, maxsz), Chop(body, maxsz - 2);
    forall i | 0 <= i < |ps|
      ensures Part(ps[i], hdr, pieces[i], first && i == 0, last && i == |ps| - 1, marker)
    {
      FuIsPart(hdr, pieces[i], first, i == 0, last && i == |ps| - 1, marker);
    }
  }

  /** A unit that fits goes out as it is, whatever its header says; a longer one is not sent at
      all exactly when its forbidden bit or layer id is not zero. */
  lemma H265Sends(marker: bool, u: seq<byte>, maxlen: nat)
    requires maxlen > 3
    ensures |u| <= maxlen ==> H265Nal(marker, u, maxlen) == [Packet(marker, u)]
    ensures |u| > maxlen ==>
              (H265Nal(marker, u, maxlen) == [] <==> u[0] >= 0x80 || u[0] % 2 == 1 || u[1] >= 8)
    ensures Refused(u, maxlen) <==> |u| > maxlen && (u[0] >= 0x80 || u[0] % 2 == 1 || u[1] >= 8)
  {
  }

  // ----- the senders -----

  /** h264_nal_send: the fragment loop walks `b` and clears the start bit in place. */
  method H264NalSend(first: bool, last: bool, marker: bool, hdr: byte, buf: seq<byte>, maxsz: nat)
    returns (pkts: seq<Packet>)
    requires maxsz > 2
    ensures pkts == H264Nal(first, last, marker, hdr, buf, maxsz)
  {
    if first && last && |buf| <= maxsz {
      return [Packet(marker, [hdr] + buf)];
    }
    var sz := maxsz - 2;
    var fu0 := FuIndicator(hdr);
    var fu1 := if first then 0x80 + H264Type(hdr) else H264Type(hdr);
    pkts := SendFragments([fu0], fu1, buf, sz, last, marker);
  }

  // The loop both senders share. The H.265 sender always has last set.
  method SendFragments(pre: seq<byte>, fu: byte, buf: seq<byte>, sz: nat, last: bool, marker: bool)
    returns (pkts: seq<Packet>)
    requires sz > 0
    ensures pkts == FuPackets(pre, fu, true, buf, sz, last, marker)
  {
    var b, f := buf, fu;
    ghost var first := true;
    pkts := [];
    while |b| > sz
      invariant f == FuByte(fu, first, false)
      invariant pkts + FuPackets(pre, fu, first, b, sz, last, marker) == FuPackets(pre, fu, true, buf, sz, last, marker)
      decreases |b|
    {
      var p := Packet(false, pre + [f] + b[..sz]);
      FuPacketsStep(pkts, p, pre, fu, first, b, sz, last, marker);
      pkts := pkts + [p];
      b := b[sz..];
      f := ClearStart(f);
      first := false;
    }
    if last {
      f := SetEnd(f);
    }
    pkts := pkts + [Packet(marker && last, pre + [f] + b)];
  }

  lemma FuPacketsStep(done: seq<Packet>, p: Packet, pre: seq<byte>, fu: byte, first: bool, b: seq<byte>, sz: nat,
                      last: bool, marker: bool)
    requires 0 < sz < |b| && p == Fu(pre, fu, b[..sz], first, false, marker)
    ensures done + FuPackets(pre, fu, first, b, sz, last, marker)
            == done + [p] + FuPackets(pre, fu, false, b[sz..], sz, last, marker)
  {
    hide Fu;
    var rest := FuPackets(pre, fu, false, b[sz..], sz, last, marker);
    assert FuPackets(pre, fu, first, b, sz, last, marker) == [p] + rest;
    Assoc(done, [p], rest);
  }

  lemma UnitsNext(buf: seq<byte>, r: nat, us: seq<seq<byte>>, k: nat)
    requires CodeAt(buf, r) && k <= |us| && us[k..] == UnitsFrom(buf, r)
    ensures var f := Find(buf, r + 3);
            k < |us| && us[k] == buf[r + 3..f] && us[k + 1..] == UnitsFrom(buf, f)
            && (f == |buf| <==> k + 1 == |us|)
  {
    var f := Find(buf, r + 3);
    var rest := UnitsFrom(buf, f);
    assert us[k..] == [buf[r + 3..f]] + rest;
    assert us[k] == us[k..][0] && us[k + 1..] == us[k..][1..] == rest;
  }

  lemma UnitsDone(buf: seq<byte>, us: seq<seq<byte>>, k: nat)
    requires k <= |us| && us[k..] == UnitsFrom(buf, |buf|)
    ensures k == |us|
  {
    assert |us[k..]| == 0;
  }

  lemma NoPackets(codec: Codec, us: seq<seq<byte>>, pktsize: nat)
    requires SizeOk(codec, pktsize) && Sendable(codec, us)
    ensures PacketsUpto(codec, us, 0, pktsize) == []
  {
  }

  lemma PacketsNext(codec: Codec, us: seq<seq<byte>>, k: nat, pktsize: nat)
    requires SizeOk(codec, pktsize) && Sendable(codec, us) && k < |us|
    ensures PacketsUpto(codec, us, k + 1, pktsize)
            == PacketsUpto(codec, us, k, pktsize) + UnitPackets(codec, us[k], k + 1 == |us|, pktsize)
  {
  }

  /** h264_packetize. An empty unit would underflow the size of its body. */
  method H264Packetize(buf: seq<byte>, base: nat, bigEndian: bool, pktsize: nat) returns (pkts: seq<Packet>)
    requires pktsize > 2
    requires Sendable(H264, Units(buf))
    ensures pkts == PacketsUpto(H264, Units(buf), |Units(buf)|, pktsize)
  {
    hide UnitsFrom, PacketsUpto, Find;
    ghost var us, k := Units(buf), 0;
    pkts := [];
    assert us[0..] == us && PacketsUpto(H264, us, 0, pktsize) == [] by { NoPackets(H264, us, pktsize); }
    var r := FindStartcode(buf, base, 0, bigEndian);
    while r < |buf|
      invariant r <= |buf| && (r == |buf| || CodeAt(buf, r))
      invariant k <= |us| && us[k..] == UnitsFrom(buf, r)
      invariant pkts == PacketsUpto(H264, us, k, pktsize)
      decreases |buf| - r
    {
      var s := SkipZeros(buf, r);
      var r1 := FindStartcode(buf, base, s, bigEndian);
      UnitsNext(buf, r, us, k);
      var nal := H264NalSend(true, true, r1 >= |buf|, buf[s], buf[s + 1..r1], pktsize);
      assert us[k][1..] == buf[s + 1..r1];
      PacketsNext(H264, us, k, pktsize);
      pkts := pkts + nal;
      k := k + 1;
      r := r1;
    }
    UnitsDone(buf, us, k);
  }

  // Skips the zeros and the one of a start code.
  method SkipZeros(buf: seq<byte>, start: nat) returns (r: nat)
    requires CodeAt(buf, start)
    ensures r == start + 3
  {
    r := start;
    while buf[r] == 0
      invariant start <= r <= start + 2
      decreases start + 3 - r
    {
      r := r + 1;
    }
    r := r + 1;
  }

  predicate Refused(u: seq<byte>, maxlen: nat) {
    |u| > maxlen && |u| >= 2 && H265Decode(u[0], u[1]).None?
  }

  /** h265's packetize: one unit, refused when it must be split and its header is bad. */
  method H265NalSend(marker: bool, buf: seq<byte>, maxlen: nat) returns (pkts: seq<Packet>, err: Errno)
    requires maxlen > 3
    ensures pkts == H265Nal(marker, buf, maxlen)
    ensures err == if Refused(buf, maxlen) then EBADMSG else Ok
  {
    if |buf| <= maxlen {
      return [Packet(marker, buf)], Ok;
    }
    var nal := H265Decode(buf[0], buf[1]);
    if nal.None? {
      return [], EBADMSG;
    }
    pkts := SendFragments(H265Encode(H265_FU, nal.value.tid), 0x80 + nal.value.typ % 0x40, buf[2..], maxlen - 3,
                          true, marker);
    err := Ok;
  }

  /** h265_packetize: a refused unit is skipped, the others still go out. */
  method H265Packetize(buf: seq<byte>, base: nat, bigEndian: bool, pktsize: nat) returns (pkts: seq<Packet>, bad: bool)
    requires pktsize > 3
    ensures pkts == PacketsUpto(H265, Units(buf), |Units(buf)|, pktsize)
    ensures bad <==> exists i :: 0 <= i < |Units(buf)| && Refused(Units(buf)[i], pktsize)
  {
    hide UnitsFrom, PacketsUpto, Find, H265Nal, Refused;
    ghost var us, k := Units(buf), 0;
    pkts, bad := [], false;
    assert us[0..] == us && PacketsUpto(H265, us, 0, pktsize) == [] by { NoPackets(H265, us, pktsize); }
    var r := FindStartcode(buf, base, 0, bigEndian);
    while r < |buf|
      invariant r <= |buf| && (r == |buf| || CodeAt(buf, r))
      invariant k <= |us| && us[k..] == UnitsFrom(buf, r)
      invariant pkts == PacketsUpto(H265, us, k, pktsize)
      invariant bad <==> exists i :: 0 <= i < k && Refused(us[i], pktsize)
      decreases |buf| - r
    {
      var s := SkipZeros(buf, r);
      var r1 := FindStartcode(buf, base, s, bigEndian);
      UnitsNext(buf, r, us, k);
      var nal, err := H265NalSend(r1 >= |buf|, buf[s..r1], pktsize);
      PacketsNext(H265, us, k, pktsize);
      pkts := pkts + nal;
      bad := bad || err != Ok;
      k := k + 1;
      r := r1;
    }
    UnitsDone(buf, us, k);
  }
}
