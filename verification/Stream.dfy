// A run of frames as a sender numbers it: the packets, and which bytes of which unit each
// packet carries.
module Stream {
  import opened Bytes
  import opened StartCode
  import opened Nal
  import opened Reassembly

  /** A unit the decoders accept: forbidden bit clear (H.265 also layer 0), a plain type. */
  predicate Legal(codec: Codec, u: seq<byte>) {
    match codec
    case H264 => |u| >= 1 && u[0] < 0x80 && 1 <= H264Type(u[0]) <= 23
    case H265 => |u| >= 2 && H265Decode(u[0], u[1]).Some? && H265Decode(u[0], u[1]).value.typ <= 40
  }

  /** One packet carries bytes from..upto of unit number `unit`, its start code included. */
  datatype Chunk = Chunk(unit: nat, from: nat, upto: nat, marker: bool)

  datatype Sent = Sent(codec: Codec, us: seq<seq<byte>>, ps: seq<Packet>, cs: seq<Chunk>)

  // ----- cutting -----

  function FuChunks(n: nat, from: nat, body: nat, total: nat, sz: nat, marker: bool): seq<Chunk>
    requires sz > 0
    decreases total - body
  {
    if total <= body + sz then [Chunk(n, from, total, marker)]
    else [Chunk(n, from, body + sz, false)] + FuChunks(n, body + sz, body + sz, total, sz, marker)
  }

  function UnitChunks(codec: Codec, n: nat, u: seq<byte>, marker: bool, pktsize: nat): seq<Chunk>
    requires SizeOk(codec, pktsize)
  {
    if Splits(codec, u, pktsize)
    then FuChunks(n, 0, 3 + HdrLen(codec), 3 + |u|, pktsize - HdrLen(codec) - 1, marker)
    else [Chunk(n, 0, 3 + |u|, marker)]
  }

  function AddUnit(s: Sent, u: seq<byte>, marker: bool, pktsize: nat): Sent
    requires SizeOk(s.codec, pktsize) && Legal(s.codec, u)
  {
    Sent(s.codec, s.us + [u], s.ps + UnitPackets(s.codec, u, marker, pktsize),
         s.cs + UnitChunks(s.codec, |s.us|, u, marker, pktsize))
  }

  /** Adds the first k units of a frame. */
  function AddUnits(s: Sent, us: seq<seq<byte>>, k: nat, pktsize: nat): Sent
    requires SizeOk(s.codec, pktsize) && k <= |us|
    requires forall i :: 0 <= i < |us| ==> Legal(s.codec, us[i])
    ensures AddUnits(s, us, k, pktsize).codec == s.codec
    ensures AddUnits(s, us, k, pktsize).us == s.us + us[..k]
  {
    if k == 0 then s
    else
      assert us[..k] == us[..k - 1] + [us[k - 1]];
      AddUnit(AddUnits(s, us, k - 1, pktsize), us[k - 1], k == |us|, pktsize)
  }

  predicate LegalFrames(codec: Codec, frames: seq<seq<byte>>) {
    forall k :: 0 <= k < |frames| ==> forall i :: 0 <= i < |Units(frames[k])| ==> Legal(codec, Units(frames[k])[i])
  }

  /** The packets are those of the packetizers, frame after frame. */
  lemma {:induction false} SendIsPacketize(s: Sent, us: seq<seq<byte>>, k: nat, pktsize: nat)
    requires SizeOk(s.codec, pktsize) && k <= |us|
    requires forall i :: 0 <= i < |us| ==> Legal(s.codec, us[i])
    ensures AddUnits(s, us, k, pktsize).ps == s.ps + PacketsUpto(s.codec, us, k, pktsize)
  {
    assert Sendable(s.codec, us);
    hide UnitPackets, UnitChunks, Legal;
    if k == 0 {
    } else {
      SendIsPacketize(s, us, k - 1, pktsize);
      LegalHeader(s.codec, us[k - 1]);
      Assoc(s.ps, PacketsUpto(s.codec, us, k - 1, pktsize), UnitPackets(s.codec, us[k - 1], k == |us|, pktsize));
    }
  }

  // ----- what the cuts mean -----

  predicate Whole(us: seq<seq<byte>>, c: Chunk)
    requires c.unit < |us|
  {
    c.from == 0 && c.upto == 3 + |us[c.unit]|
  }

  function ChunkView(au: seq<byte>, c: Chunk): View
    requires c.from <= c.upto <= |au|
  {
    if c.from > 0 then Continue(au[c.from..c.upto], c.upto == |au|)
    else if c.upto == |au| then Append(au, Ok)
    else Begin(au[..c.upto], false)
  }

  /** The view of a payload once a keyframe has been seen. */
  function PlainView(codec: Codec, p: seq<byte>): View {
    ViewOf(codec, p, true)
  }

  /** Packet and chunk agree: same marker, the decoder's view of the payload is the view of
      those bytes, and only an unsplit slice is held back before the first keyframe. */
  predicate Cut(codec: Codec, p: Packet, c: Chunk, us: seq<seq<byte>>) {
    && c.unit < |us|
    && c.from < c.upto <= 3 + |us[c.unit]|
    && us[c.unit] != []
    && p.marker == c.marker && (c.marker ==> c.upto == 3 + |us[c.unit]|)
    && PlainView(codec, p.pld) == ChunkView(SC + us[c.unit], c)
    && (Gated(codec, p.pld, false) <==>
          codec.H264? && Whole(us, c) && H264Type(us[c.unit][0]) == H264_SLICE)
  }

  /** The next packet continues the unit, or starts the next one. */
  predicate Next(us: seq<seq<byte>>, c: Chunk, d: Chunk) {
    && c.unit < |us|
    && if c.upto == 3 + |us[c.unit]| then d.unit == c.unit + 1 && d.from == 0
       else d.unit == c.unit && d.from == c.upto
  }

  ghost predicate Good(s: Sent) {
    && |s.ps| == |s.cs|
    && (forall i :: 0 <= i < |s.cs| ==> Cut(s.codec, s.ps[i], s.cs[i], s.us))
    && (forall i :: 0 < i < |s.cs| ==> Next(s.us, s.cs[i - 1], s.cs[i]))
    && (s.cs == [] <==> s.us == [])
    && (s.cs != [] ==>
          && s.cs[0].unit == 0 && s.cs[0].from == 0
          && Last(s).unit == |s.us| - 1 && Last(s).upto == 3 + |s.us[|s.us| - 1]|)
  }

  function Last(s: Sent): Chunk
    requires s.cs != []
  {
    s.cs[|s.cs| - 1]
  }

  /** What the decoder makes of one fragment of u: the unit's own header is rebuilt from
      the two headers of a first fragment. */
  function PieceView(codec: Codec, u: seq<byte>, piece: seq<byte>, first: bool, end: bool): View
    requires |u| >= 2
  {
    if first then Begin(SC + u[..HdrLen(codec)] + piece, end) else Continue(piece, end)
  }

  lemma HeaderRebuilt(h: byte, indicator: byte, fu: byte)
    requires h < 0x80 && indicator / 0x20 == Nri(h) && H264Type(fu) == H264Type(h)
    ensures indicator < 0x80 && Nri(indicator) * 0x20 + H264Type(fu) == h
  {
    assert Nri(h) == h / 0x20 < 4;
    assert Nri(indicator) == indicator / 0x20;
  }

  lemma H264FragmentView(u: seq<byte>, piece: seq<byte>, p: Packet, first: bool, end: bool, marker: bool)
    requires |u| >= 2 && Legal(H264, u) && Fragment(H264, u, piece, p, first, end, marker)
    ensures H264View(p.pld) == PieceView(H264, u, piece, first, end)
  {
    HeaderRebuilt(u[0], p.pld[0], p.pld[1]);
    hide Aggregate, H264Type, Nri;
    assert u[..1] == [u[0]];
  }

  lemma H265FragmentView(u: seq<byte>, piece: seq<byte>, p: Packet, first: bool, end: bool, marker: bool)
    requires |u| >= 2 && Legal(H265, u) && Fragment(H265, u, piece, p, first, end, marker)
    ensures H265View(p.pld) == PieceView(H265, u, piece, first, end)
  {
    hide Aggregate, H265Encode;
    var h := H265Decode(u[0], u[1]).value;
    assert u[..2] == [u[0], u[1]] == H265Encode(h.typ, h.tid);
  }

  lemma FragmentViewIs(codec: Codec, u: seq<byte>, piece: seq<byte>, first: bool, end: bool, marker: bool)
    requires |u| >= 2 && piece != [] && Legal(codec, u)
    ensures var p := FuOf(codec, u, piece, first, end, marker).pld;
            PlainView(codec, p) == PieceView(codec, u, piece, first, end) && !Gated(codec, p, false)
  {
    hide FuOf, H264View, H265View;
    FuOfIsFragment(codec, u, piece, first, end, marker);
    var p := FuOf(codec, u, piece, first, end, marker);
    match codec
    case H264 => H264FragmentView(u, piece, p, first, end, marker);
    case H265 => H265FragmentView(u, piece, p, first, end, marker);
  }

  /** The packets of unit n from byte `from` to its end. */
  ghost predicate CutRun(codec: Codec, us: seq<seq<byte>>, ps: seq<Packet>, cs: seq<Chunk>, n: nat, from: nat) {
    && n < |us| && |ps| == |cs| > 0
    && (forall i :: 0 <= i < |cs| ==> Cut(codec, ps[i], cs[i], us))
    && (forall i :: 0 < i < |cs| ==> Next(us, cs[i - 1], cs[i]))
    && cs[0].unit == cs[|cs| - 1].unit == n && cs[0].from == from
    && cs[|cs| - 1].upto == 3 + |us[n]|
  }

  lemma CutRunOne(codec: Codec, us: seq<seq<byte>>, p: Packet, c: Chunk)
    requires Cut(codec, p, c, us) && c.upto == 3 + |us[c.unit]|
    ensures CutRun(codec, us, [p], [c], c.unit, c.from)
  {
  }

  lemma CutRunCons(codec: Codec, us: seq<seq<byte>>, p: Packet, c: Chunk, ps: seq<Packet>, cs: seq<Chunk>)
    requires Cut(codec, p, c, us) && c.upto < 3 + |us[c.unit]|
    requires CutRun(codec, us, ps, cs, c.unit, c.upto)
    ensures CutRun(codec, us, [p] + ps, [c] + cs, c.unit, c.from)
  {
    var ps', cs' := [p] + ps, [c] + cs;
    assert cs'[|cs'| - 1] == cs[|cs| - 1];
    forall i | 0 < i < |cs'| ensures Next(us, cs'[i - 1], cs'[i]) {
      if i > 1 { assert cs'[i] == cs[i - 1] && cs'[i - 1] == cs[i - 2]; }
    }
  }

  lemma LegalHeader(codec: Codec, u: seq<byte>)
    requires Legal(codec, u)
    ensures |u| >= HdrLen(codec) && (codec.H265? ==> H265Decode(u[0], u[1]).Some?)
  {
  }

  // The chunks of fragments from byte k of the unit on.
  lemma {:induction false} FuCut(codec: Codec, us: seq<seq<byte>>, n: nat, k: nat, first: bool, sz: nat, marker: bool)
    requires sz > 0 && n < |us| && Legal(codec, us[n]) && HdrLen(codec) <= k < |us[n]|
    requires first <==> k == HdrLen(codec)
    requires first ==> |us[n]| > k + sz
    ensures var from := if first then 0 else 3 + k;
            CutRun(codec, us, FuOfs(codec, us[n], k, first, sz, marker),
                   FuChunks(n, from, 3 + k, 3 + |us[n]|, sz, marker), n, from)
    decreases |us[n]| - k
  {
    hide Cut, FuOf, H265Decode, CutRun, Next, Legal;
    var u := us[n];
    LegalHeader(codec, u);
    var from, upto := if first then 0 else 3 + k, if |u| <= k + sz then |u| else k + sz;
    FragmentCut(codec, us, n, k, upto, first, marker);
    var p, c := FuOf(codec, u, u[k..upto], first, upto == |u|, marker), Chunk(n, from, 3 + upto, marker && upto == |u|);
    if upto == |u| {
      assert u[k..|u|] == u[k..];
      CutRunOne(codec, us, p, c);
    } else {
      FuCut(codec, us, n, upto, false, sz, marker);
      CutRunCons(codec, us, p, c, FuOfs(codec, u, upto, false, sz, marker),
                 FuChunks(n, 3 + upto, 3 + upto, 3 + |u|, sz, marker));
    }
  }

  lemma FragmentCut(codec: Codec, us: seq<seq<byte>>, n: nat, k: nat, k': nat, first: bool, marker: bool)
    requires n < |us| && Legal(codec, us[n]) && HdrLen(codec) <= k < k' <= |us[n]|
    requires first <==> k == HdrLen(codec)
    requires first ==> k' < |us[n]|
    ensures var u := us[n];
            var end := k' == |u|;
            Cut(codec, FuOf(codec, u, u[k..k'], first, end, marker),
                Chunk(n, if first then 0 else 3 + k, 3 + k', marker && end), us)
  {
    hide PlainView, Gated, H265Decode, H264Type;
    var u := us[n];
    var au := SC + u;
    FragmentViewIs(codec, u, u[k..k'], first, k' == |u|, marker);
    assert au[3 + k..3 + k'] == u[k..k'];
    if first { assert au[..3 + k'] == SC + u[..k] + u[k..k']; }
  }

  // The fragments as packets of the unit, by position.
  function FuOfs(codec: Codec, u: seq<byte>, k: nat, first: bool, sz: nat, marker: bool): seq<Packet>
    requires sz > 0 && |u| >= 2 && k <= |u| && (codec.H265? ==> H265Decode(u[0], u[1]).Some?)
    decreases |u| - k
  {
    if |u| <= k + sz then [FuOf(codec, u, u[k..], first, true, marker)]
    else [FuOf(codec, u, u[k..k + sz], first, false, marker)] + FuOfs(codec, u, k + sz, false, sz, marker)
  }

  lemma {:induction false} FuOfsArePackets(codec: Codec, u: seq<byte>, pre: seq<byte>, fu: byte, k: nat, first: bool,
                                           sz: nat, marker: bool)
    requires sz > 0 && |u| >= 2 && k <= |u| && (codec.H265? ==> H265Decode(u[0], u[1]).Some?)
    requires forall piece, f, e :: FuOf(codec, u, piece, f, e, marker) == Fu(pre, fu, piece, f, e, marker)
    ensures FuPackets(pre, fu, first, u[k..], sz, true, marker) == FuOfs(codec, u, k, first, sz, marker)
    decreases |u| - k
  {
    if |u| <= k + sz {
    } else {
      assert u[k..][..sz] == u[k..k + sz] && u[k..][sz..] == u[k + sz..];
      FuOfsArePackets(codec, u, pre, fu, k + sz, false, sz, marker);
    }
  }

  lemma WholeCut(codec: Codec, us: seq<seq<byte>>, n: nat, marker: bool)
    requires n < |us| && Legal(codec, us[n])
    ensures Cut(codec, Packet(marker, us[n]), Chunk(n, 0, 3 + |us[n]|, marker), us)
  {
  }

  // The packets of a unit that splits, by position.
  lemma SplitPacketsAre(codec: Codec, u: seq<byte>, marker: bool, pktsize: nat)
    requires SizeOk(codec, pktsize) && Splits(codec, u, pktsize)
    ensures var h := HdrLen(codec);
            |u| >= 2 && UnitPackets(codec, u, marker, pktsize) == FuOfs(codec, u, h, true, pktsize - h - 1, marker)
  {
    hide FuOfs, FuPackets;
    match codec {
      case H264 =>
        FuOfsArePackets(codec, u, [FuIndicator(u[0])], 0x80 + H264Type(u[0]), 1, true, pktsize - 2, marker);
      case H265 =>
        var hdr := H265Decode(u[0], u[1]).value;
        FuOfsArePackets(codec, u, H265Encode(H265_FU, hdr.tid), 0x80 + hdr.typ % 0x40, 2, true, pktsize - 3, marker);
    }
  }

  /** The packets of one unit are cut as its chunks say. */
  lemma UnitCut(codec: Codec, us: seq<seq<byte>>, n: nat, marker: bool, pktsize: nat)
    requires SizeOk(codec, pktsize) && n < |us| && Legal(codec, us[n])
    ensures var ps := UnitPackets(codec, us[n], marker, pktsize);
            var cs := UnitChunks(codec, n, us[n], marker, pktsize);
            CutRun(codec, us, ps, cs, n, 0)
  {
    hide Cut, CutRun, H265Decode, FuOfs, FuChunks;
    var u := us[n];
    LegalHeader(codec, u);
    if Splits(codec, u, pktsize) {
      var h := HdrLen(codec);
      SplitPacketsAre(codec, u, marker, pktsize);
      FuCut(codec, us, n, h, true, pktsize - h - 1, marker);
    } else {
      WholeCut(codec, us, n, marker);
      assert [u[0]] + u[1..] == u;
      CutRunOne(codec, us, Packet(marker, u), Chunk(n, 0, 3 + |u|, marker));
    }
  }

  // Adding units at the end changes nothing about the earlier chunks.
  lemma CutGrows(codec: Codec, p: Packet, c: Chunk, us: seq<seq<byte>>, u: seq<byte>)
    requires Cut(codec, p, c, us)
    ensures Cut(codec, p, c, us + [u])
  {
    hide PlainView, ChunkView, Gated;
    assert (us + [u])[c.unit] == us[c.unit];
  }

  lemma NextGrows(us: seq<seq<byte>>, c: Chunk, d: Chunk, u: seq<byte>)
    requires Next(us, c, d)
    ensures Next(us + [u], c, d)
  {
    assert (us + [u])[c.unit] == us[c.unit];
  }

  lemma NextUnit(s: Sent, u: seq<byte>, d: Chunk)
    requires s.cs != [] && s.us != [] && Last(s).unit == |s.us| - 1 && Last(s).upto == 3 + |s.us[|s.us| - 1]|
    requires d.unit == |s.us| && d.from == 0
    ensures Next(s.us + [u], Last(s), d)
  {
  }

  lemma AddUnitGood(s: Sent, u: seq<byte>, marker: bool, pktsize: nat)
    requires SizeOk(s.codec, pktsize) && Legal(s.codec, u) && Good(s)
    ensures Good(AddUnit(s, u, marker, pktsize))
  {
    hide Cut, Next, UnitPackets, UnitChunks, H265Decode, H264Type;
    var t := AddUnit(s, u, marker, pktsize);
    UnitCut(s.codec, t.us, |s.us|, marker, pktsize);
    var n := |s.cs|;
    var ps, cs := UnitPackets(s.codec, u, marker, pktsize), UnitChunks(s.codec, |s.us|, u, marker, pktsize);
    forall i | 0 <= i < |t.cs| ensures Cut(t.codec, t.ps[i], t.cs[i], t.us) {
      if i < n {
        CutGrows(s.codec, s.ps[i], s.cs[i], s.us, u);
      } else {
        assert t.ps[i] == ps[i - n] && t.cs[i] == cs[i - n];
      }
    }
    forall i | 0 < i < |t.cs| ensures Next(t.us, t.cs[i - 1], t.cs[i]) {
      if i < n {
        NextGrows(s.us, s.cs[i - 1], s.cs[i], u);
      } else if i == n {
        NextUnit(s, u, cs[0]);
      } else {
        assert t.cs[i] == cs[i - n] && t.cs[i - 1] == cs[i - n - 1];
      }
    }
    assert Last(t) == cs[|cs| - 1];
    if n > 0 { assert t.cs[0] == s.cs[0]; } else { assert t.cs[0] == cs[0]; }
  }

  lemma {:induction false} AddUnitsGood(s: Sent, us: seq<seq<byte>>, k: nat, pktsize: nat)
    requires SizeOk(s.codec, pktsize) && k <= |us| && Good(s)
    requires forall i :: 0 <= i < |us| ==> Legal(s.codec, us[i])
    ensures Good(AddUnits(s, us, k, pktsize))
  {
    hide Good, Legal;
    if k == 0 {
    } else {
      AddUnitsGood(s, us, k - 1, pktsize);
      AddUnitGood(AddUnits(s, us, k - 1, pktsize), us[k - 1], k == |us|, pktsize);
    }
  }

  /** Everything sent for the first k frames. Whatever the frames, every packet carries the
      bytes its chunk says, the first chunk opens unit 0, each next chunk carries on where
      the previous one stopped, and the last chunk ends the last unit. */
  function Send(codec: Codec, frames: seq<seq<byte>>, k: nat, pktsize: nat): (s: Sent)
    requires SizeOk(codec, pktsize) && k <= |frames| && LegalFrames(codec, frames)
    ensures s.codec == codec && Good(s)
  {
    if k == 0 then Sent(codec, [], [], [])
    else
      var us := Units(frames[k - 1]);
      var s := Send(codec, frames, k - 1, pktsize);
      AddUnitsGood(s, us, |us|, pktsize);
      AddUnits(s, us, |us|, pktsize)
  }
}
