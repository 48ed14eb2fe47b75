// The receiving side: what one RTP payload means to the decoder, and the state machine
// that both video decoders share.
module Reassembly {
  import opened Bytes
  import opened StartCode
  import opened Nal

  const DECODE_MAXSZ: nat := 524288

  /** The reassembly part of `struct viddec_state`. */
  datatype State = State(mb: seq<byte>, frag: bool, fragStart: nat, fragSeq: nat, gotKey: bool)

  function Clean(gotKey: bool): State {
    State([], false, 0, 0, gotKey)
  }

  /** What the codec library answers when it is given a buffer. */
  datatype LibAnswer = Refused | NoPicture | Picture(key: bool)

  /** What a payload asks of the decoder. */
  datatype View =
    | Ignore(err: Errno)                  // return at once, nothing changes
    | Append(bytes: seq<byte>, err: Errno) // whole units; with an error the packet ends here
    | Begin(bytes: seq<byte>, end: bool)  // first fragment, its start code and header rebuilt
    | Continue(bytes: seq<byte>, end: bool)

  // ----- H.264 -----

  /** The units of an aggregation packet, up to the first malformed one. */
  function Aggregate(codec: Codec, b: seq<byte>): (r: (seq<byte>, Errno))
    decreases |b|
  {
    if |b| < 2 then ([], Ok)
    else if |b| - 2 < U16(b[0], b[1]) then ([], EBADMSG)
    else if codec.H264? && |b| == 2 then ([], ENOENT)
    else
      var len := U16(b[0], b[1]);
      var (more, err) := Aggregate(codec, b[2 + len..]);
      (SC + b[2..2 + len] + more, err)
  }

  /** The same, appending to what is already there, unit by unit. */
  function AggregateInto(codec: Codec, acc: seq<byte>, b: seq<byte>): (seq<byte>, Errno)
    decreases |b|
  {
    if |b| < 2 then (acc, Ok)
    else if |b| - 2 < U16(b[0], b[1]) then (acc, EBADMSG)
    else if codec.H264? && |b| == 2 then (acc, ENOENT)
    else
      var len := U16(b[0], b[1]);
      AggregateInto(codec, acc + SC + b[2..2 + len], b[2 + len..])
  }

  lemma {:induction false} AggregateIntoAppends(codec: Codec, acc: seq<byte>, b: seq<byte>)
    ensures AggregateInto(codec, acc, b) == (acc + Aggregate(codec, b).0, Aggregate(codec, b).1)
    decreases |b|
  {
    if |b| >= 2 && |b| - 2 >= U16(b[0], b[1]) && !(codec.H264? && |b| == 2) {
      var len := U16(b[0], b[1]);
      var unit, rest := b[2..2 + len], b[2 + len..];
      AggregateIntoAppends(codec, acc + SC + unit, rest);
      Assoc(acc, SC, unit);
      Assoc(acc, SC + unit, Aggregate(codec, rest).0);
    } else {
      assert Aggregate(codec, b).0 == [] && acc + [] == acc;
    }
  }

  /** What a 16-bit size can say. */
  predicate Sizes(us: seq<seq<byte>>) {
    forall i :: 0 <= i < |us| ==> |us[i]| < 0x10000
  }

  /** An aggregation packet as RFC 6184 section 5.7.1 and RFC 7798 section 4.4.2 lay it out:
      each unit behind its 16-bit size. */
  function Pack(us: seq<seq<byte>>): seq<byte>
    requires Sizes(us)
  {
    if us == [] then [] else [|us[0]| / 0x100, |us[0]| % 0x100] + us[0] + Pack(us[1..])
  }

  lemma AggregateOne(codec: Codec, u: seq<byte>, tail: seq<byte>)
    requires |u| < 0x10000 && (codec.H264? ==> u + tail != [])
    ensures Aggregate(codec, [|u| / 0x100, |u| % 0x100] + u + tail)
            == (SC + u + Aggregate(codec, tail).0, Aggregate(codec, tail).1)
  {
    var b := [|u| / 0x100, |u| % 0x100] + u + tail;
    assert U16(b[0], b[1]) == |u| && b[2..2 + |u|] == u && b[2 + |u|..] == tail;
  }

  /** The H.264 decoder looks at the first byte of a unit, so an empty one must not be the end. */
  predicate EndsWell(codec: Codec, us: seq<seq<byte>>, rest: seq<byte>) {
    codec.H264? && us != [] && us[|us| - 1] == [] ==> rest != []
  }

  /** Unpacking gives the packed units, each behind a start code, whatever follows them; a
      malformed rest is reported but the units before it stay. */
  lemma {:induction false} AggregateUnpacks(codec: Codec, us: seq<seq<byte>>, rest: seq<byte>)
    requires Sizes(us) && EndsWell(codec, us, rest)
    ensures Aggregate(codec, Pack(us) + rest) == (AnnexB(us) + Aggregate(codec, rest).0, Aggregate(codec, rest).1)
  {
    hide Aggregate;
    if us == [] {
      assert Pack(us) + rest == rest;
      assert AnnexB(us) + Aggregate(codec, rest).0 == Aggregate(codec, rest).0;
    } else {
      hide AnnexB;
      var u, tail := us[0], us[1..];
      AggregateUnpacks(codec, tail, rest);
      assert tail != [] ==> |Pack(tail)| >= 2;
      AggregateOne(codec, u, Pack(tail) + rest);
      Assoc([|u| / 0x100, |u| % 0x100] + u, Pack(tail), rest);
      assert us == [u] + tail;
      AnnexBConcat([u], tail);
      AnnexBOne(u);
      Assoc(SC + u, AnnexB(tail), Aggregate(codec, rest).0);
    }
  }

  /** What follows the last unit that can be read: nothing or one byte, a size that reaches
      beyond the packet, or for H.264 an empty unit at the very end. */
  function RestError(codec: Codec, rest: seq<byte>): Option<Errno> {
    if |rest| < 2 then Some(Ok)
    else if |rest| - 2 < U16(rest[0], rest[1]) then Some(EBADMSG)
    else if codec.H264? && |rest| == 2 then Some(ENOENT)
    else None
  }

  /** Every payload is some units and such a rest. */
  lemma {:induction false} EveryAggregate(codec: Codec, b: seq<byte>) returns (us: seq<seq<byte>>, rest: seq<byte>)
    ensures Sizes(us) && EndsWell(codec, us, rest) && RestError(codec, rest).Some? && b == Pack(us) + rest
    decreases |b|
  {
    if RestError(codec, b).Some? {
      us, rest := [], b;
      assert b == Pack([]) + b;
    } else {
      var len := U16(b[0], b[1]);
      var u, tail := b[2..2 + len], b[2 + len..];
      var vs;
      vs, rest := EveryAggregate(codec, tail);
      us := [u] + vs;
      assert us[1..] == vs;
      Assoc([len / 0x100, len % 0x100] + u, Pack(vs), rest);
      assert b == [len / 0x100, len % 0x100] + u + tail;
    }
  }

  /** An unfragmented slice is not decoded before the first keyframe. */
  predicate Gated(codec: Codec, pld: seq<byte>, gotKey: bool) {
    codec.H264? && !gotKey && pld != [] && H264Type(pld[0]) == H264_SLICE
  }

  /** A fragment: its start bit, its end bit, the unit header it stands for, its bytes. */
  function FragmentView(fu: byte, hdr: seq<byte>, body: seq<byte>): View {
    if fu >= 0x80 then Begin(SC + hdr + body, fu % 0x80 >= 0x40)
    else Continue(body, fu % 0x80 >= 0x40)
  }

  function H264View(p: seq<byte>): View {
    if p == [] then Ignore(ENOENT)
    else if p[0] >= 0x80 then Ignore(EBADMSG)
    else
      var t := H264Type(p[0]);
      if 1 <= t <= 23 then Append(SC + p, Ok)
      else if t == H264_FU_A then
        if |p| < 2 then Ignore(ENOENT)
        else FragmentView(p[1], [Nri(p[0]) * 0x20 + H264Type(p[1])], p[2..])
      else if t == H264_STAP_A then
        var (bytes, err) := Aggregate(H264, p[1..]);
        Append(bytes, err)
      else Append([], EBADMSG)
  }

  /** The decoder reads two header bytes whatever the length; shorter payloads are excluded
      by its precondition and read here as a bad header. */
  function H265View(p: seq<byte>): View {
    if |p| < 2 then Ignore(EBADMSG)
    else
      match H265Decode(p[0], p[1])
      case None => Ignore(EBADMSG)
      case Some(h) =>
        if h.typ <= 40 then Append(SC + p, Ok)
        else if h.typ == H265_FU then
          if |p| < 3 then Ignore(EBADMSG)
          else FragmentView(p[2], H265Encode(p[2] % 0x40, h.tid), p[3..])
        else if h.typ == H265_AP then
          var (bytes, err) := Aggregate(H265, p[2..]);
          Append(bytes, err)
        else Append([], EPROTO)
  }

  function ViewOf(codec: Codec, p: seq<byte>, gotKey: bool): View {
    if Gated(codec, p, gotKey) then Ignore(EPROTO)
    else if codec.H264? then H264View(p)
    else H265View(p)
  }

  // ----- the shared state machine -----

  /** seq_diff(x, y) == 1 on 16-bit sequence numbers. */
  predicate NextSeq(x: nat, y: nat) {
    (y - x) % 0x10000 == 1
  }

  /** Packet idx is the one after packet `at`, or is not a whole number of wraps of the 16-bit
      counter away from it. */
  predicate Told(at: nat, idx: nat) {
    idx == at + 1 || (idx - at - 1) % 0x10000 != 0
  }

  /** The 16-bit numbers tell whether packet idx comes next exactly when it is Told. */
  lemma NextSeqIs(seq0: nat, at: nat, idx: nat)
    ensures NextSeq((seq0 + at) % 0x10000, (seq0 + idx) % 0x10000) <==> (idx - at - 1) % 0x10000 == 0
    ensures (NextSeq((seq0 + at) % 0x10000, (seq0 + idx) % 0x10000) <==> idx == at + 1) <==> Told(at, idx)
  {
    assert ((seq0 + idx) % 0x10000 - (seq0 + at) % 0x10000) % 0x10000 == (idx - at) % 0x10000;
  }

  datatype Outcome = Outcome(st: State, given: Option<seq<byte>>, err: Errno)

  function Rewound(st: State): State {
    if st.frag && st.fragStart <= |st.mb| then st.(mb := st.mb[..st.fragStart], frag := false) else st
  }

  function Emptied(st: State): State {
    st.(mb := [], frag := false)
  }

  /** The common end of a packet: a size check without the marker, a decode with it. */
  function Finish(st: State, marker: bool, lib: LibAnswer): Outcome {
    if !marker then
      if |st.mb| > DECODE_MAXSZ then Outcome(Emptied(st), None, ENOMEM) else Outcome(st, None, Ok)
    else if st.frag then Outcome(Emptied(st), None, EPROTO)
    else
      Outcome(Emptied(st.(gotKey := st.gotKey || (lib.Picture? && lib.key))), Some(st.mb),
              if lib.Refused? then EBADMSG else Ok)
  }

  /** The part before the marker test. When `go` is false the packet ends there. */
  datatype Taken = Taken(st: State, go: bool, err: Errno)

  function Take(st: State, v: View, seqno: nat): Taken {
    match v
    case Ignore(err) => Taken(st, false, err)
    case Append(bytes, err) =>
      var s := Rewound(st);
      Taken(s.(mb := s.mb + bytes), err == Ok, err)
    case Begin(bytes, end) =>
      var s := Rewound(st);
      Taken(State(s.mb + bytes, !end, |s.mb|, seqno, s.gotKey), true, Ok)
    case Continue(bytes, end) =>
      if !st.frag then Taken(st, false, Ok)
      else if !NextSeq(st.fragSeq, seqno) then Taken(Rewound(st), false, Ok)
      else Taken(State(st.mb + bytes, !end, st.fragStart, seqno, st.gotKey), true, Ok)
  }

  function Step(st: State, v: View, marker: bool, seqno: nat, lib: LibAnswer): Outcome {
    var t := Take(st, v, seqno);
    if t.go then Finish(t.st, marker, lib) else Outcome(t.st, None, t.err)
  }
}
