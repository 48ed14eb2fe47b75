// What one RTP payload does to a video decoder, read off the bytes of the payload.
module Packets {
  import opened Bytes
  import opened StartCode
  import opened Nal
  import opened Reassembly

  predicate WellFormed(st: State) {
    st.frag ==> st.fragStart <= |st.mb|
  }

  /** What an unfinished fragment does not touch. */
  function CompleteUnits(st: State): seq<byte>
    requires WellFormed(st)
  {
    if st.frag then st.mb[..st.fragStart] else st.mb
  }

  // ----- the outcomes of a packet -----

  /** Refused or ignored as a whole. */
  predicate Unchanged(o: Outcome, st: State, err: Errno) {
    o == Outcome(st, None, err)
  }

  /** An unfinished fragment is dropped and these bytes are added; the packet ends there. */
  predicate Leaves(o: Outcome, st: State, bytes: seq<byte>, err: Errno)
    requires WellFormed(st)
  {
    && o.st.mb == CompleteUnits(st) + bytes && !o.st.frag && o.st.gotKey == st.gotKey
    && o.given == None && o.err == err
  }

  /** The buffer holds these bytes and no unit is unfinished when the packet ends: with the
      marker they are handed over and the keyframe flag may be set, without it they are kept
      unless they are too many. */
  predicate Ends(o: Outcome, gotKey: bool, all: seq<byte>, marker: bool, lib: LibAnswer) {
    && !o.st.frag
    && if marker then
         o.given == Some(all) && o.st.mb == [] && o.st.gotKey == (gotKey || lib == Picture(true))
         && o.err == if lib == Refused then EBADMSG else Ok
       else
         o.given == None && o.st.gotKey == gotKey
         && if |all| <= 524288 then o.st.mb == all && o.err == Ok else o.st.mb == [] && o.err == ENOMEM
  }

  /** The buffer holds these bytes and the unit from `start` on is unfinished when the packet
      ends: with the marker all is thrown away. */
  predicate StaysOpen(o: Outcome, gotKey: bool, all: seq<byte>, start: nat, seqno: nat, marker: bool) {
    && o.given == None && o.st.gotKey == gotKey
    && if marker then o.st.mb == [] && !o.st.frag && o.err == EPROTO
       else if |all| <= 524288 then o == Outcome(State(all, true, start, seqno, gotKey), None, Ok)
       else o.st.mb == [] && !o.st.frag && o.err == ENOMEM
  }

  // ----- aggregation packets -----

  /** Units and then a rest that no unit can be read from: the units come behind the complete
      ones that are there, each behind a start code, and an unfinished fragment is dropped. A
      rest of two bytes or more is reported and ends the packet there: nothing is handed
      over, even with the marker. */
  predicate TakesUnits(o: Outcome, st: State, us: seq<seq<byte>>, rest: seq<byte>, marker: bool, lib: LibAnswer)
    requires WellFormed(st)
  {
    if |rest| < 2 then Ends(o, st.gotKey, CompleteUnits(st) + AnnexB(us), marker, lib)
    else Leaves(o, st, AnnexB(us), if |rest| - 2 < U16(rest[0], rest[1]) then EBADMSG else ENOENT)
  }

  lemma StepAppend(st: State, bytes: seq<byte>, err: Errno, marker: bool, seqno: nat, lib: LibAnswer)
    requires WellFormed(st)
    ensures var o := Step(st, Append(bytes, err), marker, seqno, lib);
            if err == Ok then Ends(o, st.gotKey, CompleteUnits(st) + bytes, marker, lib) else Leaves(o, st, bytes, err)
  {
  }

  lemma Aggregated(codec: Codec, st: State, us: seq<seq<byte>>, rest: seq<byte>, marker: bool, seqno: nat,
                   lib: LibAnswer)
    requires WellFormed(st) && Sizes(us) && EndsWell(codec, us, rest) && RestError(codec, rest).Some?
    ensures var (bytes, err) := Aggregate(codec, Pack(us) + rest);
            TakesUnits(Step(st, Append(bytes, err), marker, seqno, lib), st, us, rest, marker, lib)
  {
    hide AnnexB, Pack, Step, Ends, Leaves;
    AggregateUnpacks(codec, us, rest);
    StepAppend(st, AnnexB(us), RestError(codec, rest).value, marker, seqno, lib);
    assert AnnexB(us) + [] == AnnexB(us);
    assert Aggregate(codec, rest) == ([], RestError(codec, rest).value);
  }

  /** A STAP-A packet, whatever the keyframe flag. Every payload has this form
      (`Reassembly.EveryAggregate`). */
  lemma H264Aggregate(h: byte, us: seq<seq<byte>>, rest: seq<byte>, st: State, marker: bool, seqno: nat,
                      lib: LibAnswer, key: bool)
    requires h < 0x80 && h % 0x20 == 24
    requires WellFormed(st) && Sizes(us) && EndsWell(H264, us, rest) && RestError(H264, rest).Some?
    ensures TakesUnits(Step(st, ViewOf(H264, [h] + (Pack(us) + rest), key), marker, seqno, lib),
                       st, us, rest, marker, lib)
  {
    hide Step, AnnexB, Pack, Aggregate, RestError, TakesUnits;
    Aggregated(H264, st, us, rest, marker, seqno, lib);
    assert ([h] + (Pack(us) + rest))[1..] == Pack(us) + rest;
  }

  /** An H.265 aggregation packet, type 48, any temporal id. */
  lemma H265Aggregate(tid: byte, us: seq<seq<byte>>, rest: seq<byte>, st: State, marker: bool, seqno: nat,
                      lib: LibAnswer, key: bool)
    requires tid < 8
    requires WellFormed(st) && Sizes(us) && EndsWell(H265, us, rest) && RestError(H265, rest).Some?
    ensures TakesUnits(Step(st, ViewOf(H265, [96, tid] + (Pack(us) + rest), key), marker, seqno, lib),
                       st, us, rest, marker, lib)
  {
    hide Step, AnnexB, Pack, Aggregate, RestError, TakesUnits;
    Aggregated(H265, st, us, rest, marker, seqno, lib);
    assert ([96, tid] + (Pack(us) + rest))[2..] == Pack(us) + rest;
  }

  // ----- single units -----

  /** A single unit packet comes behind the complete units, behind a start code. */
  lemma H264Single(u: seq<byte>, st: State, marker: bool, seqno: nat, lib: LibAnswer, key: bool)
    requires WellFormed(st) && u != [] && u[0] < 0x80 && 1 <= u[0] % 0x20 <= 23 && (u[0] % 0x20 == 1 ==> key)
    ensures Ends(Step(st, ViewOf(H264, u, key), marker, seqno, lib),
                 st.gotKey, CompleteUnits(st) + ([0, 0, 1] + u), marker, lib)
  {
    hide Step, Ends, CompleteUnits;
    StepAppend(st, SC + u, Ok, marker, seqno, lib);
  }

  lemma H265Single(u: seq<byte>, st: State, marker: bool, seqno: nat, lib: LibAnswer, key: bool)
    requires WellFormed(st) && |u| >= 2 && u[0] % 2 == 0 && u[0] / 2 <= 40 && u[1] < 8
    ensures Ends(Step(st, ViewOf(H265, u, key), marker, seqno, lib),
                 st.gotKey, CompleteUnits(st) + ([0, 0, 1] + u), marker, lib)
  {
    hide Step, Ends, CompleteUnits;
    StepAppend(st, SC + u, Ok, marker, seqno, lib);
  }

  // ----- fragments -----

  /** A fragment that begins a unit drops an unfinished one; with the end bit it is the whole
      unit. */
  predicate BeginsUnit(o: Outcome, st: State, hdr: seq<byte>, fu: byte, body: seq<byte>, marker: bool, seqno: nat,
                       lib: LibAnswer)
    requires WellFormed(st)
  {
    var all := CompleteUnits(st) + ([0, 0, 1] + hdr + body);
    if fu % 0x80 >= 0x40 then Ends(o, st.gotKey, all, marker, lib)
    else StaysOpen(o, st.gotKey, all, |CompleteUnits(st)|, seqno, marker)
  }

  /** A fragment that continues a unit: ignored without one, taken as the next one of it, or
      else the unfinished unit is dropped. */
  predicate ContinuesUnit(o: Outcome, st: State, fu: byte, body: seq<byte>, marker: bool, seqno: nat, lib: LibAnswer)
    requires WellFormed(st)
  {
    if !st.frag then Unchanged(o, st, Ok)
    else if (seqno - st.fragSeq) % 0x10000 != 1 then Leaves(o, st, [], Ok)
    else if fu % 0x80 >= 0x40 then Ends(o, st.gotKey, st.mb + body, marker, lib)
    else StaysOpen(o, st.gotKey, st.mb + body, st.fragStart, seqno, marker)
  }

  /** What a fragment is to do, given the unit header it stands for. */
  predicate FragmentDone(o: Outcome, st: State, hdr: seq<byte>, fu: byte, body: seq<byte>, marker: bool, seqno: nat,
                         lib: LibAnswer)
    requires WellFormed(st)
  {
    if fu >= 0x80 then BeginsUnit(o, st, hdr, fu, body, marker, seqno, lib)
    else ContinuesUnit(o, st, fu, body, marker, seqno, lib)
  }

  lemma StepFragment(st: State, hdr: seq<byte>, fu: byte, body: seq<byte>, marker: bool, seqno: nat, lib: LibAnswer)
    requires WellFormed(st)
    ensures FragmentDone(Step(st, FragmentView(fu, hdr, body), marker, seqno, lib),
                         st, hdr, fu, body, marker, seqno, lib)
  {
    assert CompleteUnits(st) + [] == CompleteUnits(st);
  }

  /** The unit header is put together from the NRI bits of one header byte and the type of the
      other. */
  lemma H264Fragment(h: byte, fu: byte, body: seq<byte>, st: State, marker: bool, seqno: nat, lib: LibAnswer, key: bool)
    requires WellFormed(st) && h < 0x80 && h % 0x20 == 28
    ensures FragmentDone(Step(st, ViewOf(H264, [h, fu] + body, key), marker, seqno, lib),
                         st, [h / 0x20 * 0x20 + fu % 0x20], fu, body, marker, seqno, lib)
  {
    hide Step, FragmentView, FragmentDone, Aggregate;
    StepFragment(st, [h / 0x20 * 0x20 + fu % 0x20], fu, body, marker, seqno, lib);
    var p := [h, fu] + body;
    assert p[0] == h && p[1] == fu && p[2..] == body;
    assert Nri(h) == h / 0x20 && H264Type(h) == 28 && H264Type(fu) == fu % 0x20;
    hide Nri, H264Type;
    assert !Gated(H264, p, key);
  }

  lemma H265Fragment(tid: byte, fu: byte, body: seq<byte>, st: State, marker: bool, seqno: nat, lib: LibAnswer,
                     key: bool)
    requires WellFormed(st) && tid < 8
    ensures FragmentDone(Step(st, ViewOf(H265, [98, tid, fu] + body, key), marker, seqno, lib),
                         st, [fu % 0x40 * 2, tid], fu, body, marker, seqno, lib)
  {
    hide Step, FragmentView, FragmentDone;
    StepFragment(st, [fu % 0x40 * 2, tid], fu, body, marker, seqno, lib);
    assert ([98, tid, fu] + body)[3..] == body;
  }

  // ----- refusals -----

  /** H.264: an empty packet, an unsplit slice while no keyframe was seen, the forbidden bit and
      a fragment without its header change nothing; a reserved type drops an unfinished
      fragment. */
  lemma H264Refused(p: seq<byte>, st: State, marker: bool, seqno: nat, lib: LibAnswer, key: bool)
    requires WellFormed(st)
    ensures var o := Step(st, ViewOf(H264, p, key), marker, seqno, lib);
            && (p == [] ==> Unchanged(o, st, ENOENT))
            && (p != [] && p[0] % 0x20 == 1 && !key ==> Unchanged(o, st, EPROTO))
            && (p != [] && p[0] >= 0x80 && !(p[0] % 0x20 == 1 && !key) ==> Unchanged(o, st, EBADMSG))
            && (|p| == 1 && p[0] < 0x80 && p[0] % 0x20 == 28 ==> Unchanged(o, st, ENOENT))
            && (p != [] && p[0] < 0x80 && p[0] % 0x20 in {0, 25, 26, 27, 29, 30, 31} ==> Leaves(o, st, [], EBADMSG))
  {
  }

  lemma H265HeaderIs(p0: byte, p1: byte)
    ensures H265Decode(p0, p1) == if p0 < 0x80 && p0 % 2 == 0 && p1 < 8 then Some(H265Hdr(p0 / 2, p1)) else None
  {
  }

  /** H.265: a forbidden bit, a layer id and a fragment without its header change nothing; a
      reserved type drops an unfinished fragment. */
  lemma H265Refused(p: seq<byte>, st: State, marker: bool, seqno: nat, lib: LibAnswer, key: bool)
    requires WellFormed(st) && |p| >= 2
    ensures var o := Step(st, ViewOf(H265, p, key), marker, seqno, lib);
            var good := p[0] < 0x80 && p[0] % 2 == 0 && p[1] < 8;
            && (!good ==> Unchanged(o, st, EBADMSG))
            && (good && p[0] / 2 == 49 && |p| == 2 ==> Unchanged(o, st, EBADMSG))
            && (good && (41 <= p[0] / 2 <= 47 || 50 <= p[0] / 2) ==> Leaves(o, st, [], EPROTO))
  {
    H265HeaderIs(p[0], p[1]);
    hide H265Decode, Aggregate, FragmentView;
    assert CompleteUnits(st) + [] == CompleteUnits(st);
  }
}
