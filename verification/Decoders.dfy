// The H.264 and H.265 decoders, packet by packet on a mutable buffer.
module Decoders {
  import opened Bytes
  import opened StartCode
  import opened Nal
  import opened Reassembly

  /** `struct viddec_state`. The buffers handed to the codec library are recorded. */
  class ViddecState {
    const mb: Mbuf
    var frag: bool
    var fragStart: nat
    var fragSeq: nat
    var gotKeyframe: bool
    var given: seq<seq<byte>>

    ghost predicate Valid()
      reads this, mb
    {
      && mb.Valid() && mb.pos == |mb.data|
      && (frag ==> fragStart <= |mb.data|)
    }

    ghost function Abs(): State
      reads this, mb
    {
      State(mb.data, frag, fragStart, fragSeq, gotKeyframe)
    }

    constructor ()
      ensures Valid() && fresh(mb)
      ensures Abs() == Clean(false) && given == []
    {
      mb := new Mbuf();
      frag, fragStart, fragSeq, gotKeyframe, given := false, 0, 0, false, [];
    }

    /** fragment_rewind, with the flag the callers reset around it. */
    method FragmentRewind()
      requires Valid()
      modifies this`frag, mb
      ensures Valid() && !frag
      ensures Abs() == Rewound(old(Abs()))
    {
      if frag {
        mb.data := mb.data[..fragStart];
        mb.pos := fragStart;
        frag := false;
      }
    }

    /** The `out` label. */
    method Reset()
      requires Valid()
      modifies this`frag, mb
      ensures Valid() && Abs() == Emptied(old(Abs()))
    {
      mb.Rewind();
      frag := false;
    }

    /** From the marker test to the end of the decode functions, ffdecode included. */
    method Finish(marker: bool, lib: LibAnswer) returns (err: Errno)
      requires Valid()
      modifies this`frag, this`gotKeyframe, this`given, mb
      ensures Valid()
      ensures Outcome(Abs(), if given == old(given) then None else Some(old(mb.data)), err)
              == Reassembly.Finish(old(Abs()), marker, lib)
      ensures given == old(given) || given == old(given) + [old(mb.data)]
    {
      if !marker {
        if |mb.data| > DECODE_MAXSZ {
          Reset();
          return ENOMEM;
        }
        return Ok;
      }
      if frag {
        Reset();
        return EPROTO;
      }
      given := given + [mb.data];
      err := if lib.Refused? then EBADMSG else Ok;
      if lib.Picture? && lib.key {
        gotKeyframe := true;
      }
      Reset();
    }

    /** The state and the record after a step are those of the specification. */
    twostate predicate Stepped(err: Errno, o: Outcome)
      reads this, mb
    {
      && Abs() == o.st && err == o.err
      && given == old(given) + match o.given { case None => [] case Some(b) => [b] }
    }

    /** A whole unit: what is left of the packet, after a start code. */
    method TakeUnit(src: Mbuf)
      requires Valid() && src.Valid() && src != mb && !frag
      modifies mb
      ensures Valid()
      ensures mb.data == old(mb.data) + (SC + src.Rest())
    {
      mb.Write(SC);
      mb.Write(src.Rest());
    }

    /** A first fragment drops an unfinished one and writes the rebuilt unit header. */
    method BeginFragment(hdr: seq<byte>)
      requires Valid()
      modifies this`frag, this`fragStart, mb
      ensures Valid() && frag
      ensures mb.data == Rewound(old(Abs())).mb + (SC + hdr) && fragStart == |Rewound(old(Abs())).mb|
    {
      if frag {
        FragmentRewind();
      }
      fragStart := mb.pos;
      frag := true;
      mb.Write(SC);
      mb.Write(hdr);
      Assoc(Rewound(old(Abs())).mb, SC, hdr);
    }

    /** The bytes of a fragment, then its end bit. */
    method EndFragment(fu: byte, seqno: nat, src: Mbuf)
      requires Valid() && src.Valid() && src != mb && frag
      modifies this`frag, this`fragSeq, mb
      ensures Valid()
      ensures mb.data == old(mb.data) + src.Rest() && fragSeq == seqno
      ensures frag <==> fu % 0x80 < 0x40
    {
      mb.Write(src.Rest());
      if fu % 0x80 >= 0x40 {
        frag := false;
      }
      fragSeq := seqno;
    }

    /** A fragment whose header bytes have been read: `hdr` is the rebuilt unit header. */
    method TakeFragment(fu: byte, hdr: seq<byte>, seqno: nat, src: Mbuf) returns (go: bool)
      requires Valid() && src.Valid() && src != mb
      modifies this`frag, this`fragStart, this`fragSeq, mb
      ensures Valid()
      ensures Taken(Abs(), go, Ok) == Take(old(Abs()), FragmentView(fu, hdr, src.Rest()), seqno)
    {
      if fu >= 0x80 {
        BeginFragment(hdr);
        Assoc(Rewound(old(Abs())).mb, SC + hdr, src.Rest());
      } else {
        if !frag {
          return false;
        }
        if !NextSeq(fragSeq, seqno) {
          FragmentRewind();
          return false;
        }
      }
      EndFragment(fu, seqno, src);
      go := true;
    }

    /** One unit of an aggregation packet. */
    method TakeAggregated(src: Mbuf, len: nat)
      requires Valid() && src.Valid() && src != mb && !frag && src.pos + len <= |src.data|
      modifies mb, src`pos
      ensures Valid() && src.Valid() && src.pos == old(src.pos) + len
      ensures mb.data == old(mb.data) + SC + src.data[old(src.pos)..src.pos]
    {
      mb.Write(SC);
      mb.Write(src.data[src.pos..src.pos + len]);
      src.pos := src.pos + len;
    }

    /** The loop over the units of an aggregation packet. */
    method TakeAggregate(codec: Codec, src: Mbuf) returns (err: Errno)
      requires Valid() && src.Valid() && src != mb && !frag
      modifies mb, src`pos
      ensures Valid() && src.Valid()
      ensures var (bytes, e) := Aggregate(codec, old(src.Rest()));
              mb.data == old(mb.data) + bytes && err == e
    {
      hide Aggregate;
      ghost var d := src.data;
      ghost var all := AggregateInto(codec, mb.data, src.Rest());
      AggregateIntoAppends(codec, mb.data, src.Rest());
      while src.pos + 2 <= |src.data|
        invariant Valid() && src.Valid() && src.data == d
        invariant AggregateInto(codec, mb.data, d[src.pos..]) == all
        decreases |d| - src.pos
      {
        ghost var p := src.pos;
        var len := src.ReadU16();
        if |src.data| - src.pos < len {
          return EBADMSG;
        }
        if codec.H264? && src.pos == |src.data| {
          return ENOENT;
        }
        Slices(d, p, 2, 2 + len);
        TakeAggregated(src, len);
      }
      err := Ok;
    }

    lemma Slices(d: seq<byte>, p: nat, a: nat, b: nat)
      requires a <= b && p + b <= |d|
      ensures d[p..][a..b] == d[p + a..p + b] && d[p..][b..] == d[p + b..]
    {
    }

    /** The switch on the NAL type, after the keyframe gate. */
    method TakeH264(seqno: nat, src: Mbuf) returns (go: bool, err: Errno)
      requires Valid() && src.Valid() && src != mb && src.Rest() != []
      modifies this`frag, this`fragStart, this`fragSeq, mb, src`pos
      ensures Valid()
      ensures Taken(Abs(), go, err) == Take(old(Abs()), H264View(old(src.Rest())), seqno)
    {
      hide Aggregate, NextSeq, FragmentView;
      ghost var p := src.Rest();
      var h := src.ReadU8();
      var typ := H264Type(h);
      if h >= 0x80 {
        return false, EBADMSG;
      }
      if frag && typ != H264_FU_A {
        FragmentRewind();
      }
      if 1 <= typ <= 23 {
        src.pos := src.pos - 1;
        TakeUnit(src);
        assert src.Rest() == p;
        return true, Ok;
      } else if typ == H264_FU_A {
        if src.pos == |src.data| {
          return false, ENOENT;
        }
        var fu := src.ReadU8();
        assert src.Rest() == p[2..];
        go := TakeFragment(fu, [Nri(h) * 0x20 + H264Type(fu)], seqno, src);
        return go, Ok;
      } else if typ == H264_STAP_A {
        assert src.Rest() == p[1..];
        err := TakeAggregate(H264, src);
        return err == Ok, err;
      } else {
        assert mb.data + [] == mb.data;
        return false, EBADMSG;
      }
    }

    method DecodeH264(marker: bool, seqno: nat, src: Mbuf, lib: LibAnswer) returns (err: Errno)
      requires Valid() && src.Valid() && src != mb
      modifies this, mb, src
      ensures Valid()
      ensures Stepped(err, Step(old(Abs()), ViewOf(H264, old(src.Rest()), old(gotKeyframe)), marker, seqno, lib))
    {
      if src.pos == |src.data| {
        return ENOENT;
      }
      assert src.Rest()[0] == src.data[src.pos];
      if H264Type(src.data[src.pos]) == H264_SLICE && !gotKeyframe {
        return EPROTO;
      }
      var go;
      go, err := TakeH264(seqno, src);
      if go {
        err := Finish(marker, lib);
      }
    }

    /** The switch on the NAL type. */
    method TakeH265(seqno: nat, src: Mbuf) returns (go: bool, err: Errno)
      requires Valid() && src.Valid() && src != mb && |src.Rest()| >= 2
      modifies this`frag, this`fragStart, this`fragSeq, mb, src`pos
      ensures Valid()
      ensures Taken(Abs(), go, err) == Take(old(Abs()), H265View(old(src.Rest())), seqno)
    {
      ghost var p := src.Rest();
      var hdr := H265Decode(src.data[src.pos], src.data[src.pos + 1]);
      if hdr.None? {
        return false, EBADMSG;
      }
      src.pos := src.pos + 2;
      var typ, tid := hdr.value.typ, hdr.value.tid;
      if frag && typ != H265_FU {
        FragmentRewind();
      }
      if typ <= 40 {
        src.pos := src.pos - 2;
        TakeUnit(src);
        assert src.Rest() == p;
        return true, Ok;
      } else if typ == H265_FU {
        if src.pos == |src.data| {
          return false, EBADMSG;
        }
        var fu := src.ReadU8();
        assert src.Rest() == p[3..];
        go := TakeFragment(fu, H265Encode(fu % 0x40, tid), seqno, src);
        return go, Ok;
      } else if typ == H265_AP {
        assert src.Rest() == p[2..];
        err := TakeAggregate(H265, src);
        return err == Ok, err;
      } else {
        assert mb.data + [] == mb.data;
        return false, EPROTO;
      }
    }

    method DecodeH265(marker: bool, seqno: nat, src: Mbuf, lib: LibAnswer) returns (err: Errno)
      requires Valid() && src.Valid() && src != mb
      requires |src.Rest()| >= 2
      modifies this, mb, src
      ensures Valid()
      ensures Stepped(err, Step(old(Abs()), ViewOf(H265, old(src.Rest()), old(gotKeyframe)), marker, seqno, lib))
    {
      var go;
      go, err := TakeH265(seqno, src);
      if go {
        err := Finish(marker, lib);
      }
    }
  }
}
