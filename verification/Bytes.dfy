// Bytes, error codes and the message buffer shared by the media modules.
module Bytes {
  /** Bytes are integers; masks and shifts are written as remainders and quotients by
      powers of two, and `or` with a bit known to be clear as a sum. */
  type byte = x: int | 0 <= x < 0x100

  datatype Option<+T> = None | Some(value: T)

  /** The error codes returned by the modelled functions; Ok is 0 in the C code. */
  datatype Errno = Ok | EPROTO | EBADMSG | ENOENT | ENOMEM | EINVAL | ENODATA

  /** libre's mbuf: the bytes up to `end`, and a position. Writes land at the position
      and overwrite what is there; allocation failure is not modelled. */
  class Mbuf {
    var data: seq<byte>
    var pos: nat

    ghost predicate Valid()
      reads this
    {
      pos <= |data|
    }

    /** What is left to read. */
    function Rest(): seq<byte>
      requires Valid()
      reads this
    {
      data[pos..]
    }

    constructor ()
      ensures Valid() && data == [] && pos == 0
    {
      data, pos := [], 0;
    }

    constructor From(bytes: seq<byte>)
      ensures Valid() && data == bytes && pos == 0
    {
      data, pos := bytes, 0;
    }

    method Write(b: seq<byte>)
      requires Valid()
      modifies this
      ensures Valid()
      ensures pos == old(pos) + |b|
      ensures data == old(data)[..old(pos)] + b
                      + if pos < |old(data)| then old(data)[pos..] else []
    {
      data := data[..pos] + b + if pos + |b| < |data| then data[pos + |b|..] else [];
      pos := pos + |b|;
    }

    method ReadU8() returns (v: byte)
      requires Valid() && pos < |data|
      modifies this`pos
      ensures Valid() && pos == old(pos) + 1 && v == data[old(pos)]
    {
      v := data[pos];
      pos := pos + 1;
    }

    /** A 16-bit integer in network byte order. */
    method ReadU16() returns (v: nat)
      requires Valid() && pos + 2 <= |data|
      modifies this`pos
      ensures Valid() && pos == old(pos) + 2 && v == U16(data[old(pos)], data[old(pos) + 1])
    {
      v := U16(data[pos], data[pos + 1]);
      pos := pos + 2;
    }

    /** mbuf_rewind: position and end both go to the start. */
    method Rewind()
      modifies this
      ensures Valid() && data == [] && pos == 0
    {
      data, pos := [], 0;
    }
  }

  lemma Assoc<T>(a: seq<T>, b: seq<T>, c: seq<T>)
    ensures a + (b + c) == a + b + c
  {
  }

  function U16(hi: byte, lo: byte): nat {
    hi * 0x100 + lo
  }
}
