// Lost packets counted from 16-bit sequence numbers.
module LossCount {
  const U16: int := 0x10000
  const NONE: nat := 0xffff_ffff

  /** lostcalc: the loss reported (negative for a packet to ignore) and the new pseq. */
  function LostCalc(pseq: nat, seqno: nat): (int, nat) {
    var delta := (seqno - pseq) % U16;
    if pseq == NONE then (0, seqno)
    else if delta == 0 then (-1, pseq)
    else if delta < 3000 then (delta - 1, seqno)
    else if delta < 0xff9c then (0, seqno)
    else (-2, pseq)
  }

  /** The fields of `struct stream` that follow the numbering. */
  class Stream {
    var pseq: nat
    var pseqSet: bool
    var ssrc: nat

    constructor ()
      ensures pseq == NONE && !pseqSet && ssrc == 0
    {
      pseq, pseqSet, ssrc := NONE, false, 0;
    }

    /** The numbering part of rtp_handler: the first packet, or a new source, makes its own
        number the next one expected. The subtraction is made in int and stored unsigned. */
    method Arrive(hdrSsrc: nat, hdrSeq: nat) returns (flush: bool)
      requires hdrSeq < U16
      modifies this
      ensures pseqSet && ssrc == hdrSsrc
      ensures flush <==> old(pseqSet) && hdrSsrc != old(ssrc)
      ensures pseq == if !old(pseqSet) || flush then Before(hdrSeq) else old(pseq)
    {
      flush := false;
      if !pseqSet {
        ssrc := hdrSsrc;
        pseq := Before(hdrSeq);
        pseqSet := true;
      } else if hdrSsrc != ssrc {
        ssrc := hdrSsrc;
        pseq := Before(hdrSeq);
        flush := true;
      }
    }

    method Lost(seqno: nat) returns (lostc: int)
      modifies this`pseq
      ensures (lostc, pseq) == LostCalc(old(pseq), seqno)
    {
      var delta := (seqno - pseq) % U16;
      if pseq == NONE {
        lostc := 0;
      } else if delta == 0 {
        return -1;
      } else if delta < 3000 {
        lostc := delta - 1;
      } else if delta < 0xff9c {
        lostc := 0;
      } else {
        return -2;
      }
      pseq := seqno;
    }
  }

  function Before(seqno: nat): nat {
    (seqno - 1) % 0x1_0000_0000
  }

  /** What a call should do, in true (unwrapped) sequence numbers: a packet at most 100 behind
      the last accepted one, or a duplicate, is ignored, one 1 to 2999 ahead reports the gap,
      anything else is a jump that reports nothing. */
  function Meaning(last: nat, q: nat): (int, nat) {
    var d := q - last;
    if -100 <= d < 0 then (-2, last % U16)
    else if d == 0 then (-1, last % U16)
    else if 0 < d < 3000 then (d - 1, q % U16)
    else (0, q % U16)
  }

  /** The 16-bit numbers are enough for that exactly for steps of at most 100 back and 2999
      ahead, and for longer ones that do not come out as one of those modulo 2^16; a step
      that comes out as 1 reports nothing either way. */
  lemma CallMeaning(last: nat, q: nat)
    ensures var d := q - last;
            LostCalc(last % U16, q % U16) == Meaning(last, q)
            <==> -100 <= d < 3000 || 3000 <= d % U16 < 0xff9c || d % U16 == 1
  {
    Difference(q, last);
    var d := q - last;
    if -100 <= d < 3000 {
      assert d % U16 == if d < 0 then d + U16 else d;
    }
  }

  /** After the first packet of a source, number q0, the first packet counted (q, possibly
      another one out of the jitter buffer) is treated as any other exactly when, modulo 2^16,
      q0 is not 0 or q is q0, or q is a jump: the value stored before number 0 is the
      marker for "no packet yet", and then nothing is ever reported. */
  lemma FirstPacket(q0: nat, q: nat)
    ensures LostCalc(Before(q0 % U16), q % U16) == LostCalc((q0 - 1) % U16, q % U16)
            <==> q0 % U16 != 0 || (q - q0) % U16 == 0 || 3000 <= (q - q0 + 1) % U16 < 0xff9c
  {
    if q0 % U16 != 0 {
      assert Before(q0 % U16) == (q0 - 1) % U16;
    } else {
      assert Before(q0 % U16) == NONE && (q0 - 1) % U16 == 0xffff;
      Difference(q, q0 - 1);
      OneMore(q - q0);
    }
  }

  lemma Difference(a: int, b: int)
    ensures (a % U16 - b % U16) % U16 == (a - b) % U16
  {
  }

  lemma OneMore(d: int)
    ensures d % U16 == 0 <==> (d + 1) % U16 == 1
  {
  }

  // ----- whole runs -----

  /** The branch of lostcalc that takes a packet and reports nothing for what it skips. */
  predicate Jumps(pseq: nat, seqno: nat) {
    3000 <= (seqno - pseq) % U16 < 0xff9c
  }

  /** Totals over a run: losses reported, packets accepted, and numbers skipped by jumps. */
  datatype Ledger = Ledger(pseq: nat, last: nat, lost: int, accepted: nat, jumped: int)

  function Book(l: Ledger, q: nat): Ledger {
    var (lostc, pseq') := LostCalc(l.pseq, q % U16);
    if lostc < 0 then l.(pseq := pseq')
    else Ledger(pseq', q, l.lost + lostc, l.accepted + 1,
                l.jumped + if Jumps(l.pseq, q % U16) then q - l.last - 1 else 0)
  }

  /** The calls for packets with true numbers qs, after packet `start` was accepted. */
  function Run(start: nat, qs: seq<nat>): Ledger {
    if qs == [] then Ledger(start % U16, start, 0, 0, 0)
    else Book(Run(start, qs[..|qs| - 1]), qs[|qs| - 1])
  }

  /** How many whole wraps the steps that were counted as 1 to 2999 numbers are longer than
      that. */
  function Unseen(start: nat, qs: seq<nat>): int {
    if qs == [] then 0
    else
      var front := qs[..|qs| - 1];
      var d := qs[|qs| - 1] - Run(start, front).last;
      Unseen(start, front) + if 1 <= d % U16 < 3000 then d / U16 else 0
  }

  /** Every step that is counted as 1 to 2999 numbers is that long. */
  predicate AsLongAsItLooks(start: nat, qs: seq<nat>) {
    qs != [] ==>
      var front := qs[..|qs| - 1];
      var d := qs[|qs| - 1] - Run(start, front).last;
      AsLongAsItLooks(start, front) && (1 <= d % U16 < 3000 ==> 1 <= d < 3000)
  }

  /** Only steps of the counting kind: at most 100 back, at most 2999 ahead. */
  predicate NoJumps(start: nat, qs: seq<nat>) {
    qs != [] ==>
      && NoJumps(start, qs[..|qs| - 1])
      && -100 <= qs[|qs| - 1] - Run(start, qs[..|qs| - 1]).last < 3000
  }

  // One call: the numbers it accounts for, and the wraps it cannot see.
  lemma CallAccounts(l: Ledger, q: nat)
    requires l.pseq == l.last % U16
    ensures var l' := Book(l, q);
            var d := q - l.last;
            && l'.pseq == l'.last % U16 && l'.lost >= l.lost
            && (l'.lost - l.lost) + (l'.accepted - l.accepted) + (l'.jumped - l.jumped)
               == l'.last - l.last - (if 1 <= d % U16 < 3000 then d / U16 * U16 else 0)
            && (-100 <= d < 3000 ==> l'.jumped == l.jumped && !(1 <= d % U16 < 3000 && d / U16 != 0))
  {
    Difference(q, l.last);
    var d := q - l.last;
    assert d == d / U16 * U16 + d % U16;
  }

  lemma {:induction false} Balance(start: nat, qs: seq<nat>)
    ensures var l := Run(start, qs);
            && l.pseq == l.last % U16 && l.lost >= 0
            && l.lost + l.accepted + l.jumped + Unseen(start, qs) * U16 == l.last - start
  {
    hide LostCalc, Book;
    if qs == [] {
    } else {
      var front, q := qs[..|qs| - 1], qs[|qs| - 1];
      Balance(start, front);
      CallAccounts(Run(start, front), q);
    }
  }

  lemma {:induction false} NothingUnseen(start: nat, qs: seq<nat>)
    ensures AsLongAsItLooks(start, qs) ==> Unseen(start, qs) == 0
    ensures NoJumps(start, qs) ==> Unseen(start, qs) == 0 && Run(start, qs).jumped == 0
  {
    hide LostCalc, Book;
    if qs == [] {
    } else {
      var front, q := qs[..|qs| - 1], qs[|qs| - 1];
      NothingUnseen(start, front);
      Balance(start, front);
      CallAccounts(Run(start, front), q);
    }
  }

  /** Conservation over any run, across any number of 16-bit wraps: losses reported, packets
      accepted and numbers skipped by jumps add up to the total advance, but for the whole
      wraps in steps that were counted as 1 to 2999. So they agree with it modulo 2^16 always,
      and exactly when those wraps cancel out, as they do when every such step is as long as
      it looks. Without jumps losses and accepted packets alone account for every number. */
  lemma EveryNumberAccounted(start: nat, qs: seq<nat>)
    ensures var l := Run(start, qs);
            var total := l.lost + l.accepted + l.jumped;
            && l.pseq == l.last % U16 && l.lost >= 0
            && total + Unseen(start, qs) * U16 == l.last - start
            && total % U16 == (l.last - start) % U16
            && (total == l.last - start <==> Unseen(start, qs) == 0)
            && (AsLongAsItLooks(start, qs) ==> Unseen(start, qs) == 0)
            && (NoJumps(start, qs) ==> l.jumped == 0 && l.lost + l.accepted == l.last - start)
  {
    hide Run, Unseen, NoJumps, AsLongAsItLooks;
    Balance(start, qs);
    NothingUnseen(start, qs);
  }
}
