// Call line numbers against the call list.
module CallLines {
  import opened Bytes

  const LINENUM_MIN: nat := 1
  const LINENUM_MAX: nat := 256

  /** `struct call`: the line number is set when the call is allocated. */
  class Call {
    const linenum: nat

    constructor (num: nat)
      ensures linenum == num
    {
      linenum := num;
    }
  }

  // ----- lists of calls -----

  predicate Uses(calls: seq<Call>, num: nat) {
    exists i :: 0 <= i < |calls| && calls[i].linenum == num
  }

  predicate InRange(num: nat) {
    LINENUM_MIN <= num < LINENUM_MAX
  }

  /** Distinct line numbers, all between 1 and 255. */
  predicate Numbered(calls: seq<Call>) {
    && (forall i :: 0 <= i < |calls| ==> InRange(calls[i].linenum))
    && forall i, j :: 0 <= i < j < |calls| ==> calls[i].linenum != calls[j].linenum
  }

  function NumbersBetween(lo: nat, hi: nat): (s: set<nat>)
    requires lo <= hi
    ensures |s| == hi - lo && forall n :: n in s <==> lo <= n < hi
    decreases hi - lo
  {
    if lo == hi then {} else NumbersBetween(lo, hi - 1) + {hi - 1}
  }

  function NumbersOf(calls: seq<Call>): set<nat> {
    set i | 0 <= i < |calls| :: calls[i].linenum
  }

  lemma {:induction false} NumbersOfSize(calls: seq<Call>)
    requires Numbered(calls)
    ensures |NumbersOf(calls)| == |calls|
  {
    if calls != [] {
      var front, last := calls[..|calls| - 1], calls[|calls| - 1];
      NumbersOfSize(front);
      assert NumbersOf(calls) == NumbersOf(front) + {last.linenum};
      assert last.linenum !in NumbersOf(front);
    } else {
      assert NumbersOf(calls) == {};
    }
  }

  lemma SubsetSize(a: set<nat>, b: set<nat>)
    requires a <= b
    ensures |a| <= |b|
    ensures |a| == |b| ==> a == b
  {
    assert b == a + (b - a);
    if |a| == |b| { assert b - a == {}; }
  }

  /** Pigeonhole: with distinct numbers in range there are at most 255 calls, and some number
      is free exactly when there are fewer. */
  lemma Pigeonhole(calls: seq<Call>)
    requires Numbered(calls)
    ensures |calls| <= LINENUM_MAX - LINENUM_MIN
    ensures (forall n :: InRange(n) ==> Uses(calls, n)) <==> |calls| == LINENUM_MAX - LINENUM_MIN
  {
    var all := NumbersBetween(LINENUM_MIN, LINENUM_MAX);
    NumbersOfSize(calls);
    SubsetSize(NumbersOf(calls), all);
    if forall n :: InRange(n) ==> Uses(calls, n) {
      forall n | n in all ensures n in NumbersOf(calls) {
        assert Uses(calls, n);
      }
      SubsetSize(all, NumbersOf(calls));
    }
    if |calls| == LINENUM_MAX - LINENUM_MIN {
      forall n | InRange(n) ensures Uses(calls, n) {
        assert n in NumbersOf(calls);
      }
    }
  }

  /** list_unlink. */
  function Without(calls: seq<Call>, c: Call): seq<Call> {
    if calls == [] then []
    else if calls[0] == c then calls[1..]
    else [calls[0]] + Without(calls[1..], c)
  }

  /** Every call of one list is in the other. */
  predicate Within(xs: seq<Call>, ys: seq<Call>) {
    forall i :: 0 <= i < |xs| ==> xs[i] in ys
  }

  lemma {:induction false} WithoutKeeps(calls: seq<Call>, c: Call)
    requires Numbered(calls)
    ensures var w := Without(calls, c);
            && Numbered(w) && Within(w, calls) && c !in w
            && (forall i :: 0 <= i < |calls| && calls[i] != c ==> calls[i] in w)
            && |w| == |calls| - if c in calls then 1 else 0
  {
    if calls == [] {
    } else {
      var rest := calls[1..];
      var w := Without(rest, c);
      assert calls == [calls[0]] + rest;
      WithoutKeeps(rest, c);
      if calls[0] != c {
        forall i | 0 <= i < |w| ensures w[i].linenum != calls[0].linenum {
          var j :| 0 <= j < |rest| && rest[j] == w[i];
          assert calls[j + 1] == rest[j];
        }
        NumberedCons(calls[0], w);
      }
    }
  }

  /** The others stay where they are: unlinking takes one call out of its place and leaves a list
      without it alone. */
  lemma {:induction false} WithoutAt(calls: seq<Call>, i: nat)
    requires Numbered(calls) && i < |calls|
    ensures Without(calls, calls[i]) == calls[..i] + calls[i + 1..]
  {
    if i == 0 {
      assert calls[..0] + calls[1..] == calls[1..];
    } else {
      var rest := calls[1..];
      WithoutAt(rest, i - 1);
      assert [calls[0]] + (rest[..i - 1] + rest[i..]) == calls[..i] + calls[i + 1..];
    }
  }

  lemma {:induction false} WithoutStranger(calls: seq<Call>, c: Call)
    requires c !in calls
    ensures Without(calls, c) == calls
  {
    if calls == [] {
    } else {
      WithoutStranger(calls[1..], c);
      assert calls == [calls[0]] + calls[1..];
    }
  }

  lemma NumberedCons(c: Call, calls: seq<Call>)
    requires InRange(c.linenum) && Numbered(calls) && forall i :: 0 <= i < |calls| ==> calls[i].linenum != c.linenum
    ensures Numbered([c] + calls)
  {
  }

  // ----- the operations -----

  /** The call list of a user agent. */
  class Ua {
    var calls: seq<Call>

    ghost predicate Valid()
      reads this
    {
      Numbered(calls)
    }

    constructor ()
      ensures Valid() && calls == []
    {
      calls := [];
    }

    /** call_find_linenum. */
    method FindLinenum(num: nat) returns (c: Call?)
      ensures c == null <==> !Uses(calls, num)
      ensures c != null ==> c in calls && c.linenum == num
    {
      var i := 0;
      while i < |calls|
        invariant i <= |calls| && forall j :: 0 <= j < i ==> calls[j].linenum != num
      {
        if calls[i].linenum == num {
          return calls[i];
        }
        i := i + 1;
      }
      c := null;
    }

    /** assign_linenum: the least free number, or none. */
    method AssignLinenum() returns (err: Errno, num: nat)
      ensures err == Ok ==> InRange(num) && !Uses(calls, num)
                            && forall n :: LINENUM_MIN <= n < num ==> Uses(calls, n)
      ensures err != Ok ==> err == ENOENT && forall n :: InRange(n) ==> Uses(calls, n)
    {
      num := LINENUM_MIN;
      while num < LINENUM_MAX
        invariant LINENUM_MIN <= num <= LINENUM_MAX
        invariant forall n :: LINENUM_MIN <= n < num ==> Uses(calls, n)
      {
        var c := FindLinenum(num);
        if c == null {
          return Ok, num;
        }
        num := num + 1;
      }
      err := ENOENT;
    }

    /** The end of call_alloc: a new call gets the least free number and goes to the tail; it
        fails exactly when 255 calls exist. */
    method Alloc() returns (err: Errno, c: Call?)
      requires Valid()
      modifies this
      ensures Valid()
      ensures err != Ok <==> |old(calls)| == LINENUM_MAX - LINENUM_MIN
      ensures err != Ok ==> err == ENOENT && c == null && calls == old(calls)
      ensures err == Ok ==> c != null && fresh(c) && calls == old(calls) + [c]
                            && !Uses(old(calls), c.linenum)
                            && forall n :: LINENUM_MIN <= n < c.linenum ==> Uses(old(calls), n)
    {
      Pigeonhole(calls);
      var num;
      err, num := AssignLinenum();
      if err != Ok {
        return err, null;
      }
      assert InRange(num) && !Uses(calls, num);
      var n := new Call(num);
      calls := calls + [n];
      c := n;
    }

    /** A call that ends leaves the list; the others keep their order, so the current call, the
        tail, stays current unless it is the one that ends. */
    method Unlink(c: Call)
      requires Valid()
      modifies this
      ensures Valid()
      ensures c !in old(calls) ==> calls == old(calls)
      ensures forall i :: 0 <= i < |old(calls)| && old(calls)[i] == c ==>
                calls == old(calls)[..i] + old(calls)[i + 1..]
      ensures old(calls) != [] && old(calls)[|old(calls)| - 1] != c ==>
                calls != [] && calls[|calls| - 1] == old(calls)[|old(calls)| - 1]
    {
      WithoutKeeps(calls, c);
      if c !in calls {
        WithoutStranger(calls, c);
      }
      forall i | 0 <= i < |calls| && calls[i] == c ensures Without(calls, c) == calls[..i] + calls[i + 1..] {
        WithoutAt(calls, i);
      }
      calls := Without(calls, c);
    }

    /** call_set_current: to the tail; the same calls with the same numbers, the others in their
        order. */
    method SetCurrent(c: Call)
      requires Valid() && c in calls
      modifies this
      ensures Valid()
      ensures forall i :: 0 <= i < |old(calls)| && old(calls)[i] == c ==>
                calls == old(calls)[..i] + old(calls)[i + 1..] + [c]
      ensures |calls| == |old(calls)| && Within(calls, old(calls)) && Within(old(calls), calls)
    {
      WithoutKeeps(calls, c);
      OthersDiffer(calls, c);
      forall i | 0 <= i < |calls| && calls[i] == c ensures Without(calls, c) == calls[..i] + calls[i + 1..] {
        WithoutAt(calls, i);
      }
      calls := Without(calls, c) + [c];
    }

    lemma OthersDiffer(l: seq<Call>, c: Call)
      requires Numbered(l) && c in l
      ensures InRange(c.linenum)
      ensures var w := Without(l, c);
              forall i :: 0 <= i < |w| ==> w[i].linenum != c.linenum
    {
      WithoutKeeps(l, c);
      var w := Without(l, c);
      var k :| 0 <= k < |l| && l[k] == c;
      forall i | 0 <= i < |w| ensures w[i].linenum != c.linenum {
        var j :| 0 <= j < |l| && l[j] == w[i];
      }
    }

    /** ua_print_calls: one line per number found, leaving as soon as as many lines as calls
        are out. Every call is printed exactly once, in ascending order of number, and the
        mark is on the current call, the tail of the list. */
    method PrintCalls() returns (lines: seq<Call>, marks: seq<bool>)
      requires Valid()
      ensures Listing(lines, calls)
      ensures |marks| == |lines| && (lines != [] ==> calls != [])
      ensures forall i :: 0 <= i < |lines| ==> (marks[i] <==> lines[i] == calls[|calls| - 1])
    {
      hide Listing, PrintedBelow, Numbered, Uses;
      var n, count := |calls|, 0;
      lines, marks := [], [];
      NonePrinted(calls);
      var linenum := LINENUM_MIN;
      while linenum < LINENUM_MAX
        invariant LINENUM_MIN <= linenum <= LINENUM_MAX && count == |lines|
        invariant PrintedBelow(lines, calls, linenum)
        invariant |marks| == |lines| && (lines != [] ==> calls != [])
        invariant forall i :: 0 <= i < |lines| ==> (marks[i] <==> lines[i] == calls[|calls| - 1])
        decreases LINENUM_MAX - linenum
      {
        var c := FindLinenum(linenum);
        ghost var before := lines;
        if c != null {
          count := count + 1;
          lines := lines + [c];
          marks := marks + [c == calls[|calls| - 1]];
        }
        PrintOne(before, lines, calls, linenum, c);
        if count >= n {
          EarlyExit(lines, calls, linenum + 1);
          return;
        }
        linenum := linenum + 1;
      }
      AllOut(lines, calls);
    }
  }

  lemma NonePrinted(calls: seq<Call>)
    requires Numbered(calls)
    ensures PrintedBelow([], calls, LINENUM_MIN)
  {
  }

  lemma AllOut(lines: seq<Call>, calls: seq<Call>)
    requires Numbered(calls) && PrintedBelow(lines, calls, LINENUM_MAX)
    ensures Listing(lines, calls)
  {
    AscendingNumbered(lines, calls);
    forall n | n in NumbersOf(calls) ensures n in NumbersOf(lines) {
      var i :| 0 <= i < |calls| && calls[i].linenum == n;
      assert calls[i] in calls;
      var j :| 0 <= j < |lines| && lines[j] == calls[i];
    }
    NumbersOfSize(lines);
    NumbersOfSize(calls);
    SubsetSize(NumbersOf(calls), NumbersOf(lines));
    EarlyExit(lines, calls, LINENUM_MAX);
  }

  predicate Ascending(lines: seq<Call>) {
    forall i, j :: 0 <= i < j < |lines| ==> lines[i].linenum < lines[j].linenum
  }

  /** The same calls, each once, by number. */
  predicate Listing(lines: seq<Call>, calls: seq<Call>) {
    && Ascending(lines) && |lines| == |calls|
    && (forall c :: c in calls ==> c in lines)
    && (forall c :: c in lines ==> c in calls)
  }

  /** Exactly the calls with a number below num are out, in order. */
  predicate PrintedBelow(lines: seq<Call>, calls: seq<Call>, num: nat) {
    && Ascending(lines)
    && (forall c :: c in lines ==> c in calls && c.linenum < num)
    && (forall c :: c in calls && c.linenum < num ==> c in lines)
  }

  lemma PrintOne(before: seq<Call>, lines: seq<Call>, calls: seq<Call>, num: nat, c: Call?)
    requires Numbered(calls) && PrintedBelow(before, calls, num)
    requires c == null ==> !Uses(calls, num) && lines == before
    requires c != null ==> c in calls && c.linenum == num && lines == before + [c]
    ensures PrintedBelow(lines, calls, num + 1)
  {
    forall x | x in calls && x.linenum == num ensures c == x {
      var i :| 0 <= i < |calls| && calls[i] == x;
      if c != null {
        var j :| 0 <= j < |calls| && calls[j] == c;
      }
    }
    forall i | 0 <= i < |before| ensures before[i].linenum < num {
      assert before[i] in before;
    }
  }

  lemma AscendingNumbered(lines: seq<Call>, calls: seq<Call>)
    requires Numbered(calls) && Ascending(lines) && forall c :: c in lines ==> c in calls
    ensures Numbered(lines)
  {
    forall i | 0 <= i < |lines| ensures InRange(lines[i].linenum) {
      assert lines[i] in lines;
    }
  }

  /** As many lines as calls means all calls are out: the early exit loses none. */
  lemma EarlyExit(lines: seq<Call>, calls: seq<Call>, num: nat)
    requires Numbered(calls) && PrintedBelow(lines, calls, num) && |lines| >= |calls|
    ensures Listing(lines, calls)
  {
    AscendingNumbered(lines, calls);
    NumbersOfSize(lines);
    NumbersOfSize(calls);
    forall n | n in NumbersOf(lines) ensures n in NumbersOf(calls) {
      var i :| 0 <= i < |lines| && lines[i].linenum == n;
      assert lines[i] in lines;
      var j :| 0 <= j < |calls| && calls[j] == lines[i];
    }
    SubsetSize(NumbersOf(lines), NumbersOf(calls));
    forall c | c in calls ensures c in lines {
      var j :| 0 <= j < |calls| && calls[j] == c;
      assert c.linenum in NumbersOf(lines);
      var i :| 0 <= i < |lines| && lines[i].linenum == c.linenum;
      assert lines[i] in lines;
      var k :| 0 <= k < |calls| && calls[k] == lines[i];
    }
  }
}
