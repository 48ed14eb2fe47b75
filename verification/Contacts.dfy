// The contact list and the hash table that indexes it.
module Contacts {
  import opened Bytes

  datatype Access = Unknown | Block | Allow

  /** The access parameter of a contact address, once parsed. */
  datatype AccessParam = Missing | IsBlock | IsAllow | Other

  /** `struct contact`: the address-of-record and the access rule never change. */
  class Contact {
    const uri: string
    const access: Access

    constructor (u: string, a: Access)
      ensures uri == u && access == a
    {
      uri, access := u, a;
    }
  }

  const BUCKETS: nat := 32
  const WILDCARD: string := "sip:*@*"

  // ----- lists -----

  /** The first entry with this URI. */
  function FirstWith(l: seq<Contact>, uri: string): Contact? {
    if l == [] then null
    else
      var f := FirstWith(l[..|l| - 1], uri);
      if f != null then f else if l[|l| - 1].uri == uri then l[|l| - 1] else null
  }

  /** Null means no entry has the URI; otherwise the entry at i is the first that has. */
  lemma {:induction false} FirstWithIs(l: seq<Contact>, uri: string) returns (i: nat)
    ensures i <= |l| && forall j :: 0 <= j < i ==> l[j].uri != uri
    ensures if FirstWith(l, uri) == null then i == |l|
            else i < |l| && l[i] == FirstWith(l, uri) && l[i].uri == uri
  {
    if l == [] {
      i := 0;
    } else {
      i := FirstWithIs(l[..|l| - 1], uri);
      if i == |l| - 1 && l[i].uri != uri {
        i := i + 1;
      }
    }
  }

  /** list_unlink: the list without one entry; no change when it is not linked. */
  function Without(l: seq<Contact>, c: Contact): seq<Contact> {
    if l == [] then []
    else if l[|l| - 1] == c then l[..|l| - 1]
    else Without(l[..|l| - 1], c) + [l[|l| - 1]]
  }

  predicate Distinct(l: seq<Contact>) {
    forall i, j :: 0 <= i < j < |l| ==> l[i] != l[j]
  }

  /** The entries of one bucket, in list order. */
  function InBucket(l: seq<Contact>, hash: string -> nat, b: nat): seq<Contact> {
    if l == [] then []
    else InBucket(l[..|l| - 1], hash, b)
         + if hash(l[|l| - 1].uri) % BUCKETS == b then [l[|l| - 1]] else []
  }

  lemma {:induction false} InBucketOnly(l: seq<Contact>, hash: string -> nat, b: nat)
    ensures forall c :: c in InBucket(l, hash, b) <==> c in l && hash(c.uri) % BUCKETS == b
  {
    if l == [] {
    } else {
      InBucketOnly(l[..|l| - 1], hash, b);
      assert l == l[..|l| - 1] + [l[|l| - 1]];
    }
  }

  lemma DistinctSnoc(l: seq<Contact>, x: Contact)
    ensures Distinct(l + [x]) <==> Distinct(l) && x !in l
  {
    var m := l + [x];
    assert m[|l|] == x && forall i :: 0 <= i < |l| ==> m[i] == l[i];
  }

  lemma {:induction false} WithoutIs(l: seq<Contact>, c: Contact)
    requires Distinct(l)
    ensures Distinct(Without(l, c)) && c !in Without(l, c)
    ensures forall x :: x in Without(l, c) <==> x in l && x != c
    ensures |Without(l, c)| == |l| - if c in l then 1 else 0
  {
    if l == [] {
    } else {
      var front, last := l[..|l| - 1], l[|l| - 1];
      assert l == front + [last];
      DistinctSnoc(front, last);
      WithoutIs(front, c);
      DistinctSnoc(Without(front, c), last);
    }
  }

  lemma SnocWithout(l: seq<Contact>, x: Contact, c: Contact)
    ensures Without(l + [x], c) == if x == c then l else Without(l, c) + [x]
  {
    assert (l + [x])[..|l|] == l;
  }

  lemma InBucketSnoc(l: seq<Contact>, x: Contact, hash: string -> nat, b: nat)
    ensures InBucket(l + [x], hash, b) == InBucket(l, hash, b) + if hash(x.uri) % BUCKETS == b then [x] else []
  {
    assert (l + [x])[..|l|] == l;
  }

  /** Unlinking from the list and unlinking from the bucket agree. */
  lemma {:induction false} BucketWithout(l: seq<Contact>, hash: string -> nat, b: nat, c: Contact)
    requires Distinct(l)
    ensures InBucket(Without(l, c), hash, b) == Without(InBucket(l, hash, b), c)
  {
    if l == [] {
    } else {
      var front, last := l[..|l| - 1], l[|l| - 1];
      assert l == front + [last];
      DistinctSnoc(front, last);
      BucketWithout(front, hash, b, c);
      var ib := InBucket(front, hash, b);
      assert ib + [] == ib;
      SnocWithout(ib, last, c);
      if last == c {
        InBucketOnly(front, hash, b);
        NotIn(ib, c);
      } else {
        InBucketSnoc(Without(front, c), last, hash, b);
      }
    }
  }

  lemma {:induction false} NotIn(l: seq<Contact>, c: Contact)
    requires c !in l
    ensures Without(l, c) == l
  {
    if l == [] {
    } else {
      NotIn(l[..|l| - 1], c);
      assert l == l[..|l| - 1] + [l[|l| - 1]];
    }
  }

  /** Looking in the right bucket finds what looking through the whole list would. */
  lemma {:induction false} BucketSuffices(l: seq<Contact>, hash: string -> nat, uri: string)
    ensures FirstWith(InBucket(l, hash, hash(uri) % BUCKETS), uri) == FirstWith(l, uri)
  {
    if l == [] {
    } else {
      var front, last := l[..|l| - 1], l[|l| - 1];
      BucketSuffices(front, hash, uri);
      var b := InBucket(front, hash, hash(uri) % BUCKETS);
      assert (b + [last])[..|b|] == b;
      assert b + [] == b;
    }
  }

  // ----- the container -----

  /** The documented rule: the entry for the URI decides unless it says nothing, then the
      wildcard entry, then access is free. */
  function Blocked(l: seq<Contact>, uri: string): bool {
    var exact, any := FirstWith(l, uri), FirstWith(l, WILDCARD);
    if exact != null && exact.access != Unknown then exact.access == Block
    else any != null && any.access == Block
  }

  class Contacts {
    const hash: string -> nat
    var cl: seq<Contact>
    var cht: seq<seq<Contact>>
    var cur: Contact?

    /** Every bucket is the list filtered by hash, in list order. */
    ghost predicate Valid()
      reads this
    {
      && Distinct(cl)
      && |cht| == BUCKETS
      && forall b :: 0 <= b < BUCKETS ==> cht[b] == InBucket(cl, hash, b)
    }

    constructor (h: string -> nat)
      ensures Valid() && cl == [] && cur == null && hash == h
    {
      hash := h;
      cl, cur := [], null;
      cht := seq(BUCKETS, b => []);
    }

    /** contact_add; an address that does not parse or an unknown access word is refused. */
    method Add(parsed: Option<string>, param: AccessParam) returns (err: Errno, c: Contact?)
      requires Valid()
      modifies this`cl, this`cht
      ensures Valid()
      ensures parsed.None? || param.Other? ==> err == EINVAL && c == null && cl == old(cl) && cht == old(cht)
      ensures parsed.Some? && !param.Other? ==>
                && err == Ok && c != null && fresh(c) && c.uri == parsed.value
                && c.access == (if param.IsBlock? then Block else if param.IsAllow? then Allow else Unknown)
                && cl == old(cl) + [c]
    {
      if parsed.None? {
        return EINVAL, null;
      }
      if param.Other? {
        return EINVAL, null;
      }
      var n := new Contact(parsed.value, if param.IsBlock? then Block else if param.IsAllow? then Allow else Unknown);
      var key := hash(n.uri) % BUCKETS;
      ghost var l := cl;
      cl := cl + [n];
      cht := cht[key := cht[key] + [n]];
      assert cl[..|cl| - 1] == l;
      assert forall b :: 0 <= b < BUCKETS ==> InBucket(l, hash, b) + [] == InBucket(l, hash, b);
      err, c := Ok, n;
    }

    /** contact_remove: out of the hash table, out of the list, no longer current. */
    method Remove(c: Contact)
      requires Valid()
      modifies this
      ensures Valid()
      ensures cl == Without(old(cl), c)
      ensures cur == if old(cur) == c then null else old(cur)
    {
      ghost var l := cl;
      var key := hash(c.uri) % BUCKETS;
      cht := cht[key := Without(cht[key], c)];
      cl := Without(cl, c);
      if cur == c {
        cur := null;
      }
      WithoutIs(l, c);
      forall b | 0 <= b < BUCKETS ensures cht[b] == InBucket(cl, hash, b) {
        BucketWithout(l, hash, b, c);
        InBucketOnly(l, hash, b);
        if b != key {
          NotIn(InBucket(l, hash, b), c);
        }
      }
    }

    /** contact_find: walks one bucket. */
    method Find(uri: string) returns (c: Contact?)
      requires Valid()
      ensures c == FirstWith(cl, uri)
    {
      var bucket := cht[hash(uri) % BUCKETS];
      BucketSuffices(cl, hash, uri);
      var i := 0;
      c := null;
      while i < |bucket|
        invariant i <= |bucket| && c == FirstWith(bucket[..i], uri) == null
      {
        assert bucket[..i + 1][..i] == bucket[..i];
        if bucket[i].uri == uri {
          c := bucket[i];
          FirstStays(bucket, i + 1, uri);
          return;
        }
        i := i + 1;
      }
      assert bucket[..i] == bucket;
    }

    lemma {:induction false} FirstStays(l: seq<Contact>, i: nat, uri: string)
      requires i <= |l| && FirstWith(l[..i], uri) != null
      ensures FirstWith(l, uri) == FirstWith(l[..i], uri)
    {
      if i == |l| {
        assert l[..i] == l;
      } else {
        assert l[..|l| - 1][..i] == l[..i];
        FirstStays(l[..|l| - 1], i, uri);
      }
    }

    /** contact_block_access. */
    method BlockAccess(uri: string) returns (blocked: bool)
      requires Valid()
      ensures blocked == Blocked(cl, uri)
    {
      var c := Find(uri);
      if c != null && c.access != Unknown {
        return c.access == Block;
      }
      c := Find(WILDCARD);
      if c != null && c.access != Unknown {
        return c.access == Block;
      }
      blocked := false;
    }

    /** contacts_set_current. */
    method SetCurrent(c: Contact?)
      requires Valid()
      modifies this`cur
      ensures Valid() && cur == if c == null then old(cur) else c
    {
      if c != null {
        cur := c;
      }
    }
  }

  // ----- what a sequence of calls amounts to -----

  /** A new entry is found only when no earlier one has its URI. */
  lemma FindAfterAdd(l: seq<Contact>, c: Contact, uri: string)
    ensures FirstWith(l + [c], uri)
            == if FirstWith(l, uri) != null then FirstWith(l, uri) else if c.uri == uri then c else null
  {
    assert (l + [c])[..|l|] == l;
  }

  lemma {:induction false} FirstOfTwo(a: seq<Contact>, b: seq<Contact>, uri: string)
    ensures FirstWith(a + b, uri) == if FirstWith(a, uri) != null then FirstWith(a, uri) else FirstWith(b, uri)
    decreases |b|
  {
    if b == [] {
      assert a + b == a;
    } else {
      FirstOfTwo(a, b[..|b| - 1], uri);
      assert (a + b)[..|a + b| - 1] == a + b[..|b| - 1];
    }
  }

  lemma {:induction false} WithoutAt(l: seq<Contact>, i: nat)
    requires Distinct(l) && i < |l|
    ensures Without(l, l[i]) == l[..i] + l[i + 1..]
  {
    var n := |l| - 1;
    if i == n {
      assert l[..n] + l[n + 1..] == l[..n];
    } else {
      WithoutAt(l[..n], i);
      assert l[..n][..i] == l[..i];
      assert l[..i] + l[..n][i + 1..] + [l[n]] == l[..i] + l[i + 1..];
    }
  }

  lemma {:induction false} WithoutStranger(l: seq<Contact>, c: Contact)
    requires c !in l
    ensures Without(l, c) == l
  {
    if l == [] {
    } else {
      WithoutStranger(l[..|l| - 1], c);
      assert l == l[..|l| - 1] + [l[|l| - 1]];
    }
  }

  lemma FirstOfOne(c: Contact, uri: string)
    ensures FirstWith([c], uri) == if c.uri == uri then c else null
  {
  }

  lemma FirstIsIn(l: seq<Contact>, c: Contact, uri: string)
    requires FirstWith(l, uri) == c
    ensures c in l && c.uri == uri
  {
    var i := FirstWithIs(l, uri);
  }

  lemma RemovedAt(l: seq<Contact>, i: nat, uri: string)
    requires Distinct(l) && i < |l|
    ensures FirstWith(Without(l, l[i]), uri)
            == if FirstWith(l, uri) == l[i] then FirstWith(l[i + 1..], uri) else FirstWith(l, uri)
  {
    hide FirstWith, Without;
    var c, before, after := l[i], l[..i], l[i + 1..];
    WithoutAt(l, i);
    assert l == before + ([c] + after) && c !in before && c !in after;
    FirstOfTwo(before, after, uri);
    FirstOfTwo(before, [c] + after, uri);
    FirstOfTwo([c], after, uri);
    FirstOfOne(c, uri);
    if FirstWith(before, uri) == c { FirstIsIn(before, c, uri); }
    if FirstWith(after, uri) == c { FirstIsIn(after, c, uri); }
  }

  /** Removing an entry uncovers the next one after it with the URI and hides nothing else. */
  lemma FindAfterRemove(l: seq<Contact>, c: Contact, uri: string)
    requires Distinct(l)
    ensures FirstWith(l, uri) != c ==> FirstWith(Without(l, c), uri) == FirstWith(l, uri)
    ensures forall i :: 0 <= i < |l| && l[i] == c && FirstWith(l, uri) == c ==>
              FirstWith(Without(l, c), uri) == FirstWith(l[i + 1..], uri)
  {
    hide FirstWith, Without;
    if c !in l {
      WithoutStranger(l, c);
    } else {
      forall i | 0 <= i < |l| && l[i] == c
        ensures FirstWith(Without(l, c), uri)
                == if FirstWith(l, uri) == c then FirstWith(l[i + 1..], uri) else FirstWith(l, uri)
      {
        RemovedAt(l, i, uri);
      }
    }
  }

  /** Adding a contact and removing it again leaves every lookup and every decision as before. */
  lemma RemoveUndoesAdd(l: seq<Contact>, c: Contact)
    requires c !in l
    ensures Without(l + [c], c) == l
  {
    assert (l + [c])[..|l|] == l;
  }

  /** Precedence: an entry with a rule of its own decides whatever the wildcard says, and
      without one the wildcard alone decides. */
  lemma ExactBeatsWildcard(l: seq<Contact>, uri: string)
    ensures var c := FirstWith(l, uri);
            var any := FirstWith(l, WILDCARD);
            Blocked(l, uri) <==>
              (c != null && c.access == Block)
              || ((c == null || c.access == Unknown) && any != null && any.access == Block)
  {
  }
}
