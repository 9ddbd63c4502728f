/** Keys as bytes: the bytewise order, shortened separators, and internal keys over them. */
module Separators {
  import opened Coding

  /** The bytewise comparator: lexicographic, a prefix before its extensions. */
  predicate Below(a: Bytes, b: Bytes) {
    if b == [] then false
    else if a == [] then true
    else a[0] < b[0] || (a[0] == b[0] && Below(a[1..], b[1..]))
  }

  predicate AtMost(a: Bytes, b: Bytes) {
    a == b || Below(a, b)
  }

  lemma {:induction false} BelowTransitive(a: Bytes, b: Bytes, c: Bytes)
    requires Below(a, b) && Below(b, c)
    ensures Below(a, c)
    decreases |a|
  {
    if a != [] && a[0] == b[0] == c[0] {
      BelowTransitive(a[1..], b[1..], c[1..]);
    }
  }

  lemma {:induction false} BelowIrreflexive(a: Bytes)
    ensures !Below(a, a)
  {
    if a != [] {
      BelowIrreflexive(a[1..]);
    }
  }

  lemma {:induction false} BelowTotal(a: Bytes, b: Bytes)
    ensures a == b || Below(a, b) || Below(b, a)
    decreases |a|
  {
    if a != [] && b != [] && a[0] == b[0] {
      BelowTotal(a[1..], b[1..]);
      if a[1..] == b[1..] {
        assert a == [a[0]] + a[1..] && b == [b[0]] + b[1..];
      }
    }
  }

  /** After a common prefix the first different byte decides. */
  lemma {:induction false} FirstDifference(a: Bytes, b: Bytes, d: nat)
    requires d <= |a| && d < |b| && a[..d] == b[..d] && (d < |a| ==> a[d] < b[d])
    ensures Below(a, b)
    decreases d
  {
    if d > 0 {
      assert a[0] == a[..d][0] == b[..d][0] == b[0];
      assert a[1..][..d - 1] == a[..d][1..] && b[1..][..d - 1] == b[..d][1..];
      FirstDifference(a[1..], b[1..], d - 1);
    }
  }

  /** Incrementing the byte where two keys differ, and cutting there. */
  function Cut(a: Bytes, d: nat): Bytes
    requires d < |a| && a[d] < 255
  {
    a[..d] + [a[d] + 1]
  }

  lemma CutAbove(a: Bytes, d: nat)
    requires d < |a| && a[d] < 255
    ensures Below(a, Cut(a, d)) && |Cut(a, d)| <= |a|
  {
    assert Cut(a, d)[..d] == a[..d];
    FirstDifference(a, Cut(a, d), d);
  }

  /** At d the keys differ for the first time, and there is room between their bytes. */
  ghost predicate Shortens(start: Bytes, limit: Bytes, d: nat) {
    d < |start| && d < |limit| && start[..d] == limit[..d] && start[d] as int + 1 < limit[d] as int && start[d] < 255
  }

  /** All keys between two keys have their common prefix, and go on behind it. */
  lemma {:induction false} BetweenIsLonger(start: Bytes, limit: Bytes, d: nat, x: Bytes)
    requires d < |start| && d < |limit| && start[..d] == limit[..d] && AtMost(start, x) && Below(x, limit)
    ensures |x| > d
    decreases d
  {
    if d > 0 {
      assert start[0] == start[..d][0] == limit[..d][0] == limit[0];
      assert start[1..][..d - 1] == start[..d][1..] && limit[1..][..d - 1] == limit[..d][1..];
      assert x != [] && x[0] == start[0];
      BetweenIsLonger(start[1..], limit[1..], d - 1, x[1..]);
    }
  }

  /** All keys from one that begins with d bytes 255 begin with them too. */
  lemma {:induction false} AboveIsLonger(key: Bytes, d: nat, x: Bytes)
    requires d <= |key| && (forall j :: 0 <= j < d ==> key[j] == 255) && AtMost(key, x)
    ensures |x| >= d && (d < |key| ==> |x| > d)
    decreases d
  {
    if d > 0 {
      assert x != [] && x[0] == 255;
      AboveIsLonger(key[1..], d - 1, x[1..]);
    }
  }

  lemma NoneShorter(key: Bytes, d: nat)
    requires d <= |key| && forall j :: 0 <= j < d ==> key[j] == 255
    ensures forall x :: AtMost(key, x) ==> |x| >= d && (d < |key| ==> |x| > d)
  {
    forall x | AtMost(key, x)
      ensures |x| >= d && (d < |key| ==> |x| > d)
    {
      AboveIsLonger(key, d, x);
    }
  }

  lemma FirstRoom(start: Bytes, limit: Bytes, d: nat, e: nat)
    requires d <= |start| && d <= |limit| && start[..d] == limit[..d] && Shortens(start, limit, e)
    requires d < |start| && d < |limit| ==> start[d] != limit[d]
    ensures e == d
  {
    PrefixAgrees(start, limit, d);
    PrefixAgrees(start, limit, e);
  }

  lemma PrefixAgrees(a: Bytes, b: Bytes, d: nat)
    requires d <= |a| && d <= |b| && a[..d] == b[..d]
    ensures forall j :: 0 <= j < d ==> a[j] == b[j]
  {
    forall j | 0 <= j < d
      ensures a[j] == b[j]
    {
      assert a[..d][j] == b[..d][j];
    }
  }

  /** BytewiseComparator's FindShortestSeparator: between start and limit, no longer than start. */
  method FindShortestSeparator(start: Bytes, limit: Bytes) returns (r: Bytes)
    ensures AtMost(start, r) && |r| <= |start|
    ensures r == start || Below(r, limit)
    ensures start == limit ==> r == start
    ensures forall d: nat :: Shortens(start, limit, d) ==> r == start[..d] + [start[d] + 1]
    ensures r == start || exists d: nat :: Shortens(start, limit, d)
    ensures r != start ==> forall x :: AtMost(start, x) && Below(x, limit) ==> |r| <= |x|
  {
    var minLength := if |start| < |limit| then |start| else |limit|;
    var diffIndex := 0;
    while diffIndex < minLength && start[diffIndex] == limit[diffIndex]
      invariant diffIndex <= minLength && start[..diffIndex] == limit[..diffIndex]
    {
      diffIndex := diffIndex + 1;
    }
    forall e: nat | Shortens(start, limit, e)
      ensures e == diffIndex
    {
      FirstRoom(start, limit, diffIndex, e);
    }
    r := start;
    if diffIndex < minLength {
      var diffByte := start[diffIndex];
      if diffByte < 255 && diffByte + 1 < limit[diffIndex] {
        r := Cut(start, diffIndex);
        CutAbove(start, diffIndex);
        assert r[..diffIndex] == start[..diffIndex];
        FirstDifference(r, limit, diffIndex);
        assert Shortens(start, limit, diffIndex);
        forall x | AtMost(start, x) && Below(x, limit)
          ensures |r| <= |x|
        {
          BetweenIsLonger(start, limit, diffIndex, x);
        }
      }
    }
  }

  /** BytewiseComparator's FindShortSuccessor: no key from `key` on is shorter. */
  method FindShortSuccessor(key: Bytes) returns (r: Bytes)
    ensures AtMost(key, r) && |r| <= |key|
    ensures forall x :: AtMost(key, x) ==> |r| <= |x|
  {
    var i := 0;
    while i < |key|
      invariant i <= |key| && forall j :: 0 <= j < i ==> key[j] == 255
    {
      if key[i] != 255 {
        CutAbove(key, i);
        NoneShorter(key, i);
        return Cut(key, i);
      }
      i := i + 1;
    }
    NoneShorter(key, i);
    r := key;
  }

  // ---- Internal keys ----

  /** A user key with its packed sequence number and type. */
  datatype InternalKey = InternalKey(user: Bytes, tag: nat)

  /** kMaxSequenceNumber packed with kValueTypeForSeek. */
  const MAX_TAG: nat := 0xFFFF_FFFF_FFFF_FF01

  /** Increasing user keys, then decreasing sequence numbers. */
  predicate Less(a: InternalKey, b: InternalKey) {
    Below(a.user, b.user) || (a.user == b.user && a.tag > b.tag)
  }

  predicate NotAfter(a: InternalKey, b: InternalKey) {
    a == b || Less(a, b)
  }

  lemma LessTransitive(a: InternalKey, b: InternalKey, c: InternalKey)
    requires Less(a, b) && Less(b, c)
    ensures Less(a, c)
  {
    if Below(a.user, b.user) && Below(b.user, c.user) {
      BelowTransitive(a.user, b.user, c.user);
    }
  }

  lemma LessTotal(a: InternalKey, b: InternalKey)
    ensures a == b || Less(a, b) || Less(b, a)
    ensures !(Less(a, b) && Less(b, a)) && !Less(a, a)
  {
    BelowTotal(a.user, b.user);
    BelowIrreflexive(a.user);
    BelowIrreflexive(b.user);
    if Below(a.user, b.user) && Below(b.user, a.user) {
      BelowTransitive(a.user, b.user, a.user);
    }
  }

  /** InternalKeyComparator's FindShortestSeparator: only a shorter user key is used, and then it
      lies strictly between the two user keys. */
  method FindInternalSeparator(start: InternalKey, limit: InternalKey) returns (r: InternalKey)
    requires Less(start, limit)
    ensures NotAfter(start, r) && Less(r, limit)
    ensures r == start || (Below(start.user, r.user) && Below(r.user, limit.user))
    ensures r == start || (|r.user| < |start.user| && r.tag == 0xFFFF_FFFF_FFFF_FF01)
    ensures forall d: nat :: Shortens(start.user, limit.user, d) && d + 1 < |start.user| ==> r.user == start.user[..d] + [start.user[d] + 1]
  {
    var tmp := FindShortestSeparator(start.user, limit.user);
    r := start;
    if |tmp| < |start.user| && Below(start.user, tmp) {
      r := InternalKey(tmp, MAX_TAG);
    }
  }

  method FindInternalSuccessor(key: InternalKey) returns (r: InternalKey)
    ensures NotAfter(key, r)
    ensures r == key || (|r.user| < |key.user| && r.tag == 0xFFFF_FFFF_FFFF_FF01)
    ensures forall x :: AtMost(key.user, x) ==> |r.user| <= |x|
  {
    var tmp := FindShortSuccessor(key.user);
    r := key;
    if |tmp| < |key.user| && Below(key.user, tmp) {
      r := InternalKey(tmp, MAX_TAG);
    }
  }
}
