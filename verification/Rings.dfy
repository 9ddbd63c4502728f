/** Circular doubly linked lists with a dummy head, as pointer maps. */
module Rings {

  /** The nodes after the head, in order. */
  ghost predicate IsRing<T>(next: map<T, T>, prev: map<T, T>, head: T, items: seq<T>) {
    && Unrepeated(items) && head !in items
    && forall i :: 0 <= i <= |items| ==> Linked(next, prev, head, items, i)
  }

  /** The node at position i is followed by the one at position i + 1, the last one by the head. */
  ghost predicate Linked<T>(next: map<T, T>, prev: map<T, T>, head: T, items: seq<T>, i: nat)
    requires i <= |items|
  {
    Joined(next, prev, Node(head, items, i), Node(head, items, if i == |items| then 0 else i + 1))
  }

  /** Position 0 is the head. */
  function Node<T>(head: T, items: seq<T>, i: nat): T
    requires i <= |items|
  {
    if i == 0 then head else items[i - 1]
  }

  ghost predicate Joined<T>(next: map<T, T>, prev: map<T, T>, a: T, b: T) {
    a in next && next[a] == b && b in prev && prev[b] == a
  }

  ghost predicate Unrepeated<T>(s: seq<T>) {
    forall i, j :: 0 <= i < j < |s| ==> s[i] != s[j]
  }

  lemma EmptyRing<T>(next: map<T, T>, prev: map<T, T>, head: T)
    requires Joined(next, prev, head, head)
    ensures IsRing(next, prev, head, [])
  {}

  /** Only the pointers of its own nodes matter to a ring. */
  lemma RingKept<T>(next: map<T, T>, prev: map<T, T>, next2: map<T, T>, prev2: map<T, T>, head: T, items: seq<T>)
    requires IsRing(next, prev, head, items)
    requires forall n :: n == head || n in items ==> (n in next && n in prev ==> n in next2 && n in prev2 && next2[n] == next[n] && prev2[n] == prev[n])
    ensures IsRing(next2, prev2, head, items)
  {
    forall i | 0 <= i <= |items|
      ensures Linked(next2, prev2, head, items, i)
    {
      var j := if i == |items| then 0 else i + 1;
      assert Linked(next, prev, head, items, i);
      assert Linked(next, prev, head, items, if i == 0 then |items| else i - 1);
      assert Linked(next, prev, head, items, j);
    }
  }

  lemma Neighbours<T>(next: map<T, T>, prev: map<T, T>, head: T, items: seq<T>, i: nat)
    requires IsRing(next, prev, head, items) && i <= |items|
    ensures var n := Node(head, items, i); n in next && n in prev
    ensures next[Node(head, items, i)] == Node(head, items, if i == |items| then 0 else i + 1)
    ensures prev[Node(head, items, i)] == Node(head, items, if i == 0 then |items| else i - 1)
  {
    var j := if i == 0 then |items| else i - 1;
    assert Linked(next, prev, head, items, i);
    assert Linked(next, prev, head, items, j);
  }

  lemma DistinctNodes<T>(head: T, items: seq<T>, i: nat, j: nat)
    requires Unrepeated(items) && head !in items && i <= |items| && j <= |items| && i != j
    ensures Node(head, items, i) != Node(head, items, j)
  {}

  function Without<T>(items: seq<T>, i: nat): seq<T>
    requires i < |items|
  {
    items[..i] + items[i + 1..]
  }

  /** Splicing out the node at index i. */
  lemma RemoveFromRing<T>(next: map<T, T>, prev: map<T, T>, head: T, items: seq<T>, i: nat)
    requires IsRing(next, prev, head, items) && i < |items|
    requires items[i] in next && items[i] in prev
    ensures var e := items[i]; var n, p := next[e], prev[e];
      IsRing(next[p := n], prev[n := p], head, Without(items, i))
  {
    var e := items[i];
    Neighbours(next, prev, head, items, i + 1);
    var n, p := next[e], prev[e];
    var less, next2, prev2 := Without(items, i), next[p := n], prev[n := p];
    assert head !in less;
    forall k | 0 <= k <= |less|
      ensures Linked(next2, prev2, head, less, k)
    {
      SplicedLink(next, prev, head, items, i, k);
    }
  }

  lemma SplicedLink<T>(next: map<T, T>, prev: map<T, T>, head: T, items: seq<T>, i: nat, k: nat)
    requires IsRing(next, prev, head, items) && i < |items| && k < |items|
    ensures var n, p := Node(head, items, if i + 1 == |items| then 0 else i + 2), Node(head, items, i);
      var less := Without(items, i);
      Linked(next[p := n], prev[n := p], head, less, k)
  {
    var less := Without(items, i);
    var a := if k <= i then k else k + 1;
    assert Node(head, less, k) == Node(head, items, a);
    if k == i {
      assert Node(head, less, if k == |less| then 0 else k + 1) == Node(head, items, if i + 1 == |items| then 0 else i + 2);
    } else {
      var b := if a == |items| then 0 else a + 1;
      assert Node(head, less, if k == |less| then 0 else k + 1) == Node(head, items, b);
      assert Linked(next, prev, head, items, a);
      DistinctNodes(head, items, a, i);
      var c := if i + 1 == |items| then 0 else i + 2;
      DistinctNodes(head, items, b, c);
    }
  }

  /** Inserting a new node just before the head. */
  lemma AppendToRing<T>(next: map<T, T>, prev: map<T, T>, head: T, items: seq<T>, e: T)
    requires IsRing(next, prev, head, items) && e != head && e !in items && head in prev
    ensures var last := prev[head];
      IsRing(next[e := head][last := e], prev[e := last][head := e], head, items + [e])
  {
    Neighbours(next, prev, head, items, 0);
    var last := prev[head];
    var more, next2, prev2 := items + [e], next[e := head][last := e], prev[e := last][head := e];
    forall k | 0 <= k <= |more|
      ensures Linked(next2, prev2, head, more, k)
    {
      if k < |items| {
        assert Node(head, more, k) == Node(head, items, k) && Node(head, more, k + 1) == Node(head, items, k + 1);
        assert Linked(next, prev, head, items, k);
        DistinctNodes(head, items, k, |items|);
      } else if k == |items| {
        assert Node(head, more, k) == Node(head, items, k) == last;
      }
    }
  }

  lemma WithoutMembers<T>(items: seq<T>, i: nat)
    requires i < |items| && Unrepeated(items)
    ensures items[i] !in Without(items, i)
    ensures forall x <- items :: x == items[i] || x in Without(items, i)
    ensures forall x <- Without(items, i) :: x in items
  {
    forall x | x in items
      ensures x == items[i] || x in Without(items, i)
    {
      var j :| 0 <= j < |items| && items[j] == x;
      if j < i {
        assert Without(items, i)[j] == x;
      } else if j > i {
        assert Without(items, i)[j - 1] == x;
      }
    }
  }

  ghost predicate RingPair<T>(n: nat, next: map<T, T>, prev: map<T, T>, a: T, as_: seq<T>, b: T, bs: seq<T>) {
    && IsRing(next, prev, a, as_) && IsRing(next, prev, b, bs) && Apart(a, as_, b, bs)
  }

  /** Two rings that share their pointers. */
  ghost predicate TwoRings<T>(next: map<T, T>, prev: map<T, T>, a: T, as_: seq<T>, b: T, bs: seq<T>) {
    forall n: nat :: n == |as_| ==> RingPair(n, next, prev, a, as_, b, bs)
  }

  ghost predicate Apart<T>(a: T, as_: seq<T>, b: T, bs: seq<T>) {
    && a != b && a !in bs && b !in as_ && forall x <- as_ :: x !in bs
  }

  lemma OnRing<T>(next: map<T, T>, prev: map<T, T>, head: T, items: seq<T>, x: T)
    requires IsRing(next, prev, head, items) && (x == head || x in items)
    ensures x in next && x in prev && (next[x] == head || next[x] in items) && (prev[x] == head || prev[x] in items)
  {
    if x == head {
      Neighbours(next, prev, head, items, 0);
    } else {
      var i :| 0 <= i < |items| && items[i] == x;
      Neighbours(next, prev, head, items, i + 1);
    }
  }

  lemma RemoveFromFirst<T>(next: map<T, T>, prev: map<T, T>, a: T, as_: seq<T>, b: T, bs: seq<T>, i: nat)
    requires TwoRings(next, prev, a, as_, b, bs) && i < |as_|
    ensures var e := as_[i]; e in next && e in prev
    ensures var e := as_[i]; var n, p := next[e], prev[e];
      TwoRings(next[p := n], prev[n := p], a, Without(as_, i), b, bs)
    ensures as_[i] !in Without(as_, i) && as_[i] !in bs
  {
    assert RingPair(|as_|, next, prev, a, as_, b, bs);
    var e := as_[i];
    OnRing(next, prev, a, as_, e);
    var n, p := next[e], prev[e];
    RemoveFromRing(next, prev, a, as_, i);
    RingKept(next, prev, next[p := n], prev[n := p], b, bs);
    WithoutMembers(as_, i);
  }

  lemma AppendToFirst<T>(next: map<T, T>, prev: map<T, T>, a: T, as_: seq<T>, b: T, bs: seq<T>, e: T)
    requires TwoRings(next, prev, a, as_, b, bs) && e != a && e != b && e !in as_ && e !in bs
    ensures a in prev
    ensures var last := prev[a];
      TwoRings(next[e := a][last := e], prev[e := last][a := e], a, as_ + [e], b, bs)
  {
    assert RingPair(|as_|, next, prev, a, as_, b, bs);
    OnRing(next, prev, a, as_, a);
    var last := prev[a];
    AppendToRing(next, prev, a, as_, e);
    RingKept(next, prev, next[e := a][last := e], prev[e := last][a := e], b, bs);
  }

  lemma Swapped<T>(next: map<T, T>, prev: map<T, T>, a: T, as_: seq<T>, b: T, bs: seq<T>)
    requires TwoRings(next, prev, a, as_, b, bs)
    ensures TwoRings(next, prev, b, bs, a, as_)
    ensures Unrepeated(as_) && Unrepeated(bs) && forall x <- as_ :: x !in bs
  {
    assert RingPair(|as_|, next, prev, a, as_, b, bs);
  }

  lemma FirstNode<T>(next: map<T, T>, prev: map<T, T>, a: T, as_: seq<T>, b: T, bs: seq<T>, i: nat)
    requires TwoRings(next, prev, a, as_, b, bs) && i <= |as_|
    ensures Node(a, as_, i) in next && next[Node(a, as_, i)] == if i == |as_| then a else as_[i]
    ensures a !in as_
  {
    assert RingPair(|as_|, next, prev, a, as_, b, bs);
    Neighbours(next, prev, a, as_, i);
  }
}
