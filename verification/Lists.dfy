/** Sequences of sequences, laid end to end. */
module Lists {
  function Flat<T>(parts: seq<seq<T>>): seq<T> {
    if parts == [] then [] else Flat(parts[..|parts| - 1]) + parts[|parts| - 1]
  }

  lemma FlatSnoc<T>(parts: seq<seq<T>>, part: seq<T>)
    ensures Flat(parts + [part]) == Flat(parts) + part
  {
    assert (parts + [part])[..|parts|] == parts;
  }

  /** The number of items in the first n parts. */
  function Rank<T>(parts: seq<seq<T>>, n: nat): nat
    requires n <= |parts|
  {
    if n == 0 then 0 else Rank(parts, n - 1) + |parts[n - 1]|
  }

  lemma {:induction false} RankGrows<T>(parts: seq<seq<T>>, m: nat, n: nat)
    requires m <= n <= |parts|
    ensures Rank(parts, m) <= Rank(parts, n)
    decreases n
  {
    if m < n {
      RankGrows(parts, m, n - 1);
    }
  }

  lemma {:induction false} RankOfPrefix<T>(parts: seq<seq<T>>, m: nat, n: nat)
    requires n <= m <= |parts|
    ensures Rank(parts[..m], n) == Rank(parts, n)
    decreases n
  {
    if n > 0 {
      RankOfPrefix(parts, m, n - 1);
    }
  }

  lemma {:induction false} FlatLength<T>(parts: seq<seq<T>>)
    ensures |Flat(parts)| == Rank(parts, |parts|)
    decreases |parts|
  {
    if parts != [] {
      FlatLength(parts[..|parts| - 1]);
      RankOfPrefix(parts, |parts| - 1, |parts| - 1);
    }
  }

  /** Item o of part b has index Rank(parts, b) + o among all items. */
  lemma {:induction false} FlatAt<T>(parts: seq<seq<T>>, b: nat, o: nat)
    requires b < |parts| && o < |parts[b]|
    ensures Rank(parts, b) + o < |Flat(parts)| && Flat(parts)[Rank(parts, b) + o] == parts[b][o]
    decreases |parts|
  {
    var front := parts[..|parts| - 1];
    RankOfPrefix(parts, |parts| - 1, b);
    if b < |front| {
      FlatAt(front, b, o);
    } else {
      FlatLength(front);
    }
  }

  /** Every index is that of an item of some part. */
  lemma {:induction false} FlatFrom<T>(parts: seq<seq<T>>, i: nat) returns (b: nat, o: nat)
    requires i < |Flat(parts)|
    ensures b < |parts| && o < |parts[b]| && i == Rank(parts, b) + o
    decreases |parts|
  {
    var front := parts[..|parts| - 1];
    if i < |Flat(front)| {
      b, o := FlatFrom(front, i);
    } else {
      b, o := |front|, i - |Flat(front)|;
      FlatLength(front);
    }
    RankOfPrefix(parts, |parts| - 1, b);
  }
}
