/** The list of live snapshots, oldest first. */
module Snapshots {
  import opened Rings

  /** A snapshot is its place in memory; 0 is the dummy head. */
  type Snapshot = nat

  const HEAD: Snapshot := 0

  class SnapshotList {
    var next: map<Snapshot, Snapshot>
    var prev: map<Snapshot, Snapshot>
    var sequence: map<Snapshot, nat>
    var unused: Snapshot
    /** The live snapshots, in the order in which they were taken. */
    ghost var items: seq<Snapshot>

    ghost predicate Valid()
      reads this
    {
      && IsRing<Snapshot>(next, prev, HEAD, items)
      && Ordered(items, sequence) && 0 < unused && forall s <- items :: s < unused
    }

    constructor ()
      ensures Valid() && items == []
    {
      EmptyRing<Snapshot>(map[HEAD := HEAD], map[HEAD := HEAD], HEAD);
      next, prev, sequence, unused, items := map[HEAD := HEAD], map[HEAD := HEAD], map[], 1, [];
    }

    method Empty() returns (r: bool)
      requires Valid()
      ensures r == (items == [])
    {
      Neighbours<Snapshot>(next, prev, HEAD, items, 0);
      r := next[HEAD] == HEAD;
    }

    /** The oldest snapshot has the smallest sequence number of all live ones: what a compaction
        must keep for it, it keeps for all. */
    method Oldest() returns (s: Snapshot)
      requires Valid() && items != []
      ensures s == items[0] && s in sequence && forall t <- items :: sequence[s] <= sequence[t]
    {
      Neighbours<Snapshot>(next, prev, HEAD, items, 0);
      s := next[HEAD];
    }

    method Newest() returns (s: Snapshot)
      requires Valid() && items != []
      ensures s == items[|items| - 1] && s in sequence && forall t <- items :: sequence[t] <= sequence[s]
    {
      Neighbours<Snapshot>(next, prev, HEAD, items, 0);
      s := prev[HEAD];
    }

    method New(number: nat) returns (s: Snapshot)
      requires Valid() && forall t <- items :: sequence[t] <= number
      modifies this
      ensures Valid() && items == old(items) + [s] && s !in old(items)
      ensures sequence == old(sequence)[s := number]
    {
      Neighbours<Snapshot>(next, prev, HEAD, items, 0);
      AppendToRing<Snapshot>(next, prev, HEAD, items, unused);
      s := unused;
      unused := unused + 1;
      sequence := sequence[s := number];
      var last := prev[HEAD];
      next := next[s := HEAD];
      prev := prev[s := last];
      next := next[last := s];
      prev := prev[HEAD := s];
      items := items + [s];
    }

    method Delete(s: Snapshot)
      requires Valid() && s in items
      modifies this
      ensures Valid() && (exists i :: 0 <= i < |old(items)| && old(items)[i] == s && items == Without<Snapshot>(old(items), i))
      ensures s !in items && sequence == old(sequence) - {s}
    {
      ghost var i :| 0 <= i < |items| && items[i] == s;
      Unlinked(next, prev, sequence, unused, items, i);
      var n, p := next[s], prev[s];
      next := next[p := n];
      prev := prev[n := p];
      items := Without<Snapshot>(items, i);
      sequence := sequence - {s};
    }
  }

  lemma Unlinked(next: map<Snapshot, Snapshot>, prev: map<Snapshot, Snapshot>, sequence: map<Snapshot, nat>, unused: Snapshot, items: seq<Snapshot>, i: nat)
    requires IsRing<Snapshot>(next, prev, HEAD, items) && Ordered(items, sequence) && i < |items| && forall s <- items :: s < unused
    ensures var s := items[i]; s in next && s in prev
    ensures var s, less := items[i], Without<Snapshot>(items, i); var n, p := next[s], prev[s];
      && IsRing<Snapshot>(next[p := n], prev[n := p], HEAD, less) && Ordered(less, sequence - {s})
      && s !in less && forall t <- less :: t < unused
  {
    Neighbours<Snapshot>(next, prev, HEAD, items, i + 1);
    RemoveFromRing<Snapshot>(next, prev, HEAD, items, i);
    WithoutMembers<Snapshot>(items, i);
    OrderedWithout(items, sequence, i);
  }

  ghost predicate Ordered(items: seq<Snapshot>, sequence: map<Snapshot, nat>) {
    && (forall s <- items :: s in sequence)
    && (forall i, j :: 0 <= i < j < |items| ==> sequence[items[i]] <= sequence[items[j]])
  }

  lemma OrderedWithout(items: seq<Snapshot>, sequence: map<Snapshot, nat>, i: nat)
    requires Ordered(items, sequence) && i < |items| && Unrepeated<Snapshot>(items)
    ensures Ordered(Without<Snapshot>(items, i), sequence - {items[i]})
  {
    var less := Without<Snapshot>(items, i);
    WithoutMembers<Snapshot>(items, i);
    forall a, b | 0 <= a < b < |less|
      ensures sequence[less[a]] <= sequence[less[b]]
    {
      var a2, b2 := if a < i then a else a + 1, if b < i then b else b + 1;
      assert less[a] == items[a2] && less[b] == items[b2];
    }
  }
}
