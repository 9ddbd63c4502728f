/** MergingIterator: a cursor over the sorted merge of its children. */
module Merging {
  import opened Keys
  import opened Runs

  datatype Direction = Forward | Reverse

  /** `p` is where Seek(x) leaves a child: entries before it are smaller, the rest are not. */
  ghost predicate SeekPoint(run: seq<Entry>, p: nat, x: InternalKey) {
    && p <= |run|
    && (forall i :: 0 <= i < p ==> Less(run[i].key, x))
    && (forall i :: p <= i < |run| ==> !Less(run[i].key, x))
  }

  /** `p` is the first entry after `x`. */
  ghost predicate JustAfter(run: seq<Entry>, p: nat, x: InternalKey) {
    && p <= |run|
    && (forall i :: 0 <= i < p ==> !Less(x, run[i].key))
    && (forall i :: p <= i < |run| ==> Less(x, run[i].key))
  }

  /** `p` is the last entry before `x`, or |run| (not valid) if there is none. */
  ghost predicate JustBefore(run: seq<Entry>, p: nat, x: InternalKey) {
    && p <= |run|
    && (p < |run| ==> Less(run[p].key, x) && forall i :: p < i < |run| ==> !Less(run[i].key, x))
    && (p == |run| ==> forall i :: 0 <= i < |run| ==> !Less(run[i].key, x))
  }

  /** Entries at or after the children's positions are the entries of `m` from `p` on. */
  ghost predicate Ahead(runs: seq<seq<Entry>>, pos: seq<nat>, m: seq<Entry>, p: nat) {
    && |pos| == |runs| && p <= |m|
    && (forall i :: 0 <= i < |runs| ==> pos[i] <= |runs[i]|)
    && forall i, j :: 0 <= i < |runs| && 0 <= j < |runs[i]| ==> (runs[i][j] in m[p..] <==> pos[i] <= j)
  }

  /** Entries at or before the children's positions are the entries of `m` before `p`. */
  ghost predicate Behind(runs: seq<seq<Entry>>, pos: seq<nat>, m: seq<Entry>, p: nat) {
    && |pos| == |runs| && p <= |m|
    && (forall i :: 0 <= i < |runs| ==> pos[i] <= |runs[i]|)
    && forall i, j :: 0 <= i < |runs| && 0 <= j < |runs[i]| ==> (runs[i][j] in m[..p] <==> pos[i] < |runs[i]| && j <= pos[i])
  }

  /** `c` is a child in lo..hi with the smallest key, or |runs| if none of them is valid. */
  ghost predicate SmallestOf(runs: seq<seq<Entry>>, pos: seq<nat>, lo: nat, hi: nat, c: nat) {
    && |pos| == |runs| && lo <= hi <= |runs| && c <= |runs|
    && (c < |runs| ==> pos[c] < |runs[c]|)
    && forall j :: lo <= j < hi && pos[j] < |runs[j]| ==> c < |runs| && !Less(runs[j][pos[j]].key, runs[c][pos[c]].key)
  }

  ghost predicate LargestOf(runs: seq<seq<Entry>>, pos: seq<nat>, lo: nat, hi: nat, c: nat) {
    && |pos| == |runs| && lo <= hi <= |runs| && c <= |runs|
    && (c < |runs| ==> pos[c] < |runs[c]|)
    && forall j :: lo <= j < hi && pos[j] < |runs[j]| ==> c < |runs| && !Less(runs[c][pos[c]].key, runs[j][pos[j]].key)
  }

  class MergingIterator {
    const runs: seq<seq<Entry>>
    ghost const merged: seq<Entry>
    var pos: seq<nat>
    /** Index of current_, or |runs| for nullptr. */
    var current: nat
    var direction: Direction

    ghost predicate Shape()
      reads this
    {
      && AllSorted(runs) && DisjointRuns(runs) && IsMerge(runs, merged)
      && |pos| == |runs| && current <= |runs|
      && forall i :: 0 <= i < |runs| ==> pos[i] <= |runs[i]|
    }

    predicate Valid()
      reads this
    {
      current < |runs|
    }

    /** The iterator stands on the p-th entry of the merge; it is not valid when p == |merged|. */
    ghost predicate At(p: nat)
      reads this
    {
      && Shape() && p <= |merged|
      && (Valid() <==> p < |merged|)
      && (Valid() ==> pos[current] < |runs[current]| && runs[current][pos[current]] == merged[p])
      && (direction.Forward? && Valid() ==> forall i :: 0 <= i < |runs| ==> SeekPoint(runs[i], pos[i], merged[p].key))
      && (direction.Reverse? && Valid() ==> forall i :: 0 <= i < |runs| && i != current ==> JustBefore(runs[i], pos[i], merged[p].key))
    }

    function Current(): (e: Entry)
      requires Shape() && Valid() && pos[current] < |runs[current]|
      reads this
      ensures forall p: nat :: At(p) && p < |merged| ==> e == merged[p]
    {
      runs[current][pos[current]]
    }

    constructor (children: seq<seq<Entry>>)
      requires AllSorted(children) && DisjointRuns(children)
      ensures At(|merged|) && runs == children && merged == MergeAll(children)
    {
      runs := children;
      merged := MergeAll(children);
      pos := seq(|children|, i requires 0 <= i < |children| => |children[i]|);
      current, direction := |children|, Forward;
      new;
      MergeAllMerges(children);
    }

    /** Picks the child with the smallest key. */
    method FindSmallest(ghost p: nat)
      requires Shape() && Ahead(runs, pos, merged, p) && direction.Forward?
      modifies `current
      ensures At(p)
    {
      var smallest: nat := |runs|;
      for i := 0 to |runs|
        invariant SmallestOf(runs, pos, 0, i, smallest)
      {
        if pos[i] < |runs[i]| {
          if smallest == |runs| {
            smallest := i;
          } else if Less(runs[i][pos[i]].key, runs[smallest][pos[smallest]].key) {
            smallest := i;
          }
        }
      }
      current := smallest;
      SmallestIsNext(runs, pos, merged, p, smallest);
    }

    /** Picks the child with the largest key, from the last child down. */
    method FindLargest(ghost p: nat)
      requires Shape() && Behind(runs, pos, merged, p) && direction.Reverse?
      modifies `current
      ensures At(if p > 0 then p - 1 else |merged|)
    {
      var largest: nat := |runs|;
      var i: nat := |runs|;
      while i > 0
        invariant i <= |runs|
        invariant LargestOf(runs, pos, i, |runs|, largest)
      {
        i := i - 1;
        if pos[i] < |runs[i]| {
          if largest == |runs| {
            largest := i;
          } else if Less(runs[largest][pos[largest]].key, runs[i][pos[i]].key) {
            largest := i;
          }
        }
      }
      current := largest;
      LargestIsPrevious(runs, pos, merged, p, largest);
    }

    method SeekToFirst()
      requires Shape()
      modifies this
      ensures At(0)
    {
      pos := seq(|runs|, i => 0);
      direction := Forward;
      assert merged[0..] == merged;
      AllAhead(runs, merged);
      FindSmallest(0);
    }

    method SeekToLast()
      requires Shape()
      modifies this
      ensures At(if merged == [] then 0 else |merged| - 1)
    {
      pos := seq(|runs|, i requires 0 <= i < |runs| => if runs[i] == [] then 0 else |runs[i]| - 1);
      direction := Reverse;
      AllBehind(runs, merged);
      assert merged[..|merged|] == merged;
      FindLargest(|merged|);
    }

    method Seek(target: InternalKey)
      requires Shape()
      modifies this
      ensures At(Keys.Seek(merged, target))
    {
      pos := seq(|runs|, i requires 0 <= i < |runs| => Keys.Seek(runs[i], target));
      direction := Forward;
      ghost var p := Keys.Seek(merged, target);
      SeekAhead(runs, pos, merged, target);
      FindSmallest(p);
    }

    /** MergingIterator::Next, including the switch from moving backwards. */
    method Next(ghost p: nat)
      requires At(p) && Valid()
      modifies this
      ensures At(p + 1)
    {
      var key := runs[current][pos[current]].key;
      if direction != Forward {
        for i := 0 to |runs|
          invariant Shape() && current == old(current) && pos[current] == old(pos[current])
          invariant forall j :: 0 <= j < i && j != current ==> JustAfter(runs[j], pos[j], key)
        {
          if i != current {
            var q := Keys.Seek(runs[i], key);
            if q < |runs[i]| && runs[i][q].key == key {
              q := q + 1;
            }
            SeekThenSkip(runs[i], q, key);
            pos := pos[i := q];
          }
        }
        direction := Forward;
      } else {
        OthersAfter(runs, pos, merged, p, current);
      }
      CurrentAfter(runs[current], pos[current], key);
      pos := pos[current := pos[current] + 1];
      AfterAhead(runs, pos, merged, p);
      FindSmallest(p + 1);
    }

    /** MergingIterator::Prev, including the switch from moving forwards. */
    method Prev(ghost p: nat)
      requires At(p) && Valid()
      modifies this
      ensures At(if p > 0 then p - 1 else |merged|)
    {
      var key := runs[current][pos[current]].key;
      if direction != Reverse {
        for i := 0 to |runs|
          invariant Shape() && current == old(current) && pos[current] == old(pos[current])
          invariant forall j :: 0 <= j < i && j != current ==> JustBefore(runs[j], pos[j], key)
        {
          if i != current {
            var q := Keys.Seek(runs[i], key);
            if q < |runs[i]| {
              q := if q == 0 then |runs[i]| else q - 1;
            } else {
              q := if runs[i] == [] then 0 else |runs[i]| - 1;
            }
            SeekThenBack(runs[i], q, key);
            pos := pos[i := q];
          }
        }
        direction := Reverse;
      }
      CurrentBefore(runs[current], pos[current], key);
      pos := pos[current := if pos[current] == 0 then |runs[current]| else pos[current] - 1];
      BeforeBehind(runs, pos, merged, p);
      FindLargest(p);
    }
  }

  lemma InMerge(runs: seq<seq<Entry>>, m: seq<Entry>, i: nat, j: nat) returns (q: nat)
    requires IsMerge(runs, m) && i < |runs| && j < |runs[i]|
    ensures q < |m| && m[q] == runs[i][j]
  {
    assert runs[i] in runs && runs[i][j] in runs[i];
    assert runs[i][j] in m;
    q :| 0 <= q < |m| && m[q] == runs[i][j];
  }

  lemma InRuns(runs: seq<seq<Entry>>, m: seq<Entry>, q: nat) returns (i: nat, j: nat)
    requires IsMerge(runs, m) && q < |m|
    ensures i < |runs| && j < |runs[i]| && m[q] == runs[i][j]
  {
    assert m[q] in m;
    var r :| r in runs && m[q] in r;
    i :| 0 <= i < |runs| && runs[i] == r;
    j :| 0 <= j < |r| && r[j] == m[q];
  }

  lemma FromIndex(m: seq<Entry>, p: nat, q: nat)
    requires Sorted(m) && p <= |m| && q < |m|
    ensures m[q] in m[p..] <==> p <= q
    ensures m[q] in m[..p] <==> q < p
  {
    if p <= q { assert m[p..][q - p] == m[q]; } else { assert m[..p][q] == m[q]; }
    if m[q] in m[p..] {
      var i :| 0 <= i < |m[p..]| && m[p..][i] == m[q];
      assert m[p + i] == m[q];
    }
    if m[q] in m[..p] {
      var i :| 0 <= i < |m[..p]| && m[..p][i] == m[q];
    }
  }

  lemma SmallestIsNext(runs: seq<seq<Entry>>, pos: seq<nat>, m: seq<Entry>, p: nat, c: nat)
    requires AllSorted(runs) && IsMerge(runs, m) && Ahead(runs, pos, m, p)
    requires SmallestOf(runs, pos, 0, |runs|, c)
    ensures c < |runs| <==> p < |m|
    ensures c < |runs| ==> runs[c][pos[c]] == m[p] && forall i :: 0 <= i < |runs| ==> SeekPoint(runs[i], pos[i], m[p].key)
  {
    if p < |m| {
      var i, j := InRuns(runs, m, p);
      FromIndex(m, p, p);
      assert pos[i] <= j;
      assert c < |runs|;
      var q := InMerge(runs, m, c, pos[c]);
      FromIndex(m, p, q);
      assert p <= q;
      assert runs[i] in runs;
      assert !Less(runs[i][pos[i]].key, runs[c][pos[c]].key);
      assert q == p;
      forall x | 0 <= x < |runs|
        ensures SeekPoint(runs[x], pos[x], m[p].key)
      {
        forall y | 0 <= y < |runs[x]|
          ensures y < pos[x] <==> Less(runs[x][y].key, m[p].key)
        {
          var z := InMerge(runs, m, x, y);
          FromIndex(m, p, z);
          assert p < z ==> Less(m[p].key, m[z].key);
          assert z < p ==> Less(m[z].key, m[p].key);
        }
      }
    }
  }

  lemma LargestIsPrevious(runs: seq<seq<Entry>>, pos: seq<nat>, m: seq<Entry>, p: nat, c: nat)
    requires AllSorted(runs) && IsMerge(runs, m) && Behind(runs, pos, m, p) && DisjointRuns(runs)
    requires LargestOf(runs, pos, 0, |runs|, c)
    ensures c < |runs| <==> p > 0
    ensures c < |runs| ==> runs[c][pos[c]] == m[p - 1] && forall i :: 0 <= i < |runs| && i != c ==> JustBefore(runs[i], pos[i], m[p - 1].key)
  {
    if p > 0 {
      var i, j := InRuns(runs, m, p - 1);
      FromIndex(m, p, p - 1);
      assert pos[i] < |runs[i]| && j <= pos[i];
      assert c < |runs|;
      var q := InMerge(runs, m, c, pos[c]);
      FromIndex(m, p, q);
      assert q < p;
      assert runs[i] in runs;
      assert !Less(runs[c][pos[c]].key, runs[i][pos[i]].key);
      assert q == p - 1;
      forall x | 0 <= x < |runs| && x != c
        ensures JustBefore(runs[x], pos[x], m[p - 1].key)
      {
        forall y | 0 <= y < |runs[x]|
          ensures (pos[x] < |runs[x]| && y <= pos[x]) <==> Less(runs[x][y].key, m[p - 1].key)
        {
          var z := InMerge(runs, m, x, y);
          FromIndex(m, p, z);
          NotShared(runs, x, y, c, pos[c]);
          assert z != p - 1;
          assert p - 1 < z ==> Less(m[p - 1].key, m[z].key);
          assert z < p - 1 ==> Less(m[z].key, m[p - 1].key);
        }
      }
    }
  }

  lemma NotShared(runs: seq<seq<Entry>>, x: nat, y: nat, c: nat, d: nat)
    requires DisjointRuns(runs) && x < |runs| && c < |runs| && x != c && y < |runs[x]| && d < |runs[c]|
    ensures runs[x][y].key != runs[c][d].key
  {
    assert runs[x][y] in runs[x] && runs[c][d] in runs[c];
    assert NoCommonKey(runs[if x < c then x else c], runs[if x < c then c else x]);
  }

  lemma AllAhead(runs: seq<seq<Entry>>, m: seq<Entry>)
    requires IsMerge(runs, m)
    ensures Ahead(runs, seq(|runs|, i => 0), m, 0)
  {
    assert m[0..] == m;
    forall i, j | 0 <= i < |runs| && 0 <= j < |runs[i]|
      ensures runs[i][j] in m
    {
      var q := InMerge(runs, m, i, j);
    }
  }

  lemma AllBehind(runs: seq<seq<Entry>>, m: seq<Entry>)
    requires IsMerge(runs, m)
    ensures Behind(runs, seq(|runs|, i requires 0 <= i < |runs| => if runs[i] == [] then 0 else |runs[i]| - 1), m, |m|)
  {
    assert m[..|m|] == m;
    forall i, j | 0 <= i < |runs| && 0 <= j < |runs[i]|
      ensures runs[i][j] in m
    {
      var q := InMerge(runs, m, i, j);
    }
  }

  lemma SeekAhead(runs: seq<seq<Entry>>, pos: seq<nat>, m: seq<Entry>, target: InternalKey)
    requires AllSorted(runs) && IsMerge(runs, m) && |pos| == |runs|
    requires forall i :: 0 <= i < |runs| ==> pos[i] == Seek(runs[i], target)
    ensures Ahead(runs, pos, m, Seek(m, target))
  {
    var p := Seek(m, target);
    forall i, j | 0 <= i < |runs| && 0 <= j < |runs[i]|
      ensures runs[i][j] in m[p..] <==> pos[i] <= j
    {
      var q := InMerge(runs, m, i, j);
      FromIndex(m, p, q);
      assert runs[i] in runs;
      assert p < q ==> Less(m[p].key, m[q].key);
      assert pos[i] < j ==> Less(runs[i][pos[i]].key, runs[i][j].key);
    }
  }

  lemma SeekThenSkip(run: seq<Entry>, q: nat, key: InternalKey)
    requires Sorted(run)
    requires var s := Seek(run, key); q == if s < |run| && run[s].key == key then s + 1 else s
    ensures JustAfter(run, q, key)
  {
    var s := Seek(run, key);
    forall i | s <= i < |run|
      ensures Less(key, run[i].key) || (i == s && run[s].key == key)
    {
      LessTotal(run[s].key, key);
      assert s < i ==> Less(run[s].key, run[i].key);
    }
  }

  lemma SeekThenBack(run: seq<Entry>, q: nat, key: InternalKey)
    requires Sorted(run)
    requires var s := Seek(run, key);
      q == if s < |run| then (if s == 0 then |run| else s - 1) else if run == [] then 0 else |run| - 1
    ensures JustBefore(run, q, key)
  {
    var s := Seek(run, key);
    forall i | s <= i < |run|
      ensures !Less(run[i].key, key)
    {
      assert s < i ==> Less(run[s].key, run[i].key);
    }
  }

  lemma OthersAfter(runs: seq<seq<Entry>>, pos: seq<nat>, m: seq<Entry>, p: nat, c: nat)
    requires DisjointRuns(runs) && |pos| == |runs| && c < |runs| && p < |m|
    requires pos[c] < |runs[c]| && runs[c][pos[c]] == m[p]
    requires forall i :: 0 <= i < |runs| ==> SeekPoint(runs[i], pos[i], m[p].key)
    ensures forall i :: 0 <= i < |runs| && i != c ==> JustAfter(runs[i], pos[i], m[p].key)
  {
    forall i, j | 0 <= i < |runs| && i != c && 0 <= j < |runs[i]|
      ensures pos[i] <= j <==> Less(m[p].key, runs[i][j].key)
    {
      NotShared(runs, i, j, c, pos[c]);
      LessTotal(runs[i][j].key, m[p].key);
    }
  }

  lemma CurrentAfter(run: seq<Entry>, q: nat, key: InternalKey)
    requires Sorted(run) && q < |run| && run[q].key == key
    ensures JustAfter(run, q + 1, key)
  {}

  lemma CurrentBefore(run: seq<Entry>, q: nat, key: InternalKey)
    requires Sorted(run) && q < |run| && run[q].key == key
    ensures JustBefore(run, if q == 0 then |run| else q - 1, key)
  {}

  lemma AfterAhead(runs: seq<seq<Entry>>, pos: seq<nat>, m: seq<Entry>, p: nat)
    requires IsMerge(runs, m) && |pos| == |runs| && p < |m|
    requires forall i :: 0 <= i < |runs| ==> JustAfter(runs[i], pos[i], m[p].key)
    ensures Ahead(runs, pos, m, p + 1)
  {
    forall i, j | 0 <= i < |runs| && 0 <= j < |runs[i]|
      ensures runs[i][j] in m[p + 1..] <==> pos[i] <= j
    {
      var q := InMerge(runs, m, i, j);
      FromIndex(m, p + 1, q);
      assert p < q ==> Less(m[p].key, m[q].key);
      assert q < p ==> Less(m[q].key, m[p].key);
      assert JustAfter(runs[i], pos[i], m[p].key);
    }
  }

  lemma BeforeBehind(runs: seq<seq<Entry>>, pos: seq<nat>, m: seq<Entry>, p: nat)
    requires AllSorted(runs) && IsMerge(runs, m) && |pos| == |runs| && p < |m|
    requires forall i :: 0 <= i < |runs| ==> JustBefore(runs[i], pos[i], m[p].key)
    ensures Behind(runs, pos, m, p)
  {
    forall i, j | 0 <= i < |runs| && 0 <= j < |runs[i]|
      ensures runs[i][j] in m[..p] <==> pos[i] < |runs[i]| && j <= pos[i]
    {
      var q := InMerge(runs, m, i, j);
      FromIndex(m, p, q);
      assert p < q ==> Less(m[p].key, m[q].key);
      assert q < p ==> Less(m[q].key, m[p].key);
      assert JustBefore(runs[i], pos[i], m[p].key);
      assert runs[i] in runs;
      assert pos[i] < |runs[i]| && j < pos[i] ==> Less(runs[i][j].key, runs[i][pos[i]].key);
    }
  }
}
