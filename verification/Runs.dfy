/** Sorted runs of entries and their merge. */
module Runs {
  import opened Keys

  /** `m` lists, in internal-key order, exactly the entries of the runs. */
  ghost predicate IsMerge(runs: seq<seq<Entry>>, m: seq<Entry>) {
    Sorted(m) && forall e :: e in m <==> exists r :: r in runs && e in r
  }

  ghost predicate AllSorted(runs: seq<seq<Entry>>) {
    forall r :: r in runs ==> Sorted(r)
  }

  ghost predicate NoCommonKey(a: seq<Entry>, b: seq<Entry>) {
    forall x, y :: x in a && y in b ==> x.key != y.key
  }

  /** No internal key occurs in two runs. */
  ghost predicate DisjointRuns(runs: seq<seq<Entry>>) {
    forall i, j :: 0 <= i < j < |runs| ==> NoCommonKey(runs[i], runs[j])
  }

  lemma LessTotal(a: InternalKey, b: InternalKey)
    ensures Less(a, b) || Less(b, a) || a == b
  {}

  lemma SortedTail(es: seq<Entry>)
    requires Sorted(es) && es != []
    ensures Sorted(es[1..]) && forall e :: e in es[1..] ==> Less(es[0].key, e.key)
  {}

  lemma SortedCons(e: Entry, es: seq<Entry>)
    requires Sorted(es) && forall f :: f in es ==> Less(e.key, f.key)
    ensures Sorted([e] + es)
  {}

  function Merge(a: seq<Entry>, b: seq<Entry>): seq<Entry> {
    if a == [] then b
    else if b == [] then a
    else if Less(a[0].key, b[0].key) then [a[0]] + Merge(a[1..], b)
    else [b[0]] + Merge(a, b[1..])
  }

  lemma {:induction false} MergeSorts(a: seq<Entry>, b: seq<Entry>)
    requires Sorted(a) && Sorted(b) && NoCommonKey(a, b)
    ensures Sorted(Merge(a, b))
    ensures forall e :: e in Merge(a, b) <==> e in a || e in b
  {
    if a != [] && b != [] {
      SortedTail(a);
      SortedTail(b);
      assert a == [a[0]] + a[1..] && b == [b[0]] + b[1..];
      if Less(a[0].key, b[0].key) {
        MergeSorts(a[1..], b);
        SortedCons(a[0], Merge(a[1..], b));
      } else {
        LessTotal(a[0].key, b[0].key);
        MergeSorts(a, b[1..]);
        SortedCons(b[0], Merge(a, b[1..]));
      }
    }
  }

  function MergeAll(runs: seq<seq<Entry>>): seq<Entry> {
    if runs == [] then [] else Merge(runs[0], MergeAll(runs[1..]))
  }

  lemma {:induction false} MergeAllMerges(runs: seq<seq<Entry>>)
    requires AllSorted(runs) && DisjointRuns(runs)
    ensures IsMerge(runs, MergeAll(runs))
  {
    if runs != [] {
      TailRuns(runs);
      MergeAllMerges(runs[1..]);
      HeadDisjoint(runs, MergeAll(runs[1..]));
      MergeSorts(runs[0], MergeAll(runs[1..]));
    }
  }

  lemma TailRuns(runs: seq<seq<Entry>>)
    requires runs != [] && AllSorted(runs) && DisjointRuns(runs)
    ensures AllSorted(runs[1..]) && DisjointRuns(runs[1..])
    ensures forall r :: r in runs <==> r == runs[0] || r in runs[1..]
  {
    var rest := runs[1..];
    assert runs == [runs[0]] + rest;
    assert forall i, j :: 0 <= i < j < |rest| ==> rest[i] == runs[i + 1] && rest[j] == runs[j + 1];
  }

  lemma HeadDisjoint(runs: seq<seq<Entry>>, m: seq<Entry>)
    requires runs != [] && DisjointRuns(runs) && IsMerge(runs[1..], m)
    ensures NoCommonKey(runs[0], m)
  {
    var rest := runs[1..];
    forall x, y | x in runs[0] && y in m
      ensures x.key != y.key
    {
      var r :| r in rest && y in r;
      var j :| 0 <= j < |rest| && rest[j] == r;
      assert NoCommonKey(runs[0], runs[j + 1]);
    }
  }

  function Concat(runs: seq<seq<Entry>>): seq<Entry> {
    if runs == [] then [] else runs[0] + Concat(runs[1..])
  }

  lemma {:induction false} ConcatMembers(runs: seq<seq<Entry>>)
    ensures forall e :: e in Concat(runs) <==> exists r :: r in runs && e in r
  {
    if runs != [] {
      ConcatMembers(runs[1..]);
      assert runs == [runs[0]] + runs[1..];
    }
  }

  ghost predicate EntriesBefore(a: seq<Entry>, b: seq<Entry>) {
    forall x, y :: x in a && y in b ==> Less(x.key, y.key)
  }

  lemma SortedAppend(a: seq<Entry>, b: seq<Entry>)
    requires Sorted(a) && Sorted(b) && EntriesBefore(a, b)
    ensures Sorted(a + b)
  {
    forall i, j | 0 <= i < j < |a + b|
      ensures Less((a + b)[i].key, (a + b)[j].key)
    {
      if i < |a| <= j {
        assert a[i] in a && b[j - |a|] in b;
      }
    }
  }

  /** Concatenating runs that follow one another gives a sorted run. */
  lemma {:induction false} ConcatSorted(runs: seq<seq<Entry>>)
    requires AllSorted(runs)
    requires forall i, j :: 0 <= i < j < |runs| ==> EntriesBefore(runs[i], runs[j])
    ensures Sorted(Concat(runs))
  {
    if runs != [] {
      var rest := runs[1..];
      assert forall i :: 0 <= i < |rest| ==> rest[i] == runs[i + 1];
      assert forall r :: r in rest ==> r in runs;
      ConcatSorted(rest);
      ConcatMembers(rest);
      forall x, y | x in runs[0] && y in Concat(rest)
        ensures Less(x.key, y.key)
      {
        var r :| r in rest && y in r;
        var j :| 0 <= j < |rest| && rest[j] == r;
        assert EntriesBefore(runs[0], runs[j + 1]);
      }
      assert runs[0] in runs;
      SortedAppend(runs[0], Concat(rest));
    }
  }

  lemma {:induction false} ConcatAppend(runs: seq<seq<Entry>>, r: seq<Entry>)
    ensures Concat(runs + [r]) == Concat(runs) + r
  {
    if runs == [] {
      assert runs + [r] == [r] && [r][1..] == [];
      assert Concat([r]) == r + Concat([]) == r;
    } else {
      assert (runs + [r])[1..] == runs[1..] + [r];
      ConcatAppend(runs[1..], r);
    }
  }

  /** Conversely, the pieces of a sorted concatenation are sorted and follow one another. */
  lemma {:induction false} ConcatPieces(runs: seq<seq<Entry>>)
    requires Sorted(Concat(runs))
    ensures AllSorted(runs)
    ensures forall i, j :: 0 <= i < j < |runs| ==> EntriesBefore(runs[i], runs[j])
  {
    if runs != [] {
      var a: seq<Entry>, rest := runs[0], runs[1..];
      var b := Concat(rest);
      assert runs == [a] + rest && Concat(runs) == a + b;
      assert a == (a + b)[..|a|] && b == (a + b)[|a|..];
      ConcatPieces(rest);
      ConcatMembers(rest);
      forall i, j | 0 <= i < j < |runs|
        ensures EntriesBefore(runs[i], runs[j])
      {
        assert runs[j] == rest[j - 1] && rest[j - 1] in rest;
        if i == 0 {
          forall x, y | x in a && y in runs[j] ensures Less(x.key, y.key) {
            var p :| 0 <= p < |a| && a[p] == x;
            assert y in b;
            var q :| 0 <= q < |b| && b[q] == y;
            assert (a + b)[p] == x && (a + b)[|a| + q] == y;
          }
        } else {
          assert runs[i] == rest[i - 1];
        }
      }
    }
  }

  /** `S` is the set of entries of the runs. */
  ghost predicate Hold(runs: seq<seq<Entry>>, S: set<Entry>) {
    forall e :: e in S <==> exists r :: r in runs && e in r
  }

  lemma HoldAppend(a: seq<seq<Entry>>, b: seq<seq<Entry>>, A: set<Entry>, B: set<Entry>)
    requires Hold(a, A) && Hold(b, B)
    ensures Hold(a + b, A + B)
  {
    assert forall r :: r in a + b <==> r in a || r in b;
  }

  lemma DisjointAppend(a: seq<seq<Entry>>, b: seq<seq<Entry>>, A: set<Entry>, B: set<Entry>)
    requires Hold(a, A) && Hold(b, B) && DisjointRuns(a) && DisjointRuns(b)
    requires forall x, y :: x in A && y in B ==> x.key != y.key
    ensures DisjointRuns(a + b)
  {
    forall i, j | 0 <= i < j < |a + b|
      ensures NoCommonKey((a + b)[i], (a + b)[j])
    {
      if i < |a| <= j {
        assert a[i] in a && b[j - |a|] in b;
      }
    }
  }
}
