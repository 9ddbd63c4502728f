/** The iterator stack of the database: all sources, merged, seen at a snapshot. */
module Iterators {
  import opened Keys
  import opened Runs
  import opened Versions
  import opened Compactions
  import opened Database
  import opened DBIterator
  import opened DBImplementation

  ghost function DeepEntries(v: Version, l: nat): set<Entry> {
    set m, f, e | l <= m < |v| && f in v[m] && e in f.entries :: e
  }

  /** Version::AddIterators for levels >= 1: one concatenating iterator a level. */
  function LevelRuns(v: Version, l: nat): seq<seq<Entry>>
    decreases |v| - l
  {
    if l >= |v| then [] else (if v[l] == [] then [] else [Concat(FileRuns(v[l]))]) + LevelRuns(v, l + 1)
  }

  /** DBImpl::NewInternalIterator: both memtables, every level-0 file, the other levels. */
  function Sources(mem: seq<Entry>, imm: Option<seq<Entry>>, v: Version): seq<seq<Entry>>
    requires |v| == NUM_LEVELS
  {
    [mem] + ((if imm.Some? then [imm.value] else []) + (FileRuns(v[0]) + LevelRuns(v, 1)))
  }

  /** Runs that are sorted, share no key, and hold exactly `S`. */
  ghost predicate MergeableInto(runs: seq<seq<Entry>>, S: set<Entry>) {
    AllSorted(runs) && DisjointRuns(runs) && Hold(runs, S)
  }

  ghost predicate Mergeable(runs: seq<seq<Entry>>, S: set<Entry>) {
    forall T {:trigger MergeableInto(runs, T)} :: T == S ==> MergeableInto(runs, T)
  }

  lemma NewerNoCommonKey(A: set<Entry>, B: set<Entry>)
    requires Newer(A, B)
    ensures forall x, y :: x in A && y in B ==> x.key != y.key
  {}

  lemma MergeableAppend(a: seq<seq<Entry>>, A: set<Entry>, b: seq<seq<Entry>>, B: set<Entry>)
    requires Mergeable(a, A) && Mergeable(b, B) && Newer(A, B)
    ensures Mergeable(a + b, A + B)
  {
    assert MergeableInto(a, A) && MergeableInto(b, B);
    NewerNoCommonKey(A, B);
    DisjointAppend(a, b, A, B);
    HoldAppend(a, b, A, B);
    assert forall r :: r in a + b <==> r in a || r in b;
  }

  lemma OneMergeable(r: seq<Entry>)
    requires Sorted(r)
    ensures Mergeable([r], Members(r))
  {
    assert r in [r];
  }

  lemma DeepSplit(v: Version, l: nat)
    requires LevelInv(v) && l < NUM_LEVELS
    ensures DeepEntries(v, l) == LevelEntries(v[l]) + DeepEntries(v, l + 1)
    ensures Newer(LevelEntries(v[l]), DeepEntries(v, l + 1))
  {
    forall a, b | a in LevelEntries(v[l]) && b in DeepEntries(v, l + 1) && a.key.user == b.key.user
      ensures a.key.sequence > b.key.sequence
    {
      var f :| f in v[l] && a in f.entries;
      var m, g :| l + 1 <= m < |v| && g in v[m] && b in g.entries;
      assert NewerLevel(v[l], v[m]) && NewerFile(f, g);
    }
  }

  lemma {:induction false} LevelsMergeable(v: Version, l: nat)
    requires LevelInv(v) && 1 <= l <= NUM_LEVELS
    ensures Mergeable(LevelRuns(v, l), DeepEntries(v, l))
    decreases NUM_LEVELS - l
  {
    if l < NUM_LEVELS {
      LevelsMergeable(v, l + 1);
      DeepSplit(v, l);
      ConcatFiles(v[l]);
      var here := if v[l] == [] then [] else [Concat(FileRuns(v[l]))];
      assert Mergeable(here, LevelEntries(v[l]));
      MergeableAppend(here, LevelEntries(v[l]), LevelRuns(v, l + 1), DeepEntries(v, l + 1));
    }
  }

  lemma VersionMergeable(v: Version)
    requires LevelInv(v)
    ensures Mergeable(FileRuns(v[0]) + LevelRuns(v, 1), Entries(v))
  {
    FilesSorted(v[0]);
    LevelZeroDisjoint(v, v[0]);
    LevelsMergeable(v, 1);
    DeepSplit(v, 0);
    MergeableAppend(FileRuns(v[0]), LevelEntries(v[0]), LevelRuns(v, 1), DeepEntries(v, 1));
    assert DeepEntries(v, 0) == Entries(v);
  }

  /** The children of the internal iterator meet MergingIterator's requirements and hold
      exactly what is stored. */
  lemma SourcesMergeable(st: State)
    requires Inv(st)
    ensures Mergeable(Sources(st.mem, st.imm, st.version), Stored(st))
  {
    var v := st.version;
    var files := FileRuns(v[0]) + LevelRuns(v, 1);
    VersionMergeable(v);
    OneMergeable(st.mem);
    var imm, I := if st.imm.Some? then [st.imm.value] else [], Members(ImmEntries(st.imm));
    if st.imm.Some? {
      OneMergeable(st.imm.value);
    }
    assert Mergeable(imm, I);
    assert Newer(I, Entries(v)) && Newer(Members(st.mem), I + Entries(v)) by {
      assert I <= Memory(st) && Members(st.mem) <= Memory(st);
    }
    MergeableAppend(imm, I, files, Entries(v));
    MergeableAppend([st.mem], Members(st.mem), imm + files, I + Entries(v));
    assert Members(st.mem) + (I + Entries(v)) == Stored(st);
  }

  lemma MergedSources(st: State)
    requires Inv(st)
    ensures var es := MergeAll(Sources(st.mem, st.imm, st.version));
            Sorted(es) && Members(es) == Stored(st) && Unique(Members(es))
  {
    var runs := Sources(st.mem, st.imm, st.version);
    SourcesMergeable(st);
    assert MergeableInto(runs, Stored(st));
    MergeAllMerges(runs);
    GenuineIsUnique(st.history, Stored(st));
    assert forall e :: e in MergeAll(runs) <==> e in Stored(st);
  }

  /** Through the iterator a reader sees exactly the history's live map. */
  lemma IteratorSeesHistory(st: State, s: nat, k: UserKey)
    requires Inv(st) && Oldest(st) <= s
    ensures View(Members(MergeAll(Sources(st.mem, st.imm, st.version))), k, s) == HistoryGet(st.history, k, s)
  {
    MergedSources(st);
  }

  /** DBImpl::NewIterator at a live snapshot or at the latest sequence number. */
  method NewIterator(db: DBImpl, snapshot: Option<nat>) returns (iter: DBIter)
    requires db.Valid()
    requires snapshot.Some? ==> snapshot.value in db.snapshots
    ensures fresh(iter) && iter.Inv() && !iter.valid
    ensures iter.sequence == if snapshot.Some? then snapshot.value else |db.history|
    ensures forall k :: View(Members(iter.entries), k, iter.sequence) == HistoryGet(db.history, k, iter.sequence)
  {
    var s := if snapshot.Some? then snapshot.value else db.lastSequence;
    ghost var st := db.Abs();
    MergedSources(st);
    if snapshot.Some? {
      ghost var i :| 0 <= i < |db.snapshots| && db.snapshots[i] == s;
    }
    forall k
      ensures View(Members(MergeAll(Sources(st.mem, st.imm, st.version))), k, s) == HistoryGet(st.history, k, s)
    {
      IteratorSeesHistory(st, s, k);
    }
    iter := new DBIter(MergeAll(Sources(db.mem, db.imm, db.version)), s);
  }

  /** Walking such an iterator from end to end meets every key the history shows, in order. */
  lemma WalkFollowsHistory(st: State, s: nat, keys: seq<UserKey>)
    requires Inv(st) && Oldest(st) <= s
    requires ForwardWalk(MergeAll(Sources(st.mem, st.imm, st.version)), s, keys)
    ensures forall i, j :: 0 <= i < j < |keys| ==> keys[i] < keys[j]
    ensures forall k :: k in keys <==> HistoryGet(st.history, k, s).Some?
  {
    var es := MergeAll(Sources(st.mem, st.imm, st.version));
    ForwardWalkIsLiveMap(es, s, keys);
    forall k
      ensures k in keys <==> HistoryGet(st.history, k, s).Some?
    {
      IteratorSeesHistory(st, s, k);
    }
  }
}
