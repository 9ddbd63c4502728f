/** The compaction loop: which entries it drops, and exactly when dropping them is harmless. */
module Compactions {
  import opened Keys
  import opened Runs
  import opened Versions
  import opened Picking

  // ---- Input ----

  function FileRuns(fs: seq<File>): seq<seq<Entry>> {
    seq(|fs|, i requires 0 <= i < |fs| => fs[i].entries)
  }

  /** VersionSet::MakeInputIterator: level-0 files are merged one by one, the files of any
      other level are concatenated. */
  function InputRuns(c: Inputs): seq<seq<Entry>> {
    (if c.level == 0 then FileRuns(c.in0) else [Concat(FileRuns(c.in0))]) +
    (if c.in1 == [] then [] else [Concat(FileRuns(c.in1))])
  }

  /** The entries a compaction reads, in the order its merging iterator yields them. */
  function Input(c: Inputs): seq<Entry> {
    MergeAll(InputRuns(c))
  }

  ghost function InputEntries(c: Inputs): set<Entry> {
    LevelEntries(c.in0) + LevelEntries(c.in1)
  }

  lemma FilesSorted(fs: seq<File>)
    requires FilesOk(fs)
    ensures AllSorted(FileRuns(fs))
    ensures Hold(FileRuns(fs), LevelEntries(fs))
  {
    forall r | r in FileRuns(fs)
      ensures Sorted(r)
    {
      var i :| 0 <= i < |fs| && FileRuns(fs)[i] == r;
      assert FileOk(fs[i]);
    }
    forall e | e in LevelEntries(fs)
      ensures exists r :: r in FileRuns(fs) && e in r
    {
      var f :| f in fs && e in f.entries;
      var i :| 0 <= i < |fs| && fs[i] == f;
      assert FileRuns(fs)[i] in FileRuns(fs);
    }
  }

  lemma ConcatFiles(fs: seq<File>)
    requires FilesOk(fs) && Listed(fs) && AllSeparate(fs)
    ensures Sorted(Concat(FileRuns(fs)))
    ensures Hold([Concat(FileRuns(fs))], LevelEntries(fs))
  {
    FilesSorted(fs);
    ConcatMembers(FileRuns(fs));
    forall i, j | 0 <= i < j < |fs|
      ensures EntriesBefore(fs[i].entries, fs[j].entries)
    {
      InOrder(fs, i, j);
      forall x, y | x in fs[i].entries && y in fs[j].entries ensures Less(x.key, y.key) {
        InRange(fs[i], x);
        InRange(fs[j], y);
      }
    }
    ConcatSorted(FileRuns(fs));
    assert Concat(FileRuns(fs)) in [Concat(FileRuns(fs))];
  }

  lemma LevelZeroDisjoint(v: Version, fs: seq<File>)
    requires LevelInv(v) && SubsetOf(fs, v[0]) && Listed(fs)
    ensures DisjointRuns(FileRuns(fs))
  {
    forall i, j, x, y | 0 <= i < j < |fs| && x in fs[i].entries && y in fs[j].entries
      ensures x.key != y.key
    {
      var f, g := fs[i], fs[j];
      assert f in fs && g in fs && BySmallest(f, g);
      assert NumbersUnique(v[0], v[0]);
      assert NewerFile(f, g) || NewerFile(g, f);
    }
  }

  lemma NoKeyInBoth(v: Version, level: nat, fs: seq<File>, gs: seq<File>)
    requires LevelInv(v) && level + 1 < NUM_LEVELS && SubsetOf(fs, v[level]) && SubsetOf(gs, v[level + 1])
    ensures forall x, y :: x in LevelEntries(fs) && y in LevelEntries(gs) ==> x.key != y.key
  {
    forall x, y | x in LevelEntries(fs) && y in LevelEntries(gs)
      ensures x.key != y.key
    {
      var f :| f in fs && x in f.entries;
      var g :| g in gs && y in g.entries;
      assert NewerLevel(v[level], v[level + 1]) && NewerFile(f, g);
    }
  }

  lemma UpperRuns(v: Version, c: Inputs)
    requires LevelInv(v) && GoodInputs(v, c)
    ensures var upper := if c.level == 0 then FileRuns(c.in0) else [Concat(FileRuns(c.in0))];
            AllSorted(upper) && DisjointRuns(upper) && Hold(upper, LevelEntries(c.in0))
  {
    if c.level == 0 {
      FilesSorted(c.in0);
      LevelZeroDisjoint(v, c.in0);
    } else {
      ConcatFiles(c.in0);
    }
  }

  lemma LowerRuns(v: Version, c: Inputs)
    requires LevelInv(v) && GoodInputs(v, c)
    ensures var lower := if c.in1 == [] then [] else [Concat(FileRuns(c.in1))];
            AllSorted(lower) && DisjointRuns(lower) && Hold(lower, LevelEntries(c.in1))
  {
    if c.in1 != [] {
      ConcatFiles(c.in1);
    }
  }

  /** The input is the sorted merge of all entries of all input files. */
  lemma InputMerges(v: Version, c: Inputs)
    requires LevelInv(v) && GoodInputs(v, c)
    ensures Sorted(Input(c)) && Members(Input(c)) == InputEntries(c)
  {
    var upper := if c.level == 0 then FileRuns(c.in0) else [Concat(FileRuns(c.in0))];
    var lower := if c.in1 == [] then [] else [Concat(FileRuns(c.in1))];
    UpperRuns(v, c);
    LowerRuns(v, c);
    NoKeyInBoth(v, c.level, c.in0, c.in1);
    DisjointAppend(upper, lower, LevelEntries(c.in0), LevelEntries(c.in1));
    HoldAppend(upper, lower, LevelEntries(c.in0), LevelEntries(c.in1));
    assert forall r :: r in upper + lower ==> r in upper || r in lower;
    MergeHolds(upper + lower, InputEntries(c));
  }

  lemma MergeHolds(runs: seq<seq<Entry>>, S: set<Entry>)
    requires AllSorted(runs) && DisjointRuns(runs) && Hold(runs, S)
    ensures Sorted(MergeAll(runs)) && Members(MergeAll(runs)) == S
  {
    MergeAllMerges(runs);
    assert forall e :: e in MergeAll(runs) <==> e in S;
  }

  // ---- The drop rules ----

  /** No file below the output level covers `k`. */
  ghost predicate IsBase(v: Version, level: nat, k: UserKey) {
    forall l, f :: level + 2 <= l < |v| && f in v[l] ==> !(f.smallest.user <= k <= f.largest.user)
  }

  /** Rule (A), hidden by a newer entry that every snapshot sees, or an obsolete tombstone. */
  ghost predicate Dropped(v: Version, level: nat, input: seq<Entry>, floor: nat, i: nat)
    requires i < |input|
  {
    || (i > 0 && input[i - 1].key.user == input[i].key.user && input[i - 1].key.sequence <= floor)
    || (input[i].key.kind.Deletion? && input[i].key.sequence <= floor && IsBase(v, level, input[i].key.user))
  }

  ghost predicate SequencesFit(input: seq<Entry>) {
    forall e <- input :: e.key.sequence <= MAX_SEQUENCE
  }

  ghost predicate FirstOfKey(input: seq<Entry>, i: nat)
    requires i < |input|
  {
    i == 0 || input[i - 1].key.user != input[i].key.user
  }

  ghost function Survivors(v: Version, level: nat, input: seq<Entry>, floor: nat, n: nat): seq<Entry>
    requires n <= |input|
  {
    if n == 0 then [] else
      Survivors(v, level, input, floor, n - 1) + (if Dropped(v, level, input, floor, n - 1) then [] else [input[n - 1]])
  }

  lemma {:induction false} SurvivorsMembers(v: Version, level: nat, input: seq<Entry>, floor: nat, n: nat)
    requires Sorted(input) && n <= |input|
    ensures forall e :: e in Survivors(v, level, input, floor, n) <==> exists i :: 0 <= i < n && input[i] == e && !Dropped(v, level, input, floor, i)
    ensures Sorted(Survivors(v, level, input, floor, n))
  {
    if n > 0 {
      SurvivorsMembers(v, level, input, floor, n - 1);
      var prev := Survivors(v, level, input, floor, n - 1);
      forall x | x in prev
        ensures Less(x.key, input[n - 1].key)
      {
      }
    }
  }

  /** Cached positions that have passed only files ending before `k`. */
  ghost predicate Passed(v: Version, level: nat, ptrs: seq<nat>, k: UserKey) {
    && |ptrs| == |v|
    && forall l :: level + 2 <= l < |v| ==> PassedIn(v[l], ptrs[l], k)
  }

  ghost predicate PassedIn(files: seq<File>, ptr: nat, k: UserKey) {
    ptr <= |files| && forall j :: 0 <= j < ptr ==> files[j].largest.user < k
  }

  /** The inner loop of IsBaseLevelForKey on one level. */
  method AdvancePtr(files: seq<File>, start: nat, k: UserKey) returns (ptr: nat, covered: bool)
    requires FilesOk(files) && Listed(files) && AllSeparate(files)
    requires PassedIn(files, start, k)
    ensures PassedIn(files, ptr, k)
    ensures covered <==> exists f :: f in files && f.smallest.user <= k <= f.largest.user
  {
    ptr := start;
    while ptr < |files|
      invariant PassedIn(files, ptr, k)
    {
      var f := files[ptr];
      if k <= f.largest.user {
        if k >= f.smallest.user {
          assert f in files;
          return ptr, true;
        }
        break;
      }
      ptr := ptr + 1;
    }
    forall j | 0 <= j < |files|
      ensures !(files[j].smallest.user <= k <= files[j].largest.user)
    {
      if ptr < j {
        InOrder(files, ptr, j);
        RangeOrdered(files[ptr]);
      }
    }
    covered := false;
  }

  /** A Compaction with the cached positions of IsBaseLevelForKey. */
  class Compaction {
    const version: Version
    const level: nat
    var levelPtrs: seq<nat>

    constructor (v: Version, l: nat)
      requires LevelInv(v) && l + 1 < NUM_LEVELS
      ensures version == v && level == l
      ensures forall k :: Passed(v, l, levelPtrs, k)
    {
      version, level := v, l;
      levelPtrs := seq(NUM_LEVELS, _ => 0);
    }

    /** Compaction::IsBaseLevelForKey: for non-decreasing keys the cached positions give the
        answer of a fresh search. */
    method IsBaseLevelForKey(k: UserKey) returns (b: bool)
      requires LevelInv(version) && level + 1 < NUM_LEVELS && Passed(version, level, levelPtrs, k)
      modifies this
      ensures b <==> IsBase(version, level, k)
      ensures Passed(version, level, levelPtrs, k)
    {
      for lvl := level + 2 to NUM_LEVELS
        invariant Passed(version, level, levelPtrs, k)
        invariant forall l, f :: level + 2 <= l < lvl && f in version[l] ==> !(f.smallest.user <= k <= f.largest.user)
      {
        var ptr, covered := AdvancePtr(version[lvl], levelPtrs[lvl], k);
        levelPtrs := levelPtrs[lvl := ptr];
        if covered {
          return false;
        }
      }
      b := true;
    }

    /** The drop decision of one iteration of the compaction loop.  The largest sequence number
        stands for "no entry of this key yet", which misleads it if the snapshot is as large. */
    method Decide(ghost input: seq<Entry>, ghost i: nat, ikey: InternalKey, userKey: Option<UserKey>, lastSequence: nat, smallestSnapshot: nat)
      returns (drop: bool, userKey2: Option<UserKey>, lastSequence2: nat)
      requires LevelInv(version) && level + 1 < NUM_LEVELS && Passed(version, level, levelPtrs, ikey.user)
      requires i < |input| && input[i].key == ikey
      requires i == 0 ==> userKey.None?
      requires i > 0 ==> userKey == Some(input[i - 1].key.user) && lastSequence == input[i - 1].key.sequence
      modifies this
      ensures drop == (Dropped(version, level, input, smallestSnapshot, i) || (FirstOfKey(input, i) && smallestSnapshot >= MAX_SEQUENCE))
      ensures userKey2 == Some(ikey.user) && lastSequence2 == ikey.sequence
      ensures Passed(version, level, levelPtrs, ikey.user)
    {
      userKey2, lastSequence2 := userKey, lastSequence;
      drop := false;
      if userKey2.None? || ikey.user != userKey2.value {
        userKey2 := Some(ikey.user);
        lastSequence2 := MAX_SEQUENCE;
      }
      if lastSequence2 <= smallestSnapshot {
        drop := true;
      } else if ikey.kind.Deletion? && ikey.sequence <= smallestSnapshot {
        drop := IsBaseLevelForKey(ikey.user);
      }
      lastSequence2 := ikey.sequence;
    }

    /** DBImpl::DoCompactionWork between opening the input and installing the results. The
        output is cut into files wherever the size limits say, which is left open here. */
    method DoCompactionWork(input: seq<Entry>, smallestSnapshot: nat, firstNumber: nat) returns (outputs: seq<File>)
      requires LevelInv(version) && level + 1 < NUM_LEVELS && Sorted(input)
      requires forall k :: Passed(version, level, levelPtrs, k)
      modifies this
      ensures smallestSnapshot < MAX_SEQUENCE ==> Concat(FileRuns(outputs)) == Survivors(version, level, input, smallestSnapshot, |input|)
      // With a snapshot as large as the marker every entry would be lost.
      ensures smallestSnapshot >= MAX_SEQUENCE && SequencesFit(input) ==> outputs == []
      ensures AllBuilt(outputs, firstNumber)
    {
      var builder: seq<Entry> := [];
      var currentUserKey: Option<UserKey> := None;
      var lastSequenceForKey := MAX_SEQUENCE;
      outputs := [];
      for i := 0 to |input|
        invariant i < |input| ==> Passed(version, level, levelPtrs, input[i].key.user)
        invariant i == 0 ==> currentUserKey.None?
        invariant i > 0 ==> currentUserKey == Some(input[i - 1].key.user) && lastSequenceForKey == input[i - 1].key.sequence
        invariant smallestSnapshot < MAX_SEQUENCE ==> Concat(FileRuns(outputs)) + builder == Survivors(version, level, input, smallestSnapshot, i)
        invariant smallestSnapshot >= MAX_SEQUENCE && SequencesFit(input) ==> outputs == [] && builder == []
        invariant AllBuilt(outputs, firstNumber)
      {
        ghost var done := Concat(FileRuns(outputs)) + builder;
        var shouldStopBefore: bool := *;
        if shouldStopBefore && builder != [] {
          outputs, builder := FinishCompactionOutputFile(outputs, builder, firstNumber);
        }
        var drop;
        drop, currentUserKey, lastSequenceForKey := Decide(input, i, input[i].key, currentUserKey, lastSequenceForKey, smallestSnapshot);
        if !drop {
          outputs, builder := AddToOutput(outputs, builder, input[i], firstNumber);
        }
        assert Concat(FileRuns(outputs)) + builder == done + if drop then [] else [input[i]];
      }
      if builder != [] {
        outputs, builder := FinishCompactionOutputFile(outputs, builder, firstNumber);
      }
    }
  }

  /** Adds one entry, and closes the output file if it is big enough. */
  method AddToOutput(outputs: seq<File>, builder: seq<Entry>, e: Entry, firstNumber: nat) returns (outputs2: seq<File>, builder2: seq<Entry>)
    requires AllBuilt(outputs, firstNumber)
    ensures AllBuilt(outputs2, firstNumber)
    ensures Concat(FileRuns(outputs2)) + builder2 == Concat(FileRuns(outputs)) + builder + [e]
  {
    outputs2, builder2 := outputs, builder + [e];
    var bigEnough: bool := *;
    if bigEnough {
      outputs2, builder2 := FinishCompactionOutputFile(outputs, builder2, firstNumber);
    }
  }

  /** Output files record their first and last keys and take consecutive numbers. */
  ghost predicate AllBuilt(outputs: seq<File>, firstNumber: nat) {
    forall i :: 0 <= i < |outputs| ==> outputs[i].number == firstNumber + i && Built(outputs[i])
  }

  ghost predicate Built(f: File) {
    f.entries != [] && f.smallest == f.entries[0].key && f.largest == f.entries[|f.entries| - 1].key
  }

  /** Opening, filling and finishing one output file. */
  method FinishCompactionOutputFile(outputs: seq<File>, builder: seq<Entry>, firstNumber: nat) returns (outputs2: seq<File>, builder2: seq<Entry>)
    requires builder != [] && AllBuilt(outputs, firstNumber)
    ensures builder2 == [] && AllBuilt(outputs2, firstNumber)
    ensures Concat(FileRuns(outputs2)) + builder2 == Concat(FileRuns(outputs)) + builder
  {
    var size: nat := *;
    outputs2 := outputs + [File(firstNumber + |outputs|, size, builder[0].key, builder[|builder| - 1].key, builder)];
    builder2 := [];
    assert FileRuns(outputs2) == FileRuns(outputs) + [builder];
    ConcatAppend(FileRuns(outputs), builder);
  }
}
