/** Version changes keep the level invariant. */
module Installing {
  import opened Keys
  import opened Runs
  import opened Versions
  import opened Picking
  import opened Edits
  import opened Compactions
  import opened Preservation

  /** Level `l` of `w` is level `l` of `v` without `gone` and with `arrived`. */
  ghost predicate Edited(fs: seq<File>, gone: seq<File>, arrived: seq<File>, ws: seq<File>) {
    Listed(ws) && forall f :: f in ws <==> (f in fs && f !in gone) || f in arrived
  }

  ghost predicate SameElsewhere(v: Version, w: Version, l: nat, m: nat) {
    |w| == |v| && forall n :: 0 <= n < |v| && n != l && n != m ==> w[n] == v[n]
  }

  /** If `w` only loses files, except for files `arrived` that arrive in level `t`, the invariant
      is a matter of how the new files relate to those kept. */
  lemma LevelInvAfter(v: Version, w: Version, t: nat, arrived: seq<File>)
    requires LevelInv(v) && |w| == NUM_LEVELS && t < NUM_LEVELS
    requires forall l :: 0 <= l < NUM_LEVELS ==> Listed(w[l])
    requires forall l :: 0 <= l < NUM_LEVELS && l != t ==> SubsetOf(w[l], v[l])
    requires forall f :: f in w[t] ==> f in v[t] || f in arrived
    requires FilesOk(arrived) && NumbersUnique(w[t], w[t])
    requires t > 0 ==> AllSeparate(w[t])
    requires t == 0 ==> NumbersOrderAge(w[0])
    requires forall l :: 0 <= l < NUM_LEVELS && l != t ==> NumbersDistinct(w[l], arrived)
    requires forall l :: 0 <= l < t ==> NewerLevel(w[l], arrived)
    requires forall l :: t < l < NUM_LEVELS ==> NewerLevel(arrived, w[l])
    ensures LevelInv(w)
  {
    forall l | 0 <= l < NUM_LEVELS
      ensures FilesOk(w[l]) && NumbersUnique(w[l], w[l])
    {
      assert FilesOk(v[l]) && NumbersUnique(v[l], v[l]);
    }
    forall l | 1 <= l < NUM_LEVELS ensures AllSeparate(w[l]) {
      assert AllSeparate(v[l]);
    }
    forall l, m | 0 <= l < m < NUM_LEVELS
      ensures NewerLevel(w[l], w[m]) && NumbersDistinct(w[l], w[m])
    {
      assert NewerLevel(v[l], v[m]) && NumbersDistinct(v[l], v[m]);
    }
  }

  // ---- Flushing a memtable ----

  /** `f` is a new file, newer than everything in `v`, whose range meets no file of levels
      0..t when t > 0. */
  ghost predicate Flushable(v: Version, f: File, t: nat) {
    && t < NUM_LEVELS && FileOk(f) && |v| == NUM_LEVELS
    && (forall l, g :: 0 <= l < |v| && g in v[l] ==> g.number < f.number && NewerFile(f, g))
    && (t > 0 ==> forall l :: 0 <= l <= t ==> Untouched(v, l, f.smallest.user, f.largest.user))
  }

  lemma FlushKeepsLevelInv(v: Version, w: Version, f: File, t: nat)
    requires LevelInv(v) && Flushable(v, f, t)
    requires SameElsewhere(v, w, t, t) && Edited(v[t], [], [f], w[t])
    ensures LevelInv(w)
  {
    forall l, g | 0 <= l <= t && t > 0 && g in v[l]
      ensures Separate(f, g) && NewerFile(g, f)
    {
      assert Untouched(v, l, f.smallest.user, f.largest.user);
      assert !Overlaps(g, Some(f.smallest.user), Some(f.largest.user));
      forall a, b | a in g.entries && b in f.entries ensures a.key.user != b.key.user {
        InRange(g, a);
        InRange(f, b);
      }
    }
    forall g, h | g in w[t] && h in w[t] && g != h && t > 0
      ensures Separate(g, h)
    {
      assert AllSeparate(v[t]);
      assert g in v[t] ==> Separate(f, g);
      assert h in v[t] ==> Separate(f, h);
    }
    LevelInvAfter(v, w, t, [f]);
  }

  // ---- Trivial moves ----

  lemma MoveKeepsLevelInv(v: Version, w: Version, c: Inputs, f: File)
    requires LevelInv(v) && GoodInputs(v, c) && c.in0 == [f] && c.in1 == []
    requires SameElsewhere(v, w, c.level, c.level + 1)
    requires Edited(v[c.level], [f], [], w[c.level]) && Edited(v[c.level + 1], [], [f], w[c.level + 1])
    ensures LevelInv(w) && Entries(w) == Entries(v)
  {
    var t := c.level + 1;
    assert f in c.in0;
    forall g, h | g in w[t] && h in w[t] && g != h
      ensures Separate(g, h)
    {
      assert g in v[t] ==> g !in c.in1;
      assert h in v[t] ==> h !in c.in1;
      assert g in v[t] && h in v[t] ==> AllSeparate(v[t]);
    }
    forall l, g | 0 <= l < NUM_LEVELS && l != t && g in w[l]
      ensures g.number != f.number
      ensures l < t ==> NewerFile(g, f)
      ensures l > t ==> NewerFile(f, g)
    {
      if l < c.level {
        assert NumbersDistinct(v[l], v[c.level]) && NewerLevel(v[l], v[c.level]);
      } else if l == c.level {
        assert NumbersUnique(v[l], v[l]);
      } else {
        assert NumbersDistinct(v[c.level], v[l]) && NewerLevel(v[c.level], v[l]);
      }
    }
    assert NumbersDistinct(v[c.level], v[t]);
    LevelInvAfter(v, w, t, [f]);
    MoveKeepsEntries(v, w, c.level, f);
  }

  lemma MoveKeepsEntries(v: Version, w: Version, l: nat, f: File)
    requires l + 1 < |v| && f in v[l] && SameElsewhere(v, w, l, l + 1)
    requires Edited(v[l], [f], [], w[l]) && Edited(v[l + 1], [], [f], w[l + 1])
    ensures Entries(w) == Entries(v)
  {
    forall m, g | 0 <= m < |v| && g in v[m]
      ensures g in w[m] || (g == f && g in w[l + 1])
    {}
    forall m, g | 0 <= m < |w| && g in w[m]
      ensures g in v[m] || (g == f && g in v[l])
    {}
  }

  // ---- Installing a compaction ----

  /** What DoCompactionWork hands to InstallCompactionResults. */
  ghost predicate OutputsOf(v: Version, c: Inputs, floor: nat, outputs: seq<File>, firstNumber: nat) {
    && Concat(FileRuns(outputs)) == Survivors(v, c.level, Input(c), floor, |Input(c)|)
    && AllBuilt(outputs, firstNumber)
  }

  ghost predicate Installed(v: Version, c: Inputs, outputs: seq<File>, w: Version) {
    && |v| == NUM_LEVELS && c.level + 1 < NUM_LEVELS
    && SameElsewhere(v, w, c.level, c.level + 1)
    && Edited(v[c.level], c.in0, [], w[c.level])
    && Edited(v[c.level + 1], c.in1, outputs, w[c.level + 1])
  }

  lemma RunEntries(outputs: seq<File>)
    ensures LevelEntries(outputs) == Members(Concat(FileRuns(outputs)))
  {
    var runs := FileRuns(outputs);
    ConcatMembers(runs);
    forall e | e in LevelEntries(outputs)
      ensures e in Concat(runs)
    {
      var f :| f in outputs && e in f.entries;
      var i :| 0 <= i < |outputs| && outputs[i] == f;
      assert runs[i] in runs;
    }
    forall e | e in Concat(runs)
      ensures e in LevelEntries(outputs)
    {
      var r :| r in runs && e in r;
      var i :| 0 <= i < |outputs| && runs[i] == r;
      assert outputs[i] in outputs;
    }
  }

  lemma CutApart(f: File, g: File)
    requires Built(f) && Built(g) && EntriesBefore(f.entries, g.entries)
    ensures Less(f.largest, g.smallest)
  {}

  /** Files cut from one sorted sequence. */
  lemma CutFiles(outputs: seq<File>, kept: seq<Entry>, firstNumber: nat)
    requires Concat(FileRuns(outputs)) == kept && Sorted(kept) && AllBuilt(outputs, firstNumber)
    requires forall e :: e in kept ==> e.key.sequence < MAX_SEQUENCE
    ensures FilesOk(outputs) && AllSeparate(outputs)
  {
    var runs := FileRuns(outputs);
    ConcatPieces(runs);
    RunEntries(outputs);
    forall f | f in outputs
      ensures FileOk(f)
    {
      var i :| 0 <= i < |outputs| && outputs[i] == f;
      assert runs[i] in runs && Built(f);
      assert forall e :: e in f.entries ==> e in LevelEntries(outputs);
    }
    forall f, g | f in outputs && g in outputs && f != g
      ensures Separate(f, g)
    {
      var i :| 0 <= i < |outputs| && outputs[i] == f;
      var j :| 0 <= j < |outputs| && outputs[j] == g;
      if i < j {
        assert EntriesBefore(runs[i], runs[j]);
        CutApart(f, g);
      } else {
        assert EntriesBefore(runs[j], runs[i]);
        CutApart(g, f);
      }
    }
  }

  lemma OutputsAreFiles(v: Version, c: Inputs, floor: nat, outputs: seq<File>, firstNumber: nat)
    requires LevelInv(v) && GoodInputs(v, c) && OutputsOf(v, c, floor, outputs, firstNumber)
    ensures FilesOk(outputs) && AllSeparate(outputs) && NumbersUnique(outputs, outputs)
    ensures LevelEntries(outputs) == Members(Survivors(v, c.level, Input(c), floor, |Input(c)|))
    ensures LevelEntries(outputs) <= InputEntries(c)
  {
    var kept := Survivors(v, c.level, Input(c), floor, |Input(c)|);
    InputMerges(v, c);
    SurvivorsMembers(v, c.level, Input(c), floor, |Input(c)|);
    forall e | e in kept
      ensures e in InputEntries(c) && e.key.sequence < MAX_SEQUENCE
    {
      assert e in Members(Input(c));
      InputSmall(v, c, e);
    }
    CutFiles(outputs, kept, firstNumber);
    RunEntries(outputs);
    assert Members(kept) <= InputEntries(c);
  }

  lemma InputSmall(v: Version, c: Inputs, e: Entry)
    requires LevelInv(v) && GoodInputs(v, c) && e in InputEntries(c)
    ensures e.key.sequence < MAX_SEQUENCE
  {
    var f :| (f in c.in0 || f in c.in1) && e in f.entries;
    assert f in v[c.level] || f in v[c.level + 1];
    assert FileOk(f);
  }

  /** A file of the output level that is not an input lies wholly before or wholly after
      everything the compaction reads. */
  lemma KeptParentIsApart(v: Version, c: Inputs, g: File, a: Entry, b: Entry)
    requires LevelInv(v) && GoodInputs(v, c) && g in v[c.level + 1] && g !in c.in1
    requires a in InputEntries(c) && b in InputEntries(c)
    ensures (Less(a.key, g.smallest) && Less(b.key, g.smallest)) || (Less(g.largest, a.key) && Less(g.largest, b.key))
  {
    assert !Overlaps(g, Some(c.smallest.user), Some(c.largest.user));
    OneSide(v, c, g, a);
    OneSide(v, c, g, b);
    RangeOrdered(g);
  }

  lemma OneSide(v: Version, c: Inputs, g: File, a: Entry)
    requires LevelInv(v) && GoodInputs(v, c) && g in v[c.level + 1] && g !in c.in1
    requires a in InputEntries(c)
    ensures g.largest.user < c.smallest.user ==> Less(g.largest, a.key)
    ensures c.largest.user < g.smallest.user ==> Less(a.key, g.smallest)
  {
    var f :| (f in c.in0 || f in c.in1) && a in f.entries;
    assert FileOk(f) && FileOk(g);
    InRange(f, a);
    RangeOrdered(g);
    RangeOrdered(f);
    if f in c.in1 {
      assert Overlaps(f, Some(c.smallest.user), Some(c.largest.user));
      assert Separate(f, g);
    } else {
      assert Within(f, Some(c.smallest.user), Some(c.largest.user));
    }
  }

  lemma OutputIsApart(v: Version, c: Inputs, g: File, f: File)
    requires LevelInv(v) && GoodInputs(v, c) && g in v[c.level + 1] && g !in c.in1
    requires FileOk(f) && forall e :: e in f.entries ==> e in InputEntries(c)
    ensures Separate(f, g)
  {
    KeptParentIsApart(v, c, g, f.entries[0], f.entries[|f.entries| - 1]);
  }

  /** Whatever is kept at or above the input level is newer than the input, key by key, and
      whatever lies below the output level is older. */
  lemma KeptAges(v: Version, c: Inputs, l: nat, g: File, a: Entry, b: Entry)
    requires LevelInv(v) && GoodInputs(v, c) && l < NUM_LEVELS && g in v[l]
    requires l == c.level ==> g !in c.in0
    requires a in g.entries && b in InputEntries(c) && a.key.user == b.key.user
    ensures l <= c.level ==> a.key.sequence > b.key.sequence
    ensures l > c.level + 1 ==> a.key.sequence < b.key.sequence
  {
    var h :| (h in c.in0 || h in c.in1) && b in h.entries;
    var m := if h in c.in0 then c.level else c.level + 1;
    assert h in v[m];
    if l < m {
      assert NewerLevel(v[l], v[m]) && NewerFile(g, h);
    } else if l > m {
      assert NewerLevel(v[m], v[l]) && NewerFile(h, g);
    } else if l == c.level {
      assert NewerFile(g, h);
    }
  }

  lemma OutputAges(v: Version, c: Inputs, l: nat, g: File, f: File)
    requires LevelInv(v) && GoodInputs(v, c) && l < NUM_LEVELS && g in v[l]
    requires l == c.level ==> g !in c.in0
    requires forall e :: e in f.entries ==> e in InputEntries(c)
    ensures l <= c.level ==> NewerFile(g, f)
    ensures l > c.level + 1 ==> NewerFile(f, g)
  {
    forall a, b | a in g.entries && b in f.entries && a.key.user == b.key.user
      ensures l <= c.level ==> a.key.sequence > b.key.sequence
      ensures l > c.level + 1 ==> b.key.sequence > a.key.sequence
    {
      KeptAges(v, c, l, g, a, b);
    }
  }

  lemma OutputLevelSeparate(v: Version, c: Inputs, outputs: seq<File>, w: Version)
    requires LevelInv(v) && GoodInputs(v, c) && Installed(v, c, outputs, w)
    requires FilesOk(outputs) && AllSeparate(outputs) && LevelEntries(outputs) <= InputEntries(c)
    ensures AllSeparate(w[c.level + 1])
  {
    var t := c.level + 1;
    forall f, g | f in w[t] && g in w[t] && f != g
      ensures Separate(f, g)
    {
      assert f in outputs ==> forall e :: e in f.entries ==> e in LevelEntries(outputs);
      assert g in outputs ==> forall e :: e in g.entries ==> e in LevelEntries(outputs);
      if f in outputs && g !in outputs {
        OutputIsApart(v, c, g, f);
      } else if g in outputs && f !in outputs {
        OutputIsApart(v, c, f, g);
      } else {
        assert AllSeparate(v[t]);
      }
    }
  }

  lemma OutputsAge(v: Version, c: Inputs, outputs: seq<File>, w: Version, l: nat)
    requires LevelInv(v) && GoodInputs(v, c) && Installed(v, c, outputs, w)
    requires LevelEntries(outputs) <= InputEntries(c) && l < NUM_LEVELS
    ensures l <= c.level ==> NewerLevel(w[l], outputs)
    ensures l > c.level + 1 ==> NewerLevel(outputs, w[l])
  {
    forall g, f | g in w[l] && f in outputs && l != c.level + 1
      ensures l <= c.level ==> NewerFile(g, f)
      ensures l > c.level + 1 ==> NewerFile(f, g)
    {
      assert forall e :: e in f.entries ==> e in LevelEntries(outputs);
      OutputAges(v, c, l, g, f);
    }
  }

  lemma InstallKeepsLevelInv(v: Version, c: Inputs, floor: nat, outputs: seq<File>, firstNumber: nat, w: Version)
    requires LevelInv(v) && GoodInputs(v, c) && OutputsOf(v, c, floor, outputs, firstNumber)
    requires forall l, f :: 0 <= l < NUM_LEVELS && f in v[l] ==> f.number < firstNumber
    requires Installed(v, c, outputs, w)
    ensures LevelInv(w)
  {
    var t := c.level + 1;
    OutputsAreFiles(v, c, floor, outputs, firstNumber);
    OutputLevelSeparate(v, c, outputs, w);
    forall f | f in outputs ensures f.number >= firstNumber {
      var i :| 0 <= i < |outputs| && outputs[i] == f;
    }
    forall l | 0 <= l < NUM_LEVELS {
      OutputsAge(v, c, outputs, w, l);
    }
    assert NumbersUnique(v[t], v[t]);
    LevelInvAfter(v, w, t, outputs);
  }

  // ---- What is stored afterwards ----

  /** Entries of the output level that the compaction does not read. */
  ghost function Leftover(v: Version, c: Inputs): set<Entry>
    requires c.level + 1 < |v|
  {
    set f, e | f in v[c.level + 1] && f !in c.in1 && e in f.entries :: e
  }

  /** Two files that are not the same file share no entry. */
  lemma NoSharedEntry(v: Version, l: nat, g: File, m: nat, f: File, e: Entry)
    requires LevelInv(v) && l < NUM_LEVELS && m < NUM_LEVELS && g in v[l] && f in v[m]
    requires l == m ==> g != f && (l > 0 || NewerFile(g, f))
    requires e in g.entries
    ensures e !in f.entries
  {
    assert FileOk(f) && FileOk(g);
    InRange(g, e);
    if l < m {
      assert NewerLevel(v[l], v[m]) && NewerFile(g, f);
    } else if m < l {
      assert NewerLevel(v[m], v[l]) && NewerFile(f, g);
    } else if l > 0 {
      assert Separate(f, g);
      if e in f.entries { InRange(f, e); }
    }
  }

  /** A kept file shares no entry with the input. */
  lemma KeptNotInput(v: Version, c: Inputs, l: nat, g: File, e: Entry)
    requires LevelInv(v) && GoodInputs(v, c) && l < NUM_LEVELS && g in v[l] && e in g.entries
    requires l == c.level ==> g !in c.in0
    requires l == c.level + 1 ==> g !in c.in1
    ensures e !in InputEntries(c)
  {
    forall f | f in c.in0
      ensures e !in f.entries
    {
      assert l == c.level ==> NewerFile(g, f);
      NoSharedEntry(v, l, g, c.level, f, e);
    }
    forall f | f in c.in1
      ensures e !in f.entries
    {
      NoSharedEntry(v, l, g, c.level + 1, f, e);
    }
  }

  lemma InputStored(v: Version, c: Inputs)
    requires GoodInputs(v, c)
    ensures InputEntries(c) <= Entries(v)
  {
    forall e | e in InputEntries(c)
      ensures e in Entries(v)
    {
      var f :| (f in c.in0 || f in c.in1) && e in f.entries;
      assert f in v[c.level] || f in v[c.level + 1];
    }
  }

  /** The premises of the criterion hold of every compaction the database picks. */
  lemma PickedIsCompacting(M: set<Entry>, v: Version, c: Inputs)
    requires LevelInv(v) && GoodInputs(v, c)
    requires Unique(M + Entries(v)) && Newer(M, Entries(v))
    ensures Compacting(M + Entries(v), Leftover(v, c), v, c.level, Input(c))
  {
    InputMerges(v, c);
    InputStored(v, c);
    var S, input := M + Entries(v), Members(Input(c));
    forall e | e in Leftover(v, c)
      ensures e in Entries(v) && e !in input
    {
      var g :| g in v[c.level + 1] && g !in c.in1 && e in g.entries;
      KeptNotInput(v, c, c.level + 1, g, e);
    }
    forall a, b | a in S && a !in input && b in input && a.key.user == b.key.user && a.key.sequence < b.key.sequence
      ensures a in Leftover(v, c) || !IsBase(v, c.level, a.key.user)
    {
      OlderOutside(M, v, c, a, b);
    }
  }

  lemma OlderOutside(M: set<Entry>, v: Version, c: Inputs, a: Entry, b: Entry)
    requires LevelInv(v) && GoodInputs(v, c) && Newer(M, Entries(v))
    requires a in M + Entries(v) && a !in InputEntries(c) && b in InputEntries(c) && b in Entries(v)
    requires a.key.user == b.key.user && a.key.sequence < b.key.sequence
    ensures a in Leftover(v, c) || !IsBase(v, c.level, a.key.user)
  {
    var l, g :| 0 <= l < |v| && g in v[l] && a in g.entries;
    assert FileOk(g);
    InRange(g, a);
    assert l == c.level ==> g !in c.in0;
    KeptAges(v, c, l, g, a, b);
  }

  lemma InstalledVersion(v: Version, c: Inputs, outputs: seq<File>, w: Version)
    requires LevelInv(v) && GoodInputs(v, c) && Installed(v, c, outputs, w)
    requires LevelEntries(outputs) <= InputEntries(c) <= Entries(v)
    ensures Entries(w) == Entries(v) - (InputEntries(c) - LevelEntries(outputs))
  {
    forall e | e in Entries(w)
      ensures e in Entries(v) && (e !in InputEntries(c) || e in LevelEntries(outputs))
    {
      var l, g :| 0 <= l < |w| && g in w[l] && e in g.entries;
      if g !in outputs {
        assert g in v[l];
        KeptNotInput(v, c, l, g, e);
      } else {
        assert e in LevelEntries(outputs);
      }
    }
    forall e | e in Entries(v) && (e !in InputEntries(c) || e in LevelEntries(outputs))
      ensures e in Entries(w)
    {
      if e in LevelEntries(outputs) {
        var f :| f in outputs && e in f.entries;
        assert f in w[c.level + 1];
      } else {
        var l, g :| 0 <= l < |v| && g in v[l] && e in g.entries;
        assert g in w[l];
      }
    }
  }

  /** Installing the outputs leaves exactly the entries the criterion speaks of. */
  lemma InstalledEntries(M: set<Entry>, v: Version, c: Inputs, floor: nat, outputs: seq<File>, firstNumber: nat, w: Version)
    requires LevelInv(v) && GoodInputs(v, c) && OutputsOf(v, c, floor, outputs, firstNumber)
    requires Newer(M, Entries(v))
    requires Installed(v, c, outputs, w)
    ensures M + Entries(w) == After(M + Entries(v), v, c.level, Input(c), floor)
  {
    InputMerges(v, c);
    InputStored(v, c);
    OutputsAreFiles(v, c, floor, outputs, firstNumber);
    InstalledVersion(v, c, outputs, w);
    RemoveOlder(M, Entries(v), InputEntries(c), LevelEntries(outputs));
  }

  lemma RemoveOlder(M: set<Entry>, E: set<Entry>, input: set<Entry>, kept: set<Entry>)
    requires Newer(M, E) && input <= E
    ensures M + (E - (input - kept)) == (M + E) - (input - kept)
  {}

  // ---- When no key can resurrect ----

  /** No file of the output level outside the inputs starts with the last user key of the
      inputs there: AddBoundaryInputs, had it been called on inputs_[1], would add nothing. */
  ghost predicate ParentsClosed(v: Version, c: Inputs)
    requires c.level + 1 < |v|
  {
    forall key, g :: IsLargest(c.in1, key) && g in v[c.level + 1] ==> !IsBoundary(g, key)
  }

  lemma ClosedParentsNeverResurrect(M: set<Entry>, v: Version, c: Inputs, floor: nat, k: UserKey)
    requires LevelInv(v) && GoodInputs(v, c)
    requires Unique(M + Entries(v)) && Newer(M, Entries(v))
    requires ParentsClosed(v, c)
    ensures !Resurrects(M + Entries(v), Leftover(v, c), v, c.level, Input(c), floor, k)
  {
    var S, P := M + Entries(v), Leftover(v, c);
    if Resurrects(S, P, v, c.level, Input(c), floor, k) {
      var d :| Newest(S, k, floor, d) && d in Input(c) && d.key.kind.Deletion? && View(P, k, d.key.sequence) != None;
      var a :| Newest(P, k, d.key.sequence, a);
      var g :| g in v[c.level + 1] && g !in c.in1 && a in g.entries;
      InputMerges(v, c);
      assert d in Members(Input(c));
      PickedIsCompacting(M, v, c);
      assert a in S && a != d;
      LeftoverIsNewer(v, c, g, a, d);
      assert false;
    }
  }

  lemma LeftoverIsNewer(v: Version, c: Inputs, g: File, a: Entry, d: Entry)
    requires LevelInv(v) && GoodInputs(v, c) && Unique(Entries(v)) && ParentsClosed(v, c)
    requires g in v[c.level + 1] && g !in c.in1 && a in g.entries
    requires d in InputEntries(c) && a.key.user == d.key.user
    ensures a.key.sequence > d.key.sequence
  {
    assert FileOk(g);
    InRange(g, a);
    var f :| (f in c.in0 || f in c.in1) && d in f.entries;
    assert FileOk(f);
    InRange(f, d);
    assert f in c.in0 ==> Within(f, Some(c.smallest.user), Some(c.largest.user));
    assert !Overlaps(g, Some(c.smallest.user), Some(c.largest.user));
    assert f in c.in1;
    ParentsClose(v, c);
    assert NewerFile(g, f);
  }

  lemma ParentsClose(v: Version, c: Inputs)
    requires LevelInv(v) && GoodInputs(v, c) && Unique(Entries(v)) && ParentsClosed(v, c)
    requires c.in1 != []
    ensures NoneOlderLeft(v[c.level + 1], c.in1)
  {
    var t := c.level + 1;
    var key := LargestExists(c.in1);
    LevelUnique(v, t);
    forall x, y, h | x in c.in1 && y in c.in1 && h in v[t] && Less(x.largest, h.smallest) && Less(h.largest, y.smallest)
      ensures h in c.in1
    {
      RangeOrdered(h);
    }
    ConvexClosed(v[t], c.in1, key);
  }

  lemma {:induction false} LargestExists(fs: seq<File>) returns (key: InternalKey)
    requires fs != []
    ensures IsLargest(fs, key)
  {
    if |fs| == 1 {
      key := fs[0].largest;
    } else {
      var rest := LargestExists(fs[1..]);
      assert fs == [fs[0]] + fs[1..];
      var f :| f in fs[1..] && f.largest == rest;
      assert f in fs && fs[0] in fs;
      key := if Less(rest, fs[0].largest) then fs[0].largest else rest;
    }
  }
}
