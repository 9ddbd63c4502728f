/** DBImpl: the mutable database object.  Every method takes one step of the state machine. */
module DBImplementation {
  import opened Keys
  import opened Versions
  import opened Picking
  import opened Edits
  import opened Compactions
  import opened Preservation
  import opened Installing
  import opened Database

  /** An edit of one level by file numbers is an edit by files. */
  lemma SteppedIsEdited(v: Version, edit: VersionEdit, l: nat, gone: seq<File>, arrived: seq<File>, ws: seq<File>)
    requires LevelInv(v) && l < NUM_LEVELS && Stepped(v[l], edit, l, ws)
    requires SubsetOf(gone, v[l]) && DeletedAt(edit.deleted, l) == Numbers(gone)
    requires AddedAt(edit.added, l) == arrived && FreshNumbers(v[l], arrived)
    ensures Edited(v[l], gone, arrived, ws)
  {
    forall f | f in v[l]
      ensures f.number in Numbers(gone) <==> f in gone
    {
      assert NumbersUnique(v[l], v[l]);
    }
    forall f | f in arrived
      ensures f.number !in DeletedAt(edit.deleted, l) - Numbers(arrived)
    {}
  }

  lemma UntouchedLevel(v: Version, edit: VersionEdit, l: nat, ws: seq<File>)
    requires LevelInv(v) && l < NUM_LEVELS && Stepped(v[l], edit, l, ws)
    requires DeletedAt(edit.deleted, l) == {} && AddedAt(edit.added, l) == []
    ensures ws == v[l]
  {
    ListedUnique(ws, v[l]);
  }

  function Deletions(level: nat, fs: seq<File>): set<(nat, nat)> {
    set f | f in fs :: (level, f.number)
  }

  function Additions(level: nat, fs: seq<File>): seq<(nat, File)> {
    if fs == [] then [] else [(level, fs[0])] + Additions(level, fs[1..])
  }

  lemma {:induction false} AdditionsAt(level: nat, fs: seq<File>, l: nat)
    ensures AddedAt(Additions(level, fs), l) == if l == level then fs else []
    ensures forall a :: a in Additions(level, fs) ==> a.0 == level
  {
    if fs != [] {
      AdditionsAt(level, fs[1..], l);
      var a := Additions(level, fs);
      assert a[1..] == Additions(level, fs[1..]);
      assert AddedAt(a, l) == (if level == l then [fs[0]] else []) + AddedAt(a[1..], l);
      assert [fs[0]] + fs[1..] == fs;
    }
  }

  lemma DeletionsAt(level: nat, fs: seq<File>, m: nat, gs: seq<File>, l: nat)
    requires level != m
    ensures DeletedAt(Deletions(level, fs) + Deletions(m, gs), l) == if l == level then Numbers(fs) else if l == m then Numbers(gs) else {}
  {
    var D := Deletions(level, fs) + Deletions(m, gs);
    assert forall n :: n in DeletedAt(D, l) <==> (l, n) in D;
    assert forall n :: (l, n) in D <==> (l == level && n in Numbers(fs)) || (l == m && n in Numbers(gs));
  }

  function ReplaceEdit(l: nat, gone0: seq<File>, gone1: seq<File>, t: nat, arrived: seq<File>): VersionEdit {
    VersionEdit(Deletions(l, gone0) + Deletions(l + 1, gone1), Additions(t, arrived))
  }

  /** Level `m` of `w` after files of levels `l` and `l + 1` have gone and files of `t` arrived. */
  ghost predicate Replaced(v: Version, l: nat, gone0: seq<File>, gone1: seq<File>, t: nat, arrived: seq<File>, m: nat, ws: seq<File>)
    requires m < |v|
  {
    var gone := if m == l then gone0 else if m == l + 1 then gone1 else [];
    var came := if m == t then arrived else [];
    Edited(v[m], gone, came, ws) && (gone == [] && came == [] ==> ws == v[m])
  }

  lemma ReplaceEditAt(v: Version, l: nat, gone0: seq<File>, gone1: seq<File>, t: nat, arrived: seq<File>, m: nat)
    requires |v| == NUM_LEVELS && m < NUM_LEVELS && t < NUM_LEVELS
    requires FreshNumbers(v[t], arrived) && DistinctNumbers(arrived)
    ensures var edit := ReplaceEdit(l, gone0, gone1, t, arrived);
            FreshNumbers(v[m], AddedAt(edit.added, m)) && DistinctNumbers(AddedAt(edit.added, m))
    ensures forall a :: a in ReplaceEdit(l, gone0, gone1, t, arrived).added ==> a.0 == t
  {
    AdditionsAt(t, arrived, m);
  }

  lemma ReplaceLevel(v: Version, l: nat, gone0: seq<File>, gone1: seq<File>, t: nat, arrived: seq<File>, m: nat, ws: seq<File>)
    requires LevelInv(v) && l + 1 < NUM_LEVELS && m < NUM_LEVELS && t < NUM_LEVELS
    requires SubsetOf(gone0, v[l]) && SubsetOf(gone1, v[l + 1])
    requires FreshNumbers(v[t], arrived)
    requires Stepped(v[m], ReplaceEdit(l, gone0, gone1, t, arrived), m, ws)
    ensures Replaced(v, l, gone0, gone1, t, arrived, m, ws)
  {
    var edit := ReplaceEdit(l, gone0, gone1, t, arrived);
    var gone := if m == l then gone0 else if m == l + 1 then gone1 else [];
    var came := if m == t then arrived else [];
    AdditionsAt(t, arrived, m);
    DeletionsAt(l, gone0, l + 1, gone1, m);
    SteppedIsEdited(v, edit, m, gone, came, ws);
    if gone == [] && came == [] {
      UntouchedLevel(v, edit, m, ws);
    }
  }

  /** Replaces files of level `l` and `l + 1`, and adds files to level `t`, in one edit. */
  method Replace(v: Version, l: nat, gone0: seq<File>, gone1: seq<File>, t: nat, arrived: seq<File>) returns (w: Version)
    requires LevelInv(v) && l + 1 < NUM_LEVELS && t < NUM_LEVELS
    requires SubsetOf(gone0, v[l]) && SubsetOf(gone1, v[l + 1])
    requires FreshNumbers(v[t], arrived) && DistinctNumbers(arrived)
    ensures |w| == NUM_LEVELS
    ensures forall m :: 0 <= m < NUM_LEVELS ==> Replaced(v, l, gone0, gone1, t, arrived, m, w[m])
  {
    var edit := ReplaceEdit(l, gone0, gone1, t, arrived);
    forall m | 0 <= m < NUM_LEVELS {
      ReplaceEditAt(v, l, gone0, gone1, t, arrived, m);
    }
    ReplaceEditAt(v, l, gone0, gone1, t, arrived, 0);
    w := NewVersion(v, edit);
    forall m | 0 <= m < NUM_LEVELS
      ensures Replaced(v, l, gone0, gone1, t, arrived, m, w[m])
    {
      ReplaceLevel(v, l, gone0, gone1, t, arrived, m, w[m]);
    }
  }

  lemma FlushesIsStep(st: State, st2: State, f: File, t: nat, w: Version)
    requires st.imm.Some? && st.imm.value != [] && st.job.None?
    requires Flushes(st, st2, f, t, w)
    ensures FlushStep(st, st2)
  {}

  /** The new file is in the level that the picking rules say, and is the only change. */
  ghost predicate LandsRight(v: Version, w: Version, entries: seq<Entry>, number: nat, maxFileSize: nat) {
    exists f: File, t: nat :: Lands(v, w, entries, number, maxFileSize, f, t)
  }

  ghost predicate Lands(v: Version, w: Version, entries: seq<Entry>, number: nat, maxFileSize: nat, f: File, t: nat) {
    && f.entries == entries != [] && f.number == number && t <= 2 && |v| == |w| == NUM_LEVELS
    && Edited(v[t], [], [f], w[t]) && SameElsewhere(v, w, t, t)
    && var lo, hi := entries[0].key.user, entries[|entries| - 1].key.user;
    && (forall l :: 0 <= l < t ==> MayDescend(v, l, lo, hi, maxFileSize))
    && (t == 0 || Untouched(v, 0, lo, hi))
    && (Untouched(v, 0, lo, hi) && t < 2 ==> !MayDescend(v, t, lo, hi, maxFileSize))
  }

  /** What asks for background work: a level and a file picked by size or seeks, or a range. */
  datatype Request = Automatic(level: nat, index: nat) | Manual(level: nat, begin: Option<UserKey>, end: Option<UserKey>)

  /** The compaction is on the request's level, and starts from its file or its range. */
  ghost predicate Requested(v: Version, request: Request, maxFileSize: nat, c: Inputs) {
    match request
    case Automatic(level, index) => FromFile(v, level, index, maxFileSize, c)
    case Manual(level, begin, end) => FromRange(v, level, begin, end, maxFileSize, c)
  }

  /** Exactly that file has gone one level down. */
  ghost predicate Moved(v: Version, w: Version, level: nat, index: nat) {
    && level + 1 < |v| == |w| && index < |v[level]| && SameElsewhere(v, w, level, level + 1)
    && Edited(v[level], [v[level][index]], [], w[level]) && Edited(v[level + 1], [], [v[level][index]], w[level + 1])
  }

  class DBImpl {
    const maxFileSize: nat
    var mem: seq<Entry>
    var imm: Option<seq<Entry>>
    var version: Version
    var snapshots: seq<nat>
    var lastSequence: nat
    var nextFileNumber: nat
    var job: Option<Job>
    ghost var history: seq<Op>

    ghost function Abs(): State
      reads this
    {
      State(mem, imm, version, snapshots, history, nextFileNumber, job)
    }

    ghost predicate Valid()
      reads this
    {
      Inv(Abs()) && lastSequence == |history|
    }

    constructor (size: nat)
      ensures Valid() && Init(Abs())
    {
      maxFileSize := size;
      mem, imm, version, snapshots, lastSequence, nextFileNumber, job := [], None, seq(NUM_LEVELS, _ => []), [], 0, 1, None;
      history := [];
      new;
      assert version == seq(NUM_LEVELS, _ => []);
      InitInv(Abs());
    }

    /** DBImpl::Get at a snapshot, or at the latest sequence number. */
    method Get(k: UserKey, snapshot: Option<nat>) returns (r: Option<Value>)
      requires Valid()
      requires snapshot.Some? ==> snapshot.value in snapshots
      ensures r == HistoryGet(history, k, if snapshot.Some? then snapshot.value else |history|)
    {
      var s := if snapshot.Some? then snapshot.value else lastSequence;
      var answer := Probe(mem, k, s);
      if answer.NotFound? {
        if imm.Some? {
          answer := Probe(imm.value, k, s);
        }
        if answer.NotFound? {
          answer := Versions.Get(version, k, s);
          assert GetAnswer(Abs(), k, s, Outcome(answer));
        }
      }
      r := Outcome(answer);
      ghost var rv := AnswerExists(Entries(version), k, s);
      assert GetAnswer(Abs(), k, s, r);
      if snapshot.Some? {
        ghost var i :| 0 <= i < |snapshots| && snapshots[i] == s;
      }
      GetAnswersHistory(Abs(), k, s, r);
    }

    /** WriteBatchInternal::InsertInto. */
    method InsertInto(ops: seq<Op>, first: nat)
      requires first > 0
      modifies `mem
      ensures mem == InsertAll(old(mem), ops, first - 1)
    {
      var sequence := first;
      for i := 0 to |ops|
        invariant sequence == first + i
        invariant InsertAll(mem, ops[i..], first + i - 1) == InsertAll(old(mem), ops, first - 1)
      {
        assert ops[i..][1..] == ops[i + 1..];
        mem := InsertEntry(mem, Entry(InternalKey(ops[i].key, sequence, ops[i].kind), ops[i].value));
        sequence := sequence + 1;
      }
      assert ops[|ops|..] == [];
    }

    /** The part of DBImpl::Write that applies a batch: every operation goes into the memtable
        with the next sequence number, and then the last sequence number is published. */
    method Write(ops: seq<Op>)
      requires Valid() && |history| + |ops| < MAX_SEQUENCE
      modifies this
      ensures Valid() && WriteStep(old(Abs()), Abs(), ops)
    {
      ghost var before := Abs();
      InsertInto(ops, lastSequence + 1);
      lastSequence := lastSequence + |ops|;
      history := history + ops;
      WritePreserves(before, Abs(), ops);
    }

    /** The branch of MakeRoomForWrite that starts a new memtable. */
    method SwitchMemTable()
      requires Valid() && imm.None?
      modifies this
      ensures Valid() && SwitchStep(old(Abs()), Abs())
    {
      ghost var before := Abs();
      imm := Some(mem);
      mem := [];
      SwitchPreserves(before, Abs());
    }

    method GetSnapshot() returns (s: nat)
      requires Valid()
      modifies this
      ensures Valid() && SnapshotStep(old(Abs()), Abs())
      ensures s == |history| && s in snapshots
    {
      ghost var before := Abs();
      s := lastSequence;
      snapshots := snapshots + [s];
      SnapshotPreserves(before, Abs());
    }

    method ReleaseSnapshot(i: nat)
      requires Valid() && i < |snapshots|
      modifies this
      ensures Valid() && ReleaseStep(old(Abs()), Abs())
    {
      ghost var before := Abs();
      snapshots := snapshots[..i] + snapshots[i + 1..];
      assert ReleaseStep(before, Abs());
      ReleasePreserves(before, Abs());
    }

    /** DBImpl::CompactMemTable with WriteLevel0Table. */
    method CompactMemTable()
      requires Valid() && imm.Some? && job.None?
      modifies this
      ensures Valid() && FlushStep(old(Abs()), Abs())
      ensures old(imm).value != [] ==> LandsRight(old(version), version, old(imm).value, old(nextFileNumber), maxFileSize)
    {
      ghost var before := Abs();
      var entries := imm.value;
      if entries != [] {
        var size: nat := *;
        var f := File(nextFileNumber, size, entries[0].key, entries[|entries| - 1].key, entries);
        var level := PickLevelForMemTableOutput(version, f.smallest.user, f.largest.user, maxFileSize);
        assert FreshNumbers(version[level], [f]);
        var w := Replace(version, 0, [], [], level, [f]);
        imm, version, nextFileNumber := None, w, nextFileNumber + 1;
        assert Replaced(before.version, 0, [], [], level, [f], level, w[level]);
        FlushesIsStep(before, Abs(), f, level, w);
        assert Lands(before.version, version, entries, f.number, maxFileSize, f, level);
      } else {
        imm := None;
        assert FlushStep(before, Abs());
      }
      FlushPreserves(before, Abs());
    }

    /** DBImpl::BackgroundCompaction up to the point where the mutex is taken again after the
        compaction work: flush, do nothing, move one file, or leave a job to be installed.  The
        compaction, if there is one, is that of the request. */
    method BackgroundCompaction(request: Request) returns (ghost c: Option<Inputs>)
      requires Valid() && job.None? && request.level + 1 < NUM_LEVELS
      requires request.Automatic? ==> request.index < |version[request.level]|
      modifies this
      ensures Valid()
      ensures old(imm).Some? ==> FlushStep(old(Abs()), Abs())
      ensures old(imm).None? ==> Abs() == old(Abs()) || MoveStep(old(Abs()), Abs()) || BeginStep(old(Abs()), Abs())
      ensures old(imm).None? && Abs() == old(Abs()) ==> request.Manual? && forall f :: f in version[request.level] ==> !Overlaps(f, request.begin, request.end)
      ensures old(imm).None? ==> (c.None? <==> Abs() == old(Abs()))
      ensures old(imm).None? && c.Some? ==> Requested(old(version), request, maxFileSize, c.value)
      ensures old(imm).None? && c.Some? ==> if job.Some? then job.value.inputs == c.value else request.Automatic? && Moved(old(version), version, request.level, request.index)
      ensures old(imm).None? && c.Some? ==> (job.None? <==> request.Automatic? && |c.value.in0| == 1 && c.value.in1 == [] && TotalFileSize(c.value.grandparents) <= 10 * maxFileSize)
    {
      c := None;
      if imm.Some? {
        CompactMemTable();
        return;
      }
      GenuineIsUnique(history, Stored(Abs()));
      UniqueSubset(Stored(Abs()), Entries(version));
      var picked := Pick(request);
      c := picked;
      if picked.None? {
        return;
      }
      if request.Automatic? && IsTrivialMove(picked.value, maxFileSize) {
        MoveFile(picked.value);
      } else {
        StartCompaction(picked.value);
      }
    }

    /** The compaction for a request. */
    method Pick(request: Request) returns (c: Option<Inputs>)
      requires LevelInv(version) && Unique(Entries(version)) && request.level + 1 < NUM_LEVELS
      requires request.Automatic? ==> request.index < |version[request.level]|
      ensures c.None? ==> request.Manual? && forall f :: f in version[request.level] ==> !Overlaps(f, request.begin, request.end)
      ensures c.Some? ==> GoodInputs(version, c.value) && Requested(version, request, maxFileSize, c.value)
    {
      match request {
        case Automatic(level, index) =>
          var r := PickCompaction(version, level, index, maxFileSize);
          c := Some(r);
        case Manual(level, begin, end) =>
          c := CompactRange(version, level, begin, end, maxFileSize);
      }
    }

    /** The trivial move. */
    method MoveFile(c: Inputs)
      requires Valid() && job.None? && GoodInputs(version, c) && |c.in0| == 1 && |c.in1| == 0
      modifies this
      ensures Valid() && MoveStep(old(Abs()), Abs()) && version != old(version) && job.None?
      ensures forall index :: 0 <= index < |old(version)[c.level]| && old(version)[c.level][index] in c.in0 ==> Moved(old(version), version, c.level, index)
    {
      ghost var before := Abs();
      var f := c.in0[0];
      assert f in c.in0 && NumbersDistinct(version[c.level], version[c.level + 1]);
      var w := Replace(version, c.level, [f], [], c.level + 1, [f]);
      assert Replaced(version, c.level, [f], [], c.level + 1, [f], c.level, w[c.level]);
      assert Replaced(version, c.level, [f], [], c.level + 1, [f], c.level + 1, w[c.level + 1]);
      assert f !in w[c.level];
      version := w;
      assert c.in0 == [f] && c.in1 == [];
      assert MoveStep(before, Abs());
      MovePreserves(before, Abs());
    }

    /** DBImpl::DoCompactionWork before InstallCompactionResults: the smallest snapshot is read
        first, and the outputs depend only on it and on the input version. */
    method StartCompaction(c: Inputs)
      requires Valid() && job.None? && GoodInputs(version, c)
      modifies this
      ensures Valid() && BeginStep(old(Abs()), Abs()) && job.Some? && job.value.inputs == c
    {
      ghost var before := Abs();
      var smallestSnapshot := if snapshots == [] then lastSequence else snapshots[0];
      InputMerges(version, c);
      var compaction := new Compaction(version, c.level);
      var outputs := compaction.DoCompactionWork(Input(c), smallestSnapshot, nextFileNumber);
      job := Some(Job(c, smallestSnapshot, outputs));
      nextFileNumber := nextFileNumber + |outputs|;
      assert BeginStep(before, Abs());
      BeginPreserves(before, Abs());
    }

    /** DBImpl::InstallCompactionResults. */
    method InstallCompactionResults()
      requires Valid() && job.Some?
      modifies this
      ensures InstallStep(old(Abs()), Abs())
      ensures Valid() <==> old(SafeToInstall(Abs()))
      ensures LevelInv(version)
    {
      ghost var before := Abs();
      var c, outputs := job.value.inputs, job.value.outputs;
      ghost var first: nat :| first <= nextFileNumber && NumbersBelow(version, first) && AllBuilt(outputs, first);
      forall f, g | f in version[c.level + 1] && g in outputs
        ensures f.number != g.number
      {
        var i :| 0 <= i < |outputs| && outputs[i] == g;
      }
      var w := Replace(version, c.level, c.in0, c.in1, c.level + 1, outputs);
      assert Replaced(version, c.level, c.in0, c.in1, c.level + 1, outputs, c.level, w[c.level]);
      assert Replaced(version, c.level, c.in0, c.in1, c.level + 1, outputs, c.level + 1, w[c.level + 1]);
      version := w;
      job := None;
      assert Installed(before.version, c, outputs, w);
      assert InstallStep(before, Abs());
      InstallStores(before, Abs());
      InstallIsFaithfulIff(before, Abs());
    }
  }
}
