/** The database as a state machine, its specification as a history of operations, and the
    theorem that every run answers reads from the history. */
module Database {
  import opened Keys
  import opened Runs
  import opened Versions
  import opened Picking
  import opened Compactions
  import opened Preservation
  import opened Installing

  /** One put or delete; the operation at index i has sequence number i + 1. */
  datatype Op = Op(key: UserKey, kind: Kind, value: Value)

  /** The specification: the newest operation on `k` at or below `s` decides. */
  function HistoryGet(h: seq<Op>, k: UserKey, s: nat): Option<Value> {
    if h == [] then None
    else
      var last := h[|h| - 1];
      if |h| <= s && last.key == k then (if last.kind.Put? then Some(last.value) else None)
      else HistoryGet(h[..|h| - 1], k, s)
  }

  /** A compaction whose outputs are written but not yet installed. */
  datatype Job = Job(inputs: Inputs, floor: nat, outputs: seq<File>)

  datatype State = State(
    mem: seq<Entry>, imm: Option<seq<Entry>>, version: Version,
    snapshots: seq<nat>, history: seq<Op>, nextFile: nat, job: Option<Job>)

  function HistoryEntry(h: seq<Op>, i: nat): Entry
    requires i < |h|
  {
    Entry(InternalKey(h[i].key, i + 1, h[i].kind), h[i].value)
  }

  function ImmEntries(imm: Option<seq<Entry>>): seq<Entry> {
    if imm.Some? then imm.value else []
  }

  /** Entries of the two memtables. */
  ghost function Memory(st: State): set<Entry> {
    Members(st.mem) + Members(ImmEntries(st.imm))
  }

  ghost function Stored(st: State): set<Entry> {
    Memory(st) + Entries(st.version)
  }

  /** The smallest sequence number a reader can still ask for. */
  function Oldest(st: State): nat {
    if st.snapshots == [] then |st.history| else st.snapshots[0]
  }

  ghost predicate Genuine(h: seq<Op>, S: set<Entry>) {
    forall e :: e in S ==> 1 <= e.key.sequence <= |h| && e == HistoryEntry(h, e.key.sequence - 1)
  }

  /** Every reader from `floor` on gets what the history says. */
  ghost predicate Faithful(h: seq<Op>, S: set<Entry>, floor: nat) {
    forall k, s :: floor <= s ==> View(S, k, s) == HistoryGet(h, k, s)
  }

  ghost predicate NumbersBelow(v: Version, n: nat) {
    forall l, f :: 0 <= l < |v| && f in v[l] ==> f.number < n
  }

  ghost predicate SnapshotsOk(snapshots: seq<nat>, last: nat) {
    && (forall i, j :: 0 <= i < j < |snapshots| ==> snapshots[i] <= snapshots[j])
    && forall i :: 0 <= i < |snapshots| ==> snapshots[i] <= last
  }

  ghost predicate JobOk(st: State, job: Job) {
    && GoodInputs(st.version, job.inputs)
    && job.floor <= Oldest(st)
    && exists first: nat :: first <= st.nextFile && NumbersBelow(st.version, first)
                    && first + |job.outputs| <= st.nextFile
                    && OutputsOf(st.version, job.inputs, job.floor, job.outputs, first)
  }

  /** The invariant but for what readers see. */
  ghost predicate Sound(st: State) {
    && LevelInv(st.version) && NumbersBelow(st.version, st.nextFile)
    && Sorted(st.mem) && Sorted(ImmEntries(st.imm))
    && |st.history| < MAX_SEQUENCE
    && Genuine(st.history, Stored(st))
    && Newer(Members(st.mem), Members(ImmEntries(st.imm)))
    && Newer(Memory(st), Entries(st.version))
    && SnapshotsOk(st.snapshots, |st.history|)
    && (st.job.Some? ==> JobOk(st, st.job.value))
  }

  ghost predicate Inv(st: State) {
    Sound(st) && Faithful(st.history, Stored(st), Oldest(st))
  }

  lemma GenuineIsUnique(h: seq<Op>, S: set<Entry>)
    requires Genuine(h, S)
    ensures Unique(S)
  {}

  // ---- Steps ----

  ghost predicate Init(st: State) {
    st == State([], None, seq(NUM_LEVELS, _ => []), [], [], 1, None)
  }

  /** MemTable::Add into the ordered table. */
  function InsertEntry(es: seq<Entry>, e: Entry): seq<Entry> {
    var i := Seek(es, e.key);
    es[..i] + [e] + es[i..]
  }

  /** WriteBatchInternal::InsertInto: operations take consecutive sequence numbers. */
  function InsertAll(es: seq<Entry>, ops: seq<Op>, last: nat): seq<Entry>
    decreases |ops|
  {
    if ops == [] then es
    else InsertAll(InsertEntry(es, Entry(InternalKey(ops[0].key, last + 1, ops[0].kind), ops[0].value)), ops[1..], last + 1)
  }

  ghost predicate WriteStep(st: State, st2: State, ops: seq<Op>) {
    && |st.history| + |ops| < MAX_SEQUENCE
    && st2 == st.(mem := InsertAll(st.mem, ops, |st.history|), history := st.history + ops)
  }

  /** MakeRoomForWrite: the full memtable becomes immutable. */
  ghost predicate SwitchStep(st: State, st2: State) {
    st.imm.None? && st2 == st.(mem := [], imm := Some(st.mem))
  }

  /** A file `f` with the contents of the immutable memtable arrives in level `t`. */
  ghost predicate Flushes(st: State, st2: State, f: File, t: nat, w: Version) {
    && f.number == st.nextFile && Built(f) && f.entries == ImmEntries(st.imm)
    && t <= MAX_MEM_COMPACT_LEVEL && |st.version| == NUM_LEVELS
    && (t > 0 ==> forall l :: 0 <= l <= t ==> Untouched(st.version, l, f.smallest.user, f.largest.user))
    && SameElsewhere(st.version, w, t, t) && Edited(st.version[t], [], [f], w[t])
    && st2 == st.(imm := None, version := w, nextFile := st.nextFile + 1)
  }

  /** CompactMemTable: an empty memtable leaves no file. */
  ghost predicate FlushStep(st: State, st2: State) {
    && st.imm.Some? && st.job.None?
    && if st.imm.value == [] then st2 == st.(imm := None) else exists f: File, t: nat, w: Version :: Flushes(st, st2, f, t, w)
  }

  ghost predicate MoveStep(st: State, st2: State) {
    && st.job.None?
    && exists c: Inputs, f: File, w: Version ::
         && GoodInputs(st.version, c) && c.in0 == [f] && c.in1 == []
         && SameElsewhere(st.version, w, c.level, c.level + 1)
         && Edited(st.version[c.level], [f], [], w[c.level])
         && Edited(st.version[c.level + 1], [], [f], w[c.level + 1])
         && st2 == st.(version := w)
  }

  /** DoCompactionWork up to the point where it takes the mutex again. */
  ghost predicate BeginStep(st: State, st2: State) {
    && st.job.None?
    && exists c: Inputs, outputs: seq<File> ::
         && GoodInputs(st.version, c)
         && OutputsOf(st.version, c, Oldest(st), outputs, st.nextFile)
         && st2 == st.(job := Some(Job(c, Oldest(st), outputs)), nextFile := st.nextFile + |outputs|)
  }

  /** InstallCompactionResults. */
  ghost predicate InstallStep(st: State, st2: State) {
    && st.job.Some?
    && exists w: Version ::
         && Installed(st.version, st.job.value.inputs, st.job.value.outputs, w)
         && st2 == st.(version := w, job := None)
  }

  ghost predicate SnapshotStep(st: State, st2: State) {
    st2 == st.(snapshots := st.snapshots + [|st.history|])
  }

  ghost predicate ReleaseStep(st: State, st2: State) {
    exists i :: 0 <= i < |st.snapshots| && st2 == st.(snapshots := st.snapshots[..i] + st.snapshots[i + 1..])
  }

  ghost predicate Step(st: State, st2: State) {
    || (exists ops :: WriteStep(st, st2, ops))
    || SwitchStep(st, st2) || FlushStep(st, st2) || MoveStep(st, st2)
    || BeginStep(st, st2) || InstallStep(st, st2)
    || SnapshotStep(st, st2) || ReleaseStep(st, st2)
  }

  /** No key comes back, for a reader that there may still be, when the pending compaction is
      installed: what the smallest snapshot was when it began no longer matters. */
  ghost predicate SafeToInstall(st: State) {
    st.job.Some? && |st.version| == NUM_LEVELS && st.job.value.inputs.level + 1 < NUM_LEVELS ==>
      var c := st.job.value.inputs;
      forall k :: !ReturnsFrom(Stored(st), Leftover(st.version, c), st.version, c.level, Input(c), st.job.value.floor, Oldest(st), k)
  }

  // ---- Each step keeps the invariant ----

  lemma InsertKeepsSorted(es: seq<Entry>, e: Entry)
    requires Sorted(es) && forall x :: x in es ==> x.key != e.key
    ensures Sorted(InsertEntry(es, e))
  {
    var i := Seek(es, e.key);
    var before, after := es[..i], es[i..];
    forall j | i <= j < |es|
      ensures Less(e.key, es[j].key)
    {
      assert es[i] in es;
      LessTotal(es[i].key, e.key);
      assert i < j ==> Less(es[i].key, es[j].key);
    }
    SortedCons(e, after);
    SortedAppend(before, [e] + after);
    assert before + [e] + after == before + ([e] + after);
  }

  lemma InsertMembers(es: seq<Entry>, e: Entry)
    ensures Members(InsertEntry(es, e)) == Members(es) + {e}
  {
    var i := Seek(es, e.key);
    assert es == es[..i] + es[i..];
    assert forall x :: x in es[..i] + [e] + es[i..] <==> x in es[..i] || x == e || x in es[i..];
  }

  lemma OldestMonotone(st: State, st2: State)
    requires st2.snapshots == st.snapshots && |st.history| <= |st2.history|
    ensures Oldest(st) <= Oldest(st2)
  {}

  /** One operation: the new entry is what readers of its key see from then on. */
  lemma WriteOneFaithful(h: seq<Op>, S: set<Entry>, floor: nat, op: Op)
    requires Genuine(h, S) && Faithful(h, S, floor)
    ensures var h2, S2 := h + [op], S + {HistoryEntry(h + [op], |h|)};
            Genuine(h2, S2) && Faithful(h2, S2, floor)
  {
    var h2 := h + [op];
    var e := HistoryEntry(h2, |h|);
    var S2 := S + {e};
    assert h2[..|h2| - 1] == h;
    forall x | x in S2
      ensures 1 <= x.key.sequence <= |h2| && x == HistoryEntry(h2, x.key.sequence - 1)
    {}
    GenuineIsUnique(h2, S2);
    GenuineIsUnique(h, S);
    forall k, s | floor <= s
      ensures View(S2, k, s) == HistoryGet(h2, k, s)
    {
      assert View(S, k, s) == HistoryGet(h, k, s);
      if |h2| <= s && op.key == k {
        assert Newest(S2, k, s, e);
        ViewOfNewest(S2, k, s, e);
      } else {
        SameVisible(S2, S, k, s, s);
      }
    }
  }

  ghost predicate MemInv(h: seq<Op>, mem: seq<Entry>, rest: set<Entry>, floor: nat) {
    && Sorted(mem) && Newer(Members(mem), rest)
    && Genuine(h, Members(mem) + rest) && Faithful(h, Members(mem) + rest, floor)
  }

  lemma InsertKeepsMemInv(h: seq<Op>, mem: seq<Entry>, rest: set<Entry>, floor: nat, op: Op)
    requires MemInv(h, mem, rest, floor)
    ensures MemInv(h + [op], InsertEntry(mem, HistoryEntry(h + [op], |h|)), rest, floor)
  {
    var e := HistoryEntry(h + [op], |h|);
    assert forall x :: x in mem ==> x in Members(mem);
    InsertKeepsSorted(mem, e);
    InsertMembers(mem, e);
    WriteOneFaithful(h, Members(mem) + rest, floor, op);
    assert Members(InsertEntry(mem, e)) + rest == Members(mem) + rest + {e};
    forall b | b in rest
      ensures b.key.sequence < e.key.sequence
    {
      assert b in Members(mem) + rest;
    }
  }

  lemma InsertAllStep(h: seq<Op>, mem: seq<Entry>, ops: seq<Op>)
    requires ops != []
    ensures h + [ops[0]] + ops[1..] == h + ops
    ensures InsertAll(mem, ops, |h|) == InsertAll(InsertEntry(mem, HistoryEntry(h + [ops[0]], |h|)), ops[1..], |h| + 1)
  {
    assert HistoryEntry(h + [ops[0]], |h|) == Entry(InternalKey(ops[0].key, |h| + 1, ops[0].kind), ops[0].value);
  }

  lemma {:induction false} WriteKeepsMemInv(h: seq<Op>, mem: seq<Entry>, rest: set<Entry>, floor: nat, ops: seq<Op>)
    requires MemInv(h, mem, rest, floor)
    ensures MemInv(h + ops, InsertAll(mem, ops, |h|), rest, floor)
    decreases |ops|
  {
    if ops == [] {
      assert h + ops == h;
    } else {
      var h2 := h + [ops[0]];
      var mem2 := InsertEntry(mem, HistoryEntry(h2, |h|));
      InsertKeepsMemInv(h, mem, rest, floor, ops[0]);
      WriteKeepsMemInv(h2, mem2, rest, floor, ops[1..]);
      InsertAllStep(h, mem, ops);
    }
  }

  lemma WritePreserves(st: State, st2: State, ops: seq<Op>)
    requires Inv(st) && WriteStep(st, st2, ops)
    ensures Inv(st2)
  {
    var rest := Members(ImmEntries(st.imm)) + Entries(st.version);
    assert Stored(st) == Members(st.mem) + rest;
    WriteKeepsMemInv(st.history, st.mem, rest, Oldest(st), ops);
    assert Stored(st2) == Members(st2.mem) + rest;
    OldestMonotone(st, st2);
  }

  lemma SwitchPreserves(st: State, st2: State)
    requires Inv(st) && SwitchStep(st, st2)
    ensures Inv(st2)
  {
    assert Memory(st2) == Memory(st);
  }

  lemma FlushIsFlushable(st: State, st2: State, f: File, t: nat, w: Version)
    requires Inv(st) && Flushes(st, st2, f, t, w)
    ensures Flushable(st.version, f, t)
  {
    forall e | e in f.entries
      ensures e in Memory(st) && e.key.sequence < MAX_SEQUENCE
    {
      assert e in Members(ImmEntries(st.imm));
      assert e in Stored(st);
    }
    forall l, g | 0 <= l < NUM_LEVELS && g in st.version[l]
      ensures NewerFile(f, g)
    {
      assert forall b :: b in g.entries ==> b in Entries(st.version);
    }
  }

  lemma FlushPreserves(st: State, st2: State)
    requires Inv(st) && FlushStep(st, st2)
    ensures Inv(st2)
  {
    if st.imm.value == [] {
      assert Stored(st2) == Stored(st);
    } else {
      var f: File, t: nat, w: Version :| Flushes(st, st2, f, t, w);
      FlushIsFlushable(st, st2, f, t, w);
      FlushKeepsLevelInv(st.version, w, f, t);
      FlushedEntries(st.version, w, f, t);
      assert Stored(st2) == Stored(st);
      FlushKeepsRest(st, st2, f, t, w);
    }
  }

  lemma FlushKeepsRest(st: State, st2: State, f: File, t: nat, w: Version)
    requires Inv(st) && Flushes(st, st2, f, t, w)
    requires Entries(w) == Entries(st.version) + Members(f.entries)
    ensures NumbersBelow(w, st2.nextFile) && Newer(Memory(st2), Entries(w))
  {
    forall a, b | a in Memory(st2) && b in Entries(w) && a.key.user == b.key.user
      ensures a.key.sequence > b.key.sequence
    {
      assert a in Members(st.mem) && a in Memory(st);
    }
  }

  lemma FlushedEntries(v: Version, w: Version, f: File, t: nat)
    requires t < |v| && SameElsewhere(v, w, t, t) && Edited(v[t], [], [f], w[t])
    ensures Entries(w) == Entries(v) + Members(f.entries)
  {
    forall l, g | 0 <= l < |v| && g in v[l] ensures g in w[l] {}
    forall l, g | 0 <= l < |w| && g in w[l] ensures g in v[l] || g == f {}
    assert f in w[t];
  }

  lemma MovePreserves(st: State, st2: State)
    requires Inv(st) && MoveStep(st, st2)
    ensures Inv(st2)
  {
    var c: Inputs, f: File, w: Version :|
      && GoodInputs(st.version, c) && c.in0 == [f] && c.in1 == []
      && SameElsewhere(st.version, w, c.level, c.level + 1)
      && Edited(st.version[c.level], [f], [], w[c.level])
      && Edited(st.version[c.level + 1], [], [f], w[c.level + 1])
      && st2 == st.(version := w);
    MoveStores(st, w, c, f);
    assert Stored(st2) == Stored(st);
  }

  lemma MoveStores(st: State, w: Version, c: Inputs, f: File)
    requires Inv(st) && GoodInputs(st.version, c) && c.in0 == [f] && c.in1 == []
    requires SameElsewhere(st.version, w, c.level, c.level + 1)
    requires Edited(st.version[c.level], [f], [], w[c.level]) && Edited(st.version[c.level + 1], [], [f], w[c.level + 1])
    ensures LevelInv(w) && Entries(w) == Entries(st.version)
  {
    MoveKeepsLevelInv(st.version, w, c, f);
  }

  lemma BeginPreserves(st: State, st2: State)
    requires Inv(st) && BeginStep(st, st2)
    ensures Inv(st2)
  {
    assert Stored(st2) == Stored(st);
  }

  /** The pending compaction meets the premises of the criterion. */
  lemma JobIsCompacting(st: State)
    requires Inv(st) && st.job.Some?
    ensures var c := st.job.value.inputs;
            Compacting(Stored(st), Leftover(st.version, c), st.version, c.level, Input(c))
  {
    GenuineIsUnique(st.history, Stored(st));
    PickedIsCompacting(Memory(st), st.version, st.job.value.inputs);
  }

  lemma InstalledNumbers(v: Version, c: Inputs, outputs: seq<File>, first: nat, w: Version, n: nat)
    requires Installed(v, c, outputs, w) && NumbersBelow(v, n)
    requires AllBuilt(outputs, first) && first + |outputs| <= n
    ensures NumbersBelow(w, n)
  {
    forall l, f: File | 0 <= l < |w| && f in w[l]
      ensures f.number < n
    {
      if f in outputs {
        var i :| 0 <= i < |outputs| && outputs[i] == f;
      }
    }
  }

  lemma InstallStores(st: State, st2: State)
    requires Inv(st) && InstallStep(st, st2)
    ensures LevelInv(st2.version) && NumbersBelow(st2.version, st2.nextFile)
    ensures Entries(st2.version) <= Entries(st.version)
    ensures var job := st.job.value;
            Stored(st2) == After(Stored(st), st.version, job.inputs.level, Input(job.inputs), job.floor)
  {
    var v, job := st.version, st.job.value;
    var c, outputs := job.inputs, job.outputs;
    var w: Version :| Installed(v, c, outputs, w) && st2 == st.(version := w, job := None);
    var first: nat :| first <= st.nextFile && NumbersBelow(v, first)
                    && first + |outputs| <= st.nextFile && OutputsOf(v, c, job.floor, outputs, first);
    InstallKeepsLevelInv(v, c, job.floor, outputs, first, w);
    InstalledEntries(Memory(st), v, c, job.floor, outputs, first, w);
    InputStored(v, c);
    OutputsAreFiles(v, c, job.floor, outputs, first);
    InstalledVersion(v, c, outputs, w);
    InstalledNumbers(v, c, outputs, first, w, st.nextFile);
  }

  /** Installing a compaction keeps everything but, perhaps, what readers see. */
  lemma InstallIsSound(st: State, st2: State)
    requires Inv(st) && InstallStep(st, st2)
    ensures Sound(st2) && Stored(st2) <= Stored(st) && st2.history == st.history && Oldest(st2) == Oldest(st)
  {
    InstallStores(st, st2);
    assert Stored(st2) <= Stored(st);
    assert Memory(st2) == Memory(st);
  }

  /** After the install readers see the history if and only if no key comes back. */
  lemma InstallIsFaithfulIff(st: State, st2: State)
    requires Inv(st) && InstallStep(st, st2)
    ensures Inv(st2) <==> SafeToInstall(st)
  {
    var job := st.job.value;
    var c, S, S2 := job.inputs, Stored(st), Stored(st2);
    InstallStores(st, st2);
    InstallIsSound(st, st2);
    JobIsCompacting(st);
    CompactionPreservesReadsFromIff(S, Leftover(st.version, c), st.version, c.level, Input(c), job.floor, Oldest(st));
    if forall k, s :: Oldest(st) <= s ==> View(S2, k, s) == View(S, k, s) {
      forall k, s | Oldest(st) <= s
        ensures View(S2, k, s) == HistoryGet(st.history, k, s)
      {
        assert View(S, k, s) == HistoryGet(st.history, k, s);
      }
    } else {
      var k, s :| Oldest(st) <= s && View(S2, k, s) != View(S, k, s);
      assert View(S, k, s) == HistoryGet(st.history, k, s);
    }
  }

  lemma InstallPreserves(st: State, st2: State)
    requires Inv(st) && InstallStep(st, st2) && SafeToInstall(st)
    ensures Inv(st2)
  {
    InstallIsFaithfulIff(st, st2);
  }

  lemma SnapshotPreserves(st: State, st2: State)
    requires Inv(st) && SnapshotStep(st, st2)
    ensures Inv(st2)
  {
    assert Stored(st2) == Stored(st);
  }

  lemma ReleasePreserves(st: State, st2: State)
    requires Inv(st) && ReleaseStep(st, st2)
    ensures Inv(st2)
  {
    assert Stored(st2) == Stored(st);
    assert Oldest(st) <= Oldest(st2);
  }

  lemma StepPreserves(st: State, st2: State)
    requires Inv(st) && Step(st, st2)
    requires InstallStep(st, st2) ==> SafeToInstall(st)
    ensures Inv(st2)
  {
    if ops :| WriteStep(st, st2, ops) {
      WritePreserves(st, st2, ops);
    } else if SwitchStep(st, st2) {
      SwitchPreserves(st, st2);
    } else if FlushStep(st, st2) {
      FlushPreserves(st, st2);
    } else if MoveStep(st, st2) {
      MovePreserves(st, st2);
    } else if BeginStep(st, st2) {
      BeginPreserves(st, st2);
    } else if InstallStep(st, st2) {
      InstallPreserves(st, st2);
    } else if SnapshotStep(st, st2) {
      SnapshotPreserves(st, st2);
    } else {
      ReleasePreserves(st, st2);
    }
  }

  // ---- Runs ----

  ghost predicate Run(run: seq<State>) {
    && run != [] && Init(run[0])
    && forall i :: 0 <= i < |run| - 1 ==> Step(run[i], run[i + 1])
  }

  ghost predicate SafeUpTo(run: seq<State>, n: nat) {
    forall i :: 0 <= i < n && i + 1 < |run| && InstallStep(run[i], run[i + 1]) ==> SafeToInstall(run[i])
  }

  lemma InitInv(st: State)
    requires Init(st)
    ensures Inv(st)
  {
    assert Stored(st) == {};
  }

  lemma {:induction false} RunInv(run: seq<State>, n: nat)
    requires Run(run) && n < |run| && SafeUpTo(run, n)
    ensures Inv(run[n])
  {
    if n == 0 {
      InitInv(run[0]);
    } else {
      RunInv(run, n - 1);
      assert Step(run[n - 1], run[n - 1 + 1]);
      StepPreserves(run[n - 1], run[n]);
    }
  }

  /** DBImpl::Get over the sources in order: memtable, immutable memtable, version. */
  ghost predicate GetAnswer(st: State, k: UserKey, s: nat, r: Option<Value>) {
    exists rv :: Answers(Entries(st.version), k, s, rv) &&
      var rm, ri := Probe(st.mem, k, s), Probe(ImmEntries(st.imm), k, s);
      r == Outcome(if !rm.NotFound? then rm else if !ri.NotFound? then ri else rv)
  }

  lemma GetAnswersView(st: State, k: UserKey, s: nat, r: Option<Value>)
    requires Sound(st) && GetAnswer(st, k, s, r)
    ensures r == View(Stored(st), k, s)
  {
    var rm, ri := Probe(st.mem, k, s), Probe(ImmEntries(st.imm), k, s);
    var rv :| Answers(Entries(st.version), k, s, rv) &&
      r == Outcome(if !rm.NotFound? then rm else if !ri.NotFound? then ri else rv);
    var A, B, C := Members(st.mem), Members(ImmEntries(st.imm)), Entries(st.version);
    ProbeAnswers(st.mem, k, s);
    ProbeAnswers(ImmEntries(st.imm), k, s);
    FirstHitAnswers(A, B, k, s, rm, ri);
    FirstHitAnswers(A + B, C, k, s, if rm.NotFound? then ri else rm, rv);
    GenuineIsUnique(st.history, Stored(st));
    AnswerIsView(Stored(st), k, s, if !rm.NotFound? then rm else if !ri.NotFound? then ri else rv);
  }

  lemma GetAnswersHistory(st: State, k: UserKey, s: nat, r: Option<Value>)
    requires Inv(st) && Oldest(st) <= s && GetAnswer(st, k, s, r)
    ensures r == HistoryGet(st.history, k, s)
  {
    GetAnswersView(st, k, s, r);
  }

  lemma GetHasAnswer(st: State, k: UserKey, s: nat) returns (r: Option<Value>)
    ensures GetAnswer(st, k, s, r)
  {
    var rm, ri := Probe(st.mem, k, s), Probe(ImmEntries(st.imm), k, s);
    var rv := AnswerExists(Entries(st.version), k, s);
    r := Outcome(if !rm.NotFound? then rm else if !ri.NotFound? then ri else rv);
  }

  /** Over every run, a read at the latest sequence number or at a live snapshot returns what
      the history says, provided no installed compaction resurrects a key. */
  lemma ReadsFollowHistory(run: seq<State>, n: nat, k: UserKey, s: nat, r: Option<Value>)
    requires Run(run) && n < |run| && SafeUpTo(run, n)
    requires s in run[n].snapshots || s == |run[n].history|
    requires GetAnswer(run[n], k, s, r)
    ensures r == HistoryGet(run[n].history, k, s)
  {
    RunInv(run, n);
    var st := run[n];
    if s in st.snapshots {
      var i :| 0 <= i < |st.snapshots| && st.snapshots[i] == s;
    }
    GetAnswersHistory(st, k, s, r);
  }

  /** What readers may ask for: the latest sequence number and the live snapshots. */
  ghost predicate Readable(st: State, s: nat) {
    s in st.snapshots || s == |st.history|
  }

  ghost predicate ReadsRight(st: State) {
    forall k, s, r :: Readable(st, s) && GetAnswer(st, k, s, r) ==> r == HistoryGet(st.history, k, s)
  }

  lemma OldestIsReadable(st: State)
    ensures Readable(st, Oldest(st))
  {
    assert st.snapshots != [] ==> st.snapshots[0] in st.snapshots;
  }

  lemma WrongAfterUnsafeInstall(st: State, st2: State)
    requires Inv(st) && InstallStep(st, st2) && !SafeToInstall(st)
    ensures !ReadsRight(st2)
  {
    var job, from := st.job.value, Oldest(st);
    var c := job.inputs;
    InstallStores(st, st2);
    InstallIsSound(st, st2);
    JobIsCompacting(st);
    var k :| ReturnsFrom(Stored(st), Leftover(st.version, c), st.version, c.level, Input(c), job.floor, from, k);
    KeyReturns(Stored(st), Leftover(st.version, c), st.version, c.level, Input(c), job.floor, from, k);
    var r := GetHasAnswer(st2, k, from);
    GetAnswersView(st2, k, from, r);
    OldestIsReadable(st2);
    assert View(Stored(st), k, from) == HistoryGet(st.history, k, from);
  }

  /** Over every run: all reads so far returned what the history says if and only if no
      compaction was installed that brought back a key. */
  lemma {:induction false} ReadsFollowHistoryIff(run: seq<State>, n: nat)
    requires Run(run) && n < |run|
    ensures (forall i :: 0 <= i <= n ==> ReadsRight(run[i])) <==> SafeUpTo(run, n)
    decreases n
  {
    if SafeUpTo(run, n) {
      forall i, k, s, r | 0 <= i <= n && Readable(run[i], s) && GetAnswer(run[i], k, s, r)
        ensures r == HistoryGet(run[i].history, k, s)
      {
        ReadsFollowHistory(run, i, k, s, r);
      }
    } else {
      ReadsFollowHistoryIff(run, n - 1);
      if SafeUpTo(run, n - 1) {
        RunInv(run, n - 1);
        var m := n - 1;
        assert InstallStep(run[m], run[m + 1]) && !SafeToInstall(run[m]);
        WrongAfterUnsafeInstall(run[m], run[m + 1]);
      }
    }
  }

  /** If every compaction's parent inputs are boundary-closed, every run is safe. */
  lemma ClosedRunsAreSafe(run: seq<State>, n: nat)
    requires Run(run) && n < |run|
    requires forall i :: 0 <= i < n && run[i].job.Some? && Inv(run[i]) ==> ParentsClosed(run[i].version, run[i].job.value.inputs)
    ensures SafeUpTo(run, n) && Inv(run[n])
    decreases n
  {
    if n == 0 {
      InitInv(run[0]);
    } else {
      var m := n - 1;
      ClosedRunsAreSafe(run, m);
      if run[m].job.Some? {
        var c := run[m].job.value.inputs;
        GenuineIsUnique(run[m].history, Stored(run[m]));
        var floor, from := run[m].job.value.floor, Oldest(run[m]);
        forall k
          ensures !ReturnsFrom(Stored(run[m]), Leftover(run[m].version, c), run[m].version, c.level, Input(c), floor, from, k)
        {
          ClosedParentsNeverResurrect(Memory(run[m]), run[m].version, c, floor, k);
          if ReturnsFrom(Stored(run[m]), Leftover(run[m].version, c), run[m].version, c.level, Input(c), floor, from, k) {
            ReturnsMeansResurrects(Stored(run[m]), Leftover(run[m].version, c), run[m].version, c.level, Input(c), floor, from, k);
          }
        }
      }
      assert SafeToInstall(run[m]);
      assert Step(run[m], run[m + 1]);
      StepPreserves(run[m], run[n]);
    }
  }
}
