/** A run in which a deleted key comes back.  SetupOtherInputs extends the level inputs of a
    compaction by their boundary files but not its parent inputs; a tombstone can then be
    dropped while the next parent file still holds the value it hides. */
module LostDelete {
  import opened Keys
  import opened Runs
  import opened Versions
  import opened Picking
  import opened Compactions
  import opened Preservation
  import opened Installing
  import opened Database

  const PutK := Op(1, Put, "v")
  const DelK := Op(1, Deletion, "")
  const PutA := Op(0, Put, "x")
  const PutA2 := Op(0, Put, "y")

  const E1 := Entry(InternalKey(1, 1, Put), "v")
  const E2 := Entry(InternalKey(1, 2, Deletion), "")
  const E3 := Entry(InternalKey(0, 3, Put), "x")
  const E4 := Entry(InternalKey(0, 4, Put), "y")

  function MakeFile(number: nat, es: seq<Entry>): File
    requires es != []
  {
    File(number, 0, es[0].key, es[|es| - 1].key, es)
  }

  const F1 := MakeFile(1, [E3, E2, E1])
  const A := MakeFile(2, [E3, E2])
  const B := MakeFile(3, [E1])
  const F2 := MakeFile(4, [E4])
  const C := MakeFile(5, [E4])

  function At(l2: seq<File>, l3: seq<File>): Version {
    [[], [], l2, l3, [], [], []]
  }

  const Split := Inputs(2, [F1], [], E3.key, E1.key, [])
  const Narrow := Inputs(2, [F2], [A], E4.key, E4.key, [])

  const S0 := State([], None, At([], []), [], [], 1, None)
  const S1 := S0.(mem := [E1], history := [PutK])
  const S2 := S1.(snapshots := [1])
  const S3 := S2.(mem := [E3, E2, E1], history := [PutK, DelK, PutA])
  const S4 := S3.(mem := [], imm := Some([E3, E2, E1]))
  const S5 := S4.(imm := None, version := At([F1], []), nextFile := 2)
  const S6 := S5.(job := Some(Job(Split, 1, [A, B])), nextFile := 4)
  const S7 := S6.(version := At([], [A, B]), job := None)
  const S8 := S7.(snapshots := [])
  const S9 := S8.(mem := [E4], history := [PutK, DelK, PutA, PutA2])
  const S10 := S9.(mem := [], imm := Some([E4]))
  const S11 := S10.(imm := None, version := At([F2], [A, B]), nextFile := 5)
  const S12 := S11.(job := Some(Job(Narrow, 4, [C])), nextFile := 6)
  const S13 := S12.(version := At([], [C, B]), job := None)

  /** Inserting an operation whose entry sorts before the whole memtable. */
  lemma InsertFront(es: seq<Entry>, op: Op, ops: seq<Op>, last: nat)
    requires es == [] || !Less(es[0].key, InternalKey(op.key, last + 1, op.kind))
    ensures InsertAll(es, [op] + ops, last) == InsertAll([Entry(InternalKey(op.key, last + 1, op.kind), op.value)] + es, ops, last + 1)
  {
    var e := Entry(InternalKey(op.key, last + 1, op.kind), op.value);
    assert Seek(es, e.key) == 0;
    assert es[..0] + [e] + es[0..] == [e] + es;
    assert ([op] + ops)[1..] == ops;
  }

  lemma Writes()
    ensures Init(S0)
    ensures WriteStep(S0, S1, [PutK])
    ensures WriteStep(S2, S3, [DelK, PutA])
    ensures WriteStep(S8, S9, [PutA2])
  {
    assert S0.version == seq(NUM_LEVELS, _ => []);
    InsertFront([], PutK, [], 0);
    InsertFront([E1], DelK, [PutA], 1);
    InsertFront([E2, E1], PutA, [], 2);
    InsertFront([], PutA2, [], 3);
    assert [PutK] == [PutK] + [] && [PutA] == [PutA] + [] && [PutA2] == [PutA2] + [] && [DelK, PutA] == [DelK] + [PutA];
    assert [E2] + [E1] == [E2, E1] && [E3] + [E2, E1] == [E3, E2, E1] && [E1] + [] == [E1] && [E4] + [] == [E4];
  }

  lemma Flushed()
    ensures FlushStep(S4, S5) && FlushStep(S10, S11)
  {
    assert Flushes(S4, S5, F1, 2, At([F1], []));
    assert Flushes(S10, S11, F2, 2, At([F2], [A, B]));
  }

  lemma OneRun(f: File)
    ensures Concat(FileRuns([f])) == f.entries && Concat([f.entries]) == f.entries
  {
    assert FileRuns([f]) == [f.entries];
    assert [f.entries][1..] == [];
    assert Concat([f.entries]) == f.entries + Concat([]);
  }

  lemma SplitIsGood()
    ensures GoodInputs(S5.version, Split)
    ensures Input(Split) == [E3, E2, E1]
  {
    OneRun(F1);
    assert InputRuns(Split) == [F1.entries] + [];
    assert [F1.entries] + [] == [F1.entries] && [F1.entries][1..] == [];
    assert MergeAll([F1.entries]) == Merge(F1.entries, MergeAll([]));
  }

  lemma SplitSurvivors(v: Version)
    requires v == S5.version
    ensures Survivors(v, 2, [E3, E2, E1], 1, 3) == [E3, E2, E1]
  {
    var input := [E3, E2, E1];
    assert !Dropped(v, 2, input, 1, 0) && !Dropped(v, 2, input, 1, 1) && !Dropped(v, 2, input, 1, 2);
    assert Survivors(v, 2, input, 1, 1) == [E3];
    assert Survivors(v, 2, input, 1, 2) == [E3, E2];
  }

  lemma SplitBegins()
    ensures BeginStep(S5, S6)
  {
    SplitIsGood();
    SplitSurvivors(S5.version);
    OneRun(B);
    assert FileRuns([A, B]) == [A.entries, B.entries] && [A.entries, B.entries][1..] == [B.entries];
    assert Concat([A.entries, B.entries]) == A.entries + Concat([B.entries]);
    assert OutputsOf(S5.version, Split, 1, [A, B], 2);
  }

  lemma NarrowIsGood()
    ensures GoodInputs(S11.version, Narrow)
    ensures Input(Narrow) == [E4, E3, E2]
  {
    OneRun(F2);
    OneRun(A);
    assert InputRuns(Narrow) == [F2.entries] + [A.entries];
    assert [F2.entries] + [A.entries] == [F2.entries, A.entries];
    assert [F2.entries, A.entries][1..] == [A.entries] && [A.entries][1..] == [];
    assert MergeAll([A.entries]) == Merge(A.entries, MergeAll([])) == A.entries;
    assert MergeAll([F2.entries, A.entries]) == Merge(F2.entries, A.entries);
    assert F2.entries[1..] == [];
    assert Merge(F2.entries, A.entries) == [E4] + Merge([], A.entries);
  }

  lemma NarrowSurvivors(v: Version)
    requires v == S11.version
    ensures Survivors(v, 2, [E4, E3, E2], 4, 3) == [E4]
  {
    var input := [E4, E3, E2];
    assert IsBase(v, 2, 1);
    assert !Dropped(v, 2, input, 4, 0) && Dropped(v, 2, input, 4, 1) && Dropped(v, 2, input, 4, 2);
    assert Survivors(v, 2, input, 4, 1) == [E4];
    assert Survivors(v, 2, input, 4, 2) == [E4];
  }

  lemma NarrowBegins()
    ensures BeginStep(S11, S12)
  {
    NarrowIsGood();
    NarrowSurvivors(S11.version);
    OneRun(C);
    assert OutputsOf(S11.version, Narrow, 4, [C], 5);
  }

  lemma Installs()
    ensures InstallStep(S6, S7) && InstallStep(S12, S13)
  {
    assert Installed(S6.version, Split, [A, B], At([], [A, B]));
    assert Installed(S12.version, Narrow, [C], At([], [C, B]));
  }

  lemma WrongAnswer()
    ensures GetAnswer(S13, 1, 4, Some("v"))
    ensures HistoryGet(S13.history, 1, 4) == None
  {
    assert E1 in B.entries && B in S13.version[3];
    assert Newest(Entries(S13.version), 1, 4, E1);
    assert Answers(Entries(S13.version), 1, 4, Found("v"));
    assert Probe([], 1, 4) == NotFound;
    var h := S13.history;
    assert h[..3] == [PutK, DelK, PutA] && h[..3][..2] == [PutK, DelK];
    assert HistoryGet([PutK, DelK], 1, 4) == None;
    assert HistoryGet([PutK, DelK, PutA], 1, 4) == None;
  }

  /** The run, state by state. */
  function Nth(i: nat): State {
    match i
    case 0 => S0
    case 1 => S1
    case 2 => S2
    case 3 => S3
    case 4 => S4
    case 5 => S5
    case 6 => S6
    case 7 => S7
    case 8 => S8
    case 9 => S9
    case 10 => S10
    case 11 => S11
    case 12 => S12
    case _ => S13
  }

  lemma StepAt(i: nat)
    requires i < 13
    ensures Step(Nth(i), Nth(i + 1))
  {
    match i
    case 0 => Writes(); assert WriteStep(S0, S1, [PutK]);
    case 1 => assert SnapshotStep(S1, S2);
    case 2 => Writes(); assert WriteStep(S2, S3, [DelK, PutA]);
    case 3 => assert SwitchStep(S3, S4);
    case 4 => Flushed(); assert FlushStep(S4, S5);
    case 5 => SplitBegins(); assert BeginStep(S5, S6);
    case 6 => Installs(); assert InstallStep(S6, S7);
    case 7 =>
      assert S8 == S7.(snapshots := S7.snapshots[..0] + S7.snapshots[0 + 1..]);
      assert ReleaseStep(S7, S8);
    case 8 => Writes(); assert WriteStep(S8, S9, [PutA2]);
    case 9 => assert SwitchStep(S9, S10);
    case 10 => Flushed(); assert FlushStep(S10, S11);
    case 11 => NarrowBegins(); assert BeginStep(S11, S12);
    case 12 => Installs(); assert InstallStep(S12, S13);
  }

  /** Reads do not follow the history on every run: the put of key 1 is read back at the
      latest sequence number although its delete is the newer operation. */
  lemma DeletedKeyReturns() returns (run: seq<State>)
    ensures Run(run)
    ensures var last := run[|run| - 1];
            GetAnswer(last, 1, |last.history|, Some("v")) && HistoryGet(last.history, 1, |last.history|) == None
  {
    run := seq(14, i requires 0 <= i < 14 => Nth(i));
    forall i | 0 <= i < 13
      ensures Step(run[i], run[i + 1])
    {
      StepAt(i);
    }
    Writes();
    WrongAnswer();
  }
}
