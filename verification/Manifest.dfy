/** The manifest: edits logged as they are applied, and a file layout rebuilt from them. */
module Manifest {
  import opened Keys
  import opened Coding
  import opened Versions
  import opened Edits
  import E = EditCodec
  import LogFormat
  import opened LogReader
  import LogSoundness

  type CrcStep = LogFormat.CrcStep

  /** How internal keys stand in an edit, and what the table with a given number holds. */
  datatype Disk = Disk(encode: InternalKey -> Bytes, decode: Bytes -> InternalKey, contents: nat -> seq<Entry>)

  function Open(d: Disk, m: E.FileMetaData): File {
    File(m.number, m.size, d.decode(m.smallest), d.decode(m.largest), d.contents(m.number))
  }

  function MetaOf(d: Disk, f: File): E.FileMetaData {
    E.FileMetaData(f.number, f.size, d.encode(f.smallest), d.encode(f.largest))
  }

  function OpenAll(d: Disk, fs: seq<(nat, E.FileMetaData)>): seq<(nat, File)> {
    seq(|fs|, i requires 0 <= i < |fs| => (fs[i].0, Open(d, fs[i].1)))
  }

  /** The edit as a Builder takes it. */
  function Resolve(d: Disk, e: E.Edit): VersionEdit {
    VersionEdit(e.deletedFiles, OpenAll(d, e.newFiles))
  }

  function AddedTo(d: Disk, e: E.Edit, level: nat): seq<File> {
    AddedAt(Resolve(d, e).added, level)
  }

  function Resolved(d: Disk, es: seq<E.Edit>): (r: seq<VersionEdit>)
    ensures |r| == |es|
  {
    seq(|es|, i requires 0 <= i < |es| => Resolve(d, es[i]))
  }

  predicate LevelsOk(e: E.Edit) {
    (forall p <- e.compactPointers :: p.0 < NUM_LEVELS) && (forall f <- e.newFiles :: f.0 < NUM_LEVELS)
  }

  // ---- What edits do ----

  function PointersAfter(ps: seq<Bytes>, cs: seq<(nat, Bytes)>): (r: seq<Bytes>)
    requires forall c <- cs :: c.0 < |ps|
    ensures |r| == |ps|
    decreases |cs|
  {
    if cs == [] then ps else
      var last := cs[|cs| - 1];
      assert last in cs;
      PointersAfter(ps, cs[..|cs| - 1])[last.0 := last.1]
  }

  /** The files of every level, and where its last compaction ended. */
  datatype Layout = Layout(version: Version, pointers: seq<Bytes>)

  function Nothing(): Layout {
    Layout(seq(NUM_LEVELS, _ => []), seq(NUM_LEVELS, _ => []))
  }

  ghost predicate EditStep(d: Disk, a: Layout, e: E.Edit, b: Layout) {
    && LevelsOk(e) && |a.version| == |b.version| == |a.pointers| == NUM_LEVELS
    && (forall l :: 0 <= l < NUM_LEVELS ==> Stepped(a.version[l], Resolve(d, e), l, b.version[l]))
    && b.pointers == PointersAfter(a.pointers, e.compactPointers)
  }

  ghost predicate StepAt(d: Disk, es: seq<E.Edit>, ls: seq<Layout>, i: nat)
    requires i < |es| < |ls|
  {
    EditStep(d, ls[i], es[i], ls[i + 1])
  }

  /** The layouts as the edits are installed one version at a time. */
  ghost predicate Stepwise(d: Disk, es: seq<E.Edit>, ls: seq<Layout>) {
    && |ls| == |es| + 1 && ls[0] == Nothing()
    && forall i :: 0 <= i < |es| ==> StepAt(d, es, ls, i)
  }

  /** The numbers that an edit may carry besides files. */
  datatype Counters = Counters(logNumber: Option<nat>, prevLogNumber: Option<nat>, nextFile: Option<nat>, lastSequence: Option<nat>)

  function OrElse(a: Option<nat>, b: Option<nat>): Option<nat> {
    if a.Some? then a else b
  }

  function Counted(c: Counters, e: E.Edit): Counters {
    Counters(OrElse(e.logNumber, c.logNumber), OrElse(e.prevLogNumber, c.prevLogNumber),
             OrElse(e.nextFileNumber, c.nextFile), OrElse(e.lastSequence, c.lastSequence))
  }

  function CountersOf(es: seq<E.Edit>): Counters {
    if es == [] then Counters(None, None, None, None) else Counted(CountersOf(es[..|es| - 1]), es[|es| - 1])
  }

  /** A level is never given a file number twice, and edits name existing levels. */
  ghost predicate Replayable(d: Disk, es: seq<E.Edit>) {
    && (forall e <- es :: LevelsOk(e))
    && (forall l :: 0 <= l < NUM_LEVELS ==> NeverReused([], Resolved(d, es), l))
    && (forall e, l :: e in es && 0 <= l < NUM_LEVELS ==> DistinctNumbers(AddedTo(d, e, l)))
  }

  // ---- Replay ----

  /** What a Builder has gathered of the edits so far, after each of them. */
  ghost predicate Gathered(d: Disk, es: seq<E.Edit>, ss: seq<seq<LevelState>>) {
    && |ss| == |es| + 1 && ss[0] == seq(NUM_LEVELS, _ => LevelState({}, []))
    && (forall s <- ss :: |s| == NUM_LEVELS)
    && forall i :: 0 <= i < |es| ==> GatheredAt(d, es, ss, i)
  }

  ghost predicate GatheredAt(d: Disk, es: seq<E.Edit>, ss: seq<seq<LevelState>>, i: nat)
    requires i < |es| < |ss|
  {
    AppliedAt(d, es[i], ss[i], ss[i + 1])
  }

  ghost predicate AppliedAt(d: Disk, e: E.Edit, s: seq<LevelState>, t: seq<LevelState>) {
    |s| == |t| == NUM_LEVELS && forall l :: 0 <= l < NUM_LEVELS ==> LevelApplied(s[l], Resolve(d, e), l, t[l])
  }

  lemma GatheredMore(d: Disk, es: seq<E.Edit>, ss: seq<seq<LevelState>>, e: E.Edit, s: seq<LevelState>)
    requires Gathered(d, es, ss) && AppliedAt(d, e, ss[|es|], s)
    ensures Gathered(d, es + [e], ss + [s])
  {
    forall i | 0 <= i < |es| + 1
      ensures GatheredAt(d, es + [e], ss + [s], i)
    {
      if i < |es| {
        assert GatheredAt(d, es, ss, i);
      }
    }
  }

  /** Every gathered file was added by one of the edits. */
  lemma {:induction false} GatheredFrom(d: Disk, es: seq<E.Edit>, ss: seq<seq<LevelState>>, n: nat, l: nat, f: File)
    requires Gathered(d, es, ss) && n <= |es| && l < NUM_LEVELS && f in ss[n][l].added
    ensures exists i :: 0 <= i < n && f in AddedTo(d, es[i], l)
    decreases n
  {
    if n > 0 {
      assert GatheredAt(d, es, ss, n - 1);
      if f !in AddedTo(d, es[n - 1], l) {
        GatheredFrom(d, es, ss, n - 1, l, f);
      }
    }
  }

  lemma AddedLater(d: Disk, es: seq<E.Edit>, i: nat, j: nat, l: nat)
    requires Replayable(d, es) && i < j < |es| && l < NUM_LEVELS
    ensures FreshNumbers(AddedTo(d, es[i], l), AddedTo(d, es[j], l))
  {
    var vs := Resolved(d, es);
    assert NeverReused([], vs, l);
    assert FreshNumbers(AddedAt(vs[i].added, l), AddedAt(vs[j].added, l));
  }

  /** So the files of the next edit are new to the Builder. */
  lemma NextIsFresh(d: Disk, es: seq<E.Edit>, ss: seq<seq<LevelState>>, n: nat, l: nat)
    requires n < |es| && Gathered(d, es[..n], ss) && Replayable(d, es) && l < NUM_LEVELS
    ensures FreshNumbers(ss[n][l].added, AddedTo(d, es[n], l)) && DistinctNumbers(AddedTo(d, es[n], l)) && LevelsOk(es[n])
  {
    assert es[n] in es;
    forall f | f in ss[n][l].added
      ensures forall g :: g in AddedTo(d, es[n], l) ==> f.number != g.number
    {
      GatheredFrom(d, es[..n], ss, n, l, f);
      var i :| 0 <= i < n && f in AddedTo(d, es[..n][i], l);
      AddedLater(d, es, i, n, l);
    }
  }

  /** One Builder for all edits gives the layout that one version after the other gave. */
  lemma ReplayedLevel(d: Disk, es: seq<E.Edit>, ss: seq<seq<LevelState>>, ls: seq<Layout>, l: nat, saved: seq<File>)
    requires Replayable(d, es) && Gathered(d, es, ss) && Stepwise(d, es, ls) && l < NUM_LEVELS
    requires Saved([], ss[|es|][l].deleted, ss[|es|][l].added, saved)
    ensures |ls[|es|].version| == NUM_LEVELS && saved == ls[|es|].version[l]
  {
    var n := |es| + 1;
    forall i | 0 <= i < n
      ensures |ls[i].version| == NUM_LEVELS
    {
      if i > 0 {
        assert StepAt(d, es, ls, i - 1);
      }
    }
    var states := seq(n, i requires 0 <= i < n => ss[i][l]);
    var ws := seq(n, i requires 0 <= i < n => ls[i].version[l]);
    forall i | 0 <= i < |es|
      ensures LevelApplied(states[i], Resolved(d, es)[i], l, states[i + 1])
      ensures Stepped(ws[i], Resolved(d, es)[i], l, ws[i + 1])
    {
      assert GatheredAt(d, es, ss, i);
      assert StepAt(d, es, ls, i);
    }
    ReplayIsStepwise([], Resolved(d, es), l, states, ws, saved);
  }

  function AllPointers(es: seq<E.Edit>): (r: seq<Bytes>)
    requires forall e <- es :: LevelsOk(e)
    ensures |r| == NUM_LEVELS
  {
    if es == [] then seq(NUM_LEVELS, _ => []) else
      var front, last := es[..|es| - 1], es[|es| - 1];
      assert last in es && forall e :: e in front ==> e in es;
      assert LevelsOk(last);
      PointersAfter(AllPointers(front), last.compactPointers)
  }

  lemma {:induction false} ReplayedPointers(d: Disk, es: seq<E.Edit>, ls: seq<Layout>, n: nat)
    requires Stepwise(d, es, ls) && n <= |es| && forall e <- es :: LevelsOk(e)
    ensures ls[n].pointers == AllPointers(es[..n])
    decreases n
  {
    if n > 0 {
      ReplayedPointers(d, es, ls, n - 1);
      assert es[..n][..n - 1] == es[..n - 1];
      assert StepAt(d, es, ls, n - 1);
    }
  }

  // ---- Reading the manifest ----

  datatype Status = Fine | Corruption | OtherComparator | NoNextFile | NoLogNumber | NoLastSequence

  datatype Read = Stop(status: Status) | More(edit: E.Edit)

  /** What becomes of one record, or of the end of the manifest. */
  function Judge(comparator: Bytes, reports: seq<nat>, record: Option<Bytes>): (r: Read)
    ensures r.More? ==> record.Some? && LevelsOk(r.edit)
  {
    if reports != [] then Stop(Corruption)
    else if record.None? then Stop(Fine)
    else
      var (e, ok) := E.Decode(record.value, E.EMPTY);
      DecodedLevels(record.value, E.EMPTY);
      if !ok then Stop(Corruption)
      else if e.comparator.Some? && e.comparator.value != comparator then Stop(OtherComparator)
      else More(e)
  }

  /** The edits that Recover applies, and why it stopped. */
  function ReadEdits(step: CrcStep, comparator: Bytes, file: Bytes, s: ReaderState): (r: (seq<E.Edit>, Status))
    requires s.filePos <= |file|
    ensures forall e <- r.0 :: LevelsOk(e)
    decreases |file| - s.filePos + |s.buffer|
  {
    var (s1, record) := ReadLoop(step, true, file, s, [], false);
    match Judge(comparator, s1.reports, record)
    case Stop(status) => ([], status)
    case More(e) =>
      var (es, status) := ReadEdits(step, comparator, file, s1);
      ([e] + es, status)
  }

  /** Decoded whole, and for no other comparator. */
  ghost predicate Readable(comparator: Bytes, record: Bytes) {
    var (e, ok) := E.Decode(record, E.EMPTY);
    ok && (e.comparator == None || e.comparator == Some(comparator))
  }

  ghost predicate AllReadable(comparator: Bytes, records: seq<Bytes>) {
    records == [] || (Readable(comparator, records[0]) && AllReadable(comparator, records[1..]))
  }

  function Decoded(records: seq<Bytes>): (es: seq<E.Edit>)
    ensures |es| == |records|
  {
    if records == [] then [] else [E.Decode(records[0], E.EMPTY).0] + Decoded(records[1..])
  }

  lemma JudgeIff(comparator: Bytes, reports: seq<nat>, record: Bytes)
    ensures Judge(comparator, reports, Some(record)).More? <==> reports == [] && Readable(comparator, record)
    ensures Judge(comparator, reports, Some(record)).More? ==> Judge(comparator, reports, Some(record)).edit == E.Decode(record, E.EMPTY).0
    ensures Judge(comparator, reports, Some(record)) != Stop(Fine)
  {}

  lemma FirstRecord(comparator: Bytes, r: Bytes, rest: seq<Bytes>)
    ensures AllReadable(comparator, [r] + rest) <==> Readable(comparator, r) && AllReadable(comparator, rest)
    ensures Decoded([r] + rest) == [E.Decode(r, E.EMPTY).0] + Decoded(rest)
  {
    assert ([r] + rest)[1..] == rest;
  }

  /** Reading a manifest succeeds if and only if no corruption is reported and every record is
      readable; then the edits are those of all records, in order. */
  lemma {:induction false} FineIff(step: CrcStep, comparator: Bytes, file: Bytes, s: ReaderState)
    requires s.filePos <= |file| && s.reports == []
    ensures var (es, status) := ReadEdits(step, comparator, file, s);
      var (end, records) := ReadAll(step, true, file, s);
      && (status == Fine <==> end.reports == [] && AllReadable(comparator, records))
      && (status == Fine ==> es == Decoded(records))
    decreases |file| - s.filePos + |s.buffer|
  {
    var (s1, record) := ReadLoop(step, true, file, s, [], false);
    if record.Some? {
      JudgeIff(comparator, s1.reports, record.value);
      FirstRecord(comparator, record.value, ReadAll(step, true, file, s1).1);
      LogSoundness.AllReportsGrow(step, file, s1);
      if s1.reports == [] {
        FineIff(step, comparator, file, s1);
      }
    }
  }

  /** Whatever is decoded names existing levels. */
  lemma {:induction false} DecodedLevels(b: Bytes, e: E.Edit)
    requires LevelsOk(e)
    ensures LevelsOk(E.Decode(b, e).0)
    decreases |b|
  {
    var t := GetVarint32(b);
    if t.Some? {
      var f := E.ParseBody(t.value.0, t.value.1);
      if f.Some? {
        AppliedLevels(t.value.0, t.value.1, e);
        DecodedLevels(f.value.1, E.Apply(e, f.value.0));
      }
    }
  }

  lemma AppliedLevels(tag: nat, b: Bytes, e: E.Edit)
    requires LevelsOk(e) && E.ParseBody(tag, b).Some?
    ensures LevelsOk(E.Apply(e, E.ParseBody(tag, b).value.0))
  {
    if tag == 5 || tag == 6 || tag == 7 {
      assert E.GetLevel(b).value.0 < NUM_LEVELS;
    }
  }

  /** Reading has succeeded: is everything there? */
  function Verdict(c: Counters): (s: Status)
    ensures s == NoNextFile <==> c.nextFile.None?
    ensures s == NoLogNumber <==> c.nextFile.Some? && c.logNumber.None?
    ensures s == NoLastSequence <==> c.nextFile.Some? && c.logNumber.Some? && c.lastSequence.None?
    ensures s == Fine <==> c.nextFile.Some? && c.logNumber.Some? && c.lastSequence.Some?
  {
    if c.nextFile.None? then NoNextFile
    else if c.logNumber.None? then NoLogNumber
    else if c.lastSequence.None? then NoLastSequence
    else Fine
  }
}
