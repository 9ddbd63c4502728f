/** Recovering the updates of the write queue from a log that may have been cut off. */
module Recovery {
  import opened Keys
  import opened Coding
  import LogFormat
  import opened LogReader
  import LogRoundTrip
  import LogSoundness
  import opened WriteBatches
  import WriteQueue

  type CrcStep = LogFormat.CrcStep
  type Record = WriteQueue.Record

  /** What has been recovered so far; a status that is not ok stops the recovery. */
  datatype Progress = Progress(mem: seq<Stamped>, maxSequence: nat, ok: bool)

  /** One record: too short, or replayed into the memtable as far as it is well formed. */
  function Recovered(paranoid: bool, record: Bytes, p: Progress): Progress {
    if |record| < HEADER then p.(ok := !paranoid) else
      var (us, status) := Replay(record);
      var mem := p.mem + Numbered(Sequence(record), us);
      if status != Ok && paranoid then p.(mem := mem, ok := false) else
        var last := (Sequence(record) + Count(record) - 1) % 0x1_0000_0000_0000_0000;
        p.(mem := mem, maxSequence := if last > p.maxSequence then last else p.maxSequence)
  }

  /** The loop of RecoverLogFile, from a reader in state `s`. */
  function RecoverFrom(step: CrcStep, paranoid: bool, file: Bytes, s: ReaderState, p: Progress): Progress
    requires s.filePos <= |file|
    decreases |file| - s.filePos + |s.buffer|
  {
    var (s1, record) := ReadLoop(step, true, file, s, [], false);
    if record.None? then p.(ok := p.ok && (paranoid ==> s1.reports == [])) else
      if !p.ok || (paranoid && s1.reports != []) then p.(ok := false) else
        RecoverFrom(step, paranoid, file, s1, Recovered(paranoid, record.value, p))
  }

  /** DBImpl::RecoverLogFile.  Tables written while recovering hold part of `mem`. */
  method RecoverLogFile(step: CrcStep, paranoid: bool, file: Bytes, maxSequence: nat) returns (p: Progress)
    ensures p == RecoverFrom(step, paranoid, file, START, Progress([], maxSequence, true))
  {
    var reader := new Reader(step, true, file);
    p := Progress([], maxSequence, true);
    ghost var goal := RecoverFrom(step, paranoid, file, START, p);
    while true
      invariant reader.file == file && reader.step == step && reader.checksum
      invariant reader.filePos <= |file| && fresh(reader)
      invariant RecoverFrom(step, paranoid, file, reader.State(), p) == goal
      decreases |file| - reader.filePos + |reader.buffer|
    {
      var record := reader.ReadRecord();
      if record.None? {
        p := p.(ok := p.ok && (paranoid ==> reader.reports == []));
        return;
      }
      if !p.ok || (paranoid && reader.reports != []) {
        p := p.(ok := false);
        return;
      }
      p := Recovered(paranoid, record.value, p);
    }
  }

  // ---- Any file ----

  /** The records in turn, each as far as it is well formed; what has no header is skipped. */
  function Replayed(records: seq<Bytes>, p: Progress): Progress
    decreases |records|
  {
    if records == [] then p
    else if |records[0]| < 12 then Replayed(records[1..], p)
    else
      var last := (Sequence(records[0]) + Count(records[0]) - 1) % 0x1_0000_0000_0000_0000;
      Replayed(records[1..], p.(mem := p.mem + Numbered(Sequence(records[0]), Replay(records[0]).0),
                                maxSequence := if last > p.maxSequence then last else p.maxSequence))
  }

  ghost predicate AllAccepted(records: seq<Bytes>) {
    forall r <- records :: Replay(r).1 == Ok
  }

  /** Without paranoid checks recovery never fails, and replays every record that can be read. */
  lemma {:induction false} AnyFileRecovers(step: CrcStep, file: Bytes, s: ReaderState, p: Progress)
    requires s.filePos <= |file| && p.ok
    ensures RecoverFrom(step, false, file, s, p) == Replayed(ReadAll(step, true, file, s).1, p)
    ensures RecoverFrom(step, false, file, s, p).ok
    decreases |file| - s.filePos + |s.buffer|
  {
    var (s1, record) := ReadLoop(step, true, file, s, [], false);
    if record.Some? {
      AnyFileRecovers(step, file, s1, Recovered(false, record.value, p));
    }
  }

  /** With paranoid checks recovery succeeds if and only if no corruption is reported and every
      record is accepted; then all of them have been replayed. */
  lemma {:induction false} ParanoidIff(step: CrcStep, file: Bytes, s: ReaderState, p: Progress)
    requires s.filePos <= |file| && p.ok && s.reports == []
    ensures RecoverFrom(step, true, file, s, p).ok <==> ReadAll(step, true, file, s).0.reports == [] && AllAccepted(ReadAll(step, true, file, s).1)
    ensures RecoverFrom(step, true, file, s, p).ok ==> RecoverFrom(step, true, file, s, p) == Replayed(ReadAll(step, true, file, s).1, p)
    decreases |file| - s.filePos + |s.buffer|
  {
    var (s1, record) := ReadLoop(step, true, file, s, [], false);
    if record.Some? {
      LogSoundness.AllReportsGrow(step, file, s1);
      var r, rest := record.value, ReadAll(step, true, file, s1).1;
      assert ReadAll(step, true, file, s).1 == [r] + rest;
      if s1.reports == [] {
        var q := Recovered(true, r, p);
        assert q.ok <==> Replay(r).1 == Ok;
        if q.ok {
          ParanoidIff(step, file, s1, q);
        } else {
          StoppedStays(step, file, s1, q);
        }
      }
    }
  }

  lemma StoppedStays(step: CrcStep, file: Bytes, s: ReaderState, p: Progress)
    requires s.filePos <= |file| && !p.ok
    ensures !RecoverFrom(step, true, file, s, p).ok
  {}

  function Contents(r: Record): Bytes
    requires r.sequence < U64
  {
    Rep(r.sequence, r.updates)
  }

  ghost predicate Writable(r: Record) {
    0 < r.sequence && r.sequence + |r.updates| <= U64 && |r.updates| < 0x8000_0000 && AllSized(r.updates)
  }

  ghost predicate AllWritable(recs: seq<Record>) {
    forall r <- recs :: Writable(r) && r.sequence < U64
  }

  function AllContents(recs: seq<Record>): (rs: seq<Bytes>)
    requires AllWritable(recs)
    ensures |rs| == |recs|
  {
    seq(|recs|, i requires 0 <= i < |recs| => Contents(recs[i]))
  }

  /** The updates of `recs`, each with its sequence number. */
  function Stamps(recs: seq<Record>): seq<Stamped> {
    if recs == [] then [] else Numbered(recs[0].sequence, recs[0].updates) + Stamps(recs[1..])
  }

  function MaxSequence(recs: seq<Record>, max: nat): nat
    decreases |recs|
  {
    if recs == [] then max else
      var last := recs[0].sequence + |recs[0].updates| - 1;
      MaxSequence(recs[1..], if last > max then last else max)
  }

  function After(p: Progress, r: Record): Progress {
    var last := r.sequence + |r.updates| - 1;
    Progress(p.mem + Numbered(r.sequence, r.updates), if last > p.maxSequence then last else p.maxSequence, p.ok)
  }

  lemma RecoveredBytes(paranoid: bool, record: Bytes, r: Record, p: Progress)
    requires Writable(r) && |record| >= HEADER && Replay(record) == (r.updates, Ok)
    requires Sequence(record) == r.sequence && Count(record) == |r.updates|
    ensures Recovered(paranoid, record, p) == After(p, r)
  {
    var last := r.sequence + |r.updates| - 1;
    assert last % 0x1_0000_0000_0000_0000 == last;
  }

  lemma RecoveredRecord(paranoid: bool, r: Record, p: Progress)
    requires Writable(r) && r.sequence < U64
    ensures Recovered(paranoid, Contents(r), p) == After(p, r)
  {
    BatchRoundTrip(r.sequence, r.updates);
    RecoveredBytes(paranoid, Contents(r), r, p);
  }

  lemma RecoverStep(step: CrcStep, paranoid: bool, file: Bytes, s: ReaderState, s1: ReaderState, record: Bytes, p: Progress)
    requires s.filePos <= |file| && s1.filePos <= |file| && p.ok && s1.reports == []
    requires ReadLoop(step, true, file, s, [], false) == (s1, Some(record))
    ensures RecoverFrom(step, paranoid, file, s, p) == RecoverFrom(step, paranoid, file, s1, Recovered(paranoid, record, p))
  {}

  lemma RecoverEnd(step: CrcStep, paranoid: bool, file: Bytes, s: ReaderState, s1: ReaderState, p: Progress)
    requires s.filePos <= |file| && p.ok && s1.reports == []
    requires ReadLoop(step, true, file, s, [], false) == (s1, None)
    ensures RecoverFrom(step, paranoid, file, s, p) == p
  {}

  lemma StampsFirst(recs: seq<Record>, p: Progress)
    requires recs != []
    ensures After(p, recs[0]).mem + Stamps(recs[1..]) == p.mem + Stamps(recs)
    ensures MaxSequence(recs[1..], After(p, recs[0]).maxSequence) == MaxSequence(recs, p.maxSequence)
  {
    AppendedStamps(p.mem, Numbered(recs[0].sequence, recs[0].updates), Stamps(recs[1..]));
  }

  lemma AppendedStamps(a: seq<Stamped>, b: seq<Stamped>, c: seq<Stamped>)
    ensures a + b + c == a + (b + c)
  {}

  lemma {:induction false} RecoverServed(step: CrcStep, paranoid: bool, file: Bytes, s: ReaderState, recs: seq<Record>, rs: seq<Bytes>, s2: ReaderState, s3: ReaderState, p: Progress)
    requires AllWritable(recs) && rs == AllContents(recs) && p.ok && s.reports == []
    requires LogRoundTrip.Serves(step, true, file, s, rs, s2)
    requires s2.filePos <= |file| && ReadLoop(step, true, file, s2, [], false) == (s3, None) && s3.reports == []
    ensures s.filePos <= |file|
    ensures RecoverFrom(step, paranoid, file, s, p) == Progress(p.mem + Stamps(recs), MaxSequence(recs, p.maxSequence), true)
    decreases |recs|
  {
    if recs == [] {
      RecoverEnd(step, paranoid, file, s, s3, p);
      assert p.mem + Stamps(recs) == p.mem;
    } else {
      var s1 := LogRoundTrip.ServesFirst(step, file, s, rs, s2);
      assert rs[0] == Contents(recs[0]) && rs[1..] == AllContents(recs[1..]);
      RecoverStep(step, paranoid, file, s, s1, rs[0], p);
      RecoveredRecord(paranoid, recs[0], p);
      RecoverServed(step, paranoid, file, s1, recs[1..], rs[1..], s2, s3, After(p, recs[0]));
      StampsFirst(recs, p);
    }
  }

  /** Recovery from a log cut off at any byte: exactly the groups that were logged in full, each
      all or nothing, with their sequence numbers, and no error. */
  lemma RecoveryIsPrefix(step: CrcStep, paranoid: bool, recs: seq<Record>, n: nat, max: nat) returns (j: nat)
    requires AllWritable(recs) && n <= |LogFormat.LogOf(step, AllContents(recs))|
    ensures LogRoundTrip.Complete(step, AllContents(recs), n, j)
    ensures n == |LogFormat.LogOf(step, AllContents(recs))| ==> j == |recs|
    ensures RecoverFrom(step, paranoid, LogFormat.LogOf(step, AllContents(recs))[..n], START, Progress([], max, true))
         == Progress(Stamps(recs[..j]), MaxSequence(recs[..j], max), true)
  {
    var rs := AllContents(recs);
    var file := LogFormat.LogOf(step, rs)[..n];
    var s2, s3;
    j, s2, s3 := LogRoundTrip.TruncatedLogServes(step, true, rs, n);
    assert rs[..j] == AllContents(recs[..j]);
    RecoverServed(step, paranoid, file, START, recs[..j], rs[..j], s2, s3, Progress([], max, true));
    assert [] + Stamps(recs[..j]) == Stamps(recs[..j]);
  }

  // ---- The write queue and its log ----

  lemma {:induction false} StampsAppend(a: seq<Record>, b: seq<Record>)
    ensures Stamps(a + b) == Stamps(a) + Stamps(b)
    decreases |a|
  {
    if a == [] {
      assert a + b == b;
    } else {
      assert (a + b)[1..] == a[1..] + b;
      StampsAppend(a[1..], b);
    }
  }

  lemma StampsOfGroup(g: WriteQueue.Group)
    requires g.logged ==> g.result.Success?
    ensures Stamps(WriteQueue.Records(g)) == WriteQueue.Additions(g)
  {
    if g.logged {
      assert WriteQueue.Records(g)[1..] == [];
      assert Stamps([]) == [];
    }
  }

  /** As long as no sync has failed, the log of the current memtable replays to that memtable. */
  lemma {:induction false} LogReplaysToMemTable(gs: seq<WriteQueue.Group>)
    requires WriteQueue.NoneStopped(gs)
    ensures Stamps(WriteQueue.Logged(gs)) == WriteQueue.Applied(gs)
    decreases |gs|
  {
    if gs != [] {
      var front, g := gs[..|gs| - 1], gs[|gs| - 1];
      LogReplaysToMemTable(front);
      StampsOfGroup(g);
      StampsAppend(WriteQueue.Logged(front), WriteQueue.Records(g));
    }
  }

  /** A crash during a run of the write queue, after n bytes of its log reached the disk: the
      recovered memtable is the one the queue had, if all of the log is there, and otherwise
      what the first whole groups put into it. */
  lemma CrashRecovery(step: CrcStep, paranoid: bool, gs: seq<WriteQueue.Group>, n: nat, max: nat) returns (j: nat)
    requires WriteQueue.NoneStopped(gs) && AllWritable(WriteQueue.Logged(gs))
    requires n <= |LogFormat.LogOf(step, AllContents(WriteQueue.Logged(gs)))|
    ensures var log := LogFormat.LogOf(step, AllContents(WriteQueue.Logged(gs)));
      var p := RecoverFrom(step, paranoid, log[..n], START, Progress([], max, true));
      && p.ok && j <= |WriteQueue.Logged(gs)| && p.mem == Stamps(WriteQueue.Logged(gs)[..j])
      && p.mem <= WriteQueue.Applied(gs)
      && (n == |log| ==> p.mem == WriteQueue.Applied(gs))
  {
    j := RecoveryIsPrefix(step, paranoid, WriteQueue.Logged(gs), n, max);
    LogReplaysToMemTable(gs);
    StampsPrefix(WriteQueue.Logged(gs), j);
  }

  lemma StampsPrefix(recs: seq<Record>, j: nat)
    requires j <= |recs|
    ensures Stamps(recs[..j]) <= Stamps(recs)
    ensures j == |recs| ==> Stamps(recs[..j]) == Stamps(recs)
  {
    assert recs == recs[..j] + recs[j..];
    StampsAppend(recs[..j], recs[j..]);
  }
}
