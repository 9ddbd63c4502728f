/** VersionSet: edits are applied and logged in a manifest, from which Recover rebuilds the rest. */
module VersionSets {
  import opened Keys
  import opened Coding
  import opened Versions
  import opened Edits
  import E = EditCodec
  import LogFormat
  import opened LogReader
  import LogRoundTrip
  import opened Manifest

  // ---- The edit that begins a manifest ----

  ghost predicate OnDisk(d: Disk, f: File) {
    Open(d, MetaOf(d, f)) == f && E.FileOk(MetaOf(d, f))
  }

  ghost predicate AllOnDisk(d: Disk, v: Version) {
    forall l, f :: 0 <= l < |v| && f in v[l] ==> OnDisk(d, f)
  }

  function LevelFiles(d: Disk, l: nat, fs: seq<File>): seq<(nat, E.FileMetaData)> {
    seq(|fs|, i requires 0 <= i < |fs| => (l, MetaOf(d, fs[i])))
  }

  function SnapshotFiles(d: Disk, v: Version, n: nat): seq<(nat, E.FileMetaData)>
    requires n <= |v|
  {
    if n == 0 then [] else SnapshotFiles(d, v, n - 1) + LevelFiles(d, n - 1, v[n - 1])
  }

  function SnapshotPointers(ps: seq<Bytes>, n: nat): seq<(nat, Bytes)>
    requires n <= |ps|
  {
    if n == 0 then [] else SnapshotPointers(ps, n - 1) + if ps[n - 1] == [] then [] else [(n - 1, ps[n - 1])]
  }

  /** All files and compaction pointers of a layout. */
  function Snapshot(d: Disk, comparator: Bytes, a: Layout): E.Edit {
    E.Edit(Some(comparator), None, None, None, None, SnapshotPointers(a.pointers, |a.pointers|), {}, SnapshotFiles(d, a.version, |a.version|))
  }

  lemma {:induction false} AddedAtJoin(a: seq<(nat, File)>, b: seq<(nat, File)>, l: nat)
    ensures AddedAt(a + b, l) == AddedAt(a, l) + AddedAt(b, l)
    decreases |a|
  {
    if a == [] {
      assert a + b == b;
    } else {
      assert (a + b)[1..] == a[1..] + b;
      AddedAtJoin(a[1..], b, l);
    }
  }

  lemma {:induction false} LevelFilesAdded(d: Disk, l: nat, fs: seq<File>, m: nat)
    requires forall f <- fs :: OnDisk(d, f)
    ensures AddedAt(OpenAll(d, LevelFiles(d, l, fs)), m) == if m == l then fs else []
    decreases |fs|
  {
    if fs != [] {
      assert fs[0] in fs && fs == [fs[0]] + fs[1..];
      assert OpenAll(d, LevelFiles(d, l, fs))[1..] == OpenAll(d, LevelFiles(d, l, fs[1..]));
      LevelFilesAdded(d, l, fs[1..], m);
    }
  }

  lemma OpenedJoin(d: Disk, a: seq<(nat, E.FileMetaData)>, b: seq<(nat, E.FileMetaData)>, l: nat)
    ensures AddedAt(OpenAll(d, a + b), l) == AddedAt(OpenAll(d, a), l) + AddedAt(OpenAll(d, b), l)
  {
    assert OpenAll(d, a + b) == OpenAll(d, a) + OpenAll(d, b);
    AddedAtJoin(OpenAll(d, a), OpenAll(d, b), l);
  }

  lemma OneLevelMore(v: Version, n: nat, m: nat)
    requires 0 < n <= |v|
    ensures (if m < n - 1 then v[m] else []) + (if m == n - 1 then v[n - 1] else []) == if m < n then v[m] else []
  {}

  lemma {:induction false} SnapshotFilesAdded(d: Disk, v: Version, n: nat, m: nat)
    requires n <= |v| && AllOnDisk(d, v)
    ensures AddedAt(OpenAll(d, SnapshotFiles(d, v, n)), m) == if m < n then v[m] else []
    decreases n
  {
    if n > 0 {
      var front, last := SnapshotFiles(d, v, n - 1), LevelFiles(d, n - 1, v[n - 1]);
      SnapshotFilesAdded(d, v, n - 1, m);
      LevelFilesAdded(d, n - 1, v[n - 1], m);
      OpenedJoin(d, front, last, m);
      OneLevelMore(v, n, m);
    }
  }

  lemma {:induction false} SnapshotFilesOk(d: Disk, v: Version, n: nat)
    requires n <= |v| && AllOnDisk(d, v)
    ensures forall f <- SnapshotFiles(d, v, n) :: f.0 < n && E.FileOk(f.1)
    decreases n
  {
    if n > 0 {
      SnapshotFilesOk(d, v, n - 1);
      forall f | f in LevelFiles(d, n - 1, v[n - 1])
        ensures f.0 < n && E.FileOk(f.1)
      {
        var i :| 0 <= i < |v[n - 1]| && f == (n - 1, MetaOf(d, v[n - 1][i]));
        assert v[n - 1][i] in v[n - 1] && OnDisk(d, v[n - 1][i]);
      }
    }
  }

  // ---- Compaction pointers ----

  function LastFor(cs: seq<(nat, Bytes)>, l: nat): Option<Bytes> {
    if cs == [] then None
    else if cs[|cs| - 1].0 == l then Some(cs[|cs| - 1].1)
    else LastFor(cs[..|cs| - 1], l)
  }

  lemma {:induction false} PointerAt(ps: seq<Bytes>, cs: seq<(nat, Bytes)>, l: nat)
    requires (forall c <- cs :: c.0 < |ps|) && l < |ps|
    ensures PointersAfter(ps, cs)[l] == if LastFor(cs, l).Some? then LastFor(cs, l).value else ps[l]
    decreases |cs|
  {
    if cs != [] {
      assert cs[|cs| - 1] in cs;
      PointerAt(ps, cs[..|cs| - 1], l);
    }
  }

  /** Replaying the pointers of an edit behind a snapshot that has them already changes nothing. */
  lemma PointersTwice(ps: seq<Bytes>, cs: seq<(nat, Bytes)>)
    requires forall c <- cs :: c.0 < |ps|
    ensures PointersAfter(PointersAfter(ps, cs), cs) == PointersAfter(ps, cs)
  {
    forall l | 0 <= l < |ps|
      ensures PointersAfter(PointersAfter(ps, cs), cs)[l] == PointersAfter(ps, cs)[l]
    {
      PointerAt(ps, cs, l);
      PointerAt(PointersAfter(ps, cs), cs, l);
    }
  }

  lemma {:induction false} SnapshotPointersOk(ps: seq<Bytes>, n: nat)
    requires n <= |ps|
    ensures forall c <- SnapshotPointers(ps, n) :: c.0 < n && c.1 in ps
    decreases n
  {
    if n > 0 {
      SnapshotPointersOk(ps, n - 1);
    }
  }

  lemma {:induction false} LastInSnapshot(ps: seq<Bytes>, n: nat, l: nat)
    requires n <= |ps| && l < |ps|
    ensures LastFor(SnapshotPointers(ps, n), l) == if l < n && ps[l] != [] then Some(ps[l]) else None
    decreases n
  {
    if n > 0 {
      LastInSnapshot(ps, n - 1, l);
      var front := SnapshotPointers(ps, n - 1);
      assert front + [] == front;
      LastOfMore(front, (n - 1, ps[n - 1]), l);
    }
  }

  lemma LastOfMore(cs: seq<(nat, Bytes)>, c: (nat, Bytes), l: nat)
    ensures LastFor(cs + [c], l) == if c.0 == l then Some(c.1) else LastFor(cs, l)
  {
    assert (cs + [c])[..|cs|] == cs;
  }

  lemma SnapshotPointersBack(ps: seq<Bytes>)
    requires |ps| == NUM_LEVELS
    ensures forall c <- SnapshotPointers(ps, NUM_LEVELS) :: c.0 < NUM_LEVELS && c.1 in ps
    ensures PointersAfter(Nothing().pointers, SnapshotPointers(ps, NUM_LEVELS)) == ps
  {
    SnapshotPointersOk(ps, NUM_LEVELS);
    var back := PointersAfter(Nothing().pointers, SnapshotPointers(ps, NUM_LEVELS));
    forall l | 0 <= l < NUM_LEVELS
      ensures back[l] == ps[l]
    {
      PointerAt(Nothing().pointers, SnapshotPointers(ps, NUM_LEVELS), l);
      LastInSnapshot(ps, NUM_LEVELS, l);
    }
  }

  /** Installing the snapshot in an empty version gives the layout. */
  lemma SnapshotStep(d: Disk, comparator: Bytes, a: Layout)
    requires |a.version| == |a.pointers| == NUM_LEVELS && |comparator| < U32
    requires AllOnDisk(d, a.version)
    requires (forall l :: 0 <= l < NUM_LEVELS ==> Listed(a.version[l])) && forall p <- a.pointers :: |p| < U32
    ensures var e := Snapshot(d, comparator, a);
      && EditStep(d, Nothing(), e, a) && E.EditOk(e)
      && forall l :: 0 <= l < NUM_LEVELS ==> AddedTo(d, e, l) == a.version[l]
  {
    var e := Snapshot(d, comparator, a);
    SnapshotFilesOk(d, a.version, NUM_LEVELS);
    SnapshotPointersBack(a.pointers);
    forall l | 0 <= l < NUM_LEVELS
      ensures AddedTo(d, e, l) == a.version[l] && Stepped([], Resolve(d, e), l, a.version[l])
    {
      SnapshotFilesAdded(d, a.version, NUM_LEVELS, l);
    }
  }

  // ---- What the manifest holds ----

  /** LogAndApply has put all numbers into the edit. */
  ghost predicate Numbered(e: E.Edit) {
    e.logNumber.Some? && e.prevLogNumber.Some? && e.nextFileNumber.Some? && e.lastSequence.Some?
  }

  ghost predicate Logged(comparator: Bytes, record: Bytes, e: E.Edit) {
    && E.EditOk(e) && record == E.EncodeFields(E.Fields(e))
    && (e.comparator.Some? ==> e.comparator.value == comparator)
  }

  ghost predicate AllLogged(comparator: Bytes, records: seq<Bytes>, es: seq<E.Edit>) {
    |records| == |es| && forall i :: 0 <= i < |es| ==> Logged(comparator, records[i], es[i])
  }

  ghost predicate Below(v: Version, number: nat) {
    forall l, f :: 0 <= l < |v| && f in v[l] ==> f.number < number
  }

  /** Only the snapshot lacks numbers, and each edit's file number is above those of its layout. */
  ghost predicate NumbersAhead(es: seq<E.Edit>, ls: seq<Layout>) {
    |ls| == |es| + 1 && (es != [] ==> es[0].nextFileNumber.None?) && forall i :: 1 <= i < |es| ==> NumberedAhead(es[i], ls[i + 1])
  }

  ghost predicate NumberedAhead(e: E.Edit, a: Layout) {
    Numbered(e) && Below(a.version, e.nextFileNumber.value)
  }

  /** All file numbers that the manifest has given to a level. */
  ghost predicate UsedBy(d: Disk, es: seq<E.Edit>, used: seq<set<nat>>) {
    |used| == NUM_LEVELS && forall e, l :: e in es && 0 <= l < NUM_LEVELS ==> Numbers(AddedTo(d, e, l)) <= used[l]
  }

  ghost predicate Holds(d: Disk, comparator: Bytes, records: seq<Bytes>, es: seq<E.Edit>, ls: seq<Layout>) {
    es != [] && AllLogged(comparator, records, es) && Stepwise(d, es, ls) && Replayable(d, es) && NumbersAhead(es, ls)
  }

  ghost function UsedAfter(d: Disk, used: seq<set<nat>>, e: E.Edit): (r: seq<set<nat>>)
    ensures |r| == |used|
  {
    seq(|used|, l requires 0 <= l < |used| => used[l] + Numbers(AddedTo(d, e, l)))
  }

  /** One more record, whose edit gives its levels only file numbers that they never had. */
  lemma HoldsMore(d: Disk, comparator: Bytes, records: seq<Bytes>, es: seq<E.Edit>, ls: seq<Layout>, used: seq<set<nat>>, record: Bytes, e: E.Edit, a: Layout)
    requires Holds(d, comparator, records, es, ls) && UsedBy(d, es, used)
    requires Logged(comparator, record, e) && NumberedAhead(e, a) && EditStep(d, ls[|es|], e, a)
    requires forall l :: 0 <= l < NUM_LEVELS ==> Numbers(AddedTo(d, e, l)) !! used[l] && DistinctNumbers(AddedTo(d, e, l))
    ensures Holds(d, comparator, records + [record], es + [e], ls + [a])
  {
    StepwiseMore(d, es, ls, e, a);
    ReplayableMore(d, es, used, e);
  }

  lemma StepwiseMore(d: Disk, es: seq<E.Edit>, ls: seq<Layout>, e: E.Edit, a: Layout)
    requires Stepwise(d, es, ls) && EditStep(d, ls[|es|], e, a)
    ensures Stepwise(d, es + [e], ls + [a])
  {
    forall i | 0 <= i < |es| + 1
      ensures StepAt(d, es + [e], ls + [a], i)
    {
      if i < |es| {
        assert StepAt(d, es, ls, i);
      }
    }
  }

  lemma ReplayableMore(d: Disk, es: seq<E.Edit>, used: seq<set<nat>>, e: E.Edit)
    requires Replayable(d, es) && UsedBy(d, es, used) && LevelsOk(e)
    requires forall l :: 0 <= l < NUM_LEVELS ==> Numbers(AddedTo(d, e, l)) !! used[l] && DistinctNumbers(AddedTo(d, e, l))
    ensures Replayable(d, es + [e])
  {
    forall l | 0 <= l < NUM_LEVELS
      ensures NeverReused([], Resolved(d, es + [e]), l)
    {
      NeverReusedMore(d, es, used, e, l);
    }
  }

  lemma NeverReusedMore(d: Disk, es: seq<E.Edit>, used: seq<set<nat>>, e: E.Edit, l: nat)
    requires l < NUM_LEVELS && NeverReused([], Resolved(d, es), l) && UsedBy(d, es, used)
    requires Numbers(AddedTo(d, e, l)) !! used[l]
    ensures NeverReused([], Resolved(d, es + [e]), l)
  {
    var vs, was := Resolved(d, es + [e]), Resolved(d, es);
    forall i, j | 0 <= i < j < |vs|
      ensures FreshNumbers(AddedAt(vs[i].added, l), AddedAt(vs[j].added, l))
    {
      if j < |es| {
        assert vs[i] == was[i] && vs[j] == was[j];
      } else {
        assert es[i] in es;
        Apart(AddedTo(d, es[i], l), AddedTo(d, e, l));
      }
    }
  }

  lemma Apart(a: seq<File>, b: seq<File>)
    requires Numbers(a) !! Numbers(b)
    ensures FreshNumbers(a, b)
  {
    forall f, g | f in a && g in b
      ensures f.number != g.number
    {
      assert f.number in Numbers(a) && g.number in Numbers(b);
    }
  }

  /** One level of the new version. */
  ghost predicate LevelOk(fs: seq<File>, used: set<nat>, next: nat) {
    && Listed(fs) && NumbersUnique(fs, fs) && Numbers(fs) <= used
    && forall n <- used :: n < next
  }

  lemma SteppedKeeps(w: seq<File>, used: set<nat>, next: nat, edit: VersionEdit, l: nat, x: seq<File>)
    requires LevelOk(w, used, next) && Stepped(w, edit, l, x)
    requires DistinctNumbers(AddedAt(edit.added, l)) && Numbers(AddedAt(edit.added, l)) !! used
    requires forall f <- AddedAt(edit.added, l) :: f.number < next
    ensures LevelOk(x, used + Numbers(AddedAt(edit.added, l)), next)
  {
    var added := AddedAt(edit.added, l);
    Apart(w, added);
  }

  // ---- The object ----

  class VersionSet {
    const disk: Disk
    const comparator: Bytes
    var version: Version
    var compactPointer: seq<Bytes>
    var nextFileNumber: nat
    var manifestFileNumber: nat
    var lastSequence: nat
    var logNumber: nat
    var prevLogNumber: nat
    /** The records of the manifest that this object writes, once it has begun one. */
    var descriptorLog: Option<seq<Bytes>>
    /** Their edits, the layout after each of them, and the file numbers each level ever had. */
    ghost var edits: seq<E.Edit>
    ghost var layouts: seq<Layout>
    ghost var used: seq<set<nat>>

    function Now(): Layout
      reads this
    {
      Layout(version, compactPointer)
    }

    ghost predicate LevelsValid()
      reads this
    {
      && |version| == |compactPointer| == |used| == NUM_LEVELS
      && forall l :: 0 <= l < NUM_LEVELS ==> LevelOk(version[l], used[l], nextFileNumber)
    }

    /** The manifest holds these edits, which lead to `a`. */
    ghost predicate LeadsTo(a: Layout)
      reads this
    {
      && descriptorLog.Some? && Holds(disk, comparator, descriptorLog.value, edits, layouts)
      && UsedBy(disk, edits, used) && layouts[|edits|] == a
    }

    ghost predicate Valid()
      reads this
    {
      && LevelsValid()
      && (descriptorLog.Some? ==> LeadsTo(Now()) && |edits| >= 2)
      && (descriptorLog.Some? ==> edits[|edits| - 1].logNumber == Some(logNumber) && edits[|edits| - 1].prevLogNumber == Some(prevLogNumber))
    }

    constructor (d: Disk, name: Bytes)
      ensures Valid() && disk == d && comparator == name && Now() == Nothing() && descriptorLog == None
    {
      disk, comparator := d, name;
      version, compactPointer := seq(NUM_LEVELS, _ => []), seq(NUM_LEVELS, _ => []);
      nextFileNumber, manifestFileNumber, lastSequence, logNumber, prevLogNumber := 2, 0, 0, 0, 0;
      descriptorLog := None;
      edits, layouts, used := [], [], seq(NUM_LEVELS, _ => {});
    }

    /** The edit as it is logged: numbers that it lacks are those of this object. */
    function Filled(e: E.Edit): E.Edit
      reads this
    {
      e.(logNumber := if e.logNumber.Some? then e.logNumber else Some(logNumber),
         prevLogNumber := if e.prevLogNumber.Some? then e.prevLogNumber else Some(prevLogNumber),
         nextFileNumber := Some(nextFileNumber), lastSequence := Some(lastSequence))
    }

    /** The edit can be encoded, and gives each level only file numbers it never had. */
    ghost predicate Acceptable(e: E.Edit)
      requires |used| == NUM_LEVELS
      reads this
    {
      && E.EditOk(Filled(e)) && (e.comparator.Some? ==> e.comparator.value == comparator)
      && forall l :: 0 <= l < NUM_LEVELS ==> NewTo(AddedTo(disk, e, l), used[l], nextFileNumber)
    }

    /** A snapshot of the present layout can be encoded. */
    ghost predicate Encodable()
      reads this
    {
      AllOnDisk(disk, version) && |comparator| < U32 && forall p <- compactPointer :: |p| < U32
    }

    /** LogAndApply, when all writes succeed: the edit is applied, logged and installed. */
    method LogAndApply(edit: E.VersionEdit)
      requires Valid() && Acceptable(edit.edit) && (descriptorLog.None? ==> Encodable())
      modifies this, edit
      ensures Valid() && edit.edit == old(Filled(edit.edit))
      ensures edit.edit.nextFileNumber == Some(nextFileNumber) && edit.edit.lastSequence == Some(lastSequence)
      ensures edit.edit.logNumber == if old(edit.edit).logNumber.Some? then old(edit.edit).logNumber else Some(old(logNumber))
      ensures edit.edit.prevLogNumber == if old(edit.edit).prevLogNumber.Some? then old(edit.edit).prevLogNumber else Some(old(prevLogNumber))
      ensures edit.edit.newFiles == old(edit.edit).newFiles && edit.edit.deletedFiles == old(edit.edit).deletedFiles && edit.edit.compactPointers == old(edit.edit).compactPointers
      ensures EditStep(disk, old(Now()), edit.edit, Now())
      ensures descriptorLog.Some? && edits[|edits| - 1] == edit.edit
      ensures old(descriptorLog.Some?) ==> edits == old(edits) + [edit.edit] && layouts == old(layouts) + [Now()] && old(descriptorLog.value) <= descriptorLog.value
      ensures old(descriptorLog.None?) ==> |edits| == 2
      ensures used == UsedAfter(disk, old(used), edit.edit)
      ensures logNumber == edit.edit.logNumber.value && prevLogNumber == edit.edit.prevLogNumber.value
      ensures nextFileNumber == old(nextFileNumber) && lastSequence == old(lastSequence)
    {
      edit.edit := Filled(edit.edit);
      var e := edit.edit;
      FreshInVersion(version, used, disk, e, nextFileNumber);
      var v := NewVersion(version, Resolve(disk, e));
      ghost var was := compactPointer;
      UpdatePointers(e.compactPointers);
      LogEdit(edit, v, was);
    }

    /** The second half: a snapshot if the manifest is new, the edit, and the new version. */
    method LogEdit(edit: E.VersionEdit, v: Version, ghost was: seq<Bytes>)
      requires LevelsValid() && EditStep(disk, Layout(version, was), edit.edit, Layout(v, compactPointer))
      requires forall l :: 0 <= l < NUM_LEVELS ==> NewTo(AddedTo(disk, edit.edit, l), used[l], nextFileNumber)
      requires E.EditOk(edit.edit) && (edit.edit.comparator.Some? ==> edit.edit.comparator.value == comparator)
      requires Numbered(edit.edit) && edit.edit.nextFileNumber.value == nextFileNumber
      requires if descriptorLog.None? then AllOnDisk(disk, version) && |comparator| < U32 && forall p <- was :: |p| < U32
               else |edits| >= 2 && LeadsTo(Layout(version, was))
      modifies this
      ensures Valid() && Now() == Layout(v, old(compactPointer))
      ensures descriptorLog.Some? && edits != [] && edits[|edits| - 1] == edit.edit
      ensures old(descriptorLog.Some?) ==> edits == old(edits) + [edit.edit] && layouts == old(layouts) + [Now()] && old(descriptorLog.value) <= descriptorLog.value
      ensures old(descriptorLog.None?) ==> |edits| == 2
      ensures used == UsedAfter(disk, old(used), edit.edit)
      ensures logNumber == edit.edit.logNumber.value && prevLogNumber == edit.edit.prevLogNumber.value
      ensures nextFileNumber == old(nextFileNumber) && lastSequence == old(lastSequence)
    {
      ghost var from := was;
      if descriptorLog.None? {
        UpdatedPointers(was, edit.edit.compactPointers);
        WriteSnapshot();
        SetTwice(disk, version, was, edit.edit, Layout(v, compactPointer));
        from := compactPointer;
      }
      var record := edit.EncodeTo([]);
      NothingBefore(E.EncodeFields(E.Fields(edit.edit)));
      Append(record, edit.edit, v, from);
    }

    /** Builder::Apply also keeps the compaction pointers of the edit. */
    method UpdatePointers(cs: seq<(nat, Bytes)>)
      requires forall c <- cs :: c.0 < |compactPointer|
      modifies this`compactPointer
      ensures compactPointer == PointersAfter(old(compactPointer), cs)
    {
      var i := 0;
      while i < |cs|
        invariant i <= |cs| && |compactPointer| == |old(compactPointer)|
        invariant compactPointer == PointersAfter(old(compactPointer), cs[..i])
      {
        assert cs[..i + 1][..i] == cs[..i] && cs[i] in cs && cs[..i + 1][i] == cs[i];
        compactPointer := compactPointer[cs[i].0 := cs[i].1];
        i := i + 1;
      }
      assert cs[..|cs|] == cs;
    }

    /** WriteSnapshot: a new manifest begins with the version that is current, and with the
        compaction pointers that the edit to be logged has set already. */
    method WriteSnapshot()
      requires LevelsValid() && Encodable() && descriptorLog.None?
      modifies this`descriptorLog, this`edits, this`layouts
      ensures LeadsTo(Now()) && |edits| == 1
    {
      var edit := new E.VersionEdit();
      edit.edit := edit.edit.(comparator := Some(comparator));
      SavePointers(edit);
      SaveFiles(edit);
      var record := edit.EncodeTo([]);
      NothingBefore(E.EncodeFields(E.Fields(edit.edit)));
      SnapshotHolds(disk, comparator, Now(), used, nextFileNumber);
      descriptorLog := Some([record]);
      edits, layouts := [Snapshot(disk, comparator, Now())], [Nothing(), Now()];
    }

    method SavePointers(edit: E.VersionEdit)
      requires |compactPointer| == NUM_LEVELS && edit.edit.compactPointers == []
      modifies edit
      ensures edit.edit == old(edit.edit).(compactPointers := SnapshotPointers(compactPointer, NUM_LEVELS))
    {
      var level := 0;
      while level < NUM_LEVELS
        invariant level <= NUM_LEVELS
        invariant edit.edit == old(edit.edit).(compactPointers := SnapshotPointers(compactPointer, level))
      {
        if compactPointer[level] != [] {
          edit.edit := edit.edit.(compactPointers := edit.edit.compactPointers + [(level, compactPointer[level])]);
        }
        level := level + 1;
      }
    }

    method SaveFiles(edit: E.VersionEdit)
      requires |version| == NUM_LEVELS && edit.edit.newFiles == []
      modifies edit
      ensures edit.edit == old(edit.edit).(newFiles := SnapshotFiles(disk, version, NUM_LEVELS))
    {
      var level := 0;
      while level < NUM_LEVELS
        invariant level <= NUM_LEVELS
        invariant edit.edit == old(edit.edit).(newFiles := SnapshotFiles(disk, version, level))
      {
        SaveLevelFiles(edit, level);
        level := level + 1;
      }
    }

    method SaveLevelFiles(edit: E.VersionEdit, level: nat)
      requires level < |version|
      modifies edit
      ensures edit.edit == old(edit.edit).(newFiles := old(edit.edit).newFiles + LevelFiles(disk, level, version[level]))
    {
      var i := 0;
      while i < |version[level]|
        invariant i <= |version[level]|
        invariant edit.edit == old(edit.edit).(newFiles := old(edit.edit).newFiles + LevelFiles(disk, level, version[level][..i]))
      {
        assert version[level][..i + 1] == version[level][..i] + [version[level][i]];
        edit.edit := edit.edit.(newFiles := edit.edit.newFiles + [(level, MetaOf(disk, version[level][i]))]);
        i := i + 1;
      }
      assert version[level][..|version[level]|] == version[level];
    }

    /** The record reaches the manifest and the version becomes current. */
    method Append(record: Bytes, e: E.Edit, v: Version, ghost from: seq<Bytes>)
      requires LevelsValid() && edits != [] && LeadsTo(Layout(version, from))
      requires Logged(comparator, record, e) && Numbered(e) && e.nextFileNumber.value == nextFileNumber
      requires EditStep(disk, Layout(version, from), e, Layout(v, compactPointer))
      requires forall l :: 0 <= l < NUM_LEVELS ==> NewTo(AddedTo(disk, e, l), used[l], nextFileNumber)
      modifies this
      ensures Valid() && version == v && compactPointer == old(compactPointer)
      ensures edits == old(edits) + [e] && layouts == old(layouts) + [Now()]
      ensures descriptorLog == Some(old(descriptorLog.value) + [record])
      ensures used == UsedAfter(disk, old(used), e)
      ensures logNumber == e.logNumber.value && prevLogNumber == e.prevLogNumber.value
      ensures nextFileNumber == old(nextFileNumber) && lastSequence == old(lastSequence)
    {
      AppendKeeps(disk, comparator, descriptorLog.value, edits, layouts, used, nextFileNumber, record, e, Layout(version, from), Layout(v, compactPointer));
      descriptorLog := Some(descriptorLog.value + [record]);
      version := v;
      logNumber, prevLogNumber := e.logNumber.value, e.prevLogNumber.value;
      edits, layouts, used := edits + [e], layouts + [Now()], UsedAfter(disk, used, e);
    }

    // ---- Recovery ----

    /** The layout is the one the edits lead to, and the numbers are the last they carry. */
    ghost predicate Restored(es: seq<E.Edit>)
      reads this
    {
      && (forall ls :: Stepwise(disk, es, ls) ==> ls[|es|] == Now())
      && var c := CountersOf(es);
      && c.logNumber == Some(logNumber) && c.lastSequence == Some(lastSequence) && c.nextFile == Some(manifestFileNumber)
      && prevLogNumber == (if c.prevLogNumber.Some? then c.prevLogNumber.value else 0)
      && nextFileNumber == manifestFileNumber + 1
    }

    /** Recover, from the manifest that CURRENT names. */
    method Recover(step: CrcStep, file: Bytes) returns (s: Status)
      requires Now() == Nothing() && descriptorLog.None?
      requires Replayable(disk, ReadEdits(step, comparator, file, START).0)
      modifies this
      ensures var r := ReadEdits(step, comparator, file, START);
        && s == (if r.1 != Fine then r.1 else Verdict(CountersOf(r.0)))
        && (s.Fine? ==> Restored(r.0) && descriptorLog.None? && (Below(version, nextFileNumber) ==> Valid()))
    {
      var builder := new Builder(version);
      var c;
      ghost var done, states;
      s, c, done, states := ReadManifest(step, file, builder);
      if !s.Fine? {
        return;
      }
      s := Verdict(c);
      MarkFileNumberUsed(if c.prevLogNumber.Some? then c.prevLogNumber.value else 0);
      MarkFileNumberUsed(if c.logNumber.Some? then c.logNumber.value else 0);
      if s.Fine? {
        InstallRecovered(builder, c, done, states);
      }
    }

    /** The loop of Recover. */
    method ReadManifest(step: CrcStep, file: Bytes, builder: Builder) returns (s: Status, c: Counters, ghost done: seq<E.Edit>, ghost states: seq<seq<LevelState>>)
      requires builder.base == Nothing().version && builder.levels == seq(NUM_LEVELS, _ => LevelState({}, []))
      requires compactPointer == Nothing().pointers
      requires Replayable(disk, ReadEdits(step, comparator, file, START).0)
      modifies builder, this`compactPointer
      ensures (done, s) == ReadEdits(step, comparator, file, START)
      ensures c == CountersOf(done) && Gathering(builder, done, states)
    {
      ghost var r := ReadEdits(step, comparator, file, START);
      var reader := new Reader(step, true, file);
      c, s, done, states := Counters(None, None, None, None), Fine, [], [builder.levels];
      while true
        invariant reader.file == file && reader.step == step && reader.checksum && reader.filePos <= |file| && fresh(reader)
        invariant Remains(r, done, ReadEdits(step, comparator, file, reader.State()))
        invariant Gathering(builder, done, states) && c == CountersOf(done)
        decreases |file| - reader.filePos + |reader.buffer|
      {
        ghost var before := reader.State();
        var record := reader.ReadRecord();
        var read := JudgeRecord(reader.reports, record);
        ReadsOn(step, comparator, file, before, reader.State(), record, read);
        if read.Stop? {
          RemainsNone(r, done, read.status);
          return read.status, c, done, states;
        }
        var e := read.edit;
        RemainsLess(r, done, ReadEdits(step, comparator, file, before), e, ReadEdits(step, comparator, file, reader.State()));
        states := ApplyRead(builder, e, done, states, r.0);
        CountersMore(done, e);
        c := Counted(c, e);
        done := done + [e];
      }
    }

    /** DecodeFrom into a fresh edit, and the comparator's name. */
    method JudgeRecord(reports: seq<nat>, record: Option<Bytes>) returns (r: Read)
      ensures r == Judge(comparator, reports, record)
    {
      if reports != [] {
        return Stop(Corruption);
      }
      if record.None? {
        return Stop(Fine);
      }
      var edit := new E.VersionEdit();
      assert E.Cleared(edit.edit.compactPointers) == E.EMPTY;
      var ok := edit.DecodeFrom(record.value);
      if !ok {
        return Stop(Corruption);
      }
      if edit.edit.comparator.Some? && edit.edit.comparator.value != comparator {
        return Stop(OtherComparator);
      }
      return More(edit.edit);
    }

    method MarkFileNumberUsed(number: nat)
      modifies this`nextFileNumber
      ensures nextFileNumber == if old(nextFileNumber) <= number then number + 1 else old(nextFileNumber)
    {
      if nextFileNumber <= number {
        nextFileNumber := number + 1;
      }
    }

    /** The builder has taken the edits done, and so have the compaction pointers. */
    ghost predicate Gathering(builder: Builder, done: seq<E.Edit>, states: seq<seq<LevelState>>)
      reads this, builder
    {
      && builder.Valid() && builder.base == Nothing().version
      && Gathered(disk, done, states) && states[|done|] == builder.levels
      && (forall e <- done :: LevelsOk(e)) && compactPointer == AllPointers(done)
    }

    method ApplyRead(builder: Builder, e: E.Edit, ghost done: seq<E.Edit>, ghost states: seq<seq<LevelState>>, ghost all: seq<E.Edit>) returns (ghost more: seq<seq<LevelState>>)
      requires Gathering(builder, done, states) && Replayable(disk, all) && done + [e] <= all
      modifies builder, this`compactPointer
      ensures Gathering(builder, done + [e], more)
    {
      BuilderTakes(disk, all, states, |done|, done);
      builder.Apply(Resolve(disk, e));
      more := states + [builder.levels];
      UpdatePointers(e.compactPointers);
      GatheredMore(disk, done, states, e, builder.levels);
      assert (done + [e])[..|done|] == done;
    }

    method InstallRecovered(builder: Builder, c: Counters, ghost done: seq<E.Edit>, ghost states: seq<seq<LevelState>>)
      requires Gathering(builder, done, states) && Replayable(disk, done) && c == CountersOf(done) && Verdict(c).Fine?
      requires descriptorLog.None?
      modifies this
      ensures Restored(done) && descriptorLog.None? && (Below(version, nextFileNumber) ==> Valid())
    {
      version := builder.SaveTo();
      LayoutRecovered(disk, done, states, version);
      manifestFileNumber := c.nextFile.value;
      nextFileNumber := c.nextFile.value + 1;
      lastSequence := c.lastSequence.value;
      logNumber := c.logNumber.value;
      prevLogNumber := if c.prevLogNumber.Some? then c.prevLogNumber.value else 0;
      used := NumbersOf(version);
      if Below(version, nextFileNumber) {
        LevelsRecovered(version, used, nextFileNumber);
      }
    }
  }

  ghost function NumbersOf(v: Version): (r: seq<set<nat>>)
    ensures |r| == |v|
  {
    seq(|v|, l requires 0 <= l < |v| => Numbers(v[l]))
  }

  lemma CountersMore(es: seq<E.Edit>, e: E.Edit)
    ensures CountersOf(es + [e]) == Counted(CountersOf(es), e)
  {
    assert (es + [e])[..|es|] == es;
  }

  lemma BuilderTakes(d: Disk, all: seq<E.Edit>, ss: seq<seq<LevelState>>, n: nat, done: seq<E.Edit>)
    requires n < |all| && done == all[..n] && Gathered(d, done, ss) && Replayable(d, all)
    ensures LevelsOk(all[n]) && |ss[n]| == NUM_LEVELS
    ensures forall l :: 0 <= l < NUM_LEVELS ==> FreshNumbers(ss[n][l].added, AddedTo(d, all[n], l)) && DistinctNumbers(AddedTo(d, all[n], l))
    ensures forall a :: a in Resolve(d, all[n]).added ==> a.0 < NUM_LEVELS
  {
    assert all[n] in all;
    forall l | 0 <= l < NUM_LEVELS
      ensures FreshNumbers(ss[n][l].added, AddedTo(d, all[n], l)) && DistinctNumbers(AddedTo(d, all[n], l))
    {
      NextIsFresh(d, all, ss, n, l);
    }
    AddedLevels(d, all[n]);
  }

  lemma AddedLevels(d: Disk, e: E.Edit)
    requires LevelsOk(e)
    ensures forall a :: a in Resolve(d, e).added ==> a.0 < NUM_LEVELS
  {
    forall a | a in Resolve(d, e).added
      ensures a.0 < NUM_LEVELS
    {
      var i :| 0 <= i < |e.newFiles| && a == (e.newFiles[i].0, Open(d, e.newFiles[i].1));
      assert e.newFiles[i] in e.newFiles;
    }
  }

  ghost predicate SavedLevels(d: Disk, es: seq<E.Edit>, ss: seq<seq<LevelState>>, v: Version) {
    && Gathered(d, es, ss) && |v| == NUM_LEVELS
    && forall l :: 0 <= l < NUM_LEVELS ==> Saved([], ss[|es|][l].deleted, ss[|es|][l].added, v[l])
  }

  lemma LayoutRecovered(d: Disk, es: seq<E.Edit>, ss: seq<seq<LevelState>>, v: Version)
    requires Replayable(d, es) && SavedLevels(d, es, ss, v)
    ensures forall ls :: Stepwise(d, es, ls) ==> ls[|es|] == Layout(v, AllPointers(es))
    ensures forall l :: 0 <= l < NUM_LEVELS ==> Listed(v[l]) && NumbersUnique(v[l], v[l])
  {
    forall ls: seq<Layout> | Stepwise(d, es, ls)
      ensures ls[|es|] == Layout(v, AllPointers(es))
    {
      RecoversLayout(d, es, ss, v, ls);
    }
    forall l | 0 <= l < NUM_LEVELS
      ensures NumbersUnique(v[l], v[l])
    {
      GatheredUnique(d, es, ss, l);
    }
  }

  lemma RecoversLayout(d: Disk, es: seq<E.Edit>, ss: seq<seq<LevelState>>, v: Version, ls: seq<Layout>)
    requires Replayable(d, es) && SavedLevels(d, es, ss, v) && Stepwise(d, es, ls)
    ensures ls[|es|] == Layout(v, AllPointers(es))
  {
    var a := ls[|es|];
    ReplayedLevel(d, es, ss, ls, 0, v[0]);
    forall l | 0 <= l < NUM_LEVELS
      ensures v[l] == a.version[l]
    {
      ReplayedLevel(d, es, ss, ls, l, v[l]);
    }
    ReplayedPointers(d, es, ls, |es|);
    assert es[..|es|] == es;
  }

  lemma AddedUnique(d: Disk, es: seq<E.Edit>, l: nat, i: nat, j: nat, f: File, g: File)
    requires Replayable(d, es) && l < NUM_LEVELS && i < |es| && j < |es|
    requires f in AddedTo(d, es[i], l) && g in AddedTo(d, es[j], l) && f.number == g.number
    ensures f == g
  {
    if i < j {
      AddedLater(d, es, i, j, l);
      assert false;
    } else if j < i {
      AddedLater(d, es, j, i, l);
      assert false;
    } else {
      assert es[i] in es && DistinctNumbers(AddedTo(d, es[i], l));
    }
  }

  lemma GatheredUnique(d: Disk, es: seq<E.Edit>, ss: seq<seq<LevelState>>, l: nat)
    requires Replayable(d, es) && Gathered(d, es, ss) && l < NUM_LEVELS
    ensures NumbersUnique(ss[|es|][l].added, ss[|es|][l].added)
  {
    var fs := ss[|es|][l].added;
    forall f, g | f in fs && g in fs && f.number == g.number
      ensures f == g
    {
      GatheredFrom(d, es, ss, |es|, l, f);
      GatheredFrom(d, es, ss, |es|, l, g);
      var i :| 0 <= i < |es| && f in AddedTo(d, es[i], l);
      var j :| 0 <= j < |es| && g in AddedTo(d, es[j], l);
      AddedUnique(d, es, l, i, j, f, g);
    }
  }

  lemma LevelsRecovered(v: Version, used: seq<set<nat>>, next: nat)
    requires |v| == NUM_LEVELS && used == NumbersOf(v) && Below(v, next)
    requires forall l :: 0 <= l < NUM_LEVELS ==> Listed(v[l]) && NumbersUnique(v[l], v[l])
    ensures forall l :: 0 <= l < NUM_LEVELS ==> LevelOk(v[l], used[l], next)
  {}

  ghost predicate Remains(all: (seq<E.Edit>, Status), done: seq<E.Edit>, rest: (seq<E.Edit>, Status)) {
    all.0 == done + rest.0 && all.1 == rest.1
  }

  lemma RemainsNone(all: (seq<E.Edit>, Status), done: seq<E.Edit>, status: Status)
    requires Remains(all, done, ([], status))
    ensures all == (done, status)
  {
    assert done + [] == done;
  }

  lemma ReadsOn(step: CrcStep, comparator: Bytes, file: Bytes, s: ReaderState, s1: ReaderState, record: Option<Bytes>, read: Read)
    requires s.filePos <= |file| && s1.filePos <= |file| && ReadLoop(step, true, file, s, [], false) == (s1, record)
    requires read == Judge(comparator, s1.reports, record)
    ensures match read
            case Stop(status) => ReadEdits(step, comparator, file, s) == ([], status)
            case More(e) => ReadEdits(step, comparator, file, s) == ([e] + ReadEdits(step, comparator, file, s1).0, ReadEdits(step, comparator, file, s1).1)
  {}

  lemma RemainsLess(all: (seq<E.Edit>, Status), done: seq<E.Edit>, rest: (seq<E.Edit>, Status), e: E.Edit, less: (seq<E.Edit>, Status))
    requires Remains(all, done, rest) && rest == ([e] + less.0, less.1)
    ensures Remains(all, done + [e], less) && done + [e] <= all.0
  {
    assert done + ([e] + less.0) == done + [e] + less.0;
  }

  lemma SetTwice(d: Disk, v: Version, was: seq<Bytes>, e: E.Edit, b: Layout)
    requires EditStep(d, Layout(v, was), e, b)
    ensures EditStep(d, Layout(v, b.pointers), e, b)
  {
    PointersTwice(was, e.compactPointers);
  }

  lemma UpdatedPointers(ps: seq<Bytes>, cs: seq<(nat, Bytes)>)
    requires (forall c <- cs :: c.0 < |ps| && |c.1| < U32) && forall p <- ps :: |p| < U32
    ensures forall p <- PointersAfter(ps, cs) :: |p| < U32
  {
    if cs != [] {
      assert cs[|cs| - 1] in cs;
      UpdatedPointers(ps, cs[..|cs| - 1]);
    }
  }

  /** The manifest that holds a snapshot only. */
  lemma SnapshotHolds(d: Disk, comparator: Bytes, a: Layout, used: seq<set<nat>>, next: nat)
    requires |a.version| == |a.pointers| == |used| == NUM_LEVELS && |comparator| < U32
    requires AllOnDisk(d, a.version) && forall p <- a.pointers :: |p| < U32
    requires forall l :: 0 <= l < NUM_LEVELS ==> LevelOk(a.version[l], used[l], next)
    ensures var e := Snapshot(d, comparator, a);
      Holds(d, comparator, [E.EncodeFields(E.Fields(e))], [e], [Nothing(), a]) && UsedBy(d, [e], used)
  {
    var e := Snapshot(d, comparator, a);
    SnapshotStep(d, comparator, a);
    assert StepAt(d, [e], [Nothing(), a], 0);
    OneReplayable(d, e, a.version, used, next);
  }

  lemma OneReplayable(d: Disk, e: E.Edit, v: Version, used: seq<set<nat>>, next: nat)
    requires |v| == |used| == NUM_LEVELS && LevelsOk(e)
    requires forall l :: 0 <= l < NUM_LEVELS ==> LevelOk(v[l], used[l], next) && AddedTo(d, e, l) == v[l]
    ensures Replayable(d, [e]) && UsedBy(d, [e], used)
  {
    forall l | 0 <= l < NUM_LEVELS
      ensures DistinctNumbers(AddedTo(d, e, l)) && NeverReused([], Resolved(d, [e]), l)
    {
      ListedDistinct(v[l]);
    }
  }

  lemma NothingBefore(b: Bytes)
    ensures [] + b == b
  {}

  lemma ListedDistinct(fs: seq<File>)
    requires Listed(fs) && NumbersUnique(fs, fs)
    ensures DistinctNumbers(fs)
  {
    forall i, j | 0 <= i < j < |fs|
      ensures fs[i].number != fs[j].number
    {
      assert fs[i] in fs && fs[j] in fs && BySmallest(fs[i], fs[j]);
    }
  }

  lemma LevelsKept(w: Version, used: seq<set<nat>>, next: nat, d: Disk, e: E.Edit, v: Version, now: seq<set<nat>>)
    requires |w| == |v| == |used| == |now| == NUM_LEVELS
    requires forall l :: 0 <= l < NUM_LEVELS ==> LevelOk(w[l], used[l], next) && NewTo(AddedTo(d, e, l), used[l], next)
    requires forall l :: 0 <= l < NUM_LEVELS ==> Stepped(w[l], Resolve(d, e), l, v[l]) && now[l] == used[l] + Numbers(AddedTo(d, e, l))
    ensures forall l :: 0 <= l < NUM_LEVELS ==> LevelOk(v[l], now[l], next)
    ensures Below(v, next)
  {
    forall l | 0 <= l < NUM_LEVELS
      ensures LevelOk(v[l], now[l], next)
    {
      SteppedKeeps(w[l], used[l], next, Resolve(d, e), l, v[l]);
    }
    forall l, f | 0 <= l < |v| && f in v[l]
      ensures f.number < next
    {
      assert LevelOk(v[l], now[l], next) && f.number in Numbers(v[l]);
    }
  }

  lemma AppendKeeps(d: Disk, comparator: Bytes, records: seq<Bytes>, es: seq<E.Edit>, ls: seq<Layout>, used: seq<set<nat>>, next: nat, record: Bytes, e: E.Edit, a: Layout, b: Layout)
    requires Holds(d, comparator, records, es, ls) && UsedBy(d, es, used) && ls[|es|] == a && |a.version| == NUM_LEVELS
    requires Logged(comparator, record, e) && Numbered(e) && e.nextFileNumber.value == next && EditStep(d, a, e, b)
    requires forall l :: 0 <= l < NUM_LEVELS ==> LevelOk(a.version[l], used[l], next) && NewTo(AddedTo(d, e, l), used[l], next)
    ensures Holds(d, comparator, records + [record], es + [e], ls + [b]) && UsedBy(d, es + [e], UsedAfter(d, used, e))
    ensures forall l :: 0 <= l < NUM_LEVELS ==> LevelOk(b.version[l], UsedAfter(d, used, e)[l], next)
  {
    LevelsKept(a.version, used, next, d, e, b.version, UsedAfter(d, used, e));
    HoldsMore(d, comparator, records, es, ls, used, record, e, b);
    UsedMore(d, es, used, e, UsedAfter(d, used, e));
  }

  lemma UsedMore(d: Disk, es: seq<E.Edit>, used: seq<set<nat>>, e: E.Edit, now: seq<set<nat>>)
    requires UsedBy(d, es, used) && |now| == NUM_LEVELS
    requires forall l :: 0 <= l < NUM_LEVELS ==> now[l] == used[l] + Numbers(AddedTo(d, e, l))
    ensures UsedBy(d, es + [e], now)
  {}

  ghost predicate NewTo(added: seq<File>, used: set<nat>, next: nat) {
    DistinctNumbers(added) && Numbers(added) !! used && forall f <- added :: f.number < next
  }

  lemma FreshInVersion(v: Version, used: seq<set<nat>>, d: Disk, e: E.Edit, next: nat)
    requires |v| == |used| == NUM_LEVELS && forall l :: 0 <= l < NUM_LEVELS ==> LevelOk(v[l], used[l], next)
    requires E.EditOk(e) && forall l :: 0 <= l < NUM_LEVELS ==> NewTo(AddedTo(d, e, l), used[l], next)
    ensures LevelsOk(e) && forall a :: a in Resolve(d, e).added ==> a.0 < NUM_LEVELS
    ensures forall l :: 0 <= l < NUM_LEVELS ==> FreshNumbers(v[l], AddedTo(d, e, l))
  {
    forall l | 0 <= l < NUM_LEVELS
      ensures FreshNumbers(v[l], AddedTo(d, e, l))
    {
      Apart(v[l], AddedTo(d, e, l));
    }
    AddedLevels(d, e);
  }

  // ---- A crash ----

  lemma LoggedReads(comparator: Bytes, record: Bytes, e: E.Edit)
    requires Logged(comparator, record, e)
    ensures Judge(comparator, [], Some(record)) == More(e)
  {
    E.EditRoundTrip(e, []);
    assert [] + e.compactPointers == e.compactPointers;
  }

  lemma FirstAndRest(es: seq<E.Edit>)
    requires es != []
    ensures [es[0]] + es[1..] == es
  {}

  lemma {:induction false} ServedEdits(step: CrcStep, comparator: Bytes, file: Bytes, s: ReaderState, records: seq<Bytes>, es: seq<E.Edit>, s2: ReaderState, s3: ReaderState)
    requires AllLogged(comparator, records, es) && s.reports == []
    requires LogRoundTrip.Serves(step, true, file, s, records, s2) && s2.filePos <= |file|
    requires ReadLoop(step, true, file, s2, [], false) == (s3, None) && s3.reports == []
    ensures s.filePos <= |file| && ReadEdits(step, comparator, file, s) == (es, Fine)
    decreases |records|
  {
    if records == [] {
      ReadsOn(step, comparator, file, s, s3, None, Stop(Fine));
    } else {
      var s1 := LogRoundTrip.ServesFirst(step, file, s, records, s2);
      assert Logged(comparator, records[0], es[0]);
      LoggedReads(comparator, records[0], es[0]);
      ReadsOn(step, comparator, file, s, s1, Some(records[0]), More(es[0]));
      ServedEdits(step, comparator, file, s1, records[1..], es[1..], s2, s3);
      FirstAndRest(es);
    }
  }

  /** A manifest cut off after n bytes still yields the edits of its complete records. */
  lemma ManifestReadsBack(step: CrcStep, comparator: Bytes, records: seq<Bytes>, es: seq<E.Edit>, n: nat) returns (k: nat)
    requires AllLogged(comparator, records, es) && n <= |LogFormat.LogOf(step, records)|
    ensures LogRoundTrip.Complete(step, records, n, k) && (n == |LogFormat.LogOf(step, records)| ==> k == |es|)
    ensures ReadEdits(step, comparator, LogFormat.LogOf(step, records)[..n], START) == (es[..k], Fine)
  {
    var s2, s3;
    k, s2, s3 := LogRoundTrip.TruncatedLogServes(step, true, records, n);
    ServedEdits(step, comparator, LogFormat.LogOf(step, records)[..n], START, records[..k], es[..k], s2, s3);
  }

  lemma HoldsPrefix(d: Disk, comparator: Bytes, records: seq<Bytes>, es: seq<E.Edit>, ls: seq<Layout>, k: nat)
    requires Holds(d, comparator, records, es, ls) && k <= |es|
    ensures Stepwise(d, es[..k], ls[..k + 1]) && Replayable(d, es[..k])
    ensures Verdict(CountersOf(es[..k])) == if k >= 2 then Fine else NoNextFile
    ensures k >= 2 ==> Numbered(es[k - 1]) && Below(ls[k].version, es[k - 1].nextFileNumber.value)
    ensures k >= 2 ==> CountersOf(es[..k]) == Counters(es[k - 1].logNumber, es[k - 1].prevLogNumber, es[k - 1].nextFileNumber, es[k - 1].lastSequence)
  {
    StepwisePrefix(d, es, ls, k);
    ReplayablePrefix(d, es, k);
    if k > 0 {
      assert es[..k][..k - 1] == es[..k - 1];
      assert k >= 2 ==> NumberedAhead(es[k - 1], ls[k - 1 + 1]);
    }
    if k == 1 {
      assert CountersOf(es[..0]).nextFile.None?;
    }
  }

  lemma StepwisePrefix(d: Disk, es: seq<E.Edit>, ls: seq<Layout>, k: nat)
    requires Stepwise(d, es, ls) && k <= |es|
    ensures Stepwise(d, es[..k], ls[..k + 1])
  {
    var fs, ms := es[..k], ls[..k + 1];
    forall i | 0 <= i < k
      ensures StepAt(d, fs, ms, i)
    {
      assert StepAt(d, es, ls, i);
    }
  }

  lemma ReplayablePrefix(d: Disk, es: seq<E.Edit>, k: nat)
    requires Replayable(d, es) && k <= |es|
    ensures Replayable(d, es[..k])
  {
    forall l | 0 <= l < NUM_LEVELS
      ensures NeverReused([], Resolved(d, es[..k]), l)
    {
      var vs := Resolved(d, es[..k]);
      forall i, j | 0 <= i < j < k
        ensures FreshNumbers(AddedAt(vs[i].added, l), AddedAt(vs[j].added, l))
      {
        AddedLater(d, es, i, j, l);
      }
    }
  }

  lemma RestoredPrefix(back: VersionSet, comparator: Bytes, records: seq<Bytes>, es: seq<E.Edit>, ls: seq<Layout>, k: nat)
    requires Holds(back.disk, comparator, records, es, ls) && 2 <= k <= |es| && back.Restored(es[..k])
    ensures back.Now() == ls[k] && Below(back.version, back.nextFileNumber)
    ensures es[k - 1].logNumber == Some(back.logNumber) && es[k - 1].prevLogNumber == Some(back.prevLogNumber)
    ensures es[k - 1].lastSequence == Some(back.lastSequence) && es[k - 1].nextFileNumber == Some(back.manifestFileNumber)
    ensures back.nextFileNumber == back.manifestFileNumber + 1
  {
    HoldsPrefix(back.disk, comparator, records, es, ls, k);
    assert ls[..k + 1][|es[..k]|] == ls[k];
  }

  /** A new VersionSet recovers from any first part of such a manifest. */
  method RecoverCut(d: Disk, comparator: Bytes, step: CrcStep, records: seq<Bytes>, n: nat, ghost es: seq<E.Edit>, ghost ls: seq<Layout>) returns (back: VersionSet, s: Status, ghost k: nat)
    requires Holds(d, comparator, records, es, ls) && n <= |LogFormat.LogOf(step, records)|
    ensures LogRoundTrip.Complete(step, records, n, k) && k <= |es| && (n == |LogFormat.LogOf(step, records)| ==> k == |es|)
    ensures s == if k >= 2 then Fine else NoNextFile
    ensures k >= 2 ==> back.Valid() && back.Now() == ls[k]
    ensures k >= 2 ==> es[k - 1].logNumber == Some(back.logNumber) && es[k - 1].prevLogNumber == Some(back.prevLogNumber)
    ensures k >= 2 ==> es[k - 1].lastSequence == Some(back.lastSequence) && es[k - 1].nextFileNumber == Some(back.manifestFileNumber)
    ensures k >= 2 ==> back.nextFileNumber == back.manifestFileNumber + 1
  {
    back := new VersionSet(d, comparator);
    k := ManifestReadsBack(step, comparator, records, es, n);
    HoldsPrefix(d, comparator, records, es, ls, k);
    s := back.Recover(step, LogFormat.LogOf(step, records)[..n]);
    if k >= 2 {
      RestoredPrefix(back, comparator, records, es, ls, k);
    }
  }

  /** Recovery from a manifest of which any first part has reached the disk: it restores the
      layout and the numbers after the last complete edit, all of it if the manifest is complete.
      Before the first edit is complete, when CURRENT does not name the manifest yet, it fails. */
  method CrashAndRecover(vs: VersionSet, step: CrcStep, n: nat) returns (back: VersionSet, s: Status, ghost k: nat)
    requires vs.Valid() && vs.descriptorLog.Some? && n <= |LogFormat.LogOf(step, vs.descriptorLog.value)|
    ensures LogRoundTrip.Complete(step, vs.descriptorLog.value, n, k) && k <= |vs.edits| < |vs.layouts|
    ensures s == if k >= 2 then Fine else NoNextFile
    ensures k >= 2 ==> back.Valid() && back.Now() == vs.layouts[k]
    ensures k >= 2 ==> vs.edits[k - 1].logNumber == Some(back.logNumber) && vs.edits[k - 1].prevLogNumber == Some(back.prevLogNumber)
    ensures k >= 2 ==> vs.edits[k - 1].lastSequence == Some(back.lastSequence) && vs.edits[k - 1].nextFileNumber == Some(back.manifestFileNumber)
    ensures k >= 2 ==> back.nextFileNumber == back.manifestFileNumber + 1
    ensures n == |LogFormat.LogOf(step, vs.descriptorLog.value)| ==>
      s.Fine? && back.Now() == vs.Now() && back.logNumber == vs.logNumber && back.prevLogNumber == vs.prevLogNumber
  {
    back, s, k := RecoverCut(vs.disk, vs.comparator, step, vs.descriptorLog.value, n, vs.edits, vs.layouts);
  }
}
