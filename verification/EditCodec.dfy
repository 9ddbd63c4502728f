/** The serialized form of a VersionEdit: tagged fields, in the manifest. */
module EditCodec {
  import opened Keys
  import opened Coding

  const LEVELS: nat := 7

  datatype Field =
    | Comparator(name: Bytes)
    | LogNumber(number: nat)
    | NextFileNumber(number: nat)
    | LastSequence(number: nat)
    | CompactPointer(level: nat, key: Bytes)
    | DeletedFile(level: nat, number: nat)
    | NewFile(level: nat, file: FileMetaData)
    | PrevLogNumber(number: nat)

  datatype FileMetaData = FileMetaData(number: nat, size: nat, smallest: Bytes, largest: Bytes)

  function TagOf(f: Field): nat {
    match f
    case Comparator(_) => 1
    case LogNumber(_) => 2
    case NextFileNumber(_) => 3
    case LastSequence(_) => 4
    case CompactPointer(_, _) => 5
    case DeletedFile(_, _) => 6
    case NewFile(_, _) => 7
    case PrevLogNumber(_) => 9
  }

  function Body(f: Field): Bytes {
    match f
    case Comparator(name) => PutSlice(name)
    case LogNumber(n) => EncodeVarint(n)
    case NextFileNumber(n) => EncodeVarint(n)
    case LastSequence(n) => EncodeVarint(n)
    case PrevLogNumber(n) => EncodeVarint(n)
    case CompactPointer(level, key) => EncodeVarint(level) + PutSlice(key)
    case DeletedFile(level, n) => EncodeVarint(level) + EncodeVarint(n)
    case NewFile(level, file) => EncodeVarint(level) + FileBytes(file)
  }

  function FileBytes(f: FileMetaData): Bytes {
    EncodeVarint(f.number) + (EncodeVarint(f.size) + (PutSlice(f.smallest) + PutSlice(f.largest)))
  }

  function EncodeField(f: Field): Bytes {
    EncodeVarint(TagOf(f)) + Body(f)
  }

  function EncodeFields(fs: seq<Field>): Bytes {
    if fs == [] then [] else EncodeField(fs[0]) + EncodeFields(fs[1..])
  }

  function GetLevel(b: Bytes): Option<(nat, Bytes)> {
    match GetVarint32(b)
    case None => None
    case Some(v) => if v.0 < LEVELS then Some(v) else None
  }

  function GetFile(b: Bytes): (r: Option<(FileMetaData, Bytes)>)
    ensures r.Some? ==> |r.value.1| < |b|
  {
    match GetVarint64(b)
    case None => None
    case Some(n) =>
      match GetVarint64(n.1)
      case None => None
      case Some(z) =>
        match GetSlice(z.1)
        case None => None
        case Some(s) =>
          match GetSlice(s.1)
          case None => None
          case Some(l) => Some((FileMetaData(n.0, z.0, s.0, l.0), l.1))
  }

  /** The field behind a tag, and what follows it. */
  function ParseBody(tag: nat, b: Bytes): (r: Option<(Field, Bytes)>)
    ensures r.Some? ==> |r.value.1| < |b|
  {
    if tag == 1 then
      match GetSlice(b) case None => None case Some(s) => Some((Comparator(s.0), s.1))
    else if tag == 2 || tag == 3 || tag == 4 || tag == 9 then
      match GetVarint64(b)
      case None => None
      case Some(n) => Some((if tag == 2 then LogNumber(n.0) else if tag == 3 then NextFileNumber(n.0) else if tag == 4 then LastSequence(n.0) else PrevLogNumber(n.0), n.1))
    else if tag == 5 || tag == 6 || tag == 7 then
      match GetLevel(b)
      case None => None
      case Some(v) => ParseAtLevel(tag, v.0, v.1)
    else None
  }

  function ParseAtLevel(tag: nat, level: nat, b: Bytes): (r: Option<(Field, Bytes)>)
    ensures r.Some? ==> |r.value.1| < |b|
  {
    if tag == 5 then
      match GetSlice(b) case None => None case Some(k) => Some((CompactPointer(level, k.0), k.1))
    else if tag == 6 then
      match GetVarint64(b) case None => None case Some(n) => Some((DeletedFile(level, n.0), n.1))
    else
      match GetFile(b) case None => None case Some(f) => Some((NewFile(level, f.0), f.1))
  }

  // ---- Edits ----

  datatype Edit = Edit(
    comparator: Option<Bytes>, logNumber: Option<nat>, prevLogNumber: Option<nat>,
    nextFileNumber: Option<nat>, lastSequence: Option<nat>,
    compactPointers: seq<(nat, Bytes)>, deletedFiles: set<(nat, nat)>, newFiles: seq<(nat, FileMetaData)>)

  const EMPTY := Edit(None, None, None, None, None, [], {}, [])

  function Apply(e: Edit, f: Field): Edit {
    match f
    case Comparator(name) => e.(comparator := Some(name))
    case LogNumber(n) => e.(logNumber := Some(n))
    case PrevLogNumber(n) => e.(prevLogNumber := Some(n))
    case NextFileNumber(n) => e.(nextFileNumber := Some(n))
    case LastSequence(n) => e.(lastSequence := Some(n))
    case CompactPointer(level, key) => e.(compactPointers := e.compactPointers + [(level, key)])
    case DeletedFile(level, n) => e.(deletedFiles := e.deletedFiles + {(level, n)})
    case NewFile(level, file) => e.(newFiles := e.newFiles + [(level, file)])
  }

  function ApplyAll(e: Edit, fs: seq<Field>): Edit
    decreases |fs|
  {
    if fs == [] then e else ApplyAll(Apply(e, fs[0]), fs[1..])
  }

  /** DecodeFrom, after Clear: the edit, and whether the input was well formed. */
  function Decode(b: Bytes, e: Edit): (Edit, bool)
    decreases |b|
  {
    match GetVarint32(b)
    case None => (e, b == [])
    case Some(t) =>
      match ParseBody(t.0, t.1)
      case None => (e, false)
      case Some(f) => Decode(f.1, Apply(e, f.0))
  }

  ghost predicate FieldOk(f: Field) {
    match f
    case Comparator(name) => |name| < U32
    case LogNumber(n) => n < U64
    case NextFileNumber(n) => n < U64
    case LastSequence(n) => n < U64
    case PrevLogNumber(n) => n < U64
    case CompactPointer(level, key) => level < LEVELS && |key| < U32
    case DeletedFile(level, n) => level < LEVELS && n < U64
    case NewFile(level, f) => level < LEVELS && FileOk(f)
  }

  ghost predicate FileOk(f: FileMetaData) {
    f.number < U64 && f.size < U64 && |f.smallest| < U32 && |f.largest| < U32
  }

  lemma FileRoundTrip(f: FileMetaData, rest: Bytes)
    requires FileOk(f)
    ensures GetFile(FileBytes(f) + rest) == Some((f, rest))
  {
    var n, z, s, l := EncodeVarint(f.number), EncodeVarint(f.size), PutSlice(f.smallest), PutSlice(f.largest);
    Join(n, z + (s + l), rest);
    Join(z, s + l, rest);
    Join(s, l, rest);
    Varint64RoundTrip(f.number, z + (s + (l + rest)));
    Varint64RoundTrip(f.size, s + (l + rest));
    SliceRoundTrip(f.smallest, l + rest);
    SliceRoundTrip(f.largest, rest);
  }

  lemma LevelRoundTrip(level: nat, rest: Bytes)
    requires level < LEVELS
    ensures GetLevel(EncodeVarint(level) + rest) == Some((level, rest))
  {
    Varint32RoundTrip(level, rest);
  }

  lemma BodyRoundTrip(f: Field, rest: Bytes)
    requires FieldOk(f)
    ensures ParseBody(TagOf(f), Body(f) + rest) == Some((f, rest))
  {
    match f
    case Comparator(name) => SliceRoundTrip(name, rest);
    case LogNumber(n) => Varint64RoundTrip(n, rest);
    case NextFileNumber(n) => Varint64RoundTrip(n, rest);
    case LastSequence(n) => Varint64RoundTrip(n, rest);
    case PrevLogNumber(n) => Varint64RoundTrip(n, rest);
    case CompactPointer(level, key) =>
      Join(EncodeVarint(level), PutSlice(key), rest);
      LevelRoundTrip(level, PutSlice(key) + rest);
      AtLevel(5, Body(f) + rest, level, PutSlice(key) + rest);
      SliceRoundTrip(key, rest);
    case DeletedFile(level, n) =>
      Join(EncodeVarint(level), EncodeVarint(n), rest);
      LevelRoundTrip(level, EncodeVarint(n) + rest);
      AtLevel(6, Body(f) + rest, level, EncodeVarint(n) + rest);
      Varint64RoundTrip(n, rest);
    case NewFile(level, file) =>
      Join(EncodeVarint(level), FileBytes(file), rest);
      NewFileRoundTrip(level, file, FileBytes(file) + rest, rest);
  }

  lemma NewFileRoundTrip(level: nat, file: FileMetaData, b: Bytes, rest: Bytes)
    requires level < LEVELS && FileOk(file) && b == FileBytes(file) + rest
    ensures ParseBody(7, EncodeVarint(level) + b) == Some((NewFile(level, file), rest))
  {
    LevelRoundTrip(level, b);
    FileRoundTrip(file, rest);
    AtLevel(7, EncodeVarint(level) + b, level, b);
  }

  lemma AtLevel(tag: nat, b: Bytes, level: nat, body: Bytes)
    requires 5 <= tag <= 7 && GetLevel(b) == Some((level, body))
    ensures ParseBody(tag, b) == ParseAtLevel(tag, level, body)
  {}

  lemma DecodeFirst(b: Bytes, e: Edit, tag: nat, body: Bytes, f: Field, rest: Bytes)
    requires GetVarint32(b) == Some((tag, body)) && ParseBody(tag, body) == Some((f, rest))
    ensures Decode(b, e) == Decode(rest, Apply(e, f))
  {}

  lemma {:induction false} DecodeFields(fs: seq<Field>, e: Edit)
    requires forall i :: 0 <= i < |fs| ==> FieldOk(fs[i])
    ensures Decode(EncodeFields(fs), e) == (ApplyAll(e, fs), true)
    decreases |fs|
  {
    if fs != [] {
      var f, rest := fs[0], EncodeFields(fs[1..]);
      Join(EncodeVarint(TagOf(f)), Body(f), rest);
      Varint32RoundTrip(TagOf(f), Body(f) + rest);
      BodyRoundTrip(f, rest);
      DecodeFirst(EncodeFields(fs), e, TagOf(f), Body(f) + rest, f, rest);
      DecodeFields(fs[1..], Apply(e, f));
    }
  }

  // ---- The order in which EncodeTo writes ----

  /** The order of a std::set of pairs. */
  predicate Before(a: (nat, nat), b: (nat, nat)) {
    a.0 < b.0 || (a.0 == b.0 && a.1 <= b.1)
  }

  lemma {:induction false} LeastExists(s: set<(nat, nat)>) returns (m: (nat, nat))
    requires s != {}
    ensures m in s && forall x <- s :: Before(m, x)
    decreases |s|
  {
    m :| m in s;
    if s != {m} {
      var rest := s - {m};
      assert s == rest + {m};
      var n := LeastExists(rest);
      assert forall x <- s :: x == m || x in rest;
      if Before(n, m) {
        m := n;
      }
    }
  }

  lemma HasLeast(s: set<(nat, nat)>)
    requires s != {}
    ensures exists m :: m in s && forall x <- s :: Before(m, x)
  {
    var m := LeastExists(s);
  }

  ghost function Ascending(s: set<(nat, nat)>): (r: seq<(nat, nat)>)
    ensures forall x :: x in r <==> x in s
    decreases |s|
  {
    if s == {} then [] else
      HasLeast(s);
      var m :| m in s && forall x <- s :: Before(m, x);
      var r := Ascending(s - {m});
      assert forall x :: x in [m] + r <==> x in s;
      [m] + r
  }

  function Head(e: Edit): seq<Field> {
    (if e.comparator.Some? then [Comparator(e.comparator.value)] else [])
    + (if e.logNumber.Some? then [LogNumber(e.logNumber.value)] else [])
    + (if e.prevLogNumber.Some? then [PrevLogNumber(e.prevLogNumber.value)] else [])
    + (if e.nextFileNumber.Some? then [NextFileNumber(e.nextFileNumber.value)] else [])
    + (if e.lastSequence.Some? then [LastSequence(e.lastSequence.value)] else [])
  }

  function Pointers(ps: seq<(nat, Bytes)>): seq<Field> {
    seq(|ps|, i requires 0 <= i < |ps| => CompactPointer(ps[i].0, ps[i].1))
  }

  function Deletions(ds: seq<(nat, nat)>): seq<Field> {
    seq(|ds|, i requires 0 <= i < |ds| => DeletedFile(ds[i].0, ds[i].1))
  }

  function Additions(fs: seq<(nat, FileMetaData)>): seq<Field> {
    seq(|fs|, i requires 0 <= i < |fs| => NewFile(fs[i].0, fs[i].1))
  }

  ghost function Fields(e: Edit): seq<Field> {
    Head(e) + Pointers(e.compactPointers) + Deletions(Ascending(e.deletedFiles)) + Additions(e.newFiles)
  }

  lemma {:induction false} ApplyAppend(e: Edit, a: seq<Field>, b: seq<Field>)
    ensures ApplyAll(e, a + b) == ApplyAll(ApplyAll(e, a), b)
    decreases |a|
  {
    if a == [] {
      assert a + b == b;
    } else {
      assert (a + b)[0] == a[0] && (a + b)[1..] == a[1..] + b;
      ApplyAppend(Apply(e, a[0]), a[1..], b);
    }
  }

  lemma {:induction false} ApplyPointers(e: Edit, ps: seq<(nat, Bytes)>)
    ensures ApplyAll(e, Pointers(ps)) == e.(compactPointers := e.compactPointers + ps)
    decreases |ps|
  {
    if ps == [] {
      assert e.compactPointers + ps == e.compactPointers;
    } else {
      assert Pointers(ps)[1..] == Pointers(ps[1..]);
      ApplyPointers(Apply(e, Pointers(ps)[0]), ps[1..]);
      assert e.compactPointers + [ps[0]] + ps[1..] == e.compactPointers + ps;
    }
  }

  lemma {:induction false} ApplyDeletions(e: Edit, ds: seq<(nat, nat)>)
    ensures ApplyAll(e, Deletions(ds)) == e.(deletedFiles := e.deletedFiles + set d <- ds)
    decreases |ds|
  {
    if ds == [] {
      assert (e.deletedFiles + set d <- ds) == e.deletedFiles;
    } else {
      assert Deletions(ds)[1..] == Deletions(ds[1..]);
      ApplyDeletions(Apply(e, Deletions(ds)[0]), ds[1..]);
      assert ds == [ds[0]] + ds[1..];
      assert (e.deletedFiles + {ds[0]} + set d <- ds[1..]) == (e.deletedFiles + set d <- ds);
    }
  }

  lemma {:induction false} ApplyAdditions(e: Edit, fs: seq<(nat, FileMetaData)>)
    ensures ApplyAll(e, Additions(fs)) == e.(newFiles := e.newFiles + fs)
    decreases |fs|
  {
    if fs == [] {
      assert e.newFiles + fs == e.newFiles;
    } else {
      assert Additions(fs)[1..] == Additions(fs[1..]);
      ApplyAdditions(Apply(e, Additions(fs)[0]), fs[1..]);
      assert e.newFiles + [fs[0]] + fs[1..] == e.newFiles + fs;
    }
  }

  /** What Clear leaves: it does not clear the compaction pointers. */
  function Cleared(ps: seq<(nat, Bytes)>): Edit {
    EMPTY.(compactPointers := ps)
  }

  lemma ApplyHead(e: Edit, ps: seq<(nat, Bytes)>)
    ensures ApplyAll(Cleared(ps), Head(e)) == Cleared(ps).(comparator := e.comparator, logNumber := e.logNumber, prevLogNumber := e.prevLogNumber,
                                                  nextFileNumber := e.nextFileNumber, lastSequence := e.lastSequence)
  {
    var a := if e.comparator.Some? then [Comparator(e.comparator.value)] else [];
    var b := if e.logNumber.Some? then [LogNumber(e.logNumber.value)] else [];
    var c := if e.prevLogNumber.Some? then [PrevLogNumber(e.prevLogNumber.value)] else [];
    var d := if e.nextFileNumber.Some? then [NextFileNumber(e.nextFileNumber.value)] else [];
    var l := if e.lastSequence.Some? then [LastSequence(e.lastSequence.value)] else [];
    ApplyAppend(Cleared(ps), a + b + c + d, l);
    ApplyAppend(Cleared(ps), a + b + c, d);
    ApplyAppend(Cleared(ps), a + b, c);
    ApplyAppend(Cleared(ps), a, b);
    if e.comparator.Some? { assert a[1..] == []; }
    if e.logNumber.Some? { assert b[1..] == []; }
    if e.prevLogNumber.Some? { assert c[1..] == []; }
    if e.nextFileNumber.Some? { assert d[1..] == []; }
    if e.lastSequence.Some? { assert l[1..] == []; }
  }

  lemma ApplyFields(e: Edit, ps: seq<(nat, Bytes)>)
    ensures ApplyAll(Cleared(ps), Fields(e)) == e.(compactPointers := ps + e.compactPointers)
  {
    var h, p, d, a := Head(e), Pointers(e.compactPointers), Deletions(Ascending(e.deletedFiles)), Additions(e.newFiles);
    ApplyAppend(Cleared(ps), h + p + d, a);
    ApplyAppend(Cleared(ps), h + p, d);
    ApplyAppend(Cleared(ps), h, p);
    ApplyHead(e, ps);
    var e1 := ApplyAll(Cleared(ps), h);
    ApplyPointers(e1, e.compactPointers);
    var e2 := ApplyAll(e1, p);
    ApplyDeletions(e2, Ascending(e.deletedFiles));
    assert ({} + set x <- Ascending(e.deletedFiles)) == e.deletedFiles;
    ApplyAdditions(ApplyAll(e2, d), e.newFiles);
    assert [] + e.newFiles == e.newFiles;
  }

  ghost predicate EditOk(e: Edit) {
    && (e.comparator.Some? ==> |e.comparator.value| < U32) && (e.logNumber.Some? ==> e.logNumber.value < U64)
    && (e.prevLogNumber.Some? ==> e.prevLogNumber.value < U64) && (e.nextFileNumber.Some? ==> e.nextFileNumber.value < U64)
    && (e.lastSequence.Some? ==> e.lastSequence.value < U64)
    && (forall p <- e.compactPointers :: p.0 < LEVELS && |p.1| < U32)
    && (forall d <- e.deletedFiles :: d.0 < LEVELS && d.1 < U64)
    && (forall f <- e.newFiles :: f.0 < LEVELS && FileOk(f.1))
  }

  /** Decoding what EncodeTo wrote: everything is restored, behind the old compaction pointers. */
  lemma EditRoundTrip(e: Edit, ps: seq<(nat, Bytes)>)
    requires EditOk(e)
    ensures Decode(EncodeFields(Fields(e)), Cleared(ps)) == (e.(compactPointers := ps + e.compactPointers), true)
  {
    var fs := Fields(e);
    forall i | 0 <= i < |fs|
      ensures FieldOk(fs[i])
    {
      FieldsOk(e, i);
    }
    DecodeFields(fs, Cleared(ps));
    ApplyFields(e, ps);
  }

  /** So the edit comes back exactly if the object had no compaction pointers before. */
  lemma EditRestoredIff(e: Edit, ps: seq<(nat, Bytes)>)
    requires EditOk(e)
    ensures Decode(EncodeFields(Fields(e)), Cleared(ps)) == (e, true) <==> ps == []
  {
    EditRoundTrip(e, ps);
    if ps == [] {
      assert ps + e.compactPointers == e.compactPointers;
    } else {
      assert |ps + e.compactPointers| > |e.compactPointers|;
    }
  }

  lemma FieldsOk(e: Edit, i: nat)
    requires EditOk(e) && i < |Fields(e)|
    ensures FieldOk(Fields(e)[i])
  {
    var h, p, ds := Head(e), Pointers(e.compactPointers), Ascending(e.deletedFiles);
    if |h| <= i < |h| + |p| {
      assert e.compactPointers[i - |h|] in e.compactPointers;
    } else if |h| + |p| <= i < |h| + |p| + |ds| {
      assert ds[i - |h| - |p|] in e.deletedFiles;
    } else if i >= |h| + |p| + |ds| {
      assert e.newFiles[i - |h| - |p| - |ds|] in e.newFiles;
    }
  }

  lemma {:induction false} EncodeAppend(a: seq<Field>, b: seq<Field>)
    ensures EncodeFields(a + b) == EncodeFields(a) + EncodeFields(b)
    decreases |a|
  {
    if a == [] {
      assert a + b == b;
    } else {
      assert (a + b)[0] == a[0] && (a + b)[1..] == a[1..] + b;
      EncodeAppend(a[1..], b);
      Join(EncodeField(a[0]), EncodeFields(a[1..]), EncodeFields(b));
    }
  }

  lemma EncodeOne(fs: seq<Field>, f: Field, dst: Bytes)
    ensures dst + EncodeFields(fs) + EncodeField(f) == dst + EncodeFields(fs + [f])
  {
    assert [f][1..] == [] && EncodeFields([]) == [];
    assert EncodeFields([f]) == EncodeField(f);
    EncodeAppend(fs, [f]);
    Join(dst, EncodeFields(fs), EncodeField(f));
  }

  function Upto(before: seq<Field>, fs: seq<Field>, i: nat): (r: seq<Field>)
    requires i <= |fs|
    ensures i < |fs| ==> r + [fs[i]] == before + fs[..i + 1]
    ensures i == |fs| ==> r == before + fs
  {
    before + fs[..i]
  }

  /** The pairs from index i on are those of `rest`, in order. */
  ghost predicate AscendsFrom(all: seq<(nat, nat)>, i: nat, rest: set<(nat, nat)>) {
    forall s :: s == rest ==> i <= |all| && all[i..] == Ascending(s)
  }

  lemma StartsAscending(rest: set<(nat, nat)>)
    ensures AscendsFrom(Ascending(rest), 0, rest)
  {
    assert Ascending(rest)[0..] == Ascending(rest);
  }

  lemma EndsAscending(all: seq<(nat, nat)>, i: nat)
    requires AscendsFrom(all, i, {})
    ensures i == |all|
  {
    assert Ascending({}) == [];
  }

  lemma AscendsOn(all: seq<(nat, nat)>, i: nat, m: (nat, nat), rest: set<(nat, nat)>)
    requires AscendsFrom(all, i, rest) && m in rest && forall x <- rest :: Before(m, x)
    ensures i < |all| && all[i] == m && AscendsFrom(all, i + 1, rest - {m})
  {
    LeastFirst(rest, m);
    assert all[i..] == [m] + Ascending(rest - {m});
    assert all[i..][0] == m && all[i..][1..] == Ascending(rest - {m});
  }

  ghost predicate WroteOf(n: nat, dst: Bytes, r: Bytes, fs: seq<Field>) {
    n == |fs| && r == dst + EncodeFields(fs)
  }

  /** `r` is `dst` with the fields `fs` appended. */
  ghost predicate Wrote(dst: Bytes, r: Bytes, fs: seq<Field>) {
    forall n: nat :: n == |fs| ==> WroteOf(n, dst, r, fs)
  }

  lemma WroteOne(dst: Bytes, was: Bytes, fs: seq<Field>, f: Field)
    requires Wrote(dst, was, fs)
    ensures Wrote(dst, was + EncodeVarint(TagOf(f)) + Body(f), fs + [f])
  {
    assert WroteOf(|fs|, dst, was, fs);
    EncodeOne(fs, f, dst);
    Join(was, EncodeVarint(TagOf(f)), Body(f));
  }

  class VersionEdit {
    var edit: Edit

    constructor ()
      ensures edit == EMPTY
    {
      edit := EMPTY;
    }

    method Clear()
      modifies this
      ensures edit == Cleared(old(edit).compactPointers)
    {
      edit := EMPTY.(compactPointers := edit.compactPointers);
    }

    /** EncodeTo: present numbers, then the pointers, the deletions in order and the new files. */
    method EncodeTo(dst: Bytes) returns (r: Bytes)
      ensures r == dst + EncodeFields(Fields(edit))
    {
      ghost var done: seq<Field>;
      r, done := PutHead(dst);
      r, done := PutPointers(dst, r, done);
      r, done := PutDeletions(dst, r, done);
      r, done := PutAdditions(dst, r, done);
      assert WroteOf(|done|, dst, r, done);
    }

    static method Put(dst: Bytes, was: Bytes, ghost before: seq<Field>, f: Field) returns (r: Bytes, ghost done: seq<Field>)
      requires Wrote(dst, was, before)
      ensures done == before + [f] && Wrote(dst, r, done)
    {
      r := was + EncodeVarint(TagOf(f));
      r := r + Body(f);
      done := before + [f];
      WroteOne(dst, was, before, f);
    }

    method PutHead(dst: Bytes) returns (r: Bytes, ghost done: seq<Field>)
      ensures done == Head(edit) && Wrote(dst, r, done)
    {
      r, done := dst, [];
      assert dst + EncodeFields([]) == dst;
      if edit.comparator.Some? { r, done := Put(dst, r, done, Comparator(edit.comparator.value)); }
      if edit.logNumber.Some? { r, done := Put(dst, r, done, LogNumber(edit.logNumber.value)); }
      if edit.prevLogNumber.Some? { r, done := Put(dst, r, done, PrevLogNumber(edit.prevLogNumber.value)); }
      if edit.nextFileNumber.Some? { r, done := Put(dst, r, done, NextFileNumber(edit.nextFileNumber.value)); }
      if edit.lastSequence.Some? { r, done := Put(dst, r, done, LastSequence(edit.lastSequence.value)); }
    }

    method PutPointers(dst: Bytes, was: Bytes, ghost before: seq<Field>) returns (r: Bytes, ghost done: seq<Field>)
      requires Wrote(dst, was, before)
      ensures done == before + Pointers(edit.compactPointers) && Wrote(dst, r, done)
    {
      r, done := was, before;
      var i := 0;
      while i < |edit.compactPointers|
        invariant i <= |edit.compactPointers| && done == Upto(before, Pointers(edit.compactPointers), i) && Wrote(dst, r, done)
      {
        var p := edit.compactPointers[i];
        r, done := Put(dst, r, done, CompactPointer(p.0, p.1));
        i := i + 1;
      }
    }

    method PutDeletions(dst: Bytes, was: Bytes, ghost before: seq<Field>) returns (r: Bytes, ghost done: seq<Field>)
      requires Wrote(dst, was, before)
      ensures done == before + Deletions(Ascending(edit.deletedFiles)) && Wrote(dst, r, done)
    {
      r, done := was, before;
      var rest := edit.deletedFiles;
      ghost var all, i := Ascending(rest), 0;
      StartsAscending(rest);
      while rest != {}
        invariant i <= |all| && AscendsFrom(all, i, rest)
        invariant done == Upto(before, Deletions(all), i) && Wrote(dst, r, done)
        decreases |rest|
      {
        var m := Smallest(rest);
        AscendsOn(all, i, m, rest);
        r, done := Put(dst, r, done, DeletedFile(m.0, m.1));
        rest := rest - {m};
        i := i + 1;
      }
      EndsAscending(all, i);
    }

    static method Smallest(s: set<(nat, nat)>) returns (m: (nat, nat))
      requires s != {}
      ensures m in s && forall x <- s :: Before(m, x)
    {
      HasLeast(s);
      m :| m in s && forall x <- s :: Before(m, x);
    }

    method PutAdditions(dst: Bytes, was: Bytes, ghost before: seq<Field>) returns (r: Bytes, ghost done: seq<Field>)
      requires Wrote(dst, was, before)
      ensures done == before + Additions(edit.newFiles) && Wrote(dst, r, done)
    {
      r, done := was, before;
      var i := 0;
      while i < |edit.newFiles|
        invariant i <= |edit.newFiles| && done == Upto(before, Additions(edit.newFiles), i) && Wrote(dst, r, done)
      {
        var f := edit.newFiles[i];
        r, done := Put(dst, r, done, NewFile(f.0, f.1));
        i := i + 1;
      }
    }

    /** DecodeFrom: consumes tagged fields until the input ends or is malformed. */
    method DecodeFrom(src: Bytes) returns (ok: bool)
      modifies this
      ensures (edit, ok) == Decode(src, Cleared(old(edit).compactPointers))
    {
      Clear();
      var input := src;
      while true
        invariant Decode(input, edit) == Decode(src, Cleared(old(edit).compactPointers))
        decreases |input|
      {
        var tag := GetVarint32(input);
        if tag.None? {
          return input == [];
        }
        var f := ParseBody(tag.value.0, tag.value.1);
        if f.None? {
          return false;
        }
        edit := Apply(edit, f.value.0);
        input := f.value.1;
      }
    }
  }

  lemma LeastFirst(s: set<(nat, nat)>, m: (nat, nat))
    requires m in s && forall x <- s :: Before(m, x)
    ensures Ascending(s) == [m] + Ascending(s - {m})
  {
    HasLeast(s);
    var n := Ascending(s)[0];
    assert n in s && Before(n, m) && Before(m, n);
  }
}
