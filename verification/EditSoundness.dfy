/** Which bytes are an edit. */
module EditSoundness {
  import opened Keys
  import opened Coding
  import opened EditCodec

  ghost predicate IsNumber(x: Bytes, n: nat) {
    IsVarint(x, 10) && Weighted(x) % 0x1_0000_0000_0000_0000 == n
  }

  ghost predicate IsSmall(x: Bytes, n: nat) {
    IsVarint(x, 5) && Weighted(x) % 0x1_0000_0000 == n
  }

  lemma NumberReads(x: Bytes, n: nat, rest: Bytes)
    requires IsNumber(x, n)
    ensures GetVarint64(x + rest) == Some((n, rest))
  {
    VarintReads(x, rest, 10);
  }

  lemma SmallReads(x: Bytes, n: nat, rest: Bytes)
    requires IsSmall(x, n)
    ensures GetVarint32(x + rest) == Some((n, rest))
  {
    VarintReads(x, rest, 5);
  }

  lemma NumberRead(b: Bytes) returns (x: Bytes)
    requires GetVarint64(b).Some?
    ensures b == x + GetVarint64(b).value.1 && IsNumber(x, GetVarint64(b).value.0)
  {
    var n := VarintRead(b, 10);
    x := b[..n];
    assert b == b[..n] + b[n..];
  }

  lemma SmallRead(b: Bytes) returns (x: Bytes)
    requires GetVarint32(b).Some?
    ensures b == x + GetVarint32(b).value.1 && IsSmall(x, GetVarint32(b).value.0)
  {
    var n := VarintRead(b, 5);
    x := b[..n];
    assert b == b[..n] + b[n..];
  }

  // ---- Fields ----

  ghost predicate IsFile(x: Bytes, f: FileMetaData) {
    exists a, b, c, d :: FileParts(x, a, b, c, d, f)
  }

  ghost predicate FileParts(x: Bytes, a: Bytes, b: Bytes, c: Bytes, d: Bytes, f: FileMetaData) {
    x == a + (b + (c + d)) && IsNumber(a, f.number) && IsNumber(b, f.size) && IsSlice(c, f.smallest) && IsSlice(d, f.largest)
  }

  /** The number of the field's kind. */
  function KindOf(f: Field): nat {
    match f
    case Comparator(_) => 1
    case LogNumber(_) => 2
    case NextFileNumber(_) => 3
    case LastSequence(_) => 4
    case CompactPointer(_, _) => 5
    case DeletedFile(_, _) => 6
    case NewFile(_, _) => 7
    case PrevLogNumber(_) => 9
  }

  /** What follows the level of a field that has one. */
  ghost predicate IsRest(x: Bytes, f: Field) {
    match f
    case CompactPointer(_, key) => IsSlice(x, key)
    case DeletedFile(_, n) => IsNumber(x, n)
    case NewFile(_, file) => IsFile(x, file)
    case _ => false
  }

  predicate HasLevel(f: Field) {
    f.CompactPointer? || f.DeletedFile? || f.NewFile?
  }

  ghost predicate IsLeveled(x: Bytes, f: Field)
    requires HasLevel(f)
  {
    f.level < 7 && exists a, b :: LevelParts(x, a, b, f)
  }

  ghost predicate LevelParts(x: Bytes, a: Bytes, b: Bytes, f: Field)
    requires HasLevel(f)
  {
    x == a + b && IsSmall(a, f.level) && IsRest(b, f)
  }

  ghost predicate IsBody(x: Bytes, f: Field) {
    match f
    case Comparator(name) => IsSlice(x, name)
    case LogNumber(n) => IsNumber(x, n)
    case NextFileNumber(n) => IsNumber(x, n)
    case LastSequence(n) => IsNumber(x, n)
    case PrevLogNumber(n) => IsNumber(x, n)
    case CompactPointer(_, _) => IsLeveled(x, f)
    case DeletedFile(_, _) => IsLeveled(x, f)
    case NewFile(_, _) => IsLeveled(x, f)
  }

  ghost predicate IsField(x: Bytes, f: Field) {
    exists t, b :: FieldParts(x, t, b, f)
  }

  ghost predicate FieldParts(x: Bytes, t: Bytes, b: Bytes, f: Field) {
    x == t + b && IsSmall(t, KindOf(f)) && IsBody(b, f)
  }

  // ---- Reading what is spelled ----

  lemma FileReads(x: Bytes, f: FileMetaData, rest: Bytes)
    requires IsFile(x, f)
    ensures GetFile(x + rest) == Some((f, rest))
  {
    var a, b, c, d :| FileParts(x, a, b, c, d, f);
    Join(a, b + (c + d), rest);
    Join(b, c + d, rest);
    Join(c, d, rest);
    NumberReads(a, f.number, b + (c + d) + rest);
    NumberReads(b, f.size, c + d + rest);
    SliceReads(c, f.smallest, d + rest);
    SliceReads(d, f.largest, rest);
  }

  lemma LeveledReads(x: Bytes, f: Field, rest: Bytes)
    requires HasLevel(f) && IsLeveled(x, f)
    ensures ParseBody(KindOf(f), x + rest) == Some((f, rest))
  {
    var a, b :| LevelParts(x, a, b, f);
    Join(a, b, rest);
    SmallReads(a, f.level, b + rest);
    match f
    case CompactPointer(_, key) => SliceReads(b, key, rest);
    case DeletedFile(_, n) => NumberReads(b, n, rest);
    case NewFile(_, file) => FileReads(b, file, rest);
  }

  lemma BodyReads(x: Bytes, f: Field, rest: Bytes)
    requires IsBody(x, f)
    ensures ParseBody(KindOf(f), x + rest) == Some((f, rest))
  {
    match f
    case Comparator(name) => SliceReads(x, name, rest);
    case LogNumber(n) => NumberReads(x, n, rest);
    case NextFileNumber(n) => NumberReads(x, n, rest);
    case LastSequence(n) => NumberReads(x, n, rest);
    case PrevLogNumber(n) => NumberReads(x, n, rest);
    case CompactPointer(_, _) => LeveledReads(x, f, rest);
    case DeletedFile(_, _) => LeveledReads(x, f, rest);
    case NewFile(_, _) => LeveledReads(x, f, rest);
  }

  lemma FieldReads(x: Bytes, f: Field, rest: Bytes, e: Edit)
    requires IsField(x, f)
    ensures Decode(x + rest, e) == Decode(rest, Apply(e, f))
  {
    var t, b :| FieldParts(x, t, b, f);
    Join(t, b, rest);
    SmallReads(t, KindOf(f), b + rest);
    BodyReads(b, f, rest);
  }

  // ---- What is read is spelled ----

  lemma FileRead(b: Bytes) returns (x: Bytes)
    requires GetFile(b).Some?
    ensures b == x + GetFile(b).value.1 && IsFile(x, GetFile(b).value.0)
  {
    var n := NumberRead(b);
    var b1 := GetVarint64(b).value.1;
    var z := NumberRead(b1);
    var b2 := GetVarint64(b1).value.1;
    var s := SliceRead(b2);
    var b3 := GetSlice(b2).value.1;
    var l := SliceRead(b3);
    var rest := GetSlice(b3).value.1;
    x := n + (z + (s + l));
    FourParts(n, z, s, l, rest);
    assert FileParts(x, n, z, s, l, GetFile(b).value.0);
  }

  lemma FourParts(a: Bytes, b: Bytes, c: Bytes, d: Bytes, rest: Bytes)
    ensures a + (b + (c + d)) + rest == a + (b + (c + (d + rest)))
  {}

  /** What follows the level, for each kind that has one. */
  lemma RestRead(tag: nat, level: nat, b: Bytes) returns (x: Bytes)
    requires 5 <= tag <= 7 && ParseAtLevel(tag, level, b).Some?
    ensures var (f, rest) := ParseAtLevel(tag, level, b).value;
      b == x + rest && IsRest(x, f) && HasLevel(f) && f.level == level && KindOf(f) == tag
  {
    if tag == 5 {
      x := SliceRead(b);
    } else if tag == 6 {
      x := NumberRead(b);
    } else {
      x := FileRead(b);
    }
  }

  lemma LeveledRead(tag: nat, b: Bytes) returns (x: Bytes)
    requires 5 <= tag <= 7 && ParseBody(tag, b).Some?
    ensures var (f, rest) := ParseBody(tag, b).value; b == x + rest && IsBody(x, f) && KindOf(f) == tag
  {
    var a := SmallRead(b);
    var level, after := GetVarint32(b).value.0, GetVarint32(b).value.1;
    var c := RestRead(tag, level, after);
    var (f, rest) := ParseBody(tag, b).value;
    x := a + c;
    Join(a, c, rest);
    assert LevelParts(x, a, c, f);
  }

  lemma BodyRead(tag: nat, b: Bytes) returns (x: Bytes)
    requires ParseBody(tag, b).Some?
    ensures var (f, rest) := ParseBody(tag, b).value; b == x + rest && IsBody(x, f) && KindOf(f) == tag
  {
    if tag == 1 {
      x := SliceRead(b);
    } else if 5 <= tag <= 7 {
      x := LeveledRead(tag, b);
    } else {
      x := NumberRead(b);
    }
  }

  // ---- Edits ----

  ghost predicate AllFields(xs: seq<Bytes>, fs: seq<Field>) {
    |xs| == |fs| && forall i :: 0 <= i < |xs| ==> IsField(xs[i], fs[i])
  }

  lemma {:induction false} FieldsRead(xs: seq<Bytes>, fs: seq<Field>, e: Edit)
    requires AllFields(xs, fs)
    ensures Decode(Laid(xs), e) == (ApplyAll(e, fs), true)
    decreases |xs|
  {
    if xs != [] {
      FieldReads(xs[0], fs[0], Laid(xs[1..]), e);
      FieldsRead(xs[1..], fs[1..], Apply(e, fs[0]));
    }
  }

  lemma {:induction false} ReadIsFields(b: Bytes, e: Edit) returns (xs: seq<Bytes>, fs: seq<Field>)
    requires Decode(b, e).1
    ensures AllFields(xs, fs) && b == Laid(xs) && Decode(b, e).0 == ApplyAll(e, fs)
    decreases |b|
  {
    if b == [] {
      xs, fs := [], [];
    } else {
      var t := SmallRead(b);
      var tag, after := GetVarint32(b).value.0, GetVarint32(b).value.1;
      var y := BodyRead(tag, after);
      var (f, rest) := ParseBody(tag, after).value;
      Join(t, y, rest);
      assert FieldParts(t + y, t, y, f);
      var ys, gs := ReadIsFields(rest, Apply(e, f));
      xs, fs := [t + y] + ys, [f] + gs;
      assert xs[1..] == ys && fs[1..] == gs;
    }
  }

  ghost predicate IsEdit(b: Bytes, e: Edit, r: Edit) {
    exists xs, fs :: AllFields(xs, fs) && b == Laid(xs) && r == ApplyAll(e, fs)
  }

  /** Bytes are decoded to the end, with what result there may be, if and only if they are fields
      of the eight kinds laid end to end, on levels below seven, and that is their effect. */
  lemma DecodedIff(b: Bytes, e: Edit, r: Edit)
    ensures Decode(b, e) == (r, true) <==> IsEdit(b, e, r)
  {
    if Decode(b, e) == (r, true) {
      var xs, fs := ReadIsFields(b, e);
    }
    if IsEdit(b, e, r) {
      var xs, fs :| AllFields(xs, fs) && b == Laid(xs) && r == ApplyAll(e, fs);
      FieldsRead(xs, fs, e);
    }
  }
}
