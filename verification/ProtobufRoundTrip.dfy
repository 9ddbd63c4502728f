/** Decoding what was encoded: the message itself, or its part that the decoder knows. */
module ProtobufRoundTrip {
  import opened Keys
  import opened Coding
  import opened Protobuf

  // ---- Well-formed descriptors and messages ----

  ghost predicate TypeOk(l: LType) {
    match l
    case Varint(size) => SizeOk(size)
    case UVarint(size) => SizeOk(size)
    case SVarint(size) => SizeOk(size)
    case Submessage(fs) => DescriptorOk(fs)
    case _ => true
  }

  /** Distinct non-zero tags of at most 29 bits. */
  ghost predicate DescriptorOk(fs: Fields) {
    match fs
    case End => true
    case More(f, rest) => 1 <= f.tag < 0x2000_0000 && f.tag !in Tags(rest) && TypeOk(f.l) && DescriptorOk(rest)
  }

  ghost predicate NoNul(b: Bytes) {
    forall i :: 0 <= i < |b| ==> b[i] != 0
  }

  ghost predicate NumberFits(l: LType, n: int) {
    match l
    case Bool => 0 <= n <= 1
    case Varint(size) => InSigned(size, n)
    case UVarint(size) => InUnsigned(size, n)
    case SVarint(size) => InSigned(size, n)
    case Fixed32 => 0 <= n < 0x1_0000_0000
    case Fixed64 => 0 <= n < 0x1_0000_0000_0000_0000
    case _ => false
  }

  ghost predicate Fits(l: LType, v: FieldValue)
    decreases l, 0
  {
    match l
    case BytesField(max) => v.Blob? && |v.b| <= max
    case StringField(max) => v.Blob? && |v.b| <= max && NoNul(v.b)
    case FixedBytes(n) => v.Blob? && |v.b| == n
    case Submessage(fs) => v.Message? && MessageFits(fs, v.m)
    case _ => v.Num? && NumberFits(l, v.n)
  }

  /** What a C struct can hold; a field that is not set holds its default. */
  ghost predicate SlotFits(f: Field, s: Slot)
    decreases f.l, 1
  {
    match f.h
    case Repeated(max) => !s.has && |s.items| <= max && forall i :: 0 <= i < |s.items| ==> Fits(f.l, s.items[i])
    case Optional => |s.items| == 1 && Fits(f.l, s.items[0]) && (!s.has ==> s.items[0] == Default(f.l))
    case Oneof(_) => |s.items| == 1 && Fits(f.l, s.items[0]) && (!s.has ==> s.items[0] == Default(f.l))
    case _ => |s.items| == 1 && Fits(f.l, s.items[0]) && s.has
  }

  ghost predicate FieldsFit(fs: Fields, m: map<nat, Slot>)
    decreases fs, 0
  {
    match fs
    case End => true
    case More(f, rest) => f.tag in m && SlotFits(f, m[f.tag]) && FieldsFit(rest, m)
  }

  ghost predicate SameOneof(fs: Fields, t: nat, u: nat) {
    && FieldWith(fs, t).Some? && FieldWith(fs, u).Some? && t != u
    && FieldWith(fs, t).value.h.Oneof? && FieldWith(fs, u).value.h == FieldWith(fs, t).value.h
  }

  /** At most one member of a oneof is chosen. */
  ghost predicate OneofsFit(fs: Fields, m: map<nat, Slot>) {
    forall t, u :: SameOneof(fs, t, u) && t in m && u in m ==> !(m[t].has && m[u].has)
  }

  ghost predicate MessageFits(fs: Fields, m: map<nat, Slot>)
    decreases fs, 1
  {
    m.Keys == Tags(fs) && FieldsFit(fs, m) && OneofsFit(fs, m)
  }

  // ---- What a decoder knows ----

  /** The decoder's type: the encoder's, where nested descriptors may leave out fields. */
  ghost predicate TypePart(dl: LType, l: LType)
    decreases dl, 0
  {
    if dl.Submessage? && l.Submessage? then PartOf(dl.fields, l.fields) else dl == l
  }

  ghost predicate FieldPart(g: Field, f: Field)
    decreases g, 0
  {
    g.tag == f.tag && g.h == f.h && TypePart(g.l, f.l)
  }

  /** The decoder's descriptor: some of the fields of the encoder's, on every level. */
  ghost predicate PartOf(ds: Fields, fs: Fields)
    decreases ds, 0
  {
    match ds
    case End => true
    case More(g, rest) => FieldWith(fs, g.tag).Some? && FieldPart(g, FieldWith(fs, g.tag).value) && PartOf(rest, fs)
  }

  /** What the decoder's type keeps of a value. */
  ghost function ProjectValue(dl: LType, v: FieldValue): FieldValue
    decreases dl, 0
  {
    if dl.Submessage? && v.Message? then Message(Projected(dl.fields, v.m)) else v
  }

  ghost function ProjectItems(dl: LType, vs: seq<FieldValue>): (r: seq<FieldValue>)
    ensures |r| == |vs|
    decreases dl, 1
  {
    seq(|vs|, i requires 0 <= i < |vs| => ProjectValue(dl, vs[i]))
  }

  ghost function ProjectSlot(g: Field, s: Slot): Slot
    decreases g, 0
  {
    Slot(s.has, ProjectItems(g.l, s.items))
  }

  /** The fields of a message that a descriptor knows, and of those what it knows. */
  ghost function Projected(ds: Fields, m: map<nat, Slot>): map<nat, Slot>
    decreases ds, 0
  {
    match ds
    case End => map[]
    case More(g, rest) =>
      var r := Projected(rest, m);
      if g.tag in m then r[g.tag := ProjectSlot(g, m[g.tag])] else r
  }

  // ---- Varints ----

  lemma Distribute(u: nat, w: nat)
    ensures u % 128 * w + u / 128 * (128 * w) == u * w
  {
    assert u == u / 128 * 128 + u % 128;
  }

  lemma Pow128Values()
    ensures Pow128(1) == 128 && Pow128(2) == 0x4000 && Pow128(3) == 0x20_0000 && Pow128(4) == 0x1000_0000
  {
    assert Pow128(0) == 1;
  }

  lemma MoreStep(b: Bytes, result: nat, j: nat, w: nat)
    requires b != [] && b[0] >= 128 && 1 <= j <= 4 && w == Pow128(j) && result + b[0] % 128 * w < 0x1_0000_0000
    ensures MoreVarint32(b, result, j) == MoreVarint32(b[1..], result + b[0] % 128 * w, j + 1)
  {
    SmallMod(result + b[0] % 128 * w, 0x1_0000_0000);
  }

  lemma MoreLast(b: Bytes, result: nat, j: nat, w: nat)
    requires b != [] && b[0] < 128 && 1 <= j <= 4 && w == Pow128(j) && result + b[0] * w < 0x1_0000_0000
    ensures MoreVarint32(b, result, j) == Some((result + b[0] * w, b[1..]))
  {
    Pow128Values();
    LastDigit(b[0], result, w);
  }

  lemma DigitFits(u: nat, result: nat, w: nat)
    requires result + u * w < 0x1_0000_0000
    ensures result + u % 128 * w < 0x1_0000_0000 && result + u % 128 * w + u / 128 * (128 * w) == result + u * w
  {
    Distribute(u, w);
  }

  lemma FirstByte(u: nat, rest: Bytes)
    ensures var b := EncodeVarint(u) + rest;
      if u < 128 then b[0] == u && b[1..] == rest else b[0] == u % 128 + 128 && b[1..] == EncodeVarint(u / 128) + rest
  {}

  /** The 32-bit varint decoder on the bytes of a 32-bit value. */
  lemma {:induction false} MoreRoundTrip(u: nat, result: nat, j: nat, w: nat, rest: Bytes)
    requires 1 <= j <= 4 && w == Pow128(j) && result + u * w < 0x1_0000_0000
    ensures MoreVarint32(EncodeVarint(u) + rest, result, j) == Some((result + u * w, rest))
    decreases 5 - j
  {
    var b := EncodeVarint(u) + rest;
    FirstByte(u, rest);
    if u < 128 {
      MoreLast(b, result, j, w);
    } else {
      DigitFits(u, result, w);
      NotLast(u, j);
      MoreStep(b, result, j, w);
      MoreRoundTrip(u / 128, result + u % 128 * w, j + 1, 128 * w, rest);
    }
  }

  lemma LastDigit(u: nat, result: nat, w: nat)
    requires u < 128 && result + u * w < 0x1_0000_0000
    ensures (result + u % 128 * w) % 0x1_0000_0000 == result + u * w
    ensures w == 0x1000_0000 ==> u / 16 % 8 == 0
  {}

  lemma NotLast(u: nat, j: nat)
    requires 1 <= j <= 4 && u >= 128 && u * Pow128(j) < 0x1_0000_0000
    ensures j < 4 && Pow128(j + 1) == 128 * Pow128(j)
  {
    Pow128Values();
  }

  lemma Varint32Back(v: nat, rest: Bytes)
    requires v < 0x1_0000_0000
    ensures Varint32(EncodeVarint(v) + rest) == Some((v, rest))
  {
    var b := EncodeVarint(v) + rest;
    if v < 128 {
      assert b[1..] == rest;
    } else {
      assert b[1..] == EncodeVarint(v / 128) + rest;
      Pow128Values();
      Distribute(v, 1);
      MoreRoundTrip(v / 128, v % 128, 1, 128, rest);
    }
  }

  lemma TagBack(tag: nat, wireType: nat, rest: Bytes)
    requires 1 <= tag < 0x2000_0000 && wireType < 8
    ensures DecTag(EncTag(tag, wireType) + rest) == Tag(tag, wireType, rest)
  {
    Varint32Back(tag * 8 + wireType, rest);
  }

  lemma Prefix(a: Bytes, b: Bytes)
    ensures (a + b)[..|a|] == a && (a + b)[|a|..] == b
  {}

  lemma DelimitedBack(b: Bytes, rest: Bytes)
    requires |b| < 0x1_0000_0000
    ensures Delimited(WithLength(b) + rest) == Some((b, rest))
  {
    Join(EncodeVarint(|b|), b, rest);
    Varint32Back(|b|, b + rest);
    Prefix(b, rest);
  }

  // ---- Numbers ----

  lemma SignBack(n: int, size: nat)
    requires SizeOk(size) && InSigned(size, n)
    ensures 0 <= ToUnsigned64(n) < 0x1_0000_0000_0000_0000
    ensures (if size == 8 then Signed64(ToUnsigned64(n)) else Signed32(ToUnsigned64(n))) == n
  {
    if size != 8 {
      assert -0x8000_0000 <= n < 0x8000_0000;
      if n < 0 {
        assert ToUnsigned64(n) == 0xFFFF_FFFF * 0x1_0000_0000 + (n + 0x1_0000_0000);
      }
    }
  }

  lemma ZigZagBack(n: int, size: nat)
    requires SizeOk(size) && InSigned(size, n)
    ensures 0 <= ZigZag(n) < 0x1_0000_0000_0000_0000 && UnZigZag(ZigZag(n)) == n
  {}

  lemma Unsigned64Fits(n: int, size: nat)
    requires SizeOk(size) && InUnsigned(size, n)
    ensures n < 0x1_0000_0000_0000_0000
  {}

  lemma Take(e: Bytes, rest: Bytes, n: nat)
    requires |e| == n
    ensures (e + rest)[n..] == rest && |e + rest| >= n
  {}

  lemma IntegerBack(l: LType, u: nat, n: int, b: Bytes, rest: Bytes)
    requires GetVarint64(b) == Some((u, rest))
    requires l.Varint? ==> InSigned(l.size, n) && n == if l.size == 8 then Signed64(u) else Signed32(u)
    requires l.UVarint? ==> InUnsigned(l.size, n) && n == u
    requires l.SVarint? ==> InSigned(l.size, n) && n == UnZigZag(u)
    ensures l.Varint? || l.UVarint? || l.SVarint? ==> DecNumber(l, b) == Some((n, rest))
  {}

  lemma VarintBack(l: LType, n: int, rest: Bytes)
    requires TypeOk(l) && NumberFits(l, n) && (l.Varint? || l.UVarint? || l.SVarint?)
    ensures DecNumber(l, EncNumber(l, n) + rest) == Some((n, rest))
  {
    if l.Varint? {
      SignBack(n, l.size);
      Varint64RoundTrip(ToUnsigned64(n), rest);
      IntegerBack(l, ToUnsigned64(n), n, EncodeVarint(ToUnsigned64(n)) + rest, rest);
    } else if l.UVarint? {
      Unsigned64Fits(n, l.size);
      Varint64RoundTrip(n, rest);
      IntegerBack(l, n, n, EncodeVarint(n) + rest, rest);
    } else {
      ZigZagBack(n, l.size);
      Varint64RoundTrip(ZigZag(n), rest);
      IntegerBack(l, ZigZag(n), n, EncodeVarint(ZigZag(n)) + rest, rest);
    }
  }

  lemma Fixed32Back(n: nat, rest: Bytes)
    requires n < 0x1_0000_0000
    ensures EncNumber(Fixed32, n) == EncodeFixed32(n) && DecNumber(Fixed32, EncodeFixed32(n) + rest) == Some((n, rest))
  {
    SmallMod(n, 0x1_0000_0000);
    Fixed32RoundTrip(n, rest);
    Take(EncodeFixed32(n), rest, 4);
  }

  lemma Fixed64Back(n: nat, rest: Bytes)
    requires n < 0x1_0000_0000_0000_0000
    ensures EncNumber(Fixed64, n) == EncodeFixed64(n) && DecNumber(Fixed64, EncodeFixed64(n) + rest) == Some((n, rest))
  {
    SmallMod(n, 0x1_0000_0000_0000_0000);
    Fixed64RoundTrip(n, rest);
    Take(EncodeFixed64(n), rest, 8);
  }

  lemma NumberBack(l: LType, n: int, rest: Bytes)
    requires TypeOk(l) && NumberFits(l, n)
    ensures DecNumber(l, EncNumber(l, n) + rest) == Some((n, rest))
  {
    if l.Bool? {
      Varint32Back(n, rest);
    } else if l.Fixed32? {
      Fixed32Back(n, rest);
    } else if l.Fixed64? {
      Fixed64Back(n, rest);
    } else {
      VarintBack(l, n, rest);
    }
  }

  /** Skipping by wire type passes over exactly the varint. */
  lemma {:induction false} SkipVarintBack(v: nat, rest: Bytes)
    ensures SkipVarint(EncodeVarint(v) + rest) == Some(rest)
  {
    var b := EncodeVarint(v) + rest;
    if v < 128 {
      assert b[1..] == rest;
    } else {
      assert b[1..] == EncodeVarint(v / 128) + rest;
      SkipVarintBack(v / 128, rest);
    }
  }

  lemma SkipNumberBack(l: LType, n: int, rest: Bytes)
    requires TypeOk(l) && NumberFits(l, n)
    ensures SkipField(WireType(l), EncNumber(l, n) + rest) == Some(rest)
  {
    match l
    case Bool => SkipVarintBack(if n != 0 then 1 else 0, rest);
    case Varint(size) => SkipVarintBack(Abs(ToUnsigned64(n)), rest);
    case UVarint(size) => SkipVarintBack(Abs(n), rest);
    case SVarint(size) => SkipVarintBack(Abs(ZigZag(n)), rest);
    case Fixed32 => Take(EncodeFixed32(n), rest, 4);
    case Fixed64 => Take(EncodeFixed64(n), rest, 8);
  }

  lemma SkipDelimitedBack(b: Bytes, rest: Bytes)
    requires |b| < 0x1_0000_0000
    ensures SkipField(WT_STRING, WithLength(b) + rest) == Some(rest)
  {
    DelimitedBack(b, rest);
  }

  // ---- Descriptors as maps ----

  lemma {:induction false} TagsFound(fs: Fields, t: nat)
    ensures t in Tags(fs) <==> FieldWith(fs, t).Some?
    ensures FieldWith(fs, t).Some? ==> FieldWith(fs, t).value.tag == t
  {
    match fs
    case End =>
    case More(f, rest) => TagsFound(rest, t);
  }

  /** Nothing else is unset when no other member of the oneof is chosen. */
  lemma {:induction false} ChosenSame(fs: Fields, f: Field, m: map<nat, Slot>)
    requires DescriptorOk(fs) && Tags(fs) <= m.Keys
    requires forall t <- Tags(fs) :: FieldWith(fs, t).Some?
    requires f.h.Oneof? ==> forall t <- Tags(fs) :: t != f.tag && FieldWith(fs, t).value.h == f.h ==> m[t] == DefaultSlot(FieldWith(fs, t).value)
    ensures Chosen(fs, f, m) == m
  {
    match fs
    case End =>
    case More(g, rest) =>
      forall t | t in Tags(rest)
        ensures FieldWith(rest, t).Some? && FieldWith(rest, t) == FieldWith(fs, t)
      {
        TagsFound(rest, t);
        assert t != g.tag;
      }
      ChosenSame(rest, f, m);
      assert g.tag in Tags(fs);
  }

  // ---- One step of the decoder ----

  /** A tag and a body that the decoder takes for a field it knows. */
  lemma KnownStep(ds: Fields, f: Field, st: map<nat, Slot>, wireType: nat, body: Bytes, rest: Bytes, s: Slot, seen: set<nat>)
    requires 1 <= f.tag < 0x2000_0000 && wireType < 8 && FieldWith(ds, f.tag) == Some(f) && f.tag in st && Chosen(ds, f, st) == st
    requires DecSlot(f, st[f.tag], wireType, body + rest) == Some((s, rest))
    ensures DecMessage(ds, st, EncTag(f.tag, wireType) + body + rest, seen) == DecMessage(ds, st[f.tag := s], rest, if f.h.Required? then seen + {f.tag} else seen)
  {
    Join(EncTag(f.tag, wireType), body, rest);
    TagBack(f.tag, wireType, body + rest);
  }

  /** A tag and a body that the decoder skips. */
  lemma UnknownStep(ds: Fields, tag: nat, st: map<nat, Slot>, wireType: nat, body: Bytes, rest: Bytes, seen: set<nat>)
    requires 1 <= tag < 0x2000_0000 && wireType < 8 && FieldWith(ds, tag) == None
    requires SkipField(wireType, body + rest) == Some(rest)
    ensures DecMessage(ds, st, EncTag(tag, wireType) + body + rest, seen) == DecMessage(ds, st, rest, seen)
  {
    Join(EncTag(tag, wireType), body, rest);
    TagBack(tag, wireType, body + rest);
  }

  // ---- Values ----

  lemma LengthGrows(b: Bytes)
    ensures |b| < |WithLength(b)|
  {}

  lemma {:induction false} NoNulKept(b: Bytes)
    requires NoNul(b)
    ensures UpToNul(b) == b
  {
    if b != [] {
      NoNulKept(b[1..]);
    }
  }

  /** The bytes of a value of a type that is not packable are delimited. */
  ghost function Inner(l: LType, v: FieldValue): Bytes {
    match l
    case Submessage(fs) => if v.Message? then EncMessage(fs, v.m) else []
    case _ => if v.Blob? then v.b else []
  }

  lemma InnerEncoding(l: LType, v: FieldValue)
    requires Fits(l, v) && !Packable(l)
    ensures EncValue(l, v) == WithLength(Inner(l, v)) && |Inner(l, v)| < |EncValue(l, v)|
  {
    if l.StringField? {
      NoNulKept(v.b);
    }
    LengthGrows(Inner(l, v));
  }

  lemma SkipValueBack(l: LType, v: FieldValue, rest: Bytes)
    requires TypeOk(l) && Fits(l, v) && |EncValue(l, v)| < 0x1_0000_0000
    ensures SkipField(WireType(l), EncValue(l, v) + rest) == Some(rest)
  {
    if Packable(l) {
      SkipNumberBack(l, v.n, rest);
    } else {
      InnerEncoding(l, v);
      SkipDelimitedBack(Inner(l, v), rest);
    }
  }

  lemma BlobBack(l: LType, v: FieldValue, cur: FieldValue, rest: Bytes)
    requires Fits(l, v) && (l.BytesField? || l.StringField? || l.FixedBytes?) && |EncValue(l, v)| < 0x1_0000_0000
    ensures DecValue(l, cur, EncValue(l, v) + rest) == Some((v, rest))
  {
    InnerEncoding(l, v);
    DelimitedBack(v.b, rest);
    if l.FixedBytes? && v.b == [] {
      assert Zeros(l.size) == [];
    }
  }

  /** A value read back: numbers, strings, bytes, and what is known of whole submessages. */
  lemma {:induction false} ValueBack(dl: LType, l: LType, v: FieldValue, cur: FieldValue, rest: Bytes)
    requires TypeOk(dl) && TypeOk(l) && TypePart(dl, l) && Fits(l, v) && |EncValue(l, v)| < 0x1_0000_0000 && (l.Submessage? ==> cur == Default(dl))
    ensures DecValue(dl, cur, EncValue(l, v) + rest) == Some((ProjectValue(dl, v), rest))
    decreases l, 3
  {
    if Packable(l) {
      NumberBack(l, v.n, rest);
    } else if l.Submessage? {
      InnerEncoding(l, v);
      DelimitedBack(Inner(l, v), rest);
      ProjectionBack(dl.fields, l.fields, v.m);
    } else {
      BlobBack(l, v, cur, rest);
    }
  }

  // ---- Fields ----

  /** The decoder's view of a field: a part of it, or none. */
  ghost predicate Known(ds: Fields, f: Field) {
    FieldWith(ds, f.tag).Some? ==> FieldPart(FieldWith(ds, f.tag).value, f) && TypeOk(FieldWith(ds, f.tag).value.l)
  }

  ghost function Seen(ds: Fields, f: Field, seen: set<nat>): set<nat> {
    if FieldWith(ds, f.tag).Some? && f.h.Required? then seen + {f.tag} else seen
  }

  ghost function With(ds: Fields, f: Field, st: map<nat, Slot>, s: Slot): map<nat, Slot> {
    if FieldWith(ds, f.tag).Some? then st[f.tag := ProjectSlot(FieldWith(ds, f.tag).value, s)] else st
  }

  /** The decoder is about to see field f for the first time. */
  ghost predicate Fresh(ds: Fields, f: Field, st: map<nat, Slot>, s: Slot) {
    && Known(ds, f)
    && (FieldWith(ds, f.tag).Some? ==>
      var g := FieldWith(ds, f.tag).value;
      f.tag in st && st[f.tag] == DefaultSlot(g) && (s.has || !f.h.Oneof? ==> Chosen(ds, g, st) == st))
  }

  lemma OneItem(g: Field, v: FieldValue, has: bool)
    ensures ProjectSlot(g, Slot(has, [v])) == Slot(has, [ProjectValue(g.l, v)])
  {}

  /** A field with one value. */
  lemma OneValueStep(ds: Fields, f: Field, s: Slot, st: map<nat, Slot>, rest: Bytes, seen: set<nat>)
    requires 1 <= f.tag < 0x2000_0000 && TypeOk(f.l) && !f.h.Repeated? && s.has && |s.items| == 1 && Fits(f.l, s.items[0])
    requires Fresh(ds, f, st, s) && |EncValue(f.l, s.items[0])| < 0x1_0000_0000
    ensures DecMessage(ds, st, EncTag(f.tag, WireType(f.l)) + EncValue(f.l, s.items[0]) + rest, seen) == DecMessage(ds, With(ds, f, st, s), rest, Seen(ds, f, seen))
    decreases f.l, 4
  {
    var body := EncValue(f.l, s.items[0]);
    if FieldWith(ds, f.tag).Some? {
      var g := FieldWith(ds, f.tag).value;
      ValueBack(g.l, f.l, s.items[0], Default(g.l), rest);
      assert s == Slot(true, [s.items[0]]);
      OneItem(g, s.items[0], true);
      KnownStep(ds, g, st, WireType(f.l), body, rest, ProjectSlot(g, s), seen);
    } else {
      SkipValueBack(f.l, s.items[0], rest);
      UnknownStep(ds, f.tag, st, WireType(f.l), body, rest, seen);
    }
  }

  lemma TaggedFirst(tag: nat, l: LType, vs: seq<FieldValue>, rest: Bytes)
    requires vs != []
    ensures EncTagged(tag, l, vs) + rest == EncTag(tag, WireType(l)) + EncValue(l, vs[0]) + (EncTagged(tag, l, vs[1..]) + rest)
    ensures |EncValue(l, vs[0])| <= |EncTagged(tag, l, vs)| && |EncTagged(tag, l, vs[1..])| <= |EncTagged(tag, l, vs)|
  {
    Join(EncTag(tag, WireType(l)) + EncValue(l, vs[0]), EncTagged(tag, l, vs[1..]), rest);
  }

  /** The state of a repeated field of which `done` has been decoded. */
  ghost predicate Holding(ds: Fields, f: Field, st: map<nat, Slot>, done: seq<FieldValue>) {
    forall now :: now == done ==> HoldingNow(ds, f, st, now)
  }

  ghost predicate HoldingNow(ds: Fields, f: Field, st: map<nat, Slot>, done: seq<FieldValue>) {
    Known(ds, f) && DescriptorOk(ds) && st.Keys == Tags(ds) && (FieldWith(ds, f.tag).Some? ==> f.tag in st && st[f.tag] == ProjectSlot(FieldWith(ds, f.tag).value, Slot(false, done)))
  }

  lemma HoldingMore(ds: Fields, f: Field, st: map<nat, Slot>, done: seq<FieldValue>, more: seq<FieldValue>)
    requires Holding(ds, f, st, done)
    ensures Holding(ds, f, With(ds, f, st, Slot(false, more)), more)
  {
    assert HoldingNow(ds, f, st, done);
    TagsFound(ds, f.tag);
  }

  lemma ItemsMore(dl: LType, done: seq<FieldValue>, v: FieldValue)
    ensures ProjectItems(dl, done + [v]) == ProjectItems(dl, done) + [ProjectValue(dl, v)]
  {}

  lemma TaggedOne(ds: Fields, f: Field, done: seq<FieldValue>, v: FieldValue, st: map<nat, Slot>, rest: Bytes, seen: set<nat>)
    requires 1 <= f.tag < 0x2000_0000 && TypeOk(f.l) && f.h.Repeated?
    requires |done| < f.h.max && Fits(f.l, v) && |EncValue(f.l, v)| < 0x1_0000_0000 && Holding(ds, f, st, done)
    ensures DecMessage(ds, st, EncTag(f.tag, WireType(f.l)) + EncValue(f.l, v) + rest, seen) == DecMessage(ds, With(ds, f, st, Slot(false, done + [v])), rest, seen)
    decreases f.l, 4
  {
    assert HoldingNow(ds, f, st, done);
    if FieldWith(ds, f.tag).Some? {
      var g := FieldWith(ds, f.tag).value;
      PlainField(ds, g, st);
      ValueBack(g.l, f.l, v, Default(g.l), rest);
      ItemsMore(g.l, done, v);
      KnownStep(ds, g, st, WireType(f.l), EncValue(f.l, v), rest, ProjectSlot(g, Slot(false, done + [v])), seen);
    } else {
      SkipValueBack(f.l, v, rest);
      UnknownStep(ds, f.tag, st, WireType(f.l), EncValue(f.l, v), rest, seen);
    }
  }

  lemma WithTwice(ds: Fields, f: Field, st: map<nat, Slot>, s: Slot, t: Slot)
    ensures With(ds, f, With(ds, f, st, s), t) == With(ds, f, st, t)
  {}

  /** A repeated field whose items are tagged one by one, as senders do that do not pack. */
  lemma {:induction false} TaggedSteps(ds: Fields, f: Field, done: seq<FieldValue>, vs: seq<FieldValue>, st: map<nat, Slot>, rest: Bytes, seen: set<nat>)
    requires 1 <= f.tag < 0x2000_0000 && TypeOk(f.l) && f.h.Repeated? && Holding(ds, f, st, done)
    requires |done| + |vs| <= f.h.max && (forall i :: 0 <= i < |vs| ==> Fits(f.l, vs[i])) && |EncTagged(f.tag, f.l, vs)| < 0x1_0000_0000
    ensures DecMessage(ds, st, EncTagged(f.tag, f.l, vs) + rest, seen) == DecMessage(ds, With(ds, f, st, Slot(false, done + vs)), rest, seen)
    decreases f.l, 5, |vs|
  {
    if vs == [] {
      assert HoldingNow(ds, f, st, done);
      assert done + vs == done;
      Unchanged(ds, f, st, Slot(false, done), rest);
    } else {
      var more := done + [vs[0]];
      var st2 := With(ds, f, st, Slot(false, more));
      TaggedFirst(f.tag, f.l, vs, rest);
      TaggedOne(ds, f, done, vs[0], st, EncTagged(f.tag, f.l, vs[1..]) + rest, seen);
      HoldingMore(ds, f, st, done, more);
      TaggedSteps(ds, f, more, vs[1..], st2, rest, seen);
      ItemsJoin(done, vs);
      WithTwice(ds, f, st, Slot(false, more), Slot(false, done + vs));
    }
  }

  lemma PlainField(ds: Fields, f: Field, st: map<nat, Slot>)
    requires DescriptorOk(ds) && st.Keys == Tags(ds) && !f.h.Oneof?
    ensures Chosen(ds, f, st) == st
  {
    forall t | t in Tags(ds)
      ensures FieldWith(ds, t).Some?
    {
      TagsFound(ds, t);
    }
    ChosenSame(ds, f, st);
  }

  lemma PackedFirst(l: LType, done: seq<FieldValue>, v: FieldValue, rest: Bytes, max: nat)
    requires TypeOk(l) && Packable(l) && Fits(l, v) && |done| < max
    ensures DecPacked(l, EncNumber(l, v.n) + rest, done, max) == DecPacked(l, rest, done + [v], max)
  {
    NumberBack(l, v.n, rest);
  }

  lemma ItemsJoin(done: seq<FieldValue>, vs: seq<FieldValue>)
    requires vs != []
    ensures done + [vs[0]] + vs[1..] == done + vs
  {}

  lemma {:induction false} PackedBack(l: LType, done: seq<FieldValue>, vs: seq<FieldValue>, max: nat)
    requires TypeOk(l) && Packable(l) && |done| + |vs| <= max && forall i :: 0 <= i < |vs| ==> Fits(l, vs[i])
    ensures DecPacked(l, EncPacked(l, vs), done, max) == Some(done + vs)
    decreases |vs|
  {
    if vs == [] {
      assert done + vs == done;
    } else {
      PackedFirst(l, done, vs[0], EncPacked(l, vs[1..]), max);
      PackedBack(l, done + [vs[0]], vs[1..], max);
      ItemsJoin(done, vs);
    }
  }

  lemma SimplePart(g: Field, f: Field)
    requires FieldPart(g, f) && Packable(f.l)
    ensures g == f
  {
    assert g == Field(g.tag, g.h, g.l);
  }

  lemma SimpleItems(l: LType, vs: seq<FieldValue>)
    requires Packable(l)
    ensures ProjectItems(l, vs) == vs
  {}

  lemma PackedProjects(g: Field, f: Field, vs: seq<FieldValue>)
    requires FieldPart(g, f) && Packable(f.l)
    ensures g == f && ProjectSlot(g, Slot(false, vs)) == Slot(false, vs)
  {
    SimplePart(g, f);
    SimpleItems(f.l, vs);
  }

  /** One packed record of a repeated field, behind the items that are there already. */
  lemma PackedStep(ds: Fields, f: Field, done: seq<FieldValue>, vs: seq<FieldValue>, st: map<nat, Slot>, rest: Bytes, seen: set<nat>)
    requires 1 <= f.tag < 0x2000_0000 && TypeOk(f.l) && f.h.Repeated? && Packable(f.l) && Holding(ds, f, st, done)
    requires |done| + |vs| <= f.h.max && (forall i :: 0 <= i < |vs| ==> Fits(f.l, vs[i])) && |EncPacked(f.l, vs)| < 0x1_0000_0000
    ensures DecMessage(ds, st, EncTag(f.tag, WT_STRING) + WithLength(EncPacked(f.l, vs)) + rest, seen) == DecMessage(ds, With(ds, f, st, Slot(false, done + vs)), rest, seen)
  {
    var p := EncPacked(f.l, vs);
    assert HoldingNow(ds, f, st, done);
    if FieldWith(ds, f.tag).Some? {
      var g := FieldWith(ds, f.tag).value;
      PlainField(ds, g, st);
      DelimitedBack(p, rest);
      PackedBack(f.l, done, vs, f.h.max);
      PackedProjects(g, f, done);
      PackedProjects(g, f, done + vs);
      KnownStep(ds, g, st, WT_STRING, WithLength(p), rest, Slot(false, done + vs), seen);
    } else {
      SkipDelimitedBack(p, rest);
      UnknownStep(ds, f.tag, st, WT_STRING, WithLength(p), rest, seen);
    }
  }

  // ---- Packed records and single items in any order ----

  datatype Chunk = Run(vs: seq<FieldValue>) | One(v: FieldValue)

  function ChunkItems(c: Chunk): seq<FieldValue> {
    if c.Run? then c.vs else [c.v]
  }

  function ChunkBytes(f: Field, c: Chunk): Bytes
    requires c.Run? ==> Packable(f.l)
  {
    match c
    case Run(vs) => EncTag(f.tag, WT_STRING) + WithLength(EncPacked(f.l, vs))
    case One(v) => EncTag(f.tag, WireType(f.l)) + EncValue(f.l, v)
  }

  ghost predicate ChunkOk(f: Field, c: Chunk) {
    match c
    case Run(vs) => Packable(f.l) && (forall i :: 0 <= i < |vs| ==> Fits(f.l, vs[i])) && |EncPacked(f.l, vs)| < 0x1_0000_0000
    case One(v) => Fits(f.l, v) && |EncValue(f.l, v)| < 0x1_0000_0000
  }

  ghost predicate ChunksOk(f: Field, cs: seq<Chunk>) {
    forall i :: 0 <= i < |cs| ==> ChunkOk(f, cs[i])
  }

  function Items(cs: seq<Chunk>): seq<FieldValue> {
    if cs == [] then [] else ChunkItems(cs[0]) + Items(cs[1..])
  }

  ghost function ChunksBytes(f: Field, cs: seq<Chunk>): Bytes
    requires ChunksOk(f, cs)
  {
    if cs == [] then [] else ChunkBytes(f, cs[0]) + ChunksBytes(f, cs[1..])
  }

  lemma ChunkStep(ds: Fields, f: Field, done: seq<FieldValue>, c: Chunk, st: map<nat, Slot>, rest: Bytes, seen: set<nat>)
    requires 1 <= f.tag < 0x2000_0000 && TypeOk(f.l) && f.h.Repeated? && Holding(ds, f, st, done) && ChunkOk(f, c)
    requires |done| + |ChunkItems(c)| <= f.h.max
    ensures DecMessage(ds, st, ChunkBytes(f, c) + rest, seen) == DecMessage(ds, With(ds, f, st, Slot(false, done + ChunkItems(c))), rest, seen)
  {
    match c
    case Run(vs) => PackedStep(ds, f, done, vs, st, rest, seen);
    case One(v) => TaggedOne(ds, f, done, v, st, rest, seen);
  }

  /** A tag and a body that the decoder rejects. */
  lemma KnownFails(ds: Fields, f: Field, st: map<nat, Slot>, wireType: nat, body: Bytes, rest: Bytes, seen: set<nat>)
    requires 1 <= f.tag < 0x2000_0000 && wireType < 8 && FieldWith(ds, f.tag) == Some(f) && f.tag in st
    requires DecSlot(f, st[f.tag], wireType, body + rest) == None
    ensures DecMessage(ds, st, EncTag(f.tag, wireType) + body + rest, seen) == None
  {
    Join(EncTag(f.tag, wireType), body, rest);
    TagBack(f.tag, wireType, body + rest);
  }

  lemma {:induction false} PackedTooMany(l: LType, done: seq<FieldValue>, vs: seq<FieldValue>, max: nat)
    requires TypeOk(l) && Packable(l) && |done| <= max < |done| + |vs| && forall i :: 0 <= i < |vs| ==> Fits(l, vs[i])
    ensures DecPacked(l, EncPacked(l, vs), done, max) == None
    decreases |vs|
  {
    if |done| < max {
      PackedFirst(l, done, vs[0], EncPacked(l, vs[1..]), max);
      PackedTooMany(l, done + [vs[0]], vs[1..], max);
    } else {
      NumberBack(l, vs[0].n, EncPacked(l, vs[1..]));
    }
  }

  lemma PackableSame(dl: LType, l: LType)
    requires TypePart(dl, l)
    ensures Packable(dl) == Packable(l) && (Packable(l) <==> WireType(l) != WT_STRING)
  {}

  lemma ChunkFails(ds: Fields, f: Field, done: seq<FieldValue>, c: Chunk, st: map<nat, Slot>, rest: Bytes, seen: set<nat>)
    requires 1 <= f.tag < 0x2000_0000 && TypeOk(f.l) && f.h.Repeated? && Holding(ds, f, st, done) && ChunkOk(f, c)
    requires FieldWith(ds, f.tag).Some? && |done| <= f.h.max < |done| + |ChunkItems(c)|
    ensures DecMessage(ds, st, ChunkBytes(f, c) + rest, seen) == None
  {
    assert HoldingNow(ds, f, st, done);
    var g := FieldWith(ds, f.tag).value;
    match c
    case Run(vs) =>
      var p := EncPacked(f.l, vs);
      DelimitedBack(p, rest);
      PackedTooMany(f.l, done, vs, f.h.max);
      PackedProjects(g, f, done);
      KnownFails(ds, g, st, WT_STRING, WithLength(p), rest, seen);
    case One(v) =>
      PackableSame(g.l, f.l);
      KnownFails(ds, g, st, WireType(f.l), EncValue(f.l, v), rest, seen);
  }

  lemma ItemsAfter(done: seq<FieldValue>, cs: seq<Chunk>)
    requires cs != []
    ensures done + Items(cs) == done + ChunkItems(cs[0]) + Items(cs[1..])
  {}

  /** However a sender splits a repeated field into packed records and single items: behind the
      items there already the decoder gets all of them in order, or fails beyond the maximum. */
  lemma {:induction false} MixedSteps(ds: Fields, f: Field, done: seq<FieldValue>, cs: seq<Chunk>, st: map<nat, Slot>, rest: Bytes, seen: set<nat>)
    requires 1 <= f.tag < 0x2000_0000 && TypeOk(f.l) && f.h.Repeated? && Holding(ds, f, st, done) && ChunksOk(f, cs) && |done| <= f.h.max
    ensures DecMessage(ds, st, ChunksBytes(f, cs) + rest, seen) ==
      if FieldWith(ds, f.tag).Some? && |done| + |Items(cs)| > f.h.max then None
      else DecMessage(ds, With(ds, f, st, Slot(false, done + Items(cs))), rest, seen)
    decreases |cs|
  {
    if cs == [] {
      assert HoldingNow(ds, f, st, done);
      assert done + Items(cs) == done;
      Unchanged(ds, f, st, Slot(false, done), rest);
    } else {
      var c, after := cs[0], ChunksBytes(f, cs[1..]);
      var more := done + ChunkItems(c);
      Join(ChunkBytes(f, c), after, rest);
      ItemsAfter(done, cs);
      if |more| <= f.h.max {
        ChunkStep(ds, f, done, c, st, after + rest, seen);
        HoldingMore(ds, f, st, done, more);
        MixedSteps(ds, f, more, cs[1..], With(ds, f, st, Slot(false, more)), rest, seen);
        WithTwice(ds, f, st, Slot(false, more), Slot(false, done + Items(cs)));
      } else if FieldWith(ds, f.tag).Some? {
        ChunkFails(ds, f, done, c, st, after + rest, seen);
      } else {
        UnknownChunk(ds, f, c, st, after + rest, seen);
        assert HoldingNow(ds, f, st, done);
        UnknownChunks(ds, f, cs[1..], st, rest, seen);
      }
    }
  }

  lemma UnknownChunk(ds: Fields, f: Field, c: Chunk, st: map<nat, Slot>, rest: Bytes, seen: set<nat>)
    requires 1 <= f.tag < 0x2000_0000 && TypeOk(f.l) && ChunkOk(f, c) && FieldWith(ds, f.tag) == None
    ensures DecMessage(ds, st, ChunkBytes(f, c) + rest, seen) == DecMessage(ds, st, rest, seen)
  {
    match c
    case Run(vs) =>
      SkipDelimitedBack(EncPacked(f.l, vs), rest);
      UnknownStep(ds, f.tag, st, WT_STRING, WithLength(EncPacked(f.l, vs)), rest, seen);
    case One(v) =>
      SkipValueBack(f.l, v, rest);
      UnknownStep(ds, f.tag, st, WireType(f.l), EncValue(f.l, v), rest, seen);
  }

  lemma {:induction false} UnknownChunks(ds: Fields, f: Field, cs: seq<Chunk>, st: map<nat, Slot>, rest: Bytes, seen: set<nat>)
    requires 1 <= f.tag < 0x2000_0000 && TypeOk(f.l) && ChunksOk(f, cs) && FieldWith(ds, f.tag) == None
    ensures DecMessage(ds, st, ChunksBytes(f, cs) + rest, seen) == DecMessage(ds, st, rest, seen)
    decreases |cs|
  {
    if cs == [] {
      assert [] + rest == rest;
    } else {
      Join(ChunkBytes(f, cs[0]), ChunksBytes(f, cs[1..]), rest);
      UnknownChunk(ds, f, cs[0], st, ChunksBytes(f, cs[1..]) + rest, seen);
      UnknownChunks(ds, f, cs[1..], st, rest, seen);
    }
  }

  lemma UnsetIsDefault(f: Field, s: Slot)
    requires SlotFits(f, s) && Unset(f, s)
    ensures s == DefaultSlot(f)
    decreases f.l, 3
  {
    if f.h.Singular? {
      ZeroIsDefault(f.l, s.items[0]);
      assert s.items == [s.items[0]];
    } else if f.h.Optional? || f.h.Oneof? {
      assert s.items == [s.items[0]];
    }
  }

  lemma ZeroIsDefault(l: LType, v: FieldValue)
    requires Fits(l, v) && IsZero(l, v)
    ensures v == Default(l)
    decreases l, 2
  {
    if l.StringField? {
      NoNulKept(v.b);
    } else if l.Submessage? {
      AllUnsetIsDefaults(l.fields, v.m);
    }
  }

  lemma {:induction false} FieldsUnset(fs: Fields, m: map<nat, Slot>)
    requires FieldsFit(fs, m) && AllUnset(fs, m)
    ensures forall t <- Tags(fs) :: t in m && (FieldWith(fs, t).Some? && m[t] == DefaultSlot(FieldWith(fs, t).value))
    decreases fs, 0
  {
    match fs
    case End =>
    case More(f, rest) =>
      UnsetIsDefault(f, m[f.tag]);
      FieldsUnset(rest, m);
  }

  lemma AllUnsetIsDefaults(fs: Fields, m: map<nat, Slot>)
    requires MessageFits(fs, m) && AllUnset(fs, m)
    ensures m == Defaults(fs)
    decreases fs, 1
  {
    FieldsUnset(fs, m);
    DefaultsMatch(fs);
  }

  lemma {:induction false} DefaultsMatch(fs: Fields)
    ensures Defaults(fs).Keys == Tags(fs)
    ensures forall t <- Tags(fs) :: FieldWith(fs, t).Some? && Defaults(fs)[t] == DefaultSlot(FieldWith(fs, t).value)
  {
    match fs
    case End =>
    case More(f, rest) => DefaultsMatch(rest);
  }

  /** The defaults of the encoder's type, projected, are those of the decoder's. */
  lemma DefaultPart(dl: LType, l: LType)
    requires TypePart(dl, l) && TypeOk(dl) && TypeOk(l)
    ensures ProjectValue(dl, Default(l)) == Default(dl)
    decreases dl, 1
  {
    if dl.Submessage? {
      DefaultsPart(dl.fields, l.fields);
    }
  }

  lemma DefaultSlotPart(g: Field, f: Field)
    requires FieldPart(g, f) && TypeOk(g.l) && TypeOk(f.l)
    ensures ProjectSlot(g, DefaultSlot(f)) == DefaultSlot(g)
    decreases g, 1
  {
    if f.h.Repeated? {
    } else {
      DefaultPart(g.l, f.l);
      OneItem(g, Default(f.l), DefaultSlot(f).has);
    }
  }

  lemma {:induction false} DefaultsPart(ds: Fields, fs: Fields)
    requires PartOf(ds, fs) && DescriptorOk(ds) && DescriptorOk(fs)
    ensures Projected(ds, Defaults(fs)) == Defaults(ds)
    decreases ds, 1
  {
    match ds
    case End =>
    case More(g, rest) =>
      DefaultsMatch(fs);
      TagsFound(fs, g.tag);
      FoundOk(fs, g.tag);
      DefaultSlotPart(g, FieldWith(fs, g.tag).value);
      DefaultsPart(rest, fs);
  }

  lemma {:induction false} FoundOk(fs: Fields, t: nat)
    requires DescriptorOk(fs)
    ensures FieldWith(fs, t).Some? ==> TypeOk(FieldWith(fs, t).value.l)
  {
    match fs
    case End =>
    case More(f, rest) => FoundOk(rest, t);
  }

  lemma Unchanged(ds: Fields, f: Field, st: map<nat, Slot>, s: Slot, rest: Bytes)
    requires Known(ds, f) && (FieldWith(ds, f.tag).Some? ==> f.tag in st && st[f.tag] == ProjectSlot(FieldWith(ds, f.tag).value, s))
    ensures With(ds, f, st, s) == st && [] + rest == rest
  {
    assert FieldWith(ds, f.tag).Some? ==> st[f.tag := st[f.tag]] == st;
  }

  /** Decoding the encoding of one field: the field as it was, if the decoder knows it. */
  lemma SlotStep(ds: Fields, f: Field, s: Slot, st: map<nat, Slot>, rest: Bytes, seen: set<nat>)
    requires 1 <= f.tag < 0x2000_0000 && TypeOk(f.l) && SlotFits(f, s) && |EncSlot(f, s)| < 0x1_0000_0000
    requires Fresh(ds, f, st, s) && DescriptorOk(ds) && st.Keys == Tags(ds)
    ensures DecMessage(ds, st, EncSlot(f, s) + rest, seen) == DecMessage(ds, With(ds, f, st, s), rest, Seen(ds, f, seen))
    decreases f.l, 6
  {
    if f.h.Repeated? {
      RepeatedStep(ds, f, s, st, rest, seen);
    } else if Unset(f, s) {
      UnsetIsDefault(f, s);
      if FieldWith(ds, f.tag).Some? {
        DefaultSlotPart(FieldWith(ds, f.tag).value, f);
      }
      Unchanged(ds, f, st, s, rest);
    } else {
      OneValueStep(ds, f, s, st, rest, seen);
    }
  }

  lemma NoItems(ds: Fields, f: Field)
    requires Known(ds, f) && f.h.Repeated?
    ensures FieldWith(ds, f.tag).Some? ==> ProjectSlot(FieldWith(ds, f.tag).value, Slot(false, [])) == DefaultSlot(FieldWith(ds, f.tag).value) == Slot(false, [])
  {}

  lemma RepeatedStep(ds: Fields, f: Field, s: Slot, st: map<nat, Slot>, rest: Bytes, seen: set<nat>)
    requires 1 <= f.tag < 0x2000_0000 && TypeOk(f.l) && SlotFits(f, s) && |EncSlot(f, s)| < 0x1_0000_0000 && f.h.Repeated?
    requires Fresh(ds, f, st, s) && DescriptorOk(ds) && st.Keys == Tags(ds)
    ensures DecMessage(ds, st, EncSlot(f, s) + rest, seen) == DecMessage(ds, With(ds, f, st, s), rest, seen)
    decreases f.l, 5, |s.items| + 1
  {
    assert s == Slot(false, s.items);
    NoItems(ds, f);
    if s.items == [] {
      Unchanged(ds, f, st, s, rest);
    } else if Packable(f.l) {
      LengthGrows(EncPacked(f.l, s.items));
      PackedStep(ds, f, [], s.items, st, rest, seen);
      assert [] + s.items == s.items;
    } else {
      TaggedSteps(ds, f, [], s.items, st, rest, seen);
      assert [] + s.items == s.items;
    }
  }

  // ---- Messages ----

  /** The fields that the decoder knows are parts of those that the encoder describes. */
  ghost predicate Agree(ds: Fields, fs: Fields) {
    forall t :: FieldWith(ds, t).Some? && FieldWith(fs, t).Some? ==> FieldPart(FieldWith(ds, t).value, FieldWith(fs, t).value) && TypeOk(FieldWith(ds, t).value.l)
  }

  /** All but the fields still to come have been decoded. */
  ghost predicate Partial(ds: Fields, todo: Fields, m: map<nat, Slot>, st: map<nat, Slot>) {
    st.Keys == Tags(ds) && forall t <- Tags(ds) :: PartialAt(ds, todo, m, st, t)
  }

  ghost predicate PartialAt(ds: Fields, todo: Fields, m: map<nat, Slot>, st: map<nat, Slot>, t: nat)
    requires t in st
  {
    && FieldWith(ds, t).Some?
    && if t in Tags(todo) then st[t] == DefaultSlot(FieldWith(ds, t).value) else t in m && st[t] == ProjectSlot(FieldWith(ds, t).value, m[t])
  }

  ghost predicate RequiredDone(ds: Fields, todo: Fields, seen: set<nat>) {
    forall t <- Tags(ds) :: FieldWith(ds, t).Some? && (FieldWith(ds, t).value.h.Required? && t !in Tags(todo) ==> t in seen)
  }

  /** A member of a oneof that is not chosen is in its default state, as the decoder sees it. */
  ghost predicate UnchosenDefault(ds: Fields, m: map<nat, Slot>) {
    forall t <- Tags(ds) :: t in m && FieldWith(ds, t).Some? && FieldWith(ds, t).value.h.Oneof? && !m[t].has ==> ProjectSlot(FieldWith(ds, t).value, m[t]) == DefaultSlot(FieldWith(ds, t).value)
  }

  lemma NextFresh(ds: Fields, f: Field, rest: Fields, m: map<nat, Slot>, st: map<nat, Slot>)
    requires DescriptorOk(ds) && DescriptorOk(More(f, rest)) && Agree(ds, More(f, rest)) && Partial(ds, More(f, rest), m, st)
    requires f.tag in m && OneofsFit(ds, m) && UnchosenDefault(ds, m)
    ensures Fresh(ds, f, st, m[f.tag])
  {
    TagsFound(ds, f.tag);
    assert FieldWith(More(f, rest), f.tag) == Some(f);
    if FieldWith(ds, f.tag).Some? {
      assert PartialAt(ds, More(f, rest), m, st, f.tag);
      if m[f.tag].has || !f.h.Oneof? {
        forall t | t in Tags(ds) && t != f.tag && f.h.Oneof? && FieldWith(ds, t).Some? && FieldWith(ds, t).value.h == f.h
          ensures st[t] == DefaultSlot(FieldWith(ds, t).value)
        {
          assert PartialAt(ds, More(f, rest), m, st, t);
          assert SameOneof(ds, f.tag, t);
        }
        forall t | t in Tags(ds)
          ensures FieldWith(ds, t).Some?
        {
          TagsFound(ds, t);
        }
        ChosenSame(ds, FieldWith(ds, f.tag).value, st);
      }
    }
  }

  lemma NextPartial(ds: Fields, f: Field, rest: Fields, m: map<nat, Slot>, st: map<nat, Slot>, seen: set<nat>)
    requires DescriptorOk(ds) && DescriptorOk(More(f, rest)) && Agree(ds, More(f, rest)) && f.tag in m
    requires Partial(ds, More(f, rest), m, st) && RequiredDone(ds, More(f, rest), seen)
    ensures Partial(ds, rest, m, With(ds, f, st, m[f.tag])) && RequiredDone(ds, rest, Seen(ds, f, seen)) && Agree(ds, rest)
  {
    TagsFound(ds, f.tag);
    assert FieldWith(More(f, rest), f.tag) == Some(f);
    var st2 := With(ds, f, st, m[f.tag]);
    forall t | t in Tags(ds)
      ensures PartialAt(ds, rest, m, st2, t)
    {
      assert PartialAt(ds, More(f, rest), m, st, t);
    }
    forall t | FieldWith(ds, t).Some? && FieldWith(rest, t).Some?
      ensures FieldPart(FieldWith(ds, t).value, FieldWith(rest, t).value) && TypeOk(FieldWith(ds, t).value.l)
    {
      TagsFound(rest, t);
      assert FieldWith(More(f, rest), t) == FieldWith(rest, t);
    }
  }

  lemma {:induction false} FieldsBack(ds: Fields, todo: Fields, m: map<nat, Slot>, st: map<nat, Slot>, seen: set<nat>) returns (seen2: set<nat>)
    requires DescriptorOk(ds) && DescriptorOk(todo) && Agree(ds, todo) && FieldsFit(todo, m) && |EncMessage(todo, m)| < 0x1_0000_0000
    requires OneofsFit(ds, m) && UnchosenDefault(ds, m) && Partial(ds, todo, m, st) && RequiredDone(ds, todo, seen)
    ensures RequiredDone(ds, End, seen2)
    ensures DecMessage(ds, st, EncMessage(todo, m), seen) == Finish(ds, Projected(ds, m), seen2)
    decreases todo, 7
  {
    match todo
    case End =>
      seen2 := seen;
      ProjectedAt(ds, m);
      forall t | t in Tags(ds)
        ensures t in Projected(ds, m) && st[t] == Projected(ds, m)[t]
      {
        assert PartialAt(ds, End, m, st, t);
      }
      assert st == Projected(ds, m);
    case More(f, rest) =>
      NextFresh(ds, f, rest, m, st);
      NextPartial(ds, f, rest, m, st, seen);
      SlotStep(ds, f, m[f.tag], st, EncMessage(rest, m), seen);
      seen2 := FieldsBack(ds, rest, m, With(ds, f, st, m[f.tag]), Seen(ds, f, seen));
  }

  lemma {:induction false} ProjectedAt(ds: Fields, m: map<nat, Slot>)
    requires DescriptorOk(ds)
    ensures Projected(ds, m).Keys == Tags(ds) * m.Keys
    ensures forall t <- Tags(ds) :: FieldWith(ds, t).Some? && (t in m ==> Projected(ds, m)[t] == ProjectSlot(FieldWith(ds, t).value, m[t]))
  {
    match ds
    case End =>
    case More(g, rest) => ProjectedAt(rest, m);
  }

  lemma {:induction false} AllSeen(fs: Fields, ds: Fields, seen: set<nat>, index: nat)
    requires RequiredDone(ds, End, seen) && DescriptorOk(fs) && (forall t <- Tags(fs) :: t in Tags(ds) && FieldWith(ds, t) == FieldWith(fs, t))
    ensures RequiredSeen(fs, seen, index)
  {
    match fs
    case End =>
    case More(f, rest) =>
      forall t | t in Tags(rest)
        ensures t in Tags(ds) && FieldWith(ds, t) == FieldWith(rest, t)
      {
        assert t in Tags(fs) && t != f.tag;
      }
      assert f.tag in Tags(fs);
      AllSeen(rest, ds, seen, if f.h.Required? then index + 1 else index);
  }

  /** Known fields agree, and there are no others. */
  lemma {:induction false} PartAgrees(ds: Fields, fs: Fields)
    requires DescriptorOk(ds) && PartOf(ds, fs)
    ensures Agree(ds, fs)
    ensures forall t <- Tags(ds) :: FieldWith(ds, t).Some? && FieldWith(fs, t).Some?
  {
    match ds
    case End =>
    case More(g, rest) => PartAgrees(rest, fs);
  }

  lemma {:induction false} UnchosenAreDefault(fs: Fields, m: map<nat, Slot>)
    requires FieldsFit(fs, m)
    ensures forall t <- Tags(fs) :: t in m && FieldWith(fs, t).Some? && (FieldWith(fs, t).value.h.Oneof? && !m[t].has ==> m[t] == DefaultSlot(FieldWith(fs, t).value))
  {
    match fs
    case End =>
    case More(f, rest) => UnchosenAreDefault(rest, m); assert m[f.tag].has || !f.h.Oneof? || m[f.tag].items == [m[f.tag].items[0]];
  }

  lemma PartFits(ds: Fields, fs: Fields, m: map<nat, Slot>)
    requires DescriptorOk(ds) && DescriptorOk(fs) && MessageFits(fs, m) && PartOf(ds, fs)
    ensures OneofsFit(ds, m) && UnchosenDefault(ds, m) && Tags(ds) <= Tags(fs) && Agree(ds, fs)
  {
    UnchosenAreDefault(fs, m);
    PartAgrees(ds, fs);
    forall t | t in Tags(ds)
      ensures t in Tags(fs)
    {
      TagsFound(fs, t);
    }
    forall t, u | SameOneof(ds, t, u) && t in m && u in m
      ensures !(m[t].has && m[u].has)
    {
      TagsFound(ds, t);
      TagsFound(ds, u);
      assert SameOneof(fs, t, u);
    }
    forall t | t in Tags(ds) && t in m && FieldWith(ds, t).value.h.Oneof? && !m[t].has
      ensures ProjectSlot(FieldWith(ds, t).value, m[t]) == DefaultSlot(FieldWith(ds, t).value)
    {
      FoundOk(fs, t);
      DefaultSlotPart(FieldWith(ds, t).value, FieldWith(fs, t).value);
    }
  }

  lemma ProjectionBack(ds: Fields, fs: Fields, m: map<nat, Slot>)
    requires DescriptorOk(ds) && DescriptorOk(fs) && PartOf(ds, fs) && MessageFits(fs, m) && |EncMessage(fs, m)| < 0x1_0000_0000
    ensures DecMessage(ds, Defaults(ds), EncMessage(fs, m), {}) == Some(Projected(ds, m))
    decreases fs, 8
  {
    PartFits(ds, fs, m);
    DefaultsMatch(ds);
    forall t | t in Tags(ds)
      ensures PartialAt(ds, fs, m, Defaults(ds), t)
    {}
    var seen := FieldsBack(ds, fs, m, Defaults(ds), {});
    AllSeen(ds, ds, seen, 0);
  }

  // ---- A decoder that knows everything ----

  lemma TypeWhole(l: LType)
    requires TypeOk(l)
    ensures TypePart(l, l)
    decreases l, 0
  {
    if l.Submessage? {
      WholePart(l.fields, l.fields);
    }
  }

  lemma {:induction false} WholePart(ds: Fields, fs: Fields)
    requires DescriptorOk(ds) && forall t <- Tags(ds) :: FieldWith(ds, t) == FieldWith(fs, t)
    ensures PartOf(ds, fs)
    decreases ds, 0
  {
    match ds
    case End =>
    case More(g, rest) =>
      assert FieldWith(ds, g.tag) == Some(g) && g.tag in Tags(ds);
      TypeWhole(g.l);
      forall t | t in Tags(rest)
        ensures FieldWith(rest, t) == FieldWith(fs, t)
      {
        assert t in Tags(ds) && t != g.tag;
      }
      WholePart(rest, fs);
  }

  lemma ValueWhole(l: LType, v: FieldValue)
    requires Fits(l, v) && TypeOk(l)
    ensures ProjectValue(l, v) == v
    decreases l, 0
  {
    if l.Submessage? {
      MessageWhole(l.fields, v.m);
    }
  }

  lemma SlotWhole(f: Field, s: Slot)
    requires SlotFits(f, s) && TypeOk(f.l)
    ensures ProjectSlot(f, s) == s
    decreases f.l, 1
  {
    forall i | 0 <= i < |s.items|
      ensures ProjectItems(f.l, s.items)[i] == s.items[i]
    {
      ValueWhole(f.l, s.items[i]);
    }
  }

  lemma {:induction false} FieldsWhole(fs: Fields, m: map<nat, Slot>)
    requires FieldsFit(fs, m) && DescriptorOk(fs)
    ensures Projected(fs, m).Keys == Tags(fs) && Tags(fs) <= m.Keys && forall t <- Tags(fs) :: Projected(fs, m)[t] == m[t]
    decreases fs, 0
  {
    match fs
    case End =>
    case More(f, rest) =>
      SlotWhole(f, m[f.tag]);
      FieldsWhole(rest, m);
  }

  lemma MessageWhole(fs: Fields, m: map<nat, Slot>)
    requires MessageFits(fs, m) && DescriptorOk(fs)
    ensures Projected(fs, m) == m
    decreases fs, 1
  {
    FieldsWhole(fs, m);
  }

  lemma MessageBack(fs: Fields, m: map<nat, Slot>)
    requires DescriptorOk(fs) && MessageFits(fs, m) && |EncMessage(fs, m)| < 0x1_0000_0000
    ensures DecMessage(fs, Defaults(fs), EncMessage(fs, m), {}) == Some(m)
  {
    WholePart(fs, fs);
    ProjectionBack(fs, fs, m);
    MessageWhole(fs, m);
  }

  /** pb_decode undoes pb_encode. */
  lemma DecodeUndoesEncode(fs: Fields, m: map<nat, Slot>)
    requires DescriptorOk(fs) && MessageFits(fs, m) && |EncMessage(fs, m)| < 0x1_0000_0000
    ensures Decode(fs, EncMessage(fs, m)) == Some(m)
  {
    MessageBack(fs, m);
  }

  /** A decoder that knows only some of the fields, of the message or of messages nested in it,
      gets exactly those: skipping an unknown field passes over that field and nothing else. */
  lemma DecodeProjects(ds: Fields, fs: Fields, m: map<nat, Slot>)
    requires DescriptorOk(ds) && DescriptorOk(fs) && PartOf(ds, fs) && MessageFits(fs, m) && |EncMessage(fs, m)| < 0x1_0000_0000
    ensures Decode(ds, EncMessage(fs, m)) == Some(Projected(ds, m))
  {
    ProjectionBack(ds, fs, m);
  }
}
