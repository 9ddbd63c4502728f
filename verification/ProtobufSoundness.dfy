/** What nanopb's decoder makes of any bytes at all. */
module ProtobufSoundness {
  import opened Keys
  import opened Coding
  import opened Protobuf
  import opened ProtobufRoundTrip
  import opened ProtobufIter

  // ---- Whatever is decoded fits ----

  /** A value that its C type can hold; a decoded string may have a NUL in it. */
  ghost predicate Holdable(l: LType, v: FieldValue)
    decreases l, 0
  {
    match l
    case BytesField(max) => v.Blob? && |v.b| <= max
    case StringField(max) => v.Blob? && |v.b| <= max
    case FixedBytes(n) => v.Blob? && |v.b| == n
    case Submessage(fs) => v.Message? && HoldableMessage(fs, v.m)
    case _ => v.Num? && NumberFits(l, v.n)
  }

  ghost predicate HoldableSlot(f: Field, s: Slot)
    decreases f.l, 1
  {
    match f.h
    case Repeated(max) => !s.has && |s.items| <= max && forall i :: 0 <= i < |s.items| ==> Holdable(f.l, s.items[i])
    case Optional => |s.items| == 1 && Holdable(f.l, s.items[0])
    case Oneof(_) => |s.items| == 1 && Holdable(f.l, s.items[0])
    case _ => |s.items| == 1 && Holdable(f.l, s.items[0]) && s.has
  }

  ghost predicate HoldableFields(fs: Fields, m: map<nat, Slot>)
    decreases fs, 0
  {
    match fs
    case End => true
    case More(f, rest) => f.tag in m && HoldableSlot(f, m[f.tag]) && HoldableFields(rest, m)
  }

  ghost predicate HoldableMessage(fs: Fields, m: map<nat, Slot>)
    decreases fs, 1
  {
    m.Keys == Tags(fs) && HoldableFields(fs, m) && OneofsFit(fs, m)
  }

  lemma {:induction false} FieldsHold(fs: Fields, m: map<nat, Slot>)
    requires DescriptorOk(fs)
    ensures HoldableFields(fs, m) <==> forall t <- Tags(fs) :: t in m && FieldWith(fs, t).Some? && HoldableSlot(FieldWith(fs, t).value, m[t])
    decreases fs
  {
    match fs
    case End =>
    case More(f, rest) =>
      FieldsHold(rest, m);
      forall t | t in Tags(rest)
        ensures FieldWith(fs, t) == FieldWith(rest, t)
      {
        assert t != f.tag;
      }
      assert f.tag in Tags(fs);
  }

  // ---- Members of a oneof ----

  /** Choosing a member resets the others of its oneof, and touches nothing else. */
  lemma {:induction false} ChosenAt(fs: Fields, f: Field, m: map<nat, Slot>, t: nat)
    requires DescriptorOk(fs)
    ensures m.Keys <= Chosen(fs, f, m).Keys <= m.Keys + Tags(fs)
    ensures t in Chosen(fs, f, m) && FieldWith(fs, t).Some? && f.h.Oneof? && FieldWith(fs, t).value.h == f.h && t != f.tag ==> Chosen(fs, f, m)[t] == DefaultSlot(FieldWith(fs, t).value)
    ensures t in m && !(FieldWith(fs, t).Some? && f.h.Oneof? && FieldWith(fs, t).value.h == f.h && t != f.tag) ==> Chosen(fs, f, m)[t] == m[t]
    ensures f.h.Oneof? && FieldWith(fs, t).Some? && FieldWith(fs, t).value.h == f.h && t != f.tag ==> t in Chosen(fs, f, m)
    decreases fs
  {
    match fs
    case End =>
    case More(g, rest) =>
      ChosenAt(rest, f, m, t);
      TagsFound(rest, t);
      TagsFound(rest, g.tag);
  }

  lemma {:induction false} DefaultHolds(l: LType)
    requires TypeOk(l)
    ensures Holdable(l, Default(l))
    decreases l, 0
  {
    if l.Submessage? {
      DefaultsHold(l.fields);
    }
  }

  lemma DefaultSlotHolds(f: Field)
    requires TypeOk(f.l)
    ensures HoldableSlot(f, DefaultSlot(f))
    decreases f.l, 1
  {
    DefaultHolds(f.l);
  }

  lemma DefaultsHold(fs: Fields)
    requires DescriptorOk(fs)
    ensures HoldableMessage(fs, Defaults(fs))
    decreases fs, 1
  {
    DefaultsMatch(fs);
    FieldDefaults(fs);
    FieldsHold(fs, Defaults(fs));
  }

  lemma {:induction false} FieldDefaults(fs: Fields)
    requires DescriptorOk(fs)
    ensures forall t <- Tags(fs) :: FieldWith(fs, t).Some? && HoldableSlot(FieldWith(fs, t).value, DefaultSlot(FieldWith(fs, t).value))
    decreases fs, 0
  {
    match fs
    case End =>
    case More(f, rest) =>
      DefaultSlotHolds(f);
      FieldDefaults(rest);
  }

  // ---- Decoding ----

  lemma NumberHolds(l: LType, b: Bytes)
    requires DecNumber(l, b).Some?
    ensures NumberFits(l, DecNumber(l, b).value.0) && Packable(l)
  {}

  lemma {:induction false} PackedHolds(l: LType, b: Bytes, items: seq<FieldValue>, max: nat)
    requires Packable(l) && |items| <= max && DecPacked(l, b, items, max).Some?
    requires forall i :: 0 <= i < |items| ==> Holdable(l, items[i])
    ensures var vs := DecPacked(l, b, items, max).value; |vs| <= max && forall i :: 0 <= i < |vs| ==> Holdable(l, vs[i])
    decreases |b|
  {
    if b != [] {
      NumberHolds(l, b);
      var v := DecNumber(l, b).value;
      PackedHolds(l, v.1, items + [Num(v.0)], max);
    }
  }

  /** The message after field f has been decoded to `s`: at most one member of a oneof is chosen. */
  lemma PutHolds(fs: Fields, f: Field, m: map<nat, Slot>, s: Slot)
    requires DescriptorOk(fs) && HoldableMessage(fs, m) && FieldWith(fs, f.tag) == Some(f) && HoldableSlot(f, s)
    ensures HoldableMessage(fs, Chosen(fs, f, m)[f.tag := s])
  {
    var r := Chosen(fs, f, m)[f.tag := s];
    FieldsHold(fs, m);
    TagsFound(fs, f.tag);
    ChosenAt(fs, f, m, f.tag);
    forall t | t in Tags(fs)
      ensures t in r && FieldWith(fs, t).Some? && HoldableSlot(FieldWith(fs, t).value, r[t])
    {
      TagsFound(fs, t);
      FoundOk(fs, t);
      ChosenAt(fs, f, m, t);
      DefaultSlotHolds(FieldWith(fs, t).value);
    }
    FieldsHold(fs, r);
    forall t, u | SameOneof(fs, t, u) && t in r && u in r
      ensures !(r[t].has && r[u].has)
    {
      TagsFound(fs, t);
      TagsFound(fs, u);
      ChosenAt(fs, f, m, t);
      ChosenAt(fs, f, m, u);
    }
  }

  lemma ValueHolds(l: LType, cur: FieldValue, b: Bytes)
    requires TypeOk(l) && (l.Submessage? && cur.Message? ==> HoldableMessage(l.fields, cur.m)) && DecValue(l, cur, b).Some?
    ensures Holdable(l, DecValue(l, cur, b).value.0)
    decreases |b|, 1
  {
    if l.Submessage? {
      var d := Delimited(b).value;
      DefaultsHold(l.fields);
      MessageHolds(l.fields, if cur.Message? then cur.m else Defaults(l.fields), d.0, {});
    } else if Packable(l) {
      NumberHolds(l, b);
    }
  }

  lemma SlotHolds(f: Field, s: Slot, wireType: nat, b: Bytes)
    requires TypeOk(f.l) && HoldableSlot(f, s) && DecSlot(f, s, wireType, b).Some?
    ensures HoldableSlot(f, DecSlot(f, s, wireType, b).value.0)
    decreases |b|, 2
  {
    DefaultHolds(f.l);
    match f.h
    case Repeated(max) =>
      if wireType == WT_STRING && Packable(f.l) {
        PackedHolds(f.l, Delimited(b).value.0, s.items, max);
      } else {
        ValueHolds(f.l, Default(f.l), b);
      }
    case Oneof(_) => ValueHolds(f.l, Default(f.l), b);
    case Required => ValueHolds(f.l, Current(f, s), b);
    case Optional => ValueHolds(f.l, Current(f, s), b);
    case Singular => ValueHolds(f.l, Current(f, s), b);
  }

  /** Whatever the bytes: a message that has been decoded is one that its C struct can hold.
      Numbers are in range, strings, bytes and arrays within their maximum, nested messages
      likewise, and at most one member of a oneof is chosen. */
  lemma {:induction false} MessageHolds(fs: Fields, m: map<nat, Slot>, b: Bytes, seen: set<nat>)
    requires DescriptorOk(fs) && HoldableMessage(fs, m) && DecMessage(fs, m, b, seen).Some?
    ensures HoldableMessage(fs, DecMessage(fs, m, b, seen).value)
    decreases |b|, 0
  {
    if b != [] && DecTag(b).Tag? {
      var tag, wireType, rest := DecTag(b).tag, DecTag(b).wireType, DecTag(b).rest;
      match FieldWith(fs, tag)
      case None => MessageHolds(fs, m, SkipField(wireType, rest).value, seen);
      case Some(f) =>
        TagsFound(fs, tag);
        FoundOk(fs, tag);
        FieldsHold(fs, m);
        SlotHolds(f, m[tag], wireType, rest);
        var d := DecSlot(f, m[tag], wireType, rest).value;
        PutHolds(fs, f, m, d.0);
        MessageHolds(fs, Chosen(fs, f, m)[tag := d.0], d.1, if f.h.Required? then seen + {tag} else seen);
    }
  }

  /** pb_decode. */
  lemma DecodedHolds(fs: Fields, b: Bytes)
    requires DescriptorOk(fs) && Decode(fs, b).Some?
    ensures HoldableMessage(fs, Decode(fs, b).value)
  {
    DefaultsHold(fs);
    MessageHolds(fs, Defaults(fs), b, {});
  }

  /** A negative integer of at most 32 bits that was sent as an unsigned one of 32 bits is read
      as what it was. */
  lemma NegativeAsUnsigned(size: nat, n: int, rest: Bytes)
    requires (size == 1 || size == 2 || size == 4) && n < 0 && InSigned(size, n)
    ensures DecNumber(Varint(size), EncodeVarint(n + 0x1_0000_0000) + rest) == Some((n, rest))
  {
    Varint64RoundTrip(n + 0x1_0000_0000, rest);
  }

  // ---- Required fields ----

  /** Decoding without the check for required fields: the message, and the numbers of the
      required fields that came. */
  function Parsed(fs: Fields, m: map<nat, Slot>, b: Bytes): Option<(map<nat, Slot>, set<nat>)>
    decreases |b|
  {
    if b == [] then Some((m, {})) else
      match DecTag(b)
      case BadTag => None
      case Eof => Some((m, {}))
      case Tag(tag, wireType, rest) =>
        match FieldWith(fs, tag)
        case None => (match SkipField(wireType, rest) case None => None case Some(after) => Parsed(fs, m, after))
        case Some(f) =>
          match DecSlot(f, if tag in m then m[tag] else DefaultSlot(f), wireType, rest)
          case None => None
          case Some(d) =>
            match Parsed(fs, Chosen(fs, f, m)[tag := d.0], d.1)
            case None => None
            case Some(r) => Some((r.0, if f.h.Required? then r.1 + {tag} else r.1))
  }

  /** Field i is required, there are fewer than 64 required ones before it, and it did not come. */
  ghost predicate Missing(fs: seq<Field>, came: set<nat>, i: nat)
    requires i < |fs|
  {
    fs[i].h.Required? && RequiredBefore(fs, i) < 64 && fs[i].tag !in came
  }

  ghost predicate SomeMissing(fs: Fields, came: set<nat>) {
    exists i :: 0 <= i < |FieldArray(fs)| && Missing(FieldArray(fs), came, i)
  }

  lemma MissingIff(fs: Fields, came: set<nat>)
    ensures RequiredSeen(fs, came, 0) <==> !SomeMissing(fs, came)
  {
    var all := FieldArray(fs);
    RequiredSeenAt(fs, came, 0);
    forall i | 0 <= i < |all|
      ensures SeenAt(all, came, 0, i) <==> !Missing(all, came, i)
    {}
  }

  /** Decoding fails exactly where parsing fails or one of the first 64 required fields is not in
      the stream. */
  lemma {:induction false} RequiredIff(fs: Fields, m: map<nat, Slot>, b: Bytes, seen: set<nat>)
    ensures DecMessage(fs, m, b, seen) ==
      match Parsed(fs, m, b)
      case None => None
      case Some(r) => if SomeMissing(fs, seen + r.1) then None else Some(r.0)
    decreases |b|
  {
    MissingIff(fs, seen);
    assert seen + {} == seen;
    if b != [] && DecTag(b).Tag? {
      var tag, wireType, rest := DecTag(b).tag, DecTag(b).wireType, DecTag(b).rest;
      match FieldWith(fs, tag)
      case None =>
        if SkipField(wireType, rest).Some? {
          RequiredIff(fs, m, SkipField(wireType, rest).value, seen);
        }
      case Some(f) =>
        var d := DecSlot(f, if tag in m then m[tag] else DefaultSlot(f), wireType, rest);
        if d.Some? {
          var m2, seen2 := Chosen(fs, f, m)[tag := d.value.0], if f.h.Required? then seen + {tag} else seen;
          RequiredIff(fs, m2, d.value.1, seen2);
          var r := Parsed(fs, m2, d.value.1);
          if r.Some? && f.h.Required? {
            assert seen + {tag} + r.value.1 == seen + (r.value.1 + {tag});
          }
        }
    }
  }

  // ---- Which fields are left out ----

  /** Types whose default is recognised as zero: bytes of a fixed length are not, nor is a message
      with such a field or a required one. */
  predicate ZeroKnown(l: LType)
    decreases l, 0
  {
    match l
    case FixedBytes(n) => n == 0
    case Submessage(fs) => ZerosKnown(fs)
    case _ => true
  }

  predicate ZerosKnown(fs: Fields)
    decreases fs, 0
  {
    match fs
    case End => true
    case More(f, rest) => !f.h.Required? && (f.h.Singular? ==> ZeroKnown(f.l)) && ZerosKnown(rest)
  }

  lemma DefaultIsZero(l: LType)
    requires TypeOk(l)
    ensures IsZero(l, Default(l)) <==> ZeroKnown(l)
    decreases l, 0
  {
    if l.Submessage? {
      DefaultsMatch(l.fields);
      DefaultsAreUnset(l.fields, Defaults(l.fields));
    }
  }

  lemma {:induction false} DefaultsAreUnset(fs: Fields, m: map<nat, Slot>)
    requires DescriptorOk(fs) && forall t <- Tags(fs) :: t in m && FieldWith(fs, t).Some? && m[t] == DefaultSlot(FieldWith(fs, t).value)
    ensures AllUnset(fs, m) <==> ZerosKnown(fs)
    decreases fs, 0
  {
    match fs
    case End =>
    case More(f, rest) =>
      assert f.tag in Tags(fs);
      DefaultIsZero(f.l);
      forall t | t in Tags(rest)
        ensures t in m && FieldWith(rest, t).Some? && m[t] == DefaultSlot(FieldWith(rest, t).value)
      {
        assert t in Tags(fs) && t != f.tag;
      }
      DefaultsAreUnset(rest, m);
  }

  /** A field takes no bytes if and only if it holds its default and is not required, the default
      of a singular field being one that is recognised as zero. */
  lemma OmittedIff(f: Field, s: Slot)
    requires TypeOk(f.l) && SlotFits(f, s)
    ensures EncSlot(f, s) == [] <==> !f.h.Required? && s == DefaultSlot(f) && (f.h.Singular? ==> ZeroKnown(f.l))
  {
    DefaultIsZero(f.l);
    if Unset(f, s) {
      UnsetIsDefault(f, s);
    }
  }

  // ---- Varints of 32 bits ----

  /** What a decoder of 32 bits takes for the sign extension of a 64-bit number, from bit 35 on:
      seven bits at a time all zeros or all ones, and the top bit. */
  predicate Extension(v: nat, n: nat)
    decreases n
  {
    if n == 0 then v == 1 else (v % 128 == 0 || v % 128 == 127) && Extension(v / 128, n - 1)
  }

  lemma {:induction false} ZeroIsNone(n: nat)
    ensures !Extension(0, n)
    decreases n
  {
    if n > 0 {
      ZeroIsNone(n - 1);
    }
  }

  /** The bytes from the sixth on. */
  lemma {:induction false} TailIff(v: nat, result: nat, j: nat, rest: Bytes)
    requires 5 <= j <= 9 && 0 < v < 2 * Pow128(9 - j)
    ensures MoreVarint32(EncodeVarint(v) + rest, result, j) == if result >= 0x8000_0000 && Extension(v, 9 - j) then Some((result, rest)) else None
    decreases 9 - j
  {
    FirstByte(v, rest);
    if j < 9 {
      if v < 128 {
        ZeroIsNone(8 - j);
      } else {
        TailIff(v / 128, result, j + 1, rest);
      }
    }
  }

  lemma FifthByte(u: nat, result: nat, rest: Bytes)
    requires result < 0x1000_0000 && 0 < u < 0x10_0000_0000
    ensures var n := result + u * 0x1000_0000;
      MoreVarint32(EncodeVarint(u) + rest, result, 4) ==
        if u < 16 then Some((n, rest))
        else if n % 0x1_0000_0000 >= 0x8000_0000 && Extension(u / 128, 4) then Some((n % 0x1_0000_0000, rest))
        else None
  {
    Pow128Values();
    FirstByte(u, rest);
    var low := u % 128;
    LowBits(u, result);
    assert Pow128(4) == 0x1000_0000;
    if u < 128 {
      ZeroIsNone(4);
    } else {
      TailIff(u / 128, (result + low * 0x1000_0000) % 0x1_0000_0000, 5, rest);
    }
  }

  lemma LowBits(u: nat, result: nat)
    ensures (result + u % 128 * 0x1000_0000) % 0x1_0000_0000 == (result + u * 0x1000_0000) % 0x1_0000_0000
  {
    assert u == u / 128 * 128 + u % 128;
    assert u * 0x1000_0000 == u / 128 * 8 * 0x1_0000_0000 + u % 128 * 0x1000_0000;
  }

  /** The number, if it has 32 bits or is taken for a negative one. */
  function Narrowed(n: nat): Option<nat> {
    if n < 0x1_0000_0000 then Some(n)
    else if n % 0x1_0000_0000 >= 0x8000_0000 && Extension(n / 0x8_0000_0000, 4) then Some(n % 0x1_0000_0000)
    else None
  }

  lemma HighBits(u: nat, result: nat)
    requires result < 0x1000_0000
    ensures (result + u * 0x1000_0000) / 0x8_0000_0000 == u / 128
    ensures u < 16 <==> result + u * 0x1000_0000 < 0x1_0000_0000
  {}

  lemma NextDigit(u: nat, result: nat, w: nat)
    requires result < w
    ensures result + u % 128 * w < 128 * w && result + u % 128 * w + u / 128 * (128 * w) == result + u * w
  {
    ProtobufRoundTrip.Distribute(u, w);
    Below128(u % 128, w);
  }

  lemma Below128(d: nat, w: nat)
    requires d < 128
    ensures d * w <= 127 * w
  {
    assert 127 * w == d * w + (127 - d) * w;
  }

  ghost predicate Read32(u: nat, result: nat, j: nat, w: nat, rest: Bytes) {
    MoreVarint32(EncodeVarint(u) + rest, result, j) == (match Narrowed(result + u * w) case None => None case Some(n) => Some((n, rest)))
  }

  lemma LastOfFour(u: nat, result: nat, rest: Bytes)
    requires result < 0x1000_0000 && 0 < u < 0x10_0000_0000
    ensures Read32(u, result, 4, 0x1000_0000, rest)
  {
    FifthByte(u, result, rest);
    HighBits(u, result);
  }

  lemma OneOfFour(u: nat, result: nat, j: nat, w: nat, rest: Bytes)
    requires 1 <= j <= 3 && w == Pow128(j) && result < w && 0 < u < 128
    ensures Read32(u, result, j, w, rest)
  {
    Pow128Values();
    FirstByte(u, rest);
    assert w <= 0x20_0000;
    NextDigit(u, result, w);
  }

  lemma {:induction false} FirstFour(u: nat, result: nat, j: nat, w: nat, rest: Bytes)
    requires 1 <= j <= 4 && w == Pow128(j) && result < w && 0 < u && u * w < 0x1_0000_0000_0000_0000
    ensures Read32(u, result, j, w, rest)
    decreases 4 - j
  {
    Pow128Values();
    if j == 4 {
      LastOfFour(u, result, rest);
    } else if u < 128 {
      OneOfFour(u, result, j, w, rest);
    } else {
      FirstByte(u, rest);
      NextDigit(u, result, w);
      assert Pow128(j + 1) == 128 * w;
      FirstFour(u / 128, result + u % 128 * w, j + 1, 128 * w, rest);
      MoreStep(EncodeVarint(u) + rest, result, j, w);
    }
  }

  /** The decoder of 32-bit numbers on the bytes of any 64-bit number: it takes those of 32 bits,
      and those with bit 31 and the top bit set whose bits from 35 on come in sevens of zeros or
      ones, cutting them to 32 bits; it fails on all others. */
  lemma Varint32Exact(u: nat, rest: Bytes)
    requires u < 0x1_0000_0000_0000_0000
    ensures Varint32(EncodeVarint(u) + rest) == match Narrowed(u) case None => None case Some(n) => Some((n, rest))
  {
    FirstByte(u, rest);
    if u >= 128 {
      assert Pow128(1) == 128 by { Pow128Values(); }
      FirstFour(u / 128, u % 128, 1, 128, rest);
      assert u == u % 128 + u / 128 * 128;
    }
  }

  /** So a number that is no sign extension is taken, too: bits 32 to 34 are not looked at. */
  lemma NotASignExtension()
    ensures Varint32(EncodeVarint(0xFFFF_FFF8_8000_0000) + []) == Some((0x8000_0000, []))
  {
    Varint32Exact(0xFFFF_FFF8_8000_0000, []);
    assert Extension(1, 0) && Extension(255, 1) && Extension(32767, 2) && Extension(4194303, 3) && Extension(536870911, 4);
  }

  /** What skipping by wire type takes: a varint, 8 bytes, a slice, 4 bytes, or nothing at all. */
  lemma SkipsExactly(wireType: nat, b: Bytes)
    ensures wireType == 1 ==> SkipField(wireType, b) == if |b| >= 8 then Some(b[8..]) else None
    ensures wireType == 5 ==> SkipField(wireType, b) == if |b| >= 4 then Some(b[4..]) else None
    ensures wireType == 3 || wireType == 4 || wireType > 5 ==> SkipField(wireType, b) == None
    ensures wireType == 0 ==> forall n :: 0 <= n < |b| && b[n] < 128 && (forall i :: 0 <= i < n ==> b[i] >= 128) ==> SkipField(0, b) == Some(b[n + 1..])
    ensures wireType == 0 && (forall i :: 0 <= i < |b| ==> b[i] >= 128) ==> SkipField(0, b) == None
  {
    forall n | 0 <= n < |b| && b[n] < 128 && (forall i :: 0 <= i < n ==> b[i] >= 128)
      ensures SkipVarint(b) == Some(b[n + 1..])
    {
      SkipEnds(b, n);
    }
    if forall i :: 0 <= i < |b| ==> b[i] >= 128 {
      SkipNever(b);
    }
  }

  lemma {:induction false} SkipEnds(b: Bytes, n: nat)
    requires n < |b| && b[n] < 128 && forall i :: 0 <= i < n ==> b[i] >= 128
    ensures SkipVarint(b) == Some(b[n + 1..])
    decreases n
  {
    if n > 0 {
      SkipEnds(b[1..], n - 1);
    }
  }

  lemma {:induction false} SkipNever(b: Bytes)
    requires forall i :: 0 <= i < |b| ==> b[i] >= 128
    ensures SkipVarint(b) == None
    decreases |b|
  {
    if b != [] {
      SkipNever(b[1..]);
    }
  }
}
