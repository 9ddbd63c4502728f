/** nanopb: descriptors, message values, and what the encoder writes and the decoder accepts. */
module Protobuf {
  import opened Keys
  import opened Coding

  // ---- Descriptors ----

  /** Field types; a size is that of the C integer in bytes, a maximum a buffer capacity. */
  datatype LType =
    | Bool
    | Varint(size: nat)
    | UVarint(size: nat)
    | SVarint(size: nat)
    | Fixed32
    | Fixed64
    | BytesField(max: nat)
    | StringField(max: nat)
    | FixedBytes(size: nat)
    | Submessage(fields: Fields)

  /** Singular fields are optional without a has_ flag; the members of a oneof share a group. */
  datatype HType = Required | Optional | Singular | Repeated(max: nat) | Oneof(group: nat)

  datatype Field = Field(tag: nat, h: HType, l: LType)

  /** A field array up to its terminator. */
  datatype Fields = End | More(first: Field, rest: Fields)

  const MAX_REQUIRED: nat := 64

  function FieldWith(fs: Fields, tag: nat): Option<Field> {
    match fs
    case End => None
    case More(f, rest) => if f.tag == tag then Some(f) else FieldWith(rest, tag)
  }

  function Tags(fs: Fields): set<nat> {
    match fs
    case End => {}
    case More(f, rest) => {f.tag} + Tags(rest)
  }

  // ---- Values ----

  datatype FieldValue = Num(n: int) | Blob(b: Bytes) | Message(m: map<nat, Slot>)

  /** The content of a field: its has_ flag, or whether it is the chosen member of its oneof. */
  datatype Slot = Slot(has: bool, items: seq<FieldValue>)

  function Zeros(n: nat): Bytes { seq(n, _ => 0) }

  function Default(l: LType): FieldValue {
    match l
    case BytesField(_) => Blob([])
    case StringField(_) => Blob([])
    case FixedBytes(n) => Blob(Zeros(n))
    case Submessage(fs) => Message(Defaults(fs))
    case _ => Num(0)
  }

  function DefaultSlot(f: Field): Slot {
    match f.h
    case Repeated(_) => Slot(false, [])
    case Optional => Slot(false, [Default(f.l)])
    case Oneof(_) => Slot(false, [Default(f.l)])
    case _ => Slot(true, [Default(f.l)])
  }

  /** pb_message_set_to_defaults. */
  function Defaults(fs: Fields): map<nat, Slot> {
    match fs
    case End => map[]
    case More(f, rest) => Defaults(rest)[f.tag := DefaultSlot(f)]
  }

  function Bits(size: nat): nat {
    if size == 1 then 0x100 else if size == 2 then 0x1_0000 else if size == 4 then 0x1_0000_0000 else 0x1_0000_0000_0000_0000
  }

  predicate SizeOk(size: nat) {
    size == 1 || size == 2 || size == 4 || size == 8
  }

  predicate InSigned(size: nat, n: int) {
    -(Bits(size) as int) <= 2 * n < Bits(size)
  }

  predicate InUnsigned(size: nat, n: int) {
    0 <= n < Bits(size)
  }

  // ---- Encoding ----

  function ToUnsigned64(n: int): int {
    if n < 0 then n + 0x1_0000_0000_0000_0000 else n
  }

  function ZigZag(n: int): int {
    if n < 0 then -2 * n - 1 else 2 * n
  }

  predicate Packable(l: LType) {
    l.Bool? || l.Varint? || l.UVarint? || l.SVarint? || l.Fixed32? || l.Fixed64?
  }

  function WireType(l: LType): nat {
    if l.Bool? || l.Varint? || l.UVarint? || l.SVarint? then 0
    else if l.Fixed64? then 1
    else if l.Fixed32? then 5
    else 2
  }

  const WT_STRING: nat := 2

  /** A C string ends at its first NUL. */
  function UpToNul(b: Bytes): Bytes {
    if b == [] || b[0] == 0 then [] else [b[0]] + UpToNul(b[1..])
  }

  function Abs(n: int): nat { if n < 0 then -n else n }

  function EncNumber(l: LType, n: int): Bytes {
    match l
    case Bool => EncodeVarint(if n != 0 then 1 else 0)
    case Varint(_) => EncodeVarint(Abs(ToUnsigned64(n)))
    case UVarint(_) => EncodeVarint(Abs(n))
    case SVarint(_) => EncodeVarint(Abs(ZigZag(n)))
    case Fixed32 => EncodeFixed32(Abs(n) % 0x1_0000_0000)
    case Fixed64 => EncodeFixed64(Abs(n) % 0x1_0000_0000_0000_0000)
    case _ => []
  }

  function WithLength(b: Bytes): Bytes {
    EncodeVarint(|b|) + b
  }

  /** The encoding of one value, behind its tag. */
  function EncValue(l: LType, v: FieldValue): Bytes
    decreases l, 0
  {
    match l
    case BytesField(_) => if v.Blob? then WithLength(v.b) else []
    case StringField(_) => if v.Blob? then WithLength(UpToNul(v.b)) else []
    case FixedBytes(_) => if v.Blob? then WithLength(v.b) else []
    case Submessage(fs) => if v.Message? then WithLength(EncMessage(fs, v.m)) else []
    case _ => if v.Num? then EncNumber(l, v.n) else []
  }

  function EncTag(tag: nat, wireType: nat): Bytes {
    EncodeVarint(tag * 8 + wireType)
  }

  /** Items of a repeated field, each behind its tag. */
  function EncTagged(tag: nat, l: LType, vs: seq<FieldValue>): Bytes
    decreases l, |vs| + 1
  {
    if vs == [] then [] else EncTag(tag, WireType(l)) + EncValue(l, vs[0]) + EncTagged(tag, l, vs[1..])
  }

  function EncPacked(l: LType, vs: seq<FieldValue>): Bytes {
    if vs == [] then [] else (if vs[0].Num? then EncNumber(l, vs[0].n) else []) + EncPacked(l, vs[1..])
  }

  /** pb_check_proto3_default_value. */
  predicate Unset(f: Field, s: Slot)
    decreases f.l, 1
  {
    match f.h
    case Required => false
    case Repeated(_) => s.items == []
    case Oneof(_) => !s.has
    case Optional => !s.has
    case Singular => s.items != [] && IsZero(f.l, s.items[0])
  }

  predicate IsZero(l: LType, v: FieldValue)
    decreases l, 0
  {
    match l
    case BytesField(_) => v.Blob? && v.b == []
    case StringField(_) => v.Blob? && UpToNul(v.b) == []
    case FixedBytes(n) => n == 0
    case Submessage(fs) => v.Message? && AllUnset(fs, v.m)
    case _ => v.Num? && v.n == 0
  }

  predicate AllUnset(fs: Fields, m: map<nat, Slot>)
    decreases fs, 0
  {
    match fs
    case End => true
    case More(f, rest) => f.tag in m && Unset(f, m[f.tag]) && AllUnset(rest, m)
  }

  /** encode_basic_field. */
  function EncSlot(f: Field, s: Slot): Bytes
    decreases f.l, |s.items| + 2
  {
    match f.h
    case Repeated(_) =>
      if s.items == [] then [] else
        if Packable(f.l) then EncTag(f.tag, WT_STRING) + WithLength(EncPacked(f.l, s.items)) else EncTagged(f.tag, f.l, s.items)
    case _ => if Unset(f, s) || s.items == [] then [] else EncTag(f.tag, WireType(f.l)) + EncValue(f.l, s.items[0])
  }

  /** pb_encode: the fields in the order of the descriptor. */
  function EncMessage(fs: Fields, m: map<nat, Slot>): Bytes
    decreases fs, 0
  {
    match fs
    case End => []
    case More(f, rest) => (if f.tag in m then EncSlot(f, m[f.tag]) else []) + EncMessage(rest, m)
  }

  // ---- Decoding ----

  /** pb_decode_varint32, after j bytes: bits beyond the 32nd must be a sign extension. */
  function MoreVarint32(b: Bytes, result: nat, j: nat): (r: Option<(nat, Bytes)>)
    ensures r.Some? ==> |r.value.1| < |b|
    decreases |b|
  {
    if b == [] then None else
      var low := b[0] % 128;
      if j >= 5 then
        if low != 0 && (result < 0x8000_0000 || b[0] != (if j < 9 then 255 else 1)) then None
        else if b[0] >= 128 then MoreVarint32(b[1..], result, j + 1)
        else Some((result, b[1..]))
      else
        var r := (result + low * Pow128(j)) % 0x1_0000_0000;
        if b[0] >= 128 then MoreVarint32(b[1..], r, j + 1)
        else if j == 4 && b[0] / 16 % 8 != 0 then None
        else Some((r, b[1..]))
  }

  function Varint32(b: Bytes): (r: Option<(nat, Bytes)>)
    ensures r.Some? ==> |r.value.1| < |b|
  {
    if b == [] then None
    else if b[0] < 128 then Some((b[0], b[1..]))
    else MoreVarint32(b[1..], b[0] - 128, 1)
  }

  datatype TagResult = Eof | BadTag | Tag(tag: nat, wireType: nat, rest: Bytes)

  /** pb_decode_tag; a zero ends the message. */
  function DecTag(b: Bytes): (r: TagResult)
    ensures r.Tag? ==> |r.rest| < |b|
  {
    match Varint32(b)
    case None => if b == [] then Eof else BadTag
    case Some(t) => if t.0 == 0 then Eof else Tag(t.0 / 8, t.0 % 8, t.1)
  }

  function SkipVarint(b: Bytes): (r: Option<Bytes>)
    ensures r.Some? ==> |r.value| < |b|
  {
    if b == [] then None else if b[0] < 128 then Some(b[1..]) else SkipVarint(b[1..])
  }

  /** pb_make_string_substream: the delimited bytes, and what follows them. */
  function Delimited(b: Bytes): (r: Option<(Bytes, Bytes)>)
    ensures r.Some? ==> |r.value.0| < |b| && |r.value.1| < |b|
  {
    match Varint32(b)
    case None => None
    case Some(n) => if |n.1| < n.0 then None else Some((n.1[..n.0], n.1[n.0..]))
  }

  /** pb_skip_field. */
  function SkipField(wireType: nat, b: Bytes): (r: Option<Bytes>)
    ensures r.Some? ==> |r.value| <= |b|
  {
    if wireType == 0 then SkipVarint(b)
    else if wireType == 1 then if |b| < 8 then None else Some(b[8..])
    else if wireType == WT_STRING then match Delimited(b) case None => None case Some(d) => Some(d.1)
    else if wireType == 5 then if |b| < 4 then None else Some(b[4..])
    else None
  }

  function Signed64(u: nat): int {
    if u < 0x8000_0000_0000_0000 then u else u - 0x1_0000_0000_0000_0000
  }

  function Signed32(u: nat): int {
    var w := u % 0x1_0000_0000;
    if w < 0x8000_0000 then w else w - 0x1_0000_0000
  }

  function UnZigZag(u: nat): int {
    if u % 2 == 1 then -(u / 2) - 1 else u / 2
  }

  /** Values of the packable types; an integer that does not fit its field is an error. */
  function DecNumber(l: LType, b: Bytes): (r: Option<(int, Bytes)>)
    ensures r.Some? ==> |r.value.1| < |b|
  {
    match l
    case Bool => (match Varint32(b) case None => None case Some(v) => Some((if v.0 != 0 then 1 else 0, v.1)))
    case Varint(size) =>
      (match GetVarint64(b)
       case None => None
       case Some(v) =>
         var n := if size == 8 then Signed64(v.0) else Signed32(v.0);
         if InSigned(size, n) then Some((n, v.1)) else None)
    case UVarint(size) =>
      (match GetVarint64(b)
       case None => None
       case Some(v) => if InUnsigned(size, v.0) then Some((v.0, v.1)) else None)
    case SVarint(size) =>
      (match GetVarint64(b)
       case None => None
       case Some(v) => if InSigned(size, UnZigZag(v.0)) then Some((UnZigZag(v.0), v.1)) else None)
    case Fixed32 => if |b| < 4 then None else Some((DecodeFixed32(b), b[4..]))
    case Fixed64 => if |b| < 8 then None else Some((DecodeFixed64(b), b[8..]))
    case _ => None
  }

  /** The packed items of a substream, behind those there already. */
  function DecPacked(l: LType, b: Bytes, items: seq<FieldValue>, max: nat): Option<seq<FieldValue>>
    decreases |b|
  {
    if b == [] then Some(items)
    else if |items| >= max then None
    else match DecNumber(l, b) case None => None case Some(v) => DecPacked(l, v.1, items + [Num(v.0)], max)
  }

  /** The field decoders: a value in place of `cur`, which only a submessage builds upon. */
  function DecValue(l: LType, cur: FieldValue, b: Bytes): (r: Option<(FieldValue, Bytes)>)
    ensures r.Some? ==> |r.value.1| <= |b|
    decreases |b|, 1
  {
    match l
    case BytesField(max) => (match Delimited(b) case None => None case Some(d) => if |d.0| > max then None else Some((Blob(d.0), d.1)))
    case StringField(max) => (match Delimited(b) case None => None case Some(d) => if |d.0| > max then None else Some((Blob(d.0), d.1)))
    case FixedBytes(n) =>
      (match Delimited(b)
       case None => None
       case Some(d) => if d.0 == [] then Some((Blob(Zeros(n)), d.1)) else if |d.0| != n then None else Some((Blob(d.0), d.1)))
    case Submessage(fs) =>
      (match Delimited(b)
       case None => None
       case Some(d) =>
         var start := if cur.Message? then cur.m else Defaults(fs);
         match DecMessage(fs, start, d.0, {}) case None => None case Some(m) => Some((Message(m), d.1)))
    case _ => (match DecNumber(l, b) case None => None case Some(v) => Some((Num(v.0), v.1)))
  }

  function Current(f: Field, s: Slot): FieldValue {
    if s.items != [] then s.items[0] else Default(f.l)
  }

  /** decode_static_field. */
  function DecSlot(f: Field, s: Slot, wireType: nat, b: Bytes): (r: Option<(Slot, Bytes)>)
    ensures r.Some? ==> |r.value.1| <= |b|
    decreases |b|, 2
  {
    match f.h
    case Repeated(max) =>
      if wireType == WT_STRING && Packable(f.l) then
        match Delimited(b)
        case None => None
        case Some(d) => (match DecPacked(f.l, d.0, s.items, max) case None => None case Some(vs) => Some((Slot(false, vs), d.1)))
      else if |s.items| >= max then None
      else (match DecValue(f.l, Default(f.l), b) case None => None case Some(v) => Some((Slot(false, s.items + [v.0]), v.1)))
    case Oneof(_) => (match DecValue(f.l, Default(f.l), b) case None => None case Some(v) => Some((Slot(true, [v.0]), v.1)))
    case _ => (match DecValue(f.l, Current(f, s), b) case None => None case Some(v) => Some((Slot(true, [v.0]), v.1)))
  }

  /** Choosing one member of a oneof unsets the others. */
  function Chosen(fs: Fields, f: Field, m: map<nat, Slot>): map<nat, Slot> {
    match fs
    case End => m
    case More(g, rest) =>
      var m2 := Chosen(rest, f, m);
      if f.h.Oneof? && g.h == f.h && g.tag != f.tag then m2[g.tag := DefaultSlot(g)] else m2
  }

  /** The first 64 required fields must have been seen. */
  predicate RequiredSeen(fs: Fields, seen: set<nat>, index: nat) {
    match fs
    case End => true
    case More(f, rest) =>
      if f.h.Required? then (index < MAX_REQUIRED ==> f.tag in seen) && RequiredSeen(rest, seen, index + 1)
      else RequiredSeen(rest, seen, index)
  }

  /** pb_decode_noinit. */
  function DecMessage(fs: Fields, m: map<nat, Slot>, b: Bytes, seen: set<nat>): Option<map<nat, Slot>>
    decreases |b|, 0
  {
    if b == [] then Finish(fs, m, seen) else
      match DecTag(b)
      case BadTag => None
      case Eof => Finish(fs, m, seen)
      case Tag(tag, wireType, rest) =>
        match FieldWith(fs, tag)
        case None => (match SkipField(wireType, rest) case None => None case Some(after) => DecMessage(fs, m, after, seen))
        case Some(f) =>
          match DecSlot(f, if tag in m then m[tag] else DefaultSlot(f), wireType, rest)
          case None => None
          case Some(d) => DecMessage(fs, Chosen(fs, f, m)[tag := d.0], d.1, if f.h.Required? then seen + {tag} else seen)
  }

  function Finish(fs: Fields, m: map<nat, Slot>, seen: set<nat>): Option<map<nat, Slot>> {
    if RequiredSeen(fs, seen, 0) then Some(m) else None
  }

  /** pb_decode. */
  function Decode(fs: Fields, b: Bytes): Option<map<nat, Slot>> {
    DecMessage(fs, Defaults(fs), b, {})
  }
}
