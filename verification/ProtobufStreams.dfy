/** nanopb's encoder on output streams: a sizing pass counts what a writing pass emits. */
module ProtobufStreams {
  import opened Keys
  import opened Coding
  import opened Protobuf
  import opened ProtobufRoundTrip

  // ---- What the C types guarantee, and what the encoder checks ----

  ghost predicate TypedValue(l: LType, v: FieldValue)
    decreases l, 0
  {
    match l
    case BytesField(_) => v.Blob?
    case StringField(_) => v.Blob?
    case FixedBytes(n) => v.Blob? && |v.b| == n
    case Submessage(fs) => v.Message? && TypedMessage(fs, v.m)
    case _ => v.Num? && NumberFits(l, v.n)
  }

  ghost predicate TypedSlot(f: Field, s: Slot)
    decreases f.l, 1
  {
    if f.h.Repeated? then forall i :: 0 <= i < |s.items| ==> TypedValue(f.l, s.items[i]) else |s.items| == 1 && TypedValue(f.l, s.items[0])
  }

  ghost predicate TypedMessage(fs: Fields, m: map<nat, Slot>)
    decreases fs, 0
  {
    match fs
    case End => true
    case More(f, rest) => f.tag in m && TypedSlot(f, m[f.tag]) && TypedMessage(rest, m)
  }

  /** No bytes field is longer than its buffer, and no array than its maximum. */
  predicate Within(l: LType, v: FieldValue)
    decreases l, 0
  {
    match l
    case BytesField(max) => v.Blob? && |v.b| <= max
    case Submessage(fs) => v.Message? && AllWithin(fs, v.m)
    case _ => true
  }

  predicate EachWithin(l: LType, vs: seq<FieldValue>)
    decreases l, 1, |vs|
  {
    vs == [] || (Within(l, vs[0]) && EachWithin(l, vs[1..]))
  }

  predicate SlotWithin(f: Field, s: Slot)
    decreases f.l, 2
  {
    match f.h
    case Repeated(max) => s.items == [] || (|s.items| <= max && EachWithin(f.l, s.items))
    case _ => Unset(f, s) || s.items == [] || Within(f.l, s.items[0])
  }

  predicate AllWithin(fs: Fields, m: map<nat, Slot>)
    decreases fs, 0
  {
    match fs
    case End => true
    case More(f, rest) => (f.tag in m ==> SlotWithin(f, m[f.tag])) && AllWithin(rest, m)
  }

  // ---- Streams ----

  /** pb_ostream_t; a sizing stream has no callback and only counts. */
  class OStream {
    const sizing: bool
    const maxSize: nat
    var out: Bytes
    var written: nat

    ghost predicate Valid()
      reads this
    {
      sizing || written <= maxSize
    }

    constructor (counting: bool, max: nat)
      ensures Valid() && sizing == counting && maxSize == max && out == [] && written == 0
    {
      sizing, maxSize, out, written := counting, max, [], 0;
    }

    /** The stream after `e`: written if allowed and if there is room, or just counted. */
    twostate predicate Took(e: Bytes, allowed: bool, ok: bool)
      reads this
    {
      && (ok <==> allowed && (sizing || old(written) + |e| <= maxSize))
      && (ok ==> written == old(written) + |e| && out == if sizing then old(out) else old(out) + e)
    }

    method Write(b: Bytes) returns (ok: bool)
      requires Valid()
      modifies this
      ensures Valid() && Took(b, true, ok)
    {
      if |b| > 0 && !sizing {
        if written + |b| > maxSize {
          return false;
        }
        out := out + b;
      }
      written := written + |b|;
      ok := true;
    }
  }

  /** pb_encode_varint fills a buffer from the low end, then clears the last continuation bit. */
  method VarintBytes(v: nat) returns (b: Bytes)
    ensures b == EncodeVarint(v)
  {
    if v <= 0x7F {
      return [v];
    }
    b := [];
    var value: nat := v;
    while value > 0
      invariant value > 0 ==> EncodeVarint(v) == b + EncodeVarint(value)
      invariant value == 0 ==> b != [] && b[|b| - 1] >= 128 && EncodeVarint(v) == b[..|b| - 1] + [b[|b| - 1] - 128]
      decreases value
    {
      var byte := value % 128 + 128;
      Join(b, [byte], EncodeVarint(value / 128));
      b := b + [byte];
      value := value / 128;
    }
    b := b[|b| - 1 := b[|b| - 1] - 128];
  }

  method EncodeVarintTo(s: OStream, v: nat) returns (ok: bool)
    requires s.Valid()
    modifies s
    ensures s.Valid() && s.Took(EncodeVarint(v), true, ok)
  {
    var b := VarintBytes(v);
    ok := s.Write(b);
  }

  /** pb_encode_string. */
  method EncodeString(s: OStream, b: Bytes) returns (ok: bool)
    requires s.Valid()
    modifies s
    ensures s.Valid() && s.Took(WithLength(b), true, ok)
  {
    ok := EncodeVarintTo(s, |b|);
    if ok {
      Join(old(s.out), EncodeVarint(|b|), b);
      ok := s.Write(b);
    }
  }

  /** The encoders of the packable types. */
  method EncodeNumber(s: OStream, l: LType, n: int) returns (ok: bool)
    requires s.Valid() && NumberFits(l, n)
    modifies s
    ensures s.Valid() && s.Took(EncNumber(l, n), true, ok)
  {
    match l
    case Fixed32 => ok := s.Write(EncodeFixed32(Abs(n) % 0x1_0000_0000));
    case Fixed64 => ok := s.Write(EncodeFixed64(Abs(n) % 0x1_0000_0000_0000_0000));
    case Bool => ok := EncodeVarintTo(s, if n != 0 then 1 else 0);
    case Varint(_) => ok := EncodeVarintTo(s, Abs(ToUnsigned64(n)));
    case SVarint(_) => ok := EncodeVarintTo(s, Abs(ZigZag(n)));
    case UVarint(_) => ok := EncodeVarintTo(s, Abs(n));
  }

  method EncodeTag(s: OStream, tag: nat, wireType: nat) returns (ok: bool)
    requires s.Valid()
    modifies s
    ensures s.Valid() && s.Took(EncTag(tag, wireType), true, ok)
  {
    ok := EncodeVarintTo(s, tag * 8 + wireType);
  }

  method StringLength(b: Bytes) returns (n: nat)
    ensures n <= |b| && b[..n] == UpToNul(b)
  {
    n := 0;
    while n < |b| && b[n] != 0
      invariant n <= |b| && UpToNul(b) == b[..n] + UpToNul(b[n..])
    {
      assert b[n..][1..] == b[n + 1..] && b[..n + 1] == b[..n] + [b[n]];
      Join(b[..n], [b[n]], UpToNul(b[n + 1..]));
      n := n + 1;
    }
    assert UpToNul(b[n..]) == [];
  }

  /** The value encoders; the submessage encoder first sizes, then writes. */
  method EncodeValue(s: OStream, l: LType, v: FieldValue) returns (ok: bool)
    requires s.Valid() && TypedValue(l, v)
    modifies s
    ensures s.Valid() && s.Took(EncValue(l, v), Within(l, v), ok)
    decreases l, 1
  {
    match l {
      case BytesField(max) =>
        if |v.b| > max {
          return false;
        }
        ok := EncodeString(s, v.b);
      case StringField(_) =>
        var n := StringLength(v.b);
        ok := EncodeString(s, v.b[..n]);
      case FixedBytes(_) => ok := EncodeString(s, v.b);
      case Submessage(fs) => ok := EncodeSubmessage(s, fs, v.m);
      case _ => ok := EncodeNumber(s, l, v.n);
    }
  }

  /** pb_encode_submessage. */
  method EncodeSubmessage(s: OStream, fs: Fields, m: map<nat, Slot>) returns (ok: bool)
    requires s.Valid() && TypedMessage(fs, m)
    modifies s
    ensures s.Valid() && s.Took(WithLength(EncMessage(fs, m)), AllWithin(fs, m), ok)
    decreases fs, 1
  {
    var sub := new OStream(true, 0);
    ok := Encode(sub, fs, m);
    if !ok {
      return;
    }
    var size := sub.written;
    ok := EncodeVarintTo(s, size);
    if !ok {
      return;
    }
    if s.sizing {
      s.written := s.written + size;
      return true;
    }
    if s.written + size > s.maxSize {
      return false;
    }
    var writing := new OStream(false, size);
    var status := Encode(writing, fs, m);
    Join(old(s.out), EncodeVarint(size), writing.out);
    s.written := s.written + writing.written;
    s.out := s.out + writing.out;
    ok := writing.written == size && status;
  }

  /** The items of a packed array, without their header. */
  method EncodePacked(s: OStream, l: LType, vs: seq<FieldValue>) returns (ok: bool)
    requires s.Valid() && Packable(l) && forall i :: 0 <= i < |vs| ==> TypedValue(l, vs[i])
    modifies s
    ensures s.Valid() && s.Took(EncPacked(l, vs), true, ok)
    decreases |vs|
  {
    if vs == [] {
      return true;
    }
    ok := EncodeNumber(s, l, vs[0].n);
    if ok {
      Join(old(s.out), EncNumber(l, vs[0].n), EncPacked(l, vs[1..]));
      ok := EncodePacked(s, l, vs[1..]);
    }
  }

  method EncodeTaggedItems(s: OStream, tag: nat, l: LType, vs: seq<FieldValue>) returns (ok: bool)
    requires s.Valid() && forall i :: 0 <= i < |vs| ==> TypedValue(l, vs[i])
    modifies s
    ensures s.Valid() && s.Took(EncTagged(tag, l, vs), EachWithin(l, vs), ok)
    decreases l, 2, |vs|
  {
    if vs == [] {
      return true;
    }
    ok := EncodeTag(s, tag, WireType(l));
    if !ok {
      return;
    }
    Join(old(s.out), EncTag(tag, WireType(l)), EncValue(l, vs[0]));
    ok := EncodeValue(s, l, vs[0]);
    if !ok {
      return;
    }
    Join(old(s.out), EncTag(tag, WireType(l)) + EncValue(l, vs[0]), EncTagged(tag, l, vs[1..]));
    ok := EncodeTaggedItems(s, tag, l, vs[1..]);
  }

  /** encode_array: one packed record, its size taken first, or one record an item. */
  method EncodeArray(s: OStream, f: Field, items: seq<FieldValue>) returns (ok: bool)
    requires s.Valid() && f.h.Repeated? && forall i :: 0 <= i < |items| ==> TypedValue(f.l, items[i])
    modifies s
    ensures s.Valid() && s.Took(EncSlot(f, Slot(false, items)), SlotWithin(f, Slot(false, items)), ok)
    decreases f.l, 3
  {
    if items == [] {
      return true;
    }
    if |items| > f.h.max {
      return false;
    }
    if Packable(f.l) {
      NumbersWithin(f.l, items);
      ok := EncodePackedArray(s, f.tag, f.l, items);
    } else {
      ok := EncodeTaggedItems(s, f.tag, f.l, items);
    }
  }

  lemma {:induction false} NumbersWithin(l: LType, vs: seq<FieldValue>)
    requires Packable(l)
    ensures EachWithin(l, vs)
    decreases |vs|
  {
    if vs != [] {
      NumbersWithin(l, vs[1..]);
    }
  }

  method EncodePackedArray(s: OStream, tag: nat, l: LType, items: seq<FieldValue>) returns (ok: bool)
    requires s.Valid() && Packable(l) && forall i :: 0 <= i < |items| ==> TypedValue(l, items[i])
    modifies s
    ensures s.Valid() && s.Took(EncTag(tag, WT_STRING) + WithLength(EncPacked(l, items)), true, ok)
  {
    ok := EncodeTag(s, tag, WT_STRING);
    if !ok {
      return;
    }
    var sub := new OStream(true, 0);
    ok := EncodePacked(sub, l, items);
    var size := sub.written;
    Join(old(s.out), EncTag(tag, WT_STRING), EncodeVarint(size));
    ok := EncodeVarintTo(s, size);
    if !ok {
      return;
    }
    if s.sizing {
      s.written := s.written + size;
      return true;
    }
    var p := EncPacked(l, items);
    Join(EncTag(tag, WT_STRING), EncodeVarint(size), p);
    Join(old(s.out), EncTag(tag, WT_STRING) + EncodeVarint(size), p);
    ok := EncodePacked(s, l, items);
  }

  /** encode_basic_field. */
  method EncodeField(s: OStream, f: Field, slot: Slot) returns (ok: bool)
    requires s.Valid() && TypedSlot(f, slot)
    modifies s
    ensures s.Valid() && s.Took(EncSlot(f, slot), SlotWithin(f, slot), ok)
    decreases f.l, 4
  {
    if f.h.Repeated? {
      ok := EncodeArray(s, f, slot.items);
    } else if Unset(f, slot) {
      ok := true;
    } else {
      ok := EncodeTag(s, f.tag, WireType(f.l));
      if ok {
        Join(old(s.out), EncTag(f.tag, WireType(f.l)), EncValue(f.l, slot.items[0]));
        ok := EncodeValue(s, f.l, slot.items[0]);
      }
    }
  }

  /** pb_encode. */
  method Encode(s: OStream, fs: Fields, m: map<nat, Slot>) returns (ok: bool)
    requires s.Valid() && TypedMessage(fs, m)
    modifies s
    ensures s.Valid() && s.Took(EncMessage(fs, m), AllWithin(fs, m), ok)
    decreases fs, 0
  {
    if fs.End? {
      return true;
    }
    ok := EncodeField(s, fs.first, m[fs.first.tag]);
    if ok {
      Join(old(s.out), EncSlot(fs.first, m[fs.first.tag]), EncMessage(fs.rest, m));
      ok := Encode(s, fs.rest, m);
    }
  }

  /** pb_get_encoded_size: exactly the number of bytes that a large enough buffer receives. */
  method GetEncodedSize(fs: Fields, m: map<nat, Slot>) returns (ok: bool, size: nat)
    requires TypedMessage(fs, m)
    ensures ok == AllWithin(fs, m) && (ok ==> size == |EncMessage(fs, m)|)
  {
    var s := new OStream(true, 0);
    ok := Encode(s, fs, m);
    size := s.written;
  }

  /** Encoding into a buffer succeeds exactly if the counted size fits, and then fills in as many bytes. */
  method EncodeToBuffer(fs: Fields, m: map<nat, Slot>, room: nat) returns (ok: bool, b: Bytes)
    requires TypedMessage(fs, m)
    ensures ok <==> AllWithin(fs, m) && |EncMessage(fs, m)| <= room
    ensures ok ==> b == EncMessage(fs, m)
  {
    var s := new OStream(false, room);
    ok := Encode(s, fs, m);
    b := s.out;
  }
}
