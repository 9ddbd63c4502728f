/** Blocks of prefix-compressed entries, their builder, and the entry decoder. */
module Blocks {
  import opened Keys
  import opened Coding

  datatype Item = Item(key: Bytes, value: Bytes)

  function EntryHeader(shared: nat, nonShared: nat, valueLength: nat): Bytes {
    EncodeVarint(shared) + EncodeVarint(nonShared) + EncodeVarint(valueLength)
  }

  /** An entry shares `shared` bytes of its key with the entry before it. */
  function EncodeEntry(shared: nat, delta: Bytes, value: Bytes): Bytes {
    EntryHeader(shared, |delta|, |value|) + (delta + value)
  }

  datatype Header = Header(shared: nat, nonShared: nat, valueLength: nat)

  function GetThree(b: Bytes): Option<(Header, Bytes)> {
    match GetVarint32(b)
    case None => None
    case Some(s) =>
      match GetVarint32(s.1)
      case None => None
      case Some(n) =>
        match GetVarint32(n.1)
        case None => None
        case Some(v) => Some((Header(s.0, n.0, v.0), v.1))
  }

  /** DecodeEntry: the three lengths, and the bytes from the key delta on. */
  function DecodeEntry(b: Bytes): Option<(Header, Bytes)> {
    if |b| < 3 then None else
      var h := if b[0] < 128 && b[1] < 128 && b[2] < 128 then Some((Header(b[0], b[1], b[2]), b[3..])) else GetThree(b);
      if h.None? || |h.value.1| % 0x1_0000_0000 < (h.value.0.nonShared + h.value.0.valueLength) % 0x1_0000_0000 then None else h
  }

  /** The fast path reads what the varint decoder would. */
  lemma FastPath(b: Bytes)
    requires |b| >= 3 && b[0] < 128 && b[1] < 128 && b[2] < 128
    ensures GetThree(b) == Some((Header(b[0], b[1], b[2]), b[3..]))
  {
    OneByte(b);
    OneByte(b[1..]);
    OneByte(b[2..]);
    assert b[1..][1..] == b[2..] && b[2..][1..] == b[3..];
  }

  lemma OneByte(b: Bytes)
    requires b != [] && b[0] < 128
    ensures GetVarint32(b) == Some((b[0], b[1..]))
  {
    assert b[0] % 0x1_0000_0000 == b[0];
  }

  lemma ThreeRoundTrip(s: nat, n: nat, v: nat, rest: Bytes)
    requires s < U32 && n < U32 && v < U32
    ensures GetThree(EntryHeader(s, n, v) + rest) == Some((Header(s, n, v), rest))
  {
    var a, b, c := EncodeVarint(s), EncodeVarint(n), EncodeVarint(v);
    JoinFour(a, b, c, rest);
    Varint32RoundTrip(s, b + (c + rest));
    Varint32RoundTrip(n, c + rest);
    Varint32RoundTrip(v, rest);
  }

  lemma DecodeOf(b: Bytes, h: Header, rest: Bytes)
    requires |b| >= 3 && GetThree(b) == Some((h, rest))
    requires h.nonShared + h.valueLength <= |rest| < U32
    ensures DecodeEntry(b) == Some((h, rest))
  {
    if b[0] < 128 && b[1] < 128 && b[2] < 128 {
      FastPath(b);
    }
    Small(|rest|);
    Small(h.nonShared + h.valueLength);
  }

  lemma Small(n: nat)
    requires n < U32
    ensures n % 0x1_0000_0000 == n
  {}

  lemma EntryRoundTrip(shared: nat, delta: Bytes, value: Bytes, rest: Bytes)
    requires shared < U32 && |delta| + |value| + |rest| < U32
    ensures DecodeEntry(EncodeEntry(shared, delta, value) + rest) == Some((Header(shared, |delta|, |value|), delta + value + rest))
  {
    var h := EntryHeader(shared, |delta|, |value|);
    assert EncodeEntry(shared, delta, value) + rest == h + (delta + value + rest) by {
      Join(h, delta + value, rest);
    }
    ThreeRoundTrip(shared, |delta|, |value|, delta + value + rest);
    HeaderSize(shared, |delta|, |value|);
    DecodeOf(h + (delta + value + rest), Header(shared, |delta|, |value|), delta + value + rest);
  }

  lemma HeaderSize(s: nat, n: nat, v: nat)
    ensures |EntryHeader(s, n, v)| >= 3
  {}

  // ---- Entries in a block ----

  ghost predicate EntryAt(data: Bytes, a: nat, b: nat, shared: nat, delta: Bytes, value: Bytes) {
    a <= b <= |data| && data[a..b] == EncodeEntry(shared, delta, value)
  }

  lemma DecodeAt(data: Bytes, limit: nat, a: nat, b: nat, shared: nat, delta: Bytes, value: Bytes)
    requires EntryAt(data, a, b, shared, delta, value) && b <= limit <= |data| && limit < U32 && shared < U32
    ensures a < b
    ensures DecodeEntry(data[a..limit]).Some?
    ensures var (h, rest) := DecodeEntry(data[a..limit]).value;
      var q := limit - |rest|;
      && h == Header(shared, |delta|, |value|) && a < q && q + |delta| + |value| == b
      && data[q..q + |delta|] == delta && data[q + |delta|..b] == value
  {
    var e, rest := data[a..b], data[b..limit];
    HeaderSize(shared, |delta|, |value|);
    assert |e| == |EntryHeader(shared, |delta|, |value|)| + |delta| + |value|;
    EntryRoundTrip(shared, delta, value, rest);
    assert data[a..limit] == e + rest;
    SuffixSlices(data, limit, b, delta, value, a);
  }

  lemma SuffixSlices(data: Bytes, limit: nat, b: nat, delta: Bytes, value: Bytes, a: nat)
    requires a <= b <= limit <= |data| && |delta| + |value| <= b - a
    requires data[a..b][b - a - |delta| - |value|..] == delta + value
    ensures var q := b - |delta| - |value|; data[q..q + |delta|] == delta && data[q + |delta|..b] == value
  {
    var q := b - |delta| - |value|;
    assert data[q..b] == delta + value;
    assert data[q..q + |delta|] == data[q..b][..|delta|];
    assert data[q + |delta|..b] == data[q..b][|delta|..];
  }
}
