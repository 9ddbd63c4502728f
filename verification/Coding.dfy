/** Fixed-width, varint and length-prefixed encodings. */
module Coding {
  import opened Keys

  type Byte = b: int | 0 <= b < 256
  type Bytes = seq<Byte>

  lemma Join(a: Bytes, b: Bytes, c: Bytes)
    ensures a + b + c == a + (b + c)
  {}

  lemma JoinFour(a: Bytes, b: Bytes, c: Bytes, d: Bytes)
    ensures a + b + c + d == a + (b + (c + d))
  {}

  const U32: nat := 0x1_0000_0000
  const U64: nat := 0x1_0000_0000_0000_0000

  /** Byte i of `v`, least significant first. */
  function ByteOf(v: nat, i: nat): Byte
    requires v < U32
  {
    if i == 0 then v % 256 else if i == 1 then v / 256 % 256 else if i == 2 then v / 65536 % 256 else v / 16777216
  }

  /** EncodeFixed32: little-endian. */
  function EncodeFixed32(v: nat): (r: Bytes)
    requires v < U32
    ensures |r| == 4
  {
    seq(4, i requires 0 <= i < 4 => ByteOf(v, i))
  }

  function DecodeFixed32(b: Bytes): nat
    requires |b| >= 4
  {
    b[0] as int + b[1] as int * 256 + b[2] as int * 65536 + b[3] as int * 16777216
  }

  lemma Fixed32RoundTrip(v: nat, rest: Bytes)
    requires v < U32
    ensures DecodeFixed32(EncodeFixed32(v) + rest) == v
  {
    var r := EncodeFixed32(v) + rest;
    var a, b, c := v / 256, v / 65536, v / 16777216;
    assert r[0] == v % 256 && r[1] == a % 256 && r[2] == b % 256 && r[3] == c;
    assert v == a * 256 + v % 256;
    assert a / 256 == b && a == b * 256 + a % 256;
    assert b / 256 == c && b == c * 256 + b % 256;
  }

  /** EncodeFixed64: the low word, then the high word. */
  function EncodeFixed64(v: nat): (r: Bytes)
    requires v < U64
    ensures |r| == 8
  {
    EncodeFixed32(v % 0x1_0000_0000) + EncodeFixed32(v / 0x1_0000_0000)
  }

  function DecodeFixed64(b: Bytes): nat
    requires |b| >= 8
  {
    DecodeFixed32(b) + DecodeFixed32(b[4..]) * 0x1_0000_0000
  }

  lemma Fixed64RoundTrip(v: nat, rest: Bytes)
    requires v < U64
    ensures DecodeFixed64(EncodeFixed64(v) + rest) == v
  {
    var lo, hi := EncodeFixed32(v % 0x1_0000_0000), EncodeFixed32(v / 0x1_0000_0000);
    assert lo + hi + rest == lo + (hi + rest);
    assert (lo + hi + rest)[4..] == hi + rest;
    Fixed32RoundTrip(v % 0x1_0000_0000, hi + rest);
    Fixed32RoundTrip(v / 0x1_0000_0000, rest);
  }

  // ---- Varints ----

  /** PutVarint32 and PutVarint64: seven bits a byte, least significant first, the top bit
      set on every byte but the last. */
  function EncodeVarint(v: nat): (r: Bytes)
    ensures r != []
  {
    if v < 128 then [v] else [v % 128 + 128] + EncodeVarint(v / 128)
  }

  function Pow128(n: nat): nat {
    if n == 0 then 1 else 128 * Pow128(n - 1)
  }

  /** The value of at most `limit` bytes, and what follows; None for an unterminated varint. */
  function DecodeVarint(b: Bytes, limit: nat): (r: Option<(nat, Bytes)>)
    ensures r.Some? ==> |r.value.1| < |b|
  {
    if limit == 0 || b == [] then None
    else if b[0] < 128 then Some((b[0], b[1..]))
    else
      match DecodeVarint(b[1..], limit - 1)
      case None => None
      case Some(p) => Some((b[0] - 128 + 128 * p.0, p.1))
  }

  /** Bits beyond the width of the result are shifted out. */
  function GetVarint(b: Bytes, limit: nat, modulus: nat): (r: Option<(nat, Bytes)>)
    requires modulus > 0
    ensures r.Some? ==> |r.value.1| < |b| && r.value.0 < modulus
  {
    match DecodeVarint(b, limit)
    case None => None
    case Some(p) => Some((p.0 % modulus, p.1))
  }

  const MAX_VARINT32: nat := 5
  const MAX_VARINT64: nat := 10

  function GetVarint32(b: Bytes): (r: Option<(nat, Bytes)>)
    ensures r.Some? ==> |r.value.1| < |b| && r.value.0 < U32
  {
    GetVarint(b, MAX_VARINT32, U32)
  }

  function GetVarint64(b: Bytes): (r: Option<(nat, Bytes)>)
    ensures r.Some? ==> |r.value.1| < |b| && r.value.0 < U64
  {
    GetVarint(b, MAX_VARINT64, U64)
  }

  lemma {:induction false} VarintRoundTrip(v: nat, limit: nat, rest: Bytes)
    requires limit > 0 && v < Pow128(limit)
    ensures DecodeVarint(EncodeVarint(v) + rest, limit) == Some((v, rest))
    decreases v
  {
    var b := EncodeVarint(v) + rest;
    if v < 128 {
      assert b[1..] == rest;
    } else {
      assert v / 128 < Pow128(limit - 1);
      VarintRoundTrip(v / 128, limit - 1, rest);
      assert b[1..] == EncodeVarint(v / 128) + rest;
    }
  }

  lemma PowOnce()
    ensures Pow128(5) == 0x8_0000_0000
  {
    assert Pow128(0) == 1;
    assert Pow128(1) == 128;
    assert Pow128(2) == 0x4000;
    assert Pow128(3) == 0x20_0000;
    assert Pow128(4) == 0x1000_0000;
  }

  lemma PowTwice()
    ensures Pow128(10) == 0x8_0000_0000 * 0x8_0000_0000
  {
    PowOnce();
    assert Pow128(6) == 0x400_0000_0000;
    assert Pow128(7) == 0x2_0000_0000_0000;
    assert Pow128(8) == 0x100_0000_0000_0000;
    assert Pow128(9) == 0x8000_0000_0000_0000;
  }

  lemma SmallMod(v: nat, m: nat)
    requires v < m
    ensures v % m == v
  {}

  lemma GetVarintOf(b: Bytes, limit: nat, modulus: nat, v: nat, rest: Bytes)
    requires v < modulus && DecodeVarint(b, limit) == Some((v, rest))
    ensures GetVarint(b, limit, modulus) == Some((v, rest))
  {
    SmallMod(v, modulus);
  }

  lemma GetVarintRoundTrip(v: nat, limit: nat, modulus: nat, rest: Bytes)
    requires limit > 0 && v < Pow128(limit) && v < modulus
    ensures GetVarint(EncodeVarint(v) + rest, limit, modulus) == Some((v, rest))
  {
    VarintRoundTrip(v, limit, rest);
    GetVarintOf(EncodeVarint(v) + rest, limit, modulus, v, rest);
  }

  lemma Varint32RoundTrip(v: nat, rest: Bytes)
    requires v < U32
    ensures GetVarint32(EncodeVarint(v) + rest) == Some((v, rest))
  {
    PowOnce();
    GetVarintRoundTrip(v, MAX_VARINT32, U32, rest);
  }

  lemma Varint64RoundTrip(v: nat, rest: Bytes)
    requires v < U64
    ensures GetVarint64(EncodeVarint(v) + rest) == Some((v, rest))
  {
    PowTwice();
    GetVarintRoundTrip(v, MAX_VARINT64, U64, rest);
  }

  /** What a decoder that has read `result` so far makes of the value still to come. */
  function Combined(result: nat, weight: nat, more: Option<(nat, Bytes)>): Option<(nat, Bytes)> {
    match more
    case None => None
    case Some(q) => Some((result + weight * q.0, q.1))
  }

  lemma CombinedMore(result: nat, weight: nat, b: Bytes, limit: nat, p: nat)
    requires p < limit && p < |b| && b[p] >= 128
    ensures Combined(result, weight, DecodeVarint(b[p..], limit - p)) == Combined(result + (b[p] - 128) * weight, weight * 128, DecodeVarint(b[p + 1..], limit - p - 1))
  {
    assert b[p..][0] == b[p] && b[p..][1..] == b[p + 1..];
    var more := DecodeVarint(b[p + 1..], limit - p - 1);
    if more.Some? {
      Distribute(weight, b[p] - 128, more.value.0);
    }
  }

  lemma CombinedLast(result: nat, weight: nat, b: Bytes, limit: nat, p: nat)
    requires p < limit && p < |b| && b[p] < 128
    ensures Combined(result, weight, DecodeVarint(b[p..], limit - p)) == Some((result + b[p] * weight, b[p + 1..]))
  {
    assert b[p..][0] == b[p] && b[p..][1..] == b[p + 1..];
  }

  lemma CombinedNone(result: nat, weight: nat, b: Bytes, limit: nat, p: nat)
    requires p <= limit && p <= |b| && (p == limit || p == |b|)
    ensures Combined(result, weight, DecodeVarint(b[p..], limit - p)) == None
  {}

  lemma CombinedStart(more: Option<(nat, Bytes)>)
    ensures Combined(0, 1, more) == more
  {}

  lemma Distribute(w: nat, low: nat, high: nat)
    ensures w * (low + 128 * high) == low * w + w * 128 * high
  {}

  function Plus(result: nat, digit: nat, weight: nat): (r: nat)
    ensures r == result + digit * weight
  {
    result + digit * weight
  }

  /** The decoding loop of GetVarint32Ptr and GetVarint64Ptr. */
  method GetVarintPtr(b: Bytes, limit: nat) returns (r: Option<(nat, Bytes)>)
    ensures r == DecodeVarint(b, limit)
  {
    var result: nat, weight: nat, p: nat := 0, 1, 0;
    assert b[0..] == b;
    CombinedStart(DecodeVarint(b, limit));
    while p < limit && p < |b|
      invariant p <= limit && p <= |b|
      invariant Combined(result, weight, DecodeVarint(b[p..], limit - p)) == DecodeVarint(b, limit)
    {
      var byte := b[p];
      if byte < 128 {
        CombinedLast(result, weight, b, limit, p);
        return Some((Plus(result, byte, weight), b[p + 1..]));
      }
      CombinedMore(result, weight, b, limit, p);
      result, weight, p := Plus(result, byte - 128, weight), weight * 128, p + 1;
    }
    CombinedNone(result, weight, b, limit, p);
    r := None;
  }

  // ---- What is a varint ----

  /** The low seven bits of all bytes, least significant first. */
  function Weighted(x: Bytes): nat {
    if x == [] then 0 else x[0] % 128 + 128 * Weighted(x[1..])
  }

  /** At most `limit` bytes, of which all but the last have the top bit. */
  ghost predicate IsVarint(x: Bytes, limit: nat) {
    1 <= |x| <= limit && x[|x| - 1] < 128 && forall i :: 0 <= i < |x| - 1 ==> x[i] >= 128
  }

  /** Every varint is read, however many bytes it spends on its value. */
  lemma {:induction false} VarintReads(x: Bytes, rest: Bytes, limit: nat)
    requires IsVarint(x, limit)
    ensures DecodeVarint(x + rest, limit) == Some((Weighted(x), rest))
    decreases |x|
  {
    var b := x + rest;
    if |x| == 1 {
      assert b[1..] == rest && Weighted(x[1..]) == 0;
    } else {
      assert b[1..] == x[1..] + rest;
      VarintReads(x[1..], rest, limit - 1);
    }
  }

  /** And nothing else is. */
  lemma {:induction false} VarintRead(b: Bytes, limit: nat) returns (n: nat)
    requires DecodeVarint(b, limit).Some?
    ensures n <= |b| && IsVarint(b[..n], limit) && DecodeVarint(b, limit).value == (Weighted(b[..n]), b[n..])
    decreases limit
  {
    if b[0] < 128 {
      n := 1;
      assert b[..1][1..] == [];
    } else {
      var m := VarintRead(b[1..], limit - 1);
      n := m + 1;
      assert b[..n][1..] == b[1..][..m];
      assert b[1..][m..] == b[n..];
    }
  }

  /** Pieces laid end to end. */
  function Laid(xs: seq<Bytes>): Bytes {
    if xs == [] then [] else xs[0] + Laid(xs[1..])
  }

  // ---- Length-prefixed slices ----

  function PutSlice(s: Bytes): Bytes {
    EncodeVarint(|s|) + s
  }

  function GetSlice(b: Bytes): (r: Option<(Bytes, Bytes)>)
    ensures r.Some? ==> |r.value.1| < |b|
  {
    match GetVarint32(b)
    case None => None
    case Some(p) => if p.0 <= |p.1| then Some((p.1[..p.0], p.1[p.0..])) else None
  }

  lemma SliceRoundTrip(s: Bytes, rest: Bytes)
    requires |s| < U32
    ensures GetSlice(PutSlice(s) + rest) == Some((s, rest))
  {
    assert PutSlice(s) + rest == EncodeVarint(|s|) + (s + rest);
    Varint32RoundTrip(|s|, s + rest);
  }

  /** A length of at most five bytes, and so many bytes. */
  ghost predicate IsSlice(x: Bytes, s: Bytes) {
    exists n :: 0 <= n <= |x| && IsVarint(x[..n], 5) && Weighted(x[..n]) % 0x1_0000_0000 == |s| && x[n..] == s
  }

  lemma SliceReads(x: Bytes, s: Bytes, rest: Bytes)
    requires IsSlice(x, s)
    ensures GetSlice(x + rest) == Some((s, rest))
  {
    var n :| 0 <= n <= |x| && IsVarint(x[..n], 5) && Weighted(x[..n]) % 0x1_0000_0000 == |s| && x[n..] == s;
    assert x + rest == x[..n] + (s + rest);
    VarintReads(x[..n], s + rest, 5);
    assert (s + rest)[..|s|] == s && (s + rest)[|s|..] == rest;
  }

  lemma SliceRead(b: Bytes) returns (x: Bytes)
    requires GetSlice(b).Some?
    ensures b == x + GetSlice(b).value.1 && IsSlice(x, GetSlice(b).value.0)
  {
    var n := VarintRead(b, 5);
    var s, rest := GetSlice(b).value.0, GetSlice(b).value.1;
    x := b[..n] + s;
    assert b[n..] == s + rest;
    assert b == b[..n] + b[n..];
    assert x[..n] == b[..n] && x[n..] == s;
  }
}
