/** The Bloom filter policy: a key that was put in is never reported missing. */
module Bloom {
  import opened Keys
  import opened Coding

  type Word = w: int | 0 <= w < 0x1_0000_0000
  type HashFunction = Bytes -> Word

  /** Bit i of a byte, and the byte with that bit set. */
  function GetBit(b: nat, i: nat): bool {
    if i == 0 then b % 2 == 1 else GetBit(b / 2, i - 1)
  }

  function SetBit(b: nat, i: nat): nat {
    if i == 0 then b - b % 2 + 1 else 2 * SetBit(b / 2, i - 1) + b % 2
  }

  function Pow2(n: nat): nat {
    if n == 0 then 1 else 2 * Pow2(n - 1)
  }

  lemma Halve(b: nat, p: nat)
    requires b < 2 * p
    ensures b / 2 < p
  {}

  lemma Double(c: nat, bit: nat, p: nat)
    requires c < p && bit <= 1
    ensures 2 * c + bit < 2 * p
  {}

  lemma {:induction false} SetBitBound(b: nat, i: nat, n: nat)
    requires i < n && b < Pow2(n)
    ensures SetBit(b, i) < Pow2(n)
    decreases i
  {
    if i > 0 {
      Halve(b, Pow2(n - 1));
      SetBitBound(b / 2, i - 1, n - 1);
      Double(SetBit(b / 2, i - 1), b % 2, Pow2(n - 1));
    } else {
      Halve(b, Pow2(n - 1));
      Double(b / 2, 1, Pow2(n - 1));
    }
  }

  lemma {:induction false} SetThenGet(b: nat, i: nat, j: nat)
    ensures GetBit(SetBit(b, i), j) <==> i == j || GetBit(b, j)
    decreases i
  {
    if i == 0 {
      assert (b - b % 2 + 1) / 2 == b / 2;
    } else {
      var c := SetBit(b / 2, i - 1);
      assert (2 * c + b % 2) / 2 == c && (2 * c + b % 2) % 2 == b % 2;
      if j > 0 {
        SetThenGet(b / 2, i - 1, j - 1);
      }
    }
  }

  lemma ByteBound(b: Byte, i: nat)
    requires i < 8
    ensures SetBit(b, i) < 256
  {
    assert Pow2(4) == 16;
    assert Pow2(8) == 16 * Pow2(4);
    SetBitBound(b, i, 8);
  }

  predicate BitAt(a: Bytes, p: nat)
    requires p < 8 * |a|
  {
    GetBit(a[p / 8], p % 8)
  }

  function WithBit(a: Bytes, p: nat): (r: Bytes)
    requires p < 8 * |a|
    ensures |r| == |a|
  {
    ByteBound(a[p / 8], p % 8);
    a[p / 8 := SetBit(a[p / 8], p % 8)]
  }

  lemma WithBitSets(a: Bytes, p: nat, q: nat)
    requires p < 8 * |a| && q < 8 * |a|
    ensures BitAt(WithBit(a, p), q) <==> p == q || BitAt(a, q)
  {
    if p / 8 == q / 8 {
      SetThenGet(a[p / 8], p % 8, q % 8);
      assert p == p / 8 * 8 + p % 8 && q == q / 8 * 8 + q % 8;
    }
  }

  /** Rotate right by 17 bits. */
  function Delta(h: Word): Word {
    h / 0x2_0000 + h % 0x2_0000 * 0x8000
  }

  function NextHash(h: Word, delta: Word): Word {
    (h + delta) % 0x1_0000_0000
  }

  function BitPos(h: Word, bits: nat): (r: nat)
    requires bits > 0
    ensures r < bits
  {
    h % bits
  }

  /** The first k probes from hash h all find their bit set. */
  predicate AllSet(a: Bytes, h: Word, delta: Word, k: nat)
    requires a != []
    decreases k
  {
    k == 0 || (BitAt(a, BitPos(h, 8 * |a|)) && AllSet(a, NextHash(h, delta), delta, k - 1))
  }

  lemma {:induction false} AllSetKept(a: Bytes, p: nat, h: Word, delta: Word, k: nat)
    requires a != [] && p < 8 * |a| && AllSet(a, h, delta, k)
    ensures AllSet(WithBit(a, p), h, delta, k)
    decreases k
  {
    if k > 0 {
      WithBitSets(a, p, BitPos(h, 8 * |a|));
      AllSetKept(a, p, NextHash(h, delta), delta, k - 1);
    }
  }

  /** Setting the bits of all probes from h. */
  function SetAll(a: Bytes, h: Word, delta: Word, k: nat): (r: Bytes)
    requires a != []
    ensures |r| == |a|
    decreases k
  {
    if k == 0 then a else SetAll(WithBit(a, BitPos(h, 8 * |a|)), NextHash(h, delta), delta, k - 1)
  }

  lemma {:induction false} SetAllKeeps(a: Bytes, h: Word, delta: Word, k: nat, h2: Word, delta2: Word, k2: nat)
    requires a != [] && AllSet(a, h2, delta2, k2)
    ensures AllSet(SetAll(a, h, delta, k), h2, delta2, k2)
    decreases k
  {
    if k > 0 {
      var p := BitPos(h, 8 * |a|);
      AllSetKept(a, p, h2, delta2, k2);
      SetAllKeeps(WithBit(a, p), NextHash(h, delta), delta, k - 1, h2, delta2, k2);
    }
  }

  lemma {:induction false} SetAllSets(a: Bytes, h: Word, delta: Word, k: nat)
    requires a != []
    ensures AllSet(SetAll(a, h, delta, k), h, delta, k)
    decreases k
  {
    if k > 0 {
      var p := BitPos(h, 8 * |a|);
      var a1 := WithBit(a, p);
      WithBitSets(a, p, p);
      SetAllSets(a1, NextHash(h, delta), delta, k - 1);
      assert AllSet(a1, h, delta, 1);
      SetAllKeeps(a1, NextHash(h, delta), delta, k - 1, h, delta, 1);
    }
  }

  /** The bits of the filter after all keys. */
  function Fill(hash: HashFunction, keys: seq<Bytes>, a: Bytes, k: nat): (r: Bytes)
    requires a != []
    ensures |r| == |a|
    decreases |keys|
  {
    if keys == [] then a else
      var h := hash(keys[|keys| - 1]);
      SetAll(Fill(hash, keys[..|keys| - 1], a, k), h, Delta(h), k)
  }

  lemma {:induction false} FillHolds(hash: HashFunction, keys: seq<Bytes>, a: Bytes, k: nat, i: nat)
    requires a != [] && i < |keys|
    ensures AllSet(Fill(hash, keys, a, k), hash(keys[i]), Delta(hash(keys[i])), k)
    decreases |keys|
  {
    var front, h := keys[..|keys| - 1], hash(keys[|keys| - 1]);
    var before := Fill(hash, front, a, k);
    if i == |keys| - 1 {
      SetAllSets(before, h, Delta(h), k);
    } else {
      FillHolds(hash, front, a, k, i);
      SetAllKeeps(before, h, Delta(h), k, hash(keys[i]), Delta(hash(keys[i])), k);
    }
  }

  /** The number of bytes for n keys: at least eight. */
  function FilterBytes(n: nat, bitsPerKey: nat): (r: nat)
    ensures r >= 8
  {
    var bits := if n * bitsPerKey < 64 then 64 else n * bitsPerKey;
    (bits + 7) / 8
  }

  /** What CreateFilter appends: the bits, and the number of probes. */
  function Filter(hash: HashFunction, bitsPerKey: nat, k: nat, keys: seq<Bytes>): Bytes
    requires 1 <= k <= 30
  {
    Fill(hash, keys, seq(FilterBytes(|keys|, bitsPerKey), _ => 0), k) + [k]
  }

  /** KeyMayMatch. */
  predicate MayMatch(hash: HashFunction, key: Bytes, filter: Bytes) {
    |filter| >= 2 &&
    var k := filter[|filter| - 1];
    k > 30 || AllSet(filter[..|filter| - 1], hash(key), Delta(hash(key)), k)
  }

  // ---- What a filter answers, by bit positions ----

  /** Probe j of a hash among so many bits: the hash advances by itself rotated right 17 bits. */
  function ProbeAt(h: Word, j: nat, bits: nat): (r: nat)
    requires bits > 0
    ensures r < bits
  {
    (h + j * (h / 131072 + h % 131072 * 32768)) % 4294967296 % bits
  }

  /** Probe j from any point of the sequence. */
  function From(h: Word, delta: Word, j: nat, bits: nat): (r: nat)
    requires bits > 0
    ensures r < bits
  {
    (h + j * delta) % 4294967296 % bits
  }

  lemma WrapOnce(a: int, b: int)
    ensures (a % 4294967296 + b) % 4294967296 == (a + b) % 4294967296
  {}

  lemma FromNext(h: Word, delta: Word, j: nat, bits: nat)
    requires bits > 0
    ensures From(h, delta, 0, bits) == BitPos(h, bits) && From(NextHash(h, delta), delta, j, bits) == From(h, delta, j + 1, bits)
  {
    WrapOnce(h + delta, j * delta);
    assert h + delta + j * delta == h + (j + 1) * delta;
  }

  lemma {:induction false} AllSetIff(a: Bytes, h: Word, delta: Word, k: nat)
    requires a != []
    ensures AllSet(a, h, delta, k) <==> forall j :: 0 <= j < k ==> BitAt(a, From(h, delta, j, 8 * |a|))
    decreases k
  {
    if k > 0 {
      var bits := 8 * |a|;
      AllSetIff(a, NextHash(h, delta), delta, k - 1);
      FromNext(h, delta, 0, bits);
      forall j | 0 <= j < k - 1
        ensures From(NextHash(h, delta), delta, j, bits) == From(h, delta, j + 1, bits)
      {
        FromNext(h, delta, j, bits);
      }
      forall j | 0 < j < k
        ensures From(h, delta, j, bits) == From(NextHash(h, delta), delta, j - 1, bits)
      {
        FromNext(h, delta, j - 1, bits);
      }
    }
  }

  ghost predicate Probes(h: Word, delta: Word, k: nat, bits: nat, q: nat)
    requires bits > 0
  {
    exists j :: 0 <= j < k && From(h, delta, j, bits) == q
  }

  lemma ProbesFirst(h: Word, delta: Word, k: nat, bits: nat, q: nat)
    requires bits > 0 && k > 0
    ensures Probes(h, delta, k, bits, q) <==> q == BitPos(h, bits) || Probes(NextHash(h, delta), delta, k - 1, bits, q)
  {
    FromNext(h, delta, 0, bits);
    if Probes(h, delta, k, bits, q) {
      var j :| 0 <= j < k && From(h, delta, j, bits) == q;
      if j > 0 {
        FromNext(h, delta, j - 1, bits);
      }
    }
    if Probes(NextHash(h, delta), delta, k - 1, bits, q) {
      var j :| 0 <= j < k - 1 && From(NextHash(h, delta), delta, j, bits) == q;
      FromNext(h, delta, j, bits);
    }
  }

  lemma {:induction false} SetAllIff(a: Bytes, h: Word, delta: Word, k: nat, q: nat)
    requires a != [] && q < 8 * |a|
    ensures BitAt(SetAll(a, h, delta, k), q) <==> BitAt(a, q) || Probes(h, delta, k, 8 * |a|, q)
    decreases k
  {
    if k > 0 {
      var p := BitPos(h, 8 * |a|);
      ProbesFirst(h, delta, k, 8 * |a|, q);
      WithBitSets(a, p, q);
      SetAllIff(WithBit(a, p), NextHash(h, delta), delta, k - 1, q);
    }
  }

  /** Some key sets bit q. */
  ghost predicate SetBySome(hash: HashFunction, keys: seq<Bytes>, k: nat, bits: nat, q: nat)
    requires bits > 0
  {
    exists i :: 0 <= i < |keys| && Probes(hash(keys[i]), Delta(hash(keys[i])), k, bits, q)
  }

  lemma {:induction false} FillIff(hash: HashFunction, keys: seq<Bytes>, a: Bytes, k: nat, q: nat)
    requires a != [] && q < 8 * |a|
    ensures BitAt(Fill(hash, keys, a, k), q) <==> BitAt(a, q) || SetBySome(hash, keys, k, 8 * |a|, q)
    decreases |keys|
  {
    if keys != [] {
      var n := |keys| - 1;
      var front, h := keys[..n], hash(keys[n]);
      FillIff(hash, front, a, k, q);
      SetAllIff(Fill(hash, front, a, k), h, Delta(h), k, q);
      if SetBySome(hash, keys, k, 8 * |a|, q) {
        var i :| 0 <= i < |keys| && Probes(hash(keys[i]), Delta(hash(keys[i])), k, 8 * |a|, q);
        assert i < n ==> front[i] == keys[i];
      }
      if SetBySome(hash, front, k, 8 * |a|, q) {
        var i :| 0 <= i < n && Probes(hash(front[i]), Delta(hash(front[i])), k, 8 * |a|, q);
        assert front[i] == keys[i];
      }
    }
  }

  lemma ZeroBits(n: nat, q: nat)
    requires q < 8 * n
    ensures !BitAt(seq(n, _ => 0), q)
  {
    ZeroByte(q % 8);
  }

  lemma {:induction false} ZeroByte(i: nat)
    ensures !GetBit(0, i)
    decreases i
  {
    if i > 0 {
      ZeroByte(i - 1);
    }
  }

  /** Probe j of the key is a probe of one of `keys`. */
  ghost predicate Covered(hash: HashFunction, keys: seq<Bytes>, k: nat, bits: nat, h: Word, j: nat)
    requires bits > 0
  {
    exists i, m :: 0 <= i < |keys| && 0 <= m < k && ProbeAt(hash(keys[i]), m, bits) == ProbeAt(h, j, bits)
  }

  lemma ProbeIsFrom(h: Word, j: nat, bits: nat)
    requires bits > 0
    ensures ProbeAt(h, j, bits) == From(h, Delta(h), j, bits)
  {}

  lemma CoveredIff(hash: HashFunction, keys: seq<Bytes>, k: nat, bits: nat, h: Word, j: nat)
    requires bits > 0
    ensures Covered(hash, keys, k, bits, h, j) <==> SetBySome(hash, keys, k, bits, ProbeAt(h, j, bits))
  {
    if Covered(hash, keys, k, bits, h, j) {
      var i, m :| 0 <= i < |keys| && 0 <= m < k && ProbeAt(hash(keys[i]), m, bits) == ProbeAt(h, j, bits);
      ProbeIsFrom(hash(keys[i]), m, bits);
    }
    if SetBySome(hash, keys, k, bits, ProbeAt(h, j, bits)) {
      var i :| 0 <= i < |keys| && Probes(hash(keys[i]), Delta(hash(keys[i])), k, bits, ProbeAt(h, j, bits));
      var m :| 0 <= m < k && From(hash(keys[i]), Delta(hash(keys[i])), m, bits) == ProbeAt(h, j, bits);
      ProbeIsFrom(hash(keys[i]), m, bits);
    }
  }

  /** What the filter of `keys` lets through: exactly the keys whose every probe is a probe of
      some key of `keys`. */
  lemma MayMatchIff(hash: HashFunction, bitsPerKey: nat, k: nat, keys: seq<Bytes>, key: Bytes)
    requires 1 <= k <= 30
    ensures MayMatch(hash, key, Filter(hash, bitsPerKey, k, keys)) <==>
      forall j :: 0 <= j < k ==> Covered(hash, keys, k, 8 * FilterBytes(|keys|, bitsPerKey), hash(key), j)
  {
    var h, n := hash(key), FilterBytes(|keys|, bitsPerKey);
    var zeros: Bytes := seq(n, _ => 0);
    var a := Fill(hash, keys, zeros, k);
    assert Filter(hash, bitsPerKey, k, keys)[..n] == a;
    AllSetIff(a, h, Delta(h), k);
    forall j | 0 <= j < k
      ensures BitAt(a, From(h, Delta(h), j, 8 * n)) <==> Covered(hash, keys, k, 8 * n, h, j)
    {
      ProbeIsFrom(h, j, 8 * n);
      FillIff(hash, keys, zeros, k, ProbeAt(h, j, 8 * n));
      ZeroBits(n, ProbeAt(h, j, 8 * n));
      CoveredIff(hash, keys, k, 8 * n, h, j);
    }
  }

  /** The filter of no keys denies every key. */
  lemma EmptyDenies(hash: HashFunction, bitsPerKey: nat, k: nat, key: Bytes)
    requires 1 <= k <= 30
    ensures !MayMatch(hash, key, Filter(hash, bitsPerKey, k, []))
  {
    MayMatchIff(hash, bitsPerKey, k, [], key);
    assert !Covered(hash, [], k, 8 * FilterBytes(0, bitsPerKey), hash(key), 0);
  }

  /** A filter has at least 64 bits and at least the bits asked for, to the next byte. */
  lemma FilterSize(n: nat, bitsPerKey: nat)
    ensures var bits, asked := 8 * FilterBytes(n, bitsPerKey), n * bitsPerKey;
      64 <= bits && asked <= bits && (bits == 64 || bits < asked + 8)
  {}

  /** No false negatives. */
  lemma NoFalseNegatives(hash: HashFunction, bitsPerKey: nat, k: nat, keys: seq<Bytes>, i: nat)
    requires 1 <= k <= 30 && i < |keys|
    ensures MayMatch(hash, keys[i], Filter(hash, bitsPerKey, k, keys))
  {
    var a := seq(FilterBytes(|keys|, bitsPerKey), _ => 0);
    FillHolds(hash, keys, a, k, i);
    assert Filter(hash, bitsPerKey, k, keys)[..|a|] == Fill(hash, keys, a, k);
  }

  /** The bits of the first k probes are all set. */
  ghost predicate AllProbed(a: Bytes, h: Word, k: nat)
    requires a != []
  {
    forall j :: 0 <= j < k ==> BitAt(a, ProbeAt(h, j, 8 * |a|))
  }

  lemma AnswersByProbes(a: Bytes, h: Word, k: nat)
    requires a != []
    ensures AllSet(a, h, Delta(h), k) <==> AllProbed(a, h, k)
  {
    AllSetIff(a, h, Delta(h), k);
    forall j | 0 <= j < k
      ensures ProbeAt(h, j, 8 * |a|) == From(h, Delta(h), j, 8 * |a|)
    {
      ProbeIsFrom(h, j, 8 * |a|);
    }
  }

  class BloomFilterPolicy {
    const hash: HashFunction
    const bitsPerKey: nat
    const k: nat

    ghost predicate Valid()
    {
      1 <= k <= 30
    }

    /** `probes` is bits_per_key * 0.69, rounded down. */
    constructor (h: HashFunction, bits: nat, probes: nat)
      ensures Valid() && hash == h && bitsPerKey == bits
      ensures (1 <= probes <= 30 ==> k == probes) && (probes > 30 ==> k == 30)
    {
      hash, bitsPerKey := h, bits;
      k := if probes < 1 then 1 else if probes > 30 then 30 else probes;
    }

    method CreateFilter(keys: seq<Bytes>, dst: Bytes) returns (r: Bytes)
      requires Valid()
      ensures r == dst + Filter(hash, bitsPerKey, k, keys)
    {
      var a: Bytes := seq(FilterBytes(|keys|, bitsPerKey), _ => 0);
      ghost var zeros := a;
      var i := 0;
      assert keys[..0] == [];
      while i < |keys|
        invariant i <= |keys| && |a| == |zeros| && a == Fill(hash, keys[..i], zeros, k)
      {
        assert keys[..i + 1][..i] == keys[..i];
        a := Probe(keys[i], a);
        i := i + 1;
      }
      assert keys[..i] == keys;
      r := dst + (a + [k]);
    }

    /** The inner loop: set the bits of one key. */
    method Probe(key: Bytes, bits: Bytes) returns (a: Bytes)
      requires bits != []
      ensures a == SetAll(bits, hash(key), Delta(hash(key)), k)
    {
      a := bits;
      var h := hash(key);
      var delta := Delta(h);
      var j := 0;
      while j < k
        invariant j <= k && |a| == |bits|
        invariant SetAll(a, h, delta, k - j) == SetAll(bits, hash(key), delta, k)
      {
        a := WithBit(a, BitPos(h, 8 * |a|));
        h := NextHash(h, delta);
        j := j + 1;
      }
    }

    method KeyMayMatch(key: Bytes, filter: Bytes) returns (r: bool)
      ensures r == MayMatch(hash, key, filter)
      ensures |filter| < 2 ==> !r
      ensures |filter| >= 2 && filter[|filter| - 1] > 30 ==> r
      ensures |filter| >= 2 && filter[|filter| - 1] <= 30 ==> (r <==> AllProbed(filter[..|filter| - 1], hash(key), filter[|filter| - 1]))
    {
      if |filter| < 2 {
        return false;
      }
      var a := filter[..|filter| - 1];
      var n := filter[|filter| - 1];
      if n > 30 {
        return true;
      }
      var h := hash(key);
      var delta := Delta(h);
      AnswersByProbes(a, h, n);
      var j := 0;
      while j < n
        invariant j <= n
        invariant AllSet(a, h, delta, n - j) == AllSet(a, hash(key), delta, n)
      {
        if !BitAt(a, BitPos(h, 8 * |a|)) {
          return false;
        }
        h := NextHash(h, delta);
        j := j + 1;
      }
      r := true;
    }
  }
}
