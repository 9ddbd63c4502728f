/** BlockBuilder: what it writes is a block that holds the added items. */
module BlockBuilding {
  import opened Keys
  import opened Coding
  import opened Blocks
  import opened BlockIterator

  ghost predicate Words(ns: seq<nat>) {
    forall i :: 0 <= i < |ns| ==> ns[i] < U32
  }

  function EncodeAll(ns: seq<nat>): (r: Bytes)
    requires Words(ns)
    ensures |r| == 4 * |ns|
  {
    if ns == [] then [] else EncodeFixed32(ns[0]) + EncodeAll(ns[1..])
  }

  lemma {:induction false} EncodeAllAt(ns: seq<nat>, k: nat, rest: Bytes)
    requires Words(ns) && k < |ns|
    ensures DecodeFixed32((EncodeAll(ns) + rest)[4 * k..]) == ns[k]
    decreases k
  {
    var e, more := EncodeFixed32(ns[0]), EncodeAll(ns[1..]);
    Join(e, more, rest);
    if k == 0 {
      Fixed32RoundTrip(ns[0], more + rest);
      assert (EncodeAll(ns) + rest)[0..] == EncodeAll(ns) + rest;
    } else {
      EncodeAllAt(ns[1..], k - 1, rest);
      DropFront(e, more + rest, 4 * k);
    }
  }

  lemma DropFront(a: Bytes, b: Bytes, n: nat)
    requires |a| <= n <= |a| + |b|
    ensures (a + b)[n..] == b[n - |a|..]
  {}

  lemma {:induction false} EncodeAllSnoc(ns: seq<nat>, n: nat)
    requires Words(ns) && n < U32 && Words(ns + [n])
    ensures EncodeAll(ns + [n]) == EncodeAll(ns) + EncodeFixed32(n)
    decreases |ns|
  {
    if ns == [] {
      assert [n][1..] == [] && ns + [n] == [n];
    } else {
      assert (ns + [n])[0] == ns[0] && (ns + [n])[1..] == ns[1..] + [n];
      EncodeAllSnoc(ns[1..], n);
      Join(EncodeFixed32(ns[0]), EncodeAll(ns[1..]), EncodeFixed32(n));
    }
  }

  /** The block of `m` grows by one item. */
  function Grown(m: Map, item: Item, shared: nat, end: nat, restart: bool): Map {
    Map(m.items + [item], m.shared + [shared], m.offs + [end], if restart then m.rs + [|m.items|] else m.rs)
  }

  lemma ItemKept(data: Bytes, more: Bytes, m: Map, item: Item, shared: nat, end: nat, restart: bool, j: nat)
    requires |m.shared| == |m.items| && |m.offs| == |m.items| + 1 && j < |m.items| && ItemOk(data, m, j) && data <= more
    ensures ItemOk(more, Grown(m, item, shared, end, restart), j)
  {
    var g := Grown(m, item, shared, end, restart);
    assert g.items[j] == m.items[j] && g.shared[j] == m.shared[j] && g.offs[j] == m.offs[j] && g.offs[j + 1] == m.offs[j + 1];
    assert j > 0 ==> g.items[j - 1] == m.items[j - 1];
    assert more[m.offs[j]..m.offs[j + 1]] == data[m.offs[j]..m.offs[j + 1]];
  }

  lemma IncreasingSnoc(s: seq<nat>, n: nat)
    requires Increasing(s) && (s == [] || s[|s| - 1] < n)
    ensures Increasing(s + [n])
  {}

  /** Adding an entry keeps the layout. */
  lemma EntriesGrow(data: Bytes, m: Map, item: Item, shared: nat, restart: bool)
    requires Entries(data, |data|, m) && shared <= |item.key|
    requires m.items == [] || restart ==> shared == 0
    requires m.items != [] ==> var last := m.items[|m.items| - 1].key; shared <= |last| && item.key[..shared] == last[..shared]
    requires restart ==> m.items != []
    ensures var more := data + EncodeEntry(shared, item.key[shared..], item.value);
      Entries(more, |more|, Grown(m, item, shared, |more|, restart))
  {
    var e := EncodeEntry(shared, item.key[shared..], item.value);
    var more := data + e;
    var g := Grown(m, item, shared, |more|, restart);
    HeaderSize(shared, |item.key| - shared, |item.value|);
    var n := |m.items|;
    forall j | 0 <= j < |g.items|
      ensures ItemOk(more, g, j)
    {
      if j < n {
        ItemKept(data, more, m, item, shared, |more|, restart, j);
      } else {
        assert g.offs[n] == m.offs[n] == |data| && g.offs[n + 1] == |more|;
        assert more[|data|..|more|] == e;
        assert j > 0 ==> g.items[j - 1] == m.items[j - 1];
      }
    }
    IncreasingSnoc(m.offs, |more|);
    RestartsGrow(data, m, item, shared, |more|, restart);
  }

  lemma RestartsGrow(data: Bytes, m: Map, item: Item, shared: nat, end: nat, restart: bool)
    requires Entries(data, |data|, m) && (m.items == [] || restart ==> shared == 0) && (restart ==> m.items != [])
    ensures var g := Grown(m, item, shared, end, restart); Increasing(g.rs) && forall k :: 0 <= k < |g.rs| ==> RestartOk(g, k)
  {
    var g := Grown(m, item, shared, end, restart);
    forall k | 0 <= k < |g.rs|
      ensures RestartOk(g, k)
    {
      if k < |m.rs| {
        assert RestartOk(m, k) && g.rs[k] == m.rs[k];
      }
    }
    if restart {
      assert RestartOk(m, |m.rs| - 1);
      IncreasingSnoc(m.rs, |m.items|);
    }
  }

  /** The restart array holds the offsets of the items at the restart points. */
  ghost predicate Match(m: Map, restarts: seq<nat>) {
    && |restarts| == |m.rs| && |m.offs| == |m.items| + 1
    && forall k :: 0 <= k < |m.rs| ==> m.rs[k] <= |m.items| && restarts[k] == m.offs[m.rs[k]]
  }

  lemma MatchGrows(m: Map, restarts: seq<nat>, item: Item, shared: nat, end: nat, restart: bool)
    requires Match(m, restarts)
    ensures Match(Grown(m, item, shared, end, restart), if restart then restarts + [m.offs[|m.items|]] else restarts)
  {}

  /** What Finish returns, read by Block. */
  lemma FinishedLayout(buffer: Bytes, m: Map, restarts: seq<nat>)
    requires Entries(buffer, |buffer|, m) && Match(m, restarts) && |buffer| + 4 * |restarts| + 4 < U32
    requires Words(restarts)
    ensures var data := buffer + EncodeAll(restarts) + EncodeFixed32(|restarts|);
      && Layout(data, |buffer|, m) && NumRestarts(data) == |m.rs| && RestartOffset(data) == |buffer|
  {
    var tail := EncodeFixed32(|restarts|);
    var data := buffer + EncodeAll(restarts) + tail;
    Join(buffer, EncodeAll(restarts), tail);
    CountReads(buffer + EncodeAll(restarts), |restarts|);
    EntriesWithTail(buffer, EncodeAll(restarts) + tail, m);
    forall k | 0 <= k < |m.rs|
      ensures RestartRead(data, |buffer|, m, k)
    {
      RestartReads(buffer, restarts, k);
    }
  }

  lemma RestartReads(buffer: Bytes, restarts: seq<nat>, k: nat)
    requires Words(restarts) && k < |restarts| < U32
    ensures var data := buffer + EncodeAll(restarts) + EncodeFixed32(|restarts|);
      |buffer| + 4 * k + 4 <= |data| && DecodeFixed32(data[|buffer| + 4 * k..]) == restarts[k]
  {
    var tail := EncodeFixed32(|restarts|);
    Join(buffer, EncodeAll(restarts), tail);
    EncodeAllAt(restarts, k, tail);
    DropFront(buffer, EncodeAll(restarts) + tail, |buffer| + 4 * k);
  }

  lemma CountReads(body: Bytes, n: nat)
    requires n < U32
    ensures var data := body + EncodeFixed32(n); NumRestarts(data) == n && RestartOffset(data) == |body| - 4 * n
  {
    LastWord(body, n);
  }

  lemma LastWord(a: Bytes, n: nat)
    requires n < U32
    ensures DecodeFixed32((a + EncodeFixed32(n))[|a|..]) == n
  {
    assert (a + EncodeFixed32(n))[|a|..] == EncodeFixed32(n) + [];
    Fixed32RoundTrip(n, []);
  }

  lemma EntriesWithTail(buffer: Bytes, tail: Bytes, m: Map)
    requires Entries(buffer, |buffer|, m)
    ensures Entries(buffer + tail, |buffer|, m)
  {
    forall j | 0 <= j < |m.items|
      ensures ItemOk(buffer + tail, m, j)
    {
      assert ItemOk(buffer, m, j);
      assert (buffer + tail)[m.offs[j]..m.offs[j + 1]] == buffer[m.offs[j]..m.offs[j + 1]];
    }
  }

  /** Block::NumRestarts and the offset of the restart array. */
  function NumRestarts(data: Bytes): nat
    requires |data| >= 4
  {
    DecodeFixed32(data[|data| - 4..])
  }

  function RestartOffset(data: Bytes): int
    requires |data| >= 4
  {
    |data| - (1 + NumRestarts(data)) * 4
  }

  // ---- How far keys are compressed ----

  /** The two keys have exactly so many bytes in common at their front. */
  predicate Longest(a: Bytes, b: Bytes, n: nat) {
    n <= |a| && n <= |b| && a[..n] == b[..n] && (n < |a| && n < |b| ==> a[n] != b[n])
  }

  /** A restart point every `interval` items, beginning with the first. */
  ghost predicate Spaced(rs: seq<nat>, interval: nat) {
    rs != [] && rs[0] == 0 && forall k :: 0 < k < |rs| ==> rs[k] == rs[k - 1] + interval
  }

  /** Everywhere else an entry shares all it can with the one before. */
  ghost predicate SharesAll(m: Map) {
    |m.shared| == |m.items| && forall j :: 0 < j < |m.items| && j !in m.rs ==> Longest(m.items[j - 1].key, m.items[j].key, m.shared[j])
  }

  /** Restart points as often as wanted, and the most sharing between them. */
  ghost predicate Compressed(m: Map, interval: nat, counter: nat) {
    forall n: nat :: n == |m.items| ==> CompressedItems(n, m, interval, counter)
  }

  ghost predicate CompressedItems(n: nat, m: Map, interval: nat, counter: nat) {
    && n == |m.items| && Spaced(m.rs, interval) && SharesAll(m)
    && m.rs[|m.rs| - 1] <= |m.items| && counter == |m.items| - m.rs[|m.rs| - 1] <= interval
  }

  lemma CompressedGrows(m: Map, restarts: seq<nat>, interval: nat, counter: nat, item: Item, shared: nat, end: nat)
    requires Compressed(m, interval, counter) && Match(m, restarts)
    requires counter < interval && m.items != [] ==> Longest(m.items[|m.items| - 1].key, item.key, shared)
    requires interval >= 1
    ensures var restart := counter >= interval;
      Compressed(Grown(m, item, shared, end, restart), interval, if restart then 1 else counter + 1)
  {
    assert CompressedItems(|m.items|, m, interval, counter);
    var g := Grown(m, item, shared, end, counter >= interval);
    if counter >= interval {
      assert g.rs[|m.rs|] == |m.items|;
    }
    forall j | 0 < j < |g.items| && j !in g.rs
      ensures Longest(g.items[j - 1].key, g.items[j].key, g.shared[j])
    {
      if j < |m.items| {
        assert j !in m.rs && g.items[j] == m.items[j] && g.items[j - 1] == m.items[j - 1] && g.shared[j] == m.shared[j];
      } else {
        assert g.items[j - 1] == m.items[|m.items| - 1];
      }
    }
  }

  lemma SameKey(last: Bytes, key: Bytes, shared: nat)
    requires shared <= |last| && shared <= |key| && last[..shared] == key[..shared]
    ensures last[..shared] + key[shared..] == key
  {}

  class BlockBuilder {
    const interval: nat
    var buffer: Bytes
    var restarts: seq<nat>
    var counter: nat
    var lastKey: Bytes
    ghost var m: Map

    ghost predicate Valid()
      reads this
    {
      && interval >= 1 && Entries(buffer, |buffer|, m) && counter <= interval
      && lastKey == (if m.items == [] then [] else m.items[|m.items| - 1].key)
      && (m.items == [] ==> counter == 0)
      && Match(m, restarts) && Compressed(m, interval, counter)
    }

    constructor (blockRestartInterval: nat)
      requires blockRestartInterval >= 1
      ensures Valid() && m.items == []
    {
      interval, buffer, restarts, counter, lastKey := blockRestartInterval, [], [0], 0, [];
      m := Map([], [], [0], [0]);
    }

    method Reset()
      requires interval >= 1
      modifies this
      ensures Valid() && m.items == []
    {
      buffer, restarts, counter, lastKey := [], [0], 0, [];
      m := Map([], [], [0], [0]);
    }

    /** Add: every `interval`-th entry is a restart point with its whole key, and the others leave
        out all that they share with the entry before. */
    method Add(key: Bytes, value: Bytes)
      requires Valid()
      modifies this
      ensures Valid() && m.items == old(m.items) + [Item(key, value)]
      ensures Compressed(m, interval, counter)
    {
      var shared, restart := Share(key);
      Append(key, value, shared, restart);
      MatchGrows(old(m), old(restarts), Item(key, value), shared, |buffer|, restart);
      CompressedGrows(old(m), old(restarts), interval, old(counter), Item(key, value), shared, |buffer|);
      SameKey(lastKey, key, shared);
      lastKey := lastKey[..shared] + key[shared..];
      counter := counter + 1;
    }

    /** A restart point, or as much sharing as there is. */
    method Share(key: Bytes) returns (shared: nat, restart: bool)
      requires Valid()
      modifies this`restarts, this`counter
      ensures restart == (old(counter) >= interval) && counter == (if restart then 0 else old(counter))
      ensures restarts == if restart then old(restarts) + [|buffer|] else old(restarts)
      ensures shared <= |lastKey| && shared <= |key| && lastKey[..shared] == key[..shared]
      ensures if restart then shared == 0 else Longest(lastKey, key, shared)
    {
      shared, restart := 0, counter >= interval;
      if !restart {
        shared := SharedWith(key);
      } else {
        restarts := restarts + [|buffer|];
        counter := 0;
      }
    }

    method Append(key: Bytes, value: Bytes, shared: nat, ghost restart: bool)
      requires Entries(buffer, |buffer|, m) && shared <= |key|
      requires m.items == [] || restart ==> shared == 0
      requires m.items != [] ==> var last := m.items[|m.items| - 1].key; shared <= |last| && key[..shared] == last[..shared]
      requires restart ==> m.items != []
      modifies this`buffer, this`m
      ensures Entries(buffer, |buffer|, m) && m == Grown(old(m), Item(key, value), shared, |buffer|, restart)
    {
      ghost var before := buffer;
      EntriesGrow(buffer, m, Item(key, value), shared, restart);
      buffer := buffer + EntryHeader(shared, |key| - shared, |value|);
      buffer := buffer + key[shared..];
      buffer := buffer + value;
      AppendedEntry(before, shared, key[shared..], value);
      m := Grown(m, Item(key, value), shared, |buffer|, restart);
    }

    /** How many bytes the key shares with the last one. */
    method SharedWith(key: Bytes) returns (shared: nat)
      ensures Longest(lastKey, key, shared)
    {
      shared := 0;
      var minLength := if |lastKey| < |key| then |lastKey| else |key|;
      while shared < minLength && lastKey[shared] == key[shared]
        invariant shared <= minLength && lastKey[..shared] == key[..shared]
      {
        shared := shared + 1;
      }
    }

    /** The finished block, where a reader finds the items that were added. */
    method Finish() returns (block: Bytes)
      requires Valid() && |buffer| + 4 * |restarts| + 4 < U32
      modifies this`buffer
      ensures Compressed(m, interval, counter) && m == old(m)
      ensures |block| >= 4 && RestartOffset(block) >= 0 && Layout(block, RestartOffset(block), m) && NumRestarts(block) == |m.rs| && block == buffer
    {
      ghost var start := buffer;
      RestartsFit(buffer, m, restarts);
      FinishedLayout(buffer, m, restarts);
      AppendRestarts();
      buffer := buffer + EncodeFixed32(|restarts|);
      block := buffer;
    }

    method AppendRestarts()
      requires Words(restarts)
      modifies this`buffer
      ensures buffer == old(buffer) + EncodeAll(restarts)
    {
      var i := 0;
      assert restarts[..0] == [] && Words([]);
      while i < |restarts|
        invariant i <= |restarts| && Words(restarts[..i]) && buffer == old(buffer) + EncodeAll(restarts[..i])
      {
        assert restarts[..i + 1] == restarts[..i] + [restarts[i]];
        EncodeAllSnoc(restarts[..i], restarts[i]);
        Join(old(buffer), EncodeAll(restarts[..i]), EncodeFixed32(restarts[i]));
        buffer := buffer + EncodeFixed32(restarts[i]);
        i := i + 1;
      }
      assert restarts[..i] == restarts;
    }
  }

  lemma AppendedEntry(buffer: Bytes, shared: nat, delta: Bytes, value: Bytes)
    ensures buffer + EntryHeader(shared, |delta|, |value|) + delta + value == buffer + EncodeEntry(shared, delta, value)
  {
    JoinFour(buffer, EntryHeader(shared, |delta|, |value|), delta, value);
  }

  lemma RestartsFit(buffer: Bytes, m: Map, restarts: seq<nat>)
    requires Entries(buffer, |buffer|, m) && Match(m, restarts) && |buffer| < U32
    ensures Words(restarts)
  {
    forall k | 0 <= k < |restarts|
      ensures restarts[k] < U32
    {
      Offsets(buffer, |buffer|, m, m.rs[k]);
    }
  }
}
