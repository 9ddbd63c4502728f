/** One shard of the block cache: a hash table, two intrusive lists and reference counts. */
module LruCache {
  import opened Keys
  import opened Rings

  /** An entry in memory, with the fields that never change. */
  datatype Handle = Handle(id: nat, key: string, hash: nat, charge: nat)

  predicate Same(h: Handle, key: string, hash: nat) {
    h.hash == hash && h.key == key
  }

  /** Bitwise and. */
  function And(a: nat, b: nat): (r: nat)
    ensures r <= b
  {
    if a == 0 || b == 0 then 0 else a % 2 * (b % 2) + 2 * And(a / 2, b / 2)
  }

  ghost predicate PowerOfTwo(n: nat) {
    n == 1 || (n > 0 && n % 2 == 0 && PowerOfTwo(n / 2))
  }

  /** The bucket of a hash. */
  function Slot(hash: nat, length: nat): (r: nat)
    requires length > 0
    ensures r < length
  {
    And(hash, length - 1)
  }

  /** As the number of buckets is a power of two, hashes reach every bucket: the mask is the remainder. */
  lemma {:induction false} SlotIsRemainder(hash: nat, length: nat)
    requires PowerOfTwo(length)
    ensures Slot(hash, length) == hash % length
    decreases length
  {
    if length > 1 {
      var half := length / 2;
      SlotIsRemainder(hash / 2, half);
      LowBit(hash, half);
      TwiceRemainder(hash, half);
    }
  }

  lemma LowBit(hash: nat, half: nat)
    requires half > 0
    ensures Slot(hash, 2 * half) == hash % 2 + 2 * Slot(hash / 2, half)
  {
    assert (2 * half - 1) / 2 == half - 1 && (2 * half - 1) % 2 == 1;
  }

  lemma TwiceRemainder(hash: nat, half: nat)
    requires half > 0
    ensures hash % (2 * half) == hash % 2 + 2 * (hash / 2 % half)
  {
    var q, r := hash / 2 / half, hash % 2 + 2 * (hash / 2 % half);
    assert hash / 2 == q * half + hash / 2 % half;
    assert q * (2 * half) == 2 * (q * half);
    RemainderIs(hash, 2 * half, q, r);
  }

  lemma RemainderIs(a: nat, b: nat, q: nat, r: nat)
    requires b > 0 && a == q * b + r && r < b
    ensures a % b == r
  {
    var d := a / b - q;
    assert a == a / b * b + a % b;
    assert d * b == a / b * b - q * b;
    if d != 0 {
      FarFromZero(d, b);
      assert false;
    }
  }

  lemma FarFromZero(d: int, b: int)
    requires d != 0 && b > 0
    ensures d * b >= b || d * b <= -b
  {
    if d > 0 {
      NoSmaller(d, b);
    } else {
      NoSmaller(-d, b);
      assert -d * b == -(d * b);
    }
  }

  lemma {:induction false} NoSmaller(d: int, b: int)
    requires d > 0 && b > 0
    ensures d * b >= b
    decreases d
  {
    if d > 1 {
      NoSmaller(d - 1, b);
      assert d * b == (d - 1) * b + b;
    }
  }

  ghost predicate Buckets(n: nat, list: seq<seq<Handle>>, entries: set<Handle>) {
    && n == |list| > 0
    && (forall b, h {:trigger h in list[b]} :: 0 <= b < n && h in list[b] ==> h in entries && Slot(h.hash, n) == b)
    && (forall h <- entries :: h in list[Slot(h.hash, n)])
    && (forall b :: 0 <= b < n ==> Unrepeated(list[b]))
  }

  /** The buckets hold exactly `entries`, each where its hash says. */
  ghost predicate TableOk(list: seq<seq<Handle>>, entries: set<Handle>) {
    |list| > 0 && forall n: nat :: n == |list| ==> Buckets(n, list, entries)
  }

  ghost predicate DistinctKeys(entries: set<Handle>) {
    forall g, h :: g in entries && h in entries && Same(g, h.key, h.hash) ==> g == h
  }

  /** No two entries have the same key. */
  ghost predicate OnePerKey(entries: set<Handle>) {
    forall all :: all == entries ==> DistinctKeys(all)
  }

  /** Replacing one bucket. */
  lemma BucketChanged(list: seq<seq<Handle>>, entries: set<Handle>, s: nat, bucket: seq<Handle>, entries2: set<Handle>)
    requires TableOk(list, entries) && s < |list| && Unrepeated(bucket)
    requires forall h :: h in bucket <==> h in entries2 && Slot(h.hash, |list|) == s
    requires forall h: Handle :: Slot(h.hash, |list|) != s ==> (h in entries2 <==> h in entries)
    ensures TableOk(list[s := bucket], entries2)
  {
    assert Buckets(|list|, list, entries);
  }

  lemma BucketMembers(list: seq<seq<Handle>>, entries: set<Handle>, s: nat)
    requires TableOk(list, entries) && s < |list|
    ensures forall h :: h in list[s] <==> h in entries && Slot(h.hash, |list|) == s
    ensures Unrepeated(list[s])
  {
    assert Buckets(|list|, list, entries);
  }

  lemma NoMatch(list: seq<seq<Handle>>, entries: set<Handle>, key: string, hash: nat, p: nat)
    requires TableOk(list, entries)
    requires var b := Slot(hash, |list|); p <= |list[b]| && forall i :: 0 <= i < p ==> !Same(list[b][i], key, hash)
    ensures p == |list[Slot(hash, |list|)]| ==> forall h <- entries :: !Same(h, key, hash)
    ensures forall h <- list[Slot(hash, |list|)] :: h in entries
  {
    BucketMembers(list, entries, Slot(hash, |list|));
    forall h | h in entries && h in list[Slot(hash, |list|)] && p == |list[Slot(hash, |list|)]|
      ensures !Same(h, key, hash)
    {
      var i :| 0 <= i < p && list[Slot(hash, |list|)][i] == h;
    }
  }

  /** What the three ways of changing a bucket do to the table. */
  lemma BucketReplaced(list: seq<seq<Handle>>, entries: set<Handle>, s: nat, p: nat, h: Handle)
    requires TableOk(list, entries) && s < |list| && p < |list[s]| && Slot(h.hash, |list|) == s && h !in entries
    ensures TableOk(list[s := list[s][p := h]], entries - {list[s][p]} + {h})
  {
    BucketMembers(list, entries, s);
    ReplacedMembers(list[s], p, h);
    BucketChanged(list, entries, s, list[s][p := h], entries - {list[s][p]} + {h});
  }

  lemma BucketExtended(list: seq<seq<Handle>>, entries: set<Handle>, s: nat, h: Handle, front: bool)
    requires TableOk(list, entries) && s < |list| && Slot(h.hash, |list|) == s && h !in entries
    ensures TableOk(list[s := if front then [h] + list[s] else list[s] + [h]], entries + {h})
  {
    BucketMembers(list, entries, s);
    var bucket := if front then [h] + list[s] else list[s] + [h];
    BucketChanged(list, entries, s, bucket, entries + {h});
  }

  lemma BucketShrunk(list: seq<seq<Handle>>, entries: set<Handle>, s: nat, p: nat)
    requires TableOk(list, entries) && s < |list| && p < |list[s]|
    ensures TableOk(list[s := Without(list[s], p)], entries - {list[s][p]})
  {
    BucketMembers(list, entries, s);
    WithoutMembers(list[s], p);
    BucketChanged(list, entries, s, Without(list[s], p), entries - {list[s][p]});
  }

  lemma OnePerKeyChanged(entries: set<Handle>, o: set<Handle>, h: Handle)
    requires OnePerKey(entries) && forall g <- entries :: Same(g, h.key, h.hash) ==> g in o
    ensures OnePerKey(entries - o + {h})
  {
    assert DistinctKeys(entries);
  }

  lemma OnePerKeyLess(entries: set<Handle>, fewer: set<Handle>)
    requires OnePerKey(entries) && fewer <= entries
    ensures OnePerKey(fewer)
  {
    assert DistinctKeys(entries);
  }

  class HandleTable {
    var list: seq<seq<Handle>>
    var elems: nat
    ghost var entries: set<Handle>

    ghost predicate Valid()
      reads this
    {
      && TableOk(list, entries) && OnePerKey(entries) && elems == |entries|
      && PowerOfTwo(|list|) && elems <= |list|
    }

    constructor ()
      ensures Valid() && entries == {} && fresh(this)
    {
      list, elems, entries := seq(4, _ => []), 0, {};
      assert PowerOfTwo(2);
    }

    /** The slot that points to a matching entry, or the trailing slot of the bucket. */
    method FindPointer(key: string, hash: nat) returns (b: nat, p: nat)
      requires Valid()
      ensures b == Slot(hash, |list|) && p <= |list[b]|
      ensures p < |list[b]| ==> Same(list[b][p], key, hash) && list[b][p] in entries
      ensures p == |list[b]| ==> forall h <- entries :: !Same(h, key, hash)
    {
      b, p := Slot(hash, |list|), 0;
      while p < |list[b]| && !Same(list[b][p], key, hash)
        invariant p <= |list[b]| && forall i :: 0 <= i < p ==> !Same(list[b][i], key, hash)
      {
        p := p + 1;
      }
      NoMatch(list, entries, key, hash, p);
    }

    method Lookup(key: string, hash: nat) returns (r: Option<Handle>)
      requires Valid()
      ensures match r
              case Some(h) => h in entries && Same(h, key, hash)
              case None => forall h <- entries :: !Same(h, key, hash)
    {
      var b, p := FindPointer(key, hash);
      r := if p < |list[b]| then Some(list[b][p]) else None;
    }

    /** The new entry takes the place of one with the same key, which is returned. */
    method Insert(h: Handle) returns (r: Option<Handle>)
      requires Valid() && h !in entries
      modifies this
      ensures Valid()
      ensures match r
              case Some(o) => o in old(entries) && Same(o, h.key, h.hash) && entries == old(entries) - {o} + {h}
              case None => (forall o <- old(entries) :: !Same(o, h.key, h.hash)) && entries == old(entries) + {h}
    {
      var b, p := FindPointer(h.key, h.hash);
      Sizes(entries, if p < |list[b]| then list[b][p] else h, h);
      if p < |list[b]| {
        var o := list[b][p];
        r := Some(o);
        assert DistinctKeys(entries);
        BucketReplaced(list, entries, b, p, h);
        OnePerKeyChanged(entries, {o}, h);
        entries := entries - {o} + {h};
        list := list[b := list[b][p := h]];
      } else {
        r := None;
        BucketExtended(list, entries, b, h, false);
        OnePerKeyChanged(entries, {}, h);
        assert entries - {} + {h} == entries + {h};
        entries := entries + {h};
        list := list[b := list[b] + [h]];
        elems := elems + 1;
        if elems > |list| {
          Resize();
        }
      }
    }

    method Remove(key: string, hash: nat) returns (r: Option<Handle>)
      requires Valid()
      modifies this
      ensures Valid()
      ensures match r
              case Some(o) => o in old(entries) && Same(o, key, hash) && entries == old(entries) - {o}
              case None => (forall o <- old(entries) :: !Same(o, key, hash)) && entries == old(entries)
    {
      var b, p := FindPointer(key, hash);
      r := None;
      if p < |list[b]| {
        var o := list[b][p];
        r := Some(o);
        BucketShrunk(list, entries, b, p);
        OnePerKeyLess(entries, entries - {o});
        entries := entries - {o};
        list := list[b := Without(list[b], p)];
        elems := elems - 1;
      }
    }

    /** Rehashing keeps every entry, and makes a power of two buckets, no fewer than the entries. */
    method Resize()
      requires TableOk(list, entries)
      modifies this`list
      ensures TableOk(list, entries) && PowerOfTwo(|list|) && elems <= |list|
    {
      var newLength: nat := 4;
      assert PowerOfTwo(2);
      while newLength < elems
        decreases elems - newLength
        invariant newLength > 0 && PowerOfTwo(newLength)
      {
        newLength := newLength * 2;
      }
      var newList: seq<seq<Handle>> := seq(newLength, _ => []);
      ghost var moved: set<Handle> := {};
      var i := 0;
      while i < |list|
        invariant list == old(list) && i <= |list| && |newList| == newLength && TableOk(newList, moved)
        invariant forall h :: h in moved <==> h in entries && Slot(h.hash, |list|) < i
      {
        BucketMembers(list, entries, i);
        newList, moved := MoveBucket(list[i], newList, moved);
        i := i + 1;
      }
      assert moved == entries;
      list := newList;
    }
  }

  /** Every entry of one old bucket goes to the front of its new bucket. */
  method MoveBucket(bucket: seq<Handle>, list: seq<seq<Handle>>, ghost entries: set<Handle>) returns (newList: seq<seq<Handle>>, ghost moved: set<Handle>)
    requires TableOk(list, entries) && Unrepeated(bucket) && forall h <- bucket :: h !in entries
    ensures TableOk(newList, moved) && |newList| == |list|
    ensures forall h :: h in moved <==> h in entries || h in bucket
  {
    newList, moved := list, entries;
    var j := 0;
    while j < |bucket|
      invariant j <= |bucket| && TableOk(newList, moved) && |newList| == |list|
      invariant forall h :: h in moved <==> h in entries || h in bucket[..j]
    {
      var h := bucket[j];
      var s := Slot(h.hash, |newList|);
      BucketExtended(newList, moved, s, h, true);
      newList := newList[s := [h] + newList[s]];
      moved := moved + {h};
      j := j + 1;
    }
    assert bucket[..j] == bucket;
  }

  lemma ReplacedMembers(s: seq<Handle>, p: nat, h: Handle)
    requires Unrepeated(s) && p < |s| && h !in s
    ensures Unrepeated(s[p := h])
    ensures forall x :: x in s[p := h] <==> x == h || (x in s && x != s[p])
  {
    var t := s[p := h];
    assert t[p] == h;
    forall x | x in t
      ensures x == h || (x in s && x != s[p])
    {
      var i :| 0 <= i < |t| && t[i] == x;
      assert i != p ==> s[i] == x;
    }
    forall x | x in s && x != s[p]
      ensures x in t
    {
      var i :| 0 <= i < |s| && s[i] == x;
      assert t[i] == x;
    }
  }

  lemma Sizes(entries: set<Handle>, o: Handle, h: Handle)
    requires h !in entries
    ensures o in entries ==> |entries - {o} + {h}| == |entries|
    ensures |entries + {h}| == |entries| + 1
  {}

  // ---- The shard ----

  /** The dummy heads of the two lists. */
  const LRU := Handle(0, "", 0, 0)
  const IN_USE := Handle(1, "", 0, 0)

  function Charges(hs: seq<Handle>): nat {
    if hs == [] then 0 else Charges(hs[..|hs| - 1]) + hs[|hs| - 1].charge
  }

  function Usage(lru: seq<Handle>, inUse: seq<Handle>): nat {
    Charges(lru) + Charges(inUse)
  }

  lemma {:induction false} ChargesSplit(a: seq<Handle>, b: seq<Handle>)
    ensures Charges(a + b) == Charges(a) + Charges(b)
    decreases |b|
  {
    if b == [] {
      assert a + b == a;
    } else {
      assert (a + b)[..|a + b| - 1] == a + b[..|b| - 1];
      ChargesSplit(a, b[..|b| - 1]);
    }
  }

  lemma ChargesMid(a: seq<Handle>, h: Handle, b: seq<Handle>)
    ensures Charges(a + [h] + b) == Charges(a + b) + h.charge
  {
    ChargesAppend(a, h);
    ChargesSplit(a + [h], b);
    ChargesSplit(a, b);
  }

  lemma SplitAround(hs: seq<Handle>, i: nat)
    requires i < |hs|
    ensures hs == hs[..i] + [hs[i]] + hs[i + 1..]
  {}

  lemma ChargesWithout(hs: seq<Handle>, i: nat)
    requires i < |hs|
    ensures Charges(Without(hs, i)) + hs[i].charge == Charges(hs)
  {
    SplitAround(hs, i);
    ChargesMid(hs[..i], hs[i], hs[i + 1..]);
  }

  lemma ChargesAppend(hs: seq<Handle>, h: Handle)
    ensures Charges(hs + [h]) == Charges(hs) + h.charge
  {
    assert (hs + [h])[..|hs|] == hs;
  }

  ghost predicate CountsOf(keys: set<Handle>, refs: map<Handle, nat>, held: map<Handle, nat>, inCache: set<Handle>) {
    && keys == refs.Keys == held.Keys && inCache <= keys
    && forall h <- keys :: h.id >= 2 && refs[h] > 0 && refs[h] == held[h] + if h in inCache then 1 else 0
  }

  /** Every live entry counts the references its clients hold, and the cache's own. */
  ghost predicate Counts(refs: map<Handle, nat>, held: map<Handle, nat>, inCache: set<Handle>) {
    forall keys :: keys == refs.Keys ==> CountsOf(keys, refs, held, inCache)
  }

  ghost predicate SortingOf(all: set<Handle>, held: map<Handle, nat>, inCache: set<Handle>, lru: seq<Handle>, inUse: seq<Handle>) {
    && (forall h :: h in inCache <==> h in lru || h in inUse)
    && (forall h <- lru :: h in held && held[h] == 0)
    && (forall h <- inUse :: h in held && held[h] > 0)
  }

  /** The entries in the cache are on one list or the other, by whether a client uses them. */
  ghost predicate Sorting(held: map<Handle, nat>, inCache: set<Handle>, lru: seq<Handle>, inUse: seq<Handle>) {
    forall all :: all == inCache ==> SortingOf(all, held, inCache, lru, inUse)
  }

  lemma SortingRef(held: map<Handle, nat>, inCache: set<Handle>, lru: seq<Handle>, inUse: seq<Handle>, e: Handle, h: nat)
    requires Sorting(held, inCache, lru, inUse) && e !in lru && h > 0
    ensures Sorting(held[e := h], inCache, lru, inUse)
  {
    assert SortingOf(inCache, held, inCache, lru, inUse);
  }

  lemma SortingRefUnused(held: map<Handle, nat>, inCache: set<Handle>, lru: seq<Handle>, inUse: seq<Handle>, e: Handle, lru2: seq<Handle>, h: nat)
    requires Sorting(held, inCache, lru, inUse) && (e in lru && lru2 == Dropped(lru, e)) && Unrepeated(lru) && h > 0
    ensures Sorting(held[e := h], inCache, lru2, inUse + [e])
  {
    assert SortingOf(inCache, held, inCache, lru, inUse);
    DroppedMembers(lru, e, lru2);
  }

  lemma SortingUnrefLast(held: map<Handle, nat>, inCache: set<Handle>, lru: seq<Handle>, inUse: seq<Handle>, e: Handle)
    requires Sorting(held, inCache, lru, inUse) && e !in inCache
    ensures Sorting(held - {e}, inCache, lru, inUse)
  {
    assert SortingOf(inCache, held, inCache, lru, inUse);
  }

  lemma SortingUnrefUnused(held: map<Handle, nat>, inCache: set<Handle>, lru: seq<Handle>, inUse: seq<Handle>, e: Handle, inUse2: seq<Handle>)
    requires Sorting(held, inCache, lru, inUse) && (e in inUse && inUse2 == Dropped(inUse, e)) && Unrepeated(inUse) && e !in lru
    ensures Sorting(held[e := 0], inCache, lru + [e], inUse2)
  {
    assert SortingOf(inCache, held, inCache, lru, inUse);
    DroppedMembers(inUse, e, inUse2);
  }

  lemma SortingUnref(held: map<Handle, nat>, inCache: set<Handle>, lru: seq<Handle>, inUse: seq<Handle>, e: Handle, h: nat)
    requires Sorting(held, inCache, lru, inUse) && e in held && held[e] > 0 && (e in inCache ==> h > 0)
    ensures Sorting(held[e := h], inCache, lru, inUse)
  {
    assert SortingOf(inCache, held, inCache, lru, inUse);
  }

  /** Whether an entry is on the LRU list can be told from its count. */
  lemma SortingAt(held: map<Handle, nat>, inCache: set<Handle>, lru: seq<Handle>, inUse: seq<Handle>, e: Handle)
    requires Sorting(held, inCache, lru, inUse)
    ensures e in inCache <==> e in lru || e in inUse
    ensures e in lru ==> e in held && held[e] == 0
    ensures e in inUse ==> e in held && held[e] > 0
  {
    assert SortingOf(inCache, held, inCache, lru, inUse);
  }

  ghost predicate AccountOf(n: nat, created: set<Handle>, live: set<Handle>, deleted: seq<Handle>, nextId: nat) {
    && Unrepeated(deleted) && (forall h :: h in created <==> h in live || h in deleted) && (forall h <- deleted :: h !in live)
    && n == nextId >= 2 && forall h <- created :: 2 <= h.id < nextId
  }

  /** Every entry ever created is alive or was deleted, once. */
  ghost predicate Accounted(created: set<Handle>, live: set<Handle>, deleted: seq<Handle>, nextId: nat) {
    forall n: nat :: n == nextId ==> AccountOf(n, created, live, deleted, nextId)
  }

  class LRUCache {
    const capacity: nat
    const table: HandleTable
    var usage: nat
    var refs: map<Handle, nat>
    var inCache: set<Handle>
    var next: map<Handle, Handle>
    var prev: map<Handle, Handle>
    var nextId: nat
    /** The entries whose deleter has run, in order. */
    var deleted: seq<Handle>
    /** Least recently used first. */
    ghost var lru: seq<Handle>
    ghost var inUse: seq<Handle>
    ghost var held: map<Handle, nat>
    ghost var created: set<Handle>

    /** All but the hash table. */
    ghost predicate Core()
      reads this
    {
      && TwoRings(next, prev, LRU, lru, IN_USE, inUse)
      && Counts(refs, held, inCache) && Sorting(held, inCache, lru, inUse)
      && usage == Usage(lru, inUse)
      && Accounted(created, refs.Keys, deleted, nextId)
    }

    ghost predicate Valid()
      reads this, table
    {
      Core() && table.Valid() && table.entries == inCache
    }

    constructor (c: nat)
      ensures Valid() && capacity == c && created == {} && deleted == []
      ensures fresh(table)
    {
      capacity := c;
      table := new HandleTable();
      usage, refs, inCache, nextId, deleted := 0, map[], {}, 2, [];
      next, prev := map[LRU := LRU, IN_USE := IN_USE], map[LRU := LRU, IN_USE := IN_USE];
      lru, inUse, held, created := [], [], map[], {};
    }

    /** Splice `e` out of the list it is on. */
    method LRU_Remove(e: Handle)
      requires TwoRings(next, prev, LRU, lru, IN_USE, inUse) && (e in lru || e in inUse)
      modifies this`next, this`prev, this`lru, this`inUse
      ensures TwoRings(next, prev, LRU, lru, IN_USE, inUse) && e !in lru && e !in inUse
      ensures if e in old(lru) then lru == Dropped(old(lru), e) && inUse == old(inUse) else inUse == Dropped(old(inUse), e) && lru == old(lru)
    {
      ghost var i: nat, first := 0, e in lru;
      Swapped(next, prev, LRU, lru, IN_USE, inUse);
      if e in lru {
        i := DroppedAt(lru, e);
        RemoveFromFirst(next, prev, LRU, lru, IN_USE, inUse, i);
        lru := Without(lru, i);
      } else {
        i := DroppedAt(inUse, e);
        RemoveFromFirst(next, prev, IN_USE, inUse, LRU, lru, i);
        inUse := Without(inUse, i);
      }
      var n, p := next[e], prev[e];
      prev := prev[n := p];
      next := next[p := n];
      if !first {
        Swapped(next, prev, IN_USE, inUse, LRU, lru);
      }
    }

    /** Make `e` the newest entry of a list. */
    method LRU_Append(list: Handle, e: Handle)
      requires TwoRings(next, prev, LRU, lru, IN_USE, inUse) && e !in lru && e !in inUse && e.id >= 2
      requires list == LRU || list == IN_USE
      modifies this`next, this`prev, this`lru, this`inUse
      ensures TwoRings(next, prev, LRU, lru, IN_USE, inUse)
      ensures if list == LRU then lru == old(lru) + [e] && inUse == old(inUse) else inUse == old(inUse) + [e] && lru == old(lru)
    {
      if list == LRU {
        AppendToFirst(next, prev, LRU, lru, IN_USE, inUse, e);
        lru := lru + [e];
      } else {
        Swapped(next, prev, LRU, lru, IN_USE, inUse);
        AppendToFirst(next, prev, IN_USE, inUse, LRU, lru, e);
        inUse := inUse + [e];
      }
      next := next[e := list];
      var last := prev[list];
      prev := prev[e := last];
      next := next[last := e];
      prev := prev[list := e];
      if list != LRU {
        Swapped(next, prev, IN_USE, inUse, LRU, lru);
      }
    }

    /** Take `e` from one list and make it the newest of the other. */
    method MoveTo(list: Handle, e: Handle)
      requires TwoRings(next, prev, LRU, lru, IN_USE, inUse) && e.id >= 2
      requires (list == IN_USE && e in lru) || (list == LRU && e in inUse && e !in lru)
      modifies this`next, this`prev, this`lru, this`inUse
      ensures TwoRings(next, prev, LRU, lru, IN_USE, inUse)
      ensures Usage(lru, inUse) == Usage(old(lru), old(inUse))
      ensures if list == IN_USE then lru == Dropped(old(lru), e) && inUse == old(inUse) + [e] else inUse == Dropped(old(inUse), e) && lru == old(lru) + [e]
    {
      LRU_Remove(e);
      ErasedCharges(old(lru), old(inUse), e, lru, inUse);
      ChargesAppend(lru, e);
      ChargesAppend(inUse, e);
      LRU_Append(list, e);
    }

    /** A client takes a reference; an entry that nobody used leaves the LRU list. */
    method Ref(e: Handle)
      requires Core() && e in refs
      modifies this`next, this`prev, this`refs, this`lru, this`inUse, this`held
      ensures Core() && e in old(held) && held == old(held)[e := old(held)[e] + 1]
      ensures e in old(lru) ==> lru == Dropped(old(lru), e) && inUse == old(inUse) + [e]
      ensures e !in old(lru) ==> lru == old(lru) && inUse == old(inUse)
      ensures e in inCache ==> e in inUse
    {
      CountsAt(refs, held, inCache, e);
      SortingAt(held, inCache, lru, inUse, e);
      if refs[e] == 1 && e in inCache {
        Swapped(next, prev, LRU, lru, IN_USE, inUse);
        MoveTo(IN_USE, e);
        SortingRefUnused(held, inCache, old(lru), old(inUse), e, lru, held[e] + 1);
      } else {
        SortingRef(held, inCache, lru, inUse, e, held[e] + 1);
      }
      CountsChanged(refs, held, inCache, e, refs[e] + 1, held[e] + 1);
      SameKeys(refs, e, refs[e] + 1);
      refs := refs[e := refs[e] + 1];
      held := held[e := held[e] + 1];
    }

    /** A client's reference is dropped: the last one of all deletes the entry, the last but the
        cache's own makes it the newest on the LRU list. */
    method Unref(e: Handle)
      requires Core() && e in held && held[e] > 0
      modifies this`next, this`prev, this`refs, this`lru, this`inUse, this`held, this`deleted
      ensures Core()
      ensures if e !in inCache && old(held)[e] == 1 then held == old(held) - {e} && deleted == old(deleted) + [e] else held == old(held)[e := old(held)[e] - 1] && deleted == old(deleted)
      ensures if e in inCache && old(held)[e] == 1 then inUse == Dropped(old(inUse), e) && lru == old(lru) + [e] else lru == old(lru) && inUse == old(inUse)
    {
      CountsAt(refs, held, inCache, e);
      if refs[e] - 1 == 0 {
        CountsDropped(refs, held, inCache, e);
        SortingUnrefLast(held, inCache, lru, inUse, e);
        AccountDeleted(created, refs, deleted, nextId, e);
        refs := refs - {e};
        held := held - {e};
        deleted := deleted + [e];
      } else {
        Decrement(e);
      }
    }

    method Decrement(e: Handle)
      requires Core() && e in held && held[e] > 0 && e in refs && refs[e] > 1
      modifies this`next, this`prev, this`refs, this`lru, this`inUse, this`held
      ensures Core() && held == old(held)[e := old(held)[e] - 1]
      ensures e in inCache && old(held)[e] == 1 ==> e in old(inUse) && inUse == Dropped(old(inUse), e) && lru == old(lru) + [e]
      ensures !(e in inCache && old(held)[e] == 1) ==> lru == old(lru) && inUse == old(inUse)
    {
      CountsAt(refs, held, inCache, e);
      SortingAt(held, inCache, lru, inUse, e);
      CountsChanged(refs, held, inCache, e, refs[e] - 1, held[e] - 1);
      SameKeys(refs, e, refs[e] - 1);
      refs := refs[e := refs[e] - 1];
      if e in inCache && refs[e] == 1 {
        MakeIdle(e);
      } else {
        SortingUnref(held, inCache, lru, inUse, e, held[e] - 1);
      }
      held := held[e := held[e] - 1];
    }

    /** The last client has let go of a cached entry, which may be evicted from now on. */
    method MakeIdle(e: Handle)
      requires TwoRings(next, prev, LRU, lru, IN_USE, inUse) && Sorting(held, inCache, lru, inUse) && e in inUse && e !in lru && e.id >= 2
      modifies this`next, this`prev, this`lru, this`inUse
      ensures TwoRings(next, prev, LRU, lru, IN_USE, inUse) && Sorting(held[e := 0], inCache, lru, inUse)
      ensures Usage(lru, inUse) == Usage(old(lru), old(inUse))
      ensures inUse == Dropped(old(inUse), e) && lru == old(lru) + [e]
    {
      Swapped(next, prev, LRU, lru, IN_USE, inUse);
      MoveTo(LRU, e);
      SortingUnrefUnused(held, inCache, old(lru), old(inUse), e, inUse);
    }

    /** What is left of an erasure once the hash table no longer has `e`. */
    method FinishErase(e: Handle)
      requires Core() && e in inCache
      modifies this`next, this`prev, this`refs, this`lru, this`inUse, this`held, this`deleted, this`inCache, this`usage
      ensures Core() && inCache == old(inCache) - {e} && usage + e.charge == old(usage)
      ensures if e in old(lru) then lru == Dropped(old(lru), e) && inUse == old(inUse) else inUse == Dropped(old(inUse), e) && lru == old(lru)
      ensures e in old(held)
      ensures if old(held)[e] == 0 then held == old(held) - {e} && deleted == old(deleted) + [e] else held == old(held) && deleted == old(deleted)
    {
      SortingAt(held, inCache, lru, inUse, e);
      CountsErased(refs, held, inCache, e);
      Swapped(next, prev, LRU, lru, IN_USE, inUse);
      LRU_Remove(e);
      SortingErased(held, inCache, old(lru), old(inUse), e, lru, inUse, held[e] + 1);
      ErasedCharges(old(lru), old(inUse), e, lru, inUse);
      inCache := inCache - {e};
      usage := usage - e.charge;
      held := held[e := held[e] + 1];
      Unref(e);
      assert old(held)[e] == 0 ==> held == old(held) - {e};
    }

    method Lookup(key: string, hash: nat) returns (r: Option<Handle>)
      requires Valid()
      modifies this
      ensures Valid() && inCache == old(inCache) && deleted == old(deleted) && created == old(created)
      ensures r.Some? ==> Same(r.value, key, hash) && r.value in inCache && r.value in inUse
      ensures r.Some? ==> r.value in old(held) && held == old(held)[r.value := old(held)[r.value] + 1]
      ensures r.None? ==> (forall h <- inCache :: !Same(h, key, hash)) && held == old(held) && lru == old(lru) && inUse == old(inUse)
    {
      r := table.Lookup(key, hash);
      if r.Some? {
        CountsAt(refs, held, inCache, r.value);
        Ref(r.value);
      }
    }

    /** Release: a client gives up one of its references. */
    method Release(e: Handle)
      requires Valid() && e in held && held[e] > 0
      modifies this
      ensures Valid() && inCache == old(inCache) && created == old(created)
      ensures if e !in inCache && old(held)[e] == 1 then held == old(held) - {e} && deleted == old(deleted) + [e] else held == old(held)[e := old(held)[e] - 1] && deleted == old(deleted)
      ensures lru == if e in inCache && old(held)[e] == 1 then old(lru) + [e] else old(lru)
    {
      Unref(e);
    }

    /** Erase: what clients still hold stays alive until they release it. */
    method Erase(key: string, hash: nat)
      requires Valid()
      modifies this, table
      ensures Valid() && created == old(created)
      ensures forall h :: h in inCache <==> h in old(inCache) && !Same(h, key, hash)
      ensures forall h <- old(held) :: if Same(h, key, hash) && h in old(inCache) && old(held)[h] == 0 then h in deleted else h in held && held[h] == old(held)[h]
    {
      assert DistinctKeys(table.entries);
      var r := table.Remove(key, hash);
      if r.Some? {
        FinishErase(r.value);
      }
    }

    /** One turn of the eviction loops: the entry unused for longest goes, and is deleted. */
    method EvictOldest()
      requires Valid() && lru != []
      modifies this, table
      ensures Valid() && created == old(created) && nextId == old(nextId)
      ensures lru == old(lru)[1..] && inUse == old(inUse) && deleted == old(deleted) + [old(lru)[0]]
      ensures held == old(held) - {old(lru)[0]} && inCache == old(inCache) - {old(lru)[0]}
      ensures usage + old(lru)[0].charge == old(usage)
    {
      FirstNode(next, prev, LRU, lru, IN_USE, inUse, 0);
      var e := next[LRU];
      SortingAt(held, inCache, lru, inUse, e);
      assert DistinctKeys(table.entries);
      var r := table.Remove(e.key, e.hash);
      FinishErase(e);
    }

    /** The new entry, referenced by the caller and, unless caching is turned off, by the cache;
        an entry with the same key leaves the cache. */
    method Create(e: Handle)
      requires Valid() && e.id == nextId
      modifies this, table
      ensures Valid() && e !in old(created) && created == old(created) + {e}
      ensures e in held && held[e] == 1 && (e in inCache <==> capacity > 0)
      ensures capacity > 0 ==> forall h <- inCache :: Same(h, e.key, e.hash) ==> h == e
      ensures forall h <- old(inCache) :: h in inCache || (capacity > 0 && Same(h, e.key, e.hash))
      ensures forall h <- inCache :: h == e || h in old(inCache)
      ensures forall h <- held :: h == e || (h in old(held) && held[h] == old(held)[h])
      ensures lru == if capacity > 0 then Others(old(lru), e.key, e.hash) else old(lru)
    {
      AccountCreated(created, refs, deleted, nextId, e, if capacity > 0 then 2 else 1);
      CountsAt(refs, held, inCache, e);
      CountsNew(refs, held, inCache, e, capacity > 0);
      SortingNew(held, inCache, lru, inUse, e, capacity > 0);
      nextId := nextId + 1;
      created := created + {e};
      held := held[e := 1];
      if capacity > 0 {
        refs := refs[e := 2];
        inCache := inCache + {e};
        LRU_Append(IN_USE, e);
        ChargesAppend(old(inUse), e);
        usage := usage + e.charge;
        Tabulate(e);
      } else {
        refs := refs[e := 1];
      }
    }

    /** An entry that is on the lists enters the hash table. */
    method Tabulate(e: Handle)
      requires Core() && e in inCache && e in held && held[e] == 1
      requires table.Valid() && table.entries == inCache - {e}
      modifies this`next, this`prev, this`refs, this`lru, this`inUse, this`held, this`deleted, this`inCache, this`usage, table
      ensures Valid() && e in inCache && e in held
      ensures forall h <- inCache :: Same(h, e.key, e.hash) ==> h == e
      ensures forall h <- old(inCache) :: h in inCache || Same(h, e.key, e.hash)
      ensures forall h <- inCache :: h in old(inCache)
      ensures forall h <- held :: h in old(held) && held[h] == old(held)[h]
      ensures lru == Others(old(lru), e.key, e.hash)
    {
      SortingAll(held, inCache, lru, inUse);
      Swapped(next, prev, LRU, lru, IN_USE, inUse);
      assert DistinctKeys(table.entries);
      ghost var was := lru;
      var o := table.Insert(e);
      assert DistinctKeys(table.entries);
      OthersLeft(was, e.key, e.hash, o);
      if o.Some? {
        FinishErase(o.value);
      }
    }

    /** The eviction loop of Insert. */
    method EvictUntilFit() returns (ghost evicted: seq<Handle>)
      requires Valid()
      modifies this, table
      ensures Valid() && created == old(created) && inUse == old(inUse)
      ensures Evicted(evicted, old(inCache), old(held), old(lru), old(deleted), inCache, held, lru, deleted)
      ensures usage <= capacity || lru == []
      ensures evicted != [] ==> usage + evicted[|evicted| - 1].charge > capacity
    {
      evicted := [];
      NoneEvicted(inCache, held, lru, deleted);
      FirstNode(next, prev, LRU, lru, IN_USE, inUse, 0);
      while usage > capacity && next[LRU] != LRU
        invariant Valid() && created == old(created) && inUse == old(inUse)
        invariant Evicted(evicted, old(inCache), old(held), old(lru), old(deleted), inCache, held, lru, deleted)
        invariant evicted != [] ==> usage + evicted[|evicted| - 1].charge > capacity
        invariant LRU in next && (next[LRU] == LRU <==> lru == [])
        decreases |lru|
      {
        ghost var h, was := lru[0], (inCache, held, lru, deleted);
        EvictOldest();
        OneMoreEvicted(evicted, old(inCache), old(held), old(lru), old(deleted), was.0, was.1, was.2, was.3);
        evicted := evicted + [h];
        FirstNode(next, prev, LRU, lru, IN_USE, inUse, 0);
      }
    }

    /** Insert: the newest state of the key, room made by evicting from the front of the list of
        unused entries, which the replaced entry of the key has left. */
    method Insert(key: string, hash: nat, charge: nat) returns (e: Handle, ghost evicted: seq<Handle>)
      requires Valid()
      modifies this, table
      ensures Valid() && e !in old(created) && created == old(created) + {e} && e == Handle(old(nextId), key, hash, charge)
      ensures e in held && held[e] == 1 && (e in inCache <==> capacity > 0)
      ensures usage <= capacity || lru == []
      ensures capacity > 0 ==> forall h <- inCache :: Same(h, key, hash) ==> h == e
      ensures forall h <- old(inCache) :: h in inCache || h in evicted || (capacity > 0 && Same(h, key, hash))
      ensures forall h <- evicted :: h in old(inCache) && h in deleted
      ensures evicted + lru == if capacity > 0 then Others(old(lru), key, hash) else old(lru)
      ensures evicted != [] ==> usage + evicted[|evicted| - 1].charge > capacity
    {
      e := Handle(nextId, key, hash, charge);
      Create(e);
      SortingAll(held, inCache, lru, inUse);
      ghost var was := (inCache, held, lru, deleted);
      evicted := EvictUntilFit();
      EvictedMembers(evicted, was.0, was.1, was.2, was.3, inCache, held, lru, deleted);
    }

    /** Prune: every entry that no client uses goes. */
    method Prune()
      requires Valid()
      modifies this, table
      ensures Valid() && lru == [] && inUse == old(inUse) && created == old(created)
      ensures deleted == old(deleted) + old(lru)
    {
      ghost var evicted := [];
      FirstNode(next, prev, LRU, lru, IN_USE, inUse, 0);
      while next[LRU] != LRU
        invariant Valid() && inUse == old(inUse) && created == old(created)
        invariant evicted + lru == old(lru) && deleted == old(deleted) + evicted
        invariant LRU in next && (next[LRU] == LRU <==> lru == [])
        decreases |lru|
      {
        evicted := evicted + [lru[0]];
        EvictOldest();
        FirstNode(next, prev, LRU, lru, IN_USE, inUse, 0);
      }
    }

    /** The destructor, when no client holds a handle any more: by then the deleter of every
        entry that was ever created has run exactly once. */
    method Destroy()
      requires Valid() && forall h <- held :: held[h] == 0
      modifies this`inCache, this`refs, this`deleted
      ensures Unrepeated(deleted) && forall h :: h in created <==> h in deleted
    {
      NobodyHolds(refs, held, inCache, lru, inUse);
      Swapped(next, prev, LRU, lru, IN_USE, inUse);
      assert lru[0..] == lru;
      FirstNode(next, prev, LRU, lru, IN_USE, inUse, 0);
      var e := next[LRU];
      ghost var i := 0;
      while e != LRU
        invariant LRU !in lru && Unrepeated(lru)
        invariant i <= |lru| && e == (if i == |lru| then LRU else lru[i])
        invariant refs.Keys == MembersOf(lru[i..]) && Accounted(created, refs.Keys, deleted, nextId)
        decreases |lru| - i
      {
        FirstNode(next, prev, LRU, lru, IN_USE, inUse, i);
        FirstNode(next, prev, LRU, lru, IN_USE, inUse, i + 1);
        var after := next[e];
        inCache := inCache - {e};
        AccountDeleted(created, refs, deleted, nextId, e);
        RestOfList(lru, i);
        refs := refs - {e};
        deleted := deleted + [e];
        e := after;
        i := i + 1;
      }
      assert refs.Keys == {};
      AllDeletedOnce(created, deleted, nextId);
    }
  }

  lemma SortingAll(held: map<Handle, nat>, inCache: set<Handle>, lru: seq<Handle>, inUse: seq<Handle>)
    requires Sorting(held, inCache, lru, inUse)
    ensures forall h <- lru :: h in inCache && h in held && held[h] == 0
  {
    assert SortingOf(inCache, held, inCache, lru, inUse);
  }

  ghost function MembersOf(s: seq<Handle>): set<Handle> {
    set h <- s
  }

  ghost predicate EvictedOf(n: nat, evicted: seq<Handle>, inCache: set<Handle>, held: map<Handle, nat>, lru: seq<Handle>, deleted: seq<Handle>,
                            inCache2: set<Handle>, held2: map<Handle, nat>, lru2: seq<Handle>, deleted2: seq<Handle>) {
    && n == |evicted| && evicted + lru2 == lru && deleted2 == deleted + evicted
    && inCache2 == inCache - MembersOf(evicted) && held2 == held - MembersOf(evicted)
  }

  /** The entries `evicted` went from the front of the LRU list, and nothing else changed. */
  ghost predicate Evicted(evicted: seq<Handle>, inCache: set<Handle>, held: map<Handle, nat>, lru: seq<Handle>, deleted: seq<Handle>,
                          inCache2: set<Handle>, held2: map<Handle, nat>, lru2: seq<Handle>, deleted2: seq<Handle>) {
    forall n: nat :: n == |evicted| ==> EvictedOf(n, evicted, inCache, held, lru, deleted, inCache2, held2, lru2, deleted2)
  }

  lemma NoneEvicted(inCache: set<Handle>, held: map<Handle, nat>, lru: seq<Handle>, deleted: seq<Handle>)
    ensures Evicted([], inCache, held, lru, deleted, inCache, held, lru, deleted)
  {
    assert inCache - MembersOf([]) == inCache && held - MembersOf([]) == held;
  }

  lemma OneMoreEvicted(evicted: seq<Handle>, inCache: set<Handle>, held: map<Handle, nat>, lru: seq<Handle>, deleted: seq<Handle>,
                       inCache2: set<Handle>, held2: map<Handle, nat>, lru2: seq<Handle>, deleted2: seq<Handle>)
    requires Evicted(evicted, inCache, held, lru, deleted, inCache2, held2, lru2, deleted2) && lru2 != []
    ensures var h := lru2[0];
      Evicted(evicted + [h], inCache, held, lru, deleted, inCache2 - {h}, held2 - {h}, lru2[1..], deleted2 + [h])
  {
    var h := lru2[0];
    assert EvictedOf(|evicted|, evicted, inCache, held, lru, deleted, inCache2, held2, lru2, deleted2);
    assert MembersOf(evicted + [h]) == MembersOf(evicted) + {h};
    assert inCache - MembersOf(evicted + [h]) == inCache2 - {h};
    assert held - MembersOf(evicted + [h]) == held2 - {h};
    assert lru2 == [h] + lru2[1..];
  }

  lemma EvictedMembers(evicted: seq<Handle>, inCache: set<Handle>, held: map<Handle, nat>, lru: seq<Handle>, deleted: seq<Handle>,
                       inCache2: set<Handle>, held2: map<Handle, nat>, lru2: seq<Handle>, deleted2: seq<Handle>)
    requires Evicted(evicted, inCache, held, lru, deleted, inCache2, held2, lru2, deleted2)
    ensures forall h :: h in inCache2 <==> h in inCache && h !in evicted
    ensures forall h :: h in held2 <==> h in held && h !in evicted
    ensures forall h <- held2 :: held2[h] == held[h]
    ensures forall h <- evicted :: h in lru && h in deleted2
    ensures evicted + lru2 == lru
  {
    assert EvictedOf(|evicted|, evicted, inCache, held, lru, deleted, inCache2, held2, lru2, deleted2);
  }

  lemma RestOfList(s: seq<Handle>, i: nat)
    requires i < |s| && Unrepeated(s)
    ensures MembersOf(s[i..]) - {s[i]} == MembersOf(s[i + 1..])
  {
    assert s[i..] == [s[i]] + s[i + 1..];
  }

  lemma HasFirst(s: seq<Handle>)
    ensures s == [] || s[0] in s
  {}

  lemma NobodyHolds(refs: map<Handle, nat>, held: map<Handle, nat>, inCache: set<Handle>, lru: seq<Handle>, inUse: seq<Handle>)
    requires Counts(refs, held, inCache) && Sorting(held, inCache, lru, inUse) && forall h <- held :: held[h] == 0
    ensures inUse == [] && refs.Keys == MembersOf(lru)
  {
    assert CountsOf(refs.Keys, refs, held, inCache);
    assert SortingOf(inCache, held, inCache, lru, inUse);
    HasFirst(inUse);
  }

  lemma SameKeys(m: map<Handle, nat>, e: Handle, v: nat)
    requires e in m
    ensures m[e := v].Keys == m.Keys
  {}

  lemma AccountDeleted(created: set<Handle>, refs: map<Handle, nat>, deleted: seq<Handle>, nextId: nat, e: Handle)
    requires Accounted(created, refs.Keys, deleted, nextId) && e in refs
    ensures Accounted(created, (refs - {e}).Keys, deleted + [e], nextId)
  {
    assert AccountOf(nextId, created, refs.Keys, deleted, nextId);
  }

  lemma AccountCreated(created: set<Handle>, refs: map<Handle, nat>, deleted: seq<Handle>, nextId: nat, e: Handle, r: nat)
    requires Accounted(created, refs.Keys, deleted, nextId) && e.id == nextId
    ensures Accounted(created + {e}, refs[e := r].Keys, deleted, nextId + 1)
    ensures e !in refs && e !in created && nextId >= 2
  {
    assert AccountOf(nextId, created, refs.Keys, deleted, nextId);
  }

  /** Once no entry is alive, the deleter has run exactly once for each that was created. */
  lemma AllDeletedOnce(created: set<Handle>, deleted: seq<Handle>, nextId: nat)
    requires Accounted(created, {}, deleted, nextId)
    ensures Unrepeated(deleted) && forall h :: h in created <==> h in deleted
  {
    assert AccountOf(nextId, created, {}, deleted, nextId);
  }

  lemma SortingErased(held: map<Handle, nat>, inCache: set<Handle>, lru: seq<Handle>, inUse: seq<Handle>, e: Handle, lru2: seq<Handle>, inUse2: seq<Handle>, h: nat)
    requires Sorting(held, inCache, lru, inUse) && Unrepeated(lru) && Unrepeated(inUse) && forall x <- lru :: x !in inUse
    requires ((e in lru && lru2 == Dropped(lru, e)) && inUse2 == inUse) || ((e in inUse && inUse2 == Dropped(inUse, e)) && lru2 == lru)
    ensures Sorting(held[e := h], inCache - {e}, lru2, inUse2)
  {
    assert SortingOf(inCache, held, inCache, lru, inUse);
    if (e in lru && lru2 == Dropped(lru, e)) && inUse2 == inUse {
      DroppedMembers(lru, e, lru2);
    } else {
      DroppedMembers(inUse, e, inUse2);
    }
  }

  lemma ErasedCharges(lru: seq<Handle>, inUse: seq<Handle>, e: Handle, lru2: seq<Handle>, inUse2: seq<Handle>)
    requires ((e in lru && lru2 == Dropped(lru, e)) && inUse2 == inUse) || ((e in inUse && inUse2 == Dropped(inUse, e)) && lru2 == lru)
    ensures Usage(lru2, inUse2) + e.charge == Usage(lru, inUse)
  {
    if (e in lru && lru2 == Dropped(lru, e)) && inUse2 == inUse {
      DroppedCharges(lru, e, lru2);
    } else {
      DroppedCharges(inUse, e, inUse2);
    }
  }

  /** The cache's own reference becomes a client's, to be dropped. */
  lemma CountsErased(refs: map<Handle, nat>, held: map<Handle, nat>, inCache: set<Handle>, e: Handle)
    requires Counts(refs, held, inCache) && e in inCache
    ensures e in refs && e in held && Counts(refs, held[e := held[e] + 1], inCache - {e})
  {
    assert CountsOf(refs.Keys, refs, held, inCache);
    assert held[e := held[e] + 1].Keys == held.Keys;
  }

  /** A new entry, referenced by the returned handle and, if cached, by the cache. */
  lemma CountsNew(refs: map<Handle, nat>, held: map<Handle, nat>, inCache: set<Handle>, e: Handle, cached: bool)
    requires Counts(refs, held, inCache) && e !in refs && e.id >= 2
    ensures Counts(refs[e := if cached then 2 else 1], held[e := 1], if cached then inCache + {e} else inCache)
  {
    assert CountsOf(refs.Keys, refs, held, inCache);
    var r, c := refs[e := if cached then 2 else 1], if cached then inCache + {e} else inCache;
    assert r.Keys == refs.Keys + {e} == held[e := 1].Keys;
    assert forall h <- r.Keys :: h != e ==> r[h] == refs[h] && held[e := 1][h] == held[h] && (h in c <==> h in inCache);
  }

  lemma SortingNew(held: map<Handle, nat>, inCache: set<Handle>, lru: seq<Handle>, inUse: seq<Handle>, e: Handle, cached: bool)
    requires Sorting(held, inCache, lru, inUse) && e !in held
    ensures e !in lru && e !in inUse
    ensures Sorting(held[e := 1], if cached then inCache + {e} else inCache, lru, if cached then inUse + [e] else inUse)
  {
    assert SortingOf(inCache, held, inCache, lru, inUse);
  }

  /** `s` without the first occurrence of `e`. */
  function Dropped(s: seq<Handle>, e: Handle): seq<Handle> {
    if s == [] then [] else if s[0] == e then s[1..] else [s[0]] + Dropped(s[1..], e)
  }

  /** `s` without the entries of a key. */
  function Others(s: seq<Handle>, key: string, hash: nat): seq<Handle> {
    if s == [] then [] else (if Same(s[0], key, hash) then [] else [s[0]]) + Others(s[1..], key, hash)
  }

  lemma {:induction false} OthersLeft(s: seq<Handle>, key: string, hash: nat, o: Option<Handle>)
    requires Unrepeated(s) && (o.Some? ==> Same(o.value, key, hash))
    requires forall h <- s :: Same(h, key, hash) ==> o == Some(h)
    ensures Others(s, key, hash) == if o.Some? && o.value in s then Dropped(s, o.value) else s
    decreases |s|
  {
    if s != [] {
      assert s == [s[0]] + s[1..];
      OthersLeft(s[1..], key, hash, o);
      if Same(s[0], key, hash) {
        assert s[0] !in s[1..];
      }
    }
  }

  lemma {:induction false} DroppedAt(s: seq<Handle>, e: Handle) returns (i: nat)
    requires e in s
    ensures i < |s| && s[i] == e && Dropped(s, e) == Without(s, i)
    decreases |s|
  {
    if s[0] == e {
      i := 0;
    } else {
      var j := DroppedAt(s[1..], e);
      i := j + 1;
    }
  }

  lemma DroppedMembers(s: seq<Handle>, e: Handle, t: seq<Handle>)
    requires e in s && t == Dropped(s, e) && Unrepeated(s)
    ensures forall x :: x in t <==> x in s && x != e
  {
    var i := DroppedAt(s, e);
    WithoutMembers(s, i);
  }

  lemma DroppedCharges(s: seq<Handle>, e: Handle, t: seq<Handle>)
    requires e in s && t == Dropped(s, e)
    ensures Charges(t) + e.charge == Charges(s)
  {
    var i := DroppedAt(s, e);
    ChargesWithout(s, i);
  }

  lemma CountsAt(refs: map<Handle, nat>, held: map<Handle, nat>, inCache: set<Handle>, e: Handle)
    requires Counts(refs, held, inCache)
    ensures refs.Keys == held.Keys && inCache <= refs.Keys
    ensures e in refs ==> e.id >= 2 && refs[e] > 0 && refs[e] == held[e] + if e in inCache then 1 else 0
  {
    assert CountsOf(refs.Keys, refs, held, inCache);
  }

  lemma CountsChanged(refs: map<Handle, nat>, held: map<Handle, nat>, inCache: set<Handle>, e: Handle, r: nat, h: nat)
    requires Counts(refs, held, inCache) && e.id >= 2 && r > 0 && r == h + if e in inCache then 1 else 0
    ensures Counts(refs[e := r], held[e := h], inCache)
  {
    assert CountsOf(refs.Keys, refs, held, inCache);
    assert refs[e := r].Keys == refs.Keys + {e} == held[e := h].Keys;
  }

  lemma CountsDropped(refs: map<Handle, nat>, held: map<Handle, nat>, inCache: set<Handle>, e: Handle)
    requires Counts(refs, held, inCache) && e !in inCache
    ensures Counts(refs - {e}, held - {e}, inCache)
  {
    assert CountsOf(refs.Keys, refs, held, inCache);
    assert (refs - {e}).Keys == refs.Keys - {e} == (held - {e}).Keys;
  }
}
