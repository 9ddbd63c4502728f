/** The filter block of a table: one filter for every 2 KB of block offsets. */
module FilterBlocks {
  import opened Keys
  import opened Coding
  import opened Lists
  import BlockBuilding
  import Bloom

  /** Any filter policy: how a filter is made, and whether a key may be in one. */
  type Create = seq<Bytes> -> Bytes
  type Match = (Bytes, Bytes) -> bool

  ghost predicate NoFalseNegatives(create: Create, match_: Match) {
    forall keys: seq<Bytes>, i :: 0 <= i < |keys| ==> match_(keys[i], create(keys))
  }

  function FilterOf(create: Create, keys: seq<Bytes>): Bytes {
    if keys == [] then [] else create(keys)
  }

  function Concat(create: Create, groups: seq<seq<Bytes>>): Bytes {
    if groups == [] then [] else Concat(create, groups[..|groups| - 1]) + FilterOf(create, groups[|groups| - 1])
  }

  ghost function Starts(create: Create, groups: seq<seq<Bytes>>): (r: seq<nat>)
    ensures |r| == |groups|
  {
    if groups == [] then [] else
      var front := groups[..|groups| - 1];
      Starts(create, front) + [|Concat(create, front)|]
  }

  lemma ConcatSnoc(create: Create, groups: seq<seq<Bytes>>, g: seq<Bytes>)
    ensures Concat(create, groups + [g]) == Concat(create, groups) + FilterOf(create, g)
    ensures Starts(create, groups + [g]) == Starts(create, groups) + [|Concat(create, groups)|]
  {
    assert (groups + [g])[..|groups|] == groups;
  }

  /** Filter i stands between its start and the next one's. */
  lemma {:induction false} FilterAt(create: Create, groups: seq<seq<Bytes>>, i: nat)
    requires i < |groups|
    ensures var s, all := Starts(create, groups), Concat(create, groups);
      var limit := if i + 1 < |groups| then s[i + 1] else |all|;
      s[i] <= limit <= |all| && all[s[i]..limit] == FilterOf(create, groups[i])
    decreases |groups|
  {
    var front, last := groups[..|groups| - 1], groups[|groups| - 1];
    var s, all := Starts(create, front), Concat(create, front);
    if i < |front| {
      FilterAt(create, front, i);
      var limit := if i + 1 < |front| then s[i + 1] else |all|;
      assert (all + FilterOf(create, last))[s[i]..limit] == all[s[i]..limit];
    } else {
      assert (all + FilterOf(create, last))[|all|..] == FilterOf(create, last);
    }
  }

  const BASE_LG: Byte := 11
  const BASE: nat := 2048

  /** What Finish appends to the filters. */
  function Finished(filters: Bytes, starts: seq<nat>): Bytes
    requires BlockBuilding.Words(starts) && |filters| < U32
  {
    filters + BlockBuilding.EncodeAll(starts) + EncodeFixed32(|filters|) + [BASE_LG]
  }

  // ---- Reading ----

  function ShiftRight(x: nat, n: nat): nat
    decreases n
  {
    if n == 0 then x else ShiftRight(x / 2, n - 1)
  }

  /** FilterBlockReader: base, offset of the array, number of filters; None for bad contents. */
  function Opened(contents: Bytes): (r: Option<(Byte, nat, nat)>)
    ensures r.Some? ==> r.value.1 + r.value.2 * 4 + 5 <= |contents|
  {
    var n := |contents|;
    if n < 5 then None else
      var lastWord := DecodeFixed32(contents[n - 5..]);
      if lastWord > n - 5 then None else Some((contents[n - 1], lastWord, (n - 5 - lastWord) / 4))
  }

  /** FilterBlockReader::KeyMayMatch; errors count as matches. */
  function KeyMayMatch(match_: Match, contents: Bytes, blockOffset: nat, key: Bytes): bool {
    var o := Opened(contents);
    if o.None? then true else
      var (lg, array_, num) := o.value;
      var index := ShiftRight(blockOffset, lg);
      if index >= num then true else
        var start, limit := DecodeFixed32(contents[array_ + index * 4..]), DecodeFixed32(contents[array_ + index * 4 + 4..]);
        if start <= limit && limit <= array_ then match_(key, contents[start..limit])
        else start != limit
  }

  lemma OpenedFinished(filters: Bytes, starts: seq<nat>)
    requires BlockBuilding.Words(starts) && |filters| < U32
    ensures Opened(Finished(filters, starts)) == Some((BASE_LG, |filters|, |starts|))
  {
    var c := Finished(filters, starts);
    var body := filters + BlockBuilding.EncodeAll(starts);
    TailWord(body, |filters|);
    assert |c| == |body| + 5;
  }

  lemma TailWord(body: Bytes, n: nat)
    requires n < U32
    ensures DecodeFixed32((body + EncodeFixed32(n) + [BASE_LG])[|body|..]) == n
  {
    Join(body, EncodeFixed32(n), [BASE_LG]);
    BlockBuilding.DropFront(body, EncodeFixed32(n) + [BASE_LG], |body|);
    assert (EncodeFixed32(n) + [BASE_LG])[0..] == EncodeFixed32(n) + [BASE_LG];
    Fixed32RoundTrip(n, [BASE_LG]);
  }

  /** The two words that bound filter i. */
  lemma BoundsRead(filters: Bytes, starts: seq<nat>, i: nat)
    requires BlockBuilding.Words(starts) && |filters| < U32 && i < |starts|
    ensures var c := Finished(filters, starts);
      && |c| == |filters| + 4 * |starts| + 5
      && DecodeFixed32(c[|filters| + i * 4..]) == starts[i]
      && DecodeFixed32(c[|filters| + i * 4 + 4..]) == if i + 1 < |starts| then starts[i + 1] else |filters|
  {
    var tail := EncodeFixed32(|filters|) + [BASE_LG];
    var all := BlockBuilding.EncodeAll(starts);
    JoinFour(filters, all, EncodeFixed32(|filters|), [BASE_LG]);
    BlockBuilding.EncodeAllAt(starts, i, tail);
    BlockBuilding.DropFront(filters, all + tail, |filters| + i * 4);
    if i + 1 < |starts| {
      BlockBuilding.EncodeAllAt(starts, i + 1, tail);
      BlockBuilding.DropFront(filters, all + tail, |filters| + (i + 1) * 4);
    } else {
      TailWord(filters + all, |filters|);
    }
  }

  lemma ShiftByFour(x: nat, n: nat)
    ensures ShiftRight(x, n + 4) == ShiftRight(x / 16, n)
  {
    assert x / 2 / 2 / 2 / 2 == x / 16;
    assert ShiftRight(x, n + 4) == ShiftRight(x / 2, n + 3) == ShiftRight(x / 2 / 2, n + 2) == ShiftRight(x / 2 / 2 / 2, n + 1) == ShiftRight(x / 2 / 2 / 2 / 2, n);
  }

  /** Filters are for 2 KB each. */
  lemma ShiftIsBase(x: nat)
    ensures ShiftRight(x, 11) == x / 2048
  {
    ShiftByFour(x, 7);
    ShiftByFour(x / 16, 3);
    assert x / 16 / 16 == x / 256;
    assert x / 256 / 2 / 2 / 2 == x / 2048;
    assert ShiftRight(x / 256, 3) == ShiftRight(x / 256 / 2, 2) == ShiftRight(x / 256 / 2 / 2, 1) == ShiftRight(x / 256 / 2 / 2 / 2, 0);
  }

  /** What a read of the finished block asks the policy. */
  lemma ReadsFilter(match_: Match, filters: Bytes, starts: seq<nat>, blockOffset: nat, key: Bytes)
    requires BlockBuilding.Words(starts) && |filters| < U32
    ensures var c, i := Finished(filters, starts), blockOffset / BASE;
      if i >= |starts| then KeyMayMatch(match_, c, blockOffset, key) == true else
        var a, b := starts[i], if i + 1 < |starts| then starts[i + 1] else |filters|;
        a <= b <= |filters| ==> KeyMayMatch(match_, c, blockOffset, key) == match_(key, filters[a..b])
  {
    OpenedFinished(filters, starts);
    ShiftIsBase(blockOffset);
    var i := blockOffset / BASE;
    if i < |starts| {
      BoundsRead(filters, starts, i);
      var a, b := starts[i], if i + 1 < |starts| then starts[i + 1] else |filters|;
      if a <= b <= |filters| {
        SameFilter(filters, starts, a, b);
      }
    }
  }

  /** Reading the finished block asks the policy about the filter of the offset's group. */
  lemma FilterAnswers(create: Create, match_: Match, groups: seq<seq<Bytes>>, blockOffset: nat, key: Bytes)
    requires |Concat(create, groups)| < U32 && BlockBuilding.Words(Starts(create, groups))
    ensures var i := blockOffset / 2048;
      KeyMayMatch(match_, Finished(Concat(create, groups), Starts(create, groups)), blockOffset, key) == if i < |groups| then match_(key, FilterOf(create, groups[i])) else true
  {
    var i := blockOffset / 2048;
    ReadsFilter(match_, Concat(create, groups), Starts(create, groups), blockOffset, key);
    if i < |groups| {
      FilterAt(create, groups, i);
    }
  }

  /** A key of the group of a block offset is found in the block that Finish wrote. */
  lemma FilteredKeyMatches(create: Create, match_: Match, groups: seq<seq<Bytes>>, blockOffset: nat, key: Bytes)
    requires NoFalseNegatives(create, match_) && |Concat(create, groups)| < U32
    requires BlockBuilding.Words(Starts(create, groups))
    requires var i := blockOffset / 2048; i < |groups| ==> key in groups[i]
    ensures KeyMayMatch(match_, Finished(Concat(create, groups), Starts(create, groups)), blockOffset, key)
  {
    var i := blockOffset / 2048;
    FilterAnswers(create, match_, groups, blockOffset, key);
    if i < |groups| {
      var k :| 0 <= k < |groups[i]| && groups[i][k] == key;
    }
  }

  /** Contents that cannot be a filter block, or a filter, deny no key; an empty range denies all. */
  lemma ErrorsMatch(match_: Match, contents: Bytes, blockOffset: nat, key: Bytes)
    ensures |contents| < 5 ==> KeyMayMatch(match_, contents, blockOffset, key)
    ensures |contents| >= 5 && DecodeFixed32(contents[|contents| - 5..]) > |contents| - 5 ==> KeyMayMatch(match_, contents, blockOffset, key)
    ensures |contents| >= 5 && DecodeFixed32(contents[|contents| - 5..]) <= |contents| - 5 ==>
      var a := DecodeFixed32(contents[|contents| - 5..]);
      var i := ShiftRight(blockOffset, contents[|contents| - 1]);
      if i >= (|contents| - 5 - a) / 4 then KeyMayMatch(match_, contents, blockOffset, key)
      else
        assert i * 4 + 4 <= |contents| - 5 - a;
        var start, limit := DecodeFixed32(contents[a + i * 4..]), DecodeFixed32(contents[a + i * 4 + 4..]);
        && (start <= limit <= a ==> KeyMayMatch(match_, contents, blockOffset, key) == match_(key, contents[start..limit]))
        && (start > a && start == limit ==> !KeyMayMatch(match_, contents, blockOffset, key))
        && (start > limit || (limit > a && start != limit) ==> KeyMayMatch(match_, contents, blockOffset, key))
  {}

  lemma SameFilter(filters: Bytes, starts: seq<nat>, a: nat, b: nat)
    requires BlockBuilding.Words(starts) && |filters| < U32 && a <= b <= |filters|
    ensures |Finished(filters, starts)| >= |filters| && Finished(filters, starts)[a..b] == filters[a..b]
  {}

  // ---- Building ----

  /** Where each key begins in the flattened buffer. */
  function KeyStarts(keys: seq<Bytes>): (r: seq<nat>)
    ensures |r| == |keys|
  {
    if keys == [] then [] else KeyStarts(keys[..|keys| - 1]) + [|Flat(keys[..|keys| - 1])|]
  }

  lemma {:induction false} KeyAt(keys: seq<Bytes>, i: nat)
    requires i < |keys|
    ensures var s := KeyStarts(keys) + [|Flat(keys)|]; s[i] <= s[i + 1] <= |Flat(keys)| && Flat(keys)[s[i]..s[i + 1]] == keys[i]
    decreases |keys|
  {
    var front, last := keys[..|keys| - 1], keys[|keys| - 1];
    if i < |front| {
      KeyAt(front, i);
      var s := KeyStarts(front) + [|Flat(front)|];
      assert (Flat(front) + last)[s[i]..s[i + 1]] == Flat(front)[s[i]..s[i + 1]];
    }
  }

  /** The keys added under block offsets of the i-th 2 KB. */
  function KeysIn(added: seq<(nat, Bytes)>, i: nat): seq<Bytes> {
    if added == [] then [] else
      var last := added[|added| - 1];
      KeysIn(added[..|added| - 1], i) + if last.0 / 2048 == i then [last.1] else []
  }

  lemma KeysInMore(added: seq<(nat, Bytes)>, a: (nat, Bytes), i: nat)
    ensures KeysIn(added + [a], i) == KeysIn(added, i) + if a.0 / 2048 == i then [a.1] else []
  {
    assert (added + [a])[..|added|] == added;
  }

  lemma {:induction false} AddedIsIn(added: seq<(nat, Bytes)>, a: (nat, Bytes))
    requires a in added
    ensures a.1 in KeysIn(added, a.0 / 2048)
    decreases |added|
  {
    if a != added[|added| - 1] {
      AddedIsIn(added[..|added| - 1], a);
    }
  }

  lemma {:induction false} NoneBeyond(added: seq<(nat, Bytes)>, i: nat)
    requires forall a <- added :: a.0 / 2048 < i
    ensures KeysIn(added, i) == []
    decreases |added|
  {
    if added != [] {
      NoneBeyond(added[..|added| - 1], i);
    }
  }

  /** The groups are the added keys by 2 KB of block offsets, the pending ones those of the last. */
  ghost predicate Grouped(groups: seq<seq<Bytes>>, pending: seq<Bytes>, added: seq<(nat, Bytes)>) {
    && (forall i :: 0 <= i < |groups| ==> groups[i] == KeysIn(added, i))
    && pending == KeysIn(added, |groups|) && forall a <- added :: a.0 / 2048 <= |groups|
  }

  class FilterBlockBuilder {
    const create: Create
    var keys: Bytes
    var start: seq<nat>
    var result: Bytes
    var filterOffsets: seq<nat>
    /** The keys of each filter so far, those for the next one, and (block offset, key) of all. */
    ghost var groups: seq<seq<Bytes>>
    ghost var pending: seq<Bytes>
    ghost var added: seq<(nat, Bytes)>
    ghost var current: nat

    ghost predicate Valid()
      reads this
    {
      && result == Concat(create, groups) && filterOffsets == Starts(create, groups)
      && keys == Flat(pending) && start == KeyStarts(pending)
      && Grouped(groups, pending, added)
      && current / BASE == |groups|
    }

    constructor (c: Create)
      ensures Valid() && added == [] && current == 0 && create == c
    {
      create, keys, start, result, filterOffsets := c, [], [], [], [];
      groups, pending, added, current := [], [], [], 0;
    }

    /** Block offsets never decrease, so the filter of this one is not written yet. */
    method StartBlock(blockOffset: nat)
      requires Valid() && current <= blockOffset
      modifies this
      ensures Valid() && current == blockOffset && added == old(added)
    {
      var filterIndex := blockOffset / BASE;
      while filterIndex > |filterOffsets|
        invariant added == old(added) && |filterOffsets| <= filterIndex
        invariant result == Concat(create, groups) && filterOffsets == Starts(create, groups)
        invariant keys == Flat(pending) && start == KeyStarts(pending)
        invariant Grouped(groups, pending, added)
        decreases filterIndex - |filterOffsets|
      {
        GenerateFilter();
      }
      current := blockOffset;
    }

    method AddKey(key: Bytes)
      requires Valid()
      modifies this
      ensures Valid() && added == old(added) + [(current, key)] && current == old(current)
    {
      start := start + [|keys|];
      keys := keys + key;
      assert (pending + [key])[..|pending|] == pending;
      pending := pending + [key];
      GroupedMore(groups, old(pending), added, (current, key));
      added := added + [(current, key)];
    }

    method GenerateFilter()
      requires result == Concat(create, groups) && filterOffsets == Starts(create, groups)
      requires keys == Flat(pending) && start == KeyStarts(pending)
      requires Grouped(groups, pending, added)
      modifies this`keys, this`start, this`result, this`filterOffsets, this`groups, this`pending
      ensures groups == old(groups) + [old(pending)] && pending == []
      ensures result == Concat(create, groups) && filterOffsets == Starts(create, groups)
      ensures keys == Flat(pending) && start == KeyStarts(pending)
      ensures Grouped(groups, pending, added)
    {
      ConcatSnoc(create, groups, pending);
      GroupedLater(groups, pending, added);
      var numKeys := |start|;
      if numKeys == 0 {
        filterOffsets := filterOffsets + [|result|];
        assert result + [] == result;
      } else {
        var tmpKeys := SplitKeys();
        filterOffsets := filterOffsets + [|result|];
        result := result + create(tmpKeys);
        keys, start := [], [];
      }
      groups, pending := groups + [pending], [];
    }

    /** The keys, cut out of the flattened buffer. */
    method SplitKeys() returns (tmpKeys: seq<Bytes>)
      requires keys == Flat(pending) && start == KeyStarts(pending)
      ensures tmpKeys == pending
    {
      var bounds := start + [|keys|];
      tmpKeys := [];
      var i := 0;
      while i < |start|
        invariant i <= |start| && tmpKeys == pending[..i]
      {
        KeyAt(pending, i);
        tmpKeys := tmpKeys + [keys[bounds[i]..bounds[i + 1]]];
        i := i + 1;
      }
    }

    /** The finished block answers for every key and block offset as the policy does on the filter
        of the keys added in the same 2 KB, so it reports no added key missing. */
    method Finish(ghost match_: Match) returns (block: Bytes)
      requires Valid() && NoFalseNegatives(create, match_)
      requires |Concat(create, groups + [pending])| < U32
      modifies this
      ensures forall a <- old(added) :: KeyMayMatch(match_, block, a.0, a.1)
      ensures AnswersAll(match_, block, create, |groups|, old(added))
    {
      ConcatSnoc(create, groups, pending);
      if start != [] {
        GenerateFilter();
      }
      StartsFit(create, groups);
      AllMatch(create, match_, groups, added);
      AllAnswered(create, match_, groups, added);
      var arrayOffset := |result|;
      result := result + BlockBuilding.EncodeAll(filterOffsets);
      result := result + EncodeFixed32(arrayOffset);
      result := result + [BASE_LG];
      block := result;
    }
  }

  lemma GroupedMore(groups: seq<seq<Bytes>>, pending: seq<Bytes>, added: seq<(nat, Bytes)>, a: (nat, Bytes))
    requires Grouped(groups, pending, added) && a.0 / 2048 == |groups|
    ensures Grouped(groups, pending + [a.1], added + [a])
  {
    forall i | 0 <= i <= |groups|
      ensures KeysIn(added + [a], i) == if i < |groups| then groups[i] else pending + [a.1]
    {
      KeysInMore(added, a, i);
    }
  }

  lemma GroupedLater(groups: seq<seq<Bytes>>, pending: seq<Bytes>, added: seq<(nat, Bytes)>)
    requires Grouped(groups, pending, added)
    ensures Grouped(groups + [pending], [], added)
  {
    NoneBeyond(added, |groups| + 1);
  }

  /** What the block of n filters says of a key at a block offset. */
  ghost predicate AnswersFor(match_: Match, block: Bytes, offset: nat, key: Bytes, create: Create, n: nat, added: seq<(nat, Bytes)>) {
    KeyMayMatch(match_, block, offset, key) == if offset / 2048 < n then match_(key, FilterOf(create, KeysIn(added, offset / 2048))) else true
  }

  ghost predicate AnswersBlock(size: nat, match_: Match, block: Bytes, create: Create, n: nat, added: seq<(nat, Bytes)>) {
    size == |block| && forall offset, key :: AnswersFor(match_, block, offset, key, create, n, added)
  }

  ghost predicate AnswersAll(match_: Match, block: Bytes, create: Create, n: nat, added: seq<(nat, Bytes)>) {
    forall size: nat :: size == |block| ==> AnswersBlock(size, match_, block, create, n, added)
  }

  lemma AllAnswered(create: Create, match_: Match, groups: seq<seq<Bytes>>, added: seq<(nat, Bytes)>)
    requires |Concat(create, groups)| < U32 && BlockBuilding.Words(Starts(create, groups)) && Grouped(groups, [], added)
    ensures AnswersAll(match_, Finished(Concat(create, groups), Starts(create, groups)), create, |groups|, added)
  {
    forall offset: nat, key
      ensures AnswersFor(match_, Finished(Concat(create, groups), Starts(create, groups)), offset, key, create, |groups|, added)
    {
      FilterAnswers(create, match_, groups, offset, key);
    }
  }

  lemma {:induction false} StartsFit(create: Create, groups: seq<seq<Bytes>>)
    requires |Concat(create, groups)| < U32
    ensures BlockBuilding.Words(Starts(create, groups))
    decreases |groups|
  {
    if groups != [] {
      StartsFit(create, groups[..|groups| - 1]);
    }
  }

  lemma AllMatch(create: Create, match_: Match, groups: seq<seq<Bytes>>, added: seq<(nat, Bytes)>)
    requires NoFalseNegatives(create, match_) && |Concat(create, groups)| < U32 && BlockBuilding.Words(Starts(create, groups))
    requires Grouped(groups, [], added)
    ensures forall a <- added :: KeyMayMatch(match_, Finished(Concat(create, groups), Starts(create, groups)), a.0, a.1)
  {
    forall a | a in added
      ensures KeyMayMatch(match_, Finished(Concat(create, groups), Starts(create, groups)), a.0, a.1)
    {
      AddedIsIn(added, a);
      FilteredKeyMatches(create, match_, groups, a.0, a.1);
    }
  }

  /** The Bloom policy is such a policy, for any number of bits per key. */
  lemma BloomPolicy(hash: Bloom.HashFunction, bitsPerKey: nat, k: nat)
    requires 1 <= k <= 30
    ensures NoFalseNegatives((keys: seq<Bytes>) => Bloom.Filter(hash, bitsPerKey, k, keys), (key: Bytes, filter: Bytes) => Bloom.MayMatch(hash, key, filter))
  {
    forall keys: seq<Bytes>, i | 0 <= i < |keys|
      ensures Bloom.MayMatch(hash, keys[i], Bloom.Filter(hash, bitsPerKey, k, keys))
    {
      Bloom.NoFalseNegatives(hash, bitsPerKey, k, keys, i);
    }
  }
}
