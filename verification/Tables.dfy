/** Tables: sorted blocks, an index of shortened keys, and the lookup that reads one block. */
module Tables {
  import opened Keys
  import opened Coding
  import S = Separators
  import FilterBlocks
  import opened Lists
  import TwoLevel

  type IKey = S.InternalKey

  datatype Row = Row(key: IKey, value: Bytes)

  type Block = seq<Row>

  ghost predicate Ascends(rows: seq<Row>) {
    forall i, j :: 0 <= i < j < |rows| ==> S.Less(rows[i].key, rows[j].key)
  }

  /** Every row of block i comes before every row of block j. */
  ghost predicate Apart(a: Block, b: Block) {
    forall x, y :: x in a && y in b ==> S.Less(x.key, y.key)
  }

  ghost predicate BlocksOk(blocks: seq<Block>) {
    && (forall i :: 0 <= i < |blocks| ==> blocks[i] != [] && Ascends(blocks[i]))
    && (forall i, j :: 0 <= i < j < |blocks| ==> Apart(blocks[i], blocks[j]))
  }

  function LastKey(b: Block): IKey
    requires b != []
  {
    b[|b| - 1].key
  }

  /** An index key is at or after its block, and before the next block; if it is not the last
      key of its block, its user key is strictly between. */
  ghost predicate Separates(k: IKey, b: Block, next: Option<IKey>)
    requires b != []
  {
    && S.NotAfter(LastKey(b), k)
    && (next.Some? ==> S.Less(k, next.value) && (k == LastKey(b) || S.Below(k.user, next.value.user)))
  }

  ghost predicate IndexOk(blocks: seq<Block>, index: seq<IKey>)
    requires BlocksOk(blocks) && |index| <= |blocks|
  {
    forall i :: 0 <= i < |index| ==> Separates(index[i], blocks[i], if i + 1 < |blocks| then Some(blocks[i + 1][0].key) else None)
  }

  /** A finished table: block i is at offsets[i]. */
  datatype Table = Table(blocks: seq<Block>, index: seq<IKey>, offsets: seq<nat>)

  ghost predicate TableOk(t: Table) {
    BlocksOk(t.blocks) && |t.index| == |t.blocks| == |t.offsets| && IndexOk(t.blocks, t.index)
  }

  // ---- Building ----

  /** What the filter block was told: each user key, under the offset of its block. */
  function Told(offset: nat, b: Block): seq<(nat, Bytes)> {
    seq(|b|, i requires 0 <= i < |b| => (offset, b[i].key.user))
  }

  function AllTold(blocks: seq<Block>, offsets: seq<nat>): seq<(nat, Bytes)>
    requires |blocks| == |offsets|
  {
    if blocks == [] then [] else
      AllTold(blocks[..|blocks| - 1], offsets[..|blocks| - 1]) + Told(offsets[|blocks| - 1], blocks[|blocks| - 1])
  }

  lemma ToldSnoc(blocks: seq<Block>, offsets: seq<nat>, b: Block, offset: nat)
    requires |blocks| == |offsets|
    ensures AllTold(blocks + [b], offsets + [offset]) == AllTold(blocks, offsets) + Told(offset, b)
  {
    assert (blocks + [b])[..|blocks|] == blocks && (offsets + [offset])[..|blocks|] == offsets;
  }

  /** The index keys so far, where the open block follows the last block. */
  ghost predicate IndexBefore(blocks: seq<Block>, index: seq<IKey>, open: Block)
    requires BlocksOk(blocks) && |index| <= |blocks|
  {
    forall i :: 0 <= i < |index| ==> Separates(index[i], blocks[i], NextKey(blocks, i, open))
  }

  ghost function NextKey(blocks: seq<Block>, i: nat, open: Block): Option<IKey>
    requires i < |blocks| && BlocksOk(blocks)
  {
    if i + 1 < |blocks| then Some(blocks[i + 1][0].key) else if open != [] then Some(open[0].key) else None
  }

  ghost predicate UpTo(rows: seq<Row>, last: IKey) {
    forall x <- rows :: S.NotAfter(x.key, last)
  }

  /** Nothing has a key after the last one. */
  ghost predicate Covered(blocks: seq<Block>, open: Block, last: IKey) {
    UpTo(open, last) && forall i :: 0 <= i < |blocks| ==> UpTo(blocks[i], last)
  }

  ghost predicate ShapeOf(n: nat, blocks: seq<Block>, index: seq<IKey>, open: Block, last: Option<IKey>, pending: bool) {
    && n == |blocks| && BlocksOk(blocks) && Ascends(open) && (forall i :: 0 <= i < n ==> Apart(blocks[i], open))
    && |index| == (if pending then n - 1 else n) && (pending ==> open == []) && (!pending && n > 0 ==> open != [])
    && IndexBefore(blocks, index, open)
    && (last.None? ==> n == 0 && open == [])
    && (last.Some? ==> Covered(blocks, open, last.value) && (n > 0 || open != []))
    && (last.Some? ==> last.value == if open != [] then LastKey(open) else LastKey(blocks[n - 1]))
  }

  /** The state of a table under construction. */
  ghost predicate Shape(blocks: seq<Block>, index: seq<IKey>, open: Block, last: Option<IKey>, pending: bool) {
    forall n: nat :: n == |blocks| ==> ShapeOf(n, blocks, index, open, last, pending)
  }

  lemma BeforeNew(rows: seq<Row>, last: IKey, key: IKey)
    requires UpTo(rows, last) && S.Less(last, key)
    ensures forall x <- rows :: S.Less(x.key, key)
  {
    forall x | x in rows
      ensures S.Less(x.key, key)
    {
      if x.key != last {
        S.LessTransitive(x.key, last, key);
      }
    }
  }

  /** A row after all others goes into the open block, behind the pending index entry. */
  lemma ShapeAdd(blocks: seq<Block>, index: seq<IKey>, open: Block, last: Option<IKey>, pending: bool, row: Row, index2: seq<IKey>)
    requires Shape(blocks, index, open, last, pending) && (last.Some? ==> S.Less(last.value, row.key))
    requires pending ==> last.Some? && |index2| == |index| + 1 && index2[..|index|] == index
    requires pending ==> var k := index2[|index|]; S.NotAfter(last.value, k) && S.Less(k, row.key) && (k == last.value || S.Below(k.user, row.key.user))
    requires !pending ==> index2 == index
    ensures Shape(blocks, index2, open + [row], Some(row.key), false)
  {
    assert ShapeOf(|blocks|, blocks, index, open, last, pending);
    if last.Some? {
      BeforeNew(open, last.value, row.key);
      forall i | 0 <= i < |blocks|
        ensures UpTo(blocks[i], row.key) && Apart(blocks[i], open + [row])
      {
        BeforeNew(blocks[i], last.value, row.key);
      }
    }
    forall i | 0 <= i < |index2|
      ensures Separates(index2[i], blocks[i], NextKey(blocks, i, open + [row]))
    {
      if i < |index| {
        assert Separates(index[i], blocks[i], NextKey(blocks, i, open));
        assert index2[i] == index[i];
      }
    }
  }

  /** Writing the open block. */
  lemma ShapeFlush(blocks: seq<Block>, index: seq<IKey>, open: Block, last: Option<IKey>)
    requires Shape(blocks, index, open, last, false) && open != []
    ensures Shape(blocks + [open], index, [], last, true)
  {
    assert ShapeOf(|blocks|, blocks, index, open, last, false);
    var more := blocks + [open];
    BlocksSnoc(blocks, open);
    if last.Some? {
      CoveredSnoc(blocks, open, last.value);
    }
    forall i | 0 <= i < |index|
      ensures Separates(index[i], more[i], NextKey(more, i, []))
    {
      assert Separates(index[i], blocks[i], NextKey(blocks, i, open));
      assert more[i] == blocks[i] && more[i + 1] == if i + 1 < |blocks| then blocks[i + 1] else open;
    }
    assert more[|blocks|] == open;
  }

  lemma CoveredSnoc(blocks: seq<Block>, open: Block, last: IKey)
    requires Covered(blocks, open, last)
    ensures Covered(blocks + [open], [], last)
  {
    var more := blocks + [open];
    forall i | 0 <= i < |more|
      ensures UpTo(more[i], last)
    {
      assert more[i] == if i < |blocks| then blocks[i] else open;
    }
  }

  lemma BlocksSnoc(blocks: seq<Block>, open: Block)
    requires BlocksOk(blocks) && Ascends(open) && open != [] && forall i :: 0 <= i < |blocks| ==> Apart(blocks[i], open)
    ensures BlocksOk(blocks + [open])
  {
    var more := blocks + [open];
    forall i | 0 <= i < |more|
      ensures more[i] != [] && Ascends(more[i])
    {
      if i < |blocks| {
        assert more[i] == blocks[i];
      } else {
        assert more[i] == open;
      }
    }
    forall i, j | 0 <= i < j < |more|
      ensures Apart(more[i], more[j])
    {
      assert more[i] == blocks[i];
      if j < |blocks| {
        assert more[j] == blocks[j] && Apart(blocks[i], blocks[j]);
      } else {
        assert more[j] == open && Apart(blocks[i], open);
      }
    }
    assert BlocksOk(more);
  }

  /** The last index entry. */
  lemma ShapeFinish(blocks: seq<Block>, index: seq<IKey>, last: Option<IKey>, pending: bool, offsets: seq<nat>, successor: IKey)
    requires Shape(blocks, index, [], last, pending) && (pending || blocks == []) && |offsets| == |blocks|
    requires pending ==> last.Some? && S.NotAfter(last.value, successor)
    ensures TableOk(Table(blocks, if pending then index + [successor] else index, offsets))
  {
    assert ShapeOf(|blocks|, blocks, index, [], last, pending);
    var all := if pending then index + [successor] else index;
    forall i | 0 <= i < |all|
      ensures Separates(all[i], blocks[i], if i + 1 < |blocks| then Some(blocks[i + 1][0].key) else None)
    {
      if i < |index| {
        assert all[i] == index[i];
        assert Separates(index[i], blocks[i], NextKey(blocks, i, []));
      } else {
        assert all[i] == successor && i == |blocks| - 1;
      }
    }
    assert IndexOk(blocks, all);
  }

  lemma ShapeFacts(blocks: seq<Block>, index: seq<IKey>, open: Block, last: Option<IKey>, pending: bool)
    requires Shape(blocks, index, open, last, pending)
    ensures pending ==> open == [] && last.Some? && blocks != []
    ensures !pending && blocks != [] ==> open != []
  {
    assert ShapeOf(|blocks|, blocks, index, open, last, pending);
  }

  ghost predicate FilterOf(blocks: seq<Block>, offsets: seq<nat>, offset: nat, open: Block, filter: seq<(nat, Bytes)>) {
    |offsets| == |blocks| && filter == AllTold(blocks, offsets) + Told(offset, open)
  }

  class TableBuilder {
    var blocks: seq<Block>
    var index: seq<IKey>
    var offsets: seq<nat>
    var offset: nat
    var dataBlock: Block
    var lastKey: Option<IKey>
    var pendingIndexEntry: bool
    var filter: seq<(nat, Bytes)>

    ghost predicate Valid()
      reads this
    {
      && Shape(blocks, index, dataBlock, lastKey, pendingIndexEntry)
      && FilterOf(blocks, offsets, offset, dataBlock, filter)
    }

    ghost function Added(): seq<Row>
      reads this
    {
      Flat(blocks) + dataBlock
    }

    constructor ()
      ensures Valid() && Added() == [] && lastKey == None
    {
      blocks, index, offsets, offset, dataBlock, lastKey, pendingIndexEntry, filter := [], [], [], 0, [], None, false, [];
    }

    /** Add; `full` says whether the block has reached the block size. */
    method Add(key: IKey, value: Bytes, full: bool, written: nat)
      requires Valid() && (lastKey.Some? ==> S.Less(lastKey.value, key))
      modifies this
      ensures Valid() && Added() == old(Added()) + [Row(key, value)] && lastKey == Some(key)
    {
      ShapeFacts(blocks, index, dataBlock, lastKey, pendingIndexEntry);
      ghost var was := index;
      if pendingIndexEntry {
        var separator := S.FindInternalSeparator(lastKey.value, key);
        index := index + [separator];
      }
      ShapeAdd(blocks, was, dataBlock, lastKey, pendingIndexEntry, Row(key, value), index);
      pendingIndexEntry := false;
      ToldMore(blocks, offsets, offset, dataBlock, filter, Row(key, value));
      filter := filter + [(offset, key.user)];
      lastKey := Some(key);
      dataBlock := dataBlock + [Row(key, value)];
      assert Added() == old(Added()) + [Row(key, value)];
      if full {
        Flush(written);
      }
    }

    /** Flush: `written` is the size of the block on disk with its trailer. */
    method Flush(written: nat)
      requires Valid()
      modifies this
      ensures Valid() && Added() == old(Added()) && lastKey == old(lastKey) && dataBlock == []
      ensures pendingIndexEntry || blocks == []
    {
      ShapeFacts(blocks, index, dataBlock, lastKey, pendingIndexEntry);
      if dataBlock == [] {
        return;
      }
      ShapeFlush(blocks, index, dataBlock, lastKey);
      FlatSnoc(blocks, dataBlock);
      FlushedFilter(blocks, offsets, offset, dataBlock, filter, offset + written);
      assert Flat(blocks) + dataBlock + [] == Flat(blocks) + dataBlock;
      blocks, offsets := blocks + [dataBlock], offsets + [offset];
      dataBlock := [];
      pendingIndexEntry := true;
      offset := offset + written;
    }

    /** Finish: a table that holds the added rows, its filter told of every one of them. */
    method Finish(written: nat) returns (t: Table)
      requires Valid()
      modifies this
      ensures TableOk(t) && Flat(t.blocks) == old(Added()) && filter == AllTold(t.blocks, t.offsets)
    {
      Flush(written);
      ShapeFacts(blocks, index, dataBlock, lastKey, pendingIndexEntry);
      ghost var was, successor := index, S.InternalKey([], 0);
      if pendingIndexEntry {
        var s := S.FindInternalSuccessor(lastKey.value);
        successor := s;
        index := index + [s];
      }
      ShapeFinish(blocks, was, lastKey, pendingIndexEntry, offsets, successor);
      pendingIndexEntry := false;
      t := Table(blocks, index, offsets);
    }
  }

  lemma ToldMore(blocks: seq<Block>, offsets: seq<nat>, offset: nat, open: Block, filter: seq<(nat, Bytes)>, row: Row)
    requires FilterOf(blocks, offsets, offset, open, filter)
    ensures FilterOf(blocks, offsets, offset, open + [row], filter + [(offset, row.key.user)])
  {
    assert Told(offset, open + [row]) == Told(offset, open) + [(offset, row.key.user)];
  }

  lemma FlushedFilter(blocks: seq<Block>, offsets: seq<nat>, offset: nat, open: Block, filter: seq<(nat, Bytes)>, later: nat)
    requires FilterOf(blocks, offsets, offset, open, filter)
    ensures FilterOf(blocks + [open], offsets + [offset], later, [], filter)
  {
    ToldSnoc(blocks, offsets, open, offset);
    assert filter + Told(later, []) == filter;
  }

  // ---- Looking up ----

  /** The filter never denies a user key at the offset of its block. */
  ghost predicate FilterSound(t: Table, mayMatch: (nat, Bytes) -> bool)
    requires TableOk(t)
  {
    forall i, x :: 0 <= i < |t.blocks| && x in t.blocks[i] ==> mayMatch(t.offsets[i], x.key.user)
  }

  /** Row x of block i is the first of the table that is not before the target. */
  ghost predicate IsFirst(t: Table, target: IKey, i: nat, x: Row)
    requires i < |t.blocks|
  {
    && x in t.blocks[i] && !S.Less(x.key, target)
    && (forall y <- t.blocks[i] :: S.Less(y.key, x.key) ==> S.Less(y.key, target))
    && (forall j, y :: 0 <= j < i && y in t.blocks[j] ==> S.Less(y.key, target))
  }

  /** Table::InternalGet: the row that is handed to the caller, who checks its user key. */
  method InternalGet(t: Table, target: IKey, mayMatch: Option<(nat, Bytes) -> bool>) returns (r: Option<Row>, ghost i: nat)
    requires TableOk(t) && (mayMatch.Some? ==> FilterSound(t, mayMatch.value))
    ensures r.Some? ==> i < |t.blocks| && IsFirst(t, target, i, r.value)
    ensures i <= |t.index| && (forall j :: 0 <= j < i ==> S.Less(t.index[j], target)) && (i < |t.index| ==> !S.Less(t.index[i], target))
    ensures r.Some? <==> i < |t.index| && (mayMatch.None? || mayMatch.value(t.offsets[i], target.user)) && exists x <- t.blocks[i] :: !S.Less(x.key, target)
    ensures forall j, y :: 0 <= j < |t.blocks| && y in t.blocks[j] && y.key.user == target.user && !S.Less(y.key, target) ==> r.Some? && r.value.key.user == target.user && S.NotAfter(r.value.key, y.key)
  {
    var b := TwoLevel.SeekIn(t.index, (k: IKey) => S.Less(k, target));
    i := b;
    r := None;
    EarlierBlocks(t, target, b);
    if b < |t.index| {
      if mayMatch.Some? && !mayMatch.value(t.offsets[b], target.user) {
        forall x | x in t.blocks[b]
          ensures x.key.user != target.user
        {
          assert mayMatch.value(t.offsets[b], x.key.user);
        }
      } else {
        var o := TwoLevel.SeekIn(t.blocks[b], (x: Row) => S.Less(x.key, target));
        FirstInBlock(t.blocks[b], target, o);
        assert o < |t.blocks[b]| ==> t.blocks[b][o] in t.blocks[b];
        if o < |t.blocks[b]| {
          r := Some(t.blocks[b][o]);
        }
      }
      forall j, y | 0 <= j < |t.blocks| && y in t.blocks[j] && y.key.user == target.user && !S.Less(y.key, target)
        ensures r.Some? && r.value.key.user == target.user && S.NotAfter(r.value.key, y.key)
      {
        var x := InThisBlock(t, target, i, j, y);
        Sandwich(target, r.value.key, x.key, y.key);
      }
    }
  }

  /** Rows of the blocks before the one the index names. */
  lemma EarlierBlocks(t: Table, target: IKey, i: nat)
    requires TableOk(t) && i <= |t.index| && forall k :: 0 <= k < i ==> S.Less(t.index[k], target)
    ensures forall j, y :: 0 <= j < i && y in t.blocks[j] ==> S.Less(y.key, target)
  {
    forall j, y | 0 <= j < i && y in t.blocks[j]
      ensures S.Less(y.key, target)
    {
      BeforeIndex(t, j, y);
      NotAfterLess(y.key, t.index[j], target);
    }
  }

  lemma NotAfterLess(a: IKey, b: IKey, c: IKey)
    requires S.NotAfter(a, b) && S.Less(b, c)
    ensures S.Less(a, c)
  {
    if a != b {
      S.LessTransitive(a, b, c);
    }
  }

  lemma BeforeIndex(t: Table, j: nat, y: Row)
    requires TableOk(t) && j < |t.blocks| && y in t.blocks[j]
    ensures S.NotAfter(y.key, LastKey(t.blocks[j])) && S.NotAfter(y.key, t.index[j])
  {
    var b := t.blocks[j];
    var i :| 0 <= i < |b| && b[i] == y;
    assert Ascends(b);
    assert i < |b| - 1 ==> S.Less(b[i].key, b[|b| - 1].key);
    assert Separates(t.index[j], b, if j + 1 < |t.blocks| then Some(t.blocks[j + 1][0].key) else None);
    if y.key != LastKey(b) && LastKey(b) != t.index[j] {
      S.LessTransitive(y.key, LastKey(b), t.index[j]);
    }
  }

  lemma FirstInBlock(b: Block, target: IKey, o: nat)
    requires Ascends(b) && o <= |b|
    requires (forall j :: 0 <= j < o ==> S.Less(b[j].key, target)) && (o < |b| ==> !S.Less(b[o].key, target))
    ensures o < |b| ==> forall y <- b :: S.Less(y.key, b[o].key) ==> S.Less(y.key, target)
    ensures forall y <- b :: !S.Less(y.key, target) ==> o < |b| && S.NotAfter(b[o].key, y.key)
  {
    forall y | y in b
      ensures o < |b| && S.Less(y.key, b[o].key) ==> S.Less(y.key, target)
      ensures !S.Less(y.key, target) ==> o < |b| && S.NotAfter(b[o].key, y.key)
    {
      var i :| 0 <= i < |b| && b[i] == y;
      if o <= i {
        S.LessTotal(y.key, b[o].key);
        assert o < i ==> S.Less(b[o].key, b[i].key);
      }
    }
  }

  /** Between two keys of one user there is only that user. */
  lemma Sandwich(target: IKey, r: IKey, x: IKey, y: IKey)
    requires !S.Less(r, target) && S.NotAfter(r, x) && S.NotAfter(x, y) && x.user == target.user
    ensures r.user == target.user && S.NotAfter(r, y)
  {
    S.BelowTotal(r.user, target.user);
    assert S.Below(r.user, x.user) ==> S.Less(r, target);
    if r != x && x != y {
      S.LessTransitive(r, x, y);
    }
  }

  /** If any row of the user is at or after the target, the block that the index names has one. */
  lemma InThisBlock(t: Table, target: IKey, b: nat, j: nat, y: Row) returns (x: Row)
    requires TableOk(t) && b < |t.blocks| && j < |t.blocks| && y in t.blocks[j] && y.key.user == target.user && !S.Less(y.key, target)
    requires !S.Less(t.index[b], target) && forall k :: 0 <= k < b ==> S.Less(t.index[k], target)
    ensures x in t.blocks[b] && x.key.user == target.user && !S.Less(x.key, target) && S.NotAfter(x.key, y.key)
  {
    EarlierBlocks(t, target, b);
    if j == b {
      x := y;
    } else {
      var last := t.blocks[b][|t.blocks[b]| - 1];
      x := last;
      var next := t.blocks[b + 1][0];
      assert Separates(t.index[b], t.blocks[b], Some(next.key));
      assert Apart(t.blocks[b], t.blocks[j]);
      if t.index[b] != last.key {
        NextNotAfter(t, b + 1, j, y);
        UserBetween(t.index[b], next.key, y.key, target);
      } else {
        Sandwich(target, last.key, y.key, y.key);
      }
    }
  }

  lemma NextNotAfter(t: Table, n: nat, j: nat, y: Row)
    requires TableOk(t) && n <= j < |t.blocks| && y in t.blocks[j]
    ensures S.NotAfter(t.blocks[n][0].key, y.key)
  {
    if n < j {
      assert Apart(t.blocks[n], t.blocks[j]);
    } else {
      var i :| 0 <= i < |t.blocks[j]| && t.blocks[j][i] == y;
      assert i > 0 ==> S.Less(t.blocks[j][0].key, t.blocks[j][i].key);
    }
  }

  /** A shortened separator lies before every target of the next block's users. */
  lemma UserBetween(k: IKey, next: IKey, y: IKey, target: IKey)
    requires S.Below(k.user, next.user) && S.NotAfter(next, y) && y.user == target.user
    ensures S.Less(k, target)
  {
    if next.user != y.user {
      S.BelowTransitive(k.user, next.user, y.user);
    }
  }

  /** A filter block that denies nothing it was told is sound for the table. */
  lemma {:induction false} ToldAll(blocks: seq<Block>, offsets: seq<nat>, i: nat, x: Row)
    requires |blocks| == |offsets| && i < |blocks| && x in blocks[i]
    ensures (offsets[i], x.key.user) in AllTold(blocks, offsets)
    decreases |blocks|
  {
    var n := |blocks| - 1;
    if i < n {
      ToldAll(blocks[..n], offsets[..n], i, x);
    } else {
      var k :| 0 <= k < |blocks[n]| && blocks[n][k] == x;
      assert Told(offsets[n], blocks[n])[k] == (offsets[i], x.key.user);
    }
  }

  lemma FilterBlockIsSound(t: Table, match_: FilterBlocks.Match, contents: Bytes)
    requires TableOk(t)
    requires forall a <- AllTold(t.blocks, t.offsets) :: FilterBlocks.KeyMayMatch(match_, contents, a.0, a.1)
    ensures FilterSound(t, (offset: nat, user: Bytes) => FilterBlocks.KeyMayMatch(match_, contents, offset, user))
  {
    forall i, x | 0 <= i < |t.blocks| && x in t.blocks[i]
      ensures FilterBlocks.KeyMayMatch(match_, contents, t.offsets[i], x.key.user)
    {
      ToldAll(t.blocks, t.offsets, i, x);
    }
  }

  // ---- Iterating ----

  /** An index key lies before every row of a later block. */
  lemma IndexBeforeLater(t: Table, a: nat, b: nat, x: Row)
    requires TableOk(t) && a < b < |t.blocks| && x in t.blocks[b]
    ensures S.Less(t.index[a], x.key)
  {
    assert Separates(t.index[a], t.blocks[a], Some(t.blocks[a + 1][0].key));
    NextNotAfter(t, a + 1, b, x);
    if t.blocks[a + 1][0].key != x.key {
      S.LessTransitive(t.index[a], t.blocks[a + 1][0].key, x.key);
    }
  }

  /** A table's index cuts its blocks at every target. */
  lemma TableCuts(t: Table, target: IKey)
    requires TableOk(t)
    ensures TwoLevel.Cuts(t.blocks, t.index, (k: IKey) => S.Less(k, target), (x: Row) => S.Less(x.key, target))
  {
    var blocks := t.blocks;
    forall i, j | 0 <= i < j < |t.index| && S.Less(t.index[j], target)
      ensures S.Less(t.index[i], target)
    {
      var last := blocks[j][|blocks[j]| - 1];
      IndexBeforeLater(t, i, j, last);
      BeforeIndex(t, j, last);
      NotAfterLess(last.key, t.index[j], target);
      S.LessTransitive(t.index[i], last.key, target);
    }
    forall b, x: Row | 0 <= b < |blocks| && x in blocks[b] && S.Less(t.index[b], target)
      ensures S.Less(x.key, target)
    {
      BeforeIndex(t, b, x);
      NotAfterLess(x.key, t.index[b], target);
    }
    forall a, b, x: Row | 0 <= a < b < |blocks| && x in blocks[b] && !S.Less(t.index[a], target)
      ensures !S.Less(x.key, target)
    {
      IndexBeforeLater(t, a, b, x);
      LaterNotBefore(t.index[a], x.key, target);
    }
    forall b, i, j | 0 <= b < |blocks| && 0 <= i < j < |blocks[b]| && S.Less(blocks[b][j].key, target)
      ensures S.Less(blocks[b][i].key, target)
    {
      assert Ascends(blocks[b]);
      S.LessTransitive(blocks[b][i].key, blocks[b][j].key, target);
    }
  }

  lemma LaterNotBefore(a: IKey, k: IKey, target: IKey)
    requires S.Less(a, k) && !S.Less(a, target)
    ensures !S.Less(k, target)
  {
    if S.Less(k, target) {
      S.LessTransitive(a, k, target);
    }
  }

  /** `r` is the first of the rows that is not before the target, if there is one. */
  ghost predicate FirstFrom(rows: seq<Row>, target: IKey, r: Option<Row>) {
    match r
    case None => forall i :: 0 <= i < |rows| ==> S.Less(rows[i].key, target)
    case Some(x) => exists p :: 0 <= p < |rows| && rows[p] == x && !S.Less(x.key, target) && forall i :: 0 <= i < p ==> S.Less(rows[i].key, target)
  }

  /** Table::NewIterator, then Seek: the first of all rows that is not before the target. */
  method SeekRow(t: Table, target: IKey) returns (r: Option<Row>)
    requires TableOk(t)
    ensures FirstFrom(Flat(t.blocks), target, r)
  {
    var iter := new TwoLevel.TwoLevelIterator<Row, IKey>(t.blocks, t.index);
    TableCuts(t, target);
    ghost var p := iter.Seek((k: IKey) => S.Less(k, target), (x: Row) => S.Less(x.key, target));
    iter.ShowsRow(p);
    FoundIsFirst(Flat(t.blocks), target, p);
    r := if iter.Valid() then Some(iter.Row()) else None;
  }

  lemma FoundIsFirst(rows: seq<Row>, target: IKey, p: nat)
    requires p <= |rows| && TwoLevel.FoundAt(rows, (x: Row) => S.Less(x.key, target), p)
    ensures FirstFrom(rows, target, if p < |rows| then Some(rows[p]) else None)
  {}

  /** Table::NewIterator, then SeekToFirst and Next until the end: every row once, in order. */
  method ScanTable(t: Table) returns (rows: seq<Row>)
    requires TableOk(t)
    ensures rows == Flat(t.blocks)
  {
    var iter := new TwoLevel.TwoLevelIterator<Row, IKey>(t.blocks, t.index);
    iter.SeekToFirst();
    iter.ShowsRow(0);
    rows := Remaining(iter, Flat(t.blocks));
  }

  /** Next until the end: a fresh iterator at the first row runs through all of them. */
  method Remaining(iter: TwoLevel.TwoLevelIterator<Row, IKey>, ghost all: seq<Row>) returns (rows: seq<Row>)
    requires iter.At(0) && all == Flat(iter.blocks) && (iter.Valid() <==> all != [])
    modifies iter
    ensures rows == all
  {
    rows := [];
    ghost var p := 0;
    while iter.Valid()
      invariant iter.At(p) && Scanned(rows, all, p) && (iter.Valid() <==> p < |all|)
      decreases |all| - p
    {
      var row := TakeRow(iter, all, p);
      ScannedMore(rows, all, p);
      rows := rows + [row];
      p := p + 1;
    }
  }

  /** The current row, and on to the next one. */
  method TakeRow(iter: TwoLevel.TwoLevelIterator<Row, IKey>, ghost all: seq<Row>, ghost p: nat) returns (row: Row)
    requires iter.At(p) && iter.Valid() && all == Flat(iter.blocks)
    modifies iter
    ensures p < |all| && row == all[p] && iter.At(p + 1) && (iter.Valid() <==> p + 1 < |all|)
  {
    iter.ShowsRow(p);
    row := iter.Row();
    iter.Next(p);
    iter.ShowsRow(p + 1);
  }

  ghost predicate Scanned(rows: seq<Row>, all: seq<Row>, p: nat) {
    p <= |all| && rows == all[..p]
  }

  lemma ScannedMore(rows: seq<Row>, all: seq<Row>, p: nat)
    requires Scanned(rows, all, p) && p < |all|
    ensures Scanned(rows + [all[p]], all, p + 1)
  {}

  /** BuildTable: the table of a memtable's rows, with the bounds of its keys; `full` and `written`
      say after which rows a block has reached its size, and how long it is on disk. */
  method BuildTable(rows: seq<Row>, full: nat -> bool, written: nat -> nat) returns (r: Option<(Table, IKey, IKey)>)
    requires Ascends(rows)
    ensures r.None? <==> rows == []
    ensures r.Some? ==> TableOk(r.value.0) && Flat(r.value.0.blocks) == rows
    ensures r.Some? ==> r.value.1 == rows[0].key && r.value.2 == rows[|rows| - 1].key
    ensures r.Some? ==> forall x <- rows :: S.NotAfter(r.value.1, x.key) && S.NotAfter(x.key, r.value.2)
  {
    if rows == [] {
      return None;
    }
    var builder := new TableBuilder();
    var smallest, largest, i := rows[0].key, rows[0].key, 0;
    while i < |rows|
      invariant i <= |rows| && builder.Valid() && builder.Added() == rows[..i] && fresh(builder)
      invariant if i == 0 then builder.lastKey == None else builder.lastKey == Some(rows[i - 1].key) && largest == rows[i - 1].key
    {
      largest := rows[i].key;
      builder.Add(rows[i].key, rows[i].value, full(i), written(i));
      i := i + 1;
    }
    var t := builder.Finish(written(i));
    r := Some((t, smallest, largest));
  }
}
