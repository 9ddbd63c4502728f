/** TwoLevelIterator: a cursor over blocks, reached through an index, that skips empty blocks. */
module TwoLevel {
  import opened Keys
  import opened Lists

  /** What Seek relies on: `before` tells which rows are ahead of its target, and `ahead` which
      index keys. */
  ghost predicate Cuts<R(!new), I(!new)>(blocks: seq<seq<R>>, index: seq<I>, ahead: I -> bool, before: R -> bool) {
    && |index| == |blocks|
    && (forall i, j :: 0 <= i < j < |index| && ahead(index[j]) ==> ahead(index[i]))
    && (forall b, x :: 0 <= b < |blocks| && x in blocks[b] && ahead(index[b]) ==> before(x))
    && (forall a, b, x :: 0 <= a < b < |blocks| && x in blocks[b] && !ahead(index[a]) ==> !before(x))
    && (forall b, i, j :: 0 <= b < |blocks| && 0 <= i < j < |blocks[b]| && before(blocks[b][j]) ==> before(blocks[b][i]))
  }

  /** The data iterator: a block and an index into it, or its length when not valid. */
  datatype Data = Data(block: nat, pos: nat)

  /** How many rows of a block of n are at or before position `pos`; none if it is not valid. */
  function Passed(pos: nat, n: nat): nat {
    if pos < n then pos + 1 else 0
  }

  /** The rows before row p are before the target, the others are not. */
  ghost predicate FoundAt<R(!new)>(rows: seq<R>, before: R -> bool, p: nat) {
    forall i :: 0 <= i < |rows| ==> (before(rows[i]) <==> i < p)
  }

  lemma CutFound<R(!new), I(!new)>(blocks: seq<seq<R>>, index: seq<I>, ahead: I -> bool, before: R -> bool, i: nat, pos: nat)
    requires Cuts(blocks, index, ahead, before) && i <= |index|
    requires (forall j :: 0 <= j < i ==> ahead(index[j])) && (i < |index| ==> !ahead(index[i]))
    requires i < |blocks| ==> pos <= |blocks[i]| && (forall o :: 0 <= o < pos ==> before(blocks[i][o])) && (pos < |blocks[i]| ==> !before(blocks[i][pos]))
    ensures FoundAt(Flat(blocks), before, if i < |blocks| then Rank(blocks, i) + pos else Rank(blocks, |blocks|))
  {
    var p := if i < |blocks| then Rank(blocks, i) + pos else Rank(blocks, |blocks|);
    forall r | 0 <= r < |Flat(blocks)|
      ensures before(Flat(blocks)[r]) <==> r < p
    {
      var b, o := FlatFrom(blocks, r);
      FlatAt(blocks, b, o);
      FlatLength(blocks);
      if b < i {
        RankGrows(blocks, b + 1, if i < |blocks| then i else |blocks|);
      } else if b > i {
        RankGrows(blocks, i + 1, b);
      }
    }
  }

  class TwoLevelIterator<R(!new), I(!new)> {
    const blocks: seq<seq<R>>
    const index: seq<I>
    /** The index iterator, |index| when not valid. */
    var indexPos: nat
    var data: Option<Data>

    /** The iterator is at row p of all rows, or at the end if p is their number. */
    ghost predicate At(p: nat)
      reads this
    {
      && |index| == |blocks| && p <= Rank(blocks, |blocks|)
      && match data
         case None => p == Rank(blocks, |blocks|)
         case Some(d) => d.block == indexPos < |blocks| && d.pos < |blocks[d.block]| && p == Rank(blocks, d.block) + d.pos
    }

    constructor (bs: seq<seq<R>>, ix: seq<I>)
      requires |ix| == |bs|
      ensures At(Rank(blocks, |blocks|)) && blocks == bs && index == ix
    {
      blocks, index, indexPos, data := bs, ix, |ix|, None;
    }

    function Valid(): bool
      reads this
    {
      data.Some? && data.value.block < |blocks| && data.value.pos < |blocks[data.value.block]|
    }

    /** The current row: key and value. */
    function Row(): R
      requires Valid()
      reads this
    {
      blocks[data.value.block][data.value.pos]
    }

    /** At row p the iterator shows that row; behind the last it is not valid. */
    lemma ShowsRow(p: nat)
      requires At(p)
      ensures p <= |Flat(blocks)| && (Valid() <==> p < |Flat(blocks)|)
      ensures Valid() ==> Row() == Flat(blocks)[p]
    {
      FlatLength(blocks);
      if Valid() {
        FlatAt(blocks, data.value.block, data.value.pos);
      }
    }

    /** A data iterator on the block the index iterator is at; one that is there already stays. */
    method InitDataBlock()
      requires |index| == |blocks| && indexPos <= |index|
      modifies this`data
      ensures if indexPos == |index| then data.None?
              else data.Some? && data.value.block == indexPos
    {
      if indexPos == |index| {
        data := None;
      } else if data.Some? && data.value.block == indexPos {
        // Already constructed.
      } else {
        data := Some(Data(indexPos, |blocks[indexPos]|));
      }
    }

    /** Move on to the next row that exists: all blocks up to here are used up to row p. */
    method SkipEmptyDataBlocksForward(ghost p: nat)
      requires |index| == |blocks| && indexPos <= |index|
      requires match data
               case None => indexPos == |index| && p == Rank(blocks, |blocks|)
               case Some(d) => d.block == indexPos < |index| && d.pos <= |blocks[d.block]| && p == Rank(blocks, d.block) + d.pos
      modifies this
      ensures At(p)
    {
      while data.None? || data.value.pos >= |blocks[data.value.block]|
        invariant indexPos <= |index|
        invariant match data
                  case None => indexPos == |index| && p == Rank(blocks, |blocks|)
                  case Some(d) => d.block == indexPos < |index| && d.pos <= |blocks[d.block]| && p == Rank(blocks, d.block) + d.pos
        decreases |index| - indexPos, data.Some?
      {
        if indexPos == |index| {
          data := None;
          return;
        }
        indexPos := indexPos + 1;
        InitDataBlock();
        if data.Some? {
          data := Some(data.value.(pos := 0));
        }
      }
      RankGrows(blocks, indexPos + 1, |blocks|);
    }

    /** Move back to the last row before row p. */
    method SkipEmptyDataBlocksBackward(ghost p: nat)
      requires |index| == |blocks| && indexPos <= |index|
      requires match data
               case None => indexPos == |index| && p == 0
               case Some(d) => d.block == indexPos < |index| && p == Rank(blocks, d.block) + Passed(d.pos, |blocks[d.block]|)
      modifies this
      ensures At(if p == 0 then Rank(blocks, |blocks|) else p - 1)
    {
      while data.None? || data.value.pos >= |blocks[data.value.block]|
        invariant indexPos <= |index|
        invariant match data
                  case None => indexPos == |index| && p == 0
                  case Some(d) => d.block == indexPos < |index| && p == Rank(blocks, d.block) + Passed(d.pos, |blocks[d.block]|)
        decreases if indexPos == |index| then 0 else indexPos + 1, data.Some?
      {
        if indexPos == |index| {
          data := None;
          return;
        }
        indexPos := if indexPos == 0 then |index| else indexPos - 1;
        InitDataBlock();
        if data.Some? {
          var n := |blocks[indexPos]|;
          data := Some(data.value.(pos := if n == 0 then 0 else n - 1));
        }
      }
      RankGrows(blocks, indexPos + 1, |blocks|);
    }

    method SeekToFirst()
      requires |index| == |blocks|
      modifies this
      ensures At(0)
    {
      indexPos := 0;
      InitDataBlock();
      if data.Some? {
        data := Some(data.value.(pos := 0));
      }
      SkipEmptyDataBlocksForward(0);
    }

    method SeekToLast()
      requires |index| == |blocks|
      modifies this
      ensures At(if Rank(blocks, |blocks|) == 0 then 0 else Rank(blocks, |blocks|) - 1)
    {
      indexPos := if |index| == 0 then |index| else |index| - 1;
      InitDataBlock();
      if data.Some? {
        var n := |blocks[indexPos]|;
        data := Some(data.value.(pos := if n == 0 then 0 else n - 1));
      }
      SkipEmptyDataBlocksBackward(Rank(blocks, |blocks|));
    }

    method Next(ghost p: nat)
      requires At(p) && Valid()
      modifies this
      ensures At(p + 1)
    {
      data := Some(data.value.(pos := data.value.pos + 1));
      SkipEmptyDataBlocksForward(p + 1);
    }

    method Prev(ghost p: nat)
      requires At(p) && Valid()
      modifies this
      ensures At(if p == 0 then Rank(blocks, |blocks|) else p - 1)
    {
      var d := data.value;
      data := Some(d.(pos := if d.pos == 0 then |blocks[d.block]| else d.pos - 1));
      SkipEmptyDataBlocksBackward(p);
    }

    /** Seek: the index is searched first, then one block, then empty blocks are skipped. */
    method Seek(ahead: I -> bool, before: R -> bool) returns (ghost p: nat)
      requires Cuts(blocks, index, ahead, before)
      modifies this
      ensures At(p) && FoundAt(Flat(blocks), before, p)
    {
      indexPos := SeekIn(index, ahead);
      InitDataBlock();
      if data.Some? {
        var o := SeekIn(blocks[indexPos], before);
        data := Some(data.value.(pos := o));
        CutFound(blocks, index, ahead, before, indexPos, o);
        p := Rank(blocks, indexPos) + o;
      } else {
        CutFound(blocks, index, ahead, before, indexPos, 0);
        p := Rank(blocks, |blocks|);
      }
      SkipEmptyDataBlocksForward(p);
    }
  }

  /** Where the Seek of a block iterator stops. */
  method SeekIn<T>(items: seq<T>, before: T -> bool) returns (i: nat)
    ensures i <= |items| && (forall j :: 0 <= j < i ==> before(items[j])) && (i < |items| ==> !before(items[i]))
  {
    i := 0;
    while i < |items| && before(items[i])
      invariant i <= |items| && forall j :: 0 <= j < i ==> before(items[j])
    {
      i := i + 1;
    }
  }
}
