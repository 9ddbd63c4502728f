/** Block::Iter: a cursor over the entries of a block, found through its restart points. */
module BlockIterator {
  import opened Keys
  import opened Coding
  import opened Blocks

  /** Where everything is: offs[j] is the start of item j, rs[k] the item at restart point k. */
  datatype Map = Map(items: seq<Item>, shared: seq<nat>, offs: seq<nat>, rs: seq<nat>)

  /** Item j shares its first bytes with the key before it. */
  ghost predicate SharesPrefix(m: Map, j: nat)
    requires j < |m.items| == |m.shared|
  {
    && m.shared[j] <= |m.items[j].key|
    && (j == 0 ==> m.shared[j] == 0)
    && (j > 0 ==> m.shared[j] <= |m.items[j - 1].key| && m.items[j].key[..m.shared[j]] == m.items[j - 1].key[..m.shared[j]])
  }

  ghost predicate ItemOk(data: Bytes, m: Map, j: nat)
    requires j < |m.items| == |m.shared| && |m.offs| == |m.items| + 1
  {
    && SharesPrefix(m, j) && m.offs[j] < m.offs[j + 1]
    && EntryAt(data, m.offs[j], m.offs[j + 1], m.shared[j], m.items[j].key[m.shared[j]..], m.items[j].value)
  }

  ghost predicate RestartOk(m: Map, k: nat)
    requires k < |m.rs| && |m.items| == |m.shared|
  {
    && (k == 0 ==> m.rs[k] == 0)
    && (m.rs[k] < |m.items| || (m.rs[k] == 0 && |m.items| == 0))
    && (m.rs[k] < |m.items| ==> m.shared[m.rs[k]] == 0)
  }

  ghost predicate Increasing(s: seq<nat>) {
    forall i, j :: 0 <= i < j < |s| ==> s[i] < s[j]
  }

  /** The entries of `m` fill the first `limit` bytes of `data`. */
  ghost predicate Entries(data: Bytes, limit: nat, m: Map) {
    && |m.shared| == |m.items| && |m.offs| == |m.items| + 1 && m.rs != []
    && m.offs[0] == 0 && m.offs[|m.items|] == limit <= |data|
    && Increasing(m.offs) && Increasing(m.rs)
    && (forall j :: 0 <= j < |m.items| ==> ItemOk(data, m, j))
    && (forall k :: 0 <= k < |m.rs| ==> RestartOk(m, k))
  }

  ghost predicate RestartRead(data: Bytes, limit: nat, m: Map, k: nat)
    requires k < |m.rs| && |m.offs| == |m.items| + 1
  {
    && m.rs[k] <= |m.items| && limit + 4 * k + 4 <= |data|
    && DecodeFixed32(data[limit + 4 * k..]) == m.offs[m.rs[k]]
  }

  /** A whole block: the entries, and behind them the restart array. */
  ghost predicate Layout(data: Bytes, limit: nat, m: Map) {
    && Entries(data, limit, m)
    && forall k :: 0 <= k < |m.rs| ==> RestartRead(data, limit, m, k)
  }

  type KeyOrder = (Bytes, Bytes) -> bool

  ghost predicate SortedBy(less: KeyOrder, items: seq<Item>) {
    && (forall a, b, c :: less(a, b) && less(b, c) ==> less(a, c))
    && (forall i, j :: 0 <= i < j < |items| ==> less(items[i].key, items[j].key))
  }

  /** One entry decoded at its offset. */
  lemma ParseItem(data: Bytes, limit: nat, m: Map, j: nat)
    requires Layout(data, limit, m) && j < |m.items| && |data| < U32
    ensures m.offs[j] < m.offs[j + 1] <= limit && SharesPrefix(m, j)
    ensures DecodeEntry(data[m.offs[j]..limit]).Some?
    ensures var (h, rest) := DecodeEntry(data[m.offs[j]..limit]).value;
      var q := limit - |rest|; var key := m.items[j].key;
      && h == Header(m.shared[j], |key| - m.shared[j], |m.items[j].value|)
      && 0 <= q && q + h.nonShared + h.valueLength == m.offs[j + 1]
      && data[q..q + h.nonShared] == key[m.shared[j]..]
      && data[q + h.nonShared..m.offs[j + 1]] == m.items[j].value
  {
    assert ItemOk(data, m, j);
    assert j + 1 < |m.items| ==> m.offs[j + 1] < m.offs[|m.items|];
    var delta := m.items[j].key[m.shared[j]..];
    KeyFits(data, limit, m, j);
    DecodeAt(data, limit, m.offs[j], m.offs[j + 1], m.shared[j], delta, m.items[j].value);
  }

  /** A key is no longer than the bytes written so far. */
  lemma {:induction false} KeyFits(data: Bytes, limit: nat, m: Map, j: nat)
    requires Entries(data, limit, m) && j < |m.items|
    ensures |m.items[j].key| <= m.offs[j + 1] && m.shared[j] <= |m.items[j].key|
  {
    assert ItemOk(data, m, j);
    var delta := m.items[j].key[m.shared[j]..];
    assert |delta| <= |EncodeEntry(m.shared[j], delta, m.items[j].value)|;
    if j > 0 {
      KeyFits(data, limit, m, j - 1);
    }
  }

  /** Block::Iter. */
  class Iter {
    const data: Bytes
    const restarts: nat
    const numRestarts: nat
    const less: KeyOrder
    var current: nat
    var restartIndex: nat
    var key: Bytes
    /** The value is data[valueAt..valueEnd]; the next entry starts at valueEnd. */
    var valueAt: nat
    var valueEnd: nat
    ghost const m: Map
    /** The item at the iterator; the number of items if it is not valid. */
    ghost var i: nat

    ghost predicate Fixed()
    {
      Layout(data, restarts, m) && |data| < U32 && numRestarts == |m.rs|
    }

    ghost predicate At()
      reads this
    {
      && i < |m.items| && |m.offs| == |m.items| + 1 && current == m.offs[i] && key == m.items[i].key
      && valueAt <= valueEnd == m.offs[i + 1] <= |data| && data[valueAt..valueEnd] == m.items[i].value
      && restartIndex < |m.rs| && m.rs[restartIndex] <= i
    }

    ghost predicate Inv()
      reads this
    {
      && Fixed() && i <= |m.items|
      && if i == |m.items| then current == restarts && restartIndex == numRestarts else At()
    }

    /** ParseNextKey will find item j. */
    ghost predicate Ready(j: nat)
      reads this
    {
      && Fixed() && j <= |m.items| && |m.offs| == |m.items| + 1 && valueEnd == m.offs[j]
      && restartIndex < |m.rs| && m.rs[restartIndex] <= j
      && (j < |m.items| ==> |m.shared| == |m.items| && m.shared[j] <= |key| && m.shared[j] <= |m.items[j].key| && key[..m.shared[j]] == m.items[j].key[..m.shared[j]])
    }

    constructor (d: Bytes, limit: nat, num: nat, order: KeyOrder, ghost layout: Map)
      requires Layout(d, limit, layout) && |d| < U32 && num == |layout.rs|
      ensures Inv() && i == |m.items| && data == d && restarts == limit && m == layout && less == order
    {
      data, restarts, numRestarts, less, m := d, limit, num, order, layout;
      current, restartIndex, key, valueAt, valueEnd := limit, num, [], 0, 0;
      i := |layout.items|;
    }

    function Valid(): bool
      reads this
    {
      current < restarts
    }

    /** Valid is what it says. */
    lemma ValidIff()
      requires Inv()
      ensures Valid() <==> i < |m.items|
    {}

    function GetRestartPoint(k: nat): nat
      requires Fixed() && k < numRestarts
    {
      assert RestartRead(data, restarts, m, k);
      DecodeFixed32(data[restarts + 4 * k..])
    }

    method SeekToRestartPoint(k: nat)
      requires Fixed() && k < numRestarts
      modifies this`key, this`restartIndex, this`valueAt, this`valueEnd
      ensures restartIndex == k && Ready(m.rs[k])
    {
      assert RestartRead(data, restarts, m, k) && RestartOk(m, k);
      key := [];
      restartIndex := k;
      var offset := GetRestartPoint(k);
      valueAt, valueEnd := offset, offset;
    }

    method ParseNextKey(ghost j: nat) returns (found: bool)
      requires Ready(j)
      modifies this
      ensures Inv() && i == j && found == (j < |m.items|)
      ensures found ==> Ready(j + 1)
    {
      current := valueEnd;
      i := j;
      Offsets(data, restarts, m, j);
      if current >= restarts {
        current, restartIndex := restarts, numRestarts;
        return false;
      }
      ParseItem(data, restarts, m, j);
      var entry := DecodeEntry(data[current..restarts]);
      var h, p := entry.value.0, restarts - |entry.value.1|;
      Unshare(key, m.items[j].key, m.shared[j]);
      key := key[..h.shared] + data[p..p + h.nonShared];
      valueAt, valueEnd := p + h.nonShared, p + h.nonShared + h.valueLength;
      NextShares(data, restarts, m, j);
      AdvanceRestart();
      found := true;
    }

    /** The restart index follows the current entry. */
    method AdvanceRestart()
      requires Fixed() && At()
      modifies this`restartIndex
      ensures At()
    {
      while restartIndex + 1 < numRestarts && GetRestartPoint(restartIndex + 1) < current
        invariant At()
        decreases numRestarts - restartIndex
      {
        assert RestartRead(data, restarts, m, restartIndex + 1);
        Order(m, m.rs[restartIndex + 1], i);
        restartIndex := restartIndex + 1;
      }
    }

    method SeekToFirst()
      requires Inv()
      modifies this
      ensures Inv() && i == 0
    {
      RestartAt(data, restarts, m, 0);
      SeekToRestartPoint(0);
      var found := ParseNextKey(0);
    }

    method Next()
      requires Inv() && Valid()
      modifies this
      ensures Inv() && i == old(i) + 1
    {
      NextShares(data, restarts, m, i);
      var found := ParseNextKey(i + 1);
    }

    method SeekToLast()
      requires Inv()
      modifies this
      ensures Inv() && i == if |m.items| == 0 then 0 else |m.items| - 1
    {
      RestartAt(data, restarts, m, numRestarts - 1);
      SeekToRestartPoint(numRestarts - 1);
      SkipTo(m.rs[numRestarts - 1], |m.items|, restarts);
    }

    /** Parse entries until the next one would start at `stop`. */
    method SkipTo(ghost from: nat, ghost upto: nat, stop: nat)
      requires Ready(from) && from <= upto <= |m.items| && stop == m.offs[upto] && (from < upto || upto == |m.items| == 0)
      modifies this
      ensures Inv() && i == if upto == 0 then 0 else upto - 1
    {
      ghost var j := from;
      var found := ParseNextKey(j);
      while found && (valueEnd < stop)
        invariant Inv() && i == j && j <= upto && (found ==> Ready(j + 1) && j < upto)
        invariant !found ==> upto == 0
        decreases upto - j, found
      {
        Order(m, j + 1, upto);
        j := j + 1;
        found := ParseNextKey(j);
      }
      if found {
        Order(m, upto, j + 1);
      }
    }

    method Prev()
      requires Inv() && Valid()
      modifies this
      ensures Inv() && i == if old(i) == 0 then |m.items| else old(i) - 1
    {
      var original := current;
      ghost var at := i;
      while GetRestartPoint(restartIndex) >= original
        invariant Inv() && i == at && At() && original == current
        decreases restartIndex
      {
        RestartAt(data, restarts, m, restartIndex);
        Order(m, i, m.rs[restartIndex]);
        if restartIndex == 0 {
          current := restarts;
          restartIndex := numRestarts;
          i := |m.items|;
          return;
        }
        Order2(m, restartIndex - 1, restartIndex);
        restartIndex := restartIndex - 1;
      }
      RestartAt(data, restarts, m, restartIndex);
      Order(m, m.rs[restartIndex], i);
      SeekToRestartPoint(restartIndex);
      SkipTo(m.rs[restartIndex], at, original);
    }

    /** Seek: the first item whose key is not before the target. */
    method Seek(target: Bytes)
      requires Inv() && SortedBy(less, m.items)
      modifies this
      ensures Inv()
      ensures forall j :: 0 <= j < i ==> less(m.items[j].key, target)
      ensures i < |m.items| ==> !less(m.items[i].key, target)
    {
      var left := FindRestart(target);
      SeekToRestartPoint(left);
      ghost var j := m.rs[left];
      while true
        invariant Ready(j) && j <= |m.items|
        invariant forall l :: 0 <= l < j ==> less(m.items[l].key, target)
        decreases |m.items| - j
      {
        var found := ParseNextKey(j);
        if !found || !less(key, target) {
          return;
        }
        j := j + 1;
      }
    }

    /** The last restart point whose key is before the target, or the first one. */
    method FindRestart(target: Bytes) returns (left: nat)
      requires Inv() && SortedBy(less, m.items)
      ensures left < numRestarts && m.rs[left] <= |m.items|
      ensures forall l :: 0 <= l < m.rs[left] ==> less(m.items[l].key, target)
    {
      left := 0;
      var right := numRestarts - 1;
      while left < right
        invariant 0 <= left <= right < numRestarts
        invariant left > 0 ==> m.rs[left] < |m.items| && less(m.items[m.rs[left]].key, target)
        decreases right - left
      {
        var mid := (left + right + 1) / 2;
        var midKey := RestartKey(mid);
        if less(midKey, target) {
          left := mid;
        } else {
          right := mid - 1;
        }
      }
      RestartAt(data, restarts, m, left);
      AllBefore(less, m.items, m.rs[left], target);
    }

    /** The key at a restart point is stored in full. */
    method RestartKey(k: nat) returns (r: Bytes)
      requires Fixed() && 0 < k < numRestarts
      ensures m.rs[k] < |m.items| && r == m.items[m.rs[k]].key
    {
      RestartAt(data, restarts, m, k);
      RestartIsItem(data, restarts, m, k);
      ParseItem(data, restarts, m, m.rs[k]);
      var offset := GetRestartPoint(k);
      var entry := DecodeEntry(data[offset..restarts]);
      var p := restarts - |entry.value.1|;
      r := data[p..p + entry.value.0.nonShared];
    }
  }

  lemma AllBefore(less: KeyOrder, items: seq<Item>, j: nat, target: Bytes)
    requires SortedBy(less, items) && j <= |items|
    requires j > 0 ==> j < |items| && less(items[j].key, target)
    ensures forall l :: 0 <= l < j ==> less(items[l].key, target)
  {}

  lemma RestartAt(data: Bytes, limit: nat, m: Map, k: nat)
    requires Layout(data, limit, m) && k < |m.rs|
    ensures RestartRead(data, limit, m, k) && RestartOk(m, k)
    ensures DecodeFixed32(data[limit + 4 * k..]) == m.offs[m.rs[k]]
  {
    assert RestartRead(data, limit, m, k) && RestartOk(m, k);
  }

  /** With more than one restart point each is at an item. */
  lemma RestartIsItem(data: Bytes, limit: nat, m: Map, k: nat)
    requires Layout(data, limit, m) && 0 < k < |m.rs|
    ensures m.rs[k] < |m.items| && m.shared[m.rs[k]] == 0
  {
    assert RestartOk(m, k) && RestartOk(m, 0);
    assert m.rs[0] < m.rs[k];
  }

  lemma Order2(m: Map, k: nat, l: nat)
    requires Increasing(m.rs) && k < l < |m.rs|
    ensures m.rs[k] < m.rs[l]
  {}

  lemma Offsets(data: Bytes, limit: nat, m: Map, j: nat)
    requires Entries(data, limit, m) && j <= |m.items|
    ensures m.offs[j] <= limit && (m.offs[j] == limit <==> j == |m.items|)
  {}

  lemma Order(m: Map, a: nat, b: nat)
    requires Increasing(m.offs) && a < |m.offs| && b < |m.offs|
    ensures m.offs[a] < m.offs[b] <==> a < b
    ensures m.offs[a] <= m.offs[b] <==> a <= b
  {}

  lemma Unshare(key: Bytes, full: Bytes, shared: nat)
    requires shared <= |key| && shared <= |full| && key[..shared] == full[..shared]
    ensures key[..shared] + full[shared..] == full
  {}

  lemma NextShares(data: Bytes, limit: nat, m: Map, j: nat)
    requires Entries(data, limit, m) && j < |m.items|
    ensures j + 1 < |m.items| ==> SharesPrefix(m, j + 1)
  {
    if j + 1 < |m.items| {
      assert ItemOk(data, m, j + 1);
    }
  }
}
