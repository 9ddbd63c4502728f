/** DBIter: a cursor over the live user map at a snapshot, built on a cursor over all entries. */
module DBIterator {
  import opened Keys

  /** `k` has a value for a reader at `s`. */
  ghost predicate Live(es: seq<Entry>, s: nat, k: UserKey) {
    View(Members(es), k, s).Some?
  }

  /** A set of user keys closed upwards or downwards. */
  datatype Range = All | AtLeast(k: UserKey) | Above(k: UserKey) | Below(k: UserKey)

  predicate In(range: Range, k: UserKey) {
    match range
    case All => true
    case AtLeast(lo) => lo <= k
    case Above(lo) => lo < k
    case Below(hi) => k < hi
  }

  /** `r` is the least live key in the range, if there is one. */
  ghost predicate IsLeastLive(es: seq<Entry>, s: nat, range: Range, r: Option<UserKey>) {
    match r
    case None => forall k :: In(range, k) ==> !Live(es, s, k)
    case Some(x) => In(range, x) && Live(es, s, x) && forall k :: In(range, k) && Live(es, s, k) ==> x <= k
  }

  ghost predicate IsGreatestLive(es: seq<Entry>, s: nat, range: Range, r: Option<UserKey>) {
    match r
    case None => forall k :: In(range, k) ==> !Live(es, s, k)
    case Some(x) => In(range, x) && Live(es, s, x) && forall k :: In(range, k) && Live(es, s, k) ==> k <= x
  }

  /** Index `i` holds the newest entry of its user key that a reader at `s` sees. */
  ghost predicate NewestAt(es: seq<Entry>, s: nat, i: nat) {
    && i < |es| && es[i].key.sequence <= s
    && forall j :: 0 <= j < i && es[j].key.user == es[i].key.user ==> es[j].key.sequence > s
  }

  lemma NewestAtView(es: seq<Entry>, s: nat, i: nat)
    requires Sorted(es) && Unique(Members(es)) && NewestAt(es, s, i)
    ensures View(Members(es), es[i].key.user, s) == if es[i].key.kind.Put? then Some(es[i].value) else None
  {
    var k := es[i].key.user;
    assert es[i] in Members(es);
    forall f | f in Members(es) && Visible(f, k, s)
      ensures f.key.sequence <= es[i].key.sequence
    {
      var j :| 0 <= j < |es| && es[j] == f;
      assert i <= j;
      assert i < j ==> Less(es[i].key, es[j].key);
    }
    ViewOfNewest(Members(es), k, s, es[i]);
  }

  /** A live key has an index that holds its newest visible entry. */
  lemma LiveHasNewest(es: seq<Entry>, s: nat, k: UserKey) returns (i: nat)
    requires Sorted(es) && Unique(Members(es)) && Live(es, s, k)
    ensures NewestAt(es, s, i) && es[i].key.user == k && es[i].key.kind.Put?
  {
    var e :| Newest(Members(es), k, s, e) && e.key.kind.Put?;
    i :| 0 <= i < |es| && es[i] == e;
    forall j | 0 <= j < i && es[j].key.user == k
      ensures es[j].key.sequence > s
    {
      assert Less(es[j].key, es[i].key) && es[j] in Members(es);
      assert es[j].key.sequence <= s ==> Visible(es[j], k, s);
    }
  }

  lemma UserOrder(es: seq<Entry>, i: nat, j: nat)
    requires Sorted(es) && i <= j < |es|
    ensures es[i].key.user <= es[j].key.user
  {
    if i < j { assert Less(es[i].key, es[j].key); }
  }

  // ---- Scanning forwards ----

  /** Visible entries before `i` settle only keys that are dead and skipped; the rest are
      skipped, or candidates. */
  ghost predicate Scanned(es: seq<Entry>, s: nat, range: Range, i: nat, skipping: bool, skip: UserKey) {
    && i <= |es|
    && (forall j :: 0 <= j < i && es[j].key.sequence <= s && In(range, es[j].key.user) ==>
          skipping && es[j].key.user <= skip && !Live(es, s, es[j].key.user))
    && (forall j :: i <= j < |es| && es[j].key.sequence <= s ==>
          if skipping && es[j].key.user <= skip then es[j].key.user == skip && (In(range, skip) ==> !Live(es, s, skip))
          else In(range, es[j].key.user))
  }

  /** The first unskipped visible entry is the newest visible one of its key. */
  lemma FirstVisible(es: seq<Entry>, s: nat, range: Range, i: nat, skipping: bool, skip: UserKey)
    requires Scanned(es, s, range, i, skipping, skip) && i < |es|
    requires es[i].key.sequence <= s && !(skipping && es[i].key.user <= skip)
    ensures NewestAt(es, s, i) && In(range, es[i].key.user)
  {}

  lemma FirstValue(es: seq<Entry>, s: nat, range: Range, i: nat, skipping: bool, skip: UserKey)
    requires Sorted(es) && Unique(Members(es))
    requires Scanned(es, s, range, i, skipping, skip) && i < |es|
    requires es[i].key.sequence <= s && !(skipping && es[i].key.user <= skip) && es[i].key.kind.Put?
    ensures IsLeastLive(es, s, range, Some(es[i].key.user))
  {
    FirstVisible(es, s, range, i, skipping, skip);
    NewestAtView(es, s, i);
    forall k | In(range, k) && Live(es, s, k)
      ensures es[i].key.user <= k
    {
      var m := LiveHasNewest(es, s, k);
      if i <= m { UserOrder(es, i, m); }
    }
  }

  lemma FirstTombstone(es: seq<Entry>, s: nat, range: Range, i: nat, skipping: bool, skip: UserKey)
    requires Sorted(es) && Unique(Members(es))
    requires Scanned(es, s, range, i, skipping, skip) && i < |es|
    requires es[i].key.sequence <= s && !(skipping && es[i].key.user <= skip) && es[i].key.kind.Deletion?
    ensures Scanned(es, s, range, i + 1, true, es[i].key.user)
  {
    FirstVisible(es, s, range, i, skipping, skip);
    NewestAtView(es, s, i);
    var u := es[i].key.user;
    forall j | 0 <= j < i + 1 && es[j].key.sequence <= s && In(range, es[j].key.user)
      ensures es[j].key.user <= u && !Live(es, s, es[j].key.user)
    {
      UserOrder(es, j, i);
    }
    forall j | i + 1 <= j < |es| && es[j].key.sequence <= s
      ensures if es[j].key.user <= u then es[j].key.user == u else In(range, es[j].key.user)
    {
      UserOrder(es, i, j);
    }
  }

  /** Entries that are not visible, and entries of skipped keys, change nothing. */
  lemma PassOver(es: seq<Entry>, s: nat, range: Range, i: nat, skipping: bool, skip: UserKey)
    requires Scanned(es, s, range, i, skipping, skip) && i < |es|
    requires es[i].key.sequence > s || (skipping && es[i].key.user <= skip)
    ensures Scanned(es, s, range, i + 1, skipping, skip)
    ensures es[i].key.sequence <= s ==> es[i].key.user == skip
  {}

  lemma AnyTombstone(es: seq<Entry>, s: nat, range: Range, i: nat, skipping: bool, skip: UserKey)
    requires Sorted(es) && Unique(Members(es))
    requires Scanned(es, s, range, i, skipping, skip) && i < |es|
    requires es[i].key.sequence <= s && es[i].key.kind.Deletion?
    ensures Scanned(es, s, range, i + 1, true, es[i].key.user)
  {
    if skipping && es[i].key.user <= skip {
      PassOver(es, s, range, i, skipping, skip);
    } else {
      FirstTombstone(es, s, range, i, skipping, skip);
    }
  }

  lemma ScannedAll(es: seq<Entry>, s: nat, range: Range, skipping: bool, skip: UserKey)
    requires Sorted(es) && Unique(Members(es))
    requires Scanned(es, s, range, |es|, skipping, skip)
    ensures IsLeastLive(es, s, range, None)
  {
    forall k | In(range, k)
      ensures !Live(es, s, k)
    {
      if Live(es, s, k) {
        var i := LiveHasNewest(es, s, k);
      }
    }
  }

  // ---- Scanning backwards ----

  /** The newest visible entry of `k` is at or before `p`. */
  ghost predicate NewestUpTo(es: seq<Entry>, s: nat, p: int, k: UserKey) {
    exists i :: 0 <= i <= p && NewestAt(es, s, i) && es[i].key.user == k
  }

  /** Index `i` is the last visible entry examined, and offers `key` with `value`. */
  ghost predicate Offers(es: seq<Entry>, s: nat, p: int, i: int, key: UserKey, value: Value) {
    && -1 <= p < i < |es|
    && es[i] == Entry(InternalKey(key, es[i].key.sequence, Put), value) && es[i].key.sequence <= s
    && forall j :: p < j < i ==> es[j].key.sequence > s
  }

  /** The entries after `p` have been examined. */
  ghost predicate ScannedBack(es: seq<Entry>, s: nat, range: Range, p: int, kind: Kind, key: Option<UserKey>, value: Value) {
    && -1 <= p < |es|
    && (forall i :: 0 <= i <= p ==> In(range, es[i].key.user))
    && (kind.Put? ==> key.Some? && In(range, key.value) && exists i :: Offers(es, s, p, i, key.value, value))
    && forall k :: In(range, k) && Live(es, s, k) ==> NewestUpTo(es, s, p, k) || (kind.Put? && key == Some(k))
  }

  /** Every entry with a user key below `k` that is visible at `s` is at or before `p`, and all
      entries there have such keys; `p` is |es| when no entry is. */
  ghost predicate JustBefore(es: seq<Entry>, s: nat, p: nat, k: UserKey) {
    forall i :: 0 <= i < |es| ==>
      if p < |es| && i <= p then es[i].key.user < k
      else es[i].key.user >= k || es[i].key.sequence > s
  }

  lemma BackInvisible(es: seq<Entry>, s: nat, range: Range, p: nat, kind: Kind, key: Option<UserKey>, value: Value)
    requires ScannedBack(es, s, range, p, kind, key, value) && es[p].key.sequence > s
    ensures ScannedBack(es, s, range, p - 1, kind, key, value)
  {
    if kind.Put? {
      var i :| Offers(es, s, p, i, key.value, value);
      assert Offers(es, s, p - 1, i, key.value, value);
    }
    forall k | NewestUpTo(es, s, p, k)
      ensures NewestUpTo(es, s, p - 1, k)
    {
      var i :| 0 <= i <= p && NewestAt(es, s, i) && es[i].key.user == k;
      assert i != p;
    }
  }

  /** A visible entry that does not end the scan belongs to the pending key, if there is one. */
  lemma SameKeyAhead(es: seq<Entry>, s: nat, range: Range, p: nat, kind: Kind, key: Option<UserKey>, value: Value)
    requires Sorted(es) && ScannedBack(es, s, range, p, kind, key, value)
    requires kind.Put? ==> es[p].key.user >= key.value
    ensures kind.Put? ==> es[p].key.user == key.value
  {
    if kind.Put? {
      var i :| Offers(es, s, p, i, key.value, value);
      UserOrder(es, p, i);
    }
  }

  lemma BackVisible(es: seq<Entry>, s: nat, range: Range, p: nat, kind: Kind, key: Option<UserKey>, value: Value)
    requires Sorted(es) && Unique(Members(es))
    requires ScannedBack(es, s, range, p, kind, key, value) && es[p].key.sequence <= s
    requires kind.Put? ==> es[p].key.user >= key.value
    ensures es[p].key.kind.Deletion? ==> ScannedBack(es, s, range, p - 1, Deletion, None, "")
    ensures es[p].key.kind.Put? ==> ScannedBack(es, s, range, p - 1, Put, Some(es[p].key.user), es[p].value)
  {
    var u := es[p].key.user;
    SameKeyAhead(es, s, range, p, kind, key, value);
    forall k | In(range, k) && Live(es, s, k)
      ensures NewestUpTo(es, s, p - 1, k) || (es[p].key.kind.Put? && k == u)
    {
      var m := LiveHasNewest(es, s, k);
      if k != u {
        var i :| 0 <= i <= p && NewestAt(es, s, i) && es[i].key.user == k;
        assert i != p;
      } else {
        assert m <= p;
        assert m == p ==> es[p].key.kind.Put?;
      }
    }
    if es[p].key.kind.Put? {
      assert Offers(es, s, p - 1, p, u, es[p].value);
    }
  }

  /** The scan has settled: the pending key is the greatest live one. */
  lemma BackFound(es: seq<Entry>, s: nat, range: Range, p: int, key: UserKey, value: Value)
    requires Sorted(es) && Unique(Members(es))
    requires ScannedBack(es, s, range, p, Put, Some(key), value)
    requires p >= 0 ==> es[p].key.user < key
    ensures View(Members(es), key, s) == Some(value)
    ensures IsGreatestLive(es, s, range, Some(key))
    ensures JustBefore(es, s, if p >= 0 then p else |es|, key)
  {
    var i :| Offers(es, s, p, i, key, value);
    OfferSplits(es, s, p, i, key, value);
    NewestAtView(es, s, i);
    forall k | In(range, k) && Live(es, s, k) && NewestUpTo(es, s, p, k)
      ensures k < key
    {
      var m :| 0 <= m <= p && NewestAt(es, s, m) && es[m].key.user == k;
    }
  }

  lemma OfferSplits(es: seq<Entry>, s: nat, p: int, i: int, key: UserKey, value: Value)
    requires Sorted(es) && Offers(es, s, p, i, key, value)
    requires p >= 0 ==> es[p].key.user < key
    ensures forall j :: 0 <= j <= p ==> es[j].key.user < key
    ensures forall j :: i <= j < |es| ==> es[j].key.user >= key
    ensures NewestAt(es, s, i)
  {
    forall j | 0 <= j <= p
      ensures es[j].key.user < key
    {
      UserOrder(es, j, p);
    }
    forall j | i <= j < |es|
      ensures es[j].key.user >= key
    {
      UserOrder(es, i, j);
    }
  }

  /** Scanned at the place of the inner iterator. */
  ghost predicate Scanning(es: seq<Entry>, s: nat, range: Range, pos: nat, skipping: bool, skip: UserKey) {
    forall i: nat {:trigger Scanned(es, s, range, i, skipping, skip)} :: i == pos ==> Scanned(es, s, range, i, skipping, skip)
  }

  lemma StepForward(es: seq<Entry>, s: nat, range: Range, pos: nat, skipping: bool, skip: UserKey)
    requires Sorted(es) && Unique(Members(es)) && pos < |es| && Scanning(es, s, range, pos, skipping, skip)
    ensures var key := es[pos].key;
      if key.sequence <= s && key.kind.Deletion? then Scanning(es, s, range, pos + 1, true, key.user)
      else if key.sequence > s || (skipping && key.user <= skip) then Scanning(es, s, range, pos + 1, skipping, skip)
      else NewestAt(es, s, pos) && IsLeastLive(es, s, range, Some(key.user))
  {
    var key := es[pos].key;
    assert Scanned(es, s, range, pos, skipping, skip);
    if key.sequence <= s && key.kind.Deletion? {
      AnyTombstone(es, s, range, pos, skipping, skip);
    } else if key.sequence > s || (skipping && key.user <= skip) {
      PassOver(es, s, range, pos, skipping, skip);
    } else {
      FirstVisible(es, s, range, pos, skipping, skip);
      FirstValue(es, s, range, pos, skipping, skip);
    }
  }

  /** ScannedBack at the place of the inner iterator. */
  ghost predicate ScanningBack(es: seq<Entry>, s: nat, range: Range, pos: nat, kind: Kind, key: Option<UserKey>, value: Value) {
    forall p: int {:trigger ScannedBack(es, s, range, p, kind, key, value)} :: p == (if pos < |es| then pos else -1) ==> ScannedBack(es, s, range, p, kind, key, value)
  }

  lemma StepBack(es: seq<Entry>, s: nat, range: Range, pos: nat, kind: Kind, key: Option<UserKey>, value: Value)
    requires Sorted(es) && Unique(Members(es)) && pos < |es| && ScanningBack(es, s, range, pos, kind, key, value)
    ensures var after := if pos == 0 then |es| else pos - 1;
      if es[pos].key.sequence > s then ScanningBack(es, s, range, after, kind, key, value)
      else kind.Put? ==> key.Some? && (es[pos].key.user >= key.value ==> Settled(es, s, range, pos, after))
    ensures es[pos].key.sequence <= s && kind.Deletion? ==> Settled(es, s, range, pos, if pos == 0 then |es| else pos - 1)
  {
    assert ScannedBack(es, s, range, pos, kind, key, value);
    if es[pos].key.sequence > s {
      BackInvisible(es, s, range, pos, kind, key, value);
    } else if kind.Put? ==> es[pos].key.user >= key.value {
      BackVisible(es, s, range, pos, kind, key, value);
    }
  }

  /** The visible entry at `pos` has become the pending one, unless it is a tombstone. */
  ghost predicate Settled(es: seq<Entry>, s: nat, range: Range, pos: nat, after: nat)
    requires pos < |es|
  {
    var e := es[pos];
    if e.key.kind.Deletion? then ScanningBack(es, s, range, after, Deletion, None, "") else ScanningBack(es, s, range, after, Put, Some(e.key.user), e.value)
  }

  datatype Direction = Forward | Reverse

  class DBIter {
    const entries: seq<Entry>
    const sequence: nat
    /** The inner iterator: an index, or |entries| when it is not valid. */
    var pos: nat
    var direction: Direction
    var valid: bool
    var savedKey: Option<UserKey>
    var savedValue: Value

    ghost predicate Inv()
      reads this
    {
      && Sorted(entries) && Unique(Members(entries)) && pos <= |entries|
      && (valid && direction.Forward? ==> NewestAt(entries, sequence, pos) && entries[pos].key.kind.Put?)
      && (valid && direction.Reverse? ==> savedKey.Some? && View(Members(entries), savedKey.value, sequence) == Some(savedValue) && JustBefore(entries, sequence, pos, savedKey.value))
    }

    function Key(): UserKey
      requires Inv() && valid
      reads this
    {
      if direction.Forward? then entries[pos].key.user else savedKey.value
    }

    /** The value a reader at this snapshot sees for the current key. */
    function Value(): (v: Value)
      requires Inv() && valid
      reads this
      ensures View(Members(entries), Key(), sequence) == Some(v)
    {
      if direction.Forward? then NewestAtView(entries, sequence, pos); entries[pos].value else savedValue
    }

    ghost function Position(): Option<UserKey>
      requires Inv()
      reads this
    {
      if valid then Some(Key()) else None
    }

    constructor (es: seq<Entry>, s: nat)
      requires Sorted(es) && Unique(Members(es))
      ensures Inv() && !valid && entries == es && sequence == s
    {
      entries, sequence := es, s;
      pos, direction, valid, savedKey, savedValue := |es|, Forward, false, None, "";
    }

    method FindNextUserEntry(skipping0: bool, skip0: UserKey, ghost range: Range)
      requires Inv() && pos < |entries| && direction == Forward && !range.Below?
      requires Scanned(entries, sequence, range, pos, skipping0, skip0)
      modifies `pos, `valid, `savedKey
      ensures Inv() && IsLeastLive(entries, sequence, range, Position())
    {
      var skipping, skip := skipping0, skip0;
      while pos < |entries|
        invariant pos <= |entries| && Scanning(entries, sequence, range, pos, skipping, skip)
      {
        var key := entries[pos].key;
        StepForward(entries, sequence, range, pos, skipping, skip);
        if key.sequence <= sequence {
          if key.kind.Deletion? {
            skip := key.user;
            skipping := true;
          } else if !(skipping && key.user <= skip) {
            valid := true;
            savedKey := None;
            return;
          }
        }
        pos := pos + 1;
      }
      savedKey := None;
      valid := false;
      assert Scanned(entries, sequence, range, pos, skipping, skip);
      ScannedAll(entries, sequence, range, skipping, skip);
    }

    /** DBIter::Next: to the next live key, whichever way the iterator was moving. */
    method Next()
      requires Inv() && valid
      modifies this
      ensures Inv() && IsLeastLive(entries, sequence, Above(old(Key())), Position())
    {
      ghost var k := Key();
      if direction == Reverse {
        direction := Forward;
        ghost var before := pos;
        pos := if pos >= |entries| then 0 else pos + 1;
        // The entries of the current key lie ahead, so the inner iterator is valid here.
        NextFromReverse(entries, sequence, before, k);
      } else {
        savedKey := Some(entries[pos].key.user);
        NextFromCurrent(entries, sequence, pos);
      }
      valid := false;
      FindNextUserEntry(true, savedKey.value, Above(k));
    }

    method Seek(target: UserKey)
      requires Inv()
      modifies this
      ensures Inv() && IsLeastLive(entries, sequence, AtLeast(target), Position())
    {
      direction := Forward;
      savedValue, savedKey := "", None;
      pos := Keys.Seek(entries, SeekKey(target, sequence));
      valid := false;
      SeekScanned(entries, sequence, target);
      if pos < |entries| {
        FindNextUserEntry(false, 0, AtLeast(target));
      } else {
        ScannedAll(entries, sequence, AtLeast(target), false, 0);
      }
    }

    method SeekToFirst()
      requires Inv()
      modifies this
      ensures Inv() && IsLeastLive(entries, sequence, All, Position())
    {
      direction := Forward;
      savedValue := "";
      pos := 0;
      valid := false;
      if pos < |entries| {
        FindNextUserEntry(false, 0, All);
      } else {
        ScannedAll(entries, sequence, All, false, 0);
      }
    }

    method FindPrevUserEntry(ghost range: Range)
      requires Inv() && direction == Reverse && !valid
      requires ScannedBack(entries, sequence, range, if pos < |entries| then pos else -1, Deletion, None, "")
      modifies this
      ensures Inv() && IsGreatestLive(entries, sequence, range, Position())
    {
      var valueType := Deletion;
      ghost var key: Option<UserKey>, value: Value := None, "";
      while pos < |entries|
        invariant Inv() && direction == Reverse && !valid
        invariant ScanningBack(entries, sequence, range, pos, valueType, key, value)
        invariant valueType.Put? ==> savedKey == key && savedValue == value
        decreases if pos < |entries| then pos + 1 else 0
      {
        var e := entries[pos];
        StepBack(entries, sequence, range, pos, valueType, key, value);
        if e.key.sequence <= sequence {
          if valueType != Deletion && e.key.user < savedKey.value {
            break;
          }
          valueType := e.key.kind;
          if valueType == Deletion {
            savedKey, savedValue := None, "";
            key, value := None, "";
          } else {
            savedKey, savedValue := Some(e.key.user), e.value;
            key, value := savedKey, savedValue;
          }
        }
        pos := if pos == 0 then |entries| else pos - 1;
      }
      ghost var p: int := if pos < |entries| then pos else -1;
      assert ScannedBack(entries, sequence, range, p, valueType, key, value);
      if valueType == Deletion {
        valid := false;
        savedKey, savedValue := None, "";
        direction := Forward;
      } else {
        BackFound(entries, sequence, range, p, savedKey.value, savedValue);
        valid := true;
      }
    }

    /** The direction switch of DBIter::Prev: scan backwards until the key changes. */
    method LeaveCurrent(k: UserKey) returns (found: bool)
      requires Sorted(entries) && pos < |entries| && entries[pos].key.user == k
      modifies `pos
      ensures found ==> pos < |entries| && entries[pos].key.user < k && forall i :: pos < i < |entries| ==> entries[i].key.user >= k
      ensures !found ==> pos == |entries| && forall i :: 0 <= i < |entries| ==> entries[i].key.user >= k
    {
      FromHere(entries, pos);
      while true
        invariant pos < |entries|
        invariant forall i :: pos <= i < |entries| ==> entries[i].key.user >= k
        decreases pos
      {
        if pos == 0 {
          pos := |entries|;
          return false;
        }
        pos := pos - 1;
        if entries[pos].key.user < k {
          return true;
        }
      }
    }

    /** DBIter::Prev: to the previous live key, whichever way the iterator was moving. */
    method Prev()
      requires Inv() && valid
      modifies this
      ensures Inv() && IsGreatestLive(entries, sequence, Below(old(Key())), Position())
    {
      ghost var k := Key();
      if direction == Forward {
        savedKey := Some(entries[pos].key.user);
        var found := LeaveCurrent(savedKey.value);
        if !found {
          valid := false;
          savedKey, savedValue := None, "";
          NoneBelow(entries, sequence, k);
          return;
        }
        direction := Reverse;
      }
      valid := false;
      PrevScanned(entries, sequence, pos, k);
      FindPrevUserEntry(Below(k));
    }

    method SeekToLast()
      requires Inv()
      modifies this
      ensures Inv() && IsGreatestLive(entries, sequence, All, Position())
    {
      direction := Reverse;
      savedValue := "";
      pos := if entries == [] then 0 else |entries| - 1;
      valid := false;
      LastScanned(entries, sequence);
      FindPrevUserEntry(All);
    }
  }

  /** Moving on from the current entry skips the rest of its key. */
  lemma NextFromCurrent(es: seq<Entry>, s: nat, i: nat)
    requires Sorted(es) && NewestAt(es, s, i)
    ensures Scanned(es, s, Above(es[i].key.user), i, true, es[i].key.user)
  {
    var k := es[i].key.user;
    forall j | 0 <= j < |es|
      ensures j < i ==> es[j].key.user <= k
      ensures j >= i ==> es[j].key.user >= k
    {
      if j < i { UserOrder(es, j, i); } else { UserOrder(es, i, j); }
    }
  }

  /** Stepping forward from just before the entries of `k`. */
  lemma NextFromReverse(es: seq<Entry>, s: nat, p: nat, k: UserKey)
    requires Sorted(es) && Unique(Members(es)) && p <= |es| && JustBefore(es, s, p, k) && Live(es, s, k)
    ensures (if p < |es| then p + 1 else 0) < |es|
    ensures Scanned(es, s, Above(k), if p < |es| then p + 1 else 0, true, k)
  {
    var m := LiveHasNewest(es, s, k);
  }

  lemma SeekScanned(es: seq<Entry>, s: nat, target: UserKey)
    requires Sorted(es)
    ensures Scanned(es, s, AtLeast(target), Seek(es, SeekKey(target, s)), false, 0)
  {
    var p := Seek(es, SeekKey(target, s));
    forall j | p <= j < |es|
      ensures es[j].key.user >= target
    {
      UserOrder(es, p, j);
    }
  }

  lemma FromHere(es: seq<Entry>, i: nat)
    requires Sorted(es) && i < |es|
    ensures forall j :: i <= j < |es| ==> es[j].key.user >= es[i].key.user
  {
    forall j | i <= j < |es| ensures es[j].key.user >= es[i].key.user { UserOrder(es, i, j); }
  }

  lemma NoneBelow(es: seq<Entry>, s: nat, k: UserKey)
    requires Sorted(es) && Unique(Members(es))
    requires forall i :: 0 <= i < |es| ==> es[i].key.user >= k
    ensures IsGreatestLive(es, s, Below(k), None)
  {
    forall x | In(Below(k), x)
      ensures !Live(es, s, x)
    {
      if Live(es, s, x) { var i := LiveHasNewest(es, s, x); }
    }
  }

  lemma PrevScanned(es: seq<Entry>, s: nat, p: nat, k: UserKey)
    requires Sorted(es) && Unique(Members(es)) && p <= |es|
    requires JustBefore(es, s, p, k) || (p < |es| && es[p].key.user < k && forall i :: p < i < |es| ==> es[i].key.user >= k)
    ensures ScannedBack(es, s, Below(k), if p < |es| then p else -1, Deletion, None, "")
  {
    forall i | 0 <= i <= p < |es|
      ensures es[i].key.user < k
    {
      UserOrder(es, i, p);
    }
    forall x | In(Below(k), x) && Live(es, s, x)
      ensures NewestUpTo(es, s, if p < |es| then p else -1, x)
    {
      var i := LiveHasNewest(es, s, x);
    }
  }

  lemma LastScanned(es: seq<Entry>, s: nat)
    requires Sorted(es) && Unique(Members(es))
    ensures ScannedBack(es, s, All, |es| - 1, Deletion, None, "")
  {
    forall x | Live(es, s, x)
      ensures NewestUpTo(es, s, |es| - 1, x)
    {
      var i := LiveHasNewest(es, s, x);
    }
  }

  // ---- Whole traversals ----

  /** Keys met by SeekToFirst and then Next until the iterator is no longer valid. */
  ghost predicate ForwardWalk(es: seq<Entry>, s: nat, keys: seq<UserKey>) {
    if keys == [] then IsLeastLive(es, s, All, None)
    else
      && IsLeastLive(es, s, All, Some(keys[0]))
      && (forall i :: 0 <= i < |keys| - 1 ==> IsLeastLive(es, s, Above(keys[i]), Some(keys[i + 1])))
      && IsLeastLive(es, s, Above(keys[|keys| - 1]), None)
  }

  lemma WalkIncreases(keys: seq<UserKey>, es: seq<Entry>, s: nat)
    requires keys != [] && ForwardWalk(es, s, keys)
    ensures forall i, j :: 0 <= i < j < |keys| ==> keys[i] < keys[j]
  {
    forall i | 0 <= i < |keys| - 1
      ensures keys[i] < keys[i + 1]
    {
      assert IsLeastLive(es, s, Above(keys[i]), Some(keys[i + 1]));
    }
    StepsIncrease(keys);
  }

  lemma {:induction false} StepsIncrease(keys: seq<UserKey>)
    requires forall i :: 0 <= i < |keys| - 1 ==> keys[i] < keys[i + 1]
    ensures forall i, j :: 0 <= i < j < |keys| ==> keys[i] < keys[j]
  {
    if keys != [] {
      var init := keys[..|keys| - 1];
      StepsIncrease(init);
      forall i, j | 0 <= i < j < |keys|
        ensures keys[i] < keys[j]
      {
        if j == |keys| - 1 && i < j - 1 {
          assert init[i] < init[j - 1];
        } else if j < |keys| - 1 {
          assert init[i] < init[j];
        }
      }
    }
  }

  /** A forward walk meets every live key exactly once, in increasing order. */
  lemma ForwardWalkIsLiveMap(es: seq<Entry>, s: nat, keys: seq<UserKey>)
    requires ForwardWalk(es, s, keys)
    ensures forall i, j :: 0 <= i < j < |keys| ==> keys[i] < keys[j]
    ensures forall k :: k in keys <==> Live(es, s, k)
  {
    if keys != [] {
      WalkIncreases(keys, es, s);
      forall k | Live(es, s, k)
        ensures k in keys
      {
        assert In(Above(keys[|keys| - 1]), k) <==> keys[|keys| - 1] < k;
        var i := 0;
        while i < |keys| - 1 && keys[i] < k
          invariant 0 <= i < |keys|
          invariant i > 0 ==> keys[i - 1] < k
        {
          i := i + 1;
        }
        if i > 0 {
          assert IsLeastLive(es, s, Above(keys[i - 1]), Some(keys[i - 1 + 1]));
        }
      }
      forall k | k in keys
        ensures Live(es, s, k)
      {
        var i :| 0 <= i < |keys| && keys[i] == k;
        if i > 0 { assert IsLeastLive(es, s, Above(keys[i - 1]), Some(keys[i - 1 + 1])); }
      }
    }
  }

  /** Next and Prev move by exactly one live key, so each undoes the other. */
  lemma NextAndPrevAreInverse(es: seq<Entry>, s: nat, a: UserKey, b: UserKey)
    requires Live(es, s, a) && Live(es, s, b)
    ensures IsLeastLive(es, s, Above(a), Some(b)) <==> IsGreatestLive(es, s, Below(b), Some(a))
  {
    if IsLeastLive(es, s, Above(a), Some(b)) {
      forall k | In(Below(b), k) && Live(es, s, k)
        ensures k <= a
      {
        assert In(Above(a), k) <==> a < k;
      }
    }
    if IsGreatestLive(es, s, Below(b), Some(a)) {
      forall k | In(Above(a), k) && Live(es, s, k)
        ensures b <= k
      {
        assert In(Below(b), k) <==> k < b;
      }
    }
  }

  /** Keys met by SeekToLast and then Prev until the iterator is no longer valid. */
  ghost predicate BackwardWalk(es: seq<Entry>, s: nat, keys: seq<UserKey>) {
    if keys == [] then IsGreatestLive(es, s, All, None)
    else
      && IsGreatestLive(es, s, All, Some(keys[0]))
      && (forall i :: 0 <= i < |keys| - 1 ==> IsGreatestLive(es, s, Below(keys[i]), Some(keys[i + 1])))
      && IsGreatestLive(es, s, Below(keys[|keys| - 1]), None)
  }

  function Reversed(keys: seq<UserKey>): (r: seq<UserKey>)
    ensures |r| == |keys|
  {
    seq(|keys|, i requires 0 <= i < |keys| => keys[|keys| - 1 - i])
  }

  /** Nothing live lies above the last key, and nothing below the first. */
  lemma Ends(es: seq<Entry>, s: nat, k: UserKey)
    requires Live(es, s, k)
    ensures IsLeastLive(es, s, Above(k), None) <==> IsGreatestLive(es, s, All, Some(k))
    ensures IsGreatestLive(es, s, Below(k), None) <==> IsLeastLive(es, s, All, Some(k))
  {
    forall j | Live(es, s, j)
      ensures IsLeastLive(es, s, Above(k), None) ==> j <= k
      ensures IsGreatestLive(es, s, Below(k), None) ==> k <= j
    {
      assert In(Above(k), j) <==> k < j;
      assert In(Below(k), j) <==> j < k;
    }
    forall j
      ensures IsGreatestLive(es, s, All, Some(k)) && In(Above(k), j) ==> !Live(es, s, j)
      ensures IsLeastLive(es, s, All, Some(k)) && In(Below(k), j) ==> !Live(es, s, j)
    {
      assert In(All, j);
    }
  }

  lemma WalksAreLive(es: seq<Entry>, s: nat, keys: seq<UserKey>, i: nat)
    requires (ForwardWalk(es, s, keys) || BackwardWalk(es, s, keys)) && i < |keys|
    ensures Live(es, s, keys[i])
  {
    if i > 0 {
      if ForwardWalk(es, s, keys) {
        assert IsLeastLive(es, s, Above(keys[i - 1]), Some(keys[i - 1 + 1]));
      } else {
        assert IsGreatestLive(es, s, Below(keys[i - 1]), Some(keys[i - 1 + 1]));
      }
    }
  }

  /** Walking backward meets the same keys in the opposite order. */
  lemma BackwardWalkIsReverse(es: seq<Entry>, s: nat, keys: seq<UserKey>)
    ensures BackwardWalk(es, s, keys) <==> ForwardWalk(es, s, Reversed(keys))
  {
    var back, n := Reversed(keys), |keys|;
    if n > 0 && (BackwardWalk(es, s, keys) || ForwardWalk(es, s, back)) {
      forall i | 0 <= i < n
        ensures Live(es, s, keys[i])
      {
        if BackwardWalk(es, s, keys) {
          WalksAreLive(es, s, keys, i);
        } else {
          WalksAreLive(es, s, back, n - 1 - i);
        }
      }
      Ends(es, s, keys[0]);
      Ends(es, s, keys[n - 1]);
      forall i | 0 <= i < n - 1
        ensures IsGreatestLive(es, s, Below(keys[i]), Some(keys[i + 1])) <==> IsLeastLive(es, s, Above(back[n - 2 - i]), Some(back[n - 2 - i + 1]))
      {
        NextAndPrevAreInverse(es, s, keys[i + 1], keys[i]);
      }
      WalkSteps(es, s, keys, back);
    }
  }

  lemma WalkSteps(es: seq<Entry>, s: nat, keys: seq<UserKey>, back: seq<UserKey>)
    requires |keys| == |back| > 0
    requires forall i :: 0 <= i < |keys| - 1 ==> (IsGreatestLive(es, s, Below(keys[i]), Some(keys[i + 1])) <==> IsLeastLive(es, s, Above(back[|keys| - 2 - i]), Some(back[|keys| - 2 - i + 1])))
    ensures (forall i :: 0 <= i < |keys| - 1 ==> IsGreatestLive(es, s, Below(keys[i]), Some(keys[i + 1])))
       <==> (forall i :: 0 <= i < |keys| - 1 ==> IsLeastLive(es, s, Above(back[i]), Some(back[i + 1])))
  {
    var n := |keys|;
    if forall i :: 0 <= i < n - 1 ==> IsGreatestLive(es, s, Below(keys[i]), Some(keys[i + 1])) {
      forall i | 0 <= i < n - 1
        ensures IsLeastLive(es, s, Above(back[i]), Some(back[i + 1]))
      {
        var j := n - 2 - i;
        assert IsGreatestLive(es, s, Below(keys[j]), Some(keys[j + 1]));
      }
    }
  }

  /** So it meets every live key exactly once, in decreasing order. */
  lemma BackwardWalkIsLiveMap(es: seq<Entry>, s: nat, keys: seq<UserKey>)
    requires BackwardWalk(es, s, keys)
    ensures forall i, j :: 0 <= i < j < |keys| ==> keys[j] < keys[i]
    ensures forall k :: k in keys <==> Live(es, s, k)
  {
    var back, n := Reversed(keys), |keys|;
    BackwardWalkIsReverse(es, s, keys);
    ForwardWalkIsLiveMap(es, s, back);
    forall i | 0 <= i < n
      ensures keys[i] == back[n - 1 - i]
    {}
    forall k
      ensures k in keys <==> k in back
    {
      if k in keys {
        var i :| 0 <= i < n && keys[i] == k;
        assert back[n - 1 - i] == k;
      }
    }
  }
}
