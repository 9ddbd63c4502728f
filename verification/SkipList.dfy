/** The skip list under the memtable: one writer, and readers between any two of its stores. */
module SkipLists {
  import opened Keys

  type Key = int
  /** A node is its index in the arena; nodes are never freed, and node 0 is the head. */
  type Node = nat
  type Link = Option<Node>

  const HEAD: Node := 0
  const MAX_HEIGHT: nat := 12

  /** The pointers in memory: keys[n] is meaningless for the head, and |next[n]| is the height. */
  datatype List = List(keys: seq<Key>, next: seq<seq<Link>>, maxHeight: nat)

  function SetNext(s: List, n: Node, level: nat, to: Link): List
    requires n < |s.next| && level < |s.next[n]|
  {
    s.(next := s.next[n := s.next[n][level := to]])
  }

  /** The head comes before every key. */
  predicate Before(s: List, n: Node, key: Key)
    requires n < |s.keys|
  {
    n == HEAD || s.keys[n] < key
  }

  ghost predicate Nodes(s: List, on: set<Node>, level: nat) {
    && |s.next| == |s.keys| && s.keys != [] && |s.next[HEAD]| == MAX_HEIGHT
    && forall n <- on :: 0 < n < |s.keys| && level < |s.next[n]|
  }

  /** `to` is the earliest node of `on` after n, if there is one. */
  ghost predicate IsNext(s: List, on: set<Node>, n: Node, to: Link)
    requires n < |s.keys| && forall z <- on :: z < |s.keys|
  {
    match to
    case None => forall z <- on :: !Before(s, n, s.keys[z])
    case Some(y) => y in on && Before(s, n, s.keys[y]) && forall z <- on :: Before(s, n, s.keys[z]) ==> s.keys[y] <= s.keys[z]
  }

  /** The list at `level` runs through the nodes `on`, in increasing order of their keys. */
  ghost predicate LevelOk(s: List, on: set<Node>, level: nat)
    requires level < MAX_HEIGHT
  {
    && Nodes(s, on, level)
    && (forall n :: n in on || n == HEAD ==> IsNext(s, on, n, s.next[n][level]))
  }

  ghost predicate Distinct(s: List, on: set<Node>)
    requires forall z <- on :: z < |s.keys|
  {
    forall a, b :: a in on && b in on && s.keys[a] == s.keys[b] ==> a == b
  }

  /** Fewer nodes from level to level, and none at the unused levels. */
  ghost predicate Shape(s: List, on: seq<set<Node>>) {
    && |on| == MAX_HEIGHT && 1 <= s.maxHeight <= MAX_HEIGHT
    && (forall l, m :: 0 <= l < m < MAX_HEIGHT ==> on[m] <= on[l])
    && (forall l :: s.maxHeight <= l < MAX_HEIGHT ==> on[l] == {})
  }

  ghost predicate AllLevels(s: List, on: seq<set<Node>>) {
    |on| == MAX_HEIGHT && forall l :: 0 <= l < MAX_HEIGHT ==> LevelOk(s, on[l], l)
  }

  /** `on` gives the nodes linked at each level. */
  ghost predicate Ok(s: List, on: seq<set<Node>>) {
    Shape(s, on) && AllLevels(s, on) && (assert LevelOk(s, on[0], 0); Distinct(s, on[0]))
  }

  ghost function KeysOf(s: List, on: set<Node>): set<Key>
    requires forall z <- on :: z < |s.keys|
  {
    set z <- on :: s.keys[z]
  }

  // ---- Searching ----

  /** p is the last node of `on` before `key`, or the head. */
  ghost predicate IsPrev(s: List, on: set<Node>, key: Key, p: Node)
    requires forall z <- on :: z < |s.keys|
  {
    && (p == HEAD || p in on) && p < |s.keys| && Before(s, p, key)
    && forall z <- on :: s.keys[z] < key ==> !Before(s, p, s.keys[z])
  }

  /** `to` is the earliest node of `on` at or after `key`. */
  ghost predicate IsFirstFrom(s: List, on: set<Node>, key: Key, to: Link)
    requires forall z <- on :: z < |s.keys|
  {
    match to
    case None => forall z <- on :: s.keys[z] < key
    case Some(y) => y in on && key <= s.keys[y] && forall z <- on :: key <= s.keys[z] ==> s.keys[y] <= s.keys[z]
  }

  ghost predicate LastBefore(s: List, on: seq<set<Node>>, key: Key, level: nat, p: Node) {
    level < |on| == MAX_HEIGHT && LevelOk(s, on[level], level) && IsPrev(s, on[level], key, p)
  }

  /** prev[l] is the last node before `key` on every level l that the search has left. */
  ghost predicate PrevFilled(s: List, on: seq<set<Node>>, key: Key, prev: seq<Node>, level: int) {
    |prev| == MAX_HEIGHT && forall l, p {:trigger LastBefore(s, on, key, l, p)} :: 0 <= l && level < l < s.maxHeight && l < MAX_HEIGHT && p == prev[l] ==> LastBefore(s, on, key, l, p)
  }

  predicate KeyIsAfterNode(s: List, key: Key, to: Link)
    requires to.Some? ==> to.value < |s.keys|
  {
    to.Some? && s.keys[to.value] < key
  }

  /** Where a search stops on a level, its node is the last before the key and the link the first from it. */
  lemma StopOnLevel(s: List, on: set<Node>, level: nat, key: Key, x: Node)
    requires level < MAX_HEIGHT && LevelOk(s, on, level) && (x == HEAD || x in on) && Before(s, x, key)
    requires !KeyIsAfterNode(s, key, s.next[x][level])
    ensures IsPrev(s, on, key, x) && IsFirstFrom(s, on, key, s.next[x][level])
  {
    var to := s.next[x][level];
    assert IsNext(s, on, x, to);
    forall z | z in on
      ensures s.keys[z] < key ==> !Before(s, x, s.keys[z])
      ensures to.Some? && key <= s.keys[z] ==> s.keys[to.value] <= s.keys[z]
      ensures to.None? ==> s.keys[z] < key
    {}
  }

  // ---- Inserting at one level ----

  /** One pointer store: publish node x at a level behind p, x already pointing where p did. */
  lemma Link1(s: List, on: set<Node>, level: nat, p: Node, x: Node)
    requires level < MAX_HEIGHT && LevelOk(s, on, level)
    requires 0 < x < |s.keys| && x !in on && level < |s.next[x]|
    requires IsPrev(s, on, s.keys[x], p) && s.keys[x] !in KeysOf(s, on)
    requires s.next[x][level] == s.next[p][level] && Distinct(s, on)
    ensures LevelOk(SetNext(s, p, level, Some(x)), on + {x}, level)
  {
    var s2 := SetNext(s, p, level, Some(x));
    var on2 := on + {x};
    assert IsNext(s, on, p, s.next[p][level]);
    forall z | z in on
      ensures s.keys[z] != s.keys[x]
    {
      assert s.keys[z] in KeysOf(s, on);
    }
    forall n | n in on2 || n == HEAD
      ensures IsNext(s2, on2, n, s2.next[n][level])
    {
      if n == p {
      } else if n == x {
        LinkNew(s, on, level, p, x);
      } else {
        LinkOther(s, on, level, p, x, n);
      }
    }
  }

  lemma LinkNew(s: List, on: set<Node>, level: nat, p: Node, x: Node)
    requires level < MAX_HEIGHT && LevelOk(s, on, level)
    requires 0 < x < |s.keys| && x !in on && IsPrev(s, on, s.keys[x], p)
    requires forall z <- on :: s.keys[z] != s.keys[x]
    ensures IsNext(SetNext(s, p, level, Some(x)), on + {x}, x, s.next[p][level])
  {
    assert IsNext(s, on, p, s.next[p][level]);
  }

  lemma LinkOther(s: List, on: set<Node>, level: nat, p: Node, x: Node, n: Node)
    requires level < MAX_HEIGHT && LevelOk(s, on, level)
    requires 0 < x < |s.keys| && x !in on && IsPrev(s, on, s.keys[x], p)
    requires forall z <- on :: s.keys[z] != s.keys[x]
    requires (n in on || n == HEAD) && n != p && Distinct(s, on)
    ensures IsNext(SetNext(s, p, level, Some(x)), on + {x}, n, s.next[n][level])
  {
    assert IsNext(s, on, n, s.next[n][level]);
    if Before(s, n, s.keys[x]) {
      NotLastBefore(s, on, n, p, s.keys[x]);
    }
  }

  lemma NotLastBefore(s: List, on: set<Node>, n: Node, p: Node, key: Key)
    requires forall z <- on :: z < |s.keys|
    requires Distinct(s, on) && IsPrev(s, on, key, p) && (n in on || n == HEAD) && n != p && n < |s.keys| && Before(s, n, key)
    ensures p in on && Before(s, n, s.keys[p])
  {
    if n != HEAD {
      assert !Before(s, p, s.keys[n]);
    } 
  }

  // ---- Single steps of the writer ----

  /** Everything linked stays linked, and nodes keep their keys. */
  ghost predicate Grown(s: List, on: seq<set<Node>>, s2: List, on2: seq<set<Node>>) {
    && |on| == |on2| == MAX_HEIGHT && s.keys <= s2.keys
    && forall l :: 0 <= l < MAX_HEIGHT ==> on[l] <= on2[l]
  }

  lemma LevelUnchanged(s: List, s2: List, on: set<Node>, level: nat)
    requires level < MAX_HEIGHT && LevelOk(s, on, level)
    requires s.keys <= s2.keys && |s2.next| == |s2.keys| && |s2.next[HEAD]| == MAX_HEIGHT
    requires forall n :: n in on || n == HEAD ==> level < |s2.next[n]| && s2.next[n][level] == s.next[n][level]
    ensures LevelOk(s2, on, level)
  {
    forall n | n in on || n == HEAD
      ensures IsNext(s2, on, n, s2.next[n][level])
    {
      assert IsNext(s, on, n, s.next[n][level]);
    }
  }

  function Allocated(s: List, key: Key, height: nat): List {
    s.(keys := s.keys + [key], next := s.next + [seq(height, _ => None)])
  }

  lemma AllocateOk(s: List, on: seq<set<Node>>, key: Key, height: nat)
    requires Ok(s, on)
    ensures Ok(Allocated(s, key, height), on) && Grown(s, on, Allocated(s, key, height), on)
    ensures KeysOf(Allocated(s, key, height), on[0]) == KeysOf(s, on[0])
  {
    var s2 := Allocated(s, key, height);
    forall l | 0 <= l < MAX_HEIGHT
      ensures LevelOk(s2, on[l], l)
    {
      assert LevelOk(s, on[l], l);
      LevelUnchanged(s, s2, on[l], l);
    }
    assert LevelOk(s, on[0], 0);
  }

  /** A store into a node that is not linked at that level is seen by nobody. */
  lemma PrivateStoreOk(s: List, on: seq<set<Node>>, x: Node, level: nat, to: Link)
    requires Ok(s, on) && 0 < x < |s.next| && level < |s.next[x]| && level < MAX_HEIGHT && x !in on[level]
    ensures Ok(SetNext(s, x, level, to), on) && Grown(s, on, SetNext(s, x, level, to), on)
  {
    var s2 := SetNext(s, x, level, to);
    forall l | 0 <= l < MAX_HEIGHT
      ensures LevelOk(s2, on[l], l)
    {
      assert LevelOk(s, on[l], l);
      LevelUnchanged(s, s2, on[l], l);
    }
  }

  lemma DistinctAbove(s: List, on: seq<set<Node>>, level: nat)
    requires Ok(s, on) && level < MAX_HEIGHT
    ensures LevelOk(s, on[level], level) && on[level] <= on[0] && Distinct(s, on[level])
  {
    assert LevelOk(s, on[0], 0);
  }

  lemma PublishShape(s: List, on: seq<set<Node>>, x: Node, p: Node, level: nat)
    requires Shape(s, on) && level < s.maxHeight && (forall l :: 0 <= l < level ==> x in on[l])
    requires p < |s.next| && level < |s.next[p]|
    ensures Shape(SetNext(s, p, level, Some(x)), on[level := on[level] + {x}])
    ensures Grown(s, on, SetNext(s, p, level, Some(x)), on[level := on[level] + {x}])
  {}

  lemma PublishDistinct(s: List, on: seq<set<Node>>, x: Node, p: Node, level: nat)
    requires Ok(s, on) && level < s.maxHeight && 0 < x < |s.next|
    requires LevelOk(s, on[level], level) && s.keys[x] !in KeysOf(s, on[level]) && p < |s.next| && level < |s.next[p]|
    ensures forall z <- on[0] :: z < |s.keys|
    ensures Distinct(SetNext(s, p, level, Some(x)), on[level := on[level] + {x}][0])
  {
    assert LevelOk(s, on[0], 0);
    if level == 0 {
      NewKeyDistinct(s, on[0], x);
    }
  }

  lemma PublishLevels(s: List, on: seq<set<Node>>, x: Node, p: Node, level: nat)
    requires Ok(s, on) && level < s.maxHeight && 0 < x < |s.next| && level < |s.next[x]| && x !in on[level]
    requires LevelOk(s, on[level], level) && s.keys[x] !in KeysOf(s, on[level])
    requires IsPrev(s, on[level], s.keys[x], p) && s.next[x][level] == s.next[p][level]
    ensures AllLevels(SetNext(s, p, level, Some(x)), on[level := on[level] + {x}])
  {
    var s2, on2 := SetNext(s, p, level, Some(x)), on[level := on[level] + {x}];
    forall l | 0 <= l < MAX_HEIGHT
      ensures LevelOk(s2, on2[l], l)
    {
      PublishLevel(s, on, x, p, level, l);
    }
  }

  lemma Assemble(s: List, on: seq<set<Node>>)
    requires Shape(s, on) && AllLevels(s, on) && (LevelOk(s, on[0], 0) ==> Distinct(s, on[0]))
    ensures Ok(s, on)
  {
    assert LevelOk(s, on[0], 0);
  }

  /** The store that publishes node x at one level. */
  lemma PublishOk(s: List, on: seq<set<Node>>, x: Node, p: Node, level: nat)
    requires Ok(s, on) && level < s.maxHeight && 0 < x < |s.next| && level < |s.next[x]| && x !in on[level]
    requires forall l :: 0 <= l < level ==> x in on[l]
    requires LevelOk(s, on[level], level) && s.keys[x] !in KeysOf(s, on[level])
    requires IsPrev(s, on[level], s.keys[x], p) && s.next[x][level] == s.next[p][level]
    ensures Ok(SetNext(s, p, level, Some(x)), on[level := on[level] + {x}])
    ensures Grown(s, on, SetNext(s, p, level, Some(x)), on[level := on[level] + {x}])
  {
    PublishShape(s, on, x, p, level);
    PublishDistinct(s, on, x, p, level);
    PublishLevels(s, on, x, p, level);
    Assemble(SetNext(s, p, level, Some(x)), on[level := on[level] + {x}]);
  }

  lemma PublishLevel(s: List, on: seq<set<Node>>, x: Node, p: Node, level: nat, l: nat)
    requires Ok(s, on) && level < s.maxHeight && 0 < x < |s.next| && level < |s.next[x]| && x !in on[level]
    requires LevelOk(s, on[level], level) && s.keys[x] !in KeysOf(s, on[level])
    requires IsPrev(s, on[level], s.keys[x], p) && s.next[x][level] == s.next[p][level] && l < MAX_HEIGHT
    ensures LevelOk(SetNext(s, p, level, Some(x)), if l == level then on[level] + {x} else on[l], l)
  {
    if l == level {
      DistinctAbove(s, on, level);
      Link1(s, on[level], level, p, x);
    } else {
      assert LevelOk(s, on[l], l);
      LevelUnchanged(s, SetNext(s, p, level, Some(x)), on[l], l);
    }
  }

  lemma NewKeyDistinct(s: List, on: set<Node>, x: Node)
    requires x < |s.keys| && forall z <- on :: z < |s.keys|
    requires Distinct(s, on) && s.keys[x] !in KeysOf(s, on)
    ensures Distinct(s, on + {x})
  {
    forall z | z in on
      ensures s.keys[z] != s.keys[x]
    {
      assert s.keys[z] in KeysOf(s, on);
    }
  }

  /** A published node is not before any other level's last node before its key. */
  lemma PrevKept(s: List, s2: List, on: set<Node>, key: Key, p: Node)
    requires s.keys <= s2.keys && (forall z <- on :: z < |s.keys|) && IsPrev(s, on, key, p)
    ensures IsPrev(s2, on, key, p)
  {}

  // ---- A reader among the writer's stores ----

  datatype Reader = Reader(x: Node, level: nat, target: Key)

  ghost predicate ReaderOk(s: List, on: seq<set<Node>>, r: Reader) {
    && |on| == MAX_HEIGHT && r.level < MAX_HEIGHT && r.x < |s.keys|
    && (r.x == HEAD || r.x in on[r.level]) && Before(s, r.x, r.target)
  }

  /** One turn of the loop of FindGreaterOrEqual that does not return. */
  ghost predicate Moves(s: List, r: Reader, r2: Reader) {
    && r.x < |s.next| && r.level < |s.next[r.x]|
    && var to := s.next[r.x][r.level];
    && (to.Some? ==> to.value < |s.keys|)
    && if KeyIsAfterNode(s, r.target, to) then r2 == r.(x := to.value) else r.level > 0 && r2 == r.(level := r.level - 1)
  }

  lemma ReaderMoves(s: List, on: seq<set<Node>>, r: Reader, r2: Reader)
    requires Ok(s, on) && ReaderOk(s, on, r) && Moves(s, r, r2)
    ensures ReaderOk(s, on, r2)
  {
    assert LevelOk(s, on[r.level], r.level);
    assert IsNext(s, on[r.level], r.x, s.next[r.x][r.level]);
  }

  lemma ReaderUndisturbed(s: List, on: seq<set<Node>>, s2: List, on2: seq<set<Node>>, r: Reader)
    requires ReaderOk(s, on, r) && Grown(s, on, s2, on2)
    ensures ReaderOk(s2, on2, r)
  {}

  /** What the memory and the sets of linked nodes are at one moment. */
  datatype Moment = Moment(s: List, on: seq<set<Node>>)

  ghost predicate Consistent(m: Moment) {
    Ok(m.s, m.on)
  }

  ghost predicate Follows(m: Moment, m2: Moment) {
    Grown(m.s, m.on, m2.s, m2.on)
  }

  /** What the writer does to memory at once. */
  datatype Store =
    | Height(height: nat)
    | Allocate(key: Key, tall: nat)
    | Prepare(node: Node, at: nat, to: Link)
    | Splice(prev: Node, at: nat, node: Node)

  /** `st` alone turns m into m2; only a link that publishes a node changes a list. */
  ghost predicate Stores(m: Moment, st: Store, m2: Moment) {
    match st
    case Height(h) => m2 == m.(s := m.s.(maxHeight := h)) && m.s.maxHeight < h
    case Allocate(key, h) => m2 == m.(s := Allocated(m.s, key, h))
    case Prepare(x, l, to) =>
      && x < |m.s.next| && l < |m.s.next[x]| && l < |m.on| && x != HEAD && x !in m.on[l]
      && m2 == m.(s := SetNext(m.s, x, l, to))
    case Splice(p, l, x) =>
      && p < |m.s.next| && l < |m.s.next[p]| && l < |m.on| && (p == HEAD || p in m.on[l]) && x !in m.on[l]
      && m2 == Moment(SetNext(m.s, p, l, Some(x)), m.on[l := m.on[l] + {x}])
  }

  /** Between the two moments there is a single store. */
  ghost predicate OneStore(m: Moment, m2: Moment) {
    exists st: Store :: Stores(m, st, m2)
  }

  ghost predicate StoreByStore(ms: seq<Moment>) {
    forall i, j :: 0 <= i && j == i + 1 < |ms| ==> OneStore(ms[i], ms[j])
  }

  ghost predicate TraceOf(n: nat, ms: seq<Moment>) {
    && n == |ms| && StoreByStore(ms)
    && (forall i :: 0 <= i < |ms| ==> Consistent(ms[i]))
    && (forall i, j :: 0 <= i < j < |ms| ==> Follows(ms[i], ms[j]))
  }

  /** The moments between the stores of a writer: from each a single store leads to the next, and
      each is consistent and grown from those before. */
  ghost predicate Trace(ms: seq<Moment>) {
    forall n: nat :: n == |ms| ==> TraceOf(n, ms)
  }

  lemma StoredOnce(ms: seq<Moment>, m: Moment)
    requires ms != [] && StoreByStore(ms) && OneStore(ms[|ms| - 1], m)
    ensures StoreByStore(ms + [m])
  {}

  lemma TraceGrows(ms: seq<Moment>, m: Moment)
    requires ms != [] && Trace(ms) && Consistent(m) && Follows(ms[|ms| - 1], m) && OneStore(ms[|ms| - 1], m)
    ensures Trace(ms + [m])
  {
    assert TraceOf(|ms|, ms);
    StoredOnce(ms, m);
    var all := ms + [m];
    forall i, j | 0 <= i < j < |all|
      ensures Follows(all[i], all[j])
    {
      if j == |ms| && i < |ms| - 1 {
        assert Follows(ms[i], ms[|ms| - 1]);
      }
    }
  }

  ghost predicate ReadingAt(m: Moment, r: Reader) {
    Consistent(m) && ReaderOk(m.s, m.on, r)
  }

  /** A reader is in the middle of a search. */
  ghost predicate Reading(m: Moment, r: Reader) {
    forall now :: now == r ==> ReadingAt(m, now)
  }

  /** A search may begin at the head on any level, also with an outdated height. */
  lemma SearchBegins(m: Moment, level: nat, target: Key)
    requires Consistent(m) && level < MAX_HEIGHT
    ensures Reading(m, Reader(HEAD, level, target))
  {
    assert LevelOk(m.s, m.on[0], 0);
  }

  ghost predicate StepsTo(m: Moment, r: Reader, m2: Moment, r2: Reader) {
    Consistent(m2) && ((m2 == m && Moves(m.s, r, r2)) || (Follows(m, m2) && r2 == r))
  }

  /** A reader runs while writers store: at each step one of them moves. */
  ghost predicate RunStep(m: Moment, r: Reader, m2: Moment, r2: Reader) {
    forall now :: now == r2 ==> StepsTo(m, r, m2, now)
  }

  ghost predicate ReaderRun(ms: seq<Moment>, rs: seq<Reader>)
    decreases |ms|
  {
    |ms| == |rs| > 0 && (|ms| > 1 ==> RunStep(ms[0], rs[0], ms[1], rs[1]) && ReaderRun(ms[1..], rs[1..]))
  }

  lemma ReadingOn(m: Moment, r: Reader, m2: Moment, r2: Reader)
    requires Reading(m, r) && RunStep(m, r, m2, r2)
    ensures Reading(m2, r2)
  {
    assert ReadingAt(m, r) && StepsTo(m, r, m2, r2);
    if m2 == m && Moves(m.s, r, r2) {
      ReaderMoves(m.s, m.on, r, r2);
    } else {
      ReaderUndisturbed(m.s, m.on, m2.s, m2.on, r);
    }
  }

  /** What a reader that began at `m` knows at `m2`: it missed no key that was there then, and
      if it returns now, it returns the earliest node at or after its target. */
  ghost predicate Informed(m: Moment, r: Reader, m2: Moment, r2: Reader) {
    forall now :: now == r2 ==> InformedOf(m, r, m2, now)
  }

  ghost predicate InformedOf(m: Moment, r: Reader, m2: Moment, r2: Reader) {
    && Consistent(m2) && ReaderOk(m2.s, m2.on, r2) && LevelOk(m2.s, m2.on[0], 0) && Consistent(m) && LevelOk(m.s, m.on[0], 0)
    && r2.target == r.target && KeysOf(m.s, m.on[0]) <= KeysOf(m2.s, m2.on[0])
    && (r2.level == 0 && !KeyIsAfterNode(m2.s, r2.target, m2.s.next[r2.x][0]) ==> IsFirstFrom(m2.s, m2.on[0], r2.target, m2.s.next[r2.x][0]))
  }

  lemma InformedNow(m: Moment, r: Reader)
    requires Reading(m, r)
    ensures Informed(m, r, m, r)
  {
    assert ReadingAt(m, r);
    assert LevelOk(m.s, m.on[0], 0);
    if r.level == 0 {
      assert IsNext(m.s, m.on[0], r.x, m.s.next[r.x][0]);
      if !KeyIsAfterNode(m.s, r.target, m.s.next[r.x][0]) {
        StopOnLevel(m.s, m.on[0], 0, r.target, r.x);
      }
    }
  }

  lemma InformedSince(m: Moment, r: Reader, m1: Moment, r1: Reader, m2: Moment, r2: Reader)
    requires Reading(m, r) && RunStep(m, r, m1, r1) && Informed(m1, r1, m2, r2)
    ensures Informed(m, r, m2, r2)
  {
    assert ReadingAt(m, r) && StepsTo(m, r, m1, r1);
    assert InformedOf(m1, r1, m2, r2);
    assert LevelOk(m.s, m.on[0], 0);
    KeysGrow(m, m1);
  }

  /** A search among a writer's stores misses nothing. */
  lemma {:induction false} ReadersMissNothing(ms: seq<Moment>, rs: seq<Reader>)
    requires ReaderRun(ms, rs) && Reading(ms[0], rs[0])
    ensures Informed(ms[0], rs[0], ms[|ms| - 1], rs[|rs| - 1])
    decreases |ms|
  {
    if |ms| > 1 {
      ReadingOn(ms[0], rs[0], ms[1], rs[1]);
      ReadersMissNothing(ms[1..], rs[1..]);
      InformedSince(ms[0], rs[0], ms[1], rs[1], ms[|ms| - 1], rs[|rs| - 1]);
    } else {
      InformedNow(ms[0], rs[0]);
    }
  }

  lemma KeysGrow(m: Moment, m2: Moment)
    requires Consistent(m) && Consistent(m2) && (m2 == m || Follows(m, m2))
    requires LevelOk(m.s, m.on[0], 0) && LevelOk(m2.s, m2.on[0], 0)
    ensures KeysOf(m.s, m.on[0]) <= KeysOf(m2.s, m2.on[0])
  {
    forall k | k in KeysOf(m.s, m.on[0])
      ensures k in KeysOf(m2.s, m2.on[0])
    {
      var z :| z in m.on[0] && m.s.keys[z] == k;
      assert m2.s.keys[z] == k;
    }
  }

  // ---- The list ----

  /** prev[l] is the last node before `key` on the levels still to be linked. */
  ghost predicate PrevFrom(s: List, on: seq<set<Node>>, key: Key, prev: seq<Node>, from: nat, height: nat) {
    |prev| == MAX_HEIGHT && forall l, p {:trigger LastBefore(s, on, key, l, p)} :: from <= l < height && l < MAX_HEIGHT && p == prev[l] ==> LastBefore(s, on, key, l, p)
  }

  lemma PrevRaised(s: List, on: seq<set<Node>>, key: Key, prev: seq<Node>, height: nat)
    requires Ok(s, on) && PrevFilled(s, on, key, prev, -1) && height <= MAX_HEIGHT
    requires forall l :: s.maxHeight <= l < height ==> prev[l] == HEAD
    ensures PrevFrom(s, on, key, prev, 0, height)
  {
    forall l, p | 0 <= l < height && p == prev[l]
      ensures LastBefore(s, on, key, l, p)
    {
      if l >= s.maxHeight {
        assert LevelOk(s, on[l], l);
      }
    }
  }

  lemma PrevFromKept(s: List, on: seq<set<Node>>, s2: List, on2: seq<set<Node>>, key: Key, prev: seq<Node>, from: nat, from2: nat, height: nat)
    requires Ok(s, on) && PrevFrom(s, on, key, prev, from, height) && Ok(s2, on2) && s.keys <= s2.keys && from <= from2
    requires forall l :: from2 <= l < MAX_HEIGHT ==> on2[l] == on[l]
    ensures PrevFrom(s2, on2, key, prev, from2, height)
  {
    forall l, p | from2 <= l < height && l < MAX_HEIGHT && p == prev[l]
      ensures LastBefore(s2, on2, key, l, p)
    {
      assert LastBefore(s, on, key, l, p);
      assert LevelOk(s2, on2[l], l);
      PrevKept(s, s2, on[l], key, p);
    }
  }

  lemma PrevFilledHeads(s: List, on: seq<set<Node>>, key: Key, was: seq<Node>, prev: seq<Node>)
    requires PrevFilled(s, on, key, was, -1) && |prev| == MAX_HEIGHT
    requires forall l :: 0 <= l < s.maxHeight && l < MAX_HEIGHT ==> prev[l] == was[l]
    ensures PrevFilled(s, on, key, prev, -1)
  {}

  /** A freshly allocated node is linked nowhere. */
  lemma AddedNothingYet(s: List, on: seq<set<Node>>, s2: List, key: Key, height: nat)
    requires Ok(s, on) && LevelOk(s, on[0], 0) && key !in KeysOf(s, on[0])
    requires s2.keys == s.keys + [key] && |s2.next| == |s2.keys| && |s2.next[|s.keys|]| == height <= s2.maxHeight && height <= MAX_HEIGHT
    ensures Pending(s2, on, |s.keys|, 0, height)
  {
    forall l, z | 0 <= l < MAX_HEIGHT && z in on[l]
      ensures 0 < z < |s.keys| && s.keys[z] != key
    {
      DistinctAbove(s, on, l);
      assert s.keys[z] in KeysOf(s, on[0]);
    }
  }

  lemma RaiseOk(s: List, on: seq<set<Node>>, height: nat)
    requires Ok(s, on) && s.maxHeight <= height <= MAX_HEIGHT
    ensures Ok(s.(maxHeight := height), on) && Grown(s, on, s.(maxHeight := height), on)
  {
    forall l | 0 <= l < MAX_HEIGHT
      ensures LevelOk(s.(maxHeight := height), on[l], l)
    {
      assert LevelOk(s, on[l], l);
      LevelUnchanged(s, s.(maxHeight := height), on[l], l);
    }
  }

  /** Node x, not yet linked from `level` on, has a key that no linked node there has. */
  ghost predicate Pending(s: List, on: seq<set<Node>>, x: Node, level: nat, height: nat) {
    && level <= height <= s.maxHeight && 0 < x < |s.keys| && |s.next| == |s.keys| && |s.next[x]| == height
    && |on| == MAX_HEIGHT && height <= MAX_HEIGHT
    && (forall l :: 0 <= l < level ==> x in on[l])
    && (forall l, z :: level <= l < MAX_HEIGHT && z in on[l] ==> z != x && z < |s.keys| && s.keys[z] != s.keys[x])
  }

  lemma FillPrev(s: List, on: seq<set<Node>>, key: Key, prev: seq<Node>, level: nat, x: Node)
    requires PrevFilled(s, on, key, prev, level) && level < MAX_HEIGHT && LastBefore(s, on, key, level, x)
    ensures PrevFilled(s, on, key, prev[level := x], level - 1)
  {
    forall l, p | level - 1 < l < s.maxHeight && l < MAX_HEIGHT && p == prev[level := x][l]
      ensures LastBefore(s, on, key, l, p)
    {
      assert l == level || p == prev[l];
    }
  }

  ghost function Ahead(s: List, on: set<Node>, x: Node): set<Node>
    requires x < |s.keys| && forall z <- on :: z < |s.keys|
  {
    set z <- on | Before(s, x, s.keys[z])
  }

  /** Following a link leaves fewer nodes ahead. */
  lemma StepAhead(s: List, on: seq<set<Node>>, x: Node, level: nat)
    requires Ok(s, on) && level < MAX_HEIGHT && (x == HEAD || x in on[level])
    ensures LevelOk(s, on[level], level) && LevelOk(s, on[0], 0) && x < |s.keys|
    ensures var to := s.next[x][level];
      to.Some? ==> to.value in on[level] && to.value < |s.keys| && |Ahead(s, on[0], to.value)| < |Ahead(s, on[0], x)|
  {
    DistinctAbove(s, on, level);
    assert LevelOk(s, on[0], 0);
    var to := s.next[x][level];
    assert IsNext(s, on[level], x, to);
    if to.Some? {
      var less, more := Ahead(s, on[0], to.value), Ahead(s, on[0], x);
      assert to.value in more && to.value !in less && less <= more - {to.value};
      Fewer(less, more - {to.value});
    }
  }

  lemma {:induction false} Fewer(a: set<Node>, b: set<Node>)
    requires a <= b
    ensures |a| <= |b|
  {
    if a != {} {
      var x :| x in a;
      Fewer(a - {x}, b - {x});
    }
  }

  class SkipList {
    var keys: seq<Key>
    var next: seq<seq<Link>>
    var maxHeight: nat
    /** The nodes that are linked at each level. */
    ghost var on: seq<set<Node>>

    function State(): List
      reads this
    {
      List(keys, next, maxHeight)
    }

    ghost predicate Valid()
      reads this
    {
      Ok(State(), on)
    }

    ghost function Contents(): set<Key>
      requires Valid()
      reads this
    {
      assert LevelOk(State(), on[0], 0);
      KeysOf(State(), on[0])
    }

    constructor ()
      ensures Valid() && Contents() == {}
    {
      keys, next, maxHeight := [0], [seq(MAX_HEIGHT, _ => None)], 1;
      on := seq(MAX_HEIGHT, _ => {});
    }

    /** FindGreaterOrEqual; a given `prev` receives the last node before `key` on every level. */
    method FindGreaterOrEqual(key: Key, prev: array?<Node>) returns (found: Link)
      requires Valid() && (prev != null ==> prev.Length == MAX_HEIGHT)
      modifies if prev == null then {} else {prev}
      ensures LevelOk(State(), on[0], 0) && IsFirstFrom(State(), on[0], key, found)
      ensures prev != null ==> PrevFilled(State(), on, key, prev[..], -1)
    {
      var x: Node, level: nat := HEAD, maxHeight - 1;
      ghost var s := State();
      assert LevelOk(s, on[0], 0);
      while true
        invariant 0 <= level < maxHeight && x < |keys| && (x == HEAD || x in on[level]) && Before(s, x, key)
        invariant prev != null ==> PrevFilled(s, on, key, prev[..], level)
        decreases |Ahead(s, on[0], x)|, level
      {
        StepAhead(s, on, x, level);
        var to := next[x][level];
        if to.Some? && keys[to.value] < key {
          x := to.value;
        } else {
          StopOnLevel(s, on[level], level, key, x);
          if prev != null {
            ghost var old_ := prev[..];
            FillPrev(s, on, key, old_, level, x);
            prev[level] := x;
            assert prev[..] == old_[level := x];
          }
          if level == 0 {
            return to;
          }
          level := level - 1;
        }
      }
    }

    /** FindLessThan: the last node before `key`, or the head. */
    method FindLessThan(key: Key) returns (x: Node)
      requires Valid()
      ensures LevelOk(State(), on[0], 0) && IsPrev(State(), on[0], key, x)
    {
      x := HEAD;
      var level := maxHeight - 1;
      ghost var s := State();
      assert LevelOk(s, on[0], 0);
      while true
        invariant 0 <= level < maxHeight && x < |keys| && (x == HEAD || x in on[level]) && Before(s, x, key)
        decreases |Ahead(s, on[0], x)|, level
      {
        StepAhead(s, on, x, level);
        var to := next[x][level];
        if to.None? || keys[to.value] >= key {
          StopOnLevel(s, on[level], level, key, x);
          if level == 0 {
            return;
          }
          level := level - 1;
        } else {
          x := to.value;
        }
      }
    }

    /** FindLast: the node with the greatest key, or the head of an empty list. */
    method FindLast() returns (x: Node)
      requires Valid()
      ensures LevelOk(State(), on[0], 0)
      ensures if x == HEAD then Contents() == {} else x in on[0] && forall k <- Contents() :: k <= keys[x]
    {
      x := HEAD;
      var level := maxHeight - 1;
      ghost var s := State();
      assert LevelOk(s, on[0], 0);
      while true
        invariant 0 <= level < maxHeight && x < |keys| && (x == HEAD || x in on[level])
        decreases |Ahead(s, on[0], x)|, level
      {
        StepAhead(s, on, x, level);
        var to := next[x][level];
        if to.None? {
          if level == 0 {
            assert IsNext(s, on[0], x, None);
            return;
          }
          level := level - 1;
        } else {
          x := to.value;
        }
      }
    }

    method Contains(key: Key) returns (r: bool)
      requires Valid()
      ensures r == (key in Contents())
    {
      var x := FindGreaterOrEqual(key, null);
      r := x.Some? && keys[x.value] == key;
      if key in Contents() {
        var z :| z in on[0] && keys[z] == key;
      }
    }

    /** NoBarrier_SetNext: the new node's own link, which no reader can see yet. */
    method PrepareLink(x: Node, p: Node, level: nat, ghost height: nat, ghost ms: seq<Moment>) returns (ghost ms2: seq<Moment>)
      requires Valid() && Pending(State(), on, x, level, height) && level < height
      requires LastBefore(State(), on, keys[x], level, p)
      requires Trace(ms) && ms != [] && ms[|ms| - 1] == Moment(State(), on)
      modifies this`next
      ensures Valid() && Pending(State(), on, x, level, height) && LastBefore(State(), on, keys[x], level, p)
      ensures next[x][level] == next[p][level] && keys[x] !in KeysOf(State(), on[level])
      ensures Trace(ms2) && ms2 == ms + [Moment(State(), on)]
    {
      ghost var s := State();
      assert LevelOk(s, on[level], level);
      PrivateStoreOk(s, on, x, level, next[p][level]);
      next := next[x := next[x][level := next[p][level]]];
      assert State() == SetNext(s, x, level, s.next[p][level]);
      assert Stores(Moment(s, on), Prepare(x, level, s.next[p][level]), Moment(State(), on));
      TraceGrows(ms, Moment(State(), on));
      PrivateKeeps(s, State(), on, level, p, x);
      ms2 := ms + [Moment(State(), on)];
    }

    /** SetNext: the link that publishes the new node on one level. */
    method Publish(x: Node, p: Node, level: nat, ghost height: nat, ghost ms: seq<Moment>) returns (ghost ms2: seq<Moment>)
      requires Valid() && Pending(State(), on, x, level, height) && level < height
      requires LastBefore(State(), on, keys[x], level, p)
      requires next[x][level] == next[p][level] && keys[x] !in KeysOf(State(), on[level])
      requires Trace(ms) && ms != [] && ms[|ms| - 1] == Moment(State(), on)
      modifies this`next, this`on
      ensures Valid() && Pending(State(), on, x, level + 1, height)
      ensures on == old(on)[level := old(on)[level] + {x}]
      ensures Trace(ms2) && ms2 == ms + [Moment(State(), on)]
    {
      ghost var s := State();
      PublishOk(s, on, x, p, level);
      next := next[p := next[p][level := Some(x)]];
      on := on[level := on[level] + {x}];
      assert State() == SetNext(s, p, level, Some(x));
      assert Stores(Moment(s, old(on)), Splice(p, level, x), Moment(State(), on));
      TraceGrows(ms, Moment(State(), on));
      ms2 := ms + [Moment(State(), on)];
    }

    /** A taller list: its new levels start at the head and are empty. */
    method Raise(key: Key, height: nat, prev: array<Node>, ghost ms: seq<Moment>) returns (ghost ms2: seq<Moment>)
      requires Valid() && prev.Length == MAX_HEIGHT && 1 <= height <= MAX_HEIGHT
      requires PrevFilled(State(), on, key, prev[..], -1)
      requires Trace(ms) && ms != [] && ms[|ms| - 1] == Moment(State(), on)
      modifies this`maxHeight, prev
      ensures Valid() && height <= maxHeight && PrevFrom(State(), on, key, prev[..], 0, height)
      ensures Trace(ms2) && ms2 != [] && ms2[0] == ms[0] && ms2[|ms2| - 1] == Moment(State(), on)
    {
      ms2 := ms;
      ghost var s, was := State(), prev[..];
      FillHeads(prev, maxHeight, height);
      PrevFilledHeads(s, on, key, was, prev[..]);
      PrevRaised(s, on, key, prev[..], height);
      if height > maxHeight {
        maxHeight := height;
        RaiseOk(s, on, height);
        assert Stores(Moment(s, on), Height(height), Moment(State(), on));
        TraceGrows(ms, Moment(State(), on));
        ms2 := ms + [Moment(State(), on)];
        PrevFromKept(s, on, State(), on, key, prev[..], 0, 0, height);
      }
    }

    static method FillHeads(prev: array<Node>, from: nat, to: nat)
      requires prev.Length == MAX_HEIGHT && from <= MAX_HEIGHT && to <= MAX_HEIGHT
      modifies prev
      ensures forall l :: 0 <= l < from ==> prev[..][l] == old(prev[..])[l]
      ensures forall l :: from <= l < to ==> prev[..][l] == HEAD
    {
      var i := from;
      while i < to
        invariant from <= i && (i <= to || i == from)
        invariant forall l :: 0 <= l < from ==> prev[l] == old(prev[..])[l]
        invariant forall l :: from <= l < i ==> prev[l] == HEAD
      {
        prev[i] := HEAD;
        i := i + 1;
      }
    }

    method NewNode(key: Key, height: nat, ghost prev: seq<Node>, ghost ms: seq<Moment>) returns (ghost ms2: seq<Moment>)
      requires Valid() && height <= maxHeight && PrevFrom(State(), on, key, prev, 0, height)
      requires Trace(ms) && ms != [] && ms[|ms| - 1] == Moment(State(), on)
      modifies this`keys, this`next
      ensures Valid() && State() == Allocated(old(State()), key, height) && PrevFrom(State(), on, key, prev, 0, height)
      ensures Trace(ms2) && ms2 != [] && ms2[0] == ms[0] && ms2[|ms2| - 1] == Moment(State(), on)
    {
      ghost var s := State();
      keys := keys + [key];
      next := next + [seq(height, _ => None)];
      AllocateOk(s, on, key, height);
      assert State() == Allocated(s, key, height);
      PrevFromKept(s, on, State(), on, key, prev, 0, 0, height);
      assert Stores(Moment(s, on), Allocate(key, height), Moment(State(), on));
      TraceGrows(ms, Moment(State(), on));
      ms2 := ms + [Moment(State(), on)];
    }

    /** Insert with the height that RandomHeight returned.  `ms` holds the state after every
        single store: each is a consistent list to which nodes were only added. */
    method Insert(key: Key, height: nat) returns (ghost ms: seq<Moment>)
      requires Valid() && key !in Contents() && 1 <= height <= MAX_HEIGHT
      modifies this
      ensures Valid() && Contents() == old(Contents()) + {key}
      ensures Trace(ms) && ms != [] && ms[0] == old(Moment(State(), on)) && ms[|ms| - 1] == Moment(State(), on)
    {
      ghost var s0, on0 := State(), on;
      var prev := new Node[MAX_HEIGHT];
      var found := FindGreaterOrEqual(key, prev);
      ms := [Moment(s0, on0)];
      ms := Raise(key, height, prev, ms);
      var x: Node := |keys|;
      ms := NewNode(key, height, prev[..], ms);
      AddedNothingYet(s0, on0, State(), key, height);
      ms := LinkAll(x, height, prev, ms);
      KeysWithNew(s0, on0[0], State(), key);
    }

    /** The loop of Insert. */
    method LinkAll(x: Node, height: nat, prev: array<Node>, ghost ms: seq<Moment>) returns (ghost ms2: seq<Moment>)
      requires Valid() && Pending(State(), on, x, 0, height) && height > 0 && prev.Length == MAX_HEIGHT
      requires PrevFrom(State(), on, keys[x], prev[..], 0, height)
      requires Trace(ms) && ms != [] && ms[|ms| - 1] == Moment(State(), on)
      modifies this`next, this`on
      ensures Valid() && |old(on)| == |on| == MAX_HEIGHT && on[0] == old(on)[0] + {x}
      ensures Trace(ms2) && ms2 != [] && ms2[0] == ms[0] && ms2[|ms2| - 1] == Moment(State(), on)
    {
      ms2 := ms;
      ghost var on0 := on[0];
      var i := 0;
      while i < height
        invariant i <= height && Valid() && Pending(State(), on, x, i, height)
        invariant PrevFrom(State(), on, keys[x], prev[..], i, height)
        invariant on[0] == if i == 0 then on0 else on0 + {x}
        invariant Trace(ms2) && ms2 != [] && ms2[0] == ms[0] && ms2[|ms2| - 1] == Moment(State(), on)
      {
        assert LastBefore(State(), on, keys[x], i, prev[..][i]);
        ms2 := LinkLevel(x, prev[i], i, height, prev[..], ms2);
        i := i + 1;
      }
    }

    method LinkLevel(x: Node, p: Node, level: nat, ghost height: nat, ghost prev: seq<Node>, ghost ms: seq<Moment>) returns (ghost ms2: seq<Moment>)
      requires Valid() && Pending(State(), on, x, level, height) && level < height
      requires LastBefore(State(), on, keys[x], level, p) && PrevFrom(State(), on, keys[x], prev, level, height)
      requires Trace(ms) && ms != [] && ms[|ms| - 1] == Moment(State(), on)
      modifies this`next, this`on
      ensures Valid() && Pending(State(), on, x, level + 1, height) && PrevFrom(State(), on, keys[x], prev, level + 1, height)
      ensures on == old(on)[level := old(on)[level] + {x}]
      ensures Trace(ms2) && ms2 != [] && ms2[0] == ms[0] && ms2[|ms2| - 1] == Moment(State(), on)
    {
      ms2 := PrepareLink(x, p, level, height, ms);
      ms2 := Publish(x, p, level, height, ms2);
      PrevFromKept(old(State()), old(on), State(), on, keys[x], prev, level, level + 1, height);
    }
  }

  lemma KeysWithNew(s: List, on: set<Node>, s2: List, key: Key)
    requires (forall z <- on :: z < |s.keys|) && s2.keys == s.keys + [key]
    ensures KeysOf(s2, on + {|s.keys|}) == KeysOf(s, on) + {key}
  {
    forall k | k in KeysOf(s, on) + {key}
      ensures k in KeysOf(s2, on + {|s.keys|})
    {
      if k == key {
        assert s2.keys[|s.keys|] == key;
      } else {
        var z :| z in on && s.keys[z] == k;
        assert s2.keys[z] == k;
      }
    }
  }

  lemma PrivateKeeps(s: List, s1: List, on: seq<set<Node>>, level: nat, p: Node, x: Node)
    requires Ok(s1, on) && level < MAX_HEIGHT && x < |s.keys| && s1.keys == s.keys && LastBefore(s, on, s.keys[x], level, p)
    requires forall z <- on[level] :: s.keys[z] != s.keys[x]
    ensures LevelOk(s1, on[level], level) && IsPrev(s1, on[level], s1.keys[x], p) && s1.keys[x] !in KeysOf(s1, on[level])
  {
    PrevKept(s, s1, on[level], s.keys[x], p);
  }

  // ---- Iterating ----

  /** r is the least of `ks` from `low` on, or None if there is none. */
  ghost predicate IsLeast(ks: set<Key>, low: Option<Key>, strict: bool, r: Option<Key>) {
    match r
    case None => forall k <- ks :: !From(low, strict, k)
    case Some(m) => m in ks && From(low, strict, m) && forall k <- ks :: From(low, strict, k) ==> m <= k
  }

  ghost predicate From(low: Option<Key>, strict: bool, k: Key) {
    low.None? || (if strict then low.value < k else low.value <= k)
  }

  ghost predicate IsGreatest(ks: set<Key>, high: Option<Key>, r: Option<Key>) {
    match r
    case None => forall k <- ks :: high.Some? && high.value <= k
    case Some(m) => m in ks && (high.Some? ==> m < high.value) && forall k <- ks :: (high.Some? ==> k < high.value) ==> k <= m
  }

  /** SkipList::Iterator: None is the iterator that is not valid. */
  class SkipListIterator {
    const list: SkipList
    var node: Link

    ghost predicate Valid()
      reads this, list
    {
      list.Valid() && (node.Some? ==> node.value in list.on[0])
    }

    ghost function Position(): Option<Key>
      requires Valid()
      reads this, list
    {
      assert LevelOk(list.State(), list.on[0], 0);
      if node.None? then None else Some(list.keys[node.value])
    }

    constructor (l: SkipList)
      requires l.Valid()
      ensures Valid() && list == l && Position() == None
    {
      list, node := l, None;
    }

    method Seek(target: Key)
      requires Valid()
      modifies this
      ensures Valid() && IsLeast(list.Contents(), Some(target), false, Position())
    {
      node := list.FindGreaterOrEqual(target, null);
    }

    method SeekToFirst()
      requires Valid()
      modifies this
      ensures Valid() && IsLeast(list.Contents(), None, false, Position())
    {
      assert LevelOk(list.State(), list.on[0], 0);
      node := list.next[HEAD][0];
      assert IsNext(list.State(), list.on[0], HEAD, node);
    }

    method Next()
      requires Valid() && node.Some?
      modifies this
      ensures Valid() && IsLeast(list.Contents(), old(Position()), true, Position())
    {
      assert LevelOk(list.State(), list.on[0], 0);
      ghost var n := node.value;
      node := list.next[node.value][0];
      assert IsNext(list.State(), list.on[0], n, node);
    }

    method Prev()
      requires Valid() && node.Some?
      modifies this
      ensures Valid() && IsGreatest(list.Contents(), old(Position()), Position())
    {
      assert LevelOk(list.State(), list.on[0], 0);
      var x := list.FindLessThan(list.keys[node.value]);
      node := if x == HEAD then None else Some(x);
    }

    method SeekToLast()
      requires Valid()
      modifies this
      ensures Valid() && IsGreatest(list.Contents(), None, Position())
    {
      var x := list.FindLast();
      node := if x == HEAD then None else Some(x);
    }
  }

  ghost predicate MetAt(ks: set<Key>, met: seq<Key>, i: nat)
    requires i < |met|
  {
    IsLeast(ks, if i == 0 then None else Some(met[i - 1]), true, Some(met[i]))
  }

  /** Keys met by SeekToFirst and then Next until the end. */
  ghost predicate Walk(ks: set<Key>, met: seq<Key>) {
    && (forall i :: 0 <= i < |met| ==> MetAt(ks, met, i))
    && IsLeast(ks, if met == [] then None else Some(met[|met| - 1]), true, None)
  }

  lemma {:induction false} WalkAscends(ks: set<Key>, met: seq<Key>, i: nat, j: nat)
    requires Walk(ks, met) && i < j < |met|
    ensures met[i] < met[j]
    decreases j
  {
    assert MetAt(ks, met, j);
    if i < j - 1 {
      WalkAscends(ks, met, i, j - 1);
    }
  }

  lemma {:induction false} WalkPasses(ks: set<Key>, met: seq<Key>, k: Key, i: nat)
    requires Walk(ks, met) && k in ks && i <= |met| && k !in met[..i]
    ensures i > 0 ==> met[i - 1] < k
    decreases i
  {
    if i > 0 {
      WalkPasses(ks, met, k, i - 1);
      assert MetAt(ks, met, i - 1);
      assert met[i - 1] in met[..i];
    }
  }

  /** Such a walk meets every key of the list exactly once, in increasing order. */
  lemma WalkIsSortedContents(ks: set<Key>, met: seq<Key>)
    requires Walk(ks, met)
    ensures forall i, j :: 0 <= i < j < |met| ==> met[i] < met[j]
    ensures forall k :: k in ks <==> k in met
  {
    forall i, j | 0 <= i < j < |met|
      ensures met[i] < met[j]
    {
      WalkAscends(ks, met, i, j);
    }
    forall k
      ensures k in ks <==> k in met
    {
      if k in ks && k !in met {
        assert met[..|met|] == met;
        WalkPasses(ks, met, k, |met|);
      } else if k in met {
        var i :| 0 <= i < |met| && met[i] == k;
        assert MetAt(ks, met, i);
      }
    }
  }
}
