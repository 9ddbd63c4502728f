/** Internal keys, entries, and what a read at a sequence number means.

    Only `<`, `<=` and `==` of user keys are ever used, so the integers stand for any
    user-supplied total order: a run mentions finitely many keys, and every finite total
    order embeds in them. */
module Keys {
  type UserKey = int
  type Value = string

  /** kMaxSequenceNumber: 56 bits, since the type shares the 64-bit tag. */
  const MAX_SEQUENCE: nat := 0x100_0000_0000_0000 - 1

  datatype Option<+T> = None | Some(value: T)

  datatype Kind = Deletion | Put

  datatype InternalKey = InternalKey(user: UserKey, sequence: nat, kind: Kind)

  datatype Entry = Entry(key: InternalKey, value: Value)

  /** What one memtable or table reports about a user key at a snapshot. */
  datatype Lookup = NotFound | Deleted | Found(value: Value)

  /** PackSequenceAndType. */
  function Tag(k: InternalKey): nat {
    k.sequence * 256 + (if k.kind.Put? then 1 else 0)
  }

  /** InternalKeyComparator::Compare(a, b) < 0: user keys ascending, tags descending. */
  predicate Less(a: InternalKey, b: InternalKey) {
    a.user < b.user || (a.user == b.user && Tag(a) > Tag(b))
  }

  /** LookupKey: the first internal key of `k` that a reader at `s` may see. */
  function SeekKey(k: UserKey, s: nat): InternalKey {
    InternalKey(k, s, Put)
  }

  predicate Sorted(es: seq<Entry>) {
    forall i, j :: 0 <= i < j < |es| ==> Less(es[i].key, es[j].key)
  }

  lemma LessTransitive(a: InternalKey, b: InternalKey, c: InternalKey)
    requires Less(a, b) && Less(b, c)
    ensures Less(a, c)
  {}

  function Members(es: seq<Entry>): set<Entry> {
    set e | e in es
  }

  /** Result of Iterator::Seek(t) over a sorted run: the index of the first entry >= t. */
  function Seek(es: seq<Entry>, t: InternalKey): (i: nat)
    ensures i <= |es|
    ensures forall j :: 0 <= j < i ==> Less(es[j].key, t)
    ensures i < |es| ==> !Less(es[i].key, t)
  {
    if es == [] || !Less(es[0].key, t) then 0 else
      var r := Seek(es[1..], t);
      assert forall j :: 1 <= j < 1 + r ==> es[j] == es[1..][j - 1];
      1 + r
  }

  /** MemTable::Get, and TableCache::Get with SaveValue: seek, then check the user key. */
  function Probe(es: seq<Entry>, k: UserKey, s: nat): Lookup {
    var i := Seek(es, SeekKey(k, s));
    if i == |es| || es[i].key.user != k then NotFound
    else if es[i].key.kind.Put? then Found(es[i].value)
    else Deleted
  }

  // ---- Reads over a set of entries ----

  predicate Visible(e: Entry, k: UserKey, s: nat) {
    e.key.user == k && e.key.sequence <= s
  }

  /** `e` is the newest entry of `k` at or below `s`. */
  ghost predicate Newest(S: set<Entry>, k: UserKey, s: nat, e: Entry) {
    e in S && Visible(e, k, s) &&
    forall f :: f in S && Visible(f, k, s) ==> f.key.sequence <= e.key.sequence
  }

  ghost predicate Hidden(S: set<Entry>, k: UserKey, s: nat) {
    forall e :: e in S ==> !Visible(e, k, s)
  }

  /** No two entries share a user key and a sequence number. */
  ghost predicate Unique(S: set<Entry>) {
    forall a, b :: a in S && b in S && a.key.user == b.key.user && a.key.sequence == b.key.sequence ==> a == b
  }

  /** What a reader of `k` at `s` sees: the value of the newest entry, nothing if that is a deletion. */
  ghost function View(S: set<Entry>, k: UserKey, s: nat): Option<Value> {
    if exists e :: Newest(S, k, s, e) && e.key.kind.Put? then
      var e :| Newest(S, k, s, e) && e.key.kind.Put?;
      Some(e.value)
    else
      None
  }

  /** The outcome of a probe, in terms of the set of entries probed. */
  ghost predicate Answers(S: set<Entry>, k: UserKey, s: nat, r: Lookup) {
    match r
    case NotFound => Hidden(S, k, s)
    case Deleted => exists e :: Newest(S, k, s, e) && e.key.kind.Deletion?
    case Found(v) => exists e :: Newest(S, k, s, e) && e.key.kind.Put? && e.value == v
  }

  function Outcome(r: Lookup): Option<Value> {
    match r
    case Found(v) => Some(v)
    case _ => None
  }

  lemma NewestIsUnique(S: set<Entry>, k: UserKey, s: nat, a: Entry, b: Entry)
    requires Unique(S) && Newest(S, k, s, a) && Newest(S, k, s, b)
    ensures a == b
  {}

  lemma ViewOfNewest(S: set<Entry>, k: UserKey, s: nat, e: Entry)
    requires Unique(S) && Newest(S, k, s, e)
    ensures View(S, k, s) == if e.key.kind.Put? then Some(e.value) else None
  {
    if f :| Newest(S, k, s, f) && f.key.kind.Put? {
      NewestIsUnique(S, k, s, e, f);
    }
  }

  lemma {:induction false} NewestExists(S: set<Entry>, k: UserKey, s: nat) returns (e: Entry)
    requires !Hidden(S, k, s)
    ensures Newest(S, k, s, e)
    decreases S
  {
    e :| e in S && Visible(e, k, s);
    var rest := set f | f in S && Visible(f, k, s) && f.key.sequence > e.key.sequence;
    assert forall g :: g in S && Visible(g, k, s) ==> g in rest || g.key.sequence <= e.key.sequence;
    if rest != {} {
      var f :| f in rest;
      assert e in S && e !in rest;
      assert rest < S;
      var e' := NewestExists(rest, k, s);
      e := e';
    }
  }

  lemma AnswerExists(S: set<Entry>, k: UserKey, s: nat) returns (r: Lookup)
    ensures Answers(S, k, s, r)
  {
    if Hidden(S, k, s) {
      r := NotFound;
    } else {
      var e := NewestExists(S, k, s);
      r := if e.key.kind.Put? then Found(e.value) else Deleted;
    }
  }

  /** A probe's answer determines the view. */
  lemma AnswerIsView(S: set<Entry>, k: UserKey, s: nat, r: Lookup)
    requires Unique(S) && Answers(S, k, s, r)
    ensures View(S, k, s) == Outcome(r)
  {
    match r
    case NotFound =>
    case Deleted =>
      var e :| Newest(S, k, s, e) && e.key.kind.Deletion?;
      ViewOfNewest(S, k, s, e);
    case Found(v) =>
      var e :| Newest(S, k, s, e) && e.key.kind.Put? && e.value == v;
      ViewOfNewest(S, k, s, e);
  }

  /** Seeking to (k, s) in a sorted run finds the newest entry of `k` at or below `s`,
      whichever of the two types that entry has. */
  lemma ProbeAnswers(es: seq<Entry>, k: UserKey, s: nat)
    requires Sorted(es)
    ensures Answers(Members(es), k, s, Probe(es, k, s))
  {
    var S := Members(es);
    var i := Seek(es, SeekKey(k, s));
    forall e | e in S && Visible(e, k, s)
      ensures i < |es| && es[i].key.user == k && e.key.sequence <= es[i].key.sequence
    {
      var j :| 0 <= j < |es| && es[j] == e;
      assert !Less(e.key, SeekKey(k, s));
      assert i <= j;
      assert i < j ==> Less(es[i].key, e.key);
    }
    if i < |es| && es[i].key.user == k {
      assert es[i] in S;
      assert Newest(S, k, s, es[i]);
    }
  }

  /** Entries of `A` are newer than those of `B`, user key by user key. */
  ghost predicate Newer(A: set<Entry>, B: set<Entry>) {
    forall a, b :: a in A && b in B && a.key.user == b.key.user ==> a.key.sequence > b.key.sequence
  }

  /** Stopping at the first source that answers is reading the union, if earlier sources are newer. */
  lemma FirstHitAnswers(A: set<Entry>, B: set<Entry>, k: UserKey, s: nat, ra: Lookup, rb: Lookup)
    requires Newer(A, B)
    requires Answers(A, k, s, ra) && Answers(B, k, s, rb)
    ensures Answers(A + B, k, s, if ra.NotFound? then rb else ra)
  {
    if !ra.NotFound? {
      var e :| Newest(A, k, s, e) && (if ra.Deleted? then e.key.kind.Deletion? else e.key.kind.Put? && e.value == ra.value);
      assert Newest(A + B, k, s, e);
    } else if !rb.NotFound? {
      var e :| Newest(B, k, s, e) && (if rb.Deleted? then e.key.kind.Deletion? else e.key.kind.Put? && e.value == rb.value);
      assert Newest(A + B, k, s, e);
    }
  }
}
