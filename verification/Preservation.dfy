/** What a compaction does to reads: an exact criterion. */
module Preservation {
  import opened Keys
  import opened Versions
  import opened Compactions

  /** Views depend only on the visible entries. */
  lemma SameVisible(A: set<Entry>, B: set<Entry>, k: UserKey, s: nat, t: nat)
    requires Unique(A) && Unique(B)
    requires forall e :: (e in A && Visible(e, k, s)) <==> (e in B && Visible(e, k, t))
    ensures View(A, k, s) == View(B, k, t)
  {
    if Hidden(A, k, s) {
      assert Hidden(B, k, t);
    } else {
      var n := NewestExists(A, k, s);
      assert Newest(B, k, t, n);
      ViewOfNewest(A, k, s, n);
      ViewOfNewest(B, k, t, n);
    }
  }

  /** Entries older than a kept visible one may go. */
  lemma KeptAbove(S: set<Entry>, S2: set<Entry>, k: UserKey, s: nat, top: Entry)
    requires Unique(S) && S2 <= S && top in S2 && Visible(top, k, s)
    requires forall e :: e in S && e !in S2 && e.key.user == k ==> e.key.sequence < top.key.sequence
    ensures View(S2, k, s) == View(S, k, s)
  {
    var n := NewestExists(S, k, s);
    assert n in S2 && Newest(S2, k, s, n);
    ViewOfNewest(S, k, s, n);
    ViewOfNewest(S2, k, s, n);
  }

  lemma UniqueSubset(S: set<Entry>, S2: set<Entry>)
    requires Unique(S) && S2 <= S
    ensures Unique(S2)
  {}

  /** If a visible tombstone goes and everything newer stays, readers see what is left below it. */
  lemma TombstoneGone(S: set<Entry>, S2: set<Entry>, k: UserKey, s: nat, d: Entry)
    requires Unique(S) && S2 <= S && d in S && d !in S2 && d.key.kind.Deletion? && Visible(d, k, s)
    requires forall e :: e in S && e !in S2 && e.key.user == k ==> e.key.sequence <= d.key.sequence
    ensures Newest(S, k, s, d) ==> View(S, k, s) == None && View(S2, k, s) == View(S2, k, d.key.sequence)
    ensures !Newest(S, k, s, d) ==> View(S2, k, s) == View(S, k, s)
  {
    UniqueSubset(S, S2);
    if Newest(S, k, s, d) {
      ViewOfNewest(S, k, s, d);
      SameVisible(S2, S2, k, s, d.key.sequence);
    } else {
      var n := NewestExists(S, k, s);
      assert n.key.sequence > d.key.sequence;
      KeptAbove(S, S2, k, s, n);
    }
  }

  // ---- The loop's drops, key by key ----

  lemma SameUserOrder(input: seq<Entry>, i: nat, j: nat)
    requires Sorted(input) && i < j < |input| && input[i].key.user == input[j].key.user
    ensures input[j].key.sequence <= input[i].key.sequence
    ensures forall m :: i <= m <= j ==> input[m].key.user == input[i].key.user && input[m].key.sequence <= input[i].key.sequence
  {}

  /** Only entries every reader may see through are dropped. */
  lemma DroppedIsOld(v: Version, level: nat, input: seq<Entry>, floor: nat, i: nat)
    requires Sorted(input) && i < |input| && Dropped(v, level, input, floor, i)
    ensures input[i].key.sequence <= floor
  {
    if i > 0 && input[i - 1].key.user == input[i].key.user {
      SameUserOrder(input, i - 1, i);
    }
  }

  /** The first entry of `k` at or below the floor. */
  lemma FirstBelow(input: seq<Entry>, k: UserKey, floor: nat, n: nat) returns (t: nat)
    requires n < |input| && Visible(input[n], k, floor)
    ensures t <= n && Visible(input[t], k, floor)
    ensures forall i :: 0 <= i < t ==> !Visible(input[i], k, floor)
  {
    t := 0;
    while !Visible(input[t], k, floor)
      invariant t <= n
      invariant forall i :: 0 <= i < t ==> !Visible(input[i], k, floor)
      decreases n - t
    {
      t := t + 1;
    }
  }

  /** Of the entries of one key: those above the floor stay, the first one below it stays
      unless it is an obsolete tombstone, and all later ones go. */
  lemma DropPattern(v: Version, level: nat, input: seq<Entry>, floor: nat, k: UserKey, t: nat, i: nat)
    requires Sorted(input) && t < |input| && i < |input|
    requires Visible(input[t], k, floor) && forall j :: 0 <= j < t ==> !Visible(input[j], k, floor)
    requires input[i].key.user == k
    ensures i < t ==> !Dropped(v, level, input, floor, i)
    ensures i == t ==> (Dropped(v, level, input, floor, i) <==> input[i].key.kind.Deletion? && IsBase(v, level, k))
    ensures i > t ==> Dropped(v, level, input, floor, i)
  {
    if i < t {
      if Dropped(v, level, input, floor, i) {
        DroppedIsOld(v, level, input, floor, i);
      }
    } else if i == t {
      if i > 0 && input[i - 1].key.user == k {
        assert !Visible(input[i - 1], k, floor);
      }
    } else {
      SameUserOrder(input, t, i);
      assert input[i - 1].key.user == k && input[i - 1].key.sequence <= floor;
    }
  }

  /** The stored entries once the survivors have replaced the input. */
  ghost function After(S: set<Entry>, v: Version, level: nat, input: seq<Entry>, floor: nat): set<Entry> {
    S - (Members(input) - Members(Survivors(v, level, input, floor, |input|)))
  }

  /** The set-up of one compaction: `S` is everything stored, `P` what unselected files of
      the output level hold.  Stored entries outside the input that are older than an input
      entry of the same key lie in `P` or below the output level. */
  ghost predicate Compacting(S: set<Entry>, P: set<Entry>, v: Version, level: nat, input: seq<Entry>) {
    && Unique(S) && Sorted(input) && Members(input) <= S && P <= S - Members(input)
    && forall a, b :: a in S && a !in Members(input) && b in input && a.key.user == b.key.user && a.key.sequence < b.key.sequence
         ==> a in P || !IsBase(v, level, a.key.user)
  }

  /** The tombstone that hides `k` at the floor is about to be dropped although an unselected
      file of the output level still shows a value beneath it. */
  ghost predicate Resurrects(S: set<Entry>, P: set<Entry>, v: Version, level: nat, input: seq<Entry>, floor: nat, k: UserKey) {
    exists d :: Newest(S, k, floor, d) && d in input && d.key.kind.Deletion? && IsBase(v, level, k) && View(P, k, d.key.sequence) != None
  }

  lemma InAfter(S: set<Entry>, v: Version, level: nat, input: seq<Entry>, floor: nat, i: nat)
    requires Unique(S) && Sorted(input) && Members(input) <= S && i < |input|
    ensures input[i] in After(S, v, level, input, floor) <==> !Dropped(v, level, input, floor, i)
  {
    SurvivorsMembers(v, level, input, floor, |input|);
    var kept := Survivors(v, level, input, floor, |input|);
    assert input[i] in Members(input);
    if input[i] in kept {
      var j :| 0 <= j < |input| && input[j] == input[i] && !Dropped(v, level, input, floor, j);
      assert i == j;
    }
  }

  /** What is left of `k` beneath a dropped tombstone is what the unselected parents hold. */
  lemma BeneathTombstone(S: set<Entry>, P: set<Entry>, v: Version, level: nat, input: seq<Entry>, floor: nat, k: UserKey, t: nat)
    requires Compacting(S, P, v, level, input)
    requires t < |input| && Visible(input[t], k, floor) && forall j :: 0 <= j < t ==> !Visible(input[j], k, floor)
    requires Dropped(v, level, input, floor, t)
    ensures IsBase(v, level, k)
    ensures View(After(S, v, level, input, floor), k, input[t].key.sequence) == View(P, k, input[t].key.sequence)
  {
    var q := input[t].key.sequence;
    var S2 := After(S, v, level, input, floor);
    DropPattern(v, level, input, floor, k, t, t);
    forall e
      ensures (e in S2 && Visible(e, k, q)) <==> (e in P && Visible(e, k, q))
    {
      if e in S2 && Visible(e, k, q) {
        if e in Members(input) {
          var i :| 0 <= i < |input| && input[i] == e;
          DropPattern(v, level, input, floor, k, t, i);
          InAfter(S, v, level, input, floor, i);
          assert false;
        } else {
          assert input[t] in Members(input);
          assert e.key.sequence < q;
        }
      }
    }
    UniqueSubset(S, S2);
    UniqueSubset(S, P);
    SameVisible(S2, P, k, q, q);
  }

  /** One key: no reader at or above the floor notices, unless the key resurrects. */
  lemma KeyUnaffected(S: set<Entry>, P: set<Entry>, v: Version, level: nat, input: seq<Entry>, floor: nat, k: UserKey, s: nat)
    requires Compacting(S, P, v, level, input) && floor <= s
    requires !Resurrects(S, P, v, level, input, floor, k)
    ensures View(After(S, v, level, input, floor), k, s) == View(S, k, s)
  {
    var S2 := After(S, v, level, input, floor);
    if n :| 0 <= n < |input| && Visible(input[n], k, floor) {
      var t := FirstBelow(input, k, floor, n);
      var top := input[t];
      assert top in Members(input);
      InAfter(S, v, level, input, floor, t);
      forall e | e in S && e !in S2 && e.key.user == k
        ensures e.key.sequence <= top.key.sequence && (e == top || e.key.sequence < top.key.sequence)
      {
        var i :| 0 <= i < |input| && input[i] == e;
        InAfter(S, v, level, input, floor, i);
        DropPattern(v, level, input, floor, k, t, i);
        if t < i { SameUserOrder(input, t, i); }
      }
      if top in S2 {
        KeptAbove(S, S2, k, s, top);
      } else {
        DropPattern(v, level, input, floor, k, t, t);
        TombstoneGone(S, S2, k, s, top);
        BeneathTombstone(S, P, v, level, input, floor, k, t);
        if Newest(S, k, s, top) {
          assert Newest(S, k, floor, top);
        }
      }
    } else {
      forall e | e in S && e.key.user == k
        ensures e in S2
      {
        if e in Members(input) {
          var i :| 0 <= i < |input| && input[i] == e;
          assert !Visible(input[i], k, floor);
          if Dropped(v, level, input, floor, i) {
            DroppedIsOld(v, level, input, floor, i);
          }
          InAfter(S, v, level, input, floor, i);
        }
      }
      UniqueSubset(S, S2);
      SameVisible(S2, S, k, s, s);
    }
  }

  /** A key that resurrects reads as absent before and as present after. */
  lemma KeyResurrected(S: set<Entry>, P: set<Entry>, v: Version, level: nat, input: seq<Entry>, floor: nat, k: UserKey)
    requires Compacting(S, P, v, level, input)
    requires Resurrects(S, P, v, level, input, floor, k)
    ensures View(S, k, floor) == None && View(After(S, v, level, input, floor), k, floor) != None
  {
    var d :| Newest(S, k, floor, d) && d in input && d.key.kind.Deletion? && IsBase(v, level, k) && View(P, k, d.key.sequence) != None;
    var n :| 0 <= n < |input| && input[n] == d;
    var t := FirstBelow(input, k, floor, n);
    if t < n { SameUserOrder(input, t, n); }
    assert input[t] in Members(input) && input[t].key.sequence == d.key.sequence && input[t] == d;
    var S2 := After(S, v, level, input, floor);
    DropPattern(v, level, input, floor, k, t, t);
    InAfter(S, v, level, input, floor, t);
    forall e | e in S && e !in S2 && e.key.user == k
      ensures e.key.sequence <= d.key.sequence
    {
      var i :| 0 <= i < |input| && input[i] == e;
      InAfter(S, v, level, input, floor, i);
      if Dropped(v, level, input, floor, i) {
        DroppedIsOld(v, level, input, floor, i);
      }
    }
    TombstoneGone(S, S2, k, floor, d);
    BeneathTombstone(S, P, v, level, input, floor, k, t);
  }

  /** The compaction loop preserves every read at or above the smallest snapshot if and only
      if no key resurrects. */
  lemma CompactionPreservesReadsIff(S: set<Entry>, P: set<Entry>, v: Version, level: nat, input: seq<Entry>, floor: nat)
    requires Compacting(S, P, v, level, input)
    ensures (forall k, s :: floor <= s ==> View(After(S, v, level, input, floor), k, s) == View(S, k, s))
       <==> (forall k :: !Resurrects(S, P, v, level, input, floor, k))
  {
    var S2 := After(S, v, level, input, floor);
    if forall k :: !Resurrects(S, P, v, level, input, floor, k) {
      forall k, s | floor <= s
        ensures View(S2, k, s) == View(S, k, s)
      {
        KeyUnaffected(S, P, v, level, input, floor, k, s);
      }
    } else {
      var k :| Resurrects(S, P, v, level, input, floor, k);
      KeyResurrected(S, P, v, level, input, floor, k);
      assert floor <= floor && View(S2, k, floor) != View(S, k, floor);
    }
  }

  // ---- Readers that may all have moved on ----

  /** As Resurrects, for readers from `from` on: the tombstone is still the newest entry that
      they see of `k`. */
  ghost predicate ReturnsFrom(S: set<Entry>, P: set<Entry>, v: Version, level: nat, input: seq<Entry>, floor: nat, from: nat, k: UserKey) {
    exists d :: Newest(S, k, from, d) && d.key.sequence <= floor && d in input && d.key.kind.Deletion? && IsBase(v, level, k) && View(P, k, d.key.sequence) != None
  }

  lemma ReturnsMeansResurrects(S: set<Entry>, P: set<Entry>, v: Version, level: nat, input: seq<Entry>, floor: nat, from: nat, k: UserKey)
    requires floor <= from && ReturnsFrom(S, P, v, level, input, floor, from, k)
    ensures Resurrects(S, P, v, level, input, floor, k)
  {
    var d :| Newest(S, k, from, d) && d.key.sequence <= floor && d in input && d.key.kind.Deletion? && IsBase(v, level, k) && View(P, k, d.key.sequence) != None;
    assert Newest(S, k, floor, d);
  }

  /** An entry above the floor stays, and hides all that goes. */
  lemma KeyRewritten(S: set<Entry>, v: Version, level: nat, input: seq<Entry>, floor: nat, k: UserKey, s: nat, n: Entry)
    requires Unique(S) && Sorted(input) && Members(input) <= S && n in S && Visible(n, k, s) && n.key.sequence > floor
    ensures View(After(S, v, level, input, floor), k, s) == View(S, k, s)
  {
    var S2 := After(S, v, level, input, floor);
    forall e | e in S && e !in S2
      ensures e.key.sequence <= floor
    {
      var i :| 0 <= i < |input| && input[i] == e;
      InAfter(S, v, level, input, floor, i);
      DroppedIsOld(v, level, input, floor, i);
    }
    KeptAbove(S, S2, k, s, n);
  }

  /** One key: no reader from `from` on notices, unless the key returns. */
  lemma KeyUnaffectedFrom(S: set<Entry>, P: set<Entry>, v: Version, level: nat, input: seq<Entry>, floor: nat, from: nat, k: UserKey, s: nat)
    requires Compacting(S, P, v, level, input) && floor <= from <= s
    requires !ReturnsFrom(S, P, v, level, input, floor, from, k)
    ensures View(After(S, v, level, input, floor), k, s) == View(S, k, s)
  {
    if !Resurrects(S, P, v, level, input, floor, k) {
      KeyUnaffected(S, P, v, level, input, floor, k, s);
    } else {
      var d :| Newest(S, k, floor, d) && d in input && d.key.kind.Deletion? && IsBase(v, level, k) && View(P, k, d.key.sequence) != None;
      var n := NewestExists(S, k, from);
      assert n.key.sequence > floor;
      KeyRewritten(S, v, level, input, floor, k, s, n);
    }
  }

  /** A key that returns reads as absent before and as present after. */
  lemma KeyReturns(S: set<Entry>, P: set<Entry>, v: Version, level: nat, input: seq<Entry>, floor: nat, from: nat, k: UserKey)
    requires Compacting(S, P, v, level, input) && floor <= from
    requires ReturnsFrom(S, P, v, level, input, floor, from, k)
    ensures View(S, k, from) == None && View(After(S, v, level, input, floor), k, from) != None
  {
    var d :| Newest(S, k, from, d) && d.key.sequence <= floor && d in input && d.key.kind.Deletion? && IsBase(v, level, k) && View(P, k, d.key.sequence) != None;
    var S2 := After(S, v, level, input, floor);
    ReturnsMeansResurrects(S, P, v, level, input, floor, from, k);
    KeyResurrected(S, P, v, level, input, floor, k);
    ViewOfNewest(S, k, from, d);
    UniqueSubset(S, S2);
    SameVisible(S2, S2, k, from, floor);
  }

  /** Readers from `from` on, where `from` may have moved above the floor of the compaction, all
      see what they saw before if and only if no key returns. */
  lemma CompactionPreservesReadsFromIff(S: set<Entry>, P: set<Entry>, v: Version, level: nat, input: seq<Entry>, floor: nat, from: nat)
    requires Compacting(S, P, v, level, input) && floor <= from
    ensures (forall k, s :: from <= s ==> View(After(S, v, level, input, floor), k, s) == View(S, k, s))
       <==> (forall k :: !ReturnsFrom(S, P, v, level, input, floor, from, k))
  {
    var S2 := After(S, v, level, input, floor);
    if forall k :: !ReturnsFrom(S, P, v, level, input, floor, from, k) {
      forall k, s | from <= s
        ensures View(S2, k, s) == View(S, k, s)
      {
        KeyUnaffectedFrom(S, P, v, level, input, floor, from, k, s);
      }
    } else {
      var k :| ReturnsFrom(S, P, v, level, input, floor, from, k);
      KeyReturns(S, P, v, level, input, floor, from, k);
      assert from <= from && View(S2, k, from) != View(S, k, from);
    }
  }
}
