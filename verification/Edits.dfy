/** VersionEdit and VersionSet::Builder: applying edits to a version. */
module Edits {
  import opened Keys
  import opened Versions

  /** Deleted files as (level, number); new files as (level, file). */
  datatype VersionEdit = VersionEdit(deleted: set<(nat, nat)>, added: seq<(nat, File)>)

  function Numbers(fs: seq<File>): set<nat> {
    set f | f in fs :: f.number
  }

  /** Files that an edit adds to one level, and file numbers it deletes from that level. */
  function AddedAt(added: seq<(nat, File)>, level: nat): (r: seq<File>)
    ensures forall f :: f in r <==> (level, f) in added
  {
    if added == [] then [] else
      assert added == [added[0]] + added[1..];
      (if added[0].0 == level then [added[0].1] else []) + AddedAt(added[1..], level)
  }

  function DeletedAt(deleted: set<(nat, nat)>, level: nat): set<nat> {
    set d | d in deleted && d.0 == level :: d.1
  }

  /** `w` lists, in order, the files of `base` and `added` whose number is not in `deleted`. */
  ghost predicate Saved(base: seq<File>, deleted: set<nat>, added: seq<File>, w: seq<File>) {
    Listed(w) && forall f :: f in w <==> (f in base || f in added) && f.number !in deleted
  }

  /** No file number of `added` occurs in `base`. */
  ghost predicate FreshNumbers(base: seq<File>, added: seq<File>) {
    forall f, g :: f in base && g in added ==> f.number != g.number
  }

  ghost predicate DistinctNumbers(fs: seq<File>) {
    forall i, j :: 0 <= i < j < |fs| ==> fs[i].number != fs[j].number
  }

  lemma BySmallestTotal(f: File, g: File)
    requires f.number != g.number
    ensures BySmallest(f, g) != BySmallest(g, f)
  {}

  lemma BySmallestTransitive(f: File, g: File, h: File)
    requires BySmallest(f, g) && BySmallest(g, h)
    ensures BySmallest(f, h)
  {}

  /** A listing is determined by its members. */
  lemma {:induction false} ListedUnique(a: seq<File>, b: seq<File>)
    requires Listed(a) && Listed(b)
    requires forall f :: f in a <==> f in b
    ensures a == b
  {
    if a == [] {
      assert forall i :: 0 <= i < |b| ==> b[i] in b;
    } else {
      assert a[0] in b && b != [] && b[0] in a;
      var i :| 0 <= i < |b| && b[i] == a[0];
      var j :| 0 <= j < |a| && a[j] == b[0];
      assert i == 0;
      assert a == [a[0]] + a[1..] && b == [b[0]] + b[1..];
      forall f
        ensures f in a[1..] <==> f in b[1..]
      {
        if f in a[1..] {
          var m :| 0 <= m < |a[1..]| && a[1..][m] == f;
          assert BySmallest(a[0], a[m + 1]) && f in a && f != b[0];
          assert f in b;
        }
        if f in b[1..] {
          var m :| 0 <= m < |b[1..]| && b[1..][m] == f;
          assert BySmallest(b[0], b[m + 1]) && f in b && f != a[0];
          assert f in a;
        }
      }
      ListedUnique(a[1..], b[1..]);
    }
  }

  /** std::set::insert with BySmallestKey: nothing happens if an equivalent file is present. */
  function InsertBySmallest(f: File, fs: seq<File>): seq<File> {
    if fs == [] || BySmallest(f, fs[0]) then [f] + fs
    else if !BySmallest(fs[0], f) then fs
    else [fs[0]] + InsertBySmallest(f, fs[1..])
  }

  lemma {:induction false} InsertBySmallestLists(f: File, fs: seq<File>)
    requires Listed(fs) && f.number !in Numbers(fs)
    ensures Listed(InsertBySmallest(f, fs))
    ensures forall g :: g in InsertBySmallest(f, fs) <==> g == f || g in fs
  {
    if fs != [] {
      assert fs[0].number in Numbers(fs);
      BySmallestTotal(f, fs[0]);
      assert fs == [fs[0]] + fs[1..];
      if BySmallest(f, fs[0]) {
        forall j | 0 <= j < |fs| ensures BySmallest(f, fs[j]) {
          if j > 0 { BySmallestTransitive(f, fs[0], fs[j]); }
        }
      } else {
        assert Numbers(fs[1..]) <= Numbers(fs);
        InsertBySmallestLists(f, fs[1..]);
        var r := InsertBySmallest(f, fs[1..]);
        forall j | 0 <= j < |r| ensures BySmallest(fs[0], r[j]) {
          assert r[j] in r;
          if r[j] != f {
            var m :| 0 <= m < |fs[1..]| && fs[1..][m] == r[j];
            assert fs[m + 1] == r[j];
          }
        }
      }
    }
  }

  /** What a Builder has gathered about one level. */
  datatype LevelState = LevelState(deleted: set<nat>, added: seq<File>)

  /** Effect of one edit on one level's state: Builder::Apply. */
  ghost predicate LevelApplied(s: LevelState, edit: VersionEdit, level: nat, t: LevelState) {
    && t.deleted == (s.deleted + DeletedAt(edit.deleted, level)) - Numbers(AddedAt(edit.added, level))
    && Listed(t.added)
    && forall f :: f in t.added <==> f in s.added || f in AddedAt(edit.added, level)
  }

  /** VersionSet::Builder. */
  class Builder {
    const base: Version
    var levels: seq<LevelState>

    constructor (v: Version)
      requires |v| == NUM_LEVELS
      ensures base == v && levels == seq(NUM_LEVELS, _ => LevelState({}, []))
    {
      base := v;
      levels := seq(NUM_LEVELS, _ => LevelState({}, []));
    }

    ghost predicate Valid()
      reads this
    {
      |base| == NUM_LEVELS && |levels| == NUM_LEVELS &&
      forall l :: 0 <= l < NUM_LEVELS ==> Listed(levels[l].added)
    }

    /** Builder::Apply. */
    method Apply(edit: VersionEdit)
      requires Valid()
      requires forall a :: a in edit.added ==> a.0 < NUM_LEVELS
      requires forall l :: 0 <= l < NUM_LEVELS ==> FreshNumbers(levels[l].added, AddedAt(edit.added, l)) && DistinctNumbers(AddedAt(edit.added, l))
      modifies this
      ensures Valid()
      ensures forall l :: 0 <= l < NUM_LEVELS ==> LevelApplied(old(levels)[l], edit, l, levels[l])
    {
      ghost var start := levels;
      for l := 0 to NUM_LEVELS
        invariant |levels| == NUM_LEVELS
        invariant forall m :: 0 <= m < NUM_LEVELS ==> levels[m] == if m < l then start[m].(deleted := start[m].deleted + DeletedAt(edit.deleted, m)) else start[m]
      {
        levels := levels[l := levels[l].(deleted := levels[l].deleted + DeletedAt(edit.deleted, l))];
      }
      ghost var mid := levels;
      for i := 0 to |edit.added|
        invariant |levels| == NUM_LEVELS
        invariant forall l :: 0 <= l < NUM_LEVELS ==> LevelApplied(mid[l], VersionEdit({}, edit.added[..i]), l, levels[l])
      {
        AddOne(mid, edit.added, i, levels);
        var l, f := edit.added[i].0, edit.added[i].1;
        levels := levels[l := LevelState(levels[l].deleted - {f.number}, InsertBySmallest(f, levels[l].added))];
      }
      assert edit.added[..|edit.added|] == edit.added;
    }

    /** Builder::SaveTo. */
    method SaveTo() returns (v: Version)
      requires Valid()
      requires forall l :: 0 <= l < NUM_LEVELS ==> Listed(base[l]) && FreshNumbers(base[l], levels[l].added)
      ensures |v| == NUM_LEVELS
      ensures forall l :: 0 <= l < NUM_LEVELS ==> Saved(base[l], levels[l].deleted, levels[l].added, v[l])
    {
      v := [];
      for l := 0 to NUM_LEVELS
        invariant |v| == l
        invariant forall m :: 0 <= m < l ==> Saved(base[m], levels[m].deleted, levels[m].added, v[m])
      {
        var files := SaveLevel(base[l], levels[l].deleted, levels[l].added);
        v := v + [files];
      }
    }
  }

  lemma AddToLevel(s: LevelState, before: seq<(nat, File)>, l: nat, f: File, t: LevelState)
    requires LevelApplied(s, VersionEdit({}, before), l, t)
    requires f.number !in Numbers(t.added)
    ensures LevelApplied(s, VersionEdit({}, before + [(l, f)]), l, LevelState(t.deleted - {f.number}, InsertBySmallest(f, t.added)))
  {
    AddedAtAppend(before, (l, f), l);
    InsertBySmallestLists(f, t.added);
    assert Numbers(AddedAt(before, l) + [f]) == Numbers(AddedAt(before, l)) + {f.number};
  }

  lemma LeaveLevel(s: LevelState, before: seq<(nat, File)>, x: (nat, File), m: nat, t: LevelState)
    requires LevelApplied(s, VersionEdit({}, before), m, t) && m != x.0
    ensures LevelApplied(s, VersionEdit({}, before + [x]), m, t)
  {
    AddedAtAppend(before, x, m);
  }

  lemma NotYetAdded(s: LevelState, before: seq<(nat, File)>, l: nat, t: LevelState, f: File)
    requires LevelApplied(s, VersionEdit({}, before), l, t)
    requires forall g :: g in s.added ==> g.number != f.number
    requires f.number !in Numbers(AddedAt(before, l))
    ensures f.number !in Numbers(t.added)
  {
    forall g | g in t.added
      ensures g.number != f.number
    {
      if g in AddedAt(before, l) {
        assert g.number in Numbers(AddedAt(before, l));
      }
    }
  }

  lemma PrefixNext(added: seq<(nat, File)>, i: nat)
    requires i < |added|
    ensures added[..i + 1] == added[..i] + [(added[i].0, added[i].1)]
    ensures added[i].1 in AddedAt(added, added[i].0)
  {
    var l, f := added[i].0, added[i].1;
    assert added[i] == (l, f) && (l, f) in added;
  }

  /** Adding one file changes the state of its own level only. */
  lemma AddOne(mid: seq<LevelState>, added: seq<(nat, File)>, i: nat, levels: seq<LevelState>)
    requires |mid| == |levels| && i < |added| && added[i].0 < |levels|
    requires forall l :: 0 <= l < |levels| ==> LevelApplied(mid[l], VersionEdit({}, added[..i]), l, levels[l])
    requires FreshNumbers(mid[added[i].0].added, AddedAt(added, added[i].0)) && DistinctNumbers(AddedAt(added, added[i].0))
    ensures var l, f := added[i].0, added[i].1;
            var levels2 := levels[l := LevelState(levels[l].deleted - {f.number}, InsertBySmallest(f, levels[l].added))];
            forall m :: 0 <= m < |levels| ==> LevelApplied(mid[m], VersionEdit({}, added[..i + 1]), m, levels2[m])
  {
    var l, f := added[i].0, added[i].1;
    PrefixNext(added, i);
    FreshAmongAdded(added, i);
    NotYetAdded(mid[l], added[..i], l, levels[l], f);
    AddToLevel(mid[l], added[..i], l, f, levels[l]);
    forall m | 0 <= m < |levels| && m != l
      ensures LevelApplied(mid[m], VersionEdit({}, added[..i + 1]), m, levels[m])
    {
      LeaveLevel(mid[m], added[..i], (l, f), m, levels[m]);
    }
  }

  lemma {:induction false} AddedAtAppend(a: seq<(nat, File)>, x: (nat, File), level: nat)
    ensures AddedAt(a + [x], level) == AddedAt(a, level) + if x.0 == level then [x.1] else []
  {
    if a == [] {
      assert a + [x] == [x];
      assert [x][1..] == [];
    } else {
      AddedAtAppend(a[1..], x, level);
      assert (a + [x])[1..] == a[1..] + [x];
    }
  }

  lemma AddedAtNext(added: seq<(nat, File)>, i: nat)
    requires i < |added|
    ensures forall l :: AddedAt(added[..i + 1], l) == AddedAt(added[..i], l) + if added[i].0 == l then [added[i].1] else []
  {
    assert added[..i + 1] == added[..i] + [added[i]];
    forall l ensures AddedAt(added[..i + 1], l) == AddedAt(added[..i], l) + if added[i].0 == l then [added[i].1] else [] {
      AddedAtAppend(added[..i], added[i], l);
    }
  }

  lemma {:induction false} AddedAtPrefix(added: seq<(nat, File)>, i: nat, l: nat)
    requires i <= |added|
    ensures AddedAt(added[..i], l) <= AddedAt(added, l)
    decreases |added| - i
  {
    if i == |added| {
      assert added[..i] == added;
    } else {
      AddedAtNext(added, i);
      AddedAtPrefix(added, i + 1, l);
    }
  }

  /** Added file numbers being distinct, the next added file is not among the earlier ones. */
  lemma FreshAmongAdded(added: seq<(nat, File)>, i: nat)
    requires i < |added|
    requires DistinctNumbers(AddedAt(added, added[i].0))
    ensures added[i].1.number !in Numbers(AddedAt(added[..i], added[i].0))
  {
    var l, f := added[i].0, added[i].1;
    var before, all := AddedAt(added[..i], l), AddedAt(added, l);
    AddedAtNext(added, i);
    AddedAtPrefix(added, i + 1, l);
    assert all[|before|] == f;
    forall g | g in before
      ensures g.number != f.number
    {
      var j :| 0 <= j < |before| && before[j] == g;
      assert all[j] == g;
    }
  }

  /** `files` holds what has been merged of the first `b` base files and `a` added files. */
  ghost predicate Merged(base: seq<File>, b: nat, deleted: set<nat>, added: seq<File>, a: nat, files: seq<File>) {
    && b <= |base| && a <= |added|
    && Saved(base[..b], deleted, added[..a], files)
    && (forall f, j :: f in files && b <= j < |base| ==> BySmallest(f, base[j]))
    && (forall f, j :: f in files && a <= j < |added| ==> BySmallest(f, added[j]))
  }

  lemma MergeBase(base: seq<File>, b: nat, deleted: set<nat>, added: seq<File>, a: nat, files: seq<File>)
    requires Listed(base) && Merged(base, b, deleted, added, a, files) && b < |base|
    requires forall j :: a <= j < |added| ==> BySmallest(base[b], added[j])
    ensures Merged(base, b + 1, deleted, added, a, MaybeAddFile(files, deleted, base[b]))
  {
    assert base[..b + 1] == base[..b] + [base[b]];
    var r := MaybeAddFile(files, deleted, base[b]);
    assert forall f :: f in r ==> f in files || f == base[b];
    forall i, j | 0 <= i < j < |r| ensures BySmallest(r[i], r[j]) {
      assert i < |files| && r[i] in files;
    }
  }

  lemma MergeAdded(base: seq<File>, b: nat, deleted: set<nat>, added: seq<File>, a: nat, files: seq<File>)
    requires Listed(added) && Merged(base, b, deleted, added, a, files) && a < |added|
    requires forall j :: b <= j < |base| ==> BySmallest(added[a], base[j])
    ensures Merged(base, b, deleted, added, a + 1, MaybeAddFile(files, deleted, added[a]))
  {
    assert added[..a + 1] == added[..a] + [added[a]];
    var r := MaybeAddFile(files, deleted, added[a]);
    assert forall f :: f in r ==> f in files || f == added[a];
    forall i, j | 0 <= i < j < |r| ensures BySmallest(r[i], r[j]) {
      assert i < |files| && r[i] in files;
    }
  }

  /** The merge of SaveTo for one level: base files up to std::upper_bound before each added file. */
  method SaveLevel(base: seq<File>, deleted: set<nat>, added: seq<File>) returns (files: seq<File>)
    requires Listed(base) && Listed(added) && FreshNumbers(base, added)
    ensures Saved(base, deleted, added, files)
  {
    files := [];
    var b := 0;
    for a := 0 to |added|
      invariant Merged(base, b, deleted, added, a, files)
    {
      while b < |base| && BySmallest(base[b], added[a])
        invariant Merged(base, b, deleted, added, a, files)
      {
        forall j | a < j < |added| ensures BySmallest(base[b], added[j]) { BySmallestTransitive(base[b], added[a], added[j]); }
        MergeBase(base, b, deleted, added, a, files);
        files := MaybeAddFile(files, deleted, base[b]);
        b := b + 1;
      }
      assert added[a] in added;
      forall j | b <= j < |base|
        ensures BySmallest(added[a], base[j])
      {
        assert base[b] in base;
        BySmallestTotal(added[a], base[b]);
        if b < j { BySmallestTransitive(added[a], base[b], base[j]); }
      }
      MergeAdded(base, b, deleted, added, a, files);
      files := MaybeAddFile(files, deleted, added[a]);
    }
    while b < |base|
      invariant Merged(base, b, deleted, added, |added|, files)
    {
      MergeBase(base, b, deleted, added, |added|, files);
      files := MaybeAddFile(files, deleted, base[b]);
      b := b + 1;
    }
    assert base[..|base|] == base && added[..|added|] == added;
  }

  /** Builder::MaybeAddFile. */
  function MaybeAddFile(files: seq<File>, deleted: set<nat>, f: File): seq<File> {
    if f.number in deleted then files else files + [f]
  }

  // ---- Replaying many edits ----

  /** One level after one edit, as LogAndApply installs it. */
  ghost predicate Stepped(w: seq<File>, edit: VersionEdit, level: nat, x: seq<File>) {
    Saved(w, DeletedAt(edit.deleted, level) - Numbers(AddedAt(edit.added, level)), AddedAt(edit.added, level), x)
  }

  /** The version that LogAndApply installs: one edit through a fresh Builder. */
  method NewVersion(v: Version, edit: VersionEdit) returns (w: Version)
    requires |v| == NUM_LEVELS && forall l :: 0 <= l < NUM_LEVELS ==> Listed(v[l])
    requires forall a :: a in edit.added ==> a.0 < NUM_LEVELS
    requires forall l :: 0 <= l < NUM_LEVELS ==> FreshNumbers(v[l], AddedAt(edit.added, l)) && DistinctNumbers(AddedAt(edit.added, l))
    ensures |w| == NUM_LEVELS
    ensures forall l :: 0 <= l < NUM_LEVELS ==> Stepped(v[l], edit, l, w[l])
  {
    var builder := new Builder(v);
    builder.Apply(edit);
    ghost var levels := builder.levels;
    forall l | 0 <= l < NUM_LEVELS
      ensures FreshNumbers(v[l], levels[l].added)
    {
      assert LevelApplied(LevelState({}, []), edit, l, levels[l]);
    }
    w := builder.SaveTo();
    forall l | 0 <= l < NUM_LEVELS
      ensures Stepped(v[l], edit, l, w[l])
    {
      assert LevelApplied(LevelState({}, []), edit, l, levels[l]);
      assert Saved(v[l], levels[l].deleted, levels[l].added, w[l]);
    }
  }

  /** No edit adds a file number that the level has, had, or has been given before. */
  ghost predicate NeverReused(base: seq<File>, edits: seq<VersionEdit>, level: nat) {
    && (forall i :: 0 <= i < |edits| ==> FreshNumbers(base, AddedAt(edits[i].added, level)))
    && forall i, j :: 0 <= i < j < |edits| ==> FreshNumbers(AddedAt(edits[i].added, level), AddedAt(edits[j].added, level))
  }

  /** Replaying a manifest through one Builder gives the level that installing its edits one
      version at a time gave. */
  lemma {:induction false} ReplayIsStepwise(base: seq<File>, edits: seq<VersionEdit>, level: nat, states: seq<LevelState>, ws: seq<seq<File>>, saved: seq<File>)
    requires Listed(base) && NeverReused(base, edits, level)
    requires |states| == |edits| + 1 && states[0] == LevelState({}, [])
    requires forall i :: 0 <= i < |edits| ==> LevelApplied(states[i], edits[i], level, states[i + 1])
    requires |ws| == |edits| + 1 && ws[0] == base
    requires forall i :: 0 <= i < |edits| ==> Stepped(ws[i], edits[i], level, ws[i + 1])
    requires Saved(base, states[|edits|].deleted, states[|edits|].added, saved)
    ensures saved == ws[|edits|]
  {
    StepwiseMembers(base, edits, level, states, ws, |edits|);
    ListedUnique(saved, ws[|edits|]);
  }

  lemma {:induction false} StepwiseMembers(base: seq<File>, edits: seq<VersionEdit>, level: nat, states: seq<LevelState>, ws: seq<seq<File>>, n: nat)
    requires Listed(base) && NeverReused(base, edits, level)
    requires |states| == |edits| + 1 && states[0] == LevelState({}, [])
    requires forall i :: 0 <= i < |edits| ==> LevelApplied(states[i], edits[i], level, states[i + 1])
    requires |ws| == |edits| + 1 && ws[0] == base
    requires forall i :: 0 <= i < |edits| ==> Stepped(ws[i], edits[i], level, ws[i + 1])
    requires n <= |edits|
    ensures Listed(ws[n])
    ensures forall f :: f in states[n].added ==> exists i :: 0 <= i < n && f in AddedAt(edits[i].added, level)
    ensures forall f :: f in ws[n] <==> (f in base || f in states[n].added) && f.number !in states[n].deleted
  {
    if n > 0 {
      var m := n - 1;
      StepwiseMembers(base, edits, level, states, ws, m);
      assert LevelApplied(states[m], edits[m], level, states[m + 1]) && Stepped(ws[m], edits[m], level, ws[m + 1]);
      var a := AddedAt(edits[m].added, level);
      forall f | f in base || f in states[m].added
        ensures f.number !in Numbers(a)
      {
        if f in states[m].added {
          var i :| 0 <= i < m && f in AddedAt(edits[i].added, level);
          assert FreshNumbers(AddedAt(edits[i].added, level), a);
        }
      }
      forall f | f in states[n].added
        ensures exists i :: 0 <= i < n && f in AddedAt(edits[i].added, level)
      {
        if f in states[m].added {
          var i :| 0 <= i < m && f in AddedAt(edits[i].added, level);
        }
      }
    }
  }
}
