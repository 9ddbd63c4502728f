/** Choosing where a memtable lands and which files a compaction reads. */
module Picking {
  import opened Keys
  import opened Versions

  /** Order-preserving filter: what GetOverlappingInputs collects in one pass. */
  function Overlapping(fs: seq<File>, lo: Option<UserKey>, hi: Option<UserKey>): (r: seq<File>)
    ensures forall f :: f in r <==> f in fs && Overlaps(f, lo, hi)
  {
    if fs == [] then [] else
      assert fs == fs[..|fs| - 1] + [fs[|fs| - 1]];
      var last := fs[|fs| - 1];
      Overlapping(fs[..|fs| - 1], lo, hi) + (if Overlaps(last, lo, hi) then [last] else [])
  }

  predicate Within(f: File, lo: Option<UserKey>, hi: Option<UserKey>) {
    && (lo.Some? ==> lo.value <= f.smallest.user)
    && (hi.Some? ==> f.largest.user <= hi.value)
  }

  /** No file of the level straddles an end of the range. */
  ghost predicate Stable(fs: seq<File>, lo: Option<UserKey>, hi: Option<UserKey>) {
    forall f :: f in fs && Overlaps(f, lo, hi) ==> Within(f, lo, hi)
  }

  /** [lo2, hi2] contains [lo, hi] and is open at the same ends. */
  predicate Widens(lo: Option<UserKey>, hi: Option<UserKey>, lo2: Option<UserKey>, hi2: Option<UserKey>) {
    && lo.Some? == lo2.Some? && hi.Some? == hi2.Some?
    && (lo.Some? ==> lo2.value <= lo.value)
    && (hi.Some? ==> hi.value <= hi2.value)
  }

  /** How many files reach beyond an end of the range: decreases at every restart. */
  function Beyond(fs: seq<File>, lo: Option<UserKey>, hi: Option<UserKey>): nat {
    if fs == [] then 0 else
      (if lo.Some? && fs[0].smallest.user < lo.value then 1 else 0) +
      (if hi.Some? && fs[0].largest.user > hi.value then 1 else 0) +
      Beyond(fs[1..], lo, hi)
  }

  lemma {:induction false} BeyondShrinks(fs: seq<File>, lo: Option<UserKey>, hi: Option<UserKey>, lo2: Option<UserKey>, hi2: Option<UserKey>)
    requires Widens(lo, hi, lo2, hi2)
    ensures Beyond(fs, lo2, hi2) <= Beyond(fs, lo, hi)
    ensures lo.Some? && (exists f :: f in fs && lo2.value <= f.smallest.user < lo.value) ==> Beyond(fs, lo2, hi2) < Beyond(fs, lo, hi)
    ensures hi.Some? && (exists f :: f in fs && hi.value < f.largest.user <= hi2.value) ==> Beyond(fs, lo2, hi2) < Beyond(fs, lo, hi)
  {
    if fs != [] {
      BeyondShrinks(fs[1..], lo, hi, lo2, hi2);
      assert fs == [fs[0]] + fs[1..];
    }
  }

  /** Every stable range that contains the request contains [lo, hi]. */
  ghost predicate InEveryStable(files: seq<File>, begin: Option<UserKey>, end: Option<UserKey>, lo: Option<UserKey>, hi: Option<UserKey>) {
    && Widens(begin, end, lo, hi)
    && forall b, e {:trigger Widens(begin, end, b, e)} :: Widens(begin, end, b, e) && Stable(files, b, e) ==> Widens(lo, hi, b, e)
  }

  /** Growing the range to a file that straddles its lower end. */
  lemma GrowDown(files: seq<File>, begin: Option<UserKey>, end: Option<UserKey>, lo: Option<UserKey>, hi: Option<UserKey>, f: File)
    requires InEveryStable(files, begin, end, lo, hi)
    requires f in files && Overlaps(f, lo, hi) && lo.Some? && f.smallest.user < lo.value
    ensures InEveryStable(files, begin, end, Some(f.smallest.user), hi)
    ensures Beyond(files, Some(f.smallest.user), hi) < Beyond(files, lo, hi)
  {
    forall b, e | Widens(begin, end, b, e) && Stable(files, b, e)
      ensures Widens(Some(f.smallest.user), hi, b, e)
    {
      assert Widens(lo, hi, b, e) && Overlaps(f, b, e) && Within(f, b, e);
    }
    BeyondShrinks(files, lo, hi, Some(f.smallest.user), hi);
  }

  lemma GrowUp(files: seq<File>, begin: Option<UserKey>, end: Option<UserKey>, lo: Option<UserKey>, hi: Option<UserKey>, f: File)
    requires InEveryStable(files, begin, end, lo, hi)
    requires f in files && Overlaps(f, lo, hi) && hi.Some? && f.largest.user > hi.value
    ensures InEveryStable(files, begin, end, lo, Some(f.largest.user))
    ensures Beyond(files, lo, Some(f.largest.user)) < Beyond(files, lo, hi)
  {
    forall b, e | Widens(begin, end, b, e) && Stable(files, b, e)
      ensures Widens(lo, Some(f.largest.user), b, e)
    {
      assert Widens(lo, hi, b, e) && Overlaps(f, b, e) && Within(f, b, e);
    }
    BeyondShrinks(files, lo, hi, lo, Some(f.largest.user));
  }

  /** The state of one pass: `inputs` are the overlapping files among the first `i`. */
  ghost predicate Passing(files: seq<File>, level: nat, i: nat, lo: Option<UserKey>, hi: Option<UserKey>, inputs: seq<File>) {
    && i <= |files| && inputs == Overlapping(files[..i], lo, hi)
    && (level == 0 ==> Stable(files[..i], lo, hi))
  }

  lemma PassOne(files: seq<File>, level: nat, i: nat, lo: Option<UserKey>, hi: Option<UserKey>, inputs: seq<File>)
    requires i < |files| && Passing(files, level, i, lo, hi, inputs)
    requires level == 0 && Overlaps(files[i], lo, hi) ==> Within(files[i], lo, hi)
    ensures Passing(files, level, i + 1, lo, hi, if Overlaps(files[i], lo, hi) then inputs + [files[i]] else inputs)
  {
    assert files[..i + 1] == files[..i] + [files[i]];
    assert files[..i + 1][..i] == files[..i];
  }

  /** Version::GetOverlappingInputs. At level 0 the range grows until it is stable, and the
      range found is the least stable one that contains the request. */
  method GetOverlappingInputs(v: Version, level: nat, begin: Option<UserKey>, end: Option<UserKey>)
    returns (inputs: seq<File>, lo: Option<UserKey>, hi: Option<UserKey>)
    requires level < |v|
    ensures inputs == Overlapping(v[level], lo, hi)
    ensures InEveryStable(v[level], begin, end, lo, hi)
    ensures level > 0 ==> lo == begin && hi == end
    ensures level == 0 ==> Stable(v[0], lo, hi)
  {
    var files := v[level];
    inputs, lo, hi := [], begin, end;
    var i := 0;
    while i < |files|
      invariant Passing(files, level, i, lo, hi, inputs)
      invariant InEveryStable(files, begin, end, lo, hi)
      invariant level > 0 ==> lo == begin && hi == end
      decreases Beyond(files, lo, hi), |files| - i
    {
      var f := files[i];
      if lo.Some? && f.largest.user < lo.value {
        PassOne(files, level, i, lo, hi, inputs);
        i := i + 1;
      } else if hi.Some? && f.smallest.user > hi.value {
        PassOne(files, level, i, lo, hi, inputs);
        i := i + 1;
      } else if level == 0 && lo.Some? && f.smallest.user < lo.value {
        GrowDown(files, begin, end, lo, hi, f);
        lo := Some(f.smallest.user);
        inputs, i := [], 0;
      } else if level == 0 && hi.Some? && f.largest.user > hi.value {
        GrowUp(files, begin, end, lo, hi, f);
        hi := Some(f.largest.user);
        inputs, i := [], 0;
      } else {
        PassOne(files, level, i, lo, hi, inputs);
        inputs := inputs + [f];
        i := i + 1;
      }
    }
    assert files[..|files|] == files;
  }

  function TotalFileSize(fs: seq<File>): nat {
    if fs == [] then 0 else fs[0].size + TotalFileSize(fs[1..])
  }

  lemma {:induction false} TotalFileSizeJoin(a: seq<File>, b: seq<File>)
    ensures TotalFileSize(a + b) == TotalFileSize(a) + TotalFileSize(b)
    ensures forall f: File :: TotalFileSize([f]) == f.size
    decreases |a|
  {
    if a == [] {
      assert a + b == b;
    } else {
      assert (a + b)[1..] == a[1..] + b;
      TotalFileSizeJoin(a[1..], b);
    }
  }

  /** MaxGrandParentOverlapBytes and ExpandedCompactionByteSizeLimit. */
  function MaxGrandParentOverlapBytes(maxFileSize: nat): nat { 10 * maxFileSize }
  function ExpandedCompactionByteSizeLimit(maxFileSize: nat): nat { 25 * maxFileSize }

  ghost predicate Untouched(v: Version, level: nat, lo: UserKey, hi: UserKey)
    requires level < |v|
  {
    forall f :: f in v[level] ==> !Overlaps(f, Some(lo), Some(hi))
  }

  /** A memtable's file may go from level l to the next: no file there meets its range, and no
      more than ten files' worth does on the level below. */
  ghost predicate MayDescend(v: Version, l: nat, lo: UserKey, hi: UserKey, maxFileSize: nat)
    requires l + 1 < |v|
  {
    Untouched(v, l + 1, lo, hi) && (l + 2 < |v| ==> TotalFileSize(Overlapping(v[l + 2], Some(lo), Some(hi))) <= 10 * maxFileSize)
  }

  /** Version::PickLevelForMemTableOutput: a level below 0 is chosen only when no file of it
      or of any shallower level meets the memtable's range, and then the deepest of the first
      three that can be reached. */
  method PickLevelForMemTableOutput(v: Version, lo: UserKey, hi: UserKey, maxFileSize: nat) returns (level: nat)
    requires LevelInv(v)
    ensures level <= 2 && level <= MAX_MEM_COMPACT_LEVEL
    ensures level > 0 ==> forall l :: 0 <= l <= level ==> Untouched(v, l, lo, hi)
    ensures forall l :: 0 <= l < level ==> MayDescend(v, l, lo, hi, maxFileSize)
    ensures Untouched(v, 0, lo, hi) && level < 2 ==> !MayDescend(v, level, lo, hi, maxFileSize)
  {
    level := 0;
    var overlap := SomeFileOverlapsRange(false, v[0], Some(lo), Some(hi));
    if !overlap {
      while level < MAX_MEM_COMPACT_LEVEL
        invariant level <= MAX_MEM_COMPACT_LEVEL
        invariant forall l :: 0 <= l <= level ==> Untouched(v, l, lo, hi)
        invariant forall l :: 0 <= l < level ==> MayDescend(v, l, lo, hi, maxFileSize)
      {
        var further := Descends(v, level, lo, hi, maxFileSize);
        if !further {
          break;
        }
        level := level + 1;
      }
    }
  }

  /** The tests of one turn of that loop. */
  method Descends(v: Version, level: nat, lo: UserKey, hi: UserKey, maxFileSize: nat) returns (r: bool)
    requires LevelInv(v) && level + 1 < NUM_LEVELS
    ensures r <==> MayDescend(v, level, lo, hi, maxFileSize)
  {
    var overlap := SomeFileOverlapsRange(true, v[level + 1], Some(lo), Some(hi));
    if overlap {
      return false;
    }
    if level + 2 < NUM_LEVELS {
      var overlaps, _, _ := GetOverlappingInputs(v, level + 2, Some(lo), Some(hi));
      if TotalFileSize(overlaps) > MaxGrandParentOverlapBytes(maxFileSize) {
        return false;
      }
    }
    r := true;
  }

  // ---- Compaction inputs ----

  /** A compaction's inputs at `level` and `level + 1`, and the range of the former. */
  datatype Inputs = Inputs(level: nat, in0: seq<File>, in1: seq<File>, smallest: InternalKey, largest: InternalKey, grandparents: seq<File>)

  ghost predicate SubsetOf(fs: seq<File>, gs: seq<File>) {
    forall f :: f in fs ==> f in gs
  }

  /** No file of `fs` left out of `ins` holds, for a user key of `ins`, an older entry. */
  ghost predicate NoneOlderLeft(fs: seq<File>, ins: seq<File>) {
    forall f, g {:trigger NewerFile(g, f)} :: f in ins && g in fs && g !in ins ==> NewerFile(g, f)
  }

  /** What a compaction's inputs satisfy, however it was triggered. */
  ghost predicate GoodInputs(v: Version, c: Inputs) {
    && |v| == NUM_LEVELS && c.level + 1 < NUM_LEVELS
    && c.in0 != []
    && SubsetOf(c.in0, v[c.level])
    && Listed(c.in0) && Listed(c.in1)
    && NoneOlderLeft(v[c.level], c.in0)
    && (forall f :: f in c.in0 ==> Within(f, Some(c.smallest.user), Some(c.largest.user)))
    && (forall g :: g in c.in1 <==> g in v[c.level + 1] && Overlaps(g, Some(c.smallest.user), Some(c.largest.user)))
  }

  /** Largest key in a non-empty list of files. */
  ghost predicate IsLargest(fs: seq<File>, key: InternalKey) {
    (exists f :: f in fs && f.largest == key) && forall f :: f in fs ==> !Less(key, f.largest)
  }

  ghost predicate IsSmallest(fs: seq<File>, key: InternalKey) {
    (exists f :: f in fs && f.smallest == key) && forall f :: f in fs ==> !Less(f.smallest, key)
  }

  /** VersionSet::GetRange. */
  method GetRange(inputs: seq<File>) returns (smallest: InternalKey, largest: InternalKey)
    requires inputs != []
    ensures IsSmallest(inputs, smallest) && IsLargest(inputs, largest)
  {
    smallest, largest := inputs[0].smallest, inputs[0].largest;
    for i := 1 to |inputs|
      invariant IsSmallest(inputs[..i], smallest) && IsLargest(inputs[..i], largest)
    {
      var f := inputs[i];
      assert inputs[..i + 1] == inputs[..i] + [f];
      ghost var s0 :| s0 in inputs[..i] && s0.smallest == smallest;
      ghost var l0 :| l0 in inputs[..i] && l0.largest == largest;
      if Less(f.smallest, smallest) {
        smallest := f.smallest;
      }
      if Less(largest, f.largest) {
        largest := f.largest;
      }
      assert (if smallest == f.smallest then f else s0) in inputs[..i + 1];
      assert (if largest == f.largest then f else l0) in inputs[..i + 1];
    }
    assert inputs[..|inputs|] == inputs;
  }

  /** FindLargestKey. */
  method FindLargestKey(files: seq<File>) returns (largest: Option<InternalKey>)
    ensures files == [] <==> largest.None?
    ensures largest.Some? ==> IsLargest(files, largest.value)
  {
    if files == [] {
      return None;
    }
    var _, key := GetRange(files);
    return Some(key);
  }

  /** `g` starts after `key` but with the user key of `key`. */
  predicate IsBoundary(g: File, key: InternalKey) {
    Less(key, g.smallest) && g.smallest.user == key.user
  }

  /** FindSmallestBoundaryFile. */
  method FindSmallestBoundaryFile(levelFiles: seq<File>, largestKey: InternalKey) returns (r: Option<File>)
    ensures r.Some? ==> r.value in levelFiles && IsBoundary(r.value, largestKey)
    ensures r.Some? ==> forall g :: g in levelFiles && IsBoundary(g, largestKey) ==> !Less(g.smallest, r.value.smallest)
    ensures r.None? ==> NoBoundary(levelFiles, largestKey)
  {
    r := None;
    for i := 0 to |levelFiles|
      invariant r.Some? ==> r.value in levelFiles && IsBoundary(r.value, largestKey)
      invariant r.Some? ==> forall j :: 0 <= j < i && IsBoundary(levelFiles[j], largestKey) ==> !Less(levelFiles[j].smallest, r.value.smallest)
      invariant r.None? ==> forall j :: 0 <= j < i ==> !IsBoundary(levelFiles[j], largestKey)
    {
      var f := levelFiles[i];
      if IsBoundary(f, largestKey) {
        if r.None? || Less(f.smallest, r.value.smallest) {
          r := Some(f);
        }
      }
    }
  }

  /** Files of the level between two chosen ones are chosen. */
  ghost predicate Convex(fs: seq<File>, ins: seq<File>) {
    forall f, g, h :: f in ins && g in ins && h in fs && Less(f.largest, h.smallest) && Less(h.largest, g.smallest) ==> h in ins
  }

  function Above(fs: seq<File>, key: InternalKey): nat {
    if fs == [] then 0 else (if Less(key, fs[0].smallest) then 1 else 0) + Above(fs[1..], key)
  }

  lemma {:induction false} AboveShrinks(fs: seq<File>, key: InternalKey, key2: InternalKey)
    requires Less(key, key2)
    ensures Above(fs, key2) <= Above(fs, key)
    ensures (exists f :: f in fs && Less(key, f.smallest) && !Less(key2, f.smallest)) ==> Above(fs, key2) < Above(fs, key)
  {
    if fs != [] {
      AboveShrinks(fs[1..], key, key2);
      assert fs == [fs[0]] + fs[1..];
    }
  }

  ghost predicate NoDuplicates(fs: seq<File>) {
    forall i, j :: 0 <= i < j < |fs| ==> fs[i] != fs[j]
  }

  /** File i was a boundary file of the files before it. */
  ghost predicate BoundaryAt(r: seq<File>, i: nat)
    requires i < |r|
  {
    exists key :: IsLargest(r[..i], key) && IsBoundary(r[i], key)
  }

  /** What AddBoundaryInputs keeps of the files it started from. */
  ghost predicate Extends(fs: seq<File>, start: seq<File>, r: seq<File>) {
    && start <= r && SubsetOf(r, fs) && Chained(start, r)
    && (NoDuplicates(start) ==> NoDuplicates(r))
    && (AllSeparate(fs) && Convex(fs, start) ==> Convex(fs, r))
    && (Listed(start) ==> Listed(r))
  }

  ghost predicate Chained(start: seq<File>, r: seq<File>) {
    forall i :: |start| <= i < |r| ==> BoundaryAt(r, i)
  }

  lemma ChainedMore(start: seq<File>, r: seq<File>, key: InternalKey, b: File)
    requires Chained(start, r) && IsLargest(r, key) && IsBoundary(b, key)
    ensures Chained(start, r + [b])
  {
    var more := r + [b];
    forall i | |start| <= i < |more|
      ensures BoundaryAt(more, i)
    {
      if i < |r| {
        assert more[..i] == r[..i] && BoundaryAt(r, i);
      } else {
        assert more[..i] == r;
      }
    }
  }

  /** The start and all files that boundaries call for, and no others. */
  ghost predicate Closure(fs: seq<File>, start: seq<File>, r: seq<File>) {
    start <= r && SubsetOf(r, fs) && Chained(start, r) && forall key :: IsLargest(r, key) ==> NoBoundary(fs, key)
  }

  ghost predicate NoBoundary(fs: seq<File>, key: InternalKey) {
    forall g :: g in fs ==> !IsBoundary(g, key)
  }

  /** AddBoundaryInputs: adds level files one at a time, each at most once, until no file of
      the level starts with the user key of the largest key; convex choices stay convex. */
  method AddBoundaryInputs(levelFiles: seq<File>, compactionFiles: seq<File>) returns (r: seq<File>)
    requires FilesOk(levelFiles) && SubsetOf(compactionFiles, levelFiles)
    ensures Extends(levelFiles, compactionFiles, r)
    ensures forall key :: IsLargest(r, key) ==> NoBoundary(levelFiles, key)
    ensures (forall key :: IsLargest(compactionFiles, key) ==> NoBoundary(levelFiles, key)) ==> r == compactionFiles
  {
    r := compactionFiles;
    var largest := FindLargestKey(compactionFiles);
    if largest.None? {
      return;
    }
    var largestKey := largest.value;
    var continueSearching := true;
    while continueSearching
      invariant Extends(levelFiles, compactionFiles, r)
      invariant IsLargest(r, largestKey)
      invariant !continueSearching ==> NoBoundary(levelFiles, largestKey)
      invariant r == compactionFiles || exists key :: IsLargest(compactionFiles, key) && !NoBoundary(levelFiles, key)
      decreases Above(levelFiles, largestKey), continueSearching
    {
      var b := FindSmallestBoundaryFile(levelFiles, largestKey);
      if b.Some? {
        ExtendsFurther(levelFiles, compactionFiles, r, largestKey, b.value);
        AboveShrinks(levelFiles, largestKey, b.value.largest);
        r := r + [b.value];
        largestKey := b.value.largest;
      } else {
        continueSearching := false;
      }
    }
  }

  /** One step of AddBoundaryInputs. */
  lemma BoundaryExtends(fs: seq<File>, ins: seq<File>, key: InternalKey, b: File)
    requires FilesOk(fs) && SubsetOf(ins, fs) && IsLargest(ins, key)
    requires b in fs && IsBoundary(b, key)
    requires forall g :: g in fs && IsBoundary(g, key) ==> !Less(g.smallest, b.smallest)
    ensures b !in ins && Less(key, b.largest) && !Less(b.largest, b.smallest)
    ensures IsLargest(ins + [b], b.largest)
    ensures Listed(ins) ==> Listed(ins + [b])
    ensures AllSeparate(fs) && Convex(fs, ins) ==> Convex(fs, ins + [b])
  {
    RangeOrdered(b);
    assert b in ins + [b];
    forall f | f in ins
      ensures BySmallest(f, b)
    {
      RangeOrdered(f);
    }
    if AllSeparate(fs) && Convex(fs, ins) {
      var m :| m in ins && m.largest == key;
      forall f, g, h | f in ins + [b] && g in ins + [b] && h in fs && Less(f.largest, h.smallest) && Less(h.largest, g.smallest)
        ensures h in ins + [b]
      {
        assert h == m || Separate(h, m);
        assert f in ins && g in ins ==> h in ins;
        assert f in ins && Less(h.largest, m.smallest) ==> h in ins;
        BetweenBoundary(f, g, h, m, b);
      }
    }
  }

  /** Nothing lies strictly between the largest chosen file `m` and its boundary file `b`. */
  lemma BetweenBoundary(f: File, g: File, h: File, m: File, b: File)
    requires FileOk(f) && FileOk(g) && FileOk(h) && FileOk(m) && FileOk(b)
    requires Less(f.largest, h.smallest) && Less(h.largest, g.smallest)
    requires !Less(m.largest, f.largest) || f == b
    requires !Less(m.largest, g.largest) || g == b
    requires IsBoundary(b, m.largest)
    requires IsBoundary(h, m.largest) ==> !Less(h.smallest, b.smallest)
    ensures f != b && (g == b ==> !Less(m.largest, h.smallest))
  {
    RangeOrdered(f);
    RangeOrdered(g);
    RangeOrdered(h);
    RangeOrdered(m);
    RangeOrdered(b);
  }

  lemma ExtendsFurther(fs: seq<File>, start: seq<File>, r: seq<File>, key: InternalKey, b: File)
    requires FilesOk(fs) && Extends(fs, start, r) && IsLargest(r, key)
    requires b in fs && IsBoundary(b, key)
    requires forall g :: g in fs && IsBoundary(g, key) ==> !Less(g.smallest, b.smallest)
    ensures Extends(fs, start, r + [b]) && IsLargest(r + [b], b.largest)
    ensures Less(key, b.largest) && !Less(b.largest, b.smallest)
    ensures !NoBoundary(fs, key)
  {
    BoundaryExtends(fs, r, key, b);
    ChainedMore(start, r, key, b);
  }

  /** Level 0: files left out share no user key with files chosen. */
  ghost predicate Apart(fs: seq<File>, ins: seq<File>) {
    forall f, g :: f in ins && g in fs && g !in ins ==> f.largest.user < g.smallest.user || g.largest.user < f.smallest.user
  }

  /** The files a compaction starts from. */
  ghost predicate Seed(v: Version, level: nat, in0: seq<File>) {
    && |v| == NUM_LEVELS && level + 1 < NUM_LEVELS
    && in0 != [] && SubsetOf(in0, v[level]) && Listed(in0)
    && (level == 0 ==> Apart(v[0], in0))
    && (level > 0 ==> Convex(v[level], in0))
  }

  lemma OverlappingIsSeed(v: Version, level: nat, lo: Option<UserKey>, hi: Option<UserKey>)
    requires LevelInv(v) && level + 1 < NUM_LEVELS
    requires Overlapping(v[level], lo, hi) != []
    requires level == 0 ==> Stable(v[0], lo, hi)
    ensures Seed(v, level, Overlapping(v[level], lo, hi))
  {
    var ins := Overlapping(v[level], lo, hi);
    OverlappingListed(v[level], lo, hi);
    if level > 0 {
      forall f, g, h | f in ins && g in ins && h in v[level] && Less(f.largest, h.smallest) && Less(h.largest, g.smallest)
        ensures h in ins
      {
        RangeOrdered(h);
      }
    }
  }

  lemma {:induction false} OverlappingListed(fs: seq<File>, lo: Option<UserKey>, hi: Option<UserKey>)
    requires Listed(fs)
    ensures Listed(Overlapping(fs, lo, hi))
  {
    if fs != [] {
      var init, last := fs[..|fs| - 1], fs[|fs| - 1];
      OverlappingListed(init, lo, hi);
      forall f | f in Overlapping(init, lo, hi)
        ensures BySmallest(f, last)
      {
        var i :| 0 <= i < |init| && init[i] == f;
        assert fs[i] == f;
      }
    }
  }

  lemma PrefixConvex(fs: seq<File>, all: seq<File>, n: nat)
    requires FilesOk(fs) && SubsetOf(all, fs) && Listed(all) && Convex(fs, all) && n <= |all|
    ensures Convex(fs, all[..n])
  {
    var ins := all[..n];
    forall f, g, h | f in ins && g in ins && h in fs && Less(f.largest, h.smallest) && Less(h.largest, g.smallest)
      ensures h in ins
    {
      assert f in all && g in all;
      RangeOrdered(h);
      var p :| 0 <= p < |all| && all[p] == h;
      var q :| 0 <= q < n && all[q] == g;
      assert !BySmallest(g, h);
      assert p <= q;
      assert ins[p] == h;
    }
  }

  /** The leading files of an overlapping run of a level >= 1 are still a seed. */
  lemma PrefixIsSeed(v: Version, level: nat, lo: Option<UserKey>, hi: Option<UserKey>, n: nat)
    requires LevelInv(v) && 0 < level && level + 1 < NUM_LEVELS
    requires 0 < n <= |Overlapping(v[level], lo, hi)|
    ensures Seed(v, level, Overlapping(v[level], lo, hi)[..n])
  {
    var all := Overlapping(v[level], lo, hi);
    OverlappingIsSeed(v, level, lo, hi);
    OverlappingListed(v[level], lo, hi);
    PrefixConvex(v[level], all, n);
    forall f | f in all[..n] ensures f in v[level] { assert f in all; }
  }

  /** At level 0 a seed has no boundary files to add. */
  lemma SeedHasNoBoundary(fs: seq<File>, ins: seq<File>, key: InternalKey, g: File)
    requires FilesOk(fs) && SubsetOf(ins, fs) && Apart(fs, ins)
    requires IsLargest(ins, key) && g in fs
    ensures !IsBoundary(g, key)
  {
    var m :| m in ins && m.largest == key;
    RangeOrdered(m);
    RangeOrdered(g);
  }

  /** A file `g` left out, neither between `f` and the last chosen file `m` nor a boundary of
      `m`, holds only newer entries for the user keys of `f`. */
  lemma LeftOutIsNewer(f: File, g: File, m: File, a: Entry, b: Entry)
    requires FileOk(f) && FileOk(g) && FileOk(m)
    requires Separate(f, g) && Separate(m, g) && !Less(m.largest, f.largest)
    requires !(Less(f.largest, g.smallest) && Less(g.largest, m.smallest))
    requires !IsBoundary(g, m.largest)
    requires a in g.entries && b in f.entries && a.key.user == b.key.user
    ensures Less(a.key, b.key)
  {
    InRange(g, a);
    InRange(f, b);
    RangeOrdered(m);
  }

  /** Once no boundary file remains, nothing left out of a convex choice is older. */
  lemma ConvexClosed(fs: seq<File>, ins: seq<File>, key: InternalKey)
    requires FilesOk(fs) && AllSeparate(fs) && Unique(LevelEntries(fs))
    requires SubsetOf(ins, fs) && Convex(fs, ins) && IsLargest(ins, key)
    requires forall g :: g in fs ==> !IsBoundary(g, key)
    ensures NoneOlderLeft(fs, ins)
  {
    var m :| m in ins && m.largest == key;
    forall f, g, a, b | f in ins && g in fs && g !in ins && a in g.entries && b in f.entries && a.key.user == b.key.user
      ensures a.key.sequence > b.key.sequence
    {
      assert a in LevelEntries(fs) && b in LevelEntries(fs);
      LeftOutIsNewer(f, g, m, a, b);
    }
  }

  lemma ApartClosed(fs: seq<File>, ins: seq<File>)
    requires FilesOk(fs) && SubsetOf(ins, fs) && Apart(fs, ins)
    ensures NoneOlderLeft(fs, ins)
  {
    forall f, g, a, b | f in ins && g in fs && g !in ins && a in g.entries && b in f.entries
      ensures a.key.user != b.key.user
    {
      InRange(g, a);
      InRange(f, b);
    }
  }

  lemma LevelUnique(v: Version, l: nat)
    requires l < |v| && Unique(Entries(v))
    ensures Unique(LevelEntries(v[l]))
  {
    assert LevelEntries(v[l]) <= Entries(v);
  }

  /** AddBoundaryInputs on a seed: a larger seed that leaves nothing older behind. */
  method CloseSeed(v: Version, level: nat, in0: seq<File>) returns (r: seq<File>, smallest: InternalKey, largest: InternalKey)
    requires LevelInv(v) && Unique(Entries(v)) && Seed(v, level, in0)
    ensures Seed(v, level, r) && in0 <= r && Closure(v[level], in0, r)
    ensures NoneOlderLeft(v[level], r)
    ensures IsSmallest(r, smallest) && IsLargest(r, largest)
  {
    if level == 0 {
      forall key, g | IsLargest(in0, key) && g in v[0] ensures !IsBoundary(g, key) { SeedHasNoBoundary(v[0], in0, key, g); }
      assert forall key :: IsLargest(in0, key) ==> NoBoundary(v[0], key);
    }
    r := AddBoundaryInputs(v[level], in0);
    smallest, largest := GetRange(r);
    if level == 0 {
      ApartClosed(v[0], r);
    } else {
      LevelUnique(v, level);
      ConvexClosed(v[level], r, largest);
    }
  }

  lemma RangeCovers(ins: seq<File>, smallest: InternalKey, largest: InternalKey)
    requires IsSmallest(ins, smallest) && IsLargest(ins, largest)
    ensures forall f :: f in ins ==> Within(f, Some(smallest.user), Some(largest.user))
  {}

  /** What GetOverlappingInputs finds for a request. */
  ghost predicate Reached(v: Version, level: nat, begin: Option<UserKey>, end: Option<UserKey>, inputs: seq<File>) {
    level < |v| && exists lo, hi :: ReachedBy(v, level, begin, end, lo, hi) && inputs == Overlapping(v[level], lo, hi)
  }

  ghost predicate ReachedBy(v: Version, level: nat, begin: Option<UserKey>, end: Option<UserKey>, lo: Option<UserKey>, hi: Option<UserKey>)
    requires level < |v|
  {
    InEveryStable(v[level], begin, end, lo, hi) && (if level == 0 then Stable(v[0], lo, hi) else lo == begin && hi == end)
  }

  ghost predicate IsRange(fs: seq<File>, smallest: InternalKey, largest: InternalKey) {
    IsSmallest(fs, smallest) && IsLargest(fs, largest)
  }

  /** More files of the level that could join at no cost in the next one: the candidate and its range. */
  method ExpandInputs(v: Version, level: nat, in0: seq<File>, in1: seq<File>)
    returns (expanded0: seq<File>, smallest: InternalKey, largest: InternalKey)
    requires LevelInv(v) && Unique(Entries(v)) && Seed(v, level, in0)
    ensures Seed(v, level, expanded0) && NoneOlderLeft(v[level], expanded0)
    ensures SubsetOf(in0, expanded0) && Candidate(v, level, in0, in1, expanded0)
    ensures IsSmallest(expanded0, smallest) && IsLargest(expanded0, largest)
  {
    ghost var allStart, allLimit;
    expanded0, allStart, allLimit := ReachAll(v, level, in0, in1);
    ghost var start := expanded0;
    expanded0, smallest, largest := CloseSeed(v, level, expanded0);
    CandidateIs(v, level, in0, in1, allStart, allLimit, start, expanded0);
  }

  /** The files of the level that meet the range of all inputs. */
  method ReachAll(v: Version, level: nat, in0: seq<File>, in1: seq<File>)
    returns (expanded0: seq<File>, ghost allStart: InternalKey, ghost allLimit: InternalKey)
    requires LevelInv(v) && Seed(v, level, in0)
    ensures IsRange(in0 + in1, allStart, allLimit) && Reached(v, level, Some(allStart.user), Some(allLimit.user), expanded0)
    ensures Seed(v, level, expanded0) && SubsetOf(in0, expanded0)
  {
    var start, limit := GetRange(in0 + in1);
    RangeCovers(in0 + in1, start, limit);
    var lo, hi;
    expanded0, lo, hi := GetOverlappingInputs(v, level, Some(start.user), Some(limit.user));
    forall f | f in in0
      ensures f in expanded0
    {
      assert f in in0 + in1;
      RangeOrdered(f);
    }
    assert in0[0] in expanded0;
    OverlappingIsSeed(v, level, lo, hi);
    ReachedIs(v, level, Some(start.user), Some(limit.user), lo, hi);
    allStart, allLimit := start, limit;
  }

  lemma ReachedIs(v: Version, level: nat, begin: Option<UserKey>, end: Option<UserKey>, lo: Option<UserKey>, hi: Option<UserKey>)
    requires level < |v| && ReachedBy(v, level, begin, end, lo, hi)
    ensures Reached(v, level, begin, end, Overlapping(v[level], lo, hi))
  {}

  lemma CandidateIs(v: Version, level: nat, in0: seq<File>, in1: seq<File>, smallest: InternalKey, largest: InternalKey, start: seq<File>, r: seq<File>)
    requires CandidateFrom(v, level, in0 + in1, smallest, largest, start, r)
    ensures Candidate(v, level, in0, in1, r)
  {}

  ghost predicate CandidateFrom(v: Version, level: nat, inputs: seq<File>, smallest: InternalKey, largest: InternalKey, start: seq<File>, r: seq<File>) {
    IsRange(inputs, smallest, largest) && Reached(v, level, Some(smallest.user), Some(largest.user), start) && level < |v| && Closure(v[level], start, r)
  }

  /** The files of the level that meet the range of all inputs, closed under boundaries. */
  ghost predicate Candidate(v: Version, level: nat, in0: seq<File>, in1: seq<File>, r: seq<File>) {
    exists smallest, largest, start :: CandidateFrom(v, level, in0 + in1, smallest, largest, start, r)
  }

  /** The grandparents: files of level + 2 that meet the range of all inputs. */
  method Grandparents(v: Version, level: nat, inputs: seq<File>) returns (r: seq<File>)
    requires |v| == NUM_LEVELS && inputs != []
    ensures AreGrandparents(v, level, inputs, r)
  {
    r := [];
    if level + 2 < NUM_LEVELS {
      var allStart, allLimit := GetRange(inputs);
      RangeCovers(inputs, allStart, allLimit);
      var overlaps, _, _ := GetOverlappingInputs(v, level + 2, Some(allStart.user), Some(allLimit.user));
      r := overlaps;
      assert MeetRange(v[level + 2], inputs, allStart, allLimit, r);
    }
  }

  ghost predicate MeetRange(fs: seq<File>, inputs: seq<File>, smallest: InternalKey, largest: InternalKey, r: seq<File>) {
    IsRange(inputs, smallest, largest) && r == Overlapping(fs, Some(smallest.user), Some(largest.user))
  }

  /** In order, the files two levels down that meet the range of the inputs. */
  ghost predicate AreGrandparents(v: Version, level: nat, inputs: seq<File>, r: seq<File>) {
    if level + 2 >= |v| then r == [] else MeetsInputs(v[level + 2], inputs, r)
  }

  ghost predicate MeetsInputs(fs: seq<File>, inputs: seq<File>, r: seq<File>) {
    exists smallest, largest :: MeetRange(fs, inputs, smallest, largest, r)
  }

  /** Files of level + 1 for a closed choice of level files. */
  method WithParents(v: Version, level: nat, in0: seq<File>, smallest: InternalKey, largest: InternalKey) returns (c: Inputs)
    requires LevelInv(v) && Seed(v, level, in0) && NoneOlderLeft(v[level], in0)
    requires IsSmallest(in0, smallest) && IsLargest(in0, largest)
    ensures GoodInputs(v, c)
    ensures c == Inputs(level, in0, Overlapping(v[level + 1], Some(smallest.user), Some(largest.user)), smallest, largest, [])
  {
    RangeCovers(in0, smallest, largest);
    OverlappingListed(v[level + 1], Some(smallest.user), Some(largest.user));
    var in1, lo, hi := GetOverlappingInputs(v, level + 1, Some(smallest.user), Some(largest.user));
    c := Inputs(level, in0, in1, smallest, largest, []);
  }

  lemma GrandparentsFree(v: Version, c: Inputs, grandparents: seq<File>)
    requires GoodInputs(v, c)
    ensures GoodInputs(v, c.(grandparents := grandparents))
  {}

  /** The inputs without growth: the closed seed, and the next level's files in its range. */
  ghost predicate IsBasic(v: Version, level: nat, seed: seq<File>, b: Inputs) {
    && level + 1 < |v| && b.level == level && b.grandparents == [] && Closure(v[level], seed, b.in0)
    && IsRange(b.in0, b.smallest, b.largest) && b.in1 == Overlapping(v[level + 1], Some(b.smallest.user), Some(b.largest.user))
  }

  /** Growing adds files, keeps the next level's part, and stays below 25 files' worth. */
  predicate Worthwhile(b: Inputs, w: Inputs, maxFileSize: nat) {
    && |w.in0| > |b.in0| && w.in1 == b.in1
    && TotalFileSize(b.in1) + TotalFileSize(w.in0) < 25 * maxFileSize
  }

  ghost predicate IsWide(v: Version, level: nat, b: Inputs, w: Inputs) {
    && level + 1 < |v| && w.level == level && w.grandparents == [] && Candidate(v, level, b.in0, b.in1, w.in0)
    && IsRange(w.in0, w.smallest, w.largest) && w.in1 == Overlapping(v[level + 1], Some(w.smallest.user), Some(w.largest.user))
  }

  /** `c` is the compaction that starts from the seed: grown if that is worthwhile, else not. */
  ghost predicate SetUpFrom(v: Version, level: nat, seed: seq<File>, maxFileSize: nat, c: Inputs, b: Inputs, w: Inputs) {
    && IsBasic(v, level, seed, b) && (b.in1 != [] ==> IsWide(v, level, b, w))
    && c.(grandparents := []) == (if b.in1 != [] && Worthwhile(b, w, maxFileSize) then w else b)
    && AreGrandparents(v, level, c.in0 + c.in1, c.grandparents)
  }

  ghost predicate SetUp(v: Version, level: nat, seed: seq<File>, maxFileSize: nat, c: Inputs) {
    exists b: Inputs, w: Inputs :: SetUpFrom(v, level, seed, maxFileSize, c, b, w)
  }

  /** A wider range meets all the files that a narrower one meets, in the same order. */
  lemma {:induction false} WiderMeetsMore(fs: seq<File>, lo: UserKey, hi: UserKey, lo2: UserKey, hi2: UserKey)
    requires lo2 <= lo && hi <= hi2
    ensures |Overlapping(fs, Some(lo), Some(hi))| <= |Overlapping(fs, Some(lo2), Some(hi2))|
    ensures |Overlapping(fs, Some(lo), Some(hi))| == |Overlapping(fs, Some(lo2), Some(hi2))| ==> Overlapping(fs, Some(lo), Some(hi)) == Overlapping(fs, Some(lo2), Some(hi2))
    decreases |fs|
  {
    if fs != [] {
      WiderMeetsMore(fs[..|fs| - 1], lo, hi, lo2, hi2);
    }
  }

  lemma WiderRange(a: seq<File>, b: seq<File>, s: InternalKey, l: InternalKey, s2: InternalKey, l2: InternalKey)
    requires SubsetOf(a, b) && IsRange(a, s, l) && IsRange(b, s2, l2)
    ensures s2.user <= s.user && l.user <= l2.user
  {}

  /** The grown inputs, should they be worthwhile. */
  method Widen(v: Version, b: Inputs) returns (w: Inputs)
    requires LevelInv(v) && Unique(Entries(v)) && Seed(v, b.level, b.in0)
    ensures IsWide(v, b.level, b, w) && GoodInputs(v, w) && SubsetOf(b.in0, w.in0)
  {
    var expanded0, newStart, newLimit := ExpandInputs(v, b.level, b.in0, b.in1);
    w := WithParents(v, b.level, expanded0, newStart, newLimit);
  }

  /** The part of SetupOtherInputs that may take more files of the level. */
  method Grow(v: Version, b: Inputs, maxFileSize: nat) returns (c: Inputs, ghost w: Inputs)
    requires LevelInv(v) && Unique(Entries(v)) && Seed(v, b.level, b.in0) && GoodInputs(v, b) && b.grandparents == []
    requires IsRange(b.in0, b.smallest, b.largest) && b.in1 == Overlapping(v[b.level + 1], Some(b.smallest.user), Some(b.largest.user))
    ensures IsWide(v, b.level, b, w) && c == (if Worthwhile(b, w, maxFileSize) then w else b)
    ensures GoodInputs(v, c) && SubsetOf(b.in0, c.in0) && IsRange(c.in0, c.smallest, c.largest)
  {
    var expanded := Widen(v, b);
    CountDecides(v, b, expanded);
    c, w := b, expanded;
    if |expanded.in0| > |b.in0| && TotalFileSize(b.in1) + TotalFileSize(expanded.in0) < ExpandedCompactionByteSizeLimit(maxFileSize) {
      if |expanded.in1| == |b.in1| {
        c := expanded;
      }
    }
  }

  /** As many files of the next level means the same files. */
  lemma CountDecides(v: Version, b: Inputs, w: Inputs)
    requires b.level + 1 < |v| && w.level == b.level && SubsetOf(b.in0, w.in0)
    requires IsRange(b.in0, b.smallest, b.largest) && b.in1 == Overlapping(v[b.level + 1], Some(b.smallest.user), Some(b.largest.user))
    requires IsRange(w.in0, w.smallest, w.largest) && w.in1 == Overlapping(v[w.level + 1], Some(w.smallest.user), Some(w.largest.user))
    ensures |w.in1| == |b.in1| <==> w.in1 == b.in1
  {
    WiderRange(b.in0, w.in0, b.smallest, b.largest, w.smallest, w.largest);
    WiderMeetsMore(v[b.level + 1], b.smallest.user, b.largest.user, w.smallest.user, w.largest.user);
  }

  lemma SetUpIs(v: Version, level: nat, seed: seq<File>, maxFileSize: nat, c: Inputs, b: Inputs, w: Inputs)
    requires SetUpFrom(v, level, seed, maxFileSize, c, b, w)
    ensures SetUp(v, level, seed, maxFileSize, c)
  {}

  /** VersionSet::SetupOtherInputs. */
  method SetupOtherInputs(v: Version, level: nat, seed: seq<File>, maxFileSize: nat) returns (c: Inputs)
    requires LevelInv(v) && Unique(Entries(v)) && Seed(v, level, seed)
    ensures GoodInputs(v, c) && c.level == level
    ensures SubsetOf(seed, c.in0) && SetUp(v, level, seed, maxFileSize, c)
    ensures IsSmallest(c.in0, c.smallest) && IsLargest(c.in0, c.largest)
  {
    var in0, smallest, largest := CloseSeed(v, level, seed);
    c := WithParents(v, level, in0, smallest, largest);
    ghost var b, w := c, c;
    if c.in1 != [] {
      c, w := Grow(v, c, maxFileSize);
    }
    var grandparents := Grandparents(v, level, c.in0 + c.in1);
    GrandparentsFree(v, c, grandparents);
    c := c.(grandparents := grandparents);
    SetUpIs(v, level, seed, maxFileSize, c, b, w);
  }

  /** A compaction of one file: at level 0 with all that it touches, directly or not. */
  ghost predicate FromFile(v: Version, level: nat, index: nat, maxFileSize: nat, c: Inputs) {
    && level < |v| && index < |v[level]| && c.level == level && v[level][index] in c.in0
    && exists seed :: FileSeed(v, level, v[level][index], seed) && SetUp(v, level, seed, maxFileSize, c)
  }

  ghost predicate FileSeed(v: Version, level: nat, f: File, seed: seq<File>) {
    if level == 0 then Reached(v, 0, Some(f.smallest.user), Some(f.largest.user), seed) else seed == [f]
  }

  /** VersionSet::PickCompaction once a level and a file of it have been selected. */
  method PickCompaction(v: Version, level: nat, index: nat, maxFileSize: nat) returns (c: Inputs)
    requires LevelInv(v) && Unique(Entries(v))
    requires level + 1 < NUM_LEVELS && index < |v[level]|
    ensures GoodInputs(v, c) && c.level == level
    ensures v[level][index] in c.in0 && FromFile(v, level, index, maxFileSize, c)
  {
    var f := v[level][index];
    var in0 := [f];
    if level == 0 {
      var smallest, largest := GetRange(in0);
      var lo, hi;
      in0, lo, hi := GetOverlappingInputs(v, 0, Some(smallest.user), Some(largest.user));
      RangeOrdered(f);
      assert f in in0;
      OverlappingIsSeed(v, 0, lo, hi);
      ReachedIs(v, 0, Some(smallest.user), Some(largest.user), lo, hi);
    } else {
      forall h | h in v[level]
        ensures !(Less(f.largest, h.smallest) && Less(h.largest, f.smallest))
      {
        RangeOrdered(f);
        RangeOrdered(h);
      }
    }
    c := SetupOtherInputs(v, level, in0, maxFileSize);
    assert FileSeed(v, level, f, in0);
  }

  /** File i meets the range, and the files before it that do have not reached the limit; the
      first one is taken in any case. */
  ghost predicate WithinLimit(fs: seq<File>, begin: Option<UserKey>, end: Option<UserKey>, limit: nat, i: nat)
    requires i < |fs|
  {
    && Overlaps(fs[i], begin, end)
    && (Overlapping(fs[..i], begin, end) == [] || TotalFileSize(Overlapping(fs[..i], begin, end)) < limit)
  }

  /** A compaction of a range: at level 0 of all files it touches, directly or not, and below
      of those up to the limit. */
  ghost predicate FromRange(v: Version, level: nat, begin: Option<UserKey>, end: Option<UserKey>, maxFileSize: nat, c: Inputs) {
    && level < |v| && c.level == level
    && exists seed :: RangeSeed(v, level, begin, end, maxFileSize, seed) && SubsetOf(seed, c.in0) && SetUp(v, level, seed, maxFileSize, c)
  }

  ghost predicate RangeSeed(v: Version, level: nat, begin: Option<UserKey>, end: Option<UserKey>, maxFileSize: nat, seed: seq<File>)
    requires level < |v|
  {
    if level == 0 then Reached(v, 0, begin, end, seed)
    else forall i :: 0 <= i < |v[level]| ==> (v[level][i] in seed <==> WithinLimit(v[level], begin, end, maxFileSize, i))
  }

  lemma {:induction false} OverlappingPrefix(fs: seq<File>, lo: Option<UserKey>, hi: Option<UserKey>, i: nat)
    requires i < |fs|
    ensures var before, all := Overlapping(fs[..i], lo, hi), Overlapping(fs, lo, hi);
      before <= all && (Overlaps(fs[i], lo, hi) ==> |before| < |all| && all[|before|] == fs[i])
    decreases |fs|
  {
    var front := fs[..|fs| - 1];
    if i < |fs| - 1 {
      OverlappingPrefix(front, lo, hi, i);
      assert front[..i] == fs[..i];
    } else {
      assert front == fs[..i];
    }
  }

  /** Sizes of a longer prefix are no smaller. */
  lemma SizesGrow(fs: seq<File>, i: nat, j: nat)
    requires i <= j <= |fs|
    ensures TotalFileSize(fs[..i]) <= TotalFileSize(fs[..j])
  {
    assert fs[..j] == fs[..i] + fs[i..j];
    TotalFileSizeJoin(fs[..i], fs[i..j]);
  }

  /** The first n files of the range are those within the limit, if their sizes reach the limit
      only with the last of them, or never and they are all. */
  lemma LimitedSeed(v: Version, level: nat, begin: Option<UserKey>, end: Option<UserKey>, limit: nat, n: nat)
    requires LevelInv(v) && 0 < level < NUM_LEVELS
    requires var all := Overlapping(v[level], begin, end);
      0 < n <= |all| && (n == 1 || TotalFileSize(all[..n - 1]) < limit) && (n < |all| ==> TotalFileSize(all[..n]) >= limit)
    ensures RangeSeed(v, level, begin, end, limit, Overlapping(v[level], begin, end)[..n])
  {
    var fs, all := v[level], Overlapping(v[level], begin, end);
    OverlappingListed(fs, begin, end);
    forall i | 0 <= i < |fs|
      ensures fs[i] in all[..n] <==> WithinLimit(fs, begin, end, limit, i)
    {
      if Overlaps(fs[i], begin, end) {
        OverlappingPrefix(fs, begin, end, i);
        LimitAt(all, limit, n, Overlapping(fs[..i], begin, end));
      }
    }
  }

  lemma LimitAt(all: seq<File>, limit: nat, n: nat, before: seq<File>)
    requires Listed(all) && before < all && 0 < n <= |all|
    requires (n == 1 || TotalFileSize(all[..n - 1]) < limit) && (n < |all| ==> TotalFileSize(all[..n]) >= limit)
    ensures all[|before|] in all[..n] <==> before == [] || TotalFileSize(before) < limit
  {
    var k := |before|;
    assert before == all[..k];
    if k < n {
      SizesGrow(all, k, n - 1);
      assert all[..n][k] == all[k];
    } else {
      SizesGrow(all, n, k);
      forall m | 0 <= m < n
        ensures all[m] != all[k]
      {
        assert BySmallest(all[m], all[k]);
      }
    }
  }

  /** The leading files whose sizes reach the limit, or all. */
  method Limit(inputs: seq<File>, limit: nat) returns (n: nat)
    requires inputs != []
    ensures 0 < n <= |inputs| && (n == 1 || TotalFileSize(inputs[..n - 1]) < limit) && (n < |inputs| ==> TotalFileSize(inputs[..n]) >= limit)
  {
    var total := 0;
    var i := 0;
    while i < |inputs|
      invariant 0 <= i <= |inputs| && total == TotalFileSize(inputs[..i]) && (i == 0 || total < limit)
    {
      assert inputs[..i + 1] == inputs[..i] + [inputs[i]];
      TotalFileSizeJoin(inputs[..i], [inputs[i]]);
      total := total + inputs[i].size;
      if total >= limit {
        return i + 1;
      }
      i := i + 1;
    }
    assert inputs[..|inputs|] == inputs;
    SizesGrow(inputs, |inputs| - 1, |inputs|);
    n := |inputs|;
  }

  /** The files of the level that CompactRange starts from. */
  method StartOfRange(v: Version, level: nat, begin: Option<UserKey>, end: Option<UserKey>, maxFileSize: nat) returns (inputs: seq<File>)
    requires LevelInv(v) && level + 1 < NUM_LEVELS
    ensures inputs == [] ==> forall f :: f in v[level] ==> !Overlaps(f, begin, end)
    ensures inputs != [] ==> Seed(v, level, inputs) && RangeSeed(v, level, begin, end, maxFileSize, inputs)
    ensures level == 0 ==> forall f :: f in v[level] && Overlaps(f, begin, end) ==> f in inputs
  {
    var lo, hi;
    inputs, lo, hi := GetOverlappingInputs(v, level, begin, end);
    assert forall f :: f in v[level] && Overlaps(f, begin, end) ==> f in inputs;
    if inputs == [] {
      return;
    }
    OverlappingIsSeed(v, level, lo, hi);
    if level > 0 {
      var n := Limit(inputs, maxFileSize);
      PrefixIsSeed(v, level, lo, hi, n);
      LimitedSeed(v, level, begin, end, maxFileSize, n);
      inputs := inputs[..n];
    } else {
      ReachedIs(v, level, begin, end, lo, hi);
    }
  }

  lemma FromRangeIs(v: Version, level: nat, begin: Option<UserKey>, end: Option<UserKey>, maxFileSize: nat, c: Inputs, seed: seq<File>)
    requires level < |v| && c.level == level && RangeSeed(v, level, begin, end, maxFileSize, seed) && SubsetOf(seed, c.in0)
    requires SetUp(v, level, seed, maxFileSize, c)
    ensures FromRange(v, level, begin, end, maxFileSize, c)
  {}

  /** VersionSet::CompactRange: nothing if no file of the level meets the range. */
  method CompactRange(v: Version, level: nat, begin: Option<UserKey>, end: Option<UserKey>, maxFileSize: nat)
    returns (c: Option<Inputs>)
    requires LevelInv(v) && Unique(Entries(v)) && level + 1 < NUM_LEVELS
    ensures c.Some? ==> GoodInputs(v, c.value) && FromRange(v, level, begin, end, maxFileSize, c.value)
    ensures c.None? ==> forall f :: f in v[level] ==> !Overlaps(f, begin, end)
    ensures c.Some? && level == 0 ==> forall f :: f in v[level] && Overlaps(f, begin, end) ==> f in c.value.in0
  {
    var inputs := StartOfRange(v, level, begin, end, maxFileSize);
    if inputs == [] {
      return None;
    }
    var r := SetupOtherInputs(v, level, inputs, maxFileSize);
    FromRangeIs(v, level, begin, end, maxFileSize, r, inputs);
    c := Some(r);
  }

  /** Compaction::IsTrivialMove. */
  predicate IsTrivialMove(c: Inputs, maxFileSize: nat) {
    |c.in0| == 1 && |c.in1| == 0 && TotalFileSize(c.grandparents) <= MaxGrandParentOverlapBytes(maxFileSize)
  }
}
