/** Versions: seven levels of table files, the level invariant, and point lookup. */
module Versions {
  import opened Keys

  const NUM_LEVELS: nat := 7
  const MAX_MEM_COMPACT_LEVEL: nat := 2

  /** FileMetaData together with the contents of its table. */
  datatype File = File(number: nat, size: nat, smallest: InternalKey, largest: InternalKey, entries: seq<Entry>)

  /** Version::files_ */
  type Version = seq<seq<File>>

  ghost predicate FileOk(f: File) {
    && f.entries != []
    && Sorted(f.entries)
    && f.smallest == f.entries[0].key
    && f.largest == f.entries[|f.entries| - 1].key
    && forall e :: e in f.entries ==> e.key.sequence < MAX_SEQUENCE
  }

  /** BySmallestKey: the order in which a level lists its files. */
  predicate BySmallest(f: File, g: File) {
    if f.smallest == g.smallest then f.number < g.number else Less(f.smallest, g.smallest)
  }

  ghost predicate Listed(fs: seq<File>) {
    forall i, j :: 0 <= i < j < |fs| ==> BySmallest(fs[i], fs[j])
  }

  /** The internal-key ranges of `f` and `g` do not meet. */
  predicate Separate(f: File, g: File) {
    Less(f.largest, g.smallest) || Less(g.largest, f.smallest)
  }

  /** Every entry of `f` is newer than every entry of `g` for the same user key. */
  ghost predicate NewerFile(f: File, g: File) {
    forall a, b :: a in f.entries && b in g.entries && a.key.user == b.key.user ==> a.key.sequence > b.key.sequence
  }

  ghost predicate FilesOk(fs: seq<File>) {
    forall f {:trigger FileOk(f)} :: f in fs ==> FileOk(f)
  }

  ghost predicate AllSeparate(fs: seq<File>) {
    forall f, g {:trigger Separate(f, g)} :: f in fs && g in fs && f != g ==> Separate(f, g)
  }

  ghost predicate NumbersOrderAge(fs: seq<File>) {
    forall f, g {:trigger NewerFile(f, g)} :: f in fs && g in fs && f.number > g.number ==> NewerFile(f, g)
  }

  ghost predicate NewerLevel(fs: seq<File>, gs: seq<File>) {
    forall f, g {:trigger NewerFile(f, g)} :: f in fs && g in gs ==> NewerFile(f, g)
  }

  ghost predicate NumbersUnique(fs: seq<File>, gs: seq<File>) {
    forall f, g :: f in fs && g in gs && f.number == g.number ==> f == g
  }

  ghost predicate NumbersDistinct(fs: seq<File>, gs: seq<File>) {
    forall f, g :: f in fs && g in gs ==> f.number != g.number
  }

  /** The level invariant: what every version installed by the database satisfies. */
  ghost predicate LevelInv(v: Version) {
    && |v| == NUM_LEVELS
    && (forall l :: 0 <= l < NUM_LEVELS ==> FilesOk(v[l]) && Listed(v[l]) && NumbersUnique(v[l], v[l]))
    && (forall l :: 1 <= l < NUM_LEVELS ==> AllSeparate(v[l]))
    && NumbersOrderAge(v[0])
    && (forall l, m {:trigger NewerLevel(v[l], v[m])} :: 0 <= l < m < NUM_LEVELS ==> NewerLevel(v[l], v[m]))
    && (forall l, m {:trigger NumbersDistinct(v[l], v[m])} :: 0 <= l < m < NUM_LEVELS ==> NumbersDistinct(v[l], v[m]))
  }

  ghost function LevelEntries(fs: seq<File>): set<Entry> {
    set f, e | f in fs && e in f.entries :: e
  }

  ghost function Entries(v: Version): set<Entry> {
    set l, f, e | 0 <= l < |v| && f in v[l] && e in f.entries :: e
  }

  /** Files of a level >= 1 occur in key order. */
  lemma InOrder(fs: seq<File>, i: nat, j: nat)
    requires FilesOk(fs) && Listed(fs) && AllSeparate(fs)
    requires i < j < |fs|
    ensures Less(fs[i].largest, fs[j].smallest)
  {
    var f, g := fs[i], fs[j];
    assert f in fs && g in fs && BySmallest(f, g);
    assert f != g;
    assert Separate(f, g);
    assert FileOk(f) && FileOk(g);
  }

  /** An entry lies between the smallest and largest keys of its file. */
  lemma InRange(f: File, e: Entry)
    requires FileOk(f) && e in f.entries
    ensures !Less(e.key, f.smallest) && !Less(f.largest, e.key)
    ensures f.smallest.user <= e.key.user <= f.largest.user
  {
    var i :| 0 <= i < |f.entries| && f.entries[i] == e;
    assert i > 0 ==> Less(f.entries[0].key, e.key);
    assert i < |f.entries| - 1 ==> Less(e.key, f.entries[|f.entries| - 1].key);
  }

  lemma RangeOrdered(f: File)
    requires FileOk(f)
    ensures !Less(f.largest, f.smallest) && f.smallest.user <= f.largest.user
  {
    InRange(f, f.entries[0]);
  }

  // ---- Searching a level ----

  /** Index of the earliest file whose largest key is >= key; all files if there is none. */
  method FindFile(files: seq<File>, key: InternalKey) returns (right: nat)
    requires FilesOk(files) && Listed(files) && AllSeparate(files)
    ensures right <= |files|
    ensures forall i :: 0 <= i < right ==> Less(files[i].largest, key)
    ensures forall i :: right <= i < |files| ==> !Less(files[i].largest, key)
  {
    var left := 0;
    right := |files|;
    while left < right
      invariant 0 <= left <= right <= |files|
      invariant forall i :: 0 <= i < left ==> Less(files[i].largest, key)
      invariant forall i :: right <= i < |files| ==> !Less(files[i].largest, key)
    {
      var mid := (left + right) / 2;
      forall i, j | 0 <= i < j < |files|
        ensures Less(files[i].largest, files[j].largest)
      {
        InOrder(files, i, j);
        RangeOrdered(files[j]);
      }
      if Less(files[mid].largest, key) {
        left := mid + 1;
      } else {
        right := mid;
      }
    }
  }

  predicate AfterFile(userKey: Option<UserKey>, f: File) {
    userKey.Some? && userKey.value > f.largest.user
  }

  predicate BeforeFile(userKey: Option<UserKey>, f: File) {
    userKey.Some? && userKey.value < f.smallest.user
  }

  /** The user-key range of `f` meets [lo, hi]; None is an open end. */
  predicate Overlaps(f: File, lo: Option<UserKey>, hi: Option<UserKey>) {
    !AfterFile(lo, f) && !BeforeFile(hi, f)
  }

  /** Exact in both forms: the linear scan for level 0, the binary search for sorted levels. */
  method SomeFileOverlapsRange(disjointSortedFiles: bool, files: seq<File>, lo: Option<UserKey>, hi: Option<UserKey>)
    returns (b: bool)
    requires FilesOk(files)
    requires disjointSortedFiles ==> Listed(files) && AllSeparate(files)
    ensures b <==> exists f :: f in files && Overlaps(f, lo, hi)
  {
    if !disjointSortedFiles {
      for i := 0 to |files|
        invariant forall j :: 0 <= j < i ==> !Overlaps(files[j], lo, hi)
      {
        var f := files[i];
        if AfterFile(lo, f) || BeforeFile(hi, f) {
        } else {
          assert f in files && Overlaps(f, lo, hi);
          return true;
        }
      }
      return false;
    }
    var index := 0;
    if lo.Some? {
      index := FindFile(files, InternalKey(lo.value, MAX_SEQUENCE, Put));
    }
    forall i | 0 <= i < |files|
      ensures i < index <==> AfterFile(lo, files[i])
    {
      var f := files[i];
      assert FileOk(f);
      assert f.entries[|f.entries| - 1] in f.entries;
    }
    if index >= |files| {
      return false;
    }
    b := !BeforeFile(hi, files[index]);
    if b {
      assert files[index] in files && Overlaps(files[index], lo, hi);
    } else {
      forall j | index < j < |files|
        ensures BeforeFile(hi, files[j])
      {
        InOrder(files, index, j);
        RangeOrdered(files[index]);
      }
    }
  }

  // ---- Version::Get ----

  /** The list a std::sort with NewestFirst leaves behind. */
  function InsertNewestFirst(f: File, fs: seq<File>): seq<File> {
    if fs == [] || f.number > fs[0].number then [f] + fs else [fs[0]] + InsertNewestFirst(f, fs[1..])
  }

  function SortNewestFirst(fs: seq<File>): seq<File> {
    if fs == [] then [] else InsertNewestFirst(fs[0], SortNewestFirst(fs[1..]))
  }

  ghost predicate Descending(fs: seq<File>) {
    forall i, j :: 0 <= i < j < |fs| ==> fs[i].number >= fs[j].number
  }

  lemma {:induction false} InsertNewestFirstSorts(f: File, fs: seq<File>)
    requires Descending(fs)
    ensures Descending(InsertNewestFirst(f, fs))
    ensures forall g :: g in InsertNewestFirst(f, fs) <==> g == f || g in fs
  {
    if fs == [] || f.number > fs[0].number {
      assert forall g :: g in [f] + fs <==> g == f || g in fs;
    } else {
      InsertNewestFirstSorts(f, fs[1..]);
      var r := InsertNewestFirst(f, fs[1..]);
      assert fs == [fs[0]] + fs[1..];
      forall j | 0 <= j < |r|
        ensures fs[0].number >= r[j].number
      {
        assert r[j] in r;
        if r[j] != f {
          var m :| 0 <= m < |fs[1..]| && fs[1..][m] == r[j];
          assert fs[m + 1] == r[j];
        }
      }
    }
  }

  lemma {:induction false} SortNewestFirstSorts(fs: seq<File>)
    ensures Descending(SortNewestFirst(fs))
    ensures forall g :: g in SortNewestFirst(fs) <==> g in fs
  {
    if fs != [] {
      SortNewestFirstSorts(fs[1..]);
      InsertNewestFirstSorts(fs[0], SortNewestFirst(fs[1..]));
      assert fs == [fs[0]] + fs[1..];
    }
  }

  /** A hit in a level-0 file is the newest in the version once newer overlapping files had none. */
  lemma LevelZeroHit(v: Version, f: File, k: UserKey, s: nat, r: Lookup)
    requires LevelInv(v) && f in v[0] && !r.NotFound?
    requires Answers(Members(f.entries), k, s, r)
    requires forall g :: g in v[0] && g.number > f.number ==> Hidden(Members(g.entries), k, s)
    ensures Answers(Entries(v), k, s, r)
  {
    var e :| Newest(Members(f.entries), k, s, e) && (if r.Deleted? then e.key.kind.Deletion? else e.key.kind.Put? && e.value == r.value);
    forall a | a in Entries(v) && Visible(a, k, s)
      ensures a.key.sequence <= e.key.sequence
    {
      var l, g :| 0 <= l < |v| && g in v[l] && a in g.entries;
      assert a in Members(g.entries);
      if l > 0 {
        assert NewerLevel(v[0], v[l]);
        assert NewerFile(f, g);
      } else if g.number < f.number {
        assert NewerFile(f, g);
      } else {
        assert g.number <= f.number;
        assert NumbersUnique(v[0], v[0]);
      }
    }
    assert Newest(Entries(v), k, s, e);
  }

  /** In a level >= 1 the file found for (k, s) alone decides whether the level has a visible entry. */
  lemma OneFileDecides(fs: seq<File>, index: nat, k: UserKey, s: nat, r: Lookup)
    requires FilesOk(fs) && Listed(fs) && AllSeparate(fs)
    requires index < |fs|
    requires forall i :: 0 <= i < index ==> Less(fs[i].largest, SeekKey(k, s))
    requires !Less(fs[index].largest, SeekKey(k, s))
    requires Answers(Members(fs[index].entries), k, s, r)
    ensures Answers(LevelEntries(fs), k, s, r)
  {
    var f := fs[index];
    forall a | a in LevelEntries(fs) && Visible(a, k, s)
      ensures !r.NotFound?
      ensures forall e :: Newest(Members(f.entries), k, s, e) ==> a.key.sequence <= e.key.sequence
    {
      var g :| g in fs && a in g.entries;
      var i :| 0 <= i < |fs| && fs[i] == g;
      assert FileOk(f);
      InRange(g, a);
      if index < i {
        InOrder(fs, index, i);
        var last := f.entries[|f.entries| - 1];
        assert last in Members(f.entries);
        if f.smallest.user <= k {
          assert f.largest.user == k && Visible(last, k, s);
        }
        assert f.largest.user <= k;
      }
      assert i == index ==> a in Members(f.entries);
    }
    if !r.NotFound? {
      var e :| Newest(Members(f.entries), k, s, e) && (if r.Deleted? then e.key.kind.Deletion? else e.key.kind.Put? && e.value == r.value);
      assert Newest(LevelEntries(fs), k, s, e);
    }
  }

  ghost function ShallowEntries(v: Version, n: nat): set<Entry>
    requires n <= |v|
  {
    set l, f, e | 0 <= l < n && f in v[l] && e in f.entries :: e
  }

  /** A hit in level l is the newest in the version once shallower levels had none. */
  lemma DeepHit(v: Version, l: nat, k: UserKey, s: nat, r: Lookup)
    requires LevelInv(v) && l < NUM_LEVELS && !r.NotFound?
    requires Hidden(ShallowEntries(v, l), k, s)
    requires Answers(LevelEntries(v[l]), k, s, r)
    ensures Answers(Entries(v), k, s, r)
  {
    var e :| Newest(LevelEntries(v[l]), k, s, e) && (if r.Deleted? then e.key.kind.Deletion? else e.key.kind.Put? && e.value == r.value);
    var f :| f in v[l] && e in f.entries;
    var shallow := ShallowEntries(v, l);
    forall a | a in Entries(v) && Visible(a, k, s)
      ensures a.key.sequence <= e.key.sequence
    {
      var m, g :| 0 <= m < |v| && g in v[m] && a in g.entries;
      assert m < l ==> a in shallow;
      assert m == l ==> a in LevelEntries(v[l]);
      if m > l {
        assert NewerLevel(v[l], v[m]);
        assert NewerFile(f, g);
      }
    }
    assert Newest(Entries(v), k, s, e);
  }

  /** Level 0 newest file first, then one binary-searched file per level, stopping at the
      first hit: the answer of a flat search over all entries of all files. */
  method Get(v: Version, k: UserKey, s: nat) returns (r: Lookup)
    requires LevelInv(v)
    ensures Answers(Entries(v), k, s, r)
  {
    for level := 0 to NUM_LEVELS
      invariant Hidden(ShallowEntries(v, level), k, s)
    {
      var numFiles := |v[level]|;
      var files: seq<File> := [];
      if level == 0 {
        r := GetLevelZero(v, k, s);
        if !r.NotFound? {
          return;
        }
      } else if numFiles > 0 {
        r := GetSortedLevel(v[level], k, s);
        if !r.NotFound? {
          DeepHit(v, level, k, s, r);
          return;
        }
      } else {
        assert Hidden(LevelEntries(v[level]), k, s);
      }
      forall e | e in ShallowEntries(v, level + 1)
        ensures !Visible(e, k, s)
      {
        var l, f :| 0 <= l < level + 1 && f in v[l] && e in f.entries;
        assert l < level ==> e in ShallowEntries(v, level);
        assert l == level ==> e in LevelEntries(v[level]);
      }
    }
    assert ShallowEntries(v, NUM_LEVELS) == Entries(v);
    r := NotFound;
  }

  /** The level-0 files whose range covers `k`, newest first. */
  method FilesCovering(files: seq<File>, k: UserKey) returns (tmp: seq<File>)
    requires FilesOk(files)
    ensures Descending(tmp)
    ensures forall f :: f in tmp <==> f in files && f.smallest.user <= k <= f.largest.user
  {
    tmp := [];
    for i := 0 to |files|
      invariant forall f :: f in tmp <==> f in files[..i] && f.smallest.user <= k <= f.largest.user
    {
      var f := files[i];
      assert files[..i + 1] == files[..i] + [f];
      if k >= f.smallest.user && k <= f.largest.user {
        tmp := tmp + [f];
      }
    }
    assert files[..|files|] == files;
    SortNewestFirstSorts(tmp);
    tmp := SortNewestFirst(tmp);
  }

  lemma NotCovered(f: File, k: UserKey, s: nat)
    requires FileOk(f) && !(f.smallest.user <= k <= f.largest.user)
    ensures Hidden(Members(f.entries), k, s)
  {
    forall e | e in Members(f.entries) ensures !Visible(e, k, s) { InRange(f, e); }
  }

  /** The level-0 branch of Version::Get. */
  method GetLevelZero(v: Version, k: UserKey, s: nat) returns (r: Lookup)
    requires LevelInv(v)
    ensures r.NotFound? ==> Hidden(LevelEntries(v[0]), k, s)
    ensures !r.NotFound? ==> Answers(Entries(v), k, s, r)
  {
    var tmp := FilesCovering(v[0], k);
    forall f | f in v[0] && f !in tmp
      ensures Hidden(Members(f.entries), k, s)
    {
      NotCovered(f, k, s);
    }
    for i := 0 to |tmp|
      invariant forall j :: 0 <= j < i ==> Hidden(Members(tmp[j].entries), k, s)
    {
      var f := tmp[i];
      assert f in tmp && f in v[0] && FileOk(f);
      r := Probe(f.entries, k, s);
      ProbeAnswers(f.entries, k, s);
      if !r.NotFound? {
        forall g | g in v[0] && g.number > f.number
          ensures Hidden(Members(g.entries), k, s)
        {
          if g in tmp {
            var j :| 0 <= j < |tmp| && tmp[j] == g;
            assert j < i;
          }
        }
        LevelZeroHit(v, f, k, s, r);
        return;
      }
    }
    AllHidden(v[0], k, s);
    r := NotFound;
  }

  lemma AllHidden(fs: seq<File>, k: UserKey, s: nat)
    requires forall f :: f in fs ==> Hidden(Members(f.entries), k, s)
    ensures Hidden(LevelEntries(fs), k, s)
  {
    forall e | e in LevelEntries(fs)
      ensures !Visible(e, k, s)
    {
      var f :| f in fs && e in f.entries;
      assert e in Members(f.entries);
    }
  }

  /** The branch of Version::Get for levels >= 1. */
  method GetSortedLevel(files: seq<File>, k: UserKey, s: nat) returns (r: Lookup)
    requires FilesOk(files) && Listed(files) && AllSeparate(files)
    ensures Answers(LevelEntries(files), k, s, r)
  {
    var index := FindFile(files, SeekKey(k, s));
    r := NotFound;
    if index < |files| {
      var f := files[index];
      assert FileOk(f);
      if k < f.smallest.user {
        forall e | e in Members(f.entries) ensures !Visible(e, k, s) { InRange(f, e); }
      } else {
        r := Probe(f.entries, k, s);
        ProbeAnswers(f.entries, k, s);
      }
      OneFileDecides(files, index, k, s, r);
    } else {
      forall e | e in LevelEntries(files)
        ensures !Visible(e, k, s)
      {
        var f :| f in files && e in f.entries;
        var i :| 0 <= i < |files| && files[i] == f;
        InRange(f, e);
      }
    }
  }
}
