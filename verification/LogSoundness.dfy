/** What the log reader makes of any file at all: it returns nothing that was not written. */
module LogSoundness {
  import opened Keys
  import opened Coding
  import opened LogFormat
  import opened LogReader
  import opened LogRoundTrip

  /** Where the reader is: the buffer is the part of the file that ends at its position. */
  ghost predicate InStep(file: Bytes, s: ReaderState) {
    |s.buffer| <= s.filePos <= |file| && s.buffer == file[s.filePos - |s.buffer|..s.filePos]
  }

  function At(s: ReaderState): int {
    s.filePos - |s.buffer|
  }

  // ---- Checksums ----

  lemma MaskUnmask(m: Word)
    ensures Mask(Unmask(m)) == m
  {
    var rot := (m + 0x1_0000_0000 - MASK_DELTA) % 0x1_0000_0000;
    var hi, lo := rot / 0x2_0000, rot % 0x2_0000;
    var w := hi + lo * 0x8000;
    assert rot == hi * 0x2_0000 + lo && 0 <= hi < 0x8000 && 0 <= lo < 0x2_0000;
    assert w / 0x8000 == lo && w % 0x8000 == hi;
    assert (rot + MASK_DELTA) % 0x1_0000_0000 == m;
  }

  lemma Fixed32Again(b: Bytes)
    requires |b| >= 4
    ensures EncodeFixed32(DecodeFixed32(b)) == b[..4]
  {
    var v: nat := DecodeFixed32(b);
    var v1, v2 := b[1] as int + b[2] as int * 256 + b[3] as int * 65536, b[2] as int + b[3] as int * 256;
    assert v == v1 * 256 + b[0] as int && v1 == v2 * 256 + b[1] as int;
    assert v / 256 == v1 && v / 65536 == v2 && v / 16777216 == b[3] as int;
    assert v % 256 == b[0] as int && v1 % 256 == b[1] as int && v2 % 256 == b[2] as int;
    forall i | 0 <= i < 4
      ensures EncodeFixed32(v)[i] == b[..4][i]
    {}
  }

  /** The stored checksum is right if and only if the header is the one that is written. */
  lemma ChecksumIff(step: CrcStep, b: Bytes, n: nat)
    requires n <= 0xFFFF && |b| >= HEADER + n && b[4] == n % 256 && b[5] == n / 256
    ensures Unmask(DecodeFixed32(b)) == Extend(step, 0, b[6..HEADER + n]) <==> b[..HEADER + n] == Physical(step, b[6], b[HEADER..HEADER + n])
  {
    var p := b[HEADER..HEADER + n];
    var crc := Extend(step, 0, b[6..HEADER + n]);
    assert b[6..HEADER + n] == [b[6]] + p;
    ExtendAppend(step, 0, [b[6]], p);
    MaskUnmask(DecodeFixed32(b));
    UnmaskMask(crc);
    Fixed32Again(b);
    Fixed32RoundTrip(Mask(crc), []);
    Split(b, n, EncodeFixed32(Mask(crc)));
  }

  lemma Split(b: Bytes, n: nat, c: Bytes)
    requires n <= 0xFFFF && |b| >= HEADER + n && b[4] == n % 256 && b[5] == n / 256 && |c| == 4
    ensures b[..HEADER + n] == c + [n % 256, n / 256] + [b[6]] + b[HEADER..HEADER + n] <==> b[..4] == c
  {
    var w := c + [n % 256, n / 256] + [b[6]] + b[HEADER..HEADER + n];
    assert w[..4] == c;
    assert b[..HEADER + n][..4] == b[..4];
    if b[..4] == c {
      assert b[..HEADER + n] == b[..4] + [b[4], b[5]] + [b[6]] + b[HEADER..HEADER + n];
    }
  }

  // ---- One physical record ----

  /** A record that fits the buffer is returned if and only if it stands there with its checksum;
      otherwise the whole buffer is dropped and reported once. */
  lemma PhysicalIff(step: CrcStep, file: Bytes, s: ReaderState, n: nat)
    requires s.filePos <= |file| && |s.buffer| >= HEADER && n == s.buffer[4] as int + s.buffer[5] as int * 256 && HEADER + n <= |s.buffer|
    requires s.buffer[6] != 0 || n != 0
    ensures var b := s.buffer;
      ReadPhysical(step, true, file, s) ==
        if b[..HEADER + n] == Physical(step, b[6], b[HEADER..HEADER + n]) then (s.(buffer := b[HEADER + n..]), b[6] as nat, b[HEADER..HEADER + n])
        else (s.(buffer := [], reports := s.reports + [|b|]), 6, [])
  {
    ChecksumIff(step, s.buffer, n);
  }

  lemma SlicesOf(file: Bytes, s: ReaderState, n: nat)
    requires InStep(file, s) && n <= |s.buffer|
    ensures At(s) >= 0 && s.buffer[..n] == file[At(s)..At(s) + n] && s.buffer[n..] == file[At(s) + n..s.filePos]
  {}

  /** The record lies between the two positions of the reader, behind at most six bytes. */
  ghost predicate ReadAt(step: CrcStep, file: Bytes, s: ReaderState, s1: ReaderState, t: Byte, p: Bytes) {
    var at := At(s1) - HEADER - |p|;
    0 <= at && At(s) <= at < At(s) + HEADER && InPlace(step, file, Piece(at, t, p))
  }

  lemma Refilled(file: Bytes, s: ReaderState)
    requires InStep(file, s)
    ensures InStep(file, Refill(file, s)) && (|s.buffer| < HEADER ==> At(s) <= At(Refill(file, s)) < At(s) + HEADER)
  {}

  lemma StandsHere(step: CrcStep, file: Bytes, s: ReaderState, n: nat, t: Byte, p: Bytes)
    requires InStep(file, s) && |p| == n <= 0xFFFF && HEADER + n <= |s.buffer| && s.buffer[..HEADER + n] == Physical(step, t, p)
    ensures var s1 := s.(buffer := s.buffer[HEADER + n..]);
      InStep(file, s1) && ReadAt(step, file, s, s1, t, p) && At(s1) - HEADER - n == At(s)
  {
    SlicesOf(file, s, HEADER + n);
  }

  /** Without a refill: no data, or the record at the reader's position. */
  lemma PhysicalHere(step: CrcStep, file: Bytes, s: ReaderState)
    requires InStep(file, s) && |s.buffer| >= HEADER
    ensures var (s1, t, p) := ReadPhysical(step, true, file, s);
      InStep(file, s1) && (t == 5 || t == 6 || (t < 256 && ReadAt(step, file, s, s1, t, p) && At(s1) - HEADER - |p| == At(s)))
  {
    var n := s.buffer[4] as int + s.buffer[5] as int * 256;
    if HEADER + n <= |s.buffer| && (s.buffer[6] != 0 || n != 0) {
      PhysicalIff(step, file, s, n);
      if s.buffer[..HEADER + n] == Physical(step, s.buffer[6], s.buffer[HEADER..HEADER + n]) {
        StandsHere(step, file, s, n, s.buffer[6], s.buffer[HEADER..HEADER + n]);
      }
    }
  }

  /** What is returned as data stands in the file, where the reader was or, if fewer than seven
      bytes were left there, at the start of the next block; the reader is then behind it. */
  lemma PhysicalSound(step: CrcStep, file: Bytes, s: ReaderState)
    requires InStep(file, s)
    ensures var (s1, t, p) := ReadPhysical(step, true, file, s);
      InStep(file, s1) && (t == 5 || t == 6 || (t < 256 && ReadAt(step, file, s, s1, t, p)))
  {
    if |s.buffer| >= HEADER {
      PhysicalHere(step, file, s);
    } else if !s.eof {
      var s2 := Refill(file, s);
      Refilled(file, s);
      if |s2.buffer| >= HEADER {
        PhysicalHere(step, file, s2);
      } else {
        assert s2.eof;
      }
    }
  }

  // ---- Whole records ----

  ghost predicate AllStand(step: CrcStep, file: Bytes, ps: seq<Piece>) {
    forall i :: 0 <= i < |ps| ==> InPlace(step, file, ps[i])
  }

  /** Each piece follows the one before, with no more than the end of a block between them. */
  ghost predicate Adjacent(ps: seq<Piece>) {
    forall i :: 0 < i < |ps| ==> ps[i - 1].End() <= ps[i].at < ps[i - 1].End() + HEADER
  }

  ghost predicate Typed(ps: seq<Piece>, complete: bool) {
    forall i :: 0 <= i < |ps| ==> ps[i].t == TypeOf(i == 0, complete && i == |ps| - 1)
  }

  /** The pieces are `r` so far, up to position z: either all of it, or without its end. */
  ghost predicate Spells(step: CrcStep, file: Bytes, ps: seq<Piece>, complete: bool, r: Bytes, z: int) {
    forall n: nat :: n == |ps| ==> SpellsOut(n, step, file, ps, complete, r, z)
  }

  ghost predicate SpellsOut(n: nat, step: CrcStep, file: Bytes, ps: seq<Piece>, complete: bool, r: Bytes, z: int) {
    n == |ps| && ps != [] && AllStand(step, file, ps) && Adjacent(ps) && Typed(ps, complete) && Joined(ps) == r && ps[|ps| - 1].End() == z
  }

  lemma {:induction false} JoinedMore(ps: seq<Piece>, pc: Piece)
    ensures Joined(ps + [pc]) == Joined(ps) + pc.p
    decreases |ps|
  {
    if ps == [] {
      assert [pc][1..] == [];
    } else {
      assert (ps + [pc])[1..] == ps[1..] + [pc];
      JoinedMore(ps[1..], pc);
      Join(ps[0].p, Joined(ps[1..]), pc.p);
    }
  }

  lemma SpellsOne(step: CrcStep, file: Bytes, pc: Piece, complete: bool)
    requires InPlace(step, file, pc) && pc.t == TypeOf(true, complete)
    ensures Spells(step, file, [pc], complete, pc.p, pc.End())
  {
    JoinedMore([], pc);
    assert [] + [pc] == [pc];
  }

  lemma SpellsMore(step: CrcStep, file: Bytes, ps: seq<Piece>, r: Bytes, z: int, pc: Piece, complete: bool)
    requires Spells(step, file, ps, false, r, z) && InPlace(step, file, pc) && pc.t == TypeOf(false, complete) && z <= pc.at < z + HEADER
    ensures Spells(step, file, ps + [pc], complete, r + pc.p, pc.End())
  {
    assert SpellsOut(|ps|, step, file, ps, false, r, z);
    JoinedMore(ps, pc);
    var more := ps + [pc];
    forall i | 0 < i < |more|
      ensures more[i - 1].End() <= more[i].at < more[i - 1].End() + HEADER
    {
      assert i < |ps| ==> more[i] == ps[i] && more[i - 1] == ps[i - 1];
    }
  }

  lemma LoopStep(step: CrcStep, file: Bytes, s: ReaderState, scratch: Bytes, fragmented: bool, s1: ReaderState, t: nat, p: Bytes)
    requires s.filePos <= |file| && s1.filePos <= |file| && ReadPhysical(step, true, file, s) == (s1, t, p)
    ensures ReadLoop(step, true, file, s, scratch, fragmented) ==
      if t == 1 then (if fragmented && scratch != [] then Report(s1, |scratch|) else s1, Some(p))
      else if t == 2 then ReadLoop(step, true, file, if fragmented && scratch != [] then Report(s1, |scratch|) else s1, p, true)
      else if t == 3 then (if fragmented then ReadLoop(step, true, file, s1, scratch + p, true) else ReadLoop(step, true, file, Report(s1, |p|), scratch, false))
      else if t == 4 then (if fragmented then (s1, Some(scratch + p)) else ReadLoop(step, true, file, Report(s1, |p|), scratch, false))
      else if t == 5 then (s1, None)
      else if t == 6 then ReadLoop(step, true, file, if fragmented then Report(s1, |scratch|) else s1, if fragmented then [] else scratch, false)
      else ReadLoop(step, true, file, Report(s1, |p| + if fragmented then |scratch| else 0), [], false)
    ensures t != 5 ==> |file| - s1.filePos + |s1.buffer| < |file| - s.filePos + |s.buffer|
  {}

  /** The loop of ReadRecord before one of its turns. */
  datatype Turn = Turn(s: ReaderState, scratch: Bytes, fragmented: bool)

  function Left(file: Bytes, a: Turn): int {
    |file| - a.s.filePos + |a.s.buffer|
  }

  ghost predicate PassesTo(step: CrcStep, file: Bytes, a: Turn, b: Turn) {
    && a.s.filePos <= |file| && b.s.filePos <= |file| && Left(file, b) < Left(file, a)
    && ReadLoop(step, true, file, a.s, a.scratch, a.fragmented) == ReadLoop(step, true, file, b.s, b.scratch, b.fragmented)
  }

  /** The loop passes from one turn to the other. */
  ghost predicate Passes(step: CrcStep, file: Bytes, a: Turn, b: Turn) {
    forall now :: now == a ==> PassesTo(step, file, now, b)
  }

  ghost predicate SoundNow(step: CrcStep, file: Bytes, a: Turn, qs: seq<Piece>) {
    && a.s.filePos <= |file|
    && var (s1, r) := ReadLoop(step, true, file, a.s, a.scratch, a.fragmented);
    && InStep(file, s1) && (r.Some? ==> Spells(step, file, qs, true, r.value, At(s1)))
  }

  /** What the loop returns from this turn on, if anything, is spelled by the pieces. */
  ghost predicate Sound(step: CrcStep, file: Bytes, a: Turn, qs: seq<Piece>) {
    forall now :: now == a ==> SoundNow(step, file, now, qs)
  }

  lemma SoundPasses(step: CrcStep, file: Bytes, a: Turn, b: Turn, qs: seq<Piece>)
    requires Passes(step, file, a, b) && Sound(step, file, b, qs)
    ensures Sound(step, file, a, qs)
  {
    assert PassesTo(step, file, a, b) && SoundNow(step, file, b, qs);
  }

  /** The turn after this one, when the reader has parsed t and p and the loop goes on. */
  function After(a: Turn, s1: ReaderState, t: nat, p: Bytes): Turn {
    if t == 2 then Turn(if a.fragmented && a.scratch != [] then Report(s1, |a.scratch|) else s1, p, true)
    else if t == 3 && a.fragmented then Turn(s1, a.scratch + p, true)
    else if t == 3 || t == 4 then Turn(Report(s1, |p|), a.scratch, false)
    else if t == 6 then Turn(if a.fragmented then Report(s1, |a.scratch|) else s1, if a.fragmented then [] else a.scratch, false)
    else Turn(Report(s1, |p| + if a.fragmented then |a.scratch| else 0), [], false)
  }

  ghost predicate ParsesNow(step: CrcStep, file: Bytes, s: ReaderState, s1: ReaderState, t: nat, p: Bytes) {
    s.filePos <= |file| && ReadPhysical(step, true, file, s) == (s1, t, p)
  }

  ghost predicate Parses(step: CrcStep, file: Bytes, s: ReaderState, s1: ReaderState, t: nat, p: Bytes) {
    forall now :: now == s ==> ParsesNow(step, file, now, s1, t, p)
  }

  lemma TurnPasses(step: CrcStep, file: Bytes, a: Turn, s1: ReaderState, t: nat, p: Bytes)
    requires s1.filePos <= |file| && Parses(step, file, a.s, s1, t, p)
    requires t != 1 && t != 5 && !(t == 4 && a.fragmented)
    ensures Passes(step, file, a, After(a, s1, t, p))
  {
    forall now | now == a
      ensures PassesTo(step, file, now, After(a, s1, t, p))
    {
      assert ParsesNow(step, file, a.s, s1, t, p);
      LoopStep(step, file, a.s, a.scratch, a.fragmented, s1, t, p);
    }
  }

  lemma TurnEnds(step: CrcStep, file: Bytes, a: Turn, s1: ReaderState, t: nat, p: Bytes, qs: seq<Piece>)
    requires InStep(file, s1) && Parses(step, file, a.s, s1, t, p)
    requires t == 1 || t == 5 || (t == 4 && a.fragmented)
    requires t == 1 ==> Spells(step, file, qs, true, p, At(s1))
    requires t == 4 ==> Spells(step, file, qs, true, a.scratch + p, At(s1))
    ensures Sound(step, file, a, qs)
  {
    forall now | now == a
      ensures SoundNow(step, file, now, qs)
    {
      assert ParsesNow(step, file, a.s, s1, t, p);
      LoopStep(step, file, a.s, a.scratch, a.fragmented, s1, t, p);
    }
  }

  /** What has been collected before a turn, if anything, is spelled by the pieces. */
  ghost predicate Collecting(step: CrcStep, file: Bytes, a: Turn, ps: seq<Piece>) {
    InStep(file, a.s) && (a.fragmented ==> Spells(step, file, ps, false, a.scratch, At(a.s)))
  }

  /** A piece has been read: it begins, continues or ends what is collected. */
  lemma Takes(step: CrcStep, file: Bytes, a: Turn, s1: ReaderState, t: Byte, p: Bytes, ps: seq<Piece>) returns (qs: seq<Piece>)
    requires Collecting(step, file, a, ps) && InStep(file, s1) && ReadAt(step, file, a.s, s1, t, p)
    ensures t == FULL ==> Spells(step, file, qs, true, p, At(s1))
    ensures t == FIRST ==> Spells(step, file, qs, false, p, At(s1))
    ensures a.fragmented && t == MIDDLE ==> Spells(step, file, qs, false, a.scratch + p, At(s1))
    ensures a.fragmented && t == LAST ==> Spells(step, file, qs, true, a.scratch + p, At(s1))
  {
    var pc := Piece(At(s1) - HEADER - |p|, t, p);
    qs := [pc];
    if t == FULL || t == FIRST {
      SpellsOne(step, file, pc, t == FULL);
    } else if a.fragmented && (t == MIDDLE || t == LAST) {
      SpellsMore(step, file, ps, a.scratch, At(a.s), pc, t == LAST);
      qs := ps + [pc];
    }
  }

  lemma CollectsOn(step: CrcStep, file: Bytes, a: Turn, s1: ReaderState, t: nat, p: Bytes, qs: seq<Piece>)
    requires InStep(file, s1)
    requires t == 2 ==> Spells(step, file, qs, false, p, At(s1))
    requires a.fragmented && t == 3 ==> Spells(step, file, qs, false, a.scratch + p, At(s1))
    ensures Collecting(step, file, After(a, s1, t, p), qs)
  {}

  /** Whatever is in the file: a record that the reader returns, checking checksums, is spelled by
      physical records that stand there with theirs, one after the other, from a first to a last. */
  lemma {:induction false} LoopSound(step: CrcStep, file: Bytes, a: Turn, ps: seq<Piece>) returns (qs: seq<Piece>)
    requires Collecting(step, file, a, ps)
    ensures Sound(step, file, a, qs)
    decreases Left(file, a)
  {
    PhysicalSound(step, file, a.s);
    var (s1, t, p) := ReadPhysical(step, true, file, a.s);
    qs := [];
    if t != 5 && t != 6 {
      qs := Takes(step, file, a, s1, t, p, ps);
    }
    if t == 1 || t == 5 || (t == 4 && a.fragmented) {
      TurnEnds(step, file, a, s1, t, p, qs);
    } else {
      var b := After(a, s1, t, p);
      TurnPasses(step, file, a, s1, t, p);
      CollectsOn(step, file, a, s1, t, p, qs);
      assert PassesTo(step, file, a, b);
      qs := LoopSound(step, file, b, qs);
      SoundPasses(step, file, a, b, qs);
    }
  }

  /** Every record read from any file was written there as a record. */
  lemma {:induction false} RecordsAreWritten(step: CrcStep, file: Bytes, s: ReaderState, i: nat) returns (ps: seq<Piece>, z: int)
    requires InStep(file, s) && i < |ReadAll(step, true, file, s).1|
    ensures Spells(step, file, ps, true, ReadAll(step, true, file, s).1[i], z)
    decreases |file| - s.filePos + |s.buffer|
  {
    ps := LoopSound(step, file, Turn(s, [], false), []);
    assert SoundNow(step, file, Turn(s, [], false), ps);
    var s1 := ReadLoop(step, true, file, s, [], false).0;
    z := At(s1);
    if i > 0 {
      ps, z := RecordsAreWritten(step, file, s1, i - 1);
    }
  }

  // ---- Reports ----

  lemma {:induction false} ReportsGrow(step: CrcStep, file: Bytes, s: ReaderState, scratch: Bytes, fragmented: bool)
    requires s.filePos <= |file|
    ensures s.reports <= ReadLoop(step, true, file, s, scratch, fragmented).0.reports
    decreases |file| - s.filePos + |s.buffer|
  {
    PhysicalReports(step, file, s);
    var (s1, t, fragment) := ReadPhysical(step, true, file, s);
    if t == FIRST {
      ReportsGrow(step, file, if fragmented && scratch != [] then Report(s1, |scratch|) else s1, fragment, true);
    } else if t == MIDDLE && fragmented {
      ReportsGrow(step, file, s1, scratch + fragment, true);
    } else if t == MIDDLE || (t == LAST && !fragmented) {
      ReportsGrow(step, file, Report(s1, |fragment|), scratch, false);
    } else if t == BAD {
      ReportsGrow(step, file, if fragmented then Report(s1, |scratch|) else s1, if fragmented then [] else scratch, false);
    } else if t != FULL && t != LAST && t != EOF {
      ReportsGrow(step, file, Report(s1, |fragment| + if fragmented then |scratch| else 0), [], false);
    }
  }

  lemma PhysicalReports(step: CrcStep, file: Bytes, s: ReaderState)
    requires s.filePos <= |file|
    ensures s.reports <= ReadPhysical(step, true, file, s).0.reports
    decreases |s.buffer| < HEADER, !s.eof
  {
    if |s.buffer| < HEADER && !s.eof {
      PhysicalReports(step, file, Refill(file, s));
    }
  }

  lemma {:induction false} AllReportsGrow(step: CrcStep, file: Bytes, s: ReaderState)
    requires s.filePos <= |file|
    ensures s.reports <= ReadAll(step, true, file, s).0.reports
    decreases |file| - s.filePos + |s.buffer|
  {
    ReportsGrow(step, file, s, [], false);
    var (s1, record) := ReadLoop(step, true, file, s, [], false);
    if record.Some? {
      AllReportsGrow(step, file, s1);
    }
  }
}
