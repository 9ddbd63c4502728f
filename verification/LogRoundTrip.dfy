/** What the reader makes of a log cut off anywhere: exactly the records that are all there. */
module LogRoundTrip {
  import opened Keys
  import opened Coding
  import opened LogFormat
  import opened LogReader

  // ---- Bytes to physical records ----

  /** The reader has consumed `x` bytes, and holds what it has read of the current block. */
  ghost predicate At(file: Bytes, s: ReaderState, x: nat) {
    && x <= s.filePos <= |file| && s.buffer == file[x..s.filePos]
    && s.filePos <= (x / BLOCK + 1) * BLOCK
    && if s.eof then s.filePos == |file| else s.filePos % BLOCK == 0
  }

  ghost predicate InPlace(step: CrcStep, whole: Bytes, pc: Piece) {
    |pc.p| <= 0xFFFF && pc.End() <= |whole| && whole[pc.at..pc.End()] == Physical(step, pc.t, pc.p)
  }

  ghost predicate HeaderSpot(x: nat, y: nat, room: nat) {
    y == HeaderAt(x) && room == Available(x)
  }

  /** The piece stands where the next one after offset x must, and fits into its block. */
  ghost predicate Roomy(x: nat, pc: Piece) {
    forall y: nat, room: nat {:trigger HeaderSpot(x, y, room)} :: HeaderSpot(x, y, room) ==> pc.at == y && |pc.p| <= room
  }

  /** The piece is the next physical record of the log `whole` after offset x. */
  ghost predicate NextIs(step: CrcStep, whole: Bytes, x: nat, pc: Piece) {
    1 <= pc.t <= 4 && x <= pc.at && Roomy(x, pc) && InPlace(step, whole, pc)
  }

  lemma BlockEnd(x: nat, f: nat)
    requires f % BLOCK == 0 && x <= f <= (x / BLOCK + 1) * BLOCK
    ensures f == (x / BLOCK + 1) * BLOCK || (f == x && x % BLOCK == 0)
    ensures f - x == BLOCK - x % BLOCK || (f == x && x % BLOCK == 0)
  {
    var k := f / BLOCK;
    assert f == k * BLOCK && x == x / BLOCK * BLOCK + x % BLOCK;
    assert x / BLOCK <= k <= x / BLOCK + 1;
  }

  /** Refilling happens exactly where the writer padded or finished a block. */
  lemma RefillSkipsTrailer(file: Bytes, s: ReaderState, x: nat)
    requires At(file, s, x) && |s.buffer| < HEADER && !s.eof
    ensures s.filePos == HeaderAt(x) && At(file, Refill(file, s), HeaderAt(x)) && HeaderAt(HeaderAt(x)) == HeaderAt(x)
    ensures |Refill(file, s).buffer| < HEADER ==> Refill(file, s).eof
  {
    BlockEnd(x, s.filePos);
    var y := HeaderAt(x);
    assert y % BLOCK == 0 && s.filePos == y;
    assert y / BLOCK * BLOCK == y;
    var s2 := Refill(file, s);
    if !s2.eof {
      assert s2.filePos == (y / BLOCK + 1) * BLOCK;
    }
  }

  /** A header is parsed only where one was written. */
  lemma ParseWritten(step: CrcStep, checksum: bool, file: Bytes, whole: Bytes, s: ReaderState, pc: Piece)
    requires file <= whole && At(file, s, pc.at) && NextIs(step, whole, pc.at, pc)
    requires |s.buffer| >= HEADER
    ensures Parsed(file, s, pc, ReadPhysical(step, checksum, file, s))
  {
    var x, y, p := pc.at, pc.End(), pc.p;
    PieceInBlock(pc);
    var rec := Physical(step, pc.t, p);
    assert forall i :: 0 <= i < |s.buffer| && i < |rec| ==> s.buffer[i] == whole[x + i] == rec[i];
    var length := s.buffer[4] as int + s.buffer[5] as int * 256;
    assert rec[4] == |p| % 256 && rec[5] == |p| / 256 && rec[6] == pc.t;
    assert length == |p|;
    if !s.eof { BlockEnd(x, s.filePos); }
    if y <= |file| {
      assert y <= s.filePos;
      assert s.buffer[..HEADER + |p|] == rec;
      assert s.buffer[6..HEADER + |p|] == [pc.t] + p;
      assert s.buffer[HEADER..HEADER + |p|] == p;
      assert s.buffer[HEADER + |p|..] == file[y..s.filePos];
      ChecksumMatches(step, pc.t, p, s.buffer);
      assert y / BLOCK >= x / BLOCK;
    }
  }

  lemma ChecksumMatches(step: CrcStep, t: Byte, p: Bytes, buffer: Bytes)
    requires |p| <= 0xFFFF && |buffer| >= HEADER + |p| && buffer[..HEADER + |p|] == Physical(step, t, p)
    ensures Unmask(DecodeFixed32(buffer)) == Extend(step, 0, [t] + p)
  {
    ExtendAppend(step, 0, [t], p);
    var crc := EncodeFixed32(Mask(Extend(step, 0, [t] + p)));
    assert Physical(step, t, p)[..4] == crc;
    assert buffer == crc + buffer[4..];
    UnmaskMask(Extend(step, 0, [t] + p));
    Fixed32RoundTrip(Mask(Extend(step, 0, [t] + p)), buffer[4..]);
  }

  lemma PieceInBlock(pc: Piece)
    requires Roomy(pc.at, pc)
    ensures pc.End() <= (pc.at / BLOCK + 1) * BLOCK && BLOCK - pc.at % BLOCK >= HEADER
  {
    var x := pc.at;
    assert HeaderSpot(x, HeaderAt(x), Available(x));
    assert x == x / BLOCK * BLOCK + x % BLOCK;
  }

  /** The outcome `r` of asking for the physical record `pc`. */
  ghost predicate Parsed(file: Bytes, s: ReaderState, pc: Piece, r: (ReaderState, nat, Bytes)) {
    && r.0.reports == s.reports
    && if pc.End() <= |file| then r.1 == pc.t && r.2 == pc.p && At(file, r.0, pc.End()) else r.1 == EOF && r.0.eof && r.0.buffer == []
  }

  lemma NoHeader(step: CrcStep, checksum: bool, file: Bytes, s: ReaderState)
    requires s.filePos <= |file| && s.eof && |s.buffer| < HEADER
    ensures ReadPhysical(step, checksum, file, s) == (s.(buffer := []), EOF, [])
  {}

  /** The place of a header determines itself. */
  lemma RoomyAtHeader(x: nat, pc: Piece)
    requires Roomy(x, pc)
    ensures pc.at == HeaderAt(x) && Roomy(pc.at, pc)
  {
    assert HeaderSpot(x, HeaderAt(x), Available(x));
    assert HeaderAt(HeaderAt(x)) == HeaderAt(x);
  }

  lemma BufferedMeansHere(file: Bytes, s: ReaderState, x: nat)
    requires At(file, s, x) && |s.buffer| >= HEADER
    ensures HeaderAt(x) == x
  {
    assert x == x / BLOCK * BLOCK + x % BLOCK;
  }

  /** Reading one physical record of a log of which only a prefix is left. */
  lemma ReadWritten(step: CrcStep, checksum: bool, file: Bytes, whole: Bytes, s: ReaderState, x: nat, pc: Piece)
    requires file <= whole && At(file, s, x) && NextIs(step, whole, x, pc)
    ensures Parsed(file, s, pc, ReadPhysical(step, checksum, file, s))
  {
    RoomyAtHeader(x, pc);
    if |s.buffer| >= HEADER {
      BufferedMeansHere(file, s, x);
      ParseWritten(step, checksum, file, whole, s, pc);
    } else if s.eof {
      NoHeader(step, checksum, file, s);
    } else {
      ReadRefilled(step, checksum, file, whole, s, x, pc);
    }
  }

  lemma ReadRefilled(step: CrcStep, checksum: bool, file: Bytes, whole: Bytes, s: ReaderState, x: nat, pc: Piece)
    requires file <= whole && At(file, s, x) && NextIs(step, whole, pc.at, pc) && pc.at == HeaderAt(x)
    requires |s.buffer| < HEADER && !s.eof
    ensures Parsed(file, s, pc, ReadPhysical(step, checksum, file, s))
  {
    RefillSkipsTrailer(file, s, x);
    var s2 := Refill(file, s);
    if |s2.buffer| >= HEADER {
      ParseWritten(step, checksum, file, whole, s2, pc);
    } else {
      NoHeader(step, checksum, file, s2);
    }
  }

  /** The physical records a record written at offset x is cut into. */
  function Pieces(x: nat, data: Bytes, begin: bool): (ps: seq<Piece>)
    ensures ps != []
    decreases |data|, if Available(x) == 0 then 1 else 0
  {
    var len := Fit(x, data);
    var first := FirstPiece(x, data, begin);
    if len == |data| then [first] else NextBlock(x); [first] + Pieces(first.End(), data[len..], false)
  }

  /** The pieces stand in the log one after the other from offset x on. */
  ghost predicate Chain(step: CrcStep, whole: Bytes, x: nat, ps: seq<Piece>)
    decreases |ps|
  {
    ps == [] || (NextIs(step, whole, x, ps[0]) && Chain(step, whole, ps[0].End(), ps[1..]))
  }

  function End(x: nat, ps: seq<Piece>): nat {
    if ps == [] then x else ps[|ps| - 1].End()
  }

  lemma {:induction false} EndIsLater(step: CrcStep, whole: Bytes, x: nat, ps: seq<Piece>)
    requires Chain(step, whole, x, ps)
    ensures x <= End(x, ps)
    decreases |ps|
  {
    if ps != [] {
      EndIsLater(step, whole, ps[0].End(), ps[1..]);
    }
  }

  lemma SplitPrefix(whole: Bytes, x: nat, head: Bytes, rest: Bytes)
    requires x <= |whole| && head + rest <= whole[x..]
    ensures x + |head| <= |whole| && whole[x..x + |head|] == head && rest <= whole[x + |head|..]
  {
    assert head == (head + rest)[..|head|];
    assert whole[x..][|head|..] == whole[x + |head|..];
    assert rest == (head + rest)[|head|..];
  }

  lemma PieceStands(step: CrcStep, whole: Bytes, x: nat, pc: Piece)
    requires Placed(x, pc) && pc.End() <= |whole| && whole[x..pc.End()] == PieceBytes(step, x, pc)
    ensures InPlace(step, whole, pc)
  {
    var head := PieceBytes(step, x, pc);
    assert whole[pc.at..pc.End()] == head[pc.at - x..] == Physical(step, pc.t, pc.p);
  }

  lemma FirstPieceStands(step: CrcStep, whole: Bytes, x: nat, data: Bytes, begin: bool)
    requires x <= |whole| && Fragments(step, x, data, begin) <= whole[x..]
    ensures var first, len := FirstPiece(x, data, begin), Fit(x, data);
      && InPlace(step, whole, first)
      && if len == |data| then x + |Fragments(step, x, data, begin)| == first.End()
         else Fragments(step, first.End(), data[len..], false) <= whole[first.End()..]
              && x + |Fragments(step, x, data, begin)| == first.End() + |Fragments(step, first.End(), data[len..], false)|
  {
    var first, len := FirstPiece(x, data, begin), Fit(x, data);
    var head := PieceBytes(step, x, first);
    if len == |data| {
      assert head + [] == head;
      SplitPrefix(whole, x, head, []);
    } else {
      SplitPrefix(whole, x, head, Fragments(step, first.End(), data[len..], false));
    }
    PieceStands(step, whole, x, first);
  }

  lemma FirstPieceNext(step: CrcStep, whole: Bytes, x: nat, data: Bytes, begin: bool)
    requires InPlace(step, whole, FirstPiece(x, data, begin))
    ensures NextIs(step, whole, x, FirstPiece(x, data, begin))
  {}

  lemma {:induction false} WrittenChain(step: CrcStep, whole: Bytes, x: nat, data: Bytes, begin: bool)
    requires x <= |whole| && Fragments(step, x, data, begin) <= whole[x..]
    ensures var ps := Pieces(x, data, begin); Chain(step, whole, x, ps) && IsRecord(ps, begin, x + |Fragments(step, x, data, begin)|)
    decreases |data|, if Available(x) == 0 then 1 else 0
  {
    var first, len := FirstPiece(x, data, begin), Fit(x, data);
    FirstPieceStands(step, whole, x, data, begin);
    FirstPieceNext(step, whole, x, data, begin);
    if len < |data| {
      NextBlock(x);
      WrittenChain(step, whole, first.End(), data[len..], false);
      ChainMore(step, whole, x, first, Pieces(first.End(), data[len..], false), begin, x + |Fragments(step, x, data, begin)|);
    } else {
      ChainOne(step, whole, x, first, begin);
    }
  }

  lemma ChainMore(step: CrcStep, whole: Bytes, x: nat, first: Piece, ps: seq<Piece>, begin: bool, z: nat)
    requires NextIs(step, whole, x, first) && Chain(step, whole, first.End(), ps) && IsRecord(ps, false, z)
    requires first.t == TypeOf(begin, false)
    ensures Chain(step, whole, x, [first] + ps) && IsRecord([first] + ps, begin, z)
  {
    assert ([first] + ps)[1..] == ps;
    assert first.End() <= ps[0].at;
  }

  lemma ChainOne(step: CrcStep, whole: Bytes, x: nat, first: Piece, begin: bool)
    requires NextIs(step, whole, x, first) && first.t == TypeOf(begin, true)
    ensures Chain(step, whole, x, [first]) && IsRecord([first], begin, first.End())
  {
    assert [first][1..] == [];
  }

  /** From state `s` the reader parses `ps`, up to the end of the file, and is then in `s2`. */
  ghost predicate Tokens(step: CrcStep, checksum: bool, file: Bytes, s: ReaderState, ps: seq<Piece>, s2: ReaderState)
    decreases |ps|
  {
    if ps == [] then s2 == s else
      && s.filePos <= |file|
      && var (s1, t, p) := ReadPhysical(step, checksum, file, s);
      if ps[0].End() <= |file| then t == ps[0].t && p == ps[0].p && Tokens(step, checksum, file, s1, ps[1..], s2)
      else t == EOF && s1 == s2
  }

  lemma {:induction false} ChainTokens(step: CrcStep, checksum: bool, file: Bytes, whole: Bytes, s: ReaderState, x: nat, ps: seq<Piece>) returns (s2: ReaderState)
    requires file <= whole && At(file, s, x) && Chain(step, whole, x, ps)
    ensures Tokens(step, checksum, file, s, ps, s2) && s2.reports == s.reports
    ensures End(x, ps) <= |file| ==> At(file, s2, End(x, ps))
    decreases |ps|
  {
    if ps == [] {
      s2 := s;
    } else {
      s2 := NextToken(step, checksum, file, whole, s, x, ps[0]);
      EndIsLater(step, whole, ps[0].End(), ps[1..]);
      if ps[0].End() <= |file| {
        s2 := ChainTokens(step, checksum, file, whole, s2, ps[0].End(), ps[1..]);
      }
    }
  }

  lemma NextToken(step: CrcStep, checksum: bool, file: Bytes, whole: Bytes, s: ReaderState, x: nat, pc: Piece) returns (s1: ReaderState)
    requires file <= whole && At(file, s, x) && NextIs(step, whole, x, pc)
    ensures s1 == ReadPhysical(step, checksum, file, s).0 && Parsed(file, s, pc, ReadPhysical(step, checksum, file, s))
  {
    ReadWritten(step, checksum, file, whole, s, x, pc);
    s1 := ReadPhysical(step, checksum, file, s).0;
  }

  // ---- Physical to logical records ----

  /** The types of `ps` are those of one logical record ending at offset z. */
  ghost predicate IsRecord(ps: seq<Piece>, begin: bool, z: nat)
    decreases |ps|
  {
    && ps != [] && ps[0].End() <= z && ps[0].t == TypeOf(begin, |ps| == 1)
    && if |ps| == 1 then ps[0].End() == z else IsRecord(ps[1..], false, z)
  }

  function Joined(ps: seq<Piece>): Bytes {
    if ps == [] then [] else ps[0].p + Joined(ps[1..])
  }

  lemma {:induction false} PiecesJoin(x: nat, data: Bytes, begin: bool)
    ensures Joined(Pieces(x, data, begin)) == data
    decreases |data|, if Available(x) == 0 then 1 else 0
  {
    var first, len, ps := FirstPiece(x, data, begin), Fit(x, data), Pieces(x, data, begin);
    if len < |data| {
      NextBlock(x);
      PiecesJoin(first.End(), data[len..], false);
      assert ps[1..] == Pieces(first.End(), data[len..], false);
    } else {
      assert ps[1..] == [] && Joined(ps) == ps[0].p + [];
    }
  }

  /** One turn of the reading loop on a fragment that belongs where it is. */
  lemma LoopStep(step: CrcStep, checksum: bool, file: Bytes, s: ReaderState, scratch: Bytes, begin: bool, end: bool)
    requires s.filePos <= |file| && (begin ==> scratch == [])
    ensures var (s1, t, p) := ReadPhysical(step, checksum, file, s);
      var r := ReadLoop(step, checksum, file, s, scratch, !begin);
      && (t == EOF ==> r == (s1, None))
      && (t == TypeOf(begin, end) ==> if end then r == (s1, Some(scratch + p)) else r == ReadLoop(step, checksum, file, s1, scratch + p, true))
  {
    var (s1, t, p) := ReadPhysical(step, checksum, file, s);
    assert begin ==> scratch + p == p;
  }

  lemma JoinedFirst(scratch: Bytes, ps: seq<Piece>)
    requires ps != []
    ensures scratch + ps[0].p + Joined(ps[1..]) == scratch + Joined(ps)
  {}

  lemma {:induction false} TokensLoop(step: CrcStep, checksum: bool, file: Bytes, s: ReaderState, ps: seq<Piece>, s2: ReaderState, scratch: Bytes, begin: bool, z: nat)
    requires Tokens(step, checksum, file, s, ps, s2) && IsRecord(ps, begin, z)
    requires begin ==> scratch == []
    ensures s.filePos <= |file|
    ensures ReadLoop(step, checksum, file, s, scratch, !begin) == (s2, if z <= |file| then Some(scratch + Joined(ps)) else None)
    decreases |ps|
  {
    LoopStep(step, checksum, file, s, scratch, begin, |ps| == 1);
    if ps[0].End() <= |file| {
      if |ps| == 1 {
        assert ps[1..] == [] && Joined(ps) == ps[0].p + [] == ps[0].p;
      } else {
        var (s1, _, p) := ReadPhysical(step, checksum, file, s);
        TokensLoop(step, checksum, file, s1, ps[1..], s2, scratch + p, false, z);
        JoinedFirst(scratch, ps);
      }
    }
  }

  // ---- Whole logs ----

  lemma LogGrows(step: CrcStep, rs: seq<Bytes>, i: nat)
    requires i < |rs|
    ensures LogOf(step, rs[..i + 1]) == LogOf(step, rs[..i]) + Fragments(step, |LogOf(step, rs[..i])|, rs[i], true)
  {
    assert rs[..i + 1][..i] == rs[..i];
  }

  lemma {:induction false} LogPrefix(step: CrcStep, rs: seq<Bytes>, i: nat)
    requires i <= |rs|
    ensures LogOf(step, rs[..i]) <= LogOf(step, rs)
    decreases |rs| - i
  {
    if i == |rs| {
      assert rs[..i] == rs;
    } else {
      LogGrows(step, rs, i);
      LogPrefix(step, rs, i + 1);
    }
  }

  /** `j` is how many records of the log end within its first n bytes. */
  ghost predicate Complete(step: CrcStep, rs: seq<Bytes>, n: nat, j: nat) {
    && j <= |rs| && |LogOf(step, rs[..j])| <= n
    && (j < |rs| ==> n < |LogOf(step, rs[..j + 1])|)
  }

  /** Record i stands in the log at the end of the records before it. */
  lemma RecordAt(step: CrcStep, rs: seq<Bytes>, i: nat)
    requires i < |rs|
    ensures var whole, x := LogOf(step, rs), |LogOf(step, rs[..i])|;
      var size := |Fragments(step, x, rs[i], true)|;
      x + size == |LogOf(step, rs[..i + 1])| <= |whole| && Fragments(step, x, rs[i], true) <= whole[x..]
  {
    LogGrows(step, rs, i);
    LogPrefix(step, rs, i);
    LogPrefix(step, rs, i + 1);
    var whole, x := LogOf(step, rs), |LogOf(step, rs[..i])|;
    var frag := Fragments(step, x, rs[i], true);
    assert whole[..x + |frag|] == LogOf(step, rs[..i + 1]);
    assert whole[x..][..|frag|] == whole[..x + |frag|][x..] == frag;
  }

  lemma WrittenPieces(step: CrcStep, whole: Bytes, x: nat, z: nat, data: Bytes) returns (ps: seq<Piece>)
    requires x <= |whole| && Fragments(step, x, data, true) <= whole[x..] && z == x + |Fragments(step, x, data, true)|
    ensures Chain(step, whole, x, ps) && IsRecord(ps, true, z) && Joined(ps) == data
  {
    WrittenChain(step, whole, x, data, true);
    PiecesJoin(x, data, true);
    ps := Pieces(x, data, true);
  }

  lemma RecordPieces(step: CrcStep, rs: seq<Bytes>, i: nat) returns (ps: seq<Piece>)
    requires i < |rs|
    ensures Chain(step, LogOf(step, rs), |LogOf(step, rs[..i])|, ps)
    ensures IsRecord(ps, true, |LogOf(step, rs[..i + 1])|) && Joined(ps) == rs[i]
  {
    RecordAt(step, rs, i);
    ps := WrittenPieces(step, LogOf(step, rs), |LogOf(step, rs[..i])|, |LogOf(step, rs[..i + 1])|, rs[i]);
  }

  /** Reading the record that stands where the reader is: all of it, or nothing. */
  lemma ReadOne(step: CrcStep, checksum: bool, rs: seq<Bytes>, file: Bytes, i: nat, s: ReaderState) returns (s2: ReaderState)
    requires i < |rs| && file <= LogOf(step, rs) && At(file, s, |LogOf(step, rs[..i])|)
    ensures var z := |LogOf(step, rs[..i + 1])|;
      && ReadLoop(step, checksum, file, s, [], false) == (s2, if z <= |file| then Some(rs[i]) else None)
      && s2.reports == s.reports && (z <= |file| ==> At(file, s2, z))
  {
    var ps := RecordPieces(step, rs, i);
    s2 := ReadPieces(step, checksum, LogOf(step, rs), file, |LogOf(step, rs[..i])|, |LogOf(step, rs[..i + 1])|, ps, s);
  }

  lemma ReadPieces(step: CrcStep, checksum: bool, whole: Bytes, file: Bytes, x: nat, z: nat, ps: seq<Piece>, s: ReaderState) returns (s2: ReaderState)
    requires file <= whole && At(file, s, x) && Chain(step, whole, x, ps) && IsRecord(ps, true, z)
    ensures ReadLoop(step, checksum, file, s, [], false) == (s2, if z <= |file| then Some(Joined(ps)) else None)
    ensures s2.reports == s.reports && (z <= |file| ==> At(file, s2, z))
  {
    s2 := ChainTokens(step, checksum, file, whole, s, x, ps);
    TokensLoop(step, checksum, file, s, ps, s2, [], true, z);
    RecordEnd(ps, true, z, x);
    assert [] + Joined(ps) == Joined(ps);
  }

  lemma {:induction false} RecordEnd(ps: seq<Piece>, begin: bool, z: nat, x: nat)
    requires IsRecord(ps, begin, z)
    ensures End(x, ps) == z
    decreases |ps|
  {
    if |ps| > 1 {
      RecordEnd(ps[1..], false, z, x);
    }
  }

  /** From state `s` the reader returns `records` one by one and is then in `s2`. */
  ghost predicate Serves(step: CrcStep, checksum: bool, file: Bytes, s: ReaderState, records: seq<Bytes>, s2: ReaderState)
    decreases |records|
  {
    && s.filePos <= |file|
    && if records == [] then s2 == s else
      var (s1, r) := ReadLoop(step, checksum, file, s, [], false);
      r == Some(records[0]) && s1.reports == s.reports && Serves(step, checksum, file, s1, records[1..], s2)
  }

  lemma ServesFirst(step: CrcStep, file: Bytes, s: ReaderState, records: seq<Bytes>, s2: ReaderState) returns (s1: ReaderState)
    requires records != [] && Serves(step, true, file, s, records, s2)
    ensures s.filePos <= |file| && s1.filePos <= |file| && s1.reports == s.reports
    ensures ReadLoop(step, true, file, s, [], false) == (s1, Some(records[0])) && Serves(step, true, file, s1, records[1..], s2)
  {
    s1 := ReadLoop(step, true, file, s, [], false).0;
  }

  lemma {:induction false} ServesAll(step: CrcStep, checksum: bool, file: Bytes, s: ReaderState, records: seq<Bytes>, s2: ReaderState, s3: ReaderState)
    requires Serves(step, checksum, file, s, records, s2)
    requires s2.filePos <= |file| && ReadLoop(step, checksum, file, s2, [], false) == (s3, None)
    ensures ReadAll(step, checksum, file, s) == (s3, records)
    decreases |records|
  {
    if records != [] {
      var (s1, r) := ReadLoop(step, checksum, file, s, [], false);
      ServesAll(step, checksum, file, s1, records[1..], s2, s3);
      assert records == [records[0]] + records[1..];
    }
  }

  lemma {:induction false} ServesLog(step: CrcStep, checksum: bool, rs: seq<Bytes>, file: Bytes, j: nat, i: nat, s: ReaderState) returns (s2: ReaderState)
    requires file <= LogOf(step, rs) && i <= j <= |rs| && |LogOf(step, rs[..j])| <= |file|
    requires At(file, s, |LogOf(step, rs[..i])|)
    ensures Serves(step, checksum, file, s, rs[i..j], s2)
    ensures At(file, s2, |LogOf(step, rs[..j])|) && s2.reports == s.reports
    decreases j - i
  {
    if i == j {
      s2 := s;
    } else {
      CompleteMonotone(step, rs, i + 1, j);
      var s1 := ReadOne(step, checksum, rs, file, i, s);
      s2 := ServesLog(step, checksum, rs, file, j, i + 1, s1);
      assert rs[i..j][0] == rs[i] && rs[i..j][1..] == rs[i + 1..j];
    }
  }

  lemma CompleteMonotone(step: CrcStep, rs: seq<Bytes>, i: nat, j: nat)
    requires i <= j <= |rs|
    ensures |LogOf(step, rs[..i])| <= |LogOf(step, rs[..j])|
  {
    LogPrefix(step, rs[..j], i);
    assert rs[..j][..i] == rs[..i];
  }

  lemma EndOfLog(step: CrcStep, checksum: bool, file: Bytes, s: ReaderState)
    requires At(file, s, |file|)
    ensures var r := ReadLoop(step, checksum, file, s, [], false); r.1 == None && r.0.reports == s.reports
  {
    assert s.buffer == [];
    if !s.eof {
      var s2 := Refill(file, s);
      assert s2.eof && s2.buffer == [] && s2.reports == s.reports;
      assert ReadPhysical(step, checksum, file, s) == ReadPhysical(step, checksum, file, s2) == (s2, EOF, []);
      assert ReadLoop(step, checksum, file, s, [], false) == (s2, None);
    } else {
      assert ReadPhysical(step, checksum, file, s) == (s, EOF, []);
      assert ReadLoop(step, checksum, file, s, [], false) == (s, None);
    }
  }

  lemma CompleteExists(step: CrcStep, rs: seq<Bytes>, n: nat) returns (j: nat)
    ensures Complete(step, rs, n, j)
    ensures n == |LogOf(step, rs)| ==> j == |rs|
  {
    j := 0;
    assert rs[..0] == [];
    while j < |rs| && |LogOf(step, rs[..j + 1])| <= n
      invariant j <= |rs| && |LogOf(step, rs[..j])| <= n
    {
      j := j + 1;
    }
    if j < |rs| {
      CompleteMonotone(step, rs, j + 1, |rs|);
      assert rs[..|rs|] == rs;
    }
  }

  /** A log cut off after n bytes serves its complete records and then ends, without report. */
  lemma TruncatedLogServes(step: CrcStep, checksum: bool, rs: seq<Bytes>, n: nat) returns (j: nat, s2: ReaderState, s3: ReaderState)
    requires n <= |LogOf(step, rs)|
    ensures Complete(step, rs, n, j)
    ensures n == |LogOf(step, rs)| ==> j == |rs|
    ensures var file := LogOf(step, rs)[..n];
      && Serves(step, checksum, file, START, rs[..j], s2) && s2.filePos <= |file|
      && ReadLoop(step, checksum, file, s2, [], false) == (s3, None) && s3.reports == []
  {
    j := CompleteExists(step, rs, n);
    var file := LogOf(step, rs)[..n];
    assert rs[..0] == [] && LogOf(step, rs[..0]) == [];
    s2 := ServesLog(step, checksum, rs, file, j, 0, START);
    if j == |rs| {
      assert rs[..j] == rs;
      EndOfLog(step, checksum, file, s2);
      s3 := ReadLoop(step, checksum, file, s2, [], false).0;
    } else {
      s3 := ReadOne(step, checksum, rs, file, j, s2);
    }
    assert rs[0..j] == rs[..j];
  }

  /** Every log, cut off after any number of bytes: the reader returns exactly the records
      that are there in full, and reports no corruption. */
  lemma TruncatedLogReadsBack(step: CrcStep, checksum: bool, rs: seq<Bytes>, n: nat) returns (j: nat)
    requires n <= |LogOf(step, rs)|
    ensures Complete(step, rs, n, j)
    ensures n == |LogOf(step, rs)| ==> j == |rs|
    ensures var r := ReadAll(step, checksum, LogOf(step, rs)[..n], START); r.1 == rs[..j] && r.0.reports == []
  {
    var s2, s3;
    j, s2, s3 := TruncatedLogServes(step, checksum, rs, n);
    ServesAll(step, checksum, LogOf(step, rs)[..n], START, rs[..j], s2, s3);
  }
}
