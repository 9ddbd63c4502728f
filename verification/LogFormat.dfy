/** The log: records fragmented over 32 KB blocks, and a reader that survives truncation. */
module LogFormat {
  import opened Keys
  import opened Coding

  const BLOCK: nat := 32768
  const HEADER: nat := 7

  const FULL: Byte := 1
  const FIRST: Byte := 2
  const MIDDLE: Byte := 3
  const LAST: Byte := 4
  /** The reader's own codes beside the record types. */
  const EOF: nat := 5
  const BAD: nat := 6

  type Word = w: int | 0 <= w < 0x1_0000_0000

  /** One byte of a table-driven CRC; the table is arbitrary. */
  type CrcStep = (Word, Byte) -> Word

  const MASK_DELTA: nat := 0xa282ead8

  /** Exclusive-or with all ones. */
  function Flip(w: Word): Word { 0xFFFF_FFFF - w }

  function Fold(step: CrcStep, w: Word, d: Bytes): Word
    decreases |d|
  {
    if d == [] then w else Fold(step, step(w, d[0]), d[1..])
  }

  /** crc32c::Extend. */
  function Extend(step: CrcStep, crc: Word, d: Bytes): Word {
    Flip(Fold(step, Flip(crc), d))
  }

  lemma {:induction false} FoldAppend(step: CrcStep, w: Word, a: Bytes, b: Bytes)
    ensures Fold(step, w, a + b) == Fold(step, Fold(step, w, a), b)
    decreases |a|
  {
    if a == [] {
      assert a + b == b;
    } else {
      assert (a + b)[1..] == a[1..] + b;
      FoldAppend(step, step(w, a[0]), a[1..], b);
    }
  }

  /** Extending by `a` and then by `b` is extending by both: the writer's per-type seed works. */
  lemma ExtendAppend(step: CrcStep, crc: Word, a: Bytes, b: Bytes)
    ensures Extend(step, Extend(step, crc, a), b) == Extend(step, crc, a + b)
  {
    FoldAppend(step, Flip(crc), a, b);
  }

  /** crc32c::Mask: rotate right by 15 bits and add a constant. */
  function Mask(w: Word): Word {
    (w / 0x8000 + (w % 0x8000) * 0x2_0000 + MASK_DELTA) % 0x1_0000_0000
  }

  function Unmask(m: Word): Word {
    var rot := (m + 0x1_0000_0000 - MASK_DELTA) % 0x1_0000_0000;
    rot / 0x2_0000 + (rot % 0x2_0000) * 0x8000
  }

  lemma UnmaskMask(w: Word)
    ensures Unmask(Mask(w)) == w
  {
    var hi, lo := w / 0x8000, w % 0x8000;
    var r := hi + lo * 0x2_0000;
    assert w == hi * 0x8000 + lo && 0 <= hi < 0x2_0000 && 0 <= r < 0x1_0000_0000;
    var m := (r + MASK_DELTA) % 0x1_0000_0000;
    assert (m + 0x1_0000_0000 - MASK_DELTA) % 0x1_0000_0000 == r;
    assert r / 0x2_0000 == lo && r % 0x2_0000 == hi;
  }

  // ---- Writing ----

  /** EmitPhysicalRecord: masked checksum, length, type, payload. */
  function Physical(step: CrcStep, t: Byte, p: Bytes): (r: Bytes)
    requires |p| <= 0xFFFF
    ensures |r| == HEADER + |p|
  {
    EncodeFixed32(Mask(Extend(step, Extend(step, 0, [t]), p))) + [|p| % 256, |p| / 256] + [t] + p
  }

  function Zeros(n: nat): (r: Bytes)
    ensures |r| == n
  {
    seq(n, _ => 0)
  }

  /** Where the next header goes: a block never keeps fewer than seven bytes at its end. */
  function HeaderAt(x: nat): (y: nat)
    ensures x <= y < x + HEADER && BLOCK - y % BLOCK >= HEADER
  {
    var leftover := BLOCK - x % BLOCK;
    if leftover < HEADER then x + leftover else x
  }

  function Available(x: nat): nat {
    BLOCK - HeaderAt(x) % BLOCK - HEADER
  }

  function TypeOf(begin: bool, end: bool): Byte {
    if begin && end then FULL else if begin then FIRST else if end then LAST else MIDDLE
  }

  /** After a fragment that does not finish the record the block is full. */
  lemma NextBlock(x: nat)
    ensures (HeaderAt(x) + HEADER + Available(x)) % BLOCK == 0
    ensures Available(HeaderAt(x) + HEADER + Available(x)) == BLOCK - HEADER
  {
    var y := HeaderAt(x);
    assert y == y / BLOCK * BLOCK + y % BLOCK;
    assert y + HEADER + Available(x) == (y / BLOCK + 1) * BLOCK;
  }

  /** A physical record and the offset of its header. */
  datatype Piece = Piece(at: nat, t: Byte, p: Bytes) {
    function End(): nat { at + HEADER + |p| }
  }

  /** How much of `data` the record written at offset x takes. */
  function Fit(x: nat, data: Bytes): (len: nat)
    ensures len <= |data|
  {
    if |data| < Available(x) then |data| else Available(x)
  }

  ghost predicate Placed(x: nat, pc: Piece) {
    x <= pc.at && |pc.p| <= 0xFFFF
  }

  function FirstPiece(x: nat, data: Bytes, begin: bool): (pc: Piece)
    ensures Placed(x, pc)
  {
    var len := Fit(x, data);
    Piece(HeaderAt(x), TypeOf(begin, len == |data|), data[..len])
  }

  /** The padding before a record, and the record. */
  function PieceBytes(step: CrcStep, x: nat, pc: Piece): (r: Bytes)
    requires Placed(x, pc)
    ensures |r| == pc.End() - x
  {
    Zeros(pc.at - x) + Physical(step, pc.t, pc.p)
  }

  /** What Writer::AddRecord appends at file offset x.  A piece may be empty, when exactly a
      header's room is left, but then the next block has room. */
  function Fragments(step: CrcStep, x: nat, data: Bytes, begin: bool): (r: Bytes)
    decreases |data|, if Available(x) == 0 then 1 else 0
  {
    var len := Fit(x, data);
    var first := FirstPiece(x, data, begin);
    if len == |data| then PieceBytes(step, x, first) else
      NextBlock(x);
      PieceBytes(step, x, first) + Fragments(step, first.End(), data[len..], false)
  }

  /** A log holding `rs`, however often the writer was reopened in between. */
  function LogOf(step: CrcStep, rs: seq<Bytes>): Bytes {
    if rs == [] then [] else
      var before := LogOf(step, rs[..|rs| - 1]);
      before + Fragments(step, |before|, rs[|rs| - 1], true)
  }

  class Writer {
    const step: CrcStep
    var dest: Bytes
    var blockOffset: nat

    ghost predicate Valid()
      reads this
    {
      blockOffset <= BLOCK && blockOffset % BLOCK == |dest| % BLOCK
    }

    /** A writer on a file that already has contents. */
    constructor (s: CrcStep, contents: Bytes)
      ensures Valid() && dest == contents && step == s
    {
      step, dest, blockOffset := s, contents, |contents| % BLOCK;
    }

    method EmitPhysicalRecord(t: Byte, p: Bytes)
      requires |p| <= 0xFFFF && blockOffset + HEADER + |p| <= BLOCK
      modifies this
      ensures dest == old(dest) + Physical(step, t, p)
      ensures blockOffset == old(blockOffset) + HEADER + |p|
    {
      var typeCrc := Extend(step, 0, [t]);
      var crc := Mask(Extend(step, typeCrc, p));
      dest := dest + (EncodeFixed32(crc) + [|p| % 256, |p| / 256] + [t]);
      dest := dest + p;
      blockOffset := blockOffset + HEADER + |p|;
    }

    /** One pass of the loop of AddRecord: pad the block if need be, emit one fragment. */
    method AddFragment(left: Bytes, begin: bool) returns (len: nat)
      requires Valid()
      modifies this
      ensures Valid()
      ensures len == if |left| < Available(|old(dest)|) then |left| else Available(|old(dest)|)
      ensures dest == old(dest) + Zeros(HeaderAt(|old(dest)|) - |old(dest)|) + Physical(step, TypeOf(begin, |left| == len), left[..len])
    {
      ghost var x := |dest|;
      OffsetIsModulus(blockOffset, x);
      var leftover := BLOCK - blockOffset;
      if leftover < HEADER {
        dest := dest + Zeros(leftover);
        blockOffset := 0;
      }
      assert dest == old(dest) + Zeros(HeaderAt(x) - x);
      assert |dest| == HeaderAt(x);
      var avail := BLOCK - blockOffset - HEADER;
      len := if |left| < avail then |left| else avail;
      var end := |left| == len;
      EmitPhysicalRecord(TypeOf(begin, end), left[..len]);
      ModulusAdvances(x, blockOffset - HEADER - len, len);
    }

    /** Writer::AddRecord. */
    method AddRecord(data: Bytes)
      requires Valid()
      modifies this
      ensures Valid() && dest == old(dest) + Fragments(step, |old(dest)|, data, true)
    {
      var left := data;
      var begin := true;
      var again := true;
      ghost var goal := dest + Fragments(step, |dest|, data, true);
      while again
        invariant Valid() && ToWrite(step, dest, left, begin, again, goal)
        decreases again, |left|, if Available(|dest|) == 0 then 1 else 0
      {
        ghost var before := dest;
        var len := AddFragment(left, begin);
        WroteFragment(step, before, dest, left, begin, len, goal);
        left := left[len..];
        begin := false;
        again := left != [];
      }
      assert Pending(|dest|, step, dest, left, begin, again, goal);
    }
  }

  ghost predicate Pending(n: nat, step: CrcStep, dest: Bytes, left: Bytes, begin: bool, again: bool, goal: Bytes) {
    n == |dest| && goal == if again then dest + Fragments(step, n, left, begin) else dest
  }

  /** With the fragments of `left`, if any are to come, the file will be `goal`. */
  ghost predicate ToWrite(step: CrcStep, dest: Bytes, left: Bytes, begin: bool, again: bool, goal: Bytes) {
    forall n: nat :: n == |dest| ==> Pending(n, step, dest, left, begin, again, goal)
  }

  lemma WroteFragment(step: CrcStep, before: Bytes, after: Bytes, data: Bytes, begin: bool, len: nat, goal: Bytes)
    requires ToWrite(step, before, data, begin, true, goal)
    requires len == (if |data| < Available(|before|) then |data| else Available(|before|))
    requires after == before + Zeros(HeaderAt(|before|) - |before|) + Physical(step, TypeOf(begin, |data| == len), data[..len])
    ensures ToWrite(step, after, data[len..], false, data[len..] != [], goal)
    ensures len < |data| && len == 0 ==> Available(|before|) == 0 && Available(|after|) > 0
  {
    assert Pending(|before|, step, before, data, begin, true, goal);
    FragmentsUnfold(step, |before|, data, begin, before, after, len);
    NextBlock(|before|);
  }

  lemma ModulusAdvances(x: nat, o: nat, len: nat)
    requires o <= BLOCK && o % BLOCK == HeaderAt(x) % BLOCK
    ensures (o + HEADER + len) % BLOCK == (HeaderAt(x) + HEADER + len) % BLOCK
  {
    var y := HeaderAt(x);
    assert y == y / BLOCK * BLOCK + y % BLOCK;
    assert o == o / BLOCK * BLOCK + o % BLOCK;
    ModShift(o + HEADER + len, y / BLOCK - o / BLOCK);
  }

  lemma ModShift(a: int, k: int)
    ensures (a + k * BLOCK) % BLOCK == a % BLOCK
  {}

  lemma OffsetIsModulus(o: nat, x: nat)
    requires o <= BLOCK && o % BLOCK == x % BLOCK
    ensures var leftover := BLOCK - o;
            HeaderAt(x) - x == (if leftover < HEADER then leftover else 0)
            && Available(x) == BLOCK - (if leftover < HEADER then 0 else o) - HEADER
            && HeaderAt(x) % BLOCK == (if leftover < HEADER then 0 else o) % BLOCK
  {
    var leftover := BLOCK - o;
    assert x + (BLOCK - x % BLOCK) == (x / BLOCK + 1) * BLOCK;
  }

  lemma FragmentsUnfold(step: CrcStep, x: nat, data: Bytes, begin: bool, before: Bytes, after: Bytes, len: nat)
    requires |before| == x && len == (if |data| < Available(x) then |data| else Available(x))
    requires after == before + Zeros(HeaderAt(x) - x) + Physical(step, TypeOf(begin, |data| == len), data[..len])
    ensures |after| == HeaderAt(x) + HEADER + len
    ensures before + Fragments(step, x, data, begin) == if len == |data| then after else after + Fragments(step, |after|, data[len..], false)
  {
    var first := FirstPiece(x, data, begin);
    Join(before, Zeros(HeaderAt(x) - x), Physical(step, TypeOf(begin, |data| == len), data[..len]));
    FragmentsCase(step, x, data, begin, before, after, len, PieceBytes(step, x, first));
  }

  lemma FragmentsMore(step: CrcStep, x: nat, data: Bytes, begin: bool)
    ensures var first, len := FirstPiece(x, data, begin), Fit(x, data);
      Fragments(step, x, data, begin) == if len == |data| then PieceBytes(step, x, first) else PieceBytes(step, x, first) + Fragments(step, first.End(), data[len..], false)
  {}

  lemma FragmentsCase(step: CrcStep, x: nat, data: Bytes, begin: bool, before: Bytes, after: Bytes, len: nat, head: Bytes)
    requires |before| == x && len == Fit(x, data) && head == PieceBytes(step, x, FirstPiece(x, data, begin)) && after == before + head
    ensures before + Fragments(step, x, data, begin) == if len == |data| then after else after + Fragments(step, |after|, data[len..], false)
  {
    FragmentsMore(step, x, data, begin);
    Glued(before, head, after, FirstPiece(x, data, begin).End(), Fragments(step, FirstPiece(x, data, begin).End(), data[len..], false));
  }

  lemma Glued(before: Bytes, head: Bytes, after: Bytes, end: nat, rest: Bytes)
    requires after == before + head && end == |before| + |head|
    ensures |after| == end && before + (head + rest) == after + rest
  {}
}
