/** Write batches: a header (sequence number, count) and the encoded updates, edited in place. */
module WriteBatches {
  import opened Keys
  import opened Coding

  datatype Update = Put(key: Bytes, value: Bytes) | Delete(key: Bytes)

  /** An update with its sequence number, as the memtable stores it. */
  datatype Stamped = Stamped(sequence: nat, update: Update)

  datatype Status = Ok | TooSmall | BadRecord | WrongCount

  const HEADER: nat := 12
  const TYPE_DELETION: Byte := 0
  const TYPE_VALUE: Byte := 1

  function EncodeUpdate(u: Update): (r: Bytes)
    ensures r != []
  {
    match u
    case Put(key, value) => [TYPE_VALUE] + PutSlice(key) + PutSlice(value)
    case Delete(key) => [TYPE_DELETION] + PutSlice(key)
  }

  function Encode(us: seq<Update>): Bytes {
    if us == [] then [] else EncodeUpdate(us[0]) + Encode(us[1..])
  }

  lemma {:induction false} EncodeAppend(a: seq<Update>, b: seq<Update>)
    ensures Encode(a + b) == Encode(a) + Encode(b)
    decreases |a|
  {
    if a == [] {
      assert a + b == b;
    } else {
      assert (a + b)[0] == a[0] && (a + b)[1..] == a[1..] + b;
      EncodeAppend(a[1..], b);
    }
  }

  lemma EncodeSingle(u: Update)
    ensures Encode([u]) == EncodeUpdate(u)
  {
    assert [u][1..] == [] && Encode([]) == [];
  }

  /** The contents of a batch holding `us`. */
  function Rep(sequence: nat, us: seq<Update>): (r: Bytes)
    requires sequence < U64
    ensures |r| >= HEADER
  {
    EncodeFixed64(sequence) + EncodeFixed32(|us| % 0x1_0000_0000) + Encode(us)
  }

  /** One update from the front of `b`, and what follows it. */
  function ParseUpdate(b: Bytes): (r: Option<(Update, Bytes)>)
    requires b != []
    ensures r.Some? ==> |r.value.1| < |b|
  {
    if b[0] == TYPE_VALUE then
      match GetSlice(b[1..])
      case None => None
      case Some(k) =>
        match GetSlice(k.1)
        case None => None
        case Some(v) => Some((Update.Put(k.0, v.0), v.1))
    else if b[0] == TYPE_DELETION then
      match GetSlice(b[1..])
      case None => None
      case Some(k) => Some((Update.Delete(k.0), k.1))
    else None
  }

  /** The updates up to the first malformed one, and whether there is none. */
  function Parse(b: Bytes): (seq<Update>, bool)
    decreases |b|
  {
    if b == [] then ([], true) else
      match ParseUpdate(b)
      case None => ([], false)
      case Some(p) => var (us, ok) := Parse(p.1); ([p.0] + us, ok)
  }

  /** The count is read back as a signed 32-bit integer. */
  function AsInt32(v: nat): int {
    if v < 0x8000_0000 then v else v - U32
  }

  function Sequence(rep: Bytes): nat
    requires |rep| >= HEADER
  {
    DecodeFixed64(rep)
  }

  function Count(rep: Bytes): int
    requires |rep| >= HEADER
  {
    AsInt32(DecodeFixed32(rep[8..]))
  }

  /** WriteBatch::Iterate: the calls its handler receives, and the status. */
  function Replay(rep: Bytes): (seq<Update>, Status) {
    if |rep| < HEADER then ([], TooSmall) else
      var (us, ok) := Parse(rep[HEADER..]);
      (us, if !ok then BadRecord else if |us| != Count(rep) then WrongCount else Ok)
  }

  function Numbered(base: nat, us: seq<Update>): (r: seq<Stamped>)
    ensures |r| == |us|
  {
    seq(|us|, i requires 0 <= i < |us| => Stamped(base + i, us[i]))
  }

  ghost predicate Sized(u: Update) {
    |u.key| < U32 && (u.Put? ==> |u.value| < U32)
  }

  ghost predicate AllSized(us: seq<Update>) {
    forall u <- us :: Sized(u)
  }

  lemma ParsePut(b: Bytes, key: Bytes, value: Bytes, mid: Bytes, rest: Bytes)
    requires b != [] && b[0] == TYPE_VALUE
    requires GetSlice(b[1..]) == Some((key, mid)) && GetSlice(mid) == Some((value, rest))
    ensures ParseUpdate(b) == Some((Update.Put(key, value), rest))
  {}

  lemma Unfront(t: Byte, a: Bytes, b: Bytes)
    ensures ([t] + a + b)[0] == t && ([t] + a + b)[1..] == a + b
  {}

  lemma ParsePutBytes(k: Bytes, v: Bytes, rest: Bytes, key: Bytes, value: Bytes)
    requires GetSlice(k + (v + rest)) == Some((key, v + rest)) && GetSlice(v + rest) == Some((value, rest))
    ensures ParseUpdate([TYPE_VALUE] + k + (v + rest)) == Some((Update.Put(key, value), rest))
  {
    Unfront(TYPE_VALUE, k, v + rest);
    ParsePut([TYPE_VALUE] + k + (v + rest), key, value, v + rest, rest);
  }

  lemma ParseEncodedPut(key: Bytes, value: Bytes, rest: Bytes)
    requires |key| < U32 && |value| < U32
    ensures ParseUpdate([TYPE_VALUE] + PutSlice(key) + (PutSlice(value) + rest)) == Some((Update.Put(key, value), rest))
  {
    SliceRoundTrip(key, PutSlice(value) + rest);
    SliceRoundTrip(value, rest);
    ParsePutBytes(PutSlice(key), PutSlice(value), rest, key, value);
  }

  lemma ParseDeleteBytes(k: Bytes, rest: Bytes, key: Bytes)
    requires GetSlice(k + rest) == Some((key, rest))
    ensures ParseUpdate([TYPE_DELETION] + k + rest) == Some((Update.Delete(key), rest))
  {
    Unfront(TYPE_DELETION, k, rest);
  }

  lemma ParseEncoded(u: Update, rest: Bytes)
    requires Sized(u)
    ensures ParseUpdate(EncodeUpdate(u) + rest) == Some((u, rest))
  {
    match u
    case Put(key, value) =>
      Join([TYPE_VALUE] + PutSlice(key), PutSlice(value), rest);
      ParseEncodedPut(key, value, rest);
    case Delete(key) =>
      SliceRoundTrip(key, rest);
      ParseDeleteBytes(PutSlice(key), rest, key);
  }

  lemma ParseFirst(b: Bytes, u: Update, rest: Bytes)
    requires b != [] && ParseUpdate(b) == Some((u, rest))
    ensures Parse(b) == ([u] + Parse(rest).0, Parse(rest).1)
  {}

  lemma {:induction false} ParseRoundTrip(us: seq<Update>)
    requires AllSized(us)
    ensures Parse(Encode(us)) == (us, true)
    decreases |us|
  {
    if us != [] {
      var u, rest := us[0], Encode(us[1..]);
      assert Encode(us) == EncodeUpdate(u) + rest;
      ParseEncoded(u, rest);
      ParseFirst(Encode(us), u, rest);
      ParseRoundTrip(us[1..]);
      assert us == [u] + us[1..];
    }
  }

  lemma Slices(a: Bytes, b: Bytes, c: Bytes)
    requires |a| == 8 && |b| == 4
    ensures var r := a + b + c; r[..8] == a && r[8..] == b + c && r[12..] == c
  {}

  lemma RepSlices(sequence: nat, us: seq<Update>)
    requires sequence < U64
    ensures var rep := Rep(sequence, us);
      && rep[..8] == EncodeFixed64(sequence) && rep[8..] == EncodeFixed32(|us| % 0x1_0000_0000) + Encode(us) && rep[HEADER..] == Encode(us)
  {
    Slices(EncodeFixed64(sequence), EncodeFixed32(|us| % 0x1_0000_0000), Encode(us));
  }

  lemma HeaderReads(sequence: nat, us: seq<Update>)
    requires sequence < U64
    ensures var rep := Rep(sequence, us);
      Sequence(rep) == sequence && DecodeFixed32(rep[8..]) == |us| % 0x1_0000_0000 && rep[HEADER..] == Encode(us)
  {
    RepSlices(sequence, us);
    var a, b, c := EncodeFixed64(sequence), EncodeFixed32(|us| % 0x1_0000_0000), Encode(us);
    Join(a, b, c);
    Fixed64RoundTrip(sequence, b + c);
    Fixed32RoundTrip(|us| % 0x1_0000_0000, c);
  }

  lemma SmallCount(n: nat)
    requires n < 0x8000_0000
    ensures AsInt32(n % 0x1_0000_0000) == n
  {}

  lemma CountIsExact(sequence: nat, us: seq<Update>)
    requires sequence < U64 && |us| < 0x8000_0000
    ensures Count(Rep(sequence, us)) == |us|
  {
    HeaderReads(sequence, us);
    SmallCount(|us|);
  }

  /** A batch read back: the same updates in the same order under the same sequence number. */
  lemma BatchRoundTrip(sequence: nat, us: seq<Update>)
    requires sequence < U64 && AllSized(us) && |us| < 0x8000_0000
    ensures Replay(Rep(sequence, us)) == (us, Ok)
    ensures Sequence(Rep(sequence, us)) == sequence && Count(Rep(sequence, us)) == |us|
  {
    HeaderReads(sequence, us);
    CountIsExact(sequence, us);
    ParseRoundTrip(us);
  }

  function AddCount(a: nat, b: nat): nat {
    (a + b) % 0x1_0000_0000
  }

  lemma Glue(rep: Bytes, h: Bytes, c: Bytes, x: Bytes, c2: Bytes, y: Bytes)
    requires |h| == 8 && |c| == 4 && rep == h + c + x
    ensures h + c2 + (x + y) == rep[..8] + c2 + rep[12..] + y
  {
    Slices(h, c, x);
    Join(h + c2, x, y);
  }

  lemma Extended(sequence: nat, us: seq<Update>, more: seq<Update>)
    requires sequence < U64
    ensures var rep, n := Rep(sequence, us), AddCount(|us| % 0x1_0000_0000, |more|);
      Rep(sequence, us + more) == rep[..8] + EncodeFixed32(n) + rep[HEADER..] + Encode(more)
  {
    var h, n := EncodeFixed64(sequence), AddCount(|us| % 0x1_0000_0000, |more|);
    AddCounts(|us|, |more|);
    assert |us + more| % 0x1_0000_0000 == n;
    Glue(Rep(sequence, us), h, EncodeFixed32(|us| % 0x1_0000_0000), Encode(us), EncodeFixed32(n), Encode(more));
    EncodeAppend(us, more);
    RepIs(sequence, us + more, n, Encode(us) + Encode(more));
  }

  lemma RepIs(sequence: nat, us: seq<Update>, n: nat, body: Bytes)
    requires sequence < U64 && n == |us| % 0x1_0000_0000 && body == Encode(us)
    ensures Rep(sequence, us) == EncodeFixed64(sequence) + EncodeFixed32(n) + body
  {}

  /** A batch whose count went up by one and whose contents grew by one encoded update. */
  lemma Added(sequence: nat, us: seq<Update>, u: Update, rep: Bytes, encoded: Bytes, after: Bytes)
    requires sequence < U64 && rep == Rep(sequence, us) && encoded == EncodeUpdate(u)
    requires after == rep[..8] + EncodeFixed32(AddCount(|us| % 0x1_0000_0000, 1)) + rep[HEADER..] + encoded
    ensures after == Rep(sequence, us + [u])
  {
    Extended(sequence, us, [u]);
    EncodeSingle(u);
  }

  lemma Tail(a: Bytes, b: Bytes, c: Bytes, d: Bytes)
    ensures a + b + c + d == a + (b + c + d)
  {}

  lemma AddCounts(m: nat, n: nat)
    ensures AddCount(m % 0x1_0000_0000, n) == (m + n) % 0x1_0000_0000 == AddCount(m % 0x1_0000_0000, n % 0x1_0000_0000)
  {
    assert m == m / 0x1_0000_0000 * 0x1_0000_0000 + m % 0x1_0000_0000 && n == n / 0x1_0000_0000 * 0x1_0000_0000 + n % 0x1_0000_0000;
  }

  class WriteBatch {
    var rep: Bytes

    ghost predicate Holds(sequence: nat, us: seq<Update>)
      reads this
    {
      sequence < U64 && rep == Rep(sequence, us)
    }

    constructor ()
      ensures Holds(0, [])
    {
      rep := seq(HEADER, _ => 0);
    }

    method Clear()
      modifies this
      ensures Holds(0, [])
    {
      rep := seq(HEADER, _ => 0);
    }

    method SetCount(n: nat)
      requires n < U32 && |rep| >= HEADER
      modifies this
      ensures rep == old(rep[..8]) + EncodeFixed32(n) + old(rep[HEADER..])
    {
      rep := rep[..8] + EncodeFixed32(n) + rep[HEADER..];
    }

    method GetCount(ghost sequence: nat, ghost us: seq<Update>) returns (n: nat)
      requires Holds(sequence, us)
      ensures n == |us| % 0x1_0000_0000
    {
      HeaderReads(sequence, us);
      n := DecodeFixed32(rep[8..]);
    }

    method SetSequence(sequence: nat, ghost was: nat, ghost us: seq<Update>)
      requires sequence < U64 && Holds(was, us)
      modifies this
      ensures Holds(sequence, us)
    {
      Slices(EncodeFixed64(was), EncodeFixed32(|us| % 0x1_0000_0000), Encode(us));
      rep := EncodeFixed64(sequence) + rep[8..];
    }

    method Put(key: Bytes, value: Bytes, ghost sequence: nat, ghost us: seq<Update>)
      requires Holds(sequence, us)
      modifies this
      ensures Holds(sequence, us + [Update.Put(key, value)])
    {
      var n := GetCount(sequence, us);
      SetCount(AddCount(n, 1));
      ghost var before := rep;
      rep := rep + [TYPE_VALUE];
      rep := rep + PutSlice(key);
      rep := rep + PutSlice(value);
      Tail(before, [TYPE_VALUE], PutSlice(key), PutSlice(value));
      Added(sequence, us, Update.Put(key, value), old(rep), [TYPE_VALUE] + PutSlice(key) + PutSlice(value), rep);
    }

    method Delete(key: Bytes, ghost sequence: nat, ghost us: seq<Update>)
      requires Holds(sequence, us)
      modifies this
      ensures Holds(sequence, us + [Update.Delete(key)])
    {
      var n := GetCount(sequence, us);
      SetCount(AddCount(n, 1));
      ghost var before := rep;
      rep := rep + [TYPE_DELETION];
      rep := rep + PutSlice(key);
      Join(before, [TYPE_DELETION], PutSlice(key));
      Added(sequence, us, Update.Delete(key), old(rep), [TYPE_DELETION] + PutSlice(key), rep);
    }

    /** WriteBatchInternal::Append; the sequence number of `src` plays no part. */
    method Append(src: WriteBatch, ghost sequence: nat, ghost us: seq<Update>, ghost s2: nat, ghost us2: seq<Update>)
      requires Holds(sequence, us) && src.Holds(s2, us2) && src != this
      modifies this
      ensures Holds(sequence, us + us2)
    {
      Extended(sequence, us, us2);
      RepSlices(s2, us2);
      AddCounts(|us|, |us2|);
      var n := GetCount(sequence, us);
      var m := src.GetCount(s2, us2);
      SetCount(AddCount(n, m));
      rep := rep + src.rep[HEADER..];
    }

    /** WriteBatch::Iterate with a MemTableInserter: what is added to the memtable. */
    method InsertInto() returns (added: seq<Stamped>, status: Status)
      ensures var (us, s) := Replay(rep);
        status == s && added == if |rep| < HEADER then [] else Numbered(Sequence(rep), us)
    {
      if |rep| < HEADER {
        return [], TooSmall;
      }
      var ok;
      added, ok := Iterate(rep[HEADER..], DecodeFixed64(rep));
      var count := Count(rep);
      status := if !ok then BadRecord else if |added| != count then WrongCount else Ok;
    }
  }

  /** The loop of WriteBatch::Iterate, the handler numbering what it is given. */
  method Iterate(contents: Bytes, base: nat) returns (added: seq<Stamped>, ok: bool)
    ensures added == Numbered(base, Parse(contents).0) && ok == Parse(contents).1
  {
    added := [];
    var input, sequence := contents, base;
    ghost var us: seq<Update> := [];
    assert [] + Parse(input).0 == Parse(input).0;
    while input != []
      invariant Handled(base, us, added, sequence) && Continues(Parse(contents), us, Parse(input))
      decreases |input|
    {
      var p := ParseUpdate(input);
      if p.None? {
        return added, false;
      }
      HandleOne(Parse(contents), base, us, input, p.value.0, p.value.1, added, sequence);
      added := added + [Stamped(sequence, p.value.0)];
      sequence := sequence + 1;
      us := us + [p.value.0];
      input := p.value.1;
    }
    ok := true;
  }

  ghost predicate Continues(all: (seq<Update>, bool), us: seq<Update>, rest: (seq<Update>, bool)) {
    all == (us + rest.0, rest.1)
  }

  ghost predicate Handled(base: nat, us: seq<Update>, added: seq<Stamped>, sequence: nat) {
    sequence == base + |us| && added == Numbered(base, us)
  }

  lemma HandleOne(all: (seq<Update>, bool), base: nat, us: seq<Update>, input: Bytes, u: Update, rest: Bytes, added: seq<Stamped>, sequence: nat)
    requires input != [] && ParseUpdate(input) == Some((u, rest)) && Continues(all, us, Parse(input))
    requires Handled(base, us, added, sequence)
    ensures Continues(all, us + [u], Parse(rest))
    ensures Handled(base, us + [u], added + [Stamped(sequence, u)], sequence + 1)
  {
    ParseFirst(input, u, rest);
    Appends(us, [u], Parse(rest).0);
  }

  lemma Appends(a: seq<Update>, b: seq<Update>, c: seq<Update>)
    ensures a + (b + c) == a + b + c
  {}
}
