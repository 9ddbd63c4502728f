/** How the memtable lays out an entry in memory, and how a lookup reads it. */
module MemTables {
  import opened Keys
  import opened Coding

  /** An entry: user key, packed sequence number and type, value. */
  datatype Record = Record(user: Bytes, tag: nat, value: Bytes)

  /** PackSequenceAndType. */
  function Pack(sequence: nat, kind: nat): nat {
    sequence * 256 + kind
  }

  /** MemTable::Add: length of the internal key, the internal key, length of the value, the value. */
  function EncodeRecord(r: Record): Bytes
    requires r.tag < U64
  {
    EncodeVarint(|r.user| + 8) + (r.user + EncodeFixed64(r.tag)) + (EncodeVarint(|r.value|) + r.value)
  }

  /** What MemTable::Get and the memtable iterator read behind an entry's pointer. */
  function ReadRecord(b: Bytes): Option<Record> {
    match GetSlice(b)
    case None => None
    case Some(k) =>
      if |k.0| < 8 then None else
        match GetSlice(k.1)
        case None => None
        case Some(v) => Some(Record(k.0[..|k.0| - 8], DecodeFixed64(k.0[|k.0| - 8..]), v.0))
  }

  lemma InternalKeyBack(user: Bytes, tag: nat)
    requires tag < U64
    ensures var k := user + EncodeFixed64(tag); k[..|k| - 8] == user && DecodeFixed64(k[|k| - 8..]) == tag
  {
    var k := user + EncodeFixed64(tag);
    assert k[|k| - 8..] == EncodeFixed64(tag) + [];
    Fixed64RoundTrip(tag, []);
  }

  /** An entry read back is the entry that was added, whatever lies behind it in the arena. */
  lemma RecordRoundTrip(r: Record, rest: Bytes)
    requires |r.user| + 8 < U32 && |r.value| < U32 && r.tag < U64
    ensures ReadRecord(EncodeRecord(r) + rest) == Some(r)
  {
    var k := r.user + EncodeFixed64(r.tag);
    Join(PutSlice(k), PutSlice(r.value), rest);
    SliceRoundTrip(k, PutSlice(r.value) + rest);
    SliceRoundTrip(r.value, rest);
    InternalKeyBack(r.user, r.tag);
  }

  /** Sequence number and type come apart again. */
  lemma PackBack(sequence: nat, kind: nat)
    requires kind < 256
    ensures Pack(sequence, kind) / 256 == sequence && Pack(sequence, kind) % 256 == kind
  {}

  /** Tags order entries by sequence number first, then by type. */
  lemma PackOrders(s: nat, k: nat, t: nat, l: nat)
    requires k < 256 && l < 256
    ensures Pack(s, k) > Pack(t, l) <==> s > t || (s == t && k > l)
  {}

  /** MemTable::Add: the buffer is filled from the front. */
  method Add(sequence: nat, kind: nat, key: Bytes, value: Bytes) returns (buffer: Bytes)
    requires kind < 256 && sequence < 0x100_0000_0000_0000
    ensures buffer == EncodeRecord(Record(key, Pack(sequence, kind), value))
  {
    buffer := EncodeVarint(|key| + 8);
    buffer := buffer + key;
    buffer := buffer + EncodeFixed64(Pack(sequence, kind));
    Join(EncodeVarint(|key| + 8), key, EncodeFixed64(Pack(sequence, kind)));
    var front := buffer;
    buffer := buffer + EncodeVarint(|value|);
    buffer := buffer + value;
    Join(front, EncodeVarint(|value|), value);
  }
}
