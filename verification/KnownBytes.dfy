/** The formats, byte by byte, on values small enough to write down. */
module KnownBytes {
  import opened Keys
  import opened Coding
  import LogFormat
  import WriteBatches
  import Protobuf

  lemma Varints()
    ensures EncodeVarint(1) == [1] && EncodeVarint(300) == [0xAC, 0x02] && EncodeVarint(16384) == [0x80, 0x80, 0x01]
    ensures EncodeFixed32(0x01020304) == [4, 3, 2, 1]
  {
    assert EncodeVarint(2) == [2];
    assert EncodeVarint(128) == [128, 1];
  }

  /** Sequence number, count, a put of "k" to "v" and a deletion of "k". */
  lemma Batch()
    ensures WriteBatches.Rep(5, [WriteBatches.Put([107], [118]), WriteBatches.Delete([107])])
         == [5, 0, 0, 0, 0, 0, 0, 0, 2, 0, 0, 0, 1, 1, 107, 1, 118, 0, 1, 107]
  {
    var put, del := WriteBatches.Put([107], [118]), WriteBatches.Delete([107]);
    assert EncodeVarint(1) == [1];
    assert WriteBatches.EncodeUpdate(put) == [1, 1, 107, 1, 118];
    assert WriteBatches.EncodeUpdate(del) == [0, 1, 107];
    assert [put, del][1..] == [del] && [del][1..] == [];
    assert WriteBatches.Encode([del]) == [0, 1, 107];
    assert EncodeFixed32(5) == [5, 0, 0, 0] && EncodeFixed32(0) == [0, 0, 0, 0] && EncodeFixed32(2) == [2, 0, 0, 0];
    assert EncodeFixed64(5) == [5, 0, 0, 0, 0, 0, 0, 0];
  }

  /** Masking rotates right by 15 bits and adds 0xa282ead8; extending by nothing changes nothing. */
  lemma Checksums(step: LogFormat.CrcStep, w: LogFormat.Word)
    ensures LogFormat.Mask(0) == 0xa282ead8 && LogFormat.Mask(1) == 0xa284ead8 && LogFormat.Mask(0x8000) == 0xa282ead9
    ensures LogFormat.Extend(step, w, []) == w
    ensures LogFormat.Extend(step, 0, [7]) == 0xFFFF_FFFF - step(0xFFFF_FFFF, 7)
  {
    assert LogFormat.Fold(step, 0xFFFF_FFFF, [7]) == LogFormat.Fold(step, step(0xFFFF_FFFF, 7), []);
  }

  /** The header of a log record: four bytes of masked checksum over type and payload, two of
      length, one of type. */
  lemma LogHeader(step: LogFormat.CrcStep, t: Byte, p: Bytes)
    requires |p| <= 0xFFFF
    ensures var r := LogFormat.Physical(step, t, p);
      && |r| == 7 + |p| && r[4] == |p| % 256 && r[5] == |p| / 256 && r[6] == t && r[7..] == p
      && DecodeFixed32(r) == LogFormat.Mask(LogFormat.Extend(step, 0, [t] + p))
  {
    var crc := LogFormat.Mask(LogFormat.Extend(step, LogFormat.Extend(step, 0, [t]), p));
    LogFormat.ExtendAppend(step, 0, [t], p);
    Fixed32RoundTrip(crc, []);
    var r := LogFormat.Physical(step, t, p);
    assert r[..4] == EncodeFixed32(crc);
    assert EncodeFixed32(crc) + [] == EncodeFixed32(crc);
  }

  /** A fragment has one of the types 1 to 4 and never crosses a boundary of 32 KB. */
  lemma LogFragment(x: nat, data: Bytes, begin: bool)
    ensures var pc := LogFormat.FirstPiece(x, data, begin);
      && pc.at % 32768 + 7 + |pc.p| <= 32768
      && pc.t == (if pc.p == data then (if begin then 1 else 4) else if begin then 2 else 3)
      && (pc.p != data ==> pc.at % 32768 + 7 + |pc.p| == 32768)
  {}

  /** Tags, numbers and strings of a message. */
  lemma Message()
    ensures Protobuf.EncTag(1, 0) == [0x08] && Protobuf.EncTag(2, 2) == [0x12]
    ensures Protobuf.EncNumber(Protobuf.Varint(4), 150) == [0x96, 0x01]
    ensures Protobuf.EncNumber(Protobuf.SVarint(4), -1) == [1] && Protobuf.EncNumber(Protobuf.SVarint(4), 1) == [2]
    ensures Protobuf.EncNumber(Protobuf.Fixed32, 1) == [1, 0, 0, 0]
    ensures Protobuf.WithLength([7, 8]) == [2, 7, 8]
    ensures Protobuf.WireType(Protobuf.Varint(4)) == 0 && Protobuf.WireType(Protobuf.Fixed64) == 1 && Protobuf.WireType(Protobuf.StringField(9)) == 2 && Protobuf.WireType(Protobuf.Fixed32) == 5
  {
    assert EncodeVarint(1) == [1] && EncodeVarint(2) == [2];
    assert EncodeVarint(8) == [8] && EncodeVarint(18) == [18] && EncodeVarint(150) == [150, 1];
  }
}
