/** Decoded WAL records, their checksum, and what it means for a record to be a NOOP. */
module WalRecords {
  import opened Bytes
  import opened Text

  const XLR_INFO_MASK: bv8 := 0x0F
  const XLOG_NOOP: bv8 := 0x20
  const XLOG_HEAP_OPMASK: bv8 := 0x70
  const XLOG_HEAP_DELETE: bv8 := 0x10
  const RM_XLOG_ID := 0
  const RM_HEAP_ID := 10
  const SIZE_OF_XLOG_RECORD := 24

  /** A decoded record.  `body` holds the encoded bytes after the header; `pad` the two bytes of
      padding before the checksum; `xmax` what the main data of a heap DELETE names, if there is
      main data. */
  datatype Record = Record(
    totLen: U32, xid: U32, prev: U64, info: bv8, rmid: Byte, pad: U16, crc: bv32,
    lsn: U64, toplevelXid: U32, xmax: Option<U32>, body: seq<Byte>)

  /** The stored length is the length that the encoder produces. */
  predicate WellFormed(r: Record)
  {
    r.totLen == SIZE_OF_XLOG_RECORD + |r.body|
  }

  predicate IsHeapDelete(r: Record)
  {
    r.rmid == RM_HEAP_ID && (r.info & !XLR_INFO_MASK) & XLOG_HEAP_OPMASK == XLOG_HEAP_DELETE
  }

  predicate IsNoop(r: Record)
  {
    r.rmid == RM_XLOG_ID && r.info & !XLR_INFO_MASK == XLOG_NOOP
  }

  function ToNoop(r: Record): (n: Record)
    ensures IsNoop(n) && !IsHeapDelete(n)
    ensures n == r.(info := n.info, rmid := n.rmid)
  {
    r.(info := XLOG_NOOP, rmid := RM_XLOG_ID)
  }

  // ----- CRC-32C (section 12.1 of RFC 3720) -----

  /** `n` rounds of the reflected polynomial. */
  function CrcRounds(c: bv32, n: nat): bv32
    decreases n
  {
    if n == 0 then c
    else CrcRounds(if c & 1 == 1 then (c >> 1) ^ 0x82F6_3B78 else c >> 1, n - 1)
  }

  /** The bits of a number. */
  function Bits(b: nat): bv32
  {
    if b == 0 then 0 else AddBit(Bits(b / 2), b % 2 == 1)
  }

  function AddBit(x: bv32, odd: bool): bv32
  {
    (x << 1) | (if odd then 1 else 0)
  }

  /** A word with a byte added. */
  function WithByte(crc: bv32, b: Byte): bv32
  {
    crc ^ Bits(b)
  }

  function CrcByte(crc: bv32, b: Byte): bv32
  {
    CrcRounds(WithByte(crc, b) & 0xFF, 8) ^ (crc >> 8)
  }

  function CrcFold(data: seq<Byte>, crc: bv32): bv32
  {
    if data == [] then crc else CrcFold(data[1..], CrcByte(crc, data[0]))
  }

  /** Feeding two buffers in turn is feeding their concatenation. */
  lemma {:induction false} CrcFoldConcat(a: seq<Byte>, b: seq<Byte>, crc: bv32)
    ensures CrcFold(a + b, crc) == CrcFold(b, CrcFold(a, crc))
  {
    hide CrcByte;
    if a == [] {
      assert a + b == b;
    } else {
      assert (a + b)[1..] == a[1..] + b;
      CrcFoldConcat(a[1..], b, CrcByte(crc, a[0]));
    }
  }

  /** The header in front of the checksum field. */
  function HeaderPrefix(r: Record): (h: seq<Byte>)
    ensures |h| == SIZE_OF_XLOG_RECORD - 4
  {
    ToBytes(r.totLen, 4) + ToBytes(r.xid, 4) + ToBytes(r.prev, 8) + [r.info as int] + [r.rmid] + ToBytes(r.pad, 2)
  }

  /** The encoded record with a zero checksum. */
  function Encode(r: Record): (e: seq<Byte>)
    ensures |e| == SIZE_OF_XLOG_RECORD + |r.body|
    ensures e[..SIZE_OF_XLOG_RECORD - 4] == HeaderPrefix(r) && e[SIZE_OF_XLOG_RECORD..] == r.body
  {
    HeaderPrefix(r) + ToBytes(0, 4) + r.body
  }

  /** The CRC-32C of a sequence of bytes. */
  function Crc32c(data: seq<Byte>): bv32
  {
    CrcFold(data, 0xFFFF_FFFF) ^ 0xFFFF_FFFF
  }

  /** The bytes that the checksum of a record covers: the body, and then the header in front of the field. */
  function Covered(r: Record): seq<Byte>
  {
    r.body + HeaderPrefix(r)
  }

  function Checksum(r: Record): bv32
  {
    Crc32c(Covered(r))
  }

  predicate ValidCrc(r: Record)
  {
    r.crc == Checksum(r)
  }

  /** A record has one valid checksum: the field itself is not summed. */
  lemma OneValidCrc(a: Record, b: Record)
    requires a == b.(crc := a.crc) && ValidCrc(a) && ValidCrc(b)
    ensures a == b
  {
    hide CrcFold;
  }

  function WithCrc(r: Record): (w: Record)
    ensures ValidCrc(w) && w == r.(crc := w.crc)
  {
    r.(crc := Checksum(r))
  }

  /** The byte loop over one buffer. */
  method CrcBuffer(data: seq<Byte>, crc: bv32) returns (r: bv32)
    ensures r == CrcFold(data, crc)
  {
    hide CrcByte;
    r := crc;
    for i := 0 to |data|
      invariant CrcFold(data, crc) == CrcFold(data[i..], r)
    {
      assert data[i..][0] == data[i] && data[i..][1..] == data[i + 1..];
      r := CrcByte(r, data[i]);
    }
  }

  /** Encodes the record and folds the payload, then the header up to the checksum field. */
  method RecalculateCrc(r: Record) returns (w: Record)
    requires WellFormed(r)
    ensures w == WithCrc(r)
  {
    hide CrcFold, HeaderPrefix;
    var crc: bv32 := 0xFFFF_FFFF;
    var encoded := Encode(r);
    assert encoded[SIZE_OF_XLOG_RECORD..r.totLen] == r.body;
    crc := CrcBuffer(encoded[SIZE_OF_XLOG_RECORD..r.totLen], crc);
    crc := CrcBuffer(encoded[..SIZE_OF_XLOG_RECORD - 4], crc);
    crc := crc ^ 0xFFFF_FFFF;
    CrcFoldConcat(r.body, HeaderPrefix(r), 0xFFFF_FFFF);
    w := r.(crc := crc);
  }
}
