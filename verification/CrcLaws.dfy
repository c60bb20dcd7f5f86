/** What the checksum of a WAL record is (src/libpgmoneta/security.c, src/walfilter.c): the table it stands for,
    the check value of the polynomial, and that it detects every change of a single byte. */
module CrcLaws {
  import opened Bytes
  import opened WalRecords

  // ----- one round -----

  function Round(c: bv32): bv32
  {
    if c & 1 == 1 then (c >> 1) ^ 0x82F6_3B78 else c >> 1
  }

  lemma FirstRound(c: bv32, n: nat)
    ensures CrcRounds(c, 0) == c && CrcRounds(c, n + 1) == CrcRounds(Round(c), n)
  {}

  /** `x` is the exclusive or of `a` and `b`. */
  predicate IsXor(x: bv32, a: bv32, b: bv32)
  {
    x == a ^ b
  }

  lemma LowBits(a: bv32, b: bv32)
    ensures (a ^ b) & 1 == (a & 1) ^ (b & 1) && (a ^ b) >> 1 == (a >> 1) ^ (b >> 1)
    ensures a & 1 == 0 || a & 1 == 1
  {}

  lemma Exclusive(a: bv32, b: bv32, p: bv32)
    ensures (a ^ p) ^ b == (a ^ b) ^ p && a ^ (b ^ p) == (a ^ b) ^ p && (a ^ p) ^ (b ^ p) == a ^ b
  {}

  lemma RoundXor(x: bv32, a: bv32, b: bv32)
    requires IsXor(x, a, b)
    ensures IsXor(Round(x), Round(a), Round(b))
  {
    LowBits(a, b);
    LowBits(b, a);
    Exclusive(a >> 1, b >> 1, 0x82F6_3B78);
  }

  lemma RoundInjective(a: bv32, b: bv32)
    ensures Round(a) == Round(b) ==> a == b
  {}

  // ----- all rounds -----

  lemma {:induction false} RoundsXor(x: bv32, a: bv32, b: bv32, n: nat)
    requires IsXor(x, a, b)
    ensures IsXor(CrcRounds(x, n), CrcRounds(a, n), CrcRounds(b, n))
    decreases n
  {
    hide Round, CrcRounds, IsXor;
    if n == 0 {
      FirstRound(a, 0);
      FirstRound(b, 0);
      FirstRound(x, 0);
    } else {
      FirstRound(a, n - 1);
      FirstRound(b, n - 1);
      FirstRound(x, n - 1);
      RoundXor(x, a, b);
      RoundsXor(Round(x), Round(a), Round(b), n - 1);
    }
  }

  /** The rounds are linear over exclusive or. */
  lemma RoundsLinear(a: bv32, b: bv32, n: nat)
    ensures CrcRounds(a ^ b, n) == CrcRounds(a, n) ^ CrcRounds(b, n)
  {
    hide CrcRounds;
    RoundsXor(a ^ b, a, b, n);
  }

  /** Different words stay different. */
  lemma {:induction false} RoundsInjective(a: bv32, b: bv32, n: nat)
    requires CrcRounds(a, n) == CrcRounds(b, n)
    ensures a == b
    decreases n
  {
    hide Round, CrcRounds;
    if n == 0 {
      FirstRound(a, 0);
      FirstRound(b, 0);
    } else {
      FirstRound(a, n - 1);
      FirstRound(b, n - 1);
      RoundsInjective(Round(a), Round(b), n - 1);
      RoundInjective(a, b);
    }
  }

  function FourRounds(c: bv32): bv32
  {
    Round(Round(Round(Round(c))))
  }

  lemma RoundsByFour(c: bv32, n: nat)
    ensures CrcRounds(c, n + 4) == CrcRounds(FourRounds(c), n)
  {
    hide Round, CrcRounds;
    FirstRound(c, n + 3);
    FirstRound(Round(c), n + 2);
    FirstRound(Round(Round(c)), n + 1);
    FirstRound(Round(Round(Round(c))), n);
  }

  lemma EightRounds(c: bv32)
    ensures CrcRounds(c, 8) == FourRounds(FourRounds(c))
  {
    hide FourRounds, CrcRounds;
    RoundsByFour(c, 4);
    RoundsByFour(FourRounds(c), 0);
    FirstRound(FourRounds(FourRounds(c)), 0);
  }

  /** The eight entries of the table from which the others follow, as exclusive ors. */
  lemma TableEntries()
    ensures CrcRounds(1, 8) == 0xF26B_8303 && CrcRounds(2, 8) == 0xE13B_70F7
    ensures CrcRounds(4, 8) == 0xC79A_971F && CrcRounds(8, 8) == 0x8AD9_58CF
    ensures CrcRounds(16, 8) == 0x105E_C76F && CrcRounds(32, 8) == 0x20BD_8EDE
    ensures CrcRounds(64, 8) == 0x417B_1DBC && CrcRounds(128, 8) == 0x82F6_3B78
  {
    hide CrcRounds;
    EightRounds(1);
    EightRounds(2);
    EightRounds(4);
    EightRounds(8);
    EightRounds(16);
    EightRounds(32);
    EightRounds(64);
    EightRounds(128);
  }

  // ----- one byte -----

  lemma ShiftOnly(c: bv32)
    requires c & 0xF == 0
    ensures FourRounds(c) == c >> 4
  {
    assert c & 1 == 0 && (c >> 1) & 1 == 0 && (c >> 2) & 1 == 0 && (c >> 3) & 1 == 0;
    assert (c >> 1) >> 1 == c >> 2 && (c >> 2) >> 1 == c >> 3 && (c >> 3) >> 1 == c >> 4;
  }

  lemma HighBytes(c: bv32)
    requires c & 0xFF == 0
    ensures CrcRounds(c, 8) == c >> 8
  {
    hide FourRounds, CrcRounds;
    EightRounds(c);
    assert c & 0xF == 0 && (c >> 4) & 0xF == 0 && (c >> 4) >> 4 == c >> 8;
    ShiftOnly(c);
    ShiftOnly(c >> 4);
  }

  /** `x` has no bit outside `m`. */
  predicate Within(x: bv32, m: bv32)
  {
    x & !m == 0
  }

  lemma {:induction false} BitsBound(b: nat, k: nat)
    requires b < Power(k)
    ensures Within(Bits(b), Ones(k))
    decreases k
  {
    hide Within, AddBit;
    NoneWithin(Ones(k));
    if 0 < k && 0 < b {
      BitsBound(b / 2, k - 1);
      AddWithin(Bits(b / 2), Ones(k - 1));
    }
  }

  function Power(k: nat): nat
  {
    if k == 0 then 1 else 2 * Power(k - 1)
  }

  function Ones(k: nat): bv32
  {
    if k == 0 then 0 else AddBit(Ones(k - 1), true)
  }

  lemma NoneWithin(m: bv32)
    ensures Within(0, m)
  {}

  lemma AddWithin(x: bv32, m: bv32)
    requires Within(x, m)
    ensures Within(AddBit(x, true), AddBit(m, true)) && Within(AddBit(x, false), AddBit(m, true))
  {}

  lemma ByteBits(b: Byte)
    ensures Bits(b) & 0xFFFF_FF00 == 0
  {
    assert Power(4) == 16 && Power(8) == 256;
    assert Ones(4) == 0xF && Ones(8) == 0xFF;
    BitsBound(b, 8);
    hide Bits;
    OutsideByte(Bits(b));
  }

  lemma OutsideByte(x: bv32)
    requires Within(x, 0xFF)
    ensures x & 0xFFFF_FF00 == 0
  {}

  /** Different bytes have different bits. */
  lemma {:induction false} BitsInjective(b: Byte, c: Byte)
    requires Bits(b) == Bits(c)
    ensures b == c
    decreases b + c
  {
    hide AddBit, Bits;
    if 0 < b || 0 < c {
      ByteBits(b / 2);
      ByteBits(c / 2);
      LastBit(b);
      LastBit(c);
      AddApart(Bits(b / 2), Bits(c / 2), b % 2 == 1, c % 2 == 1);
      BitsInjective(b / 2, c / 2);
    }
  }

  lemma LastBit(b: Byte)
    ensures Bits(b) == AddBit(Bits(b / 2), b % 2 == 1)
  {}

  lemma AddApart(x: bv32, y: bv32, p: bool, q: bool)
    requires x & 0xFFFF_FF00 == 0 && y & 0xFFFF_FF00 == 0 && AddBit(x, p) == AddBit(y, q)
    ensures x == y && p == q
  {
    AddedBit(x, p);
    AddedBit(y, q);
    ShiftedBack(x, p);
    ShiftedBack(y, q);
  }

  lemma AddedBit(x: bv32, p: bool)
    ensures AddBit(x, p) & 1 == if p then 1 else 0
  {}

  lemma ShiftedBack(x: bv32, p: bool)
    requires x & 0xFFFF_FF00 == 0
    ensures AddBit(x, p) >> 1 == x
  {}

  lemma XorUnique(p: bv32, q: bv32, a: bv32, b: bv32)
    requires IsXor(p, a, b) && IsXor(q, a, b)
    ensures p == q
  {}

  lemma XorCancel(z: bv32, a: bv32, b: bv32, x: bv32)
    ensures IsXor(z, a, x) && IsXor(z, b, x) ==> a == b
    ensures IsXor(z, x, a) && IsXor(z, x, b) ==> a == b
  {}

  lemma WithByteIs(crc: bv32, b: Byte)
    ensures IsXor(WithByte(crc, b), crc, Bits(b))
  {
    hide Bits;
  }

  lemma CrcByteParts(crc: bv32, b: Byte)
    ensures IsXor(CrcByte(crc, b), CrcRounds(WithByte(crc, b) & 0xFF, 8), crc >> 8)
  {
    hide CrcRounds, WithByte;
  }

  /** The table step is eight rounds of the word with the byte added. */
  lemma CrcByteRounds(crc: bv32, b: Byte)
    ensures CrcByte(crc, b) == CrcRounds(WithByte(crc, b), 8)
  {
    hide CrcRounds, CrcByte, WithByte, Bits, IsXor;
    ByteBits(b);
    WithByteIs(crc, b);
    CrcByteParts(crc, b);
    var x := WithByte(crc, b);
    SplitWord(crc, Bits(b), x);
    SplitRounds(x, x & 0xFF, x & 0xFFFF_FF00, crc >> 8);
    XorUnique(CrcByte(crc, b), CrcRounds(x, 8), CrcRounds(x & 0xFF, 8), crc >> 8);
  }

  lemma SplitWord(crc: bv32, b: bv32, x: bv32)
    requires b & 0xFFFF_FF00 == 0 && IsXor(x, crc, b)
    ensures IsXor(x, x & 0xFF, x & 0xFFFF_FF00)
    ensures (x & 0xFFFF_FF00) & 0xFF == 0 && (x & 0xFFFF_FF00) >> 8 == crc >> 8
  {}

  lemma SplitRounds(x: bv32, lo: bv32, hi: bv32, high: bv32)
    requires IsXor(x, lo, hi) && hi & 0xFF == 0 && hi >> 8 == high
    ensures IsXor(CrcRounds(x, 8), CrcRounds(lo, 8), high)
  {
    hide CrcRounds, IsXor;
    RoundsXor(x, lo, hi, 8);
    HighBytes(hi);
  }

  lemma WithByteInjective(a: bv32, b: bv32, x: Byte, y: Byte)
    ensures WithByte(a, x) == WithByte(b, x) ==> a == b
    ensures WithByte(a, x) == WithByte(a, y) ==> Bits(x) == Bits(y)
  {
    hide Bits, WithByte, IsXor;
    WithByteIs(a, x);
    WithByteIs(b, x);
    WithByteIs(a, y);
    XorCancel(WithByte(a, x), a, b, Bits(x));
    XorCancel(WithByte(a, x), Bits(x), Bits(y), a);
  }

  // ----- whole buffers -----

  /** Different states stay different over the same bytes. */
  lemma {:induction false} FoldInjective(data: seq<Byte>, a: bv32, b: bv32)
    requires CrcFold(data, a) == CrcFold(data, b)
    ensures a == b
  {
    hide CrcByte, CrcRounds, WithByte;
    if data != [] {
      FoldInjective(data[1..], CrcByte(a, data[0]), CrcByte(b, data[0]));
      CrcByteRounds(a, data[0]);
      CrcByteRounds(b, data[0]);
      RoundsInjective(WithByte(a, data[0]), WithByte(b, data[0]), 8);
      WithByteInjective(a, b, data[0], data[0]);
    }
  }

  /** A change of one byte changes the checksum, whatever stands around it. */
  lemma OneByteShows(front: seq<Byte>, x: Byte, y: Byte, back: seq<Byte>, crc: bv32)
    requires x != y
    ensures CrcFold(front + [x] + back, crc) != CrcFold(front + [y] + back, crc)
  {
    hide CrcByte, CrcRounds, CrcFold, WithByte, Bits;
    var c := CrcFold(front, crc);
    FoldParts(front, x, back, crc);
    FoldParts(front, y, back, crc);
    if CrcFold(front + [x] + back, crc) == CrcFold(front + [y] + back, crc) {
      FoldInjective(back, CrcByte(c, x), CrcByte(c, y));
      CrcByteRounds(c, x);
      CrcByteRounds(c, y);
      RoundsInjective(WithByte(c, x), WithByte(c, y), 8);
      WithByteInjective(c, c, x, y);
      BitsInjective(x, y);
    }
  }

  lemma FoldParts(front: seq<Byte>, x: Byte, back: seq<Byte>, crc: bv32)
    ensures CrcFold(front + [x] + back, crc) == CrcFold(back, CrcByte(CrcFold(front, crc), x))
  {
    hide CrcByte;
    CrcFoldConcat(front + [x], back, crc);
    CrcFoldConcat(front, [x], crc);
    OneFold(x, CrcFold(front, crc));
  }

  lemma NoFold(c: bv32)
    ensures CrcFold([], c) == c
  {}

  lemma OneFold(x: Byte, c: bv32)
    ensures CrcFold([x], c) == CrcByte(c, x)
  {
    hide CrcByte;
    assert [x][1..] == [];
  }

  // ----- the checksum of a record -----

  /** The header in front of the checksum, byte by byte in little-endian order. */
  lemma HeaderLayout(r: Record)
    ensures HeaderPrefix(r)[0..4] == LittleEndian(r.totLen) && HeaderPrefix(r)[4..8] == LittleEndian(r.xid)
    ensures HeaderPrefix(r)[8..12] == LittleEndian(r.prev % 0x1_0000_0000)
    ensures HeaderPrefix(r)[12..16] == LittleEndian(r.prev / 0x1_0000_0000)
    ensures HeaderPrefix(r)[16] == r.info as int && HeaderPrefix(r)[17] == r.rmid
    ensures HeaderPrefix(r)[18..20] == [r.pad % 0x100, r.pad / 0x100]
  {
    hide ToBytes;
    FourBytesAre(r.totLen);
    FourBytesAre(r.xid);
    EightBytesAre(r.prev);
    TwoBytesAre(r.pad);
    var h := HeaderPrefix(r);
    assert h[0..4] == ToBytes(r.totLen, 4) && h[4..8] == ToBytes(r.xid, 4);
    assert h[8..16] == ToBytes(r.prev, 8);
    assert h[8..12] == h[8..16][..4] && h[12..16] == h[8..16][4..];
    assert h[18..20] == ToBytes(r.pad, 2);
  }

  /** The checksum of a record is that of its body and then its header up to the checksum field. */
  lemma ChecksumLayout(r: Record)
    ensures Checksum(r) == Crc32c(r.body + (LittleEndian(r.totLen) + LittleEndian(r.xid)
                                            + LittleEndian(r.prev % 0x1_0000_0000) + LittleEndian(r.prev / 0x1_0000_0000)
                                            + [r.info as int, r.rmid, r.pad % 0x100, r.pad / 0x100]))
  {
    HeaderLayout(r);
    hide HeaderPrefix, LittleEndian, Crc32c;
    var h := HeaderPrefix(r);
    assert h == h[0..4] + h[4..8] + h[8..12] + h[12..16] + [h[16], h[17]] + h[18..20];
    assert h == LittleEndian(r.totLen) + LittleEndian(r.xid) + LittleEndian(r.prev % 0x1_0000_0000)
                + LittleEndian(r.prev / 0x1_0000_0000) + [r.info as int, r.rmid, r.pad % 0x100, r.pad / 0x100];
  }

  /** The four bytes of a number, the lowest one first. */
  function LittleEndian(x: U32): (b: seq<Byte>)
    ensures |b| == 4
  {
    [x % 0x100, x / 0x100 % 0x100, x / 0x1_0000 % 0x100, x / 0x100_0000]
  }

  lemma NextByte(x: nat, n: nat)
    ensures ToBytes(x, 0) == [] && ToBytes(x, n + 1) == [x % 0x100] + ToBytes(x / 0x100, n)
  {}

  lemma TwoBytesAre(x: U16)
    ensures ToBytes(x, 2) == [x % 0x100, x / 0x100]
  {
    hide ToBytes;
    NextByte(x, 1);
    NextByte(x / 0x100, 0);
    NextByte(x / 0x100 / 0x100, 0);
  }

  lemma FourBytesAre(x: U32)
    ensures ToBytes(x, 4) == LittleEndian(x)
  {
    hide ToBytes;
    FourOf(x, 0);
    NextByte(x / 0x1_0000_0000, 0);
  }

  lemma FourOf(x: nat, n: nat)
    ensures ToBytes(x, n + 4) == LittleEndian(x % 0x1_0000_0000) + ToBytes(x / 0x1_0000_0000, n)
  {
    hide ToBytes;
    var p := x / 0x100;
    var q := p / 0x100;
    var r := q / 0x100;
    NextByte(x, n + 3);
    NextByte(p, n + 2);
    NextByte(q, n + 1);
    NextByte(r, n);
    LowParts(x % 0x100, p % 0x100, q % 0x100, r % 0x100, r / 0x100, x);
  }

  lemma LowParts(a: Byte, b: Byte, c: Byte, d: Byte, high: nat, x: nat)
    requires x == a + 0x100 * b + 0x1_0000 * c + 0x100_0000 * d + 0x1_0000_0000 * high
    ensures x / 0x1_0000_0000 == high && LittleEndian(x % 0x1_0000_0000) == [a, b, c, d]
  {
    hide LittleEndian;
    var low := a + 0x100 * b + 0x1_0000 * c + 0x100_0000 * d;
    HighPart(low, high, x);
    LowFour(a, b, c, d, low);
  }

  lemma HighPart(low: U32, high: nat, x: nat)
    requires x == low + 0x1_0000_0000 * high
    ensures x / 0x1_0000_0000 == high && x % 0x1_0000_0000 == low
  {}

  lemma LowFour(a: Byte, b: Byte, c: Byte, d: Byte, x: U32)
    requires x == a + 0x100 * b + 0x1_0000 * c + 0x100_0000 * d
    ensures LittleEndian(x) == [a, b, c, d]
  {
    var z := c + 0x100 * d;
    var y := b + 0x100 * z;
    FirstByte(a, y, x);
    FirstByte(b, z, y);
    FirstByte(c, d, z);
    ByteByByte(x);
  }

  lemma FirstByte(a: Byte, y: nat, x: nat)
    requires x == a + 0x100 * y
    ensures x % 0x100 == a && x / 0x100 == y
  {}

  lemma ByteByByte(x: nat)
    ensures x / 0x1_0000 == x / 0x100 / 0x100 && x / 0x100_0000 == x / 0x100 / 0x100 / 0x100
  {}

  lemma EightBytesAre(x: U64)
    ensures ToBytes(x, 8) == LittleEndian(x % 0x1_0000_0000) + LittleEndian(x / 0x1_0000_0000)
  {
    hide ToBytes;
    FourOf(x, 4);
    FourBytesAre(x / 0x1_0000_0000);
  }

  /** Two records whose covered bytes differ in one place never have the same checksum. */
  lemma OneByteDetected(r: Record, q: Record, i: nat)
    requires |Covered(r)| == |Covered(q)| && i < |Covered(r)| && Covered(r)[i] != Covered(q)[i]
    requires forall k :: 0 <= k < |Covered(r)| && k != i ==> Covered(r)[k] == Covered(q)[k]
    ensures ValidCrc(r) && ValidCrc(q) ==> r.crc != q.crc
  {
    hide CrcFold, HeaderPrefix, Covered, Crc32c;
    var a, b := Covered(r), Covered(q);
    assert a == a[..i] + [a[i]] + a[i + 1..];
    assert b == a[..i] + [b[i]] + a[i + 1..];
    OneByteShows(a[..i], a[i], b[i], a[i + 1..], 0xFFFF_FFFF);
    FinalXor(a, b);
  }

  lemma FinalXor(a: seq<Byte>, b: seq<Byte>)
    requires CrcFold(a, 0xFFFF_FFFF) != CrcFold(b, 0xFFFF_FFFF)
    ensures Crc32c(a) != Crc32c(b)
  {
    hide CrcFold;
    Cancel(CrcFold(a, 0xFFFF_FFFF), CrcFold(b, 0xFFFF_FFFF), 0xFFFF_FFFF);
  }

  lemma Cancel(a: bv32, b: bv32, x: bv32)
    ensures a ^ x == b ^ x ==> a == b
  {}

  // ----- the check value -----

  lemma {:induction false} FoldSnoc(data: seq<Byte>, b: Byte, crc: bv32)
    ensures CrcFold(data + [b], crc) == CrcByte(CrcFold(data, crc), b)
  {
    hide CrcByte;
    CrcFoldConcat(data, [b], crc);
    OneFold(b, CrcFold(data, crc));
  }

  lemma DigitBits()
    ensures Bits(0x31) == 0x31 && Bits(0x32) == 0x32 && Bits(0x33) == 0x33
    ensures Bits(0x34) == 0x34 && Bits(0x35) == 0x35 && Bits(0x36) == 0x36
    ensures Bits(0x37) == 0x37 && Bits(0x38) == 0x38 && Bits(0x39) == 0x39
  {
    assert Bits(3) == 3 && Bits(6) == 6 && Bits(7) == 7;
    assert Bits(12) == 12 && Bits(13) == 13 && Bits(14) == 14;
  }

  lemma ByteStep(b: Byte, bits: bv32, crc: bv32, next: bv32)
    requires Bits(b) == bits && FourRounds(FourRounds(crc ^ bits)) == next
    ensures CrcByte(crc, b) == next
  {
    hide CrcByte, CrcRounds, Bits, FourRounds;
    CrcByteRounds(crc, b);
    EightRounds(WithByte(crc, b));
  }

  /** The states of the checksum over the digits 1 to 9. */
  lemma DigitSteps()
    ensures CrcByte(0xFFFF_FFFF, 0x31) == 0x6F0A_661C
    ensures CrcByte(0x6F0A_661C, 0x32) == 0x8CAA_3B9F
    ensures CrcByte(0x8CAA_3B9F, 0x33) == 0xEF84_D04D
    ensures CrcByte(0xEF84_D04D, 0x34) == 0x09C5_0B11
    ensures CrcByte(0x09C5_0B11, 0x35) == 0xE72E_DCCA
    ensures CrcByte(0xE72E_DCCA, 0x36) == 0xBECA_8E79
    ensures CrcByte(0xBECA_8E79, 0x37) == 0xEDBD_6815
    ensures CrcByte(0xEDBD_6815, 0x38) == 0x9F78_7F65
    ensures CrcByte(0x9F78_7F65, 0x39) == 0x1CF9_6D7C
  {
    hide CrcByte, CrcRounds, Bits;
    DigitBits();
    ByteStep(0x31, 0x31, 0xFFFF_FFFF, 0x6F0A_661C);
    ByteStep(0x32, 0x32, 0x6F0A_661C, 0x8CAA_3B9F);
    ByteStep(0x33, 0x33, 0x8CAA_3B9F, 0xEF84_D04D);
    ByteStep(0x34, 0x34, 0xEF84_D04D, 0x09C5_0B11);
    ByteStep(0x35, 0x35, 0x09C5_0B11, 0xE72E_DCCA);
    ByteStep(0x36, 0x36, 0xE72E_DCCA, 0xBECA_8E79);
    ByteStep(0x37, 0x37, 0xBECA_8E79, 0xEDBD_6815);
    ByteStep(0x38, 0x38, 0xEDBD_6815, 0x9F78_7F65);
    ByteStep(0x39, 0x39, 0x9F78_7F65, 0x1CF9_6D7C);
  }

  /** The check value of CRC-32C: the checksum of the text "123456789". */
  lemma CheckValue()
    ensures Crc32c([0x31, 0x32, 0x33, 0x34, 0x35, 0x36, 0x37, 0x38, 0x39]) == 0xE306_9283
  {
    hide CrcByte, CrcFold;
    DigitSteps();
    var data: seq<Byte> := [0x31, 0x32, 0x33, 0x34, 0x35, 0x36, 0x37, 0x38, 0x39];
    NoFold(0xFFFF_FFFF);
    assert data[..0] == [];
    FoldSnoc(data[..0], 0x31, 0xFFFF_FFFF);
    assert data[..1] == data[..0] + [0x31];
    FoldSnoc(data[..1], 0x32, 0xFFFF_FFFF);
    assert data[..2] == data[..1] + [0x32];
    FoldSnoc(data[..2], 0x33, 0xFFFF_FFFF);
    assert data[..3] == data[..2] + [0x33];
    FoldSnoc(data[..3], 0x34, 0xFFFF_FFFF);
    assert data[..4] == data[..3] + [0x34];
    FoldSnoc(data[..4], 0x35, 0xFFFF_FFFF);
    assert data[..5] == data[..4] + [0x35];
    FoldSnoc(data[..5], 0x36, 0xFFFF_FFFF);
    assert data[..6] == data[..5] + [0x36];
    FoldSnoc(data[..6], 0x37, 0xFFFF_FFFF);
    assert data[..7] == data[..6] + [0x37];
    FoldSnoc(data[..7], 0x38, 0xFFFF_FFFF);
    assert data[..8] == data[..7] + [0x38];
    FoldSnoc(data[..8], 0x39, 0xFFFF_FFFF);
    assert data[..9] == data[..8] + [0x39];
    assert data[..9] == data;
  }
}
