/**
 The CRC-16/XMODEM checksum of the cluster client. The specification is long division: the
 message with sixteen zero bits appended is divided, bit by bit, from remainder 0.
 */
module Crc16 {
  import opened Bytes
  import opened Gf2

  const ROW0: seq<bv16> := [
    0x0000, 0x1021, 0x2042, 0x3063, 0x4084, 0x50a5, 0x60c6, 0x70e7,
    0x8108, 0x9129, 0xa14a, 0xb16b, 0xc18c, 0xd1ad, 0xe1ce, 0xf1ef]
  const ROW1: seq<bv16> := [
    0x1231, 0x0210, 0x3273, 0x2252, 0x52b5, 0x4294, 0x72f7, 0x62d6,
    0x9339, 0x8318, 0xb37b, 0xa35a, 0xd3bd, 0xc39c, 0xf3ff, 0xe3de]
  const ROW2: seq<bv16> := [
    0x2462, 0x3443, 0x0420, 0x1401, 0x64e6, 0x74c7, 0x44a4, 0x5485,
    0xa56a, 0xb54b, 0x8528, 0x9509, 0xe5ee, 0xf5cf, 0xc5ac, 0xd58d]
  const ROW3: seq<bv16> := [
    0x3653, 0x2672, 0x1611, 0x0630, 0x76d7, 0x66f6, 0x5695, 0x46b4,
    0xb75b, 0xa77a, 0x9719, 0x8738, 0xf7df, 0xe7fe, 0xd79d, 0xc7bc]
  const ROW4: seq<bv16> := [
    0x48c4, 0x58e5, 0x6886, 0x78a7, 0x0840, 0x1861, 0x2802, 0x3823,
    0xc9cc, 0xd9ed, 0xe98e, 0xf9af, 0x8948, 0x9969, 0xa90a, 0xb92b]
  const ROW5: seq<bv16> := [
    0x5af5, 0x4ad4, 0x7ab7, 0x6a96, 0x1a71, 0x0a50, 0x3a33, 0x2a12,
    0xdbfd, 0xcbdc, 0xfbbf, 0xeb9e, 0x9b79, 0x8b58, 0xbb3b, 0xab1a]
  const ROW6: seq<bv16> := [
    0x6ca6, 0x7c87, 0x4ce4, 0x5cc5, 0x2c22, 0x3c03, 0x0c60, 0x1c41,
    0xedae, 0xfd8f, 0xcdec, 0xddcd, 0xad2a, 0xbd0b, 0x8d68, 0x9d49]
  const ROW7: seq<bv16> := [
    0x7e97, 0x6eb6, 0x5ed5, 0x4ef4, 0x3e13, 0x2e32, 0x1e51, 0x0e70,
    0xff9f, 0xefbe, 0xdfdd, 0xcffc, 0xbf1b, 0xaf3a, 0x9f59, 0x8f78]
  const ROW8: seq<bv16> := [
    0x9188, 0x81a9, 0xb1ca, 0xa1eb, 0xd10c, 0xc12d, 0xf14e, 0xe16f,
    0x1080, 0x00a1, 0x30c2, 0x20e3, 0x5004, 0x4025, 0x7046, 0x6067]
  const ROW9: seq<bv16> := [
    0x83b9, 0x9398, 0xa3fb, 0xb3da, 0xc33d, 0xd31c, 0xe37f, 0xf35e,
    0x02b1, 0x1290, 0x22f3, 0x32d2, 0x4235, 0x5214, 0x6277, 0x7256]
  const ROWA: seq<bv16> := [
    0xb5ea, 0xa5cb, 0x95a8, 0x8589, 0xf56e, 0xe54f, 0xd52c, 0xc50d,
    0x34e2, 0x24c3, 0x14a0, 0x0481, 0x7466, 0x6447, 0x5424, 0x4405]
  const ROWB: seq<bv16> := [
    0xa7db, 0xb7fa, 0x8799, 0x97b8, 0xe75f, 0xf77e, 0xc71d, 0xd73c,
    0x26d3, 0x36f2, 0x0691, 0x16b0, 0x6657, 0x7676, 0x4615, 0x5634]
  const ROWC: seq<bv16> := [
    0xd94c, 0xc96d, 0xf90e, 0xe92f, 0x99c8, 0x89e9, 0xb98a, 0xa9ab,
    0x5844, 0x4865, 0x7806, 0x6827, 0x18c0, 0x08e1, 0x3882, 0x28a3]
  const ROWD: seq<bv16> := [
    0xcb7d, 0xdb5c, 0xeb3f, 0xfb1e, 0x8bf9, 0x9bd8, 0xabbb, 0xbb9a,
    0x4a75, 0x5a54, 0x6a37, 0x7a16, 0x0af1, 0x1ad0, 0x2ab3, 0x3a92]
  const ROWE: seq<bv16> := [
    0xfd2e, 0xed0f, 0xdd6c, 0xcd4d, 0xbdaa, 0xad8b, 0x9de8, 0x8dc9,
    0x7c26, 0x6c07, 0x5c64, 0x4c45, 0x3ca2, 0x2c83, 0x1ce0, 0x0cc1]
  const ROWF: seq<bv16> := [
    0xef1f, 0xff3e, 0xcf5d, 0xdf7c, 0xaf9b, 0xbfba, 0x8fd9, 0x9ff8,
    0x6e17, 0x7e36, 0x4e55, 0x5e74, 0x2e93, 0x3eb2, 0x0ed1, 0x1ef0]

  const ROWS: seq<seq<bv16>> :=
    [ROW0, ROW1, ROW2, ROW3, ROW4, ROW5, ROW6, ROW7, ROW8, ROW9, ROWA, ROWB, ROWC, ROWD, ROWE, ROWF]

  predicate Rectangular(rows: seq<seq<bv16>>) {
    forall h :: 0 <= h < |rows| ==> |rows[h]| == 16
  }

  function Flatten(rows: seq<seq<bv16>>): (s: seq<bv16>)
    requires Rectangular(rows)
    ensures |s| == 16 * |rows|
  {
    if rows == [] then [] else rows[0] + Flatten(rows[1..])
  }

  /** crc16tab: the 256 entries, row after row. */
  const CRC16TAB: seq<bv16> := Flatten(ROWS)

  // ---------------------------------------------------------------- specification

  function BitsOf(s: bytes): seq<bool>
    decreases |s|
  {
    if s == [] then [] else BitsOfByte(s[0] as bv16) + BitsOf(s[1..])
  }

  /** CRC-16/XMODEM of a message: the remainder of the message times x^16. */
  function Crc(s: bytes): bv16 {
    Divide(0, BitsOf(s) + Zeros(16))
  }

  // ---------------------------------------------------------------- the loop

  lemma ByteIndex(x: bv16)
    requires x < 0x100
    ensures x >> 4 < 16 && x & 15 < 16
    ensures 0 <= x as int < 256
    ensures 0 <= (x >> 4) as int < 16 && 0 <= (x & 15) as int < 16
    ensures x as int == 16 * ((x >> 4) as int) + (x & 15) as int
  {
  }

  function TableIndex(crc: bv16, c: bv16): (x: bv16)
    ensures x < 0x100
  {
    ((crc >> 8) ^ c) & 0x00FF
  }

  /** One turn of the table-driven loop. */
  function TableStep(crc: bv16, c: bv16): bv16 {
    var x := TableIndex(crc, c);
    ByteIndex(x);
    Plus(crc << 8, CRC16TAB[x as int])
  }

  /** crc16: the checksum of `buf`. */
  method Checksum(buf: bytes) returns (crc: bv16)
    ensures crc == Crc(buf)
  {
    crc := 0;
    CrcEmpty();
    for counter := 0 to |buf|
      invariant crc == Crc(buf[..counter])
    {
      assert buf[..counter + 1] == buf[..counter] + [buf[counter]];
      CrcStep(buf[..counter], buf[counter]);
      crc := TableStep(crc, buf[counter] as bv16);
    }
    assert buf[..|buf|] == buf;
  }

  // ---------------------------------------------------------------- the table is right

  function Entry(h: bv16, j: bv16): bv16 {
    TimesX8((h << 12) | (j << 8))
  }

  predicate IsRow(row: seq<bv16>, h: bv16) {
    && |row| == 16
    && row[0] == Entry(h, 0) && row[1] == Entry(h, 1) && row[2] == Entry(h, 2) && row[3] == Entry(h, 3)
    && row[4] == Entry(h, 4) && row[5] == Entry(h, 5) && row[6] == Entry(h, 6) && row[7] == Entry(h, 7)
    && row[8] == Entry(h, 8) && row[9] == Entry(h, 9) && row[10] == Entry(h, 10) && row[11] == Entry(h, 11)
    && row[12] == Entry(h, 12) && row[13] == Entry(h, 13) && row[14] == Entry(h, 14) && row[15] == Entry(h, 15)
  }

  lemma Rows01(h: bv16)
    requires h == 0 || h == 1
    ensures 0 <= h as int < 16 && IsRow(ROWS[h as int], h)
  {
    assert IsRow(ROW0, 0) && IsRow(ROW1, 1);
  }

  lemma Rows23(h: bv16)
    requires h == 2 || h == 3
    ensures 0 <= h as int < 16 && IsRow(ROWS[h as int], h)
  {
    assert IsRow(ROW2, 2) && IsRow(ROW3, 3);
  }

  lemma Rows45(h: bv16)
    requires h == 4 || h == 5
    ensures 0 <= h as int < 16 && IsRow(ROWS[h as int], h)
  {
    assert IsRow(ROW4, 4) && IsRow(ROW5, 5);
  }

  lemma Rows67(h: bv16)
    requires h == 6 || h == 7
    ensures 0 <= h as int < 16 && IsRow(ROWS[h as int], h)
  {
    assert IsRow(ROW6, 6) && IsRow(ROW7, 7);
  }

  lemma Rows89(h: bv16)
    requires h == 8 || h == 9
    ensures 0 <= h as int < 16 && IsRow(ROWS[h as int], h)
  {
    assert IsRow(ROW8, 8) && IsRow(ROW9, 9);
  }

  lemma RowsAB(h: bv16)
    requires h == 10 || h == 11
    ensures 0 <= h as int < 16 && IsRow(ROWS[h as int], h)
  {
    assert IsRow(ROWA, 10) && IsRow(ROWB, 11);
  }

  lemma RowsCD(h: bv16)
    requires h == 12 || h == 13
    ensures 0 <= h as int < 16 && IsRow(ROWS[h as int], h)
  {
    assert IsRow(ROWC, 12) && IsRow(ROWD, 13);
  }

  lemma RowsEF(h: bv16)
    requires h == 14 || h == 15
    ensures 0 <= h as int < 16 && IsRow(ROWS[h as int], h)
  {
    assert IsRow(ROWE, 14) && IsRow(ROWF, 15);
  }

  lemma EveryRow(h: bv16)
    requires h < 16
    ensures 0 <= h as int < 16 && IsRow(ROWS[h as int], h)
  {
    if h < 2 { Rows01(h); } else if h < 4 { Rows23(h); }
    else if h < 6 { Rows45(h); } else if h < 8 { Rows67(h); }
    else if h < 10 { Rows89(h); } else if h < 12 { RowsAB(h); }
    else if h < 14 { RowsCD(h); } else { RowsEF(h); }
  }

  lemma InRow(row: seq<bv16>, h: bv16, j: bv16)
    requires IsRow(row, h) && j < 16
    ensures 0 <= j as int < 16 && row[j as int] == Entry(h, j)
  {
    assert j == 0 || j == 1 || j == 2 || j == 3 || j == 4 || j == 5 || j == 6 || j == 7
        || j == 8 || j == 9 || j == 10 || j == 11 || j == 12 || j == 13 || j == 14 || j == 15;
  }

  lemma {:induction false} FlattenAt(rows: seq<seq<bv16>>, h: nat, j: nat)
    requires Rectangular(rows) && h < |rows| && j < 16
    ensures Flatten(rows)[16 * h + j] == rows[h][j]
  {
    if h > 0 {
      FlattenAt(rows[1..], h - 1, j);
    }
  }

  lemma JoinNibbles(x: bv16)
    requires x < 0x100
    ensures ((x >> 4) << 12) | ((x & 15) << 8) == x << 8
  {
  }

  /** Every entry of the table is its index, as a byte shifted in above the remainder, reduced. */
  lemma TableEntry(x: bv16)
    requires x < 0x100
    ensures 0 <= x as int < 256 && CRC16TAB[x as int] == TimesX8(x << 8)
  {
    hide IsRow, Flatten, Rectangular;
    var h, j := x >> 4, x & 15;
    ByteIndex(x);
    FlattenAt(ROWS, h as int, j as int);
    EveryRow(h);
    InRow(ROWS[h as int], h, j);
    JoinNibbles(x);
  }

  // ---------------------------------------------------------------- table form = division

  function Up8(c: bv16): bv16 {
    c << 8
  }

  function Low8(c: bv16): bv16 {
    c & 0xFF
  }

  lemma Halves(crc: bv16)
    ensures Plus(Up8(crc >> 8), Low8(crc)) == crc && crc >> 8 < 0x100
  {
  }

  lemma UpSum(a: bv16, b: bv16)
    requires a < 0x100 && b < 0x100
    ensures Up8(Plus(a, b) & 0x00FF) == Plus(Up8(a), Up8(b))
  {
  }

  lemma StepSum(crc: bv16, c: bv16)
    requires c < 0x100
    ensures Plus(Up8(TableIndex(crc, c)), Low8(crc)) == Plus(crc, Up8(c))
  {
    var h, low := crc >> 8, Low8(crc);
    assert TableIndex(crc, c) == Plus(h, c) & 0x00FF;
    hide *;
    Halves(crc);
    UpSum(h, c);
    PlusAssociative(Up8(h), Up8(c), low);
    PlusCommutative(Up8(c), low);
    PlusAssociative(Up8(h), low, Up8(c));
  }

  lemma LowMovesUp(crc: bv16)
    ensures Up8(Low8(crc)) == Up8(crc) && Low8(crc) < 0x100
  {
  }

  /** The table entry is the reduced upper byte; the lower byte only moves up. */
  lemma StepParts(crc: bv16, x: bv16, low: bv16, sum: bv16)
    requires x < 0x100 && low < 0x100
    requires Up8(low) == Up8(crc) && Plus(Up8(x), low) == sum
    ensures 0 <= x as int < 256 && Plus(crc << 8, CRC16TAB[x as int]) == TimesX8(sum)
  {
    TableEntry(x);
    ShiftLow(low);
    TimesX8Linear(Up8(x), low);
    PlusCommutative(TimesX8(Up8(x)), Up8(crc));
  }

  lemma TableStepIs(crc: bv16, c: bv16)
    requires c < 0x100
    ensures TableStep(crc, c) == TimesX8(Plus(crc, Up8(c)))
  {
    StepSum(crc, c);
    LowMovesUp(crc);
    StepParts(crc, TableIndex(crc, c), Low8(crc), Plus(crc, Up8(c)));
  }

  lemma {:induction false} BitsConcat(s: bytes, b: byte)
    ensures BitsOf(s + [b]) == BitsOf(s) + BitsOfByte(b as bv16)
    decreases |s|
  {
    if s == [] {
      assert [b][1..] == [];
    } else {
      assert (s + [b])[1..] == s[1..] + [b];
      BitsConcat(s[1..], b);
    }
  }

  lemma TwiceX8(r: bv16)
    ensures Divide(r, Zeros(16)) == TimesX8(TimesX8(r))
  {
    assert Zeros(16) == Zeros(8) + Zeros(8);
    DivideConcat(r, Zeros(8), Zeros(8));
    DivideZeros8(r);
    DivideZeros8(TimesX8(r));
  }

  lemma CrcIs(s: bytes)
    ensures Crc(s) == TimesX8(TimesX8(Divide(0, BitsOf(s))))
  {
    DivideConcat(0, BitsOf(s), Zeros(16));
    TwiceX8(Divide(0, BitsOf(s)));
  }

  lemma CrcEmpty()
    ensures Crc([]) == 0
  {
    CrcIs([]);
    ShiftLow(0);
  }

  /** Appending a byte to the message is one turn of the table-driven loop. */
  lemma CrcStep(s: bytes, b: byte)
    ensures Crc(s + [b]) == TableStep(Crc(s), b as bv16)
  {
    var c := b as bv16;
    var d := Divide(0, BitsOf(s));
    CrcIs(s);
    CrcIs(s + [b]);
    BitsConcat(s, b);
    DivideConcat(0, BitsOf(s), BitsOfByte(c));
    DivideByte(d, c);
    TimesX8Linear(TimesX8(d), c);
    TimesX8Linear(TimesX8(TimesX8(d)), TimesX8(c));
    ShiftLow(c);
    TableStepIs(Crc(s), c);
    TimesX8Linear(Crc(s), Up8(c));
  }

  // ---------------------------------------------------------------- linearity

  function XorByte(a: byte, b: byte): byte {
    a ^ b
  }

  function XorBytes(a: bytes, b: bytes): (c: bytes)
    requires |a| == |b|
    ensures |c| == |a|
  {
    seq(|a|, i requires 0 <= i < |a| => XorByte(a[i], b[i]))
  }

  lemma WidenXor(a: byte, b: byte)
    ensures Up8(XorByte(a, b) as bv16) == Plus(Up8(a as bv16), Up8(b as bv16))
  {
  }

  lemma CrcOfLast(s: bytes, b: byte)
    ensures Crc(s + [b]) == TimesX8(Plus(Crc(s), Up8(b as bv16)))
  {
    CrcStep(s, b);
    TableStepIs(Crc(s), b as bv16);
  }

  lemma StepLinear(p: bv16, q: bv16, u: bv16, v: bv16)
    ensures TimesX8(Plus(Plus(p, q), Plus(u, v))) == Plus(TimesX8(Plus(p, u)), TimesX8(Plus(q, v)))
  {
    Exchange(p, q, u, v);
    TimesX8Linear(Plus(p, u), Plus(q, v));
  }

  /** The checksum of the exclusive or of two messages is the exclusive or of their checksums. */
  lemma {:induction false} CrcLinear(a: bytes, b: bytes)
    requires |a| == |b|
    ensures Crc(XorBytes(a, b)) == Plus(Crc(a), Crc(b))
    decreases |a|
  {
    if a == [] {
      CrcEmpty();
    } else {
      var n := |a| - 1;
      var s, x, t, y := a[..n], a[n], b[..n], b[n];
      assert a == s + [x] && b == t + [y] && XorBytes(a, b) == XorBytes(s, t) + [XorByte(x, y)];
      CrcLinear(s, t);
      CrcOfLast(s, x);
      CrcOfLast(t, y);
      CrcOfLast(XorBytes(s, t), XorByte(x, y));
      WidenXor(x, y);
      StepLinear(Crc(s), Crc(t), Up8(x as bv16), Up8(y as bv16));
    }
  }
}
