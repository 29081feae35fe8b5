/** CRC-8 as the block store computes it (`crc8` and `CRC_TABLE` in `src/fs/mod.rs`):
    CRC-8/DVB-S2 (ETSI EN 302 307, section 5.1.4), generator polynomial 0xD5, initial value 0,
    no reflection, no final xor, evaluated one byte at a time through a 256-entry table. */
module Crc8 {

  /** `CRC_TABLE` as the source lists it, 256 entries written as 16 rows of 16: entry `b`
      is row `b >> 4`, column `b & 0x0F`. `TableIsListed` shows `Table` agrees with it. */
  function ListedTable(b: bv8): bv8
  {
    var lo := b & 0x0F;
    match b >> 4
    case 0x0 => Row0(lo)
    case 0x1 => Row1(lo)
    case 0x2 => Row2(lo)
    case 0x3 => Row3(lo)
    case 0x4 => Row4(lo)
    case 0x5 => Row5(lo)
    case 0x6 => Row6(lo)
    case 0x7 => Row7(lo)
    case 0x8 => Row8(lo)
    case 0x9 => Row9(lo)
    case 0xA => RowA(lo)
    case 0xB => RowB(lo)
    case 0xC => RowC(lo)
    case 0xD => RowD(lo)
    case 0xE => RowE(lo)
    case _   => RowF(lo)
  }

  function Row0(lo: bv8): bv8
  {
    if lo == 0x0 then 0x00 else if lo == 0x1 then 0xD5 else if lo == 0x2 then 0x7F else if lo == 0x3 then 0xAA
    else if lo == 0x4 then 0xFE else if lo == 0x5 then 0x2B else if lo == 0x6 then 0x81 else if lo == 0x7 then 0x54
    else if lo == 0x8 then 0x29 else if lo == 0x9 then 0xFC else if lo == 0xA then 0x56 else if lo == 0xB then 0x83
    else if lo == 0xC then 0xD7 else if lo == 0xD then 0x02 else if lo == 0xE then 0xA8
    else 0x7D
  }

  function Row1(lo: bv8): bv8
  {
    if lo == 0x0 then 0x52 else if lo == 0x1 then 0x87 else if lo == 0x2 then 0x2D else if lo == 0x3 then 0xF8
    else if lo == 0x4 then 0xAC else if lo == 0x5 then 0x79 else if lo == 0x6 then 0xD3 else if lo == 0x7 then 0x06
    else if lo == 0x8 then 0x7B else if lo == 0x9 then 0xAE else if lo == 0xA then 0x04 else if lo == 0xB then 0xD1
    else if lo == 0xC then 0x85 else if lo == 0xD then 0x50 else if lo == 0xE then 0xFA
    else 0x2F
  }

  function Row2(lo: bv8): bv8
  {
    if lo == 0x0 then 0xA4 else if lo == 0x1 then 0x71 else if lo == 0x2 then 0xDB else if lo == 0x3 then 0x0E
    else if lo == 0x4 then 0x5A else if lo == 0x5 then 0x8F else if lo == 0x6 then 0x25 else if lo == 0x7 then 0xF0
    else if lo == 0x8 then 0x8D else if lo == 0x9 then 0x58 else if lo == 0xA then 0xF2 else if lo == 0xB then 0x27
    else if lo == 0xC then 0x73 else if lo == 0xD then 0xA6 else if lo == 0xE then 0x0C
    else 0xD9
  }

  function Row3(lo: bv8): bv8
  {
    if lo == 0x0 then 0xF6 else if lo == 0x1 then 0x23 else if lo == 0x2 then 0x89 else if lo == 0x3 then 0x5C
    else if lo == 0x4 then 0x08 else if lo == 0x5 then 0xDD else if lo == 0x6 then 0x77 else if lo == 0x7 then 0xA2
    else if lo == 0x8 then 0xDF else if lo == 0x9 then 0x0A else if lo == 0xA then 0xA0 else if lo == 0xB then 0x75
    else if lo == 0xC then 0x21 else if lo == 0xD then 0xF4 else if lo == 0xE then 0x5E
    else 0x8B
  }

  function Row4(lo: bv8): bv8
  {
    if lo == 0x0 then 0x9D else if lo == 0x1 then 0x48 else if lo == 0x2 then 0xE2 else if lo == 0x3 then 0x37
    else if lo == 0x4 then 0x63 else if lo == 0x5 then 0xB6 else if lo == 0x6 then 0x1C else if lo == 0x7 then 0xC9
    else if lo == 0x8 then 0xB4 else if lo == 0x9 then 0x61 else if lo == 0xA then 0xCB else if lo == 0xB then 0x1E
    else if lo == 0xC then 0x4A else if lo == 0xD then 0x9F else if lo == 0xE then 0x35
    else 0xE0
  }

  function Row5(lo: bv8): bv8
  {
    if lo == 0x0 then 0xCF else if lo == 0x1 then 0x1A else if lo == 0x2 then 0xB0 else if lo == 0x3 then 0x65
    else if lo == 0x4 then 0x31 else if lo == 0x5 then 0xE4 else if lo == 0x6 then 0x4E else if lo == 0x7 then 0x9B
    else if lo == 0x8 then 0xE6 else if lo == 0x9 then 0x33 else if lo == 0xA then 0x99 else if lo == 0xB then 0x4C
    else if lo == 0xC then 0x18 else if lo == 0xD then 0xCD else if lo == 0xE then 0x67
    else 0xB2
  }

  function Row6(lo: bv8): bv8
  {
    if lo == 0x0 then 0x39 else if lo == 0x1 then 0xEC else if lo == 0x2 then 0x46 else if lo == 0x3 then 0x93
    else if lo == 0x4 then 0xC7 else if lo == 0x5 then 0x12 else if lo == 0x6 then 0xB8 else if lo == 0x7 then 0x6D
    else if lo == 0x8 then 0x10 else if lo == 0x9 then 0xC5 else if lo == 0xA then 0x6F else if lo == 0xB then 0xBA
    else if lo == 0xC then 0xEE else if lo == 0xD then 0x3B else if lo == 0xE then 0x91
    else 0x44
  }

  function Row7(lo: bv8): bv8
  {
    if lo == 0x0 then 0x6B else if lo == 0x1 then 0xBE else if lo == 0x2 then 0x14 else if lo == 0x3 then 0xC1
    else if lo == 0x4 then 0x95 else if lo == 0x5 then 0x40 else if lo == 0x6 then 0xEA else if lo == 0x7 then 0x3F
    else if lo == 0x8 then 0x42 else if lo == 0x9 then 0x97 else if lo == 0xA then 0x3D else if lo == 0xB then 0xE8
    else if lo == 0xC then 0xBC else if lo == 0xD then 0x69 else if lo == 0xE then 0xC3
    else 0x16
  }

  function Row8(lo: bv8): bv8
  {
    if lo == 0x0 then 0xEF else if lo == 0x1 then 0x3A else if lo == 0x2 then 0x90 else if lo == 0x3 then 0x45
    else if lo == 0x4 then 0x11 else if lo == 0x5 then 0xC4 else if lo == 0x6 then 0x6E else if lo == 0x7 then 0xBB
    else if lo == 0x8 then 0xC6 else if lo == 0x9 then 0x13 else if lo == 0xA then 0xB9 else if lo == 0xB then 0x6C
    else if lo == 0xC then 0x38 else if lo == 0xD then 0xED else if lo == 0xE then 0x47
    else 0x92
  }

  function Row9(lo: bv8): bv8
  {
    if lo == 0x0 then 0xBD else if lo == 0x1 then 0x68 else if lo == 0x2 then 0xC2 else if lo == 0x3 then 0x17
    else if lo == 0x4 then 0x43 else if lo == 0x5 then 0x96 else if lo == 0x6 then 0x3C else if lo == 0x7 then 0xE9
    else if lo == 0x8 then 0x94 else if lo == 0x9 then 0x41 else if lo == 0xA then 0xEB else if lo == 0xB then 0x3E
    else if lo == 0xC then 0x6A else if lo == 0xD then 0xBF else if lo == 0xE then 0x15
    else 0xC0
  }

  function RowA(lo: bv8): bv8
  {
    if lo == 0x0 then 0x4B else if lo == 0x1 then 0x9E else if lo == 0x2 then 0x34 else if lo == 0x3 then 0xE1
    else if lo == 0x4 then 0xB5 else if lo == 0x5 then 0x60 else if lo == 0x6 then 0xCA else if lo == 0x7 then 0x1F
    else if lo == 0x8 then 0x62 else if lo == 0x9 then 0xB7 else if lo == 0xA then 0x1D else if lo == 0xB then 0xC8
    else if lo == 0xC then 0x9C else if lo == 0xD then 0x49 else if lo == 0xE then 0xE3
    else 0x36
  }

  function RowB(lo: bv8): bv8
  {
    if lo == 0x0 then 0x19 else if lo == 0x1 then 0xCC else if lo == 0x2 then 0x66 else if lo == 0x3 then 0xB3
    else if lo == 0x4 then 0xE7 else if lo == 0x5 then 0x32 else if lo == 0x6 then 0x98 else if lo == 0x7 then 0x4D
    else if lo == 0x8 then 0x30 else if lo == 0x9 then 0xE5 else if lo == 0xA then 0x4F else if lo == 0xB then 0x9A
    else if lo == 0xC then 0xCE else if lo == 0xD then 0x1B else if lo == 0xE then 0xB1
    else 0x64
  }

  function RowC(lo: bv8): bv8
  {
    if lo == 0x0 then 0x72 else if lo == 0x1 then 0xA7 else if lo == 0x2 then 0x0D else if lo == 0x3 then 0xD8
    else if lo == 0x4 then 0x8C else if lo == 0x5 then 0x59 else if lo == 0x6 then 0xF3 else if lo == 0x7 then 0x26
    else if lo == 0x8 then 0x5B else if lo == 0x9 then 0x8E else if lo == 0xA then 0x24 else if lo == 0xB then 0xF1
    else if lo == 0xC then 0xA5 else if lo == 0xD then 0x70 else if lo == 0xE then 0xDA
    else 0x0F
  }

  function RowD(lo: bv8): bv8
  {
    if lo == 0x0 then 0x20 else if lo == 0x1 then 0xF5 else if lo == 0x2 then 0x5F else if lo == 0x3 then 0x8A
    else if lo == 0x4 then 0xDE else if lo == 0x5 then 0x0B else if lo == 0x6 then 0xA1 else if lo == 0x7 then 0x74
    else if lo == 0x8 then 0x09 else if lo == 0x9 then 0xDC else if lo == 0xA then 0x76 else if lo == 0xB then 0xA3
    else if lo == 0xC then 0xF7 else if lo == 0xD then 0x22 else if lo == 0xE then 0x88
    else 0x5D
  }

  function RowE(lo: bv8): bv8
  {
    if lo == 0x0 then 0xD6 else if lo == 0x1 then 0x03 else if lo == 0x2 then 0xA9 else if lo == 0x3 then 0x7C
    else if lo == 0x4 then 0x28 else if lo == 0x5 then 0xFD else if lo == 0x6 then 0x57 else if lo == 0x7 then 0x82
    else if lo == 0x8 then 0xFF else if lo == 0x9 then 0x2A else if lo == 0xA then 0x80 else if lo == 0xB then 0x55
    else if lo == 0xC then 0x01 else if lo == 0xD then 0xD4 else if lo == 0xE then 0x7E
    else 0xAB
  }

  function RowF(lo: bv8): bv8
  {
    if lo == 0x0 then 0x84 else if lo == 0x1 then 0x51 else if lo == 0x2 then 0xFB else if lo == 0x3 then 0x2E
    else if lo == 0x4 then 0x7A else if lo == 0x5 then 0xAF else if lo == 0x6 then 0x05 else if lo == 0x7 then 0xD0
    else if lo == 0x8 then 0xAD else if lo == 0x9 then 0x78 else if lo == 0xA then 0xD2 else if lo == 0xB then 0x07
    else if lo == 0xC then 0x53 else if lo == 0xD then 0x86 else if lo == 0xE then 0x2C
    else 0xF9
  }

  /** One bit of polynomial division: shift left, and xor in the polynomial 0xD5 when the
      bit shifted out was set. */
  function DivStep(c: bv8): bv8
  {
    if c & 0x80 != 0 then (c << 1) ^ 0xD5 else c << 1
  }

  /** Eight division steps: the remainder of `c * x^8` modulo the generator. */
  function Shift8(c: bv8): bv8
  {
    DivStep(DivStep(DivStep(DivStep(DivStep(DivStep(DivStep(DivStep(c))))))))
  }

  lemma TableRow0(b: bv8)
    requires b >> 4 == 0x0
    ensures ListedTable(b) == Shift8(b)
  {
  }

  lemma TableRow1(b: bv8)
    requires b >> 4 == 0x1
    ensures ListedTable(b) == Shift8(b)
  {
  }

  lemma TableRow2(b: bv8)
    requires b >> 4 == 0x2
    ensures ListedTable(b) == Shift8(b)
  {
  }

  lemma TableRow3(b: bv8)
    requires b >> 4 == 0x3
    ensures ListedTable(b) == Shift8(b)
  {
  }

  lemma TableRow4(b: bv8)
    requires b >> 4 == 0x4
    ensures ListedTable(b) == Shift8(b)
  {
  }

  lemma TableRow5(b: bv8)
    requires b >> 4 == 0x5
    ensures ListedTable(b) == Shift8(b)
  {
  }

  lemma TableRow6(b: bv8)
    requires b >> 4 == 0x6
    ensures ListedTable(b) == Shift8(b)
  {
  }

  lemma TableRow7(b: bv8)
    requires b >> 4 == 0x7
    ensures ListedTable(b) == Shift8(b)
  {
  }

  lemma TableRow8(b: bv8)
    requires b >> 4 == 0x8
    ensures ListedTable(b) == Shift8(b)
  {
  }

  lemma TableRow9(b: bv8)
    requires b >> 4 == 0x9
    ensures ListedTable(b) == Shift8(b)
  {
  }

  lemma TableRowA(b: bv8)
    requires b >> 4 == 0xA
    ensures ListedTable(b) == Shift8(b)
  {
  }

  lemma TableRowB(b: bv8)
    requires b >> 4 == 0xB
    ensures ListedTable(b) == Shift8(b)
  {
  }

  lemma TableRowC(b: bv8)
    requires b >> 4 == 0xC
    ensures ListedTable(b) == Shift8(b)
  {
  }

  lemma TableRowD(b: bv8)
    requires b >> 4 == 0xD
    ensures ListedTable(b) == Shift8(b)
  {
  }

  lemma TableRowE(b: bv8)
    requires b >> 4 == 0xE
    ensures ListedTable(b) == Shift8(b)
  {
  }

  lemma TableRowF(b: bv8)
    requires b >> 4 == 0xF
    ensures ListedTable(b) == Shift8(b)
  {
  }

  /** Every listed entry is the bitwise remainder of its index. */
  lemma ListedIsBitwise(b: bv8)
    ensures ListedTable(b) == Shift8(b)
  {
    match b >> 4
    case 0x0 => TableRow0(b);
    case 0x1 => TableRow1(b);
    case 0x2 => TableRow2(b);
    case 0x3 => TableRow3(b);
    case 0x4 => TableRow4(b);
    case 0x5 => TableRow5(b);
    case 0x6 => TableRow6(b);
    case 0x7 => TableRow7(b);
    case 0x8 => TableRow8(b);
    case 0x9 => TableRow9(b);
    case 0xA => TableRowA(b);
    case 0xB => TableRowB(b);
    case 0xC => TableRowC(b);
    case 0xD => TableRowD(b);
    case 0xE => TableRowE(b);
    case _ =>
      TableRowF(b);
  }

  /** `steps` division steps, one at a time. */
  function Remainder(c: bv8, steps: nat): bv8
    decreases steps
  {
    if steps == 0 then c else Remainder(DivStep(c), steps - 1)
  }

  /** `CRC_TABLE[b]`: each entry is the remainder of `b * x^8` modulo 0xD5. The documented
      generator reaches the same values by linearity instead; `TableIsListed` shows this is
      the table the source lists. */
  function Table(b: bv8): bv8
  {
    Remainder(b, BITS)
  }

  /** The division steps per byte. */
  const BITS: nat := 8

  /** Eight division steps taken one at a time are the eight steps of `Shift8`. */
  lemma TableIsBitwise(b: bv8)
    ensures Table(b) == Shift8(b)
  {
    var c1 := DivStep(b);
    var c2 := DivStep(c1);
    var c3 := DivStep(c2);
    var c4 := DivStep(c3);
    var c5 := DivStep(c4);
    var c6 := DivStep(c5);
    var c7 := DivStep(c6);
    assert Remainder(b, 8) == Remainder(c1, 7) == Remainder(c2, 6) == Remainder(c3, 5);
    assert Remainder(c3, 5) == Remainder(c4, 4) == Remainder(c5, 3) == Remainder(c6, 2);
    assert Remainder(c6, 2) == Remainder(c7, 1) == Remainder(DivStep(c7), 0);
  }

  /** All 256 entries of the table agree with the list the source writes out. */
  lemma TableIsListed(b: bv8)
    ensures Table(b) == ListedTable(b)
  {
    TableIsBitwise(b);
    ListedIsBitwise(b);
  }

  /** The reference definition: CRC-8/DVB-S2 of a message, bit by bit, from register `crc`. */
  function BitwiseFrom(crc: bv8, msg: seq<bv8>): bv8
    decreases |msg|
  {
    if msg == [] then crc else BitwiseFrom(Shift8(crc ^ msg[0]), msg[1..])
  }

  /** The CRC-8/DVB-S2 checksum of `msg` (initial register 0). */
  function Bitwise(msg: seq<bv8>): bv8
  {
    BitwiseFrom(0, msg)
  }

  /** The table-driven loop of `crc8`, continuing from register `crc`. */
  function TableFrom(crc: bv8, bytes: seq<bv8>): bv8
    decreases |bytes|
  {
    if bytes == [] then crc else TableFrom(Table(crc ^ bytes[0]), bytes[1..])
  }

  /** `crc8(firstbyte, bytes)`: the register starts at `CRC_TABLE[firstbyte]`, then every byte
      of `bytes` is folded in. */
  function Crc8(first: bv8, bytes: seq<bv8>): bv8
  {
    TableFrom(Table(first), bytes)
  }

  /** `crc8(first, bytes)` is the CRC-8/DVB-S2 checksum of the message `[first] + bytes`. */
  lemma Crc8IsBitwise(first: bv8, bytes: seq<bv8>)
    ensures Crc8(first, bytes) == Bitwise([first] + bytes)
  {
    TableFromIsBitwise(0, [first] + bytes);
    assert ([first] + bytes)[1..] == bytes;
  }

  /** The table-driven fold computes the bitwise CRC from any starting register. */
  lemma {:induction false} TableFromIsBitwise(crc: bv8, msg: seq<bv8>)
    ensures TableFrom(crc, msg) == BitwiseFrom(crc, msg)
    decreases |msg|
  {
    if msg != [] {
      TableIsBitwise(crc ^ msg[0]);
      TableFromIsBitwise(Table(crc ^ msg[0]), msg[1..]);
    }
  }

  /** The checksum of a concatenation continues the checksum of its first part. */
  lemma {:induction false} BitwiseAppend(crc: bv8, a: seq<bv8>, b: seq<bv8>)
    ensures BitwiseFrom(crc, a + b) == BitwiseFrom(BitwiseFrom(crc, a), b)
    decreases |a|
  {
    if a == [] {
      assert a + b == b;
    } else {
      assert (a + b)[0] == a[0];
      assert (a + b)[1..] == a[1..] + b;
      BitwiseAppend(Shift8(crc ^ a[0]), a[1..], b);
    }
  }

  /** One step of the table-driven loop. */
  lemma TableFromCons(crc: bv8, b: bv8, bs: seq<bv8>)
    ensures TableFrom(crc, [b] + bs) == TableFrom(Table(crc ^ b), bs)
  {
    var s := [b] + bs;
    assert s[0] == b && s[1..] == bs;
  }

  lemma Crc8FirstTestVectorEntries()
    ensures Table(0xE1) == 0x03
    ensures Table(0x03) == 0xAA
    ensures Table(0x60) == 0x39
    ensures Table(0xC7) == 0x26
  {
  }

  /** The first vector of the source's unit test. */
  lemma Crc8FirstTestVector()
    ensures Crc8(0xE1, [0x00, 0xCA, 0xFE]) == 0x26
  {
    Crc8FirstTestVectorEntries();
    TableFromCons(0x03, 0x00, [0xCA, 0xFE]);
    TableFromCons(0xAA, 0xCA, [0xFE]);
    TableFromCons(0x39, 0xFE, []);
  }

  lemma Crc8SecondTestVectorEntries()
    ensures Table(0x12) == 0x2D
    ensures Table(0x19) == 0xAE
    ensures Table(0xF8) == 0xAD
    ensures Table(0xD5) == 0x0B
    ensures Table(0x9B) == 0x3E
  {
  }

  /** The second vector of the source's unit test. */
  lemma Crc8SecondTestVector()
    ensures Crc8(0x12, [0x34, 0x56, 0x78, 0x90]) == 0x3E
  {
    Crc8SecondTestVectorEntries();
    TableFromCons(0x2D, 0x34, [0x56, 0x78, 0x90]);
    TableFromCons(0xAE, 0x56, [0x78, 0x90]);
    TableFromCons(0xAD, 0x78, [0x90]);
    TableFromCons(0x0B, 0x90, []);
  }

  lemma Crc8CheckValueEntries()
    ensures Table(0x31) == 0x23
    ensures Table(0x11) == 0x87
    ensures Table(0xB4) == 0xE7
    ensures Table(0xD3) == 0x8A
  {
  }

  lemma Crc8CheckValueEntries2()
    ensures Table(0xBF) == 0x64
    ensures Table(0x52) == 0xB0
    ensures Table(0x87) == 0xBB
    ensures Table(0x83) == 0x45
    ensures Table(0x7C) == 0xBC
  {
  }

  /** The standard check value of CRC-8/DVB-S2: the message "123456789" gives 0xBC. */
  lemma Crc8CheckValue()
    ensures Crc8(0x31, [0x32, 0x33, 0x34, 0x35, 0x36, 0x37, 0x38, 0x39]) == 0xBC
  {
    Crc8CheckValueEntries();
    Crc8CheckValueEntries2();
    TableFromCons(0x23, 0x32, [0x33, 0x34, 0x35, 0x36, 0x37, 0x38, 0x39]);
    TableFromCons(0x87, 0x33, [0x34, 0x35, 0x36, 0x37, 0x38, 0x39]);
    TableFromCons(0xE7, 0x34, [0x35, 0x36, 0x37, 0x38, 0x39]);
    TableFromCons(0x8A, 0x35, [0x36, 0x37, 0x38, 0x39]);
    TableFromCons(0x64, 0x36, [0x37, 0x38, 0x39]);
    TableFromCons(0xB0, 0x37, [0x38, 0x39]);
    TableFromCons(0xBB, 0x38, [0x39]);
    TableFromCons(0x45, 0x39, []);
  }
}
