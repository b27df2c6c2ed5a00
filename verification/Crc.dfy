/** The T10 data-integrity checksum: a table-driven CRC and the protection tuple that carries it. */
module Crc {
  import opened BitDivision

  // ------------------------------------------------------------ words as bit strings

  predicate Top(x: bv16) {
    x & 0x8000 != 0
  }

  /** The n most significant bits of a word, and zeros once they are spent. */
  function TopBits(x: bv16, n: nat): (r: Bits)
    ensures |r| == n
    decreases n, x
  {
    if n == 0 then [] else [Top(x)] + TopBits(x << 1, n - 1)
  }

  function Bits16(x: bv16): (r: Bits)
    ensures |r| == 16
  {
    TopBits(x, 16)
  }

  function High8(x: bv8): bv16 {
    (x as bv16) << 8
  }

  function Bits8(x: bv8): (r: Bits)
    ensures |r| == 8
  {
    TopBits(High8(x), 8)
  }

  function MessageBits(data: seq<bv8>): (r: Bits)
    ensures |r| == 8 * |data|
  {
    if data == [] then [] else Bits8(data[0]) + MessageBits(data[1..])
  }

  lemma XorTop(a: bv16, b: bv16, c: bv16)
    requires c == a ^ b
    ensures Top(c) == (Top(a) != Top(b))
    ensures c << 1 == (a << 1) ^ (b << 1)
  {
  }

  lemma XorCons(x: bool, y: bool, s: Bits, t: Bits)
    requires |s| == |t|
    ensures Xor([x] + s, [y] + t) == [x != y] + Xor(s, t)
  {
  }

  lemma TopBitsJoin(a: bv16, b: bv16, c: bv16, n: nat)
    requires Top(c) == (Top(a) != Top(b))
    requires TopBits(c << 1, n) == Xor(TopBits(a << 1, n), TopBits(b << 1, n))
    ensures TopBits(c, n + 1) == Xor(TopBits(a, n + 1), TopBits(b, n + 1))
  {
    XorCons(Top(a), Top(b), TopBits(a << 1, n), TopBits(b << 1, n));
  }

  lemma {:induction false} TopBitsXor(a: bv16, b: bv16, c: bv16, n: nat)
    requires c == a ^ b
    ensures TopBits(c, n) == Xor(TopBits(a, n), TopBits(b, n))
    decreases n
  {
    hide TopBits, Xor;
    if n == 0 {
      assert TopBits(c, 0) == [] == Xor(TopBits(a, 0), TopBits(b, 0));
    } else {
      XorTop(a, b, c);
      TopBitsXor(a << 1, b << 1, c << 1, n - 1);
      TopBitsJoin(a, b, c, n - 1);
    }
  }

  lemma {:induction false} TopBitsOfZero(n: nat)
    ensures TopBits(0, n) == Zeros(n)
    decreases n
  {
    if n > 0 {
      assert (0 as bv16) << 1 == 0;
      TopBitsOfZero(n - 1);
    }
  }

  /** Shifting left n times, one place at a time. */
  function Shifted(x: bv16, n: nat): bv16
    decreases n, x
  {
    if n == 0 then x else Shifted(x << 1, n - 1)
  }

  lemma {:induction false} TopBitsSplit(x: bv16, n: nat, k: nat)
    ensures TopBits(x, n + k) == TopBits(x, n) + TopBits(Shifted(x, n), k)
    decreases n
  {
    if n > 0 {
      TopBitsSplit(x << 1, n - 1, k);
    }
  }

  lemma ShiftedFour(x: bv16, n: nat)
    ensures Shifted(x, n + 4) == Shifted(x << 4, n)
  {
    assert x << 4 == (((x << 1) << 1) << 1) << 1;
    assert Shifted(x, n + 4) == Shifted((x << 1) << 1, n + 2);
  }

  lemma ShiftedBy(x: bv16)
    ensures Shifted(x, 1) == x << 1 && Shifted(x, 8) == x << 8
  {
    ShiftedFour(x, 4);
    ShiftedFour(x << 4, 0);
    assert (x << 4) << 4 == x << 8;
    assert Shifted(x << 1, 0) == x << 1;
  }

  lemma ShiftedOut(x: bv16)
    ensures Shifted(x << 1, 15) == 0 && Shifted(x << 8, 8) == 0
  {
    ShiftedBy(x << 8);
    assert Shifted(x, 16) == Shifted(x << 1, 15);
    ShiftedFour(x, 12);
    ShiftedFour(x << 4, 8);
    assert (x << 4) << 4 == x << 8;
    assert (x << 8) << 8 == 0;
  }

  lemma Bits16Shifted(x: bv16)
    ensures Bits16(x << 1) == Bits16(x)[1..] + [false]
    ensures Bits16(x << 8) == Bits16(x)[8..] + Zeros(8)
  {
    hide TopBits;
    ShiftedBy(x);
    ShiftedOut(x);
    TopBitsSplit(x, 1, 15);
    TopBitsSplit(x << 1, 15, 1);
    TopBitsSplit(x, 8, 8);
    TopBitsSplit(x << 8, 8, 8);
    TopBitsOfZero(1);
    TopBitsOfZero(8);
  }

  // ------------------------------------------------------------ the table

  /** x^16 + x^15 + x^11 + x^9 + x^8 + x^7 + x^5 + x^4 + x^2 + x + 1, without its leading term. */
  const POLYNOMIAL: bv16 := 0x8BB7

  const TABLE: seq<seq<bv16>> := [
    [0x0000, 0x8BB7, 0x9CD9, 0x176E, 0xB205, 0x39B2, 0x2EDC, 0xA56B,
     0xEFBD, 0x640A, 0x7364, 0xF8D3, 0x5DB8, 0xD60F, 0xC161, 0x4AD6],
    [0x54CD, 0xDF7A, 0xC814, 0x43A3, 0xE6C8, 0x6D7F, 0x7A11, 0xF1A6,
     0xBB70, 0x30C7, 0x27A9, 0xAC1E, 0x0975, 0x82C2, 0x95AC, 0x1E1B],
    [0xA99A, 0x222D, 0x3543, 0xBEF4, 0x1B9F, 0x9028, 0x8746, 0x0CF1,
     0x4627, 0xCD90, 0xDAFE, 0x5149, 0xF422, 0x7F95, 0x68FB, 0xE34C],
    [0xFD57, 0x76E0, 0x618E, 0xEA39, 0x4F52, 0xC4E5, 0xD38B, 0x583C,
     0x12EA, 0x995D, 0x8E33, 0x0584, 0xA0EF, 0x2B58, 0x3C36, 0xB781],
    [0xD883, 0x5334, 0x445A, 0xCFED, 0x6A86, 0xE131, 0xF65F, 0x7DE8,
     0x373E, 0xBC89, 0xABE7, 0x2050, 0x853B, 0x0E8C, 0x19E2, 0x9255],
    [0x8C4E, 0x07F9, 0x1097, 0x9B20, 0x3E4B, 0xB5FC, 0xA292, 0x2925,
     0x63F3, 0xE844, 0xFF2A, 0x749D, 0xD1F6, 0x5A41, 0x4D2F, 0xC698],
    [0x7119, 0xFAAE, 0xEDC0, 0x6677, 0xC31C, 0x48AB, 0x5FC5, 0xD472,
     0x9EA4, 0x1513, 0x027D, 0x89CA, 0x2CA1, 0xA716, 0xB078, 0x3BCF],
    [0x25D4, 0xAE63, 0xB90D, 0x32BA, 0x97D1, 0x1C66, 0x0B08, 0x80BF,
     0xCA69, 0x41DE, 0x56B0, 0xDD07, 0x786C, 0xF3DB, 0xE4B5, 0x6F02],
    [0x3AB1, 0xB106, 0xA668, 0x2DDF, 0x88B4, 0x0303, 0x146D, 0x9FDA,
     0xD50C, 0x5EBB, 0x49D5, 0xC262, 0x6709, 0xECBE, 0xFBD0, 0x7067],
    [0x6E7C, 0xE5CB, 0xF2A5, 0x7912, 0xDC79, 0x57CE, 0x40A0, 0xCB17,
     0x81C1, 0x0A76, 0x1D18, 0x96AF, 0x33C4, 0xB873, 0xAF1D, 0x24AA],
    [0x932B, 0x189C, 0x0FF2, 0x8445, 0x212E, 0xAA99, 0xBDF7, 0x3640,
     0x7C96, 0xF721, 0xE04F, 0x6BF8, 0xCE93, 0x4524, 0x524A, 0xD9FD],
    [0xC7E6, 0x4C51, 0x5B3F, 0xD088, 0x75E3, 0xFE54, 0xE93A, 0x628D,
     0x285B, 0xA3EC, 0xB482, 0x3F35, 0x9A5E, 0x11E9, 0x0687, 0x8D30],
    [0xE232, 0x6985, 0x7EEB, 0xF55C, 0x5037, 0xDB80, 0xCCEE, 0x4759,
     0x0D8F, 0x8638, 0x9156, 0x1AE1, 0xBF8A, 0x343D, 0x2353, 0xA8E4],
    [0xB6FF, 0x3D48, 0x2A26, 0xA191, 0x04FA, 0x8F4D, 0x9823, 0x1394,
     0x5942, 0xD2F5, 0xC59B, 0x4E2C, 0xEB47, 0x60F0, 0x779E, 0xFC29],
    [0x4BA8, 0xC01F, 0xD771, 0x5CC6, 0xF9AD, 0x721A, 0x6574, 0xEEC3,
     0xA415, 0x2FA2, 0x38CC, 0xB37B, 0x1610, 0x9DA7, 0x8AC9, 0x017E],
    [0x1F65, 0x94D2, 0x83BC, 0x080B, 0xAD60, 0x26D7, 0x31B9, 0xBA0E,
     0xF0D8, 0x7B6F, 0x6C01, 0xE7B6, 0x42DD, 0xC96A, 0xDE04, 0x55B3]
  ]

  function Entry<T>(table: seq<seq<T>>, i: nat): T
    requires IsTable(table) && i < 256
  {
    table[i / 16][i % 16]
  }

  predicate IsTable<T>(table: seq<seq<T>>) {
    |table| == 16 && forall r :: 0 <= r < 16 ==> |table[r]| == 16
  }

  function Shift(s: bv16): bv16 {
    if Top(s) then (s << 1) ^ POLYNOMIAL else s << 1
  }

  /** Entries 2h and 2h + 1, given entry h. */
  predicate Pair(half: bv16, even: bv16, odd: bv16) {
    even == Shift(half) && odd == even ^ POLYNOMIAL
  }

  /** Each pair of entries in the row, given the entry for half its index. */
  predicate RowPairs(a: seq<bv16>, at: nat, row: seq<bv16>) {
    |a| == |row| == 16 && at <= 8
    && Pair(a[at], row[0], row[1]) && Pair(a[at + 1], row[2], row[3])
    && Pair(a[at + 2], row[4], row[5]) && Pair(a[at + 3], row[6], row[7])
    && Pair(a[at + 4], row[8], row[9]) && Pair(a[at + 5], row[10], row[11])
    && Pair(a[at + 6], row[12], row[13]) && Pair(a[at + 7], row[14], row[15])
  }

  lemma PairInRow(a: seq<bv16>, at: nat, row: seq<bv16>, i: nat)
    requires RowPairs(a, at, row) && i < 8
    ensures Pair(a[at + i], row[2 * i], row[2 * i + 1])
  {
    hide Pair;
  }

  lemma IndexDoubles(h: nat, j: nat, i: nat)
    requires h == 16 * j + i && i < 16
    ensures i < 8 ==> (2 * h) / 16 == (2 * h + 1) / 16 == 2 * j
    ensures i < 8 ==> (2 * h) % 16 == 2 * i && (2 * h + 1) % 16 == 2 * i + 1
    ensures i >= 8 ==> (2 * h) / 16 == (2 * h + 1) / 16 == 2 * j + 1
    ensures i >= 8 ==> (2 * h) % 16 == 2 * (i - 8) && (2 * h + 1) % 16 == 2 * (i - 8) + 1
  {
  }

  lemma EntriesDouble(table: seq<seq<bv16>>, h: nat)
    requires h < 128 && IsTable(table)
    requires var j := h / 16; RowPairs(table[j], 0, table[2 * j]) && RowPairs(table[j], 8, table[2 * j + 1])
    ensures Pair(Entry(table, h), Entry(table, 2 * h), Entry(table, 2 * h + 1))
  {
    hide Pair, RowPairs;
    var j, i := h / 16, h % 16;
    IndexDoubles(h, j, i);
    if i < 8 {
      PairInRow(table[j], 0, table[2 * j], i);
    } else {
      PairInRow(table[j], 8, table[2 * j + 1], i - 8);
    }
  }

  lemma TableShape()
    ensures IsTable(TABLE) && TABLE[0][0] == 0
  {
  }

  lemma TablePairs0()
    ensures RowPairs(TABLE[0], 0, TABLE[0]) && RowPairs(TABLE[0], 8, TABLE[1])
  {
  }

  lemma TablePairs1()
    ensures RowPairs(TABLE[1], 0, TABLE[2]) && RowPairs(TABLE[1], 8, TABLE[3])
  {
  }

  lemma TablePairs2()
    ensures RowPairs(TABLE[2], 0, TABLE[4]) && RowPairs(TABLE[2], 8, TABLE[5])
  {
  }

  lemma TablePairs3()
    ensures RowPairs(TABLE[3], 0, TABLE[6]) && RowPairs(TABLE[3], 8, TABLE[7])
  {
  }

  lemma TablePairs4()
    ensures RowPairs(TABLE[4], 0, TABLE[8]) && RowPairs(TABLE[4], 8, TABLE[9])
  {
  }

  lemma TablePairs5()
    ensures RowPairs(TABLE[5], 0, TABLE[10]) && RowPairs(TABLE[5], 8, TABLE[11])
  {
  }

  lemma TablePairs6()
    ensures RowPairs(TABLE[6], 0, TABLE[12]) && RowPairs(TABLE[6], 8, TABLE[13])
  {
  }

  lemma TablePairs7()
    ensures RowPairs(TABLE[7], 0, TABLE[14]) && RowPairs(TABLE[7], 8, TABLE[15])
  {
  }

  lemma TablePairs(j: nat)
    requires j < 8
    ensures IsTable(TABLE) && RowPairs(TABLE[j], 0, TABLE[2 * j]) && RowPairs(TABLE[j], 8, TABLE[2 * j + 1])
  {
    TableShape();
    match j {
      case 0 => TablePairs0();
      case 1 => TablePairs1();
      case 2 => TablePairs2();
      case 3 => TablePairs3();
      case 4 => TablePairs4();
      case 5 => TablePairs5();
      case 6 => TablePairs6();
      case 7 => TablePairs7();
    }
  }

  predicate DoublesAt(table: seq<seq<bv16>>, h: nat)
    requires IsTable(table) && h < 128
  {
    Pair(Entry(table, h), Entry(table, 2 * h), Entry(table, 2 * h + 1))
  }

  /** The table can be rebuilt from its first entry by doubling. */
  ghost predicate Doubling(table: seq<seq<bv16>>) {
    IsTable(table) && Entry(table, 0) == 0 && forall h :: 0 <= h < 128 ==> DoublesAt(table, h)
  }

  lemma TableDoublesAt(h: nat)
    requires h < 128
    ensures IsTable(TABLE) && DoublesAt(TABLE, h)
  {
    hide Pair, RowPairs;
    TablePairs(h / 16);
    EntriesDouble(TABLE, h);
  }

  lemma TableIsDoubling()
    ensures Doubling(TABLE)
  {
    TableShape();
    forall h | 0 <= h < 128
      ensures DoublesAt(TABLE, h)
    {
      TableDoublesAt(h);
    }
  }

  // ------------------------------------------------------------ the table is the division

  function Generator(): (g: Bits)
    ensures |g| == 16
  {
    Bits16(POLYNOMIAL)
  }

  /** Shifting the word is one step of the register. */
  lemma ShiftIsStep(s: bv16)
    ensures Bits16(Shift(s)) == Step(Generator(), Bits16(s), false)
  {
    Bits16Shifted(s);
    assert Bits16(s)[0] == Top(s);
    if Top(s) {
      TopBitsXor(s << 1, POLYNOMIAL, Shift(s), 16);
    } else {
      XorNothing(Bits16(Shift(s)));
    }
  }

  lemma StepTrue(g: Bits, s: Bits)
    requires |s| == |g| > 0
    ensures Step(g, s, true) == Xor(Step(g, s, false), g)
  {
  }

  lemma PairIsStep(half: bv16, even: bv16, odd: bv16)
    requires Pair(half, even, odd)
    ensures Bits16(even) == Step(Generator(), Bits16(half), false)
    ensures Bits16(odd) == Step(Generator(), Bits16(half), true)
  {
    ShiftIsStep(half);
    TopBitsXor(even, POLYNOMIAL, odd, 16);
    StepTrue(Generator(), Bits16(half));
  }

  /** The bound b, a block of ones, can move up n places without reaching past the top. */
  predicate Room(b: bv16, n: nat)
    decreases n
  {
    n == 0 || (b <= 0x7fff && Room((b << 1) + 1, n - 1))
  }

  lemma ShiftBound(d: bv16, b: bv16)
    requires d <= b <= 0x7fff
    ensures !Top(d) && d << 1 <= (b << 1) + 1
  {
  }

  lemma {:induction false} SmallTop(d: bv16, b: bv16, n: nat)
    requires d <= b && Room(b, n)
    ensures TopBits(d, n) == Zeros(n)
    decreases n
  {
    if n > 0 {
      ShiftBound(d, b);
      SmallTop(d << 1, (b << 1) + 1, n - 1);
    }
  }

  lemma ByteRoom()
    ensures Room(0xff, 8) && Room(0x1ff, 7)
  {
  }

  /** Words that differ only below the first n bits have the same first n bits. */
  lemma SameTop(c: bv16, d: bv16, e: bv16, b: bv16, n: nat)
    requires c == d ^ e && e <= b && Room(b, n)
    ensures TopBits(c, n) == TopBits(d, n)
  {
    SmallTop(e, b, n);
    TopBitsXor(d, e, c, n);
    XorNothing(TopBits(d, n));
  }

  lemma HalfWords(x: bv16)
    requires x < 256
    ensures ((x >> 1) << 8) << 1 == (x << 8) ^ ((x & 1) << 8)
    ensures (x & 1) << 8 <= 0x1ff && !Top((x >> 1) << 8)
    ensures Top((x << 8) << 7) == (x & 1 != 0)
  {
  }

  lemma ShiftedSeven(y: bv16)
    ensures Shifted(y, 7) == y << 7
  {
    ShiftedFour(y, 3);
    assert (((y << 4) << 1) << 1) << 1 == y << 7;
    assert Shifted(y << 4, 3) == Shifted((y << 4) << 1, 2);
    assert Shifted((y << 4) << 1, 2) == Shifted(((y << 4) << 1) << 1, 1);
  }

  lemma DropTop(y: bv16, z: bv16, e: bv16)
    requires z << 1 == y ^ e && e <= 0x1ff && !Top(z)
    ensures TopBits(z, 8) == [false] + TopBits(y, 7)
  {
    ByteRoom();
    SameTop(z << 1, y, e, 0x1ff, 7);
  }

  lemma LastOfEight(y: bv16)
    ensures TopBits(y, 8) == TopBits(y, 7) + [Top(y << 7)]
  {
    ShiftedSeven(y);
    TopBitsSplit(y, 7, 1);
    OneBit(y << 7);
  }

  lemma ByteHalf(x: bv16)
    requires x < 256
    ensures TopBits((x >> 1) << 8, 8) == [false] + TopBits(x << 8, 7)
    ensures TopBits(x << 8, 8) == TopBits(x << 8, 7) + [x & 1 != 0]
  {
    HalfWords(x);
    DropTop(x << 8, (x >> 1) << 8, (x & 1) << 8);
    LastOfEight(x << 8);
  }

  lemma OneBit(d: bv16)
    ensures TopBits(d, 1) == [Top(d)]
  {
  }

  lemma Half(x: bv16, i: nat) returns (y: bv16, h: nat)
    requires 0 < x < 256 && i == x as int
    ensures y == x >> 1 && y < 256 && h == y as int
    ensures h < 128 && h < i && i == 2 * h + (if x & 1 != 0 then 1 else 0)
  {
    y := x >> 1;
    h := y as int;
  }

  /** Entry i is what dividing m leaves in a zero register. */
  ghost predicate EntryDivides(table: seq<seq<bv16>>, i: int, m: Bits)
    requires IsTable(table)
  {
    0 <= i < 256 && Bits16(Entry(table, i)) == Run(Generator(), Zeros(16), m)
  }

  /** The entries of 2h and 2h + 1 take one bit more than the entry of h. */
  lemma EntryGrows(table: seq<seq<bv16>>, h: nat, m: Bits, odd: bool, i: nat)
    requires h < 128 && IsTable(table) && DoublesAt(table, h)
    requires EntryDivides(table, h, [false] + m) && i == 2 * h + (if odd then 1 else 0)
    ensures EntryDivides(table, i, m + [odd])
  {
    PairIsStep(Entry(table, h), Entry(table, 2 * h), Entry(table, 2 * h + 1));
    RunGrows(m, odd);
  }

  lemma EntryNext(table: seq<seq<bv16>>, x: bv16, h: nat, i: nat)
    requires x < 256 && h < 128 && IsTable(table) && DoublesAt(table, h)
    requires EntryDivides(table, h, TopBits((x >> 1) << 8, 8)) && i == 2 * h + (if x & 1 != 0 then 1 else 0)
    ensures EntryDivides(table, i, TopBits(x << 8, 8))
  {
    ByteHalf(x);
    EntryGrows(table, h, TopBits(x << 8, 7), x & 1 != 0, i);
  }

  /** Such a table holds the division of every byte. */
  lemma {:induction false} EntryIsRun(table: seq<seq<bv16>>, x: bv16, i: nat)
    requires Doubling(table) && x < 256 && i == x as int
    ensures EntryDivides(table, i, TopBits(x << 8, 8))
    decreases i
  {
    if x == 0 {
      EntryOfZero(table);
    } else {
      var y, h := Half(x, i);
      EntryIsRun(table, y, h);
      assert DoublesAt(table, h);
      EntryNext(table, x, h, i);
    }
  }

  lemma EntryOfZero(table: seq<seq<bv16>>)
    requires IsTable(table) && Entry(table, 0) == 0
    ensures EntryDivides(table, 0, TopBits(0 << 8, 8))
  {
    TopBitsOfZero(16);
    TopBitsOfZero(8);
    RunZeros(Generator(), 8);
  }

  lemma RunGrows(m: Bits, b: bool)
    ensures Run(Generator(), Zeros(16), m + [b]) == Step(Generator(), Run(Generator(), Zeros(16), [false] + m), b)
  {
    var g := Generator();
    RunSnoc(g, Zeros(16), m, b);
    RunConcat(g, Zeros(16), Zeros(1), m);
    RunZeros(g, 1);
    assert Zeros(1) == [false];
  }

  // ------------------------------------------------------------ the checksum loop

  /** The loop body: the table takes in one byte. */
  function ByteIndex(crc: bv16, b: bv8): bv16 {
    ((crc >> 8) ^ (b as bv16)) & 0xff
  }

  function Joined(crc: bv16, entry: bv16): bv16 {
    (crc << 8) ^ entry
  }

  function TakeByte(table: seq<seq<bv16>>, crc: bv16, b: bv8): bv16
    requires IsTable(table)
  {
    IndexFits(crc, b);
    Joined(crc, Entry(table, ByteIndex(crc, b) as int))
  }

  lemma IndexFits(crc: bv16, b: bv8)
    ensures ByteIndex(crc, b) < 256 && ByteIndex(crc, b) as int < 256
  {
  }

  function Shift8(x: bv16): bv16 {
    x << 8
  }

  lemma IndexParts(crc: bv16, b: bv8) returns (high: bv16, low: bv16)
    ensures high == crc ^ low && low <= 0xff && Shift8(ByteIndex(crc, b)) == high ^ High8(b)
  {
    high, low := crc & 0xff00, crc & 0xff;
  }

  lemma IndexBits(crc: bv16, b: bv8)
    ensures TopBits(Shift8(ByteIndex(crc, b)), 8) == Xor(TopBits(crc, 8), Bits8(b))
  {
    hide TopBits, Xor, Shift8, High8, ByteIndex;
    var high, low := IndexParts(crc, b);
    SumBits(crc, high, low, High8(b), Shift8(ByteIndex(crc, b)));
  }

  lemma SumBits(crc: bv16, high: bv16, low: bv16, other: bv16, sum: bv16)
    requires high == crc ^ low && low <= 0xff && sum == high ^ other
    ensures TopBits(sum, 8) == Xor(TopBits(crc, 8), TopBits(other, 8))
  {
    hide TopBits, Xor;
    ByteRoom();
    SameTop(high, crc, low, 0xff, 8);
    TopBitsXor(high, other, sum, 8);
  }

  lemma TakeByteDivides(table: seq<seq<bv16>>, crc: bv16, b: bv8, next: bv16)
    requires Doubling(table) && next == TakeByte(table, crc, b)
    ensures Bits16(next) == Run(Generator(), Bits16(crc), Bits8(b))
  {
    hide TopBits, Run, Xor, Entry, Joined, ByteIndex, Shift8, Bits16, Bits8;
    IndexFits(crc, b);
    IndexBits(crc, b);
    var x := ByteIndex(crc, b);
    EntryFor(table, x, x as int, Xor(TopBits(crc, 8), Bits8(b)));
    EntryJoins(Generator(), crc, Bits8(b), Entry(table, x as int));
  }

  lemma EntryFor(table: seq<seq<bv16>>, x: bv16, i: nat, m: Bits)
    requires Doubling(table) && x < 256 && i == x as int && TopBits(Shift8(x), 8) == m
    ensures i < 256 && Bits16(Entry(table, i)) == Run(Generator(), Zeros(16), m)
  {
    EntryIsRun(table, x, i);
  }

  lemma EntryJoins(g: Bits, crc: bv16, m: Bits, entry: bv16)
    requires |g| == 16 && |m| == 8 && Bits16(entry) == Run(g, Zeros(16), Xor(TopBits(crc, 8), m))
    ensures Bits16(Joined(crc, entry)) == Run(g, Bits16(crc), m)
  {
    hide TopBits, Run;
    NextBits(crc, entry, (crc << 8) ^ entry);
    SplitBytes(crc);
    RunHalf(g, TopBits(crc, 8), TopBits(crc << 8, 8), m);
  }

  lemma NextBits(crc: bv16, entry: bv16, next: bv16)
    requires next == (crc << 8) ^ entry
    ensures Bits16(next) == Xor(TopBits(crc << 8, 8) + Zeros(8), Bits16(entry))
  {
    TopBitsXor(crc << 8, entry, next, 16);
    SplitBytes(crc);
  }

  lemma SplitBytes(c: bv16)
    ensures Bits16(c) == TopBits(c, 8) + TopBits(c << 8, 8)
    ensures Bits16(c << 8) == TopBits(c << 8, 8) + Zeros(8)
  {
    Bits16Shifted(c);
    ShiftedBy(c);
    TopBitsSplit(c, 8, 8);
  }

  /** The checksum as the loop computes it, over a whole buffer. */
  function Checksum(table: seq<seq<bv16>>, start: bv16, data: seq<bv8>): bv16
    requires IsTable(table)
    decreases |data|
  {
    if data == [] then start
    else TakeByte(table, Checksum(table, start, data[..|data| - 1]), data[|data| - 1])
  }

  /** The table-driven checksum is the bit-serial division, for every buffer and start. */
  lemma {:induction false} ChecksumDivides(table: seq<seq<bv16>>, start: bv16, data: seq<bv8>)
    requires Doubling(table)
    ensures Bits16(Checksum(table, start, data)) == Run(Generator(), Bits16(start), MessageBits(data))
    decreases |data|
  {
    hide TopBits, Run, TakeByte, MessageBits, Doubling;
    DoublingShape(table);
    if data == [] {
      NothingDivides(Generator(), Bits16(start));
    } else {
      var n := |data| - 1;
      var front, b := data[..n], data[n];
      ChecksumDivides(table, start, front);
      TakeByteDivides(table, Checksum(table, start, front), b, Checksum(table, start, data));
      DivideByte(Generator(), Bits16(start), front, b);
      assert data == front + [b];
    }
  }

  lemma DoublingShape(table: seq<seq<bv16>>)
    requires Doubling(table)
    ensures IsTable(table)
  {
  }

  lemma NothingDivides(g: Bits, s: Bits)
    requires |s| == |g| > 0
    ensures MessageBits([]) == [] && Run(g, s, []) == s
  {
  }

  lemma DivideByte(g: Bits, s: Bits, data: seq<bv8>, b: bv8)
    requires |s| == |g| > 0
    ensures Run(g, s, MessageBits(data + [b])) == Run(g, Run(g, s, MessageBits(data)), Bits8(b))
  {
    MessageSnoc(data, b);
    RunConcat(g, s, MessageBits(data), Bits8(b));
  }

  lemma ChecksumOfNothing(table: seq<seq<bv16>>, start: bv16)
    requires IsTable(table)
    ensures Checksum(table, start, []) == start
  {
  }

  lemma ChecksumSnoc(table: seq<seq<bv16>>, start: bv16, data: seq<bv8>, b: bv8)
    requires IsTable(table)
    ensures Checksum(table, start, data + [b]) == TakeByte(table, Checksum(table, start, data), b)
  {
    hide TakeByte;
    assert (data + [b])[..|data|] == data;
  }

  /** The loop over `len` bytes of a buffer, from wherever it is pointed at. */
  method CrcT10Dif(start: bv16, buffer: array<bv8>, from: nat, len: nat) returns (crc: bv16)
    requires from + len <= buffer.Length
    ensures Bits16(crc) == Run(Generator(), Bits16(start), MessageBits(buffer[from..from + len]))
    ensures IsTable(TABLE) && crc == Checksum(TABLE, start, buffer[from..from + len])
  {
    hide TopBits, Run, MessageBits, TakeByte, Checksum, Doubling;
    TableIsDoubling();
    DoublingShape(TABLE);
    ChecksumOfNothing(TABLE, start);
    assert buffer[from..from] == [];
    crc := start;
    for i := 0 to len
      invariant crc == Checksum(TABLE, start, buffer[from..from + i])
    {
      ChecksumSnoc(TABLE, start, buffer[from..from + i], buffer[from + i]);
      crc := TakeByte(TABLE, crc, buffer[from + i]);
      assert buffer[from..from + i + 1] == buffer[from..from + i] + [buffer[from + i]];
    }
    ChecksumDivides(TABLE, start, buffer[from..from + len]);
  }

  lemma {:induction false} MessageConcat(a: seq<bv8>, b: seq<bv8>)
    ensures MessageBits(a + b) == MessageBits(a) + MessageBits(b)
    decreases |a|
  {
    if a == [] {
      assert a + b == b;
    } else {
      assert (a + b)[0] == a[0] && (a + b)[1..] == a[1..] + b;
      MessageConcat(a[1..], b);
    }
  }

  lemma MessageSnoc(data: seq<bv8>, b: bv8)
    ensures MessageBits(data + [b]) == MessageBits(data) + Bits8(b)
  {
    MessageConcat(data, [b]);
    OneByte(b);
  }

  lemma OneByte(b: bv8)
    ensures MessageBits([b]) == Bits8(b)
  {
    assert [b][1..] == [];
  }

  // ------------------------------------------------------------ words are their bits

  lemma LostNothing(d: bv16)
    requires !Top(d) && d << 1 == 0
    ensures d == 0
  {
  }

  lemma {:induction false} ZeroBits(d: bv16, n: nat)
    requires TopBits(d, n) == Zeros(n) && Shifted(d, n) == 0
    ensures d == 0
    decreases n
  {
    if n > 0 {
      assert TopBits(d, n)[0] == Top(d);
      assert TopBits(d, n)[1..] == TopBits(d << 1, n - 1) == Zeros(n - 1);
      ZeroBits(d << 1, n - 1);
      LostNothing(d);
    }
  }

  lemma XorIsZero(a: bv16, b: bv16)
    requires a ^ b == 0
    ensures a == b
  {
  }

  lemma Bits16Injective(a: bv16, b: bv16)
    requires Bits16(a) == Bits16(b)
    ensures a == b
  {
    hide TopBits;
    TopBitsXor(a, b, a ^ b, 16);
    XorZero(Bits16(a), Bits16(b));
    ShiftedAway(a ^ b);
    ZeroBits(a ^ b, 16);
    XorIsZero(a, b);
  }

  lemma ShiftedAway(x: bv16)
    ensures Shifted(x, 16) == 0
  {
    ShiftedOut(x);
    assert Shifted(x, 16) == Shifted(x << 1, 15);
  }

  lemma Bits8Injective(a: bv8, b: bv8)
    requires Bits8(a) == Bits8(b)
    ensures a == b
  {
    var x, y := (a as bv16) << 8, (b as bv16) << 8;
    FirstByte(x, a);
    FirstByte(y, b);
    Bits16Injective(x, y);
    BytesShifted(a, b);
  }

  lemma FirstByte(x: bv16, a: bv8)
    requires x == (a as bv16) << 8
    ensures Bits16(x) == Bits8(a) + Zeros(8)
  {
    SplitBytes(a as bv16);
  }

  lemma BytesShifted(a: bv8, b: bv8)
    requires (a as bv16) << 8 == (b as bv16) << 8
    ensures a == b
  {
  }

  lemma {:induction false} MessageInjective(a: seq<bv8>, b: seq<bv8>)
    requires |a| == |b| && MessageBits(a) == MessageBits(b)
    ensures a == b
    decreases |a|
  {
    if a != [] {
      assert MessageBits(a)[..8] == Bits8(a[0]) && MessageBits(b)[..8] == Bits8(b[0]);
      assert MessageBits(a)[8..] == MessageBits(a[1..]) && MessageBits(b)[8..] == MessageBits(b[1..]);
      Bits8Injective(a[0], b[0]);
      MessageInjective(a[1..], b[1..]);
    }
  }

  // ------------------------------------------------------------ what the checksum promises

  /** The checksum is the remainder of the message, times x^16, by the whole polynomial; no other word is. */
  lemma ChecksumIsRemainder(start: bv16, data: seq<bv8>, c: bv16)
    ensures IsTable(TABLE)
    ensures c == Checksum(TABLE, start, data)
       <==> exists q :: IsRemainder(Generator(), Bits16(start), MessageBits(data), q, Bits16(c))
  {
    TableIsDoubling();
    ChecksumDivides(TABLE, start, data);
    RunIsTheRemainder(Generator(), Bits16(start), MessageBits(data), Bits16(c));
    if Bits16(c) == Bits16(Checksum(TABLE, start, data)) {
      Bits16Injective(c, Checksum(TABLE, start, data));
    }
  }

  lemma {:induction false} ChecksumConcat(table: seq<seq<bv16>>, start: bv16, a: seq<bv8>, b: seq<bv8>)
    requires IsTable(table)
    ensures Checksum(table, start, a + b) == Checksum(table, Checksum(table, start, a), b)
    decreases |b|
  {
    if b == [] {
      assert a + b == a;
    } else {
      var n := |b| - 1;
      var ab := a + b;
      assert ab[..|ab| - 1] == a + b[..n] && ab[|ab| - 1] == b[n];
      ChecksumConcat(table, start, a, b[..n]);
    }
  }

  function BigEndian16(c: bv16): (r: seq<bv8>)
    ensures |r| == 2
  {
    [(c >> 8) as bv8, (c & 0xff) as bv8]
  }

  lemma EqualRuns(start: bv16, a: seq<bv8>, b: seq<bv8>)
    ensures IsTable(TABLE)
    ensures Checksum(TABLE, start, a) == Checksum(TABLE, start, b)
       <==> Run(Generator(), Bits16(start), MessageBits(a)) == Run(Generator(), Bits16(start), MessageBits(b))
  {
    hide TopBits, Run;
    TableIsDoubling();
    ChecksumDivides(TABLE, start, a);
    ChecksumDivides(TABLE, start, b);
    if Bits16(Checksum(TABLE, start, a)) == Bits16(Checksum(TABLE, start, b)) {
      Bits16Injective(Checksum(TABLE, start, a), Checksum(TABLE, start, b));
    }
  }

  lemma GeneratorIsOdd()
    ensures Generator()[15]
  {
    SplitBytes(POLYNOMIAL);
    LastOfEight(POLYNOMIAL << 8);
    assert Top((POLYNOMIAL << 8) << 7);
  }

  /** Buffers that differ only inside a window of 16 bits, at any bit position, have different checksums. */
  lemma BurstDetected(start: bv16, a: seq<bv8>, b: seq<bv8>, at: nat)
    requires a != b && |a| == |b| && AgreeOutside(MessageBits(a), MessageBits(b), at, 16)
    ensures IsTable(TABLE) && Checksum(TABLE, start, a) != Checksum(TABLE, start, b)
  {
    hide TopBits, Run;
    EqualRuns(start, a, b);
    GeneratorIsOdd();
    if MessageBits(a) == MessageBits(b) {
      MessageInjective(a, b);
    }
    BurstChangesRun(Generator(), Bits16(start), MessageBits(a), MessageBits(b), at);
  }

  lemma HighByteBits(c: bv16)
    ensures Bits8((c >> 8) as bv8) == TopBits(c, 8)
  {
    hide TopBits;
    HighByteWord(c);
    ByteRoom();
    SameTop(c & 0xff00, c, c & 0xff, 0xff, 8);
  }

  lemma HighByteWord(c: bv16)
    ensures (((c >> 8) as bv8) as bv16) << 8 == c & 0xff00 == c ^ (c & 0xff) && c & 0xff <= 0xff
  {
  }

  lemma LowByteWord(c: bv16)
    ensures (((c & 0xff) as bv8) as bv16) << 8 == c << 8
  {
  }

  lemma BigEndianBits(c: bv16)
    ensures MessageBits(BigEndian16(c)) == Bits16(c)
  {
    hide TopBits;
    HighByteBits(c);
    LowByteWord(c);
    SplitBytes(c);
    var bytes := BigEndian16(c);
    assert bytes[1..] == [bytes[1]];
    OneByte(bytes[1]);
  }

  lemma ZeroWord(c: bv16)
    requires Bits16(c) == Zeros(16)
    ensures c == 0
  {
    TopBitsOfZero(16);
    Bits16Injective(c, 0);
  }

  /** A word that takes in its own bytes becomes zero. */
  lemma OwnBytesCancel(c: bv16)
    ensures IsTable(TABLE) && Checksum(TABLE, c, BigEndian16(c)) == 0
  {
    hide TopBits, Run;
    TableIsDoubling();
    ChecksumDivides(TABLE, c, BigEndian16(c));
    BigEndianBits(c);
    RunCancels(Generator(), Bits16(c));
    assert Bits16(c) + Zeros(0) == Bits16(c);
    ZeroWord(Checksum(TABLE, c, BigEndian16(c)));
  }

  /** Data followed by two bytes checks to zero exactly when the two bytes are its checksum, high byte first. */
  lemma GuardChecks(start: bv16, data: seq<bv8>, guard: seq<bv8>)
    requires |guard| == 2
    ensures IsTable(TABLE)
    ensures Checksum(TABLE, start, data + guard) == 0 <==> guard == BigEndian16(Checksum(TABLE, start, data))
  {
    TableShape();
    var c := Checksum(TABLE, start, data);
    var right := BigEndian16(c);
    ChecksumConcat(TABLE, start, data, right);
    OwnBytesCancel(c);
    if guard != right {
      GuardWindow(data, guard, right);
      assert (data + guard)[|data|..] == guard && (data + right)[|data|..] == right;
      BurstDetected(start, data + guard, data + right, 8 * |data|);
    }
  }

  lemma GuardWindow(data: seq<bv8>, g: seq<bv8>, h: seq<bv8>)
    requires |g| == |h| == 2
    ensures AgreeOutside(MessageBits(data + g), MessageBits(data + h), 8 * |data|, 16)
  {
    hide MessageBits;
    MessageConcat(data, g);
    MessageConcat(data, h);
    SuffixWindow(MessageBits(data), MessageBits(g), MessageBits(h));
  }

  /** Exactly the multiples of the polynomial go unseen: the other differences, of any width, change the checksum. */
  lemma UnseenExactly(start: bv16, a: seq<bv8>, b: seq<bv8>)
    requires |a| == |b|
    ensures IsTable(TABLE)
    ensures Checksum(TABLE, start, a) == Checksum(TABLE, start, b)
       <==> a == b || exists q :: |q| + 16 == 8 * |a| && Times(Generator(), q) == Xor(MessageBits(a), MessageBits(b))
  {
    hide TopBits, Run, Times;
    EqualRuns(start, a, b);
    GeneratorIsOdd();
    MultiplesGoUnseen(Generator(), Bits16(start), MessageBits(a), MessageBits(b));
    if MessageBits(a) == MessageBits(b) {
      MessageInjective(a, b);
    }
  }

  const UNSEEN: seq<bv8> := [0x01, 0x8B, 0xB7]

  /** A window of 17 bits is too wide: these two buffers differ, and check alike. */
  lemma WiderBurstMissed()
    ensures IsTable(TABLE) && Checksum(TABLE, 0, UNSEEN) == Checksum(TABLE, 0, [0, 0, 0])
    ensures AgreeOutside(MessageBits(UNSEEN), MessageBits([0, 0, 0]), 7, 17)
  {
    hide Run, TopBits;
    var z: seq<bv8> := [0, 0, 0];
    UnseenBits();
    ZeroMessage(3, z);
    EqualRuns(0, UNSEEN, z);
    TopBitsOfZero(16);
    RunZeros(Generator(), 24);
    RunZeros(Generator(), 7);
    GeneratorRunsToZero(Generator());
    RunConcat(Generator(), Zeros(16), Zeros(7), [true] + Generator());
  }

  lemma {:induction false} ZeroMessage(n: nat, z: seq<bv8>)
    requires |z| == n && forall i :: 0 <= i < n ==> z[i] == 0
    ensures MessageBits(z) == Zeros(8 * n)
    decreases n
  {
    if n > 0 {
      ZeroMessage(n - 1, z[1..]);
      assert (0 as bv16) << 8 == 0;
      TopBitsOfZero(8);
    }
  }

  lemma UnseenBits()
    ensures MessageBits(UNSEEN) == Zeros(7) + ([true] + Generator())
  {
    hide TopBits;
    assert UNSEEN == [0x01] + BigEndian16(POLYNOMIAL);
    MessageConcat([0x01], BigEndian16(POLYNOMIAL));
    BigEndianBits(POLYNOMIAL);
    OneByte(0x01);
    LastOfEight(0x0100);
    ByteRoom();
    SmallTop(0x0100, 0x1ff, 7);
    assert ((0x01 as bv8) as bv16) << 8 == 0x0100 && Top((0x0100 as bv16) << 7);
  }

  // ------------------------------------------------------------ the protection tuple

  function BigEndian32(x: bv32): (r: seq<bv8>)
    ensures |r| == 4
  {
    [(x >> 24) as bv8, ((x >> 16) & 0xff) as bv8, ((x >> 8) & 0xff) as bv8, (x & 0xff) as bv8]
  }

  /** Guard, application and reference tags, each in network byte order. */
  function Tuple(csum: bv16, tag: bv16, sector: bv32): (t: seq<bv8>)
    ensures |t| == 8
  {
    BigEndian16(csum) + BigEndian16(tag) + BigEndian32(sector)
  }

  /** Read most significant byte first, the fields come back. */
  lemma TupleFields(csum: bv16, tag: bv16, sector: bv32)
    ensures var t := Tuple(csum, tag, sector);
      && FromBytes16(t[0], t[1]) == csum
      && FromBytes16(t[2], t[3]) == tag
      && FromBytes32(t[4], t[5], t[6], t[7]) == sector
  {
    hide FromBytes16, FromBytes32;
    FromBigEndian16(csum);
    FromBigEndian16(tag);
    FromBigEndian32(sector);
  }

  function FromBytes16(high: bv8, low: bv8): bv16 {
    ((high as bv16) << 8) | (low as bv16)
  }

  function FromBytes32(a: bv8, b: bv8, c: bv8, d: bv8): bv32 {
    ((a as bv32) << 24) | ((b as bv32) << 16) | ((c as bv32) << 8) | (d as bv32)
  }

  lemma FromBigEndian16(x: bv16)
    ensures FromBytes16(BigEndian16(x)[0], BigEndian16(x)[1]) == x
  {
  }

  lemma FromBigEndian32(x: bv32)
    ensures var r := BigEndian32(x); FromBytes32(r[0], r[1], r[2], r[3]) == x
  {
  }

  /** Writes the tuple at `at`, and nothing else. */
  method StampPiBuffer(pi: array<bv8>, at: nat, csum: bv16, tag: bv16, sector: bv32)
    requires at + 8 <= pi.Length
    modifies pi
    ensures pi[at..at + 8] == Tuple(csum, tag, sector)
    ensures pi[..at] == old(pi[..at]) && pi[at + 8..] == old(pi[at + 8..])
  {
    hide BigEndian16, BigEndian32;
    ghost var before := pi[..];
    Store(pi, at, BigEndian16(csum));
    ghost var one := pi[..];
    Store(pi, at + 2, BigEndian16(tag));
    ghost var two := pi[..];
    Store(pi, at + 4, BigEndian32(sector));
    TupleStored(before, one, two, pi[..], at, BigEndian16(csum), BigEndian16(tag), BigEndian32(sector));
  }

  method Store(t: array<bv8>, at: nat, bytes: seq<bv8>)
    requires at + |bytes| <= t.Length
    modifies t
    ensures Stored(old(t[..]), t[..], at, bytes)
  {
    forall i | 0 <= i < |bytes| {
      t[at + i] := bytes[i];
    }
  }

  ghost predicate Stored(before: seq<bv8>, after: seq<bv8>, at: nat, bytes: seq<bv8>) {
    |after| == |before| && at + |bytes| <= |before|
    && after[..at] == before[..at] && after[at..at + |bytes|] == bytes && after[at + |bytes|..] == before[at + |bytes|..]
  }

  lemma TupleStored(a: seq<bv8>, b: seq<bv8>, c: seq<bv8>, d: seq<bv8>, at: nat, guard: seq<bv8>, tag: seq<bv8>, number: seq<bv8>)
    requires |guard| == |tag| == 2 && |number| == 4
    requires Stored(a, b, at, guard) && Stored(b, c, at + 2, tag) && Stored(c, d, at + 4, number)
    ensures d[at..at + 8] == guard + tag + number && d[..at] == a[..at] && d[at + 8..] == a[at + 8..]
  {
    forall i | 0 <= i < |a|
      ensures d[i] == if i < at || i >= at + 8 then a[i] else (guard + tag + number)[i - at]
    {
      if i < at + 4 {
        assert d[i] == d[..at + 4][i] == c[..at + 4][i] == c[i];
        if i < at + 2 {
          assert c[i] == c[..at + 2][i] == b[..at + 2][i] == b[i];
          if i < at {
            assert b[i] == b[..at][i] == a[..at][i];
          } else {
            assert b[i] == b[at..at + 2][i - at];
          }
        } else {
          assert c[i] == c[at + 2..at + 4][i - at - 2];
        }
      } else if i < at + 8 {
        assert d[i] == d[at + 4..at + 8][i - at - 4];
      } else {
        assert d[i] == d[at + 8..][i - at - 8] == c[at + 8..][i - at - 8] == c[i];
        assert c[i] == c[at + 4..][i - at - 4] == b[at + 4..][i - at - 4] == b[i];
        assert b[i] == b[at + 2..][i - at - 2] == a[at + 2..][i - at - 2];
      }
    }
  }

  // ------------------------------------------------------------ all sectors

  const GENERATE_GUARD: bv8 := 1
  const GENERATE_REF: bv8 := 2
  const GENERATE_APP: bv8 := 4

  /** The device is to fill the field in. */
  predicate Generates(flags: bv8, field: bv8) {
    flags & field != 0
  }

  /** The number of sector i, which wraps. */
  function NumberAt(first: bv32, i: nat): bv32 {
    if i == 0 then first else NumberAt(first, i - 1) + 1
  }

  function GuardOf(flags: bv8, sector: seq<bv8>): bv16 {
    TableShape();
    if Generates(flags, GENERATE_GUARD) then 0 else Checksum(TABLE, 0, sector)
  }

  /** What is written for one sector. */
  function TupleOf(flags: bv8, sector: seq<bv8>, app: bv16, number: bv32): (t: seq<bv8>)
    ensures |t| == 8
  {
    Tuple(GuardOf(flags, sector), if Generates(flags, GENERATE_APP) then 0 else app,
          if Generates(flags, GENERATE_REF) then 0 else number)
  }

  /** A field the device is to fill in is left zero: bit 0 of the flags is the guard, bit 1 the sector number, bit 2 the
      application tag. */
  lemma TupleOfFields(flags: bv8, sector: seq<bv8>, app: bv16, number: bv32)
    ensures IsTable(TABLE)
    ensures var t := TupleOf(flags, sector, app, number);
      && FromBytes16(t[0], t[1]) == (if flags & 1 != 0 then 0 else Checksum(TABLE, 0, sector))
      && FromBytes16(t[2], t[3]) == (if flags & 4 != 0 then 0 else app)
      && FromBytes32(t[4], t[5], t[6], t[7]) == (if flags & 2 != 0 then 0 else number)
  {
    hide Tuple, Checksum, FromBytes16, FromBytes32;
    TableShape();
    TupleFields(GuardOf(flags, sector), if Generates(flags, GENERATE_APP) then 0 else app,
                if Generates(flags, GENERATE_REF) then 0 else number);
  }

  /** Where block i of the given size starts, in a buffer of n of them. */
  lemma BlockStart(i: nat, n: nat, size: nat)
    requires i < n
    ensures 0 <= i * size <= i * size + size == (i + 1) * size <= n * size
  {
    assert (n - i - 1) * size >= 0;
    assert n * size == i * size + size + (n - i - 1) * size;
  }

  /** The first n tuples are those of the first n sectors. */
  ghost predicate StampedUpTo(buf: seq<bv8>, pi: seq<bv8>, size: nat, flags: bv8, app: bv16, first: bv32, n: nat)
    requires n * size <= |buf| && 8 * n <= |pi|
  {
    forall i :: 0 <= i < n ==> StampedAt(buf, pi, size, flags, app, first, n, i)
  }

  ghost predicate StampedAt(buf: seq<bv8>, pi: seq<bv8>, size: nat, flags: bv8, app: bv16, first: bv32, n: nat, i: nat)
    requires i < n && n * size <= |buf| && 8 * n <= |pi|
  {
    BlockStart(i, n, size);
    pi[8 * i..8 * i + 8] == TupleOf(flags, buf[i * size..i * size + size], app, NumberAt(first, i))
  }

  /** Stamps n sectors one after the other. */
  method StampSectors(buf: array<bv8>, pi: array<bv8>, n: nat, size: nat, flags: bv8, app: bv16, first: bv32)
    requires buf != pi && buf.Length == n * size && pi.Length == 8 * n
    modifies pi
    ensures StampedUpTo(buf[..], pi[..], size, flags, app, first, n)
  {
    hide StampedAt, TupleOf;
    var number := first;
    for i := 0 to n
      invariant 0 <= i * size <= buf.Length && number == NumberAt(first, i)
      invariant StampedUpTo(buf[..], pi[..], size, flags, app, first, i)
    {
      BlockStart(i, n, size);
      ghost var before := pi[..];
      StampOne(buf, pi, i, size, flags, app, number);
      StampedNext(buf[..], before, pi[..], size, flags, app, first, i);
      number := number + 1;
    }
  }

  method StampOne(buf: array<bv8>, pi: array<bv8>, i: nat, size: nat, flags: bv8, app: bv16, number: bv32)
    requires buf != pi && 0 <= i * size <= i * size + size <= buf.Length && 8 * i + 8 <= pi.Length
    modifies pi
    ensures pi[..][8 * i..8 * i + 8] == TupleOf(flags, buf[..][i * size..i * size + size], app, number)
    ensures pi[..][..8 * i] == old(pi[..])[..8 * i]
  {
    hide Tuple, Checksum, Generates, Run, MessageBits, Bits16;
    var at := i * size;
    var guard := 0;
    if !Generates(flags, GENERATE_GUARD) {
      guard := CrcT10Dif(0, buf, at, size);
    }
    assert buf[..][at..at + size] == buf[at..at + size];
    StampPiBuffer(pi, 8 * i, guard, if Generates(flags, GENERATE_APP) then 0 else app,
                  if Generates(flags, GENERATE_REF) then 0 else number);
    assert pi[..][8 * i..8 * i + 8] == pi[8 * i..8 * i + 8] && pi[..][..8 * i] == pi[..8 * i];
  }

  lemma StampedNext(buf: seq<bv8>, before: seq<bv8>, after: seq<bv8>, size: nat, flags: bv8, app: bv16, first: bv32, n: nat)
    requires n * size <= (n + 1) * size == n * size + size <= |buf| && 8 * n + 8 <= |before| == |after|
    requires StampedUpTo(buf, before, size, flags, app, first, n) && after[..8 * n] == before[..8 * n]
    requires after[8 * n..8 * n + 8] == TupleOf(flags, buf[n * size..n * size + size], app, NumberAt(first, n))
    ensures StampedUpTo(buf, after, size, flags, app, first, n + 1)
  {
    hide TupleOf, NumberAt;
    var m := n + 1;
    forall i | 0 <= i < m
      ensures StampedAt(buf, after, size, flags, app, first, m, i)
    {
      if i < n {
        assert StampedAt(buf, before, size, flags, app, first, n, i);
        assert after[8 * i..8 * i + 8] == after[..8 * n][8 * i..8 * i + 8] == before[..8 * n][8 * i..8 * i + 8];
      }
    }
  }

  /**
   * A sector followed by its stored guard checks to zero, unless the device is to fill the guard in and the sector's
   * checksum is not zero already.
   */
  lemma StampedChecks(flags: bv8, sector: seq<bv8>, app: bv16, number: bv32)
    ensures IsTable(TABLE)
    ensures Checksum(TABLE, 0, sector + TupleOf(flags, sector, app, number)[..2]) == 0
       <==> !Generates(flags, GENERATE_GUARD) || Checksum(TABLE, 0, sector) == 0
  {
    hide Checksum, BigEndian16, BigEndian32, Generates;
    TableShape();
    var guard := GuardOf(flags, sector);
    assert TupleOf(flags, sector, app, number)[..2] == BigEndian16(guard);
    GuardChecks(0, sector, BigEndian16(guard));
    if BigEndian16(guard) == BigEndian16(Checksum(TABLE, 0, sector)) {
      BigEndianInjective(guard, Checksum(TABLE, 0, sector));
    }
  }

  lemma BigEndianInjective(a: bv16, b: bv16)
    requires BigEndian16(a) == BigEndian16(b)
    ensures a == b
  {
    hide TopBits;
    BigEndianBits(a);
    BigEndianBits(b);
    Bits16Injective(a, b);
  }
}
