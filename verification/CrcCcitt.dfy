/**
  The table-driven CRC of ACE/ace/ACE_crc_ccitt.cpp, related to long division by the generator of
  Appendix C.2 of RFC 1662.
 */
module CrcCcitt {
  import opened Gf2
  import opened Octets

  type Word = bv16

  /** The lookup table, eight entries a row as in the source. */
  const CRC_TABLE: seq<seq<Word>> := [
    [0x0000, 0x1189, 0x2312, 0x329B, 0x4624, 0x57AD, 0x6536, 0x74BF],
    [0x8C48, 0x9DC1, 0xAF5A, 0xBED3, 0xCA6C, 0xDBE5, 0xE97E, 0xF8F7],
    [0x1081, 0x0108, 0x3393, 0x221A, 0x56A5, 0x472C, 0x75B7, 0x643E],
    [0x9CC9, 0x8D40, 0xBFDB, 0xAE52, 0xDAED, 0xCB64, 0xF9FF, 0xE876],
    [0x2102, 0x308B, 0x0210, 0x1399, 0x6726, 0x76AF, 0x4434, 0x55BD],
    [0xAD4A, 0xBCC3, 0x8E58, 0x9FD1, 0xEB6E, 0xFAE7, 0xC87C, 0xD9F5],
    [0x3183, 0x200A, 0x1291, 0x0318, 0x77A7, 0x662E, 0x54B5, 0x453C],
    [0xBDCB, 0xAC42, 0x9ED9, 0x8F50, 0xFBEF, 0xEA66, 0xD8FD, 0xC974],
    [0x4204, 0x538D, 0x6116, 0x709F, 0x0420, 0x15A9, 0x2732, 0x36BB],
    [0xCE4C, 0xDFC5, 0xED5E, 0xFCD7, 0x8868, 0x99E1, 0xAB7A, 0xBAF3],
    [0x5285, 0x430C, 0x7197, 0x601E, 0x14A1, 0x0528, 0x37B3, 0x263A],
    [0xDECD, 0xCF44, 0xFDDF, 0xEC56, 0x98E9, 0x8960, 0xBBFB, 0xAA72],
    [0x6306, 0x728F, 0x4014, 0x519D, 0x2522, 0x34AB, 0x0630, 0x17B9],
    [0xEF4E, 0xFEC7, 0xCC5C, 0xDDD5, 0xA96A, 0xB8E3, 0x8A78, 0x9BF1],
    [0x7387, 0x620E, 0x5095, 0x411C, 0x35A3, 0x242A, 0x16B1, 0x0738],
    [0xFFCF, 0xEE46, 0xDCDD, 0xCD54, 0xB9EB, 0xA862, 0x9AF9, 0x8B70],
    [0x8408, 0x9581, 0xA71A, 0xB693, 0xC22C, 0xD3A5, 0xE13E, 0xF0B7],
    [0x0840, 0x19C9, 0x2B52, 0x3ADB, 0x4E64, 0x5FED, 0x6D76, 0x7CFF],
    [0x9489, 0x8500, 0xB79B, 0xA612, 0xD2AD, 0xC324, 0xF1BF, 0xE036],
    [0x18C1, 0x0948, 0x3BD3, 0x2A5A, 0x5EE5, 0x4F6C, 0x7DF7, 0x6C7E],
    [0xA50A, 0xB483, 0x8618, 0x9791, 0xE32E, 0xF2A7, 0xC03C, 0xD1B5],
    [0x2942, 0x38CB, 0x0A50, 0x1BD9, 0x6F66, 0x7EEF, 0x4C74, 0x5DFD],
    [0xB58B, 0xA402, 0x9699, 0x8710, 0xF3AF, 0xE226, 0xD0BD, 0xC134],
    [0x39C3, 0x284A, 0x1AD1, 0x0B58, 0x7FE7, 0x6E6E, 0x5CF5, 0x4D7C],
    [0xC60C, 0xD785, 0xE51E, 0xF497, 0x8028, 0x91A1, 0xA33A, 0xB2B3],
    [0x4A44, 0x5BCD, 0x6956, 0x78DF, 0x0C60, 0x1DE9, 0x2F72, 0x3EFB],
    [0xD68D, 0xC704, 0xF59F, 0xE416, 0x90A9, 0x8120, 0xB3BB, 0xA232],
    [0x5AC5, 0x4B4C, 0x79D7, 0x685E, 0x1CE1, 0x0D68, 0x3FF3, 0x2E7A],
    [0xE70E, 0xF687, 0xC41C, 0xD595, 0xA12A, 0xB0A3, 0x8238, 0x93B1],
    [0x6B46, 0x7ACF, 0x4854, 0x59DD, 0x2D62, 0x3CEB, 0x0E70, 0x1FF9],
    [0xF78F, 0xE606, 0xD49D, 0xC514, 0xB1AB, 0xA022, 0x92B9, 0x8330],
    [0x7BC7, 0x6A4E, 0x58D5, 0x495C, 0x3DE3, 0x2C6A, 0x1EF1, 0x0F78]
  ]

  /** x^16 + x^12 + x^5 + 1 */
  const GENERATOR := Generator(16, {16, 12, 5, 0})

  /** `char` promoted for the exclusive or: sign-extended or not, as the platform has it. */
  function Promote(ch: Byte, signedChar: bool): Word {
    if signedChar && ch & 0x80 != 0 then 0xFF00 | ch as Word else ch as Word
  }

  function Lookup(index: Byte): Word {
    var row, column := index >> 3, index & 7;
    CRC_TABLE[row as int][column as int]
  }

  /** COMPUTE */
  function Compute(crc: Word, ch: Byte, signedChar: bool): Word {
    Lookup(((crc ^ Promote(ch, signedChar)) & 0xFF) as Byte) ^ (crc >> 8)
  }

  // ----- The register as a polynomial

  predicate Bit(c: Word, i: bv4) {
    (c >> i) & 1 == 1
  }

  /** The register is reflected: exponent e sits at bit 15 - e. */
  function Place(e: nat): (i: bv4)
    requires e < 16
    ensures i as int == 15 - e
  {
    (15 - e) as bv4
  }

  function Reg(c: Word): Poly {
    set e: nat | e < 16 && Bit(c, Place(e))
  }

  lemma Same(i: bv4, j: bv4)
    requires i as int == j as int
    ensures i == j
  {}

  lemma Next(i: bv4, j: bv4)
    requires i as int == j as int + 1
    ensures j != 15 && j + 1 == i
  {}

  lemma Eighth(i: bv4, j: bv4)
    requires i as int == j as int + 8
    ensures j < 8 && j + 8 == i
  {}

  lemma BitXor(x: Word, y: Word, i: bv4)
    ensures Bit(x ^ y, i) == (Bit(x, i) != Bit(y, i))
  {}

  lemma BitShift(x: Word, i: bv4)
    ensures i == 15 ==> !Bit(x >> 1, i)
    ensures i != 15 ==> Bit(x >> 1, i) == Bit(x, i + 1)
  {}

  lemma BitShift8(x: Word, i: bv4)
    ensures i >= 8 ==> !Bit(x >> 8, i)
    ensures i < 8 ==> Bit(x >> 8, i) == Bit(x, i + 8)
  {}

  lemma BitLow(x: Word, i: bv4)
    ensures Bit(x & 0xFF, i) == (i < 8 && Bit(x, i))
  {}

  /** Exclusive or, named so that the solver does not flatten nested ones. */
  function Xored(x: Word, y: Word): Word {
    x ^ y
  }

  lemma RegXor(x: Word, y: Word)
    ensures Reg(Xored(x, y)) == Add(Reg(x), Reg(y))
  {
    forall e: nat | e < 16 ensures e in Reg(Xored(x, y)) <==> (e in Reg(x)) != (e in Reg(y)) {
      BitXor(x, y, Place(e));
    }
  }

  lemma ShiftAt(c: Word, e: nat)
    ensures e in Reg(c >> 1) <==> 0 < e < 16 && e - 1 in Reg(c)
  {
    if e == 0 {
      Same(Place(0), 15);
      BitShift(c, 15);
    } else if e < 16 {
      Next(Place(e - 1), Place(e));
      BitShift(c, Place(e));
    }
  }

  lemma RegShift(c: Word)
    ensures Reg(c >> 1) == TimesX(Reg(c)) - {16}
  {
    hide *;
    forall e: nat ensures e in Reg(c >> 1) <==> e in TimesX(Reg(c)) - {16} {
      ShiftAt(c, e);
      InTimesX(Reg(c), e);
      RegBelow(c);
    }
  }

  lemma Shift8At(c: Word, e: nat)
    ensures e in Reg(c >> 8) <==> 8 <= e < 16 && e - 8 in Reg(c)
  {
    if 8 <= e < 16 {
      Eighth(Place(e - 8), Place(e));
      BitShift8(c, Place(e));
    } else if e < 8 {
      BitShift8(c, Place(e));
    }
  }

  lemma RegShift8(c: Word)
    ensures Reg(c >> 8) == Up(set e | e in Reg(c) && e < 8, 8)
  {
    var low := set e | e in Reg(c) && e < 8;
    forall e: nat ensures e in Reg(c >> 8) <==> e in Up(low, 8) {
      Shift8At(c, e);
      hide Reg;
      assert e in Up(low, 8) <==> 8 <= e && e - 8 in low by {
        if 8 <= e && e - 8 in low { assert e == (e - 8) + 8; }
      }
    }
  }

  lemma RegLow(c: Word)
    ensures Reg(c & 0xFF) == set e | e in Reg(c) && 8 <= e
  {
    forall e: nat | e < 16 ensures e in Reg(c & 0xFF) <==> e in Reg(c) && 8 <= e {
      BitLow(c, Place(e));
    }
  }

  // ----- One shift step is one division step

  /** The bit-serial register: the bit falling out selects the reflected polynomial. */
  function ShiftBit(c: Word): Word {
    if c & 1 == 1 then Xored(c >> 1, 0x8408) else c >> 1
  }

  lemma RegPolynomial()
    ensures Reg(0x8408) == GENERATOR.taps - {16}
  {}

  lemma RegBelow(c: Word)
    ensures Below(Reg(c), 16) && GENERATOR.Valid() && GENERATOR.width == 16
  {}

  lemma LastAt(c: Word)
    ensures 15 in Reg(c) <==> c & 1 == 1
  {
    Same(Place(15), 0);
  }

  lemma RegShiftBit(c: Word)
    ensures Reg(ShiftBit(c)) == GENERATOR.Step(Reg(c), false)
  {
    LastAt(c);
    RegShift(c);
    RegBelow(c);
    StepReduced(GENERATOR, Reg(c));
    if c & 1 == 1 {
      RegXor(c >> 1, 0x8408);
      RegPolynomial();
    } else {
      assert Add(Reg(c >> 1), {}) == Reg(c >> 1);
    }
  }

  /** n shift steps. */
  function Shift(c: Word, n: nat): Word
    decreases n
  {
    if n == 0 then c else ShiftBit(Shift(c, n - 1))
  }

  lemma {:induction false} RegShifts(c: Word, n: nat)
    ensures Reg(Shift(c, n)) == GENERATOR.Divide(Reg(c), ZeroBits(n))
    decreases n
  {
    if n > 0 {
      RegShifts(c, n - 1);
      RegShiftBit(Shift(c, n - 1));
      assert ZeroBits(n)[..n - 1] == ZeroBits(n - 1);
    }
    hide ShiftBit, Reg;
  }

  // ----- Every table entry is eight shift steps of its index

  function Pick(b: bool, x: Word): Word {
    if b then x else 0
  }

  function Xored3(x: Word, y: Word, z: Word): Word {
    Xored(Xored(x, y), z)
  }

  function RowSeed(row: Byte): Word {
    Xored3(Xored3(Pick(row & 1 != 0, 0x8C48), Pick(row & 2 != 0, 0x1081), Pick(row & 4 != 0, 0x2102)),
           Pick(row & 8 != 0, 0x4204), Pick(row & 16 != 0, 0x8408))
  }

  function ColumnSeed(column: Byte): Word {
    Xored3(Pick(column & 1 != 0, 0x1189), Pick(column & 2 != 0, 0x2312), Pick(column & 4 != 0, 0x4624))
  }

  function RowFrom(x: Word): seq<Word> {
    [x ^ 0x0000, x ^ 0x1189, x ^ 0x2312, x ^ 0x329B, x ^ 0x4624, x ^ 0x57AD, x ^ 0x6536, x ^ 0x74BF]
  }

  lemma Rows0(row: Byte)
    requires row < 2
    ensures CRC_TABLE[row as int] == RowFrom(RowSeed(row))
  {}

  lemma Rows2(row: Byte)
    requires 2 <= row < 4
    ensures CRC_TABLE[row as int] == RowFrom(RowSeed(row))
  {}

  lemma Rows4(row: Byte)
    requires 4 <= row < 6
    ensures CRC_TABLE[row as int] == RowFrom(RowSeed(row))
  {}

  lemma Rows6(row: Byte)
    requires 6 <= row < 8
    ensures CRC_TABLE[row as int] == RowFrom(RowSeed(row))
  {}

  lemma Rows8(row: Byte)
    requires 8 <= row < 10
    ensures CRC_TABLE[row as int] == RowFrom(RowSeed(row))
  {}

  lemma Rows10(row: Byte)
    requires 10 <= row < 12
    ensures CRC_TABLE[row as int] == RowFrom(RowSeed(row))
  {}

  lemma Rows12(row: Byte)
    requires 12 <= row < 16
    ensures CRC_TABLE[row as int] == RowFrom(RowSeed(row))
  {}

  lemma Rows16(row: Byte)
    requires 16 <= row < 20
    ensures CRC_TABLE[row as int] == RowFrom(RowSeed(row))
  {}

  lemma Rows20(row: Byte)
    requires 20 <= row < 24
    ensures CRC_TABLE[row as int] == RowFrom(RowSeed(row))
  {}

  lemma Rows24(row: Byte)
    requires 24 <= row < 28
    ensures CRC_TABLE[row as int] == RowFrom(RowSeed(row))
  {}

  lemma Rows28(row: Byte)
    requires 28 <= row < 32
    ensures CRC_TABLE[row as int] == RowFrom(RowSeed(row))
  {}

  lemma Columns(x: Word, column: Byte)
    requires column < 8
    ensures RowFrom(x)[column as int] == Xored(x, ColumnSeed(column))
  {
    if column == 0 {} else if column == 1 {} else if column == 2 {} else if column == 3 {}
    else if column == 4 {} else if column == 5 {} else if column == 6 {}
  }

  lemma LookupSeeds(index: Byte)
    ensures Lookup(index) == Xored(RowSeed(index >> 3), ColumnSeed(index & 7))
  {
    var row := index >> 3;
    if row < 2 { Rows0(row); } else if row < 4 { Rows2(row); } else if row < 6 { Rows4(row); }
    else if row < 8 { Rows6(row); } else if row < 10 { Rows8(row); } else if row < 12 { Rows10(row); }
    else if row < 16 { Rows12(row); } else if row < 20 { Rows16(row); } else if row < 24 { Rows20(row); }
    else if row < 28 { Rows24(row); } else { Rows28(row); }
    Columns(RowSeed(row), index & 7);
    hide RowSeed, RowFrom, ColumnSeed;
  }

  lemma Basis()
    ensures Shift(1, 8) == 0x1189 && Shift(2, 8) == 0x2312 && Shift(4, 8) == 0x4624
    ensures Shift(8, 8) == 0x8C48 && Shift(16, 8) == 0x1081 && Shift(32, 8) == 0x2102
    ensures Shift(64, 8) == 0x4204 && Shift(128, 8) == 0x8408
  {}

  ghost predicate ShiftsTo(x: Word, y: Word) {
    Reg(y) == GENERATOR.Divide(Reg(x), ZeroBits(8))
  }

  lemma ShiftsToXor(x: Word, y: Word, x': Word, y': Word)
    requires ShiftsTo(x, y) && ShiftsTo(x', y')
    ensures ShiftsTo(Xored(x, x'), Xored(y, y'))
  {
    RegXor(x, x');
    RegXor(y, y');
    RegBelow(x);
    DivideAdd(GENERATOR, Reg(x), Reg(x'), ZeroBits(8), ZeroBits(8));
    XorZeros(8);
  }

  lemma PickShiftsTo(w: Word, m: Word, x: Word)
    requires w & m == 0 || w & m == m
    requires m != 0 && Shift(m, 8) == x
    ensures ShiftsTo(w & m, Pick(w & m != 0, x))
  {
    RegShifts(w & m, 8);
    hide Reg;
    if w & m == 0 {
      assert Shift(0, 8) == 0;
    }
  }

  /** The bits of an index, as words, grouped as the table seeds are. */
  function RowBits(w: Word): Word {
    Xored3(Xored3(w & 8, w & 16, w & 32), w & 64, w & 128)
  }

  function ColumnBits(w: Word): Word {
    Xored3(w & 1, w & 2, w & 4)
  }

  lemma IndexBits(i: Byte)
    ensures var w, row, column := i as Word, i >> 3, i & 7;
      && Xored(RowBits(w), ColumnBits(w)) == w
      && (row & 1 != 0) == (w & 8 != 0) && (row & 2 != 0) == (w & 16 != 0) && (row & 4 != 0) == (w & 32 != 0)
      && (row & 8 != 0) == (w & 64 != 0) && (row & 16 != 0) == (w & 128 != 0)
      && (column & 1 != 0) == (w & 1 != 0) && (column & 2 != 0) == (w & 2 != 0) && (column & 4 != 0) == (w & 4 != 0)
  {}

  lemma OneBit(w: Word)
    ensures (w & 1 == 0 || w & 1 == 1) && (w & 2 == 0 || w & 2 == 2) && (w & 4 == 0 || w & 4 == 4)
    ensures (w & 8 == 0 || w & 8 == 8) && (w & 16 == 0 || w & 16 == 16) && (w & 32 == 0 || w & 32 == 32)
    ensures (w & 64 == 0 || w & 64 == 64) && (w & 128 == 0 || w & 128 == 128)
  {}

  lemma ShiftsToXor3(a: Word, a': Word, b: Word, b': Word, c: Word, c': Word)
    requires ShiftsTo(a, a') && ShiftsTo(b, b') && ShiftsTo(c, c')
    ensures ShiftsTo(Xored3(a, b, c), Xored3(a', b', c'))
  {
    ShiftsToXor(a, a', b, b');
    ShiftsToXor(Xored(a, b), Xored(a', b'), c, c');
    hide Xored, ShiftsTo;
  }

  lemma RowShiftsTo(w: Word, row: Byte)
    requires (row & 1 != 0) == (w & 8 != 0) && (row & 2 != 0) == (w & 16 != 0) && (row & 4 != 0) == (w & 32 != 0)
    requires (row & 8 != 0) == (w & 64 != 0) && (row & 16 != 0) == (w & 128 != 0)
    ensures ShiftsTo(RowBits(w), RowSeed(row))
  {
    hide *;
    var a, b, c, d, e := w & 8, w & 16, w & 32, w & 64, w & 128;
    var a', b', c' := Pick(a != 0, 0x8C48), Pick(b != 0, 0x1081), Pick(c != 0, 0x2102);
    var d', e' := Pick(d != 0, 0x4204), Pick(e != 0, 0x8408);
    assert ShiftsTo(a, a') && ShiftsTo(b, b') && ShiftsTo(c, c') && ShiftsTo(d, d') && ShiftsTo(e, e') by {
      Basis();
      OneBit(w);
      PickShiftsTo(w, 8, 0x8C48);
      PickShiftsTo(w, 16, 0x1081);
      PickShiftsTo(w, 32, 0x2102);
      PickShiftsTo(w, 64, 0x4204);
      PickShiftsTo(w, 128, 0x8408);
    }
    ShiftsToXor3(a, a', b, b', c, c');
    ShiftsToXor3(Xored3(a, b, c), Xored3(a', b', c'), d, d', e, e');
    RowParts(w, row);
  }

  lemma RowParts(w: Word, row: Byte)
    requires (row & 1 != 0) == (w & 8 != 0) && (row & 2 != 0) == (w & 16 != 0) && (row & 4 != 0) == (w & 32 != 0)
    requires (row & 8 != 0) == (w & 64 != 0) && (row & 16 != 0) == (w & 128 != 0)
    ensures RowBits(w) == Xored3(Xored3(w & 8, w & 16, w & 32), w & 64, w & 128)
    ensures RowSeed(row) == Xored3(Xored3(Pick(w & 8 != 0, 0x8C48), Pick(w & 16 != 0, 0x1081),
                                          Pick(w & 32 != 0, 0x2102)),
                                   Pick(w & 64 != 0, 0x4204), Pick(w & 128 != 0, 0x8408))
  {}

  lemma ColumnShiftsTo(w: Word, column: Byte)
    requires (column & 1 != 0) == (w & 1 != 0) && (column & 2 != 0) == (w & 2 != 0) && (column & 4 != 0) == (w & 4 != 0)
    ensures ShiftsTo(ColumnBits(w), ColumnSeed(column))
  {
    Basis();
    OneBit(w);
    PickShiftsTo(w, 1, 0x1189);
    PickShiftsTo(w, 2, 0x2312);
    PickShiftsTo(w, 4, 0x4624);
    hide Pick, Xored3, Shift, ShiftsTo;
    ShiftsToXor3(w & 1, Pick(w & 1 != 0, 0x1189), w & 2, Pick(w & 2 != 0, 0x2312), w & 4, Pick(w & 4 != 0, 0x4624));
  }

  /** Every entry of the lookup table is eight division steps of its own index. */
  lemma TableEntry(i: Byte)
    ensures Reg(Lookup(i)) == GENERATOR.Divide(Reg(i as Word), ZeroBits(8))
  {
    var w := i as Word;
    IndexBits(i);
    LookupSeeds(i);
    RowShiftsTo(w, i >> 3);
    ColumnShiftsTo(w, i & 7);
    ShiftsToXor(RowBits(w), RowSeed(i >> 3), ColumnBits(w), ColumnSeed(i & 7));
    assert ShiftsTo(w, Lookup(i));
    hide Lookup, Reg, Xored, RowSeed, ColumnSeed, RowBits, ColumnBits;
  }

  // ----- One table step is eight division steps

  lemma ByteBit(b: Byte, i: bv4)
    ensures i < 8 ==> i as int < 8 && Bit(b as Word, i) == ByteBits(b)[i as int]
    ensures i >= 8 ==> i as int >= 8 && !Bit(b as Word, i)
  {
    if i == 0 {} else if i == 1 {} else if i == 2 {} else if i == 3 {}
    else if i == 4 {} else if i == 5 {} else if i == 6 {} else if i == 7 {}
  }

  lemma RegByte(b: Byte)
    ensures Reg(b as Word) == Leading(16, ByteBits(b))
  {
    forall e: nat | e < 16 ensures e in Reg(b as Word) <==> e in Leading(16, ByteBits(b)) {
      ByteBit(b, Place(e));
      if 8 <= e {
        assert e == 16 - 1 - (15 - e);
      }
    }
  }

  lemma IndexOf(c: Word, ch: Byte, signedChar: bool)
    ensures (((c ^ Promote(ch, signedChar)) & 0xFF) as Byte) as Word == Xored(c, ch as Word) & 0xFF
    ensures Xored(c, ch as Word) >> 8 == c >> 8
  {}

  /** The part of the register that a table step only moves, and the part it looks up. */
  lemma SplitAtByte(x: Word) returns (low: Poly)
    ensures Reg(x >> 8) == GENERATOR.Divide(low, ZeroBits(8))
    ensures Add(Reg(x & 0xFF), low) == Reg(x)
  {
    low := set e | e in Reg(x) && e < 8;
    RegLow(x);
    RegShift8(x);
    RegBelow(x);
    DivideZeros(GENERATOR, low, 8);
    hide Reg;
  }

  lemma ComputeParts(c: Word, ch: Byte, signedChar: bool) returns (index: Byte)
    ensures Compute(c, ch, signedChar) == Xored(Lookup(index), Xored(c, ch as Word) >> 8)
    ensures index as Word == Xored(c, ch as Word) & 0xFF
  {
    index := ((c ^ Promote(ch, signedChar)) & 0xFF) as Byte;
    IndexOf(c, ch, signedChar);
    hide Lookup;
  }

  /** COMPUTE brings down the eight bits of a byte, whichever way `char` is promoted. */
  lemma ComputeDivides(c: Word, ch: Byte, signedChar: bool)
    ensures Reg(Compute(c, ch, signedChar)) == GENERATOR.Divide(Reg(c), ByteBits(ch))
  {
    hide *;
    var x, z := Xored(c, ch as Word), ZeroBits(8);
    var index := ComputeParts(c, ch, signedChar);
    var low := SplitAtByte(x);
    RegXor(Lookup(index), x >> 8);
    TableEntry(index);
    RegBelow(c);
    DivideAdd(GENERATOR, Reg(x & 0xFF), low, z, z);
    XorZeros(8);
    RegXor(c, ch as Word);
    RegByte(ch);
    AbsorbBits(GENERATOR, Reg(c), ByteBits(ch));
  }

  // ----- Whole messages

  function Run(c: Word, data: seq<Byte>, signedChar: bool): Word {
    if data == [] then c else Compute(Run(c, data[..|data| - 1], signedChar), data[|data| - 1], signedChar)
  }

  /** What the buffer overload returns: the register is inverted on the way in and on the way out. */
  function Crc(data: seq<Byte>, crc: Word, signedChar: bool): Word {
    Inverted(Run(Inverted(crc), data, signedChar))
  }

  function Inverted(c: Word): Word {
    !c
  }

  lemma InvertedTwice(c: Word)
    ensures Inverted(Inverted(c)) == c
  {}

  /** The table-driven loop is long division of the message by the generator. */
  lemma {:induction false} RunDivides(c: Word, data: seq<Byte>, signedChar: bool)
    ensures Reg(Run(c, data, signedChar)) == GENERATOR.Divide(Reg(c), Bits(data))
    decreases |data|
  {
    hide Compute, ByteBits, Reg;
    if data != [] {
      var front, last := data[..|data| - 1], data[|data| - 1];
      RunDivides(c, front, signedChar);
      ComputeDivides(Run(c, front, signedChar), last, signedChar);
      RegBelow(c);
      DivideSplit(GENERATOR, Reg(c), Bits(front), ByteBits(last));
    }
  }

  /** The returned value, uninverted, is the remainder of the message (preceded by the register,
      followed by as many zero bits as the generator has degree) divided by the generator. */
  lemma {:induction false} CrcIsRemainder(data: seq<Byte>, crc: Word, signedChar: bool) returns (q: seq<bool>)
    ensures Dividend(GENERATOR, Reg(Inverted(crc)), Bits(data))
         == Add(GENERATOR.Multiple(q), Reg(Inverted(Crc(data, crc, signedChar))))
    ensures Below(Reg(Inverted(Crc(data, crc, signedChar))), GENERATOR.width)
  {
    hide Reg, Bits, Run, Inverted;
    RunDivides(Inverted(crc), data, signedChar);
    RegBelow(Inverted(crc));
    q := DivideIsRemainder(GENERATOR, Reg(Inverted(crc)), Bits(data));
    InvertedTwice(Run(Inverted(crc), data, signedChar));
  }

  lemma AllBits(x: Word, y: Word)
    requires Bit(x, 0) == Bit(y, 0) && Bit(x, 1) == Bit(y, 1) && Bit(x, 2) == Bit(y, 2) && Bit(x, 3) == Bit(y, 3)
    requires Bit(x, 4) == Bit(y, 4) && Bit(x, 5) == Bit(y, 5) && Bit(x, 6) == Bit(y, 6) && Bit(x, 7) == Bit(y, 7)
    requires Bit(x, 8) == Bit(y, 8) && Bit(x, 9) == Bit(y, 9) && Bit(x, 10) == Bit(y, 10) && Bit(x, 11) == Bit(y, 11)
    requires Bit(x, 12) == Bit(y, 12) && Bit(x, 13) == Bit(y, 13)
    requires Bit(x, 14) == Bit(y, 14) && Bit(x, 15) == Bit(y, 15)
    ensures x == y
  {}

  lemma SameBits(x: Word, y: Word)
    requires forall i: bv4 :: Bit(x, i) == Bit(y, i)
    ensures x == y
  {
    hide Bit;
    AllBits(x, y);
  }

  lemma DifferingBit(x: Word, y: Word) returns (i: bv4)
    requires x != y
    ensures Bit(x, i) != Bit(y, i)
  {
    hide Bit;
    assert exists j: bv4 :: Bit(x, j) != Bit(y, j) by {
      if forall j: bv4 :: Bit(x, j) == Bit(y, j) {
        SameBits(x, y);
      }
    }
    i :| Bit(x, i) != Bit(y, i);
  }

  lemma RegDiffers(x: Word, y: Word)
    requires x != y
    ensures Reg(x) != Reg(y)
  {
    var i := DifferingBit(x, y);
    var e := 15 - i as int;
    Same(Place(e), i);
    assert (e in Reg(x) <==> Bit(x, i)) && (e in Reg(y) <==> Bit(y, i));
  }

  /** The polynomial determines the register, so the division above pins the checksum down. */
  lemma RegInjective(x: Word, y: Word)
    requires Reg(x) == Reg(y)
    ensures x == y
  {
    if x != y {
      RegDiffers(x, y);
    }
  }

  /** Whether `char` is signed makes no difference. */
  lemma {:induction false} SignIrrelevant(data: seq<Byte>, c: Word)
    ensures Run(c, data, true) == Run(c, data, false)
    ensures Crc(data, c, true) == Crc(data, c, false)
  {
    RunSign(data, c);
    RunSign(data, Inverted(c));
    hide Run, Inverted;
  }

  lemma {:induction false} RunSign(data: seq<Byte>, c: Word)
    ensures Run(c, data, true) == Run(c, data, false)
    decreases |data|
  {
    hide Compute;
    if data != [] {
      var front, last := data[..|data| - 1], data[|data| - 1];
      RunSign(front, c);
      ComputeSign(Run(c, front, true), last);
    }
  }

  lemma SameByte(i: Byte, j: Byte)
    requires i as Word == j as Word
    ensures i == j
  {}

  lemma ComputeSign(c: Word, ch: Byte)
    ensures Compute(c, ch, true) == Compute(c, ch, false)
  {
    var i := ComputeParts(c, ch, true);
    var j := ComputeParts(c, ch, false);
    SameByte(i, j);
    hide *;
  }

  /** Checksums chain: a message may be fed in pieces. */
  lemma CrcChained(a: seq<Byte>, b: seq<Byte>, crc: Word, signedChar: bool)
    ensures Crc(a + b, crc, signedChar) == Crc(b, Crc(a, crc, signedChar), signedChar)
  {
    hide Run, Inverted;
    RunSplit(Inverted(crc), a, b, signedChar);
    InvertedTwice(Run(Inverted(crc), a, signedChar));
  }

  lemma {:induction false} RunSplit(c: Word, a: seq<Byte>, b: seq<Byte>, signedChar: bool)
    ensures Run(c, a + b, signedChar) == Run(Run(c, a, signedChar), b, signedChar)
    decreases |b|
  {
    hide Compute;
    if b == [] {
      assert a + b == a;
    } else {
      assert (a + b)[..|a + b| - 1] == a + b[..|b| - 1];
      RunSplit(c, a, b[..|b| - 1], signedChar);
    }
  }

  /** Any two messages of one length whose bits differ only inside 16 consecutive bits, at whatever
      bit position, have different checksums from the same start value. */
  lemma {:induction false} BurstChangesCrc(a: seq<Byte>, b: seq<Byte>, crc: Word, signedChar: bool, lo: nat, hi: nat)
    requires |a| == |b| && a != b && lo <= hi <= 8 * |a| && hi - lo <= 16
    requires forall i | 0 <= i < 8 * |a| && !(lo <= i < hi) :: Bits(a)[i] == Bits(b)[i]
    ensures Crc(a, crc, signedChar) != Crc(b, crc, signedChar)
  {
    hide Reg, ByteBits, Run, Bits, Inverted;
    var c := Inverted(crc);
    RunDivides(c, a, signedChar);
    RunDivides(c, b, signedChar);
    RegBelow(c);
    BitsDiffer(a, b);
    BurstDetected(GENERATOR, Reg(c), Bits(a), Bits(b), lo, hi);
    InvertedTwice(Run(c, a, signedChar));
    InvertedTwice(Run(c, b, signedChar));
  }

  /** In particular any change confined to 2 consecutive bytes is detected. */
  lemma WindowChangesCrc(a: seq<Byte>, b: seq<Byte>, crc: Word, signedChar: bool, at: nat)
    requires |a| == |b| && a != b
    requires forall i | 0 <= i < |a| && !(at <= i < at + 2) :: a[i] == b[i]
    ensures Crc(a, crc, signedChar) != Crc(b, crc, signedChar)
  {
    var lo, hi := if at <= |a| then 8 * at else 8 * |a|, if at + 2 <= |a| then 8 * (at + 2) else 8 * |a|;
    forall j | 0 <= j < 8 * |a| && !(lo <= j < hi) ensures Bits(a)[j] == Bits(b)[j] {
      var i := j / 8;
      BitsAt(a, i);
      BitsAt(b, i);
      assert Bits(a)[j] == Bits(a)[8 * i..8 * i + 8][j - 8 * i];
      assert Bits(b)[j] == Bits(b)[8 * i..8 * i + 8][j - 8 * i];
    }
    BurstChangesCrc(a, b, crc, signedChar, lo, hi);
  }

  lemma GeneratorIsEven()
    ensures GENERATOR.Valid() && !Odd(|GENERATOR.taps|)
  {
    assert |{16, 12, 5, 0}| == 4;
  }

  /** The generator has four terms: any two messages of one length that differ in an odd number of bits,
      wherever they are, have different checksums from the same start value. */
  lemma {:induction false} OddErrorsChangeCrc(a: seq<Byte>, b: seq<Byte>, crc: Word, signedChar: bool)
    requires |a| == |b| && OddOnes(Xor(Bits(a), Bits(b)))
    ensures Crc(a, crc, signedChar) != Crc(b, crc, signedChar)
  {
    hide Reg, ByteBits, Run, Bits, Inverted;
    var c := Inverted(crc);
    RunDivides(c, a, signedChar);
    RunDivides(c, b, signedChar);
    GeneratorIsEven();
    OddErrorsDetected(GENERATOR, Reg(c), Bits(a), Bits(b));
    InvertedTwice(Run(c, a, signedChar));
    InvertedTwice(Run(c, b, signedChar));
  }

  // ----- The frame check sequence of RFC 1662

  /** The checksum as it is sent: least significant byte first. */
  function Fcs(w: Word): (f: seq<Byte>)
    ensures |f| == 2
  {
    [(w & 0xFF) as Byte, ((w >> 8) & 0xFF) as Byte]
  }

  lemma ByteOf(w: Word, k: bv4, j: bv4)
    requires k <= 8 && j < 8
    ensures Bit((w >> k) & 0xFF, j) == Bit(w, k + j)
  {}

  lemma Sum(i: bv4, k: bv4, j: bv4)
    requires i as int == k as int + j as int
    ensures i == k + j
  {}

  lemma FcsAt(w: Word, m: nat, j: bv4) returns (k: bv4)
    requires m < 2 && j < 8
    ensures k as int == 8 * m && Bit(Fcs(w)[m] as Word, j) == Bit(w, k + j)
  {
    if m == 0 { k := 0; ByteOf(w, 0, j); } else { k := 8; ByteOf(w, 8, j); }
  }

  lemma FcsByte(w: Word, m: nat, i: bv4, j: bv4)
    requires m < 2 && j < 8 && i as int == 8 * m + j as int
    ensures j as int < 8 && ByteBits(Fcs(w)[m])[j as int] == Bit(w, i)
  {
    hide *;
    var k := FcsAt(w, m, j);
    ByteBit(Fcs(w)[m], j);
    Sum(i, k, j);
  }

  lemma FcsBits(w: Word, i: bv4)
    ensures Bits(Fcs(w))[i as int] == Bit(w, i)
  {
    var j, m: nat := i & 7, i as int / 8;
    Octet(i);
    FcsByte(w, m, i, j);
    BitsAt(Fcs(w), m);
    assert Bits(Fcs(w))[i as int] == Bits(Fcs(w))[8 * m..8 * m + 8][j as int];
    hide *;
  }

  lemma Octet(i: bv4)
    ensures (i & 7) as int == i as int % 8
  {}

  lemma RegFcsAt(w: Word, e: nat)
    requires e < 16
    ensures e in Reg(w) <==> Bits(Fcs(w))[15 - e]
  {
    FcsBits(w, Place(e));
    hide Bits, Fcs, Bit, Place;
  }

  lemma RegFcs(w: Word)
    ensures Reg(w) == Leading(16, Bits(Fcs(w)))
  {
    hide Reg, Bits;
    RegBelow(w);
    var bits := Bits(Fcs(w));
    forall e: nat | e < 16 ensures e in Reg(w) <==> e in Leading(16, bits) {
      RegFcsAt(w, e);
      assert e == 16 - 1 - (15 - e);
    }
  }

  lemma {:induction false} ShiftTwice(c: Word, m: nat, n: nat)
    ensures Shift(Shift(c, m), n) == Shift(c, m + n)
    decreases n
  {
    hide ShiftBit;
    if n > 0 {
      ShiftTwice(c, m, n - 1);
    }
  }

  /** The register that a frame with a correct check sequence leaves. */
  const GOOD_FCS: Word := 0xF0B8

  lemma GoodFcsIs()
    ensures Shift(0xFFFF, 16) == GOOD_FCS
  {
    assert Shift(0xFFFF, 8) == 0x0F87;
    assert Shift(0x0F87, 8) == 0xF0B8;
    hide *;
    ShiftTwice(0xFFFF, 8, 8);
  }

  lemma Complement(w: Word)
    ensures Xored(w, Inverted(w)) == 0xFFFF
  {}

  lemma FcsLeavesGood(w: Word, signedChar: bool)
    ensures Run(w, Fcs(Inverted(w)), signedChar) == GOOD_FCS
  {
    hide *;
    var f := Fcs(Inverted(w));
    RunDivides(w, f, signedChar);
    RegBelow(w);
    AbsorbBits(GENERATOR, Reg(w), Bits(f));
    RegFcs(Inverted(w));
    RegXor(w, Inverted(w));
    Complement(w);
    RegShifts(0xFFFF, 16);
    GoodFcsIs();
    RegInjective(Run(w, f, signedChar), GOOD_FCS);
  }

  /** A frame whose last 2 bytes are `f` checks to the constant if and only if `f` is the checksum of
      what precedes it (RFC 1662, Appendix C). */
  lemma GoodFrame(data: seq<Byte>, f: seq<Byte>, crc: Word, signedChar: bool)
    requires |f| == 2
    ensures Crc(data + f, crc, signedChar) == Inverted(GOOD_FCS) <==> f == Fcs(Crc(data, crc, signedChar))
  {
    var w, fcs := Run(Inverted(crc), data, signedChar), Fcs(Crc(data, crc, signedChar));
    hide Run, Inverted, Fcs;
    RunSplit(Inverted(crc), data, fcs, signedChar);
    FcsLeavesGood(w, signedChar);
    if f != fcs {
      assert (data + f)[|data|..] == f && (data + fcs)[|data|..] == fcs;
      WindowChangesCrc(data + f, data + fcs, crc, signedChar, |data|);
    }
  }

  // ----- The three overloads

  /** The buffer overload. */
  method Buffer(buffer: seq<Byte>, crc: Word, signedChar: bool) returns (r: Word)
    ensures r == Crc(buffer, crc, signedChar)
  {
    hide Compute;
    var c := Inverted(crc);
    for p := 0 to |buffer|
      invariant c == Run(Inverted(crc), buffer[..p], signedChar)
    {
      assert buffer[..p + 1][..p] == buffer[..p];
      c := Compute(c, buffer[p], signedChar);
    }
    assert buffer[..|buffer|] == buffer;
    return Inverted(c);
  }

  /** The string overload, from the initial register of all ones. */
  method String(s: seq<Byte>, signedChar: bool) returns (r: Word)
    requires 0 in s
    ensures r == Crc(UpToNul(s), 0, signedChar)
  {
    hide Compute;
    var c: Word := 0xFFFF;
    var p := 0;
    while s[p] != 0
      invariant p < |s| && 0 !in s[..p] && 0 in s[p..]
      invariant c == Run(Inverted(0), s[..p], signedChar)
      decreases |s| - p
    {
      assert s[..p + 1][..p] == s[..p];
      c := Compute(c, s[p], signedChar);
      p := p + 1;
    }
    UpToNulIs(s, p);
    return Inverted(c);
  }

  /** The gather overload. */
  method Iovec(iov: seq<seq<Byte>>, crc: Word, signedChar: bool) returns (r: Word)
    ensures r == Crc(Flatten(iov), crc, signedChar)
  {
    hide Compute;
    var c := Inverted(crc);
    for i := 0 to |iov|
      invariant c == Run(Inverted(crc), Flatten(iov[..i]), signedChar)
    {
      ghost var before := Flatten(iov[..i]);
      assert before + iov[i][..0] == before;
      for p := 0 to |iov[i]|
        invariant c == Run(Inverted(crc), before + iov[i][..p], signedChar)
      {
        assert (before + iov[i][..p + 1])[..|before| + p] == before + iov[i][..p];
        c := Compute(c, iov[i][p], signedChar);
      }
      assert iov[..i + 1][..i] == iov[..i];
      assert iov[i][..|iov[i]|] == iov[i];
    }
    assert iov[..|iov|] == iov;
    return Inverted(c);
  }
}
