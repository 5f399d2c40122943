/**
  The table-driven CRC of ACE/ace/ACE_crc32.cpp, related to long division by the generator of
  ISO/IEC 8802-3 section 3.2.9 (also Appendix C.3 of RFC 1662).
 */
module Crc32 {
  import opened Gf2
  import opened Octets

  type Word = bv32

  /** The lookup table, eight entries a row as in the source. */
  const CRC_TABLE: seq<seq<Word>> := [
    [0x00000000, 0x77073096, 0xEE0E612C, 0x990951BA, 0x076DC419, 0x706AF48F, 0xE963A535, 0x9E6495A3],
    [0x0EDB8832, 0x79DCB8A4, 0xE0D5E91E, 0x97D2D988, 0x09B64C2B, 0x7EB17CBD, 0xE7B82D07, 0x90BF1D91],
    [0x1DB71064, 0x6AB020F2, 0xF3B97148, 0x84BE41DE, 0x1ADAD47D, 0x6DDDE4EB, 0xF4D4B551, 0x83D385C7],
    [0x136C9856, 0x646BA8C0, 0xFD62F97A, 0x8A65C9EC, 0x14015C4F, 0x63066CD9, 0xFA0F3D63, 0x8D080DF5],
    [0x3B6E20C8, 0x4C69105E, 0xD56041E4, 0xA2677172, 0x3C03E4D1, 0x4B04D447, 0xD20D85FD, 0xA50AB56B],
    [0x35B5A8FA, 0x42B2986C, 0xDBBBC9D6, 0xACBCF940, 0x32D86CE3, 0x45DF5C75, 0xDCD60DCF, 0xABD13D59],
    [0x26D930AC, 0x51DE003A, 0xC8D75180, 0xBFD06116, 0x21B4F4B5, 0x56B3C423, 0xCFBA9599, 0xB8BDA50F],
    [0x2802B89E, 0x5F058808, 0xC60CD9B2, 0xB10BE924, 0x2F6F7C87, 0x58684C11, 0xC1611DAB, 0xB6662D3D],
    [0x76DC4190, 0x01DB7106, 0x98D220BC, 0xEFD5102A, 0x71B18589, 0x06B6B51F, 0x9FBFE4A5, 0xE8B8D433],
    [0x7807C9A2, 0x0F00F934, 0x9609A88E, 0xE10E9818, 0x7F6A0DBB, 0x086D3D2D, 0x91646C97, 0xE6635C01],
    [0x6B6B51F4, 0x1C6C6162, 0x856530D8, 0xF262004E, 0x6C0695ED, 0x1B01A57B, 0x8208F4C1, 0xF50FC457],
    [0x65B0D9C6, 0x12B7E950, 0x8BBEB8EA, 0xFCB9887C, 0x62DD1DDF, 0x15DA2D49, 0x8CD37CF3, 0xFBD44C65],
    [0x4DB26158, 0x3AB551CE, 0xA3BC0074, 0xD4BB30E2, 0x4ADFA541, 0x3DD895D7, 0xA4D1C46D, 0xD3D6F4FB],
    [0x4369E96A, 0x346ED9FC, 0xAD678846, 0xDA60B8D0, 0x44042D73, 0x33031DE5, 0xAA0A4C5F, 0xDD0D7CC9],
    [0x5005713C, 0x270241AA, 0xBE0B1010, 0xC90C2086, 0x5768B525, 0x206F85B3, 0xB966D409, 0xCE61E49F],
    [0x5EDEF90E, 0x29D9C998, 0xB0D09822, 0xC7D7A8B4, 0x59B33D17, 0x2EB40D81, 0xB7BD5C3B, 0xC0BA6CAD],
    [0xEDB88320, 0x9ABFB3B6, 0x03B6E20C, 0x74B1D29A, 0xEAD54739, 0x9DD277AF, 0x04DB2615, 0x73DC1683],
    [0xE3630B12, 0x94643B84, 0x0D6D6A3E, 0x7A6A5AA8, 0xE40ECF0B, 0x9309FF9D, 0x0A00AE27, 0x7D079EB1],
    [0xF00F9344, 0x8708A3D2, 0x1E01F268, 0x6906C2FE, 0xF762575D, 0x806567CB, 0x196C3671, 0x6E6B06E7],
    [0xFED41B76, 0x89D32BE0, 0x10DA7A5A, 0x67DD4ACC, 0xF9B9DF6F, 0x8EBEEFF9, 0x17B7BE43, 0x60B08ED5],
    [0xD6D6A3E8, 0xA1D1937E, 0x38D8C2C4, 0x4FDFF252, 0xD1BB67F1, 0xA6BC5767, 0x3FB506DD, 0x48B2364B],
    [0xD80D2BDA, 0xAF0A1B4C, 0x36034AF6, 0x41047A60, 0xDF60EFC3, 0xA867DF55, 0x316E8EEF, 0x4669BE79],
    [0xCB61B38C, 0xBC66831A, 0x256FD2A0, 0x5268E236, 0xCC0C7795, 0xBB0B4703, 0x220216B9, 0x5505262F],
    [0xC5BA3BBE, 0xB2BD0B28, 0x2BB45A92, 0x5CB36A04, 0xC2D7FFA7, 0xB5D0CF31, 0x2CD99E8B, 0x5BDEAE1D],
    [0x9B64C2B0, 0xEC63F226, 0x756AA39C, 0x026D930A, 0x9C0906A9, 0xEB0E363F, 0x72076785, 0x05005713],
    [0x95BF4A82, 0xE2B87A14, 0x7BB12BAE, 0x0CB61B38, 0x92D28E9B, 0xE5D5BE0D, 0x7CDCEFB7, 0x0BDBDF21],
    [0x86D3D2D4, 0xF1D4E242, 0x68DDB3F8, 0x1FDA836E, 0x81BE16CD, 0xF6B9265B, 0x6FB077E1, 0x18B74777],
    [0x88085AE6, 0xFF0F6A70, 0x66063BCA, 0x11010B5C, 0x8F659EFF, 0xF862AE69, 0x616BFFD3, 0x166CCF45],
    [0xA00AE278, 0xD70DD2EE, 0x4E048354, 0x3903B3C2, 0xA7672661, 0xD06016F7, 0x4969474D, 0x3E6E77DB],
    [0xAED16A4A, 0xD9D65ADC, 0x40DF0B66, 0x37D83BF0, 0xA9BCAE53, 0xDEBB9EC5, 0x47B2CF7F, 0x30B5FFE9],
    [0xBDBDF21C, 0xCABAC28A, 0x53B39330, 0x24B4A3A6, 0xBAD03605, 0xCDD70693, 0x54DE5729, 0x23D967BF],
    [0xB3667A2E, 0xC4614AB8, 0x5D681B02, 0x2A6F2B94, 0xB40BBE37, 0xC30C8EA1, 0x5A05DF1B, 0x2D02EF8D]
  ]

  /** x^32 + x^26 + x^23 + x^22 + x^16 + x^12 + x^11 + x^10 + x^8 + x^7 + x^5 + x^4 + x^2 + x + 1 */
  const GENERATOR := Generator(32, {32, 26, 23, 22, 16, 12, 11, 10, 8, 7, 5, 4, 2, 1, 0})

  /** `char` promoted for the exclusive or: sign-extended or not, as the platform has it. */
  function Promote(ch: Byte, signedChar: bool): Word {
    if signedChar && ch & 0x80 != 0 then 0xFFFF_FF00 | ch as Word else ch as Word
  }

  function Lookup(index: Byte): Word {
    var row, column := index >> 3, index & 7;
    CRC_TABLE[row as int][column as int]
  }

  /** COMPUTE */
  function Compute(crc: Word, ch: Byte, signedChar: bool): Word {
    Lookup(((crc ^ Promote(ch, signedChar)) & 0xFF) as Byte) ^ (crc >> 8)
  }

  // ----- The register as a polynomial

  predicate Bit(c: Word, i: bv5) {
    (c >> i) & 1 == 1
  }

  /** The register is reflected: exponent e sits at bit 31 - e. */
  function Place(e: nat): (i: bv5)
    requires e < 32
    ensures i as int == 31 - e
  {
    (31 - e) as bv5
  }

  function Reg(c: Word): Poly {
    set e: nat | e < 32 && Bit(c, Place(e))
  }

  lemma Same(i: bv5, j: bv5)
    requires i as int == j as int
    ensures i == j
  {}

  lemma Next(i: bv5, j: bv5)
    requires i as int == j as int + 1
    ensures j != 31 && j + 1 == i
  {}

  lemma Eighth(i: bv5, j: bv5)
    requires i as int == j as int + 8
    ensures j < 24 && j + 8 == i
  {}

  lemma BitXor(x: Word, y: Word, i: bv5)
    ensures Bit(x ^ y, i) == (Bit(x, i) != Bit(y, i))
  {}

  lemma BitShift(x: Word, i: bv5)
    ensures i == 31 ==> !Bit(x >> 1, i)
    ensures i != 31 ==> Bit(x >> 1, i) == Bit(x, i + 1)
  {}

  lemma BitShift8(x: Word, i: bv5)
    ensures i >= 24 ==> !Bit(x >> 8, i)
    ensures i < 24 ==> Bit(x >> 8, i) == Bit(x, i + 8)
  {}

  lemma BitLow(x: Word, i: bv5)
    ensures Bit(x & 0xFF, i) == (i < 8 && Bit(x, i))
  {}

  /** Exclusive or, named so that the solver does not flatten nested ones. */
  function Xored(x: Word, y: Word): Word {
    x ^ y
  }

  lemma RegXor(x: Word, y: Word)
    ensures Reg(Xored(x, y)) == Add(Reg(x), Reg(y))
  {
    forall e: nat | e < 32 ensures e in Reg(Xored(x, y)) <==> (e in Reg(x)) != (e in Reg(y)) {
      BitXor(x, y, Place(e));
    }
  }

  lemma ShiftAt(c: Word, e: nat)
    ensures e in Reg(c >> 1) <==> 0 < e < 32 && e - 1 in Reg(c)
  {
    if e == 0 {
      Same(Place(0), 31);
      BitShift(c, 31);
    } else if e < 32 {
      Next(Place(e - 1), Place(e));
      BitShift(c, Place(e));
    }
  }

  lemma RegShift(c: Word)
    ensures Reg(c >> 1) == TimesX(Reg(c)) - {32}
  {
    hide *;
    forall e: nat ensures e in Reg(c >> 1) <==> e in TimesX(Reg(c)) - {32} {
      ShiftAt(c, e);
      InTimesX(Reg(c), e);
      RegBelow(c);
    }
  }

  lemma Shift8At(c: Word, e: nat)
    ensures e in Reg(c >> 8) <==> 8 <= e < 32 && e - 8 in Reg(c)
  {
    if 8 <= e < 32 {
      Eighth(Place(e - 8), Place(e));
      BitShift8(c, Place(e));
    } else if e < 8 {
      BitShift8(c, Place(e));
    }
  }

  lemma RegShift8(c: Word)
    ensures Reg(c >> 8) == Up(set e | e in Reg(c) && e < 24, 8)
  {
    var low := set e | e in Reg(c) && e < 24;
    forall e: nat ensures e in Reg(c >> 8) <==> e in Up(low, 8) {
      Shift8At(c, e);
      hide Reg;
      assert e in Up(low, 8) <==> 8 <= e && e - 8 in low by {
        if 8 <= e && e - 8 in low { assert e == (e - 8) + 8; }
      }
    }
  }

  lemma RegLow(c: Word)
    ensures Reg(c & 0xFF) == set e | e in Reg(c) && 24 <= e
  {
    forall e: nat | e < 32 ensures e in Reg(c & 0xFF) <==> e in Reg(c) && 24 <= e {
      BitLow(c, Place(e));
    }
  }

  // ----- One shift step is one division step

  /** The bit-serial register: the bit falling out selects the reflected polynomial. */
  function ShiftBit(c: Word): Word {
    if c & 1 == 1 then Xored(c >> 1, 0xEDB8_8320) else c >> 1
  }

  lemma RegPolynomial()
    ensures Reg(0xEDB8_8320) == GENERATOR.taps - {32}
  {}

  lemma RegBelow(c: Word)
    ensures Below(Reg(c), 32) && GENERATOR.Valid() && GENERATOR.width == 32
  {}

  lemma LastAt(c: Word)
    ensures 31 in Reg(c) <==> c & 1 == 1
  {
    Same(Place(31), 0);
  }

  lemma RegShiftBit(c: Word)
    ensures Reg(ShiftBit(c)) == GENERATOR.Step(Reg(c), false)
  {
    LastAt(c);
    RegShift(c);
    RegBelow(c);
    StepReduced(GENERATOR, Reg(c));
    if c & 1 == 1 {
      RegXor(c >> 1, 0xEDB8_8320);
      RegPolynomial();
    } else {
      assert Add(Reg(c >> 1), {}) == Reg(c >> 1);
    }
  }

  /** n shift steps. */
  function Shift(c: Word, n: nat): Word
    decreases n
  {
    if n == 0 then c else ShiftBit(Shift(c, n - 1))
  }

  lemma {:induction false} RegShifts(c: Word, n: nat)
    ensures Reg(Shift(c, n)) == GENERATOR.Divide(Reg(c), ZeroBits(n))
    decreases n
  {
    if n > 0 {
      RegShifts(c, n - 1);
      RegShiftBit(Shift(c, n - 1));
      assert ZeroBits(n)[..n - 1] == ZeroBits(n - 1);
    }
    hide ShiftBit, Reg;
  }

  // ----- Every table entry is eight shift steps of its index

  function Pick(b: bool, x: Word): Word {
    if b then x else 0
  }

  function Xored3(x: Word, y: Word, z: Word): Word {
    Xored(Xored(x, y), z)
  }

  function RowSeed(row: Byte): Word {
    Xored3(Xored3(Pick(row & 1 != 0, 0x0EDB_8832), Pick(row & 2 != 0, 0x1DB7_1064), Pick(row & 4 != 0, 0x3B6E_20C8)),
           Pick(row & 8 != 0, 0x76DC_4190), Pick(row & 16 != 0, 0xEDB8_8320))
  }

  function ColumnSeed(column: Byte): Word {
    Xored3(Pick(column & 1 != 0, 0x7707_3096), Pick(column & 2 != 0, 0xEE0E_612C), Pick(column & 4 != 0, 0x076D_C419))
  }

  function RowFrom(x: Word): seq<Word> {
    [x ^ 0x0000_0000, x ^ 0x7707_3096, x ^ 0xEE0E_612C, x ^ 0x9909_51BA,
     x ^ 0x076D_C419, x ^ 0x706A_F48F, x ^ 0xE963_A535, x ^ 0x9E64_95A3]
  }

  lemma Rows0(row: Byte)
    requires row < 2
    ensures CRC_TABLE[row as int] == RowFrom(RowSeed(row))
  {}

  lemma Rows2(row: Byte)
    requires 2 <= row < 4
    ensures CRC_TABLE[row as int] == RowFrom(RowSeed(row))
  {}

  lemma Rows4(row: Byte)
    requires 4 <= row < 6
    ensures CRC_TABLE[row as int] == RowFrom(RowSeed(row))
  {}

  lemma Rows6(row: Byte)
    requires 6 <= row < 8
    ensures CRC_TABLE[row as int] == RowFrom(RowSeed(row))
  {}

  lemma Rows8(row: Byte)
    requires 8 <= row < 10
    ensures CRC_TABLE[row as int] == RowFrom(RowSeed(row))
  {}

  lemma Rows10(row: Byte)
    requires 10 <= row < 12
    ensures CRC_TABLE[row as int] == RowFrom(RowSeed(row))
  {}

  lemma Rows12(row: Byte)
    requires 12 <= row < 16
    ensures CRC_TABLE[row as int] == RowFrom(RowSeed(row))
  {}

  lemma Rows16(row: Byte)
    requires 16 <= row < 20
    ensures CRC_TABLE[row as int] == RowFrom(RowSeed(row))
  {}

  lemma Rows20(row: Byte)
    requires 20 <= row < 24
    ensures CRC_TABLE[row as int] == RowFrom(RowSeed(row))
  {}

  lemma Rows24(row: Byte)
    requires 24 <= row < 28
    ensures CRC_TABLE[row as int] == RowFrom(RowSeed(row))
  {}

  lemma Rows28(row: Byte)
    requires 28 <= row < 32
    ensures CRC_TABLE[row as int] == RowFrom(RowSeed(row))
  {}

  lemma Columns(x: Word, column: Byte)
    requires column < 8
    ensures RowFrom(x)[column as int] == Xored(x, ColumnSeed(column))
  {
    if column == 0 {} else if column == 1 {} else if column == 2 {} else if column == 3 {}
    else if column == 4 {} else if column == 5 {} else if column == 6 {}
  }

  lemma LookupSeeds(index: Byte)
    ensures Lookup(index) == Xored(RowSeed(index >> 3), ColumnSeed(index & 7))
  {
    var row := index >> 3;
    if row < 2 { Rows0(row); } else if row < 4 { Rows2(row); } else if row < 6 { Rows4(row); }
    else if row < 8 { Rows6(row); } else if row < 10 { Rows8(row); } else if row < 12 { Rows10(row); }
    else if row < 16 { Rows12(row); } else if row < 20 { Rows16(row); } else if row < 24 { Rows20(row); }
    else if row < 28 { Rows24(row); } else { Rows28(row); }
    Columns(RowSeed(row), index & 7);
    hide RowSeed, RowFrom, ColumnSeed;
  }

  lemma Basis()
    ensures Shift(1, 8) == 0x7707_3096 && Shift(2, 8) == 0xEE0E_612C && Shift(4, 8) == 0x076D_C419
    ensures Shift(8, 8) == 0x0EDB_8832 && Shift(16, 8) == 0x1DB7_1064 && Shift(32, 8) == 0x3B6E_20C8
    ensures Shift(64, 8) == 0x76DC_4190 && Shift(128, 8) == 0xEDB8_8320
  {}

  ghost predicate ShiftsTo(x: Word, y: Word) {
    Reg(y) == GENERATOR.Divide(Reg(x), ZeroBits(8))
  }

  lemma ShiftsToXor(x: Word, y: Word, x': Word, y': Word)
    requires ShiftsTo(x, y) && ShiftsTo(x', y')
    ensures ShiftsTo(Xored(x, x'), Xored(y, y'))
  {
    RegXor(x, x');
    RegXor(y, y');
    RegBelow(x);
    DivideAdd(GENERATOR, Reg(x), Reg(x'), ZeroBits(8), ZeroBits(8));
    XorZeros(8);
  }

  lemma PickShiftsTo(w: Word, m: Word, x: Word)
    requires w & m == 0 || w & m == m
    requires m != 0 && Shift(m, 8) == x
    ensures ShiftsTo(w & m, Pick(w & m != 0, x))
  {
    RegShifts(w & m, 8);
    hide Reg;
    if w & m == 0 {
      assert Shift(0, 8) == 0;
    }
  }

  /** The bits of an index, as words, grouped as the table seeds are. */
  function RowBits(w: Word): Word {
    Xored3(Xored3(w & 8, w & 16, w & 32), w & 64, w & 128)
  }

  function ColumnBits(w: Word): Word {
    Xored3(w & 1, w & 2, w & 4)
  }

  lemma IndexBits(i: Byte)
    ensures var w, row, column := i as Word, i >> 3, i & 7;
      && Xored(RowBits(w), ColumnBits(w)) == w
      && (row & 1 != 0) == (w & 8 != 0) && (row & 2 != 0) == (w & 16 != 0) && (row & 4 != 0) == (w & 32 != 0)
      && (row & 8 != 0) == (w & 64 != 0) && (row & 16 != 0) == (w & 128 != 0)
      && (column & 1 != 0) == (w & 1 != 0) && (column & 2 != 0) == (w & 2 != 0) && (column & 4 != 0) == (w & 4 != 0)
  {}

  lemma OneBit(w: Word)
    ensures (w & 1 == 0 || w & 1 == 1) && (w & 2 == 0 || w & 2 == 2) && (w & 4 == 0 || w & 4 == 4)
    ensures (w & 8 == 0 || w & 8 == 8) && (w & 16 == 0 || w & 16 == 16) && (w & 32 == 0 || w & 32 == 32)
    ensures (w & 64 == 0 || w & 64 == 64) && (w & 128 == 0 || w & 128 == 128)
  {}

  lemma ShiftsToXor3(a: Word, a': Word, b: Word, b': Word, c: Word, c': Word)
    requires ShiftsTo(a, a') && ShiftsTo(b, b') && ShiftsTo(c, c')
    ensures ShiftsTo(Xored3(a, b, c), Xored3(a', b', c'))
  {
    ShiftsToXor(a, a', b, b');
    ShiftsToXor(Xored(a, b), Xored(a', b'), c, c');
    hide Xored, ShiftsTo;
  }

  lemma RowShiftsTo(w: Word, row: Byte)
    requires (row & 1 != 0) == (w & 8 != 0) && (row & 2 != 0) == (w & 16 != 0) && (row & 4 != 0) == (w & 32 != 0)
    requires (row & 8 != 0) == (w & 64 != 0) && (row & 16 != 0) == (w & 128 != 0)
    ensures ShiftsTo(RowBits(w), RowSeed(row))
  {
    hide *;
    var a, b, c, d, e := w & 8, w & 16, w & 32, w & 64, w & 128;
    var a', b', c' := Pick(a != 0, 0x0EDB_8832), Pick(b != 0, 0x1DB7_1064), Pick(c != 0, 0x3B6E_20C8);
    var d', e' := Pick(d != 0, 0x76DC_4190), Pick(e != 0, 0xEDB8_8320);
    assert ShiftsTo(a, a') && ShiftsTo(b, b') && ShiftsTo(c, c') && ShiftsTo(d, d') && ShiftsTo(e, e') by {
      Basis();
      OneBit(w);
      PickShiftsTo(w, 8, 0x0EDB_8832);
      PickShiftsTo(w, 16, 0x1DB7_1064);
      PickShiftsTo(w, 32, 0x3B6E_20C8);
      PickShiftsTo(w, 64, 0x76DC_4190);
      PickShiftsTo(w, 128, 0xEDB8_8320);
    }
    ShiftsToXor3(a, a', b, b', c, c');
    ShiftsToXor3(Xored3(a, b, c), Xored3(a', b', c'), d, d', e, e');
    RowParts(w, row);
  }

  lemma RowParts(w: Word, row: Byte)
    requires (row & 1 != 0) == (w & 8 != 0) && (row & 2 != 0) == (w & 16 != 0) && (row & 4 != 0) == (w & 32 != 0)
    requires (row & 8 != 0) == (w & 64 != 0) && (row & 16 != 0) == (w & 128 != 0)
    ensures RowBits(w) == Xored3(Xored3(w & 8, w & 16, w & 32), w & 64, w & 128)
    ensures RowSeed(row) == Xored3(Xored3(Pick(w & 8 != 0, 0x0EDB_8832), Pick(w & 16 != 0, 0x1DB7_1064),
                                          Pick(w & 32 != 0, 0x3B6E_20C8)),
                                   Pick(w & 64 != 0, 0x76DC_4190), Pick(w & 128 != 0, 0xEDB8_8320))
  {}

  lemma ColumnShiftsTo(w: Word, column: Byte)
    requires (column & 1 != 0) == (w & 1 != 0) && (column & 2 != 0) == (w & 2 != 0) && (column & 4 != 0) == (w & 4 != 0)
    ensures ShiftsTo(ColumnBits(w), ColumnSeed(column))
  {
    Basis();
    OneBit(w);
    PickShiftsTo(w, 1, 0x7707_3096);
    PickShiftsTo(w, 2, 0xEE0E_612C);
    PickShiftsTo(w, 4, 0x076D_C419);
    hide Pick, Xored3, Shift, ShiftsTo;
    ShiftsToXor3(w & 1, Pick(w & 1 != 0, 0x7707_3096), w & 2, Pick(w & 2 != 0, 0xEE0E_612C),
                 w & 4, Pick(w & 4 != 0, 0x076D_C419));
  }

  /** Every entry of the lookup table is eight division steps of its own index. */
  lemma TableEntry(i: Byte)
    ensures Reg(Lookup(i)) == GENERATOR.Divide(Reg(i as Word), ZeroBits(8))
  {
    var w := i as Word;
    IndexBits(i);
    LookupSeeds(i);
    RowShiftsTo(w, i >> 3);
    ColumnShiftsTo(w, i & 7);
    ShiftsToXor(RowBits(w), RowSeed(i >> 3), ColumnBits(w), ColumnSeed(i & 7));
    assert ShiftsTo(w, Lookup(i));
    hide Lookup, Reg, Xored, RowSeed, ColumnSeed, RowBits, ColumnBits;
  }

  // ----- One table step is eight division steps

  lemma ByteBit(b: Byte, i: bv5)
    ensures i < 8 ==> i as int < 8 && Bit(b as Word, i) == ByteBits(b)[i as int]
    ensures i >= 8 ==> i as int >= 8 && !Bit(b as Word, i)
  {
    if i == 0 {} else if i == 1 {} else if i == 2 {} else if i == 3 {}
    else if i == 4 {} else if i == 5 {} else if i == 6 {} else if i == 7 {}
  }

  lemma RegByte(b: Byte)
    ensures Reg(b as Word) == Leading(32, ByteBits(b))
  {
    forall e: nat | e < 32 ensures e in Reg(b as Word) <==> e in Leading(32, ByteBits(b)) {
      ByteBit(b, Place(e));
      if 24 <= e {
        assert e == 32 - 1 - (31 - e);
      }
    }
  }

  lemma IndexOf(c: Word, ch: Byte, signedChar: bool)
    ensures (((c ^ Promote(ch, signedChar)) & 0xFF) as Byte) as Word == Xored(c, ch as Word) & 0xFF
    ensures Xored(c, ch as Word) >> 8 == c >> 8
  {}

  /** The part of the register that a table step only moves, and the part it looks up. */
  lemma SplitAtByte(x: Word) returns (low: Poly)
    ensures Reg(x >> 8) == GENERATOR.Divide(low, ZeroBits(8))
    ensures Add(Reg(x & 0xFF), low) == Reg(x)
  {
    low := set e | e in Reg(x) && e < 24;
    RegLow(x);
    RegShift8(x);
    RegBelow(x);
    DivideZeros(GENERATOR, low, 8);
    hide Reg;
  }

  lemma ComputeParts(c: Word, ch: Byte, signedChar: bool) returns (index: Byte)
    ensures Compute(c, ch, signedChar) == Xored(Lookup(index), Xored(c, ch as Word) >> 8)
    ensures index as Word == Xored(c, ch as Word) & 0xFF
  {
    index := ((c ^ Promote(ch, signedChar)) & 0xFF) as Byte;
    IndexOf(c, ch, signedChar);
    hide Lookup;
  }

  /** COMPUTE brings down the eight bits of a byte, whichever way `char` is promoted. */
  lemma ComputeDivides(c: Word, ch: Byte, signedChar: bool)
    ensures Reg(Compute(c, ch, signedChar)) == GENERATOR.Divide(Reg(c), ByteBits(ch))
  {
    hide *;
    var x, z := Xored(c, ch as Word), ZeroBits(8);
    var index := ComputeParts(c, ch, signedChar);
    var low := SplitAtByte(x);
    RegXor(Lookup(index), x >> 8);
    TableEntry(index);
    RegBelow(c);
    DivideAdd(GENERATOR, Reg(x & 0xFF), low, z, z);
    XorZeros(8);
    RegXor(c, ch as Word);
    RegByte(ch);
    AbsorbBits(GENERATOR, Reg(c), ByteBits(ch));
  }

  // ----- Whole messages

  function Run(c: Word, data: seq<Byte>, signedChar: bool): Word {
    if data == [] then c else Compute(Run(c, data[..|data| - 1], signedChar), data[|data| - 1], signedChar)
  }

  /** What the buffer overload returns: the register is inverted on the way in and on the way out. */
  function Crc(data: seq<Byte>, crc: Word, signedChar: bool): Word {
    Inverted(Run(Inverted(crc), data, signedChar))
  }

  function Inverted(c: Word): Word {
    !c
  }

  lemma InvertedTwice(c: Word)
    ensures Inverted(Inverted(c)) == c
  {}

  /** The table-driven loop is long division of the message by the generator. */
  lemma {:induction false} RunDivides(c: Word, data: seq<Byte>, signedChar: bool)
    ensures Reg(Run(c, data, signedChar)) == GENERATOR.Divide(Reg(c), Bits(data))
    decreases |data|
  {
    hide Compute, ByteBits, Reg;
    if data != [] {
      var front, last := data[..|data| - 1], data[|data| - 1];
      RunDivides(c, front, signedChar);
      ComputeDivides(Run(c, front, signedChar), last, signedChar);
      RegBelow(c);
      DivideSplit(GENERATOR, Reg(c), Bits(front), ByteBits(last));
    }
  }

  /** The returned value, uninverted, is the remainder of the message (preceded by the register,
      followed by as many zero bits as the generator has degree) divided by the generator. */
  lemma {:induction false} CrcIsRemainder(data: seq<Byte>, crc: Word, signedChar: bool) returns (q: seq<bool>)
    ensures Dividend(GENERATOR, Reg(Inverted(crc)), Bits(data))
         == Add(GENERATOR.Multiple(q), Reg(Inverted(Crc(data, crc, signedChar))))
    ensures Below(Reg(Inverted(Crc(data, crc, signedChar))), GENERATOR.width)
  {
    hide Reg, Bits, Run, Inverted;
    RunDivides(Inverted(crc), data, signedChar);
    RegBelow(Inverted(crc));
    q := DivideIsRemainder(GENERATOR, Reg(Inverted(crc)), Bits(data));
    InvertedTwice(Run(Inverted(crc), data, signedChar));
  }

  lemma LowBits(x: Word, y: Word)
    requires Bit(x, 0) == Bit(y, 0) && Bit(x, 1) == Bit(y, 1) && Bit(x, 2) == Bit(y, 2) && Bit(x, 3) == Bit(y, 3)
    requires Bit(x, 4) == Bit(y, 4) && Bit(x, 5) == Bit(y, 5) && Bit(x, 6) == Bit(y, 6) && Bit(x, 7) == Bit(y, 7)
    requires Bit(x, 8) == Bit(y, 8) && Bit(x, 9) == Bit(y, 9) && Bit(x, 10) == Bit(y, 10) && Bit(x, 11) == Bit(y, 11)
    requires Bit(x, 12) == Bit(y, 12) && Bit(x, 13) == Bit(y, 13)
    requires Bit(x, 14) == Bit(y, 14) && Bit(x, 15) == Bit(y, 15)
    ensures x & 0xFFFF == y & 0xFFFF
  {}

  lemma HighBits(x: Word, y: Word)
    requires Bit(x, 16) == Bit(y, 16) && Bit(x, 17) == Bit(y, 17)
    requires Bit(x, 18) == Bit(y, 18) && Bit(x, 19) == Bit(y, 19)
    requires Bit(x, 20) == Bit(y, 20) && Bit(x, 21) == Bit(y, 21)
    requires Bit(x, 22) == Bit(y, 22) && Bit(x, 23) == Bit(y, 23)
    requires Bit(x, 24) == Bit(y, 24) && Bit(x, 25) == Bit(y, 25)
    requires Bit(x, 26) == Bit(y, 26) && Bit(x, 27) == Bit(y, 27)
    requires Bit(x, 28) == Bit(y, 28) && Bit(x, 29) == Bit(y, 29)
    requires Bit(x, 30) == Bit(y, 30) && Bit(x, 31) == Bit(y, 31)
    ensures x >> 16 == y >> 16
  {}

  lemma Halves(x: Word, y: Word)
    requires x & 0xFFFF == y & 0xFFFF && x >> 16 == y >> 16
    ensures x == y
  {}

  lemma SameBits(x: Word, y: Word)
    requires forall i: bv5 :: Bit(x, i) == Bit(y, i)
    ensures x == y
  {
    hide Bit;
    LowBits(x, y);
    HighBits(x, y);
    Halves(x, y);
  }

  lemma DifferingBit(x: Word, y: Word) returns (i: bv5)
    requires x != y
    ensures Bit(x, i) != Bit(y, i)
  {
    hide Bit;
    assert exists j: bv5 :: Bit(x, j) != Bit(y, j) by {
      if forall j: bv5 :: Bit(x, j) == Bit(y, j) {
        SameBits(x, y);
      }
    }
    i :| Bit(x, i) != Bit(y, i);
  }

  lemma RegDiffers(x: Word, y: Word)
    requires x != y
    ensures Reg(x) != Reg(y)
  {
    var i := DifferingBit(x, y);
    var e := 31 - i as int;
    Same(Place(e), i);
    assert (e in Reg(x) <==> Bit(x, i)) && (e in Reg(y) <==> Bit(y, i));
  }

  /** The polynomial determines the register, so the division above pins the checksum down. */
  lemma RegInjective(x: Word, y: Word)
    requires Reg(x) == Reg(y)
    ensures x == y
  {
    if x != y {
      RegDiffers(x, y);
    }
  }

  /** Whether `char` is signed makes no difference. */
  lemma {:induction false} SignIrrelevant(data: seq<Byte>, c: Word)
    ensures Run(c, data, true) == Run(c, data, false)
    ensures Crc(data, c, true) == Crc(data, c, false)
  {
    RunSign(data, c);
    RunSign(data, Inverted(c));
    hide Run, Inverted;
  }

  lemma {:induction false} RunSign(data: seq<Byte>, c: Word)
    ensures Run(c, data, true) == Run(c, data, false)
    decreases |data|
  {
    hide Compute;
    if data != [] {
      var front, last := data[..|data| - 1], data[|data| - 1];
      RunSign(front, c);
      ComputeSign(Run(c, front, true), last);
    }
  }

  lemma SameByte(i: Byte, j: Byte)
    requires i as Word == j as Word
    ensures i == j
  {}

  lemma ComputeSign(c: Word, ch: Byte)
    ensures Compute(c, ch, true) == Compute(c, ch, false)
  {
    var i := ComputeParts(c, ch, true);
    var j := ComputeParts(c, ch, false);
    SameByte(i, j);
    hide *;
  }

  /** Checksums chain: a message may be fed in pieces. */
  lemma CrcChained(a: seq<Byte>, b: seq<Byte>, crc: Word, signedChar: bool)
    ensures Crc(a + b, crc, signedChar) == Crc(b, Crc(a, crc, signedChar), signedChar)
  {
    hide Run, Inverted;
    RunSplit(Inverted(crc), a, b, signedChar);
    InvertedTwice(Run(Inverted(crc), a, signedChar));
  }

  lemma {:induction false} RunSplit(c: Word, a: seq<Byte>, b: seq<Byte>, signedChar: bool)
    ensures Run(c, a + b, signedChar) == Run(Run(c, a, signedChar), b, signedChar)
    decreases |b|
  {
    hide Compute;
    if b == [] {
      assert a + b == a;
    } else {
      assert (a + b)[..|a + b| - 1] == a + b[..|b| - 1];
      RunSplit(c, a, b[..|b| - 1], signedChar);
    }
  }

  /** Any two messages of one length whose bits differ only inside 32 consecutive bits, at whatever
      bit position, have different checksums from the same start value. */
  lemma {:induction false} BurstChangesCrc(a: seq<Byte>, b: seq<Byte>, crc: Word, signedChar: bool, lo: nat, hi: nat)
    requires |a| == |b| && a != b && lo <= hi <= 8 * |a| && hi - lo <= 32
    requires forall i | 0 <= i < 8 * |a| && !(lo <= i < hi) :: Bits(a)[i] == Bits(b)[i]
    ensures Crc(a, crc, signedChar) != Crc(b, crc, signedChar)
  {
    hide Reg, ByteBits, Run, Bits, Inverted;
    var c := Inverted(crc);
    RunDivides(c, a, signedChar);
    RunDivides(c, b, signedChar);
    RegBelow(c);
    BitsDiffer(a, b);
    BurstDetected(GENERATOR, Reg(c), Bits(a), Bits(b), lo, hi);
    InvertedTwice(Run(c, a, signedChar));
    InvertedTwice(Run(c, b, signedChar));
  }

  /** In particular any change confined to 4 consecutive bytes is detected. */
  lemma WindowChangesCrc(a: seq<Byte>, b: seq<Byte>, crc: Word, signedChar: bool, at: nat)
    requires |a| == |b| && a != b
    requires forall i | 0 <= i < |a| && !(at <= i < at + 4) :: a[i] == b[i]
    ensures Crc(a, crc, signedChar) != Crc(b, crc, signedChar)
  {
    var lo, hi := if at <= |a| then 8 * at else 8 * |a|, if at + 4 <= |a| then 8 * (at + 4) else 8 * |a|;
    forall j | 0 <= j < 8 * |a| && !(lo <= j < hi) ensures Bits(a)[j] == Bits(b)[j] {
      var i := j / 8;
      BitsAt(a, i);
      BitsAt(b, i);
      assert Bits(a)[j] == Bits(a)[8 * i..8 * i + 8][j - 8 * i];
      assert Bits(b)[j] == Bits(b)[8 * i..8 * i + 8][j - 8 * i];
    }
    BurstChangesCrc(a, b, crc, signedChar, lo, hi);
  }

  // ----- The frame check sequence of RFC 1662

  /** The checksum as it is sent: least significant byte first. */
  function Fcs(w: Word): (f: seq<Byte>)
    ensures |f| == 4
  {
    [(w & 0xFF) as Byte, ((w >> 8) & 0xFF) as Byte, ((w >> 16) & 0xFF) as Byte, ((w >> 24) & 0xFF) as Byte]
  }

  lemma ByteOf(w: Word, k: bv5, j: bv5)
    requires k <= 24 && j < 8
    ensures Bit((w >> k) & 0xFF, j) == Bit(w, k + j)
  {}

  lemma Sum(i: bv5, k: bv5, j: bv5)
    requires i as int == k as int + j as int
    ensures i == k + j
  {}

  lemma FcsAt(w: Word, m: nat, j: bv5) returns (k: bv5)
    requires m < 4 && j < 8
    ensures k as int == 8 * m && Bit(Fcs(w)[m] as Word, j) == Bit(w, k + j)
  {
    if m == 0 {
      k := 0;
      ByteOf(w, 0, j);
    } else if m == 1 {
      k := 8;
      ByteOf(w, 8, j);
    } else if m == 2 {
      k := 16;
      ByteOf(w, 16, j);
    } else {
      k := 24;
      ByteOf(w, 24, j);
    }
  }

  lemma FcsByte(w: Word, m: nat, i: bv5, j: bv5)
    requires m < 4 && j < 8 && i as int == 8 * m + j as int
    ensures j as int < 8 && ByteBits(Fcs(w)[m])[j as int] == Bit(w, i)
  {
    hide *;
    var k := FcsAt(w, m, j);
    ByteBit(Fcs(w)[m], j);
    Sum(i, k, j);
  }

  lemma FcsBits(w: Word, i: bv5)
    ensures Bits(Fcs(w))[i as int] == Bit(w, i)
  {
    var j, m: nat := i & 7, i as int / 8;
    Octet(i);
    FcsByte(w, m, i, j);
    BitsAt(Fcs(w), m);
    assert Bits(Fcs(w))[i as int] == Bits(Fcs(w))[8 * m..8 * m + 8][j as int];
    hide *;
  }

  lemma Octet(i: bv5)
    ensures (i & 7) as int == i as int % 8
  {}

  lemma RegFcsAt(w: Word, e: nat)
    requires e < 32
    ensures e in Reg(w) <==> Bits(Fcs(w))[31 - e]
  {
    FcsBits(w, Place(e));
    hide Bits, Fcs, Bit, Place;
  }

  lemma RegFcs(w: Word)
    ensures Reg(w) == Leading(32, Bits(Fcs(w)))
  {
    hide Reg, Bits;
    RegBelow(w);
    var bits := Bits(Fcs(w));
    forall e: nat | e < 32 ensures e in Reg(w) <==> e in Leading(32, bits) {
      RegFcsAt(w, e);
      assert e == 32 - 1 - (31 - e);
    }
  }

  lemma {:induction false} ShiftTwice(c: Word, m: nat, n: nat)
    ensures Shift(Shift(c, m), n) == Shift(c, m + n)
    decreases n
  {
    hide ShiftBit;
    if n > 0 {
      ShiftTwice(c, m, n - 1);
    }
  }

  /** The register that a frame with a correct check sequence leaves. */
  const GOOD_FCS: Word := 0xDEBB_20E3

  lemma GoodFcsIs()
    ensures Shift(0xFFFF_FFFF, 32) == GOOD_FCS
  {
    assert Shift(0xFFFF_FFFF, 8) == 0x2DFD_1072;
    assert Shift(0x2DFD_1072, 8) == 0xBE26_ED00;
    assert Shift(0xBE26_ED00, 8) == 0x00BE_26ED;
    assert Shift(0x00BE_26ED, 8) == 0xDEBB_20E3;
    hide *;
    ShiftTwice(0xFFFF_FFFF, 8, 8);
    ShiftTwice(0xFFFF_FFFF, 16, 8);
    ShiftTwice(0xFFFF_FFFF, 24, 8);
  }

  lemma Complement(w: Word)
    ensures Xored(w, Inverted(w)) == 0xFFFF_FFFF
  {}

  lemma FcsLeavesGood(w: Word, signedChar: bool)
    ensures Run(w, Fcs(Inverted(w)), signedChar) == GOOD_FCS
  {
    hide *;
    var f := Fcs(Inverted(w));
    RunDivides(w, f, signedChar);
    RegBelow(w);
    AbsorbBits(GENERATOR, Reg(w), Bits(f));
    RegFcs(Inverted(w));
    RegXor(w, Inverted(w));
    Complement(w);
    RegShifts(0xFFFF_FFFF, 32);
    GoodFcsIs();
    RegInjective(Run(w, f, signedChar), GOOD_FCS);
  }

  /** A frame whose last 4 bytes are `f` checks to the constant if and only if `f` is the checksum of
      what precedes it (RFC 1662, Appendix C). */
  lemma GoodFrame(data: seq<Byte>, f: seq<Byte>, crc: Word, signedChar: bool)
    requires |f| == 4
    ensures Crc(data + f, crc, signedChar) == Inverted(GOOD_FCS) <==> f == Fcs(Crc(data, crc, signedChar))
  {
    var w, fcs := Run(Inverted(crc), data, signedChar), Fcs(Crc(data, crc, signedChar));
    hide Run, Inverted, Fcs;
    RunSplit(Inverted(crc), data, fcs, signedChar);
    FcsLeavesGood(w, signedChar);
    if f != fcs {
      assert (data + f)[|data|..] == f && (data + fcs)[|data|..] == fcs;
      WindowChangesCrc(data + f, data + fcs, crc, signedChar, |data|);
    }
  }

  // ----- The three overloads

  /** The buffer overload. */
  method Buffer(buffer: seq<Byte>, crc: Word, signedChar: bool) returns (r: Word)
    ensures r == Crc(buffer, crc, signedChar)
  {
    hide Compute;
    var c := Inverted(crc);
    for p := 0 to |buffer|
      invariant c == Run(Inverted(crc), buffer[..p], signedChar)
    {
      assert buffer[..p + 1][..p] == buffer[..p];
      c := Compute(c, buffer[p], signedChar);
    }
    assert buffer[..|buffer|] == buffer;
    return Inverted(c);
  }

  /** The string overload, from the initial register of all ones. */
  method String(s: seq<Byte>, signedChar: bool) returns (r: Word)
    requires 0 in s
    ensures r == Crc(UpToNul(s), 0, signedChar)
  {
    hide Compute;
    var c: Word := 0xFFFF_FFFF;
    var p := 0;
    while s[p] != 0
      invariant p < |s| && 0 !in s[..p] && 0 in s[p..]
      invariant c == Run(Inverted(0), s[..p], signedChar)
      decreases |s| - p
    {
      assert s[..p + 1][..p] == s[..p];
      c := Compute(c, s[p], signedChar);
      p := p + 1;
    }
    UpToNulIs(s, p);
    return Inverted(c);
  }

  /** The gather overload. */
  method Iovec(iov: seq<seq<Byte>>, crc: Word, signedChar: bool) returns (r: Word)
    ensures r == Crc(Flatten(iov), crc, signedChar)
  {
    hide Compute;
    var c := Inverted(crc);
    for i := 0 to |iov|
      invariant c == Run(Inverted(crc), Flatten(iov[..i]), signedChar)
    {
      ghost var before := Flatten(iov[..i]);
      assert before + iov[i][..0] == before;
      for p := 0 to |iov[i]|
        invariant c == Run(Inverted(crc), before + iov[i][..p], signedChar)
      {
        assert (before + iov[i][..p + 1])[..|before| + p] == before + iov[i][..p];
        c := Compute(c, iov[i][p], signedChar);
      }
      assert iov[..i + 1][..i] == iov[..i];
      assert iov[i][..|iov[i]|] == iov[i];
    }
    assert iov[..|iov|] == iov;
    return Inverted(c);
  }
}
