/** The table-driven CRC-32 of the configuration files: it is the bit-serial division, and can be computed in pieces. */
module Crc32 {
  import P = Polynomials

  /** The generator, with the lowest power in the highest bit. */
  const GENERATOR: bv32 := 0xEDB8_8320

  /** Polynomials over two elements are added bit by bit. */
  function Plus(a: bv32, b: bv32): bv32 {
    a ^ b
  }

  function Wide(b: bv8): bv32 {
    b as bv32
  }

  predicate Odd(c: bv32) {
    c & 1 == 1
  }

  function Half(c: bv32): bv32 {
    c >> 1
  }

  /** One step of the division. */
  function Step(c: bv32): bv32 {
    if Odd(c) then Plus(Half(c), GENERATOR) else Half(c)
  }

  /** The eight steps for a byte. */
  function Steps(c: bv32): bv32 {
    Step(Step(Step(Step(Step(Step(Step(Step(c))))))))
  }

  /** Bit-serial division of a message, from any register. */
  function Serial(c: bv32, message: seq<bv8>): bv32
    decreases |message|
  {
    if message == [] then c else Serial(Steps(Plus(c, Wide(message[0]))), message[1..])
  }

  const ROW_0: seq<bv32> := [
    0x0000_0000, 0x7707_3096, 0xEE0E_612C, 0x9909_51BA, 0x076D_C419, 0x706A_F48F, 0xE963_A535, 0x9E64_95A3,
    0x0EDB_8832, 0x79DC_B8A4, 0xE0D5_E91E, 0x97D2_D988, 0x09B6_4C2B, 0x7EB1_7CBD, 0xE7B8_2D07, 0x90BF_1D91]
  const ROW_1: seq<bv32> := [
    0x1DB7_1064, 0x6AB0_20F2, 0xF3B9_7148, 0x84BE_41DE, 0x1ADA_D47D, 0x6DDD_E4EB, 0xF4D4_B551, 0x83D3_85C7,
    0x136C_9856, 0x646B_A8C0, 0xFD62_F97A, 0x8A65_C9EC, 0x1401_5C4F, 0x6306_6CD9, 0xFA0F_3D63, 0x8D08_0DF5]
  const ROW_2: seq<bv32> := [
    0x3B6E_20C8, 0x4C69_105E, 0xD560_41E4, 0xA267_7172, 0x3C03_E4D1, 0x4B04_D447, 0xD20D_85FD, 0xA50A_B56B,
    0x35B5_A8FA, 0x42B2_986C, 0xDBBB_C9D6, 0xACBC_F940, 0x32D8_6CE3, 0x45DF_5C75, 0xDCD6_0DCF, 0xABD1_3D59]
  const ROW_3: seq<bv32> := [
    0x26D9_30AC, 0x51DE_003A, 0xC8D7_5180, 0xBFD0_6116, 0x21B4_F4B5, 0x56B3_C423, 0xCFBA_9599, 0xB8BD_A50F,
    0x2802_B89E, 0x5F05_8808, 0xC60C_D9B2, 0xB10B_E924, 0x2F6F_7C87, 0x5868_4C11, 0xC161_1DAB, 0xB666_2D3D]
  const ROW_4: seq<bv32> := [
    0x76DC_4190, 0x01DB_7106, 0x98D2_20BC, 0xEFD5_102A, 0x71B1_8589, 0x06B6_B51F, 0x9FBF_E4A5, 0xE8B8_D433,
    0x7807_C9A2, 0x0F00_F934, 0x9609_A88E, 0xE10E_9818, 0x7F6A_0DBB, 0x086D_3D2D, 0x9164_6C97, 0xE663_5C01]
  const ROW_5: seq<bv32> := [
    0x6B6B_51F4, 0x1C6C_6162, 0x8565_30D8, 0xF262_004E, 0x6C06_95ED, 0x1B01_A57B, 0x8208_F4C1, 0xF50F_C457,
    0x65B0_D9C6, 0x12B7_E950, 0x8BBE_B8EA, 0xFCB9_887C, 0x62DD_1DDF, 0x15DA_2D49, 0x8CD3_7CF3, 0xFBD4_4C65]
  const ROW_6: seq<bv32> := [
    0x4DB2_6158, 0x3AB5_51CE, 0xA3BC_0074, 0xD4BB_30E2, 0x4ADF_A541, 0x3DD8_95D7, 0xA4D1_C46D, 0xD3D6_F4FB,
    0x4369_E96A, 0x346E_D9FC, 0xAD67_8846, 0xDA60_B8D0, 0x4404_2D73, 0x3303_1DE5, 0xAA0A_4C5F, 0xDD0D_7CC9]
  const ROW_7: seq<bv32> := [
    0x5005_713C, 0x2702_41AA, 0xBE0B_1010, 0xC90C_2086, 0x5768_B525, 0x206F_85B3, 0xB966_D409, 0xCE61_E49F,
    0x5EDE_F90E, 0x29D9_C998, 0xB0D0_9822, 0xC7D7_A8B4, 0x59B3_3D17, 0x2EB4_0D81, 0xB7BD_5C3B, 0xC0BA_6CAD]
  const ROW_8: seq<bv32> := [
    0xEDB8_8320, 0x9ABF_B3B6, 0x03B6_E20C, 0x74B1_D29A, 0xEAD5_4739, 0x9DD2_77AF, 0x04DB_2615, 0x73DC_1683,
    0xE363_0B12, 0x9464_3B84, 0x0D6D_6A3E, 0x7A6A_5AA8, 0xE40E_CF0B, 0x9309_FF9D, 0x0A00_AE27, 0x7D07_9EB1]
  const ROW_9: seq<bv32> := [
    0xF00F_9344, 0x8708_A3D2, 0x1E01_F268, 0x6906_C2FE, 0xF762_575D, 0x8065_67CB, 0x196C_3671, 0x6E6B_06E7,
    0xFED4_1B76, 0x89D3_2BE0, 0x10DA_7A5A, 0x67DD_4ACC, 0xF9B9_DF6F, 0x8EBE_EFF9, 0x17B7_BE43, 0x60B0_8ED5]
  const ROW_10: seq<bv32> := [
    0xD6D6_A3E8, 0xA1D1_937E, 0x38D8_C2C4, 0x4FDF_F252, 0xD1BB_67F1, 0xA6BC_5767, 0x3FB5_06DD, 0x48B2_364B,
    0xD80D_2BDA, 0xAF0A_1B4C, 0x3603_4AF6, 0x4104_7A60, 0xDF60_EFC3, 0xA867_DF55, 0x316E_8EEF, 0x4669_BE79]
  const ROW_11: seq<bv32> := [
    0xCB61_B38C, 0xBC66_831A, 0x256F_D2A0, 0x5268_E236, 0xCC0C_7795, 0xBB0B_4703, 0x2202_16B9, 0x5505_262F,
    0xC5BA_3BBE, 0xB2BD_0B28, 0x2BB4_5A92, 0x5CB3_6A04, 0xC2D7_FFA7, 0xB5D0_CF31, 0x2CD9_9E8B, 0x5BDE_AE1D]
  const ROW_12: seq<bv32> := [
    0x9B64_C2B0, 0xEC63_F226, 0x756A_A39C, 0x026D_930A, 0x9C09_06A9, 0xEB0E_363F, 0x7207_6785, 0x0500_5713,
    0x95BF_4A82, 0xE2B8_7A14, 0x7BB1_2BAE, 0x0CB6_1B38, 0x92D2_8E9B, 0xE5D5_BE0D, 0x7CDC_EFB7, 0x0BDB_DF21]
  const ROW_13: seq<bv32> := [
    0x86D3_D2D4, 0xF1D4_E242, 0x68DD_B3F8, 0x1FDA_836E, 0x81BE_16CD, 0xF6B9_265B, 0x6FB0_77E1, 0x18B7_4777,
    0x8808_5AE6, 0xFF0F_6A70, 0x6606_3BCA, 0x1101_0B5C, 0x8F65_9EFF, 0xF862_AE69, 0x616B_FFD3, 0x166C_CF45]
  const ROW_14: seq<bv32> := [
    0xA00A_E278, 0xD70D_D2EE, 0x4E04_8354, 0x3903_B3C2, 0xA767_2661, 0xD060_16F7, 0x4969_474D, 0x3E6E_77DB,
    0xAED1_6A4A, 0xD9D6_5ADC, 0x40DF_0B66, 0x37D8_3BF0, 0xA9BC_AE53, 0xDEBB_9EC5, 0x47B2_CF7F, 0x30B5_FFE9]
  const ROW_15: seq<bv32> := [
    0xBDBD_F21C, 0xCABA_C28A, 0x53B3_9330, 0x24B4_A3A6, 0xBAD0_3605, 0xCDD7_0693, 0x54DE_5729, 0x23D9_67BF,
    0xB366_7A2E, 0xC461_4AB8, 0x5D68_1B02, 0x2A6F_2B94, 0xB40B_BE37, 0xC30C_8EA1, 0x5A05_DF1B, 0x2D02_EF8D]

  const LOWER: seq<bv32> := ROW_0 + ROW_1 + ROW_2 + ROW_3 + ROW_4 + ROW_5 + ROW_6 + ROW_7

  const UPPER: seq<bv32> := ROW_8 + ROW_9 + ROW_10 + ROW_11 + ROW_12 + ROW_13 + ROW_14 + ROW_15

  const TABLE: seq<bv32> := LOWER + UPPER

  // ----- linearity -----

  lemma HalfPlus(a: bv32, b: bv32)
    ensures Half(Plus(a, b)) == Plus(Half(a), Half(b)) && (Odd(Plus(a, b)) <==> Odd(a) != Odd(b))
  {
  }

  lemma Cancel(a: bv32, b: bv32, p: bv32)
    ensures Plus(Plus(a, p), b) == Plus(Plus(a, b), p) && Plus(a, Plus(b, p)) == Plus(Plus(a, b), p)
    ensures Plus(Plus(a, p), Plus(b, p)) == Plus(a, b)
  {
  }

  lemma StepPlus(a: bv32, b: bv32)
    ensures Step(Plus(a, b)) == Plus(Step(a), Step(b))
  {
    hide Plus, Half, Odd, GENERATOR;
    HalfPlus(a, b);
    Cancel(Half(a), Half(b), GENERATOR);
  }

  lemma StepsPlus(a: bv32, b: bv32)
    ensures Steps(Plus(a, b)) == Plus(Steps(a), Steps(b))
  {
    hide Step, Plus;
    var a1, b1 := Step(a), Step(b);
    var a2, b2 := Step(a1), Step(b1);
    var a3, b3 := Step(a2), Step(b2);
    var a4, b4 := Step(a3), Step(b3);
    var a5, b5 := Step(a4), Step(b4);
    var a6, b6 := Step(a5), Step(b5);
    StepPlus(a, b);
    StepPlus(a1, b1);
    StepPlus(a2, b2);
    StepPlus(a3, b3);
    StepPlus(a4, b4);
    StepPlus(a5, b5);
    StepPlus(a6, b6);
    StepPlus(Step(a6), Step(b6));
  }

  function High(c: bv32): bv32 {
    c & 0xFFFF_FF00
  }

  function Low(c: bv32): (r: bv32)
    ensures r < 256
  {
    c & 0xFF
  }

  function Shifted(c: bv32): bv32 {
    c >> 8
  }

  /** A register whose low byte is zero is only shifted. */
  lemma StepsShift(c: bv32)
    requires c & 0xFF == 0
    ensures Steps(c) == c >> 8
  {
  }

  lemma Parts(c: bv32)
    ensures c == Plus(High(c), Low(c)) && High(c) & 0xFF == 0 && High(c) >> 8 == Shifted(c)
  {
  }

  /** The part of the register above the low byte is only shifted; the low byte decides what is added. */
  lemma StepsTable(c: bv32)
    ensures Steps(c) == Plus(Shifted(c), Steps(Low(c)))
  {
    Parts(c);
    StepsShift(High(c));
    hide Steps, Plus, High, Low, Shifted;
    StepsPlus(High(c), Low(c));
  }

  // ----- the table -----

  /** Eight steps of the division for sixteen bytes in a row. */
  function Entries(b: bv32): (r: seq<bv32>)
    ensures |r| == 16
  {
    [Steps(b), Steps(b + 1), Steps(b + 2), Steps(b + 3), Steps(b + 4), Steps(b + 5), Steps(b + 6), Steps(b + 7),
     Steps(b + 8), Steps(b + 9), Steps(b + 10), Steps(b + 11), Steps(b + 12),
       Steps(b + 13), Steps(b + 14), Steps(b + 15)]
  }

  lemma EntryAt(b: bv32, l: bv32)
    requires l < 16
    ensures 0 <= l as int < 16 && Entries(b)[l as int] == Steps(b + l)
  {
    hide Steps;
    if l < 8 {
      EntryLow(b, l);
    } else if l < 12 {
      assert l == 8 || l == 9 || l == 10 || l == 11;
    } else {
      assert l == 12 || l == 13 || l == 14 || l == 15;
    }
  }

  lemma EntryLow(b: bv32, l: bv32)
    requires l < 8
    ensures 0 <= l as int < 8 && Entries(b)[l as int] == Steps(b + l)
  {
    hide Steps;
    if l < 4 {
      assert l == 0 || l == 1 || l == 2 || l == 3;
    } else {
      assert l == 4 || l == 5 || l == 6 || l == 7;
    }
  }

  lemma Row0()
    ensures ROW_0 == Entries(0)
  {
  }

  lemma Row1()
    ensures ROW_1 == Entries(16)
  {
  }

  lemma Row2()
    ensures ROW_2 == Entries(32)
  {
  }

  lemma Row3()
    ensures ROW_3 == Entries(48)
  {
  }

  lemma Row4()
    ensures ROW_4 == Entries(64)
  {
  }

  lemma Row5()
    ensures ROW_5 == Entries(80)
  {
  }

  lemma Row6()
    ensures ROW_6 == Entries(96)
  {
  }

  lemma Row7()
    ensures ROW_7 == Entries(112)
  {
  }

  lemma Row8()
    ensures ROW_8 == Entries(128)
  {
  }

  lemma Row9()
    ensures ROW_9 == Entries(144)
  {
  }

  lemma Row10()
    ensures ROW_10 == Entries(160)
  {
  }

  lemma Row11()
    ensures ROW_11 == Entries(176)
  {
  }

  lemma Row12()
    ensures ROW_12 == Entries(192)
  {
  }

  lemma Row13()
    ensures ROW_13 == Entries(208)
  {
  }

  lemma Row14()
    ensures ROW_14 == Entries(224)
  {
  }

  lemma Row15()
    ensures ROW_15 == Entries(240)
  {
  }

  lemma LowerEntries()
    ensures LOWER == Entries(0) + Entries(16) + Entries(32) + Entries(48)
      + Entries(64) + Entries(80) + Entries(96) + Entries(112)
  {
    hide Steps, Entries;
    Row0();
    Row1();
    Row2();
    Row3();
    Row4();
    Row5();
    Row6();
    Row7();
  }

  lemma UpperEntries()
    ensures UPPER == Entries(128) + Entries(144) + Entries(160) + Entries(176)
      + Entries(192) + Entries(208) + Entries(224) + Entries(240)
  {
    hide Steps, Entries;
    Row8();
    Row9();
    Row10();
    Row11();
    Row12();
    Row13();
    Row14();
    Row15();
  }

  lemma Nibbles(x: bv32)
    requires x < 256
    ensures var h, l := x & 0xF0, x & 0xF; x == h + l && x as int == h as int + l as int && l < 16
  {
  }

  /** Every entry of the table is eight steps of the division. */
  lemma TableAt(x: bv32)
    requires x < 256
    ensures 0 <= x as int < |TABLE| && TABLE[x as int] == Steps(x)
  {
    hide Steps, Entries, UPPER, LOWER;
    LowerEntries();
    UpperEntries();
    var h, l := x & 0xF0, x & 0xF;
    Nibbles(x);
    EntryAt(h, l);
    if x < 64 {
      assert h == 0 || h == 16 || h == 32 || h == 48;
    } else if x < 128 {
      assert h == 64 || h == 80 || h == 96 || h == 112;
    } else if x < 192 {
      assert h == 128 || h == 144 || h == 160 || h == 176;
    } else {
      assert h == 192 || h == 208 || h == 224 || h == 240;
    }
  }

  // ----- the algorithm -----

  /** crc32_wiki */
  method Crc32Wiki(crc: bv32, p: seq<bv8>) returns (r: bv32)
    ensures r == Serial(crc, p)
  {
    hide Steps, Plus, Low, Shifted, Wide;
    r := crc;
    var i := 0;
    while i < |p|
      invariant i <= |p| && Serial(crc, p) == Serial(r, p[i..])
    {
      assert p[i..][0] == p[i] && p[i..][1..] == p[i + 1..];
      OneByte(r, p[i]);
      r := Plus(Shifted(r), TABLE[Low(Plus(r, Wide(p[i]))) as int]);
      i := i + 1;
    }
    assert p[i..] == [];
  }

  /** The table step takes eight steps of the division at once. */
  lemma OneByte(c: bv32, b: bv8)
    ensures 0 <= Low(Plus(c, Wide(b))) as int < |TABLE|
    ensures Plus(Shifted(c), TABLE[Low(Plus(c, Wide(b))) as int]) == Steps(Plus(c, Wide(b)))
  {
    ShiftedByte(c, b);
    hide Steps, Plus, Low, Shifted, Wide, TABLE;
    var x := Plus(c, Wide(b));
    TableAt(Low(x));
    StepsTable(x);
  }

  lemma ShiftedByte(c: bv32, b: bv8)
    ensures Shifted(Plus(c, Wide(b))) == Shifted(c)
  {
  }

  /** The sum of a message can be computed piece by piece. */
  lemma {:induction false} Pieces(c: bv32, a: seq<bv8>, b: seq<bv8>)
    ensures Serial(c, a + b) == Serial(Serial(c, a), b)
    decreases |a|
  {
    hide Steps, Plus, Wide;
    if a == [] {
      assert a + b == b;
    } else {
      assert (a + b)[0] == a[0] && (a + b)[1..] == a[1..] + b;
      Pieces(Steps(Plus(c, Wide(a[0]))), a[1..], b);
    }
  }

  /** Two messages of the same length, added bit by bit. */
  function Sum(a: seq<bv8>, b: seq<bv8>): (r: seq<bv8>)
    requires |a| == |b|
    ensures |r| == |a|
  {
    if a == [] then [] else [a[0] ^ b[0]] + Sum(a[1..], b[1..])
  }

  lemma PlusPlus(c: bv32, d: bv32, a: bv8, b: bv8)
    ensures Plus(Plus(c, d), Wide(a ^ b)) == Plus(Plus(c, Wide(a)), Plus(d, Wide(b)))
  {
  }

  /** The sum is linear in register and message together. */
  lemma {:induction false} Linear(c: bv32, d: bv32, a: seq<bv8>, b: seq<bv8>)
    requires |a| == |b|
    ensures Serial(Plus(c, d), Sum(a, b)) == Plus(Serial(c, a), Serial(d, b))
    decreases |a|
  {
    hide Steps, Plus, Wide;
    if a != [] {
      PlusPlus(c, d, a[0], b[0]);
      StepsPlus(Plus(c, Wide(a[0])), Plus(d, Wide(b[0])));
      assert Sum(a, b)[0] == a[0] ^ b[0] && Sum(a, b)[1..] == Sum(a[1..], b[1..]);
      Linear(Steps(Plus(c, Wide(a[0]))), Steps(Plus(d, Wide(b[0]))), a[1..], b[1..]);
    }
  }

  // ----- the remainder of polynomials -----

  /** The lowest bits of a word, lowest first; in a register the lowest bit belongs to the highest power. */
  function Bits(c: bv32, n: nat): (r: seq<bool>)
    ensures |r| == n
  {
    if n == 0 then [] else [Odd(c)] + Bits(Half(c), n - 1)
  }

  function Register(c: bv32): (r: seq<bool>)
    ensures |r| == 32
  {
    Bits(c, 32)
  }

  /** The bits of a message in the order of their powers: byte by byte, the lowest bit of each first. */
  function AllBits(message: seq<bv8>): seq<bool> {
    if message == [] then [] else Bits(Wide(message[0]), 8) + AllBits(message[1..])
  }

  function Divisor(): (d: seq<bool>)
    ensures |d| == 33 && d[0]
  {
    [true] + Register(GENERATOR)
  }

  function Halved(c: bv32, n: nat): bv32 {
    if n == 0 then c else Halved(Half(c), n - 1)
  }

  function Unit(bit: bool): bv32 {
    if bit then 1 else 0
  }

  lemma FirstBit(c: bv32, n: nat)
    ensures Bits(c, n + 1) == [Odd(c)] + Bits(Half(c), n)
  {
  }

  lemma HalvedEight(c: bv32, n: nat)
    ensures Halved(c, n + 8) == Halved(Shifted(c), n)
  {
    hide Half;
    var c2, c4, c6 := Half(Half(c)), Half(Half(Half(Half(c)))), Half(Half(Half(Half(Half(Half(c))))));
    assert Halved(c, n + 8) == Halved(c2, n + 6);
    assert Halved(c2, n + 6) == Halved(c4, n + 4);
    assert Halved(c4, n + 4) == Halved(c6, n + 2);
    assert Halved(c6, n + 2) == Halved(Half(Half(c6)), n);
    HalfEight(c);
  }

  lemma HalfEight(c: bv32)
    ensures Half(Half(Half(Half(Half(Half(Half(Half(c)))))))) == Shifted(c)
  {
  }

  /** A word has no more bits than that. */
  lemma HalvedAll(c: bv32)
    ensures Halved(c, 32) == 0
  {
    hide Half, Shifted;
    HalvedEight(c, 24);
    HalvedEight(Shifted(c), 16);
    HalvedEight(Shifted(Shifted(c)), 8);
    HalvedEight(Shifted(Shifted(Shifted(c))), 0);
    NothingLeft(c);
  }

  lemma NothingLeft(c: bv32)
    ensures Shifted(Shifted(Shifted(Shifted(c)))) == 0
  {
  }

  lemma {:induction false} BitsLast(c: bv32, n: nat)
    ensures Bits(c, n + 1) == Bits(c, n) + [Odd(Halved(c, n))]
    decreases n
  {
    hide Odd, Half;
    if n > 0 {
      BitsLast(Half(c), n - 1);
    } else {
      assert Bits(Half(c), 0) == [];
    }
  }

  lemma HalfBits(c: bv32)
    ensures Register(Half(c)) == Register(c)[1..] + [false]
  {
    hide Odd, Half;
    BitsLast(Half(c), 31);
    HalvedAll(c);
    ZeroEven();
  }

  lemma ZeroEven()
    ensures !Odd(0)
  {
  }

  lemma {:induction false} BitsPlus(a: bv32, b: bv32, n: nat)
    ensures forall i :: 0 <= i < n ==> Bits(Plus(a, b), n)[i] == (Bits(a, n)[i] != Bits(b, n)[i])
    decreases n
  {
    hide Odd, Half, Plus, Bits;
    if n > 0 {
      HalfPlus(a, b);
      BitsPlus(Half(a), Half(b), n - 1);
      FirstBit(a, n - 1);
      FirstBit(b, n - 1);
      FirstBit(Plus(a, b), n - 1);
    }
  }

  lemma UnitLow(c: bv32, bit: bool)
    ensures Odd(Plus(c, Unit(bit))) == (Odd(c) != bit) && Half(Plus(c, Unit(bit))) == Half(c)
  {
  }

  /** A step of the division as a step on polynomials. */
  lemma StepNext(c: bv32, bit: bool)
    ensures Register(Step(Plus(c, Unit(bit)))) == P.Next(Register(c), bit, Divisor())
  {
    hide Odd, Half, Plus, Unit, Bits, GENERATOR;
    UnitLow(c, bit);
    HalfBits(c);
    BitsPlus(Half(c), GENERATOR, 32);
    FirstBit(c, 31);
  }

  /** The register after the lowest bits of a word, taken one by one. */
  function Fed(c: bv32, b: bv32, n: nat): bv32
    decreases n
  {
    if n == 0 then c else Fed(Step(Plus(c, Unit(Odd(b)))), Half(b), n - 1)
  }

  function StepTimes(c: bv32, n: nat): bv32
    decreases n
  {
    if n == 0 then c else StepTimes(Step(c), n - 1)
  }

  lemma EightSteps(c: bv32)
    ensures Steps(c) == StepTimes(c, 8)
  {
    hide Step;
    var c2, c4, c6 := Step(Step(c)), Step(Step(Step(Step(c)))), Step(Step(Step(Step(Step(Step(c))))));
    assert StepTimes(c, 8) == StepTimes(c2, 6);
    assert StepTimes(c2, 6) == StepTimes(c4, 4);
    assert StepTimes(c4, 4) == StepTimes(c6, 2);
  }

  lemma BitOff(c: bv32, b: bv32)
    ensures Step(Plus(c, b)) == Plus(Step(Plus(c, Unit(Odd(b)))), Half(b))
  {
    var even := Plus(b, Unit(Odd(b)));
    EvenStep(b);
    Cancel(c, even, Unit(Odd(b)));
    hide Step, Plus, Unit, Odd, Half;
    StepPlus(Plus(c, Unit(Odd(b))), even);
  }

  lemma EvenStep(b: bv32)
    ensures var even := Plus(b, Unit(Odd(b))); Step(even) == Half(b) && Plus(even, Unit(Odd(b))) == b
  {
    hide Plus, Unit, Odd, Half;
    UnitLow(b, Odd(b));
    UnitTwice(b, Odd(b));
  }

  lemma UnitTwice(b: bv32, bit: bool)
    ensures Plus(Plus(b, Unit(bit)), Unit(bit)) == b
  {
  }

  lemma {:induction false} BitByBit(c: bv32, b: bv32, n: nat)
    ensures StepTimes(Plus(c, b), n) == Plus(Fed(c, b, n), Halved(b, n))
    decreases n
  {
    hide Step, Plus, Unit, Odd, Half;
    if n > 0 {
      BitOff(c, b);
      BitByBit(Step(Plus(c, Unit(Odd(b)))), Half(b), n - 1);
    }
  }

  lemma {:induction false} FedRest(c: bv32, b: bv32, n: nat)
    ensures Register(Fed(c, b, n)) == P.Rest(Register(c), Bits(b, n), Divisor())
    decreases n
  {
    hide Step, Plus, Unit, Odd, Half, P.Next, Register, Divisor;
    if n > 0 {
      StepNext(c, Odd(b));
      FedRest(Step(Plus(c, Unit(Odd(b)))), Half(b), n - 1);
      assert Bits(b, n)[0] == Odd(b) && Bits(b, n)[1..] == Bits(Half(b), n - 1);
    }
  }

  lemma ByteRest(c: bv32, b: bv8)
    ensures Register(Steps(Plus(c, Wide(b)))) == P.Rest(Register(c), Bits(Wide(b), 8), Divisor())
  {
    hide Register, Divisor, Steps, StepTimes, Fed, Halved, Bits, Plus, Wide;
    EightSteps(Plus(c, Wide(b)));
    BitByBit(c, Wide(b), 8);
    HalvedEight(Wide(b), 0);
    ByteEnds(Fed(c, Wide(b), 8), b);
    FedRest(c, Wide(b), 8);
  }

  lemma ByteEnds(c: bv32, b: bv8)
    ensures Plus(c, Halved(Shifted(Wide(b)), 0)) == c
  {
  }

  lemma {:induction false} MessageRest(c: bv32, message: seq<bv8>)
    ensures Register(Serial(c, message)) == P.Rest(Register(c), AllBits(message), Divisor())
    decreases |message|
  {
    hide Register, Divisor, Steps, Bits, Plus, Wide;
    if message == [] {
      assert P.Rest(Register(c), [], Divisor()) == Register(c);
    } else {
      ByteRest(c, message[0]);
      MessageRest(Steps(Plus(c, Wide(message[0]))), message[1..]);
      P.RestCat(Register(c), Bits(Wide(message[0]), 8), AllBits(message[1..]), Divisor());
    }
  }

  lemma Four(c: bv32, n: nat)
    ensures Bits(c, n + 4) == [c & 1 != 0, c & 2 != 0, c & 4 != 0, c & 8 != 0] + Bits(c >> 4, n)
  {
    hide Odd, Half, Bits;
    FirstBit(c, n + 3);
    FirstBit(Half(c), n + 2);
    FirstBit(Half(Half(c)), n + 1);
    FirstBit(Half(Half(Half(c))), n);
    HalfFour(c);
  }

  lemma HalfFour(c: bv32)
    ensures Half(Half(Half(Half(c)))) == c >> 4 && Odd(c) == (c & 1 != 0) && Odd(Half(c)) == (c & 2 != 0)
    ensures Odd(Half(Half(c))) == (c & 4 != 0) && Odd(Half(Half(Half(c)))) == (c & 8 != 0)
  {
  }

  lemma GeneratorBits()
    ensures Register(GENERATOR) ==
      [false, false, false, false, false, true, false, false, true, true, false, false, false, false, false, true,
       false, false, false, true, true, true, false, true, true, false, true, true, false, true, true, true]
  {
    hide Bits;
    Four(GENERATOR, 28);
    Four(0xEDB8832, 24);
    Four(0xEDB883, 20);
    Four(0xEDB88, 16);
    Four(0xEDB8, 12);
    Four(0xEDB, 8);
    Four(0xED, 4);
    Four(0xE, 0);
  }

  lemma Exponents(n: int)
    ensures P.Coeff(Divisor(), n) <==> n in {32, 26, 23, 22, 16, 12, 11, 10, 8, 7, 5, 4, 2, 1, 0}
  {
    hide Bits, GENERATOR;
    GeneratorBits();
  }

  /**
   * The sum is a remainder of polynomials: the bits of the message times x^32, with the register added to the highest
   * 32 of them, are a multiple of the polynomial of IEEE 802.3 plus the sum.
   */
  lemma Remainder(c: bv32, message: seq<bv8>) returns (q: seq<bool>)
    ensures P.Leaves(AllBits(message), Register(c), Divisor(), q, Register(Serial(c, message)))
    ensures forall n: int :: P.Coeff(Divisor(), n) <==> n in {32, 26, 23, 22, 16, 12, 11, 10, 8, 7, 5, 4, 2, 1, 0}
  {
    MessageRest(c, message);
    q := P.RestLeft(Register(c), AllBits(message), Divisor());
    forall n: int ensures P.Coeff(Divisor(), n) <==> n in {32, 26, 23, 22, 16, 12, 11, 10, 8, 7, 5, 4, 2, 1, 0} {
      Exponents(n);
    }
  }

  lemma {:induction false} SameWord(a: bv32, b: bv32, n: nat)
    requires Bits(a, n) == Bits(b, n) && Halved(a, n) == Halved(b, n)
    ensures a == b
    decreases n
  {
    hide Odd, Half, Bits;
    if n > 0 {
      FirstBit(a, n - 1);
      FirstBit(b, n - 1);
      assert Odd(a) == Bits(a, n)[0] == Bits(b, n)[0] == Odd(b);
      assert Bits(Half(a), n - 1) == Bits(a, n)[1..] == Bits(b, n)[1..] == Bits(Half(b), n - 1);
      SameWord(Half(a), Half(b), n - 1);
      SameHalf(a, b);
    }
  }

  lemma SameHalf(a: bv32, b: bv32)
    requires Odd(a) == Odd(b) && Half(a) == Half(b)
    ensures a == b
  {
  }

  /** And no other word is. */
  lemma RemainderUnique(c: bv32, message: seq<bv8>, p: seq<bool>, s: bv32)
    requires P.Leaves(AllBits(message), Register(c), Divisor(), p, Register(s))
    ensures s == Serial(c, message)
  {
    hide P.Leaves, Halved, Divisor;
    var sum := Serial(c, message);
    var q := Remainder(c, message);
    P.RestUnique(AllBits(message), Register(c), Divisor(), q, Register(sum), p, Register(s));
    HalvedAll(s);
    HalvedAll(sum);
    SameWord(s, sum, 32);
  }
}
