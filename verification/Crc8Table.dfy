/** The table-driven CRC-8 of the one-wire sensors: it is the bit-serial division by the reflected generator. */
module Crc8Table {
  import P = Polynomials

  /** x^8 + x^5 + x^4 + 1 with the lowest power in the highest bit. */
  const GENERATOR: bv8 := 0x8C

  /** One step of the division. */
  function Step(c: bv8): bv8 {
    if c & 1 == 1 then (c >> 1) ^ GENERATOR else c >> 1
  }

  /** The eight steps for a byte. */
  function Steps(c: bv8): bv8 {
    Step(Step(Step(Step(Step(Step(Step(Step(c))))))))
  }

  /** Bit-serial division of a message, from any register. */
  function Serial(c: bv8, message: seq<bv8>): bv8
    decreases |message|
  {
    if message == [] then c else Serial(Steps(c ^ message[0]), message[1..])
  }

  const ROW_0: seq<bv8> := [0, 94, 188, 226, 97, 63, 221, 131, 194, 156, 126, 32, 163, 253, 31, 65]
  const ROW_1: seq<bv8> := [157, 195, 33, 127, 252, 162, 64, 30, 95, 1, 227, 189, 62, 96, 130, 220]
  const ROW_2: seq<bv8> := [35, 125, 159, 193, 66, 28, 254, 160, 225, 191, 93, 3, 128, 222, 60, 98]
  const ROW_3: seq<bv8> := [190, 224, 2, 92, 223, 129, 99, 61, 124, 34, 192, 158, 29, 67, 161, 255]
  const ROW_4: seq<bv8> := [70, 24, 250, 164, 39, 121, 155, 197, 132, 218, 56, 102, 229, 187, 89, 7]
  const ROW_5: seq<bv8> := [219, 133, 103, 57, 186, 228, 6, 88, 25, 71, 165, 251, 120, 38, 196, 154]
  const ROW_6: seq<bv8> := [101, 59, 217, 135, 4, 90, 184, 230, 167, 249, 27, 69, 198, 152, 122, 36]
  const ROW_7: seq<bv8> := [248, 166, 68, 26, 153, 199, 37, 123, 58, 100, 134, 216, 91, 5, 231, 185]
  const ROW_8: seq<bv8> := [140, 210, 48, 110, 237, 179, 81, 15, 78, 16, 242, 172, 47, 113, 147, 205]
  const ROW_9: seq<bv8> := [17, 79, 173, 243, 112, 46, 204, 146, 211, 141, 111, 49, 178, 236, 14, 80]
  const ROW_10: seq<bv8> := [175, 241, 19, 77, 206, 144, 114, 44, 109, 51, 209, 143, 12, 82, 176, 238]
  const ROW_11: seq<bv8> := [50, 108, 142, 208, 83, 13, 239, 177, 240, 174, 76, 18, 145, 207, 45, 115]
  const ROW_12: seq<bv8> := [202, 148, 118, 40, 171, 245, 23, 73, 8, 86, 180, 234, 105, 55, 213, 139]
  const ROW_13: seq<bv8> := [87, 9, 235, 181, 54, 104, 138, 212, 149, 203, 41, 119, 244, 170, 72, 22]
  const ROW_14: seq<bv8> := [233, 183, 85, 11, 136, 214, 52, 106, 43, 117, 151, 201, 74, 20, 246, 168]
  const ROW_15: seq<bv8> := [116, 42, 200, 150, 21, 75, 169, 247, 182, 232, 10, 84, 215, 137, 107, 53]

  const LOWER: seq<bv8> := ROW_0 + ROW_1 + ROW_2 + ROW_3 + ROW_4 + ROW_5 + ROW_6 + ROW_7

  const UPPER: seq<bv8> := ROW_8 + ROW_9 + ROW_10 + ROW_11 + ROW_12 + ROW_13 + ROW_14 + ROW_15

  const TABLE: seq<bv8> := LOWER + UPPER

  /** Eight steps of the division for sixteen bytes in a row. */
  function Entries(b: bv8): (r: seq<bv8>)
    ensures |r| == 16
  {
    [Steps(b), Steps(b + 1), Steps(b + 2), Steps(b + 3), Steps(b + 4), Steps(b + 5), Steps(b + 6), Steps(b + 7),
     Steps(b + 8), Steps(b + 9), Steps(b + 10), Steps(b + 11), Steps(b + 12),
       Steps(b + 13), Steps(b + 14), Steps(b + 15)]
  }

  lemma EntryAt(b: bv8, l: bv8)
    requires l < 16
    ensures 0 <= l as int < 16 && Entries(b)[l as int] == Steps(b + l)
  {
    hide Steps;
    if l < 8 {
      EntryLow(b, l);
    } else if l < 12 {
      assert l == 8 || l == 9 || l == 10 || l == 11;
    } else {
      assert l == 12 || l == 13 || l == 14 || l == 15;
    }
  }

  lemma EntryLow(b: bv8, l: bv8)
    requires l < 8
    ensures 0 <= l as int < 8 && Entries(b)[l as int] == Steps(b + l)
  {
    hide Steps;
    if l < 4 {
      assert l == 0 || l == 1 || l == 2 || l == 3;
    } else {
      assert l == 4 || l == 5 || l == 6 || l == 7;
    }
  }

  lemma LowerEntries()
    ensures LOWER == Entries(0) + Entries(16) + Entries(32) + Entries(48)
      + Entries(64) + Entries(80) + Entries(96) + Entries(112)
  {
    assert ROW_0 == Entries(0) && ROW_1 == Entries(16) && ROW_2 == Entries(32) && ROW_3 == Entries(48);
    assert ROW_4 == Entries(64) && ROW_5 == Entries(80) && ROW_6 == Entries(96) && ROW_7 == Entries(112);
  }

  lemma UpperEntries()
    ensures UPPER == Entries(128) + Entries(144) + Entries(160) + Entries(176)
      + Entries(192) + Entries(208) + Entries(224) + Entries(240)
  {
    assert ROW_8 == Entries(128) && ROW_9 == Entries(144) && ROW_10 == Entries(160) && ROW_11 == Entries(176);
    assert ROW_12 == Entries(192) && ROW_13 == Entries(208) && ROW_14 == Entries(224) && ROW_15 == Entries(240);
  }

  lemma Nibbles(x: bv8)
    ensures var h, l := x & 0xF0, x & 0xF; x == h + l && x as int == h as int + l as int && l < 16
  {
  }

  /** Every entry of the table is eight steps of the division. */
  lemma TableAt(x: bv8)
    ensures 0 <= x as int < |TABLE| && TABLE[x as int] == Steps(x)
  {
    hide Steps, Entries, UPPER, LOWER;
    LowerEntries();
    UpperEntries();
    var h, l := x & 0xF0, x & 0xF;
    Nibbles(x);
    EntryAt(h, l);
    if x < 64 {
      assert h == 0 || h == 16 || h == 32 || h == 48;
    } else if x < 128 {
      assert h == 64 || h == 80 || h == 96 || h == 112;
    } else if x < 192 {
      assert h == 128 || h == 144 || h == 160 || h == 176;
    } else {
      assert h == 192 || h == 208 || h == 224 || h == 240;
    }
  }

  /** crc8_tab */
  method Crc8Tab(block: seq<bv8>) returns (crc: bv8)
    ensures crc == Serial(0, block)
  {
    hide Steps, TABLE;
    crc := 0;
    var i := 0;
    while i < |block|
      invariant i <= |block| && Serial(0, block) == Serial(crc, block[i..])
    {
      assert block[i..][0] == block[i] && block[i..][1..] == block[i + 1..];
      TableAt(crc ^ block[i]);
      crc := TABLE[(crc ^ block[i]) as int];
      i := i + 1;
    }
    assert block[i..] == [];
  }

  // ----- the remainder of polynomials -----

  predicate Odd(c: bv8) {
    c & 1 == 1
  }

  function Half(c: bv8): bv8 {
    c >> 1
  }

  /** Polynomials over two elements are added bit by bit. */
  function Plus(a: bv8, b: bv8): bv8 {
    a ^ b
  }

  lemma HalfPlus(a: bv8, b: bv8)
    ensures Half(Plus(a, b)) == Plus(Half(a), Half(b)) && (Odd(Plus(a, b)) <==> Odd(a) != Odd(b))
  {
  }

  /** The lowest bits of a word, lowest first; in a register the lowest bit belongs to the highest power. */
  function Bits(c: bv8, n: nat): (r: seq<bool>)
    ensures |r| == n
  {
    if n == 0 then [] else [Odd(c)] + Bits(Half(c), n - 1)
  }

  function Register(c: bv8): (r: seq<bool>)
    ensures |r| == 8
  {
    Bits(c, 8)
  }

  /** The bits of a message in the order of their powers: byte by byte, the lowest bit of each first. */
  function AllBits(message: seq<bv8>): seq<bool> {
    if message == [] then [] else Bits(message[0], 8) + AllBits(message[1..])
  }

  function Divisor(): (d: seq<bool>)
    ensures |d| == 9 && d[0]
  {
    [true] + Register(GENERATOR)
  }

  function Halved(c: bv8, n: nat): bv8 {
    if n == 0 then c else Halved(Half(c), n - 1)
  }

  function Unit(bit: bool): bv8 {
    if bit then 1 else 0
  }

  lemma FirstBit(c: bv8, n: nat)
    ensures Bits(c, n + 1) == [Odd(c)] + Bits(Half(c), n)
  {
  }

  lemma HalvedEight(c: bv8, n: nat)
    ensures Halved(c, n + 8) == Halved(c >> 8, n)
  {
    hide Half;
    var c2, c4, c6 := Half(Half(c)), Half(Half(Half(Half(c)))), Half(Half(Half(Half(Half(Half(c))))));
    assert Halved(c, n + 8) == Halved(c2, n + 6);
    assert Halved(c2, n + 6) == Halved(c4, n + 4);
    assert Halved(c4, n + 4) == Halved(c6, n + 2);
    assert Halved(c6, n + 2) == Halved(Half(Half(c6)), n);
    HalfEight(c);
  }

  lemma HalfEight(c: bv8)
    ensures Half(Half(Half(Half(Half(Half(Half(Half(c)))))))) == c >> 8
  {
  }

  /** A word has no more bits than that. */
  lemma HalvedAll(c: bv8)
    ensures Halved(c, 8) == 0
  {
    HalvedEight(c, 0);
  }

  lemma {:induction false} BitsLast(c: bv8, n: nat)
    ensures Bits(c, n + 1) == Bits(c, n) + [Odd(Halved(c, n))]
    decreases n
  {
    hide Odd, Half;
    if n > 0 {
      BitsLast(Half(c), n - 1);
    } else {
      assert Bits(Half(c), 0) == [];
    }
  }

  lemma HalfBits(c: bv8)
    ensures Register(Half(c)) == Register(c)[1..] + [false]
  {
    hide Odd, Half;
    BitsLast(Half(c), 7);
    HalvedAll(c);
    ZeroEven();
  }

  lemma ZeroEven()
    ensures !Odd(0)
  {
  }

  lemma {:induction false} BitsPlus(a: bv8, b: bv8, n: nat)
    ensures forall i :: 0 <= i < n ==> Bits(Plus(a, b), n)[i] == (Bits(a, n)[i] != Bits(b, n)[i])
    decreases n
  {
    hide Odd, Half, Plus, Bits;
    if n > 0 {
      HalfPlus(a, b);
      BitsPlus(Half(a), Half(b), n - 1);
      FirstBit(a, n - 1);
      FirstBit(b, n - 1);
      FirstBit(Plus(a, b), n - 1);
    }
  }

  lemma UnitLow(c: bv8, bit: bool)
    ensures Odd(Plus(c, Unit(bit))) == (Odd(c) != bit) && Half(Plus(c, Unit(bit))) == Half(c)
  {
  }

  lemma StepParts(c: bv8, bit: bool)
    ensures var d := Plus(c, Unit(bit)); Step(d) == if Odd(d) then Plus(Half(d), GENERATOR) else Half(d)
  {
  }

  /** A step of the division as a step on polynomials. */
  lemma StepNext(c: bv8, bit: bool)
    ensures Register(Step(Plus(c, Unit(bit)))) == P.Next(Register(c), bit, Divisor())
  {
    StepParts(c, bit);
    hide Step;
    hide Odd, Half, Plus, Unit, Bits, GENERATOR;
    UnitLow(c, bit);
    HalfBits(c);
    BitsPlus(Half(c), GENERATOR, 8);
    FirstBit(c, 7);
  }

  /** The register after the lowest bits of a word, taken one by one. */
  function Fed(c: bv8, b: bv8, n: nat): bv8
    decreases n
  {
    if n == 0 then c else Fed(Step(Plus(c, Unit(Odd(b)))), Half(b), n - 1)
  }

  function StepTimes(c: bv8, n: nat): bv8
    decreases n
  {
    if n == 0 then c else StepTimes(Step(c), n - 1)
  }

  lemma EightSteps(c: bv8)
    ensures Steps(c) == StepTimes(c, 8)
  {
    hide Step;
    var c2, c4, c6 := Step(Step(c)), Step(Step(Step(Step(c)))), Step(Step(Step(Step(Step(Step(c))))));
    assert StepTimes(c, 8) == StepTimes(c2, 6);
    assert StepTimes(c2, 6) == StepTimes(c4, 4);
    assert StepTimes(c4, 4) == StepTimes(c6, 2);
  }

  lemma BitOff(c: bv8, b: bv8)
    ensures Step(Plus(c, b)) == Plus(Step(Plus(c, Unit(Odd(b)))), Half(b))
  {
  }

  lemma {:induction false} BitByBit(c: bv8, b: bv8, n: nat)
    ensures StepTimes(Plus(c, b), n) == Plus(Fed(c, b, n), Halved(b, n))
    decreases n
  {
    hide Step, Plus, Unit, Odd, Half;
    if n > 0 {
      BitOff(c, b);
      BitByBit(Step(Plus(c, Unit(Odd(b)))), Half(b), n - 1);
    }
  }

  lemma {:induction false} FedRest(c: bv8, b: bv8, n: nat)
    ensures Register(Fed(c, b, n)) == P.Rest(Register(c), Bits(b, n), Divisor())
    decreases n
  {
    hide Step, Plus, Unit, Odd, Half, P.Next, Register, Divisor;
    if n > 0 {
      StepNext(c, Odd(b));
      FedRest(Step(Plus(c, Unit(Odd(b)))), Half(b), n - 1);
      assert Bits(b, n)[0] == Odd(b) && Bits(b, n)[1..] == Bits(Half(b), n - 1);
    }
  }

  lemma ByteRest(c: bv8, b: bv8)
    ensures Register(Steps(Plus(c, b))) == P.Rest(Register(c), Bits(b, 8), Divisor())
  {
    hide Register, Divisor, Steps, StepTimes, Fed, Halved, Bits, Plus;
    EightSteps(Plus(c, b));
    BitByBit(c, b, 8);
    HalvedEight(b, 0);
    ByteEnds(Fed(c, b, 8), b);
    FedRest(c, b, 8);
  }

  lemma ByteEnds(c: bv8, b: bv8)
    ensures Plus(c, Halved(b >> 8, 0)) == c
  {
  }

  lemma {:induction false} MessageRest(c: bv8, message: seq<bv8>)
    ensures Register(Serial(c, message)) == P.Rest(Register(c), AllBits(message), Divisor())
    decreases |message|
  {
    hide Register, Divisor, Steps, Bits;
    if message == [] {
      assert P.Rest(Register(c), [], Divisor()) == Register(c);
    } else {
      ByteRest(c, message[0]);
      MessageRest(Steps(Plus(c, message[0])), message[1..]);
      P.RestCat(Register(c), Bits(message[0], 8), AllBits(message[1..]), Divisor());
    }
  }

  lemma Four(c: bv8, n: nat)
    ensures Bits(c, n + 4) == [c & 1 != 0, c & 2 != 0, c & 4 != 0, c & 8 != 0] + Bits(c >> 4, n)
  {
    hide Odd, Half, Bits;
    FirstBit(c, n + 3);
    FirstBit(Half(c), n + 2);
    FirstBit(Half(Half(c)), n + 1);
    FirstBit(Half(Half(Half(c))), n);
    HalfFour(c);
  }

  lemma HalfFour(c: bv8)
    ensures Half(Half(Half(Half(c)))) == c >> 4 && Odd(c) == (c & 1 != 0) && Odd(Half(c)) == (c & 2 != 0)
    ensures Odd(Half(Half(c))) == (c & 4 != 0) && Odd(Half(Half(Half(c)))) == (c & 8 != 0)
  {
  }

  lemma GeneratorBits()
    ensures Register(GENERATOR) ==
      [false, false, true, true, false, false, false, true]
  {
    hide Bits;
    Four(GENERATOR, 4);
    Four(0x8, 0);
  }

  lemma Exponents(n: int)
    ensures P.Coeff(Divisor(), n) <==> n in {8, 5, 4, 0}
  {
    hide Bits, GENERATOR;
    GeneratorBits();
  }

  /**
   * The sum is a remainder of polynomials: the bits of the message times x^8 are a multiple of x^8 + x^5 + x^4 + 1
   * plus the sum.
   */
  lemma Remainder(message: seq<bv8>) returns (q: seq<bool>)
    ensures P.Leaves(AllBits(message), Register(0), Divisor(), q, Register(Serial(0, message)))
    ensures forall n: int :: P.Coeff(Divisor(), n) <==> n in {8, 5, 4, 0}
  {
    MessageRest(0, message);
    q := P.RestLeft(Register(0), AllBits(message), Divisor());
    forall n: int ensures P.Coeff(Divisor(), n) <==> n in {8, 5, 4, 0} {
      Exponents(n);
    }
  }

  lemma {:induction false} SameWord(a: bv8, b: bv8, n: nat)
    requires Bits(a, n) == Bits(b, n) && Halved(a, n) == Halved(b, n)
    ensures a == b
    decreases n
  {
    hide Odd, Half, Bits;
    if n > 0 {
      FirstBit(a, n - 1);
      FirstBit(b, n - 1);
      assert Odd(a) == Bits(a, n)[0] == Bits(b, n)[0] == Odd(b);
      assert Bits(Half(a), n - 1) == Bits(a, n)[1..] == Bits(b, n)[1..] == Bits(Half(b), n - 1);
      SameWord(Half(a), Half(b), n - 1);
      SameHalf(a, b);
    }
  }

  lemma SameHalf(a: bv8, b: bv8)
    requires Odd(a) == Odd(b) && Half(a) == Half(b)
    ensures a == b
  {
  }

  /** And no other word is. */
  lemma RemainderUnique(message: seq<bv8>, p: seq<bool>, s: bv8)
    requires P.Leaves(AllBits(message), Register(0), Divisor(), p, Register(s))
    ensures s == Serial(0, message)
  {
    hide P.Leaves, Halved, Divisor;
    var sum := Serial(0, message);
    var q := Remainder(message);
    P.RestUnique(AllBits(message), Register(0), Divisor(), q, Register(sum), p, Register(s));
    HalvedAll(s);
    HalvedAll(sum);
    SameWord(s, sum, 8);
  }
}
