/** The checksum of the SHT30 sensor, and the transmission errors that it always reveals. */
module Crc8Sht30 {
  import P = Polynomials

  /** x^8 + x^5 + x^4 + 1 without its highest power. */
  const GENERATOR: bv8 := 0x31

  const INITIAL: bv8 := 0xFF

  /** Polynomials over two elements are added bit by bit. */
  function Plus(a: bv8, b: bv8): bv8 {
    a ^ b
  }

  predicate High(c: bv8) {
    c & 0x80 != 0
  }

  function Twice(c: bv8): bv8 {
    c << 1
  }

  /** One step of the division, highest power first. */
  function Step(c: bv8): bv8 {
    if High(c) then Plus(Twice(c), GENERATOR) else Twice(c)
  }

  function Steps(c: bv8, n: nat): bv8
    decreases n
  {
    if n == 0 then c else Steps(Step(c), n - 1)
  }

  /** The register after a block. */
  function Serial(c: bv8, block: seq<bv8>): bv8
    decreases |block|
  {
    if block == [] then c else Serial(Steps(Plus(c, block[0]), 8), block[1..])
  }

  /** crc8_sht30 */
  method Crc8(block: seq<bv8>) returns (crc: bv8)
    ensures crc == Serial(INITIAL, block)
  {
    crc := INITIAL;
    var j := 0;
    while j < |block|
      invariant j <= |block| && Serial(INITIAL, block) == Serial(crc, block[j..])
    {
      assert block[j..][0] == block[j] && block[j..][1..] == block[j + 1..];
      crc := crc ^ block[j];
      ghost var start := crc;
      var i := 8;
      while i > 0
        invariant 0 <= i <= 8 && Steps(start, 8) == Steps(crc, i)
      {
        crc := if crc & 0x80 != 0 then (crc << 1) ^ GENERATOR else crc << 1;
        i := i - 1;
      }
      j := j + 1;
    }
    assert block[j..] == [];
  }

  /** A block that the receiver takes: its last byte is the checksum of the bytes before. */
  predicate Accepted(frame: seq<bv8>) {
    |frame| > 0 && frame[|frame| - 1] == Serial(INITIAL, frame[..|frame| - 1])
  }

  // ----- the division bit by bit -----

  function Top(bit: bool): bv8 {
    if bit then 0x80 else 0
  }

  /** The register after a sequence of bits. */
  function BitSerial(c: bv8, bits: seq<bool>): bv8
    decreases |bits|
  {
    if bits == [] then c else BitSerial(Step(Plus(c, Top(bits[0]))), bits[1..])
  }

  predicate Has(b: bv8, mask: bv8) {
    b & mask != 0
  }

  /** The bits of a byte in the order of transmission. */
  function Bits(b: bv8): (r: seq<bool>)
    ensures |r| == 8
  {
    [Has(b, 0x80), Has(b, 0x40), Has(b, 0x20), Has(b, 0x10), Has(b, 8), Has(b, 4), Has(b, 2), Has(b, 1)]
  }

  function AllBits(block: seq<bv8>): (r: seq<bool>)
    ensures |r| == 8 * |block|
  {
    if block == [] then [] else Bits(block[0]) + AllBits(block[1..])
  }

  /** A byte moved down by one bit, with another one at the top. */
  function Led(bit: bool, b: bv8): bv8 {
    Plus(Top(bit), b >> 1)
  }

  /** The first bits of a byte, from the highest down. */
  function Packed(bits: seq<bool>): bv8
    decreases |bits|
  {
    if bits == [] then 0 else Led(bits[0], Packed(bits[1..]))
  }

  lemma TwicePlus(a: bv8, b: bv8)
    ensures Twice(Plus(a, b)) == Plus(Twice(a), Twice(b)) && (High(Plus(a, b)) <==> High(a) != High(b))
  {
  }

  lemma Cancel(a: bv8, b: bv8, p: bv8)
    ensures Plus(Plus(a, p), b) == Plus(Plus(a, b), p) && Plus(a, Plus(b, p)) == Plus(Plus(a, b), p)
    ensures Plus(Plus(a, p), Plus(b, p)) == Plus(a, b)
  {
  }

  lemma StepPlus(a: bv8, b: bv8)
    ensures Step(Plus(a, b)) == Plus(Step(a), Step(b))
  {
    hide Plus, Twice, High, GENERATOR;
    TwicePlus(a, b);
    Cancel(Twice(a), Twice(b), GENERATOR);
  }

  /** A step loses nothing. */
  lemma StepInjective(c: bv8)
    ensures Step(c) == 0 <==> c == 0
  {
  }

  lemma {:induction false} StepsInjective(c: bv8, n: nat)
    ensures Steps(c, n) == 0 <==> c == 0
    decreases n
  {
    if n > 0 {
      StepInjective(c);
      StepsInjective(Step(c), n - 1);
    }
  }

  lemma {:induction false} StepsPlus(a: bv8, b: bv8, n: nat)
    ensures Steps(Plus(a, b), n) == Plus(Steps(a, n), Steps(b, n))
    decreases n
  {
    hide Plus, Step;
    if n > 0 {
      StepPlus(a, b);
      StepsPlus(Step(a), Step(b), n - 1);
    }
  }

  /** The lowest bits of a packed byte are empty. */
  predicate Fits(b: bv8, n: nat)
    requires n <= 8
  {
    if n == 0 then b == 0
    else if n == 1 then b & 0x7F == 0
    else if n == 2 then b & 0x3F == 0
    else if n == 3 then b & 0x1F == 0
    else if n == 4 then b & 0x0F == 0
    else if n == 5 then b & 0x07 == 0
    else if n == 6 then b & 0x03 == 0
    else if n == 7 then b & 0x01 == 0
    else true
  }

  lemma {:induction false} PackedFits(bits: seq<bool>)
    requires |bits| <= 8
    ensures Fits(Packed(bits), |bits|)
    decreases |bits|
  {
    if bits != [] {
      PackedFits(bits[1..]);
      ShiftFits(Packed(bits[1..]), bits[0], |bits| - 1);
    }
  }

  lemma ShiftFits(b: bv8, bit: bool, n: nat)
    requires n < 8 && Fits(b, n)
    ensures Fits(Plus(Top(bit), b >> 1), n + 1) && Step(b >> 1) == b
  {
  }

  /** Up to eight bits, taken one by one, act like the byte that they fill from the top. */
  lemma {:induction false} BitsAtOnce(c: bv8, bits: seq<bool>)
    requires |bits| <= 8
    ensures BitSerial(c, bits) == Steps(Plus(c, Packed(bits)), |bits|)
    decreases |bits|
  {
    hide Plus, Step, Top, Fits;
    if bits == [] {
      Neutral(c, 0);
    } else {
      var rest := Packed(bits[1..]);
      BitsAtOnce(Step(Plus(c, Top(bits[0]))), bits[1..]);
      PackedFits(bits[1..]);
      ShiftFits(rest, bits[0], |bits| - 1);
      StepPlus(Plus(c, Top(bits[0])), rest >> 1);
      Regroup(c, Top(bits[0]), rest >> 1);
    }
  }

  lemma Regroup(a: bv8, b: bv8, c: bv8)
    ensures Plus(Plus(a, b), c) == Plus(a, Plus(b, c))
  {
  }

  lemma Neutral(a: bv8, b: bv8)
    ensures Plus(a, 0) == a && Plus(0, b) == b
  {
  }

  /** Eight bits packed from the last one on. */
  lemma PackedEight(r: seq<bool>)
    requires |r| == 8
    ensures Packed(r)
      == Led(r[0], Led(r[1], Led(r[2], Led(r[3], Led(r[4], Led(r[5], Led(r[6], Led(r[7], 0))))))))
  {
    hide Led;
    assert r[1..][1..] == r[2..] && r[2..][1..] == r[3..] && r[3..][1..] == r[4..] && r[4..][1..] == r[5..];
    assert r[5..][1..] == r[6..] && r[6..][1..] == r[7..] && r[7..][1..] == [];
    assert Packed(r[7..]) == Led(r[7], 0) && Packed(r[6..]) == Led(r[6], Packed(r[7..]));
    assert Packed(r[5..]) == Led(r[5], Packed(r[6..])) && Packed(r[4..]) == Led(r[4], Packed(r[5..]));
    assert Packed(r[3..]) == Led(r[3], Packed(r[4..])) && Packed(r[2..]) == Led(r[2], Packed(r[3..]));
    assert Packed(r[1..]) == Led(r[1], Packed(r[2..]));
  }

  lemma PackedBits(b: bv8)
    ensures Packed(Bits(b)) == b
  {
    PackedEight(Bits(b));
  }

  lemma {:induction false} BitSerialCat(c: bv8, a: seq<bool>, b: seq<bool>)
    ensures BitSerial(c, a + b) == BitSerial(BitSerial(c, a), b)
    decreases |a|
  {
    hide Step;
    if a == [] {
      assert a + b == b;
    } else {
      assert (a + b)[0] == a[0] && (a + b)[1..] == a[1..] + b;
      BitSerialCat(Step(Plus(c, Top(a[0]))), a[1..], b);
    }
  }

  /** The checksum of bytes is the division of their bits. */
  lemma {:induction false} SerialBits(c: bv8, block: seq<bv8>)
    ensures Serial(c, block) == BitSerial(c, AllBits(block))
    decreases |block|
  {
    hide Step, Steps, Bits, Plus;
    if block != [] {
      BitsAtOnce(c, Bits(block[0]));
      PackedBits(block[0]);
      BitSerialCat(c, Bits(block[0]), AllBits(block[1..]));
      SerialBits(Steps(Plus(c, block[0]), 8), block[1..]);
    }
  }

  // ----- errors -----

  /** A block with errors: the bits of `e` are flipped. */
  function Flipped(a: seq<bv8>, e: seq<bv8>): (r: seq<bv8>)
    requires |a| == |e|
    ensures |r| == |a| && forall i :: 0 <= i < |a| ==> r[i] == Plus(a[i], e[i])
  {
    if a == [] then [] else [Plus(a[0], e[0])] + Flipped(a[1..], e[1..])
  }

  lemma {:induction false} SerialPlus(c: bv8, d: bv8, a: seq<bv8>, e: seq<bv8>)
    requires |a| == |e|
    ensures Serial(Plus(c, d), Flipped(a, e)) == Plus(Serial(c, a), Serial(d, e))
    decreases |a|
  {
    hide Steps, Plus;
    if a != [] {
      Exchange(c, d, a[0], e[0]);
      StepsPlus(Plus(c, a[0]), Plus(d, e[0]), 8);
      assert Flipped(a, e)[0] == Plus(a[0], e[0]) && Flipped(a, e)[1..] == Flipped(a[1..], e[1..]);
      SerialPlus(Steps(Plus(c, a[0]), 8), Steps(Plus(d, e[0]), 8), a[1..], e[1..]);
    }
  }

  lemma Exchange(a: bv8, b: bv8, c: bv8, d: bv8)
    ensures Plus(Plus(a, b), Plus(c, d)) == Plus(Plus(a, c), Plus(b, d))
  {
    hide Plus;
    Regroup(a, b, Plus(c, d));
    Regroup(a, c, Plus(b, d));
    Regroup(b, c, d);
    Regroup(c, b, d);
    Commute(b, c);
  }

  lemma Commute(a: bv8, b: bv8)
    ensures Plus(a, b) == Plus(b, a)
  {
  }

  lemma {:induction false} SerialLast(c: bv8, block: seq<bv8>, last: bv8)
    ensures Serial(c, block + [last]) == Steps(Plus(Serial(c, block), last), 8)
    decreases |block|
  {
    hide Steps, Plus;
    if block == [] {
      assert [] + [last] == [last] && [last][1..] == [];
    } else {
      assert (block + [last])[0] == block[0] && (block + [last])[1..] == block[1..] + [last];
      SerialLast(Steps(Plus(c, block[0]), 8), block[1..], last);
    }
  }

  /** The receiver takes exactly the blocks that leave nothing in the register. */
  lemma AcceptedMeans(frame: seq<bv8>)
    requires |frame| > 0
    ensures Accepted(frame) <==> Serial(INITIAL, frame) == 0
  {
    var n := |frame| - 1;
    assert frame == frame[..n] + [frame[n]];
    SerialLast(INITIAL, frame[..n], frame[n]);
    StepsInjective(Plus(Serial(INITIAL, frame[..n]), frame[n]), 8);
    hide Serial, Plus, Steps, INITIAL;
    SameByte(Serial(INITIAL, frame[..n]), frame[n]);
  }

  lemma SameByte(a: bv8, b: bv8)
    ensures Plus(a, b) == 0 <==> a == b
  {
  }

  /** Whether errors are seen depends on the errors alone. */
  lemma SeenMeans(frame: seq<bv8>, e: seq<bv8>)
    requires Accepted(frame) && |e| == |frame|
    ensures Accepted(Flipped(frame, e)) <==> BitSerial(0, AllBits(e)) == 0
  {
    AcceptedMeans(frame);
    AcceptedMeans(Flipped(frame, e));
    SerialPlus(INITIAL, 0, frame, e);
    SerialBits(0, e);
    hide Serial, BitSerial, Plus, INITIAL;
    Neutral(INITIAL, Serial(0, e));
  }

  /** The number of flipped bits is odd. */
  predicate OddWeight(bits: seq<bool>)
    decreases |bits|
  {
    bits != [] && (bits[0] != OddWeight(bits[1..]))
  }

  predicate OddByte(c: bv8) {
    var x := c ^ (c >> 4);
    var y := x ^ (x >> 2);
    (y ^ (y >> 1)) & 1 == 1
  }

  lemma StepParity(c: bv8, bit: bool)
    ensures OddByte(Step(Plus(c, Top(bit)))) <==> OddByte(c) != bit
  {
  }

  lemma {:induction false} Parity(c: bv8, bits: seq<bool>)
    ensures OddByte(BitSerial(c, bits)) <==> OddByte(c) != OddWeight(bits)
    decreases |bits|
  {
    hide Step, OddByte, Plus, Top;
    if bits != [] {
      StepParity(c, bits[0]);
      Parity(Step(Plus(c, Top(bits[0]))), bits[1..]);
    }
  }

  /** An odd number of flipped bits is always seen, in a block of any length. */
  lemma OddSeen(frame: seq<bv8>, e: seq<bv8>)
    requires Accepted(frame) && |e| == |frame| && OddWeight(AllBits(e))
    ensures !Accepted(Flipped(frame, e))
  {
    SeenMeans(frame, e);
    Parity(0, AllBits(e));
  }

  predicate Zeros(bits: seq<bool>) {
    forall i :: 0 <= i < |bits| ==> !bits[i]
  }

  lemma {:induction false} ZerosStep(c: bv8, bits: seq<bool>)
    requires Zeros(bits)
    ensures BitSerial(c, bits) == 0 <==> c == 0
    decreases |bits|
  {
    if bits != [] {
      StepInjective(c);
      Neutral(c, 0);
      hide Step, Plus;
      ZerosStep(Step(c), bits[1..]);
    }
  }

  lemma {:induction false} PackedNonzero(bits: seq<bool>)
    requires |bits| <= 8 && !Zeros(bits)
    ensures Packed(bits) != 0
    decreases |bits|
  {
    if bits[0] {
      TopStays(Packed(bits[1..]));
    } else {
      var i :| 0 <= i < |bits| && bits[i];
      assert bits[1..][i - 1];
      PackedNonzero(bits[1..]);
      PackedFits(bits[1..]);
      ShiftFits(Packed(bits[1..]), false, |bits| - 1);
      Neutral(0, Packed(bits[1..]) >> 1);
      StepInjective(Packed(bits[1..]) >> 1);
    }
  }

  lemma TopStays(b: bv8)
    ensures Plus(Top(true), b >> 1) != 0
  {
  }

  /** Any errors within eight successive bits are seen, wherever they stand in a block of any length. */
  lemma BurstSeen(frame: seq<bv8>, e: seq<bv8>, before: seq<bool>, burst: seq<bool>, after: seq<bool>)
    requires Accepted(frame) && |e| == |frame| && AllBits(e) == before + burst + after
    requires Zeros(before) && Zeros(after) && |burst| <= 8 && !Zeros(burst)
    ensures !Accepted(Flipped(frame, e))
  {
    hide Step, Steps, Plus, Packed;
    SeenMeans(frame, e);
    assert before + burst + after == before + (burst + after);
    BitSerialCat(0, before, burst + after);
    ZerosStep(0, before);
    BitSerialCat(0, burst, after);
    BitsAtOnce(0, burst);
    PackedNonzero(burst);
    Neutral(0, Packed(burst));
    StepsInjective(Packed(burst), |burst|);
    ZerosStep(BitSerial(0, burst), after);
  }

  // ----- the remainder of polynomials -----

  function Divisor(): (d: seq<bool>)
    ensures |d| == 9 && d[0]
  {
    [true] + Bits(GENERATOR)
  }

  /** One step of the register, bit by bit. */
  lemma StepMasks(c: bv8, bit: bool)
    ensures var (d, out) := (Step(Plus(c, Top(bit))), Has(c, 0x80) != bit);
      && Has(d, 0x80) == Has(c, 0x40) && Has(d, 0x40) == Has(c, 0x20)
      && Has(d, 0x20) == (Has(c, 0x10) != out) && Has(d, 0x10) == (Has(c, 8) != out)
      && Has(d, 8) == Has(c, 4) && Has(d, 4) == Has(c, 2) && Has(d, 2) == Has(c, 1) && Has(d, 1) == out
  {
  }

  lemma GeneratorBits()
    ensures Bits(GENERATOR) == [false, false, true, true, false, false, false, true]
  {
  }

  /** A step of the division as a step on polynomials. */
  lemma StepNext(c: bv8, bit: bool)
    ensures Bits(Step(Plus(c, Top(bit)))) == P.Next(Bits(c), bit, Divisor())
  {
    hide Step, Plus, Top, Bits, GENERATOR, P.Next;
    StepList(c, bit);
    GeneratorBits();
    NextList(Bits(c), bit, Divisor());
  }

  lemma StepList(c: bv8, bit: bool)
    ensures var (b, out) := (Bits(c), Bits(c)[0] != bit);
      Bits(Step(Plus(c, Top(bit)))) == [b[1], b[2], b[3] != out, b[4] != out, b[5], b[6], b[7], out]
  {
    hide Step, Plus, Top, Has;
    StepMasks(c, bit);
  }

  lemma NextList(b: seq<bool>, bit: bool, divisor: seq<bool>)
    requires |b| == 8 && divisor == [true, false, false, true, true, false, false, false, true]
    ensures var out := b[0] != bit;
      P.Next(b, bit, divisor) == [b[1], b[2], b[3] != out, b[4] != out, b[5], b[6], b[7], out]
  {
  }

  lemma {:induction false} BitsRest(c: bv8, bits: seq<bool>)
    ensures Bits(BitSerial(c, bits)) == P.Rest(Bits(c), bits, Divisor())
    decreases |bits|
  {
    hide Step, Plus, Top, Bits, Divisor, P.Next;
    if bits != [] {
      StepNext(c, bits[0]);
      BitsRest(Step(Plus(c, Top(bits[0]))), bits[1..]);
    }
  }

  lemma Exponents(n: int)
    ensures P.Coeff(Divisor(), n) <==> n in {8, 5, 4, 0}
  {
    hide Bits, GENERATOR;
    GeneratorBits();
  }

  lemma FirstBits()
    ensures Bits(INITIAL) == [true, true, true, true, true, true, true, true]
  {
  }

  /**
   * The checksum is a remainder of polynomials: the bits of the block times x^8, the highest eight of them inverted,
   * are a multiple of x^8 + x^5 + x^4 + 1 plus the checksum.
   */
  lemma Remainder(block: seq<bv8>) returns (q: seq<bool>)
    ensures P.Leaves(AllBits(block), [true, true, true, true, true, true, true, true], Divisor(), q,
      Bits(Serial(INITIAL, block)))
    ensures forall n: int :: P.Coeff(Divisor(), n) <==> n in {8, 5, 4, 0}
  {
    SerialBits(INITIAL, block);
    BitsRest(INITIAL, AllBits(block));
    q := P.RestLeft(Bits(INITIAL), AllBits(block), Divisor());
    FirstBits();
    forall n: int ensures P.Coeff(Divisor(), n) <==> n in {8, 5, 4, 0} {
      Exponents(n);
    }
  }

  /** And no other byte is. */
  lemma RemainderUnique(block: seq<bv8>, p: seq<bool>, s: bv8)
    requires P.Leaves(AllBits(block), [true, true, true, true, true, true, true, true], Divisor(), p, Bits(s))
    ensures s == Serial(INITIAL, block)
  {
    hide P.Leaves, Bits, Divisor;
    var sum := Serial(INITIAL, block);
    var q := Remainder(block);
    P.RestUnique(AllBits(block), [true, true, true, true, true, true, true, true], Divisor(), q, Bits(sum), p, Bits(s));
    PackedBits(s);
    PackedBits(sum);
  }
}
