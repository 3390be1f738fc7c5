/**
 The fixed values of the two CRCs as numbers.  A register is a natural number in Crc.dfy, where a step
 is defined bit by bit; here the same steps are taken on machine words, on which they can be computed.
 */
module CrcValues {
  import opened Bits
  import opened Crc

  const LCRC: bv32 := 0xedb8_8320
  const CRC: bv32 := 0xd008

  function Half(x: bv32): bv32 {
    x >> 1
  }

  predicate Odd(x: bv32) {
    x & 1 == 1
  }

  function Sum(x: bv32, y: bv32): bv32 {
    x ^ y
  }

  /** The number a machine word stands for. */
  function Number(x: bv32): nat
    decreases x
  {
    if x == 0 then 0 else (if Odd(x) then 1 else 0) + 2 * Number(Half(x))
  }

  function Step(c: bv32, poly: bv32): bv32 {
    if c & 1 == 1 then (c >> 1) ^ poly else c >> 1
  }

  function Eight(c: bv32, poly: bv32): bv32 {
    Step(Step(Step(Step(Step(Step(Step(Step(c, poly), poly), poly), poly), poly), poly), poly), poly)
  }

  lemma NumberStep(x: bv32)
    ensures Number(x) == (if Odd(x) then 1 else 0) + 2 * Number(Half(x))
  {
  }

  lemma HalfSum(x: bv32, y: bv32)
    ensures Half(Sum(x, y)) == Sum(Half(x), Half(y)) && (Odd(Sum(x, y)) <==> Odd(x) != Odd(y))
  {
  }

  lemma HalfLess(x: bv32)
    ensures x != 0 ==> Half(x) < x
  {
  }

  lemma ZeroSum(x: bv32, y: bv32)
    requires x == 0
    ensures Number(Sum(x, y)) == Xor(Number(x), Number(y))
  {
    assert Sum(x, y) == y;
  }

  lemma {:induction false} NumberSum(x: bv32, y: bv32)
    ensures Number(Sum(x, y)) == Xor(Number(x), Number(y))
    decreases x
  {
    hide Number, Xor, Half, Odd, Sum;
    if x == 0 {
      ZeroSum(x, y);
    } else {
      HalfLess(x);
      NumberSum(Half(x), Half(y));
      SumStep(x, y);
    }
  }

  lemma SumStep(x: bv32, y: bv32)
    requires Number(Sum(Half(x), Half(y))) == Xor(Number(Half(x)), Number(Half(y)))
    ensures Number(Sum(x, y)) == Xor(Number(x), Number(y))
  {
    hide Number, Xor, Half, Odd, Sum;
    HalfSum(x, y);
    NumberStep(x);
    NumberStep(y);
    NumberStep(Sum(x, y));
    XorStep(Number(x), Number(y));
  }

  lemma StepShape(c: bv32, poly: bv32)
    ensures Step(c, poly) == if Odd(c) then Sum(Half(c), poly) else Half(c)
  {
  }

  lemma StepIsBitStep(c: bv32, poly: bv32)
    ensures Number(Step(c, poly)) == BitStep(Number(c), Number(poly))
  {
    hide Number, Xor, Half, Odd, Sum, Step;
    StepShape(c, poly);
    NumberStep(c);
    NumberSum(Half(c), poly);
  }

  lemma EightIsBitSteps(c: bv32, poly: bv32)
    ensures Number(Eight(c, poly)) == BitSteps(Number(c), Number(poly), 8)
  {
    hide Number, BitStep, Step;
    var n, p := Number(c), Number(poly);
    var c1 := Step(c, poly);
    var c2 := Step(c1, poly);
    var c3 := Step(c2, poly);
    var c4 := Step(c3, poly);
    var c5 := Step(c4, poly);
    var c6 := Step(c5, poly);
    var c7 := Step(c6, poly);
    StepIsBitStep(c, poly);
    assert BitSteps(n, p, 1) == Number(c1);
    StepIsBitStep(c1, poly);
    assert BitSteps(n, p, 2) == Number(c2);
    StepIsBitStep(c2, poly);
    assert BitSteps(n, p, 3) == Number(c3);
    StepIsBitStep(c3, poly);
    assert BitSteps(n, p, 4) == Number(c4);
    StepIsBitStep(c4, poly);
    assert BitSteps(n, p, 5) == Number(c5);
    StepIsBitStep(c5, poly);
    assert BitSteps(n, p, 6) == Number(c6);
    StepIsBitStep(c6, poly);
    assert BitSteps(n, p, 7) == Number(c7);
    StepIsBitStep(c7, poly);
  }

  lemma EightMore(c: bv32, poly: bv32, n: nat, d: bv32, e: bv32)
    requires BitSteps(Number(c), Number(poly), n) == Number(d) && Eight(d, poly) == e
    ensures BitSteps(Number(c), Number(poly), n + 8) == Number(e)
  {
    hide Number, BitSteps, Eight;
    EightIsBitSteps(d, poly);
    BitStepsAdd(Number(c), Number(poly), n, 8);
  }

  function Digit(x: bv32): nat {
    (if x & 1 == 1 then 1 else 0) + (if x & 2 == 2 then 2 else 0) + (if x & 4 == 4 then 4 else 0)
    + (if x & 8 == 8 then 8 else 0)
  }

  function Rest(x: bv32): bv32 {
    x >> 4
  }

  lemma NumberDigit(x: bv32)
    ensures Number(x) == 16 * Number(Rest(x)) + Digit(x)
  {
    hide Number, Half, Odd, Rest, Digit;
    FourHalves(x);
    NumberStep(x);
    NumberStep(Half(x));
    NumberStep(Half(Half(x)));
    NumberStep(Half(Half(Half(x))));
  }

  lemma FourHalves(x: bv32)
    ensures Half(Half(Half(Half(x)))) == Rest(x)
    ensures Digit(x) == (if Odd(x) then 1 else 0) + (if Odd(Half(x)) then 2 else 0)
                        + (if Odd(Half(Half(x))) then 4 else 0) + (if Odd(Half(Half(Half(x)))) then 8 else 0)
  {
  }

  lemma EightDigits(x: bv32)
    ensures Rest(Rest(Rest(Rest(Rest(Rest(Rest(Rest(x)))))))) == 0 && Number(0) == 0
  {
  }

  /** The number in hexadecimal. */
  lemma NumberDigits(x: bv32)
    ensures var a := Rest(x);
            var b := Rest(a);
            var c := Rest(b);
            var d := Rest(c);
            var e := Rest(d);
            var f := Rest(e);
            Number(x) == Digit(x) + 0x10 * Digit(a) + 0x100 * Digit(b) + 0x1000 * Digit(c) + 0x1_0000 * Digit(d)
                         + 0x10_0000 * Digit(e) + 0x100_0000 * Digit(f) + 0x1000_0000 * Digit(Rest(f))
  {
    hide Number, Digit, Rest;
    var a := Rest(x);
    var b := Rest(a);
    var c := Rest(b);
    var d := Rest(c);
    var e := Rest(d);
    var f := Rest(e);
    NumberDigit(x);
    NumberDigit(a);
    NumberDigit(b);
    NumberDigit(c);
    NumberDigit(d);
    NumberDigit(e);
    NumberDigit(f);
    NumberDigit(Rest(f));
    EightDigits(x);
  }

  lemma Values()
    ensures Number(0xffff_ffff) == 0xffff_ffff && Number(0xedb8_8320) == 0xedb8_8320
    ensures Number(0xdebb_20e3) == 0xdebb_20e3 && Number(0x2e44_8638) == 0x2e44_8638
    ensures Number(0xffff) == 0xffff && Number(0xd008) == 0xd008
    ensures Number(0x556f) == 0x556f && Number(0x9d4c) == 0x9d4c
  {
    hide Number;
    NumberDigits(0xffff_ffff);
    NumberDigits(0xedb8_8320);
    NumberDigits(0xdebb_20e3);
    NumberDigits(0x2e44_8638);
    NumberDigits(0xffff);
    NumberDigits(0xd008);
    NumberDigits(0x556f);
    NumberDigits(0x9d4c);
  }

  lemma LcrcTable()
    ensures Eight(0xffff_ffff, LCRC) == 0x2dfd_1072
    ensures Eight(0x2dfd_1072, LCRC) == 0xbe26_ed00
    ensures Eight(0xbe26_ed00, LCRC) == 0xbe_26ed
    ensures Eight(0xbe_26ed, LCRC) == 0xdebb_20e3
    ensures Eight(0xdebb_20e3, LCRC) == 0x39dd_08e2
    ensures Eight(0x39dd_08e2, LCRC) == 0x4e3d_5e5c
    ensures Eight(0x4e3d_5e5c, LCRC) == 0x6293_2081
    ensures Eight(0x6293_2081, LCRC) == 0x9add_2096
    ensures Eight(0x9add_2096, LCRC) == 0x19f6_eb51
    ensures Eight(0x19f6_eb51, LCRC) == 0x1c75_9789
    ensures Eight(0x1c75_9789, LCRC) == 0x9478_4e13
    ensures Eight(0x9478_4e13, LCRC) == 0x842a_3990
    ensures Eight(0x842a_3990, LCRC) == 0xf08b_b97d
    ensures Eight(0xf08b_b97d, LCRC) == 0x2e44_8638
  {
  }

  lemma Crc16Table()
    ensures Eight(0xffff, CRC) == 0x99f
    ensures Eight(0x99f, CRC) == 0x556f
    ensures Eight(0x556f, CRC) == 0xc33c
    ensures Eight(0xc33c, CRC) == 0x9d4c
  {
  }

  /** From all ones, 32 steps lead to the residue of the LCRC, and 112 steps are fourteen bytes of zeros. */
  lemma LcrcValues()
    ensures BitSteps(0xffff_ffff, TLP_LCRC32_POLY, 32) == 0xdebb_20e3
    ensures BitSteps(0xffff_ffff, TLP_LCRC32_POLY, 112) == 0x2e44_8638
  {
    hide Number, BitSteps, Eight;
    LcrcTable();
    Values();
    BitStepsNone(Number(0xffff_ffff), Number(LCRC));
    EightMore(0xffff_ffff, LCRC, 0, 0xffff_ffff, 0x2dfd_1072);
    EightMore(0xffff_ffff, LCRC, 8, 0x2dfd_1072, 0xbe26_ed00);
    EightMore(0xffff_ffff, LCRC, 16, 0xbe26_ed00, 0xbe_26ed);
    EightMore(0xffff_ffff, LCRC, 24, 0xbe_26ed, 0xdebb_20e3);
    EightMore(0xffff_ffff, LCRC, 32, 0xdebb_20e3, 0x39dd_08e2);
    EightMore(0xffff_ffff, LCRC, 40, 0x39dd_08e2, 0x4e3d_5e5c);
    EightMore(0xffff_ffff, LCRC, 48, 0x4e3d_5e5c, 0x6293_2081);
    EightMore(0xffff_ffff, LCRC, 56, 0x6293_2081, 0x9add_2096);
    EightMore(0xffff_ffff, LCRC, 64, 0x9add_2096, 0x19f6_eb51);
    EightMore(0xffff_ffff, LCRC, 72, 0x19f6_eb51, 0x1c75_9789);
    EightMore(0xffff_ffff, LCRC, 80, 0x1c75_9789, 0x9478_4e13);
    EightMore(0xffff_ffff, LCRC, 88, 0x9478_4e13, 0x842a_3990);
    EightMore(0xffff_ffff, LCRC, 96, 0x842a_3990, 0xf08b_b97d);
    EightMore(0xffff_ffff, LCRC, 104, 0xf08b_b97d, 0x2e44_8638);
  }

  /** The same for the 16-bit CRC: the residue, and four bytes of zeros. */
  lemma Crc16Values()
    ensures BitSteps(0xffff, DLLP_CRC16_POLY, 16) == 0x556f
    ensures BitSteps(0xffff, DLLP_CRC16_POLY, 32) == 0x9d4c
  {
    hide Number, BitSteps, Eight;
    Crc16Table();
    Values();
    BitStepsNone(Number(0xffff), Number(CRC));
    EightMore(0xffff, CRC, 0, 0xffff, 0x99f);
    EightMore(0xffff, CRC, 8, 0x99f, 0x556f);
    EightMore(0xffff, CRC, 16, 0x556f, 0xc33c);
    EightMore(0xffff, CRC, 24, 0xc33c, 0x9d4c);
  }

  lemma BitStepsNone(c: nat, poly: nat)
    ensures BitSteps(c, poly, 0) == c
  {
  }
}
