/**
 The CRCs as polynomial division over GF(2).

 A register of w bits stands for a polynomial of degree below w, bit i for the coefficient of
 x^(w-1-i), and a bit string of length n for one of degree below n, its first bit the highest.
 Appending zeros then multiplies by x without changing the number, and the product of two polynomials
 is the carryless product of their numbers.
 */
module Division {
  import opened Bits
  import opened Crc

  // ---------------------------------------------------------------- generators

  /** x^e in a polynomial of degree w. */
  function X(w: nat, e: nat): nat
    requires e <= w
  {
    Pow2(w - e)
  }

  /** x^32 + x^26 + x^23 + x^22 + x^16 + x^12 + x^11 + x^10 + x^8 + x^7 + x^5 + x^4 + x^2 + x + 1 */
  function LcrcGenerator(): nat {
    X(32, 32) + X(32, 26) + X(32, 23) + X(32, 22) + X(32, 16) + X(32, 12) + X(32, 11) + X(32, 10)
    + X(32, 8) + X(32, 7) + X(32, 5) + X(32, 4) + X(32, 2) + X(32, 1) + X(32, 0)
  }

  /** x^16 + x^12 + x^3 + x + 1 */
  function Crc16Generator(): nat {
    X(16, 16) + X(16, 12) + X(16, 3) + X(16, 1) + X(16, 0)
  }

  lemma PowersOfTwo()
    ensures Pow2(0) == 1 && Pow2(4) == 0x10 && Pow2(6) == 0x40 && Pow2(9) == 0x200 && Pow2(10) == 0x400
    ensures Pow2(13) == 0x2000 && Pow2(15) == 0x8000 && Pow2(16) == 0x1_0000 && Pow2(20) == 0x10_0000
    ensures Pow2(21) == 0x20_0000 && Pow2(22) == 0x40_0000 && Pow2(24) == 0x100_0000 && Pow2(25) == 0x200_0000
    ensures Pow2(27) == 0x800_0000 && Pow2(28) == 0x1000_0000 && Pow2(30) == 0x4000_0000
    ensures Pow2(31) == 0x8000_0000 && Pow2(32) == 0x1_0000_0000
  {
    assert Pow2(4) == 0x10;
    assert Pow2(6) == 0x40;
    assert Pow2(8) == 0x100;
    assert Pow2(10) == 0x400;
    assert Pow2(13) == 0x2000;
    assert Pow2(16) == 0x1_0000;
    assert Pow2(19) == 0x8_0000;
    assert Pow2(22) == 0x40_0000;
    assert Pow2(25) == 0x200_0000;
    assert Pow2(28) == 0x1000_0000;
    assert Pow2(30) == 0x4000_0000;
  }

  /** The constants of inc/warppipe/crc.h are these generators, without their lowest bit. */
  lemma Generators()
    ensures LcrcGenerator() == 2 * TLP_LCRC32_POLY + 1 && Crc16Generator() == 2 * DLLP_CRC16_POLY + 1
  {
    PowersOfTwo();
    hide Pow2;
  }

  // ---------------------------------------------------------------- division

  /** The carryless product. */
  function Clmul(q: nat, g: nat): nat {
    if q == 0 then 0 else Xor(if q % 2 == 1 then g else 0, 2 * Clmul(q / 2, g))
  }

  /** r behind n bits. */
  function Behind(n: nat, r: nat): nat {
    Pow2(n) * r
  }

  /** x is q times g, and r behind its first n bits. */
  ghost predicate Divides(x: nat, g: nat, n: nat, q: nat, r: nat) {
    q < Pow2(n) && x == Xor(Clmul(q, g), Behind(n, r))
  }

  /** What the division of x by g leaves behind its first n bits. */
  ghost predicate Remainder(x: nat, g: nat, n: nat, r: nat) {
    exists q :: Divides(x, g, n, q, r)
  }

  function Part(bit: nat, g: nat): nat {
    if bit == 1 then g else 0
  }

  lemma XorDouble(x: nat, y: nat)
    ensures Xor(2 * x, 2 * y) == 2 * Xor(x, y)
  {
    hide Xor;
    XorStep(2 * x, 2 * y);
  }

  lemma ZeroXor(x: nat)
    ensures Xor(0, x) == x && Xor(x, 0) == x
  {
    XorCommutes(0, x);
  }

  lemma ClmulStep(q: nat, g: nat)
    ensures Clmul(q, g) == Xor(Part(q % 2, g), 2 * Clmul(q / 2, g))
  {
    if q == 0 { ZeroXor(0); }
  }

  lemma PartParity(q: nat, g: nat)
    requires g % 2 == 1
    ensures Part(q % 2, g) % 2 == q % 2
  {
  }

  lemma FirstBit(h: nat, y: nat)
    ensures Xor(h, 2 * y) % 2 == h % 2
  {
    hide Xor;
    XorStep(h, 2 * y);
  }

  lemma HalfBelow(q: nat, n: nat)
    requires n > 0 && q < Pow2(n)
    ensures q / 2 < Pow2(n - 1)
  {
  }

  lemma PowStep(n: nat, r: nat)
    requires n > 0
    ensures Behind(n, r) == 2 * Behind(n - 1, r)
  {
  }

  /** One bit step: the register is a multiple of the generator and twice the next register. */
  lemma StepDivides(c: nat, poly: nat)
    ensures c == Xor(Part(c % 2, 2 * poly + 1), 2 * BitStep(c, poly))
  {
    hide Xor;
    if c % 2 == 1 {
      var next := Xor(c / 2, poly);
      XorStep(2 * poly + 1, 2 * next);
      XorCommutes(poly, next);
      XorCancel(c / 2, poly);
    } else {
      ZeroXor(c);
    }
  }

  lemma {:induction false} StepsDivide(c: nat, poly: nat, n: nat) returns (q: nat)
    ensures Divides(c, 2 * poly + 1, n, q, BitSteps(c, poly, n))
    decreases n
  {
    if n == 0 {
      q := 0;
      ZeroXor(c);
    } else {
      var next := BitStep(c, poly);
      OneThenMore(c, poly, n);
      hide BitSteps, BitStep, Xor, Clmul;
      var p := StepsDivide(next, poly, n - 1);
      StepDivides(c, poly);
      q := 2 * p + c % 2;
      Extended(c, 2 * poly + 1, n, next, p, q, BitSteps(next, poly, n - 1));
    }
  }

  lemma OneThenMore(c: nat, poly: nat, n: nat)
    requires n > 0
    ensures BitSteps(BitStep(c, poly), poly, n - 1) == BitSteps(c, poly, n)
  {
    assert BitSteps(c, poly, 1) == BitStep(BitSteps(c, poly, 0), poly);
    BitStepsAdd(c, poly, 1, n - 1);
  }

  /** A division by an odd number, one bit at a time. */
  lemma Extended(x: nat, g: nat, n: nat, y: nat, p: nat, q: nat, r: nat)
    requires n > 0 && q == 2 * p + x % 2
    requires x == Xor(Part(x % 2, g), 2 * y) && Divides(y, g, n - 1, p, r)
    ensures Divides(x, g, n, q, r)
  {
    var tail := Behind(n - 1, r);
    PowStep(n, r);
    assert q / 2 == p && q % 2 == x % 2 && q < Pow2(n);
    hide Xor, Pow2, Clmul, Part, Behind;
    XorDouble(Clmul(p, g), tail);
    XorAssociates(Part(x % 2, g), 2 * Clmul(p, g), 2 * tail);
    ClmulStep(q, g);
  }

  /** The first bit of the quotient is that of the dividend; without it, a shorter division is left. */
  lemma Shortened(x: nat, g: nat, n: nat, q: nat, r: nat) returns (y: nat)
    requires g % 2 == 1 && n > 0 && Divides(x, g, n, q, r)
    ensures q % 2 == x % 2 && x == Xor(Part(x % 2, g), 2 * y) && Divides(y, g, n - 1, q / 2, r)
  {
    var tail := Behind(n - 1, r);
    y := Xor(Clmul(q / 2, g), tail);
    hide Xor, Clmul, Part, Behind, Pow2;
    PowStep(n, r);
    HalfBelow(q, n);
    PartParity(q, g);
    ClmulStep(q, g);
    XorAssociates(Part(q % 2, g), 2 * Clmul(q / 2, g), 2 * tail);
    XorDouble(Clmul(q / 2, g), tail);
    FirstBit(Part(q % 2, g), y);
  }

  /** Quotient and remainder of a division by an odd number are unique. */
  lemma {:induction false} DivisionUnique(x: nat, g: nat, n: nat, q: nat, r: nat, q': nat, r': nat)
    requires g % 2 == 1 && Divides(x, g, n, q, r) && Divides(x, g, n, q', r')
    ensures q == q' && r == r'
    decreases n
  {
    if n == 0 {
      ZeroXor(r);
      ZeroXor(r');
    } else {
      hide Divides, Xor, Part;
      var y := Shortened(x, g, n, q, r);
      var y' := Shortened(x, g, n, q', r');
      SameTail(Part(x % 2, g), y, y');
      DivisionUnique(y, g, n - 1, q / 2, r, q' / 2, r');
      Halves(q, q');
    }
  }

  lemma SameTail(h: nat, y: nat, y': nat)
    requires Xor(h, 2 * y) == Xor(h, 2 * y')
    ensures y == y'
  {
    hide Xor;
    XorCommutes(h, 2 * y);
    XorCommutes(h, 2 * y');
    XorCancel(2 * y, h);
    XorCancel(2 * y', h);
  }

  // ---------------------------------------------------------------- the CRCs

  /** The CRC is a remainder: the message with the start value, followed by as many zeros as the register
      has bits, is a multiple of the generator and the CRC. */
  lemma CrcDivides(data: seq<byte>, init: nat, poly: nat) returns (q: nat)
    ensures Divides(Xor(init, Word(data)), 2 * poly + 1, 8 * |data|, q, Crc32(data, init, poly))
  {
    hide Xor, Word, Crc32, BitSteps, Divides;
    WordLaw(data, init, poly);
    q := StepsDivide(Xor(init, Word(data)), poly, 8 * |data|);
  }

  /** And it is the only one. */
  lemma CrcIsRemainder(data: seq<byte>, init: nat, poly: nat, r: nat)
    ensures r == Crc32(data, init, poly)
      <==> Remainder(Xor(init, Word(data)), 2 * poly + 1, 8 * |data|, r)
  {
    hide Xor, Word, Crc32, Divides;
    var x, g, n := Xor(init, Word(data)), 2 * poly + 1, 8 * |data|;
    var q := CrcDivides(data, init, poly);
    if q' :| Divides(x, g, n, q', r) {
      DivisionUnique(x, g, n, q, Crc32(data, init, poly), q', r);
    }
  }

  /** The LCRC, with its generator and its start value, all ones. */
  lemma LcrcIsRemainder(data: seq<byte>, r: nat)
    ensures r == Lcrc(data)
      <==> Remainder(Xor(0xffff_ffff, Word(data)), LcrcGenerator(), 8 * |data|, r)
  {
    hide Xor, Word, Crc32, Remainder, X;
    Generators();
    CrcIsRemainder(data, INIT32, TLP_LCRC32_POLY, r);
  }

  /** The CRC of data link packets, likewise. */
  lemma Crc16IsRemainder(data: seq<byte>, r: nat)
    ensures r == Crc16(data)
      <==> Remainder(Xor(0xffff, Word(data)), Crc16Generator(), 8 * |data|, r)
  {
    hide Xor, Word, Crc32, Remainder, X;
    Generators();
    CrcIsRemainder(data, INIT16, DLLP_CRC16_POLY, r);
  }
}
