/**
 Bitwise operators of the source on unbounded naturals.

 The C code masks addresses with `addr & ~(size - 1)` and tests powers of two with
 `size & (size - 1)`.  Here `&` is defined bit by bit on naturals, and the lemmas give the
 arithmetic meaning of those two idioms for every width.
 */
module Bits {

  type byte = x: int | 0 <= x < 256

  const U32: nat := 0x1_0000_0000
  const U64: nat := 0x1_0000_0000_0000_0000

  function Pow2(k: nat): nat {
    if k == 0 then 1 else 2 * Pow2(k - 1)
  }

  ghost predicate IsPow2(s: nat) {
    exists k: nat :: s == Pow2(k)
  }

  /** `x & y` */
  function And(x: nat, y: nat): nat {
    if x == 0 || y == 0 then 0 else 2 * And(x / 2, y / 2) + (if x % 2 == 1 && y % 2 == 1 then 1 else 0)
  }

  /** `x | y` */
  function Or(x: nat, y: nat): nat {
    if x == 0 then y else if y == 0 then x
    else 2 * Or(x / 2, y / 2) + (if x % 2 + y % 2 == 0 then 0 else 1)
  }

  /** `x ^ y` */
  function Xor(x: nat, y: nat): nat {
    if x == 0 then y else if y == 0 then x
    else 2 * Xor(x / 2, y / 2) + (if x % 2 == y % 2 then 0 else 1)
  }

  /** `~x` on 32 bits */
  function Not32(x: nat): (r: nat)
    requires x < U32
    ensures r < U32
  {
    U32 - 1 - x
  }

  /** `-x` on 32 bits */
  function Neg32(x: nat): (r: nat)
    requires x < U32
    ensures r < U32
  {
    (U32 - x) % U32
  }

  lemma {:induction false} Pow2Positive(k: nat)
    ensures Pow2(k) > 0
  {
    if k > 0 { Pow2Positive(k - 1); }
  }

  lemma {:induction false} Pow2Adds(j: nat, k: nat)
    ensures Pow2(j + k) == Pow2(j) * Pow2(k)
  {
    if j > 0 {
      Pow2Adds(j - 1, k);
      assert Pow2(j) == 2 * Pow2(j - 1) && Pow2(j + k) == 2 * Pow2(j - 1 + k);
      hide Pow2;
      Doubled(Pow2(j - 1), Pow2(k));
    }
  }

  lemma Doubled(a: nat, b: nat)
    ensures 2 * (a * b) == (2 * a) * b
  {
  }

  /** The remainder by a product, one digit at a time. */
  lemma DigitMod(x: nat, b: nat, m: nat)
    requires b > 0 && m > 0
    ensures b * m > 0 && x % (b * m) == x % b + b * (x / b % m)
    ensures x / b / m == x / (b * m)
  {
    DivMod(x, b);
    DivMod(x / b, m);
    TwoDigits(x, b, m, x / b, x % b, x / b / m, x / b % m);
  }

  lemma DivMod(x: nat, b: nat)
    requires b > 0
    ensures x == b * (x / b) + x % b && x / b >= 0 && 0 <= x % b < b
  {
  }

  lemma TwoDigits(x: nat, b: nat, m: nat, y: nat, c: nat, q: nat, r: nat)
    requires x == b * y + c && c < b && y == m * q + r && r < m
    ensures b * m > 0 && x % (b * m) == c + b * r && x / (b * m) == q
  {
    Expand(b, m, q, r);
    ModUnique(x, b * m, q, c + b * r);
  }

  lemma Expand(b: nat, m: nat, q: nat, r: nat)
    requires b > 0 && r < m
    ensures b * (m * q + r) == (b * m) * q + b * r && b * m > 0 && b * r + b <= b * m
  {
    assert b * m == b * r + b * (m - r);
    Multiple(m - r, b);
  }

  lemma DivDiv(x: nat, b: nat, m: nat)
    requires b > 0 && m > 0
    ensures b * m > 0 && x / b / m == x / (b * m)
  {
    DigitMod(x, b, m);
  }

  lemma HalveMod(x: nat, m: nat)
    requires m > 0
    ensures x % (2 * m) == 2 * (x / 2 % m) + x % 2
  {
    DigitMod(x, 2, m);
  }

  lemma ModUnique(x: int, m: int, q: int, r: int)
    requires m > 0 && 0 <= r < m && x == m * q + r
    ensures x % m == r && x / m == q
  {
    var d := x / m - q;
    assert m * d == r - x % m by {
      assert m * d == m * (x / m) - m * q;
    }
    assert d >= 1 ==> m * d >= m;
    assert d <= -1 ==> m * d <= -m;
  }

  lemma AndStep(x: nat, y: nat)
    ensures And(x, y) == 2 * And(x / 2, y / 2) + (if x % 2 == 1 && y % 2 == 1 then 1 else 0)
  {
  }

  /** The low k bits of x. */
  function Low(x: nat, k: nat): nat {
    if k == 0 then 0 else 2 * Low(x / 2, k - 1) + x % 2
  }

  lemma {:induction false} LowIsRemainder(x: nat, k: nat)
    ensures Pow2(k) > 0 && Low(x, k) == x % Pow2(k)
  {
    Pow2Positive(k);
    if k > 0 {
      LowIsRemainder(x / 2, k - 1);
      HalveMod(x, Pow2(k - 1));
    }
  }

  /** Masking with `2^k - 1` keeps the low k bits. */
  lemma {:induction false} AndLow(x: nat, k: nat)
    ensures Pow2(k) > 0 && And(x, Pow2(k) - 1) == Low(x, k)
  {
    Pow2Positive(k);
    if k > 0 {
      AndLow(x / 2, k - 1);
      AndStep(x, Pow2(k) - 1);
    }
  }

  /** Masking with `2^n - 2^k` keeps the bits from k up to n. */
  lemma {:induction false} AndHigh(x: nat, n: nat, k: nat)
    requires k <= n
    ensures 0 < Pow2(k) <= Pow2(n)
    ensures And(x, Pow2(n) - Pow2(k)) == Low(x, n) - Low(x, k)
  {
    Pow2Order(k, n);
    if k == 0 {
      AndLow(x, n);
    } else {
      hide And;
      AndHigh(x / 2, n - 1, k - 1);
      assert Pow2(n) - Pow2(k) == 2 * (Pow2(n - 1) - Pow2(k - 1));
      AndEven(x, Pow2(n - 1) - Pow2(k - 1));
    }
  }

  lemma {:induction false} AndBound(x: nat, y: nat)
    ensures And(x, y) <= x && And(x, y) <= y
    decreases x
  {
    if x > 0 && y > 0 { AndBound(x / 2, y / 2); }
  }

  lemma AndEven(x: nat, y: nat)
    ensures And(x, 2 * y) == 2 * And(x / 2, y)
  {
    hide And;
    AndStep(x, 2 * y);
    assert 2 * y / 2 == y && 2 * y % 2 == 0;
  }

  /** The test `s & (s - 1)` recognises exactly the powers of two (and 0). */
  lemma {:induction false} PowerOfTwoTest(s: nat)
    requires s > 0
    ensures And(s, s - 1) == 0 <==> IsPow2(s)
  {
    Pow2Parity(s);
    AndStep(s, s - 1);
    if s % 2 == 0 {
      assert (s - 1) / 2 == s / 2 - 1;
      PowerOfTwoTest(s / 2);
    } else {
      assert (s - 1) / 2 == s / 2;
      AndSelf(s / 2);
    }
  }

  lemma Pow2Parity(s: nat)
    requires s > 0
    ensures IsPow2(s) <==> if s % 2 == 0 then IsPow2(s / 2) else s == 1
  {
    if IsPow2(s) {
      var k: nat :| s == Pow2(k);
      if k > 0 { assert s / 2 == Pow2(k - 1); }
    }
    if s == 1 { assert s == Pow2(0); }
    if s % 2 == 0 && IsPow2(s / 2) {
      var k: nat :| s / 2 == Pow2(k);
      assert s == Pow2(k + 1);
    }
  }

  lemma {:induction false} AndSelf(x: nat)
    ensures And(x, x) == x
  {
    if x > 0 { AndSelf(x / 2); }
  }

  /** `|` adds when the operands share no bits: high multiple of `2^k`, low part below it. */
  lemma {:induction false} OrDisjoint(h: nat, l: nat, k: nat)
    requires l < Pow2(k) && Pow2(k) > 0 && h % Pow2(k) == 0
    ensures Or(h, l) == h + l
  {
    if h > 0 && l > 0 {
      var m := Pow2(k - 1);
      HalveMod(h, m);
      OrDisjoint(h / 2, l / 2, k - 1);
    }
  }

  lemma Multiple(a: nat, b: nat)
    requires a > 0 && b > 0
    ensures a * b >= b && a * b % b == 0
  {
    ModUnique(a * b, b, a, 0);
  }

  lemma Pow2Divides(k: nat, n: nat)
    requires k <= n
    ensures 0 < Pow2(k) <= Pow2(n) && Pow2(n) % Pow2(k) == 0
  {
    Pow2Positive(k);
    Pow2Positive(n - k);
    Pow2Adds(n - k, k);
    Multiple(Pow2(n - k), Pow2(k));
  }

  /** A power of two below `2^n` divides `2^n`. */
  lemma Pow2Order(k: nat, n: nat)
    ensures k <= n <==> Pow2(k) <= Pow2(n)
    ensures k <= n ==> Pow2(k) > 0 && Pow2(n) % Pow2(k) == 0
  {
    Pow2Positive(k);
    Pow2Positive(n);
    if k <= n {
      Pow2Divides(k, n);
    } else {
      Pow2Divides(n + 1, k);
    }
  }

  lemma Pow2Is32()
    ensures Pow2(32) == U32
  {
    assert Pow2(8) == 256;
    Pow2Adds(8, 8);
    Pow2Adds(16, 16);
  }

  /** What `addr & ~(size - 1)` and `addr & (size - 1)` compute for a 32-bit power of two. */
  lemma MaskMeaning(addr: nat, size: nat)
    requires IsPow2(size) && 0 < size < U32
    ensures And(addr, Not32(size - 1)) == addr % U32 - addr % size
    ensures And(addr, size - 1) == addr % size
  {
    var k: nat :| size == Pow2(k);
    Pow2Is32();
    Pow2Order(k, 32);
    AndHigh(addr, 32, k);
    AndLow(addr, k);
    LowIsRemainder(addr, 32);
    LowIsRemainder(addr, k);
  }

  // ---------------------------------------------------------------- exclusive or

  lemma XorStep(x: nat, y: nat)
    ensures Xor(x, y) / 2 == Xor(x / 2, y / 2)
    ensures Xor(x, y) % 2 == if x % 2 == y % 2 then 0 else 1
  {
  }

  lemma {:induction false} XorCommutes(x: nat, y: nat)
    ensures Xor(x, y) == Xor(y, x)
  {
    if x > 0 && y > 0 { XorCommutes(x / 2, y / 2); }
  }

  lemma {:induction false} XorAssociates(x: nat, y: nat, z: nat)
    ensures Xor(Xor(x, y), z) == Xor(x, Xor(y, z))
    decreases x + y + z
  {
    if x > 0 && y > 0 && z > 0 {
      XorAssociates(x / 2, y / 2, z / 2);
      XorNested(x, y, z);
      XorNested(z, y, x);
      XorCommutes(Xor(z, y), x);
      XorCommutes(z, y);
      XorCommutes(Xor(z / 2, y / 2), x / 2);
      XorCommutes(z / 2, y / 2);
      Halves(Xor(Xor(x, y), z), Xor(x, Xor(y, z)));
    }
  }

  lemma Halves(x: nat, y: nat)
    requires x / 2 == y / 2 && x % 2 == y % 2
    ensures x == y
  {
  }

  lemma XorNested(x: nat, y: nat, z: nat)
    ensures Xor(Xor(x, y), z) / 2 == Xor(Xor(x / 2, y / 2), z / 2)
    ensures Xor(Xor(x, y), z) % 2 == if (x % 2 == y % 2) == (z % 2 == 0) then 0 else 1
  {
    XorStep(x, y);
    XorStep(Xor(x, y), z);
  }

  lemma {:induction false} XorSelf(x: nat)
    ensures Xor(x, x) == 0
  {
    if x > 0 { XorSelf(x / 2); }
  }

  /** XOR with the same value twice restores the operand. */
  lemma XorCancel(x: nat, y: nat)
    ensures Xor(Xor(x, y), y) == x
  {
    XorAssociates(x, y, y);
    XorSelf(y);
  }

  /** `c ^ x == y` has exactly one solution x. */
  lemma XorSolve(c: nat, x: nat, y: nat)
    ensures Xor(c, x) == y <==> x == Xor(c, y)
  {
    XorCommutes(c, x);
    XorCommutes(c, y);
    XorCancel(x, c);
    XorCancel(y, c);
  }

  lemma XorSwap(a: nat, b: nat, c: nat, d: nat)
    ensures Xor(Xor(a, b), Xor(c, d)) == Xor(Xor(a, c), Xor(b, d))
  {
    XorAssociates(a, b, Xor(c, d));
    XorAssociates(b, c, d);
    XorCommutes(b, c);
    XorAssociates(c, b, d);
    XorAssociates(a, c, Xor(b, d));
  }

  lemma {:induction false} XorBound(x: nat, y: nat, k: nat)
    requires x < Pow2(k) && y < Pow2(k)
    ensures Xor(x, y) < Pow2(k)
  {
    if x > 0 && y > 0 { XorBound(x / 2, y / 2, k - 1); }
  }

  /** A top bit present in just one operand survives. */
  lemma {:induction false} XorTop(x: nat, y: nat, k: nat)
    requires x < Pow2(k) <= y
    ensures Xor(x, y) >= Pow2(k)
  {
    if x > 0 { XorTop(x / 2, y / 2, k - 1); }
  }

  /** Complementing is XOR with all ones. */
  lemma {:induction false} XorOnes(x: nat, k: nat)
    requires x < Pow2(k)
    ensures Xor(x, Pow2(k) - 1) == Pow2(k) - 1 - x
  {
    if x > 0 {
      var m := Pow2(k) - 1;
      XorOnes(x / 2, k - 1);
      assert m % 2 == 1 && m / 2 == Pow2(k - 1) - 1;
      Halves(Xor(x, m), m - x) by { XorStep(x, m); }
    }
  }
}
