/**
 The bit-serial reflected CRC of the link layer (src/crc.c), as a recursive definition with its
 theory over GF(2): linearity, the word law, injectivity, burst detection and the residue law.
 The register is a natural number; `Xor` and `/ 2` are the source's `^` and `>> 1`.
 The methods that run the source's loops over packets are in Seal.dfy.
 */
module Crc {
  import opened Bits

  const DLLP_CRC16_POLY: nat := 0xd008
  const TLP_LCRC32_POLY: nat := 0xedb8_8320
  const INIT16: nat := 0xffff
  const INIT32: nat := 0xffff_ffff

  /** One turn of the inner loop. */
  function BitStep(crc: nat, poly: nat): nat {
    if crc % 2 == 1 then Xor(crc / 2, poly) else crc / 2
  }

  function BitSteps(crc: nat, poly: nat, n: nat): nat {
    if n == 0 then crc else BitStep(BitSteps(crc, poly, n - 1), poly)
  }

  /** One turn of the outer loop: a data byte enters the low bits, then 8 bit steps. */
  function ByteStep(crc: nat, b: byte, poly: nat): nat {
    BitSteps(Xor(crc, b), poly, 8)
  }

  function Crc32(data: seq<byte>, init: nat, poly: nat): nat {
    if data == [] then init
    else ByteStep(Crc32(data[..|data| - 1], init, poly), data[|data| - 1], poly)
  }

  /** The low n bytes of a register, least significant first, as the trailer loops write them. */
  function Trailer(crc: nat, n: nat): (t: seq<byte>)
    ensures |t| == n
  {
    if n == 0 then [] else [crc % 256] + Trailer(crc / 256, n - 1)
  }

  /** The little-endian number held by a byte string. */
  function Word(t: seq<byte>): nat {
    if t == [] then 0 else t[0] + 256 * Word(t[1..])
  }

  function Lcrc(data: seq<byte>): nat {
    Crc32(data, INIT32, TLP_LCRC32_POLY)
  }

  function Crc16(data: seq<byte>): nat {
    Crc32(data, INIT16, DLLP_CRC16_POLY)
  }

  // ---------------------------------------------------------------- linearity

  lemma BitStepLinear(x: nat, y: nat, poly: nat)
    ensures BitStep(Xor(x, y), poly) == Xor(BitStep(x, poly), BitStep(y, poly))
  {
    XorStep(x, y);
    var a, b := x / 2, y / 2;
    if x % 2 == 1 && y % 2 == 1 {
      XorSwap(a, poly, b, poly);
      XorSelf(poly);
    } else if x % 2 == 1 {
      XorAssociates(a, poly, b);
      XorCommutes(poly, b);
      XorAssociates(a, b, poly);
    } else if y % 2 == 1 {
      XorAssociates(a, b, poly);
    }
  }

  lemma {:induction false} BitStepsLinear(x: nat, y: nat, poly: nat, n: nat)
    ensures BitSteps(Xor(x, y), poly, n) == Xor(BitSteps(x, poly, n), BitSteps(y, poly, n))
  {
    if n > 0 {
      BitStepsLinear(x, y, poly, n - 1);
      BitStepLinear(BitSteps(x, poly, n - 1), BitSteps(y, poly, n - 1), poly);
    }
  }

  function XorBytes(a: seq<byte>, b: seq<byte>): (r: seq<byte>)
    requires |a| == |b|
    ensures |r| == |a|
  {
    if a == [] then []
    else
      var n := |a| - 1;
      XorBound(a[n], b[n], 8);
      assert Pow2(8) == 256;
      XorBytes(a[..n], b[..n]) + [Xor(a[n], b[n])]
  }

  /** The CRC of a bytewise XOR is the XOR of the CRCs, for all strings and all initial states. */
  lemma {:induction false} Crc32Linear(a: seq<byte>, b: seq<byte>, i: nat, j: nat, poly: nat)
    requires |a| == |b|
    ensures Crc32(XorBytes(a, b), Xor(i, j), poly) == Xor(Crc32(a, i, poly), Crc32(b, j, poly))
  {
    if a != [] {
      var n := |a| - 1;
      var x := XorBytes(a, b);
      Crc32Linear(a[..n], b[..n], i, j, poly);
      assert x[..n] == XorBytes(a[..n], b[..n]) && x[n] == Xor(a[n], b[n]);
      var c, d := Crc32(a[..n], i, poly), Crc32(b[..n], j, poly);
      XorSwap(c, d, a[n], b[n]);
      BitStepsLinear(Xor(c, a[n]), Xor(d, b[n]), poly, 8);
    }
  }

  // ---------------------------------------------------------------- width and injectivity

  /** The polynomial has its top bit at position `w - 1`. */
  ghost predicate Degree(poly: nat, w: nat) {
    w > 0 && Pow2(w - 1) <= poly < Pow2(w)
  }

  lemma BitStepWidth(c: nat, poly: nat, w: nat)
    requires Degree(poly, w) && c < Pow2(w)
    ensures BitStep(c, poly) < Pow2(w)
  {
    XorBound(c / 2, poly, w);
  }

  /** The bit shifted out can be read back from the top bit of the result. */
  lemma BitStepInjective(c: nat, d: nat, poly: nat, w: nat)
    requires Degree(poly, w) && c < Pow2(w) && d < Pow2(w)
    requires BitStep(c, poly) == BitStep(d, poly)
    ensures c == d
  {
    XorTop(c / 2, poly, w - 1);
    XorTop(d / 2, poly, w - 1);
    assert c % 2 == d % 2;
    XorCancel(c / 2, poly);
    XorCancel(d / 2, poly);
    Halves(c, d);
  }

  lemma {:induction false} BitStepsWidth(c: nat, poly: nat, w: nat, n: nat)
    requires Degree(poly, w) && c < Pow2(w)
    ensures BitSteps(c, poly, n) < Pow2(w)
  {
    if n > 0 {
      BitStepsWidth(c, poly, w, n - 1);
      BitStepWidth(BitSteps(c, poly, n - 1), poly, w);
    }
  }

  lemma {:induction false} BitStepsInjective(c: nat, d: nat, poly: nat, w: nat, n: nat)
    requires Degree(poly, w) && c < Pow2(w) && d < Pow2(w)
    requires BitSteps(c, poly, n) == BitSteps(d, poly, n)
    ensures c == d
  {
    if n > 0 {
      BitStepsWidth(c, poly, w, n - 1);
      BitStepsWidth(d, poly, w, n - 1);
      BitStepInjective(BitSteps(c, poly, n - 1), BitSteps(d, poly, n - 1), poly, w);
      BitStepsInjective(c, d, poly, w, n - 1);
    }
  }

  /** A polynomial and an initial state of w bits keep the register at w bits. */
  lemma {:induction false} Crc32Width(data: seq<byte>, init: nat, poly: nat, w: nat)
    requires Degree(poly, w) && init < Pow2(w) && w >= 8
    ensures Crc32(data, init, poly) < Pow2(w)
  {
    if data != [] {
      var n := |data| - 1;
      var c := Crc32(data[..n], init, poly);
      Crc32Width(data[..n], init, poly, w);
      assert Pow2(8) == 256;
      Pow2Order(8, w);
      XorBound(c, data[n], w);
      BitStepsWidth(Xor(c, data[n]), poly, w, 8);
    }
  }

  // ---------------------------------------------------------------- the word law

  lemma {:induction false} BitStepsAdd(c: nat, poly: nat, m: nat, n: nat)
    ensures BitSteps(BitSteps(c, poly, m), poly, n) == BitSteps(c, poly, m + n)
  {
    if n > 0 { BitStepsAdd(c, poly, m, n - 1); }
  }

  /** A multiple of 2^n is only shifted by n bit steps. */
  lemma {:induction false} BitStepsShift(h: nat, poly: nat, n: nat)
    ensures BitSteps(h * Pow2(n), poly, n) == h
    decreases n
  {
    if n > 0 {
      assert h * Pow2(n) == (2 * h) * Pow2(n - 1);
      BitStepsShift(2 * h, poly, n - 1);
    }
  }

  lemma {:induction false} Crc32Concat(a: seq<byte>, b: seq<byte>, init: nat, poly: nat)
    ensures Crc32(a + b, init, poly) == Crc32(b, Crc32(a, init, poly), poly)
  {
    if b == [] {
      assert a + b == a;
    } else {
      var n := |b| - 1;
      assert (a + b)[..|a + b| - 1] == a + b[..n];
      Crc32Concat(a, b[..n], init, poly);
    }
  }

  lemma {:induction false} XorDisjoint(l: nat, h: nat, k: nat, y: nat)
    requires l < Pow2(k) && y == h * Pow2(k)
    ensures Xor(l, y) == l + y
    decreases k
  {
    if k > 0 && l > 0 && y > 0 {
      assert y == 2 * (h * Pow2(k - 1));
      XorDisjoint(l / 2, h, k - 1, y / 2);
    }
  }

  lemma ByteThenWord(c: nat, b: byte, h: nat, poly: nat)
    ensures Xor(ByteStep(c, b, poly), h) == BitSteps(Xor(c, b + 256 * h), poly, 8)
  {
    assert Pow2(8) == 256;
    BitStepsShift(h, poly, 8);
    BitStepsLinear(Xor(c, b), 256 * h, poly, 8);
    assert Xor(Xor(c, b), 256 * h) == Xor(c, b + 256 * h) by {
      XorAssociates(c, b, 256 * h);
      XorDisjoint(b, h, 8, 256 * h);
    }
  }

  /** Consuming a byte string is XORing its little-endian number into the register and stepping
      8 times per byte, whatever its length. */
  lemma {:induction false} WordLaw(t: seq<byte>, c: nat, poly: nat)
    ensures Crc32(t, c, poly) == BitSteps(Xor(c, Word(t)), poly, 8 * |t|)
  {
    if t == [] {
      XorCommutes(c, 0);
    } else {
      var b, rest := t[0], t[1..];
      assert t == [b] + rest;
      Crc32Concat([b], rest, c, poly);
      assert Crc32([b], c, poly) == ByteStep(c, b, poly) by { assert [b][..0] == []; }
      WordLaw(rest, ByteStep(c, b, poly), poly);
      ByteThenWord(c, b, Word(rest), poly);
      BitStepsAdd(Xor(c, Word(t)), poly, 8, 8 * |rest|);
    }
  }

  lemma {:induction false} WordBound(t: seq<byte>)
    ensures Word(t) < Pow2(8 * |t|)
  {
    if t != [] {
      WordBound(t[1..]);
      assert Pow2(8) == 256;
      Pow2Adds(8, 8 * |t| - 8);
    }
  }

  lemma {:induction false} WordInjective(t: seq<byte>, u: seq<byte>)
    requires |t| == |u| && Word(t) == Word(u)
    ensures t == u
  {
    if t != [] {
      WordInjective(t[1..], u[1..]);
      assert t == [t[0]] + t[1..] && u == [u[0]] + u[1..];
    }
  }

  // ---------------------------------------------------------------- burst detection

  lemma StateInjective(s: seq<byte>, c: nat, d: nat, poly: nat, w: nat)
    requires Degree(poly, w) && c < Pow2(w) && d < Pow2(w)
    requires Crc32(s, c, poly) == Crc32(s, d, poly)
    ensures c == d
  {
    var x := Word(s);
    WordLaw(s, c, poly);
    WordLaw(s, d, poly);
    BitStepsLinear(c, x, poly, 8 * |s|);
    BitStepsLinear(d, x, poly, 8 * |s|);
    XorCancel(BitSteps(c, poly, 8 * |s|), BitSteps(x, poly, 8 * |s|));
    XorCancel(BitSteps(d, poly, 8 * |s|), BitSteps(x, poly, 8 * |s|));
    BitStepsInjective(c, d, poly, w, 8 * |s|);
  }

  /** Two strings that differ only inside a window no wider than the register have different
      CRCs, wherever the window is. */
  lemma BurstDetected(p: seq<byte>, u: seq<byte>, v: seq<byte>, s: seq<byte>, init: nat, poly: nat, w: nat)
    requires Degree(poly, w) && w >= 8 && init < Pow2(w)
    requires |u| == |v| && 8 * |u| <= w && u != v
    ensures Crc32(p + u + s, init, poly) != Crc32(p + v + s, init, poly)
  {
    var c := Crc32(p, init, poly);
    Crc32Width(p, init, poly, w);
    forall t | t == u || t == v
      ensures Xor(c, Word(t)) < Pow2(w) && Crc32(t, c, poly) < Pow2(w)
      ensures Crc32(p + t + s, init, poly) == Crc32(s, Crc32(t, c, poly), poly)
    {
      Crc32Concat(p + t, s, init, poly);
      Crc32Concat(p, t, init, poly);
      Crc32Width(t, c, poly, w);
      WordBound(t);
      Pow2Order(8 * |t|, w);
      XorBound(c, Word(t), w);
    }
    if Crc32(p + u + s, init, poly) == Crc32(p + v + s, init, poly) {
      StateInjective(s, Crc32(u, c, poly), Crc32(v, c, poly), poly, w);
      WordLaw(u, c, poly);
      WordLaw(v, c, poly);
      BitStepsInjective(Xor(c, Word(u)), Xor(c, Word(v)), poly, w, 8 * |u|);
      XorCommutes(c, Word(u));
      XorCommutes(c, Word(v));
      XorCancel(Word(u), c);
      XorCancel(Word(v), c);
      WordInjective(u, v);
      assert false;
    }
  }

  // ---------------------------------------------------------------- residue

  lemma {:induction false} WordOfTrailer(c: nat, n: nat)
    requires c < Pow2(8 * n)
    ensures Word(Trailer(c, n)) == c
  {
    if n > 0 {
      assert Pow2(8) == 256;
      Pow2Adds(8, 8 * (n - 1));
      WordOfTrailer(c / 256, n - 1);
      assert Trailer(c, n)[1..] == Trailer(c / 256, n - 1);
    }
  }

  /** What a string followed by its own complemented CRC leaves in the register. */
  function Residue(poly: nat, n: nat): nat
    requires Pow2(8 * n) > 0
  {
    BitSteps(Pow2(8 * n) - 1, poly, 8 * n)
  }

  /** For a w-bit register holding c, the trailer word that complements c is the only one that
      takes the register to the residue. */
  lemma ComplementIsUnique(c: nat, x: nat, poly: nat, w: nat)
    requires Degree(poly, w) && c < Pow2(w) && x < Pow2(w)
    ensures x == Pow2(w) - 1 - c <==> BitSteps(Xor(c, x), poly, w) == BitSteps(Pow2(w) - 1, poly, w)
  {
    XorBound(c, x, w);
    XorFlips(c, x, w);
    if BitSteps(Xor(c, x), poly, w) == BitSteps(Pow2(w) - 1, poly, w) {
      BitStepsInjective(Xor(c, x), Pow2(w) - 1, poly, w, w);
    }
  }

  lemma XorFlips(c: nat, x: nat, w: nat)
    requires c < Pow2(w)
    ensures x == Pow2(w) - 1 - c <==> Xor(c, x) == Pow2(w) - 1
  {
    XorOnes(c, w);
    XorSolve(c, x, Pow2(w) - 1);
  }

  /** A trailer is the complement of the CRC exactly when the CRC of the whole is the residue,
      for every string. */
  lemma ResidueLaw(d: seq<byte>, t: seq<byte>, init: nat, poly: nat)
    requires |t| > 0 && Degree(poly, 8 * |t|) && init < Pow2(8 * |t|)
    ensures Crc32(d, init, poly) < Pow2(8 * |t|)
    ensures t == Trailer(Pow2(8 * |t|) - 1 - Crc32(d, init, poly), |t|)
      <==> Crc32(d + t, init, poly) == Residue(poly, |t|)
  {
    Crc32Width(d, init, poly, 8 * |t|);
    Crc32Concat(d, t, init, poly);
    TrailerResidue(t, Crc32(d, init, poly), poly, 8 * |t|);
  }

  lemma TrailerResidue(t: seq<byte>, c: nat, poly: nat, w: nat)
    requires w == 8 * |t| && Degree(poly, w) && c < Pow2(w)
    ensures t == Trailer(Pow2(w) - 1 - c, |t|) <==> Crc32(t, c, poly) == BitSteps(Pow2(w) - 1, poly, w)
  {
    hide Crc32, BitSteps, Trailer, Word, Xor;
    WordLaw(t, c, poly);
    WordBound(t);
    ComplementIsUnique(c, Word(t), poly, w);
    WordIsTrailer(t, Pow2(w) - 1 - c);
  }

  lemma WordIsTrailer(t: seq<byte>, x: nat)
    requires x < Pow2(8 * |t|)
    ensures t == Trailer(x, |t|) <==> Word(t) == x
  {
    WordOfTrailer(x, |t|);
    if Word(t) == x {
      WordInjective(t, Trailer(x, |t|));
    }
  }
}
