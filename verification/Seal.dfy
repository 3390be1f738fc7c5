/**
 Sealing and checking packets (src/crc.c): the 16-bit CRC of data-link packets and the 32-bit LCRC
 of transaction-layer packets, run as the source's loops and stated through Crc.dfy.
 A data-link TLP is two sequence-number bytes followed by the TLP and its LCRC.
 */
module Seal {
  import opened Bits
  import opened Crc
  import opened CrcValues
  import opened Proto

  lemma Degrees()
    ensures Degree(TLP_LCRC32_POLY, 32) && Degree(DLLP_CRC16_POLY, 16)
    ensures Pow2(32) == U32 && Pow2(16) == 0x1_0000
  {
    Pow2Is32();
    assert Pow2(32) == 2 * Pow2(31);
    assert Pow2(8) == 256;
    Pow2Adds(8, 8);
    assert Pow2(16) == 2 * Pow2(15);
  }

  /** The LCRC bytes of a data-link TLP without its trailer. */
  function LcrcBytes(d: seq<byte>): (t: seq<byte>)
    ensures |t| == 4
  {
    Degrees();
    Crc32Width(d, INIT32, TLP_LCRC32_POLY, 32);
    Trailer(Not32(Lcrc(d)), 4)
  }

  /** The CRC bytes of a data-link packet: the complement truncated to 16 bits. */
  function Crc16Bytes(d: seq<byte>): (t: seq<byte>)
    ensures |t| == 2
  {
    Degrees();
    Crc32Width(d, INIT16, DLLP_CRC16_POLY, 16);
    Trailer(Not32(Crc16(d)) % 0x1_0000, 2)
  }

  /** A data-link TLP with room for its trailer. */
  predicate IsDlTlp(pkt: seq<byte>) {
    |pkt| >= 6 && TlpTotalLength(pkt[2..]) >= 0 && |pkt| == 2 + TlpTotalLength(pkt[2..]) + 4
  }

  predicate LcrcValid(pkt: seq<byte>)
    requires |pkt| >= 6
  {
    var n := |pkt| - 4;
    pkt[n..] == LcrcBytes(pkt[..n])
  }

  predicate Crc16Valid(pkt: seq<byte>)
    requires |pkt| == 6
  {
    pkt[4..] == Crc16Bytes(pkt[..4])
  }

  // ---------------------------------------------------------------- the source's loops

  method Crc32p(data: array<byte>, start: nat, end: nat, init: nat, poly: nat) returns (crc: nat)
    requires start <= end <= data.Length
    ensures crc == Crc32(data[start..end], init, poly)
  {
    crc := init;
    for k := start to end
      invariant crc == Crc32(data[start..k], init, poly)
    {
      assert data[start..k + 1][..k - start] == data[start..k];
      crc := Xor(crc, data[k]);
      ghost var entered := crc;
      for i := 0 to 8
        invariant crc == BitSteps(entered, poly, i)
      {
        if crc % 2 == 1 {
          crc := Xor(crc / 2, poly);
        } else {
          crc := crc / 2;
        }
      }
    }
  }

  /** The trailer loop: n low bytes of crc, least significant first. */
  method WriteTrailer(pkt: array<byte>, at: nat, value: nat, n: nat)
    requires at + n <= pkt.Length
    modifies pkt
    ensures pkt[..] == old(pkt[..at]) + Trailer(value, n) + old(pkt[at + n..])
  {
    var crc := value;
    for i := 0 to n
      invariant pkt[..at] == old(pkt[..at]) && pkt[at + n..] == old(pkt[at + n..])
      invariant pkt[at..at + i] + Trailer(crc, n - i) == Trailer(value, n)
    {
      pkt[at + i] := crc % 256;
      assert pkt[at..at + i + 1] == pkt[at..at + i] + [crc % 256];
      crc := crc / 256;
    }
    assert pkt[..] == pkt[..at] + pkt[at..at + n] + pkt[at + n..];
  }

  method CheckTrailer(pkt: array<byte>, at: nat, value: nat, n: nat) returns (ok: bool)
    requires at + n <= pkt.Length
    ensures ok <==> pkt[at..at + n] == Trailer(value, n)
  {
    var crc := value;
    for i := 0 to n
      invariant pkt[at..at + i] + Trailer(crc, n - i) == Trailer(value, n)
    {
      if pkt[at + i] != crc % 256 {
        assert Trailer(value, n)[i] == crc % 256 != pkt[at..at + n][i];
        return false;
      }
      assert pkt[at..at + i + 1] == pkt[at..at + i] + [crc % 256];
      crc := crc / 256;
    }
    return true;
  }

  method PcieCrc16(pkt: array<byte>, o: nat)
    requires o + 6 <= pkt.Length
    modifies pkt
    ensures pkt[..] == old(pkt[..o + 4]) + Crc16Bytes(old(pkt[o..o + 4])) + old(pkt[o + 6..])
  {
    var crc := Crc32p(pkt, o, o + 4, INIT16, DLLP_CRC16_POLY);
    Degrees();
    Crc32Width(pkt[o..o + 4], INIT16, DLLP_CRC16_POLY, 16);
    WriteTrailer(pkt, o + 4, Not32(crc) % 0x1_0000, 2);
  }

  method PcieCrc16Valid(pkt: array<byte>, o: nat) returns (ok: bool)
    requires o + 6 <= pkt.Length
    ensures ok <==> Crc16Valid(pkt[o..o + 6])
  {
    var crc := Crc32p(pkt, o, o + 4, INIT16, DLLP_CRC16_POLY);
    Degrees();
    Crc32Width(pkt[o..o + 4], INIT16, DLLP_CRC16_POLY, 16);
    ok := CheckTrailer(pkt, o + 4, Not32(crc) % 0x1_0000, 2);
    assert pkt[o..o + 6][..4] == pkt[o..o + 4] && pkt[o..o + 6][4..] == pkt[o + 4..o + 6];
  }

  method ComplementedLcrc(pkt: array<byte>, o: nat, end: nat) returns (crc: nat)
    requires o <= end <= pkt.Length
    ensures Trailer(crc, 4) == LcrcBytes(pkt[o..end])
  {
    crc := Crc32p(pkt, o, end, INIT32, TLP_LCRC32_POLY);
    Degrees();
    Crc32Width(pkt[o..end], INIT32, TLP_LCRC32_POLY, 32);
    crc := Not32(crc);
  }

  method PcieLcrc32(pkt: array<byte>, o: nat)
    requires o + 6 <= pkt.Length && TlpTotalLength(pkt[o + 2..]) >= 0
    requires o + 6 + TlpTotalLength(pkt[o + 2..]) <= pkt.Length
    modifies pkt
    ensures var end := o + 2 + TlpTotalLength(old(pkt[o + 2..]));
      pkt[..] == old(pkt[..end]) + LcrcBytes(old(pkt[o..end])) + old(pkt[end + 4..])
  {
    var end := o + 2 + TlpTotalLength(pkt[o + 2..]);
    var crc := ComplementedLcrc(pkt, o, end);
    WriteTrailer(pkt, end, crc, 4);
  }

  method PcieLcrc32Valid(pkt: array<byte>, o: nat) returns (ok: bool)
    requires o + 6 <= pkt.Length && TlpTotalLength(pkt[o + 2..]) >= 0
    requires o + 6 + TlpTotalLength(pkt[o + 2..]) <= pkt.Length
    ensures ok <==> LcrcValid(pkt[o..o + 6 + TlpTotalLength(pkt[o + 2..])])
  {
    var end := o + 2 + TlpTotalLength(pkt[o + 2..]);
    var crc := ComplementedLcrc(pkt, o, end);
    ok := CheckTrailer(pkt, end, crc, 4);
    SplitSeal(pkt[o..end + 4], pkt[o..end], pkt[end..end + 4]);
  }

  lemma SplitSeal(p: seq<byte>, d: seq<byte>, t: seq<byte>)
    requires |d| >= 2 && |t| == 4 && p == d + t
    ensures LcrcValid(p) <==> t == LcrcBytes(d)
  {
    assert p[..|p| - 4] == d && p[|p| - 4..] == t;
  }

  // ---------------------------------------------------------------- what the seal detects

  lemma SealedIsValid(d: seq<byte>)
    requires |d| >= 2
    ensures LcrcValid(d + LcrcBytes(d))
    ensures |d| == 4 ==> Crc16Valid(d + Crc16Bytes(d))
  {
    assert (d + LcrcBytes(d))[..|d|] == d && (d + LcrcBytes(d))[|d|..] == LcrcBytes(d);
    assert (d + Crc16Bytes(d))[..|d|] == d && (d + Crc16Bytes(d))[|d|..] == Crc16Bytes(d);
  }

  /** A TLP is accepted exactly when the CRC of all its bytes, LCRC included, is one fixed value. */
  lemma LcrcResidue(pkt: seq<byte>)
    requires |pkt| >= 6
    ensures LcrcValid(pkt) <==> Lcrc(pkt) == 0xdebb_20e3
  {
    var n := |pkt| - 4;
    Degrees();
    LcrcValues();
    hide Crc32, BitSteps, Trailer, Pow2, Degree;
    ResidueLaw(pkt[..n], pkt[n..], INIT32, TLP_LCRC32_POLY);
    assert pkt == pkt[..n] + pkt[n..];
  }

  lemma Crc16Residue(pkt: seq<byte>)
    requires |pkt| == 6
    ensures Crc16Valid(pkt) <==> Crc16(pkt) == 0x556f
  {
    Degrees();
    Crc16Values();
    hide Crc32, BitSteps, Trailer, Pow2, Degree;
    Crc32Width(pkt[..4], INIT16, DLLP_CRC16_POLY, 16);
    Truncated(Crc16(pkt[..4]));
    ResidueLaw(pkt[..4], pkt[4..], INIT16, DLLP_CRC16_POLY);
    assert pkt == pkt[..4] + pkt[4..];
  }

  /** The seals of the memory read and of the acknowledgement in tests/test_crc.cc, all zeros. */
  lemma KnownSeals()
    ensures LcrcBytes([0, 0, 0, 0, 0, 0, 0, 0, 0, 0, 0, 0, 0, 0]) == [0xc7, 0x79, 0xbb, 0xd1]
    ensures Crc16Bytes([0, 0, 0, 0]) == [0xb3, 0x62]
  {
    hide LcrcBytes, Crc16Bytes;
    SealOfZeros([0, 0, 0, 0, 0, 0, 0, 0, 0, 0, 0, 0, 0, 0]);
    SealOfZeros16([0, 0, 0, 0]);
  }

  lemma SealOfZeros(d: seq<byte>)
    requires |d| == 14 && forall i :: 0 <= i < |d| ==> d[i] == 0
    ensures LcrcBytes(d) == [0xc7, 0x79, 0xbb, 0xd1]
  {
    hide Crc32, BitSteps, Trailer, Pow2, Degree;
    LcrcValues();
    ZerosFrom(d, INIT32, TLP_LCRC32_POLY);
    FourBytes(0xd1bb_79c7);
  }

  lemma SealOfZeros16(d: seq<byte>)
    requires |d| == 4 && forall i :: 0 <= i < |d| ==> d[i] == 0
    ensures Crc16Bytes(d) == [0xb3, 0x62]
  {
    hide Crc32, BitSteps, Trailer, Pow2, Degree;
    Crc16Values();
    ZerosFrom(d, INIT16, DLLP_CRC16_POLY);
    TwoBytes(0x62b3);
  }

  lemma ZerosFrom(d: seq<byte>, init: nat, poly: nat)
    requires forall i :: 0 <= i < |d| ==> d[i] == 0
    ensures Crc32(d, init, poly) == BitSteps(init, poly, 8 * |d|)
  {
    hide Crc32, BitSteps;
    WordOfZeros(d);
    WordLaw(d, init, poly);
    XorCommutes(init, 0);
  }

  lemma {:induction false} WordOfZeros(d: seq<byte>)
    requires forall i :: 0 <= i < |d| ==> d[i] == 0
    ensures Word(d) == 0
  {
    if d != [] { WordOfZeros(d[1..]); }
  }

  lemma FourBytes(c: nat)
    ensures Trailer(c, 4) == [c % 256, c / 256 % 256, c / 0x1_0000 % 256, c / 0x100_0000 % 256]
  {
    TwoBytes(c);
    TwoBytes(c / 0x1_0000);
    assert Trailer(c, 4) == [c % 256] + Trailer(c / 256, 3);
    assert Trailer(c / 256, 3) == [c / 256 % 256] + Trailer(c / 256 / 256, 2);
  }

  lemma TwoBytes(c: nat)
    ensures Trailer(c, 2) == [c % 256, c / 256 % 256]
  {
    assert Trailer(c / 256, 1) == [c / 256 % 256] + Trailer(c / 256 / 256, 0);
  }

  lemma Truncated(c: nat)
    requires c < 0x1_0000
    ensures Not32(c) % 0x1_0000 == 0xffff - c
  {
  }

  /** Any change confined to four consecutive bytes of an accepted TLP, its LCRC included, is
      noticed, for every packet length. */
  lemma TlpBurstDetected(p: seq<byte>, u: seq<byte>, v: seq<byte>, s: seq<byte>)
    requires |u| == |v| <= 4 && u != v && |p + u + s| >= 6
    requires LcrcValid(p + u + s)
    ensures !LcrcValid(p + v + s)
  {
    Degrees();
    BurstDetected(p, u, v, s, INIT32, TLP_LCRC32_POLY, 32);
    LcrcResidue(p + u + s);
    LcrcResidue(p + v + s);
  }

  /** The same for two consecutive bytes of a data-link packet. */
  lemma DllpBurstDetected(p: seq<byte>, u: seq<byte>, v: seq<byte>, s: seq<byte>)
    requires |u| == |v| <= 2 && u != v && |p + u + s| == 6
    requires Crc16Valid(p + u + s)
    ensures !Crc16Valid(p + v + s)
  {
    Degrees();
    BurstDetected(p, u, v, s, INIT16, DLLP_CRC16_POLY, 16);
    Crc16Residue(p + u + s);
    Crc16Residue(p + v + s);
  }
}
