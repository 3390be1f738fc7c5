/**
 Transaction-layer packets (src/proto.c; layouts in inc/warppipe/proto.h, little-endian host).

 A TLP is a byte string.  Byte 0 holds fmt (3 high bits) and type (5 low bits); bytes 2 and 3 the
 10-bit length in double words, 0 standing for 1024; byte 7 the first (low nibble) and last (high
 nibble) byte enables of a request; bytes 8.. the address, 4 or 8 bytes, most significant first.
 */
module Proto {
  import opened Bits

  const MRD32 := 0x00
  const MRD64 := 0x20
  const MWR32 := 0x40
  const MWR64 := 0x60
  const IORD := 0x02
  const IOWR := 0x42
  const CPL := 0x0a
  const CPLD := 0x4a
  const CR0 := 0x04
  const CW0 := 0x44

  function Fmt(p: seq<byte>): (f: nat)
    requires |p| >= 1
    ensures f < 8
  {
    p[0] / 32
  }

  function LengthField(p: seq<byte>): (n: nat)
    requires |p| >= 4
    ensures n < 1024
  {
    var hi: int := p[2] % 4;
    256 * hi + p[3]
  }

  function FirstBe(p: seq<byte>): (be: nat)
    requires |p| >= 8
    ensures be < 16
  {
    p[7] % 16
  }

  function LastBe(p: seq<byte>): (be: nat)
    requires |p| >= 8
    ensures be < 16
  {
    p[7] / 16
  }

  /** Is the bit of weight w set in x? */
  predicate Bit(x: nat, w: nat)
    requires w > 0
  {
    x / w % 2 == 1
  }

  function TlpDataLength(p: seq<byte>): (n: nat)
    requires |p| >= 4
    ensures n == if LengthField(p) == 0 then 1024 else LengthField(p)
  {
    assert LengthField(p) > 0 ==> (LengthField(p) - 1) % 1024 == LengthField(p) - 1;
    (LengthField(p) - 1) % 1024 + 1
  }

  /** The number of enabled bytes, from the byte enables; -1 for enables the source rejects. */
  function TlpDataLengthBytes(p: seq<byte>): (n: int)
    requires |p| >= 8
    ensures -1 <= n <= 4 * TlpDataLength(p)
    ensures FirstBe(p) > 0 ==> n <= 4 * TlpDataLength(p) - FirstBeOffset(p)
  {
    var whole := TlpDataLength(p) * 4;
    var first := FirstBe(p);
    var last := if whole == 4 then first else LastBe(p);
    if first == 0 then (if whole == 4 then 0 else -1)
    else
      var n := whole - FirstBeOffset(p);
      if Bit(last, 8) then n
      else if Bit(last, 4) then n - 1
      else if Bit(last, 2) then n - 2
      else if Bit(last, 1) then n - 3
      else -1
  }

  /** Bytes skipped at the start of the first double word. */
  function FirstBeOffset(p: seq<byte>): (k: nat)
    requires |p| >= 8
    ensures k <= 3
  {
    if FirstBe(p) % 8 == 0 then 3 else if FirstBe(p) % 4 == 0 then 2 else if FirstBe(p) % 2 == 0 then 1 else 0
  }

  function TlpTotalLength(p: seq<byte>): (n: int)
    requires |p| >= 4
    ensures n == -1 || 12 <= n <= 4112
  {
    match Fmt(p)
    case 0 => 12
    case 1 => 16
    case 2 => (3 + TlpDataLength(p)) * 4
    case 3 => (4 + TlpDataLength(p)) * 4
    case _ => -1
  }

  // ---------------------------------------------------------------- addresses

  /** The n low bytes of an address, most significant first. */
  function AddrBytes(addr: nat, n: nat): (r: seq<byte>)
    ensures |r| == n
  {
    if n == 0 then [] else AddrBytes(addr / 256, n - 1) + [addr % 256]
  }

  function AddrValue(r: seq<byte>): nat {
    if r == [] then 0 else 256 * AddrValue(r[..|r| - 1]) + r[|r| - 1]
  }

  function AddrSize(p: seq<byte>): (n: nat)
    requires |p| >= 1
  {
    if Fmt(p) % 2 == 1 then 8 else 4
  }

  function TlpGetAddr(p: seq<byte>): nat
    requires |p| >= 1 && |p| >= 8 + AddrSize(p)
  {
    AddrValue(p[8..8 + AddrSize(p)])
  }

  /** `0xf << align` in a nibble. */
  function FromLane(align: nat): (be: nat)
    requires align < 4
    ensures be < 16
  {
    match align case 0 => 0xf case 1 => 0xe case 2 => 0xc case _ => 0x8
  }

  /** `0xf >> pad`. */
  function UpToLane(pad: nat): (be: nat)
    requires pad < 4
    ensures be < 16
  {
    match pad case 0 => 0xf case 1 => 0x7 case 2 => 0x3 case _ => 0x1
  }

  /** Lanes not used at the end of the last double word. */
  function Padding(align: nat, length: nat): (pad: nat)
    ensures pad < 4
  {
    -(length + align) % 4
  }

  /** The byte-enable nibbles of a request of `length` bytes at alignment `align`. */
  function FirstEnables(align: nat, length: nat): (be: nat)
    requires align < 4
    ensures be < 16
  {
    AndBound(FromLane(align), UpToLane(Padding(align, length)));
    if length == 0 then 0
    else if length + align <= 4 then And(FromLane(align), UpToLane(Padding(align, length)))
    else FromLane(align)
  }

  function LastEnables(align: nat, length: nat): (be: nat)
    requires align < 4
    ensures be < 16
  {
    if length + align <= 4 then 0 else UpToLane(Padding(align, length))
  }

  function Dwords(align: nat, length: nat): nat {
    (length + align + 3) / 4
  }

  /** The enables mark the bytes asked for: lane j of the first double word is byte j of the window that
      starts `align` bytes before them, lane j of the last one byte j behind the whole words before it.
      A request confined to one double word has no last one. */
  lemma EnablesMark(align: nat, length: nat, j: nat)
    requires align < 4 && j < 4
    ensures Bit(FirstEnables(align, length), Lane(j)) <==> align <= j < align + length
    ensures Bit(LastEnables(align, length), Lane(j))
      <==> Dwords(align, length) > 1 && 4 * (Dwords(align, length) - 1) + j < align + length
  {
    hide FromLane, UpToLane, Lane, Padding, And, Bit, Dwords;
    PaddingFills(align, length);
    LanesMark(align, Padding(align, length), j);
  }

  lemma PaddingFills(align: nat, length: nat)
    ensures align + length + Padding(align, length) == 4 * Dwords(align, length)
  {
  }

  function Lane(j: nat): (w: nat)
    requires j < 4
    ensures w > 0
  {
    match j case 0 => 1 case 1 => 2 case 2 => 4 case _ => 8
  }

  lemma LanesMark(align: nat, pad: nat, j: nat)
    requires align < 4 && pad < 4 && j < 4
    ensures !Bit(0, Lane(j)) && (Bit(FromLane(align), Lane(j)) <==> align <= j)
    ensures Bit(UpToLane(pad), Lane(j)) <==> j < 4 - pad
    ensures align + pad < 4 ==> (Bit(And(FromLane(align), UpToLane(pad)), Lane(j)) <==> align <= j < 4 - pad)
  {
    Nibbles();
    hide And;
    match align
    case 0 => match pad { case 0 => case 1 => case 2 => case _ => }
    case 1 => match pad { case 0 => case 1 => case _ => }
    case 2 => match pad { case 0 => case _ => }
    case _ =>
  }

  /** Byte 0 with the 4DW bit of fmt replaced. */
  function KindByte(b: byte, wide: bool): (r: byte)
    ensures r % 32 == b % 32 && r / 32 == b / 64 * 2 + (if wide then 1 else 0) && r / 64 == b / 64
  {
    b / 64 * 64 + (if wide then 32 else 0) + b % 32
  }

  /** Byte 2 with the two high bits of the length replaced. */
  function LengthByte(b: byte, n: nat): (r: byte)
    ensures r % 4 == n / 256 % 4
  {
    b / 4 * 4 + n / 256 % 4
  }

  function EnableByte(last: nat, first: nat): (r: byte)
    requires last < 16 && first < 16
    ensures r % 16 == first && r / 16 == last
  {
    last * 16 + first
  }

  /** The first eight bytes after `tlp_req_set_addr`: length, byte enables and the 4DW bit. */
  function SetHead(p: seq<byte>, align: nat, length: nat, wide: bool): (r: seq<byte>)
    requires |p| >= 8 && align < 4
    ensures |r| == 8
  {
    var n := Dwords(align, length);
    [KindByte(p[0], wide), p[1], LengthByte(p[2], n), n % 256, p[4], p[5], p[6],
     EnableByte(LastEnables(align, length), FirstEnables(align, length))]
  }

  /** Requests below 4 GiB use the 4-byte address form. */
  function AddrWidth(addr: nat): (k: nat)
    ensures k == 4 || k == 8
  {
    if addr - addr % 4 < U32 then 4 else 8
  }

  /** The packet after `tlp_req_set_addr`; bits it does not write keep what was there. */
  function SetAddr(p: seq<byte>, addr: nat, length: nat): (r: seq<byte>)
    requires |p| >= 16 && addr < U64
    ensures |r| == |p|
  {
    var k := AddrWidth(addr);
    SetHead(p, addr % 4, length, k == 8) + AddrBytes(addr - addr % 4, k) + p[8 + k..]
  }

  /** The four low bytes of a number, most significant first. */
  function BigEndian(a: nat): seq<byte> {
    [a / 0x100_0000 % 256, a / 0x1_0000 % 256, a / 0x100 % 256, a % 256]
  }

  lemma AddrFour(a: nat)
    ensures AddrBytes(a, 4) == BigEndian(a)
  {
    hide AddrBytes;
    AddrTail(a, 2);
    AddrTwo(a);
    AddrTwo(a / 0x1_0000);
  }

  lemma AddrEight(a: nat)
    ensures AddrBytes(a, 8) == AddrBytes(a / U32, 4) + AddrBytes(a, 4)
  {
    hide AddrBytes;
    AddrTail(a, 6);
    AddrTail(a / 0x1_0000, 4);
    AddrTail(a, 2);
    assert a / 0x1_0000 / 0x1_0000 == a / U32;
  }

  lemma AddrTail(a: nat, m: nat)
    ensures AddrBytes(a, m + 2) == AddrBytes(a / 0x1_0000, m) + AddrBytes(a, 2)
  {
    AddrTwo(a);
    assert AddrBytes(a / 256, m + 1) == AddrBytes(a / 256 / 256, m) + [a / 256 % 256];
  }

  lemma AddrTwo(a: nat)
    ensures AddrBytes(a, 2) == [a / 0x100 % 256, a % 256]
  {
    assert AddrBytes(a / 256, 1) == AddrBytes(a / 256 / 256, 0) + [a / 256 % 256];
  }

  // ---------------------------------------------------------------- round trip

  lemma {:induction false} AddrRoundTrip(addr: nat, n: nat)
    requires addr < Pow2(8 * n)
    ensures AddrValue(AddrBytes(addr, n)) == addr
  {
    if n > 0 {
      assert Pow2(8) == 256;
      Pow2Adds(8, 8 * (n - 1));
      AddrRoundTrip(addr / 256, n - 1);
      assert AddrBytes(addr, n)[..n - 1] == AddrBytes(addr / 256, n - 1);
    }
  }

  lemma Pow2Is64()
    ensures Pow2(64) == U64
  {
    Pow2Is32();
    Pow2Adds(32, 32);
  }

  /** The decoded address is the address with its low two bits cleared, for every 64-bit address. */
  lemma AddrRecovered(p: seq<byte>, addr: nat, length: nat)
    requires |p| >= 16 && addr < U64
    ensures var r := SetAddr(p, addr, length);
      |r| >= 8 + AddrSize(r) && TlpGetAddr(r) == addr - addr % 4
  {
    var r := SetAddr(p, addr, length);
    var base := addr - addr % 4;
    var k := AddrWidth(addr);
    assert AddrSize(r) == k;
    assert r[8..8 + k] == AddrBytes(base, k);
    Pow2Is32();
    Pow2Is64();
    AddrRoundTrip(base, k);
  }

  /** The enables of a request confined to one double word: lanes align .. 3 - pad. */
  lemma OneDwordEnables(align: nat, pad: nat)
    requires align + pad < 4
    ensures var be := And(FromLane(align), UpToLane(pad));
      && be > 0
      && (be % 8 == 0 <==> align == 3) && (be % 4 == 0 <==> align >= 2) && (be % 2 == 0 <==> align >= 1)
      && (Bit(be, 8) <==> pad == 0) && (pad == 1 ==> Bit(be, 4)) && (pad == 2 ==> Bit(be, 2) && !Bit(be, 4))
      && (pad == 3 ==> Bit(be, 1) && !Bit(be, 4) && !Bit(be, 2))
  {
    Nibbles();
    match align
    case 0 => match pad { case 0 => case 1 => case 2 => case _ => }
    case 1 => match pad { case 0 => case 1 => case _ => }
    case 2 => match pad { case 0 => case _ => }
    case _ =>
  }

  lemma Nibbles()
    ensures And(0xf, 0xf) == 0xf && And(0xf, 0x7) == 0x7 && And(0xf, 0x3) == 0x3 && And(0xf, 0x1) == 0x1
    ensures And(0xe, 0xf) == 0xe && And(0xe, 0x7) == 0x6 && And(0xe, 0x3) == 0x2
    ensures And(0xc, 0xf) == 0xc && And(0xc, 0x7) == 0x4 && And(0x8, 0xf) == 0x8
  {
  }

  /** The header fields `SetAddr` writes, read back. */
  lemma HeaderFields(p: seq<byte>, addr: nat, length: nat)
    requires |p| >= 16 && addr < U64
    ensures var r := SetAddr(p, addr, length);
      && FirstBe(r) == FirstEnables(addr % 4, length)
      && LastBe(r) == LastEnables(addr % 4, length)
      && LengthField(r) == Dwords(addr % 4, length) % 1024
      && r[0] == KindByte(p[0], AddrWidth(addr) == 8) && r[6] == p[6]
  {
    var n := Dwords(addr % 4, length);
    LengthSplit(n);
    hide AddrBytes, FirstEnables, LastEnables, Dwords;
  }

  lemma LengthSplit(n: nat)
    ensures 256 * (n / 256 % 4) + n % 256 == n % 1024
  {
    DigitMod(n, 256, 4);
  }

  lemma OffsetRecovered(p: seq<byte>, addr: nat, length: nat)
    requires |p| >= 16 && addr < U64 && length >= 1
    ensures FirstBe(SetAddr(p, addr, length)) > 0
    ensures FirstBeOffset(SetAddr(p, addr, length)) == addr % 4
  {
    var align := addr % 4;
    HeaderFields(p, addr, length);
    if length + align <= 4 {
      OneDwordEnables(align, Padding(align, length));
    }
  }

  /** Inside the promised range the decoded sizes are exact: 1024 double words are stored as 0. */
  lemma LengthRecovered(p: seq<byte>, addr: nat, length: nat)
    requires |p| >= 16 && addr < U64 && length >= 1 && addr % 4 + length <= 4096
    ensures TlpDataLength(SetAddr(p, addr, length)) == Dwords(addr % 4, length)
    ensures TlpDataLengthBytes(SetAddr(p, addr, length)) == length
  {
    HeaderFields(p, addr, length);
    OffsetRecovered(p, addr, length);
    LengthFromEnables(SetAddr(p, addr, length), addr % 4, length);
  }

  lemma LengthFromEnables(r: seq<byte>, align: nat, length: nat)
    requires |r| >= 8 && align < 4 && length >= 1 && align + length <= 4096
    requires FirstBe(r) == FirstEnables(align, length) && LastBe(r) == LastEnables(align, length)
    requires LengthField(r) == Dwords(align, length) % 1024 && FirstBe(r) > 0 && FirstBeOffset(r) == align
    ensures TlpDataLength(r) == Dwords(align, length) && TlpDataLengthBytes(r) == length
  {
    var pad := Padding(align, length);
    assert 4 * Dwords(align, length) == align + length + pad;
    WordCount(r, Dwords(align, length));
    hide TlpDataLength, LengthField;
    if length + align <= 4 {
      OneDwordEnables(align, pad);
    }
  }

  /** The words announced for a request of n: 1024 for none, and never more than n otherwise. */
  lemma WordCount(r: seq<byte>, n: nat)
    requires |r| >= 4 && LengthField(r) == n % 1024
    ensures n <= 1024 ==> TlpDataLength(r) == if n == 0 then 1024 else n
    ensures n >= 1 ==> TlpDataLength(r) <= n
  {
  }

  /** Above that range the high bits of the length are lost: the decoded byte count is always wrong. */
  lemma LengthLost(p: seq<byte>, addr: nat, length: nat)
    requires |p| >= 16 && addr < U64 && addr % 4 + length > 4096
    ensures TlpDataLengthBytes(SetAddr(p, addr, length)) != length
  {
    HeaderFields(p, addr, length);
    OffsetRecovered(p, addr, length);
    hide SetAddr, TlpDataLengthBytes;
  }

  /** A request of no bytes is read back as such exactly at an unaligned address; at an aligned one it
      announces 1024 double words. */
  lemma EmptyLength(p: seq<byte>, addr: nat)
    requires |p| >= 16 && addr < U64
    ensures TlpDataLengthBytes(SetAddr(p, addr, 0)) == 0 <==> addr % 4 > 0
  {
    HeaderFields(p, addr, 0);
    EmptyFromEnables(SetAddr(p, addr, 0), addr % 4);
  }

  lemma EmptyFromEnables(r: seq<byte>, align: nat)
    requires |r| >= 8 && align < 4 && LengthField(r) == Dwords(align, 0) % 1024
    requires FirstBe(r) == FirstEnables(align, 0) && LastBe(r) == LastEnables(align, 0)
    ensures TlpDataLengthBytes(r) == 0 <==> align > 0
  {
    WordCount(r, Dwords(align, 0));
    hide TlpDataLength, LengthField;
  }

  // ---------------------------------------------------------------- the source's loops

  lemma {:induction false} AddrByteAt(addr: nat, n: nat, i: nat)
    requires i < n
    ensures Pow2(8 * (n - 1 - i)) > 0
    ensures AddrBytes(addr, n)[i] == addr / Pow2(8 * (n - 1 - i)) % 256
  {
    Pow2Positive(8 * (n - 1 - i));
    if i < n - 1 {
      var m := Pow2(8 * (n - 2 - i));
      AddrByteAt(addr / 256, n - 1, i);
      assert Pow2(8 * (n - 1 - i)) == 256 * m by { assert Pow2(8) == 256; Pow2Adds(8, 8 * (n - 2 - i)); }
      DivDiv(addr, 256, m);
    }
  }

  /** `tlp_req_set_addr`, on a packet held at offset o of a buffer. */
  method TlpReqSetAddr(pkt: array<byte>, o: nat, addr: nat, length: nat)
    requires o + 16 <= pkt.Length && addr < U64
    modifies pkt
    ensures pkt[..] == old(pkt[..o]) + SetAddr(old(pkt[o..]), addr, length)
  {
    ghost var was := pkt[..];
    var align := addr % 4;
    var base := addr - align;
    var k := if base < U32 then 4 else 8;
    SetHeader(pkt, o, align, length, k == 8);
    WriteAddr(pkt, o + 8, base, k);
    Assembled(was, pkt[..], o, addr, length);
  }

  lemma Assembled(was: seq<byte>, now: seq<byte>, o: nat, addr: nat, length: nat)
    requires o + 16 <= |was| == |now| && addr < U64
    requires now[..o] == was[..o]
    requires now[o..o + 8] == SetHead(was[o..], addr % 4, length, AddrWidth(addr) == 8)
    requires now[o + 8..o + 8 + AddrWidth(addr)] == AddrBytes(addr - addr % 4, AddrWidth(addr))
    requires now[o + 8 + AddrWidth(addr)..] == was[o + 8 + AddrWidth(addr)..]
    ensures now == was[..o] + SetAddr(was[o..], addr, length)
  {
    hide SetHead, AddrBytes;
    var k := AddrWidth(addr);
    assert was[o..][8 + k..] == was[o + 8 + k..];
    assert now == now[..o] + now[o..o + 8] + now[o + 8..o + 8 + k] + now[o + 8 + k..];
  }

  /** The byte enables, the length and the 4DW bit. */
  method SetHeader(pkt: array<byte>, o: nat, align: nat, length: nat, wide: bool)
    requires o + 16 <= pkt.Length && align < 4
    modifies pkt
    ensures forall i :: 0 <= i < o || o + 8 <= i < pkt.Length ==> pkt[i] == old(pkt[i])
    ensures pkt[o..o + 8] == SetHead(old(pkt[o..]), align, length, wide)
  {
    ghost var was := pkt[..];
    var first, last := ComputeEnables(align, length);
    var n := (length + align + 3) / 4;
    hide KindByte, LengthByte, EnableByte, FirstEnables, LastEnables;
    pkt[o + 7] := EnableByte(last, first);
    pkt[o + 2] := LengthByte(pkt[o + 2], n);
    pkt[o + 3] := n % 256;
    pkt[o] := KindByte(pkt[o], wide);
  }

  method ComputeEnables(align: nat, length: nat) returns (first: nat, last: nat)
    requires align < 4
    ensures first == FirstEnables(align, length) && last == LastEnables(align, length)
  {
    var span := length + align;
    assert Pow2(0) == 1 && Pow2(1) == 2 && Pow2(2) == 4 && Pow2(3) == 8;
    first := 0xf * Pow2(align) % 16;
    last := 0xf / Pow2(-span % 4);
    assert first == FromLane(align) && last == UpToLane(Padding(align, length));
    if span <= 4 {
      first, last := And(first, last), 0;
    }
    if length == 0 {
      first := 0;
    }
  }

  /** The address loop: k bytes, most significant first. */
  method WriteAddr(pkt: array<byte>, at: nat, base: nat, k: nat)
    requires at + k <= pkt.Length
    modifies pkt
    ensures forall i :: 0 <= i < at ==> pkt[i] == old(pkt[i])
    ensures forall i :: at + k <= i < pkt.Length ==> pkt[i] == old(pkt[i])
    ensures pkt[at..at + k] == AddrBytes(base, k)
  {
    for i := 0 to k
      invariant forall j :: 0 <= j < at ==> pkt[j] == old(pkt[j])
      invariant forall j :: at + k <= j < pkt.Length ==> pkt[j] == old(pkt[j])
      invariant forall j :: 0 <= j < i ==> pkt[at + j] == AddrBytes(base, k)[j]
    {
      AddrByteAt(base, k, i);
      pkt[at + i] := base / Pow2(8 * (k - i - 1)) % 256;
    }
  }

  /** `tlp_req_get_addr`. */
  method TlpReqGetAddr(pkt: array<byte>, o: nat) returns (addr: nat)
    requires o + 16 <= pkt.Length
    ensures addr == TlpGetAddr(pkt[o..])
  {
    hide OrDigit, AddrValue, Pow2;
    var n := if pkt[o] / 32 % 2 == 1 then 8 else 4;
    ghost var r := pkt[o..][8..8 + n];
    ghost var v := 0;
    addr := 0;
    AddrValueEnds(r);
    for i := 0 to n
      invariant v == AddrValue(r[..i])
      invariant addr == v * Pow2(8 * (n - i))
    {
      var b := pkt[o + 8 + i];
      assert r[i] == b;
      AddrValueNext(r, i);
      var digit := b * Pow2(8 * (n - i - 1));
      addr := OrDigit(addr, digit, n - i - 1, v, b);
      v := 256 * v + b;
    }
    assert r[..n] == r;
  }

  lemma AddrValueEnds(r: seq<byte>)
    ensures AddrValue(r[..0]) == 0 && Pow2(0) == 1
  {
  }

  lemma AddrValueNext(r: seq<byte>, i: nat)
    requires i < |r|
    ensures AddrValue(r[..i + 1]) == 256 * AddrValue(r[..i]) + r[i]
  {
    assert r[..i + 1][..i] == r[..i];
  }

  /** One turn of the accumulation: the byte lands below every bit set so far. */
  function OrDigit(addr: nat, digit: nat, k: nat, ghost high: nat, ghost b: byte): (r: nat)
    requires addr == high * Pow2(8 * (k + 1)) && digit == b * Pow2(8 * k)
    ensures r == (256 * high + b) * Pow2(8 * k)
  {
    ghost var m, top := Pow2(8 * k), Pow2(8 * (k + 1));
    assert m > 0 && top == 256 * m by { Pow2Positive(8 * k); assert Pow2(8) == 256; Pow2Adds(8, 8 * k); }
    Digits(high, b, m);
    OrDisjoint(addr, digit, 8 * (k + 1));
    Or(addr, digit)
  }

  lemma Digits(high: nat, b: byte, m: nat)
    requires m > 0
    ensures b * m < 256 * m && high * (256 * m) % (256 * m) == 0
    ensures high * (256 * m) + b * m == (256 * high + b) * m
  {
    ModUnique(high * (256 * m), 256 * m, high, 0);
  }
}
