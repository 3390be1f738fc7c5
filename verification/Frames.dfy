/**
 What travels on the byte stream (struct warppipe_pcie_transport in inc/warppipe/proto.h): one
 protocol byte, then either a sealed 6-byte data-link packet or a sealed data-link TLP.
 The packets the library builds are given as functions of the request; `Parse` is the splitting
 that `warppipe_client_read` performs.
 */
module Frames {
  import opened Bits
  import opened Proto
  import opened Seal

  const PROTO_DLLP := 2
  const PROTO_TLP := 3
  const DLLP_ACK := 0x00
  const DLLP_NAK := 0x10
  const CLIENT_BUFFER_SIZE := 4117
  /** sizeof(struct warppipe_pcie_transport) */
  const TRANSPORT_SIZE := 23

  function Zeros(n: nat): (z: seq<byte>)
    ensures |z| == n && forall i :: 0 <= i < n ==> z[i] == 0
  {
    if n == 0 then [] else Zeros(n - 1) + [0]
  }

  // ---------------------------------------------------------------- packets as built

  /** A sequence number in the two leading bytes; the high nibble of the first is reserved. */
  function SeqBytes(rsvd: nat, seqno: nat): (b: seq<byte>)
    requires rsvd < 16
    ensures |b| == 2
  {
    [rsvd * 16 + seqno / 256 % 16, seqno % 256]
  }

  function SeqOf(d: seq<byte>): nat
    requires |d| >= 2
  {
    var hi: int := d[0] % 16;
    256 * hi + d[1]
  }

  function DlTlp(rsvd: nat, seqno: nat, tlp: seq<byte>): (d: seq<byte>)
    requires rsvd < 16
    ensures |d| == 6 + |tlp|
  {
    var d := SeqBytes(rsvd, seqno) + tlp;
    d + LcrcBytes(d)
  }

  function TlpFrame(rsvd: nat, seqno: nat, tlp: seq<byte>): (f: seq<byte>)
    requires rsvd < 16
    ensures |f| == 7 + |tlp|
  {
    [PROTO_TLP] + DlTlp(rsvd, seqno, tlp)
  }

  function DllpBytes(dltype: byte, seqno: nat): (d: seq<byte>)
    ensures |d| == 4
  {
    [dltype, 0, seqno / 256 % 16, seqno % 256]
  }

  function Dllp6(dltype: byte, seqno: nat): (d: seq<byte>)
    ensures |d| == 6
  {
    DllpBytes(dltype, seqno) + Crc16Bytes(DllpBytes(dltype, seqno))
  }

  function AckFrame(dltype: byte, seqno: nat): (f: seq<byte>)
    ensures |f| == 7
  {
    [PROTO_DLLP] + Dllp6(dltype, seqno)
  }

  /** The read request of `warppipe_read_imp`, built in zeroed memory. */
  function ReadTlp(kind: byte, tag: byte, addr: nat, length: nat): (p: seq<byte>)
    requires addr < U64 && Fmt([kind]) < 2
    ensures |p| == TlpTotalLength(SetAddr([kind, 0, 0, 0, 0, 0, tag, 0] + Zeros(8), addr, length))
  {
    var r := SetAddr([kind, 0, 0, 0, 0, 0, tag, 0] + Zeros(8), addr, length);
    HeaderFields([kind, 0, 0, 0, 0, 0, tag, 0] + Zeros(8), addr, length);
    r[..TlpTotalLength(r)]
  }

  /** A read request on the wire, byte by byte: the tag in byte 6, the address in bytes 8 to 11, most
      significant first, without its two low bits; from 4 GiB on, bit 5 of the kind and eight bytes. */
  lemma ReadOnWire(kind: byte, tag: byte, addr: nat, length: nat)
    requires kind < 0x20 && addr < U64
    ensures var n := Dwords(addr % 4, length);
      var be := 16 * LastEnables(addr % 4, length) + FirstEnables(addr % 4, length);
      var base := addr - addr % 4;
      ReadTlp(kind, tag, addr, length)
      == [if addr < U32 then kind else kind + 0x20, 0, n / 256 % 4, n % 256, 0, 0, tag, be]
         + if addr < U32 then BigEndian(base) else BigEndian(base / U32) + BigEndian(base)
  {
    hide FirstEnables, LastEnables, Dwords, AddrBytes, BigEndian;
    var base := addr - addr % 4;
    AddrFour(base);
    AddrFour(base / U32);
    AddrEight(base);
    HeaderFields([kind, 0, 0, 0, 0, 0, tag, 0] + Zeros(8), addr, length);
  }

  /** An acknowledgement on the wire: those of packet 0 end with the CRC of tests/test_crc.cc. */
  lemma AckOnWire(dltype: byte, seqno: nat)
    ensures |AckFrame(dltype, seqno)| == 7
    ensures AckFrame(dltype, seqno)[..5] == [2, dltype, 0, seqno / 256 % 16, seqno % 256]
    ensures AckFrame(0x00, 0) == [2, 0, 0, 0, 0, 0xb3, 0x62]
    ensures DLLP_ACK == 0x00 && DLLP_NAK == 0x10
  {
    hide Crc16Bytes, LcrcBytes;
    KnownSeals();
    AckPrefix(dltype, seqno, Crc16Bytes(DllpBytes(dltype, seqno)));
    AckPrefix(0x00, 0, Crc16Bytes(DllpBytes(0x00, 0)));
    assert DllpBytes(0x00, 0) == [0, 0, 0, 0];
  }

  lemma AckPrefix(dltype: byte, seqno: nat, t: seq<byte>)
    ensures [2] + (DllpBytes(dltype, seqno) + t) == [2, dltype, 0, seqno / 256 % 16, seqno % 256] + t
  {
  }

  /** Where the payload of a request starts. */
  function DataStart(p: seq<byte>): nat
    requires |p| >= 1
  {
    8 + AddrSize(p)
  }

  /** Data copied over a buffer at some offset. */
  function Overlay(p: seq<byte>, at: nat, data: seq<byte>): (r: seq<byte>)
    requires at + |data| <= |p|
    ensures |r| == |p|
  {
    p[..at] + data + p[at + |data|..]
  }

  /** The write covers at least one word. */
  predicate Writable(addr: nat, length: nat) {
    addr < U64 && addr % 4 + length >= 1
  }

  /** Payload and frame of such a write lie inside the memory allocated for them, however long it is. */
  lemma WriteRoom(kind: byte, garbage: seq<byte>, addr: nat, length: nat)
    requires Writable(addr, length) && 2 <= Fmt([kind]) < 4 && |garbage| == 20 + 4 * Dwords(addr % 4, length)
    ensures var r := SetAddr(garbage[0 := kind], addr, length);
      && 12 <= TlpTotalLength(r) <= 16 + 4 * Dwords(addr % 4, length)
      && 8 <= DataStart(r) <= 16 && DataStart(r) + addr % 4 + length <= |r|
  {
    HeaderFields(garbage[0 := kind], addr, length);
    WordCount(SetAddr(garbage[0 := kind], addr, length), Dwords(addr % 4, length));
    hide SetAddr, FirstEnables, LastEnables, LengthField, TlpDataLength, AddrWidth;
  }

  /** The write request of `warppipe_write_imp`.  `garbage` is what malloc returned for the part of
      the transport from the TLP on: unused header bits and the padding around the data keep it. */
  function WriteTlp(kind: byte, garbage: seq<byte>, addr: nat, data: seq<byte>): (p: seq<byte>)
    requires Writable(addr, |data|) && 2 <= Fmt([kind]) < 4 && |garbage| == 20 + 4 * Dwords(addr % 4, |data|)
    ensures |p| == TlpTotalLength(SetAddr(garbage[0 := kind], addr, |data|))
  {
    var r := SetAddr(garbage[0 := kind], addr, |data|);
    WriteRoom(kind, garbage, addr, |data|);
    Overlay(r, DataStart(r) + addr % 4, data)[..TlpTotalLength(r)]
  }

  /** The outcome of a read callback: an error code, or the bytes it wrote into the zeroed buffer. */
  datatype ReadResult = ReadError | ReadData(data: seq<byte>)

  /** The answer to the read request p: CplD, or Cpl without data when the callback failed. */
  function CompletionTlp(p: seq<byte>, result: ReadResult): (r: seq<byte>)
    requires |p| >= 8
    requires result.ReadData? ==> |result.data| <= 4 * TlpDataLength(p)
    ensures |r| == if result.ReadError? then 12 else 12 + 4 * TlpDataLength(p)
  {
    var n := TlpDataLengthBytes(p);
    var kind := if result.ReadError? then CPL else CPLD;
    var head: seq<byte> := [kind, 0, p[2] % 4, p[3], 0, 0, n / 256 % 16, n % 256, 0, 0, p[6], 0];
    if result.ReadError? then head
    else head + result.data + Zeros(4 * TlpDataLength(p) - |result.data|)
  }

  // ---------------------------------------------------------------- splitting the stream

  datatype Parsed =
    | Short                      // fewer than 7 bytes arrived: the peer is disconnected
    | BadProtocol                // neither DLLP nor TLP: disconnected
    | BadFormat                  // unknown TLP format: disconnected
    | Oversize                   // would not fit the client's buffer: the process aborts
    | Truncated                  // the stream ended inside the TLP: disconnected
    | Dllp(pkt: seq<byte>)
    | Tlp(pkt: seq<byte>)

  function Parse(input: seq<byte>): (r: Parsed)
    ensures r.Dllp? ==> |r.pkt| == 6 && |input| >= 7 && r.pkt == input[1..7]
    ensures r.Tlp? ==> IsDlTlp(r.pkt) && 1 + |r.pkt| <= |input| && r.pkt == input[1..1 + |r.pkt|]
    ensures r.Tlp? ==> 1 + |r.pkt| <= CLIENT_BUFFER_SIZE
  {
    if |input| < 7 then Short
    else if input[0] == PROTO_DLLP then Dllp(input[1..7])
    else if input[0] == PROTO_TLP then
      var total := TlpTotalLength(input[3..7]);
      if total < 0 then BadFormat
      else if 7 + total > CLIENT_BUFFER_SIZE then Oversize
      else if 7 + total > |input| then Truncated
      else
        assert input[1..7 + total][2..][..4] == input[3..7][..4] by { HeadWindow(input, 7 + total); }
        TotalLengthPrefix(input[1..7 + total][2..], input[3..7]);
        Tlp(input[1..7 + total])
    else BadProtocol
  }

  lemma HeadWindow(input: seq<byte>, end: nat)
    requires 7 <= end <= |input|
    ensures input[1..end][2..][..4] == input[3..7][..4]
  {
  }

  lemma TotalLengthPrefix(p: seq<byte>, q: seq<byte>)
    requires |p| >= 4 && |q| >= 4 && p[..4] == q[..4]
    ensures TlpTotalLength(p) == TlpTotalLength(q) && Fmt(p) == Fmt(q) && TlpDataLength(p) == TlpDataLength(q)
  {
    assert forall i :: 0 <= i < 4 ==> p[i] == p[..4][i] == q[..4][i] == q[i];
  }

  /** A TLP whose header announces exactly its own size. */
  predicate WellFormed(tlp: seq<byte>) {
    |tlp| >= 12 && |tlp| == TlpTotalLength(tlp)
  }

  /** A frame in front of anything is split off as that frame, unless it exceeds the buffer. */
  lemma ParseTlpFrame(rsvd: nat, seqno: nat, tlp: seq<byte>, rest: seq<byte>)
    requires rsvd < 16 && WellFormed(tlp)
    ensures Parse(TlpFrame(rsvd, seqno, tlp) + rest)
      == if 7 + |tlp| > CLIENT_BUFFER_SIZE then Oversize else Tlp(DlTlp(rsvd, seqno, tlp))
  {
    var d := DlTlp(rsvd, seqno, tlp);
    var input := TlpFrame(rsvd, seqno, tlp) + rest;
    assert input == [PROTO_TLP] + d + rest;
    assert input[3..7] == tlp[..4];
    TotalLengthPrefix(tlp[..4], tlp);
    assert input[1..7 + |tlp|] == d;
  }

  lemma ParseAckFrame(dltype: byte, seqno: nat, rest: seq<byte>)
    ensures Parse(AckFrame(dltype, seqno) + rest) == Dllp(Dllp6(dltype, seqno))
  {
    assert (AckFrame(dltype, seqno) + rest)[1..7] == Dllp6(dltype, seqno);
  }

  /** What the receiver reads out of a frame it split off. */
  lemma DlTlpFields(rsvd: nat, seqno: nat, tlp: seq<byte>)
    requires rsvd < 16
    ensures var d := DlTlp(rsvd, seqno, tlp);
      LcrcValid(d) && SeqOf(d) == seqno % 4096 && d[2..|d| - 4] == tlp
  {
    SealedIsValid(SeqBytes(rsvd, seqno) + tlp);
    SeqOfTlp(rsvd, seqno, tlp, LcrcBytes(SeqBytes(rsvd, seqno) + tlp));
  }

  lemma SeqOfTlp(rsvd: nat, seqno: nat, tlp: seq<byte>, t: seq<byte>)
    requires rsvd < 16 && |t| == 4
    ensures var d := SeqBytes(rsvd, seqno) + tlp + t;
      SeqOf(d) == seqno % 4096 && d[2..|d| - 4] == tlp
  {
    SeqSplit(seqno);
  }

  lemma Dllp6Fields(dltype: byte, seqno: nat)
    ensures var d := Dllp6(dltype, seqno);
      Crc16Valid(d) && d[0] == dltype && SeqOf(d[2..]) == seqno % 4096
  {
    SealedIsValid(DllpBytes(dltype, seqno));
    SeqOfAck(dltype, seqno, Crc16Bytes(DllpBytes(dltype, seqno)));
  }

  lemma SeqOfAck(dltype: byte, seqno: nat, t: seq<byte>)
    requires |t| == 2
    ensures (DllpBytes(dltype, seqno) + t)[0] == dltype
    ensures SeqOf((DllpBytes(dltype, seqno) + t)[2..]) == seqno % 4096
  {
    SeqSplit(seqno);
  }

  lemma SeqSplit(n: nat)
    ensures 256 * (n / 256 % 16) + n % 256 == n % 4096
  {
    DigitMod(n, 256, 16);
  }
}
