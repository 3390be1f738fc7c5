/**
 The byte stream as a whole: concatenated frames are split back into themselves, a corrupted frame
 causes a NAK and nothing else, and every frame fits the memory allocated for it.
 */
module Framing {
  import opened Bits
  import opened Proto
  import opened Seal
  import opened Frames
  import opened Endpoint

  /** What the library puts on the wire. */
  datatype Frame = TlpOut(rsvd: nat, seqno: nat, tlp: seq<byte>) | DllpOut(dltype: byte, seqno: nat)

  predicate ValidFrame(f: Frame) {
    f.TlpOut? ==> f.rsvd < 16 && WellFormed(f.tlp) && 7 + |f.tlp| <= CLIENT_BUFFER_SIZE
  }

  function Bytes(f: Frame): (b: seq<byte>)
    requires ValidFrame(f)
    ensures |b| >= 7
  {
    match f
    case TlpOut(rsvd, seqno, tlp) => TlpFrame(rsvd, seqno, tlp)
    case DllpOut(dltype, seqno) => AckFrame(dltype, seqno)
  }

  function Stream(fs: seq<Frame>): seq<byte>
    requires forall f :: f in fs ==> ValidFrame(f)
  {
    if fs == [] then [] else Bytes(fs[0]) + Stream(fs[1..])
  }

  /** One reception after the other, until the stream is empty or a reception disconnects. */
  function Split(input: seq<byte>): seq<Parsed>
    decreases |input|
  {
    if input == [] then []
    else
      match Parse(input)
      case Dllp(d) => [Dllp(d)] + Split(input[7..])
      case Tlp(d) => [Tlp(d)] + Split(input[1 + |d|..])
      case other => [other]
  }

  function AsParsed(f: Frame): Parsed
    requires ValidFrame(f)
  {
    match f
    case TlpOut(rsvd, seqno, tlp) => Tlp(DlTlp(rsvd, seqno, tlp))
    case DllpOut(dltype, seqno) => Dllp(Dllp6(dltype, seqno))
  }

  lemma ParseFirst(f: Frame, rest: seq<byte>)
    requires ValidFrame(f)
    ensures Parse(Bytes(f) + rest) == AsParsed(f)
    ensures (Bytes(f) + rest)[if f.TlpOut? then 7 + |f.tlp| else 7..] == rest
  {
    hide Parse, WellFormed, DlTlp, Dllp6;
    match f
    case TlpOut(rsvd, seqno, tlp) => ParseTlpFrame(rsvd, seqno, tlp, rest);
    case DllpOut(dltype, seqno) => ParseAckFrame(dltype, seqno, rest);
  }

  lemma SplitFirst(f: Frame, rest: seq<byte>)
    requires ValidFrame(f)
    ensures Split(Bytes(f) + rest) == [AsParsed(f)] + Split(rest)
  {
    hide Parse, Bytes, ValidFrame, DlTlp, Dllp6;
    ParseFirst(f, rest);
  }

  function AllParsed(fs: seq<Frame>): seq<Parsed>
    requires forall f :: f in fs ==> ValidFrame(f)
  {
    if fs == [] then [] else [AsParsed(fs[0])] + AllParsed(fs[1..])
  }

  /** Any concatenation of frames is split back into the same frames. */
  lemma {:induction false} SplitIsInverse(fs: seq<Frame>)
    requires forall f :: f in fs ==> ValidFrame(f)
    ensures Split(Stream(fs)) == AllParsed(fs)
  {
    hide Split, Bytes, ValidFrame, AsParsed;
    if fs == [] {
      SplitNothing();
    } else {
      SplitIsInverse(fs[1..]);
      SplitFirst(fs[0], Stream(fs[1..]));
    }
  }

  lemma SplitNothing()
    ensures Split([]) == []
  {
  }

  /** A well-formed TLP exceeds the receive buffer exactly when it has a four-word header and 1024
      words of data. */
  lemma OversizeIff(tlp: seq<byte>)
    requires WellFormed(tlp)
    ensures 7 + |tlp| > CLIENT_BUFFER_SIZE <==> Fmt(tlp) == 3 && LengthField(tlp) == 0
  {
  }

  // ---------------------------------------------------------------- corruption

  /** A change confined to at most four consecutive bytes of a TLP frame, behind the protocol byte and
      leaving the format and length fields alone, makes the receiver send a NAK with the sequence
      number it sees and do nothing else, in every state. */
  lemma CorruptionOnlyNaks(c: Client, rsvd: nat, seqno: nat, tlp: seq<byte>, p: seq<byte>, u: seq<byte>,
                           v: seq<byte>, s: seq<byte>,
                           rest: seq<byte>)
    requires rsvd < 16 && WellFormed(tlp) && 7 + |tlp| <= CLIENT_BUFFER_SIZE
    requires DlTlp(rsvd, seqno, tlp) == p + u + s && |u| == |v| <= 4 && u != v
    requires Fmt((p + v + s)[2..]) == Fmt(tlp) && LengthField((p + v + s)[2..]) == LengthField(tlp)
    ensures Receive(c, [PROTO_TLP] + (p + v + s) + rest)
      == Reception(c, 7 + |tlp|, AckFrame(DLLP_NAK, SeqOf(p + v + s)), Nothing)
  {
    hide Receive, LcrcValid, AckFrame, SeqOf, DlTlp;
    DlTlpFields(rsvd, seqno, tlp);
    TlpBurstDetected(p, u, v, s);
    ReceiveCorrupt(c, p + v + s, rest);
  }

  /** A change confined to two consecutive bytes of an acknowledgement, behind the protocol byte, makes
      the receiver drop it: nothing is sent, logged or changed. */
  lemma CorruptAckIgnored(c: Client, dltype: byte, seqno: nat, p: seq<byte>, u: seq<byte>, v: seq<byte>,
                          s: seq<byte>, rest: seq<byte>)
    requires Dllp6(dltype, seqno) == p + u + s && |u| == |v| <= 2 && u != v
    ensures Receive(c, [PROTO_DLLP] + (p + v + s) + rest) == Reception(c, 7, [], Nothing)
  {
    hide Crc16Valid, SeqOf, Dllp6;
    Dllp6Fields(dltype, seqno);
    DllpBurstDetected(p, u, v, s);
    var input := [PROTO_DLLP] + (p + v + s) + rest;
    assert |p + u + s| == 6 && input[1..7] == p + v + s;
  }

  // ---------------------------------------------------------------- allocation

  /** The frame of a read request fits the transport on the stack. */
  lemma ReadFits(kind: byte, tag: byte, addr: nat, length: nat)
    requires addr < U64 && Fmt([kind]) < 2
    ensures 7 + |ReadTlp(kind, tag, addr, length)| <= TRANSPORT_SIZE
  {
    HeaderFields([kind, 0, 0, 0, 0, 0, tag, 0] + Zeros(8), addr, length);
  }

  /** The frame of a completion fits the zeroed transport. */
  lemma CompletionFits(req: seq<byte>, result: ReadResult)
    requires WellFormed(req) && (result.ReadData? ==> |result.data| <= 4 * TlpDataLength(req))
    ensures 7 + |CompletionTlp(req, result)| <= TRANSPORT_SIZE + 4 * TlpDataLength(req)
  {
  }

  /** What `client_send_pcie_transport` will take the frame of a write to be, from its header. */
  function WriteFrameLength(kind: byte, garbage: seq<byte>, addr: nat, length: nat): int
    requires addr < U64 && |garbage| >= 16
  {
    7 + TlpTotalLength(SetAddr(garbage[0 := kind], addr, length))
  }

  /** For every address and length, the frame of a write fits the transport allocated for it exactly
      when there is at least one word to write; an aligned write of no bytes encodes as 1024 words. */
  lemma WriteFitsIff(kind: byte, garbage: seq<byte>, addr: nat, length: nat)
    requires addr < U64 && |garbage| >= 16 && 2 <= Fmt([kind]) < 4
    ensures WriteFrameLength(kind, garbage, addr, length) <= TRANSPORT_SIZE + 4 * Dwords(addr % 4, length)
      <==> addr % 4 + length > 0
  {
    hide SetAddr, FirstEnables, LastEnables, LengthField, TlpDataLength, AddrWidth, Dwords;
    HeaderFields(garbage[0 := kind], addr, length);
    WordCount(SetAddr(garbage[0 := kind], addr, length), Dwords(addr % 4, length));
    WordsOrNone(addr % 4, length);
  }

  lemma WordsOrNone(align: nat, length: nat)
    ensures Dwords(align, length) == 0 <==> align + length == 0
  {
  }
}
