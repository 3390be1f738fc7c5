/**
 The bytes in the streams determine the messages in them: two decodings of the same bytes agree on the
 kind, the sequence numbers, the acknowledgements and the tags.
 */
module Decoding {
  import opened Bits
  import opened Proto
  import opened Frames
  import opened Endpoint
  import opened System
  import opened Refinement

  lemma SamePrefix(x: seq<byte>, r: seq<byte>, y: seq<byte>, q: seq<byte>)
    requires x + r == y + q && |x| == |y|
    ensures x == y && r == q
  {
    assert x == (x + r)[..|x|] && y == (y + q)[..|y|];
    assert r == (x + r)[|x|..] && q == (y + q)[|y|..];
  }

  lemma TlpInside(rsvd: nat, seqno: nat, tlp: seq<byte>)
    requires rsvd < 16
    ensures TlpFrame(rsvd, seqno, tlp)[3..3 + |tlp|] == tlp
  {
    hide SeqBytes;
    var t := Seal.LcrcBytes(SeqBytes(rsvd, seqno) + tlp);
    assert TlpFrame(rsvd, seqno, tlp) == [PROTO_TLP] + SeqBytes(rsvd, seqno) + tlp + t;
  }

  lemma SameAck(m: nat, n: nat, c: Client)
    requires AckFrame(DLLP_ACK, m) == AckFrame(DLLP_ACK, n)
    ensures m % 4096 == n % 4096
  {
    hide AckFrame, Receive;
    ReceiveAck(c, DLLP_ACK, m, []);
    ReceiveAck(c, DLLP_ACK, n, []);
  }

  // ---------------------------------------------------------------- towards the device

  /** A request's TLP tells reads from writes, and a read's tag. */
  lemma TagOfRequest(tlp: seq<byte>, op: Op)
    requires Means(tlp, op)
    ensures |tlp| >= 12 && (op.ReadOp? <==> tlp[0] / 64 == 0) && (op.ReadOp? ==> tlp[6] == op.tag)
  {
    match op
    case ReadOp(space, tag, addr, length) =>
      ReadTlpShape(ReadKind(space), tag, addr, length);
      hide ReadTlp, WellFormed, TlpGetAddr, TlpDataLengthBytes, TlpDataLength, FirstBeOffset, Dwords;
    case WriteOp(space, addr, data) =>
      var g :| Garbage(g, addr, |data|) && tlp == WriteTlp(WriteKind(space), g, addr, data);
      WriteTlpFields(WriteKind(space), g, addr, data);
      hide WriteTlp, TlpGetAddr, TlpDataLengthBytes, TlpDataLength, FirstBeOffset, Dwords;
  }

  lemma SameFirstDown(m: Down, r: seq<byte>, n: Down, q: seq<byte>, c: Client)
    requires ValidDown(m) && ValidDown(n) && DownFrame(m) + r == DownFrame(n) + q
    ensures DownFrame(m) == DownFrame(n) && r == q && m.Request? == n.Request?
    ensures m.Request? ==> m.seqno % 4096 == n.seqno % 4096
    ensures m.DownAck? ==> m.acked % 4096 == n.acked % 4096
  {
    hide ValidDown, Receive, AckFrame, TlpFrame, Taken;
    AckSize(0);
    if m.Request? { ReceiveRequest(c, m, r); } else { ReceiveAck(c, DLLP_ACK, m.acked, r); AckSize(m.acked); }
    if n.Request? { ReceiveRequest(c, n, q); } else { ReceiveAck(c, DLLP_ACK, n.acked, q); AckSize(n.acked); }
    if m.Request? && n.Request? {
      SameAck(m.seqno % 4096, n.seqno % 4096, c);
      ModMod(m.seqno);
      ModMod(n.seqno);
    }
    SamePrefix(DownFrame(m), r, DownFrame(n), q);
  }

  lemma AckSize(n: nat)
    ensures |AckFrame(DLLP_ACK, n)| == 7
  {
  }

  lemma SameRequest(m: Down, n: Down)
    requires ValidDown(m) && ValidDown(n) && DownFrame(m) == DownFrame(n) && m.Request? && n.Request?
    ensures m.op.ReadOp? == n.op.ReadOp? && (m.op.ReadOp? ==> m.op.tag == n.op.tag)
  {
    hide TlpFrame, Means;
    TagOfRequest(m.tlp, m.op);
    TagOfRequest(n.tlp, n.op);
    TlpInside(m.rsvd % 16, m.seqno, m.tlp);
    TlpInside(n.rsvd % 16, n.seqno, n.tlp);
  }

  lemma {:induction false} SameDown(a: seq<Down>, a': seq<Down>, c: Client)
    requires (forall m :: m in a ==> ValidDown(m)) && (forall m :: m in a' ==> ValidDown(m))
    requires DownBytes(a) == DownBytes(a')
    ensures DownTags(a) == DownTags(a') && DownSeqs(a) == DownSeqs(a') && DownAcks(a) == DownAcks(a')
    decreases |a|
  {
    hide ValidDown, DownFrame;
    DownNonempty(a);
    DownNonempty(a');
    if a != [] {
      assert a[0] in a && a'[0] in a';
      SameFirstDown(a[0], DownBytes(a[1..]), a'[0], DownBytes(a'[1..]), c);
      if a[0].Request? { SameRequest(a[0], a'[0]); }
      SameDown(a[1..], a'[1..], c);
    }
  }

  lemma DownNonempty(a: seq<Down>)
    ensures DownBytes(a) == [] <==> a == []
  {
    if a != [] { assert |DownFrame(a[0])| >= 7; }
  }

  // ---------------------------------------------------------------- towards the host

  lemma TagOfCompletion(tlp: seq<byte>, tag: nat, delivers: seq<Delivery>)
    requires Brings(tlp, tag, delivers)
    ensures |tlp| >= 12 && tlp[10] == tag
  {
    hide TlpDataLengthBytes, TlpTotalLength;
    var req, result :| AnswerTo(tlp, tag, delivers, req, result);
    CompletionEchoes(req, result);
  }

  lemma CompletionEchoes(req: seq<byte>, result: ReadResult)
    requires |req| >= 8 && (result.ReadData? ==> |result.data| <= 4 * TlpDataLength(req))
    ensures CompletionTlp(req, result)[10] == req[6]
  {
    hide TlpDataLengthBytes;
  }

  lemma SameFirstUp(m: Up, r: seq<byte>, n: Up, q: seq<byte>, c: Client)
    requires ValidUp(m) && ValidUp(n) && UpFrame(m) + r == UpFrame(n) + q
    ensures UpFrame(m) == UpFrame(n) && r == q && m.Completion? == n.Completion?
    ensures m.Completion? ==> m.seqno % 4096 == n.seqno % 4096
    ensures m.UpAck? ==> m.acked % 4096 == n.acked % 4096
  {
    hide ValidUp, Receive, AckFrame, TlpFrame, HostTaken;
    AckSize(0);
    if m.Completion? { ReceiveCompletion(c, m, r); } else { ReceiveAck(c, DLLP_ACK, m.acked, r); AckSize(m.acked); }
    if n.Completion? { ReceiveCompletion(c, n, q); } else { ReceiveAck(c, DLLP_ACK, n.acked, q); AckSize(n.acked); }
    if m.Completion? && n.Completion? {
      SameAck(m.seqno % 4096, n.seqno % 4096, c);
      ModMod(m.seqno);
      ModMod(n.seqno);
    }
    SamePrefix(UpFrame(m), r, UpFrame(n), q);
  }

  lemma SameCompletion(m: Up, n: Up)
    requires ValidUp(m) && ValidUp(n) && UpFrame(m) == UpFrame(n) && m.Completion? && n.Completion?
    ensures m.tag == n.tag
  {
    hide TlpFrame, Brings;
    TagOfCompletion(m.tlp, m.tag, m.delivers);
    TagOfCompletion(n.tlp, n.tag, n.delivers);
    TlpInside(0, m.seqno, m.tlp);
    TlpInside(0, n.seqno, n.tlp);
  }

  lemma {:induction false} SameUp(b: seq<Up>, b': seq<Up>, c: Client)
    requires (forall m :: m in b ==> ValidUp(m)) && (forall m :: m in b' ==> ValidUp(m))
    requires UpBytes(b) == UpBytes(b')
    ensures UpTags(b) == UpTags(b') && UpSeqs(b) == UpSeqs(b') && UpAcks(b) == UpAcks(b')
    decreases |b|
  {
    hide ValidUp, UpFrame;
    UpNonempty(b);
    UpNonempty(b');
    if b != [] {
      assert b[0] in b && b'[0] in b';
      SameFirstUp(b[0], UpBytes(b[1..]), b'[0], UpBytes(b'[1..]), c);
      if b[0].Completion? { SameCompletion(b[0], b'[0]); }
      SameUp(b[1..], b'[1..], c);
    }
  }

  lemma UpNonempty(b: seq<Up>)
    ensures UpBytes(b) == [] <==> b == []
  {
    if b != [] { assert |UpFrame(b[0])| >= 7; }
  }

  /** The bytes determine tags, numbers and acknowledgements. */
  lemma SameStreams(s: Sys, a: seq<Down>, b: seq<Up>, a': seq<Down>, b': seq<Up>)
    requires Streams(s, a, b) && Streams(s, a', b')
    ensures TagsInFlight(a, b) == TagsInFlight(a', b')
    ensures DownSeqs(a) == DownSeqs(a') && DownAcks(a) == DownAcks(a')
    ensures UpSeqs(b) == UpSeqs(b') && UpAcks(b) == UpAcks(b')
  {
    hide ValidDown, ValidUp, DownBytes, UpBytes;
    SameDown(a, a', s.host);
    SameUp(b, b', s.host);
  }
}
