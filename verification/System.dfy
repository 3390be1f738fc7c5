/**
 A host and a memory device joined by two byte streams, and the theorem that using the device
 over the link is the same as using it locally, in the order the host issues its requests.

 A run is any interleaving of host reads, host writes and frame receptions on either side.
 `Spec` executes each request on the device the moment it is issued.  `Refines` says that, in
 every reachable state, the completion callbacks made so far are a prefix of the reads answered
 by `Spec`, each with the same bytes, and that once the streams are drained nothing is missing.
 */
module System {
  import opened Bits
  import opened Proto
  import opened Frames
  import opened Endpoint
  import opened MemoryMock

  // ---------------------------------------------------------------- the system

  /** A completion callback invocation: which read, with which bytes. */
  type Delivery = (nat, seq<byte>)

  datatype Sys = Sys(
    host: Client, dev: Client, mock: Mock, toDev: seq<byte>, toHost: seq<byte>,
    issued: nat, log: seq<Delivery>, hostAcks: seq<nat>, devAcks: seq<nat>)

  datatype Step =
    | HostRead(space: Space, addr: nat, length: nat)
    | HostWrite(space: Space, addr: nat, data: seq<byte>, garbage: seq<byte>)
    | DevReceive
    | HostReceive

  /** Lengths the format can carry, and something to receive. */
  predicate Feasible(s: Sys, step: Step) {
    match step
    case HostRead(space, addr, length) => Carried(addr, length)
    case HostWrite(space, addr, data, garbage) =>
      && Carried(addr, |data|) && FitsBuffer(addr, |data|)
      && |garbage| == TRANSPORT_SIZE + 4 * Dwords(addr % 4, |data|)
    case DevReceive => s.toDev != []
    case HostReceive => s.toHost != []
  }

  /** What a caller must respect besides: a read is issued only while its completion slot is free. */
  predicate Enabled(s: Sys, step: Step) {
    Feasible(s, step) && (step.HostRead? ==> s.host.completionCb[s.host.readTag] == None)
  }

  predicate IsReception(step: Step) {
    step.DevReceive? || step.HostReceive?
  }

  function Next(s: Sys, step: Step): Sys
    requires Feasible(s, step)
  {
    match step
    case HostRead(space, addr, length) =>
      var (host, frame) := IssueRead(s.host, space, addr, length, s.issued);
      s.(host := host, toDev := s.toDev + frame, issued := s.issued + 1)
    case HostWrite(space, addr, data, garbage) =>
      var (host, frame) := IssueWrite(s.host, space, addr, data, garbage);
      s.(host := host, toDev := s.toDev + frame)
    case DevReceive => DevNext(s, Receive(s.dev, s.toDev))
    case HostReceive => HostNext(s, Receive(s.host, s.toHost))
  }

  /** The device's callbacks, run from `warppipe_client_read`. */
  function DevNext(s: Sys, r: Reception): Sys
    requires r.consumed <= |s.toDev| && Servable(r.reaction)
  {
    var s := s.(dev := r.client, toDev := s.toDev[r.consumed..], toHost := s.toHost + r.ack);
    match r.reaction
    case Serve(req, a) =>
      var n := if a.length < 0 then 0 else a.length;
      var (dev, frame) := Answer(s.dev, req, MockRead(s.mock, a.cb, a.addr, n));
      s.(dev := dev, toHost := s.toHost + frame)
    case Store(a, data) =>
      var (mock, regs) := MockWrite(s.mock, s.dev.regs, a.cb, a.addr, data);
      s.(mock := mock, dev := s.dev.(regs := regs))
    case AckLogged(n) => s.(devAcks := s.devAcks + [n])
    case _ => s
  }

  /** The host's completion callback records what it was given. */
  function HostNext(s: Sys, r: Reception): Sys
    requires r.consumed <= |s.toHost|
  {
    var s := s.(host := r.client, toHost := s.toHost[r.consumed..], toDev := s.toDev + r.ack);
    match r.reaction
    case Complete(cb, data) => s.(log := s.log + [(cb, data)])
    case AckLogged(n) => s.(hostAcks := s.hostAcks + [n])
    case _ => s
  }

  // ---------------------------------------------------------------- the specification

  /** The device used locally: requests take effect when issued. */
  datatype Spec = Spec(regs: Regs, mock: Mock, issued: nat, answers: seq<Delivery>)

  /** The completion byte count has 12 bits, so 4096 bytes are announced as none. */
  function Counted(data: seq<byte>): seq<byte> {
    data[..|data| % 4096]
  }

  /** The callback gets every byte exactly when there are fewer than 4096; a read of 4096 gets none. */
  lemma CountedIff(data: seq<byte>)
    requires |data| <= 4096
    ensures Counted(data) == data <==> |data| < 4096
    ensures |data| == 4096 ==> Counted(data) == []
  {
    assert |Counted(data)| == |data| % 4096;
  }

  function SpecNext(sp: Spec, step: Step): Spec {
    match step
    case HostRead(space, addr, length) =>
      var d := LocalRead(sp.regs, sp.mock, space, addr, length);
      sp.(issued := sp.issued + 1,
          answers := if d.None? then sp.answers else sp.answers + [(sp.issued, Counted(d.value))])
    case HostWrite(space, addr, data, _) =>
      var (mock, regs) := LocalWrite(sp.regs, sp.mock, space, addr, data);
      sp.(mock := mock, regs := regs)
    case _ => sp
  }

  // ---------------------------------------------------------------- messages in flight

  /** A frame on its way to the device: a request with its meaning, or an acknowledgement. */
  datatype Op =
    | ReadOp(space: Space, tag: nat, addr: nat, length: nat)
    | WriteOp(space: Space, addr: nat, data: seq<byte>)

  datatype Down = Request(rsvd: nat, seqno: nat, tlp: seq<byte>, op: Op) | DownAck(acked: nat)

  /** A frame on its way to the host: a completion with the (tag, data) it delivers, if any, or an
      acknowledgement. */
  datatype Up = Completion(seqno: nat, tlp: seq<byte>, tag: nat, delivers: seq<Delivery>) | UpAck(acked: nat)

  function DownFrame(m: Down): seq<byte> {
    match m
    case Request(rsvd, seqno, tlp, _) => TlpFrame(rsvd % 16, seqno, tlp)
    case DownAck(n) => AckFrame(DLLP_ACK, n)
  }

  function UpFrame(m: Up): seq<byte> {
    match m
    case Completion(seqno, tlp, _, _) => TlpFrame(0, seqno, tlp)
    case UpAck(n) => AckFrame(DLLP_ACK, n)
  }

  function DownBytes(a: seq<Down>): seq<byte> {
    if a == [] then [] else DownFrame(a[0]) + DownBytes(a[1..])
  }

  function UpBytes(b: seq<Up>): seq<byte> {
    if b == [] then [] else UpFrame(b[0]) + UpBytes(b[1..])
  }

  /** Sequence numbers of the TLPs, and of the acknowledgements, on the way to the device. */
  function DownSeqs(a: seq<Down>): seq<nat> {
    if a == [] then [] else if a[0].DownAck? then DownSeqs(a[1..]) else [a[0].seqno % 4096] + DownSeqs(a[1..])
  }

  function DownAcks(a: seq<Down>): seq<nat> {
    if a == [] then [] else if a[0].DownAck? then [a[0].acked % 4096] + DownAcks(a[1..]) else DownAcks(a[1..])
  }

  function UpSeqs(b: seq<Up>): seq<nat> {
    if b == [] then [] else if b[0].UpAck? then UpSeqs(b[1..]) else [b[0].seqno % 4096] + UpSeqs(b[1..])
  }

  function UpAcks(b: seq<Up>): seq<nat> {
    if b == [] then [] else if b[0].UpAck? then [b[0].acked % 4096] + UpAcks(b[1..]) else UpAcks(b[1..])
  }

  /** Completions on the way to the host, as (tag, data). */
  function UpReads(b: seq<Up>): seq<Delivery> {
    if b == [] then [] else if b[0].UpAck? then UpReads(b[1..]) else b[0].delivers + UpReads(b[1..])
  }

  /** Tags of the read requests, and of the completions, in flight. */
  function DownTags(a: seq<Down>): seq<nat> {
    if a == [] then []
    else if a[0].Request? && a[0].op.ReadOp? then [a[0].op.tag] + DownTags(a[1..])
    else DownTags(a[1..])
  }

  function UpTags(b: seq<Up>): seq<nat> {
    if b == [] then [] else if b[0].UpAck? then UpTags(b[1..]) else [b[0].tag] + UpTags(b[1..])
  }

  /** The device after executing one message. */
  function Applied(r: Regs, m: Mock, msg: Down): (Mock, Regs) {
    if msg.Request? && msg.op.WriteOp? then LocalWrite(r, m, msg.op.space, msg.op.addr, msg.op.data) else (m, r)
  }

  /** What one message will be answered with. */
  function Answered(r: Regs, m: Mock, msg: Down): seq<Delivery> {
    if msg.DownAck? || msg.op.WriteOp? then []
    else
      var d := LocalRead(r, m, msg.op.space, msg.op.addr, msg.op.length);
      if d.None? then [] else [(msg.op.tag, Counted(d.value))]
  }

  function AppliedAll(r: Regs, m: Mock, a: seq<Down>): (Mock, Regs)
    decreases |a|
  {
    if a == [] then (m, r)
    else
      var (m', r') := Applied(r, m, a[0]);
      AppliedAll(r', m', a[1..])
  }

  /** The answers the device will give to the requests on their way to it. */
  function Pending(r: Regs, m: Mock, a: seq<Down>): seq<Delivery>
    decreases |a|
  {
    if a == [] then []
    else
      var (m', r') := Applied(r, m, a[0]);
      Answered(r, m, a[0]) + Pending(r', m', a[1..])
  }

  /** Every reception makes this smaller: a request is worth its two replies and their
      acknowledgement. */
  function DownWeight(a: seq<Down>): nat {
    if a == [] then 0 else (if a[0].DownAck? then 1 else 4) + DownWeight(a[1..])
  }

  function UpWeight(b: seq<Up>): nat {
    if b == [] then 0 else (if b[0].UpAck? then 1 else 2) + UpWeight(b[1..])
  }

  function Weight(a: seq<Down>, b: seq<Up>): nat {
    DownWeight(a) + UpWeight(b)
  }

  lemma {:induction false} UpWeightConcat(b: seq<Up>, c: seq<Up>)
    ensures UpWeight(b + c) == UpWeight(b) + UpWeight(c)
  {
    if b == [] {
      assert b + c == c;
    } else {
      assert (b + c)[1..] == b[1..] + c;
      UpWeightConcat(b[1..], c);
    }
  }

  lemma {:induction false} DownWeightConcat(a: seq<Down>, c: seq<Down>)
    ensures DownWeight(a + c) == DownWeight(a) + DownWeight(c)
  {
    if a == [] {
      assert a + c == c;
    } else {
      assert (a + c)[1..] == a[1..] + c;
      DownWeightConcat(a[1..], c);
    }
  }

  // ---------------------------------------------------------------- appending messages

  lemma Assoc<T>(x: seq<T>, y: seq<T>, z: seq<T>)
    ensures x + (y + z) == (x + y) + z
  {
  }

  lemma {:induction false} DownAppend(a: seq<Down>, msg: Down)
    ensures DownBytes(a + [msg]) == DownBytes(a) + DownFrame(msg)
  {
    hide DownFrame;
    if a == [] {
      assert a + [msg] == [msg] && [msg][1..] == [];
    } else {
      assert (a + [msg])[1..] == a[1..] + [msg];
      DownAppend(a[1..], msg);
      Assoc(DownFrame(a[0]), DownBytes(a[1..]), DownFrame(msg));
    }
  }

  lemma {:induction false} DownNumbers(a: seq<Down>, msg: Down)
    ensures DownSeqs(a + [msg]) == if msg.DownAck? then DownSeqs(a) else DownSeqs(a) + [msg.seqno % 4096]
    ensures DownAcks(a + [msg]) == if msg.DownAck? then DownAcks(a) + [msg.acked % 4096] else DownAcks(a)
  {
    if a == [] {
      assert a + [msg] == [msg] && [msg][1..] == [];
    } else {
      assert (a + [msg])[1..] == a[1..] + [msg];
      DownNumbers(a[1..], msg);
    }
  }

  lemma {:induction false} TagsAppend(a: seq<Down>, msg: Down)
    ensures DownTags(a + [msg]) == if msg.Request? && msg.op.ReadOp? then DownTags(a) + [msg.op.tag] else DownTags(a)
  {
    if a == [] {
      assert a + [msg] == [msg] && [msg][1..] == [];
    } else {
      assert (a + [msg])[1..] == a[1..] + [msg];
      TagsAppend(a[1..], msg);
    }
  }

  lemma {:induction false} UpTagsAppend(b: seq<Up>, msg: Up)
    ensures UpTags(b + [msg]) == if msg.UpAck? then UpTags(b) else UpTags(b) + [msg.tag]
  {
    if b == [] {
      assert b + [msg] == [msg] && [msg][1..] == [];
    } else {
      assert (b + [msg])[1..] == b[1..] + [msg];
      UpTagsAppend(b[1..], msg);
    }
  }

  lemma {:induction false} PendingAppend(r: Regs, m: Mock, a: seq<Down>, msg: Down)
    ensures var (m', r') := AppliedAll(r, m, a);
      && AppliedAll(r, m, a + [msg]) == Applied(r', m', msg)
      && Pending(r, m, a + [msg]) == Pending(r, m, a) + Answered(r', m', msg)
    decreases |a|
  {
    hide Applied, Answered;
    if a == [] {
      assert a + [msg] == [msg] && [msg][1..] == [];
    } else {
      var (m', r') := Applied(r, m, a[0]);
      assert (a + [msg])[1..] == a[1..] + [msg];
      PendingAppend(r', m', a[1..], msg);
    }
  }

  lemma {:induction false} UpAppend(b: seq<Up>, msg: Up)
    ensures UpBytes(b + [msg]) == UpBytes(b) + UpFrame(msg)
    ensures UpReads(b + [msg]) == if msg.UpAck? then UpReads(b) else UpReads(b) + msg.delivers
  {
    hide UpFrame;
    if b == [] {
      assert b + [msg] == [msg] && [msg][1..] == [];
    } else {
      assert (b + [msg])[1..] == b[1..] + [msg];
      UpAppend(b[1..], msg);
      Assoc(UpFrame(b[0]), UpBytes(b[1..]), UpFrame(msg));
    }
  }

  lemma {:induction false} UpNumbers(b: seq<Up>, msg: Up)
    ensures UpSeqs(b + [msg]) == if msg.UpAck? then UpSeqs(b) else UpSeqs(b) + [msg.seqno % 4096]
    ensures UpAcks(b + [msg]) == if msg.UpAck? then UpAcks(b) + [msg.acked % 4096] else UpAcks(b)
  {
    if b == [] {
      assert b + [msg] == [msg] && [msg][1..] == [];
    } else {
      assert (b + [msg])[1..] == b[1..] + [msg];
      UpNumbers(b[1..], msg);
    }
  }
}
