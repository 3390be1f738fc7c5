/** Every run of the system in System.dfy refines the device used locally. */
module Refinement {
  import opened Bits
  import opened Proto
  import opened Frames
  import opened Endpoint
  import opened MemoryMock
  import opened System

  // ---------------------------------------------------------------- frames and their meaning

  /** The TLP of a request says what its `op` says. */
  ghost predicate Means(tlp: seq<byte>, op: Op) {
    match op
    case ReadOp(space, tag, addr, length) =>
      tag < 32 && Carried(addr, length) && tlp == ReadTlp(ReadKind(space), tag, addr, length)
    case WriteOp(space, addr, data) =>
      && Carried(addr, |data|) && FitsBuffer(addr, |data|)
      && exists g :: Garbage(g, addr, |data|) && tlp == WriteTlp(WriteKind(space), g, addr, data)
  }

  ghost predicate ValidDown(m: Down) {
    m.Request? ==> m.rsvd < 16 && Means(m.tlp, m.op)
  }

  /** What the device does with a request, besides acknowledging it. */
  function Taken(c: Client, tlp: seq<byte>, op: Op): Reaction {
    match op
    case ReadOp(space, _, addr, length) =>
      var a := Intended(c.regs, space, addr, length, c.regs.barReadCb, c.regs.cfg0ReadCb);
      if a.None? then Nothing else Serve(tlp, a.value)
    case WriteOp(space, addr, data) =>
      var a := Intended(c.regs, space, addr, |data|, c.regs.barWriteCb, c.regs.cfg0WriteCb);
      if a.None? then Nothing else Store(a.value, data)
  }

  lemma ReactRequest(c: Client, tlp: seq<byte>, op: Op)
    requires Means(tlp, op)
    ensures WellFormed(tlp) && 7 + |tlp| <= CLIENT_BUFFER_SIZE && React(c, tlp) == (c, Taken(c, tlp, op))
  {
    match op
    case ReadOp(space, tag, addr, length) =>
      assert |tlp| <= 16;
      hide ReadTlp, React, Intended, WellFormed;
      ReactRead(c, space, tag, addr, length);
    case WriteOp(space, addr, data) =>
      var g :| Garbage(g, addr, |data|) && tlp == WriteTlp(WriteKind(space), g, addr, data);
      hide WriteTlp, React, Intended, WellFormed;
      ReactWrite(c, space, g, addr, data);
      WriteTlpSize(WriteKind(space), g, addr, data);
  }

  lemma ReadOpFields(tlp: seq<byte>, op: Op)
    requires Means(tlp, op) && op.ReadOp?
    ensures WellFormed(tlp) && tlp[6] == op.tag < 32 && TlpDataLengthBytes(tlp) == op.length
  {
    ReadTlpShape(ReadKind(op.space), op.tag, op.addr, op.length);
    ReadTlpLengths(ReadKind(op.space), op.tag, op.addr, op.length);
    hide ReadTlp, TlpDataLengthBytes, WellFormed;
  }

  /** The TLP of a completion delivers what it says, to the tag it says. */
  ghost predicate Brings(tlp: seq<byte>, tag: nat, delivers: seq<Delivery>) {
    exists req, result :: AnswerTo(tlp, tag, delivers, req, result)
  }

  ghost predicate AnswerTo(tlp: seq<byte>, tag: nat, delivers: seq<Delivery>, req: seq<byte>, result: ReadResult) {
    && WellFormed(req) && req[6] == tag < 32 && (result.ReadData? ==> |result.data| == TlpDataLengthBytes(req))
    && tlp == CompletionTlp(req, result)
    && delivers == if result.ReadData? then [(tag, Counted(result.data))] else []
  }

  ghost predicate ValidUp(m: Up) {
    m.Completion? ==> Brings(m.tlp, m.tag, m.delivers)
  }

  /** What the host does with a completion, besides acknowledging it. */
  function HostTaken(c: Client, delivers: seq<Delivery>): (Client, Reaction) {
    if delivers == [] || delivers[0].0 >= 32 || c.completionCb[delivers[0].0].None? then (c, Nothing)
    else
      var t := delivers[0].0;
      (c.(completionCb := c.completionCb[t := None]), Complete(c.completionCb[t].value, delivers[0].1))
  }

  lemma ReactCompletion(c: Client, tlp: seq<byte>, tag: nat, delivers: seq<Delivery>)
    requires Brings(tlp, tag, delivers)
    ensures WellFormed(tlp) && 7 + |tlp| <= CLIENT_BUFFER_SIZE && React(c, tlp) == HostTaken(c, delivers)
    ensures |delivers| <= 1 && tag < 32 && (delivers != [] ==> delivers[0].0 == tag)
  {
    var req, result :| AnswerTo(tlp, tag, delivers, req, result);
    assert |tlp| <= 4108;
    match result
    case ReadData(data) =>
      CompletionDelivered(req, data);
      hide CompletionTlp, WellFormed, TlpDataLengthBytes, CplData, CplTag;
    case ReadError =>
      FailureDelivered(req);
      hide CompletionTlp, WellFormed, TlpDataLengthBytes;
  }

  // ---------------------------------------------------------------- one frame at the device

  /** The completion the device sends for a read: none when no callback is registered. */
  ghost function Completions(dev: Client, mock: Mock, msg: Down): (cpl: seq<Up>)
    requires ValidDown(msg)
  {
    if msg.DownAck? || msg.op.WriteOp? then []
    else
      match Intended(dev.regs, msg.op.space, msg.op.addr, msg.op.length, dev.regs.barReadCb, dev.regs.cfg0ReadCb)
      case None => []
      case Some(a) =>
        ReadOpFields(msg.tlp, msg.op);
        var result := MockRead(mock, a.cb, a.addr, msg.op.length);
        [Completion(dev.seqno + 1, CompletionTlp(msg.tlp, result), msg.op.tag,
                    if result.ReadData? then [(msg.op.tag, Counted(result.data))] else [])]
  }

  lemma CompletionsAnswer(dev: Client, mock: Mock, msg: Down)
    requires ValidDown(msg)
    ensures var cpl := Completions(dev, mock, msg);
      && |cpl| <= 1
      && (if cpl == [] then Answered(dev.regs, mock, msg) == []
          else && ValidUp(cpl[0]) && cpl[0].Completion? && cpl[0].seqno == dev.seqno + 1
               && msg.Request? && msg.op.ReadOp? && cpl[0].tag == msg.op.tag
               && cpl[0].delivers == Answered(dev.regs, mock, msg))
  {
    if msg.Request? && msg.op.ReadOp? {
      ReadOpFields(msg.tlp, msg.op);
      hide Means, Intended, MockRead, CompletionTlp, TlpDataLengthBytes, WellFormed, Counted;
      var a := Intended(dev.regs, msg.op.space, msg.op.addr, msg.op.length, dev.regs.barReadCb, dev.regs.cfg0ReadCb);
      if a.Some? {
        var result := MockRead(mock, a.value.cb, a.value.addr, msg.op.length);
        var cpl := Completions(dev, mock, msg);
        assert AnswerTo(cpl[0].tlp, cpl[0].tag, cpl[0].delivers, msg.tlp, result);
      }
    }
  }

  /** The stream towards the host after the device executed a message. */
  ghost function Answering(b: seq<Up>, dev: Client, mock: Mock, msg: Down): seq<Up>
    requires ValidDown(msg)
  {
    if msg.DownAck? then b else b + [UpAck(msg.seqno % 4096)] + Completions(dev, mock, msg)
  }

  /** The system after the device has taken one message off its stream. */
  ghost function Executed(s: Sys, msg: Down, rest: seq<byte>): Sys
    requires ValidDown(msg)
  {
    if msg.DownAck? then s.(toDev := rest, devAcks := s.devAcks + [msg.acked % 4096])
    else
      var (mock, regs) := Applied(s.dev.regs, s.mock, msg);
      var cpl := Completions(s.dev, s.mock, msg);
      s.(toDev := rest, mock := mock, dev := s.dev.(regs := regs, seqno := s.dev.seqno + |cpl|),
         toHost := s.toHost + AckFrame(DLLP_ACK, msg.seqno % 4096) + (if cpl == [] then [] else UpFrame(cpl[0])))
  }

  lemma DevServes(s: Sys, msg: Down, r: Reception)
    requires ValidDown(msg) && msg.Request? && r.consumed <= |s.toDev| && r.client == s.dev
    requires r.reaction == Taken(s.dev, msg.tlp, msg.op) && Servable(r.reaction)
    requires r.ack == AckFrame(DLLP_ACK, msg.seqno % 4096)
    ensures DevNext(s, r) == Executed(s, msg, s.toDev[r.consumed..])
  {
    hide MockWrite, Intended, AckFrame, TlpFrame, CompletionTlp, TlpDataLengthBytes, WellFormed, MockRead, Counted,
      Means;
    assert s.toHost + r.ack + [] == s.toHost + r.ack;
    if msg.op.ReadOp? {
      ReadOpFields(msg.tlp, msg.op);
    }
  }

  lemma Rest<T>(x: seq<T>, y: seq<T>)
    ensures (x + y)[|x|..] == y
  {
  }

  lemma ReceiveRequest(c: Client, msg: Down, rest: seq<byte>)
    requires ValidDown(msg) && msg.Request?
    ensures Receive(c, DownFrame(msg) + rest)
      == Reception(c, |DownFrame(msg)|, AckFrame(DLLP_ACK, msg.seqno % 4096), Taken(c, msg.tlp, msg.op))
  {
    hide Means, Receive, AckFrame, TlpFrame, React, WellFormed, Taken, ClientState.Valid, Registers.Valid;
    ReactRequest(c, msg.tlp, msg.op);
    assert msg.rsvd % 16 == msg.rsvd;
    ReceiveTlp(c, msg.rsvd, msg.seqno, msg.tlp, rest);
  }

  lemma DevTakesAck(s: Sys, n: nat, rest: seq<byte>)
    requires s.toDev == AckFrame(DLLP_ACK, n) + rest && s.toDev != []
    ensures Next(s, DevReceive) == s.(toDev := rest, devAcks := s.devAcks + [n % 4096])
  {
    hide Receive, AckFrame;
    ReceiveAck(s.dev, DLLP_ACK, n, rest);
    Rest(AckFrame(DLLP_ACK, n), rest);
    assert s.toHost + [] == s.toHost;
  }

  /** One call of `warppipe_client_read` on the device executes the message at the head. */
  lemma DevTakes(s: Sys, msg: Down, rest: seq<byte>)
    requires ValidDown(msg) && s.toDev == DownFrame(msg) + rest && s.toDev != []
    ensures Next(s, DevReceive) == Executed(s, msg, rest)
  {
    if msg.DownAck? {
      hide Next, AckFrame, ValidDown, Registers.Valid, MockState.Valid;
      DevTakesAck(s, msg.acked, rest);
    } else {
      hide ValidDown, Receive, AckFrame, Taken, DevNext, Executed, DownFrame, ClientState.Valid, Registers.Valid,
        MockState.Valid;
      ReceiveRequest(s.dev, msg, rest);
      Rest(DownFrame(msg), rest);
      DevServes(s, msg, Receive(s.dev, s.toDev));
    }
  }

  // ---------------------------------------------------------------- one frame at the host

  /** The system after the host has taken one message off its stream. */
  function Delivered(s: Sys, msg: Up, rest: seq<byte>): Sys {
    match msg
    case UpAck(n) => s.(toHost := rest, hostAcks := s.hostAcks + [n % 4096])
    case Completion(seqno, _, _, delivers) =>
      var (host, reaction) := HostTaken(s.host, delivers);
      s.(toHost := rest, toDev := s.toDev + AckFrame(DLLP_ACK, seqno % 4096), host := host,
         log := if reaction.Complete? then s.log + [(reaction.cb, reaction.payload)] else s.log)
  }

  lemma ReceiveCompletion(c: Client, msg: Up, rest: seq<byte>)
    requires ValidUp(msg) && msg.Completion?
    ensures var (c', reaction) := HostTaken(c, msg.delivers);
      Receive(c, UpFrame(msg) + rest)
      == Reception(c', |UpFrame(msg)|, AckFrame(DLLP_ACK, msg.seqno % 4096), reaction)
  {
    hide Brings, Receive, AckFrame, TlpFrame, React, WellFormed, HostTaken, ClientState.Valid, Registers.Valid;
    ReactCompletion(c, msg.tlp, msg.tag, msg.delivers);
    ReceiveTlp(c, 0, msg.seqno, msg.tlp, rest);
  }

  lemma HostTakesAck(s: Sys, n: nat, rest: seq<byte>)
    requires s.toHost == AckFrame(DLLP_ACK, n) + rest && s.toHost != []
    ensures Next(s, HostReceive) == s.(toHost := rest, hostAcks := s.hostAcks + [n % 4096])
  {
    hide Receive, AckFrame;
    ReceiveAck(s.host, DLLP_ACK, n, rest);
    Rest(AckFrame(DLLP_ACK, n), rest);
    assert s.toDev + [] == s.toDev;
  }

  lemma HostTakes(s: Sys, msg: Up, rest: seq<byte>)
    requires ValidUp(msg) && s.toHost == UpFrame(msg) + rest && s.toHost != []
    ensures Next(s, HostReceive) == Delivered(s, msg, rest)
  {
    if msg.UpAck? {
      hide Next, AckFrame;
      HostTakesAck(s, msg.acked, rest);
    } else {
      hide ValidUp, Receive, AckFrame, UpFrame, HostNext, Delivered, HostTaken, ClientState.Valid, Registers.Valid,
        MockState.Valid;
      ReceiveCompletion(s.host, msg, rest);
      Rest(UpFrame(msg), rest);
      HostCompletes(s, msg, Receive(s.host, s.toHost));
    }
  }

  lemma HostCompletes(s: Sys, msg: Up, r: Reception)
    requires msg.Completion? && r.consumed <= |s.toHost| && (r.client, r.reaction) == HostTaken(s.host, msg.delivers)
    requires r.ack == AckFrame(DLLP_ACK, msg.seqno % 4096)
    ensures HostNext(s, r) == Delivered(s, msg, s.toHost[r.consumed..])
  {
    hide AckFrame, ClientState.Valid, Registers.Valid, MockState.Valid;
  }

  // ---------------------------------------------------------------- the invariant

  /** The sequence numbers of the first n TLPs an endpoint sends. */
  function Numbers(n: nat): (r: seq<nat>)
    ensures |r| == n && forall k :: 0 <= k < n ==> r[k] == (k + 1) % 4096
  {
    if n == 0 then [] else Numbers(n - 1) + [n % 4096]
  }

  /** The answers not yet delivered, in flight as (tag, data), against the callbacks made and the
      answers of the specification: same order, same bytes, and the slot of each tag holds the
      callback of the read it belongs to. */
  ghost predicate Matched(slots: seq<Callback>, log: seq<Delivery>, flight: seq<Delivery>, answers: seq<Delivery>)
    requires |slots| == 32
  {
    && |log| + |flight| == |answers|
    && log == answers[..|log|]
    && forall i :: 0 <= i < |flight| ==>
         && flight[i].0 < 32
         && slots[flight[i].0] == Some(answers[|log| + i].0)
         && flight[i].1 == answers[|log| + i].1
  }

  /** Reads are numbered in the order they are issued. */
  ghost predicate Ordered(answers: seq<Delivery>, issued: nat) {
    && (forall i :: 0 <= i < |answers| ==> answers[i].0 < issued)
    && (forall i, j :: 0 <= i < j < |answers| ==> answers[i].0 < answers[j].0)
  }

  /** A tag is the number of its read modulo 32, and a read that was never answered keeps its slot,
      which stops the tag counter 32 reads later. */
  ghost predicate Tagged(readTag: nat, slots: seq<Callback>, answers: seq<Delivery>, issued: nat)
    requires |slots| == 32
  {
    && readTag == issued % 32
    && (forall t :: 0 <= t < 32 && slots[t].Some? ==> slots[t].value < issued && slots[t].value % 32 == t)
    && (forall f: nat :: f < issued && Unanswered(answers, f) ==> slots[f % 32] == Some(f) && issued <= f + 32)
  }

  ghost predicate Unanswered(answers: seq<Delivery>, f: nat) {
    forall i :: 0 <= i < |answers| ==> answers[i].0 != f
  }

  /** The streams hold exactly the frames of these messages. */
  ghost predicate Streams(s: Sys, a: seq<Down>, b: seq<Up>) {
    && s.toDev == DownBytes(a) && s.toHost == UpBytes(b)
    && (forall m :: m in a ==> ValidDown(m)) && (forall m :: m in b ==> ValidUp(m))
  }

  /** Acknowledgements received, then in flight, then TLPs in flight: every number sent, in order. */
  ghost predicate Tally(acked: seq<nat>, acks: seq<nat>, tlps: seq<nat>, sent: nat) {
    acked + acks + tlps == Numbers(sent)
  }

  ghost predicate Conserved(s: Sys, a: seq<Down>, b: seq<Up>) {
    && Tally(s.hostAcks, UpAcks(b), DownSeqs(a), s.host.seqno)
    && Tally(s.devAcks, DownAcks(a), UpSeqs(b), s.dev.seqno)
  }

  function Flight(s: Sys, a: seq<Down>, b: seq<Up>): seq<Delivery> {
    UpReads(b) + Pending(s.dev.regs, s.mock, a)
  }

  ghost predicate Reads(s: Sys, sp: Spec, a: seq<Down>, b: seq<Up>) {
    && AppliedAll(s.dev.regs, s.mock, a) == (sp.mock, sp.regs)
    && s.issued == sp.issued
    && Matched(s.host.completionCb, s.log, Flight(s, a, b), sp.answers)
    && Ordered(sp.answers, sp.issued)
  }

  /** The answers under way find their callbacks; nothing is said about how tags are chosen. */
  ghost predicate Link(s: Sys, sp: Spec, a: seq<Down>, b: seq<Up>) {
    Streams(s, a, b) && Conserved(s, a, b) && Reads(s, sp, a, b)
  }

  /** No two reads in flight share a tag, and each of their tags has an occupied slot. */
  ghost predicate Exclusive(slots: seq<Callback>, tags: seq<nat>)
    requires |slots| == 32
  {
    && (forall i :: 0 <= i < |tags| ==> tags[i] < 32 && slots[tags[i]].Some?)
    && (forall i, j :: 0 <= i < j < |tags| ==> tags[i] != tags[j])
  }

  function TagsInFlight(a: seq<Down>, b: seq<Up>): seq<nat> {
    UpTags(b) + DownTags(a)
  }

  /** The invariant, with the messages in flight as witnesses. */
  ghost predicate Inv(s: Sys, sp: Spec, a: seq<Down>, b: seq<Up>) {
    && Link(s, sp, a, b) && Tagged(s.host.readTag, s.host.completionCb, sp.answers, sp.issued)
    && Exclusive(s.host.completionCb, TagsInFlight(a, b))
  }

  ghost predicate Good(s: Sys, sp: Spec) {
    exists a, b :: Inv(s, sp, a, b)
  }

  /** The invariant with a bound on the work left in the streams. */
  ghost predicate GoodWithin(s: Sys, sp: Spec, n: nat) {
    exists a, b :: Inv(s, sp, a, b) && Weight(a, b) <= n
  }

  // ---------------------------------------------------------------- slots and answers

  /** No answer under way carries this tag. */
  ghost predicate TagFree(flight: seq<Delivery>, tag: nat) {
    forall i :: 0 <= i < |flight| ==> flight[i].0 != tag
  }

  lemma EmptySlotIsFree(slots: seq<Callback>, log: seq<Delivery>, flight: seq<Delivery>, answers: seq<Delivery>,
                        tag: nat)
    requires |slots| == 32 && tag < 32 && slots[tag] == None && Matched(slots, log, flight, answers)
    ensures TagFree(flight, tag)
  {
  }

  lemma MatchedIssue(slots: seq<Callback>, log: seq<Delivery>, flight: seq<Delivery>, answers: seq<Delivery>,
                     tag: nat, id: nat, more: seq<seq<byte>>)
    requires |slots| == 32 && tag < 32 && |more| <= 1
    requires Matched(slots, log, flight, answers) && TagFree(flight, tag)
    ensures Matched(slots[tag := Some(id)], log,
                    flight + (if more == [] then [] else [(tag, more[0])]),
                    answers + (if more == [] then [] else [(id, more[0])]))
  {
    var answers' := answers + (if more == [] then [] else [(id, more[0])]);
    assert answers'[..|log|] == answers[..|log|];
  }

  lemma MatchedDeliver(slots: seq<Callback>, log: seq<Delivery>, flight: seq<Delivery>, answers: seq<Delivery>,
                       issued: nat)
    requires |slots| == 32 && |flight| > 0
    requires Matched(slots, log, flight, answers) && Ordered(answers, issued)
    ensures var t := flight[0].0;
      && t < 32 && slots[t] == Some(answers[|log|].0)
      && Matched(slots[t := None], log + [(slots[t].value, flight[0].1)], flight[1..], answers)
  {
    assert answers[|log|] == (slots[flight[0].0].value, flight[0].1);
    assert answers[..|log| + 1] == log + [answers[|log|]];
  }

  lemma TaggedIssue(readTag: nat, slots: seq<Callback>, answers: seq<Delivery>, issued: nat, more: seq<seq<byte>>)
    requires readTag < 32 == |slots| && Tagged(readTag, slots, answers, issued) && slots[readTag] == None && |more| <= 1
    ensures Tagged((readTag + 1) % 32, slots[readTag := Some(issued)],
                   answers + (if more == [] then [] else [(issued, more[0])]), issued + 1)
  {
    var answers' := answers + (if more == [] then [] else [(issued, more[0])]);
    var slots' := slots[readTag := Some(issued)];
    NextTag(issued);
    hide Unanswered;
    forall f: nat | f < issued + 1 && Unanswered(answers', f)
      ensures slots'[f % 32] == Some(f) && issued + 1 <= f + 32
    {
      if f == issued {
      } else {
        FewerUnanswered(answers, answers', f);
        assert slots[f % 32] == Some(f);
        assert f % 32 != issued % 32;
      }
    }
  }

  lemma NextTag(issued: nat)
    ensures (issued % 32 + 1) % 32 == (issued + 1) % 32
  {
  }

  lemma FewerUnanswered(answers: seq<Delivery>, answers': seq<Delivery>, f: nat)
    requires answers <= answers' && Unanswered(answers', f)
    ensures Unanswered(answers, f)
  {
    forall i | 0 <= i < |answers| ensures answers[i].0 != f { assert answers'[i] == answers[i]; }
  }

  lemma TaggedDeliver(readTag: nat, slots: seq<Callback>, answers: seq<Delivery>, issued: nat, k: nat, t: nat)
    requires |slots| == 32 && Tagged(readTag, slots, answers, issued) && Ordered(answers, issued)
    requires k < |answers| && t < 32 && slots[t] == Some(answers[k].0)
    ensures Tagged(readTag, slots[t := None], answers, issued)
  {
    forall f: nat | f < issued && Unanswered(answers, f)
      ensures slots[t := None][f % 32] == Some(f) && issued <= f + 32
    {
      assert answers[k].0 != f;
    }
  }

  lemma OrderedIssue(answers: seq<Delivery>, issued: nat, more: seq<seq<byte>>)
    requires Ordered(answers, issued) && |more| <= 1
    ensures Ordered(answers + (if more == [] then [] else [(issued, more[0])]), issued + 1)
  {
  }

  // ---------------------------------------------------------------- acknowledgements

  lemma TallySend(acked: seq<nat>, acks: seq<nat>, tlps: seq<nat>, sent: nat)
    requires Tally(acked, acks, tlps, sent)
    ensures Tally(acked, acks, tlps + [(sent + 1) % 4096], sent + 1)
  {
    assert acked + acks + (tlps + [(sent + 1) % 4096]) == acked + acks + tlps + [(sent + 1) % 4096];
  }

  lemma TallyReceive(acked: seq<nat>, acks: seq<nat>, q: nat, tlps: seq<nat>, sent: nat)
    requires Tally(acked, acks, [q] + tlps, sent)
    ensures Tally(acked, acks + [q], tlps, sent)
  {
    assert acked + (acks + [q]) + tlps == acked + acks + ([q] + tlps);
  }

  lemma TallyLog(acked: seq<nat>, q: nat, acks: seq<nat>, tlps: seq<nat>, sent: nat)
    requires Tally(acked, [q] + acks, tlps, sent)
    ensures Tally(acked + [q], acks, tlps, sent)
  {
    assert (acked + [q]) + acks + tlps == acked + ([q] + acks) + tlps;
  }

  // ---------------------------------------------------------------- every step keeps the invariant

  /** Bytes and acknowledgements, when the host sends a TLP. */
  lemma SendKeeps(s: Sys, s': Sys, a: seq<Down>, b: seq<Up>, msg: Down)
    requires Streams(s, a, b) && Conserved(s, a, b) && ValidDown(msg) && msg.Request? && msg.seqno == s.host.seqno + 1
    requires s'.toDev == s.toDev + DownFrame(msg) && s'.toHost == s.toHost
    requires s'.host.seqno == s.host.seqno + 1 && s'.dev.seqno == s.dev.seqno
    requires s'.hostAcks == s.hostAcks && s'.devAcks == s.devAcks
    ensures Streams(s', a + [msg], b) && Conserved(s', a + [msg], b)
  {
    hide DownFrame, Tally, ValidDown, ValidUp, DownBytes, UpBytes, DownSeqs, DownAcks, UpSeqs, UpAcks;
    DownAppend(a, msg);
    DownNumbers(a, msg);
    TallySend(s.hostAcks, UpAcks(b), DownSeqs(a), s.host.seqno);
  }

  /** The device and its answers, when the host issues a read. */
  lemma ReadKeeps(s: Sys, s': Sys, sp: Spec, a: seq<Down>, b: seq<Up>, msg: Down)
    requires Reads(s, sp, a, b) && msg.Request? && msg.op.ReadOp? && msg.op.tag == s.host.readTag
    requires TagFree(Flight(s, a, b), s.host.readTag)
    requires s'.dev == s.dev && s'.mock == s.mock && s'.log == s.log && s'.issued == s.issued + 1
    requires s'.host.completionCb == s.host.completionCb[s.host.readTag := Some(s.issued)]
    ensures Reads(s', SpecNext(sp, HostRead(msg.op.space, msg.op.addr, msg.op.length)), a + [msg], b)
  {
    hide LocalRead, Matched, Ordered, Counted, Registers.Valid, MockState.Valid, TagFree;
    PendingAppend(s.dev.regs, s.mock, a, msg);
    var d := LocalRead(sp.regs, sp.mock, msg.op.space, msg.op.addr, msg.op.length);
    var more := if d.None? then [] else [Counted(d.value)];
    MatchedIssue(s.host.completionCb, s.log, Flight(s, a, b), sp.answers, s.host.readTag, s.issued, more);
    OrderedIssue(sp.answers, sp.issued, more);
    Assoc(UpReads(b), Pending(s.dev.regs, s.mock, a), Answered(sp.regs, sp.mock, msg));
    assert sp.answers + [] == sp.answers;
  }

  ghost function ReadMsg(c: Client, step: Step): Down
    requires step.HostRead? && step.addr < U64
  {
    Request(0, c.seqno + 1, ReadTlp(ReadKind(step.space), c.readTag, step.addr, step.length),
            ReadOp(step.space, c.readTag, step.addr, step.length))
  }

  lemma NextRead(s: Sys, step: Step)
    requires step.HostRead? && Feasible(s, step)
    ensures var (host, frame) := IssueRead(s.host, step.space, step.addr, step.length, s.issued);
      && Next(s, step) == s.(host := host, toDev := s.toDev + frame, issued := s.issued + 1)
      && frame == DownFrame(ReadMsg(s.host, step)) && ValidDown(ReadMsg(s.host, step))
  {
    hide ReadTlp, TlpFrame, Registers.Valid, MockState.Valid;
    assert s.host.Valid();
  }

  /** A read whose tag no answer under way carries joins the stream. */
  lemma LinkRead(s: Sys, sp: Spec, a: seq<Down>, b: seq<Up>, step: Step)
    requires Link(s, sp, a, b) && step.HostRead? && Feasible(s, step) && TagFree(Flight(s, a, b), s.host.readTag)
    ensures Link(Next(s, step), SpecNext(sp, step), a + [ReadMsg(s.host, step)], b)
  {
    hide ReadTlp, TlpFrame, DownFrame, ValidDown, Next, SpecNext, Streams, Conserved, Reads, Registers.Valid,
      MockState.Valid,
      TagFree;
    NextRead(s, step);
    var msg, s' := ReadMsg(s.host, step), Next(s, step);
    SendKeeps(s, s', a, b, msg);
    ReadKeeps(s, s', sp, a, b, msg);
  }

  lemma SpecRead(sp: Spec, step: Step) returns (more: seq<seq<byte>>)
    requires step.HostRead?
    ensures |more| <= 1 && SpecNext(sp, step).issued == sp.issued + 1
    ensures SpecNext(sp, step).answers == sp.answers + (if more == [] then [] else [(sp.issued, more[0])])
  {
    hide LocalRead, Counted;
    var d := LocalRead(sp.regs, sp.mock, step.space, step.addr, step.length);
    more := if d.None? then [] else [Counted(d.value)];
    assert sp.answers + [] == sp.answers;
  }

  lemma IssueReadKeeps(s: Sys, sp: Spec, a: seq<Down>, b: seq<Up>, step: Step)
    requires Inv(s, sp, a, b) && step.HostRead? && Enabled(s, step)
    ensures Inv(Next(s, step), SpecNext(sp, step), a + [ReadMsg(s.host, step)], b)
  {
    hide ReadTlp, TlpFrame, DownFrame, ValidDown, Next, SpecNext, Streams, Conserved, Link, Registers.Valid,
      MockState.Valid,
      Tagged, Exclusive, Matched;
    SlotIsFree(s, sp, a, b);
    LinkRead(s, sp, a, b, step);
    NextRead(s, step);
    var more := SpecRead(sp, step);
    TaggedIssue(s.host.readTag, s.host.completionCb, sp.answers, sp.issued, more);
    TagsAppend(a, ReadMsg(s.host, step));
    ExclusiveIssue(s.host.completionCb, UpTags(b), DownTags(a), s.host.readTag, s.issued);
  }

  lemma SlotIsFree(s: Sys, sp: Spec, a: seq<Down>, b: seq<Up>)
    requires Link(s, sp, a, b) && s.host.completionCb[s.host.readTag] == None
    ensures TagFree(Flight(s, a, b), s.host.readTag) && s.issued == sp.issued
  {
    hide Streams, Conserved, Flight, Matched, TagFree, Ordered;
    EmptySlotIsFree(s.host.completionCb, s.log, Flight(s, a, b), sp.answers, s.host.readTag);
  }

  lemma ExclusiveIssue(slots: seq<Callback>, x: seq<nat>, y: seq<nat>, tag: nat, id: nat)
    requires |slots| == 32 && tag < 32 && slots[tag] == None && Exclusive(slots, x + y)
    ensures Exclusive(slots[tag := Some(id)], x + (y + [tag]))
  {
    Assoc(x, y, [tag]);
  }

  lemma WriteKeeps(s: Sys, s': Sys, sp: Spec, a: seq<Down>, b: seq<Up>, msg: Down, garbage: seq<byte>)
    requires Reads(s, sp, a, b) && msg.Request? && msg.op.WriteOp?
    requires s'.dev == s.dev && s'.mock == s.mock && s'.log == s.log && s'.issued == s.issued
    requires s'.host.completionCb == s.host.completionCb
    ensures Reads(s', SpecNext(sp, HostWrite(msg.op.space, msg.op.addr, msg.op.data, garbage)), a + [msg], b)
  {
    hide LocalWrite, Matched, Ordered, Registers.Valid, MockState.Valid;
    PendingAppend(s.dev.regs, s.mock, a, msg);
    assert Flight(s', a + [msg], b) == Flight(s, a, b);
  }

  ghost function WriteMsg(c: Client, step: Step): Down
    requires step.HostWrite? && Carried(step.addr, |step.data|)
    requires |step.garbage| == TRANSPORT_SIZE + 4 * Dwords(step.addr % 4, |step.data|)
  {
    Request(step.garbage[1] / 16, c.seqno + 1, WriteTlp(WriteKind(step.space), step.garbage[3..], step.addr, step.data),
            WriteOp(step.space, step.addr, step.data))
  }

  lemma NextWrite(s: Sys, step: Step)
    requires step.HostWrite? && Feasible(s, step)
    ensures var (host, frame) := IssueWrite(s.host, step.space, step.addr, step.data, step.garbage);
      && Next(s, step) == s.(host := host, toDev := s.toDev + frame)
      && frame == DownFrame(WriteMsg(s.host, step)) && ValidDown(WriteMsg(s.host, step))
  {
    hide WriteTlp, TlpFrame, ClientState.Valid, Registers.Valid, MockState.Valid;
    assert Garbage(step.garbage[3..], step.addr, |step.data|);
    assert step.garbage[1] / 16 % 16 == step.garbage[1] / 16;
  }

  lemma LinkWrite(s: Sys, sp: Spec, a: seq<Down>, b: seq<Up>, step: Step)
    requires Link(s, sp, a, b) && step.HostWrite? && Feasible(s, step)
    ensures Link(Next(s, step), SpecNext(sp, step), a + [WriteMsg(s.host, step)], b)
  {
    hide WriteTlp, TlpFrame, DownFrame, ValidDown, Next, SpecNext, Streams, Conserved, Reads, Registers.Valid,
      MockState.Valid;
    NextWrite(s, step);
    var msg, s' := WriteMsg(s.host, step), Next(s, step);
    SendKeeps(s, s', a, b, msg);
    WriteKeeps(s, s', sp, a, b, msg, step.garbage);
  }

  lemma IssueWriteKeeps(s: Sys, sp: Spec, a: seq<Down>, b: seq<Up>, step: Step)
    requires Inv(s, sp, a, b) && step.HostWrite? && Enabled(s, step)
    ensures Inv(Next(s, step), SpecNext(sp, step), a + [WriteMsg(s.host, step)], b)
  {
    hide WriteTlp, TlpFrame, DownFrame, ValidDown, Next, Link, Exclusive, Tagged, LocalWrite, Registers.Valid,
      MockState.Valid;
    LinkWrite(s, sp, a, b, step);
    NextWrite(s, step);
    TagsAppend(a, WriteMsg(s.host, step));
  }

  /** The stream towards the host after the device executed a message, projection by projection. */
  lemma AnsweringProjections(b: seq<Up>, dev: Client, mock: Mock, msg: Down)
    requires ValidDown(msg) && msg.Request?
    ensures var cpl := Completions(dev, mock, msg);
      var b' := Answering(b, dev, mock, msg);
      && |cpl| <= 1
      && UpBytes(b') == UpBytes(b) + AckFrame(DLLP_ACK, msg.seqno % 4096) + (if cpl == [] then [] else UpFrame(cpl[0]))
      && UpReads(b') == UpReads(b) + Answered(dev.regs, mock, msg)
      && (forall m :: m in b' ==> m in b || ValidUp(m))
  {
    hide Completions, AckFrame, ValidUp, ValidDown, Answered, UpReads, UpBytes, ClientState.Valid, Registers.Valid,
      MockState.Valid;
    CompletionsAnswer(dev, mock, msg);
    var ack, cpl := UpAck(msg.seqno % 4096), Completions(dev, mock, msg);
    AckIsValid(msg.seqno % 4096);
    UpAppend(b, ack);
    if cpl == [] {
      assert b + [ack] + cpl == b + [ack];
      assert UpReads(b) + [] == UpReads(b);
      var frame := AckFrame(DLLP_ACK, msg.seqno % 4096);
      assert UpBytes(b) + frame + [] == UpBytes(b) + frame;
    } else {
      assert cpl == [cpl[0]];
      UpAppend(b + [ack], cpl[0]);
    }
  }

  lemma AnsweringNumbers(b: seq<Up>, dev: Client, mock: Mock, msg: Down)
    requires ValidDown(msg) && msg.Request?
    ensures var cpl := Completions(dev, mock, msg);
      var b' := Answering(b, dev, mock, msg);
      && |cpl| <= 1 && UpAcks(b') == UpAcks(b) + [msg.seqno % 4096]
      && UpSeqs(b') == (if cpl == [] then UpSeqs(b) else UpSeqs(b) + [(dev.seqno + 1) % 4096])
  {
    hide Completions, AckFrame, ValidUp, ValidDown, Answered, UpAcks, UpSeqs, ClientState.Valid, Registers.Valid,
      MockState.Valid;
    CompletionsAnswer(dev, mock, msg);
    var ack, cpl := UpAck(msg.seqno % 4096), Completions(dev, mock, msg);
    UpNumbers(b, ack);
    ModMod(msg.seqno);
    if cpl == [] {
      assert b + [ack] + cpl == b + [ack];
    } else {
      assert cpl == [cpl[0]];
      UpNumbers(b + [ack], cpl[0]);
    }
  }

  lemma ModMod(n: nat)
    ensures n % 4096 % 4096 == n % 4096
  {
  }

  lemma AckIsValid(n: nat)
    ensures ValidUp(UpAck(n)) && ValidDown(DownAck(n))
  {
  }

  lemma ExecutedFields(s: Sys, msg: Down, rest: seq<byte>)
    requires ValidDown(msg)
    ensures var s' := Executed(s, msg, rest);
      && s'.host == s.host && s'.hostAcks == s.hostAcks
      && s'.devAcks == (if msg.DownAck? then s.devAcks + [msg.acked % 4096] else s.devAcks)
      && s'.dev.seqno == s.dev.seqno + (if msg.DownAck? then 0 else |Completions(s.dev, s.mock, msg)|)
  {
    hide ValidDown, Completions, Applied, AckFrame, UpFrame;
  }

  lemma ExecutedConserved(s: Sys, s': Sys, a: seq<Down>, b: seq<Up>)
    requires Conserved(s, a, b) && a != [] && ValidDown(a[0]) && s' == Executed(s, a[0], DownBytes(a[1..]))
    ensures Conserved(s', a[1..], Answering(b, s.dev, s.mock, a[0]))
  {
    hide Tally, ValidDown, UpSeqs, UpAcks, DownBytes, Completions, Executed, ClientState.Valid, Registers.Valid,
      MockState.Valid;
    var msg := a[0];
    ExecutedFields(s, msg, DownBytes(a[1..]));
    if msg.DownAck? {
      TallyLog(s.devAcks, msg.acked % 4096, DownAcks(a[1..]), UpSeqs(b), s.dev.seqno);
    } else {
      hide Answering;
      AnsweringNumbers(b, s.dev, s.mock, msg);
      TallyReceive(s.hostAcks, UpAcks(b), msg.seqno % 4096, DownSeqs(a[1..]), s.host.seqno);
      TallySend(s.devAcks, DownAcks(a[1..]), UpSeqs(b), s.dev.seqno);
    }
  }

  /** The answers under way, and the device they will meet, are the same before and after. */
  lemma ExecutedFlight(s: Sys, s': Sys, a: seq<Down>, b: seq<Up>)
    requires a != [] && ValidDown(a[0]) && s' == Executed(s, a[0], DownBytes(a[1..]))
    ensures Flight(s', a[1..], Answering(b, s.dev, s.mock, a[0])) == Flight(s, a, b)
    ensures AppliedAll(s'.dev.regs, s'.mock, a[1..]) == AppliedAll(s.dev.regs, s.mock, a)
    ensures s'.issued == s.issued && s'.log == s.log && s'.host == s.host
  {
    var msg, rest := a[0], a[1..];
    hide LocalRead, LocalWrite, ValidDown, UpReads, UpBytes, DownBytes, Completions, AckFrame, Registers.Valid,
      MockState.Valid;
    if msg.Request? {
      AnsweringProjections(b, s.dev, s.mock, msg);
      var (mock, regs) := Applied(s.dev.regs, s.mock, msg);
      Assoc(UpReads(b), Answered(s.dev.regs, s.mock, msg), Pending(regs, mock, rest));
    } else {
      assert [] + Pending(s.dev.regs, s.mock, rest) == Pending(s.dev.regs, s.mock, rest);
    }
  }

  lemma ExecutedReads(s: Sys, s': Sys, sp: Spec, a: seq<Down>, b: seq<Up>)
    requires Reads(s, sp, a, b) && a != [] && ValidDown(a[0]) && s' == Executed(s, a[0], DownBytes(a[1..]))
    ensures Reads(s', sp, a[1..], Answering(b, s.dev, s.mock, a[0]))
  {
    hide Flight, AppliedAll, Matched, Ordered, Executed, Answering, ValidDown;
    ExecutedFlight(s, s', a, b);
  }

  lemma ExecutedStreams(s: Sys, s': Sys, a: seq<Down>, b: seq<Up>)
    requires Streams(s, a, b) && a != [] && ValidDown(a[0]) && s' == Executed(s, a[0], DownBytes(a[1..]))
    ensures Streams(s', a[1..], Answering(b, s.dev, s.mock, a[0]))
  {
    var msg := a[0];
    hide ValidDown, ValidUp, UpReads, UpSeqs, UpAcks, UpBytes, DownBytes, Completions, Applied, AckFrame,
      Registers.Valid, MockState.Valid;
    assert forall m :: m in a[1..] ==> m in a;
    if msg.Request? {
      AnsweringProjections(b, s.dev, s.mock, msg);
    }
  }

  lemma AnsweringTags(b: seq<Up>, dev: Client, mock: Mock, msg: Down)
    requires ValidDown(msg) && msg.Request?
    ensures var cpl := Completions(dev, mock, msg);
      UpTags(Answering(b, dev, mock, msg))
      == if cpl == [] then UpTags(b) else if msg.op.ReadOp? then UpTags(b) + [msg.op.tag] else []
    ensures msg.op.WriteOp? ==> Completions(dev, mock, msg) == []
  {
    hide Completions, ValidDown, ValidUp, Answered, UpTags, Registers.Valid, MockState.Valid, ClientState.Valid;
    CompletionsAnswer(dev, mock, msg);
    var ack, cpl := UpAck(msg.seqno % 4096), Completions(dev, mock, msg);
    UpTagsAppend(b, ack);
    if cpl == [] {
      assert b + [ack] + cpl == b + [ack];
    } else {
      assert cpl == [cpl[0]];
      UpTagsAppend(b + [ack], cpl[0]);
    }
  }

  /** A read request that is answered passes its tag on to the completion. */
  lemma ExecutedTags(slots: seq<Callback>, a: seq<Down>, b: seq<Up>, dev: Client, mock: Mock)
    requires |slots| == 32 && a != [] && ValidDown(a[0]) && Exclusive(slots, TagsInFlight(a, b))
    ensures Exclusive(slots, TagsInFlight(a[1..], Answering(b, dev, mock, a[0])))
  {
    hide Completions, ValidDown, UpTags, Registers.Valid, MockState.Valid, ClientState.Valid, Exclusive;
    var msg := a[0];
    if msg.Request? {
      hide Answering;
      AnsweringTags(b, dev, mock, msg);
      if Completions(dev, mock, msg) == [] {
        FewerTags(slots, UpTags(b), DownTags(a), DownTags(a[1..]));
      } else {
        Assoc(UpTags(b), [msg.op.tag], DownTags(a[1..]));
      }
    }
  }

  lemma FewerTags(slots: seq<Callback>, x: seq<nat>, y: seq<nat>, z: seq<nat>)
    requires |slots| == 32 && Exclusive(slots, x + y) && (y == z || (y != [] && y[1..] == z))
    ensures Exclusive(slots, x + z)
  {
    if y != z {
      assert forall i :: |x| <= i < |x + z| ==> (x + z)[i] == (x + y)[i + 1];
      assert forall i :: 0 <= i < |x| ==> (x + z)[i] == (x + y)[i];
    }
  }

  lemma LinkDev(s: Sys, s': Sys, sp: Spec, a: seq<Down>, b: seq<Up>)
    requires Link(s, sp, a, b) && s.toDev != [] && s' == Next(s, DevReceive)
    ensures a != [] && ValidDown(a[0]) && s'.host == s.host
    ensures Link(s', sp, a[1..], Answering(b, s.dev, s.mock, a[0]))
  {
    hide Next, Executed, Conserved, Reads, ValidDown, ValidUp, Answering, DownFrame;
    assert a != [] && a[0] in a;
    DevTakes(s, a[0], DownBytes(a[1..]));
    ExecutedFields(s, a[0], DownBytes(a[1..]));
    ExecutedStreams(s, s', a, b);
    ExecutedConserved(s, s', a, b);
    ExecutedReads(s, s', sp, a, b);
  }

  lemma DevReceiveKeeps(s: Sys, s': Sys, sp: Spec, a: seq<Down>, b: seq<Up>)
    requires Inv(s, sp, a, b) && s.toDev != [] && s' == Next(s, DevReceive)
    ensures Weight(a, b) > 0 && GoodWithin(s', sp, Weight(a, b) - 1)
  {
    hide Next, Link, ValidDown, Answering, Exclusive, TagsInFlight, Tagged;
    LinkDev(s, s', sp, a, b);
    ExecutedTags(s.host.completionCb, a, b, s.dev, s.mock);
    assert Inv(s', sp, a[1..], Answering(b, s.dev, s.mock, a[0]));
    ExecutedWeight(a, b, s.dev, s.mock);
  }

  lemma ExecutedWeight(a: seq<Down>, b: seq<Up>, dev: Client, mock: Mock)
    requires a != [] && ValidDown(a[0])
    ensures Weight(a[1..], Answering(b, dev, mock, a[0])) < Weight(a, b)
  {
    hide Completions, ValidDown, ValidUp, Answered, Registers.Valid, MockState.Valid, ClientState.Valid;
    if a[0].Request? {
      CompletionsAnswer(dev, mock, a[0]);
      ReplyWeight(b, a[0].seqno % 4096, Completions(dev, mock, a[0]));
    }
  }

  /** An acknowledgement and at most one completion weigh less than the request they answer. */
  lemma ReplyWeight(b: seq<Up>, n: nat, cpl: seq<Up>)
    requires |cpl| <= 1
    ensures UpWeight(b + [UpAck(n)] + cpl) <= UpWeight(b) + 3
  {
    UpWeightConcat(b, [UpAck(n)]);
    UpWeightConcat(b + [UpAck(n)], cpl);
    assert [UpAck(n)][1..] == [] && (cpl != [] ==> cpl[1..] == []);
  }

  // ---- the host

  ghost function Acking(a: seq<Down>, msg: Up): seq<Down> {
    if msg.UpAck? then a else a + [DownAck(msg.seqno % 4096)]
  }

  lemma DeliveredStreams(s: Sys, s': Sys, a: seq<Down>, b: seq<Up>)
    requires Streams(s, a, b) && b != [] && s' == Delivered(s, b[0], UpBytes(b[1..]))
    ensures Streams(s', Acking(a, b[0]), b[1..])
  {
    var msg := b[0];
    hide ValidDown, ValidUp, UpBytes, DownBytes, AckFrame, HostTaken, ClientState.Valid, Registers.Valid,
      MockState.Valid;
    assert forall m :: m in b[1..] ==> m in b;
    if msg.Completion? {
      AckIsValid(msg.seqno % 4096);
      DownAppend(a, DownAck(msg.seqno % 4096));
    }
  }

  lemma DeliveredConserved(s: Sys, s': Sys, a: seq<Down>, b: seq<Up>)
    requires Conserved(s, a, b) && b != [] && s' == Delivered(s, b[0], UpBytes(b[1..]))
    ensures Conserved(s', Acking(a, b[0]), b[1..])
  {
    var msg := b[0];
    hide Tally, UpBytes, DownSeqs, DownAcks, AckFrame, ClientState.Valid, Registers.Valid, MockState.Valid;
    if msg.UpAck? {
      TallyLog(s.hostAcks, msg.acked % 4096, UpAcks(b[1..]), DownSeqs(a), s.host.seqno);
    } else {
      DownNumbers(a, DownAck(msg.seqno % 4096));
      ModMod(msg.seqno);
      TallyReceive(s.devAcks, DownAcks(a), msg.seqno % 4096, UpSeqs(b[1..]), s.dev.seqno);
    }
  }

  /** An acknowledgement asks nothing of the device. */
  lemma AckPends(r: Regs, m: Mock, a: seq<Down>, n: nat)
    ensures AppliedAll(r, m, a + [DownAck(n)]) == AppliedAll(r, m, a)
    ensures Pending(r, m, a + [DownAck(n)]) == Pending(r, m, a)
  {
    hide AppliedAll, Pending, LocalRead, LocalWrite;
    PendingAppend(r, m, a, DownAck(n));
    assert Pending(r, m, a) + [] == Pending(r, m, a);
  }

  lemma DeliveredReads(s: Sys, s': Sys, sp: Spec, a: seq<Down>, b: seq<Up>)
    requires Reads(s, sp, a, b) && b != [] && s' == Delivered(s, b[0], UpBytes(b[1..]))
    requires b[0].Completion? ==> |b[0].delivers| <= 1
    ensures Reads(s', sp, Acking(a, b[0]), b[1..])
  {
    hide Ordered, UpBytes, AckFrame, Registers.Valid, MockState.Valid, Pending, AppliedAll;
    var msg, rest := b[0], b[1..];
    var pending := Pending(s.dev.regs, s.mock, a);
    if msg.Completion? {
      AckPends(s.dev.regs, s.mock, a, msg.seqno % 4096);
      Assoc(msg.delivers, UpReads(rest), pending);
      if msg.delivers != [] {
        var flight := Flight(s, a, b);
        assert flight[0] == msg.delivers[0] && flight[1..] == UpReads(rest) + pending;
        MatchedDeliver(s.host.completionCb, s.log, flight, sp.answers, sp.issued);
      } else {
        assert Flight(s, a, b) == UpReads(rest) + pending;
      }
    }
  }

  lemma DeliveredTags(s: Sys, s': Sys, a: seq<Down>, b: seq<Up>)
    requires b != [] && s' == Delivered(s, b[0], UpBytes(b[1..]))
    requires b[0].Completion? ==>
      b[0].tag < 32 && |b[0].delivers| <= 1 && (b[0].delivers != [] ==> b[0].delivers[0].0 == b[0].tag)
    requires Exclusive(s.host.completionCb, TagsInFlight(a, b))
    ensures Exclusive(s'.host.completionCb, TagsInFlight(Acking(a, b[0]), b[1..]))
  {
    hide UpBytes, AckFrame, Registers.Valid, MockState.Valid;
    if b[0].Completion? {
      TagsAppend(a, DownAck(b[0].seqno % 4096));
      var tags, tags' := TagsInFlight(a, b), TagsInFlight(Acking(a, b[0]), b[1..]);
      assert forall i :: 0 <= i < |tags'| ==> tags'[i] == tags[i + 1];
      assert tags[0] == b[0].tag;
    }
  }

  lemma LinkHost(s: Sys, s': Sys, sp: Spec, a: seq<Down>, b: seq<Up>)
    requires Link(s, sp, a, b) && s.toHost != [] && s' == Next(s, HostReceive)
    ensures b != [] && s' == Delivered(s, b[0], UpBytes(b[1..]))
    ensures b[0].Completion? ==>
      b[0].tag < 32 && |b[0].delivers| <= 1 && (b[0].delivers != [] ==> b[0].delivers[0].0 == b[0].tag)
    ensures Link(s', sp, Acking(a, b[0]), b[1..])
  {
    hide Next, Delivered, Conserved, Reads, ValidDown, Acking, UpFrame, Brings;
    assert b != [] && b[0] in b;
    HostTakes(s, b[0], UpBytes(b[1..]));
    if b[0].Completion? { ReactCompletion(s.host, b[0].tlp, b[0].tag, b[0].delivers); }
    DeliveredStreams(s, s', a, b);
    DeliveredConserved(s, s', a, b);
    DeliveredReads(s, s', sp, a, b);
  }

  /** The callback made belongs to the next answer, so the tags stay in order. */
  lemma DeliveredTagged(s: Sys, s': Sys, sp: Spec, a: seq<Down>, b: seq<Up>)
    requires Reads(s, sp, a, b) && b != [] && s' == Delivered(s, b[0], UpBytes(b[1..]))
    requires b[0].Completion? ==> |b[0].delivers| <= 1
    requires Tagged(s.host.readTag, s.host.completionCb, sp.answers, sp.issued)
    ensures Tagged(s'.host.readTag, s'.host.completionCb, sp.answers, sp.issued)
  {
    hide Ordered, Tagged, UpBytes, AckFrame, Registers.Valid, MockState.Valid, Pending, AppliedAll;
    if b[0].Completion? && b[0].delivers != [] {
      var flight := Flight(s, a, b);
      assert flight[0] == b[0].delivers[0];
      TaggedDeliver(s.host.readTag, s.host.completionCb, sp.answers, sp.issued, |s.log|, flight[0].0);
    }
  }

  lemma HostReceiveKeeps(s: Sys, s': Sys, sp: Spec, a: seq<Down>, b: seq<Up>)
    requires Inv(s, sp, a, b) && s.toHost != [] && s' == Next(s, HostReceive)
    ensures Weight(a, b) > 0 && GoodWithin(s', sp, Weight(a, b) - 1)
  {
    hide Next, Delivered, Streams, Conserved, Reads, Acking, Exclusive, TagsInFlight, Tagged;
    LinkHost(s, s', sp, a, b);
    DeliveredTags(s, s', a, b);
    DeliveredTagged(s, s', sp, a, b);
    assert Inv(s', sp, Acking(a, b[0]), b[1..]);
    DeliveredWeight(a, b);
  }

  lemma DeliveredWeight(a: seq<Down>, b: seq<Up>)
    requires b != []
    ensures Weight(Acking(a, b[0]), b[1..]) < Weight(a, b)
  {
    if b[0].Completion? {
      var ack := DownAck(b[0].seqno % 4096);
      DownWeightConcat(a, [ack]);
      assert [ack][1..] == [];
    }
  }
}
