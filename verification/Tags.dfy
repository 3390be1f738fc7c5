/**
 When do reads find their own callbacks?  The code issues a read without waiting for its completion
 slot to be free: it logs the clash and overwrites the slot.  Here the host is careless, issuing reads
 whenever it likes, and the exact condition under which every callback is still made is proved over
 whole runs, together with what happens when it is violated.
 */
module Tags {
  import opened Bits
  import opened Frames
  import opened Endpoint
  import opened MemoryMock
  import opened System
  import opened Refinement
  import opened Slots
  import opened Theorems

  // ---------------------------------------------------------------- careless runs

  /** Any interleaving of requests and receptions, with or without a free slot. */
  ghost predicate Careless(states: seq<Sys>, steps: seq<Step>) {
    && |states| == |steps| + 1 && Init(states[0])
    && forall k :: 0 <= k < |steps| ==> Feasible(states[k], steps[k]) && states[k + 1] == Next(states[k], steps[k])
  }

  /** The slot of the next tag holds a read the device answers. */
  ghost predicate Busy(s: Sys, sp: Spec) {
    var c := s.host.completionCb[s.host.readTag];
    c.Some? && !Unanswered(sp.answers, c.value)
  }

  ghost function SpecAt(states: seq<Sys>, steps: seq<Step>, k: nat): Spec
    requires |states| > 0 && k <= |steps|
  {
    SpecRun(SpecOf(states[0]), steps[..k])
  }

  /** At step k a read is issued over the slot of a read the device answers. */
  ghost predicate ClashAt(states: seq<Sys>, steps: seq<Step>, k: nat)
    requires |states| == |steps| + 1
  {
    k < |steps| && steps[k].HostRead? && Busy(states[k], SpecAt(states, steps, k))
  }

  lemma {:induction false} StampedRun(states: seq<Sys>, steps: seq<Step>, k: nat)
    requires Careless(states, steps) && k <= |steps|
    ensures Stamped(states[k])
  {
    hide Next;
    if k > 0 {
      hide Stamped, Init;
      StampedRun(states, steps, k - 1);
      StampedStep(states[k - 1], steps[k - 1]);
    }
  }

  /** The callback a slot holds was not made yet. */
  lemma StillToCome(s: Sys, t: nat)
    requires Stamped(s) && t < 32 && s.host.completionCb[t].Some?
    ensures Unanswered(s.log, s.host.completionCb[t].value)
  {
    var e := s.host.completionCb[t].value;
    forall i | 0 <= i < |s.log|
      ensures s.log[i].0 != e
    {
      assert s.host.completionCb[s.log[i].0 % 32] != Some(s.log[i].0);
    }
  }

  /** Busy means that an answer under way carries the tag. */
  lemma BusyIsInFlight(s: Sys, sp: Spec, a: seq<Down>, b: seq<Up>)
    requires Link(s, sp, a, b) && Stamped(s)
    ensures Busy(s, sp) <==> !TagFree(Flight(s, a, b), s.host.readTag)
  {
    hide Streams, Conserved, Flight, Registers.Valid, MockState.Valid;
    var flight, tag := Flight(s, a, b), s.host.readTag;
    if Busy(s, sp) {
      var e := s.host.completionCb[tag].value;
      var j :| 0 <= j < |sp.answers| && sp.answers[j].0 == e;
      StillToCome(s, tag);
      assert forall i :: 0 <= i < |s.log| ==> s.log[i] == sp.answers[i];
      assert flight[j - |s.log|].0 == tag;
    }
    if !TagFree(flight, tag) {
      var i :| 0 <= i < |flight| && flight[i].0 == tag;
      assert sp.answers[|s.log| + i].0 == s.host.completionCb[tag].value;
    }
  }

  ghost predicate Linked(s: Sys, sp: Spec) {
    exists a, b :: Link(s, sp, a, b)
  }

  lemma LinkedStep(s: Sys, sp: Spec, step: Step)
    requires Linked(s, sp) && Stamped(s) && Feasible(s, step) && (step.HostRead? ==> !Busy(s, sp))
    ensures Linked(Next(s, step), SpecNext(sp, step))
  {
    hide Link, Next, Busy, TagFree, Stamped, Flight;
    var a, b :| Link(s, sp, a, b);
    match step
    case HostRead(_, _, _) =>
      BusyIsInFlight(s, sp, a, b);
      LinkRead(s, sp, a, b, step);
    case HostWrite(_, _, _, _) => LinkWrite(s, sp, a, b, step);
    case DevReceive => LinkDev(s, Next(s, step), sp, a, b);
    case HostReceive => LinkHost(s, Next(s, step), sp, a, b);
  }

  lemma LinkedRefines(s: Sys, sp: Spec)
    requires Linked(s, sp)
    ensures Refines(s, sp)
  {
    var a, b :| Link(s, sp, a, b);
    if Quiet(s) { QuietIsEmpty(s, a, b); }
  }

  /** As long as no read clashes, the careless host is served like the careful one. */
  lemma {:induction false} LinkedRun(states: seq<Sys>, steps: seq<Step>, k: nat)
    requires Careless(states, steps) && k <= |steps| && forall j :: 0 <= j < k ==> !ClashAt(states, steps, j)
    ensures Linked(states[k], SpecAt(states, steps, k))
  {
    hide Next, SpecNext, Linked, Busy, Stamped;
    if k == 0 {
      InitGood(states[0]);
      GoodIsLinked(states[0], SpecOf(states[0]));
      assert steps[..0] == [];
    } else {
      LinkedRun(states, steps, k - 1);
      StampedRun(states, steps, k - 1);
      assert steps[..k][..k - 1] == steps[..k - 1];
      assert !ClashAt(states, steps, k - 1);
      LinkedStep(states[k - 1], SpecAt(states, steps, k - 1), steps[k - 1]);
    }
  }

  lemma GoodIsLinked(s: Sys, sp: Spec)
    requires Good(s, sp)
    ensures Linked(s, sp)
  {
    hide Link;
    var a, b :| Inv(s, sp, a, b);
  }

  // ---------------------------------------------------------------- a clash is never repaired

  lemma {:induction false} GoneRun(states: seq<Sys>, steps: seq<Step>, k: nat, m: nat, e: nat)
    requires Careless(states, steps) && k <= m <= |steps| && Gone(states[k], e)
    ensures Gone(states[m], e)
    decreases m - k
  {
    hide Next, Gone, Init, Stamped;
    if k < m {
      StampedRun(states, steps, k);
      GoneStep(states[k], steps[k], e);
      GoneRun(states, steps, k + 1, m, e);
    }
  }

  lemma {:induction false} AnswersGrow(sp: Spec, steps: seq<Step>, k: nat)
    requires k <= |steps|
    ensures SpecRun(sp, steps[..k]).answers <= SpecRun(sp, steps).answers
    decreases |steps|
  {
    hide LocalRead, LocalWrite, Counted;
    if k == |steps| {
      assert steps[..k] == steps;
    } else {
      var n := |steps| - 1;
      assert steps[..n][..k] == steps[..k];
      AnswersGrow(sp, steps[..n], k);
    }
  }

  /** Issuing over the slot of an answered read loses that read's callback. */
  lemma ClashLoses(s: Sys, sp: Spec, step: Step)
    requires Stamped(s) && Busy(s, sp) && step.HostRead? && Feasible(s, step)
    ensures Gone(Next(s, step), s.host.completionCb[s.host.readTag].value)
  {
    hide Next;
    IssueSlots(s, step);
    StillToCome(s, s.host.readTag);
  }

  lemma FirstClash(states: seq<Sys>, steps: seq<Step>, n: nat) returns (k: nat)
    requires |states| == |steps| + 1 && ClashAt(states, steps, n)
    ensures k <= n && ClashAt(states, steps, k) && forall j :: 0 <= j < k ==> !ClashAt(states, steps, j)
  {
    hide ClashAt;
    if j: nat :| j < n && ClashAt(states, steps, j) {
      k := FirstClash(states, steps, j);
    } else {
      k := n;
    }
  }

  /** The exact condition, over whole runs: once the streams are drained, every answer of the device was
      handed to its own callback and to no other if and only if no read was issued over the slot of a
      read the device answers and whose callback was still to come. */
  lemma CarelessExact(states: seq<Sys>, steps: seq<Step>)
    requires Careless(states, steps) && Quiet(states[|steps|])
    ensures states[|steps|].log == SpecAt(states, steps, |steps|).answers
      <==> forall k :: 0 <= k < |steps| ==> !ClashAt(states, steps, k)
  {
    hide Next, SpecRun, Linked, Init, Stamped, Gone;
    var n := |steps|;
    if forall k :: 0 <= k < n ==> !ClashAt(states, steps, k) {
      LinkedRun(states, steps, n);
      LinkedRefines(states[n], SpecAt(states, steps, n));
    } else {
      var m: nat :| m < n && ClashAt(states, steps, m);
      var k := FirstClash(states, steps, m);
      var sp := SpecAt(states, steps, k);
      var e := states[k].host.completionCb[states[k].host.readTag].value;
      StampedRun(states, steps, k);
      ClashLoses(states[k], sp, steps[k]);
      GoneRun(states, steps, k + 1, n, e);
      AnswersGrow(SpecOf(states[0]), steps, k);
      assert steps[..n] == steps;
      LostIsMissing(states[n], sp.answers, SpecAt(states, steps, n).answers, e);
    }
  }

  lemma LostIsMissing(s: Sys, answers: seq<Delivery>, answers': seq<Delivery>, e: nat)
    requires Gone(s, e) && answers <= answers' && !Unanswered(answers, e)
    ensures s.log != answers'
  {
    var j :| 0 <= j < |answers| && answers[j].0 == e;
    assert answers'[j] == answers[j];
  }

  // ---------------------------------------------------------------- what a clash leads to

  /** What the host does with answers arriving in this order: each goes to whatever callback its slot
      holds, and to nobody when the slot is empty. */
  function Hand(slots: seq<Callback>, flight: seq<Delivery>): seq<Delivery>
    requires |slots| == 32
    decreases |flight|
  {
    if flight == [] then []
    else
      var (t, d) := flight[0];
      if t >= 32 || slots[t].None? then Hand(slots, flight[1..])
      else [(slots[t].value, d)] + Hand(slots[t := None], flight[1..])
  }

  /** The slots afterwards. */
  function Left(slots: seq<Callback>, flight: seq<Delivery>): (r: seq<Callback>)
    requires |slots| == 32
    ensures |r| == 32 && forall t :: 0 <= t < 32 && slots[t].None? ==> r[t].None?
    decreases |flight|
  {
    if flight == [] then slots
    else Left(if flight[0].0 >= 32 then slots else slots[flight[0].0 := None], flight[1..])
  }

  lemma {:induction false} HandConcat(slots: seq<Callback>, x: seq<Delivery>, y: seq<Delivery>)
    requires |slots| == 32
    ensures Hand(slots, x + y) == Hand(slots, x) + Hand(Left(slots, x), y)
    decreases |x|
  {
    if x == [] {
      assert x + y == y;
    } else {
      var t := x[0].0;
      assert (x + y)[1..] == x[1..] + y;
      var next := if t >= 32 then slots else slots[t := None];
      assert t < 32 && slots[t].None? ==> next == slots;
      HandConcat(next, x[1..], y);
    }
  }

  /** Answers that find their callbacks are the specification's. */
  lemma {:induction false} HandMatched(slots: seq<Callback>, log: seq<Delivery>, flight: seq<Delivery>,
                                       answers: seq<Delivery>,
                                       issued: nat)
    requires |slots| == 32 && Matched(slots, log, flight, answers) && Ordered(answers, issued)
    ensures Hand(slots, flight) == answers[|log|..]
    decreases |flight|
  {
    hide Matched, Ordered;
    MatchedLength(slots, log, flight, answers);
    if flight != [] {
      var t := flight[0].0;
      MatchedDeliver(slots, log, flight, answers, issued);
      var log' := log + [(slots[t].value, flight[0].1)];
      HandMatched(slots[t := None], log', flight[1..], answers, issued);
      MatchedFirst(slots, log, flight, answers);
    }
  }

  lemma MatchedLength(slots: seq<Callback>, log: seq<Delivery>, flight: seq<Delivery>, answers: seq<Delivery>)
    requires |slots| == 32 && Matched(slots, log, flight, answers)
    ensures |log| + |flight| == |answers|
  {
  }

  lemma MatchedFirst(slots: seq<Callback>, log: seq<Delivery>, flight: seq<Delivery>, answers: seq<Delivery>)
    requires |slots| == 32 && Matched(slots, log, flight, answers) && flight != []
    ensures flight[0].0 < 32 && slots[flight[0].0].Some? && |log| < |answers|
    ensures answers[|log|..] == [(slots[flight[0].0].value, flight[0].1)] + answers[|log| + 1..]
  {
    assert answers[|log| + 0] == (slots[flight[0].0].value, flight[0].1);
  }

  /** The tag of answer i is taken over by read `later`: answer i goes to the later callback, all
      others to their own, and the answer to the later read itself goes to nobody. */
  lemma {:induction false} HandClash(slots: seq<Callback>, log: seq<Delivery>, flight: seq<Delivery>,
                                     answers: seq<Delivery>,
                                     issued: nat, i: nat, later: nat, more: seq<Delivery>)
    requires |slots| == 32 && Matched(slots, log, flight, answers) && Ordered(answers, issued)
    requires i < |flight| && flight[i].0 < 32 && |more| <= 1 && (more != [] ==> more[0].0 == flight[i].0)
    ensures |log| + |flight| == |answers|
    ensures Hand(slots[flight[i].0 := Some(later)], flight + more)
      == answers[|log|..][i := (later, answers[|log| + i].1)]
    decreases i
  {
    hide Matched, Ordered, Left;
    MatchedLength(slots, log, flight, answers);
    MatchedFirst(slots, log, flight, answers);
    MatchedDeliver(slots, log, flight, answers, issued);
    var t, tag := flight[0].0, flight[i].0;
    var log' := log + [(slots[t].value, flight[0].1)];
    assert (flight + more)[1..] == flight[1..] + more;
    if i == 0 {
      HandConcat(slots[t := None], flight[1..], more);
      HandMatched(slots[t := None], log', flight[1..], answers, issued);
      assert slots[t := Some(later)][t := None] == slots[t := None];
      assert Hand(Left(slots[t := None], flight[1..]), more) == [];
    } else {
      OtherTag(slots, log, flight, answers, issued, i);
      HandClash(slots[t := None], log', flight[1..], answers, issued, i - 1, later, more);
      assert slots[tag := Some(later)][t := None] == slots[t := None][tag := Some(later)];
      assert answers[|log|..][i := (later, answers[|log| + i].1)]
        == [answers[|log|]] + answers[|log| + 1..][i - 1 := (later, answers[|log| + i].1)];
    }
  }

  lemma OtherTag(slots: seq<Callback>, log: seq<Delivery>, flight: seq<Delivery>, answers: seq<Delivery>,
                 issued: nat, i: nat)
    requires |slots| == 32 && Matched(slots, log, flight, answers) && Ordered(answers, issued) && 0 < i < |flight|
    ensures flight[0].0 != flight[i].0
  {
    assert answers[|log| + 0].0 < answers[|log| + i].0;
  }

  /** What the log will be when everything under way has arrived. */
  function Ledger(s: Sys, a: seq<Down>, b: seq<Up>): seq<Delivery> {
    s.log + Hand(s.host.completionCb, Flight(s, a, b))
  }

  /** A reception by the device does not change it. */
  lemma LedgerDev(s: Sys, s': Sys, a: seq<Down>, b: seq<Up>)
    requires Streams(s, a, b) && s.toDev != [] && s' == Next(s, DevReceive)
    ensures a != [] && ValidDown(a[0])
    ensures var b' := Answering(b, s.dev, s.mock, a[0]);
      Streams(s', a[1..], b') && Ledger(s', a[1..], b') == Ledger(s, a, b)
  {
    hide Next, Executed, ValidDown, ValidUp, Answering, DownFrame, Flight, Hand;
    assert a != [] && a[0] in a;
    DevTakes(s, a[0], DownBytes(a[1..]));
    ExecutedStreams(s, s', a, b);
    ExecutedFlight(s, s', a, b);
  }

  /** A reception by the host hands over the first answer. */
  lemma LedgerHost(s: Sys, s': Sys, a: seq<Down>, b: seq<Up>)
    requires Streams(s, a, b) && s.toHost != [] && s' == Next(s, HostReceive)
    ensures b != []
    ensures var a' := Acking(a, b[0]);
      Streams(s', a', b[1..]) && Ledger(s', a', b[1..]) == Ledger(s, a, b)
  {
    hide Next, Delivered, ValidDown, Acking, UpFrame, Brings, Ledger;
    assert b != [] && b[0] in b;
    HostTakes(s, b[0], UpBytes(b[1..]));
    if b[0].Completion? { ReactCompletion(s.host, b[0].tlp, b[0].tag, b[0].delivers); }
    DeliveredStreams(s, s', a, b);
    DeliveredLedger(s, s', a, b);
  }

  lemma DeliveredLedger(s: Sys, s': Sys, a: seq<Down>, b: seq<Up>)
    requires b != [] && s' == Delivered(s, b[0], UpBytes(b[1..]))
    requires b[0].Completion? ==> |b[0].delivers| <= 1
    ensures Ledger(s', Acking(a, b[0]), b[1..]) == Ledger(s, a, b)
  {
    hide UpBytes, AckFrame, Registers.Valid, MockState.Valid, Pending, AppliedAll;
    var msg, rest := b[0], b[1..];
    var pending := Pending(s.dev.regs, s.mock, a);
    if msg.Completion? {
      AckPends(s.dev.regs, s.mock, a, msg.seqno % 4096);
      Assoc(msg.delivers, UpReads(rest), pending);
      var flight := Flight(s, a, b);
      if msg.delivers != [] {
        assert flight[0] == msg.delivers[0] && flight[1..] == UpReads(rest) + pending;
        if flight[0].0 < 32 && s.host.completionCb[flight[0].0].Some? {
          var id := s.host.completionCb[flight[0].0].value;
          Assoc(s.log, [(id, flight[0].1)], Hand(s'.host.completionCb, flight[1..]));
        }
      } else {
        assert flight == UpReads(rest) + pending;
      }
    }
  }

  /** Receptions only, in any order, until both streams are empty. */
  ghost predicate Draining(states: seq<Sys>, steps: seq<Step>) {
    && |states| == |steps| + 1 && Quiet(states[|steps|])
    && forall k :: 0 <= k < |steps| ==>
         IsReception(steps[k]) && Feasible(states[k], steps[k]) && states[k + 1] == Next(states[k], steps[k])
  }

  lemma {:induction false} DrainsToLedger(states: seq<Sys>, steps: seq<Step>, a: seq<Down>, b: seq<Up>)
    requires Draining(states, steps) && Streams(states[0], a, b)
    ensures states[|steps|].log == Ledger(states[0], a, b)
    decreases |steps|
  {
    hide Next, Streams, Ledger, Answering;
    if steps == [] {
      LedgerQuiet(states[0], a, b);
    } else if steps[0].DevReceive? {
      LedgerDev(states[0], states[1], a, b);
      DrainsToLedger(states[1..], steps[1..], a[1..], Answering(b, states[0].dev, states[0].mock, a[0]));
    } else {
      LedgerHost(states[0], states[1], a, b);
      DrainsToLedger(states[1..], steps[1..], Acking(a, b[0]), b[1..]);
    }
  }

  lemma LedgerQuiet(s: Sys, a: seq<Down>, b: seq<Up>)
    requires Streams(s, a, b) && Quiet(s)
    ensures Ledger(s, a, b) == s.log
  {
    QuietIsEmpty(s, a, b);
    assert Flight(s, [], []) == [];
  }

  /** A clash in detail.  The read answered at position j was issued, its callback is still to come, and
      another read takes over its slot: in every drain that follows, the earlier answer is handed to the
      later callback, the later read's own answer to nobody, and every other answer to its callback. */
  lemma ClashOutcome(s: Sys, sp: Spec, step: Step, j: nat, states: seq<Sys>, steps: seq<Step>)
    requires Linked(s, sp) && Stamped(s) && step.HostRead? && Feasible(s, step)
    requires j < |sp.answers| && s.host.completionCb[s.host.readTag] == Some(sp.answers[j].0)
    requires Draining(states, steps) && states[0] == Next(s, step)
    ensures states[|steps|].log == sp.answers[j := (s.issued, sp.answers[j].1)]
  {
    hide Next, Link, Ledger, Flight, Stamped, SpecNext, Streams;
    var a, b :| Link(s, sp, a, b);
    ClashStreams(s, sp, a, b, step);
    DrainsToLedger(states, steps, a + [ReadMsg(s.host, step)], b);
    ClashLedger(s, sp, a, b, step, j);
  }

  lemma ClashStreams(s: Sys, sp: Spec, a: seq<Down>, b: seq<Up>, step: Step)
    requires Link(s, sp, a, b) && step.HostRead? && Feasible(s, step)
    ensures Streams(Next(s, step), a + [ReadMsg(s.host, step)], b)
  {
    hide ReadTlp, TlpFrame, DownFrame, ValidDown, Next, Streams, Conserved, Reads, Registers.Valid, MockState.Valid;
    NextRead(s, step);
    SendKeeps(s, Next(s, step), a, b, ReadMsg(s.host, step));
  }

  /** A read issued anyway adds at most its own answer to those under way. */
  lemma IssueFlight(s: Sys, sp: Spec, a: seq<Down>, b: seq<Up>, step: Step) returns (more: seq<Delivery>)
    requires Reads(s, sp, a, b) && step.HostRead? && Feasible(s, step)
    ensures Flight(Next(s, step), a + [ReadMsg(s.host, step)], b) == Flight(s, a, b) + more
    ensures |more| <= 1 && (more != [] ==> more[0].0 == s.host.readTag)
  {
    hide Next, Matched, Ordered, ReadTlp, TlpFrame, DownFrame, ValidDown, LocalRead, Counted, Registers.Valid,
      MockState.Valid;
    var msg := ReadMsg(s.host, step);
    NextRead(s, step);
    PendingAppend(s.dev.regs, s.mock, a, msg);
    more := Answered(sp.regs, sp.mock, msg);
    Assoc(UpReads(b), Pending(s.dev.regs, s.mock, a), more);
  }

  lemma ClashLedger(s: Sys, sp: Spec, a: seq<Down>, b: seq<Up>, step: Step, j: nat)
    requires Link(s, sp, a, b) && Stamped(s) && step.HostRead? && Feasible(s, step)
    requires j < |sp.answers| && s.host.completionCb[s.host.readTag] == Some(sp.answers[j].0)
    ensures Ledger(Next(s, step), a + [ReadMsg(s.host, step)], b) == sp.answers[j := (s.issued, sp.answers[j].1)]
  {
    hide Next, Streams, Conserved, Hand, Stamped, Ordered, Flight, ReadMsg, Registers.Valid, MockState.Valid;
    IssueSlots(s, step);
    var more := IssueFlight(s, sp, a, b, step);
    var i := ClashIndex(s, sp, Flight(s, a, b), j);
    HandClash(s.host.completionCb, s.log, Flight(s, a, b), sp.answers, sp.issued, i, s.issued, more);
    Spliced(s.log, sp.answers, i, (s.issued, sp.answers[j].1));
  }

  lemma Spliced(log: seq<Delivery>, answers: seq<Delivery>, i: nat, x: Delivery)
    requires |log| + i < |answers| && log == answers[..|log|]
    ensures log + answers[|log|..][i := x] == answers[|log| + i := x]
  {
  }

  lemma ClashIndex(s: Sys, sp: Spec, flight: seq<Delivery>, j: nat) returns (i: nat)
    requires Stamped(s) && Matched(s.host.completionCb, s.log, flight, sp.answers)
    requires j < |sp.answers| && s.host.completionCb[s.host.readTag] == Some(sp.answers[j].0)
    ensures j == |s.log| + i && i < |flight| && flight[i].0 == s.host.readTag
  {
    StillToCome(s, s.host.readTag);
    assert forall k :: 0 <= k < |s.log| ==> s.log[k] == sp.answers[k];
    i := j - |s.log|;
  }

  /** Such a drain exists from every state. */
  lemma {:induction false} DrainExists(s: Sys, a: seq<Down>, b: seq<Up>) returns (states: seq<Sys>, steps: seq<Step>)
    requires Streams(s, a, b)
    ensures Draining(states, steps) && states[0] == s
    decreases Weight(a, b)
  {
    hide Next, Streams, Ledger, Answering, Weight;
    if Quiet(s) {
      states, steps := [s], [];
    } else {
      var step := if s.toDev != [] then DevReceive else HostReceive;
      var s' := Next(s, step);
      if step.DevReceive? {
        LedgerDev(s, s', a, b);
        ExecutedWeight(a, b, s.dev, s.mock);
        states, steps := DrainExists(s', a[1..], Answering(b, s.dev, s.mock, a[0]));
      } else {
        LedgerHost(s, s', a, b);
        DeliveredWeight(a, b);
        states, steps := DrainExists(s', Acking(a, b[0]), b[1..]);
      }
      states, steps := [s] + states, [step] + steps;
    }
  }

  // ---------------------------------------------------------------- thirty-three reads

  const WORD := HostRead(Config, 0, 4)

  /** The host after n reads of the first configuration word, nothing received in between. */
  function Burst(s: Sys, n: nat): Sys {
    if n == 0 then s else Next(Burst(s, n - 1), WORD)
  }

  function Words(n: nat, d: seq<byte>): (r: seq<Delivery>)
    ensures |r| == n && forall i :: 0 <= i < n ==> r[i] == (i, d)
  {
    if n == 0 then [] else Words(n - 1, d) + [(n - 1, d)]
  }

  lemma {:induction false} BurstSlots(s: Sys, n: nat)
    requires Init(s) && n <= 32
    ensures Stamped(Burst(s, n)) && Burst(s, n).issued == n
    ensures forall t :: 0 <= t < 32 ==> Burst(s, n).host.completionCb[t] == if t < n then Some(t) else None
  {
    hide Next;
    if n > 0 {
      BurstSlots(s, n - 1);
      TagOf(Burst(s, n - 1));
      StampedStep(Burst(s, n - 1), WORD);
      IssueSlots(Burst(s, n - 1), WORD);
      hide Stamped, Init;
    }
  }

  /** The local device answers the word at once. */
  lemma SpecWord(sp: Spec)
    requires sp.regs.cfg0ReadCb == Some(CONFIG_CB)
    ensures SpecNext(sp, WORD) == sp.(issued := sp.issued + 1, answers := sp.answers + [(sp.issued, sp.mock.cfg[..4])])
  {
    hide LocalRead;
    ConfigRead(sp.regs, sp.mock, 0);
    assert Counted(sp.mock.cfg[0..4]) == sp.mock.cfg[..4];
  }

  lemma {:induction false} BurstAt(s: Sys, n: nat)
    requires Init(s) && s.dev.regs.cfg0ReadCb == Some(CONFIG_CB) && n <= 32
    ensures Linked(Burst(s, n), Spec(s.dev.regs, s.mock, n, Words(n, s.mock.cfg[..4])))
  {
    hide Next, Linked, SpecNext, Stamped;
    if n == 0 {
      InitGood(s);
      GoodIsLinked(s, SpecOf(s));
    } else {
      hide Init;
      var before, sp := Burst(s, n - 1), Spec(s.dev.regs, s.mock, n - 1, Words(n - 1, s.mock.cfg[..4]));
      BurstAt(s, n - 1);
      BurstSlots(s, n - 1);
      TagOf(before);
      LinkedStep(before, sp, WORD);
      SpecWord(sp);
    }
  }

  /** Thirty-three reads in a row, then everything is received, in any order: the answer to read 0 is
      handed to the callback of read 32, read 0 is never called back, and the answer to read 32 is
      dropped although no later read took its slot. */
  lemma ThirtyThreeReads(s: Sys, states: seq<Sys>, steps: seq<Step>)
    requires Init(s) && s.dev.regs.cfg0ReadCb == Some(CONFIG_CB)
    requires Draining(states, steps) && states[0] == Burst(s, 33)
    ensures var d := s.mock.cfg[..4];
      states[|steps|].log == Words(32, d)[0 := (32, d)]
  {
    hide Next, Linked, Stamped, Draining;
    BurstAt(s, 32);
    BurstSlots(s, 32);
    var before, sp := Burst(s, 32), Spec(s.dev.regs, s.mock, 32, Words(32, s.mock.cfg[..4]));
    TagOf(before);
    assert Burst(s, 33) == Next(before, WORD);
    ClashOutcome(before, sp, WORD, 0, states, steps);
  }

  lemma TagOf(s: Sys)
    requires Stamped(s)
    ensures s.host.readTag == s.issued % 32
  {
  }

  // ---------------------------------------------------------------- which reads keep their slots

  lemma {:induction false} HeldRun(states: seq<Sys>, steps: seq<Step>, k: nat)
    requires IsRun(states, steps) && k <= |steps|
    ensures Stamped(states[k]) && Held(states[k])
  {
    hide Next;
    if k > 0 {
      hide Stamped, Held, Init;
      HeldRun(states, steps, k - 1);
      StampedStep(states[k - 1], steps[k - 1]);
      HeldStep(states[k - 1], steps[k - 1]);
    }
  }

  /** In every state of every run of the careful host, a read holds its slot exactly until its callback
      is made. */
  lemma HeldUntilCalled(states: seq<Sys>, steps: seq<Step>, k: nat, f: nat)
    requires IsRun(states, steps) && k <= |steps| && f < states[k].issued
    ensures states[k].host.completionCb[f % 32] == Some(f) <==> Unanswered(states[k].log, f)
  {
    hide Next, Init;
    HeldRun(states, steps, k);
    if states[k].host.completionCb[f % 32] == Some(f) { StillToCome(states[k], f % 32); }
  }

  lemma {:induction false} SpecCounts(sp: Spec, steps: seq<Step>, k: nat)
    requires Ordered(sp.answers, sp.issued) && k <= |steps|
    ensures Ordered(SpecRun(sp, steps).answers, SpecRun(sp, steps).issued)
    ensures SpecRun(sp, steps[..k]).issued <= SpecRun(sp, steps).issued
    decreases |steps|
  {
    hide LocalRead, LocalWrite, Ordered, Counted;
    assert steps[..|steps|] == steps;
    if steps != [] {
      var n := |steps| - 1;
      SpecCounts(sp, steps[..n], if k <= n then k else n);
      assert k <= n ==> steps[..n][..k] == steps[..k];
      if steps[n].HostRead? {
        var before := SpecRun(sp, steps[..n]);
        var more := SpecRead(before, steps[n]);
        OrderedIssue(before.answers, before.issued, more);
      }
    }
  }

  lemma AnsweredNow(q: Spec, step: Step)
    requires Ordered(q.answers, q.issued) && step.HostRead?
    ensures Unanswered(SpecNext(q, step).answers, q.issued)
      <==> LocalRead(q.regs, q.mock, step.space, step.addr, step.length) == None
  {
    hide LocalRead, Counted, Ordered;
    OrderedAbsent(q.answers, q.issued);
    if SpecNext(q, step).answers != q.answers {
      assert SpecNext(q, step).answers[|q.answers|].0 == q.issued;
    }
  }

  lemma AnsweredBefore(sp: Spec, step: Step, f: nat)
    requires f < sp.issued
    ensures Unanswered(SpecNext(sp, step).answers, f) <==> Unanswered(sp.answers, f)
  {
    hide LocalRead, LocalWrite, Counted;
    if SpecNext(sp, step).answers != sp.answers {
      assert SpecNext(sp, step).answers[..|sp.answers|] == sp.answers;
      LogGrows(sp.answers, SpecNext(sp, step).answers, f);
    }
  }

  /** The device leaves the read issued at step i unanswered, for ever, exactly when no callback was
      registered for it at that moment or the callback failed. */
  lemma {:induction false} UnansweredIff(sp: Spec, steps: seq<Step>, i: nat)
    requires Ordered(sp.answers, sp.issued) && i < |steps| && steps[i].HostRead?
    ensures var q := SpecRun(sp, steps[..i]);
      Unanswered(SpecRun(sp, steps).answers, q.issued)
      <==> LocalRead(q.regs, q.mock, steps[i].space, steps[i].addr, steps[i].length) == None
    decreases |steps|
  {
    hide LocalRead, SpecNext, Ordered, Unanswered;
    var n := |steps| - 1;
    if i == n {
      SpecCounts(sp, steps[..n], n);
      AnsweredNow(SpecRun(sp, steps[..n]), steps[n]);
    } else {
      assert steps[..n][..i] == steps[..i] && steps[..n][..i + 1] == steps[..i + 1];
      UnansweredIff(sp, steps[..n], i);
      SpecCounts(sp, steps[..n], i + 1);
      IssuedNext(sp, steps, i);
      AnsweredBefore(SpecRun(sp, steps[..n]), steps[n], SpecRun(sp, steps[..i]).issued);
    }
  }

  lemma OrderedAbsent(answers: seq<Delivery>, issued: nat)
    requires Ordered(answers, issued)
    ensures Unanswered(answers, issued)
  {
  }

  /** Which reads block a tag for ever: once the streams are drained, the slot of the read issued at step
      i is occupied exactly when the device, used locally at that moment, does not answer it. */
  lemma BlockedIff(states: seq<Sys>, steps: seq<Step>, i: nat, k: nat)
    requires IsRun(states, steps) && i < k <= |steps| && steps[i].HostRead? && Quiet(states[k])
    ensures var q, f := SpecAt(states, steps, i), states[i].issued;
      states[k].host.completionCb[f % 32] == Some(f)
      <==> LocalRead(q.regs, q.mock, steps[i].space, steps[i].addr, steps[i].length) == None
  {
    hide Next, Init, SpecRun, LocalRead;
    var sp := SpecOf(states[0]);
    RemoteIsLocal(states, steps, k);
    IssuedMatches(states, steps, i);
    IssuedMatches(states, steps, k);
    assert steps[..k][..i] == steps[..i];
    UnansweredIff(sp, steps[..k], i);
    SpecCounts(sp, steps[..k], i + 1);
    IssuedNext(sp, steps[..k], i);
    HeldUntilCalled(states, steps, k, states[i].issued);
  }

  lemma IssuedNext(sp: Spec, steps: seq<Step>, i: nat)
    requires i < |steps| && steps[i].HostRead?
    ensures SpecRun(sp, steps[..i + 1]).issued == SpecRun(sp, steps[..i]).issued + 1
  {
    assert steps[..i + 1][..i] == steps[..i];
  }

  lemma IssuedMatches(states: seq<Sys>, steps: seq<Step>, k: nat)
    requires IsRun(states, steps) && k <= |steps|
    ensures states[k].issued == SpecAt(states, steps, k).issued
  {
    RunGood(states, steps, k);
    hide Streams, Conserved, Tagged, Exclusive, SpecRun;
    var a, b :| Inv(states[k], SpecAt(states, steps, k), a, b);
  }

  /** One such family of runs: a device without a configuration callback never answers, so a first read
      of its configuration space keeps slot 0, and at most 31 reads can follow it. */
  lemma SilentDevice(states: seq<Sys>, steps: seq<Step>, k: nat)
    requires IsRun(states, steps) && 0 < k <= |steps|
    requires states[0].dev.regs.cfg0ReadCb == None && steps[0] == WORD
    ensures states[k].host.completionCb[0] == Some(0) && states[k].issued <= 32
  {
    hide Next, SpecNext;
    var sp := SpecOf(states[0]);
    assert steps[..k][..0] == [] && SpecRun(sp, []) == sp;
    UnansweredIff(sp, steps[..k], 0);
    IssuedMatches(states, steps, k);
    SpecCounts(sp, steps[..k], 1);
    SpecFirst(sp, steps[..k]);
    UnansweredBlocks(states, steps, k, 0);
  }

  /** From every such device: the read is issued, and its slot is taken for good. */
  lemma SilentRunExists(s: Sys)
    requires Init(s) && s.dev.regs.cfg0ReadCb == None
    ensures IsRun([s, Next(s, WORD)], [WORD])
    ensures Next(s, WORD).host.completionCb[0] == Some(0)
  {
    hide Next;
    SilentDevice([s, Next(s, WORD)], [WORD], 1);
  }

  lemma SpecFirst(sp: Spec, steps: seq<Step>)
    requires |steps| > 0 && steps[0].HostRead?
    ensures SpecRun(sp, steps[..1]).issued == sp.issued + 1
  {
    assert steps[..1][..0] == [] && SpecRun(sp, []) == sp;
  }
}
