/** The whole-run theorems: remote use equals local use, tags, acknowledgements and draining. */
module Theorems {
  import opened Endpoint
  import opened MemoryMock
  import opened System
  import opened Refinement
  import opened Decoding

  /** Two fresh endpoints; the device may already have BARs registered. */
  predicate Init(s: Sys) {
    && s.host.seqno == 0 && s.dev.seqno == 0 && s.host.readTag == 0 && s.issued == 0
    && (forall t :: 0 <= t < 32 ==> s.host.completionCb[t] == None)
    && s.toDev == [] && s.toHost == [] && s.log == [] && s.hostAcks == [] && s.devAcks == []
  }

  /** Any interleaving of requests and receptions. */
  ghost predicate Interleaving(states: seq<Sys>, steps: seq<Step>) {
    && |states| == |steps| + 1
    && forall k :: 0 <= k < |steps| ==> Enabled(states[k], steps[k]) && states[k + 1] == Next(states[k], steps[k])
  }

  ghost predicate IsRun(states: seq<Sys>, steps: seq<Step>) {
    Interleaving(states, steps) && Init(states[0])
  }

  /** The specification after the same steps. */
  function SpecRun(sp: Spec, steps: seq<Step>): Spec {
    if steps == [] then sp else SpecNext(SpecRun(sp, steps[..|steps| - 1]), steps[|steps| - 1])
  }

  function SpecOf(s: Sys): Spec {
    Spec(s.dev.regs, s.mock, 0, [])
  }

  lemma InitGood(s: Sys)
    requires Init(s)
    ensures Good(s, SpecOf(s))
  {
    hide Registers.Valid, MockState.Valid, Reads, Conserved;
    InitReads(s);
    InitConserved(s);
    assert Inv(s, SpecOf(s), [], []);
  }

  lemma InitConserved(s: Sys)
    requires Init(s)
    ensures Conserved(s, [], [])
  {
    hide Registers.Valid, MockState.Valid;
  }

  lemma InitReads(s: Sys)
    requires Init(s)
    ensures Reads(s, SpecOf(s), [], [])
  {
    hide Registers.Valid, MockState.Valid;
    assert s.log == SpecOf(s).answers[..0];
  }

  /** Every step keeps the invariant. */
  lemma StepGood(s: Sys, sp: Spec, step: Step)
    requires Good(s, sp) && Enabled(s, step)
    ensures Good(Next(s, step), SpecNext(sp, step))
  {
    hide Inv, Next;
    var a, b :| Inv(s, sp, a, b);
    match step
    case HostRead(_, _, _) => IssueReadKeeps(s, sp, a, b, step);
    case HostWrite(_, _, _, _) => IssueWriteKeeps(s, sp, a, b, step);
    case DevReceive => DevReceiveKeeps(s, Next(s, step), sp, a, b);
    case HostReceive => HostReceiveKeeps(s, Next(s, step), sp, a, b);
  }

  lemma {:induction false} InterleavingGood(states: seq<Sys>, steps: seq<Step>, sp: Spec, k: nat)
    requires Interleaving(states, steps) && Good(states[0], sp) && k <= |steps|
    ensures Good(states[k], SpecRun(sp, steps[..k]))
  {
    hide Good, Next, SpecNext;
    if k > 0 {
      InterleavingGood(states, steps, sp, k - 1);
      assert steps[..k][..k - 1] == steps[..k - 1];
      StepGood(states[k - 1], SpecRun(sp, steps[..k - 1]), steps[k - 1]);
    }
  }

  lemma RunGood(states: seq<Sys>, steps: seq<Step>, k: nat)
    requires IsRun(states, steps) && k <= |steps|
    ensures Good(states[k], SpecRun(SpecOf(states[0]), steps[..k]))
  {
    hide Good, Next, SpecRun, Init;
    InitGood(states[0]);
    InterleavingGood(states, steps, SpecOf(states[0]), k);
  }

  // ---------------------------------------------------------------- what the invariant gives

  /** The streams are drained. */
  predicate Quiet(s: Sys) {
    s.toDev == [] && s.toHost == []
  }

  ghost predicate Refines(s: Sys, sp: Spec) {
    && s.log <= sp.answers
    && (Quiet(s) ==> s.log == sp.answers && s.mock == sp.mock && s.dev.regs == sp.regs)
  }

  lemma QuietIsEmpty(s: Sys, a: seq<Down>, b: seq<Up>)
    requires Streams(s, a, b) && Quiet(s)
    ensures a == [] && b == []
  {
  }

  lemma GoodRefines(s: Sys, sp: Spec)
    requires Good(s, sp)
    ensures Refines(s, sp)
  {
    var a, b :| Inv(s, sp, a, b);
    if Quiet(s) { QuietIsEmpty(s, a, b); }
  }

  /** Remote use is local use: in every run, in every state, the completion callbacks made so far
      are the first answers of the device used locally, in issue order and with the same bytes;
      once the streams are drained all of them were made and the device is in the same state. */
  lemma RemoteIsLocal(states: seq<Sys>, steps: seq<Step>, k: nat)
    requires IsRun(states, steps) && k <= |steps|
    ensures Refines(states[k], SpecRun(SpecOf(states[0]), steps[..k]))
  {
    RunGood(states, steps, k);
    GoodRefines(states[k], SpecRun(SpecOf(states[0]), steps[..k]));
  }

  // ---------------------------------------------------------------- tags and callbacks

  /** Each callback runs at most once, in the order the reads were issued, and belongs to a read
      that was issued: the numbers in the log increase strictly. */
  lemma CallbacksOnce(states: seq<Sys>, steps: seq<Step>, k: nat, i: nat, j: nat)
    requires IsRun(states, steps) && k <= |steps| && i < j < |states[k].log|
    ensures states[k].log[i].0 < states[k].log[j].0 < states[k].issued
  {
    RunGood(states, steps, k);
    var s, sp := states[k], SpecRun(SpecOf(states[0]), steps[..k]);
    var a, b :| Inv(s, sp, a, b);
    assert s.log[i] == sp.answers[i] && s.log[j] == sp.answers[j];
  }

  /** In every state of every run, however the bytes in the streams are decoded, the reads in flight,
      as requests or as completions, have distinct tags, and the slot of each tag holds a callback. */
  lemma TagsExclusive(states: seq<Sys>, steps: seq<Step>, k: nat)
    requires IsRun(states, steps) && k <= |steps|
    ensures exists a, b :: Streams(states[k], a, b)
    ensures forall a, b :: Streams(states[k], a, b) ==> Exclusive(states[k].host.completionCb, TagsInFlight(a, b))
  {
    hide Next, SpecRun, Reads, Conserved, Tagged, Streams, Exclusive, TagsInFlight;
    RunGood(states, steps, k);
    var x, y :| Inv(states[k], SpecRun(SpecOf(states[0]), steps[..k]), x, y);
    forall a, b | Streams(states[k], a, b)
      ensures Exclusive(states[k].host.completionCb, TagsInFlight(a, b))
    {
      SameStreams(states[k], x, y, a, b);
    }
  }

  /** A read the device never answered (no callback registered, or the callback failed) keeps its
      slot for ever, and at most 31 further reads can be issued: the counter then meets the slot. */
  lemma UnansweredBlocks(states: seq<Sys>, steps: seq<Step>, k: nat, f: nat)
    requires IsRun(states, steps) && k <= |steps| && f < states[k].issued
    requires Unanswered(SpecRun(SpecOf(states[0]), steps[..k]).answers, f)
    ensures states[k].host.completionCb[f % 32] == Some(f) && states[k].issued <= f + 32
  {
    RunGood(states, steps, k);
    var a, b :| Inv(states[k], SpecRun(SpecOf(states[0]), steps[..k]), a, b);
  }

  // ---------------------------------------------------------------- acknowledgements

  /** Each endpoint's TLPs are numbered 1, 2, ... modulo 4096; the acknowledgements it has logged,
      those on their way to it and its TLPs on their way to the peer are exactly those numbers, in
      that order. */
  lemma AcksConserved(states: seq<Sys>, steps: seq<Step>, k: nat)
    requires IsRun(states, steps) && k <= |steps|
    ensures exists a, b :: Streams(states[k], a, b)
    ensures forall a, b :: Streams(states[k], a, b) ==>
      && states[k].hostAcks + UpAcks(b) + DownSeqs(a) == Numbers(states[k].host.seqno)
      && states[k].devAcks + DownAcks(a) + UpSeqs(b) == Numbers(states[k].dev.seqno)
  {
    hide Next, SpecRun, Reads, Tagged, Streams, Exclusive;
    RunGood(states, steps, k);
    var x, y :| Inv(states[k], SpecRun(SpecOf(states[0]), steps[..k]), x, y);
    forall a, b | Streams(states[k], a, b)
      ensures states[k].hostAcks + UpAcks(b) + DownSeqs(a) == Numbers(states[k].host.seqno)
      ensures states[k].devAcks + DownAcks(a) + UpSeqs(b) == Numbers(states[k].dev.seqno)
    {
      SameStreams(states[k], x, y, a, b);
    }
  }

  // ---------------------------------------------------------------- draining

  /** A reception uses up work and leaves the specification alone. */
  lemma ReceptionWorks(s: Sys, sp: Spec, step: Step, n: nat)
    requires GoodWithin(s, sp, n) && Enabled(s, step) && IsReception(step)
    ensures n > 0 && GoodWithin(Next(s, step), sp, n - 1)
  {
    hide Inv, Next;
    var a, b :| Inv(s, sp, a, b) && Weight(a, b) <= n;
    match step
    case DevReceive => DevReceiveKeeps(s, Next(s, step), sp, a, b);
    case HostReceive => HostReceiveKeeps(s, Next(s, step), sp, a, b);
  }

  /** A system that only receives falls silent: from a state with work n, at most n receptions are
      possible, whatever their order. */
  lemma {:induction false} Drains(states: seq<Sys>, steps: seq<Step>, sp: Spec, n: nat)
    requires |states| == |steps| + 1 && GoodWithin(states[0], sp, n)
    requires forall k :: 0 <= k < |steps| ==>
      IsReception(steps[k]) && Enabled(states[k], steps[k]) && states[k + 1] == Next(states[k], steps[k])
    ensures |steps| <= n && GoodWithin(states[|steps|], sp, n - |steps|)
  {
    hide GoodWithin, Next;
    if steps != [] {
      ReceptionWorks(states[0], sp, steps[0], n);
      Drains(states[1..], steps[1..], sp, n - 1);
    }
  }
}
