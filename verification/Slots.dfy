/**
 The completion slots on their own: what every step does to them, whether or not the host looks at a
 slot before it issues a read, and whatever is in the streams.
 */
module Slots {
  import opened Bits
  import opened Proto
  import opened Frames
  import opened Endpoint
  import opened MemoryMock
  import opened System
  import opened Refinement

  // ---------------------------------------------------------------- one reception

  /** The slot that held this callback became free. */
  predicate Freed(c: Client, c': Client, id: nat) {
    exists t :: 0 <= t < 32 && c.completionCb[t] == Some(id) && c'.completionCb == c.completionCb[t := None]
  }

  lemma SlotOf(c: Client, c': Client, id: nat) returns (t: nat)
    requires Freed(c, c', id)
    ensures t < 32 && c.completionCb[t] == Some(id) && c'.completionCb == c.completionCb[t := None]
  {
    t :| t < 32 && c.completionCb[t] == Some(id) && c'.completionCb == c.completionCb[t := None];
  }

  lemma ReactSlots(c: Client, p: seq<byte>)
    requires WellFormed(p)
    ensures var (c', reaction) := React(c, p);
      && c'.regs == c.regs && c'.readTag == c.readTag
      && if reaction.Complete? then Freed(c, c', reaction.cb) else c' == c
  {
    hide ReadAccess, WriteAccess, TlpDataLengthBytes, CplData;
  }

  lemma DevLeavesHost(s: Sys, r: Reception)
    requires r.consumed <= |s.toDev| && Servable(r.reaction)
    ensures DevNext(s, r).host == s.host && DevNext(s, r).log == s.log && DevNext(s, r).issued == s.issued
  {
    hide Answer, MockRead, MockWrite, TlpDataLengthBytes, WellFormed;
  }

  /** No callback was made and nothing changed, or one was and its slot became free. */
  predicate SlotStep(s: Sys, s': Sys) {
    && s'.host.regs == s.host.regs && s'.host.readTag == s.host.readTag && s'.issued == s.issued
    && if |s'.log| == |s.log| then s'.log == s.log && s'.host.completionCb == s.host.completionCb
       else |s'.log| == |s.log| + 1 && s'.log[..|s.log|] == s.log && Freed(s.host, s'.host, s'.log[|s.log|].0)
  }

  lemma HostSlots(s: Sys)
    ensures SlotStep(s, HostNext(s, Receive(s.host, s.toHost)))
  {
    hide Parse, AckFrame, Seal.LcrcValid, Seal.Crc16Valid, SeqOf, React, Registers.Valid, Freed;
    var parsed := Parse(s.toHost);
    if parsed.Tlp? {
      var d := parsed.pkt;
      TotalLengthPrefix(d[2..|d| - 4], d[2..]);
      ReactSlots(s.host, d[2..|d| - 4]);
    }
  }

  lemma NextReception(s: Sys, step: Step)
    requires IsReception(step) && Feasible(s, step)
    ensures Next(s, step)
      == if step.DevReceive? then DevNext(s, Receive(s.dev, s.toDev)) else HostNext(s, Receive(s.host, s.toHost))
  {
    hide DevNext, HostNext, Receive;
  }

  /** A reception by either side. */
  lemma ReceptionSlots(s: Sys, step: Step)
    requires IsReception(step) && Feasible(s, step)
    ensures SlotStep(s, Next(s, step))
    ensures step.DevReceive? ==> Next(s, step).host == s.host && Next(s, step).log == s.log
  {
    hide Next, DevNext, HostNext, Receive;
    NextReception(s, step);
    if step.DevReceive? { DevLeavesHost(s, Receive(s.dev, s.toDev)); } else { HostSlots(s); }
  }

  // ---------------------------------------------------------------- what every step keeps

  /** A slot holds a read of its own tag, never one whose callback was already made. */
  ghost predicate Stamped(s: Sys) {
    && s.host.readTag == s.issued % 32
    && (forall t :: 0 <= t < 32 && s.host.completionCb[t].Some? ==>
          s.host.completionCb[t].value < s.issued && s.host.completionCb[t].value % 32 == t)
    && (forall i :: 0 <= i < |s.log| ==>
          s.log[i].0 < s.issued && s.host.completionCb[s.log[i].0 % 32] != Some(s.log[i].0))
  }

  /** What issuing does to the slots. */
  lemma IssueSlots(s: Sys, step: Step)
    requires Feasible(s, step) && !IsReception(step)
    ensures var s' := Next(s, step);
      && s'.log == s.log && s'.host.regs == s.host.regs
      && if step.HostRead?
         then && s'.issued == s.issued + 1 && s'.host.readTag == (s.host.readTag + 1) % 32
              && s'.host.completionCb == s.host.completionCb[s.host.readTag := Some(s.issued)]
         else s'.issued == s.issued && s'.host.readTag == s.host.readTag && s'.host.completionCb == s.host.completionCb
  {
    hide TlpFrame, ReadTlp, WriteTlp, Registers.Valid, MockState.Valid;
  }

  lemma StampedReception(s: Sys, s': Sys)
    requires Stamped(s) && SlotStep(s, s')
    ensures Stamped(s')
  {
    if s'.log != s.log {
      var id := s'.log[|s.log|].0;
      var t := SlotOf(s.host, s'.host, id);
      assert id % 32 == t;
      forall i | 0 <= i < |s'.log|
        ensures s'.log[i].0 < s'.issued && s'.host.completionCb[s'.log[i].0 % 32] != Some(s'.log[i].0)
      {
        if i < |s.log| { assert s'.log[i] == s'.log[..|s.log|][i] == s.log[i]; }
      }
    }
  }

  lemma StampedStep(s: Sys, step: Step)
    requires Stamped(s) && Feasible(s, step)
    ensures Stamped(Next(s, step))
  {
    hide Next;
    if IsReception(step) {
      hide Stamped;
      ReceptionSlots(s, step);
      StampedReception(s, Next(s, step));
    } else {
      IssueSlots(s, step);
      NextTag(s.issued);
    }
  }

  /** Read e will never be called back: its slot is lost and its callback was not made. */
  ghost predicate Gone(s: Sys, e: nat) {
    e < s.issued && s.host.completionCb[e % 32] != Some(e) && Unanswered(s.log, e)
  }

  lemma GoneStep(s: Sys, step: Step, e: nat)
    requires Stamped(s) && Gone(s, e) && Feasible(s, step)
    ensures Gone(Next(s, step), e)
  {
    hide Next;
    var s' := Next(s, step);
    if IsReception(step) {
      ReceptionSlots(s, step);
      if s'.log != s.log {
        var id := s'.log[|s.log|].0;
        var t := SlotOf(s.host, s'.host, id);
        assert id != e;
        LogGrows(s.log, s'.log, e);
      }
    } else {
      IssueSlots(s, step);
    }
  }

  lemma LogGrows(log: seq<Delivery>, log': seq<Delivery>, f: nat)
    requires |log'| == |log| + 1 && log'[..|log|] == log
    ensures Unanswered(log', f) <==> Unanswered(log, f) && log'[|log|].0 != f
  {
    assert forall i :: 0 <= i < |log| ==> log'[i] == log'[..|log|][i] == log[i];
    if Unanswered(log', f) {
      forall i | 0 <= i < |log| ensures log[i].0 != f { assert log'[i] == log[i]; }
    }
  }

  /** Every read holds its slot until its callback is made. */
  ghost predicate Held(s: Sys) {
    forall f: nat :: f < s.issued && Unanswered(s.log, f) ==> s.host.completionCb[f % 32] == Some(f)
  }

  lemma HeldStep(s: Sys, step: Step)
    requires Stamped(s) && Held(s) && Enabled(s, step)
    ensures Held(Next(s, step))
  {
    hide Next;
    var s' := Next(s, step);
    forall f: nat | f < s'.issued && Unanswered(s'.log, f)
      ensures s'.host.completionCb[f % 32] == Some(f)
    {
      if IsReception(step) {
        ReceptionSlots(s, step);
        if s'.log != s.log {
          var id := s'.log[|s.log|].0;
          var t := SlotOf(s.host, s'.host, id);
          LogGrows(s.log, s'.log, f);
          assert s.host.completionCb[f % 32] == Some(f);
        }
      } else {
        IssueSlots(s, step);
        if f < s.issued { assert s.host.completionCb[f % 32] == Some(f); }
      }
    }
  }
}
