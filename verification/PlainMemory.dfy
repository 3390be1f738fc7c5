/**
 The point of the library: with its BARs laid out, the remote device behaves as plain byte arrays
 accessed in issue order, in every interleaving of requests and receptions.
 */
module PlainMemory {
  import opened Bits
  import opened Frames
  import opened Endpoint
  import opened MemoryMock
  import opened System
  import opened Refinement
  import opened Theorems
  import opened BarDecode

  /** Byte arrays, one per BAR, and the reads made of them. */
  datatype Plain = Plain(mem: seq<seq<byte>>, issued: nat, answers: seq<Delivery>)

  /** The device's BARs are laid out over its memories, and their callbacks are the device's own. */
  ghost predicate Ready(r: Regs, mem: seq<seq<byte>>, n: nat) {
    && Laid(r, n) && n <= 6 && |mem| == 6
    && forall i :: 0 <= i < n ==>
         && |mem[i]| == r.barSize[i]
         && r.barReadCb[i] in {None, Some(i)} && r.barWriteCb[i] in {None, Some(i)}
  }

  /** The access stays inside one BAR, less than 2 GiB before its end; reads need a read callback and
      a length the 12-bit byte count can hold. */
  predicate InBar(r: Regs, n: nat, step: Step)
    requires n <= 6
  {
    match step
    case HostRead(space, addr, length) =>
      var i := Window(r, n, addr);
      && space == Memory && i >= 0 && Tame(r.barSize[i], addr - r.bar[i])
      && addr + length <= r.bar[i] + r.barSize[i] && 1 <= length < 4096 && r.barReadCb[i].Some?
    case HostWrite(space, addr, data, _) =>
      var i := Window(r, n, addr);
      && space == Memory && i >= 0 && Tame(r.barSize[i], addr - r.bar[i])
      && addr + |data| <= r.bar[i] + r.barSize[i] && |data| >= 1
    case _ => true
  }

  /** The arrays have the sizes of the BARs. */
  predicate Sized(p: Plain, r: Regs, n: nat) {
    n <= 6 && |p.mem| == 6 && forall i :: 0 <= i < n ==> |p.mem[i]| == r.barSize[i]
  }

  function PlainNext(p: Plain, r: Regs, n: nat, step: Step): (p': Plain)
    requires Sized(p, r, n) && InBar(r, n, step)
    ensures Sized(p', r, n)
  {
    match step
    case HostRead(_, addr, length) =>
      var i := Window(r, n, addr);
      var off := addr - r.bar[i];
      p.(issued := p.issued + 1, answers := p.answers + [(p.issued, p.mem[i][off..off + length])])
    case HostWrite(_, addr, data, _) =>
      var i := Window(r, n, addr);
      if r.barWriteCb[i] == None then p
      else p.(mem := p.mem[i := Overlay(p.mem[i], addr - r.bar[i], data)])
    case _ => p
  }

  /** The specification device holds these arrays. */
  ghost predicate Holds(sp: Spec, r: Regs, m: Mock, n: nat, p: Plain) {
    && sp.regs == r && Ready(r, p.mem, n) && Ready(r, m.mem, n)
    && sp.mock == m.(mem := p.mem) && sp.issued == p.issued && sp.answers == p.answers
  }

  lemma PlainStep(sp: Spec, r: Regs, m: Mock, n: nat, p: Plain, step: Step)
    requires Holds(sp, r, m, n, p) && InBar(r, n, step)
    ensures Holds(SpecNext(sp, step), r, m, n, PlainNext(p, r, n, step))
  {
    hide Laid, LocalRead, LocalWrite, Intended, Overlay;
    match step
    case HostRead(_, addr, length) =>
      var i := Window(r, n, addr);
      LocalReadIsSlice(r, sp.mock, n, i, addr - r.bar[i], length);
      var d := p.mem[i][addr - r.bar[i]..addr - r.bar[i] + length];
      assert Counted(d) == d;
    case HostWrite(_, addr, data, _) =>
      var i := Window(r, n, addr);
      LocalWriteIsUpdate(r, sp.mock, n, i, addr - r.bar[i], data);
    case _ =>
  }

  predicate AllInBar(r: Regs, n: nat, steps: seq<Step>)
    requires n <= 6
  {
    forall k :: 0 <= k < |steps| ==> InBar(r, n, steps[k])
  }

  /** The arrays after the same steps. */
  function PlainAfter(p: Plain, r: Regs, n: nat, steps: seq<Step>): (p': Plain)
    requires Sized(p, r, n) && AllInBar(r, n, steps)
    ensures Sized(p', r, n)
  {
    if steps == [] then p
    else PlainNext(PlainAfter(p, r, n, steps[..|steps| - 1]), r, n, steps[|steps| - 1])
  }

  lemma {:induction false} PlainHolds(sp: Spec, r: Regs, m: Mock, n: nat, p: Plain, steps: seq<Step>)
    requires Sized(p, r, n) && AllInBar(r, n, steps) && Holds(sp, r, m, n, p)
    ensures Holds(SpecRun(sp, steps), r, m, n, PlainAfter(p, r, n, steps))
  {
    hide Holds, PlainNext, SpecNext, InBar, Sized;
    if steps != [] {
      var k := |steps| - 1;
      PlainHolds(sp, r, m, n, p, steps[..k]);
      PlainStep(SpecRun(sp, steps[..k]), r, m, n, PlainAfter(p, r, n, steps[..k]), steps[k]);
    }
  }

  /** From any reachable state whose device will have its BARs laid out once the requests under way
      arrive, and in every interleaving that stays inside the BARs, the completion callbacks made so
      far are a prefix of the reads of the plain arrays, each with all earlier writes applied and no
      later one; when the streams are drained every read was delivered and the device's memories are
      the arrays. */
  lemma RemoteMemoryIsPlain(states: seq<Sys>, steps: seq<Step>, sp: Spec, n: nat, k: nat)
    requires Interleaving(states, steps) && Good(states[0], sp) && k <= |steps|
    requires Ready(sp.regs, sp.mock.mem, n) && AllInBar(sp.regs, n, steps)
    ensures var plain := PlainAfter(Plain(sp.mock.mem, sp.issued, sp.answers), sp.regs, n, steps[..k]);
      && states[k].log <= plain.answers
      && (Quiet(states[k]) ==> states[k].log == plain.answers && states[k].mock.mem == plain.mem)
  {
    hide SpecRun, Good, Next, InBar, PlainAfter, Laid;
    assert sp.mock.(mem := sp.mock.mem) == sp.mock;
    PlainHolds(sp, sp.regs, sp.mock, n, Plain(sp.mock.mem, sp.issued, sp.answers), steps[..k]);
    InterleavingGood(states, steps, sp, k);
    GoodRefines(states[k], SpecRun(sp, steps[..k]));
  }
}
