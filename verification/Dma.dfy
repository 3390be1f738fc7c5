/**
 The DMA driver of zephyr-samples/drivers/dma/dma_emul.c: one worker drains a chain of channels in
 bursts while other threads call stop.  Every place where the worker does not hold the lock, any
 number of stop calls may happen (`Stops`).  The trace records stops, bursts and final callbacks.
 */
module Dma {
  import opened Bits
  import opened Frames
  import opened Endpoint
  import opened MemoryMock
  import opened System
  import opened Theorems
  import opened PlainMemory
  import opened Enumerate

  const EINVAL := -22
  const EBUSY := -16
  const EIO := -5

  datatype ChannelState = Unused | Loaded | Started | Stopped

  datatype Status = Complete | Canceled

  /** struct dma_block_config */
  datatype Block = Block(source: nat, dest: nat, size: nat)

  /** struct dma_config; `chained` is source_chaining_en or dest_chaining_en. */
  datatype Config = Config(
    count: nat, slot: nat, burst: nat, sourceBurst: nat, chained: bool, linked: nat, errorCb: bool)

  /** What happened, in order; a burst with the bytes it wrote and where. */
  datatype Event =
    | Stop(channel: nat)
    | Burst(channel: nat, dest: nat, bytes: seq<byte>)
    | Final(channel: nat, status: Status)

  // ---------------------------------------------------------------- what a transfer copies

  predicate Fits(b: Block, remote: seq<byte>, size: nat) {
    b.source + b.size <= |remote| && b.dest + b.size <= size
  }

  predicate AllFit(bs: seq<Block>, remote: seq<byte>, size: nat) {
    forall i :: 0 <= i < |bs| ==> Fits(bs[i], remote, size)
  }

  /** The first n bytes of a block at their destination, everything else as it was. */
  function CopyPart(mem: seq<byte>, remote: seq<byte>, b: Block, n: nat): (r: seq<byte>)
    requires Fits(b, remote, |mem|) && n <= b.size
    ensures |r| == |mem|
  {
    Overlay(mem, b.dest, remote[b.source..b.source + n])
  }

  /** Whole blocks, one after the other. */
  function CopyAll(mem: seq<byte>, remote: seq<byte>, bs: seq<Block>): (r: seq<byte>)
    requires AllFit(bs, remote, |mem|)
    ensures |r| == |mem|
  {
    if bs == [] then mem
    else
      var k := |bs| - 1;
      CopyPart(CopyAll(mem, remote, bs[..k]), remote, bs[k], bs[k].size)
  }

  lemma CopyNext(mem: seq<byte>, remote: seq<byte>, bs: seq<Block>, i: nat)
    requires i < |bs| && AllFit(bs, remote, |mem|)
    ensures CopyAll(mem, remote, bs[..i + 1]) == CopyPart(CopyAll(mem, remote, bs[..i]), remote, bs[i], bs[i].size)
  {
    assert bs[..i + 1][..i] == bs[..i];
  }

  /** One more burst. */
  lemma BurstExtends(mem: seq<byte>, remote: seq<byte>, b: Block, done: nat, bytes: nat)
    requires Fits(b, remote, |mem|) && done + bytes <= b.size
    ensures Overlay(CopyPart(mem, remote, b, done), b.dest + done, remote[b.source + done..b.source + done + bytes])
      == CopyPart(mem, remote, b, done + bytes)
  {
    var s := b.source;
    SliceSplit(remote, s, s + done, s + done + bytes);
    OverlayTwice(mem, b.dest, remote[s..s + done], remote[s + done..s + done + bytes]);
  }

  lemma SliceSplit<T>(r: seq<T>, x: nat, y: nat, z: nat)
    requires x <= y <= z <= |r|
    ensures r[x..y] + r[y..z] == r[x..z]
  {
  }

  lemma OverlayTwice(mem: seq<byte>, at: nat, x: seq<byte>, y: seq<byte>)
    requires at + |x| + |y| <= |mem|
    ensures Overlay(Overlay(mem, at, x), at + |x|, y) == Overlay(mem, at, x + y)
  {
    var r := Overlay(Overlay(mem, at, x), at + |x|, y);
    assert r[..at + |x|] == mem[..at] + x;
    assert r[at + |x| + |y|..] == mem[at + |x| + |y|..];
  }

  // ---------------------------------------------------------------- traces

  /** Bursts of channel c after its first stop. */
  function LateBursts(t: seq<Event>, c: nat): nat {
    if t == [] then 0
    else
      var k := |t| - 1;
      LateBursts(t[..k], c) + (if t[k].Burst? && t[k].channel == c && Stop(c) in t[..k] then 1 else 0)
  }

  /** The final callbacks, in order. */
  function Finals(t: seq<Event>): seq<(nat, Status)> {
    if t == [] then []
    else
      var k := |t| - 1;
      Finals(t[..k]) + (if t[k].Final? then [(t[k].channel, t[k].status)] else [])
  }

  /** The bursts, in order. */
  function Bursts(t: seq<Event>): (bs: seq<Event>)
    ensures forall i :: 0 <= i < |bs| ==> bs[i].Burst?
  {
    if t == [] then []
    else
      var k := |t| - 1;
      if t[k].Burst? then Bursts(t[..k]) + [t[k]] else Bursts(t[..k])
  }

  /** The memory after exactly these bursts. */
  function Replay(mem: seq<byte>, bs: seq<Event>): (r: seq<byte>)
    requires forall i :: 0 <= i < |bs| ==> bs[i].Burst?
    ensures |r| == |mem|
  {
    if bs == [] then mem
    else
      var k := |bs| - 1;
      var before := Replay(mem, bs[..k]);
      if bs[k].dest + |bs[k].bytes| <= |mem| then Overlay(before, bs[k].dest, bs[k].bytes) else before
  }

  /** The memory is what the bursts of the trace wrote over `base`, each of one to four bytes. */
  ghost predicate Logged(base: seq<byte>, t: seq<Event>, memory: seq<byte>) {
    && memory == Replay(base, Bursts(t))
    && forall i :: 0 <= i < |Bursts(t)| ==> 1 <= |Bursts(t)[i].bytes| <= 4
  }

  lemma BurstLogged(base: seq<byte>, t: seq<Event>, memory: seq<byte>, c: nat, dest: nat, bytes: seq<byte>)
    requires Logged(base, t, memory) && dest + |bytes| <= |memory| && 1 <= |bytes| <= 4
    ensures Logged(base, t + [Burst(c, dest, bytes)], Overlay(memory, dest, bytes))
  {
    var e := Burst(c, dest, bytes);
    Extend(t, e, c);
    assert (Bursts(t) + [e])[..|Bursts(t)|] == Bursts(t);
  }

  lemma SameLogged(base: seq<byte>, t: seq<Event>, t': seq<Event>, memory: seq<byte>)
    requires Logged(base, t, memory) && Bursts(t') == Bursts(t)
    ensures Logged(base, t', memory)
  {
  }

  lemma OtherLogged(base: seq<byte>, t: seq<Event>, memory: seq<byte>, e: Event)
    requires Logged(base, t, memory) && !e.Burst?
    ensures Logged(base, t + [e], memory)
  {
    Extend(t, e, 0);
  }

  lemma Extend(t: seq<Event>, e: Event, c: nat)
    ensures LateBursts(t + [e], c)
      == LateBursts(t, c) + (if e.Burst? && e.channel == c && Stop(c) in t then 1 else 0)
    ensures Bursts(t + [e]) == if e.Burst? then Bursts(t) + [e] else Bursts(t)
    ensures Finals(t + [e]) == Finals(t) + (if e.Final? then [(e.channel, e.status)] else [])
  {
    assert (t + [e])[..|t|] == t;
  }

  /** At most one burst followed a stop, and then the state says so; a stopped channel stays stopped. */
  ghost predicate Orderly(t: seq<Event>, state: seq<ChannelState>) {
    forall c :: 0 <= c < |state| ==>
      && (Stop(c) in t ==> state[c] == Stopped)
      && LateBursts(t, c) <= (if state[c] == Stopped then 1 else 0)
  }

  /** No final callback was made, and the only channels that changed were stopped. */
  ghost predicate OnlyStops(state: seq<ChannelState>, t: seq<Event>, state': seq<ChannelState>, t': seq<Event>) {
    && |state'| == |state| && t <= t' && Finals(t') == Finals(t)
    && forall c :: 0 <= c < |state| ==>
         if state'[c] == state[c] then true else state'[c] == Stopped && Stop(c) in t'
  }

  /** A stop keeps the trace orderly. */
  lemma StopOrderly(t: seq<Event>, state: seq<ChannelState>, c: nat)
    requires Orderly(t, state) && c < |state|
    ensures Orderly(t + [Stop(c)], state[c := Stopped])
    ensures Finals(t + [Stop(c)]) == Finals(t)
  {
    forall d | 0 <= d < |state|
      ensures LateBursts(t + [Stop(c)], d) == LateBursts(t, d)
    {
      Extend(t, Stop(c), d);
    }
    Extend(t, Stop(c), c);
  }

  /** A burst whose channel was seen running a moment ago keeps it orderly too. */
  lemma BurstOrderly(t: seq<Event>, state: seq<ChannelState>, e: Event)
    requires Orderly(t, state) && e.Burst? && e.channel < |state|
    requires LateBursts(t, e.channel) == 0
    ensures Orderly(t + [e], state)
    ensures Finals(t + [e]) == Finals(t)
  {
    forall d | 0 <= d < |state|
      ensures LateBursts(t + [e], d) <= if state[d] == Stopped then 1 else 0
    {
      Extend(t, e, d);
    }
    Extend(t, e, e.channel);
  }

  lemma FinalOrderly(t: seq<Event>, state: seq<ChannelState>, c: nat, status: Status)
    requires Orderly(t, state) && c < |state|
    ensures Orderly(t + [Final(c, status)], state)
    ensures Finals(t + [Final(c, status)]) == Finals(t) + [(c, status)]
  {
    forall d | 0 <= d < |state|
      ensures LateBursts(t + [Final(c, status)], d) == LateBursts(t, d)
    {
      Extend(t, Final(c, status), d);
    }
    Extend(t, Final(c, status), c);
  }

  lemma OnlyStopsTrans(s0: seq<ChannelState>, t0: seq<Event>, s1: seq<ChannelState>, t1: seq<Event>,
                       s2: seq<ChannelState>, t2: seq<Event>)
    requires OnlyStops(s0, t0, s1, t1) && OnlyStops(s1, t1, s2, t2)
    ensures OnlyStops(s0, t0, s2, t2)
  {
  }

  // ---------------------------------------------------------------- chains

  /** The channels linked from the first one on: in range, without repetition, to the end. */
  ghost predicate IsPath(xfer: seq<Config>, path: seq<nat>) {
    && |path| > 0 && (forall i :: 0 <= i < |path| ==> path[i] < |xfer|)
    && (forall i, j :: 0 <= i < j < |path| ==> path[i] != path[j])
    && (forall i :: 0 <= i < |path| - 1 ==> xfer[path[i]].chained && xfer[path[i]].linked == path[i + 1])
    && !xfer[path[|path| - 1]].chained
  }

  /** The channel n links behind c; links out of range end nowhere. */
  function Linked(xfer: seq<Config>, c: nat, n: nat): (r: int)
    requires c < |xfer|
    ensures r == -1 || 0 <= r < |xfer|
  {
    if n == 0 then c
    else
      var before := Linked(xfer, c, n - 1);
      if before == -1 || !xfer[before].chained || xfer[before].linked >= |xfer| then -1 else xfer[before].linked
  }

  /** The chain from c ends after n links. */
  predicate EndsAfter(xfer: seq<Config>, c: nat, n: nat)
    requires c < |xfer|
  {
    Linked(xfer, c, n) != -1 && !xfer[Linked(xfer, c, n)].chained
  }

  /** The channels visited in the first n links. */
  function Visiting(xfer: seq<Config>, c: nat, n: nat): (path: seq<int>)
    requires c < |xfer|
    ensures |path| == n + 1 && forall i :: 0 <= i <= n ==> path[i] == Linked(xfer, c, i)
  {
    if n == 0 then [c] else Visiting(xfer, c, n - 1) + [Linked(xfer, c, n)]
  }

  /** Two channels with the same number have the same future. */
  lemma {:induction false} SameFuture(xfer: seq<Config>, c: nat, i: nat, j: nat, m: nat)
    requires c < |xfer| && Linked(xfer, c, i) == Linked(xfer, c, j)
    ensures Linked(xfer, c, i + m) == Linked(xfer, c, j + m)
  {
    if m > 0 { SameFuture(xfer, c, i, j, m - 1); }
  }

  lemma {:induction false} Reached(xfer: seq<Config>, c: nat, n: nat, i: nat)
    requires c < |xfer| && i <= n && Linked(xfer, c, n) != -1
    ensures Linked(xfer, c, i) != -1 && (i < n ==> xfer[Linked(xfer, c, i)].chained)
  {
    if i < n {
      Reached(xfer, c, n - 1, if i < n - 1 then i else n - 1);
    }
  }

  /** `dma_emul_start` and the worker return exactly on the chains they are proved for: there is a path
      without repetition from c to an unlinked channel if and only if following the links ever ends
      inside the driver. */
  lemma PathIffEnds(xfer: seq<Config>, c: nat)
    requires c < |xfer|
    ensures (exists path: seq<nat> :: IsPath(xfer, path) && path[0] == c) <==> (exists n :: EndsAfter(xfer, c, n))
  {
    if path: seq<nat> :| IsPath(xfer, path) && path[0] == c {
      PathLinks(xfer, path, |path| - 1);
      assert EndsAfter(xfer, c, |path| - 1);
    }
    if n :| EndsAfter(xfer, c, n) {
      var k := FirstEnd(xfer, c, n);
      EndGivesPath(xfer, c, k);
    }
  }

  lemma {:induction false} PathLinks(xfer: seq<Config>, path: seq<nat>, i: nat)
    requires IsPath(xfer, path) && i < |path|
    ensures path[0] < |xfer| && Linked(xfer, path[0], i) == path[i]
  {
    if i > 0 {
      PathLinks(xfer, path, i - 1);
      PathStep(xfer, path, i - 1);
    }
  }

  lemma FirstEnd(xfer: seq<Config>, c: nat, n: nat) returns (k: nat)
    requires c < |xfer| && EndsAfter(xfer, c, n)
    ensures EndsAfter(xfer, c, k) && forall j :: 0 <= j < k ==> !EndsAfter(xfer, c, j)
  {
    hide EndsAfter;
    if j: nat :| j < n && EndsAfter(xfer, c, j) {
      k := FirstEnd(xfer, c, j);
    } else {
      k := n;
    }
  }

  lemma EndGivesPath(xfer: seq<Config>, c: nat, k: nat)
    requires c < |xfer| && EndsAfter(xfer, c, k) && forall j :: 0 <= j < k ==> !EndsAfter(xfer, c, j)
    ensures exists path: seq<nat> :: IsPath(xfer, path) && path[0] == c
  {
    var seen := Visiting(xfer, c, k);
    forall i | 0 <= i <= k
      ensures 0 <= seen[i] < |xfer|
      ensures i < k ==> xfer[seen[i]].chained && xfer[seen[i]].linked == seen[i + 1]
    {
      Reached(xfer, c, k, i);
      if i < k { Reached(xfer, c, k, i + 1); }
    }
    var path: seq<nat> := seq(k + 1, i requires 0 <= i <= k => seen[i]);
    forall i, j | 0 <= i < j < |path|
      ensures path[i] != path[j]
    {
      if path[i] == path[j] {
        SameFuture(xfer, c, i, j, k - j);
        assert EndsAfter(xfer, c, i + (k - j));
      }
    }
    forall i | 0 <= i < |path| - 1
      ensures xfer[path[i]].chained && xfer[path[i]].linked == path[i + 1]
    {
      assert path[i] == seen[i] && path[i + 1] == seen[i + 1];
    }
    assert path[k] == seen[k] && path[0] == seen[0];
    assert IsPath(xfer, path) && path[0] == c;
  }

  /** One COMPLETE per channel, in order. */
  function Completed(path: seq<nat>): seq<(nat, Status)> {
    if path == [] then [] else Completed(path[..|path| - 1]) + [(path[|path| - 1], Status.Complete)]
  }

  lemma CompletedNext(path: seq<nat>, k: nat)
    requires k < |path|
    ensures Completed(path[..k + 1]) == Completed(path[..k]) + [(path[k], Status.Complete)]
  {
    assert path[..k + 1][..k] == path[..k];
  }

  /** Every other channel is as it was, or was stopped. */
  ghost predicate OthersKept(s0: seq<ChannelState>, s1: seq<ChannelState>, t: seq<Event>, c: nat) {
    && |s1| == |s0|
    && forall d :: 0 <= d < |s0| && d != c ==> s1[d] == s0[d] || (s1[d] == Stopped && Stop(d) in t)
  }

  /** The worker is about to visit channel k of the chain. */
  ghost predicate AtChannel(state: seq<ChannelState>, t: seq<Event>, path: seq<nat>, k: nat) {
    && (forall i :: 0 <= i < |path| ==> path[i] < |state|)
    && (forall i :: 0 <= i < |path| && i < k ==> state[path[i]] == Stopped)
    && (forall i :: k <= i < |path| ==> state[path[i]] == Started || Stop(path[i]) in t)
  }

  lemma Visited(s0: seq<ChannelState>, t0: seq<Event>, s1: seq<ChannelState>, t1: seq<Event>, path: seq<nat>, k: nat)
    requires k < |path| && (forall i, j :: 0 <= i < j < |path| ==> path[i] != path[j])
    requires AtChannel(s0, t0, path, k) && OthersKept(s0, s1, t1, path[k]) && s1[path[k]] == Stopped && t0 <= t1
    ensures AtChannel(s1, t1, path, k + 1)
    ensures (s0[path[k]] == Stopped || Stop(path[k]) in t1) ==> Stop(path[k]) in t1
  {
    assert forall e :: e in t0 ==> e in t1;
    forall i | 0 <= i < |path|
      ensures i < k ==> s1[path[i]] == Stopped
      ensures i > k ==> s1[path[i]] == Started || Stop(path[i]) in t1
    {
      assert i < k ==> path[i] != path[k];
      assert i > k ==> path[k] != path[i];
      assert i >= k ==> s0[path[i]] == Started || Stop(path[i]) in t0;
    }
    assert s0[path[k]] == Started || Stop(path[k]) in t0;
  }

  lemma PathStep(xfer: seq<Config>, path: seq<nat>, k: nat)
    requires IsPath(xfer, path) && k < |path|
    ensures path[k] < |xfer| && (xfer[path[k]].chained <==> k + 1 < |path|)
    ensures k + 1 < |path| ==> xfer[path[k]].linked == path[k + 1]
  {
    if k + 1 < |path| { assert xfer[path[k]].linked == path[k + 1]; }
  }

  /** Some whole blocks and part of the next one. */
  ghost predicate Partway(mem: seq<byte>, remote: seq<byte>, bs: seq<Block>, now: seq<byte>)
    requires AllFit(bs, remote, |mem|)
  {
    exists k, n :: 0 <= k < |bs| && 0 <= n <= bs[k].size &&
      now == CopyPart(CopyAll(mem, remote, bs[..k]), remote, bs[k], n)
  }

  /** What configuring left behind: the transfers, the block slots, and the remote memory. */
  datatype Plan = Plan(requests: nat, remote: seq<byte>, xfer: seq<Config>, blocks: seq<Block>)

  /** The slots a channel's transfer uses. */
  function BlocksOf(p: Plan, c: nat): (bs: seq<Block>)
    requires c < |p.xfer| && c * p.requests + p.xfer[c].slot + p.xfer[c].count <= |p.blocks|
  {
    var at := c * p.requests + p.xfer[c].slot;
    p.blocks[at..at + p.xfer[c].count]
  }

  /** A transfer the worker can carry out: bursts of one to four bytes, blocks in range. */
  ghost predicate Runnable(p: Plan, c: nat, size: nat) {
    && c < |p.xfer| && c * p.requests + p.xfer[c].slot + p.xfer[c].count <= |p.blocks|
    && 1 <= p.xfer[c].burst <= 4 && AllFit(BlocksOf(p, c), p.remote, size)
  }

  ghost predicate AllRunnable(p: Plan, path: seq<nat>, size: nat) {
    forall i :: 0 <= i < |path| ==> Runnable(p, path[i], size)
  }

  /** The memory after the transfers of these channels, in order. */
  ghost function CopyChain(mem: seq<byte>, p: Plan, path: seq<nat>): (r: seq<byte>)
    requires AllRunnable(p, path, |mem|)
    ensures |r| == |mem|
  {
    if path == [] then mem
    else CopyAll(CopyChain(mem, p, path[..|path| - 1]), p.remote, BlocksOf(p, path[|path| - 1]))
  }

  lemma CopyChainNext(mem: seq<byte>, p: Plan, path: seq<nat>, k: nat)
    requires k < |path| && AllRunnable(p, path, |mem|)
    ensures CopyChain(mem, p, path[..k + 1]) == CopyAll(CopyChain(mem, p, path[..k]), p.remote, BlocksOf(p, path[k]))
  {
    assert path[..k + 1][..k] == path[..k];
  }

  /** The list is in the slots from `at` on, and the other slots are unchanged. */
  ghost predicate Stored(was: seq<Block>, now: seq<Block>, at: nat, list: seq<Block>) {
    && |now| == |was| && at + |list| <= |now|
    && (forall i :: 0 <= i < |list| ==> now[at + i] == list[i])
    && (forall i :: 0 <= i < |now| && !(at <= i < at + |list|) ==> now[i] == was[i])
  }

  /** How the worker ended: the whole chain copied and reported; or the first k channels, and channel k
      stopped by someone, copied in part and reported as cancelled if it asked for that. */
  ghost predicate Ended(p: Plan, before: seq<byte>, path: seq<nat>, k: nat, memory: seq<byte>, trace: seq<Event>)
    requires AllRunnable(p, path, |before|) && k <= |path|
  {
    if k == |path| then memory == CopyChain(before, p, path) && Finals(trace) == Completed(path)
    else
      var c := path[k];
      && Stop(c) in trace
      && Finals(trace) == Completed(path[..k]) + (if p.xfer[c].errorCb then [(c, Canceled)] else [])
      && Partway(CopyChain(before, p, path[..k]), p.remote, BlocksOf(p, c), memory)
  }

  // ---------------------------------------------------------------- the link

  lemma ReadySize(r: Regs, mem: seq<seq<byte>>, n: nat)
    requires Ready(r, mem, n)
    ensures n <= 6 == |mem|
  {
  }

  /** The remote device was enumerated and its BAR 0 can be read over the link. */
  ghost predicate Wired(sys: Sys, spec: Spec) {
    && Idle(sys, spec) && (exists n :: 0 < n && Ready(spec.regs, spec.mock.mem, n))
    && spec.regs.barReadCb[0] == Some(0) && sys.host.regs.bar[0] == spec.regs.bar[0] != 0
    && |spec.mock.mem[0]| < INT_LIMIT
  }

  /** A fresh link to a device that waits to be enumerated. */
  ghost predicate Fresh(s: Sys) {
    && Init(s) && ConfigOn(s.dev.regs) && Checked(s.mock.bars)
    && forall i :: 0 <= i < 6 ==> BlankBar(s.host.regs, i) && BlankBar(s.dev.regs, i)
  }

  /** The enumeration a start performs leaves the link ready for a device whose active BARs come first,
      of 16 bytes to 256 KiB, with BAR 0 active and readable. */
  lemma EnumeratedIsWired(sys: Sys, spec: Spec, n: nat)
    requires Idle(sys, spec) && Assigned(sys.host.regs, spec.regs, spec.mock.bars, 6)
    requires Prefix(spec.mock.bars, n) && n > 0 && spec.mock.bars[0].hasRead
    ensures Wired(sys, spec)
  {
    hide Idle, Ready;
    PrefixAgrees(sys.host.regs, spec.regs, spec.mock, n);
    AssignedPlaced(sys.host.regs, spec.regs, spec.mock.bars[0], 0);
    assert AssignedBar(sys.host.regs, spec.regs, spec.mock.bars[0], 0);
  }

  class Driver {
    const channels: nat
    const requests: nat
    /** Both ends of the link, and the remote device as the host has driven it so far. */
    var sys: Sys
    ghost var spec: Spec
    var xfer: seq<Config>
    var state: seq<ChannelState>
    var blocks: seq<Block>
    var memory: seq<byte>
    var trace: seq<Event>

    ghost predicate Valid()
      reads this
    {
      |xfer| == |state| == channels && |blocks| == channels * requests
    }

    constructor (channels: nat, requests: nat, xfer: seq<Config>, blocks: seq<Block>, memory: seq<byte>, sys: Sys)
      requires |xfer| == channels && |blocks| == channels * requests
      ensures Valid() && trace == [] && forall c :: 0 <= c < |state| ==> state[c] == Unused
    {
      this.channels, this.requests, this.sys, spec := channels, requests, sys, SpecOf(sys);
      this.xfer, this.blocks, this.memory := xfer, blocks, memory;
      state := seq(channels, _ => Unused);
      trace := [];
    }

    /** The memory behind the remote BAR 0. */
    ghost function Remote(): seq<byte>
      reads this`spec
    {
      spec.mock.mem[0]
    }

    ghost function ThePlan(): Plan
      reads this`xfer, this`blocks, this`spec
    {
      Plan(requests, Remote(), xfer, blocks)
    }

    /** `dma_emul_stop` */
    method StopChannel(c: nat)
      requires Valid() && c < channels && Orderly(trace, state)
      modifies this`state, this`trace
      ensures state == old(state)[c := Stopped] && trace == old(trace) + [Stop(c)]
      ensures Orderly(trace, state) && OnlyStops(old(state), old(trace), state, trace)
      ensures Bursts(trace) == Bursts(old(trace))
      ensures forall d :: 0 <= d < channels ==> LateBursts(trace, d) == LateBursts(old(trace), d)
    {
      StopOrderly(trace, state, c);
      Extend(trace, Stop(c), c);
      forall d | 0 <= d < channels
        ensures LateBursts(trace + [Stop(c)], d) == LateBursts(trace, d)
      {
        Extend(trace, Stop(c), d);
      }
      state, trace := state[c := Stopped], trace + [Stop(c)];
    }

    /** Any number of stop calls by other threads. */
    method Stops()
      requires Valid() && Orderly(trace, state)
      modifies this`state, this`trace
      ensures Valid() && Orderly(trace, state) && OnlyStops(old(state), old(trace), state, trace)
      ensures Bursts(trace) == Bursts(old(trace))
      ensures forall d :: 0 <= d < channels ==> LateBursts(trace, d) == LateBursts(old(trace), d)
    {
      hide Orderly, OnlyStops, LateBursts, Bursts;
      var calls := *;
      calls := if calls < 0 then 0 else calls;
      OnlyStopsRefl(state, trace);
      for i := 0 to calls
        invariant Valid() && Orderly(trace, state) && OnlyStops(old(state), old(trace), state, trace)
        invariant Bursts(trace) == Bursts(old(trace))
        invariant forall d :: 0 <= d < channels ==> LateBursts(trace, d) == LateBursts(old(trace), d)
      {
        var c := *;
        if 0 <= c < channels {
          ghost var s1, t1 := state, trace;
          StopChannel(c);
          OnlyStopsTrans(old(state), old(trace), s1, t1, state, trace);
        }
      }
    }

    /** One burst over the link: a read of the remote BAR 0, and the wait for its completion. */
    method Fetch(source: nat, bytes: nat) returns (result: seq<byte>)
      requires Wired(sys, spec) && 1 <= bytes <= 4 && source + bytes <= |Remote()|
      modifies this`sys, this`spec
      ensures Wired(sys, spec) && Remote() == old(Remote()) && result == Remote()[source..source + bytes]
    {
      hide Idle, Ready;
      ghost var n: nat :| 0 < n && Ready(spec.regs, spec.mock.mem, n);
      ReadySize(spec.regs, spec.mock.mem, n);
      var ret, data, s;
      ghost var sp;
      ret, data, s, sp := ReadBytes(sys, spec, n, 0, source, bytes);
      sys, spec, result := s, sp, data;
    }

    /** The burst loop of `dma_emul_work_handler` for one block; a burst length of 0 copies nothing. */
    method CopyBlock(c: nat, block: Block, burst: nat, ghost base: seq<byte>) returns (ok: bool)
      requires Valid() && Wired(sys, spec) && c < channels && Orderly(trace, state) && burst <= 4
      requires Fits(block, Remote(), |memory|) && Logged(base, trace, memory)
      modifies this`state, this`trace, this`memory, this`sys, this`spec
      ensures Valid() && Orderly(trace, state) && OnlyStops(old(state), old(trace), state, trace)
      ensures |memory| == |old(memory)| && Wired(sys, spec) && Remote() == old(Remote())
      ensures Logged(base, trace, memory)
      ensures ok ==> memory == CopyPart(old(memory), Remote(), block, if burst == 0 then 0 else block.size)
      ensures !ok ==> state[c] == Stopped
      ensures !ok ==> exists n :: 0 <= n <= block.size && memory == CopyPart(old(memory), Remote(), block, n)
    {
      hide Orderly, OnlyStops, LateBursts, CopyPart, Overlay, Wired, Bursts, Replay, Logged;
      ghost var remote := Remote();
      var size, source, dest := block.size, block.source, block.dest;
      ghost var done := 0;
      NothingCopied(memory, remote, block);
      OnlyStopsRefl(state, trace);
      var bytes := if size < burst then size else burst;
      while bytes > 0
        invariant Valid() && Orderly(trace, state) && OnlyStops(old(state), old(trace), state, trace)
        invariant 0 <= done && 0 <= size && done + size == block.size
        invariant source == block.source + done && dest == block.dest + done
        invariant bytes == (if size < burst then size else burst) && (burst == 0 ==> done == 0)
        invariant memory == CopyPart(old(memory), remote, block, done) && Wired(sys, spec) && Remote() == remote
        invariant Logged(base, trace, memory)
        decreases size
      {
        ghost var s1, t1 := state, trace;
        Stops();
        OnlyStopsTrans(old(state), old(trace), s1, t1, state, trace);
        SameLogged(base, t1, trace, memory);
        if state[c] == Stopped {
          return false;
        }
        RunningNotLate(trace, state, c);
        s1, t1 := state, trace;
        Stops();
        OnlyStopsTrans(old(state), old(trace), s1, t1, state, trace);
        SameLogged(base, t1, trace, memory);
        BurstExtends(old(memory), remote, block, done, bytes);
        var result := Fetch(source, bytes);
        BurstLogged(base, trace, memory, c, dest, result);
        memory := Overlay(memory, dest, result);
        var event := Burst(c, dest, result);
        BurstOrderly(trace, state, event);
        BurstOnly(old(state), old(trace), state, trace, event);
        trace := trace + [event];
        done := done + bytes;
        size, source, dest := size - bytes, source + bytes, dest + bytes;
        bytes := if size < burst then size else burst;
      }
      return true;
    }

    /** One pass of the worker over a channel, to its final callback. */
    method Visit(c: nat, ghost base: seq<byte>) returns (done: bool)
      requires Valid() && Wired(sys, spec) && Runnable(ThePlan(), c, |memory|) && Orderly(trace, state)
      requires Logged(base, trace, memory)
      modifies this`state, this`trace, this`memory, this`sys, this`spec
      ensures Valid() && Orderly(trace, state) && |memory| == |old(memory)| && old(trace) <= trace
      ensures Wired(sys, spec) && ThePlan() == old(ThePlan()) && state[c] == Stopped && Logged(base, trace, memory)
      ensures OthersKept(old(state), state, trace, c)
      ensures done ==>
        && memory == CopyAll(old(memory), Remote(), BlocksOf(ThePlan(), c))
        && Finals(trace) == Finals(old(trace)) + [(c, Status.Complete)]
      ensures !done ==>
        && Partway(old(memory), Remote(), BlocksOf(ThePlan(), c), memory)
        && Finals(trace) == Finals(old(trace)) + (if xfer[c].errorCb then [(c, Canceled)] else [])
        && (old(state)[c] == Stopped || Stop(c) in trace)
    {
      hide Orderly, LateBursts, CopyPart, Fits, Finals, Wired, Bursts, Replay;
      ghost var remote := Remote();
      ghost var bs := BlocksOf(ThePlan(), c);
      var config := xfer[c];
      assert bs[..0] == [];
      Stops();
      for i := 0 to config.count
        invariant Valid() && Orderly(trace, state) && OnlyStops(old(state), old(trace), state, trace)
        invariant memory == CopyAll(old(memory), remote, bs[..i]) && Wired(sys, spec) && Remote() == remote
        invariant Logged(base, trace, memory)
      {
        ghost var s1, t1, m1 := state, trace, memory;
        Stops();
        OnlyStopsTrans(old(state), old(trace), s1, t1, state, trace);
        var block := blocks[c * requests + config.slot + i];
        assert block == bs[i];
        s1, t1 := state, trace;
        var ok := CopyBlock(c, block, config.burst, base);
        OnlyStopsTrans(old(state), old(trace), s1, t1, state, trace);
        if !ok {
          if config.errorCb {
            FinalOrderly(trace, state, c, Canceled);
            OtherLogged(base, trace, memory, Final(c, Canceled));
            trace := trace + [Final(c, Canceled)];
          }
          return false;
        }
        CopyNext(old(memory), remote, bs, i);
      }
      assert bs[..config.count] == bs;
      StoppedOrderly(trace, state, c);
      state := state[c := Stopped];
      ghost var s1, t1 := state, trace;
      Stops();
      FinalOrderly(trace, state, c, Status.Complete);
      OtherLogged(base, trace, memory, Final(c, Status.Complete));
      trace := trace + [Final(c, Status.Complete)];
      return true;
    }

    /** `dma_emul_work_handler`.  The first k channels of the chain were copied whole, in order, and each
        reported COMPLETE once; if k is not the whole chain, channel k was stopped by someone and was
        the last one touched.  Everything written was written by the bursts of the trace, of at most four
        bytes each, and no channel had more than one of them after it was stopped. */
    method Work(first: nat, ghost path: seq<nat>) returns (ghost k: nat)
      requires Valid() && Wired(sys, spec) && IsPath(xfer, path) && first == path[0] && trace == []
      requires AllRunnable(ThePlan(), path, |memory|) && forall i :: 0 <= i < |path| ==> state[path[i]] == Started
      modifies this`state, this`trace, this`memory, this`sys, this`spec
      ensures Valid() && Wired(sys, spec) && ThePlan() == old(ThePlan()) && k <= |path|
      ensures Logged(old(memory), trace, memory) && forall c :: 0 <= c < channels ==> LateBursts(trace, c) <= 1
      ensures forall i :: 0 <= i < k ==> state[path[i]] == Stopped
      ensures Ended(old(ThePlan()), old(memory), path, k, memory, trace)
      ensures (forall c :: Stop(c) !in trace) ==> k == |path|
      ensures forall i :: k < i < |path| ==> state[path[i]] == Started || Stop(path[i]) in trace
    {
      hide CopyAll, AllFit, Partway, LateBursts, BlocksOf, Orderly, CopyChain, OthersKept, Finals, Completed, Wired,
        Logged;
      var channel := first;
      k := 0;
      assert path[..0] == [];
      ghost var plan := ThePlan();
      NothingYet(state, memory, plan);
      while true
        invariant k < |path| && channel == path[k] && Valid() && Orderly(trace, state) && |memory| == |old(memory)|
        invariant Finals(trace) == Completed(path[..k])
        invariant memory == CopyChain(old(memory), plan, path[..k])
        invariant AtChannel(state, trace, path, k) && Wired(sys, spec) && ThePlan() == plan
        invariant Logged(old(memory), trace, memory)
        decreases |path| - k
      {
        PathStep(xfer, path, k);
        var config := xfer[channel];
        ghost var s0, t0 := state, trace;
        var done := Visit(channel, old(memory));
        Visited(s0, t0, state, trace, path, k);
        OrderlyBound(trace, state);
        if !done {
          return;
        }
        CopyChainNext(old(memory), plan, path, k);
        CompletedNext(path, k);
        k := k + 1;
        if config.chained {
          channel := config.linked;
        } else {
          assert path[..k] == path;
          break;
        }
      }
    }

    /** `dma_emul_start`: refused out of range, without a connection and when never configured, a no-op
        when already started; otherwise exactly the channels of the chain become STARTED, also when the
        work cannot be submitted.  The remote device is enumerated first.  `created` tells whether the
        connection was made, over the link `s0`, and `submitted` what the work queue answered. */
    method Start(channel: nat, created: bool, s0: Sys, submitted: int, ghost path: seq<nat>) returns (ret: int)
      requires Valid() && (created ==> Fresh(s0))
      requires channel < channels && state[channel] in {Loaded, Stopped} ==> IsPath(xfer, path) && path[0] == channel
      modifies this`state, this`sys, this`spec
      ensures Valid()
      ensures ret
        == if channel >= channels then EINVAL else if !created then -1
           else if old(state)[channel] == Unused then EIO
           else if old(state)[channel] != Started && submitted < 0 then submitted else 0
      ensures channel >= channels || !created ==> state == old(state) && sys == old(sys) && spec == old(spec)
      ensures channel < channels && created ==>
        && Idle(sys, spec) && spec.mock.bars == s0.mock.bars && spec.mock.mem == s0.mock.mem
        && (s0.mock.cfg[..2] != [0xff, 0xff] && s0.mock.cfg[0xe] == 0 ==>
              Assigned(sys.host.regs, spec.regs, s0.mock.bars, 6))
      ensures channel < channels && old(state)[channel] in {Started, Unused} ==> state == old(state)
      ensures channel < channels && created && old(state)[channel] in {Loaded, Stopped} ==>
        forall c :: 0 <= c < channels ==> state[c] == if c in path then Started else old(state)[c]
    {
      hide Assigned, Idle, Init, Checked;
      if channel >= channels {
        return EINVAL;
      }
      if !created {
        return -1;
      }
      var _, linked, local := Enumerate.Enumerate(s0);
      sys, spec := linked, local;
      if state[channel] == Started {
        return 0;
      }
      if state[channel] == Unused {
        return EIO;
      }
      StartChain(channel, path);
      return if submitted < 0 then submitted else 0;
    }

    /** The loop of `dma_emul_start` along the links. */
    method StartChain(channel: nat, ghost path: seq<nat>)
      requires Valid() && IsPath(xfer, path) && path[0] == channel
      modifies this`state
      ensures Valid()
      ensures forall c :: 0 <= c < channels ==> state[c] == if c in path then Started else old(state)[c]
    {
      assert |path| > 0;
      hide IsPath;
      var c := channel;
      ghost var k := 0;
      while true
        invariant Valid() && k < |path| && c == path[k]
        invariant forall d :: 0 <= d < channels ==> state[d] == if d in path[..k] then Started else old(state)[d]
        decreases |path| - k
      {
        PathStep(xfer, path, k);
        state := state[c := Started];
        assert path[..k + 1] == path[..k] + [path[k]];
        k := k + 1;
        if xfer[c].chained {
          c := xfer[c].linked;
        } else {
          assert path[..k] == path;
          break;
        }
      }
    }

    predicate Acceptable(channel: nat, config: Config, list: seq<Block>) {
      && config.slot < requests && channel < channels && config.burst == config.sourceBurst
      && config.count <= |list| && config.count <= requests
    }

    /** `dma_emul_config_valid`; a list shorter than the count ends in NULL. */
    method ConfigValid(channel: nat, config: Config, list: seq<Block>) returns (ok: bool)
      ensures ok == Acceptable(channel, config, list)
    {
      if config.slot >= requests || channel >= channels || config.burst != config.sourceBurst {
        return false;
      }
      for i := 0 to config.count
        invariant i <= |list| && i <= requests
      {
        if i >= |list| {
          return false;
        }
        if i >= requests {
          return false;
        }
      }
      return true;
    }

    /** Copy blocks into consecutive slots. */
    method StoreBlocks(at: nat, list: seq<Block>)
      requires at + |list| <= |blocks|
      modifies this`blocks
      ensures Stored(old(blocks), blocks, at, list)
    {
      for i := 0 to |list|
        invariant Stored(old(blocks), blocks, at, list[..i])
      {
        blocks := blocks[at + i := list[i]];
      }
      assert list[..|list|] == list;
    }

    /** `dma_emul_configure`: invalid requests and loaded or started channels are refused without any
        change; otherwise the channel is LOADED with the configuration and its blocks in the slots from
        its first slot on.  `wild` tells that blocks were written behind the last slot of the driver,
        which happens exactly for the last channel when first slot and count together pass its slots. */
    method Configure(channel: nat, config: Config, list: seq<Block>) returns (ret: int, wild: bool)
      requires Valid()
      modifies this`xfer, this`state, this`blocks
      ensures Valid() && ret in {0, EINVAL, EBUSY}
      ensures ret == 0 <==> Acceptable(channel, config, list) && old(state)[channel] in {Unused, Stopped}
      ensures ret != 0 ==> !wild && xfer == old(xfer) && state == old(state) && blocks == old(blocks)
      ensures ret == 0 ==>
        && xfer == old(xfer)[channel := config] && state == old(state)[channel := Loaded]
        && (wild <==> channel + 1 == channels && config.slot + config.count > requests)
      ensures ret == 0 && !wild ==>
        && channel * requests + config.slot + config.count <= |blocks|
        && BlocksOf(ThePlan(), channel) == list[..config.count]
        && Stored(old(blocks), blocks, channel * requests + config.slot, list[..config.count])
      ensures ret == 0 && wild ==>
        var at := channel * requests + config.slot;
        at <= |blocks| < at + config.count && Stored(old(blocks), blocks, at, list[..|blocks| - at])
    {
      var ok := ConfigValid(channel, config, list);
      if !ok {
        return EINVAL, false;
      }
      if state[channel] != Unused && state[channel] != Stopped {
        return EBUSY, false;
      }
      InsideIff(channel, channels, requests, config.slot, config.count);
      xfer := xfer[channel := config];
      var at := channel * requests + config.slot;
      wild := at + config.count > |blocks|;
      StoreBlocks(at, list[..if wild then |blocks| - at else config.count]);
      state := state[channel := Loaded];
      ret := 0;
    }
  }

  /** Configuring a channel whose blocks fit its own slots leaves the slots of every other channel
      alone. */
  lemma ConfigureKeepsOthers(was: seq<Block>, now: seq<Block>, requests: nat, c: nat, slot: nat, list: seq<Block>,
                             d: nat, i: nat)
    requires Stored(was, now, c * requests + slot, list) && slot + |list| <= requests
    requires d != c && i < requests && d * requests + i < |now|
    ensures now[d * requests + i] == was[d * requests + i]
  {
    if d < c {
      assert (d + 1) * requests <= c * requests;
    } else {
      assert (c + 1) * requests <= d * requests;
    }
  }

  /** When a channel's blocks stay inside the driver's slots at all. */
  lemma InsideIff(c: nat, channels: nat, requests: nat, slot: nat, count: nat)
    requires c < channels && slot < requests && count <= requests
    ensures c * requests + slot < channels * requests
    ensures c * requests + slot + count <= channels * requests <==> c + 1 < channels || slot + count <= requests
  {
    Rows(c, channels - c, requests);
  }

  lemma Rows(c: nat, d: nat, r: nat)
    ensures (c + d) * r == c * r + d * r
    ensures d == 1 ==> d * r == r
    ensures d >= 2 ==> d * r >= 2 * r
  {
    if d >= 2 { assert d * r == 2 * r + (d - 2) * r; }
  }

  /** The check of count and first slot, each on its own, is not enough: when together they pass the
      end of the channel's slots, the next channel's first slot is overwritten. */
  lemma ConfigureOverflows(was: seq<Block>, now: seq<Block>, requests: nat, c: nat, slot: nat, list: seq<Block>)
    requires Stored(was, now, c * requests + slot, list) && slot < requests && |list| <= requests < slot + |list|
    ensures (c + 1) * requests < |now| && now[(c + 1) * requests] == list[requests - slot]
  {
    assert (c + 1) * requests == c * requests + slot + (requests - slot);
  }

  lemma StoppedOrderly(t: seq<Event>, state: seq<ChannelState>, c: nat)
    requires Orderly(t, state) && c < |state|
    ensures Orderly(t, state[c := Stopped])
  {
  }

  lemma OnlyStopsRefl(s: seq<ChannelState>, t: seq<Event>)
    ensures OnlyStops(s, t, s, t)
  {
  }

  lemma NothingCopied(mem: seq<byte>, remote: seq<byte>, b: Block)
    requires Fits(b, remote, |mem|)
    ensures CopyPart(mem, remote, b, 0) == mem
  {
  }

  /** A channel seen running has had no stop, hence no late burst. */
  lemma RunningNotLate(t: seq<Event>, state: seq<ChannelState>, c: nat)
    requires Orderly(t, state) && c < |state| && state[c] != Stopped
    ensures LateBursts(t, c) == 0
  {
  }

  lemma BurstOnly(s0: seq<ChannelState>, t0: seq<Event>, s: seq<ChannelState>, t: seq<Event>, e: Event)
    requires OnlyStops(s0, t0, s, t) && e.Burst?
    ensures OnlyStops(s0, t0, s, t + [e])
  {
    Extend(t, e, 0);
  }

  lemma NothingYet(state: seq<ChannelState>, memory: seq<byte>, p: Plan)
    ensures Orderly([], state) && CopyChain(memory, p, []) == memory && Finals([]) == Completed([]) == []
    ensures Logged(memory, [], memory)
  {
  }

  lemma OrderlyBound(t: seq<Event>, state: seq<ChannelState>)
    requires Orderly(t, state)
    ensures forall c :: 0 <= c < |state| ==> LateBursts(t, c) <= 1
  {
  }
}
