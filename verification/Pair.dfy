/**
 The two programs as they run: a host client object and a memory device object, joined by their
 sockets.  While both stay connected every method is one step of the system, so the whole-run theorems
 hold of the objects themselves, in every order of calls and for every way send and recv behave.
 */
module Pair {
  import opened Bits
  import opened Proto
  import opened Frames
  import opened Endpoint
  import opened MemoryMock
  import opened System
  import opened Refinement
  import opened Theorems
  import C = Client
  import D = MockDevice

  /** The host has no callbacks of its own to serve reads with. */
  function NoRead(cb: nat, addr: nat, n: nat): (r: ReadResult)
    ensures r == ReadError
  {
    ReadError
  }

  /** What reaches the host is a completion or an acknowledgement, never a request. */
  lemma HostServesNothing(s: Sys, sp: Spec)
    requires Good(s, sp) && s.toHost != []
    ensures !Receive(s.host, s.toHost).reaction.Serve?
  {
    hide Reads, Conserved, Tagged, Exclusive, Receive, ValidDown, ValidUp, UpFrame;
    var a, b :| Inv(s, sp, a, b);
    assert b != [] && b[0] in b;
    HeadReaction(s.host, b[0], UpBytes(b[1..]));
  }

  lemma HeadReaction(c: Client, msg: Up, rest: seq<byte>)
    requires ValidUp(msg)
    ensures !Receive(c, UpFrame(msg) + rest).reaction.Serve?
  {
    hide Receive, ValidUp, AckFrame, TlpFrame;
    match msg
    case Completion(_, _, _, _) => ReceiveCompletion(c, msg, rest);
    case UpAck(n) => ReceiveAck(c, DLLP_ACK, n, rest);
  }

  /** Frames of the library never make the host disconnect. */
  lemma HostStaysUp(s: Sys, sp: Spec)
    requires Good(s, sp) && s.toHost != []
    ensures Receive(s.host, s.toHost).client.active == s.host.active
  {
    hide Reads, Conserved, Tagged, Exclusive, Receive, ValidDown, ValidUp, UpFrame;
    var a, b :| Inv(s, sp, a, b);
    assert b != [] && b[0] in b;
    HeadKeepsHost(s.host, b[0], UpBytes(b[1..]));
  }

  lemma HeadKeepsHost(c: Client, msg: Up, rest: seq<byte>)
    requires ValidUp(msg)
    ensures Receive(c, UpFrame(msg) + rest).client.active == c.active
  {
    hide Receive, ValidUp, AckFrame, TlpFrame;
    match msg
    case Completion(_, _, _, _) => ReceiveCompletion(c, msg, rest);
    case UpAck(n) => ReceiveAck(c, DLLP_ACK, n, rest);
  }

  /** Nor the device. */
  lemma DeviceStaysUp(s: Sys, sp: Spec)
    requires Good(s, sp) && s.toDev != []
    ensures Receive(s.dev, s.toDev).client.active == s.dev.active
  {
    hide Reads, Conserved, Tagged, Exclusive, Receive, ValidDown, ValidUp, DownFrame;
    var a, b :| Inv(s, sp, a, b);
    assert a != [] && a[0] in a;
    HeadKeepsDevice(s.dev, a[0], DownBytes(a[1..]));
  }

  lemma HeadKeepsDevice(c: Client, msg: Down, rest: seq<byte>)
    requires ValidDown(msg)
    ensures Receive(c, DownFrame(msg) + rest).client.active == c.active
  {
    hide Receive, ValidDown, AckFrame, TlpFrame;
    match msg
    case Request(_, _, _, _) => ReceiveRequest(c, msg, rest);
    case DownAck(n) => ReceiveAck(c, DLLP_ACK, n, rest);
  }

  /** One call of `warppipe_client_read` on the host is one reception of the host. */
  lemma HostComposed(s: Sys, reaction: Reaction, c: Client, before: seq<byte>, sent: seq<byte>)
    requires s.toHost != [] && Servable(reaction) && !reaction.Serve? && c.active && before <= sent
    requires reaction == Receive(s.host, s.toHost).reaction
    requires var r := Receive(s.host, s.toHost); C.Carries(r.client, before + r.ack, reaction, NoRead, c, sent)
    ensures var s' := Next(s, HostReceive);
      && s'.host == c && s'.toHost == s.toHost[Receive(s.host, s.toHost).consumed..]
      && s'.toDev == s.toDev + sent[|before|..]
      && s'.hostAcks == (if reaction.AckLogged? then s.hostAcks + [reaction.seqno] else s.hostAcks)
      && s'.dev == s.dev && s'.mock == s.mock && s'.issued == s.issued && s'.devAcks == s.devAcks
  {
    hide Receive, Registers.Valid, MockState.Valid;
  }

  /** The callback made by a reception of the host, whether or not its acknowledgement goes out. */
  lemma HostLogs(s: Sys, sp: Spec)
    requires Good(s, sp) && s.toHost != []
    ensures Good(Next(s, HostReceive), sp)
    ensures var r := Receive(s.host, s.toHost).reaction;
      && !r.Serve?
      && Next(s, HostReceive).log == (if r.Complete? then s.log + [(r.cb, r.payload)] else s.log) <= sp.answers
  {
    HostServesNothing(s, sp);
    ReceptionGood(s, sp, HostReceive);
    hide Receive, Good, Registers.Valid, MockState.Valid;
  }

  /** A read sent whole is one step. */
  lemma ReadHappened(s: Sys, s': Sys, sp: Spec, step: Step, frame: seq<byte>)
    requires Good(s, sp) && step.HostRead? && Enabled(s, step)
    requires (s'.host, frame) == IssueRead(s.host, step.space, step.addr, step.length, s.issued)
    requires s' == s.(host := s'.host, toDev := s.toDev + frame, issued := s.issued + 1)
    ensures Stepped(s, sp, step, s', SpecNext(sp, step)) && Good(s', SpecNext(sp, step))
    ensures s'.log <= SpecNext(sp, step).answers
  {
    hide Good, SpecNext, TlpFrame, ReadTlp, Registers.Valid, MockState.Valid;
    StepGood(s, sp, step);
    GoodRefines(s', SpecNext(sp, step));
  }

  lemma WriteHappened(s: Sys, s': Sys, sp: Spec, step: Step, frame: seq<byte>)
    requires Good(s, sp) && step.HostWrite? && Enabled(s, step)
    requires (s'.host, frame) == IssueWrite(s.host, step.space, step.addr, step.data, step.garbage)
    requires s' == s.(host := s'.host, toDev := s.toDev + frame)
    ensures Stepped(s, sp, step, s', SpecNext(sp, step)) && Good(s', SpecNext(sp, step))
    ensures s'.log <= SpecNext(sp, step).answers
  {
    hide Good, SpecNext, TlpFrame, WriteTlp, Registers.Valid, MockState.Valid;
    StepGood(s, sp, step);
    GoodRefines(s', SpecNext(sp, step));
  }

  lemma ReceptionGood(s: Sys, sp: Spec, step: Step)
    requires Good(s, sp) && IsReception(step) && Feasible(s, step)
    ensures Good(Next(s, step), sp) && Next(s, step).log <= sp.answers
  {
    hide Good, Next;
    StepGood(s, sp, step);
    assert SpecNext(sp, step) == sp;
    GoodRefines(Next(s, step), sp);
  }

  lemma WholeMoves(io: seq<C.Io>)
    ensures C.AllWhole(io) ==> forall n: nat :: C.Moved(io, n) == n
  {
  }

  /** One step of the system, mirrored by the local device. */
  ghost predicate Stepped(s: Sys, sp: Spec, step: Step, s': Sys, sp': Spec) {
    Enabled(s, step) && s' == Next(s, step) && sp' == SpecNext(sp, step)
  }

  /** What a reception of the device leaves is one step. */
  lemma DeviceStepped(s: Sys, s': Sys, sp: Spec, reaction: Reaction, out: seq<byte>)
    requires Good(s, sp) && s.toDev != [] && D.Received(s, reaction, s'.dev, s'.mock, s'.toDev, out)
    requires s' == s.(dev := s'.dev, mock := s'.mock, toDev := s'.toDev, toHost := s.toHost + out,
                      devAcks := s'.devAcks)
    requires s'.devAcks == if reaction.AckLogged? then s.devAcks + [reaction.seqno] else s.devAcks
    ensures Stepped(s, sp, DevReceive, s', sp) && Good(s', sp)
  {
    hide Good, Next, Registers.Valid, MockState.Valid;
    ReceptionGood(s, sp, DevReceive);
  }

  /** The same for the host. */
  lemma HostStepped(s: Sys, s': Sys, sp: Spec, reaction: Reaction, before: seq<byte>, sent: seq<byte>)
    requires Good(s, sp) && s.toHost != [] && Servable(reaction) && s'.host.active && before <= sent
    requires C.Fills(NoRead) && C.Did(s.host, s.toHost, before, reaction, NoRead, s'.host, s'.toHost, sent)
    requires s' == s.(host := s'.host, toHost := s'.toHost, toDev := s.toDev + sent[|before|..], log := s'.log,
                      hostAcks := s'.hostAcks)
    requires s'.log == if reaction.Complete? then s.log + [(reaction.cb, reaction.payload)] else s.log
    requires s'.hostAcks == if reaction.AckLogged? then s.hostAcks + [reaction.seqno] else s.hostAcks
    ensures Stepped(s, sp, HostReceive, s', sp) && Good(s', sp)
  {
    hide Good, Next, Receive, C.Carries, Registers.Valid, MockState.Valid;
    HostLogs(s, sp);
    HostComposed(s, reaction, s'.host, before, sent);
  }

  /** The callback made, if any, is the local device's next answer, connected or not. */
  lemma HostCalls(s: Sys, sp: Spec, reaction: Reaction, before: seq<byte>, c: Client, rest: seq<byte>, sent: seq<byte>)
    requires Good(s, sp) && s.toHost != [] && Servable(reaction) && C.Fills(NoRead)
    requires
      || C.Broke(s.host, before, reaction, c, sent)
      || C.Did(s.host, s.toHost, before, reaction, NoRead, c, rest, sent)
    ensures reaction.Complete? ==> s.log + [(reaction.cb, reaction.payload)] <= sp.answers
    ensures c.active ==> C.Did(s.host, s.toHost, before, reaction, NoRead, c, rest, sent)
  {
    hide Good, Next, Receive, C.Carries, Registers.Valid, MockState.Valid;
    HostLogs(s, sp);
  }

  class Pair {
    const host: C.Client
    const device: D.Device
    var issued: nat
    var log: seq<Delivery>
    var hostAcks: seq<nat>
    var devAcks: seq<nat>
    /** The device used locally. */
    ghost var spec: Spec

    ghost predicate Apart()
      reads this, device
    {
      && host != device.client && host.buf != device.client.buf && host.buf != device.cfg && host.buf !in device.mem
    }

    ghost predicate Sound()
      reads this, host, device, device.client, device.mem, device.cfg
    {
      Apart() && host.Valid() && device.Valid()
    }

    /** Both ends are connected. */
    ghost predicate Up()
      reads this, host, device, device.client
    {
      host.active && device.client.active
    }

    ghost function State(): (s: Sys)
      requires Sound()
      reads this, host, device, device.client, device.mem, device.cfg
    {
      Sys(host.State(), device.client.State(), device.State(), device.client.incoming, host.incoming,
          issued, log, hostAcks, devAcks)
    }

    /** The callbacks made are answers of the local device, in order; and while both ends are connected
        everything under way will be. */
    ghost predicate Valid()
      reads this, host, device, device.client, device.mem, device.cfg
    {
      Sound() && log <= spec.answers && (Up() ==> Good(State(), spec))
    }

    /** Two fresh ends; the device may have BARs registered. */
    constructor (host: C.Client, device: D.Device)
      requires host.Valid() && device.Valid() && host.active && device.client.active
      requires host != device.client && host.buf != device.client.buf
      requires host.buf != device.cfg && host.buf !in device.mem
      requires host.seqno == device.client.seqno == host.readTag == 0 && host.incoming == device.client.incoming == []
      requires forall t :: 0 <= t < 32 ==> host.completionCb[t] == None
      ensures Valid() && this.host == host && this.device == device && log == []
      ensures Up() && spec == Spec(device.client.Tables(), device.State(), 0, [])
    {
      this.host, this.device := host, device;
      issued, log, hostAcks, devAcks := 0, [], [], [];
      new;
      spec := SpecOf(State());
      InitGood(State());
    }

    /** Once everything arrived, every answer was delivered and the device's memories and BARs are those
        of the device used locally. */
    lemma Settled()
      requires Valid() && Up() && host.incoming == [] && device.client.incoming == []
      ensures log == spec.answers && device.State() == spec.mock && device.client.Tables() == spec.regs
    {
      hide Good;
      GoodRefines(State(), spec);
    }

    /** `warppipe_read` or `warppipe_config0_read` on a free slot. */
    method Read(space: Space, addr: nat, length: nat) returns (ret: int)
      requires Valid() && Up() && Carried(addr, length) && host.completionCb[host.readTag] == None
      modifies this, host, device.client
      ensures Valid() && log == old(log) && (ret == 0 <==> Up())
      ensures C.AllWhole(old(host.sends)) ==> ret == 0
      ensures ret == 0 ==> Stepped(old(State()), old(spec), HostRead(space, addr, length), State(), spec)
    {
      hide Good, Stepped, IssueRead, Registers.Valid, MockState.Valid, C.AllWhole, C.Moved;
      ghost var s, step := State(), HostRead(space, addr, length);
      var before := |host.sent|;
      WholeMoves(host.sends);
      ret := host.ReadImp(addr, length, issued, space);
      var sent := host.sent[before..];
      device.client.incoming := device.client.incoming + sent;
      if ret == 0 {
        issued := issued + 1;
        ReadHappened(s, State(), spec, step, sent);
        spec := SpecNext(spec, step);
      }
    }

    /** `warppipe_write` or `warppipe_config0_write`. */
    method Write(space: Space, addr: nat, data: seq<byte>) returns (ret: int, ghost step: Step)
      requires Valid() && Up() && Carried(addr, |data|) && FitsBuffer(addr, |data|)
      modifies this, host, device.client
      ensures Valid() && log == old(log) && (ret == 0 <==> Up())
      ensures C.AllWhole(old(host.sends)) ==> ret == 0
      ensures ret == 0 ==>
        && step.HostWrite? && step == HostWrite(space, addr, data, step.garbage)
        && Stepped(old(State()), old(spec), step, State(), spec)
    {
      hide Good, Stepped, SpecNext, TlpFrame, WriteTlp, Registers.Valid, MockState.Valid, Dwords, C.AllWhole, C.Moved;
      ghost var s := State();
      var before := |host.sent|;
      var wild;
      ghost var garbage;
      WholeMoves(host.sends);
      ret, wild, garbage := host.WriteImp(addr, data, space);
      step := HostWrite(space, addr, data, garbage);
      var sent := host.sent[before..];
      device.client.incoming := device.client.incoming + sent;
      if ret == 0 {
        WriteHappened(s, State(), spec, step, sent);
        spec := SpecNext(spec, step);
      }
    }

    /** The device's turn in the server loop. */
    method DeviceReceive() returns (got: bool)
      requires Valid() && Up() && device.client.incoming != []
      modifies this, host, device.client, device.client.buf, device.cfg, device.mem
      ensures Valid() && log == old(log)
      ensures !got ==> State() == old(State()) && spec == old(spec)
      ensures got && Up() ==> Stepped(old(State()), old(spec), DevReceive, State(), spec)
      ensures C.Reliable(old(device.client.recvs)) && C.AllWhole(old(device.client.sends)) ==> got && Up()
    {
      hide Good, Stepped, D.Received, Registers.Valid, MockState.Valid, C.Reliable, C.AllWhole, Receive, D.Stored;
      ghost var s := State();
      var before := |device.client.sent|;
      var reaction;
      DeviceStaysUp(s, spec);
      got, reaction := device.Receive(s);
      if got {
        var sent := device.client.sent[before..];
        host.incoming := host.incoming + sent;
        if reaction.AckLogged? {
          devAcks := devAcks + [reaction.seqno];
        }
        if Up() { DeviceStepped(s, State(), spec, reaction, sent); }
      }
    }

    /** The host's turn in the server loop. */
    method HostReceive() returns (got: bool)
      requires Valid() && Up() && host.incoming != []
      modifies this, host, host.buf, device.client
      ensures Valid() && old(log) <= log
      ensures !got ==> State() == old(State()) && spec == old(spec)
      ensures got && Up() ==> Stepped(old(State()), old(spec), System.HostReceive, State(), spec)
      ensures C.Reliable(old(host.recvs)) && C.AllWhole(old(host.sends)) ==> got && Up()
    {
      hide Good, Stepped, C.Did, C.Broke, Registers.Valid, MockState.Valid, C.Reliable, C.AllWhole, Receive;
      ghost var s, was := State(), host.sent;
      var before := |host.sent|;
      var reaction;
      HostStaysUp(s, spec);
      got, reaction := host.ClientRead(NoRead);
      if got {
        HostCalls(s, spec, reaction, was, host.State(), host.incoming, host.sent);
        device.client.incoming := device.client.incoming + host.sent[before..];
        if reaction.Complete? {
          log := log + [(reaction.cb, reaction.payload)];
        } else if reaction.AckLogged? {
          hostAcks := hostAcks + [reaction.seqno];
        }
        if Up() { HostStepped(s, State(), spec, reaction, was, host.sent); }
      }
    }
  }
}
