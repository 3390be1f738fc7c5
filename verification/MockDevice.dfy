/**
 memory-mock/main.c as the program updates its globals in place: BAR memories, the configuration
 space, and the BAR table of the client it was connected to.  Each callback is proved against the
 functions of MemoryMock.
 */
module MockDevice {
  import opened Bits
  import opened Crc
  import opened Seal
  import opened Frames
  import opened MemoryMock
  import E = Endpoint
  import C = Client
  import opened Proto
  import opened System
  import opened Slots

  /** `read_bar`: copies into the completion buffer as much as the memory holds. */
  method ReadMemory(mem: array<byte>, wild: seq<byte>, addr: nat, data: array<byte>, length: nat) returns (error: bool)
    requires mem.Length < U32 && length <= data.Length && data != mem
    requires forall i :: 0 <= i < data.Length ==> data[i] == 0
    modifies data
    ensures error == ReadBar(mem[..], wild, addr, length).ReadError?
    ensures !error ==> data[..length] == ReadBar(mem[..], wild, addr, length).data
  {
    if addr > mem.Length {
      return true;
    }
    var maxLen := ToInt(mem.Length - addr);
    var n: int := length;
    if n > maxLen {
      n := maxLen;
    }
    if n < 0 {
      var junk := Undefined(wild, length);
      C.Client.CopyIn(data, 0, junk);
      return false;
    }
    forall k | 0 <= k < n {
      data[k] := mem[addr + k];
    }
    assert data[..length] == mem[addr..addr + n] + Zeros(length - n);
    return false;
  }

  /** `write_bar` */
  method WriteMemory(mem: array<byte>, wild: seq<byte>, addr: nat, data: seq<byte>)
    requires mem.Length < U32
    modifies mem
    ensures mem[..] == WriteBar(old(mem[..]), wild, addr, data)
  {
    if addr > mem.Length {
      return;
    }
    var maxLen := ToInt(mem.Length - addr);
    var n: int := |data|;
    if n > maxLen {
      n := maxLen;
    }
    if n < 0 {
      C.Client.CopyIn(mem, 0, Undefined(wild, mem.Length));
      return;
    }
    C.Client.CopyIn(mem, addr, data[..n]);
    assert n == |data| ==> data[..n] == data;
  }

  /** `verify_args` */
  method VerifyArgs(bars: seq<BarConfig>) returns (ok: bool)
    ensures ok <==> forall i :: 0 <= i < |bars| ==> bars[i].size == 0 || IsPow2(bars[i].size)
  {
    for i := 0 to |bars|
      invariant forall j :: 0 <= j < i ==> bars[j].size == 0 || IsPow2(bars[j].size)
    {
      if bars[i].size > 0 {
        PowerOfTwoTest(bars[i].size);
        if And(bars[i].size - 1, bars[i].size) != 0 {
          AndCommutes(bars[i].size - 1, bars[i].size);
          return false;
        }
        AndCommutes(bars[i].size - 1, bars[i].size);
      }
    }
    return true;
  }

  lemma {:induction false} AndCommutes(x: nat, y: nat)
    ensures And(x, y) == And(y, x)
    decreases x
  {
    if x > 0 && y > 0 { AndCommutes(x / 2, y / 2); }
  }

  class Device {
    const bars: seq<BarConfig>
    const cfg: array<byte>
    const mem: seq<array<byte>>
    /** What undefined accesses produce. */
    const wild: seq<byte>
    var client: C.Client

    ghost predicate Shaped() {
      && |bars| == |mem| == 6 && cfg.Length == 64
      && (forall i :: 0 <= i < 6 ==> bars[i].size < U32 && bars[i].config < 256 && mem[i].Length == bars[i].size)
      && (forall i :: 0 <= i < 6 ==> mem[i] != cfg)
      && (forall i, j :: 0 <= i < j < 6 ==> mem[i] != mem[j])
    }

    ghost predicate Valid()
      reads this, client
    {
      Shaped() && client.Valid() && client.buf != cfg && client.buf !in mem
    }

    function State(): (m: Mock)
      requires Shaped()
      reads mem, cfg
    {
      MockState(bars, cfg[..], [mem[0][..], mem[1][..], mem[2][..], mem[3][..], mem[4][..], mem[5][..]], wild)
    }

    /** The program's globals, and the client it serves. */
    constructor (bars: seq<BarConfig>, cfg: array<byte>, mem: seq<array<byte>>, wild: seq<byte>, c: C.Client)
      ensures this.bars == bars && this.cfg == cfg && this.mem == mem && this.wild == wild && client == c
    {
      this.bars, this.cfg, this.mem, this.wild, client := bars, cfg, mem, wild, c;
    }

    /** `handle_config_bar_write` */
    method HandleConfigBarWrite(i: nat, value: nat)
      requires Valid() && i < 6 && value < U32
      modifies cfg, client`bar, client`barSize, client`barReadCb, client`barWriteCb
      ensures Valid()
      ensures (State(), client.Tables()) == ConfigBarWrite(old(State()), old(client.Tables()), i, value)
    {
      var b := bars[i];
      var addr := And(value, Not32(E.SizeMask(b.size)));
      AndBound(value, Not32(E.SizeMask(b.size)));
      WriteTrailer(cfg, BAR_OFFSET + 4 * i, Or(addr, b.config), 4);
      hide Trailer, Or, And, Not32, IsPow2;
      assert cfg[..] == Overlay(old(cfg[..]), BAR_OFFSET + 4 * i, Trailer(Or(addr, b.config), 4));
      if value != 0xffff_ffff && client.bar[i] == 0 {
        var read, write := if b.hasRead then E.Some(i) else E.None, if b.hasWrite then E.Some(i) else E.None;
        var _ := client.RegisterBar(addr, b.size, i, read, write);
      }
    }

    /** `config0_read_cb` */
    method Config0ReadCb(addr: nat, data: array<byte>, length: nat) returns (error: bool)
      requires Valid() && data.Length >= 4 && data != cfg && data !in mem && data != client.buf
      modifies data
      ensures Valid() && State() == old(State())
      ensures error == Config0Read(State(), addr, length).ReadError?
      ensures !error ==> data[..4] == Config0Read(State(), addr, length).data && length == 4
    {
      if addr % 4 != 0 || length != 4 {
        return true;
      }
      C.Client.CopyIn(data, 0, if addr + 4 <= 64 then cfg[addr..addr + 4] else Undefined(wild, 4));
      return false;
    }

    /** `config0_write_cb` */
    method Config0WriteCb(addr: nat, data: seq<byte>)
      requires Valid()
      modifies cfg, client`bar, client`barSize, client`barReadCb, client`barWriteCb
      ensures Valid()
      ensures (State(), client.Tables()) == Config0Write(old(State()), old(client.Tables()), addr, data)
    {
      if addr % 4 != 0 || |data| != 4 {
        return;
      }
      if BAR_OFFSET <= addr < BAR_OFFSET + 24 {
        WordBound(data);
        Pow2Is32();
        HandleConfigBarWrite((addr - BAR_OFFSET) / 4, Word(data));
      }
    }

    /** The write callback registered under a handle. */
    method WriteCb(cb: nat, addr: nat, data: seq<byte>)
      requires Valid()
      modifies cfg, mem, client`bar, client`barSize, client`barReadCb, client`barWriteCb
      ensures Valid()
      ensures (State(), client.Tables()) == MockWrite(old(State()), old(client.Tables()), cb, addr, data)
    {
      if cb < 6 {
        WriteMemory(mem[cb], wild, addr, data);
        assert forall j :: 0 <= j < 6 && j != cb ==> mem[j][..] == old(mem[j][..]);
        assert State().mem == old(State()).mem[cb := WriteBar(old(mem[cb][..]), wild, addr, data)];
      } else {
        Config0WriteCb(addr, data);
      }
    }

    /** One call of `warppipe_client_read` with the device's callbacks behind it: unless the connection
        broke, it is one reception of the device in the system.  As long as recv delivers, the frame is
        dealt with, also when a reply cannot be sent. */
    method Receive(ghost s: Sys) returns (got: bool, reaction: E.Reaction)
      requires Valid() && s.dev == client.State() && s.mock == State() && s.toDev == client.incoming != []
      modifies client, client.buf, cfg, mem
      ensures Valid() && old(client.sent) <= client.sent
      ensures !got ==> client.State() == s.dev && State() == s.mock && client.incoming == s.toDev
      ensures !got ==> client.sent == old(client.sent) && reaction == E.Nothing
      ensures (State(), client.Tables()) == Stored(s.dev, s.mock, reaction)
      ensures reaction in {E.Nothing, E.Receive(s.dev, s.toDev).reaction}
      ensures C.Reliable(old(client.recvs)) ==> got && reaction == E.Receive(s.dev, s.toDev).reaction
      ensures C.Reliable(old(client.recvs)) && C.AllWhole(old(client.sends)) ==>
        client.active == E.Receive(s.dev, s.toDev).client.active
      ensures got && client.active ==> Received(s, reaction, client.State(), State(), client.incoming,
                                                client.sent[|old(client.sent)|..])
    {
      hide E.Receive, C.Carries, Received, MockRead, MockWrite, C.Reliable, C.AllWhole, E.Registers.Valid,
           MockState.Valid;
      var m := State();
      var read := (cb: nat, addr: nat, n: nat) => MockRead(m, cb, addr, n);
      ghost var before := client.sent;
      got, reaction := client.ClientRead(read);
      assert State() == m;
      ghost var c, sent := client.State(), client.sent;
      if reaction.Store? {
        WriteCb(reaction.store.cb, reaction.store.addr, reaction.data);
      }
      if got && client.active {
        Composed(s, reaction, read, c, before, sent);
      }
    }
  }

  /** What a reception of the device leaves, and what it sent. */
  ghost predicate Received(s: Sys, reaction: E.Reaction, dev: E.Client, mock: Mock, rest: seq<byte>, out: seq<byte>)
    requires s.toDev != []
  {
    var s' := Next(s, DevReceive);
    && dev == s'.dev && mock == s'.mock && rest == s'.toDev && s'.toHost == s.toHost + out
    && s'.devAcks == (if reaction.AckLogged? then s.devAcks + [reaction.seqno] else s.devAcks)
    && s'.host == s.host && s'.issued == s.issued && s'.log == s.log && s'.hostAcks == s.hostAcks
  }

  /** What the callbacks behind a reception do to the device's registers and memories. */
  function Stored(c: E.Client, mock: Mock, reaction: E.Reaction): (Mock, E.Regs) {
    if reaction.Store? then MockWrite(mock, c.regs, reaction.store.cb, reaction.store.addr, reaction.data)
    else (mock, c.regs)
  }

  lemma Composed(s: Sys, reaction: E.Reaction, read: C.ReadCb, c: E.Client, before: seq<byte>, sent: seq<byte>)
    requires s.toDev != [] && C.Fills(read) && E.Servable(reaction) && c.active
    requires forall cb, addr, n :: read(cb, addr, n) == MockRead(s.mock, cb, addr, n)
    requires reaction == E.Receive(s.dev, s.toDev).reaction && before <= sent
    requires var r := E.Receive(s.dev, s.toDev); C.Carries(r.client, before + r.ack, reaction, read, c, sent)
    ensures var (mock, regs) := Stored(c, s.mock, reaction);
      Received(s, reaction, c.(regs := regs), mock, s.toDev[E.Receive(s.dev, s.toDev).consumed..], sent[|before|..])
  {
    hide E.Receive, DevNext, C.Carries, MockRead, Stored, E.Registers.Valid, MockState.Valid;
    NextReception(s, DevReceive);
    var r := E.Receive(s.dev, s.toDev);
    if reaction.Serve? {
      ComposedServe(s, r, read, c, before, sent);
    } else {
      ComposedOther(s, r, read, c, before, sent);
    }
  }

  /** What one reception leaves, in terms of `DevNext`. */
  ghost predicate Leaves(s: Sys, r: E.Reception, dev: E.Client, mock: Mock, out: seq<byte>)
    requires r.consumed <= |s.toDev| && E.Servable(r.reaction)
  {
    DevNext(s, r) == s.(dev := dev, mock := mock, toDev := s.toDev[r.consumed..], toHost := s.toHost + out,
                        devAcks := if r.reaction.AckLogged? then s.devAcks + [r.reaction.seqno] else s.devAcks)
  }

  lemma ComposedServe(s: Sys, r: E.Reception, read: C.ReadCb, c: E.Client, before: seq<byte>, sent: seq<byte>)
    requires r.consumed <= |s.toDev| && C.Fills(read) && E.Servable(r.reaction) && r.reaction.Serve? && c.active
    requires forall cb, addr, n :: read(cb, addr, n) == MockRead(s.mock, cb, addr, n)
    requires before <= sent && C.Carries(r.client, before + r.ack, r.reaction, read, c, sent)
    ensures Stored(c, s.mock, r.reaction) == (s.mock, c.regs) && Leaves(s, r, c, s.mock, sent[|before|..])
  {
    hide MockRead, TlpFrame, CompletionTlp, WellFormed, TlpDataLengthBytes, E.Registers.Valid, MockState.Valid;
    var (done, frame) := C.Served(r.client, r.reaction, read);
    assert sent[|before|..] == r.ack + frame;
    Assoc(s.toHost, r.ack, frame);
  }

  lemma ComposedOther(s: Sys, r: E.Reception, read: C.ReadCb, c: E.Client, before: seq<byte>, sent: seq<byte>)
    requires r.consumed <= |s.toDev| && C.Fills(read) && E.Servable(r.reaction) && !r.reaction.Serve? && c.active
    requires before <= sent && C.Carries(r.client, before + r.ack, r.reaction, read, c, sent)
    ensures var (mock, regs) := Stored(c, s.mock, r.reaction);
      Leaves(s, r, c.(regs := regs), mock, sent[|before|..])
  {
    hide MockWrite, E.Registers.Valid, MockState.Valid;
    assert sent[|before|..] == r.ack;
  }
}
