/**
 struct warppipe_client and the functions of src/client.c that update it in place, each proved
 against the value-level functions of Endpoint.  `send` and `recv` may move any part of what they
 are asked for, or fail: what the next calls will do is part of the client's surroundings, so a
 contract can say what happens when they work.
 */
module Client {
  import opened Bits
  import opened Proto
  import opened Seal
  import opened Frames
  import E = Endpoint

  type Callback = E.Callback

  /** Read callbacks: handle, address and length give the outcome. */
  type ReadCb = (nat, nat, nat) -> ReadResult

  /** A read callback fills the buffer it is given. */
  ghost predicate Fills(read: ReadCb) {
    forall cb, addr, n :: read(cb, addr, n).ReadData? ==> |read(cb, addr, n).data| == n
  }

  // ---------------------------------------------------------------- sockets

  /** What a call of send or recv does: everything it can, at most so many bytes, or an error, which
      for recv may mean that nothing waits. */
  datatype Io = Whole | Part(most: nat) | Failed(again: bool)

  /** The result of the next call, when so many bytes could be moved; calls not foreseen work. */
  function Moved(io: seq<Io>, available: nat): (n: int)
    ensures -1 <= n <= available
  {
    if io == [] || io[0].Whole? then available
    else if io[0].Failed? then -1
    else if io[0].most < available then io[0].most else available
  }

  function Later(io: seq<Io>): seq<Io> {
    if io == [] then [] else io[1..]
  }

  /** Every send moves all it is given. */
  ghost predicate AllWhole(io: seq<Io>) {
    forall i :: 0 <= i < |io| ==> io[i].Whole?
  }

  /** Every recv moves something, in chunks of any size. */
  ghost predicate Flowing(io: seq<Io>) {
    forall i :: 0 <= i < |io| ==> io[i].Whole? || (io[i].Part? && io[i].most > 0)
  }

  /** And the first one is not cut short. */
  ghost predicate Reliable(io: seq<Io>) {
    Flowing(io) && (io != [] ==> io[0].Whole?)
  }

  // ---------------------------------------------------------------- specification

  /** A transport with its sequence number and seal filled in. */
  function Framed(t: seq<byte>, seqno: nat): seq<byte>
    requires Transport(t)
  {
    if t[0] == PROTO_TLP then TlpFrame(t[1] / 16, seqno, t[3..3 + TlpTotalLength(t[3..])])
    else if t[0] == PROTO_DLLP then t[..5] + Crc16Bytes(t[1..5])
    else t[..7]
  }

  /** The frame lies inside the memory allocated for it. */
  predicate Transport(t: seq<byte>) {
    |t| >= 7 && (t[0] == PROTO_TLP ==> 0 <= TlpTotalLength(t[3..]) <= |t| - 7)
  }

  /** The frame went out whole, or the stream broke inside it. */
  ghost predicate Transmitted(before: seq<byte>, after: seq<byte>, frame: seq<byte>, ok: bool) {
    if ok then after == before + frame
    else exists n :: 0 <= n < |frame| && after == before + frame[..n]
  }

  /** A reaction carried out by the client itself: a served read is answered. */
  function Served(c: E.Client, reaction: E.Reaction, read: ReadCb): (E.Client, seq<byte>)
    requires E.Servable(reaction)
    requires reaction.Serve? ==>
      var r := Outcome(read, reaction.access); r.ReadData? ==> |r.data| <= 4 * TlpDataLength(reaction.req)
  {
    if reaction.Serve? then E.Answer(c, reaction.req, Outcome(read, reaction.access)) else (c, [])
  }

  function Outcome(read: ReadCb, a: E.Access): ReadResult {
    read(a.cb, a.addr, if a.length < 0 then 0 else a.length)
  }

  /** From c, the client carried out the reaction: the answer, if any, left whole unless the client
      became inactive. */
  ghost predicate Carries(c: E.Client, before: seq<byte>, reaction: E.Reaction, read: ReadCb, c': E.Client,
                          after: seq<byte>)
    requires E.Servable(reaction) && Fills(read)
  {
    var (done, frame) := Served(c, reaction, read);
    c'.(active := done.active) == done && (c'.active ==> c.active && after == before + frame)
  }

  /** The connection broke before a frame was complete: nothing happened but that. */
  ghost predicate Broke(c: E.Client, before: seq<byte>, reaction: E.Reaction, c': E.Client, after: seq<byte>) {
    reaction == E.Nothing && c' == c.(active := false) && after == before
  }

  /** One frame was taken off the stream and dealt with. */
  ghost predicate Did(c: E.Client, input: seq<byte>, before: seq<byte>, reaction: E.Reaction, read: ReadCb,
                      c': E.Client, rest: seq<byte>, after: seq<byte>)
    requires E.Servable(reaction) && Fills(read)
  {
    var r := E.Receive(c, input);
    && rest == input[r.consumed..] && reaction == r.reaction
    && Carries(r.client, before + r.ack, reaction, read, c', after)
  }

  // ---------------------------------------------------------------- the object

  class Client {
    var seqno: nat
    var active: bool
    var readTag: nat
    var completionCb: seq<Callback>
    var bar: seq<nat>
    var barSize: seq<nat>
    var barReadCb: seq<Callback>
    var barWriteCb: seq<Callback>
    var cfg0ReadCb: Callback
    var cfg0WriteCb: Callback
    const buf: array<byte>
    /** What the socket accepted so far, and what it still has to offer. */
    var sent: seq<byte>
    var incoming: seq<byte>
    /** What its next calls of send and recv will do. */
    var sends: seq<Io>
    var recvs: seq<Io>

    ghost predicate Valid()
      reads this
    {
      && Tables().Valid() && readTag < 32 && |completionCb| == 32 && buf.Length == CLIENT_BUFFER_SIZE
    }

    ghost function Tables(): E.Registers
      reads this
    {
      E.Registers(bar, barSize, barReadCb, barWriteCb, cfg0ReadCb, cfg0WriteCb)
    }

    ghost function State(): (c: E.Client)
      requires Valid()
      reads this
    {
      E.ClientState(seqno, active, readTag, completionCb, Tables())
    }

    /** `warppipe_client_create`; the completion slots keep whatever was there. */
    constructor (slots: seq<Callback>)
      requires |slots| == 32
      ensures Valid() && fresh(buf) && sent == [] && incoming == []
      ensures seqno == 0 && active && readTag == 0 && completionCb == slots
      ensures cfg0ReadCb == cfg0WriteCb == E.None
      ensures forall i :: 0 <= i < 6 ==> bar[i] == barSize[i] == 0 && barReadCb[i] == barWriteCb[i] == E.None
    {
      seqno, active, readTag, completionCb := 0, true, 0, slots;
      bar, barSize := [0, 0, 0, 0, 0, 0], [0, 0, 0, 0, 0, 0];
      barReadCb, barWriteCb := seq(6, _ => E.None), seq(6, _ => E.None);
      cfg0ReadCb, cfg0WriteCb := E.None, E.None;
      buf := new byte[CLIENT_BUFFER_SIZE];
      sent, incoming, sends, recvs := [], [], [], [];
    }

    // -------------------------------------------------------------- sockets

    /** send(2) */
    method Send(data: seq<byte>) returns (n: int)
      modifies this`sent, this`sends
      ensures n == Moved(old(sends), |data|) && sends == Later(old(sends))
      ensures sent == old(sent) + (if n < 0 then [] else data[..n])
    {
      n, sends := Moved(sends, |data|), Later(sends);
      if n > 0 {
        sent := sent + data[..n];
      }
    }

    /** recv(2): an error, the end of the stream, or some of the bytes that wait. */
    method Recv(at: nat, max: nat) returns (n: int, again: bool)
      requires at + max <= buf.Length
      modifies this`incoming, this`recvs, buf
      ensures n == Moved(old(recvs), if max < |old(incoming)| then max else |old(incoming)|)
      ensures recvs == Later(old(recvs)) && (Flowing(old(recvs)) ==> Flowing(recvs))
      ensures again == (n < 0 && old(recvs)[0].again)
      ensures n < 0 ==> incoming == old(incoming)
      ensures n >= 0 ==> incoming == old(incoming)[n..] && buf[at..at + n] == old(incoming)[..n]
      ensures buf[..at] == old(buf[..at])
    {
      n := Moved(recvs, if max < |incoming| then max else |incoming|);
      again, recvs := n < 0 && recvs[0].again, Later(recvs);
      if n > 0 {
        forall k | 0 <= k < n {
          buf[at + k] := incoming[k];
        }
        incoming := incoming[n..];
      }
    }

    // -------------------------------------------------------------- sending

    /** The first half of `client_send_pcie_transport`: number a TLP, and seal the packet. */
    method SealTransport(tport: array<byte>) returns (length: nat)
      requires Transport(tport[..])
      modifies this`seqno, tport
      ensures seqno == old(seqno) + if old(tport[0]) == PROTO_TLP then 1 else 0
      ensures 7 <= length <= tport.Length && tport[..length] == Framed(old(tport[..]), seqno)
    {
      hide TlpTotalLength, TlpFrame, LcrcBytes, Crc16Bytes;
      ghost var was := tport[..];
      length := 7;
      if tport[0] == PROTO_TLP {
        seqno := seqno + 1;
        tport[1] := tport[1] / 16 * 16 + seqno / 256 % 16;
        tport[2] := seqno % 256;
        ghost var numbered := tport[..];
        assert was[3..] == numbered[3..];
        assert numbered[..3] == [was[0]] + SeqBytes(was[1] / 16, seqno);
        PcieLcrc32(tport, 1);
        SealedTlp(was, numbered, tport[..], seqno);
        length := 7 + TlpTotalLength(tport[3..]);
      } else if tport[0] == PROTO_DLLP {
        PcieCrc16(tport, 1);
      }
    }

    /** `client_send_pcie_transport` */
    method SendTransport(tport: array<byte>) returns (ret: int)
      requires Transport(tport[..])
      modifies this`seqno, this`active, this`sent, this`sends, tport
      ensures seqno == old(seqno) + if old(tport[0]) == PROTO_TLP then 1 else 0
      ensures var n := |Framed(old(tport[..]), seqno)|; ret == if Moved(old(sends), n) == n then n else -1
      ensures active == (old(active) && ret != -1) && sends == Later(old(sends))
      ensures AllWhole(old(sends)) ==> AllWhole(sends) && active == old(active)
      ensures Transmitted(old(sent), sent, Framed(old(tport[..]), seqno), ret != -1)
    {
      hide Framed, Transport;
      var length := SealTransport(tport);
      var n := Send(tport[..length]);
      if n != length {
        active := false;
        assert tport[..length][..0] == [];
        return -1;
      }
      assert tport[..length][..n] == tport[..length];
      return n;
    }

    /** `warppipe_ack` */
    method Ack(dltype: byte, number: nat) returns (ret: int)
      modifies this`seqno, this`active, this`sent, this`sends
      ensures seqno == old(seqno) && ret in {-1, 0} && active == (old(active) && ret == 0)
      ensures (ret == 0 <==> Moved(old(sends), 7) == 7) && sends == Later(old(sends))
      ensures AllWhole(old(sends)) ==> AllWhole(sends) && active == old(active)
      ensures Transmitted(old(sent), sent, AckFrame(dltype, number), ret == 0)
    {
      hide Crc16Bytes;
      var tport := new byte[TRANSPORT_SIZE](_ => 0);
      tport[0], tport[1] := PROTO_DLLP, dltype;
      tport[3], tport[4] := number / 256 % 16, number % 256;
      assert tport[1..5] == DllpBytes(dltype, number);
      assert tport[..5] + Crc16Bytes(tport[1..5]) == AckFrame(dltype, number);
      ret := SendTransport(tport);
      if ret != -1 {
        ret := 0;
      }
    }

    // -------------------------------------------------------------- requests

    /** The transport `warppipe_read_imp` builds on its stack. */
    static method ReadTransport(kind: byte, tag: byte, addr: nat, length: nat) returns (tport: array<byte>)
      requires addr < U64 && Fmt([kind]) < 2
      ensures fresh(tport) && Transport(tport[..]) && tport[0] == PROTO_TLP
      ensures forall seqno: nat :: Framed(tport[..], seqno) == TlpFrame(0, seqno, ReadTlp(kind, tag, addr, length))
    {
      hide Framed, TlpFrame, ReadTlp, Transport, SetAddr, Fmt;
      tport := new byte[TRANSPORT_SIZE](_ => 0);
      tport[0], tport[3], tport[9] := PROTO_TLP, kind, tag;
      ghost var blank := tport[..];
      TlpReqSetAddr(tport, 3, addr, length);
      ReadFrame(blank, tport[..], kind, tag, addr, length);
    }

    /** `warppipe_read_imp`: on success the client and the stream are those of `IssueRead`; on a
        failed send the number and the tag are used up and no callback is left. */
    method ReadImp(addr: nat, length: nat, cb: nat, space: E.Space) returns (ret: int)
      requires Valid() && addr < U64
      modifies this`seqno, this`active, this`sent, this`sends, this`readTag, this`completionCb
      ensures Valid() && ret in {-1, 0} && active == (old(active) && ret == 0)
      ensures var (c, frame) := E.IssueRead(old(State()), space, addr, length, cb);
        && Transmitted(old(sent), sent, frame, ret == 0) && (ret == 0 <==> Moved(old(sends), |frame|) == |frame|)
        && State() == if ret == 0 then c else c.(active := false, completionCb := old(completionCb))
    {
      hide Framed, TlpFrame, ReadTlp, Transport, Transmitted, E.Registers.Valid, Moved, Later, AllWhole, E.ReadKind,
           E.IssueRead;
      ghost var frame := ReadParts(State(), space, addr, length, cb);
      var tag := readTag;
      readTag := (readTag + 1) % 32;
      var tport := ReadTransport(E.ReadKind(space), tag, addr, length);
      assert Framed(tport[..], seqno + 1) == frame;
      ret := SendTransport(tport);
      if ret == -1 {
        return;
      }
      completionCb := completionCb[tag := E.Some(cb)];
      ret := 0;
    }

    /** memcpy into a packet */
    static method CopyIn(pkt: array<byte>, at: nat, data: seq<byte>)
      requires at + |data| <= pkt.Length
      modifies pkt
      ensures pkt[..] == Overlay(old(pkt[..]), at, data)
    {
      forall k | 0 <= k < |data| {
        pkt[at + k] := data[k];
      }
      assert pkt[..] == Overlay(old(pkt[..]), at, data);
    }

    /** The transport `warppipe_write_imp` builds in uninitialised memory. */
    static method WriteTransport(kind: byte, addr: nat, data: seq<byte>)
      returns (tport: array<byte>, ghost garbage: seq<byte>)
      requires Writable(addr, |data|) && 2 <= Fmt([kind]) < 4
      ensures fresh(tport) && Transport(tport[..]) && tport[0] == PROTO_TLP
      ensures |garbage| == TRANSPORT_SIZE + 4 * Dwords(addr % 4, |data|)
      ensures forall seqno: nat ::
        Framed(tport[..], seqno) == TlpFrame(garbage[1] / 16, seqno, WriteTlp(kind, garbage[3..], addr, data))
    {
      hide Framed, TlpFrame, WriteTlp, Transport, SetAddr, Fmt, TlpTotalLength, Dwords, Overlay, DataStart;
      tport := new byte[TRANSPORT_SIZE + 4 * Dwords(addr % 4, |data|)];
      garbage := tport[..];
      tport[0], tport[3] := PROTO_TLP, kind;
      ghost var blank := tport[..];
      TlpReqSetAddr(tport, 3, addr, |data|);
      ghost var head := tport[..];
      WriteHead(garbage, blank, head, kind, addr, data);
      var payload := 3 + DataStart(tport[3..]) + addr % 4;
      CopyIn(tport, payload, data);
      WriteFrame(garbage, blank, head, tport[..], kind, addr, data);
    }

    /** `warppipe_write_imp`: `IssueWrite`, whatever the uninitialised memory held.  An aligned write of
        no bytes announces 1024 words it has no memory for; `wild` tells, and the model stops there. */
    method WriteImp(addr: nat, data: seq<byte>, space: E.Space) returns (ret: int, wild: bool, ghost garbage: seq<byte>)
      requires Valid() && addr < U64
      modifies this`seqno, this`active, this`sent, this`sends
      ensures Valid() && ret in {-1, 0} && (wild <==> !Writable(addr, |data|))
      ensures wild ==> State() == old(State()) && sent == old(sent)
      ensures !wild ==>
        active == (old(active) && ret == 0) && |garbage| == TRANSPORT_SIZE + 4 * Dwords(addr % 4, |data|)
      ensures !wild ==>
        var (c, frame) := E.IssueWrite(old(State()), space, addr, data, garbage);
        && Transmitted(old(sent), sent, frame, ret == 0) && State() == c.(active := active)
        && (ret == 0 <==> Moved(old(sends), |frame|) == |frame|)
    {
      hide Framed, TlpFrame, WriteTlp, Transport, Transmitted, E.Registers.Valid, Dwords, Moved, Later, AllWhole;
      ret, wild, garbage := -1, addr % 4 + |data| == 0, [];
      if wild {
        return;
      }
      var tport;
      tport, garbage := WriteTransport(E.WriteKind(space), addr, data);
      assert Framed(tport[..], seqno + 1)
        == TlpFrame(garbage[1] / 16, seqno + 1, WriteTlp(E.WriteKind(space), garbage[3..], addr, data));
      ret := SendTransport(tport);
      if ret > 0 {
        ret := 0;
      }
    }

    /** `warppipe_read`: an unregistered BAR is refused. */
    method Read(i: nat, addr: nat, length: nat, cb: nat) returns (ret: int)
      requires Valid() && i < 6
      modifies this`seqno, this`active, this`sent, this`sends, this`readTag, this`completionCb
      ensures Valid()
      ensures bar[i] == 0 ==> ret == -1 && State() == old(State()) && sent == old(sent)
      ensures bar[i] != 0 ==> ret in {-1, 0} && active == (old(active) && ret == 0)
      ensures bar[i] != 0 ==>
        var (c, frame) := E.IssueRead(old(State()), E.Memory, (bar[i] + addr) % U64, length, cb);
        && Transmitted(old(sent), sent, frame, ret == 0)
        && State() == if ret == 0 then c else c.(active := false, completionCb := old(completionCb))
    {
      hide TlpFrame, ReadTlp, Transmitted;
      if bar[i] == 0 {
        return -1;
      }
      ret := ReadImp((bar[i] + addr) % U64, length, cb, E.Memory);
    }

    /** `warppipe_write`: likewise. */
    method Write(i: nat, addr: nat, data: seq<byte>) returns (ret: int, wild: bool, ghost garbage: seq<byte>)
      requires Valid() && i < 6
      modifies this`seqno, this`active, this`sent, this`sends
      ensures Valid() && ret in {-1, 0}
      ensures bar[i] == 0 ==> ret == -1 && !wild
      ensures bar[i] == 0 || wild ==> State() == old(State()) && sent == old(sent)
      ensures bar[i] != 0 ==> (wild <==> !Writable((bar[i] + addr) % U64, |data|))
      ensures bar[i] != 0 && !wild ==>
        && active == (old(active) && ret == 0)
        && |garbage| == TRANSPORT_SIZE + 4 * Dwords((bar[i] + addr) % U64 % 4, |data|)
      ensures bar[i] != 0 && !wild ==>
        var (c, frame) := E.IssueWrite(old(State()), E.Memory, (bar[i] + addr) % U64, data, garbage);
        Transmitted(old(sent), sent, frame, ret == 0) && State() == c.(active := active)
    {
      hide TlpFrame, WriteTlp, Transmitted, Dwords;
      if bar[i] == 0 {
        return -1, false, [];
      }
      ret, wild, garbage := WriteImp((bar[i] + addr) % U64, data, E.Memory);
    }

    /** `warppipe_register_bar` */
    method RegisterBar(base: nat, size: nat, i: nat, read: Callback, write: Callback) returns (ret: int)
      requires Valid() && base < U64 && size < U32 && i < 6
      modifies this`bar, this`barSize, this`barReadCb, this`barWriteCb
      ensures Valid() && (ret, Tables()) == E.RegisterBar(old(Tables()), base, size, i, read, write)
    {
      if bar[i] != 0 {
        return -1;
      }
      if size == 0 || And(size, size - 1) != 0 {
        return -1;
      }
      bar, barSize := bar[i := base % U32], barSize[i := size];
      barReadCb, barWriteCb := barReadCb[i := read], barWriteCb[i := write];
      return 0;
    }

    // -------------------------------------------------------------- handling packets

    /** `get_bar_idx` */
    method GetBarIdx(addr: nat) returns (idx: int)
      requires Valid()
      ensures idx == E.GetBarIdx(Tables(), addr)
    {
      for i := 0 to 6
        invariant E.BarFrom(Tables(), addr, i) == E.GetBarIdx(Tables(), addr)
      {
        if And(addr, Not32(E.SizeMask(barSize[i]))) == bar[i] {
          return i;
        }
      }
      return -1;
    }

    /** The switch shared by the two request handlers: callback and offset, if there is a callback. */
    method Decode(space: E.Space, addr: nat, cbs: seq<Callback>, cfg: Callback) returns (d: E.Option<(nat, nat)>)
      requires Valid() && |cbs| == 6
      ensures d == E.Decode(Tables(), space, addr, cbs, cfg)
    {
      var cb, at := E.None, addr;
      if space == E.Memory {
        var i := GetBarIdx(addr);
        if i != -1 {
          cb, at := cbs[i], And(addr, E.SizeMask(barSize[i]));
        }
      } else {
        cb := cfg;
      }
      return if cb == E.None then E.None else E.Some((cb.value, at));
    }

    /** The transport of a completion, built in zeroed memory and filled by the read callback. */
    static method CompletionTransport(p: seq<byte>, result: ReadResult) returns (tport: array<byte>)
      requires WellFormed(p) && (result.ReadData? ==> |result.data| <= 4 * TlpDataLength(p))
      ensures fresh(tport) && Transport(tport[..]) && tport[0] == PROTO_TLP
      ensures forall seqno: nat :: Framed(tport[..], seqno) == TlpFrame(0, seqno, CompletionTlp(p, result))
    {
      hide Framed, TlpFrame, CompletionTlp, Transport, TlpTotalLength, Overlay;
      var n := TlpDataLengthBytes(p);
      tport := new byte[TRANSPORT_SIZE + 4 * TlpDataLength(p)](_ => 0);
      ghost var blank := tport[..];
      var head: seq<byte> := [PROTO_TLP, 0, 0, CPLD, 0, p[2] % 4, p[3], 0, 0, n / 256 % 16, n % 256, 0, 0, p[6], 0];
      CopyIn(tport, 0, head);
      if result.ReadData? {
        CopyIn(tport, 15, result.data);
      } else {
        tport[3] := CPL;
      }
      CompletionBytes(p, result, blank, head, tport[..]);
      CompletionFrame(p, result, tport[..]);
    }

    /** `handle_memory_read_request` */
    method HandleMemoryReadRequest(p: seq<byte>, read: ReadCb) returns (reaction: E.Reaction)
      requires Valid() && WellFormed(p) && E.ReadSpace(p[0]).Some? && Fills(read)
      modifies this`seqno, this`active, this`sent, this`sends
      ensures Valid() && E.Servable(reaction) && old(sent) <= sent
      ensures AllWhole(old(sends)) ==> AllWhole(sends) && active == old(active)
      ensures reaction == match E.ReadAccess(Tables(), p) case None => E.Nothing case Some(a) => E.Serve(p, a)
      ensures Carries(old(State()), old(sent), reaction, read, State(), sent)
    {
      hide Framed, TlpFrame, CompletionTlp, Transport, E.Decode, TlpDataLength, TlpGetAddr, FirstBeOffset;
      var d := Decode(E.ReadSpace(p[0]).value, TlpGetAddr(p), barReadCb, cfg0ReadCb);
      if d == E.None {
        return E.Nothing;
      }
      var a := E.Access(d.value.0, d.value.1 + FirstBeOffset(p), TlpDataLengthBytes(p));
      var result := Outcome(read, a);
      var tport := CompletionTransport(p, result);
      var _ := SendTransport(tport);
      return E.Serve(p, a);
    }

    /** `handle_memory_write_request` */
    method HandleMemoryWriteRequest(p: seq<byte>) returns (reaction: E.Reaction)
      requires Valid() && WellFormed(p) && E.WriteSpace(p[0]).Some?
      ensures reaction
        == match E.WriteAccess(Tables(), p) case None => E.Nothing case Some((a, data)) => E.Store(a, data)
    {
      hide E.Decode, TlpDataLength, TlpGetAddr, FirstBeOffset;
      var d := Decode(E.WriteSpace(p[0]).value, TlpGetAddr(p), barWriteCb, cfg0WriteCb);
      if d == E.None {
        return E.Nothing;
      }
      var n := TlpDataLengthBytes(p);
      var at := DataStart(p) + FirstBeOffset(p);
      var data := [];
      if n > 0 {
        E.PayloadFits(p);
        data := p[at..at + n];
      }
      return E.Store(E.Access(d.value.0, d.value.1 + FirstBeOffset(p), n), data);
    }

    /** `handle_completion`; a tag past the table is reported instead of followed. */
    method HandleCompletion(p: seq<byte>) returns (reaction: E.Reaction)
      requires Valid() && WellFormed(p) && p[0] == CPLD
      modifies this`completionCb
      ensures Valid() && (State(), reaction) == E.React(old(State()), p)
    {
      hide E.Registers.Valid, TlpTotalLength;
      var tag := E.CplTag(p);
      if tag >= 32 {
        return E.WildTag(tag);
      }
      if completionCb[tag] == E.None {
        return E.Nothing;
      }
      var cb := completionCb[tag].value;
      completionCb := completionCb[tag := E.None];
      return E.Complete(cb, E.CplData(p));
    }

    /** `handle_tlp` */
    method HandleTlp(p: seq<byte>, read: ReadCb) returns (reaction: E.Reaction)
      requires Valid() && WellFormed(p) && Fills(read)
      modifies this`seqno, this`active, this`sent, this`sends, this`completionCb
      ensures Valid() && reaction == E.React(old(State()), p).1 && old(sent) <= sent
      ensures AllWhole(old(sends)) ==> AllWhole(sends) && active == old(active)
      ensures Carries(E.React(old(State()), p).0, old(sent), reaction, read, State(), sent)
    {
      hide TlpTotalLength, E.ReadAccess, E.WriteAccess, E.Registers.Valid, E.CplData, E.CplTag;
      if E.ReadSpace(p[0]).Some? {
        reaction := HandleMemoryReadRequest(p, read);
      } else if E.WriteSpace(p[0]).Some? {
        reaction := HandleMemoryWriteRequest(p);
      } else if p[0] == CPLD {
        reaction := HandleCompletion(p);
      } else {
        reaction := E.Nothing;
      }
    }

    // -------------------------------------------------------------- receiving

    /** The loop of `warppipe_client_read`: the rest of a TLP, in chunks of any size.  It fails only when
        a recv does, or when the stream ends inside the frame. */
    method ReceiveRest(total: nat, ghost input: seq<byte>) returns (ok: bool)
      requires 7 <= total <= buf.Length && |input| >= 7
      requires buf[..7] == input[..7] && incoming == input[7..]
      modifies this`incoming, this`recvs, buf
      ensures ok ==> total <= |input| && buf[..total] == input[..total] && incoming == input[total..]
      ensures Flowing(old(recvs)) ==> (ok <==> total <= |input|) && (!ok ==> incoming == [])
    {
      hide Flowing;
      var len := 7;
      while len < total
        invariant 7 <= len <= total && len <= |input| && buf[..len] == input[..len] && incoming == input[len..]
        invariant Flowing(old(recvs)) ==> Flowing(recvs)
      {
        if Flowing(recvs) { SomethingMoves(recvs); }
        var n, _ := Recv(len, total - len);
        if n <= 0 {
          return false;
        }
        assert buf[..len + n] == buf[..len] + buf[len..len + n] == input[..len] + input[len..][..n] == input[..len + n];
        assert input[len..][n..] == input[len + n..];
        len := len + n;
      }
      return true;
    }

    /** A TLP that arrived whole: acknowledge it, and handle it if its LCRC is right. */
    method HandleFrame(total: nat, read: ReadCb) returns (reaction: E.Reaction)
      requires Valid() && Fills(read) && 7 <= total <= CLIENT_BUFFER_SIZE && IsDlTlp(buf[1..total])
      modifies this`seqno, this`active, this`sent, this`sends, this`completionCb
      ensures Valid() && old(sent) <= sent
      ensures AllWhole(old(sends)) ==> AllWhole(sends) && active == old(active)
      ensures var d := buf[1..total];
        var (c, rx) := if LcrcValid(d) then Reacted(old(State()), d) else (old(State()), E.Nothing);
        && reaction == rx && E.Servable(rx)
        && var ack := AckFrame(if LcrcValid(d) then DLLP_ACK else DLLP_NAK, SeqOf(d));
           Carries(c, old(sent) + ack, rx, read, State(), sent)
    {
      hide TlpTotalLength, LcrcValid, AckFrame, E.React, E.Registers.Valid, WellFormed, AllWhole, Moved, Later, SeqOf;
      var d := buf[1..total];
      ghost var c := State();
      assert buf[3..][..4] == d[2..][..4];
      TotalLengthPrefix(buf[3..], d[2..]);
      var ok := PcieLcrc32Valid(buf, 1);
      var ack := Ack(if ok then DLLP_ACK else DLLP_NAK, SeqOf(d));
      if ok {
        InnerTlp(d);
        ghost var after := State();
        reaction := HandleTlp(d[2..|d| - 4], read);
        SameReaction(c, after, d);
      } else {
        reaction := E.Nothing;
      }
    }

    /** The TLP case of `warppipe_client_read`, after the first seven bytes arrived. */
    method ReceiveTlp(read: ReadCb, ghost input: seq<byte>) returns (reaction: E.Reaction)
      requires Valid() && Fills(read) && |input| >= 7 && input[0] == PROTO_TLP
      requires buf[..7] == input[..7] && incoming == input[7..]
      modifies this`seqno, this`active, this`sent, this`sends, this`completionCb, this`incoming, this`recvs, buf
      ensures Valid() && E.Servable(reaction) && old(sent) <= sent
      ensures
        || Broke(old(State()), old(sent), reaction, State(), sent)
        || Did(old(State()), input, old(sent), reaction, read, State(), incoming, sent)
      ensures Flowing(old(recvs)) ==> Did(old(State()), input, old(sent), reaction, read, State(), incoming, sent)
      ensures Flowing(old(recvs)) && AllWhole(old(sends)) ==> active == E.Receive(old(State()), input).client.active
    {
      hide TlpTotalLength, LcrcValid, AckFrame, E.Receive, Reacted, IsDlTlp, SeqOf, Flowing, AllWhole;
      var total := TlpTotalLength(buf[3..7]);
      assert buf[3..7] == buf[..7][3..7] == input[3..7];
      if total < 0 {
        ReceiveUnknown(State(), input);
        active := false;
        return E.Nothing;
      }
      total := total + 7;
      if total > CLIENT_BUFFER_SIZE {
        ReceiveOversize(State(), input);
        return E.Aborted;
      }
      var ok := ReceiveRest(total, input);
      if !ok {
        if |input| < total { ReceiveCutOff(State(), input); }
        active := false;
        return E.Nothing;
      }
      assert buf[1..total] == buf[..total][1..] == input[1..total];
      ReceiveWhole(State(), input, total);
      reaction := HandleFrame(total, read);
    }

    /** `warppipe_client_read`.  Nothing waited and nothing changed; or the connection broke inside a
        frame and the client only became inactive; or it consumed exactly one frame and did exactly what
        `Receive` says of the bytes that were waiting, whether or not its replies went out whole.  As long
        as recv delivers, in chunks of any size, it is always the last; and as long as send works too, the
        client stays connected exactly when `Receive` says so. */
    method ClientRead(read: ReadCb) returns (got: bool, reaction: E.Reaction)
      requires Valid() && Fills(read)
      modifies this`seqno, this`active, this`sent, this`sends, this`completionCb, this`incoming, this`recvs, buf
      ensures Valid() && E.Servable(reaction) && old(sent) <= sent
      ensures Reliable(old(recvs)) ==>
        got && Did(old(State()), old(incoming), old(sent), reaction, read, State(), incoming, sent)
      ensures Reliable(old(recvs)) && AllWhole(old(sends)) ==>
        active == E.Receive(old(State()), old(incoming)).client.active
      ensures !got ==>
        State() == old(State()) && sent == old(sent) && incoming == old(incoming) && reaction == E.Nothing
      ensures got ==>
        || Broke(old(State()), old(sent), reaction, State(), sent)
        || Did(old(State()), old(incoming), old(sent), reaction, read, State(), incoming, sent)
    {
      hide TlpTotalLength, LcrcValid, Crc16Valid, AckFrame, E.Receive, IsDlTlp, WellFormed, E.Registers.Valid, AllWhole;
      ghost var input := incoming;
      if Reliable(recvs) { SomethingMoves(recvs); }
      var len, again := Recv(0, 7);
      if len != 7 {
        if |input| < 7 { ReceiveShort(State(), input); }
        if len != -1 || !again {
          active := false;
          return true, E.Nothing;
        }
        return false, E.Nothing;
      }
      assert buf[..7] == buf[0..0 + 7] == input[..7];
      if buf[0] == PROTO_DLLP {
        var ok := PcieCrc16Valid(buf, 1);
        assert buf[1..7] == buf[..7][1..] == input[1..7];
        ReceiveDllp(State(), input);
        got, reaction := true, E.Nothing;
        if ok && (buf[1] == DLLP_ACK || buf[1] == DLLP_NAK) {
          reaction := E.AckLogged(SeqOf(buf[3..5]));
        }
      } else if buf[0] == PROTO_TLP {
        reaction := ReceiveTlp(read, input);
        got := true;
      } else {
        ReceiveForeign(State(), input);
        active := false;
        return true, E.Nothing;
      }
    }
  }

  lemma ReadParts(c: E.Client, space: E.Space, addr: nat, length: nat, cb: nat) returns (frame: seq<byte>)
    requires addr < U64
    ensures Fmt([E.ReadKind(space)]) < 2
    ensures frame == TlpFrame(0, c.seqno + 1, ReadTlp(E.ReadKind(space), c.readTag, addr, length)) && |frame| > 0
    ensures E.IssueRead(c, space, addr, length, cb)
      == (c.(seqno := c.seqno + 1, readTag := (c.readTag + 1) % 32,
             completionCb := c.completionCb[c.readTag := E.Some(cb)]), frame)
  {
    frame := TlpFrame(0, c.seqno + 1, ReadTlp(E.ReadKind(space), c.readTag, addr, length));
  }

  lemma SomethingMoves(io: seq<Io>)
    requires Flowing(io)
    ensures forall n: nat :: Moved(io, n) >= 0 && (n > 0 ==> Moved(io, n) > 0)
  {
  }

  lemma SealedTlp(was: seq<byte>, numbered: seq<byte>, sealed: seq<byte>, seqno: nat)
    requires Transport(was) && was[0] == PROTO_TLP && |numbered| == |was|
    requires numbered[..3] == [was[0]] + SeqBytes(was[1] / 16, seqno) && numbered[3..] == was[3..]
    requires var end := 3 + TlpTotalLength(was[3..]);
      sealed == numbered[..end] + LcrcBytes(numbered[1..end]) + numbered[end + 4..]
    ensures TlpTotalLength(sealed[3..]) == TlpTotalLength(was[3..])
    ensures sealed[..7 + TlpTotalLength(was[3..])] == Framed(was, seqno)
  {
    hide TlpTotalLength, LcrcBytes, SeqBytes;
    var end := 3 + TlpTotalLength(was[3..]);
    var d := SeqBytes(was[1] / 16, seqno) + was[3..end];
    Numbered(was, numbered, SeqBytes(was[1] / 16, seqno), end);
    Sealed(numbered, sealed, d, LcrcBytes(d), end);
    TotalLengthPrefix(sealed[3..], was[3..]);
  }

  lemma Numbered(was: seq<byte>, numbered: seq<byte>, number: seq<byte>, end: nat)
    requires 7 <= end <= |was| == |numbered| && |number| == 2
    requires numbered[..3] == [was[0]] + number && numbered[3..] == was[3..]
    ensures numbered[..end] == [was[0]] + (number + was[3..end]) && numbered[1..end] == number + was[3..end]
    ensures numbered[3..7] == was[3..][..4]
  {
    assert numbered[3..end] == numbered[3..][..end - 3] == was[3..end];
    assert numbered[..end] == numbered[..3] + numbered[3..end];
  }

  lemma Sealed(numbered: seq<byte>, sealed: seq<byte>, d: seq<byte>, trailer: seq<byte>, end: nat)
    requires 7 <= end == 1 + |d| && end + 4 <= |numbered| && |trailer| == 4
    requires numbered[..end] == [PROTO_TLP] + d && sealed == numbered[..end] + trailer + numbered[end + 4..]
    ensures sealed[..end + 4] == [PROTO_TLP] + (d + trailer)
    ensures sealed[3..][..4] == numbered[3..7]
  {
    assert sealed[3..][..4] == numbered[..end][3..7] == numbered[3..7];
  }

  lemma ZerosAre(s: seq<byte>)
    requires forall i :: 0 <= i < |s| ==> s[i] == 0
    ensures s == Zeros(|s|)
  {
  }

  lemma BlankHead(blank: seq<byte>, kind: byte, tag: byte)
    requires |blank| == TRANSPORT_SIZE && blank[3] == kind && blank[9] == tag
    requires forall i :: 0 <= i < |blank| && i !in {0, 3, 9} ==> blank[i] == 0
    ensures blank[3..] == [kind, 0, 0, 0, 0, 0, tag, 0] + Zeros(8) + blank[19..] && blank[1] == 0
  {
    ZerosAre(blank[11..19]);
  }

  /** What `tlp_req_set_addr` leaves in a zeroed transport is the read request. */
  lemma ReadFrame(blank: seq<byte>, t: seq<byte>, kind: byte, tag: byte, addr: nat, length: nat)
    requires |blank| == TRANSPORT_SIZE && addr < U64 && Fmt([kind]) < 2
    requires blank[0] == PROTO_TLP && blank[3] == kind && blank[9] == tag
    requires forall i :: 0 <= i < |blank| && i !in {0, 3, 9} ==> blank[i] == 0
    requires t == blank[..3] + SetAddr(blank[3..], addr, length)
    ensures Transport(t) && t[0] == PROTO_TLP
    ensures forall seqno: nat :: Framed(t, seqno) == TlpFrame(0, seqno, ReadTlp(kind, tag, addr, length))
  {
    hide TlpDataLength, AddrBytes, FirstEnables, LastEnables, Dwords, DlTlp, KindByte;
    var head: seq<byte> := [kind, 0, 0, 0, 0, 0, tag, 0] + Zeros(8);
    BlankHead(blank, kind, tag);
    SetAddrPrefix(head, blank[19..], addr, length);
    var r := SetAddr(head, addr, length);
    assert t[3..] == r + blank[19..];
    TotalLengthPrefix(t[3..], r);
    HeaderFields(head, addr, length);
    assert t[3..3 + TlpTotalLength(r)] == r[..TlpTotalLength(r)];
  }

  lemma SetAddrPrefix(p: seq<byte>, tail: seq<byte>, addr: nat, length: nat)
    requires |p| >= 16 && addr < U64
    ensures SetAddr(p + tail, addr, length) == SetAddr(p, addr, length) + tail
  {
    hide AddrBytes, FirstEnables, LastEnables, Dwords;
    var k := AddrWidth(addr);
    assert (p + tail)[8 + k..] == p[8 + k..] + tail;
    assert forall i :: 0 <= i < 8 ==> (p + tail)[i] == p[i];
  }

  /** The payload fits the transport that was allocated. */
  lemma WriteHead(garbage: seq<byte>, blank: seq<byte>, head: seq<byte>, kind: byte, addr: nat, data: seq<byte>)
    requires Writable(addr, |data|) && 2 <= Fmt([kind]) < 4
    requires |garbage| == TRANSPORT_SIZE + 4 * Dwords(addr % 4, |data|)
    requires blank == garbage[0 := PROTO_TLP][3 := kind] && head == blank[..3] + SetAddr(blank[3..], addr, |data|)
    ensures blank[3..] == garbage[3..][0 := kind] && |head| == |garbage|
    ensures head[3..] == SetAddr(blank[3..], addr, |data|)
    ensures 3 + DataStart(head[3..]) + addr % 4 + |data| <= |head| && 8 <= DataStart(head[3..]) <= 16
    ensures 7 + TlpTotalLength(head[3..]) <= |head| && TlpTotalLength(head[3..]) >= 12
  {
    assert blank[3..] == garbage[3..][0 := kind];
    assert head[3..] == SetAddr(blank[3..], addr, |data|);
    hide SetAddr, TlpTotalLength, DataStart, Dwords, Fmt;
    WriteRoom(kind, garbage[3..], addr, |data|);
  }

  lemma WriteFrame(garbage: seq<byte>, blank: seq<byte>, head: seq<byte>, t: seq<byte>, kind: byte, addr: nat,
                   data: seq<byte>)
    requires Writable(addr, |data|) && 2 <= Fmt([kind]) < 4
    requires |garbage| == TRANSPORT_SIZE + 4 * Dwords(addr % 4, |data|)
    requires blank == garbage[0 := PROTO_TLP][3 := kind] && head == blank[..3] + SetAddr(blank[3..], addr, |data|)
    requires 3 + DataStart(head[3..]) + addr % 4 + |data| <= |head|
    requires t == Overlay(head, 3 + DataStart(head[3..]) + addr % 4, data)
    ensures Transport(t) && t[0] == PROTO_TLP
    ensures forall seqno: nat ::
      Framed(t, seqno) == TlpFrame(garbage[1] / 16, seqno, WriteTlp(kind, garbage[3..], addr, data))
  {
    WriteHead(garbage, blank, head, kind, addr, data);
    hide SetAddr, TlpTotalLength, Dwords, TlpFrame, Fmt, Overlay, DataStart, Framed, Transport, WriteTlp;
    var r := head[3..];
    var total := TlpTotalLength(r);
    OverlayShift(head, t, DataStart(r) + addr % 4, data, total);
    TotalLengthPrefix(t[3..], r);
    WriteTlpIs(garbage[3..], blank[3..], r, kind, addr, data);
    assert t[1] == head[..3][1] == blank[1] && t[0] == head[..3][0] == blank[0];
    FrameOf(t, WriteTlp(kind, garbage[3..], addr, data));
  }

  lemma WriteTlpIs(garbage: seq<byte>, blank: seq<byte>, r: seq<byte>, kind: byte, addr: nat, data: seq<byte>)
    requires Writable(addr, |data|) && 2 <= Fmt([kind]) < 4
    requires |garbage| == 20 + 4 * Dwords(addr % 4, |data|) && blank == garbage[0 := kind]
    requires r == SetAddr(blank, addr, |data|)
    requires DataStart(r) + addr % 4 + |data| <= |r| && 0 <= TlpTotalLength(r) <= |r|
    ensures WriteTlp(kind, garbage, addr, data) == Overlay(r, DataStart(r) + addr % 4, data)[..TlpTotalLength(r)]
  {
    hide SetAddr, TlpTotalLength, Dwords, Fmt, Overlay, DataStart;
  }

  /** A transport whose TLP is c. */
  lemma FrameOf(t: seq<byte>, c: seq<byte>)
    requires |t| >= 7 + |c| && |c| >= 12 && t[0] == PROTO_TLP && t[3..3 + |c|] == c && TlpTotalLength(t[3..]) == |c|
    ensures Transport(t) && forall seqno: nat :: Framed(t, seqno) == TlpFrame(t[1] / 16, seqno, c)
  {
    hide TlpTotalLength, DlTlp;
  }

  lemma OverlayShift(head: seq<byte>, t: seq<byte>, at: nat, data: seq<byte>, total: nat)
    requires 4 <= at && 3 + at + |data| <= |head| && 3 + total <= |head| && t == Overlay(head, 3 + at, data)
    ensures t[3..] == Overlay(head[3..], at, data) && t[..3] == head[..3]
    ensures t[3..][..4] == head[3..][..4] && t[3..3 + total] == Overlay(head[3..], at, data)[..total]
  {
    assert t[3..] == Overlay(head[3..], at, data);
    assert t[3..3 + total] == t[3..][..total];
  }

  /** The bytes set in zeroed memory are the completion. */
  lemma CompletionBytes(p: seq<byte>, result: ReadResult, blank: seq<byte>, head: seq<byte>, t: seq<byte>)
    requires WellFormed(p) && (result.ReadData? ==> |result.data| <= 4 * TlpDataLength(p))
    requires |blank| == TRANSPORT_SIZE + 4 * TlpDataLength(p) && forall i :: 0 <= i < |blank| ==> blank[i] == 0
    requires var n := TlpDataLengthBytes(p);
      head == [PROTO_TLP, 0, 0, CPLD, 0, p[2] % 4, p[3], 0, 0, n / 256 % 16, n % 256, 0, 0, p[6], 0]
    requires t == if result.ReadData? then Overlay(Overlay(blank, 0, head), 15, result.data)
                  else Overlay(blank, 0, head)[3 := CPL]
    ensures |t| == |blank| && t[..3] == [PROTO_TLP, 0, 0]
    ensures t[3..3 + |CompletionTlp(p, result)|] == CompletionTlp(p, result)
  {
    hide TlpDataLengthBytes, TlpDataLength, TlpTotalLength, CompletionTlp, Overlay, Zeros;
    var c, n := CompletionTlp(p, result), TlpDataLengthBytes(p);
    var kind := if result.ReadError? then CPL else CPLD;
    CompletionLayout(blank, head, kind, t, result);
    CompletionSplit(p, result, kind, n);
    if result.ReadData? {
      CompletionTail(blank, t, result.data, 4 * TlpDataLength(p));
    }
    assert head[3 := kind][3..] == c[..12];
    Glue(t, c);
  }

  lemma Glue(t: seq<byte>, c: seq<byte>)
    requires 12 <= |c| && 3 + |c| <= |t| && t[3..15] == c[..12] && t[15..3 + |c|] == c[12..]
    ensures t[3..3 + |c|] == c
  {
    assert c == c[..12] + c[12..];
    assert t[3..3 + |c|] == t[3..15] + t[15..3 + |c|];
  }

  lemma CompletionFrame(p: seq<byte>, result: ReadResult, t: seq<byte>)
    requires WellFormed(p) && (result.ReadData? ==> |result.data| <= 4 * TlpDataLength(p))
    requires |t| == TRANSPORT_SIZE + 4 * TlpDataLength(p) && t[..3] == [PROTO_TLP, 0, 0]
    requires t[3..3 + |CompletionTlp(p, result)|] == CompletionTlp(p, result)
    ensures Transport(t) && t[0] == PROTO_TLP
    ensures forall seqno: nat :: Framed(t, seqno) == TlpFrame(0, seqno, CompletionTlp(p, result))
  {
    hide TlpDataLengthBytes, TlpDataLength, TlpTotalLength, CompletionTlp, TlpFrame, Framed, Transport;
    var c := CompletionTlp(p, result);
    E.CompletionShape(p, result);
    assert t[3..][..4] == t[3..3 + |c|][..4];
    TotalLengthPrefix(t[3..], c);
    assert t[0] == t[..3][0] && t[1] == t[..3][1];
    FrameOf(t, c);
  }

  lemma CompletionLayout(blank: seq<byte>, head: seq<byte>, kind: byte, t: seq<byte>, result: ReadResult)
    requires |head| == 15 && 15 + (if result.ReadData? then |result.data| else 0) <= |blank|
    requires head[3] == CPLD && kind == if result.ReadError? then CPL else CPLD
    requires t == if result.ReadData? then Overlay(Overlay(blank, 0, head), 15, result.data)
                  else Overlay(blank, 0, head)[3 := CPL]
    ensures |t| == |blank| && t[..3] == head[..3] && t[3..15] == head[3 := kind][3..]
    ensures result.ReadData? ==>
      var m := |result.data|; t[15..15 + m] == result.data && t[15 + m..] == blank[15 + m..]
  {
  }

  lemma CompletionSplit(p: seq<byte>, result: ReadResult, kind: byte, n: int)
    requires WellFormed(p) && (result.ReadData? ==> |result.data| <= 4 * TlpDataLength(p))
    requires n == TlpDataLengthBytes(p) && kind == if result.ReadError? then CPL else CPLD
    ensures CompletionTlp(p, result)[..12] == [kind, 0, p[2] % 4, p[3], 0, 0, n / 256 % 16, n % 256, 0, 0, p[6], 0]
    ensures CompletionTlp(p, result)[12..]
      == if result.ReadError? then [] else result.data + Zeros(4 * TlpDataLength(p) - |result.data|)
  {
    hide TlpDataLengthBytes, TlpDataLength, WellFormed, Zeros;
  }

  lemma CompletionTail(blank: seq<byte>, t: seq<byte>, data: seq<byte>, n: nat)
    requires |data| <= n && 15 + n <= |t| == |blank| && forall i :: 0 <= i < |blank| ==> blank[i] == 0
    requires t[15..15 + |data|] == data && t[15 + |data|..] == blank[15 + |data|..]
    ensures t[15..15 + n] == data + Zeros(n - |data|)
  {
    var z := blank[15 + |data|..15 + n];
    ZerosAre(z);
    assert t[15 + |data|..15 + n] == t[15 + |data|..][..n - |data|] == z;
    assert t[15..15 + n] == t[15..15 + |data|] + t[15 + |data|..15 + n];
  }

  /** The TLP inside a data-link TLP, handled. */
  function Reacted(c: E.Client, d: seq<byte>): (E.Client, E.Reaction)
    requires IsDlTlp(d)
  {
    InnerTlp(d);
    E.React(c, d[2..|d| - 4])
  }

  lemma InnerTlp(d: seq<byte>)
    requires IsDlTlp(d)
    ensures WellFormed(d[2..|d| - 4])
  {
    TotalLengthPrefix(d[2..|d| - 4], d[2..]);
  }

  /** A client whose acknowledgement did not go out reacts in the same way. */
  lemma SameReaction(c: E.Client, c': E.Client, d: seq<byte>)
    requires IsDlTlp(d) && c' == c.(active := c'.active)
    ensures Reacted(c', d) == (Reacted(c, d).0.(active := c'.active), Reacted(c, d).1)
  {
    InnerTlp(d);
    hide E.ReadAccess, E.WriteAccess, WellFormed, IsDlTlp, E.CplData, E.Registers.Valid;
  }

  lemma ReceiveDllp(c: E.Client, input: seq<byte>)
    requires |input| >= 7 && input[0] == PROTO_DLLP
    ensures E.Receive(c, input) == E.Reception(c, 7, [],
      if Crc16Valid(input[1..7]) && (input[1] == DLLP_ACK || input[1] == DLLP_NAK)
      then E.AckLogged(SeqOf(input[3..5])) else E.Nothing)
  {
    hide Crc16Valid;
  }

  lemma ReceiveShort(c: E.Client, input: seq<byte>)
    requires |input| < 7
    ensures E.Receive(c, input) == E.Reception(c.(active := false), |input|, [], E.Nothing)
  {
  }

  lemma ReceiveForeign(c: E.Client, input: seq<byte>)
    requires |input| >= 7 && input[0] != PROTO_DLLP && input[0] != PROTO_TLP
    ensures E.Receive(c, input) == E.Reception(c.(active := false), 7, [], E.Nothing)
  {
  }

  lemma ReceiveUnknown(c: E.Client, input: seq<byte>)
    requires |input| >= 7 && input[0] == PROTO_TLP && TlpTotalLength(input[3..7]) < 0
    ensures E.Receive(c, input) == E.Reception(c.(active := false), 7, [], E.Nothing)
  {
    hide TlpTotalLength;
  }

  lemma ReceiveCutOff(c: E.Client, input: seq<byte>)
    requires |input| >= 7 && input[0] == PROTO_TLP && 0 <= TlpTotalLength(input[3..7])
    requires |input| < 7 + TlpTotalLength(input[3..7]) <= CLIENT_BUFFER_SIZE
    ensures E.Receive(c, input) == E.Reception(c.(active := false), |input|, [], E.Nothing)
  {
    hide TlpTotalLength;
  }

  lemma ReceiveOversize(c: E.Client, input: seq<byte>)
    requires |input| >= 7 && input[0] == PROTO_TLP && 7 + TlpTotalLength(input[3..7]) > CLIENT_BUFFER_SIZE
    ensures E.Receive(c, input) == E.Reception(c, 7, [], E.Aborted)
  {
    hide TlpTotalLength;
  }

  lemma ReceiveWhole(c: E.Client, input: seq<byte>, total: nat)
    requires 7 <= total <= |input| && total <= CLIENT_BUFFER_SIZE && input[0] == PROTO_TLP
    requires 7 + TlpTotalLength(input[3..7]) == total
    ensures var d := input[1..total];
      IsDlTlp(d) &&
      var (c', rx) := if LcrcValid(d) then Reacted(c, d) else (c, E.Nothing);
      && E.Receive(c, input)
         == E.Reception(c', total, AckFrame(if LcrcValid(d) then DLLP_ACK else DLLP_NAK, SeqOf(d)), rx)
      && c'.active == c.active
  {
    hide TlpTotalLength, LcrcValid, AckFrame, E.React, SeqOf, E.Registers.Valid;
    assert Parse(input) == Tlp(input[1..total]);
    if LcrcValid(input[1..total]) { ReactedActive(c, input[1..total]); }
  }

  lemma ReactedActive(c: E.Client, d: seq<byte>)
    requires IsDlTlp(d)
    ensures Reacted(c, d).0.active == c.active
  {
    hide E.ReadAccess, E.WriteAccess, WellFormed, IsDlTlp, E.CplData, E.Registers.Valid;
    InnerTlp(d);
  }

  /** A sealed TLP at the head of the stream, dealt with: the rest of the stream is left, its
      acknowledgement goes out first, and the packet is handled. */
  lemma WholeFrameAcked(c: E.Client, rsvd: nat, seqno: nat, tlp: seq<byte>, rest: seq<byte>, before: seq<byte>,
                        reaction: E.Reaction, read: ReadCb, c': E.Client, left: seq<byte>, after: seq<byte>)
    requires rsvd < 16 && WellFormed(tlp) && 7 + |tlp| <= CLIENT_BUFFER_SIZE
    requires E.Servable(reaction) && Fills(read) && c'.active
    requires Did(c, TlpFrame(rsvd, seqno, tlp) + rest, before, reaction, read, c', left, after)
    ensures left == rest && reaction == E.React(c, tlp).1
    ensures before + AckFrame(DLLP_ACK, seqno % 4096) <= after
  {
    hide E.Receive, TlpFrame, WellFormed, AckFrame, E.React, E.Registers.Valid;
    E.ReceiveTlp(c, rsvd, seqno, tlp, rest);
    FrameSize(rsvd, seqno, tlp);
    assert (TlpFrame(rsvd, seqno, tlp) + rest)[|TlpFrame(rsvd, seqno, tlp)|..] == rest;
  }

  lemma FrameSize(rsvd: nat, seqno: nat, tlp: seq<byte>)
    requires rsvd < 16
    ensures |TlpFrame(rsvd, seqno, tlp)| == 7 + |tlp|
  {
  }
}
