/**
 One end of the link (struct warppipe_client and the handlers of src/client.c) as values.
 Client.dfy holds the class whose methods update these fields in place and are proved against
 the functions below.  Callbacks are handles; what a read callback answers is a parameter.
 */
module Endpoint {
  import opened Bits
  import opened Proto
  import opened Seal
  import opened Frames

  datatype Option<T> = None | Some(value: T)

  type Callback = Option<nat>

  /** The BAR tables and callback slots. */
  datatype Registers = Registers(
    bar: seq<nat>, barSize: seq<nat>, barReadCb: seq<Callback>, barWriteCb: seq<Callback>,
    cfg0ReadCb: Callback, cfg0WriteCb: Callback)
  {
    predicate Valid() {
      && |bar| == |barSize| == |barReadCb| == |barWriteCb| == 6
      && (forall i :: 0 <= i < 6 ==> bar[i] < U32 && barSize[i] < U32)
    }
  }

  type Regs = r: Registers | r.Valid()
    witness Registers([0, 0, 0, 0, 0, 0], [0, 0, 0, 0, 0, 0], [None, None, None, None, None, None],
                      [None, None, None, None, None, None], None, None)

  // ---------------------------------------------------------------- BAR decoding

  /** `bar_size - 1` in 32 bits: an unregistered BAR (size 0) gets all ones. */
  function SizeMask(size: nat): (m: nat)
    requires size < U32
    ensures m < U32
  {
    if size == 0 then U32 - 1 else size - 1
  }

  predicate Matches(r: Regs, i: nat, addr: nat)
    requires i < 6
  {
    And(addr, Not32(SizeMask(r.barSize[i]))) == r.bar[i]
  }

  /** The first index from i on whose masked address equals its base, or -1. */
  function BarFrom(r: Regs, addr: nat, i: nat): (k: int)
    requires i <= 6
    ensures k == -1 || i <= k < 6
    ensures k >= 0 ==> Matches(r, k, addr)
    ensures forall j :: i <= j < (if k < 0 then 6 else k) ==> !Matches(r, j, addr)
    decreases 6 - i
  {
    if i == 6 then -1 else if Matches(r, i, addr) then i else BarFrom(r, addr, i + 1)
  }

  function GetBarIdx(r: Regs, addr: nat): int {
    BarFrom(r, addr, 0)
  }

  // ---------------------------------------------------------------- BAR registration

  /** `warppipe_register_bar`; the base is stored in 32 bits. */
  function RegisterBar(r: Regs, bar: nat, size: nat, idx: nat, read: Callback, write: Callback): (res: (int, Regs))
    requires bar < U64 && size < U32 && idx < 6
    ensures res.0 == 0 <==> r.bar[idx] == 0 && size > 0 && IsPow2(size)
    ensures res.0 != 0 ==> res == (-1, r)
  {
    if size > 0 then
      PowerOfTwoTest(size);
      if r.bar[idx] != 0 || And(size, size - 1) != 0 then (-1, r)
      else (0, r.(bar := r.bar[idx := bar % U32], barSize := r.barSize[idx := size],
                  barReadCb := r.barReadCb[idx := read], barWriteCb := r.barWriteCb[idx := write]))
    else (-1, r)
  }

  // ---------------------------------------------------------------- requests

  /** A callback invocation on the completer: handle, offset passed, length passed. */
  datatype Access = Access(cb: nat, addr: nat, length: int)

  datatype Space = Memory | Config

  /** The callback and offset for an address, given the callbacks of one direction. */
  function Decode(r: Regs, space: Space, addr: nat, cbs: seq<Callback>, cfg: Callback): Option<(nat, nat)>
    requires |cbs| == 6
  {
    match space
    case Memory =>
      var i := GetBarIdx(r, addr);
      if i == -1 || cbs[i] == None then None
      else Some((cbs[i].value, And(addr, SizeMask(r.barSize[i]))))
    case Config =>
      if cfg == None then None else Some((cfg.value, addr))
  }

  function ReadSpace(kind: byte): Option<Space> {
    if kind == IORD || kind == MRD32 || kind == MRD64 then Some(Memory)
    else if kind == CR0 then Some(Config)
    else None
  }

  function WriteSpace(kind: byte): Option<Space> {
    if kind == IOWR || kind == MWR32 || kind == MWR64 then Some(Memory)
    else if kind == CW0 then Some(Config)
    else None
  }

  /** What a read request makes the completer call, if anything. */
  function ReadAccess(r: Regs, p: seq<byte>): (a: Option<Access>)
    requires WellFormed(p) && ReadSpace(p[0]).Some?
    ensures a.Some? ==> a.value.length == TlpDataLengthBytes(p)
  {
    match Decode(r, ReadSpace(p[0]).value, TlpGetAddr(p), r.barReadCb, r.cfg0ReadCb)
    case None => None
    case Some((cb, addr)) => Some(Access(cb, addr + FirstBeOffset(p), TlpDataLengthBytes(p)))
  }

  /** What a write request makes the completer call, and with which bytes. */
  function WriteAccess(r: Regs, p: seq<byte>): Option<(Access, seq<byte>)>
    requires WellFormed(p) && WriteSpace(p[0]).Some?
  {
    match Decode(r, WriteSpace(p[0]).value, TlpGetAddr(p), r.barWriteCb, r.cfg0WriteCb)
    case None => None
    case Some((cb, addr)) =>
      var n := TlpDataLengthBytes(p);
      var at := DataStart(p) + FirstBeOffset(p);
      Some((Access(cb, addr + FirstBeOffset(p), n), if n <= 0 then [] else PayloadFits(p); p[at..at + n]))
  }

  lemma PayloadFits(p: seq<byte>)
    requires WellFormed(p) && WriteSpace(p[0]).Some? && TlpDataLengthBytes(p) > 0
    ensures DataStart(p) + FirstBeOffset(p) + TlpDataLengthBytes(p) <= |p|
  {
  }

  // ---------------------------------------------------------------- the same, from the request

  /** The access a request should cause: decode the aligned address, add the alignment back. */
  function Intended(r: Regs, space: Space, addr: nat, length: nat, cbs: seq<Callback>,
                    cfg: Callback): (a: Option<Access>)
    requires |cbs| == 6
    ensures a.Some? ==> a.value.length == length
  {
    if space == Config && addr - addr % 4 >= U32 then None
    else
      match Decode(r, space, addr - addr % 4, cbs, cfg)
      case None => None
      case Some((cb, at)) => Some(Access(cb, at + addr % 4, length))
  }

  function ReadKind(space: Space): (kind: byte)
    ensures Fmt([kind]) < 2
  {
    match space case Memory => MRD64 case Config => CR0
  }

  function WriteKind(space: Space): (kind: byte)
    ensures 2 <= Fmt([kind]) < 4
  {
    match space case Memory => MWR64 case Config => CW0
  }

  /** Lengths the packet format can carry. */
  predicate Carried(addr: nat, length: nat) {
    addr < U64 && length >= 1 && addr % 4 + length <= 4096
  }

  /** A truncated packet has the fields of the whole. */
  lemma PrefixFields(p: seq<byte>, r: seq<byte>)
    requires |r| >= 12 && r <= p && DataStart(p) <= |r|
    ensures TlpTotalLength(r) == TlpTotalLength(p) && TlpDataLength(r) == TlpDataLength(p)
    ensures TlpDataLengthBytes(r) == TlpDataLengthBytes(p) && FirstBeOffset(r) == FirstBeOffset(p)
    ensures DataStart(r) == DataStart(p) && TlpGetAddr(r) == TlpGetAddr(p)
    ensures r[0] == p[0] && r[6] == p[6] && r[3] == p[3] && r[2] == p[2]
  {
    assert forall i :: 0 <= i < 12 ==> r[i] == p[i];
    assert r[8..DataStart(r)] == p[8..DataStart(p)];
  }

  /** Reading back a read request: its size, tag and kind. */
  lemma ReadTlpShape(kind: byte, tag: byte, addr: nat, length: nat)
    requires Carried(addr, length) && Fmt([kind]) < 2
    ensures var p := ReadTlp(kind, tag, addr, length);
      WellFormed(p) && p[6] == tag && p[0] == KindByte(kind, AddrWidth(addr) == 8)
  {
    var blank := [kind, 0, 0, 0, 0, 0, tag, 0] + Zeros(8);
    SetFields(kind, blank, addr, length);
    PrefixFields(SetAddr(blank, addr, length), ReadTlp(kind, tag, addr, length));
  }

  /** Its address, aligned. */
  lemma ReadTlpAddress(kind: byte, tag: byte, addr: nat, length: nat)
    requires Carried(addr, length) && Fmt([kind]) < 2
    ensures var p := ReadTlp(kind, tag, addr, length);
      WellFormed(p) && TlpGetAddr(p) == addr - addr % 4
  {
    var blank := [kind, 0, 0, 0, 0, 0, tag, 0] + Zeros(8);
    SetFields(kind, blank, addr, length);
    PrefixFields(SetAddr(blank, addr, length), ReadTlp(kind, tag, addr, length));
  }

  /** The alignment. */
  lemma ReadTlpOffset(kind: byte, tag: byte, addr: nat, length: nat)
    requires Carried(addr, length) && Fmt([kind]) < 2
    ensures var p := ReadTlp(kind, tag, addr, length);
      WellFormed(p) && FirstBeOffset(p) == addr % 4
  {
    var blank := [kind, 0, 0, 0, 0, 0, tag, 0] + Zeros(8);
    SetFields(kind, blank, addr, length);
    PrefixFields(SetAddr(blank, addr, length), ReadTlp(kind, tag, addr, length));
  }

  /** Its length, in bytes and in double words. */
  lemma ReadTlpLengths(kind: byte, tag: byte, addr: nat, length: nat)
    requires Carried(addr, length) && Fmt([kind]) < 2
    ensures var p := ReadTlp(kind, tag, addr, length);
      WellFormed(p) && TlpDataLengthBytes(p) == length && TlpDataLength(p) == Dwords(addr % 4, length)
  {
    var blank := [kind, 0, 0, 0, 0, 0, tag, 0] + Zeros(8);
    SetFields(kind, blank, addr, length);
    PrefixFields(SetAddr(blank, addr, length), ReadTlp(kind, tag, addr, length));
  }

  /** A read request reaches the callback, offset and length its caller meant. */
  lemma ReadDelivered(r: Regs, space: Space, tag: byte, addr: nat, length: nat)
    requires Carried(addr, length)
    ensures var p := ReadTlp(ReadKind(space), tag, addr, length);
      && WellFormed(p)
      && (if ReadSpace(p[0]).None? then None else ReadAccess(r, p))
         == Intended(r, space, addr, length, r.barReadCb, r.cfg0ReadCb)
      && WriteSpace(p[0]).None? && p[0] != CPLD
  {
    hide SetAddr, TlpDataLengthBytes, TlpGetAddr, TlpDataLength, FirstBeOffset, ReadTlp, Decode, TlpTotalLength, Dwords;
    ReadTlpShape(ReadKind(space), tag, addr, length);
    ReadTlpAddress(ReadKind(space), tag, addr, length);
    ReadTlpOffset(ReadKind(space), tag, addr, length);
    ReadTlpLengths(ReadKind(space), tag, addr, length);
  }

  predicate Garbage(garbage: seq<byte>, addr: nat, length: nat) {
    |garbage| == 20 + 4 * Dwords(addr % 4, length)
  }

  lemma OverlayKeepsHead(r: seq<byte>, at: nat, data: seq<byte>, total: nat)
    requires |r| >= total >= at + |data| && at >= 12
    ensures Overlay(r, at, data)[..total][..at] == r[..at]
    ensures Overlay(r, at, data)[..total][at..at + |data|] == data
  {
  }

  lemma SameHead(p: seq<byte>, r: seq<byte>)
    requires |p| >= 12 && |r| >= 12 && DataStart(r) <= |r| && DataStart(r) <= |p|
    requires p[..DataStart(r)] == r[..DataStart(r)]
    ensures TlpTotalLength(r) == TlpTotalLength(p) && TlpDataLength(r) == TlpDataLength(p)
    ensures TlpDataLengthBytes(r) == TlpDataLengthBytes(p) && FirstBeOffset(r) == FirstBeOffset(p)
    ensures DataStart(r) == DataStart(p) && TlpGetAddr(r) == TlpGetAddr(p) && r[0] == p[0]
  {
    PrefixFields(r, r[..DataStart(r)]);
    PrefixFields(p, r[..DataStart(r)]);
  }

  /** Reading back a write request, whatever malloc left in the unused bits and the padding. */
  lemma WriteTlpFields(kind: byte, garbage: seq<byte>, addr: nat, data: seq<byte>)
    requires Carried(addr, |data|) && Garbage(garbage, addr, |data|) && 2 <= Fmt([kind]) < 4
    ensures var p := WriteTlp(kind, garbage, addr, data);
      && WellFormed(p)
      && TlpGetAddr(p) == addr - addr % 4 && FirstBeOffset(p) == addr % 4
      && TlpDataLengthBytes(p) == |data| && TlpDataLength(p) == Dwords(addr % 4, |data|)
      && p[0] == KindByte(kind, AddrWidth(addr) == 8)
      && DataStart(p) + addr % 4 + |data| <= |p|
      && p[DataStart(p) + addr % 4..DataStart(p) + addr % 4 + |data|] == data
  {
    hide SetAddr, TlpDataLengthBytes, TlpGetAddr, TlpDataLength, FirstBeOffset, KindByte, Dwords, TlpTotalLength,
      Overlay, DataStart,
      AddrWidth, Fmt;
    var whole := SetAddr(garbage[0 := kind], addr, |data|);
    SetFields(kind, garbage[0 := kind], addr, |data|);
    RoomForData(whole, kind, AddrWidth(addr) == 8, addr % 4, |data|);
    OverlayFields(whole, DataStart(whole) + addr % 4, data, TlpTotalLength(whole));
  }

  lemma RoomForData(r: seq<byte>, kind: byte, wide: bool, align: nat, length: nat)
    requires |r| >= 16 && r[0] == KindByte(kind, wide) && 2 <= Fmt([kind]) < 4
    requires TlpDataLength(r) == Dwords(align, length)
    ensures TlpTotalLength(r) >= 12
    ensures DataStart(r) + align + length <= TlpTotalLength(r) <= 16 + 4 * Dwords(align, length)
  {
  }

  lemma OverlayFields(r: seq<byte>, at: nat, data: seq<byte>, total: nat)
    requires |r| >= 16 && at >= DataStart(r) && at + |data| <= total <= |r|
    ensures var p := Overlay(r, at, data)[..total];
      && TlpTotalLength(r) == TlpTotalLength(p) && TlpDataLength(r) == TlpDataLength(p)
      && TlpDataLengthBytes(r) == TlpDataLengthBytes(p) && FirstBeOffset(r) == FirstBeOffset(p)
      && DataStart(r) == DataStart(p) && TlpGetAddr(r) == TlpGetAddr(p) && r[0] == p[0]
      && p[at..at + |data|] == data
  {
    var p := Overlay(r, at, data)[..total];
    OverlayKeepsHead(r, at, data, total);
    assert p[..DataStart(r)] == p[..at][..DataStart(r)] == r[..DataStart(r)];
    SameHead(p, r);
  }

  /** All the fields of a request header at once. */
  lemma SetFields(kind: byte, blank: seq<byte>, addr: nat, length: nat)
    requires Carried(addr, length) && |blank| >= 16 && blank[0] == kind && Fmt([kind]) < 4
    ensures var r := SetAddr(blank, addr, length);
      && |r| >= DataStart(r) && TlpGetAddr(r) == addr - addr % 4 && FirstBeOffset(r) == addr % 4
      && TlpDataLengthBytes(r) == length && TlpDataLength(r) == Dwords(addr % 4, length)
      && r[0] == KindByte(kind, AddrWidth(addr) == 8)
      && r[6] == blank[6]
  {
    HeaderFields(blank, addr, length);
    AddrRecovered(blank, addr, length);
    OffsetRecovered(blank, addr, length);
    LengthRecovered(blank, addr, length);
  }

  /** A write request reaches the callback and offset its caller meant, with exactly its bytes. */
  lemma WriteDelivered(r: Regs, space: Space, garbage: seq<byte>, addr: nat, data: seq<byte>)
    requires Carried(addr, |data|) && Garbage(garbage, addr, |data|)
    ensures var p := WriteTlp(WriteKind(space), garbage, addr, data);
      var a := Intended(r, space, addr, |data|, r.barWriteCb, r.cfg0WriteCb);
      && WellFormed(p)
      && (if WriteSpace(p[0]).None? then None else WriteAccess(r, p))
         == (if a.None? then None else Some((a.value, data)))
      && ReadSpace(p[0]).None? && p[0] != CPLD
  {
    hide SetAddr, TlpDataLengthBytes, TlpGetAddr, TlpDataLength, FirstBeOffset, WriteTlp, Decode, TlpTotalLength,
      Dwords;
    WriteTlpFields(WriteKind(space), garbage, addr, data);
  }

  // ---------------------------------------------------------------- completions

  /** Tag, byte count and data a requester reads out of a completion; the byte count has 12 bits. */
  function CplTag(p: seq<byte>): nat
    requires |p| >= 12
  {
    p[10]
  }

  function CplByteCount(p: seq<byte>): (n: nat)
    requires |p| >= 12
    ensures n < 4096
  {
    var hi: int := p[6] % 16;
    256 * hi + p[7]
  }

  /** The part of the announced data that lies inside the packet. */
  function CplData(p: seq<byte>): (d: seq<byte>)
    requires |p| >= 12
  {
    if 12 + CplByteCount(p) <= |p| then p[12..12 + CplByteCount(p)] else p[12..]
  }

  /** A completion echoes the tag and delivers what the callback wrote; 4096 bytes arrive as 0. */
  lemma CompletionDelivered(req: seq<byte>, data: seq<byte>)
    requires WellFormed(req) && TlpDataLengthBytes(req) == |data|
    ensures var p := CompletionTlp(req, ReadData(data));
      && WellFormed(p) && p[0] == 0x4a && CplTag(p) == req[6]
      && CplByteCount(p) == |data| % 4096
      && CplData(p) == data[..|data| % 4096]
  {
    CompletionHead(req, ReadData(data));
    CompletionShape(req, ReadData(data));
    CompletionBody(req, data);
    hide CompletionTlp, TlpDataLengthBytes;
    CountedPart(CompletionTlp(req, ReadData(data)), data);
  }

  lemma CountedPart(p: seq<byte>, data: seq<byte>)
    requires |p| >= 12 + |data| && p[12..12 + |data|] == data && CplByteCount(p) == |data| % 4096
    ensures CplData(p) == data[..|data| % 4096]
  {
    assert p[12..12 + |data| % 4096] == p[12..12 + |data|][..|data| % 4096];
  }

  lemma CompletionBody(req: seq<byte>, data: seq<byte>)
    requires WellFormed(req) && |data| <= 4 * TlpDataLength(req)
    ensures CompletionTlp(req, ReadData(data))[12..12 + |data|] == data
  {
  }

  lemma CompletionHead(req: seq<byte>, result: ReadResult)
    requires WellFormed(req) && TlpDataLengthBytes(req) >= 0
    requires result.ReadData? ==> |result.data| <= 4 * TlpDataLength(req)
    ensures var p := CompletionTlp(req, result);
      && CplTag(p) == req[6]
      && CplByteCount(p) == TlpDataLengthBytes(req) % 4096
  {
    hide TlpDataLengthBytes, TlpDataLength;
    SeqSplit(TlpDataLengthBytes(req));
    hide WellFormed;
  }

  lemma CompletionShape(req: seq<byte>, result: ReadResult)
    requires WellFormed(req) && (result.ReadData? ==> |result.data| <= 4 * TlpDataLength(req))
    ensures var p := CompletionTlp(req, result);
      WellFormed(p) && p[0] == if result.ReadError? then CPL else CPLD
  {
    hide TlpDataLengthBytes;
    assert LengthField(CompletionTlp(req, result)) == LengthField(req);
  }

  lemma FailureDelivered(req: seq<byte>)
    requires WellFormed(req)
    ensures var p := CompletionTlp(req, ReadError); WellFormed(p) && p[0] == 0x0a && |p| == 12
  {
    CompletionShape(req, ReadError);
  }

  // ---------------------------------------------------------------- the endpoint

  datatype ClientState = ClientState(
    seqno: nat, active: bool, readTag: nat, completionCb: seq<Callback>, regs: Regs)
  {
    predicate Valid() {
      readTag < 32 && |completionCb| == 32
    }
  }

  type Client = c: ClientState | c.Valid()
    witness ClientState(0, true, 0, seq(32, _ => None),
                        Registers([0, 0, 0, 0, 0, 0], [0, 0, 0, 0, 0, 0], [None, None, None, None, None, None],
                                  [None, None, None, None, None, None], None, None))

  /** `warppipe_read_imp`: the frame sent and the callback left in the slot of its tag. */
  function IssueRead(c: Client, space: Space, addr: nat, length: nat, cb: nat): (Client, seq<byte>)
    requires addr < U64
  {
    (c.(seqno := c.seqno + 1, readTag := (c.readTag + 1) % 32,
        completionCb := c.completionCb[c.readTag := Some(cb)]),
     TlpFrame(0, c.seqno + 1, ReadTlp(ReadKind(space), c.readTag, addr, length)))
  }

  /** `warppipe_write_imp`; `garbage` is the malloc'ed transport. */
  function IssueWrite(c: Client, space: Space, addr: nat, data: seq<byte>, garbage: seq<byte>): (Client, seq<byte>)
    requires Writable(addr, |data|) && |garbage| == TRANSPORT_SIZE + 4 * Dwords(addr % 4, |data|)
  {
    (c.(seqno := c.seqno + 1),
     TlpFrame(garbage[1] / 16, c.seqno + 1, WriteTlp(WriteKind(space), garbage[3..], addr, data)))
  }

  /** The answer to a read request, after the read callback returned. */
  function Answer(c: Client, req: seq<byte>, result: ReadResult): (Client, seq<byte>)
    requires WellFormed(req) && (result.ReadData? ==> |result.data| <= 4 * TlpDataLength(req))
  {
    (c.(seqno := c.seqno + 1), TlpFrame(0, c.seqno + 1, CompletionTlp(req, result)))
  }

  /** What receiving a packet makes the endpoint do besides acknowledging it. */
  datatype Reaction =
    | Nothing
    | AckLogged(seqno: nat)
    | Serve(req: seq<byte>, access: Access)
    | Store(store: Access, data: seq<byte>)
    | Complete(cb: nat, payload: seq<byte>)
    | WildTag(tag: nat)     // a completion whose tag indexes past the 32 slots
    | Aborted               // the frame cannot fit the receive buffer

  /** A read callback is invoked with the length its request announces. */
  predicate Servable(r: Reaction) {
    r.Serve? ==> WellFormed(r.req) && r.access.length == TlpDataLengthBytes(r.req)
  }

  /** `handle_tlp` */
  function React(c: Client, p: seq<byte>): (r: (Client, Reaction))
    requires WellFormed(p)
    ensures Servable(r.1)
  {
    if ReadSpace(p[0]).Some? then
      match ReadAccess(c.regs, p)
      case None => (c, Nothing)
      case Some(a) => (c, Serve(p, a))
    else if WriteSpace(p[0]).Some? then
      match WriteAccess(c.regs, p)
      case None => (c, Nothing)
      case Some((a, data)) => (c, Store(a, data))
    else if p[0] == CPLD then
      var tag := CplTag(p);
      if tag >= 32 then (c, WildTag(tag))
      else if c.completionCb[tag] == None then (c, Nothing)
      else (c.(completionCb := c.completionCb[tag := None]), Complete(c.completionCb[tag].value, CplData(p)))
    else (c, Nothing)
  }

  datatype Reception = Reception(client: Client, consumed: nat, ack: seq<byte>, reaction: Reaction)

  /** `warppipe_client_read` on the bytes waiting in the socket. */
  function Receive(c: Client, input: seq<byte>): (r: Reception)
    ensures r.consumed <= |input| && Servable(r.reaction)
  {
    match Parse(input)
    case Dllp(d) =>
      Reception(c, 7, [],
        if Crc16Valid(d) && (d[0] == DLLP_ACK || d[0] == DLLP_NAK) then AckLogged(SeqOf(d[2..])) else Nothing)
    case Tlp(d) =>
      var ok := LcrcValid(d);
      var p := d[2..|d| - 4];
      TotalLengthPrefix(p, d[2..]);
      var (c', reaction) := if ok then React(c, p) else (c, Nothing);
      Reception(c', 1 + |d|, AckFrame(if ok then DLLP_ACK else DLLP_NAK, SeqOf(d)), reaction)
    case Oversize => Reception(c, 7, [], Aborted)
    case Short => Reception(c.(active := false), |input|, [], Nothing)
    case Truncated => Reception(c.(active := false), |input|, [], Nothing)
    case BadProtocol => Reception(c.(active := false), 7, [], Nothing)
    case BadFormat => Reception(c.(active := false), 7, [], Nothing)
  }

  /** When a reception leaves the endpoint connected: exactly when at least seven bytes wait, the first is
      the number of a protocol, 2 or 3, and a TLP has a known format and either arrived whole or is too
      long to be received at all. */
  lemma StaysConnectedIff(c: Client, input: seq<byte>)
    ensures Receive(c, input).client.active
      <==> && c.active && |input| >= 7 && (input[0] == 2 || (input[0] == 3 && input[3] < 0x80))
           && (input[0] == 3 ==> var n := 7 + TlpTotalLength(input[3..7]); n <= |input| || n > 4117)
  {
    hide LcrcValid, Crc16Valid, AckFrame, SeqOf, React;
    var parsed := Parse(input);
    if parsed.Tlp? {
      var d := parsed.pkt;
      TotalLengthPrefix(d[2..|d| - 4], d[2..]);
      ReactKeepsActive(c, d[2..|d| - 4]);
    }
  }

  lemma ReactKeepsActive(c: Client, p: seq<byte>)
    requires WellFormed(p)
    ensures React(c, p).0.active == c.active
  {
    hide ReadAccess, WriteAccess, TlpDataLengthBytes, CplData, TlpTotalLength;
  }

  /** Which callbacks a packet reaches, by the number of its kind. */
  lemma DispatchByKind(c: Client, p: seq<byte>)
    requires WellFormed(p)
    ensures ReadSpace(p[0])
      == if p[0] in {0x00, 0x02, 0x20} then Some(Memory) else if p[0] == 0x04 then Some(Config) else None
    ensures WriteSpace(p[0])
      == if p[0] in {0x40, 0x42, 0x60} then Some(Memory) else if p[0] == 0x44 then Some(Config) else None
    ensures React(c, p).1.Serve? ==> p[0] in {0x00, 0x02, 0x04, 0x20}
    ensures React(c, p).1.Store? ==> p[0] in {0x40, 0x42, 0x44, 0x60}
    ensures React(c, p).1.Complete? ==> p[0] == 0x4a
    ensures p[0] !in {0x00, 0x02, 0x04, 0x20, 0x40, 0x42, 0x44, 0x60, 0x4a} ==> React(c, p) == (c, Nothing)
  {
    hide ReadAccess, WriteAccess, TlpDataLengthBytes, CplData, TlpTotalLength;
  }

  /** A well-formed TLP frame at the head of the stream is consumed whole, acknowledged with its
      own sequence number, and handed to `React`. */
  lemma ReceiveTlp(c: Client, rsvd: nat, seqno: nat, tlp: seq<byte>, rest: seq<byte>)
    requires rsvd < 16 && WellFormed(tlp) && 7 + |tlp| <= CLIENT_BUFFER_SIZE
    ensures Receive(c, TlpFrame(rsvd, seqno, tlp) + rest)
      == Reception(React(c, tlp).0, 7 + |tlp|, AckFrame(DLLP_ACK, seqno % 4096), React(c, tlp).1)
  {
    ParseTlpFrame(rsvd, seqno, tlp, rest);
    DlTlpFields(rsvd, seqno, tlp);
    hide React, Parse, WellFormed, AckFrame, TlpFrame, DlTlp, LcrcValid, SeqOf;
  }

  lemma ReceiveAck(c: Client, dltype: byte, seqno: nat, rest: seq<byte>)
    requires dltype == DLLP_ACK || dltype == DLLP_NAK
    ensures Receive(c, AckFrame(dltype, seqno) + rest) == Reception(c, 7, [], AckLogged(seqno % 4096))
  {
    ParseAckFrame(dltype, seqno, rest);
    Dllp6Fields(dltype, seqno);
    hide Parse, AckFrame, Dllp6, Crc16Valid, SeqOf;
  }

  /** A TLP whose LCRC does not match causes a NAK with its sequence number and nothing else. */
  lemma ReceiveCorrupt(c: Client, d: seq<byte>, rest: seq<byte>)
    requires IsDlTlp(d) && 1 + |d| <= CLIENT_BUFFER_SIZE && !LcrcValid(d)
    ensures Receive(c, [PROTO_TLP] + d + rest) == Reception(c, 1 + |d|, AckFrame(DLLP_NAK, SeqOf(d)), Nothing)
  {
    var input := [PROTO_TLP] + d + rest;
    assert input[3..7] == d[2..][..4];
    TotalLengthPrefix(input[3..7], d[2..]);
    assert input[1..1 + |d|] == d;
    hide AckFrame, LcrcValid, SeqOf, IsDlTlp;
  }

  // ---------------------------------------------------------------- the library's own packets

  /** A TLP with this address and length fits the 4117-byte receive buffer. */
  predicate FitsBuffer(addr: nat, length: nat) {
    addr - addr % 4 >= U32 ==> Dwords(addr % 4, length) < 1024
  }

  lemma ReactRead(c: Client, space: Space, tag: byte, addr: nat, length: nat)
    requires Carried(addr, length)
    ensures var p := ReadTlp(ReadKind(space), tag, addr, length);
      var a := Intended(c.regs, space, addr, length, c.regs.barReadCb, c.regs.cfg0ReadCb);
      WellFormed(p) && React(c, p) == (c, if a.None? then Nothing else Serve(p, a.value))
  {
    ReadDelivered(c.regs, space, tag, addr, length);
    hide ReadTlp, ReadAccess, Intended, WellFormed;
  }

  lemma ReactWrite(c: Client, space: Space, garbage: seq<byte>, addr: nat, data: seq<byte>)
    requires Carried(addr, |data|) && Garbage(garbage, addr, |data|)
    ensures var p := WriteTlp(WriteKind(space), garbage, addr, data);
      var a := Intended(c.regs, space, addr, |data|, c.regs.barWriteCb, c.regs.cfg0WriteCb);
      WellFormed(p) && React(c, p) == (c, if a.None? then Nothing else Store(a.value, data))
  {
    WriteDelivered(c.regs, space, garbage, addr, data);
    hide WriteTlp, WriteAccess, Intended, WellFormed;
  }

  lemma WriteTlpSize(kind: byte, garbage: seq<byte>, addr: nat, data: seq<byte>)
    requires Carried(addr, |data|) && Garbage(garbage, addr, |data|) && 2 <= Fmt([kind]) < 4
    ensures var p := WriteTlp(kind, garbage, addr, data);
      |p| == 8 + AddrWidth(addr) + 4 * Dwords(addr % 4, |data|)
  {
    hide WriteTlp, TlpDataLengthBytes, TlpGetAddr, FirstBeOffset, Dwords;
    WriteTlpFields(kind, garbage, addr, data);
    DataTlpSize(kind, AddrWidth(addr) == 8, WriteTlp(kind, garbage, addr, data));
  }

  lemma DataTlpSize(kind: byte, wide: bool, p: seq<byte>)
    requires 2 <= Fmt([kind]) < 4 && WellFormed(p) && p[0] == KindByte(kind, wide)
    ensures |p| == (if wide then 16 else 12) + 4 * TlpDataLength(p)
  {
  }
}
