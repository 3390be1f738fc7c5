/**
 The memory device of memory-mock/main.c: BAR memories behind read and write callbacks, and a
 configuration space whose BAR registers answer the sizing handshake and register BARs in the
 device's client.
 */
module MemoryMock {
  import opened Bits
  import opened Crc
  import opened Frames
  import opened Endpoint

  /** struct bar_config; an absent callback is NULL. */
  datatype BarConfig = BarConfig(config: nat, size: nat, hasRead: bool, hasWrite: bool)

  const CONFIG_CB := 6
  const BAR_OFFSET := 0x10

  /** `wild` is whatever an access the C program leaves undefined produces. */
  datatype MockState = MockState(bars: seq<BarConfig>, cfg: seq<byte>, mem: seq<seq<byte>>, wild: seq<byte>)
  {
    predicate Valid() {
      && |bars| == |mem| == 6 && |cfg| == 64
      && (forall i :: 0 <= i < 6 ==> bars[i].size < U32 && bars[i].config < 256 && |mem[i]| == bars[i].size)
    }
  }

  type Mock = m: MockState | m.Valid()
    witness MockState(seq(6, _ => BarConfig(0, 0, false, false)), seq(64, _ => 0), seq(6, _ => []), [])

  // ---------------------------------------------------------------- BAR memory

  /** The room left behind an address is computed in 32 bits and stored in an int. */
  const INT_LIMIT := 0x8000_0000

  function ToInt(x: nat): int
    requires x < U32
  {
    if x < INT_LIMIT then x else x - U32
  }

  /** Bytes the C program leaves undefined: whatever `wild` holds. */
  function Undefined(wild: seq<byte>, n: nat): (r: seq<byte>)
    ensures |r| == n
  {
    seq(n, i requires 0 <= i => if i < |wild| then wild[i] else 0)
  }

  /** The room left does not wrap to a negative length. */
  predicate Tame(size: nat, addr: nat) {
    addr <= size ==> size - addr < INT_LIMIT
  }

  /** `read_bar`: an error past the end, otherwise the bytes copied, truncated at the end of the
      memory; the rest of the zeroed completion buffer stays zero.  A negative length is undefined. */
  function ReadBar(mem: seq<byte>, wild: seq<byte>, addr: nat, length: nat): (r: ReadResult)
    requires |mem| < U32
    ensures r.ReadData? <==> addr <= |mem|
    ensures r.ReadData? ==> |r.data| == length
    ensures r.ReadData? && Tame(|mem|, addr) ==>
      forall k :: 0 <= k < length ==> r.data[k] == if addr + k < |mem| then mem[addr + k] else 0
  {
    if addr > |mem| then ReadError
    else
      var room := ToInt(|mem| - addr);
      if length <= room then ReadData(mem[addr..addr + length])
      else if room < 0 then ReadData(Undefined(wild, length))
      else ReadData(mem[addr..] + Zeros(length - room))
  }

  /** `write_bar`: nothing past the end, truncated at the end; a negative length is undefined. */
  function WriteBar(mem: seq<byte>, wild: seq<byte>, addr: nat, data: seq<byte>): (r: seq<byte>)
    requires |mem| < U32
    ensures |r| == |mem|
    ensures Tame(|mem|, addr) ==>
      forall k :: 0 <= k < |mem| ==> r[k] == if addr <= k < addr + |data| then data[k - addr] else mem[k]
  {
    if addr > |mem| then mem
    else
      var room := ToInt(|mem| - addr);
      if |data| <= room then Overlay(mem, addr, data)
      else if room < 0 then Undefined(wild, |mem|)
      else Overlay(mem, addr, data[..room])
  }

  /** The room left behind an address wraps to a negative length exactly from 2 GiB on. */
  lemma RoomNegativeIff(size: nat, addr: nat)
    requires addr <= size < U32
    ensures ToInt(size - addr) < 0 <==> size - addr >= INT_LIMIT
    ensures ToInt(size - addr) < 0 <==> !Tame(size, addr)
  {
  }

  /** Among the sizes `verify_args` accepts, that fails at one address only: offset 0 of a 2 GiB BAR. */
  lemma UndefinedAt(size: nat, addr: nat)
    requires IsPow2(size) && addr <= size < U32
    ensures !Tame(size, addr) <==> size == INT_LIMIT && addr == 0
  {
    var k: nat :| size == Pow2(k);
    Pow2Is32();
    assert Pow2(32) == 2 * Pow2(31);
    Pow2Order(k, 31);
    Pow2Order(32, k);
  }

  // ---------------------------------------------------------------- configuration space

  /** `config0_read_cb`: aligned words only; behind the 64-byte header the bytes are undefined. */
  function Config0Read(m: Mock, addr: nat, length: nat): (r: ReadResult)
    ensures r.ReadData? ==> |r.data| == length
  {
    if addr % 4 != 0 || length != 4 then ReadError
    else if addr + 4 > 64 then ReadData(Undefined(m.wild, 4))
    else ReadData(m.cfg[addr..addr + 4])
  }

  /** `handle_config_bar_write`: keep the address bits the size leaves, and register the BAR at the
      first write that is not the sizing pattern. */
  function ConfigBarWrite(m: Mock, r: Regs, idx: nat, value: nat): (res: (Mock, Regs))
    requires idx < 6 && value < U32
    ensures res.0.mem == m.mem && res.0.bars == m.bars
  {
    var b := m.bars[idx];
    var addr := And(value, Not32(SizeMask(b.size)));
    AndBound(value, Not32(SizeMask(b.size)));
    var m' := m.(cfg := Overlay(m.cfg, BAR_OFFSET + 4 * idx, Trailer(Or(addr, b.config), 4)));
    if value != 0xffff_ffff && r.bar[idx] == 0 then
      var read, write := if b.hasRead then Some(idx) else None, if b.hasWrite then Some(idx) else None;
      (m', RegisterBar(r, addr, b.size, idx, read, write).1)
    else (m', r)
  }

  function Config0Write(m: Mock, r: Regs, addr: nat, data: seq<byte>): (res: (Mock, Regs))
    ensures res.0.mem == m.mem && res.0.bars == m.bars
  {
    if addr % 4 != 0 || |data| != 4 then (m, r)
    else if BAR_OFFSET <= addr < BAR_OFFSET + 24 then
      WordBound(data);
      Pow2Is32();
      ConfigBarWrite(m, r, (addr - BAR_OFFSET) / 4, Word(data))
    else (m, r)
  }

  /** Only aligned word writes to the six BAR registers have an effect; the sizing pattern registers
      nothing, and a registered BAR is never moved. */
  lemma ConfigWriteEffects(m: Mock, r: Regs, addr: nat, data: seq<byte>)
    ensures addr !in {0x10, 0x14, 0x18, 0x1c, 0x20, 0x24} || |data| != 4 ==> Config0Write(m, r, addr, data) == (m, r)
    ensures data == [0xff, 0xff, 0xff, 0xff] ==> Config0Write(m, r, addr, data).1 == r
    ensures forall i :: 0 <= i < 6 && r.bar[i] != 0 ==>
      Config0Write(m, r, addr, data).1.bar[i] == r.bar[i] && Config0Write(m, r, addr, data).1.barSize[i] == r.barSize[i]
  {
    hide ConfigBarWrite, Word;
    if data == [0xff, 0xff, 0xff, 0xff] { AllOnes(data); }
    if addr % 4 == 0 && |data| == 4 && BAR_OFFSET <= addr < BAR_OFFSET + 24 {
      WordBound(data);
      Pow2Is32();
      BarWriteEffects(m, r, (addr - BAR_OFFSET) / 4, Word(data));
    }
  }

  lemma BarWriteEffects(m: Mock, r: Regs, idx: nat, value: nat)
    requires idx < 6 && value < U32
    ensures value == 0xffff_ffff ==> ConfigBarWrite(m, r, idx, value).1 == r
    ensures forall i :: 0 <= i < 6 && r.bar[i] != 0 ==>
      var r' := ConfigBarWrite(m, r, idx, value).1;
      r'.bar[i] == r.bar[i] && r'.barSize[i] == r.barSize[i]
  {
    hide And, Or, Trailer, Not32;
  }

  lemma AllOnes(data: seq<byte>)
    requires data == [0xff, 0xff, 0xff, 0xff]
    ensures Word(data) == 0xffff_ffff
  {
    assert Word(data[1..][1..]) == 0xff + 256 * Word(data[1..][1..][1..]);
    assert Word(data[1..][1..][1..]) == 0xff + 256 * Word(data[1..][1..][1..][1..]);
  }

  // ---------------------------------------------------------------- the callbacks

  function MockRead(m: Mock, cb: nat, addr: nat, length: nat): (r: ReadResult)
    ensures r.ReadData? ==> |r.data| == length
  {
    if cb < 6 then ReadBar(m.mem[cb], m.wild, addr, length) else Config0Read(m, addr, length)
  }

  function MockWrite(m: Mock, r: Regs, cb: nat, addr: nat, data: seq<byte>): (Mock, Regs) {
    if cb < 6 then (m.(mem := m.mem[cb := WriteBar(m.mem[cb], m.wild, addr, data)]), r)
    else Config0Write(m, r, addr, data)
  }

  // ---------------------------------------------------------------- the device used locally

  /** What the device answers to a read, as if its caller sat on the device: `None` when no
      callback is registered for the address or the callback fails. */
  function LocalRead(r: Regs, m: Mock, space: Space, addr: nat, length: nat): (d: Option<seq<byte>>)
    ensures d.Some? ==> |d.value| == length
  {
    match Intended(r, space, addr, length, r.barReadCb, r.cfg0ReadCb)
    case None => None
    case Some(a) =>
      match MockRead(m, a.cb, a.addr, length)
      case ReadError => None
      case ReadData(data) => Some(data)
  }

  function LocalWrite(r: Regs, m: Mock, space: Space, addr: nat, data: seq<byte>): (res: (Mock, Regs)) {
    match Intended(r, space, addr, |data|, r.barWriteCb, r.cfg0WriteCb)
    case None => (m, r)
    case Some(a) => MockWrite(m, r, a.cb, a.addr, data)
  }

  /** A word of the configuration space, read through its callback. */
  lemma ConfigRead(r: Regs, m: Mock, addr: nat)
    requires r.cfg0ReadCb == Some(CONFIG_CB) && addr % 4 == 0 && addr + 4 <= 64
    ensures LocalRead(r, m, Config, addr, 4) == Some(m.cfg[addr..addr + 4])
  {
  }
}
