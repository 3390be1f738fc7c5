/**
 BAR enumeration (zephyr-samples/common/common.c) of the memory device over the link: the sizing
 handshake and the address assignment, under every schedule of the two endpoints.
 */
module Enumerate {
  import opened Bits
  import opened Crc
  import opened Proto
  import opened Frames
  import opened Endpoint
  import opened MemoryMock
  import opened System
  import opened Refinement
  import opened Slots
  import opened Theorems
  import opened BarDecode
  import opened PlainMemory

  // ---------------------------------------------------------------- sizing arithmetic

  /** The address the host gives BAR i: its register's offset times 2^16. */
  function Base(i: nat): nat {
    (BAR_OFFSET + 4 * i) * 0x10000
  }

  /** What a BAR register holds after all ones were written to it. */
  function Probed(b: BarConfig): nat
    requires b.size < U32
  {
    Or(And(0xffff_ffff, Not32(SizeMask(b.size))), b.config)
  }

  /** The size the host computes from that: clear the four configuration bits and negate. */
  function SizeFrom(bar: nat): (size: nat)
    ensures size < U32
  {
    AndBound(bar, Not32(15));
    Neg32(And(bar, Not32(15)))
  }

  lemma {:induction false} OrSplit(h: nat, l: nat, m: nat, k: nat)
    requires Pow2(k) > 0 && l < Pow2(k) && m < Pow2(k) && h % Pow2(k) == 0
    ensures Or(h + l, m) == h + Or(l, m) && Or(l, m) < Pow2(k)
  {
    if k == 0 {
      OrZero(h);
    } else {
      Pow2Positive(k - 1);
      var p := Pow2(k - 1);
      assert Pow2(k) == 2 * p;
      HalveMod(h, p);
      hide Pow2, Or;
      OrSplit(h / 2, l / 2, m / 2, k - 1);
      HalfSum(h, l);
      OrStep(h + l, m);
      OrStep(l, m);
    }
  }

  lemma HalfSum(h: nat, l: nat)
    requires h % 2 == 0
    ensures (h + l) / 2 == h / 2 + l / 2 && (h + l) % 2 == l % 2
  {
  }

  lemma OrZero(x: nat)
    ensures Or(x, 0) == x
  {
  }

  lemma OrStep(x: nat, y: nat)
    ensures Or(x, y) == 2 * Or(x / 2, y / 2) + (if x % 2 == 1 || y % 2 == 1 then 1 else 0)
  {
    if x == 0 { ZeroOr(y / 2); } else if y == 0 { OrZero(x / 2); }
  }

  lemma ZeroOr(x: nat)
    ensures Or(0, x) == x
  {
  }

  /** All ones masked by a power-of-two size. */
  lemma OnesMasked(size: nat)
    requires IsPow2(size) && 0 < size < U32
    ensures And(0xffff_ffff, Not32(SizeMask(size))) == U32 - size
    ensures U32 % size == 0
  {
    hide And, Not32;
    var k: nat :| size == Pow2(k);
    Pow2Is32();
    Pow2Order(k, 32);
    var c := U32 / size;
    assert U32 == size * c;
    ModUnique(U32 - 1, size, c - 1, size - 1);
    MaskMeaning(0xffff_ffff, size);
  }

  lemma AtLeast16(size: nat)
    requires IsPow2(size) && 16 <= size < U32
    ensures (U32 - size) % 16 == 0
  {
    var k: nat :| size == Pow2(k);
    assert Pow2(4) == 16;
    Pow2Order(4, k);
  }

  /** The host reads the device's size back exactly when it is at least 16; smaller sizes read as 16,
      because the four configuration bits hide them. */
  lemma SizingLaw(b: BarConfig)
    requires IsPow2(b.size) && 0 < b.size < U32 && b.config < 16
    ensures 0 < Probed(b) < U32
    ensures SizeFrom(Probed(b)) == if b.size < 16 then 16 else b.size
  {
    hide And, Or, Not32, IsPow2;
    var g := if b.size < 16 then 16 else b.size;
    Sixteen();
    AtLeast16(g);
    OnesMasked(b.size);
    OrSplit(U32 - g, g - b.size, b.config, 4);
    LowCleared(U32 - g, Or(g - b.size, b.config));
  }

  lemma Sixteen()
    ensures Pow2(4) == 16 && IsPow2(16)
  {
    assert Pow2(4) == 16;
  }

  /** Clearing the low four bits. */
  lemma LowCleared(h: nat, low: nat)
    requires h % 16 == 0 && low < 16 && h + low < U32
    ensures And(h + low, Not32(15)) == h
  {
    hide And, Not32, IsPow2;
    Sixteen();
    ModUnique(h + low, 16, h / 16, low);
    MaskMeaning(h + low, 16);
  }

  /** An inactive BAR reads back as its configuration bits: size 0. */
  lemma InactiveProbe(b: BarConfig)
    requires b.size == 0 && b.config < 16
    ensures Probed(b) == b.config && SizeFrom(b.config) == 0
  {
    hide And, Or;
    AndZero(0xffff_ffff);
    ZeroOr(b.config);
    LowCleared(0, b.config);
  }

  /** The part of an address above a BAR's size. */
  function Kept(base: nat, size: nat): (k: nat)
    requires size > 0
    ensures k <= base
  {
    base - base % size
  }

  lemma KeptAddress(base: nat, size: nat)
    requires IsPow2(size) && 0 < size < U32 && base < U32
    ensures And(base, Not32(SizeMask(size))) == Kept(base, size)
  {
    hide IsPow2, And, Not32;
    MaskMeaning(base, size);
  }

  // ---------------------------------------------------------------- the BAR registers

  /** The number in BAR register i. */
  function BarWord(cfg: seq<byte>, i: nat): nat
    requires |cfg| == 64 && i < 6
  {
    Word(cfg[0x10 + 4 * i..0x14 + 4 * i])
  }

  /** The configuration spaces differ at most in BAR register i. */
  ghost predicate OnlyBar(cfg: seq<byte>, cfg': seq<byte>, i: nat) {
    |cfg| == |cfg'| == 64 && forall k :: 0 <= k < 64 && !(0x10 + 4 * i <= k < 0x14 + 4 * i) ==> cfg'[k] == cfg[k]
  }

  /** What a BAR register keeps of a value written to it: the value down to a multiple of the size, and
      the configuration bits; nothing else of the configuration space changes. */
  lemma RegisterLaw(m: Mock, r: Regs, i: nat, value: nat)
    requires i < 6 && value < U32 && Checked(m.bars)
    ensures var cfg := ConfigBarWrite(m, r, i, value).0.cfg;
      var b := m.bars[i];
      && OnlyBar(m.cfg, cfg, i)
      && (b.size == 0 ==> BarWord(cfg, i) == b.config)
      && (b.size >= 16 || (b.size > 0 && value % 16 == 0) ==> BarWord(cfg, i) == value - value % b.size + b.config)
  {
    hide And, Or, IsPow2, Trailer, Word, ConfigBarWrite;
    var b := m.bars[i];
    var stored := Or(And(value, Not32(SizeMask(b.size))), b.config);
    BarStored(m, r, i, value);
    if b.size == 0 {
      AndZero(value);
      ZeroOr(b.config);
      WordBack(b.config);
    } else if b.size >= 16 || value % 16 == 0 {
      KeptAddress(value, b.size);
      KeptLow(value, b.size);
      Sixteen();
      OrDisjoint(Kept(value, b.size), b.config, 4);
      KeptBound(value, b.size, b.config);
      WordBack(stored);
    }
  }

  lemma BarStored(m: Mock, r: Regs, i: nat, value: nat)
    requires i < 6 && value < U32
    ensures var cfg := ConfigBarWrite(m, r, i, value).0.cfg;
      && OnlyBar(m.cfg, cfg, i)
      && cfg[0x10 + 4 * i..0x14 + 4 * i]
         == Trailer(Or(And(value, Not32(SizeMask(m.bars[i].size))), m.bars[i].config), 4)
  {
    hide And, Or, Not32, Trailer;
  }

  lemma WordBack(x: nat)
    requires x < U32
    ensures Word(Trailer(x, 4)) == x
  {
    hide Word, Trailer;
    Pow2Is32();
    WordIsTrailer(Trailer(x, 4), x);
  }

  lemma KeptLow(value: nat, size: nat)
    requires IsPow2(size) && (size >= 16 || value % 16 == 0)
    ensures size > 0 && Kept(value, size) % 16 == 0
  {
    var k: nat :| size == Pow2(k);
    Pow2Positive(k);
    assert Pow2(4) == 16;
    Pow2Order(4, k);
    Pow2Order(k, 4);
    hide Pow2;
    if size >= 16 {
      KeptMultiple(value, size, size / 16);
    } else {
      Divided(value, size, 16 / size);
    }
  }

  lemma KeptMultiple(value: nat, size: nat, c: nat)
    requires size == 16 * c && c > 0
    ensures Kept(value, size) % 16 == 0
  {
    var q := value / size;
    assert value == size * q + value % size;
    assert size * q == 16 * (c * q);
    ModUnique(Kept(value, size), 16, c * q, 0);
  }

  lemma Divided(value: nat, size: nat, c: nat)
    requires size > 0 && size * c == 16 && value % 16 == 0
    ensures Kept(value, size) == value
  {
    var q := value / 16;
    assert value == 16 * q == size * (c * q);
    ModUnique(value, size, c * q, 0);
  }

  lemma KeptBound(value: nat, size: nat, config: nat)
    requires size > 0 && value < U32 && Kept(value, size) % 16 == 0 && config < 16
    ensures Kept(value, size) + config < U32
  {
  }

  /** What BAR register i holds after enumeration. */
  function Settled(b: BarConfig, i: nat): nat {
    if b.size == 0 then b.config else Kept(Base(i), b.size) + b.config
  }

  /** The first n BAR registers hold their assigned addresses; everything else is as it was. */
  ghost predicate RegistersSet(cfg0: seq<byte>, cfg: seq<byte>, bars: seq<BarConfig>, n: nat)
    requires |cfg0| == |cfg| == 64 && |bars| == 6 && n <= 6
  {
    && (forall k :: 0 <= k < 64 && !(0x10 <= k < 0x10 + 4 * n) ==> cfg[k] == cfg0[k])
    && (forall i :: 0 <= i < n ==> BarWord(cfg, i) == Settled(bars[i], i))
  }

  lemma RegistersNext(cfg0: seq<byte>, cfg: seq<byte>, cfg': seq<byte>, bars: seq<BarConfig>, i: nat)
    requires |cfg0| == |cfg| == |cfg'| == 64 && |bars| == 6 && i < 6
    requires RegistersSet(cfg0, cfg, bars, i) && OnlyBar(cfg, cfg', i) && BarWord(cfg', i) == Settled(bars[i], i)
    ensures RegistersSet(cfg0, cfg', bars, i + 1)
  {
    hide Settled, Word;
    forall j | 0 <= j < i
      ensures BarWord(cfg', j) == Settled(bars[j], j)
    {
      assert cfg'[0x10 + 4 * j..0x14 + 4 * j] == cfg[0x10 + 4 * j..0x14 + 4 * j];
    }
  }

  lemma OnlyBarTwice(x: seq<byte>, y: seq<byte>, z: seq<byte>, i: nat)
    requires OnlyBar(x, y, i) && OnlyBar(y, z, i)
    ensures OnlyBar(x, z, i)
  {
  }

  /** The address assigned to a BAR ends in zeros, so its register is exact whatever its size. */
  lemma BaseLow(i: nat)
    ensures Base(i) % 16 == 0 && Base(i) == 0x10_0000 + 0x4_0000 * i
  {
  }

  // ---------------------------------------------------------------- what enumeration leaves

  /** `verify_args`: every BAR size is zero or a power of two; configuration bits fit the mask. */
  ghost predicate Checked(bars: seq<BarConfig>) {
    |bars| == 6 && forall i :: 0 <= i < 6 ==> bars[i].config < 16 && (bars[i].size == 0 || IsPow2(bars[i].size))
  }

  function CallbackOf(has: bool, i: nat): Callback {
    if has then Some(i) else None
  }

  /** BAR i of host and device after enumeration. */
  ghost predicate AssignedBar(host: Regs, dev: Regs, b: BarConfig, i: nat)
    requires i < 6
  {
    if b.size == 0 then BlankBar(host, i) && BlankBar(dev, i)
    else
      && host.bar[i] == Base(i) && host.barSize[i] == (if b.size < 16 then 16 else b.size)
      && dev.bar[i] == Kept(Base(i), b.size) && dev.barSize[i] == b.size
      && dev.barReadCb[i] == CallbackOf(b.hasRead, i) && dev.barWriteCb[i] == CallbackOf(b.hasWrite, i)
  }

  predicate BlankBar(r: Regs, i: nat)
    requires i < 6
  {
    r.bar[i] == 0 && r.barSize[i] == 0
  }

  /** The first n BARs are done, the others untouched. */
  ghost predicate Assigned(host: Regs, dev: Regs, bars: seq<BarConfig>, n: nat)
    requires |bars| == 6 && n <= 6
  {
    && (forall i :: 0 <= i < n ==> AssignedBar(host, dev, bars[i], i))
    && (forall i :: n <= i < 6 ==> BlankBar(host, i) && BlankBar(dev, i))
  }

  predicate ConfigOn(r: Regs) {
    r.cfg0ReadCb == Some(CONFIG_CB) && r.cfg0WriteCb == Some(CONFIG_CB)
  }

  // ---------------------------------------------------------------- waiting

  predicate NoSlots(c: Client) {
    forall t :: 0 <= t < 32 ==> c.completionCb[t] == None
  }

  predicate OneSlot(c: Client, tag: nat) {
    forall t :: 0 <= t < 32 && t != tag ==> c.completionCb[t] == None
  }

  /** Every read so far was answered and delivered. */
  ghost predicate Idle(s: Sys, sp: Spec) {
    Good(s, sp) && s.log == sp.answers && NoSlots(s.host)
  }

  lemma SlotFreed(c: Client, c': Client, tag: nat, id: nat)
    requires OneSlot(c, tag) && Freed(c, c', id)
    ensures NoSlots(c')
  {
  }

  lemma Stuck(s: Sys, sp: Spec)
    requires Good(s, sp) && |s.log| < |sp.answers|
    ensures !Quiet(s)
  {
    GoodRefines(s, sp);
  }

  lemma GoodHasBound(s: Sys, sp: Spec) returns (n: nat)
    requires Good(s, sp)
    ensures GoodWithin(s, sp, n)
  {
    hide Inv;
    var a, b :| Inv(s, sp, a, b);
    n := Weight(a, b);
  }

  lemma WithinIsGood(s: Sys, sp: Spec, n: nat)
    requires GoodWithin(s, sp, n)
    ensures Good(s, sp) && s.log <= sp.answers
  {
    hide Inv;
    var a, b :| Inv(s, sp, a, b) && Weight(a, b) <= n;
    GoodRefines(s, sp);
  }

  /** `wait_for_completion`: either endpoint may receive next, until the callback was made. */
  method WaitForCompletion(s0: Sys, ghost sp: Spec, ghost tag: nat) returns (s: Sys)
    requires Good(s0, sp) && |sp.answers| == |s0.log| + 1 && OneSlot(s0.host, tag)
    ensures Idle(s, sp) && s.host.regs == s0.host.regs
  {
    hide Good, GoodWithin, Next, Freed;
    s := s0;
    ghost var n := GoodHasBound(s, sp);
    while |s.log| == |s0.log|
      invariant GoodWithin(s, sp, n) && s.host.regs == s0.host.regs
      invariant if |s.log| == |s0.log| then OneSlot(s.host, tag) else |s.log| == |s0.log| + 1 && NoSlots(s.host)
      decreases n
    {
      WithinIsGood(s, sp, n);
      Stuck(s, sp);
      var step;
      if {
        case s.toDev != [] => step := DevReceive;
        case s.toHost != [] => step := HostReceive;
      }
      ReceptionSlots(s, step);
      ReceptionWorks(s, sp, step, n);
      if |Next(s, step).log| != |s.log| { SlotFreed(s.host, Next(s, step).host, tag, Next(s, step).log[|s.log|].0); }
      s, n := Next(s, step), n - 1;
    }
    WithinIsGood(s, sp, n);
  }

  /** The device receives any number of frames while the host does something else. */
  method DeviceRuns(s0: Sys, ghost sp: Spec) returns (s: Sys)
    requires Idle(s0, sp)
    ensures Idle(s, sp) && s.host == s0.host
  {
    hide Good, GoodWithin, Next, NoSlots;
    s := s0;
    ghost var n := GoodHasBound(s, sp);
    var more: bool := *;
    while more && s.toDev != []
      invariant GoodWithin(s, sp, n) && s.host == s0.host && s.log == s0.log
      decreases n
    {
      ReceptionSlots(s, DevReceive);
      ReceptionWorks(s, sp, DevReceive, n);
      s, n := Next(s, DevReceive), n - 1;
      more := *;
    }
    WithinIsGood(s, sp, n);
  }

  // ---------------------------------------------------------------- configuration accesses

  lemma ConfigWrite(r: Regs, m: Mock, i: nat, value: nat)
    requires ConfigOn(r) && i < 6 && value < U32
    ensures LocalWrite(r, m, Config, BAR_OFFSET + 4 * i, Trailer(value, 4)) == ConfigBarWrite(m, r, i, value)
  {
    hide ConfigBarWrite, Trailer, Word;
    Pow2Is32();
    WordIsTrailer(Trailer(value, 4), value);
  }

  /** `read_config_header_field`: the aligned word is read over the link and the field cut out. */
  method ReadConfigHeaderField(s0: Sys, ghost sp0: Spec, addr: nat, length: nat)
    returns (ret: int, buf: seq<byte>, s: Sys, ghost sp: Spec)
    requires Idle(s0, sp0) && ConfigOn(sp0.regs) && addr < 64
    ensures addr % 4 + length > 4 ==> ret == -1 && s == s0 && sp == sp0
    ensures addr % 4 + length <= 4 ==>
      ret == 4 && addr + length <= 64 && buf == sp0.mock.cfg[addr..addr + length]
    ensures Idle(s, sp) && sp.regs == sp0.regs && sp.mock == sp0.mock && s.host.regs == s0.host.regs
  {
    hide Good, Next, LocalRead, LocalWrite;
    s, sp := s0, sp0;
    if addr % 4 + length > 4 {
      return -1, [], s, sp;
    }
    s := DeviceRuns(s, sp);
    var step := HostRead(Config, addr - addr % 4, 4);
    ConfigRead(sp.regs, sp.mock, addr - addr % 4);
    StepGood(s, sp, step);
    IssuedSlot(s, step);
    sp := SpecNext(sp, step);
    s := WaitForCompletion(Next(s, step), sp, s.host.readTag);
    var data := s.log[|s.log| - 1].1;
    assert data == sp0.mock.cfg[addr - addr % 4..addr - addr % 4 + 4];
    ret, buf := |data|, data[addr % 4..addr % 4 + length];
    FieldOfWord(sp0.mock.cfg, addr - addr % 4, addr % 4, length);
  }

  lemma FieldOfWord(cfg: seq<byte>, at: nat, off: nat, length: nat)
    requires off + length <= 4 && at + 4 <= |cfg|
    ensures cfg[at..at + 4][off..off + length] == cfg[at + off..at + off + length]
  {
    var field := cfg[at..at + 4][off..off + length];
    assert forall k :: 0 <= k < length ==> field[k] == cfg[at + off + k];
  }

  lemma IssuedSlot(s: Sys, step: Step)
    requires NoSlots(s.host) && step.HostRead? && Feasible(s, step)
    ensures var s' := Next(s, step);
      OneSlot(s'.host, s.host.readTag) && s'.log == s.log && s'.host.regs == s.host.regs
  {
    hide Next;
    IssueSlots(s, step);
  }

  /** `warppipe_config0_write` of a BAR register; the transport comes from malloc uninitialised. */
  method WriteConfigBar(s0: Sys, ghost sp0: Spec, i: nat, value: nat) returns (s: Sys, ghost sp: Spec)
    requires Idle(s0, sp0) && ConfigOn(sp0.regs) && i < 6 && value < U32
    ensures Idle(s, sp) && s.host.regs == s0.host.regs
    ensures (sp.mock, sp.regs) == ConfigBarWrite(sp0.mock, sp0.regs, i, value)
  {
    hide Good, Next, LocalRead, LocalWrite, ConfigBarWrite;
    var addr := BAR_OFFSET + 4 * i;
    var transport := new byte[TRANSPORT_SIZE + 4 * Dwords(addr % 4, 4)];
    var step := HostWrite(Config, addr, Trailer(value, 4), transport[..]);
    s := DeviceRuns(s0, sp0);
    StepGood(s, sp0, step);
    IssueSlots(s, step);
    ConfigWrite(sp0.regs, sp0.mock, i, value);
    s, sp := Next(s, step), SpecNext(sp0, step);
  }

  // ---------------------------------------------------------------- enumeration

  /** The sizing pattern changes only the register, which then reads back as `Probed`. */
  lemma Probe(m: Mock, r: Regs, i: nat)
    requires i < 6 && Checked(m.bars)
    ensures var (m', r') := ConfigBarWrite(m, r, i, 0xffff_ffff);
      && r' == r && m'.bars == m.bars && m'.mem == m.mem
      && m'.cfg[BAR_OFFSET + 4 * i..BAR_OFFSET + 4 * i + 4] == Trailer(Probed(m.bars[i]), 4)
  {
    hide Trailer, And, Or, IsPow2;
  }

  lemma ProbedWord(b: BarConfig)
    requires b.config < 16 && b.size < U32 && (b.size == 0 || IsPow2(b.size))
    ensures Word(Trailer(Probed(b), 4)) == Probed(b)
    ensures SizeFrom(Probed(b)) == if b.size == 0 then 0 else if b.size < 16 then 16 else b.size
    ensures b.size > 0 ==> Probed(b) != 0 && IsPow2(SizeFrom(Probed(b)))
  {
    hide Probed, SizeFrom, IsPow2, Trailer, Word;
    Sixteen();
    if b.size == 0 { InactiveProbe(b); } else { SizingLaw(b); }
    Pow2Is32();
    WordIsTrailer(Trailer(Probed(b), 4), Probed(b));
  }

  /** The address write registers the device's BAR at the part of the address its size keeps. */
  lemma DeviceRegisters(m: Mock, r: Regs, i: nat)
    requires i < 6 && Checked(m.bars) && m.bars[i].size > 0 && r.bar[i] == 0
    ensures var (m', r') := ConfigBarWrite(m, r, i, Base(i));
      var b := m.bars[i];
      && m'.bars == m.bars && m'.mem == m.mem
      && r' == r.(bar := r.bar[i := Kept(Base(i), b.size)], barSize := r.barSize[i := b.size],
                  barReadCb := r.barReadCb[i := CallbackOf(b.hasRead, i)],
                  barWriteCb := r.barWriteCb[i := CallbackOf(b.hasWrite, i)])
  {
    hide Trailer, And, Or, IsPow2, Not32, Kept;
    KeptAddress(Base(i), m.bars[i].size);
  }

  /** Registering a host BAR does not disturb the link. */
  lemma HostRegsFree(s: Sys, sp: Spec, regs: Regs)
    requires Idle(s, sp)
    ensures Idle(s.(host := s.host.(regs := regs)), sp)
  {
    var a, b :| Inv(s, sp, a, b);
    assert Inv(s.(host := s.host.(regs := regs)), sp, a, b);
  }

  lemma BaseBound(i: nat)
    requires i < 6
    ensures Base(i) < U32 - 1
  {
  }

  /** The tables differ at most at BAR i. */
  predicate SameBut(r: Regs, r': Regs, i: nat) {
    forall j :: 0 <= j < 6 && j != i ==>
      && r'.bar[j] == r.bar[j] && r'.barSize[j] == r.barSize[j]
      && r'.barReadCb[j] == r.barReadCb[j] && r'.barWriteCb[j] == r.barWriteCb[j]
  }

  lemma AssignedNext(host: Regs, dev: Regs, host': Regs, dev': Regs, bars: seq<BarConfig>, i: nat)
    requires |bars| == 6 && i < 6 && Assigned(host, dev, bars, i)
    requires SameBut(host, host', i) && SameBut(dev, dev', i) && AssignedBar(host', dev', bars[i], i)
    ensures Assigned(host', dev', bars, i + 1)
  {
    forall j | 0 <= j < i
      ensures AssignedBar(host', dev', bars[j], j)
    {
      assert AssignedBar(host, dev, bars[j], j);
    }
    forall j | i < j < 6
      ensures BlankBar(host', j) && BlankBar(dev', j)
    {
      assert BlankBar(host, j) && BlankBar(dev, j);
    }
  }

  /** The sizing handshake of one BAR: the host learns what the register holds after all ones. */
  method ProbeBar(s0: Sys, ghost sp0: Spec, i: nat) returns (bar: nat, s: Sys, ghost sp: Spec)
    requires Idle(s0, sp0) && ConfigOn(sp0.regs) && Checked(sp0.mock.bars) && i < 6
    ensures Idle(s, sp) && s.host.regs == s0.host.regs && sp.regs == sp0.regs
    ensures sp.mock.bars == sp0.mock.bars && sp.mock.mem == sp0.mock.mem
    ensures bar == Probed(sp0.mock.bars[i])
    ensures OnlyBar(sp0.mock.cfg, sp.mock.cfg, i)
    ensures sp0.mock.bars[i].size == 0 ==> BarWord(sp.mock.cfg, i) == sp0.mock.bars[i].config
  {
    hide Idle, ConfigBarWrite, IsPow2, Trailer, Word, SizeFrom, Probed;
    var ret, oldBar, buf;
    Probe(sp0.mock, sp0.regs, i);
    RegisterLaw(sp0.mock, sp0.regs, i, 0xffff_ffff);
    ProbedWord(sp0.mock.bars[i]);
    ret, oldBar, s, sp := ReadConfigHeaderField(s0, sp0, BAR_OFFSET + 4 * i, 4);
    s, sp := WriteConfigBar(s, sp, i, 0xffff_ffff);
    ret, buf, s, sp := ReadConfigHeaderField(s, sp, BAR_OFFSET + 4 * i, 4);
    bar := Word(buf);
  }

  /** One pass of the loop of `enumerate`. */
  method AssignBar(s0: Sys, ghost sp0: Spec, i: nat) returns (s: Sys, ghost sp: Spec)
    requires Idle(s0, sp0) && ConfigOn(sp0.regs) && Checked(sp0.mock.bars) && i < 6
    requires Assigned(s0.host.regs, sp0.regs, sp0.mock.bars, i)
    ensures Idle(s, sp) && ConfigOn(sp.regs)
    ensures sp.mock.bars == sp0.mock.bars && sp.mock.mem == sp0.mock.mem
    ensures Assigned(s.host.regs, sp.regs, sp.mock.bars, i + 1)
    ensures OnlyBar(sp0.mock.cfg, sp.mock.cfg, i) && BarWord(sp.mock.cfg, i) == Settled(sp.mock.bars[i], i)
  {
    hide Idle, ConfigBarWrite, IsPow2, SizeFrom, Probed, Base, Kept, Assigned, OnlyBar, BarWord;
    BlankAt(s0.host.regs, sp0.regs, sp0.mock.bars, i);
    BaseBound(i);
    ProbedWord(sp0.mock.bars[i]);
    var bar;
    bar, s, sp := ProbeBar(s0, sp0, i);
    if bar == 0 {
      AssignedNext(s0.host.regs, sp0.regs, s.host.regs, sp.regs, sp.mock.bars, i);
      return;
    }
    var (code, regs) := RegisterBar(s.host.regs, Base(i), SizeFrom(bar), i, None, None);
    HostRegsFree(s, sp, regs);
    s := s.(host := s.host.(regs := regs));
    if code < 0 {
      AssignedNext(s0.host.regs, sp0.regs, s.host.regs, sp.regs, sp.mock.bars, i);
      return;
    }
    DeviceRegisters(sp.mock, sp.regs, i);
    AssignedRegister(sp.mock, sp.regs, i);
    ghost var cfg := sp.mock.cfg;
    s, sp := WriteConfigBar(s, sp, i, Base(i));
    OnlyBarTwice(sp0.mock.cfg, cfg, sp.mock.cfg, i);
    AssignedNext(s0.host.regs, sp0.regs, s.host.regs, sp.regs, sp.mock.bars, i);
  }

  lemma AssignedRegister(m: Mock, r: Regs, i: nat)
    requires i < 6 && Checked(m.bars) && m.bars[i].size > 0
    ensures Base(i) < U32
    ensures var cfg := ConfigBarWrite(m, r, i, Base(i)).0.cfg;
      OnlyBar(m.cfg, cfg, i) && BarWord(cfg, i) == Settled(m.bars[i], i)
  {
    hide ConfigBarWrite, IsPow2, BarWord, OnlyBar;
    BaseLow(i);
    RegisterLaw(m, r, i, Base(i));
  }

  lemma BlankAt(host: Regs, dev: Regs, bars: seq<BarConfig>, i: nat)
    requires |bars| == 6 && i < 6 && Assigned(host, dev, bars, i)
    ensures BlankBar(host, i) && BlankBar(dev, i)
  {
  }

  /** `enumerate`: fails exactly when there is no device or its header is not type 0; otherwise every
      BAR is assigned, on the host at once and on the device once the requests under way arrive. */
  method Enumerate(s0: Sys) returns (ret: int, s: Sys, ghost sp: Spec)
    requires Init(s0) && ConfigOn(s0.dev.regs) && Checked(s0.mock.bars)
    requires forall i :: 0 <= i < 6 ==> BlankBar(s0.host.regs, i) && BlankBar(s0.dev.regs, i)
    ensures ret == if s0.mock.cfg[..2] == [0xff, 0xff] || s0.mock.cfg[0xe] != 0 then -1 else 0
    ensures Idle(s, sp) && sp.mock.bars == s0.mock.bars && sp.mock.mem == s0.mock.mem && ConfigOn(sp.regs)
    ensures Assigned(s.host.regs, sp.regs, sp.mock.bars, if ret == 0 then 6 else 0)
    ensures RegistersSet(s0.mock.cfg, sp.mock.cfg, s0.mock.bars, if ret == 0 then 6 else 0)
  {
    hide Idle, AssignedBar, IsPow2, OnlyBar, BarWord, Settled;
    sp := SpecOf(s0);
    FreshIdle(s0);
    var vendor, header;
    ret, vendor, s, sp := ReadConfigHeaderField(s0, sp, 0x0, 2);
    if vendor == [0xff, 0xff] {
      return -1, s, sp;
    }
    ret, header, s, sp := ReadConfigHeaderField(s, sp, 0xe, 1);
    if header[0] != 0 {
      return -1, s, sp;
    }
    for i := 0 to 6
      invariant Idle(s, sp) && ConfigOn(sp.regs) && sp.mock.bars == s0.mock.bars && sp.mock.mem == s0.mock.mem
      invariant Assigned(s.host.regs, sp.regs, sp.mock.bars, i)
      invariant RegistersSet(s0.mock.cfg, sp.mock.cfg, s0.mock.bars, i)
    {
      ghost var cfg := sp.mock.cfg;
      s, sp := AssignBar(s, sp, i);
      RegistersNext(s0.mock.cfg, cfg, sp.mock.cfg, s0.mock.bars, i);
    }
    ret := 0;
  }

  lemma FreshIdle(s: Sys)
    requires Init(s)
    ensures Idle(s, SpecOf(s))
  {
    hide Good;
    InitGood(s);
  }

  /** Receiving until both streams are empty. */
  method Drain(s0: Sys, ghost sp: Spec) returns (s: Sys)
    requires Good(s0, sp)
    ensures Good(s, sp) && Quiet(s) && s.log == sp.answers && s.mock == sp.mock && s.dev.regs == sp.regs
    ensures s.host.regs == s0.host.regs && (NoSlots(s0.host) ==> NoSlots(s.host))
  {
    hide Good, GoodWithin, Next;
    s := s0;
    ghost var n := GoodHasBound(s, sp);
    while !Quiet(s)
      invariant GoodWithin(s, sp, n) && s.host.regs == s0.host.regs && (NoSlots(s0.host) ==> NoSlots(s.host))
      decreases n
    {
      var step;
      if {
        case s.toDev != [] => step := DevReceive;
        case s.toHost != [] => step := HostReceive;
      }
      ReceptionSlots(s, step);
      ReceptionWorks(s, sp, step, n);
      s, n := Next(s, step), n - 1;
    }
    WithinIsGood(s, sp, n);
    GoodRefines(s, sp);
  }

  // ---------------------------------------------------------------- reading data

  /** `read_data`: the bytes of the device's memory as they are once all earlier writes arrived, under
      every schedule of the link; an unassigned BAR is refused. */
  method ReadBytes(s0: Sys, ghost sp0: Spec, ghost n: nat, i: nat, off: nat, length: nat)
    returns (ret: int, buf: seq<byte>, s: Sys, ghost sp: Spec)
    requires Idle(s0, sp0) && Ready(sp0.regs, sp0.mock.mem, n) && i < n
    requires sp0.regs.barReadCb[i] == Some(i) && s0.host.regs.bar[i] == sp0.regs.bar[i]
    requires 1 <= length < 4096 && off % 4 + length <= 4096
    requires off + length <= |sp0.mock.mem[i]| && Tame(|sp0.mock.mem[i]|, off)
    ensures s0.host.regs.bar[i] == 0 ==> ret == -1 && s == s0 && sp == sp0
    ensures s0.host.regs.bar[i] != 0 ==> ret == length && buf == sp0.mock.mem[i][off..off + length]
    ensures Idle(s, sp) && sp.regs == sp0.regs && sp.mock == sp0.mock && s.host.regs == s0.host.regs
  {
    hide Good, Next, LocalRead, LocalWrite, Laid;
    s, sp := s0, sp0;
    if s.host.regs.bar[i] == 0 {
      return -1, [], s, sp;
    }
    s := DeviceRuns(s, sp);
    var step := HostRead(Memory, s.host.regs.bar[i] + off, length);
    LocalReadIsSlice(sp.regs, sp.mock, n, i, off, length);
    DataCarried(sp.regs, n, i, off, length);
    StepGood(s, sp, step);
    IssuedSlot(s, step);
    sp := SpecNext(sp, step);
    assert Counted(sp.mock.mem[i][off..off + length]) == sp.mock.mem[i][off..off + length];
    s := WaitForCompletion(Next(s, step), sp, s.host.readTag);
    buf := s.log[|s.log| - 1].1;
    ret := |buf|;
  }

  lemma DataCarried(r: Regs, n: nat, i: nat, off: nat, length: nat)
    requires Laid(r, n) && i < n && 1 <= length && off % 4 + length <= 4096 && off + length <= r.barSize[i]
    ensures Carried(r.bar[i] + off, length)
  {
    hide IsPow2;
    assert Placed(r.bar[i], r.barSize[i]);
    Pow2AtLeast4(r.barSize[i]);
    MultipleOf4(r.bar[i], r.barSize[i]);
    Align4(r.bar[i], off);
  }

  // ---------------------------------------------------------------- agreement

  /** Host and device agree on every BAR exactly when each active size is at least 16 and divides the
      address the host assigns. */
  lemma AgreementExact(host: Regs, dev: Regs, bars: seq<BarConfig>)
    requires Checked(bars) && (forall i :: 0 <= i < 6 ==> bars[i].size < U32) && Assigned(host, dev, bars, 6)
    ensures host.bar == dev.bar && host.barSize == dev.barSize
      <==> forall i :: 0 <= i < 6 && bars[i].size > 0 ==> bars[i].size >= 16 && Base(i) % bars[i].size == 0
  {
    hide IsPow2;
    forall i | 0 <= i < 6
      ensures host.bar[i] == dev.bar[i] && host.barSize[i] == dev.barSize[i]
        <==> (bars[i].size > 0 ==> bars[i].size >= 16 && Base(i) % bars[i].size == 0)
    {
      assert AssignedBar(host, dev, bars[i], i);
    }
  }

  /** The first n BARs are active, of 16 bytes to 256 KiB; the others are inactive. */
  ghost predicate Prefix(bars: seq<BarConfig>, n: nat) {
    && Checked(bars) && n <= 6
    && (forall i :: 0 <= i < n ==> 16 <= bars[i].size <= 0x40000)
    && (forall i :: n <= i < 6 ==> bars[i].size == 0)
  }

  lemma BaseAligned(i: nat, size: nat)
    requires IsPow2(size) && 0 < size <= 0x40000
    ensures Base(i) % size == 0
  {
    hide Pow2, Base;
    var k: nat :| size == Pow2(k);
    Pow2Is18();
    Pow2Order(k, 18);
    BaseMultiple(i, size, 0x40000 / size);
  }

  lemma Pow2Is18()
    ensures Pow2(18) == 0x40000
  {
    assert Pow2(9) == 512;
    Pow2Adds(9, 9);
  }

  lemma BaseMultiple(i: nat, size: nat, c: nat)
    requires size > 0 && size * c == 0x40000
    ensures Base(i) % size == 0
  {
    assert Base(i) == size * c * (i + 4) == size * (c * (i + 4));
    ModUnique(Base(i), size, c * (i + 4), 0);
  }

  /** For such devices both sides agree, the windows are aligned and disjoint, and each BAR stands for
      the device's own memory. */
  lemma PrefixAgrees(host: Regs, dev: Regs, m: Mock, n: nat)
    requires Prefix(m.bars, n) && Assigned(host, dev, m.bars, 6)
    ensures host.bar == dev.bar && host.barSize == dev.barSize && Ready(dev, m.mem, n)
  {
    hide IsPow2, Base, AssignedBar, Placed;
    forall i | 0 <= i < 6
      ensures m.bars[i].size > 0 ==> m.bars[i].size >= 16 && Base(i) % m.bars[i].size == 0
    {
      if i < n { AssignedPlaced(host, dev, m.bars[i], i); }
    }
    AgreementExact(host, dev, m.bars);
    PrefixLaid(host, dev, m.bars, n);
    forall i | 0 <= i < n
      ensures |m.mem[i]| == dev.barSize[i]
      ensures dev.barReadCb[i] in {None, Some(i)} && dev.barWriteCb[i] in {None, Some(i)}
    {
      AssignedPlaced(host, dev, m.bars[i], i);
    }
  }

  lemma PrefixLaid(host: Regs, dev: Regs, bars: seq<BarConfig>, n: nat)
    requires Prefix(bars, n) && Assigned(host, dev, bars, 6)
    ensures Laid(dev, n)
  {
    hide IsPow2, Base, AssignedBar, Placed;
    forall i | 0 <= i < n
      ensures Placed(dev.bar[i], dev.barSize[i])
    {
      AssignedPlaced(host, dev, bars[i], i);
    }
    forall i | n <= i < 6
      ensures dev.bar[i] == 0 && dev.barSize[i] == 0
    {
      InactiveBlank(host, dev, bars[i], i);
    }
    forall i, j | 0 <= i < j < n
      ensures Apart(dev, i, j)
    {
      AssignedPlaced(host, dev, bars[i], i);
      AssignedPlaced(host, dev, bars[j], j);
      BasesApart(i, j);
    }
  }

  lemma InactiveBlank(host: Regs, dev: Regs, b: BarConfig, i: nat)
    requires i < 6 && AssignedBar(host, dev, b, i) && b.size == 0
    ensures BlankBar(dev, i)
  {
  }

  lemma BasesApart(i: nat, j: nat)
    requires i < j
    ensures Base(i) + 0x40000 <= Base(j)
  {
  }

  predicate Owned(r: Regs, i: nat)
    requires i < 6
  {
    r.barReadCb[i] in {None, Some(i)} && r.barWriteCb[i] in {None, Some(i)}
  }

  lemma AssignedPlaced(host: Regs, dev: Regs, b: BarConfig, i: nat)
    requires i < 6 && AssignedBar(host, dev, b, i) && IsPow2(b.size) && 16 <= b.size <= 0x40000
    ensures Base(i) % b.size == 0 && dev.bar[i] == Base(i) && dev.barSize[i] == b.size
    ensures Placed(dev.bar[i], dev.barSize[i]) && Owned(dev, i)
  {
    hide IsPow2;
    BaseAligned(i, b.size);
  }

  /** After enumeration, in every interleaving of accesses inside the assigned BARs, the remote device
      is plain memory. */
  lemma EnumeratedMemoryIsPlain(states: seq<Sys>, steps: seq<Step>, sp: Spec, n: nat, k: nat)
    requires Interleaving(states, steps) && Idle(states[0], sp) && k <= |steps|
    requires Prefix(sp.mock.bars, n) && Assigned(states[0].host.regs, sp.regs, sp.mock.bars, 6)
    requires AllInBar(sp.regs, n, steps)
    ensures states[0].host.regs.bar == sp.regs.bar && states[0].host.regs.barSize == sp.regs.barSize
    ensures Ready(sp.regs, sp.mock.mem, n)
    ensures var plain := PlainAfter(Plain(sp.mock.mem, sp.issued, sp.answers), sp.regs, n, steps[..k]);
      && states[k].log <= plain.answers
      && (Quiet(states[k]) ==> states[k].log == plain.answers && states[k].mock.mem == plain.mem)
  {
    hide Ready, Assigned, Good, InBar, Next;
    PrefixAgrees(states[0].host.regs, sp.regs, sp.mock, n);
    RemoteMemoryIsPlain(states, steps, sp, n, k);
  }

  /** Enumerate, then let everything arrive: host and device have the BAR tables that the sizes
      determine, and the device's registers hold the assigned addresses while the rest of its configuration
      space is as before; for active BARs first, of 16 bytes to 256 KiB, the tables are equal, aligned and
      disjoint, and each BAR stands for the device's own memory. */
  method EnumerateAndDrain(s0: Sys, ghost n: nat) returns (ret: int, s: Sys, ghost sp: Spec)
    requires Init(s0) && ConfigOn(s0.dev.regs) && Checked(s0.mock.bars)
    requires forall i :: 0 <= i < 6 ==> BlankBar(s0.host.regs, i) && BlankBar(s0.dev.regs, i)
    ensures ret == if s0.mock.cfg[..2] == [0xff, 0xff] || s0.mock.cfg[0xe] != 0 then -1 else 0
    ensures Quiet(s) && s.mock.bars == s0.mock.bars && s.mock.mem == s0.mock.mem
    ensures Idle(s, sp) && sp.mock == s.mock && sp.regs == s.dev.regs && ConfigOn(s.dev.regs)
    ensures Assigned(s.host.regs, s.dev.regs, s0.mock.bars, if ret == 0 then 6 else 0)
    ensures RegistersSet(s0.mock.cfg, s.mock.cfg, s0.mock.bars, if ret == 0 then 6 else 0)
    ensures ret == 0 && Prefix(s0.mock.bars, n) ==>
      s.host.regs.bar == s.dev.regs.bar && s.host.regs.barSize == s.dev.regs.barSize && Ready(s.dev.regs, s.mock.mem, n)
  {
    hide Good, Assigned, Prefix, Ready, Init, Checked, NoSlots, RegistersSet;
    ret, s, sp := Enumerate(s0);
    s := Drain(s, sp);
    if ret == 0 {
      if Prefix(s0.mock.bars, n) { PrefixAgrees(s.host.regs, s.dev.regs, s.mock, n); }
    }
  }

  /** What a host that reads the configuration space after a successful enumeration finds: the assigned
      address and the configuration bits in each BAR register, and the vendor it found before. */
  method ReadBack(s0: Sys, i: nat) returns (ret: int, bar: nat, vendor: seq<byte>)
    requires Init(s0) && ConfigOn(s0.dev.regs) && Checked(s0.mock.bars) && i < 6
    requires forall j :: 0 <= j < 6 ==> BlankBar(s0.host.regs, j) && BlankBar(s0.dev.regs, j)
    ensures ret == if s0.mock.cfg[..2] == [0xff, 0xff] || s0.mock.cfg[0xe] != 0 then -1 else 0
    ensures ret == 0 ==>
      var b := s0.mock.bars[i];
      && bar == (if b.size == 0 then b.config else Base(i) - Base(i) % b.size + b.config)
      && vendor == s0.mock.cfg[..2]
  {
    hide Idle, Assigned, Init, Checked, Prefix, Ready, Word, Base;
    var s, buf, got;
    ghost var sp;
    ret, s, sp := EnumerateAndDrain(s0, 0);
    got, buf, s, sp := ReadConfigHeaderField(s, sp, BAR_OFFSET + 4 * i, 4);
    bar := Word(buf);
    got, vendor, s, sp := ReadConfigHeaderField(s, sp, 0, 2);
  }
}
