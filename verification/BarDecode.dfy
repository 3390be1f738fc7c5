/**
 BAR decoding by masks (`get_bar_idx`) is an interval lookup, and the memory behind a BAR is a
 plain byte array: reads and writes through addresses are slices and updates of that array.
 */
module BarDecode {
  import opened Bits
  import opened Frames
  import opened Endpoint
  import opened MemoryMock

  /** Address x lies in the window of BAR i. */
  predicate InWindow(r: Regs, i: nat, x: nat)
    requires i < 6
  {
    r.bar[i] <= x < r.bar[i] + r.barSize[i]
  }

  /** A power-of-two window of at least 4 bytes, aligned to its size, below 4 GiB. */
  ghost predicate Placed(base: nat, size: nat) {
    IsPow2(size) && size >= 4 && base % size == 0 && base + size <= U32
  }

  /** The first n BARs are registered, with power-of-two sizes, size-aligned bases and disjoint
      windows below 4 GiB; the others are unregistered. */
  ghost predicate Laid(r: Regs, n: nat) {
    && n <= 6
    && (forall i :: 0 <= i < n ==> Placed(r.bar[i], r.barSize[i]))
    && (forall i :: n <= i < 6 ==> r.bar[i] == 0 && r.barSize[i] == 0)
    && (forall i, j :: 0 <= i < j < n ==> Apart(r, i, j))
  }

  predicate Apart(r: Regs, i: nat, j: nat)
    requires i < 6 && j < 6
  {
    r.bar[i] + r.barSize[i] <= r.bar[j] || r.bar[j] + r.barSize[j] <= r.bar[i]
  }

  /** Reference: the index of the window that holds x, or -1. */
  function WindowFrom(r: Regs, n: nat, x: nat, i: nat): (k: int)
    requires i <= n <= 6
    ensures k == -1 || (i <= k < n && InWindow(r, k, x))
    ensures k == -1 ==> forall j :: i <= j < n ==> !InWindow(r, j, x)
    decreases n - i
  {
    if i == n then -1 else if InWindow(r, i, x) then i else WindowFrom(r, n, x, i + 1)
  }

  function Window(r: Regs, n: nat, x: nat): int
    requires n <= 6
  {
    WindowFrom(r, n, x, 0)
  }

  lemma AndZero(x: nat)
    ensures And(x, 0) == 0
  {
  }

  /** An unregistered BAR has mask 0 and base 0: it matches every address. */
  lemma UnregisteredMatchesAll(r: Regs, i: nat, addr: nat)
    requires i < 6 && r.bar[i] == 0 && r.barSize[i] == 0
    ensures Matches(r, i, addr)
  {
    AndZero(addr);
  }

  /** Inside or outside a size-aligned window, by remainders. */
  lemma AlignedWindow(x: nat, base: nat, size: nat)
    requires size > 0 && base % size == 0
    ensures x - x % size == base <==> base <= x < base + size
    ensures base <= x < base + size ==> x % size == x - base
  {
    var q, k := x / size, base / size;
    assert x == size * q + x % size && base == size * k;
    if base <= x < base + size {
      ModUnique(x, size, k, x - base);
    }
  }

  lemma ModOfMod(addr: nat, size: nat)
    requires IsPow2(size) && 0 < size < U32
    ensures addr % U32 % size == addr % size
  {
    var k: nat :| size == Pow2(k);
    Pow2Is32();
    Pow2Order(k, 32);
    Pow2Adds(k, 32 - k);
    Pow2Positive(32 - k);
    ModDivides(addr, size, Pow2(32 - k));
  }

  lemma ModDivides(x: nat, size: nat, c: nat)
    requires size > 0 && c > 0
    ensures size * c > 0 && x % (size * c) % size == x % size
  {
    DigitMod(x, size, c);
    ModUnique(x % (size * c), size, x / size % c, x % size);
  }

  /** The mask comparison is window membership, modulo 2^32: the masks are 32 bits wide. */
  lemma MatchIsWindow(r: Regs, i: nat, addr: nat)
    requires i < 6 && Placed(r.bar[i], r.barSize[i])
    ensures Matches(r, i, addr) <==> InWindow(r, i, addr % U32)
    ensures InWindow(r, i, addr % U32) ==> And(addr, SizeMask(r.barSize[i])) == addr % U32 - r.bar[i]
  {
    var size := r.barSize[i];
    assert size < U32;
    MaskMeaning(addr, size);
    ModOfMod(addr, size);
    AlignedWindow(addr % U32, r.bar[i], size);
  }

  /** `get_bar_idx` returns the one window that holds the address modulo 2^32.  When there is none
      it returns the first unregistered BAR, or -1 if all six are registered. */
  lemma DecodeIsLookup(r: Regs, n: nat, addr: nat)
    requires Laid(r, n)
    ensures var w := Window(r, n, addr % U32);
      GetBarIdx(r, addr) == if w >= 0 then w else if n < 6 then n else -1
    ensures forall i, j :: 0 <= i < n && 0 <= j < n ==>
      InWindow(r, i, addr % U32) && InWindow(r, j, addr % U32) ==> i == j
  {
    var k, w := GetBarIdx(r, addr), Window(r, n, addr % U32);
    forall i | 0 <= i < 6
      ensures Matches(r, i, addr) <==> i >= n || InWindow(r, i, addr % U32)
    {
      if i < n { MatchIsWindow(r, i, addr); } else { UnregisteredMatchesAll(r, i, addr); }
    }
    forall i, j | 0 <= i < n && 0 <= j < n && InWindow(r, i, addr % U32) && InWindow(r, j, addr % U32)
      ensures i == j
    {
      assert i < j ==> Apart(r, i, j);
      assert j < i ==> Apart(r, j, i);
    }
  }

  /** Every BAR is either placed or unregistered, in any pattern, and the windows are disjoint. */
  ghost predicate Scattered(r: Regs) {
    && (forall i :: 0 <= i < 6 ==> if r.barSize[i] > 0 then Placed(r.bar[i], r.barSize[i]) else r.bar[i] == 0)
    && (forall i, j :: 0 <= i < j < 6 && r.barSize[i] > 0 && r.barSize[j] > 0 ==> Apart(r, i, j))
  }

  /** An address inside a window finds its BAR exactly when no unregistered BAR has a lower index:
      that one would match first. */
  lemma FoundIffNoHole(r: Regs, i: nat, addr: nat)
    requires Scattered(r) && i < 6 && r.barSize[i] > 0 && addr < U32 && InWindow(r, i, addr)
    ensures GetBarIdx(r, addr) == i <==> forall j :: 0 <= j < i ==> r.barSize[j] > 0
  {
    hide Matches, Placed, SizeMask, BarFrom;
    forall j | 0 <= j <= i
      ensures Matches(r, j, addr) <==> j == i || r.barSize[j] == 0
    {
      if r.barSize[j] > 0 {
        MatchIsWindow(r, j, addr);
        assert j < i ==> Apart(r, j, i);
      } else {
        UnregisteredMatchesAll(r, j, addr);
      }
    }
  }

  // ---------------------------------------------------------------- plain arrays

  lemma Pow2AtLeast4(size: nat)
    requires IsPow2(size) && size >= 4
    ensures size % 4 == 0
  {
    var k: nat :| size == Pow2(k);
    assert Pow2(2) == 4;
    hide Pow2;
    Pow2Order(2, k);
  }

  /** An in-bounds access through BAR i decodes to BAR i and the caller's own offset. */
  lemma IntendedOffset(r: Regs, n: nat, i: nat, off: nat, length: nat, cbs: seq<Callback>, cfg: Callback)
    requires Laid(r, n) && i < n && length >= 1 && off + length <= r.barSize[i] && |cbs| == 6
    ensures Intended(r, Memory, r.bar[i] + off, length, cbs, cfg)
      == if cbs[i] == None then None else Some(Access(cbs[i].value, off, length))
  {
    hide GetBarIdx, And, IsPow2, SizeMask;
    assert Placed(r.bar[i], r.barSize[i]);
    Pow2AtLeast4(r.barSize[i]);
    MultipleOf4(r.bar[i], r.barSize[i]);
    Align4(r.bar[i], off);
    DecodeInWindow(r, n, i, off - off % 4);
  }

  lemma Align4(base: nat, off: nat)
    requires base % 4 == 0
    ensures (base + off) % 4 == off % 4
  {
  }

  lemma DecodeInWindow(r: Regs, n: nat, i: nat, off: nat)
    requires Laid(r, n) && i < n && off < r.barSize[i]
    ensures GetBarIdx(r, r.bar[i] + off) == i && And(r.bar[i] + off, SizeMask(r.barSize[i])) == off
  {
    hide GetBarIdx, And, IsPow2, SizeMask;
    var addr := r.bar[i] + off;
    assert Placed(r.bar[i], r.barSize[i]);
    assert addr % U32 == addr && InWindow(r, i, addr);
    DecodeIsLookup(r, n, addr);
    MatchIsWindow(r, i, addr);
  }

  lemma MultipleOf4(base: nat, size: nat)
    requires size > 0 && size % 4 == 0 && base % size == 0
    ensures base % 4 == 0
  {
    var k, q := base / size, size / 4;
    assert base == (4 * q) * k == 4 * (q * k);
  }

  /** Reading through a BAR is slicing its memory. */
  lemma LocalReadIsSlice(r: Regs, m: Mock, n: nat, i: nat, off: nat, length: nat)
    requires Laid(r, n) && i < n && length >= 1 && off + length <= r.barSize[i] == |m.mem[i]|
    requires r.barReadCb[i] == Some(i) && Tame(r.barSize[i], off)
    ensures LocalRead(r, m, Memory, r.bar[i] + off, length) == Some(m.mem[i][off..off + length])
  {
    IntendedOffset(r, n, i, off, length, r.barReadCb, r.cfg0ReadCb);
  }

  /** Writing through a BAR with a write callback overwrites exactly those bytes; through a BAR
      without one it changes nothing. */
  lemma LocalWriteIsUpdate(r: Regs, m: Mock, n: nat, i: nat, off: nat, data: seq<byte>)
    requires Laid(r, n) && i < n && |data| >= 1 && off + |data| <= r.barSize[i] == |m.mem[i]|
    requires (r.barWriteCb[i] == Some(i) || r.barWriteCb[i] == None) && Tame(r.barSize[i], off)
    ensures LocalWrite(r, m, Memory, r.bar[i] + off, data)
      == (if r.barWriteCb[i] == None then m else m.(mem := m.mem[i := Overlay(m.mem[i], off, data)]), r)
  {
    IntendedOffset(r, n, i, off, |data|, r.barWriteCb, r.cfg0WriteCb);
  }
}
