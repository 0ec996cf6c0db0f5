/** What the allocators promise in bytes: a block is as large as was asked for, and live
    blocks do not overlap. */
module FrameBytes {
  import opened Basics
  import opened Frames

  /** The byte at `x` lies in page `i` of memory that starts at `base`. */
  predicate InPage(base: nat, i: nat, x: nat) {
    base + i * 4096 <= x < base + i * 4096 + 4096
  }

  ghost predicate ByteAvailable(m: Frames, x: nat) {
    exists i: nat :: InPage(m.base, i, x) && Available(m, i)
  }

  ghost predicate ByteUsed(m: Frames, x: nat) {
    exists i: nat :: InPage(m.base, i, x) && i in m.used
  }

  /** All bytes of a block were available and are used now, and every page newly used holds
      one of them. */
  ghost predicate GivesBlock(m: Frames, address: nat, size: nat, m': Frames) {
    && (forall x :: address <= x < address + size ==> ByteAvailable(m, x) && ByteUsed(m', x))
    && (forall i :: i in m'.used && i !in m.used ==> exists x :: address <= x < address + size && InPage(m.base, i, x))
  }

  /** The page of a byte. */
  function PageAt(base: nat, x: nat): (i: nat)
    requires base <= x
    ensures InPage(base, i, x)
  {
    (x - base) / 4096
  }

  lemma OnePage(base: nat, i: nat, j: nat, x: nat)
    requires InPage(base, i, x) && InPage(base, j, x)
    ensures i == j
  {
  }

  /** `n` pages from page `s` on hold `size` bytes, and no fewer pages do. */
  lemma PagesHold(base: nat, s: nat, size: nat, i: nat)
    ensures s <= i < s + PagesNeeded(size) <==>
      exists x :: base + s * 4096 <= x < base + s * 4096 + size && InPage(base, i, x)
  {
    if s <= i < s + PagesNeeded(size) {
      var x := base + i * 4096;
      assert (i - s) * 4096 < size;
      assert InPage(base, i, x) && x < base + s * 4096 + size;
    }
  }

  lemma RunGivesBlock(m: Frames, s: nat, size: nat, m': Frames)
    requires forall i :: s <= i < s + PagesNeeded(size) ==> Available(m, i)
    requires m'.base == m.base && m'.used == m.used + Pages(s, PagesNeeded(size))
    ensures GivesBlock(m, s * 4096 + m.base, size, m')
  {
    hide PagesNeeded;
    var address := s * 4096 + m.base;
    forall x | address <= x < address + size
      ensures ByteAvailable(m, x) && ByteUsed(m', x)
    {
      PagesHold(m.base, s, size, PageAt(m.base, x));
    }
    forall i | i in m'.used && i !in m.used
      ensures exists x :: address <= x < address + size && InPage(m.base, i, x)
    {
      PagesHold(m.base, s, size, i);
    }
  }

  /** kmalloc gives a block of the size asked for. */
  lemma KmallocGives(m: Frames, size: nat, s: nat, m': Frames)
    requires KmallocStep(m, size, Some(s), m')
    ensures GivesBlock(m, s * 4096 + m.base, size, m')
  {
    hide GivesBlock, Pages;
    RunGivesBlock(m, s, size, m');
  }

  /** A frame is a block of 4096 bytes. */
  lemma FrameGives(m: Frames, i: nat, m': Frames)
    requires AllocFrameStep(m, Some(i), m')
    ensures GivesBlock(m, i * 4096 + m.base, 4096, m')
  {
    assert PagesNeeded(4096) == 1 && Pages(i, 0) == {} && Pages(i, 1) == {i};
    RunGivesBlock(m, i, 4096, m');
  }

  // ---------------------------------------------------------------- runs

  datatype Block = Block(address: nat, size: nat)

  predicate HasByte(b: Block, x: nat) {
    b.address <= x < b.address + b.size
  }

  /** A block has a byte in page `i`. */
  ghost predicate Meets(base: nat, i: nat, b: Block) {
    exists x :: HasByte(b, x) && InPage(base, i, x)
  }

  /** The block a call hands out. */
  function Given(e: Event, base: nat): seq<Block> {
    match e
    case Kmalloc(size, Some(s)) => [Block(s * 4096 + base, size)]
    case SwapIn(Some(s)) => [Block(s * 4096 + base, 4096)]
    case AllocFrame(Some(i)) => [Block(i * 4096 + base, 4096)]
    case _ => []
  }

  /** Blocks none of whose bytes lie in a page given back. */
  ghost function Surviving(bs: seq<Block>, gone: set<nat>, base: nat): (r: seq<Block>)
    ensures forall b :: b in r ==> b in bs && forall i :: i in gone ==> !Meets(base, i, b)
  {
    if bs == [] then []
    else
      var rest := Surviving(bs[1..], gone, base);
      if exists i :: i in gone && Meets(base, i, bs[0]) then rest else [bs[0]] + rest
  }

  /** The blocks handed out of which no part was given back since. */
  ghost function Blocks(es: seq<Event>, base: nat): seq<Block> {
    if es == [] then []
    else
      var e := es[|es| - 1];
      Surviving(Blocks(es[..|es| - 1], base), Released(e, base), base) + Given(e, base)
  }

  ghost predicate Apart(a: Block, b: Block, base: nat) {
    forall i: nat :: !(Meets(base, i, a) && Meets(base, i, b))
  }

  ghost predicate AllApart(bs: seq<Block>, base: nat) {
    forall i, j :: 0 <= i < j < |bs| ==> Apart(bs[i], bs[j], base)
  }

  /** Every page a block meets is in use. */
  ghost predicate InUse(b: Block, m: Frames) {
    b.address >= m.base && forall i: nat :: Meets(m.base, i, b) ==> i in m.used
  }

  lemma {:induction false} SurvivingApart(bs: seq<Block>, gone: set<nat>, base: nat)
    requires AllApart(bs, base)
    ensures AllApart(Surviving(bs, gone, base), base)
  {
    if bs != [] {
      var rest := Surviving(bs[1..], gone, base);
      SurvivingApart(bs[1..], gone, base);
      forall b | b in rest
        ensures Apart(bs[0], b, base)
      {
        assert b in bs[1..];
      }
      hide Apart, Meets;
    }
  }

  /** What a call hands out meets only pages that were available and are used now. */
  lemma GivenMeets(m: Frames, e: Event, m': Frames, b: Block, i: nat)
    requires Step(m, e, m') && b in Given(e, m.base) && Meets(m.base, i, b)
    ensures b.address >= m.base && i !in m.used && i in m'.used && m'.base == m.base
  {
    match e
    case Kmalloc(size, Some(s)) =>
      PagesHold(m.base, s, size, i);
      assert Available(m, i) && i in Pages(s, PagesNeeded(size));
    case SwapIn(Some(s)) =>
      PagesHold(m.base, s, PAGE_SIZE, i);
      assert Available(m, i) && i in Pages(s, PagesNeeded(PAGE_SIZE));
    case AllocFrame(Some(k)) =>
      OneFrame(m.base, k, i, b);
  }

  lemma OneFrame(base: nat, k: nat, i: nat, b: Block)
    requires b == Block(k * 4096 + base, 4096) && Meets(base, i, b)
    ensures i == k
  {
    var x :| HasByte(b, x) && InPage(base, i, x);
    OnePage(base, i, k, x);
  }

  lemma StillInUse(m: Frames, e: Event, m': Frames, b: Block)
    requires Step(m, e, m') && InUse(b, m) && m'.base == m.base
    requires forall i :: i in Released(e, m.base) ==> !Meets(m.base, i, b)
    ensures InUse(b, m')
  {
    StepHands(m, e, m');
    hide Step, Meets, Released;
  }

  /** Blocks handed out and not given back meet different pages, all of them in use. */
  lemma {:induction false} BlocksInUse(ms: seq<Frames>, es: seq<Event>)
    requires IsRunOf(ms, es) && ms[0].WellFormed()
    ensures ms[|es|].WellFormed() && ms[|es|].base == ms[0].base
    ensures AllApart(Blocks(es, ms[0].base), ms[0].base)
    ensures forall b :: b in Blocks(es, ms[0].base) ==> InUse(b, ms[|es|])
  {
    hide Step, Apart, InUse, Meets, Released, Given;
    if es != [] {
      var n := |es| - 1;
      var base := ms[0].base;
      var m, e, m' := ms[n], es[n], ms[n + 1];
      assert Step(m, e, m');
      BlocksInUse(ms[..n + 1], es[..n]);
      StepKeeps(m, e, m');
      var kept, more := Surviving(Blocks(es[..n], base), Released(e, base), base), Given(e, base);
      SurvivingApart(Blocks(es[..n], base), Released(e, base), base);
      forall b | b in kept
        ensures InUse(b, m')
      {
        StillInUse(m, e, m', b);
      }
      forall b | b in more
        ensures InUse(b, m')
      {
        GivenInUse(m, e, m', b);
      }
      forall a, b | a in kept && b in more
        ensures Apart(a, b, base)
      {
        NewApart(m, e, m', a, b);
      }
      assert |more| <= 1 by { AtMostOne(e, base); }
      TogetherApart(kept, more, base);
    }
  }

  lemma AtMostOne(e: Event, base: nat)
    ensures |Given(e, base)| <= 1
  {
  }

  lemma TogetherApart(a: seq<Block>, b: seq<Block>, base: nat)
    requires AllApart(a, base) && |b| <= 1
    requires forall x, y :: x in a && y in b ==> Apart(x, y, base)
    ensures AllApart(a + b, base)
  {
  }

  lemma GivenInUse(m: Frames, e: Event, m': Frames, b: Block)
    requires Step(m, e, m') && b in Given(e, m.base) && m'.base == m.base
    ensures InUse(b, m')
  {
    assert b.address >= m.base;
    forall i: nat | Meets(m.base, i, b)
      ensures i in m'.used
    {
      GivenMeets(m, e, m', b, i);
    }
  }

  lemma NewApart(m: Frames, e: Event, m': Frames, a: Block, b: Block)
    requires Step(m, e, m') && b in Given(e, m.base) && InUse(a, m)
    ensures Apart(a, b, m.base)
  {
    forall i: nat | Meets(m.base, i, b)
      ensures !Meets(m.base, i, a)
    {
      GivenMeets(m, e, m', b, i);
    }
  }

  /** Over every run, no byte belongs to two live blocks. */
  lemma LiveBlocksApart(ms: seq<Frames>, es: seq<Event>, i: nat, j: nat, x: nat)
    requires IsRunOf(ms, es) && ms[0].WellFormed()
    requires i < j < |Blocks(es, ms[0].base)|
    ensures !(HasByte(Blocks(es, ms[0].base)[i], x) && HasByte(Blocks(es, ms[0].base)[j], x))
  {
    BlocksInUse(ms, es);
    var base := ms[0].base;
    var bs := Blocks(es, base);
    if HasByte(bs[i], x) && HasByte(bs[j], x) {
      assert InUse(bs[i], ms[|es|]) && Apart(bs[i], bs[j], base);
      assert Meets(base, PageAt(base, x), bs[i]) && Meets(base, PageAt(base, x), bs[j]);
    }
  }

  // ---------------------------------------------------------------- order of addresses

  /** The block after a block begins at or above its last byte's end. */
  lemma BlocksAscend(m: Frames, size: nat, s: nat, m1: Frames, size1: nat, s1: nat, m2: Frames)
    requires KmallocStep(m, size, Some(s), m1) && KmallocStep(m1, size1, Some(s1), m2)
    ensures s * 4096 + size <= s1 * 4096
  {
  }

  /** A frame is followed by a higher one, unless no page above it is available. */
  lemma FramesAscend(m: Frames, i: nat, m1: Frames, j: nat, m2: Frames)
    requires AllocFrameStep(m, Some(i), m1) && AllocFrameStep(m1, Some(j), m2)
    ensures j > i || forall k :: k > i ==> !Available(m, k)
  {
    forall k | k > i && Available(m, k)
      ensures j > i
    {
      assert Available(m1, k);
    }
  }

  // ---------------------------------------------------------------- giving back

  /** The page of an address given back is available again unless protected, and low enough
      for the next search from `next_free` on to reach it; no other page changes. */
  lemma FreedIsAvailable(m: Frames, address: nat, m': Frames, i: nat)
    requires FreeStep(m, address, m') && InPage(m.base, i, address)
    ensures i < m.total && i !in m.protected ==> Available(m', i)
    ensures m'.next <= i && m'.next <= m.next && (m'.next == i || m'.next == m.next)
    ensures forall j :: j != i ==> (j in m'.used <==> j in m.used)
    ensures m'.protected == m.protected
  {
    OnePage(m.base, i, PageAt(m.base, address), address);
  }

  /** Swapping out succeeds exactly for pages that are not protected, and makes them
      available again. */
  lemma SwappedIsAvailable(m: Frames, i: nat, code: int, m': Frames)
    requires SwapOutStep(m, i, code, m')
    ensures code == 0 <==> i !in m.protected
    ensures code == 0 && i < m.total ==> Available(m', i)
    ensures forall j :: j != i || code != 0 ==> (j in m'.used <==> j in m.used)
    ensures m'.protected == m.protected
  {
  }

  // ---------------------------------------------------------------- protection

  /** A region is protected to its last byte, and no page without one of its bytes. */
  lemma RegionProtected(m: Frames, base: nat, size: nat, m': Frames, i: nat)
    requires ProtectStep(m, base, size, m')
    ensures var from := if base < m.base then m.base else base;
      i in m'.protected <==> i in m.protected || exists x :: from <= x < from + size && InPage(m.base, i, x)
    ensures var from := if base < m.base then m.base else base;
      i in m'.used <==> i in m.used || exists x :: from <= x < from + size && InPage(m.base, i, x)
  {
    if size > 0 {
      var from := if base < m.base then m.base else base;
      RegionPages(m.base, from, size, i);
    }
  }

  lemma RegionPages(base: nat, from: nat, size: nat, i: nat)
    requires base <= from && size > 0
    ensures (from - base) / 4096 <= i < (from - base + size + 4095) / 4096 <==>
      exists x :: from <= x < from + size && InPage(base, i, x)
  {
    var first, end := (from - base) / 4096, (from - base + size + 4095) / 4096;
    if first <= i < end {
      var x := if base + i * 4096 < from then from else base + i * 4096;
      assert from <= x < from + size && InPage(base, i, x);
    }
  }

  /** The byte at `x` lies in RAM and is not blocked. */
  ghost predicate ByteOpen(m: Frames, x: nat) {
    exists i: nat :: InPage(m.base, i, x) && i < m.total && i !in m.protected
  }

  lemma OpenPage(m: Frames, i: nat, x: nat)
    requires InPage(m.base, i, x)
    ensures ByteOpen(m, x) <==> i < m.total && i !in m.protected
  {
    if ByteOpen(m, x) {
      var j: nat :| InPage(m.base, j, x) && j < m.total && j !in m.protected;
      OnePage(m.base, i, j, x);
    }
  }

  /** What the codes of mprotect mean for a range whose end does not wrap around: success
      when all its bytes are in RAM and open, and otherwise the first byte that is not
      decides, by being outside of RAM or blocked. */
  lemma CodesExplained(m: Frames, address: nat, length: nat, flags: int, code: int, m': Frames)
    requires MprotectStep(m, address, length, flags, code, m')
    requires address >= m.base && length > 0 && address - m.base + length + 4095 < TWO32
    ensures code == 0 <==> forall x :: address <= x < address + length ==> ByteOpen(m, x)
    ensures code != 0 ==> exists x :: address <= x < address + length && FirstClosed(m, address, x, code)
  {
    hide Minus32, ByteOpen;
    RangePages(m, address, length);
    var stop := MprotectStop(m, StartFrame(m, address), EndFrame(m, address, length));
    forall x | address <= x < address + length
      ensures StartFrame(m, address) <= PageAt(m.base, x) < EndFrame(m, address, length)
      ensures ByteOpen(m, x) <==> Unlocked(m, PageAt(m.base, x))
    {
      RegionPages(m.base, address, length, PageAt(m.base, x));
      OpenPage(m, PageAt(m.base, x), x);
    }
    if stop < EndFrame(m, address, length) {
      StopByte(m, address, length, code, stop);
    } else {
      hide MprotectStep;
    }
  }

  lemma RangePages(m: Frames, address: nat, length: nat)
    requires address >= m.base && length > 0 && address - m.base + length + 4095 < TWO32
    ensures StartFrame(m, address) == (address - m.base) / 4096
    ensures EndFrame(m, address, length) == (address - m.base + length + 4095) / 4096
    ensures StartFrame(m, address) < EndFrame(m, address, length)
  {
  }

  lemma StopByte(m: Frames, address: nat, length: nat, code: int, stop: nat)
    requires address >= m.base && length > 0 && address - m.base + length + 4095 < TWO32
    requires (address - m.base) / 4096 <= stop < (address - m.base + length + 4095) / 4096 && !Unlocked(m, stop)
    requires forall i :: (address - m.base) / 4096 <= i < stop ==> Unlocked(m, i)
    requires code == if stop >= m.total then -12 else -13
    ensures exists x :: address <= x < address + length && FirstClosed(m, address, x, code)
  {
    RegionPages(m.base, address, length, stop);
    var x := if m.base + stop * 4096 < address then address else m.base + stop * 4096;
    OpenPage(m, stop, x);
    forall y | address <= y < x
      ensures ByteOpen(m, y)
    {
      OpenPage(m, PageAt(m.base, y), y);
      assert Unlocked(m, PageAt(m.base, y));
    }
    assert FirstClosed(m, address, x, code);
  }

  /** A range that begins below RAM or is empty is refused, and flags other than 0 change
      nothing. */
  lemma NothingBlocked(m: Frames, address: nat, length: nat, flags: int, code: int, m': Frames)
    requires MprotectStep(m, address, length, flags, code, m')
    ensures address < m.base || length == 0 ==> code == -22 && m' == m
    ensures flags != 0 ==> m' == m
    ensures m'.used == m.used && m'.next == m.next
  {
    hide Minus32;
  }

  /** With flags 0, the bytes of the range are blocked up to the first that is not open. */
  lemma BlockedBytes(m: Frames, address: nat, length: nat, code: int, m': Frames, x: nat)
    requires MprotectStep(m, address, length, 0, code, m')
    requires address >= m.base && length > 0 && address - m.base + length + 4095 < TWO32
    requires address <= x < address + length
    ensures ByteProtected(m', x) <==> ByteProtected(m, x) || forall y :: address <= y <= x ==> ByteOpen(m, y)
  {
    hide Minus32, ByteOpen;
    RangePages(m, address, length);
    var start, end := StartFrame(m, address), EndFrame(m, address, length);
    var stop := MprotectStop(m, start, end);
    forall y | address <= y <= x
      ensures start <= PageAt(m.base, y) <= PageAt(m.base, x) < end
      ensures ByteOpen(m, y) <==> Unlocked(m, PageAt(m.base, y))
    {
      RegionPages(m.base, address, length, PageAt(m.base, x));
      OpenPage(m, PageAt(m.base, y), y);
    }
    ProtectedPage(m, PageAt(m.base, x), x);
    ProtectedPage(m', PageAt(m.base, x), x);
    hide ByteProtected;
    if PageAt(m.base, x) >= stop {
      var y := if m.base + stop * 4096 < address then address else m.base + stop * 4096;
      OnePage(m.base, stop, PageAt(m.base, y), y);
      assert !ByteOpen(m, y);
    }
  }

  lemma ProtectedPage(m: Frames, i: nat, x: nat)
    requires InPage(m.base, i, x)
    ensures ByteProtected(m, x) <==> i in m.protected
  {
    if ByteProtected(m, x) {
      var j: nat :| InPage(m.base, j, x) && j in m.protected;
      OnePage(m.base, i, j, x);
    }
  }

  ghost predicate FirstClosed(m: Frames, address: nat, x: nat, code: int) {
    && !ByteOpen(m, x) && (forall y :: address <= y < x ==> ByteOpen(m, y))
    && exists i: nat :: InPage(m.base, i, x) && code == if i >= m.total then -12 else -13
  }

  ghost predicate ByteProtected(m: Frames, x: nat) {
    exists i: nat :: InPage(m.base, i, x) && i in m.protected
  }

  /** When mprotect reports success for PROT_NONE, every byte of the range is blocked exactly
      when the end of the range, rounded up, does not wrap around 2^32. */
  lemma BlockedExactly(m: Frames, address: nat, length: nat, flags: int, m': Frames)
    requires MprotectStep(m, address, length, flags, 0, m') && flags == PROT_NONE
    requires address < TWO32 && length < TWO32 && m.total <= BITMAP_BITS
    requires forall i :: i in m.protected ==> i < BITMAP_BITS
    ensures (forall x :: address <= x < address + length ==> ByteProtected(m', x)) <==>
      address - m.base + length + 4095 < TWO32
  {
    hide Minus32;
    if address - m.base + length + 4095 < TWO32 {
      RangePages(m, address, length);
      forall x | address <= x < address + length
        ensures ByteProtected(m', x)
      {
        RegionPages(m.base, address, length, PageAt(m.base, x));
        assert PageAt(m.base, x) in m'.protected;
      }
    } else {
      LastBytePage(m, address, length, m');
      assert !ByteProtected(m', address + length - 1);
    }
  }

  lemma LastBytePage(m: Frames, address: nat, length: nat, m': Frames)
    requires MprotectStep(m, address, length, PROT_NONE, 0, m') && address >= m.base && length > 0
    requires address - m.base + length + 4095 >= TWO32 && m.total <= BITMAP_BITS
    requires forall i :: i in m.protected ==> i < BITMAP_BITS
    ensures !ByteProtected(m', address + length - 1)
  {
    var x := address + length - 1;
    forall i: nat | InPage(m.base, i, x)
      ensures i !in m'.protected
    {
      assert i * 4096 + 4096 > x - m.base >= TWO32 - 4096;
    }
  }

  /** A length of 2^32 - 1 from the start of RAM blocks nothing and reports success. */
  lemma WholeSpaceBlocksNothing(m: Frames)
    requires m.base < TWO32
    ensures MprotectStep(m, m.base, 0xFFFF_FFFF, PROT_NONE, 0, m)
  {
    assert Minus32(m.base + 0xFFFF_FFFF + PAGE_SIZE - 1, m.base) == 4094;
    assert Minus32(m.base, m.base) == 0;
  }

  // ---------------------------------------------------------------- free memory

  /** Free memory is the pages of RAM whose bit is clear, and mprotect does not change it. */
  lemma FreeMemoryIs(m: Frames, i: nat, address: nat, length: nat, flags: int, code: int, m': Frames)
    requires MprotectStep(m, address, length, flags, code, m')
    ensures i in FreePages(m) <==> i < m.total && i !in m.used
    ensures |FreePages(m')| == |FreePages(m)|
  {
    NothingBlocked(m, address, length, flags, code, m');
    assert m'.total == m.total;
    hide MprotectStep;
    assert FreePages(m') == FreePages(m);
  }

  /** Giving back a page in use adds one page of free memory, and giving back another none. */
  lemma FreedCounts(m: Frames, address: nat, m': Frames, i: nat)
    requires FreeStep(m, address, m') && InPage(m.base, i, address) && i < m.total
    ensures |FreePages(m')| == |FreePages(m)| + (if i in m.used then 1 else 0)
  {
    OnePage(m.base, i, PageAt(m.base, address), address);
    assert m'.used == m.used - {i} && m'.total == m.total;
    hide FreeStep;
    assert FreePages(m') == FreePages(m) + {i};
    if i in m.used {
      assert i !in FreePages(m);
    } else {
      assert i in FreePages(m);
      assert FreePages(m') == FreePages(m);
    }
  }

  /** A request for nothing gets nothing. */
  lemma NothingForNothing(m: Frames, r: Option<nat>, m': Frames)
    requires KmallocStep(m, 0, r, m')
    ensures r == None && m' == m
  {
  }
}
