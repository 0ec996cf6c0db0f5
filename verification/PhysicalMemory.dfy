/** The memory manager `mm` of arch/common/memory.c and the code that changes it:
    kmalloc and mm_protect_region, the frame functions of kernel/mm/pmm.c, mprotect and
    swap.  `Contents` is the value the bytes stand for; every method states its effect as
    one step of `Frames`. */
module PhysicalMemory {
  import opened Basics
  import opened Frames
  import opened FrameBytes
  import Bitmap

  const BITMAP_SIZE := 8192
  const PAGES_PER_SECTOR := PAGE_SIZE / 512

  lemma OneMorePage(s: set<nat>, first: nat, n: nat)
    ensures s + Pages(first, n + 1) == s + Pages(first, n) + {first + n}
  {
  }

  lemma JoinPages(a: nat, b: nat, c: nat, d: nat)
    requires a <= c <= b <= d
    ensures {} + Pages(a, b - a) + Pages(c, d - c) == Pages(a, d - a)
  {
  }

  lemma Wraps(x: nat, base: nat)
    requires base < TWO32
    ensures (x % TWO32 - base) % TWO32 == Minus32(x, base)
    ensures base <= x < TWO32 ==> Minus32(x, base) == x - base
  {
  }

  /** The set a bitmap in memory stands for. */
  ghost function Marked(bytes: array<bv8>): set<nat>
    reads bytes
  {
    Bitmap.Bits(bytes[..])
  }

  lemma NothingMarked(bytes: array<bv8>)
    requires forall k :: 0 <= k < bytes.Length ==> bytes[k] == 0
    ensures Marked(bytes) == {}
  {
    Bitmap.ClearBits(bytes[..]);
  }

  class MemoryManager {
    const bitmap: array<bv8>
    const protection: array<bv8>
    var totalPages: nat
    var nextFree: nat
    var initialized: bool
    var physLimitStart: nat
    var swapUsedSlots: nat

    ghost predicate Valid()
      reads this, bitmap, protection
    {
      && bitmap != protection
      && bitmap.Length == BITMAP_SIZE && protection.Length == BITMAP_SIZE
      && nextFree <= totalPages <= BITMAP_BITS
      && 0 < physLimitStart && physLimitStart + BITMAP_BITS * PAGE_SIZE < TWO32
      && swapUsedSlots < TWO32
    }

    ghost function Contents(): Frames
      requires Valid()
      reads this, bitmap, protection
    {
      Frames(Marked(bitmap), Marked(protection), totalPages, nextFree, physLimitStart)
    }

    static method SetBit(bytes: array<bv8>, bit: nat, value: bool)
      requires bit < 8 * bytes.Length
      modifies bytes
      ensures Marked(bytes) ==
                if value then old(Marked(bytes)) + {bit} else old(Marked(bytes)) - {bit}
    {
      hide Bitmap.Bits, Bitmap.Test, Bitmap.Mask;
      var byte, inByte := bit / 8, bit % 8;
      Bitmap.PutBits(bytes[..], bit, value);
      if value {
        bytes[byte] := bytes[byte] | Bitmap.Mask(inByte);
      } else {
        bytes[byte] := bytes[byte] & !Bitmap.Mask(inByte);
      }
      assert bytes[..] == Bitmap.Put(old(bytes[..]), bit, value);
    }

    static method GetBit(bytes: array<bv8>, bit: nat) returns (set_: bool)
      requires bit < 8 * bytes.Length
      ensures set_ <==> bit in Marked(bytes)
    {
      set_ := bytes[bit / 8] & Bitmap.Mask(bit % 8) != 0;
      assert set_ == Bitmap.Test(bytes[..], bit);
    }

    method PageAvailable(bit: nat) returns (r: bool)
      requires Valid() && bit < totalPages
      ensures r == Available(Contents(), bit)
    {
      var used := GetBit(bitmap, bit);
      var locked := GetBit(protection, bit);
      r := !used && !locked;
    }

    /** Marks the pages of a range used and protected. */
    method ProtectRange(first: nat, end: nat)
      requires Valid() && first <= end <= BITMAP_BITS
      modifies bitmap, protection
      ensures Valid()
      ensures Contents() == old(Contents()).(
                used := old(Contents()).used + Pages(first, end - first),
                protected := old(Contents()).protected + Pages(first, end - first))
    {
      hide Marked, Pages;
      ghost var u, p := Contents().used, Contents().protected;
      for i := first to end
        invariant Marked(bitmap) == u + Pages(first, i - first)
        invariant Marked(protection) == p + Pages(first, i - first)
      {
        OneMorePage(u, first, i - first);
        OneMorePage(p, first, i - first);
        SetBit(bitmap, i, true);
        SetBit(protection, i, true);
      }
    }

    /** mm_init_universal: all pages free but the kernel image and one guard page. */
    constructor (ramStart: nat, ramSize: nat, kernelStart: nat, kernelEnd: nat)
      requires 0 < ramStart && ramStart + BITMAP_BITS * PAGE_SIZE < TWO32
      requires ramSize <= BITMAP_BITS * PAGE_SIZE   // more RAM than the bitmaps have bits for
      requires ramStart <= kernelStart <= kernelEnd && kernelEnd - ramStart + 2 * PAGE_SIZE <= BITMAP_BITS * PAGE_SIZE
      ensures Valid() && initialized && fresh(bitmap) && fresh(protection)
      ensures Contents().total == ramSize / PAGE_SIZE && Contents().next == 0 && Contents().base == ramStart
      ensures Contents().used == Contents().protected
      ensures forall i: nat :: i in Contents().protected <==>
        exists x :: kernelStart <= x < kernelEnd + 4096 && InPage(ramStart, i, x)
      ensures Contents().protected ==
                Pages((kernelStart - ramStart) / PAGE_SIZE,
                      (kernelEnd + 2 * PAGE_SIZE - 1 - ramStart) / PAGE_SIZE - (kernelStart - ramStart) / PAGE_SIZE)
    {
      hide Marked, Pages;
      bitmap := new bv8[BITMAP_SIZE](_ => 0);
      protection := new bv8[BITMAP_SIZE](_ => 0);
      totalPages, nextFree, initialized := ramSize / PAGE_SIZE, 0, true;
      physLimitStart, swapUsedSlots := ramStart, 0;
      new;
      NothingMarked(bitmap);
      NothingMarked(protection);
      var startPage := (kernelStart - ramStart) / PAGE_SIZE;
      var endPage := (kernelEnd - ramStart + PAGE_SIZE - 1) / PAGE_SIZE;
      ProtectRange(startPage, endPage);
      JoinPages(startPage, endPage, (kernelEnd - ramStart) / PAGE_SIZE, (kernelEnd - ramStart + 2 * PAGE_SIZE - 1) / PAGE_SIZE);
      ProtectRegion(kernelEnd, PAGE_SIZE);
      forall i: nat
        ensures i in Contents().protected <==>
          exists x :: kernelStart <= x < kernelEnd + 4096 && InPage(ramStart, i, x)
      {
        RegionPages(ramStart, kernelStart, kernelEnd + 4096 - kernelStart, i);
      }
    }

    method ProtectRegion(base: nat, size: nat)
      requires Valid()
      requires base + size + PAGE_SIZE - 1 <= physLimitStart + BITMAP_BITS * PAGE_SIZE
      requires size + PAGE_SIZE - 1 <= BITMAP_BITS * PAGE_SIZE
      modifies bitmap, protection
      ensures Valid()
      ensures initialized ==> ProtectStep(old(Contents()), base, size, Contents())
      ensures !initialized ==> Contents() == old(Contents())
    {
      hide Marked, Pages;
      if !initialized || size == 0 {
        return;
      }
      var b := if base < physLimitStart then physLimitStart else base;
      var startBit := (b - physLimitStart) / PAGE_SIZE;
      var endBit := (b + size + PAGE_SIZE - 1 - physLimitStart) / PAGE_SIZE;
      ProtectRange(startBit, endBit);
    }

    /** The address a caller gets for a page; 0 for none. */
    ghost function AddressOf(page: Option<nat>): nat
      reads this
    {
      match page
      case Some(i) => i * PAGE_SIZE + physLimitStart
      case None => 0
    }

    /** `page` is the first page of the block at `address`. */
    method Kmalloc(size: nat) returns (address: nat, ghost page: Option<nat>)
      requires Valid() && size < TWO32
      modifies this`nextFree, bitmap
      ensures Valid() && address == AddressOf(page) && (address == 0 <==> page.None?)
      ensures initialized ==> KmallocStep(old(Contents()), size, page, Contents())
      ensures address != 0 ==> GivesBlock(old(Contents()), address, size, Contents())
      ensures !initialized ==> page.None? && Contents() == old(Contents())
    {
      hide Marked, Pages, GivesBlock;
      if !initialized || size == 0 {
        return 0, None;
      }
      var pagesNeeded := (size + PAGE_SIZE - 1) % TWO32 / PAGE_SIZE;
      var start := FindRun(pagesNeeded);
      page := start;
      if start.None? {
        return 0, None;
      }
      MarkUsed(start.value, pagesNeeded);
      nextFree := start.value + pagesNeeded;
      address := start.value * PAGE_SIZE + physLimitStart;
      KmallocGives(old(Contents()), size, start.value, Contents());
    }

    /** First fit; a request that wrapped to zero pages finds nothing. */
    method FindRun(n: nat) returns (r: Option<nat>)
      requires Valid()
      ensures r.Some? ==> n > 0 && IsLowestRun(Contents(), r.value, n)
      ensures r.None? && n > 0 ==> forall s :: !IsRun(Contents(), s, n)
      ensures n == 0 ==> r.None?
    {
      ghost var m := Contents();
      var consecutive := 0;
      for i := nextFree to totalPages
        invariant 0 <= consecutive <= i - nextFree
        invariant n > 0 ==> consecutive < n
        invariant forall j :: i - consecutive <= j < i ==> Available(m, j)
        invariant consecutive < i - nextFree ==> !Available(m, i - consecutive - 1)
        invariant forall s :: 0 <= s && s + n <= i && n > 0 ==> !IsRun(m, s, n)
      {
        var free := PageAvailable(i);
        if free {
          consecutive := consecutive + 1;
          if consecutive == n {
            return Some(i + 1 - n);
          }
        } else {
          consecutive := 0;
        }
      }
      return None;
    }

    method MarkUsed(start: nat, n: nat)
      requires Valid() && start + n <= BITMAP_BITS
      modifies bitmap
      ensures Valid() && Contents() == old(Contents()).(used := old(Contents()).used + Pages(start, n))
    {
      hide Marked, Pages;
      for i := 0 to n
        invariant Marked(bitmap) == old(Contents()).used + Pages(start, i)
      {
        OneMorePage(old(Contents()).used, start, i);
        SetBit(bitmap, start + i, true);
      }
    }

    method AllocFrame() returns (address: nat, ghost page: Option<nat>)
      requires Valid()
      modifies this`nextFree, bitmap
      ensures Valid() && address == AddressOf(page) && (address == 0 <==> page.None?)
      ensures initialized ==> AllocFrameStep(old(Contents()), page, Contents())
      ensures address != 0 ==> GivesBlock(old(Contents()), address, 4096, Contents())
      ensures !initialized ==> page.None? && Contents() == old(Contents())
    {
      hide Marked, GivesBlock;
      if !initialized {
        return 0, None;
      }
      var i := FirstAvailable(nextFree, totalPages);
      if i == totalPages {
        i := FirstAvailable(0, nextFree);
        if i == nextFree {
          return 0, None;
        }
      }
      SetBit(bitmap, i, true);
      nextFree := i + 1;
      page := Some(i);
      address := i * PAGE_SIZE + physLimitStart;
      FrameGives(old(Contents()), i, Contents());
    }

    /** The first available page of a range, or its end. */
    method FirstAvailable(from: nat, end: nat) returns (i: nat)
      requires Valid() && from <= end <= totalPages
      ensures from <= i <= end
      ensures forall j :: from <= j < i ==> !Available(Contents(), j)
      ensures i < end ==> Available(Contents(), i)
    {
      i := from;
      while i < end
        invariant from <= i <= end
        invariant forall j :: from <= j < i ==> !Available(Contents(), j)
      {
        var free := PageAvailable(i);
        if free {
          return;
        }
        i := i + 1;
      }
    }

    method FreeFrame(address: nat)
      requires Valid() && address < physLimitStart + BITMAP_BITS * PAGE_SIZE
      modifies this`nextFree, bitmap
      ensures Valid() && FreeStep(old(Contents()), address, Contents())
    {
      hide Marked;
      if address < physLimitStart {
        return;
      }
      var frameIndex := (address - physLimitStart) / PAGE_SIZE;
      SetBit(bitmap, frameIndex, false);
      if frameIndex < nextFree {
        nextFree := frameIndex;
      }
    }

    method MprotectSetFlags(address: nat, length: nat, flags: int) returns (code: int)
      requires Valid() && address < TWO32 && length < TWO32
      modifies protection
      ensures Valid() && MprotectStep(old(Contents()), address, length, flags, code, Contents())
    {
      hide Marked, Pages;
      if address < physLimitStart || length == 0 {
        return -EINVAL;
      }
      ghost var m := Contents();
      var startFrame := (address - physLimitStart) / PAGE_SIZE;
      var endFrame := ((address + length + PAGE_SIZE - 1) % TWO32 - physLimitStart) % TWO32 / PAGE_SIZE;
      Wraps(address, physLimitStart);
      Wraps(address + length + PAGE_SIZE - 1, physLimitStart);
      if endFrame <= startFrame {
        return 0;
      }
      code := SetFlags(startFrame, endFrame, flags);
    }

    method SetFlags(start: nat, end: nat, flags: int) returns (code: int)
      requires Valid() && start < end
      modifies protection
      ensures Valid()
      ensures var m := old(Contents());
              var stop := MprotectStop(m, start, end);
              && Contents() == (if flags == PROT_NONE then m.(protected := m.protected + Pages(start, stop - start)) else m)
              && code == (if stop == end then 0 else if stop >= m.total then -ENOMEM else -EACCES)
    {
      hide Marked, Pages;
      ghost var m := Contents();
      var i := start;
      while i < end
        invariant start <= i <= end && MprotectStop(m, i, end) == MprotectStop(m, start, end)
        invariant Contents() == if flags == PROT_NONE then m.(protected := m.protected + Pages(start, i - start)) else m
      {
        if i >= totalPages {
          return -ENOMEM;
        }
        var locked := GetBit(protection, i);
        assert locked == (i in m.protected);
        if locked {
          return -EACCES;
        }
        OneMorePage(m.protected, start, i - start);
        if flags == PROT_NONE {
          SetBit(protection, i, true);
        } else {
          SetBit(protection, i, false);
        }
        i := i + 1;
      }
      return 0;
    }

    method SwapOutPage(frameIndex: nat) returns (code: int)
      requires Valid() && frameIndex < BITMAP_BITS
      modifies this`swapUsedSlots, bitmap
      ensures Valid() && SwapOutStep(old(Contents()), frameIndex, code, Contents())
      ensures swapUsedSlots == if code == 0 then (old(swapUsedSlots) + 4096 / 512) % TWO32 else old(swapUsedSlots)
    {
      hide Marked;
      var locked := GetBit(protection, frameIndex);
      if locked {
        return -1;
      }
      swapUsedSlots := (swapUsedSlots + PAGES_PER_SECTOR) % TWO32;
      SetBit(bitmap, frameIndex, false);
      return 0;
    }

    method SwapInPage() returns (address: nat, ghost page: Option<nat>)
      requires Valid()
      modifies this`nextFree, this`swapUsedSlots, bitmap
      ensures Valid() && address == AddressOf(page) && (address == 0 <==> page.None?)
      ensures initialized ==> KmallocStep(old(Contents()), PAGE_SIZE, page, Contents())
      ensures address != 0 ==> GivesBlock(old(Contents()), address, 4096, Contents())
      ensures !initialized ==> page.None? && Contents() == old(Contents())
      ensures swapUsedSlots ==
                if page.Some? && old(swapUsedSlots) >= 4096 / 512 then old(swapUsedSlots) - 4096 / 512
                else old(swapUsedSlots)
    {
      hide Marked;
      address, page := Kmalloc(PAGE_SIZE);
      if address == 0 {
        return;
      }
      if swapUsedSlots >= PAGES_PER_SECTOR {
        swapUsedSlots := swapUsedSlots - PAGES_PER_SECTOR;
      }
    }

    method GetFreeMemory() returns (bytes: nat)
      requires Valid()
      ensures bytes == if initialized then |FreePages(Contents())| * PAGE_SIZE else 0
    {
      hide Marked;
      if !initialized {
        return 0;
      }
      ghost var m := Contents();
      var freePages := 0;
      for i := 0 to totalPages
        invariant freePages == |FreePages(m.(total := i))|
      {
        var used := GetBit(bitmap, i);
        assert FreePages(m.(total := i + 1)) == FreePages(m.(total := i)) + (if used then {} else {i});
        if !used {
          freePages := freePages + 1;
        }
      }
      assert m.(total := totalPages) == m;
      return freePages * PAGE_SIZE;
    }
  }
}
