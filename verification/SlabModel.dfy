/** The slab allocator of kernel/mm/slab.c as a value: slabs with a 32-bit map and a free
    counter, on a full and a partial list, and runs of allocations and frees. */
module SlabModel {
  import opened Basics

  const MAX_OBJECTS := 32

  // ---------------------------------------------------------------- 32-bit maps

  function Mask(i: nat): bv32
    requires i < 32
  {
    (1 as bv32) << i
  }

  function And(b: bv32, m: bv32): bv32 {
    b & m
  }

  function Or(b: bv32, m: bv32): bv32 {
    b | m
  }

  function AndNot(b: bv32, m: bv32): bv32 {
    b & !m
  }

  predicate Test(b: bv32, i: nat)
    requires i < 32
  {
    And(b, Mask(i)) != 0
  }

  function Bits(b: bv32): set<nat> {
    set i: nat | i < 32 && Test(b, i)
  }

  lemma MasksDisjoint(i: nat, j: nat)
    requires i < 32 && j < 32
    ensures Mask(i) != 0 && (i != j ==> And(Mask(i), Mask(j)) == 0)
  {
  }

  lemma OrSame(b: bv32, m: bv32)
    requires m != 0
    ensures And(Or(b, m), m) != 0
  {
    assert (b | m) & m == m;
  }

  lemma OrOther(b: bv32, m: bv32, n: bv32)
    requires And(m, n) == 0
    ensures And(Or(b, m), n) == And(b, n)
  {
  }

  lemma AndNotSame(b: bv32, m: bv32)
    ensures And(AndNot(b, m), m) == 0
  {
  }

  lemma AndNotOther(b: bv32, m: bv32, n: bv32)
    requires And(m, n) == 0
    ensures And(AndNot(b, m), n) == And(b, n)
  {
  }

  lemma SetTest(b: bv32, i: nat, j: nat)
    requires i < 32 && j < 32
    ensures Test(Or(b, Mask(i)), j) == (j == i || Test(b, j))
    ensures Test(AndNot(b, Mask(i)), j) == (j != i && Test(b, j))
  {
    hide Mask, And, Or, AndNot;
    MasksDisjoint(i, j);
    if i == j {
      OrSame(b, Mask(i));
      AndNotSame(b, Mask(i));
    } else {
      OrOther(b, Mask(i), Mask(j));
      AndNotOther(b, Mask(i), Mask(j));
    }
  }

  /** Setting and clearing a bit are set insertion and removal. */
  lemma SetBits(b: bv32, i: nat)
    requires i < 32
    ensures Bits(Or(b, Mask(i))) == Bits(b) + {i}
    ensures Bits(AndNot(b, Mask(i))) == Bits(b) - {i}
  {
    hide Mask, Test, And, Or, AndNot;
    forall j: nat | j < 32
      ensures j in Bits(Or(b, Mask(i))) <==> j in Bits(b) + {i}
      ensures j in Bits(AndNot(b, Mask(i))) <==> j in Bits(b) - {i}
    {
      SetTest(b, i, j);
    }
  }

  /** The first clear bit from `i` on, or 32. */
  function FirstClear(b: bv32, i: nat): (r: nat)
    requires i <= 32
    ensures i <= r <= 32
    ensures r < 32 ==> !Test(b, r)
    ensures forall j :: i <= j < r ==> Test(b, j)
    decreases 32 - i
  {
    if i == 32 || !Test(b, i) then i else FirstClear(b, i + 1)
  }

  // ---------------------------------------------------------------- slabs and caches

  datatype Slab = Slab(mem: nat, bitmap: bv32, objectsFree: nat)

  datatype Cache = Cache(objSize: nat, full: seq<Slab>, partial: seq<Slab>, free: seq<Slab>)

  function PerPage(objSize: nat): nat
    requires objSize > 0
  {
    PAGE_SIZE / objSize
  }

  function Capacity(objSize: nat): nat
    requires objSize > 0
  {
    var n := PerPage(objSize);
    if n > MAX_OBJECTS then MAX_OBJECTS else n
  }

  function NewSlab(mem: nat, objSize: nat): Slab
    requires objSize > 0
  {
    Slab(mem, 0, Capacity(objSize))
  }

  /** The cache with a slab at the head of its partial list: one that is there, one from
      the free list, or a new one on page `page`. */
  function WithPartial(c: Cache, page: nat): (r: Cache)
    requires c.objSize > 0
    ensures r.partial != [] && r.objSize == c.objSize
  {
    if c.partial != [] then c
    else if c.free != [] then c.(partial := [c.free[0]], free := c.free[1..])
    else c.(partial := [NewSlab(page, c.objSize)])
  }

  function TakeBit(s: Slab, i: nat): Slab
    requires i < 32
  {
    Slab(s.mem, Or(s.bitmap, Mask(i)), (s.objectsFree - 1) % TWO32)
  }

  /** kmem_cache_alloc on a cache with a partial slab. */
  function TakeObject(c: Cache): (Cache, Option<nat>)
    requires c.partial != []
  {
    var s := c.partial[0];
    var i := FirstClear(s.bitmap, 0);
    if i == 32 then (c, None)
    else
      (PutFirst(c, TakeBit(s, i)), Some(s.mem + i * c.objSize))
  }

  /** Stores the first partial slab back, on the full list when nothing in it is free. */
  function PutFirst(c: Cache, t: Slab): Cache
    requires c.partial != []
  {
    if t.objectsFree == 0 then c.(full := [t] + c.full, partial := c.partial[1..])
    else c.(partial := [t] + c.partial[1..])
  }

  function Alloc(c: Cache, page: nat): (Cache, Option<nat>)
    requires c.objSize > 0
  {
    TakeObject(WithPartial(c, page))
  }

  predicate InPage(s: Slab, address: nat) {
    s.mem <= address < s.mem + PAGE_SIZE
  }

  /** The first full slab whose page holds the address, or the number of full slabs. */
  function FindFull(full: seq<Slab>, address: nat): (k: nat)
    ensures k <= |full|
    ensures k < |full| ==> InPage(full[k], address)
    ensures forall j :: 0 <= j < k ==> !InPage(full[j], address)
  {
    if full == [] || InPage(full[0], address) then 0 else 1 + FindFull(full[1..], address)
  }

  function GiveBit(s: Slab, i: nat): Slab
    requires i < 32
  {
    Slab(s.mem, AndNot(s.bitmap, Mask(i)), (s.objectsFree + 1) % TWO32)
  }

  /** The number of the slot an address of the page of `s` lies in. */
  function SlotAt(s: Slab, address: nat, objSize: nat): nat
    requires objSize > 0 && InPage(s, address)
  {
    (address - s.mem) / objSize
  }

  /** kmem_cache_free: only full slabs are searched, so an object of another slab stays taken. */
  function Free(c: Cache, address: nat): Cache
    requires c.objSize > 0
    requires forall s :: s in c.full && InPage(s, address) ==> SlotAt(s, address, c.objSize) < 32
  {
    var k := FindFull(c.full, address);
    if k == |c.full| then c
    else
      assert c.full[k] in c.full;
      var t := GiveBit(c.full[k], SlotAt(c.full[k], address, c.objSize));
      var rest := c.full[..k] + c.full[k + 1..];
      if t.objectsFree == 1 then c.(full := rest, partial := [t] + c.partial)
      else if t.objectsFree == PerPage(c.objSize) then c.(full := rest, free := [t] + c.free)
      else c.(full := c.full[k := t])
  }

  // ---------------------------------------------------------------- the invariant

  /** Set bits and free objects make up the capacity, and no bit above it is set. */
  ghost predicate SlabOk(s: Slab, objSize: nat)
    requires objSize > 0
  {
    && s.mem % PAGE_SIZE == 0
    && (forall i :: i in Bits(s.bitmap) ==> i < Capacity(objSize))
    && |Bits(s.bitmap)| + s.objectsFree == Capacity(objSize)
  }

  /** How often each page is used. */
  function Pages(slabs: seq<Slab>): multiset<nat> {
    if slabs == [] then multiset{} else multiset{slabs[0].mem} + Pages(slabs[1..])
  }

  /** A slab is on the full list exactly when nothing in it is free, no slab is wholly
      free, and every slab has a page of its own. */
  ghost predicate CacheOk(c: Cache) {
    && 1 <= c.objSize <= PAGE_SIZE
    && c.free == []
    && (forall s :: s in c.full ==> SlabOk(s, c.objSize) && s.objectsFree == 0)
    && (forall s :: s in c.partial ==> SlabOk(s, c.objSize) && s.objectsFree > 0)
    && (forall m :: (Pages(c.full) + Pages(c.partial))[m] <= 1)
  }

  lemma CapacityFits(objSize: nat, i: nat)
    requires 1 <= objSize <= PAGE_SIZE && i < Capacity(objSize)
    ensures (i + 1) * objSize <= PAGE_SIZE && 1 <= Capacity(objSize) <= 32
  {
    Quotient(objSize);
    Grows(i + 1, PAGE_SIZE / objSize, objSize);
  }

  lemma Quotient(d: nat)
    requires 1 <= d <= PAGE_SIZE
    ensures (PAGE_SIZE / d) * d <= PAGE_SIZE && 1 <= PAGE_SIZE / d
  {
  }

  lemma Grows(a: nat, b: nat, k: nat)
    requires a <= b
    ensures a * k <= b * k
  {
  }

  /** With an object free, the first clear bit is below the capacity: were all bits below
      it set, there would be as many set bits as objects. */
  lemma ClearBitBelowCapacity(s: Slab, objSize: nat)
    requires 1 <= objSize <= PAGE_SIZE && SlabOk(s, objSize) && s.objectsFree > 0
    ensures FirstClear(s.bitmap, 0) < Capacity(objSize) <= 32
    ensures FirstClear(s.bitmap, 0) !in Bits(s.bitmap)
  {
    CapacityFits(objSize, 0);
    var i := FirstClear(s.bitmap, 0);
    if i >= Capacity(objSize) {
      var all := Below(Capacity(objSize));
      hide Capacity, Test;
      assert all <= Bits(s.bitmap);
      SubsetSize(all, Bits(s.bitmap));
    }
  }

  lemma TakeKeeps(s: Slab, objSize: nat)
    requires 1 <= objSize <= PAGE_SIZE && SlabOk(s, objSize) && s.objectsFree > 0
    ensures var i := FirstClear(s.bitmap, 0);
      && i < 32 && i !in Bits(s.bitmap)
      && SlabOk(TakeBit(s, i), objSize) && TakeBit(s, i).objectsFree == s.objectsFree - 1
      && Bits(TakeBit(s, i).bitmap) == Bits(s.bitmap) + {i}
  {
    hide Capacity, Mask, Or, And, FirstClear, Bits, Test;
    ClearBitBelowCapacity(s, objSize);
    SetBits(s.bitmap, FirstClear(s.bitmap, 0));
    SmallCounter(s, objSize);
  }

  lemma SmallCounter(s: Slab, objSize: nat)
    requires objSize > 0 && SlabOk(s, objSize)
    ensures s.objectsFree <= 32
  {
  }

  lemma GiveKeeps(s: Slab, objSize: nat, i: nat)
    requires 1 <= objSize <= PAGE_SIZE && SlabOk(s, objSize) && i < 32 && i in Bits(s.bitmap)
    ensures SlabOk(GiveBit(s, i), objSize) && GiveBit(s, i).objectsFree == s.objectsFree + 1
    ensures Bits(GiveBit(s, i).bitmap) == Bits(s.bitmap) - {i}
  {
    hide Capacity, Mask, AndNot, And, Bits, Test;
    SetBits(s.bitmap, i);
    SmallCounter(s, objSize);
  }

  lemma {:induction false} PagesCount(slabs: seq<Slab>, s: Slab)
    requires s in slabs
    ensures Pages(slabs)[s.mem] >= 1
  {
    if s != slabs[0] {
      PagesCount(slabs[1..], s);
    }
  }

  lemma {:induction false} PagesTwice(slabs: seq<Slab>, s: Slab, t: Slab)
    requires s in slabs && t in slabs && s != t && s.mem == t.mem
    ensures Pages(slabs)[s.mem] >= 2
  {
    if s == slabs[0] {
      PagesCount(slabs[1..], t);
    } else if t == slabs[0] {
      PagesCount(slabs[1..], s);
    } else {
      PagesTwice(slabs[1..], s, t);
    }
  }

  lemma {:induction false} PagesWithout(slabs: seq<Slab>, k: nat)
    requires k < |slabs|
    ensures Pages(slabs) == Pages(slabs[..k] + slabs[k + 1..]) + multiset{slabs[k].mem}
  {
    if k == 0 {
      assert slabs[..0] + slabs[1..] == slabs[1..];
    } else {
      PagesWithout(slabs[1..], k - 1);
      var r := slabs[..k] + slabs[k + 1..];
      assert r[1..] == slabs[1..][..k - 1] + slabs[1..][k..];
    }
  }

  predicate Among(c: Cache, s: Slab) {
    s in c.full || s in c.partial
  }

  /** Slabs are told apart by their pages. */
  lemma OnePageOneSlab(c: Cache, s: Slab, t: Slab)
    requires CacheOk(c) && Among(c, s) && Among(c, t) && s.mem == t.mem
    ensures s == t
  {
    var m := s.mem;
    assert (Pages(c.full) + Pages(c.partial))[m] == Pages(c.full)[m] + Pages(c.partial)[m];
    assert (Pages(c.full) + Pages(c.partial))[m] <= 1;
    hide Pages, CacheOk;
    if s in c.full && t in c.full {
      if s != t {
        PagesTwice(c.full, s, t);
      }
    } else if s in c.partial && t in c.partial {
      if s != t {
        PagesTwice(c.partial, s, t);
      }
    } else if s in c.full {
      PagesCount(c.full, s);
      PagesCount(c.partial, t);
    } else {
      PagesCount(c.partial, s);
      PagesCount(c.full, t);
    }
  }
}
