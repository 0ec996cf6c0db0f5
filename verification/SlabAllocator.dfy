/** kmem_cache_alloc and kmem_cache_free of kernel/mm/slab.c, taking pages for slabs and
    memory for slab headers from the frame allocator. */
module SlabAllocator {
  import opened Basics
  import opened SlabModel
  import opened SlabRuns
  import F = Frames
  import PM = PhysicalMemory

  const SLAB_HEADER := 16   // sizeof(slab_t)

  datatype Result = Object(address: nat) | Null | NullDereference

  /** Every slab sits on a page the frame allocator has marked used. */
  ghost predicate PagesUsed(slabs: seq<Slab>, m: F.Frames) {
    forall s :: s in slabs ==> PageUsed(s.mem, m)
  }

  ghost predicate PageUsed(mem: nat, m: F.Frames) {
    exists i :: i in m.used && mem == i * PAGE_SIZE + m.base
  }

  ghost predicate AllUsed(c: Cache, m: F.Frames) {
    PagesUsed(c.full, m) && PagesUsed(c.partial, m) && PagesUsed(c.free, m)
  }

  lemma AllUsedGrows(c: Cache, m: F.Frames, m': F.Frames)
    requires AllUsed(c, m) && m.used <= m'.used && m'.base == m.base
    ensures AllUsed(c, m')
  {
    UsedGrows(c.full, m, m');
    UsedGrows(c.partial, m, m');
    UsedGrows(c.free, m, m');
  }

  lemma UsedGrows(slabs: seq<Slab>, m: F.Frames, m': F.Frames)
    requires PagesUsed(slabs, m) && m.used <= m'.used && m'.base == m.base
    ensures PagesUsed(slabs, m')
  {
    forall s | s in slabs
      ensures PageUsed(s.mem, m')
    {
      assert PageUsed(s.mem, m);
      var i :| i in m.used && s.mem == i * PAGE_SIZE + m.base;
      assert i in m'.used && s.mem == i * PAGE_SIZE + m'.base;
    }
  }

  /** Free, case by case. */
  lemma FreeIs(c: Cache, a: nat)
    requires Freeable(c, a)
    ensures var k := FindFull(c.full, a);
      && (k == |c.full| ==> Free(c, a) == c)
      && (k < |c.full| ==>
           && SlotAt(c.full[k], a, c.objSize) < 32
           && var t := GiveBit(c.full[k], SlotAt(c.full[k], a, c.objSize));
              var rest := c.full[..k] + c.full[k + 1..];
              Free(c, a) == if t.objectsFree == 1 then c.(full := rest, partial := [t] + c.partial)
                            else if t.objectsFree == PerPage(c.objSize) then c.(full := rest, free := [t] + c.free)
                            else c.(full := c.full[k := t]))
  {
  }

  lemma FreeKeepsPages(c: Cache, a: nat, m: F.Frames)
    requires AllUsed(c, m) && Freeable(c, a)
    ensures AllUsed(Free(c, a), m)
  {
    hide PageUsed, AndNot, Mask;
  }

  /** A page that was available is not the page of a slab. */
  lemma NewPageIsFresh(slabs: seq<Slab>, m: F.Frames, i: nat)
    requires PagesUsed(slabs, m) && i !in m.used
    ensures forall s :: s in slabs ==> s.mem != i * PAGE_SIZE + m.base
  {
    forall s | s in slabs
      ensures s.mem != i * PAGE_SIZE + m.base
    {
      assert PageUsed(s.mem, m);
    }
  }

  /** No page for a slab, or none above it for its header. */
  ghost predicate NoSlabMemory(m: F.Frames) {
    || (forall i :: !F.Available(m, i))
    || (exists i: nat :: F.FirstFit(m, i) && forall j :: j > i ==> !F.Available(m, j))
  }

  /** The page the frame allocator finds first. */
  ghost predicate OnFirstFit(m: F.Frames, page: nat) {
    exists i: nat :: F.FirstFit(m, i) && page == i * PAGE_SIZE + m.base
  }

  /** The header finds a page exactly when one is available above the page of the slab. */
  lemma HeaderFits(m: F.Frames, i: nat, m1: F.Frames, block: Option<nat>, m2: F.Frames)
    requires F.AllocFrameStep(m, Some(i), m1) && F.KmallocStep(m1, SLAB_HEADER, block, m2)
    ensures block.None? <==> NoSlabMemory(m)
  {
    F.OneFirstFit(m, i);
    assert F.PagesNeeded(SLAB_HEADER) == 1;
    forall j: nat
      ensures F.IsRun(m1, j, 1) <==> j > i && F.Available(m, j)
    {
      F.RunOfOne(m1, j);
    }
  }

  lemma NoPageNoSlab(m: F.Frames)
    requires forall i :: !F.Available(m, i)
    ensures NoSlabMemory(m)
  {
  }

  class KmemCache {
    const mm: PM.MemoryManager
    const objSize: nat
    var full: seq<Slab>
    var partial: seq<Slab>
    var free: seq<Slab>

    constructor (mm: PM.MemoryManager, size: nat)
      ensures this.mm == mm && Contents() == Cache(size, [], [], [])
    {
      this.mm, objSize := mm, size;
      full, partial, free := [], [], [];
    }

    function Contents(): Cache
      reads this
    {
      Cache(objSize, full, partial, free)
    }

    ghost predicate Valid()
      reads this, mm, mm.bitmap, mm.protection
    {
      && mm.Valid() && mm.initialized && mm.physLimitStart % PAGE_SIZE == 0 && objSize > 0
      && AllUsed(Contents(), mm.Contents())
    }

    /** slab_create: a page for the objects and memory for the header; nothing when the
        page or the header cannot be had, where the C code goes on with a null pointer: when
        no page is available, or none above the page taken for the objects. */
    method SlabCreate() returns (slab: Option<Slab>)
      requires Valid()
      modifies mm`nextFree, mm.bitmap
      ensures Valid() && F.Allocates(old(mm.Contents()), mm.Contents())
      ensures slab.None? <==> NoSlabMemory(old(mm.Contents()))
      ensures slab.Some? ==>
        && slab.value == NewSlab(slab.value.mem, objSize) && slab.value.mem % PAGE_SIZE == 0
        && PageUsed(slab.value.mem, mm.Contents())
        && OnFirstFit(old(mm.Contents()), slab.value.mem)
        && FreshPage(Contents(), slab.value.mem)
    {
      hide PM.Marked, PagesUsed, F.Allocates, NoSlabMemory;
      ghost var m := mm.Contents();
      F.NoAllocation(m);
      var address, page := mm.AllocFrame();
      F.OneMoreAllocation(m, m, F.AllocFrame(page), mm.Contents());
      if address == 0 {
        NoPageNoSlab(m);
        return None;
      }
      ghost var i := page.value;
      NewPageIsFresh(full, m, i);
      NewPageIsFresh(partial, m, i);
      AllUsedGrows(Contents(), m, mm.Contents());
      ghost var m1 := mm.Contents();
      assert i in m1.used;
      var header, block := mm.Kmalloc(SLAB_HEADER);
      HeaderFits(m, i, m1, block, mm.Contents());
      F.OneMoreAllocation(m, m1, F.Kmalloc(SLAB_HEADER, block), mm.Contents());
      AllUsedGrows(Contents(), m1, mm.Contents());
      assert i in mm.Contents().used && address == i * PAGE_SIZE + mm.Contents().base;
      if header == 0 {
        return None;
      }
      assert OnFirstFit(m, address);
      var n := PerPage(objSize);
      return Some(Slab(address, 0, if n > MAX_OBJECTS then MAX_OBJECTS else n));
    }

    /** The scan for a clear bit. */
    static method FindClear(bitmap: bv32) returns (i: nat)
      ensures i == FirstClear(bitmap, 0)
    {
      hide Mask, And;
      i := 0;
      while i < 32
        invariant i <= 32 && FirstClear(bitmap, i) == FirstClear(bitmap, 0)
      {
        if And(bitmap, Mask(i)) == 0 {
          return;
        }
        i := i + 1;
      }
    }

    /** Puts a slab at the head of the partial list if there is none. */
    method EnsurePartial() returns (ok: bool, ghost page: nat)
      requires Valid()
      modifies this, mm`nextFree, mm.bitmap
      ensures Valid() && F.Allocates(old(mm.Contents()), mm.Contents())
      ensures !ok <==> old(partial) == [] && old(free) == [] && NoSlabMemory(old(mm.Contents()))
      ensures ok ==> Contents() == WithPartial(old(Contents()), page)
      ensures ok && old(partial) == [] && old(free) == [] ==>
        FreshPage(old(Contents()), page) && OnFirstFit(old(mm.Contents()), page)
      ensures !ok ==> Contents() == old(Contents())
    {
      hide PageUsed, PM.MemoryManager.Valid, F.Allocates, NoSlabMemory, OnFirstFit;
      F.NoAllocation(mm.Contents());
      page := 0;
      if partial == [] {
        if free != [] {
          partial, free := [free[0]], free[1..];
        } else {
          var slab := SlabCreate();
          if slab.None? {
            return false, 0;
          }
          page := slab.value.mem;
          partial := [slab.value];
        }
      }
      ok := true;
    }

    /** Takes the first free slot of the first partial slab. */
    method TakeFirst() returns (r: Result)
      requires Valid() && partial != []
      modifies this
      ensures Valid()
      ensures TakeObject(old(Contents())) == (Contents(), if r.Object? then Some(r.address) else None)
      ensures !r.NullDereference?
    {
      hide PageUsed, PM.MemoryManager.Valid, Mask, Or, FirstClear;
      var s := partial[0];
      var i := FindClear(s.bitmap);
      if i == 32 {
        return Null;
      }
      var t := Slab(s.mem, Or(s.bitmap, Mask(i)), (s.objectsFree - 1) % TWO32);
      if t.objectsFree == 0 {
        partial := partial[1..];
        full := [t] + full;
      } else {
        partial := [t] + partial[1..];
      }
      r := Object(s.mem + i * objSize);
    }

    /** kmem_cache_alloc.  `page` is the page a new slab was put on.  It dereferences NULL
        exactly when it needs a new slab and cannot have one. */
    method Alloc() returns (r: Result, ghost page: nat)
      requires Valid()
      modifies this, mm`nextFree, mm.bitmap
      ensures Valid()
      ensures F.Allocates(old(mm.Contents()), mm.Contents()) && F.Grows(old(mm.Contents()), mm.Contents())
      ensures r.NullDereference? <==> old(partial) == [] && old(free) == [] && NoSlabMemory(old(mm.Contents()))
      ensures !r.NullDereference? ==>
        SlabModel.Alloc(old(Contents()), page) == (Contents(), if r.Object? then Some(r.address) else None)
      ensures !r.NullDereference? && old(partial) == [] && old(free) == [] ==>
        FreshPage(old(Contents()), page) && OnFirstFit(old(mm.Contents()), page)
      ensures r.NullDereference? ==> Contents() == old(Contents())
    {
      hide F.Allocates, F.Grows, NoSlabMemory, OnFirstFit;
      var ok;
      ok, page := EnsurePartial();
      F.AllocatesGrows(old(mm.Contents()), mm.Contents());
      if !ok {
        return NullDereference, page;
      }
      r := TakeFirst();
    }

    /** The walk over the full list. */
    method FindFullSlab(address: nat) returns (k: nat)
      ensures k == FindFull(full, address)
    {
      k := 0;
      assert full[0..] == full;
      while k < |full|
        invariant k <= |full| && k + FindFull(full[k..], address) == FindFull(full, address)
      {
        if full[k].mem <= address < full[k].mem + PAGE_SIZE {
          return;
        }
        assert full[k..][1..] == full[k + 1..];
        k := k + 1;
      }
    }

    /** kmem_cache_free of an address; null is ignored. */
    method FreeObject(address: nat)
      requires Valid() && Freeable(Contents(), address)
      modifies this
      ensures Valid()
      ensures Contents() == if address == 0 then old(Contents()) else Free(old(Contents()), address)
    {
      hide AllUsed, PM.MemoryManager.Valid, Mask, AndNot, Freeable, Free, FindFull, SlotAt, PerPage;
      if address == 0 {
        return;
      }
      FreeKeepsPages(Contents(), address, mm.Contents());
      FreeIs(Contents(), address);
      var k := FindFullSlab(address);
      if k == |full| {
        return;
      }
      var s := full[k];
      var i := SlotAt(s, address, objSize);
      var t := Slab(s.mem, AndNot(s.bitmap, Mask(i)), (s.objectsFree + 1) % TWO32);
      if t.objectsFree == 1 {
        full := full[..k] + full[k + 1..];
        partial := [t] + partial;
      } else if t.objectsFree == PerPage(objSize) {
        full := full[..k] + full[k + 1..];
        free := [t] + free;
      } else {
        full := full[k := t];
      }
    }
  }
}
