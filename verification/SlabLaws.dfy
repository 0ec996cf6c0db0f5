/** How far a slab is used before a page is taken for the next one. */
module SlabLaws {
  import opened Basics
  import opened SlabModel
  import opened SlabRuns

  lemma FitsInCapacity(objSize: nat, i: nat)
    requires 1 <= objSize <= PAGE_SIZE && i < 32 && (i + 1) * objSize <= 4096
    ensures i < Capacity(objSize)
  {
    var q := PAGE_SIZE / objSize;
    assert PAGE_SIZE == q * objSize + PAGE_SIZE % objSize;
    assert (q + 1) * objSize == q * objSize + objSize;
    if i >= q {
      Grows(q + 1, i + 1, objSize);
    }
  }

  lemma FullMeansAllSet(s: Slab, objSize: nat, i: nat)
    requires 1 <= objSize <= PAGE_SIZE && SlabOk(s, objSize) && s.objectsFree == 0 && i < Capacity(objSize)
    ensures i in Bits(s.bitmap)
  {
    if i !in Bits(s.bitmap) {
      var all := Below(Capacity(objSize));
      hide Capacity, Bits;
      SubsetSize(Bits(s.bitmap) + {i}, all);
    }
  }

  /** A place for an object in the page of a slab, one of the first 32, that is not taken. */
  ghost predicate FreePlace(c: Cache, s: Slab, i: nat) {
    Among(c, s) && i < 32 && (i + 1) * c.objSize <= 4096 && !Taken(c, s.mem + i * c.objSize)
  }

  lemma FullSlabHasNoPlace(c: Cache, s: Slab, i: nat)
    requires CacheOk(c) && s in c.full
    ensures !FreePlace(c, s, i)
  {
    if i < 32 && (i + 1) * c.objSize <= 4096 {
      FitsInCapacity(c.objSize, i);
      FullMeansAllSet(s, c.objSize, i);
      hide Bits, Capacity;
      assert Slot(c, s, i, s.mem + i * c.objSize);
    }
  }

  lemma PartialSlabHasPlace(c: Cache)
    requires CacheOk(c) && c.partial != []
    ensures FreePlace(c, c.partial[0], FirstClear(c.partial[0].bitmap, 0))
  {
    hide Bits, Capacity, FirstClear, SlabOk, CacheOk, Taken;
    FirstPartial(c);
    var s := c.partial[0];
    ClearBitBelowCapacity(s, c.objSize);
    var i := FirstClear(s.bitmap, 0);
    CapacityFits(c.objSize, i);
    NotTakenYet(c, c, s, i, s.mem + i * c.objSize);
  }

  /** While any slab has a place free, an object is put into a slab that is there; only when
      none has is it put on the new page, at its start. */
  lemma NewPageOnlyWhenFull(c: Cache, page: nat)
    requires CacheOk(c) && (c.partial == [] ==> FreshPage(c, page))
    ensures Alloc(c, page).1.Some?
    ensures (exists s, i :: FreePlace(c, s, i)) ==> exists s :: Among(c, s) && InPage(s, Alloc(c, page).1.value)
    ensures !(exists s, i :: FreePlace(c, s, i)) ==> Alloc(c, page).1.value == page
  {
    hide Bits, Capacity, FirstClear, SlabOk;
    AllocKeeps(c, page);
    if c.partial != [] {
      PartialSlabHasPlace(c);
      var s := c.partial[0];
      var i := FirstClear(s.bitmap, 0);
      PlaceInPage(c.objSize, i);
      assert Among(c, s) && InPage(s, s.mem + i * c.objSize);
      assert Alloc(c, page).1.value == s.mem + i * c.objSize;
    } else {
      forall s, i
        ensures !FreePlace(c, s, i)
      {
        if s in c.full {
          FullSlabHasNoPlace(c, s, i);
        }
      }
      FirstOfNewSlab();
    }
  }

  lemma PlaceInPage(objSize: nat, i: nat)
    requires objSize > 0 && (i + 1) * objSize <= 4096
    ensures i * objSize < 4096
  {
    assert (i + 1) * objSize == i * objSize + objSize;
  }

  lemma FirstOfNewSlab()
    ensures FirstClear(0, 0) == 0
  {
    EmptyBits();
    assert 0 !in Bits(0);
  }
}
