/** What allocations and frees keep, and what follows for the objects handed out. */
module SlabRuns {
  import opened Basics
  import opened SlabModel

  /** Slot `i` of slab `s` is taken and lies at address `a`. */
  ghost predicate Slot(c: Cache, s: Slab, i: nat, a: nat) {
    Among(c, s) && i in Bits(s.bitmap) && a == s.mem + i * c.objSize
  }

  ghost predicate Taken(c: Cache, a: nat) {
    exists s, i :: Slot(c, s, i, a)
  }

  /** A page no slab of the cache uses. */
  ghost predicate FreshPage(c: Cache, page: nat) {
    page % PAGE_SIZE == 0 && forall s :: Among(c, s) ==> s.mem != page
  }

  /** Every taken slot lies inside the page of its slab. */
  lemma SlotInPage(c: Cache, s: Slab, i: nat, a: nat)
    requires CacheOk(c) && Slot(c, s, i, a)
    ensures SlabOk(s, c.objSize) && i < Capacity(c.objSize)
    ensures s.mem <= a && a + c.objSize <= s.mem + PAGE_SIZE && InPage(s, a)
  {
    CapacityFits(c.objSize, i);
  }

  lemma SamePage(m: nat, n: nat, a: nat)
    requires m % PAGE_SIZE == 0 && n % PAGE_SIZE == 0
    requires m <= a < m + PAGE_SIZE && n <= a < n + PAGE_SIZE
    ensures m == n
  {
  }

  lemma {:induction false} PagesAbsent(slabs: seq<Slab>, page: nat)
    requires forall s :: s in slabs ==> s.mem != page
    ensures Pages(slabs)[page] == 0
  {
    if slabs != [] {
      PagesAbsent(slabs[1..], page);
    }
  }

  lemma NewSlabOk(page: nat, objSize: nat)
    requires 1 <= objSize <= PAGE_SIZE && page % PAGE_SIZE == 0
    ensures SlabOk(NewSlab(page, objSize), objSize) && NewSlab(page, objSize).objectsFree > 0
    ensures Bits(NewSlab(page, objSize).bitmap) == {}
  {
    CapacityFitsOne(objSize);
    EmptyBits();
  }

  lemma EmptyBits()
    ensures Bits(0) == {}
  {
    forall i: nat | i < 32
      ensures !Test(0, i)
    {
      assert And(0, Mask(i)) == 0;
    }
  }

  lemma CapacityFitsOne(objSize: nat)
    requires 1 <= objSize <= PAGE_SIZE
    ensures Capacity(objSize) > 0
  {
    Quotient(objSize);
  }

  /** Making sure of a partial slab keeps the invariant and every taken slot. */
  lemma WithPartialKeeps(c: Cache, page: nat)
    requires CacheOk(c) && (c.partial == [] ==> FreshPage(c, page))
    ensures CacheOk(WithPartial(c, page))
    ensures forall s :: Among(c, s) ==> Among(WithPartial(c, page), s)
    ensures forall s :: Among(WithPartial(c, page), s) ==> Among(c, s) || (s.mem == page && Bits(s.bitmap) == {})
  {
    if c.partial == [] {
      NewSlabOk(page, c.objSize);
      PagesAbsent(c.full, page);
      var s := NewSlab(page, c.objSize);
      assert Pages([s]) == multiset{page} && Pages([]) == multiset{};
      forall m
        ensures (Pages(c.full) + Pages([s]))[m] <= 1
      {
        assert (Pages(c.full) + Pages(c.partial))[m] == Pages(c.full)[m];
      }
      hide Pages, SlabOk, Bits, Capacity;
    }
  }

  lemma PutFirstKeeps(c: Cache, u: Slab)
    requires CacheOk(c) && c.partial != [] && u.mem == c.partial[0].mem && SlabOk(u, c.objSize)
    ensures CacheOk(PutFirst(c, u)) && Among(PutFirst(c, u), u)
    ensures forall t :: Among(c, t) && t != c.partial[0] ==> Among(PutFirst(c, u), t)
    ensures forall t :: Among(PutFirst(c, u), t) ==> t == u || Among(c, t)
  {
    hide SlabOk, Pages;
    PagesMove(c.full, c.partial, u);
    assert c.partial == [c.partial[0]] + c.partial[1..];
  }

  /** Taking the first free slot of the first partial slab. */
  lemma TakeObjectKeeps(c: Cache, s: Slab, i: nat, a: nat)
    requires CacheOk(c) && c.partial != [] && s == c.partial[0] && i == FirstClear(s.bitmap, 0)
    requires a == s.mem + i * c.objSize
    ensures i < Capacity(c.objSize) <= 32 && i !in Bits(s.bitmap) && Among(c, s)
    ensures TakeObject(c) == (PutFirst(c, TakeBit(s, i)), Some(a))
    ensures CacheOk(PutFirst(c, TakeBit(s, i))) && Taken(PutFirst(c, TakeBit(s, i)), a)
    ensures forall x :: Taken(c, x) ==> Taken(PutFirst(c, TakeBit(s, i)), x)
  {
    hide FirstClear, Bits, TakeBit, SlabOk, CacheOk, PutFirst;
    FirstPartial(c);
    TakeKeeps(s, c.objSize);
    ClearBitBelowCapacity(s, c.objSize);
    var u := TakeBit(s, i);
    SameMem(s, i);
    PutFirstKeeps(c, u);
    var d := PutFirst(c, u);
    SameSize(c, u);
    assert Slot(d, u, i, a);
    forall x | Taken(c, x)
      ensures Taken(d, x)
    {
      var t, j :| Slot(c, t, j, x);
      assert Slot(d, if t == s then u else t, j, x);
    }
  }

  lemma FirstPartial(c: Cache)
    requires CacheOk(c) && c.partial != []
    ensures 1 <= c.objSize <= PAGE_SIZE && SlabOk(c.partial[0], c.objSize) && c.partial[0].objectsFree > 0
    ensures Among(c, c.partial[0])
  {
  }

  lemma SameMem(s: Slab, i: nat)
    requires i < 32
    ensures TakeBit(s, i).mem == s.mem
  {
  }

  lemma SameSize(c: Cache, u: Slab)
    requires c.partial != []
    ensures PutFirst(c, u).objSize == c.objSize
  {
  }

  /** Replacing the first partial slab by one on the same page keeps the pages. */
  lemma PagesMove(full: seq<Slab>, partial: seq<Slab>, u: Slab)
    requires partial != [] && u.mem == partial[0].mem
    ensures Pages([u] + full) + Pages(partial[1..]) == Pages(full) + Pages(partial)
    ensures Pages(full) + Pages([u] + partial[1..]) == Pages(full) + Pages(partial)
  {
    assert ([u] + full)[1..] == full && ([u] + partial[1..])[1..] == partial[1..];
  }

  /** kmem_cache_alloc always finds an object: one that was not taken, in a slab of its
      own page, with every other taken object still taken. */
  lemma AllocKeeps(c: Cache, page: nat)
    requires CacheOk(c) && (c.partial == [] ==> FreshPage(c, page))
    ensures CacheOk(Alloc(c, page).0) && Alloc(c, page).1.Some?
    ensures !Taken(c, Alloc(c, page).1.value) && Taken(Alloc(c, page).0, Alloc(c, page).1.value)
    ensures forall x :: Taken(c, x) ==> Taken(Alloc(c, page).0, x)
    ensures Alloc(c, page).0.objSize == c.objSize
  {
    hide FirstClear, Bits, SlabOk, TakeBit, CacheOk, PutFirst, TakeObject, WithPartial, Capacity, Among;
    PositiveSize(c);
    var w := WithPartial(c, page);
    WithPartialKeeps(c, page);
    var s := w.partial[0];
    var i := FirstClear(s.bitmap, 0);
    var a := s.mem + i * c.objSize;
    TakeObjectKeeps(w, s, i, a);
    SameSize(w, TakeBit(s, i));
    NotTakenYet(c, w, s, i, a);
    StillTaken(c, w);
  }

  lemma StillTaken(c: Cache, w: Cache)
    requires w.objSize == c.objSize && forall t :: Among(c, t) ==> Among(w, t)
    ensures forall x :: Taken(c, x) ==> Taken(w, x)
  {
    forall x | Taken(c, x)
      ensures Taken(w, x)
    {
      var t, j :| Slot(c, t, j, x);
      assert Slot(w, t, j, x);
    }
  }

  /** A clear slot of a slab is not at the address of a taken one. */
  lemma NotTakenYet(c: Cache, w: Cache, s: Slab, i: nat, a: nat)
    requires CacheOk(w) && w.objSize == c.objSize && Among(w, s) && i < Capacity(w.objSize) && i !in Bits(s.bitmap)
    requires a == s.mem + i * c.objSize && forall t :: Among(c, t) ==> Among(w, t)
    ensures !Taken(c, a)
  {
    forall t, j | Slot(c, t, j, a)
      ensures false
    {
      assert Slot(w, t, j, a);
      SlotInPage(w, t, j, a);
      CapacityFits(w.objSize, i);
      SamePage(s.mem, t.mem, a);
      OnePageOneSlab(w, s, t);
      SameSlot(i, j, w.objSize);
    }
  }

  lemma SameSlot(i: nat, j: nat, size: nat)
    requires size > 0 && i * size == j * size
    ensures i == j
  {
  }

  lemma PositiveSize(c: Cache)
    requires CacheOk(c)
    ensures 1 <= c.objSize <= PAGE_SIZE
  {
  }

  // ---------------------------------------------------------------- frees

  lemma SlotIndex(m: nat, i: nat, size: nat)
    requires size > 0
    ensures (m + i * size - m) / size == i
  {
    var x := i * size;
    var e := i - x / size;
    assert e * size == x % size;
    if e >= 1 {
      Grows(1, e, size);
    }
  }

  /** The full slab found for the address of a taken slot is the slab of that slot. */
  lemma FoundSlab(c: Cache, s: Slab, i: nat, a: nat, t: Slab)
    requires CacheOk(c) && Slot(c, s, i, a) && t in c.full && InPage(t, a)
    ensures t == s && SlotAt(t, a, c.objSize) == i && i < 32
  {
    SlotInPage(c, s, i, a);
    SamePage(s.mem, t.mem, a);
    OnePageOneSlab(c, s, t);
    SlotIndex(s.mem, i, c.objSize);
  }

  /** Freeing shifts by less than 32. */
  ghost predicate Freeable(c: Cache, a: nat) {
    c.objSize > 0 && forall s :: s in c.full && InPage(s, a) ==> SlotAt(s, a, c.objSize) < 32
  }

  lemma TakenIsFreeable(c: Cache, a: nat)
    requires CacheOk(c) && Taken(c, a)
    ensures Freeable(c, a)
  {
    var s, i :| Slot(c, s, i, a);
    forall t | t in c.full && InPage(t, a)
      ensures SlotAt(t, a, c.objSize) < 32
    {
      FoundSlab(c, s, i, a, t);
    }
  }

  /** The cache after an object of full slab `k` was given back. */
  function Reopened(c: Cache, k: nat, u: Slab): Cache
    requires k < |c.full|
  {
    c.(full := c.full[..k] + c.full[k + 1..], partial := [u] + c.partial)
  }

  lemma ReopenKeeps(c: Cache, k: nat, u: Slab)
    requires CacheOk(c) && k < |c.full| && u.mem == c.full[k].mem && SlabOk(u, c.objSize) && u.objectsFree > 0
    ensures CacheOk(Reopened(c, k, u)) && Among(Reopened(c, k, u), u)
    ensures forall t :: Among(c, t) && t != c.full[k] ==> Among(Reopened(c, k, u), t)
  {
    hide SlabOk, Pages;
    PagesWithout(c.full, k);
    PagesCons(u, c.partial);
    var d := Reopened(c, k, u);
    assert Pages(d.full) + Pages(d.partial) == Pages(c.full) + Pages(c.partial);
    forall t | t in c.full && t != c.full[k]
      ensures t in d.full
    {
      var j :| 0 <= j < |c.full| && c.full[j] == t;
      assert d.full[if j < k then j else j - 1] == t;
    }
  }

  lemma PagesCons(u: Slab, slabs: seq<Slab>)
    ensures Pages([u] + slabs) == multiset{u.mem} + Pages(slabs)
  {
    assert ([u] + slabs)[1..] == slabs;
  }

  /** kmem_cache_free of a taken object keeps the invariant, and every other taken object
      stays taken. */
  lemma FreeKeeps(c: Cache, a: nat)
    requires CacheOk(c) && Taken(c, a)
    ensures Freeable(c, a)
    ensures CacheOk(Free(c, a)) && Free(c, a).objSize == c.objSize
    ensures forall x :: Taken(c, x) && x != a ==> Taken(Free(c, a), x)
  {
    hide Bits, Capacity, SlabOk, GiveBit, CacheOk;
    PositiveSize(c);
    TakenIsFreeable(c, a);
    var k := FindFull(c.full, a);
    if k < |c.full| {
      var s, i :| Slot(c, s, i, a);
      FoundSlab(c, s, i, a, c.full[k]);
      SlotInPage(c, s, i, a);
      FullSlab(c, k);
      GiveKeeps(s, c.objSize, i);
      GiveMem(s, i);
      var u := GiveBit(s, i);
      ReopenKeeps(c, k, u);
      var d := Free(c, a);
      assert d == Reopened(c, k, u);
      forall x | Taken(c, x) && x != a
        ensures Taken(d, x)
      {
        var t, j :| Slot(c, t, j, x);
        assert Slot(d, if t == s then u else t, j, x);
      }
    }
  }

  /** Slot `i` of a slab `u` of the cache is free: nothing is taken at its address. */
  lemma ClearIsNotTaken(d: Cache, u: Slab, i: nat, a: nat)
    requires CacheOk(d) && Among(d, u) && i !in Bits(u.bitmap) && a == u.mem + i * d.objSize
    requires InPage(u, a) && u.mem % PAGE_SIZE == 0
    ensures !Taken(d, a)
  {
    hide Bits, Capacity, CacheOk;
    PositiveSize(d);
    if Taken(d, a) {
      var t, j :| Slot(d, t, j, a);
      SlotInPage(d, t, j, a);
      SamePage(t.mem, u.mem, a);
      OnePageOneSlab(d, t, u);
      SameSlot(i, j, d.objSize);
    }
  }

  /** Freeing has an effect exactly when the slab of the object was full; otherwise the
      object stays taken. */
  lemma FreeGivesBack(c: Cache, a: nat)
    requires CacheOk(c) && Taken(c, a)
    ensures Freeable(c, a)
    ensures Taken(Free(c, a), a) <==> forall s :: s in c.full ==> !InPage(s, a)
  {
    hide Bits, Capacity, SlabOk, GiveBit, CacheOk;
    FreeKeeps(c, a);
    PositiveSize(c);
    var k := FindFull(c.full, a);
    if k < |c.full| {
      var s, i :| Slot(c, s, i, a);
      FoundSlab(c, s, i, a, c.full[k]);
      SlotInPage(c, s, i, a);
      FullSlab(c, k);
      GiveKeeps(s, c.objSize, i);
      GiveMem(s, i);
      var u := GiveBit(s, i);
      ReopenKeeps(c, k, u);
      assert Free(c, a) == Reopened(c, k, u);
      PageStart(s, c.objSize);
      ClearIsNotTaken(Free(c, a), u, i, a);
    }
  }

  lemma PageStart(s: Slab, objSize: nat)
    requires objSize > 0 && SlabOk(s, objSize)
    ensures s.mem % PAGE_SIZE == 0
  {
  }

  lemma FullSlab(c: Cache, k: nat)
    requires CacheOk(c) && k < |c.full|
    ensures SlabOk(c.full[k], c.objSize) && c.full[k].objectsFree == 0
  {
  }

  lemma GiveMem(s: Slab, i: nat)
    requires i < 32
    ensures GiveBit(s, i).mem == s.mem
  {
  }

  // ---------------------------------------------------------------- runs

  /** Calls: an allocation with the page the frame allocator would give and the address
      returned, or a free of an object the caller holds. */
  datatype Event = Allocate(page: nat, address: nat) | Release(address: nat)

  datatype State = State(cache: Cache, live: set<nat>)

  ghost predicate Step(st: State, e: Event, st': State) {
    match e
    case Allocate(page, a) =>
      && st.cache.objSize > 0 && (st.cache.partial == [] ==> FreshPage(st.cache, page))
      && Alloc(st.cache, page) == (st'.cache, Some(a)) && st'.live == st.live + {a}
    case Release(a) =>
      && a in st.live
      && (Freeable(st.cache, a) ==> st' == State(Free(st.cache, a), st.live - {a}))
  }

  ghost predicate IsRunOf(sts: seq<State>, es: seq<Event>) {
    |sts| == |es| + 1 && forall i :: 0 <= i < |es| ==> Step(sts[i], es[i], sts[i + 1])
  }

  /** Every object held by a caller is taken. */
  ghost predicate Safe(st: State) {
    CacheOk(st.cache) && forall a :: a in st.live ==> Taken(st.cache, a)
  }

  /** A step keeps the state safe, and an allocation never returns an object in use. */
  lemma StepSafe(st: State, e: Event, st': State)
    requires Safe(st) && Step(st, e, st')
    ensures Safe(st') && st'.cache.objSize == st.cache.objSize
    ensures e.Allocate? ==> e.address !in st.live
  {
    hide CacheOk, Taken, Alloc, Free, FreshPage, Freeable;
    match e
    case Allocate(page, a) => AllocKeeps(st.cache, page);
    case Release(a) => FreeKeeps(st.cache, a);
  }

  lemma {:induction false} RunSafe(sts: seq<State>, es: seq<Event>, objSize: nat, n: nat)
    requires 1 <= objSize <= PAGE_SIZE && IsRunOf(sts, es) && n <= |es|
    requires sts[0] == State(Cache(objSize, [], [], []), {})
    ensures Safe(sts[n]) && sts[n].cache.objSize == objSize
    ensures forall i :: 0 <= i < n && es[i].Allocate? ==> es[i].address !in sts[i].live
  {
    hide Step, CacheOk, Taken;
    if n == 0 {
      EmptyOk(objSize);
    } else {
      RunSafe(sts, es, objSize, n - 1);
      StepSafe(sts[n - 1], es[n - 1], sts[n]);
    }
  }

  lemma EmptyOk(objSize: nat)
    requires 1 <= objSize <= PAGE_SIZE
    ensures CacheOk(Cache(objSize, [], [], []))
  {
  }

  /** Over every run of a cache for objects of 1 to 4096 bytes: each object in use lies
      inside one page, and no two of them overlap. */
  lemma ObjectsDisjoint(sts: seq<State>, es: seq<Event>, objSize: nat, a: nat, b: nat)
    requires 1 <= objSize <= PAGE_SIZE && IsRunOf(sts, es)
    requires sts[0] == State(Cache(objSize, [], [], []), {})
    requires a in sts[|es|].live && b in sts[|es|].live && a != b
    ensures a / PAGE_SIZE == (a + objSize - 1) / PAGE_SIZE
    ensures a + objSize <= b || b + objSize <= a
  {
    hide Step, CacheOk, Slot;
    RunSafe(sts, es, objSize, |es|);
    SlotsApart(sts[|es|].cache, a, b);
  }

  lemma SlotsApart(c: Cache, a: nat, b: nat)
    requires CacheOk(c) && Taken(c, a) && Taken(c, b) && a != b
    ensures a / PAGE_SIZE == (a + c.objSize - 1) / PAGE_SIZE
    ensures a + c.objSize <= b || b + c.objSize <= a
  {
    hide CacheOk, Bits, Capacity;
    PositiveSize(c);
    var s, i :| Slot(c, s, i, a);
    var t, j :| Slot(c, t, j, b);
    SlotInPage(c, s, i, a);
    SlotInPage(c, t, j, b);
    WithinPage(s.mem, a, c.objSize);
    if s.mem == t.mem {
      Apart(i, j, c.objSize);
    } else {
      PagesApart(s.mem, t.mem);
    }
  }

  lemma WithinPage(m: nat, a: nat, size: nat)
    requires m % PAGE_SIZE == 0 && m <= a && a + size <= m + PAGE_SIZE && size > 0
    ensures a / PAGE_SIZE == (a + size - 1) / PAGE_SIZE
  {
  }

  lemma PagesApart(m: nat, n: nat)
    requires m % PAGE_SIZE == 0 && n % PAGE_SIZE == 0 && m != n
    ensures m + PAGE_SIZE <= n || n + PAGE_SIZE <= m
  {
  }

  lemma Apart(i: nat, j: nat, size: nat)
    requires i * size != j * size
    ensures i * size + size <= j * size || j * size + size <= i * size
  {
    if i < j {
      Grows(i + 1, j, size);
    } else if j < i {
      Grows(j + 1, i, size);
    }
  }

  /** The first object of a fresh cache for two objects a page is not given back. */
  lemma FirstFreeIsLost(page: nat)
    requires page % PAGE_SIZE == 0
    ensures var (c, a) := Alloc(Cache(2048, [], [], []), page);
      a.Some? && Taken(c, a.value) && Freeable(c, a.value) && Taken(Free(c, a.value), a.value)
  {
    var empty := Cache(2048, [], [], []);
    EmptyOk(2048);
    AllocKeeps(empty, page);
    var (c, a) := Alloc(empty, page);
    assert c.full == [];
    FreeGivesBack(c, a.value);
  }
}
