/** Runs of vmm_map calls and of other calls of the frame allocator: the page tables agree
    with a flat map that every call updates, and the other components that share the
    allocator keep what they rely on. */
module MappingRuns {
  import opened Basics
  import opened Paging
  import opened PagingRange
  import opened VirtualMemory
  import F = Frames
  import PM = PhysicalMemory
  import SA = SlabAllocator

  /** Mapping `n` pages from page `v0` on, or any call of the allocator. */
  datatype Call = Enter(v0: nat, n: nat, physical: nat, flags: nat) | Memory(event: F.Event)

  /** Callers give back no page that holds a table. */
  ghost predicate Step(s: Space, m: F.Frames, c: Call, s': Space, m': F.Frames) {
    match c
    case Enter(v0, n, physical, flags) =>
      Range(v0, n, physical, flags) && MapStep(s, m, v0, n, physical, flags, s', m')
    case Memory(e) =>
      && s' == s && F.Step(m, e, m')
      && forall i :: i in F.Released(e, m.base) && Words(s) ==> !HoldsTable(s, Address(m, i))
  }

  ghost predicate IsRunOf(ss: seq<Space>, ms: seq<F.Frames>, cs: seq<Call>) {
    && |ss| == |cs| + 1 && |ms| == |cs| + 1
    && forall i {:trigger cs[i]} :: 0 <= i < |cs| ==> Step(ss[i], ms[i], cs[i], ss[i + 1], ms[i + 1])
  }

  /** There are pages for all tables the call has to make, counting frame 0 once. */
  ghost predicate Served(s: Space, m: F.Frames, c: Call) {
    c.Enter? ==> Words(s) && Fits(s, c.v0, c.n, |AvailablePages(m)|)
  }

  /** A flat map from pages to mappings, updated by a call. */
  ghost function FlatStep(flat: nat -> Option<Mapping>, c: Call): nat -> Option<Mapping> {
    match c
    case Enter(v0, n, physical, flags) => (v: nat) => if v0 <= v < v0 + n then Target(physical, flags, v - v0) else flat(v)
    case Memory(_) => flat
  }

  ghost function Flat(flat: nat -> Option<Mapping>, cs: seq<Call>): nat -> Option<Mapping> {
    if cs == [] then flat else FlatStep(Flat(flat, cs[..|cs| - 1]), cs[|cs| - 1])
  }

  /** The page tables translate as the flat map does. */
  ghost predicate Agrees(s: Space, flat: nat -> Option<Mapping>)
    requires Words(s)
  {
    forall v :: 0 <= v < WINDOW ==> Translate(s, v) == flat(v)
  }

  lemma StillAvailable(s: Space, m: F.Frames, e: F.Event, m': F.Frames)
    requires Words(s) && TablesReserved(s, m) && Step(s, m, Memory(e), s, m')
    ensures TablesReserved(s, m')
  {
    hide HoldsTable, F.Step, F.Released;
    forall i | i in AvailablePages(m')
      ensures m'.base == m.base && !HoldsTable(s, Address(m', i))
    {
      F.StepAvailable(m, e, m', i);
      assert F.Available(m, i) ==> i in AvailablePages(m);
      assert Address(m', i) == Address(m, i);
    }
    SameBase(m, e, m');
  }

  lemma SameBase(m: F.Frames, e: F.Event, m': F.Frames)
    requires F.Step(m, e, m')
    ensures m'.base == m.base
  {
  }

  /** One call keeps tables sound and reserved, and the flat map in step. */
  lemma StepAgrees(s: Space, m: F.Frames, c: Call, s': Space, m': F.Frames, flat: nat -> Option<Mapping>)
    requires WellFormed(s) && TablesReserved(s, m) && Step(s, m, c, s', m') && Served(s, m, c) && Agrees(s, flat)
    ensures WellFormed(s') && TablesReserved(s', m') && Agrees(s', FlatStep(flat, c))
  {
    hide WellFormedBut, TablesReserved, MapStep, Translate, Missing, F.Step;
    WellFormedWords(s);
    match c
    case Enter(v0, n, physical, flags) =>
      MapOutcome(s, m, v0, n, physical, flags, s', m');
      MapLeaves(s, m, v0, n, physical, flags, s', m');
    case Memory(e) =>
      StillAvailable(s, m, e, m');
  }

  /** Over every run of vmm_map calls, with any other calls of the allocator between them that
      give back no page table, and with pages for the tables each call has to make: every
      page translates as in the flat map updated call by call. */
  lemma {:induction false} TablesAreAFlatMap(ss: seq<Space>, ms: seq<F.Frames>, cs: seq<Call>, k: nat,
                                             flat: nat -> Option<Mapping>)
    requires IsRunOf(ss, ms, cs) && k <= |cs|
    requires WellFormed(ss[0]) && TablesReserved(ss[0], ms[0]) && Agrees(ss[0], flat)
    requires forall i :: 0 <= i < |cs| ==> Served(ss[i], ms[i], cs[i])
    ensures WellFormed(ss[k]) && TablesReserved(ss[k], ms[k]) && Agrees(ss[k], Flat(flat, cs[..k]))
  {
    hide WellFormedBut, TablesReserved, Step, Served, Agrees, FlatStep;
    if k > 0 {
      TablesAreAFlatMap(ss, ms, cs, k - 1, flat);
      assert Step(ss[k - 1], ms[k - 1], cs[k - 1], ss[k], ms[k]) && Served(ss[k - 1], ms[k - 1], cs[k - 1]);
      StepAgrees(ss[k - 1], ms[k - 1], cs[k - 1], ss[k], ms[k], Flat(flat, cs[..k - 1]));
      assert cs[..k][..k - 1] == cs[..k - 1];
    }
  }

  // ---------------------------------------------------------------- one allocator for all

  lemma FewerAvailable(s: Space, m: F.Frames, m': F.Frames)
    requires Words(s) && TablesReserved(s, m) && F.Grows(m, m')
    ensures TablesReserved(s, m') && AvailablePages(m') <= AvailablePages(m) && m'.base == m.base
  {
    hide HoldsTable;
    forall i | i in AvailablePages(m')
      ensures i in AvailablePages(m) && !HoldsTable(s, Address(m', i))
    {
      assert i in AvailablePages(m) && Address(m', i) == Address(m, i);
    }
  }

  /** Mapping a range beside a slab cache: every slab keeps its page. */
  method MapBeside(vm: Vmm, kc: SA.KmemCache, virtual: nat, physical: nat, size: nat, flags: nat)
    requires vm.mm == kc.mm && kc.Valid()
    requires vm.Ready() && TablesReserved(vm.Contents(), vm.mm.Contents()) && WellFormed(vm.Contents())
    requires virtual + size <= WINDOW * PAGE_SIZE
    requires physical < TWO32 && physical % PAGE_SIZE == 0 && flags < PAGE_SIZE
    modifies vm`ram, vm.mm`nextFree, vm.mm.bitmap
    ensures kc.Valid() && kc.Contents() == old(kc.Contents())
    ensures vm.Ready() && TablesReserved(vm.Contents(), vm.mm.Contents())
    ensures F.Allocates(old(vm.mm.Contents()), vm.mm.Contents())
  {
    hide WellFormed, TablesReserved, F.Allocates, SA.PagesUsed, MapStep, Fits, Succeeds, Mapped, PM.Marked;
    vm.Map(virtual, physical, size, flags);
    SA.AllUsedGrows(kc.Contents(), old(vm.mm.Contents()), vm.mm.Contents());
  }

  /** Allocating an object beside page tables: the tables stay reserved, and a new slab is
      not put on one. */
  method AllocBeside(vm: Vmm, kc: SA.KmemCache) returns (r: SA.Result, ghost page: nat)
    requires vm.mm == kc.mm && kc.Valid()
    requires vm.Ready() && TablesReserved(vm.Contents(), vm.mm.Contents()) && WellFormed(vm.Contents())
    modifies kc, vm.mm`nextFree, vm.mm.bitmap
    ensures kc.Valid()
    ensures vm.Contents() == old(vm.Contents()) && WellFormed(vm.Contents())
    ensures vm.Ready() && TablesReserved(vm.Contents(), vm.mm.Contents())
    ensures F.Allocates(old(vm.mm.Contents()), vm.mm.Contents())
    ensures !r.NullDereference? && old(kc.partial) == [] && old(kc.free) == [] ==> !HoldsTable(vm.Contents(), page)
  {
    hide WellFormedBut, HoldsTable, F.Allocates, SA.PagesUsed, PM.Marked;
    r, page := kc.Alloc();
    FewerAvailable(vm.Contents(), old(vm.mm.Contents()), vm.mm.Contents());
    if SA.OnFirstFit(old(vm.mm.Contents()), page) {
      NoTableThere(vm.Contents(), old(vm.mm.Contents()), page);
    }
  }

  lemma NoTableThere(s: Space, m: F.Frames, page: nat)
    requires Words(s) && TablesReserved(s, m) && SA.OnFirstFit(m, page)
    ensures !HoldsTable(s, page)
  {
    hide HoldsTable;
    var i: nat :| F.FirstFit(m, i) && page == i * PAGE_SIZE + m.base;
    assert i in AvailablePages(m) && page == Address(m, i);
  }
}
