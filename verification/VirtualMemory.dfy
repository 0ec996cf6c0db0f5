/** vmm_map of arch/x86/vmm.c: the loop that enters a range of pages into the page
    tables, allocating tables from the frame allocator on the way.  Directory and tables
    are read and written through the recursive window, as the kernel does. */
module VirtualMemory {
  import opened Basics
  import opened Paging
  import opened PagingRange
  import opened PagingAccess
  import F = Frames
  import PM = PhysicalMemory

  ghost function AvailablePages(m: F.Frames): set<nat> {
    set i | 0 <= i < m.total && F.Available(m, i)
  }

  ghost function Address(m: F.Frames, i: nat): nat {
    i * PAGE_SIZE + m.base
  }

  /** No available page holds the directory or a page table, and frame 0 is not the
      directory. */
  ghost predicate TablesReserved(s: Space, m: F.Frames)
    requires Words(s)
  {
    && m.base % PAGE_SIZE == 0 && m.base > 0 && s.pd != 0
    && forall i :: i in AvailablePages(m) ==> !HoldsTable(s, Address(m, i))
  }

  /** The address pmm_alloc_frame returns; 0 for no page. */
  ghost function FrameFor(m: F.Frames, page: Option<nat>): nat {
    if page.None? then 0 else Address(m, page.value)
  }

  function Addresses(base: nat, pages: seq<nat>): (r: seq<nat>)
    ensures |r| == |pages|
    ensures forall j :: 0 <= j < |r| ==> r[j] == pages[j] * PAGE_SIZE + base
  {
    seq(|pages|, j requires 0 <= j < |pages| => pages[j] * PAGE_SIZE + base)
  }

  /** The pages taken so far from the allocator that was in state `m0`. */
  ghost predicate Taken(m0: F.Frames, m: F.Frames, pages: seq<nat>) {
    && m.base == m0.base && m.total == m0.total
    && AvailablePages(m) <= AvailablePages(m0)
    && |AvailablePages(m)| + |pages| == |AvailablePages(m0)|
    && (forall j :: 0 <= j < |pages| ==> pages[j] in AvailablePages(m0) && pages[j] !in AvailablePages(m))
    && (forall i, j :: 0 <= i < j < |pages| ==> pages[i] != pages[j])
  }

  lemma TakenIsFresh(s: Space, m0: F.Frames, m: F.Frames, pages: seq<nat>)
    requires Words(s) && TablesReserved(s, m0) && Taken(m0, m, pages)
    ensures Fresh(s, Addresses(m0.base, pages))
  {
    hide AvailablePages, HoldsTable;
    var got := Addresses(m0.base, pages);
    forall j | 0 <= j < |got|
      ensures got[j] % PAGE_SIZE == 0 && got[j] != 0 && !HoldsTable(s, got[j])
    {
      assert got[j] == Address(m0, pages[j]);
    }
  }

  lemma TakeOne(m0: F.Frames, m: F.Frames, pages: seq<nat>, i: nat, m': F.Frames)
    requires Taken(m0, m, pages) && F.AllocFrameStep(m, Some(i), m')
    ensures AvailablePages(m) != {} && m'.base == m0.base
    ensures Taken(m0, m', pages + [i])
  {
    assert i in AvailablePages(m);
    assert AvailablePages(m') == AvailablePages(m) - {i};
  }

  /** A round uses its frame only when the table is missing. */
  lemma SameRound(p: Progress, v: nat, entry: nat, got: seq<nat>, f: nat)
    requires Usable(p.space, v, Supply(got, |p.tables|)) && Usable(p.space, v, Supply(got + [f], |p.tables|))
    requires |Round(p, v, entry, Supply(got, |p.tables|)).tables| <= |got|
    ensures |p.tables| <= |got|
    ensures Round(p, v, entry, Supply(got + [f], |p.tables|)) == Round(p, v, entry, Supply(got, |p.tables|))
  {
  }

  /** Frames past the ones used so far do not matter. */
  lemma {:induction false} MoreSupply(s: Space, v0: nat, k: nat, physical: nat, flags: nat, got: seq<nat>, f: nat)
    requires WellFormed(s) && Fresh(s, got + [f]) && Fresh(s, got) && Range(v0, k, physical, flags)
    requires |MapRange(s, v0, k, physical, flags, got).tables| <= |got|
    ensures MapRange(s, v0, k, physical, flags, got + [f]) == MapRange(s, v0, k, physical, flags, got)
  {
    hide WellFormed, Fresh, Tracks, Round, Usable, Supply;
    if k > 0 {
      var p := MapRange(s, v0, k - 1, physical, flags, got);
      var entry := (physical + (k - 1) * PAGE_SIZE) % TWO32 + flags;
      RangeTracks(s, v0, k - 1, physical, flags, got);
      RoundTracks(s, v0, k - 1, got, p, entry);
      if |p.tables| <= |got| {
        MoreSupply(s, v0, k - 1, physical, flags, got, f);
        RangeTracks(s, v0, k - 1, physical, flags, got + [f]);
        RoundTracks(s, v0, k - 1, got + [f], p, entry);
        SameRound(p, v0 + k - 1, entry, got, f);
      } else {
        FewerTables(p, v0 + k - 1, entry, Supply(got, |p.tables|));
      }
    }
  }

  lemma FewerTables(p: Progress, v: nat, entry: nat, frame: nat)
    requires Usable(p.space, v, frame)
    ensures |p.tables| <= |Round(p, v, entry, frame).tables|
  {
  }

  /** The state of the loop after `k` rounds that took `pages` from the allocator. */
  ghost predicate Loop(s0: Space, m0: F.Frames, v0: nat, k: nat, physical: nat, flags: nat,
                       pages: seq<nat>, s: Space, m: F.Frames)
  {
    var p := MapRange(s0, v0, k, physical, flags, Addresses(m0.base, pages));
    && F.Allocates(m0, m) && Taken(m0, m, pages) && s == p.space
    && |pages| <= |p.tables| && (|p.tables| == |pages| || AvailablePages(m) == {})
  }

  lemma LoopStart(s0: Space, m0: F.Frames, v0: nat, physical: nat, flags: nat)
    ensures Loop(s0, m0, v0, 0, physical, flags, [], s0, m0)
  {
    F.NoAllocation(m0);
  }

  ghost predicate Start(s0: Space, m0: F.Frames, v0: nat, n: nat, physical: nat, flags: nat) {
    WellFormed(s0) && TablesReserved(s0, m0) && Range(v0, n, physical, flags)
  }

  /** The facts about one round that the cases below share. */
  lemma NextRound(s0: Space, m0: F.Frames, m: F.Frames, v0: nat, k: nat, physical: nat, flags: nat, pages: seq<nat>)
    requires Start(s0, m0, v0, k + 1, physical, flags) && Taken(m0, m, pages)
    ensures var got := Addresses(m0.base, pages);
      var p := MapRange(s0, v0, k, physical, flags, got);
      var frame := Supply(got, |p.tables|);
      && Fresh(s0, got)
      && Usable(p.space, v0 + k, frame)
      && MapRange(s0, v0, k + 1, physical, flags, got) ==
           Round(p, v0 + k, (physical + k * PAGE_SIZE) % TWO32 + flags, frame)
  {
    TakenIsFresh(s0, m0, m, pages);
    hide WellFormed, Fresh, TablesReserved, Taken, Tracks, Usable, Round, Addresses;
    var got := Addresses(m0.base, pages);
    RangeTracks(s0, v0, k, physical, flags, got);
    RoundTracks(s0, v0, k, got, MapRange(s0, v0, k, physical, flags, got), (physical + k * PAGE_SIZE) % TWO32 + flags);
  }

  lemma LoopNoFrame(s0: Space, m0: F.Frames, v0: nat, k: nat, physical: nat, flags: nat,
                    pages: seq<nat>, s: Space, m: F.Frames)
    requires Start(s0, m0, v0, k + 1, physical, flags) && Loop(s0, m0, v0, k, physical, flags, pages, s, m)
    requires Words(s) && (Present(Pde(s, (v0 + k) / 1024)) || AvailablePages(m) == {})
    ensures Usable(s, v0 + k, 0)
    ensures Loop(s0, m0, v0, k + 1, physical, flags, pages,
                 MapPage(s, v0 + k, (physical + k * PAGE_SIZE) % TWO32 + flags, 0), m)
  {
    hide Start, AvailablePages, Taken, F.Allocates;
    NextRound(s0, m0, m, v0, k, physical, flags, pages);
  }

  lemma LoopFrame(s0: Space, m0: F.Frames, v0: nat, k: nat, physical: nat, flags: nat,
                  pages: seq<nat>, s: Space, m: F.Frames, i: nat, m': F.Frames)
    requires Start(s0, m0, v0, k + 1, physical, flags) && Loop(s0, m0, v0, k, physical, flags, pages, s, m)
    requires Words(s) && !Present(Pde(s, (v0 + k) / 1024)) && F.AllocFrameStep(m, Some(i), m')
    ensures Usable(s, v0 + k, Address(m', i))
    ensures Loop(s0, m0, v0, k + 1, physical, flags, pages + [i],
                 MapPage(s, v0 + k, (physical + k * PAGE_SIZE) % TWO32 + flags, Address(m', i)), m')
  {
    hide Start, WellFormed, Fresh, AvailablePages, Taken, MapPage, MapRange, F.AllocFrameStep, Usable, F.Allocates;
    F.OneMoreAllocation(m0, m, F.AllocFrame(Some(i)), m');
    TakeOne(m0, m, pages, i, m');
    StartShorter(s0, m0, v0, k, physical, flags);
    NextRound(s0, m0, m, v0, k, physical, flags, pages);
    NextRound(s0, m0, m', v0, k, physical, flags, pages + [i]);
    var got := Addresses(m0.base, pages);
    assert Addresses(m0.base, pages + [i]) == got + [Address(m', i)];
    MoreSupply(s0, v0, k, physical, flags, got, Address(m', i));
  }

  lemma StartShorter(s0: Space, m0: F.Frames, v0: nat, k: nat, physical: nat, flags: nat)
    requires Start(s0, m0, v0, k + 1, physical, flags)
    ensures WellFormed(s0) && Range(v0, k, physical, flags)
  {
  }

  lemma LoopRound(s0: Space, m0: F.Frames, v0: nat, k: nat, physical: nat, flags: nat,
                  pages: seq<nat>, s: Space, m: F.Frames, page: Option<nat>, m': F.Frames)
    returns (more: seq<nat>)
    requires Start(s0, m0, v0, k + 1, physical, flags) && Loop(s0, m0, v0, k, physical, flags, pages, s, m)
    requires Words(s)
    requires if Present(Pde(s, (v0 + k) / 1024)) then page.None? && m' == m else F.AllocFrameStep(m, page, m')
    ensures Usable(s, v0 + k, FrameFor(m', page))
    ensures Loop(s0, m0, v0, k + 1, physical, flags, more,
                 MapPage(s, v0 + k, (physical + k * PAGE_SIZE) % TWO32 + flags, FrameFor(m', page)), m')
  {
    hide WellFormed, TablesReserved, Loop, Usable, MapPage;
    if page.Some? {
      LoopFrame(s0, m0, v0, k, physical, flags, pages, s, m, page.value, m');
      more := pages + [page.value];
    } else {
      assert Present(Pde(s, (v0 + k) / 1024)) || AvailablePages(m) == {};
      LoopNoFrame(s0, m0, v0, k, physical, flags, pages, s, m);
      more := pages;
    }
  }

  function PagesOf(size: nat): nat {
    (size + PAGE_SIZE - 1) / PAGE_SIZE
  }

  /** `n` pages of `size` bytes from `virtual` on: the loop runs `n` times, below the window. */
  lemma Rounds(virtual: nat, size: nat, k: nat)
    requires virtual + size <= WINDOW * PAGE_SIZE
    ensures var n := PagesOf(size);
      && (k <= n ==> (virtual + k * PAGE_SIZE < virtual + size <==> k < n))
      && (virtual + k * PAGE_SIZE) / PAGE_SIZE == virtual / PAGE_SIZE + k
      && virtual / PAGE_SIZE + n <= WINDOW
  {
  }

  lemma NextPhysical(physical: nat, k: nat)
    ensures ((physical + k * PAGE_SIZE) % TWO32 + PAGE_SIZE) % TWO32 == (physical + (k + 1) * PAGE_SIZE) % TWO32
  {
  }

  lemma SoundWords(s: Space)
    requires Sound(s)
    ensures Words(s)
  {
  }

  /** A call of vmm_map for `n` pages, tables and allocator before and after. */
  ghost predicate MapStep(s: Space, m: F.Frames, v0: nat, n: nat, physical: nat, flags: nat, s': Space, m': F.Frames) {
    exists pages :: Loop(s, m, v0, n, physical, flags, pages, s', m')
  }

  /** The tables made, and the pages taken for them. */
  lemma LoopCounts(s0: Space, m0: F.Frames, v0: nat, n: nat, physical: nat, flags: nat,
                   pages: seq<nat>, s: Space, m: F.Frames)
    requires Start(s0, m0, v0, n, physical, flags)
    requires Loop(s0, m0, v0, n, physical, flags, pages, s, m)
    ensures Words(s0) && Words(s) && Fresh(s0, Addresses(m0.base, pages))
    ensures var p := MapRange(s0, v0, n, physical, flags, Addresses(m0.base, pages));
      && Tracks(s0, v0, n, Addresses(m0.base, pages), p) && |Missing(s0, v0, n)| == |p.tables|
    ensures |pages| == if |Missing(s0, v0, n)| <= |AvailablePages(m0)| then |Missing(s0, v0, n)| else |AvailablePages(m0)|
    ensures |AvailablePages(m)| == |AvailablePages(m0)| - |pages|
  {
    hide WellFormed, Fresh, MapRange, Missing, AvailablePages, TablesReserved, F.Allocates;
    var got := Addresses(m0.base, pages);
    WellFormedWords(s0);
    TakenIsFresh(s0, m0, m, pages);
    RangeTracks(s0, v0, n, physical, flags, got);
    TracksSize(s0, v0, n, got, MapRange(s0, v0, n, physical, flags, got));
    if AvailablePages(m) == {} {
      assert |AvailablePages(m)| == 0;
    }
  }

  /** What a call does to the mapping: the pages available decide whether it is as asked. */
  lemma MapOutcome(s: Space, m: F.Frames, v0: nat, n: nat, physical: nat, flags: nat, s': Space, m': F.Frames)
    requires Start(s, m, v0, n, physical, flags) && MapStep(s, m, v0, n, physical, flags, s', m')
    ensures Words(s) && Words(s')
    ensures Fits(s, v0, n, |AvailablePages(m)|) ==> WellFormed(s')
    ensures Mapped(s, s', v0, n, physical, flags) <==> Succeeds(s, v0, n, physical, flags, |AvailablePages(m)|)
  {
    hide WellFormed, Fresh, MapRange, Mapped, Missing, AvailablePages, TablesReserved, F.Allocates, Tracks, Taken, Coincides,
      HoldsTable, NothingToLose;
    var pages :| Loop(s, m, v0, n, physical, flags, pages, s', m');
    LoopCounts(s, m, v0, n, physical, flags, pages, s', m');
    MapExact(s, v0, n, physical, flags, Addresses(m.base, pages));
  }

  /** A frame holds a table after the loop if it did before, or if it was made one. */
  lemma MadeTables(s0: Space, m0: F.Frames, v0: nat, n: nat, physical: nat, flags: nat,
                   pages: seq<nat>, s: Space, m: F.Frames, f: nat)
    requires Start(s0, m0, v0, n, physical, flags)
    requires Loop(s0, m0, v0, n, physical, flags, pages, s, m)
    ensures Words(s0) && Words(s)
    ensures HoldsTable(s, f) <==>
              || HoldsTable(s0, f)
              || (exists j :: 0 <= j < |pages| && Addresses(m0.base, pages)[j] == f)
              || (f == 0 && |pages| < |Missing(s0, v0, n)|)
  {
    hide WellFormed, Fresh, MapRange, Missing, AvailablePages, TablesReserved, Taken, F.Allocates, HoldsTable, Tracks;
    var got := Addresses(m0.base, pages);
    var p := MapRange(s0, v0, n, physical, flags, got);
    LoopCounts(s0, m0, v0, n, physical, flags, pages, s, m);
    TablesNow(s0, v0, n, got, p, f);
    if |p.tables| > |pages| {
      assert Supply(got, |pages|) == 0;
    }
    if j :| 0 <= j < |pages| && got[j] == f {
      assert Supply(got, j) == f;
    }
  }

  lemma StillReserved(s0: Space, m0: F.Frames, v0: nat, n: nat, physical: nat, flags: nat,
                      pages: seq<nat>, s: Space, m: F.Frames, i: nat)
    requires Start(s0, m0, v0, n, physical, flags)
    requires Loop(s0, m0, v0, n, physical, flags, pages, s, m) && i in AvailablePages(m)
    ensures Words(s) && !HoldsTable(s, Address(m, i))
  {
    hide WellFormed, MapRange, Missing, AvailablePages, F.Allocates, HoldsTable;
    MadeTables(s0, m0, v0, n, physical, flags, pages, s, m, Address(m, i));
    assert forall j :: 0 <= j < |pages| ==> pages[j] != i;
  }

  /** Where the range is mapped as asked, every address grants what was asked. */
  lemma MapGrants(s: Space, m: F.Frames, virtual: nat, n: nat, physical: nat, size: nat, flags: nat, s': Space, m': F.Frames)
    requires Start(s, m, virtual / PAGE_SIZE, n, physical, flags) && n == PagesOf(size)
    requires MapStep(s, m, virtual / PAGE_SIZE, n, physical, flags, s', m')
    ensures Words(s) && Words(s')
    ensures Mapped(s, s', virtual / PAGE_SIZE, n, physical, flags) ==> Grants(s, s', virtual, physical, size, flags)
  {
    hide WellFormed, Fresh, MapRange, Mapped, Missing, AvailablePages, TablesReserved, F.Allocates, Tracks, Taken, Grants;
    var v0 := virtual / PAGE_SIZE;
    var pages :| Loop(s, m, v0, n, physical, flags, pages, s', m');
    var got := Addresses(m.base, pages);
    LoopCounts(s, m, v0, n, physical, flags, pages, s', m');
    TracksEntries(s, v0, n, got, MapRange(s, v0, n, physical, flags, got));
    if Mapped(s, s', v0, n, physical, flags) {
      MappedGrants(s, s', virtual, n, physical, size, flags);
    }
  }

  /** Whatever the outcome, the pages still available hold no table, the pages taken are as
      many as tables were missing, or all there were, and frame 0 is a table from then on
      exactly when these were too few. */
  lemma MapLeaves(s: Space, m: F.Frames, v0: nat, n: nat, physical: nat, flags: nat, s': Space, m': F.Frames)
    requires Start(s, m, v0, n, physical, flags) && MapStep(s, m, v0, n, physical, flags, s', m')
    ensures Words(s) && Words(s') && TablesReserved(s', m')
    ensures HoldsTable(s', 0) <==> HoldsTable(s, 0) || |Missing(s, v0, n)| > |AvailablePages(m)|
    ensures |AvailablePages(m')| ==
      if |Missing(s, v0, n)| <= |AvailablePages(m)| then |AvailablePages(m)| - |Missing(s, v0, n)| else 0
    ensures F.Allocates(m, m')
  {
    hide WellFormed, Fresh, Missing, AvailablePages, F.Allocates, HoldsTable, MapRange, Tracks, Range;
    var pages :| Loop(s, m, v0, n, physical, flags, pages, s', m');
    LoopCounts(s, m, v0, n, physical, flags, pages, s', m');
    SameDirectory(s, m, v0, n, physical, flags, pages, s', m');
    MadeTables(s, m, v0, n, physical, flags, pages, s', m', 0);
    forall i | i in AvailablePages(m')
      ensures !HoldsTable(s', Address(m', i))
    {
      StillReserved(s, m, v0, n, physical, flags, pages, s', m', i);
    }
  }

  lemma SameDirectory(s0: Space, m0: F.Frames, v0: nat, n: nat, physical: nat, flags: nat,
                      pages: seq<nat>, s: Space, m: F.Frames)
    requires Start(s0, m0, v0, n, physical, flags)
    requires Loop(s0, m0, v0, n, physical, flags, pages, s, m)
    ensures s.pd == s0.pd && m.base == m0.base
  {
    hide WellFormed, MapRange, Missing, AvailablePages, F.Allocates, HoldsTable;
    LoopCounts(s0, m0, v0, n, physical, flags, pages, s, m);
  }

  class Vmm {
    const mm: PM.MemoryManager
    const pd: nat
    var ram: map<nat, Table>

    constructor (mm: PM.MemoryManager, pd: nat, ram: map<nat, Table>)
      ensures this.mm == mm && Contents() == Space(pd, ram)
    {
      this.mm, this.pd, this.ram := mm, pd, ram;
    }

    function Contents(): Space
      reads this
    {
      Space(pd, ram)
    }

    /** Reads the word at a virtual address. */
    method Load(address: nat) returns (word: nat)
      requires Words(Contents()) && address < TWO32
      requires Translate(Contents(), address / PAGE_SIZE).Some?
      requires Translate(Contents(), address / PAGE_SIZE).value.frame in ram
      ensures word == ram[Translate(Contents(), address / PAGE_SIZE).value.frame][address % PAGE_SIZE / 4]
    {
      word := ram[Translate(Contents(), address / PAGE_SIZE).value.frame][address % PAGE_SIZE / 4];
    }

    /** Writes the word at a virtual address. */
    method Store(address: nat, value: nat)
      requires Words(Contents()) && address < TWO32
      requires Translate(Contents(), address / PAGE_SIZE).Some?
      requires Translate(Contents(), address / PAGE_SIZE).value.frame in ram
      modifies this`ram
      ensures var frame := Translate(old(Contents()), address / PAGE_SIZE).value.frame;
              Contents() == StoreWord(old(Contents()), frame, address % PAGE_SIZE / 4, value)
    {
      var frame := Translate(Contents(), address / PAGE_SIZE).value.frame;
      var words: Table := ram[frame][address % PAGE_SIZE / 4 := value];
      ram := ram[frame := words];
    }

    /** Clears the page at a virtual address. */
    method ClearPage(address: nat)
      requires Words(Contents()) && address < TWO32
      requires Translate(Contents(), address / PAGE_SIZE).Some?
      modifies this`ram
      ensures var frame := Translate(old(Contents()), address / PAGE_SIZE).value.frame;
              Contents() == ZeroFrame(old(Contents()), frame)
    {
      var frame := Translate(Contents(), address / PAGE_SIZE).value.frame;
      ram := ram[frame := Zeros()];
    }

    /** Enters a new table for a directory entry and clears it through the window. */
    method CreateTable(pdIndex: nat, frame: nat)
      requires Sound(Contents()) && pdIndex < 1023 && !Present(Pde(Contents(), pdIndex))
      requires frame % PAGE_SIZE == 0 && frame != pd
      modifies this`ram
      ensures Contents() == AddTable(old(Contents()), pdIndex, frame)
    {
      EntryParts(frame, TABLE_FLAGS);
      RecursiveWindow(Contents(), 1023);
      Store(0xFFFFF000 + 4 * pdIndex, frame + TABLE_FLAGS);
      RecursiveWindow(Contents(), pdIndex);
      ClearPage(0xFFC00000 + pdIndex * 4096);
    }

    /** Directory and tables are sound, and nothing the allocator may hand out is the
        directory. */
    ghost predicate Ready()
      reads this, mm, mm.bitmap, mm.protection
    {
      && mm.Valid() && mm.initialized && mm.physLimitStart % PAGE_SIZE == 0
      && Sound(Contents()) && pd != 0
      && forall i :: i in AvailablePages(mm.Contents()) ==> Address(mm.Contents(), i) != pd
    }

    /** A frame for a table; 0 when the allocator has none. */
    method TableFrame() returns (frame: nat, ghost page: Option<nat>)
      requires Ready()
      modifies mm`nextFree, mm.bitmap
      ensures Ready() && F.AllocFrameStep(old(mm.Contents()), page, mm.Contents())
      ensures frame == FrameFor(mm.Contents(), page) && frame % PAGE_SIZE == 0 && frame != pd
    {
      hide PM.Marked, Sound;
      frame, page := mm.AllocFrame();
      if page.Some? {
        assert page.value in AvailablePages(old(mm.Contents()));
        assert frame == Address(old(mm.Contents()), page.value);
      }
      assert AvailablePages(mm.Contents()) <= AvailablePages(old(mm.Contents()));
    }

    /** Writes entry `v % 1024` of an existing page table. */
    method WriteEntry(v: nat, entry: nat)
      requires Words(Contents()) && Present(Pde(Contents(), 1023)) && FrameOf(Pde(Contents(), 1023)) == pd
      requires v < WINDOW && Present(Pde(Contents(), v / 1024)) && FrameOf(Pde(Contents(), v / 1024)) in ram
      modifies this`ram
      ensures Contents() == StoreWord(old(Contents()), FrameOf(Pde(old(Contents()), v / 1024)), v % 1024, entry)
    {
      RecursiveWindow(Contents(), v / 1024);
      Store(0xFFC00000 + v / 1024 * 4096 + 4 * (v % 1024), entry);
    }

    method ReadPde(pdIndex: nat) returns (pde: nat)
      requires Sound(Contents()) && pdIndex < 1024
      ensures pde == Pde(Contents(), pdIndex)
    {
      RecursiveWindow(Contents(), 1023);
      pde := Load(0xFFFFF000 + 4 * pdIndex);
    }

    /** One round of the loop.  `page` is what the allocator answered when a table was missing. */
    method MapOne(address: nat, entry: nat) returns (ghost page: Option<nat>)
      requires Ready() && address / PAGE_SIZE < WINDOW
      modifies this`ram, mm`nextFree, mm.bitmap
      ensures Ready()
      ensures FrameFor(mm.Contents(), page) % PAGE_SIZE == 0 && FrameFor(mm.Contents(), page) != pd
      ensures Contents() == MapPage(old(Contents()), address / PAGE_SIZE, entry, FrameFor(mm.Contents(), page))
      ensures if Present(Pde(old(Contents()), address / PAGE_SIZE / 1024))
              then page.None? && mm.Contents() == old(mm.Contents())
              else F.AllocFrameStep(old(mm.Contents()), page, mm.Contents())
    {
      hide PM.Marked, F.AllocFrameStep, PM.MemoryManager.Valid;
      ghost var s := Contents();
      var pdIndex := address / 0x400000;
      var ptIndex := address / 0x1000 % 0x400;
      var v := address / PAGE_SIZE;
      assert pdIndex == v / 1024 && ptIndex == v % 1024;
      var pde := ReadPde(pdIndex);
      page := None;
      var newTable := 0;
      if pde % 2 == 0 {
        newTable, page := TableFrame();
        CreateTable(pdIndex, newTable);
        AddTableEntries(s, pdIndex, newTable, pdIndex);
        AddTableEntries(s, pdIndex, newTable, 1023);
        EntryParts(newTable, TABLE_FLAGS);
      }
      hide StoreWord;
      WriteEntry(v, entry);
      MapPageSound(s, v, entry, newTable);
    }

    /** The loop of vmm_map. */
    method EnterRange(virtual: nat, physical: nat, size: nat, flags: nat)
      requires Ready() && TablesReserved(Contents(), mm.Contents()) && WellFormed(Contents())
      requires virtual + size <= WINDOW * PAGE_SIZE
      requires physical < TWO32 && physical % PAGE_SIZE == 0 && flags < PAGE_SIZE
      modifies this`ram, mm`nextFree, mm.bitmap
      ensures Ready()
      ensures MapStep(old(Contents()), old(mm.Contents()), virtual / PAGE_SIZE, PagesOf(size), physical, flags,
                      Contents(), mm.Contents())
    {
      hide PM.Marked, WellFormed, Loop, F.AllocFrameStep, TablesReserved, AvailablePages;
      hide PM.MemoryManager.Valid, MapPage, F.Allocates, Sound, PagesOf, Usable, FrameFor;
      ghost var s0, m0, v0, n := Contents(), mm.Contents(), virtual / PAGE_SIZE, PagesOf(size);
      ghost var pages: seq<nat>, k := [], 0;
      LoopStart(s0, m0, v0, physical, flags);
      Rounds(virtual, size, 0);
      var address, end, phys := virtual, virtual + size, physical;
      while address < end
        invariant address == virtual + k * PAGE_SIZE && k <= n && (address < end <==> k < n)
        invariant phys == (physical + k * PAGE_SIZE) % TWO32
        invariant Ready() && Loop(s0, m0, v0, k, physical, flags, pages, Contents(), mm.Contents())
        decreases n - k
      {
        Rounds(virtual, size, k);
        Rounds(virtual, size, k + 1);
        NextPhysical(physical, k);
        SoundWords(Contents());
        ghost var s, m := Contents(), mm.Contents();
        ghost var page := MapOne(address, phys + flags);
        pages := LoopRound(s0, m0, v0, k, physical, flags, pages, s, m, page, mm.Contents());
        address := address + 4096;
        phys := (phys + 4096) % TWO32;
        k := k + 1;
      }
      assert MapStep(s0, m0, v0, n, physical, flags, Contents(), mm.Contents());
    }

    /** vmm_map.  The range is mapped as asked and every other page is translated as before
        exactly when pages are available for all missing tables, counting frame 0 once, or
        clearing frame 0 goes unnoticed.  Pages are only taken from the allocator, and none
        that stays available holds a table. */
    method Map(virtual: nat, physical: nat, size: nat, flags: nat)
      requires Ready() && TablesReserved(Contents(), mm.Contents()) && WellFormed(Contents())
      requires virtual + size <= WINDOW * PAGE_SIZE
      requires physical < TWO32 && physical % PAGE_SIZE == 0 && flags < PAGE_SIZE
      modifies this`ram, mm`nextFree, mm.bitmap
      ensures Ready() && TablesReserved(Contents(), mm.Contents())
      ensures MapStep(old(Contents()), old(mm.Contents()), virtual / PAGE_SIZE, PagesOf(size), physical, flags,
                      Contents(), mm.Contents())
      ensures Fits(old(Contents()), virtual / PAGE_SIZE, PagesOf(size), |AvailablePages(old(mm.Contents()))|) ==>
        WellFormed(Contents())
      ensures Mapped(old(Contents()), Contents(), virtual / PAGE_SIZE, PagesOf(size), physical, flags) <==>
        Succeeds(old(Contents()), virtual / PAGE_SIZE, PagesOf(size), physical, flags,
                 |AvailablePages(old(mm.Contents()))|)
      ensures Mapped(old(Contents()), Contents(), virtual / PAGE_SIZE, PagesOf(size), physical, flags) ==>
        Grants(old(Contents()), Contents(), virtual, physical, size, flags)
      ensures F.Allocates(old(mm.Contents()), mm.Contents()) && F.Grows(old(mm.Contents()), mm.Contents())
    {
      hide PM.Marked, WellFormed, TablesReserved, AvailablePages, Mapped, Fits, Succeeds, MapStep, Grants;
      hide PM.MemoryManager.Valid, F.Allocates, F.Grows;
      ghost var s0, m0, v0, n := Contents(), mm.Contents(), virtual / PAGE_SIZE, PagesOf(size);
      Rounds(virtual, size, 0);
      EnterRange(virtual, physical, size, flags);
      MapOutcome(s0, m0, v0, n, physical, flags, Contents(), mm.Contents());
      MapLeaves(s0, m0, v0, n, physical, flags, Contents(), mm.Contents());
      MapGrants(s0, m0, virtual, n, physical, size, flags, Contents(), mm.Contents());
      F.AllocatesGrows(m0, mm.Contents());
    }
  }
}
