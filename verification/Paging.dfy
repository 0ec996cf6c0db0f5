/** 32-bit paging with 4-KByte pages (section 4.3 of the Intel SDM, Volume 3A): a page
    directory and page tables held in physical frames of 1024 words, walked to translate
    a page number.  Entry 1023 of the directory points to the directory itself, so the
    tables appear in the last 4 MBytes of the address space. */
module Paging {
  import opened Basics

  const WINDOW := 1023 * 1024      // first page number of the recursive window
  const NO_ENTRY := 1023           // leaves no entry below the window out of account
  const TABLE_FLAGS := 7           // PAGE_PRESENT | PAGE_RW | PAGE_USER

  datatype Mapping = Mapping(frame: nat, flags: nat)

  type Table = seq<nat>

  /** Physical memory, and the frame CR3 points to. */
  datatype Space = Space(pd: nat, ram: map<nat, Table>)

  predicate Present(entry: nat) {
    entry % 2 == 1
  }

  function FrameOf(entry: nat): nat {
    entry - entry % PAGE_SIZE
  }

  function FlagsOf(entry: nat): nat {
    entry % PAGE_SIZE
  }

  predicate Words(s: Space) {
    s.pd in s.ram && forall f :: f in s.ram ==> |s.ram[f]| == 1024
  }

  function Pde(s: Space, i: nat): nat
    requires Words(s) && i < 1024
  {
    s.ram[s.pd][i]
  }

  /** The directory maps itself, and no other present entry leads to it. */
  ghost predicate Sound(s: Space) {
    && Words(s)
    && Present(Pde(s, 1023)) && FrameOf(Pde(s, 1023)) == s.pd
    && (forall i :: 0 <= i < 1023 && Present(Pde(s, i)) ==>
          FrameOf(Pde(s, i)) in s.ram && FrameOf(Pde(s, i)) != s.pd)
  }

  /** Besides, present entries lead to distinct frames: no two share a page table. */
  ghost predicate WellFormed(s: Space) {
    WellFormedBut(s, NO_ENTRY)
  }

  /** The same, leaving entry `q` out of account. */
  ghost predicate WellFormedBut(s: Space, q: nat) {
    && Sound(s)
    && (forall i, j :: 0 <= i < j < 1023 && i != q && j != q && Present(Pde(s, i)) && Present(Pde(s, j)) ==>
          FrameOf(Pde(s, i)) != FrameOf(Pde(s, j)))
  }

  /** The hardware's walk for page number `v`. */
  function Translate(s: Space, v: nat): Option<Mapping>
    requires Words(s) && v < 1024 * 1024
  {
    var pde := Pde(s, v / 1024);
    if !Present(pde) || FrameOf(pde) !in s.ram then None
    else
      var pte := s.ram[FrameOf(pde)][v % 1024];
      if !Present(pte) then None else Some(Mapping(FrameOf(pte), FlagsOf(pte)))
  }

  /** A frame that holds the directory or a page table. */
  ghost predicate HoldsTable(s: Space, f: nat)
    requires Words(s)
  {
    HoldsTableBut(s, f, NO_ENTRY)
  }

  ghost predicate HoldsTableBut(s: Space, f: nat, q: nat)
    requires Words(s)
  {
    f == s.pd || exists i :: 0 <= i < 1023 && i != q && Present(Pde(s, i)) && FrameOf(Pde(s, i)) == f
  }

  function StoreWord(s: Space, frame: nat, index: nat, value: nat): Space
    requires Words(s) && frame in s.ram && index < 1024
  {
    var words: Table := s.ram[frame][index := value];
    s.(ram := s.ram[frame := words])
  }

  function Zeros(): Table {
    seq(1024, _ => 0)
  }

  function ZeroFrame(s: Space, frame: nat): Space {
    s.(ram := s.ram[frame := Zeros()])
  }

  /** Enter a new table for directory entry `i` and clear it. */
  function AddTable(s: Space, i: nat, frame: nat): Space
    requires Words(s) && i < 1024
  {
    ZeroFrame(StoreWord(s, s.pd, i, frame + TABLE_FLAGS), frame)
  }

  /** The recursive window shows directory entry `i` as page `WINDOW + i`: that is where
      the kernel finds the page table, and at 1023 the directory itself. */
  lemma RecursiveWindow(s: Space, i: nat)
    requires Words(s) && Present(Pde(s, 1023)) && FrameOf(Pde(s, 1023)) == s.pd && i < 1024
    ensures Translate(s, WINDOW + i) ==
              if Present(Pde(s, i)) then Some(Mapping(FrameOf(Pde(s, i)), FlagsOf(Pde(s, i)))) else None
  {
    assert (WINDOW + i) / 1024 == 1023 && (WINDOW + i) % 1024 == i;
  }

  /** Directory entries after a table was added. */
  lemma AddTableEntries(s: Space, i: nat, frame: nat, j: nat)
    requires Words(s) && i < 1023 && j < 1024
    requires frame != s.pd
    ensures Words(AddTable(s, i, frame))
    ensures Pde(AddTable(s, i, frame), j) == if i == j then frame + TABLE_FLAGS else Pde(s, j)
  {
  }

  /** A fresh frame keeps the directory injective and no translation changes: the pages
      of the new table were unmapped and stay so.  Entry `q` is left out of account. */
  lemma AddTableKeeps(s: Space, i: nat, frame: nat, q: nat)
    requires WellFormedBut(s, q) && i < 1023 && i != q && !Present(Pde(s, i))
    requires frame % PAGE_SIZE == 0 && !HoldsTableBut(s, frame, q)
    ensures WellFormedBut(AddTable(s, i, frame), q)
    ensures forall v :: 0 <= v < WINDOW && v / 1024 != q ==> Translate(AddTable(s, i, frame), v) == Translate(s, v)
  {
    var t := AddTable(s, i, frame);
    forall j | 0 <= j < 1024 {
      AddTableEntries(s, i, frame, j);
    }
    EntryParts(frame, TABLE_FLAGS);
    forall v | 0 <= v < WINDOW && v / 1024 != q
      ensures Translate(t, v) == Translate(s, v)
    {
      AddTableEntries(s, i, frame, v / 1024);
    }
  }

  /** Writing one entry of one table changes one translation and no other, leaving entry
      `q` out of account. */
  lemma StoreEntry(s: Space, v: nat, entry: nat, q: nat)
    requires WellFormedBut(s, q) && v < WINDOW && v / 1024 != q && Present(Pde(s, v / 1024))
    ensures var t := StoreWord(s, FrameOf(Pde(s, v / 1024)), v % 1024, entry);
      && WellFormedBut(t, q)
      && (forall w :: 0 <= w < WINDOW && w / 1024 != q && w != v ==> Translate(t, w) == Translate(s, w))
      && Translate(t, v) == if Present(entry) then Some(Mapping(FrameOf(entry), FlagsOf(entry))) else None
  {
    var f := FrameOf(Pde(s, v / 1024));
    var t := StoreWord(s, f, v % 1024, entry);
    assert forall j :: 0 <= j < 1024 ==> Pde(t, j) == Pde(s, j);
    forall w | 0 <= w < WINDOW && w / 1024 != q && w != v
      ensures Translate(t, w) == Translate(s, w)
    {
      if w / 1024 == v / 1024 {
        assert w % 1024 != v % 1024;
      }
    }
  }

  // ---------------------------------------------------------------- mapping a range

  /** One round of vmm_map: page `v` gets `entry`, in a new table at `frame` when the
      directory has none for it. */
  function MapPage(s: Space, v: nat, entry: nat, frame: nat): Space
    requires Words(s) && v < WINDOW && frame != s.pd && frame % PAGE_SIZE == 0
    requires Present(Pde(s, v / 1024)) ==> FrameOf(Pde(s, v / 1024)) in s.ram
  {
    var i := v / 1024;
    if Present(Pde(s, i)) then StoreWord(s, FrameOf(Pde(s, i)), v % 1024, entry)
    else
      AddTableEntries(s, i, frame, i);
      StoreWord(AddTable(s, i, frame), frame, v % 1024, entry)
  }

  /** Page `i` of a mapping of `physical` with `flags`. */
  function Target(physical: nat, flags: nat, i: nat): Option<Mapping> {
    if Present(flags) then Some(Mapping((physical + i * PAGE_SIZE) % TWO32, flags)) else None
  }

  /** `t` translates `k` pages from `v0` on as asked and every other page as `s` does. */
  ghost predicate Mapped(s: Space, t: Space, v0: nat, k: nat, physical: nat, flags: nat)
    requires Words(s) && Words(t)
  {
    MappedBut(s, t, v0, k, physical, flags, NO_ENTRY)
  }

  /** The same for all pages but those of entry `q`. */
  ghost predicate MappedBut(s: Space, t: Space, v0: nat, k: nat, physical: nat, flags: nat, q: nat)
    requires Words(s) && Words(t)
  {
    forall v :: 0 <= v < WINDOW && v / 1024 != q ==>
      Translate(t, v) == if v0 <= v < v0 + k then Target(physical, flags, v - v0) else Translate(s, v)
  }

  lemma EntryParts(physical: nat, flags: nat)
    requires physical % PAGE_SIZE == 0 && flags < PAGE_SIZE
    ensures FrameOf(physical + flags) == physical && FlagsOf(physical + flags) == flags
    ensures Present(physical + flags) == Present(flags)
  {
  }

  /** The entry of page `k` of a mapping. */
  lemma EntryOf(physical: nat, flags: nat, k: nat)
    requires physical % PAGE_SIZE == 0 && flags < PAGE_SIZE
    ensures var frame := (physical + k * PAGE_SIZE) % TWO32;
            FrameOf(frame + flags) == frame && FlagsOf(frame + flags) == flags && Present(frame + flags) == Present(flags)
  {
    var frame := (physical + k * PAGE_SIZE) % TWO32;
    assert frame % PAGE_SIZE == 0;
    EntryParts(frame, flags);
  }

  /** One round changes the translation of its page and no other, leaving entry `q` out of
      account. */
  lemma MapPageTranslates(t: Space, v: nat, entry: nat, frame: nat, q: nat)
    requires WellFormedBut(t, q) && v < WINDOW && v / 1024 != q && frame % PAGE_SIZE == 0 && frame != t.pd
    requires Present(Pde(t, v / 1024)) || !HoldsTableBut(t, frame, q)
    ensures var u := MapPage(t, v, entry, frame);
      && WellFormedBut(u, q)
      && (forall w :: 0 <= w < WINDOW && w / 1024 != q && w != v ==> Translate(u, w) == Translate(t, w))
      && Translate(u, v) == if Present(entry) then Some(Mapping(FrameOf(entry), FlagsOf(entry))) else None
  {
    if Present(Pde(t, v / 1024)) {
      StoreEntry(t, v, entry, q);
    } else {
      AddTableKeeps(t, v / 1024, frame, q);
      AddTableEntries(t, v / 1024, frame, v / 1024);
      EntryParts(frame, TABLE_FLAGS);
      hide Translate, WellFormedBut, AddTable;
      StoreEntry(AddTable(t, v / 1024, frame), v, entry, q);
    }
  }

  /** One more page, through a table of its own: the mapping grows by exactly that page. */
  lemma MapPageKeeps(s: Space, t: Space, v0: nat, k: nat, physical: nat, flags: nat, frame: nat, q: nat)
    requires Words(s) && WellFormedBut(t, q) && MappedBut(s, t, v0, k, physical, flags, q)
    requires v0 + k < WINDOW && (v0 + k) / 1024 != q && physical % PAGE_SIZE == 0 && flags < PAGE_SIZE
    requires frame % PAGE_SIZE == 0 && frame != t.pd
    requires Present(Pde(t, (v0 + k) / 1024)) || !HoldsTableBut(t, frame, q)
    ensures var u := MapPage(t, v0 + k, (physical + k * PAGE_SIZE) % TWO32 + flags, frame);
            WellFormedBut(u, q) && MappedBut(s, u, v0, k + 1, physical, flags, q)
  {
    EntryOf(physical, flags, k);
    MapPageTranslates(t, v0 + k, (physical + k * PAGE_SIZE) % TWO32 + flags, frame, q);
    hide Translate, MapPage;
  }

  /** The directory entries after one round. */
  lemma MapPageEntries(s: Space, v: nat, entry: nat, frame: nat, j: nat)
    requires Sound(s) && v < WINDOW && frame != s.pd && frame % PAGE_SIZE == 0 && j < 1024
    ensures var u := MapPage(s, v, entry, frame);
      && Words(u)
      && Pde(u, j) == if j == v / 1024 && !Present(Pde(s, j)) then frame + TABLE_FLAGS else Pde(s, j)
  {
    if !Present(Pde(s, v / 1024)) {
      AddTableEntries(s, v / 1024, frame, j);
    }
  }

  lemma MapPageSound(s: Space, v: nat, entry: nat, frame: nat)
    requires Sound(s) && v < WINDOW && frame != s.pd && frame % PAGE_SIZE == 0
    ensures Sound(MapPage(s, v, entry, frame))
  {
    forall j | 0 <= j < 1024 {
      MapPageEntries(s, v, entry, frame, j);
    }
  }

  // ---------------------------------------------------------------- running out of frames

  /** Two directory entries for one frame show the same translations. */
  lemma SharedTableShows(t: Space, a: nat, b: nat, slot: nat)
    requires Words(t) && a < 1023 && b < 1023 && slot < 1024
    requires Present(Pde(t, a)) && Present(Pde(t, b)) && FrameOf(Pde(t, a)) == FrameOf(Pde(t, b))
    ensures Translate(t, a * 1024 + slot) == Translate(t, b * 1024 + slot)
  {
  }

  lemma DifferentTargets(physical: nat, i: nat, k: nat)
    requires i < k < WINDOW
    ensures (physical + k * PAGE_SIZE) % TWO32 != (physical + i * PAGE_SIZE) % TWO32
  {
    var a, d := physical + i * PAGE_SIZE, (k - i) * PAGE_SIZE;
    assert physical + k * PAGE_SIZE == a + d && 0 < d < TWO32;
  }

  /** A range that reaches over two entries, at least one of which had no table, is not
      mapped when they share a frame: the last or the first page of one shows another
      page of the range, or a page outside of it does. */
  lemma SharedTableLoses(s: Space, t: Space, v0: nat, n: nat, physical: nat, flags: nat, a: nat, b: nat)
    requires Words(s) && Words(t) && v0 + n <= WINDOW && Present(flags)
    requires v0 / 1024 <= a < b < 1023 && b * 1024 < v0 + n
    requires !Present(Pde(s, a)) || !Present(Pde(s, b))
    requires Present(Pde(t, a)) && Present(Pde(t, b)) && FrameOf(Pde(t, a)) == FrameOf(Pde(t, b))
    ensures !Mapped(s, t, v0, n, physical, flags)
  {
    var slot := if Present(Pde(s, b)) then 0 else 1023;
    var x, y := a * 1024 + slot, b * 1024 + slot;
    SharedTableShows(t, a, b, slot);
    if v0 <= x && y < v0 + n {
      DifferentTargets(physical, x - v0, y - v0);
    }
  }
}
