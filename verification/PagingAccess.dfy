/** The hardware's walk for a linear address, with the rights it grants (sections 4.3 and 4.6
    of the Intel SDM, Volume 3A): an access is allowed to write, or in user mode, when both
    the directory entry and the table entry say so. */
module PagingAccess {
  import opened Basics
  import opened Paging
  import opened PagingRange

  datatype Access = Access(address: nat, write: bool, user: bool)

  predicate Writable(entry: nat) {
    entry / 2 % 2 == 1
  }

  predicate UserMode(entry: nat) {
    entry / 4 % 2 == 1
  }

  /** Where a linear address leads, and what is allowed there. */
  function Reach(s: Space, a: nat): Option<Access>
    requires Words(s) && a < TWO32
  {
    var pde := s.ram[s.pd][a / 0x40_0000];
    if pde % 2 == 0 || pde - pde % 4096 !in s.ram then None
    else
      var pte := s.ram[pde - pde % 4096][a / 4096 % 1024];
      if pte % 2 == 0 then None
      else Some(Access(pte - pte % 4096 + a % 4096, Writable(pde) && Writable(pte), UserMode(pde) && UserMode(pte)))
  }

  /** The rights of the directory entry above an address; full rights where there is no
      table yet. */
  function TableRights(s: Space, a: nat): (bool, bool)
    requires Words(s) && a < TWO32
  {
    var pde := s.ram[s.pd][a / 0x40_0000];
    if pde % 2 == 0 then (true, true) else (Writable(pde), UserMode(pde))
  }

  /** The page of `a` is one of those entered from the page of `virtual` on, one for every
      4096 bytes begun. */
  predicate InRange(virtual: nat, size: nat, a: nat) {
    virtual / 4096 <= a / 4096 && (a / 4096 - virtual / 4096) * 4096 < size
  }

  /** Addresses of the range lead to `physical` and up with the rights of the flags, cut down
      by the rights of tables that were there before; all others lead where they did. */
  ghost predicate Grants(s: Space, t: Space, virtual: nat, physical: nat, size: nat, flags: nat)
    requires Words(s) && Words(t)
  {
    forall a :: 0 <= a < WINDOW * 4096 ==> GrantsAt(s, t, virtual, physical, size, flags, a)
  }

  ghost predicate GrantsAt(s: Space, t: Space, virtual: nat, physical: nat, size: nat, flags: nat, a: nat)
    requires Words(s) && Words(t) && a < TWO32
  {
    Reach(t, a) ==
      if !InRange(virtual, size, a) then Reach(s, a)
      else if flags % 2 == 0 then None
      else Some(Access((physical + (a / 4096 - virtual / 4096) * 4096) % TWO32 + a % 4096,
                       Writable(flags) && TableRights(s, a).0, UserMode(flags) && TableRights(s, a).1))
  }

  lemma RightsInFlags(entry: nat)
    ensures Writable(entry % 4096) == Writable(entry) && UserMode(entry % 4096) == UserMode(entry)
  {
    LowBits(entry / 4096, entry % 4096);
  }

  lemma LowBits(q: nat, r: nat)
    ensures (4096 * q + r) / 2 % 2 == r / 2 % 2 && (4096 * q + r) / 4 % 2 == r / 4 % 2
  {
    HalfOfSum(2048 * q, r);
    QuarterOfSum(1024 * q, r);
    SameParity(1024 * q, r / 2);
    SameParity(512 * q, r / 4);
  }

  lemma HalfOfSum(k: nat, r: nat)
    ensures (2 * k + r) / 2 == k + r / 2
  {
  }

  lemma QuarterOfSum(k: nat, r: nat)
    ensures (4 * k + r) / 4 == k + r / 4
  {
  }

  lemma SameParity(k: nat, x: nat)
    ensures (2 * k + x) % 2 == x % 2
  {
  }

  lemma SamePlaces(a: nat)
    ensures a / 0x40_0000 == a / 4096 / 1024
  {
  }

  /** The walk in terms of the translation of its page. */
  lemma ReachIs(s: Space, a: nat)
    requires Words(s) && a < TWO32
    ensures Reach(s, a) ==
      match Translate(s, a / 4096)
      case None => None
      case Some(m) =>
        var pde := Pde(s, a / 4096 / 1024);
        Some(Access(m.frame + a % 4096, Writable(pde) && Writable(m.flags), UserMode(pde) && UserMode(m.flags)))
  {
    SamePlaces(a);
    var pde := Pde(s, a / 4096 / 1024);
    if Present(pde) && FrameOf(pde) in s.ram {
      RightsInFlags(s.ram[FrameOf(pde)][a / 4096 % 1024]);
    }
    hide Writable, UserMode;
  }

  /** Entries that were there stay; those made for the range grant everything. */
  ghost predicate EntriesKept(s: Space, t: Space, v0: nat, n: nat)
    requires Words(s) && Words(t)
  {
    && (forall i :: 0 <= i < 1023 && Present(Pde(s, i)) ==> Pde(t, i) == Pde(s, i))
    && (forall i :: i in Missing(s, v0, n) ==> Writable(Pde(t, i)) && UserMode(Pde(t, i)))
  }

  lemma MadeRights(frame: nat)
    requires frame % PAGE_SIZE == 0
    ensures Writable(frame + TABLE_FLAGS) && UserMode(frame + TABLE_FLAGS)
  {
  }

  lemma TracksEntries(s: Space, v0: nat, n: nat, frames: seq<nat>, p: Progress)
    requires WellFormed(s) && Fresh(s, frames) && Tracks(s, v0, n, frames, p)
    ensures Words(s) && Words(p.space) && EntriesKept(s, p.space, v0, n)
  {
    forall i | i in Missing(s, v0, n)
      ensures i < 1023 && Writable(Pde(p.space, i)) && UserMode(Pde(p.space, i))
    {
      var j :| 0 <= j < |p.tables| && p.tables[j] == i;
      MadeRights(Supply(frames, j));
    }
    forall i | 0 <= i < 1023 && Present(Pde(s, i))
      ensures Pde(p.space, i) == Pde(s, i)
    {
      assert i !in Missing(s, v0, n);
    }
  }

  lemma GrantAt(s: Space, t: Space, virtual: nat, n: nat, physical: nat, size: nat, flags: nat, a: nat)
    requires Words(s) && Words(t) && EntriesKept(s, t, virtual / 4096, n)
    requires Mapped(s, t, virtual / 4096, n, physical, flags)
    requires a < WINDOW * 4096 && (InRange(virtual, size, a) <==> virtual / 4096 <= a / 4096 < virtual / 4096 + n)
    ensures GrantsAt(s, t, virtual, physical, size, flags, a)
  {
    var v, i := a / 4096, a / 4096 / 1024;
    ReachIs(s, a);
    ReachIs(t, a);
    SamePlaces(a);
    assert Translate(t, v) ==
      if virtual / 4096 <= v < virtual / 4096 + n then Target(physical, flags, v - virtual / 4096) else Translate(s, v);
    if InRange(virtual, size, a) && !Present(Pde(s, i)) {
      assert i in Missing(s, virtual / 4096, n);
    }
    hide Reach, Writable, UserMode, InRange, MappedBut, Missing;
  }

  lemma PagesInRange(virtual: nat, size: nat, n: nat, a: nat)
    requires n == (size + PAGE_SIZE - 1) / PAGE_SIZE
    ensures InRange(virtual, size, a) <==> virtual / 4096 <= a / 4096 < virtual / 4096 + n
  {
    if virtual / 4096 <= a / 4096 {
      var j := a / 4096 - virtual / 4096;
      assert j * 4096 < size <==> j < n;
    }
  }

  /** Once the range is mapped as asked, every address grants what was asked. */
  lemma MappedGrants(s: Space, t: Space, virtual: nat, n: nat, physical: nat, size: nat, flags: nat)
    requires Words(s) && Words(t) && EntriesKept(s, t, virtual / 4096, n)
    requires Mapped(s, t, virtual / 4096, n, physical, flags) && n == (size + PAGE_SIZE - 1) / PAGE_SIZE
    ensures Grants(s, t, virtual, physical, size, flags)
  {
    hide InRange, Mapped, EntriesKept, GrantsAt;
    forall a | 0 <= a < WINDOW * 4096
      ensures GrantsAt(s, t, virtual, physical, size, flags, a)
    {
      PagesInRange(virtual, size, n, a);
      GrantAt(s, t, virtual, n, physical, size, flags, a);
    }
  }

  /** For a page-aligned range, byte for byte. */
  lemma BytesReached(s: Space, t: Space, virtual: nat, physical: nat, size: nat, flags: nat, k: nat)
    requires Words(s) && Words(t) && Grants(s, t, virtual, physical, size, flags) && flags % 2 == 1
    requires virtual % 4096 == 0 && physical % 4096 == 0 && virtual + size <= WINDOW * 4096 && k < size
    ensures Reach(t, virtual + k).Some? && Reach(t, virtual + k).value.address == (physical + k) % TWO32
  {
    var a := virtual + k;
    assert GrantsAt(s, t, virtual, physical, size, flags, a);
    assert a / 4096 - virtual / 4096 == k / 4096 && a % 4096 == k % 4096;
    SplitAddress(physical, k);
    hide Reach, TableRights;
  }

  lemma SplitAddress(physical: nat, k: nat)
    requires physical % 4096 == 0
    ensures (physical + k / 4096 * 4096) % TWO32 + k % 4096 == (physical + k) % TWO32
  {
    var base := physical + k / 4096 * 4096;
    assert base % 4096 == 0 && physical + k == base + k % 4096;
    assert base % TWO32 <= TWO32 - 4096;
  }
}
