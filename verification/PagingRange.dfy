/** What vmm_map does to a whole range, given the frames the allocator hands out.

    `MapRange` runs the rounds of the loop; a frame list that runs out yields 0, which is
    what pmm_alloc_frame returns and what vmm_map then enters as a table.  `MapExact`
    says for which supply of frames the range ends up mapped as asked. */
module PagingRange {
  import opened Basics
  import opened Paging

  /** The pages and tables of a range. */
  ghost predicate Range(v0: nat, n: nat, physical: nat, flags: nat) {
    v0 + n <= WINDOW && physical % PAGE_SIZE == 0 && flags < PAGE_SIZE
  }

  /** Frames an allocator may hand out for tables: aligned, distinct, not the null
      address, and without a table already.  Frame 0 is not the directory. */
  ghost predicate Fresh(s: Space, frames: seq<nat>)
    requires Words(s)
  {
    && (forall i :: 0 <= i < |frames| ==>
          frames[i] % PAGE_SIZE == 0 && frames[i] != 0 && !HoldsTable(s, frames[i]))
    && (forall i, j :: 0 <= i < j < |frames| ==> frames[i] != frames[j])
    && s.pd != 0
  }

  /** Frame 0 serves as one more table, unless it is one already. */
  ghost function Spare(s: Space): nat
    requires Words(s)
  {
    if HoldsTable(s, 0) then 0 else 1
  }

  function Supply(frames: seq<nat>, j: nat): nat {
    if j < |frames| then frames[j] else 0
  }

  /** Directory entries of the first `k` pages that have no table yet. */
  ghost function Missing(s: Space, v0: nat, k: nat): set<nat>
    requires Words(s)
  {
    set i | 0 <= i < 1023 && v0 / 1024 <= i && i * 1024 < v0 + k && k > 0 && !Present(Pde(s, i))
  }

  /** A state of the loop: memory, and the directory entries made so far, in order. */
  datatype Progress = Progress(space: Space, tables: seq<nat>)

  predicate Usable(s: Space, v: nat, frame: nat) {
    && Words(s) && v < WINDOW && frame != s.pd && frame % PAGE_SIZE == 0
    && (Present(Pde(s, v / 1024)) ==> FrameOf(Pde(s, v / 1024)) in s.ram)
  }

  function Round(p: Progress, v: nat, entry: nat, frame: nat): Progress
    requires Usable(p.space, v, frame)
  {
    Progress(MapPage(p.space, v, entry, frame),
             if Present(Pde(p.space, v / 1024)) then p.tables else p.tables + [v / 1024])
  }

  /** The first `k` rounds; total, so that it can be stated before it is known to be safe. */
  ghost function MapRange(s: Space, v0: nat, k: nat, physical: nat, flags: nat, frames: seq<nat>): Progress {
    if k == 0 then Progress(s, [])
    else
      var p := MapRange(s, v0, k - 1, physical, flags, frames);
      var v, frame := v0 + k - 1, Supply(frames, |p.tables|);
      if Usable(p.space, v, frame) then
        Round(p, v, (physical + (k - 1) * PAGE_SIZE) % TWO32 + flags, frame)
      else p
  }

  /** What holds after every round: exactly the missing tables were made, each from the
      next frame of the supply. */
  ghost predicate Tracks(s: Space, v0: nat, k: nat, frames: seq<nat>, p: Progress)
    requires Words(s)
  {
    && Sound(p.space) && p.space.pd == s.pd
    && (forall j :: 0 <= j < |p.tables| ==>
          p.tables[j] in Missing(s, v0, k) && Pde(p.space, p.tables[j]) == Supply(frames, j) + TABLE_FLAGS)
    && (forall i, j :: 0 <= i < j < |p.tables| ==> p.tables[i] < p.tables[j])
    && (forall i :: 0 <= i < 1023 && i !in p.tables ==> Pde(p.space, i) == Pde(s, i))
    && (forall i :: i in Missing(s, v0, k) ==> i in p.tables)
  }

  lemma MissingGrows(s: Space, v0: nat, k: nat)
    requires Words(s) && v0 + k < WINDOW
    ensures var i := (v0 + k) / 1024;
            Missing(s, v0, k + 1) == Missing(s, v0, k) + (if Present(Pde(s, i)) then {} else {i})
    ensures forall i :: i in Missing(s, v0, k) ==> i <= (v0 + k) / 1024
    ensures (v0 + k) % 1024 != 0 && k > 0 && !Present(Pde(s, (v0 + k) / 1024)) ==>
              (v0 + k) / 1024 in Missing(s, v0, k)
  {
  }

  /** Made entries are present. */
  lemma MadeArePresent(s: Space, v0: nat, k: nat, frames: seq<nat>, p: Progress, i: nat)
    requires Words(s) && Fresh(s, frames) && Tracks(s, v0, k, frames, p) && i in p.tables
    ensures i < 1023 && Present(Pde(p.space, i))
  {
    var j :| 0 <= j < |p.tables| && p.tables[j] == i;
    EntryParts(Supply(frames, j), TABLE_FLAGS);
  }

  lemma TracksNext(s: Space, v0: nat, k: nat, frames: seq<nat>, p: Progress, r: Progress, i: nat)
    requires Words(s) && v0 + k < WINDOW && i == (v0 + k) / 1024 && Tracks(s, v0, k, frames, p)
    requires Sound(r.space) && r.space.pd == s.pd
    requires Present(Pde(p.space, i)) <==> Present(Pde(s, i)) || i in p.tables
    requires r.tables == if Present(Pde(p.space, i)) then p.tables else p.tables + [i]
    requires forall j :: 0 <= j < 1023 ==>
      Pde(r.space, j) == if j == i && !Present(Pde(p.space, i)) then Supply(frames, |p.tables|) + TABLE_FLAGS
                         else Pde(p.space, j)
    ensures Tracks(s, v0, k + 1, frames, r)
  {
    hide Missing, Present, Supply, Pde;
    MissingGrows(s, v0, k);
  }

  lemma RoundTracks(s: Space, v0: nat, k: nat, frames: seq<nat>, p: Progress, entry: nat)
    requires WellFormed(s) && Fresh(s, frames) && v0 + k < WINDOW && Tracks(s, v0, k, frames, p)
    ensures Usable(p.space, v0 + k, Supply(frames, |p.tables|))
    ensures Tracks(s, v0, k + 1, frames, Round(p, v0 + k, entry, Supply(frames, |p.tables|)))
  {
    hide Missing, MapPage;
    var v, frame := v0 + k, Supply(frames, |p.tables|);
    MapPageSound(p.space, v, entry, frame);
    forall i | 0 <= i < 1024 {
      MapPageEntries(p.space, v, entry, frame, i);
    }
    if v / 1024 in p.tables {
      MadeArePresent(s, v0, k, frames, p, v / 1024);
    }
    TracksNext(s, v0, k, frames, p, Round(p, v, entry, frame), v / 1024);
  }

  lemma TracksStart(s: Space, v0: nat, frames: seq<nat>)
    requires WellFormed(s)
    ensures Tracks(s, v0, 0, frames, Progress(s, []))
  {
    assert Missing(s, v0, 0) == {};
  }

  lemma {:induction false} RangeTracks(s: Space, v0: nat, k: nat, physical: nat, flags: nat, frames: seq<nat>)
    requires WellFormed(s) && Fresh(s, frames) && Range(v0, k, physical, flags)
    ensures Tracks(s, v0, k, frames, MapRange(s, v0, k, physical, flags, frames))
  {
    hide Tracks, Round, Fresh, WellFormed, Usable;
    if k == 0 {
      TracksStart(s, v0, frames);
    } else {
      RangeTracks(s, v0, k - 1, physical, flags, frames);
      RoundTracks(s, v0, k - 1, frames, MapRange(s, v0, k - 1, physical, flags, frames),
                  (physical + (k - 1) * PAGE_SIZE) % TWO32 + flags);
    }
  }

  /** Exactly the tables there were and the frames made into tables hold tables now. */
  lemma TablesNow(s: Space, v0: nat, k: nat, frames: seq<nat>, p: Progress, f: nat)
    requires WellFormed(s) && Fresh(s, frames) && Tracks(s, v0, k, frames, p)
    ensures HoldsTable(p.space, f) <==>
              HoldsTable(s, f) || exists j :: 0 <= j < |p.tables| && Supply(frames, j) == f
  {
    forall j | 0 <= j < |p.tables|
      ensures FrameOf(Pde(p.space, p.tables[j])) == Supply(frames, j) && Present(Pde(p.space, p.tables[j]))
    {
      EntryParts(Supply(frames, j), TABLE_FLAGS);
    }
    if HoldsTable(s, f) && f != s.pd {
      var i :| 0 <= i < 1023 && Present(Pde(s, i)) && FrameOf(Pde(s, i)) == f;
      assert i !in Missing(s, v0, k);
      assert Pde(p.space, i) == Pde(s, i);
    }
  }

  // ---------------------------------------------------------------- enough frames

  /** Entry `q` has frame 0 as its table. */
  ghost predicate ZeroTable(s: Space, q: nat)
    requires Words(s)
  {
    q < 1023 && Present(Pde(s, q)) && FrameOf(Pde(s, q)) == 0
  }

  ghost predicate Untouched(v0: nat, n: nat, q: nat) {
    q < v0 / 1024 || v0 + n <= q * 1024
  }

  /** With `limit` tables every made entry has a frame of its own, or would have but for
      entry `q`. */
  ghost predicate Covers(s: Space, frames: seq<nat>, q: nat, limit: nat)
    requires Words(s)
  {
    if ZeroTable(s, q) then limit == |frames| + 1 else q == NO_ENTRY && limit == |frames| + Spare(s)
  }

  /** Below the limit the next frame holds no table. */
  lemma NextFrameIsFree(s: Space, v0: nat, k: nat, frames: seq<nat>, p: Progress, q: nat, limit: nat)
    requires WellFormed(s) && Fresh(s, frames) && Tracks(s, v0, k, frames, p)
    requires Covers(s, frames, q, limit) && |p.tables| < limit
    ensures !HoldsTableBut(p.space, Supply(frames, |p.tables|), q)
  {
    var frame := Supply(frames, |p.tables|);
    forall i | 0 <= i < 1023 && i != q && Present(Pde(p.space, i))
      ensures FrameOf(Pde(p.space, i)) != frame
    {
      if i in p.tables {
        var j :| 0 <= j < |p.tables| && p.tables[j] == i;
        EntryParts(Supply(frames, j), TABLE_FLAGS);
      }
    }
  }

  ghost predicate GoodSoFar(s: Space, v0: nat, k: nat, physical: nat, flags: nat, p: Progress, q: nat) {
    Words(s) && WellFormedBut(p.space, q) && MappedBut(s, p.space, v0, k, physical, flags, q)
  }

  lemma RoundMapped(s: Space, v0: nat, k: nat, physical: nat, flags: nat, frames: seq<nat>, p: Progress,
                    q: nat, limit: nat)
    requires WellFormed(s) && Fresh(s, frames) && Range(v0, k + 1, physical, flags)
    requires Covers(s, frames, q, limit) && Untouched(v0, k + 1, q)
    requires Tracks(s, v0, k, frames, p) && Usable(p.space, v0 + k, Supply(frames, |p.tables|))
    requires |p.tables| <= limit ==> GoodSoFar(s, v0, k, physical, flags, p, q)
    ensures var r := Round(p, v0 + k, (physical + k * PAGE_SIZE) % TWO32 + flags, Supply(frames, |p.tables|));
            |r.tables| <= limit ==> GoodSoFar(s, v0, k + 1, physical, flags, r, q)
  {
    assert Words(s);
    hide Tracks, MapPage, WellFormed, WellFormedBut, MappedBut, Covers;
    var r := Round(p, v0 + k, (physical + k * PAGE_SIZE) % TWO32 + flags, Supply(frames, |p.tables|));
    if |r.tables| <= limit {
      if !Present(Pde(p.space, (v0 + k) / 1024)) {
        NextFrameIsFree(s, v0, k, frames, p, q, limit);
      }
      MapPageKeeps(s, p.space, v0, k, physical, flags, Supply(frames, |p.tables|), q);
    }
  }

  lemma GoodAtStart(s: Space, v0: nat, physical: nat, flags: nat, q: nat)
    requires WellFormed(s)
    ensures GoodSoFar(s, v0, 0, physical, flags, Progress(s, []), q)
  {
  }

  /** Up to the limit, all pages but those of entry `q` translate as they should. */
  lemma {:induction false} RangeMapped(s: Space, v0: nat, k: nat, physical: nat, flags: nat, frames: seq<nat>,
                                       q: nat, limit: nat)
    requires WellFormed(s) && Fresh(s, frames) && Range(v0, k, physical, flags)
    requires Covers(s, frames, q, limit) && Untouched(v0, k, q)
    ensures var p := MapRange(s, v0, k, physical, flags, frames);
            |p.tables| <= limit ==> GoodSoFar(s, v0, k, physical, flags, p, q)
  {
    hide Fresh, Tracks, Round, WellFormed, GoodSoFar, Usable, Covers;
    if k == 0 {
      GoodAtStart(s, v0, physical, flags, q);
    } else {
      var p := MapRange(s, v0, k - 1, physical, flags, frames);
      RangeTracks(s, v0, k - 1, physical, flags, frames);
      RoundTracks(s, v0, k - 1, frames, p, (physical + (k - 1) * PAGE_SIZE) % TWO32 + flags);
      RangeMapped(s, v0, k - 1, physical, flags, frames, q, limit);
      RoundMapped(s, v0, k - 1, physical, flags, frames, p, q, limit);
    }
  }

  // ---------------------------------------------------------------- too few frames

  lemma MissingIsReached(s: Space, v0: nat, n: nat, i: nat)
    requires Words(s) && i in Missing(s, v0, n)
    ensures v0 / 1024 <= i < 1023 && i * 1024 < v0 + n && !Present(Pde(s, i))
  {
  }

  /** Two made entries share frame 0 once the supply is overdrawn twice. */
  lemma RangeLost(s: Space, v0: nat, n: nat, physical: nat, flags: nat, frames: seq<nat>, p: Progress)
    requires WellFormed(s) && Fresh(s, frames) && Range(v0, n, physical, flags) && Present(flags)
    requires Tracks(s, v0, n, frames, p) && |p.tables| > |frames| + 1
    ensures !Mapped(s, p.space, v0, n, physical, flags)
  {
    hide Mapped, Missing;
    var a, b := p.tables[|frames|], p.tables[|frames| + 1];
    MissingIsReached(s, v0, n, a);
    MissingIsReached(s, v0, n, b);
    EntryParts(0, TABLE_FLAGS);
    SharedTableLoses(s, p.space, v0, n, physical, flags, a, b);
  }

  /** What a fresh table shows for a page after the range was entered. */
  function Shown(v0: nat, n: nat, physical: nat, flags: nat, w: nat): Option<Mapping> {
    if v0 <= w < v0 + n then Target(physical, flags, w - v0) else None
  }

  /** The range stays clear of entry `q`, whose table shows already what the table of entry
      `i` is to show. */
  ghost predicate SameContent(s: Space, v0: nat, n: nat, physical: nat, flags: nat, q: nat, i: nat)
    requires Words(s) && q < 1023
  {
    && Untouched(v0, n, q)
    && forall v :: 0 <= v < WINDOW && v / 1024 == q ==>
         Translate(s, v) == Shown(v0, n, physical, flags, i * 1024 + v % 1024)
  }

  ghost predicate LastMissing(s: Space, v0: nat, n: nat, i: nat)
    requires Words(s)
  {
    i in Missing(s, v0, n) && forall j :: j in Missing(s, v0, n) ==> j <= i
  }

  /** Frame 0 is a table already, and clearing it for the last missing entry changes
      nothing that can be seen. */
  ghost predicate Coincides(s: Space, v0: nat, n: nat, physical: nat, flags: nat)
    requires Words(s)
  {
    exists q, i :: ZeroTable(s, q) && LastMissing(s, v0, n, i) && SameContent(s, v0, n, physical, flags, q, i)
  }

  /** The one entry made without a frame is the last missing one, and shares frame 0 with
      entry `q`. */
  lemma LastShares(s: Space, v0: nat, n: nat, frames: seq<nat>, p: Progress, q: nat) returns (i: nat)
    requires WellFormed(s) && Fresh(s, frames) && Tracks(s, v0, n, frames, p)
    requires |p.tables| == |frames| + 1 && ZeroTable(s, q)
    ensures LastMissing(s, v0, n, i) && i != q && i < 1023
    ensures Present(Pde(p.space, i)) && FrameOf(Pde(p.space, i)) == 0
    ensures Present(Pde(p.space, q)) && FrameOf(Pde(p.space, q)) == 0
  {
    i := p.tables[|frames|];
    EntryParts(0, TABLE_FLAGS);
    assert i in Missing(s, v0, n) && q !in Missing(s, v0, n);
    hide Missing;
  }

  /** One table short, with frame 0 already the table of entry `q`. */
  lemma ZeroTableExact(s: Space, v0: nat, n: nat, physical: nat, flags: nat, frames: seq<nat>, p: Progress,
                       q: nat, i: nat)
    requires WellFormed(s) && Words(p.space) && Range(v0, n, physical, flags) && Present(flags)
    requires ZeroTable(s, q) && LastMissing(s, v0, n, i) && i != q && i < 1023
    requires Present(Pde(p.space, i)) && FrameOf(Pde(p.space, i)) == 0
    requires Present(Pde(p.space, q)) && FrameOf(Pde(p.space, q)) == 0
    requires Untouched(v0, n, q) ==> MappedBut(s, p.space, v0, n, physical, flags, q)
    ensures Mapped(s, p.space, v0, n, physical, flags) <==> SameContent(s, v0, n, physical, flags, q, i)
  {
    MissingIsReached(s, v0, n, i);
    hide Missing;
    if Untouched(v0, n, q) {
      UntouchedExact(s, p.space, v0, n, physical, flags, q, i);
    } else {
      SharedTableLoses(s, p.space, v0, n, physical, flags, if i < q then i else q, if i < q then q else i);
    }
  }

  lemma UntouchedExact(s: Space, t: Space, v0: nat, n: nat, physical: nat, flags: nat, q: nat, i: nat)
    requires Words(s) && Words(t) && v0 + n <= WINDOW && q < 1023 && i < 1023 && i != q && Untouched(v0, n, q)
    requires !Present(Pde(s, i)) && MappedBut(s, t, v0, n, physical, flags, q)
    requires Present(Pde(t, i)) && Present(Pde(t, q)) && FrameOf(Pde(t, i)) == FrameOf(Pde(t, q))
    ensures Mapped(s, t, v0, n, physical, flags) <==> SameContent(s, v0, n, physical, flags, q, i)
  {
    forall v | 0 <= v < WINDOW && v / 1024 == q
      ensures Translate(t, v) == Shown(v0, n, physical, flags, i * 1024 + v % 1024) && !(v0 <= v < v0 + n)
    {
      SharedTableShows(t, q, i, v % 1024);
      assert v == q * 1024 + v % 1024;
      assert Translate(s, i * 1024 + v % 1024) == None;
    }
    hide Pde, Target, Shown;
  }

  // ---------------------------------------------------------------- flags that do not map

  /** No two entries share a frame other than frame 0. */
  ghost predicate SharesZeroOnly(t: Space) {
    && Sound(t)
    && forall i, j :: 0 <= i < j < 1023 && Present(Pde(t, i)) && Present(Pde(t, j)) ==>
         FrameOf(Pde(t, i)) != FrameOf(Pde(t, j)) || FrameOf(Pde(t, i)) == 0
  }

  /** Frame 0 maps nothing. */
  ghost predicate ZeroMapsNothing(t: Space) {
    0 in t.ram && forall slot :: 0 <= slot < |t.ram[0]| ==> !Present(t.ram[0][slot])
  }

  /** One round with flags that do not map: its page is unmapped, and only entries that have
      frame 0 may see more. */
  lemma RoundUnmaps(t: Space, v: nat, entry: nat, frame: nat)
    requires SharesZeroOnly(t) && v < WINDOW && frame != t.pd && frame % PAGE_SIZE == 0 && !Present(entry)
    requires Present(Pde(t, v / 1024)) || frame == 0 || !HoldsTable(t, frame)
    ensures var u := MapPage(t, v, entry, frame);
      && SharesZeroOnly(u)
      && Translate(u, v) == None
      && (ZeroMapsNothing(t) || (!Present(Pde(t, v / 1024)) && frame == 0) ==> ZeroMapsNothing(u))
  {
    var u := MapPage(t, v, entry, frame);
    MapPageSound(t, v, entry, frame);
    EntryParts(frame, TABLE_FLAGS);
    forall j | 0 <= j < 1024 {
      MapPageEntries(t, v, entry, frame, j);
    }
  }

  lemma RoundKeepsOthers(t: Space, v: nat, entry: nat, frame: nat, w: nat)
    requires SharesZeroOnly(t) && v < WINDOW && frame != t.pd && frame % PAGE_SIZE == 0
    requires Present(Pde(t, v / 1024)) || frame == 0 || !HoldsTable(t, frame)
    requires w < WINDOW && w != v && !ZeroTable(MapPage(t, v, entry, frame), w / 1024)
    ensures !ZeroTable(t, w / 1024) && Translate(MapPage(t, v, entry, frame), w) == Translate(t, w)
  {
    EntryParts(frame, TABLE_FLAGS);
    MapPageEntries(t, v, entry, frame, w / 1024);
    MapPageEntries(t, v, entry, frame, v / 1024);
    if w / 1024 == v / 1024 {
      assert w % 1024 != v % 1024;
    }
  }

  /** Pages of entries that do not have frame 0 are unmapped in the range and as before
      elsewhere. */
  ghost predicate Unmapped(s: Space, v0: nat, k: nat, frames: nat, p: Progress) {
    && Words(s) && SharesZeroOnly(p.space)
    && (|p.tables| > frames ==> ZeroMapsNothing(p.space))
    && forall w :: 0 <= w < WINDOW && !ZeroTable(p.space, w / 1024) ==>
         Translate(p.space, w) == if v0 <= w < v0 + k then None else Translate(s, w)
  }

  lemma UnmappedRound(s: Space, v0: nat, k: nat, frames: seq<nat>, p: Progress, entry: nat)
    requires WellFormed(s) && Fresh(s, frames) && v0 + k < WINDOW && !Present(entry)
    requires Tracks(s, v0, k, frames, p) && Usable(p.space, v0 + k, Supply(frames, |p.tables|))
    requires Unmapped(s, v0, k, |frames|, p)
    ensures Unmapped(s, v0, k + 1, |frames|, Round(p, v0 + k, entry, Supply(frames, |p.tables|)))
  {
    hide Missing, MapPage, Tracks, HoldsTableBut, SharesZeroOnly, ZeroMapsNothing, WellFormedBut, ZeroTable, Translate, Fresh;
    var v, frame := v0 + k, Supply(frames, |p.tables|);
    NextIsNoTable(s, v0, k, frames, p);
    RoundUnmaps(p.space, v, entry, frame);
    var u := MapPage(p.space, v, entry, frame);
    SharesWords(u);
    forall w | 0 <= w < WINDOW && w != v && !ZeroTable(u, w / 1024)
      ensures !ZeroTable(p.space, w / 1024) && Translate(u, w) == Translate(p.space, w)
    {
      RoundKeepsOthers(p.space, v, entry, frame, w);
    }
  }

  lemma SharesWords(t: Space)
    requires SharesZeroOnly(t)
    ensures Words(t)
  {
  }

  lemma NextIsNoTable(s: Space, v0: nat, k: nat, frames: seq<nat>, p: Progress)
    requires WellFormed(s) && Fresh(s, frames) && Tracks(s, v0, k, frames, p)
    ensures Supply(frames, |p.tables|) == 0 || !HoldsTable(p.space, Supply(frames, |p.tables|))
  {
    TablesNow(s, v0, k, frames, p, Supply(frames, |p.tables|));
  }

  lemma {:induction false} RangeUnmapped(s: Space, v0: nat, k: nat, physical: nat, flags: nat, frames: seq<nat>)
    requires WellFormed(s) && Fresh(s, frames) && Range(v0, k, physical, flags) && !Present(flags)
    ensures Unmapped(s, v0, k, |frames|, MapRange(s, v0, k, physical, flags, frames))
  {
    hide Fresh, Tracks, Round, WellFormedBut, Unmapped, Usable;
    if k == 0 {
      UnmappedStart(s, v0, |frames|);
    } else {
      var p := MapRange(s, v0, k - 1, physical, flags, frames);
      RangeTracks(s, v0, k - 1, physical, flags, frames);
      RoundTracks(s, v0, k - 1, frames, p, (physical + (k - 1) * PAGE_SIZE) % TWO32 + flags);
      RangeUnmapped(s, v0, k - 1, physical, flags, frames);
      EntryOf(physical, flags, k - 1);
      UnmappedRound(s, v0, k - 1, frames, p, (physical + (k - 1) * PAGE_SIZE) % TWO32 + flags);
    }
  }

  lemma UnmappedStart(s: Space, v0: nat, frames: nat)
    requires WellFormed(s)
    ensures Unmapped(s, v0, 0, frames, Progress(s, []))
  {
  }

  /** Pages whose table is in frame 0 are in the range or map nothing. */
  ghost predicate NothingToLose(s: Space, v0: nat, n: nat)
    requires Words(s)
  {
    forall w :: 0 <= w < WINDOW && ZeroTable(s, w / 1024) && !(v0 <= w < v0 + n) ==> Translate(s, w) == None
  }

  /** Overdrawn with flags that do not map. */
  lemma UnmappedExact(s: Space, v0: nat, n: nat, physical: nat, flags: nat, frames: seq<nat>, p: Progress)
    requires WellFormed(s) && Fresh(s, frames) && Range(v0, n, physical, flags) && !Present(flags)
    requires Tracks(s, v0, n, frames, p) && Unmapped(s, v0, n, |frames|, p) && |p.tables| > |frames|
    ensures Mapped(s, p.space, v0, n, physical, flags) <==> NothingToLose(s, v0, n)
  {
    forall w | 0 <= w < WINDOW && ZeroTable(p.space, w / 1024)
      ensures Translate(p.space, w) == None
      ensures ZeroTable(s, w / 1024) || Translate(s, w) == None
    {
      assert w / 1024 !in p.tables ==> Pde(p.space, w / 1024) == Pde(s, w / 1024);
    }
    forall w | 0 <= w < WINDOW && ZeroTable(s, w / 1024)
      ensures ZeroTable(p.space, w / 1024)
    {
      assert w / 1024 !in p.tables;
    }
    hide Missing, Translate, ZeroTable;
  }

  // ---------------------------------------------------------------- the main result

  lemma {:induction false} IncreasingSize(q: seq<nat>, r: set<nat>)
    requires forall i, j :: 0 <= i < j < |q| ==> q[i] < q[j]
    requires forall i :: i in r <==> i in q
    ensures |r| == |q|
  {
    if q == [] {
      assert r == {};
    } else {
      var n := |q| - 1;
      assert q == q[..n] + [q[n]];
      IncreasingSize(q[..n], r - {q[n]});
    }
  }

  lemma TracksSize(s: Space, v0: nat, k: nat, frames: seq<nat>, p: Progress)
    requires WellFormed(s) && Tracks(s, v0, k, frames, p)
    ensures Words(s) && Words(p.space) && |Missing(s, v0, k)| == |p.tables|
  {
    IncreasingSize(p.tables, Missing(s, v0, k));
  }

  lemma WellFormedWords(s: Space)
    requires WellFormed(s)
    ensures Words(s)
  {
  }

  lemma OneZeroTable(s: Space, q: nat, r: nat)
    requires WellFormed(s) && ZeroTable(s, q) && ZeroTable(s, r)
    ensures q == r
  {
  }

  lemma OneTableShort(s: Space, v0: nat, n: nat, physical: nat, flags: nat, frames: seq<nat>, q: nat)
    requires WellFormed(s) && Fresh(s, frames) && Range(v0, n, physical, flags) && Present(flags)
    requires |MapRange(s, v0, n, physical, flags, frames).tables| == |frames| + 1 && ZeroTable(s, q)
    ensures var t := MapRange(s, v0, n, physical, flags, frames).space;
      Words(t) && (Mapped(s, t, v0, n, physical, flags) <==> Coincides(s, v0, n, physical, flags))
  {
    var p := MapRange(s, v0, n, physical, flags, frames);
    WellFormedWords(s);
    hide WellFormed, Fresh, MapRange, Mapped, MappedBut, LastMissing, SameContent, Untouched;
    RangeTracks(s, v0, n, physical, flags, frames);
    var i := LastShares(s, v0, n, frames, p, q);
    if Untouched(v0, n, q) {
      RangeMapped(s, v0, n, physical, flags, frames, q, |frames| + 1);
    }
    ZeroTableExact(s, v0, n, physical, flags, frames, p, q, i);
    if Coincides(s, v0, n, physical, flags) {
      var r, j :| ZeroTable(s, r) && LastMissing(s, v0, n, j) && SameContent(s, v0, n, physical, flags, r, j);
      OneZeroTable(s, q, r);
      OneLastMissing(s, v0, n, i, j);
    }
  }

  lemma OneLastMissing(s: Space, v0: nat, n: nat, i: nat, j: nat)
    requires Words(s) && LastMissing(s, v0, n, i) && LastMissing(s, v0, n, j)
    ensures i == j
  {
  }

  /** The tables a range needs are no more than there are frames for. */
  ghost predicate Fits(s: Space, v0: nat, n: nat, frames: nat)
    requires Words(s)
  {
    |Missing(s, v0, n)| <= frames + Spare(s)
  }

  /** Where the range is mapped as asked. */
  ghost predicate Succeeds(s: Space, v0: nat, n: nat, physical: nat, flags: nat, frames: nat)
    requires Words(s)
  {
    || Fits(s, v0, n, frames)
    || (if Present(flags) then |Missing(s, v0, n)| == frames + 1 && Coincides(s, v0, n, physical, flags)
        else NothingToLose(s, v0, n))
  }

  /** The range is mapped as asked, with every other page as before, exactly when there are
      frames for all missing tables, counting frame 0 unless it is a table already: the
      first failed allocation turns frame 0 into a table, the next one clears it.  There are
      two exceptions: clearing the table in frame 0 goes unnoticed if what it showed is what
      is entered next, or if with flags that do not map nothing is lost. */
  lemma MapExact(s: Space, v0: nat, n: nat, physical: nat, flags: nat, frames: seq<nat>)
    requires WellFormed(s) && Fresh(s, frames) && Range(v0, n, physical, flags)
    ensures var t := MapRange(s, v0, n, physical, flags, frames).space;
      && Words(t)
      && (Fits(s, v0, n, |frames|) ==> WellFormed(t))
      && (Mapped(s, t, v0, n, physical, flags) <==> Succeeds(s, v0, n, physical, flags, |frames|))
  {
    hide Tracks, Fresh, WellFormedBut, MapRange, MappedBut, Missing, Coincides, HoldsTableBut, NothingToLose, Unmapped;
    var p := MapRange(s, v0, n, physical, flags, frames);
    RangeTracks(s, v0, n, physical, flags, frames);
    TracksSize(s, v0, n, frames, p);
    if |p.tables| <= |frames| + Spare(s) {
      RangeMapped(s, v0, n, physical, flags, frames, NO_ENTRY, |frames| + Spare(s));
    } else if !Present(flags) {
      RangeUnmapped(s, v0, n, physical, flags, frames);
      UnmappedExact(s, v0, n, physical, flags, frames, p);
    } else if |p.tables| > |frames| + 1 {
      RangeLost(s, v0, n, physical, flags, frames, p);
    } else {
      var q := ZeroEntry(s, frames);
      OneTableShort(s, v0, n, physical, flags, frames, q);
    }
  }

  lemma ZeroEntry(s: Space, frames: seq<nat>) returns (q: nat)
    requires WellFormed(s) && Fresh(s, frames) && HoldsTable(s, 0)
    ensures ZeroTable(s, q)
  {
    q :| 0 <= q < 1023 && Present(Pde(s, q)) && FrameOf(Pde(s, q)) == 0;
  }

  // ---------------------------------------------------------------- where it fails

  function Directory(i: nat, entry: nat): Table {
    seq(1024, j => if j == 1023 then PAGE_SIZE + 3 else if j == i then entry else 0)
  }

  /** Without frames, 1025 pages that need two tables are not mapped. */
  lemma TwoTablesShort()
    ensures var s := Space(PAGE_SIZE, map[PAGE_SIZE := Directory(0, 0)]);
      var t := MapRange(s, 0, 1025, 0, 3, []).space;
      WellFormed(s) && Missing(s, 0, 1025) == {0, 1} && Words(t) && !Mapped(s, t, 0, 1025, 0, 3)
  {
    var s := Space(PAGE_SIZE, map[PAGE_SIZE := Directory(0, 0)]);
    assert Missing(s, 0, 1025) == {0, 1};
    hide Mapped, MapRange, Missing;
    MapExact(s, 0, 1025, 0, 3, []);
  }

  /** Without frames, and with frame 0 a table already, one page that needs one table costs
      a page its translation. */
  lemma FrameZeroTwice()
    ensures var table: Table := seq(1024, j => if j == 1 then 2 * PAGE_SIZE + 3 else 0);
      var s := Space(PAGE_SIZE, map[PAGE_SIZE := Directory(5, TABLE_FLAGS), 0 := table]);
      var t := MapRange(s, 0, 1, 3 * PAGE_SIZE, 3, []).space;
      && WellFormed(s) && Missing(s, 0, 1) == {0} && ZeroTable(s, 5) && Words(t)
      && Translate(s, 5 * 1024 + 1) == Some(Mapping(2 * PAGE_SIZE, 3))
      && Translate(t, 5 * 1024 + 1) == None
  {
    var table: Table := seq(1024, j => if j == 1 then 2 * PAGE_SIZE + 3 else 0);
    var s := Space(PAGE_SIZE, map[PAGE_SIZE := Directory(5, TABLE_FLAGS), 0 := table]);
    assert Missing(s, 0, 1) == {0};
    assert MapRange(s, 0, 0, 3 * PAGE_SIZE, 3, []) == Progress(s, []);
    MapPageEntries(s, 0, 3 * PAGE_SIZE + 3, 0, 5);
  }

  /** In the same situation, a page mapped like the one whose table is cleared: both are
      mapped as they should, through one table. */
  lemma FrameZeroUnnoticed()
    ensures var table: Table := seq(1024, j => if j == 0 then 3 * PAGE_SIZE + 3 else 0);
      var s := Space(PAGE_SIZE, map[PAGE_SIZE := Directory(5, TABLE_FLAGS), 0 := table]);
      var t := MapRange(s, 0, 1, 3 * PAGE_SIZE, 3, []).space;
      WellFormed(s) && |Missing(s, 0, 1)| == 1 && ZeroTable(s, 5) && Words(t) && Mapped(s, t, 0, 1, 3 * PAGE_SIZE, 3)
  {
    var table: Table := seq(1024, j => if j == 0 then 3 * PAGE_SIZE + 3 else 0);
    var s := Space(PAGE_SIZE, map[PAGE_SIZE := Directory(5, TABLE_FLAGS), 0 := table]);
    assert Missing(s, 0, 1) == {0};
    assert SameContent(s, 0, 1, 3 * PAGE_SIZE, 3, 5, 0);
    hide Mapped, MapRange;
    MapExact(s, 0, 1, 3 * PAGE_SIZE, 3, []);
  }
}
