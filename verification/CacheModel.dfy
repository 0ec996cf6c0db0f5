/** The write-back block cache of fs/btrfs/btrfs.c as a value: 32 slots over a disk, what
    the pair is worth as one plain disk, and runs of reads, writes and flushes. */
module CacheModel {
  import opened Basics

  const CACHE_SLOTS := 32
  const BLOCK_SIZE := 512

  type Block = seq<bv8>

  datatype Slot = Slot(blockId: nat, data: Block, dirty: bool, valid: bool)

  datatype Cache = Cache(slots: seq<Slot>, disk: map<nat, Block>)

  function ZeroBlock(): (b: Block)
    ensures |b| == BLOCK_SIZE
  {
    seq(BLOCK_SIZE, _ => 0)
  }

  /** A sector never written reads as zeros. */
  function Sector(disk: map<nat, Block>, b: nat): Block {
    if b in disk then disk[b] else ZeroBlock()
  }

  predicate Holds(s: Slot, b: nat) {
    s.valid && s.blockId == b
  }

  predicate Reusable(s: Slot) {
    !s.valid || !s.dirty
  }

  predicate Cached(slots: seq<Slot>, b: nat) {
    exists i :: 0 <= i < |slots| && Holds(slots[i], b)
  }

  /** A block is in at most one slot, clean slots equal the disk, and every block has
      its full size. */
  ghost predicate Inv(c: Cache) {
    && |c.slots| == CACHE_SLOTS
    && (forall i :: 0 <= i < CACHE_SLOTS ==> SlotOk(c.slots[i], c.disk))
    && (forall b :: b in c.disk ==> |c.disk[b]| == BLOCK_SIZE)
    && (forall i, j :: 0 <= i < j < CACHE_SLOTS && c.slots[i].valid && c.slots[j].valid ==>
          c.slots[i].blockId != c.slots[j].blockId)
  }

  ghost predicate SlotOk(s: Slot, disk: map<nat, Block>) {
    && |s.data| == BLOCK_SIZE
    && (!s.valid ==> !s.dirty)
    && (s.valid && !s.dirty ==> s.data == Sector(disk, s.blockId))
  }

  /** The content of block `b` as a reader is to see it. */
  ghost function View(c: Cache, b: nat): Block {
    if i :| 0 <= i < |c.slots| && Holds(c.slots[i], b) then c.slots[i].data else Sector(c.disk, b)
  }

  lemma ViewCached(c: Cache, i: nat, b: nat)
    requires Inv(c) && i < CACHE_SLOTS && Holds(c.slots[i], b)
    ensures View(c, b) == c.slots[i].data
  {
  }

  /** Pointwise reading of a view. */
  lemma ViewIs(c: Cache, b: nat, data: Block)
    requires Inv(c)
    requires forall i :: 0 <= i < CACHE_SLOTS && Holds(c.slots[i], b) ==> c.slots[i].data == data
    requires !Cached(c.slots, b) ==> Sector(c.disk, b) == data
    ensures View(c, b) == data
  {
  }

  // ---------------------------------------------------------------- steps

  /** Reuses slot `i` for block `b`, writing its old content back if it is marked dirty. */
  function Load(c: Cache, b: nat, i: nat): Cache
    requires i < |c.slots|
  {
    var s := c.slots[i];
    var disk := if s.dirty then c.disk[s.blockId := s.data] else c.disk;
    Cache(c.slots[i := Slot(b, Sector(disk, b), false, true)], disk)
  }

  /** block_get: a hit changes nothing; a miss loads the block into the first slot that
      is invalid or clean; with every slot dirty there is no answer. */
  ghost predicate GetStep(c: Cache, b: nat, r: Option<nat>, c': Cache) {
    match r
    case Some(i) =>
      && i < |c.slots|
      && if Cached(c.slots, b) then Holds(c.slots[i], b) && c' == c
         else
           && Reusable(c.slots[i]) && (forall j :: 0 <= j < i ==> !Reusable(c.slots[j]))
           && c' == Load(c, b, i)
    case None =>
      c' == c && !Cached(c.slots, b) && forall j :: 0 <= j < |c.slots| ==> !Reusable(c.slots[j])
  }

  /** Overwriting a cached block and marking it dirty. */
  function Overwrite(c: Cache, i: nat, data: Block): Cache
    requires i < |c.slots|
  {
    c.(slots := c.slots[i := c.slots[i].(data := data, dirty := true)])
  }

  function FlushSlot(c: Cache, i: nat): Cache
    requires i < |c.slots|
  {
    var s := c.slots[i];
    if s.valid && s.dirty then Cache(c.slots[i := s.(dirty := false)], c.disk[s.blockId := s.data]) else c
  }

  /** btrfs_flush_cache after its first `n` slots. */
  function Flush(c: Cache, n: nat): (r: Cache)
    requires n <= |c.slots|
    ensures |r.slots| == |c.slots|
  {
    if n == 0 then c else FlushSlot(Flush(c, n - 1), n - 1)
  }

  /** Getting a block keeps the invariant and what every block is worth. */
  lemma GetKeeps(c: Cache, b: nat, r: Option<nat>, c': Cache)
    requires Inv(c) && GetStep(c, b, r, c')
    ensures Inv(c')
    ensures forall x :: View(c', x) == View(c, x)
    ensures r.Some? ==> Holds(c'.slots[r.value], b) && c'.slots[r.value].data == View(c, b)
  {
    hide View;
    match r
    case Some(i) =>
      if Cached(c.slots, b) {
        ViewCached(c, i, b);
      } else {
        LoadKeeps(c, b, i);
      }
    case None =>
  }

  lemma LoadKeeps(c: Cache, b: nat, i: nat)
    requires Inv(c) && i < CACHE_SLOTS && Reusable(c.slots[i]) && !Cached(c.slots, b)
    ensures var c' := Load(c, b, i);
      && Inv(c')
      && (forall x :: View(c', x) == View(c, x))
      && View(c, b) == Sector(c.disk, b)
  {
    hide View;
    var c' := Load(c, b, i);
    assert forall j :: 0 <= j < CACHE_SLOTS ==> !Holds(c.slots[j], b);
    assert Inv(c');
    ViewIs(c, b, Sector(c.disk, b));
    forall x
      ensures View(c', x) == View(c, x)
    {
      if x == b {
        ViewIs(c', b, Sector(c.disk, b));
      } else {
        LoadOther(c, c', b, i, x);
      }
    }
  }

  lemma LoadOther(c: Cache, c': Cache, b: nat, i: nat, x: nat)
    requires Inv(c) && Inv(c') && i < CACHE_SLOTS && Reusable(c.slots[i]) && x != b
    requires c' == Load(c, b, i)
    ensures View(c', x) == View(c, x)
  {
    if j :| 0 <= j < CACHE_SLOTS && Holds(c.slots[j], x) {
      ViewCached(c, j, x);
      if j == i {
        ViewIs(c', x, Sector(c.disk, x));
      } else {
        ViewCached(c', j, x);
      }
    } else {
      ViewIs(c', x, Sector(c.disk, x));
    }
  }

  /** Overwriting a cached block changes the worth of that block and no other. */
  lemma OverwriteKeeps(c: Cache, i: nat, b: nat, data: Block)
    requires Inv(c) && i < CACHE_SLOTS && Holds(c.slots[i], b) && |data| == BLOCK_SIZE
    ensures Inv(Overwrite(c, i, data))
    ensures forall x :: View(Overwrite(c, i, data), x) == if x == b then data else View(c, x)
  {
    hide View;
    var c' := Overwrite(c, i, data);
    ViewCached(c', i, b);
    forall x | x != b
      ensures View(c', x) == View(c, x)
    {
      if j :| 0 <= j < CACHE_SLOTS && Holds(c.slots[j], x) {
        ViewCached(c, j, x);
        ViewCached(c', j, x);
      } else {
        ViewIs(c, x, Sector(c.disk, x));
        ViewIs(c', x, Sector(c.disk, x));
      }
    }
  }

  lemma FlushSlotKeeps(c: Cache, i: nat)
    requires Inv(c) && i < CACHE_SLOTS
    ensures Inv(FlushSlot(c, i))
    ensures forall x :: View(FlushSlot(c, i), x) == View(c, x)
  {
    hide View;
    var c' := FlushSlot(c, i);
    forall x
      ensures View(c', x) == View(c, x)
    {
      if j :| 0 <= j < CACHE_SLOTS && Holds(c.slots[j], x) {
        ViewCached(c, j, x);
        ViewCached(c', j, x);
      } else {
        ViewIs(c, x, Sector(c.disk, x));
        ViewIs(c', x, Sector(c.disk, x));
      }
    }
  }

  /** Flushing changes no block and leaves the first `n` slots clean. */
  lemma {:induction false} FlushKeeps(c: Cache, n: nat)
    requires Inv(c) && n <= CACHE_SLOTS
    ensures Inv(Flush(c, n))
    ensures forall x :: View(Flush(c, n), x) == View(c, x)
    ensures forall i :: 0 <= i < n ==> !Flush(c, n).slots[i].dirty
  {
    hide View;
    if n > 0 {
      FlushKeeps(c, n - 1);
      FlushSlotKeeps(Flush(c, n - 1), n - 1);
    }
  }

  /** After a flush the disk itself is worth what the cache and the disk were worth. */
  lemma FlushedDisk(c: Cache)
    requires Inv(c)
    ensures forall x :: Sector(Flush(c, CACHE_SLOTS).disk, x) == View(c, x)
  {
    hide View;
    FlushKeeps(c, CACHE_SLOTS);
    var d := Flush(c, CACHE_SLOTS);
    forall x
      ensures Sector(d.disk, x) == View(c, x)
    {
      ViewIs(d, x, Sector(d.disk, x));
    }
  }

  // ---------------------------------------------------------------- runs

  /** Calls with their answers.  A write is "get, write the slot, mark dirty". */
  datatype Event =
    | Read(block: nat, got: Option<Block>)
    | Write(block: nat, data: Block, done: bool)
    | FlushAll

  function SlotData(c: Cache, r: Option<nat>): Option<Block> {
    match r
    case Some(i) => if i < |c.slots| then Some(c.slots[i].data) else None
    case None => None
  }

  ghost predicate Written(m: Cache, r: Option<nat>, data: Block, done: bool, c': Cache) {
    match r
    case Some(i) => done && i < |m.slots| && c' == Overwrite(m, i, data)
    case None => !done && c' == m
  }

  ghost predicate Step(c: Cache, e: Event, c': Cache) {
    match e
    case Read(b, got) => exists r :: GetStep(c, b, r, c') && got == SlotData(c', r)
    case Write(b, data, done) =>
      |data| == BLOCK_SIZE && exists r, m :: GetStep(c, b, r, m) && Written(m, r, data, done, c')
    case FlushAll => |c.slots| == CACHE_SLOTS && c' == Flush(c, CACHE_SLOTS)
  }

  ghost predicate IsRunOf(cs: seq<Cache>, es: seq<Event>) {
    |cs| == |es| + 1 && forall i :: 0 <= i < |es| ==> Step(cs[i], es[i], cs[i + 1])
  }

  /** The same call on a plain disk. */
  function PlainStep(d: map<nat, Block>, e: Event): map<nat, Block> {
    match e
    case Write(b, data, true) => d[b := data]
    case _ => d
  }

  function Plain(disk: map<nat, Block>, es: seq<Event>): map<nat, Block> {
    if es == [] then disk else PlainStep(Plain(disk, es[..|es| - 1]), es[|es| - 1])
  }

  lemma PlainNext(disk: map<nat, Block>, es: seq<Event>, e: Event)
    ensures Plain(disk, es + [e]) == PlainStep(Plain(disk, es), e)
  {
    assert (es + [e])[..|es|] == es;
  }

  /** Nothing is cached yet. */
  ghost predicate Cold(c: Cache) {
    Inv(c) && forall i :: 0 <= i < CACHE_SLOTS ==> !c.slots[i].valid
  }

  /** Cache and disk together are worth the plain disk `d`. */
  ghost predicate Worth(c: Cache, d: map<nat, Block>) {
    forall x :: View(c, x) == Sector(d, x)
  }

  lemma WriteRefines(c: Cache, b: nat, data: Block, done: bool, c': Cache)
    requires Inv(c) && Step(c, Write(b, data, done), c')
    ensures Inv(c')
    ensures done ==> forall x :: View(c', x) == if x == b then data else View(c, x)
    ensures !done ==> c' == c && !Cached(c.slots, b) && forall i :: 0 <= i < CACHE_SLOTS ==> c.slots[i].dirty
  {
    hide View, Cached;
    var r, m :| GetStep(c, b, r, m) && Written(m, r, data, done, c');
    GetKeeps(c, b, r, m);
    if r.Some? {
      OverwriteKeeps(m, r.value, b, data);
    }
  }

  lemma ReadRefines(c: Cache, b: nat, got: Option<Block>, c': Cache)
    requires Inv(c) && Step(c, Read(b, got), c')
    ensures Inv(c') && forall x :: View(c', x) == View(c, x)
    ensures got.Some? ==> got.value == View(c, b)
    ensures got.None? ==> c' == c && !Cached(c.slots, b) && forall i :: 0 <= i < CACHE_SLOTS ==> c.slots[i].dirty
  {
    hide View, Cached;
    var r :| GetStep(c, b, r, c') && got == SlotData(c', r);
    GetKeeps(c, b, r, c');
  }

  lemma FlushRefines(c: Cache, c': Cache)
    requires Inv(c) && Step(c, FlushAll, c')
    ensures Inv(c') && forall x :: View(c', x) == View(c, x)
    ensures forall x :: Sector(c'.disk, x) == View(c, x)
  {
    hide View, Flush;
    FlushKeeps(c, CACHE_SLOTS);
    FlushedDisk(c);
  }

  /** One step keeps the cache worth the plain disk, and reads give the plain content. */
  lemma StepRefines(c: Cache, e: Event, c': Cache, d: map<nat, Block>)
    requires Inv(c) && Step(c, e, c') && Worth(c, d)
    ensures Inv(c') && Worth(c', PlainStep(d, e))
    ensures e.Read? && e.got.Some? ==> e.got.value == Sector(d, e.block)
    ensures (e.Read? && e.got.None?) || (e.Write? && !e.done) ==>
              c' == c && !Cached(c.slots, e.block) && forall i :: 0 <= i < CACHE_SLOTS ==> c.slots[i].dirty
    ensures e.FlushAll? ==> forall x :: Sector(c'.disk, x) == Sector(d, x)
  {
    hide View, Cached, Step;
    match e
    case Read(b, got) =>
      ReadRefines(c, b, got, c');
    case Write(b, data, done) =>
      WriteRefines(c, b, data, done, c');
    case FlushAll =>
      FlushRefines(c, c');
  }

  lemma {:induction false} RunRefines(cs: seq<Cache>, es: seq<Event>, n: nat)
    requires IsRunOf(cs, es) && Cold(cs[0]) && n <= |es|
    ensures Inv(cs[n]) && Worth(cs[n], Plain(cs[0].disk, es[..n]))
  {
    hide View, Step, PlainStep, Sector;
    if n == 0 {
      forall x
        ensures View(cs[0], x) == Sector(cs[0].disk, x)
      {
        ViewIs(cs[0], x, Sector(cs[0].disk, x));
      }
    } else {
      RunRefines(cs, es, n - 1);
      StepRefines(cs[n - 1], es[n - 1], cs[n], Plain(cs[0].disk, es[..n - 1]));
      PlainNext(cs[0].disk, es[..n - 1], es[n - 1]);
      assert es[..n] == es[..n - 1] + [es[n - 1]];
    }
  }

  /** Over every run that starts with a cold cache: each read gives what a plain disk
      would give, a refusal means the block is uncached and all 32 slots are dirty, and a
      flush leaves exactly the plain disk on the platter. */
  lemma CacheIsTransparent(cs: seq<Cache>, es: seq<Event>, n: nat)
    requires IsRunOf(cs, es) && Cold(cs[0]) && n < |es|
    ensures var plain := Plain(cs[0].disk, es[..n]);
      match es[n]
      case Read(b, Some(data)) => data == Sector(plain, b)
      case Read(b, None) =>
        !Cached(cs[n].slots, b) && forall i :: 0 <= i < CACHE_SLOTS ==> i < |cs[n].slots| && cs[n].slots[i].dirty
      case Write(b, _, false) =>
        !Cached(cs[n].slots, b) && forall i :: 0 <= i < CACHE_SLOTS ==> i < |cs[n].slots| && cs[n].slots[i].dirty
      case Write(_, _, true) => true
      case FlushAll => forall x :: Sector(cs[n + 1].disk, x) == Sector(plain, x)
  {
    hide View, Plain, Cached;
    RunRefines(cs, es, n);
    StepRefines(cs[n], es[n], cs[n + 1], Plain(cs[0].disk, es[..n]));
  }

  // ---------------------------------------------------------------- refusals

  /** The blocks written since the last flush. */
  function WrittenSince(es: seq<Event>): set<nat> {
    if es == [] then {}
    else
      var before := WrittenSince(es[..|es| - 1]);
      match es[|es| - 1]
      case FlushAll => {}
      case Write(b, _, true) => before + {b}
      case _ => before
  }

  /** Every dirty slot holds one of these blocks. */
  ghost predicate DirtyIn(c: Cache, written: set<nat>) {
    forall i :: 0 <= i < |c.slots| && c.slots[i].dirty ==> c.slots[i].valid && c.slots[i].blockId in written
  }

  lemma GetDirties(c: Cache, b: nat, r: Option<nat>, m: Cache, written: set<nat>)
    requires DirtyIn(c, written) && GetStep(c, b, r, m)
    ensures DirtyIn(m, written)
  {
    hide Sector;
  }

  lemma StepDirties(c: Cache, e: Event, c': Cache, es: seq<Event>)
    requires Inv(c) && Step(c, e, c') && DirtyIn(c, WrittenSince(es))
    ensures DirtyIn(c', WrittenSince(es + [e]))
  {
    hide Sector, View, GetStep, Flush;
    assert (es + [e])[..|es|] == es;
    match e
    case Read(b, got) =>
      var r :| GetStep(c, b, r, c') && got == SlotData(c', r);
      GetDirties(c, b, r, c', WrittenSince(es));
    case Write(b, data, done) =>
      var r, m :| GetStep(c, b, r, m) && Written(m, r, data, done, c');
      GetKeeps(c, b, r, m);
      GetDirties(c, b, r, m, WrittenSince(es));
    case FlushAll =>
      FlushKeeps(c, CACHE_SLOTS);
  }

  lemma {:induction false} RunDirties(cs: seq<Cache>, es: seq<Event>, n: nat)
    requires IsRunOf(cs, es) && Cold(cs[0]) && n <= |es|
    ensures Inv(cs[n]) && DirtyIn(cs[n], WrittenSince(es[..n]))
  {
    hide View, Step, Plain, WrittenSince, DirtyIn;
    RunRefines(cs, es, n);
    if n == 0 {
      NothingDirty(cs[0]);
      assert es[..0] == [];
    } else {
      RunDirties(cs, es, n - 1);
      StepDirties(cs[n - 1], es[n - 1], cs[n], es[..n - 1]);
      assert es[..n] == es[..n - 1] + [es[n - 1]];
    }
  }

  lemma NothingDirty(c: Cache)
    requires Cold(c)
    ensures DirtyIn(c, WrittenSince([]))
  {
    assert forall i :: 0 <= i < CACHE_SLOTS ==> SlotOk(c.slots[i], c.disk);
  }

  lemma {:induction false} DirtyBlocks(c: Cache, n: nat) returns (bs: set<nat>)
    requires Inv(c) && n <= CACHE_SLOTS && forall i :: 0 <= i < n ==> c.slots[i].dirty && c.slots[i].valid
    ensures |bs| == n && forall b :: b in bs <==> exists i :: 0 <= i < n && c.slots[i].blockId == b
  {
    bs := {};
    if n > 0 {
      bs := DirtyBlocks(c, n - 1);
      bs := bs + {c.slots[n - 1].blockId};
    }
  }

  /** A refusal means that 32 different blocks were written since the last flush. */
  lemma RefusedAfter32(cs: seq<Cache>, es: seq<Event>, n: nat)
    requires IsRunOf(cs, es) && Cold(cs[0]) && n < |es|
    requires (es[n].Read? && es[n].got.None?) || (es[n].Write? && !es[n].done)
    ensures |WrittenSince(es[..n])| >= 32
  {
    hide View, Plain, Cached, WrittenSince;
    CacheIsTransparent(cs, es, n);
    RunDirties(cs, es, n);
    var bs := DirtyBlocks(cs[n], CACHE_SLOTS);
    SubsetSize(bs, WrittenSince(es[..n]));
  }
}
