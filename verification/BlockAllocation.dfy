/** The block allocator of fs/btrfs/btrfs.c: a bitmap kept in block 1 and reached through
    the cache, under any mix of allocations, frees and other traffic. */
module BlockAllocation {
  import opened Basics
  import opened CacheModel
  import Bitmap

  const BITMAP_BLOCK := 1
  const BLOCK_BITS := 4096   // 8 * BLOCK_SIZE

  datatype Answer =
    | Allocated(number: nat)
    | NoSpace                  // returns -1
    | NullBuffer               // block_get had no slot, and NULL is dereferenced

  datatype Action =
    | Traffic(event: Event)
    | Allocate(answer: Answer)
    | Free(number: nat, done: bool)

  ghost predicate LowestClear(bytes: seq<bv8>, n: nat) {
    && n < 8 * |bytes| && !Bitmap.Test(bytes, n)
    && forall k :: 0 <= k < n ==> Bitmap.Test(bytes, k)
  }

  /** What btrfs_allocate_block does with the bitmap in slot `i`. */
  ghost predicate AllocateIn(m: Cache, i: nat, a: Answer, c': Cache)
    requires i < |m.slots|
  {
    var bytes := m.slots[i].data;
    match a
    case Allocated(n) => LowestClear(bytes, n) && c' == Overwrite(m, i, Bitmap.Put(bytes, n, true))
    case NoSpace => c' == m && forall n :: 0 <= n < 8 * |bytes| ==> Bitmap.Test(bytes, n)
    case NullBuffer => false
  }

  ghost predicate AllocateStep(c: Cache, a: Answer, c': Cache) {
    exists r: Option<nat>, m :: GetStep(c, BITMAP_BLOCK, r, m) && AllocateWith(m, r, a, c')
  }

  ghost predicate AllocateWith(m: Cache, r: Option<nat>, a: Answer, c': Cache) {
    match r
    case None => a == NullBuffer && c' == m
    case Some(i) => i < |m.slots| && AllocateIn(m, i, a, c')
  }

  ghost predicate FreeStep(c: Cache, n: nat, done: bool, c': Cache) {
    exists r: Option<nat>, m :: GetStep(c, BITMAP_BLOCK, r, m) && FreeWith(m, r, n, done, c')
  }

  ghost predicate FreeWith(m: Cache, r: Option<nat>, n: nat, done: bool, c': Cache) {
    match r
    case None => !done && c' == m
    case Some(i) =>
      && done && i < |m.slots| && n < 8 * |m.slots[i].data|
      && c' == Overwrite(m, i, Bitmap.Put(m.slots[i].data, n, false))
  }

  /** Other traffic may read anything but writes blocks other than the bitmap. */
  ghost predicate ActionStep(c: Cache, a: Action, c': Cache) {
    match a
    case Traffic(e) => (e.Write? ==> e.block != BITMAP_BLOCK) && Step(c, e, c')
    case Allocate(answer) => AllocateStep(c, answer, c')
    case Free(n, done) => FreeStep(c, n, done, c')
  }

  ghost predicate IsRunOfActions(cs: seq<Cache>, acts: seq<Action>) {
    |cs| == |acts| + 1 && forall i :: 0 <= i < |acts| ==> ActionStep(cs[i], acts[i], cs[i + 1])
  }

  /** Block numbers allocated and not freed since, one entry per allocation. */
  function Live(acts: seq<Action>): seq<nat> {
    if acts == [] then []
    else
      var live := Live(acts[..|acts| - 1]);
      match acts[|acts| - 1]
      case Allocate(Allocated(n)) => live + [n]
      case Free(n, true) => Drop(live, {n})
      case _ => live
  }

  ghost function Taken(c: Cache): set<nat> {
    Bitmap.Bits(View(c, BITMAP_BLOCK))
  }

  /** What a step does to the bitmap, whatever slot it is in. */
  lemma ActionTakes(c: Cache, a: Action, c': Cache)
    requires Inv(c) && ActionStep(c, a, c')
    ensures Inv(c')
    ensures match a
            case Allocate(Allocated(n)) =>
              n < BLOCK_BITS && n !in Taken(c) && Taken(c') == Taken(c) + {n} && forall k :: 0 <= k < n ==> k in Taken(c)
            case Allocate(NoSpace) => Taken(c') == Taken(c) && forall k :: 0 <= k < BLOCK_BITS ==> k in Taken(c)
            case Free(n, true) => Taken(c') == Taken(c) - {n}
            case _ => Taken(c') == Taken(c)
  {
    match a
    case Traffic(e) => TrafficKeeps(c, e, c');
    case Allocate(answer) => AllocateTakes(c, answer, c');
    case Free(n, done) => FreeGives(c, n, done, c');
  }

  lemma TrafficKeeps(c: Cache, e: Event, c': Cache)
    requires Inv(c) && Step(c, e, c') && (e.Write? ==> e.block != BITMAP_BLOCK)
    ensures Inv(c') && View(c', BITMAP_BLOCK) == View(c, BITMAP_BLOCK)
  {
    hide View;
    match e
    case Read(b, got) =>
      ReadRefines(c, b, got, c');
    case Write(b, data, done) =>
      WriteRefines(c, b, data, done, c');
    case FlushAll => FlushKeeps(c, CACHE_SLOTS);
  }

  lemma AllocateTakes(c: Cache, a: Answer, c': Cache)
    requires Inv(c) && AllocateStep(c, a, c')
    ensures Inv(c')
    ensures match a
            case Allocated(n) =>
              n < BLOCK_BITS && n !in Taken(c) && Taken(c') == Taken(c) + {n} && forall k :: 0 <= k < n ==> k in Taken(c)
            case NoSpace => Taken(c') == Taken(c) && forall k :: 0 <= k < BLOCK_BITS ==> k in Taken(c)
            case NullBuffer => c' == c
  {
    hide View;
    var r: Option<nat>, m :| GetStep(c, BITMAP_BLOCK, r, m) && AllocateWith(m, r, a, c');
    GetKeeps(c, BITMAP_BLOCK, r, m);
    if r.Some? {
      var bytes := m.slots[r.value].data;
      assert bytes == View(c, BITMAP_BLOCK);
      match a
      case Allocated(n) =>
        Bitmap.PutBits(bytes, n, true);
        OverwriteKeeps(m, r.value, BITMAP_BLOCK, Bitmap.Put(bytes, n, true));
      case NoSpace =>
      case NullBuffer =>
    }
  }

  lemma FreeGives(c: Cache, n: nat, done: bool, c': Cache)
    requires Inv(c) && FreeStep(c, n, done, c')
    ensures Inv(c') && Taken(c') == if done then Taken(c) - {n} else Taken(c)
  {
    hide View;
    var r: Option<nat>, m :| GetStep(c, BITMAP_BLOCK, r, m) && FreeWith(m, r, n, done, c');
    GetKeeps(c, BITMAP_BLOCK, r, m);
    if r.Some? {
      var bytes := m.slots[r.value].data;
      Bitmap.PutBits(bytes, n, false);
      OverwriteKeeps(m, r.value, BITMAP_BLOCK, Bitmap.Put(bytes, n, false));
    }
  }

  /** Across any mix of actions, allocated and unfreed block numbers are distinct and
      marked in the bitmap. */
  lemma {:induction false} LiveBlocksDistinct(cs: seq<Cache>, acts: seq<Action>)
    requires IsRunOfActions(cs, acts) && Inv(cs[0])
    ensures Inv(cs[|acts|]) && Distinct(Live(acts))
    ensures forall n :: n in Live(acts) ==> n in Taken(cs[|acts|])
  {
    hide Taken, ActionStep;
    if acts != [] {
      var k := |acts| - 1;
      LiveBlocksDistinct(cs[..k + 1], acts[..k]);
      assert ActionStep(cs[k], acts[k], cs[k + 1]);
      ActionTakes(cs[k], acts[k], cs[k + 1]);
    }
  }

  /** Whenever a run is told there is no space, all 4096 bits are set. */
  lemma NoSpaceMeansFull(cs: seq<Cache>, acts: seq<Action>, k: nat)
    requires IsRunOfActions(cs, acts) && Inv(cs[0]) && k < |acts| && acts[k] == Allocate(NoSpace)
    ensures forall n :: 0 <= n < BLOCK_BITS ==> n in Taken(cs[k])
  {
    hide Taken, ActionStep;
    LiveBlocksDistinct(cs[..k + 1], acts[..k]);
    assert ActionStep(cs[k], acts[k], cs[k + 1]);
    ActionTakes(cs[k], acts[k], cs[k + 1]);
  }

  /** Allocating and freeing change no block but block 1. */
  lemma OtherBlocksStay(c: Cache, a: Action, c': Cache, x: nat)
    requires Inv(c) && ActionStep(c, a, c') && !a.Traffic? && x != 1
    ensures View(c', x) == View(c, x)
  {
    hide View;
    match a
    case Allocate(answer) =>
      var r: Option<nat>, m :| GetStep(c, BITMAP_BLOCK, r, m) && AllocateWith(m, r, answer, c');
      GetKeeps(c, BITMAP_BLOCK, r, m);
      if answer.Allocated? {
        OverwriteKeeps(m, r.value, BITMAP_BLOCK, Bitmap.Put(m.slots[r.value].data, answer.number, true));
      }
    case Free(n, done) =>
      var r: Option<nat>, m :| GetStep(c, BITMAP_BLOCK, r, m) && FreeWith(m, r, n, done, c');
      GetKeeps(c, BITMAP_BLOCK, r, m);
      if done {
        OverwriteKeeps(m, r.value, BITMAP_BLOCK, Bitmap.Put(m.slots[r.value].data, n, false));
      }
  }
}
