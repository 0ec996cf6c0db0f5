/** The allocation groups of fs/xfs as a value: four groups of 32 inodes and 1024 blocks,
    and the creation of files in them. */
module XfsModel {
  import opened Basics
  import Bitmap

  const AG_COUNT := 4
  const MAX_FILES := 32
  const BLOCKS := 1024
  const MAX_NAME := 64

  const NO_BLOCK: int := -1

  const EINVAL := 22
  const ENOSPC := 28
  const EIO := 5

  datatype Inode = Inode(number: nat, name: string, kind: nat, startBlock: nat, parent: nat, active: bool)

  datatype Group = Group(freeBlocks: nat, inodeCount: nat, inodes: seq<Inode>, bitmap: seq<bv8>)

  datatype Volume = Volume(groups: seq<Group>, counter: nat)

  // ---------------------------------------------------------------- names

  predicate Blank(c: char) {
    c == ' ' || c == '\t' || c == '\n' || c == '\r'
  }

  /** The leading part without blanks. */
  function BeforeBlank(s: string): (r: string)
    ensures r <= s && (forall c :: c in r ==> !Blank(c)) && (|r| < |s| ==> Blank(s[|r|]))
  {
    if s == [] || Blank(s[0]) then [] else [s[0]] + BeforeBlank(s[1..])
  }

  /** One leading slash and everything from the first blank on are dropped. */
  function CleanName(name: string): string {
    BeforeBlank(if name != [] && name[0] == '/' then name[1..] else name)
  }

  // ---------------------------------------------------------------- operations

  /** The group with the most free blocks among the first `n`, the first of several. */
  function PickAmong(groups: seq<Group>, n: nat): (best: nat)
    requires 1 <= n <= |groups|
    ensures best < n
    ensures forall i :: 0 <= i < n ==> groups[i].freeBlocks <= groups[best].freeBlocks
    ensures forall i :: 0 <= i < best ==> groups[i].freeBlocks < groups[best].freeBlocks
  {
    if n == 1 then 0
    else
      var b := PickAmong(groups, n - 1);
      if groups[n - 1].freeBlocks > groups[b].freeBlocks then n - 1 else b
  }

  /** The first clear bit from `i` on, or 1024. */
  function FirstFree(bitmap: seq<bv8>, i: nat): (r: nat)
    requires |bitmap| == BLOCKS / 8 && i <= BLOCKS
    ensures i <= r <= BLOCKS
    ensures r < BLOCKS ==> !Bitmap.Test(bitmap, r)
    ensures forall j :: i <= j < r ==> Bitmap.Test(bitmap, j)
    decreases BLOCKS - i
  {
    if i == BLOCKS || !Bitmap.Test(bitmap, i) then i else FirstFree(bitmap, i + 1)
  }

  /** xfs_alloc_block: the group afterwards and the block, or -1. */
  function AllocBlock(g: Group): (Group, int)
    requires |g.bitmap| == BLOCKS / 8
  {
    if g.freeBlocks == 0 then (g, NO_BLOCK)
    else
      var i := FirstFree(g.bitmap, 0);
      if i == BLOCKS then (g, NO_BLOCK)
      else (g.(bitmap := Bitmap.Put(g.bitmap, i, true), freeBlocks := g.freeBlocks - 1), i as int)
  }

  /** The first inactive inode slot from `j` on, or 32. */
  function FreeSlot(inodes: seq<Inode>, j: nat): (r: nat)
    requires |inodes| == MAX_FILES && j <= MAX_FILES
    ensures j <= r <= MAX_FILES && (r < MAX_FILES ==> !inodes[r].active)
    ensures forall k :: j <= k < r ==> inodes[k].active
    decreases MAX_FILES - j
  {
    if j == MAX_FILES || !inodes[j].active then j else FreeSlot(inodes, j + 1)
  }

  ghost predicate Sized(v: Volume) {
    |v.groups| == AG_COUNT &&
    forall i :: 0 <= i < AG_COUNT ==> |v.groups[i].inodes| == MAX_FILES && |v.groups[i].bitmap| == BLOCKS / 8
  }

  /** Binds a new inode in group `g`, whose block is `block`. */
  function Bind(g: Group, slot: nat, inode: Inode): Group
    requires slot < |g.inodes|
  {
    g.(inodes := g.inodes[slot := inode], inodeCount := g.inodeCount + 1)
  }

  /** xfs_create_file for a name that survives cleaning. */
  ghost function CreateClean(v: Volume, name: string, kind: nat, parent: nat): (Volume, int)
    requires Sized(v)
  {
    var ag := PickAmong(v.groups, AG_COUNT);
    var g := v.groups[ag];
    if g.inodeCount >= MAX_FILES then (v, -ENOSPC)
    else
      var (h, block) := AllocBlock(g);
      if block < 0 then (v.(groups := v.groups[ag := h]), -ENOSPC)
      else
        var slot := FreeSlot(h.inodes, 0);
        if slot == MAX_FILES then (v.(groups := v.groups[ag := h]), -EIO)
        else
          var inode := Inode(v.counter, name, kind, block, parent, true);
          (Volume(v.groups[ag := Bind(h, slot, inode)], v.counter + 1), 0)
  }

  ghost function Create(v: Volume, name: string, kind: nat, parent: nat): (Volume, int)
    requires Sized(v)
  {
    if |name| >= MAX_NAME then (v, -EINVAL)
    else if CleanName(name) == [] then (v, 0)
    else CreateClean(v, CleanName(name), kind, parent)
  }

  // ---------------------------------------------------------------- the invariant

  /** In a group, set bits, free blocks and inodes always account for each other, and the
      active inodes come first. */
  ghost predicate GroupOk(g: Group) {
    && |g.inodes| == MAX_FILES && |g.bitmap| == BLOCKS / 8
    && g.freeBlocks + |Bitmap.Bits(g.bitmap)| == BLOCKS
    && g.inodeCount == |Bitmap.Bits(g.bitmap)| && g.inodeCount <= MAX_FILES
    && (forall j :: 0 <= j < MAX_FILES ==> (g.inodes[j].active <==> j < g.inodeCount))
  }

  ghost predicate Balanced(groups: seq<Group>) {
    forall i, j :: 0 <= i < |groups| && 0 <= j < |groups| ==> groups[i].freeBlocks <= groups[j].freeBlocks + 1
  }

  ghost predicate VolumeOk(v: Volume) {
    && |v.groups| == AG_COUNT
    && (forall i :: 0 <= i < AG_COUNT ==> GroupOk(v.groups[i]))
    && Balanced(v.groups)
  }

  /** All 128 inodes are in use. */
  ghost predicate Exhausted(v: Volume) {
    forall i :: 0 <= i < |v.groups| ==> v.groups[i].inodeCount == MAX_FILES
  }

  /** Fewer than 1024 set bits leave a clear one. */
  lemma SomeBlockFree(bitmap: seq<bv8>)
    requires |bitmap| == BLOCKS / 8 && |Bitmap.Bits(bitmap)| < BLOCKS
    ensures FirstFree(bitmap, 0) < BLOCKS
  {
    if FirstFree(bitmap, 0) == BLOCKS {
      var all := Below(BLOCKS);
      hide Bitmap.Test;
      assert all <= Bitmap.Bits(bitmap);
      SubsetSize(all, Bitmap.Bits(bitmap));
    }
  }

  lemma SlotIsCount(g: Group)
    requires GroupOk(g) && g.inodeCount < MAX_FILES
    ensures FreeSlot(g.inodes, 0) == g.inodeCount
  {
    hide Bitmap.Bits;
    assert !g.inodes[g.inodeCount].active;
  }

  /** A group that is not out of inodes has a block to give. */
  lemma BlockTaken(g: Group)
    requires GroupOk(g) && g.inodeCount < MAX_FILES
    ensures AllocBlock(g).1 == FirstFree(g.bitmap, 0) < BLOCKS
    ensures AllocBlock(g).0.freeBlocks == g.freeBlocks - 1 && AllocBlock(g).0.inodes == g.inodes
    ensures AllocBlock(g).0.inodeCount == g.inodeCount && |AllocBlock(g).0.bitmap| == BLOCKS / 8
    ensures |Bitmap.Bits(AllocBlock(g).0.bitmap)| == |Bitmap.Bits(g.bitmap)| + 1
  {
    hide Bitmap.Bits, Bitmap.Put;
    SomeBlockFree(g.bitmap);
    var i := FirstFree(g.bitmap, 0);
    Bitmap.PutBits(g.bitmap, i, true);
    NotABit(g.bitmap, i);
  }

  lemma NotABit(bitmap: seq<bv8>, i: nat)
    requires i < 8 * |bitmap| && !Bitmap.Test(bitmap, i)
    ensures i !in Bitmap.Bits(bitmap)
  {
  }

  /** A group with an inode to spare has a block and a slot to spare, and stays in order. */
  lemma GroupCreates(g: Group, inode: Inode)
    requires GroupOk(g) && g.inodeCount < MAX_FILES && inode.active
    ensures AllocBlock(g).1 == FirstFree(g.bitmap, 0) < BLOCKS
    ensures AllocBlock(g).0.inodes == g.inodes && FreeSlot(g.inodes, 0) == g.inodeCount
    ensures GroupOk(Bind(AllocBlock(g).0, g.inodeCount, inode))
    ensures Bind(AllocBlock(g).0, g.inodeCount, inode).freeBlocks == g.freeBlocks - 1
  {
    hide Bitmap.Bits, AllocBlock, FirstFree;
    SlotIsCount(g);
    BlockTaken(g);
  }

  /** Taking a block from a fullest group keeps the groups balanced. */
  lemma StillBalanced(groups: seq<Group>, ag: nat, h: Group)
    requires |groups| == AG_COUNT && Balanced(groups) && ag < AG_COUNT && h.freeBlocks + 1 == groups[ag].freeBlocks
    requires forall i :: 0 <= i < AG_COUNT ==> groups[i].freeBlocks <= groups[ag].freeBlocks
    ensures Balanced(groups[ag := h])
  {
  }

  /** For names that survive cleaning: creation fails exactly when all 128 inodes are used,
      the "no block" and -EIO exits are never taken, and groups stay in order and balanced. */
  lemma CreateKeeps(v: Volume, name: string, kind: nat, parent: nat)
    requires VolumeOk(v)
    ensures Sized(v) && VolumeOk(CreateClean(v, name, kind, parent).0)
    ensures CreateClean(v, name, kind, parent).1 == if Exhausted(v) then -ENOSPC else 0
    ensures Exhausted(v) ==> CreateClean(v, name, kind, parent).0 == v
    ensures !Exhausted(v) ==>
      var ag := PickAmong(v.groups, AG_COUNT);
      var g := v.groups[ag];
      var inode := Inode(v.counter, name, kind, FirstFree(g.bitmap, 0), parent, true);
      && g.inodeCount < MAX_FILES
      && CreateClean(v, name, kind, parent).0 ==
           Volume(v.groups[ag := Bind(AllocBlock(g).0, g.inodeCount, inode)], v.counter + 1)
  {
    var ag := PickAmong(v.groups, AG_COUNT);
    var g := v.groups[ag];
    assert GroupOk(g);
    if g.inodeCount < MAX_FILES {
      var inode := Inode(v.counter, name, kind, FirstFree(g.bitmap, 0), parent, true);
      GroupCreates(g, inode);
      StillBalanced(v.groups, ag, Bind(AllocBlock(g).0, g.inodeCount, inode));
    }
  }
}
