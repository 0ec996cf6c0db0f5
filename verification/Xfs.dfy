/** The group table of fs/xfs and the operations that scan and change it. */
module Xfs {
  import opened Basics
  import opened XfsModel
  import opened XfsDirectories
  import Bitmap

  class Filesystem {
    var groups: seq<Group>
    var counter: nat

    ghost predicate Valid()
      reads this
    {
      Sized(Volume(groups, counter))
    }

    ghost function State(): Volume
      reads this
    {
      Volume(groups, counter)
    }

    /** xfs_init, which leaves the counter and the old contents of the inode slots alone. */
    method Init()
      requires Valid()
      modifies this`groups
      ensures Valid() && (0 < counter ==> Initial(State()))
    {
      var i := 0;
      while i < AG_COUNT
        invariant 0 <= i <= AG_COUNT && Valid()
        invariant forall k :: 0 <= k < i ==> Fresh(groups[k])
      {
        var j := 0;
        var inodes := groups[i].inodes;
        while j < MAX_FILES
          invariant 0 <= j <= MAX_FILES == |inodes|
          invariant forall k :: 0 <= k < j ==> !inodes[k].active
        {
          inodes := inodes[j := inodes[j].(active := false)];
          j := j + 1;
        }
        groups := groups[i := Group(BLOCKS, 0, inodes, seq(BLOCKS / 8, _ => 0))];
        i := i + 1;
      }
    }

    /** xfs_pick_ag. */
    method PickAg() returns (best: nat)
      requires Valid()
      ensures best == PickAmong(groups, AG_COUNT)
    {
      best := 0;
      var i := 1;
      while i < AG_COUNT
        invariant 1 <= i <= AG_COUNT && best == PickAmong(groups, i)
      {
        if groups[i].freeBlocks > groups[best].freeBlocks {
          best := i;
        }
        i := i + 1;
      }
    }

    /** xfs_alloc_block. */
    method AllocBlock(ag: nat) returns (block: int)
      requires Valid() && ag < AG_COUNT
      modifies this`groups
      ensures Valid()
      ensures (groups[ag], block) == XfsModel.AllocBlock(old(groups[ag])) && groups == old(groups)[ag := groups[ag]]
    {
      hide Bitmap.Test, Bitmap.Put;
      var g := groups[ag];
      if g.freeBlocks == 0 {
        return NO_BLOCK;
      }
      var i := 0;
      while i < BLOCKS
        invariant 0 <= i <= BLOCKS && FirstFree(g.bitmap, 0) == FirstFree(g.bitmap, i)
      {
        if !Bitmap.Test(g.bitmap, i) {
          groups := groups[ag := g.(bitmap := Bitmap.Put(g.bitmap, i, true), freeBlocks := g.freeBlocks - 1)];
          return i;
        }
        i := i + 1;
      }
      return NO_BLOCK;
    }

    /** The cleaning loop of xfs_create_file, on a name short enough for its buffer. */
    method Clean(name: string) returns (clean: string)
      requires |name| < MAX_NAME
      ensures clean == CleanName(name)
    {
      hide BeforeBlank, CleanName, CleanedSoFar;
      var start := if name != [] && name[0] == '/' then 1 else 0;
      var i := start;
      clean := [];
      NothingCleaned(name);
      while i < |name| && |clean| < MAX_NAME - 1
        invariant start <= i <= |name| && |clean| == i - start && CleanedSoFar(name, i, clean)
      {
        CleanStep(name, i, clean);
        if name[i] == ' ' || name[i] == '\t' || name[i] == '\n' || name[i] == '\r' {
          return;
        }
        clean := clean + [name[i]];
        i := i + 1;
      }
      CleanEnd(name, clean);
    }

    /** The first inactive slot of a group. */
    method FindSlot(ag: nat) returns (slot: nat)
      requires Valid() && ag < AG_COUNT
      ensures slot == FreeSlot(groups[ag].inodes, 0)
    {
      slot := 0;
      while slot < MAX_FILES && groups[ag].inodes[slot].active
        invariant slot <= MAX_FILES && FreeSlot(groups[ag].inodes, 0) == FreeSlot(groups[ag].inodes, slot)
      {
        slot := slot + 1;
      }
    }

    /** xfs_create_file. */
    method CreateFile(name: string, kind: nat, parent: nat) returns (code: int)
      requires Valid()
      modifies this
      ensures Valid() && (State(), code) == Create(old(State()), name, kind, parent)
    {
      hide FreeSlot, FirstFree, BeforeBlank, Bitmap.Test, Bitmap.Put;
      if |name| >= MAX_NAME {
        return -EINVAL;
      }
      var clean := Clean(name);
      if clean == [] {
        return 0;
      }
      var ag := PickAg();
      if groups[ag].inodeCount >= MAX_FILES {
        return -ENOSPC;
      }
      var block := AllocBlock(ag);
      if block < 0 {
        return -ENOSPC;
      }
      var slot := FindSlot(ag);
      if slot == MAX_FILES {
        return -EIO;
      }
      var inode := Inode(counter, clean, kind, block, parent, true);
      assert groups[ag := Bind(groups[ag], slot, inode)] == old(groups)[ag := Bind(groups[ag], slot, inode)];
      groups := groups[ag := Bind(groups[ag], slot, inode)];
      counter := counter + 1;
      return 0;
    }

    /** What is left of the scan from slot `j` of group `i` on. */
    ghost function Rest(i: nat, j: nat): seq<Inode>
      requires Valid() && i < AG_COUNT && j <= MAX_FILES
      reads this
    {
      groups[i].inodes[j..] + Flatten(groups[i + 1..])
    }

    lemma NextGroup(i: nat)
      requires Valid() && i < AG_COUNT
      ensures Rest(i, 0) == Flatten(groups[i..])
      ensures Rest(i, MAX_FILES) == Flatten(groups[i + 1..])
    {
      assert groups[i..][1..] == groups[i + 1..];
    }

    lemma NextSlot(i: nat, j: nat)
      requires Valid() && i < AG_COUNT && j < MAX_FILES
      ensures Rest(i, j) != [] && Rest(i, j)[0] == groups[i].inodes[j] && Rest(i, j)[1..] == Rest(i, j + 1)
    {
    }

    /** xfs_vfs_readdir. */
    method Readdir(parent: nat, index: nat) returns (entry: Option<Inode>)
      requires Valid()
      ensures entry == Nth(Flatten(groups), parent, index)
    {
      hide Flatten;
      var current, i := 0, 0;
      assert groups[0..] == groups;
      while i < AG_COUNT
        invariant 0 <= i <= AG_COUNT && current <= index
        invariant Nth(Flatten(groups), parent, index) == Nth(Flatten(groups[i..]), parent, index - current)
      {
        var j := 0;
        NextGroup(i);
        while j < MAX_FILES
          invariant 0 <= j <= MAX_FILES && current <= index
          invariant Nth(Flatten(groups), parent, index) == Nth(Rest(i, j), parent, index - current)
        {
          NextSlot(i, j);
          if groups[i].inodes[j].active && groups[i].inodes[j].parent == parent {
            if current == index {
              return Some(groups[i].inodes[j]);
            }
            current := current + 1;
          }
          j := j + 1;
        }
        i := i + 1;
      }
      assert Flatten(groups[AG_COUNT..]) == [] by { NothingLeft(groups); }
      return None;
    }

    /** xfs_vfs_finddir, where `memory` says whether a node can be allocated. */
    method Finddir(parent: nat, name: string, memory: bool) returns (found: Option<Inode>)
      requires Valid()
      ensures found == if memory then FirstNamed(Flatten(groups), parent, name) else None
    {
      hide Flatten;
      var i := 0;
      assert groups[0..] == groups;
      while i < AG_COUNT
        invariant 0 <= i <= AG_COUNT
        invariant FirstNamed(Flatten(groups), parent, name) == FirstNamed(Flatten(groups[i..]), parent, name)
      {
        var j := 0;
        NextGroup(i);
        while j < MAX_FILES
          invariant 0 <= j <= MAX_FILES
          invariant FirstNamed(Flatten(groups), parent, name) == FirstNamed(Rest(i, j), parent, name)
        {
          NextSlot(i, j);
          var x := groups[i].inodes[j];
          if x.active && x.parent == parent && x.name == name {
            return if memory then Some(x) else None;
          }
          j := j + 1;
        }
        i := i + 1;
      }
      assert Flatten(groups[AG_COUNT..]) == [] by { NothingLeft(groups); }
      return None;
    }
  }

  /** What is copied and what the rest of the name cleans to make up the clean name. */
  ghost predicate CleanedSoFar(name: string, i: nat, clean: string)
    requires i <= |name|
  {
    clean + BeforeBlank(name[i..]) == CleanName(name)
  }

  lemma NothingCleaned(name: string)
    ensures CleanedSoFar(name, if name != [] && name[0] == '/' then 1 else 0, [])
  {
    assert name[0..] == name;
    assert [] + CleanName(name) == CleanName(name);
  }

  lemma CleanStep(name: string, i: nat, clean: string)
    requires i < |name| && CleanedSoFar(name, i, clean)
    ensures Blank(name[i]) ==> clean == CleanName(name)
    ensures !Blank(name[i]) ==> CleanedSoFar(name, i + 1, clean + [name[i]])
  {
    hide CleanName;
    assert name[i..][1..] == name[i + 1..];
    Associate(clean, [name[i]], BeforeBlank(name[i + 1..]));
    assert clean + [] == clean;
  }

  lemma CleanEnd(name: string, clean: string)
    requires CleanedSoFar(name, |name|, clean)
    ensures clean == CleanName(name)
  {
    hide CleanName;
    assert clean + [] == clean;
  }

  lemma NothingLeft(groups: seq<Group>)
    requires |groups| == AG_COUNT
    ensures Flatten(groups[AG_COUNT..]) == []
  {
  }
}
