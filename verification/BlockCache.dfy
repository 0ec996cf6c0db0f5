/** The global slot array of fs/btrfs/btrfs.c and the functions that scan it. */
module BlockCache {
  import opened Basics
  import opened CacheModel
  import opened BlockAllocation
  import Bitmap

  lemma OneHolder(c: Cache, i: nat, j: nat, b: nat)
    requires Inv(c) && i < CACHE_SLOTS && j < CACHE_SLOTS && Holds(c.slots[i], b) && Holds(c.slots[j], b)
    ensures i == j
  {
  }

  class Btrfs {
    const slots: array<Slot>
    var disk: map<nat, Block>

    ghost predicate Valid()
      reads this, slots
    {
      slots.Length == CACHE_SLOTS && Inv(Contents())
    }

    ghost function Contents(): Cache
      reads this, slots
    {
      Cache(slots[..], disk)
    }

    /** All slots start invalid. */
    constructor (disk: map<nat, Block>)
      requires forall b :: b in disk ==> |disk[b]| == BLOCK_SIZE
      ensures Valid() && Cold(Contents()) && this.disk == disk && fresh(slots)
    {
      slots := new Slot[CACHE_SLOTS](_ => Slot(0, ZeroBlock(), false, false));
      this.disk := disk;
    }

    /** The slot that holds a block, if any: the scan that block_get and block_mark_dirty share. */
    method FindValid(b: nat) returns (r: Option<nat>)
      requires slots.Length == CACHE_SLOTS
      ensures match r
              case Some(i) => i < CACHE_SLOTS && Holds(slots[i], b)
              case None => !Cached(slots[..], b)
    {
      for i := 0 to CACHE_SLOTS
        invariant forall j :: 0 <= j < i ==> !Holds(slots[j], b)
      {
        if slots[i].valid && slots[i].blockId == b {
          return Some(i);
        }
      }
      return None;
    }

    /** block_get, returning the index of the slot whose data the C code points to. */
    method Get(b: nat) returns (r: Option<nat>)
      requires slots.Length == CACHE_SLOTS
      modifies this, slots
      ensures GetStep(old(Contents()), b, r, Contents())
    {
      r := FindValid(b);
      if r.Some? {
        return;
      }
      ghost var c := Contents();
      for i := 0 to CACHE_SLOTS
        invariant Contents() == c
        invariant forall j :: 0 <= j < i ==> !Reusable(slots[j])
      {
        if !slots[i].valid || !slots[i].dirty {
          if slots[i].dirty {
            disk := disk[slots[i].blockId := slots[i].data];
          }
          slots[i] := Slot(b, Sector(disk, b), false, true);
          assert Contents().slots == Load(c, b, i).slots;
          return Some(i);
        }
      }
      return None;
    }

    method MarkDirty(b: nat)
      requires slots.Length == CACHE_SLOTS
      modifies slots
      ensures if Cached(old(slots[..]), b)
              then (exists i :: 0 <= i < CACHE_SLOTS && Holds(old(slots[i]), b) &&
                      slots[..] == old(slots[..])[i := old(slots[i]).(dirty := true)])
              else slots[..] == old(slots[..])
    {
      var r := FindValid(b);
      if r.Some? {
        slots[r.value] := slots[r.value].(dirty := true);
        assert Holds(old(slots[..])[r.value], b);
        assert slots[..] == old(slots[..])[r.value := old(slots[r.value]).(dirty := true)];
      }
    }

    method FlushCache()
      requires Valid()
      modifies this, slots
      ensures Valid() && Contents() == Flush(old(Contents()), CACHE_SLOTS)
    {
      ghost var c := Contents();
      for i := 0 to CACHE_SLOTS
        invariant Contents() == Flush(c, i)
      {
        if slots[i].valid && slots[i].dirty {
          disk := disk[slots[i].blockId := slots[i].data];
          slots[i] := slots[i].(dirty := false);
        }
      }
      FlushKeeps(c, CACHE_SLOTS);
    }

    /** The first clear bit of the bitmap in slot `i`, or 4096. */
    method FindClear(i: nat) returns (n: nat)
      requires i < slots.Length && |slots[i].data| == BLOCK_SIZE
      ensures n <= BLOCK_BITS
      ensures n < BLOCK_BITS ==> LowestClear(slots[i].data, n)
      ensures n == BLOCK_BITS ==> forall k :: 0 <= k < BLOCK_BITS ==> Bitmap.Test(slots[i].data, k)
    {
      for byte := 0 to BLOCK_SIZE
        invariant forall k :: 0 <= k < 8 * byte ==> Bitmap.Test(slots[i].data, k)
      {
        for bit := 0 to 8
          invariant forall k :: 0 <= k < 8 * byte + bit ==> Bitmap.Test(slots[i].data, k)
        {
          assert (8 * byte + bit) / 8 == byte && (8 * byte + bit) % 8 == bit;
          if slots[i].data[byte] & Bitmap.Mask(bit) == 0 {
            return byte * 8 + bit;
          }
        }
      }
      return BLOCK_BITS;
    }

    /** Writes the data of a slot and marks its block dirty. */
    method WriteSlot(i: nat, b: nat, data: Block)
      requires Valid() && i < CACHE_SLOTS && Holds(slots[i], b) && |data| == BLOCK_SIZE
      modifies slots
      ensures Valid() && Contents() == Overwrite(old(Contents()), i, data)
    {
      ghost var c := Contents();
      OverwriteKeeps(c, i, b, data);
      hide Inv;
      slots[i] := slots[i].(data := data);
      ghost var d := c.slots[i := c.slots[i].(data := data)];
      assert slots[..] == d;
      assert Cached(d, b) by { assert Holds(d[i], b); }
      MarkDirty(b);
      ghost var j :| 0 <= j < CACHE_SLOTS && Holds(d[j], b) && slots[..] == d[j := d[j].(dirty := true)];
      OneHolder(c, i, j, b);
    }

    /** A caller reading a block through its slot. */
    method ReadBlock(b: nat) returns (got: Option<Block>)
      requires Valid()
      modifies this, slots
      ensures Valid() && Step(old(Contents()), Read(b, got), Contents())
    {
      ghost var c := Contents();
      var r := Get(b);
      GetKeeps(c, b, r, Contents());
      got := if r.Some? then Some(slots[r.value].data) else None;
      assert GetStep(c, b, r, Contents()) && got == SlotData(Contents(), r);
    }

    /** A caller replacing a block: get it, write the slot, mark it dirty. */
    method WriteBlock(b: nat, data: Block) returns (done: bool)
      requires Valid() && |data| == BLOCK_SIZE
      modifies this, slots
      ensures Valid() && Step(old(Contents()), Write(b, data, done), Contents())
    {
      ghost var c := Contents();
      var r := Get(b);
      GetKeeps(c, b, r, Contents());
      ghost var m := Contents();
      done := r.Some?;
      if done {
        WriteSlot(r.value, b, data);
      }
      assert GetStep(c, b, r, m) && Written(m, r, data, done, Contents());
    }

    /** Writes a bit of the bitmap in slot `i`. */
    method PutBit(i: nat, n: nat, value: bool)
      requires Valid() && i < CACHE_SLOTS && Holds(slots[i], BITMAP_BLOCK) && n < BLOCK_BITS
      modifies slots
      ensures Valid()
      ensures Contents() == Overwrite(old(Contents()), i, Bitmap.Put(old(slots[i].data), n, value))
    {
      WriteSlot(i, BITMAP_BLOCK, Bitmap.Put(slots[i].data, n, value));
    }

    method AllocateBlock() returns (a: Answer)
      requires Valid()
      modifies this, slots
      ensures Valid() && AllocateStep(old(Contents()), a, Contents())
    {
      ghost var c := Contents();
      var r := Get(BITMAP_BLOCK);
      GetKeeps(c, BITMAP_BLOCK, r, Contents());
      ghost var m := Contents();
      if r.None? {
        assert AllocateWith(m, r, NullBuffer, Contents());
        return NullBuffer;
      }
      var n := FindClear(r.value);
      if n == BLOCK_BITS {
        assert AllocateWith(m, r, NoSpace, Contents());
        return NoSpace;
      }
      PutBit(r.value, n, true);
      assert AllocateWith(m, r, Allocated(n), Contents());
      return Allocated(n);
    }

    /** Returns false where the C code would dereference NULL. */
    method FreeBlock(n: nat) returns (done: bool)
      requires Valid() && n < BLOCK_BITS
      modifies this, slots
      ensures Valid() && FreeStep(old(Contents()), n, done, Contents())
    {
      ghost var c := Contents();
      var r := Get(BITMAP_BLOCK);
      GetKeeps(c, BITMAP_BLOCK, r, Contents());
      ghost var m := Contents();
      if r.None? {
        assert FreeWith(m, r, n, false, Contents());
        return false;
      }
      PutBit(r.value, n, false);
      assert FreeWith(m, r, n, true, Contents());
      return true;
    }
  }
}
