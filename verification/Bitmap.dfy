/** Bitmaps stored as bytes, as every allocator of the kernel keeps them: bit `i`
    lives in byte `i / 8` under the mask `1 << (i % 8)`.  A bitmap stands for the
    set of its set bits, and the byte updates are set insertion and removal. */
module Bitmap {

  function Mask(k: nat): bv8
    requires k < 8
  {
    (1 as bv8) << k
  }

  /** Whether bit `i` is set, bits counted from the low end of each byte. */
  predicate Test(bytes: seq<bv8>, i: nat)
    requires i < 8 * |bytes|
  {
    bytes[i / 8] & Mask(i % 8) != 0
  }

  /** Sets or clears bit `i`. */
  function Put(bytes: seq<bv8>, i: nat, value: bool): (r: seq<bv8>)
    requires i < 8 * |bytes|
    ensures |r| == |bytes|
  {
    var b := bytes[i / 8];
    bytes[i / 8 := if value then b | Mask(i % 8) else b & !Mask(i % 8)]
  }

  /** The set a bitmap stands for. */
  function Bits(bytes: seq<bv8>): set<nat>
  {
    set i: nat | i < 8 * |bytes| && Test(bytes, i)
  }

  lemma PutByte(b: bv8, k: nat, j: nat)
    requires k < 8 && j < 8
    ensures ((b | Mask(k)) & Mask(j) != 0) == (j == k || b & Mask(j) != 0)
    ensures ((b & !Mask(k)) & Mask(j) != 0) == (j != k && b & Mask(j) != 0)
  {
  }

  /** Updating one bit of one byte inserts or removes exactly that bit. */
  lemma PutBits(bytes: seq<bv8>, i: nat, value: bool)
    requires i < 8 * |bytes|
    ensures Bits(Put(bytes, i, value)) == if value then Bits(bytes) + {i} else Bits(bytes) - {i}
  {
    var r := Put(bytes, i, value);
    forall j: nat | j < 8 * |bytes|
      ensures Test(r, j) == if j == i then value else Test(bytes, j)
    {
      if j / 8 == i / 8 {
        PutByte(bytes[i / 8], i % 8, j % 8);
      }
    }
  }

  lemma {:induction false} ClearBits(bytes: seq<bv8>)
    requires forall k :: 0 <= k < |bytes| ==> bytes[k] == 0
    ensures Bits(bytes) == {}
  {
    forall i: nat | i < 8 * |bytes|
      ensures !Test(bytes, i)
    {
      assert bytes[i / 8] == 0;
    }
  }
}
