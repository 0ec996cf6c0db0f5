/** The context of crypto/md5.c and its init and update functions. */
module Md5 {
  import opened Basics
  import opened Md5Stream

  const SIZE_MAX := 0xFFFF_FFFF

  datatype Words = Words(a: nat, b: nat, c: nat, d: nat)

  const INITIAL := Words(0x67452301, 0xefcdab89, 0x98badcfe, 0x10325476)

  /** The bytes of a word, the low one first. */
  function Bytes(w: nat): seq<nat> {
    [w % 256, w / 256 % 256, w / 65536 % 256, w / 0x100_0000 % 256]
  }

  /** The initial words as section 3.3 of RFC 1321 writes them, byte by byte. */
  lemma InitialBytes()
    ensures Bytes(INITIAL.a) == [0x01, 0x23, 0x45, 0x67] && Bytes(INITIAL.b) == [0x89, 0xab, 0xcd, 0xef]
    ensures Bytes(INITIAL.c) == [0xfe, 0xdc, 0xba, 0x98] && Bytes(INITIAL.d) == [0x76, 0x54, 0x32, 0x10]
  {
  }

  class Md5Context {
    const transform: Compress<Words>
    var state: Words
    var count: nat
    const buffer: array<Byte>

    ghost function Contents(): Context<Words>
      reads this, buffer
    {
      Context(state, count, buffer[..])
    }

    /** crypto_md5_init; the buffer keeps whatever it held. */
    constructor (transform: Compress<Words>, buffer: array<Byte>)
      requires buffer.Length == BLOCK
      ensures this.transform == transform && this.buffer == buffer
      ensures Contents() == Context(INITIAL, 0, buffer[..])
    {
      this.transform, this.buffer := transform, buffer;
      state, count := INITIAL, 0;
    }

    /** Copies `n` bytes of the input into the buffer from `at` on. */
    method CopyIn(at: nat, input: seq<Byte>, from: nat, n: nat)
      requires at + n <= buffer.Length && from + n <= |input|
      modifies buffer
      ensures buffer[..] == old(buffer[..at]) + input[from..from + n] + old(buffer[at + n..])
    {
      for i := 0 to n
        invariant buffer[..at] == old(buffer[..at]) && buffer[at..at + i] == input[from..from + i]
        invariant buffer[at + i..] == old(buffer[at + i..])
      {
        buffer[at + i] := input[from + i];
      }
      assert buffer[..] == buffer[..at] + buffer[at..at + n] + buffer[at + n..];
    }

    /** The loop over the complete blocks of the input from `start` on. */
    method Blocks(input: seq<Byte>, start: nat) returns (i: nat)
      requires start <= |input|
      modifies this`state
      ensures state == Absorb(transform, old(state), input[start..])
      ensures start <= i <= |input| && input[i..] == Rest(input[start..])
    {
      i := start;
      while i + 63 < |input|
        invariant start <= i <= |input| && (i - start) % BLOCK == 0
        invariant Absorb(transform, state, input[i..]) == Absorb(transform, old(state), input[start..])
      {
        assert input[i..][..BLOCK] == input[i..i + 64] && input[i..][BLOCK..] == input[i + 64..];
        state := transform(state, input[i..i + 64]);
        i := i + 64;
      }
      LastPart(input, start, i);
    }

    lemma LastPart(input: seq<Byte>, start: nat, i: nat)
      requires start <= i <= |input| < i + 64 && (i - start) % BLOCK == 0
      ensures input[i..] == Rest(input[start..])
    {
      var m := input[start..];
      assert |m| == (i - start) + (|input| - i);
      assert |m| % BLOCK == |input| - i;
    }

    /** Completes the staged block, and goes on through the input block by block. */
    method Fill(index: nat, input: seq<Byte>) returns (i: nat)
      requires buffer.Length == BLOCK && index < BLOCK && |input| >= BLOCK - index
      modifies this`state, buffer
      ensures buffer[..] == old(buffer[..index]) + input[..BLOCK - index]
      ensures state == Absorb(transform, transform(old(state), buffer[..]), input[BLOCK - index..])
      ensures BLOCK - index <= i <= |input| && input[i..] == Rest(input[BLOCK - index..])
    {
      hide Absorb, Rest;
      var partLen := 64 - index;
      CopyIn(index, input, 0, partLen);
      assert buffer[..] == old(buffer[..index]) + input[..partLen];
      state := transform(state, buffer[..]);
      i := Blocks(input, partLen);
    }

    /** Stages what is left of the input from `i` on. */
    method Stage(index: nat, input: seq<Byte>, i: nat)
      requires i <= |input| && index + |input| - i <= buffer.Length
      modifies buffer
      ensures buffer[..] == old(buffer[..])[..index] + input[i..] + old(buffer[..])[index + |input| - i..]
    {
      if i < |input| {
        CopyIn(index, input, i, |input| - i);
      }
      assert input[i..|input|] == input[i..];
    }

    /** crypto_md5_update.  The bound keeps `i + 63` from wrapping around a 32-bit size_t. */
    method Update(input: seq<Byte>)
      requires buffer.Length == BLOCK && |input| + 63 <= SIZE_MAX && count < TWO64
      modifies this`state, this`count, buffer
      ensures Contents() == Md5Stream.Update(transform, old(Contents()), input)
    {
      hide Absorb, Rest, Md5Stream.Update;
      ghost var before := Contents();
      var index := count / 8 % BLOCK;
      ghost var position := index;
      count := (count + |input| * 8) % TWO64;
      var partLen := 64 - index;
      var i := 0;
      if |input| >= partLen {
        assert before.buffer[..index] == old(buffer[..index]);
        i := Fill(index, input);
        UpdateFull(transform, before, input, position, buffer[..], input[i..]);
        index := 0;
      } else {
        UpdateShort(transform, before, input, position);
      }
      Stage(index, input, i);
      assert input[0..] == input;
    }
  }
}
