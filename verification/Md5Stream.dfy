/** Incremental hashing (section 3.4 of RFC 1321) against one-shot hashing.  The
    compression function is a parameter: nothing here depends on what it computes. */
module Md5Stream {
  import opened Basics

  const BLOCK := 64
  const TWO64 := 0x1_0000_0000_0000_0000

  type Compress<!S> = (S, seq<Byte>) -> S

  /** The compression function folded over the complete blocks of a message. */
  function Absorb<S>(f: Compress<S>, s: S, m: seq<Byte>): S {
    if |m| < BLOCK then s else Absorb(f, f(s, m[..BLOCK]), m[BLOCK..])
  }

  /** The bytes after the last complete block. */
  function Rest(m: seq<Byte>): (r: seq<Byte>)
    ensures |r| == |m| % BLOCK
  {
    m[|m| - |m| % BLOCK..]
  }

  datatype Context<S> = Context(state: S, count: nat, buffer: seq<Byte>)

  /** crypto_md5_update. */
  function Update<S>(f: Compress<S>, c: Context<S>, input: seq<Byte>): Context<S>
    requires |c.buffer| == BLOCK
  {
    var index := c.count / 8 % BLOCK;
    var part := BLOCK - index;
    var count := (c.count + 8 * |input|) % TWO64;
    if |input| >= part then
      var block := c.buffer[..index] + input[..part];
      var rest := input[part..];
      Context(Absorb(f, f(c.state, block), rest), count, Rest(rest) + block[|Rest(rest)|..])
    else
      Context(c.state, count, c.buffer[..index] + input + c.buffer[index + |input|..])
  }

  /** The context is what hashing `m` from state `s` on leaves behind. */
  ghost predicate Hashed<S>(f: Compress<S>, s: S, m: seq<Byte>, c: Context<S>) {
    && |c.buffer| == BLOCK
    && c.state == Absorb(f, s, m)
    && Rest(m) <= c.buffer
    && c.count == 8 * |m| % TWO64
  }

  /** The buffer position survives the wrap-around of the bit count, because 2^61 is a
      multiple of 64. */
  lemma Position(n: nat)
    ensures (8 * n % TWO64) / 8 % BLOCK == n % BLOCK
  {
    var q := 8 * n / TWO64;
    assert 8 * n % TWO64 == 8 * (n - q * 0x2000_0000_0000_0000);
  }

  lemma {:induction false} AbsorbBlocks<S>(f: Compress<S>, s: S, a: seq<Byte>, b: seq<Byte>)
    requires |a| % BLOCK == 0
    ensures Absorb(f, s, a + b) == Absorb(f, Absorb(f, s, a), b)
    decreases |a|
  {
    if |a| == 0 {
      assert a + b == b;
    } else {
      AbsorbBlocks(f, f(s, a[..BLOCK]), a[BLOCK..], b);
      assert (a + b)[..BLOCK] == a[..BLOCK] && (a + b)[BLOCK..] == a[BLOCK..] + b;
    }
  }

  /** One more block, then the rest. */
  lemma AbsorbOne<S>(f: Compress<S>, s: S, block: seq<Byte>, rest: seq<Byte>)
    requires |block| == BLOCK
    ensures Absorb(f, s, block + rest) == Absorb(f, f(s, block), rest)
  {
    assert (block + rest)[..BLOCK] == block && (block + rest)[BLOCK..] == rest;
  }

  lemma RestAfterBlocks(a: seq<Byte>, b: seq<Byte>)
    requires |a| % BLOCK == 0
    ensures Rest(a + b) == Rest(b)
  {
    assert |a + b| % BLOCK == |b| % BLOCK;
  }

  /** Splits a message into its complete blocks and the rest. */
  lemma Split<S>(f: Compress<S>, s: S, m: seq<Byte>) returns (done: seq<Byte>)
    ensures |done| % BLOCK == 0 && m == done + Rest(m)
    ensures Absorb(f, s, m) == Absorb(f, s, done)
  {
    done := m[..|m| - |m| % BLOCK];
    assert m == done + Rest(m);
    AbsorbBlocks(f, s, done, Rest(m));
  }

  /** The state and the rest when the input completes the buffered block. */
  lemma FillsBlock<S>(f: Compress<S>, s: S, m: seq<Byte>, held: seq<Byte>, input: seq<Byte>)
    requires held == Rest(m) && |held| + |input| >= BLOCK
    ensures var part := BLOCK - |held|;
      && Absorb(f, s, m + input) == Absorb(f, f(Absorb(f, s, m), held + input[..part]), input[part..])
      && Rest(m + input) == Rest(input[part..])
  {
    hide Absorb, Rest;
    var part := BLOCK - |held|;
    var done := Split(f, s, m);
    var block, rest := held + input[..part], input[part..];
    assert m + input == done + (block + rest);
    AbsorbBlocks(f, s, done, block + rest);
    AbsorbOne(f, Absorb(f, s, done), block, rest);
    RestAfterBlocks(done, block + rest);
    RestAfterBlocks(block, rest);
  }

  /** The state and the rest when it does not. */
  lemma StaysShort<S>(f: Compress<S>, s: S, m: seq<Byte>, held: seq<Byte>, input: seq<Byte>)
    requires held == Rest(m) && |held| + |input| < BLOCK
    ensures Absorb(f, s, m + input) == Absorb(f, s, m) && Rest(m + input) == held + input
  {
    hide Absorb, Rest;
    var done := Split(f, s, m);
    var tail := held + input;
    Associate(done, held, input);
    AbsorbBlocks(f, s, done, tail);
    RestAfterBlocks(done, tail);
    NoBlock(f, Absorb(f, s, done), tail);
  }

  lemma NoBlock<S>(f: Compress<S>, s: S, tail: seq<Byte>)
    requires |tail| < BLOCK
    ensures Rest(tail) == tail && Absorb(f, s, tail) == s
  {
    hide Rest;
    RestOfShort(tail);
  }

  lemma RestOfShort(tail: seq<Byte>)
    requires |tail| < BLOCK
    ensures Rest(tail) == tail
  {
    assert |tail| - |tail| % BLOCK == 0;
    assert tail[0..] == tail;
  }

  /** An update that completes no block. */
  lemma UpdateShort<S>(f: Compress<S>, c: Context<S>, input: seq<Byte>, index: nat)
    requires |c.buffer| == BLOCK && index == c.count / 8 % BLOCK && |input| < BLOCK - index
    ensures Update(f, c, input) ==
      Context(c.state, (c.count + 8 * |input|) % TWO64, c.buffer[..index] + input + c.buffer[index + |input|..])
  {
  }

  /** An update that completes a block, from the block and the bytes left over. */
  lemma UpdateFull<S>(f: Compress<S>, c: Context<S>, input: seq<Byte>, index: nat, block: seq<Byte>, left: seq<Byte>)
    requires |c.buffer| == BLOCK && index == c.count / 8 % BLOCK && |input| >= BLOCK - index
    requires block == c.buffer[..index] + input[..BLOCK - index] && left == Rest(input[BLOCK - index..])
    ensures |left| < BLOCK == |block|
    ensures Update(f, c, input) ==
      Context(Absorb(f, f(c.state, block), input[BLOCK - index..]), (c.count + 8 * |input|) % TWO64, left + block[|left|..])
  {
    hide Absorb;
  }

  lemma Counts(n: nat, k: nat)
    ensures (8 * n % TWO64 + 8 * k) % TWO64 == 8 * (n + k) % TWO64
  {
  }

  /** An update call turns the context of a message into that of the longer message. */
  lemma UpdateAppends<S>(f: Compress<S>, s: S, m: seq<Byte>, c: Context<S>, input: seq<Byte>)
    requires Hashed(f, s, m, c)
    ensures Hashed(f, s, m + input, Update(f, c, input))
  {
    hide Absorb, Rest;
    Position(|m|);
    Counts(|m|, |input|);
    var held := c.buffer[..|m| % BLOCK];
    assert held == Rest(m);
    if |input| >= BLOCK - |held| {
      FillsBlock(f, s, m, held, input);
    } else {
      StaysShort(f, s, m, held, input);
    }
  }

  /** crypto_md5_init followed by a list of update calls. */
  function Stream<S>(f: Compress<S>, c: Context<S>, chunks: seq<seq<Byte>>): (r: Context<S>)
    requires |c.buffer| == BLOCK
    decreases |chunks|
  {
    if chunks == [] then c
    else
      var d := Stream(f, c, chunks[..|chunks| - 1]);
      if |d.buffer| == BLOCK then Update(f, d, chunks[|chunks| - 1]) else d
  }

  function Concat(chunks: seq<seq<Byte>>): seq<Byte> {
    if chunks == [] then [] else Concat(chunks[..|chunks| - 1]) + chunks[|chunks| - 1]
  }

  /** However a message is cut into update calls, the state is the compression function
      folded over the complete blocks of the whole message, the buffer holds the rest, and
      the count is the bit length modulo 2^64. */
  lemma {:induction false} StreamingIsOneShot<S>(f: Compress<S>, s: S, buffer: seq<Byte>, chunks: seq<seq<Byte>>)
    requires |buffer| == BLOCK
    ensures Hashed(f, s, Concat(chunks), Stream(f, Context(s, 0, buffer), chunks))
  {
    if chunks != [] {
      StreamingIsOneShot(f, s, buffer, chunks[..|chunks| - 1]);
      UpdateAppends(f, s, Concat(chunks[..|chunks| - 1]), Stream(f, Context(s, 0, buffer), chunks[..|chunks| - 1]),
                    chunks[|chunks| - 1]);
    }
  }

  /** Two ways of cutting the same message end in the same state, position and count. */
  lemma CutsDoNotMatter<S>(f: Compress<S>, s: S, buffer: seq<Byte>, a: seq<seq<Byte>>, b: seq<seq<Byte>>)
    requires |buffer| == BLOCK && Concat(a) == Concat(b)
    ensures var x, y := Stream(f, Context(s, 0, buffer), a), Stream(f, Context(s, 0, buffer), b);
      var n := |Concat(a)| % BLOCK;
      x.state == y.state && x.count == y.count && n <= |x.buffer| == |y.buffer| && x.buffer[..n] == y.buffer[..n]
  {
    StreamingIsOneShot(f, s, buffer, a);
    StreamingIsOneShot(f, s, buffer, b);
  }

  /** The states a message leads through, one more than it has complete blocks: each is the
      one before it compressed with the next 64 bytes. */
  ghost predicate BlockStates<S(!new)>(f: Compress<S>, m: seq<Byte>, states: seq<S>) {
    && |states| == |m| / 64 + 1
    && forall i :: 0 <= i < |m| / 64 ==> states[i + 1] == f(states[i], m[64 * i..64 * i + 64])
  }

  lemma {:induction false} AbsorbStates<S(!new)>(f: Compress<S>, s: S, m: seq<Byte>) returns (states: seq<S>)
    ensures BlockStates(f, m, states) && states[0] == s && states[|m| / 64] == Absorb(f, s, m)
    decreases |m|
  {
    states := [s];
    if |m| >= 64 {
      var rest := AbsorbStates(f, f(s, m[..64]), m[64..]);
      states := [s] + rest;
      assert |m[64..]| / 64 == |m| / 64 - 1;
      forall i | 0 <= i < |m| / 64
        ensures states[i + 1] == f(states[i], m[64 * i..64 * i + 64])
      {
        if i > 0 {
          assert m[64..][64 * (i - 1)..64 * (i - 1) + 64] == m[64 * i..64 * i + 64];
          assert rest[i - 1 + 1] == f(rest[i - 1], m[64..][64 * (i - 1)..64 * (i - 1) + 64]);
        }
      }
    }
  }

  /** The same, block by block: however a message is cut into update calls, the state is the
      last of the states its complete blocks lead through, the buffer starts with the bytes
      left over, and the count is eight times the length modulo 2^64. */
  lemma StreamingBlockByBlock<S(!new)>(f: Compress<S>, s: S, buffer: seq<Byte>, chunks: seq<seq<Byte>>)
    returns (states: seq<S>)
    requires |buffer| == 64
    ensures var m, c := Concat(chunks), Stream(f, Context(s, 0, buffer), chunks);
      && BlockStates(f, m, states) && states[0] == s && c.state == states[|m| / 64]
      && |c.buffer| == 64 && c.buffer[..|m| % 64] == m[|m| / 64 * 64..]
      && c.count == 8 * |m| % 0x1_0000_0000_0000_0000
  {
    hide Absorb, Stream, Concat;
    StreamingIsOneShot(f, s, buffer, chunks);
    var m := Concat(chunks);
    states := AbsorbStates(f, s, m);
    assert Rest(m) == m[|m| / 64 * 64..];
  }
}
