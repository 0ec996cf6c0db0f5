/** The LZ4 block format: blocks as values, their encoding, what they expand to, and
    the decoder of crypto/lz4.c as a function of the bytes left to read and the bytes
    written so far. */
module Lz4Format {
  import opened Basics

  const INT_MAX := 0x7FFF_FFFF

  /** Literals followed by a copy of `length` bytes from `offset` bytes back. */
  datatype Sequence = Sequence(literals: seq<Byte>, offset: nat, length: nat)

  // ---------------------------------------------------------------- encoding

  function Nibble(n: nat): (r: nat)
    ensures r <= 15
  {
    if n < 15 then n else 15
  }

  function LengthBytes(n: nat): (r: seq<Byte>)
    ensures r != []
  {
    if n < 255 then [n as Byte] else [255] + LengthBytes(n - 255)
  }

  function Extra(n: nat): seq<Byte> {
    if n < 15 then [] else LengthBytes(n - 15)
  }

  predicate Encodable(s: Sequence) {
    s.offset < 65536 && s.length >= 4
  }

  function EncodeSequence(s: Sequence): seq<Byte>
    requires Encodable(s)
  {
    [(Nibble(|s.literals|) * 16 + Nibble(s.length - 4)) as Byte] + (Extra(|s.literals|) + (s.literals +
      ([(s.offset % 256) as Byte, (s.offset / 256) as Byte] + Extra(s.length - 4))))
  }

  function EncodeLast(literals: seq<Byte>): seq<Byte> {
    [(Nibble(|literals|) * 16) as Byte] + (Extra(|literals|) + literals)
  }

  /** The sequences of a block and its final literals. */
  function Encode(block: seq<Sequence>, last: seq<Byte>): seq<Byte>
    requires forall s :: s in block ==> Encodable(s)
  {
    if block == [] then EncodeLast(last)
    else EncodeSequence(block[0]) + Encode(block[1..], last)
  }

  // ---------------------------------------------------------------- expansion

  /** Byte by byte, so that a copy may read bytes it has just written. */
  function CopyMatch(out: seq<Byte>, offset: nat, n: nat): (r: seq<Byte>)
    requires 1 <= offset <= |out|
    ensures |r| == |out| + n && r[..|out|] == out
    decreases n
  {
    if n == 0 then out
    else CopyMatch(out + [out[|out| - offset]], offset, n - 1)
  }

  function Expand(out: seq<Byte>, block: seq<Sequence>, last: seq<Byte>): seq<Byte>
    requires Valid(|out|, block)
    decreases |block|
  {
    if block == [] then out + last
    else Expand(CopyMatch(out + block[0].literals, block[0].offset, block[0].length), block[1..], last)
  }

  /** Every copy starts inside what is written by then, and lengths fit an int. */
  predicate Valid(written: nat, block: seq<Sequence>)
    decreases |block|
  {
    block == [] ||
    var s := block[0];
    && Encodable(s) && |s.literals| <= INT_MAX && s.length <= INT_MAX
    && 1 <= s.offset <= written + |s.literals|
    && Valid(written + |s.literals| + s.length, block[1..])
  }

  /** Overlapping copies repeat the last `offset` bytes. */
  lemma {:induction false} CopyRepeats(out: seq<Byte>, offset: nat, n: nat, k: nat)
    requires 1 <= offset <= |out| && k < n
    ensures CopyMatch(out, offset, n)[|out| + k] == out[|out| - offset + k % offset]
    decreases n
  {
    var more := out + [out[|out| - offset]];
    if k == 0 {
      assert CopyMatch(more, offset, n - 1)[..|more|] == more;
    } else {
      CopyRepeats(more, offset, n - 1, k - 1);
      assert (k - 1) % offset + 1 == offset ==> k % offset == 0 by { Successor(k - 1, offset); }
      assert (k - 1) % offset + 1 < offset ==> k % offset == (k - 1) % offset + 1 by { Successor(k - 1, offset); }
    }
  }

  lemma Successor(a: nat, d: nat)
    requires d >= 1
    ensures (a + 1) % d == if a % d + 1 == d then 0 else a % d + 1
  {
    var q := a / d;
    assert a + 1 == q * d + (a % d + 1);
    if a % d + 1 == d {
      assert a + 1 == (q + 1) * d;
    }
    ModOf(a + 1, if a % d + 1 == d then q + 1 else q, if a % d + 1 == d then 0 else a % d + 1, d);
  }

  lemma Multiple(e: int, d: int)
    requires d > 0
    ensures e >= 1 ==> e * d >= d
    ensures e <= -1 ==> e * d <= -d
  {
  }

  lemma ModOf(x: nat, q: nat, r: nat, d: nat)
    requires r < d && x == q * d + r
    ensures x % d == r
  {
    var e := x / d - q;
    assert e * d == r - x % d;
    Multiple(e, d);
  }

  // ---------------------------------------------------------------- decoding

  datatype Reading = Read(length: nat, rest: seq<Byte>) | ReadFault

  datatype Outcome =
    | Done(out: seq<Byte>)      // returns the number of bytes written
    | Full(out: seq<Byte>)      // returns -1
    | Fault                     // reads outside a buffer, or overflows an int

  /** Length bytes are added up until one is not 255. */
  function ReadBytes(src: seq<Byte>, acc: nat): (r: Reading)
    ensures r.Read? ==> |r.rest| < |src|
  {
    if src == [] || acc + src[0] as int > INT_MAX then ReadFault
    else if src[0] == 255 then ReadBytes(src[1..], acc + 255)
    else Read(acc + src[0] as int, src[1..])
  }

  function ReadLength(nibble: nat, src: seq<Byte>): (r: Reading)
    ensures r.Read? ==> |r.rest| <= |src|
  {
    if nibble == 15 then ReadBytes(src, 15) else Read(nibble, src)
  }

  /** The offset as the decoder computes it: the low byte is widened as a signed char. */
  function OffsetRead(low: Byte, high: Byte): nat {
    if low < 128 then high as int * 256 + low as int else 0xFF00 + low as int
  }

  /** Offsets that come back from the two bytes that encode them. */
  predicate Survives(offset: nat) {
    offset % 256 < 128 || offset / 256 == 255
  }

  lemma OffsetSurvives(offset: nat)
    requires offset < 65536
    ensures OffsetRead((offset % 256) as Byte, (offset / 256) as Byte) == offset <==> Survives(offset)
    ensures !Survives(offset) ==> OffsetRead((offset % 256) as Byte, (offset / 256) as Byte) >= 0xFF80
  {
  }

  /** The rest of one sequence after its literals. */
  function DecodeMatch(token: nat, src: seq<Byte>, out: seq<Byte>, max: nat): Outcome
    requires src != [] && |out| <= max
    decreases |src|, 1
  {
    if |src| < 2 then Fault
    else
      var offset := OffsetRead(src[0], src[1]);
      match ReadLength(token % 16, src[2..])
      case ReadFault => Fault
      case Read(n, rest) =>
        if n + 4 > INT_MAX then Fault
        else if |out| == max then Full(out)
        else if offset == 0 || offset > |out| then Fault
        else if |out| + n + 4 > max then Full(CopyMatch(out, offset, max - |out|))
        else Decode(rest, CopyMatch(out, offset, n + 4), max)
  }

  /** What the decoder makes of `src` after it has written `out`. */
  function Decode(src: seq<Byte>, out: seq<Byte>, max: nat): Outcome
    requires |out| <= max
    decreases |src|, 0
  {
    if src == [] then Done(out)
    else
      var token := src[0] as int;
      match ReadLength(token / 16, src[1..])
      case ReadFault => Fault
      case Read(n, rest) =>
        var room := max - |out|;
        if n > room || n > |rest| then
          if room <= |rest| then Full(out + rest[..room]) else Fault
        else if n == |rest| then Done(out + rest)
        else DecodeMatch(token, rest[n..], out + rest[..n], max)
  }
}
