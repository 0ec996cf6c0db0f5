/** lz4_decompress_unknown_size of crypto/lz4.c, with its loops, on arrays.  The C code
    checks the output bound only; where it would read outside a buffer, read a byte never
    written, or overflow an int, the method stops with `Undefined`. */
module Lz4Decoder {
  import opened Basics
  import opened Lz4Format

  datatype Result = Returned(value: int) | Undefined

  datatype Status = Going | OutputFull | Broken

  lemma {:induction false} CopyOneMore(out: seq<Byte>, offset: nat, n: nat)
    requires 1 <= offset <= |out|
    ensures var c := CopyMatch(out, offset, n);
            CopyMatch(out, offset, n + 1) == c + [c[|c| - offset]]
    decreases n
  {
    if n > 0 {
      CopyOneMore(out + [out[|out| - offset]], offset, n - 1);
    }
  }

  /** Adds bytes to a length until one is not 255. */
  method ReadExtra(source: array<Byte>, start: nat, base: nat) returns (ok: bool, length: nat, src: nat)
    requires start <= source.Length && base <= INT_MAX
    ensures start <= src <= source.Length
    ensures match ReadBytes(source[start..], base)
            case ReadFault => !ok
            case Read(n, rest) => ok && length == n && source[src..] == rest
  {
    length, src := base, start;
    while true
      invariant start <= src <= source.Length && length <= INT_MAX
      invariant ReadBytes(source[src..], length) == ReadBytes(source[start..], base)
      decreases source.Length - src
    {
      if src == source.Length || length + source[src] as int > INT_MAX {
        return false, length, src;
      }
      var s := source[src];
      assert source[src..][1..] == source[src + 1..];
      src := src + 1;
      length := length + s as int;
      if s != 255 {
        return true, length, src;
      }
    }
  }

  method LengthFrom(nibble: nat, source: array<Byte>, start: nat) returns (ok: bool, length: nat, src: nat)
    requires start <= source.Length && nibble <= 15
    ensures start <= src <= source.Length
    ensures match ReadLength(nibble, source[start..])
            case ReadFault => !ok
            case Read(n, rest) => ok && length == n && source[src..] == rest
  {
    length, src := nibble, start;
    if length == 15 {
      ok, length, src := ReadExtra(source, start, 15);
    } else {
      ok := true;
    }
  }

  /** The literal loop: the output bound is checked before each byte is read. */
  method CopyLiterals(source: array<Byte>, dest: array<Byte>, src: nat, dst: nat, n: nat, max: nat)
    returns (status: Status)
    requires source != dest && src <= source.Length && dst <= max <= dest.Length
    modifies dest
    ensures dest[..dst] == old(dest[..dst])
    ensures var room := max - dst;
            if n > room || n > source.Length - src then
              if room <= source.Length - src then status == OutputFull && dest[dst..max] == source[src..src + room]
              else status == Broken
            else status == Going && dest[dst..dst + n] == source[src..src + n]
  {
    for i := 0 to n
      invariant i <= max - dst && i <= source.Length - src
      invariant dest[..dst] == old(dest[..dst])
      invariant dest[dst..dst + i] == source[src..src + i]
    {
      if dst + i >= max {
        return OutputFull;
      }
      if src + i >= source.Length {
        return Broken;
      }
      dest[dst + i] := source[src + i];
    }
    return Going;
  }

  /** The match loop: bytes are copied one at a time from `offset` bytes back. */
  method CopyBack(dest: array<Byte>, dst: nat, offset: nat, n: nat, max: nat) returns (status: Status)
    requires dst <= max <= dest.Length && n > 0
    modifies dest
    ensures if dst == max then status == OutputFull && dest[..max] == old(dest[..max])
            else if offset == 0 || offset > dst then status == Broken
            else if dst + n > max then
              status == OutputFull && dest[..max] == CopyMatch(old(dest[..dst]), offset, max - dst)
            else status == Going && dest[..dst + n] == CopyMatch(old(dest[..dst]), offset, n)
  {
    if dst == max {
      return OutputFull;
    }
    if offset == 0 || offset > dst {
      return Broken;
    }
    ghost var out := dest[..dst];
    var back := dst - offset;
    for i := 0 to n
      invariant dst + i <= max
      invariant dest[..dst + i] == CopyMatch(out, offset, i)
    {
      if dst + i >= max {
        return OutputFull;
      }
      CopyOneMore(out, offset, i);
      dest[dst + i] := dest[back + i];
    }
    return Going;
  }

  /** What the caller sees of an outcome: the returned value and the bytes written. */
  ghost predicate Answers(r: Result, dest: seq<Byte>, o: Outcome) {
    match o
    case Done(out) => r == Returned(|out|) && out <= dest
    case Full(out) => r == Returned(-1) && out <= dest
    case Fault => r == Undefined
  }

  /** Token and literals of one sequence; `more` says that a match follows. */
  method LiteralPart(source: array<Byte>, dest: array<Byte>, start: nat, written: nat, max: nat)
    returns (more: bool, r: Result, token: nat, src: nat, dst: nat)
    requires source != dest && start < source.Length && written <= max <= dest.Length
    modifies dest
    ensures !more ==> Answers(r, dest[..], Decode(source[start..], old(dest[..written]), max))
    ensures more ==>
      && start < src < source.Length && dst <= max && token < 256
      && Decode(source[start..], old(dest[..written]), max) == DecodeMatch(token, source[src..], dest[..dst], max)
  {
    hide DecodeMatch, ReadLength;
    token, dst := source[start] as int, written;
    ghost var bytes, out := source[start..], dest[..written];
    assert bytes[1..] == source[start + 1..];
    var ok, n;
    ok, n, src := LengthFrom(token / 16, source, start + 1);
    if !ok {
      return false, Undefined, token, src, dst;
    }
    var status := CopyLiterals(source, dest, src, dst, n, max);
    if status == OutputFull {
      assert source[src..][..max - written] == source[src..src + max - written];
      assert dest[..max] == dest[..written] + dest[written..max];
      return false, Returned(-1), token, src, dst;
    }
    if status == Broken {
      return false, Undefined, token, src, dst;
    }
    ghost var rest := source[src..];
    assert rest[..n] == source[src..src + n] && rest[n..] == source[src + n..];
    src, dst := src + n, dst + n;
    assert dest[..dst] == dest[..written] + dest[written..dst];
    if src >= source.Length {
      return false, Returned(dst), token, src, dst;
    }
    more, r := true, Undefined;
  }

  /** Offset and copy of one sequence; `more` says that decoding goes on. */
  method MatchPart(source: array<Byte>, dest: array<Byte>, token: nat, start: nat, written: nat, max: nat)
    returns (more: bool, r: Result, src: nat, dst: nat)
    requires source != dest && start < source.Length && written <= max <= dest.Length && token < 256
    modifies dest
    ensures !more ==> Answers(r, dest[..], DecodeMatch(token, source[start..], old(dest[..written]), max))
    ensures more ==>
      && start < src <= source.Length && dst <= max
      && DecodeMatch(token, source[start..], old(dest[..written]), max) == Decode(source[src..], dest[..dst], max)
  {
    hide Decode, ReadLength;
    src, dst := start, written;
    ghost var bytes, out := source[start..], dest[..written];
    if start + 1 >= source.Length {
      return false, Undefined, src, dst;
    }
    var offset := OffsetRead(source[start], source[start + 1]);
    assert bytes[2..] == source[start + 2..];
    var ok, n;
    ok, n, src := LengthFrom(token % 16, source, start + 2);
    if !ok || n + 4 > INT_MAX {
      return false, Undefined, src, dst;
    }
    var status := CopyBack(dest, dst, offset, n + 4, max);
    if status == OutputFull {
      return false, Returned(-1), src, dst;
    }
    if status == Broken {
      return false, Undefined, src, dst;
    }
    dst := dst + n + 4;
    more, r := true, Undefined;
  }

  method Decompress(source: array<Byte>, dest: array<Byte>, maxOutput: nat) returns (r: Result)
    requires source != dest && maxOutput <= dest.Length
    modifies dest
    ensures Answers(r, dest[..], Decode(source[..], [], maxOutput))
  {
    hide DecodeMatch;
    var src: nat, dst: nat := 0, 0;
    ghost var goal := Decode(source[..], [], maxOutput);
    assert source[..] == source[0..] && dest[..0] == [];
    while src < source.Length
      invariant src <= source.Length && dst <= maxOutput
      invariant Decode(source[src..], dest[..dst], maxOutput) == goal
    {
      var more, token;
      more, r, token, src, dst := LiteralPart(source, dest, src, dst, maxOutput);
      if !more {
        return;
      }
      more, r, src, dst := MatchPart(source, dest, token, src, dst, maxOutput);
      if !more {
        return;
      }
    }
    return Returned(dst);
  }
}
