/** Decoding an encoded block gives its expansion, and when it does not. */
module Lz4RoundTrip {
  import opened Basics
  import opened Lz4Format

  ghost predicate AllSurvive(block: seq<Sequence>) {
    forall s :: s in block ==> Survives(s.offset)
  }

  /** A valid block can be encoded. */
  lemma {:induction false} ValidEncodable(written: nat, block: seq<Sequence>)
    requires Valid(written, block)
    ensures forall s :: s in block ==> Encodable(s)
    decreases |block|
  {
    if block != [] {
      ValidEncodable(written + |block[0].literals| + block[0].length, block[1..]);
      assert block == [block[0]] + block[1..];
    }
  }

  lemma {:induction false} ReadsBack(n: nat, rest: seq<Byte>, acc: nat)
    requires acc + n <= INT_MAX
    ensures ReadBytes(LengthBytes(n) + rest, acc) == Read(acc + n, rest)
    decreases n
  {
    var src := LengthBytes(n) + rest;
    if n < 255 {
      assert src[1..] == rest;
    } else {
      ReadsBack(n - 255, rest, acc + 255);
      assert src[1..] == LengthBytes(n - 255) + rest;
    }
  }

  lemma ReadsLength(n: nat, rest: seq<Byte>)
    requires n <= INT_MAX
    ensures ReadLength(Nibble(n), Extra(n) + rest) == Read(n, rest)
  {
    if n < 15 {
      assert Extra(n) + rest == rest;
    } else {
      ReadsBack(n - 15, rest, 15);
    }
  }

  /** The outcome owed for an expansion `all`. */
  function Owed(all: seq<Byte>, max: nat): Outcome {
    if |all| <= max then Done(all) else Full(all[..max])
  }

  /** What is written stays written. */
  lemma {:induction false} ExpandExtends(out: seq<Byte>, block: seq<Sequence>, last: seq<Byte>)
    requires Valid(|out|, block)
    ensures out <= Expand(out, block, last)
    decreases |block|
  {
    if block != [] {
      var mid := out + block[0].literals;
      var next := CopyMatch(mid, block[0].offset, block[0].length);
      ExpandExtends(next, block[1..], last);
      assert out == next[..|out|] by {
        assert out == mid[..|out|] == next[..|mid|][..|out|];
      }
    }
  }

  lemma {:induction false} CopyPrefix(out: seq<Byte>, offset: nat, n: nat, m: nat)
    requires 1 <= offset <= |out| && m <= n
    ensures CopyMatch(out, offset, m) == CopyMatch(out, offset, n)[..|out| + m]
    decreases m
  {
    if m > 0 {
      CopyPrefix(out + [out[|out| - offset]], offset, n - 1, m - 1);
    }
  }

  /** The final literals. */
  lemma DecodeLast(last: seq<Byte>, out: seq<Byte>, max: nat)
    requires |out| <= max && |last| <= INT_MAX
    ensures Decode(EncodeLast(last), out, max) == Owed(out + last, max)
  {
    var src := EncodeLast(last);
    assert src[1..] == Extra(|last|) + last;
    ReadsLength(|last|, last);
    if |last| > max - |out| {
      assert (out + last)[..max] == out + last[..max - |out|];
    }
  }

  /** The part of a sequence after its literals. */
  function MatchBytes(s: Sequence): seq<Byte>
    requires Encodable(s)
  {
    [(s.offset % 256) as Byte, (s.offset / 256) as Byte] + Extra(s.length - 4)
  }

  lemma SequenceShape(s: Sequence, rest: seq<Byte>)
    requires Encodable(s)
    ensures var src := EncodeSequence(s) + rest;
      && src != [] && src[0] as int == Nibble(|s.literals|) * 16 + Nibble(s.length - 4)
      && src[1..] == Extra(|s.literals|) + (s.literals + (MatchBytes(s) + rest))
  {
  }

  /** The literals of one sequence. */
  lemma DecodeLiterals(s: Sequence, rest: seq<Byte>, out: seq<Byte>, max: nat)
    requires Encodable(s) && |out| <= max && |s.literals| <= INT_MAX
    ensures Decode(EncodeSequence(s) + rest, out, max) ==
              if |out + s.literals| > max then Full((out + s.literals)[..max])
              else DecodeMatch(Nibble(|s.literals|) * 16 + Nibble(s.length - 4), MatchBytes(s) + rest,
                               out + s.literals, max)
  {
    hide DecodeMatch, EncodeSequence, ReadLength, Extra, Nibble;
    SequenceShape(s, rest);
    var n := |s.literals|;
    var tail := s.literals + (MatchBytes(s) + rest);
    ReadsLength(n, tail);
    assert tail[..n] == s.literals && tail[n..] == MatchBytes(s) + rest;
    if n > max - |out| {
      assert (out + s.literals)[..max] == out + tail[..max - |out|];
    }
  }

  /** The copy of one sequence, for an offset that survives. */
  lemma DecodeCopy(s: Sequence, token: nat, rest: seq<Byte>, out: seq<Byte>, max: nat)
    requires Encodable(s) && |out| <= max && s.length <= INT_MAX && token % 16 == Nibble(s.length - 4)
    requires 1 <= s.offset <= |out| && Survives(s.offset)
    ensures DecodeMatch(token, MatchBytes(s) + rest, out, max) ==
              if |out| + s.length > max then Full(CopyMatch(out, s.offset, s.length)[..max])
              else Decode(rest, CopyMatch(out, s.offset, s.length), max)
  {
    hide Decode, CopyMatch, ReadLength, Extra, Nibble, OffsetRead, Survives;
    var src := MatchBytes(s) + rest;
    assert src[2..] == Extra(s.length - 4) + rest;
    assert src[0] == (s.offset % 256) as Byte && src[1] == (s.offset / 256) as Byte;
    ReadsLength(s.length - 4, rest);
    OffsetSurvives(s.offset);
    if |out| + s.length > max {
      CopyPrefix(out, s.offset, s.length, max - |out|);
    }
  }

  /** Decoding an encoded block writes its expansion and returns its length, or returns
      -1 exactly when the expansion does not fit. */
  lemma {:induction false} RoundTrip(block: seq<Sequence>, last: seq<Byte>, out: seq<Byte>, max: nat)
    requires Valid(|out|, block) && AllSurvive(block) && |last| <= INT_MAX && |out| <= max
    requires forall s :: s in block ==> Encodable(s)
    ensures Decode(Encode(block, last), out, max) == Owed(Expand(out, block, last), max)
    decreases |block|
  {
    hide Decode, DecodeMatch, EncodeSequence, EncodeLast, CopyMatch, Survives, Nibble;
    if block == [] {
      DecodeLast(last, out, max);
    } else {
      var s, mid := block[0], out + block[0].literals;
      var next := CopyMatch(mid, s.offset, s.length);
      var all := Expand(out, block, last);
      ExpandExtends(next, block[1..], last);
      DecodeLiterals(s, Encode(block[1..], last), out, max);
      assert mid == all[..|mid|] by { assert mid == next[..|mid|]; }
      if |mid| > max {
        assert mid[..max] == all[..max];
      } else {
        DecodeCopy(s, Nibble(|s.literals|) * 16 + Nibble(s.length - 4), Encode(block[1..], last), mid, max);
        if |next| > max {
          assert next[..max] == all[..max];
        } else {
          RoundTrip(block[1..], last, next, max);
        }
      }
    }
  }

  /** A copy whose offset does not survive reads before the start of a short output. */
  lemma BadCopyFaults(s: Sequence, token: nat, rest: seq<Byte>, out: seq<Byte>, max: nat)
    requires Encodable(s) && s.length <= INT_MAX && token % 16 == Nibble(s.length - 4)
    requires !Survives(s.offset) && |out| < max && |out| < 0xFF80
    ensures DecodeMatch(token, MatchBytes(s) + rest, out, max) == Fault
  {
    hide Decode, CopyMatch, ReadLength, Extra, Nibble, OffsetRead, Survives;
    var src := MatchBytes(s) + rest;
    assert src[2..] == Extra(s.length - 4) + rest;
    assert src[0] == (s.offset % 256) as Byte && src[1] == (s.offset / 256) as Byte;
    ReadsLength(s.length - 4, rest);
    OffsetSurvives(s.offset);
  }

  lemma {:induction false} BadOffsetFaults(block: seq<Sequence>, last: seq<Byte>, out: seq<Byte>, max: nat)
    requires Valid(|out|, block) && !AllSurvive(block) && |last| <= INT_MAX
    requires |Expand(out, block, last)| <= max && |Expand(out, block, last)| < 0xFF80 && |out| <= max
    requires forall s :: s in block ==> Encodable(s)
    ensures Decode(Encode(block, last), out, max) == Fault
    decreases |block|
  {
    hide Decode, DecodeMatch, EncodeSequence, EncodeLast, CopyMatch, Survives, Nibble;
    var s, mid := block[0], out + block[0].literals;
    var next := CopyMatch(mid, s.offset, s.length);
    var token := Nibble(|s.literals|) * 16 + Nibble(s.length - 4);
    ExpandExtends(next, block[1..], last);
    DecodeLiterals(s, Encode(block[1..], last), out, max);
    if Survives(s.offset) {
      DecodeCopy(s, token, Encode(block[1..], last), mid, max);
      assert block == [s] + block[1..];
      BadOffsetFaults(block[1..], last, next, max);
    } else {
      BadCopyFaults(s, token, Encode(block[1..], last), mid, max);
    }
  }

  /** For outputs below 65408 bytes the decoder is right exactly on the blocks whose
      offsets have a low byte under 128 or a high byte of 255. */
  lemma DecodeExact(block: seq<Sequence>, last: seq<Byte>, max: nat)
    requires Valid(0, block) && |last| <= INT_MAX
    requires |Expand([], block, last)| <= max && |Expand([], block, last)| < 0xFF80
    ensures forall s :: s in block ==> Encodable(s)
    ensures Decode(Encode(block, last), [], max) == Done(Expand([], block, last)) <==> AllSurvive(block)
  {
    ValidEncodable(0, block);
    hide Decode, Encode, Expand;
    if AllSurvive(block) {
      RoundTrip(block, last, [], max);
    } else {
      BadOffsetFaults(block, last, [], max);
    }
  }

  /** The smallest offset that is lost: a copy from 128 bytes back. */
  lemma OffsetOf128IsLost(literals: seq<Byte>)
    requires |literals| == 128
    ensures Decode(Encode([Sequence(literals, 128, 4)], []), [], 1000) == Fault
  {
    var block := [Sequence(literals, 128, 4)];
    assert block[1..] == [];
    assert Valid(0, block);
    assert |Expand([], block, [])| == 132 by {
      assert Expand([], block, []) == Expand(CopyMatch([] + literals, 128, 4), [], []);
    }
    assert block[0] in block && !Survives(block[0].offset);
    BadOffsetFaults(block, [], [], 1000);
  }
}
