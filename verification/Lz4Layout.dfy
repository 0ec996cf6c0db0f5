/** The bytes of an LZ4 block, as the LZ4 Block Format lays them out, and blocks decoded. */
module Lz4Layout {
  import opened Basics
  import opened Lz4Format
  import opened Lz4RoundTrip

  /** A length is spelled with as many bytes of 255 as fit, and what is left. */
  lemma {:induction false} LengthSpelled(n: nat)
    ensures LengthBytes(n) == seq(n / 255, _ => 255 as Byte) + [(n % 255) as Byte]
  {
    if n >= 255 {
      LengthSpelled(n - 255);
      assert seq(n / 255, _ => 255 as Byte) == [255] + seq((n - 255) / 255, _ => 255 as Byte);
    }
  }

  /** What follows the token for a length of `n`, counted from 15 on. */
  function Spelled(n: nat): seq<Byte> {
    if n < 15 then [] else seq((n - 15) / 255, _ => 255 as Byte) + [((n - 15) % 255) as Byte]
  }

  function Capped(n: nat): nat {
    if n < 15 then n else 15
  }

  /** Token, literal length, literals, offset with its low byte first, and match length. */
  lemma SequenceLayout(s: Sequence)
    requires Encodable(s)
    ensures EncodeSequence(s) ==
      [(Capped(|s.literals|) * 16 + Capped(s.length - 4)) as Byte] + (Spelled(|s.literals|) + (s.literals +
        ([(s.offset % 256) as Byte, (s.offset / 256) as Byte] + Spelled(s.length - 4))))
  {
    hide Extra, Spelled;
    ExtraSpelled(|s.literals|);
    ExtraSpelled(s.length - 4);
  }

  lemma ExtraSpelled(n: nat)
    ensures Extra(n) == Spelled(n)
  {
    hide LengthBytes;
    if n >= 15 {
      LengthSpelled(n - 15);
    }
  }

  /** Token, length and literals of the last sequence. */
  lemma LastLayout(literals: seq<Byte>)
    ensures EncodeLast(literals) == [(Capped(|literals|) * 16) as Byte] + (Spelled(|literals|) + literals)
  {
    hide Extra, Spelled;
    ExtraSpelled(|literals|);
  }

  /** What a copy writes, byte by byte. */
  lemma CopyIs(out: seq<Byte>, offset: nat, n: nat, all: seq<Byte>)
    requires 1 <= offset <= |out| && |all| == |out| + n && all[..|out|] == out
    requires forall i :: |out| <= i < |all| ==> all[i] == out[|out| - offset + (i - |out|) % offset]
    ensures CopyMatch(out, offset, n) == all
  {
    var c := CopyMatch(out, offset, n);
    forall i | 0 <= i < |c|
      ensures c[i] == all[i]
    {
      if i < |out| {
        assert c[i] == c[..|out|][i] == all[..|out|][i];
      } else {
        CopyRepeats(out, offset, n, i - |out|);
      }
    }
  }

  /** One sequence and last literals, with an offset that survives, decode to the literals,
      the copy and the last literals. */
  lemma OneSequence(s: Sequence, last: seq<Byte>, all: seq<Byte>, max: nat)
    requires Encodable(s) && 1 <= s.offset <= |s.literals| && Survives(s.offset)
    requires |s.literals| <= INT_MAX && s.length <= INT_MAX && |last| <= INT_MAX
    requires all == CopyMatch(s.literals, s.offset, s.length) + last && |all| <= max
    ensures Decode(EncodeSequence(s) + EncodeLast(last), [], max) == Done(all)
  {
    hide CopyMatch, Decode, EncodeSequence, EncodeLast;
    assert [s][1..] == [];
    assert [] + s.literals == s.literals;
    assert Encode([s][1..], last) == EncodeLast(last);
    assert Expand([], [s], last) == all;
    RoundTrip([s], last, [], max);
  }

  /** Five literals, six bytes from five back, one literal. */
  lemma ShortExample()
    ensures var src: seq<Byte> := [0x52, 97, 98, 99, 100, 101, 5, 0, 0x10, 33];
      Decode(src, [], 1000) == Done([97, 98, 99, 100, 101, 97, 98, 99, 100, 101, 97, 33])
  {
    hide EncodeSequence, EncodeLast, CopyMatch, Decode;
    var s := Sequence([97, 98, 99, 100, 101], 5, 6);
    var copied: seq<Byte> := [97, 98, 99, 100, 101, 97, 98, 99, 100, 101, 97];
    CopyIs(s.literals, 5, 6, copied);
    OneSequence(s, [33], copied + [33], 1000);
    SequenceLayout(s);
    LastLayout([33]);
    assert EncodeSequence(s) == [0x52, 97, 98, 99, 100, 101, 5, 0];
    assert EncodeLast([33]) == [0x10, 33];
    assert EncodeSequence(s) + EncodeLast([33]) == [0x52, 97, 98, 99, 100, 101, 5, 0, 0x10, 33];
    assert copied + [33] == [97, 98, 99, 100, 101, 97, 98, 99, 100, 101, 97, 33];
  }

  /** A literal and 22 copies of it: 15, 3 and 4 make 22. */
  lemma RepeatExample()
    ensures Decode([0x1F, 65, 1, 0, 3, 0x10, 66], [], 1000) == Done(seq(23, _ => 65 as Byte) + [66])
  {
    hide EncodeSequence, EncodeLast, CopyMatch, Decode;
    var s := Sequence([65], 1, 22);
    CopyIs([65], 1, 22, seq(23, _ => 65 as Byte));
    OneSequence(s, [66], seq(23, _ => 65 as Byte) + [66], 1000);
    SequenceLayout(s);
    LastLayout([66]);
    assert EncodeSequence(s) == [0x1F, 65, 1, 0, 3];
    assert EncodeLast([66]) == [0x10, 66];
    assert EncodeSequence(s) + EncodeLast([66]) == [0x1F, 65, 1, 0, 3, 0x10, 66];
  }

  /** 272 literals: 15, 255 and 2. */
  lemma LongExample(literals: seq<Byte>)
    requires |literals| == 272
    ensures Decode([0xF0, 255, 2] + literals, [], 1000) == Done(literals)
  {
    hide EncodeLast, Decode;
    LastLayout(literals);
    assert Spelled(272) == [255, 2];
    assert EncodeLast(literals) == [0xF0, 255, 2] + literals;
    DecodeLast(literals, [], 1000);
    assert [] + literals == literals;
  }
}
