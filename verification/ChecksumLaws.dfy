/** What the two checksums are for: padding is free, a receiver that adds the checksum in gets
    zero, and the example of section 3 of RFC 1071. */
module ChecksumLaws {
  import opened Basics
  import opened Checksum

  lemma {:induction false} SumAppends(a: seq<Byte>, b: seq<Byte>)
    requires |a| % 2 == 0
    ensures LittleSum(a + b) == LittleSum(a) + LittleSum(b)
    ensures BigSum(a + b) == BigSum(a) + BigSum(b)
  {
    if a == [] {
      assert a + b == b;
    } else {
      assert (a + b)[2..] == a[2..] + b;
      SumAppends(a[2..], b);
    }
  }

  /** An odd buffer counts as if a zero byte followed. */
  lemma PaddingIsFree(data: seq<Byte>)
    requires |data| % 2 == 1
    ensures LateValue(data + [0]) == LateValue(data) && EagerValue(data + [0]) == EagerValue(data)
  {
    hide LittleSum, BigSum, Fold, Wrapped, Swap;
    var n := |data| - 1;
    assert data == data[..n] + [data[n]] && data + [0] == data[..n] + [data[n], 0];
    SumAppends(data[..n], [data[n]]);
    SumAppends(data[..n], [data[n], 0]);
    WordSum(data[n], 0);
    ByteSum(data[n]);
  }

  lemma WordSum(low: Byte, high: Byte)
    ensures LittleSum([low, high]) == low as int + 256 * high as int
    ensures BigSum([low, high]) == 256 * low as int + high as int
  {
    assert [low, high][2..] == [];
  }

  lemma ByteSum(b: Byte)
    ensures LittleSum([b]) == b as int && BigSum([b]) == 256 * b as int
  {
  }

  lemma MultipleDropped(x: nat, k: nat)
    ensures (x + 65535 * k) % 65535 == x % 65535
  {
  }

  lemma SmallMultiples(x: nat)
    requires x <= 131070
    ensures x % 65535 == 0 <==> x == 0 || x == 65535 || x == 131070
  {
  }

  lemma FoldOfMultiple(x: nat)
    ensures Fold(x) == 65535 <==> x > 0 && x % 65535 == 0
  {
    var k := FoldResidue(x);
    MultipleDropped(Fold(x), k);
    SmallMultiples(Fold(x));
  }

  /** A receiver adds the checksum it got to the data.  It gets zero exactly when it got the
      checksum of the data, or the other zero in its place. */
  lemma ReceiverChecks(data: seq<Byte>, low: Byte, high: Byte)
    requires |data| % 2 == 0 && |data| + 2 <= 131074
    ensures var v, u := LateValue(data), low as int + 256 * high as int;
      LateValue(data + [low, high]) == 0 <==> u == v || (u == 65535 && v == 0)
  {
    hide LittleSum, Fold;
    var s, u := LittleSum(data), low as int + 256 * high as int;
    SumAppends(data, [low, high]);
    WordSum(low, high);
    ShortSum(data);
    ShortSum(data + [low, high]);
    FoldOfMultiple(s + u);
    Accepted(s, u);
  }

  lemma Accepted(s: nat, u: nat)
    requires u < 65536
    ensures s + u > 0 && (s + u) % 65535 == 0 <==> Fold(s) + u == 65535 || Fold(s) + u == 131070
  {
    hide Fold;
    var k := FoldResidue(s);
    MultipleDropped(Fold(s) + u, k);
    SmallMultiples(Fold(s) + u);
  }

  /** 00 01 f2 03 f4 f5 f6 f7 has the checksum 22 0d. */
  lemma RfcExample()
    ensures var data: seq<Byte> := [0x00, 0x01, 0xf2, 0x03, 0xf4, 0xf5, 0xf6, 0xf7];
      LateValue(data) == EagerValue(data) == 0x22 + 256 * 0x0d
  {
    hide LittleSum, BigSum;
    var data: seq<Byte> := [0x00, 0x01, 0xf2, 0x03, 0xf4, 0xf5, 0xf6, 0xf7];
    assert data == [0x00, 0x01] + ([0xf2, 0x03] + ([0xf4, 0xf5] + [0xf6, 0xf7]));
    SumAppends([0x00, 0x01], [0xf2, 0x03] + ([0xf4, 0xf5] + [0xf6, 0xf7]));
    SumAppends([0xf2, 0x03], [0xf4, 0xf5] + [0xf6, 0xf7]);
    SumAppends([0xf4, 0xf5], [0xf6, 0xf7]);
    WordSum(0x00, 0x01);
    WordSum(0xf2, 0x03);
    WordSum(0xf4, 0xf5);
    WordSum(0xf6, 0xf7);
    assert LittleSum(data) == 0x0100 + 0x03f2 + 0xf5f4 + 0xf7f6;
    assert Fold(LittleSum(data)) == 0xf2dd;
    assert BigSum(data) == 0x2ddf0;
    assert Wrapped(BigSum(data)) == 0xddf2;
  }
}
