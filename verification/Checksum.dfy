/** The two Internet checksums (sections 1 and 2(B) of RFC 1071): calculate_checksum of
    net/stack.c adds little-endian words in 32 bits and folds the carries at the end;
    net_checksum of drivers/net/rtl8139.c adds byte-swapped words and folds every carry
    at once. */
module Checksum {
  import opened Basics

  /** The words of a buffer as a little-endian machine reads them, added up; an odd last
      byte counts as the low half of a word. */
  function LittleSum(data: seq<Byte>): (r: nat)
    ensures r <= 65535 * ((|data| + 1) / 2)
  {
    if |data| == 0 then 0
    else if |data| == 1 then data[0] as int
    else data[0] as int + 256 * data[1] as int + LittleSum(data[2..])
  }

  /** The same words in network order; an odd last byte counts as the high half. */
  function BigSum(data: seq<Byte>): nat {
    if |data| == 0 then 0
    else if |data| == 1 then 256 * data[0] as int
    else 256 * data[0] as int + data[1] as int + BigSum(data[2..])
  }

  /** htons and ntohs of drivers/net/rtl8139.c. */
  function Swap(x: nat): (r: nat)
    requires x < 65536
    ensures r < 65536
  {
    x % 256 * 256 + x / 256
  }

  /** Carries added back until none is left. */
  function Fold(x: nat): (r: nat)
    ensures r < 65536 && (r == 0 <==> x == 0)
  {
    if x < 65536 then x else Fold(x % 65536 + x / 65536)
  }

  lemma AddWraps(a: nat, b: nat)
    ensures (a % TWO32 + b) % TWO32 == (a + b) % TWO32
  {
  }

  /** The adding loop of calculate_checksum, in 32-bit arithmetic. */
  method AddWords(data: seq<Byte>) returns (sum: nat)
    ensures sum == LittleSum(data) % TWO32
  {
    sum := 0;
    var i := 0;
    assert data[0..] == data;
    while |data| - i > 1
      invariant 0 <= i <= |data| && sum < TWO32
      invariant (sum + LittleSum(data[i..])) % TWO32 == LittleSum(data) % TWO32
    {
      assert data[i..][2..] == data[i + 2..];
      var word := data[i] as int + 256 * data[i + 1] as int;
      AddWraps(sum + word, LittleSum(data[i + 2..]));
      sum := (sum + word) % TWO32;
      i := i + 2;
    }
    if |data| - i > 0 {
      sum := (sum + data[i] as int) % TWO32;
    }
  }

  /** The value calculate_checksum returns. */
  function LateValue(data: seq<Byte>): int {
    65535 - Fold(LittleSum(data) % TWO32)
  }

  /** calculate_checksum. */
  method Late(data: seq<Byte>) returns (r: nat)
    ensures r == LateValue(data)
  {
    var sum := AddWords(data);
    while sum / 65536 != 0
      invariant Fold(sum) == Fold(LittleSum(data) % TWO32)
      decreases sum
    {
      sum := sum % 65536 + sum / 65536;
    }
    r := 65535 - sum;
  }

  /** The running value of the eager sum: the one in 1..65535 that differs from the sum by
      a multiple of 65535. */
  function Wrapped(sum: nat): (r: nat)
    ensures 1 <= r <= 65535
  {
    (sum + 65534) % 65535 + 1
  }

  lemma WrappedShift(x: nat)
    ensures Wrapped(x + 65535) == Wrapped(x)
  {
  }

  lemma SwapWord(low: Byte, high: Byte)
    ensures Swap(low as int + 256 * high as int) == 256 * low as int + high as int
  {
  }

  /** One addition with the carry folded at once. */
  method AddFolded(acc: nat, word: nat, ghost rest: nat) returns (r: nat)
    requires 1 <= acc <= 65535 && word < 65536
    ensures 1 <= r <= 65535 && Wrapped(r + rest) == Wrapped(acc + word + rest)
  {
    r := acc + word;
    if r > 0xffff {
      r := r - 0xffff;
      WrappedShift(r + rest);
    }
  }

  /** The value net_checksum returns. */
  function EagerValue(data: seq<Byte>): int {
    Swap(65535 - Wrapped(BigSum(data)))
  }

  /** net_checksum. */
  method Eager(data: seq<Byte>) returns (r: nat)
    ensures r == EagerValue(data)
  {
    hide Wrapped, Swap, BigSum;
    var acc, i := 0xffff, 0;
    assert data[0..] == data;
    WrappedShift(BigSum(data));
    while i + 1 < |data|
      invariant 0 <= i <= |data| && i % 2 == 0 && 1 <= acc <= 65535
      invariant Wrapped(acc + BigSum(data[i..])) == Wrapped(BigSum(data))
    {
      NextWord(data, i);
      acc := AddFolded(acc, Swap(data[i] as int + 256 * data[i + 1] as int), BigSum(data[i + 2..]));
      i := i + 2;
    }
    LastByte(data, i);
    if |data| % 2 == 1 {
      acc := AddFolded(acc, Swap(data[|data| - 1] as int), 0);
    }
    WrappedSmall(acc);
    r := Swap(65535 - acc);
  }

  lemma NextWord(data: seq<Byte>, i: nat)
    requires i + 1 < |data|
    ensures BigSum(data[i..]) == Swap(data[i] as int + 256 * data[i + 1] as int) + BigSum(data[i + 2..])
  {
    assert data[i..][2..] == data[i + 2..];
    SwapWord(data[i], data[i + 1]);
  }

  lemma LastByte(data: seq<Byte>, i: nat)
    requires |data| - 1 <= i <= |data|
    ensures BigSum(data[i..]) == if i < |data| then Swap(data[i] as int) else 0
  {
    if i < |data| {
      SwapWord(data[i], 0);
    }
  }

  lemma WrappedSmall(x: nat)
    requires 1 <= x <= 65535
    ensures Wrapped(x) == x
  {
  }

  // ---------------------------------------------------------------- agreement

  lemma {:induction false} FoldResidue(x: nat) returns (k: nat)
    ensures x == Fold(x) + 65535 * k
  {
    if x < 65536 {
      k := 0;
    } else {
      k := FoldResidue(x % 65536 + x / 65536);
      k := k + x / 65536;
    }
  }

  lemma WrappedResidue(x: nat) returns (k: int)
    ensures x == Wrapped(x) + 65535 * k
  {
    k := (x + 65534) / 65535 - 1;
  }

  lemma SwapResidue(x: nat)
    requires x < 65536
    ensures 256 * x == Swap(x) + 65535 * (x / 256)
    ensures Swap(65535 - x) == 65535 - Swap(x)
    ensures x > 0 ==> Swap(x) > 0
  {
  }

  /** Swapping all words multiplies the sum by 256, up to multiples of 65535. */
  lemma {:induction false} SumsRelated(data: seq<Byte>) returns (k: nat)
    ensures 256 * LittleSum(data) == BigSum(data) + 65535 * k
  {
    if |data| <= 1 {
      k := 0;
    } else {
      k := SumsRelated(data[2..]);
      k := k + data[1] as int;
    }
  }

  /** For every buffer the two agree exactly when the 32-bit sum is not zero and the number
      of carries lost out of it is a multiple of 65535. */
  lemma AgreeExactly(data: seq<Byte>)
    ensures LateValue(data) == EagerValue(data) <==>
              LittleSum(data) % TWO32 != 0 && LittleSum(data) / TWO32 % 65535 == 0
  {
    hide LittleSum, BigSum;
    var s := LittleSum(data);
    var w, lost := s % TWO32, s / TWO32;
    var acc := Wrapped(BigSum(data));
    var a := FoldResidue(w);
    var b := WrappedResidue(BigSum(data));
    var c := SumsRelated(data);
    SwapResidue(acc);
    Compare(s, w, lost, acc, Fold(w), a, BigSum(data), b, c);
  }

  lemma Compare(s: nat, w: nat, lost: nat, acc: nat, folded: nat, a: int, big: nat, b: int, c: int)
    requires s == lost * TWO32 + w && w == folded + 65535 * a && folded < 65536 && (folded == 0 <==> w == 0)
    requires 1 <= acc <= 65535 && big == acc + 65535 * b && 256 * s == big + 65535 * c
    requires 256 * acc == Swap(acc) + 65535 * (acc / 256) && Swap(acc) > 0
    ensures folded == Swap(acc) <==> w != 0 && lost % 65535 == 0
  {
    hide Swap;
    var m := Swap(acc);
    var e := a + lost * 65537 + s - 256 * c - 256 * b - acc / 256;
    assert m - folded - lost == 65535 * e;
    Multiples(m - folded, lost, e);
  }

  lemma Multiples(d: int, lost: nat, e: int)
    requires d - lost == 65535 * e
    ensures d == 0 ==> lost % 65535 == 0
    ensures lost % 65535 == 0 && -65535 < d < 65535 ==> d == 0
  {
  }

  /** Up to 131074 bytes no carry is lost out of 32 bits. */
  lemma ShortSum(data: seq<Byte>)
    requires |data| <= 131074
    ensures LittleSum(data) < TWO32
  {
    hide LittleSum;
  }

  ghost predicate AllZero(data: seq<Byte>) {
    forall i :: 0 <= i < |data| ==> data[i] == 0
  }

  lemma {:induction false} ZeroSum(data: seq<Byte>)
    ensures LittleSum(data) == 0 <==> AllZero(data)
    ensures AllZero(data) ==> BigSum(data) == 0
  {
    if |data| >= 2 {
      ZeroSum(data[2..]);
      assert AllZero(data) <==> data[0] == 0 && data[1] == 0 && AllZero(data[2..]) by {
        assert forall i :: 2 <= i < |data| ==> data[i] == data[2..][i - 2];
      }
    }
  }

  /** Up to 131074 bytes the two functions agree on every buffer, of odd length too, that is
      not all zero; on all-zero buffers they return the two zeros of ones' complement. */
  lemma ShortBuffersAgree(data: seq<Byte>)
    requires |data| <= 131074
    ensures LateValue(data) == EagerValue(data) <==> !AllZero(data)
    ensures AllZero(data) ==> LateValue(data) == 0xFFFF && EagerValue(data) == 0
  {
    ShortSum(data);
    ZeroSum(data);
    AgreeExactly(data);
  }

  /** For any length an int can hold, agreement is the same as a sum between 1 and 2^32 - 1. */
  lemma IntLengthsAgree(data: seq<Byte>)
    requires |data| < 0x8000_0000
    ensures LateValue(data) == EagerValue(data) <==> 1 <= LittleSum(data) < TWO32
  {
    hide LittleSum, LateValue, EagerValue;
    AgreeExactly(data);
    var lost := LittleSum(data) / TWO32;
    assert lost < 65535;
  }

  function Ones(n: nat): (r: seq<Byte>)
    ensures |r| == n
  {
    seq(n, _ => 255)
  }

  lemma {:induction false} OnesSum(n: nat)
    ensures LittleSum(Ones(2 * n)) == 65535 * n
  {
    if n > 0 {
      OnesSum(n - 1);
      assert Ones(2 * n)[2..] == Ones(2 * (n - 1));
    }
  }

  /** The bound is sharp: two bytes more, all of them 0xFF, and a carry is lost. */
  lemma LongBufferDisagrees()
    ensures LateValue(Ones(131076)) != EagerValue(Ones(131076))
  {
    hide LittleSum, LateValue, EagerValue, Ones;
    OnesSum(65538);
    AgreeExactly(Ones(131076));
  }
}
