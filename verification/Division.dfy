/** The shift-and-subtract division of 64-bit unsigned integers. */
module Division {
  const WORD := 64
  const TWO64 := 0x1_0000_0000_0000_0000

  type Word = w: int | 0 <= w < TWO64

  /** `n >> k`. */
  function Shr(n: nat, k: nat): nat {
    if k == 0 then n else Shr(n, k - 1) / 2
  }

  /** `m << k` before any bits are lost. */
  function Shl(m: nat, k: nat): nat {
    if k == 0 then m else 2 * Shl(m, k - 1)
  }

  function Bit(n: nat, i: nat): (b: nat)
    ensures b < 2
  {
    Shr(n, i) % 2
  }

  /** `x | (1 << i)`. */
  function WithBit(x: nat, i: nat): nat {
    if Bit(x, i) == 1 then x else x + Shl(1, i)
  }

  /** `(x << 1) | b` on 64 bits, which loses the top bit of `x`. */
  function ShiftIn(x: nat, b: nat): nat
    requires b < 2
  {
    2 * x % TWO64 + b
  }

  /** What is known when bits `k` and above of `n` are done: `m` and `r` are quotient and
      remainder of these bits, and `q` is `m` moved to its place. Division by zero collects
      ones in `m` and all of the bits in `r`. */
  ghost predicate Done(n: nat, d: nat, k: nat, m: nat, q: nat, r: nat) {
    && k <= WORD && q == Shl(m, k)
    && (d != 0 ==> Shr(n, k) == m * d + r && r < d)
    && (d == 0 ==> m == Shl(1, WORD - k) - 1 && r == Shr(n, k))
  }

  // ---------------------------------------------------------------- shifts

  lemma {:induction false} ShlAdds(a: nat, b: nat, k: nat)
    ensures Shl(a + b, k) == Shl(a, k) + Shl(b, k)
  {
    if k > 0 {
      ShlAdds(a, b, k - 1);
    }
  }

  lemma {:induction false} ShrShl(m: nat, k: nat)
    ensures Shr(Shl(m, k), k) == m
    decreases k
  {
    if k > 0 {
      ShlAdds(m, m, k - 1);
      ShrShl(2 * m, k - 1);
    }
  }

  /** Moving left once more doubles. */
  lemma ShlNext(m: nat, k: nat)
    ensures Shl(m, k + 1) == Shl(2 * m, k)
    ensures Shl(2 * m + 1, k) == Shl(m, k + 1) + Shl(1, k)
    ensures Bit(Shl(m, k + 1), k) == 0
  {
    ShlAdds(m, m, k);
    ShlAdds(2 * m, 1, k);
    ShrShl(2 * m, k);
  }

  lemma {:induction false} ShrSmaller(n: nat, k: nat)
    ensures Shr(n, k + 1) <= n / 2
  {
    if k > 0 {
      ShrSmaller(n, k - 1);
    }
  }

  lemma {:induction false} ShrOut(n: nat, k: nat)
    requires n < Shl(1, k)
    ensures Shr(n, k) == 0
    decreases k
  {
    if k > 0 {
      ShrHalf(n, k - 1);
      ShrOut(n / 2, k - 1);
    }
  }

  lemma {:induction false} ShrHalf(n: nat, k: nat)
    ensures Shr(n, k + 1) == Shr(n / 2, k)
  {
    if k > 0 {
      ShrHalf(n, k - 1);
    }
  }

  lemma {:induction false} ShlTwice(a: nat, b: nat)
    ensures Shl(1, a + b) == Shl(Shl(1, a), b)
  {
    if b > 0 {
      ShlTwice(a, b - 1);
    }
  }

  lemma WordSize()
    ensures Shl(1, WORD) == TWO64
  {
    assert Shl(1, 8) == 0x100;
    ShlTwice(8, 8);
    assert Shl(0x100, 8) == 0x1_0000;
    ShlTwice(16, 8);
    assert Shl(0x1_0000, 8) == 0x100_0000;
    ShlTwice(24, 8);
    assert Shl(0x100_0000, 8) == 0x1_0000_0000;
    ShlTwice(32, 8);
    assert Shl(0x1_0000_0000, 8) == 0x100_0000_0000;
    ShlTwice(40, 8);
    assert Shl(0x100_0000_0000, 8) == 0x1_0000_0000_0000;
    ShlTwice(48, 8);
    assert Shl(0x1_0000_0000_0000, 8) == 0x100_0000_0000_0000;
    ShlTwice(56, 8);
    assert Shl(0x100_0000_0000_0000, 8) == TWO64;
  }

  // ---------------------------------------------------------------- quotients

  lemma Doubled(m: nat, d: nat)
    ensures 2 * m * d == 2 * (m * d) && (2 * m + 1) * d == 2 * (m * d) + d
  {
  }

  lemma {:induction false} Multiples(a: nat, b: nat, d: nat)
    requires a < b
    ensures a * d + d <= b * d
    decreases b
  {
    Next(b - 1, d);
    if a < b - 1 {
      Multiples(a, b - 1, d);
    }
  }

  lemma Next(b: nat, d: nat)
    ensures b * d + d == (b + 1) * d
  {
  }

  lemma Unique(d: nat, q: nat, r: nat, q': nat, r': nat)
    requires q * d + r == q' * d + r' && r < d && r' < d
    ensures q == q' && r == r'
  {
    if q < q' {
      Multiples(q, q', d);
    } else if q' < q {
      Multiples(q', q, d);
    }
  }

  lemma DivMod(x: nat, d: nat)
    requires d > 0
    ensures x == x / d * d + x % d
  {
  }

  lemma IsQuotient(x: nat, d: nat, q: nat, r: nat)
    requires x == q * d + r && r < d
    ensures q == x / d && r == x % d && q <= x
  {
    DivMod(x, d);
    Unique(d, q, r, x / d, x % d);
    Multiples(0, d, q);
  }

  // ---------------------------------------------------------------- the loop

  /** The remainder before a shift is below 2^63, whatever the divisor: the shift never
      loses a bit. */
  lemma RoomToShift(n: Word, d: nat, i: nat, m: nat, q: nat, r: nat)
    requires Done(n, d, i + 1, m, q, r)
    ensures r < TWO64 / 2
  {
    ShrSmaller(n, i);
    if d != 0 {
      Product(m, d);
    }
  }

  lemma Product(m: nat, d: nat)
    ensures m * d >= 0
  {
  }

  /** One turn of the loop finds one more bit of the quotient. */
  lemma Turn(n: Word, d: nat, i: nat, m: nat, q: nat, r: nat)
    requires Done(n, d, i + 1, m, q, r)
    ensures Bit(q, i) == 0
    ensures 2 * r + Bit(n, i) >= d ==>
      Done(n, d, i, 2 * m + 1, q + Shl(1, i), 2 * r + Bit(n, i) - d)
    ensures 2 * r + Bit(n, i) < d ==>
      Done(n, d, i, 2 * m, q, 2 * r + Bit(n, i))
  {
    ShlNext(m, i);
    Doubled(m, d);
    assert Shr(n, i) == 2 * Shr(n, i + 1) + Bit(n, i);
  }

  lemma Start(n: Word, d: nat)
    ensures Done(n, d, WORD, 0, 0, 0)
  {
    WordSize();
    ShrOut(n, WORD);
    ShrShl(0, WORD);
    ZeroShl(WORD);
  }

  lemma {:induction false} ZeroShl(k: nat)
    ensures Shl(0, k) == 0
  {
    if k > 0 {
      ZeroShl(k - 1);
    }
  }

  lemma Finish(n: Word, d: nat, m: nat, q: nat, r: nat)
    requires Done(n, d, 0, m, q, r)
    ensures d != 0 ==> q == n / d <= n && r == n % d <= n
    ensures d == 0 ==> q == TWO64 - 1 && r == n
  {
    WordSize();
    if d != 0 {
      IsQuotient(n, d, q, r);
      Product(q, d);
    }
  }

  /** The loop of both functions; `m` is the quotient of the bits done so far. */
  method Loop(n: Word, d: Word) returns (q: nat, r: nat, ghost m: nat)
    ensures Done(n, d, 0, m, q, r)
  {
    hide Done, Shl, Shr, Bit;
    var i: int := WORD - 1;
    q, r, m := 0, 0, 0;
    Start(n, d);
    while i >= 0
      invariant -1 <= i < WORD && Done(n, d, i + 1, m, q, r)
    {
      RoomToShift(n, d, i, m, q, r);
      Turn(n, d, i, m, q, r);
      r := ShiftIn(r, Bit(n, i));
      m := 2 * m;
      if r >= d {
        r := r - d;
        q := WithBit(q, i);
        m := m + 1;
      }
      i := i - 1;
    }
  }

  /** __udivmoddi4, whose quotient is what __udivdi3 returns. */
  method UdivMod(n: Word, d: Word) returns (q: Word, r: Word)
    ensures d != 0 ==> q == n / d && r == n % d
    ensures d == 0 ==> q == TWO64 - 1 && r == n
  {
    hide Done;
    ghost var m: nat;
    var quotient, remainder;
    quotient, remainder, m := Loop(n, d);
    Finish(n, d, m, quotient, remainder);
    q, r := quotient, remainder;
  }
}
