/** What several components share. */
module Basics {
  const PAGE_SIZE := 4096
  const TWO32 := 0x1_0000_0000

  newtype Byte = x: int | 0 <= x < 256

  datatype Option<+T> = None | Some(value: T)

  ghost predicate Distinct<T>(s: seq<T>) {
    forall i, j :: 0 <= i < j < |s| ==> s[i] != s[j]
  }

  /** What is left of the numbers in use when some are given back. */
  function Drop(live: seq<nat>, gone: set<nat>): (r: seq<nat>)
    ensures forall x :: x in r <==> x in live && x !in gone
    ensures Distinct(live) ==> Distinct(r)
  {
    if live == [] then []
    else
      var rest := Drop(live[1..], gone);
      assert live == [live[0]] + live[1..];
      if live[0] in gone then rest else [live[0]] + rest
  }

  lemma Associate<T>(a: seq<T>, b: seq<T>, c: seq<T>)
    ensures a + (b + c) == a + b + c
  {
  }

  /** The first `n` numbers. */
  lemma {:induction false} Below(n: nat) returns (r: set<nat>)
    ensures (forall i :: i in r <==> 0 <= i < n) && |r| == n
  {
    if n == 0 {
      r := {};
    } else {
      r := Below(n - 1);
      r := r + {n - 1};
    }
  }

  lemma SubsetSize(a: set<nat>, b: set<nat>)
    requires a <= b
    ensures |a| <= |b|
  {
    assert b == a + (b - a);
  }
}
