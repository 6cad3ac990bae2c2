/**
 Types and functions shared by all parts.
 */
module Wrappers {

  datatype Option<+T> = None | Some(value: T)

  function Reversed<T>(s: seq<T>): (r: seq<T>)
    ensures |r| == |s| && forall i :: 0 <= i < |s| ==> r[i] == s[|s| - 1 - i]
  {
    if s == [] then [] else [s[|s| - 1]] + Reversed(s[..|s| - 1])
  }

  /** A slice of a block is a slice of what the block stands in. */
  lemma SliceInside<T>(a: seq<T>, at: nat, block: seq<T>, o: nat, n: nat)
    requires at + |block| <= |a| && a[at..at + |block|] == block && o + n <= |block|
    ensures a[at + o..at + o + n] == block[o..o + n]
  {
    forall i | at + o <= i < at + o + n ensures a[i] == block[i - at] {
      assert a[i] == a[at..at + |block|][i - at];
    }
  }

  /** Adjacent slices join. */
  lemma Joined<T>(a: seq<T>, i: nat, j: nat, k: nat)
    requires i <= j <= k <= |a|
    ensures a[i..j] + a[j..k] == a[i..k]
  {
  }

  /** Quotient and remainder are unique. */
  lemma QuotientIs(n: nat, d: nat, q: nat, r: nat)
    requires r < d && n == d * q + r
    ensures n / d == q
  {
    Remainder(n, d);
    if n / d < q {
      Apart(d, n / d, q);
    } else if n / d > q {
      Apart(d, q, n / d);
    }
  }

  lemma RemainderIs(n: nat, d: nat, q: nat, r: nat)
    requires r < d && n == d * q + r
    ensures n % d == r
  {
    QuotientIs(n, d, q, r);
    assert n == d * (n / d) + n % d;
  }

  lemma Remainder(n: nat, d: nat)
    requires d > 0
    ensures d * (n / d) <= n < d * (n / d) + d
  {
  }

  lemma Apart(d: nat, x: nat, y: nat)
    requires x < y
    ensures d * x + d <= d * y
  {
    var z := y - x - 1;
    assert d * (x + 1 + z) == d * x + d + d * z && d * z >= 0;
  }

  lemma EvenPart(x: nat, y: nat)
    ensures (2 * x + y) % 2 == y % 2
  {
  }
}
