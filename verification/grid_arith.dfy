/**
 The integer arithmetic the grid uses to resolve its dimensions: the ceiling
 quotient `(a + (b - 1)) / b` and the smallest square that holds `n` cells.
 */
module GridArith {

  /** `q` is the least number of `b`-wide rows that hold `a` cells. */
  ghost predicate IsCeilQuotient(q: nat, a: nat, b: nat)
  {
    q * b >= a && (q == 0 || (q - 1) * b < a)
  }

  /** `r` is the least side of a square that holds `n` cells. */
  ghost predicate IsCeilSqrt(r: nat, n: nat)
  {
    r * r >= n && (r == 0 || (r - 1) * (r - 1) < n)
  }

  /** Ceiling division, written as the grid writes it. */
  function CeilDiv(a: nat, b: nat): (q: nat)
    requires b > 0
    ensures IsCeilQuotient(q, a, b)
  {
    var t := a + (b - 1);
    assert t == (t / b) * b + t % b;
    t / b
  }

  /** No smaller row count than the ceiling quotient holds the cells. */
  lemma CeilQuotientIsLeast(q: nat, a: nat, b: nat, k: nat)
    requires b > 0 && IsCeilQuotient(q, a, b)
    requires k * b >= a
    ensures q <= k
  {
  }

  /** The ceiling quotient is unique. */
  lemma CeilQuotientUnique(q: nat, q': nat, a: nat, b: nat)
    requires b > 0 && IsCeilQuotient(q, a, b) && IsCeilQuotient(q', a, b)
    ensures q == q'
  {
    CeilQuotientIsLeast(q, a, b, q');
    CeilQuotientIsLeast(q', a, b, q);
  }

  /** Integer square root rounded down: the exact value of `(int)Math.Sqrt(n)`
      for the counts a C# `int` can hold. */
  function FloorSqrt(n: nat): (r: nat)
    ensures r * r <= n < (r + 1) * (r + 1)
  {
    if n == 0 then 0
    else
      var s := FloorSqrt(n - 1);
      if (s + 1) * (s + 1) <= n then
        assert (s + 2) * (s + 2) == (s + 1) * (s + 1) + 2 * s + 3;
        s + 1
      else s
  }

  /** The side of the smallest square that holds `n` cells: the floor square
      root, bumped by one when its square falls short. */
  function CeilSqrt(n: nat): (r: nat)
    ensures IsCeilSqrt(r, n)
  {
    var r := FloorSqrt(n);
    if r * r < n then r + 1 else r
  }

  /** No smaller square holds the cells. */
  lemma CeilSqrtIsLeast(r: nat, n: nat, k: nat)
    requires IsCeilSqrt(r, n)
    requires k * k >= n
    ensures r <= k
  {
    if r > 0 {
      SquareMonotone(r - 1, k);
    }
  }

  /** A square of side `n` holds `n` cells, so the smallest side is at most `n`. */
  lemma CeilSqrtAtMost(n: nat)
    requires n >= 1
    ensures CeilSqrt(n) <= n
  {
    assert n * n >= n * 1;
    CeilSqrtIsLeast(CeilSqrt(n), n, n);
  }

  lemma SquareMonotone(a: nat, b: nat)
    ensures b <= a ==> b * b <= a * a
  {
    if b <= a {
      assert b * b <= b * a <= a * a;
    }
  }

  /** The smallest square is unique. */
  lemma CeilSqrtUnique(r: nat, r': nat, n: nat)
    requires IsCeilSqrt(r, n) && IsCeilSqrt(r', n)
    ensures r == r'
  {
    CeilSqrtIsLeast(r, n, r');
    CeilSqrtIsLeast(r', n, r);
  }
}
