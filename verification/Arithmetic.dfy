/** Integer and real arithmetic the solver does not find by itself. */
module Arithmetic {

  function Max(a: int, b: int): int {
    if a < b then b else a
  }

  function Min(a: int, b: int): int {
    if a < b then a else b
  }

  // The integers lo, ..., hi - 1.
  function Interval(lo: nat, hi: nat): (r: set<nat>)
    ensures forall k: nat :: k in r <==> lo <= k < hi
    decreases hi
  {
    if hi <= lo then {} else Interval(lo, hi - 1) + {hi - 1}
  }

  lemma {:induction false} IntervalSize(lo: nat, hi: nat)
    ensures |Interval(lo, hi)| == Max(0, hi - lo)
    decreases hi
  {
    if hi > lo {
      IntervalSize(lo, hi - 1);
    }
  }

  lemma MulAssoc(a: int, b: int, c: int)
    ensures a * (b * c) == (a * b) * c
  {
  }

  lemma DivModUnique(n: int, d: int, q: int, r: int)
    requires d > 0 && n == q * d + r && 0 <= r < d
    ensures n / d == q && n % d == r
  {
    var k := n / d - q;
    assert k * d == r - n % d by {
      assert n == n / d * d + n % d;
      assert k * d == n / d * d - q * d;
    }
    NonZeroMultiple(k, d);
  }

  lemma NonZeroMultiple(k: int, d: int)
    requires d > 0
    ensures k > 0 ==> k * d >= d
    ensures k < 0 ==> k * d <= -d
  {
  }

  lemma MultipleAtMost(a: nat, b: nat, unit: nat)
    ensures a <= b ==> a * unit <= b * unit
  {
  }

  lemma QuotientBounds(n: nat, d: nat)
    requires d > 0
    ensures n / d * d <= n < n / d * d + d
    ensures 0 <= n / d <= n
  {
    assert n == n / d * d + n % d;
    AtMostMultiple(n / d, d);
  }

  lemma AtMostMultiple(q: nat, d: nat)
    requires d > 0
    ensures q <= q * d
  {
  }

  lemma QuotientAntitone(n: nat, low: nat, high: nat)
    requires 0 < low <= high
    ensures n / high <= n / low
  {
    var b := n / high;
    QuotientBounds(n, high);
    MultipleAtMost(low, high, b);
    QuotientAtLeast(n, low, b);
  }

  lemma QuotientAtLeast(n: nat, d: nat, k: nat)
    requires d > 0 && k * d <= n
    ensures k <= n / d
  {
    var q := n / d;
    QuotientBounds(n, d);
    assert (q + 1) * d == q * d + d;
    CancelFactor(k, q + 1, d);
  }

  lemma CancelFactor(p: int, q: int, m: nat)
    requires p * m < q * m
    ensures p < q
  {
  }

  lemma ProductOfCasts(a: nat, b: nat)
    ensures a as real * b as real == (a * b) as real
  {
  }

  lemma RealRatioBounds(c: real, n: real, x: real)
    requires x > 0.0 && n > 0.0 && c * x < n <= c * x + x
    ensures 1.0 / x - 1.0 / n <= c / n < 1.0 / x
  {
    FractionLess(c, n, 1.0, x);
    assert (c + 1.0) * x == c * x + x;
    FractionLessEq(1.0, x, c + 1.0, n);
    assert (c + 1.0) / n == c / n + 1.0 / n;
  }

  lemma FractionLess(a: real, b: real, c: real, d: real)
    requires b > 0.0 && d > 0.0 && a * d < c * b
    ensures a / b < c / d
  {
    var p, q := a / b, c / d;
    assert p * b == a && q * d == c;
    assert p * (b * d) < q * (b * d) by {
      assert p * (b * d) == p * b * d;
      assert q * (b * d) == q * d * b;
    }
    CancelLess(p, q, b * d);
  }

  lemma CancelLess(p: real, q: real, m: real)
    requires m > 0.0 && p * m < q * m
    ensures p < q
  {
  }

  lemma FractionLessEq(a: real, b: real, c: real, d: real)
    requires b > 0.0 && d > 0.0 && a * d <= c * b
    ensures a / b <= c / d
  {
    if a * d < c * b {
      FractionLess(a, b, c, d);
    } else {
      var p, q := a / b, c / d;
      assert p * b == a && q * d == c;
      assert p * (b * d) == p * b * d;
      assert q * (b * d) == q * d * b;
    }
  }
}
