/** Bounds and saturating subtraction; division and multiples, one small fact at a time. */
module Arith {
  function Min(a: nat, b: nat): nat { if a < b then a else b }
  function Max(a: nat, b: nat): nat { if a < b then b else a }

  /** `saturating_sub`. */
  function Minus(a: nat, b: nat): nat { if a < b then 0 else a - b }

  lemma DivBounds(x: nat, d: nat)
    requires d > 0
    ensures x / d * d <= x < (x / d + 1) * d
  {
    assert x == x / d * d + x % d;
    assert (x / d + 1) * d == x / d * d + d;
  }

  lemma DivUnique(x: nat, d: nat, q: nat)
    requires d > 0 && q * d <= x < (q + 1) * d
    ensures x / d == q
  {
    DivBounds(x, d);
    var p := x / d;
    if p < q {
      MulMono(p + 1, q, d);
    } else if q < p {
      MulMono(q + 1, p, d);
    }
  }

  lemma MulMono(a: int, b: int, d: nat)
    requires a <= b
    ensures a * d <= b * d
  {
    assert (b - a) * d >= 0;
    assert (b - a) * d == b * d - a * d;
  }

  lemma Distrib(a: int, b: int, d: nat)
    ensures (a + b) * d == a * d + b * d
  {
  }

  lemma DivShift(first: nat, j: nat, d: nat)
    requires d > 0
    ensures (first * d + j) / d == first + j / d
  {
    DivBounds(j, d);
    var q := j / d;
    Distrib(first, q, d);
    Distrib(first, q + 1, d);
    DivUnique(first * d + j, d, first + q);
  }

  lemma Aligned(offset: nat, ss: nat)
    requires ss > 0 && offset % ss == 0
    ensures offset == offset / ss * ss
  {
  }

  lemma MultipleOf(k: nat, d: nat)
    requires d > 0
    ensures k * d % d == 0
  {
    DivUnique(k * d, d, k);
  }

  lemma AlignedSum(a: nat, b: nat, ss: nat)
    requires ss > 0 && a % ss == 0 && b % ss == 0
    ensures (a + b) % ss == 0 && (a + b) / ss == a / ss + b / ss
  {
    Aligned(a, ss);
    Aligned(b, ss);
    DivShift(a / ss, b, ss);
    Distrib(a / ss, b / ss, ss);
  }

  lemma MinusAligned(a: nat, b: nat, ss: nat)
    requires ss > 0 && b * ss <= a * ss
    ensures b <= a && (a * ss - b * ss) / ss == a - b && a * ss - b * ss == (a - b) * ss
  {
    if a < b {
      MulMono(a + 1, b, ss);
      Distrib(a, 1, ss);
    }
    Distrib(a - b, b, ss);
    DivUnique((a - b) * ss, ss, a - b);
  }

  lemma AlignedDiff(a: nat, b: nat, ss: nat)
    requires ss > 0 && b <= a && a % ss == 0 && b % ss == 0
    ensures (a - b) % ss == 0
  {
    Aligned(a, ss);
    Aligned(b, ss);
    MinusAligned(a / ss, b / ss, ss);
    MultipleOf(a / ss - b / ss, ss);
  }

  lemma MultipleAligned(k: nat, a: nat, ss: nat)
    requires ss > 0 && a % ss == 0
    ensures k * a % ss == 0
  {
    Aligned(a, ss);
    assert k * a == k * (a / ss) * ss;
    MultipleOf(k * (a / ss), ss);
  }

  lemma Quotient(x: nat, d: nat, q: nat)
    requires d > 0 && q * d <= x < q * d + d
    ensures x / d == q && x % d == x - q * d
  {
    Distrib(q, 1, d);
    DivUnique(x, d, q);
  }

  lemma DivBelow(x: nat, n: nat, d: nat)
    requires d > 0 && x < n * d
    ensures x / d < n
  {
    DivBounds(x, d);
    if n <= x / d {
      MulMono(n, x / d, d);
    }
  }

  lemma Split(x: nat, d: nat) returns (k: nat, j: nat)
    requires d > 0
    ensures x == k * d + j && j < d && k == x / d && j == x % d
  {
    k, j := x / d, x % d;
  }

  lemma DivMono(a: nat, b: nat, d: nat)
    requires d > 0 && a <= b
    ensures a / d <= b / d
  {
    DivBounds(a, d);
    DivBounds(b, d);
    if b / d < a / d {
      MulMono(b / d + 1, a / d, d);
    }
  }

  lemma MultipleDiv(k: nat, d: nat)
    requires d > 0
    ensures k * d / d == k
  {
    DivUnique(k * d, d, k);
  }

  /** Between a multiple and a number with the same quotient. */
  lemma SameQuotient(x: nat, end: nat, d: nat)
    requires d > 0 && end / d * d <= x <= end
    ensures x / d == end / d
  {
    DivMono(x, end, d);
    DivMono(end / d * d, x, d);
    MultipleDiv(end / d, d);
  }
}
