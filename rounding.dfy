/** Exact round-half-up division: the value of `Math.round(a / b)` for the
    non-negative counts the adherence rates divide. */
module Rounding {

  /** `r` is the integer nearest to `a / b`, halves rounded up. */
  predicate Nearest(r: nat, a: nat, b: nat) {
    2 * b * r <= 2 * a + b < 2 * b * (r + 1)
  }

  /** The integer nearest to `a / b`, halves rounded up. */
  function RoundDiv(a: nat, b: nat): (r: nat)
    requires b > 0
    ensures Nearest(r, a, b)
  {
    (2 * a + b) / (2 * b)
  }

  /** `Math.round(taken / total * 100)`: the percentage of `taken` in
      `total`, rounded to the nearest integer. */
  function Percent(taken: nat, total: nat): (r: nat)
    requires total > 0
    ensures Nearest(r, 100 * taken, total)
    ensures taken <= total ==> r <= 100
    ensures taken == total ==> r == 100
    ensures taken == 0 ==> r == 0
    ensures r == 0 <==> 200 * taken < total
    ensures taken <= total ==> (r == 100 <==> 200 * taken >= 199 * total)
  {
    var r := RoundDiv(100 * taken, total);
    PercentFacts(taken, total, r);
    r
  }

  lemma PercentFacts(taken: nat, total: nat, r: nat)
    requires total > 0
    requires 2 * total * r <= 200 * taken + total < 2 * total * (r + 1)
    ensures taken <= total ==> r <= 100
    ensures taken == total ==> r == 100
    ensures taken == 0 ==> r == 0
    ensures r == 0 <==> 200 * taken < total
    ensures taken <= total ==> (r == 100 <==> 200 * taken >= 199 * total)
  {
    if r >= 1 {
      MulMono(2 * total, 1, r);
    }
    if r >= 101 {
      MulMono(2 * total, 101, r);
    }
    if r <= 99 {
      MulMono(2 * total, r + 1, 100);
    }
  }

  /** The bracket of `RoundDiv` admits one integer only, so it fixes the
      rounded value. */
  lemma RoundDivUnique(a: nat, b: nat, r: nat, s: nat)
    requires b > 0
    requires Nearest(r, a, b) && Nearest(s, a, b)
    ensures r == s
  {
    if r < s {
      MulMono(2 * b, r + 1, s);
    }
    if s < r {
      MulMono(2 * b, s + 1, r);
    }
  }

  lemma MulMono(c: nat, x: nat, y: nat)
    requires x <= y
    ensures c * x <= c * y
  {
  }

  /** The rounded mean of `count` values, each at most `bound`, adding up
      to `sum`, is at most `bound`, and equals it when every value does. */
  lemma RoundMeanFacts(sum: nat, count: nat, bound: nat, r: nat)
    requires count > 0
    requires sum <= bound * count
    requires Nearest(r, sum, count)
    ensures r <= bound
    ensures sum == bound * count ==> r == bound
  {
    if r > bound {
      MulMono(2 * count, bound + 1, r);
    }
    if sum == bound * count && r < bound {
      MulMono(2 * count, r + 1, bound);
    }
  }
}
