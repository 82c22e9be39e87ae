/**
 * Exact fixed-point arithmetic for the report's ratio. Prices are whole cents;
 * a ratio is a whole number of hundredths. `Decimal.quantize(Decimal('0.01'))`
 * under the default context rounds half to even, which is what RoundHalfEven
 * does on the exact quotient.
 */
module Decimals {

  /** |a - b| */
  function Dist(a: int, b: int): nat {
    if a >= b then a - b else b - a
  }

  /**
   * q * d is a multiple of d nearest to n, and the even one when two are
   * equally near: q is n / d rounded half to even.
   */
  predicate NearestEven(n: nat, d: nat, q: nat) {
    && 2 * Dist(n, q * d) <= d
    && (2 * Dist(n, q * d) == d ==> q % 2 == 0)
  }

  /** n / d rounded to the nearest integer, ties to the even neighbour (ROUND_HALF_EVEN). */
  function RoundHalfEven(n: nat, d: nat): (q: nat)
    requires d > 0
    ensures NearestEven(n, d, q)
  {
    var f, r := n / d, n % d;
    if 2 * r < d || (2 * r == d && f % 2 == 0) then
      RoundDown(n, d);
      f
    else
      RoundUp(n, d);
      f + 1
  }

  /** Rounding down is right when the remainder is below half, or exactly half with an even quotient. */
  lemma RoundDown(n: nat, d: nat)
    requires d > 0
    requires 2 * (n % d) < d || (2 * (n % d) == d && (n / d) % 2 == 0)
    ensures NearestEven(n, d, n / d)
  {
    Candidates(n, d);
  }

  /** Rounding up is right when the remainder is above half, or exactly half with an odd quotient. */
  lemma RoundUp(n: nat, d: nat)
    requires d > 0
    requires !(2 * (n % d) < d || (2 * (n % d) == d && (n / d) % 2 == 0))
    ensures NearestEven(n, d, n / d + 1)
  {
    Candidates(n, d);
  }

  /** The two candidates for n / d rounded lie n % d below and d - n % d above n. */
  lemma Candidates(n: nat, d: nat)
    requires d > 0
    ensures 0 <= n % d < d
    ensures Dist(n, (n / d) * d) == n % d
    ensures Dist(n, (n / d + 1) * d) == d - n % d
  {
    DivModParts(n, d);
  }

  /** Euclidean division: n lies between the multiples (n / d) * d and (n / d + 1) * d. */
  lemma DivModParts(n: nat, d: nat)
    requires d > 0
    ensures 0 <= n % d < d
    ensures (n / d) * d == n - n % d
    ensures (n / d + 1) * d == n - n % d + d
  {
    MulSucc(n / d, d);
  }

  /** (f + 1) * d == f * d + d */
  lemma MulSucc(f: int, d: int)
    ensures (f + 1) * d == f * d + d
  {
  }

  /** Products by the same d > 0 keep at least 2 * d apart when the factors are 2 apart. */
  lemma {:induction false} MulGap(a: int, b: int, d: nat)
    requires a + 2 <= b
    ensures b * d >= a * d + 2 * d
    decreases b - a
  {
    if a + 2 < b {
      MulGap(a, b - 1, d);
      MulSucc(b - 1, d);
    } else {
      MulSucc(a, d);
      MulSucc(a + 1, d);
    }
  }

  /**
   * The two clauses of RoundHalfEven's contract pin its result down: any k
   * nearest to n / d, and even on a tie, is RoundHalfEven(n, d).
   */
  lemma RoundHalfEvenUnique(n: nat, d: nat, k: nat)
    requires d > 0
    requires NearestEven(n, d, k)
    ensures k == RoundHalfEven(n, d)
  {
    var q := RoundHalfEven(n, d);
    if k != q {
      NeighboursOnTie(n, d, k, q);
    }
  }

  /**
   * Two distinct candidates that are both within d / 2 of n are adjacent and
   * both exactly d / 2 away.
   */
  lemma NeighboursOnTie(n: nat, d: nat, k: nat, q: nat)
    requires d > 0 && k != q
    requires 2 * Dist(n, k * d) <= d && 2 * Dist(n, q * d) <= d
    ensures q == k + 1 || k == q + 1
    ensures 2 * Dist(n, k * d) == d && 2 * Dist(n, q * d) == d
  {
    var kd, qd := k * d, q * d;
    if k + 2 <= q {
      MulGap(k, q, d);
    } else if q + 2 <= k {
      MulGap(q, k, d);
    } else if k < q {
      MulSucc(k, d);
      assert qd == kd + d;
    } else {
      MulSucc(q, d);
      assert kd == qd + d;
    }
  }

  /** `(Decimal(brl) / Decimal(usd)).quantize(Decimal('0.01'))`, prices in cents, result in hundredths. */
  function Ratio(brlCents: nat, usdCents: nat): (hundredths: nat)
    requires usdCents > 0
    ensures NearestEven(100 * brlCents, usdCents, hundredths)
  {
    RoundHalfEven(100 * brlCents, usdCents)
  }

  /** 799.99 / 169.99 = 4.706... reports as 4.71; 55.00 / 10.00 as 5.50. */
  lemma RatioExamples()
    ensures Ratio(79999, 16999) == 471
    ensures Ratio(5500, 1000) == 550
  {
    RoundHalfEvenUnique(7999900, 16999, 471);
    RoundHalfEvenUnique(550000, 1000, 550);
  }
}
