/** Integer division written out without the solver's division operator:
    `Quotient(n, d)` is Python's `n // d` and `Remainder(n, d)` is `n % d`
    for a non-negative `n` and a positive `d`. */
module Arith {

  function Quotient(n: nat, d: nat): nat
    requires d > 0
    decreases n
  {
    if n < d then 0 else 1 + Quotient(n - d, d)
  }

  function Remainder(n: nat, d: nat): (r: nat)
    requires d > 0
    ensures r < d
    decreases n
  {
    if n < d then n else Remainder(n - d, d)
  }

  /** `n` is `Quotient(n, d)` whole multiples of `d` plus the remainder. */
  lemma {:induction false} QuotientBounds(n: nat, d: nat)
    requires d > 0
    ensures n == Quotient(n, d) * d + Remainder(n, d)
    ensures Quotient(n, d) * d <= n < Quotient(n, d) * d + d
    decreases n
  {
    if n >= d {
      QuotientBounds(n - d, d);
      assert Quotient(n, d) * d == Quotient(n - d, d) * d + d;
    }
  }

  lemma {:induction false} QuotientOfMultiple(k: nat, d: nat)
    requires d > 0
    ensures Quotient(k * d, d) == k && Remainder(k * d, d) == 0
  {
    if k > 0 {
      assert k * d - d == (k - 1) * d;
      QuotientOfMultiple(k - 1, d);
    }
  }

  lemma MulMono(a: int, b: int, c: int)
    requires a <= b && c >= 0
    ensures a * c <= b * c
  {
  }

  /** The whole part of the percentage `100 h / d` of a part `h` of `d`:
      at most 100, exactly 100 for the whole, and 0 for nothing. */
  lemma PercentQuotient(h: nat, d: nat)
    requires 0 < d && h <= d
    ensures Quotient(100 * h, d) <= 100
    ensures Quotient(100 * h, d) == 100 <==> h == d
    ensures h == 0 ==> Quotient(100 * h, d) == 0
  {
    var n := 100 * h;
    var p := Quotient(n, d);
    QuotientBounds(n, d);
    if p >= 101 {
      MulMono(101, p, d);
      assert false;
    }
    if h == d {
      QuotientOfMultiple(100, d);
    } else if p >= 100 {
      MulMono(100, p, d);
      assert false;
    }
  }

  /** Python `round(n / d)` on the exact quotient: to the nearest integer,
      and to the even one of the two nearest when `n / d` is halfway. */
  function RoundHalfEven(n: nat, d: nat): (r: nat)
    requires d > 0
  {
    var q := Quotient(n, d);
    var twice := 2 * Remainder(n, d);
    if twice < d then q
    else if twice > d then q + 1
    else if Remainder(q, 2) == 0 then q
    else q + 1
  }

  /** `RoundHalfEven(n, d)` is within half of `n / d`: `2 (r d - n)` lies in
      `[-d, d]`, and on a tie the result is even. */
  lemma RoundHalfEvenNearest(n: nat, d: nat)
    requires d > 0
    ensures var e: int := 2 * (RoundHalfEven(n, d) * d) - 2 * n;
            -(d as int) <= e <= d && (e == d || e == -(d as int) ==> Remainder(RoundHalfEven(n, d), 2) == 0)
  {
    var q := Quotient(n, d);
    QuotientBounds(n, d);
    var r := RoundHalfEven(n, d);
    assert (q + 1) * d == q * d + d;
    if 2 * Remainder(n, d) == d && Remainder(q, 2) != 0 {
      QuotientBounds(q, 2);
      var a := Quotient(q, 2);
      assert q + 1 == (a + 1) * 2;
      QuotientOfMultiple(a + 1, 2);
    }
  }

  /** The rounded percentage `round(100 h / d)` of a part `h` of `d`: in
      [0, 100], 100 for the whole, 0 for nothing, and positive exactly when
      the share exceeds one half of one per cent, `200 h > d`. */
  lemma RoundedPercent(h: nat, d: nat)
    requires 0 < d && h <= d
    ensures RoundHalfEven(100 * h, d) <= 100
    ensures h == d ==> RoundHalfEven(100 * h, d) == 100
    ensures h == 0 ==> RoundHalfEven(100 * h, d) == 0
    ensures RoundHalfEven(100 * h, d) > 0 <==> 200 * h > d
  {
    var n := 100 * h;
    var q := Quotient(n, d);
    var rem := Remainder(n, d);
    PercentQuotient(h, d);
    QuotientBounds(n, d);
    if h == d {
      QuotientOfMultiple(100, d);
      QuotientOfMultiple(50, 2);
    }
    if q == 0 {
      assert rem == n;
      assert Remainder(0, 2) == 0;
    } else {
      MulMono(1, q, d);
    }
  }
}
