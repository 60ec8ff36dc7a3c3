/** The 17 significant decimal digits of a number, and that they tell all numbers of 64 bits apart. */
module Seventeen {
  import opened Binary64

  /** Ten to the power 16, and 17. */
  const TEN16: nat := 10_000_000_000_000_000
  const TEN17: nat := 100_000_000_000_000_000

  /** Bounds that no exponent reaches. */
  const LOWEST: int := LEAST - 16
  const HIGHEST: int := 1024

  /** The least exponent from `k` on with which `y` takes at most 17 digits. */
  function TenScale(y: real, k: int): (r: int)
    requires k <= HIGHEST
    ensures k <= r <= HIGHEST
    ensures r < HIGHEST ==> y < Pow(10, r + 17)
    ensures k < r ==> Pow(10, r + 16) <= y
    decreases HIGHEST - k
  {
    if k == HIGHEST || y < Pow(10, k + 17) then k else TenScale(y, k + 1)
  }

  function TenQuotient(y: real, k: int): (q: real)
    requires y >= 0.0
    ensures q >= 0.0
  {
    PowPositive(10, k);
    y / Pow(10, k)
  }

  lemma TenQuotientOf(y: real, k: int)
    requires y >= 0.0
    ensures Times(TenQuotient(y, k), Pow(10, k)) == y && Pow(10, k) > 0.0
  {
    PowPositive(10, k);
  }

  /** The digits as a number, and the exponent of the last one. */
  function Digits17(y: real): (nat, int)
    requires y >= 0.0
  {
    var k := TenScale(y, LOWEST);
    HalfEvenRange(TenQuotient(y, k));
    var d := HalfEven(TenQuotient(y, k));
    if d == TEN17 then (TEN16, k + 1) else (d, k)
  }

  lemma {:induction false} TenIsMore(n: int)
    requires n >= 0
    ensures Pow(2, n) <= Pow(10, n) && Pow(10, -n) <= Pow(2, -n)
  {
    hide Pow;
    if n == 0 {
      PowZero(2);
      PowZero(10);
    } else {
      TenIsMore(n - 1);
      PowNext(2, n - 1);
      PowNext(10, n - 1);
      PowNext(2, -n);
      PowNext(10, -n);
      PowPositive(2, n - 1);
      PowPositive(10, -n);
      assert -n + 1 == -(n - 1);
    }
  }

  lemma TenBounds(k: int)
    ensures Pow(10, k + 16) == Times(TEN16 as real, Pow(10, k)) && Pow(10, k + 17) == Times(TEN17 as real, Pow(10, k))
    ensures Pow(10, k) > 0.0
  {
    PowAdd(10, k, 16);
    PowAdd(10, k, 17);
    PowValues();
    PowPositive(10, k);
    Commute(Pow(10, k), TEN16 as real);
    Commute(Pow(10, k), TEN17 as real);
  }

  /** Every number but zero is between the bounds. */
  lemma InBounds(x: Double)
    requires IsDouble(x) && x.Finite? && x.m > 0
    ensures Pow(10, LOWEST + 16) <= Magnitude(x) < Pow(10, HIGHEST)
  {
    hide Pow, Times;
    Bounds(x.e);
    PowOrder(2, LEAST, x.e);
    TimesTwice(1.0, Pow(2, x.e));
    TimesOrder(1.0, x.m as real, Pow(2, x.e));
    TimesOrder(x.m as real, WHOLE as real, Pow(2, x.e));
    PowOrder(2, x.e + 53, HIGHEST);
    TenIsMore(-LEAST);
    TenIsMore(HIGHEST);
  }

  /** The first digit is not zero, and the error at most half of the last place, which is small. */
  lemma DigitsAreClose(y: real) returns (p: real)
    requires Pow(10, LOWEST + 16) <= y < Pow(10, HIGHEST)
    ensures y >= 0.0 && p > 0.0 && Times(TEN16 as real, p) <= y
    ensures var (d, k) := Digits17(y);
            TEN16 <= d < TEN17 && Distance(y, Times(d as real, Pow(10, k))) <= 0.5 * p && p <= Pow(10, k)
  {
    hide Pow, TenScale, HalfEven, TenQuotient, Times;
    PowPositive(10, LOWEST + 16);
    var k := TenScale(y, LOWEST);
    PowOrder(10, HIGHEST, HIGHEST + 16);
    p := Pow(10, k);
    var q := TenQuotient(y, k);
    TenQuotientOf(y, k);
    TenBounds(k);
    PowNext(10, k);
    TimesTen(TEN16 as real, p);
    TimesOrder(q, TEN17 as real, p);
    TimesOrder(TEN16 as real, q, p);
    HalfEvenBetween(q, TEN16, TEN17);
    HalfEvenRange(q);
    TimesDistance(q, HalfEven(q) as real, p);
    TimesOrder(Distance(q, HalfEven(q) as real), 0.5, p);
    TimesHalf(p);
  }

  lemma TimesTen(a: real, u: real)
    ensures Times(10.0 * a, u) == Times(a, 10.0 * u)
  {
  }

  lemma TimesHalf(u: real)
    ensures Times(0.5, u) == 0.5 * u
  {
  }

  /** Ten to the 16 is more than two to the 53, so the last of 17 digits counts less than the last of 53 bits. */
  lemma LastPlace(m: nat, u: real, p: real)
    requires u > 0.0 && p > 0.0 && m < WHOLE && Times(TEN16 as real, p) <= Times(m as real, u)
    ensures p < u && (m <= HALF ==> 2.0 * p < u)
  {
    hide Times;
    TimesOrder(m as real, TEN16 as real, u);
    Inverse(TEN16 as real, p, u);
    TimesTwice(TEN16 as real, p);
    TimesTwice(m as real, u);
    if m <= HALF {
      TimesOrder(2.0 * m as real, TEN16 as real, u);
      Inverse(TEN16 as real, 2.0 * p, u);
    }
  }

  lemma Inverse(a: real, p: real, u: real)
    requires a > 0.0
    ensures Times(a, p) < Times(a, u) <==> p < u
  {
    Commute(a, p);
    Commute(a, u);
    TimesOrder(p, u, a);
  }

  /** Seventeen digits are enough: rounding them gives the number back. */
  lemma SeventeenDigits(x: Double)
    requires IsDouble(x) && x.Finite? && x.m > 0
    ensures Magnitude(x) >= 0.0
    ensures var (d, k) := Digits17(Magnitude(x));
            TEN16 <= d < TEN17 && Times(d as real, Pow(10, k)) >= 0.0 && Round(x.neg, Times(d as real, Pow(10, k))) == x
  {
    hide Pow, TenScale, Digits17, Round, Times, Magnitude;
    InBounds(x);
    var p := DigitsAreClose(Magnitude(x));
    var (d, k) := Digits17(Magnitude(x));
    PowPositive(2, x.e);
    PowPositive(10, k);
    TimesOrder(0.0, d as real, Pow(10, k));
    TimesTwice(0.0, Pow(10, k));
    MagnitudeOf(x);
    LastPlace(x.m, Pow(2, x.e), p);
    RoundsBack(x, Times(d as real, Pow(10, k)));
  }

  lemma MagnitudeOf(x: Double)
    requires x.Finite?
    ensures Magnitude(x) == Times(x.m as real, Pow(2, x.e))
  {
  }
}
