/** Floating-point numbers of 64 bits, and the rounding of a real number to the nearest of them. */
module Binary64 {

  /** A finite number is `m` times two to the power `e`, or the negative of that. */
  datatype Double = Finite(neg: bool, m: nat, e: int) | Infinite(neg: bool) | NotANumber(neg: bool)

  /** Two to the power 52, and 53. */
  const HALF: nat := 0x10_0000_0000_0000
  const WHOLE: nat := 0x20_0000_0000_0000

  const LEAST: int := -1074
  const GREATEST: int := 971

  /** The form that a number is stored in: with 53 bits, unless it is too small for that. */
  predicate IsDouble(x: Double) {
    x.Finite? ==> x.m < WHOLE && LEAST <= x.e <= GREATEST && (x.m >= HALF || x.e == LEAST)
  }

  type Number = x: Double | IsDouble(x) witness Finite(false, 0, LEAST)

  // ---- powers ----

  function Pow(b: nat, n: int): real
    requires b > 0
    decreases if n < 0 then -n else n
  {
    if n == 0 then 1.0 else if n > 0 then b as real * Pow(b, n - 1) else Pow(b, n + 1) / b as real
  }

  lemma PowNext(b: nat, n: int)
    requires b > 0
    ensures Pow(b, n + 1) == b as real * Pow(b, n)
  {
  }

  lemma {:induction false} PowPositive(b: nat, n: int)
    requires b > 0
    ensures Pow(b, n) > 0.0
    decreases if n < 0 then -n else n
  {
    if n > 0 {
      PowPositive(b, n - 1);
    } else if n < 0 {
      PowPositive(b, n + 1);
    }
  }

  lemma PowZero(b: nat)
    requires b > 0
    ensures Pow(b, 0) == 1.0
  {
  }

  lemma {:induction false} PowAdd(b: nat, i: int, j: int)
    requires b > 0
    ensures Pow(b, i + j) == Pow(b, i) * Pow(b, j)
    decreases if j < 0 then -j else j
  {
    hide Pow;
    if j == 0 {
      PowZero(b);
    } else if j > 0 {
      PowAdd(b, i, j - 1);
      PowNext(b, i + j - 1);
      PowNext(b, j - 1);
      Swap(b as real, Pow(b, i), Pow(b, j - 1));
    } else {
      PowAdd(b, i, j + 1);
      PowNext(b, i + j);
      PowNext(b, j);
      Swap(b as real, Pow(b, i), Pow(b, j));
      Cancel(b as real, Pow(b, i + j), Pow(b, i) * Pow(b, j));
    }
  }

  lemma Swap(a: real, x: real, y: real)
    ensures a * (x * y) == x * (a * y)
  {
  }

  lemma Cancel(a: real, x: real, y: real)
    requires a > 0.0 && a * x == a * y
    ensures x == y
  {
  }

  lemma PowValues()
    ensures Pow(2, 52) == HALF as real && Pow(2, 53) == WHOLE as real
    ensures Pow(10, 15) == 1_000_000_000_000_000.0
    ensures Pow(10, 16) == 10_000_000_000_000_000.0 && Pow(10, 17) == 100_000_000_000_000_000.0
  {
    assert Pow(2, 10) == 1024.0 && Pow(2, 20) == 1048576.0 && Pow(2, 30) == 1073741824.0;
    assert Pow(2, 40) == 1099511627776.0 && Pow(2, 50) == 1125899906842624.0;
    assert Pow(10, 5) == 100000.0 && Pow(10, 10) == 10000000000.0;
  }

  // ---- products ----

  /** A product, whose laws are the lemmas below. */
  function Times(a: real, u: real): real {
    a * u
  }

  lemma TimesOrder(a: real, b: real, u: real)
    requires u > 0.0
    ensures a < b <==> Times(a, u) < Times(b, u)
    ensures a <= b <==> Times(a, u) <= Times(b, u)
  {
    if a < b {
      LessTimes(a, b, u);
    } else {
      AtMostTimes(b, a, u);
    }
    if b < a {
      LessTimes(b, a, u);
    }
  }

  lemma LessTimes(a: real, b: real, u: real)
    requires a < b && u > 0.0
    ensures a * u < b * u
  {
  }

  lemma AtMostTimes(a: real, b: real, u: real)
    requires a <= b && u > 0.0
    ensures a * u <= b * u
  {
  }

  lemma TimesMore(a: real, d: real, u: real)
    ensures Times(a + d, u) == Times(a, u) + d * u && Times(a - d, u) == Times(a, u) - d * u
  {
  }

  lemma TimesTwice(a: real, u: real)
    ensures Times(2.0 * a, u) == Times(a, 2.0 * u) == 2.0 * Times(a, u)
    ensures Times(0.0, u) == 0.0 && Times(1.0, u) == u
  {
  }

  function Distance(a: real, b: real): real {
    if a < b then b - a else a - b
  }

  lemma TimesDistance(a: real, b: real, u: real)
    requires u > 0.0
    ensures Distance(Times(a, u), Times(b, u)) == Times(Distance(a, b), u)
  {
    TimesOrder(a, b, u);
    Distributes(a, b, u);
    Distributes(b, a, u);
  }

  lemma Distributes(a: real, b: real, u: real)
    ensures Times(a, u) - Times(b, u) == Times(a - b, u)
  {
  }

  // ---- rounding ----

  /** The nearest integer; the even one of two. */
  function HalfEven(z: real): int {
    var f := z.Floor;
    var d := z - f as real;
    if d < 0.5 then f else if d > 0.5 then f + 1 else if f % 2 == 0 then f else f + 1
  }

  lemma NearestInteger(z: real, n: int)
    requires n as real - 0.5 < z < n as real + 0.5
    ensures HalfEven(z) == n
  {
  }

  lemma HalfEvenRange(z: real)
    ensures z - 0.5 <= HalfEven(z) as real <= z + 0.5
    ensures z >= 0.0 ==> HalfEven(z) >= 0
  {
  }

  /** The least exponent from `e` on with which `y` takes at most 53 bits, or the first one that is too large. */
  function Scale(y: real, e: int): (r: int)
    requires LEAST <= e <= GREATEST + 1
    ensures e <= r <= GREATEST + 1
    ensures r <= GREATEST ==> y < Pow(2, r + 53)
    ensures e < r ==> Pow(2, r + 52) <= y
    decreases GREATEST - e
  {
    if e > GREATEST || y < Pow(2, e + 53) then e else Scale(y, e + 1)
  }

  /** `y`, or its negative, rounded. */
  function Round(neg: bool, y: real): Double
    requires y >= 0.0
  {
    var e := Scale(y, LEAST);
    if e > GREATEST then Infinite(neg)
    else
      HalfEvenRange(Quotient(y, e));
      var m := HalfEven(Quotient(y, e));
      if m != WHOLE then Finite(neg, m, e)
      else if e == GREATEST then Infinite(neg)
      else Finite(neg, HALF, e + 1)
  }

  function Quotient(y: real, e: int): (q: real)
    requires y >= 0.0
    ensures q >= 0.0
  {
    PowPositive(2, e);
    y / Pow(2, e)
  }

  lemma QuotientOf(y: real, e: int)
    requires y >= 0.0
    ensures Times(Quotient(y, e), Pow(2, e)) == y && Pow(2, e) > 0.0
  {
    PowPositive(2, e);
  }

  // ---- what is close to a number is rounded to it ----

  /** The size of a number. */
  function Magnitude(x: Double): real
    requires x.Finite?
  {
    Times(x.m as real, Pow(2, x.e))
  }

  lemma {:induction false} PowOrder(b: nat, i: int, j: int)
    requires b > 0 && i <= j
    ensures Pow(b, i) <= Pow(b, j)
    decreases j - i
  {
    hide Pow;
    if i == j {
    } else {
      PowOrder(b, i, j - 1);
      PowNext(b, j - 1);
      PowPositive(b, j - 1);
      AtMostTimes(1.0, b as real, Pow(b, j - 1));
    }
  }

  /** The powers of two that bound a number of 53 bits. */
  lemma Bounds(e: int)
    ensures Pow(2, e + 52) == Times(HALF as real, Pow(2, e)) && Pow(2, e + 53) == Times(WHOLE as real, Pow(2, e))
    ensures Pow(2, e) > 0.0
  {
    PowAdd(2, e, 52);
    PowAdd(2, e, 53);
    PowValues();
    PowPositive(2, e);
    Commute(Pow(2, e), HALF as real);
    Commute(Pow(2, e), WHOLE as real);
  }

  lemma Commute(a: real, b: real)
    ensures a * b == Times(b, a)
  {
  }

  lemma ScaleIs(y: real, e: int)
    requires LEAST <= e <= GREATEST && y < Pow(2, e + 53) && (e == LEAST || Pow(2, e + 52) <= y)
    ensures Scale(y, LEAST) == e
  {
    hide Pow;
    var r := Scale(y, LEAST);
    if r > e {
      PowOrder(2, e + 53, r + 52);
    } else if r < e {
      PowOrder(2, r + 53, e + 52);
    }
  }

  /** A number that is nearer than half to `n`, in units of a power of two. */
  lemma QuotientNear(y: real, e: int, n: int)
    requires y >= 0.0
    requires Times(n as real, Pow(2, e)) - 0.5 * Pow(2, e) < y < Times(n as real, Pow(2, e)) + 0.5 * Pow(2, e)
    ensures HalfEven(Quotient(y, e)) == n
  {
    hide Pow, Times, Quotient, HalfEven;
    var q, u := Quotient(y, e), Pow(2, e);
    QuotientOf(y, e);
    TimesMore(n as real, 0.5, u);
    TimesOrder(n as real - 0.5, q, u);
    TimesOrder(q, n as real + 0.5, u);
    NearestInteger(q, n);
  }

  /**
   A number that is less than half the distance to the next one away from `x` is rounded
   to `x`. Below a power of two that distance is half as large.
   */
  lemma RoundsBack(x: Double, y: real)
    requires IsDouble(x) && x.Finite? && y >= 0.0
    requires Magnitude(x) - 0.5 * Pow(2, x.e) < y < Magnitude(x) + 0.5 * Pow(2, x.e)
    requires x.m == HALF ==> Magnitude(x) - 0.25 * Pow(2, x.e) < y
    ensures Round(x.neg, y) == x
  {
    hide Pow, Scale, HalfEven, Quotient, Times;
    var u := Pow(2, x.e);
    Bounds(x.e);
    TimesMore(x.m as real, 0.5, u);
    TimesOrder(x.m as real + 0.5, WHOLE as real, u);
    if x.e == LEAST || Times(HALF as real, u) <= y {
      ScaleIs(y, x.e);
      QuotientNear(y, x.e, x.m);
    } else {
      TimesOrder(x.m as real - 0.5, HALF as real, u);
      assert x.m == HALF;
      JustBelow(x, y);
    }
  }

  /** Just below a power of two, rounding up gives that power. */
  lemma JustBelow(x: Double, y: real)
    requires IsDouble(x) && x.Finite? && x.m == HALF && x.e > LEAST && y >= 0.0
    requires Magnitude(x) - 0.25 * Pow(2, x.e) < y < Magnitude(x)
    ensures Round(x.neg, y) == x
  {
    hide Pow, Scale, HalfEven, Quotient, Times;
    var w := Pow(2, x.e - 1);
    PowNext(2, x.e - 1);
    Bounds(x.e - 1);
    TimesTwice(HALF as real, w);
    assert Magnitude(x) == Times(WHOLE as real, w);
    TimesMore(WHOLE as real, 0.5, w);
    TimesOrder(HALF as real, WHOLE as real - 0.5, w);
    ScaleIs(y, x.e - 1);
    QuotientNear(y, x.e - 1, WHOLE);
  }

  /** A number is rounded to itself. */
  lemma RoundOfMagnitude(x: Double)
    requires IsDouble(x) && x.Finite?
    ensures Magnitude(x) >= 0.0 && Round(x.neg, Magnitude(x)) == x
  {
    hide Pow, Times;
    PowPositive(2, x.e);
    TimesOrder(0.0, x.m as real, Pow(2, x.e));
    TimesTwice(0.0, Pow(2, x.e));
    RoundsBack(x, Magnitude(x));
  }

  // ---- rounding gives the nearest number ----

  lemma HalfEvenBetween(z: real, a: int, b: int)
    requires a as real <= z < b as real
    ensures a <= HalfEven(z) <= b
  {
  }

  lemma HalfEvenNearest(z: real, n: int)
    ensures Distance(z, HalfEven(z) as real) <= Distance(z, n as real)
  {
    HalfEvenRange(z);
    hide HalfEven;
    var h := HalfEven(z);
    if n < h {
      assert n as real <= h as real - 1.0;
    } else if n > h {
      assert n as real >= h as real + 1.0;
    }
  }

  /** What the scale of a number says: its quotient takes 53 bits at most, and that many if it is not the least. */
  lemma ScaledQuotient(y: real)
    requires y >= 0.0 && Scale(y, LEAST) <= GREATEST
    ensures var e := Scale(y, LEAST); (if e == LEAST then 0.0 else HALF as real) <= Quotient(y, e) < WHOLE as real
  {
    hide Pow, Scale, Quotient, Times;
    var e := Scale(y, LEAST);
    Bounds(e);
    QuotientOf(y, e);
    TimesOrder(Quotient(y, e), WHOLE as real, Pow(2, e));
    TimesOrder(HALF as real, Quotient(y, e), Pow(2, e));
  }

  lemma RoundIsDouble(neg: bool, y: real)
    requires y >= 0.0
    ensures IsDouble(Round(neg, y)) && !Round(neg, y).NotANumber? && Round(neg, y).neg == neg
  {
    hide Pow, Scale, HalfEven, Quotient;
    var e := Scale(y, LEAST);
    if e <= GREATEST {
      ScaledQuotient(y);
      HalfEvenBetween(Quotient(y, e), if e == LEAST then 0 else HALF, WHOLE);
    }
  }

  /** The number that is rounded to, with an exponent for 53 bits. */
  lemma RoundedMagnitude(neg: bool, y: real)
    requires y >= 0.0 && Round(neg, y).Finite?
    ensures var e := Scale(y, LEAST);
            e <= GREATEST && Magnitude(Round(neg, y)) == Times(HalfEven(Quotient(y, e)) as real, Pow(2, e))
  {
    hide Pow, Scale, HalfEven, Quotient, Times;
    var e := Scale(y, LEAST);
    PowNext(2, e);
    TimesTwice(HALF as real, Pow(2, e));
    HalfEvenRange(Quotient(y, e));
  }

  /** A number of a larger exponent is a multiple, and one of a smaller exponent is below. */
  lemma {:induction false} Multiple(m: nat, i: int, e: int) returns (n: nat)
    requires e <= i
    ensures Times(m as real, Pow(2, i)) == Times(n as real, Pow(2, e))
    decreases i - e
  {
    hide Pow, Times;
    if i == e {
      n := m;
    } else {
      PowNext(2, i - 1);
      TimesTwice(m as real, Pow(2, i - 1));
      assert (2 * m) as real == 2.0 * m as real;
      n := Multiple(2 * m, i - 1, e);
    }
  }

  lemma SmallerExponent(z: Double, e: int)
    requires IsDouble(z) && z.Finite? && z.e < e
    ensures Magnitude(z) <= Times(HALF as real, Pow(2, e))
  {
    hide Pow, Times;
    Bounds(z.e);
    TimesOrder(z.m as real, WHOLE as real, Pow(2, z.e));
    PowOrder(2, z.e + 53, e + 52);
    Bounds(e);
  }

  lemma NearestMultiple(q: real, n: int, u: real)
    requires u > 0.0
    ensures Distance(Times(q, u), Times(HalfEven(q) as real, u)) <= Distance(Times(q, u), Times(n as real, u))
  {
    hide HalfEven, Distance, Times;
    HalfEvenNearest(q, n);
    TimesDistance(q, HalfEven(q) as real, u);
    TimesDistance(q, n as real, u);
    TimesOrder(Distance(q, HalfEven(q) as real), Distance(q, n as real), u);
  }

  /** No number is nearer. */
  lemma RoundIsNearest(neg: bool, y: real, z: Double)
    requires y >= 0.0 && Round(neg, y).Finite? && IsDouble(z) && z.Finite?
    ensures Distance(y, Magnitude(Round(neg, y))) <= Distance(y, Magnitude(z))
  {
    hide Pow, Scale, HalfEven, Quotient, Round, Times;
    var e := Scale(y, LEAST);
    RoundedMagnitude(neg, y);
    QuotientOf(y, e);
    ScaledQuotient(y);
    var q, u := Quotient(y, e), Pow(2, e);
    if z.e >= e {
      var n := Multiple(z.m, z.e, e);
      NearestMultiple(q, n, u);
    } else {
      SmallerExponent(z, e);
      TimesOrder(HALF as real, q, u);
      NearestMultiple(q, HALF, u);
    }
  }

  lemma HalfEvenTie(q: real, n: int)
    requires n != HalfEven(q) && Distance(q, n as real) == Distance(q, HalfEven(q) as real)
    ensures HalfEven(q) % 2 == 0
  {
    HalfEvenRange(q);
    var h := HalfEven(q);
    assert n < h ==> n as real <= h as real - 1.0;
    assert n > h ==> n as real >= h as real + 1.0;
  }

  lemma MultipleTie(q: real, n: int, u: real)
    requires u > 0.0 && Times(n as real, u) != Times(HalfEven(q) as real, u)
    requires Distance(Times(q, u), Times(n as real, u)) == Distance(Times(q, u), Times(HalfEven(q) as real, u))
    ensures HalfEven(q) % 2 == 0
  {
    hide HalfEven, Distance, Times;
    TimesDistance(q, HalfEven(q) as real, u);
    TimesDistance(q, n as real, u);
    TimesOrder(Distance(q, HalfEven(q) as real), Distance(q, n as real), u);
    TimesOrder(Distance(q, n as real), Distance(q, HalfEven(q) as real), u);
    HalfEvenTie(q, n);
  }

  lemma RoundedParity(neg: bool, y: real)
    requires y >= 0.0 && Round(neg, y).Finite? && HalfEven(Quotient(y, Scale(y, LEAST))) % 2 == 0
    ensures Round(neg, y).m % 2 == 0
  {
    hide Scale, HalfEven, Quotient;
    assert HALF % 2 == 0;
  }

  /** If another number is as near, the one that is rounded to has its last bit zero. */
  lemma TiesToEven(neg: bool, y: real, z: Double)
    requires y >= 0.0 && Round(neg, y).Finite? && IsDouble(z) && z.Finite?
    requires Magnitude(z) != Magnitude(Round(neg, y))
    requires Distance(y, Magnitude(z)) == Distance(y, Magnitude(Round(neg, y)))
    ensures Round(neg, y).m % 2 == 0
  {
    hide Pow, Scale, HalfEven, Quotient, Round, Times;
    var e := Scale(y, LEAST);
    RoundedMagnitude(neg, y);
    QuotientOf(y, e);
    ScaledQuotient(y);
    var q, u := Quotient(y, e), Pow(2, e);
    if z.e >= e {
      var n := Multiple(z.m, z.e, e);
      MultipleTie(q, n, u);
    } else {
      SmallerExponent(z, e);
      TimesOrder(HALF as real, q, u);
      NearestMultiple(q, HALF, u);
      assert Magnitude(z) == Times(HALF as real, u);
      MultipleTie(q, HALF, u);
    }
    RoundedParity(neg, y);
  }

  // ---- the numbers there are ----

  /** 53 bits at a place from -1074 to 971: section 3.4 of IEEE 754. */
  ghost predicate IsSized(y: real, n: nat, e: int) {
    n < 9_007_199_254_740_992 && -1074 <= e <= 971 && y == n as real * Pow(2, e)
  }

  lemma {:induction false} Stored(neg: bool, n: nat, e: int) returns (x: Double)
    requires n < WHOLE && LEAST <= e <= GREATEST
    ensures IsDouble(x) && x.Finite? && x.neg == neg && Magnitude(x) == Times(n as real, Pow(2, e))
    decreases e - LEAST
  {
    hide Pow, Times;
    if n >= HALF || e == LEAST {
      x := Finite(neg, n, e);
    } else {
      PowNext(2, e - 1);
      TimesTwice(n as real, Pow(2, e - 1));
      assert (2 * n) as real == 2.0 * n as real;
      x := Stored(neg, 2 * n, e - 1);
    }
  }

  lemma SizedIsTimes(y: real, n: nat, e: int)
    ensures IsSized(y, n, e) <==> n < WHOLE && LEAST <= e <= GREATEST && y == Times(n as real, Pow(2, e))
  {
    hide Pow;
  }

  /** What is rounded to exactly itself: the numbers of that size, and nothing else. */
  lemma RoundsExactly(neg: bool, y: real)
    requires y >= 0.0
    ensures Round(neg, y).Finite? && Magnitude(Round(neg, y)) == y <==> exists n, e :: IsSized(y, n, e)
  {
    hide Pow, Round, IsSized, Times;
    RoundIsDouble(neg, y);
    var r := Round(neg, y);
    if r.Finite? && Magnitude(r) == y {
      SizedIsTimes(y, r.m, r.e);
    }
    if n, e :| IsSized(y, n, e) {
      SizedIsTimes(y, n, e);
      var x := Stored(neg, n, e);
      assert Magnitude(x) == y;
      RoundOfMagnitude(x);
    }
  }

  /** What is rounded to infinity: from half a last place above the greatest number on. */
  lemma RoundOverflows(neg: bool, y: real)
    requires y >= 0.0
    ensures Round(neg, y).Infinite? <==> y >= Times(WHOLE as real - 0.5, Pow(2, GREATEST))
  {
    hide Pow, Scale, Quotient, Times;
    var u, e := Pow(2, GREATEST), Scale(y, LEAST);
    Bounds(GREATEST);
    TimesOrder(WHOLE as real - 0.5, WHOLE as real, u);
    if y >= Pow(2, GREATEST + 53) {
      if e <= GREATEST {
        PowOrder(2, e + 53, GREATEST + 53);
      }
    } else {
      ScaledQuotient(y);
      QuotientOf(y, e);
      if e == GREATEST {
        TimesOrder(WHOLE as real - 0.5, Quotient(y, e), u);
        RoundsToWhole(Quotient(y, e));
      } else {
        PowOrder(2, e + 53, GREATEST + 52);
        TimesOrder(HALF as real, WHOLE as real - 0.5, u);
      }
    }
  }

  lemma RoundsToWhole(q: real)
    requires 0.0 <= q < WHOLE as real
    ensures HalfEven(q) == WHOLE <==> q >= WHOLE as real - 0.5
  {
    assert WHOLE % 2 == 0;
    if q >= WHOLE as real - 1.0 {
      assert q.Floor == WHOLE - 1;
    }
  }
}
