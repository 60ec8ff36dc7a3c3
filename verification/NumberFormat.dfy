/** Numbers as the JSON printer writes them, and exactly which of them are read back. */
module NumberFormat {
  import opened Bytes
  import opened Decimal
  import opened Binary64
  import opened Seventeen
  import opened Strtod
  import opened Numerals

  const ZERO: byte := 0x30
  const LETTER_E: byte := 0x65

  // ---- what is written ----

  /** Digits without the zeros at their end. */
  function Trim(f: bytes): bytes {
    if f != [] && f[|f| - 1] == ZERO then Trim(f[..|f| - 1]) else f
  }

  function WithFraction(i: bytes, f: bytes): bytes {
    if f == [] then i else i + [POINT] + f
  }

  function Zeros(n: nat): bytes {
    seq(n, _ => ZERO)
  }

  /** An exponent has two digits at least. */
  function ExponentDigits(n: nat): bytes {
    (if n < 10 then [ZERO] else []) + DigitsText(n)
  }

  /** And a sign. */
  function ExponentText(x: int): bytes {
    var n := if x < 0 then -x else x;
    [LETTER_E, if x < 0 then MINUS else PLUS] + ExponentDigits(n)
  }

  /** Seventeen digits, the last of them worth ten to the `k`, as `%.17g` writes them. */
  function General(d: nat, k: int): bytes
    requires |DigitsText(d)| == 17
  {
    var ds, x := DigitsText(d), k + 16;
    if x < -4 || x > 16 then WithFraction(ds[..1], Trim(ds[1..])) + ExponentText(x)
    else if x >= 0 then WithFraction(ds[..x + 1], Trim(ds[x + 1..]))
    else WithFraction([ZERO], Trim(Zeros(-x - 1) + ds))
  }

  // ---- digits ----

  lemma LastDigit(s: bytes, c: byte)
    ensures DigitsValue(s + [c]) == 10 * DigitsValue(s) + DigitValue(c)
  {
    assert (s + [c])[..|s|] == s;
  }

  lemma {:induction false} LeadingZeros(n: nat, s: bytes)
    ensures DigitsValue(Zeros(n) + s) == DigitsValue(s) && AllDigits(Zeros(n))
  {
    hide DigitsValue;
    if s != [] {
      var init, c := s[..|s| - 1], s[|s| - 1];
      LeadingZeros(n, init);
      LastDigit(init, c);
      LastDigit(Zeros(n) + init, c);
      assert s == init + [c] && Zeros(n) + s == Zeros(n) + init + [c];
    } else {
      assert Zeros(n) + s == Zeros(n);
      OnlyZeros(n);
    }
  }

  lemma {:induction false} OnlyZeros(n: nat)
    ensures DigitsValue(Zeros(n)) == DigitsValue([])
  {
    if n > 0 {
      OnlyZeros(n - 1);
      LastDigit(Zeros(n - 1), ZERO);
      assert Zeros(n) == Zeros(n - 1) + [ZERO];
    } else {
      assert Zeros(n) == [];
    }
  }

  /** Zeros at the end of a fraction count for nothing. */
  lemma {:induction false} TrimmedValue(i: bytes, f: bytes, e: int)
    requires AllDigits(f)
    ensures AllDigits(Trim(f))
    ensures Scaled(DigitsValue(i + Trim(f)), 10, e - |Trim(f)|) == Scaled(DigitsValue(i + f), 10, e - |f|)
  {
    hide DigitsValue, Scaled;
    if f != [] && f[|f| - 1] == ZERO {
      var g := f[..|f| - 1];
      TrimmedValue(i, g, e);
      LastDigit(i + g, ZERO);
      assert i + f == i + g + [ZERO];
      TenTimes(DigitsValue(i + g), e - |f|);
    }
  }

  lemma TenTimes(n: nat, e: int)
    ensures Scaled(10 * n, 10, e) == Scaled(n, 10, e + 1)
  {
    hide Pow;
    PowNext(10, e);
    assert (10 * n) as real == 10.0 * n as real;
    TimesTen(n as real, Pow(10, e));
  }

  lemma {:induction false} ManyDigits(n: nat, k: nat)
    requires n >= Pow10(k)
    ensures |DigitsText(n)| > k
  {
    if k > 0 {
      ManyDigits(n / 10, k - 1);
    }
  }

  lemma SeventeenLong(d: nat)
    requires TEN16 <= d < TEN17
    ensures |DigitsText(d)| == 17
  {
    hide DigitsText;
    Pow10Values();
    assert Pow10(16) == TEN16 && Pow10(17) == 10 * Pow10(16);
    ManyDigits(d, 16);
    DigitsLength(d, 17);
  }

  // ---- a number that is written is read ----

  /** No exponent, or one with a sign. */
  function ExponentFor(x: Option<int>): Exponent {
    match x
    case None => NoExponent
    case Some(n) => Exponent(LETTER_E, [if n < 0 then MINUS else PLUS], ExponentDigits(if n < 0 then -n else n))
  }

  lemma ExponentDigitsRead(n: nat)
    ensures AllDigitsOf(10, ExponentDigits(n)) && Worth(10, ExponentDigits(n)) == n && ExponentDigits(n) != []
  {
    hide DigitsText, DigitsValue, Worth, Digit, AllDigitsOf;
    var zeros := if n < 10 then 1 else 0;
    DigitsOfNumber(n);
    LeadingZeros(zeros, DigitsText(n));
    assert ExponentDigits(n) == Zeros(zeros) + DigitsText(n);
    DecimalDigits(ExponentDigits(n));
  }

  lemma ExponentReads(x: Option<int>)
    ensures var e := ExponentFor(x);
            && ValidExponent(0x45, 0x65, e) && Power(e) == (if x.None? then 0 else x.value)
            && TextOfExponent(e) == if x.None? then [] else ExponentText(x.value)
  {
    hide ExponentDigits, Worth, AllDigitsOf;
    if x.Some? {
      ExponentDigitsRead(if x.value < 0 then -x.value else x.value);
    }
  }

  lemma MantissaReads(i: bytes, f: bytes)
    requires i != [] && AllDigits(i) && AllDigits(f)
    ensures var m := Mantissa(i, f != [], f);
            && ValidMantissa(10, m) && TextOfMantissa(m) == WithFraction(i, f)
            && Worth(10, i + f) == DigitsValue(i + f)
  {
    DecimalDigits(i);
    DecimalDigits(f);
    DecimalDigits(i + f);
    hide AllDigitsOf, Worth, DigitsValue;
    assert i + [] == i;
  }

  lemma FirstDigit(i: bytes, f: bytes, tail: bytes)
    requires i != []
    ensures var s := WithFraction(i, f) + tail; s != [] && s[0] == i[0]
  {
  }

  lemma ValueOfDecimal(neg: bool, m: Mantissa, e: Exponent)
    ensures DecimalValue(neg, m, e) == Round(neg, Scaled(Worth(10, m.whole + m.fraction), 10, Power(e) - |m.fraction|))
  {
    hide Round, Scaled;
  }

  /** Digits, a point and more digits or none, and an exponent or none. */
  lemma DecimalOf(i: bytes, f: bytes, x: Option<int>, neg: bool)
    requires i != [] && AllDigits(i) && AllDigits(f)
    ensures var s := WithFraction(i, f) + if x.None? then [] else ExponentText(x.value);
            && s != [] && s[0] == i[0] && UnsignedLength(s) == |s|
            && UnsignedValue(neg, s)
               == Round(neg, Scaled(DigitsValue(i + f), 10, (if x.None? then 0 else x.value) - |f|))
  {
    hide AllDigits, Worth, DigitsValue, ExponentText, TextOfExponent, ExponentFor, Power, ValidExponent, Scaled, Round;
    hide UnsignedLength, UnsignedValue, DecimalValue, TextOfMantissa, ValidMantissa, WithFraction;
    var m, e := Mantissa(i, f != [], f), ExponentFor(x);
    MantissaReads(i, f);
    ExponentReads(x);
    DecimalTaken(m, e, neg);
    ValueOfDecimal(neg, m, e);
    FirstDigit(i, f, TextOfExponent(e));
  }

  lemma GeneralReads(d: nat, k: int, neg: bool)
    requires TEN16 <= d < TEN17
    ensures |DigitsText(d)| == 17
    ensures var s := General(d, k);
            && s != [] && IsDigit(s[0]) && UnsignedLength(s) == |s|
            && UnsignedValue(neg, s) == Round(neg, Scaled(d, 10, k))
  {
    hide Scaled, Round, DigitsValue, DigitsText, UnsignedLength, UnsignedValue, Trim, WithFraction, ExponentText;
    SeventeenLong(d);
    DigitsOfNumber(d);
    var ds, x := DigitsText(d), k + 16;
    if x < -4 || x > 16 {
      TrimmedValue(ds[..1], ds[1..], x);
      assert ds[..1] + ds[1..] == ds;
      DecimalOf(ds[..1], Trim(ds[1..]), Some(x), neg);
    } else if x >= 0 {
      TrimmedValue(ds[..x + 1], ds[x + 1..], 0);
      assert ds[..x + 1] + ds[x + 1..] == ds;
      DecimalOf(ds[..x + 1], Trim(ds[x + 1..]), None, neg);
      assert General(d, k) + [] == General(d, k);
    } else {
      var f := Zeros(-x - 1) + ds;
      LeadingZeros(-x - 1, ds);
      LeadingZeros(1, f);
      assert Zeros(1) == [ZERO];
      TrimmedValue([ZERO], f, 0);
      DecimalOf([ZERO], Trim(f), None, neg);
      assert General(d, k) + [] == General(d, k);
    }
  }

  // ---- what the printer writes for a number ----

  /** Whole numbers of a smaller size are written without a point or an exponent. */
  const WHOLE_LIMIT: int := 1_000_000_000_000_000

  predicate IsWhole(x: Double)
    requires x.Finite?
  {
    var y := Magnitude(x);
    y < WHOLE_LIMIT as real && y == y.Floor as real
  }

  function NumberText(x: Number): bytes {
    match x
    case Infinite(neg) => SignText(neg) + INF
    case NotANumber(neg) => SignText(neg) + NAN
    case Finite(neg, _, _) =>
      MagnitudeIsPositive(x);
      if IsWhole(x) then IntText(Signed(neg, Magnitude(x).Floor))
      else
        SeventeenDigits(x);
        var (d, k) := Digits17(Magnitude(x));
        SeventeenLong(d);
        SignText(neg) + General(d, k)
  }

  /** The numbers that come back: not a negative zero, and neither infinite nor undefined unless they have a sign. */
  predicate ComesBack(x: Number) {
    match x
    case Finite(neg, m, _) => neg ==> m > 0
    case Infinite(neg) => neg
    case NotANumber(neg) => neg
  }

  lemma MagnitudeIsPositive(x: Double)
    requires x.Finite? && IsDouble(x)
    ensures Magnitude(x) >= 0.0 && Magnitude(x).Floor >= 0
    ensures x.m == 0 ==> IsWhole(x) && Magnitude(x) == 0.0
    ensures x.m > 0 ==> Magnitude(x) > 0.0
  {
    hide Pow, Times;
    PowPositive(2, x.e);
    TimesOrder(0.0, x.m as real, Pow(2, x.e));
    TimesTwice(0.0, Pow(2, x.e));
  }

  lemma Signed1(neg: bool, s: bytes)
    requires s != [] && UnsignedLength(s) == |s| && s[0] != MINUS
    ensures NumberLength(SignText(neg) + s) == |SignText(neg) + s|
    ensures NumberValue(SignText(neg) + s) == UnsignedValue(neg, s)
    ensures StartsNumber(SignText(neg) + s) <==> neg || IsDigit(s[0])
  {
    hide UnsignedLength, UnsignedValue;
    var t := SignText(neg) + s;
    if neg {
      assert t[1..] == s;
    } else {
      assert t == s;
    }
  }

  lemma WordsRead(neg: bool)
    ensures UnsignedLength(INF) == |INF| && UnsignedValue(neg, INF) == Infinite(neg)
    ensures UnsignedLength(NAN) == |NAN| && UnsignedValue(neg, NAN) == NotANumber(neg)
  {
    assert !IsLetter(NAN[0], INF[0]);
  }

  /** Digits alone. */
  lemma DigitsRead(neg: bool, n: nat)
    ensures var s := DigitsText(n);
            && IsDigit(s[0]) && UnsignedLength(s) == |s| && UnsignedValue(neg, s) == Round(neg, n as real)
  {
    hide DigitsText, UnsignedLength, UnsignedValue, Scaled, Round, DigitsValue;
    var s := DigitsText(n);
    DigitsOfNumber(n);
    DecimalOf(s, [], None, neg);
    assert WithFraction(s, []) + [] == s && s + [] == s;
    ScaledOne(n);
  }

  lemma ScaledOne(n: nat)
    ensures Scaled(n, 10, 0) == n as real
  {
  }

  /** Whole numbers are written as integers, and read back but for the sign of zero. */
  lemma WholeReads(x: Number)
    requires x.Finite? && IsWhole(x)
    ensures IsNumberText(NumberText(x), x) <==> ComesBack(x)
    ensures StartsNumber(NumberText(x)) && NumberLength(NumberText(x)) == |NumberText(x)|
  {
    hide DigitsText, UnsignedLength, UnsignedValue, Round, Magnitude, NumberLength, NumberValue, StartsNumber;
    MagnitudeIsPositive(x);
    RoundOfMagnitude(x);
    var n := Magnitude(x).Floor;
    var neg := x.neg && n > 0;
    DigitsRead(neg, n);
    Signed1(neg, DigitsText(n));
    assert NumberText(x) == SignText(neg) + DigitsText(n) by { IntTextSigned(x.neg, n); }
    if !neg && x.neg {
      RoundSign(n as real, x);
    }
  }

  lemma IntTextSigned(neg: bool, n: nat)
    ensures IntText(Signed(neg, n)) == SignText(neg && n > 0) + DigitsText(n)
  {
  }

  /** The sign that is read is the one that is there. */
  lemma RoundSign(y: real, x: Double)
    requires y >= 0.0 && x.Finite? && x.neg
    ensures Round(false, y) != x
  {
    RoundIsDouble(false, y);
  }

  /** Seventeen digits are read back. */
  lemma GeneralBack(x: Number)
    requires x.Finite? && !IsWhole(x)
    ensures IsNumberText(NumberText(x), x)
  {
    hide DigitsText, UnsignedLength, UnsignedValue, Round, Magnitude, NumberLength, NumberValue, General, Digits17, Pow;
    MagnitudeIsPositive(x);
    SeventeenDigits(x);
    var (d, k) := Digits17(Magnitude(x));
    GeneralReads(d, k, x.neg);
    Signed1(x.neg, General(d, k));
  }

  /**
   A number is read back from what the printer writes exactly if it is neither a negative
   zero, whose sign is not written, nor infinite or undefined without a sign, which the
   reader does not take for a number.
   */
  lemma NumberBackExact(x: Number)
    ensures IsNumberText(NumberText(x), x) <==> ComesBack(x)
    ensures x.Finite? ==> StartsNumber(NumberText(x)) && NumberLength(NumberText(x)) == |NumberText(x)|
    ensures !x.Finite? && !ComesBack(x) ==> !StartsNumber(NumberText(x))
  {
    hide UnsignedLength, UnsignedValue, NumberLength, NumberValue;
    match x
    case Finite(_, _, _) =>
      MagnitudeIsPositive(x);
      if IsWhole(x) {
        WholeReads(x);
      } else {
        GeneralBack(x);
      }
    case Infinite(neg) =>
      WordsRead(neg);
      Signed1(neg, INF);
    case NotANumber(neg) =>
      WordsRead(neg);
      Signed1(neg, NAN);
  }

  lemma NumberTextNulFree(x: Number)
    ensures NulFree(NumberText(x))
  {
    NumberBackExact(x);
    hide NumberText;
    var t := NumberText(x);
    if StartsNumber(t) {
      NumberBytes(t);
      assert t[..|t|] == t;
      assert NumberLength(t) == |t|;
    } else {
      UnreadableText(x);
    }
  }

  lemma UnreadableText(x: Number)
    requires !StartsNumber(NumberText(x))
    ensures NumberText(x) == INF || NumberText(x) == NAN
  {
    NumberBackExact(x);
    assert !x.neg;
    assert [] + INF == INF && [] + NAN == NAN;
  }

  /** Zero without its sign. */
  function WithoutZeroSign(x: Number): Number {
    if x == Finite(true, 0, LEAST) then Finite(false, 0, LEAST) else x
  }

  /** What is read back is the number, but for the sign of zero, and it is written the same again. */
  lemma ReadBack(x: Number)
    requires StartsNumber(NumberText(x))
    ensures IsNumberText(NumberText(x), WithoutZeroSign(x))
    ensures NumberText(WithoutZeroSign(x)) == NumberText(x)
  {
    if x == Finite(true, 0, LEAST) {
      ZeroText(true);
      ZeroText(false);
      NumberBackExact(WithoutZeroSign(x));
    } else {
      NumberBackExact(x);
    }
  }

  lemma ZeroText(neg: bool)
    ensures NumberText(Finite(neg, 0, LEAST)) == [ZERO]
  {
    MagnitudeIsPositive(Finite(neg, 0, LEAST));
  }

  // ---- the text fits its buffer ----

  lemma {:induction false} TrimShortens(f: bytes)
    ensures |Trim(f)| <= |f|
  {
    if f != [] && f[|f| - 1] == ZERO {
      TrimShortens(f[..|f| - 1]);
    }
  }

  lemma ExponentIsShort(x: int)
    requires -10_000 < x < 10_000
    ensures |ExponentText(x)| <= 6
  {
    hide DigitsText;
    var n := if x < 0 then -x else x;
    assert Pow10(4) == 10_000 && Pow10(1) == 10;
    DigitsLength(n, 4);
    if n < 10 {
      DigitsLength(n, 1);
    }
  }

  lemma GeneralIsShort(d: nat, k: int)
    requires |DigitsText(d)| == 17 && LOWEST <= k <= HIGHEST + 1
    ensures |General(d, k)| <= 24
  {
    hide DigitsText, Trim, ExponentText;
    var ds, x := DigitsText(d), k + 16;
    ExponentIsShort(x);
    TrimShortens(ds[1..]);
    if 0 <= x <= 16 {
      TrimShortens(ds[x + 1..]);
    } else if -4 <= x < 0 {
      TrimShortens(Zeros(-x - 1) + ds);
    }
  }

  /** The buffer that numbers are formatted into holds 32 bytes, terminator included. */
  lemma NumberFits(x: Number)
    ensures |NumberText(x)| < 32
  {
    hide General, DigitsText;
    match x
    case Infinite(_) =>
    case NotANumber(_) =>
    case Finite(neg, _, _) =>
      MagnitudeIsPositive(x);
      if IsWhole(x) {
        IntTextSigned(neg, Magnitude(x).Floor);
        assert Pow10(5) == 100_000 && Pow10(10) == 10_000_000_000 && Pow10(15) == 1_000_000_000_000_000;
        DigitsLength(Magnitude(x).Floor, 15);
      } else {
        SeventeenDigits(x);
        var (d, k) := Digits17(Magnitude(x));
        SeventeenLong(d);
        GeneralIsShort(d, k);
      }
  }
}
