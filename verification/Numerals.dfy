/**
 The numerals of section 7.22.1.3 of C17, byte by byte: `strtod` takes the longest of them
 that a text starts with, and gives the number that it is written for.
 */
module Numerals {
  import opened Bytes
  import opened Decimal
  import opened Binary64
  import opened Strtod

  // ---- numerals ----

  /** What a digit is worth, up to fifteen; nothing if the byte is no digit. */
  function Digit(c: byte): Option<nat> {
    if c == 0x30 then Some(0)
    else if c == 0x31 then Some(1)
    else if c == 0x32 then Some(2)
    else if c == 0x33 then Some(3)
    else if c == 0x34 then Some(4)
    else if c == 0x35 then Some(5)
    else if c == 0x36 then Some(6)
    else if c == 0x37 then Some(7)
    else if c == 0x38 then Some(8)
    else if c == 0x39 then Some(9)
    else if c == 0x61 || c == 0x41 then Some(10)
    else if c == 0x62 || c == 0x42 then Some(11)
    else if c == 0x63 || c == 0x43 then Some(12)
    else if c == 0x64 || c == 0x44 then Some(13)
    else if c == 0x65 || c == 0x45 then Some(14)
    else if c == 0x66 || c == 0x46 then Some(15)
    else None
  }

  predicate IsDigitOf(base: nat, c: byte) {
    Digit(c).Some? && Digit(c).value < base
  }

  ghost predicate AllDigitsOf(base: nat, s: bytes) {
    forall i :: 0 <= i < |s| ==> IsDigitOf(base, s[i])
  }

  /** The number that digits write. */
  function Worth(base: nat, s: bytes): nat
    decreases |s|
  {
    if s == [] then 0
    else
      var last := s[|s| - 1];
      base * Worth(base, s[..|s| - 1]) + if Digit(last).Some? then Digit(last).value else 0
  }

  /** An exponent may have a sign. */
  datatype Exponent = NoExponent | Exponent(mark: byte, sign: bytes, digits: bytes)

  /** A mantissa may have a point, and has digits before or behind it. */
  datatype Mantissa = Mantissa(whole: bytes, point: bool, fraction: bytes)

  datatype Numeral =
    | Dec(mantissa: Mantissa, exponent: Exponent)
    | Hex(x: byte, mantissa: Mantissa, exponent: Exponent)
    | Inf(word: bytes)
    | Nan(word: bytes, tag: bytes)

  ghost predicate ValidMantissa(base: nat, m: Mantissa) {
    && AllDigitsOf(base, m.whole) && AllDigitsOf(base, m.fraction)
    && (m.whole != [] || m.fraction != []) && (m.point || m.fraction == [])
  }

  /** An exponent that starts with a letter in either case. */
  ghost predicate ValidExponent(upper: byte, lower: byte, e: Exponent) {
    e.Exponent? ==>
      && (e.mark == upper || e.mark == lower) && (e.sign == [] || e.sign == [0x2B] || e.sign == [0x2D])
      && e.digits != [] && AllDigitsOf(10, e.digits)
  }

  /** A word in any mixture of cases. */
  ghost predicate IsWord(w: bytes, upper: bytes, lower: bytes)
    requires |upper| == |lower|
  {
    |w| == |lower| && forall i :: 0 <= i < |w| ==> w[i] == upper[i] || w[i] == lower[i]
  }

  /** Digits, letters and underscores in parentheses. */
  ghost predicate IsTag(t: bytes) {
    && |t| >= 2 && t[0] == 0x28 && t[|t| - 1] == 0x29
    && forall i :: 1 <= i < |t| - 1 ==>
         0x30 <= t[i] <= 0x39 || 0x41 <= t[i] <= 0x5A || 0x61 <= t[i] <= 0x7A || t[i] == 0x5F
  }

  ghost predicate IsNumeral(n: Numeral) {
    match n
    case Dec(m, e) => ValidMantissa(10, m) && ValidExponent(0x45, 0x65, e)
    case Hex(x, m, e) => (x == 0x58 || x == 0x78) && ValidMantissa(16, m) && ValidExponent(0x50, 0x70, e)
    case Inf(w) =>
      || IsWord(w, [0x49, 0x4E, 0x46], [0x69, 0x6E, 0x66])
      || IsWord(w, [0x49, 0x4E, 0x46, 0x49, 0x4E, 0x49, 0x54, 0x59], [0x69, 0x6E, 0x66, 0x69, 0x6E, 0x69, 0x74, 0x79])
    case Nan(w, t) => IsWord(w, [0x4E, 0x41, 0x4E], [0x6E, 0x61, 0x6E]) && (t == [] || IsTag(t))
  }

  function TextOfMantissa(m: Mantissa): bytes {
    m.whole + if m.point then [0x2E] + m.fraction else []
  }

  function TextOfExponent(e: Exponent): bytes {
    if e.NoExponent? then [] else [e.mark] + e.sign + e.digits
  }

  function TextOf(n: Numeral): bytes {
    match n
    case Dec(m, e) => TextOfMantissa(m) + TextOfExponent(e)
    case Hex(x, m, e) => [0x30, x] + TextOfMantissa(m) + TextOfExponent(e)
    case Inf(w) => w
    case Nan(w, t) => w + t
  }

  function Power(e: Exponent): int {
    if e.NoExponent? then 0
    else if e.sign == [0x2D] then -(Worth(10, e.digits) as int)
    else Worth(10, e.digits)
  }

  /** A number times a power of the base. */
  function Product(n: nat, b: nat, e: int): (y: real)
    requires b > 0
    ensures y == Scaled(n, b, e)
  {
    n as real * Pow(b, e)
  }

  function DecimalValue(neg: bool, m: Mantissa, e: Exponent): Number {
    Rounded(neg, Product(Worth(10, m.whole + m.fraction), 10, Power(e) - |m.fraction|))
  }

  /** A hexadecimal digit behind the point counts four bits. */
  function HexadecimalValue(neg: bool, m: Mantissa, e: Exponent): Number {
    Rounded(neg, Product(Worth(16, m.whole + m.fraction), 2, Power(e) - 4 * |m.fraction|))
  }

  /** The number that a numeral is written for. */
  function Value(neg: bool, n: Numeral): Number {
    match n
    case Dec(m, e) => DecimalValue(neg, m, e)
    case Hex(_, m, e) => HexadecimalValue(neg, m, e)
    case Inf(_) => Infinite(neg)
    case Nan(_, _) => NotANumber(neg)
  }

  function SignText(neg: bool): bytes {
    if neg then [0x2D] else []
  }

  // ---- digits ----

  lemma DigitsAgree(c: byte)
    ensures IsDigitOf(10, c) <==> IsDigit(c)
    ensures IsDigitOf(16, c) <==> IsHex(c)
    ensures IsDigit(c) ==> Digit(c) == Some(DigitValue(c))
    ensures IsHex(c) ==> Digit(c) == Some(HexValue(c))
  {
  }

  lemma {:induction false} WorthAgrees(s: bytes)
    ensures AllDigitsOf(10, s) ==> AllDigits(s) && Worth(10, s) == DigitsValue(s)
    ensures AllDigitsOf(16, s) ==> Worth(16, s) == HexDigitsValue(s)
    decreases |s|
  {
    hide IsDigit, IsHex, Digit, DigitValue, HexValue;
    if s == [] {
    } else {
      WorthAgrees(s[..|s| - 1]);
      DigitsAgree(s[|s| - 1]);
      assert forall i :: 0 <= i < |s| - 1 ==> s[i] == s[..|s| - 1][i];
      assert s == s[..|s| - 1] + [s[|s| - 1]];
    }
  }

  lemma KindAgrees(base: nat, s: bytes)
    requires base == 10 || base == 16
    ensures AllDigitsOf(base, s) <==> forall i :: 0 <= i < |s| ==> KindOf(base)(s[i])
  {
    hide IsDigit, IsHex, Digit;
    forall i | 0 <= i < |s|
      ensures IsDigitOf(base, s[i]) <==> KindOf(base)(s[i])
    {
      DigitsAgree(s[i]);
    }
  }

  function KindOf(base: nat): byte -> bool {
    if base == 16 then IsHex else IsDigit
  }

  lemma {:induction false} RunOver(kind: byte -> bool, a: bytes, b: bytes)
    requires (forall i :: 0 <= i < |a| ==> kind(a[i])) && (b == [] || !kind(b[0]))
    ensures Run(kind, a + b) == |a|
  {
    if a == [] {
      assert a + b == b;
    } else {
      RunOver(kind, a[1..], b);
      assert (a + b)[1..] == a[1..] + b;
    }
  }

  lemma DecimalDigits(s: bytes)
    requires AllDigits(s)
    ensures AllDigitsOf(10, s) && Worth(10, s) == DigitsValue(s)
  {
    hide Digit, IsDigit;
    KindAgrees(10, s);
    WorthAgrees(s);
  }

  /** A number without leading zeros, in decimal. */
  ghost predicate IsDecimal(s: bytes, n: nat) {
    s != [] && AllDigitsOf(10, s) && Worth(10, s) == n && (|s| > 1 ==> s[0] != 0x30)
  }

  lemma {:induction false} DigitsAreDecimal(n: nat)
    ensures IsDecimal(DigitsText(n), n)
  {
    DigitsOfNumber(n);
    DecimalDigits(DigitsText(n));
    hide Worth, AllDigitsOf;
    FirstIsNotZero(n);
  }

  lemma {:induction false} FirstIsNotZero(n: nat)
    ensures n > 0 ==> DigitsText(n)[0] != 0x30
  {
    if n >= 10 {
      FirstIsNotZero(n / 10);
      assert DigitsText(n)[0] == DigitsText(n / 10)[0];
    }
  }

  // ---- a numeral is taken ----

  /** What may stand behind a mantissa: nothing, or something else than a digit or a point. */
  predicate EndsMantissa(base: nat, tail: bytes) {
    tail == [] || (!KindOf(base)(tail[0]) && tail[0] != POINT)
  }

  lemma MantissaTaken(base: nat, m: Mantissa, tail: bytes)
    requires (base == 10 || base == 16) && ValidMantissa(base, m) && EndsMantissa(base, tail)
    ensures var s := TextOfMantissa(m) + tail;
            && MantissaLength(KindOf(base), s) == |TextOfMantissa(m)| > 0
            && s[|TextOfMantissa(m)|..] == tail
            && MantissaDigits(KindOf(base), s) == (m.whole + m.fraction, |m.fraction|)
  {
    hide AllDigitsOf, KindOf;
    KindAgrees(base, m.whole);
    KindAgrees(base, m.fraction);
    if m.point {
      PointMantissa(base, m.whole, m.fraction, tail);
    } else {
      WholeMantissa(base, m.whole, tail);
      assert m.whole + [] == m.whole;
    }
  }

  lemma WholeMantissa(base: nat, i: bytes, tail: bytes)
    requires i != [] && (forall k :: 0 <= k < |i| ==> KindOf(base)(i[k])) && EndsMantissa(base, tail)
    ensures MantissaLength(KindOf(base), i + tail) == |i| && MantissaDigits(KindOf(base), i + tail) == (i, 0)
  {
    RunOver(KindOf(base), i, tail);
    hide Run, KindOf;
    var s := i + tail;
    assert s[..|i|] == i && (tail != [] ==> s[|i|] == tail[0]);
  }

  lemma PointIsNoDigit(base: nat)
    ensures !KindOf(base)(POINT)
  {
  }

  lemma PointMantissa(base: nat, i: bytes, f: bytes, tail: bytes)
    requires (i != [] || f != []) && (forall k :: 0 <= k < |i| ==> KindOf(base)(i[k]))
    requires (forall k :: 0 <= k < |f| ==> KindOf(base)(f[k])) && EndsMantissa(base, tail)
    ensures var s := i + ([POINT] + f) + tail;
            && MantissaLength(KindOf(base), s) == |i| + 1 + |f|
            && MantissaDigits(KindOf(base), s) == (i + f, |f|)
  {
    hide KindOf;
    var s, behind := i + ([POINT] + f) + tail, f + tail;
    PointIsNoDigit(base);
    RunOver(KindOf(base), i, [POINT] + behind);
    RunOver(KindOf(base), f, tail);
    hide Run;
    assert s == i + ([POINT] + behind);
    assert s[|i|] == POINT && s[|i| + 1..] == behind;
    assert s[..|i|] == i && s[|i| + 1..|i| + 1 + |f|] == f;
  }

  lemma ExponentTaken(upper: byte, lower: byte, e: Exponent)
    requires upper == lower - 0x20 && ValidExponent(upper, lower, e)
    ensures var t := TextOfExponent(e); ExponentLength(lower, t) == |t| && ExponentValue(lower, t) == Power(e)
  {
    if e.Exponent? {
      hide DigitsValue, Worth;
      var t := TextOfExponent(e);
      WorthAgrees(e.digits);
      RunOver(IsDigit, e.digits, []);
      assert e.digits + [] == e.digits;
      assert e.sign == [] ==> t[1..] == e.digits && t[1..|t|] == e.digits && IsDigit(e.digits[0]);
      assert e.sign != [] ==> t[1] == e.sign[0] && t[2..] == e.digits && t[2..|t|] == e.digits;
    }
  }

  /** The letter of an exponent is neither a digit of the base nor a point. */
  lemma ExponentEndsMantissa(base: nat, upper: byte, lower: byte, e: Exponent)
    requires (base == 10 && upper == 0x45 && lower == 0x65) || (base == 16 && upper == 0x50 && lower == 0x70)
    requires ValidExponent(upper, lower, e)
    ensures EndsMantissa(base, TextOfExponent(e))
  {
  }

  lemma FloatTaken(base: nat, upper: byte, lower: byte, m: Mantissa, e: Exponent)
    requires (base == 10 && upper == 0x45 && lower == 0x65) || (base == 16 && upper == 0x50 && lower == 0x70)
    requires ValidMantissa(base, m) && ValidExponent(upper, lower, e)
    ensures var s := TextOfMantissa(m) + TextOfExponent(e);
            && FloatLength(KindOf(base), lower, s) == |s| && MantissaLength(KindOf(base), s) > 0
            && MantissaDigits(KindOf(base), s) == (m.whole + m.fraction, |m.fraction|)
            && ExponentValue(lower, s[MantissaLength(KindOf(base), s)..]) == Power(e)
  {
    hide ValidMantissa, ValidExponent, KindOf, MantissaLength, MantissaDigits, ExponentLength, ExponentValue, Power;
    hide TextOfMantissa, TextOfExponent;
    ExponentEndsMantissa(base, upper, lower, e);
    MantissaTaken(base, m, TextOfExponent(e));
    ExponentTaken(upper, lower, e);
  }

  /** What a decimal numeral starts with. */
  lemma DecimalStarts(m: Mantissa, e: Exponent)
    requires ValidMantissa(10, m) && ValidExponent(0x45, 0x65, e)
    ensures var s := TextOfMantissa(m) + TextOfExponent(e);
            s != [] && (IsDigit(s[0]) || s[0] == POINT) && !IsHexFloat(s)
  {
    hide Digit;
    DigitsAgreeAll();
    var s := TextOfMantissa(m) + TextOfExponent(e);
    if m.whole != [] {
      assert IsDigitOf(10, m.whole[0]) && s[0] == m.whole[0];
      if |m.whole| > 1 {
        assert IsDigitOf(10, m.whole[1]) && s[1] == m.whole[1];
      } else if |s| > 1 {
        assert s[1] == if m.point then POINT else e.mark;
      }
    } else {
      assert s[0] == POINT;
    }
  }

  lemma DigitsAgreeAll()
    ensures forall c :: IsDigitOf(10, c) ==> IsDigit(c)
  {
  }

  lemma NoWord(s: bytes)
    requires s != [] && (IsDigit(s[0]) || s[0] == POINT)
    ensures !StartsWith(s, INF) && !StartsWith(s, INFINITY) && !StartsWith(s, NAN)
  {
    assert !IsLetter(s[0], INF[0]) && !IsLetter(s[0], INFINITY[0]) && !IsLetter(s[0], NAN[0]);
  }

  lemma UnsignedDecimal(s: bytes, neg: bool)
    requires s != [] && (IsDigit(s[0]) || s[0] == POINT) && !IsHexFloat(s)
    ensures UnsignedLength(s) == FloatLength(IsDigit, 0x65, s) && UnsignedValue(neg, s) == Rounded(neg, DecimalSize(s))
  {
    hide FloatLength, DecimalSize, StartsWith, Rounded, Round, IsHexFloat;
    NoWord(s);
  }

  lemma DecimalSizeOf(m: Mantissa, e: Exponent)
    requires ValidMantissa(10, m) && ValidExponent(0x45, 0x65, e)
    ensures var s := TextOfMantissa(m) + TextOfExponent(e);
            && FloatLength(IsDigit, 0x65, s) == |s|
            && DecimalSize(s) == Scaled(Worth(10, m.whole + m.fraction), 10, Power(e) - |m.fraction|)
  {
    hide Scaled, FloatLength, MantissaDigits, MantissaLength, ExponentValue, Worth, DigitsValue, Power, ValidExponent;
    FloatTaken(10, 0x45, 0x65, m, e);
    BothDigits(10, m);
    WorthAgrees(m.whole + m.fraction);
  }

  lemma DecimalTaken(m: Mantissa, e: Exponent, neg: bool)
    requires ValidMantissa(10, m) && ValidExponent(0x45, 0x65, e)
    ensures var s := TextOfMantissa(m) + TextOfExponent(e);
            UnsignedLength(s) == |s| && UnsignedValue(neg, s) == DecimalValue(neg, m, e)
  {
    hide IsDigit, Scaled, Rounded, Round, FloatLength, DecimalSize, UnsignedLength, UnsignedValue, Worth, Power;
    hide ValidExponent;
    hide ValidMantissa, TextOfMantissa, TextOfExponent, IsHexFloat;
    DecimalStarts(m, e);
    DecimalSizeOf(m, e);
    UnsignedDecimal(TextOfMantissa(m) + TextOfExponent(e), neg);
  }

  lemma BothDigits(base: nat, m: Mantissa)
    requires ValidMantissa(base, m)
    ensures AllDigitsOf(base, m.whole + m.fraction)
  {
  }

  lemma UnsignedHex(s: bytes, neg: bool)
    requires IsHexFloat(s)
    ensures UnsignedLength(s) == 2 + FloatLength(IsHex, 0x70, s[2..])
    ensures UnsignedValue(neg, s) == Rounded(neg, HexSize(s[2..]))
  {
    hide FloatLength, HexSize, StartsWith, Rounded, Round, MantissaLength;
    NoWord(s);
  }

  lemma HexSizeOf(m: Mantissa, e: Exponent)
    requires ValidMantissa(16, m) && ValidExponent(0x50, 0x70, e)
    ensures var s := TextOfMantissa(m) + TextOfExponent(e);
            && FloatLength(IsHex, 0x70, s) == |s| && MantissaLength(IsHex, s) > 0
            && HexSize(s) == Scaled(Worth(16, m.whole + m.fraction), 2, Power(e) - 4 * |m.fraction|)
  {
    hide Scaled, FloatLength, MantissaDigits, MantissaLength, ExponentValue, Worth, HexDigitsValue, Power;
    hide ValidExponent;
    FloatTaken(16, 0x50, 0x70, m, e);
    BothDigits(16, m);
    WorthAgrees(m.whole + m.fraction);
  }

  lemma HexTaken(x: byte, m: Mantissa, e: Exponent, neg: bool)
    requires (x == 0x58 || x == 0x78) && ValidMantissa(16, m) && ValidExponent(0x50, 0x70, e)
    ensures var s := [0x30, x] + (TextOfMantissa(m) + TextOfExponent(e));
            UnsignedLength(s) == |s| && UnsignedValue(neg, s) == HexadecimalValue(neg, m, e)
  {
    hide Scaled, Rounded, Round, FloatLength, HexSize, UnsignedLength, UnsignedValue, Worth, Power, ValidExponent;
    hide ValidMantissa, TextOfMantissa, TextOfExponent, MantissaLength;
    var t := TextOfMantissa(m) + TextOfExponent(e);
    var s := [0x30, x] + t;
    HexSizeOf(m, e);
    assert s[2..] == t;
    UnsignedHex(s, neg);
  }

  lemma WordIsStart(w: bytes, upper: bytes, word: bytes, tail: bytes)
    requires |upper| == |word| && IsWord(w, upper, word) && forall i :: 0 <= i < |word| ==> upper[i] == word[i] - 0x20
    ensures StartsWith(w + tail, word)
  {
  }

  lemma InfTaken(w: bytes, neg: bool)
    requires IsNumeral(Inf(w))
    ensures UnsignedLength(w) == |w| && UnsignedValue(neg, w) == Infinite(neg)
  {
    assert w + [] == w;
    if IsWord(w, [0x49, 0x4E, 0x46], [0x69, 0x6E, 0x66]) {
      WordIsStart(w, [0x49, 0x4E, 0x46], INF, []);
    } else {
      WordIsStart(w, [0x49, 0x4E, 0x46, 0x49, 0x4E, 0x49, 0x54, 0x59], INFINITY, []);
      assert StartsWith(w, INF) by { assert forall i :: 0 <= i < 3 ==> INF[i] == INFINITY[i]; }
    }
  }

  lemma TagTaken(t: bytes)
    requires t == [] || IsTag(t)
    ensures TagLength(t) == |t|
  {
    if t != [] {
      var chars := t[1..|t| - 1];
      RunOver(IsNanChar, chars, [0x29]);
      assert t[1..] == chars + [0x29];
    }
  }

  lemma NanTaken(w: bytes, t: bytes, neg: bool)
    requires IsNumeral(Nan(w, t))
    ensures var s := w + t; UnsignedLength(s) == |s| && UnsignedValue(neg, s) == NotANumber(neg)
  {
    hide TagLength;
    var s := w + t;
    TagTaken(t);
    WordIsStart(w, [0x4E, 0x41, 0x4E], NAN, t);
    assert s[|NAN|..] == t;
    assert s[0] == w[0] && !IsLetter(s[0], INF[0]) && !IsLetter(s[0], INFINITY[0]);
  }

  ghost predicate IsTaken(n: Numeral, neg: bool) {
    var s := TextOf(n);
    s != [] && s[0] != MINUS && UnsignedLength(s) == |s| && UnsignedValue(neg, s) == Value(neg, n)
  }

  lemma DecIsTaken(m: Mantissa, e: Exponent, neg: bool)
    requires IsNumeral(Dec(m, e))
    ensures IsTaken(Dec(m, e), neg)
  {
    hide UnsignedLength, UnsignedValue, TextOfMantissa, TextOfExponent, DecimalValue, HexadecimalValue, Round;
    hide IsHexFloat, ValidMantissa, ValidExponent;
    DecimalStarts(m, e);
    DecimalTaken(m, e, neg);
  }

  lemma HexIsTaken(x: byte, m: Mantissa, e: Exponent, neg: bool)
    requires IsNumeral(Hex(x, m, e))
    ensures IsTaken(Hex(x, m, e), neg)
  {
    hide UnsignedLength, UnsignedValue, TextOfMantissa, TextOfExponent, DecimalValue, HexadecimalValue, Round;
    hide ValidMantissa, ValidExponent;
    HexTaken(x, m, e, neg);
    assert [0x30, x] + (TextOfMantissa(m) + TextOfExponent(e)) == TextOf(Hex(x, m, e));
  }

  lemma UnsignedTaken(n: Numeral, neg: bool)
    requires IsNumeral(n)
    ensures IsTaken(n, neg)
  {
    match n
    case Dec(m, e) => DecIsTaken(m, e, neg);
    case Hex(x, m, e) => HexIsTaken(x, m, e, neg);
    case Inf(w) =>
      InfTaken(w, neg);
      hide UnsignedLength, UnsignedValue;
    case Nan(w, t) =>
      NanTaken(w, t, neg);
      hide UnsignedLength, UnsignedValue;
  }

  /** Every numeral, with a minus sign or without, is taken whole, and for the number that it is written for. */
  lemma NumeralTaken(neg: bool, n: Numeral)
    requires IsNumeral(n)
    ensures var t := SignText(neg) + TextOf(n); NumberLength(t) == |t| > 0 && NumberValue(t) == Value(neg, n)
  {
    hide IsNumeral, UnsignedLength, UnsignedValue, TextOf, Value;
    UnsignedTaken(n, neg);
    var t := SignText(neg) + TextOf(n);
    if neg {
      assert t[1..] == TextOf(n);
    } else {
      assert t == TextOf(n);
    }
  }

  // ---- nothing else is taken ----

  lemma MantissaSound(base: nat, s: bytes) returns (m: Mantissa)
    requires (base == 10 || base == 16) && MantissaLength(KindOf(base), s) > 0
    ensures ValidMantissa(base, m) && TextOfMantissa(m) == s[..MantissaLength(KindOf(base), s)]
  {
    hide KindOf, AllDigitsOf;
    var i := Run(KindOf(base), s);
    KindAgrees(base, s[..i]);
    if i < |s| && s[i] == POINT {
      var behind := s[i + 1..];
      var f := Run(KindOf(base), behind);
      KindAgrees(base, behind[..f]);
      m := Mantissa(s[..i], true, behind[..f]);
      assert s[..i + (1 + f)] == s[..i] + ([s[i]] + behind[..f]);
    } else {
      KindAgrees(base, []);
      m := Mantissa(s[..i], false, []);
      assert s[..i] + [] == s[..i];
    }
  }

  lemma ExponentSound(upper: byte, lower: byte, s: bytes) returns (e: Exponent)
    requires upper == lower - 0x20
    ensures ValidExponent(upper, lower, e) && TextOfExponent(e) == s[..ExponentLength(lower, s)]
  {
    if ExponentLength(lower, s) == 0 {
      e := NoExponent;
    } else {
      var k := if |s| > 1 && (s[1] == PLUS || s[1] == MINUS) then 2 else 1;
      var d := Run(IsDigit, s[k..]);
      KindAgrees(10, s[k..][..d]);
      hide Run, IsDigit, AllDigitsOf;
      e := Exponent(s[0], s[1..k], s[k..][..d]);
      assert s[..k + d] == [s[0]] + s[1..k] + s[k..][..d];
    }
  }

  lemma FloatSound(base: nat, upper: byte, lower: byte, s: bytes) returns (m: Mantissa, e: Exponent)
    requires (base == 10 && upper == 0x45 && lower == 0x65) || (base == 16 && upper == 0x50 && lower == 0x70)
    requires FloatLength(KindOf(base), lower, s) > 0
    ensures ValidMantissa(base, m) && ValidExponent(upper, lower, e)
    ensures TextOfMantissa(m) + TextOfExponent(e) == s[..FloatLength(KindOf(base), lower, s)]
  {
    hide KindOf, MantissaLength, ExponentLength, TextOfMantissa, TextOfExponent, ValidMantissa, ValidExponent;
    var n := MantissaLength(KindOf(base), s);
    m := MantissaSound(base, s);
    e := ExponentSound(upper, lower, s[n..]);
    var k := ExponentLength(lower, s[n..]);
    assert s[..n + k] == s[..n] + s[n..][..k];
  }

  lemma WordSound(s: bytes, upper: bytes, word: bytes)
    requires |upper| == |word| && (forall i :: 0 <= i < |word| ==> upper[i] == word[i] - 0x20) && StartsWith(s, word)
    ensures IsWord(s[..|word|], upper, word)
  {
  }

  lemma TagSound(s: bytes)
    ensures var t := s[..TagLength(s)]; t == [] || IsTag(t)
  {
    if TagLength(s) > 0 {
      var k := Run(IsNanChar, s[1..]);
      var t := s[..k + 2];
      assert forall i :: 1 <= i < k + 1 ==> t[i] == s[1..][i - 1];
    }
  }

  lemma UnsignedSound(s: bytes) returns (n: Numeral)
    requires UnsignedLength(s) == |s| > 0
    ensures IsNumeral(n) && TextOf(n) == s
  {
    hide FloatLength, TagLength, StartsWith, IsTag, ValidMantissa, ValidExponent, TextOfMantissa, TextOfExponent;
    hide MantissaLength;
    if StartsWith(s, INFINITY) {
      WordSound(s, [0x49, 0x4E, 0x46, 0x49, 0x4E, 0x49, 0x54, 0x59], INFINITY);
      assert s[..|INFINITY|] == s;
      n := Inf(s);
    } else if StartsWith(s, INF) {
      WordSound(s, [0x49, 0x4E, 0x46], INF);
      assert s[..|INF|] == s;
      n := Inf(s);
    } else if StartsWith(s, NAN) {
      var t := s[|NAN|..];
      WordSound(s, [0x4E, 0x41, 0x4E], NAN);
      TagSound(t);
      assert t[..TagLength(t)] == t && s == s[..|NAN|] + t;
      n := Nan(s[..|NAN|], t);
    } else if IsHexFloat(s) {
      n := HexSound(s);
    } else {
      var m, e := FloatSound(10, 0x45, 0x65, s);
      n := Dec(m, e);
      assert s[..|s|] == s;
    }
  }

  lemma HexSound(s: bytes) returns (n: Numeral)
    requires IsHexFloat(s) && 2 + FloatLength(IsHex, 0x70, s[2..]) == |s|
    ensures IsNumeral(n) && TextOf(n) == s
  {
    hide FloatLength, ValidMantissa, ValidExponent, TextOfMantissa, TextOfExponent;
    var t := s[2..];
    assert FloatLength(IsHex, 0x70, t) > 0 by { FloatHasMantissa(t); }
    var m, e := FloatSound(16, 0x50, 0x70, t);
    n := Hex(s[1], m, e);
    assert t[..|t|] == t && s == [s[0], s[1]] + t;
    var head, a, b := [s[0], s[1]], TextOfMantissa(m), TextOfExponent(e);
    assert head + a + b == head + (a + b);
  }

  lemma FloatHasMantissa(t: bytes)
    requires MantissaLength(IsHex, t) > 0
    ensures FloatLength(IsHex, 0x70, t) > 0
  {
  }

  /** A numeral with a minus sign or without. */
  ghost predicate IsSigned(t: bytes, neg: bool, n: Numeral) {
    IsNumeral(n) && t == SignText(neg) + TextOf(n)
  }

  ghost predicate IsNumeralText(t: bytes) {
    exists neg, n :: IsSigned(t, neg, n)
  }

  lemma NumberSoundly(t: bytes) returns (neg: bool, n: Numeral)
    requires NumberLength(t) == |t| > 0
    ensures IsSigned(t, neg, n)
  {
    hide UnsignedLength, IsNumeral, TextOf;
    neg := t[0] == MINUS;
    if neg {
      n := UnsignedSound(t[1..]);
      assert t == [0x2D] + t[1..];
    } else {
      n := UnsignedSound(t);
      assert [] + t == t;
    }
  }

  /** `strtod` takes the longest numeral that a text starts with, or nothing if it starts with none. */
  lemma LongestNumeral(s: bytes)
    ensures NumberLength(s) > 0 ==> IsNumeralText(s[..NumberLength(s)])
    ensures forall k :: 0 <= k <= |s| && IsNumeralText(s[..k]) ==> k <= NumberLength(s)
  {
    hide NumberLength, IsSigned;
    if NumberLength(s) > 0 {
      NumberAlone(s);
      var neg, n := NumberSoundly(s[..NumberLength(s)]);
    }
    forall k | 0 <= k <= |s| && IsNumeralText(s[..k])
      ensures k <= NumberLength(s)
    {
      var neg, n :| IsSigned(s[..k], neg, n);
      SignedTaken(s[..k], neg, n);
      assert s[..k] + s[k..] == s;
      if NumberLength(s) < k {
        NumberGrows(s[..k], s[k..]);
      }
    }
  }

  lemma SignedTaken(t: bytes, neg: bool, n: Numeral)
    requires IsSigned(t, neg, n)
    ensures NumberLength(t) == |t| > 0 && NumberValue(t) == Value(neg, n)
  {
    hide IsNumeral, NumberLength, NumberValue, TextOf, Value;
    NumeralTaken(neg, n);
  }
}
