/** What the JSON printer writes, byte by byte. */
module JsonPrinted {
  import opened Bytes
  import opened Binary64
  import opened Decimal
  import opened Numerals
  import opened NumberFormat
  import opened Seventeen
  import opened Json
  import opened JsonTokens

  // ---- words, arrays and objects ----

  lemma PrintedWords()
    ensures Print(Null) == [0x6E, 0x75, 0x6C, 0x6C]
    ensures Print(Bool(true)) == [0x74, 0x72, 0x75, 0x65]
    ensures Print(Bool(false)) == [0x66, 0x61, 0x6C, 0x73, 0x65]
  {
  }

  function Printed(es: seq<Json>): seq<bytes> {
    seq(|es|, i requires 0 <= i < |es| => Print(es[i]))
  }

  lemma {:induction false} CommasOfElems(es: seq<Json>)
    ensures PrintElems(es) == Commas(Printed(es))
  {
    hide Print;
    if es == [] {
    } else {
      CommasOfElems(es[1..]);
      assert Printed(es)[1..] == Printed(es[1..]);
    }
  }

  lemma PrintedArray(es: seq<Json>)
    ensures Print(Arr(es)) == [0x5B] + Commas(Printed(es)) + [0x5D]
  {
    CommasOfElems(es);
  }

  function PrintedMember(m: Member<Json>): bytes {
    Print(Str(m.key)) + [0x3A] + Print(m.value)
  }

  function PrintedMembers(ms: seq<Member<Json>>): seq<bytes> {
    seq(|ms|, i requires 0 <= i < |ms| => PrintedMember(ms[i]))
  }

  lemma {:induction false} CommasOfMembers(ms: seq<Member<Json>>)
    ensures PrintMembers(ms) == Commas(PrintedMembers(ms))
  {
    if ms == [] {
    } else {
      CommasOfMembers(ms[1..]);
      assert PrintedMembers(ms)[1..] == PrintedMembers(ms[1..]);
      assert PrintedMember(ms[0]) == StringText(ms[0].key) + [COLON] + Print(ms[0].value);
    }
  }

  lemma PrintedObject(ms: seq<Member<Json>>)
    ensures Print(Obj(ms)) == [0x7B] + Commas(PrintedMembers(ms)) + [0x7D]
  {
    CommasOfMembers(ms);
  }

  // ---- strings ----

  /** A hexadecimal digit, of a number below sixteen. */
  function HexLetter(x: byte): byte {
    if x == 0 then 0x30
    else if x == 1 then 0x31
    else if x == 2 then 0x32
    else if x == 3 then 0x33
    else if x == 4 then 0x34
    else if x == 5 then 0x35
    else if x == 6 then 0x36
    else if x == 7 then 0x37
    else if x == 8 then 0x38
    else if x == 9 then 0x39
    else if x == 10 then 0x61
    else if x == 11 then 0x62
    else if x == 12 then 0x63
    else if x == 13 then 0x64
    else if x == 14 then 0x65
    else 0x66
  }

  /** How a byte of a string is written: the other control characters as `\u00` and two hexadecimal digits. */
  function Written(c: byte): bytes {
    if c == 0x22 then [0x5C, 0x22]
    else if c == 0x5C then [0x5C, 0x5C]
    else if c == 0x0A then [0x5C, 0x6E]
    else if c == 0x0D then [0x5C, 0x72]
    else if c == 0x09 then [0x5C, 0x74]
    else if c < 0x10 then [0x5C, 0x75, 0x30, 0x30, 0x30, HexLetter(c)]
    else if c < 0x20 then [0x5C, 0x75, 0x30, 0x30, 0x31, HexLetter(c - 0x10)]
    else [c]
  }

  lemma EscapeIsWritten(c: byte)
    ensures EscapeByte(c) == Written(c)
  {
    if c < 0x20 {
      HighNibble(c);
      LetterOfHex(c & 0xF);
    }
  }

  lemma HighNibble(c: byte)
    requires c < 0x20
    ensures c >> 4 == (if c < 0x10 then 0 else 1) && c & 0xF == (if c < 0x10 then c else c - 0x10) < 16
  {
  }

  lemma LetterOfHex(x: byte)
    requires x < 16
    ensures HexByte(x) == HexLetter(x)
  {
  }

  function AllWritten(s: bytes): seq<bytes> {
    seq(|s|, i requires 0 <= i < |s| => Written(s[i]))
  }

  lemma {:induction false} EscapesAreWritten(s: bytes)
    ensures EscapeBytes(s) == Joined(AllWritten(s))
  {
    hide EscapeByte, Written;
    if s == [] {
    } else {
      EscapeIsWritten(s[0]);
      EscapesAreWritten(s[1..]);
      assert AllWritten(s)[1..] == AllWritten(s[1..]);
    }
  }

  lemma PrintedString(s: bytes)
    ensures Print(Str(s)) == [0x22] + Joined(AllWritten(s)) + [0x22]
  {
    EscapesAreWritten(s);
  }

  // ---- numbers ----

  ghost predicate OnlyZeros(s: bytes) {
    forall i :: 0 <= i < |s| ==> s[i] == 0x30
  }

  /** Whole numbers below ten to the 15: `%lld`. */
  lemma PrintedWhole(x: Number, n: nat)
    requires x.Finite? && Magnitude(x) == n as real && n < 1_000_000_000_000_000
    ensures var t := NumberText(x);
            if x.neg && n > 0 then t != [] && t[0] == 0x2D && IsDecimal(t[1..], n) else IsDecimal(t, n)
  {
    hide Magnitude, DigitsText, IsDecimal;
    DigitsAreDecimal(n);
    assert (n as real).Floor == n;
    IntTextSigned(x.neg, n);
    assert ([0x2D] + DigitsText(n))[1..] == DigitsText(n) && [] + DigitsText(n) == DigitsText(n);
  }

  /** An exponent of two digits at least, and no more than it needs. */
  ghost predicate IsExponent(e: bytes, x: int) {
    && |e| >= 4 && e[0] == 0x65 && e[1] == (if x < 0 then 0x2D else 0x2B)
    && AllDigitsOf(10, e[2..]) && Worth(10, e[2..]) == (if x < 0 then -x else x) && (|e| > 4 ==> e[2] != 0x30)
  }

  /**
   Digits in the style of `%g` (section 7.21.6.1 of C17), without zeros at the end: with an
   exponent if that of the first digit is less than -4 or reaches the precision.
   */
  ghost predicate IsGeneral(t: bytes, ds: bytes, precision: nat, x: int)
    requires ds != []
  {
    if x < -4 || x >= precision then
      exists e :: IsExponent(e, x) && t == ds[..1] + (if |ds| > 1 then [0x2E] + ds[1..] else []) + e
    else if x < 0 then exists z :: OnlyZeros(z) && |z| == -x - 1 && t == [0x30, 0x2E] + z + ds
    else if x + 1 < |ds| then t == ds[..x + 1] + [0x2E] + ds[x + 1..]
    else exists z :: OnlyZeros(z) && |z| == x + 1 - |ds| && t == ds + z
  }

  lemma {:induction false} TrimSplits(f: bytes) returns (z: bytes)
    ensures OnlyZeros(z) && f == Trim(f) + z && (Trim(f) == [] || Trim(f)[|Trim(f)| - 1] != 0x30)
  {
    if f != [] && f[|f| - 1] == ZERO {
      var init := f[..|f| - 1];
      var more := TrimSplits(init);
      z := more + [ZERO];
      assert f == init + [ZERO];
    } else {
      z := [];
    }
  }

  lemma {:induction false} TrimBehind(a: bytes, f: bytes)
    ensures Trim(f) != [] ==> Trim(a + f) == a + Trim(f)
    ensures Trim(f) == [] ==> Trim(a + f) == Trim(a)
  {
    if f == [] {
      assert a + f == a;
    } else if f[|f| - 1] == ZERO {
      TrimBehind(a, f[..|f| - 1]);
      assert (a + f)[..|a + f| - 1] == a + f[..|f| - 1];
    }
  }

  /** Digits of which the first is not zero, cut in two: the zeros at the end are those of the second part, or more. */
  lemma TrimInTwo(s: bytes, j: nat)
    requires 0 < j <= |s| && s[0] != 0x30
    ensures Trim(s) != []
    ensures Trim(s[j..]) != [] ==> Trim(s) == s[..j] + Trim(s[j..])
    ensures Trim(s[j..]) == [] ==> |Trim(s)| <= j && OnlyZeros(s[|Trim(s)|..j]) && s[..|Trim(s)|] == Trim(s)
  {
    hide Trim;
    assert s == s[..j] + s[j..];
    TrimBehind(s[..j], s[j..]);
    var z := TrimSplits(s);
    assert Trim(s) == [] ==> s == z;
    if Trim(s[j..]) == [] {
      var y := TrimSplits(s[..j]);
      assert s[|Trim(s)|..j] == y;
    }
  }

  lemma ExponentShape(x: int)
    ensures IsExponent(ExponentText(x), x)
  {
    hide DigitsText, Worth;
    var n := if x < 0 then -x else x;
    ExponentDigitsRead(n);
    DigitsAreDecimal(n);
    var e := ExponentText(x);
    assert e[2..] == ExponentDigits(n);
    TwoDigits(n);
  }

  lemma TwoDigits(n: nat)
    ensures |ExponentDigits(n)| >= 2 && (|ExponentDigits(n)| > 2 ==> n >= 10)
  {
    assert n < 10 ==> |DigitsText(n)| == 1;
    assert n >= 10 ==> |DigitsText(n)| > 1;
  }

  /** Seventeen digits, in the style of `%.17g`. */
  lemma GeneralShape(d: nat, k: int) returns (ds: bytes, z: bytes)
    requires 10_000_000_000_000_000 <= d < 100_000_000_000_000_000
    ensures |DigitsText(d)| == 17
    ensures ds != [] && ds[0] != 0x30 && ds[|ds| - 1] != 0x30 && OnlyZeros(z) && |ds| + |z| == 17
    ensures AllDigitsOf(10, ds + z) && Worth(10, ds + z) == d && IsGeneral(General(d, k), ds, 17, k + 16)
  {
    hide DigitsText, Worth, Trim, ExponentText, AllDigitsOf, IsExponent;
    SeventeenLong(d);
    DigitsAreDecimal(d);
    var s, x := DigitsText(d), k + 16;
    z := TrimSplits(s);
    ds := Trim(s);
    TrimInTwo(s, 1);
    assert ds[0] == s[0];
    if x < -4 || x > 16 {
      ExponentShape(x);
      assert s[..1] == ds[..1] && (|ds| > 1 ==> Trim(s[1..]) == ds[1..]);
    } else if x >= 0 {
      TrimInTwo(s, x + 1);
      if |ds| <= x + 1 {
        assert s[..x + 1] == ds + s[|ds|..x + 1];
      }
    } else {
      var zeros := Zeros(-x - 1);
      TrimBehind(zeros, s);
      assert [0x30] + [0x2E] + (zeros + ds) == [0x30, 0x2E] + zeros + ds;
    }
  }

  /** Other finite numbers: the nearest 17 digits, in that style. */
  lemma PrintedFraction(x: Number) returns (d: nat, k: int, ds: bytes, z: bytes)
    requires x.Finite? && (Magnitude(x) >= 1_000_000_000_000_000.0 || Magnitude(x) != Magnitude(x).Floor as real)
    ensures Distance(Magnitude(x), Times(d as real, Pow(10, k))) <= 0.5 * Pow(10, k)
    ensures ds != [] && ds[0] != 0x30 && ds[|ds| - 1] != 0x30 && OnlyZeros(z) && |ds| + |z| == 17
    ensures AllDigitsOf(10, ds + z) && Worth(10, ds + z) == d
    ensures var t := NumberText(x);
            if x.neg then t != [] && t[0] == 0x2D && IsGeneral(t[1..], ds, 17, k + 16)
            else IsGeneral(t, ds, 17, k + 16)
  {
    hide Magnitude, Digits17, General, Pow, Times, Distance, IsGeneral, Worth, AllDigitsOf;
    MagnitudeIsPositive(x);
    assert !IsWhole(x);
    SeventeenDigits(x);
    var digits := Digits17(Magnitude(x));
    d, k := digits.0, digits.1;
    NearestSeventeen(x);
    ds, z := GeneralShape(d, k);
    assert ([0x2D] + General(d, k))[1..] == General(d, k) && [] + General(d, k) == General(d, k);
  }

  lemma NearestSeventeen(x: Number)
    requires x.Finite? && x.m > 0
    ensures Magnitude(x) >= 0.0
    ensures var (d, k) := Digits17(Magnitude(x));
            Distance(Magnitude(x), Times(d as real, Pow(10, k))) <= 0.5 * Pow(10, k)
  {
    hide Pow, Times, Distance, Magnitude;
    InBounds(x);
    var p := DigitsAreClose(Magnitude(x));
  }

  /** What is infinite or undefined. */
  lemma PrintedOther(neg: bool)
    ensures NumberText(Infinite(neg)) == (if neg then [0x2D, 0x69, 0x6E, 0x66] else [0x69, 0x6E, 0x66])
    ensures NumberText(NotANumber(neg)) == (if neg then [0x2D, 0x6E, 0x61, 0x6E] else [0x6E, 0x61, 0x6E])
  {
  }
}
