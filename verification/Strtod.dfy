/**
 Numbers as the C library reads and writes them: which bytes `strtod` takes for a number and
 which number they are (section 7.22.1.3 of C17), rounded to the nearest.
 */
module Strtod {
  import opened Bytes
  import opened Decimal
  import opened Binary64

  const POINT: byte := 0x2E
  const PLUS: byte := 0x2B

  // ---- the bytes of a number ----

  /** How many bytes at the head of `s` are of a kind. */
  function Run(kind: byte -> bool, s: bytes): (k: nat)
    ensures k <= |s|
    ensures forall i :: 0 <= i < k ==> kind(s[i])
    ensures k < |s| ==> !kind(s[k])
  {
    if s == [] || !kind(s[0]) then 0 else 1 + Run(kind, s[1..])
  }

  /** A letter in either case. */
  predicate IsLetter(c: byte, lower: byte) {
    c == lower || c == lower - 0x20
  }

  predicate IsAlpha(c: byte) {
    0x41 <= c <= 0x5A || 0x61 <= c <= 0x7A
  }

  predicate IsHex(c: byte) {
    IsDigit(c) || 0x41 <= c <= 0x46 || 0x61 <= c <= 0x66
  }

  /** What may stand in the parentheses behind `nan`. */
  predicate IsNanChar(c: byte) {
    IsDigit(c) || IsAlpha(c) || c == 0x5F
  }

  /** Whether a text starts with a word, in either case. */
  predicate StartsWith(s: bytes, word: bytes) {
    |word| <= |s| && forall i :: 0 <= i < |word| ==> IsLetter(s[i], word[i])
  }

  const INF: bytes := [0x69, 0x6E, 0x66]
  const INFINITY: bytes := [0x69, 0x6E, 0x66, 0x69, 0x6E, 0x69, 0x74, 0x79]
  const NAN: bytes := [0x6E, 0x61, 0x6E]

  /** Digits, and a point and digits, of which there have to be some. */
  function MantissaLength(digit: byte -> bool, s: bytes): (n: nat)
    ensures n <= |s|
  {
    var i := Run(digit, s);
    var f := if i < |s| && s[i] == POINT then 1 + Run(digit, s[i + 1..]) else 0;
    if i + f == 0 || (i == 0 && f == 1) then 0 else i + f
  }

  /** An exponent: a letter, a sign or none, and digits; or nothing. */
  function ExponentLength(letter: byte, s: bytes): (n: nat)
    ensures n <= |s|
  {
    if s == [] || !IsLetter(s[0], letter) then 0
    else
      var k := if |s| > 1 && (s[1] == PLUS || s[1] == MINUS) then 2 else 1;
      var d := Run(IsDigit, s[k..]);
      if d == 0 then 0 else k + d
  }

  /** A mantissa and an exponent. */
  function FloatLength(digit: byte -> bool, letter: byte, s: bytes): (n: nat)
    ensures n <= |s|
  {
    var n := MantissaLength(digit, s);
    if n == 0 then 0 else n + ExponentLength(letter, s[n..])
  }

  /** Behind `nan`: characters in parentheses, or nothing. */
  function TagLength(s: bytes): (n: nat)
    ensures n <= |s|
  {
    if s == [] || s[0] != 0x28 then 0
    else
      var k := Run(IsNanChar, s[1..]);
      if 1 + k < |s| && s[1 + k] == 0x29 then k + 2 else 0
  }

  predicate IsHexFloat(s: bytes) {
    |s| > 2 && s[0] == 0x30 && IsLetter(s[1], 0x78) && MantissaLength(IsHex, s[2..]) > 0
  }

  /** How many bytes at the head of `s` are a number without a sign. */
  function UnsignedLength(s: bytes): (n: nat)
    ensures n <= |s|
  {
    if StartsWith(s, INFINITY) then |INFINITY|
    else if StartsWith(s, INF) then |INF|
    else if StartsWith(s, NAN) then |NAN| + TagLength(s[|NAN|..])
    else if IsHexFloat(s) then 2 + FloatLength(IsHex, 0x70, s[2..])
    else FloatLength(IsDigit, 0x65, s)
  }

  function NumberLength(s: bytes): (n: nat)
    ensures n <= |s|
  {
    if s != [] && s[0] == MINUS then
      var n := UnsignedLength(s[1..]);
      if n == 0 then 0 else 1 + n
    else UnsignedLength(s)
  }

  // ---- which number they are ----

  function HexValue(c: byte): nat {
    if 0x41 <= c <= 0x46 then (c - 0x41) as nat + 10
    else if 0x61 <= c <= 0x66 then (c - 0x61) as nat + 10
    else DigitValue(c)
  }

  function HexDigitsValue(s: bytes): nat {
    if s == [] then 0 else 16 * HexDigitsValue(s[..|s| - 1]) + HexValue(s[|s| - 1])
  }

  /** The number of an exponent, 0 if there is none. */
  function ExponentValue(letter: byte, s: bytes): int {
    if ExponentLength(letter, s) == 0 then 0
    else if s[1] == MINUS then -(DigitsValue(s[2..ExponentLength(letter, s)]) as int)
    else if s[1] == PLUS then DigitsValue(s[2..ExponentLength(letter, s)])
    else DigitsValue(s[1..ExponentLength(letter, s)])
  }

  /** The digits of a mantissa without its point, and how many of them are behind it. */
  function MantissaDigits(digit: byte -> bool, s: bytes): (bytes, nat) {
    var i := Run(digit, s);
    if i < |s| && s[i] == POINT then
      var f := Run(digit, s[i + 1..]);
      (s[..i] + s[i + 1..i + 1 + f], f)
    else (s[..i], 0)
  }

  function DecimalSize(s: bytes): (y: real)
    ensures y >= 0.0
  {
    var (ds, f) := MantissaDigits(IsDigit, s);
    var e := ExponentValue(0x65, s[MantissaLength(IsDigit, s)..]);
    Scaled(DigitsValue(ds), 10, e - f)
  }

  function HexSize(s: bytes): (y: real)
    ensures y >= 0.0
  {
    var (ds, f) := MantissaDigits(IsHex, s);
    var e := ExponentValue(0x70, s[MantissaLength(IsHex, s)..]);
    Scaled(HexDigitsValue(ds), 2, e - 4 * f)
  }

  function Scaled(n: nat, b: nat, e: int): (y: real)
    requires b > 0
    ensures y >= 0.0
  {
    PowPositive(b, e);
    TimesOrder(0.0, n as real, Pow(b, e));
    TimesTwice(0.0, Pow(b, e));
    Times(n as real, Pow(b, e))
  }

  function UnsignedValue(neg: bool, s: bytes): Number {
    if StartsWith(s, INF) then Infinite(neg)
    else if StartsWith(s, NAN) then NotANumber(neg)
    else if IsHexFloat(s) then Rounded(neg, HexSize(s[2..]))
    else Rounded(neg, DecimalSize(s))
  }

  function Rounded(neg: bool, y: real): (x: Number)
    requires y >= 0.0
    ensures x == Round(neg, y)
  {
    RoundIsDouble(neg, y);
    Round(neg, y)
  }

  /** The number that the bytes at the head of `s` are. */
  function NumberValue(s: bytes): Number {
    if s != [] && s[0] == MINUS then UnsignedValue(true, s[1..]) else UnsignedValue(false, s)
  }

  /** What the reader takes for a number at the start of a text. */
  predicate StartsNumber(s: bytes) {
    s != [] && (s[0] == MINUS || IsDigit(s[0]))
  }

  /** A text that is a number to the reader, and which. */
  ghost predicate IsNumberText(t: bytes, x: Double) {
    StartsNumber(t) && NumberLength(t) == |t| && NumberValue(t) == x
  }

  lemma DigitStartsNoWord(s: bytes)
    requires s != [] && IsDigit(s[0])
    ensures !StartsWith(s, INF) && !StartsWith(s, INFINITY) && !StartsWith(s, NAN)
  {
    assert !IsLetter(s[0], INF[0]) && !IsLetter(s[0], INFINITY[0]) && !IsLetter(s[0], NAN[0]);
  }

  // ---- a number ends where it ends ----

  /** The bytes that occur in numbers. */
  predicate InNumber(c: byte) {
    IsDigit(c) || IsAlpha(c) || c == POINT || c == PLUS || c == MINUS || c == 0x28 || c == 0x29 || c == 0x5F
  }

  ghost predicate AllInNumber(s: bytes) {
    forall i :: 0 <= i < |s| ==> InNumber(s[i])
  }

  lemma RunGrows(kind: byte -> bool, t: bytes, r: bytes)
    ensures Run(kind, t) <= Run(kind, t + r)
    ensures Run(kind, t + r) <= |t| ==> Run(kind, t) == Run(kind, t + r)
  {
    var k := Run(kind, t);
    assert forall i :: 0 <= i < |t| ==> (t + r)[i] == t[i];
    if k < |t| {
      assert (t + r)[k] == t[k];
    }
  }

  lemma MantissaGrows(digit: byte -> bool, t: bytes, r: bytes)
    ensures MantissaLength(digit, t) <= MantissaLength(digit, t + r)
    ensures MantissaLength(digit, t + r) <= |t| ==> MantissaLength(digit, t) == MantissaLength(digit, t + r)
  {
    var i := Run(digit, t);
    RunGrows(digit, t, r);
    if i < |t| {
      assert Run(digit, t + r) == i by { RunStays(digit, t, r); }
      assert (t + r)[i] == t[i] && (t + r)[i + 1..] == t[i + 1..] + r;
      RunGrows(digit, t[i + 1..], r);
    }
  }

  lemma RunStays(kind: byte -> bool, t: bytes, r: bytes)
    requires Run(kind, t) < |t|
    ensures Run(kind, t + r) == Run(kind, t)
  {
    RunGrows(kind, t, r);
    var k := Run(kind, t);
    assert (t + r)[k] == t[k];
  }

  lemma ExponentGrows(letter: byte, t: bytes, r: bytes)
    ensures ExponentLength(letter, t) <= ExponentLength(letter, t + r)
    ensures ExponentLength(letter, t + r) <= |t| ==> ExponentLength(letter, t) == ExponentLength(letter, t + r)
  {
    hide Run;
    var s := t + r;
    if t != [] && IsLetter(t[0], letter) {
      assert s[0] == t[0];
      var k := if |t| > 1 && (t[1] == PLUS || t[1] == MINUS) then 2 else 1;
      if |t| > 1 {
        assert s[1] == t[1] && s[k..] == t[k..] + r;
        RunGrows(IsDigit, t[k..], r);
      } else {
        assert t[k..] == [];
        assert Run(IsDigit, []) == 0;
      }
    } else if t != [] {
      assert s[0] == t[0];
    }
  }

  lemma FloatGrows(digit: byte -> bool, letter: byte, t: bytes, r: bytes)
    requires FloatLength(digit, letter, t + r) <= |t|
    ensures FloatLength(digit, letter, t) == FloatLength(digit, letter, t + r)
  {
    hide MantissaLength, ExponentLength;
    MantissaGrows(digit, t, r);
    var n := MantissaLength(digit, t);
    if MantissaLength(digit, t + r) > 0 {
      assert (t + r)[n..] == t[n..] + r;
      ExponentGrows(letter, t[n..], r);
    }
  }

  lemma TagGrows(t: bytes, r: bytes)
    requires TagLength(t + r) <= |t|
    ensures TagLength(t) == TagLength(t + r)
  {
    var s := t + r;
    if t != [] {
      assert s[0] == t[0] && s[1..] == t[1..] + r;
      RunGrows(IsNanChar, t[1..], r);
      var k := Run(IsNanChar, t[1..]);
      if 1 + k < |t| {
        RunStays(IsNanChar, t[1..], r);
        assert s[1 + k] == t[1 + k];
      }
    }
  }

  lemma StartGrows(t: bytes, r: bytes, word: bytes)
    ensures StartsWith(t, word) ==> StartsWith(t + r, word)
    ensures StartsWith(t + r, word) && |word| <= |t| ==> StartsWith(t, word)
  {
    if |word| <= |t| {
      assert forall i :: 0 <= i < |word| ==> (t + r)[i] == t[i];
    }
  }

  lemma HexGrows(t: bytes, r: bytes)
    ensures IsHexFloat(t) ==> IsHexFloat(t + r)
    ensures IsHexFloat(t + r) && 2 + FloatLength(IsHex, 0x70, (t + r)[2..]) <= |t| ==>
              IsHexFloat(t) && FloatLength(IsHex, 0x70, t[2..]) == FloatLength(IsHex, 0x70, (t + r)[2..])
  {
    hide MantissaLength, ExponentLength;
    if |t| > 2 {
      assert (t + r)[0] == t[0] && (t + r)[1] == t[1] && (t + r)[2..] == t[2..] + r;
      MantissaGrows(IsHex, t[2..], r);
      if 2 + FloatLength(IsHex, 0x70, (t + r)[2..]) <= |t| {
        FloatGrows(IsHex, 0x70, t[2..], r);
      }
    }
  }

  /** What is behind a number does not matter. */
  lemma UnsignedGrows(t: bytes, r: bytes)
    requires UnsignedLength(t + r) <= |t|
    ensures UnsignedLength(t) == UnsignedLength(t + r)
  {
    hide FloatLength, TagLength, IsHexFloat, StartsWith;
    StartGrows(t, r, INFINITY);
    StartGrows(t, r, INF);
    StartGrows(t, r, NAN);
    HexGrows(t, r);
    if StartsWith(t + r, NAN) && |NAN| <= |t| {
      assert (t + r)[|NAN|..] == t[|NAN|..] + r;
      if TagLength((t + r)[|NAN|..]) <= |t| - |NAN| {
        TagGrows(t[|NAN|..], r);
      }
    }
    if FloatLength(IsDigit, 0x65, t + r) <= |t| {
      FloatGrows(IsDigit, 0x65, t, r);
    }
  }

  lemma NumberGrows(t: bytes, r: bytes)
    requires NumberLength(t + r) <= |t|
    ensures NumberLength(t) == NumberLength(t + r)
  {
    hide UnsignedLength;
    if t == [] {
    } else if t[0] == MINUS {
      assert (t + r)[0] == MINUS && (t + r)[1..] == t[1..] + r;
      UnsignedGrows(t[1..], r);
    } else {
      assert (t + r)[0] == t[0];
      UnsignedGrows(t, r);
    }
  }

  /** Bytes that numbers are made of. */
  ghost predicate Made(kind: byte -> bool) {
    forall c :: kind(c) ==> InNumber(c)
  }

  lemma MantissaBytes(digit: byte -> bool, s: bytes)
    requires Made(digit)
    ensures AllInNumber(s[..MantissaLength(digit, s)])
  {
    var i := Run(digit, s);
    if i < |s| && s[i] == POINT {
      var f := Run(digit, s[i + 1..]);
      assert s[..i + 1 + f] == s[..i] + [POINT] + s[i + 1..][..f];
    }
  }

  lemma ExponentBytes(letter: byte, s: bytes)
    requires 0x61 <= letter <= 0x7A
    ensures AllInNumber(s[..ExponentLength(letter, s)])
  {
    if ExponentLength(letter, s) > 0 {
      var k := if |s| > 1 && (s[1] == PLUS || s[1] == MINUS) then 2 else 1;
      assert s[..ExponentLength(letter, s)] == s[..k] + s[k..][..Run(IsDigit, s[k..])];
    }
  }

  lemma FloatBytes(digit: byte -> bool, letter: byte, s: bytes)
    requires Made(digit) && 0x61 <= letter <= 0x7A
    ensures AllInNumber(s[..FloatLength(digit, letter, s)])
  {
    hide MantissaLength, ExponentLength;
    var n := MantissaLength(digit, s);
    if n > 0 {
      MantissaBytes(digit, s);
      ExponentBytes(letter, s[n..]);
      assert s[..FloatLength(digit, letter, s)] == s[..n] + s[n..][..ExponentLength(letter, s[n..])];
    }
  }

  lemma WordBytes(s: bytes, word: bytes)
    requires StartsWith(s, word) && forall i :: 0 <= i < |word| ==> 0x61 <= word[i] <= 0x7A
    ensures |word| <= |s| && AllInNumber(s[..|word|])
  {
    forall i | 0 <= i < |word|
      ensures InNumber(s[i])
    {
      assert IsLetter(s[i], word[i]);
    }
  }

  lemma TagBytes(s: bytes)
    ensures AllInNumber(s[..TagLength(s)])
  {
    if TagLength(s) > 0 {
      var k := Run(IsNanChar, s[1..]);
      assert s[..k + 2] == [s[0]] + s[1..][..k] + [s[1 + k]];
    }
  }

  lemma HexBytes(s: bytes)
    requires IsHexFloat(s)
    ensures AllInNumber(s[..2 + FloatLength(IsHex, 0x70, s[2..])])
  {
    hide FloatLength, MantissaLength;
    FloatBytes(IsHex, 0x70, s[2..]);
    assert s[..2 + FloatLength(IsHex, 0x70, s[2..])] == [s[0], s[1]] + s[2..][..FloatLength(IsHex, 0x70, s[2..])];
  }

  lemma NumberBytes(s: bytes)
    ensures AllInNumber(s[..NumberLength(s)])
  {
    hide UnsignedLength, InNumber;
    if s != [] && s[0] == MINUS {
      var n := UnsignedLength(s[1..]);
      UnsignedBytes(s[1..]);
      MinusBytes(s[1..][..n]);
      assert s[..1 + n] == [MINUS] + s[1..][..n];
    } else {
      UnsignedBytes(s);
    }
  }

  lemma MinusBytes(s: bytes)
    requires AllInNumber(s)
    ensures AllInNumber([MINUS] + s) && AllInNumber([])
  {
  }

  lemma UnsignedBytes(s: bytes)
    ensures AllInNumber(s[..UnsignedLength(s)])
  {
    hide FloatLength, TagLength, IsHexFloat, StartsWith;
    if StartsWith(s, INFINITY) {
      WordBytes(s, INFINITY);
    } else if StartsWith(s, INF) {
      WordBytes(s, INF);
    } else if StartsWith(s, NAN) {
      WordBytes(s, NAN);
      TagBytes(s[|NAN|..]);
      assert s[..UnsignedLength(s)] == s[..|NAN|] + s[|NAN|..][..TagLength(s[|NAN|..])];
    } else if IsHexFloat(s) {
      HexBytes(s);
    } else {
      FloatBytes(IsDigit, 0x65, s);
    }
  }

  /** Whether the text behind a number leaves the number as it is. */
  predicate EndsNumber(s: bytes) {
    s == [] || !InNumber(s[0])
  }

  lemma NumberByte(t: bytes, rest: bytes)
    requires NumberLength(t + rest) > |t|
    ensures rest != [] && InNumber(rest[0])
  {
    hide NumberLength, InNumber;
    var n := NumberLength(t + rest);
    NumberBytes(t + rest);
    assert (t + rest)[..n][|t|] == rest[0];
  }

  /** A number is read the same whatever follows it, if that cannot belong to a number. */
  lemma NumberStops(t: bytes, rest: bytes)
    requires EndsNumber(rest)
    ensures NumberLength(t + rest) == NumberLength(t)
  {
    hide NumberLength, InNumber;
    if NumberLength(t + rest) > |t| {
      NumberByte(t, rest);
    } else {
      NumberGrows(t, rest);
    }
  }

  /** The bytes taken for a number are that number by themselves. */
  lemma NumberAlone(s: bytes)
    ensures NumberLength(s[..NumberLength(s)]) == NumberLength(s)
  {
    hide NumberLength;
    var n := NumberLength(s);
    assert s[..n] + s[n..] == s;
    NumberGrows(s[..n], s[n..]);
  }
}
