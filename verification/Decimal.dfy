/** Decimal numbers, as the C library writes and reads them. */
module Decimal {
  import opened Bytes

  const MINUS: byte := 0x2D

  function DigitByte(d: nat): byte
    requires d < 10
  {
    if d == 0 then 0x30 else if d == 1 then 0x31 else if d == 2 then 0x32 else if d == 3 then 0x33
    else if d == 4 then 0x34 else if d == 5 then 0x35 else if d == 6 then 0x36 else if d == 7 then 0x37
    else if d == 8 then 0x38 else 0x39
  }

  function DigitsText(n: nat): (r: bytes)
    ensures r != []
  {
    if n < 10 then [DigitByte(n)] else DigitsText(n / 10) + [DigitByte(n % 10)]
  }

  /** An integer as `%lld` writes it. */
  function IntText(n: int): bytes {
    if n < 0 then [MINUS] + DigitsText(-n) else DigitsText(n)
  }

  predicate IsDigit(c: byte) {
    0x30 <= c <= 0x39
  }

  function DigitValue(c: byte): (d: nat)
    ensures d < 10
  {
    if c == 0x31 then 1 else if c == 0x32 then 2 else if c == 0x33 then 3 else if c == 0x34 then 4
    else if c == 0x35 then 5 else if c == 0x36 then 6 else if c == 0x37 then 7 else if c == 0x38 then 8
    else if c == 0x39 then 9 else 0
  }

  /** The length of the run of digits at the head of `s`. */
  function DigitRun(s: bytes): (k: nat)
    ensures k <= |s|
    ensures forall i :: 0 <= i < k ==> IsDigit(s[i])
    ensures k < |s| ==> !IsDigit(s[k])
  {
    if s == [] || !IsDigit(s[0]) then 0 else 1 + DigitRun(s[1..])
  }

  /** The number that a run of digits writes. */
  function DigitsValue(s: bytes): nat {
    if s == [] then 0 else 10 * DigitsValue(s[..|s| - 1]) + DigitValue(s[|s| - 1])
  }

  function Signed(neg: bool, n: nat): int {
    var m: int := n;
    if neg then -m else m
  }

  ghost predicate AllDigits(s: bytes) {
    forall i :: 0 <= i < |s| ==> IsDigit(s[i])
  }

  lemma {:induction false} DigitRunOver(ds: bytes, s: bytes)
    requires AllDigits(ds) && (s == [] || !IsDigit(s[0]))
    ensures DigitRun(ds + s) == |ds|
  {
    if ds == [] {
      assert ds + s == s;
    } else {
      assert (ds + s)[1..] == ds[1..] + s;
      DigitRunOver(ds[1..], s);
    }
  }

  lemma DigitOfByte(d: nat)
    requires d < 10
    ensures IsDigit(DigitByte(d)) && DigitValue(DigitByte(d)) == d
  {
  }

  lemma {:induction false} DigitsOfNumber(n: nat)
    ensures AllDigits(DigitsText(n)) && DigitsValue(DigitsText(n)) == n
  {
    hide DigitByte, DigitValue, IsDigit;
    var t := DigitsText(n);
    if n < 10 {
      DigitOfByte(n);
      assert t[..0] == [] && DigitsValue(t[..0]) == 0;
    } else {
      DigitsOfNumber(n / 10);
      assert t[..|t| - 1] == DigitsText(n / 10) && t[|t| - 1] == DigitByte(n % 10);
      DigitOfByte(n % 10);
    }
  }

  function Pow10(k: nat): nat {
    if k == 0 then 1 else 10 * Pow10(k - 1)
  }

  lemma {:induction false} DigitsLength(n: nat, k: nat)
    requires k > 0 && n < Pow10(k)
    ensures |DigitsText(n)| <= k
  {
    if k == 1 || n < 10 {
      assert Pow10(1) == 10 * Pow10(0);
    } else {
      DigitsLength(n / 10, k - 1);
    }
  }

  lemma Pow10Values()
    ensures Pow10(10) == 10_000_000_000 && Pow10(20) == 100_000_000_000_000_000_000
  {
    assert Pow10(2) == 100 && Pow10(4) == 10_000 && Pow10(6) == 1_000_000 && Pow10(8) == 100_000_000;
    assert Pow10(12) == 1_000_000_000_000 && Pow10(14) == 100_000_000_000_000;
    assert Pow10(16) == 10_000_000_000_000_000 && Pow10(18) == 1_000_000_000_000_000_000;
  }

  /** No number of 64 bits has more than twenty digits, and none of 32 bits more than ten. */
  lemma SizeDigits(n: nat)
    requires n < 0x1_0000_0000_0000_0000
    ensures |DigitsText(n)| <= 20 && (n <= 0x8000_0000 ==> |DigitsText(n)| <= 10)
  {
    Pow10Values();
    DigitsLength(n, 20);
    if n <= 0x8000_0000 {
      DigitsLength(n, 10);
    }
  }
}
