/** Texts that the JSON reader takes liberties with, and numbers that the printer loses. */
module JsonLiberties {
  import opened Bytes
  import opened Binary64
  import opened Decimal
  import opened NumberFormat
  import opened Numerals
  import opened Seventeen
  import opened Strtod
  import opened Codec
  import opened Json
  import opened JsonString
  import opened JsonParse
  import opened JsonGrammar
  import opened JsonRoundTrip

  // ---- texts that a stricter reader would refuse ----

  lemma RenderedReads(c: Syntax)
    requires Valid(c)
    ensures ParseText(Render(c)) == Ok(Meaning(c), [])
  {
    hide ParseText, Valid, Render, Meaning;
    assert IsTextOf(Render(c), [], c, []) by { assert [] + Render(c) + [] == Render(c); }
    ParseTextExact(Render(c), Meaning(c));
  }

  lemma OneItem(it: Item)
    requires ItemOk(it)
    ensures ParseText([QUOTE] + RenderItem(it) + [QUOTE]) == Ok(Str(ItemBytes(it)), [])
  {
    hide ParseText, ItemOk, RenderItem, ItemBytes;
    RenderedReads(SStr([it]));
    EncodeAllCons(RenderItem, it, []);
    EncodeAllCons(ItemBytes, it, []);
    assert [it] + [] == [it] && RenderItem(it) + [] == RenderItem(it) && ItemBytes(it) + [] == ItemBytes(it);
  }

  /** A control character inside a literal is taken as it is. */
  lemma ControlCharacterAccepted()
    ensures ParseText([QUOTE, 0x01, QUOTE]) == Ok(Str([0x01]), [])
  {
    hide ParseText;
    OneItem(Raw(0x01));
    assert [QUOTE] + [0x01] + [QUOTE] == [QUOTE, 0x01, QUOTE];
    assert ItemBytes(Raw(0x01)) == [0x01];
  }

  lemma SurrogateItem()
    ensures ItemOk(Escape([0x44, 0x43, 0x30, 0x30]))
    ensures ItemBytes(Escape([0x44, 0x43, 0x30, 0x30])) == [0xED, 0xB0, 0x80]
  {
  }

  /** A low surrogate that follows no high one is taken, and encoded like any other code point. */
  lemma LoneLowSurrogateAccepted()
    ensures ParseText([QUOTE, BACKSLASH, LETTER_U, 0x44, 0x43, 0x30, 0x30, QUOTE]) == Ok(Str([0xED, 0xB0, 0x80]), [])
  {
    hide ParseText, ItemOk, ItemBytes;
    var h: bytes := [0x44, 0x43, 0x30, 0x30];
    SurrogateItem();
    OneItem(Escape(h));
    assert [QUOTE] + ([BACKSLASH, LETTER_U] + h) + [QUOTE]
        == [QUOTE, BACKSLASH, LETTER_U, 0x44, 0x43, 0x30, 0x30, QUOTE];
  }

  lemma ZeroItem()
    ensures ItemOk(Escape([0x30, 0x30, 0x30, 0x30])) && ItemBytes(Escape([0x30, 0x30, 0x30, 0x30])) == []
  {
  }

  /** A `\u0000` is taken and adds nothing. */
  lemma ZeroEscapeAddsNothing()
    ensures ParseText([QUOTE, BACKSLASH, LETTER_U, 0x30, 0x30, 0x30, 0x30, QUOTE]) == Ok(Str([]), [])
  {
    hide ParseText, ItemOk, ItemBytes;
    var h: bytes := [0x30, 0x30, 0x30, 0x30];
    ZeroItem();
    OneItem(Escape(h));
    assert [QUOTE] + ([BACKSLASH, LETTER_U] + h) + [QUOTE]
        == [QUOTE, BACKSLASH, LETTER_U, 0x30, 0x30, 0x30, 0x30, QUOTE];
  }

  // ---- numbers ----

  /** A text of digits, with an exponent or without, after a minus sign or none. */
  lemma DecimalReads(neg: bool, ds: bytes, x: Option<int>)
    requires ds != [] && AllDigits(ds)
    ensures var tail := if x.None? then [] else ExponentText(x.value);
            ParseText(SignText(neg) + (ds + tail))
            == Ok(Num(Rounded(neg, Scaled(DigitsValue(ds), 10, if x.None? then 0 else x.value))), [])
  {
    hide ParseText, Round, Scaled, DigitsValue, ExponentText, NumberLength, NumberValue, UnsignedLength, UnsignedValue;
    DecimalOf(ds, [], x, neg);
    assert ds + [] == ds;
    var tail := if x.None? then [] else ExponentText(x.value);
    Signed1(neg, ds + tail);
    RenderedReads(SNum(SignText(neg) + (ds + tail)));
  }

  const ONE: Number := Finite(false, HALF, -52)

  lemma OneIsOne()
    ensures Rounded(false, Scaled(1, 10, 0)) == ONE
  {
    hide Pow, Times, Round;
    ScaledOne(1);
    RoundOfMagnitude(ONE);
    Bounds(-52);
    PowZero(2);
  }

  /** Leading zeros are taken: `01` is one. */
  lemma LeadingZeroAccepted()
    ensures ParseText([0x30, 0x31]) == Ok(Num(ONE), [])
  {
    hide ParseText, Rounded, Scaled;
    var ds: bytes := [0x30, 0x31];
    assert DigitsValue(ds) == 1 by {
      assert ds[..1] == [0x30] && ds[..1][..0] == [];
      assert DigitsValue(ds[..1]) == 0;
    }
    DecimalReads(false, ds, None);
    assert SignText(false) + (ds + []) == ds;
    OneIsOne();
  }

  lemma TooLarge()
    ensures Rounded(false, Scaled(1, 10, HIGHEST)) == Infinite(false)
  {
    hide Pow, Times, Round;
    assert Scaled(1, 10, HIGHEST) == Pow(10, HIGHEST) by { TimesTwice(1.0, Pow(10, HIGHEST)); }
    RoundOverflows(false, Pow(10, HIGHEST));
    RoundIsDouble(false, Pow(10, HIGHEST));
    TenIsMore(HIGHEST);
    Bounds(GREATEST);
    TimesOrder(WHOLE as real - 0.5, WHOLE as real, Pow(2, GREATEST));
  }

  const TOO_LARGE: Number := Infinite(false)

  lemma LargeAccepted()
    ensures ParseText([0x31] + ExponentText(HIGHEST)) == Ok(Num(TOO_LARGE), [])
  {
    hide ParseText, Rounded, Scaled, ExponentText;
    var ds: bytes := [0x31];
    assert DigitsValue(ds) == 1 by { assert ds[..0] == []; }
    DecimalReads(false, ds, Some(HIGHEST));
    assert SignText(false) + (ds + ExponentText(HIGHEST)) == ds + ExponentText(HIGHEST);
    TooLarge();
  }

  lemma LargeIsUnreadable()
    ensures !IsReadable(TOO_LARGE)
  {
    assert [] + INF == INF;
  }

  /** `1e+1024` is accepted as infinity, which is printed as `inf`, which is refused. */
  lemma InfinityIsLost()
    ensures ParseText([0x31] + ExponentText(HIGHEST)) == Ok(Num(TOO_LARGE), [])
    ensures ParseText(Print(Num(TOO_LARGE))) == Fail
  {
    hide ParseText, ExponentText, NumberText, IsReadable;
    LargeAccepted();
    LargeIsUnreadable();
    PrintedReads(Num(TOO_LARGE));
  }

  /** `-0` is accepted, and printed as `0`, which is another number. */
  lemma ZeroLosesItsSign()
    ensures ParseText([MINUS, 0x30]) == Ok(Num(Finite(true, 0, LEAST)), [])
    ensures ParseText(Print(Num(Finite(true, 0, LEAST)))) == Ok(Num(Finite(false, 0, LEAST)), [])
  {
    hide ParseText, Rounded, Scaled;
    var ds: bytes := [0x30];
    assert DigitsValue(ds) == 0 by { assert ds[..0] == []; }
    DecimalReads(true, ds, None);
    assert SignText(true) + (ds + []) == [MINUS, 0x30];
    var x: Number := Finite(true, 0, LEAST);
    ScaledOne(0);
    MagnitudeIsPositive(x);
    RoundOfMagnitude(x);
    RoundedIsRound(true, 0.0);
    PrintedReads(Num(x));
    ZeroText(true);
  }

  lemma RoundedIsRound(neg: bool, y: real)
    requires y >= 0.0
    ensures Rounded(neg, y) == Round(neg, y)
  {
  }
}
