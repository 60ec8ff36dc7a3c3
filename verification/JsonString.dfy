/** JSON string literals: one item of a literal at a time, and the escapes. */
module JsonString {
  import opened Bytes
  import opened Codec
  import opened Utf
  import opened Json

  const LETTER_U: byte := 0x75

  /** What a string literal is made of. The texts of the hexadecimal digits are kept as written. */
  datatype Item =
    | Raw(b: byte)
    | Short(c: byte)
    | Escape(h: bytes)
    | Pair(h: bytes, l: bytes)

  function HexDigit(c: byte): (r: Option<bv32>)
    ensures r.Some? ==> r.value < 16
  {
    if 0x30 <= c <= 0x39 then Some((c - 0x30) as bv32)
    else if 0x61 <= c <= 0x66 then Some((c - 0x61 + 10) as bv32)
    else if 0x41 <= c <= 0x46 then Some((c - 0x41 + 10) as bv32)
    else None
  }

  /** The number that four hexadecimal digits write. */
  function Hex4(h: bytes): (r: Option<bv32>)
    ensures r.Some? ==> |h| == 4
  {
    if |h| != 4 then None
    else if HexDigit(h[0]).None? || HexDigit(h[1]).None? || HexDigit(h[2]).None? || HexDigit(h[3]).None? then None
    else Some((HexDigit(h[0]).value << 12) | (HexDigit(h[1]).value << 8)
              | (HexDigit(h[2]).value << 4) | HexDigit(h[3]).value)
  }

  /** The byte that a two-character escape stands for. */
  function ShortValue(c: byte): Option<byte> {
    if c == QUOTE then Some(QUOTE)
    else if c == BACKSLASH then Some(BACKSLASH)
    else if c == 0x2F then Some(0x2F)
    else if c == 0x62 then Some(0x08)
    else if c == 0x66 then Some(0x0C)
    else if c == 0x6E then Some(0x0A)
    else if c == 0x72 then Some(0x0D)
    else if c == 0x74 then Some(0x09)
    else None
  }

  /**
   The item at the head of `s`, which does not start with a quote. A high
   surrogate has to be followed by a low one; a lone low surrogate is let through.
   */
  function NextItem(s: bytes): Option<(Item, nat)> {
    if s == [] || s[0] == QUOTE then None
    else if s[0] != BACKSLASH then Some((Raw(s[0]), 1))
    else if |s| < 2 then None
    else if ShortValue(s[1]).Some? then Some((Short(s[1]), 2))
    else if s[1] != LETTER_U then None
    else NextEscape(s)
  }

  /** The `\u` escape, or the pair of them, at the head of `s`. */
  function NextEscape(s: bytes): Option<(Item, nat)>
    requires |s| >= 2
  {
    if |s| < 6 then None
    else match Hex4(s[2..6])
      case None => None
      case Some(cp) =>
        if !IsHigh(cp) then Some((Escape(s[2..6]), 6))
        else if |s| < 12 || s[6] != BACKSLASH || s[7] != LETTER_U then None
        else match Hex4(s[8..12])
          case None => None
          case Some(low) => if IsLow(low) then Some((Pair(s[2..6], s[8..12]), 12)) else None
  }

  function RenderItem(it: Item): bytes {
    match it
    case Raw(b) => [b]
    case Short(c) => [BACKSLASH, c]
    case Escape(h) => [BACKSLASH, LETTER_U] + h
    case Pair(h, l) => [BACKSLASH, LETTER_U] + h + [BACKSLASH, LETTER_U] + l
  }

  predicate ItemOk(it: Item) {
    match it
    case Raw(b) => b != QUOTE && b != BACKSLASH
    case Short(c) => ShortValue(c).Some?
    case Escape(h) => Hex4(h).Some? && !IsHigh(Hex4(h).value)
    case Pair(h, l) => Hex4(h).Some? && IsHigh(Hex4(h).value) && Hex4(l).Some? && IsLow(Hex4(l).value)
  }

  lemma ItemsAreACodec()
    ensures ReadsBack(RenderItem, NextItem, ItemOk) && WritesBack(RenderItem, NextItem, ItemOk)
    ensures NeverStarts(RenderItem, ItemOk, QUOTE)
  {
    forall it: Item, rest: bytes | ItemOk(it)
      ensures NextItem(RenderItem(it) + rest) == Some((it, |RenderItem(it)|))
    {
      NextOfRender(it, rest);
    }
    forall s: bytes | NextItem(s).Some?
      ensures var (it, n) := NextItem(s).value; 1 <= n <= |s| && ItemOk(it) && RenderItem(it) == s[..n]
    {
      RenderOfNext(s);
    }
  }

  lemma NextOfRender(it: Item, rest: bytes)
    requires ItemOk(it)
    ensures NextItem(RenderItem(it) + rest) == Some((it, |RenderItem(it)|))
  {
    var s := RenderItem(it) + rest;
    match it
    case Raw(b) =>
    case Short(c) => assert s[1] == c;
    case Escape(h) => EscapeOfText(h, [], rest);
    case Pair(h, l) => EscapeOfText(h, l, rest);
  }

  /** An escape, or a pair of them, in front of a text. */
  lemma EscapeOfText(h: bytes, l: bytes, rest: bytes)
    requires if l == [] then ItemOk(Escape(h)) else ItemOk(Pair(h, l))
    ensures var it := if l == [] then Escape(h) else Pair(h, l);
            NextItem(RenderItem(it) + rest) == Some((it, |RenderItem(it)|))
  {
    hide Hex4, IsHigh, IsLow;
    if l == [] {
      var s := [BACKSLASH, LETTER_U] + h + rest;
      assert s[1] == LETTER_U && s[2..6] == h;
    } else {
      var s := [BACKSLASH, LETTER_U] + h + [BACKSLASH, LETTER_U] + l + rest;
      assert s[1] == LETTER_U && s[2..6] == h && s[6] == BACKSLASH && s[7] == LETTER_U && s[8..12] == l;
    }
  }

  lemma RenderOfNext(s: bytes)
    requires NextItem(s).Some?
    ensures var (it, n) := NextItem(s).value; 1 <= n <= |s| && ItemOk(it) && RenderItem(it) == s[..n]
  {
  }

  // ---- what an item appends ----

  /** The code point of a `\u` escape, or of a pair of them. */
  function ItemCodepoint(it: Item): codepoint
    requires ItemOk(it) && (it.Escape? || it.Pair?)
  {
    if it.Escape? then Hex4(it.h).value else JoinSurrogates(Hex4(it.h).value, Hex4(it.l).value)
  }

  /** Appending goes through a C string, so a zero byte and all after it are not appended. */
  function ItemBytes(it: Item): bytes {
    match it
    case Raw(b) => UpToNul([b])
    case Short(c) => if ShortValue(c).Some? then [ShortValue(c).value] else []
    case _ => if ItemOk(it) then UpToNul(EncodeOne(ItemCodepoint(it))) else []
  }

  /** The contents of a literal after its opening quote, and what follows the closing one. */
  function ParseString(s: bytes): (r: Option<(bytes, bytes)>)
    ensures r.Some? ==> |r.value.1| < |s|
  {
    if s == [] || s[0] != QUOTE then None
    else match DecodeUntil(NextItem, QUOTE, s[1..])
      case None => None
      case Some((items, rest)) => Some((EncodeAll(ItemBytes, items), rest))
  }

  lemma ParseStringOfBody(body: bytes, items: seq<Item>, rest: bytes)
    requires DecodeUntil(NextItem, QUOTE, body) == Some((items, rest))
    ensures ParseString([QUOTE] + body) == Some((EncodeAll(ItemBytes, items), rest))
  {
    assert ([QUOTE] + body)[1..] == body;
  }

  lemma Quoted(e: bytes, rest: bytes)
    ensures [QUOTE] + (e + [QUOTE] + rest) == [QUOTE] + e + [QUOTE] + rest
  {
  }

  /** What a literal reads as, for any items it may be made of. */
  lemma ParseStringOfItems(items: seq<Item>, rest: bytes)
    requires All(ItemOk, items)
    ensures ParseString([QUOTE] + EncodeAll(RenderItem, items) + [QUOTE] + rest)
         == Some((EncodeAll(ItemBytes, items), rest))
  {
    hide ParseString, DecodeUntil, EncodeAll, All, ReadsBack, WritesBack, NeverStarts;
    ItemsAreACodec();
    DecodeUntilOfEncode(RenderItem, NextItem, ItemOk, QUOTE, items, rest);
    var e := EncodeAll(RenderItem, items);
    ParseStringOfBody(e + [QUOTE] + rest, items, rest);
    Quoted(e, rest);
  }

  lemma BodyOfParseString(s: bytes) returns (body: bytes, items: seq<Item>, rest: bytes)
    requires ParseString(s).Some?
    ensures s == [QUOTE] + body && DecodeUntil(NextItem, QUOTE, body) == Some((items, rest))
    ensures ParseString(s).value == (EncodeAll(ItemBytes, items), rest)
  {
    hide DecodeUntil, EncodeAll;
    body := s[1..];
    var r := DecodeUntil(NextItem, QUOTE, body).value;
    items, rest := r.0, r.1;
  }

  /** A literal that is read is made of items. */
  lemma ItemsOfParseString(s: bytes) returns (items: seq<Item>)
    requires ParseString(s).Some?
    ensures var (b, rest) := ParseString(s).value;
            All(ItemOk, items) && s == [QUOTE] + EncodeAll(RenderItem, items) + [QUOTE] + rest &&
            b == EncodeAll(ItemBytes, items)
  {
    hide ParseString, DecodeUntil, EncodeAll, All, ReadsBack, WritesBack, NeverStarts;
    ItemsAreACodec();
    var body, rest;
    body, items, rest := BodyOfParseString(s);
    EncodeOfDecodeUntil(RenderItem, NextItem, ItemOk, QUOTE, body);
    Quoted(EncodeAll(RenderItem, items), rest);
  }

  lemma {:induction false} LiteralsAreNulFree(items: seq<Item>)
    ensures NulFree(EncodeAll(ItemBytes, items))
  {
    if items == [] {
    } else {
      LiteralsAreNulFree(items[1..]);
      assert NulFree(ItemBytes(items[0]));
    }
  }

  // ---- escaping and reading back ----

  lemma HexBits(c: byte)
    requires c < 0x20
    ensures HexDigit(HexByte(c >> 4)) == Some((c >> 4) as bv32) && HexDigit(HexByte(c & 0xF)) == Some((c & 0xF) as bv32)
    ensures ((c >> 4) as bv32 << 4) | (c & 0xF) as bv32 == c as bv32
  {
  }

  /** The item that the printer writes for a byte. */
  function ItemOf(c: byte): Item {
    if c == QUOTE || c == BACKSLASH then Short(c)
    else if c == 0x0A then Short(0x6E)
    else if c == 0x0D then Short(0x72)
    else if c == 0x09 then Short(0x74)
    else if c < 0x20 then Escape([0x30, 0x30, HexByte(c >> 4), HexByte(c & 0xF)])
    else Raw(c)
  }

  lemma ControlEscape(c: byte)
    requires 0 < c < 0x20
    ensures Hex4([0x30, 0x30, HexByte(c >> 4), HexByte(c & 0xF)]) == Some(c as bv32)
  {
    HexBits(c);
    assert HexDigit(0x30) == Some(0);
  }

  lemma ControlByte(c: byte)
    requires 0 < c < 0x20
    ensures EncodeOne(c as bv32) == [c] && UpToNul([c]) == [c]
  {
    assert ToByte(c as bv32) == c;
  }

  lemma ItemOfByte(c: byte)
    requires c != 0
    ensures ItemOk(ItemOf(c)) && RenderItem(ItemOf(c)) == EscapeByte(c) && ItemBytes(ItemOf(c)) == [c]
  {
    if c < 0x20 {
      ControlEscape(c);
      ControlByte(c);
      hide Hex4, EncodeOne, HexByte;
    } else {
      UpToNulOfNulFree([c]);
      hide UpToNul, Hex4, EncodeOne, HexByte;
    }
  }

  function ItemsOf(s: bytes): seq<Item> {
    seq(|s|, i requires 0 <= i < |s| => ItemOf(s[i]))
  }

  lemma {:induction false} ItemsOfBytes(s: bytes)
    requires NulFree(s)
    ensures All(ItemOk, ItemsOf(s))
    ensures EncodeAll(RenderItem, ItemsOf(s)) == EscapeBytes(s)
    ensures EncodeAll(ItemBytes, ItemsOf(s)) == s
  {
    hide ItemOf, ItemOk, RenderItem, EscapeByte, ItemBytes;
    if s == [] {
    } else {
      ItemOfByte(s[0]);
      ItemsOfBytes(s[1..]);
      assert ItemsOf(s)[1..] == ItemsOf(s[1..]);
      assert ItemsOf(s)[0] == ItemOf(s[0]);
      assert s == [s[0]] + s[1..];
      assert forall i :: 1 <= i < |s| ==> ItemsOf(s)[i] == ItemsOf(s[1..])[i - 1];
    }
  }

  /** Unescaping undoes escaping, for every NUL-free byte string. */
  lemma ParseStringOfText(s: bytes, rest: bytes)
    requires NulFree(s)
    ensures ParseString(StringText(s) + rest) == Some((s, rest))
  {
    ItemsOfBytes(s);
    ParseStringOfItems(ItemsOf(s), rest);
  }

  // ---- escapes and UTF-8 ----

  lemma Hex4Range(h: bytes)
    requires Hex4(h).Some?
    ensures Hex4(h).value <= 0xFFFF
  {
  }

  /**
   The bytes that a `\u` escape or a pair of them appends are the UTF-8 sequence
   of its code point, in whatever case its digits are written.
   */
  lemma EscapeIsUtf8(it: Item, rest: bytes)
    requires ItemOk(it) && (it.Escape? || it.Pair?) && ItemCodepoint(it) != 0
    ensures IsCodepoint(ItemCodepoint(it))
    ensures ItemBytes(it) == EncodeOne(ItemCodepoint(it))
    ensures DecodeOne(ItemBytes(it) + rest) == Some((ItemCodepoint(it), |ItemBytes(it)|))
  {
    var cp := ItemCodepoint(it);
    if it.Escape? {
      Hex4Range(it.h);
      assert cp <= MAX_CODEPOINT;
    } else {
      CodepointOfPair(Hex4(it.h).value, Hex4(it.l).value);
    }
    ZeroByte(cp);
    UpToNulOfNulFree(EncodeOne(cp));
    DecodeOneOfEncodeOne(cp, rest);
  }

  function HexOf(x: bv32): byte {
    HexByte((x & 0xF) as byte)
  }

  function Hex4Of(x: bv32): bytes {
    [HexOf(x >> 12), HexOf(x >> 8), HexOf(x >> 4), HexOf(x)]
  }

  lemma HexDigitOfHex(x: bv32)
    ensures HexDigit(HexOf(x)) == Some(x & 0xF)
  {
  }

  lemma NibbleBits(x: bv32)
    requires x <= 0xFFFF
    ensures (((x >> 12) & 0xF) << 12) | (((x >> 8) & 0xF) << 8) | (((x >> 4) & 0xF) << 4) | (x & 0xF) == x
  {
  }

  lemma Hex4OfHex4(x: bv32)
    requires x <= 0xFFFF
    ensures Hex4(Hex4Of(x)) == Some(x)
  {
    HexDigitOfHex(x >> 12);
    HexDigitOfHex(x >> 8);
    HexDigitOfHex(x >> 4);
    HexDigitOfHex(x);
    NibbleBits(x);
  }

  /** Every scalar value can be written as a `\u` escape or a pair of them. */
  lemma EscapeOfScalar(cp: codepoint) returns (it: Item)
    requires IsScalar(cp)
    ensures ItemOk(it) && (it.Escape? || it.Pair?) && ItemCodepoint(it) == cp
  {
    if cp <= 0xFFFF {
      Hex4OfHex4(cp);
      it := Escape(Hex4Of(cp));
    } else {
      OffsetBits(cp);
      var high, low := PairOfPayload(Offset(cp));
      JoinOfPayload(high, low, cp);
      Hex4OfHex4(high);
      Hex4OfHex4(low);
      it := Pair(Hex4Of(high), Hex4Of(low));
    }
  }
}
