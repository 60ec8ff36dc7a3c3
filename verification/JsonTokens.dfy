/**
 What JSON texts mean, byte by byte: sections 2 to 7 of RFC 8259 on the reader and the
 printer themselves, without the names that these use for bytes.
 */
module JsonTokens {
  import opened Bytes
  import opened Binary64
  import opened Codec
  import opened Numerals
  import opened Strtod
  import opened Utf
  import opened Json
  import opened JsonString
  import opened JsonParse
  import opened JsonGrammar

  // ---- white space ----

  /** A space, a tab, a line feed or a carriage return. */
  predicate IsBlank(c: byte) {
    c == 0x20 || c == 0x09 || c == 0x0A || c == 0x0D
  }

  ghost predicate Blanks(s: bytes) {
    forall i :: 0 <= i < |s| ==> IsBlank(s[i])
  }

  lemma BlanksAgree(s: bytes)
    ensures Blanks(s) <==> AllWs(s)
  {
  }

  /** What may stand in front of a text. */
  lemma BlankInFront(c: byte, s: bytes)
    requires IsBlank(c)
    ensures ParseText([c] + s) == ParseText(s)
  {
    BlanksAgree([c]);
    SkipWsOver([c], s);
    ParseValueSkips([c] + s);
    ParseValueSkips(s);
  }

  /** The text of a value ends in something else than white space. */
  lemma LastByte(c: Syntax)
    requires Valid(c)
    ensures var r := Render(c); r != [] && !IsWs(r[|r| - 1])
  {
    if c.SNum? {
      NumberBytes(c.text);
      assert c.text[..|c.text|] == c.text;
    }
  }

  /** What may stand behind one: whatever is refused stays refused. */
  lemma BlankBehind(s: bytes, c: byte)
    requires IsBlank(c)
    ensures ParseText(s + [c]) == ParseText(s)
  {
    hide ParseText, Valid, Render, Meaning;
    if ParseText(s).Ok? {
      var v := ParseText(s).value;
      NothingLeft(s);
      ParseTextExact(s, v);
      var pre, d, post :| IsTextOf(s, pre, d, post) && Meaning(d) == v;
      assert IsTextOf(s + [c], pre, d, post + [c]) by { Assoc(pre + Render(d), post, [c]); }
      ParseTextExact(s + [c], v);
    }
    if ParseText(s + [c]).Ok? {
      var v := ParseText(s + [c]).value;
      NothingLeft(s + [c]);
      ParseTextExact(s + [c], v);
      var pre, d, post :| IsTextOf(s + [c], pre, d, post) && Meaning(d) == v;
      LastByte(d);
      BlankIsLast(s, c, pre + Render(d), post);
      assert IsTextOf(s, pre, d, post[..|post| - 1]);
      ParseTextExact(s, v);
    }
  }

  lemma BlankIsLast(s: bytes, c: byte, a: bytes, post: bytes)
    requires s + [c] == a + post && IsBlank(c) && a != [] && !IsWs(a[|a| - 1])
    ensures post != [] && s == a + post[..|post| - 1]
  {
    assert (s + [c])[|s|] == c && a + [] == a;
    assert s == (s + [c])[..|s|] == (a + post)[..|s|];
  }

  /** What values start with, white space apart. */
  predicate StartsValue(c: byte) {
    || c == 0x6E || c == 0x74 || c == 0x66 || c == 0x22 || c == 0x5B || c == 0x7B || c == 0x2D
    || 0x30 <= c <= 0x39
  }

  /** No other byte stands in front of an accepted text: behind the white space its value starts. */
  lemma FrontExact(s: bytes) returns (k: nat)
    requires ParseText(s).Ok?
    ensures k < |s| && Blanks(s[..k]) && StartsValue(s[k]) && ParseText(s[k..]) == ParseText(s)
  {
    hide ParseText, Render, Meaning, Valid;
    var v := ParseText(s).value;
    NothingLeft(s);
    ParseTextExact(s, v);
    var pre, d, post :| IsTextOf(s, pre, d, post) && Meaning(d) == v;
    k := |pre|;
    BlanksAgree(pre);
    StartOfValue(d);
    assert s == pre + (Render(d) + post) && s[..k] == pre && s[k..] == Render(d) + post;
    assert s[k] == Render(d)[0];
    assert IsTextOf(s[k..], [], d, post) by { assert [] + Render(d) + post == s[k..]; }
    ParseTextExact(s[k..], v);
  }

  lemma StartOfValue(d: Syntax)
    requires Valid(d)
    ensures Render(d) != [] && StartsValue(Render(d)[0]) && !IsBlank(Render(d)[0])
  {
  }

  /** A text between white space. */
  ghost predicate Around(s: bytes, t: bytes) {
    exists pre, post :: IsAround(s, pre, t, post)
  }

  ghost predicate IsAround(s: bytes, pre: bytes, t: bytes, post: bytes) {
    Blanks(pre) && Blanks(post) && s == pre + t + post
  }

  // ---- words and numbers ----

  lemma AcceptedTree(s: bytes, v: Json) returns (c: Syntax)
    requires ParseText(s) == Ok(v, [])
    ensures Valid(c) && Meaning(c) == v && Around(s, Render(c))
  {
    hide ParseText, Render, Meaning, Valid;
    ParseTextExact(s, v);
    var pre, d, post :| IsTextOf(s, pre, d, post) && Meaning(d) == v;
    BlanksAgree(pre);
    BlanksAgree(post);
    assert IsAround(s, pre, Render(d), post);
    c := d;
  }

  lemma TreeAccepted(s: bytes, c: Syntax)
    requires Valid(c) && Around(s, Render(c))
    ensures ParseText(s) == Ok(Meaning(c), [])
  {
    hide ParseText, Render, Meaning, Valid;
    var pre, post :| IsAround(s, pre, Render(c), post);
    BlanksAgree(pre);
    BlanksAgree(post);
    assert IsTextOf(s, pre, c, post);
    ParseTextExact(s, Meaning(c));
  }

  /** The words: `null`, `true` and `false`. */
  lemma WordsExact(s: bytes)
    ensures ParseText(s) == Ok(Null, []) <==> Around(s, [0x6E, 0x75, 0x6C, 0x6C])
    ensures ParseText(s) == Ok(Bool(true), []) <==> Around(s, [0x74, 0x72, 0x75, 0x65])
    ensures ParseText(s) == Ok(Bool(false), []) <==> Around(s, [0x66, 0x61, 0x6C, 0x73, 0x65])
  {
    hide ParseText, Around;
    WordExact(s, SNull);
    WordExact(s, STrue);
    WordExact(s, SFalse);
  }

  lemma WordExact(s: bytes, c: Syntax)
    requires c.SNull? || c.STrue? || c.SFalse?
    ensures ParseText(s) == Ok(Meaning(c), []) <==> Around(s, Render(c))
  {
    hide ParseText, Around;
    if ParseText(s) == Ok(Meaning(c), []) {
      var d := AcceptedTree(s, Meaning(c));
    }
    if Around(s, Render(c)) {
      TreeAccepted(s, c);
    }
  }

  /** A numeral that the reader can come upon: it starts with a digit, or with a minus sign. */
  ghost predicate IsNumber(t: bytes, x: Number) {
    exists neg, n :: IsSigned(t, neg, n) && t != [] && (neg || 0x30 <= t[0] <= 0x39) && x == Value(neg, n)
  }

  /** The texts of numbers are numerals, and stand for what those are written for. */
  lemma NumbersExact(s: bytes, x: Number)
    ensures ParseText(s) == Ok(Num(x), []) <==> exists t :: Around(s, t) && IsNumber(t, x)
  {
    hide ParseText, Around, NumberLength, NumberValue, IsNumeral, TextOf, Value;
    if ParseText(s) == Ok(Num(x), []) {
      var c := AcceptedTree(s, Num(x));
      NumberIsNumeral(c.text);
    }
    if t :| Around(s, t) && IsNumber(t, x) {
      NumeralIsNumber(t, x);
      TreeAccepted(s, SNum(t));
    }
  }

  lemma NumberIsNumeral(t: bytes)
    requires NumOk(t)
    ensures IsNumber(t, NumberValue(t))
  {
    hide NumberLength, NumberValue, IsNumeral, TextOf, Value;
    var neg, n := NumberSoundly(t);
    SignedTaken(t, neg, n);
    NumeralStarts(neg, n);
  }

  lemma NumeralIsNumber(t: bytes, x: Number)
    requires IsNumber(t, x)
    ensures NumOk(t) && NumberValue(t) == x
  {
    hide NumberLength, NumberValue, IsNumeral, TextOf, Value;
    var neg, n :| IsSigned(t, neg, n) && t != [] && (neg || 0x30 <= t[0] <= 0x39) && x == Value(neg, n);
    SignedTaken(t, neg, n);
  }

  lemma NumeralStarts(neg: bool, n: Numeral)
    requires IsNumeral(n)
    ensures TextOf(n) != [] && TextOf(n)[0] != 0x2D
  {
    UnsignedTaken(n, neg);
  }

  // ---- strings ----

  /** What a backslash and a letter stand for, in section 7. */
  function Escaped(c: byte): Option<byte> {
    if c == 0x22 then Some(0x22)
    else if c == 0x5C then Some(0x5C)
    else if c == 0x2F then Some(0x2F)
    else if c == 0x62 then Some(0x08)
    else if c == 0x66 then Some(0x0C)
    else if c == 0x6E then Some(0x0A)
    else if c == 0x72 then Some(0x0D)
    else if c == 0x74 then Some(0x09)
    else None
  }

  /** What a hexadecimal digit is worth, in either case. */
  function Nibble(c: byte): (r: Option<bv32>)
    ensures r.Some? ==> r.value < 16
  {
    if c == 0x30 then Some(0)
    else if c == 0x31 then Some(1)
    else if c == 0x32 then Some(2)
    else if c == 0x33 then Some(3)
    else if c == 0x34 then Some(4)
    else if c == 0x35 then Some(5)
    else if c == 0x36 then Some(6)
    else if c == 0x37 then Some(7)
    else if c == 0x38 then Some(8)
    else if c == 0x39 then Some(9)
    else if c == 0x61 || c == 0x41 then Some(10)
    else if c == 0x62 || c == 0x42 then Some(11)
    else if c == 0x63 || c == 0x43 then Some(12)
    else if c == 0x64 || c == 0x44 then Some(13)
    else if c == 0x65 || c == 0x45 then Some(14)
    else if c == 0x66 || c == 0x46 then Some(15)
    else None
  }

  /** What four hexadecimal digits write. */
  function Code(h: bytes): Option<codepoint> {
    if |h| == 4 && Nibble(h[0]).Some? && Nibble(h[1]).Some? && Nibble(h[2]).Some? && Nibble(h[3]).Some? then
      Some(4096 * Nibble(h[0]).value + 256 * Nibble(h[1]).value + 16 * Nibble(h[2]).value + Nibble(h[3]).value)
    else None
  }

  /** The bytes that a character adds to a string: a zero is not added. */
  function Added(cp: codepoint): bytes
    requires cp <= 0x10FFFF
  {
    if cp == 0 then [] else Utf8(cp)
  }

  predicate IsEscape(p: bytes) {
    |p| == 6 && p[0] == 0x5C && p[1] == 0x75 && Code(p[2..]).Some?
  }

  /** One escape, but not of a high surrogate. */
  predicate IsSingle(p: bytes, b: bytes) {
    IsEscape(p) && var cp := Code(p[2..]).value; !(0xD800 <= cp <= 0xDBFF) && cp <= 0x10FFFF && b == Added(cp)
  }

  /** The code point of a pair of escapes, by section 2.2 of RFC 2781. */
  function PairCode(high: codepoint, low: codepoint): (cp: codepoint)
    requires 0xD800 <= high <= 0xDBFF && 0xDC00 <= low <= 0xDFFF
    ensures cp <= 0x10FFFF
  {
    0x10000 + (high - 0xD800) * 1024 + (low - 0xDC00)
  }

  predicate IsSurrogates(high: codepoint, low: codepoint, b: bytes) {
    0xD800 <= high <= 0xDBFF && 0xDC00 <= low <= 0xDFFF && b == Added(PairCode(high, low))
  }

  /** Two escapes, of a high surrogate and of a low one. */
  predicate IsDouble(p: bytes, q: bytes, b: bytes) {
    IsEscape(p) && IsEscape(q) && IsSurrogates(Code(p[2..]).value, Code(q[2..]).value, b)
  }

  /** A character as it is, a short escape, an escape, or a pair of them; and the bytes that it stands for. */
  predicate StandsFor(p: bytes, b: bytes) {
    if |p| == 1 then p[0] != 0x22 && p[0] != 0x5C && b == if p[0] == 0 then [] else p
    else if |p| == 2 then p[0] == 0x5C && Escaped(p[1]).Some? && b == [Escaped(p[1]).value]
    else if |p| == 6 then IsSingle(p, b)
    else |p| == 12 && IsDouble(p[..6], p[6..], b)
  }

  lemma NibbleAgrees(c: byte)
    ensures HexDigit(c) == Nibble(c)
  {
  }

  lemma CodeAgrees(h: bytes)
    ensures Hex4(h) == Code(h)
    ensures Code(h).Some? ==> Code(h).value <= 0xFFFF
  {
    hide Nibble, HexDigit;
    if |h| == 4 {
      NibbleAgrees(h[0]);
      NibbleAgrees(h[1]);
      NibbleAgrees(h[2]);
      NibbleAgrees(h[3]);
      if Code(h).Some? {
        Nibbles(Nibble(h[0]).value, Nibble(h[1]).value, Nibble(h[2]).value, Nibble(h[3]).value);
      }
    }
  }

  lemma Nibbles(a: bv32, b: bv32, c: bv32, d: bv32)
    requires a < 16 && b < 16 && c < 16 && d < 16
    ensures (a << 12) | (b << 8) | (c << 4) | d == 4096 * a + 256 * b + 16 * c + d <= 0xFFFF
  {
  }

  lemma EscapedAgrees(c: byte)
    ensures ShortValue(c) == Escaped(c)
  {
  }

  lemma AddedBytes(cp: codepoint)
    requires cp <= 0x10FFFF
    ensures UpToNul(EncodeOne(cp)) == Added(cp)
  {
    EncodeOneIsUtf8(cp);
    if cp == 0 {
      assert EncodeOne(0) == [0];
    } else {
      ZeroByte(cp);
      UpToNulOfNulFree(EncodeOne(cp));
    }
  }

  /** What stands for one item. */
  lemma ItemStands(it: Item)
    requires ItemOk(it)
    ensures StandsFor(RenderItem(it), ItemBytes(it))
  {
    match it
    case Raw(b) => RawStands(b);
    case Short(c) => EscapedAgrees(c);
    case Escape(h) => EscapeStands(h);
    case Pair(h, l) => PairStands(h, l);
  }

  lemma RawStands(b: byte)
    requires ItemOk(Raw(b))
    ensures StandsFor([b], ItemBytes(Raw(b)))
  {
    assert [b][..0] == [];
  }

  lemma EscapeStands(h: bytes)
    requires ItemOk(Escape(h))
    ensures StandsFor(RenderItem(Escape(h)), ItemBytes(Escape(h)))
  {
    hide Hex4, Code, Added, EncodeOne, UpToNul;
    CodeAgrees(h);
    var p := RenderItem(Escape(h));
    assert p[2..] == h && |h| == 4 by { FourDigits(h); }
    AddedBytes(Code(h).value);
  }

  lemma FourDigits(h: bytes)
    requires Hex4(h).Some?
    ensures |h| == 4
  {
  }

  /** A pair of surrogates adds the character that they join to. */
  lemma SurrogatesAdd(high: codepoint, low: codepoint, b: bytes)
    requires IsHigh(high) && IsLow(low)
    ensures b == UpToNul(EncodeOne(JoinSurrogates(high, low))) <==> IsSurrogates(high, low, b)
  {
    hide EncodeOne, UpToNul, Added, JoinSurrogates;
    JoinedInNumbers(high, low);
    AddedBytes(PairCode(high, low));
  }

  lemma PairStands(h: bytes, l: bytes)
    requires ItemOk(Pair(h, l))
    ensures StandsFor(RenderItem(Pair(h, l)), ItemBytes(Pair(h, l)))
  {
    hide Hex4, Code, IsSurrogates, EncodeOne, UpToNul, JoinSurrogates, IsHigh, IsLow;
    CodeAgrees(h);
    CodeAgrees(l);
    FourDigits(h);
    FourDigits(l);
    var p := RenderItem(Pair(h, l));
    SurrogatesAdd(Code(h).value, Code(l).value, ItemBytes(Pair(h, l)));
    assert p[..6] == [0x5C, 0x75] + h && p[6..] == [0x5C, 0x75] + l;
    assert p[..6][2..] == h && p[6..][2..] == l;
  }

  /** The item that a piece is. */
  lemma ItemOf(p: bytes, b: bytes) returns (it: Item)
    requires StandsFor(p, b)
    ensures ItemOk(it) && RenderItem(it) == p && ItemBytes(it) == b
  {
    if |p| == 1 {
      it := Raw(p[0]);
      assert [p[0]] == p && [p[0]][..0] == [];
    } else if |p| == 2 {
      EscapedAgrees(p[1]);
      it := Short(p[1]);
    } else if |p| == 6 {
      it := EscapeOf(p, b);
    } else {
      it := PairOf(p, b);
    }
  }

  lemma EscapeOf(p: bytes, b: bytes) returns (it: Item)
    requires |p| == 6 && StandsFor(p, b)
    ensures ItemOk(it) && RenderItem(it) == p && ItemBytes(it) == b
  {
    hide Hex4, Code, Added, EncodeOne, UpToNul;
    CodeAgrees(p[2..]);
    it := Escape(p[2..]);
    AddedBytes(Code(p[2..]).value);
    assert p == [p[0], p[1]] + p[2..];
  }

  lemma PairOf(p: bytes, b: bytes) returns (it: Item)
    requires |p| == 12 && StandsFor(p, b)
    ensures ItemOk(it) && RenderItem(it) == p && ItemBytes(it) == b
  {
    hide Hex4, Code, EncodeOne, UpToNul, JoinSurrogates;
    var h, l := p[..6][2..], p[6..][2..];
    CodeAgrees(h);
    CodeAgrees(l);
    it := Pair(h, l);
    SurrogatesAdd(Code(h).value, Code(l).value, b);
    assert p[..6] == [0x5C, 0x75] + h && p[6..] == [0x5C, 0x75] + l;
    assert p == p[..6] + p[6..];
  }

  // ---- literals ----

  /** Pieces, one after another. */
  ghost function Joined(ps: seq<bytes>): bytes {
    if ps == [] then [] else ps[0] + Joined(ps[1..])
  }

  /** Pieces, and the bytes that each stands for. */
  ghost predicate AllStand(ps: seq<bytes>, bs: seq<bytes>) {
    |ps| == |bs| && forall i :: 0 <= i < |ps| ==> StandsFor(ps[i], bs[i])
  }

  lemma {:induction false} PiecesOf(items: seq<Item>) returns (ps: seq<bytes>, bs: seq<bytes>)
    requires ItemsOk(items)
    ensures AllStand(ps, bs) && Joined(ps) == EncodeAll(RenderItem, items) && Joined(bs) == EncodeAll(ItemBytes, items)
  {
    hide StandsFor, ItemOk, RenderItem, ItemBytes;
    if items == [] {
      ps, bs := [], [];
    } else {
      var more, moreBytes := PiecesOf(items[1..]);
      ItemStands(items[0]);
      ps, bs := [RenderItem(items[0])] + more, [ItemBytes(items[0])] + moreBytes;
      assert ps[1..] == more && bs[1..] == moreBytes;
    }
  }

  lemma {:induction false} ItemsOfPieces(ps: seq<bytes>, bs: seq<bytes>) returns (items: seq<Item>)
    requires AllStand(ps, bs)
    ensures ItemsOk(items) && Joined(ps) == EncodeAll(RenderItem, items) && Joined(bs) == EncodeAll(ItemBytes, items)
  {
    hide StandsFor, ItemOk, RenderItem, ItemBytes;
    if ps == [] {
      items := [];
    } else {
      assert ps[0] in ps && bs[0] in bs;
      var it := ItemOf(ps[0], bs[0]);
      var more := ItemsOfPieces(ps[1..], bs[1..]);
      items := [it] + more;
      assert items[1..] == more;
    }
  }

  /** A quotation mark, pieces, and a quotation mark; and what they stand for. */
  ghost predicate IsLiteral(t: bytes, s: bytes) {
    exists ps, bs :: AllStand(ps, bs) && t == [0x22] + Joined(ps) + [0x22] && s == Joined(bs)
  }

  lemma LiteralIsOne(items: seq<Item>)
    requires ItemsOk(items)
    ensures IsLiteral(Literal(items), EncodeAll(ItemBytes, items))
  {
    hide EncodeAll, ItemBytes, ItemsOk, AllStand, Joined;
    var ps, bs := PiecesOf(items);
  }

  lemma ItemsOfLiteral(t: bytes, s: bytes) returns (items: seq<Item>)
    requires IsLiteral(t, s)
    ensures ItemsOk(items) && t == Literal(items) && s == EncodeAll(ItemBytes, items)
  {
    hide EncodeAll, ItemBytes, ItemsOk, AllStand, Joined;
    var ps, bs :| AllStand(ps, bs) && t == [0x22] + Joined(ps) + [0x22] && s == Joined(bs);
    items := ItemsOfPieces(ps, bs);
  }

  /** The texts of strings are literals, and read as what those stand for; everything else is refused as one. */
  lemma StringsExact(s: bytes, str: bytes)
    ensures ParseText(s) == Ok(Str(str), []) <==> exists t :: Around(s, t) && IsLiteral(t, str)
  {
    hide ParseText, Around, IsLiteral, EncodeAll, ItemsOk, Literal;
    if ParseText(s) == Ok(Str(str), []) {
      var c := AcceptedTree(s, Str(str));
      LiteralIsOne(c.items);
    }
    if t :| Around(s, t) && IsLiteral(t, str) {
      var items := ItemsOfLiteral(t, str);
      TreeAccepted(s, SStr(items));
    }
  }

  /** Items in front of something that is none: the literal does not end. */
  lemma {:induction false} StuckItems(items: seq<Item>, bad: bytes)
    requires ItemsOk(items) && bad != [] && bad[0] != QUOTE && NextItem(bad).None?
    ensures DecodeUntil(NextItem, QUOTE, EncodeAll(RenderItem, items) + bad) == None
  {
    hide NextItem, RenderItem, ItemOk;
    if items == [] {
      assert [] + bad == bad;
    } else {
      var it, rest := items[0], EncodeAll(RenderItem, items[1..]) + bad;
      StuckItems(items[1..], bad);
      ItemsAreACodec();
      var s := EncodeAll(RenderItem, items) + bad;
      assert s == RenderItem(it) + rest;
      assert s[|RenderItem(it)|..] == rest && s[0] == RenderItem(it)[0];
    }
  }

  /** Nothing that `s` starts with is a piece of a literal. */
  ghost predicate NoPiece(s: bytes) {
    forall k, b :: 0 <= k <= |s| ==> !StandsFor(s[..k], b)
  }

  lemma NoNextItem(s: bytes)
    requires NoPiece(s)
    ensures NextItem(s).None?
  {
    hide StandsFor, ItemOk, RenderItem, ItemBytes;
    if NextItem(s).Some? {
      var (it, n) := NextItem(s).value;
      RenderOfNext(s);
      ItemStands(it);
    }
  }

  /** A literal is refused from the first place on where neither a piece nor a quotation mark stands. */
  lemma LiteralRefused(ps: seq<bytes>, bs: seq<bytes>, bad: bytes)
    requires AllStand(ps, bs) && bad != [] && bad[0] != 0x22 && NoPiece(bad)
    ensures ParseText([0x22] + Joined(ps) + bad) == Fail
  {
    hide AllStand, Joined, NoPiece, NextItem, EncodeAll, DecodeUntil;
    var items := ItemsOfPieces(ps, bs);
    NoNextItem(bad);
    StuckItems(items, bad);
    var t := [0x22] + Joined(ps) + bad;
    assert t[0] == QUOTE && t[1..] == EncodeAll(RenderItem, items) + bad;
    LiteralFails(t);
  }

  lemma LiteralFails(t: bytes)
    requires t != [] && t[0] == QUOTE && DecodeUntil(NextItem, QUOTE, t[1..]) == None
    ensures ParseText(t) == Fail
  {
    assert ParseString(t) == None;
    hide ParseString, ParseElems, ParseMembers, ParseNumber, ParseLiteral;
    assert SkipWs(t) == t;
    assert ParseAt(t) == Fail;
  }

  /** No other byte but these and `u` may follow a backslash. */
  lemma OtherEscapeRefused(ps: seq<bytes>, bs: seq<bytes>, c: byte, rest: bytes)
    requires AllStand(ps, bs) && Escaped(c).None? && c != 0x75
    ensures ParseText([0x22] + Joined(ps) + ([0x5C, c] + rest)) == Fail
  {
    hide AllStand, Code;
    var bad := [0x5C, c] + rest;
    forall k, b | 0 <= k <= |bad|
      ensures !StandsFor(bad[..k], b)
    {
      assert k > 0 ==> bad[..k][0] == 0x5C;
      assert k > 1 ==> bad[..k][1] == c;
    }
    LiteralRefused(ps, bs, bad);
  }

  // ---- arrays ----

  /** Texts with commas between them. */
  ghost function Commas(ts: seq<bytes>): bytes {
    if ts == [] then [] else ts[0] + if |ts| == 1 then [] else [0x2C] + Commas(ts[1..])
  }

  /** Texts that are read as these values. */
  ghost predicate AllRead(ts: seq<bytes>, vs: seq<Json>) {
    |ts| == |vs| && forall i :: 0 <= i < |ts| ==> ParseText(ts[i]) == Ok(vs[i], [])
  }

  lemma ElemReads(e: SElem)
    requires ValidElem(e)
    ensures ParseText(RenderElem(e)) == Ok(Meaning(e.v), [])
  {
    hide ParseText, Render, Meaning;
    BlanksAgree(e.pre);
    BlanksAgree(e.post);
    assert IsAround(RenderElem(e), e.pre, Render(e.v), e.post);
    TreeAccepted(RenderElem(e), e.v);
  }

  lemma ReadElem(t: bytes, v: Json) returns (e: SElem)
    requires ParseText(t) == Ok(v, [])
    ensures ValidElem(e) && RenderElem(e) == t && Meaning(e.v) == v
  {
    hide ParseText, Render, Meaning, Blanks, AllWs;
    var c := AcceptedTree(t, v);
    var pre, post :| IsAround(t, pre, Render(c), post);
    BlanksAgree(pre);
    BlanksAgree(post);
    e := SElem(pre, c, post);
  }

  lemma {:induction false} ElemsRead(es: seq<SElem>) returns (ts: seq<bytes>)
    requires ValidElems(es)
    ensures AllRead(ts, Meanings(es)) && Commas(ts) == RenderElems(es) && |ts| == |es|
  {
    hide ParseText, RenderElem, Meaning;
    if es == [] {
      ts := [];
    } else {
      assert ValidElem(es[0]);
      ElemReads(es[0]);
      var more := ElemsRead(es[1..]);
      ts := [RenderElem(es[0])] + more;
      assert ts[1..] == more;
    }
  }

  lemma {:induction false} ReadElems(ts: seq<bytes>, vs: seq<Json>) returns (es: seq<SElem>)
    requires AllRead(ts, vs)
    ensures ValidElems(es) && Meanings(es) == vs && Commas(ts) == RenderElems(es) && |ts| == |es| == |vs|
  {
    hide ParseText, RenderElem, Meaning, ElemFollows;
    if ts == [] {
      es := [];
    } else {
      var e := ReadElem(ts[0], vs[0]);
      var more := ReadElems(ts[1..], vs[1..]);
      es := [e] + more;
      assert es[1..] == more && vs == [vs[0]] + vs[1..];
    }
  }

  /** Brackets around white space, or around texts of values with commas between them. */
  ghost predicate IsArray(t: bytes, vs: seq<Json>) {
    || (vs == [] && exists b :: Blanks(b) && t == [0x5B] + b + [0x5D])
    || (vs != [] && exists ts :: AllRead(ts, vs) && t == [0x5B] + Commas(ts) + [0x5D])
  }

  /** The texts of arrays. */
  lemma ArraysExact(s: bytes, vs: seq<Json>)
    ensures ParseText(s) == Ok(Arr(vs), []) <==> exists t :: Around(s, t) && IsArray(t, vs)
  {
    hide ParseText, Around, IsArray;
    if ParseText(s) == Ok(Arr(vs), []) {
      var c := AcceptedTree(s, Arr(vs));
      ArrayIsOne(c);
    }
    if t :| Around(s, t) && IsArray(t, vs) {
      var c := ArrayOf(t, vs);
      TreeAccepted(s, c);
    }
  }

  lemma ArrayIsOne(c: Syntax)
    requires c.SArr? && Valid(c)
    ensures IsArray(Render(c), Meanings(c.elems))
  {
    hide Commas, AllRead;
    if c.elems == [] {
      BlanksAgree(c.ws);
    } else {
      var ts := ElemsRead(c.elems);
    }
  }

  lemma ArrayOf(t: bytes, vs: seq<Json>) returns (c: Syntax)
    requires IsArray(t, vs)
    ensures c.SArr? && Valid(c) && Render(c) == t && Meaning(c) == Arr(vs)
  {
    hide AllRead;
    if vs == [] {
      var b :| Blanks(b) && t == [0x5B] + b + [0x5D];
      BlanksAgree(b);
      c := SArr(b, []);
      assert ValidElems(c.elems);
    } else {
      var ts :| AllRead(ts, vs) && t == [0x5B] + Commas(ts) + [0x5D];
      var es := ReadElems(ts, vs);
      c := SArr([], es);
      assert AllWs(c.ws) && ValidElems(c.elems);
    }
  }

  // ---- objects ----

  /** A text of a key, a colon, and a text of a value. */
  ghost predicate IsMember(t: bytes, m: Member<Json>) {
    exists k, v :: IsPair(t, k, v, m)
  }

  ghost predicate IsPair(t: bytes, k: bytes, v: bytes, m: Member<Json>) {
    t == k + [0x3A] + v && ParseText(k) == Ok(Str(m.key), []) && ParseText(v) == Ok(m.value, [])
  }

  ghost predicate AllMembers(ts: seq<bytes>, ps: seq<Member<Json>>) {
    |ts| == |ps| && forall i :: 0 <= i < |ts| ==> IsMember(ts[i], ps[i])
  }

  lemma MemberIsOne(m: SMember)
    requires ValidMember(m)
    ensures IsMember(RenderMember(m), Pair1(m))
  {
    hide ParseText, Literal, EncodeAll, ItemsOk;
    var key := m.pre + Literal(m.key) + m.mid;
    BlanksAgree(m.pre);
    BlanksAgree(m.mid);
    assert IsAround(key, m.pre, Literal(m.key), m.mid);
    TreeAccepted(key, SStr(m.key));
    assert ValidElem(m.elem);
    ElemReads(m.elem);
    assert IsPair(RenderMember(m), key, RenderElem(m.elem), Pair1(m));
  }

  lemma MemberOf(t: bytes, p: Member<Json>) returns (m: SMember)
    requires IsMember(t, p)
    ensures ValidMember(m) && RenderMember(m) == t && Pair1(m) == p
  {
    hide ParseText, Literal, EncodeAll, ItemsOk, Blanks, AllWs;
    var k, v :| IsPair(t, k, v, p);
    var e := ReadElem(v, p.value);
    var c := AcceptedTree(k, Str(p.key));
    var pre, post :| IsAround(k, pre, Render(c), post);
    BlanksAgree(pre);
    BlanksAgree(post);
    m := SMember(pre, c.items, post, e);
    assert ValidElem(e);
  }

  lemma {:induction false} MembersRead(ms: seq<SMember>) returns (ts: seq<bytes>)
    requires ValidMembers(ms)
    ensures AllMembers(ts, Pairs(ms)) && Commas(ts) == RenderMembers(ms) && |ts| == |ms|
  {
    hide IsMember, RenderMember, Pair1;
    if ms == [] {
      ts := [];
    } else {
      assert ValidMember(ms[0]);
      MemberIsOne(ms[0]);
      var more := MembersRead(ms[1..]);
      ts := [RenderMember(ms[0])] + more;
      assert ts[1..] == more;
    }
  }

  lemma {:induction false} ReadMembers(ts: seq<bytes>, ps: seq<Member<Json>>) returns (ms: seq<SMember>)
    requires AllMembers(ts, ps)
    ensures ValidMembers(ms) && Pairs(ms) == ps && Commas(ts) == RenderMembers(ms) && |ts| == |ms|
  {
    hide IsMember, RenderMember, Pair1, MemberFollows;
    if ts == [] {
      ms := [];
    } else {
      var m := MemberOf(ts[0], ps[0]);
      var more := ReadMembers(ts[1..], ps[1..]);
      ms := [m] + more;
      assert ms[1..] == more && ps == [ps[0]] + ps[1..];
    }
  }

  /** Braces around white space, or around members with commas between them, which are set one after another. */
  ghost predicate IsObject(t: bytes, ms: seq<Member<Json>>) {
    || (ms == [] && exists b :: Blanks(b) && t == [0x7B] + b + [0x7D])
    || exists ts, ps ::
         ts != [] && AllMembers(ts, ps) && t == [0x7B] + Commas(ts) + [0x7D] && ms == SetMembers([], ps)
  }

  /** The texts of objects. */
  lemma ObjectsExact(s: bytes, ms: seq<Member<Json>>)
    ensures ParseText(s) == Ok(Obj(ms), []) <==> exists t :: Around(s, t) && IsObject(t, ms)
  {
    hide ParseText, Around, IsObject, SetMembers;
    if ParseText(s) == Ok(Obj(ms), []) {
      var c := AcceptedTree(s, Obj(ms));
      ObjectIsOne(c);
    }
    if t :| Around(s, t) && IsObject(t, ms) {
      var c := ObjectOf(t, ms);
      TreeAccepted(s, c);
    }
  }

  lemma ObjectIsOne(c: Syntax)
    requires c.SObj? && Valid(c)
    ensures IsObject(Render(c), SetMembers([], Pairs(c.members)))
  {
    hide Commas, AllMembers;
    if c.members == [] {
      BlanksAgree(c.ws);
    } else {
      var ts := MembersRead(c.members);
    }
  }

  lemma ObjectOf(t: bytes, ms: seq<Member<Json>>) returns (c: Syntax)
    requires IsObject(t, ms)
    ensures c.SObj? && Valid(c) && Render(c) == t && Meaning(c) == Obj(ms)
  {
    hide AllMembers;
    if ts, ps :| ts != [] && AllMembers(ts, ps) && t == [0x7B] + Commas(ts) + [0x7D] && ms == SetMembers([], ps) {
      var found := ReadMembers(ts, ps);
      c := SObj([], found);
      assert AllWs(c.ws) && ValidMembers(c.members);
    } else {
      var b :| Blanks(b) && t == [0x7B] + b + [0x7D];
      BlanksAgree(b);
      c := SObj(b, []);
      assert ValidMembers(c.members);
    }
  }
}
