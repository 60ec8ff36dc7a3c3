/**
 The JSON grammar as syntax trees, whitespace and escapes included, and the
 theorem that the reader accepts exactly the texts of the trees.
 */
module JsonGrammar {
  import opened Bytes
  import opened Strtod
  import opened Codec
  import opened Json
  import opened JsonString
  import opened JsonParse

  // ---- syntax trees ----

  /** The text of one value without the whitespace around it; `ws` is that of an empty array or object. */
  datatype Syntax =
    | SNull
    | STrue
    | SFalse
    | SNum(text: bytes)
    | SStr(items: seq<Item>)
    | SArr(ws: bytes, elems: seq<SElem>)
    | SObj(ws: bytes, members: seq<SMember>)

  datatype SElem = SElem(pre: bytes, v: Syntax, post: bytes)

  datatype SMember = SMember(pre: bytes, key: seq<Item>, mid: bytes, elem: SElem)

  ghost predicate AllWs(s: bytes) {
    forall i :: 0 <= i < |s| ==> IsWs(s[i])
  }

  /** What a grammar says of literals and of numbers. */
  type LiteralRule = seq<Item> -> bool
  type NumberRule = bytes -> bool

  /** A tree that follows the grammar; `lit` says what a literal is made of and `num` what a number is. */
  ghost predicate Follows(c: Syntax, lit: LiteralRule, num: NumberRule)
    decreases c, 1
  {
    match c
    case SNull => true
    case STrue => true
    case SFalse => true
    case SNum(t) => num(t)
    case SStr(items) => lit(items)
    case SArr(ws, es) => AllWs(ws) && (es == [] || ws == []) && ElemsFollow(es, lit, num)
    case SObj(ws, ms) => AllWs(ws) && (ms == [] || ws == []) && MembersFollow(ms, lit, num)
  }

  ghost predicate ElemFollows(e: SElem, lit: LiteralRule, num: NumberRule)
    decreases e, 2
  {
    AllWs(e.pre) && Follows(e.v, lit, num) && AllWs(e.post)
  }

  ghost predicate ElemsFollow(es: seq<SElem>, lit: LiteralRule, num: NumberRule)
    decreases es, 0
  {
    es == [] || (ElemFollows(es[0], lit, num) && ElemsFollow(es[1..], lit, num))
  }

  ghost predicate MemberFollows(m: SMember, lit: LiteralRule, num: NumberRule)
    decreases m, 3
  {
    AllWs(m.pre) && lit(m.key) && AllWs(m.mid) && ElemFollows(m.elem, lit, num)
  }

  ghost predicate MembersFollow(ms: seq<SMember>, lit: LiteralRule, num: NumberRule)
    decreases ms, 0
  {
    ms == [] || (MemberFollows(ms[0], lit, num) && MembersFollow(ms[1..], lit, num))
  }

  /** What the library takes for a literal: every high surrogate is one of a pair. */
  ghost predicate ItemsOk(items: seq<Item>) {
    All(ItemOk, items)
  }

  /** What the library takes for a number. */
  ghost predicate NumOk(t: bytes) {
    StartsNumber(t) && NumberLength(t) == |t|
  }

  /** A tree that follows the grammar of the library. */
  ghost predicate Valid(c: Syntax) {
    Follows(c, ItemsOk, NumOk)
  }

  ghost predicate ValidElem(e: SElem) {
    ElemFollows(e, ItemsOk, NumOk)
  }

  ghost predicate ValidElems(es: seq<SElem>) {
    ElemsFollow(es, ItemsOk, NumOk)
  }

  ghost predicate ValidMember(m: SMember) {
    MemberFollows(m, ItemsOk, NumOk)
  }

  ghost predicate ValidMembers(ms: seq<SMember>) {
    MembersFollow(ms, ItemsOk, NumOk)
  }

  function Literal(items: seq<Item>): bytes {
    [QUOTE] + EncodeAll(RenderItem, items) + [QUOTE]
  }

  function Render(c: Syntax): bytes
    decreases c, 1
  {
    match c
    case SNull => NULL_TEXT
    case STrue => TRUE_TEXT
    case SFalse => FALSE_TEXT
    case SNum(t) => t
    case SStr(items) => Literal(items)
    case SArr(ws, es) => [LBRACKET] + (if es == [] then ws else RenderElems(es)) + [RBRACKET]
    case SObj(ws, ms) => [LBRACE] + (if ms == [] then ws else RenderMembers(ms)) + [RBRACE]
  }

  function RenderElem(e: SElem): bytes
    decreases e, 2
  {
    e.pre + Render(e.v) + e.post
  }

  function RenderElems(es: seq<SElem>): bytes
    decreases es, 0
  {
    if es == [] then []
    else RenderElem(es[0]) + if |es| == 1 then [] else [COMMA] + RenderElems(es[1..])
  }

  function RenderKey(m: SMember): bytes {
    m.pre + Literal(m.key) + m.mid + [COLON]
  }

  function RenderMember(m: SMember): bytes
    decreases m, 3
  {
    RenderKey(m) + RenderElem(m.elem)
  }

  function RenderMembers(ms: seq<SMember>): bytes
    decreases ms, 0
  {
    if ms == [] then []
    else RenderMember(ms[0]) + if |ms| == 1 then [] else [COMMA] + RenderMembers(ms[1..])
  }

  /** The value that a tree stands for. Members are set one after another. */
  function Meaning(c: Syntax): Json
    decreases c, 1
  {
    match c
    case SNull => Null
    case STrue => Bool(true)
    case SFalse => Bool(false)
    case SNum(t) => Num(NumberValue(t))
    case SStr(items) => Str(EncodeAll(ItemBytes, items))
    case SArr(_, es) => Arr(Meanings(es))
    case SObj(_, ms) => Obj(SetMembers([], Pairs(ms)))
  }

  function Meanings(es: seq<SElem>): seq<Json>
    decreases es, 0
  {
    if es == [] then [] else [Meaning(es[0].v)] + Meanings(es[1..])
  }

  function Pair1(m: SMember): Member<Json>
    decreases m, 2
  {
    Member(EncodeAll(ItemBytes, m.key), Meaning(m.elem.v))
  }

  function Pairs(ms: seq<SMember>): seq<Member<Json>>
    decreases ms, 0
  {
    if ms == [] then [] else [Pair1(ms[0])] + Pairs(ms[1..])
  }

  // ---- tokens ----

  lemma {:induction false} SkipWsOver(ws: bytes, s: bytes)
    requires AllWs(ws)
    ensures SkipWs(ws + s) == SkipWs(s)
  {
    if ws == [] {
      assert ws + s == s;
    } else {
      assert (ws + s)[1..] == ws[1..] + s;
      SkipWsOver(ws[1..], s);
    }
  }

  lemma {:induction false} SkippedWs(s: bytes) returns (ws: bytes)
    ensures AllWs(ws) && s == ws + SkipWs(s)
  {
    if s != [] && IsWs(s[0]) {
      var more := SkippedWs(s[1..]);
      ws := [s[0]] + more;
      assert s == [s[0]] + s[1..];
    } else {
      ws := [];
    }
  }

  lemma NumberComplete(t: bytes, rest: bytes)
    requires NumOk(t) && EndsNumber(rest)
    ensures ParseNumber(t + rest) == Ok(Num(NumberValue(t)), rest)
  {
    hide NumberLength, NumberValue;
    NumberStops(t, rest);
    assert (t + rest)[..|t|] == t && (t + rest)[|t|..] == rest;
  }

  lemma NumberSound(s: bytes) returns (c: Syntax)
    requires StartsNumber(s) && ParseNumber(s).Ok?
    ensures Valid(c) && Meaning(c) == ParseNumber(s).value && s == Render(c) + ParseNumber(s).rest
  {
    hide NumberLength, NumberValue;
    var n := NumberLength(s);
    NumberAlone(s);
    c := SNum(s[..n]);
  }

  // ---- the reader accepts every tree ----

  lemma SkipWsStops(ws: bytes, c: byte, s: bytes)
    requires AllWs(ws) && !IsWs(c)
    ensures SkipWs(ws + ([c] + s)) == [c] + s
  {
    SkipWsOver(ws, [c] + s);
  }

  /** The bytes that no value starts with. */
  lemma FirstByte(c: Syntax)
    requires Valid(c)
    ensures var r := Render(c);
            r != [] && !IsWs(r[0]) && r[0] != COMMA && r[0] != COLON && r[0] != RBRACKET && r[0] != RBRACE
  {
  }

  lemma HeadOut(pre: bytes, r: bytes, rest: bytes)
    requires r != []
    ensures pre + r + rest == pre + ([r[0]] + (r[1..] + rest))
    ensures [r[0]] + (r[1..] + rest) == r + rest
  {
  }

  lemma Assoc(a: bytes, b: bytes, c: bytes)
    ensures a + b + c == a + (b + c)
  {
  }

  lemma ValueAt(pre: bytes, c: Syntax, rest: bytes)
    requires AllWs(pre) && Valid(c)
    ensures SkipWs(pre + Render(c) + rest) == Render(c) + rest
    ensures ParseValue(pre + Render(c) + rest) == ParseAt(Render(c) + rest)
  {
    FirstByte(c);
    var r := Render(c);
    SkipWsStops(pre, r[0], r[1..] + rest);
    HeadOut(pre, r, rest);
  }

  lemma ParseValueSkips(s: bytes)
    ensures ParseValue(SkipWs(s)) == ParseValue(s)
  {
  }

  lemma AtLiteral(c: Syntax, rest: bytes)
    requires c.SNull? || c.STrue? || c.SFalse?
    ensures ParseAt(Render(c) + rest) == Ok(Meaning(c), rest)
  {
    var text := Render(c);
    assert text <= text + rest && (text + rest)[|text|..] == rest;
    assert (text + rest)[0] == text[0];
  }

  lemma AtString(items: seq<Item>, rest: bytes)
    requires All(ItemOk, items)
    ensures ParseAt(Literal(items) + rest) == Ok(Str(EncodeAll(ItemBytes, items)), rest)
  {
    ParseStringOfItems(items, rest);
    assert (Literal(items) + rest)[0] == QUOTE;
  }

  lemma AtNumber(t: bytes, rest: bytes)
    requires NumOk(t) && EndsNumber(rest)
    ensures ParseAt(t + rest) == Ok(Num(NumberValue(t)), rest)
  {
    hide NumberLength, NumberValue, ParseNumber;
    NumberComplete(t, rest);
    assert (t + rest)[0] == t[0];
  }

  /** What follows the first element's value, up to the closing byte and beyond. */
  function ElemTail(es: seq<SElem>, rest: bytes): bytes
    requires es != []
  {
    if |es| == 1 then [RBRACKET] + rest else [COMMA] + (RenderElems(es[1..]) + [RBRACKET] + rest)
  }

  lemma ElemsSplit(es: seq<SElem>, rest: bytes)
    requires es != []
    ensures RenderElems(es) + [RBRACKET] + rest == es[0].pre + Render(es[0].v) + (es[0].post + ElemTail(es, rest))
  {
    var r := RenderElem(es[0]);
    if |es| == 1 {
      assert RenderElems(es) == r + [] == r;
      Assoc(r, [RBRACKET], rest);
    } else {
      SeparatorSplit(r, RenderElems(es[1..]), RBRACKET, rest);
    }
    Assoc(es[0].pre + Render(es[0].v), es[0].post, ElemTail(es, rest));
  }

  lemma SeparatorSplit(r: bytes, more: bytes, close: byte, rest: bytes)
    ensures r + ([COMMA] + more) + [close] + rest == r + ([COMMA] + (more + [close] + rest))
  {
  }

  function MemberTail(ms: seq<SMember>, rest: bytes): bytes
    requires ms != []
  {
    if |ms| == 1 then [RBRACE] + rest else [COMMA] + (RenderMembers(ms[1..]) + [RBRACE] + rest)
  }

  lemma MembersSplit(ms: seq<SMember>, rest: bytes)
    requires ms != []
    ensures var e := ms[0].elem;
            RenderMembers(ms) + [RBRACE] + rest
            == RenderKey(ms[0]) + (e.pre + Render(e.v) + (e.post + MemberTail(ms, rest)))
  {
    var e, r, tail := ms[0].elem, RenderMember(ms[0]), MemberTail(ms, rest);
    if |ms| == 1 {
      assert RenderMembers(ms) == r + [] == r;
      Assoc(r, [RBRACE], rest);
    } else {
      SeparatorSplit(r, RenderMembers(ms[1..]), RBRACE, rest);
    }
    Assoc(RenderKey(ms[0]), RenderElem(e), tail);
    Assoc(e.pre + Render(e.v), e.post, tail);
  }

  /** Whitespace and then a comma or a closing byte end a number, and are skipped up to that byte. */
  lemma TailAt(post: bytes, c: byte, s: bytes)
    requires AllWs(post) && (c == COMMA || c == RBRACKET || c == RBRACE)
    ensures EndsNumber(post + ([c] + s)) && SkipWs(post + ([c] + s)) == [c] + s
  {
    SkipWsStops(post, c, s);
    if post != [] {
      assert IsWs(post[0]);
    }
  }

  lemma KeyComplete(m: SMember, rest: bytes)
    requires ValidMember(m)
    ensures ParseKey(RenderKey(m) + rest) == Some((EncodeAll(ItemBytes, m.key), rest))
  {
    var after := m.mid + ([COLON] + rest);
    var lit := Literal(m.key);
    assert RenderKey(m) + rest == m.pre + ([QUOTE] + (lit[1..] + after));
    SkipWsStops(m.pre, QUOTE, lit[1..] + after);
    assert [QUOTE] + (lit[1..] + after) == lit + after;
    ParseStringOfItems(m.key, after);
    SkipWsStops(m.mid, COLON, rest);
    assert ([COLON] + rest)[1..] == rest;
  }

  /** Every tree is read, whatever whitespace precedes it, and gives its meaning. */
  lemma {:induction false} ValueComplete(pre: bytes, c: Syntax, rest: bytes)
    requires AllWs(pre) && Valid(c) && (c.SNum? ==> EndsNumber(rest))
    ensures ParseValue(pre + Render(c) + rest) == Ok(Meaning(c), rest)
    decreases c, 1
  {
    ValueAt(pre, c, rest);
    match c
    case SNull => AtLiteral(c, rest);
    case STrue => AtLiteral(c, rest);
    case SFalse => AtLiteral(c, rest);
    case SNum(t) => AtNumber(t, rest);
    case SStr(items) => AtString(items, rest);
    case SArr(ws, es) =>
      if es == [] {
        EmptyArray(ws, rest);
      } else {
        ElemsComplete(es, [], rest);
        NonEmptyArray(es, rest);
        assert [] + Meanings(es) == Meanings(es);
      }
    case SObj(ws, ms) =>
      if ms == [] {
        EmptyObject(ws, rest);
      } else {
        MembersComplete(ms, [], rest);
        NonEmptyObject(ms, rest);
      }
  }

  lemma Bracketed(open: byte, body: bytes, close: byte, rest: bytes)
    ensures var t := [open] + body + [close] + rest; t[0] == open && t[1..] == body + [close] + rest
  {
  }

  lemma EmptyArray(ws: bytes, rest: bytes)
    requires AllWs(ws)
    ensures ParseAt([LBRACKET] + ws + [RBRACKET] + rest) == Ok(Arr([]), rest)
  {
    var t := [LBRACKET] + ws + [RBRACKET] + rest;
    assert t[0] == LBRACKET && t[1..] == ws + ([RBRACKET] + rest);
    SkipWsStops(ws, RBRACKET, rest);
    assert ([RBRACKET] + rest)[1..] == rest;
  }

  lemma EmptyObject(ws: bytes, rest: bytes)
    requires AllWs(ws)
    ensures ParseAt([LBRACE] + ws + [RBRACE] + rest) == Ok(Obj([]), rest)
  {
    var t := [LBRACE] + ws + [RBRACE] + rest;
    assert t[0] == LBRACE && t[1..] == ws + ([RBRACE] + rest);
    SkipWsStops(ws, RBRACE, rest);
    assert ([RBRACE] + rest)[1..] == rest;
  }

  lemma ParseElemsSkips(s: bytes, acc: seq<Json>)
    ensures ParseElems(SkipWs(s), acc) == ParseElems(s, acc)
  {
    ParseValueSkips(s);
  }

  lemma NonEmptyArray(es: seq<SElem>, rest: bytes)
    requires es != [] && ValidElems(es)
    ensures ParseAt([LBRACKET] + RenderElems(es) + [RBRACKET] + rest)
         == ParseElems(RenderElems(es) + [RBRACKET] + rest, [])
  {
    assert ValidElem(es[0]) && Valid(es[0].v);
    var s := RenderElems(es) + [RBRACKET] + rest;
    Bracketed(LBRACKET, RenderElems(es), RBRACKET, rest);
    ElemsSplit(es, rest);
    ValueAt(es[0].pre, es[0].v, es[0].post + ElemTail(es, rest));
    FirstByte(es[0].v);
    ParseElemsSkips(s, []);
  }

  lemma ParseMembersSkips(s: bytes, acc: seq<Member<Json>>)
    ensures ParseMembers(SkipWs(s), acc) == ParseMembers(s, acc)
  {
    assert ParseKey(SkipWs(s)) == ParseKey(s);
  }

  lemma MembersHead(ms: seq<SMember>, rest: bytes) returns (more: bytes)
    requires ms != []
    ensures RenderMembers(ms) + [RBRACE] + rest == ms[0].pre + ([QUOTE] + more)
  {
    var e, m := ms[0].elem, ms[0];
    var x := e.pre + Render(e.v) + (e.post + MemberTail(ms, rest));
    MembersSplit(ms, rest);
    more := EncodeAll(RenderItem, m.key) + [QUOTE] + m.mid + [COLON] + x;
    KeyHead(m.pre, EncodeAll(RenderItem, m.key), m.mid, x);
  }

  lemma KeyHead(pre: bytes, items: bytes, mid: bytes, x: bytes)
    ensures pre + ([QUOTE] + items + [QUOTE]) + mid + [COLON] + x
         == pre + ([QUOTE] + (items + [QUOTE] + mid + [COLON] + x))
  {
  }

  lemma NonEmptyObject(ms: seq<SMember>, rest: bytes)
    requires ms != [] && ValidMembers(ms)
    ensures ParseAt([LBRACE] + RenderMembers(ms) + [RBRACE] + rest)
         == ParseMembers(RenderMembers(ms) + [RBRACE] + rest, [])
  {
    hide RenderMembers, ParseMembers, SkipWs;
    var s := RenderMembers(ms) + [RBRACE] + rest;
    Bracketed(LBRACE, RenderMembers(ms), RBRACE, rest);
    var more := MembersHead(ms, rest);
    assert ValidMember(ms[0]);
    SkipWsStops(ms[0].pre, QUOTE, more);
    ParseMembersSkips(s, []);
  }

  lemma {:induction false} ElemsComplete(es: seq<SElem>, acc: seq<Json>, rest: bytes)
    requires es != [] && ValidElems(es)
    ensures ParseElems(RenderElems(es) + [RBRACKET] + rest, acc) == Ok(Arr(acc + Meanings(es)), rest)
    decreases es, 0
  {
    var e, tail := es[0], ElemTail(es, rest);
    assert ValidElem(e) && Valid(e.v);
    ElemsSplit(es, rest);
    TailAt(e.post, tail[0], tail[1..]);
    assert tail == [tail[0]] + tail[1..];
    ValueComplete(e.pre, e.v, e.post + tail);
    if |es| == 1 {
      assert tail[1..] == rest;
      assert Meanings(es) == [Meaning(e.v)];
    } else {
      assert tail[1..] == RenderElems(es[1..]) + [RBRACKET] + rest;
      ElemsComplete(es[1..], acc + [Meaning(e.v)], rest);
      assert acc + [Meaning(e.v)] + Meanings(es[1..]) == acc + Meanings(es);
    }
  }

  lemma PairsOne(ms: seq<SMember>, acc: seq<Member<Json>>)
    requires |ms| == 1
    ensures SetMembers(acc, Pairs(ms)) == SetMember(acc, Pair1(ms[0]).key, Pair1(ms[0]).value)
  {
    assert Pairs(ms) == [Pair1(ms[0])];
    assert Pairs(ms)[1..] == [];
  }

  lemma PairsMore(ms: seq<SMember>, acc: seq<Member<Json>>)
    requires ms != []
    ensures SetMembers(acc, Pairs(ms))
         == SetMembers(SetMember(acc, Pair1(ms[0]).key, Pair1(ms[0]).value), Pairs(ms[1..]))
  {
    assert Pairs(ms)[1..] == Pairs(ms[1..]);
  }

  lemma {:induction false} MembersComplete(ms: seq<SMember>, acc: seq<Member<Json>>, rest: bytes)
    requires ms != [] && ValidMembers(ms)
    ensures ParseMembers(RenderMembers(ms) + [RBRACE] + rest, acc) == Ok(Obj(SetMembers(acc, Pairs(ms))), rest)
    decreases ms, 0
  {
    var e, tail := ms[0].elem, MemberTail(ms, rest);
    assert ValidMember(ms[0]) && ValidElem(e);
    MembersSplit(ms, rest);
    TailAt(e.post, tail[0], tail[1..]);
    assert tail == [tail[0]] + tail[1..];
    KeyComplete(ms[0], e.pre + Render(e.v) + (e.post + tail));
    ValueComplete(e.pre, e.v, e.post + tail);
    var acc' := SetMember(acc, EncodeAll(ItemBytes, ms[0].key), Meaning(e.v));
    if |ms| == 1 {
      assert tail[1..] == rest;
      PairsOne(ms, acc);
    } else {
      assert tail[1..] == RenderMembers(ms[1..]) + [RBRACE] + rest;
      MembersComplete(ms[1..], acc', rest);
      PairsMore(ms, acc);
    }
  }

  // ---- every text that is read is that of a tree ----

  lemma Headed(t: bytes)
    requires t != []
    ensures t == [t[0]] + t[1..]
  {
  }

  lemma LiteralSound(t: bytes, text: bytes, v: Json)
    requires ParseLiteral(t, text, v).Ok?
    ensures t == text + ParseLiteral(t, text, v).rest && ParseLiteral(t, text, v).value == v
  {
  }

  /** The tree of a value that is read, and the whitespace before it. */
  lemma {:induction false} ValueSound(s: bytes) returns (pre: bytes, c: Syntax)
    requires ParseValue(s).Ok?
    ensures AllWs(pre) && Valid(c) && Meaning(c) == ParseValue(s).value
    ensures s == pre + Render(c) + ParseValue(s).rest
    decreases |s|, 2
  {
    pre := SkippedWs(s);
    c := AtSound(SkipWs(s));
    Assoc(pre, Render(c), ParseValue(s).rest);
  }

  lemma {:induction false} AtSound(t: bytes) returns (c: Syntax)
    requires ParseAt(t).Ok?
    ensures Valid(c) && Meaning(c) == ParseAt(t).value && t == Render(c) + ParseAt(t).rest
    decreases |t|, 1
  {
    if t[0] == 0x6E {
      c := SNull;
      LiteralSound(t, NULL_TEXT, Null);
    } else if t[0] == 0x74 {
      c := STrue;
      LiteralSound(t, TRUE_TEXT, Bool(true));
    } else if t[0] == 0x66 {
      c := SFalse;
      LiteralSound(t, FALSE_TEXT, Bool(false));
    } else if t[0] == QUOTE {
      var items := ItemsOfParseString(t);
      c := SStr(items);
    } else if t[0] == LBRACKET {
      c := ArraySound(t);
    } else if t[0] == LBRACE {
      c := ObjectSound(t);
    } else {
      c := NumberSound(t);
    }
  }

  lemma {:induction false} ArraySound(t: bytes) returns (c: Syntax)
    requires t != [] && t[0] == LBRACKET && ParseAt(t).Ok?
    ensures Valid(c) && Meaning(c) == ParseAt(t).value && t == Render(c) + ParseAt(t).rest
    decreases |t|, 0
  {
    var ws := SkippedWs(t[1..]);
    var u := SkipWs(t[1..]);
    if u != [] && u[0] == RBRACKET {
      c := SArr(ws, []);
      Headed(u);
      Rebracket(t, LBRACKET, ws, RBRACKET, u[1..]);
    } else {
      var es := ElemsSound(u, []);
      var rest := ParseElems(u, []).rest;
      Assoc(RenderElems(es), [RBRACKET], rest);
      es := PadElems(ws, es, [RBRACKET] + rest);
      c := SArr([], es);
      Rebracket(t, LBRACKET, RenderElems(es), RBRACKET, rest);
      assert [] + Meanings(es) == Meanings(es);
    }
  }

  lemma {:induction false} ObjectSound(t: bytes) returns (c: Syntax)
    requires t != [] && t[0] == LBRACE && ParseAt(t).Ok?
    ensures Valid(c) && Meaning(c) == ParseAt(t).value && t == Render(c) + ParseAt(t).rest
    decreases |t|, 0
  {
    var ws := SkippedWs(t[1..]);
    var u := SkipWs(t[1..]);
    if u != [] && u[0] == RBRACE {
      c := SObj(ws, []);
      Headed(u);
      Rebracket(t, LBRACE, ws, RBRACE, u[1..]);
    } else {
      var ms := MembersSound(u, []);
      var rest := ParseMembers(u, []).rest;
      Assoc(RenderMembers(ms), [RBRACE], rest);
      ms := PadMembers(ws, ms, [RBRACE] + rest);
      c := SObj([], ms);
      Rebracket(t, LBRACE, RenderMembers(ms), RBRACE, rest);
    }
  }

  lemma Rebracket(t: bytes, open: byte, body: bytes, close: byte, rest: bytes)
    requires t != [] && t[0] == open && (t[1..] == body + [close] + rest || t[1..] == body + ([close] + rest))
    ensures t == [open] + body + [close] + rest
  {
    Headed(t);
    Assoc(body, [close], rest);
  }

  /** Whitespace put in front of the first element. */
  lemma PadElems(ws: bytes, es: seq<SElem>, x: bytes) returns (r: seq<SElem>)
    requires AllWs(ws) && es != [] && ValidElems(es)
    ensures r != [] && ValidElems(r) && Meanings(r) == Meanings(es)
    ensures ws + (RenderElems(es) + x) == RenderElems(r) + x
  {
    assert ValidElem(es[0]);
    var e := SElem(ws + es[0].pre, es[0].v, es[0].post);
    r := [e] + es[1..];
    assert r[1..] == es[1..];
    var tail := if |es| == 1 then [] else [COMMA] + RenderElems(es[1..]);
    PadText(ws, es[0].pre, Render(es[0].v), es[0].post, tail);
    Assoc(ws, RenderElems(es), x);
  }

  lemma PadText(ws: bytes, pre: bytes, v: bytes, post: bytes, tail: bytes)
    ensures ws + (pre + v + post + tail) == (ws + pre) + v + post + tail
  {
  }

  lemma PadKey(ws: bytes, pre: bytes, lit: bytes, mid: bytes, e: bytes, tail: bytes)
    ensures ws + (pre + lit + mid + [COLON] + e + tail) == (ws + pre) + lit + mid + [COLON] + e + tail
  {
  }

  lemma PadMembers(ws: bytes, ms: seq<SMember>, x: bytes) returns (r: seq<SMember>)
    requires AllWs(ws) && ms != [] && ValidMembers(ms)
    ensures r != [] && ValidMembers(r) && Pairs(r) == Pairs(ms)
    ensures ws + (RenderMembers(ms) + x) == RenderMembers(r) + x
  {
    assert ValidMember(ms[0]) && ValidElem(ms[0].elem);
    var m := SMember(ws + ms[0].pre, ms[0].key, ms[0].mid, ms[0].elem);
    r := [m] + ms[1..];
    assert r[1..] == ms[1..];
    assert ValidMember(m);
    var tail := if |ms| == 1 then [] else [COMMA] + RenderMembers(ms[1..]);
    PadKey(ws, ms[0].pre, Literal(m.key), m.mid, RenderElem(m.elem), tail);
    Assoc(ws, RenderMembers(ms), x);
  }

  /** One element with the whitespace around it. */
  lemma {:induction false} ElemSound(s: bytes) returns (e: SElem)
    requires ParseValue(s).Ok?
    ensures ValidElem(e) && Meaning(e.v) == ParseValue(s).value
    ensures s == RenderElem(e) + SkipWs(ParseValue(s).rest)
    decreases |s|, 3
  {
    var pre, c := ValueSound(s);
    var after := ParseValue(s).rest;
    var post := SkippedWs(after);
    e := SElem(pre, c, post);
    Assoc(pre + Render(c), post, SkipWs(after));
  }

  lemma {:induction false} ElemsSound(s: bytes, acc: seq<Json>) returns (es: seq<SElem>)
    requires ParseElems(s, acc).Ok?
    ensures es != [] && ValidElems(es) && ParseElems(s, acc).value == Arr(acc + Meanings(es))
    ensures s == RenderElems(es) + [RBRACKET] + ParseElems(s, acc).rest
    decreases |s|, 4
  {
    var e := ElemSound(s);
    var v := Meaning(e.v);
    var t := SkipWs(ParseValue(s).rest);
    Headed(t);
    if t[0] == COMMA {
      var more := ElemsSound(t[1..], acc + [v]);
      es := [e] + more;
      assert es[1..] == more;
      SeparatorSplit(RenderElem(e), RenderElems(more), RBRACKET, ParseElems(s, acc).rest);
      assert acc + [v] + Meanings(more) == acc + Meanings(es);
    } else {
      es := [e];
      assert RenderElems(es) == RenderElem(e) + [] == RenderElem(e);
      Assoc(RenderElem(e), [RBRACKET], t[1..]);
      assert Meanings(es) == [v];
    }
  }

  lemma KeySound(s: bytes) returns (pre: bytes, key: seq<Item>, mid: bytes)
    requires ParseKey(s).Some?
    ensures AllWs(pre) && All(ItemOk, key) && AllWs(mid)
    ensures EncodeAll(ItemBytes, key) == ParseKey(s).value.0
    ensures s == pre + Literal(key) + mid + [COLON] + ParseKey(s).value.1
  {
    pre := SkippedWs(s);
    var u := SkipWs(s);
    key := ItemsOfParseString(u);
    var after := ParseString(u).value.1;
    mid := SkippedWs(after);
    Headed(SkipWs(after));
    KeyText(s, pre, u, Literal(key), after, mid, ParseKey(s).value.1);
  }

  lemma KeyText(s: bytes, pre: bytes, u: bytes, lit: bytes, after: bytes, mid: bytes, rest: bytes)
    requires s == pre + u && u == lit + after && after == mid + ([COLON] + rest)
    ensures s == pre + lit + mid + [COLON] + rest
  {
  }

  /** One member with the whitespace around it. */
  lemma {:induction false} MemberSound(s: bytes) returns (m: SMember)
    requires ParseKey(s).Some? && ParseValue(ParseKey(s).value.1).Ok?
    ensures ValidMember(m) && EncodeAll(ItemBytes, m.key) == ParseKey(s).value.0
    ensures Meaning(m.elem.v) == ParseValue(ParseKey(s).value.1).value
    ensures s == RenderMember(m) + SkipWs(ParseValue(ParseKey(s).value.1).rest)
    decreases |s|, 3
  {
    var pre, key, mid := KeySound(s);
    var e := ElemSound(ParseKey(s).value.1);
    m := SMember(pre, key, mid, e);
    Assoc(RenderKey(m), RenderElem(e), SkipWs(ParseValue(ParseKey(s).value.1).rest));
  }

  lemma {:induction false} MembersSound(s: bytes, acc: seq<Member<Json>>) returns (ms: seq<SMember>)
    requires ParseMembers(s, acc).Ok?
    ensures ms != [] && ValidMembers(ms) && ParseMembers(s, acc).value == Obj(SetMembers(acc, Pairs(ms)))
    ensures s == RenderMembers(ms) + [RBRACE] + ParseMembers(s, acc).rest
    decreases |s|, 4
  {
    var m := MemberSound(s);
    var t := SkipWs(ParseValue(ParseKey(s).value.1).rest);
    var acc' := SetMember(acc, EncodeAll(ItemBytes, m.key), Meaning(m.elem.v));
    Headed(t);
    if t[0] == COMMA {
      var more := MembersSound(t[1..], acc');
      ms := [m] + more;
      assert ms[1..] == more;
      SeparatorSplit(RenderMember(m), RenderMembers(more), RBRACE, ParseMembers(s, acc).rest);
      PairsMore(ms, acc);
    } else {
      ms := [m];
      assert RenderMembers(ms) == RenderMember(m) + [] == RenderMember(m);
      Assoc(RenderMember(m), [RBRACE], t[1..]);
      PairsOne(ms, acc);
    }
  }

  // ---- the theorem ----

  /** `text` is that of tree `c` with whitespace on both sides. */
  ghost predicate IsTextOf(text: bytes, pre: bytes, c: Syntax, post: bytes) {
    AllWs(pre) && Valid(c) && AllWs(post) && text == pre + Render(c) + post
  }

  /**
   The reader accepts exactly the texts of the grammar, with whitespace anywhere
   between tokens, and returns what the tree means.
   */
  lemma ParseTextExact(text: bytes, v: Json)
    ensures ParseText(text) == Ok(v, []) <==> exists pre, c, post :: IsTextOf(text, pre, c, post) && Meaning(c) == v
  {
    if ParseText(text) == Ok(v, []) {
      var pre, c := ValueSound(text);
      var post := SkippedWs(ParseValue(text).rest);
      assert IsTextOf(text, pre, c, post);
    }
    forall pre, c, post | IsTextOf(text, pre, c, post)
      ensures ParseText(text) == Ok(Meaning(c), [])
    {
      assert post != [] ==> IsWs(post[0]);
      ValueComplete(pre, c, post);
      SkipWsOver(post, []);
      assert post + [] == post;
    }
  }

  lemma NothingLeft(text: bytes)
    requires ParseText(text).Ok?
    ensures ParseText(text).rest == []
  {
    hide ParseValue;
  }
}
