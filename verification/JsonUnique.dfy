/**
 The grammar is unambiguous: no text has two trees. This is shown of a looser grammar,
 which the library's and that of RFC 8259 are part of, where every escape stands alone.
 */
module JsonUnique {
  import opened Bytes
  import opened Strtod
  import opened Codec
  import opened Json
  import opened JsonString
  import opened JsonParse
  import opened JsonGrammar

  // ---- the looser grammar ----

  predicate LooseItem(it: Item) {
    match it
    case Raw(b) => b != QUOTE && b != BACKSLASH
    case Short(c) => ShortValue(c).Some?
    case Escape(h) => Hex4(h).Some?
    case Pair(_, _) => false
  }

  ghost predicate LooseItems(items: seq<Item>) {
    All(LooseItem, items)
  }

  ghost predicate Loose(c: Syntax) {
    Follows(c, LooseItems, NumOk)
  }

  /** The item at the head of `s`, every `\u` escape being one of its own. */
  function NextLoose(s: bytes): Option<(Item, nat)> {
    if s == [] || s[0] == QUOTE then None
    else if s[0] != BACKSLASH then Some((Raw(s[0]), 1))
    else if |s| < 2 then None
    else if ShortValue(s[1]).Some? then Some((Short(s[1]), 2))
    else if s[1] != LETTER_U || |s| < 6 || Hex4(s[2..6]).None? then None
    else Some((Escape(s[2..6]), 6))
  }

  lemma NextLooseOfRender(it: Item, rest: bytes)
    requires LooseItem(it)
    ensures NextLoose(RenderItem(it) + rest) == Some((it, |RenderItem(it)|))
  {
    hide Hex4;
    var s := RenderItem(it) + rest;
    match it
    case Raw(b) =>
    case Short(c) => assert s[1] == c;
    case Escape(h) => assert s[1] == LETTER_U && s[2..6] == h;
  }

  lemma LooseItemsAreACode()
    ensures ReadsBack(RenderItem, NextLoose, LooseItem) && NeverStarts(RenderItem, LooseItem, QUOTE)
  {
    forall it: Item, rest: bytes | LooseItem(it)
      ensures NextLoose(RenderItem(it) + rest) == Some((it, |RenderItem(it)|))
    {
      NextLooseOfRender(it, rest);
    }
  }

  // ---- no text has two trees ----

  /** White space ends in one place. */
  lemma SameWs(ws: bytes, c: byte, s: bytes, ws': bytes, c': byte, s': bytes)
    requires AllWs(ws) && AllWs(ws') && !IsWs(c) && !IsWs(c') && ws + ([c] + s) == ws' + ([c'] + s')
    ensures ws == ws' && c == c' && s == s'
  {
    var t, t' := ws + ([c] + s), ws' + ([c'] + s');
    assert t[|ws|] == c && t'[|ws'|] == c';
    assert t[..|ws|] == ws && t'[..|ws'|] == ws' && t[|ws| + 1..] == s && t'[|ws'| + 1..] == s';
  }

  lemma LiteralBody(items: seq<Item>, r: bytes)
    ensures Literal(items) + r == [QUOTE] + (EncodeAll(RenderItem, items) + [QUOTE] + r)
    ensures (Literal(items) + r)[1..] == EncodeAll(RenderItem, items) + [QUOTE] + r
  {
  }

  lemma SameLiteral(items: seq<Item>, r: bytes, items': seq<Item>, r': bytes)
    requires LooseItems(items) && LooseItems(items') && Literal(items) + r == Literal(items') + r'
    ensures items == items' && r == r'
  {
    hide EncodeAll, DecodeUntil, Literal, ReadsBack, NeverStarts;
    LooseItemsAreACode();
    LiteralBody(items, r);
    LiteralBody(items', r');
    DecodeUntilOfEncode(RenderItem, NextLoose, LooseItem, QUOTE, items, r);
    DecodeUntilOfEncode(RenderItem, NextLoose, LooseItem, QUOTE, items', r');
  }

  lemma SameNumber(t: bytes, r: bytes, t': bytes, r': bytes)
    requires NumOk(t) && NumOk(t') && EndsNumber(r) && EndsNumber(r') && t + r == t' + r'
    ensures t == t' && r == r'
  {
    hide NumberLength;
    NumberStops(t, r);
    NumberStops(t', r');
    assert (t + r)[..|t|] == t && (t + r)[|t|..] == r && (t' + r')[..|t|] == t' && (t' + r')[|t|..] == r';
  }

  /** Its first byte says of which kind a value is. */
  lemma FirstByteLoose(c: Syntax)
    requires Loose(c)
    ensures var r := Render(c);
            r != [] && !IsWs(r[0]) && r[0] != COMMA && r[0] != COLON && r[0] != RBRACKET && r[0] != RBRACE
  {
  }

  lemma FirstByteOfKind(c: Syntax)
    requires Loose(c)
    ensures var r := Render(c);
            && r != [] && (r[0] == 0x6E <==> c.SNull?) && (r[0] == 0x74 <==> c.STrue?) && (r[0] == 0x66 <==> c.SFalse?)
            && (r[0] == QUOTE <==> c.SStr?) && (r[0] == LBRACKET <==> c.SArr?) && (r[0] == LBRACE <==> c.SObj?)
  {
  }

  lemma SameRest(a: bytes, r: bytes, r': bytes)
    requires a + r == a + r'
    ensures r == r'
  {
    assert (a + r)[|a|..] == r && (a + r')[|a|..] == r';
  }

  lemma {:induction false} OneTree(c: Syntax, r: bytes, d: Syntax, r': bytes)
    requires Loose(c) && Loose(d) && Render(c) + r == Render(d) + r'
    requires (c.SNum? ==> EndsNumber(r)) && (d.SNum? ==> EndsNumber(r'))
    ensures c == d && r == r'
    decreases c, 1
  {
    FirstByteOfKind(c);
    FirstByteOfKind(d);
    assert Render(c)[0] == (Render(c) + r)[0] == (Render(d) + r')[0] == Render(d)[0];
    match c
    case SNull => SameRest(Render(c), r, r');
    case STrue => SameRest(Render(c), r, r');
    case SFalse => SameRest(Render(c), r, r');
    case SNum(t) => SameNumber(t, r, d.text, r');
    case SStr(items) => SameLiteral(items, r, d.items, r');
    case SArr(_, _) => OneArray(c, r, d, r');
    case SObj(_, _) => OneObject(c, r, d, r');
  }

  /** What a value or an empty pair of brackets starts with, behind white space. */
  lemma {:induction false} OneArray(c: Syntax, r: bytes, d: Syntax, r': bytes)
    requires c.SArr? && d.SArr? && Loose(c) && Loose(d) && Render(c) + r == Render(d) + r'
    ensures c == d && r == r'
    decreases c, 0
  {
    var es, fs := c.elems, d.elems;
    var s := (if es == [] then c.ws else RenderElems(es)) + [RBRACKET] + r;
    var s' := (if fs == [] then d.ws else RenderElems(fs)) + [RBRACKET] + r';
    assert s == (Render(c) + r)[1..] && s' == (Render(d) + r')[1..];
    if es != [] && fs != [] {
      OneElems(es, r, fs, r');
    } else {
      var pre, x, t := ElemsHead(c.ws, es, r);
      var pre', x', t' := ElemsHead(d.ws, fs, r');
      SameWs(pre, x, t, pre', x', t');
    }
  }

  /** White space and the byte behind it: a closing bracket only if there are no elements. */
  lemma ElemsHead(ws: bytes, es: seq<SElem>, r: bytes) returns (pre: bytes, x: byte, t: bytes)
    requires AllWs(ws) && ElemsFollow(es, LooseItems, NumOk)
    ensures AllWs(pre) && !IsWs(x) && (x == RBRACKET <==> es == [])
    ensures (if es == [] then ws else RenderElems(es)) + [RBRACKET] + r == pre + ([x] + t)
    ensures es == [] ==> pre == ws && t == r
  {
    if es == [] {
      pre, x, t := ws, RBRACKET, r;
    } else {
      var e := es[0];
      assert ElemFollows(e, LooseItems, NumOk) && Loose(e.v);
      FirstByteLoose(e.v);
      ElemsSplit(es, r);
      HeadOut(e.pre, Render(e.v), e.post + ElemTail(es, r));
      pre, x, t := e.pre, Render(e.v)[0], Render(e.v)[1..] + (e.post + ElemTail(es, r));
    }
  }

  /** A value with white space around it, in front of a comma or a closing byte. */
  lemma {:induction false} OneElem(e: SElem, x: byte, t: bytes, f: SElem, x': byte, t': bytes)
    requires ElemFollows(e, LooseItems, NumOk) && ElemFollows(f, LooseItems, NumOk)
    requires (x == COMMA || x == RBRACKET || x == RBRACE) && (x' == COMMA || x' == RBRACKET || x' == RBRACE)
    requires e.pre + Render(e.v) + (e.post + ([x] + t)) == f.pre + Render(f.v) + (f.post + ([x'] + t'))
    ensures e == f && x == x' && t == t'
    decreases e, 2
  {
    var r, r' := e.post + ([x] + t), f.post + ([x'] + t');
    OneValue(e.pre, e.v, r, f.pre, f.v, r');
    TailAt(e.post, x, t);
    TailAt(f.post, x', t');
    OneTree(e.v, r, f.v, r');
    SameWs(e.post, x, t, f.post, x', t');
  }

  /** White space in front of a value ends in one place. */
  lemma OneValue(pre: bytes, c: Syntax, r: bytes, pre': bytes, d: Syntax, r': bytes)
    requires AllWs(pre) && AllWs(pre') && Loose(c) && Loose(d) && pre + Render(c) + r == pre' + Render(d) + r'
    ensures pre == pre' && Render(c) + r == Render(d) + r'
  {
    FirstByteLoose(c);
    FirstByteLoose(d);
    HeadOut(pre, Render(c), r);
    HeadOut(pre', Render(d), r');
    SameWs(pre, Render(c)[0], Render(c)[1..] + r, pre', Render(d)[0], Render(d)[1..] + r');
  }

  lemma {:induction false} OneElems(es: seq<SElem>, r: bytes, fs: seq<SElem>, r': bytes)
    requires es != [] && fs != [] && ElemsFollow(es, LooseItems, NumOk) && ElemsFollow(fs, LooseItems, NumOk)
    requires RenderElems(es) + [RBRACKET] + r == RenderElems(fs) + [RBRACKET] + r'
    ensures es == fs && r == r'
    decreases es, 0
  {
    var tail, tail' := ElemTail(es, r), ElemTail(fs, r');
    ElemsSplit(es, r);
    ElemsSplit(fs, r');
    Headed(tail);
    Headed(tail');
    OneElem(es[0], tail[0], tail[1..], fs[0], tail'[0], tail'[1..]);
    assert es == [es[0]] + es[1..] && fs == [fs[0]] + fs[1..];
    if |es| == 1 {
      assert |fs| == 1 && tail[1..] == r && tail'[1..] == r';
    } else {
      assert |fs| > 1 && tail[1..] == RenderElems(es[1..]) + [RBRACKET] + r;
      assert tail'[1..] == RenderElems(fs[1..]) + [RBRACKET] + r';
      OneElems(es[1..], r, fs[1..], r');
    }
  }

  /** A key, with white space around it and the colon. */
  lemma OneKey(m: SMember, r: bytes, n: SMember, r': bytes)
    requires AllWs(m.pre) && LooseItems(m.key) && AllWs(m.mid) && AllWs(n.pre) && LooseItems(n.key) && AllWs(n.mid)
    requires RenderKey(m) + r == RenderKey(n) + r'
    ensures m.pre == n.pre && m.key == n.key && m.mid == n.mid && r == r'
  {
    var after, after' := m.mid + ([COLON] + r), n.mid + ([COLON] + r');
    KeyText(m, r);
    KeyText(n, r');
    SameWs(m.pre, QUOTE, (Literal(m.key) + after)[1..], n.pre, QUOTE, (Literal(n.key) + after')[1..]);
    Headed(Literal(m.key) + after);
    Headed(Literal(n.key) + after');
    SameLiteral(m.key, after, n.key, after');
    SameWs(m.mid, COLON, r, n.mid, COLON, r');
  }

  lemma KeyText(m: SMember, r: bytes)
    ensures var after := m.mid + ([COLON] + r);
            && RenderKey(m) + r == m.pre + ([QUOTE] + (Literal(m.key) + after)[1..])
            && (Literal(m.key) + after)[0] == QUOTE
  {
    var after := m.mid + ([COLON] + r);
    LiteralBody(m.key, after);
    assert RenderKey(m) + r == m.pre + (Literal(m.key) + after);
  }

  lemma {:induction false} OneObject(c: Syntax, r: bytes, d: Syntax, r': bytes)
    requires c.SObj? && d.SObj? && Loose(c) && Loose(d) && Render(c) + r == Render(d) + r'
    ensures c == d && r == r'
    decreases c, 0
  {
    var ms, ns := c.members, d.members;
    var s := (if ms == [] then c.ws else RenderMembers(ms)) + [RBRACE] + r;
    var s' := (if ns == [] then d.ws else RenderMembers(ns)) + [RBRACE] + r';
    assert s == (Render(c) + r)[1..] && s' == (Render(d) + r')[1..];
    if ms != [] && ns != [] {
      OneMembers(ms, r, ns, r');
    } else {
      var pre, x, t := HeadOfMembers(c.ws, ms, r);
      var pre', x', t' := HeadOfMembers(d.ws, ns, r');
      SameWs(pre, x, t, pre', x', t');
    }
  }

  lemma HeadOfMembers(ws: bytes, ms: seq<SMember>, r: bytes) returns (pre: bytes, x: byte, t: bytes)
    requires AllWs(ws) && MembersFollow(ms, LooseItems, NumOk)
    ensures AllWs(pre) && !IsWs(x) && (x == RBRACE <==> ms == [])
    ensures (if ms == [] then ws else RenderMembers(ms)) + [RBRACE] + r == pre + ([x] + t)
    ensures ms == [] ==> pre == ws && t == r
  {
    if ms == [] {
      pre, x, t := ws, RBRACE, r;
    } else {
      assert MemberFollows(ms[0], LooseItems, NumOk);
      pre, x := ms[0].pre, QUOTE;
      t := MembersHead(ms, r);
    }
  }

  lemma {:induction false} OneMembers(ms: seq<SMember>, r: bytes, ns: seq<SMember>, r': bytes)
    requires ms != [] && ns != []
    requires MembersFollow(ms, LooseItems, NumOk) && MembersFollow(ns, LooseItems, NumOk)
    requires RenderMembers(ms) + [RBRACE] + r == RenderMembers(ns) + [RBRACE] + r'
    ensures ms == ns && r == r'
    decreases ms, 0
  {
    var m, n, tail, tail' := ms[0], ns[0], MemberTail(ms, r), MemberTail(ns, r');
    var e, f := m.elem, n.elem;
    assert MemberFollows(m, LooseItems, NumOk) && MemberFollows(n, LooseItems, NumOk);
    MembersSplit(ms, r);
    MembersSplit(ns, r');
    OneKey(m, e.pre + Render(e.v) + (e.post + tail), n, f.pre + Render(f.v) + (f.post + tail'));
    Headed(tail);
    Headed(tail');
    OneElem(e, tail[0], tail[1..], f, tail'[0], tail'[1..]);
    assert ms == [m] + ms[1..] && ns == [n] + ns[1..];
    if |ms| == 1 {
      assert |ns| == 1 && tail[1..] == r && tail'[1..] == r';
    } else {
      assert |ns| > 1 && tail[1..] == RenderMembers(ms[1..]) + [RBRACE] + r;
      assert tail'[1..] == RenderMembers(ns[1..]) + [RBRACE] + r';
      OneMembers(ms[1..], r, ns[1..], r');
    }
  }

  lemma WsEndsNumber(post: bytes)
    requires AllWs(post)
    ensures EndsNumber(post)
  {
    if post != [] {
      assert IsWs(post[0]);
    }
  }

  /** A text is that of one tree, with the same white space around it. */
  lemma TextHasOneTree(pre: bytes, c: Syntax, post: bytes, pre': bytes, d: Syntax, post': bytes)
    requires AllWs(pre) && Loose(c) && AllWs(post) && AllWs(pre') && Loose(d) && AllWs(post')
    requires pre + Render(c) + post == pre' + Render(d) + post'
    ensures pre == pre' && c == d && post == post'
  {
    hide Render, Loose, AllWs;
    OneValue(pre, c, post, pre', d, post');
    WsEndsNumber(post);
    WsEndsNumber(post');
    OneTree(c, post, d, post');
  }
}
