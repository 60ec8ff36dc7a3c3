/**
 The texts of the library against those of RFC 8259, which texts of the one grammar
 are texts of the other.
 */
module JsonStrict {
  import opened Bytes
  import opened Decimal
  import opened Strtod
  import opened Numerals
  import opened Codec
  import opened Utf
  import opened JsonString
  import opened JsonParse
  import opened JsonGrammar
  import opened JsonUnique

  // ---- the grammar of RFC 8259 ----

  /** A character of a string in section 7; a pair of surrogates is two escapes there. */
  predicate StrictItem(it: Item) {
    LooseItem(it) && (it.Raw? ==> it.b >= 0x20)
  }

  ghost predicate StrictItems(items: seq<Item>) {
    All(StrictItem, items)
  }

  /** Section 6: a minus or none, and then digits. */
  predicate StrictNumber(t: bytes) {
    StrictUnsigned(if t != [] && t[0] == MINUS then t[1..] else t)
  }

  /** Digits without a leading zero, a point and digits or none, an exponent or none. */
  predicate StrictUnsigned(u: bytes) {
    var i := Run(IsDigit, u);
    var f := if i < |u| && u[i] == POINT then 1 + Run(IsDigit, u[i + 1..]) else 0;
    i > 0 && (i > 1 ==> u[0] != 0x30) && f != 1 && i + f + ExponentLength(0x65, u[i + f..]) == |u|
  }

  /** A decimal numeral without a leading zero, with digits in front of the point, and behind it if there is one. */
  ghost predicate IsStrictNumeral(n: Numeral) {
    && n.Dec? && IsNumeral(n) && n.mantissa.whole != []
    && (|n.mantissa.whole| > 1 ==> n.mantissa.whole[0] != 0x30)
    && (n.mantissa.point ==> n.mantissa.fraction != [])
  }

  ghost predicate IsStrictly(t: bytes, neg: bool, n: Numeral) {
    IsStrictNumeral(n) && t == SignText(neg) + TextOf(n)
  }

  /** The texts of section 6 are these numerals, with a minus sign or without. */
  lemma StrictNumberExact(t: bytes)
    ensures StrictNumber(t) <==> exists neg, n :: IsStrictly(t, neg, n)
  {
    hide StrictUnsigned, IsStrictNumeral, TextOf;
    if StrictNumber(t) {
      var neg := t != [] && t[0] == MINUS;
      var n := StrictParts(if neg then t[1..] else t);
      assert neg ==> [0x2D] + t[1..] == t;
      assert [] + t == t;
      assert IsStrictly(t, neg, n);
    }
    if neg, n :| IsStrictly(t, neg, n) {
      StrictTaken(n);
      StrictStarts(n);
      assert neg ==> t[1..] == TextOf(n);
      assert !neg ==> t == TextOf(n);
    }
  }

  lemma OnlyDigits(s: bytes)
    ensures AllDigitsOf(10, s) <==> forall i :: 0 <= i < |s| ==> IsDigit(s[i])
  {
    hide IsDigit;
    KindAgrees(10, s);
  }

  lemma StrictParts(u: bytes) returns (n: Numeral)
    requires StrictUnsigned(u)
    ensures IsStrictNumeral(n) && TextOf(n) == u
  {
    hide ExponentLength, ValidExponent, TextOfExponent, AllDigitsOf, IsDigit;
    var i := Run(IsDigit, u);
    OnlyDigits(u[..i]);
    if i < |u| && u[i] == POINT {
      var behind := u[i + 1..];
      var f := Run(IsDigit, behind);
      OnlyDigits(behind[..f]);
      hide Run, Digit;
      var tail := u[i + (1 + f)..];
      var e := ExponentSound(0x45, 0x65, tail);
      n := Dec(Mantissa(u[..i], true, behind[..f]), e);
      assert tail[..|tail|] == tail;
      AroundPoint(u, i, f);
    } else {
      OnlyDigits([]);
      hide Run;
      var e := ExponentSound(0x45, 0x65, u[i + 0..]);
      n := Dec(Mantissa(u[..i], false, []), e);
      assert u == u[..i] + [] + u[i..];
    }
  }

  lemma AroundPoint(u: bytes, i: nat, f: nat)
    requires i < |u| && u[i] == POINT && i + 1 + f <= |u|
    ensures u == u[..i] + ([0x2E] + u[i + 1..][..f]) + u[i + (1 + f)..]
  {
  }

  lemma StrictTaken(n: Numeral)
    requires IsStrictNumeral(n)
    ensures StrictUnsigned(TextOf(n))
  {
    hide ExponentLength, ValidExponent, TextOfExponent, StrictUnsigned, AllDigitsOf, IsDigit, EndsMantissa;
    var m, tail := n.mantissa, TextOfExponent(n.exponent);
    OnlyDigits(m.whole);
    OnlyDigits(m.fraction);
    ExponentTaken(0x45, 0x65, n.exponent);
    ExponentEndsMantissa(10, 0x45, 0x65, n.exponent);
    if m.point {
      StrictWithPoint(m.whole, m.fraction, tail);
    } else {
      StrictWithoutPoint(m.whole, tail);
      assert m.whole + [] == m.whole;
    }
  }

  lemma StrictWithPoint(i: bytes, f: bytes, tail: bytes)
    requires i != [] && (|i| > 1 ==> i[0] != 0x30) && f != []
    requires (forall k :: 0 <= k < |i| ==> IsDigit(i[k])) && (forall k :: 0 <= k < |f| ==> IsDigit(f[k]))
    requires EndsMantissa(10, tail) && ExponentLength(0x65, tail) == |tail|
    ensures StrictUnsigned(i + ([0x2E] + f) + tail)
  {
    var u, behind := i + ([0x2E] + f) + tail, f + tail;
    assert !IsDigit(0x2E);
    assert tail == [] || !IsDigit(tail[0]);
    hide Run, ExponentLength, IsDigit, EndsMantissa;
    RunOver(IsDigit, i, [0x2E] + behind);
    RunOver(IsDigit, f, tail);
    assert u == i + ([0x2E] + behind);
    assert u[|i| + 1..] == behind && u[|i| + (1 + |f|)..] == tail;
  }

  lemma StrictWithoutPoint(i: bytes, tail: bytes)
    requires i != [] && (|i| > 1 ==> i[0] != 0x30) && (forall k :: 0 <= k < |i| ==> IsDigit(i[k]))
    requires EndsMantissa(10, tail) && ExponentLength(0x65, tail) == |tail|
    ensures StrictUnsigned(i + tail)
  {
    RunOver(IsDigit, i, tail);
    hide Run, ExponentLength, IsDigit;
    assert (i + tail)[|i|..] == tail;
  }

  lemma StrictStarts(n: Numeral)
    requires IsStrictNumeral(n)
    ensures TextOf(n) != [] && TextOf(n)[0] != MINUS
  {
    assert IsDigitOf(10, n.mantissa.whole[0]);
  }

  lemma StrictNumberIsNumber(t: bytes)
    requires StrictNumber(t)
    ensures NumOk(t)
  {
    hide StrictUnsigned, UnsignedLength;
    StrictUnsignedLength(if t != [] && t[0] == MINUS then t[1..] else t);
  }

  lemma StrictUnsignedLength(u: bytes)
    requires StrictUnsigned(u)
    ensures |u| > 0 && IsDigit(u[0]) && UnsignedLength(u) == |u|
  {
    hide IsHexFloat, StrictUnsigned, FloatLength, TagLength, StartsWith;
    StrictFloat(u);
    StrictIsNotHex(u);
    DigitStartsNoWord(u);
  }

  lemma StrictFloat(u: bytes)
    requires StrictUnsigned(u)
    ensures |u| > 0 && IsDigit(u[0]) && FloatLength(IsDigit, 0x65, u) == |u|
  {
    hide Run, ExponentLength;
  }

  lemma StrictIsNotHex(u: bytes)
    requires StrictUnsigned(u)
    ensures !IsHexFloat(u)
  {
    hide Run;
  }

  ghost predicate IsStrictTextOf(text: bytes, pre: bytes, d: Syntax, post: bytes) {
    AllWs(pre) && Follows(d, StrictItems, StrictNumber) && AllWs(post) && text == pre + Render(d) + post
  }

  ghost predicate IsStrictText(text: bytes) {
    exists pre, d, post :: IsStrictTextOf(text, pre, d, post)
  }

  // ---- trees with their literals rewritten ----

  type Rewrite = seq<Item> -> seq<Item>

  function Rewritten(c: Syntax, f: Rewrite): Syntax
    decreases c, 1
  {
    match c
    case SStr(items) => SStr(f(items))
    case SArr(ws, es) => SArr(ws, RewrittenElems(es, f))
    case SObj(ws, ms) => SObj(ws, RewrittenMembers(ms, f))
    case _ => c
  }

  function RewrittenElem(e: SElem, f: Rewrite): SElem
    decreases e, 2
  {
    SElem(e.pre, Rewritten(e.v, f), e.post)
  }

  function RewrittenElems(es: seq<SElem>, f: Rewrite): (r: seq<SElem>)
    ensures |r| == |es|
    decreases es, 0
  {
    if es == [] then [] else [RewrittenElem(es[0], f)] + RewrittenElems(es[1..], f)
  }

  function RewrittenMember(m: SMember, f: Rewrite): SMember
    decreases m, 3
  {
    SMember(m.pre, f(m.key), m.mid, RewrittenElem(m.elem, f))
  }

  function RewrittenMembers(ms: seq<SMember>, f: Rewrite): (r: seq<SMember>)
    ensures |r| == |ms|
    decreases ms, 0
  {
    if ms == [] then [] else [RewrittenMember(ms[0], f)] + RewrittenMembers(ms[1..], f)
  }

  /** What is asked of a literal once it is rewritten. */
  ghost function Through(f: Rewrite, lit: LiteralRule): LiteralRule {
    items => lit(f(items))
  }

  /** Rewriting leaves the text alone. */
  ghost predicate KeepsText(f: Rewrite) {
    forall items :: EncodeAll(RenderItem, f(items)) == EncodeAll(RenderItem, items)
  }

  lemma {:induction false} Rewriting(c: Syntax, f: Rewrite, lit: LiteralRule, num: NumberRule)
    requires KeepsText(f)
    ensures Follows(Rewritten(c, f), lit, num) <==> Follows(c, Through(f, lit), num)
    ensures Render(Rewritten(c, f)) == Render(c)
    decreases c, 1
  {
    match c
    case SArr(_, es) => RewritingElems(es, f, lit, num);
    case SObj(_, ms) => RewritingMembers(ms, f, lit, num);
    case _ =>
  }

  lemma {:induction false} RewritingElem(e: SElem, f: Rewrite, lit: LiteralRule, num: NumberRule)
    requires KeepsText(f)
    ensures ElemFollows(RewrittenElem(e, f), lit, num) <==> ElemFollows(e, Through(f, lit), num)
    ensures RenderElem(RewrittenElem(e, f)) == RenderElem(e)
    decreases e, 2
  {
    Rewriting(e.v, f, lit, num);
  }

  lemma {:induction false} RewritingElems(es: seq<SElem>, f: Rewrite, lit: LiteralRule, num: NumberRule)
    requires KeepsText(f)
    ensures ElemsFollow(RewrittenElems(es, f), lit, num) <==> ElemsFollow(es, Through(f, lit), num)
    ensures RenderElems(RewrittenElems(es, f)) == RenderElems(es)
    decreases es, 0
  {
    if es == [] {
    } else {
      var r := RewrittenElems(es, f);
      assert r[0] == RewrittenElem(es[0], f) && r[1..] == RewrittenElems(es[1..], f);
      RewritingElem(es[0], f, lit, num);
      RewritingElems(es[1..], f, lit, num);
    }
  }

  lemma {:induction false} RewritingMember(m: SMember, f: Rewrite, lit: LiteralRule, num: NumberRule)
    requires KeepsText(f)
    ensures MemberFollows(RewrittenMember(m, f), lit, num) <==> MemberFollows(m, Through(f, lit), num)
    ensures RenderMember(RewrittenMember(m, f)) == RenderMember(m)
    decreases m, 3
  {
    RewritingElem(m.elem, f, lit, num);
  }

  lemma {:induction false} RewritingMembers(ms: seq<SMember>, f: Rewrite, lit: LiteralRule, num: NumberRule)
    requires KeepsText(f)
    ensures MembersFollow(RewrittenMembers(ms, f), lit, num) <==> MembersFollow(ms, Through(f, lit), num)
    ensures RenderMembers(RewrittenMembers(ms, f)) == RenderMembers(ms)
    decreases ms, 0
  {
    if ms == [] {
    } else {
      var r := RewrittenMembers(ms, f);
      assert r[0] == RewrittenMember(ms[0], f) && r[1..] == RewrittenMembers(ms[1..], f);
      RewritingMember(ms[0], f, lit, num);
      RewritingMembers(ms[1..], f, lit, num);
    }
  }

  /** What two conditions on literals and numbers ask for together. */
  ghost predicate Together(lit: LiteralRule, num: NumberRule, lit': LiteralRule, num': NumberRule,
                           lit'': LiteralRule, num'': NumberRule) {
    && (forall items :: lit(items) && lit'(items) ==> lit''(items))
    && (forall ds :: num(ds) && num'(ds) ==> num''(ds))
  }

  lemma {:induction false} BothFollow(c: Syntax, lit: LiteralRule, num: NumberRule,
    lit': LiteralRule, num': NumberRule, lit'': LiteralRule, num'': NumberRule)
    requires Together(lit, num, lit', num', lit'', num'') && Follows(c, lit, num) && Follows(c, lit', num')
    ensures Follows(c, lit'', num'')
    decreases c, 1
  {
    match c
    case SArr(_, es) => BothElemsFollow(es, lit, num, lit', num', lit'', num'');
    case SObj(_, ms) => BothMembersFollow(ms, lit, num, lit', num', lit'', num'');
    case _ =>
  }

  lemma {:induction false} BothElemsFollow(
    es: seq<SElem>, lit: LiteralRule, num: NumberRule,
    lit': LiteralRule, num': NumberRule, lit'': LiteralRule, num'': NumberRule)
    requires Together(lit, num, lit', num', lit'', num'') && ElemsFollow(es, lit, num) && ElemsFollow(es, lit', num')
    ensures ElemsFollow(es, lit'', num'')
    decreases es, 0
  {
    if es == [] {
    } else {
      assert ElemFollows(es[0], lit, num) && ElemFollows(es[0], lit', num');
      BothFollow(es[0].v, lit, num, lit', num', lit'', num'');
      BothElemsFollow(es[1..], lit, num, lit', num', lit'', num'');
    }
  }

  lemma {:induction false} BothMembersFollow(
    ms: seq<SMember>, lit: LiteralRule, num: NumberRule,
    lit': LiteralRule, num': NumberRule, lit'': LiteralRule, num'': NumberRule)
    requires Together(lit, num, lit', num', lit'', num'')
    requires MembersFollow(ms, lit, num) && MembersFollow(ms, lit', num')
    ensures MembersFollow(ms, lit'', num'')
    decreases ms, 0
  {
    if ms == [] {
    } else {
      assert MemberFollows(ms[0], lit, num) && MemberFollows(ms[0], lit', num');
      assert ElemFollows(ms[0].elem, lit, num) && ElemFollows(ms[0].elem, lit', num');
      BothFollow(ms[0].elem.v, lit, num, lit', num', lit'', num'');
      BothMembersFollow(ms[1..], lit, num, lit', num', lit'', num'');
    }
  }

  // ---- pairs of surrogates as two escapes ----

  /** A literal with each pair taken apart. */
  function Split(items: seq<Item>): seq<Item> {
    if items == [] then []
    else SplitItem(items[0]) + Split(items[1..])
  }

  function SplitItem(it: Item): seq<Item> {
    if it.Pair? then [Escape(it.h), Escape(it.l)] else [it]
  }

  predicate HighEscape(it: Item) {
    it.Escape? && Hex4(it.h).Some? && IsHigh(Hex4(it.h).value)
  }

  predicate LowEscape(it: Item) {
    it.Escape? && Hex4(it.h).Some? && IsLow(Hex4(it.h).value)
  }

  /** Each escape of a high surrogate is followed by that of a low one. */
  predicate Paired(items: seq<Item>) {
    if items == [] then true
    else if HighEscape(items[0]) then |items| > 1 && LowEscape(items[1]) && Paired(items[2..])
    else Paired(items[1..])
  }

  /** A literal with such escapes put together. */
  function Merge(items: seq<Item>): seq<Item> {
    if items == [] then []
    else if HighEscape(items[0]) && |items| > 1 && LowEscape(items[1]) then
      [Pair(items[0].h, items[1].h)] + Merge(items[2..])
    else [items[0]] + Merge(items[1..])
  }

  lemma RenderTwo(a: Item, b: Item)
    ensures EncodeAll(RenderItem, [a, b]) == RenderItem(a) + RenderItem(b)
    ensures EncodeAll(RenderItem, [a]) == RenderItem(a)
  {
    EncodeAllCons(RenderItem, a, [b]);
    EncodeAllCons(RenderItem, b, []);
    EncodeAllCons(RenderItem, a, []);
    assert [a] + [b] == [a, b] && [b] + [] == [b] && [a] + [] == [a];
  }

  lemma {:induction false} RenderConcat(a: seq<Item>, b: seq<Item>)
    ensures EncodeAll(RenderItem, a + b) == EncodeAll(RenderItem, a) + EncodeAll(RenderItem, b)
  {
    if a == [] {
      assert a + b == b;
    } else {
      RenderConcat(a[1..], b);
      assert (a + b)[1..] == a[1..] + b;
      Assoc(RenderItem(a[0]), EncodeAll(RenderItem, a[1..]), EncodeAll(RenderItem, b));
    }
  }

  lemma RenderPair(h: bytes, l: bytes)
    ensures RenderItem(Pair(h, l)) == RenderItem(Escape(h)) + RenderItem(Escape(l))
  {
  }

  lemma {:induction false} SplitKeepsText(items: seq<Item>)
    ensures EncodeAll(RenderItem, Split(items)) == EncodeAll(RenderItem, items)
  {
    hide RenderItem;
    if items == [] {
    } else {
      var it := items[0];
      SplitKeepsText(items[1..]);
      RenderConcat(SplitItem(it), Split(items[1..]));
      if it.Pair? {
        RenderTwo(Escape(it.h), Escape(it.l));
        RenderPair(it.h, it.l);
      } else {
        RenderTwo(it, it);
      }
    }
  }

  lemma {:induction false} MergeKeepsText(items: seq<Item>)
    ensures EncodeAll(RenderItem, Merge(items)) == EncodeAll(RenderItem, items)
  {
    hide RenderItem, HighEscape, LowEscape;
    if items == [] {
    } else if HighEscape(items[0]) && |items| > 1 && LowEscape(items[1]) {
      EscapesOf(items[0], items[1]);
      var p := Pair(items[0].h, items[1].h);
      MergeKeepsText(items[2..]);
      EncodeAllCons(RenderItem, p, Merge(items[2..]));
      RenderPair(p.h, p.l);
      RenderConcat([items[0], items[1]], items[2..]);
      RenderTwo(items[0], items[1]);
      assert items == [items[0], items[1]] + items[2..];
    } else {
      MergeKeepsText(items[1..]);
      EncodeAllCons(RenderItem, items[0], Merge(items[1..]));
      EncodeAllCons(RenderItem, items[0], items[1..]);
      assert items == [items[0]] + items[1..];
    }
  }

  lemma EscapesOf(a: Item, b: Item)
    requires HighEscape(a) && LowEscape(b)
    ensures a == Escape(a.h) && b == Escape(b.h)
  {
  }

  /** No control characters as they are. */
  ghost predicate NoControl(items: seq<Item>) {
    forall i :: 0 <= i < |items| && items[i].Raw? ==> items[i].b >= 0x20
  }

  /** What the library takes for a literal, with its pairs taken apart, is loose and paired, and strict if it may be. */
  lemma {:induction false} SplitOk(items: seq<Item>)
    requires ItemsOk(items)
    ensures LooseItems(Split(items)) && Paired(Split(items))
    ensures StrictItems(Split(items)) <==> NoControl(items)
  {
    hide SplitItem, LooseItem, StrictItem, ItemOk, Paired;
    if items == [] {
      NothingPaired();
    } else {
      var it, rest := items[0], items[1..];
      SplitOk(rest);
      SplitItemOk(it);
      AllOfConcat(LooseItem, SplitItem(it), Split(rest));
      AllOfConcat(StrictItem, SplitItem(it), Split(rest));
      assert items == [it] + rest;
      assert NoControl(items) <==> NoControl([it]) && NoControl(rest);
      PairedBehind(it, Split(rest));
    }
  }

  lemma NothingPaired()
    ensures Paired([])
  {
  }

  lemma AllOfConcat(ok: Item -> bool, a: seq<Item>, b: seq<Item>)
    ensures All(ok, a + b) <==> All(ok, a) && All(ok, b)
  {
    if All(ok, a + b) {
      assert forall i :: 0 <= i < |a| ==> (a + b)[i] == a[i];
      assert forall i :: 0 <= i < |b| ==> (a + b)[|a| + i] == b[i];
    }
  }

  lemma SplitItemOk(it: Item)
    requires ItemOk(it)
    ensures LooseItems(SplitItem(it)) && (StrictItems(SplitItem(it)) <==> NoControl([it]))
  {
    hide Hex4, IsHigh, IsLow, ShortValue;
  }

  lemma PairedBehind(it: Item, rest: seq<Item>)
    requires ItemOk(it) && Paired(rest)
    ensures Paired(SplitItem(it) + rest)
  {
    hide Hex4, IsHigh, IsLow, ShortValue;
    var all := SplitItem(it) + rest;
    if it.Pair? {
      assert all[2..] == rest;
    } else {
      assert all[1..] == rest;
    }
  }

  /** A strict literal whose surrogates are paired is, with the pairs put together, one of the library's. */
  lemma {:induction false} MergeOk(items: seq<Item>)
    requires StrictItems(items) && Paired(items)
    ensures ItemsOk(Merge(items))
  {
    hide Hex4, IsHigh, IsLow, ShortValue;
    if items == [] {
    } else if HighEscape(items[0]) {
      MergeOk(items[2..]);
      assert ItemOk(Pair(items[0].h, items[1].h)) by { assert StrictItem(items[0]) && StrictItem(items[1]); }
      AllOfConcat(ItemOk, [Pair(items[0].h, items[1].h)], Merge(items[2..]));
    } else {
      MergeOk(items[1..]);
      assert ItemOk(items[0]) by { assert StrictItem(items[0]); }
      AllOfConcat(ItemOk, [items[0]], Merge(items[1..]));
    }
  }

  // ---- which texts are texts of both ----

  /** The tree of an accepted text with its pairs taken apart. */
  lemma SplitTree(c: Syntax)
    requires Valid(c)
    ensures Loose(Rewritten(c, Split)) && Render(Rewritten(c, Split)) == Render(c)
    ensures Follows(Rewritten(c, Split), Paired, NumOk)
    ensures Follows(Rewritten(c, Split), StrictItems, StrictNumber) <==> Follows(c, NoControl, StrictNumber)
  {
    hide Follows, Split, StrictItems, LooseItems, Paired, NoControl, ItemsOk, NumOk, StrictNumber, EncodeAll;
    assert KeepsText(Split) by {
      forall items
        ensures EncodeAll(RenderItem, Split(items)) == EncodeAll(RenderItem, items)
      {
        SplitKeepsText(items);
      }
    }
    forall items | ItemsOk(items)
      ensures LooseItems(Split(items)) && Paired(Split(items)) && (StrictItems(Split(items)) <==> NoControl(items))
    {
      SplitOk(items);
    }
    Rewriting(c, Split, LooseItems, NumOk);
    Rewriting(c, Split, Paired, NumOk);
    Rewriting(c, Split, StrictItems, StrictNumber);
    BothFollow(c, ItemsOk, NumOk, ItemsOk, NumOk, Through(Split, LooseItems), NumOk);
    BothFollow(c, ItemsOk, NumOk, ItemsOk, NumOk, Through(Split, Paired), NumOk);
    if Follows(c, NoControl, StrictNumber) {
      BothFollow(c, ItemsOk, NumOk, NoControl, StrictNumber, Through(Split, StrictItems), StrictNumber);
    }
    if Follows(c, Through(Split, StrictItems), StrictNumber) {
      BothFollow(c, ItemsOk, NumOk, Through(Split, StrictItems), StrictNumber, NoControl, StrictNumber);
    }
  }

  lemma StrictIsLoose(d: Syntax)
    requires Follows(d, StrictItems, StrictNumber)
    ensures Loose(d)
  {
    hide Follows, Hex4, ShortValue, StrictNumber, NumOk;
    forall t | StrictNumber(t)
      ensures NumOk(t)
    {
      StrictNumberIsNumber(t);
    }
    BothFollow(d, StrictItems, StrictNumber, StrictItems, StrictNumber, LooseItems, NumOk);
  }

  /**
   An accepted text is one of RFC 8259 exactly if no literal of it holds a control
   character as it is and its numbers are written as section 6 has them.
   */
  lemma AcceptedIsStrictExactly(text: bytes, pre: bytes, c: Syntax, post: bytes)
    requires IsTextOf(text, pre, c, post)
    ensures IsStrictText(text) <==> Follows(c, NoControl, StrictNumber)
  {
    hide Follows, Render, AllWs, Rewritten;
    var flat := Rewritten(c, Split);
    SplitTree(c);
    if Follows(c, NoControl, StrictNumber) {
      assert IsStrictTextOf(text, pre, flat, post);
    }
    if pre', d, post' :| IsStrictTextOf(text, pre', d, post') {
      StrictIsLoose(d);
      TextHasOneTree(pre, flat, post, pre', d, post');
    }
  }

  /**
   A text of RFC 8259 is accepted exactly if each escape of a high surrogate in it is
   followed by that of a low one.
   */
  lemma StrictIsAcceptedExactly(text: bytes, pre: bytes, d: Syntax, post: bytes)
    requires IsStrictTextOf(text, pre, d, post)
    ensures ParseText(text).Ok? <==> Follows(d, Paired, StrictNumber)
  {
    hide Follows, Render, AllWs, Rewritten, ParseText, Paired;
    if Follows(d, Paired, StrictNumber) {
      var c := MergeTree(d);
      assert IsTextOf(text, pre, c, post);
      ParseTextExact(text, Meaning(c));
    }
    if ParseText(text).Ok? {
      assert ParseText(text) == Ok(ParseText(text).value, []) by { NothingLeft(text); }
      ParseTextExact(text, ParseText(text).value);
      var pre', c, post' :| IsTextOf(text, pre', c, post');
      SplitTree(c);
      StrictIsLoose(d);
      TextHasOneTree(pre', Rewritten(c, Split), post', pre, d, post);
      BothFollow(d, StrictItems, StrictNumber, Paired, NumOk, Paired, StrictNumber);
    }
  }

  lemma MergeTree(d: Syntax) returns (c: Syntax)
    requires Follows(d, StrictItems, StrictNumber) && Follows(d, Paired, StrictNumber)
    ensures Valid(c) && Render(c) == Render(d)
  {
    hide Follows, Merge, StrictItems, Paired, ItemsOk, NumOk, StrictNumber, EncodeAll;
    assert KeepsText(Merge) by {
      forall items
        ensures EncodeAll(RenderItem, Merge(items)) == EncodeAll(RenderItem, items)
      {
        MergeKeepsText(items);
      }
    }
    forall items | StrictItems(items) && Paired(items)
      ensures ItemsOk(Merge(items))
    {
      MergeOk(items);
    }
    c := Rewritten(d, Merge);
    Rewriting(d, Merge, ItemsOk, NumOk);
    forall t | StrictNumber(t)
      ensures NumOk(t)
    {
      StrictNumberIsNumber(t);
    }
    BothFollow(d, StrictItems, StrictNumber, Paired, StrictNumber, Through(Merge, ItemsOk), NumOk);
  }

  // ---- what literals read as ----

  /** The bytes that an item stands for, of a character of any code point. */
  function FullBytes(it: Item): bytes {
    match it
    case Raw(b) => [b]
    case Short(c) => if ShortValue(c).Some? then [ShortValue(c).value] else []
    case _ => if ItemOk(it) then EncodeOne(ItemCodepoint(it)) else []
  }

  /** A zero byte, as it is or escaped. */
  predicate IsZero(it: Item) {
    it == Raw(0) || (it.Escape? && Hex4(it.h) == Some(0))
  }

  lemma ItemReads(it: Item)
    requires ItemOk(it)
    ensures if IsZero(it) then ItemBytes(it) == [] && |FullBytes(it)| == 1 else ItemBytes(it) == FullBytes(it)
  {
    match it
    case Raw(b) => UpToNulOfOne(b);
    case Short(_) =>
    case Escape(h) =>
      if Hex4(h) == Some(0) {
        assert EncodeOne(0) == [0];
        UpToNulOfOne(0);
      } else {
        EscapeIsUtf8(it, []);
      }
    case Pair(h, l) => PairIsNotZero(it);
  }

  lemma UpToNulOfOne(b: byte)
    ensures UpToNul([b]) == if b == 0 then [] else [b]
  {
  }

  lemma PairIsNotZero(it: Item)
    requires ItemOk(it) && it.Pair?
    ensures ItemBytes(it) == FullBytes(it)
  {
    CodepointOfPair(Hex4(it.h).value, Hex4(it.l).value);
    EscapeIsUtf8(it, []);
  }

  lemma {:induction false} NeverLonger(items: seq<Item>)
    requires ItemsOk(items)
    ensures |EncodeAll(ItemBytes, items)| <= |EncodeAll(FullBytes, items)|
    ensures EncodeAll(ItemBytes, items) == EncodeAll(FullBytes, items)
            <==> forall i :: 0 <= i < |items| ==> !IsZero(items[i])
  {
    hide ItemBytes, FullBytes, IsZero, ItemOk;
    if items == [] {
    } else {
      var it, rest := items[0], items[1..];
      ItemReads(it);
      NeverLonger(rest);
      assert items == [it] + rest;
      var a, b := EncodeAll(ItemBytes, rest), EncodeAll(FullBytes, rest);
      if !IsZero(it) {
        assert ItemBytes(it) + a == ItemBytes(it) + b <==> a == b by {
          if ItemBytes(it) + a == ItemBytes(it) + b { SameRest(ItemBytes(it), a, b); }
        }
      }
    }
  }

  /**
   A literal that is accepted reads as the characters that it stands for exactly if none
   of them is a zero.
   */
  lemma LiteralReadsFullyExactly(items: seq<Item>, rest: bytes)
    requires ItemsOk(items)
    ensures ParseString(Literal(items) + rest) == Some((EncodeAll(FullBytes, items), rest))
            <==> forall i :: 0 <= i < |items| ==> !IsZero(items[i])
  {
    hide ParseString, EncodeAll, ItemOk, IsZero;
    NeverLonger(items);
    ParseStringOfItems(items, rest);
  }
}
