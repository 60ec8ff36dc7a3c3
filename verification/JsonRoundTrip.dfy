/**
 Printing and reading: the printed text is that of a syntax tree which means the
 value printed, but for the sign of zeros; unless a number is in it that is not printed
 as one. So it is known for every value what reading gives.
 */
module JsonRoundTrip {
  import opened Bytes
  import opened Binary64
  import opened NumberFormat
  import opened Strtod
  import opened Codec
  import opened Json
  import opened JsonMembers
  import opened JsonString
  import opened JsonParse
  import opened JsonGrammar

  // ---- which values come back ----

  /** Every number in it satisfies a condition. */
  ghost predicate Numbers(v: Json, ok: Number -> bool) {
    match v
    case Num(x) => ok(x)
    case Arr(es) => forall i :: 0 <= i < |es| ==> Numbers(es[i], ok)
    case Obj(ms) => forall i :: 0 <= i < |ms| ==> Numbers(ms[i].value, ok)
    case _ => true
  }

  /** Every number in it is printed as a number. */
  ghost predicate Readable(v: Json) {
    Numbers(v, IsReadable)
  }

  predicate IsReadable(x: Number) {
    StartsNumber(NumberText(x))
  }

  /** Every number in it is read back as it is. */
  ghost predicate AllComeBack(v: Json) {
    Numbers(v, ComesBack)
  }

  /** The value with its zeros without a sign. */
  function AsRead(v: Json): Json
    decreases v, 1
  {
    match v
    case Num(x) => Num(WithoutZeroSign(x))
    case Arr(es) => Arr(ElemsAsRead(es))
    case Obj(ms) => Obj(MembersAsRead(ms))
    case _ => v
  }

  function ElemsAsRead(es: seq<Json>): (r: seq<Json>)
    ensures |r| == |es|
    decreases es, 0
  {
    if es == [] then [] else [AsRead(es[0])] + ElemsAsRead(es[1..])
  }

  function MembersAsRead(ms: seq<Member<Json>>): (r: seq<Member<Json>>)
    ensures |r| == |ms| && forall i :: 0 <= i < |ms| ==> r[i].key == ms[i].key
    decreases ms, 0
  {
    if ms == [] then [] else [Member(ms[0].key, AsRead(ms[0].value))] + MembersAsRead(ms[1..])
  }

  // ---- the tree of a value ----

  function SyntaxOf(v: Json): Syntax
    decreases v, 1
  {
    match v
    case Null => SNull
    case Bool(b) => if b then STrue else SFalse
    case Num(x) => SNum(NumberText(x))
    case Str(s) => SStr(ItemsOf(s))
    case Arr(es) => SArr([], ElemsOf(es))
    case Obj(ms) => SObj([], MembersOf(ms))
  }

  function ElemOf(v: Json): SElem
    decreases v, 2
  {
    SElem([], SyntaxOf(v), [])
  }

  function MemberOf(m: Member<Json>): SMember
    decreases m, 3
  {
    SMember([], ItemsOf(m.key), [], ElemOf(m.value))
  }

  function ElemsOf(es: seq<Json>): seq<SElem>
    decreases es, 0
  {
    if es == [] then [] else [ElemOf(es[0])] + ElemsOf(es[1..])
  }

  function MembersOf(ms: seq<Member<Json>>): seq<SMember>
    decreases ms, 0
  {
    if ms == [] then []
    else [MemberOf(ms[0])] + MembersOf(ms[1..])
  }

  ghost predicate WellFormedElems(es: seq<Json>) {
    forall i :: 0 <= i < |es| ==> WellFormed(es[i])
  }

  ghost predicate WellFormedMembers(ms: seq<Member<Json>>) {
    forall i :: 0 <= i < |ms| ==> NulFree(ms[i].key) && WellFormed(ms[i].value)
  }

  lemma {:induction false} SyntaxOfValue(v: Json)
    requires WellFormed(v) && Readable(v)
    ensures Valid(SyntaxOf(v)) && Meaning(SyntaxOf(v)) == AsRead(v) && Render(SyntaxOf(v)) == Print(v)
    decreases v, 1
  {
    match v
    case Arr(es) =>
      SyntaxOfElems(es);
      ArraySyntax(es);
    case Obj(ms) =>
      SyntaxOfMembers(ms);
      ObjectSyntax(ms);
    case _ => SyntaxOfScalar(v);
  }

  lemma SyntaxOfScalar(v: Json)
    requires WellFormed(v) && Readable(v) && !v.Arr? && !v.Obj?
    ensures Valid(SyntaxOf(v)) && Meaning(SyntaxOf(v)) == AsRead(v) && Render(SyntaxOf(v)) == Print(v)
  {
    match v
    case Num(x) =>
      hide NumberText, NumberLength, NumberValue;
      ReadBack(x);
    case Str(s) => ItemsOfBytes(s);
    case _ =>
  }

  lemma ArraySyntax(es: seq<Json>)
    requires var ts := ElemsOf(es);
             |ts| == |es| && ValidElems(ts) && Meanings(ts) == ElemsAsRead(es) && RenderElems(ts) == PrintElems(es)
    ensures var c := SyntaxOf(Arr(es)); Valid(c) && Meaning(c) == AsRead(Arr(es)) && Render(c) == Print(Arr(es))
  {
    if es == [] {
      assert PrintElems(es) == [];
    }
  }

  lemma ObjectSyntax(ms: seq<Member<Json>>)
    requires DistinctKeys(ms)
    requires var ts := MembersOf(ms);
             |ts| == |ms| && ValidMembers(ts) && Pairs(ts) == MembersAsRead(ms) && RenderMembers(ts) == PrintMembers(ms)
    ensures var c := SyntaxOf(Obj(ms)); Valid(c) && Meaning(c) == AsRead(Obj(ms)) && Render(c) == Print(Obj(ms))
  {
    hide MembersOf, MembersFollow, SetMembers, RenderMembers, PrintMembers, Pairs, MembersAsRead;
    var r := MembersAsRead(ms);
    assert [] + r == r;
    SetMembersFresh([], r);
    NoMembers();
  }

  lemma NoMembers()
    ensures PrintMembers([]) == []
  {
  }

  lemma {:induction false} SyntaxOfElem(v: Json)
    requires WellFormed(v) && Readable(v)
    ensures ValidElem(ElemOf(v)) && Meaning(ElemOf(v).v) == AsRead(v) && RenderElem(ElemOf(v)) == Print(v)
    decreases v, 2
  {
    SyntaxOfValue(v);
    assert [] + Print(v) + [] == Print(v);
  }

  lemma {:induction false} SyntaxOfElems(es: seq<Json>)
    requires WellFormedElems(es) && forall i :: 0 <= i < |es| ==> Readable(es[i])
    ensures var ts := ElemsOf(es);
            |ts| == |es| && ValidElems(ts) && Meanings(ts) == ElemsAsRead(es) && RenderElems(ts) == PrintElems(es)
    decreases es, 0
  {
    if es == [] {
    } else {
      var ts := ElemsOf(es);
      SyntaxOfElem(es[0]);
      SyntaxOfElems(es[1..]);
      assert ts[1..] == ElemsOf(es[1..]);
    }
  }

  lemma {:induction false} SyntaxOfMember(m: Member<Json>)
    requires NulFree(m.key) && WellFormed(m.value) && Readable(m.value)
    ensures ValidMember(MemberOf(m)) && Pair1(MemberOf(m)) == Member(m.key, AsRead(m.value))
    ensures RenderMember(MemberOf(m)) == StringText(m.key) + [COLON] + Print(m.value)
    decreases m, 3
  {
    ItemsOfBytes(m.key);
    SyntaxOfElem(m.value);
    assert [] + StringText(m.key) + [] + [COLON] == StringText(m.key) + [COLON];
  }

  lemma {:induction false} SyntaxOfMembers(ms: seq<Member<Json>>)
    requires WellFormedMembers(ms) && forall i :: 0 <= i < |ms| ==> Readable(ms[i].value)
    ensures var ts := MembersOf(ms);
            |ts| == |ms| && ValidMembers(ts) && Pairs(ts) == MembersAsRead(ms) && RenderMembers(ts) == PrintMembers(ms)
    decreases ms, 0
  {
    if ms == [] {
    } else {
      var ts := MembersOf(ms);
      SyntaxOfMember(ms[0]);
      SyntaxOfMembers(ms[1..]);
      assert ts[1..] == MembersOf(ms[1..]);
    }
  }

  // ---- a number that is not printed as one stops the reader ----

  lemma WordRefused(x: Number, rest: bytes)
    requires !IsReadable(x)
    ensures ParseValue(NumberText(x) + rest) == Fail
  {
    hide NumberText, ParseAt, ParseValue;
    UnreadableText(x);
    var t := NumberText(x) + rest;
    assert t[0] == NumberText(x)[0] && t[1] == NumberText(x)[1];
    NotWhiteSpace(t);
    WordAtFails(t);
  }

  lemma NotWhiteSpace(t: bytes)
    requires t != [] && !IsWs(t[0])
    ensures ParseValue(t) == ParseAt(t)
  {
  }

  lemma WordAtFails(t: bytes)
    requires |t| > 1 && (t[0] == 0x69 || (t[0] == 0x6E && t[1] == 0x61))
    ensures ParseAt(t) == Fail
  {
    hide ParseElems, ParseMembers, ParseNumber, ParseString;
  }

  /** What a value starts with when it is printed. */
  lemma PrintStarts(v: Json)
    ensures var t := Print(v); t != [] && !IsWs(t[0]) && t[0] != RBRACKET && t[0] != RBRACE
  {
    hide NumberText, PrintElems, PrintMembers, EscapeBytes;
    if v.Num? && !IsReadable(v.x) {
      UnreadableText(v.x);
    }
  }

  lemma BracketsAround(es: seq<Json>, ms: seq<Member<Json>>)
    ensures Print(Arr(es)) == [LBRACKET] + PrintElems(es) + [RBRACKET]
    ensures Print(Obj(ms)) == [LBRACE] + PrintMembers(ms) + [RBRACE]
  {
  }

  lemma NoWhiteSpace(u: bytes)
    requires u != [] && !IsWs(u[0])
    ensures SkipWs(u) == u
  {
  }

  /** What an opening bracket is read as, in front of something else than white space or a closing one. */
  lemma BracketAt(u: bytes)
    requires u != [] && !IsWs(u[0]) && u[0] != RBRACKET
    ensures ParseAt([LBRACKET] + u) == ParseElems(u, [])
  {
    hide ParseElems, ParseMembers, ParseNumber, ParseString, ParseLiteral, SkipWs;
    NoWhiteSpace(u);
    assert ([LBRACKET] + u)[1..] == u;
  }

  lemma BraceAt(u: bytes)
    requires u != [] && !IsWs(u[0]) && u[0] != RBRACE
    ensures ParseAt([LBRACE] + u) == ParseMembers(u, [])
  {
    hide ParseElems, ParseMembers, ParseNumber, ParseString, ParseLiteral, SkipWs;
    NoWhiteSpace(u);
    assert ([LBRACE] + u)[1..] == u;
  }

  lemma ArrayStarts(es: seq<Json>, rest: bytes)
    requires es != []
    ensures ParseValue(Print(Arr(es)) + rest) == ParseElems(PrintElems(es) + [RBRACKET] + rest, [])
  {
    hide Print, PrintElems, ParseElems, ParseAt, ParseValue;
    var u := PrintElems(es) + [RBRACKET] + rest;
    PrintStarts(es[0]);
    ElemsTail(es, rest);
    assert u[0] == Print(es[0])[0];
    BracketAt(u);
    NotWhiteSpace([LBRACKET] + u);
    BracketsAround(es, []);
    assert Print(Arr(es)) + rest == [LBRACKET] + u;
  }

  lemma ObjectStarts(ms: seq<Member<Json>>, rest: bytes)
    requires ms != []
    ensures ParseValue(Print(Obj(ms)) + rest) == ParseMembers(PrintMembers(ms) + [RBRACE] + rest, [])
  {
    hide Print, PrintMembers, ParseMembers, ParseAt, ParseValue;
    var u := PrintMembers(ms) + [RBRACE] + rest;
    MembersTail(ms, rest);
    assert u[0] == StringText(ms[0].key)[0] == QUOTE;
    BraceAt(u);
    NotWhiteSpace([LBRACE] + u);
    BracketsAround([], ms);
    assert Print(Obj(ms)) + rest == [LBRACE] + u;
  }

  /** What follows a first element or member when it is printed. */
  function Tail(more: bytes, last: bool, close: byte, rest: bytes): bytes {
    if last then [close] + rest else [COMMA] + (more + [close] + rest)
  }

  lemma ElemsTail(es: seq<Json>, rest: bytes)
    requires es != []
    ensures PrintElems(es) + [RBRACKET] + rest == Print(es[0]) + Tail(PrintElems(es[1..]), |es| == 1, RBRACKET, rest)
  {
    hide Print;
    if |es| == 1 {
      assert Print(es[0]) + [] == Print(es[0]);
      Assoc(Print(es[0]), [RBRACKET], rest);
    } else {
      SeparatorSplit(Print(es[0]), PrintElems(es[1..]), RBRACKET, rest);
    }
  }

  lemma MembersTail(ms: seq<Member<Json>>, rest: bytes)
    requires ms != []
    ensures var tail := Tail(PrintMembers(ms[1..]), |ms| == 1, RBRACE, rest);
            PrintMembers(ms) + [RBRACE] + rest == StringText(ms[0].key) + [COLON] + (Print(ms[0].value) + tail)
  {
    hide Print, StringText;
    var m := StringText(ms[0].key) + [COLON] + Print(ms[0].value);
    var tail := Tail(PrintMembers(ms[1..]), |ms| == 1, RBRACE, rest);
    if |ms| == 1 {
      assert m + [] == m;
      Assoc(m, [RBRACE], rest);
    } else {
      SeparatorSplit(m, PrintMembers(ms[1..]), RBRACE, rest);
    }
    Assoc(StringText(ms[0].key) + [COLON], Print(ms[0].value), tail);
  }

  /** A value that can be read, in front of a comma or a closing byte. */
  lemma ReadableReads(v: Json, tail: bytes)
    requires WellFormed(v) && Readable(v) && tail != []
    requires tail[0] == COMMA || tail[0] == RBRACKET || tail[0] == RBRACE
    ensures ParseValue(Print(v) + tail) == Ok(AsRead(v), tail)
  {
    hide ParseValue, Valid, WellFormed, Readable, Print;
    SyntaxOfValue(v);
    ValueComplete([], SyntaxOf(v), tail);
    assert [] + Print(v) + tail == Print(v) + tail;
  }

  lemma KeyReads(key: bytes, rest: bytes)
    requires NulFree(key)
    ensures ParseKey(StringText(key) + [COLON] + rest) == Some((key, rest))
  {
    hide ParseKey, StringText;
    LiteralText(key);
    var m := SMember([], ItemsOf(key), [], SElem([], SNull, []));
    assert ValidElem(m.elem) && ValidMember(m);
    KeyComplete(m, rest);
    assert [] + Literal(m.key) + [] + [COLON] == Literal(m.key) + [COLON];
  }

  lemma LiteralText(key: bytes)
    requires NulFree(key)
    ensures var items := ItemsOf(key);
            Literal(items) == StringText(key) && ItemsOk(items) && EncodeAll(ItemBytes, items) == key
  {
    ItemsOfBytes(key);
  }

  lemma {:induction false} ValueRefused(v: Json, rest: bytes)
    requires WellFormed(v) && !Readable(v)
    ensures ParseValue(Print(v) + rest) == Fail
    decreases v, 1
  {
    hide ParseValue, ParseElems, ParseMembers, Print, PrintElems, PrintMembers;
    match v
    case Num(x) =>
      WordRefused(x, rest);
      assert Print(v) == NumberText(x) by { PrintOfNum(x); }
    case Arr(es) =>
      ArrayStarts(es, rest);
      ElemsRefused(es, [], rest);
    case Obj(ms) =>
      ObjectStarts(ms, rest);
      MembersRefused(ms, [], rest);
    case _ =>
  }

  lemma PrintOfNum(x: Number)
    ensures Print(Num(x)) == NumberText(x)
  {
  }

  lemma {:induction false} ElemsRefused(es: seq<Json>, acc: seq<Json>, rest: bytes)
    requires WellFormedElems(es) && exists i :: 0 <= i < |es| && !Readable(es[i])
    ensures ParseElems(PrintElems(es) + [RBRACKET] + rest, acc) == Fail
    decreases es, 0
  {
    hide ParseValue, WellFormed, Readable, Print, PrintElems, AsRead;
    var more := PrintElems(es[1..]);
    var tail := Tail(more, |es| == 1, RBRACKET, rest);
    ElemsTail(es, rest);
    if !Readable(es[0]) {
      ValueRefused(es[0], tail);
    } else {
      var i :| 0 <= i < |es| && !Readable(es[i]);
      assert es[i] == es[1..][i - 1];
      ReadableReads(es[0], tail);
      ElemsRefused(es[1..], acc + [AsRead(es[0])], rest);
      assert SkipWs(tail) == tail && tail[1..] == more + [RBRACKET] + rest;
    }
  }

  lemma {:induction false} MembersRefused(ms: seq<Member<Json>>, acc: seq<Member<Json>>, rest: bytes)
    requires WellFormedMembers(ms) && exists i :: 0 <= i < |ms| && !Readable(ms[i].value)
    ensures ParseMembers(PrintMembers(ms) + [RBRACE] + rest, acc) == Fail
    decreases ms, 0
  {
    hide ParseValue, ParseKey, WellFormed, Readable, Print, PrintMembers, AsRead, StringText, SetMember, NulFree;
    var more := PrintMembers(ms[1..]);
    var tail := Tail(more, |ms| == 1, RBRACE, rest);
    MembersTail(ms, rest);
    KeyReads(ms[0].key, Print(ms[0].value) + tail);
    if !Readable(ms[0].value) {
      ValueRefused(ms[0].value, tail);
    } else {
      var i :| 0 <= i < |ms| && !Readable(ms[i].value);
      assert ms[i] == ms[1..][i - 1];
      ReadableReads(ms[0].value, tail);
      MembersRefused(ms[1..], SetMember(acc, ms[0].key, AsRead(ms[0].value)), rest);
      assert SkipWs(tail) == tail && tail[1..] == more + [RBRACE] + rest;
    }
  }

  // ---- exactly what reading gives ----

  /** A value comes back as it is exactly if its numbers do. */
  lemma {:induction false} AsReadExact(v: Json)
    ensures AllComeBack(v) <==> Readable(v) && AsRead(v) == v
    decreases v, 1
  {
    match v
    case Num(x) =>
      hide NumberText, NumberLength, NumberValue;
      NumberBackExact(x);
      if IsReadable(x) {
        ReadBack(x);
      }
    case Arr(es) => ElemsAsReadExact(es);
    case Obj(ms) => MembersAsReadExact(ms);
    case _ =>
  }

  lemma {:induction false} ElemsAsReadExact(es: seq<Json>)
    ensures (forall i :: 0 <= i < |es| ==> AllComeBack(es[i]))
            <==> (forall i :: 0 <= i < |es| ==> Readable(es[i])) && ElemsAsRead(es) == es
    decreases es, 0
  {
    hide Numbers;
    if es == [] {
    } else {
      AsReadExact(es[0]);
      ElemsAsReadExact(es[1..]);
      assert es == [es[0]] + es[1..];
      assert forall i :: 1 <= i < |es| ==> es[i] == es[1..][i - 1];
    }
  }

  lemma {:induction false} MembersAsReadExact(ms: seq<Member<Json>>)
    ensures (forall i :: 0 <= i < |ms| ==> AllComeBack(ms[i].value))
            <==> (forall i :: 0 <= i < |ms| ==> Readable(ms[i].value)) && MembersAsRead(ms) == ms
    decreases ms, 0
  {
    hide Numbers;
    if ms == [] {
    } else {
      AsReadExact(ms[0].value);
      MembersAsReadExact(ms[1..]);
      assert ms == [ms[0]] + ms[1..];
      assert forall i :: 1 <= i < |ms| ==> ms[i] == ms[1..][i - 1];
    }
  }

  /**
   What reading makes of any value that is printed: the value but for the sign of its
   zeros, or nothing if a number in it is not printed as one.
   */
  lemma PrintedReads(v: Json)
    requires WellFormed(v)
    ensures ParseText(Print(v)) == if Readable(v) then Ok(AsRead(v), []) else Fail
  {
    hide ParseValue, Print, Readable, WellFormed, Valid, Meaning, AsRead;
    assert [] + Print(v) + [] == Print(v);
    if Readable(v) {
      SyntaxOfValue(v);
      assert IsTextOf(Print(v), [], SyntaxOf(v), []);
      ParseTextExact(Print(v), AsRead(v));
    } else {
      ValueRefused(v, []);
      assert Print(v) + [] == Print(v);
    }
  }

  /**
   Reading what is printed gives the value back, with its arrays and members in order,
   exactly if no number in it is a negative zero, or infinite or undefined without a sign.
   */
  lemma ParseOfPrint(v: Json)
    requires WellFormed(v)
    ensures ParseText(Print(v)) == Ok(v, []) <==> AllComeBack(v)
  {
    hide ParseText, Print, Readable, WellFormed, AsRead, AllComeBack;
    PrintedReads(v);
    AsReadExact(v);
  }

  // ---- what is read is well formed ----

  lemma {:induction false} MeaningIsWellFormed(c: Syntax)
    requires Valid(c)
    ensures WellFormed(Meaning(c))
    decreases c, 1
  {
    match c
    case SNull =>
    case STrue =>
    case SFalse =>
    case SNum(_) =>
    case SStr(items) => LiteralsAreNulFree(items);
    case SArr(_, es) => MeaningsAreWellFormed(es);
    case SObj(_, ms) =>
      PairsAreWellFormed(ms);
      SetMembersMeaning(Pairs(ms));
      LastOfWellFormed(SetMembers([], Pairs(ms)), Pairs(ms));
  }

  lemma LastOfWellFormed(r: seq<Member<Json>>, ps: seq<Member<Json>>)
    requires HoldsLast(r, ps) && WellFormedMembers(ps)
    ensures WellFormedMembers(r)
  {
    forall i | 0 <= i < |r|
      ensures NulFree(r[i].key) && WellFormed(r[i].value)
    {
      var j :| LastAt(ps, j, r[i].key) && r[i] == ps[j];
    }
  }

  lemma {:induction false} MeaningsAreWellFormed(es: seq<SElem>)
    requires ValidElems(es)
    ensures WellFormedElems(Meanings(es))
    decreases es, 0
  {
    if es == [] {
    } else {
      assert ValidElem(es[0]) && Valid(es[0].v);
      MeaningIsWellFormed(es[0].v);
      MeaningsAreWellFormed(es[1..]);
    }
  }

  lemma {:induction false} PairsAreWellFormed(ms: seq<SMember>)
    requires ValidMembers(ms)
    ensures WellFormedMembers(Pairs(ms))
    decreases ms, 0
  {
    if ms == [] {
    } else {
      assert ValidMember(ms[0]) && ValidElem(ms[0].elem);
      MeaningIsWellFormed(ms[0].elem.v);
      LiteralsAreNulFree(ms[0].key);
      PairsAreWellFormed(ms[1..]);
    }
  }

  /** Printing does not show the sign of a zero. */
  lemma {:induction false} PrintOfAsRead(v: Json)
    requires Readable(v)
    ensures Print(AsRead(v)) == Print(v)
    decreases v, 1
  {
    match v
    case Num(x) => ReadBack(x);
    case Arr(es) => PrintOfElemsAsRead(es);
    case Obj(ms) => PrintOfMembersAsRead(ms);
    case _ =>
  }

  lemma {:induction false} PrintOfElemsAsRead(es: seq<Json>)
    requires forall i :: 0 <= i < |es| ==> Readable(es[i])
    ensures PrintElems(ElemsAsRead(es)) == PrintElems(es)
    decreases es, 0
  {
    hide Readable, Print, AsRead;
    if es == [] {
    } else {
      PrintOfAsRead(es[0]);
      PrintOfElemsAsRead(es[1..]);
      assert ElemsAsRead(es)[1..] == ElemsAsRead(es[1..]);
    }
  }

  lemma {:induction false} PrintOfMembersAsRead(ms: seq<Member<Json>>)
    requires forall i :: 0 <= i < |ms| ==> Readable(ms[i].value)
    ensures PrintMembers(MembersAsRead(ms)) == PrintMembers(ms)
    decreases ms, 0
  {
    hide Readable, Print, AsRead, StringText;
    if ms == [] {
    } else {
      PrintOfAsRead(ms[0].value);
      PrintOfMembersAsRead(ms[1..]);
      assert MembersAsRead(ms)[1..] == MembersAsRead(ms[1..]);
    }
  }

  /**
   Whatever text is read, the value is well formed. If the text printed for it can be
   read at all, then printing what is read changes nothing any more.
   */
  lemma PrintIsNormalForm(text: bytes)
    requires ParseText(text).Ok?
    ensures var v := ParseText(text).value;
            WellFormed(v) && (ParseText(Print(v)).Ok? ==> Print(ParseText(Print(v)).value) == Print(v))
  {
    hide ParseText, Print, Readable, WellFormed, AsRead;
    var v := ParseText(text).value;
    assert ParseText(text) == Ok(v, []) by { NothingLeft(text); }
    ParseTextExact(text, v);
    var pre, c, post :| IsTextOf(text, pre, c, post) && Meaning(c) == v;
    MeaningIsWellFormed(c);
    PrintedReads(v);
    if Readable(v) {
      PrintOfAsRead(v);
    }
  }

  /**
   The members of an object text are set one after another: of a repeated key the
   last value is kept, at the position of the first.
   */
  lemma ObjectTextMeaning(pre: bytes, ws: bytes, ts: seq<SMember>, post: bytes)
    requires AllWs(pre) && Valid(SObj(ws, ts)) && AllWs(post)
    ensures var ms := SetMembers([], Pairs(ts));
            ParseText(pre + Render(SObj(ws, ts)) + post) == Ok(Obj(ms), []) &&
            DistinctKeys(ms) && HoldsLast(ms, Pairs(ts)) && InFirstOrder(ms, Pairs(ts)) &&
            forall k :: HasKey(ms, k) <==> HasKey(Pairs(ts), k)
  {
    var text := pre + Render(SObj(ws, ts)) + post;
    assert IsTextOf(text, pre, SObj(ws, ts), post);
    ParseTextExact(text, Meaning(SObj(ws, ts)));
    SetMembersMeaning(Pairs(ts));
  }
}
