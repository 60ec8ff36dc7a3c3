/** The JSON printer as it runs, on trees as they are stored. */
module JsonPrinter {
  import opened Bytes
  import opened Json
  import opened JsonObject
  import opened JsonMemory
  import opened JsonNode
  import opened NumberFormat
  import GrowList

  /** With the memory for it, the text has been appended; without, something may be missing. */
  ghost predicate Printed(data: bytes, short: bool, out: TenString, text: bytes)
    reads out
  {
    && (short ==> out.Short()) && (!out.Short() ==> out.data == data + text)
    && (NulFree(data) ==> NulFree(out.data))
  }

  lemma EscapeByteNulFree(c: byte)
    requires c != 0
    ensures UpToNul(EscapeByte(c)) == EscapeByte(c)
  {
    UpToNulOfNulFree(EscapeByte(c));
  }

  lemma EscapeBytesStep(s: bytes, i: nat)
    requires i < |s|
    ensures EscapeBytes(s[i..]) == EscapeByte(s[i]) + EscapeBytes(s[i + 1..])
  {
  }

  /** Appends a string as a literal, byte by byte. */
  method PrintString(s: bytes, out: TenString)
    requires NulFree(s)
    modifies out
    ensures Printed(old(out.data), old(out.Short()), out, StringText(s))
  {
    hide EscapeByte, EscapeBytes, UpToNul;
    PrintByte(QUOTE, out);
    ghost var done: bytes := [];
    for i := 0 to |s|
      invariant Printed(old(out.data), old(out.Short()), out, [QUOTE] + done)
      invariant EscapeBytes(s) == done + EscapeBytes(s[i..])
    {
      EscapeByteNulFree(s[i]);
      EscapeBytesStep(s, i);
      out.Append(EscapeByte(s[i]));
      done := done + EscapeByte(s[i]);
    }
    EscapeBytesEnd(s, done);
    PrintByte(QUOTE, out);
  }

  lemma EscapeBytesEnd(s: bytes, done: bytes)
    ensures done + EscapeBytes(s[|s|..]) == done
  {
  }

  lemma WordsNulFree(b: bool)
    ensures UpToNul(NULL_TEXT) == NULL_TEXT && UpToNul(BoolText(b)) == BoolText(b)
  {
    UpToNulOfNulFree(NULL_TEXT);
    UpToNulOfNulFree(BoolText(b));
  }

  function BoolText(b: bool): bytes {
    if b then TRUE_TEXT else FALSE_TEXT
  }

  /** Appends one character. */
  method PrintByte(b: byte, out: TenString)
    requires b != 0
    modifies out
    ensures Printed(old(out.data), old(out.Short()), out, [b])
  {
    UpToNulOfNulFree([b]);
    out.Append([b]);
  }

  /** The comma before every element or member but the first. */
  function Separator(i: nat): bytes {
    if i == 0 then [] else [COMMA]
  }

  /** What is still to be printed of an array after its first elements. */
  ghost function ElemsAfter(es: seq<Json>, i: nat): bytes
    requires i <= |es|
  {
    if i == |es| then [] else Separator(i) + PrintElems(es[i..])
  }

  lemma ElemsStep(es: seq<Json>, i: nat)
    requires i < |es|
    ensures ElemsAfter(es, i) == Separator(i) + Print(es[i]) + ElemsAfter(es, i + 1)
  {
    hide Print;
    var rest := es[i..];
    assert rest[0] == es[i] && rest[1..] == es[i + 1..];
  }

  ghost function MembersAfter(ms: seq<Member<Json>>, i: nat): bytes
    requires i <= |ms|
  {
    if i == |ms| then [] else Separator(i) + PrintMembers(ms[i..])
  }

  lemma MembersStep(ms: seq<Member<Json>>, i: nat)
    requires i < |ms|
    ensures MembersAfter(ms, i)
         == Separator(i) + (StringText(ms[i].key) + [COLON] + Print(ms[i].value)) + MembersAfter(ms, i + 1)
  {
    hide Print, StringText;
    var rest := ms[i..];
    assert rest[0] == ms[i] && rest[1..] == ms[i + 1..];
  }

  lemma WholeElems(es: seq<Json>)
    ensures ElemsAfter(es, 0) == PrintElems(es)
  {
    assert es[0..] == es;
  }

  lemma WholeMembers(ms: seq<Member<Json>>)
    ensures MembersAfter(ms, 0) == PrintMembers(ms)
  {
    assert ms[0..] == ms;
  }

  /** Appends the text of the value that a tree stands for. */
  method PrintValue(n: Node, ghost v: Json, ghost mem: set<object>, out: TenString)
    requires Denotes(n, v, mem) && WellFormed(v) && out !in mem
    modifies out
    ensures Printed(old(out.data), old(out.Short()), out, Print(v))
    decreases v, 3
  {
    OpenNode(n, v, mem);
    hide Print, WellFormed, NulFree, Denotes, HoldsElems, HoldsMembers;
    match n
    case Scalar(w) => PrintScalar(w, out);
    case ArrayNode(list) => PrintArray(list, v.elems, mem, out);
    case ObjectNode(store) => PrintObject(store, v.members, mem, out);
  }

  /** A stored array of these elements, which can be printed. */
  ghost predicate HoldsElems(list: GrowList.List<Node>, es: seq<Json>, mem: set<object>)
    reads mem
  {
    && list in mem && list.data in mem && list.Valid() && ElemsDenote(list.Contents(), es, mem)
    && forall i :: 0 <= i < |es| ==> WellFormed(es[i])
  }

  /** A stored object of these members, which can be printed. */
  ghost predicate HoldsMembers(store: ObjectStore<Node>, ms: seq<Member<Json>>, mem: set<object>)
    reads mem
  {
    && store in mem && store.Repr <= mem && store.Valid() && MembersDenote(store.Members(), ms, mem)
    && forall i :: 0 <= i < |ms| ==> NulFree(ms[i].key) && WellFormed(ms[i].value)
  }

  lemma OpenNode(n: Node, v: Json, mem: set<object>)
    requires Denotes(n, v, mem) && WellFormed(v)
    ensures n.Scalar? ==> n.v == v && !v.Arr? && !v.Obj?
    ensures n.ArrayNode? ==> v.Arr? && HoldsElems(n.list, v.elems, mem)
    ensures n.ObjectNode? ==> v.Obj? && HoldsMembers(n.store, v.members, mem)
  {
    hide ElemsDenote, MembersDenote, GrowList.List.Valid, ObjectStore.Valid, ObjectStore.Members;
  }

  method PrintScalar(v: Json, out: TenString)
    requires WellFormed(v) && !v.Arr? && !v.Obj?
    modifies out
    ensures Printed(old(out.data), old(out.Short()), out, Print(v))
  {
    hide PrintElems, PrintMembers, UpToNul, NumberText, StringText, NulFree;
    match v
    case Null =>
      WordsNulFree(true);
      out.Append(NULL_TEXT);
    case Bool(b) =>
      WordsNulFree(b);
      out.Append(BoolText(b));
    case Num(x) =>
      NumberTextNulFree(x);
      UpToNulOfNulFree(NumberText(x));
      out.Append(NumberText(x));
    case Str(s) => PrintString(s, out);
  }

  lemma Moved(whole: bytes, done: bytes, part: bytes, rest: bytes)
    requires whole == done + (part + rest)
    ensures whole == done + part + rest
  {
  }

  method PrintSeparator(i: nat, out: TenString)
    modifies out
    ensures Printed(old(out.data), old(out.Short()), out, Separator(i))
  {
    if i > 0 {
      PrintByte(COMMA, out);
    }
  }

  method ElementAt(list: GrowList.List<Node>, i: nat, ghost es: seq<Json>, ghost mem: set<object>) returns (n: Node)
    requires HoldsElems(list, es, mem) && i < |es|
    ensures Denotes(n, es[i], mem) && WellFormed(es[i])
  {
    hide WellFormed, Denotes, GrowList.List.Valid, GrowList.List.Contents;
    var element := list.Get(i);
    n := element.value;
  }

  method ListCount(list: GrowList.List<Node>, ghost es: seq<Json>, ghost mem: set<object>) returns (n: nat)
    requires HoldsElems(list, es, mem)
    ensures n == |es|
  {
    hide WellFormed, Denotes, GrowList.List.Valid, GrowList.List.Contents;
    n := list.Count();
  }

  /** The element loop. */
  method PrintElements(list: GrowList.List<Node>, ghost es: seq<Json>, ghost mem: set<object>, out: TenString)
    requires HoldsElems(list, es, mem) && out !in mem
    modifies out
    ensures Printed(old(out.data), old(out.Short()), out, PrintElems(es))
    decreases es, 1
  {
    hide PrintElems, Print, WellFormed, ElemsAfter, Separator, NulFree, Denotes, HoldsElems;
    var count := ListCount(list, es, mem);
    WholeElems(es);
    ghost var done: bytes := [];
    for i := 0 to count
      invariant HoldsElems(list, es, mem)
      invariant Printed(old(out.data), old(out.Short()), out, done)
      invariant PrintElems(es) == done + ElemsAfter(es, i)
    {
      ghost var part := Separator(i) + Print(es[i]);
      ElemsStep(es, i);
      Moved(PrintElems(es), done, part, ElemsAfter(es, i + 1));
      PrintSeparator(i, out);
      var element := ElementAt(list, i, es, mem);
      PrintValue(element, es[i], mem, out);
      assert old(out.data) + done + Separator(i) + Print(es[i]) == old(out.data) + (done + part);
      done := done + part;
    }
    NothingAfter(es, [], done);
  }

  lemma NothingAfter(es: seq<Json>, ms: seq<Member<Json>>, done: bytes)
    ensures done + ElemsAfter(es, |es|) == done && done + MembersAfter(ms, |ms|) == done
  {
  }

  lemma Bracketed(es: seq<Json>, ms: seq<Member<Json>>, before: bytes)
    ensures before + [LBRACKET] + PrintElems(es) + [RBRACKET] == before + Print(Arr(es))
    ensures before + [LBRACE] + PrintMembers(ms) + [RBRACE] == before + Print(Obj(ms))
  {
    assert before + [LBRACKET] + PrintElems(es) + [RBRACKET] == before + ([LBRACKET] + PrintElems(es) + [RBRACKET]);
    assert before + [LBRACE] + PrintMembers(ms) + [RBRACE] == before + ([LBRACE] + PrintMembers(ms) + [RBRACE]);
  }

  method PrintArray(list: GrowList.List<Node>, ghost es: seq<Json>, ghost mem: set<object>, out: TenString)
    requires HoldsElems(list, es, mem) && out !in mem
    modifies out
    ensures Printed(old(out.data), old(out.Short()), out, Print(Arr(es)))
    decreases es, 2
  {
    hide Print, PrintElems, NulFree, HoldsElems;
    Bracketed(es, [], out.data);
    PrintByte(LBRACKET, out);
    PrintElements(list, es, mem, out);
    PrintByte(RBRACKET, out);
  }

  /** The key list says which key is next, and the hash map has its value. */
  method LookUp(store: ObjectStore<Node>, i: nat, ghost ms: seq<Member<Json>>, ghost mem: set<object>)
    returns (key: bytes, value: Node)
    requires HoldsMembers(store, ms, mem) && i < |ms|
    ensures key == ms[i].key && Denotes(value, ms[i].value, mem) && NulFree(key) && WellFormed(ms[i].value)
  {
    hide WellFormed, NulFree, Denotes, ObjectStore.Valid, ObjectStore.Members;
    FindOnly(store.Members(), i);
    var stored := store.KeyAt(i);
    var slot := store.Get(stored.value);
    key, value := stored.value.chars, slot.value;
  }

  method StoredCount(store: ObjectStore<Node>, ghost ms: seq<Member<Json>>, ghost mem: set<object>) returns (n: nat)
    requires HoldsMembers(store, ms, mem)
    ensures n == |ms|
  {
    hide WellFormed, Denotes, ObjectStore.Valid, ObjectStore.Members;
    n := store.Count();
  }

  /** One member of a stored object: the value of its key is looked up in the hash map, and is there. */
  method PrintMember(store: ObjectStore<Node>, i: nat, ghost ms: seq<Member<Json>>, ghost mem: set<object>,
                     out: TenString)
    requires HoldsMembers(store, ms, mem) && out !in mem && i < |ms|
    modifies out
    ensures var member := StringText(ms[i].key) + [COLON] + Print(ms[i].value);
            Printed(old(out.data), old(out.Short()), out, Separator(i) + member)
    decreases ms, 0
  {
    hide Print, WellFormed, StringText, NulFree, Separator, HoldsMembers, Denotes;
    ghost var k, t := StringText(ms[i].key), Print(ms[i].value);
    var key, value := LookUp(store, i, ms, mem);
    PrintSeparator(i, out);
    PrintString(key, out);
    PrintByte(COLON, out);
    PrintValue(value, ms[i].value, mem, out);
    assert old(out.data) + Separator(i) + k + [COLON] + t == old(out.data) + (Separator(i) + (k + [COLON] + t));
  }

  /** The member loop. */
  method PrintFields(store: ObjectStore<Node>, ghost ms: seq<Member<Json>>, ghost mem: set<object>, out: TenString)
    requires HoldsMembers(store, ms, mem) && out !in mem
    modifies out
    ensures Printed(old(out.data), old(out.Short()), out, PrintMembers(ms))
    decreases ms, 1
  {
    hide PrintMembers, Print, StringText, MembersAfter, Separator, NulFree, HoldsMembers;
    var count := StoredCount(store, ms, mem);
    WholeMembers(ms);
    ghost var done: bytes := [];
    for i := 0 to count
      invariant HoldsMembers(store, ms, mem)
      invariant Printed(old(out.data), old(out.Short()), out, done)
      invariant PrintMembers(ms) == done + MembersAfter(ms, i)
    {
      ghost var part := Separator(i) + (StringText(ms[i].key) + [COLON] + Print(ms[i].value));
      MembersStep(ms, i);
      Moved(PrintMembers(ms), done, part, MembersAfter(ms, i + 1));
      PrintMember(store, i, ms, mem, out);
      assert old(out.data) + done + part == old(out.data) + (done + part);
      done := done + part;
    }
    NothingAfter([], ms, done);
  }

  method PrintObject(store: ObjectStore<Node>, ghost ms: seq<Member<Json>>, ghost mem: set<object>, out: TenString)
    requires HoldsMembers(store, ms, mem) && out !in mem
    modifies out
    ensures Printed(old(out.data), old(out.Short()), out, Print(Obj(ms)))
    decreases ms, 2
  {
    hide Print, PrintMembers, NulFree, HoldsMembers;
    Bracketed([], ms, out.data);
    PrintByte(LBRACE, out);
    PrintFields(store, ms, mem, out);
    PrintByte(RBRACE, out);
  }

  /** The text of a tree; it is a C string. Without memory there is none, or it lacks something. */
  method Stringify(n: Node, ghost v: Json, ghost mem: set<object>, supply: Supply)
    returns (text: Option<bytes>, ghost asked: nat)
    requires Denotes(n, v, mem) && WellFormed(v)
    ensures text.None? ==> Lacks(supply, asked)
    ensures text.Some? ==> NulFree(text.value) && (!Lacks(supply, asked) ==> text.value == Print(v))
    ensures (forall k :: supply(k)) ==> text == Some(Print(v))
  {
    hide Print, Denotes, WellFormed;
    LacksMore(supply, 0);
    if !supply(0) {
      return None, 1;
    }
    var out := new TenString((k: nat) => supply(1 + k));
    PrintValue(n, v, mem, out);
    assert [] + Print(v) == Print(v);
    LacksBoth(supply, 1, out.supply, out.asked);
    LacksMore(supply, 1 + out.asked);
    asked := 1 + out.asked + 1;
    text := if supply(1 + out.asked) then Some(out.data) else None;
  }
}
