/**
 The JSON reader as it runs: a cursor that moves over the text, a string that is appended
 to, lists that grow and objects that are set member by member.
 */
module JsonReader {
  import opened Bytes
  import opened Codec
  import opened Utf
  import opened HashMap
  import opened Json
  import opened JsonString
  import opened JsonParse
  import opened JsonObject
  import opened JsonMemory
  import opened JsonNode
  import opened Strtod
  import GrowList

  // ---- the contents of a literal, item by item ----

  /** What is appended for items, each as far as there is memory for it. */
  function KeptBytes(items: seq<Item>, supply: Supply, n: nat): bytes {
    if items == [] then []
    else (if supply(n) then ItemBytes(items[0]) else []) + KeptBytes(items[1..], supply, n + 1)
  }

  lemma {:induction false} AllKept(items: seq<Item>, n: nat)
    ensures KeptBytes(items, ALWAYS, n) == EncodeAll(ItemBytes, items)
  {
    if items == [] {
    } else {
      AllKept(items[1..], n + 1);
    }
  }

  /** What is left of a literal: its contents, and the text after its closing quote. */
  function Contents(s: bytes, supply: Supply, n: nat): Option<(bytes, bytes)> {
    match DecodeUntil(NextItem, QUOTE, s)
    case None => None
    case Some((items, rest)) => Some((KeptBytes(items, supply, n), rest))
  }

  function Prepend(b: bytes, r: Option<(bytes, bytes)>): Option<(bytes, bytes)> {
    match r
    case None => None
    case Some((c, rest)) => Some((b + c, rest))
  }

  lemma ContentsStep(s: bytes, supply: Supply, n: nat)
    ensures s == [] ==> Contents(s, supply, n) == None
    ensures s != [] && s[0] == QUOTE ==> Contents(s, supply, n) == Some(([], s[1..]))
    ensures s != [] && s[0] != QUOTE && NextItem(s).None? ==> Contents(s, supply, n) == None
    ensures s != [] && s[0] != QUOTE && NextItem(s).Some? ==>
              var (it, k) := NextItem(s).value;
              && 1 <= k <= |s| && ItemOk(it)
              && Contents(s, supply, n)
                 == Prepend(if supply(n) then ItemBytes(it) else [], Contents(s[k..], supply, n + 1))
  {
    ItemsAreACodec();
    if s != [] && s[0] != QUOTE && NextItem(s).Some? {
      var (it, k) := NextItem(s).value;
      if DecodeUntil(NextItem, QUOTE, s[k..]).Some? {
        var ts := DecodeUntil(NextItem, QUOTE, s[k..]).value.0;
        assert ([it] + ts)[1..] == ts;
      }
    }
  }

  lemma PrependTwice(a: bytes, b: bytes, r: Option<(bytes, bytes)>)
    ensures Prepend(a, Prepend(b, r)) == Prepend(a + b, r)
  {
    if r.Some? {
      assert a + (b + r.value.0) == a + b + r.value.0;
    }
  }

  lemma PrependNothing(r: Option<(bytes, bytes)>)
    ensures Prepend([], r) == r
  {
    if r.Some? {
      assert [] + r.value.0 == r.value.0;
    }
  }

  /** A literal is its opening quote and its contents. */
  lemma ContentsOfString(s: bytes)
    ensures ParseString(s) == if s == [] || s[0] != QUOTE then None else Contents(s[1..], ALWAYS, 0)
  {
    if s != [] && s[0] == QUOTE && DecodeUntil(NextItem, QUOTE, s[1..]).Some? {
      AllKept(DecodeUntil(NextItem, QUOTE, s[1..]).value.0, 0);
    }
  }

  /** What there is memory for does not change where a literal ends. */
  lemma SameEnd(s: bytes, supply: Supply, n: nat)
    ensures Contents(s, supply, n).Some? <==> Contents(s, ALWAYS, 0).Some?
    ensures Contents(s, supply, n).Some? ==> Contents(s, supply, n).value.1 == Contents(s, ALWAYS, 0).value.1
  {
  }

  /** The literal `"a"`, read when there is no memory to append to the string: it is empty, and nothing notices. */
  lemma MissingCharacter()
    ensures ParseString([QUOTE, 0x61, QUOTE]) == Some(([0x61], []))
    ensures Contents([0x61, QUOTE], NEVER, 0) == Some(([], []))
  {
    hide DecodeUntil, ItemBytes, Contents, ParseString;
    var s, t: bytes := [0x61, QUOTE], [QUOTE];
    assert s[1..] == t && t[1..] == [] && [QUOTE, 0x61, QUOTE][1..] == s;
    assert NextItem(s) == Some((Raw(0x61), 1));
    ContentsStep(s, NEVER, 0);
    ContentsStep(t, NEVER, 1);
    ContentsStep(s, ALWAYS, 0);
    ContentsStep(t, ALWAYS, 1);
    ContentsOfString([QUOTE, 0x61, QUOTE]);
    PlainItem();
    PrependNothing(Contents(t, NEVER, 1));
    assert s[..1] + [] == s[..1] == [0x61];
  }

  lemma PlainItem()
    ensures ItemBytes(Raw(0x61)) == [0x61]
  {
  }

  // ---- the reader ----

  /** What a call of the reader says. */
  datatype Reading = Read(node: Node) | Refused

  /**
   The call read a tree in `mem` for `v`, and left the text that the reader as a function
   leaves. With the memory for it, it did what that does.
   */
  ghost predicate Agrees(r: Reading, v: Json, mem: set<object>, spec: Parsed<Json>, rest: bytes, short: bool)
    reads mem
  {
    match r
    case Read(n) => spec.Ok? && spec.rest == rest && Denotes(n, v, mem) && (!short ==> v == spec.value)
    case Refused => short || spec == Fail
  }

  class Parser {
    const text: bytes
    const hash: bytes -> nat
    const supply: Supply
    var cursor: nat
    var asked: nat

    constructor (text: bytes, hash: bytes -> nat, supply: Supply)
      ensures this.text == text && this.supply == supply && cursor == 0 && asked == 0 && !Short()
    {
      this.text, this.hash, this.supply := text, hash, supply;
      cursor, asked := 0, 0;
    }

    /** Whether there was too little memory at some time. */
    ghost predicate Short()
      reads this`asked
    {
      Lacks(supply, asked)
    }

    /** Asks for memory. */
    method Ask() returns (ok: bool)
      modifies this`asked
      ensures Short() == (old(Short()) || !ok)
    {
      LacksMore(supply, asked);
      ok := supply(asked);
      asked := asked + 1;
    }

    ghost predicate Within()
      reads this
    {
      cursor <= |text|
    }

    /** The text from the cursor on. */
    function Rest(): bytes
      requires Within()
      reads this
    {
      text[cursor..]
    }

    /** Moves the cursor over bytes that are there. */
    method Advance(n: nat)
      requires cursor + n <= |text|
      modifies this`cursor
      ensures Within() && cursor == old(cursor) + n && Rest() == old(Rest())[n..]
    {
      cursor := cursor + n;
    }

    method SkipWhitespace()
      requires Within()
      modifies this`cursor
      ensures Within() && old(cursor) <= cursor && Rest() == SkipWs(old(Rest()))
    {
      while cursor < |text| && IsWs(text[cursor])
        invariant Within() && old(cursor) <= cursor && SkipWs(Rest()) == SkipWs(old(Rest()))
      {
        assert Rest()[0] == text[cursor];
        Advance(1);
      }
      assert cursor < |text| ==> Rest()[0] == text[cursor];
    }

    /** Four hexadecimal digits at `i`. */
    method ReadHex4(i: nat) returns (cp: Option<bv32>)
      requires i + 4 <= |text|
      ensures cp == Hex4(text[i..i + 4])
    {
      cp := Hex4(text[i..i + 4]);
    }

    /** One append, if there was memory for it. */
    ghost predicate Appended(data: bytes, out: TenString, asked: nat, short: bool, bytes: bytes)
      reads out
    {
      && out.asked == asked + 1 && out.Short() == (short || !out.supply(asked))
      && out.data == data + if out.supply(asked) then bytes else []
    }

    /** One round of the loop over a literal: what stands at the cursor is appended, unescaped. */
    method ReadItem(out: TenString) returns (ok: bool)
      requires cursor < |text| && text[cursor] != QUOTE
      modifies this`cursor, out
      ensures Within() && old(cursor) <= cursor
      ensures ok <==> NextItem(old(Rest())).Some?
      ensures ok ==> var (it, n) := NextItem(old(Rest())).value;
                     cursor == old(cursor) + n
                     && Appended(old(out.data), out, old(out.asked), old(out.Short()), ItemBytes(it))
    {
      hide NextEscape, Lacks;
      ghost var s := Rest();
      if text[cursor] != BACKSLASH {
        out.Append([text[cursor]]);
        cursor := cursor + 1;
        return true;
      }
      cursor := cursor + 1;
      if cursor >= |text| {
        return false;
      }
      assert text[cursor] == s[1];
      if ShortValue(text[cursor]).Some? {
        out.Append([ShortValue(text[cursor]).value]);
        cursor := cursor + 1;
        return true;
      }
      if text[cursor] != LETTER_U {
        return false;
      }
      ok := ReadEscape(out);
    }

    /** A `\u` escape; the cursor is at its second byte. */
    method ReadEscape(out: TenString) returns (ok: bool)
      requires 1 <= cursor < |text|
      modifies this`cursor, out
      ensures Within() && old(cursor) <= cursor
      ensures ok <==> NextEscape(text[old(cursor) - 1..]).Some?
      ensures ok ==> var (it, n) := NextEscape(text[old(cursor) - 1..]).value;
                     cursor == old(cursor) - 1 + n
                     && Appended(old(out.data), out, old(out.asked), old(out.Short()), ItemBytes(it))
    {
      hide Hex4, IsHigh, IsLow, JoinSurrogates, EncodeOne, UpToNul, Lacks;
      ghost var s := text[cursor - 1..];
      cursor := cursor + 1;
      if |text| - cursor < 4 {
        return false;
      }
      var high := ReadHex4(cursor);
      assert text[cursor..cursor + 4] == s[2..6];
      if high.None? {
        return false;
      }
      var cp := high.value;
      cursor := cursor + 4;
      if IsHigh(cp) {
        if |text| - cursor < 6 || text[cursor] != BACKSLASH || text[cursor + 1] != LETTER_U {
          return false;
        }
        var low := ReadHex4(cursor + 2);
        assert text[cursor + 2..cursor + 6] == s[8..12];
        if low.None? || !IsLow(low.value) {
          return false;
        }
        cursor := cursor + 6;
        cp := JoinSurrogates(cp, low.value);
      }
      out.Append(EncodeOne(cp));
      ok := true;
    }

    /**
     The loop over a literal behind its opening quote. It appends what the items stand for,
     each as far as there is memory for it; nothing notices if one is missing.
     */
    method ReadContents(out: TenString) returns (ok: bool)
      requires Within() && out.data == [] && out.asked == 0 && !out.Short()
      modifies this`cursor, out
      ensures Within() && old(cursor) <= cursor
      ensures if ok then Contents(old(Rest()), out.supply, 0) == Some((out.data, Rest()))
              else Contents(old(Rest()), out.supply, 0) == None
      ensures ok && !out.Short() ==> Contents(old(Rest()), ALWAYS, 0) == Some((out.data, Rest()))
    {
      hide NextItem, Contents, ItemBytes, Lacks;
      ghost var body, supply := Rest(), out.supply;
      PrependNothing(Contents(body, supply, 0));
      PrependNothing(Contents(body, ALWAYS, 0));
      while cursor < |text| && text[cursor] != QUOTE
        invariant Within() && old(cursor) <= cursor
        invariant Contents(body, supply, 0) == Prepend(out.data, Contents(Rest(), supply, out.asked))
        invariant !out.Short() ==> Contents(body, ALWAYS, 0) == Prepend(out.data, Contents(Rest(), ALWAYS, out.asked))
        decreases |text| - cursor
      {
        ghost var before, s, n := out.data, Rest(), out.asked;
        ContentsStep(s, supply, n);
        ContentsStep(s, ALWAYS, n);
        ok := ReadItem(out);
        if !ok {
          return;
        }
        ghost var part := if supply(n) then ItemBytes(NextItem(s).value.0) else [];
        PrependTwice(before, part, Contents(Rest(), supply, n + 1));
        PrependTwice(before, part, Contents(Rest(), ALWAYS, n + 1));
      }
      ContentsStep(Rest(), supply, out.asked);
      ContentsStep(Rest(), ALWAYS, out.asked);
      if cursor >= |text| {
        return false;
      }
      cursor := cursor + 1;
      assert out.data + [] == out.data;
      ok := true;
    }

    /** Reads a literal. */
    method ReadString() returns (r: Option<bytes>)
      requires Within()
      modifies this
      ensures Within() && old(cursor) <= cursor && (old(Short()) ==> Short())
      ensures r.None? ==> Short() || ParseString(old(Rest())) == None
      ensures r.Some? ==> old(cursor) < cursor && ParseString(old(Rest())).Some?
      ensures r.Some? ==> var (b, rest) := ParseString(old(Rest())).value; rest == Rest() && (!Short() ==> b == r.value)
    {
      hide Contents, ParseString, Lacks;
      ContentsOfString(Rest());
      if cursor >= |text| || text[cursor] != QUOTE {
        return None;
      }
      Advance(1);
      var ok := Ask();
      if !ok {
        return None;
      }
      var from: nat := asked;
      var out := new TenString((n: nat) => supply(from + n));
      SameEnd(Rest(), out.supply, 0);
      ok := ReadContents(out);
      LacksBoth(supply, from, out.supply, out.asked);
      asked := from + out.asked;
      r := if ok then Some(out.data) else None;
    }

    /** A new node for a value that is neither an array nor an object. */
    method NewScalar(value: Json) returns (r: Reading)
      requires Within()
      modifies this`asked
      ensures (old(Short()) ==> Short()) && (r == Read(Scalar(value)) || (r == Refused && Short()))
    {
      hide Lacks;
      var ok := Ask();
      r := if ok then Read(Scalar(value)) else Refused;
    }

    /** A new, empty list, and a node for it. */
    method MakeList() returns (list: GrowList.List?<Node>)
      requires Within()
      modifies this`asked
      ensures (old(Short()) ==> Short()) && (list == null ==> Short())
      ensures list != null ==> (Short() ==> old(Short())) && fresh(list) && fresh(list.data) && ListHolds(list, [], {})
    {
      hide Lacks, ListHolds;
      var node := Ask();
      var room := Ask();
      list := null;
      if node && room {
        list := NewList();
      }
    }

    /** A new, empty object, and a node for it. */
    method MakeStore() returns (obj: ObjectStore?<Node>)
      requires Within()
      modifies this`asked
      ensures (old(Short()) ==> Short()) && (obj == null ==> Short())
      ensures obj != null ==> (Short() ==> old(Short())) && fresh(obj) && fresh(obj.Repr) && StoreHolds(obj, [], {})
    {
      hide Lacks, StoreHolds;
      var node := Ask();
      var entries := Ask();
      var keys := Ask();
      obj := null;
      if node && entries && keys {
        obj := NewStore(hash);
      }
    }

    /** One of the words `null`, `true` and `false`. */
    method ReadWord(word: bytes, value: Json) returns (r: Reading)
      requires Within() && !value.Arr? && !value.Obj?
      modifies this
      ensures Within() && old(cursor) <= cursor && (old(Short()) ==> Short())
      ensures Agrees(r, value, {}, ParseLiteral(old(Rest()), word, value), Rest(), Short())
    {
      if |text| - cursor >= |word| && text[cursor..cursor + |word|] == word {
        assert Rest()[..|word|] == word;
        Advance(|word|);
        r := NewScalar(value);
      } else {
        assert |word| <= |Rest()| ==> Rest()[..|word|] == text[cursor..cursor + |word|];
        r := Refused;
      }
    }

    /** Takes what the C library takes for a number. */
    method ReadNumber() returns (r: Reading, ghost v: Json)
      requires Within()
      modifies this
      ensures Within() && old(cursor) <= cursor && (old(Short()) ==> Short())
      ensures Agrees(r, v, {}, ParseNumber(old(Rest())), Rest(), Short())
    {
      hide NumberLength, NumberValue, Lacks;
      var n := NumberLength(Rest());
      if n == 0 {
        return Refused, Null;
      }
      var value := Num(NumberValue(Rest()[..n]));
      v := value;
      Advance(n);
      r := NewScalar(value);
    }

    /** Reads a value; the tree that it makes is new. */
    method ReadValue() returns (r: Reading, ghost v: Json, ghost mem: set<object>)
      requires Within()
      modifies this
      ensures Within() && old(cursor) <= cursor && (old(Short()) ==> Short()) && fresh(mem)
      ensures Agrees(r, v, mem, ParseValue(old(Rest())), Rest(), Short())
      ensures r.Read? ==> old(cursor) < cursor
      decreases |text| - cursor, 2
    {
      hide ParseElems, ParseMembers, ParseNumber, ParseString, ParseLiteral, SkipWs, Lacks;
      r, v, mem := Refused, Null, {};
      SkipWhitespace();
      if cursor >= |text| {
        return;
      }
      var c := text[cursor];
      assert c == Rest()[0];
      if c == 0x6E {
        r := ReadWord(NULL_TEXT, Null);
      } else if c == 0x74 {
        v := Bool(true);
        r := ReadWord(TRUE_TEXT, Bool(true));
      } else if c == 0x66 {
        v := Bool(false);
        r := ReadWord(FALSE_TEXT, Bool(false));
      } else if c == QUOTE {
        r, v := ReadStringNode();
      } else if c == LBRACKET {
        r, v, mem := ReadArray();
      } else if c == LBRACE {
        r, v, mem := ReadObject();
      } else if StartsNumber(Rest()) {
        r, v := ReadNumber();
      }
    }

    method ReadStringNode() returns (r: Reading, ghost v: Json)
      requires cursor < |text| && text[cursor] == QUOTE
      modifies this
      ensures Within() && old(cursor) <= cursor && (old(Short()) ==> Short())
      ensures Agrees(r, v, {}, ParseAt(old(Rest())), Rest(), Short())
    {
      hide ParseElems, ParseMembers, ParseNumber, ParseString, ParseLiteral, SkipWs, Lacks;
      assert Rest()[0] == QUOTE;
      var s := ReadString();
      if s.None? {
        return Refused, Null;
      }
      v := Str(s.value);
      r := NewScalar(Str(s.value));
    }

    /** A comma or the closing bracket, after whitespace. */
    method ReadMark(comma: byte, close: byte) returns (c: Option<byte>)
      requires Within()
      modifies this`cursor
      ensures Within() && old(cursor) <= cursor
      ensures var t := SkipWs(old(Rest()));
              if t != [] && (t[0] == comma || t[0] == close)
              then c == Some(t[0]) && Rest() == t[1..] && old(cursor) < cursor else c == None
    {
      hide SkipWs;
      SkipWhitespace();
      if cursor >= |text| {
        return None;
      }
      assert text[cursor] == Rest()[0];
      if text[cursor] != comma && text[cursor] != close {
        return None;
      }
      c := Some(text[cursor]);
      Advance(1);
    }

    /**
     One element, which is added to the list, and what follows it: a comma says that there
     are more. The reader as a function has `ws` where the list has nodes for `es`.
     */
    method ReadElement(list: GrowList.List<Node>, ghost es: seq<Json>, ghost ws: seq<Json>, ghost mem: set<object>)
      returns (element: Reading, more: bool, ghost es': seq<Json>, ghost ws': seq<Json>, ghost mem': set<object>)
      requires Within() && this !in mem && ListHolds(list, es, mem) && (!Short() ==> es == ws)
      modifies this, list, list.data
      ensures Within() && old(cursor) <= cursor && (element.Read? ==> old(cursor) < cursor) && fresh(mem' - mem)
      ensures (old(Short()) ==> Short()) && (!Short() ==> es' == ws')
      ensures element.Read? ==> ListHolds(list, es', mem') && (list.data == old(list.data) || fresh(list.data))
      ensures match element
              case Refused => Short() || ParseElems(old(Rest()), ws) == Fail
              case Read(_) =>
                ParseElems(old(Rest()), ws) == if more then ParseElems(Rest(), ws') else Ok(Arr(ws'), Rest())
      decreases |text| - cursor, 3
    {
      hide ParseValue, SkipWs, ListHolds, Denotes, Lacks;
      ghost var spec, v, piece := ParseValue(Rest()), Null, {};
      more, es', ws', mem' := false, es, ws, mem;
      element, v, piece := ReadValue();
      if !element.Read? {
        return;
      }
      var granted := Ask();
      var ok := AddElement(list, element.node, granted, es, v, mem, piece);
      if !ok {
        element := Refused;
        return;
      }
      es', ws', mem' := es + [v], ws + [spec.value], mem + piece;
      var c := ReadMark(COMMA, RBRACKET);
      if c.None? {
        element := Refused;
        return;
      }
      more := c.value == COMMA;
    }

    /** The element loop on a new list. */
    method ReadElements(list: GrowList.List<Node>) returns (r: Reading, ghost v: Json, ghost mem: set<object>)
      requires Within() && ListHolds(list, [], {})
      modifies this, list, list.data
      ensures Within() && old(cursor) <= cursor && (old(Short()) ==> Short()) && fresh(mem - {list, old(list.data)})
      ensures Agrees(r, v, mem, ParseElems(old(Rest()), []), Rest(), Short())
      decreases |text| - cursor, 4
    {
      hide ParseElems, ListHolds, Denotes, Lacks;
      ghost var spec, es: seq<Json>, ws: seq<Json> := ParseElems(Rest(), []), [], [];
      v, mem := Null, {};
      while true
        invariant Within() && old(cursor) <= cursor && (old(Short()) ==> Short()) && (!Short() ==> es == ws)
        invariant (list.data == old(list.data) || fresh(list.data)) && fresh(mem) && ListHolds(list, es, mem)
        invariant spec == ParseElems(Rest(), ws)
        decreases |text| - cursor
      {
        var element, more;
        element, more, es, ws, mem := ReadElement(list, es, ws, mem);
        if !element.Read? {
          return element, Null, {};
        }
        if !more {
          ArrayDenotes(list, es, mem);
          return Read(ArrayNode(list)), Arr(es), mem + {list, list.data};
        }
      }
    }

    method ReadArray() returns (r: Reading, ghost v: Json, ghost mem: set<object>)
      requires cursor < |text| && text[cursor] == LBRACKET
      modifies this
      ensures Within() && old(cursor) <= cursor && (old(Short()) ==> Short()) && fresh(mem)
      ensures Agrees(r, v, mem, ParseAt(old(Rest())), Rest(), Short())
      decreases |text| - cursor, 1
    {
      hide ParseValue, ParseElems, ParseMembers, ParseNumber, ParseString, ParseLiteral, SkipWs;
      hide ListHolds, Denotes, Lacks;
      var list := MakeList();
      if list == null {
        return Refused, Null, {};
      }
      Advance(1);
      SkipWhitespace();
      if cursor < |text| && text[cursor] == RBRACKET {
        Advance(1);
        ArrayDenotes(list, [], {});
        return Read(ArrayNode(list)), Arr([]), {} + {list, list.data};
      }
      r, v, mem := ReadElements(list);
    }

    /** A key and the colon after it. */
    method ReadKey() returns (key: Option<bytes>)
      requires Within()
      modifies this
      ensures Within() && old(cursor) <= cursor && (old(Short()) ==> Short())
      ensures key.None? ==> Short() || ParseKey(old(Rest())) == None
      ensures key.Some? ==> old(cursor) < cursor && ParseKey(old(Rest())).Some?
      ensures key.Some? ==> var (k, u) := ParseKey(old(Rest())).value; u == Rest() && (!Short() ==> k == key.value)
    {
      hide ParseString, SkipWs, Lacks;
      SkipWhitespace();
      key := ReadString();
      if key.None? {
        return;
      }
      SkipWhitespace();
      if cursor >= |text| || text[cursor] != COLON {
        assert cursor < |text| ==> Rest()[0] == text[cursor];
        return None;
      }
      assert Rest()[0] == COLON;
      Advance(1);
    }

    /** A key, the colon and a value. */
    method ReadPair() returns (key: bytes, value: Reading, ghost v: Json, ghost mem: set<object>)
      requires Within()
      modifies this
      ensures Within() && old(cursor) <= cursor && (value.Read? ==> old(cursor) < cursor) && fresh(mem)
      ensures old(Short()) ==> Short()
      ensures match ParseKey(old(Rest()))
              case None => value == Refused
              case Some((k, u)) =>
                Agrees(value, v, mem, ParseValue(u), Rest(), Short()) && (value.Read? && !Short() ==> key == k)
      decreases |text| - cursor, 0
    {
      hide ParseValue, ParseKey, Denotes, Lacks;
      var k := ReadKey();
      if k.None? {
        return [], Refused, Null, {};
      }
      value, v, mem := ReadValue();
      key := k.value;
    }

    /** The memory that setting a member may need, and the room for it in the list of keys. */
    method AskForField() returns (mem: Allocations, room: bool)
      modifies this`asked
      ensures (old(Short()) ==> Short()) && (!Short() ==> mem == PLENTY && room)
    {
      var table := Ask();
      var entry := Ask();
      var key := Ask();
      var value := Ask();
      room := Ask();
      mem := Allocations(table, entry, key, value);
    }

    /**
     One member, which is set in the object, and what follows it: a comma says that there
     are more. The reader as a function has `ws` where the object has nodes for `ms`.
     */
    method ReadMember(obj: ObjectStore<Node>, ghost ms: seq<Member<Json>>, ghost ws: seq<Member<Json>>,
                      ghost mem: set<object>)
      returns (value: Reading, more: bool, ghost ms': seq<Member<Json>>, ghost ws': seq<Member<Json>>,
               ghost mem': set<object>)
      requires Within() && this !in obj.Repr && this !in mem && StoreHolds(obj, ms, mem) && (!Short() ==> ms == ws)
      modifies this, obj.Repr
      ensures Within() && old(cursor) <= cursor && (value.Read? ==> old(cursor) < cursor) && fresh(mem' - mem)
      ensures (old(Short()) ==> Short()) && (!Short() ==> ms' == ws')
      ensures value.Read? ==> StoreHolds(obj, ms', mem') && fresh(obj.Repr - old(obj.Repr))
      ensures match value
              case Refused => Short() || ParseMembers(old(Rest()), ws) == Fail
              case Read(_) =>
                ParseMembers(old(Rest()), ws) == if more then ParseMembers(Rest(), ws') else Ok(Obj(ws'), Rest())
      decreases |text| - cursor, 1
    {
      hide ParseValue, ParseKey, SetMember, SkipWs, StoreHolds, Denotes, Lacks;
      ghost var s, v, piece := Rest(), Null, {};
      var key;
      more, ms', ws', mem' := false, ms, ws, mem;
      key, value, v, piece := ReadPair();
      if !value.Read? {
        return;
      }
      ghost var k, w := ParseKey(s).value.0, ParseValue(ParseKey(s).value.1).value;
      var allocations, room := AskForField();
      var ok := SetField(obj, key, value.node, allocations, room, ms, v, mem, piece);
      if !ok {
        value := Refused;
        return;
      }
      ms', ws', mem' := SetMember(ms, key, v), SetMember(ws, k, w), mem + piece;
      var c := ReadMark(COMMA, RBRACE);
      if c.None? {
        value := Refused;
        return;
      }
      more := c.value == COMMA;
    }

    /** The member loop on a new object. */
    method ReadMembers(obj: ObjectStore<Node>) returns (r: Reading, ghost v: Json, ghost mem: set<object>)
      requires Within() && this !in obj.Repr && StoreHolds(obj, [], {})
      modifies this, obj.Repr
      ensures Within() && old(cursor) <= cursor && (old(Short()) ==> Short()) && fresh(mem - old(obj.Repr))
      ensures Agrees(r, v, mem, ParseMembers(old(Rest()), []), Rest(), Short())
      decreases |text| - cursor, 2
    {
      hide ParseMembers, StoreHolds, Denotes, Lacks;
      ghost var spec, ms: seq<Member<Json>>, ws: seq<Member<Json>> := ParseMembers(Rest(), []), [], [];
      v, mem := Null, {};
      while true
        invariant Within() && old(cursor) <= cursor && (old(Short()) ==> Short()) && (!Short() ==> ms == ws)
        invariant this !in obj.Repr && fresh(obj.Repr - old(obj.Repr)) && fresh(mem) && StoreHolds(obj, ms, mem)
        invariant spec == ParseMembers(Rest(), ws)
        decreases |text| - cursor
      {
        var value, more;
        value, more, ms, ws, mem := ReadMember(obj, ms, ws, mem);
        if !value.Read? {
          return value, Null, {};
        }
        if !more {
          ObjectDenotes(obj, ms, mem);
          return Read(ObjectNode(obj)), Obj(ms), mem + obj.Repr;
        }
      }
    }

    method ReadObject() returns (r: Reading, ghost v: Json, ghost mem: set<object>)
      requires cursor < |text| && text[cursor] == LBRACE
      modifies this
      ensures Within() && old(cursor) <= cursor && (old(Short()) ==> Short()) && fresh(mem)
      ensures Agrees(r, v, mem, ParseAt(old(Rest())), Rest(), Short())
      decreases |text| - cursor, 1
    {
      hide ParseValue, ParseElems, ParseMembers, ParseNumber, ParseString, ParseLiteral, SkipWs;
      hide StoreHolds, Denotes, Lacks;
      var obj := MakeStore();
      if obj == null {
        return Refused, Null, {};
      }
      Advance(1);
      SkipWhitespace();
      if cursor < |text| && text[cursor] == RBRACE {
        Advance(1);
        ObjectDenotes(obj, [], {});
        return Read(ObjectNode(obj)), Obj([]), {} + obj.Repr;
      }
      r, v, mem := ReadMembers(obj);
    }
  }

  /** Reads the C string at the head of a buffer. */
  method ParseBuffer(buffer: bytes, hash: bytes -> nat, supply: Supply)
    returns (r: Reading, ghost v: Json, ghost mem: set<object>, ghost asked: nat)
    ensures Agrees(r, v, mem, ParseText(UpToNul(buffer)), [], Lacks(supply, asked)) && fresh(mem)
    ensures (forall k :: supply(k)) ==> Agrees(r, v, mem, ParseText(UpToNul(buffer)), [], false)
  {
    hide SkipWs, ParseValue, Denotes, Lacks;
    var p := new Parser(UpToNul(buffer), hash, supply);
    assert p.Rest() == p.text;
    r, v, mem := p.ReadValue();
    asked := p.asked;
    LacksSome(supply, asked);
    if r.Read? {
      p.SkipWhitespace();
      if p.cursor != |p.text| {
        r := Refused;
      }
    }
  }
}
