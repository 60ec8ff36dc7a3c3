/** JSON values, and the text that the printer writes for them. */
module Json {
  import opened Bytes
  import opened Binary64
  import opened NumberFormat

  // ---- values ----

  datatype Json =
    | Null
    | Bool(b: bool)
    | Num(x: Number)
    | Str(s: bytes)
    | Arr(elems: seq<Json>)
    | Obj(members: seq<Member<Json>>)

  datatype Member<V> = Member(key: bytes, value: V)

  ghost predicate DistinctKeys<V>(ms: seq<Member<V>>) {
    forall i, j :: 0 <= i < j < |ms| ==> ms[i].key != ms[j].key
  }

  /** The trees that the library's constructors build. */
  ghost predicate WellFormed(v: Json) {
    match v
    case Null => true
    case Bool(_) => true
    case Num(_) => true
    case Str(s) => NulFree(s)
    case Arr(es) => forall i :: 0 <= i < |es| ==> WellFormed(es[i])
    case Obj(ms) => DistinctKeys(ms) && forall i :: 0 <= i < |ms| ==> NulFree(ms[i].key) && WellFormed(ms[i].value)
  }

  // ---- object members ----

  /** The position of a key, or the number of members. */
  function Find<V>(ms: seq<Member<V>>, key: bytes): (i: nat)
    ensures i <= |ms|
    ensures i < |ms| ==> ms[i].key == key
    ensures forall j :: 0 <= j < i ==> ms[j].key != key
  {
    if ms == [] || ms[0].key == key then 0 else 1 + Find(ms[1..], key)
  }

  /** Setting a key replaces its value where it stands, or appends a member. */
  function SetMember<V>(ms: seq<Member<V>>, key: bytes, value: V): (r: seq<Member<V>>)
    ensures DistinctKeys(ms) ==> DistinctKeys(r)
    ensures |r| == |ms| || |r| == |ms| + 1
  {
    var i := Find(ms, key);
    if i < |ms| then ms[i := Member(key, value)] else ms + [Member(key, value)]
  }

  /** Members set one after another. */
  function SetMembers<V>(acc: seq<Member<V>>, ps: seq<Member<V>>): seq<Member<V>>
    decreases |ps|
  {
    if ps == [] then acc else SetMembers(SetMember(acc, ps[0].key, ps[0].value), ps[1..])
  }

  // ---- printing ----

  const QUOTE: byte := 0x22
  const BACKSLASH: byte := 0x5C
  const COMMA: byte := 0x2C
  const COLON: byte := 0x3A
  const LBRACKET: byte := 0x5B
  const RBRACKET: byte := 0x5D
  const LBRACE: byte := 0x7B
  const RBRACE: byte := 0x7D

  const NULL_TEXT: bytes := [0x6E, 0x75, 0x6C, 0x6C]
  const TRUE_TEXT: bytes := [0x74, 0x72, 0x75, 0x65]
  const FALSE_TEXT: bytes := [0x66, 0x61, 0x6C, 0x73, 0x65]

  /** A lower-case hexadecimal digit. */
  function HexByte(x: byte): byte {
    if x < 10 then 0x30 + x else 0x61 + (x - 10)
  }

  /** One byte of a string, escaped. */
  function EscapeByte(c: byte): bytes {
    if c == QUOTE then [BACKSLASH, QUOTE]
    else if c == BACKSLASH then [BACKSLASH, BACKSLASH]
    else if c == 0x0A then [BACKSLASH, 0x6E]
    else if c == 0x0D then [BACKSLASH, 0x72]
    else if c == 0x09 then [BACKSLASH, 0x74]
    else if c < 0x20 then [BACKSLASH, 0x75, 0x30, 0x30, HexByte(c >> 4), HexByte(c & 0xF)]
    else [c]
  }

  function EscapeBytes(s: bytes): bytes {
    if s == [] then [] else EscapeByte(s[0]) + EscapeBytes(s[1..])
  }

  function StringText(s: bytes): bytes {
    [QUOTE] + EscapeBytes(s) + [QUOTE]
  }

  function Print(v: Json): bytes
    decreases v, 1
  {
    match v
    case Null => NULL_TEXT
    case Bool(b) => if b then TRUE_TEXT else FALSE_TEXT
    case Num(x) => NumberText(x)
    case Str(s) => StringText(s)
    case Arr(es) => [LBRACKET] + PrintElems(es) + [RBRACKET]
    case Obj(ms) => [LBRACE] + PrintMembers(ms) + [RBRACE]
  }

  function PrintElems(es: seq<Json>): bytes
    decreases es, 0
  {
    if es == [] then []
    else Print(es[0]) + if |es| == 1 then [] else [COMMA] + PrintElems(es[1..])
  }

  function PrintMembers(ms: seq<Member<Json>>): bytes
    decreases ms, 0
  {
    if ms == [] then []
    else StringText(ms[0].key) + [COLON] + Print(ms[0].value)
         + if |ms| == 1 then [] else [COMMA] + PrintMembers(ms[1..])
  }
}
