/**
 The JSON reader as a function on the text that is left: each function returns
 what it read and the rest of the text.
 */
module JsonParse {
  import opened Bytes
  import opened Strtod
  import opened Json
  import opened JsonString

  datatype Parsed<+T> = Ok(value: T, rest: bytes) | Fail

  // ---- tokens ----

  predicate IsWs(c: byte) {
    c == 0x20 || c == 0x09 || c == 0x0A || c == 0x0D
  }

  function SkipWs(s: bytes): (r: bytes)
    ensures |r| <= |s|
    ensures r != [] ==> !IsWs(r[0])
  {
    if s != [] && IsWs(s[0]) then SkipWs(s[1..]) else s
  }

  function ParseLiteral(s: bytes, text: bytes, v: Json): Parsed<Json> {
    if text <= s then Ok(v, s[|text|..]) else Fail
  }

  /** Reads what `strtod` takes for a number. */
  function ParseNumber(s: bytes): (r: Parsed<Json>)
    ensures r.Ok? ==> |r.rest| < |s|
  {
    var n := NumberLength(s);
    if n == 0 then Fail else Ok(Num(NumberValue(s[..n])), s[n..])
  }

  // ---- values ----

  /** The reader takes at least a byte for each value. */
  predicate Advances<T>(r: Parsed<T>, s: bytes) {
    r.Ok? ==> |r.rest| < |s|
  }

  function ParseValue(s: bytes): (r: Parsed<Json>)
    ensures Advances(r, s)
    decreases |s|, 1
  {
    ParseAt(SkipWs(s))
  }

  /** The value at the head of `t`, once whitespace is skipped: its first byte says of which kind. */
  function ParseAt(t: bytes): (r: Parsed<Json>)
    ensures Advances(r, t)
    decreases |t|, 0
  {
    if t == [] then Fail
    else if t[0] == 0x6E then ParseLiteral(t, NULL_TEXT, Null)
    else if t[0] == 0x74 then ParseLiteral(t, TRUE_TEXT, Bool(true))
    else if t[0] == 0x66 then ParseLiteral(t, FALSE_TEXT, Bool(false))
    else if t[0] == QUOTE then
      match ParseString(t)
      case None => Fail
      case Some((b, rest)) => Ok(Str(b), rest)
    else if t[0] == LBRACKET then
      var u := SkipWs(t[1..]);
      if u != [] && u[0] == RBRACKET then Ok(Arr([]), u[1..]) else ParseElems(u, [])
    else if t[0] == LBRACE then
      var u := SkipWs(t[1..]);
      if u != [] && u[0] == RBRACE then Ok(Obj([]), u[1..]) else ParseMembers(u, [])
    else if StartsNumber(t) then ParseNumber(t)
    else Fail
  }

  /** The element loop, with the elements read so far. */
  function ParseElems(s: bytes, es: seq<Json>): (r: Parsed<Json>)
    ensures Advances(r, s)
    decreases |s|, 2
  {
    match ParseValue(s)
    case Fail => Fail
    case Ok(v, rest) =>
      var t := SkipWs(rest);
      if t == [] then Fail
      else if t[0] == COMMA then ParseElems(t[1..], es + [v])
      else if t[0] == RBRACKET then Ok(Arr(es + [v]), t[1..])
      else Fail
  }

  /** A key and the colon after it. */
  function ParseKey(s: bytes): (r: Option<(bytes, bytes)>)
    ensures r.Some? ==> |r.value.1| < |s|
  {
    match ParseString(SkipWs(s))
    case None => None
    case Some((key, rest)) =>
      var t := SkipWs(rest);
      if t == [] || t[0] != COLON then None else Some((key, t[1..]))
  }

  /** The member loop, with the members set so far. */
  function ParseMembers(s: bytes, ms: seq<Member<Json>>): (r: Parsed<Json>)
    ensures Advances(r, s)
    decreases |s|, 2
  {
    match ParseKey(s)
    case None => Fail
    case Some((key, u)) =>
      match ParseValue(u)
      case Fail => Fail
        case Ok(v, rest) =>
        var ms' := SetMember(ms, key, v);
        var t := SkipWs(rest);
        if t == [] then Fail
        else if t[0] == COMMA then ParseMembers(t[1..], ms')
        else if t[0] == RBRACE then Ok(Obj(ms'), t[1..])
        else Fail
  }

  /** A whole text: one value, and nothing but whitespace after it. */
  function ParseText(text: bytes): Parsed<Json> {
    match ParseValue(text)
    case Fail => Fail
    case Ok(v, rest) => if SkipWs(rest) == [] then Ok(v, []) else Fail
  }
}
