/**
 HTTP/1.1 messages byte by byte: what is sent for a message, and what is read of a head,
 without the names that the writer and the reader use for words.
 */
module HttpWire {
  import opened Bytes
  import opened Decimal
  import opened Numerals
  import opened HttpText
  import opened HttpHead
  import opened HttpMessage
  import opened HttpRequest
  import opened HttpResponse

  // ---- words ----

  function Word(m: Method): bytes {
    match m
    case GET => [0x47, 0x45, 0x54]
    case POST => [0x50, 0x4F, 0x53, 0x54]
    case PUT => [0x50, 0x55, 0x54]
    case DELETE => [0x44, 0x45, 0x4C, 0x45, 0x54, 0x45]
    case HEAD => [0x48, 0x45, 0x41, 0x44]
    case OPTIONS => [0x4F, 0x50, 0x54, 0x49, 0x4F, 0x4E, 0x53]
  }

  /** The phrase of a status, `Unknown` if it has none. */
  function Phrase(status: int): bytes {
    match status
    case 200 => [0x4F, 0x4B]
    case 201 => [0x43, 0x72, 0x65, 0x61, 0x74, 0x65, 0x64]
    case 204 => [0x4E, 0x6F, 0x20, 0x43, 0x6F, 0x6E, 0x74, 0x65, 0x6E, 0x74]
    case 301 => [0x4D, 0x6F, 0x76, 0x65, 0x64, 0x20, 0x50, 0x65, 0x72, 0x6D, 0x61, 0x6E, 0x65, 0x6E, 0x74, 0x6C, 0x79]
    case 302 => [0x46, 0x6F, 0x75, 0x6E, 0x64]
    case 400 => [0x42, 0x61, 0x64, 0x20, 0x52, 0x65, 0x71, 0x75, 0x65, 0x73, 0x74]
    case 401 => [0x55, 0x6E, 0x61, 0x75, 0x74, 0x68, 0x6F, 0x72, 0x69, 0x7A, 0x65, 0x64]
    case 403 => [0x46, 0x6F, 0x72, 0x62, 0x69, 0x64, 0x64, 0x65, 0x6E]
    case 404 => [0x4E, 0x6F, 0x74, 0x20, 0x46, 0x6F, 0x75, 0x6E, 0x64]
    case 405 =>
      [0x4D, 0x65, 0x74, 0x68, 0x6F, 0x64, 0x20, 0x4E, 0x6F, 0x74, 0x20, 0x41, 0x6C, 0x6C, 0x6F, 0x77, 0x65, 0x64]
    case 500 =>
      [0x49, 0x6E, 0x74, 0x65, 0x72, 0x6E, 0x61, 0x6C, 0x20, 0x53, 0x65, 0x72, 0x76, 0x65, 0x72, 0x20,
       0x45, 0x72, 0x72, 0x6F, 0x72]
    case 501 => [0x4E, 0x6F, 0x74, 0x20, 0x49, 0x6D, 0x70, 0x6C, 0x65, 0x6D, 0x65, 0x6E, 0x74, 0x65, 0x64]
    case 503 =>
      [0x53, 0x65, 0x72, 0x76, 0x69, 0x63, 0x65, 0x20, 0x55, 0x6E, 0x61, 0x76, 0x61, 0x69, 0x6C, 0x61, 0x62, 0x6C, 0x65]
    case _ => [0x55, 0x6E, 0x6B, 0x6E, 0x6F, 0x77, 0x6E]
  }

  lemma MethodWord(m: Method)
    ensures MethodName(m) == Word(m)
  {
  }

  lemma ReasonPhrase(status: int)
    ensures Reason(status) == Phrase(status)
  {
  }

  // ---- what is sent ----

  /** A line of at most 255 bytes, its end included; of a longer one, the first 255. */
  function Cut(line: bytes): bytes {
    if |line| <= 255 then line else line[..255]
  }

  function HeaderBytes(hs: seq<Header>): bytes {
    if hs == [] then []
    else hs[0].name + [0x3A, 0x20] + hs[0].value + [0x0D, 0x0A] + HeaderBytes(hs[1..])
  }

  /** `Content-Length: `, a size, and `Connection: close`, each with its line end, and an empty line. */
  function ClosingBytes(size: bytes): bytes {
    [0x43, 0x6F, 0x6E, 0x74, 0x65, 0x6E, 0x74, 0x2D, 0x4C, 0x65, 0x6E, 0x67, 0x74, 0x68, 0x3A, 0x20]
    + size + [0x0D, 0x0A]
    + [0x43, 0x6F, 0x6E, 0x6E, 0x65, 0x63, 0x74, 0x69, 0x6F, 0x6E, 0x3A, 0x20, 0x63, 0x6C, 0x6F, 0x73, 0x65, 0x0D, 0x0A]
    + [0x0D, 0x0A]
  }

  lemma ClipIsCut(s: bytes)
    ensures Clip(s) == Cut(s)
  {
  }

  lemma {:induction false} HeaderLinesBytes(hs: seq<Header>)
    ensures WriteLines(HeaderLines(hs)) == HeaderBytes(hs)
  {
    hide HeaderLine;
    if hs == [] {
    } else {
      var lines := HeaderLines(hs);
      HeaderLinesBytes(hs[1..]);
      assert lines[1..] == HeaderLines(hs[1..]);
      assert lines[0] == hs[0].name + [0x3A, 0x20] + hs[0].value by { LineBytes(hs[0]); }
    }
  }

  lemma LineBytes(h: Header)
    ensures HeaderLine(h) == h.name + [0x3A, 0x20] + h.value
  {
  }

  lemma ClosingIsBytes(n: nat)
    requires n < 0x1_0000_0000_0000_0000
    ensures Closing(n) == ClosingBytes(DigitsText(n))
  {
    hide DigitsText;
    ClosingFits(n);
    var hs := ClosingHeaders(n);
    HeaderLinesBytes(hs);
    var two := hs[1..];
    assert two[1..] == [] && HeaderBytes(two[1..]) == [];
    var l, s, c := CONTENT_LENGTH, DigitsText(n), CONNECTION;
    assert HeaderBytes(two) == c + [0x3A, 0x20] + CLOSE + [0x0D, 0x0A] + [];
    assert HeaderBytes(hs) == l + [0x3A, 0x20] + s + [0x0D, 0x0A] + HeaderBytes(two);
  }

  /**
   A request on the wire: a word, a space, the path, ` HTTP/1.1`, CRLF, `Host: ` and the host,
   CRLF, the caller's headers, the size of the body, and the body; the first two lines cut off
   if they are too long.
   */
  lemma RequestOnTheWire(m: Method, path: bytes, host: bytes, hs: seq<Header>, body: bytes) returns (size: bytes)
    requires |body| < 0x1_0000_0000_0000_0000
    ensures IsDecimal(size, |body|)
    ensures RequestText(m, path, host, hs, body)
         == Cut(Word(m) + [0x20] + path + [0x20, 0x48, 0x54, 0x54, 0x50, 0x2F, 0x31, 0x2E, 0x31, 0x0D, 0x0A])
            + Cut([0x48, 0x6F, 0x73, 0x74, 0x3A, 0x20] + host + [0x0D, 0x0A])
            + HeaderBytes(hs) + ClosingBytes(size) + body
  {
    hide DigitsText, WriteLines, HeaderLines, Closing, ClosingBytes, MethodName, Word, Clip, IsDecimal;
    size := DigitsText(|body|);
    DigitsAreDecimal(|body|);
    MethodWord(m);
    ClosingIsBytes(|body|);
    HeaderLinesBytes(hs);
    var first := Word(m) + [0x20] + path + [0x20, 0x48, 0x54, 0x54, 0x50, 0x2F, 0x31, 0x2E, 0x31, 0x0D, 0x0A];
    var second := [0x48, 0x6F, 0x73, 0x74, 0x3A, 0x20] + host + [0x0D, 0x0A];
    assert RequestLine(m, path) + CRLF == first;
    assert HeaderLine(HostHeader(host)) + CRLF == second;
    ClipIsCut(first);
    ClipIsCut(second);
  }

  /** A status in decimal, with a minus sign if it is negative. */
  ghost predicate IsStatusText(t: bytes, status: int) {
    if status < 0 then t != [] && t[0] == 0x2D && IsDecimal(t[1..], -status) else IsDecimal(t, status)
  }

  lemma StatusIsText(status: int)
    ensures IsStatusText(IntText(status), status)
  {
    hide DigitsText, IsDecimal;
    if status < 0 {
      DigitsAreDecimal(-status);
      assert IntText(status)[1..] == DigitsText(-status);
    } else {
      DigitsAreDecimal(status);
    }
  }

  /** A response on the wire: `HTTP/1.1 `, the status, a space, its phrase, CRLF, and so on as in a request. */
  lemma ResponseOnTheWire(status: int, hs: seq<Header>, body: bytes) returns (code: bytes, size: bytes)
    requires IsStatus(status) && |body| < 0x1_0000_0000_0000_0000
    ensures IsStatusText(code, status) && IsDecimal(size, |body|)
    ensures ResponseText(status, hs, body)
         == [0x48, 0x54, 0x54, 0x50, 0x2F, 0x31, 0x2E, 0x31, 0x20] + code + [0x20] + Phrase(status) + [0x0D, 0x0A]
            + HeaderBytes(hs) + ClosingBytes(size) + body
  {
    hide IntText, DigitsText, WriteLines, HeaderLines, Closing, ClosingBytes, Reason, Phrase, IsDecimal, IsStatusText;
    code, size := IntText(status), DigitsText(|body|);
    StatusIsText(status);
    DigitsAreDecimal(|body|);
    ReasonPhrase(status);
    StatusLineFits(status);
    ClosingIsBytes(|body|);
    HeaderLinesBytes(hs);
  }

  // ---- what is read ----

  /** The method that a word is. */
  function MethodOf(w: bytes): Option<Method> {
    if w == [0x47, 0x45, 0x54] then Some(GET)
    else if w == [0x50, 0x4F, 0x53, 0x54] then Some(POST)
    else if w == [0x50, 0x55, 0x54] then Some(PUT)
    else if w == [0x44, 0x45, 0x4C, 0x45, 0x54, 0x45] then Some(DELETE)
    else if w == [0x48, 0x45, 0x41, 0x44] then Some(HEAD)
    else if w == [0x4F, 0x50, 0x54, 0x49, 0x4F, 0x4E, 0x53] then Some(OPTIONS)
    else None
  }

  lemma WordIsMethod(w: bytes)
    ensures ParseMethod(w) == MethodOf(w)
  {
  }

  /** What stands in front of the first space, all of it if there is none. */
  ghost predicate IsFront(t: bytes, s: bytes) {
    t <= s && 0x20 !in t && (|t| < |s| ==> s[|t|] == 0x20)
  }

  lemma FrontFound(t: bytes, s: bytes)
    requires IsFront(t, s)
    ensures s[..FindByte(s, SPACE)] == t
  {
    var k := FindByte(s, SPACE);
    assert forall i :: 0 <= i < |t| ==> s[i] == t[i] && t[i] in t;
  }

  /** A request line: a method if the word in front of the first space is one, and then the path. */
  lemma RequestLineExact(w: bytes, rest: bytes, path: bytes)
    requires 0x20 !in w && IsFront(path, rest)
    ensures ReadRequestStart(w + [0x20] + rest)
         == match MethodOf(w)
            case None => None
            case Some(m) => Some(RequestStart(m, path))
  {
    hide FindByte, ParseMethod, MethodOf;
    WordIsMethod(w);
    FindByteIn(w, SPACE, rest);
    FrontFound(path, rest);
    var line := w + [0x20] + rest;
    assert line[..|w|] == w && line[|w| + 1..] == rest;
  }

  /** A blank as the C library sees it. */
  predicate IsBlankByte(c: byte) {
    c == 0x20 || c == 0x09 || c == 0x0A || c == 0x0B || c == 0x0C || c == 0x0D
  }

  ghost predicate AreBlanks(b: bytes) {
    forall i :: 0 <= i < |b| ==> IsBlankByte(b[i])
  }

  lemma {:induction false} BlanksSkipped(b: bytes, s: bytes)
    requires AreBlanks(b) && (s == [] || !IsBlankByte(s[0]))
    ensures SkipBlanks(b + s) == s
  {
    if b == [] {
      assert b + s == s;
    } else {
      BlanksSkipped(b[1..], s);
      assert (b + s)[1..] == b[1..] + s;
    }
  }

  lemma DigitsRead(ds: bytes, rest: bytes)
    requires AllDigitsOf(10, ds) && (rest == [] || !(0x30 <= rest[0] <= 0x39))
    ensures var t := ds + rest; DigitsValue(t[..DigitRun(t)]) == Worth(10, ds)
  {
    hide Worth, DigitsValue, DigitRun;
    WorthAgrees(ds);
    DigitRunOver(ds, rest);
    assert (ds + rest)[..|ds|] == ds;
  }

  /** What is behind the blanks, taken apart: a sign or none, digits or none, and something else. */
  ghost predicate IsNumberText(sign: bytes, ds: bytes, rest: bytes) {
    && (sign == [] || sign == [0x2B] || sign == [0x2D]) && AllDigitsOf(10, ds)
    && (rest == [] || !(0x30 <= rest[0] <= 0x39))
    && (sign == [] && ds == [] && rest != [] ==> !IsBlankByte(rest[0]) && rest[0] != 0x2B && rest[0] != 0x2D)
  }

  /** A number is read of its digits; of none, zero. */
  lemma NumberReads(b: bytes, sign: bytes, ds: bytes, rest: bytes)
    requires AreBlanks(b) && IsNumberText(sign, ds, rest)
    ensures Atol(b + (sign + (ds + rest))) == if sign == [0x2D] then -(Worth(10, ds) as int) else Worth(10, ds)
  {
    var t, s := ds + rest, sign + (ds + rest);
    DigitsRead(ds, rest);
    NumberStarts(sign, ds, rest);
    hide Worth, DigitsValue, SkipBlanks, DigitRun, AllDigitsOf, IsBlankByte;
    BlanksSkipped(b, s);
    assert sign == [] ==> s == t;
    assert sign != [] ==> s[0] == sign[0] && s[1..] == t;
  }

  lemma NumberStarts(sign: bytes, ds: bytes, rest: bytes)
    requires IsNumberText(sign, ds, rest)
    ensures var s := sign + (ds + rest);
            s == [] || (!IsBlankByte(s[0]) && (sign == [] ==> s[0] != 0x2B && s[0] != 0x2D))
  {
    assert ds != [] ==> IsDigitOf(10, ds[0]);
  }

  /** A status line: a word, and behind the space a number, which has to be positive. */
  lemma StatusLineExact(w: bytes, rest: bytes, code: bytes, b: bytes, sign: bytes, ds: bytes, tail: bytes)
    requires 0x20 !in w && IsFront(code, rest)
    requires code == b + (sign + (ds + tail)) && AreBlanks(b) && IsNumberText(sign, ds, tail)
    ensures ReadResponseStart(w + [0x20] + rest)
         == if sign != [0x2D] && Worth(10, ds) > 0 then Some(ResponseStart(Worth(10, ds))) else None
  {
    hide FindByte, Atol, Worth, AreBlanks, IsNumberText;
    var line := w + [0x20] + rest;
    FindByteIn(w, SPACE, rest);
    assert line[|w| + 1..] == rest;
    FrontFound(code, rest);
    NumberReads(b, sign, ds, tail);
  }

  /** Without a space a line is neither. */
  lemma SpacelessRefused(line: bytes)
    requires 0x20 !in line
    ensures ReadRequestStart(line).None? && ReadResponseStart(line).None?
  {
    hide Atol, ParseMethod;
  }

  /** A header line: a name up to the first colon, and the value behind that and any spaces; else none. */
  lemma HeaderLineExact(name: bytes, spaces: bytes, value: bytes)
    requires 0x3A !in name
    requires AreSpaces(spaces) && (value == [] || value[0] != 0x20)
    ensures HeaderOfLine(name + [0x3A] + (spaces + value)) == Some(Header(name, value))
    ensures HeaderOfLine(name) == None
  {
    hide FindByte;
    FindByteIn(name, COLON, spaces + value);
    SpacesSkipped(spaces, value);
    var line := name + [0x3A] + (spaces + value);
    assert line[..|name|] == name && line[|name| + 1..] == spaces + value;
  }

  ghost predicate AreSpaces(s: bytes) {
    forall i :: 0 <= i < |s| ==> s[i] == 0x20
  }

  lemma {:induction false} OnlySpacesSkipped(s: bytes)
    ensures forall i :: 0 <= i < |s| - |SkipSpaces(s)| ==> s[i] == 0x20
  {
    if s != [] && s[0] == 0x20 {
      OnlySpacesSkipped(s[1..]);
      forall i | 0 <= i < |s| - |SkipSpaces(s)|
        ensures s[i] == 0x20
      {
        assert i > 0 ==> s[i] == s[1..][i - 1];
      }
    }
  }

  lemma SpacesSkipped(spaces: bytes, value: bytes)
    requires AreSpaces(spaces) && (value == [] || value[0] != 0x20)
    ensures SkipSpaces(spaces + value) == value
  {
    var s := spaces + value;
    OnlySpacesSkipped(s);
    hide SkipSpaces;
    var k := |s| - |SkipSpaces(s)|;
    assert s[k..] == SkipSpaces(s) && s[|spaces|..] == value;
    assert forall i :: 0 <= i < |spaces| ==> s[i] == 0x20;
    assert k < |s| ==> s[k] != 0x20;
    assert value != [] ==> s[|spaces|] != 0x20;
  }

  // ---- whole heads ----

  /** A line that stays one: no CR and LF within, no NUL, and neither CR nor LF in front. */
  ghost predicate IsLine(s: bytes) {
    && s != [] && s[0] != 0x0D && s[0] != 0x0A && 0 !in s
    && forall i :: 0 <= i < |s| - 1 ==> s[i] != 0x0D || s[i + 1] != 0x0A
  }

  lemma LineIsPlain(s: bytes)
    ensures IsLine(s) <==> Plain(s)
  {
    if IsLine(s) {
      forall i: nat
        ensures !CrlfAt(s, i)
      {
        assert i + 1 < |s| ==> s[i] != 0x0D || s[i + 1] != 0x0A;
      }
    }
    if Plain(s) {
      forall i | 0 <= i < |s| - 1
        ensures s[i] != 0x0D || s[i + 1] != 0x0A
      {
        assert !CrlfAt(s, i);
      }
    }
  }

  /** A header whose name ends at its first colon, and whose value has no space in front. */
  ghost predicate IsHeader(h: Header) {
    0x3A !in h.name && (h.value == [] || h.value[0] != 0x20) && IsLine(h.name + [0x3A, 0x20] + h.value)
  }

  /** The first line of a head, and its headers, each with CRLF in front. */
  function HeadBytes(first: bytes, hs: seq<Header>): bytes
    decreases |hs|
  {
    if hs == [] then first
    else first + [0x0D, 0x0A] + HeadBytes(hs[0].name + [0x3A, 0x20] + hs[0].value, hs[1..])
  }

  lemma {:induction false} HeadIsBlock(first: bytes, hs: seq<Header>)
    ensures Block(HeadLines(first, hs)) == HeadBytes(first, hs)
    decreases |hs|
  {
    hide HeaderLine;
    var lines := HeadLines(first, hs);
    if hs == [] {
      assert lines == [first];
    } else {
      LineBytes(hs[0]);
      HeadIsBlock(HeaderLine(hs[0]), hs[1..]);
      assert lines[1..] == HeadLines(HeaderLine(hs[0]), hs[1..]);
    }
  }

  /**
   What is read of a head: nothing if its first line cannot be read, or if a length of -2 is
   read; else that line, the headers set one after another, and the last length.
   */
  lemma HeadExact(start: bytes -> Option<Start>, first: bytes, hs: seq<Header>)
    requires IsLine(first) && forall h :: h in hs ==> IsHeader(h)
    ensures ReadHead(start, HeadBytes(first, hs))
         == match start(first)
            case None => None
            case Some(x) =>
              var length := LengthAfter(-1, hs);
              if length == -2 then None else Some(Head(Some(x), SetHeaders([], hs), length))
  {
    hide Block, LengthAfter, SetHeaders, ReadHead, Reread, HeaderLine, IsLine, Plain;
    HeadIsBlock(first, hs);
    LineIsPlain(first);
    forall h | h in hs
      ensures PlainHeader(h) && Reread(h) == h
    {
      LineBytes(h);
      LineIsPlain(h.name + [0x3A, 0x20] + h.value);
      RereadExact(h);
    }
    assert RereadAll(hs) == hs;
    HeadReads(start, first, hs);
  }

  /** `content-length` in any mixture of cases. */
  ghost predicate IsLengthName(name: bytes) {
    SameButForCase(name, [0x63, 0x6F, 0x6E, 0x74, 0x65, 0x6E, 0x74, 0x2D, 0x6C, 0x65, 0x6E, 0x67, 0x74, 0x68])
  }

  lemma LowerLength()
    ensures CiEqual(CONTENT_LENGTH,
                    [0x63, 0x6F, 0x6E, 0x74, 0x65, 0x6E, 0x74, 0x2D, 0x6C, 0x65, 0x6E, 0x67, 0x74, 0x68])
  {
    var lower: bytes := [0x63, 0x6F, 0x6E, 0x74, 0x65, 0x6E, 0x74, 0x2D, 0x6C, 0x65, 0x6E, 0x67, 0x74, 0x68];
    assert Lower(0x43) == Lower(0x63) && Lower(0x4C) == Lower(0x6C);
    hide Lower;
    assert CONTENT_LENGTH == lower[0 := 0x43][8 := 0x4C];
  }

  lemma LengthNameExact(name: bytes)
    ensures IsLengthName(name) <==> CiEqual(name, CONTENT_LENGTH)
  {
    var lower: bytes := [0x63, 0x6F, 0x6E, 0x74, 0x65, 0x6E, 0x74, 0x2D, 0x6C, 0x65, 0x6E, 0x67, 0x74, 0x68];
    LowerLength();
    CiExact(name, lower);
    hide Lower, SameButForCase;
  }

  /** The length read of headers is the number of the last one of that name, in any case, and -1 without one. */
  lemma {:induction false} LastLengthReads(length: int, hs: seq<Header>, h: Header, more: seq<Header>)
    requires IsLengthName(h.name) && h.value != [] && AllDigitsOf(10, h.value)
    requires forall i :: 0 <= i < |more| ==> !IsLengthName(more[i].name)
    ensures LengthAfter(length, hs + [h] + more) == Worth(10, h.value)
  {
    hide IsLengthName, Atol, Worth, AllDigitsOf, CiEqual;
    var after := LengthAfter(length, hs);
    LengthAfterConcat(length, hs + [h], more);
    LengthAfterConcat(length, hs, [h]);
    LengthNameExact(h.name);
    NumberReads([], [], h.value, []);
    assert [] + ([] + (h.value + [])) == h.value && [h][1..] == [];
    assert LengthAfter(after, [h]) == Atol(h.value);
    forall i | 0 <= i < |more|
      ensures !CiEqual(more[i].name, CONTENT_LENGTH)
    {
      LengthNameExact(more[i].name);
    }
    LengthUntouched(Worth(10, h.value), more);
  }
}
