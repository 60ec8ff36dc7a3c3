/** Reading a message head: where it ends, its lines, and what each line says. */
module HttpHead {
  import opened Bytes
  import opened Decimal
  import opened HttpText

  // ---- finding things ----

  /** The first `c`, or the length of `s`. */
  function FindByte(s: bytes, c: byte): (k: nat)
    ensures k <= |s|
    ensures forall i :: 0 <= i < k ==> s[i] != c
    ensures k < |s| ==> s[k] == c
  {
    if s == [] || s[0] == c then 0 else 1 + FindByte(s[1..], c)
  }

  predicate CrlfAt(s: bytes, i: nat) {
    i + 2 <= |s| && s[i] == CR && s[i + 1] == LF
  }

  /** The first end of a line, or the length of `s`. */
  function FindCrlf(s: bytes): (k: nat)
    ensures k <= |s|
    ensures forall i :: 0 <= i < k ==> !CrlfAt(s, i)
    ensures k < |s| ==> CrlfAt(s, k)
  {
    if s == [] || CrlfAt(s, 0) then 0
    else
      assert forall i :: 0 < i ==> CrlfAt(s, i) == CrlfAt(s[1..], i - 1);
      1 + FindCrlf(s[1..])
  }

  predicate HeadEndAt(s: bytes, i: nat) {
    i + 4 <= |s| && s[i] == CR && s[i + 1] == LF && s[i + 2] == CR && s[i + 3] == LF
  }

  /** The first empty line, with the end of the line before it. */
  ghost predicate IsHeadEnd(s: bytes, e: nat) {
    HeadEndAt(s, e) && forall i :: 0 <= i < e ==> !HeadEndAt(s, i)
  }

  ghost predicate HasHeadEnd(s: bytes) {
    exists i :: HeadEndAt(s, i)
  }

  /** What has been found to be the first stays the first when more comes in. */
  lemma HeadEndStays(s: bytes, more: bytes, e: nat)
    requires IsHeadEnd(s, e)
    ensures IsHeadEnd(s + more, e)
  {
    forall i | 0 <= i < e
      ensures !HeadEndAt(s + more, i)
    {
      assert !HeadEndAt(s, i);
    }
  }

  lemma HeadEndUnique(s: bytes, e: nat, f: nat)
    requires IsHeadEnd(s, e) && IsHeadEnd(s, f)
    ensures e == f
  {
  }

  /** The lines of a text; the end of the text ends the last one. */
  function Lines(s: bytes): seq<bytes> {
    if s == [] then []
    else
      var k := FindCrlf(s);
      if k == |s| then [s] else [s[..k]] + Lines(s[k + 2..])
  }

  lemma LinesUnfold(s: bytes)
    requires s != []
    ensures var k := FindCrlf(s);
            if k == |s| then Lines(s) == [s]
            else k + 2 <= |s| && Lines(s) == [s[..k]] + Lines(s[k + 2..]) && Lines(s)[0] == s[..k]
  {
    hide FindCrlf;
  }

  // ---- reading lines ----

  /** What the first line of a request or of a response says. */
  datatype Start = RequestStart(verb: Method, path: bytes) | ResponseStart(status: int)

  /** What has been read of a head; `length` is the last Content-Length, and -1 before there is one. */
  datatype Head = Head(start: Option<Start>, headers: seq<Header>, length: int)

  const NO_LENGTH: int := -1

  /** The reader returns this for a bad first line, so a Content-Length of -2 reads as one. */
  const BAD_START: int := -2

  /** `Content-Length` and `Connection: close`. */
  const CONTENT_LENGTH: bytes := [0x43, 0x6F, 0x6E, 0x74, 0x65, 0x6E, 0x74, 0x2D, 0x4C, 0x65, 0x6E, 0x67, 0x74, 0x68]

  function SkipSpaces(s: bytes): (r: bytes)
    ensures |r| <= |s| && r == s[|s| - |r|..]
    ensures r != [] ==> r[0] != SPACE
  {
    if s != [] && s[0] == SPACE then SkipSpaces(s[1..]) else s
  }

  /** White space as the C library sees it. */
  predicate IsBlank(c: byte) {
    c == SPACE || 0x09 <= c <= 0x0D
  }

  function SkipBlanks(s: bytes): bytes {
    if s != [] && IsBlank(s[0]) then SkipBlanks(s[1..]) else s
  }

  const PLUS: byte := 0x2B

  /** The number that `atol` reads, on ideal integers: 0 if there is none. */
  function Atol(s: bytes): int {
    var t := SkipBlanks(s);
    if t != [] && t[0] == MINUS then Signed(true, DigitsValue(t[1..][..DigitRun(t[1..])]))
    else if t != [] && t[0] == PLUS then Signed(false, DigitsValue(t[1..][..DigitRun(t[1..])]))
    else Signed(false, DigitsValue(t[..DigitRun(t)]))
  }

  /** The method, and the path up to the next space. */
  function ReadRequestStart(line: bytes): Option<Start> {
    var sp := FindByte(line, SPACE);
    if sp == |line| then None
    else match ParseMethod(line[..sp])
      case None => None
      case Some(m) =>
        var rest := line[sp + 1..];
        Some(RequestStart(m, rest[..FindByte(rest, SPACE)]))
  }

  /** The number after the first space, which has to be positive. */
  function ReadResponseStart(line: bytes): Option<Start> {
    var sp := FindByte(line, SPACE);
    if sp == |line| then None
    else
      var rest := line[sp + 1..];
      var status := Atol(rest[..FindByte(rest, SPACE)]);
      if status > 0 then Some(ResponseStart(status)) else None
  }

  /** The header that a line says, if it has a colon. */
  function HeaderOfLine(line: bytes): Option<Header> {
    var k := FindByte(line, COLON);
    if k == |line| then None else Some(Header(line[..k], SkipSpaces(line[k + 1..])))
  }

  ghost function LengthWith(length: int, h: Header): int {
    if CiEqual(h.name, CONTENT_LENGTH) then Atol(h.value) else length
  }

  ghost function WithHeader(head: Head, h: Header): Head {
    head.(headers := SetHeader(head.headers, h.name, h.value), length := LengthWith(head.length, h))
  }

  /** One line: an empty one says nothing, the first one starts the message, the others are headers. */
  ghost function ReadLine(start: bytes -> Option<Start>, head: Head, line: bytes): Option<Head> {
    if line == [] then Some(head)
    else if head.start.None? then
      match start(line)
      case None => None
      case Some(x) => Some(head.(start := Some(x)))
    else
      match HeaderOfLine(line)
      case None => Some(head)
      case Some(h) => Some(WithHeader(head, h))
  }

  ghost function ReadLines(start: bytes -> Option<Start>, head: Head, lines: seq<bytes>): Option<Head>
    decreases |lines|
  {
    if lines == [] then Some(head)
    else
      match ReadLine(start, head, lines[0])
      case None => None
      case Some(h) => ReadLines(start, h, lines[1..])
  }

  const NOTHING: Head := Head(None, [], NO_LENGTH)

  /** A whole head, up to a zero byte if it has one: its start, its header table and its content length. */
  ghost function ReadHead(start: bytes -> Option<Start>, text: bytes): Option<Head> {
    match ReadLines(start, NOTHING, Lines(UpToNul(text)))
    case None => None
    case Some(head) => if head.start.None? || head.length == BAD_START then None else Some(head)
  }

  /** The body that a content length asks for, of all that comes after the head. */
  function BodyOf(length: int, stream: bytes): bytes {
    if length <= 0 then [] else if |stream| < length then stream else stream[..length]
  }
}
