/**
 HTTP/1.1 messages as text: the lines of a message head, what a reader makes of
 them, and what a writer writes.
 */
module HttpText {
  import opened Bytes

  const SPACE: byte := 0x20
  const CR: byte := 0x0D
  const LF: byte := 0x0A
  const COLON: byte := 0x3A
  const CRLF: bytes := [0x0D, 0x0A]

  /** The empty line that ends a message head, with the end of the line before it. */
  const HEAD_END: bytes := [0x0D, 0x0A, 0x0D, 0x0A]

  /** The size of the buffer that first lines are formatted into, terminator included. */
  const LINE_BUF: nat := 256

  // ---- methods ----

  datatype Method = GET | POST | PUT | DELETE | HEAD | OPTIONS

  function MethodName(m: Method): bytes {
    match m
    case GET => [0x47, 0x45, 0x54]
    case POST => [0x50, 0x4F, 0x53, 0x54]
    case PUT => [0x50, 0x55, 0x54]
    case DELETE => [0x44, 0x45, 0x4C, 0x45, 0x54, 0x45]
    case HEAD => [0x48, 0x45, 0x41, 0x44]
    case OPTIONS => [0x4F, 0x50, 0x54, 0x49, 0x4F, 0x4E, 0x53]
  }

  function ParseMethod(s: bytes): (r: Option<Method>)
    ensures forall m :: s == MethodName(m) ==> r == Some(m)
    ensures r.Some? ==> s == MethodName(r.value)
  {
    if s == MethodName(GET) then Some(GET)
    else if s == MethodName(POST) then Some(POST)
    else if s == MethodName(PUT) then Some(PUT)
    else if s == MethodName(DELETE) then Some(DELETE)
    else if s == MethodName(HEAD) then Some(HEAD)
    else if s == MethodName(OPTIONS) then Some(OPTIONS)
    else None
  }

  /** `Unknown`, and the reasons of the statuses that are known. */
  const REASON_UNKNOWN: bytes := [0x55, 0x6E, 0x6B, 0x6E, 0x6F, 0x77, 0x6E]
  const REASON_OK: bytes := [0x4F, 0x4B]
  const REASON_CREATED: bytes := [0x43, 0x72, 0x65, 0x61, 0x74, 0x65, 0x64]
  const REASON_NO_CONTENT: bytes := [0x4E, 0x6F, 0x20, 0x43, 0x6F, 0x6E, 0x74, 0x65, 0x6E, 0x74]
  const REASON_MOVED_PERMANENTLY: bytes := [
    0x4D, 0x6F, 0x76, 0x65, 0x64, 0x20, 0x50, 0x65, 0x72, 0x6D, 0x61, 0x6E, 0x65, 0x6E,
    0x74, 0x6C, 0x79
  ]
  const REASON_FOUND: bytes := [0x46, 0x6F, 0x75, 0x6E, 0x64]
  const REASON_BAD_REQUEST: bytes := [0x42, 0x61, 0x64, 0x20, 0x52, 0x65, 0x71, 0x75, 0x65, 0x73, 0x74]
  const REASON_UNAUTHORIZED: bytes := [0x55, 0x6E, 0x61, 0x75, 0x74, 0x68, 0x6F, 0x72, 0x69, 0x7A, 0x65, 0x64]
  const REASON_FORBIDDEN: bytes := [0x46, 0x6F, 0x72, 0x62, 0x69, 0x64, 0x64, 0x65, 0x6E]
  const REASON_NOT_FOUND: bytes := [0x4E, 0x6F, 0x74, 0x20, 0x46, 0x6F, 0x75, 0x6E, 0x64]
  const REASON_METHOD_NOT_ALLOWED: bytes := [
    0x4D, 0x65, 0x74, 0x68, 0x6F, 0x64, 0x20, 0x4E, 0x6F, 0x74, 0x20, 0x41, 0x6C, 0x6C,
    0x6F, 0x77, 0x65, 0x64
  ]
  const REASON_INTERNAL_SERVER_ERROR: bytes := [
    0x49, 0x6E, 0x74, 0x65, 0x72, 0x6E, 0x61, 0x6C, 0x20, 0x53, 0x65, 0x72, 0x76, 0x65,
    0x72, 0x20, 0x45, 0x72, 0x72, 0x6F, 0x72
  ]
  const REASON_NOT_IMPLEMENTED: bytes := [
    0x4E, 0x6F, 0x74, 0x20, 0x49, 0x6D, 0x70, 0x6C, 0x65, 0x6D, 0x65, 0x6E, 0x74, 0x65, 0x64
  ]
  const REASON_SERVICE_UNAVAILABLE: bytes := [
    0x53, 0x65, 0x72, 0x76, 0x69, 0x63, 0x65, 0x20, 0x55, 0x6E, 0x61, 0x76, 0x61, 0x69,
    0x6C, 0x61, 0x62, 0x6C, 0x65
  ]

  /** The reasons of success and redirection. */
  function ReasonBelow400(status: int): (r: bytes)
    ensures CR !in r && NulFree(r) && |r| <= 21
  {
    if status == 200 then REASON_OK
    else if status == 201 then REASON_CREATED
    else if status == 204 then REASON_NO_CONTENT
    else if status == 301 then REASON_MOVED_PERMANENTLY
    else if status == 302 then REASON_FOUND
    else REASON_UNKNOWN
  }

  /** The reasons of a client's errors. */
  function ReasonOf4xx(status: int): (r: bytes)
    ensures CR !in r && NulFree(r) && |r| <= 21
  {
    if status == 400 then REASON_BAD_REQUEST
    else if status == 401 then REASON_UNAUTHORIZED
    else if status == 403 then REASON_FORBIDDEN
    else if status == 404 then REASON_NOT_FOUND
    else if status == 405 then REASON_METHOD_NOT_ALLOWED
    else REASON_UNKNOWN
  }

  /** The reasons of a server's errors. */
  function ReasonFrom500(status: int): (r: bytes)
    ensures CR !in r && NulFree(r) && |r| <= 21
  {
    if status == 500 then REASON_INTERNAL_SERVER_ERROR
    else if status == 501 then REASON_NOT_IMPLEMENTED
    else if status == 503 then REASON_SERVICE_UNAVAILABLE
    else REASON_UNKNOWN
  }

  /** The reason that goes with a status, in English. */
  function Reason(status: int): (r: bytes)
    ensures CR !in r && NulFree(r) && |r| <= 21
  {
    if status < 400 then ReasonBelow400(status) else if status < 500 then ReasonOf4xx(status) else ReasonFrom500(status)
  }

  // ---- the header table ----

  datatype Header = Header(name: bytes, value: bytes)

  function Lower(c: byte): byte {
    if 0x41 <= c <= 0x5A then c - 0x41 + 0x61 else c
  }

  /** Equal but for the case of ASCII letters. */
  ghost predicate CiEqual(a: bytes, b: bytes) {
    |a| == |b| && forall i :: 0 <= i < |a| ==> Lower(a[i]) == Lower(b[i])
  }

  /** The same letter, one of them upper case, or the same byte. */
  predicate SameLetter(a: byte, b: byte) {
    a == b || (0x41 <= a <= 0x5A && b == a + 0x20) || (0x41 <= b <= 0x5A && a == b + 0x20)
  }

  /** Names of the same length that differ in the case of ASCII letters, if at all. */
  ghost predicate SameButForCase(a: bytes, b: bytes) {
    |a| == |b| && forall i :: 0 <= i < |a| ==> SameLetter(a[i], b[i])
  }

  lemma LowerExact(a: byte, b: byte)
    ensures Lower(a) == Lower(b) <==> SameLetter(a, b)
  {
  }

  lemma CiExact(a: bytes, b: bytes)
    ensures CiEqual(a, b) <==> SameButForCase(a, b)
  {
    hide Lower, SameLetter;
    if |a| == |b| {
      forall i | 0 <= i < |a|
        ensures Lower(a[i]) == Lower(b[i]) <==> SameLetter(a[i], b[i])
      {
        LowerExact(a[i], b[i]);
      }
    }
  }

  /** The first header of a name, or the number of headers. */
  ghost function HeaderAt(hs: seq<Header>, name: bytes): (i: nat)
    ensures i <= |hs|
    ensures i < |hs| ==> CiEqual(hs[i].name, name)
    ensures forall j :: 0 <= j < i ==> !CiEqual(hs[j].name, name)
  {
    if hs == [] || CiEqual(hs[0].name, name) then 0 else 1 + HeaderAt(hs[1..], name)
  }

  /** A header that is there keeps its place and its name as first written; a new one goes to the end. */
  ghost function SetHeader(hs: seq<Header>, name: bytes, value: bytes): seq<Header> {
    var i := HeaderAt(hs, name);
    if i < |hs| then hs[i := Header(hs[i].name, value)] else hs + [Header(name, value)]
  }

  /** Headers set one after another. */
  ghost function SetHeaders(hs: seq<Header>, ps: seq<Header>): seq<Header>
    decreases |ps|
  {
    if ps == [] then hs else SetHeaders(SetHeader(hs, ps[0].name, ps[0].value), ps[1..])
  }

  ghost function GetHeader(hs: seq<Header>, name: bytes): Option<bytes> {
    var i := HeaderAt(hs, name);
    if i < |hs| then Some(hs[i].value) else None
  }

  ghost predicate NamesDiffer(hs: seq<Header>) {
    forall i, j :: 0 <= i < j < |hs| ==> !CiEqual(hs[i].name, hs[j].name)
  }

  lemma FirstHeader(hs: seq<Header>, name: bytes, i: nat)
    requires i < |hs| && CiEqual(hs[i].name, name) && forall j :: 0 <= j < i ==> !CiEqual(hs[j].name, name)
    ensures HeaderAt(hs, name) == i
  {
  }

  lemma NoHeader(hs: seq<Header>, name: bytes)
    requires forall j :: 0 <= j < |hs| ==> !CiEqual(hs[j].name, name)
    ensures HeaderAt(hs, name) == |hs|
  {
  }

  /** Setting a header changes what is read for its name, in whatever case, and for no other. */
  lemma GetOfSet(hs: seq<Header>, name: bytes, value: bytes, n: bytes)
    ensures GetHeader(SetHeader(hs, name, value), n) == if CiEqual(name, n) then Some(value) else GetHeader(hs, n)
    ensures GetHeader(SetHeader(hs, name, value), n)
         == if SameButForCase(name, n) then Some(value) else GetHeader(hs, n)
    ensures NamesDiffer(hs) ==> NamesDiffer(SetHeader(hs, name, value))
  {
    CiExact(name, n);
    hide SameButForCase;
    var i, k := HeaderAt(hs, name), HeaderAt(hs, n);
    var r := SetHeader(hs, name, value);
    hide HeaderAt;
    if CiEqual(name, n) {
      FirstHeader(r, n, i);
    } else if k < |hs| {
      FirstHeader(r, n, k);
    } else {
      NoHeader(r, n);
    }
  }

  /** The value of the last pair of a name. */
  ghost function LastValue(ps: seq<Header>, n: bytes): Option<bytes> {
    if ps == [] then None
    else if CiEqual(ps[|ps| - 1].name, n) then Some(ps[|ps| - 1].value)
    else LastValue(ps[..|ps| - 1], n)
  }

  lemma {:induction false} SetHeadersLast(hs: seq<Header>, ps: seq<Header>, p: Header)
    ensures SetHeaders(hs, ps + [p]) == SetHeader(SetHeaders(hs, ps), p.name, p.value)
    decreases |ps|
  {
    if ps == [] {
      assert ps + [p] == [p];
      assert SetHeaders(SetHeader(hs, p.name, p.value), []) == SetHeader(hs, p.name, p.value);
    } else {
      SetHeadersLast(SetHeader(hs, ps[0].name, ps[0].value), ps[1..], p);
      assert (ps + [p])[1..] == ps[1..] + [p];
    }
  }

  /** After any run of sets the names differ, and each reads as its last value. */
  lemma {:induction false} TableMeaning(ps: seq<Header>, n: bytes)
    ensures NamesDiffer(SetHeaders([], ps)) && GetHeader(SetHeaders([], ps), n) == LastValue(ps, n)
    decreases |ps|
  {
    if ps == [] {
    } else {
      var last := |ps| - 1;
      TableMeaning(ps[..last], n);
      SetHeadersLast([], ps[..last], ps[last]);
      assert ps == ps[..last] + [ps[last]];
      GetOfSet(SetHeaders([], ps[..last]), ps[last].name, ps[last].value, n);
    }
  }
}
