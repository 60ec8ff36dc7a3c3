/**
 Requests as they are written and read back. The request line and the Host line
 are formatted into a fixed buffer: what does not fit is cut off, line end and
 all, and the next line is glued on.
 */
module HttpRequest {
  import opened Bytes
  import opened Decimal
  import opened HttpText
  import opened HttpHead
  import opened HttpMessage

  /** ` HTTP/1.1` and `Host`. */
  const VERSION: bytes := [0x20, 0x48, 0x54, 0x54, 0x50, 0x2F, 0x31, 0x2E, 0x31]
  const HOST: bytes := [0x48, 0x6F, 0x73, 0x74]

  function RequestLine(m: Method, path: bytes): bytes {
    MethodName(m) + [SPACE] + path + VERSION
  }

  function HostHeader(host: bytes): Header {
    Header(HOST, host)
  }

  function RequestText(m: Method, path: bytes, host: bytes, hs: seq<Header>, body: bytes): bytes {
    Clip(RequestLine(m, path) + CRLF) + Clip(HeaderLine(HostHeader(host)) + CRLF)
    + WriteLines(HeaderLines(hs)) + Closing(|body|) + body
  }

  /** Whether a line and its end fit the buffer, with the terminator. */
  predicate Fits(line: bytes) {
    |line| + 2 < LINE_BUF
  }

  // ---- what comes out of the buffer ----

  /** The headers behind the request line as they stand on the wire; `xs` are those behind the Host line. */
  function HostOut(host: bytes, xs: seq<Header>): (r: seq<Header>)
    requires xs != []
    ensures r != []
  {
    if Fits(HeaderLine(HostHeader(host))) then [HostHeader(host)] + xs
    else [Header(HOST, GluedHost(host, xs[0]))] + xs[1..]
  }

  /** The value of a Host line that was cut off, with the header line glued on. */
  function GluedHost(host: bytes, next: Header): bytes
    requires !Fits(HeaderLine(HostHeader(host)))
  {
    (host + CRLF)[..LINE_BUF - 1 - |HOST| - 2] + HeaderLine(next)
  }

  /** The request line as it stands on the wire, and the headers behind it. */
  function FirstOut(m: Method, path: bytes, hh: seq<Header>): bytes
    requires hh != []
  {
    if Fits(RequestLine(m, path)) then RequestLine(m, path)
    else Clip(RequestLine(m, path) + CRLF) + HeaderLine(hh[0])
  }

  function RestOut(m: Method, path: bytes, hh: seq<Header>): seq<Header>
    requires hh != []
  {
    if Fits(RequestLine(m, path)) then hh else hh[1..]
  }

  /** What follows the method and a space on the wire, up to the first end of a line. */
  function TargetOut(m: Method, path: bytes, hh: seq<Header>): bytes
    requires hh != []
  {
    if Fits(RequestLine(m, path)) then path + VERSION
    else (path + VERSION + CRLF)[..LINE_BUF - 1 - |MethodName(m)| - 1] + HeaderLine(hh[0])
  }

  function HeadersOut(host: bytes, hs: seq<Header>, size: nat): (r: seq<Header>)
    ensures r != []
  {
    HostOut(host, hs + ClosingHeaders(size))
  }

  /** The head of a request as it stands on the wire, without its end. */
  function RequestBlock(m: Method, path: bytes, host: bytes, hs: seq<Header>, size: nat): bytes {
    var hh := HeadersOut(host, hs, size);
    Block(HeadLines(FirstOut(m, path, hh), RestOut(m, path, hh)))
  }

  /** A line that is cut off swallows the line behind it. */
  lemma Glue(cut: bytes, lines: seq<bytes>)
    requires lines != []
    ensures cut + WriteLines(lines) == WriteLines([cut + lines[0]] + lines[1..])
  {
    hide WriteLines;
    WriteLinesConcat([lines[0]], lines[1..]);
    WriteLinesConcat([cut + lines[0]], lines[1..]);
    OneLine(lines[0]);
    OneLine(cut + lines[0]);
    assert lines == [lines[0]] + lines[1..];
  }

  /** A line that fits stands in front of the others. */
  lemma InFront(line: bytes, lines: seq<bytes>)
    ensures line + CRLF + WriteLines(lines) == WriteLines([line] + lines)
  {
    hide WriteLines;
    OneLine(line);
    WriteLinesConcat([line], lines);
  }

  lemma HostShape(host: bytes, xs: seq<Header>)
    requires xs != []
    ensures Clip(HeaderLine(HostHeader(host)) + CRLF) + WriteLines(HeaderLines(xs))
         == WriteLines(HeaderLines(HostOut(host, xs)))
  {
    hide WriteLines;
    var line, lines := HeaderLine(HostHeader(host)), HeaderLines(xs);
    if Fits(line) {
      InFront(line, lines);
      assert HeaderLines([HostHeader(host)] + xs) == [line] + lines;
    } else {
      var cut := (host + CRLF)[..LINE_BUF - 1 - |HOST| - 2];
      assert line + CRLF == HOST + [COLON, SPACE] + (host + CRLF);
      assert Clip(line + CRLF) == HOST + [COLON, SPACE] + cut;
      Glue(Clip(line + CRLF), lines);
      var h := Header(HOST, cut + HeaderLine(xs[0]));
      assert HeaderLine(h) == Clip(line + CRLF) + lines[0];
      assert HeaderLines([h] + xs[1..]) == [HeaderLine(h)] + lines[1..];
    }
  }

  lemma FirstShape(m: Method, path: bytes, hh: seq<Header>)
    requires hh != []
    ensures Clip(RequestLine(m, path) + CRLF) + WriteLines(HeaderLines(hh))
         == WriteLines([FirstOut(m, path, hh)] + HeaderLines(RestOut(m, path, hh)))
  {
    hide WriteLines, RequestLine, HeaderLine;
    var line, lines := RequestLine(m, path), HeaderLines(hh);
    if Fits(line) {
      InFront(line, lines);
    } else {
      Glue(Clip(line + CRLF), lines);
      assert HeaderLines(hh[1..]) == lines[1..];
    }
  }

  /** A written request is the block of the lines that come out, the end of the head, and the body. */
  lemma RequestShape(m: Method, path: bytes, host: bytes, hs: seq<Header>, body: bytes)
    requires |body| < SIZE_LIMIT
    ensures RequestText(m, path, host, hs, body) == RequestBlock(m, path, host, hs, |body|) + HEAD_END + body
  {
    assert |ClosingHeaders(|body|)| == 2;
    hide WriteLines, HeaderLines, HeaderLine, RequestLine, ClosingHeaders, Closing;
    hide HostOut, FirstOut, RestOut, Block, Clip;
    var closing := ClosingHeaders(|body|);
    var xs, hh := hs + closing, HeadersOut(host, hs, |body|);
    ClosingFits(|body|);
    HeaderLinesConcat(hs, closing);
    WriteLinesConcat(HeaderLines(hs), HeaderLines(closing));
    HostShape(host, xs);
    FirstShape(m, path, hh);
    MessageShape(FirstOut(m, path, hh), RestOut(m, path, hh), body);
    Regrouped(Clip(RequestLine(m, path) + CRLF), Clip(HeaderLine(HostHeader(host)) + CRLF),
              WriteLines(HeaderLines(hs)), WriteLines(HeaderLines(closing)), body);
  }

  lemma Regrouped(a: bytes, b: bytes, c: bytes, d: bytes, body: bytes)
    ensures a + b + c + (d + CRLF) + body == a + (b + (c + d)) + CRLF + body
  {
  }

  // ---- the lines that come out are lines ----

  /** What a request may be made of: no line of it is broken by what it holds. */
  ghost predicate Sendable(path: bytes, host: bytes, hs: seq<Header>) {
    NoCrlf(path) && NulFree(path) && PlainHeader(HostHeader(host)) && forall h :: h in hs ==> PlainHeader(h)
  }

  /** A line that was cut off, wherever that was, and the line glued on are one line. */
  lemma GluePlain(line: bytes, k: nat, tail: bytes)
    requires Plain(line) && 0 < k <= |line| + 1 && Plain(tail)
    ensures Plain((line + CRLF)[..k] + tail)
  {
    var cut := (line + CRLF)[..k];
    var s := cut + tail;
    assert forall i :: 0 <= i < k ==> s[i] == if i < |line| then line[i] else CR;
    forall i: nat
      ensures !CrlfAt(s, i)
    {
      if i + 1 < k {
        assert !CrlfAt(line, i);
      } else if i >= k {
        assert !CrlfAt(tail, i - k);
      }
    }
  }

  lemma HostOutPlain(host: bytes, xs: seq<Header>)
    requires xs != [] && PlainHeader(HostHeader(host)) && forall h :: h in xs ==> PlainHeader(h)
    ensures forall h :: h in HostOut(host, xs) ==> PlainHeader(h)
  {
    hide Plain;
    var line := HeaderLine(HostHeader(host));
    assert PlainHeader(xs[0]);
    if !Fits(line) {
      var cut := (host + CRLF)[..LINE_BUF - 1 - |HOST| - 2];
      assert (line + CRLF)[..LINE_BUF - 1] == HOST + [COLON, SPACE] + cut;
      GluePlain(line, LINE_BUF - 1, HeaderLine(xs[0]));
      assert HeaderLine(Header(HOST, cut + HeaderLine(xs[0]))) == (line + CRLF)[..LINE_BUF - 1] + HeaderLine(xs[0]);
    }
  }

  lemma RequestLinePlain(m: Method, path: bytes)
    requires NoCrlf(path) && NulFree(path)
    ensures Plain(RequestLine(m, path))
  {
    MethodPlain(m);
    hide MethodName;
    var line, n := RequestLine(m, path), |MethodName(m)| + 1;
    forall i: nat
      ensures !CrlfAt(line, i)
    {
      if n <= i < n + |path| {
        assert line[i] == path[i - n] && !CrlfAt(path, i - n);
      } else if i < n {
        assert line[i] == if i < n - 1 then MethodName(m)[i] else SPACE;
      } else if i < |line| {
        assert line[i] == VERSION[i - n - |path|];
      }
    }
  }

  lemma FirstOutPlain(m: Method, path: bytes, hh: seq<Header>)
    requires NoCrlf(path) && NulFree(path) && hh != [] && PlainHeader(hh[0])
    ensures Plain(FirstOut(m, path, hh))
  {
    hide RequestLine, HeaderLine, Plain;
    RequestLinePlain(m, path);
    if !Fits(RequestLine(m, path)) {
      GluePlain(RequestLine(m, path), LINE_BUF - 1, HeaderLine(hh[0]));
    }
  }

  // ---- what is read ----

  lemma FindByteOver(a: bytes, c: byte, b: bytes)
    requires b != [] && b[0] == c
    ensures FindByte(a + b, c) == FindByte(a, c)
    ensures (a + b)[..FindByte(a, c)] == a[..FindByte(a, c)]
  {
    var s, k := a + b, FindByte(a, c);
    assert s[k] == c;
    assert forall i :: 0 <= i < k ==> s[i] == a[i];
  }

  lemma MethodPlain(m: Method)
    ensures CR !in MethodName(m) && NulFree(MethodName(m)) && SPACE !in MethodName(m) && LF !in MethodName(m)
    ensures 3 <= |MethodName(m)| <= 7
  {
  }

  /** A first line of a word, a space and a rest. */
  lemma RequestStartOf(name: bytes, rest: bytes)
    requires SPACE !in name && ParseMethod(name).Some?
    ensures ReadRequestStart(name + [SPACE] + rest)
         == Some(RequestStart(ParseMethod(name).value, rest[..FindByte(rest, SPACE)]))
  {
    hide FindByte, ParseMethod;
    FindByteIn(name, SPACE, rest);
    var line := name + [SPACE] + rest;
    assert line[..|name|] == name && line[|name| + 1..] == rest;
  }

  /** The path as it comes out: up to the first space of what follows the method. */
  function PathOut(m: Method, path: bytes, hh: seq<Header>): bytes
    requires hh != []
  {
    var target := TargetOut(m, path, hh);
    target[..FindByte(target, SPACE)]
  }

  /** The method always comes back. */
  lemma FirstOutReads(m: Method, path: bytes, hh: seq<Header>)
    requires hh != []
    ensures ReadRequestStart(FirstOut(m, path, hh)) == Some(RequestStart(m, PathOut(m, path, hh)))
  {
    hide MethodName, FindByte, ReadRequestStart, ParseMethod, HeaderLine;
    MethodPlain(m);
    var name, target := MethodName(m), TargetOut(m, path, hh);
    RequestStartOf(name, target);
    if Fits(RequestLine(m, path)) {
      assert RequestLine(m, path) == name + [SPACE] + target;
    } else {
      var line := RequestLine(m, path) + CRLF;
      assert line == name + [SPACE] + (path + VERSION + CRLF);
      assert line[..LINE_BUF - 1] == name + [SPACE] + (path + VERSION + CRLF)[..LINE_BUF - 1 - |name| - 1];
      assert FirstOut(m, path, hh) == name + [SPACE] + target;
    }
  }

  /** The content length as it comes out: that of the body, unless the Host line swallowed it. */
  function LengthOut(host: bytes, hs: seq<Header>, size: nat): int {
    if hs == [] && !Fits(HeaderLine(HostHeader(host))) then NO_LENGTH else size
  }

  /** Unless the Host line swallowed the first of them, the writer's own headers stand at the end. */
  lemma ClosingOut(m: Method, path: bytes, host: bytes, hs: seq<Header>, size: nat) returns (before: seq<Header>)
    requires hs != [] || Fits(HeaderLine(HostHeader(host)))
    ensures RestOut(m, path, HeadersOut(host, hs, size)) == before + ClosingHeaders(size)
  {
    hide HeaderLine, RequestLine;
    var closing := ClosingHeaders(size);
    var xs, hh := hs + closing, HeadersOut(host, hs, size);
    before := hh[..|hh| - |closing|];
    if Fits(HeaderLine(HostHeader(host))) {
      assert hh == [HostHeader(host)] + hs + closing;
    } else {
      assert xs[1..] == hs[1..] + closing;
      assert hh == [hh[0]] + hs[1..] + closing;
    }
    assert hh == before + closing;
    if !Fits(RequestLine(m, path)) {
      before := before[1..];
      assert hh[1..] == before + closing;
    }
  }

  lemma {:induction false} LengthUntouched(length: int, ps: seq<Header>)
    requires forall i :: 0 <= i < |ps| ==> !CiEqual(ps[i].name, CONTENT_LENGTH)
    ensures LengthAfter(length, ps) == length
    decreases |ps|
  {
    if ps == [] {
    } else {
      LengthUntouched(length, ps[1..]);
    }
  }

  /** The Host line swallowed the Content-Length: only the glued line, if that, and `Connection` are left. */
  lemma SwallowedOut(m: Method, path: bytes, host: bytes, size: nat)
    requires !Fits(HeaderLine(HostHeader(host)))
    ensures forall h :: h in RestOut(m, path, HeadersOut(host, [], size)) ==> h.name == HOST || h.name == CONNECTION
  {
    hide HeaderLine, RequestLine, DigitsText;
    var closing := ClosingHeaders(size);
    assert [] + closing == closing && closing[1..] == [Header(CONNECTION, CLOSE)];
  }

  lemma NotContentLength(h: Header)
    requires h.name == HOST || h.name == CONNECTION
    ensures !CiEqual(Reread(h).name, CONTENT_LENGTH)
  {
    hide Reread;
    RereadWithoutColon(h);
    assert |h.name| != |CONTENT_LENGTH|;
  }

  lemma LengthSwallowed(m: Method, path: bytes, host: bytes, size: nat)
    requires !Fits(HeaderLine(HostHeader(host)))
    ensures LengthAfter(NO_LENGTH, RereadAll(RestOut(m, path, HeadersOut(host, [], size)))) == NO_LENGTH
  {
    hide RestOut, HeadersOut, Reread, LengthAfter, CiEqual;
    var out := RestOut(m, path, HeadersOut(host, [], size));
    SwallowedOut(m, path, host, size);
    forall i | 0 <= i < |out|
      ensures !CiEqual(RereadAll(out)[i].name, CONTENT_LENGTH)
    {
      assert out[i] in out;
      NotContentLength(out[i]);
    }
    LengthUntouched(NO_LENGTH, RereadAll(out));
  }

  lemma LengthOfOut(m: Method, path: bytes, host: bytes, hs: seq<Header>, size: nat)
    ensures LengthAfter(NO_LENGTH, RereadAll(RestOut(m, path, HeadersOut(host, hs, size)))) == LengthOut(host, hs, size)
  {
    hide LengthAfter, RereadAll, HeaderLine, ClosingHeaders, HostOut, RestOut;
    if hs == [] && !Fits(HeaderLine(HostHeader(host))) {
      LengthSwallowed(m, path, host, size);
    } else {
      var before := ClosingOut(m, path, host, hs, size);
      LengthOfAll([], before, size);
      assert [] + before == before;
    }
  }

  /** The head of a request as it is read from what was written. */
  ghost function HeadOut(m: Method, path: bytes, host: bytes, hs: seq<Header>, size: nat): Head {
    var hh := HeadersOut(host, hs, size);
    Head(Some(RequestStart(m, PathOut(m, path, hh))), SetHeaders([], RereadAll(RestOut(m, path, hh))),
         LengthOut(host, hs, size))
  }

  /** What is read from a written request, whether its first two lines fit the buffer or are cut off. */
  lemma RequestReads(m: Method, path: bytes, host: bytes, hs: seq<Header>, body: bytes)
    requires Sendable(path, host, hs) && |body| < SIZE_LIMIT
    ensures var block := RequestBlock(m, path, host, hs, |body|);
            && RequestText(m, path, host, hs, body) == block + HEAD_END + body
            && IsHeadEnd(block + HEAD_END + body, |block|)
            && ReadHead(ReadRequestStart, block) == Some(HeadOut(m, path, host, hs, |body|))
  {
    var xs, hh := hs + ClosingHeaders(|body|), HeadersOut(host, hs, |body|);
    hide PlainHeader, ReadHead, Block, IsHeadEnd, ReadRequestStart, RequestText, HostOut, FirstOut, PathOut;
    hide ClosingHeaders, LengthAfter, RereadAll, SetHeaders;
    RequestShape(m, path, host, hs, body);
    ClosingPlain(|body|);
    HostOutPlain(host, xs);
    FirstOutPlain(m, path, hh);
    FirstOutReads(m, path, hh);
    LengthOfOut(m, path, host, hs, |body|);
    MessageReads(ReadRequestStart, FirstOut(m, path, hh), RestOut(m, path, hh), body);
  }

  /**
   If both lines fit: the same method and body length, the path up to its first
   space, and the table that all the headers set one after another make.
   */
  lemma RequestReadsFitting(m: Method, path: bytes, host: bytes, hs: seq<Header>, size: nat)
    requires Fits(RequestLine(m, path)) && Fits(HeaderLine(HostHeader(host)))
    ensures HeadOut(m, path, host, hs, size)
         == Head(Some(RequestStart(m, path[..FindByte(path, SPACE)])), TableOf([HostHeader(host)], hs, size), size)
  {
    hide FindByte, RereadAll, SetHeaders, ClosingHeaders, RequestLine, HeaderLine;
    FindByteOver(path, SPACE, VERSION);
    assert [HostHeader(host)] + (hs + ClosingHeaders(size)) == [HostHeader(host)] + hs + ClosingHeaders(size);
  }

  /** The path comes out as it went in exactly if it has no space, when its line fits. */
  lemma PathExact(path: bytes)
    ensures path[..FindByte(path, SPACE)] == path <==> SPACE !in path
  {
  }

  // ---- requests that do not come back as they were ----

  /** A head that the reader takes for one without a first line: its content length is -2. */
  lemma MinusTwoRefused()
    ensures var first, h := RequestLine(GET, [0x2F]), Header(CONTENT_LENGTH, [MINUS, 0x32]);
            ReadRequestStart(first).Some? && ReadHead(ReadRequestStart, Block(HeadLines(first, [h]))) == None
  {
    var first, h := RequestLine(GET, [0x2F]), Header(CONTENT_LENGTH, [MINUS, 0x32]);
    hide PlainHeader, Plain, RequestLine, ReadHead, Block, ReadRequestStart, Atol, Reread;
    RequestLineReads(GET, [0x2F]);
    RequestLinePlain(GET, [0x2F]);
    WordsPlain();
    PlainHeaderWithoutCr(h);
    RereadExact(h);
    MinusTwo();
    LastLength(h);
    HeadReads(ReadRequestStart, first, [h]);
  }

  lemma LastLength(h: Header)
    requires h.name == CONTENT_LENGTH && Reread(h) == h
    ensures LengthAfter(NO_LENGTH, RereadAll([h])) == Atol(h.value)
  {
    hide Reread, Atol;
    assert RereadAll([h]) == [h] && [h][1..] == [];
  }

  lemma MinusTwo()
    ensures Atol([MINUS, 0x32]) == -2
  {
    assert [MINUS, 0x32][1..] == [0x32] && [0x32][..1] == [0x32];
    assert DigitRun([0x32]) == 1 && DigitsValue([0x32]) == 2;
  }

  lemma RequestLineReads(m: Method, path: bytes)
    ensures ReadRequestStart(RequestLine(m, path)) == Some(RequestStart(m, path[..FindByte(path, SPACE)]))
  {
    hide MethodName, FindByte, ReadRequestStart, ParseMethod;
    MethodPlain(m);
    RequestStartOf(MethodName(m), path + VERSION);
    FindByteOver(path, SPACE, VERSION);
    assert RequestLine(m, path) == MethodName(m) + [SPACE] + (path + VERSION);
  }

  /** A path with a space is cut at it. */
  lemma SpacedPath()
    ensures ReadRequestStart(RequestLine(GET, [0x61, SPACE, 0x62])) == Some(RequestStart(GET, [0x61]))
  {
    var path := [0x61, SPACE, 0x62];
    RequestLineReads(GET, path);
    assert path[1..][0] == SPACE && FindByte(path[1..], SPACE) == 0;
    assert path[..1] == [0x61];
  }

  /** A header whose name has a colon is split there. */
  lemma ColonInName()
    ensures Reread(Header([0x61, COLON, 0x62], [0x63])).name == [0x61]
  {
    hide HeaderOfLine;
    HeaderOfJoined([0x61], [0x62, COLON, SPACE, 0x63]);
    assert HeaderLine(Header([0x61, COLON, 0x62], [0x63])) == [0x61] + [COLON] + [0x62, COLON, SPACE, 0x63];
  }

  lemma NoSpace(s: bytes)
    requires s != [] && s[0] != SPACE
    ensures SkipSpaces(s) == s
  {
  }

  /** A space before a value is dropped. */
  lemma SpaceBeforeValue()
    ensures Reread(Header([0x61], [SPACE] + [0x62])) == Header([0x61], [0x62])
  {
    hide Reread, SkipSpaces;
    RereadWithoutColon(Header([0x61], [SPACE] + [0x62]));
    SkipOneSpace([0x62]);
    NoSpace([0x62]);
  }
}
