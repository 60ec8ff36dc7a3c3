/** Responses as they are written and read back. */
module HttpResponse {
  import opened Bytes
  import opened Decimal
  import opened HttpText
  import opened HttpHead
  import opened HttpMessage

  /** `HTTP/1.1 `. */
  const VERSION: bytes := [0x48, 0x54, 0x54, 0x50, 0x2F, 0x31, 0x2E, 0x31, 0x20]

  /** A status is an `int` of 32 bits. */
  predicate IsStatus(status: int) {
    -0x8000_0000 <= status <= 0x7FFF_FFFF
  }

  function StatusLine(status: int): bytes {
    VERSION + IntText(status) + [SPACE] + Reason(status)
  }

  function ResponseText(status: int, hs: seq<Header>, body: bytes): bytes {
    Clip(StatusLine(status) + CRLF) + WriteLines(HeaderLines(hs)) + Closing(|body|) + body
  }

  lemma AtolOfInt(n: int)
    ensures Atol(IntText(n)) == n
  {
    hide DigitsText, DigitValue;
    if n < 0 {
      DigitsOfNumber(-n);
      var t := DigitsText(-n);
      DigitRunOver(t, []);
      assert t + [] == t && t[..|t|] == t;
      assert IntText(n)[1..] == t;
      assert SkipBlanks(IntText(n)) == IntText(n);
    } else {
      AtolOfDigits(n);
    }
  }

  lemma IntPlain(n: int)
    ensures CR !in IntText(n) && NulFree(IntText(n)) && SPACE !in IntText(n)
  {
    DigitsPlain(if n < 0 then -n else n);
  }

  /** A status comes out as it went in if it is positive, and makes the message unreadable if not. */
  lemma StatusLineReads(status: int)
    ensures ReadResponseStart(StatusLine(status)) == if status > 0 then Some(ResponseStart(status)) else None
  {
    hide FindByte, IntText, Atol, Reason;
    var line, digits := StatusLine(status), IntText(status);
    var rest := digits + [SPACE] + Reason(status);
    var word := VERSION[..8];
    assert line == word + [SPACE] + rest;
    FindByteIn(word, SPACE, rest);
    assert line[9..] == rest;
    IntPlain(status);
    FindByteIn(digits, SPACE, Reason(status));
    assert rest[..|digits|] == digits;
    AtolOfInt(status);
  }

  lemma StatusLinePlain(status: int)
    ensures Plain(StatusLine(status))
  {
    hide IntText, Reason;
    IntPlain(status);
    PlainWithoutCr(StatusLine(status));
  }

  /** A status line always fits the buffer it is formatted into. */
  lemma StatusLineFits(status: int)
    requires IsStatus(status)
    ensures Clip(StatusLine(status) + CRLF) == StatusLine(status) + CRLF
  {
    hide DigitsText, Reason;
    SizeDigits(if status < 0 then -status else status);
  }

  // ---- what is read ----

  function ResponseBlock(status: int, hs: seq<Header>, size: nat): bytes {
    Block(HeadLines(StatusLine(status), hs + ClosingHeaders(size)))
  }

  lemma ResponseShape(status: int, hs: seq<Header>, body: bytes)
    requires IsStatus(status) && |body| < SIZE_LIMIT
    ensures ResponseText(status, hs, body) == ResponseBlock(status, hs, |body|) + HEAD_END + body
  {
    hide WriteLines, HeaderLines, StatusLine, ClosingHeaders, Closing, Block, Clip;
    var first, a, b := StatusLine(status), HeaderLines(hs), HeaderLines(ClosingHeaders(|body|));
    StatusLineFits(status);
    ClosingFits(|body|);
    OneLine(first);
    HeaderLinesConcat(hs, ClosingHeaders(|body|));
    WriteLinesConcat(a, b);
    WriteLinesConcat([first], a + b);
    MessageShape(first, hs + ClosingHeaders(|body|), body);
    Regrouped(first + CRLF, WriteLines(a), WriteLines(b), body);
  }

  lemma Regrouped(a: bytes, b: bytes, c: bytes, body: bytes)
    ensures a + b + (c + CRLF) + body == a + (b + c) + CRLF + body
  {
  }

  /** A response as it is read from what was written, if its status is positive; unreadable if not. */
  lemma ResponseReads(status: int, hs: seq<Header>, body: bytes)
    requires IsStatus(status) && |body| < SIZE_LIMIT && forall h :: h in hs ==> PlainHeader(h)
    ensures var block := ResponseBlock(status, hs, |body|);
            && ResponseText(status, hs, body) == block + HEAD_END + body
            && IsHeadEnd(block + HEAD_END + body, |block|)
            && ReadHead(ReadResponseStart, block)
               == if status > 0 then Some(Head(Some(ResponseStart(status)), TableOf([], hs, |body|), |body|)) else None
  {
    var all := hs + ClosingHeaders(|body|);
    assert [] + hs + ClosingHeaders(|body|) == all;
    hide PlainHeader, Plain, StatusLine, ReadHead, Block, IsHeadEnd, ReadResponseStart, ResponseText;
    hide ClosingHeaders, LengthAfter, RereadAll, SetHeaders;
    StatusLinePlain(status);
    ResponseShape(status, hs, body);
    ClosingPlain(|body|);
    StatusLineReads(status);
    LengthOfAll([], hs, |body|);
    MessageReads(ReadResponseStart, StatusLine(status), all, body);
  }
}
