/** What a writer of messages sends, and what a reader makes of exactly that. */
module HttpMessage {
  import opened Bytes
  import opened Decimal
  import opened HttpText
  import opened HttpHead

  /** A line formatted into the fixed buffer: what does not fit is cut off. */
  function Clip(s: bytes): (r: bytes)
    ensures |s| < LINE_BUF ==> r == s
  {
    if |s| < LINE_BUF then s else s[..LINE_BUF - 1]
  }

  /** `Connection` and `close`. */
  const CONNECTION: bytes := [0x43, 0x6F, 0x6E, 0x6E, 0x65, 0x63, 0x74, 0x69, 0x6F, 0x6E]
  const CLOSE: bytes := [0x63, 0x6C, 0x6F, 0x73, 0x65]

  function HeaderLine(h: Header): bytes {
    h.name + [COLON, SPACE] + h.value
  }

  function HeaderLines(hs: seq<Header>): seq<bytes> {
    seq(|hs|, i requires 0 <= i < |hs| => HeaderLine(hs[i]))
  }

  /** Lines, each with its end. */
  function WriteLines(lines: seq<bytes>): bytes {
    if lines == [] then [] else lines[0] + CRLF + WriteLines(lines[1..])
  }

  /** The headers that the writer adds after the caller's. */
  function ClosingHeaders(size: nat): seq<Header> {
    [Header(CONTENT_LENGTH, DigitsText(size)), Header(CONNECTION, CLOSE)]
  }

  /** The end of the head, which is formatted in one go. */
  function Closing(size: nat): bytes {
    Clip(WriteLines(HeaderLines(ClosingHeaders(size))) + CRLF)
  }

  // ---- a head as a block of lines ----

  /** No end of a line within. */
  ghost predicate NoCrlf(s: bytes) {
    forall i: nat :: !CrlfAt(s, i)
  }

  /** A line that stays a line: it starts with neither CR nor LF, and holds no CRLF and no NUL. */
  ghost predicate Plain(s: bytes) {
    s != [] && s[0] != CR && s[0] != LF && NoCrlf(s) && NulFree(s)
  }

  lemma PlainWithoutCr(s: bytes)
    requires s != [] && CR !in s && s[0] != LF && NulFree(s)
    ensures Plain(s)
  {
  }

  ghost predicate AllPlain(lines: seq<bytes>) {
    forall i :: 0 <= i < |lines| ==> Plain(lines[i])
  }

  /** Lines with ends between them. */
  function Block(lines: seq<bytes>): bytes
    requires lines != []
  {
    if |lines| == 1 then lines[0] else lines[0] + CRLF + Block(lines[1..])
  }

  lemma {:induction false} WriteLinesAsBlock(lines: seq<bytes>)
    requires lines != []
    ensures WriteLines(lines) == Block(lines) + CRLF
  {
    if |lines| == 1 {
      assert WriteLines(lines[1..]) == [];
      assert lines[0] + CRLF + [] == lines[0] + CRLF;
    } else {
      WriteLinesAsBlock(lines[1..]);
      assert lines[0] + CRLF + (Block(lines[1..]) + CRLF) == lines[0] + CRLF + Block(lines[1..]) + CRLF;
    }
  }

  lemma {:induction false} WriteLinesConcat(a: seq<bytes>, b: seq<bytes>)
    ensures WriteLines(a + b) == WriteLines(a) + WriteLines(b)
  {
    if a == [] {
      assert a + b == b;
    } else {
      WriteLinesConcat(a[1..], b);
      assert (a + b)[1..] == a[1..] + b;
      Reassociate(a[0], CRLF, WriteLines(a[1..]), WriteLines(b));
    }
  }

  lemma OneLine(line: bytes)
    ensures WriteLines([line]) == line + CRLF
  {
    assert WriteLines([line][1..]) == [];
  }

  lemma Reassociate(a: bytes, b: bytes, c: bytes, d: bytes)
    ensures a + b + (c + d) == a + b + c + d
  {
  }

  /** A block starts as its first line does. */
  lemma BlockStart(lines: seq<bytes>)
    requires lines != [] && AllPlain(lines)
    ensures Block(lines) != [] && Block(lines)[0] != CR
  {
    assert Plain(lines[0]);
  }

  /** The end of a line is found behind it. */
  lemma FindCrlfAfter(line: bytes, rest: bytes)
    requires NoCrlf(line)
    ensures FindCrlf(line) == |line| && FindCrlf(line + CRLF + rest) == |line|
  {
    hide FindCrlf;
    var s := line + CRLF + rest;
    assert CrlfAt(s, |line|);
    forall i: nat | i < |line|
      ensures !CrlfAt(s, i) && !CrlfAt(line, i)
    {
      CrlfBefore(line, rest, i);
    }
  }

  lemma CrlfBefore(line: bytes, rest: bytes, i: nat)
    requires i < |line|
    ensures CrlfAt(line + CRLF + rest, i) ==> CrlfAt(line, i)
  {
    var s := line + CRLF + rest;
    assert s[i] == line[i] && s[i + 1] == if i + 1 < |line| then line[i + 1] else CR;
  }

  /** The lines of a block are those that it was made of. */
  lemma {:induction false} LinesOfBlock(lines: seq<bytes>)
    requires lines != [] && AllPlain(lines)
    ensures Lines(Block(lines)) == lines
  {
    hide Lines, FindCrlf;
    assert Plain(lines[0]);
    LinesUnfold(Block(lines));
    if |lines| == 1 {
      FindCrlfAfter(lines[0], []);
      assert lines == [lines[0]];
    } else {
      var rest := Block(lines[1..]);
      FindCrlfAfter(lines[0], rest);
      SplitLine(lines[0], rest);
      LinesOfBlock(lines[1..]);
      assert lines == [lines[0]] + lines[1..];
    }
  }

  lemma SplitLine(line: bytes, rest: bytes)
    ensures var s := line + CRLF + rest; |s| > |line| && s[..|line|] == line && s[|line| + 2..] == rest
  {
  }

  /** The head ends behind its last line and nowhere before. */
  lemma {:induction false} HeadEndOfBlock(lines: seq<bytes>, more: bytes)
    requires lines != [] && AllPlain(lines)
    ensures IsHeadEnd(Block(lines) + HEAD_END + more, |Block(lines)|)
  {
    assert Plain(lines[0]);
    if |lines| == 1 {
      HeadEndOfLine(lines[0], more);
    } else {
      var rest := Block(lines[1..]) + HEAD_END + more;
      BlockStart(lines[1..]);
      HeadEndOfBlock(lines[1..], more);
      HeadEndShift(lines[0], rest, |Block(lines[1..])|);
      assert Block(lines) + HEAD_END + more == lines[0] + CRLF + rest;
    }
  }

  lemma HeadEndOfLine(line: bytes, more: bytes)
    requires NoCrlf(line)
    ensures IsHeadEnd(line + HEAD_END + more, |line|)
  {
    var s := line + HEAD_END + more;
    assert s == line + CRLF + (CRLF + more);
    forall i: nat | i < |line|
      ensures !HeadEndAt(s, i)
    {
      CrlfBefore(line, CRLF + more, i);
    }
  }

  /** There is a head end behind a first line exactly where there is one in the rest. */
  lemma HeadEndBehind(line: bytes, rest: bytes, i: nat)
    requires NoCrlf(line) && rest != [] && rest[0] != CR
    ensures HeadEndAt(line + CRLF + rest, i) <==> |line| + 2 <= i && HeadEndAt(rest, i - (|line| + 2))
  {
    var s, k := line + CRLF + rest, |line| + 2;
    assert s[k..] == rest && s[k] == rest[0] && s[|line| + 1] == LF;
    if i < |line| {
      CrlfBefore(line, rest, i);
    } else if k <= i && i + 4 <= |s| {
      assert forall j :: i <= j < i + 4 ==> s[j] == s[k..][j - k];
    }
  }

  lemma HeadEndShift(line: bytes, rest: bytes, e: nat)
    requires NoCrlf(line) && rest != [] && rest[0] != CR && IsHeadEnd(rest, e)
    ensures IsHeadEnd(line + CRLF + rest, |line| + 2 + e)
  {
    hide HeadEndAt, NoCrlf;
    forall i: nat | i <= |line| + 2 + e
      ensures HeadEndAt(line + CRLF + rest, i) <==> |line| + 2 <= i && HeadEndAt(rest, i - (|line| + 2))
    {
      HeadEndBehind(line, rest, i);
    }
  }

  // ---- what is made of the lines ----

  lemma FindByteIn(a: bytes, c: byte, b: bytes)
    requires c !in a
    ensures FindByte(a + [c] + b, c) == |a| && FindByte(a, c) == |a|
  {
    var s := a + [c] + b;
    assert s[|a|] == c;
    assert forall i :: 0 <= i < |a| ==> s[i] == a[i] && a[i] in a;
  }

  lemma HeaderLineHasColon(h: Header)
    ensures FindByte(HeaderLine(h), COLON) < |HeaderLine(h)|
  {
    assert HeaderLine(h)[|h.name|] == COLON;
  }

  /** A header as it comes out at the other end. */
  function Reread(h: Header): Header {
    HeaderLineHasColon(h);
    HeaderOfLine(HeaderLine(h)).value
  }

  lemma HeaderOfJoined(name: bytes, rest: bytes)
    requires COLON !in name
    ensures HeaderOfLine(name + [COLON] + rest) == Some(Header(name, SkipSpaces(rest)))
  {
    FindByteIn(name, COLON, rest);
    var line := name + [COLON] + rest;
    assert line[..|name|] == name && line[|name| + 1..] == rest;
  }

  lemma SkipOneSpace(s: bytes)
    ensures SkipSpaces([SPACE] + s) == SkipSpaces(s)
  {
    assert ([SPACE] + s)[1..] == s;
  }

  /** A name without a colon comes out whole, and the value without the spaces in front. */
  lemma RereadWithoutColon(h: Header)
    requires COLON !in h.name
    ensures Reread(h) == Header(h.name, SkipSpaces(h.value))
  {
    hide HeaderOfLine, SkipSpaces, FindByte;
    HeaderOfJoined(h.name, [SPACE] + h.value);
    SkipOneSpace(h.value);
    assert HeaderLine(h) == h.name + [COLON] + ([SPACE] + h.value);
  }

  lemma RereadWithColon(h: Header)
    requires COLON in h.name
    ensures Reread(h) != h
  {
    var line := HeaderLine(h);
    var i :| 0 <= i < |h.name| && h.name[i] == COLON;
    assert line[i] == COLON && FindByte(line, COLON) <= i;
  }

  /** A header comes out as it went in exactly if its name has no colon and its value no space in front. */
  lemma RereadExact(h: Header)
    ensures Reread(h) == h <==> COLON !in h.name && (h.value == [] || h.value[0] != SPACE)
  {
    hide Reread;
    if COLON in h.name {
      RereadWithColon(h);
    } else if h.value == [] || h.value[0] != SPACE {
      assert SkipSpaces(h.value) == h.value;
      RereadWithoutColon(h);
    } else {
      RereadWithoutColon(h);
    }
  }

  function RereadAll(hs: seq<Header>): seq<Header> {
    seq(|hs|, i requires 0 <= i < |hs| => Reread(hs[i]))
  }

  /** A header whose line stays a line. */
  ghost predicate PlainHeader(h: Header) {
    Plain(HeaderLine(h))
  }

  /** It is enough that name and value hold neither CR nor NUL, and that the name does not start with LF. */
  lemma PlainHeaderWithoutCr(h: Header)
    requires CR !in h.name && NulFree(h.name) && CR !in h.value && NulFree(h.value)
    requires h.name == [] || h.name[0] != LF
    ensures PlainHeader(h)
  {
    PlainWithoutCr(HeaderLine(h));
  }

  ghost function LengthAfter(length: int, hs: seq<Header>): int
    decreases |hs|
  {
    if hs == [] then length else LengthAfter(LengthWith(length, hs[0]), hs[1..])
  }

  /** Reading header lines sets the headers one after another. */
  lemma {:induction false} ReadHeaderLines(start: bytes -> Option<Start>, head: Head, hs: seq<Header>)
    requires head.start.Some?
    ensures ReadLines(start, head, HeaderLines(hs))
         == Some(Head(head.start, SetHeaders(head.headers, RereadAll(hs)), LengthAfter(head.length, RereadAll(hs))))
    decreases |hs|
  {
    hide ReadLine, Reread, LengthWith, SetHeader;
    if hs == [] {
    } else {
      var lines := HeaderLines(hs);
      ReadHeaderLine(start, head, hs[0]);
      ReadHeaderLines(start, WithHeader(head, Reread(hs[0])), hs[1..]);
      assert lines[0] == HeaderLine(hs[0]) && lines[1..] == HeaderLines(hs[1..]);
      assert RereadAll(hs)[0] == Reread(hs[0]) && RereadAll(hs)[1..] == RereadAll(hs[1..]);
    }
  }

  lemma ReadHeaderLine(start: bytes -> Option<Start>, head: Head, h: Header)
    requires head.start.Some?
    ensures ReadLine(start, head, HeaderLine(h)) == Some(WithHeader(head, Reread(h)))
  {
    HeaderLineHasColon(h);
  }

  lemma {:induction false} LengthAfterConcat(length: int, a: seq<Header>, b: seq<Header>)
    ensures LengthAfter(length, a + b) == LengthAfter(LengthAfter(length, a), b)
    decreases |a|
  {
    if a == [] {
      assert a + b == b;
    } else {
      LengthAfterConcat(LengthWith(length, a[0]), a[1..], b);
      assert (a + b)[1..] == a[1..] + b;
    }
  }

  lemma AtolOfDigits(n: nat)
    ensures Atol(DigitsText(n)) == n
  {
    DigitsOfNumber(n);
    var t := DigitsText(n);
    DigitRunOver(t, []);
    assert t + [] == t && t[..|t|] == t;
    assert IsDigit(t[0]);
    assert SkipBlanks(t) == t;
  }

  lemma {:induction false} DigitsPlain(n: nat)
    ensures CR !in DigitsText(n) && NulFree(DigitsText(n)) && DigitsText(n)[0] != SPACE && SPACE !in DigitsText(n)
  {
    DigitsOfNumber(n);
    var t := DigitsText(n);
    forall i | 0 <= i < |t|
      ensures IsDigit(t[i]) && t[i] != CR && t[i] != 0 && t[i] != SPACE
    {
    }
  }

  // ---- whole messages ----

  /** Every header of a message, in order. */
  function AllHeaders(before: seq<Header>, hs: seq<Header>, size: nat): seq<Header> {
    before + hs + ClosingHeaders(size)
  }

  /** The header table that comes out at the other end. */
  ghost function TableOf(before: seq<Header>, hs: seq<Header>, size: nat): seq<Header> {
    SetHeaders([], RereadAll(AllHeaders(before, hs, size)))
  }

  /** The writer's own headers come out as they went in. */
  lemma ClosingRereads(size: nat)
    ensures RereadAll(ClosingHeaders(size)) == ClosingHeaders(size)
  {
    hide Reread;
    DigitsPlain(size);
    RereadExact(Header(CONTENT_LENGTH, DigitsText(size)));
    RereadExact(Header(CONNECTION, CLOSE));
  }

  /** They come last, so the length that is read is that of the body, whatever headers the caller set. */
  lemma ClosingLength(length: int, size: nat)
    ensures LengthAfter(length, ClosingHeaders(size)) == size
  {
    hide Atol, DigitsText;
    AtolOfDigits(size);
    var hs := ClosingHeaders(size);
    assert |CONNECTION| != |CONTENT_LENGTH|;
    assert LengthAfter(size, hs[1..]) == size;
  }

  lemma ClosingPlain(size: nat)
    ensures forall h :: h in ClosingHeaders(size) ==> PlainHeader(h)
  {
    hide DigitsText, PlainHeader;
    DigitsPlain(size);
    WordsPlain();
    PlainHeaderWithoutCr(Header(CONTENT_LENGTH, DigitsText(size)));
    PlainHeaderWithoutCr(Header(CONNECTION, CLOSE));
  }

  /** Sizes are those of a `size_t` of 64 bits. */
  const SIZE_LIMIT: nat := 0x1_0000_0000_0000_0000

  /** The end of the head always fits the buffer it is formatted into. */
  lemma ClosingFits(size: nat)
    requires size < SIZE_LIMIT
    ensures Closing(size) == WriteLines(HeaderLines(ClosingHeaders(size))) + CRLF
  {
    hide DigitsText;
    SizeDigits(size);
    var hs := ClosingHeaders(size);
    var lines := HeaderLines(hs);
    assert lines == [HeaderLine(hs[0])] + [HeaderLine(hs[1])];
    WriteLinesConcat([lines[0]], [lines[1]]);
    OneLine(lines[0]);
    OneLine(lines[1]);
  }

  lemma WordsPlain()
    ensures CR !in CONTENT_LENGTH && NulFree(CONTENT_LENGTH) && CR !in CONNECTION && NulFree(CONNECTION)
    ensures CR !in CLOSE && NulFree(CLOSE)
  {
  }

  /** The lines of a message head. */
  function HeadLines(first: bytes, all: seq<Header>): seq<bytes> {
    [first] + HeaderLines(all)
  }

  lemma HeadLinesPlain(first: bytes, all: seq<Header>)
    requires Plain(first) && forall h :: h in all ==> PlainHeader(h)
    ensures AllPlain(HeadLines(first, all))
  {
    var lines := HeadLines(first, all);
    forall i | 0 <= i < |lines|
      ensures Plain(lines[i])
    {
      assert i > 0 ==> all[i - 1] in all;
    }
  }

  lemma {:induction false} BlockNulFree(lines: seq<bytes>)
    requires lines != [] && AllPlain(lines)
    ensures NulFree(Block(lines))
  {
    assert Plain(lines[0]);
    if |lines| == 1 {
    } else {
      BlockNulFree(lines[1..]);
    }
  }

  /**
   What a reader makes of a head of plain lines. It refuses exactly those whose first
   line it cannot read, or whose last Content-Length reads as -2.
   */
  lemma HeadReads(start: bytes -> Option<Start>, first: bytes, all: seq<Header>)
    requires Plain(first) && forall h :: h in all ==> PlainHeader(h)
    ensures ReadHead(start, Block(HeadLines(first, all)))
         == match start(first)
            case None => None
            case Some(x) =>
              var length := LengthAfter(NO_LENGTH, RereadAll(all));
              if length == BAD_START then None else Some(Head(Some(x), SetHeaders([], RereadAll(all)), length))
  {
    hide Block, LengthAfter, RereadAll, SetHeaders, HeaderLines, Plain;
    var lines := HeadLines(first, all);
    HeadLinesPlain(first, all);
    BlockNulFree(lines);
    UpToNulOfNulFree(Block(lines));
    LinesOfBlock(lines);
    assert lines[1..] == HeaderLines(all);
    FirstLine(start, first);
    if start(first).Some? {
      ReadHeaderLines(start, Head(start(first), [], NO_LENGTH), all);
    }
  }

  lemma FirstLine(start: bytes -> Option<Start>, first: bytes)
    requires Plain(first)
    ensures ReadLine(start, NOTHING, first)
         == match start(first)
            case None => None
            case Some(x) => Some(Head(Some(x), [], NO_LENGTH))
  {
  }

  /** A first line and headers, written out, are the block of their lines and its last line end. */
  lemma MessageShape(first: bytes, all: seq<Header>, body: bytes)
    ensures WriteLines([first] + HeaderLines(all)) + CRLF + body == Block(HeadLines(first, all)) + HEAD_END + body
  {
    hide WriteLines;
    WriteLinesAsBlock(HeadLines(first, all));
    assert Block(HeadLines(first, all)) + CRLF + CRLF == Block(HeadLines(first, all)) + HEAD_END;
  }

  lemma HeaderLinesConcat(a: seq<Header>, b: seq<Header>)
    ensures HeaderLines(a + b) == HeaderLines(a) + HeaderLines(b)
  {
  }

  lemma RereadAllConcat(a: seq<Header>, b: seq<Header>)
    ensures RereadAll(a + b) == RereadAll(a) + RereadAll(b)
  {
  }

  /** Whatever the caller's headers say, the length of the body is what is read. */
  lemma LengthOfAll(before: seq<Header>, hs: seq<Header>, size: nat)
    ensures LengthAfter(NO_LENGTH, RereadAll(AllHeaders(before, hs, size))) == size
  {
    hide LengthAfter, Reread, ClosingHeaders;
    RereadAllConcat(before + hs, ClosingHeaders(size));
    ClosingRereads(size);
    LengthAfterConcat(NO_LENGTH, RereadAll(before + hs), ClosingHeaders(size));
    ClosingLength(LengthAfter(NO_LENGTH, RereadAll(before + hs)), size);
  }

  /** What the reader makes of a message whose lines are plain. */
  lemma MessageReads(start: bytes -> Option<Start>, first: bytes, all: seq<Header>, body: bytes)
    requires Plain(first) && (forall h :: h in all ==> PlainHeader(h))
    ensures var block := Block(HeadLines(first, all));
            && IsHeadEnd(block + HEAD_END + body, |block|)
            && ReadHead(start, block)
               == match start(first)
                  case None => None
                  case Some(x) =>
                    var length := LengthAfter(NO_LENGTH, RereadAll(all));
                    if length == BAD_START then None else Some(Head(Some(x), SetHeaders([], RereadAll(all)), length))
  {
    hide PlainHeader, Plain, LengthAfter, RereadAll, SetHeaders, HeaderLines, IsHeadEnd, ReadHead, Block;
    HeadLinesPlain(first, all);
    HeadEndOfBlock(HeadLines(first, all), body);
    HeadReads(start, first, all);
  }

  /** A header that comes out as it went in. */
  ghost predicate Faithful(h: Header) {
    COLON !in h.name && (h.value == [] || h.value[0] != SPACE)
  }

  /**
   With such headers the table holds, for every name in whatever case, the value
   last written for it; and so the caller's own table comes back under its names.
   */
  lemma TableReads(before: seq<Header>, hs: seq<Header>, size: nat, n: bytes)
    requires (forall h :: h in before ==> Faithful(h)) && forall h :: h in hs ==> Faithful(h)
    ensures TableOf(before, hs, size) == SetHeaders([], AllHeaders(before, hs, size))
    ensures GetHeader(TableOf(before, hs, size), n) == LastValue(AllHeaders(before, hs, size), n)
    ensures NamesDiffer(TableOf(before, hs, size))
  {
    hide Reread, ClosingHeaders;
    var all := AllHeaders(before, hs, size);
    RereadAllConcat(before + hs, ClosingHeaders(size));
    ClosingRereads(size);
    forall h | h in before + hs
      ensures Reread(h) == h
    {
      RereadExact(h);
    }
    assert RereadAll(before + hs) == before + hs;
    TableMeaning(all, n);
  }
}
