/** Messages sent and received over a connection. */
module HttpExchange {
  import opened Bytes
  import opened HttpText
  import opened HttpHead
  import opened HttpHeaders
  import opened HttpLines
  import opened HttpMessage
  import opened HttpRequest
  import opened HttpResponse
  import opened HttpSocket
  import opened HttpWire
  import opened Numerals

  /** A request or a response: its start, its header table and its body. */
  class Message {
    var start: Start
    const headers: HeaderTable
    var body: bytes

    constructor (start: Start, headers: HeaderTable, body: bytes)
      ensures this.start == start && this.headers == headers && this.body == body
    {
      this.start, this.headers, this.body := start, headers, body;
    }
  }

  /** The lines of a header table. */
  method WriteHeaders(table: HeaderTable) returns (text: bytes)
    requires table.Valid()
    ensures text == WriteLines(HeaderLines(table.Contents()))
  {
    hide WriteLines;
    var hs := table.pairs[..table.count];
    text := [];
    NoLines();
    for i := 0 to |hs|
      invariant text == WriteLines(HeaderLines(hs[..i]))
    {
      OneMoreLine(hs, i);
      text := text + HeaderLine(hs[i]) + CRLF;
    }
    assert hs[..|hs|] == hs;
  }

  lemma NoLines()
    ensures WriteLines(HeaderLines([])) == []
  {
  }

  lemma OneMoreLine(hs: seq<Header>, i: nat)
    requires i < |hs|
    ensures WriteLines(HeaderLines(hs[..i + 1])) == WriteLines(HeaderLines(hs[..i])) + HeaderLine(hs[i]) + CRLF
  {
    hide WriteLines, HeaderLine;
    OneLine(HeaderLine(hs[i]));
    WriteLinesConcat(HeaderLines(hs[..i]), [HeaderLine(hs[i])]);
    assert HeaderLines(hs[..i + 1]) == HeaderLines(hs[..i]) + [HeaderLine(hs[i])];
  }

  /** Sends a request; with a connection that holds, all of it. */
  method SendRequest(sock: Socket, req: Message, host: bytes) returns (ok: bool)
    requires req.start.RequestStart? && req.headers.Valid()
    modifies sock`sent, sock`room
    ensures var text := RequestText(req.start.verb, req.start.path, host, req.headers.Contents(), req.body);
            (ok <==> |text| <= old(sock.room)) &&
            sock.sent == old(sock.sent) + if ok then text else text[..old(sock.room)]
  {
    hide RequestLine, HeaderLine, WriteLines, Closing;
    var lines := WriteHeaders(req.headers);
    var out := Clip(RequestLine(req.start.verb, req.start.path) + CRLF);
    out := out + Clip(HeaderLine(HostHeader(host)) + CRLF);
    out := out + lines;
    out := out + Closing(|req.body|);
    if |req.body| > 0 {
      out := out + req.body;
    }
    ok := SendAll(sock, out);
  }

  method SendResponse(sock: Socket, resp: Message) returns (ok: bool)
    requires resp.start.ResponseStart? && resp.headers.Valid()
    modifies sock`sent, sock`room
    ensures var text := ResponseText(resp.start.status, resp.headers.Contents(), resp.body);
            (ok <==> |text| <= old(sock.room)) &&
            sock.sent == old(sock.sent) + if ok then text else text[..old(sock.room)]
  {
    hide StatusLine, HeaderLine, WriteLines, Closing;
    var lines := WriteHeaders(resp.headers);
    var out := Clip(StatusLine(resp.start.status) + CRLF);
    out := out + lines;
    out := out + Closing(|resp.body|);
    if |resp.body| > 0 {
      out := out + resp.body;
    }
    ok := SendAll(sock, out);
  }

  /**
   What a message is read as, of the text of its head and what comes behind. Without
   memory for all the headers, some of them may be missing.
   */
  ghost predicate Makes(kind: Kind, text: bytes, behind: bytes, r: Option<Message>, plenty: bool)
    requires r.Some? ==> r.value.headers.Valid()
    reads if r.Some? then {r.value, r.value.headers, r.value.headers.pairs} else {}
  {
    match ReadHead(StartOf(kind), text)
    case None => r == None
    case Some(head) =>
      && r.Some? && head.start == Some(r.value.start)
      && (if plenty then r.value.headers.Contents() == head.headers
          else SetsSome(r.value.headers.Contents(), HeadersIn(Lines(UpToNul(text)), false)))
      && r.value.body == BodyOf(head.length, behind)
  }

  /** The same of a stream whose head ends at `e`. */
  ghost predicate ReadAs(kind: Kind, stream: bytes, e: nat, r: Option<Message>, plenty: bool)
    requires IsHeadEnd(stream, e)
    requires r.Some? ==> r.value.headers.Valid()
    reads if r.Some? then {r.value, r.value.headers, r.value.headers.pairs} else {}
  {
    Makes(kind, stream[..e], stream[e + 4..], r, plenty)
  }

  /** A table that some of the headers make, set one after another. */
  ghost predicate SetsSome(table: seq<Header>, all: seq<Header>) {
    exists kept :: SomeOf(kept, all) && table == SetHeaders([], kept)
  }

  /** Whether there is memory for every header. */
  ghost predicate Plenty(supply: nat -> Memory) {
    forall n :: supply(n) == PLENTY
  }

  /** Reads a head that has come, and the body, of which some may have come with it. */
  method ReadMessage(kind: Kind, text: bytes, prefix: bytes, sock: Socket, supply: nat -> Memory)
    returns (r: Option<Message>)
    modifies sock`pending
    ensures r.Some? ==> fresh(r.value) && fresh(r.value.headers) && r.value.headers.Valid()
    ensures Makes(kind, text, prefix + old(sock.pending), r, Plenty(supply))
  {
    hide ReadHead, StartOf, BodyOf, HeaderTable.Valid, HeaderTable.Contents, SetHeaders, HeadersIn, SomeOf;
    var table := new HeaderTable();
    var head, kept := ParseHead(kind, text, table, supply);
    if head.None? {
      return None;
    }
    assert SetsSome(table.Contents(), HeadersIn(Lines(UpToNul(text)), false));
    var body := ReadBody(sock, head.value.1, prefix);
    var message := new Message(head.value.0, table, body);
    r := Some(message);
  }

  /** Receives a message, however the stream is cut into pieces. */
  method ReceiveMessage(kind: Kind, sock: Socket, supply: nat -> Memory) returns (r: Option<Message>)
    modifies sock`pending
    ensures r.Some? ==> fresh(r.value) && fresh(r.value.headers) && r.value.headers.Valid()
    ensures r.Some? ==> exists e: nat :: IsHeadEnd(old(sock.pending), e) && e + 4 <= MAX_HEADER_SIZE + CHUNK
                                         && ReadAs(kind, old(sock.pending), e, r, Plenty(supply))
    ensures forall e: nat :: IsHeadEnd(old(sock.pending), e) && e + 4 <= MAX_HEADER_SIZE + 1 ==>
                               ReadAs(kind, old(sock.pending), e, r, Plenty(supply))
    ensures !HasHeadEnd(old(sock.pending)) ==> r == None
  {
    hide Makes, HeadEndAt, HeaderTable.Valid, HeaderTable.Contents;
    ghost var stream := sock.pending;
    var raw, end, pieces := ReadUntilHeadersEnd(sock);
    if end.None? {
      return None;
    }
    var e := end.value;
    HeadEndFits(raw, e);
    assert stream[..e] == raw[..e] && stream[e + 4..] == raw[e + 4..] + sock.pending;
    r := ReadMessage(kind, raw[..e], raw[e + 4..], sock, supply);
    forall f: nat | IsHeadEnd(stream, f)
      ensures f == e
    {
      HeadEndUnique(stream, e, f);
    }
  }

  /** What the connection, the headers and the size of a request have to be for it to be carried whole. */
  ghost predicate Carried(req: Message, host: bytes, client: Socket)
    requires req.start.RequestStart? && req.headers.Valid()
    reads req, req.headers, req.headers.pairs, client
  {
    var verb, path, hs := req.start.verb, req.start.path, req.headers.Contents();
    && client.sent == [] && |req.body| < SIZE_LIMIT && Sendable(path, host, hs)
    && |RequestText(verb, path, host, hs, req.body)| <= client.room
    && |RequestBlock(verb, path, host, hs, |req.body|)| + 4 <= MAX_HEADER_SIZE + 1
  }

  lemma RequestOnWire(m: Method, path: bytes, host: bytes, hs: seq<Header>, body: bytes)
    returns (block: bytes, head: Head)
    requires Sendable(path, host, hs) && |body| < SIZE_LIMIT
    ensures |block| == |RequestBlock(m, path, host, hs, |body|)| && head == HeadOut(m, path, host, hs, |body|)
    ensures RequestText(m, path, host, hs, body) == block + HEAD_END + body
    ensures IsHeadEnd(block + HEAD_END + body, |block|)
    ensures ReadHead(StartOf(Requests), block) == Some(head)
    ensures head.length == if hs == [] && !Fits(HeaderLine(HostHeader(host))) then NO_LENGTH else |body|
  {
    block, head := RequestBlock(m, path, host, hs, |body|), HeadOut(m, path, host, hs, |body|);
    hide Sendable, RequestText, RequestBlock, IsHeadEnd, ReadHead, ReadRequestStart, HeaderLine;
    RequestReads(m, path, host, hs, body);
  }

  /**
   A request over a connection: whatever pieces it is sent and received in, it comes
   out as its written text reads, also when its first two lines are cut off.
   */
  method RequestOverWire(req: Message, host: bytes, client: Socket, server: Socket, more: bytes)
    returns (r: Option<Message>)
    requires client != server && req.start.RequestStart? && req.headers.Valid() && Carried(req, host, client)
    modifies client, server
    ensures r.Some? && r.value.headers.Valid()
    ensures var head := HeadOut(req.start.verb, req.start.path, host, old(req.headers.Contents()), |req.body|);
            && head.start == Some(r.value.start) && r.value.headers.Contents() == head.headers
            && r.value.body == if old(req.headers.Contents()) == [] && !Fits(HeaderLine(HostHeader(host))) then []
                               else req.body
  {
    hide Sendable, RequestText, HeadOut, IsHeadEnd, ReadHead, ReadRequestStart, BodyOf;
    hide RequestBlock, HeaderLine, HeaderTable.Valid, HeaderTable.Contents;
    ghost var block, head := RequestOnWire(req.start.verb, req.start.path, host, req.headers.Contents(), req.body);
    ghost var stream := block + HEAD_END + req.body + more;
    StreamOfRequest(block, req.body, more, head.length);
    var ok := SendRequest(client, req, host);
    assert client.sent == block + HEAD_END + req.body;
    server.pending := client.sent + more;
    r := ReceiveMessage(Requests, server, _ => PLENTY);
    assert ReadAs(Requests, stream, |block|, r, true);
  }

  lemma StreamOfRequest(block: bytes, body: bytes, more: bytes, length: int)
    requires IsHeadEnd(block + HEAD_END + body, |block|) && (length == |body| || length == NO_LENGTH)
    ensures var stream := block + HEAD_END + body + more;
            && IsHeadEnd(stream, |block|) && stream[..|block|] == block
            && BodyOf(length, stream[|block| + 4..]) == if length == |body| then body else []
  {
    hide IsHeadEnd, BodyOf;
    StreamOfMessage(block, body, more);
  }

  /**
   A request whose first two lines fit their buffer comes out with its method and its
   body, its path up to the first space, and the table that its headers set one after
   another make.
   */
  method FittingRequestOverWire(req: Message, host: bytes, client: Socket, server: Socket, more: bytes)
    returns (r: Option<Message>)
    requires client != server && req.start.RequestStart? && req.headers.Valid() && Carried(req, host, client)
    requires Fits(RequestLine(req.start.verb, req.start.path)) && Fits(HeaderLine(HostHeader(host)))
    modifies client, server
    ensures r.Some? && r.value.headers.Valid()
    ensures var path := req.start.path;
            && r.value.start == RequestStart(req.start.verb, path[..FindByte(path, SPACE)])
            && r.value.headers.Contents() == TableOf([HostHeader(host)], old(req.headers.Contents()), |req.body|)
            && r.value.body == req.body
  {
    hide Carried, HeadOut, TableOf, FindByte, RequestLine, HeaderLine, HeaderTable.Valid, HeaderTable.Contents;
    RequestReadsFitting(req.start.verb, req.start.path, host, req.headers.Contents(), |req.body|);
    r := RequestOverWire(req, host, client, server, more);
  }

  /** A response over a connection comes out whole if its status is positive, and not at all if not. */
  method ResponseOverWire(resp: Message, server: Socket, client: Socket, more: bytes) returns (r: Option<Message>)
    requires client != server && server.sent == []
    requires resp.start.ResponseStart? && IsStatus(resp.start.status) && |resp.body| < SIZE_LIMIT
    requires resp.headers.Valid() && forall h :: h in resp.headers.Contents() ==> PlainHeader(h)
    requires |ResponseText(resp.start.status, resp.headers.Contents(), resp.body)| <= server.room
    requires |ResponseBlock(resp.start.status, resp.headers.Contents(), |resp.body|)| + 4 <= MAX_HEADER_SIZE + 1
    modifies client, server
    ensures r.Some? <==> resp.start.status > 0
    ensures r.Some? ==>
              && r.value.headers.Valid() && r.value.start == resp.start
              && r.value.headers.Contents() == TableOf([], old(resp.headers.Contents()), |resp.body|)
              && r.value.body == resp.body
  {
    hide PlainHeader, ResponseText, ResponseBlock, TableOf, IsHeadEnd, ReadHead, ReadResponseStart;
    hide HeaderTable.Valid, HeaderTable.Contents;
    ghost var status, hs := resp.start.status, resp.headers.Contents();
    ghost var block := ResponseBlock(status, hs, |resp.body|);
    ResponseReads(status, hs, resp.body);
    StreamOfMessage(block, resp.body, more);
    var ok := SendResponse(server, resp);
    assert server.sent == block + HEAD_END + resp.body;
    client.pending := server.sent + more;
    ghost var stream := client.pending;
    r := ReceiveMessage(Responses, client, _ => PLENTY);
    assert ReadAs(Responses, stream, |block|, r, true);
  }

  /** What a stream holds that starts with a whole message. */
  lemma StreamOfMessage(block: bytes, body: bytes, more: bytes)
    requires IsHeadEnd(block + HEAD_END + body, |block|)
    ensures var stream := block + HEAD_END + body + more;
            && IsHeadEnd(stream, |block|) && stream[..|block|] == block
            && BodyOf(|body|, stream[|block| + 4..]) == body && BodyOf(NO_LENGTH, stream[|block| + 4..]) == []
  {
    HeadEndStays(block + HEAD_END + body, more, |block|);
    var stream := block + HEAD_END + body + more;
    assert stream[|block| + 4..] == body + more;
    assert (body + more)[..|body|] == body;
  }

  /** A stream that starts with the bytes of a head, an empty line, and a body of the length that the head gives. */
  ghost predicate IsStream(stream: bytes, kind: Kind, first: bytes, all: seq<Header>, body: bytes) {
    && IsLine(first) && StartOf(kind)(first).Some? && (forall h :: h in all ==> IsHeader(h))
    && LengthAfter(-1, all) == |body|
    && exists more :: stream == HeadBytes(first, all) + [0x0D, 0x0A, 0x0D, 0x0A] + body + more
  }

  lemma StreamMakes(stream: bytes, kind: Kind, first: bytes, all: seq<Header>, body: bytes)
    requires IsStream(stream, kind, first, all, body)
    ensures var e := |HeadBytes(first, all)|;
            && IsHeadEnd(stream, e) && BodyOf(|body|, stream[e + 4..]) == body
            && ReadHead(StartOf(kind), stream[..e]) == Some(Head(StartOf(kind)(first), SetHeaders([], all), |body|))
  {
    hide ReadHead, SetHeaders, LengthAfter, IsHeadEnd, IsLine, HeadBytes, StartOf, BodyOf, IsHeader, Plain, Block;
    var text := HeadBytes(first, all);
    var more :| stream == text + [0x0D, 0x0A, 0x0D, 0x0A] + body + more;
    HeadExact(StartOf(kind), first, all);
    HeadsArePlain(first, all);
    HeadIsBlock(first, all);
    HeadEndOfBlock(HeadLines(first, all), body);
    assert text + HEAD_END + body + more == stream;
    StreamOfMessage(text, body, more);
  }

  lemma HeadsArePlain(first: bytes, all: seq<Header>)
    requires IsLine(first) && forall h :: h in all ==> IsHeader(h)
    ensures AllPlain(HeadLines(first, all))
  {
    hide Plain, IsLine, HeaderLine;
    LineIsPlain(first);
    forall h | h in all
      ensures PlainHeader(h)
    {
      LineBytes(h);
      LineIsPlain(h.name + [0x3A, 0x20] + h.value);
    }
    HeadLinesPlain(first, all);
  }

  /**
   A message given by its bytes, with a `Content-Length` in whatever mixture of cases: it is
   received with its first line, its headers, and the bytes that it says as its body.
   */
  method ReceiveBytes(kind: Kind, sock: Socket, ghost first: bytes, ghost hs: seq<Header>, ghost h: Header,
                      ghost others: seq<Header>, ghost body: bytes)
    returns (r: Option<Message>)
    requires IsLengthName(h.name) && h.value != [] && AllDigitsOf(10, h.value) && Worth(10, h.value) == |body|
    requires forall i :: 0 <= i < |others| ==> !IsLengthName(others[i].name)
    requires IsLine(first) && StartOf(kind)(first).Some? && forall x :: x in hs + [h] + others ==> IsHeader(x)
    requires HeadBytes(first, hs + [h] + others) + [0x0D, 0x0A, 0x0D, 0x0A] + body <= sock.pending
    requires |HeadBytes(first, hs + [h] + others)| + 4 <= 65_537
    modifies sock`pending
    ensures r.Some? && r.value.headers.Valid() && StartOf(kind)(first) == Some(r.value.start)
    ensures r.value.headers.Contents() == SetHeaders([], hs + [h] + others) && r.value.body == body
  {
    hide ReadHead, SetHeaders, IsHeadEnd, IsLine, HeadBytes, StartOf, BodyOf, IsHeader, IsLengthName, Worth;
    hide AllDigitsOf, HeaderTable.Valid, HeaderTable.Contents;
    ghost var all, stream := hs + [h] + others, sock.pending;
    LastLengthReads(-1, hs, h, others);
    ghost var message := HeadBytes(first, all) + [0x0D, 0x0A, 0x0D, 0x0A] + body;
    assert stream == message + stream[|message|..];
    StreamMakes(stream, kind, first, all, body);
    r := ReceiveMessage(kind, sock, _ => PLENTY);
    assert ReadAs(kind, stream, |HeadBytes(first, all)|, r, true);
  }
}
