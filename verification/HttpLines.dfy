/**
 The in-place reader of a message head. It works on a copy of the head with a
 zero byte behind it, and cuts lines, names and values off by writing zero bytes.
 */
module HttpLines {
  import opened Bytes
  import opened HttpText
  import opened HttpHead
  import opened HttpHeaders

  /** Whether requests or responses are read. */
  datatype Kind = Requests | Responses

  function StartOf(kind: Kind): bytes -> Option<Start> {
    match kind
    case Requests => ReadRequestStart
    case Responses => ReadResponseStart
  }

  ghost predicate Terminated(a: array<byte>)
    reads a
  {
    a.Length > 0 && a[a.Length - 1] == 0
  }

  /** The C string that starts at `p`. */
  function CString(a: array<byte>, p: nat): (s: bytes)
    requires p < a.Length
    reads a
  {
    UpToNul(a[p..])
  }

  /** A C string ends at the first zero byte behind its start. */
  lemma CStringEnds(a: array<byte>, p: nat, s: bytes)
    requires Terminated(a) && p + |s| < a.Length && NulFree(s)
    requires a[p..p + |s|] == s && a[p + |s|] == 0
    ensures CString(a, p) == s
  {
    assert a[p..] == s + [0] + a[p + |s| + 1..];
    UpToNulTerminated(s, a[p + |s| + 1..]);
  }

  lemma CStringBounds(a: array<byte>, p: nat)
    requires Terminated(a) && p < a.Length
    ensures var s := CString(a, p);
            p + |s| < a.Length && a[p..p + |s|] == s && a[p + |s|] == 0 && NulFree(s) && (s == [] <==> a[p] == 0)
  {
    var s := CString(a, p);
    assert a[p..][a.Length - 1 - p] == 0;
    assert a[p..][|s|] == a[p + |s|];
  }

  /** The C string from further on. */
  lemma {:induction false} UpToNulDrop(s: bytes, j: nat)
    requires j <= |UpToNul(s)|
    ensures UpToNul(s[j..]) == UpToNul(s)[j..]
  {
    if j == 0 {
      assert s[0..] == s;
    } else {
      UpToNulDrop(s[1..], j - 1);
      assert s[1..][j - 1..] == s[j..];
    }
  }

  /** Cuts the C string at `p` after `k` bytes. */
  method Cut(a: array<byte>, p: nat, k: nat)
    requires Terminated(a) && p < a.Length && k < |CString(a, p)|
    modifies a
    ensures Terminated(a) && CString(a, p) == old(CString(a, p))[..k]
    ensures p + k + 1 < a.Length && a[p + k + 1..] == old(a[p + k + 1..])
    ensures CString(a, p + k + 1) == old(CString(a, p))[k + 1..]
  {
    CStringBounds(a, p);
    ghost var s := CString(a, p);
    UpToNulDrop(a[p..], k + 1);
    assert a[p..][k + 1..] == a[p + k + 1..];
    a[p + k] := 0;
    CStringEnds(a, p, s[..k]);
  }

  lemma CStringDrop(a: array<byte>, p: nat, j: nat)
    requires Terminated(a) && p < a.Length && j <= |CString(a, p)|
    ensures p + j < a.Length && CString(a, p + j) == CString(a, p)[j..]
  {
    CStringBounds(a, p);
    UpToNulDrop(a[p..], j);
    assert a[p..][j..] == a[p + j..];
  }

  /** Cuts the C string at `p` at its first `c`, if it has one. */
  method CutAt(a: array<byte>, p: nat, c: byte) returns (k: nat)
    requires Terminated(a) && p < a.Length
    modifies a
    ensures Terminated(a) && k == FindByte(old(CString(a, p)), c)
    ensures CString(a, p) == old(CString(a, p))[..k]
    ensures k < |old(CString(a, p))| ==> p + k + 1 < a.Length && CString(a, p + k + 1) == old(CString(a, p))[k + 1..]
    ensures var q := p + |old(CString(a, p))|; q < a.Length && a[q..] == old(a[q..])
  {
    hide CString;
    CStringBounds(a, p);
    ghost var s := CString(a, p);
    k := FindByte(CString(a, p), c);
    if k < |CString(a, p)| {
      Cut(a, p, k);
      Suffix(a[p + k + 1..], old(a[p + k + 1..]), |s| - k - 1);
      assert a[p + |s|..] == a[p + k + 1..][|s| - k - 1..];
      assert old(a[p + |s|..]) == old(a[p + k + 1..])[|s| - k - 1..];
    } else {
      assert s[..k] == s;
    }
  }

  lemma Suffix(a: bytes, b: bytes, j: nat)
    requires a == b && j <= |a|
    ensures a[j..] == b[j..]
  {
  }

  /** The first line of a request: the method and the path are cut out of it. */
  method FirstOfRequest(a: array<byte>, p: nat) returns (r: Option<Start>)
    requires Terminated(a) && p < a.Length
    modifies a
    ensures Terminated(a) && r == ReadRequestStart(old(CString(a, p)))
    ensures var q := p + |old(CString(a, p))|; q < a.Length && a[q..] == old(a[q..])
  {
    hide CString, FindByte, ParseMethod;
    ghost var s := CString(a, p);
    CStringBounds(a, p);
    var size := |CString(a, p)|;
    var sp1 := CutAt(a, p, SPACE);
    if sp1 == size {
      return None;
    }
    var m := ParseMethod(CString(a, p));
    if m.None? {
      return None;
    }
    var sp2 := CutAt(a, p + sp1 + 1, SPACE);
    r := Some(RequestStart(m.value, CString(a, p + sp1 + 1)));
  }

  /** The first line of a response: the status is cut out of it. */
  method FirstOfResponse(a: array<byte>, p: nat) returns (r: Option<Start>)
    requires Terminated(a) && p < a.Length
    modifies a
    ensures Terminated(a) && r == ReadResponseStart(old(CString(a, p)))
    ensures var q := p + |old(CString(a, p))|; q < a.Length && a[q..] == old(a[q..])
  {
    hide CString, FindByte, Atol;
    CStringBounds(a, p);
    var sp1 := FindByte(CString(a, p), SPACE);
    if sp1 == |CString(a, p)| {
      return None;
    }
    CStringDrop(a, p, sp1 + 1);
    var sp2 := CutAt(a, p + sp1 + 1, SPACE);
    var status := Atol(CString(a, p + sp1 + 1));
    r := if status > 0 then Some(ResponseStart(status)) else None;
  }

  lemma PastSpace(a: array<byte>, v: nat)
    requires Terminated(a) && v < a.Length
    ensures a[v] == SPACE ==> v + 1 < a.Length && SkipSpaces(CString(a, v)) == SkipSpaces(CString(a, v + 1))
    ensures a[v] != SPACE ==> SkipSpaces(CString(a, v)) == CString(a, v)
  {
    hide CString;
    CStringBounds(a, v);
    assert CString(a, v) != [] ==> CString(a, v)[0] == a[v];
    if a[v] == SPACE {
      CStringDrop(a, v, 1);
    }
  }

  /** Where the value starts: past the spaces at `p`. */
  method PastSpaces(a: array<byte>, p: nat) returns (v: nat)
    requires Terminated(a) && p < a.Length
    ensures p <= v < a.Length && CString(a, v) == SkipSpaces(CString(a, p))
  {
    hide CString, SkipSpaces;
    v := p;
    PastSpace(a, v);
    while a[v] == SPACE
      invariant p <= v < a.Length && SkipSpaces(CString(a, v)) == SkipSpaces(CString(a, p))
      decreases a.Length - v
    {
      PastSpace(a, v);
      v := v + 1;
    }
    PastSpace(a, v);
  }

  /** A header line, if it has a colon, is cut there; its name and value are read. */
  method CutHeader(a: array<byte>, p: nat) returns (r: Option<Header>)
    requires Terminated(a) && p < a.Length
    modifies a
    ensures Terminated(a) && r == HeaderOfLine(old(CString(a, p)))
    ensures r.Some? ==> NulFree(r.value.name)
    ensures var q := p + |old(CString(a, p))|; q < a.Length && a[q..] == old(a[q..])
  {
    hide CString, FindByte, SkipSpaces;
    CStringBounds(a, p);
    var size := |CString(a, p)|;
    var k := CutAt(a, p, COLON);
    if k == size {
      return None;
    }
    CStringBounds(a, p);
    var v := PastSpaces(a, p + k + 1);
    r := Some(Header(CString(a, p), CString(a, v)));
  }

  /** Sets a header that was read, if there is memory for it; the last Content-Length is kept in any case. */
  method TakeHeader(table: HeaderTable, h: Header, length: int, mem: Memory) returns (length': int, stored: bool)
    requires table.Valid() && NulFree(h.name)
    modifies table, table.pairs
    ensures table.Valid() && (table.pairs == old(table.pairs) || fresh(table.pairs))
    ensures table.Contents()
         == if stored then SetHeader(old(table.Contents()), h.name, h.value) else old(table.Contents())
    ensures length' == LengthWith(length, h) && (mem == PLENTY ==> stored)
  {
    hide Atol, SetHeader, CiEqual;
    assert NulFree(CONTENT_LENGTH);
    var c := CiStrcmp(h.name, CONTENT_LENGTH);
    length' := if c == 0 then Atol(h.value) else length;
    stored := table.Set(h.name, h.value, mem);
  }

  /** Cuts the first line off, if there is a line end; says where the next line starts. */
  method CutLine(a: array<byte>, p: nat) returns (next: Option<nat>)
    requires Terminated(a) && p < a.Length && CString(a, p) != []
    modifies a
    ensures Terminated(a) && CString(a, p) == Lines(old(CString(a, p)))[0]
    ensures var s := old(CString(a, p));
            match next
            case None => Lines(s) == [CString(a, p)]
            case Some(n) => p + |CString(a, p)| < n && p < n < a.Length
                            && Lines(s) == [CString(a, p)] + Lines(CString(a, n)) && a[n..] == old(a[n..])
  {
    hide CString, FindCrlf, Lines;
    CStringBounds(a, p);
    ghost var s := CString(a, p);
    LinesUnfold(s);
    var k := FindCrlf(CString(a, p));
    if k == |CString(a, p)| {
      return None;
    }
    CStringDrop(a, p, k + 2);
    Cut(a, p, k);
    CStringDrop(a, p + k + 1, 1);
    assert s[k + 1..][1..] == s[k + 2..];
    next := Some(p + k + 2);
    assert a[p + k + 2..] == a[p + k + 1..][1..];
  }

  /** A copy of a block of bytes with a zero byte behind it. */
  method CopyTerminated(block: bytes) returns (a: array<byte>)
    ensures fresh(a) && a.Length == |block| + 1 && a[..|block|] == block && a[|block|] == 0
  {
    a := new byte[|block| + 1](_ => 0);
    for i := 0 to |block|
      invariant a[..i] == block[..i] && a[|block|] == 0
    {
      a[i] := block[i];
    }
    assert block[..|block|] == block;
  }

  lemma CopyReads(a: array<byte>, block: bytes)
    requires a.Length == |block| + 1 && a[..|block|] == block && a[|block|] == 0
    ensures Terminated(a) && CString(a, 0) == UpToNul(block)
  {
    assert a[0..] == block + [0];
    UpToNulPrefix(block);
  }

  method First(kind: Kind, a: array<byte>, p: nat) returns (r: Option<Start>)
    requires Terminated(a) && p < a.Length
    modifies a
    ensures Terminated(a) && r == StartOf(kind)(old(CString(a, p)))
    ensures var q := p + |old(CString(a, p))|; q < a.Length && a[q..] == old(a[q..])
  {
    hide ReadRequestStart, ReadResponseStart, CString;
    match kind
    case Requests => r := FirstOfRequest(a, p);
    case Responses => r := FirstOfResponse(a, p);
  }

  /** The text and the table do not share memory. */
  ghost predicate Apart(a: array<byte>, table: HeaderTable)
    reads table
  {
    var x: object := a;
    x != table.pairs && x != table
  }

  /** What has been read of a head, as the code holds it; `seen` counts the headers. */
  datatype Progress = Progress(start: Option<Start>, length: int, seen: nat)

  /** The headers that a line adds to those read so far, and to those kept: itself if it is one, and there is memory. */
  ghost predicate Adds(line: bytes, started: bool, mem: Memory, all: seq<Header>, kept: seq<Header>,
                       all': seq<Header>, kept': seq<Header>) {
    if line == [] || !started || HeaderOfLine(line).None? then all' == all && kept' == kept
    else
      var h := HeaderOfLine(line).value;
      all' == all + [h] && (kept' == kept + [h] || (kept' == kept && mem != PLENTY))
  }

  /** Headers set one after another: those that have been read, and those that there was memory for. */
  ghost predicate Sets(table: HeaderTable, kept: seq<Header>)
    reads table, table.pairs
  {
    table.Valid() && table.Contents() == SetHeaders([], kept)
  }

  /** Reads one line that has been cut off: an empty one says nothing, the first one starts the message. */
  method TakeLine(kind: Kind, a: array<byte>, p: nat, table: HeaderTable, at: Progress, mem: Memory,
                  ghost all: seq<Header>, ghost kept: seq<Header>)
    returns (ok: bool, at': Progress, ghost all': seq<Header>, ghost kept': seq<Header>)
    requires Terminated(a) && p < a.Length && Sets(table, kept) && Apart(a, table)
    modifies a, table, table.pairs
    ensures Terminated(a) && Sets(table, kept') && (table.pairs == old(table.pairs) || fresh(table.pairs))
    ensures Adds(old(CString(a, p)), at.start.Some?, mem, all, kept, all', kept')
    ensures var after := ReadLine(StartOf(kind), Head(at.start, SetHeaders([], all), at.length), old(CString(a, p)));
            if ok then after == Some(Head(at'.start, SetHeaders([], all'), at'.length)) else after == None
    ensures at'.seen - at.seen == |all'| - |all|
    ensures var q := p + |old(CString(a, p))|; q < a.Length && a[q..] == old(a[q..])
  {
    hide CString, HeaderOfLine, LengthWith, SetHeaders, SetHeader, StartOf, HeaderTable.Valid, HeaderTable.Contents;
    CStringBounds(a, p);
    ok, at', all', kept' := true, at, all, kept;
    if a[p] == 0 {
    } else if at.start.None? {
      var start := First(kind, a, p);
      ok, at' := start.Some?, at.(start := start);
    } else {
      var h := CutHeader(a, p);
      if h.Some? {
        SetHeadersLast([], all, h.value);
        SetHeadersLast([], kept, h.value);
        var length, stored := TakeHeader(table, h.value, at.length, mem);
        at' := at.(length := length, seen := at.seen + 1);
        all', kept' := all + [h.value], if stored then kept + [h.value] else kept;
      }
    }
  }

  lemma CStringOf(a: array<byte>, p: nat)
    requires p < a.Length
    ensures CString(a, p) == UpToNul(a[p..])
  {
  }

  lemma TailsAgree(now: bytes, was: bytes, j: nat)
    requires now == was && j <= |now|
    ensures now[j..] == was[j..]
  {
  }

  /** The headers among the lines of a head, in order. */
  ghost function HeadersIn(lines: seq<bytes>, started: bool): seq<Header> {
    if lines == [] then []
    else
      var rest := HeadersIn(lines[1..], started || lines[0] != []);
      if lines[0] == [] || !started || HeaderOfLine(lines[0]).None? then rest
      else [HeaderOfLine(lines[0]).value] + rest
  }

  /** Some of the headers, in order. */
  ghost predicate SomeOf(kept: seq<Header>, all: seq<Header>) {
    if all == [] then kept == []
    else
      var last := |all| - 1;
      SomeOf(kept, all[..last])
      || (kept != [] && kept[|kept| - 1] == all[last] && SomeOf(kept[..|kept| - 1], all[..last]))
  }

  lemma SomeOfMore(kept: seq<Header>, all: seq<Header>, h: Header)
    requires SomeOf(kept, all)
    ensures SomeOf(kept, all + [h]) && SomeOf(kept + [h], all + [h])
  {
    assert (all + [h])[..|all|] == all && (kept + [h])[..|kept|] == kept;
  }

  /** What a line adds is the first of the headers that are still to come. */
  lemma AddsFirst(lines: seq<bytes>, started: bool, mem: Memory, all: seq<Header>, kept: seq<Header>,
                  all': seq<Header>, kept': seq<Header>)
    requires lines != [] && Adds(lines[0], started, mem, all, kept, all', kept') && SomeOf(kept, all)
    ensures all + HeadersIn(lines, started) == all' + HeadersIn(lines[1..], started || lines[0] != [])
    ensures SomeOf(kept', all') && (mem == PLENTY && kept == all ==> kept' == all')
  {
    hide SomeOf, HeaderOfLine;
    if lines[0] != [] && started && HeaderOfLine(lines[0]).Some? {
      SomeOfMore(kept, all, HeaderOfLine(lines[0]).value);
    }
  }

  /** One round of the loop over the lines. */
  method TakeNextLine(kind: Kind, a: array<byte>, p: nat, table: HeaderTable, at: Progress, mem: Memory,
                      ghost all: seq<Header>, ghost kept: seq<Header>)
    returns (ok: bool, at': Progress, next: Option<nat>, ghost all': seq<Header>, ghost kept': seq<Header>)
    requires Terminated(a) && p < a.Length && a[p] != 0 && Sets(table, kept) && SomeOf(kept, all) && Apart(a, table)
    modifies a, table, table.pairs
    ensures Terminated(a) && Sets(table, kept') && (table.pairs == old(table.pairs) || fresh(table.pairs))
    ensures next.Some? ==> p < next.value < a.Length
    ensures ReadLines(StartOf(kind), Head(at.start, SetHeaders([], all), at.length), Lines(old(CString(a, p))))
         == if ok then ReadLines(StartOf(kind), Head(at'.start, SetHeaders([], all'), at'.length), LinesFrom(a, next))
            else None
    ensures ok ==> all + HeadersIn(Lines(old(CString(a, p))), at.start.Some?)
                   == all' + HeadersIn(LinesFrom(a, next), at'.start.Some?)
    ensures SomeOf(kept', all') && (mem == PLENTY && kept == all ==> kept' == all')
    ensures at'.seen - at.seen == |all'| - |all|
  {
    hide CString, ReadLine, Lines, StartOf, SetHeaders, HeadersIn, Adds, SomeOf;
    hide HeaderTable.Valid, HeaderTable.Contents;
    CStringBounds(a, p);
    ghost var lines := Lines(CString(a, p));
    next := CutLine(a, p);
    ghost var line, rest := CString(a, p), LinesFrom(a, next);
    assert lines[0] == line && lines[1..] == rest;
    ghost var q := p + |line|;
    CStringBounds(a, p);
    ghost var was := a[q..];
    if next.Some? {
      CStringOf(a, next.value);
      assert a[next.value..] == was[next.value - q..];
    }
    ok, at', all', kept' := TakeLine(kind, a, p, table, at, mem, all, kept);
    AddsFirst(lines, at.start.Some?, mem, all, kept, all', kept');
    StartedBy(kind, Head(at.start, SetHeaders([], all), at.length), line);
    if next.Some? {
      TailsAgree(a[q..], was, next.value - q);
      assert a[next.value..] == a[q..][next.value - q..];
      CStringOf(a, next.value);
    }
  }

  /** A message has started once there is a line that is not empty. */
  lemma StartedBy(kind: Kind, head: Head, line: bytes)
    ensures var after := ReadLine(StartOf(kind), head, line);
            after.Some? ==> (after.value.start.Some? <==> head.start.Some? || line != [])
  {
  }

  ghost function LinesFrom(a: array<byte>, next: Option<nat>): seq<bytes>
    requires next.Some? ==> next.value < a.Length
    reads a
  {
    if next.None? then [] else Lines(CString(a, next.value))
  }

  /**
   Reads a head line by line, setting the headers in the table as they come: what
   comes out is what the reader as a function makes of the text. Whether a header could
   be set is not looked at: without memory for it, it is missing, and nothing else is.
   */
  method ParseHead(kind: Kind, block: bytes, table: HeaderTable, supply: nat -> Memory)
    returns (r: Option<(Start, int)>, ghost kept: seq<Header>)
    requires table.Valid() && table.Contents() == []
    modifies table, table.pairs
    ensures table.Valid() && (table.pairs == old(table.pairs) || fresh(table.pairs))
    ensures match r
            case None => ReadHead(StartOf(kind), block) == None
            case Some((start, length)) =>
              var all := HeadersIn(Lines(UpToNul(block)), false);
              && ReadHead(StartOf(kind), block) == Some(Head(Some(start), SetHeaders([], all), length))
              && table.Contents() == SetHeaders([], kept) && SomeOf(kept, all)
              && ((forall n :: supply(n) == PLENTY) ==> kept == all)
  {
    hide CString, ReadLine, Lines, StartOf, HeaderTable.Valid, HeaderTable.Contents;
    var a := CopyTerminated(block);
    CopyReads(a, block);
    LinesOfNothing();
    ghost var lines := Lines(UpToNul(block));
    ghost var spec, all := ReadLines(StartOf(kind), NOTHING, lines), [];
    kept := [];
    var at, cursor: Option<nat> := Progress(None, NO_LENGTH, 0), Some(0);
    assert [] + HeadersIn(lines, false) == HeadersIn(lines, false);
    hide HeadersIn, SomeOf, SetHeaders;
    NothingSet();
    while cursor.Some? && a[cursor.value] != 0
      invariant Sets(table, kept) && (table.pairs == old(table.pairs) || fresh(table.pairs))
      invariant Apart(a, table) && Terminated(a) && (cursor.Some? ==> cursor.value < a.Length)
      invariant spec == ReadLines(StartOf(kind), Head(at.start, SetHeaders([], all), at.length), LinesFrom(a, cursor))
      invariant HeadersIn(lines, false) == all + HeadersIn(LinesFrom(a, cursor), at.start.Some?)
      invariant SomeOf(kept, all) && ((forall n :: supply(n) == PLENTY) ==> kept == all) && at.seen == |all|
      decreases if cursor.None? then 0 else a.Length - cursor.value
    {
      var ok;
      ok, at, cursor, all, kept := TakeNextLine(kind, a, cursor.value, table, at, supply(at.seen), all, kept);
      if !ok {
        return None, kept;
      }
    }
    if cursor.Some? {
      CStringBounds(a, cursor.value);
    }
    NoHeaders(at.start.Some?);
    assert all + [] == all;
    r := if at.start.None? || at.length == BAD_START then None else Some((at.start.value, at.length));
  }

  lemma NothingSet()
    ensures SetHeaders([], []) == [] && SomeOf([], [])
  {
  }

  lemma NoHeaders(started: bool)
    ensures HeadersIn([], started) == []
  {
  }

  lemma LinesOfNothing()
    ensures Lines([]) == []
  {
  }
}
