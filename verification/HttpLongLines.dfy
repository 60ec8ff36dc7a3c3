/**
 Requests whose request line or Host line is too long for the buffer: exactly when
 the path, the header table and the length come back all the same.
 */
module HttpLongLines {
  import opened Bytes
  import opened Decimal
  import opened HttpText
  import opened HttpHead
  import opened HttpMessage
  import opened HttpRequest

  // ---- the path ----

  /** What the Host line starts with. */
  const HOST_START: bytes := HOST + [COLON]

  /**
   A path comes back exactly if it has no space and its line fits, or only what is
   behind the path and a space is cut off, or what is cut off the path happens to be
   what the Host line starts with.
   */
  lemma PathBackExact(m: Method, path: bytes, host: bytes, xs: seq<Header>)
    requires xs != []
    ensures var k := LINE_BUF - 1 - |MethodName(m)| - 1;
            PathOut(m, path, HostOut(host, xs)) == path
            <==> SPACE !in path && (Fits(RequestLine(m, path)) || |path| < k || path[k..] == HOST_START)
  {
    hide FindByte, MethodName, TargetOut;
    if SPACE !in path {
      LongPath(m, path, HostOut(host, xs));
    } else {
      NoSpaceBefore(TargetOut(m, path, HostOut(host, xs)));
    }
  }

  lemma NoSpaceBefore(s: bytes)
    ensures SPACE !in s[..FindByte(s, SPACE)]
  {
  }

  lemma LongPath(m: Method, path: bytes, hh: seq<Header>)
    requires SPACE !in path && hh != [] && hh[0].name == HOST
    ensures var k := LINE_BUF - 1 - |MethodName(m)| - 1;
            PathOut(m, path, hh) == path <==> Fits(RequestLine(m, path)) || |path| < k || path[k..] == HOST_START
  {
    hide FindByte, MethodName, HeaderLine;
    MethodPlain(m);
    var k := LINE_BUF - 1 - |MethodName(m)| - 1;
    PathExact(path);
    if Fits(RequestLine(m, path)) {
      FindByteOver(path, SPACE, VERSION);
    } else if |path| < k {
      WholePath(path, TargetOut(m, path, hh));
    } else {
      CutPath(path, k, hh[0]);
      assert (path + VERSION + CRLF)[..k] == path[..k];
      assert path == path[..k] + path[k..];
    }
  }

  lemma WholePath(path: bytes, target: bytes)
    requires SPACE !in path && |path| < |target| && target[..|path|] == path && target[|path|] == SPACE
    ensures target[..FindByte(target, SPACE)] == path
  {
    var behind := target[|path|..];
    assert target == path + behind;
    FindByteOver(path, SPACE, behind);
    PathExact(path);
  }

  lemma CutPath(path: bytes, k: nat, h: Header)
    requires SPACE !in path && k <= |path| && h.name == HOST
    ensures var target := path[..k] + HeaderLine(h); target[..FindByte(target, SPACE)] == path[..k] + HOST_START
  {
    hide FindByte;
    var target, word := path[..k] + HeaderLine(h), path[..k] + HOST_START;
    assert target == word + [SPACE] + h.value;
    assert SPACE !in word by {
      assert forall i :: 0 <= i < |word| ==> word[i] == if i < k then path[i] else HOST_START[i - k];
    }
    FindByteIn(word, SPACE, h.value);
  }

  // ---- tables made of almost the same headers ----

  ghost predicate Has(t: seq<Header>, n: bytes) {
    HeaderAt(t, n) < |t|
  }

  /** Whether a header of that name comes, in any case. */
  ghost predicate Comes(ps: seq<Header>, n: bytes) {
    exists i :: 0 <= i < |ps| && CiEqual(ps[i].name, n)
  }

  /** The first name to come that a table does not have. */
  ghost function NewName(t: seq<Header>, ps: seq<Header>): Option<bytes> {
    if ps == [] then None
    else if Has(t, ps[0].name) then NewName(t, ps[1..])
    else Some(ps[0].name)
  }

  ghost predicate SameNames(t: seq<Header>, u: seq<Header>) {
    |t| == |u| && forall i :: 0 <= i < |t| ==> t[i].name == u[i].name
  }

  lemma HeaderAtByName(t: seq<Header>, u: seq<Header>, n: bytes)
    requires SameNames(t, u)
    ensures HeaderAt(t, n) == HeaderAt(u, n)
  {
    var i := HeaderAt(t, n);
    hide HeaderAt;
    if i < |t| {
      FirstHeader(u, n, i);
    } else {
      NoHeader(u, n);
    }
  }

  lemma {:induction false} NewNameByName(t: seq<Header>, u: seq<Header>, ps: seq<Header>)
    requires SameNames(t, u)
    ensures NewName(t, ps) == NewName(u, ps)
  {
    if ps == [] {
    } else {
      HeaderAtByName(t, u, ps[0].name);
      NewNameByName(t, u, ps[1..]);
    }
  }

  /** Setting headers keeps the names that are there, and the first that is new comes next. */
  lemma {:induction false} NextName(t: seq<Header>, ps: seq<Header>)
    ensures var r := SetHeaders(t, ps);
            && |t| <= |r| && SameNames(r[..|t|], t)
            && (|t| < |r| ==> NewName(t, ps) == Some(r[|t|].name))
    decreases |ps|
  {
    if ps == [] {
    } else {
      var t' := SetHeader(t, ps[0].name, ps[0].value);
      NextName(t', ps[1..]);
      if Has(t, ps[0].name) {
        NewNameByName(t', t, ps[1..]);
      }
    }
  }

  /** A last header of a table leaves no trace exactly if the first new name to come is its own. */
  lemma {:induction false} NoTrace(t: seq<Header>, y: Header, ps: seq<Header>)
    requires !Has(t, y.name)
    ensures SetHeaders(t + [y], ps) == SetHeaders(t, ps) <==> NewName(t, ps) == Some(y.name)
    decreases |ps|
  {
    hide HeaderAt;
    if ps == [] {
      assert |t + [y]| != |t|;
    } else {
      var p, rest := ps[0], ps[1..];
      var t', u' := SetHeader(t, p.name, p.value), SetHeader(t + [y], p.name, p.value);
      if Has(t, p.name) {
        FirstHeader(t + [y], p.name, HeaderAt(t, p.name));
        assert u' == t' + [y];
        HeaderAtByName(t', t, y.name);
        NoTrace(t', y, rest);
        NewNameByName(t', t, rest);
      } else {
        NextName(t', rest);
        NextName(u', rest);
        assert t' == t + [p];
        if CiEqual(y.name, p.name) {
          FirstHeader(t + [y], p.name, |t|);
          assert u' == t + [Header(y.name, p.value)];
          assert SetHeaders(t', rest)[..|t'|][|t|].name == p.name;
          assert SetHeaders(u', rest)[..|u'|][|t|].name == y.name;
        } else {
          NoHeader(t + [y], p.name);
          assert u' == t + [y] + [p];
          assert SetHeaders(t', rest)[..|t'|][|t|].name == p.name;
          assert SetHeaders(u', rest)[..|u'|][|t|].name == y.name;
        }
      }
    }
  }

  /** A first value leaves no trace exactly if its name comes again. */
  lemma {:induction false} FirstValue(t: seq<Header>, v: bytes, ps: seq<Header>)
    requires t != []
    ensures SetHeaders(t[0 := Header(t[0].name, v)], ps) == SetHeaders(t, ps)
            <==> v == t[0].value || Comes(ps, t[0].name)
    decreases |ps|
  {
    hide HeaderAt;
    var u := t[0 := Header(t[0].name, v)];
    if ps == [] {
      assert u[0].value == v;
    } else {
      var p, rest := ps[0], ps[1..];
      var t', u' := SetHeader(t, p.name, p.value), SetHeader(u, p.name, p.value);
      HeaderAtByName(t, u, p.name);
      if CiEqual(t[0].name, p.name) {
        FirstHeader(t, p.name, 0);
        assert u' == t';
      } else {
        assert u' == t'[0 := Header(t'[0].name, v)];
        FirstValue(t', v, rest);
        ComesLater(ps, t[0].name);
      }
    }
  }

  lemma ComesLater(ps: seq<Header>, n: bytes)
    requires ps != [] && !CiEqual(ps[0].name, n)
    ensures Comes(ps, n) <==> Comes(ps[1..], n)
  {
    if i :| 0 <= i < |ps| && CiEqual(ps[i].name, n) {
      assert CiEqual(ps[1..][i - 1].name, n);
    }
    if i :| 0 <= i < |ps[1..]| && CiEqual(ps[1..][i].name, n) {
      assert CiEqual(ps[i + 1].name, n);
    }
  }

  /** The first name to come that is not `n`, in any case. */
  ghost function FirstOther(n: bytes, ps: seq<Header>): Option<bytes> {
    if ps == [] then None
    else if CiEqual(ps[0].name, n) then FirstOther(n, ps[1..])
    else Some(ps[0].name)
  }

  lemma {:induction false} NewToOne(h: Header, ps: seq<Header>)
    ensures NewName([h], ps) == FirstOther(h.name, ps)
  {
    if ps == [] {
    } else {
      assert Has([h], ps[0].name) <==> CiEqual(h.name, ps[0].name);
      NewToOne(h, ps[1..]);
    }
  }

  /** A header that comes second, with those behind it, is no news, because they say its name before any other. */
  ghost predicate NotMissed(n: bytes, y: Header, ys: seq<Header>) {
    CiEqual(y.name, n) || FirstOther(n, ys) == Some(y.name)
  }

  lemma SetFirst(hs: seq<Header>, p: Header, ps: seq<Header>)
    ensures SetHeaders(hs, [p] + ps) == SetHeaders(SetHeader(hs, p.name, p.value), ps)
  {
    assert ([p] + ps)[1..] == ps;
  }

  lemma SetOne(h: Header, ps: seq<Header>)
    ensures SetHeaders([], [h] + ps) == SetHeaders([h], ps)
  {
    SetFirst([], h, ps);
    assert SetHeader([], h.name, h.value) == [h];
  }

  /** The table of a header, a second one and others is that of the first, with another value, and the others. */
  lemma SecondMissed(h: Header, y: Header, v: bytes, ys: seq<Header>)
    ensures SetHeaders([], [h] + ([y] + ys)) == SetHeaders([], [Header(h.name, v)] + ys)
            <==> NotMissed(h.name, y, ys)
                 && (Comes(ys, h.name) || v == if CiEqual(y.name, h.name) then y.value else h.value)
  {
    hide SetHeaders, FirstOther, HeaderAt, Comes;
    var h' := Header(h.name, v);
    SetOne(h, [y] + ys);
    SetOne(h', ys);
    SetFirst([h], y, ys);
    if CiEqual(y.name, h.name) {
      FirstHeader([h], y.name, 0);
      var g := Header(h.name, y.value);
      assert SetHeader([h], y.name, y.value) == [g];
      FirstValue([g], v, ys);
      assert [g][0 := h'] == [h'];
    } else {
      NoHeader([h], y.name);
      NoTrace([h], y, ys);
      FirstValue([h], v, ys);
      assert [h][0 := h'] == [h'];
      NewToOne(h, ys);
      NewToOne(h', ys);
      NextName([h] + [y], ys);
      NextName([h'], ys);
    }
  }

  /** The same where the first header is missing altogether. */
  lemma BothMissed(h: Header, y: Header, ys: seq<Header>)
    requires ys != []
    ensures SetHeaders([], [h] + ([y] + ys)) == SetHeaders([], ys)
            <==> ys[0].name == h.name && NotMissed(h.name, y, ys)
  {
    hide SetHeaders, FirstOther, HeaderAt;
    var z := ys[0];
    assert ys == [z] + ys[1..];
    SetOne(z, ys[1..]);
    SetOne(h, [y] + ys);
    NextName([z], ys[1..]);
    NextName([h], [y] + ys);
    if z.name == h.name {
      SecondMissed(h, y, z.value, ys);
      assert Comes(ys, h.name) by { assert CiEqual(ys[0].name, h.name); }
      SetOne(z, ys);
      SetFirst([z], z, ys[1..]);
      FirstHeader([z], z.name, 0);
      assert SetHeader([z], z.name, z.value) == [z];
    }
  }

  // ---- the Host line with the next line glued on ----

  lemma SkipFirst(c: byte, s: bytes)
    ensures SkipSpaces([c] + s) == if c == SPACE then SkipSpaces(s) else [c] + s
  {
    assert ([c] + s)[1..] == s;
  }

  lemma {:induction false} SkipOver(a: bytes, b: bytes)
    ensures SkipSpaces(a + b) == if SkipSpaces(a) == [] then SkipSpaces(b) else SkipSpaces(a) + b
  {
    hide SkipSpaces;
    if a == [] {
      assert a + b == b;
    } else {
      var c, rest := a[0], a[1..];
      assert a == [c] + rest && a + b == [c] + (rest + b);
      SkipFirst(c, rest);
      SkipFirst(c, rest + b);
      if c == SPACE {
        SkipOver(rest, b);
      }
    }
  }

  lemma SkipLonger(a: bytes, b: bytes)
    requires b != [] && b[0] != SPACE
    ensures |SkipSpaces(a + b)| == |SkipSpaces(a)| + |b|
  {
    SkipOver(a, b);
  }

  lemma SkipCommon(a: bytes, b: bytes, c: bytes)
    ensures SkipSpaces(a + b) == SkipSpaces(a + c)
            <==> b == c || (SkipSpaces(a) == [] && SkipSpaces(b) == SkipSpaces(c))
  {
    var s := SkipSpaces(a);
    SkipOver(a, b);
    SkipOver(a, c);
    hide SkipSpaces;
    assert s + b == s + c ==> b == c by {
      assert (s + b)[|s|..] == b && (s + c)[|s|..] == c;
    }
  }

  /** How much of the host the buffer holds. */
  const HOST_ROOM: nat := LINE_BUF - 1 - |HOST| - 2

  /**
   What is cut off the host happens to be what is glued on, but for spaces where
   nothing but spaces comes before it.
   */
  ghost predicate ByChance(host: bytes, next: Header) {
    && |host| >= HOST_ROOM
    && (host[HOST_ROOM..] == HeaderLine(next)
        || (SkipSpaces(host[..HOST_ROOM]) == []
            && SkipSpaces(host[HOST_ROOM..]) == SkipSpaces(HeaderLine(next))))
  }

  lemma HostBack(host: bytes, next: Header)
    requires !Fits(HeaderLine(HostHeader(host)))
    ensures SkipSpaces(GluedHost(host, next)) == SkipSpaces(host) <==> ByChance(host, next)
  {
    hide SkipSpaces;
    var line := HeaderLine(next);
    if |host| >= HOST_ROOM {
      var a := host[..HOST_ROOM];
      assert GluedHost(host, next) == a + line && host == a + host[HOST_ROOM..];
      SkipCommon(a, line, host[HOST_ROOM..]);
    } else {
      assert GluedHost(host, next) == host + ([CR] + line);
      SkipLonger(host, [CR] + line);
    }
  }

  /** A header that is read as a Host header is longer than its value. */
  lemma HostLine(next: Header)
    requires CiEqual(Reread(next).name, HOST)
    ensures var line := HeaderLine(next); |Reread(next).value| < |line| && line[0] != SPACE
  {
    HeaderLineHasColon(next);
    var line := HeaderLine(next);
    var k := FindByte(line, COLON);
    assert Reread(next).name == line[..k] && line[..k][0] == line[0];
    assert Lower(line[0]) == Lower(HOST[0]);
  }

  lemma GluedIsLonger(host: bytes, next: Header)
    requires !Fits(HeaderLine(HostHeader(host))) && CiEqual(Reread(next).name, HOST)
    ensures SkipSpaces(GluedHost(host, next)) != Reread(next).value
  {
    hide SkipSpaces, Reread;
    HostLine(next);
    assert |host + CRLF| >= HOST_ROOM;
    SkipLonger((host + CRLF)[..HOST_ROOM], HeaderLine(next));
  }

  // ---- exactly when the table comes back ----

  /** The headers behind the Host line, as they are read when nothing is glued on. */
  function Behind(hs: seq<Header>, size: nat): (r: seq<Header>)
    ensures |r| == |hs| + 2
  {
    RereadAll(hs + ClosingHeaders(size))
  }

  lemma TableOfBehind(host: bytes, hs: seq<Header>, size: nat)
    ensures var b := Behind(hs, size);
            TableOf([HostHeader(host)], hs, size)
            == SetHeaders([], [Header(HOST, SkipSpaces(host))] + ([b[0]] + b[1..]))
  {
    hide SkipSpaces, Reread, SetHeaders;
    var h, xs := HostHeader(host), hs + ClosingHeaders(size);
    RereadWithoutColon(h);
    assert [h] + hs + ClosingHeaders(size) == [h] + xs;
    RereadAllConcat([h], xs);
    assert RereadAll([h]) == [Reread(h)];
    assert Behind(hs, size) == [Behind(hs, size)[0]] + Behind(hs, size)[1..];
  }

  /** The table that comes out when the Host line is too long. */
  lemma TableOfGlued(m: Method, path: bytes, host: bytes, hs: seq<Header>, size: nat)
    requires !Fits(HeaderLine(HostHeader(host)))
    ensures var b, next := Behind(hs, size), (hs + ClosingHeaders(size))[0];
            HeadOut(m, path, host, hs, size).headers
            == SetHeaders([], if Fits(RequestLine(m, path))
                              then [Header(HOST, SkipSpaces(GluedHost(host, next)))] + b[1..] else b[1..])
  {
    hide SkipSpaces, Reread, SetHeaders, RequestLine, HeaderLine, GluedHost;
    var xs := hs + ClosingHeaders(size);
    var g := Header(HOST, GluedHost(host, xs[0]));
    RereadWithoutColon(g);
    RereadAllConcat([g], xs[1..]);
    assert RereadAll([g]) == [Reread(g)];
    assert RereadAll(xs[1..]) == Behind(hs, size)[1..];
    assert ([g] + xs[1..])[1..] == xs[1..];
  }

  /**
   Exactly when the table comes back. The Host line must fit, and with it the request
   line, unless the next header is read under the name `Host` itself. A Host line that
   does not fit swallows the next header; its name has to come again, before any other,
   and so has a `Host`, unless the host that comes out is right by chance.
   */
  lemma TableBackExact(m: Method, path: bytes, host: bytes, hs: seq<Header>, size: nat)
    ensures var b := Behind(hs, size);
            HeadOut(m, path, host, hs, size).headers == TableOf([HostHeader(host)], hs, size)
            <==> if Fits(HeaderLine(HostHeader(host))) then Fits(RequestLine(m, path)) || b[0].name == HOST
                 else && NotMissed(HOST, b[0], b[1..])
                      && if Fits(RequestLine(m, path))
                         then Comes(b[1..], HOST)
                              || (!CiEqual(b[0].name, HOST) && ByChance(host, (hs + ClosingHeaders(size))[0]))
                         else b[1].name == HOST
  {
    if Fits(HeaderLine(HostHeader(host))) {
      FittingHost(m, path, host, hs, size);
    } else {
      hide HeaderLine, RequestLine, SkipSpaces, SetHeaders, Reread, HeadOut, TableOf, NotMissed, Comes, ByChance;
      hide GluedHost;
      var b, next := Behind(hs, size), (hs + ClosingHeaders(size))[0];
      var h := Header(HOST, SkipSpaces(host));
      TableOfBehind(host, hs, size);
      TableOfGlued(m, path, host, hs, size);
      SecondMissed(h, b[0], SkipSpaces(GluedHost(host, next)), b[1..]);
      BothMissed(h, b[0], b[1..]);
      HostBack(host, next);
      assert b[0] == Reread(next);
      if CiEqual(b[0].name, HOST) {
        GluedIsLonger(host, next);
      }
    }
  }

  /** A first header is missed in the table exactly if the next one has not its name. */
  lemma FirstMissed(h: Header, xs: seq<Header>)
    requires xs != []
    ensures SetHeaders([], [h] + xs) == SetHeaders([], xs) <==> xs[0].name == h.name
  {
    hide SetHeaders;
    var z := xs[0];
    assert xs == [z] + xs[1..];
    SetOne(h, xs);
    SetOne(z, xs[1..]);
    NextName([h], xs);
    NextName([z], xs[1..]);
    if z.name == h.name {
      SetFirst([h], z, xs[1..]);
      assert SetHeader([h], z.name, z.value) == [z];
    }
  }

  lemma FittingHost(m: Method, path: bytes, host: bytes, hs: seq<Header>, size: nat)
    requires Fits(HeaderLine(HostHeader(host)))
    ensures HeadOut(m, path, host, hs, size).headers == TableOf([HostHeader(host)], hs, size)
            <==> Fits(RequestLine(m, path)) || Behind(hs, size)[0].name == HOST
  {
    hide HeaderLine, RequestLine, Reread, SetHeaders, SkipSpaces;
    var h, xs := HostHeader(host), hs + ClosingHeaders(size);
    RereadWithoutColon(h);
    assert [h] + hs + ClosingHeaders(size) == [h] + xs && ([h] + xs)[1..] == xs;
    RereadAllConcat([h], xs);
    assert RereadAll([h]) == [Reread(h)];
    FirstMissed(Reread(h), RereadAll(xs));
  }

  lemma OtherComes(n: bytes, ps: seq<Header>) returns (i: nat)
    requires FirstOther(n, ps).Some?
    ensures i < |ps| && ps[i].name == FirstOther(n, ps).value
  {
    if CiEqual(ps[0].name, n) {
      i := OtherComes(n, ps[1..]);
      i := i + 1;
    } else {
      i := 0;
    }
  }

  /** What the table of a caller has: names that differ, and first none of those that the writer sets. */
  ghost predicate OwnNames(hs: seq<Header>) {
    && NamesDiffer(RereadAll(hs))
    && (hs != [] ==> !CiEqual(Reread(hs[0]).name, CONTENT_LENGTH) && !CiEqual(Reread(hs[0]).name, CONNECTION))
  }

  lemma FirstOnce(hs: seq<Header>, size: nat, i: nat)
    requires OwnNames(hs) && 1 <= i < |hs| + 2
    ensures !CiEqual(Behind(hs, size)[0].name, Behind(hs, size)[i].name)
  {
    hide Reread, DigitsText;
    var xs, b := hs + ClosingHeaders(size), Behind(hs, size);
    ClosingRereads(size);
    RereadAllConcat(hs, ClosingHeaders(size));
    assert |CONTENT_LENGTH| != |CONNECTION|;
    if i < |hs| {
      assert b[0] == RereadAll(hs)[0] && b[i] == RereadAll(hs)[i];
    } else {
      assert b[i] == ClosingHeaders(size)[i - |hs|];
      assert hs != [] ==> b[0] == Reread(hs[0]);
    }
  }

  /**
   For such a caller the table comes back exactly if the Host line fits, and the request
   line does or the first header is read under the name `Host` itself.
   */
  lemma OwnTableBackExact(m: Method, path: bytes, host: bytes, hs: seq<Header>, size: nat)
    requires OwnNames(hs)
    ensures HeadOut(m, path, host, hs, size).headers == TableOf([HostHeader(host)], hs, size)
            <==> Fits(HeaderLine(HostHeader(host)))
                 && (Fits(RequestLine(m, path)) || (hs != [] && Reread(hs[0]).name == HOST))
  {
    hide HeaderLine, RequestLine, HeadOut, TableOf, Reread, OwnNames, ByChance;
    TableBackExact(m, path, host, hs, size);
    var b := Behind(hs, size);
    if Fits(HeaderLine(HostHeader(host))) {
      FirstNotHost(hs, size);
    } else {
      forall i | 0 <= i < |b[1..]|
        ensures !CiEqual(b[0].name, b[1..][i].name)
      {
        FirstOnce(hs, size, i + 1);
      }
      if FirstOther(HOST, b[1..]).Some? {
        var i := OtherComes(HOST, b[1..]);
      }
    }
  }

  lemma FirstNotHost(hs: seq<Header>, size: nat)
    ensures Behind(hs, size)[0].name == HOST <==> hs != [] && Reread(hs[0]).name == HOST
  {
    hide Reread, DigitsText;
    ClosingRereads(size);
    assert hs == [] ==> hs + ClosingHeaders(size) == ClosingHeaders(size);
    assert |CONTENT_LENGTH| != |HOST|;
  }

  // ---- exactly when the length comes back ----

  /** The length, and with it the body, is lost exactly if the Host line swallows the Content-Length. */
  lemma LengthBackExact(m: Method, path: bytes, host: bytes, hs: seq<Header>, body: bytes)
    requires Sendable(path, host, hs) && |body| < SIZE_LIMIT
    ensures var r := ReadHead(ReadRequestStart, RequestBlock(m, path, host, hs, |body|));
            r.Some? && (r.value.length == |body| <==> hs != [] || Fits(HeaderLine(HostHeader(host))))
  {
    hide Sendable, ReadHead, ReadRequestStart, RequestBlock, RequestText, HeaderLine, IsHeadEnd;
    RequestReads(m, path, host, hs, body);
  }

  // ---- requests that lose something, and one that does not ----

  lemma ClosingHasNoHost(size: nat)
    ensures LastValue(ClosingHeaders(size), HOST) == None
  {
    hide DigitsText;
    var hs := ClosingHeaders(size);
    assert |CONNECTION| != |HOST| && |CONTENT_LENGTH| != |HOST|;
    var one := hs[..1];
    assert one == [hs[0]] && one[..0] == [];
    assert LastValue(one, HOST) == LastValue([], HOST);
    assert LastValue(hs, HOST) == LastValue(one, HOST);
  }

  /** A GET of a path of 241 to 250 bytes comes back with its path, and without a Host header. */
  lemma LongPathLosesHost(path: bytes, host: bytes, size: nat)
    requires SPACE !in path && 240 < |path| <= 250 && Fits(HeaderLine(HostHeader(host)))
    ensures var head := HeadOut(GET, path, host, [], size);
            head.start == Some(RequestStart(GET, path)) && GetHeader(head.headers, HOST) == None
  {
    assert ClosingHeaders(size) != [];
    hide HeaderLine, SetHeaders, GetHeader, LastValue, PathOut, Reread, ClosingHeaders;
    var closing, h := ClosingHeaders(size), HostHeader(host);
    assert |RequestLine(GET, path)| == |path| + 13;
    PathBackExact(GET, path, host, [] + closing);
    assert [] + closing == closing && ([h] + closing)[1..] == closing;
    ClosingRereads(size);
    ClosingHasNoHost(size);
    TableMeaning(closing, HOST);
  }

  /** A GET for a host of 248 bytes or more: without headers of the caller's, the length and the table are lost. */
  lemma LongHostLosesLength(host: bytes, body: bytes) returns (head: Head)
    requires |host| >= 248 && CR !in host && NulFree(host) && |body| < SIZE_LIMIT
    ensures ReadHead(ReadRequestStart, RequestBlock(GET, [0x2F], host, [], |body|)) == Some(head)
    ensures head.length == NO_LENGTH && head.headers != TableOf([HostHeader(host)], [], |body|)
  {
    assert !Fits(HeaderLine(HostHeader(host)));
    hide ReadHead, ReadRequestStart, RequestBlock, RequestText, HeaderLine, IsHeadEnd, PlainHeader, TableOf, HeadersOut;
    hide RestOut, SetHeaders, RereadAll, PathOut, NamesDiffer;
    head := HeadOut(GET, [0x2F], host, [], |body|);
    PlainHeaderWithoutCr(HostHeader(host));
    assert OwnNames([]) by { NoNames(); }
    RequestReads(GET, [0x2F], host, [], body);
    OwnTableBackExact(GET, [0x2F], host, [], |body|);
  }

  lemma NoNames()
    ensures NamesDiffer(RereadAll([]))
  {
  }

  /** A caller that sets a Content-Length and then a Host of its own gets its table back, however long the host. */
  lemma OwnHostComes(path: bytes, host: bytes, length: bytes, own: bytes, size: nat)
    requires Fits(RequestLine(GET, path)) && !Fits(HeaderLine(HostHeader(host)))
    ensures var hs := [Header(CONTENT_LENGTH, length), Header(HOST, own)];
            HeadOut(GET, path, host, hs, size).headers == TableOf([HostHeader(host)], hs, size)
  {
    hide HeaderLine, RequestLine, HeadOut, TableOf, Reread, SkipSpaces, DigitsText;
    var hs := [Header(CONTENT_LENGTH, length), Header(HOST, own)];
    var b := Behind(hs, size);
    RereadWithoutColon(hs[0]);
    RereadWithoutColon(hs[1]);
    ClosingRereads(size);
    RereadAllConcat(hs, ClosingHeaders(size));
    assert b[2] == ClosingHeaders(size)[0];
    assert b[1..] == [b[1]] + [b[2]] + b[3..];
    OtherBehind(HOST, b[1], b[2], b[3..]);
    TableBackExact(GET, path, host, hs, size);
  }

  lemma OtherBehind(n: bytes, y: Header, z: Header, ps: seq<Header>)
    requires y.name == n && |z.name| != |n|
    ensures FirstOther(n, [y] + [z] + ps) == Some(z.name) && Comes([y] + [z] + ps, n)
  {
    var all := [y] + [z] + ps;
    assert all[0] == y && all[1..] == [z] + ps && all[1..][0] == z;
    assert CiEqual(all[0].name, n) && !CiEqual(z.name, n);
  }
}
