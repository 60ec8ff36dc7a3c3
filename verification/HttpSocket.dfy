/**
 A connection as a stream of bytes, sent and received in pieces of any size, and
 the loops that read and write messages on it.
 */
module HttpSocket {
  import opened Bytes
  import opened HttpHead
  import opened HttpText

  const MAX_HEADER_SIZE: nat := 64 * 1024
  const CHUNK: nat := 4096

  class Socket {
    /** What will still be received before the peer closes. */
    var pending: bytes
    /** What has been sent, and how much more the connection will take before it breaks. */
    var sent: bytes
    var room: nat

    constructor (pending: bytes, room: nat)
      ensures this.pending == pending && sent == [] && this.room == room
    {
      this.pending, sent, this.room := pending, [], room;
    }

    /** Some of what is pending, at least a byte and at most `max`; nothing if the peer has closed. */
    method Receive(max: nat) returns (chunk: bytes)
      requires max > 0
      modifies this`pending
      ensures old(pending) == chunk + pending
      ensures chunk == [] <==> old(pending) == []
      ensures |chunk| <= max
    {
      if pending == [] {
        return [];
      }
      var n: nat :| 1 <= n <= max && n <= |pending|;
      chunk := pending[..n];
      pending := pending[n..];
    }

    /** Takes some of the data, at least a byte; 0 if the connection is broken. */
    method Send(data: bytes) returns (n: nat)
      requires data != []
      modifies this`sent, this`room
      ensures n <= |data| && n <= old(room) && (n == 0 <==> old(room) == 0)
      ensures sent == old(sent) + data[..n] && room == old(room) - n
    {
      if room == 0 {
        return 0;
      }
      n :| 1 <= n <= |data| && n <= room;
      sent := sent + data[..n];
      room := room - n;
    }
  }

  /** Sends all of the data, in however many pieces, unless the connection breaks. */
  method SendAll(sock: Socket, data: bytes) returns (ok: bool)
    modifies sock`sent, sock`room
    ensures ok <==> |data| <= old(sock.room)
    ensures sock.sent == old(sock.sent) + if ok then data else data[..old(sock.room)]
  {
    var k := 0;
    while k < |data|
      invariant k <= |data| && k <= old(sock.room) && sock.room == old(sock.room) - k
      invariant sock.sent == old(sock.sent) + data[..k]
    {
      var n := sock.Send(data[k..]);
      if n == 0 {
        return false;
      }
      assert data[..k] + data[k..][..n] == data[..k + n];
      k := k + n;
    }
    assert data[..k] == data;
    ok := true;
  }

  /** Where the head ends, if it does. */
  method FindHeadEnd(data: bytes) returns (r: Option<nat>)
    ensures r.None? <==> !HasHeadEnd(data)
    ensures r.Some? ==> IsHeadEnd(data, r.value)
  {
    if |data| < 4 {
      return None;
    }
    var i := 0;
    while i + 4 <= |data|
      invariant i + 3 <= |data| && forall k :: 0 <= k < i ==> !HeadEndAt(data, k)
    {
      if HeadEndAt(data, i) {
        return Some(i);
      }
      i := i + 1;
    }
    r := None;
  }

  // ---- pieces of a stream ----

  function Joined(pieces: seq<bytes>): bytes {
    if pieces == [] then [] else pieces[0] + Joined(pieces[1..])
  }

  /** A way in which a stream may come in: pieces of at least a byte and at most a chunk. */
  ghost predicate Cuts(pieces: seq<bytes>, stream: bytes) {
    Joined(pieces) == stream && forall i :: 0 <= i < |pieces| ==> 0 < |pieces[i]| <= CHUNK
  }

  /** Where the reader finds the end of the head of a stream that comes in these pieces, behind `raw`. */
  ghost function Found(raw: bytes, pieces: seq<bytes>): Option<nat>
    decreases |pieces|
  {
    if HasHeadEnd(raw) then Some(FirstHeadEnd(raw))
    else if |raw| > MAX_HEADER_SIZE || pieces == [] then None
    else Found(raw + pieces[0], pieces[1..])
  }

  lemma {:induction false} HeadEndFirst(s: bytes, i: nat) returns (e: nat)
    requires HeadEndAt(s, i)
    ensures IsHeadEnd(s, e) && e <= i
    decreases i
  {
    if j: nat :| j < i && HeadEndAt(s, j) {
      e := HeadEndFirst(s, j);
    } else {
      e := i;
    }
  }

  ghost function FirstHeadEnd(s: bytes): (e: nat)
    requires HasHeadEnd(s)
    ensures IsHeadEnd(s, e)
  {
    var i: nat :| HeadEndAt(s, i);
    assert exists e: nat :: IsHeadEnd(s, e) by {
      var e := HeadEndFirst(s, i);
    }
    var e: nat :| IsHeadEnd(s, e);
    e
  }

  /** The reader goes on while these pieces come in. */
  ghost predicate GoesOn(raw: bytes, pieces: seq<bytes>)
    decreases |pieces|
  {
    pieces == [] || (!HasHeadEnd(raw) && |raw| <= MAX_HEADER_SIZE && GoesOn(raw + pieces[0], pieces[1..]))
  }

  lemma {:induction false} FoundBehind(raw: bytes, pieces: seq<bytes>, more: seq<bytes>)
    requires GoesOn(raw, pieces)
    ensures Found(raw, pieces + more) == Found(raw + Joined(pieces), more)
    decreases |pieces|
  {
    if pieces == [] {
      assert pieces + more == more && raw + Joined(pieces) == raw;
    } else {
      FoundBehind(raw + pieces[0], pieces[1..], more);
      assert (pieces + more)[1..] == pieces[1..] + more;
      assert raw + pieces[0] + Joined(pieces[1..]) == raw + Joined(pieces);
    }
  }

  lemma {:induction false} OnePieceMore(raw: bytes, pieces: seq<bytes>, piece: bytes)
    requires GoesOn(raw, pieces)
    requires !HasHeadEnd(raw + Joined(pieces)) && |raw + Joined(pieces)| <= MAX_HEADER_SIZE
    ensures GoesOn(raw, pieces + [piece]) && Joined(pieces + [piece]) == Joined(pieces) + piece
    decreases |pieces|
  {
    if pieces == [] {
      assert raw + Joined(pieces) == raw && (pieces + [piece])[1..] == [];
    } else {
      assert raw + pieces[0] + Joined(pieces[1..]) == raw + Joined(pieces);
      OnePieceMore(raw + pieces[0], pieces[1..], piece);
      assert (pieces + [piece])[1..] == pieces[1..] + [piece];
    }
  }

  lemma Associated(a: bytes, b: bytes, c: bytes)
    ensures a + (b + c) == a + b + c
  {
  }

  lemma {:induction false} JoinedConcat(a: seq<bytes>, b: seq<bytes>)
    ensures Joined(a + b) == Joined(a) + Joined(b)
  {
    if a == [] {
      assert a + b == b;
    } else {
      JoinedConcat(a[1..], b);
      assert (a + b)[1..] == a[1..] + b;
      Associated(a[0], Joined(a[1..]), Joined(b));
    }
  }

  /** A stream byte by byte. */
  function Singles(s: bytes): seq<bytes> {
    seq(|s|, i requires 0 <= i < |s| => [s[i]])
  }

  lemma {:induction false} JoinedSingles(s: bytes)
    ensures Cuts(Singles(s), s)
  {
    if s == [] {
    } else {
      JoinedSingles(s[1..]);
      assert Singles(s)[1..] == Singles(s[1..]);
    }
  }

  /**
   Receives until the head is whole. However the stream is cut into pieces, nothing
   is lost or read twice; a head that ends within the limit is found, one that
   never ends or ends more than a piece beyond the limit is not.
   */
  method ReadUntilHeadersEnd(sock: Socket) returns (raw: bytes, end: Option<nat>, ghost pieces: seq<bytes>)
    modifies sock`pending
    ensures old(sock.pending) == raw + sock.pending
    ensures end.Some? ==> IsHeadEnd(raw, end.value) && IsHeadEnd(old(sock.pending), end.value)
    ensures end.None? ==> !HasHeadEnd(raw)
    ensures forall e: nat :: IsHeadEnd(old(sock.pending), e) && e + 4 <= MAX_HEADER_SIZE + 1 ==> end == Some(e)
    ensures end.Some? ==> end.value + 4 <= MAX_HEADER_SIZE + CHUNK
    ensures !HasHeadEnd(old(sock.pending)) ==> end == None
    ensures Cuts(pieces, old(sock.pending)) && end == Found([], pieces)
  {
    hide Found, Joined, HeadEndAt;
    raw, pieces := [], [];
    NothingJoined();
    ghost var all := sock.pending;
    while true
      invariant all == raw + sock.pending && |raw| <= MAX_HEADER_SIZE + CHUNK
      invariant GoesOn([], pieces) && Joined(pieces) == raw
      invariant forall i :: 0 <= i < |pieces| ==> 0 < |pieces[i]| <= CHUNK
      decreases |sock.pending|
    {
      end := FindHeadEnd(raw);
      if end.Some? {
        HeadEndFits(raw, end.value);
        HeadEndStays(raw, sock.pending, end.value);
        forall e: nat | IsHeadEnd(all, e)
          ensures end == Some(e)
        {
          HeadEndUnique(all, e, end.value);
        }
        RestByteByByte(pieces, raw, sock.pending);
        HeadEndUnique(raw, FirstHeadEnd(raw), end.value);
        pieces := pieces + Singles(sock.pending);
        return;
      }
      if |raw| > MAX_HEADER_SIZE {
        EndBeyond(raw, sock.pending);
        RestByteByByte(pieces, raw, sock.pending);
        pieces := pieces + Singles(sock.pending);
        return;
      }
      var chunk := sock.Receive(CHUNK);
      if chunk == [] {
        assert raw + [] == raw;
        RestByteByByte(pieces, raw, []);
        pieces := pieces + Singles([]);
        return;
      }
      assert raw + (chunk + sock.pending) == raw + chunk + sock.pending;
      assert [] + Joined(pieces) == raw;
      OnePieceMore([], pieces, chunk);
      raw, pieces := raw + chunk, pieces + [chunk];
    }
  }

  lemma NothingJoined()
    ensures Joined([]) == []
  {
  }

  lemma HeadEndFits(s: bytes, e: nat)
    requires IsHeadEnd(s, e)
    ensures e + 4 <= |s| && HasHeadEnd(s)
  {
  }

  /** Where the reader has stopped, it does not matter how the rest would have come in. */
  lemma RestByteByByte(pieces: seq<bytes>, raw: bytes, rest: bytes)
    requires GoesOn([], pieces) && Joined(pieces) == raw
    requires forall i :: 0 <= i < |pieces| ==> 0 < |pieces[i]| <= CHUNK
    requires HasHeadEnd(raw) || |raw| > MAX_HEADER_SIZE || rest == []
    ensures Cuts(pieces + Singles(rest), raw + rest)
    ensures Found([], pieces + Singles(rest)) == if HasHeadEnd(raw) then Some(FirstHeadEnd(raw)) else None
  {
    hide Joined, HasHeadEnd;
    JoinedConcat(pieces, Singles(rest));
    JoinedSingles(rest);
    FoundBehind([], pieces, Singles(rest));
    assert [] + raw == raw;
  }

  lemma EndBeyond(raw: bytes, rest: bytes)
    requires !HasHeadEnd(raw)
    ensures forall e: nat :: HeadEndAt(raw + rest, e) ==> e + 4 > |raw|
  {
    forall e: nat | HeadEndAt(raw + rest, e)
      ensures e + 4 > |raw|
    {
      if e + 4 <= |raw| {
        assert HeadEndAt(raw, e);
      }
    }
  }

  /** Reads the body, of which a part may have come with the head. */
  method ReadBody(sock: Socket, length: int, prefix: bytes) returns (body: bytes)
    modifies sock`pending
    ensures body == BodyOf(length, prefix + old(sock.pending))
    ensures sock.pending == if length <= |prefix| then old(sock.pending)
                            else if |old(sock.pending)| <= length - |prefix| then []
                            else old(sock.pending)[length - |prefix|..]
  {
    body := [];
    if length <= 0 {
      return;
    }
    var take := if |prefix| < length then |prefix| else length;
    body := prefix[..take];
    ghost var stream := prefix + sock.pending;
    if take == length {
      assert stream[..length] == prefix[..length];
    }
    while |body| < length
      invariant |body| <= length && take <= |body|
      invariant take < length ==> take == |prefix| && stream == body + sock.pending
      invariant take == length ==> body == stream[..length] && sock.pending == old(sock.pending)
    {
      var remaining := length - |body|;
      var chunk := sock.Receive(if remaining < CHUNK then remaining else CHUNK);
      if chunk == [] {
        break;
      }
      assert body + (chunk + sock.pending) == body + chunk + sock.pending;
      body := body + chunk;
    }
    if take < length {
      Consumed(prefix, old(sock.pending), body, sock.pending);
    }
  }

  lemma Consumed(prefix: bytes, before: bytes, body: bytes, after: bytes)
    requires prefix + before == body + after && |prefix| <= |body|
    ensures after == before[|body| - |prefix|..] && body == (prefix + before)[..|body|]
  {
    var s := prefix + before;
    assert after == s[|body|..];
  }

  // ---- exactly when a head is found ----

  /** Whatever is found is the end of the head, not more than a piece beyond the limit. */
  lemma {:induction false} FoundWithin(raw: bytes, pieces: seq<bytes>)
    requires Found(raw, pieces).Some? && |raw| <= MAX_HEADER_SIZE + CHUNK
    requires forall i :: 0 <= i < |pieces| ==> |pieces[i]| <= CHUNK
    ensures var e := Found(raw, pieces).value; IsHeadEnd(raw + Joined(pieces), e) && e + 4 <= MAX_HEADER_SIZE + CHUNK
    decreases |pieces|
  {
    hide HeadEndAt;
    if HasHeadEnd(raw) {
      HeadEndFits(raw, FirstHeadEnd(raw));
      HeadEndStays(raw, Joined(pieces), FirstHeadEnd(raw));
    } else {
      FoundWithin(raw + pieces[0], pieces[1..]);
      assert raw + pieces[0] + Joined(pieces[1..]) == raw + Joined(pieces);
    }
  }

  /** A head that ends by the limit is found in whatever pieces it comes in. */
  lemma {:induction false} FoundAlways(raw: bytes, pieces: seq<bytes>, e: nat)
    requires IsHeadEnd(raw + Joined(pieces), e) && e + 4 <= MAX_HEADER_SIZE + 1
    ensures Found(raw, pieces) == Some(e)
    decreases |pieces|
  {
    if pieces == [] {
      assert raw + Joined(pieces) == raw;
    }
    if HasHeadEnd(raw) {
      HeadEndStays(raw, Joined(pieces), FirstHeadEnd(raw));
      HeadEndUnique(raw + Joined(pieces), FirstHeadEnd(raw), e);
    } else {
      EndBeyond(raw, Joined(pieces));
      if pieces != [] {
        assert raw + pieces[0] + Joined(pieces[1..]) == raw + Joined(pieces);
        FoundAlways(raw + pieces[0], pieces[1..], e);
      }
    }
  }

  lemma {:induction false} GoesOnByteByByte(raw: bytes, s: bytes)
    requires !HasHeadEnd(raw + s) && |raw| + |s| <= MAX_HEADER_SIZE + 1
    ensures GoesOn(raw, Singles(s))
    decreases |s|
  {
    if s == [] {
    } else {
      forall i: nat
        ensures !HeadEndAt(raw, i)
      {
        assert !HeadEndAt(raw + s, i);
      }
      assert raw + [s[0]] + s[1..] == raw + s;
      GoesOnByteByByte(raw + [s[0]], s[1..]);
      assert Singles(s)[1..] == Singles(s[1..]) && Singles(s)[0] == [s[0]];
    }
  }

  /** No head ends in a prefix that is too short for it. */
  lemma NotYet(stream: bytes, e: nat, n: nat)
    requires IsHeadEnd(stream, e) && n < e + 4 && n <= |stream|
    ensures !HasHeadEnd(stream[..n])
  {
    forall i: nat
      ensures !HeadEndAt(stream[..n], i)
    {
      assert i < e ==> !HeadEndAt(stream, i);
    }
  }

  /** A cutting in which a late head is missed: byte by byte. */
  lemma MissedByteByByte(stream: bytes, e: nat)
    requires IsHeadEnd(stream, e) && e + 4 > MAX_HEADER_SIZE + 1
    ensures Cuts(Singles(stream), stream) && Found([], Singles(stream)) == None
  {
    hide HeadEndAt;
    HeadEndFits(stream, e);
    var n := MAX_HEADER_SIZE + 1;
    var s, rest := stream[..n], stream[n..];
    NotYet(stream, e, n);
    assert [] + s == s;
    GoesOnByteByByte([], s);
    JoinedSingles(s);
    FoundBehind([], Singles(s), Singles(rest));
    assert Singles(stream) == Singles(s) + Singles(rest);
    JoinedSingles(stream);
  }

  /** A cutting in which it is found: byte by byte up to the limit, and then the rest of the head. */
  lemma FoundInTime(stream: bytes, e: nat) returns (pieces: seq<bytes>)
    requires IsHeadEnd(stream, e) && MAX_HEADER_SIZE + 1 < e + 4 <= MAX_HEADER_SIZE + CHUNK
    ensures Cuts(pieces, stream) && Found([], pieces) == Some(e)
  {
    hide HeadEndAt, Found, Joined, IsHeadEnd, HasHeadEnd, GoesOn;
    HeadInPrefix(stream, e);
    var n := MAX_HEADER_SIZE;
    var s, piece, rest := stream[..n], stream[n..e + 4], stream[e + 4..];
    NotYet(stream, e, n);
    assert [] + s == s && s + piece == stream[..e + 4];
    GoesOnByteByByte([], s);
    JoinedSingles(s);
    pieces := Singles(s) + ([piece] + Singles(rest));
    FoundBehind([], Singles(s), [piece] + Singles(rest));
    FoundNext(s, piece, Singles(rest), e);
    assert s + piece + rest == stream;
    CutsInThree(s, piece, rest);
  }

  lemma FoundNext(s: bytes, piece: bytes, more: seq<bytes>, e: nat)
    requires !HasHeadEnd(s) && |s| <= MAX_HEADER_SIZE && IsHeadEnd(s + piece, e)
    ensures Found(s, [piece] + more) == Some(e)
  {
    hide HeadEndAt;
    HeadEndFits(s + piece, e);
    HeadEndUnique(s + piece, FirstHeadEnd(s + piece), e);
    assert ([piece] + more)[1..] == more;
  }

  lemma CutsInThree(s: bytes, piece: bytes, rest: bytes)
    requires 0 < |piece| <= CHUNK
    ensures Cuts(Singles(s) + ([piece] + Singles(rest)), s + piece + rest)
  {
    JoinedSingles(s);
    JoinedSingles(rest);
    JoinedConcat(Singles(s), [piece] + Singles(rest));
    assert ([piece] + Singles(rest))[1..] == Singles(rest);
    assert s + (piece + rest) == s + piece + rest;
  }

  lemma HeadInPrefix(stream: bytes, e: nat)
    requires IsHeadEnd(stream, e)
    ensures e + 4 <= |stream| && IsHeadEnd(stream[..e + 4], e)
  {
    var s := stream[..e + 4];
    forall i: nat | i < e
      ensures !HeadEndAt(s, i)
    {
      assert !HeadEndAt(stream, i);
    }
  }

  /**
   A head is found however its stream is cut exactly if it ends at byte 65537 or
   before, and in some cutting exactly if it ends no more than a piece beyond 64 KiB;
   so one that ends in between is found or not as the pieces happen to come.
   */
  lemma HeadLimitExact(stream: bytes, e: nat)
    requires IsHeadEnd(stream, e)
    ensures (forall ps :: Cuts(ps, stream) ==> Found([], ps) == Some(e)) <==> e + 4 <= 65_537
    ensures (exists ps :: Cuts(ps, stream) && Found([], ps) == Some(e)) <==> e + 4 <= 69_632
  {
    forall ps | Cuts(ps, stream)
      ensures e + 4 <= MAX_HEADER_SIZE + 1 ==> Found([], ps) == Some(e)
      ensures Found([], ps).Some? ==> e + 4 <= MAX_HEADER_SIZE + CHUNK
    {
      assert [] + Joined(ps) == stream;
      if e + 4 <= MAX_HEADER_SIZE + 1 {
        FoundAlways([], ps, e);
      }
      if Found([], ps).Some? {
        FoundWithin([], ps);
        HeadEndUnique(stream, Found([], ps).value, e);
      }
    }
    JoinedSingles(stream);
    if e + 4 > MAX_HEADER_SIZE + 1 {
      MissedByteByByte(stream, e);
      if e + 4 <= MAX_HEADER_SIZE + CHUNK {
        var ps := FoundInTime(stream, e);
      }
    }
  }

  /** There are heads that end in between. */
  lemma LateHead() returns (stream: bytes, e: nat)
    ensures IsHeadEnd(stream, e) && MAX_HEADER_SIZE + 1 < e + 4 <= MAX_HEADER_SIZE + CHUNK
  {
    e := MAX_HEADER_SIZE - 2;
    var line: bytes := seq(e, _ => 0x61);
    stream := line + HEAD_END;
    assert forall i :: 0 <= i < e ==> stream[i] == 0x61;
  }
}
