/** Base64 (RFC 4648, section 4): the group encoder and decoder, and the two loops. */
module Base64 {
  import opened Bytes
  import opened Codec

  type sextet = bv32

  const PAD: byte := 0x3D // '='

  /** Entry `k` of the alphabet, for k < 64. */
  function Letter(k: sextet): byte {
    if k < 26 then (k & 0xFF) as byte + 0x41
    else if k < 52 then (k & 0xFF) as byte - 26 + 0x61
    else if k < 62 then (k & 0xFF) as byte - 52 + 0x30
    else if k == 62 then 0x2B
    else 0x2F
  }

  /** The position of a letter; None where the program returns -1. */
  function Value(c: byte): (r: Option<sextet>)
    ensures r.Some? ==> r.value < 64
  {
    if 0x41 <= c <= 0x5A then Some((c - 0x41) as sextet)
    else if 0x61 <= c <= 0x7A then Some((c - 0x61 + 26) as sextet)
    else if 0x30 <= c <= 0x39 then Some((c - 0x30 + 52) as sextet)
    else if c == 0x2B then Some(62)
    else if c == 0x2F then Some(63)
    else None
  }

  lemma ValueOfLetter(k: sextet)
    requires k < 64
    ensures Value(Letter(k)) == Some(k) && Letter(k) != PAD && Letter(k) != 0
  {
  }

  lemma LetterOfValue(c: byte)
    requires Value(c).Some?
    ensures Letter(Value(c).value) == c
  {
  }

  // ---- one group ----

  function Triple(a: byte, b: byte, c: byte): bv32 {
    (a as bv32 << 16) | (b as bv32 << 8) | c as bv32
  }

  /** Four letters for `n` bytes, padded. */
  function Letters(s0: sextet, s1: sextet, s2: sextet, s3: sextet, n: nat): (r: bytes)
    ensures |r| == 4
  {
    [Letter(s0), Letter(s1), if n > 1 then Letter(s2) else PAD, if n > 2 then Letter(s3) else PAD]
  }

  /** One to three bytes in 24 bits; missing bytes count as zero. */
  function TripleOf(g: bytes): bv32
    requires 1 <= |g| <= 3
  {
    Triple(g[0], if |g| > 1 then g[1] else 0, if |g| > 2 then g[2] else 0)
  }

  /** One to three bytes as four letters; there are no other groups. */
  function EncodeGroup(g: bytes): (r: bytes) {
    if |g| == 0 || |g| > 3 then [] else
    var triple := TripleOf(g);
    Letters((triple >> 18) & 0x3F, (triple >> 12) & 0x3F, (triple >> 6) & 0x3F, triple & 0x3F, |g|)
  }

  function Byte0(a: sextet, b: sextet): byte {
    (((a << 2) | (b >> 4)) & 0xFF) as byte
  }

  function Byte1(b: sextet, c: sextet): byte {
    ((((b & 0xF) << 4) | (c >> 2)) & 0xFF) as byte
  }

  function Byte2(c: sextet, d: sextet): byte {
    ((((c & 0x3) << 6) | d) & 0xFF) as byte
  }

  /** The first `n` of the bytes that four sextets hold. */
  function Joined(a: sextet, b: sextet, c: sextet, d: sextet, n: nat): (r: bytes)
    requires 1 <= n <= 3
    ensures |r| == n
  {
    if n == 1 then [Byte0(a, b)]
    else if n == 2 then [Byte0(a, b), Byte1(b, c)]
    else [Byte0(a, b), Byte1(b, c), Byte2(c, d)]
  }

  function DecodeGroup(t: bytes): (r: Option<bytes>) {
    if |t| != 4 then None else
    var a, b := Value(t[0]), Value(t[1]);
    var pad2, pad3 := t[2] == PAD, t[3] == PAD;
    var c := if pad2 then Some(0) else Value(t[2]);
    var d := if pad3 then Some(0) else Value(t[3]);
    if a.None? || b.None? || c.None? || d.None? || (pad2 && !pad3) then None
    else Some(Joined(a.value, b.value, c.value, d.value, if pad2 then 1 else if pad3 then 2 else 3))
  }

  // Splitting three bytes into sextets and joining them again.

  lemma SextetBits(t: bv32, x: byte, y: byte, z: byte)
    requires t == Triple(x, y, z)
    ensures t & 0xFFFFFF == t && t >> 16 == x as bv32 && (t >> 8) & 0xFF == y as bv32 && t & 0xFF == z as bv32
  {
  }

  lemma JoinedBits(t: bv32)
    requires t & 0xFFFFFF == t
    ensures var s0, s1, s2, s3 := (t >> 18) & 0x3F, (t >> 12) & 0x3F, (t >> 6) & 0x3F, t & 0x3F;
            Byte0(s0, s1) as bv32 == t >> 16 && Byte1(s1, s2) as bv32 == (t >> 8) & 0xFF &&
            Byte2(s2, s3) as bv32 == t & 0xFF &&
            ((t >> 8) & 0xFF == 0 ==> s1 & 0xF == 0) && (t & 0xFF == 0 ==> s2 & 0x3 == 0)
  {
  }

  lemma SplitBits(x: byte, y: byte, z: byte) returns (s0: sextet, s1: sextet, s2: sextet, s3: sextet)
    ensures var t := Triple(x, y, z);
            s0 == (t >> 18) & 0x3F && s1 == (t >> 12) & 0x3F && s2 == (t >> 6) & 0x3F && s3 == t & 0x3F
    ensures s0 < 64 && s1 < 64 && s2 < 64 && s3 < 64
    ensures Byte0(s0, s1) == x && Byte1(s1, s2) == y && Byte2(s2, s3) == z
    ensures (y == 0 ==> s1 & 0xF == 0) && (z == 0 ==> s2 & 0x3 == 0)
  {
    var t := Triple(x, y, z);
    s0, s1, s2, s3 := (t >> 18) & 0x3F, (t >> 12) & 0x3F, (t >> 6) & 0x3F, t & 0x3F;
    SextetBits(t, x, y, z);
    JoinedBits(t);
  }

  /** Joining sextets into three bytes and splitting them again. */
  lemma JoinBits(s0: sextet, s1: sextet, s2: sextet, s3: sextet)
    requires s0 < 64 && s1 < 64 && s2 < 64 && s3 < 64
    ensures var t := Triple(Byte0(s0, s1), Byte1(s1, s2), Byte2(s2, s3));
            (t >> 18) & 0x3F == s0 && (t >> 12) & 0x3F == s1 && (t >> 6) & 0x3F == s2 && t & 0x3F == s3
  {
  }

  lemma UnusedBits(s: sextet)
    requires s < 64
    ensures s & 0xF == 0 ==> Byte1(s, 0) == 0
    ensures s & 0x3 == 0 ==> Byte2(s, 0) == 0
  {
  }

  /** What the decoder makes of letters it knows. */
  lemma DecodeOfLetters(s0: sextet, s1: sextet, s2: sextet, s3: sextet, n: nat)
    requires s0 < 64 && s1 < 64 && s2 < 64 && s3 < 64 && 1 <= n <= 3
    ensures var t := Letters(s0, s1, s2, s3, n);
            DecodeGroup(t) == Some(Joined(s0, s1, s2, s3, n)) &&
            (n == 3 ==> PAD !in t) && NulFree(t) &&
            (CanonicalGroup(t) <==> (n == 1 ==> s1 & 0xF == 0) && (n == 2 ==> s2 & 0x3 == 0))
  {
    ValueOfLetter(s0);
    ValueOfLetter(s1);
    ValueOfLetter(s2);
    ValueOfLetter(s3);
  }

  /** The bits that the padding leaves unused are zero (RFC 4648, section 3.5). */
  predicate CanonicalGroup(t: bytes) {
    if |t| != 4 then false
    else if t[2] == PAD then Value(t[1]).Some? && Value(t[1]).value & 0xF == 0
    else if t[3] == PAD then Value(t[2]).Some? && Value(t[2]).value & 0x3 == 0
    else true
  }

  lemma EncodeGroupIs(g: bytes, t: bv32, s0: sextet, s1: sextet, s2: sextet, s3: sextet)
    requires 1 <= |g| <= 3 && t == TripleOf(g)
    requires s0 == (t >> 18) & 0x3F && s1 == (t >> 12) & 0x3F && s2 == (t >> 6) & 0x3F && s3 == t & 0x3F
    ensures EncodeGroup(g) == Letters(s0, s1, s2, s3, |g|)
  {
    hide TripleOf, Letters;
  }

  lemma TripleIs(g: bytes) returns (x: byte, y: byte, z: byte)
    requires 1 <= |g| <= 3
    ensures TripleOf(g) == Triple(x, y, z) && x == g[0]
    ensures y == (if |g| > 1 then g[1] else 0) && z == (if |g| > 2 then g[2] else 0)
  {
    x, y, z := g[0], if |g| > 1 then g[1] else 0, if |g| > 2 then g[2] else 0;
  }

  lemma LettersOfGroup(g: bytes) returns (s0: sextet, s1: sextet, s2: sextet, s3: sextet)
    requires 1 <= |g| <= 3
    ensures s0 < 64 && s1 < 64 && s2 < 64 && s3 < 64
    ensures EncodeGroup(g) == Letters(s0, s1, s2, s3, |g|)
    ensures Byte0(s0, s1) == g[0] && (|g| > 1 ==> Byte1(s1, s2) == g[1]) && (|g| > 2 ==> Byte2(s2, s3) == g[2])
    ensures (|g| == 1 ==> s1 & 0xF == 0) && (|g| == 2 ==> s2 & 0x3 == 0)
  {
    hide Triple, TripleOf, Byte0, Byte1, Byte2, Letters, EncodeGroup;
    var x, y, z := TripleIs(g);
    s0, s1, s2, s3 := SplitBits(x, y, z);
    EncodeGroupIs(g, Triple(x, y, z), s0, s1, s2, s3);
  }

  lemma DecodeOfEncodeGroup(g: bytes)
    requires 1 <= |g| <= 3
    ensures DecodeGroup(EncodeGroup(g)) == Some(g)
    ensures |g| == 3 ==> PAD !in EncodeGroup(g)
    ensures |EncodeGroup(g)| == 4 && CanonicalGroup(EncodeGroup(g)) && NulFree(EncodeGroup(g))
  {
    var s0, s1, s2, s3 := LettersOfGroup(g);
    DecodeOfLetters(s0, s1, s2, s3, |g|);
    assert Joined(s0, s1, s2, s3, |g|) == g;
  }

  /** An accepted group read as sextets: the letters, and the bytes they stand for. */
  lemma SextetsOfGroup(t: bytes) returns (s0: sextet, s1: sextet, s2: sextet, s3: sextet, n: nat)
    requires DecodeGroup(t).Some?
    ensures s0 < 64 && s1 < 64 && s2 < 64 && s3 < 64 && 1 <= n <= 3
    ensures t == Letters(s0, s1, s2, s3, n)
    ensures n < 3 ==> s3 == 0
    ensures n < 2 ==> s2 == 0
    ensures n == 3 <==> PAD !in t
  {
    LetterOfValue(t[0]);
    LetterOfValue(t[1]);
    s0, s1, s2, s3 := Value(t[0]).value, Value(t[1]).value, 0, 0;
    n := 1;
    if t[2] != PAD {
      LetterOfValue(t[2]);
      s2, n := Value(t[2]).value, 2;
      if t[3] != PAD {
        LetterOfValue(t[3]);
        s3, n := Value(t[3]).value, 3;
      }
    }
    assert Letters(s0, s1, s2, s3, n) == [t[0], t[1], t[2], t[3]];
  }

  lemma TripleOfJoined(s0: sextet, s1: sextet, s2: sextet, s3: sextet, n: nat)
    requires s0 < 64 && s1 < 64 && s2 < 64 && s3 < 64 && 1 <= n <= 3
    requires (n < 3 ==> s3 == 0) && (n < 2 ==> s2 == 0)
    requires (n == 1 ==> s1 & 0xF == 0) && (n == 2 ==> s2 & 0x3 == 0)
    ensures TripleOf(Joined(s0, s1, s2, s3, n)) == Triple(Byte0(s0, s1), Byte1(s1, s2), Byte2(s2, s3))
  {
    UnusedBits(s1);
    UnusedBits(s2);
    UnusedBits(0);
  }

  lemma EncodeOfJoined(s0: sextet, s1: sextet, s2: sextet, s3: sextet, n: nat)
    requires s0 < 64 && s1 < 64 && s2 < 64 && s3 < 64 && 1 <= n <= 3
    requires (n < 3 ==> s3 == 0) && (n < 2 ==> s2 == 0)
    requires (n == 1 ==> s1 & 0xF == 0) && (n == 2 ==> s2 & 0x3 == 0)
    ensures EncodeGroup(Joined(s0, s1, s2, s3, n)) == Letters(s0, s1, s2, s3, n)
  {
    TripleOfJoined(s0, s1, s2, s3, n);
    JoinBits(s0, s1, s2, s3);
  }

  lemma EncodeOfDecodeGroup(t: bytes)
    requires DecodeGroup(t).Some? && CanonicalGroup(t)
    ensures 1 <= |DecodeGroup(t).value| <= 3
    ensures EncodeGroup(DecodeGroup(t).value) == t
    ensures PAD !in t <==> |DecodeGroup(t).value| == 3
  {
    var s0, s1, s2, s3, n := SextetsOfGroup(t);
    DecodeOfLetters(s0, s1, s2, s3, n);
    EncodeOfJoined(s0, s1, s2, s3, n);
  }

  // ---- texts, group by group ----
  // The group functions are parameters here, so that what follows rests only on
  // the properties of groups proved above.

  function Min(a: nat, b: nat): nat {
    if a < b then a else b
  }

  function EncodeGroups(enc: bytes -> bytes, x: bytes): (r: bytes) {
    if x == [] then []
    else
      var n := Min(3, |x|);
      enc(x[..n]) + EncodeGroups(enc, x[n..])
  }

  function DecodeGroups(dec: bytes -> Option<bytes>, t: bytes): (r: Option<bytes>) {
    if t == [] then Some([])
    else if |t| < 4 then None
    else match dec(t[..4])
      case None => None
      case Some(g) =>
        match DecodeGroups(dec, t[4..])
        case None => None
        case Some(x) => Some(g + x)
  }

  /** The only `=` are in the last group, and the bits they leave unused are zero. */
  predicate CanonicalText(canon: bytes -> bool, t: bytes) {
    |t| % 4 == 0 && (t == [] || (PAD !in t[..|t| - 4] && canon(t[|t| - 4..])))
  }

  /** What encoding a group promises: it is read back, and is canonical. */
  ghost predicate GroupReadsBack(enc: bytes -> bytes, dec: bytes -> Option<bytes>, canon: bytes -> bool) {
    forall g {:trigger enc(g)} :: 1 <= |g| <= 3 ==>
      |enc(g)| == 4 && dec(enc(g)) == Some(g) && canon(enc(g)) && NulFree(enc(g)) && (|g| == 3 ==> PAD !in enc(g))
  }

  /** What decoding a group promises: between one and three bytes, which a canonical group is the encoding of. */
  ghost predicate GroupWritesBack(enc: bytes -> bytes, dec: bytes -> Option<bytes>, canon: bytes -> bool) {
    forall t {:trigger dec(t)} :: dec(t).Some? ==>
      |t| == 4 && 1 <= |dec(t).value| <= 3 && (PAD !in t ==> canon(t)) &&
      (canon(t) ==> enc(dec(t).value) == t && (PAD !in t <==> |dec(t).value| == 3))
  }

  lemma CanonicalCons(canon: bytes -> bool, g: bytes, t: bytes)
    requires |g| == 4 && |t| % 4 == 0
    ensures t == [] ==> (CanonicalText(canon, g + t) <==> canon(g))
    ensures t != [] ==> (CanonicalText(canon, g + t) <==> PAD !in g && CanonicalText(canon, t))
  {
    var s := g + t;
    if t == [] {
      assert s == g && s[..|s| - 4] == [] && s[|s| - 4..] == g;
    } else {
      assert s[..|s| - 4] == g + t[..|t| - 4];
      assert s[|s| - 4..] == t[|t| - 4..];
    }
  }

  lemma DecodeCons(dec: bytes -> Option<bytes>, g: bytes, t: bytes)
    requires |g| == 4
    ensures DecodeGroups(dec, g + t)
         == match dec(g)
            case None => None
            case Some(x) => (match DecodeGroups(dec, t) case None => None case Some(y) => Some(x + y))
  {
    assert (g + t)[..4] == g && (g + t)[4..] == t;
  }

  lemma {:induction false} EncodedLength(enc: bytes -> bytes, x: bytes)
    requires forall g {:trigger enc(g)} :: 1 <= |g| <= 3 ==> |enc(g)| == 4
    ensures |EncodeGroups(enc, x)| == (|x| + 2) / 3 * 4
  {
    if x == [] {
    } else {
      var n := Min(3, |x|);
      EncodedLength(enc, x[n..]);
      assert |enc(x[..n])| == 4;
    }
  }

  lemma NulFreeBoth(a: bytes, b: bytes)
    requires NulFree(a) && NulFree(b)
    ensures NulFree(a + b)
  {
  }

  lemma CanonicalLength(canon: bytes -> bool, t: bytes)
    requires CanonicalText(canon, t)
    ensures |t| % 4 == 0
  {
  }

  lemma {:induction false} DecodeOfEncodeGroups(enc: bytes -> bytes, dec: bytes -> Option<bytes>, canon: bytes -> bool,
                                                x: bytes)
    requires GroupReadsBack(enc, dec, canon)
    ensures DecodeGroups(dec, EncodeGroups(enc, x)) == Some(x)
    ensures CanonicalText(canon, EncodeGroups(enc, x)) && NulFree(EncodeGroups(enc, x))
  {
    if x == [] {
    } else {
      var n := Min(3, |x|);
      var g, rest := enc(x[..n]), EncodeGroups(enc, x[n..]);
      assert |g| == 4 && dec(g) == Some(x[..n]) && canon(g) && NulFree(g) && (n == 3 ==> PAD !in g);
      assert EncodeGroups(enc, x) == g + rest && x == x[..n] + x[n..];
      assert rest != [] ==> n == 3;
      hide GroupReadsBack, EncodeGroups, DecodeGroups, CanonicalText;
      DecodeOfEncodeGroups(enc, dec, canon, x[n..]);
      DecodeCons(dec, g, rest);
      CanonicalCons(canon, g, rest);
      NulFreeBoth(g, rest);
      CanonicalLength(canon, rest);
    }
  }

  lemma DecodeUncons(dec: bytes -> Option<bytes>, t: bytes) returns (g: bytes, rest: bytes, a: bytes, y: bytes)
    requires t != [] && DecodeGroups(dec, t).Some?
    ensures |g| == 4 && t == g + rest && dec(g) == Some(a) && DecodeGroups(dec, rest) == Some(y)
    ensures DecodeGroups(dec, t) == Some(a + y) && |rest| == |t| - 4
  {
    g, rest := t[..4], t[4..];
    a, y := dec(g).value, DecodeGroups(dec, rest).value;
  }

  lemma EncodeCons(enc: bytes -> bytes, a: bytes, y: bytes)
    requires 1 <= |a| <= 3 && (y != [] ==> |a| == 3)
    ensures EncodeGroups(enc, a + y) == enc(a) + EncodeGroups(enc, y)
  {
    var x := a + y;
    assert x[..|a|] == a && x[|a|..] == y;
  }

  lemma {:induction false} EncodeOfCanonical(enc: bytes -> bytes, dec: bytes -> Option<bytes>, canon: bytes -> bool,
                                             t: bytes, x: bytes)
    requires GroupWritesBack(enc, dec, canon)
    requires DecodeGroups(dec, t) == Some(x) && CanonicalText(canon, t)
    ensures EncodeGroups(enc, x) == t
  {
    CanonicalLength(canon, t);
    if t == [] {
    } else {
      var g, rest, a, y := DecodeUncons(dec, t);
      assert 1 <= |a| <= 3 && (PAD !in g ==> canon(g)) && (canon(g) ==> enc(a) == g && (PAD !in g <==> |a| == 3));
      NoGroups(dec);
      hide GroupWritesBack, EncodeGroups, DecodeGroups, CanonicalText;
      CanonicalCons(canon, g, rest);
      EmptyCanonical(canon);
      EncodeOfCanonical(enc, dec, canon, rest, y);
      EncodeCons(enc, a, y);
    }
  }

  lemma EmptyCanonical(canon: bytes -> bool)
    ensures CanonicalText(canon, [])
  {
  }

  lemma NoGroups(dec: bytes -> Option<bytes>)
    ensures DecodeGroups(dec, []) == Some([])
  {
  }

  lemma {:induction false} DecodedLength(dec: bytes -> Option<bytes>, t: bytes)
    requires DecodeGroups(dec, t).Some?
    ensures |t| % 4 == 0
  {
    hide DecodeGroups;
    if t == [] {
    } else {
      DecodeRest(dec, t);
      DecodedLength(dec, t[4..]);
    }
  }

  lemma DecodeRest(dec: bytes -> Option<bytes>, t: bytes)
    requires t != [] && DecodeGroups(dec, t).Some?
    ensures |t| >= 4 && |t[4..]| == |t| - 4 && DecodeGroups(dec, t[4..]).Some?
  {
  }

  // ---- base64 ----

  function Encode(x: bytes): bytes {
    EncodeGroups(EncodeGroup, x)
  }

  function Decode(t: bytes): Option<bytes> {
    DecodeGroups(DecodeGroup, t)
  }

  predicate Canonical(t: bytes) {
    CanonicalText(CanonicalGroup, t)
  }

  lemma GroupsAreInverse()
    ensures GroupReadsBack(EncodeGroup, DecodeGroup, CanonicalGroup)
    ensures GroupWritesBack(EncodeGroup, DecodeGroup, CanonicalGroup)
  {
    forall g: bytes | 1 <= |g| <= 3
      ensures |EncodeGroup(g)| == 4 && DecodeGroup(EncodeGroup(g)) == Some(g)
      ensures CanonicalGroup(EncodeGroup(g)) && NulFree(EncodeGroup(g)) && (|g| == 3 ==> PAD !in EncodeGroup(g))
    {
      DecodeOfEncodeGroup(g);
    }
    forall t: bytes | DecodeGroup(t).Some?
      ensures |t| == 4 && 1 <= |DecodeGroup(t).value| <= 3 && (PAD !in t ==> CanonicalGroup(t))
      ensures CanonicalGroup(t) ==>
                EncodeGroup(DecodeGroup(t).value) == t && (PAD !in t <==> |DecodeGroup(t).value| == 3)
    {
      if CanonicalGroup(t) {
        EncodeOfDecodeGroup(t);
      }
    }
  }

  /** Decoding undoes encoding for every byte sequence, and the encoding has the length allocated for it. */
  lemma DecodeOfEncode(x: bytes)
    ensures Decode(Encode(x)) == Some(x)
    ensures |Encode(x)| == (|x| + 2) / 3 * 4
    ensures Canonical(Encode(x)) && NulFree(Encode(x))
  {
    GroupsAreInverse();
    DecodeOfEncodeGroups(EncodeGroup, DecodeGroup, CanonicalGroup, x);
    EncodedLength(EncodeGroup, x);
  }

  /** Encoding restores an accepted text exactly when it is canonical. */
  lemma EncodeOfDecode(t: bytes)
    requires Decode(t).Some?
    ensures Encode(Decode(t).value) == t <==> Canonical(t)
  {
    DecodeOfEncode(Decode(t).value);
    GroupsAreInverse();
    if Canonical(t) {
      EncodeOfCanonical(EncodeGroup, DecodeGroup, CanonicalGroup, t, Decode(t).value);
    }
  }

  // ---- the loops ----

  /** The suffix of the encoding that is still to be written. */
  ghost function Pending(x: bytes, i: nat): bytes {
    Encode(x[Min(i, |x|)..])
  }

  /** One turn of the encoding loop. */
  method EncodeAt(data: bytes, i: nat) returns (g: bytes)
    requires i < |data|
    ensures |g| == 4 && Pending(data, i) == g + Pending(data, i + 3)
  {
    var n := Min(3, |data| - i);
    assert data[i..][..n] == data[i..i + n] && data[i..][n..] == data[i + n..];
    g := EncodeGroup(data[i..i + n]);
    DecodeOfEncodeGroup(data[i..i + n]);
  }

  /** The encoding of `data` with its terminator, in an array of exactly that size. */
  method EncodeBytes(data: bytes) returns (out: array<byte>)
    ensures fresh(out) && out[..] == Encode(data) + [0]
  {
    ghost var img := Encode(data);
    DecodeOfEncode(data);
    out := new byte[(|data| + 2) / 3 * 4 + 1];
    var i, j := 0, 0;
    assert data[0..] == data;
    while i < |data|
      invariant 0 <= i && 0 <= j < out.Length
      invariant img[j..] == Pending(data, i)
      invariant out[..j] == img[..j]
    {
      var g := EncodeAt(data, i);
      Advance(img, j, g, Pending(data, i + 3));
      Put(out, j, g);
      i, j := i + 3, j + 4;
    }
    assert data[|data|..] == [] && Pending(data, i) == [];
    Put(out, j, [0]);
    assert out[..] == out[..j + 1];
  }

  /** One turn of the decoding loop. */
  method DecodeAt(text: bytes, i: nat) returns (r: Option<bytes>)
    requires i + 4 <= |text|
    ensures r.Some? ==> 1 <= |r.value| <= 3
    ensures Decode(text[i..]).Some? <==> r.Some? && Decode(text[i + 4..]).Some?
    ensures Decode(text[i..]).Some? ==> Decode(text[i..]).value == r.value + Decode(text[i + 4..]).value
  {
    assert text[i..][..4] == text[i..i + 4] && text[i..][4..] == text[i + 4..];
    r := DecodeGroup(text[i..i + 4]);
  }

  lemma AcceptedLength(text: bytes)
    requires Decode(text).Some?
    ensures |text| % 4 == 0
  {
    DecodedLength(DecodeGroup, text);
  }

  lemma DecodeOfNothing()
    ensures Decode([]) == Some([])
  {
  }

  /**
   Decodes the C string at the head of a buffer: the bytes are the first `size` of the
   array; null for a text that is rejected.
   */
  method DecodeText(buffer: bytes) returns (out: array?<byte>, size: nat)
    ensures out == null <==> Decode(UpToNul(buffer)).None?
    ensures out != null ==> fresh(out) && size <= out.Length && out[..size] == Decode(UpToNul(buffer)).value
  {
    var text := UpToNul(buffer);
    hide Decode;
    if Decode(text).Some? {
      AcceptedLength(text);
    }
    DecodeOfNothing();
    if |text| % 4 != 0 {
      return null, 0;
    }
    var outLen := |text| / 4 * 3;
    out := new byte[if outLen > 0 then outLen else 1];
    assert 4 * outLen == 3 * |text|;
    ghost var img := if Decode(text).Some? then Decode(text).value else [];
    var i, pos := 0, 0;
    assert text[0..] == text;
    while i < |text|
      invariant 0 <= i <= |text| && i % 4 == 0 && 0 <= 4 * pos <= 3 * i
      invariant Decode(text).Some? <==> Decode(text[i..]).Some?
      invariant Decode(text).Some? ==> pos <= |img| && img[pos..] == Decode(text[i..]).value && out[..pos] == img[..pos]
    {
      var r := DecodeAt(text, i);
      if r.None? {
        return null, 0;
      }
      var g := r.value;
      if Decode(text).Some? {
        Advance(img, pos, g, Decode(text[i + 4..]).value);
      }
      Put(out, pos, g);
      i, pos := i + 4, pos + |g|;
    }
    assert text[|text|..] == [];
    size := pos;
  }

  lemma PaddedGroup(g: bytes)
    requires g == [0x51, 0x51, 0x3D, 0x3D] || g == [0x51, 0x52, 0x3D, 0x3D]
    ensures |g| == 4 && PAD in g && DecodeGroup(g) == Some([0x41])
    ensures g[1] == 0x52 ==> !CanonicalGroup(g)
  {
  }

  lemma DecodePadded(g: bytes)
    requires |g| == 4 && DecodeGroup(g) == Some([0x41])
    ensures Decode(g) == Some([0x41]) && Decode(g + g) == Some([0x41, 0x41])
  {
    hide DecodeGroup, DecodeGroups;
    NoGroups(DecodeGroup);
    DecodeCons(DecodeGroup, g, []);
    DecodeCons(DecodeGroup, g, g);
    var a: bytes := [0x41];
    assert g + [] == g && a + [] == a && a + a == [0x41, 0x41];
  }

  /** A text that is accepted and not restored: the bits it leaves unused are not zero. */
  lemma UnusedBitsAccepted()
    ensures var g := [0x51, 0x52, 0x3D, 0x3D]; Decode(g) == Some([0x41]) && !Canonical(g)
  {
    hide DecodeGroup, CanonicalGroup, Decode;
    var g: bytes := [0x51, 0x52, 0x3D, 0x3D];
    PaddedGroup(g);
    DecodePadded(g);
    CanonicalCons(CanonicalGroup, g, []);
    assert g + [] == g;
  }

  /** And one with an `=` before its last group. */
  lemma EarlyPadAccepted()
    ensures var g := [0x51, 0x51, 0x3D, 0x3D]; Decode(g + g) == Some([0x41, 0x41]) && !Canonical(g + g)
  {
    hide DecodeGroup, CanonicalGroup, Decode;
    var g: bytes := [0x51, 0x51, 0x3D, 0x3D];
    PaddedGroup(g);
    DecodePadded(g);
    CanonicalCons(CanonicalGroup, g, g);
  }

  // ---- the encoding in numbers ----

  /** Table 1 of RFC 4648: the letters, in order, upper case first, the digits, `+` and `/`. */
  function Table(k: sextet): byte
    requires k < 64
  {
    if k < 26 then 0x41 + k as byte
    else if k < 52 then 0x61 + (k - 26) as byte
    else if k < 62 then 0x30 + (k - 52) as byte
    else if k == 62 then 0x2B
    else 0x2F
  }

  lemma LetterIsTable(k: sextet)
    requires k < 64
    ensures Letter(k) == Table(k) && Value(Table(k)) == Some(k)
  {
    ValueOfLetter(k);
  }

  /** Three bytes are a number of 24 bits, and four letters its digits to the base 64. */
  function Quad(n: bv32): bytes {
    [Table(n / 262144 % 64), Table(n / 4096 % 64), Table(n / 64 % 64), Table(n % 64)]
  }

  /** The number of a group; bytes that are missing count as zero. */
  function Number(g: bytes): bv32
    requires 1 <= |g| <= 3
  {
    65536 * g[0] as bv32 + (if |g| > 1 then 256 * g[1] as bv32 else 0) + if |g| > 2 then g[2] as bv32 else 0
  }

  lemma NumberIsTriple(g: bytes)
    requires 1 <= |g| <= 3
    ensures TripleOf(g) == Number(g)
  {
    hide Triple;
    TripleInNumbers(g[0], if |g| > 1 then g[1] else 0, if |g| > 2 then g[2] else 0);
  }

  /** Section 4: a letter more than there are bytes, and `=` for the others. */
  lemma GroupInNumbers(g: bytes)
    requires 1 <= |g| <= 3
    ensures var q := Quad(Number(g));
            EncodeGroup(g) == [q[0], q[1], if |g| > 1 then q[2] else 0x3D, if |g| > 2 then q[3] else 0x3D]
  {
    hide TripleOf, Number, Letter, Table, Triple, Quad, EncodeGroup;
    NumberIsTriple(g);
    GroupLetters(g, TripleOf(g));
  }

  lemma GroupLetters(g: bytes, t: bv32)
    requires 1 <= |g| <= 3 && t == TripleOf(g)
    ensures var q := Quad(t);
            EncodeGroup(g) == [q[0], q[1], if |g| > 1 then q[2] else 0x3D, if |g| > 2 then q[3] else 0x3D]
  {
    hide TripleOf, Number, Letter, Table, Triple, Quad, EncodeGroup;
    QuadLetters(t);
    EncodeGroupIs(g, t, (t >> 18) & 0x3F, (t >> 12) & 0x3F, (t >> 6) & 0x3F, t & 0x3F);
  }

  lemma TripleInNumbers(a: byte, b: byte, c: byte)
    ensures Triple(a, b, c) == 65536 * a as bv32 + 256 * b as bv32 + c as bv32
  {
  }

  lemma QuadLetters(t: bv32)
    ensures Quad(t) == [Letter((t >> 18) & 0x3F), Letter((t >> 12) & 0x3F), Letter((t >> 6) & 0x3F), Letter(t & 0x3F)]
  {
    SextetsInNumbers(t);
    hide Letter, Table;
    LetterIsTable((t >> 18) & 0x3F);
    LetterIsTable((t >> 12) & 0x3F);
    LetterIsTable((t >> 6) & 0x3F);
    LetterIsTable(t & 0x3F);
  }

  lemma SextetsInNumbers(t: bv32)
    ensures t / 262144 % 64 == (t >> 18) & 0x3F && t / 4096 % 64 == (t >> 12) & 0x3F
    ensures t / 64 % 64 == (t >> 6) & 0x3F && t % 64 == t & 0x3F
  {
  }

  /** A text of bytes is that of its first three, and that of the others. */
  lemma EncodedInGroups(g: bytes, x: bytes)
    ensures |g| == 3 ==> Encode(g + x) == EncodeGroup(g) + Encode(x)
    ensures 1 <= |g| <= 3 ==> Encode(g) == EncodeGroup(g)
    ensures Encode([]) == []
  {
    hide EncodeGroup;
    if |g| == 3 {
      assert (g + x)[..3] == g && (g + x)[3..] == x;
    }
    if 1 <= |g| <= 3 {
      assert g[..|g|] == g && g[|g|..] == [] && Encode([]) == [];
      assert EncodeGroup(g) + [] == EncodeGroup(g);
    }
  }
}
