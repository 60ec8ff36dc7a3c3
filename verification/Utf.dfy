/**
 UTF-8 and UTF-16: the code point decoder and the two transcoders. The shifts
 and masks are those of the program, on bit-vectors of the same width.
 */
module Utf {
  import opened Bytes
  import opened Codec

  type codepoint = bv32
  type unit = bv16

  const MAX_CODEPOINT: codepoint := 0x10FFFF

  // ---- one code point ----

  /** A continuation byte `10xxxxxx`. */
  predicate IsContinuation(b: byte) {
    b & 0xC0 == 0x80
  }

  /** Decodes the sequence at the head of `s`; the length is the number of bytes it takes. */
  function DecodeOne(s: bytes): (r: Option<(codepoint, nat)>)
    ensures r.Some? ==> 1 <= r.value.1 <= |s| && r.value.1 <= 4
  {
    if s == [] then None else
    var c := s[0];
    if c < 0x80 then
      Some((c as codepoint, 1))
    else if c & 0xE0 == 0xC0 && |s| >= 2 && IsContinuation(s[1]) then
      var cp := Join2(c, s[1]);
      if cp >= 0x80 then Some((cp, 2)) else None
    else if c & 0xF0 == 0xE0 && |s| >= 3 && IsContinuation(s[1]) && IsContinuation(s[2]) then
      var cp := Join3(c, s[1], s[2]);
      if cp >= 0x800 then Some((cp, 3)) else None
    else if c & 0xF8 == 0xF0 && |s| >= 4 && IsContinuation(s[1]) && IsContinuation(s[2]) && IsContinuation(s[3]) then
      var cp := Join4(c, s[1], s[2], s[3]);
      if 0x10000 <= cp <= MAX_CODEPOINT then Some((cp, 4)) else None
    else
      None
  }

  /** Casts an `unsigned int` to `char`, keeping the low eight bits. */
  function ToByte(x: bv32): byte {
    (x & 0xFF) as byte
  }

  /** The bytes written for a code point. */
  function EncodeOne(cp: codepoint): (r: bytes)
    ensures 1 <= |r| <= 4
  {
    if cp < 0x80 then
      [ToByte(cp)]
    else if cp < 0x800 then
      [ToByte(0xC0 | (cp >> 6)), ToByte(0x80 | (cp & 0x3F))]
    else if cp < 0x10000 then
      [ToByte(0xE0 | (cp >> 12)), ToByte(0x80 | ((cp >> 6) & 0x3F)), ToByte(0x80 | (cp & 0x3F))]
    else
      [ToByte(0xF0 | (cp >> 18)), ToByte(0x80 | ((cp >> 12) & 0x3F)),
       ToByte(0x80 | ((cp >> 6) & 0x3F)), ToByte(0x80 | (cp & 0x3F))]
  }

  // The bit arithmetic of the two, three and four byte forms, apart from sequences:
  // what the encoder's bytes decode to, and what the decoder's code points encode to.

  function Join2(b0: byte, b1: byte): codepoint {
    ((b0 & 0x1F) as codepoint << 6) | (b1 & 0x3F) as codepoint
  }

  function Join3(b0: byte, b1: byte, b2: byte): codepoint {
    ((b0 & 0x0F) as codepoint << 12) | ((b1 & 0x3F) as codepoint << 6) | (b2 & 0x3F) as codepoint
  }

  function Join4(b0: byte, b1: byte, b2: byte, b3: byte): codepoint {
    ((b0 & 0x07) as codepoint << 18) | ((b1 & 0x3F) as codepoint << 12)
    | ((b2 & 0x3F) as codepoint << 6) | (b3 & 0x3F) as codepoint
  }

  lemma Encode2Bits(cp: codepoint)
    requires 0x80 <= cp < 0x800
    ensures var b0, b1 := ToByte(0xC0 | (cp >> 6)), ToByte(0x80 | (cp & 0x3F));
            b0 >= 0x80 && b0 & 0xE0 == 0xC0 && IsContinuation(b1) && Join2(b0, b1) == cp
  {
  }

  lemma Encode3Bits(cp: codepoint)
    requires 0x800 <= cp < 0x10000
    ensures var b0, b1, b2 := ToByte(0xE0 | (cp >> 12)), ToByte(0x80 | ((cp >> 6) & 0x3F)), ToByte(0x80 | (cp & 0x3F));
            b0 >= 0x80 && b0 & 0xE0 != 0xC0 && b0 & 0xF0 == 0xE0 && IsContinuation(b1) && IsContinuation(b2) &&
            Join3(b0, b1, b2) == cp
  {
  }

  lemma Encode4Bits(cp: codepoint)
    requires 0x10000 <= cp <= MAX_CODEPOINT
    ensures var b0, b1 := ToByte(0xF0 | (cp >> 18)), ToByte(0x80 | ((cp >> 12) & 0x3F));
            var b2, b3 := ToByte(0x80 | ((cp >> 6) & 0x3F)), ToByte(0x80 | (cp & 0x3F));
            b0 >= 0x80 && b0 & 0xE0 != 0xC0 && b0 & 0xF0 != 0xE0 && b0 & 0xF8 == 0xF0 &&
            IsContinuation(b1) && IsContinuation(b2) && IsContinuation(b3) && Join4(b0, b1, b2, b3) == cp
  {
  }

  lemma Decode2Bits(b0: byte, b1: byte)
    requires b0 & 0xE0 == 0xC0 && IsContinuation(b1)
    ensures var cp := Join2(b0, b1);
            cp < 0x800 && ToByte(0xC0 | (cp >> 6)) == b0 && ToByte(0x80 | (cp & 0x3F)) == b1
  {
  }

  lemma Decode3Bits(b0: byte, b1: byte, b2: byte)
    requires b0 & 0xF0 == 0xE0 && IsContinuation(b1) && IsContinuation(b2)
    ensures var cp := Join3(b0, b1, b2);
            cp < 0x10000 && ToByte(0xE0 | (cp >> 12)) == b0 &&
            ToByte(0x80 | ((cp >> 6) & 0x3F)) == b1 && ToByte(0x80 | (cp & 0x3F)) == b2
  {
  }

  lemma Decode4Bits(b0: byte, b1: byte, b2: byte, b3: byte)
    requires b0 & 0xF8 == 0xF0 && IsContinuation(b1) && IsContinuation(b2) && IsContinuation(b3)
    ensures var cp := Join4(b0, b1, b2, b3);
            ToByte(0xF0 | (cp >> 18)) == b0 && ToByte(0x80 | ((cp >> 12) & 0x3F)) == b1 &&
            ToByte(0x80 | ((cp >> 6) & 0x3F)) == b2 && ToByte(0x80 | (cp & 0x3F)) == b3
  {
  }

  /** The decoder reads back every code point that the encoder writes, whatever follows. */
  lemma DecodeOneOfEncodeOne(cp: codepoint, rest: bytes)
    requires cp <= MAX_CODEPOINT
    ensures DecodeOne(EncodeOne(cp) + rest) == Some((cp, |EncodeOne(cp)|))
  {
    var e := EncodeOne(cp);
    var s := e + rest;
    assert s[0] == e[0];
    if cp < 0x80 {
      assert ToByte(cp) < 0x80 && ToByte(cp) as codepoint == cp;
    } else if cp < 0x800 {
      Encode2Bits(cp);
      assert s[1] == e[1];
    } else if cp < 0x10000 {
      Encode3Bits(cp);
      assert s[1] == e[1] && s[2] == e[2];
    } else {
      Encode4Bits(cp);
      assert s[1] == e[1] && s[2] == e[2] && s[3] == e[3];
    }
  }

  lemma Encode2OfDecode(s: bytes)
    requires |s| >= 2 && s[0] & 0xE0 == 0xC0 && IsContinuation(s[1])
    requires Join2(s[0], s[1]) >= 0x80
    ensures EncodeOne(Join2(s[0], s[1])) == s[..2]
  {
    Decode2Bits(s[0], s[1]);
  }

  lemma EncodeOneIs3(cp: codepoint, b0: byte, b1: byte, b2: byte)
    requires 0x800 <= cp < 0x10000
    requires ToByte(0xE0 | (cp >> 12)) == b0 && ToByte(0x80 | ((cp >> 6) & 0x3F)) == b1
    requires ToByte(0x80 | (cp & 0x3F)) == b2
    ensures EncodeOne(cp) == [b0, b1, b2]
  {
  }

  lemma Encode3Of(b0: byte, b1: byte, b2: byte) returns (cp: codepoint)
    requires b0 & 0xF0 == 0xE0 && IsContinuation(b1) && IsContinuation(b2)
    ensures cp == Join3(b0, b1, b2)
    ensures cp >= 0x800 ==> EncodeOne(cp) == [b0, b1, b2]
  {
    hide Join3, ToByte, EncodeOne;
    cp := Join3(b0, b1, b2);
    Decode3Bits(b0, b1, b2);
    if cp >= 0x800 {
      EncodeOneIs3(cp, b0, b1, b2);
    }
  }

  lemma Encode3OfDecode(s: bytes)
    requires |s| >= 3 && s[0] & 0xF0 == 0xE0 && IsContinuation(s[1]) && IsContinuation(s[2])
    requires Join3(s[0], s[1], s[2]) >= 0x800
    ensures EncodeOne(Join3(s[0], s[1], s[2])) == s[..3]
  {
    hide Join3, ToByte, EncodeOne, IsContinuation;
    var cp := Encode3Of(s[0], s[1], s[2]);
  }

  lemma EncodeOneIs4(cp: codepoint, b0: byte, b1: byte, b2: byte, b3: byte)
    requires cp >= 0x10000
    requires ToByte(0xF0 | (cp >> 18)) == b0 && ToByte(0x80 | ((cp >> 12) & 0x3F)) == b1
    requires ToByte(0x80 | ((cp >> 6) & 0x3F)) == b2 && ToByte(0x80 | (cp & 0x3F)) == b3
    ensures EncodeOne(cp) == [b0, b1, b2, b3]
  {
  }

  lemma Encode4Of(b0: byte, b1: byte, b2: byte, b3: byte) returns (cp: codepoint)
    requires b0 & 0xF8 == 0xF0 && IsContinuation(b1) && IsContinuation(b2) && IsContinuation(b3)
    ensures cp == Join4(b0, b1, b2, b3)
    ensures cp >= 0x10000 ==> EncodeOne(cp) == [b0, b1, b2, b3]
  {
    hide Join4, ToByte, EncodeOne;
    cp := Join4(b0, b1, b2, b3);
    Decode4Bits(b0, b1, b2, b3);
    if cp >= 0x10000 {
      EncodeOneIs4(cp, b0, b1, b2, b3);
    }
  }

  lemma Encode4OfDecode(s: bytes)
    requires |s| >= 4 && s[0] & 0xF8 == 0xF0 && IsContinuation(s[1]) && IsContinuation(s[2]) && IsContinuation(s[3])
    requires Join4(s[0], s[1], s[2], s[3]) >= 0x10000
    ensures EncodeOne(Join4(s[0], s[1], s[2], s[3])) == s[..4]
  {
    hide Join4, ToByte, EncodeOne, IsContinuation;
    var cp := Encode4Of(s[0], s[1], s[2], s[3]);
  }

  /** Every sequence the decoder accepts is the encoder's: no overlong form is accepted. */
  lemma EncodeOneOfDecodeOne(s: bytes)
    requires DecodeOne(s).Some?
    ensures var (cp, n) := DecodeOne(s).value;
            cp <= MAX_CODEPOINT && EncodeOne(cp) == s[..n]
  {
    var (cp, n) := DecodeOne(s).value;
    if n == 1 {
      assert ToByte(s[0] as codepoint) == s[0];
    } else if n == 2 {
      Encode2OfDecode(s);
    } else if n == 3 {
      Encode3OfDecode(s);
    } else {
      Encode4OfDecode(s);
    }
  }

  // ---- UTF-8 text ----

  predicate IsCodepoint(cp: codepoint) {
    cp <= MAX_CODEPOINT
  }

  lemma Utf8IsCodec()
    ensures ReadsBack(EncodeOne, DecodeOne, IsCodepoint) && WritesBack(EncodeOne, DecodeOne, IsCodepoint)
  {
    forall cp: codepoint, rest: bytes | IsCodepoint(cp)
      ensures DecodeOne(EncodeOne(cp) + rest) == Some((cp, |EncodeOne(cp)|))
    {
      DecodeOneOfEncodeOne(cp, rest);
    }
    forall s: bytes | DecodeOne(s).Some?
      ensures var (cp, n) := DecodeOne(s).value; IsCodepoint(cp) && EncodeOne(cp) == s[..n]
    {
      EncodeOneOfDecodeOne(s);
    }
  }

  /**
   A text decodes to `cps` exactly when it is the encoding of `cps`, all within
   Unicode's range; so the decoder accepts no overlong form.
   */
  lemma Utf8Exact(s: bytes, cps: seq<codepoint>)
    ensures DecodeAll(DecodeOne, s) == Some(cps) <==> All(IsCodepoint, cps) && EncodeAll(EncodeOne, cps) == s
  {
    Utf8IsCodec();
    DecodeAllExact(EncodeOne, DecodeOne, IsCodepoint, s, cps);
  }

  /** The texts that validate are the concatenations of accepted sequences, each in one way. */
  lemma Utf8ValidIffSegmentation(s: bytes)
    ensures DecodeAll(DecodeOne, s).Some? <==> exists segs :: Segmentation(DecodeOne, segs, s)
    ensures forall a, b :: Segmentation(DecodeOne, a, s) && Segmentation(DecodeOne, b, s) ==> a == b
  {
    Utf8IsCodec();
    DecodesIffSegmentation(EncodeOne, DecodeOne, IsCodepoint, s);
  }

  // ---- UTF-16 text ----

  predicate IsSurrogate(cp: codepoint) {
    0xD800 <= cp <= 0xDFFF
  }

  function ToUnit(x: bv32): unit {
    (x & 0xFFFF) as unit
  }

  /** The twenty-bit offset of a supplementary code point, carried by a surrogate pair. */
  function Offset(cp: codepoint): bv32 {
    cp - 0x10000
  }

  function EncodeUnits(cp: codepoint): (r: seq<unit>)
    ensures 1 <= |r| <= 2
  {
    if cp > 0xFFFF then
      var v := Offset(cp);
      [ToUnit(0xD800 + (v >> 10)), ToUnit(0xDC00 + (v & 0x3FF))]
    else
      [ToUnit(cp)]
  }

  /** The twenty bits carried by a high and a low surrogate. */
  function Payload(high: codepoint, low: codepoint): bv32 {
    ((high - 0xD800) << 10) + (low - 0xDC00)
  }

  /** The code point of a high and a low surrogate. */
  function JoinSurrogates(high: codepoint, low: codepoint): codepoint {
    0x10000 + Payload(high, low)
  }

  /** Decodes the code point at the head of `u`; None for an unpaired surrogate. */
  function DecodeUnits(u: seq<unit>): (r: Option<(codepoint, nat)>)
    ensures r.Some? ==> 1 <= r.value.1 <= |u| && r.value.1 <= 2
  {
    if u == [] then None
    else if 0xD800 <= u[0] <= 0xDBFF then
      if |u| < 2 || u[1] < 0xDC00 || u[1] > 0xDFFF then None
      else Some((JoinSurrogates(u[0] as codepoint, u[1] as codepoint), 2))
    else if 0xDC00 <= u[0] <= 0xDFFF then None
    else Some((u[0] as codepoint, 1))
  }

  /** Unicode scalar values: code points in range that are no surrogate. */
  predicate IsScalar(cp: codepoint) {
    cp <= MAX_CODEPOINT && !IsSurrogate(cp)
  }

  lemma UnitBits(cp: codepoint)
    requires cp <= 0xFFFF
    ensures ToUnit(cp) as codepoint == cp
    ensures !IsSurrogate(cp) ==> !(0xD800 <= ToUnit(cp) <= 0xDFFF)
  {
  }

  lemma NoCarry(a: bv32, b: bv32)
    requires a & b == 0
    ensures a + b == a | b
  {
  }

  predicate IsHigh(x: codepoint) {
    0xD800 <= x <= 0xDBFF
  }

  predicate IsLow(x: codepoint) {
    0xDC00 <= x <= 0xDFFF
  }

  lemma PayloadBits(high: codepoint, low: codepoint, v: bv32)
    requires v <= 0xFFFFF
    requires high - 0xD800 == v >> 10 && low - 0xDC00 == v & 0x3FF
    ensures Payload(high, low) == v
  {
    NoCarry((v >> 10) << 10, v & 0x3FF);
  }

  /** The surrogates that carry `v`. */
  lemma PairOfPayload(v: bv32) returns (high: codepoint, low: codepoint)
    requires v <= 0xFFFFF
    ensures high == 0xD800 + (v >> 10) && low == 0xDC00 + (v & 0x3FF)
    ensures IsHigh(high) && IsLow(low) && Payload(high, low) == v
  {
    high, low := 0xD800 + (v >> 10), 0xDC00 + (v & 0x3FF);
    PayloadBits(high, low, v);
  }

  lemma OffsetBits(cp: codepoint)
    requires 0xFFFF < cp <= MAX_CODEPOINT
    ensures Offset(cp) <= 0xFFFFF && 0x10000 + Offset(cp) == cp
  {
  }

  /** The bits that a pair carries, and where each half has its own. */
  lemma SplitBits(high: codepoint, low: codepoint) returns (v: bv32)
    requires IsHigh(high) && IsLow(low)
    ensures v == Payload(high, low) && v <= 0xFFFFF && v >> 10 == high - 0xD800 && v & 0x3FF == low - 0xDC00
  {
    v := Payload(high, low);
    NoCarry((high - 0xD800) << 10, low - 0xDC00);
  }

  lemma JoinIs(high: codepoint, low: codepoint, v: bv32)
    requires v == Payload(high, low)
    ensures JoinSurrogates(high, low) == 0x10000 + v
  {
  }

  lemma OffsetIs(v: bv32) returns (cp: codepoint)
    ensures cp == 0x10000 + v && Offset(cp) == v
  {
    cp := 0x10000 + v;
  }

  lemma HalvesBack(v: bv32, high: codepoint, low: codepoint)
    requires v >> 10 == high - 0xD800 && v & 0x3FF == low - 0xDC00
    ensures 0xD800 + (v >> 10) == high && 0xDC00 + (v & 0x3FF) == low
  {
  }

  lemma InRange(v: bv32)
    requires v <= 0xFFFFF
    ensures 0xFFFF < 0x10000 + v <= MAX_CODEPOINT
  {
  }

  /** The code point of a pair, with the bits it carries. */
  lemma JoinedPair(high: codepoint, low: codepoint) returns (cp: codepoint, v: bv32)
    requires IsHigh(high) && IsLow(low)
    ensures cp == JoinSurrogates(high, low) && Offset(cp) == v && 0xFFFF < cp <= MAX_CODEPOINT
    ensures 0xD800 + (v >> 10) == high && 0xDC00 + (v & 0x3FF) == low
  {
    hide Payload, JoinSurrogates, Offset, IsHigh, IsLow;
    v := SplitBits(high, low);
    JoinIs(high, low, v);
    cp := OffsetIs(v);
    HalvesBack(v, high, low);
    InRange(v);
  }

  /** A surrogate pair gives a supplementary code point, which has that pair. */
  lemma CodepointOfPair(high: codepoint, low: codepoint)
    requires IsHigh(high) && IsLow(low)
    ensures var cp := JoinSurrogates(high, low);
            0xFFFF < cp <= MAX_CODEPOINT && 0xD800 + (Offset(cp) >> 10) == high && 0xDC00 + (Offset(cp) & 0x3FF) == low
  {
    hide Payload, JoinSurrogates, Offset, IsHigh, IsLow;
    var cp, v := JoinedPair(high, low);
  }

  lemma JoinOfPayload(high: codepoint, low: codepoint, cp: codepoint)
    requires 0xFFFF < cp <= MAX_CODEPOINT && Payload(high, low) == Offset(cp)
    ensures JoinSurrogates(high, low) == cp
  {
    OffsetBits(cp);
  }

  lemma UnitOfSurrogate(x: codepoint) returns (u: unit)
    requires IsHigh(x) || IsLow(x)
    ensures u == ToUnit(x) && u as codepoint == x
    ensures (0xD800 <= u <= 0xDBFF <==> IsHigh(x)) && (0xDC00 <= u <= 0xDFFF <==> IsLow(x))
  {
    u := ToUnit(x);
  }

  lemma DecodeUnitsOfJoin(high: unit, low: unit, cp: codepoint, rest: seq<unit>)
    requires 0xD800 <= high <= 0xDBFF && 0xDC00 <= low <= 0xDFFF
    requires JoinSurrogates(high as codepoint, low as codepoint) == cp
    ensures DecodeUnits([high, low] + rest) == Some((cp, 2))
  {
    var u := [high, low] + rest;
    assert u[0] == high && u[1] == low;
  }

  lemma DecodeUnitsOfPair(high: unit, low: unit, cp: codepoint, rest: seq<unit>)
    requires 0xD800 <= high <= 0xDBFF && 0xDC00 <= low <= 0xDFFF
    requires 0xFFFF < cp <= MAX_CODEPOINT && Payload(high as codepoint, low as codepoint) == Offset(cp)
    ensures DecodeUnits([high, low] + rest) == Some((cp, 2))
  {
    JoinOfPayload(high as codepoint, low as codepoint, cp);
    DecodeUnitsOfJoin(high, low, cp, rest);
  }

  lemma PairFor(cp: codepoint) returns (high: unit, low: unit)
    requires 0xFFFF < cp <= MAX_CODEPOINT
    ensures EncodeUnits(cp) == [high, low]
    ensures 0xD800 <= high <= 0xDBFF && 0xDC00 <= low <= 0xDFFF
    ensures Payload(high as codepoint, low as codepoint) == Offset(cp)
  {
    OffsetBits(cp);
    var h, l := PairOfPayload(Offset(cp));
    high := UnitOfSurrogate(h);
    low := UnitOfSurrogate(l);
  }

  lemma DecodeUnitsOfSingle(x: unit, rest: seq<unit>)
    requires !(0xD800 <= x <= 0xDFFF)
    ensures DecodeUnits([x] + rest) == Some((x as codepoint, 1))
  {
    assert ([x] + rest)[0] == x;
  }

  lemma EncodeUnitsOfSingle(cp: codepoint)
    requires cp <= 0xFFFF
    ensures EncodeUnits(cp) == [ToUnit(cp)]
  {
  }

  lemma UnitFor(cp: codepoint) returns (x: unit)
    requires cp <= 0xFFFF && !IsSurrogate(cp)
    ensures EncodeUnits(cp) == [x] && x as codepoint == cp && !(0xD800 <= x <= 0xDFFF)
  {
    x := ToUnit(cp);
    assert x as codepoint == cp by {
      assert cp & 0xFFFF == cp;
    }
    assert 0xD800 <= x <= 0xDFFF <==> 0xD800 <= cp <= 0xDFFF;
    EncodeUnitsOfSingle(cp);
  }

  lemma DecodeUnitsOfEncode(cp: codepoint, rest: seq<unit>)
    requires cp <= MAX_CODEPOINT && !IsSurrogate(cp)
    ensures DecodeUnits(EncodeUnits(cp) + rest) == Some((cp, |EncodeUnits(cp)|))
  {
    if cp > 0xFFFF {
      var high, low := PairFor(cp);
      DecodeUnitsOfPair(high, low, cp, rest);
    } else {
      var x := UnitFor(cp);
      DecodeUnitsOfSingle(x, rest);
    }
  }

  lemma AboveSurrogates(cp: codepoint)
    requires 0xFFFF < cp
    ensures !IsSurrogate(cp)
  {
  }

  lemma UnitOfUnit(x: unit)
    ensures ToUnit(x as codepoint) == x
  {
  }

  lemma EncodeUnitsOfJoin(high: unit, low: unit) returns (cp: codepoint)
    requires 0xD800 <= high <= 0xDBFF && 0xDC00 <= low <= 0xDFFF
    ensures cp == JoinSurrogates(high as codepoint, low as codepoint)
    ensures 0xFFFF < cp <= MAX_CODEPOINT && EncodeUnits(cp) == [high, low]
  {
    var v;
    assert IsHigh(high as codepoint) && IsLow(low as codepoint);
    hide JoinSurrogates, Offset, ToUnit, IsHigh, IsLow;
    cp, v := JoinedPair(high as codepoint, low as codepoint);
    UnitOfUnit(high);
    UnitOfUnit(low);
  }

  lemma EncodeUnitsOfPair(u: seq<unit>) returns (cp: codepoint)
    requires |u| >= 2 && 0xD800 <= u[0] <= 0xDBFF && 0xDC00 <= u[1] <= 0xDFFF
    ensures cp == JoinSurrogates(u[0] as codepoint, u[1] as codepoint)
    ensures cp <= MAX_CODEPOINT && !IsSurrogate(cp) && EncodeUnits(cp) == u[..2]
  {
    hide *;
    var high, low := u[0], u[1];
    assert u[..2] == [high, low];
    cp := EncodeUnitsOfJoin(high, low);
    AboveSurrogates(cp);
  }

  /** What has been decoded that starts with a high surrogate. */
  lemma DecodedPair(u: seq<unit>)
    requires DecodeUnits(u).Some? && 0xD800 <= u[0] <= 0xDBFF
    ensures |u| >= 2 && 0xDC00 <= u[1] <= 0xDFFF
    ensures DecodeUnits(u) == Some((JoinSurrogates(u[0] as codepoint, u[1] as codepoint), 2))
  {
  }

  /** And what has been decoded that does not. */
  lemma DecodedUnit(u: seq<unit>) returns (x: unit, cp: codepoint)
    requires DecodeUnits(u).Some? && !(0xD800 <= u[0] <= 0xDBFF)
    ensures x == u[0] && !(0xD800 <= x <= 0xDBFF) && !(0xDC00 <= x <= 0xDFFF)
    ensures cp == x as codepoint && DecodeUnits(u) == Some((cp, 1))
  {
    x, cp := u[0], u[0] as codepoint;
  }

  lemma EncodeUnitsOfUnit(x: unit, cp: codepoint)
    requires !(0xD800 <= x <= 0xDBFF) && !(0xDC00 <= x <= 0xDFFF) && cp == x as codepoint
    ensures cp <= MAX_CODEPOINT && !IsSurrogate(cp) && EncodeUnits(cp) == [x]
  {
    assert ToUnit(cp) == x && cp <= 0xFFFF;
  }

  /** What is decoded at the head of `u` is a scalar value, and encodes to what was read. */
  ghost predicate Restores(u: seq<unit>)
    requires DecodeUnits(u).Some?
  {
    var (cp, n) := DecodeUnits(u).value;
    cp <= MAX_CODEPOINT && !IsSurrogate(cp) && EncodeUnits(cp) == u[..n]
  }

  lemma PairRestores(u: seq<unit>)
    requires DecodeUnits(u).Some? && 0xD800 <= u[0] <= 0xDBFF
    ensures Restores(u)
  {
    DecodedPair(u);
    hide *;
    ghost var cp := EncodeUnitsOfPair(u);
    RestoresIs(u, cp, 2);
  }

  lemma RestoresIs(u: seq<unit>, cp: codepoint, n: nat)
    requires DecodeUnits(u) == Some((cp, n)) && cp <= MAX_CODEPOINT && !IsSurrogate(cp) && n <= |u|
    requires EncodeUnits(cp) == u[..n]
    ensures Restores(u)
  {
    hide DecodeUnits, EncodeUnits, IsSurrogate;
  }

  lemma UnitRestores(u: seq<unit>)
    requires DecodeUnits(u).Some? && !(0xD800 <= u[0] <= 0xDBFF)
    ensures Restores(u)
  {
    hide *;
    var x, cp := DecodedUnit(u);
    assert u[..1] == [x];
    EncodeUnitsOfUnit(x, cp);
    RestoresIs(u, cp, 1);
  }

  lemma EncodeUnitsOfDecode(u: seq<unit>)
    requires DecodeUnits(u).Some?
    ensures Restores(u)
  {
    hide Restores, DecodeUnits;
    if 0xD800 <= u[0] <= 0xDBFF {
      PairRestores(u);
    } else {
      UnitRestores(u);
    }
  }

  lemma Utf16IsCodec()
    ensures ReadsBack(EncodeUnits, DecodeUnits, IsScalar) && WritesBack(EncodeUnits, DecodeUnits, IsScalar)
  {
    forall cp: codepoint, rest: seq<unit> | IsScalar(cp)
      ensures DecodeUnits(EncodeUnits(cp) + rest) == Some((cp, |EncodeUnits(cp)|))
    {
      DecodeUnitsOfEncode(cp, rest);
    }
    forall u: seq<unit> | DecodeUnits(u).Some?
      ensures var (cp, n) := DecodeUnits(u).value; IsScalar(cp) && EncodeUnits(cp) == u[..n]
    {
      EncodeUnitsOfDecode(u);
    }
  }

  /** UTF-16 text decodes to `cps` exactly when it is the encoding of scalar values `cps`. */
  lemma Utf16Exact(u: seq<unit>, cps: seq<codepoint>)
    ensures DecodeAll(DecodeUnits, u) == Some(cps) <==> All(IsScalar, cps) && EncodeAll(EncodeUnits, cps) == u
  {
    Utf16IsCodec();
    DecodeAllExact(EncodeUnits, DecodeUnits, IsScalar, u, cps);
  }

  // ---- the transcoders as functions ----

  /** UTF-8 to UTF-16: the units before the terminator. */
  function Utf8ToUtf16(s: bytes): Option<seq<unit>> {
    match DecodeAll(DecodeOne, s)
    case None => None
    case Some(cps) => Some(EncodeAll(EncodeUnits, cps))
  }

  /** UTF-16 to UTF-8: the bytes written before the terminator. */
  function Utf16ToUtf8(u: seq<unit>): Option<bytes> {
    match DecodeAll(DecodeUnits, u)
    case None => None
    case Some(cps) => Some(EncodeAll(EncodeOne, cps))
  }

  lemma NonZeroBytes(cp: codepoint)
    requires 0x80 <= cp
    ensures ToByte(0xC0 | (cp >> 6)) != 0 && ToByte(0xE0 | (cp >> 12)) != 0 && ToByte(0xF0 | (cp >> 18)) != 0
    ensures ToByte(0x80 | (cp & 0x3F)) != 0 && ToByte(0x80 | ((cp >> 6) & 0x3F)) != 0
    ensures ToByte(0x80 | ((cp >> 12) & 0x3F)) != 0
  {
  }

  lemma ZeroByte(cp: codepoint)
    requires IsCodepoint(cp)
    ensures 0 in EncodeOne(cp) <==> cp == 0
  {
    if cp < 0x80 {
      assert ToByte(cp) == 0 <==> cp == 0;
    } else {
      NonZeroBytes(cp);
    }
  }

  lemma ZeroUnit(cp: codepoint)
    requires IsCodepoint(cp)
    ensures 0 in EncodeUnits(cp) <==> cp == 0
  {
    if cp > 0xFFFF {
      var high, low := PairFor(cp);
    } else {
      EncodeUnitsOfSingle(cp);
      UnitBits(cp);
    }
  }

  lemma {:induction false} ZeroInText(cps: seq<codepoint>)
    requires All(IsCodepoint, cps)
    ensures 0 in EncodeAll(EncodeOne, cps) <==> 0 in cps
    ensures 0 in EncodeAll(EncodeUnits, cps) <==> 0 in cps
  {
    if cps == [] {
    } else {
      ZeroByte(cps[0]);
      ZeroUnit(cps[0]);
      ZeroInText(cps[1..]);
      assert cps == [cps[0]] + cps[1..];
    }
  }

  /**
   An accepted UTF-16 sequence, written out as a C string and read back, is
   restored exactly when it holds no zero unit.
   */
  lemma Utf16RoundTrip(u: seq<unit>)
    requires Utf16ToUtf8(u).Some?
    ensures Utf8ToUtf16(UpToNul(Utf16ToUtf8(u).value)) == Some(u) <==> 0 !in u
  {
    var cps := DecodeAll(DecodeUnits, u).value;
    Utf16Exact(u, cps);
    ZeroInText(cps);
    var s := EncodeAll(EncodeOne, cps);
    if 0 !in u {
      UpToNulOfNulFree(s);
      Utf8Exact(s, cps);
    } else if Utf8ToUtf16(UpToNul(s)).Some? {
      var back := DecodeAll(DecodeOne, UpToNul(s)).value;
      Utf8Exact(UpToNul(s), back);
      ZeroInText(back);
    }
  }

  /**
   A UTF-8 text that is accepted comes back byte for byte exactly when it
   encodes no surrogate.
   */
  lemma Utf8RoundTrip(s: bytes)
    requires Utf8ToUtf16(s).Some?
    ensures Utf16ToUtf8(Utf8ToUtf16(s).value) == Some(s) <==> All(IsScalar, DecodeAll(DecodeOne, s).value)
  {
    var cps := DecodeAll(DecodeOne, s).value;
    Utf8Exact(s, cps);
    var u := EncodeAll(EncodeUnits, cps);
    if All(IsScalar, cps) {
      Utf16Exact(u, cps);
    } else if Utf16ToUtf8(u) == Some(s) {
      var back := DecodeAll(DecodeUnits, u).value;
      Utf16Exact(u, back);
      assert All(IsCodepoint, back);
      Utf8Exact(s, back);
    }
  }

  /** A text of one code point. */
  lemma DecodeSingle<U, T>(dec: Decoder<U, T>, s: seq<U>, t: T)
    requires s != [] && dec(s) == Some((t, |s|))
    ensures DecodeAll(dec, s) == Some([t])
  {
    assert s[|s|..] == [];
    assert DecodeAll(dec, s[|s|..]) == Some([]) && [t] + [] == [t];
  }

  lemma EncodeSingle<U, T>(enc: T -> seq<U>, t: T)
    ensures EncodeAll(enc, [t]) == enc(t)
  {
    EncodeAllCons(enc, t, []);
    assert [t] + [] == [t] && enc(t) + [] == enc(t);
  }

  lemma SurrogateBytes()
    ensures DecodeOne([0xED, 0xA0, 0x80]) == Some((0xD800, 3)) && EncodeUnits(0xD800) == [0xD800]
  {
  }

  /** A text that is accepted and does not come back: it encodes a surrogate. */
  lemma SurrogateAccepted()
    ensures Utf8ToUtf16([0xED, 0xA0, 0x80]) == Some([0xD800]) && Utf16ToUtf8([0xD800]) == None
  {
    hide DecodeOne, EncodeUnits;
    SurrogateBytes();
    DecodeSingle(DecodeOne, [0xED, 0xA0, 0x80], 0xD800);
    EncodeSingle(EncodeUnits, 0xD800);
    assert DecodeUnits([0xD800]) == None;
  }

  lemma ZeroBytes()
    ensures DecodeUnits([0]) == Some((0, 1)) && EncodeOne(0) == [0] && UpToNul([0]) == []
  {
  }

  /** UTF-16 that is accepted and does not come back: it has a zero unit. */
  lemma ZeroAccepted()
    ensures Utf16ToUtf8([0]) == Some([0]) && Utf8ToUtf16(UpToNul([0])) == Some([])
  {
    hide DecodeUnits, EncodeOne;
    ZeroBytes();
    DecodeSingle(DecodeUnits, [0], 0);
    EncodeSingle(EncodeOne, 0);
  }

  // ---- the sequences in numbers ----

  /** Section 3 of RFC 3629: a sequence is what its first byte adds to, and six bits for each byte that follows. */
  function Utf8(cp: codepoint): bytes
    requires cp <= 0x10FFFF
  {
    if cp < 0x80 then [cp as byte]
    else if cp < 0x800 then [(0xC0 + cp / 64) as byte, (0x80 + cp % 64) as byte]
    else if cp < 0x10000 then [(0xE0 + cp / 4096) as byte, (0x80 + cp / 64 % 64) as byte, (0x80 + cp % 64) as byte]
    else [(0xF0 + cp / 262144) as byte, (0x80 + cp / 4096 % 64) as byte,
          (0x80 + cp / 64 % 64) as byte, (0x80 + cp % 64) as byte]
  }

  lemma EncodeOneIsUtf8(cp: codepoint)
    requires cp <= 0x10FFFF
    ensures EncodeOne(cp) == Utf8(cp)
  {
  }

  /** Section 2.1 of RFC 2781: what is above the first 65536 takes a pair of units, ten bits each. */
  function Utf16(cp: codepoint): seq<unit>
    requires cp <= 0x10FFFF
  {
    if cp < 0x10000 then [cp as unit] else Pair(cp - 0x10000)
  }

  function Pair(v: bv32): seq<unit>
    requires v < 0x100000
  {
    [(0xD800 + v / 1024) as unit, (0xDC00 + v % 1024) as unit]
  }

  lemma PairInNumbers(v: bv32)
    requires v < 0x100000
    ensures [ToUnit(0xD800 + (v >> 10)), ToUnit(0xDC00 + (v & 0x3FF))] == Pair(v)
  {
  }

  lemma OneUnit(cp: codepoint)
    requires cp < 0x10000
    ensures [ToUnit(cp)] == [cp as unit]
  {
  }

  lemma OneUnitOf(cp: codepoint)
    requires cp < 0x10000
    ensures EncodeUnits(cp) == [cp as unit]
  {
    hide ToUnit;
    OneUnit(cp);
  }

  lemma OffsetInNumbers(cp: codepoint)
    requires 0x10000 <= cp <= 0x10FFFF
    ensures Offset(cp) == cp - 0x10000 && Offset(cp) < 0x100000 && cp > 0xFFFF
  {
  }

  lemma PairOf(cp: codepoint)
    requires 0x10000 <= cp <= 0x10FFFF
    ensures EncodeUnits(cp) == Pair(cp - 0x10000)
  {
    hide ToUnit, Offset, Pair;
    OffsetInNumbers(cp);
    PairInNumbers(Offset(cp));
  }

  lemma EncodeUnitsIsUtf16(cp: codepoint)
    requires cp <= 0x10FFFF
    ensures EncodeUnits(cp) == Utf16(cp)
  {
    hide Pair;
    if cp < 0x10000 {
      hide EncodeUnits;
      OneUnitOf(cp);
    } else {
      hide EncodeUnits;
      PairOf(cp);
    }
  }

  lemma JoinedInNumbers(high: codepoint, low: codepoint)
    requires 0xD800 <= high <= 0xDBFF && 0xDC00 <= low <= 0xDFFF
    ensures JoinSurrogates(high, low) == 0x10000 + (high - 0xD800) * 1024 + (low - 0xDC00)
  {
  }
}
