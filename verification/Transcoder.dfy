/**
 The UTF loops: validation, and the two transcoders, which count in a first
 pass, allocate, and write in a second.
 */
module Transcoder {
  import opened Bytes
  import opened Codec
  import opened Utf

  method Utf8Validate(text: bytes) returns (ok: bool)
    ensures ok <==> exists segs :: Segmentation(DecodeOne, segs, text)
  {
    ok := Validate(DecodeOne, text);
    Utf8ValidIffSegmentation(text);
  }

  function UnitWidth(cp: codepoint): nat {
    if cp > 0xFFFF then 2 else 1
  }

  function ByteWidth(cp: codepoint): nat {
    if cp < 0x80 then 1 else if cp < 0x800 then 2 else if cp < 0x10000 then 3 else 4
  }

  /** `utf8` is a C string without its terminator. */
  method ConvertUtf8(utf8: bytes) returns (out: array?<unit>, length: nat)
    requires NulFree(utf8)
    ensures out == null <==> Utf8ToUtf16(utf8).None?
    ensures out != null ==> fresh(out) && out[..] == Utf8ToUtf16(utf8).value + [0]
    ensures out != null ==> length == |Utf8ToUtf16(utf8).value|
  {
    var units := Count(DecodeOne, EncodeUnits, UnitWidth, utf8);
    if units.None? {
      return null, 0;
    }
    out := new unit[units.value + 1];
    Write(DecodeOne, EncodeUnits, utf8, out, 0);
    length := units.value;
  }

  method ConvertUtf16(utf16: seq<unit>) returns (out: array?<byte>)
    ensures out == null <==> Utf16ToUtf8(utf16).None?
    ensures out != null ==> fresh(out) && out[..] == Utf16ToUtf8(utf16).value + [0]
  {
    var count := Count(DecodeUnits, EncodeOne, ByteWidth, utf16);
    if count.None? {
      return null;
    }
    out := new byte[count.value + 1];
    Write(DecodeUnits, EncodeOne, utf16, out, 0);
  }

  /** UTF-16 through both loops comes back exactly when no unit is zero. */
  method Utf16ThereAndBack(utf16: seq<unit>) returns (back: array?<unit>)
    requires Utf16ToUtf8(utf16).Some?
    ensures (back != null && back[..] == utf16 + [0]) <==> 0 !in utf16
  {
    var text := ConvertUtf16(utf16);
    ghost var s := Utf16ToUtf8(utf16).value;
    var length;
    back, length := ConvertUtf8(UpToNul(text[..]));
    Utf16RoundTrip(utf16);
    UpToNulPrefix(s);
    if back != null {
      assert (Utf8ToUtf16(UpToNul(s)).value + [0])[..length] == Utf8ToUtf16(UpToNul(s)).value;
      assert (utf16 + [0])[..|utf16|] == utf16;
    }
  }
}
