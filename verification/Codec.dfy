/**
 Self-delimiting codes: a decoder that takes one symbol off the head of a
 sequence, run to the end of the sequence. UTF-8 and UTF-16 are two instances.
 */
module Codec {
  import opened Bytes

  type Decoder<!U, T> = seq<U> -> Option<(T, nat)>

  /** The symbols of `s`, or None where the decoder rejects some position. */
  function DecodeAll<U, T>(dec: Decoder<U, T>, s: seq<U>): Option<seq<T>>
    decreases |s|
  {
    if s == [] then Some([])
    else match dec(s)
      case None => None
      case Some((t, n)) =>
        if n == 0 || n > |s| then None
        else match DecodeAll(dec, s[n..])
          case None => None
          case Some(ts) => Some([t] + ts)
  }

  function EncodeAll<U, T>(enc: T -> seq<U>, ts: seq<T>): seq<U> {
    if ts == [] then [] else enc(ts[0]) + EncodeAll(enc, ts[1..])
  }

  ghost predicate All<T>(ok: T -> bool, ts: seq<T>) {
    forall i :: 0 <= i < |ts| ==> ok(ts[i])
  }

  /** The encoder writes something, and the decoder reads it back whatever follows. */
  ghost predicate ReadsBack<U(!new), T(!new)>(enc: T -> seq<U>, dec: Decoder<U, T>, ok: T -> bool) {
    (forall t :: ok(t) ==> enc(t) != []) &&
    (forall t, rest :: ok(t) ==> dec(enc(t) + rest) == Some((t, |enc(t)|)))
  }

  /** What the decoder takes off the head is what the encoder writes for the symbol. */
  ghost predicate WritesBack<U(!new), T(!new)>(enc: T -> seq<U>, dec: Decoder<U, T>, ok: T -> bool) {
    forall s {:trigger dec(s)} :: s != [] && dec(s).Some? ==>
      var (t, n) := dec(s).value; 1 <= n <= |s| && ok(t) && enc(t) == s[..n]
  }

  lemma {:induction false} DecodeOfEncode<U(!new), T(!new)>(
    enc: T -> seq<U>, dec: Decoder<U, T>, ok: T -> bool, ts: seq<T>)
    requires ReadsBack(enc, dec, ok) && All(ok, ts)
    ensures DecodeAll(dec, EncodeAll(enc, ts)) == Some(ts)
  {
    if ts == [] {
    } else {
      var rest := EncodeAll(enc, ts[1..]);
      assert dec(enc(ts[0]) + rest) == Some((ts[0], |enc(ts[0])|));
      assert (enc(ts[0]) + rest)[|enc(ts[0])|..] == rest;
      DecodeOfEncode(enc, dec, ok, ts[1..]);
      assert ts == [ts[0]] + ts[1..];
    }
  }

  lemma {:induction false} EncodeOfDecode<U(!new), T(!new)>(
    enc: T -> seq<U>, dec: Decoder<U, T>, ok: T -> bool, s: seq<U>)
    requires WritesBack(enc, dec, ok)
    requires DecodeAll(dec, s).Some?
    ensures All(ok, DecodeAll(dec, s).value) && EncodeAll(enc, DecodeAll(dec, s).value) == s
    decreases |s|
  {
    if s == [] {
    } else {
      var (t, n) := dec(s).value;
      EncodeOfDecode(enc, dec, ok, s[n..]);
      assert DecodeAll(dec, s).value[1..] == DecodeAll(dec, s[n..]).value;
      assert s == s[..n] + s[n..];
    }
  }

  /** A sequence decodes to `ts` exactly when it is the encoding of `ts`, all of them encodable. */
  lemma DecodeAllExact<U(!new), T(!new)>(enc: T -> seq<U>, dec: Decoder<U, T>, ok: T -> bool, s: seq<U>, ts: seq<T>)
    requires ReadsBack(enc, dec, ok) && WritesBack(enc, dec, ok)
    ensures DecodeAll(dec, s) == Some(ts) <==> All(ok, ts) && EncodeAll(enc, ts) == s
  {
    if All(ok, ts) && EncodeAll(enc, ts) == s {
      DecodeOfEncode(enc, dec, ok, ts);
    }
    if DecodeAll(dec, s) == Some(ts) {
      EncodeOfDecode(enc, dec, ok, s);
    }
  }

  // ---- decoding up to a stop element ----

  /** The symbols before the first `stop` that does not belong to a symbol, and what follows it. */
  function DecodeUntil<U(==), T>(dec: Decoder<U, T>, stop: U, s: seq<U>): (r: Option<(seq<T>, seq<U>)>)
    ensures r.Some? ==> |r.value.1| < |s|
    decreases |s|
  {
    if s == [] then None
    else if s[0] == stop then Some(([], s[1..]))
    else match dec(s)
      case None => None
      case Some((t, n)) =>
        if n == 0 || n > |s| then None
        else match DecodeUntil(dec, stop, s[n..])
          case None => None
          case Some((ts, rest)) => Some(([t] + ts, rest))
  }

  ghost predicate NeverStarts<U(!new), T(!new)>(enc: T -> seq<U>, ok: T -> bool, stop: U) {
    forall t :: ok(t) ==> enc(t) != [] && enc(t)[0] != stop
  }

  lemma {:induction false} DecodeUntilOfEncode<U(!new), T(!new)>(
    enc: T -> seq<U>, dec: Decoder<U, T>, ok: T -> bool, stop: U, ts: seq<T>, rest: seq<U>)
    requires ReadsBack(enc, dec, ok) && NeverStarts(enc, ok, stop) && All(ok, ts)
    ensures DecodeUntil(dec, stop, EncodeAll(enc, ts) + [stop] + rest) == Some((ts, rest))
  {
    var s := EncodeAll(enc, ts) + [stop] + rest;
    if ts == [] {
      assert s[0] == stop && s[1..] == rest;
    } else {
      var e, more := enc(ts[0]), EncodeAll(enc, ts[1..]) + [stop] + rest;
      assert s == e + more;
      assert dec(e + more) == Some((ts[0], |e|));
      assert s[0] == e[0] && s[|e|..] == more;
      DecodeUntilOfEncode(enc, dec, ok, stop, ts[1..], rest);
      assert ts == [ts[0]] + ts[1..];
    }
  }

  lemma EncodeAllCons<U, T>(enc: T -> seq<U>, t: T, ts: seq<T>)
    ensures EncodeAll(enc, [t] + ts) == enc(t) + EncodeAll(enc, ts)
  {
    assert ([t] + ts)[1..] == ts;
  }

  lemma Regroup<U>(s: seq<U>, n: nat, a: seq<U>, b: seq<U>, c: seq<U>)
    requires n <= |s| && s[n..] == a + b + c
    ensures s == s[..n] + a + b + c
  {
  }

  lemma UntilUncons<U, T>(dec: Decoder<U, T>, stop: U, s: seq<U>) returns (t: T, n: nat, ts: seq<T>, rest: seq<U>)
    requires s != [] && s[0] != stop && DecodeUntil(dec, stop, s).Some?
    ensures 1 <= n <= |s| && dec(s) == Some((t, n))
    ensures DecodeUntil(dec, stop, s[n..]) == Some((ts, rest)) && DecodeUntil(dec, stop, s) == Some(([t] + ts, rest))
  {
    t, n := dec(s).value.0, dec(s).value.1;
    var r := DecodeUntil(dec, stop, s[n..]).value;
    ts, rest := r.0, r.1;
  }

  lemma {:induction false} EncodeOfDecodeUntil<U(!new), T(!new)>(
    enc: T -> seq<U>, dec: Decoder<U, T>, ok: T -> bool, stop: U, s: seq<U>)
    requires WritesBack(enc, dec, ok)
    requires DecodeUntil(dec, stop, s).Some?
    ensures var (ts, rest) := DecodeUntil(dec, stop, s).value;
            All(ok, ts) && s == EncodeAll(enc, ts) + [stop] + rest
    decreases |s|
  {
    if s[0] == stop {
      assert s == [stop] + s[1..];
    } else {
      var t, n, ts, rest := UntilUncons(dec, stop, s);
      EncodeOfDecodeUntil(enc, dec, ok, stop, s[n..]);
      EncodeAllCons(enc, t, ts);
      Regroup(s, n, EncodeAll(enc, ts), [stop], rest);
    }
  }

  // ---- segmentations ----

  /** A sequence that the decoder accepts in full as one symbol. */
  ghost predicate IsSymbol<U, T>(dec: Decoder<U, T>, seg: seq<U>) {
    seg != [] && dec(seg).Some? && dec(seg).value.1 == |seg|
  }

  ghost function Concat<U>(segs: seq<seq<U>>): seq<U> {
    if segs == [] then [] else segs[0] + Concat(segs[1..])
  }

  /** `s` cut into symbols. */
  ghost predicate Segmentation<U, T>(dec: Decoder<U, T>, segs: seq<seq<U>>, s: seq<U>) {
    (forall i :: 0 <= i < |segs| ==> IsSymbol(dec, segs[i])) && Concat(segs) == s
  }

  lemma {:induction false} SegmentationDecodes<U(!new), T(!new)>(enc: T -> seq<U>, dec: Decoder<U, T>, ok: T -> bool,
                                                     segs: seq<seq<U>>, s: seq<U>)
    requires ReadsBack(enc, dec, ok) && WritesBack(enc, dec, ok)
    requires Segmentation(dec, segs, s)
    ensures DecodeAll(dec, s).Some? && |segs| == |DecodeAll(dec, s).value|
    ensures forall i :: 0 <= i < |segs| ==> segs[i] == enc(DecodeAll(dec, s).value[i])
  {
    if segs == [] {
    } else {
      var (t, n) := dec(segs[0]).value;
      assert enc(t) == segs[0][..n] == segs[0];
      var rest := Concat(segs[1..]);
      assert dec(segs[0] + rest) == Some((t, n));
      assert s[n..] == rest;
      SegmentationDecodes(enc, dec, ok, segs[1..], rest);
      assert DecodeAll(dec, s).value == [t] + DecodeAll(dec, rest).value;
      forall i | 0 <= i < |segs|
        ensures segs[i] == enc(DecodeAll(dec, s).value[i])
      {
        assert i > 0 ==> segs[i] == segs[1..][i - 1];
      }
    }
  }

  lemma {:induction false} SymbolsOf<U(!new), T(!new)>(enc: T -> seq<U>, dec: Decoder<U, T>, ok: T -> bool, ts: seq<T>)
    returns (segs: seq<seq<U>>)
    requires ReadsBack(enc, dec, ok) && All(ok, ts)
    ensures Segmentation(dec, segs, EncodeAll(enc, ts))
  {
    if ts == [] {
      segs := [];
    } else {
      var tail := SymbolsOf(enc, dec, ok, ts[1..]);
      segs := [enc(ts[0])] + tail;
      assert segs[1..] == tail;
      assert dec(enc(ts[0]) + []) == Some((ts[0], |enc(ts[0])|));
      assert enc(ts[0]) + [] == enc(ts[0]);
    }
  }

  /** The sequences that decode are those that can be cut into symbols, and they are cut in one way only. */
  lemma DecodesIffSegmentation<U(!new), T(!new)>(enc: T -> seq<U>, dec: Decoder<U, T>, ok: T -> bool, s: seq<U>)
    requires ReadsBack(enc, dec, ok) && WritesBack(enc, dec, ok)
    ensures DecodeAll(dec, s).Some? <==> exists segs :: Segmentation(dec, segs, s)
    ensures forall a, b :: Segmentation(dec, a, s) && Segmentation(dec, b, s) ==> a == b
  {
    if DecodeAll(dec, s).Some? {
      EncodeOfDecode(enc, dec, ok, s);
      var segs := SymbolsOf(enc, dec, ok, DecodeAll(dec, s).value);
    }
    forall a | Segmentation(dec, a, s)
      ensures DecodeAll(dec, s).Some? && |a| == |DecodeAll(dec, s).value|
      ensures forall i :: 0 <= i < |a| ==> a[i] == enc(DecodeAll(dec, s).value[i])
    {
      SegmentationDecodes(enc, dec, ok, a, s);
    }
  }

  // ---- the two-pass transcoder ----

  /** `s` decoded with one code and encoded with another; empty where it does not decode. */
  ghost function Image<U, T, V>(dec: Decoder<U, T>, enc: T -> seq<V>, s: seq<U>): seq<V> {
    match DecodeAll(dec, s)
    case None => []
    case Some(ts) => EncodeAll(enc, ts)
  }

  /** The decoder's first symbol, and what the other code writes for a symbol. */
  function First<U, T>(dec: Decoder<U, T>, s: seq<U>): Option<(T, nat)> {
    dec(s)
  }

  function Written<T, V>(enc: T -> seq<V>, t: T): seq<V> {
    enc(t)
  }

  lemma ImageStep<U, T, V>(dec: Decoder<U, T>, enc: T -> seq<V>, s: seq<U>)
    requires s != [] && DecodeAll(dec, s).Some?
    ensures First(dec, s).Some?
    ensures var (t, n) := First(dec, s).value;
            && 1 <= n <= |s| && DecodeAll(dec, s[n..]).Some?
            && Image(dec, enc, s) == Written(enc, t) + Image(dec, enc, s[n..])
  {
    var (t, n) := dec(s).value;
    assert DecodeAll(dec, s).value == [t] + DecodeAll(dec, s[n..]).value;
    assert DecodeAll(dec, s).value[1..] == DecodeAll(dec, s[n..]).value;
  }

  /** The decoder takes at least one element and never more than there are. */
  ghost predicate Progresses<U(!new), T(!new)>(dec: Decoder<U, T>) {
    forall s :: dec(s).Some? ==> 1 <= dec(s).value.1 <= |s|
  }

  /** Whether `s` decodes throughout. */
  method Validate<U(!new), T(!new)>(dec: Decoder<U, T>, s: seq<U>) returns (ok: bool)
    requires Progresses(dec)
    ensures ok <==> DecodeAll(dec, s).Some?
  {
    var i := 0;
    while i < |s|
      invariant 0 <= i <= |s|
      invariant DecodeAll(dec, s).Some? <==> DecodeAll(dec, s[i..]).Some?
    {
      var r := dec(s[i..]);
      if r.None? {
        return false;
      }
      assert s[i..][r.value.1..] == s[i + r.value.1..];
      i := i + r.value.1;
    }
    ok := true;
  }

  /** The first pass: what the second will write is counted, or the text is rejected. */
  method Count<U(!new), T(!new), V>(dec: Decoder<U, T>, ghost enc: T -> seq<V>, width: T -> nat, s: seq<U>)
    returns (r: Option<nat>)
    requires Progresses(dec) && forall t :: width(t) == |enc(t)|
    ensures r.Some? <==> DecodeAll(dec, s).Some?
    ensures r.Some? ==> r.value == |Image(dec, enc, s)|
  {
    var count, i := 0, 0;
    assert s[0..] == s;
    while i < |s|
      invariant 0 <= i <= |s|
      invariant DecodeAll(dec, s).Some? <==> DecodeAll(dec, s[i..]).Some?
      invariant DecodeAll(dec, s).Some? ==> count + |Image(dec, enc, s[i..])| == |Image(dec, enc, s)|
    {
      var d := dec(s[i..]);
      if d.None? {
        return None;
      }
      var (t, n) := d.value;
      assert s[i..][n..] == s[i + n..];
      if DecodeAll(dec, s[i..]).Some? {
        ImageStep(dec, enc, s[i..]);
      }
      count := count + width(t);
      i := i + n;
    }
    r := Some(count);
  }

  /** Writes `e` at `pos`, element by element. */
  method Put<V>(out: array<V>, pos: nat, e: seq<V>)
    requires pos + |e| <= out.Length
    modifies out
    ensures out[..pos + |e|] == old(out[..pos]) + e
  {
    for k := 0 to |e|
      invariant out[..pos + k] == old(out[..pos]) + e[..k]
    {
      out[pos + k] := e[k];
    }
  }

  lemma Advance<V>(img: seq<V>, pos: nat, e: seq<V>, rest: seq<V>)
    requires pos <= |img| && img[pos..] == e + rest
    ensures pos + |e| <= |img| && img[..pos + |e|] == img[..pos] + e && img[pos + |e|..] == rest
  {
    assert img == img[..pos] + img[pos..];
  }

  /** The symbol at `i`, encoded, and the number of elements it takes. */
  method SymbolAt<U, T, V>(dec: Decoder<U, T>, enc: T -> seq<V>, s: seq<U>, i: nat) returns (e: seq<V>, n: nat)
    requires i < |s| && DecodeAll(dec, s[i..]).Some?
    ensures 1 <= n <= |s| - i && DecodeAll(dec, s[i + n..]).Some?
    ensures Image(dec, enc, s[i..]) == e + Image(dec, enc, s[i + n..])
  {
    ImageStep(dec, enc, s[i..]);
    var r := First(dec, s[i..]).value;
    n := r.1;
    e := Written(enc, r.0);
    assert s[i..][n..] == s[i + n..];
  }

  /** The second pass: it fills the array but for the last element, which is the terminator. */
  method Write<U, T, V>(dec: Decoder<U, T>, enc: T -> seq<V>, s: seq<U>, out: array<V>, zero: V)
    requires DecodeAll(dec, s).Some?
    requires out.Length == |Image(dec, enc, s)| + 1
    modifies out
    ensures out[..] == Image(dec, enc, s) + [zero]
  {
    var i, pos := 0, 0;
    ghost var img := Image(dec, enc, s);
    ghost var rest := img;
    assert s[0..] == s;
    while i < |s|
      invariant 0 <= i <= |s|
      invariant DecodeAll(dec, s[i..]).Some? && rest == Image(dec, enc, s[i..])
      invariant 0 <= pos < out.Length && img[pos..] == rest
      invariant out[..pos] == img[..pos]
    {
      var e, n := SymbolAt(dec, enc, s, i);
      rest := Image(dec, enc, s[i + n..]);
      Advance(img, pos, e, rest);
      Put(out, pos, e);
      pos := pos + |e|;
      i := i + n;
    }
    assert rest == [] by {
      assert s[i..] == [];
    }
    assert pos == |img|;
    Put(out, pos, [zero]);
    assert out[..] == out[..pos + 1];
  }
}
