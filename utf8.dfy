/**
 * UTF-8 (RFC 3629) over JavaScript strings, and the two global functions that
 * `unescape(encodeURIComponent(s))` combines to turn a string into its UTF-8 bytes:
 * `encodeURIComponent` (section 19.2.6.5 of ECMA-262) percent-encodes the UTF-8 bytes
 * of every character outside its unreserved set and throws a `URIError` on a lone
 * surrogate; `unescape` (section B.2.1.2 of ECMA-262) turns every `%XX` back into
 * the code unit XX.
 */
module Utf8 {
  import opened Wrappers
  import opened JsText
  import opened Base64

  /** A Unicode scalar value: a code point that is not a surrogate. */
  type Scalar = c: nat | c < 0x11_0000 && !(0xD800 <= c <= 0xDFFF)

  /** The scalar value of a surrogate pair. */
  function PairScalar(hi: CodeUnit, lo: CodeUnit): (c: Scalar)
    requires IsHighSurrogate(hi) && IsLowSurrogate(lo)
    ensures c >= 0x1_0000
  {
    0x1_0000 + (hi as int - 0xD800) * 0x400 + (lo as int - 0xDC00)
  }

  /** The UTF-16 code units of a scalar value. */
  function ScalarUnits(c: Scalar): (r: JsString)
  {
    if c < 0x1_0000 then [c as CodeUnit]
    else [(0xD800 + (c - 0x1_0000) / 0x400) as CodeUnit, (0xDC00 + (c - 0x1_0000) % 0x400) as CodeUnit]
  }

  lemma ScalarUnitsOfPair(hi: CodeUnit, lo: CodeUnit)
    requires IsHighSurrogate(hi) && IsLowSurrogate(lo)
    ensures ScalarUnits(PairScalar(hi, lo)) == [hi, lo]
  {
  }

  /** The RFC 3629 byte sequence of one scalar value: one byte below U+0080, up to four. */
  function ScalarBytes(c: Scalar): (b: seq<Byte>)
    ensures 1 <= |b| <= 4
    ensures |b| == 1 <==> c < 0x80
  {
    var q1, r1 := c / 64, c % 64;
    var q2, r2 := q1 / 64, q1 % 64;
    var q3, r3 := q2 / 64, q2 % 64;
    if c < 0x80 then [c]
    else if c < 0x800 then [0xC0 + q1, 0x80 + r1]
    else if c < 0x1_0000 then [0xE0 + q2, 0x80 + r2, 0x80 + r1]
    else [0xF0 + q3, 0x80 + r3, 0x80 + r2, 0x80 + r1]
  }

  /** Appends `p` to a result that may have failed. */
  function Prepend<T>(p: seq<T>, r: Option<seq<T>>): (o: Option<seq<T>>)
    ensures o.Some? <==> r.Some?
    ensures o.Some? ==> o.value == p + r.value
  {
    if r.Some? then Some(p + r.value) else None
  }

  /**
   * The UTF-8 bytes of a UTF-16 string, reading a surrogate pair as one scalar value;
   * `None` on a lone surrogate, which has no UTF-8 form.
   */
  function Encode(s: JsString): (r: Option<seq<Byte>>)
    decreases |s|
  {
    if s == [] then Some([])
    else if !IsSurrogate(s[0]) then Prepend(ScalarBytes(s[0] as int), Encode(s[1..]))
    else if IsHighSurrogate(s[0]) && |s| >= 2 && IsLowSurrogate(s[1]) then
      Prepend(ScalarBytes(PairScalar(s[0], s[1])), Encode(s[2..]))
    else None
  }

  lemma WellFormedTail(s: JsString)
    requires s != [] && !IsSurrogate(s[0])
    ensures WellFormed(s) <==> WellFormed(s[1..])
  {
    var t := s[1..];
    if WellFormed(t) {
      forall i | 0 <= i < |s| && IsLowSurrogate(s[i]) ensures 0 < i && IsHighSurrogate(s[i - 1]) {
        assert i > 0;
        assert t[i - 1] == s[i];
        if i - 1 == 0 { assert false; }
      }
    }
  }

  lemma WellFormedPairTail(s: JsString)
    requires |s| >= 2 && IsHighSurrogate(s[0]) && IsLowSurrogate(s[1])
    ensures WellFormed(s) <==> WellFormed(s[2..])
  {
    var t := s[2..];
    if WellFormed(s) {
      forall i | 0 <= i < |t| && IsLowSurrogate(t[i]) ensures 0 < i && IsHighSurrogate(t[i - 1]) {
        assert s[i + 2] == t[i];
        if i == 0 { assert false; }
      }
    }
    if WellFormed(t) {
      forall i | 0 <= i < |s| && IsLowSurrogate(s[i]) ensures 0 < i && IsHighSurrogate(s[i - 1]) {
        if i >= 2 { assert t[i - 2] == s[i]; if i == 2 { assert false; } }
      }
    }
  }

  /** A string has UTF-8 bytes exactly when it has no lone surrogate. */
  lemma {:induction false} EncodeDefined(s: JsString)
    ensures Encode(s).Some? <==> WellFormed(s)
    decreases |s|
  {
    if s == [] {
    } else if !IsSurrogate(s[0]) {
      WellFormedTail(s);
      EncodeDefined(s[1..]);
    } else if IsHighSurrogate(s[0]) && |s| >= 2 && IsLowSurrogate(s[1]) {
      WellFormedPairTail(s);
      EncodeDefined(s[2..]);
    } else {
      assert !WellFormed(s) by {
        if IsLowSurrogate(s[0]) { assert !(0 < 0); }
      }
    }
  }

  /** A single code unit outside the surrogate range is encoded as its scalar value. */
  lemma EncodeUnit(c: CodeUnit)
    requires !IsSurrogate(c)
    ensures WellFormed([c])
    ensures Encode([c]) == Some(ScalarBytes(c as int))
  {
    var s := [c];
    assert s[1..] == [];
    assert ScalarBytes(c as int) + [] == ScalarBytes(c as int);
  }

  /** Text below U+0080 is its own UTF-8 encoding, one byte per code unit. */
  lemma {:induction false} EncodeAscii(s: JsString)
    requires forall i :: 0 <= i < |s| ==> s[i] as int < 0x80
    ensures IsBinary(s) && Encode(s) == Some(ToBytes(s))
    decreases |s|
  {
    if s != [] {
      EncodeAscii(s[1..]);
      assert ToBytes(s) == [s[0] as int] + ToBytes(s[1..]);
    }
  }

  // ---------------------------------------------------------------------------
  // Decoding, the partner of Encode
  // ---------------------------------------------------------------------------

  /** The length of the sequence a leading byte announces, or 0 for a byte that cannot lead. */
  function SequenceLength(lead: Byte): nat
  {
    if lead < 0x80 then 1
    else if 0xC0 <= lead < 0xE0 then 2
    else if 0xE0 <= lead < 0xF0 then 3
    else if 0xF0 <= lead < 0xF8 then 4
    else 0
  }

  /** The payload bits of a one- to four-byte sequence, read as RFC 3629 lays them out. */
  function Payload(b: seq<Byte>): nat
    requires 1 <= |b| <= 4
  {
    var b0: int := b[0];
    var b1: int := if |b| > 1 then b[1] else 0;
    var b2: int := if |b| > 2 then b[2] else 0;
    var b3: int := if |b| > 3 then b[3] else 0;
    if |b| == 1 then b0
    else if |b| == 2 then b0 % 32 * 64 + b1 % 64
    else if |b| == 3 then (b0 % 16 * 64 + b1 % 64) * 64 + b2 % 64
    else ((b0 % 8 * 64 + b1 % 64) * 64 + b2 % 64) * 64 + b3 % 64
  }

  /**
   * Strict UTF-8 decoding into UTF-16: every sequence must be the shortest encoding of a
   * scalar value; anything else is `None`.
   */
  function Decode(b: seq<Byte>): (r: Option<JsString>)
    decreases |b|
  {
    if b == [] then Some([])
    else
      var n := SequenceLength(b[0]);
      if n == 0 || |b| < n then None
      else
        var c := Payload(b[..n]);
        if c < 0x11_0000 && !(0xD800 <= c <= 0xDFFF) && ScalarBytes(c) == b[..n] then
          Prepend(ScalarUnits(c), Decode(b[n..]))
        else None
  }

  lemma PayloadOfScalarBytes(c: Scalar)
    ensures SequenceLength(ScalarBytes(c)[0]) == |ScalarBytes(c)|
    ensures Payload(ScalarBytes(c)) == c
  {
    if c < 0x80 {
    } else if c < 0x800 {
      PayloadOfTwo(c);
    } else if c < 0x1_0000 {
      PayloadOfThree(c);
    } else {
      PayloadOfFour(c);
    }
  }

  /** A continuation byte `0x80 + r` carries `r` in its low six bits. */
  lemma ContinuationBits(r: int)
    requires 0 <= r < 64
    ensures (0x80 + r) % 64 == r
  {
  }

  lemma PayloadOfTwo(c: Scalar)
    requires 0x80 <= c < 0x800
    ensures SequenceLength(ScalarBytes(c)[0]) == 2
    ensures Payload(ScalarBytes(c)) == c
  {
    var q1, r1 := c / 64, c % 64;
    ContinuationBits(r1);
    assert q1 < 32 && (0xC0 + q1) % 32 == q1;
    assert ScalarBytes(c) == [0xC0 + q1, 0x80 + r1];
  }

  lemma PayloadOfThree(c: Scalar)
    requires 0x800 <= c < 0x1_0000
    ensures SequenceLength(ScalarBytes(c)[0]) == 3
    ensures Payload(ScalarBytes(c)) == c
  {
    var q1, r1 := c / 64, c % 64;
    var q2, r2 := q1 / 64, q1 % 64;
    ContinuationBits(r1);
    ContinuationBits(r2);
    assert q2 < 16 && (0xE0 + q2) % 16 == q2;
    assert (q2 * 64 + r2) * 64 + r1 == c;
    assert ScalarBytes(c) == [0xE0 + q2, 0x80 + r2, 0x80 + r1];
  }

  lemma PayloadOfFour(c: Scalar)
    requires 0x1_0000 <= c
    ensures SequenceLength(ScalarBytes(c)[0]) == 4
    ensures Payload(ScalarBytes(c)) == c
  {
    var q1, r1 := c / 64, c % 64;
    var q2, r2 := q1 / 64, q1 % 64;
    var q3, r3 := q2 / 64, q2 % 64;
    ContinuationBits(r1);
    ContinuationBits(r2);
    ContinuationBits(r3);
    assert q3 < 8 && (0xF0 + q3) % 8 == q3;
    assert ((q3 * 64 + r3) * 64 + r2) * 64 + r1 == c;
    assert ScalarBytes(c) == [0xF0 + q3, 0x80 + r3, 0x80 + r2, 0x80 + r1];
  }

  lemma DecodeScalar(c: Scalar, rest: seq<Byte>)
    ensures Decode(ScalarBytes(c) + rest) == Prepend(ScalarUnits(c), Decode(rest))
  {
    var b := ScalarBytes(c) + rest;
    PayloadOfScalarBytes(c);
    assert b[..|ScalarBytes(c)|] == ScalarBytes(c);
    assert b[|ScalarBytes(c)|..] == rest;
  }

  /** Decoding the UTF-8 bytes of a string gives the string back. */
  lemma {:induction false} DecodeOfEncode(s: JsString)
    requires Encode(s).Some?
    ensures Decode(Encode(s).value) == Some(s)
    decreases |s|
  {
    if s != [] {
      if !IsSurrogate(s[0]) {
        DecodeOfEncode(s[1..]);
        DecodeScalar(s[0] as int, Encode(s[1..]).value);
        assert s == [s[0]] + s[1..];
      } else {
        DecodeOfEncode(s[2..]);
        DecodeScalar(PairScalar(s[0], s[1]), Encode(s[2..]).value);
        ScalarUnitsOfPair(s[0], s[1]);
        assert s == [s[0], s[1]] + s[2..];
      }
    }
  }

  // ---------------------------------------------------------------------------
  // encodeURIComponent and unescape
  // ---------------------------------------------------------------------------

  const Percent: CodeUnit := 0x25
  const SmallU: CodeUnit := 0x75

  /** The characters `encodeURIComponent` leaves alone: ASCII letters, digits and `-_.!~*'()`. */
  predicate IsUnreserved(c: Scalar)
  {
    || 0x41 <= c <= 0x5A || 0x61 <= c <= 0x7A || 0x30 <= c <= 0x39
    || c == 0x2D || c == 0x5F || c == 0x2E || c == 0x21 || c == 0x7E || c == 0x2A || c == 0x27 || c == 0x28 || c == 0x29
  }

  /** An upper-case hexadecimal digit. */
  function HexDigit(d: nat): (c: CodeUnit)
    requires d < 16
    ensures c != SmallU
  {
    if d < 10 then (0x30 + d) as CodeUnit else (0x41 + d - 10) as CodeUnit
  }

  /** The value of a hexadecimal digit of either case. */
  function HexValue(c: CodeUnit): Option<nat>
  {
    if 0x30 <= c <= 0x39 then Some(c as int - 0x30)
    else if 0x41 <= c <= 0x46 then Some(c as int - 0x41 + 10)
    else if 0x61 <= c <= 0x66 then Some(c as int - 0x61 + 10)
    else None
  }

  lemma HexValueOfDigit(d: nat)
    requires d < 16
    ensures HexValue(HexDigit(d)) == Some(d)
  {
  }

  /** `%XY` for each byte. */
  function PercentBytes(b: seq<Byte>): (r: JsString)
    ensures |r| == 3 * |b|
  {
    if b == [] then [] else [Percent, HexDigit(b[0] / 16), HexDigit(b[0] % 16)] + PercentBytes(b[1..])
  }

  /** What `encodeURIComponent` writes for one scalar value. */
  function EscapeScalar(c: Scalar): JsString
  {
    if IsUnreserved(c) then [c as CodeUnit] else PercentBytes(ScalarBytes(c))
  }

  /** `encodeURIComponent(s)`, with `None` where it throws a `URIError` (a lone surrogate). */
  function EncodeUriComponent(s: JsString): (r: Option<JsString>)
    decreases |s|
  {
    if s == [] then Some([])
    else if !IsSurrogate(s[0]) then Prepend(EscapeScalar(s[0] as int), EncodeUriComponent(s[1..]))
    else if IsHighSurrogate(s[0]) && |s| >= 2 && IsLowSurrogate(s[1]) then
      Prepend(EscapeScalar(PairScalar(s[0], s[1])), EncodeUriComponent(s[2..]))
    else None
  }

  function HexPair(a: CodeUnit, b: CodeUnit): Option<nat>
  {
    if HexValue(a).Some? && HexValue(b).Some? then Some(HexValue(a).value * 16 + HexValue(b).value) else None
  }

  /** `unescape(s)`: `%uXXXX` becomes the code unit XXXX, `%XX` the code unit XX, all else stays. */
  function Unescape(s: JsString): (r: JsString)
    decreases |s|
  {
    if s == [] then []
    else if s[0] == Percent && |s| >= 6 && s[1] == SmallU && HexPair(s[2], s[3]).Some? && HexPair(s[4], s[5]).Some? then
      [(HexPair(s[2], s[3]).value * 256 + HexPair(s[4], s[5]).value) as CodeUnit] + Unescape(s[6..])
    else if s[0] == Percent && |s| >= 3 && HexPair(s[1], s[2]).Some? then
      [HexPair(s[1], s[2]).value as CodeUnit] + Unescape(s[3..])
    else [s[0]] + Unescape(s[1..])
  }

  lemma UnescapePercentByte(x: Byte, rest: JsString)
    ensures Unescape([Percent, HexDigit(x / 16), HexDigit(x % 16)] + rest) == [x as CodeUnit] + Unescape(rest)
  {
    var s := [Percent, HexDigit(x / 16), HexDigit(x % 16)] + rest;
    HexValueOfDigit(x / 16);
    HexValueOfDigit(x % 16);
    assert HexPair(s[1], s[2]) == Some(x);
    assert s[3..] == rest;
  }

  lemma {:induction false} UnescapePercentBytes(b: seq<Byte>, rest: JsString)
    ensures Unescape(PercentBytes(b) + rest) == FromBytes(b) + Unescape(rest)
    decreases |b|
  {
    if b == [] {
      assert PercentBytes(b) + rest == rest;
    } else {
      var t := PercentBytes(b[1..]) + rest;
      PercentBytesCons(b, rest);
      UnescapePercentByte(b[0], t);
      UnescapePercentBytes(b[1..], rest);
      FromBytesCons(b);
      ConcatStep(Unescape(PercentBytes(b) + rest), [b[0] as CodeUnit], Unescape(t), FromBytes(b[1..]), Unescape(rest), FromBytes(b));
    }
  }

  /** `s = x + t` and `t = f + u` give `s = (x + f) + u`. */
  lemma ConcatStep<T>(s: seq<T>, x: seq<T>, t: seq<T>, f: seq<T>, u: seq<T>, xf: seq<T>)
    requires s == x + t && t == f + u && xf == x + f
    ensures s == xf + u
  {
  }

  lemma PercentBytesCons(b: seq<Byte>, rest: JsString)
    requires b != []
    ensures PercentBytes(b) + rest == [Percent, HexDigit(b[0] / 16), HexDigit(b[0] % 16)] + (PercentBytes(b[1..]) + rest)
  {
  }

  lemma FromBytesCons(b: seq<Byte>)
    requires b != []
    ensures FromBytes(b) == [b[0] as CodeUnit] + FromBytes(b[1..])
  {
  }

  lemma UnescapeEscapeScalar(c: Scalar, rest: JsString)
    ensures Unescape(EscapeScalar(c) + rest) == FromBytes(ScalarBytes(c)) + Unescape(rest)
  {
    if IsUnreserved(c) {
      var s := EscapeScalar(c) + rest;
      assert s[1..] == rest;
    } else {
      UnescapePercentBytes(ScalarBytes(c), rest);
    }
  }

  /**
   * `unescape(encodeURIComponent(s))` fails exactly where the UTF-8 encoding does, and
   * otherwise gives the UTF-8 bytes of `s`, one code unit per byte.
   */
  lemma {:induction false} UnescapeEncodeUriComponent(s: JsString)
    ensures EncodeUriComponent(s).Some? <==> Encode(s).Some?
    ensures Encode(s).Some? ==> Unescape(EncodeUriComponent(s).value) == FromBytes(Encode(s).value)
    decreases |s|
  {
    if s == [] {
    } else if !IsSurrogate(s[0]) {
      UnescapeEncodeUriComponent(s[1..]);
      if Encode(s).Some? {
        UnescapeEscapeScalar(s[0] as int, EncodeUriComponent(s[1..]).value);
        FromBytesAppend(ScalarBytes(s[0] as int), Encode(s[1..]).value);
      }
    } else if IsHighSurrogate(s[0]) && |s| >= 2 && IsLowSurrogate(s[1]) {
      UnescapeEncodeUriComponent(s[2..]);
      if Encode(s).Some? {
        UnescapeEscapeScalar(PairScalar(s[0], s[1]), EncodeUriComponent(s[2..]).value);
        FromBytesAppend(ScalarBytes(PairScalar(s[0], s[1])), Encode(s[2..]).value);
      }
    }
  }

  lemma FromBytesAppend(a: seq<Byte>, b: seq<Byte>)
    ensures FromBytes(a + b) == FromBytes(a) + FromBytes(b)
  {
  }
}
