/**
 * The browser's `btoa` and `atob`: base64 as section 4 of RFC 4648 defines it
 * (alphabet A-Z a-z 0-9 + /, `=` padding to a multiple of four characters), over
 * "binary strings" whose code units are bytes. `atob` decodes by the WHATWG
 * forgiving-base64 rules: ASCII whitespace is ignored, the padding may be missing,
 * and leftover bits of a final partial group are discarded.
 */
module Base64 {
  import opened Wrappers
  import opened JsText
  import Seqs

  type Byte = x: nat | x < 0x100

  type Sextet = x: nat | x < 64

  const PadUnit: CodeUnit := 0x3D

  /** The character of a six-bit value in the RFC 4648 base64 alphabet. */
  function Symbol(v: Sextet): (c: CodeUnit)
    ensures c != PadUnit
  {
    if v < 26 then (0x41 + v) as CodeUnit
    else if v < 52 then (0x61 + v - 26) as CodeUnit
    else if v < 62 then (0x30 + v - 52) as CodeUnit
    else if v == 62 then 0x2B
    else 0x2F
  }

  /** The six-bit value of a base64 alphabet character, if it is one. */
  function SymbolValue(c: CodeUnit): (r: Option<Sextet>)
  {
    if 0x41 <= c <= 0x5A then Some(c as int - 0x41)
    else if 0x61 <= c <= 0x7A then Some(c as int - 0x61 + 26)
    else if 0x30 <= c <= 0x39 then Some(c as int - 0x30 + 52)
    else if c == 0x2B then Some(62)
    else if c == 0x2F then Some(63)
    else None
  }

  /** The alphabet and its values are inverse to each other in both directions. */
  lemma SymbolValueInverse(v: Sextet, c: CodeUnit)
    ensures SymbolValue(Symbol(v)) == Some(v)
    ensures SymbolValue(c) == Some(v) <==> c == Symbol(v)
  {
  }

  predicate IsSymbol(c: CodeUnit) { SymbolValue(c).Some? }

  // The bit fields of a group of three bytes `x y z` read as four sextets, and back.
  function Sextet0(x: Byte): Sextet { x / 4 }
  function Sextet1(x: Byte, y: Byte): Sextet { x % 4 * 16 + y / 16 }
  function Sextet2(y: Byte, z: Byte): Sextet { y % 16 * 4 + z / 64 }
  function Sextet3(z: Byte): Sextet { z % 64 }
  function Byte0(a: Sextet, b: Sextet): Byte { a * 4 + b / 16 }
  function Byte1(b: Sextet, c: Sextet): Byte { b % 16 * 16 + c / 4 }
  function Byte2(c: Sextet, d: Sextet): Byte { c % 4 * 64 + d }

  /** The six-bit groups of `b`, three bytes making four groups, with a partial last group. */
  function Sextets(b: seq<Byte>): (v: seq<Sextet>)
    ensures |b| <= |v|
  {
    if |b| == 0 then []
    else if |b| == 1 then [Sextet0(b[0]), Sextet1(b[0], 0)]
    else if |b| == 2 then [Sextet0(b[0]), Sextet1(b[0], b[1]), Sextet2(b[1], 0)]
    else [Sextet0(b[0]), Sextet1(b[0], b[1]), Sextet2(b[1], b[2]), Sextet3(b[2])] + Sextets(b[3..])
  }

  function Symbols(v: seq<Sextet>): (r: JsString)
    ensures |r| == |v| && forall i :: 0 <= i < |v| ==> r[i] == Symbol(v[i])
  {
    seq(|v|, i requires 0 <= i < |v| => Symbol(v[i]))
  }

  /** The number of `=` characters that complete the last group of an encoding of `n` bytes. */
  function PadLength(n: nat): nat
  {
    if n % 3 == 0 then 0 else 3 - n % 3
  }

  /** Base64 encoding of a byte sequence (section 4 of RFC 4648). */
  function Encode(b: seq<Byte>): JsString
  {
    Symbols(Sextets(b)) + Repeat(PadUnit, PadLength(|b|))
  }

  /** The encoding is four characters per started group of three bytes, all from the alphabet
      except for at most two trailing `=`. */
  lemma EncodeShape(b: seq<Byte>)
    ensures |Encode(b)| == 4 * ((|b| + 2) / 3)
    ensures |Encode(b)| % 4 == 0
    ensures forall i :: 0 <= i < |Encode(b)| ==> IsSymbol(Encode(b)[i]) || Encode(b)[i] == PadUnit
    ensures forall i :: 0 <= i < |Encode(b)| - 2 ==> IsSymbol(Encode(b)[i])
    ensures PadLength(|b|) <= 2
  {
    var e := Encode(b);
    var v := Sextets(b);
    SextetsLength(b);
    EncodedLength(|b|);
    assert |e| == |v| + PadLength(|b|);
    forall i | 0 <= i < |e| ensures IsSymbol(e[i]) || e[i] == PadUnit {
      if i < |v| { SymbolValueInverse(v[i], e[i]); }
    }
    forall i | 0 <= i < |e| - 2 ensures IsSymbol(e[i]) {
      SymbolValueInverse(v[i], e[i]);
    }
  }

  /** Reassembles bytes from six-bit groups; a final group of two or three keeps only whole bytes. */
  function DecodeSextets(v: seq<Sextet>): (b: seq<Byte>)
    requires |v| % 4 != 1
  {
    if |v| == 0 then []
    else if |v| == 2 then [Byte0(v[0], v[1])]
    else if |v| == 3 then [Byte0(v[0], v[1]), Byte1(v[1], v[2])]
    else [Byte0(v[0], v[1]), Byte1(v[1], v[2]), Byte2(v[2], v[3])] + DecodeSextets(v[4..])
  }

  /** Decoding the groups of a byte sequence gives the sequence back. */
  lemma {:induction false} DecodeSextetsOfSextets(b: seq<Byte>)
    ensures |Sextets(b)| % 4 != 1 && DecodeSextets(Sextets(b)) == b
  {
    SextetsLength(b);
    if |b| < 3 {
      DecodeShort(b);
    } else {
      var v := Sextets(b);
      var rest := Sextets(b[3..]);
      SextetsLength(b[3..]);
      DecodeSextetsOfSextets(b[3..]);
      assert v == [Sextet0(b[0]), Sextet1(b[0], b[1]), Sextet2(b[1], b[2]), Sextet3(b[2])] + rest;
      DecodeGroup(Sextet0(b[0]), Sextet1(b[0], b[1]), Sextet2(b[1], b[2]), Sextet3(b[2]), rest);
      FirstByteBits(b[0], b[1]);
      SecondByteBits(b[0], b[1], b[2]);
      ThirdByteBits(b[1], b[2]);
      assert b == [b[0], b[1], b[2]] + b[3..];
    }
  }

  /** A last group of one or two bytes decodes back. */
  lemma DecodeShort(b: seq<Byte>)
    requires |b| < 3
    ensures |Sextets(b)| % 4 != 1 && DecodeSextets(Sextets(b)) == b
  {
    if |b| == 1 {
      FirstByteBits(b[0], 0);
      assert b == [b[0]];
    } else if |b| == 2 {
      FirstByteBits(b[0], b[1]);
      SecondByteBits(b[0], b[1], 0);
      assert b == [b[0], b[1]];
    }
  }

  /** A full group of four sextets decodes to its three bytes, ahead of the rest. */
  lemma DecodeGroup(s0: Sextet, s1: Sextet, s2: Sextet, s3: Sextet, rest: seq<Sextet>)
    requires |rest| % 4 != 1
    ensures DecodeSextets([s0, s1, s2, s3] + rest) == [Byte0(s0, s1), Byte1(s1, s2), Byte2(s2, s3)] + DecodeSextets(rest)
  {
    var v := [s0, s1, s2, s3] + rest;
    assert v[0] == s0 && v[1] == s1 && v[2] == s2 && v[3] == s3;
    assert v[4..] == rest;
  }

  /**
   * Four groups per three bytes, rounded up, which never leaves one symbol alone in the
   * last group.
   */
  lemma {:induction false} SextetsLength(b: seq<Byte>)
    ensures |Sextets(b)| == (4 * |b| + 2) / 3
    ensures |Sextets(b)| % 4 != 1
    decreases |b|
  {
    if |b| >= 3 {
      SextetsLength(b[3..]);
    }
  }

  // Each byte of a group comes back out of the two sextets that hold its bits.
  lemma FirstByteBits(x: Byte, y: Byte)
    ensures Byte0(Sextet0(x), Sextet1(x, y)) == x
  {
  }

  lemma SecondByteBits(x: Byte, y: Byte, z: Byte)
    ensures Byte1(Sextet1(x, y), Sextet2(y, z)) == y
  {
    var hi, lo := y / 16, y % 16;
    assert (x % 4 * 16 + hi) % 16 == hi;
    assert (lo * 4 + z / 64) / 4 == lo;
  }

  lemma ThirdByteBits(y: Byte, z: Byte)
    ensures Byte2(Sextet2(y, z), Sextet3(z)) == z
  {
  }

  /** The six-bit values of a string made only of alphabet characters. */
  function SymbolValues(s: JsString): (v: seq<Sextet>)
    requires forall i :: 0 <= i < |s| ==> IsSymbol(s[i])
    ensures |v| == |s| && forall i :: 0 <= i < |s| ==> Some(v[i]) == SymbolValue(s[i])
  {
    seq(|s|, i requires 0 <= i < |s| && IsSymbol(s[i]) => SymbolValue(s[i]).value)
  }

  predicate IsAsciiWhitespace(c: CodeUnit)
  {
    c == 0x09 || c == 0x0A || c == 0x0C || c == 0x0D || c == 0x20
  }

  /** The forgiving-base64 first step: drop every ASCII whitespace character. */
  function StripWhitespace(s: JsString): JsString
  {
    Seqs.Filter(s, (c: CodeUnit) => !IsAsciiWhitespace(c))
  }

  /** On a length that is a multiple of four, drop one or two trailing `=`. */
  function StripPadding(s: JsString): JsString
  {
    if |s| % 4 == 0 && |s| >= 2 && s[|s| - 1] == PadUnit && s[|s| - 2] == PadUnit then s[..|s| - 2]
    else if |s| % 4 == 0 && |s| >= 1 && s[|s| - 1] == PadUnit then s[..|s| - 1]
    else s
  }

  /**
   * `atob(s)`: the decoded bytes, one code unit each, or `None` where `atob` throws
   * (a length of 1 modulo 4 after padding removal, or a character outside the alphabet).
   */
  function Atob(s: JsString): (r: Option<JsString>)
    ensures r.Some? ==> forall i :: 0 <= i < |r.value| ==> r.value[i] as int < 0x100
  {
    var data := StripPadding(StripWhitespace(s));
    if |data| % 4 == 1 then None
    else if exists i :: 0 <= i < |data| && !IsSymbol(data[i]) then None
    else Some(FromBytes(DecodeSextets(SymbolValues(data))))
  }

  /** A byte sequence as a binary string. */
  function FromBytes(b: seq<Byte>): (r: JsString)
    ensures |r| == |b| && forall i :: 0 <= i < |b| ==> r[i] as int == b[i]
  {
    seq(|b|, i requires 0 <= i < |b| => b[i] as CodeUnit)
  }

  /** Whether every code unit of `s` fits in a byte, as `btoa` demands. */
  predicate IsBinary(s: JsString)
  {
    forall i :: 0 <= i < |s| ==> s[i] as int < 0x100
  }

  /** A binary string as its bytes. */
  function ToBytes(s: JsString): (b: seq<Byte>)
    requires IsBinary(s)
    ensures |b| == |s| && forall i :: 0 <= i < |s| ==> b[i] == s[i] as int
  {
    seq(|s|, i requires 0 <= i < |s| => s[i] as int)
  }

  lemma BytesRoundTrip(b: seq<Byte>)
    ensures IsBinary(FromBytes(b)) && ToBytes(FromBytes(b)) == b
  {
  }

  /** `btoa(s)`: the base64 of the binary string `s`, or `None` where `btoa` throws. */
  function Btoa(s: JsString): (r: Option<JsString>)
    ensures r.Some? <==> IsBinary(s)
    ensures r.Some? ==> r.value == Encode(ToBytes(s))
  {
    if IsBinary(s) then Some(Encode(ToBytes(s))) else None
  }

  /** Text without ASCII whitespace passes the first decoding step unchanged. */
  lemma StripWhitespaceOfPlain(s: JsString)
    requires forall i :: 0 <= i < |s| ==> !IsAsciiWhitespace(s[i])
    ensures StripWhitespace(s) == s
  {
    Seqs.FilterAll(s, (c: CodeUnit) => !IsAsciiWhitespace(c));
  }

  /** A base64 encoding has no whitespace, so the first decoding step keeps all of it. */
  lemma StripWhitespaceOfEncode(b: seq<Byte>)
    ensures StripWhitespace(Encode(b)) == Encode(b)
  {
    EncodeShape(b);
    StripWhitespaceOfPlain(Encode(b));
  }

  /** The symbols and the padding of `n` bytes fill whole groups of four. */
  lemma EncodedLength(n: nat)
    ensures PadLength(n) <= 2
    ensures (4 * n + 2) / 3 + PadLength(n) == 4 * ((n + 2) / 3)
    ensures 4 * ((n + 2) / 3) % 4 == 0
  {
    var q, r := n / 3, n % 3;
    assert n == 3 * q + r;
    if r == 0 {
      assert (4 * n + 2) / 3 == 4 * q;
      assert (n + 2) / 3 == q;
    } else if r == 1 {
      assert (4 * n + 2) / 3 == 4 * q + 2;
      assert (n + 2) / 3 == q + 1;
    } else {
      assert (4 * n + 2) / 3 == 4 * q + 3;
      assert (n + 2) / 3 == q + 1;
    }
  }

  /** Removing the padding of an encoding leaves exactly the alphabet characters of its groups. */
  lemma StripPaddingOfEncode(b: seq<Byte>)
    ensures StripPadding(Encode(b)) == Symbols(Sextets(b))
  {
    SextetsLength(b);
    EncodedLength(|b|);
    StripPaddingOfPadded(Symbols(Sextets(b)), PadLength(|b|));
  }

  /** Up to two `=` after pad-free text that fills whole groups of four are exactly what is stripped. */
  lemma StripPaddingOfPadded(syms: JsString, p: nat)
    requires p <= 2 && (|syms| + p) % 4 == 0
    requires forall i :: 0 <= i < |syms| ==> syms[i] != PadUnit
    ensures StripPadding(syms + Repeat(PadUnit, p)) == syms
  {
    var e := syms + Repeat(PadUnit, p);
    if p == 0 {
      assert e == syms;
      if |e| >= 1 { assert e[|e| - 1] == syms[|syms| - 1]; }
    } else if p == 1 {
      assert e[|e| - 1] == PadUnit;
      assert e[|e| - 2] == syms[|syms| - 1];
      assert e[..|e| - 1] == syms;
    } else {
      assert e[|e| - 1] == PadUnit && e[|e| - 2] == PadUnit;
      assert e[..|e| - 2] == syms;
    }
  }

  /** `atob(btoa(s))` gives back every binary string. */
  lemma AtobOfEncode(b: seq<Byte>)
    ensures Atob(Encode(b)) == Some(FromBytes(b))
  {
    StripWhitespaceOfEncode(b);
    StripPaddingOfEncode(b);
    var v := Sextets(b);
    SymbolValuesOfSymbols(v);
    DecodeSextetsOfSextets(b);
  }

  /** Reading back the alphabet characters of some sextets gives those sextets. */
  lemma SymbolValuesOfSymbols(v: seq<Sextet>)
    ensures forall i :: 0 <= i < |Symbols(v)| ==> IsSymbol(Symbols(v)[i])
    ensures SymbolValues(Symbols(v)) == v
  {
    var data := Symbols(v);
    forall i | 0 <= i < |data| ensures IsSymbol(data[i]) && SymbolValues(data)[i] == v[i] {
      SymbolValueInverse(v[i], data[i]);
    }
  }

  /** The round trip of the browser pair on binary strings. */
  lemma AtobOfBtoa(s: JsString)
    requires IsBinary(s)
    ensures Btoa(s).Some? && Atob(Btoa(s).value) == Some(s)
  {
    AtobOfEncode(ToBytes(s));
    assert FromBytes(ToBytes(s)) == s;
  }
}
