/**
 * JavaScript strings as the engine stores them: sequences of UTF-16 code units.
 * The string helpers the mock backend relies on are defined here once:
 * `String(n)` for a non-negative integer, `padStart`, `parseInt(s, 10)` on a run of
 * decimal digits, ASCII `toLowerCase` and `includes`.
 */
module JsText {

  newtype CodeUnit = x: int | 0 <= x < 0x1_0000

  type JsString = seq<CodeUnit>

  const Zero: CodeUnit := 0x30
  const Hyphen: CodeUnit := 0x2D
  const Space: CodeUnit := 0x20

  predicate IsHighSurrogate(c: CodeUnit) { 0xD800 <= c <= 0xDBFF }

  predicate IsLowSurrogate(c: CodeUnit) { 0xDC00 <= c <= 0xDFFF }

  predicate IsSurrogate(c: CodeUnit) { 0xD800 <= c <= 0xDFFF }

  /** Every high surrogate is followed by a low one and every low surrogate follows a high one. */
  ghost predicate WellFormed(s: JsString)
  {
    && (forall i :: 0 <= i < |s| && IsHighSurrogate(s[i]) ==> i + 1 < |s| && IsLowSurrogate(s[i + 1]))
    && (forall i :: 0 <= i < |s| && IsLowSurrogate(s[i]) ==> 0 < i && IsHighSurrogate(s[i - 1]))
  }

  /**
   * A JavaScript string literal. Every literal of the mock backend is text of the Basic
   * Multilingual Plane, whose UTF-16 form is one code unit per character. JavaScript
   * stores a character outside that plane as a surrogate pair; no literal here has one,
   * and this function would map it to U+FFFD instead.
   */
  function Js(s: string): (r: JsString)
    ensures |r| == |s|
    ensures forall i :: 0 <= i < |s| && (s[i] as int) < 0x1_0000 ==> r[i] as int == s[i] as int
    ensures forall i :: 0 <= i < |s| ==> !IsSurrogate(r[i])
  {
    seq(|s|, i requires 0 <= i < |s| => if (s[i] as int) < 0x1_0000 then s[i] as int as CodeUnit else 0xFFFD)
  }

  // ---------------------------------------------------------------------------
  // Decimal digits: String(n), padStart and parseInt(s, 10)
  // ---------------------------------------------------------------------------

  predicate IsDigit(c: CodeUnit) { 0x30 <= c <= 0x39 }

  predicate AllDigits(s: JsString) { forall i :: 0 <= i < |s| ==> IsDigit(s[i]) }

  function DigitUnit(d: nat): (c: CodeUnit)
    requires d < 10
    ensures IsDigit(c) && c as int - 0x30 == d
  {
    (0x30 + d) as CodeUnit
  }

  /** `String(n)` for a non-negative integer: its decimal digits. */
  function Decimal(n: nat): (r: JsString)
    ensures 1 <= |r|
    ensures AllDigits(r)
    ensures n < 10 <==> |r| == 1
    ensures r[0] == Zero ==> n == 0
  {
    if n < 10 then [DigitUnit(n)] else Decimal(n / 10) + [DigitUnit(n % 10)]
  }

  /** `parseInt(s, 10)` on a string made only of decimal digits (leading zeros allowed). */
  function DigitsValue(s: JsString): nat
    requires AllDigits(s)
  {
    if s == [] then 0 else DigitsValue(s[..|s| - 1]) * 10 + (s[|s| - 1] as int - 0x30)
  }

  /** Printing a number and reading it back gives the number. */
  lemma {:induction false} DigitsValueOfDecimal(n: nat)
    ensures DigitsValue(Decimal(n)) == n
  {
    if n >= 10 {
      var r := Decimal(n);
      assert r[..|r| - 1] == Decimal(n / 10);
      DigitsValueOfDecimal(n / 10);
    }
  }

  /** `String(n)` never prints two numbers the same way. */
  lemma DecimalInjective(n: nat, m: nat)
    requires Decimal(n) == Decimal(m)
    ensures n == m
  {
    DigitsValueOfDecimal(n);
    DigitsValueOfDecimal(m);
  }

  /** Leading zeros do not change the value `parseInt` reads. */
  lemma {:induction false} DigitsValueLeadingZero(s: JsString)
    requires AllDigits(s)
    ensures AllDigits([Zero] + s) && DigitsValue([Zero] + s) == DigitsValue(s)
  {
    var z := [Zero] + s;
    if s != [] {
      assert z[..|z| - 1] == [Zero] + s[..|s| - 1];
      DigitsValueLeadingZero(s[..|s| - 1]);
    } else {
      assert z[..|z| - 1] == [];
    }
  }

  function Repeat(c: CodeUnit, n: nat): (r: JsString)
    ensures |r| == n && forall i :: 0 <= i < n ==> r[i] == c
  {
    if n == 0 then [] else [c] + Repeat(c, n - 1)
  }

  /** `s.padStart(width, fill)` with a one-unit filler. */
  function PadStart(s: JsString, width: nat, fill: CodeUnit): (r: JsString)
    ensures |r| == if |s| >= width then |s| else width
  {
    if |s| >= width then s else Repeat(fill, width - |s|) + s
  }

  /** `String(n).padStart(width, "0")`; its shape is `ZeroPadShape`. */
  function ZeroPad(n: nat, width: nat): JsString
  {
    PadStart(Decimal(n), width, Zero)
  }

  /** Zero-padding gives only digits, at least `width` of them, exactly three for a number below 1000. */
  lemma ZeroPadShape(n: nat, width: nat)
    ensures AllDigits(ZeroPad(n, width))
    ensures |ZeroPad(n, width)| >= width
    ensures n < 1000 && width == 3 ==> |ZeroPad(n, width)| == 3
  {
    var d := Decimal(n);
    assert n < 1000 ==> |d| <= 3 by {
      if n < 1000 && n >= 10 {
        assert |Decimal(n / 10)| <= 2 by {
          if n / 10 >= 10 { assert Decimal(n / 10) == Decimal(n / 100) + [DigitUnit(n / 10 % 10)]; }
        }
      }
    }
    if |d| < width {
      var r := ZeroPad(n, width);
      assert r == Repeat(Zero, width - |d|) + d;
      assert forall i :: 0 <= i < |r| ==> IsDigit(r[i]) by {
        forall i | 0 <= i < |r| ensures IsDigit(r[i]) {
          if i < width - |d| { assert r[i] == Zero; } else { assert r[i] == d[i - (width - |d|)]; }
        }
      }
    }
  }

  lemma {:induction false} DigitsValueZeros(k: nat, s: JsString)
    requires AllDigits(s)
    ensures AllDigits(Repeat(Zero, k) + s) && DigitsValue(Repeat(Zero, k) + s) == DigitsValue(s)
  {
    if k > 0 {
      DigitsValueZeros(k - 1, s);
      assert Repeat(Zero, k) + s == [Zero] + (Repeat(Zero, k - 1) + s);
      DigitsValueLeadingZero(Repeat(Zero, k - 1) + s);
    } else {
      assert Repeat(Zero, k) + s == s;
    }
  }

  /** Zero-padding keeps the number's value, so `parseInt` reads it back. */
  lemma ZeroPadValue(n: nat, width: nat)
    ensures DigitsValue(ZeroPad(n, width)) == n
  {
    var d := Decimal(n);
    DigitsValueOfDecimal(n);
    if |d| < width {
      DigitsValueZeros(width - |d|, d);
    }
  }

  /** Zero-padded numbers are distinct exactly when the numbers are. */
  lemma ZeroPadInjective(n: nat, m: nat, width: nat)
    ensures ZeroPad(n, width) == ZeroPad(m, width) <==> n == m
  {
    ZeroPadValue(n, width);
    ZeroPadValue(m, width);
  }

  // ---------------------------------------------------------------------------
  // toLowerCase (ASCII letters) and includes
  // ---------------------------------------------------------------------------

  predicate IsUpperAscii(c: CodeUnit) { 0x41 <= c <= 0x5A }

  function LowerUnit(c: CodeUnit): (r: CodeUnit)
    ensures !IsUpperAscii(r)
    ensures !IsUpperAscii(c) ==> r == c
    ensures IsUpperAscii(c) ==> r as int == c as int + 0x20
  {
    if IsUpperAscii(c) then c + 0x20 else c
  }

  /** `s.toLowerCase()`, restricted to the ASCII letters. */
  function Lower(s: JsString): (r: JsString)
    ensures |r| == |s|
    ensures forall i :: 0 <= i < |s| ==> r[i] == LowerUnit(s[i])
  {
    seq(|s|, i requires 0 <= i < |s| => LowerUnit(s[i]))
  }

  /** Lower-casing twice is lower-casing once. */
  lemma LowerIdempotent(s: JsString)
    ensures Lower(Lower(s)) == Lower(s)
  {
  }

  predicate OccursAt(s: JsString, sub: JsString, i: nat)
  {
    i + |sub| <= |s| && s[i..i + |sub|] == sub
  }

  /** `s.includes(sub)`. */
  predicate Includes(s: JsString, sub: JsString)
  {
    exists i: nat :: i <= |s| && OccursAt(s, sub, i)
  }

  lemma IncludesEmpty(s: JsString)
    ensures Includes(s, [])
  {
    assert OccursAt(s, [], 0);
  }
}
