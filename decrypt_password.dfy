/**
 * The mock password decryption: the stored password is read back with `atob`, with
 * fallbacks for an empty and for a malformed input, so the operation never fails.
 */
module DecryptPassword {
  import opened Wrappers
  import opened JsText
  import Base64
  import Utf8
  import Accounts
  import Tenants

  const Placeholder: JsString := Js("mock-password-123")

  /**
   * `decryptPassword(encryptedPassword)`: "" for the empty string, the `atob` decoding
   * (one code unit per byte) when that succeeds, and the placeholder when `atob` throws.
   */
  function Decrypt(encryptedPassword: JsString): (r: JsString)
    ensures encryptedPassword == [] ==> r == []
    ensures encryptedPassword != [] && Base64.Atob(encryptedPassword).Some? ==> r == Base64.Atob(encryptedPassword).value
    ensures encryptedPassword != [] && Base64.Atob(encryptedPassword).None? ==> r == Placeholder
  {
    if encryptedPassword == [] then []
    else
      match Base64.Atob(encryptedPassword)
      case Some(decoded) => decoded
      case None => Placeholder
  }

  /** Decrypting a base64 encoding gives back the encoded bytes, as a binary string. */
  lemma DecryptOfEncode(b: seq<Base64.Byte>)
    ensures Decrypt(Base64.Encode(b)) == Base64.FromBytes(b)
  {
    Base64.AtobOfEncode(b);
    Base64.EncodeShape(b);
  }

  /**
   * An input without whitespace whose length is 1 modulo 4, such as "abcde", has no base64
   * reading, so it decrypts to the placeholder.
   */
  lemma DecryptMalformed(s: JsString)
    requires |s| % 4 == 1
    requires forall i :: 0 <= i < |s| ==> !Base64.IsAsciiWhitespace(s[i])
    ensures Decrypt(s) == Placeholder
  {
    Base64.StripWhitespaceOfPlain(s);
  }

  /** A stored ASCII password decrypts back to itself. */
  lemma DecryptAsciiRoundTrip(s: JsString)
    requires forall i :: 0 <= i < |s| ==> s[i] as int < 0x80
    ensures Decrypt(Accounts.SafeBase64Encode(s)) == s
  {
    Utf8.EncodeAscii(s);
    Utf8.EncodeDefined(s);
    Accounts.SafeBase64EncodeSpec(s);
    DecryptOfEncode(Base64.ToBytes(s));
  }

  /**
   * Any other stored password decrypts to its UTF-8 bytes, one code unit each, which is
   * not the password once it has a character from U+0080 on.
   */
  lemma DecryptWellFormed(s: JsString)
    requires WellFormed(s)
    ensures Utf8.Encode(s).Some?
    ensures Decrypt(Accounts.SafeBase64Encode(s)) == Base64.FromBytes(Utf8.Encode(s).value)
  {
    Accounts.SafeBase64EncodeSpec(s);
    DecryptOfEncode(Utf8.Encode(s).value);
  }

  /**
   * A character from U+0080 to U+07FF, such as "é" (U+00E9, stored as `w6k=`), decrypts to
   * the two units of its UTF-8 bytes (U+00C3 U+00A9 for "é"), not to itself.
   */
  lemma DecryptNonAsciiMismatch(c: CodeUnit)
    requires 0x80 <= c < 0x800
    ensures Decrypt(Accounts.SafeBase64Encode([c])) == [(0xC0 + c as int / 64) as CodeUnit, (0x80 + c as int % 64) as CodeUnit]
    ensures Decrypt(Accounts.SafeBase64Encode([c])) != [c]
  {
    Utf8.EncodeUnit(c);
    DecryptWellFormed([c]);
    var bytes := Utf8.ScalarBytes(c as int);
    assert Base64.FromBytes(bytes) == [bytes[0] as CodeUnit, bytes[1] as CodeUnit];
  }

  /**
   * The decryption that inverts `safeBase64Encode` on every well-formed string: the `atob`
   * bytes read as UTF-8, falling back to the binary string when they are not UTF-8.
   */
  function DecryptUtf8(encryptedPassword: JsString): JsString
  {
    if encryptedPassword == [] then []
    else
      match Base64.Atob(encryptedPassword)
      case None => Placeholder
      case Some(decoded) =>
        match Utf8.Decode(Base64.ToBytes(decoded))
        case Some(text) => text
        case None => decoded
  }

  /** Every password without lone surrogates survives storing and decrypting. */
  lemma DecryptUtf8RoundTrip(s: JsString)
    requires WellFormed(s)
    ensures DecryptUtf8(Accounts.SafeBase64Encode(s)) == s
  {
    Accounts.SafeBase64EncodeSpec(s);
    var b := Utf8.Encode(s).value;
    Base64.AtobOfEncode(b);
    Base64.EncodeShape(b);
    Base64.BytesRoundTrip(b);
    Utf8.DecodeOfEncode(s);
  }

  /** The synthesized member k's password decrypts to `password-${k}`. */
  lemma MemberPasswordDecrypts(k: nat)
    ensures Decrypt(Tenants.MemberPassword(k)) == Tenants.MemberPasswordText(k)
  {
    var text := Tenants.MemberPasswordText(k);
    Base64.AtobOfBtoa(text);
    Base64.EncodeShape(Base64.ToBytes(text));
  }
}
