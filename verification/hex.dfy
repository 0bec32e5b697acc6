/**
 * Hexadecimal rendering of a byte buffer, as the reset-token generator turns
 * 32 random bytes into the token string (controllers/auth.js:173,178).
 */
module Hex {
  import opened Optional
  import opened Digits

  type Byte = b: nat | b < 256

  /** Number of random bytes drawn for one password-reset token. */
  const TokenBytes: nat := 32

  predicate IsLowerHex(s: string) {
    forall i :: 0 <= i < |s| ==> s[i] in LowerHexDigits
  }

  /** Two lower-case digits per byte, high nibble first. */
  function Encode(bytes: seq<Byte>): (s: string)
    ensures |s| == 2 * |bytes|
    ensures IsLowerHex(s)
  {
    if |bytes| == 0 then []
    else [DigitChar(bytes[0] / 16), DigitChar(bytes[0] % 16)] + Encode(bytes[1..])
  }

  /** Reads back pairs of digits of either case; an odd length or a non-digit fails. */
  function Decode(s: string): (r: Option<seq<Byte>>)
    ensures r.Some? ==> 2 * |r.value| == |s|
  {
    if |s| == 0 then Some([])
    else if |s| < 2 || !IsRadixDigit(s[0], 16) || !IsRadixDigit(s[1], 16) then None
    else match Decode(s[2..])
      case None => None
      case Some(rest) => Some([(DigitValue(s[0]) * 16 + DigitValue(s[1])) as Byte] + rest)
  }

  /** The two digits written for a byte read back as that byte. */
  lemma ByteDigits(b: Byte)
    ensures IsRadixDigit(DigitChar(b / 16), 16) && IsRadixDigit(DigitChar(b % 16), 16)
    ensures DigitValue(DigitChar(b / 16)) * 16 + DigitValue(DigitChar(b % 16)) == b
  {
  }

  lemma DecodeStep(s: string, b: Byte, rest: seq<Byte>)
    requires |s| >= 2 && IsRadixDigit(s[0], 16) && IsRadixDigit(s[1], 16)
    requires DigitValue(s[0]) * 16 + DigitValue(s[1]) == b
    requires Decode(s[2..]) == Some(rest)
    ensures Decode(s) == Some([b] + rest)
  {
  }

  lemma {:induction false} DecodeEncode(bytes: seq<Byte>)
    ensures Decode(Encode(bytes)) == Some(bytes)
  {
    if |bytes| > 0 {
      var s := Encode(bytes);
      var b := bytes[0];
      assert s[0] == DigitChar(b / 16) && s[1] == DigitChar(b % 16) && s[2..] == Encode(bytes[1..]);
      DecodeEncode(bytes[1..]);
      ByteDigits(b);
      DecodeStep(s, b, bytes[1..]);
      assert [b] + bytes[1..] == bytes;
    }
  }

  /** The reset token: the hexadecimal rendering of the 32 random bytes. */
  function ResetToken(buffer: seq<Byte>): (token: string)
    requires |buffer| == TokenBytes
    ensures |token| == 64 && IsLowerHex(token)
    ensures Decode(token) == Some(buffer)
  {
    DecodeEncode(buffer);
    Encode(buffer)
  }

  /** Distinct random buffers never yield the same token. */
  lemma ResetTokenInjective(a: seq<Byte>, b: seq<Byte>)
    requires |a| == TokenBytes && |b| == TokenBytes
    requires ResetToken(a) == ResetToken(b)
    ensures a == b
  {
  }
}
