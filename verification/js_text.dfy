/**
 * The two pieces of JavaScript string handling the core relies on: the
 * `trim` sanitizer applied to passwords (routes/auth.js:19,50,52) and
 * `parseInt` without a radix, applied to the page query
 * (controllers/comment.js:52). Both follow the ECMAScript definitions.
 */
module JsText {
  import opened Optional
  import opened Digits

  /** WhiteSpace and LineTerminator code units, the set matched by `\s` and skipped by `parseInt`. */
  predicate IsWhiteSpace(c: char) {
    c == ' ' || c == '\t' || c == '\n' || c == '\U{000B}' || c == '\U{000C}' || c == '\r'
    || c == '\U{00A0}' || c == '\U{1680}' || '\U{2000}' <= c <= '\U{200A}'
    || c == '\U{2028}' || c == '\U{2029}' || c == '\U{202F}' || c == '\U{205F}'
    || c == '\U{3000}' || c == '\U{FEFF}'
  }

  /** Drops leading white space: the result is the longest suffix not starting with white space. */
  function TrimStart(s: string): (r: string)
    ensures |r| <= |s| && r == s[|s| - |r|..]
    ensures |r| > 0 ==> !IsWhiteSpace(r[0])
    ensures forall i :: 0 <= i < |s| - |r| ==> IsWhiteSpace(s[i])
  {
    if |s| > 0 && IsWhiteSpace(s[0]) then TrimStart(s[1..]) else s
  }

  /** Drops trailing white space: the result is the longest prefix not ending with white space. */
  function TrimEnd(s: string): (r: string)
    ensures |r| <= |s| && r == s[..|r|]
    ensures |r| > 0 ==> !IsWhiteSpace(r[|r| - 1])
    ensures forall i :: |r| <= i < |s| ==> IsWhiteSpace(s[i])
  {
    if |s| > 0 && IsWhiteSpace(s[|s| - 1]) then TrimEnd(s[..|s| - 1]) else s
  }

  /** Number of white-space characters that `TrimStart` drops. */
  function TrimOffset(s: string): (k: nat)
    ensures k <= |s|
  {
    |s| - |TrimStart(s)|
  }

  /**
   * The `trim` sanitizer: the infix of the input that starts after its
   * leading white space, ends before its trailing white space, and has white
   * space at neither end.
   */
  function Trim(s: string): (r: string)
    ensures TrimOffset(s) + |r| <= |s| && r == s[TrimOffset(s)..TrimOffset(s) + |r|]
    ensures forall i :: 0 <= i < TrimOffset(s) ==> IsWhiteSpace(s[i])
    ensures forall i :: TrimOffset(s) + |r| <= i < |s| ==> IsWhiteSpace(s[i])
    ensures |r| > 0 ==> !IsWhiteSpace(r[0]) && !IsWhiteSpace(r[|r| - 1])
  {
    var t := TrimStart(s);
    var r := TrimEnd(t);
    InfixOfSuffix(s, t, r);
    r
  }

  /** A prefix `r` of a suffix `t` of `s` sits in `s` at the offset where `t` starts. */
  lemma InfixOfSuffix(s: string, t: string, r: string)
    requires |t| <= |s| && t == s[|s| - |t|..]
    requires |r| <= |t| && r == t[..|r|]
    requires forall i :: |r| <= i < |t| ==> IsWhiteSpace(t[i])
    ensures r == s[|s| - |t|..|s| - |t| + |r|]
    ensures forall i :: |s| - |t| + |r| <= i < |s| ==> IsWhiteSpace(s[i])
  {
    var k := |s| - |t|;
    forall i | k + |r| <= i < |s| ensures IsWhiteSpace(s[i]) {
      assert s[i] == t[i - k];
    }
  }

  /** A string with no white space at either end is its own trimmed form. */
  lemma {:induction false} TrimUntouched(s: string)
    requires |s| > 0 ==> !IsWhiteSpace(s[0]) && !IsWhiteSpace(s[|s| - 1])
    ensures Trim(s) == s
  {
    assert TrimStart(s) == s;
    assert TrimEnd(s) == s;
  }

  lemma TrimIdempotent(s: string)
    ensures Trim(Trim(s)) == Trim(s)
  {
    TrimUntouched(Trim(s));
  }

  lemma TrimSkipsLeadingSpace(s: string)
    requires |s| > 0 && IsWhiteSpace(s[0])
    ensures Trim(s) == Trim(s[1..])
  {
    assert TrimStart(s) == TrimStart(s[1..]);
  }

  lemma TrimPadded()
    ensures Trim(" abc") == "abc"
  {
    var padded := " abc";
    var inner := "abc";
    assert padded[1..] == inner;
    TrimSkipsLeadingSpace(padded);
    TrimUntouched(inner);
  }

  /** Length of the longest prefix made of digits of the given radix. */
  function DigitRun(s: string, radix: nat): (n: nat)
    ensures n <= |s|
    ensures forall i :: 0 <= i < n ==> IsRadixDigit(s[i], radix)
    ensures n < |s| ==> !IsRadixDigit(s[n], radix)
  {
    if |s| > 0 && IsRadixDigit(s[0], radix) then 1 + DigitRun(s[1..], radix) else 0
  }

  lemma NatProduct(a: nat, b: nat)
    ensures a * b >= 0
  {
  }

  /** The value of a digit string read most significant digit first. */
  function Value(ds: string, radix: nat): nat
    requires forall i :: 0 <= i < |ds| ==> IsRadixDigit(ds[i], radix)
  {
    if |ds| == 0 then 0
    else
      var last := ds[|ds| - 1];
      assert IsRadixDigit(last, radix);
      var high: nat := Value(ds[..|ds| - 1], radix);
      var shifted: int := high * radix;
      assert shifted >= 0 by { NatProduct(high, radix); }
      shifted + DigitValue(last)
  }

  /** `parseInt` after the sign: an optional `0x`/`0X` prefix selects radix 16, then the longest digit run. */
  function ParseMagnitude(u: string): Option<nat>
  {
    var hex := |u| >= 2 && u[0] == '0' && (u[1] == 'x' || u[1] == 'X');
    var radix := if hex then 16 else 10;
    var body := if hex then u[2..] else u;
    var n := DigitRun(body, radix);
    if n == 0 then None else Some(Value(body[..n], radix))
  }

  /**
   * `parseInt(s)` with no radix argument; `None` stands for NaN. Leading
   * white space is skipped and one sign character is read before the
   * magnitude.
   */
  function ParseInt(s: string): Option<int>
  {
    var t := TrimStart(s);
    if |t| > 0 && (t[0] == '-' || t[0] == '+') then
      match ParseMagnitude(t[1..])
      case None => None
      case Some(m) => var v: int := m; Some(if t[0] == '-' then -v else v)
    else
      match ParseMagnitude(t)
      case None => None
      case Some(m) => Some(m)
  }

  /** The decimal rendering of a natural number, as a query string carries it. */
  function Decimal(n: nat): (s: string)
    ensures |s| > 0
    ensures forall i :: 0 <= i < |s| ==> IsDecimalDigit(s[i])
  {
    if n < 10 then [DigitChar(n)] else Decimal(n / 10) + [DigitChar(n % 10)]
  }

  lemma {:induction false} ValueOfDecimal(n: nat)
    ensures forall i :: 0 <= i < |Decimal(n)| ==> IsRadixDigit(Decimal(n)[i], 10)
    ensures Value(Decimal(n), 10) == n
  {
    var s := Decimal(n);
    if n >= 10 {
      ValueOfDecimal(n / 10);
      assert s[..|s| - 1] == Decimal(n / 10);
    }
  }

  lemma {:induction false} DigitRunWhole(s: string, radix: nat)
    requires forall i :: 0 <= i < |s| ==> IsRadixDigit(s[i], radix)
    ensures DigitRun(s, radix) == |s|
  {
    if |s| > 0 {
      DigitRunWhole(s[1..], radix);
    }
  }

  /** A non-empty string of decimal digits is read whole, in radix 10. */
  lemma ParseMagnitudeOfDigits(s: string)
    requires |s| > 0 && forall i :: 0 <= i < |s| ==> IsDecimalDigit(s[i])
    ensures forall i :: 0 <= i < |s| ==> IsRadixDigit(s[i], 10)
    ensures ParseMagnitude(s) == Some(Value(s, 10))
  {
    assert forall i :: 0 <= i < |s| ==> IsRadixDigit(s[i], 10);
    DigitRunWhole(s, 10);
    assert !(|s| >= 2 && s[0] == '0' && (s[1] == 'x' || s[1] == 'X')) by {
      if |s| >= 2 { assert IsDecimalDigit(s[1]); }
    }
    assert s[..|s|] == s;
  }

  lemma ParseMagnitudeDecimal(n: nat)
    ensures ParseMagnitude(Decimal(n)) == Some(n)
  {
    ValueOfDecimal(n);
    ParseMagnitudeOfDigits(Decimal(n));
  }

  /** A string without leading white space or sign is read by `ParseMagnitude` alone. */
  lemma ParseIntUnsigned(s: string)
    requires |s| > 0 && !IsWhiteSpace(s[0]) && s[0] != '-' && s[0] != '+'
    ensures ParseInt(s).Some? <==> ParseMagnitude(s).Some?
    ensures ParseInt(s).Some? ==> ParseInt(s).value == ParseMagnitude(s).value
  {
    assert TrimStart(s) == s;
  }

  /** `parseInt` reads back the decimal rendering of every natural number. */
  lemma ParseIntDecimal(n: nat)
    ensures ParseInt(Decimal(n)) == Some(n)
  {
    var s := Decimal(n);
    ParseMagnitudeDecimal(n);
    assert IsDecimalDigit(s[0]);
    ParseIntUnsigned(s);
  }

  /** A leading minus sign negates the magnitude read after it. */
  lemma ParseIntMinus(s: string, m: nat)
    requires |s| > 0 && s[0] == '-' && ParseMagnitude(s[1..]) == Some(m)
    ensures ParseInt(s) == Some(-(m as int))
  {
    var t := TrimStart(s);
    assert t == s;
    assert t[1..] == s[1..];
  }

  lemma ParseIntNegativeDecimal(n: nat)
    ensures ParseInt("-" + Decimal(n)) == Some(-(n as int))
  {
    var s := "-" + Decimal(n);
    assert s[1..] == Decimal(n);
    ParseMagnitudeDecimal(n);
    ParseIntMinus(s, n);
  }

  /** A string that starts with a letter reads as NaN. */
  lemma ParseIntLetterIsNaN(s: string)
    requires |s| > 0 && ('a' <= s[0] <= 'z' || 'A' <= s[0] <= 'Z')
    ensures ParseInt(s) == None
  {
    assert !IsWhiteSpace(s[0]);
    assert TrimStart(s) == s;
    assert !IsRadixDigit(s[0], 10);
    assert DigitRun(s, 10) == 0;
  }
}
