/** Which strings JavaScript converts to a number: `isNaN(s)` on a string `s` is false exactly
    when `s`, trimmed of white space and line terminators, is empty or a StringNumericLiteral
    (section 7.1.4.1 of ECMA-262: signed decimals with optional fraction and exponent,
    `Infinity`, and unsigned `0b`/`0o`/`0x` integers). Only whether the value is NaN is
    modelled, not the value. */
module JsNumber {
  import opened JsText

  predicate AllDigits(s: string) {
    forall i :: 0 <= i < |s| ==> IsDecimalDigit(s[i])
  }

  /** The index of the first `c1` or `c2` in `s`, or `|s|` when there is none. */
  function FirstIndex(s: string, c1: char, c2: char): (k: nat)
    ensures k <= |s|
    ensures forall i :: 0 <= i < k ==> s[i] != c1 && s[i] != c2
    ensures k < |s| ==> s[k] == c1 || s[k] == c2
  {
    if s == [] || s[0] == c1 || s[0] == c2 then 0 else 1 + FirstIndex(s[1..], c1, c2)
  }

  predicate IsSign(c: char) { c == '+' || c == '-' }

  /** The digits after `e`: an optional sign, then at least one decimal digit. */
  predicate IsExponent(x: string) {
    if x != [] && IsSign(x[0]) then x[1..] != [] && AllDigits(x[1..]) else x != [] && AllDigits(x)
  }

  /** `1`, `1.`, `1.5` or `.5`: digits with at most one point and at least one digit. */
  predicate IsMantissa(m: string) {
    var d := FirstIndex(m, '.', '.');
    if d == |m| then m != [] && AllDigits(m)
    else AllDigits(m[..d]) && AllDigits(m[d + 1..]) && (d > 0 || d + 1 < |m|)
  }

  /** StrUnsignedDecimalLiteral. */
  predicate IsUnsignedDecimal(u: string) {
    u == "Infinity" ||
    var e := FirstIndex(u, 'e', 'E');
    if e == |u| then IsMantissa(u) else IsMantissa(u[..e]) && IsExponent(u[e + 1..])
  }

  /** StrDecimalLiteral: an optionally signed StrUnsignedDecimalLiteral. */
  predicate IsDecimal(t: string) {
    if t != [] && IsSign(t[0]) then IsUnsignedDecimal(t[1..]) else IsUnsignedDecimal(t)
  }

  /** The radix a `0?` prefix selects, or 0 for none. */
  function RadixOf(c: char): (radix: nat)
    ensures radix in {0, 2, 8, 16}
  {
    if c == 'b' || c == 'B' then 2
    else if c == 'o' || c == 'O' then 8
    else if c == 'x' || c == 'X' then 16
    else 0
  }

  predicate IsRadixDigit(c: char, radix: nat) {
    if radix == 16 then IsDecimalDigit(c) || 'a' <= c <= 'f' || 'A' <= c <= 'F'
    else '0' <= c && (c as int) < ('0' as int) + radix
  }

  /** NonDecimalIntegerLiteral: `0b`, `0o` or `0x`, then at least one digit of that radix. */
  predicate IsNonDecimalInteger(t: string) {
    |t| >= 3 && t[0] == '0' && RadixOf(t[1]) > 0 &&
    forall i :: 2 <= i < |t| ==> IsRadixDigit(t[i], RadixOf(t[1]))
  }

  predicate IsStrNumericLiteral(t: string) {
    IsDecimal(t) || IsNonDecimalInteger(t)
  }

  /** `isNaN(s)` for a string `s`. */
  predicate IsNaNString(s: string) {
    var t := Trim(s);
    t != [] && !IsStrNumericLiteral(t)
  }

  /** The characters a StringNumericLiteral can contain. */
  predicate IsNumericChar(c: char) {
    IsDecimalDigit(c) || IsSign(c) || c == '.' || c == 'e' || c == 'E' || c == 'x' || c == 'X' ||
    c == 'o' || c == 'O' || c == 'b' || c == 'B' || 'a' <= c <= 'f' || 'A' <= c <= 'F' ||
    c == 'I' || c == 'n' || c == 'i' || c == 't' || c == 'y'
  }

  lemma MantissaChars(m: string)
    requires IsMantissa(m)
    ensures forall i :: 0 <= i < |m| ==> IsNumericChar(m[i])
  {
    var d := FirstIndex(m, '.', '.');
    if d < |m| {
      forall i | 0 <= i < |m|
        ensures IsNumericChar(m[i])
      {
        if i < d {
          assert m[i] == m[..d][i];
        } else if i > d {
          assert m[i] == m[d + 1..][i - d - 1];
        }
      }
    }
  }

  lemma UnsignedDecimalChars(u: string)
    requires IsUnsignedDecimal(u)
    ensures forall i :: 0 <= i < |u| ==> IsNumericChar(u[i])
  {
    if u != "Infinity" {
      var e := FirstIndex(u, 'e', 'E');
      if e == |u| {
        MantissaChars(u);
      } else {
        MantissaChars(u[..e]);
        var x := u[e + 1..];
        forall i | 0 <= i < |u|
          ensures IsNumericChar(u[i])
        {
          if i < e {
            assert u[i] == u[..e][i];
          } else if i > e {
            assert u[i] == x[i - e - 1];
            if x != [] && IsSign(x[0]) && i > e + 1 {
              assert u[i] == x[1..][i - e - 2];
            }
          }
        }
      }
    }
  }

  /** A StringNumericLiteral is made of digits, signs, the point, exponent and radix letters,
      hexadecimal digits and the letters of `Infinity`. */
  lemma StrNumericLiteralChars(t: string)
    requires IsStrNumericLiteral(t)
    ensures forall i :: 0 <= i < |t| ==> IsNumericChar(t[i])
  {
    if IsDecimal(t) {
      if t != [] && IsSign(t[0]) {
        UnsignedDecimalChars(t[1..]);
        forall i | 1 <= i < |t|
          ensures IsNumericChar(t[i])
        {
          assert t[i] == t[1..][i - 1];
        }
      } else {
        UnsignedDecimalChars(t);
      }
    }
  }

  /** A non-empty run of decimal digits is a number. */
  lemma DigitsAreNumeric(t: string)
    requires t != [] && AllDigits(t)
    ensures IsStrNumericLiteral(t)
  {
    assert FirstIndex(t, '.', '.') == |t|;
    assert FirstIndex(t, 'e', 'E') == |t|;
    assert !IsSign(t[0]);
  }
}
