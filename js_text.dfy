/** The few JavaScript string built-ins the service relies on, over Dafny
    strings: `String.prototype.trim`, `Array.prototype.join`, `parseInt`
    without a radix, number-to-string for non-negative integers, and the
    case-insensitive `contains` the storage layer applies to search terms. */
module JsText {
  import opened Wrappers

  // ---------------------------------------------------------------------
  // White space and trim()

  /** The characters ECMAScript strips in `trim()` and skips at the start of
      `parseInt`: WhiteSpace (tab, vertical tab, form feed, space, no-break
      space, byte order mark and the other Zs space separators) and
      LineTerminator (line feed, carriage return, line and paragraph
      separators). */
  predicate IsJsWhitespace(c: char)
  {
    || c == '\t' || c == '\n' || c == '\U{000B}' || c == '\U{000C}' || c == '\r'
    || c == ' ' || c == '\U{00A0}' || c == '\U{1680}'
    || ('\U{2000}' <= c <= '\U{200A}')
    || c == '\U{2028}' || c == '\U{2029}' || c == '\U{202F}' || c == '\U{205F}'
    || c == '\U{3000}' || c == '\U{FEFF}'
  }

  /** A string made only of white space (the empty string included). */
  predicate Blank(s: string)
  {
    forall i :: 0 <= i < |s| ==> IsJsWhitespace(s[i])
  }

  /** Removes leading white space: the result is the suffix of `s` that
      starts at its first non-white-space character. */
  function TrimStart(s: string): (r: string)
    ensures |r| <= |s| && r == s[|s| - |r|..]
    ensures forall i :: 0 <= i < |s| - |r| ==> IsJsWhitespace(s[i])
    ensures |r| > 0 ==> !IsJsWhitespace(r[0])
  {
    if |s| > 0 && IsJsWhitespace(s[0]) then TrimStart(s[1..]) else s
  }

  /** Removes trailing white space: the result is the prefix of `s` that
      ends at its last non-white-space character. */
  function TrimEnd(s: string): (r: string)
    ensures |r| <= |s| && r == s[..|r|]
    ensures forall i :: |r| <= i < |s| ==> IsJsWhitespace(s[i])
    ensures |r| > 0 ==> !IsJsWhitespace(r[|r| - 1])
  {
    if |s| > 0 && IsJsWhitespace(s[|s| - 1]) then TrimEnd(s[..|s| - 1]) else s
  }

  /** `s.trim()`. */
  function Trim(s: string): string
  {
    TrimEnd(TrimStart(s))
  }

  /** `s.trim().length === 0` holds exactly for the strings made only of
      white space. */
  lemma TrimEmptyIffBlank(s: string)
    ensures |Trim(s)| == 0 <==> Blank(s)
  {
    var t := TrimStart(s);
    if |t| > 0 {
      assert s[|s| - |t|] == t[0];
      var first := t[0];
      assert |TrimEnd(t)| == 0 ==> IsJsWhitespace(first);
    }
  }

  // ---------------------------------------------------------------------
  // Array.prototype.join

  /** `xs.join(sep)`: the elements in order with `sep` between neighbours;
      the empty array joins to the empty string. */
  function Join(xs: seq<string>, sep: string): string
  {
    if |xs| == 0 then ""
    else if |xs| == 1 then xs[0]
    else xs[0] + sep + Join(xs[1..], sep)
  }

  /** `needle` occurs in `hay` starting at index `i`. */
  predicate OccursAt(needle: string, hay: string, i: int)
  {
    0 <= i && i + |needle| <= |hay| && hay[i..i + |needle|] == needle
  }

  /** `hay.includes(needle)`. */
  predicate IsSubstring(needle: string, hay: string)
  {
    exists i :: 0 <= i <= |hay| - |needle| && OccursAt(needle, hay, i)
  }

  lemma OccursInConcat(needle: string, a: string, h: string, b: string, i: int)
    requires OccursAt(needle, h, i)
    ensures OccursAt(needle, a + h + b, |a| + i)
  {
    assert (a + h + b)[|a| + i..|a| + i + |needle|] == h[i..i + |needle|];
  }

  /** Every joined element appears in the joined string, so a joined error
      list mentions every error. */
  lemma {:induction false} JoinContainsEach(xs: seq<string>, sep: string, k: int)
    requires 0 <= k < |xs|
    ensures IsSubstring(xs[k], Join(xs, sep))
  {
    if |xs| == 1 {
      assert OccursAt(xs[0], Join(xs, sep), 0);
    } else if k == 0 {
      OccursInConcat(xs[0], "", xs[0], sep + Join(xs[1..], sep), 0);
      assert "" + xs[0] + (sep + Join(xs[1..], sep)) == Join(xs, sep);
    } else {
      JoinContainsEach(xs[1..], sep, k - 1);
      var i :| 0 <= i <= |Join(xs[1..], sep)| - |xs[k]| && OccursAt(xs[k], Join(xs[1..], sep), i);
      OccursInConcat(xs[k], xs[0] + sep, Join(xs[1..], sep), "", i);
      assert xs[0] + sep + Join(xs[1..], sep) + "" == Join(xs, sep);
    }
  }

  // ---------------------------------------------------------------------
  // Case-insensitive containment

  /** ASCII lower-casing of one character. */
  function LowerChar(c: char): (r: char)
    ensures 'A' <= c <= 'Z' ==> 'a' <= r <= 'z' && r as int - c as int == 32
    ensures !('A' <= c <= 'Z') ==> r == c
  {
    if 'A' <= c <= 'Z' then (c as int + 32) as char else c
  }

  /** An ASCII capital letter. */
  predicate IsUpper(c: char)
  {
    'A' <= c <= 'Z'
  }

  /** ASCII lower-casing of a string: no capital is left, every capital
      becomes its small letter, every other character stays, and a string
      is its own lower-casing exactly when it has no capital. */
  function Lower(s: string): (r: string)
    ensures |r| == |s|
    ensures forall i :: 0 <= i < |r| ==> !IsUpper(r[i])
    ensures forall i :: 0 <= i < |s| && IsUpper(s[i]) ==> r[i] as int == s[i] as int + 32
    ensures forall i :: 0 <= i < |s| && !IsUpper(s[i]) ==> r[i] == s[i]
    ensures r == s <==> forall i :: 0 <= i < |s| ==> !IsUpper(s[i])
  {
    seq(|s|, i requires 0 <= i < |s| => LowerChar(s[i]))
  }

  /** `text` contains `search` when both are lower-cased (the storage
      layer's `contains` with `mode: 'insensitive'`). */
  predicate ContainsInsensitive(text: string, search: string)
  {
    IsSubstring(Lower(search), Lower(text))
  }

  /** Matching ignores the case of both sides. */
  lemma ContainsInsensitiveIgnoresCase(text: string, search: string)
    ensures ContainsInsensitive(Lower(text), search) <==> ContainsInsensitive(text, search)
    ensures ContainsInsensitive(text, Lower(search)) <==> ContainsInsensitive(text, search)
  {
    LowerIdempotent(text);
    LowerIdempotent(search);
  }

  lemma LowerIdempotent(s: string)
    ensures Lower(Lower(s)) == Lower(s)
  {
  }

  // ---------------------------------------------------------------------
  // Digits, parseInt and number-to-string

  predicate IsDecimalDigit(c: char)
  {
    '0' <= c <= '9'
  }

  /** The value of `c` as a digit in any radix up to 36 (`0`-`9`, then `a`-`z`
      or `A`-`Z`); 36 for a character that is a digit in no radix. */
  function DigitValue(c: char): (d: nat)
    ensures d <= 36
    ensures d < 10 <==> IsDecimalDigit(c)
  {
    if '0' <= c <= '9' then c as int - '0' as int
    else if 'a' <= c <= 'z' then c as int - 'a' as int + 10
    else if 'A' <= c <= 'Z' then c as int - 'A' as int + 10
    else 36
  }

  /** The longest prefix of `s` made of digits of the given radix. */
  function DigitPrefix(s: string, radix: nat): (r: string)
    ensures r <= s
    ensures forall i :: 0 <= i < |r| ==> DigitValue(r[i]) < radix
    ensures |r| < |s| ==> DigitValue(s[|r|]) >= radix
  {
    if |s| == 0 || DigitValue(s[0]) >= radix then "" else [s[0]] + DigitPrefix(s[1..], radix)
  }

  /** The number written by the digits `ds` in the given radix, most
      significant digit first. */
  function DigitsValue(ds: string, radix: nat): nat
  {
    if |ds| == 0 then 0 else DigitsValue(ds[..|ds| - 1], radix) * radix + DigitValue(ds[|ds| - 1])
  }

  /** `parseInt(s)` with no radix argument: skip leading white space, take an
      optional sign, read hexadecimal after a `0x`/`0X` prefix and decimal
      otherwise, and stop at the first character that is not a digit.
      `None` is `NaN`: no digit was found. */
  function ParseInt(s: string): Option<int>
  {
    ParseSigned(TrimStart(s))
  }

  /** The sign step of `parseInt`, after the white space is gone. */
  function ParseSigned(t: string): Option<int>
  {
    if |t| > 0 && t[0] == '-' then
      match ParseUnsigned(t[1..])
      case None => None
      case Some(m) => Some(-(m as int))
    else if |t| > 0 && t[0] == '+' then
      match ParseUnsigned(t[1..])
      case None => None
      case Some(m) => Some(m)
    else
      match ParseUnsigned(t)
      case None => None
      case Some(m) => Some(m)
  }

  /** The radix step of `parseInt`: hexadecimal after `0x` or `0X`, decimal
      otherwise. */
  function ParseUnsigned(u: string): Option<nat>
  {
    if |u| >= 2 && u[0] == '0' && (u[1] == 'x' || u[1] == 'X') then ParseDigits(u[2..], 16)
    else ParseDigits(u, 10)
  }

  /** The digits step of `parseInt`: the value of the longest digit prefix,
      or `NaN` when there is none. */
  function ParseDigits(v: string, radix: nat): (r: Option<nat>)
    ensures r.None? <==> |v| == 0 || DigitValue(v[0]) >= radix
  {
    var d := DigitPrefix(v, radix);
    if |d| == 0 then None else Some(DigitsValue(d, radix))
  }

  /** A string made only of digits is its own longest digit prefix. */
  lemma DigitPrefixWhole(s: string, radix: nat)
    requires forall i :: 0 <= i < |s| ==> DigitValue(s[i]) < radix
    ensures DigitPrefix(s, radix) == s
  {
    var d := DigitPrefix(s, radix);
    if |d| < |s| {
      assert DigitValue(s[|d|]) < radix;
    }
  }

  /** A string that starts with a decimal digit goes straight to decimal
      digit reading: no white space, sign or hexadecimal prefix applies. */
  lemma DigitsSkipPrefixes(s: string)
    requires |s| > 0 && IsDecimalDigit(s[0])
    requires |s| >= 2 ==> IsDecimalDigit(s[1])
    ensures ParseInt(s) == ParseDigits(s, 10)
  {
    TrimStartOfDigit(s);
    SignlessOfDigit(s);
    DecimalOfDigits(s);
  }

  lemma TrimStartOfDigit(s: string)
    requires |s| > 0 && IsDecimalDigit(s[0])
    ensures TrimStart(s) == s
  {
  }

  lemma SignlessOfDigit(s: string)
    requires |s| > 0 && IsDecimalDigit(s[0])
    ensures ParseSigned(s) == ParseUnsigned(s)
  {
  }

  lemma DecimalOfDigits(s: string)
    requires |s| > 0 && IsDecimalDigit(s[0])
    requires |s| >= 2 ==> IsDecimalDigit(s[1])
    ensures ParseUnsigned(s) == ParseDigits(s, 10)
  {
  }

  /** A non-empty string of decimal digits (the route parameter pattern
      `^[0-9]+$`) parses to the non-negative number it writes. */
  lemma ParseIntOfDigits(s: string)
    requires |s| > 0 && forall i :: 0 <= i < |s| ==> IsDecimalDigit(s[i])
    ensures ParseInt(s) == Some(DigitsValue(s, 10))
  {
    DigitsSkipPrefixes(s);
    DigitPrefixWhole(s, 10);
    assert ParseDigits(s, 10) == Some(DigitsValue(s, 10));
  }

  /** A string whose first character is neither white space, a sign nor a
      decimal digit is `NaN` (for example "abc"). */
  lemma ParseIntNaN(s: string)
    requires |s| > 0 && !IsJsWhitespace(s[0]) && s[0] != '-' && s[0] != '+' && !IsDecimalDigit(s[0])
    ensures ParseInt(s) == None
  {
    assert TrimStart(s) == s;
  }

  function DigitChar(d: nat): (c: char)
    requires d < 10
    ensures IsDecimalDigit(c) && DigitValue(c) == d
  {
    ('0' as int + d) as char
  }

  /** `String(n)` for a non-negative integer: its decimal digits without
      leading zeros. */
  function DecimalString(n: nat): (r: string)
    ensures |r| > 0
    ensures forall i :: 0 <= i < |r| ==> IsDecimalDigit(r[i])
    ensures n > 0 ==> r[0] != '0'
  {
    if n < 10 then [DigitChar(n)] else DecimalString(n / 10) + [DigitChar(n % 10)]
  }

  /** Reading back the decimal digits of `n` gives `n`. */
  lemma {:induction false} DecimalStringValue(n: nat)
    ensures DigitsValue(DecimalString(n), 10) == n
  {
    var r := DecimalString(n);
    if n < 10 {
      assert r[..0] == "";
    } else {
      DecimalStringValue(n / 10);
      assert r[..|r| - 1] == DecimalString(n / 10);
    }
  }

  /** `parseInt(String(n)) === n` for every non-negative integer `n`. */
  lemma ParseIntDecimalRoundTrip(n: nat)
    ensures ParseInt(DecimalString(n)) == Some(n)
  {
    ParseIntOfDigits(DecimalString(n));
    DecimalStringValue(n);
  }
}
