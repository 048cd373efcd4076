/** The JavaScript built-ins that the engine applies to text and numbers:
    `String.prototype.trim`, `String(n)` for integers, `padStart`, and the
    decimal forms accepted by `parseInt` and `parseFloat`. A failed parse,
    which yields NaN in JavaScript, is `None` here. */
module JsText {
  import opened Types

  /** The characters `trim` removes: the ECMAScript WhiteSpace and
      LineTerminator code points. */
  predicate IsWhitespace(c: char) {
    || c == ' ' || c == '\t' || c == '\n' || c == '\r'
    || c == '\U{000B}' || c == '\U{000C}' || c == '\U{00A0}' || c == '\U{FEFF}'
    || c == '\U{1680}' || ('\U{2000}' <= c <= '\U{200A}')
    || c == '\U{2028}' || c == '\U{2029}' || c == '\U{202F}' || c == '\U{205F}'
    || c == '\U{3000}'
  }

  predicate AllWhitespace(s: string) {
    forall i :: 0 <= i < |s| ==> IsWhitespace(s[i])
  }

  /** `s.trimStart()` */
  function TrimStart(s: string): string {
    if s != [] && IsWhitespace(s[0]) then TrimStart(s[1..]) else s
  }

  /** `s.trimEnd()` */
  function TrimEnd(s: string): string {
    if s != [] && IsWhitespace(s[|s| - 1]) then TrimEnd(s[..|s| - 1]) else s
  }

  /** TrimStart removes exactly the leading whitespace: what it drops is all
      whitespace and what it keeps is a suffix that does not start with any. */
  lemma {:induction false} TrimStartShape(s: string)
    ensures var r := TrimStart(s);
      && |r| <= |s| && r == s[|s| - |r|..]
      && AllWhitespace(s[..|s| - |r|])
      && (r == [] || !IsWhitespace(r[0]))
  {
    if s != [] && IsWhitespace(s[0]) {
      TrimStartShape(s[1..]);
      var r := TrimStart(s);
      assert s[..|s| - |r|] == [s[0]] + s[1..][..|s| - 1 - |r|];
    }
  }

  /** TrimEnd removes exactly the trailing whitespace. */
  lemma {:induction false} TrimEndShape(s: string)
    ensures var r := TrimEnd(s);
      && |r| <= |s| && r == s[..|r|]
      && AllWhitespace(s[|r|..])
      && (r == [] || !IsWhitespace(r[|r| - 1]))
  {
    if s != [] && IsWhitespace(s[|s| - 1]) {
      var p := s[..|s| - 1];
      TrimEndShape(p);
      var r := TrimEnd(s);
      assert s[|r|..] == p[|r|..] + [s[|s| - 1]];
    }
  }

  /** `s.trim()` */
  function Trim(s: string): string {
    TrimEnd(TrimStart(s))
  }

  /** A string trims to nothing exactly when every character is whitespace;
      otherwise what remains starts and ends with a non-whitespace character. */
  lemma TrimEmptyIff(s: string)
    ensures Trim(s) == [] <==> AllWhitespace(s)
    ensures Trim(s) != [] ==> !IsWhitespace(Trim(s)[0]) && !IsWhitespace(Trim(s)[|Trim(s)| - 1])
  {
    var t := TrimStart(s);
    var k := |s| - |t|;
    TrimStartShape(s);
    TrimEndShape(t);
    if t == [] {
      assert s == s[..k];
    } else {
      assert !IsWhitespace(s[k]) by { assert s[k] == t[0]; }
    }
  }

  predicate IsDigit(c: char) {
    '0' <= c <= '9'
  }

  predicate AllDigits(s: string) {
    forall i :: 0 <= i < |s| ==> IsDigit(s[i])
  }

  function DigitChar(d: nat): (c: char)
    requires d < 10
    ensures IsDigit(c) && c as int - '0' as int == d
  {
    ('0' as int + d) as char
  }

  /** The number a string of decimal digits denotes. */
  function DecimalValue(s: string): nat
    requires AllDigits(s)
    decreases |s|
  {
    if s == [] then 0
    else DecimalValue(s[..|s| - 1]) * 10 + (s[|s| - 1] as int - '0' as int)
  }

  function Pow10(k: nat): (r: nat)
    ensures r >= 1
  {
    if k == 0 then 1 else 10 * Pow10(k - 1)
  }

  /** `String(n)` for a non-negative integer: its decimal digits. */
  function NatToString(n: nat): string
    decreases n
  {
    if n < 10 then [DigitChar(n)] else NatToString(n / 10) + [DigitChar(n % 10)]
  }

  /** `String(n)` for an integer. */
  function IntToString(n: int): string {
    if n < 0 then "-" + NatToString(-n) else NatToString(n)
  }

  /** `s.padStart(len, fill)` for a one-character fill. */
  function PadStart(s: string, len: nat, fill: char): string
    decreases len
  {
    if |s| >= len then s else [fill] + PadStart(s, len - 1, fill)
  }

  /** The longest prefix of `s` made of decimal digits. */
  function DigitPrefix(s: string): (r: string)
    ensures AllDigits(r) && |r| <= |s|
  {
    if s != [] && IsDigit(s[0]) then [s[0]] + DigitPrefix(s[1..]) else []
  }

  /** DigitPrefix is the longest run of digits that `s` starts with. */
  lemma {:induction false} DigitPrefixShape(s: string)
    ensures var r := DigitPrefix(s);
      r == s[..|r|] && (|r| < |s| ==> !IsDigit(s[|r|]))
  {
    if s != [] && IsDigit(s[0]) {
      DigitPrefixShape(s[1..]);
    }
  }

  /** The text after an optional leading sign, and whether the sign was '-'. */
  function SplitSign(t: string): (bool, string) {
    if t != [] && (t[0] == '-' || t[0] == '+') then (t[0] == '-', t[1..]) else (false, t)
  }

  /** `parseInt(s, 10)`: leading whitespace, an optional
      sign, then the longest run of decimal digits; NaN (here `None`) when
      there is no digit. */
  function ParseInt(s: string): Option<int> {
    var (negative, rest) := SplitSign(TrimStart(s));
    var digits := DigitPrefix(rest);
    if digits == [] then None
    else
      var magnitude: int := DecimalValue(digits);
      Some(if negative then -magnitude else magnitude)
  }

  /** The unsigned part of a decimal: digits, and an optional '.' followed
      by digits, with at least one digit in all. */
  function UnsignedDecimal(rest: string): Option<real> {
    var whole := DigitPrefix(rest);
    var after := rest[|whole|..];
    var frac := if after != [] && after[0] == '.' then DigitPrefix(after[1..]) else [];
    if whole == [] && frac == [] then None
    else Some(DecimalValue(whole) as real + FractionValue(frac))
  }

  /** The value of the digits after a decimal point. */
  function FractionValue(frac: string): real
    requires AllDigits(frac)
  {
    DecimalValue(frac) as real / Pow10(|frac|) as real
  }

  /** `parseFloat(s)` for decimal text: leading whitespace, an optional sign,
      then an unsigned decimal; the rest of the text is ignored. NaN (here
      `None`) when no digit is found. */
  function ParseFloat(s: string): Option<real> {
    var (negative, rest) := SplitSign(TrimStart(s));
    match UnsignedDecimal(rest)
    case None => None
    case Some(magnitude) => Some(if negative then -magnitude else magnitude)
  }

  /** `String(n)` prints only digits, at least one, with no leading zero
      unless `n` is 0, and reads back as `n`. */
  lemma {:induction false} NatToStringReadsBack(n: nat)
    ensures AllDigits(NatToString(n)) && |NatToString(n)| >= 1
    ensures NatToString(n)[0] != '0' || n == 0
    ensures DecimalValue(NatToString(n)) == n
    decreases n
  {
    if n >= 10 {
      NatToStringReadsBack(n / 10);
      assert NatToString(n)[0] == NatToString(n / 10)[0];
      var s := NatToString(n);
      assert s[..|s| - 1] == NatToString(n / 10);
    }
  }

  /** A number below 1000 prints with at most three digits. */
  lemma NatToStringBelow1000(n: nat)
    requires n < 1000
    ensures |NatToString(n)| <= 3
  {
    if n >= 100 {
      assert |NatToString(n / 10 / 10)| == 1;
      assert |NatToString(n / 10)| == 2;
    } else if n >= 10 {
      assert |NatToString(n / 10)| == 1;
    }
  }

  lemma {:induction false} LeadingZero(s: string)
    requires AllDigits(s)
    ensures AllDigits(['0'] + s) && DecimalValue(['0'] + s) == DecimalValue(s)
    decreases |s|
  {
    if s != [] {
      var z := ['0'] + s;
      LeadingZero(s[..|s| - 1]);
      assert z[..|z| - 1] == ['0'] + s[..|s| - 1];
    }
  }

  /** Padding digits with '0' keeps the value and reaches the target width. */
  lemma {:induction false} PadStartZeros(s: string, len: nat)
    requires AllDigits(s)
    ensures AllDigits(PadStart(s, len, '0'))
    ensures |PadStart(s, len, '0')| == if |s| >= len then |s| else len
    ensures DecimalValue(PadStart(s, len, '0')) == DecimalValue(s)
    decreases len
  {
    if |s| < len {
      PadStartZeros(s, len - 1);
      LeadingZero(PadStart(s, len - 1, '0'));
    }
  }

  /** The digit run of digits followed by a non-digit is those digits. */
  lemma {:induction false} DigitPrefixStopsAt(d: string, rest: string)
    requires AllDigits(d)
    requires rest == [] || !IsDigit(rest[0])
    ensures DigitPrefix(d + rest) == d
    decreases |d|
  {
    if d != [] {
      DigitPrefixStopsAt(d[1..], rest);
      assert (d + rest)[1..] == d[1..] + rest;
    } else {
      assert d + rest == rest;
    }
  }

  /** Reading back `String(n)` after the optional sign. */
  lemma IntToStringSplits(n: int)
    ensures var m: nat := if n < 0 then -n else n;
      SplitSign(TrimStart(IntToString(n))) == (n < 0, NatToString(m))
  {
    var m: nat := if n < 0 then -n else n;
    NatToStringReadsBack(m);
    var t := IntToString(n);
    assert t[0] == '-' || IsDigit(t[0]);
    assert TrimStart(t) == t;
  }

  /** `parseInt(String(n)) == n` for every integer. */
  lemma ParseIntReadsIntToString(n: int)
    ensures ParseInt(IntToString(n)) == Some(n)
  {
    var m: nat := if n < 0 then -n else n;
    IntToStringSplits(n);
    NatToStringReadsBack(m);
    DigitPrefixStopsAt(NatToString(m), []);
    assert NatToString(m) + [] == NatToString(m);
  }

  /** `parseFloat(String(n)) == n` for every integer. */
  lemma ParseFloatReadsIntToString(n: int)
    ensures ParseFloat(IntToString(n)) == Some(n as real)
  {
    var m: nat := if n < 0 then -n else n;
    var d := NatToString(m);
    IntToStringSplits(n);
    NatToStringReadsBack(m);
    DigitPrefixStopsAt(d, []);
    assert d + [] == d;
    assert d[|d|..] == [];
  }

  lemma UnsignedDecimalOfPoint(w: string, frac: string)
    requires AllDigits(w) && AllDigits(frac) && w != []
    ensures UnsignedDecimal(w + ("." + frac)) == Some(DecimalValue(w) as real + FractionValue(frac))
  {
    var t := w + ("." + frac);
    DigitPrefixStopsAt(w, "." + frac);
    assert t[|w|..] == "." + frac;
    DigitPrefixStopsAt(frac, []);
    assert frac + [] == frac;
    assert ("." + frac)[1..] == frac;
  }

  /** `parseFloat` reads a decimal written as whole digits, a point and
      fraction digits as whole + fraction / 10^(number of fraction digits). */
  lemma ParseFloatReadsDecimal(whole: nat, frac: string)
    requires AllDigits(frac)
    ensures ParseFloat(NatToString(whole) + "." + frac) == Some(whole as real + FractionValue(frac))
  {
    var w := NatToString(whole);
    NatToStringReadsBack(whole);
    var t := w + ("." + frac);
    assert t == w + "." + frac;
    assert IsDigit(t[0]) by { assert t[0] == w[0]; }
    assert TrimStart(t) == t;
    assert SplitSign(t) == (false, t);
    UnsignedDecimalOfPoint(w, frac);
  }
}
