/** Column values, ids and the parts of PHP's loose comparison the row mapper relies on. */
module Values {

  datatype Option<T> = None | Some(value: T)

  /** What a column holds in a PHP row array: SQL NULL or a string. */
  datatype Value = Null | Str(s: string)

  /** `$value != ""` is false exactly for null and the empty string. */
  predicate IsEmpty(v: Value) {
    v == Null || v == Str("")
  }

  predicate IsDigit(c: char) {
    '0' <= c <= '9'
  }

  predicate AllDigits(s: string) {
    forall i | 0 <= i < |s| :: IsDigit(s[i])
  }

  /** A non-empty run of decimal digits. */
  predicate IsDecimal(s: string) {
    |s| > 0 && AllDigits(s)
  }

  /** A decimal numeral as PHP prints an integer: no leading zero unless it is "0". */
  predicate IsCanonical(s: string) {
    IsDecimal(s) && (|s| > 1 ==> s[0] != '0')
  }

  /** The whitespace a numeric string may start with: space, tab, newline, vertical tab, form feed, return. */
  predicate IsSpace(c: char) {
    c == ' ' || '\t' <= c <= '\r'
  }

  predicate IsHexDigit(c: char) {
    IsDigit(c) || 'a' <= c <= 'f' || 'A' <= c <= 'F'
  }

  /** The text after its leading whitespace. */
  function SkipSpaces(s: string): (r: string)
    ensures |r| <= |s| && r == s[|s| - |r|..]
    ensures r != [] ==> !IsSpace(r[0])
  {
    if s != [] && IsSpace(s[0]) then SkipSpaces(s[1..]) else s
  }

  /** Digits, one decimal point, then digits. */
  predicate DigitsPoint(s: string)
    decreases |s|
  {
    s != [] && if IsDigit(s[0]) then DigitsPoint(s[1..]) else s[0] == '.' && AllDigits(s[1..])
  }

  /** Digits with one decimal point and a digit on at least one side of it. */
  predicate IsPointed(s: string) {
    |s| > 1 && DigitsPoint(s)
  }

  /** A decimal integer or a decimal with a point. */
  predicate IsMantissa(s: string) {
    IsDecimal(s) || IsPointed(s)
  }

  /** Digits, optionally signed. */
  predicate IsExponent(s: string) {
    IsDecimal(s) || (|s| > 1 && (s[0] == '+' || s[0] == '-') && IsDecimal(s[1..]))
  }

  /** Where the first `e` or `E` is, or the length when there is none. */
  function ExpIndex(s: string): (p: nat)
    ensures p <= |s| && (p < |s| ==> s[p] == 'e' || s[p] == 'E')
    decreases |s|
  {
    if s == [] then 0 else if s[0] == 'e' || s[0] == 'E' then 0 else ExpIndex(s[1..]) + 1
  }

  /** A mantissa, optionally followed by `e` or `E` and an exponent. */
  predicate IsUnsignedNumber(s: string) {
    var p := ExpIndex(s);
    if p == |s| then IsMantissa(s) else IsMantissa(s[..p]) && IsExponent(s[p + 1..])
  }

  /** An unsigned number, optionally after one `+` or `-`. */
  predicate IsSignedNumber(s: string) {
    IsUnsignedNumber(s) || (|s| > 0 && (s[0] == '+' || s[0] == '-') && IsUnsignedNumber(s[1..]))
  }

  /** `0x` or `0X` followed by hexadecimal digits, with no sign in front. */
  predicate IsHexNumber(s: string) {
    |s| > 2 && s[0] == '0' && (s[1] == 'x' || s[1] == 'X') && forall i | 2 <= i < |s| :: IsHexDigit(s[i])
  }

  /**
   * `is_numeric($key)` for a string key, as in PHP 5: after optional leading whitespace, a
   * signed decimal, point or exponent number, or an unsigned hexadecimal one, and nothing after it.
   */
  predicate IsNumericKey(k: string) {
    IsSignedNumber(SkipSpaces(k)) || IsHexNumber(SkipSpaces(k))
  }

  /** A numeric string without its leading whitespace starts with a digit, a sign or a point. */
  lemma NumericStart(k: string)
    requires IsNumericKey(k)
    ensures var t := SkipSpaces(k); t != [] && (IsDigit(t[0]) || t[0] == '+' || t[0] == '-' || t[0] == '.')
  {
    forall s | IsUnsignedNumber(s) ensures s != [] && (IsDigit(s[0]) || s[0] == '.') {
      var p := ExpIndex(s);
      if p < |s| {
        assert IsMantissa(s[..p]) && s[..p][0] == s[0];
      }
    }
  }

  /** Leading whitespace is skipped up to the first other character. */
  lemma {:induction false} SkipBlanks(blanks: string, s: string)
    requires (forall i | 0 <= i < |blanks| :: IsSpace(blanks[i])) && (s == [] || !IsSpace(s[0]))
    ensures SkipSpaces(blanks + s) == s
  {
    if blanks != [] {
      assert (blanks + s)[1..] == blanks[1..] + s;
      SkipBlanks(blanks[1..], s);
    }
  }

  /** Every decimal numeral, with or without a sign and leading whitespace, is numeric. */
  lemma DecimalIsNumeric(blanks: string, sign: string, digits: string)
    requires (forall i | 0 <= i < |blanks| :: IsSpace(blanks[i])) && sign in ["", "-", "+"] && IsDecimal(digits)
    ensures IsNumericKey(blanks + sign + digits)
  {
    var s := sign + digits;
    assert blanks + sign + digits == blanks + s;
    ExpIndexAfter(digits, []);
    assert digits + [] == digits;
    assert IsUnsignedNumber(digits);
    if sign == "" {
      assert s == digits;
    } else {
      assert s[0] == sign[0] && s[1..] == digits;
    }
    SkipBlanks(blanks, s);
  }

  /** Digits before the point, one point, digits after it. */
  lemma {:induction false} DigitsPointOf(whole: string, frac: string)
    requires AllDigits(whole) && AllDigits(frac)
    ensures DigitsPoint(whole + "." + frac)
  {
    if whole != [] {
      assert (whole + "." + frac)[1..] == whole[1..] + "." + frac;
      DigitsPointOf(whole[1..], frac);
    } else {
      assert whole + "." + frac == ['.'] + frac;
    }
  }

  /** Text with no `e` or `E` before `r` puts the first one `|m|` further on. */
  lemma {:induction false} ExpIndexAfter(m: string, r: string)
    requires forall i | 0 <= i < |m| :: m[i] != 'e' && m[i] != 'E'
    ensures ExpIndex(m + r) == |m| + ExpIndex(r)
  {
    if m != [] {
      assert (m + r)[0] == m[0] && (m + r)[1..] == m[1..] + r;
      ExpIndexAfter(m[1..], r);
      assert ExpIndex(m + r) == ExpIndex(m[1..] + r) + 1;
    } else {
      assert m + r == r;
    }
  }

  /** A decimal with a point and a digit on at least one side of it is numeric. */
  lemma PointedIsNumeric(whole: string, frac: string)
    requires AllDigits(whole) && AllDigits(frac) && |whole| + |frac| > 0
    ensures IsNumericKey(whole + "." + frac)
  {
    var s := whole + "." + frac;
    DigitsPointOf(whole, frac);
    forall i | 0 <= i < |s| ensures s[i] != 'e' && s[i] != 'E' {
      if i < |whole| {
        assert s[i] == whole[i];
      } else if i > |whole| {
        assert s[i] == frac[i - |whole| - 1];
      }
    }
    ExpIndexAfter(s, []);
    assert s + [] == s;
    SkipBlanks([], s);
    assert [] + s == s;
  }

  /** A decimal integer with a decimal exponent is numeric. */
  lemma ExponentIsNumeric(m: string, x: string)
    requires IsDecimal(m) && IsDecimal(x)
    ensures IsNumericKey(m + "e" + x)
  {
    var s := m + "e" + x;
    assert s == m + ("e" + x);
    assert ExpIndex("e" + x) == 0;
    ExpIndexAfter(m, "e" + x);
    assert s[..|m|] == m && s[|m| + 1..] == x;
    assert IsUnsignedNumber(s);
    SkipBlanks([], s);
    assert [] + s == s;
  }

  /** `0x` followed by hexadecimal digits is numeric. */
  lemma HexIsNumeric(h: string)
    requires h != [] && forall i | 0 <= i < |h| :: IsHexDigit(h[i])
    ensures IsNumericKey("0x" + h)
  {
    var s := "0x" + h;
    forall i | 2 <= i < |s| ensures IsHexDigit(s[i]) {
      assert s[i] == h[i - 2];
    }
    SkipBlanks([], s);
    assert [] + s == s;
  }

  /** A column name starting with a letter is not numeric. */
  lemma LetterKeyNotNumeric(k: string)
    requires k != [] && ('a' <= k[0] <= 'z' || 'A' <= k[0] <= 'Z')
    ensures !IsNumericKey(k)
  {
    SkipBlanks("", k);
    if IsNumericKey(k) {
      NumericStart(k);
    }
  }

  function DigitValue(c: char): (d: nat)
    requires IsDigit(c)
    ensures d < 10
  {
    c as int - '0' as int
  }

  function DigitChar(d: nat): (c: char)
    requires d < 10
    ensures IsDigit(c) && DigitValue(c) == d
  {
    ('0' as int + d) as char
  }

  /** The number a string of digits denotes. */
  function ParseNat(s: string): nat
    requires AllDigits(s)
  {
    if s == [] then 0 else ParseNat(s[..|s| - 1]) * 10 + DigitValue(s[|s| - 1])
  }

  /** The decimal text of a natural number, as PHP interpolates an integer into a string. */
  function NatText(n: nat): (r: string)
    ensures IsCanonical(r)
  {
    if n < 10 then [DigitChar(n)] else NatText(n / 10) + [DigitChar(n % 10)]
  }

  /** Printing then reading an id gives the id back. */
  lemma {:induction false} ParseNatText(n: nat)
    ensures ParseNat(NatText(n)) == n
  {
    if n >= 10 {
      var t := NatText(n / 10);
      assert NatText(n) == t + [DigitChar(n % 10)];
      assert (t + [DigitChar(n % 10)])[..|t|] == t;
      ParseNatText(n / 10);
    }
  }

  lemma {:induction false} ParseNatPositive(s: string)
    requires IsDecimal(s) && s[0] != '0'
    ensures ParseNat(s) > 0
  {
    if |s| > 1 {
      ParseNatPositive(s[..|s| - 1]);
    }
  }

  /** Reading then printing a canonical numeral gives the numeral back. */
  lemma {:induction false} NatTextParse(s: string)
    requires IsCanonical(s)
    ensures NatText(ParseNat(s)) == s
  {
    if |s| > 1 {
      var p := s[..|s| - 1];
      ParseNatPositive(p);
      assert ParseNat(s) >= 10;
      if |p| > 1 {
        NatTextParse(p);
      } else {
        assert NatText(ParseNat(p)) == p;
      }
      assert s == p + [s[|s| - 1]];
    }
  }

  /** The id a primary-key value stands for: a decimal numeral, and 0 for anything else. */
  function IdOf(v: Value): (id: nat)
    ensures v.Str? && IsCanonical(v.s) ==> NatText(id) == v.s
    ensures !(v.Str? && IsDecimal(v.s)) ==> id == 0
  {
    if v.Str? && IsDecimal(v.s) then
      if IsCanonical(v.s) then NatTextParse(v.s); ParseNat(v.s) else ParseNat(v.s)
    else 0
  }

  /**
   * PHP's `==` between two column values: null equals only null and "", two decimal
   * numerals compare as numbers, any other pair of strings compares as text.
   */
  predicate LooseEquals(a: Value, b: Value) {
    match (a, b)
    case (Null, Null) => true
    case (Null, Str(y)) => y == ""
    case (Str(x), Null) => x == ""
    case (Str(x), Str(y)) =>
      if IsDecimal(x) && IsDecimal(y) then ParseNat(x) == ParseNat(y) else x == y
  }

  lemma LooseEqualsReflexive(a: Value)
    ensures LooseEquals(a, a)
  {
  }

  /** Two canonical numerals are loosely equal exactly when they are the same text. */
  lemma CanonicalLooseEquals(x: string, y: string)
    requires IsCanonical(x) && IsCanonical(y)
    ensures LooseEquals(Str(x), Str(y)) <==> x == y
  {
    if ParseNat(x) == ParseNat(y) {
      NatTextParse(x);
      NatTextParse(y);
    }
  }
}
