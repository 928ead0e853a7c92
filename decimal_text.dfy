/**
 * The text forms the markup backend writes and reads back: Int16/Int32/Int64/UInt64 `ToString()`
 * and `Convert.ToX(string)` (NumberStyles.Integer, invariant culture), bool `ToString()` and
 * `Boolean.Parse`.
 */
module DecimalText {
  import opened Wrappers

  predicate IsDigit(c: char)
  {
    '0' <= c <= '9'
  }

  function DigitValue(c: char): (d: nat)
    requires IsDigit(c)
    ensures d < 10
  {
    c as int - '0' as int
  }

  function DigitChar(d: nat): (c: char)
    requires d < 10
    ensures IsDigit(c) && DigitValue(c) == d
  {
    ('0' as int + d) as char
  }

  /** The decimal digits of n, without leading zeros. */
  function ShowNat(n: nat): (s: string)
    ensures |s| >= 1 && forall k :: 0 <= k < |s| ==> IsDigit(s[k])
  {
    if n < 10 then [DigitChar(n)] else ShowNat(n / 10) + [DigitChar(n % 10)]
  }

  /** Int16/Int32/Int64 `ToString()`: a minus sign for negative values, then the digits. */
  function ShowInt(i: int): (s: string)
    ensures |s| >= 1
    ensures (s[0] == '-') <==> i < 0
  {
    if i < 0 then "-" + ShowNat(-i) else ShowNat(i)
  }

  /** The number a non-empty run of digits denotes, most significant first. */
  function DigitsValue(s: string): nat
    requires forall k :: 0 <= k < |s| ==> IsDigit(s[k])
  {
    if s == [] then 0 else 10 * DigitsValue(s[..|s| - 1]) + DigitValue(s[|s| - 1])
  }

  /** The white space NumberStyles.AllowLeadingWhite / AllowTrailingWhite skip: U+0009..U+000D and U+0020. */
  predicate IsSpace(c: char)
  {
    c == ' ' || '\t' <= c <= '\r'
  }

  /** s without its leading white space. */
  function TrimStart(s: string): (r: string)
    ensures |r| <= |s| && r == s[|s| - |r|..]
    ensures r == [] || !IsSpace(r[0])
  {
    if s != [] && IsSpace(s[0]) then TrimStart(s[1..]) else s
  }

  /** s without its trailing white space. */
  function TrimEnd(s: string): (r: string)
    ensures |r| <= |s| && r == s[..|r|]
    ensures r == [] || !IsSpace(r[|r| - 1])
  {
    if s != [] && IsSpace(s[|s| - 1]) then TrimEnd(s[..|s| - 1]) else s
  }

  function Trim(s: string): string
  {
    TrimEnd(TrimStart(s))
  }

  /**
   * Convert.ToInt16/ToInt32/ToInt64/ToUInt64(string) for a type whose range is lo..hi:
   * optional white space, an optional sign, one or more digits, optional white space.
   * FormatException when the text has another shape, OverflowException when the value is
   * outside the range.
   */
  function ParseInt(s: string, lo: int, hi: int): (r: Outcome<int>)
    ensures r.Ok? ==> lo <= r.value <= hi
    ensures r == Threw(FormatError) || r == Threw(OverflowError) || r.Ok?
  {
    var t := Trim(s);
    var neg := |t| > 0 && t[0] == '-';
    var body := if |t| > 0 && (t[0] == '-' || t[0] == '+') then t[1..] else t;
    if body == [] || exists k :: 0 <= k < |body| && !IsDigit(body[k]) then Threw(FormatError)
    else
      var v: int := if neg then -(DigitsValue(body) as int) else DigitsValue(body);
      if lo <= v <= hi then Ok(v) else Threw(OverflowError)
  }

  /** bool `ToString()`. */
  function ShowBool(b: bool): string
  {
    if b then "True" else "False"
  }

  /** ASCII upper-casing, the part of OrdinalIgnoreCase comparison the model keeps. */
  function UpperAscii(s: string): (r: string)
    ensures |r| == |s|
  {
    if s == [] then []
    else [if 'a' <= s[0] <= 'z' then (s[0] as int - 32) as char else s[0]] + UpperAscii(s[1..])
  }

  /**
   * Char.IsWhiteSpace: the characters of the Unicode categories Zs, Zl and Zp, and the
   * controls U+0009..U+000D, U+0085.
   */
  predicate IsUnicodeSpace(c: char)
  {
    IsSpace(c) || c == '\U{0085}' || c == '\U{00A0}' || c == '\U{1680}' || '\U{2000}' <= c <= '\U{200A}'
    || c == '\U{2028}' || c == '\U{2029}' || c == '\U{202F}' || c == '\U{205F}' || c == '\U{3000}'
  }

  /** The characters Boolean.Parse strips from both ends: white space and NUL. */
  predicate IsBoolPadding(c: char)
  {
    IsUnicodeSpace(c) || c == '\0'
  }

  function TrimBool(s: string): (r: string)
    decreases |s|
  {
    if s != [] && IsBoolPadding(s[0]) then TrimBool(s[1..])
    else if s != [] && IsBoolPadding(s[|s| - 1]) then TrimBool(s[..|s| - 1])
    else s
  }

  /** Boolean.Parse: "true" or "false" in any letter case; FormatException otherwise. */
  function ParseBool(s: string): (r: Outcome<bool>)
    ensures r.Ok? || r == Threw(FormatError)
  {
    var t := UpperAscii(TrimBool(s));
    if t == "TRUE" then Ok(true) else if t == "FALSE" then Ok(false) else Threw(FormatError)
  }

  lemma {:induction false} DigitsValueOfShowNat(n: nat)
    ensures DigitsValue(ShowNat(n)) == n
  {
    if n >= 10 {
      var s := ShowNat(n);
      assert s[..|s| - 1] == ShowNat(n / 10);
      DigitsValueOfShowNat(n / 10);
    }
  }

  /** What ShowInt writes, ParseInt reads back, whenever the value is in range. */
  lemma ParseShowInt(i: int, lo: int, hi: int)
    requires lo <= i <= hi
    ensures ParseInt(ShowInt(i), lo, hi) == Ok(i)
  {
    var s := ShowInt(i);
    assert TrimStart(s) == s;
    assert TrimEnd(s) == s;
    DigitsValueOfShowNat(if i < 0 then -i else i);
    if i < 0 {
      assert s[1..] == ShowNat(-i);
    }
  }

  /** What ShowBool writes, ParseBool reads back. */
  lemma ParseShowBool(b: bool)
    ensures ParseBool(ShowBool(b)) == Ok(b)
  {
    assert TrimBool("True") == "True";
    assert TrimBool("False") == "False";
    assert UpperAscii("True") == "TRUE";
    assert UpperAscii("False") == "FALSE";
  }
}
