/**
 * The few Python string built-ins the request handlers lean on: `str.strip()`,
 * the `a or b` idiom on optional form fields, ASCII `str.lower()` and `int()`
 * on a form value.
 */
module Text {
  import opened Wrappers

  // ---------------------------------------------------------------- whitespace

  /** The characters Python's `str.strip()` removes (`str.isspace()`). */
  predicate IsSpace(c: char) {
    var n := c as int;
    n == 32 || 9 <= n <= 13 || 28 <= n <= 31 || n == 133 || n == 160 || n == 5760
    || 8192 <= n <= 8202 || n == 8232 || n == 8233 || n == 8239 || n == 8287 || n == 12288
  }

  predicate Blank(s: string) {
    forall i :: 0 <= i < |s| ==> IsSpace(s[i])
  }

  function StripLeft(s: string): string {
    if s == [] || !IsSpace(s[0]) then s else StripLeft(s[1..])
  }

  function StripRight(s: string): string {
    if s == [] || !IsSpace(s[|s| - 1]) then s else StripRight(s[..|s| - 1])
  }

  /** `s.strip()`. */
  function Strip(s: string): string {
    StripRight(StripLeft(s))
  }

  /** Stripping on the left removes a blank prefix and stops at the first other character. */
  lemma {:induction false} StripLeftSpec(s: string)
    ensures var r := StripLeft(s);
            |r| <= |s| && r == s[|s| - |r|..] && (r == [] || !IsSpace(r[0])) && Blank(s[..|s| - |r|])
  {
    if s != [] && IsSpace(s[0]) {
      StripLeftSpec(s[1..]);
      var r := StripLeft(s[1..]);
      assert s[..|s| - |r|] == [s[0]] + s[1..][..|s| - 1 - |r|];
    } else {
      assert s[..0] == [];
    }
  }

  /** Stripping on the right removes a blank suffix and stops at the last other character. */
  lemma {:induction false} StripRightSpec(s: string)
    ensures var r := StripRight(s);
            |r| <= |s| && r == s[..|r|] && (r == [] || !IsSpace(r[|r| - 1])) && Blank(s[|r|..])
  {
    if s != [] && IsSpace(s[|s| - 1]) {
      StripRightSpec(s[..|s| - 1]);
      var r := StripRight(s[..|s| - 1]);
      assert s[|r|..] == s[..|s| - 1][|r|..] + [s[|s| - 1]];
    } else {
      assert s[|s|..] == [];
    }
  }

  /** The stripped text neither starts nor ends with whitespace. */
  lemma StripSpec(s: string)
    ensures Strip(s) == [] || (!IsSpace(Strip(s)[0]) && !IsSpace(Strip(s)[|Strip(s)| - 1]))
  {
    StripLeftSpec(s);
    StripRightSpec(StripLeft(s));
  }

  /** Stripping leaves nothing exactly when the text was all whitespace. */
  lemma StripEmptyIffBlank(s: string)
    ensures Strip(s) == [] <==> Blank(s)
  {
    StripLeftSpec(s);
    var l := StripLeft(s);
    StripRightSpec(l);
    if Strip(s) == [] {
      assert l[0..] == l;
      assert l == [];
      assert s[..|s|] == s;
    } else {
      assert l != [] && l[0] == s[|s| - |l|];
    }
  }

  /** Text that neither starts nor ends with whitespace is its own strip. */
  lemma StripTrimmed(s: string)
    requires s != [] && !IsSpace(s[0]) && !IsSpace(s[|s| - 1])
    ensures Strip(s) == s
  {
    assert StripLeft(s) == s;
  }

  /** Stripping twice is stripping once. */
  lemma StripIdempotent(s: string)
    ensures Strip(Strip(s)) == Strip(s)
  {
    StripSpec(s);
    if Strip(s) != [] {
      StripTrimmed(Strip(s));
    }
  }

  // ---------------------------------------------------------------- optional form fields

  /** Python's `field or fallback` on a form value that may be absent: an empty value is falsy. */
  function Or(field: Option<string>, fallback: string): (r: string)
    ensures field.Some? && field.value != "" ==> r == field.value
    ensures field.None? || field.value == "" ==> r == fallback
  {
    if field.Some? && field.value != "" then field.value else fallback
  }

  /** `field.strip() or None`. */
  function OptionalField(field: string): (r: Option<string>)
    ensures r.None? <==> Blank(field)
    ensures r.Some? ==> r.value == Strip(field)
  {
    StripEmptyIffBlank(field);
    if Strip(field) == "" then None else Some(Strip(field))
  }

  // ---------------------------------------------------------------- case

  function LowerChar(c: char): char {
    if 'A' <= c <= 'Z' then (c as int + 32) as char else c
  }

  /** `s.lower()` on ASCII letters; every other character is kept. */
  function Lower(s: string): (r: string)
    ensures |r| == |s|
    ensures forall i :: 0 <= i < |s| ==> r[i] == LowerChar(s[i])
  {
    seq(|s|, i requires 0 <= i < |s| => LowerChar(s[i]))
  }

  lemma LowerIdempotent(s: string)
    ensures Lower(Lower(s)) == Lower(s)
  {
  }

  // ---------------------------------------------------------------- integers

  predicate IsDigit(c: char) {
    '0' <= c <= '9'
  }

  function DigitChar(d: nat): char
    requires d < 10
  {
    ('0' as int + d) as char
  }

  function DigitValue(c: char): nat
    requires IsDigit(c)
  {
    c as int - '0' as int
  }

  /** The value of a string of decimal digits, most significant first. */
  function DigitsValue(s: string): nat
    requires forall i :: 0 <= i < |s| ==> IsDigit(s[i])
  {
    if s == [] then 0 else DigitsValue(s[..|s| - 1]) * 10 + DigitValue(s[|s| - 1])
  }

  predicate AllDigits(s: string) {
    forall i :: 0 <= i < |s| ==> IsDigit(s[i])
  }

  /** An optional sign, then at least one decimal digit. */
  function ParseSigned(t: string): Option<int> {
    var sign := if t != [] && (t[0] == '-' || t[0] == '+') then 1 else 0;
    var digits := t[sign..];
    if digits != [] && AllDigits(digits) then
      var v: int := DigitsValue(digits);
      Some(if sign == 1 && t[0] == '-' then -v else v)
    else None
  }

  /**
   * `int(s)` on a form value: surrounding whitespace is ignored, an optional sign
   * may precede at least one decimal digit, anything else is a ValueError (None).
   */
  function ParseInt(s: string): Option<int> {
    ParseSigned(Strip(s))
  }

  /** `str(n)` for a natural number. */
  function ShowNat(n: nat): (r: string)
    ensures r != [] && forall i :: 0 <= i < |r| ==> IsDigit(r[i])
  {
    if n < 10 then [DigitChar(n)] else ShowNat(n / 10) + [DigitChar(n % 10)]
  }

  /** `str(n)`. */
  function Show(n: int): string {
    if n < 0 then "-" + ShowNat(-n) else ShowNat(n)
  }

  lemma {:induction false} ShowNatValue(n: nat)
    ensures DigitsValue(ShowNat(n)) == n
  {
    if n >= 10 {
      var s := ShowNat(n);
      assert s[..|s| - 1] == ShowNat(n / 10);
      ShowNatValue(n / 10);
    }
  }

  /** A number rendered into a form and parsed back is the same number. */
  lemma ParseShow(n: int)
    ensures ParseInt(Show(n)) == Some(n)
  {
    var s := Show(n);
    var m := if n < 0 then -n else n;
    var digits := ShowNat(m);
    ShowNatValue(m);
    assert IsDigit(digits[|digits| - 1]) && s[|s| - 1] == digits[|digits| - 1];
    StripTrimmed(s);
    if n < 0 {
      assert s[1..] == digits;
    } else {
      assert s[0..] == digits;
    }
  }
}
