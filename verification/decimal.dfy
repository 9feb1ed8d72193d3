/**
 * Base-10 text for `u64`: the rendering `write!(f, "{}", n)` produces and the
 * parsing `u64::from_str` performs.
 *
 * Rendering gives the digits of the value, most significant first, with no
 * sign and no leading zero. Parsing accepts one optional leading `+` followed
 * by one or more ASCII digits (leading zeros allowed) whose value is at most
 * 2^64 - 1; it rejects the empty string, a lone sign, a `-` (the type is
 * unsigned), any other character, and larger values.
 */
module Decimal {
  import opened Machine

  datatype Option<T> = None | Some(value: T)

  predicate IsDigit(c: char)
  {
    '0' <= c <= '9'
  }

  function DigitValue(c: char): (d: nat)
    requires IsDigit(c)
    ensures d < 10
  {
    (c as int) - ('0' as int)
  }

  function DigitChar(d: nat): (c: char)
    requires d < 10
    ensures IsDigit(c) && DigitValue(c) == d
  {
    (('0' as int) + d) as char
  }

  predicate AllDigits(s: string)
  {
    forall i :: 0 <= i < |s| ==> IsDigit(s[i])
  }

  /** The number a string of digits denotes, most significant digit first. */
  function Value(s: string): nat
    requires AllDigits(s)
  {
    if s == [] then 0 else Value(s[..|s| - 1]) * 10 + DigitValue(s[|s| - 1])
  }

  /** The form rendering produces: digits only, and no leading zero unless the number is 0. */
  predicate Canonical(s: string)
  {
    |s| >= 1 && AllDigits(s) && (|s| > 1 ==> s[0] != '0')
  }

  /** The decimal digits of `n`. */
  function Render(n: nat): string
    decreases n
  {
    if n < 10 then [DigitChar(n)] else Render(n / 10) + [DigitChar(n % 10)]
  }

  /** Rendering gives digits only, with no leading zero unless the number is 0, denoting the number. */
  lemma {:induction false} RenderIsCanonical(n: nat)
    ensures Canonical(Render(n)) && Value(Render(n)) == n
    decreases n
  {
    if n >= 10 {
      var p := Render(n / 10);
      RenderIsCanonical(n / 10);
      var s := Render(n);
      assert s == p + [DigitChar(n % 10)];
      assert s[..|s| - 1] == p;
      assert s[0] == p[0];
    }
  }

  /** Rendering a number of two or more digits appends its last digit to the rendering of the rest. */
  lemma RenderStep(n: nat, p: string, s: string)
    requires n >= 10 && Render(n / 10) == p && s == p + [DigitChar(n % 10)]
    ensures Render(n) == s
  {
  }

  /**
   * `u64::from_str`: one optional leading `+`, then ASCII digits denoting a
   * value below 2^64. Every rejection is `None`.
   */
  function ParseU64(s: string): (r: Option<u64>)
    ensures s == [] ==> r == None
    ensures r.Some? ==> s[0] == '+' || IsDigit(s[0])
    ensures r.Some? ==> forall i :: 0 < i < |s| ==> IsDigit(s[i])
  {
    if |s| == 0 then
      None
    else if (s[0] == '+' || s[0] == '-') && |s| == 1 then
      None
    else
      var digits := if s[0] == '+' then s[1..] else s;
      if !AllDigits(digits) then
        None
      else if Value(digits) >= TWO_64 then
        None
      else
        Some(Value(digits))
  }

  /** Parsing what rendering produces gives the value back. */
  lemma ParseRender(n: u64)
    ensures ParseU64(Render(n)) == Some(n)
  {
    RenderIsCanonical(n);
  }

  /** A digit string that does not start with `0` denotes a positive number. */
  lemma {:induction false} ValuePositive(s: string)
    requires AllDigits(s) && s != [] && s[0] != '0'
    ensures Value(s) > 0
  {
    if |s| > 1 {
      var p := s[..|s| - 1];
      assert p[0] == s[0];
      ValuePositive(p);
    }
  }

  /** Rendering the value of a canonical string gives the string back. */
  lemma {:induction false} RenderValue(s: string)
    requires Canonical(s)
    ensures Render(Value(s)) == s
  {
    if |s| > 1 {
      var p, c := s[..|s| - 1], s[|s| - 1];
      assert p[0] == s[0];
      assert Canonical(p);
      ValuePositive(p);
      RenderValue(p);
      var n := Value(s);
      assert n == Value(p) * 10 + DigitValue(c);
      assert n / 10 == Value(p) && n % 10 == DigitValue(c);
      assert s == p + [DigitChar(n % 10)];
      RenderStep(n, p, s);
    }
  }

  /** A leading zero does not change the value. */
  lemma {:induction false} ValueLeadingZero(s: string)
    requires AllDigits(s)
    ensures AllDigits("0" + s) && Value("0" + s) == Value(s)
  {
    if s != [] {
      var p := s[..|s| - 1];
      ValueLeadingZero(p);
      assert ("0" + s)[..|s|] == "0" + p;
    }
  }

  /** `u64::from_str` accepts leading zeros: one more does not change the outcome. */
  lemma ParseLeadingZero(s: string)
    requires s != [] && AllDigits(s)
    ensures ParseU64("0" + s) == ParseU64(s)
  {
    ValueLeadingZero(s);
  }

  /** A leading `+` is ignored, unless what follows is empty or itself starts with `+`. */
  lemma ParsePlus(s: string)
    requires s != [] ==> s[0] != '+'
    ensures ParseU64("+" + s) == ParseU64(s)
  {
    if s != [] {
      assert ("+" + s)[1..] == s;
    }
  }

  /** Digit text denoting a value below 2^64 is accepted, as that value. */
  lemma ParseDigits(s: string)
    requires s != [] && AllDigits(s) && Value(s) < TWO_64
    ensures ParseU64(s) == Some(Value(s))
  {
  }

  /** Text with a character that is neither a digit nor a leading `+` is rejected. */
  lemma ParseRejectsNonDigit(s: string, i: nat)
    requires i < |s| && !IsDigit(s[i]) && !(i == 0 && s[i] == '+')
    ensures ParseU64(s) == None
  {
  }

  /** Digit strings denoting 2^64 or more are rejected. */
  lemma ParseRejectsOverflow(s: string)
    requires AllDigits(s) && Value(s) >= TWO_64
    ensures ParseU64(s) == None
  {
  }
}
