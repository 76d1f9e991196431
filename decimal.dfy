/** The decimal rendering `String(n)` that the JavaScript resolvers in
    src/index.js use to turn a list length into a note id, restricted to the natural numbers it is applied to, and a
    parser that is its inverse. */
module Decimal {
  import opened Wrappers

  predicate IsDigit(c: char) {
    '0' <= c <= '9'
  }

  function DigitChar(d: nat): (c: char)
    requires d < 10
    ensures IsDigit(c)
  {
    (48 + d) as char
  }

  function DigitValue(c: char): (d: nat)
    requires IsDigit(c)
    ensures d < 10 && DigitChar(d) == c
  {
    c as int - 48
  }

  /** `String(n)` for a natural number: its shortest decimal spelling. */
  function NatToString(n: nat): (s: string)
    ensures |s| >= 1
    ensures forall i | 0 <= i < |s| :: IsDigit(s[i])
    ensures s[0] == '0' ==> n == 0
  {
    if n < 10 then [DigitChar(n)]
    else NatToString(n / 10) + [DigitChar(n % 10)]
  }

  /** Reads a non-empty string of decimal digits; absent on anything else. */
  function ParseDecimal(s: string): (r: Option<nat>)
    ensures r.Some? <==> |s| >= 1 && forall i | 0 <= i < |s| :: IsDigit(s[i])
  {
    if s == [] || !IsDigit(s[|s| - 1]) then None
    else if |s| == 1 then Some(DigitValue(s[0]))
    else match ParseDecimal(s[..|s| - 1])
      case None => None
      case Some(v) => Some(10 * v + DigitValue(s[|s| - 1]))
  }

  /** Parsing undoes rendering. */
  lemma {:induction false} ParseNatToString(n: nat)
    ensures ParseDecimal(NatToString(n)) == Some(n)
  {
    if n >= 10 {
      var s := NatToString(n);
      assert s[..|s| - 1] == NatToString(n / 10);
      ParseNatToString(n / 10);
    }
  }

  /** Two naturals have the same decimal string exactly when they are equal. */
  lemma NatToStringInjective(a: nat, b: nat)
    ensures NatToString(a) == NatToString(b) <==> a == b
  {
    ParseNatToString(a);
    ParseNatToString(b);
  }

  /** A digit string without a leading zero has a positive value. */
  lemma {:induction false} ParseLeadingNonZero(s: string)
    requires |s| >= 1 && s[0] != '0'
    requires forall i | 0 <= i < |s| :: IsDigit(s[i])
    ensures ParseDecimal(s).Some? && ParseDecimal(s).value >= 1
  {
    if |s| > 1 {
      ParseLeadingNonZero(s[..|s| - 1]);
    }
  }

  /** A digit string without a leading zero is the decimal string of the
      number it reads as: `String(n)` is the only such spelling of n. */
  lemma {:induction false} CanonicalSpelling(s: string, n: nat)
    requires |s| >= 1 && s[0] != '0'
    requires forall i | 0 <= i < |s| :: IsDigit(s[i])
    requires ParseDecimal(s) == Some(n)
    ensures s == NatToString(n)
  {
    if |s| > 1 {
      var prefix := s[..|s| - 1];
      ParseLeadingNonZero(prefix);
      var v := ParseDecimal(prefix).value;
      CanonicalSpelling(prefix, v);
      assert n == 10 * v + DigitValue(s[|s| - 1]);
      assert s == prefix + [s[|s| - 1]];
    }
  }
}
