/** Decimal rendering of integers, as Python's `'{0:d}'.format(n)` produces
    it (an optional '-' and the digits, no leading zeros), and the parser
    that reads such a rendering back. */
module Decimal {
  import opened Wrappers

  predicate IsDigit(c: char) { '0' <= c <= '9' }

  predicate AllDigits(s: string) { forall i :: 0 <= i < |s| ==> IsDigit(s[i]) }

  /** The value of a digit character. */
  function DigitValue(c: char): (d: nat)
    requires IsDigit(c)
    ensures d < 10
  {
    c as int - '0' as int
  }

  /** The character of a digit value; the inverse of DigitValue. */
  function DigitChar(d: nat): (c: char)
    requires d < 10
    ensures IsDigit(c) && DigitValue(c) == d
  {
    ('0' as int + d) as char
  }

  /** The digits of `n`: never empty, all digits, and a leading '0' only for
      zero itself. */
  function NatDigits(n: nat): (s: string)
    ensures |s| >= 1 && AllDigits(s)
    ensures s[0] == '0' <==> n == 0
    decreases n
  {
    if n < 10 then [DigitChar(n)] else NatDigits(n / 10) + [DigitChar(n % 10)]
  }

  /** The number a string of digits denotes, most significant digit first. */
  function ParseNat(s: string): nat
    requires AllDigits(s)
  {
    if s == [] then 0 else 10 * ParseNat(s[..|s| - 1]) + DigitValue(s[|s| - 1])
  }

  /** The canonical decimal form: digits without a leading zero (or "0"
      itself), or '-' followed by digits without a leading zero. */
  predicate Canonical(s: string)
  {
    (|s| >= 1 && AllDigits(s) && (|s| > 1 ==> s[0] != '0')) ||
    (|s| >= 2 && s[0] == '-' && AllDigits(s[1..]) && s[1] != '0')
  }

  /** Python's '{0:d}' rendering of an integer: canonical, with a '-'
      exactly for negative numbers. */
  function Render(n: int): (r: string)
    ensures Canonical(r)
    ensures r[0] == '-' <==> n < 0
    ensures r == "0" <==> n == 0
  {
    if n < 0 then "-" + NatDigits(-n) else NatDigits(n)
  }

  /** Reads back an optional '-' followed by at least one digit; anything
      else is not a decimal number. */
  function Parse(s: string): Option<int>
  {
    if |s| >= 2 && s[0] == '-' && AllDigits(s[1..]) then
      var magnitude: int := ParseNat(s[1..]);
      Some(-magnitude)
    else if |s| >= 1 && AllDigits(s) then Some(ParseNat(s))
    else None
  }

  /** Reading the digits of `n` gives back `n`. */
  lemma {:induction false} ParseNatDigits(n: nat)
    ensures ParseNat(NatDigits(n)) == n
    decreases n
  {
    if n >= 10 {
      var s := NatDigits(n);
      assert s[..|s| - 1] == NatDigits(n / 10);
      ParseNatDigits(n / 10);
    }
  }

  /** Rendering then parsing is the identity on every integer. */
  lemma RenderParse(n: int)
    ensures Parse(Render(n)) == Some(n)
  {
    if n < 0 {
      var digits := NatDigits(-n);
      ParseNatDigits(-n);
      var r := "-" + digits;
      assert r[0] == '-' && r[1..] == digits;
      assert |r| >= 2 && AllDigits(r[1..]);
      assert Render(n) == r;
    } else {
      ParseNatDigits(n);
      assert Render(n) == NatDigits(n);
    }
  }

  /** Distinct integers render differently. */
  lemma RenderInjective(m: int, n: int)
    requires Render(m) == Render(n)
    ensures m == n
  {
    RenderParse(m);
    RenderParse(n);
  }

  /** A digit string that does not start with '0' denotes a positive number. */
  lemma {:induction false} ParseNatPositive(s: string)
    requires |s| >= 1 && AllDigits(s) && s[0] != '0'
    ensures ParseNat(s) >= 1
  {
    if |s| > 1 {
      ParseNatPositive(s[..|s| - 1]);
    }
  }

  /** A canonical digit string (no leading zero unless it is "0") is the
      rendering of the number it denotes. */
  lemma {:induction false} DigitsParseNat(s: string)
    requires |s| >= 1 && AllDigits(s)
    requires |s| > 1 ==> s[0] != '0'
    ensures NatDigits(ParseNat(s)) == s
  {
    var p, c := s[..|s| - 1], s[|s| - 1];
    if |s| == 1 {
      assert DigitChar(DigitValue(c)) == c;
      assert s == [c];
    } else {
      ParseNatPositive(p);
      DigitsParseNat(p);
      assert DigitChar(DigitValue(c)) == c;
      assert s == p + [c];
    }
  }

  /** Every canonical decimal string, negative ones included, is the
      rendering of what it parses to, so Render and Parse are mutually
      inverse on canonical strings. */
  lemma ParseRender(s: string)
    requires Canonical(s)
    ensures Parse(s).Some? && Render(Parse(s).value) == s
  {
    if s[0] == '-' {
      var digits := s[1..];
      DigitsParseNat(digits);
      ParseNatPositive(digits);
      assert s == "-" + digits;
    } else {
      DigitsParseNat(s);
    }
  }
}
