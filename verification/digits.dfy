/**
 * Decimal digit strings: their numeric value, the decimal rendering of a
 * number (`n + ""` in JavaScript) and how the lexical order of digit
 * strings of equal length follows their numeric order.
 */
module Digits {
  import opened JsValues

  predicate IsDigit(c: char)
  {
    '0' <= c <= '9'
  }

  predicate IsDigits(s: string)
  {
    forall k :: 0 <= k < |s| ==> IsDigit(s[k])
  }

  /** A digit string as written for a number: no leading zero except "0" itself. */
  predicate Canonical(s: string)
  {
    IsDigits(s) && |s| >= 1 && (|s| > 1 ==> s[0] != '0')
  }

  function DigitValue(c: char): nat
    requires IsDigit(c)
  {
    (c as int) - ('0' as int)
  }

  function DigitChar(d: nat): (c: char)
    requires d < 10
    ensures IsDigit(c) && DigitValue(c) == d
  {
    ('0' as int + d) as char
  }

  function Pow10(n: nat): (p: nat)
    ensures p >= 1
  {
    if n == 0 then 1 else 10 * Pow10(n - 1)
  }

  /** The number a digit string denotes, most significant digit first. */
  function Value(s: string): nat
    requires IsDigits(s)
  {
    if |s| == 0 then 0 else DigitValue(s[0]) * Pow10(|s| - 1) + Value(s[1..])
  }

  /** `n + ""`: the decimal rendering of a non-negative number. */
  function NatToString(n: nat): string
  {
    if n < 10 then [DigitChar(n)] else NatToString(n / 10) + [DigitChar(n % 10)]
  }

  lemma MulLeMono(x: nat, y: nat, p: nat)
    requires x <= y
    ensures x * p <= y * p
  {
  }

  /** A smaller leading digit wins whatever follows it. */
  lemma LeadingDigitDecides(da: nat, db: nat, p: nat, va: nat, vb: nat)
    requires da < db && va < p
    ensures da * p + va < db * p + vb
  {
    MulLeMono(da + 1, db, p);
    assert (da + 1) * p == da * p + p;
  }

  lemma ShiftDigit(d: nat, p: nat, v: nat, dc: nat)
    ensures d * (10 * p) + (10 * v + dc) == 10 * (d * p + v) + dc
  {
  }

  lemma {:induction false} Pow10Monotone(m: nat, n: nat)
    requires m < n
    ensures Pow10(m) < Pow10(n)
  {
    if m < n - 1 {
      Pow10Monotone(m, n - 1);
    }
  }

  /** A digit string of length n denotes a number below 10^n. */
  lemma {:induction false} ValueBound(s: string)
    requires IsDigits(s)
    ensures Value(s) < Pow10(|s|)
  {
    if |s| > 0 {
      ValueBound(s[1..]);
      MulLeMono(DigitValue(s[0]), 9, Pow10(|s| - 1));
    }
  }

  /** A canonical digit string of length n >= 2 denotes at least 10^(n-1). */
  lemma ValueLowerBound(s: string)
    requires Canonical(s) && |s| >= 2
    ensures Value(s) >= Pow10(|s| - 1)
  {
    MulLeMono(1, DigitValue(s[0]), Pow10(|s| - 1));
  }

  /** A leading zero does not change the value. */
  lemma ValueZeroPrefix(s: string)
    requires IsDigits(s)
    ensures IsDigits("0" + s) && Value("0" + s) == Value(s)
  {
    assert ("0" + s)[1..] == s;
  }

  /** Appending a digit multiplies by ten and adds it. */
  lemma {:induction false} ValueAppend(s: string, c: char)
    requires IsDigits(s) && IsDigit(c)
    ensures IsDigits(s + [c]) && Value(s + [c]) == 10 * Value(s) + DigitValue(c)
  {
    if |s| > 0 {
      assert (s + [c])[1..] == s[1..] + [c];
      ValueAppend(s[1..], c);
      var d, p, v := DigitValue(s[0]), Pow10(|s| - 1), Value(s[1..]);
      assert Value(s + [c]) == d * (10 * p) + (10 * v + DigitValue(c));
      ShiftDigit(d, p, v, DigitValue(c));
    }
  }

  /** The decimal rendering is canonical and denotes the number. */
  lemma {:induction false} NatToStringValue(n: nat)
    ensures Canonical(NatToString(n)) && Value(NatToString(n)) == n
  {
    if n >= 10 {
      NatToStringValue(n / 10);
      ValueAppend(NatToString(n / 10), DigitChar(n % 10));
      assert NatToString(n)[0] == NatToString(n / 10)[0];
    }
  }

  /** A number below 10^k (k >= 1) is rendered in at most k digits. */
  lemma {:induction false} NatToStringLength(n: nat, k: nat)
    requires k >= 1 && n < Pow10(k)
    ensures |NatToString(n)| <= k
  {
    if n >= 10 {
      NatToStringLength(n / 10, k - 1);
    }
  }

  /** For digit strings of equal length, lexical order is numeric order. */
  lemma {:induction false} DigitsLexOrder(a: string, b: string)
    requires IsDigits(a) && IsDigits(b) && |a| == |b|
    ensures LexLess(a, b) <==> Value(a) < Value(b)
  {
    if |a| > 0 {
      var p := Pow10(|a| - 1);
      assert IsDigits(a[1..]) && IsDigits(b[1..]);
      ValueBound(a[1..]);
      ValueBound(b[1..]);
      if a[0] == b[0] {
        DigitsLexOrder(a[1..], b[1..]);
      } else if a[0] < b[0] {
        LeadingDigitDecides(DigitValue(a[0]), DigitValue(b[0]), p, Value(a[1..]), Value(b[1..]));
      } else {
        LeadingDigitDecides(DigitValue(b[0]), DigitValue(a[0]), p, Value(b[1..]), Value(a[1..]));
      }
    }
  }

  /** Digit strings of equal length and equal value are equal. */
  lemma DigitsValueInjective(a: string, b: string)
    requires IsDigits(a) && IsDigits(b) && |a| == |b| && Value(a) == Value(b)
    ensures a == b
  {
    DigitsLexOrder(a, b);
    DigitsLexOrder(b, a);
    if a != b {
      LexTotal(a, b);
    }
  }

  /** Canonical digit strings with equal value are equal. */
  lemma CanonicalInjective(a: string, b: string)
    requires Canonical(a) && Canonical(b) && Value(a) == Value(b)
    ensures a == b
  {
    ValueBound(a);
    ValueBound(b);
    if |a| < |b| {
      ValueLowerBound(b);
      if |a| < |b| - 1 {
        Pow10Monotone(|a|, |b| - 1);
      }
      assert false;
    } else if |b| < |a| {
      ValueLowerBound(a);
      if |b| < |a| - 1 {
        Pow10Monotone(|b|, |a| - 1);
      }
      assert false;
    }
    DigitsValueInjective(a, b);
  }
}
