/**
 Decimal text: the integer a run of digits of any length denotes, its canonical form, comparing such
 integers by length and then as text, and printing.
 */
module Digits {
  import opened Orders

  predicate IsDigit(c: char) {
    '0' <= c <= '9'
  }

  predicate AllDigits(s: string) {
    forall i :: 0 <= i < |s| ==> IsDigit(s[i])
  }

  function DigitValue(c: char): (d: nat)
    requires IsDigit(c)
    ensures d < 10
  {
    (c - '0') as nat
  }

  function DigitChar(d: nat): (c: char)
    requires d < 10
    ensures IsDigit(c) && DigitValue(c) == d
  {
    '0' + d as char
  }

  function Pow10(n: nat): (p: nat)
    ensures p > 0
  {
    if n == 0 then 1 else 10 * Pow10(n - 1)
  }

  /** The integer a run of decimal digits denotes, of any length. */
  function Value(s: string): nat
    requires AllDigits(s)
  {
    if s == "" then 0 else DigitValue(s[0]) * Pow10(|s| - 1) + Value(s[1..])
  }

  function StripZeros(s: string): (t: string)
    requires AllDigits(s)
    ensures AllDigits(t) && |t| <= |s| && (t == "" || t[0] != '0')
  {
    if s != "" && s[0] == '0' then StripZeros(s[1..]) else s
  }

  lemma {:induction false} StripKeepsValue(s: string)
    requires AllDigits(s)
    ensures Value(StripZeros(s)) == Value(s)
  {
    if s != "" && s[0] == '0' {
      StripKeepsValue(s[1..]);
    }
  }

  lemma {:induction false} ValueBounds(s: string)
    requires AllDigits(s)
    ensures Value(s) < Pow10(|s|)
    ensures s != "" && s[0] != '0' ==> Pow10(|s| - 1) <= Value(s)
  {
    if s != "" {
      ValueBounds(s[1..]);
      Scale(DigitValue(s[0]), Pow10(|s| - 1));
    }
  }

  lemma Scale(d: nat, p: nat)
    requires d < 10
    ensures d * p + p <= 10 * p
    ensures d >= 1 ==> p <= d * p
  {
  }

  lemma {:induction false} PowGrows(m: nat, n: nat)
    requires m <= n
    ensures Pow10(m) <= Pow10(n)
    decreases n - m
  {
    if m < n {
      PowGrows(m + 1, n);
    }
  }

  lemma {:induction false} SameLengthByText(a: string, b: string)
    requires AllDigits(a) && AllDigits(b) && |a| == |b|
    ensures CompareText(a, b) == Sign(Value(a) - Value(b))
  {
    if a != "" {
      if a[0] == b[0] {
        SameLengthByText(a[1..], b[1..]);
      } else {
        ValueBounds(a[1..]);
        ValueBounds(b[1..]);
        LeadDecides(DigitValue(a[0]), Value(a[1..]), DigitValue(b[0]), Value(b[1..]), Pow10(|a| - 1));
      }
    }
  }

  lemma LeadDecides(d: nat, x: nat, e: nat, y: nat, p: nat)
    requires x < p && y < p && d != e
    ensures Sign(d * p + x - (e * p + y)) == Sign(d - e)
  {
    if d < e {
      OneMore(d, e, p);
    } else {
      OneMore(e, d, p);
    }
  }

  lemma {:induction false} OneMore(d: nat, e: nat, p: nat)
    requires d < e
    ensures d * p + p <= e * p
    decreases e
  {
    if d + 1 < e {
      OneMore(d, e - 1, p);
    }
  }

  /** Stripped of leading zeros, numbers of any size compare by length and then as text. */
  function CompareDigits(a: string, b: string): int
    requires AllDigits(a) && AllDigits(b)
  {
    var an, bn := StripZeros(a), StripZeros(b);
    if |an| != |bn| then (if |an| > |bn| then 1 else -1)
    else CompareText(an, bn)
  }

  lemma DigitsCompareAsIntegers(a: string, b: string)
    requires AllDigits(a) && AllDigits(b)
    ensures CompareDigits(a, b) == Sign(Value(a) - Value(b))
  {
    var an, bn := StripZeros(a), StripZeros(b);
    StripKeepsValue(a);
    StripKeepsValue(b);
    ValueBounds(an);
    ValueBounds(bn);
    if |an| > |bn| {
      PowGrows(|bn|, |an| - 1);
    } else if |an| < |bn| {
      PowGrows(|an|, |bn| - 1);
    } else {
      SameLengthByText(an, bn);
    }
  }

  // ----- printing -----

  /** Without leading zeros, as integers are printed. */
  predicate Canonical(s: string) {
    AllDigits(s) && s != "" && (s[0] == '0' ==> |s| == 1)
  }

  function Decimal(n: nat): (s: string)
    ensures AllDigits(s) && s != ""
  {
    if n < 10 then [DigitChar(n)] else Decimal(n / 10) + [DigitChar(n % 10)]
  }

  lemma {:induction false} ValueSnoc(s: string, c: char)
    requires AllDigits(s) && IsDigit(c)
    ensures AllDigits(s + [c]) && Value(s + [c]) == 10 * Value(s) + DigitValue(c)
  {
    if s == "" {
      assert s + [c] == [c] && [c][1..] == "";
      assert Pow10(0) == 1;
    } else {
      ValueSnoc(s[1..], c);
      assert (s + [c])[1..] == s[1..] + [c];
      assert Pow10(|s|) == 10 * Pow10(|s| - 1);
      Distribute(DigitValue(s[0]), Pow10(|s| - 1));
    }
  }

  lemma Distribute(d: nat, p: nat)
    ensures d * (10 * p) == 10 * (d * p)
  {
  }

  lemma {:induction false} DecimalRoundTrip(n: nat)
    ensures Value(Decimal(n)) == n && Canonical(Decimal(n))
    ensures n > 0 ==> Decimal(n)[0] != '0'
  {
    if n < 10 {
      assert Decimal(n)[1..] == "" && Pow10(0) == 1;
    } else {
      DecimalRoundTrip(n / 10);
      ValueSnoc(Decimal(n / 10), DigitChar(n % 10));
    }
  }

  /** Canonical text is the printed form of its value; equal values have equal canonical text. */
  lemma CanonicalIsPrinted(s: string)
    requires Canonical(s)
    ensures Decimal(Value(s)) == s
  {
    var t := Decimal(Value(s));
    DecimalRoundTrip(Value(s));
    DigitsCompareAsIntegers(s, t);
    assert StripZeros("0") == "";
    if Value(s) == 0 {
      ZeroIsZero(s);
      ZeroIsZero(t);
    } else {
      assert StripZeros(s) == s && StripZeros(t) == t;
    }
  }

  lemma ZeroIsZero(s: string)
    requires Canonical(s) && Value(s) == 0
    ensures s == "0"
  {
    if s[0] != '0' {
      ValueBounds(s);
    }
  }

}
