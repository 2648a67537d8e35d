/**
 Hexadecimal text: printing in lower case without leading zeros, and reading that takes the leading
 hexadecimal digits and ignores what follows.
 */
module Hex {

  function DigitChar(d: nat): (c: char)
    requires d < 16
    ensures DigitValue(c) == d && c != ':' && c != '.'
  {
    if d < 10 then '0' + d as char else 'a' + (d - 10) as char
  }

  /** The value of a digit of either case, or -1. */
  function DigitValue(c: char): (v: int)
    ensures -1 <= v < 16
  {
    if '0' <= c <= '9' then (c - '0') as int
    else if 'a' <= c <= 'f' then (c - 'a') as int + 10
    else if 'A' <= c <= 'F' then (c - 'A') as int + 10
    else -1
  }

  predicate AllHex(s: string) {
    forall i :: 0 <= i < |s| ==> DigitValue(s[i]) >= 0
  }

  /** `toString(16)`. */
  function Print(n: nat): (s: string)
    ensures s != "" && AllHex(s) && forall i :: 0 <= i < |s| ==> s[i] != ':' && s[i] != '.'
  {
    if n < 16 then [DigitChar(n)] else Print(n / 16) + [DigitChar(n % 16)]
  }

  function Value(s: string): nat
    requires AllHex(s)
  {
    if s == "" then 0 else 16 * Value(s[..|s| - 1]) + DigitValue(s[|s| - 1])
  }

  lemma {:induction false} PrintReadsBack(n: nat)
    ensures Value(Print(n)) == n
  {
    if n >= 16 {
      PrintReadsBack(n / 16);
      assert Print(n)[..|Print(n)| - 1] == Print(n / 16);
    } else {
      assert Print(n)[..0] == "";
    }
  }

  function LeadingDigits(s: string): (t: string)
    ensures AllHex(t)
  {
    if s != "" && DigitValue(s[0]) >= 0 then [s[0]] + LeadingDigits(s[1..]) else ""
  }

  /** `Number.parseInt(s, 16)` as a bit pattern: text that is not a number counts as 0. */
  function Parse(s: string): nat {
    Value(LeadingDigits(s))
  }

  lemma {:induction false} AllAreLeading(s: string)
    requires AllHex(s)
    ensures LeadingDigits(s) == s
  {
    if s != "" {
      AllAreLeading(s[1..]);
      assert s == [s[0]] + s[1..];
    }
  }

  lemma ParsePrint(n: nat)
    ensures Parse(Print(n)) == n
  {
    AllAreLeading(Print(n));
    PrintReadsBack(n);
  }
}
