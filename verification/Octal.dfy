/**
 Octal text as tar headers carry it: printing into a field of fixed width, and reading back with
 blanks, a sign and whatever follows the digits.
 */
module Octal {
  import opened Bytes
  import opened Options

  const ZERO: Byte := 48
  const SPACE: Byte := 32

  function Pow8(n: nat): (p: nat)
    ensures p > 0
  {
    if n == 0 then 1 else 8 * Pow8(n - 1)
  }

  predicate IsOctalDigit(b: Byte) {
    ZERO <= b < ZERO + 8
  }

  ghost predicate AllOctal(s: seq<Byte>) {
    forall i :: 0 <= i < |s| ==> IsOctalDigit(s[i])
  }

  /** What `toString(8)` prints. */
  function Print(n: nat): (s: seq<Byte>)
    ensures AllOctal(s) && s != []
  {
    if n < 8 then [ZERO + n as Byte] else Print(n / 8) + [ZERO + (n % 8) as Byte]
  }

  function Repeat(b: Byte, n: nat): (s: seq<Byte>)
    ensures |s| == n && forall i :: 0 <= i < n ==> s[i] == b
  {
    seq(n, i => b)
  }

  /** `padStart` with zeros. */
  function PadStart(s: seq<Byte>, width: nat): seq<Byte> {
    if |s| < width then Repeat(ZERO, width - |s|) + s else s
  }

  /** The number a run of octal digits denotes. */
  function Value(s: seq<Byte>): nat
    requires AllOctal(s)
  {
    if s == [] then 0 else 8 * Value(s[..|s| - 1]) + (s[|s| - 1] - ZERO) as nat
  }

  lemma {:induction false} PrintReadsBack(n: nat)
    ensures Value(Print(n)) == n
  {
    if n >= 8 {
      PrintReadsBack(n / 8);
      assert Print(n)[..|Print(n)| - 1] == Print(n / 8);
    } else {
      assert Print(n)[..0] == [];
    }
  }

  lemma {:induction false} PrintLength(n: nat, width: nat)
    requires n < Pow8(width) && width > 0
    ensures |Print(n)| <= width
  {
    if n >= 8 {
      assert Pow8(0) == 1 && Pow8(1) == 8;
      PrintLength(n / 8, width - 1);
    }
  }

  lemma {:induction false} LeadingZeros(k: nat, s: seq<Byte>)
    requires AllOctal(s)
    ensures AllOctal(Repeat(ZERO, k) + s) && Value(Repeat(ZERO, k) + s) == Value(s)
    decreases k + |s|
  {
    var padded := Repeat(ZERO, k) + s;
    if s != [] {
      LeadingZeros(k, s[..|s| - 1]);
      assert padded[..|padded| - 1] == Repeat(ZERO, k) + s[..|s| - 1];
    } else if k > 0 {
      LeadingZeros(k - 1, []);
      assert padded[..k - 1] == Repeat(ZERO, k - 1) + [];
    }
  }

  /** A number below 8^width fills exactly its field and reads back. */
  lemma PaddedReadsBack(n: nat, width: nat)
    requires n < Pow8(width) && width > 0
    ensures var s := PadStart(Print(n), width);
            |s| == width && AllOctal(s) && Value(s) == n
  {
    PrintLength(n, width);
    PrintReadsBack(n);
    PadReadsBack(Print(n), width);
  }

  lemma PadReadsBack(digits: seq<Byte>, width: nat)
    requires AllOctal(digits) && |digits| <= width
    ensures var s := PadStart(digits, width);
            |s| == width && AllOctal(s) && Value(s) == Value(digits)
  {
    LeadingZeros(width - |digits|, digits);
  }

  // ----- reading -----

  function LeadingDigits(s: seq<Byte>): (t: seq<Byte>)
    ensures AllOctal(t)
  {
    if s != [] && IsOctalDigit(s[0]) then [s[0]] + LeadingDigits(s[1..]) else []
  }

  predicate IsBlank(b: Byte) {
    9 <= b <= 13 || b == SPACE || b == 160
  }

  function SkipBlanks(s: seq<Byte>): seq<Byte> {
    if s != [] && IsBlank(s[0]) then SkipBlanks(s[1..]) else s
  }

  /** `Number.parseInt(s, 8)`: blanks, a sign, then as many octal digits as there are; none is not a number. */
  function ParseInt(s: seq<Byte>): Option<int> {
    var text := SkipBlanks(s);
    var negative := text != [] && text[0] == 45;
    var unsigned := if text != [] && (text[0] == 45 || text[0] == 43) then text[1..] else text;
    var digits := LeadingDigits(unsigned);
    if digits == [] then None else Some((if negative then -1 else 1) * Value(digits))
  }

  lemma {:induction false} AllAreLeading(s: seq<Byte>)
    requires AllOctal(s)
    ensures LeadingDigits(s) == s
  {
    if s != [] {
      AllAreLeading(s[1..]);
      assert s == [s[0]] + s[1..];
    }
  }

  lemma ParsesDigits(s: seq<Byte>)
    requires AllOctal(s) && s != []
    ensures ParseInt(s) == Some(Value(s))
  {
    AllAreLeading(s);
  }
}
