module ArchVersion {
  // pacman's version order: epoch, then version blocks, then pkgrel. The two-cursor comparison is
  // proved against a comparison of token lists, and that one is a total preorder.

  import opened Options
  import opened Orders
  import opened Digits
  import opened Text

  predicate IsAlpha(c: char) {
    'a' <= c <= 'z' || 'A' <= c <= 'Z'
  }

  predicate IsSeparator(c: char) {
    !IsDigit(c) && !IsAlpha(c)
  }

  predicate AllAlpha(s: string) {
    forall i :: 0 <= i < |s| ==> IsAlpha(s[i])
  }

  // ----- versions as token lists -----

  datatype Token = Alpha(text: string) | Numeric(value: nat)

  /** The length of the leading run of digits (or letters). */
  function DigitRun(s: string): (n: nat)
    ensures n <= |s| && AllDigits(s[..n]) && (n < |s| ==> !IsDigit(s[n]))
  {
    if s == "" || !IsDigit(s[0]) then 0
    else
      assert s == [s[0]] + s[1..];
      1 + DigitRun(s[1..])
  }

  function AlphaRun(s: string): (n: nat)
    ensures n <= |s| && AllAlpha(s[..n]) && (n < |s| ==> !IsAlpha(s[n]))
  {
    if s == "" || !IsAlpha(s[0]) then 0
    else
      assert s == [s[0]] + s[1..];
      1 + AlphaRun(s[1..])
  }

  /** Maximal runs of digits, read as integers, and of letters; everything else separates. */
  function Tokens(s: string): seq<Token>
    decreases |s|
  {
    if s == "" then []
    else if IsDigit(s[0]) then
      var n := DigitRun(s);
      [Numeric(Value(s[..n]))] + Tokens(s[n..])
    else if IsAlpha(s[0]) then
      var n := AlphaRun(s);
      [Alpha(s[..n])] + Tokens(s[n..])
    else Tokens(s[1..])
  }

  function CompareToken(x: Token, y: Token): int {
    match (x, y)
    case (Numeric(m), Numeric(n)) => Sign(m - n)
    case (Alpha(a), Alpha(b)) => CompareText(a, b)
    case (Numeric(_), Alpha(_)) => 1
    case (Alpha(_), Numeric(_)) => -1
  }

  /** Lexicographic, with the end of a list ranking above a letter block and below a number. */
  function CompareTokens(xs: seq<Token>, ys: seq<Token>): int {
    if xs == [] && ys == [] then 0
    else if xs == [] then (if ys[0].Alpha? then 1 else -1)
    else if ys == [] then (if xs[0].Alpha? then -1 else 1)
    else
      var first := CompareToken(xs[0], ys[0]);
      if first != 0 then first else CompareTokens(xs[1..], ys[1..])
  }

  lemma {:induction false} TokensFlip(xs: seq<Token>, ys: seq<Token>)
    ensures CompareTokens(xs, ys) == -CompareTokens(ys, xs)
  {
    if xs != [] && ys != [] {
      if xs[0].Alpha? && ys[0].Alpha? {
        TextFlips(xs[0].text, ys[0].text);
      }
      TokensFlip(xs[1..], ys[1..]);
    }
  }

  function RawCompare(a: string, b: string): int {
    CompareTokens(Tokens(a), Tokens(b))
  }

  lemma RawFlip(a: string, b: string)
    ensures RawCompare(a, b) == -RawCompare(b, a)
  {
    TokensFlip(Tokens(a), Tokens(b));
  }

  lemma TokenTransitive(x: Token, y: Token, z: Token)
    requires CompareToken(x, y) <= 0 && CompareToken(y, z) <= 0
    ensures CompareToken(x, z) <= 0
    ensures CompareToken(x, z) == 0 ==> x == y == z
  {
    if x.Alpha? && y.Alpha? && z.Alpha? {
      TextTransitive(x.text, y.text, z.text);
      TextFlips(y.text, z.text);
      if x.text == z.text {
        TextFlips(x.text, y.text);
      }
    }
  }

  lemma {:induction false} TokensTransitive(xs: seq<Token>, ys: seq<Token>, zs: seq<Token>)
    requires CompareTokens(xs, ys) <= 0 && CompareTokens(ys, zs) <= 0
    ensures CompareTokens(xs, zs) <= 0
    decreases |xs|
  {
    if xs != [] && ys != [] && zs != [] {
      TokenTransitive(xs[0], ys[0], zs[0]);
      if CompareToken(xs[0], zs[0]) == 0 {
        TokensTransitive(xs[1..], ys[1..], zs[1..]);
      }
    }
  }

  // ----- the two-cursor comparison -----

  lemma DigitsBefore(s: string, n: nat)
    requires n <= |s| && AllDigits(s[..n])
    ensures forall i :: 0 <= i < n ==> IsDigit(s[i])
  {
    assert forall i :: 0 <= i < n ==> s[..n][i] == s[i];
  }

  lemma LettersBefore(s: string, n: nat)
    requires n <= |s| && AllAlpha(s[..n])
    ensures forall i :: 0 <= i < n ==> IsAlpha(s[i])
  {
    assert forall i :: 0 <= i < n ==> s[..n][i] == s[i];
  }

  lemma RunsEndThere(s: string, n: nat)
    requires n <= |s|
    ensures AllDigits(s[..n]) && (n < |s| ==> !IsDigit(s[n])) ==> DigitRun(s) == n
    ensures AllAlpha(s[..n]) && (n < |s| ==> !IsAlpha(s[n])) ==> AlphaRun(s) == n
  {
    DigitsBefore(s, DigitRun(s));
    LettersBefore(s, AlphaRun(s));
    if AllDigits(s[..n]) {
      DigitsBefore(s, n);
    }
    if AllAlpha(s[..n]) {
      LettersBefore(s, n);
    }
  }

  lemma FirstDigits(s: string, n: nat)
    requires n == DigitRun(s) > 0
    ensures Tokens(s) == [Numeric(Value(s[..n]))] + Tokens(s[n..])
  {
  }

  lemma FirstLetters(s: string, n: nat)
    requires n == AlphaRun(s) > 0
    ensures Tokens(s) == [Alpha(s[..n])] + Tokens(s[n..])
  {
  }

  lemma TakeDigits(s: string, from: nat, to: nat)
    requires from < to <= |s| && AllDigits(s[from..to]) && (to < |s| ==> !IsDigit(s[to]))
    ensures Tokens(s[from..]) == [Numeric(Value(s[from..to]))] + Tokens(s[to..])
  {
    assert s[from..][..to - from] == s[from..to] && s[from..][to - from..] == s[to..];
    RunsEndThere(s[from..], to - from);
    FirstDigits(s[from..], to - from);
  }

  lemma TakeLetters(s: string, from: nat, to: nat)
    requires from < to <= |s| && AllAlpha(s[from..to]) && (to < |s| ==> !IsAlpha(s[to]))
    ensures Tokens(s[from..]) == [Alpha(s[from..to])] + Tokens(s[to..])
  {
    assert s[from..][..to - from] == s[from..to] && s[from..][to - from..] == s[to..];
    RunsEndThere(s[from..], to - from);
    FirstLetters(s[from..], to - from);
  }

  /** What is left with the separators struck out. */
  function Alphanumeric(s: string): string {
    if s == "" then ""
    else (if IsSeparator(s[0]) then "" else [s[0]]) + Alphanumeric(s[1..])
  }

  lemma {:induction false} AlphanumericStartsFirstToken(s: string)
    ensures Alphanumeric(s) == "" <==> Tokens(s) == []
    ensures Alphanumeric(s) != "" ==> (IsAlpha(Alphanumeric(s)[0]) <==> Tokens(s)[0].Alpha?)
  {
    if s != "" && IsSeparator(s[0]) {
      AlphanumericStartsFirstToken(s[1..]);
    }
  }

  method SkipSeparators(s: string, from: nat) returns (i: nat)
    requires from <= |s|
    ensures from <= i <= |s| && (i < |s| ==> !IsSeparator(s[i]))
    ensures Tokens(s[i..]) == Tokens(s[from..])
  {
    i := from;
    while i < |s| && IsSeparator(s[i])
      invariant from <= i <= |s| && Tokens(s[i..]) == Tokens(s[from..])
    {
      i := i + 1;
    }
  }

  method TakeDigitSegment(s: string, from: nat) returns (segment: string, i: nat)
    requires from < |s| && IsDigit(s[from])
    ensures from < i <= |s| && segment == s[from..i] && AllDigits(segment)
    ensures Tokens(s[from..]) == [Numeric(Value(segment))] + Tokens(s[i..])
  {
    segment, i := "", from;
    while i < |s| && IsDigit(s[i])
      invariant from <= i <= |s| && segment == s[from..i] && AllDigits(segment)
      invariant i == from ==> i < |s| && IsDigit(s[i])
    {
      segment := segment + [s[i]];
      i := i + 1;
    }
    TakeDigits(s, from, i);
  }

  method TakeLetterSegment(s: string, from: nat) returns (segment: string, i: nat)
    requires from < |s| && IsAlpha(s[from])
    ensures from < i <= |s| && segment == s[from..i]
    ensures Tokens(s[from..]) == [Alpha(segment)] + Tokens(s[i..])
  {
    segment, i := "", from;
    while i < |s| && IsAlpha(s[i])
      invariant from <= i <= |s| && segment == s[from..i] && AllAlpha(segment)
      invariant i == from ==> i < |s| && IsAlpha(s[i])
    {
      segment := segment + [s[i]];
      i := i + 1;
    }
    TakeLetters(s, from, i);
  }

  /** One pair of blocks of the same kind: what decides, or nothing and both cursors past them. */
  method CompareBlocks(a: string, i: nat, b: string, j: nat) returns (r: int, i': nat, j': nat)
    requires i < |a| && j < |b| && !IsSeparator(a[i]) && !IsSeparator(b[j]) && IsDigit(a[i]) == IsDigit(b[j])
    ensures i < i' <= |a| && j < j' <= |b|
    ensures r != 0 ==> r == CompareTokens(Tokens(a[i..]), Tokens(b[j..]))
    ensures r == 0 ==> CompareTokens(Tokens(a[i'..]), Tokens(b[j'..])) == CompareTokens(Tokens(a[i..]), Tokens(b[j..]))
  {
    var aSeg, bSeg;
    if IsDigit(a[i]) {
      aSeg, i' := TakeDigitSegment(a, i);
      bSeg, j' := TakeDigitSegment(b, j);
      var an, bn := StripZeros(aSeg), StripZeros(bSeg);
      DigitsCompareAsIntegers(aSeg, bSeg);
      r := if |an| != |bn| then (if |an| > |bn| then 1 else -1) else CompareText(an, bn);
    } else {
      aSeg, i' := TakeLetterSegment(a, i);
      bSeg, j' := TakeLetterSegment(b, j);
      r := CompareText(aSeg, bSeg);
    }
  }

  lemma KindDecides(a: string, i: nat, b: string, j: nat)
    requires i < |a| && j < |b| && !IsSeparator(a[i]) && !IsSeparator(b[j]) && IsDigit(a[i]) != IsDigit(b[j])
    ensures CompareTokens(Tokens(a[i..]), Tokens(b[j..])) == if IsDigit(a[i]) then 1 else -1
  {
  }

  /** The source's last branch, both sides having a rest, is never taken: one side is always exhausted. */
  method RawVerCmp(a: string, b: string) returns (r: int)
    ensures r == RawCompare(a, b)
  {
    if a == b {
      RawFlip(a, b);
      return 0;
    }
    var i, j := 0, 0;
    assert a[0..] == a && b[0..] == b;
    while i < |a| || j < |b|
      invariant i <= |a| && j <= |b|
      invariant RawCompare(a, b) == RawCompare(a[i..], b[j..])
      decreases |a| - i + |b| - j
    {
      i := SkipSeparators(a, i);
      j := SkipSeparators(b, j);
      if i >= |a| || j >= |b| {
        break;
      }
      var aDigit, bDigit := IsDigit(a[i]), IsDigit(b[j]);
      if aDigit != bDigit {
        KindDecides(a, i, b, j);
        return if aDigit then 1 else -1;
      }
      r, i, j := CompareBlocks(a, i, b, j);
      if r != 0 {
        return;
      }
    }
    AlphanumericStartsFirstToken(a[i..]);
    AlphanumericStartsFirstToken(b[j..]);
    var aRest, bRest := Alphanumeric(a[i..]), Alphanumeric(b[j..]);
    assert aRest == "" || bRest == "";
    if aRest == "" && bRest == "" {
      return 0;
    }
    if aRest == "" {
      return if IsAlpha(bRest[0]) then 1 else -1;
    }
    return if IsAlpha(aRest[0]) then -1 else 1;
  }

  // ----- full versions -----

  datatype Epoch = Epoch(epoch: nat, rest: string)

  datatype Release = Release(ver: string, rel: Option<string>)

  function SplitEpoch(v: string): Epoch {
    var colon := IndexOf(v, ':');
    if colon < 0 then Epoch(0, v)
    else if colon > 0 && AllDigits(v[..colon]) then Epoch(Value(v[..colon]), v[colon + 1..])
    else Epoch(0, v)
  }

  function SplitPkgrel(v: string): Release {
    var dash := LastIndexOf(v, '-');
    if dash < 0 then Release(v, None) else Release(v[..dash], Some(v[dash + 1..]))
  }

  datatype Parts = Parts(epoch: nat, ver: string, rel: Option<string>)

  function PartsOf(v: string): Parts {
    var e := SplitEpoch(v);
    var r := SplitPkgrel(e.rest);
    Parts(e.epoch, r.ver, r.rel)
  }

  function CompareParts(a: Parts, b: Parts): int {
    if a.epoch != b.epoch then (if a.epoch > b.epoch then 1 else -1)
    else
      var verCmp := RawCompare(a.ver, b.ver);
      if verCmp != 0 then verCmp
      else if a.rel.None? && b.rel.None? then 0
      else if a.rel.None? then -1
      else if b.rel.None? then 1
      else RawCompare(a.rel.value, b.rel.value)
  }

  function ArchVercmp(a: string, b: string): int {
    if a == b then 0 else CompareParts(PartsOf(a), PartsOf(b))
  }

  // ----- what the order means for texts -----

  lemma TokenItself(x: Token)
    ensures CompareToken(x, x) == 0
  {
    if x.Alpha? {
      TextFlips(x.text, x.text);
    }
  }

  lemma {:induction false} SharedTokens(front: seq<Token>, xs: seq<Token>, ys: seq<Token>)
    ensures CompareTokens(front + xs, front + ys) == CompareTokens(xs, ys)
  {
    if front == [] {
      assert front + xs == xs && front + ys == ys;
    } else {
      var a, b := front + xs, front + ys;
      assert a[0] == front[0] == b[0] && a[1..] == front[1..] + xs && b[1..] == front[1..] + ys;
      TokenItself(front[0]);
      SharedTokens(front[1..], xs, ys);
    }
  }

  lemma RunOfFront(front: string, c: char, back: string)
    requires IsSeparator(c)
    ensures DigitRun(front + [c] + back) == DigitRun(front) && AlphaRun(front + [c] + back) == AlphaRun(front)
  {
    var s, m, n := front + [c] + back, DigitRun(front), AlphaRun(front);
    assert s[..m] == front[..m] && s[..n] == front[..n];
    assert s[m] == if m < |front| then front[m] else c;
    assert s[n] == if n < |front| then front[n] else c;
    RunsEndThere(s, m);
    RunsEndThere(s, n);
  }

  /** A separator ends a block, and is forgotten. */
  lemma {:induction false} TokensAcross(front: string, c: char, back: string)
    requires IsSeparator(c)
    ensures Tokens(front + [c] + back) == Tokens(front) + Tokens(back)
    decreases |front|
  {
    var s := front + [c] + back;
    if front == "" {
      assert s[0] == c && s[1..] == back;
    } else {
      RunOfFront(front, c, back);
      var n := if IsDigit(front[0]) then DigitRun(front) else if IsAlpha(front[0]) then AlphaRun(front) else 1;
      assert s[0] == front[0];
      assert s[..n] == front[..n] && s[n..] == front[n..] + [c] + back;
      TokensAcross(front[n..], c, back);
      FirstBlock(front, n);
      FirstBlock(s, n);
      Regrouped(if IsDigit(s[0]) then [Numeric(Value(s[..n]))] else if IsAlpha(s[0]) then [Alpha(s[..n])] else [],
                Tokens(front[n..]), Tokens(back));
    }
  }

  /** A version starts with a block of digits, one of letters, or a separator. */
  lemma FirstBlock(s: string, n: nat)
    requires s != "" && n == if IsDigit(s[0]) then DigitRun(s) else if IsAlpha(s[0]) then AlphaRun(s) else 1
    ensures 0 < n <= |s| && (IsDigit(s[0]) ==> AllDigits(s[..n]))
    ensures Tokens(s) ==
            (if IsDigit(s[0]) then [Numeric(Value(s[..n]))] else if IsAlpha(s[0]) then [Alpha(s[..n])] else []) + Tokens(s[n..])
  {
  }

  lemma Regrouped(a: seq<Token>, b: seq<Token>, c: seq<Token>)
    ensures a + (b + c) == a + b + c
  {
  }

  /** What two versions have in common up to a separator does not count. */
  lemma SharedFront(front: string, c: char, x: string, y: string)
    requires IsSeparator(c)
    ensures RawCompare(front + [c] + x, front + [c] + y) == RawCompare(x, y)
  {
    TokensAcross(front, c, x);
    TokensAcross(front, c, y);
    SharedTokens(Tokens(front), Tokens(x), Tokens(y));
  }

  lemma OneBlock(s: string)
    requires s != "" && (AllDigits(s) || AllAlpha(s))
    ensures Tokens(s) == [if AllDigits(s) then Numeric(Value(s)) else Alpha(s)]
  {
    assert s[..|s|] == s;
    RunsEndThere(s, |s|);
    if AllDigits(s) {
      FirstDigits(s, |s|);
    } else {
      FirstLetters(s, |s|);
    }
  }

  /** Numbers compare by value, letters by their characters, and a number is above letters. */
  lemma BlockOrder(d: string, e: string, a: string, b: string)
    requires d != "" && e != "" && a != "" && b != "" && AllDigits(d) && AllDigits(e) && AllAlpha(a) && AllAlpha(b)
    ensures Value(d) < Value(e) ==> RawCompare(d, e) == -1
    ensures RawCompare(d, a) == 1 && RawCompare(a, d) == -1
    ensures RawCompare(a, b) == CompareText(a, b)
  {
    OneBlock(d);
    OneBlock(e);
    OneBlock(a);
    OneBlock(b);
    NotBoth(a);
    NotBoth(b);
    OneToken(Numeric(Value(d)), Numeric(Value(e)));
    OneToken(Numeric(Value(d)), Alpha(a));
    OneToken(Alpha(a), Numeric(Value(d)));
    OneToken(Alpha(a), Alpha(b));
  }

  lemma NotBoth(s: string)
    requires s != "" && AllAlpha(s)
    ensures !AllDigits(s)
  {
    assert IsAlpha(s[0]);
  }

  lemma OneToken(x: Token, y: Token)
    ensures CompareTokens([x], [y]) == CompareToken(x, y)
  {
    assert [x][1..] == [] && [y][1..] == [];
  }

  /** A further number makes a version higher, further letters lower. */
  lemma LongerVersion(front: string, c: char, block: string)
    requires IsSeparator(c) && block != "" && (AllDigits(block) || AllAlpha(block))
    ensures RawCompare(front, front + [c] + block) == if AllDigits(block) then -1 else 1
  {
    TokensAcross(front, c, block);
    OneBlock(block);
    assert Tokens(front) + [] == Tokens(front);
    SharedTokens(Tokens(front), [], Tokens(block));
  }

  /** Letters are the English ones of either case, by their code points. */
  lemma AlphaIff(c: char)
    ensures IsAlpha(c) <==> 65 <= c as int <= 90 || 97 <= c as int <= 122
  {
  }

  /** A version as it is written: an epoch's digits, the upstream version, and perhaps a package release. */
  function Written(epoch: string, ver: string, rel: Option<string>): string {
    epoch + ":" + if rel.None? then ver else ver + "-" + rel.value
  }

  lemma {:induction false} LastIndexOfAt(front: string, c: char, back: string)
    requires c !in back
    ensures LastIndexOf(front + [c] + back, c) == |front|
  {
    var s := front + [c] + back;
    if back != "" {
      var shorter := back[..|back| - 1];
      assert s[..|s| - 1] == front + [c] + shorter && s[|s| - 1] == back[|back| - 1];
      LastIndexOfAt(front, c, shorter);
    }
  }

  lemma PkgrelRead(ver: string, rel: Option<string>)
    requires if rel.None? then '-' !in ver else '-' !in rel.value
    ensures SplitPkgrel(if rel.None? then ver else ver + "-" + rel.value) == Release(ver, rel)
  {
    if rel.Some? {
      var text := ver + "-" + rel.value;
      LastIndexOfAt(ver, '-', rel.value);
      assert text[..|ver|] == ver && text[|ver| + 1..] == rel.value;
    }
  }

  lemma EpochRead(epoch: string, rest: string)
    requires epoch != "" && AllDigits(epoch)
    ensures SplitEpoch(epoch + ":" + rest) == Epoch(Value(epoch), rest)
  {
    var text := epoch + ":" + rest;
    IndexOfAt(epoch, ':', rest);
    assert text[..|epoch|] == epoch && text[|epoch| + 1..] == rest;
  }

  lemma WrittenRead(epoch: string, ver: string, rel: Option<string>)
    requires epoch != "" && AllDigits(epoch) && if rel.None? then '-' !in ver else '-' !in rel.value
    ensures PartsOf(Written(epoch, ver, rel)) == Parts(Value(epoch), ver, rel)
  {
    EpochRead(epoch, if rel.None? then ver else ver + "-" + rel.value);
    PkgrelRead(ver, rel);
  }

  /** The shortcut for equal texts agrees with the comparison of their parts. */
  lemma ComparesParts(a: string, b: string)
    ensures ArchVercmp(a, b) == CompareParts(PartsOf(a), PartsOf(b))
  {
    PartsFlip(PartsOf(a), PartsOf(a));
  }

  /** The lower epoch is the lower version, whatever follows. */
  lemma EpochDecides(d: string, e: string, x: string, y: string)
    requires d != "" && e != "" && AllDigits(d) && AllDigits(e) && Value(d) < Value(e)
    ensures ArchVercmp(d + ":" + x, e + ":" + y) == -1
    ensures ArchVercmp(e + ":" + y, d + ":" + x) == 1
  {
    EpochRead(d, x);
    EpochRead(e, y);
    ComparesParts(d + ":" + x, e + ":" + y);
    ComparesParts(e + ":" + y, d + ":" + x);
  }

  /** Digits before the first colon, at least one. */
  predicate HasEpoch(v: string) {
    exists n :: 0 < n < |v| && AllDigits(v[..n]) && v[n] == ':'
  }

  /** A version without an epoch ranks exactly as with the epoch 0 written before it. */
  lemma NoEpochIsZero(v: string, w: string)
    requires !HasEpoch(v)
    ensures ArchVercmp("0:" + v, w) == ArchVercmp(v, w)
  {
    EpochRead("0", v);
    assert "0" + ":" + v == "0:" + v;
    var colon := IndexOf(v, ':');
    assert colon > 0 ==> !AllDigits(v[..colon]);
    assert Value("0") == 0;
    ComparesParts("0:" + v, w);
    ComparesParts(v, w);
  }

  /**
   With equal epochs a difference of the upstream versions decides; with none, a version without a
   release is below the same with one, and two releases compare as versions do.
   */
  lemma VersionThenRelease(epoch: string, v: string, r: Option<string>, w: string, q: Option<string>)
    requires epoch != "" && AllDigits(epoch)
    requires if r.None? then '-' !in v else '-' !in r.value
    requires if q.None? then '-' !in w else '-' !in q.value
    ensures RawCompare(v, w) != 0 ==>
              ArchVercmp(Written(epoch, v, r), Written(epoch, w, q)) == RawCompare(v, w)
    ensures RawCompare(v, w) == 0 ==>
              && (r.None? && q.None? ==> ArchVercmp(Written(epoch, v, r), Written(epoch, w, q)) == 0)
              && (r.None? && q.Some? ==> ArchVercmp(Written(epoch, v, r), Written(epoch, w, q)) == -1)
              && (r.Some? && q.None? ==> ArchVercmp(Written(epoch, v, r), Written(epoch, w, q)) == 1)
              && (r.Some? && q.Some? ==>
                    ArchVercmp(Written(epoch, v, r), Written(epoch, w, q)) == RawCompare(r.value, q.value))
  {
    WrittenRead(epoch, v, r);
    WrittenRead(epoch, w, q);
    ComparesParts(Written(epoch, v, r), Written(epoch, w, q));
  }

  lemma PartsFlip(a: Parts, b: Parts)
    ensures CompareParts(a, b) == -CompareParts(b, a)
  {
    RawFlip(a.ver, b.ver);
    if a.rel.Some? && b.rel.Some? {
      RawFlip(a.rel.value, b.rel.value);
    }
  }

  lemma RawTransitive(a: string, b: string, c: string)
    requires RawCompare(a, b) <= 0 && RawCompare(b, c) <= 0
    ensures RawCompare(a, c) <= 0
    ensures RawCompare(a, c) == 0 ==> RawCompare(a, b) == 0 && RawCompare(b, c) == 0
  {
    TokensTransitive(Tokens(a), Tokens(b), Tokens(c));
    if RawCompare(a, c) == 0 {
      RawFlip(a, c);
      RawFlip(a, b);
      RawFlip(b, c);
      TokensTransitive(Tokens(c), Tokens(a), Tokens(b));
      TokensTransitive(Tokens(b), Tokens(c), Tokens(a));
    }
  }

  lemma PartsTransitive(a: Parts, b: Parts, c: Parts)
    requires CompareParts(a, b) <= 0 && CompareParts(b, c) <= 0
    ensures CompareParts(a, c) <= 0
  {
    if a.epoch == b.epoch == c.epoch {
      RawTransitive(a.ver, b.ver, c.ver);
      if a.rel.Some? && b.rel.Some? && c.rel.Some? && RawCompare(a.ver, c.ver) == 0 {
        RawTransitive(a.rel.value, b.rel.value, c.rel.value);
      }
    }
  }

  /** The order the sync database's choice of one canonical version rests on. */
  lemma ArchVercmpIsTotalPreorder()
    ensures TotalPreorder(ArchVercmp)
  {
    forall a, b
      ensures Sign(ArchVercmp(a, b)) == -Sign(ArchVercmp(b, a))
    {
      PartsFlip(PartsOf(a), PartsOf(b));
    }
    forall a, b, c | ArchVercmp(a, b) <= 0 && ArchVercmp(b, c) <= 0
      ensures ArchVercmp(a, c) <= 0
    {
      if a != b && b != c {
        PartsTransitive(PartsOf(a), PartsOf(b), PartsOf(c));
      }
    }
  }

  // ----- the canonical entry per package -----

  datatype Meta = Meta(pkgname: string, pkgver: string, arch: string, filename: string)

  const ANY_ARCH := "any"

  predicate Wanted(meta: Meta, arch: Option<string>) {
    arch.Some? ==> meta.arch == arch.value || meta.arch == ANY_ARCH
  }

  function EntryKey(meta: Meta, arch: Option<string>): string {
    match arch
    case None => meta.pkgname
    case Some(wanted) => meta.pkgname + ":" + if meta.arch == ANY_ARCH then wanted else meta.arch
  }

  function EntryKeyed(arch: Option<string>): Meta -> Keyed {
    meta => if Wanted(meta, arch) then Under(EntryKey(meta, arch)) else Skip
  }

  function ByVersion(): Comparer<Meta> {
    (x: Meta, y: Meta) => ArchVercmp(x.pkgver, y.pkgver)
  }

  lemma ByVersionIsTotalPreorder()
    ensures TotalPreorder(ByVersion())
  {
    ArchVercmpIsTotalPreorder();
    forall x: Meta, y: Meta
      ensures Sign(ByVersion()(x, y)) == -Sign(ByVersion()(y, x))
    {
      assert Sign(ArchVercmp(x.pkgver, y.pkgver)) == -Sign(ArchVercmp(y.pkgver, x.pkgver));
    }
  }

  /** The entries of one sync database: per key, a row no other row of that key outranks. */
  method CollectEntries(rows: seq<Meta>, arch: Option<string>) returns (latest: map<string, Meta>)
    ensures forall key :: key in latest <==> exists meta :: meta in rows && Wanted(meta, arch) && EntryKey(meta, arch) == key
    ensures forall key :: key in latest ==>
              && latest[key] in rows && Wanted(latest[key], arch) && EntryKey(latest[key], arch) == key
              && forall other :: other in rows && Wanted(other, arch) && EntryKey(other, arch) == key ==>
                   ArchVercmp(other.pkgver, latest[key].pkgver) <= 0
    ensures forall meta :: meta in rows && ServedTo(meta.arch, arch) ==>
              exists key :: && key in latest && latest[key].pkgname == meta.pkgname
                            && ArchVercmp(meta.pkgver, latest[key].pkgver) <= 0
    ensures forall key :: key in latest ==> latest[key] in rows && ServedTo(latest[key].arch, arch)
    ensures forall k, l :: k in latest && l in latest && k != l ==> latest[k].pkgname != latest[l].pkgname
  {
    ByVersionIsTotalPreorder();
    latest := KeepMaximum(rows, EntryKeyed(arch), ByVersion());
    assert forall key, meta :: InGroup(rows, EntryKeyed(arch), key, meta) <==>
                               meta in rows && Wanted(meta, arch) && EntryKey(meta, arch) == key;
    forall key
      ensures key in latest <==> exists meta :: meta in rows && Wanted(meta, arch) && EntryKey(meta, arch) == key
    {
      if meta :| meta in rows && Wanted(meta, arch) && EntryKey(meta, arch) == key {
        assert InGroup(rows, EntryKeyed(arch), key, meta);
      }
    }
    forall key, other | key in latest && other in rows && Wanted(other, arch) && EntryKey(other, arch) == key
      ensures ArchVercmp(other.pkgver, latest[key].pkgver) <= 0
    {
      assert InGroup(rows, EntryKeyed(arch), key, other);
      assert ByVersion()(other, latest[key]) <= 0;
    }
    NamesOfEntries(rows, arch, latest);
  }

  /** Packages of this architecture and of any are served to it; without one, all are. */
  predicate ServedTo(built: string, arch: Option<string>) {
    arch == None || arch == Some(built) || built == "any"
  }

  lemma KeyIsName(x: Meta, y: Meta, arch: Option<string>)
    requires Wanted(x, arch) && Wanted(y, arch)
    ensures EntryKey(x, arch) == EntryKey(y, arch) <==> x.pkgname == y.pkgname
    ensures Wanted(x, arch) <==> ServedTo(x.arch, arch)
  {
    if arch.Some? {
      var tail := ":" + arch.value;
      assert EntryKey(x, arch) == x.pkgname + tail && EntryKey(y, arch) == y.pkgname + tail;
      assert (x.pkgname + tail)[..|x.pkgname|] == x.pkgname && (y.pkgname + tail)[..|y.pkgname|] == y.pkgname;
    }
  }

  /** The entries by name: one for every package that is served at all, and the highest version of it. */
  lemma NamesOfEntries(rows: seq<Meta>, arch: Option<string>, latest: map<string, Meta>)
    requires forall key :: key in latest <==> exists meta :: meta in rows && Wanted(meta, arch) && EntryKey(meta, arch) == key
    requires forall key :: key in latest ==>
               && latest[key] in rows && Wanted(latest[key], arch) && EntryKey(latest[key], arch) == key
               && forall other :: other in rows && Wanted(other, arch) && EntryKey(other, arch) == key ==>
                    ArchVercmp(other.pkgver, latest[key].pkgver) <= 0
    ensures forall meta :: meta in rows && ServedTo(meta.arch, arch) ==>
              exists key :: && key in latest && latest[key].pkgname == meta.pkgname
                            && ArchVercmp(meta.pkgver, latest[key].pkgver) <= 0
    ensures forall key :: key in latest ==> latest[key] in rows && ServedTo(latest[key].arch, arch)
    ensures forall k, l :: k in latest && l in latest && k != l ==> latest[k].pkgname != latest[l].pkgname
  {
    forall meta | meta in rows && ServedTo(meta.arch, arch)
      ensures exists key :: && key in latest && latest[key].pkgname == meta.pkgname
                            && ArchVercmp(meta.pkgver, latest[key].pkgver) <= 0
    {
      var key := EntryKey(meta, arch);
      assert Wanted(meta, arch) && key in latest;
      KeyIsName(meta, latest[key], arch);
    }
    forall k, l | k in latest && l in latest && k != l
      ensures latest[k].pkgname != latest[l].pkgname
    {
      KeyIsName(latest[k], latest[l], arch);
    }
  }
}
