/** Chocolatey version normalization and the order of normalized versions. */
module Chocolatey {
  import opened Options
  import opened Orders
  import opened Digits
  import opened Text
  import opened Precedence

  // ----- reading a version -----

  function Lower(s: string): (r: string)
    ensures |r| == |s|
  {
    seq(|s|, i requires 0 <= i < |s| => if 'A' <= s[i] <= 'Z' then s[i] - 'A' + 'a' else s[i])
  }

  predicate IsNumber(part: string) {
    AllDigits(part) && part != ""
  }

  predicate ValidTag(tag: string) {
    forall part :: part in Split(tag, '.') ==> IsIdentifier(part)
  }

  /** A version as understood: three numbers, or four with a nonzero last, and perhaps a tag. */
  datatype Parsed = Parsed(numbers: seq<nat>, tag: Option<string>)

  function Values(parts: seq<string>): (r: seq<nat>)
    requires forall p :: p in parts ==> IsNumber(p)
    ensures |r| == |parts|
    ensures forall i :: 0 <= i < |r| ==> r[i] == (assert IsNumber(parts[i]); Value(parts[i]))
  {
    seq(|parts|, i requires 0 <= i < |parts| => (assert IsNumber(parts[i]); Value(parts[i])))
  }

  function Canon(numbers: seq<nat>): seq<nat>
    requires 2 <= |numbers| <= 4
  {
    if |numbers| == 2 then numbers + [0]
    else if |numbers| == 4 && numbers[3] == 0 then numbers[..3]
    else numbers
  }

  function Understand(version: string): Option<Parsed> {
    var trimmed := Trim(version);
    if trimmed == "" then None
    else
      var plus := IndexOf(trimmed, '+');
      UnderstandTrimmed(if plus >= 0 then trimmed[..plus] else trimmed)
  }

  function UnderstandTrimmed(text: string): Option<Parsed> {
    var dash := IndexOf(text, '-');
    var core := if dash >= 0 then text[..dash] else text;
    var tag := if dash >= 0 then text[dash + 1..] else "";
    if dash >= 0 && tag == "" then None
    else if tag != "" && !ValidTag(tag) then None
    else UnderstandCore(Split(core, '.'), if dash >= 0 then Some(tag) else None)
  }

  function UnderstandCore(parts: seq<string>, tag: Option<string>): Option<Parsed> {
    if |parts| < 2 || |parts| > 4 || exists p :: p in parts && !IsNumber(p) then None
    else Some(Parsed(Canon(Values(parts)), if tag.Some? then Some(Lower(tag.value)) else None))
  }

  // ----- writing it back -----

  function Texts(numbers: seq<nat>): (r: seq<string>)
    ensures |r| == |numbers| && forall i :: 0 <= i < |r| ==> r[i] == Decimal(numbers[i])
  {
    seq(|numbers|, i requires 0 <= i < |numbers| => Decimal(numbers[i]))
  }

  function Render(p: Parsed): string {
    Join(Texts(p.numbers), '.') + if p.tag.Some? then "-" + p.tag.value else ""
  }

  /** How the runtime prints the number it reads: exactly below 2^53, and as "0" for zero alone. */
  ghost predicate PrintsSmall(printer: nat -> string) {
    && (forall n: nat :: n < MAX_EXACT ==> printer(n) == Decimal(n))
    && (forall n: nat :: n > 0 ==> printer(n) != "0")
  }

  function Rounded(n: nat): (text: string)
    ensures n > 0 ==> text != "0"
  {
    ZeroAlone(n);
    if n < MAX_EXACT then Decimal(n) else "Infinity"
  }

  lemma ZeroAlone(n: nat)
    ensures Decimal(n) == "0" <==> n == 0
  {
    DecimalRoundTrip(n);
  }

  type Printer = printer: nat -> string | PrintsSmall(printer) ghost witness Rounded

  function Printed(printer: Printer, numbers: seq<nat>): (texts: seq<string>)
    ensures |texts| == |numbers| && forall i :: 0 <= i < |texts| ==> texts[i] == printer(numbers[i])
  {
    seq(|numbers|, i requires 0 <= i < |numbers| => printer(numbers[i]))
  }

  function RenderWith(printer: Printer, p: Parsed): string {
    Join(Printed(printer, p.numbers), '.') + if p.tag.Some? then "-" + p.tag.value else ""
  }

  function Normalize(printer: Printer, version: string): Option<string> {
    match Understand(version)
    case None => None
    case Some(p) => Some(RenderWith(printer, p))
  }

  /** Below 2^53 the runtime prints what was read. */
  lemma ExactIsRendered(printer: Printer, p: Parsed)
    requires forall i :: 0 <= i < |p.numbers| ==> p.numbers[i] < MAX_EXACT
    ensures RenderWith(printer, p) == Render(p)
  {
    assert Printed(printer, p.numbers) == Texts(p.numbers);
  }

  function CanonTexts(texts: seq<string>): seq<string>
    requires 2 <= |texts| <= 4
  {
    if |texts| == 2 then texts + ["0"]
    else if |texts| == 4 && texts[3] == "0" then texts[..3]
    else texts
  }

  lemma PrintedCanon(printer: Printer, numbers: seq<nat>)
    requires 2 <= |numbers| <= 4
    ensures CanonTexts(Printed(printer, numbers)) == Printed(printer, Canon(numbers))
  {
    ZeroAlone(0);
    assert printer(0) == "0";
  }

  /** Push zeros up to three numbers; pop a zero fourth. */
  method PadAndPop(read: seq<string>) returns (numbers: seq<string>)
    requires 2 <= |read| <= 4
    ensures numbers == CanonTexts(read)
  {
    numbers := read;
    while |numbers| < 3
      invariant if |read| == 2 then numbers == read || numbers == read + ["0"] else numbers == read
    {
      numbers := numbers + ["0"];
    }
    if |numbers| == 4 && numbers[3] == "0" {
      numbers := numbers[..3];
    }
  }

  /** The source's own steps: cut, check, print, push the missing number or pop the zero one, join. */
  method NormalizeChocolateyVersion(printer: Printer, version: string) returns (r: Option<string>)
    ensures r == Normalize(printer, version)
  {
    var normalized := Trim(version);
    if normalized == "" {
      return None;
    }
    var plus := IndexOf(normalized, '+');
    if plus >= 0 {
      normalized := normalized[..plus];
    }
    r := NormalizeCut(printer, normalized);
  }

  method NormalizeCut(printer: Printer, text: string) returns (r: Option<string>)
    ensures r == if UnderstandTrimmed(text).Some? then Some(RenderWith(printer, UnderstandTrimmed(text).value)) else None
  {
    var dash := IndexOf(text, '-');
    var core := if dash >= 0 then text[..dash] else text;
    var raw := if dash >= 0 then text[dash + 1..] else "";
    if dash >= 0 && raw == "" {
      return None;
    }
    if raw != "" && !ValidTag(raw) {
      return None;
    }
    var tag := if dash >= 0 then Some(raw) else None;
    var parts := Split(core, '.');
    UnderstoodParts(text, core, parts, tag);
    r := NormalizeParts(printer, parts, tag);
  }

  method NormalizeParts(printer: Printer, parts: seq<string>, tag: Option<string>) returns (r: Option<string>)
    ensures r == if UnderstandCore(parts, tag).Some? then Some(RenderWith(printer, UnderstandCore(parts, tag).value)) else None
  {
    if |parts| < 2 || |parts| > 4 || exists p :: p in parts && !IsNumber(p) {
      return None;
    }
    var numbers := PadAndPop(Printed(printer, Values(parts)));
    var prerelease := if tag.Some? then "-" + Lower(tag.value) else "";
    PrintedCanon(printer, Values(parts));
    RenderedAs(printer, parts, tag, numbers, prerelease);
    return Some(Join(numbers, '.') + prerelease);
  }

  lemma RenderedAs(
    printer: Printer, parts: seq<string>, tag: Option<string>, numbers: seq<string>, prerelease: string)
    requires 2 <= |parts| <= 4 && forall p :: p in parts ==> IsNumber(p)
    requires numbers == Printed(printer, Canon(Values(parts))) && prerelease == if tag.Some? then "-" + Lower(tag.value) else ""
    ensures UnderstandCore(parts, tag).Some?
    ensures RenderWith(printer, UnderstandCore(parts, tag).value) == Join(numbers, '.') + prerelease
  {
  }

  lemma UnderstoodParts(text: string, core: string, parts: seq<string>, tag: Option<string>)
    requires tag.Some? ==> tag.value != "" && ValidTag(tag.value)
    requires tag == var dash := IndexOf(text, '-'); if dash >= 0 then Some(text[dash + 1..]) else None
    requires core == var dash := IndexOf(text, '-'); if dash >= 0 then text[..dash] else text
    requires parts == Split(core, '.')
    ensures UnderstandTrimmed(text) == UnderstandCore(parts, tag)
  {
  }

  // ----- normal forms -----

  predicate WellFormed(p: Parsed) {
    && (|p.numbers| == 3 || (|p.numbers| == 4 && p.numbers[3] != 0))
    && (p.tag.Some? ==> p.tag.value != "" && ValidTag(p.tag.value) && Lower(p.tag.value) == p.tag.value)
  }

  /** What normalization can return, with every number below 2^53, where JavaScript numbers are exact. */
  predicate Exact(p: Parsed) {
    && (forall i :: 0 <= i < |p.numbers| ==> p.numbers[i] < MAX_EXACT)
    && (p.tag.Some? ==> ValidPrerelease(p.tag.value))
  }

  ghost predicate NormalForm(s: string) {
    exists p :: WellFormed(p) && Exact(p) && s == Render(p)
  }

  /** Lower case moves the English capitals, by their code points, and nothing else. */
  lemma LowerIff(s: string, i: nat)
    requires i < |s|
    ensures Lower(s)[i] as int == s[i] as int + if 65 <= s[i] as int <= 90 then 32 else 0
  {
  }

  lemma LowerKeepsChar(c: char)
    ensures var d := Lower([c])[0]; (d == '.' <==> c == '.') && (IsIdentifierChar(c) ==> IsIdentifierChar(d))
  {
  }

  lemma {:induction false} LowerKeepsDots(s: string)
    ensures IndexOf(Lower(s), '.') == IndexOf(s, '.')
  {
    if s != "" {
      assert Lower(s)[1..] == Lower(s[1..]);
      LowerKeepsChar(s[0]);
      LowerKeepsDots(s[1..]);
    }
  }

  lemma LowerTwice(s: string)
    ensures Lower(Lower(s)) == Lower(s)
  {
  }

  lemma LowerKeepsIdentifier(s: string)
    requires IsIdentifier(s)
    ensures IsIdentifier(Lower(s))
  {
  }

  /** A tag is one identifier, or one followed by a dot and a tag. */
  lemma TagUnfolds(tag: string)
    ensures var i := IndexOf(tag, '.');
            ValidTag(tag) <==> if i < 0 then IsIdentifier(tag) else IsIdentifier(tag[..i]) && ValidTag(tag[i + 1..])
  {
    var i := IndexOf(tag, '.');
    var parts := Split(tag, '.');
    if i < 0 {
      assert parts == [tag] && tag in parts;
    } else {
      var rest := Split(tag[i + 1..], '.');
      PartsOf(tag[..i], rest);
      assert parts == [tag[..i]] + rest;
    }
  }

  lemma PartsOf(first: string, rest: seq<string>)
    ensures forall p :: p in [first] + rest <==> p == first || p in rest
  {
  }

  /** A dot, or a character identifiers are spelled with. */
  predicate IsTagChar(c: char) {
    c == '.' || IsIdentifierChar(c)
  }

  /** Spelled with those characters, and every dot between two others that are none. */
  predicate WellDotted(tag: string) {
    && tag != "" && tag[0] != '.' && tag[|tag| - 1] != '.'
    && (forall i :: 0 <= i < |tag| ==> IsTagChar(tag[i]))
    && forall i :: 0 <= i < |tag| - 1 ==> !(tag[i] == '.' && tag[i + 1] == '.')
  }

  lemma WellDottedAt(first: string, rest: string)
    requires '.' !in first
    ensures WellDotted(first + ['.'] + rest) <==> IsIdentifier(first) && WellDotted(rest)
  {
    var tag := first + ['.'] + rest;
    if WellDotted(tag) {
      assert first != "" by {
        assert tag[|first|] == '.';
      }
      forall i | 0 <= i < |first|
        ensures IsIdentifierChar(first[i])
      {
        assert tag[i] == first[i] && IsTagChar(tag[i]);
      }
      RestOfWellDotted(first, rest);
    }
    if IsIdentifier(first) && WellDotted(rest) {
      assert tag[0] == first[0] && tag[|tag| - 1] == rest[|rest| - 1] && tag[|first| + 1] == rest[0];
      forall i | 0 <= i < |tag|
        ensures IsTagChar(tag[i])
      {
        assert i < |first| ==> tag[i] == first[i];
        assert i > |first| ==> tag[i] == rest[i - |first| - 1];
      }
      forall i | 0 <= i < |tag| - 1
        ensures !(tag[i] == '.' && tag[i + 1] == '.')
      {
        assert i < |first| ==> tag[i] == first[i];
        assert i > |first| ==> tag[i] == rest[i - |first| - 1] && tag[i + 1] == rest[i - |first|];
      }
    }
  }

  lemma RestOfWellDotted(first: string, rest: string)
    requires WellDotted(first + ['.'] + rest)
    ensures WellDotted(rest)
  {
    var tag := first + ['.'] + rest;
    assert tag[|first|] == '.';
    assert |tag| == |first| + 1 + |rest|;
    assert rest != "" ==> tag[|first| + 1] == rest[0] && tag[|tag| - 1] == rest[|rest| - 1];
    forall i | 0 <= i < |rest|
      ensures IsTagChar(rest[i])
    {
      assert tag[|first| + 1 + i] == rest[i];
    }
    forall i | 0 <= i < |rest| - 1
      ensures !(rest[i] == '.' && rest[i + 1] == '.')
    {
      assert tag[|first| + 1 + i] == rest[i] && tag[|first| + 2 + i] == rest[i + 1];
    }
  }

  /** A prerelease tag is accepted exactly when it is spelled so. */
  lemma {:induction false} ValidTagIff(tag: string)
    ensures ValidTag(tag) <==> WellDotted(tag)
    decreases |tag|
  {
    TagUnfolds(tag);
    var i := IndexOf(tag, '.');
    if i >= 0 {
      assert tag == tag[..i] + ['.'] + tag[i + 1..];
      ValidTagIff(tag[i + 1..]);
      WellDottedAt(tag[..i], tag[i + 1..]);
    } else {
      assert forall k :: 0 <= k < |tag| ==> tag[k] in tag;
    }
  }

  lemma {:induction false} LowerKeepsTag(tag: string)
    requires ValidTag(tag)
    ensures ValidTag(Lower(tag))
    decreases |tag|
  {
    LowerKeepsDots(tag);
    TagUnfolds(tag);
    TagUnfolds(Lower(tag));
    var i := IndexOf(tag, '.');
    if i < 0 {
      LowerKeepsIdentifier(tag);
    } else {
      LowerKeepsIdentifier(tag[..i]);
      LowerKeepsTag(tag[i + 1..]);
      LowerCut(tag, i);
    }
  }

  lemma LowerCut(tag: string, i: nat)
    requires i < |tag|
    ensures Lower(tag)[..i] == Lower(tag[..i]) && Lower(tag)[i + 1..] == Lower(tag[i + 1..])
  {
  }

  lemma CoreIsWellFormed(parts: seq<string>, tag: Option<string>)
    requires UnderstandCore(parts, tag).Some?
    requires tag.Some? ==> tag.value != "" && ValidTag(tag.value)
    ensures WellFormed(UnderstandCore(parts, tag).value)
  {
    if tag.Some? {
      LowerKeepsTag(tag.value);
      LowerTwice(tag.value);
    }
  }

  lemma TrimmedIsWellFormed(text: string)
    requires UnderstandTrimmed(text).Some?
    ensures WellFormed(UnderstandTrimmed(text).value)
  {
    var dash := IndexOf(text, '-');
    var core := if dash >= 0 then text[..dash] else text;
    CoreIsWellFormed(Split(core, '.'), if dash >= 0 then Some(text[dash + 1..]) else None);
  }

  lemma UnderstoodIsWellFormed(version: string)
    requires Understand(version).Some?
    ensures WellFormed(Understand(version).value)
  {
    var trimmed := Trim(version);
    var plus := IndexOf(trimmed, '+');
    TrimmedIsWellFormed(if plus >= 0 then trimmed[..plus] else trimmed);
  }

  lemma DecimalIsNumber(n: nat)
    ensures IsNumber(Decimal(n)) && Value(Decimal(n)) == n
    ensures forall c :: c in Decimal(n) ==> IsDigit(c)
  {
    DecimalRoundTrip(n);
  }

  lemma TextsReadBack(numbers: seq<nat>)
    ensures forall t :: t in Texts(numbers) ==> IsNumber(t) && '.' !in t
    ensures Values(Texts(numbers)) == numbers
  {
    forall i | 0 <= i < |numbers|
      ensures IsNumber(Texts(numbers)[i]) && '.' !in Texts(numbers)[i]
      ensures Value(Texts(numbers)[i]) == numbers[i]
    {
      DecimalIsNumber(numbers[i]);
    }
  }

  lemma {:induction false} JoinedChars(parts: seq<string>)
    requires parts != [] && forall p :: p in parts ==> IsNumber(p)
    ensures forall c :: c in Join(parts, '.') ==> IsDigit(c) || c == '.'
    ensures Join(parts, '.') != ""
    ensures IsDigit(Join(parts, '.')[0]) && IsDigit(Join(parts, '.')[|Join(parts, '.')| - 1])
  {
    assert parts[0] in parts;
    if |parts| > 1 {
      JoinedChars(parts[1..]);
    }
  }

  lemma {:induction false} TagChars(tag: string)
    requires tag != "" && ValidTag(tag)
    ensures forall c :: c in tag ==> IsIdentifierChar(c) || c == '.'
    decreases |tag|
  {
    TagUnfolds(tag);
    var i := IndexOf(tag, '.');
    if i >= 0 {
      assert tag == tag[..i] + ['.'] + tag[i + 1..];
      if tag[i + 1..] != "" {
        TagChars(tag[i + 1..]);
      }
    }
  }

  lemma CoreReadsBack(p: Parsed)
    requires WellFormed(p)
    ensures UnderstandCore(Texts(p.numbers), p.tag) == Some(p)
  {
    TextsReadBack(p.numbers);
  }

  /** The dash of a rendered version separates its core from its tag. */
  lemma RenderedDash(p: Parsed) returns (core: string)
    requires WellFormed(p)
    ensures core == Join(Texts(p.numbers), '.') && Split(core, '.') == Texts(p.numbers)
    ensures core != "" && forall c :: c in core ==> IsDigit(c) || c == '.'
    ensures IsDigit(core[0]) && IsDigit(core[|core| - 1])
    ensures p.tag.None? ==> Render(p) == core && IndexOf(Render(p), '-') < 0
    ensures p.tag.Some? ==>
              && Render(p) == core + ['-'] + p.tag.value && IndexOf(Render(p), '-') == |core|
              && Render(p)[..|core|] == core && Render(p)[|core| + 1..] == p.tag.value
  {
    var parts := Texts(p.numbers);
    core := Join(parts, '.');
    TextsReadBack(p.numbers);
    JoinedChars(parts);
    SplitJoin(parts, '.');
    RenderedAfter(core, p.tag);
  }

  lemma RenderedAfter(core: string, tag: Option<string>)
    requires '-' !in core
    ensures var text := core + if tag.Some? then "-" + tag.value else "";
            && (tag.None? ==> text == core && IndexOf(text, '-') < 0)
            && (tag.Some? ==>
                  && text == core + ['-'] + tag.value && IndexOf(text, '-') == |core|
                  && text[..|core|] == core && text[|core| + 1..] == tag.value)
  {
    if tag.Some? {
      IndexOfAt(core, '-', tag.value);
      assert core + ("-" + tag.value) == core + ['-'] + tag.value;
    }
  }

  predicate Plain(c: char) {
    IsIdentifierChar(c) || c == '.'
  }

  lemma PlainIsNoSpace(c: char)
    ensures Plain(c) ==> !IsSpace(c) && c != '+'
  {
  }

  lemma RenderedIsPlain(p: Parsed)
    requires WellFormed(p)
    ensures Render(p) != "" && forall i :: 0 <= i < |Render(p)| ==> Plain(Render(p)[i])
  {
    var core := RenderedDash(p);
    var text := Render(p);
    if p.tag.Some? {
      TagChars(p.tag.value);
      forall i | 0 <= i < |text|
        ensures Plain(text[i])
      {
        if i < |core| {
          assert text[i] == core[i];
        } else if i > |core| {
          assert text[i] == p.tag.value[i - |core| - 1];
        }
      }
    }
  }

  lemma RenderedEnds(p: Parsed)
    requires WellFormed(p)
    ensures var text := Render(p);
            text != "" && '+' !in text && !IsSpace(text[0]) && !IsSpace(text[|text| - 1])
  {
    RenderedIsPlain(p);
    var text := Render(p);
    forall i | 0 <= i < |text|
      ensures text[i] != '+' && !IsSpace(text[i])
    {
      PlainIsNoSpace(text[i]);
    }
  }

  lemma RenderedReadsTrimmed(p: Parsed)
    requires WellFormed(p)
    ensures UnderstandTrimmed(Render(p)) == Some(p)
  {
    var core := RenderedDash(p);
    CoreReadsBack(p);
  }

  /** Reading back what was written gives the same version. */
  lemma RenderReadsBack(p: Parsed)
    requires WellFormed(p)
    ensures Understand(Render(p)) == Some(p)
  {
    RenderedEnds(p);
    TrimNothing(Render(p));
    RenderedReadsTrimmed(p);
  }

  /** Normalizing twice is normalizing once. */
  lemma NormalizeIsIdempotent(printer: Printer, version: string)
    requires Understand(version).Some? ==> Exact(Understand(version).value)
    ensures Normalize(printer, version).Some? ==>
              && NormalForm(Normalize(printer, version).value)
              && Normalize(printer, Normalize(printer, version).value) == Normalize(printer, version)
  {
    if Understand(version).Some? {
      UnderstoodIsWellFormed(version);
      RenderReadsBack(Understand(version).value);
      ExactIsRendered(printer, Understand(version).value);
    }
  }

  /** The normal forms are exactly the texts with exact numbers that normalization leaves as they are. */
  lemma NormalFormsAreFixed(printer: Printer, s: string)
    ensures NormalForm(s) <==> Normalize(printer, s) == Some(s) && Exact(Understand(s).value)
  {
    if p :| WellFormed(p) && Exact(p) && s == Render(p) {
      RenderReadsBack(p);
      ExactIsRendered(printer, p);
    }
    if Normalize(printer, s) == Some(s) && Exact(Understand(s).value) {
      UnderstoodIsWellFormed(s);
      ExactIsRendered(printer, Understand(s).value);
    }
  }

  // ----- what a written version means -----

  /** Two to four numbers, perhaps a prerelease, perhaps build metadata. */
  function WrittenOut(parts: seq<string>, tag: Option<string>, build: Option<string>): string {
    Join(parts, '.') + (if tag.Some? then "-" + tag.value else "") + (if build.Some? then "+" + build.value else "")
  }

  predicate AllNumbers(parts: seq<string>) {
    forall i :: 0 <= i < |parts| ==> parts[i] != "" && AllDigits(parts[i])
  }

  lemma {:induction false} NumbersJoined(parts: seq<string>, c: char)
    requires !IsDigit(c) && c != '.' && AllNumbers(parts)
    ensures c !in Join(parts, '.')
  {
    if |parts| > 1 {
      NumbersJoined(parts[1..], c);
    }
  }

  /** The front of a text, up to a mark it has none of before. */
  lemma CutAt(front: string, c: char, back: Option<string>)
    requires c !in front
    ensures var s := front + if back.Some? then [c] + back.value else "";
            var i := IndexOf(s, c);
            && (if back.None? then i < 0 && s == front else i == |front| && s[..i] == front && s[i + 1..] == back.value)
  {
    if back.Some? {
      IndexOfAt(front, c, back.value);
      assert front + ([c] + back.value) == front + [c] + back.value;
    }
  }

  lemma PartsSplit(parts: seq<string>)
    requires parts != [] && AllNumbers(parts)
    ensures Split(Join(parts, '.'), '.') == parts && forall p :: p in parts ==> IsNumber(p)
  {
    forall p | p in parts
      ensures '.' !in p && IsNumber(p)
    {
      var i :| 0 <= i < |parts| && parts[i] == p;
    }
    SplitJoin(parts, '.');
  }

  lemma CoreUnderstood(parts: seq<string>, tag: Option<string>)
    requires 2 <= |parts| <= 4 && forall p :: p in parts ==> IsNumber(p)
    ensures UnderstandCore(parts, tag).Some?
    ensures var p := UnderstandCore(parts, tag).value;
            p.numbers == Canon(Values(parts)) && p.tag == if tag.Some? then Some(Lower(tag.value)) else None
  {
  }

  lemma WrittenCore(parts: seq<string>, tag: Option<string>)
    requires 2 <= |parts| <= 4 && AllNumbers(parts)
    requires tag.Some? ==> tag.value != "" && ValidTag(tag.value)
    ensures UnderstandTrimmed(Join(parts, '.') + if tag.Some? then "-" + tag.value else "") == UnderstandCore(parts, tag)
  {
    NumbersJoined(parts, '-');
    PartsSplit(parts);
    CutAt(Join(parts, '.'), '-', tag);
    UnderstoodParts(Join(parts, '.') + (if tag.Some? then "-" + tag.value else ""), Join(parts, '.'), parts, tag);
  }

  lemma CanonOf(parts: seq<string>)
    requires 2 <= |parts| <= 4 && AllNumbers(parts) && forall p :: p in parts ==> IsNumber(p)
    ensures var numbers := Canon(Values(parts));
            && |numbers| == (if |parts| == 4 && Value(parts[3]) != 0 then 4 else 3)
            && forall i :: 0 <= i < |numbers| ==> numbers[i] == if i < |parts| then Value(parts[i]) else 0
  {
  }

  lemma BuildIsCut(text: string, build: Option<string>)
    requires '+' !in text
    ensures var whole := text + if build.Some? then "+" + build.value else "";
            Trim(whole) == whole != "" ==> Understand(whole) == UnderstandTrimmed(text)
  {
    CutAt(text, '+', build);
  }

  /**
   A written version means its numbers, three of them unless there is a fourth that is not zero, and
   its tag in lower case; build metadata plays no part.
   */
  lemma WrittenIsUnderstood(parts: seq<string>, tag: Option<string>, build: Option<string>)
    requires 2 <= |parts| <= 4 && AllNumbers(parts)
    requires tag.Some? ==> tag.value != "" && ValidTag(tag.value) && '+' !in tag.value
    requires Trim(WrittenOut(parts, tag, build)) == WrittenOut(parts, tag, build) != ""
    ensures Understand(WrittenOut(parts, tag, build)).Some?
    ensures var p := Understand(WrittenOut(parts, tag, build)).value;
            && (forall i :: 0 <= i < |p.numbers| ==> p.numbers[i] == if i < |parts| then Value(parts[i]) else 0)
            && |p.numbers| == (if |parts| == 4 && Value(parts[3]) != 0 then 4 else 3)
            && p.tag == if tag.Some? then Some(Lower(tag.value)) else None
  {
    NumbersJoined(parts, '+');
    PartsSplit(parts);
    WrittenCore(parts, tag);
    CoreUnderstood(parts, tag);
    CanonOf(parts);
    BuildIsCut(Join(parts, '.') + (if tag.Some? then "-" + tag.value else ""), build);
  }

  // ----- order of normal forms -----

  function ToVersionOf(p: Parsed): Version {
    Version(p.numbers, if p.tag.Some? then Some(Identifiers(p.tag.value)) else None)
  }

  /** `splitVersion`, on text whose core parts are numbers. */
  predicate Splittable(s: string) {
    var dash := IndexOf(s, '-');
    && (forall part :: part in Split(if dash >= 0 then s[..dash] else s, '.') ==> IsNumber(part))
    && (dash >= 0 ==> s[dash + 1..] != "")
  }

  function SplitOf(s: string): (r: SplitVersion)
    requires Splittable(s)
    ensures r.prerelease != Some("")
  {
    var dash := IndexOf(s, '-');
    var parts := Split(if dash >= 0 then s[..dash] else s, '.');
    SplitVersion(Values(parts), if dash >= 0 then Some(s[dash + 1..]) else None)
  }

  lemma SplitOfRendered(p: Parsed)
    requires WellFormed(p)
    ensures Splittable(Render(p)) && SplitOf(Render(p)) == SplitVersion(p.numbers, p.tag)
  {
    var core := RenderedDash(p);
    TextsReadBack(p.numbers);
  }

  lemma NormalFormSplits(s: string)
    requires NormalForm(s)
    ensures Splittable(s)
  {
    var p :| WellFormed(p) && Exact(p) && s == Render(p);
    SplitOfRendered(p);
  }

  method CompareChocolateyVersions(a: string, b: string) returns (r: int)
    requires NormalForm(a) && NormalForm(b)
    ensures Splittable(a) && Splittable(b)
    ensures Sign(r) == Sign(CompareVersions(ToVersion(SplitOf(a)), ToVersion(SplitOf(b))))
    ensures r == 0 <==> a == b
  {
    NormalFormSplits(a);
    NormalFormSplits(b);
    var pa, pb := SplitOf(a), SplitOf(b);
    var parts := if |pa.core| > |pb.core| then |pa.core| else |pb.core|;
    r := CompareSplit(pa, pb, parts);
    ghost var p :| WellFormed(p) && Exact(p) && a == Render(p);
    ghost var q :| WellFormed(q) && Exact(q) && b == Render(q);
    SplitOfRendered(p);
    SplitOfRendered(q);
    EqualRankIsEqual(p, q);
  }

  lemma {:induction false} EqualNumbers(xs: seq<nat>, ys: seq<nat>)
    requires CompareNumbers(xs, ys) == 0
    requires |xs| <= |ys| && (|xs| < |ys| ==> |ys| == 0 || ys[|ys| - 1] != 0)
    ensures xs == ys
    decreases |ys|
  {
    if ys != [] {
      EqualNumbers(Tail(xs), Tail(ys));
      if xs != [] {
        assert xs == [xs[0]] + Tail(xs) && ys == [ys[0]] + Tail(ys);
      }
    }
  }

  /** On normal forms only equal versions rank equal, so the order is total, not just a preorder. */
  lemma EqualRankIsEqual(p: Parsed, q: Parsed)
    requires WellFormed(p) && WellFormed(q)
    ensures CompareVersions(ToVersionOf(p), ToVersionOf(q)) == 0 <==> p == q
    ensures ToVersionOf(p) == ToVersion(SplitVersion(p.numbers, p.tag))
    ensures ToVersionOf(q) == ToVersion(SplitVersion(q.numbers, q.tag))
  {
    VersionsFlip(ToVersionOf(p), ToVersionOf(p));
    if CompareVersions(ToVersionOf(p), ToVersionOf(q)) == 0 {
      NumbersFlip(p.numbers, q.numbers);
      if |p.numbers| <= |q.numbers| {
        EqualNumbers(p.numbers, q.numbers);
      } else {
        EqualNumbers(q.numbers, p.numbers);
      }
      if p.tag.Some? && q.tag.Some? {
        IdentifiersEqual(Identifiers(p.tag.value), Identifiers(q.tag.value));
        IdentifiersInjective(p.tag.value, q.tag.value);
      }
    }
  }

  /** Distinct normal forms are distinct versions. */
  lemma RenderInjective(p: Parsed, q: Parsed)
    requires WellFormed(p) && WellFormed(q) && Render(p) == Render(q)
    ensures p == q
  {
    RenderReadsBack(p);
    RenderReadsBack(q);
  }
}
