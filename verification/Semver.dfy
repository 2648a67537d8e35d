/** The Ansible registry's SemVer order and its choice of the highest version. */
module Semver {
  import opened Options
  import opened Orders
  import opened Digits
  import opened Text
  import opened Precedence

  /** The text split at its build and prerelease marks. */
  datatype Pieces = Pieces(core: seq<string>, prerelease: Option<string>)

  function PiecesOf(version: string): Pieces {
    var plus := IndexOf(version, '+');
    var withoutBuild := if plus >= 0 then version[..plus] else version;
    var dash := IndexOf(withoutBuild, '-');
    if dash >= 0
    then Pieces(Split(withoutBuild[..dash], '.'), Some(withoutBuild[dash + 1..]))
    else Pieces(Split(withoutBuild, '.'), None)
  }

  predicate IsCorePart(part: string) {
    Canonical(part) && Value(part) < MAX_EXACT
  }

  predicate ValidPieces(p: Pieces) {
    && |p.core| == 3
    && (forall part :: part in p.core ==> IsCorePart(part))
    && (p.prerelease.Some? ==> p.prerelease.value != "" && ValidPrerelease(p.prerelease.value))
  }

  /** What publishing accepts, with every number exact: three numeric parts and a well-formed prerelease. */
  predicate ValidSemver(version: string) {
    ValidPieces(PiecesOf(version))
  }

  function Numbers(core: seq<string>): (r: seq<nat>)
    requires forall part :: part in core ==> IsCorePart(part)
    ensures |r| == |core|
  {
    seq(|core|, i requires 0 <= i < |core| => (assert IsCorePart(core[i]); Value(core[i])))
  }

  function SplitSemver(version: string): (s: SplitVersion)
    requires ValidSemver(version)
    ensures |s.core| == 3 && s.prerelease != Some("")
  {
    var p := PiecesOf(version);
    SplitVersion(Numbers(p.core), p.prerelease)
  }

  /** What a version text means for precedence; build metadata plays no part. */
  function Parse(version: string): Version
    requires ValidSemver(version)
  {
    ToVersion(SplitSemver(version))
  }

  method CompareSemver(a: string, b: string) returns (r: int)
    requires ValidSemver(a) && ValidSemver(b)
    ensures Sign(r) == Sign(CompareVersions(Parse(a), Parse(b)))
  {
    r := CompareSplit(SplitSemver(a), SplitSemver(b), 3);
  }

  // ----- what a written version means -----

  /** A version as it is written: three numbers, perhaps a prerelease, perhaps build metadata. */
  function Written(numbers: seq<nat>, tag: Option<string>, build: Option<string>): string {
    Core(numbers) + (if tag.Some? then "-" + tag.value else "") + (if build.Some? then "+" + build.value else "")
  }

  function Core(numbers: seq<nat>): string {
    Join(Printed(numbers), '.')
  }

  function Printed(numbers: seq<nat>): (parts: seq<string>)
    ensures |parts| == |numbers| && forall i :: 0 <= i < |parts| ==> parts[i] == Decimal(numbers[i])
  {
    seq(|numbers|, i requires 0 <= i < |numbers| => Decimal(numbers[i]))
  }

  lemma {:induction false} JoinedDigits(parts: seq<string>, c: char)
    requires !IsDigit(c) && c != '.' && forall i :: 0 <= i < |parts| ==> AllDigits(parts[i])
    ensures c !in Join(parts, '.')
  {
    if |parts| > 1 {
      JoinedDigits(parts[1..], c);
    }
  }

  lemma CoreReads(numbers: seq<nat>)
    requires numbers != []
    ensures Split(Core(numbers), '.') == Printed(numbers)
    ensures '-' !in Core(numbers) && '+' !in Core(numbers)
  {
    var parts := Printed(numbers);
    JoinedDigits(parts, '-');
    JoinedDigits(parts, '+');
    forall p | p in parts
      ensures '.' !in p
    {
      assert AllDigits(p);
    }
    SplitJoin(parts, '.');
  }

  /** The front of a text, up to a mark it has none of before. */
  lemma CutAt(front: string, c: char, back: Option<string>)
    requires c !in front
    ensures var s := front + if back.Some? then [c] + back.value else "";
            var i := IndexOf(s, c);
            && (if back.None? then i < 0 && s == front else i == |front| && s[..i] == front && s[i + 1..] == back.value)
  {
    if back.Some? {
      IndexOfAt(front, c, back.value);
      assert front + ([c] + back.value) == front + [c] + back.value;
    }
  }

  lemma WrittenPieces(numbers: seq<nat>, tag: Option<string>, build: Option<string>)
    requires numbers != [] && (tag.Some? ==> '+' !in tag.value)
    ensures PiecesOf(Written(numbers, tag, build)) == Pieces(Printed(numbers), tag)
  {
    CoreReads(numbers);
    CutAt(Core(numbers), '-', tag);
    CutAt(Core(numbers) + (if tag.Some? then "-" + tag.value else ""), '+', build);
  }

  /**
   A written version is valid exactly when its numbers are exact and its tag is well formed; it then
   means its numbers and the identifiers of its tag, whatever the build metadata.
   */
  lemma WrittenIsRead(numbers: seq<nat>, tag: Option<string>, build: Option<string>)
    requires |numbers| == 3 && (tag.Some? ==> '+' !in tag.value)
    ensures ValidSemver(Written(numbers, tag, build)) <==>
            && (forall i :: 0 <= i < 3 ==> numbers[i] < MAX_EXACT)
            && (tag.Some? ==> tag.value != "" && ValidPrerelease(tag.value))
    ensures ValidSemver(Written(numbers, tag, build)) ==>
              Parse(Written(numbers, tag, build)) ==
              Version(numbers, if tag.Some? then Some(Identifiers(tag.value)) else None)
    ensures IsPrerelease(Written(numbers, tag, build)) <==> tag.Some?
  {
    WrittenPieces(numbers, tag, build);
    var parts := Printed(numbers);
    forall i | 0 <= i < 3
      ensures parts[i] in parts && (IsCorePart(parts[i]) <==> numbers[i] < MAX_EXACT) && Value(parts[i]) == numbers[i]
    {
      DecimalRoundTrip(numbers[i]);
    }
    if ValidSemver(Written(numbers, tag, build)) {
      assert Numbers(parts) == numbers;
    }
  }

  // ----- the highest version -----

  /** A published version: its text, and whatever was published with it. */
  datatype Stored = Stored(version: string, metadata: string)

  ghost predicate AllValid(versions: seq<Stored>) {
    forall v :: v in versions ==> ValidSemver(v.version)
  }

  /** What the text means; publishing stores no text without a meaning. */
  function Meaning(v: Stored): Version {
    if ValidSemver(v.version) then Parse(v.version) else Version([], None)
  }

  predicate IsPrerelease(version: string) {
    PiecesOf(version).prerelease.Some?
  }

  function BySemver(): Comparer<Stored> {
    (a: Stored, b: Stored) => CompareVersions(Meaning(a), Meaning(b))
  }

  lemma BySemverIsTotalPreorder()
    ensures TotalPreorder(BySemver())
  {
    VersionsTotalPreorder();
    forall a: Stored, b: Stored
      ensures Sign(BySemver()(a, b)) == -Sign(BySemver()(b, a))
    {
      VersionsFlip(Meaning(a), Meaning(b));
    }
  }

  function IsStable(): Stored -> bool {
    (v: Stored) => !IsPrerelease(v.version)
  }

  /** Sort by the comparison of texts, keep the stable ones unless there are none, take the last. */
  function HighestVersion(versions: seq<Stored>): Option<Stored> {
    if versions == [] then None else Some(LastOfPool(BySemver(), IsStable(), versions))
  }

  lemma ComparesTexts(a: Stored, b: Stored)
    requires ValidSemver(a.version) && ValidSemver(b.version)
    ensures BySemver()(a, b) == CompareVersions(Parse(a.version), Parse(b.version))
  {
  }

  lemma StableIs(v: Stored)
    ensures IsStable()(v) <==> !IsPrerelease(v.version)
  {
  }

  /**
   The highest of valid version texts is one of them, stable if any is, and none of its kind
   outranks it in the order `CompareSemver` computes.
   */
  lemma HighestVersionIsMaximal(versions: seq<Stored>)
    requires versions != [] && AllValid(versions)
    ensures HighestVersion(versions).Some?
    ensures var h := HighestVersion(versions).value;
            && h in versions
            && (IsPrerelease(h.version) <==> forall v :: v in versions ==> IsPrerelease(v.version))
            && forall v :: v in versions && IsPrerelease(v.version) == IsPrerelease(h.version) ==>
                 CompareVersions(Parse(v.version), Parse(h.version)) <= 0
  {
    BySemverIsTotalPreorder();
    LastOfPoolIsBest(BySemver(), IsStable(), versions);
    var h := HighestVersion(versions).value;
    forall v
      ensures IsStable()(v) <==> !IsPrerelease(v.version)
    {
      StableIs(v);
    }
    forall v | v in versions && IsPrerelease(v.version) == IsPrerelease(h.version)
      ensures CompareVersions(Parse(v.version), Parse(h.version)) <= 0
    {
      ComparesTexts(v, h);
    }
  }
}
