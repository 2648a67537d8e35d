module Precedence {
  // Version precedence: numeric core, then prerelease tag identifier by identifier. The Ansible and
  // Chocolatey registries carry the same code for it, modelled once here.

  import opened Options
  import opened Orders
  import opened Digits
  import opened Text

  /** Numbers are exact in JavaScript below this bound. */
  const MAX_EXACT := 0x20_0000_0000_0000

  datatype Identifier = Number(value: nat) | Word(text: string)

  predicate IsIdentifierChar(c: char) {
    IsDigit(c) || 'a' <= c <= 'z' || 'A' <= c <= 'Z' || c == '-'
  }

  /** Identifiers are spelled with English letters, digits and dashes, by their code points. */
  lemma IdentifierCharIff(c: char)
    ensures IsIdentifierChar(c) <==>
            c as int == 45 || 48 <= c as int <= 57 || 65 <= c as int <= 90 || 97 <= c as int <= 122
  {
  }

  predicate IsIdentifier(s: string) {
    s != "" && forall i :: 0 <= i < |s| ==> IsIdentifierChar(s[i])
  }

  /** A tag every part of which is a nonempty identifier and whose numbers are exact. */
  predicate ValidPrerelease(tag: string) {
    forall part :: part in Split(tag, '.') ==> IsIdentifier(part) && (Canonical(part) ==> Value(part) < MAX_EXACT)
  }

  /** Digits without leading zeros are a number; anything else is a word. */
  function ToIdentifier(part: string): Identifier {
    if Canonical(part) then Number(Value(part)) else Word(part)
  }

  function ToIdentifiers(parts: seq<string>): (ids: seq<Identifier>)
    ensures |ids| == |parts| && forall i :: 0 <= i < |ids| ==> ids[i] == ToIdentifier(parts[i])
  {
    seq(|parts|, i requires 0 <= i < |parts| => ToIdentifier(parts[i]))
  }

  function Identifiers(tag: string): seq<Identifier> {
    ToIdentifiers(Split(tag, '.'))
  }

  // ----- precedence of identifiers: section 11.4 of Semantic Versioning 2.0.0 -----

  function CompareIdentifier(x: Identifier, y: Identifier): int {
    match (x, y)
    case (Number(m), Number(n)) => Sign(m - n)
    case (Number(_), Word(_)) => -1
    case (Word(_), Number(_)) => 1
    case (Word(s), Word(t)) => CompareText(s, t)
  }

  /** The first difference decides; with none, the longer list is higher. */
  function CompareIdentifiers(xs: seq<Identifier>, ys: seq<Identifier>): int {
    if xs == [] && ys == [] then 0
    else if xs == [] then -1
    else if ys == [] then 1
    else
      var first := CompareIdentifier(xs[0], ys[0]);
      if first != 0 then first else CompareIdentifiers(xs[1..], ys[1..])
  }

  lemma {:induction false} IdentifiersFlip(xs: seq<Identifier>, ys: seq<Identifier>)
    ensures CompareIdentifiers(xs, ys) == -CompareIdentifiers(ys, xs)
  {
    if xs != [] && ys != [] {
      if xs[0].Word? && ys[0].Word? {
        TextFlips(xs[0].text, ys[0].text);
      }
      IdentifiersFlip(xs[1..], ys[1..]);
    }
  }

  lemma IdentifierTransitive(x: Identifier, y: Identifier, z: Identifier)
    requires CompareIdentifier(x, y) <= 0 && CompareIdentifier(y, z) <= 0
    ensures CompareIdentifier(x, z) <= 0
    ensures CompareIdentifier(x, z) == 0 ==> x == y == z
  {
    if x.Word? && y.Word? && z.Word? {
      TextTransitive(x.text, y.text, z.text);
      TextFlips(y.text, z.text);
      if x.text == z.text {
        TextFlips(x.text, y.text);
      }
    }
  }

  lemma {:induction false} IdentifiersTransitive(xs: seq<Identifier>, ys: seq<Identifier>, zs: seq<Identifier>)
    requires CompareIdentifiers(xs, ys) <= 0 && CompareIdentifiers(ys, zs) <= 0
    ensures CompareIdentifiers(xs, zs) <= 0
    decreases |xs|
  {
    if xs != [] && ys != [] && zs != [] {
      IdentifierTransitive(xs[0], ys[0], zs[0]);
      if CompareIdentifier(xs[0], zs[0]) == 0 {
        IdentifiersTransitive(xs[1..], ys[1..], zs[1..]);
      }
    }
  }

  lemma {:induction false} IdentifiersEqual(xs: seq<Identifier>, ys: seq<Identifier>)
    requires CompareIdentifiers(xs, ys) == 0
    ensures xs == ys
  {
    if xs != [] && ys != [] {
      IdentifiersEqual(xs[1..], ys[1..]);
      assert xs == [xs[0]] + xs[1..] && ys == [ys[0]] + ys[1..];
    }
  }

  /** Tags with equal identifiers are the same text. */
  lemma IdentifiersInjective(s: string, t: string)
    requires Identifiers(s) == Identifiers(t)
    ensures s == t
  {
    var xs, ys := Split(s, '.'), Split(t, '.');
    assert |xs| == |Identifiers(s)| == |ys|;
    forall i | 0 <= i < |xs|
      ensures xs[i] == ys[i]
    {
      assert ToIdentifier(xs[i]) == Identifiers(s)[i] == ToIdentifier(ys[i]);
      if Canonical(xs[i]) {
        CanonicalIsPrinted(xs[i]);
        CanonicalIsPrinted(ys[i]);
      }
    }
    assert xs == ys;
    JoinSplit(s, '.');
    JoinSplit(t, '.');
  }

  lemma NextIdentifier(xs: seq<Identifier>, ys: seq<Identifier>, i: nat)
    requires i < |xs| && i < |ys|
    ensures CompareIdentifiers(xs[i..], ys[i..]) ==
            var first := CompareIdentifier(xs[i], ys[i]);
            if first != 0 then first else CompareIdentifiers(xs[i + 1..], ys[i + 1..])
  {
    assert xs[i..][1..] == xs[i + 1..] && ys[i..][1..] == ys[i + 1..];
  }

  /** The counter loop of the source; a positive, zero or negative difference. */
  method ComparePrerelease(a: string, b: string) returns (r: int)
    ensures Sign(r) == Sign(CompareIdentifiers(Identifiers(a), Identifiers(b)))
  {
    var aa, bb := Split(a, '.'), Split(b, '.');
    ghost var xs, ys := Identifiers(a), Identifiers(b);
    var max := if |aa| > |bb| then |aa| else |bb|;
    assert xs[0..] == xs && ys[0..] == ys;
    for i := 0 to max
      invariant i <= |aa| && i <= |bb|
      invariant CompareIdentifiers(xs, ys) == CompareIdentifiers(xs[i..], ys[i..])
    {
      if i >= |aa| {
        return -1;
      }
      if i >= |bb| {
        return 1;
      }
      var x, y := aa[i], bb[i];
      NextIdentifier(xs, ys, i);
      var xNumber, yNumber := Canonical(x), Canonical(y);
      if xNumber && yNumber {
        var diff := Value(x) - Value(y);
        if diff != 0 {
          return diff;
        }
      } else if xNumber != yNumber {
        return if xNumber then -1 else 1;
      } else if x != y {
        return CompareText(x, y);
      }
    }
    return 0;
  }

  // ----- whole versions: sections 11.2 and 11.3 -----

  /** The numbers of the core, and the prerelease identifiers if there are any. */
  datatype Version = Version(core: seq<nat>, prerelease: Option<seq<Identifier>>)

  function Head(xs: seq<nat>): nat {
    if xs == [] then 0 else xs[0]
  }

  function Tail(xs: seq<nat>): seq<nat> {
    if xs == [] then [] else xs[1..]
  }

  /** Left to right, a missing number counting as zero. */
  function CompareNumbers(xs: seq<nat>, ys: seq<nat>): int
    decreases |xs| + |ys|
  {
    if xs == [] && ys == [] then 0
    else if Head(xs) != Head(ys) then Sign(Head(xs) - Head(ys))
    else CompareNumbers(Tail(xs), Tail(ys))
  }

  /** A release outranks its own prereleases. */
  function ComparePre(a: Option<seq<Identifier>>, b: Option<seq<Identifier>>): int {
    match (a, b)
    case (None, None) => 0
    case (None, Some(_)) => 1
    case (Some(_), None) => -1
    case (Some(xs), Some(ys)) => CompareIdentifiers(xs, ys)
  }

  function CompareVersions(a: Version, b: Version): int {
    var core := CompareNumbers(a.core, b.core);
    if core != 0 then core else ComparePre(a.prerelease, b.prerelease)
  }

  // ----- the rules of section 11, one by one -----

  function NumberAt(xs: seq<nat>, i: nat): nat {
    if i < |xs| then xs[i] else 0
  }

  lemma {:induction false} FirstDifference(xs: seq<nat>, ys: seq<nat>, k: nat)
    requires forall i :: 0 <= i < k ==> NumberAt(xs, i) == NumberAt(ys, i)
    requires NumberAt(xs, k) < NumberAt(ys, k)
    ensures CompareNumbers(xs, ys) == -1 && CompareNumbers(ys, xs) == 1
    decreases k
  {
    assert Head(xs) == NumberAt(xs, 0) && Head(ys) == NumberAt(ys, 0);
    if k > 0 {
      forall i | 0 <= i < k - 1
        ensures NumberAt(Tail(xs), i) == NumberAt(Tail(ys), i)
      {
        assert NumberAt(xs, i + 1) == NumberAt(ys, i + 1);
      }
      FirstDifference(Tail(xs), Tail(ys), k - 1);
    }
  }

  /** Rule 2: the first different number decides, whatever the tags; and rule 3: a release is above its prereleases. */
  lemma CoreThenRelease(xs: seq<nat>, ys: seq<nat>, k: nat, p: Option<seq<Identifier>>, q: Option<seq<Identifier>>)
    requires forall i :: 0 <= i < k ==> NumberAt(xs, i) == NumberAt(ys, i)
    requires NumberAt(xs, k) < NumberAt(ys, k)
    ensures CompareVersions(Version(xs, p), Version(ys, q)) == -1
    ensures p.Some? ==> CompareVersions(Version(xs, p), Version(xs, None)) == -1
  {
    FirstDifference(xs, ys, k);
    NumbersFlip(xs, xs);
  }

  /** Rule 4: behind equal identifiers the first different one decides, and with none the longer list is higher. */
  lemma {:induction false} IdentifiersDecide(
    front: seq<Identifier>, x: Identifier, y: Identifier, xs: seq<Identifier>, ys: seq<Identifier>)
    ensures CompareIdentifier(x, y) != 0 ==>
              CompareIdentifiers(front + [x] + xs, front + [y] + ys) == CompareIdentifier(x, y)
    ensures CompareIdentifiers(front, front + [x] + xs) == -1
  {
    var a, b := front + [x] + xs, front + [y] + ys;
    if front == [] {
      assert a[0] == x && b[0] == y;
    } else {
      assert a[1..] == front[1..] + [x] + xs && b[1..] == front[1..] + [y] + ys;
      assert a[0] == front[0] == b[0];
      IdentifiersDecide(front[1..], x, y, xs, ys);
      SameIdentifier(front[0]);
    }
  }

  lemma SameIdentifier(x: Identifier)
    ensures CompareIdentifier(x, x) == 0
  {
    if x.Word? {
      TextFlips(x.text, x.text);
    }
  }

  /** Numbers compare by value and are below words; words compare by their characters. */
  lemma IdentifierOrder(m: nat, n: nat, front: string, c: char, d: char, s: string, t: string)
    ensures m < n ==> CompareIdentifier(Number(m), Number(n)) == -1 && CompareIdentifier(Number(n), Number(m)) == 1
    ensures CompareIdentifier(Number(m), Word(s)) == -1 && CompareIdentifier(Word(s), Number(m)) == 1
    ensures c < d ==> CompareIdentifier(Word(front + [c] + s), Word(front + [d] + t)) == -1
    ensures CompareIdentifier(Word(front), Word(front + [c] + s)) == -1
  {
    TextDecides(front, c, d, s, t);
  }

  lemma {:induction false} NumbersFlip(xs: seq<nat>, ys: seq<nat>)
    ensures CompareNumbers(xs, ys) == -CompareNumbers(ys, xs)
    decreases |xs| + |ys|
  {
    if xs != [] || ys != [] {
      NumbersFlip(Tail(xs), Tail(ys));
    }
  }

  lemma {:induction false} NumbersTransitive(xs: seq<nat>, ys: seq<nat>, zs: seq<nat>)
    requires CompareNumbers(xs, ys) <= 0 && CompareNumbers(ys, zs) <= 0
    ensures CompareNumbers(xs, zs) <= 0
    ensures CompareNumbers(xs, zs) == 0 ==> CompareNumbers(xs, ys) == 0 && CompareNumbers(ys, zs) == 0
    decreases |xs| + |ys| + |zs|
  {
    if Head(xs) == Head(ys) == Head(zs) && (xs != [] || ys != [] || zs != []) {
      NumbersTransitive(Tail(xs), Tail(ys), Tail(zs));
    }
  }

  lemma VersionsFlip(a: Version, b: Version)
    ensures CompareVersions(a, b) == -CompareVersions(b, a)
  {
    NumbersFlip(a.core, b.core);
    if a.prerelease.Some? && b.prerelease.Some? {
      IdentifiersFlip(a.prerelease.value, b.prerelease.value);
    }
  }

  lemma VersionsTransitive(a: Version, b: Version, c: Version)
    requires CompareVersions(a, b) <= 0 && CompareVersions(b, c) <= 0
    ensures CompareVersions(a, c) <= 0
  {
    NumbersTransitive(a.core, b.core, c.core);
    if CompareNumbers(a.core, c.core) == 0 && a.prerelease.Some? && b.prerelease.Some? && c.prerelease.Some? {
      IdentifiersTransitive(a.prerelease.value, b.prerelease.value, c.prerelease.value);
    }
  }

  lemma VersionsTotalPreorder()
    ensures TotalPreorder(CompareVersions)
  {
    forall a, b
      ensures Sign(CompareVersions(a, b)) == -Sign(CompareVersions(b, a))
    {
      VersionsFlip(a, b);
    }
    forall a, b, c | CompareVersions(a, b) <= 0 && CompareVersions(b, c) <= 0
      ensures CompareVersions(a, c) <= 0
    {
      VersionsTransitive(a, b, c);
    }
  }

  function From(xs: seq<nat>, i: nat): seq<nat> {
    if i <= |xs| then xs[i..] else []
  }

  /** The counter loop over the core: the first difference, a missing number counting as zero. */
  method CompareCore(xs: seq<nat>, ys: seq<nat>, n: nat) returns (r: int)
    requires |xs| <= n && |ys| <= n
    ensures Sign(r) == CompareNumbers(xs, ys)
  {
    assert From(xs, 0) == xs && From(ys, 0) == ys;
    for i := 0 to n
      invariant CompareNumbers(xs, ys) == CompareNumbers(From(xs, i), From(ys, i))
    {
      assert Tail(From(xs, i)) == From(xs, i + 1) && Tail(From(ys, i)) == From(ys, i + 1);
      var x: int := if i < |xs| then xs[i] else 0;
      var y: int := if i < |ys| then ys[i] else 0;
      r := x - y;
      if r != 0 {
        return;
      }
    }
    return 0;
  }

  /** A version as the code splits it: the numbers, and the text after the first dash. */
  datatype SplitVersion = SplitVersion(core: seq<nat>, prerelease: Option<string>)

  function ToVersion(s: SplitVersion): Version {
    Version(s.core, if s.prerelease.Some? then Some(Identifiers(s.prerelease.value)) else None)
  }

  /** The comparison both registries make, given how many core parts to look at. An empty tag counts as none. */
  method CompareSplit(pa: SplitVersion, pb: SplitVersion, parts: nat) returns (r: int)
    requires |pa.core| <= parts && |pb.core| <= parts
    requires pa.prerelease != Some("") && pb.prerelease != Some("")
    ensures Sign(r) == Sign(CompareVersions(ToVersion(pa), ToVersion(pb)))
  {
    r := CompareCore(pa.core, pb.core, parts);
    if r != 0 {
      return;
    }
    if pa.prerelease.None? && pb.prerelease.Some? {
      return 1;
    }
    if pa.prerelease.Some? && pb.prerelease.None? {
      return -1;
    }
    if pa.prerelease.Some? && pb.prerelease.Some? {
      r := ComparePrerelease(pa.prerelease.value, pb.prerelease.value);
      return;
    }
    return 0;
  }
}
