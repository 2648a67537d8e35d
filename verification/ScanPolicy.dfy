/** Findings, their deduplication, the gating-coverage check and the policy decision of a scan. */
module ScanPolicy {
  import opened Options
  import opened Dedupe
  import Text

  datatype FindingType = Vuln | License | Secret | Malware

  datatype Severity = Unknown | Negligible | Low | Medium | High | Critical

  datatype Finding = Finding(
    kind: FindingType,
    vulnId: Option<string>,
    title: Option<string>,
    purl: Option<string>,
    packageName: Option<string>,
    severity: Severity,
    cvss: Option<real>)

  datatype Mode = Audit | Enforce

  /** A policy row; an absent field falls back to the default the code names. */
  datatype Rules = Rules(
    mode: Option<Mode>,
    blockOnSeverity: Option<Severity>,
    blockOnMalware: Option<string>,
    denyLicenses: Option<seq<string>>,
    maxCvss: Option<real>)

  datatype State = Clean | Quarantined | Blocked

  datatype Evaluation = Evaluation(
    highest: Severity,
    maxCvss: real,
    mode: Mode,
    threshold: Severity,
    severityViolates: bool,
    malwareViolates: bool,
    cvssViolates: bool,
    licenseViolates: bool,
    state: State)

  const NO_RULES := Rules(None, None, None, None, None)

  function Rank(s: Severity): nat {
    match s
    case Unknown => 0
    case Negligible => 1
    case Low => 2
    case Medium => 3
    case High => 4
    case Critical => 5
  }

  /** The order of severities, and that no two rank alike. */
  lemma SeverityOrder()
    ensures Rank(Unknown) < Rank(Negligible) < Rank(Low) < Rank(Medium) < Rank(High) < Rank(Critical)
  {
  }

  function Or<T>(x: Option<T>, default: T): T {
    match x
    case Some(v) => v
    case None => default
  }

  // ----- deduplication -----

  function KindName(kind: FindingType): string {
    match kind
    case Vuln => "vuln"
    case License => "license"
    case Secret => "secret"
    case Malware => "malware"
  }

  /** The dedupe key, as one string. */
  function Key(f: Finding): string {
    KindName(f.kind) + ":" + Or(f.vulnId, Or(f.title, "")) + ":" + Or(f.purl, Or(f.packageName, ""))
  }

  lemma KeyTellsKind(f: Finding, g: Finding)
    requires Key(f) == Key(g)
    ensures f.kind == g.kind
  {
    assert Key(f)[0] == KindName(f.kind)[0];
    assert Key(g)[0] == KindName(g.kind)[0];
  }

  /** The vulnerability's id, else the title, else nothing. */
  function Identifier(f: Finding): string {
    match (f.vulnId, f.title)
    case (Some(id), _) => id
    case (None, Some(title)) => title
    case _ => ""
  }

  /** The package's url, else its name, else nothing. */
  function Place(f: Finding): string {
    match (f.purl, f.packageName)
    case (Some(purl), _) => purl
    case (None, Some(name)) => name
    case _ => ""
  }

  /** The same problem in the same place. */
  predicate SameProblem(f: Finding, g: Finding) {
    f.kind == g.kind && Identifier(f) == Identifier(g) && Place(f) == Place(g)
  }

  lemma SplitAtColon(x: string, y: string, p: string, q: string)
    requires ':' !in x && ':' !in p && x + ":" + y == p + ":" + q
    ensures x == p && y == q
  {
    var s := x + ":" + y;
    Text.IndexOfAt(x, ':', y);
    Text.IndexOfAt(p, ':', q);
    assert s[..|x|] == x && s[|x| + 1..] == y;
    assert s[..|p|] == p && s[|p| + 1..] == q;
  }

  lemma KindNamesDiffer(f: FindingType, g: FindingType)
    ensures ':' !in KindName(f) && (KindName(f) == KindName(g) <==> f == g)
  {
    assert KindName(f)[0] == KindName(g)[0] <==> f == g;
  }

  /** Equal keys are the same kind and the same text of identifier and place together. */
  lemma KeyIff(f: Finding, g: Finding)
    ensures Key(f) == Key(g) <==>
            f.kind == g.kind && Identifier(f) + ":" + Place(f) == Identifier(g) + ":" + Place(g)
  {
    KindNamesDiffer(f.kind, g.kind);
    KindNamesDiffer(g.kind, f.kind);
    KeyReads(f);
    KeyReads(g);
    if Key(f) == Key(g) {
      SplitAtColon(KindName(f.kind), Identifier(f) + ":" + Place(f), KindName(g.kind), Identifier(g) + ":" + Place(g));
    }
  }

  lemma KeyReads(f: Finding)
    ensures Key(f) == KindName(f.kind) + ":" + (Identifier(f) + ":" + Place(f))
  {
  }

  /** The same problem always has the same key. */
  lemma SameProblemSameKey(f: Finding, g: Finding)
    requires SameProblem(f, g)
    ensures Key(f) == Key(g)
  {
    KeyIff(f, g);
  }

  /** Where identifiers have no colon, keys are equal exactly for the same problem. */
  lemma KeyTellsProblems(f: Finding, g: Finding)
    requires ':' !in Identifier(f) && ':' !in Identifier(g)
    ensures Key(f) == Key(g) <==> SameProblem(f, g)
  {
    KeyIff(f, g);
    if Key(f) == Key(g) {
      SplitAtColon(Identifier(f), Place(f), Identifier(g), Place(g));
    }
  }

  /** A colon in an identifier can make two problems share a key, and then one of them is dropped. */
  lemma ColonMergesProblems() returns (f: Finding, g: Finding)
    ensures !SameProblem(f, g) && Key(f) == Key(g) && Deduped([f, g]) == [f]
  {
    f := Finding(License, None, Some("a:b"), None, Some("c"), Low, None);
    g := Finding(License, None, Some("a"), None, Some("b:c"), Low, None);
    assert "a:b" + ":" + "c" == "a" + ":" + "b:c";
    KeyIff(f, g);
    FirstOfTwo(f, g);
  }

  predicate PlainIdentifiers(items: seq<Finding>) {
    forall f :: f in items ==> ':' !in Identifier(f)
  }

  ghost function Deduped(items: seq<Finding>): seq<Finding> {
    FirstPerKey(Key, items)
  }

  method DedupeFindings(items: seq<Finding>) returns (out: seq<Finding>)
    ensures out == Deduped(items)
    ensures forall f :: f in out ==> f in items
    ensures forall f :: f in items ==> HasKey(Key, out, Key(f))
    ensures forall i, j :: 0 <= i < j < |out| ==> Key(out[i]) != Key(out[j]) && !SameProblem(out[i], out[j])
    ensures PlainIdentifiers(items) ==> forall f :: f in items ==> exists g :: g in out && SameProblem(f, g)
  {
    out := KeepFirst(Key, items);
    FirstPerKeyKeepsKeys(Key, items);
    forall i, j | 0 <= i < j < |out|
      ensures Key(out[i]) != Key(out[j]) && !SameProblem(out[i], out[j])
    {
      KeyIff(out[i], out[j]);
    }
    if PlainIdentifiers(items) {
      ProblemsKept(items, out);
    }
  }

  lemma ProblemsKept(items: seq<Finding>, out: seq<Finding>)
    requires PlainIdentifiers(items) && out == Deduped(items)
    ensures forall f :: f in items ==> exists g :: g in out && SameProblem(f, g)
  {
    FirstPerKeyKeepsKeys(Key, items);
    forall f | f in items
      ensures exists g :: g in out && SameProblem(f, g)
    {
      var g :| g in out && Key(g) == Key(f);
      KeyTellsProblems(f, g);
    }
  }

  /** Deduplication never hides malware. */
  lemma DedupeKeepsMalware(items: seq<Finding>)
    ensures (exists f :: f in Deduped(items) && f.kind.Malware?) <==> exists f :: f in items && f.kind.Malware?
  {
    FirstPerKeyKeepsKeys(Key, items);
    if f :| f in items && f.kind.Malware? {
      var g :| g in Deduped(items) && Key(g) == Key(f);
      KeyTellsKind(f, g);
    }
  }

  // ----- the decision -----

  function Highest(findings: seq<Finding>): Severity {
    if findings == [] then Unknown
    else
      var before := Highest(findings[..|findings| - 1]);
      var last := findings[|findings| - 1].severity;
      if Rank(before) >= Rank(last) then before else last
  }

  function MaxCvss(findings: seq<Finding>): real {
    if findings == [] then 0.0
    else
      var before := MaxCvss(findings[..|findings| - 1]);
      match findings[|findings| - 1].cvss
      case None => before
      case Some(score) => if before >= score then before else score
  }

  method SummarizeFindings(findings: seq<Finding>) returns (highest: Severity, maxCvss: real)
    ensures highest == Highest(findings) && maxCvss == MaxCvss(findings)
  {
    highest, maxCvss := Unknown, 0.0;
    for i := 0 to |findings|
      invariant highest == Highest(findings[..i]) && maxCvss == MaxCvss(findings[..i])
    {
      assert findings[..i + 1][..i] == findings[..i];
      var f := findings[i];
      highest := if Rank(highest) >= Rank(f.severity) then highest else f.severity;
      if f.cvss.Some? && f.cvss.value > maxCvss {
        maxCvss := f.cvss.value;
      }
    }
    assert findings[..|findings|] == findings;
  }

  lemma {:induction false} HighestIsMaximum(findings: seq<Finding>)
    ensures forall f :: f in findings ==> Rank(f.severity) <= Rank(Highest(findings))
    ensures findings != [] ==> exists f :: f in findings && Rank(f.severity) == Rank(Highest(findings))
  {
    if findings != [] {
      var rest := findings[..|findings| - 1];
      var last := findings[|findings| - 1];
      HighestIsMaximum(rest);
      assert findings == rest + [last];
      if rest != [] && Rank(Highest(rest)) >= Rank(last.severity) {
        var f :| f in rest && Rank(f.severity) == Rank(Highest(rest));
        assert f in findings;
      } else {
        assert last in findings;
      }
    }
  }

  lemma {:induction false} MaxCvssIsMaximum(findings: seq<Finding>)
    ensures 0.0 <= MaxCvss(findings)
    ensures forall f :: f in findings && f.cvss.Some? ==> f.cvss.value <= MaxCvss(findings)
    ensures MaxCvss(findings) > 0.0 ==> exists f :: f in findings && f.cvss == Some(MaxCvss(findings))
  {
    if findings != [] {
      var rest := findings[..|findings| - 1];
      var last := findings[|findings| - 1];
      MaxCvssIsMaximum(rest);
      assert findings == rest + [last];
      if MaxCvss(findings) > 0.0 {
        if MaxCvss(findings) == MaxCvss(rest) {
          var f :| f in rest && f.cvss == Some(MaxCvss(rest));
          assert f in findings;
        } else {
          assert last in findings;
        }
      }
    }
  }

  function EvaluateScanPolicy(findings: seq<Finding>, policy: Option<Rules>): Evaluation {
    var rules := Or(policy, NO_RULES);
    var highest := Highest(findings);
    var maxCvss := MaxCvss(findings);
    var threshold := Or(rules.blockOnSeverity, Low);
    var deny := Or(rules.denyLicenses, []);
    var severityViolates := |findings| > 0 && Rank(highest) >= Rank(threshold);
    var malwareViolates := Or(rules.blockOnMalware, "true") != "false" && exists f :: f in findings && f.kind.Malware?;
    var cvssViolates := rules.maxCvss.Some? && maxCvss > rules.maxCvss.value;
    var licenseViolates :=
      |deny| > 0 && exists f :: f in findings && f.kind.License? && Or(f.title, "") != "" && Or(f.title, "") in deny;
    var mode := Or(rules.mode, Audit);
    Evaluation(
      highest, maxCvss, mode, threshold,
      severityViolates, malwareViolates, cvssViolates, licenseViolates,
      if severityViolates || malwareViolates || cvssViolates || licenseViolates
      then (if mode.Enforce? then Blocked else Quarantined)
      else Clean)
  }

  /** One finding breaks one rule of the policy. */
  predicate Offends(f: Finding, policy: Option<Rules>) {
    var rules := Or(policy, NO_RULES);
    || Rank(f.severity) >= Rank(Or(rules.blockOnSeverity, Low))
    || (f.kind.Malware? && rules.blockOnMalware != Some("false"))
    || (rules.maxCvss.Some? && f.cvss.Some? && f.cvss.value > rules.maxCvss.value)
    || (f.kind.License? && f.title.Some? && f.title.value != "" && f.title.value in Or(rules.denyLicenses, []))
  }

  /** A negative CVSS cap is below the zero every summary starts from. */
  predicate ImpossibleCap(policy: Option<Rules>) {
    policy.Some? && policy.value.maxCvss.Some? && policy.value.maxCvss.value < 0.0
  }

  /** Clean means exactly that no single finding breaks any rule. */
  lemma CleanIff(findings: seq<Finding>, policy: Option<Rules>)
    ensures EvaluateScanPolicy(findings, policy).state.Clean? <==>
            !ImpossibleCap(policy) && forall f :: f in findings ==> !Offends(f, policy)
  {
    HighestIsMaximum(findings);
    MaxCvssIsMaximum(findings);
    var rules := Or(policy, NO_RULES);
    var e := EvaluateScanPolicy(findings, policy);
    if e.severityViolates {
      var f :| f in findings && Rank(f.severity) == Rank(Highest(findings));
      assert Offends(f, policy);
    }
    if e.malwareViolates {
      var f :| f in findings && f.kind.Malware?;
      assert Offends(f, policy);
    }
    if e.cvssViolates && !ImpossibleCap(policy) {
      var f :| f in findings && f.cvss == Some(MaxCvss(findings));
      assert Offends(f, policy);
    }
    if e.licenseViolates {
      var f :| f in findings && f.kind.License? && Or(f.title, "") != "" && Or(f.title, "") in Or(rules.denyLicenses, []);
      assert Offends(f, policy);
    }
  }

  /** The verdict, from the single findings: clean when none offends, otherwise blocked exactly under enforcement. */
  lemma VerdictIs(findings: seq<Finding>, policy: Option<Rules>)
    ensures EvaluateScanPolicy(findings, policy).state ==
            if !ImpossibleCap(policy) && forall f :: f in findings ==> !Offends(f, policy) then Clean
            else if policy.Some? && policy.value.mode == Some(Enforce) then Blocked
            else Quarantined
  {
    CleanIff(findings, policy);
  }

  /** More findings never turn a violation into clean. */
  lemma MoreFindingsStayViolating(findings: seq<Finding>, more: seq<Finding>, policy: Option<Rules>)
    requires forall f :: f in findings ==> f in more
    requires !EvaluateScanPolicy(findings, policy).state.Clean?
    ensures EvaluateScanPolicy(more, policy).state == EvaluateScanPolicy(findings, policy).state
  {
    CleanIff(findings, policy);
    CleanIff(more, policy);
  }

  /**
   Deduplication can hide a severity: of two findings with one key the first arrival is kept, so
   under this policy the verdict depends on which of the two scanners finished first.
   */
  lemma DedupeCanHideSeverity() returns (low: Finding, critical: Finding, policy: Option<Rules>)
    ensures EvaluateScanPolicy(Deduped([low, critical]), policy).state.Clean?
    ensures EvaluateScanPolicy(Deduped([critical, low]), policy).state.Blocked?
  {
    low := Finding(Vuln, Some("CVE-1"), None, Some("pkg:npm/a@1"), None, Low, None);
    critical := low.(severity := Critical);
    policy := Some(Rules(Some(Enforce), Some(High), None, None, None));
    FirstOfTwo(low, critical);
    FirstOfTwo(critical, low);
    CleanIff([low], policy);
    CleanIff([critical], policy);
    assert critical in [critical] && Offends(critical, policy);
  }

  lemma FirstOfTwo(f: Finding, g: Finding)
    requires Key(f) == Key(g)
    ensures Deduped([f, g]) == [f]
  {
    Snoc(Key, [], f);
    Snoc(Key, [f], g);
    assert [] + [f] == [f] && [f] + [g] == [f, g];
    assert f in [f] && HasKey(Key, [f], Key(g));
  }

  /** Whatever order the scanners report in, the deduplicated findings get the verdict of all of them. */
  ghost predicate OrderNeverMatters(items: seq<Finding>, policy: Option<Rules>) {
    forall arrived {:trigger Deduped(arrived)} :: multiset(arrived) == multiset(items) ==>
      EvaluateScanPolicy(Deduped(arrived), policy).state == EvaluateScanPolicy(items, policy).state
  }

  function Offending(policy: Option<Rules>): Finding -> bool {
    f => Offends(f, policy)
  }

  lemma StateByOffenders(items: seq<Finding>, policy: Option<Rules>)
    ensures EvaluateScanPolicy(items, policy).state.Clean? <==> !ImpossibleCap(policy) && !AnyBad(Offending(policy), items)
  {
    CleanIff(items, policy);
    assert forall f :: Offending(policy)(f) == Offends(f, policy);
  }

  /**
   The order in which findings arrive never changes the verdict exactly when nothing offends at
   all, or some key has only offending findings (or the policy can never be met).
   */
  lemma OrderNeverMattersIff(items: seq<Finding>, policy: Option<Rules>)
    ensures OrderNeverMatters(items, policy) <==>
            || ImpossibleCap(policy)
            || !AnyBad(Offending(policy), items)
            || (exists f :: f in items && WholeKeyBad(Key, Offending(policy), items, f))
  {
    var bad := Offending(policy);
    OrderNeverHidesBadIff(Key, bad, items);
    StateByOffenders(items, policy);
    forall arrived
      ensures EvaluateScanPolicy(Deduped(arrived), policy).state == EvaluateScanPolicy(items, policy).state <==>
              (ImpossibleCap(policy) || (AnyBad(bad, FirstPerKey(Key, arrived)) <==> AnyBad(bad, items)))
    {
      StateByOffenders(Deduped(arrived), policy);
    }
    if !ImpossibleCap(policy) && OrderNeverMatters(items, policy) {
      forall arrived {:trigger FirstPerKey(Key, arrived)} | multiset(arrived) == multiset(items)
        ensures AnyBad(bad, FirstPerKey(Key, arrived)) <==> AnyBad(bad, items)
      {
        assert Deduped(arrived) == FirstPerKey(Key, arrived);
      }
      assert OrderNeverHidesBad(Key, bad, items);
    }
  }

  // ----- gating coverage -----

  /** A content scanner that was run: its plugin id and the finding types it declares. */
  datatype Scanner = Scanner(id: string, types: set<FindingType>)

  const GATING_TYPES := {Malware, Vuln}

  /** The scanner registered last under an id, as a map keyed by id keeps it. */
  ghost predicate LastWithId(scanners: seq<Scanner>, i: int) {
    0 <= i < |scanners| && forall j :: i < j < |scanners| ==> scanners[j].id != scanners[i].id
  }

  ghost predicate DeclaredByFailed(scanners: seq<Scanner>, errors: seq<string>, t: FindingType) {
    exists i :: LastWithId(scanners, i) && scanners[i].id in errors && t in scanners[i].types
  }

  ghost predicate CoveredBySucceeded(scanners: seq<Scanner>, errors: seq<string>, t: FindingType) {
    exists s :: s in scanners && s.id !in errors && t in s.types
  }

  /** What each id declares, the last scanner of an id replacing earlier ones. */
  method DeclaredById(scanners: seq<Scanner>) returns (declaredBy: map<string, set<FindingType>>)
    ensures forall id :: id in declaredBy ==>
              exists k :: LastWithId(scanners, k) && scanners[k].id == id && scanners[k].types == declaredBy[id]
    ensures forall k :: LastWithId(scanners, k) ==>
              scanners[k].id in declaredBy && declaredBy[scanners[k].id] == scanners[k].types
  {
    declaredBy := map[];
    for i := 0 to |scanners|
      invariant forall id :: id in declaredBy ==>
                  exists k :: LastWithId(scanners[..i], k) && scanners[k].id == id && scanners[k].types == declaredBy[id]
      invariant forall k :: LastWithId(scanners[..i], k) ==>
                  scanners[k].id in declaredBy && declaredBy[scanners[k].id] == scanners[k].types
    {
      ghost var earlier := scanners[..i];
      ghost var upTo := scanners[..i + 1];
      declaredBy := declaredBy[scanners[i].id := scanners[i].types];
      assert forall k :: 0 <= k < i ==> upTo[k] == earlier[k];
      assert LastWithId(upTo, i);
      forall k | LastWithId(upTo, k) && k != i
        ensures LastWithId(earlier, k)
      {
        assert forall j :: k < j < |earlier| ==> earlier[j] == upTo[j];
      }
      forall id | id in declaredBy && id != scanners[i].id
        ensures exists k :: LastWithId(upTo, k) && scanners[k].id == id && scanners[k].types == declaredBy[id]
      {
        var k :| LastWithId(earlier, k) && scanners[k].id == id && scanners[k].types == declaredBy[id];
        assert LastWithId(upTo, k);
      }
    }
    assert scanners[..|scanners|] == scanners;
  }

  method CoveredTypes(scanners: seq<Scanner>, errors: seq<string>) returns (covered: set<FindingType>)
    ensures forall t :: t in covered <==> CoveredBySucceeded(scanners, errors, t)
  {
    covered := {};
    for i := 0 to |scanners|
      invariant forall t :: t in covered <==> exists k :: 0 <= k < i && scanners[k].id !in errors && t in scanners[k].types
    {
      if scanners[i].id !in errors {
        covered := covered + scanners[i].types;
      }
    }
  }

  method UncoveredGatingFindingTypes(scanners: seq<Scanner>, errors: seq<string>) returns (uncovered: set<FindingType>)
    ensures forall t :: t in uncovered <==>
              t in GATING_TYPES && DeclaredByFailed(scanners, errors, t) && !CoveredBySucceeded(scanners, errors, t)
  {
    uncovered := {};
    if |errors| == 0 {
      return;
    }
    var declaredBy := DeclaredById(scanners);
    var covered := CoveredTypes(scanners, errors);
    for i := 0 to |errors|
      invariant forall t :: t in uncovered <==>
                  t in GATING_TYPES && t !in covered
                  && exists e :: e in errors[..i] && e in declaredBy && t in declaredBy[e]
    {
      assert errors[..i + 1] == errors[..i] + [errors[i]];
      if errors[i] in declaredBy {
        uncovered := uncovered + (declaredBy[errors[i]] * GATING_TYPES - covered);
      }
    }
    assert errors[..|errors|] == errors;
    forall t
      ensures (exists e :: e in errors && e in declaredBy && t in declaredBy[e]) <==> DeclaredByFailed(scanners, errors, t)
    {
      if i :| LastWithId(scanners, i) && scanners[i].id in errors && t in scanners[i].types {
        assert scanners[i].id in declaredBy;
      }
    }
  }
}
