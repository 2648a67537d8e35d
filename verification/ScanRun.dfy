module ScanRun {
  // One scan of one artifact: its stored bytes and every blob of its manifest graph go through the
  // content scanners, and the verdict must not come out clean when coverage was lost on the way.
  // What the byte store and the scanners answer is an input.

  import opened Options
  import opened ManifestWalk
  import Sums
  import opened ScanPolicy

  /** What reading and scanning one stored blob produces. `errors` names the scanners that failed on it. */
  datatype Blob = Blob(
    size: nat,
    streamed: nat,
    readable: bool,
    streamFindings: seq<Finding>,
    contentFindings: seq<Finding>,
    errors: seq<string>)

  /** The byte store, the size cap and the available content scanners of one run. */
  datatype Bench = Bench(
    store: map<Digest, Blob>,
    maxBytes: nat,
    scanners: seq<Scanner>,
    externalMissing: bool)

  datatype ByteScan = ByteScan(available: bool, scannedPayload: bool, findings: seq<Finding>)

  /** A failed scanner declared a gating type that no scanner that finished declares. */
  ghost predicate DroppedCoverage(b: Bench, blob: Blob) {
    exists t: FindingType :: t in GATING_TYPES
                             && DeclaredByFailed(b.scanners, blob.errors, t)
                             && !CoveredBySucceeded(b.scanners, blob.errors, t)
  }

  /** The blob is in the store, was read whole, and no gating coverage was lost on it. */
  ghost predicate FullyScanned(b: Bench, digest: Digest) {
    && digest in b.store
    && var blob := b.store[digest];
    && blob.size <= b.maxBytes && blob.streamed <= b.maxBytes && blob.readable
    && !b.externalMissing
    && (|b.scanners| > 0 ==> !DroppedCoverage(b, blob) && |blob.errors| != |b.scanners|)
  }

  function AllFindings(b: Bench, digest: Digest): seq<Finding>
    requires digest in b.store
  {
    b.store[digest].streamFindings + if |b.scanners| > 0 then b.store[digest].contentFindings else []
  }

  /** The set of digests one run has already taken on, shared by all its byte scans. */
  class ScannedDigests {
    var digests: set<Digest>

    constructor ()
      ensures digests == {}
    {
      digests := {};
    }
  }

  method ScanStoredBytes(b: Bench, digest: Digest, scanned: ScannedDigests, allowMissing: bool)
    returns (r: Result<ByteScan>)
    modifies scanned
    ensures scanned.digests == old(scanned.digests) + {digest}
    ensures digest in old(scanned.digests) ==> r == Ok(ByteScan(true, false, []))
    ensures digest !in old(scanned.digests) ==>
              && (r.Ok? <==> FullyScanned(b, digest) || (digest !in b.store && allowMissing))
              && (r.Ok? && digest in b.store ==> r.value == ByteScan(true, true, AllFindings(b, digest)))
              && (r.Ok? && digest !in b.store ==> r.value == ByteScan(false, false, []))
  {
    if digest in scanned.digests {
      return Ok(ByteScan(true, false, []));
    }
    scanned.digests := scanned.digests + {digest};
    if digest !in b.store {
      return if allowMissing then Ok(ByteScan(false, false, [])) else Err("blob bytes missing");
    }
    var blob := b.store[digest];
    if blob.size > b.maxBytes {
      return Err("blob exceeds SCAN_MAX_BYTES");
    }
    if b.externalMissing {
      return Err("external content scanning is configured but unavailable");
    }
    if !blob.readable {
      return Err("blob read failed");
    }
    if blob.streamed > b.maxBytes {
      return Err("blob exceeds SCAN_MAX_BYTES");
    }
    var findings := blob.streamFindings;
    if |b.scanners| > 0 {
      var uncovered := UncoveredGatingFindingTypes(b.scanners, blob.errors);
      if |uncovered| > 0 {
        assert exists t :: t in uncovered;
        return Err("content scanner(s) failed, dropping gating coverage");
      }
      assert uncovered == {};
      if |blob.errors| == |b.scanners| {
        return Err("all content scanners failed");
      }
      findings := findings + blob.contentFindings;
    }
    r := Ok(ByteScan(true, true, findings));
    assert findings == AllFindings(b, digest);
  }

  // ----- the run -----

  /** What the manifest walk gave: its count, and the blobs it handed over in the order they were scanned. */
  datatype WalkResult = WalkResult(references: Option<nat>, blobs: seq<Digest>)

  /** Some settled walk of the graph gives this result. */
  ghost predicate WalkYields(g: Graph, root: Digest, walk: WalkResult) {
    exists t: Sys :: Complete(g, root, t) && Outcome(t) == walk.references && multiset(walk.blobs) == t.handed
  }

  datatype Artifact = Artifact(digest: Digest, versionDeleted: bool)

  datatype Dependencies = Dependencies(count: nat, findings: seq<Finding>)

  datatype Verdict =
    | Threw(error: string)
    | Skipped(reason: string)
    | Decided(state: State, results: seq<Finding>)

  const DELETED := "package_version_deleted"
  const NO_PAYLOAD := "manifest_graph_no_scannable_payload"

  /** A finding some scan of that blob reported. */
  predicate FindingOf(b: Bench, digest: Digest, f: Finding) {
    digest in b.store && f in AllFindings(b, digest)
  }

  /** The blobs a run reads: the artifact's own bytes or, without them, what the walk handed over. */
  predicate Read(b: Bench, art: Artifact, walk: Result<WalkResult>, digest: Digest) {
    if art.digest in b.store then digest == art.digest
    else walk.Ok? && digest in walk.value.blobs && digest != art.digest
  }

  /** The bytes part of the run ends without an error. */
  ghost predicate BytesEnd(b: Bench, art: Artifact, graph: Option<Graph>, walk: Result<WalkResult>) {
    && (art.digest in b.store || (graph.Some? && walk.Ok?))
    && forall digest :: Read(b, art, walk, digest) ==> FullyScanned(b, digest)
  }

  ghost predicate AnyRead(b: Bench, art: Artifact, walk: Result<WalkResult>) {
    exists digest :: Read(b, art, walk, digest)
  }

  /**
   `processScanInner`, once the artifact, its repository and its module are loaded. `graph` is
   absent when the module has no manifest graph; a load that throws makes the walk an error. The
   run decides, skips or throws exactly as stated, and judges exactly the findings of what it read
   and of the dependency scanners.
   */
  method ProcessScanInner(
    b: Bench, art: Artifact, graph: Option<Graph>, walk: Result<WalkResult>,
    noPayloadReason: Option<string>, deps: Dependencies, policy: Option<Rules>)
    returns (verdict: Verdict, found: seq<Finding>)
    ensures verdict.Decided? <==> BytesEnd(b, art, graph, walk) && (AnyRead(b, art, walk) || deps.count > 0)
    ensures verdict.Skipped? <==>
              && BytesEnd(b, art, graph, walk) && !AnyRead(b, art, walk) && deps.count == 0
              && (art.versionDeleted || (walk.Ok? && walk.value.references == Some(0)))
    ensures verdict.Skipped? ==>
              verdict.reason ==
              if art.versionDeleted then "package_version_deleted" else Or(noPayloadReason, "manifest_graph_no_scannable_payload")
    ensures verdict.Decided? ==>
              && (forall f :: f in found <==>
                    f in deps.findings || exists digest :: Read(b, art, walk, digest) && FindingOf(b, digest, f))
              && verdict == Decided(EvaluateScanPolicy(Deduped(found), policy).state, Deduped(found))
  {
    var scanned := new ScannedDigests();
    found := [];
    var direct := ScanStoredBytes(b, art.digest, scanned, graph.Some?);
    if direct.Err? {
      assert art.digest in b.store ==> Read(b, art, walk, art.digest);
      return Threw(direct.error), found;
    }
    found := found + direct.value.findings;
    var payload := direct.value.scannedPayload;

    var references := None;
    if !direct.value.available && graph.Some? {
      if walk.Err? {
        return Threw(walk.error), found;
      }
      references := walk.value.references;
      var failed;
      failed, payload, found := ScanHandedOver(b, art.digest, walk.value.blobs, scanned);
      if failed.Some? {
        return Threw(failed.value), found;
      }
    }
    assert BytesEnd(b, art, graph, walk);
    assert payload <==> AnyRead(b, art, walk) by {
      assert art.digest in b.store ==> Read(b, art, walk, art.digest);
      if art.digest !in b.store && payload {
        var i :| 0 <= i < |walk.value.blobs| && walk.value.blobs[i] != art.digest;
        assert Read(b, art, walk, walk.value.blobs[i]);
      }
    }
    if !payload && deps.count == 0 {
      if art.versionDeleted {
        return Skipped(DELETED), found;
      }
      if references == Some(0) {
        return Skipped(Or(noPayloadReason, NO_PAYLOAD)), found;
      }
      return Threw("no scannable bytes available"), found;
    }
    ghost var ofBytes := found;
    assert forall f :: f in ofBytes <==> exists digest :: Read(b, art, walk, digest) && FindingOf(b, digest, f) by {
      assert forall f :: art.digest in b.store && FindingOf(b, art.digest, f) ==> Read(b, art, walk, art.digest);
    }
    found := found + deps.findings;
    var results := DedupeFindings(found);
    verdict := Decided(EvaluateScanPolicy(results, policy).state, results);
  }

  /** The blobs the walk hands over, when the artifact's own digest has been taken already and is not stored. */
  method ScanHandedOver(b: Bench, root: Digest, blobs: seq<Digest>, scanned: ScannedDigests)
    returns (failed: Option<string>, payload: bool, found: seq<Finding>)
    requires scanned.digests == {root} && root !in b.store
    modifies scanned
    ensures failed.Some? <==> exists blob :: blob in blobs && blob != root && !FullyScanned(b, blob)
    ensures failed.None? ==>
              && (payload <==> exists i :: 0 <= i < |blobs| && blobs[i] != root)
              && forall f :: f in found <==> exists blob :: blob in blobs && blob != root && FindingOf(b, blob, f)
  {
    found, payload := [], false;
    for i := 0 to |blobs|
      invariant forall d :: d in scanned.digests <==> d == root || d in blobs[..i]
      invariant forall d :: d in blobs[..i] && d != root ==> FullyScanned(b, d)
      invariant payload <==> exists k :: 0 <= k < i && blobs[k] != root
      invariant forall f :: f in found <==> exists d :: d in blobs[..i] && d != root && FindingOf(b, d, f)
    {
      ghost var before, earlier := found, blobs[..i];
      assert blobs[..i + 1] == earlier + [blobs[i]];
      var scan := ScanStoredBytes(b, blobs[i], scanned, false);
      if scan.Err? {
        assert blobs[i] in blobs;
        return Some(scan.error), payload, found;
      }
      found := found + scan.value.findings;
      payload := payload || scan.value.scannedPayload;
      if blobs[i] != root && blobs[i] in earlier {
        assert exists k :: 0 <= k < i && blobs[k] != root;
      }
    }
    assert blobs[..|blobs|] == blobs;
    return None, payload, found;
  }

  // ----- the same in terms of the manifest graph -----

  /** A blob some found manifest of the artifact's graph refers to. */
  ghost predicate Referenced(g: Graph, root: Digest, blob: Digest) {
    exists d :: d in g && Reachable(g, root, d) && blob in g[d].blobs
  }

  /** A settled walk hands over exactly the blobs that found, reachable manifests refer to. */
  lemma HandedOverIffReferenced(g: Graph, root: Digest, walk: WalkResult, blob: Digest)
    requires WalkYields(g, root, walk)
    ensures blob in walk.blobs <==> Referenced(g, root, blob)
  {
    var t: Sys :| Complete(g, root, t) && Outcome(t) == walk.references && multiset(walk.blobs) == t.handed;
    var weights := BlobWeights(g, blob);
    assert blob in walk.blobs <==> t.handed[blob] > 0;
    if blob in walk.blobs {
      var d := Sums.SomethingWeighs(weights, t.expanded);
      assert multiset(g[d].blobs)[blob] > 0;
    }
    if Referenced(g, root, blob) {
      var d :| d in g && Reachable(g, root, d) && blob in g[d].blobs;
      Sums.SumSplit(weights, t.expanded, d);
      assert multiset(g[d].blobs)[blob] > 0;
    }
  }

  /** The root manifest was found and refers to nothing. */
  predicate NoReferences(g: Graph, root: Digest) {
    root != "" && root in g && g[root] == Manifest([], [])
  }

  /** A manifest graph is skipped as empty exactly when its root manifest has no reference at all. */
  lemma SkippedGraphIsEmpty(g: Graph, root: Digest, walk: WalkResult)
    requires WalkYields(g, root, walk)
    ensures walk.references == Some(0) <==> NoReferences(g, root)
  {
    var t: Sys :| Complete(g, root, t) && Outcome(t) == walk.references && multiset(walk.blobs) == t.handed;
    var weights := ReferenceWeights(g);
    if root in g && root != "" {
      ReachableRoot(g, root);
      assert root in t.expanded;
      Sums.SumSplit(weights, t.expanded, root);
      if NoReferences(g, root) {
        forall d | d in t.expanded
          ensures d == root
        {
          var path :| PathTo(g, root, path, d);
          assert |path| <= 1 || Edge(g, path[0], path[1]);
        }
        assert t.expanded - {root} == {};
      }
    }
  }

  /** What a run stands for: its own stored bytes or, without them, every other blob its found manifests refer to. */
  ghost predicate StandsFor(b: Bench, art: Artifact, graph: Option<Graph>, digest: Digest) {
    if art.digest in b.store then digest == art.digest
    else graph.Some? && Referenced(graph.value, art.digest, digest) && digest != art.digest
  }

  /** There was something to read or a graph to walk, no load threw, and every scan was full. */
  ghost predicate Ends(b: Bench, art: Artifact, graph: Option<Graph>, walk: Result<WalkResult>) {
    && (art.digest in b.store || (graph.Some? && walk.Ok?))
    && forall digest :: StandsFor(b, art, graph, digest) ==> FullyScanned(b, digest)
  }

  /** The run reaches the policy decision. */
  ghost predicate Decides(b: Bench, art: Artifact, graph: Option<Graph>, walk: Result<WalkResult>, deps: Dependencies) {
    Ends(b, art, graph, walk) && ((exists digest :: StandsFor(b, art, graph, digest)) || deps.count > 0)
  }

  /** Or it finds that there is nothing to decide. */
  ghost predicate Skips(b: Bench, art: Artifact, graph: Option<Graph>, walk: Result<WalkResult>, deps: Dependencies) {
    && Ends(b, art, graph, walk) && deps.count == 0
    && !(exists digest :: StandsFor(b, art, graph, digest))
    && (art.versionDeleted || (graph.Some? && NoReferences(graph.value, art.digest)))
  }

  ghost predicate Judged(b: Bench, art: Artifact, graph: Option<Graph>, deps: Dependencies, f: Finding) {
    f in deps.findings || exists digest :: StandsFor(b, art, graph, digest) && FindingOf(b, digest, f)
  }

  lemma ReadIffStandsFor(b: Bench, art: Artifact, graph: Option<Graph>, walk: Result<WalkResult>)
    requires graph.Some? && walk.Ok? ==> WalkYields(graph.value, art.digest, walk.value)
    requires art.digest in b.store || (graph.Some? && walk.Ok?)
    ensures forall digest :: Read(b, art, walk, digest) <==> StandsFor(b, art, graph, digest)
  {
    if art.digest !in b.store {
      forall digest
        ensures digest in walk.value.blobs <==> Referenced(graph.value, art.digest, digest)
      {
        HandedOverIffReferenced(graph.value, art.digest, walk.value, digest);
      }
    }
  }

  /**
   The run decides, skips or throws exactly as the graph, the store and the scanners say. A
   decision judges the findings of exactly the blobs the artifact stands for and of the dependency
   scanners, after deduplication; it is clean exactly when none of what is left offends and the
   score cap is not negative, and then no malware was found anywhere.
   */
  method ProcessScan(
    b: Bench, art: Artifact, graph: Option<Graph>, walk: Result<WalkResult>,
    noPayloadReason: Option<string>, deps: Dependencies, policy: Option<Rules>)
    returns (verdict: Verdict)
    requires graph.Some? && walk.Ok? ==> WalkYields(graph.value, art.digest, walk.value)
    ensures verdict.Decided? <==> Decides(b, art, graph, walk, deps)
    ensures verdict.Skipped? <==> Skips(b, art, graph, walk, deps)
    ensures verdict.Skipped? ==>
              verdict.reason ==
              if art.versionDeleted then "package_version_deleted" else Or(noPayloadReason, "manifest_graph_no_scannable_payload")
    ensures verdict.Decided? ==>
              exists found ::
                && (forall f :: f in found <==> Judged(b, art, graph, deps, f))
                && verdict == Decided(EvaluateScanPolicy(Deduped(found), policy).state, Deduped(found))
    ensures verdict.Decided? ==>
              (verdict.state.Clean? <==> !ImpossibleCap(policy) && forall f :: f in verdict.results ==> !Offends(f, policy))
    ensures verdict.Decided? && verdict.state.Clean? && BlocksMalware(policy) ==>
              forall f :: Judged(b, art, graph, deps, f) ==> !f.kind.Malware?
  {
    var found;
    verdict, found := ProcessScanInner(b, art, graph, walk, noPayloadReason, deps, policy);
    if art.digest in b.store || (graph.Some? && walk.Ok?) {
      ReadIffStandsFor(b, art, graph, walk);
      if art.digest !in b.store {
        SkippedGraphIsEmpty(graph.value, art.digest, walk.value);
      } else {
        assert StandsFor(b, art, graph, art.digest);
      }
    }
    if verdict.Decided? {
      assert forall f :: f in found <==> Judged(b, art, graph, deps, f);
      CleanIff(verdict.results, policy);
      DedupeKeepsMalware(found);
    }
  }

  predicate BlocksMalware(policy: Option<Rules>) {
    Or(policy, NO_RULES).blockOnMalware != Some("false")
  }

  // ----- coverage a decision does not need -----

  /** Every manifest the graph leads to was found. */
  ghost predicate AllFound(g: Graph, root: Digest) {
    forall d :: Reachable(g, root, d) ==> d in g
  }

  /** Some blob besides the artifact's own digest is referred to. */
  ghost predicate HasPayload(g: Graph, root: Digest) {
    exists blob :: blob != root && Referenced(g, root, blob)
  }

  /** All blobs are stored, and no scanner finds or misses anything. */
  function CleanBench(g: Graph, root: Digest): Bench {
    Bench(map d, i | d in g && 0 <= i < |g[d].blobs| && g[d].blobs[i] != root :: g[d].blobs[i] := Blob(0, 0, true, [], [], []),
          0, [], false)
  }

  lemma CleanBenchDecides(g: Graph, art: Artifact, walk: WalkResult, deps: Dependencies)
    requires WalkYields(g, art.digest, walk) && (HasPayload(g, art.digest) || deps.count > 0)
    ensures var b := CleanBench(g, art.digest);
            art.digest !in b.store && Decides(b, art, Some(g), Ok(walk), deps)
  {
    var b := CleanBench(g, art.digest);
    forall blob | StandsFor(b, art, Some(g), blob)
      ensures FullyScanned(b, blob)
    {
      var d :| d in g && Reachable(g, art.digest, d) && blob in g[d].blobs;
      var i :| 0 <= i < |g[d].blobs| && g[d].blobs[i] == blob;
      assert blob in b.store;
    }
    if HasPayload(g, art.digest) {
      var blob :| blob != art.digest && Referenced(g, art.digest, blob);
      assert StandsFor(b, art, Some(g), blob);
    }
  }

  lemma {:induction false} Listed(items: multiset<Digest>) returns (s: seq<Digest>)
    ensures multiset(s) == items
    decreases |items|
  {
    if items == multiset{} {
      s := [];
    } else {
      var x :| x in items;
      var rest := Listed(items - multiset{x});
      s := [x] + rest;
      assert items == multiset{x} + (items - multiset{x});
    }
  }

  lemma SomeWalk(g: Graph, root: Digest) returns (walk: WalkResult)
    ensures WalkYields(g, root, walk)
  {
    var t := SomeCompleteWalk(g, root);
    var blobs := Listed(t.handed);
    walk := WalkResult(Outcome(t), blobs);
  }

  /** A decision made without the artifact's own bytes. */
  ghost predicate DecidesWithout(b: Bench, walk: WalkResult, g: Graph, art: Artifact, deps: Dependencies) {
    WalkYields(g, art.digest, walk) && art.digest !in b.store && Decides(b, art, Some(g), Ok(walk), deps)
  }

  lemma SomeDecision(g: Graph, art: Artifact, deps: Dependencies) returns (b: Bench, walk: WalkResult)
    requires HasPayload(g, art.digest) || deps.count > 0
    ensures DecidesWithout(b, walk, g, art, deps)
  {
    walk := SomeWalk(g, art.digest);
    b := CleanBench(g, art.digest);
    CleanBenchDecides(g, art, walk, deps);
  }

  /** Without the artifact's own bytes, some run of this graph decides exactly when there is anything to judge; whether all manifests are found does not matter. */
  lemma CanDecideIff(g: Graph, art: Artifact, deps: Dependencies)
    ensures (exists b, walk :: DecidesWithout(b, walk, g, art, deps)) <==> HasPayload(g, art.digest) || deps.count > 0
  {
    if HasPayload(g, art.digest) || deps.count > 0 {
      var b, walk := SomeDecision(g, art, deps);
    }
  }

  /**
   The artifact's own digest counts as taken although its bytes are missing. So a decision without
   those bytes means that every blob referred to was fully scanned exactly when no found manifest
   lists that digest as a blob, or when nothing else is there to be decided on.
   */
  lemma WithoutOwnBytesAllScannedIff(g: Graph, art: Artifact, deps: Dependencies)
    ensures (forall b, walk :: DecidesWithout(b, walk, g, art, deps) ==> AllScanned(b, g, art.digest)) <==>
            !Referenced(g, art.digest, art.digest) || (!HasPayload(g, art.digest) && deps.count == 0)
  {
    if HasPayload(g, art.digest) || deps.count > 0 {
      var b, walk := SomeDecision(g, art, deps);
      assert !FullyScanned(b, art.digest);
      forall b, walk | !Referenced(g, art.digest, art.digest) && DecidesWithout(b, walk, g, art, deps)
        ensures AllScanned(b, g, art.digest)
      {
        assert forall blob :: Referenced(g, art.digest, blob) ==> StandsFor(b, art, Some(g), blob);
      }
    } else {
      forall b, walk
        ensures !DecidesWithout(b, walk, g, art, deps)
      {
      }
    }
  }

  // ----- the artifact's own bytes hide its graph -----

  /** Any decision on an artifact with a manifest graph, with or without its own bytes. */
  ghost predicate DecidesOn(b: Bench, walk: Result<WalkResult>, g: Graph, art: Artifact, deps: Dependencies) {
    (walk.Ok? ==> WalkYields(g, art.digest, walk.value)) && Decides(b, art, Some(g), walk, deps)
  }

  /** Every blob the found manifests refer to was fully scanned. */
  ghost predicate AllScanned(b: Bench, g: Graph, root: Digest) {
    forall blob :: Referenced(g, root, blob) ==> FullyScanned(b, blob)
  }

  /**
   When a blob with the artifact's digest is stored, the graph is not walked: the run decides on that
   blob alone, judges its findings and those of the dependencies, and never skips, whatever the
   graph refers to.
   */
  lemma OwnBytesDecideAlone(b: Bench, art: Artifact, graph: Option<Graph>, walk: Result<WalkResult>, deps: Dependencies)
    requires art.digest in b.store
    ensures Decides(b, art, graph, walk, deps) <==> FullyScanned(b, art.digest)
    ensures !Skips(b, art, graph, walk, deps)
    ensures forall f :: Judged(b, art, graph, deps, f) <==> f in deps.findings || FindingOf(b, art.digest, f)
  {
    assert StandsFor(b, art, graph, art.digest);
  }

  /** Only the artifact's own bytes are stored, and they are clean. */
  function OwnBench(root: Digest): Bench {
    Bench(map[root := Blob(0, 0, true, [], [], [])], 0, [], false)
  }

  /**
   Over all decisions: a decision means that every blob referred to was fully scanned exactly when
   no other blob is referred to, and not the artifact's own digest either unless the decision needs
   its bytes.
   */
  lemma DecisionMeansAllScannedIff(g: Graph, art: Artifact, deps: Dependencies)
    ensures (forall b, walk :: DecidesOn(b, walk, g, art, deps) ==> AllScanned(b, g, art.digest)) <==>
            !HasPayload(g, art.digest) && (!Referenced(g, art.digest, art.digest) || deps.count == 0)
  {
    if HasPayload(g, art.digest) {
      var blob :| blob != art.digest && Referenced(g, art.digest, blob);
      var b, walk := OwnBench(art.digest), Err("not walked");
      OwnBytesDecideAlone(b, art, Some(g), walk, deps);
      assert DecidesOn(b, walk, g, art, deps) && !FullyScanned(b, blob);
    } else if Referenced(g, art.digest, art.digest) && deps.count > 0 {
      var b, walk := SomeDecision(g, art, deps);
      assert DecidesOn(b, Ok(walk), g, art, deps) && !FullyScanned(b, art.digest);
    } else {
      forall b, walk | DecidesOn(b, walk, g, art, deps)
        ensures AllScanned(b, g, art.digest)
      {
        assert forall blob :: Referenced(g, art.digest, blob) ==> blob == art.digest;
        assert forall digest :: StandsFor(b, art, Some(g), digest) ==> FullyScanned(b, digest) && digest == art.digest;
      }
    }
  }

  // ----- missing manifests -----

  /** The walks of both graphs find the same manifests, with the same blobs. */
  ghost predicate SameFound(g: Graph, h: Graph, root: Digest) {
    && (forall d :: d in g && Reachable(g, root, d) ==> d in h && Reachable(h, root, d) && h[d].blobs == g[d].blobs)
    && (forall d :: d in h && Reachable(h, root, d) ==> d in g && Reachable(g, root, d))
  }

  lemma SameReferenced(g: Graph, h: Graph, root: Digest, blob: Digest)
    requires SameFound(g, h, root)
    ensures Referenced(g, root, blob) <==> Referenced(h, root, blob)
  {
    if Referenced(h, root, blob) {
      var d :| d in h && Reachable(h, root, d) && blob in h[d].blobs;
      assert d in g && Reachable(g, root, d);
    }
  }

  /** Whether the run decides, and what it judges, depends on the found, reachable manifests only. */
  lemma DecisionIsOfFound(
    b: Bench, art: Artifact, g: Graph, h: Graph, walk: Result<WalkResult>, deps: Dependencies)
    requires SameFound(g, h, art.digest)
    ensures Decides(b, art, Some(g), walk, deps) <==> Decides(b, art, Some(h), walk, deps)
    ensures forall f :: Judged(b, art, Some(g), deps, f) <==> Judged(b, art, Some(h), deps, f)
  {
    forall digest
      ensures StandsFor(b, art, Some(g), digest) <==> StandsFor(b, art, Some(h), digest)
    {
      SameReferenced(g, h, art.digest, digest);
    }
  }

  function Kept(g: Graph, digests: seq<Digest>): (kept: seq<Digest>)
    ensures forall d :: d in kept <==> d in digests && d in g
  {
    if digests == [] then []
    else (if digests[0] in g then [digests[0]] else []) + Kept(g, digests[1..])
  }

  /** The graph without its references to manifests that are missing. */
  function WithoutMissing(g: Graph): Graph {
    map d | d in g :: Manifest(g[d].blobs, Kept(g, g[d].manifests))
  }

  lemma FoundStaysReachable(g: Graph, root: Digest, d: Digest)
    requires d in g && Reachable(g, root, d)
    ensures Reachable(WithoutMissing(g), root, d)
  {
    var path :| PathTo(g, root, path, d);
    forall i | 0 <= i < |path| - 1
      ensures Edge(WithoutMissing(g), path[i], path[i + 1])
    {
      assert Edge(g, path[i], path[i + 1]);
      assert i + 1 < |path| - 1 ==> Edge(g, path[i + 1], path[i + 2]);
    }
    assert PathTo(WithoutMissing(g), root, path, d);
  }

  lemma ReachableWithoutMissing(g: Graph, root: Digest, d: Digest)
    requires Reachable(WithoutMissing(g), root, d)
    ensures Reachable(g, root, d) && (root in g ==> d in g)
  {
    var path :| PathTo(WithoutMissing(g), root, path, d);
    assert forall i :: 0 <= i < |path| - 1 ==> Edge(WithoutMissing(g), path[i], path[i + 1]);
    assert PathTo(g, root, path, d);
    assert |path| == 1 || Edge(WithoutMissing(g), path[|path| - 2], path[|path| - 1]);
  }

  /**
   A manifest the loader does not find is passed over: the run decides, and judges the same, as if
   nothing referred to it; and in that graph, once the root is found, nothing is missing.
   */
  lemma MissingIsPassedOver(b: Bench, art: Artifact, g: Graph, walk: Result<WalkResult>, deps: Dependencies)
    ensures Decides(b, art, Some(g), walk, deps) <==> Decides(b, art, Some(WithoutMissing(g)), walk, deps)
    ensures forall f :: Judged(b, art, Some(g), deps, f) <==> Judged(b, art, Some(WithoutMissing(g)), deps, f)
    ensures art.digest in g ==> AllFound(WithoutMissing(g), art.digest)
  {
    var h := WithoutMissing(g);
    forall d | Reachable(h, art.digest, d)
      ensures Reachable(g, art.digest, d) && (art.digest in g ==> d in g)
    {
      ReachableWithoutMissing(g, art.digest, d);
    }
    forall d | d in g && Reachable(g, art.digest, d)
      ensures Reachable(h, art.digest, d)
    {
      FoundStaysReachable(g, art.digest, d);
    }
    DecisionIsOfFound(b, art, g, h, walk, deps);
  }

  /** With dependencies to judge, a run decides without reading a single byte exactly when no other blob is referred to. */
  lemma DecidesUnreadIff(b: Bench, art: Artifact, g: Graph, walk: WalkResult, deps: Dependencies)
    requires WalkYields(g, art.digest, walk) && art.digest !in b.store
    ensures Decides(b, art, Some(g), Ok(walk), deps) && !(exists digest :: StandsFor(b, art, Some(g), digest)) <==>
            deps.count > 0 && !HasPayload(g, art.digest)
  {
    assert forall digest :: StandsFor(b, art, Some(g), digest) <==>
        digest != art.digest && Referenced(g, art.digest, digest);
  }

  lemma OneManifestWalk(g: Graph, root: Digest, m: Manifest, walk: WalkResult)
    requires root != "" && g == map[root := m] && walk == WalkResult(Some(|m.blobs| + |m.manifests|), m.blobs)
    ensures WalkYields(g, root, walk) && forall blob :: Referenced(g, root, blob) <==> blob in m.blobs
  {
    ReachableRoot(g, root);
    var t := SomeCompleteWalk(g, root);
    assert t.expanded == {root};
    OneManifestTallies(g, root, m, t);
  }

  lemma OneManifestTallies(g: Graph, root: Digest, m: Manifest, t: Sys)
    requires g == map[root := m] && Complete(g, root, t) && t.expanded == {root}
    ensures t.referenceCount == |m.blobs| + |m.manifests| && t.handed == multiset(m.blobs)
  {
    Sums.SumSplit(ReferenceWeights(g), {root}, root);
    forall blob: Digest
      ensures t.handed[blob] == multiset(m.blobs)[blob]
    {
      Sums.SumSplit(BlobWeights(g, blob), {root}, root);
    }
  }

  /** The input: one clean blob, and a child manifest that is missing. The verdict is clean. */
  method MissingChildIsClean() returns (verdict: Verdict)
    ensures verdict == Decided(Clean, [])
    ensures !AllFound(map["root" := Manifest(["blob"], ["child"])], "root")
  {
    verdict := RunOneManifest(Manifest(["blob"], ["child"]));
    ghost var g: Graph := map["root" := Manifest(["blob"], ["child"])];
    ReachableRoot(g, "root");
    ReachableStep(g, "root", "root", "child");
  }

  /** The input: a manifest that lists the artifact's own digest next to one clean blob. The verdict is clean. */
  method OwnDigestIsClean() returns (verdict: Verdict)
    ensures verdict == Decided(Clean, [])
    ensures Referenced(map["root" := Manifest(["root", "blob"], [])], "root", "root")
  {
    verdict := RunOneManifest(Manifest(["root", "blob"], []));
    ghost var g: Graph := map["root" := Manifest(["root", "blob"], [])];
    ReachableRoot(g, "root");
  }

  const EVIL := Finding(Malware, None, Some("evil"), None, None, Critical, None)

  /** A clean blob under the artifact's digest, and malware in the one blob its manifest refers to. */
  const HIDING := Bench(
    map["root" := Blob(1, 1, true, [], [], []), "evil" := Blob(1, 1, true, [EVIL], [], [])], 1, [], false)

  const LAYERED: Graph := map["root" := Manifest(["evil"], [])]

  /** The input: the manifest's own bytes are stored, so the blob with the malware is not scanned. The verdict is clean. */
  method OwnBytesHideMalware() returns (verdict: Verdict)
    ensures verdict == Decided(Clean, [])
    ensures Referenced(LAYERED, "root", "evil") && FindingOf(HIDING, "evil", EVIL) && BlocksMalware(None)
  {
    var walk := WalkResult(Some(1), ["evil"]);
    HidingDecides(walk);
    verdict := ProcessScan(HIDING, ROOT, Some(LAYERED), Ok(walk), None, NO_DEPS, None);
    ghost var found: seq<Finding> :| (forall f :: f in found <==> Judged(HIDING, ROOT, Some(LAYERED), NO_DEPS, f))
                                     && verdict == Decided(EvaluateScanPolicy(Deduped(found), None).state, Deduped(found));
    HeadIsIn(found);
  }

  lemma HidingDecides(walk: WalkResult)
    requires walk == WalkResult(Some(1), ["evil"])
    ensures WalkYields(LAYERED, "root", walk) && Referenced(LAYERED, "root", "evil")
    ensures Decides(HIDING, ROOT, Some(LAYERED), Ok(walk), NO_DEPS)
    ensures forall f :: !Judged(HIDING, ROOT, Some(LAYERED), NO_DEPS, f)
  {
    var m := Manifest(["evil"], []);
    assert |m.blobs| + |m.manifests| == 1;
    OneManifestWalk(LAYERED, "root", m, walk);
    OwnBytesDecideAlone(HIDING, ROOT, Some(LAYERED), Ok(walk), NO_DEPS);
  }

  lemma HeadIsIn(found: seq<Finding>)
    ensures found == [] || exists f :: f in found
  {
    if found != [] {
      assert found[0] in found;
    }
  }

  /** The root's bytes are missing, its manifest is found, and the only blob stored is small, readable and clean. */
  method RunOneManifest(m: Manifest) returns (verdict: Verdict)
    requires "blob" in m.blobs && forall blob :: blob in m.blobs ==> blob == "blob" || blob == "root"
    ensures verdict == Decided(Clean, [])
  {
    var walk := WalkResult(Some(|m.blobs| + |m.manifests|), m.blobs);
    OneManifestDecides(m, walk);
    verdict := ProcessScan(ONE_BLOB, ROOT, Some(map["root" := m]), Ok(walk), None, NO_DEPS, None);
    ghost var found: seq<Finding> :| (forall f :: f in found <==> Judged(ONE_BLOB, ROOT, Some(map["root" := m]), NO_DEPS, f))
                                     && verdict == Decided(EvaluateScanPolicy(Deduped(found), None).state, Deduped(found));
    HeadIsIn(found);
  }

  const ONE_BLOB := Bench(map["blob" := Blob(1, 1, true, [], [], [])], 1, [], false)
  const ROOT := Artifact("root", false)
  const NO_DEPS := Dependencies(0, [])

  lemma OneManifestDecides(m: Manifest, walk: WalkResult)
    requires "blob" in m.blobs && forall blob :: blob in m.blobs ==> blob == "blob" || blob == "root"
    requires walk == WalkResult(Some(|m.blobs| + |m.manifests|), m.blobs)
    ensures var g: Graph := map["root" := m];
            && WalkYields(g, "root", walk) && Decides(ONE_BLOB, ROOT, Some(g), Ok(walk), NO_DEPS)
            && forall f :: !Judged(ONE_BLOB, ROOT, Some(g), NO_DEPS, f)
  {
    var g: Graph := map["root" := m];
    OneManifestWalk(g, "root", m, walk);
    assert forall digest :: StandsFor(ONE_BLOB, ROOT, Some(g), digest) <==> digest == "blob";
    assert StandsFor(ONE_BLOB, ROOT, Some(g), "blob");
  }
}
