module ManifestWalk {
  // The manifest-graph walk of one scan: three cooperative workers drain one growing queue. Between
  // two awaits a worker runs undisturbed, so a step is one such stretch; a schedule is any sequence
  // of (worker, does its pending load or scan fail).

  import opened Options
  import opened Sums

  type Digest = string

  /** What loading and parsing a manifest yields: its blob and manifest references. */
  datatype Manifest = Manifest(blobs: seq<Digest>, manifests: seq<Digest>)

  /** The manifests the loader finds; any other digest loads as missing. Cycles are allowed. */
  type Graph = map<Digest, Manifest>

  const WORKERS := 3

  datatype Phase =
    | AtLoop
    | Taken(digest: Digest)
    | Loading(digest: Digest)
    | Scanning(digest: Digest)
    | Exited
    | Failed(digest: Digest)

  /** `loads`, `counted` and `expanded` record history: loads issued, manifests counted, manifests whose blobs were all handed over. */
  datatype Sys = Sys(
    queue: seq<Digest>,
    next: nat,
    seen: set<Digest>,
    rootFound: bool,
    referenceCount: nat,
    handed: multiset<Digest>,
    workers: seq<Phase>,
    loads: seq<Digest>,
    counted: set<Digest>,
    expanded: set<Digest>)

  function Init(root: Digest): Sys {
    Sys([root], 0, {}, false, 0, multiset{}, [AtLoop, AtLoop, AtLoop], [], {}, {})
  }

  predicate Active(p: Phase) {
    !p.Exited? && !p.Failed?
  }

  function Unseen(digests: seq<Digest>, seen: set<Digest>): (r: seq<Digest>)
    ensures |r| <= |digests|
    ensures forall d :: d in r <==> d in digests && d !in seen
  {
    if digests == [] then []
    else (if digests[0] in seen then [] else [digests[0]]) + Unseen(digests[1..], seen)
  }

  /** One stretch of worker `w`. `fails` matters only while a load or a blob scan is pending. */
  function Step(g: Graph, root: Digest, s: Sys, w: nat, fails: bool): Sys
    requires |s.workers| == WORKERS && w < WORKERS && Active(s.workers[w])
  {
    match s.workers[w]
    case AtLoop =>
      if s.next < |s.queue| then
        var digest := s.queue[s.next];
        s.(next := s.next + 1, workers := s.workers[w := if digest == "" then AtLoop else Taken(digest)])
      else s.(workers := s.workers[w := Exited])
    case Taken(d) =>
      if d in s.seen then s.(workers := s.workers[w := AtLoop])
      else s.(seen := s.seen + {d}, loads := s.loads + [d], workers := s.workers[w := Loading(d)])
    case Loading(d) =>
      if fails then s.(workers := s.workers[w := Failed(d)])
      else if d !in g then s.(workers := s.workers[w := AtLoop])
      else s.(
        rootFound := s.rootFound || d == root,
        referenceCount := s.referenceCount + |g[d].blobs| + |g[d].manifests|,
        counted := s.counted + {d},
        workers := s.workers[w := Scanning(d)])
    case Scanning(d) =>
      if fails || d !in g then s.(workers := s.workers[w := Failed(d)])
      else s.(
        handed := s.handed + multiset(g[d].blobs),
        expanded := s.expanded + {d},
        queue := s.queue + Unseen(g[d].manifests, s.seen),
        workers := s.workers[w := AtLoop])
    case _ => s
  }

  /** `Promise.all` over the workers has settled normally, or not at all. */
  predicate Settled(s: Sys) {
    |s.workers| == WORKERS && forall w :: 0 <= w < WORKERS ==> s.workers[w].Exited?
  }

  predicate Stopped(s: Sys) {
    |s.workers| == WORKERS && forall w :: 0 <= w < WORKERS ==> !Active(s.workers[w])
  }

  /** What the walk returns: null unless the root manifest itself was found. */
  function Outcome(s: Sys): Option<nat> {
    if s.rootFound then Some(s.referenceCount) else None
  }

  datatype Turn = Turn(worker: nat, fails: bool)

  ghost predicate Run(g: Graph, root: Digest, s: Sys, schedule: seq<Turn>, t: Sys)
    decreases |schedule|
  {
    if schedule == [] then s == t
    else
      && |s.workers| == WORKERS && schedule[0].worker < WORKERS && Active(s.workers[schedule[0].worker])
      && Run(g, root, Step(g, root, s, schedule[0].worker, schedule[0].fails), schedule[1..], t)
  }

  // ----- what the walk should visit -----

  ghost predicate Edge(g: Graph, d: Digest, c: Digest) {
    d in g && c in g[d].manifests && c != ""
  }

  ghost predicate IsPath(g: Graph, path: seq<Digest>) {
    forall i :: 0 <= i < |path| - 1 ==> Edge(g, path[i], path[i + 1])
  }

  ghost predicate PathTo(g: Graph, root: Digest, path: seq<Digest>, d: Digest) {
    root != "" && 0 < |path| && path[0] == root && path[|path| - 1] == d && IsPath(g, path)
  }

  ghost predicate Reachable(g: Graph, root: Digest, d: Digest) {
    exists path :: PathTo(g, root, path, d)
  }

  lemma ReachableRoot(g: Graph, root: Digest)
    requires root != ""
    ensures Reachable(g, root, root)
  {
    assert PathTo(g, root, [root], root);
  }

  lemma ReachableStep(g: Graph, root: Digest, d: Digest, c: Digest)
    requires Reachable(g, root, d) && Edge(g, d, c)
    ensures Reachable(g, root, c)
  {
    var path :| PathTo(g, root, path, d);
    assert PathTo(g, root, path + [c], c);
  }

  lemma {:induction false} ClosedContainsReachable(g: Graph, root: Digest, closed: set<Digest>, path: seq<Digest>, d: Digest)
    requires root in closed && forall x, c :: x in closed && Edge(g, x, c) ==> c in closed
    requires PathTo(g, root, path, d)
    ensures d in closed
    decreases |path|
  {
    if |path| > 1 {
      var shorter := path[..|path| - 1];
      ClosedContainsReachable(g, root, closed, shorter, shorter[|shorter| - 1]);
      assert Edge(g, path[|path| - 2], path[|path| - 1]);
    }
  }

  ghost function ReferenceWeights(g: Graph): map<Digest, nat> {
    map d | d in g :: |g[d].blobs| + |g[d].manifests|
  }

  ghost function BlobWeights(g: Graph, blob: Digest): map<Digest, nat> {
    map d | d in g :: multiset(g[d].blobs)[blob]
  }

  // ----- what every step keeps -----

  predicate Holds(s: Sys, d: Digest)
    requires |s.workers| == WORKERS
  {
    exists w :: 0 <= w < WORKERS && s.workers[w] == Taken(d)
  }

  predicate AnyFailed(s: Sys)
    requires |s.workers| == WORKERS
  {
    exists w :: 0 <= w < WORKERS && s.workers[w].Failed?
  }

  /** A digest the walk has met and cannot lose: seen, still queued, or in a worker's hands. */
  ghost predicate Known(s: Sys, d: Digest)
    requires Shape(s)
  {
    d in s.seen || d in s.queue[s.next..] || Holds(s, d)
  }

  predicate Shape(s: Sys) {
    |s.workers| == WORKERS && s.next <= |s.queue|
  }

  ghost predicate OnlyReachable(g: Graph, root: Digest, s: Sys)
    requires Shape(s)
  {
    && (forall d :: d in s.queue && d != "" ==> Reachable(g, root, d))
    && (forall d :: Holds(s, d) ==> d != "" && Reachable(g, root, d))
    && (forall d :: d in s.seen ==> d != "" && Reachable(g, root, d))
  }

  ghost predicate LoadsOnce(s: Sys) {
    && (forall i, j :: 0 <= i < j < |s.loads| ==> s.loads[i] != s.loads[j])
    && (forall d :: d in s.loads <==> d in s.seen)
  }

  /** Who works on what: at most one worker per digest, and only on its unfinished part. */
  ghost predicate Assigned(g: Graph, s: Sys)
    requires Shape(s)
  {
    && s.expanded <= s.counted <= s.seen && s.counted <= g.Keys
    && (forall v :: 0 <= v < WORKERS ==> OnUnfinished(s, s.workers[v]))
    && (forall v, w :: 0 <= v < w < WORKERS ==> Apart(s.workers[v], s.workers[w]))
  }

  predicate OnUnfinished(s: Sys, p: Phase) {
    && (p.Loading? ==> p.digest in s.seen - s.counted)
    && (p.Scanning? ==> p.digest in s.counted - s.expanded)
  }

  predicate Apart(p: Phase, q: Phase) {
    Busy(p) && Busy(q) ==> p.digest != q.digest
  }

  ghost predicate Attended(g: Graph, s: Sys)
    requires Shape(s)
  {
    forall d :: d in s.seen && d in g && d !in s.expanded ==> HasTaskOn(s, d)
  }

  predicate HasTaskOn(s: Sys, d: Digest)
    requires |s.workers| == WORKERS
  {
    exists w :: 0 <= w < WORKERS && (Busy(s.workers[w]) || s.workers[w].Failed?) && s.workers[w].digest == d
  }

  predicate Busy(p: Phase) {
    p.Loading? || p.Scanning?
  }

  ghost predicate Tallied(g: Graph, root: Digest, s: Sys)
    requires s.expanded <= g.Keys && s.counted <= g.Keys
  {
    && s.referenceCount == Sum(ReferenceWeights(g), s.counted)
    && (forall blob :: s.handed[blob] == Sum(BlobWeights(g, blob), s.expanded))
    && (s.rootFound <==> root in s.counted)
  }

  ghost predicate NothingLost(g: Graph, root: Digest, s: Sys)
    requires Shape(s)
  {
    && (root != "" ==> Known(s, root))
    && (forall d, c :: d in s.expanded && Edge(g, d, c) ==> Known(s, c))
    && (Stopped(s) ==> s.next == |s.queue| || AnyFailed(s))
  }

  ghost predicate Inv(g: Graph, root: Digest, s: Sys) {
    && Shape(s)
    && OnlyReachable(g, root, s)
    && LoadsOnce(s)
    && Assigned(g, s)
    && Attended(g, s)
    && Tallied(g, root, s)
    && NothingLost(g, root, s)
  }

  lemma InitInv(g: Graph, root: Digest)
    ensures Inv(g, root, Init(root))
  {
    if root != "" {
      ReachableRoot(g, root);
    }
    assert Init(root).queue[0..] == [root];
    assert Init(root).workers[0].AtLoop?;
  }

  predicate CanStep(s: Sys, w: nat) {
    Shape(s) && w < WORKERS && Active(s.workers[w])
  }

  lemma StepKeepsReachable(g: Graph, root: Digest, s: Sys, w: nat, fails: bool)
    requires CanStep(s, w) && Assigned(g, s) && OnlyReachable(g, root, s)
    ensures Shape(Step(g, root, s, w, fails)) && OnlyReachable(g, root, Step(g, root, s, w, fails))
  {
    var t := Step(g, root, s, w, fails);
    if s.workers[w].Taken? {
      assert Holds(s, s.workers[w].digest);
    }
    forall d | Holds(t, d)
      ensures d != "" && Reachable(g, root, d)
    {
      var v :| 0 <= v < WORKERS && t.workers[v] == Taken(d);
      assert v != w ==> s.workers[v] == Taken(d) && Holds(s, d);
    }
    if s.workers[w].Scanning? && !fails {
      var from := s.workers[w].digest;
      forall d | d in t.queue && d != ""
        ensures Reachable(g, root, d)
      {
        if d !in s.queue {
          assert Edge(g, from, d);
          ReachableStep(g, root, from, d);
        }
      }
    }
  }

  lemma StepKeepsLoads(g: Graph, root: Digest, s: Sys, w: nat, fails: bool)
    requires CanStep(s, w) && LoadsOnce(s)
    ensures LoadsOnce(Step(g, root, s, w, fails))
  {
  }

  lemma StaysOnUnfinished(g: Graph, root: Digest, s: Sys, w: nat, fails: bool, v: nat)
    requires CanStep(s, w) && Assigned(g, s) && v < WORKERS
    ensures OnUnfinished(Step(g, root, s, w, fails), Step(g, root, s, w, fails).workers[v])
  {
    assert OnUnfinished(s, s.workers[v]) && OnUnfinished(s, s.workers[w]);
    assert v < w ==> Apart(s.workers[v], s.workers[w]);
    assert w < v ==> Apart(s.workers[w], s.workers[v]);
  }

  lemma StepKeepsAssigned(g: Graph, root: Digest, s: Sys, w: nat, fails: bool)
    requires CanStep(s, w) && Assigned(g, s)
    ensures var t := Step(g, root, s, w, fails); Shape(t) && Assigned(g, t)
  {
    var t := Step(g, root, s, w, fails);
    forall v | 0 <= v < WORKERS
      ensures OnUnfinished(t, t.workers[v])
    {
      StaysOnUnfinished(g, root, s, w, fails, v);
    }
    assert OnUnfinished(s, s.workers[w]);
    forall u, v | 0 <= u < v < WORKERS
      ensures Apart(t.workers[u], t.workers[v])
    {
      assert Apart(s.workers[u], s.workers[v]);
      assert OnUnfinished(s, s.workers[u]) && OnUnfinished(s, s.workers[v]);
    }
  }

  lemma StepKeepsAttended(g: Graph, root: Digest, s: Sys, w: nat, fails: bool)
    requires CanStep(s, w) && Assigned(g, s) && Attended(g, s)
    ensures var t := Step(g, root, s, w, fails); Shape(t) && Attended(g, t)
  {
    var t := Step(g, root, s, w, fails);
    forall d | d in t.seen && d in g && d !in t.expanded
      ensures HasTaskOn(t, d)
    {
      if d in s.seen {
        assert HasTaskOn(s, d);
        var v :| 0 <= v < WORKERS && (Busy(s.workers[v]) || s.workers[v].Failed?) && s.workers[v].digest == d;
        assert Busy(t.workers[v]) || t.workers[v].Failed?;
      } else {
        assert t.workers[w] == Loading(d);
      }
    }
  }

  lemma StepKeepsCounts(g: Graph, root: Digest, s: Sys, w: nat, fails: bool)
    requires CanStep(s, w) && OnUnfinished(s, s.workers[w]) && s.counted <= g.Keys
    requires s.referenceCount == Sum(ReferenceWeights(g), s.counted) && (s.rootFound <==> root in s.counted)
    ensures var t := Step(g, root, s, w, fails);
            && t.counted <= g.Keys
            && t.referenceCount == Sum(ReferenceWeights(g), t.counted) && (t.rootFound <==> root in t.counted)
  {
    if s.workers[w].Loading? && !fails && s.workers[w].digest in g {
      SumAdd(ReferenceWeights(g), s.counted, s.workers[w].digest);
    }
  }

  lemma StepKeepsHanded(g: Graph, root: Digest, s: Sys, w: nat, fails: bool, blob: Digest)
    requires CanStep(s, w) && OnUnfinished(s, s.workers[w]) && s.expanded <= g.Keys
    requires s.handed[blob] == Sum(BlobWeights(g, blob), s.expanded)
    ensures var t := Step(g, root, s, w, fails);
            t.expanded <= g.Keys && t.handed[blob] == Sum(BlobWeights(g, blob), t.expanded)
  {
    if s.workers[w].Scanning? && !fails && s.workers[w].digest in g {
      SumAdd(BlobWeights(g, blob), s.expanded, s.workers[w].digest);
    }
  }

  lemma StepKeepsTallies(g: Graph, root: Digest, s: Sys, w: nat, fails: bool)
    requires CanStep(s, w) && Assigned(g, s) && Tallied(g, root, s)
    ensures var t := Step(g, root, s, w, fails);
            t.expanded <= g.Keys && t.counted <= g.Keys && Tallied(g, root, t)
  {
    StepKeepsCounts(g, root, s, w, fails);
    var t := Step(g, root, s, w, fails);
    forall blob
      ensures t.expanded <= g.Keys && t.handed[blob] == Sum(BlobWeights(g, blob), t.expanded)
    {
      StepKeepsHanded(g, root, s, w, fails, blob);
    }
    StepKeepsHanded(g, root, s, w, fails, "");
  }

  lemma KnownStays(g: Graph, root: Digest, s: Sys, w: nat, fails: bool, d: Digest)
    requires Shape(s) && CanStep(s, w) && d != "" && Known(s, d)
    ensures var t := Step(g, root, s, w, fails); Shape(t) && Known(t, d)
  {
    var t := Step(g, root, s, w, fails);
    if d in t.seen {
    } else if Holds(s, d) {
      var v :| 0 <= v < WORKERS && s.workers[v] == Taken(d);
      assert v != w && t.workers[v] == Taken(d);
    } else {
      var i :| s.next <= i < |s.queue| && s.queue[i] == d;
      if t.next <= i {
        assert t.queue[t.next..][i - t.next] == d;
      } else {
        assert t.workers[w] == Taken(d);
      }
    }
  }

  /** The manifests below the one just expanded go to the queue, those seen before excepted. */
  lemma NewChildIsQueued(g: Graph, root: Digest, s: Sys, w: nat, fails: bool, d: Digest, c: Digest)
    requires CanStep(s, w) && d !in s.expanded && d in Step(g, root, s, w, fails).expanded
    requires d in g && c in g[d].manifests && c !in s.seen
    ensures var t := Step(g, root, s, w, fails); Shape(t) && c in t.queue[t.next..]
  {
    var t := Step(g, root, s, w, fails);
    var added := Unseen(g[d].manifests, s.seen);
    assert t.queue == s.queue + added && t.next == s.next;
    var i :| 0 <= i < |added| && added[i] == c;
    assert t.queue[t.next..][|s.queue| - s.next + i] == c;
  }

  lemma StepKeepsKnown(g: Graph, root: Digest, s: Sys, w: nat, fails: bool)
    requires CanStep(s, w) && Assigned(g, s) && NothingLost(g, root, s)
    ensures var t := Step(g, root, s, w, fails); Shape(t) && NothingLost(g, root, t)
  {
    var t := Step(g, root, s, w, fails);
    if root != "" {
      KnownStays(g, root, s, w, fails, root);
    }
    forall d, c | d in t.expanded && Edge(g, d, c)
      ensures Known(t, c)
    {
      if d in s.expanded || c in s.seen {
        KnownStays(g, root, s, w, fails, c);
      } else {
        NewChildIsQueued(g, root, s, w, fails, d, c);
      }
    }
    if Stopped(t) {
      assert !Active(t.workers[w]);
    }
  }

  lemma StepKeepsInv(g: Graph, root: Digest, s: Sys, w: nat, fails: bool)
    requires Inv(g, root, s) && CanStep(s, w)
    ensures Inv(g, root, Step(g, root, s, w, fails))
  {
    StepKeepsReachable(g, root, s, w, fails);
    StepKeepsLoads(g, root, s, w, fails);
    StepKeepsAssigned(g, root, s, w, fails);
    StepKeepsAttended(g, root, s, w, fails);
    StepKeepsTallies(g, root, s, w, fails);
    StepKeepsKnown(g, root, s, w, fails);
  }

  lemma {:induction false} RunKeepsInv(g: Graph, root: Digest, s: Sys, schedule: seq<Turn>, t: Sys)
    requires Inv(g, root, s) && Run(g, root, s, schedule, t)
    ensures Inv(g, root, t)
    decreases |schedule|
  {
    if schedule != [] {
      StepKeepsInv(g, root, s, schedule[0].worker, schedule[0].fails);
      RunKeepsInv(g, root, Step(g, root, s, schedule[0].worker, schedule[0].fails), schedule[1..], t);
    }
  }

  // ----- every schedule ends -----

  ghost function Children(g: Graph): map<Digest, nat> {
    map d | d in g :: 5 * |g[d].manifests|
  }

  function Fanout(g: Graph, d: Digest): nat {
    if d in g then 5 * |g[d].manifests| else 0
  }

  function Weight(g: Graph, p: Phase): nat {
    match p
    case AtLoop => 1
    case Taken(_) => 5
    case Loading(d) => 3 + Fanout(g, d)
    case Scanning(d) => 2 + Fanout(g, d)
    case _ => 0
  }

  function Held(g: Graph, workers: seq<Phase>): nat
    requires |workers| == WORKERS
  {
    Weight(g, workers[0]) + Weight(g, workers[1]) + Weight(g, workers[2])
  }

  /** Work still to come: queued digests, what each worker holds, and every manifest not yet seen. */
  ghost function Remaining(g: Graph, s: Sys): nat
    requires Shape(s)
  {
    5 * (|s.queue| - s.next)
    + Held(g, s.workers)
    + Sum(Children(g), g.Keys - s.seen)
  }

  lemma HeldChanges(g: Graph, workers: seq<Phase>, w: nat, p: Phase)
    requires |workers| == WORKERS && w < WORKERS
    ensures Held(g, workers[w := p]) == Held(g, workers) - Weight(g, workers[w]) + Weight(g, p)
  {
  }

  lemma FirstSightWeighs(g: Graph, seen: set<Digest>, d: Digest)
    requires d !in seen
    ensures Sum(Children(g), g.Keys - seen) == Fanout(g, d) + Sum(Children(g), g.Keys - (seen + {d}))
  {
    if d in g {
      SumSplit(Children(g), g.Keys - seen, d);
      assert g.Keys - seen - {d} == g.Keys - (seen + {d});
    } else {
      assert g.Keys - seen == g.Keys - (seen + {d});
    }
  }

  lemma StepMovesOne(g: Graph, root: Digest, s: Sys, w: nat, fails: bool)
    requires CanStep(s, w)
    ensures var t := Step(g, root, s, w, fails); Shape(t) && t.workers == s.workers[w := t.workers[w]]
  {
  }

  lemma StepDecreases(g: Graph, root: Digest, s: Sys, w: nat, fails: bool)
    requires CanStep(s, w)
    ensures var t := Step(g, root, s, w, fails); Shape(t) && Remaining(g, t) < Remaining(g, s)
  {
    var t := Step(g, root, s, w, fails);
    StepMovesOne(g, root, s, w, fails);
    HeldChanges(g, s.workers, w, t.workers[w]);
    StepPays(g, root, s, w, fails);
  }

  /** What leaves the queue and the unseen manifests covers what the worker takes on. */
  lemma StepPays(g: Graph, root: Digest, s: Sys, w: nat, fails: bool)
    requires CanStep(s, w)
    ensures var t := Step(g, root, s, w, fails);
            && Shape(t) && w < |t.workers|
            && 5 * (|t.queue| - t.next) + Weight(g, t.workers[w]) + Sum(Children(g), g.Keys - t.seen)
               < 5 * (|s.queue| - s.next) + Weight(g, s.workers[w]) + Sum(Children(g), g.Keys - s.seen)
  {
    if s.workers[w].Taken? && s.workers[w].digest !in s.seen {
      FirstSightWeighs(g, s.seen, s.workers[w].digest);
    }
  }

  // ----- main results -----

  /** Every schedule is finite, cyclic graph or not: its length is bounded before the walk starts. */
  lemma {:induction false} ScheduleBounded(g: Graph, root: Digest, s: Sys, schedule: seq<Turn>, t: Sys)
    requires Shape(s) && Run(g, root, s, schedule, t)
    ensures Shape(t) && |schedule| + Remaining(g, t) <= Remaining(g, s)
    decreases |schedule|
  {
    if schedule != [] {
      StepDecreases(g, root, s, schedule[0].worker, schedule[0].fails);
      ScheduleBounded(g, root, Step(g, root, s, schedule[0].worker, schedule[0].fails), schedule[1..], t);
    }
  }

  ghost predicate Complete(g: Graph, root: Digest, t: Sys) {
    && (forall d :: d in t.loads <==> Reachable(g, root, d))
    && (forall i, j :: 0 <= i < j < |t.loads| ==> t.loads[i] != t.loads[j])
    && (forall d :: d in t.expanded <==> d in g && Reachable(g, root, d))
    && t.expanded <= g.Keys
    && (forall blob :: t.handed[blob] == Sum(BlobWeights(g, blob), t.expanded))
    && t.referenceCount == Sum(ReferenceWeights(g), t.expanded)
    && (t.rootFound <==> root in g && root != "")
  }

  /**
   A walk that settles has loaded every reachable digest exactly once, handed over every blob of
   every manifest it found, and counted every reference, whatever the schedule was.
   */
  lemma SettledWalkIsComplete(g: Graph, root: Digest, schedule: seq<Turn>, t: Sys)
    requires Run(g, root, Init(root), schedule, t) && Settled(t)
    ensures Complete(g, root, t)
    ensures forall i, j :: 0 <= i < j < |t.loads| ==> t.loads[i] != t.loads[j]
    ensures forall d :: d in t.loads <==> Reachable(g, root, d)
  {
    InitInv(g, root);
    RunKeepsInv(g, root, Init(root), schedule, t);
    SettledIsComplete(g, root, t);
  }

  lemma SettledKnowsSeen(g: Graph, root: Digest, t: Sys)
    requires Shape(t) && Settled(t) && NothingLost(g, root, t) && Attended(g, t)
    ensures root != "" ==> root in t.seen
    ensures forall d :: d in t.seen && d in g ==> d in t.expanded
    ensures forall d, c :: d in t.seen && Edge(g, d, c) ==> c in t.seen
  {
    assert t.next == |t.queue| && t.queue[t.next..] == [];
  }

  lemma SettledIsComplete(g: Graph, root: Digest, t: Sys)
    requires Inv(g, root, t) && Settled(t)
    ensures Complete(g, root, t)
  {
    SettledKnowsSeen(g, root, t);
    assert t.counted == t.expanded;
    forall d | Reachable(g, root, d)
      ensures d in t.seen
    {
      var path :| PathTo(g, root, path, d);
      ClosedContainsReachable(g, root, t.seen, path, d);
    }
  }

  /** Two settled walks of the same graph agree on everything the scan uses. */
  lemma ScheduleDoesNotMatter(g: Graph, root: Digest, s1: seq<Turn>, t1: Sys, s2: seq<Turn>, t2: Sys)
    requires Run(g, root, Init(root), s1, t1) && Settled(t1)
    requires Run(g, root, Init(root), s2, t2) && Settled(t2)
    ensures Outcome(t1) == Outcome(t2) && t1.handed == t2.handed && t1.expanded == t2.expanded
  {
    SettledWalkIsComplete(g, root, s1, t1);
    SettledWalkIsComplete(g, root, s2, t2);
    assert t1.expanded == t2.expanded;
    assert forall blob :: t1.handed[blob] == t2.handed[blob];
  }

  /** Somewhere in the run a load or a blob scan throws. */
  ghost predicate SomeThrow(g: Graph, root: Digest, s: Sys, schedule: seq<Turn>)
    decreases |schedule|
  {
    && schedule != [] && CanStep(s, schedule[0].worker)
    && ((schedule[0].fails && Busy(s.workers[schedule[0].worker]))
        || SomeThrow(g, root, Step(g, root, s, schedule[0].worker, schedule[0].fails), schedule[1..]))
  }

  lemma StepFailsIff(g: Graph, root: Digest, s: Sys, w: nat, fails: bool)
    requires CanStep(s, w) && Assigned(g, s)
    ensures var t := Step(g, root, s, w, fails);
            && Shape(t)
            && (t.workers[w].Failed? <==> fails && Busy(s.workers[w]))
            && (AnyFailed(t) <==> AnyFailed(s) || (fails && Busy(s.workers[w])))
  {
    var t := Step(g, root, s, w, fails);
    assert OnUnfinished(s, s.workers[w]);
    assert forall v :: 0 <= v < WORKERS && v != w ==> t.workers[v] == s.workers[v];
  }

  /** A worker that failed stays failed, so an error anywhere is there at the end. */
  lemma {:induction false} FailedIffThrown(g: Graph, root: Digest, s: Sys, schedule: seq<Turn>, t: Sys)
    requires Shape(s) && Assigned(g, s) && Run(g, root, s, schedule, t)
    ensures Shape(t) && (AnyFailed(t) <==> AnyFailed(s) || SomeThrow(g, root, s, schedule))
    decreases |schedule|
  {
    if schedule != [] {
      var w, fails := schedule[0].worker, schedule[0].fails;
      StepFailsIff(g, root, s, w, fails);
      StepKeepsAssigned(g, root, s, w, fails);
      FailedIffThrown(g, root, Step(g, root, s, w, fails), schedule[1..], t);
    }
  }

  /** A walk that has stopped has settled exactly when no load and no blob scan has thrown on the way. */
  lemma SettledIffNoneThrown(g: Graph, root: Digest, schedule: seq<Turn>, t: Sys)
    requires Run(g, root, Init(root), schedule, t) && Stopped(t)
    ensures Settled(t) <==> !SomeThrow(g, root, Init(root), schedule)
  {
    InitInv(g, root);
    FailedIffThrown(g, root, Init(root), schedule, t);
    assert !AnyFailed(Init(root));
  }

  lemma {:induction false} NoFailureNoThrow(g: Graph, root: Digest, s: Sys, schedule: seq<Turn>)
    requires forall turn :: turn in schedule ==> !turn.fails
    ensures !SomeThrow(g, root, s, schedule)
    decreases |schedule|
  {
    if schedule != [] && CanStep(s, schedule[0].worker) {
      assert schedule[0] in schedule;
      NoFailureNoThrow(g, root, Step(g, root, s, schedule[0].worker, schedule[0].fails), schedule[1..]);
    }
  }

  /** A walk in which nothing failed does not stop short: once no worker can move, the whole reachable graph has been loaded and handed over. */
  lemma StoppedWalkIsComplete(g: Graph, root: Digest, schedule: seq<Turn>, t: Sys)
    requires Run(g, root, Init(root), schedule, t) && Stopped(t)
    requires !SomeThrow(g, root, Init(root), schedule)
    ensures Settled(t) && Complete(g, root, t)
  {
    SettledIffNoneThrown(g, root, schedule, t);
    SettledWalkIsComplete(g, root, schedule, t);
  }

  /** From anywhere, workers that move without failing come to a stop. */
  lemma {:induction false} SomeStop(g: Graph, root: Digest, s: Sys) returns (schedule: seq<Turn>, t: Sys)
    requires Shape(s)
    ensures Run(g, root, s, schedule, t) && Stopped(t)
    ensures forall i :: 0 <= i < |schedule| ==> !schedule[i].fails
    decreases Remaining(g, s)
  {
    if w: nat :| w < WORKERS && Active(s.workers[w]) {
      StepDecreases(g, root, s, w, false);
      var rest;
      rest, t := SomeStop(g, root, Step(g, root, s, w, false));
      schedule := [Turn(w, false)] + rest;
      assert schedule[1..] == rest;
    } else {
      schedule, t := [], s;
    }
  }

  /** Every graph has a complete walk. */
  lemma SomeCompleteWalk(g: Graph, root: Digest) returns (t: Sys)
    ensures Complete(g, root, t)
  {
    var schedule;
    schedule, t := SomeStop(g, root, Init(root));
    NoFailureNoThrow(g, root, Init(root), schedule);
    StoppedWalkIsComplete(g, root, schedule, t);
  }

  /** Failing digests stay with the worker that met them, and nothing else fails. */
  ghost predicate FailuresKept(s: Sys, failing: set<Digest>)
    requires Shape(s)
  {
    && (forall d :: d in failing && d in s.seen ==> HasTaskOn(s, d))
    && (forall w :: 0 <= w < WORKERS && s.workers[w].Failed? ==> s.workers[w].digest in failing * s.seen)
  }

  predicate FailsNow(s: Sys, w: nat, failing: set<Digest>)
    requires CanStep(s, w)
  {
    Busy(s.workers[w]) && s.workers[w].digest in failing
  }

  lemma StepKeepsFailures(g: Graph, root: Digest, s: Sys, w: nat, failing: set<Digest>)
    requires CanStep(s, w) && Assigned(g, s) && FailuresKept(s, failing)
    ensures var t := Step(g, root, s, w, FailsNow(s, w, failing)); Shape(t) && FailuresKept(t, failing)
  {
    var t := Step(g, root, s, w, FailsNow(s, w, failing));
    assert OnUnfinished(s, s.workers[w]);
    forall d | d in failing && d in t.seen
      ensures HasTaskOn(t, d)
    {
      if d in s.seen {
        assert HasTaskOn(s, d);
        var v :| 0 <= v < WORKERS && (Busy(s.workers[v]) || s.workers[v].Failed?) && s.workers[v].digest == d;
        assert Busy(t.workers[v]) || t.workers[v].Failed?;
      } else {
        assert t.workers[w] == Loading(d);
      }
    }
  }

  /** At the end, the failing digests that were met are why the walk has not settled. */
  lemma SettledIffNoneFailing(g: Graph, root: Digest, t: Sys, failing: set<Digest>)
    requires Inv(g, root, t) && Stopped(t) && FailuresKept(t, failing)
    ensures Settled(t) <==> forall d :: d in failing ==> !Reachable(g, root, d)
  {
    if Settled(t) {
      SettledIsComplete(g, root, t);
      assert forall d :: d in failing && d in t.seen ==> HasTaskOn(t, d);
    } else {
      var w :| 0 <= w < WORKERS && t.workers[w].Failed?;
      assert t.workers[w].digest in t.seen;
    }
  }

  /**
   The walk itself: some worker that can move does, until none can. Loading the manifests in `failing`,
   or scanning their blobs, throws; the walk settles exactly when none of them is reachable.
   */
  method Walk(g: Graph, root: Digest, failing: set<Digest>)
    returns (settled: bool, result: Option<nat>, ghost final: Sys, ghost schedule: seq<Turn>)
    ensures Run(g, root, Init(root), schedule, final) && Stopped(final)
    ensures settled <==> Settled(final)
    ensures settled <==> forall d :: d in failing ==> !Reachable(g, root, d)
    ensures settled ==> Complete(g, root, final) && result == Outcome(final)
  {
    var s := Init(root);
    schedule := [];
    InitInv(g, root);
    while Active(s.workers[0]) || Active(s.workers[1]) || Active(s.workers[2])
      invariant Inv(g, root, s) && FailuresKept(s, failing) && Run(g, root, Init(root), schedule, s)
      decreases Remaining(g, s)
    {
      var w: nat :| w < WORKERS && Active(s.workers[w]);
      var fails := FailsNow(s, w, failing);
      StepDecreases(g, root, s, w, fails);
      StepKeepsInv(g, root, s, w, fails);
      StepKeepsFailures(g, root, s, w, failing);
      Extend(g, root, Init(root), schedule, s, Turn(w, fails));
      schedule := schedule + [Turn(w, fails)];
      s := Step(g, root, s, w, fails);
    }
    SettledIffNoneFailing(g, root, s, failing);
    settled := s.workers == [Exited, Exited, Exited];
    result := Outcome(s);
    final := s;
    if settled {
      SettledIsComplete(g, root, s);
    }
  }

  lemma {:induction false} Extend(g: Graph, root: Digest, s: Sys, schedule: seq<Turn>, t: Sys, turn: Turn)
    requires Run(g, root, s, schedule, t) && CanStep(t, turn.worker)
    ensures Run(g, root, s, schedule + [turn], Step(g, root, t, turn.worker, turn.fails))
    decreases |schedule|
  {
    var longer := schedule + [turn];
    if schedule == [] {
      assert longer[1..] == [];
    } else {
      assert longer[0] == schedule[0] && longer[1..] == schedule[1..] + [turn];
      Extend(g, root, Step(g, root, s, schedule[0].worker, schedule[0].fails), schedule[1..], t, turn);
    }
  }
}
