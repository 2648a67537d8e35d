/** Mapping a list with a bounded number of workers that take the next index from a shared counter. */
module BoundedMap {
  import opened Options

  /** Where a worker is: at the top of its loop, waiting for the item it took, finished, or stopped by an error. */
  datatype Worker = AtTop | Busy(index: nat) | Finished | Threw(index: nat)

  /** `settled` records every value a worker was given, with the index it was given for. */
  datatype Pool<R> = Pool(next: nat, workers: seq<Worker>, results: seq<Option<R>>, settled: map<nat, R>)

  datatype Event<R> = Advance(w: nat) | Settle(w: nat, value: R) | Reject(w: nat)

  predicate Enabled<R>(p: Pool<R>, e: Event<R>) {
    e.w < |p.workers| &&
    match e
    case Advance(w) => p.workers[w].AtTop?
    case Settle(w, _) => p.workers[w].Busy?
    case Reject(w) => p.workers[w].Busy?
  }

  function Apply<R>(p: Pool<R>, e: Event<R>): Pool<R>
    requires Enabled(p, e)
  {
    match e
    case Advance(w) =>
      if p.next < |p.results| then p.(next := p.next + 1, workers := p.workers[w := Busy(p.next)])
      else p.(workers := p.workers[w := Finished])
    case Settle(w, value) =>
      var index := p.workers[w].index;
      if index < |p.results| then
        p.(workers := p.workers[w := AtTop],
           results := p.results[index := Some(value)],
           settled := p.settled[index := value])
      else p
    case Reject(w) => p.(workers := p.workers[w := Threw(p.workers[w].index)])
  }

  function Start<R>(length: nat, concurrency: nat): Pool<R> {
    Pool(0, seq(if concurrency < length then concurrency else length, i => AtTop), seq(length, i => None), map[])
  }

  ghost predicate Run<R(!new)>(p: Pool<R>, events: seq<Event<R>>, q: Pool<R>)
    decreases |events|
  {
    if events == [] then p == q
    else Enabled(p, events[0]) && Run(Apply(p, events[0]), events[1..], q)
  }

  predicate Took(worker: Worker, index: nat) {
    (worker.Busy? || worker.Threw?) && worker.index == index
  }

  /** Indices are taken once: each below the counter is with one worker or settled, each above is untouched. */
  ghost predicate Inv<R>(p: Pool<R>) {
    && p.next <= |p.results|
    && (forall i :: 0 <= i < |p.results| ==> p.results[i] == if i in p.settled then Some(p.settled[i]) else None)
    && (forall i :: i in p.settled ==> i < p.next)
    && (forall w :: 0 <= w < |p.workers| && (p.workers[w].Busy? || p.workers[w].Threw?) ==>
                      p.workers[w].index < p.next && p.workers[w].index !in p.settled)
    && (forall v, w, i: nat :: 0 <= v < w < |p.workers| && Took(p.workers[v], i) ==> !Took(p.workers[w], i))
    && (forall i: nat :: i < p.next && i !in p.settled ==>
                           exists w :: 0 <= w < |p.workers| && Took(p.workers[w], i))
    && (forall w :: 0 <= w < |p.workers| && p.workers[w].Finished? ==> p.next == |p.results|)
  }

  lemma AdvanceKeepsInv<R>(p: Pool<R>, w: nat)
    requires Inv(p) && Enabled(p, Advance(w))
    ensures Inv(Apply(p, Advance(w)))
  {
    var q := Apply(p, Advance(w));
    forall i: nat | i < q.next && i !in q.settled
      ensures exists v :: 0 <= v < |q.workers| && Took(q.workers[v], i)
    {
      if i < p.next {
        var v :| 0 <= v < |p.workers| && Took(p.workers[v], i);
        assert Took(q.workers[v], i);
      } else {
        assert Took(q.workers[w], i);
      }
    }
  }

  lemma SettleKeepsInv<R>(p: Pool<R>, w: nat, value: R)
    requires Inv(p) && Enabled(p, Settle(w, value))
    ensures Inv(Apply(p, Settle(w, value)))
    ensures p.workers[w].index !in p.settled
  {
    var q := Apply(p, Settle(w, value));
    var index := p.workers[w].index;
    assert Took(p.workers[w], index);
    forall i: nat | i < q.next && i !in q.settled
      ensures exists v :: 0 <= v < |q.workers| && Took(q.workers[v], i)
    {
      var v :| 0 <= v < |p.workers| && Took(p.workers[v], i);
      assert Took(q.workers[v], i);
    }
  }

  lemma RejectKeepsInv<R>(p: Pool<R>, w: nat)
    requires Inv(p) && Enabled(p, Reject(w))
    ensures Inv(Apply(p, Reject(w)))
  {
    var q := Apply(p, Reject(w));
    assert forall v, i: nat :: 0 <= v < |p.workers| ==> (Took(p.workers[v], i) <==> Took(q.workers[v], i));
  }

  lemma StepKeepsInv<R(!new)>(p: Pool<R>, e: Event<R>)
    requires Inv(p) && Enabled(p, e)
    ensures Inv(Apply(p, e))
    ensures |Apply(p, e).results| == |p.results| && |Apply(p, e).workers| == |p.workers|
  {
    match e
    case Advance(w) => AdvanceKeepsInv(p, w);
    case Settle(w, value) => SettleKeepsInv(p, w, value);
    case Reject(w) => RejectKeepsInv(p, w);
  }

  lemma {:induction false} RunKeepsInv<R(!new)>(p: Pool<R>, events: seq<Event<R>>, q: Pool<R>)
    requires Inv(p) && Run(p, events, q)
    ensures Inv(q) && |q.results| == |p.results| && |q.workers| == |p.workers|
    decreases |events|
  {
    if events != [] {
      StepKeepsInv(p, events[0]);
      RunKeepsInv(Apply(p, events[0]), events[1..], q);
    }
  }

  predicate AllFinished<R>(p: Pool<R>) {
    forall w :: 0 <= w < |p.workers| ==> p.workers[w].Finished?
  }

  /**
   Under every schedule, once all workers have returned, each index was settled and the result
   list holds, in input order, the value settled for each.
   */
  lemma ResultsInInputOrder<R(!new)>(length: nat, concurrency: nat, events: seq<Event<R>>, p: Pool<R>)
    requires concurrency > 0 && Run(Start(length, concurrency), events, p) && AllFinished(p)
    ensures forall i: nat :: i in p.settled <==> i < length
    ensures |p.results| == length && forall i :: 0 <= i < length ==> p.results[i] == Some(p.settled[i])
  {
    RunKeepsInv(Start(length, concurrency), events, p);
    assert length > 0 ==> p.workers[0].Finished?;
  }

  // ----- each index once -----

  /** How often the schedule starts work on an index. */
  function Starts<R>(p: Pool<R>, events: seq<Event<R>>, index: nat): nat
    decreases |events|
  {
    if events == [] || !Enabled(p, events[0]) then 0
    else
      (if events[0].Advance? && p.next < |p.results| && p.next == index then 1 else 0)
      + Starts(Apply(p, events[0]), events[1..], index)
  }

  lemma {:induction false} StartsOnce<R(!new)>(p: Pool<R>, events: seq<Event<R>>, q: Pool<R>, index: nat)
    requires Inv(p) && Run(p, events, q)
    ensures p.next <= q.next
    ensures Starts(p, events, index) == if p.next <= index < q.next then 1 else 0
    decreases |events|
  {
    if events != [] {
      StepKeepsInv(p, events[0]);
      StartsOnce(Apply(p, events[0]), events[1..], q, index);
    }
  }

  /** When the map is done each index was started exactly once, whatever the schedule. */
  lemma EachIndexOnce<R(!new)>(length: nat, concurrency: nat, events: seq<Event<R>>, p: Pool<R>, index: nat)
    requires concurrency > 0 && Run(Start(length, concurrency), events, p) && AllFinished(p)
    ensures Starts(Start(length, concurrency), events, index) == if index < length then 1 else 0
  {
    RunKeepsInv(Start(length, concurrency), events, p);
    StartsOnce(Start(length, concurrency), events, p, index);
    assert length > 0 ==> p.workers[0].Finished?;
  }

  // ----- every schedule ends -----

  /** Steps still to come from a worker: its item's end, and finding that there is none left. */
  function Steps(worker: Worker): nat {
    match worker
    case AtTop => 1
    case Busy(_) => 2
    case _ => 0
  }

  function StepsOf(workers: seq<Worker>): nat {
    if workers == [] then 0 else StepsOf(workers[..|workers| - 1]) + Steps(workers[|workers| - 1])
  }

  lemma {:induction false} StepsChange(workers: seq<Worker>, w: nat, worker: Worker)
    requires w < |workers|
    ensures StepsOf(workers[w := worker]) == StepsOf(workers) - Steps(workers[w]) + Steps(worker)
  {
    var changed, last := workers[w := worker], |workers| - 1;
    if w == last {
      assert changed[..last] == workers[..last];
    } else {
      assert changed[..last] == workers[..last][w := worker];
      StepsChange(workers[..last], w, worker);
    }
  }

  function Ahead<R>(p: Pool<R>): int {
    2 * (|p.results| - p.next) + StepsOf(p.workers)
  }

  lemma StepPays<R(!new)>(p: Pool<R>, e: Event<R>)
    requires Inv(p) && Enabled(p, e)
    ensures Ahead(Apply(p, e)) < Ahead(p)
  {
    var w := e.w;
    StepsChange(p.workers, w, Apply(p, e).workers[w]);
    assert Apply(p, e).workers == p.workers[w := Apply(p, e).workers[w]];
  }

  lemma {:induction false} RunPays<R(!new)>(p: Pool<R>, events: seq<Event<R>>, q: Pool<R>)
    requires Inv(p) && Run(p, events, q)
    ensures |events| + Ahead(q) <= Ahead(p) && Ahead(q) >= 0
    decreases |events|
  {
    if events != [] {
      StepPays(p, events[0]);
      StepKeepsInv(p, events[0]);
      RunPays(Apply(p, events[0]), events[1..], q);
    }
  }

  lemma {:induction false} IdleSteps(workers: seq<Worker>)
    requires forall w :: 0 <= w < |workers| ==> workers[w].AtTop?
    ensures StepsOf(workers) == |workers|
  {
    if workers != [] {
      IdleSteps(workers[..|workers| - 1]);
    }
  }

  /** Every schedule is finite: two steps an item, and one for each worker to find that there is no more. */
  lemma ScheduleBounded<R(!new)>(length: nat, concurrency: nat, events: seq<Event<R>>, p: Pool<R>)
    requires Run(Start(length, concurrency), events, p)
    ensures |events| <= 2 * length + concurrency
  {
    var start := Start<R>(length, concurrency);
    RunPays(start, events, p);
    IdleSteps(start.workers);
  }

  // ----- the limit -----

  /** The indices the workers have in their hands. */
  function InHand(workers: seq<Worker>): (taken: set<nat>)
    ensures |taken| <= |workers|
  {
    if workers == [] then {}
    else
      var last := workers[|workers| - 1];
      InHand(workers[..|workers| - 1]) + if last.Busy? || last.Threw? then {last.index} else {}
  }

  lemma {:induction false} InHandHas(workers: seq<Worker>, w: nat, index: nat)
    requires w < |workers| && Took(workers[w], index)
    ensures index in InHand(workers)
  {
    if w < |workers| - 1 {
      InHandHas(workers[..|workers| - 1], w, index);
    }
  }

  lemma {:induction false} SizeBelow(n: nat, subset: set<nat>)
    requires forall i :: i in subset ==> i < n
    ensures |set i: nat | i < n && i !in subset| == n - |subset|
  {
    var rest := set i: nat | i < n && i !in subset;
    if n == 0 {
      assert rest == {} && subset == {};
    } else {
      var smaller := subset - {n - 1};
      SizeBelow(n - 1, smaller);
      var before := set i: nat | i < n - 1 && i !in smaller;
      assert rest == if n - 1 in subset then before else before + {n - 1};
    }
  }

  /** Under every schedule, the items started and not yet settled never outnumber the limit. */
  lemma NeverAboveLimit<R(!new)>(length: nat, concurrency: nat, events: seq<Event<R>>, p: Pool<R>)
    requires Run(Start(length, concurrency), events, p)
    ensures p.next - |p.settled| <= concurrency
  {
    RunKeepsInv(Start(length, concurrency), events, p);
    var pending := set i: nat | i < p.next && i !in p.settled.Keys;
    SizeBelow(p.next, p.settled.Keys);
    forall i | i in pending
      ensures i in InHand(p.workers)
    {
      var w :| 0 <= w < |p.workers| && Took(p.workers[w], i);
      InHandHas(p.workers, w, i);
    }
    SizeMonotone(pending, InHand(p.workers));
  }

  lemma {:induction false} SizeMonotone(a: set<nat>, b: set<nat>)
    requires a <= b
    ensures |a| <= |b|
  {
    assert b == a + (b - a);
  }

  // ----- failing -----

  predicate AnyThrew<R>(p: Pool<R>) {
    exists w :: 0 <= w < |p.workers| && p.workers[w].Threw?
  }

  predicate Halted<R>(p: Pool<R>) {
    forall w :: 0 <= w < |p.workers| ==> p.workers[w].Finished? || p.workers[w].Threw?
  }

  lemma {:induction false} ThrewIffRejected<R(!new)>(p: Pool<R>, events: seq<Event<R>>, q: Pool<R>)
    requires Run(p, events, q)
    ensures AnyThrew(q) <==> AnyThrew(p) || exists e :: e in events && e.Reject?
    decreases |events|
  {
    if events != [] {
      var next := Apply(p, events[0]);
      assert next.workers[events[0].w].Threw? <==> events[0].Reject?;
      assert forall w :: 0 <= w < |p.workers| && w != events[0].w ==> next.workers[w] == p.workers[w];
      ThrewIffRejected(next, events[1..], q);
      assert forall e :: e in events <==> e == events[0] || e in events[1..];
      assert AnyThrew(next) <==> AnyThrew(p) || events[0].Reject?;
    }
  }

  /** Once no worker can move, the map has succeeded if and only if no item's work was rejected. */
  lemma SucceedsIff<R(!new)>(length: nat, concurrency: nat, events: seq<Event<R>>, p: Pool<R>)
    requires Run(Start(length, concurrency), events, p) && Halted(p)
    ensures AllFinished(p) <==> forall e :: e in events ==> !e.Reject?
  {
    ThrewIffRejected(Start(length, concurrency), events, p);
  }
}
