/** The slot limiter: a finishing task hands its slot to the longest waiting one. */
module AsyncLimiter {
  import opened Options
  import opened Recency

  type Task = nat

  /** The limiter's two variables. */
  datatype Slots = Slots(active: nat, waiting: seq<Task>)

  function Acquired(s: Slots, concurrency: nat, task: Task): (next: Slots) {
    if s.active < concurrency then s.(active := s.active + 1) else s.(waiting := s.waiting + [task])
  }

  function Released(s: Slots): (next: Slots) {
    if s.waiting != [] then s.(waiting := s.waiting[1..])
    else s.(active := if s.active > 0 then s.active - 1 else 0)
  }

  class Limiter {
    const concurrency: nat
    var active: nat
    var waiting: seq<Task>

    function State(): Slots
      reads this
    {
      Slots(active, waiting)
    }

    constructor (concurrency: nat)
      requires concurrency > 0
      ensures this.concurrency == concurrency && State() == Slots(0, [])
    {
      this.concurrency := concurrency;
      active, waiting := 0, [];
    }

    /** True when the caller goes on at once; otherwise it has been queued. */
    method Acquire(task: Task) returns (granted: bool)
      modifies this
      ensures State() == Acquired(old(State()), concurrency, task)
      ensures granted <==> old(active) < concurrency
    {
      if active < concurrency {
        active := active + 1;
        return true;
      }
      waiting := waiting + [task];
      return false;
    }

    /** Runs when a task ends, whether it succeeded or threw; names the waiter that goes on, if any. */
    method Release() returns (next: Option<Task>)
      modifies this
      ensures State() == Released(old(State()))
      ensures next == if old(waiting) != [] then Some(old(waiting)[0]) else None
    {
      if waiting != [] {
        next := Some(waiting[0]);
        waiting := waiting[1..];
      } else {
        next := None;
        active := if active > 0 then active - 1 else 0;
      }
    }
  }

  // ----- runs -----

  /** The limiter, the tasks in the order of their calls and of their slots, and those that ended. */
  datatype Sys = Sys(slots: Slots, called: seq<Task>, granted: seq<Task>, ended: set<Task>)

  datatype Event = Call(task: Task) | End(task: Task, failed: bool)

  predicate Holding(s: Sys, task: Task) {
    task in s.granted && task !in s.ended
  }

  /** A task calls once, and ends once it holds a slot. */
  predicate Enabled(s: Sys, e: Event) {
    match e
    case Call(task) => task !in s.called
    case End(task, _) => Holding(s, task)
  }

  function Apply(s: Sys, concurrency: nat, e: Event): Sys {
    match e
    case Call(task) =>
      s.(slots := Acquired(s.slots, concurrency, task),
         called := s.called + [task],
         granted := if s.slots.active < concurrency then s.granted + [task] else s.granted)
    case End(task, _) =>
      s.(slots := Released(s.slots),
         granted := if s.slots.waiting != [] then s.granted + [s.slots.waiting[0]] else s.granted,
         ended := s.ended + {task})
  }

  const START := Sys(Slots(0, []), [], [], {})

  ghost predicate Run(concurrency: nat, s: Sys, events: seq<Event>, t: Sys)
    decreases |events|
  {
    if events == [] then s == t
    else Enabled(s, events[0]) && Run(concurrency, Apply(s, concurrency, events[0]), events[1..], t)
  }

  ghost predicate Reachable(concurrency: nat, s: Sys) {
    exists events :: Run(concurrency, START, events, s)
  }

  /** Slots held are slots given out and not ended; nobody waits while one is free; slots go out in the order of the calls. */
  ghost predicate Inv(s: Sys, concurrency: nat) {
    && s.granted + s.slots.waiting == s.called
    && Distinct(s.called)
    && (forall task :: task in s.ended ==> task in s.granted)
    && s.slots.active == |s.granted| - |s.ended|
    && s.slots.active <= concurrency
    && (s.slots.waiting != [] ==> s.slots.active == concurrency)
  }

  lemma CallKeepsInv(s: Sys, concurrency: nat, task: Task)
    requires Inv(s, concurrency) && task !in s.called
    ensures Inv(Apply(s, concurrency, Call(task)), concurrency)
  {
    var next := Apply(s, concurrency, Call(task));
    if s.slots.active < concurrency {
      assert s.slots.waiting == [] && s.granted == s.called;
      assert s.granted + [task] + [] == s.called + [task];
    } else {
      assert s.granted + (s.slots.waiting + [task]) == s.called + [task];
    }
  }

  lemma PrefixDistinct(front: seq<Task>, back: seq<Task>)
    requires Distinct(front + back)
    ensures Distinct(front)
  {
    assert forall i :: 0 <= i < |front| ==> front[i] == (front + back)[i];
  }

  ghost function HoldersOf(s: Sys): set<Task> {
    KeysOf(s.granted) - s.ended
  }

  lemma HoldersCount(s: Sys, concurrency: nat)
    requires Inv(s, concurrency)
    ensures |HoldersOf(s)| == s.slots.active
  {
    PrefixDistinct(s.granted, s.slots.waiting);
    DistinctSize(s.granted);
    assert s.ended <= KeysOf(s.granted);
  }

  /** A task that ends holds a slot, so the floor at zero is never what decides. */
  lemma EndHoldsSlot(s: Sys, concurrency: nat, task: Task)
    requires Inv(s, concurrency) && Holding(s, task)
    ensures s.slots.active > 0
  {
    HoldersCount(s, concurrency);
    assert task in HoldersOf(s);
  }

  lemma EndKeepsInv(s: Sys, concurrency: nat, task: Task, failed: bool)
    requires Inv(s, concurrency) && Holding(s, task)
    ensures Inv(Apply(s, concurrency, End(task, failed)), concurrency)
  {
    EndHoldsSlot(s, concurrency, task);
    var w := s.slots.waiting;
    if w != [] {
      assert w == [w[0]] + w[1..];
      assert s.granted + [w[0]] + w[1..] == s.called;
    }
  }

  lemma StepKeepsInv(s: Sys, concurrency: nat, e: Event)
    requires Inv(s, concurrency) && Enabled(s, e)
    ensures Inv(Apply(s, concurrency, e), concurrency)
  {
    match e
    case Call(task) => CallKeepsInv(s, concurrency, task);
    case End(task, failed) => EndKeepsInv(s, concurrency, task, failed);
  }

  lemma {:induction false} RunKeepsInv(concurrency: nat, s: Sys, events: seq<Event>, t: Sys)
    requires Inv(s, concurrency) && Run(concurrency, s, events, t)
    ensures Inv(t, concurrency)
    decreases |events|
  {
    if events != [] {
      StepKeepsInv(s, concurrency, events[0]);
      RunKeepsInv(concurrency, Apply(s, concurrency, events[0]), events[1..], t);
    }
  }

  lemma ReachableInv(concurrency: nat, s: Sys)
    requires Reachable(concurrency, s)
    ensures Inv(s, concurrency)
  {
    var events :| Run(concurrency, START, events, s);
    RunKeepsInv(concurrency, START, events, s);
  }

  // ----- what every run guarantees -----

  /** Never more tasks at work than the limit, however tasks end. */
  lemma NeverAboveLimit(concurrency: nat, s: Sys)
    requires Reachable(concurrency, s)
    ensures |HoldersOf(s)| <= concurrency
  {
    ReachableInv(concurrency, s);
    HoldersCount(s, concurrency);
  }

  /**
   Which tasks have a slot depends on nothing but how many called and how many ended: the first
   callers, as many as there are slots and endings. So service is first come first served, a waiter
   at place p goes on at the p-th ending, and no ending is lost.
   */
  lemma GrantedIsPrefix(concurrency: nat, s: Sys)
    requires Reachable(concurrency, s)
    ensures var n := concurrency + |s.ended|;
            s.granted == if |s.called| <= n then s.called else s.called[..n]
  {
    ReachableInv(concurrency, s);
    assert s.called[..|s.granted|] == s.granted;
    if s.slots.waiting == [] {
      assert s.granted == s.called;
    }
  }

  /** With a positive limit somebody is at work whenever somebody waits, so the queue cannot be stuck. */
  lemma WaitersImplyWork(concurrency: nat, s: Sys)
    requires Reachable(concurrency, s) && concurrency > 0 && s.slots.waiting != []
    ensures exists task :: Holding(s, task)
  {
    ReachableInv(concurrency, s);
    HoldersCount(s, concurrency);
    assert HoldersOf(s) != {};
    var task :| task in HoldersOf(s);
    assert Holding(s, task);
  }
}
