/** The fixed-window throttle: one counter per key. Times are in milliseconds. */
module Throttle {
  import opened Options

  /** The stored hash of scope and key stands for the pair. */
  datatype Key = Key(scope: string, key: string)

  datatype Bucket = Bucket(count: nat, resetAt: int)

  datatype Limits = Limits(windowSeconds: nat, maxAttempts: nat)

  function Window(limits: Limits): nat {
    1000 * limits.windowSeconds
  }

  datatype Outcome = Allowed(bucket: Bucket) | Throttled(retryAfter: int, bucket: Bucket)

  // ----- one bucket -----

  /** The row after one more attempt: an insert, or the two conditional updates. */
  function Counted(bucket: Option<Bucket>, limits: Limits, now: int): Bucket {
    match bucket
    case None => Bucket(1, now + Window(limits))
    case Some(b) =>
      if b.resetAt <= now then Bucket(1, now + Window(limits)) else Bucket(b.count + 1, b.resetAt)
  }

  /** `Math.ceil(ms / 1000)`. */
  function CeilSeconds(ms: int): (s: int)
    ensures 1000 * (s - 1) < ms <= 1000 * s
  {
    -((-ms) / 1000)
  }

  function RetryAfterSeconds(bucket: Bucket, now: int): int {
    var s := CeilSeconds(bucket.resetAt - now);
    if s > 1 then s else 1
  }

  function Decide(bucket: Bucket, limits: Limits, now: int): Outcome {
    if bucket.count <= limits.maxAttempts then Allowed(bucket)
    else Throttled(RetryAfterSeconds(bucket, now), bucket)
  }

  // ----- the table -----

  type Table = map<Key, Bucket>

  function Row(table: Table, key: Key): Option<Bucket> {
    if key in table then Some(table[key]) else None
  }

  predicate Expired(bucket: Bucket, now: int) {
    bucket.resetAt < now
  }

  function Swept(table: Table, now: int): Table {
    map key | key in table && !Expired(table[key], now) :: table[key]
  }

  class ThrottleTable {
    var buckets: Table

    constructor ()
      ensures buckets == map[]
    {
      buckets := map[];
    }

    method Consume(key: Key, limits: Limits, now: int) returns (outcome: Outcome)
      modifies this
      ensures buckets == old(buckets)[key := Counted(Row(old(buckets), key), limits, now)]
      ensures outcome == Decide(buckets[key], limits, now)
    {
      if key !in buckets {
        buckets := buckets[key := Bucket(1, now + 1000 * limits.windowSeconds)];
      } else {
        var row := buckets[key];
        var restarts := row.resetAt <= now;
        buckets := buckets[key := Bucket(if restarts then 1 else row.count + 1,
                                         if restarts then now + 1000 * limits.windowSeconds else row.resetAt)];
      }
      var bucket := buckets[key];
      if bucket.count <= limits.maxAttempts {
        return Allowed(bucket);
      }
      return Throttled(RetryAfterSeconds(bucket, now), bucket);
    }

    method Clear(key: Key)
      modifies this
      ensures Row(buckets, key).None?
      ensures forall other :: other != key ==> Row(buckets, other) == Row(old(buckets), other)
    {
      buckets := buckets - {key};
    }

    method Sweep(now: int) returns (deleted: nat)
      modifies this
      ensures buckets == Swept(old(buckets), now)
      ensures forall key :: Row(buckets, key) ==
                if key in old(buckets) && now <= old(buckets)[key].resetAt then Row(old(buckets), key) else None
      ensures deleted == |old(buckets)| - |buckets|
    {
      ghost var before := buckets;
      var gone := set key | key in buckets && Expired(buckets[key], now);
      SweptSize(buckets, gone, now);
      buckets := Swept(buckets, now);
      deleted := |gone|;
    }
  }

  lemma SweptSize(table: Table, gone: set<Key>, now: int)
    requires forall key :: key in gone <==> key in table && Expired(table[key], now)
    ensures |Swept(table, now)| == |table| - |gone|
  {
    assert Swept(table, now).Keys == table.Keys - gone;
    assert |Swept(table, now)| == |Swept(table, now).Keys| && |table| == |table.Keys|;
  }

  // ----- retrying -----

  /**
   A throttled caller that waits the stated seconds, with no other attempt on its key, is let
   through and one second less is never enough, unless no attempt is ever allowed.
   */
  lemma RetryAfterIsLeastWait(bucket: Option<Bucket>, limits: Limits, now: int, seconds: nat)
    requires Decide(Counted(bucket, limits, now), limits, now).Throttled?
    ensures var first := Decide(Counted(bucket, limits, now), limits, now);
            var later := now + 1000 * seconds;
            Decide(Counted(Some(first.bucket), limits, later), limits, later).Allowed? <==>
            limits.maxAttempts > 0 && seconds >= first.retryAfter
  {
  }

  // ----- sweeping is never noticed -----

  /** The same row, or on both sides none that an attempt from now on would still count. */
  ghost predicate Alike(a: Option<Bucket>, b: Option<Bucket>, now: int) {
    a == b || ((a.None? || a.value.resetAt <= now) && (b.None? || b.value.resetAt <= now))
  }

  ghost predicate TablesAlike(a: Table, b: Table, now: int) {
    forall key :: Alike(Row(a, key), Row(b, key), now)
  }

  datatype Event = Attempt(key: Key, limits: Limits, at: int) | Cleared(key: Key, at: int) | Sweep(at: int)

  function Next(table: Table, e: Event): Table {
    match e
    case Attempt(key, limits, at) => table[key := Counted(Row(table, key), limits, at)]
    case Cleared(key, _) => table - {key}
    case Sweep(at) => Swept(table, at)
  }

  /** The outcome of every attempt of a history, in order. */
  function Outcomes(table: Table, events: seq<Event>): seq<Outcome>
    decreases |events|
  {
    if events == [] then []
    else
      var e := events[0];
      var rest := Outcomes(Next(table, e), events[1..]);
      if e.Attempt? then [Decide(Counted(Row(table, e.key), e.limits, e.at), e.limits, e.at)] + rest else rest
  }

  function WithoutSweeps(events: seq<Event>): seq<Event> {
    if events == [] then []
    else if events[0].Sweep? then WithoutSweeps(events[1..])
    else [events[0]] + WithoutSweeps(events[1..])
  }

  predicate InOrder(from: int, events: seq<Event>)
    decreases |events|
  {
    events == [] || (from <= events[0].at && InOrder(events[0].at, events[1..]))
  }

  lemma NextAlike(a: Table, b: Table, e: Event)
    requires TablesAlike(a, b, e.at) && !e.Sweep?
    ensures TablesAlike(Next(a, e), Next(b, e), e.at)
    ensures e.Attempt? ==> Counted(Row(a, e.key), e.limits, e.at) == Counted(Row(b, e.key), e.limits, e.at)
  {
    assert Alike(Row(a, e.key), Row(b, e.key), e.at);
    forall key
      ensures Alike(Row(Next(a, e), key), Row(Next(b, e), key), e.at)
    {
      assert Alike(Row(a, key), Row(b, key), e.at);
    }
  }

  /** With time that does not go back, leaving out the sweeps changes no outcome, bucket and waiting time included. */
  lemma {:induction false} SweepsUnnoticed(a: Table, b: Table, now: int, events: seq<Event>)
    requires TablesAlike(a, b, now) && InOrder(now, events)
    ensures Outcomes(a, events) == Outcomes(b, WithoutSweeps(events))
    decreases |events|
  {
    if events != [] {
      var e := events[0];
      if e.Sweep? {
        SweepsUnnoticed(Swept(a, e.at), b, e.at, events[1..]);
      } else {
        NextAlike(a, b, e);
        assert WithoutSweeps(events)[0] == e;
        SweepsUnnoticed(Next(a, e), Next(b, e), e.at, events[1..]);
        assert WithoutSweeps(events)[1..] == WithoutSweeps(events[1..]);
      }
    }
  }

  // ----- how many attempts any window lets through -----

  predicate Increasing(from: int, times: seq<int>)
    decreases |times|
  {
    times == [] || (from <= times[0] && Increasing(times[0], times[1..]))
  }

  /** The attempts on one key that are let through at a time in [lo, hi). */
  function LetThrough(bucket: Option<Bucket>, limits: Limits, times: seq<int>, lo: int, hi: int): nat
    decreases |times|
  {
    if times == [] then 0
    else
      var b := Counted(bucket, limits, times[0]);
      (if lo <= times[0] < hi && b.count <= limits.maxAttempts then 1 else 0)
      + LetThrough(Some(b), limits, times[1..], lo, hi)
  }

  function Left(limits: Limits, count: nat): nat {
    if count <= limits.maxAttempts then limits.maxAttempts - count else 0
  }

  /** The most that can still be let through in a window of full length that starts at `lo`. */
  function Budget(bucket: Option<Bucket>, limits: Limits, lo: int): nat
    requires limits.maxAttempts > 0
  {
    var both := 2 * limits.maxAttempts - 1;
    match bucket
    case None => both
    case Some(b) =>
      if b.resetAt <= lo then both
      else if b.resetAt < lo + Window(limits) then Left(limits, b.count) + limits.maxAttempts
      else Left(limits, b.count)
  }

  lemma {:induction false} NothingAfter(bucket: Option<Bucket>, limits: Limits, times: seq<int>, lo: int, hi: int)
    requires Increasing(hi, times)
    ensures LetThrough(bucket, limits, times, lo, hi) == 0
    decreases |times|
  {
    if times != [] {
      NothingAfter(Some(Counted(bucket, limits, times[0])), limits, times[1..], lo, hi);
    }
  }

  lemma {:induction false} BudgetSuffices(bucket: Option<Bucket>, limits: Limits, now: int, times: seq<int>, lo: int)
    requires limits.maxAttempts > 0 && Increasing(now, times)
    requires bucket.Some? ==> bucket.value.count > 0
    ensures LetThrough(bucket, limits, times, lo, lo + Window(limits)) <= Budget(bucket, limits, lo)
    decreases |times|
  {
    if times != [] {
      var t, hi := times[0], lo + Window(limits);
      var b := Counted(bucket, limits, t);
      if t >= hi {
        NothingAfter(bucket, limits, times, lo, hi);
      } else {
        BudgetSuffices(Some(b), limits, t, times[1..], lo);
      }
    }
  }

  /**
   From a fresh key, any half-open interval as long as the window lets at most 2 * maxAttempts - 1
   attempts through: one less than two full windows, since the older window spent one before the interval.
   */
  lemma WindowBound(limits: Limits, now: int, times: seq<int>, lo: int)
    requires Increasing(now, times)
    ensures LetThrough(None, limits, times, lo, lo + Window(limits)) <=
            if limits.maxAttempts == 0 then 0 else 2 * limits.maxAttempts - 1
  {
    if limits.maxAttempts > 0 {
      BudgetSuffices(None, limits, now, times, lo);
    } else {
      NoneAllowed(None, limits, times, lo, lo + Window(limits));
    }
  }

  lemma {:induction false} NoneAllowed(bucket: Option<Bucket>, limits: Limits, times: seq<int>, lo: int, hi: int)
    requires limits.maxAttempts == 0
    ensures LetThrough(bucket, limits, times, lo, hi) == 0
    decreases |times|
  {
    if times != [] {
      NoneAllowed(Some(Counted(bucket, limits, times[0])), limits, times[1..], lo, hi);
    }
  }

  // ----- the bound is met -----

  function Times(t: int, n: nat): (times: seq<int>) {
    seq(n, i => t)
  }

  /** A run of attempts at one time inside a window, then further attempts. */
  lemma {:induction false} Burst(b: Bucket, limits: Limits, t: int, n: nat, rest: seq<int>, lo: int, hi: int)
    requires t < b.resetAt && lo <= t < hi && b.count + n <= limits.maxAttempts
    ensures LetThrough(Some(b), limits, Times(t, n) + rest, lo, hi) ==
            n + LetThrough(Some(Bucket(b.count + n, b.resetAt)), limits, rest, lo, hi)
    decreases n
  {
    if n == 0 {
      assert Times(t, 0) + rest == rest;
    } else {
      var times := Times(t, n) + rest;
      assert times[0] == t && times[1..] == Times(t, n - 1) + rest;
      Burst(Bucket(b.count + 1, b.resetAt), limits, t, n - 1, rest, lo, hi);
    }
  }

  /** One attempt, the rest of its window just before it ends, and a full window right after. */
  function Edge(limits: Limits): seq<int>
    requires limits.maxAttempts > 0
  {
    var w, n := Window(limits), limits.maxAttempts - 1;
    [0] + (Times(w - 1, n) + ([w] + Times(w, n)))
  }

  lemma {:induction false} SteadyIncreasing(t: int, n: nat, rest: seq<int>)
    requires Increasing(t, rest)
    ensures Increasing(t, Times(t, n) + rest)
    decreases n
  {
    if n == 0 {
      assert Times(t, 0) + rest == rest;
    } else {
      assert (Times(t, n) + rest)[1..] == Times(t, n - 1) + rest;
      SteadyIncreasing(t, n - 1, rest);
    }
  }

  /** The bound cannot be lowered, whatever the limits. */
  lemma BoundIsMet(limits: Limits)
    requires limits.maxAttempts > 0 && limits.windowSeconds > 0
    ensures Increasing(0, Edge(limits))
    ensures LetThrough(None, limits, Edge(limits), 1, 1 + Window(limits)) == 2 * limits.maxAttempts - 1
  {
    var w, n := Window(limits), limits.maxAttempts - 1;
    var late := [w] + Times(w, n);
    assert Times(w, n) + [] == Times(w, n) && late[1..] == Times(w, n);
    Burst(Bucket(1, 2 * w), limits, w, n, [], 1, 1 + w);
    Burst(Bucket(1, w), limits, w - 1, n, late, 1, 1 + w);
    assert Edge(limits)[1..] == Times(w - 1, n) + late;
    SteadyIncreasing(w, n, []);
    SteadyIncreasing(w - 1, n, late);
  }
}
