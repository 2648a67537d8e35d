module ScanOutboxProtocol {
  // One scan_outbox row under every interleaving of claims, heartbeats, terminal writes, worker
  // crashes, reclaims and re-publishes. A task is one claimed intent being processed somewhere; a
  // task that crashes simply never writes. The heartbeat may or may not fire.

  import opened Options
  import opened ScanOutbox

  type Task = nat

  datatype Config = Config(maxAttempts: nat, reclaimTimeout: nat)

  /** `grants` is the history of claims, oldest first; `finishedBy` the token of the last successful finish. */
  datatype Sys = Sys(
    row: Row,
    clock: Instant,
    held: map<Task, nat>,
    grants: seq<Grant>,
    resets: nat,
    finishedBy: nat)

  datatype Grant = Grant(task: Task, token: nat)

  datatype Event =
    | Tick(to: Instant)
    | ClaimRow(task: Task)
    | Beat(task: Task)
    | Finish(task: Task, scan: Result<()>)
    | Crash(task: Task)
    | ReclaimStuck
    | Publish

  function Init(now: Instant): Sys {
    Sys(FirstPublish(now), now, map[], [], 0, 0)
  }

  predicate Enabled(s: Sys, e: Event) {
    match e
    case Tick(to) => s.clock <= to
    case ClaimRow(task) => Claimable(s.row, s.clock) && forall g :: g in s.grants ==> g.task != task
    case Beat(task) => task in s.held
    case Finish(task, _) => task in s.held
    case Crash(task) => task in s.held
    case ReclaimStuck => true
    case Publish => true
  }

  function Apply(c: Config, s: Sys, e: Event): Sys
    requires Enabled(s, e)
  {
    match e
    case Tick(to) => s.(clock := to)
    case ClaimRow(task) =>
      var row := Claim(s.row, s.clock);
      s.(row := row, held := s.held[task := row.attempts], grants := s.grants + [Grant(task, row.attempts)])
    case Beat(task) => s.(row := Heartbeat(s.row, s.held[task], s.clock))
    case Finish(task, Ok(_)) =>
      s.(row := Succeed(s.row, s.held[task]), held := s.held - {task},
         finishedBy := if HoldsClaim(s.row, s.held[task]) then s.held[task] else s.finishedBy)
    case Finish(task, Err(error)) =>
      s.(row := Fail(s.row, s.held[task], error, c.maxAttempts, s.clock), held := s.held - {task})
    case Crash(task) => s.(held := s.held - {task})
    case ReclaimStuck => s.(row := Reclaim(s.row, c.reclaimTimeout, c.maxAttempts, s.clock))
    case Publish =>
      s.(row := Republish(s.row, s.clock), resets := s.resets + if s.row.status.Processing? then 0 else 1)
  }

  ghost predicate Run(c: Config, s: Sys, events: seq<Event>, t: Sys)
    decreases |events|
  {
    if events == [] then s == t
    else Enabled(s, events[0]) && Run(c, Apply(c, s, events[0]), events[1..], t)
  }

  ghost predicate Reachable(c: Config, s: Sys) {
    exists now, events :: Run(c, Init(now), events, s)
  }

  // ----- what every step keeps -----

  ghost predicate Inv(c: Config, s: Sys) {
    && |s.grants| == s.row.attempts
    && (forall i :: 0 <= i < |s.grants| ==> s.grants[i].token == i + 1)
    && (forall i, j :: 0 <= i < j < |s.grants| ==> s.grants[i].task != s.grants[j].task)
    && (forall task :: task in s.held ==> Grant(task, s.held[task]) in s.grants)
    && (s.row.status.Processing? <==> s.row.lockedAt.Some?)
    && (s.row.status.Processing? ==> 0 < s.row.attempts)
    && (s.row.status.Succeeded? ==> 0 < s.finishedBy <= s.row.attempts)
    && (s.row.status.Pending? ==> s.row.attempts < Budget(c, s))
    && s.row.attempts <= Budget(c, s)
  }

  /** The number of claims a row may see: the cap (at least one), and one more per effective reset. */
  function Budget(c: Config, s: Sys): nat {
    (if c.maxAttempts == 0 then 1 else c.maxAttempts) + s.resets
  }

  lemma StepKeepsInv(c: Config, s: Sys, e: Event)
    requires Inv(c, s) && Enabled(s, e)
    ensures Inv(c, Apply(c, s, e))
  {
    var t := Apply(c, s, e);
    if e.ClaimRow? {
      assert forall task :: task in t.held && task != e.task ==> Grant(task, s.held[task]) in s.grants;
    }
  }

  lemma {:induction false} RunKeepsInv(c: Config, s: Sys, events: seq<Event>, t: Sys)
    requires Inv(c, s) && Run(c, s, events, t)
    ensures Inv(c, t)
    decreases |events|
  {
    if events != [] {
      StepKeepsInv(c, s, events[0]);
      RunKeepsInv(c, Apply(c, s, events[0]), events[1..], t);
    }
  }

  lemma ReachableInv(c: Config, s: Sys)
    requires Reachable(c, s)
    ensures Inv(c, s)
  {
    var now, events :| Run(c, Init(now), events, s);
    RunKeepsInv(c, Init(now), events, s);
  }

  // ----- main results -----

  /** Every token goes to exactly one task, so at most one running task can ever write the row. */
  lemma TokenGrantedOnce(c: Config, s: Sys)
    requires Reachable(c, s)
    ensures forall g, h :: g in s.grants && h in s.grants && g.token == h.token ==> g == h
    ensures forall x, y ::
              (x in s.held && y in s.held && HoldsClaim(s.row, s.held[x]) && HoldsClaim(s.row, s.held[y])) ==> x == y
  {
    ReachableInv(c, s);
    forall x, y | x in s.held && y in s.held && HoldsClaim(s.row, s.held[x]) && HoldsClaim(s.row, s.held[y])
      ensures x == y
    {
      var i :| 0 <= i < |s.grants| && s.grants[i] == Grant(x, s.held[x]);
      var j :| 0 <= j < |s.grants| && s.grants[j] == Grant(y, s.held[y]);
      assert i + 1 == j + 1;
    }
  }

  /**
   Once a task's token stops matching the row it never matches again: whatever happens next, a
   late heartbeat or terminal write of that task leaves the row exactly as it finds it.
   */
  lemma {:induction false} StaleForever(c: Config, s: Sys, events: seq<Event>, t: Sys, token: nat)
    requires Inv(c, s) && token <= s.row.attempts && !HoldsClaim(s.row, token)
    requires Run(c, s, events, t)
    ensures !HoldsClaim(t.row, token) && token <= t.row.attempts
    decreases |events|
  {
    if events != [] {
      StepKeepsInv(c, s, events[0]);
      StaleForever(c, Apply(c, s, events[0]), events[1..], t, token);
    }
  }

  lemma StaleTaskNeverWrites(c: Config, s: Sys, task: Task, events: seq<Event>, t: Sys, scan: Result<()>)
    requires Reachable(c, s) && task in s.held && !HoldsClaim(s.row, s.held[task])
    requires Run(c, s, events, t) && task in t.held && t.held[task] == s.held[task]
    ensures Apply(c, t, Finish(task, scan)).row == t.row
    ensures Apply(c, t, Beat(task)).row == t.row
  {
    ReachableInv(c, s);
    assert Grant(task, s.held[task]) in s.grants;
    StaleForever(c, s, events, t, s.held[task]);
  }

  /** A row is claimed at most max(1, maxAttempts) times plus once per effective re-publish. */
  lemma ClaimsAreBounded(c: Config, s: Sys)
    requires Reachable(c, s)
    ensures |s.grants| <= Budget(c, s)
  {
    ReachableInv(c, s);
  }

  /** No row is stranded: time and the reclaim sweep alone bring any row out of `processing`. */
  lemma ReclaimFreesRow(c: Config, s: Sys) returns (events: seq<Event>, t: Sys)
    requires Reachable(c, s) && s.row.status.Processing?
    ensures Run(c, s, events, t) && !t.row.status.Processing? && t.row.attempts == s.row.attempts
    ensures t.row.status.Pending? <==> s.row.attempts < c.maxAttempts
    ensures t.row.status.Pending? ==> Claimable(t.row, t.clock)
    ensures t.grants == s.grants
    ensures forall e :: e in events ==> e.Tick? || e.ReclaimStuck?
  {
    ReachableInv(c, s);
    var due := s.row.lockedAt.value + c.reclaimTimeout + 1;
    var tick := Tick(if due < s.clock then s.clock else due);
    var s1 := Apply(c, s, tick);
    t := Apply(c, s1, ReclaimStuck);
    events := [tick, ReclaimStuck];
    assert events[1..] == [ReclaimStuck] && [ReclaimStuck][1..] == [];
    assert Run(c, t, [], t) && Run(c, s1, [ReclaimStuck], t);
  }

  /** Time passing, heartbeats, crashes and reclaims: what can happen to a row nobody finishes. */
  predicate LeavesClaim(e: Event) {
    e.Tick? || e.Beat? || e.Crash? || e.ReclaimStuck?
  }

  lemma {:induction false} ClockOnlyGrows(c: Config, s: Sys, events: seq<Event>, t: Sys)
    requires Run(c, s, events, t)
    ensures s.clock <= t.clock
    decreases |events|
  {
    if events != [] {
      ClockOnlyGrows(c, Apply(c, s, events[0]), events[1..], t);
    }
  }

  /**
   A claim is safe for the whole timeout: until the clock is past the time of the lock by more, no
   reclaim takes the row away. Together with `ReclaimFreesRow` this makes the time exact.
   */
  lemma {:induction false} NotReclaimedBefore(c: Config, s: Sys, locked: Instant, events: seq<Event>, t: Sys)
    requires Inv(c, s) && s.row.status.Processing? && locked <= s.row.lockedAt.value && locked <= s.clock
    requires Run(c, s, events, t) && t.clock <= locked + c.reclaimTimeout
    requires forall e :: e in events ==> LeavesClaim(e)
    ensures t.row.status.Processing? && t.row.attempts == s.row.attempts
    ensures t.row.lockedAt.Some? && t.row.lockedAt.value >= locked
    decreases |events|
  {
    if events != [] {
      var next := Apply(c, s, events[0]);
      assert LeavesClaim(events[0]);
      StepKeepsInv(c, s, events[0]);
      ClockOnlyGrows(c, next, events[1..], t);
      NotReclaimedBefore(c, next, locked, events[1..], t);
    }
  }

  /** From every reachable processing state: a reclaim at a given later time releases the row if and only if the lock is older than the timeout. */
  lemma ReclaimedIff(c: Config, s: Sys, now: Instant)
    requires Reachable(c, s) && s.row.status.Processing? && s.clock <= now
    ensures !Apply(c, Apply(c, s, Tick(now)), ReclaimStuck).row.status.Processing? <==>
            s.row.lockedAt.Some? && s.row.lockedAt.value + c.reclaimTimeout < now
  {
    ReachableInv(c, s);
  }

  /** A heartbeat of the task that holds the claim renews it for the whole timeout. */
  lemma BeatRenews(c: Config, s: Sys, task: Task, events: seq<Event>, t: Sys)
    requires Reachable(c, s) && task in s.held && HoldsClaim(s.row, s.held[task])
    requires Run(c, Apply(c, s, Beat(task)), events, t) && t.clock <= s.clock + c.reclaimTimeout
    requires forall e :: e in events ==> LeavesClaim(e)
    ensures t.row.status.Processing? && t.row.attempts == s.row.attempts
  {
    ReachableInv(c, s);
    StepKeepsInv(c, s, Beat(task));
    NotReclaimedBefore(c, Apply(c, s, Beat(task)), s.clock, events, t);
  }

  /** How a task's end leaves its row: settled when the claim is still the task's, untouched otherwise; and the task is over. */
  lemma TaskEnds(c: Config, s: Sys, task: Task, scan: Result<()>)
    requires task in s.held
    ensures Enabled(s, Finish(task, scan)) && Enabled(s, Crash(task))
    ensures var t := Apply(c, s, Finish(task, scan));
            && t.held == s.held - {task} && t.grants == s.grants && t.clock == s.clock
            && (!HoldsClaim(s.row, s.held[task]) ==> t.row == s.row && t.finishedBy == s.finishedBy)
            && (HoldsClaim(s.row, s.held[task]) ==>
                  && t.row.attempts == s.row.attempts && t.row.lockedAt.None?
                  && (scan.Ok? ==> t.row.status.Succeeded? && t.finishedBy == s.held[task])
                  && (scan.Err? ==> (t.row.status.Pending? <==> s.row.attempts < c.maxAttempts)
                                    && (t.row.status.Failed? <==> s.row.attempts >= c.maxAttempts)
                                    && t.finishedBy == s.finishedBy))
    ensures Apply(c, s, Crash(task)) == s.(held := s.held - {task})
  {
  }

  function Publishes(events: seq<Event>): nat {
    if events == [] then 0 else (if events[0].Publish? then 1 else 0) + Publishes(events[1..])
  }

  lemma {:induction false} ResetsArePublishes(c: Config, s: Sys, events: seq<Event>, t: Sys)
    requires Run(c, s, events, t)
    ensures t.resets <= s.resets + Publishes(events)
    decreases |events|
  {
    if events != [] {
      ResetsArePublishes(c, Apply(c, s, events[0]), events[1..], t);
    }
  }

  /** In terms of what happened: a row is claimed at most the cap, or once, and as often again as it was published. */
  lemma ClaimsPerPublish(c: Config, now: Instant, events: seq<Event>, t: Sys)
    requires Run(c, Init(now), events, t)
    ensures |t.grants| <= (if c.maxAttempts == 0 then 1 else c.maxAttempts) + Publishes(events)
  {
    RunKeepsInv(c, Init(now), events, t);
    ResetsArePublishes(c, Init(now), events, t);
  }

  // ----- does a re-publish get its rescan? -----

  /** A verdict recorded anywhere after `s` comes from a scan claimed after the re-publish made at `s`. */
  ghost predicate Honoured(c: Config, s: Sys) {
    forall events, t :: Run(c, Apply(c, s, Publish), events, t) && t.row.status.Succeeded? ==>
      t.finishedBy > |s.grants|
  }

  /** The row is being scanned by a task that has not crashed: the publish path can see the first half. */
  predicate BeingScanned(s: Sys) {
    s.row.status.Processing? && exists task :: task in s.held && s.held[task] == s.row.attempts
  }

  ghost predicate Superseded(s: Sys, mark: nat) {
    && mark <= s.row.attempts
    && (s.row.status.Succeeded? ==> s.finishedBy > mark)
    && (s.row.attempts == mark && s.row.status.Processing? ==> !BeingScanned(s))
  }

  lemma {:induction false} SupersededForever(c: Config, s: Sys, mark: nat, events: seq<Event>, t: Sys)
    requires Inv(c, s) && Superseded(s, mark) && Run(c, s, events, t)
    ensures Superseded(t, mark)
    decreases |events|
  {
    if events != [] {
      var s1 := Apply(c, s, events[0]);
      StepKeepsInv(c, s, events[0]);
      assert Superseded(s1, mark) by {
        if s1.row.attempts == mark && s1.row.status.Processing? {
          assert s.row.attempts == mark && s.row.status.Processing?;
          assert forall task :: task in s1.held ==> task in s.held && s.held[task] == s1.held[task];
        }
      }
      SupersededForever(c, s1, mark, events[1..], t);
    }
  }

  /**
   The promise "a succeeded row was scanned after the last publish" holds exactly when the
   re-publish does not land on a running scan: the conflict update leaves such a row alone, so
   its verdict still comes from the older claim.
   */
  lemma RepublishHonouredIff(c: Config, s: Sys)
    requires Reachable(c, s)
    ensures Honoured(c, s) <==> !BeingScanned(s)
  {
    ReachableInv(c, s);
    var s1 := Apply(c, s, Publish);
    StepKeepsInv(c, s, Publish);
    if BeingScanned(s) {
      var task :| task in s.held && s.held[task] == s.row.attempts;
      var finish := Finish(task, Ok(()));
      var t := Apply(c, s1, finish);
      assert [finish][1..] == [];
      assert Run(c, t, [], t) && Run(c, s1, [finish], t);
      assert t.row.status.Succeeded? && t.finishedBy == |s.grants|;
    } else {
      forall events, t | Run(c, s1, events, t) && t.row.status.Succeeded?
        ensures t.finishedBy > |s.grants|
      {
        assert Superseded(s1, |s.grants|);
        SupersededForever(c, s1, |s.grants|, events, t);
      }
    }
  }

  /** The failing family is not empty: publish, claim, publish again, finish. */
  lemma RepublishCanBeMissed(c: Config) returns (s: Sys)
    ensures Reachable(c, s) && BeingScanned(s) && !Honoured(c, s)
  {
    var s0 := Init(0);
    s := Apply(c, s0, ClaimRow(0));
    assert [ClaimRow(0)][1..] == [];
    assert Run(c, s, [], s) && Run(c, s0, [ClaimRow(0)], s);
    assert 0 in s.held;
    RepublishHonouredIff(c, s);
  }

  // ----- is a rescan still possible? -----

  ghost predicate NoPublish(events: seq<Event>) {
    forall e :: e in events ==> !e.Publish?
  }

  /** After the publish made at `s`, and without another one, the row can still be claimed again. */
  ghost predicate RescanPossible(c: Config, s: Sys) {
    exists events, t :: Run(c, Apply(c, s, Publish), events, t) && NoPublish(events) && |t.grants| > |s.grants|
  }

  lemma {:induction false} FreshTask(grants: seq<Grant>) returns (task: Task)
    ensures forall g :: g in grants ==> g.task < task
  {
    task := 0;
    if grants != [] {
      var last := grants[|grants| - 1];
      task := FreshTask(grants[..|grants| - 1]);
      task := if last.task < task then task else last.task + 1;
      assert grants == grants[..|grants| - 1] + [last];
    }
  }

  lemma {:induction false} RunThen(c: Config, s: Sys, events: seq<Event>, t: Sys, e: Event)
    requires Run(c, s, events, t) && Enabled(t, e)
    ensures Run(c, s, events + [e], Apply(c, t, e))
    decreases |events|
  {
    var longer := events + [e];
    if events == [] {
      assert longer[1..] == [];
    } else {
      assert longer[1..] == events[1..] + [e];
      RunThen(c, Apply(c, s, events[0]), events[1..], t, e);
    }
  }

  /** Nothing but a publish makes a row claimable again that is not pending and at the cap while it is scanned. */
  predicate Spent(c: Config, s: Sys) {
    !s.row.status.Pending? && (s.row.status.Processing? ==> s.row.attempts >= c.maxAttempts)
  }

  lemma {:induction false} SpentStays(c: Config, s: Sys, events: seq<Event>, t: Sys)
    requires Spent(c, s) && Run(c, s, events, t) && NoPublish(events)
    ensures Spent(c, t) && t.grants == s.grants
    decreases |events|
  {
    if events != [] {
      assert events[0] in events;
      SpentStays(c, Apply(c, s, events[0]), events[1..], t);
    }
  }

  /**
   A publish is followed by a rescan that needs no further publish exactly when the row is not being
   processed or still below the cap; at the cap only another publish brings one.
   */
  lemma RescanPossibleIff(c: Config, s: Sys)
    requires Reachable(c, s)
    ensures RescanPossible(c, s) <==> !s.row.status.Processing? || s.row.attempts < c.maxAttempts
  {
    var s1 := Apply(c, s, Publish);
    if s.row.status.Processing? && s.row.attempts >= c.maxAttempts {
      forall events, t | Run(c, s1, events, t) && NoPublish(events)
        ensures |t.grants| == |s.grants|
      {
        SpentStays(c, s1, events, t);
      }
    } else {
      var events, t := [], s1;
      if s.row.status.Processing? {
        assert s1 == s;
        events, t := ReclaimFreesRow(c, s);
      }
      var task := FreshTask(t.grants);
      RunThen(c, s1, events, t, ClaimRow(task));
      assert NoPublish(events + [ClaimRow(task)]);
    }
  }
}
