module EmailLease {
  // `sendEmailOnce` for one delivery key, run by any number of workers under every interleaving and
  // crash, over one non-decreasing clock. A worker reads the clock, claims with that stamp, sends,
  // and then rolls back, or reads the clock again and confirms with what it read; each of these is a
  // separate step, and any time may pass between two.

  import opened Options
  import opened EmailLedger

  type Worker = nat

  /** Where a running call stands. A claimed call keeps its stamp until it settles. */
  datatype Phase =
    | Claiming(stamp: Instant)
    | Refused
    | Sending(stamp: Instant)
    | Delivered(stamp: Instant)
    | Confirming(stamp: Instant, at: Instant)
    | Bounced(stamp: Instant)
    | Returned
    | Threw

  /** `owner` is the worker whose claim the row is; `sends` counts successful sends, `lost` those whose sender crashed before confirming. */
  datatype Sys = Sys(
    row: Option<Delivery>,
    owner: Worker,
    clock: Instant,
    calls: map<Worker, Phase>,
    sends: nat,
    lost: nat)

  datatype Event =
    | Tick(to: Instant)
    | ReadClock(worker: Worker)
    | Claim(worker: Worker)
    | Inspect(worker: Worker)
    | Send(worker: Worker, ok: bool)
    | Rollback(worker: Worker)
    | BuildConfirm(worker: Worker)
    | Confirm(worker: Worker)
    | Crash(worker: Worker)

  function Init(now: Instant): Sys {
    Sys(None, 0, now, map[], 0, 0)
  }

  predicate HoldsClaim(p: Phase) {
    p.Sending? || p.Delivered? || p.Confirming? || p.Bounced?
  }

  /** The message is sent and the row not yet confirmed by this call. */
  predicate HasSent(p: Phase) {
    p.Delivered? || p.Confirming?
  }

  predicate At(s: Sys, worker: Worker) {
    worker in s.calls
  }

  predicate Enabled(s: Sys, e: Event) {
    match e
    case Tick(to) => s.clock <= to
    case ReadClock(w) => !At(s, w)
    case Claim(w) => At(s, w) && s.calls[w].Claiming?
    case Inspect(w) => At(s, w) && s.calls[w].Refused?
    case Send(w, _) => At(s, w) && s.calls[w].Sending?
    case Rollback(w) => At(s, w) && s.calls[w].Bounced?
    case BuildConfirm(w) => At(s, w) && s.calls[w].Delivered?
    case Confirm(w) => At(s, w) && s.calls[w].Confirming?
    case Crash(w) => At(s, w) && !s.calls[w].Returned? && !s.calls[w].Threw?
  }

  function Apply(s: Sys, e: Event): Sys
    requires Enabled(s, e)
  {
    match e
    case Tick(to) => s.(clock := to)
    case ReadClock(w) => s.(calls := s.calls[w := Claiming(s.clock)])
    case Claim(w) =>
      var stamp := s.calls[w].stamp;
      if Claimable(s.row, stamp)
      then s.(row := Claimed(s.row, stamp), owner := w, calls := s.calls[w := Sending(stamp)])
      else s.(calls := s.calls[w := Refused])
    case Inspect(w) =>
      if s.row.Some? && s.row.value.sentAt.Some?
      then s.(calls := s.calls[w := Returned])
      else s.(calls := s.calls[w := Threw])
    case Send(w, ok) =>
      var stamp := s.calls[w].stamp;
      if ok
      then s.(calls := s.calls[w := Delivered(stamp)], sends := s.sends + 1)
      else s.(calls := s.calls[w := Bounced(stamp)])
    case Rollback(w) => s.(row := RolledBack(s.row, s.calls[w].stamp), calls := s.calls[w := Threw])
    case BuildConfirm(w) => s.(calls := s.calls[w := Confirming(s.calls[w].stamp, s.clock)])
    case Confirm(w) =>
      s.(row := Confirmed(s.row, s.calls[w].stamp, s.calls[w].at), calls := s.calls[w := Returned])
    case Crash(w) =>
      s.(calls := s.calls - {w}, lost := s.lost + if HasSent(s.calls[w]) then 1 else 0)
  }

  /** A restriction on the steps of a run, judged before the step. */
  type Rule = (Sys, Event) -> bool

  ghost predicate RunUnder(rule: Rule, s: Sys, events: seq<Event>, t: Sys)
    decreases |events|
  {
    if events == [] then s == t
    else
      && Enabled(s, events[0]) && rule(s, events[0])
      && RunUnder(rule, Apply(s, events[0]), events[1..], t)
  }

  /** No restriction: workers may be delayed anywhere and for as long as they like. */
  function Anyhow(): Rule {
    (s: Sys, e: Event) => true
  }

  ghost predicate Reachable(s: Sys) {
    exists now, events :: RunUnder(Anyhow(), Init(now), events, s)
  }

  // ----- what every step keeps -----

  predicate IsSent(s: Sys) {
    s.row.Some? && s.row.value.sentAt.Some?
  }

  /** The claim of a call is the one in the row, and still unconfirmed. */
  predicate Current(s: Sys, worker: Worker) {
    At(s, worker) && HoldsClaim(s.calls[worker])
    && s.owner == worker && s.row == Some(Delivery(None, s.calls[worker].stamp))
  }

  /** Nothing is stamped in the future. */
  ghost predicate Stamps(s: Sys) {
    && (forall w :: At(s, w) && (s.calls[w].Claiming? || HoldsClaim(s.calls[w])) ==> s.calls[w].stamp <= s.clock)
    && (forall w :: At(s, w) && s.calls[w].Confirming? ==> s.calls[w].stamp <= s.calls[w].at <= s.clock)
    && (s.row.Some? ==> s.row.value.updatedAt <= s.clock)
  }

  /** A confirmation or a normal return means a send. */
  ghost predicate SendsSeen(s: Sys) {
    && (IsSent(s) ==> s.sends > 0)
    && (forall w :: At(s, w) && (HasSent(s.calls[w]) || s.calls[w].Returned?) ==> s.sends > 0)
  }

  /** A claim stays in the row as long as nobody can have taken it over. */
  ghost predicate YoungClaimsStay(s: Sys) {
    forall w :: At(s, w) && HoldsClaim(s.calls[w]) && s.clock <= s.calls[w].stamp + TAKEOVER_AFTER ==> Current(s, w)
  }

  ghost predicate Inv(s: Sys) {
    Stamps(s) && SendsSeen(s) && YoungClaimsStay(s)
  }

  lemma StepKeepsStamps(s: Sys, e: Event)
    requires Stamps(s) && Enabled(s, e)
    ensures Stamps(Apply(s, e))
  {
  }

  lemma StepKeepsSendsSeen(s: Sys, e: Event)
    requires SendsSeen(s) && Enabled(s, e)
    ensures SendsSeen(Apply(s, e))
  {
  }

  lemma YoungStaysCurrent(s: Sys, e: Event, w: Worker)
    requires Stamps(s) && YoungClaimsStay(s) && Enabled(s, e)
    requires At(Apply(s, e), w) && HoldsClaim(Apply(s, e).calls[w])
    requires Apply(s, e).clock <= Apply(s, e).calls[w].stamp + TAKEOVER_AFTER
    ensures Current(Apply(s, e), w)
  {
    if !(e.Claim? && e.worker == w) {
      assert Current(s, w);
    }
  }

  lemma StepKeepsInv(s: Sys, e: Event)
    requires Inv(s) && Enabled(s, e)
    ensures Inv(Apply(s, e))
  {
    var t := Apply(s, e);
    StepKeepsStamps(s, e);
    StepKeepsSendsSeen(s, e);
    forall w | At(t, w) && HoldsClaim(t.calls[w]) && t.clock <= t.calls[w].stamp + TAKEOVER_AFTER
      ensures Current(t, w)
    {
      YoungStaysCurrent(s, e, w);
    }
  }

  lemma {:induction false} RunKeepsInv(rule: Rule, s: Sys, events: seq<Event>, t: Sys)
    requires Inv(s) && RunUnder(rule, s, events, t)
    ensures Inv(t)
    decreases |events|
  {
    if events != [] {
      StepKeepsInv(s, events[0]);
      RunKeepsInv(rule, Apply(s, events[0]), events[1..], t);
    }
  }

  lemma ReachableInv(s: Sys)
    requires Reachable(s)
    ensures Inv(s)
  {
    var now, events :| RunUnder(Anyhow(), Init(now), events, s);
    RunKeepsInv(Anyhow(), Init(now), events, s);
  }

  // ----- results for every run -----

  /** Nobody has claimed in between: who holds a claim held it before. */
  ghost predicate NoNewClaim(s: Sys, t: Sys) {
    t.owner == s.owner
    && forall w :: At(t, w) && HoldsClaim(t.calls[w]) ==>
                     At(s, w) && HoldsClaim(s.calls[w]) && s.calls[w].stamp == t.calls[w].stamp
  }

  /** A confirmed row means a send happened, and no later step of anyone claims, deletes or unconfirms it. */
  lemma {:induction false} SentIsAbsorbing(s: Sys, events: seq<Event>, t: Sys)
    requires Inv(s) && IsSent(s) && RunUnder(Anyhow(), s, events, t)
    ensures IsSent(t) && NoNewClaim(s, t) && t.sends > 0
    decreases |events|
  {
    if events != [] {
      StepKeepsInv(s, events[0]);
      SentIsAbsorbing(Apply(s, events[0]), events[1..], t);
    }
  }

  lemma SentStays(s: Sys, events: seq<Event>, t: Sys)
    requires Reachable(s) && IsSent(s) && RunUnder(Anyhow(), s, events, t)
    ensures s.sends > 0 && IsSent(t) && NoNewClaim(s, t)
  {
    ReachableInv(s);
    SentIsAbsorbing(s, events, t);
  }

  /** A call that returns without throwing means some send for the key succeeded. */
  lemma ReturnMeansSent(s: Sys, worker: Worker)
    requires Reachable(s) && At(s, worker) && s.calls[worker].Returned?
    ensures s.sends > 0
  {
    ReachableInv(s);
  }

  // ----- every call comes to an end -----

  predicate Ended(s: Sys, worker: Worker) {
    At(s, worker) && (s.calls[worker].Returned? || s.calls[worker].Threw?)
  }

  /** A call that does not win the claim leaves the row alone; it returns when the key is confirmed and throws otherwise. */
  lemma RefusedCallEnds(s: Sys, worker: Worker)
    requires Enabled(s, Claim(worker)) && !Claimable(s.row, s.calls[worker].stamp)
    ensures Enabled(Apply(s, Claim(worker)), Inspect(worker))
    ensures Apply(Apply(s, Claim(worker)), Inspect(worker)) ==
            s.(calls := s.calls[worker := if IsSent(s) then Returned else Threw])
  {
    assert s.calls[worker := Refused][worker := Returned] == s.calls[worker := Returned];
    assert s.calls[worker := Refused][worker := Threw] == s.calls[worker := Threw];
  }

  /** Steps a live call still needs at most. */
  function ToGo(p: Phase): nat {
    match p
    case Claiming(_) => 4
    case Sending(_) => 3
    case Delivered(_) => 2
    case Returned | Threw => 0
    case _ => 1
  }

  /** The next step of a call on its own. */
  function NextOf(s: Sys, worker: Worker): Event
    requires At(s, worker) && !Ended(s, worker)
  {
    match s.calls[worker]
    case Claiming(_) => Claim(worker)
    case Refused => Inspect(worker)
    case Sending(_) => Send(worker, true)
    case Delivered(_) => BuildConfirm(worker)
    case Confirming(_, _) => Confirm(worker)
    case _ => Rollback(worker)
  }

  /** Whatever else goes on, a live call can always end by its own steps, within four. */
  lemma {:induction false} EveryCallCanEnd(s: Sys, worker: Worker) returns (events: seq<Event>, t: Sys)
    requires At(s, worker)
    ensures RunUnder(Anyhow(), s, events, t) && Ended(t, worker) && |events| <= ToGo(s.calls[worker])
    decreases ToGo(s.calls[worker])
  {
    if Ended(s, worker) {
      events, t := [], s;
    } else {
      var e := NextOf(s, worker);
      assert ToGo(Apply(s, e).calls[worker]) < ToGo(s.calls[worker]);
      var rest;
      rest, t := EveryCallCanEnd(Apply(s, e), worker);
      events := [e] + rest;
      assert events[1..] == rest;
    }
  }

  // ----- whose claim a rollback or a confirmation touches -----

  /** A claim that wins does so at most so long after its stamp was read. */
  predicate ClaimInTime(s: Sys, e: Event, delay: int) {
    e.Claim? && Enabled(s, e) && Claimable(s.row, s.calls[e.worker].stamp) ==> s.clock <= s.calls[e.worker].stamp + delay
  }

  function ClaimsWithin(delay: int): Rule {
    (s: Sys, e: Event) => ClaimInTime(s, e, delay)
  }

  ghost predicate ReachableWithin(delay: int, s: Sys) {
    exists now, events :: RunUnder(ClaimsWithin(delay), Init(now), events, s)
  }

  /** A rollback (or a confirmation) that changes the row changes the worker's own unconfirmed claim. */
  predicate RollsBackOwn(s: Sys) {
    forall w :: w in s.calls && s.calls[w].Bounced? ==> Apply(s, Rollback(w)).row == s.row || Current(s, w)
  }

  predicate ConfirmsOwn(s: Sys) {
    forall w :: w in s.calls && s.calls[w].Confirming? ==> Apply(s, Confirm(w)).row == s.row || Current(s, w)
  }

  /** A claim that is not current is older than the claim in the row. */
  ghost predicate Lease(s: Sys) {
    && Inv(s)
    && (forall w :: At(s, w) && HoldsClaim(s.calls[w]) && !Current(s, w) && s.row.Some? ==>
                      s.calls[w].stamp < s.row.value.updatedAt)
  }

  lemma StepKeepsLease(s: Sys, e: Event)
    requires Lease(s) && Enabled(s, e) && ClaimInTime(s, e, TAKEOVER_AFTER)
    ensures Lease(Apply(s, e))
  {
    StepKeepsInv(s, e);
    var t := Apply(s, e);
    forall w | At(t, w) && HoldsClaim(t.calls[w]) && !Current(t, w) && t.row.Some?
      ensures t.calls[w].stamp < t.row.value.updatedAt
    {
      if !(e.Claim? && e.worker == w) {
        assert At(s, w) && HoldsClaim(s.calls[w]) && s.calls[w].stamp == t.calls[w].stamp;
      }
    }
  }

  /** Every claim this rule lets win is at most a takeover time late. */
  ghost predicate KeepsLease(rule: Rule) {
    forall s: Sys, e: Event :: rule(s, e) ==> ClaimInTime(s, e, TAKEOVER_AFTER)
  }

  lemma {:induction false} RunKeepsLease(rule: Rule, s: Sys, events: seq<Event>, t: Sys)
    requires Lease(s) && RunUnder(rule, s, events, t) && KeepsLease(rule)
    ensures Lease(t)
    decreases |events|
  {
    if events != [] {
      StepKeepsLease(s, events[0]);
      RunKeepsLease(rule, Apply(s, events[0]), events[1..], t);
    }
  }

  /** No rollback and no confirmation touches another worker's claim exactly when claims are at most a takeover time late. */
  lemma OnlyOwnClaimsIff(delay: int)
    ensures (forall s :: ReachableWithin(delay, s) ==> RollsBackOwn(s)) <==> delay <= TAKEOVER_AFTER
    ensures (forall s :: ReachableWithin(delay, s) ==> ConfirmsOwn(s)) <==> delay <= TAKEOVER_AFTER
  {
    if delay <= TAKEOVER_AFTER {
      forall s | ReachableWithin(delay, s)
        ensures RollsBackOwn(s) && ConfirmsOwn(s)
      {
        var now, events :| RunUnder(ClaimsWithin(delay), Init(now), events, s);
        RunKeepsLease(ClaimsWithin(delay), Init(now), events, s);
      }
    } else {
      var bounced := LateClaimIsTouched(delay, false);
      var delivered := LateClaimIsTouched(delay, true);
    }
  }

  const LATE := TAKEOVER_AFTER + 1

  /** 0 and 1 read the clock together, 0 claims and gets as far as `first`, and a takeover time passes. */
  function ClaimedLongAgo(first: Phase, sends: nat): Sys {
    Sys(Some(Delivery(None, 0)), 0, LATE, map[0 := first, 1 := Claiming(0)], sends, 0)
  }

  /** 2 has taken over, failed and rolled back, so there is no row. */
  function TakenOverAndGone(first: Phase, sends: nat): Sys {
    Sys(None, 2, LATE, map[0 := first, 1 := Claiming(0), 2 := Threw], sends, 0)
  }

  /** Only claims and confirmations made later than the clock was read may be refused. */
  ghost predicate AllowsPrompt(rule: Rule) {
    && (forall s: Sys, e: Event :: !e.Claim? && !e.Confirm? ==> rule(s, e))
    && (forall s: Sys, w: Worker :: w in s.calls && s.calls[w] == Claiming(s.clock) ==> rule(s, Claim(w)))
  }

  /** The first claim, at time 0. */
  function BothRead(first: Phase, sends: nat): Sys {
    Sys(Some(Delivery(None, 0)), 0, 0, map[0 := first, 1 := Claiming(0)], sends, 0)
  }

  lemma ToBothRead(rule: Rule, events: seq<Event>, t: Sys) returns (all: seq<Event>)
    requires RunUnder(rule, BothRead(Sending(0), 0), events, t) && AllowsPrompt(rule)
    ensures RunUnder(rule, Init(0), all, t)
  {
    var s1 := Init(0).(calls := map[0 := Claiming(0)]);
    var s2 := s1.(calls := map[0 := Claiming(0), 1 := Claiming(0)]);
    all := OneMore(rule, s2, Claim(0), BothRead(Sending(0), 0), events, t);
    all := OneMore(rule, s1, ReadClock(1), s2, all, t);
    all := OneMore(rule, Init(0), ReadClock(0), s1, all, t);
  }

  lemma ToTakenOverAndGone(rule: Rule, first: Phase, sends: nat, events: seq<Event>, t: Sys) returns (all: seq<Event>)
    requires RunUnder(rule, TakenOverAndGone(first, sends), events, t) && AllowsPrompt(rule)
    ensures RunUnder(rule, BothRead(first, sends), all, t)
  {
    var s5 := ClaimedLongAgo(first, sends).(calls := map[0 := first, 1 := Claiming(0), 2 := Claiming(LATE)]);
    var s6 := s5.(row := Some(Delivery(None, LATE)), owner := 2,
                  calls := map[0 := first, 1 := Claiming(0), 2 := Sending(LATE)]);
    var s7 := s6.(calls := map[0 := first, 1 := Claiming(0), 2 := Bounced(LATE)]);
    all := OneMore(rule, s7, Rollback(2), TakenOverAndGone(first, sends), events, t);
    all := OneMore(rule, s6, Send(2, false), s7, all, t);
    all := OneMore(rule, s5, Claim(2), s6, all, t);
    all := ToTakingOver(rule, first, sends, all, t);
  }

  lemma ToTakingOver(rule: Rule, first: Phase, sends: nat, events: seq<Event>, t: Sys) returns (all: seq<Event>)
    requires AllowsPrompt(rule)
    requires RunUnder(rule, ClaimedLongAgo(first, sends).(calls := map[0 := first, 1 := Claiming(0), 2 := Claiming(LATE)]), events, t)
    ensures RunUnder(rule, BothRead(first, sends), all, t)
  {
    var s4 := ClaimedLongAgo(first, sends);
    var s5 := s4.(calls := map[0 := first, 1 := Claiming(0), 2 := Claiming(LATE)]);
    all := OneMore(rule, s4, ReadClock(2), s5, events, t);
    all := OneMore(rule, BothRead(first, sends), Tick(LATE), s4, all, t);
  }

  /** With the stamp 0 has, 1 claims the key that is free again. */
  function ClaimedAgain(first: Phase, second: Phase, sends: nat): Sys {
    Sys(Some(Delivery(None, 0)), 1, LATE, map[0 := first, 1 := second, 2 := Threw], sends, 0)
  }

  lemma ToClaimedAgain(rule: Rule, first: Phase, sends: nat, events: seq<Event>, t: Sys)
    returns (all: seq<Event>)
    requires RunUnder(rule, ClaimedAgain(first, Sending(0), sends), events, t)
    requires AllowsPrompt(rule) && rule(TakenOverAndGone(first, sends), Claim(1))
    ensures RunUnder(rule, BothRead(first, sends), all, t)
  {
    all := OneMore(rule, TakenOverAndGone(first, sends), Claim(1), ClaimedAgain(first, Sending(0), sends), events, t);
    all := ToTakenOverAndGone(rule, first, sends, all, t);
  }

  /**
   The run behind the other half: 0 and 1 read the clock together and 0 claims; a takeover time
   later 2 takes over, fails and rolls back; only then 1 claims, with the stamp 0 has.
   */
  lemma LateClaimIsTouched(delay: int, ok: bool) returns (s: Sys)
    requires delay > TAKEOVER_AFTER
    ensures ReachableWithin(delay, s) && (if ok then !ConfirmsOwn(s) else !RollsBackOwn(s))
  {
    var rule := ClaimsWithin(delay);
    var events;
    if ok {
      events, s := ToLateConfirmation(rule);
    } else {
      events, s := ToLateRollback(rule);
    }
    events := ToClaimedAgain(rule, Sending(0), 0, events, s);
    events := ToBothRead(rule, events, s);
  }

  lemma ToLateRollback(rule: Rule) returns (events: seq<Event>, s: Sys)
    requires AllowsPrompt(rule)
    ensures RunUnder(rule, ClaimedAgain(Sending(0), Sending(0), 0), events, s) && !RollsBackOwn(s)
  {
    s := ClaimedAgain(Bounced(0), Sending(0), 0);
    events := OneMore(rule, ClaimedAgain(Sending(0), Sending(0), 0), Send(0, false), s, [], s);
    assert 0 in s.calls && s.owner == 1;
  }

  lemma ToLateConfirmation(rule: Rule) returns (events: seq<Event>, s: Sys)
    requires AllowsPrompt(rule)
    ensures RunUnder(rule, ClaimedAgain(Sending(0), Sending(0), 0), events, s) && !ConfirmsOwn(s)
  {
    var sent := ClaimedAgain(Delivered(0), Sending(0), 1);
    s := ClaimedAgain(Confirming(0, LATE), Sending(0), 1);
    events := OneMore(rule, sent, BuildConfirm(0), s, [], s);
    events := OneMore(rule, ClaimedAgain(Sending(0), Sending(0), 0), Send(0, true), sent, events, s);
    assert 0 in s.calls && s.owner == 1;
  }

  lemma OneMore(rule: Rule, s: Sys, e: Event, mid: Sys, rest: seq<Event>, t: Sys) returns (events: seq<Event>)
    requires Enabled(s, e) && rule(s, e) && Apply(s, e) == mid && RunUnder(rule, mid, rest, t)
    ensures RunUnder(rule, s, events, t)
  {
    events := [e] + rest;
    assert events[1..] == rest;
  }

  // ----- whether a confirmed row is ever written again -----

  /** A confirmation that takes effect does so at most so long after it was built. */
  predicate ConfirmInTime(s: Sys, e: Event, delay: int) {
    e.Confirm? && Enabled(s, e) && Ours(s.row, s.calls[e.worker].stamp) ==> s.clock <= s.calls[e.worker].at + delay
  }

  function Within(claiming: int, confirming: int): Rule {
    (s: Sys, e: Event) => ClaimInTime(s, e, claiming) && ConfirmInTime(s, e, confirming)
  }

  ghost predicate ReachableWithinBoth(claiming: int, confirming: int, s: Sys) {
    exists now, events :: RunUnder(Within(claiming, confirming), Init(now), events, s)
  }

  /** No confirmation still to come changes a row that is confirmed. */
  predicate NoRestamp(s: Sys) {
    IsSent(s) ==> forall w :: w in s.calls && s.calls[w].Confirming? ==> Apply(s, Confirm(w)).row == s.row
  }

  /** No claim carries the stamp of a confirmed row. */
  ghost predicate Final(s: Sys) {
    IsSent(s) ==> forall w :: At(s, w) && HoldsClaim(s.calls[w]) ==> s.calls[w].stamp != s.row.value.updatedAt
  }

  /** While a confirmation built at some time is at most a takeover time old, a claim of that time is still in the row. */
  lemma PromptStepKeepsFinal(s: Sys, e: Event, confirming: int)
    requires Inv(s) && Final(s) && Enabled(s, e) && confirming <= TAKEOVER_AFTER
    requires ConfirmInTime(s, e, confirming)
    ensures Final(Apply(s, e))
  {
    var t := Apply(s, e);
    if e.Confirm? && Ours(s.row, s.calls[e.worker].stamp) && !IsSent(s) {
      var at := s.calls[e.worker].at;
      assert forall w :: At(s, w) && HoldsClaim(s.calls[w]) && s.calls[w].stamp == at ==> Current(s, w);
      assert Current(s, e.worker) || s.calls[e.worker].stamp < at;
    }
  }

  lemma {:induction false} PromptRunKeepsFinal(claiming: int, confirming: int, s: Sys, events: seq<Event>, t: Sys)
    requires Inv(s) && Final(s) && confirming <= TAKEOVER_AFTER
    requires RunUnder(Within(claiming, confirming), s, events, t)
    ensures Final(t)
    decreases |events|
  {
    if events != [] {
      assert ConfirmInTime(s, events[0], confirming);
      StepKeepsInv(s, events[0]);
      PromptStepKeepsFinal(s, events[0], confirming);
      PromptRunKeepsFinal(claiming, confirming, Apply(s, events[0]), events[1..], t);
    }
  }

  /**
   A confirmed row is never restamped exactly when either claims or confirmations are executed at most
   a takeover time after the clock was read for them.
   */
  lemma NeverRestampedIff(claiming: int, confirming: int)
    ensures (forall s :: ReachableWithinBoth(claiming, confirming, s) ==> NoRestamp(s)) <==>
            claiming <= TAKEOVER_AFTER || confirming <= TAKEOVER_AFTER
  {
    if claiming <= TAKEOVER_AFTER || confirming <= TAKEOVER_AFTER {
      forall s | ReachableWithinBoth(claiming, confirming, s)
        ensures NoRestamp(s)
      {
        var rule := Within(claiming, confirming);
        var now, events :| RunUnder(rule, Init(now), events, s);
        if confirming <= TAKEOVER_AFTER {
          PromptRunKeepsFinal(claiming, confirming, Init(now), events, s);
        } else {
          assert forall x: Sys, e: Event :: rule(x, e) ==> ClaimInTime(x, e, claiming);
          RunKeepsLease(rule, Init(now), events, s);
        }
      }
    } else {
      var s := LateConfirmationRestamps(claiming, confirming);
    }
  }

  /**
   The run behind the other half: as before, but 0 has sent and built its confirmation before 2 takes
   over. It lands on the claim of 1, and that of 1 then matches the confirmed row.
   */
  lemma LateConfirmationRestamps(claiming: int, confirming: int) returns (s: Sys)
    requires claiming > TAKEOVER_AFTER && confirming > TAKEOVER_AFTER
    ensures ReachableWithinBoth(claiming, confirming, s) && !NoRestamp(s)
  {
    var rule := Within(claiming, confirming);
    var events;
    events, s := ToRestamp(rule);
    events := ToClaimedAgain(rule, Confirming(0, 0), 1, events, s);
    events := ToBuilt(rule, events, s);
    events := ToBothRead(rule, events, s);
  }

  lemma ToBuilt(rule: Rule, events: seq<Event>, t: Sys) returns (all: seq<Event>)
    requires RunUnder(rule, BothRead(Confirming(0, 0), 1), events, t) && AllowsPrompt(rule)
    ensures RunUnder(rule, BothRead(Sending(0), 0), all, t)
  {
    all := OneMore(rule, BothRead(Delivered(0), 1), BuildConfirm(0), BothRead(Confirming(0, 0), 1), events, t);
    all := OneMore(rule, BothRead(Sending(0), 0), Send(0, true), BothRead(Delivered(0), 1), all, t);
  }

  lemma ToRestamp(rule: Rule) returns (events: seq<Event>, s: Sys)
    requires AllowsPrompt(rule)
    requires rule(ClaimedAgain(Confirming(0, 0), Confirming(0, LATE), 2), Confirm(0))
    ensures RunUnder(rule, ClaimedAgain(Confirming(0, 0), Sending(0), 1), events, s) && !NoRestamp(s)
  {
    var built := Confirming(0, 0);
    var s2, s3 := ClaimedAgain(built, Delivered(0), 2), ClaimedAgain(built, Confirming(0, LATE), 2);
    s := Apply(s3, Confirm(0));
    events := OneMore(rule, s3, Confirm(0), s, [], s);
    events := OneMore(rule, s2, BuildConfirm(1), s3, events, s);
    events := OneMore(rule, ClaimedAgain(built, Sending(0), 1), Send(1, true), s2, events, s);
    assert 1 in s.calls && s.calls[1] == Confirming(0, LATE) && s.row == Some(Delivery(Some(0), 0));
  }

  // ----- how many times a key is sent -----

  /** Every call that holds a claim is at most so long past its stamp. */
  predicate Timely(s: Sys, delay: int) {
    forall w :: w in s.calls && HoldsClaim(s.calls[w]) ==> s.clock <= s.calls[w].stamp + delay
  }

  /** Every live call settles within that time of its stamp. */
  function SettlesWithin(delay: int): Rule {
    (s: Sys, e: Event) => Enabled(s, e) ==> Timely(Apply(s, e), delay)
  }

  ghost predicate ReachableSettling(delay: int, s: Sys) {
    exists now, events :: RunUnder(SettlesWithin(delay), Init(now), events, s)
  }

  /** Every successful send was lost to a crash, is the one recorded, or is the one about to be. */
  ghost predicate Counted(s: Sys) {
    s.sends == s.lost + if IsSent(s) || AwaitsConfirm(s) then 1 else 0
  }

  predicate AwaitsConfirm(s: Sys) {
    At(s, s.owner) && HasSent(s.calls[s.owner]) && Current(s, s.owner)
  }

  lemma StepKeepsCount(s: Sys, e: Event)
    requires Lease(s) && Timely(s, TAKEOVER_AFTER) && Counted(s) && Enabled(s, e)
    ensures Counted(Apply(s, e))
  {
    match e
    case Send(w, _) => assert Current(s, w);
    case Rollback(w) => assert Current(s, w);
    case BuildConfirm(w) => assert Current(s, w);
    case Confirm(w) => assert Current(s, w);
    case Crash(w) => assert HoldsClaim(s.calls[w]) ==> Current(s, w);
    case _ =>
  }

  lemma {:induction false} TimelyRunKeepsCount(delay: int, s: Sys, events: seq<Event>, t: Sys)
    requires Lease(s) && Counted(s) && Timely(s, delay) && delay <= TAKEOVER_AFTER
    requires RunUnder(SettlesWithin(delay), s, events, t)
    ensures Lease(t) && Counted(t)
    decreases |events|
  {
    if events != [] {
      assert SettlesWithin(delay)(s, events[0]);
      assert Timely(s, TAKEOVER_AFTER) && Timely(Apply(s, events[0]), delay);
      if events[0].Claim? {
        assert !HoldsClaim(s.calls[events[0].worker]) && events[0].worker in Apply(s, events[0]).calls;
      }
      StepKeepsLease(s, events[0]);
      StepKeepsCount(s, events[0]);
      TimelyRunKeepsCount(delay, Apply(s, events[0]), events[1..], t);
    }
  }

  /**
   When every live call settles within the takeover time, a key is sent at most once more than
   there were crashes between a send and its confirmation; with no such crash, at most once.
   */
  lemma SendsAreBounded(delay: int, t: Sys)
    requires ReachableSettling(delay, t) && delay <= TAKEOVER_AFTER
    ensures t.lost <= t.sends <= 1 + t.lost
    ensures IsSent(t) ==> t.sends == 1 + t.lost
  {
    var now, events :| RunUnder(SettlesWithin(delay), Init(now), events, t);
    TimelyRunKeepsCount(delay, Init(now), events, t);
  }

  /** The bound on sends holds for a settling time exactly when that is at most the takeover time. */
  lemma SendsAreBoundedIff(delay: int)
    ensures (forall t :: ReachableSettling(delay, t) ==> t.sends <= 1 + t.lost) <==> delay <= TAKEOVER_AFTER
  {
    if delay <= TAKEOVER_AFTER {
      forall t | ReachableSettling(delay, t)
        ensures t.sends <= 1 + t.lost
      {
        SendsAreBounded(delay, t);
      }
    } else {
      var s := LateSenderSendsTwice(delay);
    }
  }

  /** 0 claimed a takeover time ago and still sends, and 1 is about to take over. */
  function TwoSenders(first: Phase, second: Phase, sends: nat): Sys {
    Sys(Some(Delivery(None, LATE)), 1, LATE, map[0 := first, 1 := second], sends, 0)
  }

  /** 0 alone has claimed and still sends. */
  function OneSender(clock: Instant): Sys {
    Sys(Some(Delivery(None, 0)), 0, clock, map[0 := Sending(0)], 0, 0)
  }

  lemma ToOneSender(delay: int, events: seq<Event>, t: Sys) returns (all: seq<Event>)
    requires delay > TAKEOVER_AFTER && RunUnder(SettlesWithin(delay), OneSender(LATE), events, t)
    ensures RunUnder(SettlesWithin(delay), Init(0), all, t)
  {
    var rule := SettlesWithin(delay);
    var s1 := Init(0).(calls := map[0 := Claiming(0)]);
    all := OneMore(rule, OneSender(0), Tick(LATE), OneSender(LATE), events, t);
    all := OneMore(rule, s1, Claim(0), OneSender(0), all, t);
    all := OneMore(rule, Init(0), ReadClock(0), s1, all, t);
  }

  lemma ToTwoSenders(delay: int, events: seq<Event>, t: Sys) returns (all: seq<Event>)
    requires delay > TAKEOVER_AFTER
    requires RunUnder(SettlesWithin(delay), TwoSenders(Sending(0), Sending(LATE), 0), events, t)
    ensures RunUnder(SettlesWithin(delay), OneSender(LATE), all, t)
  {
    var rule := SettlesWithin(delay);
    var s4 := OneSender(LATE).(calls := map[0 := Sending(0), 1 := Claiming(LATE)]);
    all := OneMore(rule, s4, Claim(1), TwoSenders(Sending(0), Sending(LATE), 0), events, t);
    all := OneMore(rule, OneSender(LATE), ReadClock(1), s4, all, t);
  }

  /** Without the bound on settling, a live but late sender and the worker that took over both send, with no crash. */
  lemma LateSenderSendsTwice(delay: int) returns (s: Sys)
    requires delay > TAKEOVER_AFTER
    ensures ReachableSettling(delay, s) && s.sends == 2 && s.lost == 0
  {
    var rule := SettlesWithin(delay);
    var s5, s6 := TwoSenders(Sending(0), Sending(LATE), 0), TwoSenders(Sending(0), Delivered(LATE), 1);
    s := TwoSenders(Delivered(0), Delivered(LATE), 2);
    var events := OneMore(rule, s6, Send(0, true), s, [], s);
    events := OneMore(rule, s5, Send(1, true), s6, events, s);
    events := ToTwoSenders(delay, events, s);
    events := ToOneSender(delay, events, s);
  }
}
