module ScanOutbox {
  // The `scan_outbox` table and the SQL statements the scan worker and the publish path run on it.
  // Each statement is one atomic update of the table; times are milliseconds.

  import opened Options
  import opened Powers

  type RowId = string
  type Instant = int

  datatype Status = Pending | Processing | Succeeded | Failed

  datatype Row = Row(
    status: Status,
    attempts: nat,
    createdAt: Instant,
    nextAttemptAt: Instant,
    lockedAt: Option<Instant>,
    lastError: Option<string>)

  /** A claimed row as the worker sees it; `attempts` doubles as the claim token. */
  datatype Intent = Intent(id: RowId, attempts: nat)

  const RECLAIM_ERROR := "reclaimed: worker stopped while processing"
  const MAX_ERROR_LENGTH := 2000
  const MAX_BACKOFF := 60_000

  /** The optimistic-concurrency filter of every terminal write. */
  predicate HoldsClaim(row: Row, token: nat) {
    row.status.Processing? && row.attempts == token
  }

  predicate Claimable(row: Row, now: Instant) {
    row.status.Pending? && row.nextAttemptAt <= now
  }

  predicate Stuck(row: Row, now: Instant, timeout: nat) {
    row.status.Processing? && row.lockedAt.Some? && row.lockedAt.value < now - timeout
  }

  function Backoff(attempts: nat): int {
    var ms := 1_000 * Pow2(attempts);
    if ms < MAX_BACKOFF then ms else MAX_BACKOFF
  }

  /** One second before the first retry could be, doubling up to a minute. */
  lemma BackoffDoubles(attempts: nat)
    ensures Backoff(0) == 1_000 && Backoff(attempts) <= 60_000
    ensures Backoff(attempts + 1) == if 2 * Backoff(attempts) <= 60_000 then 2 * Backoff(attempts) else 60_000
  {
  }

  function Truncated(error: string): string {
    if |error| <= MAX_ERROR_LENGTH then error else error[..MAX_ERROR_LENGTH]
  }

  function Claim(row: Row, now: Instant): Row {
    row.(status := Processing, attempts := row.attempts + 1, lockedAt := Some(now))
  }

  function Heartbeat(row: Row, token: nat, now: Instant): Row {
    if HoldsClaim(row, token) then row.(lockedAt := Some(now)) else row
  }

  function Succeed(row: Row, token: nat): Row {
    if HoldsClaim(row, token)
    then row.(status := Succeeded, lockedAt := None, lastError := None)
    else row
  }

  function Fail(row: Row, token: nat, error: string, maxAttempts: nat, now: Instant): Row {
    if HoldsClaim(row, token)
    then row.(
      status := if token < maxAttempts then Pending else Failed,
      lockedAt := None,
      lastError := Some(Truncated(error)),
      nextAttemptAt := now + Backoff(token))
    else row
  }

  function Reclaim(row: Row, timeout: nat, maxAttempts: nat, now: Instant): Row {
    if Stuck(row, now, timeout)
    then row.(
      status := if row.attempts >= maxAttempts then Failed else Pending,
      lockedAt := None,
      nextAttemptAt := now,
      lastError := Some(RECLAIM_ERROR))
    else row
  }

  /** A re-publish of the same digest: the conflict update skips a row that is being scanned. */
  function Republish(row: Row, now: Instant): Row {
    if row.status.Processing? then row
    else row.(status := Pending, nextAttemptAt := now, lockedAt := None, lastError := None)
  }

  function FirstPublish(now: Instant): Row {
    Row(Pending, 0, now, now, None, None)
  }

  /** Due no later, and among those due at once no younger. */
  predicate NoLater(due: Instant, created: Instant, otherDue: Instant, otherCreated: Instant) {
    due <= otherDue && (due == otherDue ==> created <= otherCreated)
  }

  /** `order by next_attempt_at asc, created_at asc`: strictly earlier. */
  predicate Before(x: Row, y: Row) {
    x.nextAttemptAt < y.nextAttemptAt
    || (x.nextAttemptAt == y.nextAttemptAt && x.createdAt < y.createdAt)
  }

  lemma {:induction false} EarliestExists(rows: map<RowId, Row>, ids: set<RowId>) returns (first: RowId)
    requires ids != {} && ids <= rows.Keys
    ensures first in ids && forall id :: id in ids ==> !Before(rows[id], rows[first])
  {
    first :| first in ids;
    var rest := ids - {first};
    if rest != {} {
      var next := EarliestExists(rows, rest);
      if Before(rows[next], rows[first]) {
        first := next;
      }
    }
  }

  predicate Distinct(ids: seq<RowId>) {
    forall i, j :: 0 <= i < j < |ids| ==> ids[i] != ids[j]
  }

  function Ids(intents: seq<Intent>): (ids: seq<RowId>)
    ensures |ids| == |intents| && forall i :: 0 <= i < |ids| ==> ids[i] == intents[i].id
  {
    seq(|intents|, i requires 0 <= i < |intents| => intents[i].id)
  }

  lemma OneMoreId(intents: seq<Intent>, intent: Intent)
    requires Distinct(Ids(intents)) && intent.id !in Ids(intents)
    ensures Distinct(Ids(intents + [intent]))
    ensures forall id :: id in Ids(intents + [intent]) <==> id == intent.id || id in Ids(intents)
    ensures forall other :: other in intents ==> other.id != intent.id
  {
    assert Ids(intents + [intent]) == Ids(intents) + [intent.id];
    forall other | other in intents
      ensures other.id in Ids(intents)
    {
      var i :| 0 <= i < |intents| && intents[i] == other;
      assert Ids(intents)[i] == other.id;
    }
  }

  class ScanOutboxTable {
    var rows: map<RowId, Row>

    constructor ()
      ensures rows == map[]
    {
      rows := map[];
    }

    /**
     One `UPDATE ... FOR UPDATE SKIP LOCKED`: the earliest claimable rows that no other
     transaction has locked, at most `limit` of them, each stamped with its next attempt number.
     */
    method ClaimScanIntents(limit: nat, now: Instant, lockedElsewhere: set<RowId>)
      returns (intents: seq<Intent>)
      modifies this
      ensures rows.Keys == old(rows.Keys)
      ensures forall intent :: intent in intents ==>
                && intent.id in old(rows) && intent.id !in lockedElsewhere
                && old(rows)[intent.id].status.Pending? && old(rows)[intent.id].nextAttemptAt <= now
                && intent.attempts == old(rows)[intent.id].attempts + 1
                && rows[intent.id] ==
                   old(rows)[intent.id].(status := Processing, attempts := intent.attempts, lockedAt := Some(now))
      ensures |intents| <= limit
      ensures forall i, j :: 0 <= i < j < |intents| ==> intents[i].id != intents[j].id
      ensures forall id :: id in old(rows) && id !in Ids(intents) ==> rows[id] == old(rows)[id]
      ensures forall id :: id in old(rows) && id !in Ids(intents) && id !in lockedElsewhere
                           && old(rows)[id].status.Pending? && old(rows)[id].nextAttemptAt <= now ==>
                |intents| == limit
                && forall intent :: intent in intents ==>
                     NoLater(old(rows)[intent.id].nextAttemptAt, old(rows)[intent.id].createdAt,
                             old(rows)[id].nextAttemptAt, old(rows)[id].createdAt)
    {
      ghost var before := rows;
      var waiting := set id | id in rows && id !in lockedElsewhere && Claimable(rows[id], now);
      intents := [];
      while |intents| < limit && waiting != {}
        invariant rows.Keys == before.Keys && waiting <= rows.Keys && |intents| <= limit
        invariant Distinct(Ids(intents))
        invariant forall id :: id in before && id !in Ids(intents) ==> rows[id] == before[id]
        invariant forall id :: id in before ==>
                    (id in waiting <==>
                     id !in lockedElsewhere && Claimable(before[id], now) && id !in Ids(intents))
        invariant forall intent :: intent in intents ==>
                    && intent.id in before && intent.id !in lockedElsewhere
                    && Claimable(before[intent.id], now)
                    && intent.attempts == before[intent.id].attempts + 1
                    && rows[intent.id] == Claim(before[intent.id], now)
        invariant forall id, intent :: id in waiting && intent in intents ==>
                    !Before(before[id], before[intent.id])
        decreases waiting
      {
        ghost var first := EarliestExists(rows, waiting);
        var id :| id in waiting && forall other :: other in waiting ==> !Before(rows[other], rows[id]);
        var intent := Intent(id, rows[id].attempts + 1);
        OneMoreId(intents, intent);
        intents := intents + [intent];
        rows := rows[id := Claim(rows[id], now)];
        waiting := waiting - {id};
      }
    }

    method StartHeartbeatTick(intent: Intent, now: Instant)
      modifies this
      ensures rows.Keys == old(rows.Keys)
      ensures forall id :: id in rows ==>
                rows[id] == if id == intent.id then Heartbeat(old(rows)[id], intent.attempts, now) else old(rows)[id]
      ensures intent.id in rows ==>
                rows[intent.id] ==
                if old(rows)[intent.id].status.Processing? && old(rows)[intent.id].attempts == intent.attempts
                then old(rows)[intent.id].(lockedAt := Some(now)) else old(rows)[intent.id]
    {
      if intent.id in rows {
        rows := rows[intent.id := Heartbeat(rows[intent.id], intent.attempts, now)];
      }
    }

    method MarkSucceeded(intent: Intent)
      modifies this
      ensures rows.Keys == old(rows.Keys)
      ensures forall id :: id in rows ==>
                rows[id] == if id == intent.id then Succeed(old(rows)[id], intent.attempts) else old(rows)[id]
      ensures intent.id in rows ==>
                rows[intent.id] ==
                if old(rows)[intent.id].status.Processing? && old(rows)[intent.id].attempts == intent.attempts
                then old(rows)[intent.id].(status := Succeeded, lockedAt := None, lastError := None)
                else old(rows)[intent.id]
    {
      if intent.id in rows {
        rows := rows[intent.id := Succeed(rows[intent.id], intent.attempts)];
      }
    }

    method MarkFailed(intent: Intent, error: string, maxAttempts: nat, now: Instant)
      modifies this
      ensures rows.Keys == old(rows.Keys)
      ensures forall id :: id in rows ==>
                rows[id] ==
                if id == intent.id then Fail(old(rows)[id], intent.attempts, error, maxAttempts, now)
                else old(rows)[id]
      ensures intent.id in rows && !HoldsClaim(old(rows)[intent.id], intent.attempts) ==>
                rows[intent.id] == old(rows)[intent.id]
      ensures intent.id in rows && HoldsClaim(old(rows)[intent.id], intent.attempts) ==>
                && (if intent.attempts < maxAttempts then rows[intent.id].status.Pending? else rows[intent.id].status.Failed?)
                && rows[intent.id].nextAttemptAt - now == Backoff(intent.attempts)
                && rows[intent.id].lockedAt.None?
                && rows[intent.id].attempts == intent.attempts
                && rows[intent.id].createdAt == old(rows)[intent.id].createdAt
                && rows[intent.id].lastError.Some? && rows[intent.id].lastError.value <= error
                && |rows[intent.id].lastError.value| == if |error| <= 2000 then |error| else 2000
    {
      if intent.id in rows {
        rows := rows[intent.id := Fail(rows[intent.id], intent.attempts, error, maxAttempts, now)];
      }
    }

    method ReclaimStuckScans(timeout: nat, maxAttempts: nat, now: Instant) returns (reclaimed: set<RowId>)
      modifies this
      ensures rows.Keys == old(rows.Keys)
      ensures forall id :: id in reclaimed <==>
                && id in old(rows) && old(rows)[id].status.Processing?
                && old(rows)[id].lockedAt.Some? && old(rows)[id].lockedAt.value + timeout < now
      ensures forall id :: id in rows && id !in reclaimed ==> rows[id] == old(rows)[id]
      ensures forall id :: id in reclaimed ==>
                && (if old(rows)[id].attempts < maxAttempts then rows[id].status.Pending? else rows[id].status.Failed?)
                && rows[id].lockedAt.None? && rows[id].nextAttemptAt == now
                && rows[id].lastError == Some("reclaimed: worker stopped while processing")
                && rows[id].attempts == old(rows)[id].attempts && rows[id].createdAt == old(rows)[id].createdAt
    {
      reclaimed := set id | id in rows && Stuck(rows[id], now, timeout);
      rows := map id | id in rows :: Reclaim(rows[id], timeout, maxAttempts, now);
    }

    /** The publish transaction's upsert of the row of one artifact. */
    method RecordPublish(id: RowId, now: Instant)
      modifies this
      ensures rows.Keys == old(rows.Keys) + {id}
      ensures forall other :: other in old(rows) && other != id ==> rows[other] == old(rows)[other]
      ensures id !in old(rows) ==> rows[id] == FirstPublish(now)
      ensures id in old(rows) && old(rows)[id].status.Processing? ==> rows[id] == old(rows)[id]
      ensures id in old(rows) && !old(rows)[id].status.Processing? ==>
                && rows[id].status.Pending? && rows[id].lockedAt.None? && rows[id].lastError.None?
                && rows[id].nextAttemptAt == now
                && rows[id].attempts == old(rows)[id].attempts
                && rows[id].createdAt == old(rows)[id].createdAt
      ensures Claimable(rows[id], now) <==> !(id in old(rows) && old(rows)[id].status.Processing?)
    {
      rows := rows[id := if id in rows then Republish(rows[id], now) else FirstPublish(now)];
    }

    /**
     One claimed intent, from scan outcome to final write: a failed scan is retried or given up,
     a finished one succeeds, and either write lands only on the exact attempt that was claimed.
     */
    method ProcessClaimedIntent(intent: Intent, scan: Result<()>, maxAttempts: nat, now: Instant)
      modifies this
      ensures rows.Keys == old(rows.Keys)
      ensures forall id :: id in rows && id != intent.id ==> rows[id] == old(rows)[id]
      ensures intent.id in rows && !HoldsClaim(old(rows)[intent.id], intent.attempts) ==>
                rows[intent.id] == old(rows)[intent.id]
      ensures intent.id in rows && HoldsClaim(old(rows)[intent.id], intent.attempts) ==>
                && rows[intent.id].attempts == intent.attempts
                && rows[intent.id].createdAt == old(rows)[intent.id].createdAt
                && rows[intent.id].lockedAt.None?
                && match scan
                   case Ok(_) =>
                     && rows[intent.id].status.Succeeded? && rows[intent.id].lastError.None?
                     && rows[intent.id].nextAttemptAt == old(rows)[intent.id].nextAttemptAt
                   case Err(error) =>
                     && (rows[intent.id].status.Pending? <==> intent.attempts < maxAttempts)
                     && (rows[intent.id].status.Failed? <==> intent.attempts >= maxAttempts)
                     && rows[intent.id].lastError == Some(Truncated(error))
                     && now < rows[intent.id].nextAttemptAt <= now + MAX_BACKOFF
    {
      match scan
      case Ok(_) => MarkSucceeded(intent);
      case Err(error) => MarkFailed(intent, error, maxAttempts, now);
    }
  }
}
