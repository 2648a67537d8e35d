/** The `email_deliveries` ledger and the three statements `sendEmailOnce` runs on it. */
module EmailLedger {
  import opened Options

  type Instant = int
  type Key = string

  /** How long an unconfirmed claim may sit before it may be taken over: fifteen minutes. */
  const TAKEOVER_AFTER := 15 * 60 * 1000

  /** `updatedAt` is the claim stamp; the table restamps it on every update that does not set it. */
  datatype Delivery = Delivery(sentAt: Option<Instant>, updatedAt: Instant)

  predicate Claimable(row: Option<Delivery>, stamp: Instant) {
    row.None? || (row.value.sentAt.None? && row.value.updatedAt < stamp - TAKEOVER_AFTER)
  }

  predicate Ours(row: Option<Delivery>, stamp: Instant) {
    row.Some? && row.value.updatedAt == stamp
  }

  function Claimed(row: Option<Delivery>, stamp: Instant): Option<Delivery> {
    if Claimable(row, stamp) then Some(Delivery(None, stamp)) else row
  }

  function RolledBack(row: Option<Delivery>, stamp: Instant): Option<Delivery> {
    if Ours(row, stamp) && row.value.sentAt.None? then None else row
  }

  function Confirmed(row: Option<Delivery>, stamp: Instant, now: Instant): Option<Delivery> {
    if Ours(row, stamp) then Some(Delivery(Some(now), now)) else row
  }

  /** How one call of `sendEmailOnce` ends when nothing else touches the ledger meanwhile. */
  datatype Outcome = Sent | AlreadySent | PendingElsewhere | SendFailed

  class Ledger {
    var rows: map<Key, Delivery>

    constructor ()
      ensures rows == map[]
    {
      rows := map[];
    }

    function Row(key: Key): Option<Delivery>
      reads this
    {
      if key in rows then Some(rows[key]) else None
    }

    method ClaimDelivery(key: Key, stamp: Instant) returns (claimed: bool)
      modifies this
      ensures claimed <==>
              old(Row(key)).None?
              || (old(Row(key)).value.sentAt.None? && old(Row(key)).value.updatedAt + 900_000 < stamp)
      ensures Row(key) == if claimed then Some(Delivery(None, stamp)) else old(Row(key))
      ensures Row(key) == Claimed(old(Row(key)), stamp)
      ensures claimed ==> Ours(Row(key), stamp) && Row(key).value.sentAt.None?
      ensures forall other :: other != key ==> Row(other) == old(Row(other))
    {
      claimed := Claimable(Row(key), stamp);
      if claimed {
        rows := rows[key := Delivery(None, stamp)];
      }
    }

    method Rollback(key: Key, stamp: Instant)
      modifies this
      ensures Row(key) == RolledBack(old(Row(key)), stamp)
      ensures Row(key) == if old(Row(key)) == Some(Delivery(None, stamp)) then None else old(Row(key))
      ensures forall other :: other != key ==> Row(other) == old(Row(other))
    {
      if key in rows && rows[key].updatedAt == stamp && rows[key].sentAt.None? {
        rows := rows - {key};
      }
    }

    method Confirm(key: Key, stamp: Instant, now: Instant)
      modifies this
      ensures Row(key) == Confirmed(old(Row(key)), stamp, now)
      ensures if old(Row(key)).Some? && old(Row(key)).value.updatedAt == stamp
              then Row(key) == Some(Delivery(Some(now), now)) else Row(key) == old(Row(key))
      ensures forall other :: other != key ==> Row(other) == old(Row(other))
    {
      if key in rows && rows[key].updatedAt == stamp {
        rows := rows[key := Delivery(Some(now), now)];
      }
    }

    /** One undisturbed call, with the result of the SMTP send as a parameter. */
    method SendEmailOnce(key: Key, stamp: Instant, sendSucceeds: bool, now: Instant) returns (outcome: Outcome)
      requires stamp <= now
      modifies this
      ensures forall other :: other != key ==> Row(other) == old(Row(other))
      ensures outcome.AlreadySent? <==> old(Row(key)).Some? && old(Row(key)).value.sentAt.Some?
      ensures outcome.PendingElsewhere? <==>
              old(Row(key)).Some? && old(Row(key)).value.sentAt.None?
              && stamp <= old(Row(key)).value.updatedAt + TAKEOVER_AFTER
      ensures outcome.AlreadySent? || outcome.PendingElsewhere? ==> Row(key) == old(Row(key))
      ensures outcome.Sent? ==> sendSucceeds && Row(key) == Some(Delivery(Some(now), now))
      ensures outcome.SendFailed? ==> !sendSucceeds && Row(key).None?
    {
      var claimed := ClaimDelivery(key, stamp);
      if !claimed {
        return if key in rows && rows[key].sentAt.Some? then AlreadySent else PendingElsewhere;
      }
      if !sendSucceeds {
        Rollback(key, stamp);
        return SendFailed;
      }
      Confirm(key, stamp, now);
      return Sent;
    }
  }
}
