/**
 * The queue statements on the columns of the table: which rows a claim may and must take, how long
 * backoff and cooldown keep a row away, and what each statement leaves in every row.
 */
module QueueColumns {
  import opened Common
  import opened Queue
  import opened QueueSafety

  // ----- enqueue -----

  /** A row is made afresh exactly for a listed domain that is missing, or dead past its cooldown; all others stay. */
  lemma EnqueueColumns(q: Table, domains: set<Name>, reason: Reason, now: Time, d: Name)
    ensures var q' := Enqueued(q, domains, reason, now);
            var renewed := d in domains && (d !in q || (q[d].state == Dead && q[d].nextAttemptAt <= now));
            && (d in q' <==> d in q || d in domains)
            && (renewed ==> q'[d] == Row(reason, Pending, now, 0, now, None, None))
            && (d in q' && !renewed ==> d in q && q'[d] == q[d])
  {
  }

  /** An enqueue past the cooldown does revive a dead row, and nothing else makes it claimable again. */
  lemma DeadRowRevived(r: Run, p: Policy, i: nat, d: Name)
    requires FromEmpty(r, p) && i < |r.events|
    requires d in r.worlds[i].q && r.worlds[i].q[d].state == Dead
    ensures d in r.worlds[i + 1].q && r.worlds[i + 1].q[d].state == Pending <==>
            && r.events[i].Enqueue? && d in r.events[i].domains
            && r.worlds[i].q[d].nextAttemptAt <= r.times[i]
    ensures d in r.worlds[i + 1].q && r.worlds[i + 1].q[d].state == Pending ==>
              r.worlds[i + 1].q[d] == Row(r.events[i].reason, Pending, r.times[i], 0, r.times[i], None, None)
  {
    ReachableWellFormed(r, p, i, d);
    StepOn(r, p, i, d);
  }

  // ----- claim -----

  /** The WHERE clause of a claim, on the columns. */
  ghost predicate Claimable(row: Row, now: Time, p: Policy) {
    && row.state == Pending
    && row.nextAttemptAt <= now
    && (row.lock == None || now - row.lock.value.since > p.lockTimeout * 1_000_000)
  }

  /**
   * A claim takes claimable rows, at most `limit`, and leaves a claimable row out only when `limit`
   * rows no younger than it were taken.
   */
  lemma ClaimColumns(q: Table, chosen: set<Name>, limit: int, now: Time, p: Policy)
    requires OldestReady(q, chosen, limit, now, p)
    ensures |chosen| <= Max(0, limit)
    ensures forall d :: d in chosen ==> d in q && Claimable(q[d], now, p)
    ensures forall d :: d in q && Claimable(q[d], now, p) && d !in chosen ==>
              |chosen| == Max(0, limit) && forall a :: a in chosen ==> q[a].enqueuedAt <= q[d].enqueuedAt
  {
    assert forall d :: d in q ==> (Ready(q, d, now, p) <==> Claimable(q[d], now, p));
  }

  /** A claimed row is locked by the worker since now with one more attempt; nothing else in it changes. */
  lemma ClaimedColumns(r: Run, p: Policy, i: nat, d: Name)
    requires ValidRun(r, p) && i < |r.events| && r.events[i].Claim?
    ensures d in r.events[i].chosen ==>
              && d in r.worlds[i].q && Claimable(r.worlds[i].q[d], r.times[i], p)
              && d in r.worlds[i + 1].q
              && var (old', new') := (r.worlds[i].q[d], r.worlds[i + 1].q[d]);
              new' == Row(old'.reason, Pending, old'.enqueuedAt, old'.attempts + 1, old'.nextAttemptAt,
                          Some(Lock(r.events[i].worker, r.times[i])), old'.lastError)
    ensures d !in r.events[i].chosen ==> Get(r.worlds[i + 1].q, d) == Get(r.worlds[i].q, d)
  {
    StepOn(r, p, i, d);
  }

  // ----- settling -----

  /** What the holder's settling step leaves of its row; other rows, and rows held by others, stay. */
  lemma SettledColumns(r: Run, p: Policy, i: nat, d: Name)
    requires FromEmpty(r, p) && i < |r.events| && Settles(r.events[i])
    ensures var (q, q', ev) := (r.worlds[i].q, r.worlds[i + 1].q, r.events[i]);
            var held := ev.handle.job.domain == d && d in q && q[d].lock.Some? &&
                q[d].lock.value.owner == ev.handle.worker;
            && (!held ==> Get(q', d) == Get(q, d))
            && (held && ev.Complete? ==> d !in q')
            && (held && ev.Release? ==> d in q' && q'[d] == q[d].(lock := None, attempts := q[d].attempts - 1))
            && (held && ev.Fail? ==>
                  && d in q' && q'[d].lastError.Some?
                  && q'[d].lastError.value <= ev.error && |q'[d].lastError.value| == Min(1000, |ev.error|)
                  && q'[d] == q[d].(state := q'[d].state, nextAttemptAt := q'[d].nextAttemptAt,
                                    lastError := q'[d].lastError, lock := None))
  {
    ReachableWellFormed(r, p, i, d);
    StepOn(r, p, i, d);
  }

  // ----- backoff and cooldown over runs -----

  /** Event i is a failure of d by its holder. */
  ghost predicate FailedAt(r: Run, i: nat, d: Name)
    requires i < |r.events| && |r.worlds| == |r.events| + 1
  {
    r.events[i].Fail? && SettledAt(r, i, d)
  }

  /** An unlocked pending row keeps its next attempt time until it is claimed. */
  lemma {:induction false} BackoffKept(r: Run, p: Policy, i: nat, j: nat, d: Name)
    requires ValidRun(r, p) && i < j <= |r.events|
    requires FailedAt(r, i, d) && d in r.worlds[i + 1].q && r.worlds[i + 1].q[d].state == Pending
    requires forall k :: i < k < j ==> !Claims(r, k, d)
    ensures Get(r.worlds[j].q, d) == Get(r.worlds[i + 1].q, d)
    ensures r.worlds[i + 1].q[d].lock.None?
    ensures r.worlds[i + 1].q[d].nextAttemptAt ==
            r.times[i] + RetryDelay(p, r.events[i].handle.job.attempts) * 1_000_000
    decreases j
  {
    StepOn(r, p, i, d);
    if i < j - 1 {
      BackoffKept(r, p, i, j - 1, d);
      StepOn(r, p, j - 1, d);
      assert !Claims(r, j - 1, d);
    }
  }

  /** Backoff: a row that failed and is to be retried is not claimed before its delay has passed. */
  lemma BackoffRespected(r: Run, p: Policy, i: nat, j: nat, d: Name)
    requires ValidRun(r, p) && i < j < |r.events|
    requires FailedAt(r, i, d) && r.events[i].handle.job.attempts < p.maxAttempts
    requires Claims(r, j, d) && forall k :: i < k < j ==> !Claims(r, k, d)
    ensures r.times[j] >= r.times[i] + RetryDelay(p, r.events[i].handle.job.attempts) * 1_000_000
  {
    StepOn(r, p, i, d);
    BackoffKept(r, p, i, j, d);
    StepOn(r, p, j, d);
  }

  /** A dead row stays dead until it is collected or enqueued anew. */
  lemma {:induction false} CooldownKept(r: Run, p: Policy, i: nat, j: nat, d: Name)
    requires FromEmpty(r, p) && i < j <= |r.events|
    requires FailedAt(r, i, d) && r.events[i].handle.job.attempts >= p.maxAttempts
    requires forall k :: i < k < j ==> !EnqueuedAt(r, k, d) && !(r.events[k].Purge? && d in r.events[k].gone)
    ensures d in r.worlds[j].q && r.worlds[j].q[d].state == Dead
    ensures r.worlds[j].q[d].nextAttemptAt == r.times[i] + p.deadCooldown * 1_000_000
    decreases j
  {
    StepOn(r, p, i, d);
    if i < j - 1 {
      CooldownKept(r, p, i, j - 1, d);
      ReachableWellFormed(r, p, j - 1, d);
      StepOn(r, p, j - 1, d);
      assert !EnqueuedAt(r, j - 1, d);
    }
  }

  /** Dead letters: after its last attempt failed, a row is revived only when its cooldown has passed. */
  lemma CooldownRespected(r: Run, p: Policy, i: nat, j: nat, d: Name)
    requires FromEmpty(r, p) && i < j < |r.events|
    requires FailedAt(r, i, d) && r.events[i].handle.job.attempts >= p.maxAttempts
    requires forall k :: i < k < j ==> !EnqueuedAt(r, k, d) && !(r.events[k].Purge? && d in r.events[k].gone)
    ensures !Claims(r, j, d)
    ensures EnqueuedAt(r, j, d) ==> r.times[j] >= r.times[i] + p.deadCooldown * 1_000_000
  {
    CooldownKept(r, p, i, j, d);
    StepOn(r, p, j, d);
  }
}
