/** Lease safety of the measurement queue over whole runs of any number of workers. */
module QueueSafety {
  import opened Common
  import opened Queue

  /** What event i of a run does to the row of d, and what a claim of d presupposes. */
  lemma StepOn(r: Run, p: Policy, i: nat, d: Name)
    requires ValidRun(r, p) && i < |r.events|
    ensures Get(r.worlds[i + 1].q, d) == RowAfter(Get(r.worlds[i].q, d), d, r.events[i], r.times[i], p)
    ensures Claims(r, i, d) ==> Ready(r.worlds[i].q, d, r.times[i], p)
    ensures r.events[i].Purge? && d in r.events[i].gone ==> d in r.worlds[i].q && r.worlds[i].q[d].state.Dead?
    ensures SettledAt(r, i, d) <==>
            Settles(r.events[i]) && r.events[i].handle.job.domain == d &&
            HeldBy(Get(r.worlds[i].q, d), r.events[i].handle.worker)
  {
    assert StepAt(r, p, i);
    RowByRow(r.worlds[i].q, r.events[i], r.times[i], p, d);
  }

  // ----- leases -----

  /** Once claimed, a domain stays locked, since no earlier than that claim, until its holder settles it. */
  lemma {:induction false} LeaseKept(r: Run, p: Policy, i: nat, j: nat, d: Name)
    requires ValidRun(r, p) && i < j <= |r.events|
    requires Claims(r, i, d)
    requires forall k :: i < k < j ==> !SettledAt(r, k, d)
    ensures d in r.worlds[j].q
    ensures var row := r.worlds[j].q[d]; row.state.Pending? && row.lock.Some? && row.lock.value.since >= r.times[i]
    decreases j
  {
    StepOn(r, p, j - 1, d);
    if i < j - 1 {
      LeaseKept(r, p, i, j - 1, d);
      assert r.times[i] <= r.times[j - 1];
    }
  }

  /** Two claims of a domain that its holder did not settle in between are more than the lock timeout apart. */
  lemma ClaimsAreApart(r: Run, p: Policy, i: nat, j: nat, d: Name)
    requires ValidRun(r, p) && i < j < |r.events|
    requires Claims(r, i, d) && Claims(r, j, d)
    requires forall k :: i < k < j ==> !SettledAt(r, k, d)
    ensures r.times[j] - r.times[i] > p.lockTimeout * SECOND
  {
    LeaseKept(r, p, i, j, d);
    StepOn(r, p, j, d);
  }

  /**
   * The row of the newest holder is its own: whatever every other worker does - including a
   * displaced earlier holder that completes, fails or releases - and whatever is enqueued or
   * collected, the row stays exactly as the claim left it until the holder settles it or it
   * is claimed again.
   */
  lemma {:induction false} HolderRowUntouched(r: Run, p: Policy, i: nat, j: nat, d: Name)
    requires ValidRun(r, p) && i < j <= |r.events|
    requires Claims(r, i, d)
    requires forall k :: i < k < j ==> !Claims(r, k, d)
    requires forall k :: i < k < j && Settles(r.events[k]) && r.events[k].handle.job.domain == d
               ==> r.events[k].handle.worker != r.events[i].worker
    ensures d in r.worlds[i].q && d in r.worlds[j].q
    ensures r.worlds[j].q[d] == ClaimedRow(r.worlds[i].q[d], r.events[i].worker, r.times[i])
    ensures r.worlds[i].q[d].state.Pending?
    decreases j
  {
    StepOn(r, p, i, d);
    StepOn(r, p, j - 1, d);
    if i < j - 1 {
      HolderRowUntouched(r, p, i, j - 1, d);
      assert !Claims(r, j - 1, d);
    }
  }

  // ----- row invariants -----

  /** Dead rows are never locked and a locked row has counted its attempt. */
  ghost predicate WellFormedRow(row: Option<Row>) {
    row.Some? ==>
      && row.value.attempts >= 0
      && (row.value.state.Dead? ==> row.value.lock.None?)
      && (row.value.lock.Some? ==> row.value.attempts >= 1)
  }

  lemma {:induction false} ReachableWellFormed(r: Run, p: Policy, k: nat, d: Name)
    requires FromEmpty(r, p) && k <= |r.events|
    ensures WellFormedRow(Get(r.worlds[k].q, d))
  {
    if k > 0 {
      ReachableWellFormed(r, p, k - 1, d);
      StepOn(r, p, k - 1, d);
    }
  }

  /** A dead row stays as it is until it is collected, or enqueued anew after its cooldown. */
  lemma DeadRowsWait(r: Run, p: Policy, i: nat, d: Name)
    requires FromEmpty(r, p) && i < |r.events|
    requires d in r.worlds[i].q && r.worlds[i].q[d].state.Dead?
    ensures || Get(r.worlds[i + 1].q, d) == Get(r.worlds[i].q, d)
            || (r.events[i].Purge? && d !in r.worlds[i + 1].q)
            || (EnqueuedAt(r, i, d) && r.times[i] >= r.worlds[i].q[d].nextAttemptAt
                && Get(r.worlds[i + 1].q, d) == Some(FreshRow(r.events[i].reason, r.times[i])))
  {
    StepOn(r, p, i, d);
    ReachableWellFormed(r, p, i, d);
  }

  /** A failed attempt frees the row and sets it back by the doubling delay, or buries it for the cooldown. */
  lemma FailureSetsBack(r: Run, p: Policy, i: nat, d: Name)
    requires FromEmpty(r, p) && i < |r.events|
    requires r.events[i].Fail? && SettledAt(r, i, d)
    ensures d in r.worlds[i].q && d in r.worlds[i + 1].q
    ensures var old', new', n := r.worlds[i].q[d], r.worlds[i + 1].q[d], r.events[i].handle.job.attempts;
            && new'.lock.None? && new'.attempts == old'.attempts && new'.enqueuedAt == old'.enqueuedAt
            && (new'.state.Dead? <==> n >= p.maxAttempts)
            && new'.nextAttemptAt == r.times[i] +
                (if new'.state.Dead? then p.deadCooldown else RetryDelay(p, n)) * SECOND
  {
    StepOn(r, p, i, d);
  }

  // ----- attempts are claims minus releases -----

  /** Event i inserts or revives d. */
  ghost predicate EnqueuedAt(r: Run, i: nat, d: Name)
    requires i < |r.events| && |r.worlds| == |r.events| + 1 && |r.times| == |r.events|
  {
    r.events[i].Enqueue? && d in r.events[i].domains && Accepts(r.worlds[i].q, d, r.times[i])
  }

  /** Claims of d in the first k events since it was last enqueued or revived. */
  ghost function ClaimsSince(r: Run, p: Policy, k: nat, d: Name): nat
    requires ValidRun(r, p) && k <= |r.events|
  {
    if k == 0 || EnqueuedAt(r, k - 1, d) then 0
    else ClaimsSince(r, p, k - 1, d) + (if Claims(r, k - 1, d) then 1 else 0)
  }

  /** Releases of d by its holder in the first k events since it was last enqueued or revived. */
  ghost function ReleasesSince(r: Run, p: Policy, k: nat, d: Name): nat
    requires ValidRun(r, p) && k <= |r.events|
  {
    if k == 0 || EnqueuedAt(r, k - 1, d) then 0
    else ReleasesSince(r, p, k - 1, d) + (if r.events[k - 1].Release? && SettledAt(r, k - 1, d) then 1 else 0)
  }

  /** The attempt counter is exact: no claim or release is ever lost or counted twice. */
  lemma {:induction false} AttemptsCountClaims(r: Run, p: Policy, k: nat, d: Name)
    requires FromEmpty(r, p) && k <= |r.events|
    requires d in r.worlds[k].q
    ensures r.worlds[k].q[d].attempts == ClaimsSince(r, p, k, d) - ReleasesSince(r, p, k, d)
  {
    if k > 0 {
      ReachableWellFormed(r, p, k - 1, d);
      StepOn(r, p, k - 1, d);
      if d in r.worlds[k - 1].q {
        AttemptsCountClaims(r, p, k - 1, d);
      }
    }
  }

  // ----- the attempt bound -----

  /** Every outstanding handle is the one and only handle of a row its worker still holds. */
  ghost predicate HandlesMatch(w: World) {
    && (forall h :: h in w.handles ==>
          && HeldBy(Get(w.q, h.job.domain), h.worker)
          && w.q[h.job.domain].attempts == h.job.attempts
          && w.handles[h] == 1)
    && (forall g, h :: g in w.handles && h in w.handles && g.job.domain == h.job.domain ==> g == h)
  }

  /** A pending row still has an attempt left, unless its last one is under way. */
  ghost predicate BoundedRow(row: Option<Row>, p: Policy) {
    row.Some? && row.value.state.Pending? ==>
      row.value.attempts <= p.maxAttempts && (row.value.lock.None? ==> row.value.attempts < p.maxAttempts)
  }

  lemma ClaimKeepsHandles(w: World, ev: Event, now: Time, p: Policy, w': World)
    requires HandlesMatch(w) && ev.Claim? && Step(w, ev, now, p, w')
    requires forall d :: d in ev.chosen ==> d in w.q && w.q[d].lock.None?
    ensures HandlesMatch(w')
  {
    var added := NewHandles(w.q, ev.worker, ev.chosen);
    forall h | h in w'.handles
      ensures HeldBy(Get(w'.q, h.job.domain), h.worker) && w'.q[h.job.domain].attempts == h.job.attempts
      ensures w'.handles[h] == 1
      ensures h in w.handles <==> h.job.domain !in ev.chosen
    {
      RowByRow(w.q, ev, now, p, h.job.domain);
      if h in w.handles {
        assert h !in added;
      } else {
        assert h in added;
      }
    }
  }

  lemma OtherKeepsHandles(w: World, ev: Event, now: Time, p: Policy, w': World)
    requires HandlesMatch(w) && !ev.Claim? && Step(w, ev, now, p, w')
    requires forall d :: d in w.q ==> WellFormedRow(Get(w.q, d))
    ensures HandlesMatch(w')
  {
    forall h | h in w'.handles
      ensures HeldBy(Get(w'.q, h.job.domain), h.worker) && w'.q[h.job.domain].attempts == h.job.attempts
      ensures w'.handles[h] == 1 && h in w.handles
    {
      assert h in w.handles && w.handles[h] == 1;
      assert Settles(ev) ==> ev.handle != h;
      assert WellFormedRow(Get(w.q, h.job.domain));
      RowByRow(w.q, ev, now, p, h.job.domain);
    }
  }

  lemma BoundKept(r: Run, p: Policy, i: nat, d: Name)
    requires p.maxAttempts >= 1
    requires FromEmpty(r, p) && i < |r.events| && NoTakeovers(r, p)
    requires HandlesMatch(r.worlds[i]) && BoundedRow(Get(r.worlds[i].q, d), p)
    ensures BoundedRow(Get(r.worlds[i + 1].q, d), p)
  {
    ReachableWellFormed(r, p, i, d);
    StepOn(r, p, i, d);
    assert StepAt(r, p, i);
    var ev := r.events[i];
    if Claims(r, i, d) {
    } else if SettledAt(r, i, d) {
      assert ev.handle in r.worlds[i].handles;
    }
  }

  lemma HandlesKept(r: Run, p: Policy, i: nat)
    requires FromEmpty(r, p) && i < |r.events| && NoTakeovers(r, p) && HandlesMatch(r.worlds[i])
    ensures HandlesMatch(r.worlds[i + 1])
  {
    var w, ev, w' := r.worlds[i], r.events[i], r.worlds[i + 1];
    assert StepAt(r, p, i);
    if ev.Claim? {
      forall d | d in ev.chosen
        ensures d in w.q && w.q[d].lock.None?
      {
        assert Claims(r, i, d);
      }
      ClaimKeepsHandles(w, ev, r.times[i], p, w');
    } else {
      forall d | d in w.q
        ensures WellFormedRow(Get(w.q, d))
      {
        ReachableWellFormed(r, p, i, d);
      }
      OtherKeepsHandles(w, ev, r.times[i], p, w');
    }
  }

  /**
   * While no lock outlives its timeout, every unlocked pending row has attempts left: a row is
   * dead-lettered exactly when its last attempt fails.
   */
  lemma {:induction false} AttemptsBounded(r: Run, p: Policy, k: nat)
    requires p.maxAttempts >= 1
    requires FromEmpty(r, p) && k <= |r.events|
    requires NoTakeovers(r, p)
    ensures HandlesMatch(r.worlds[k])
    ensures forall d :: BoundedRow(Get(r.worlds[k].q, d), p)
  {
    if k > 0 {
      AttemptsBounded(r, p, k - 1);
      HandlesKept(r, p, k - 1);
      forall d
        ensures BoundedRow(Get(r.worlds[k].q, d), p)
      {
        BoundKept(r, p, k - 1, d);
      }
    }
  }

  /** A domain enqueued and claimed once, by a worker that is never heard of again. */
  lemma Abandoned(p: Policy, d: Name, first: string) returns (r: Run)
    ensures FromEmpty(r, p) && r.times != [] && r.times[|r.times| - 1] == 0
    ensures r.worlds[|r.events|] ==
            World(map[d := ClaimedRow(FreshRow(Miss, 0), first, 0)], multiset{Handle(first, Job(d, Miss, 1))})
  {
    var w0 := World(map[], multiset{});
    var w1 := World(map[d := FreshRow(Miss, 0)], multiset{});
    var e0 := Event.Enqueue({d}, Miss);
    assert After(w0.q, e0, 0, p) == w1.q;
    r := Extend(Run([w0], [], []), p, e0, 0, w1);
    var w2 := World(map[d := ClaimedRow(FreshRow(Miss, 0), first, 0)], multiset{Handle(first, Job(d, Miss, 1))});
    var e1 := ClaimAlone(w1, d, first, 0, p, w2);
    r := Extend(r, p, e1, 0, w2);
  }

  /** The abandoned domain after n claims, each but the first taking over as soon as the lock is stale. */
  lemma {:induction false} TakenOver(p: Policy, d: Name, workers: nat -> string, n: nat)
    returns (r: Run, row: Row, kept: multiset<Handle>)
    requires n >= 1
    ensures FromEmpty(r, p) && r.times != [] && r.times[|r.times| - 1] == (n - 1) * (p.lockTimeout * SECOND + 1)
    ensures var since := (n - 1) * (p.lockTimeout * SECOND + 1);
            row == FreshRow(Miss, 0).(attempts := n, lock := Some(Lock(workers(n), since)))
    ensures r.worlds[|r.events|] == World(map[d := row], kept + multiset{Handle(workers(n), Job(d, Miss, n))})
  {
    if n == 1 {
      r := Abandoned(p, d, workers(1));
      row, kept := ClaimedRow(FreshRow(Miss, 0), workers(1), 0), multiset{};
    } else {
      var stale, before;
      r, stale, before := TakenOver(p, d, workers, n - 1);
      var w, period := r.worlds[|r.events|], p.lockTimeout * SECOND + 1;
      var late := (n - 1) * period;
      assert late == (n - 2) * period + period;
      row, kept := ClaimedRow(stale, workers(n), late), w.handles;
      var w' := World(map[d := row], kept + multiset{Handle(workers(n), Job(d, Miss, n))});
      var ev := ClaimAlone(w, d, workers(n), late, p, w');
      r := Extend(r, p, ev, late, w');
    }
  }

  /**
   * Takeovers do break that bound, whatever the policy and whoever the workers are: once stale locks
   * were taken over max_attempts times, the last holder's release leaves a pending, unlocked row that
   * has used up its attempts.
   */
  lemma TakeoverExceedsBound(p: Policy, d: Name, workers: nat -> string) returns (r: Run)
    ensures FromEmpty(r, p)
    ensures !BoundedRow(Get(r.worlds[|r.events|].q, d), p)
    ensures p.maxAttempts >= 1 ==> !NoTakeovers(r, p)
  {
    var n := Max(0, p.maxAttempts) + 1;
    var row, kept;
    r, row, kept := TakenOver(p, d, workers, n);
    var h := Handle(workers(n), Job(d, Miss, n));
    var w := World(map[d := ReleasedRow(row)], kept);
    assert kept == kept + multiset{h} - multiset{h};
    r := Extend(r, p, Event.Release(h), r.times[|r.times| - 1], w);
    if p.maxAttempts >= 1 && NoTakeovers(r, p) {
      AttemptsBounded(r, p, |r.events|);
    }
  }

  /** A run may always go on with one more step. */
  lemma Extend(r: Run, p: Policy, ev: Event, now: Time, w': World) returns (r': Run)
    requires FromEmpty(r, p)
    requires Step(r.worlds[|r.events|], ev, now, p, w')
    requires r.times != [] ==> r.times[|r.times| - 1] <= now
    ensures FromEmpty(r', p)
    ensures r'.times != [] && r'.times[|r'.times| - 1] == now && r'.worlds[|r'.events|] == w'
  {
    r' := Run(r.worlds + [w'], r.events + [ev], r.times + [now]);
    forall i | 0 <= i < |r'.events|
      ensures StepAt(r', p, i)
    {
      assert i < |r.events| ==> StepAt(r, p, i);
    }
  }

  /** Claiming the only row of a table. */
  lemma ClaimAlone(w: World, d: Name, worker: string, now: Time, p: Policy, w': World) returns (ev: Event)
    requires w.q.Keys == {d} && Ready(w.q, d, now, p)
    requires w'.q == map[d := ClaimedRow(w.q[d], worker, now)]
    requires w'.handles == w.handles + multiset{Handle(worker, Job(d, w.q[d].reason, w.q[d].attempts + 1))}
    ensures Step(w, ev, now, p, w')
  {
    ev := Event.Claim(worker, 1, {d});
    var h := Handle(worker, Job(d, w.q[d].reason, w.q[d].attempts + 1));
    assert (set x | x in {d} :: Handle(worker, Job(x, w.q[x].reason, w.q[x].attempts + 1))) == {h};
    assert NewHandles(w.q, worker, {d}) == multiset{h};
  }
}
