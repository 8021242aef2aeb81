/**
 * The measurement queue (services/src/cadns/queue/pg.py): one row per domain in
 * cadns.measurement_queue, changed by short transactions of any number of workers.
 * Each transaction is one atomic step at the transaction's own `now`.
 */
module Queue {
  import opened Common

  type Name = string

  datatype Reason = Miss | Expired

  datatype State = Pending | Dead

  /** locked_by and locked_at: the schema keeps both NULL or both set. */
  datatype Lock = Lock(owner: string, since: Time)

  datatype Row = Row(
    reason: Reason,
    state: State,
    enqueuedAt: Time,
    attempts: int,
    nextAttemptAt: Time,
    lock: Option<Lock>,
    lastError: Option<string>)

  type Table = map<Name, Row>

  /** QueuePolicy, in seconds. */
  datatype Policy = Policy(
    lockTimeout: nat,
    maxAttempts: int,
    retryBase: nat,
    retryMax: nat,
    deadCooldown: nat)

  datatype Job = Job(domain: Name, reason: Reason, attempts: int)

  function Pow2(n: nat): (p: nat)
    ensures p >= 1
  {
    if n == 0 then 1 else 2 * Pow2(n - 1)
  }

  function RetryDelay(p: Policy, attempts: int): nat {
    Min(p.retryMax, p.retryBase * Pow2(Max(0, attempts - 1)))
  }

  /** Exponential backoff: each further attempt doubles the delay until the cap, and never shortens it. */
  lemma RetryDelayDoubles(p: Policy, attempts: int)
    ensures attempts <= 1 ==> RetryDelay(p, attempts) == Min(p.retryMax, p.retryBase)
    ensures attempts >= 1 ==> RetryDelay(p, attempts + 1) == Min(p.retryMax, 2 * RetryDelay(p, attempts))
    ensures RetryDelay(p, attempts) <= RetryDelay(p, attempts + 1) <= p.retryMax
  {
  }

  // ----- enqueue -----

  /** INSERT ... ON CONFLICT: a missing domain is inserted, a dead row past its cooldown is revived. */
  predicate Accepts(q: Table, d: Name, now: Time) {
    d !in q || (q[d].state.Dead? && q[d].nextAttemptAt <= now)
  }

  function FreshRow(reason: Reason, now: Time): Row {
    Row(reason, Pending, now, 0, now, None, None)
  }

  function Enqueued(q: Table, domains: set<Name>, reason: Reason, now: Time): Table {
    map d | d in q.Keys + domains ::
      if d in domains && Accepts(q, d, now) then FreshRow(reason, now) else q[d]
  }

  // ----- claim -----

  predicate Ready(q: Table, d: Name, now: Time, p: Policy) {
    && d in q
    && q[d].state.Pending?
    && q[d].nextAttemptAt <= now
    && (q[d].lock.None? || q[d].lock.value.since < now - p.lockTimeout * SECOND)
  }

  /** ORDER BY enqueued_at LIMIT: `chosen` holds the oldest ready rows, ties broken arbitrarily. */
  predicate OldestReady(q: Table, chosen: set<Name>, limit: int, now: Time, p: Policy) {
    && (forall d :: d in chosen ==> Ready(q, d, now, p))
    && |chosen| <= Max(0, limit)
    && (|chosen| < Max(0, limit) ==> forall d :: d in q && Ready(q, d, now, p) ==> d in chosen)
    && (forall a, b :: a in chosen && b in q && b !in chosen && Ready(q, b, now, p) ==>
        q[a].enqueuedAt <= q[b].enqueuedAt)
  }

  function ClaimedRow(r: Row, worker: string, now: Time): Row {
    r.(lock := Some(Lock(worker, now)), attempts := r.attempts + 1)
  }

  function Claimed(q: Table, chosen: set<Name>, worker: string, now: Time): Table {
    map d | d in q :: if d in chosen then ClaimedRow(q[d], worker, now) else q[d]
  }

  // ----- settle: complete, fail, release -----

  /** WHERE domain = ... AND locked_by = ... */
  predicate Holds(q: Table, d: Name, worker: string) {
    d in q && q[d].lock.Some? && q[d].lock.value.owner == worker
  }

  function Completed(q: Table, job: Job, worker: string): Table {
    if Holds(q, job.domain, worker) then q - {job.domain} else q
  }

  function Truncate(s: string, n: nat): string {
    if |s| <= n then s else s[..n]
  }

  /** The new state and delay come from the handle's attempt count, not from the row's. */
  function FailedRow(r: Row, job: Job, error: string, now: Time, p: Policy): Row {
    var dead := job.attempts >= p.maxAttempts;
    r.(state := if dead then Dead else Pending,
       nextAttemptAt := now + (if dead then p.deadCooldown else RetryDelay(p, job.attempts)) * SECOND,
       lastError := Some(Truncate(error, 1000)),
       lock := None)
  }

  function Failed(q: Table, job: Job, worker: string, error: string, now: Time, p: Policy): Table {
    if Holds(q, job.domain, worker) then q[job.domain := FailedRow(q[job.domain], job, error, now, p)] else q
  }

  function ReleasedRow(r: Row): Row {
    r.(lock := None, attempts := Max(0, r.attempts - 1))
  }

  function Released(q: Table, job: Job, worker: string): Table {
    if Holds(q, job.domain, worker) then q[job.domain := ReleasedRow(q[job.domain])] else q
  }

  // ----- the table, updated in place -----

  /** A legal choice of rows always exists, so a claim never blocks. */
  lemma {:induction false} OldestExists(q: Table, ready: set<Name>, limit: nat) returns (chosen: set<Name>)
    requires ready <= q.Keys
    ensures chosen <= ready
    ensures |chosen| == Min(limit, |ready|)
    ensures forall a, b :: a in chosen && b in ready && b !in chosen ==> q[a].enqueuedAt <= q[b].enqueuedAt
    decreases limit
  {
    if limit == 0 || ready == {} {
      chosen := {};
    } else {
      var times := set d | d in ready :: q[d].enqueuedAt;
      var d0 :| d0 in ready;
      assert q[d0].enqueuedAt in times;
      var first :| first in ready && q[first].enqueuedAt == MinOf(times);
      assert q[first].enqueuedAt == MinOf(times);
      var rest := OldestExists(q, ready - {first}, limit - 1);
      chosen := rest + {first};
      forall a, b | a in chosen && b in ready && b !in chosen
        ensures q[a].enqueuedAt <= q[b].enqueuedAt
      {
        assert q[b].enqueuedAt in times;
        assert a == first || a in rest;
      }
    }
  }

  /** cadns.measurement_queue as the object the queue functions change. */
  class QueueTable {
    var rows: Table

    constructor ()
      ensures rows == map[]
    {
      rows := map[];
    }

    /** Returns the domains newly queued or revived. */
    method Enqueue(domains: set<Name>, reason: Reason, now: Time) returns (queued: set<Name>)
      modifies this
      ensures rows == Enqueued(old(rows), domains, reason, now)
      ensures queued == set d | d in domains && Accepts(old(rows), d, now)
    {
      queued := set d | d in domains && Accepts(rows, d, now);
      if queued != {} {
        rows := rows + map d | d in queued :: FreshRow(reason, now);
      }
      ghost var spec := Enqueued(old(rows), domains, reason, now);
      forall d
        ensures d in spec <==> d in rows
        ensures d in spec ==> spec[d] == rows[d]
      {
        assert d in queued <==> d in domains && Accepts(old(rows), d, now);
        assert d in domains && d !in queued ==> d in old(rows);
      }
      assert rows == spec;
    }

    method Claim(worker: string, limit: int, now: Time, p: Policy) returns (jobs: set<Job>, ghost chosen: set<Name>)
      modifies this
      ensures OldestReady(old(rows), chosen, limit, now, p)
      ensures rows == Claimed(old(rows), chosen, worker, now)
      ensures jobs == set d | d in chosen :: Job(d, old(rows)[d].reason, old(rows)[d].attempts + 1)
    {
      if limit <= 0 {
        chosen := {};
        return {}, {};
      }
      ghost var ready := set d | d in rows && Ready(rows, d, now, p);
      ghost var witness' := OldestExists(rows, ready, limit);
      assert OldestReady(rows, witness', limit, now, p) by {
        if |witness'| < limit {
          assert |witness'| == |ready|;
          EqualSize(witness', ready);
        }
      }
      var picked: set<Name> :| OldestReady(rows, picked, limit, now, p);
      assert OldestReady(rows, picked, limit, now, p);
      jobs := set d | d in picked :: Job(d, rows[d].reason, rows[d].attempts + 1);
      rows := map d | d in rows :: if d in picked then ClaimedRow(rows[d], worker, now) else rows[d];
      chosen := picked;
    }

    method Complete(job: Job, worker: string)
      modifies this
      ensures rows == Completed(old(rows), job, worker)
    {
      rows := map d | d in rows && !(d == job.domain && Holds(rows, d, worker)) :: rows[d];
    }

    /** Returns the state reported to the caller, whether or not the row was still held. */
    method Fail(job: Job, worker: string, error: string, now: Time, p: Policy) returns (state: State)
      modifies this
      ensures rows == Failed(old(rows), job, worker, error, now, p)
      ensures state == if job.attempts >= p.maxAttempts then Dead else Pending
    {
      var dead := job.attempts >= p.maxAttempts;
      var delay := if dead then p.deadCooldown else RetryDelay(p, job.attempts);
      state := if dead then Dead else Pending;
      if Holds(rows, job.domain, worker) {
        rows := rows[job.domain := rows[job.domain].(
          state := state,
          nextAttemptAt := now + delay * SECOND,
          lastError := Some(Truncate(error, 1000)),
          lock := None)];
      }
    }

    method Release(job: Job, worker: string)
      modifies this
      ensures rows == Released(old(rows), job, worker)
    {
      if Holds(rows, job.domain, worker) {
        var r := rows[job.domain];
        rows := rows[job.domain := r.(lock := None, attempts := if r.attempts > 0 then r.attempts - 1 else 0)];
      }
    }
  }

  lemma {:induction false} EqualSize<T>(a: set<T>, b: set<T>)
    requires a <= b && |a| == |b|
    ensures a == b
  {
    if x :| x in b && x !in a {
      SubsetSize(a, b - {x});
    }
  }

  // ----- the protocol: workers, handles and a clock -----

  /** What a worker keeps from a claim until it settles. */
  datatype Handle = Handle(worker: string, job: Job)

  /** The table together with the handles not yet settled. */
  datatype World = World(q: Table, handles: multiset<Handle>)

  datatype Event =
    | Enqueue(domains: set<Name>, reason: Reason)
    | Claim(worker: string, limit: int, chosen: set<Name>)
    | Complete(handle: Handle)
    | Fail(handle: Handle, error: string)
    | Release(handle: Handle)
    | Purge(gone: set<Name>)  // garbage collection of dead rows

  ghost predicate Settles(ev: Event) {
    ev.Complete? || ev.Fail? || ev.Release?
  }

  ghost function After(q: Table, ev: Event, now: Time, p: Policy): Table {
    match ev
    case Enqueue(ds, reason) => Enqueued(q, ds, reason, now)
    case Claim(worker, _, chosen) => Claimed(q, chosen, worker, now)
    case Complete(h) => Completed(q, h.job, h.worker)
    case Fail(h, error) => Failed(q, h.job, h.worker, error, now, p)
    case Release(h) => Released(q, h.job, h.worker)
    case Purge(gone) => q - gone
  }

  function Get(q: Table, d: Name): Option<Row> {
    if d in q then Some(q[d]) else None
  }

  ghost predicate HeldBy(row: Option<Row>, worker: string) {
    row.Some? && row.value.lock.Some? && row.value.lock.value.owner == worker
  }

  /** What one event does to the row of one domain. */
  ghost function RowAfter(row: Option<Row>, d: Name, ev: Event, now: Time, p: Policy): Option<Row> {
    match ev
    case Enqueue(ds, reason) =>
      if d in ds && (row.None? || (row.value.state.Dead? && row.value.nextAttemptAt <= now))
      then Some(FreshRow(reason, now)) else row
    case Claim(worker, _, chosen) =>
      if d in chosen && row.Some? then Some(ClaimedRow(row.value, worker, now)) else row
    case Complete(h) =>
      if h.job.domain == d && HeldBy(row, h.worker) then None else row
    case Fail(h, error) =>
      if h.job.domain == d && HeldBy(row, h.worker) then Some(FailedRow(row.value, h.job, error, now, p)) else row
    case Release(h) =>
      if h.job.domain == d && HeldBy(row, h.worker) then Some(ReleasedRow(row.value)) else row
    case Purge(gone) =>
      if d in gone then None else row
  }

  /** The set-oriented statements act row by row: no statement touches a row through another one. */
  lemma RowByRow(q: Table, ev: Event, now: Time, p: Policy, d: Name)
    ensures Get(After(q, ev, now, p), d) == RowAfter(Get(q, d), d, ev, now, p)
  {
  }

  ghost function NewHandles(q: Table, worker: string, chosen: set<Name>): multiset<Handle>
    requires chosen <= q.Keys
  {
    multiset(set d | d in chosen :: Handle(worker, Job(d, q[d].reason, q[d].attempts + 1)))
  }

  /** One transaction. A handle is settled at most once; garbage collection removes dead rows only. */
  ghost predicate Step(w: World, ev: Event, now: Time, p: Policy, w': World) {
    && w'.q == After(w.q, ev, now, p)
    && match ev
       case Enqueue(_, _) => w'.handles == w.handles
       case Claim(worker, limit, chosen) =>
         && OldestReady(w.q, chosen, limit, now, p)
         && chosen <= w.q.Keys
         && w'.handles == w.handles + NewHandles(w.q, worker, chosen)
       case Purge(gone) =>
         && (forall d :: d in gone ==> d in w.q && w.q[d].state.Dead?)
         && w'.handles == w.handles
       case _ =>
         && ev.handle in w.handles
         && w'.handles == w.handles - multiset{ev.handle}
  }

  /** A history: event i happened at times[i] and led from worlds[i] to worlds[i + 1]. */
  datatype Run = Run(worlds: seq<World>, events: seq<Event>, times: seq<Time>)

  ghost predicate StepAt(r: Run, p: Policy, i: nat)
    requires i < |r.events| == |r.times| && |r.worlds| == |r.events| + 1
  {
    Step(r.worlds[i], r.events[i], r.times[i], p, r.worlds[i + 1])
  }

  ghost predicate ValidRun(r: Run, p: Policy) {
    && |r.worlds| == |r.events| + 1
    && |r.times| == |r.events|
    && (forall i :: 0 <= i < |r.events| ==> StepAt(r, p, i))
    && (forall i, j :: 0 <= i <= j < |r.times| ==> r.times[i] <= r.times[j])
  }

  ghost predicate FromEmpty(r: Run, p: Policy) {
    ValidRun(r, p) && r.worlds[0] == World(map[], multiset{})
  }

  ghost predicate Claims(r: Run, i: nat, d: Name)
    requires i < |r.events|
  {
    r.events[i].Claim? && d in r.events[i].chosen
  }

  /** Event i is a settling step of d by the worker that holds it. */
  ghost predicate SettledAt(r: Run, i: nat, d: Name)
    requires i < |r.events| && |r.worlds| == |r.events| + 1
  {
    Settles(r.events[i]) && r.events[i].handle.job.domain == d && Holds(r.worlds[i].q, d, r.events[i].handle.worker)
  }

  /** Every claim takes unlocked rows only: no lock has outlived its timeout. */
  ghost predicate NoTakeovers(r: Run, p: Policy)
    requires ValidRun(r, p)
  {
    forall i, d :: 0 <= i < |r.events| && Claims(r, i, d) ==> d in r.worlds[i].q && r.worlds[i].q[d].lock.None?
  }
}
