/**
 * The queue inside the whole system: a history of all transactions, seen from the queue alone, is a
 * run of the queue protocol, so what holds over runs holds over histories.
 */
module QueueHistory {
  import opened Common
  import opened Queue
  import opened QueueSafety
  import opened QueueFairness
  import opened Lifecycle

  /** Event i keeps the workers' handles: a queue step is one of the protocol, under policy p. */
  ghost predicate HandlesAt(h: History, cfg: Config, p: Policy, handles: seq<multiset<Handle>>, i: nat)
    requires ValidHistory(h, cfg) && i < |h.events| && |handles| == |h.dbs|
  {
    if h.events[i].QueueStep? then
      && h.events[i].policy == p
      && Step(World(h.dbs[i].queue, handles[i]), h.events[i].event, h.times[i], p,
          World(h.dbs[i + 1].queue, handles[i + 1]))
    else
      handles[i + 1] == handles[i]
  }

  /** A history from an empty queue in which the workers keep to the protocol. */
  ghost predicate Operated(h: History, cfg: Config, p: Policy, handles: seq<multiset<Handle>>) {
    && ValidHistory(h, cfg)
    && |handles| == |h.dbs|
    && h.dbs[0].queue == map[] && handles[0] == multiset{}
    && forall i :: 0 <= i < |h.events| ==> HandlesAt(h, cfg, p, handles, i)
  }

  /** The history as the queue sees it. */
  ghost function QueueRun(h: History, handles: seq<multiset<Handle>>): Run
    requires |h.dbs| == |handles| == |h.events| + 1 && |h.times| == |h.events|
  {
    Run(seq(|h.dbs|, k requires 0 <= k < |h.dbs| => World(h.dbs[k].queue, handles[k])),
        seq(|h.events|, i requires 0 <= i < |h.events| => QueueEvent(h.dbs[i], h.events[i], h.times[i])),
        h.times)
  }

  /** The projection is a run of the protocol from the empty queue. */
  lemma HistoryIsQueueRun(h: History, cfg: Config, p: Policy, handles: seq<multiset<Handle>>)
    requires Operated(h, cfg, p, handles)
    ensures FromEmpty(QueueRun(h, handles), p)
  {
    var r := QueueRun(h, handles);
    forall i | 0 <= i < |r.events|
      ensures Queue.StepAt(r, p, i)
    {
      assert HandlesAt(h, cfg, p, handles, i);
      assert Lifecycle.StepAt(h, cfg, i);
      if !h.events[i].QueueStep? {
        QueueSeesItsEvents(h.dbs[i], h.events[i], h.times[i], cfg, p, handles[i]);
      }
    }
  }

  // ----- what runs promise, on histories -----

  /** Transaction i claims d. */
  ghost predicate ClaimedIn(h: History, i: nat, d: Name)
    requires i < |h.events|
  {
    h.events[i].QueueStep? && h.events[i].event.Claim? && d in h.events[i].event.chosen
  }

  /** Transaction i is a settling step of d by the worker that holds it. */
  ghost predicate SettledIn(h: History, i: nat, d: Name)
    requires i < |h.events| && |h.dbs| == |h.events| + 1
  {
    && h.events[i].QueueStep? && Settles(h.events[i].event)
    && h.events[i].event.handle.job.domain == d
    && Holds(h.dbs[i].queue, d, h.events[i].event.handle.worker)
  }

  /** Two claims of a domain that its holder did not settle in between are more than the lock timeout apart. */
  lemma HistoryClaimsAreApart(
    h: History, cfg: Config, p: Policy, handles: seq<multiset<Handle>>, i: nat, j: nat, d: Name)
    requires Operated(h, cfg, p, handles) && i < j < |h.events|
    requires ClaimedIn(h, i, d) && ClaimedIn(h, j, d)
    requires forall k :: i < k < j ==> !SettledIn(h, k, d)
    ensures h.times[j] - h.times[i] > p.lockTimeout * SECOND
  {
    var r := QueueRun(h, handles);
    HistoryIsQueueRun(h, cfg, p, handles);
    assert forall k :: i < k < j && SettledAt(r, k, d) ==> SettledIn(h, k, d);
    ClaimsAreApart(r, p, i, j, d);
  }

  /** The attempt counter of every queued domain is claims minus releases since it was last queued. */
  lemma HistoryAttemptsCountClaims(
    h: History, cfg: Config, p: Policy, handles: seq<multiset<Handle>>, k: nat, d: Name)
    requires Operated(h, cfg, p, handles) && k <= |h.events| && d in h.dbs[k].queue
    ensures FromEmpty(QueueRun(h, handles), p)
    ensures h.dbs[k].queue[d].attempts ==
            ClaimsSince(QueueRun(h, handles), p, k, d) - ReleasesSince(QueueRun(h, handles), p, k, d)
  {
    HistoryIsQueueRun(h, cfg, p, handles);
    AttemptsCountClaims(QueueRun(h, handles), p, k, d);
  }

  /** Transaction e is a scan that selects d and queues it. */
  ghost predicate ScanQueues(h: History, cfg: Config, e: nat, d: Name, f: Freshness)
    requires ValidHistory(h, cfg) && e < |h.events|
  {
    h.events[e] == Scan(f) && Expiring(h.dbs[e], d, h.times[e], f) && Accepts(h.dbs[e].queue, d, h.times[e])
  }

  /** Clock readings differ and no claim takes a locked row. */
  ghost predicate Unhurried(h: History, cfg: Config)
    requires ValidHistory(h, cfg)
  {
    && (forall i, j :: 0 <= i < j < |h.times| ==> h.times[i] < h.times[j])
    && (forall i, d :: 0 <= i < |h.events| && ClaimedIn(h, i, d) ==>
        d in h.dbs[i].queue && h.dbs[i].queue[d].lock.None?)
  }

  /** Between events e and k, more claim calls were made than rows in front and releases can use up. */
  ghost predicate EnoughClaims(
    h: History, cfg: Config, p: Policy, handles: seq<multiset<Handle>>, e: nat, k: nat, d: Name)
    requires ValidHistory(h, cfg) && |handles| == |h.dbs| && e < k <= |h.events|
  {
    ClaimCalls(QueueRun(h, handles), e + 1, k) >
      |Ahead(h.dbs[e + 1].queue, d, h.times[e])| * p.maxAttempts +
          QueueFairness.Releases(QueueRun(h, handles), e + 1, k)
  }

  /** The queue's run of an unhurried history has a strict clock and no takeovers. */
  lemma UnhurriedRun(h: History, cfg: Config, p: Policy, handles: seq<multiset<Handle>>)
    requires Operated(h, cfg, p, handles) && Unhurried(h, cfg)
    ensures var r := QueueRun(h, handles); FromEmpty(r, p) && NoTakeovers(r, p) && StrictClock(r)
  {
    var r := QueueRun(h, handles);
    HistoryIsQueueRun(h, cfg, p, handles);
    forall i, x | 0 <= i < |r.events| && Claims(r, i, x)
      ensures x in r.worlds[i].q && r.worlds[i].q[x].lock.None?
    {
      assert ClaimedIn(h, i, x);
    }
  }

  /** A scan that queues d is an enqueue of it in the queue's run. */
  lemma ScanEnqueues(h: History, cfg: Config, handles: seq<multiset<Handle>>, e: nat, d: Name, f: Freshness)
    requires ValidHistory(h, cfg) && |handles| == |h.dbs| && e < |h.events| && ScanQueues(h, cfg, e, d, f)
    ensures EnqueuedAt(QueueRun(h, handles), e, d)
  {
  }

  /** No starvation in the whole system: a domain that a scan queues is claimed once enough claim calls were made. */
  lemma ScannedIsClaimed(
    h: History, cfg: Config, p: Policy, handles: seq<multiset<Handle>>, e: nat, k: nat, d: Name, f: Freshness)
    requires Operated(h, cfg, p, handles) && p.maxAttempts >= 1 && Unhurried(h, cfg)
    requires e < k <= |h.events| && ScanQueues(h, cfg, e, d, f)
    requires EnoughClaims(h, cfg, p, handles, e, k, d)
    ensures exists i :: e < i < k && ClaimedIn(h, i, d)
  {
    var r := QueueRun(h, handles);
    UnhurriedRun(h, cfg, p, handles);
    ScanEnqueues(h, cfg, handles, e, d, f);
    assert r.worlds[e + 1].q == h.dbs[e + 1].queue;
    EventuallyClaimed(r, p, e, k, d);
    var i :| e < i < k && Claims(r, i, d);
    assert ClaimedIn(h, i, d);
  }

  /**
   * So the workers' deadline that gap-free service rests on follows from the queue: if the claim calls
   * come within W of the scan and every claim of d leads to a measurement within M, the scan is
   * followed by a measurement within W + M.
   */
  lemma ScannedIsMeasured(
    h: History, cfg: Config, p: Policy, handles: seq<multiset<Handle>>, e: nat, k: nat, d: Name, f: Freshness,
    W: Time, M: Time)
    requires Operated(h, cfg, p, handles) && p.maxAttempts >= 1 && Unhurried(h, cfg)
    requires e < k <= |h.events| && ScanQueues(h, cfg, e, d, f)
    requires EnoughClaims(h, cfg, p, handles, e, k, d)
    requires h.times[k - 1] <= h.times[e] + W
    requires forall i :: e < i < k && ClaimedIn(h, i, d) ==> MeasuredWithin(h, i, d, M)
    ensures MeasuredWithin(h, e, d, W + M)
  {
    ScannedIsClaimed(h, cfg, p, handles, e, k, d, f);
    var i :| e < i < k && ClaimedIn(h, i, d);
    assert MeasuredWithin(h, i, d, M);
    var j :| i < j < |h.events| && MeasuresAt(h, j, d) && h.times[j] <= h.times[i] + M;
  }
}
