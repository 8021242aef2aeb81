/** Bounded overtaking: how many claims of other rows a freshly enqueued row can see before its own. */
module QueueFairness {
  import opened Common
  import opened Queue
  import opened QueueSafety

  ghost predicate StrictClock(r: Run) {
    forall i, j :: 0 <= i < j < |r.times| ==> r.times[i] < r.times[j]
  }

  /** A row's place is its enqueue time: claims, retries and releases keep it, only a new enqueue moves it. */
  lemma PlaceKept(r: Run, p: Policy, i: nat, x: Name)
    requires FromEmpty(r, p) && i < |r.events| && x in r.worlds[i + 1].q
    ensures EnqueuedAt(r, i, x) ==> r.worlds[i + 1].q[x].enqueuedAt == r.times[i]
    ensures !EnqueuedAt(r, i, x) ==>
              x in r.worlds[i].q && r.worlds[i + 1].q[x].enqueuedAt == r.worlds[i].q[x].enqueuedAt
  {
    StepOn(r, p, i, x);
  }

  /** d was enqueued by event e and not claimed before event k. */
  ghost predicate Waiting(r: Run, p: Policy, e: nat, k: nat, d: Name) {
    && p.maxAttempts >= 1
    && FromEmpty(r, p) && NoTakeovers(r, p) && StrictClock(r)
    && e < k <= |r.events|
    && EnqueuedAt(r, e, d)
    && forall i :: e < i < k ==> !Claims(r, i, d)
  }

  /** A waiting row is not touched by anything, so it is ready at every later instant. */
  lemma {:induction false} WaitingRow(r: Run, p: Policy, e: nat, k: nat, d: Name)
    requires Waiting(r, p, e, k, d)
    ensures Get(r.worlds[k].q, d) == Some(FreshRow(r.events[e].reason, r.times[e]))
    decreases k
  {
    StepOn(r, p, k - 1, d);
    if e < k - 1 {
      WaitingRow(r, p, e, k - 1, d);
      assert !Claims(r, k - 1, d);
    }
  }

  /** Rows that ORDER BY enqueued_at may place before a row enqueued at t. */
  ghost predicate InFront(row: Option<Row>, t: Time) {
    row.Some? && row.value.state.Pending? && row.value.enqueuedAt <= t
  }

  ghost function Ahead(q: Table, d: Name, t: Time): set<Name> {
    set x | x in q && x != d && InFront(Get(q, x), t)
  }

  /** Attempts that a row in front still has. */
  ghost function Slack(q: Table, t: Time, p: Policy): Name -> int {
    (x: Name) => if InFront(Get(q, x), t) then p.maxAttempts - Get(q, x).value.attempts else 0
  }

  /** Rows claimed by events from..k. */
  ghost function Overtakes(r: Run, from: nat, k: nat): nat
    requires from <= k <= |r.events|
  {
    if k == from then 0
    else Overtakes(r, from, k - 1) + (if r.events[k - 1].Claim? then |r.events[k - 1].chosen| else 0)
  }

  /** Release steps among events from..k. */
  ghost function Releases(r: Run, from: nat, k: nat): nat
    requires from <= k <= |r.events|
  {
    if k == from then 0
    else Releases(r, from, k - 1) + (if r.events[k - 1].Release? then 1 else 0)
  }

  /** Claim calls for at least one row among events from..k. */
  ghost function ClaimCalls(r: Run, from: nat, k: nat): nat
    requires from <= k <= |r.events|
  {
    if k == from then 0
    else ClaimCalls(r, from, k - 1) + (if r.events[k - 1].Claim? && r.events[k - 1].limit >= 1 then 1 else 0)
  }

  /** A sum falls at least by the number of elements that lose one and rises by at most those that gain one. */
  lemma {:induction false} SumDrop<T>(s: set<T>, f: T -> int, g: T -> int, lose: set<T>, gain: set<T>)
    requires lose <= s
    requires forall x :: x in s ==> g(x) <= f(x) - (if x in lose then 1 else 0) + (if x in gain then 1 else 0)
    ensures Sum(s, g) + |lose| <= Sum(s, f) + |gain|
    decreases s
  {
    if s != {} {
      var y := Pick(s);
      SumExtract(s, f, y);
      SumExtract(s, g, y);
      SumDrop(s - {y}, f, g, lose - {y}, gain - {y});
    }
  }

  lemma {:induction false} SumBound<T>(s: set<T>, f: T -> int, b: nat)
    requires forall x :: x in s ==> f(x) <= b
    ensures Sum(s, f) <= |s| * b
    decreases s
  {
    if s != {} {
      var y := Pick(s);
      SumExtract(s, f, y);
      SumBound(s - {y}, f, b);
      assert |s - {y}| == |s| - 1;
      assert |s| * b == |s - {y}| * b + b;
    }
  }

  lemma {:induction false} SumNonNegative<T>(s: set<T>, f: T -> int)
    requires forall x :: x in s ==> f(x) >= 0
    ensures Sum(s, f) >= 0
    decreases s
  {
    if s != {} {
      var y := Pick(s);
      SumExtract(s, f, y);
      SumNonNegative(s - {y}, f);
    }
  }

  /** After t nothing new gets in front of t, and a claim or release costs or returns one attempt. */
  lemma SlackStep(r: Run, p: Policy, i: nat, t: Time, x: Name)
    requires FromEmpty(r, p) && i < |r.events| && t < r.times[i]
    ensures InFront(Get(r.worlds[i + 1].q, x), t) ==> InFront(Get(r.worlds[i].q, x), t)
    ensures BoundedRow(Get(r.worlds[i].q, x), p) ==>
              Slack(r.worlds[i + 1].q, t, p)(x) <=
                Slack(r.worlds[i].q, t, p)(x)
                - (if Claims(r, i, x) && InFront(Get(r.worlds[i].q, x), t) then 1 else 0)
                + (if r.events[i].Release? && r.events[i].handle.job.domain == x then 1 else 0)
  {
    StepOn(r, p, i, x);
    ReachableWellFormed(r, p, i, x);
  }

  /** While d waits, only rows in front of it are claimed, and a claim for at least one row takes one. */
  lemma OnlyFrontClaimed(r: Run, p: Policy, e: nat, k: nat, d: Name)
    requires Waiting(r, p, e, k, d) && k < |r.events| && r.events[k].Claim? && !Claims(r, k, d)
    ensures forall x :: x in r.events[k].chosen ==> x in Ahead(r.worlds[k].q, d, r.times[e])
    ensures r.events[k].limit >= 1 ==> |r.events[k].chosen| >= 1
  {
    WaitingRow(r, p, e, k, d);
    assert StepAt(r, p, k);
    assert r.times[e] < r.times[k];
    assert Ready(r.worlds[k].q, d, r.times[k], p);
  }

  ghost function Losers(ev: Event): set<Name> {
    if ev.Claim? then ev.chosen else {}
  }

  ghost function Gainers(ev: Event): set<Name> {
    if ev.Release? then {ev.handle.job.domain} else {}
  }

  /** One step of the ledger: what one event costs and returns in total. */
  lemma LedgerStep(r: Run, p: Policy, e: nat, k: nat, d: Name, front: set<Name>)
    requires Waiting(r, p, e, k, d) && k < |r.events| && !Claims(r, k, d)
    requires Ahead(r.worlds[k].q, d, r.times[e]) <= front
    ensures Ahead(r.worlds[k + 1].q, d, r.times[e]) <= front
    ensures Sum(front, Slack(r.worlds[k + 1].q, r.times[e], p)) + |Losers(r.events[k])| <=
            Sum(front, Slack(r.worlds[k].q, r.times[e], p)) + |Gainers(r.events[k])|
    ensures r.events[k].Claim? && r.events[k].limit >= 1 ==> |Losers(r.events[k])| >= 1
  {
    var t, q, q' := r.times[e], r.worlds[k].q, r.worlds[k + 1].q;
    var lose, gain := Losers(r.events[k]), Gainers(r.events[k]);
    if r.events[k].Claim? {
      OnlyFrontClaimed(r, p, e, k, d);
    }
    AttemptsBounded(r, p, k);
    forall x
      ensures x in Ahead(q', d, t) ==> x in Ahead(q, d, t)
      ensures Slack(q', t, p)(x) <= Slack(q, t, p)(x) - (if x in lose then 1 else 0) + (if x in gain then 1 else 0)
    {
      assert t < r.times[k];
      SlackStep(r, p, k, t, x);
      assert BoundedRow(Get(q, x), p);
      assert x in lose ==> Claims(r, k, x) && x in Ahead(q, d, t);
    }
    SumDrop(front, Slack(q, t, p), Slack(q', t, p), lose, gain);
  }

  /** The ledger: claims so far are paid for by the attempts of the rows initially in front, plus releases. */
  lemma {:induction false} Ledger(r: Run, p: Policy, e: nat, k: nat, d: Name, front: set<Name>)
    requires Waiting(r, p, e, k, d)
    requires front == Ahead(r.worlds[e + 1].q, d, r.times[e])
    ensures Ahead(r.worlds[k].q, d, r.times[e]) <= front
    ensures Sum(front, Slack(r.worlds[k].q, r.times[e], p)) + Overtakes(r, e + 1, k) <=
            Sum(front, Slack(r.worlds[e + 1].q, r.times[e], p)) + Releases(r, e + 1, k)
    ensures ClaimCalls(r, e + 1, k) <= Overtakes(r, e + 1, k)
    decreases k
  {
    if e + 1 < k {
      Ledger(r, p, e, k - 1, d, front);
      assert !Claims(r, k - 1, d);
      LedgerStep(r, p, e, k - 1, d, front);
    }
  }

  /**
   * Bounded overtaking: a row enqueued behind n rows sees at most n * max_attempts claims of
   * other rows before its own first claim, plus one for each job given back unprocessed.
   */
  lemma BoundedOvertaking(r: Run, p: Policy, e: nat, k: nat, d: Name)
    requires Waiting(r, p, e, k, d)
    ensures Overtakes(r, e + 1, k) <=
            |Ahead(r.worlds[e + 1].q, d, r.times[e])| * p.maxAttempts + Releases(r, e + 1, k)
    ensures ClaimCalls(r, e + 1, k) <= Overtakes(r, e + 1, k)
  {
    var t := r.times[e];
    var front := Ahead(r.worlds[e + 1].q, d, t);
    Ledger(r, p, e, k, d, front);
    AttemptsBounded(r, p, k);
    forall x | x in front
      ensures Slack(r.worlds[e + 1].q, t, p)(x) <= p.maxAttempts
      ensures Slack(r.worlds[k].q, t, p)(x) >= 0
    {
      ReachableWellFormed(r, p, e + 1, x);
      assert BoundedRow(Get(r.worlds[k].q, x), p);
    }
    SumBound(front, Slack(r.worlds[e + 1].q, t, p), p.maxAttempts);
    SumNonNegative(front, Slack(r.worlds[k].q, t, p));
  }

  /** Hence no starvation: enough claim calls for at least one row do claim it. */
  lemma EventuallyClaimed(r: Run, p: Policy, e: nat, k: nat, d: Name)
    requires p.maxAttempts >= 1 && FromEmpty(r, p) && NoTakeovers(r, p) && StrictClock(r)
    requires e < k <= |r.events| && EnqueuedAt(r, e, d)
    requires ClaimCalls(r, e + 1, k) >
             |Ahead(r.worlds[e + 1].q, d, r.times[e])| * p.maxAttempts + Releases(r, e + 1, k)
    ensures exists i :: e < i < k && Claims(r, i, d)
  {
    if forall i :: e < i < k ==> !Claims(r, i, d) {
      BoundedOvertaking(r, p, e, k, d);
      assert false;
    }
  }
}
