/**
 * The connection free-list of the BIND module (resolver/dlz_pgsql/src/dlz_pgsql.c): acquire, release
 * and the path of fetch between them, for any number of threads.
 */
module ConnPool {
  import opened Common

  // ----- the stack of free indices, in place -----

  class FreeList {
    const freeIdx: array<nat>
    var nfree: nat

    ghost predicate Valid()
      reads this
    {
      nfree <= freeIdx.Length
    }

    ghost function Free(): seq<nat>
      requires Valid()
      reads this, freeIdx
    {
      freeIdx[..nfree]
    }

    /** dlz_create: every connection is free. */
    constructor (pool: nat)
      ensures Valid() && freeIdx.Length == pool && fresh(freeIdx)
      ensures Free() == seq(pool, i => i)
    {
      freeIdx := new nat[pool](i => i);
      nfree := pool;
    }

    /** The critical section of acquire; None when the wait for a free connection timed out. */
    method Acquire() returns (idx: Option<nat>)
      requires Valid()
      modifies this
      ensures Valid()
      ensures old(Free()) == [] ==> idx.None? && Free() == []
      ensures old(Free()) != [] ==> idx.Some? && old(Free()) == Free() + [idx.value]
    {
      if nfree == 0 {
        return None;
      }
      nfree := nfree - 1;
      return Some(freeIdx[nfree]);
    }

    /** The stack must have room: ReleaseStep below shows that it always has. */
    method Release(idx: nat)
      requires Valid() && nfree < freeIdx.Length
      modifies this, freeIdx
      ensures Valid() && Free() == old(Free()) + [idx]
    {
      freeIdx[nfree] := idx;
      nfree := nfree + 1;
    }
  }

  // ----- all threads, interleaved -----

  type Thread = nat

  /** Where a thread is inside fetch: with a connection and the attempts made, or on its way out. */
  datatype Pc = Idle | Trying(conn: nat, attempt: nat) | Leaving(conn: nat)

  datatype PoolState = PoolState(free: seq<nat>, threads: map<Thread, Pc>)

  /** What one attempt on the connection came to. */
  datatype Attempt = NotConnected | Answered | QueryError | Dropped

  datatype Action =
    | Acquire(t: Thread)
    | GiveUp(t: Thread)  // no free connection before the deadline
    | Try(t: Thread, came: Attempt)
    | Release(t: Thread)

  const ATTEMPTS: nat := 2

  ghost function Conn(pc: Pc): Option<nat> {
    if pc.Idle? then None else Some(pc.conn)
  }

  ghost predicate Step(s: PoolState, a: Action, s': PoolState) {
    && a.t in s.threads
    && var pc := s.threads[a.t];
    match a
    case Acquire(t) =>
      && pc.Idle? && s.free != []
      && s'.free == s.free[..|s.free| - 1]
      && s'.threads == s.threads[t := Trying(s.free[|s.free| - 1], 0)]
    case GiveUp(t) => pc.Idle? && s.free == [] && s' == s
    case Try(t, came) =>
      && pc.Trying? && s'.free == s.free
      && s'.threads == s.threads[t :=
           if came.Dropped? && pc.attempt + 1 < ATTEMPTS then Trying(pc.conn, pc.attempt + 1) else Leaving(pc.conn)]
    case Release(t) =>
      && pc.Leaving?
      && s'.free == s.free + [pc.conn]
      && s'.threads == s.threads[t := Idle]
  }

  ghost function Holders(s: PoolState): set<Thread> {
    set t | t in s.threads && !s.threads[t].Idle?
  }

  ghost predicate Held(s: PoolState, c: nat) {
    exists t :: t in Holders(s) && s.threads[t].conn == c
  }

  /** No connection is free twice, held twice, or free and held. */
  ghost predicate Exclusive(s: PoolState, pool: nat) {
    && (forall i, j :: 0 <= i < j < |s.free| ==> s.free[i] != s.free[j])
    && (forall i :: 0 <= i < |s.free| ==> s.free[i] < pool)
    && (forall t :: t in Holders(s) ==> s.threads[t].conn < pool && s.threads[t].conn !in s.free)
    && (forall t, u :: t in Holders(s) && u in Holders(s) && t != u ==> s.threads[t].conn != s.threads[u].conn)
  }

  /** Free and held indices partition 0..pool. */
  ghost predicate Partition(s: PoolState, pool: nat) {
    && Exclusive(s, pool)
    && (forall c: nat :: c < pool ==> c in s.free || Held(s, c))
    && |s.free| + |Holders(s)| == pool
  }

  ghost predicate Initial(s: PoolState, pool: nat) {
    && s.free == seq(pool, i => i)
    && forall t :: t in s.threads ==> s.threads[t].Idle?
  }

  lemma InitialPartition(s: PoolState, pool: nat)
    requires Initial(s, pool)
    ensures Partition(s, pool)
  {
    assert Holders(s) == {};
    forall c: nat | c < pool
      ensures c in s.free
    {
      assert s.free[c] == c;
    }
  }

  lemma HoldersAfter(s: PoolState, a: Action, s': PoolState)
    requires Step(s, a, s')
    ensures a.Acquire? ==> Holders(s') == Holders(s) + {a.t} && a.t !in Holders(s)
    ensures a.Release? ==> Holders(s') == Holders(s) - {a.t} && a.t in Holders(s)
    ensures a.Try? || a.GiveUp? ==> Holders(s') == Holders(s)
    ensures forall t :: t in Holders(s) && t in Holders(s') ==> s'.threads[t].conn == s.threads[t].conn
  {
  }

  lemma StepKeepsExclusive(s: PoolState, a: Action, s': PoolState, pool: nat)
    requires Exclusive(s, pool) && Step(s, a, s')
    ensures Exclusive(s', pool)
  {
    HoldersAfter(s, a, s');
  }

  lemma StepKeepsCover(s: PoolState, a: Action, s': PoolState, c: nat)
    requires Step(s, a, s') && (c in s.free || Held(s, c))
    ensures c in s'.free || Held(s', c)
  {
    HoldersAfter(s, a, s');
    if c in s.free {
      if a.Acquire? && c !in s'.free {
        assert s.free == s'.free + [s.free[|s.free| - 1]];
        assert a.t in Holders(s') && s'.threads[a.t].conn == c;
      }
    } else {
      var t :| t in Holders(s) && s.threads[t].conn == c;
      if a.Release? && t == a.t {
        assert c in s'.free;
      } else {
        assert t in Holders(s') && s'.threads[t].conn == c;
      }
    }
  }

  lemma StepKeepsPartition(s: PoolState, a: Action, s': PoolState, pool: nat)
    requires Partition(s, pool) && Step(s, a, s')
    ensures Partition(s', pool)
    ensures a.Release? ==> |s.free| < pool
  {
    HoldersAfter(s, a, s');
    StepKeepsExclusive(s, a, s', pool);
    forall c: nat | c < pool
      ensures c in s'.free || Held(s', c)
    {
      StepKeepsCover(s, a, s', c);
    }
    if a.Release? {
      SubsetSize({a.t}, Holders(s));
    }
  }

  /** An interleaving of any number of threads. */
  datatype Run = Run(states: seq<PoolState>, actions: seq<Action>)

  ghost predicate StepAt(r: Run, i: nat)
    requires i < |r.actions| && |r.states| == |r.actions| + 1
  {
    Step(r.states[i], r.actions[i], r.states[i + 1])
  }

  ghost predicate ValidRun(r: Run, pool: nat) {
    && |r.states| == |r.actions| + 1
    && Initial(r.states[0], pool)
    && forall i :: 0 <= i < |r.actions| ==> StepAt(r, i)
  }

  /**
   * Conservation: in every interleaving, free and held connections partition the pool, none is held
   * twice, and a release always finds room on the stack.
   */
  lemma {:induction false} PoolConserved(r: Run, pool: nat, k: nat)
    requires ValidRun(r, pool) && k <= |r.actions|
    ensures Partition(r.states[k], pool)
    ensures k < |r.actions| && r.actions[k].Release? ==> |r.states[k].free| < pool
  {
    if k == 0 {
      InitialPartition(r.states[0], pool);
    } else {
      PoolConserved(r, pool, k - 1);
      assert StepAt(r, k - 1);
      StepKeepsPartition(r.states[k - 1], r.actions[k - 1], r.states[k], pool);
    }
    if k < |r.actions| {
      assert StepAt(r, k);
      StepKeepsPartition(r.states[k], r.actions[k], r.states[k + 1], pool);
    }
  }

  ghost function Acquires(r: Run, k: nat, t: Thread): nat
    requires k <= |r.actions|
  {
    if k == 0 then 0 else Acquires(r, k - 1, t) + (if r.actions[k - 1] == Action.Acquire(t) then 1 else 0)
  }

  ghost function Releases(r: Run, k: nat, t: Thread): nat
    requires k <= |r.actions|
  {
    if k == 0 then 0 else Releases(r, k - 1, t) + (if r.actions[k - 1] == Action.Release(t) then 1 else 0)
  }

  /** Every acquired connection is given back exactly once: only a thread inside fetch owes one. */
  lemma {:induction false} AcquiresMatchReleases(r: Run, pool: nat, k: nat, t: Thread)
    requires ValidRun(r, pool) && k <= |r.actions| && t in r.states[0].threads
    ensures t in r.states[k].threads
    ensures Acquires(r, k, t) == Releases(r, k, t) + (if r.states[k].threads[t].Idle? then 0 else 1)
  {
    if k > 0 {
      AcquiresMatchReleases(r, pool, k - 1, t);
      assert StepAt(r, k - 1);
    }
  }

  /** Attempts made by t in the first k actions since it last acquired a connection. */
  ghost function TriesSince(r: Run, k: nat, t: Thread): nat
    requires k <= |r.actions|
  {
    if k == 0 || r.actions[k - 1] == Action.Acquire(t) then 0
    else TriesSince(r, k - 1, t) + (if r.actions[k - 1].Try? && r.actions[k - 1].t == t then 1 else 0)
  }

  /** In every run a thread inside fetch has made the attempts it counts, and leaves after one or two. */
  lemma {:induction false} AtMostTwoTries(r: Run, pool: nat, k: nat, t: Thread)
    requires ValidRun(r, pool) && k <= |r.actions| && t in r.states[k].threads
    ensures r.states[k].threads[t].Trying? ==> TriesSince(r, k, t) == r.states[k].threads[t].attempt < 2
    ensures r.states[k].threads[t].Leaving? ==> 1 <= TriesSince(r, k, t) <= 2
  {
    if k > 0 {
      assert StepAt(r, k - 1);
      AtMostTwoTries(r, pool, k - 1, t);
    }
  }

  /** Steps a thread can still take before its release is done: fetch makes at most two attempts. */
  ghost function Remaining(pc: Pc): int {
    if pc.Trying? then ATTEMPTS - pc.attempt + 1 else if pc.Leaving? then 1 else 0
  }

  /** In every run each step of a thread inside fetch brings it closer to its release, which ends the fetch. */
  lemma HoldersLeave(r: Run, pool: nat, k: nat)
    requires ValidRun(r, pool) && k < |r.actions|
    ensures var t := r.actions[k].t;
            && t in r.states[k].threads && t in r.states[k + 1].threads
            && var pc, pc' := r.states[k].threads[t], r.states[k + 1].threads[t];
            !pc.Idle? ==>
              && 0 <= Remaining(pc') < Remaining(pc) <= 3
              && (pc'.Idle? <==> r.actions[k].Release?)
              && (pc'.Idle? ==> 1 <= TriesSince(r, k, t) <= 2)
  {
    assert StepAt(r, k);
    AtMostTwoTries(r, pool, k, r.actions[k].t);
    AtMostTwoTries(r, pool, k + 1, r.actions[k].t);
  }

  // ----- the stack in place is the protocol's -----

  /** acquire by an idle thread is the protocol's step on the stack: Acquire, or GiveUp when it is empty. */
  method AcquireStep(list: FreeList, ghost s: PoolState, t: Thread) returns (idx: Option<nat>, ghost s': PoolState)
    requires list.Valid() && list.Free() == s.free
    requires t in s.threads && s.threads[t].Idle?
    modifies list
    ensures list.Valid() && list.Free() == s'.free
    ensures idx.None? ==> Step(s, Action.GiveUp(t), s')
    ensures idx.Some? ==> Step(s, Action.Acquire(t), s') && s'.threads[t] == Trying(idx.value, 0)
  {
    idx := list.Acquire();
    s' := if idx.Some? then PoolState(list.Free(), s.threads[t := Trying(idx.value, 0)]) else s;
  }

  /** release by a thread on its way out is the protocol's step, and the stack always has room for it. */
  method ReleaseStep(list: FreeList, ghost s: PoolState, t: Thread, idx: nat) returns (ghost s': PoolState)
    requires list.Valid() && list.Free() == s.free && Partition(s, list.freeIdx.Length)
    requires t in s.threads && s.threads[t] == Leaving(idx)
    modifies list, list.freeIdx
    ensures list.Valid() && list.Free() == s'.free
    ensures Step(s, Action.Release(t), s') && Partition(s', list.freeIdx.Length)
  {
    s' := PoolState(s.free + [idx], s.threads[t := Idle]);
    StepKeepsPartition(s, Action.Release(t), s', list.freeIdx.Length);
    list.Release(idx);
  }
}
