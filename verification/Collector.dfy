/** The collector (services/src/cadns/collector/service.py): events aggregated per name and flushed in batches. */
module Collector {
  import opened Common
  import opened Queue
  import opened Database

  datatype Kind = Hit | NoHit

  datatype QueryEvent = QueryEvent(kind: Kind, name: Name, time: Time)

  /** Batch: per name the number and last time of hits, and the last time of misses. */
  datatype Aggregated = Aggregated(hits: map<Name, (nat, Time)>, misses: map<Name, Time>)

  const EMPTY := Aggregated(map[], map[])

  function Added(b: Aggregated, e: QueryEvent): Aggregated {
    if e.kind.Hit? then
      var (count, last) := if e.name in b.hits then b.hits[e.name] else (0, 0);
      b.(hits := b.hits[e.name := (count + 1, Max(last, e.time))])
    else
      var last := if e.name in b.misses then b.misses[e.name] else 0;
      b.(misses := b.misses[e.name := Max(last, e.time)])
  }

  function Aggregate(es: seq<QueryEvent>): Aggregated {
    if es == [] then EMPTY else Added(Aggregate(es[..|es| - 1]), es[|es| - 1])
  }

  class Batch {
    var hits: map<Name, (nat, Time)>
    var misses: map<Name, Time>

    function View(): Aggregated
      reads this
    {
      Aggregated(hits, misses)
    }

    constructor ()
      ensures View() == EMPTY
    {
      hits, misses := map[], map[];
    }

    method Add(kind: Kind, name: Name, when: Time)
      modifies this
      ensures View() == Added(old(View()), QueryEvent(kind, name, when))
    {
      if kind.Hit? {
        var count, last := 0, 0;
        if name in hits {
          count, last := hits[name].0, hits[name].1;
        }
        hits := hits[name := (count + 1, if last < when then when else last)];
      } else {
        var last := 0;
        if name in misses {
          last := misses[name];
        }
        misses := misses[name := if last < when then when else last];
      }
    }

    /** Adding a stretch of events one by one aggregates them. */
    method AddAll(es: seq<QueryEvent>)
      requires View() == EMPTY
      modifies this
      ensures View() == Aggregate(es)
    {
      for i := 0 to |es|
        invariant View() == Aggregate(es[..i])
      {
        assert es[..i + 1][..i] == es[..i];
        Add(es[i].kind, es[i].name, es[i].time);
      }
      assert es[..|es|] == es;
    }
  }

  // ----- write_batch -----

  /** greatest(column, t), which ignores NULL. */
  function Greatest(column: Option<Time>, t: Time): Option<Time> {
    if column.Some? then Some(Max(column.value, t)) else Some(t)
  }

  function HitRow(row: Domain, hit: (nat, Time)): Domain {
    row.(lastQueriedAt := Greatest(row.lastQueriedAt, hit.1), hitCount := row.hitCount + hit.0)
  }

  function MissRow(domains: map<Name, Domain>, d: Name, t: Time, now: Time): Domain {
    if d in domains then domains[d].(lastQueriedAt := Greatest(domains[d].lastQueriedAt, t))
    else Domain(Unmeasured, now, None, Some(t), 0, None)
  }

  /** Not backing off, and not measured since the miss. */
  predicate DueRow(row: Domain, t: Time, now: Time) {
    && (row.retryAfter.None? || row.retryAfter.value <= now)
    && (row.measuredAt.None? || row.measuredAt.value < t)
  }

  function WriteHits(domains: map<Name, Domain>, b: Aggregated): map<Name, Domain> {
    map d | d in domains :: if d in b.hits then HitRow(domains[d], b.hits[d]) else domains[d]
  }

  function WriteMisses(domains: map<Name, Domain>, b: Aggregated, now: Time): map<Name, Domain> {
    map d | d in domains.Keys + b.misses.Keys ::
      if d in b.misses then MissRow(domains, d, b.misses[d], now) else domains[d]
  }

  function DueNames(domains: map<Name, Domain>, b: Aggregated, now: Time): set<Name> {
    set d | d in b.misses && (d !in domains || DueRow(domains[d], b.misses[d], now))
  }

  /** Hits first, then misses, then the queue. */
  function Written(db: Db, b: Aggregated, now: Time): Db {
    var domains := WriteHits(db.domains, b);
    db.(domains := WriteMisses(domains, b, now),
        queue := Enqueued(db.queue, DueNames(domains, b, now), Miss, now))
  }

  /** write_batch: returns the names that were queued or revived. */
  method WriteBatch(store: Store, batch: Batch, now: Time) returns (queued: set<Name>)
    modifies store
    ensures store.db == Written(old(store.db), batch.View(), now)
    ensures queued == set d | d in DueNames(WriteHits(old(store.db).domains, batch.View()), batch.View(), now) &&
                              Accepts(old(store.db).queue, d, now)
  {
    ghost var spec := Written(store.db, batch.View(), now);
    if batch.hits != map[] {
      store.db := store.db.(domains := map d | d in store.db.domains ::
        if d in batch.hits then HitRow(store.db.domains[d], batch.hits[d]) else store.db.domains[d]);
    }
    ghost var hit := WriteHits(old(store.db).domains, batch.View());
    assert store.db.domains == hit;
    if batch.misses == map[] {
      assert spec.domains == hit;
      assert spec.queue == store.db.queue;
      return {};
    }
    var due := DueNames(store.db.domains, batch.View(), now);
    var domains := map d | d in store.db.domains.Keys + batch.misses.Keys ::
      if d in batch.misses then MissRow(store.db.domains, d, batch.misses[d], now) else store.db.domains[d];
    queued := set d | d in due && Accepts(store.db.queue, d, now);
    store.db := store.db.(domains := domains, queue := Enqueued(store.db.queue, due, Miss, now));
  }

  /** A sequence of batches, flushed one after another. */
  function WriteAll(db: Db, batches: seq<seq<QueryEvent>>, now: Time): Db {
    if batches == [] then db
    else Written(WriteAll(db, batches[..|batches| - 1], now), Aggregate(batches[|batches| - 1]), now)
  }

  function Concat(batches: seq<seq<QueryEvent>>): seq<QueryEvent> {
    if batches == [] then [] else Concat(batches[..|batches| - 1]) + batches[|batches| - 1]
  }

  // ----- what the events mean one by one -----

  ghost function HitsOf(es: seq<QueryEvent>, d: Name): nat {
    if es == [] then 0
    else HitsOf(es[..|es| - 1], d) + (if es[|es| - 1].kind.Hit? && es[|es| - 1].name == d then 1 else 0)
  }

  ghost function LastSeen(column: Option<Time>, es: seq<QueryEvent>, d: Name): Option<Time> {
    if es == [] then column
    else
      var before := LastSeen(column, es[..|es| - 1], d);
      if es[|es| - 1].name == d then Greatest(before, es[|es| - 1].time) else before
  }

  ghost predicate Missed(es: seq<QueryEvent>, d: Name) {
    exists i :: 0 <= i < |es| && es[i].kind.NoHit? && es[i].name == d
  }

  /** Some miss of d falls due, judged by the row d had before. */
  ghost predicate FallsDue(domains: map<Name, Domain>, es: seq<QueryEvent>, d: Name, now: Time) {
    exists i :: 0 <= i < |es| && es[i].kind.NoHit? && es[i].name == d &&
                (d !in domains || DueRow(domains[d], es[i].time, now))
  }

  ghost predicate Timed(es: seq<QueryEvent>) {
    forall i :: 0 <= i < |es| ==> es[i].time >= 0
  }

  /** What es does to the row of d: known names are counted and dated, missed names are added as pending. */
  ghost predicate RowEffect(
    domains: map<Name, Domain>, es: seq<QueryEvent>, now: Time, domains': map<Name, Domain>, d: Name)
  {
    && (d in domains' <==> d in domains || Missed(es, d))
    && (d in domains ==>
          domains'[d] == domains[d].(hitCount := domains[d].hitCount + HitsOf(es, d),
                                     lastQueriedAt := LastSeen(domains[d].lastQueriedAt, es, d)))
    && (d in domains' && d !in domains ==>
          domains'[d].(hitCount := 0, lastQueriedAt := None) == Domain(Unmeasured, now, None, None, 0, None))
  }

  /** The effect of a stretch of events on the whole database, whatever the batching. */
  ghost predicate Effect(db: Db, es: seq<QueryEvent>, now: Time, db': Db) {
    && db' == db.(domains := db'.domains, queue := db'.queue)
    && (forall d :: RowEffect(db.domains, es, now, db'.domains, d))
    && (forall d :: Get(db'.queue, d) ==
          if FallsDue(db.domains, es, d, now) && Accepts(db.queue, d, now) then Some(FreshRow(Miss, now))
          else Get(db.queue, d))
  }

  // ----- aggregation loses nothing that is used -----

  lemma {:induction false} AggregateHits(es: seq<QueryEvent>, d: Name)
    requires Timed(es)
    ensures var b := Aggregate(es);
            && (d in b.hits ==> b.hits[d].0 == HitsOf(es, d) && b.hits[d].1 >= 0)
            && (d !in b.hits ==> HitsOf(es, d) == 0)
            && (d in b.misses ==> b.misses[d] >= 0)
            && (d in b.misses <==> Missed(es, d))
  {
    if es != [] {
      var n := |es| - 1;
      assert es == es[..n] + [es[n]];
      AggregateHits(es[..n], d);
      if Missed(es, d) && !(es[n].kind.NoHit? && es[n].name == d) {
        var i :| 0 <= i < |es| && es[i].kind.NoHit? && es[i].name == d;
        assert es[..n][i] == es[i];
      }
      if Missed(es[..n], d) {
        var i :| 0 <= i < n && es[..n][i].kind.NoHit? && es[..n][i].name == d;
        assert es[i] == es[..n][i];
      }
    }
  }

  /** The time a batch writes: the last hit, then the last miss. */
  ghost function BatchSeen(column: Option<Time>, b: Aggregated, d: Name): Option<Time> {
    var c := if d in b.hits then Greatest(column, b.hits[d].1) else column;
    if d in b.misses then Greatest(c, b.misses[d]) else c
  }

  lemma SeenAdds(b: Aggregated, e: QueryEvent, d: Name, column: Option<Time>)
    requires e.time >= 0
    requires d in b.hits ==> b.hits[d].1 >= 0
    requires d in b.misses ==> b.misses[d] >= 0
    ensures BatchSeen(column, Added(b, e), d) ==
            if e.name == d then Greatest(BatchSeen(column, b, d), e.time) else BatchSeen(column, b, d)
  {
  }

  lemma {:induction false} AggregateSeen(es: seq<QueryEvent>, d: Name, column: Option<Time>)
    requires Timed(es)
    ensures LastSeen(column, es, d) == BatchSeen(column, Aggregate(es), d)
  {
    if es != [] {
      var n := |es| - 1;
      assert Timed(es[..n]);
      AggregateSeen(es[..n], d, column);
      AggregateHits(es[..n], d);
      SeenAdds(Aggregate(es[..n]), es[n], d, column);
    }
  }

  /** The last miss falls due exactly when some miss does. */
  lemma {:induction false} AggregateDue(domains: map<Name, Domain>, es: seq<QueryEvent>, d: Name, now: Time)
    requires Timed(es)
    ensures FallsDue(domains, es, d, now) <==>
            var b := Aggregate(es); d in b.misses && (d !in domains || DueRow(domains[d], b.misses[d], now))
  {
    if es != [] {
      var n := |es| - 1;
      assert Timed(es[..n]);
      AggregateDue(domains, es[..n], d, now);
      AggregateHits(es[..n], d);
      FallsDueSplit(domains, es[..n], [es[n]], d, now);
      assert es == es[..n] + [es[n]];
      assert FallsDue(domains, [es[n]], d, now) <==>
             es[n].kind.NoHit? && es[n].name == d && (d !in domains || DueRow(domains[d], es[n].time, now)) by {
        assert [es[n]][0] == es[n];
      }
    }
  }

  lemma FallsDueSplit(domains: map<Name, Domain>, es: seq<QueryEvent>, fs: seq<QueryEvent>, d: Name, now: Time)
    ensures FallsDue(domains, es + fs, d, now) <==> FallsDue(domains, es, d, now) || FallsDue(domains, fs, d, now)
    ensures Missed(es + fs, d) <==> Missed(es, d) || Missed(fs, d)
  {
    var all := es + fs;
    forall i | 0 <= i < |es| ensures all[i] == es[i] {}
    forall i | 0 <= i < |fs| ensures all[|es| + i] == fs[i] {}
    if FallsDue(domains, fs, d, now) {
      var i :| 0 <= i < |fs| && fs[i].kind.NoHit? && fs[i].name == d &&
          (d !in domains || DueRow(domains[d], fs[i].time, now));
      assert all[|es| + i] == fs[i];
    }
    if Missed(fs, d) {
      var i :| 0 <= i < |fs| && fs[i].kind.NoHit? && fs[i].name == d;
      assert all[|es| + i] == fs[i];
    }
  }

  lemma BatchRow(domains: map<Name, Domain>, es: seq<QueryEvent>, now: Time, d: Name)
    requires Timed(es)
    ensures RowEffect(domains, es, now, WriteMisses(WriteHits(domains, Aggregate(es)), Aggregate(es), now), d)
  {
    AggregateHits(es, d);
    if d in domains {
      AggregateSeen(es, d, domains[d].lastQueriedAt);
    }
  }

  lemma BatchEffect(db: Db, es: seq<QueryEvent>, now: Time)
    requires Timed(es)
    ensures Effect(db, es, now, Written(db, Aggregate(es), now))
  {
    var b := Aggregate(es);
    var db' := Written(db, b, now);
    forall d
      ensures RowEffect(db.domains, es, now, db'.domains, d)
    {
      BatchRow(db.domains, es, now, d);
    }
    forall d
      ensures Get(db'.queue, d) ==
              if FallsDue(db.domains, es, d, now) && Accepts(db.queue, d, now) then Some(FreshRow(Miss, now))
              else Get(db.queue, d)
    {
      AggregateDue(db.domains, es, d, now);
      var written := WriteHits(db.domains, b);
      assert d in DueNames(written, b, now) <==> FallsDue(db.domains, es, d, now);
    }
  }

  // ----- effects compose -----

  lemma {:induction false} CountSplit(es: seq<QueryEvent>, fs: seq<QueryEvent>, d: Name, column: Option<Time>)
    ensures HitsOf(es + fs, d) == HitsOf(es, d) + HitsOf(fs, d)
    ensures LastSeen(column, es + fs, d) == LastSeen(LastSeen(column, es, d), fs, d)
    decreases |fs|
  {
    if fs == [] {
      assert es + fs == es;
    } else {
      var n := |fs| - 1;
      CountSplit(es, fs[..n], d, column);
      assert (es + fs)[..|es + fs| - 1] == es + fs[..n];
    }
  }

  lemma RowsCompose(
    domains: map<Name, Domain>, es: seq<QueryEvent>, mid: map<Name, Domain>, fs: seq<QueryEvent>,
    domains': map<Name, Domain>, now: Time, d: Name)
    requires RowEffect(domains, es, now, mid, d) && RowEffect(mid, fs, now, domains', d)
    ensures RowEffect(domains, es + fs, now, domains', d)
    ensures FallsDue(domains, es + fs, d, now) <==> FallsDue(domains, es, d, now) || FallsDue(mid, fs, d, now)
  {
    FallsDueSplit(domains, es, fs, d, now);
    if d in domains {
      CountSplit(es, fs, d, domains[d].lastQueriedAt);
      assert forall t :: DueRow(mid[d], t, now) == DueRow(domains[d], t, now);
    } else if d in mid {
      assert forall t :: DueRow(mid[d], t, now);
    }
    assert FallsDue(mid, fs, d, now) <==> FallsDue(domains, fs, d, now);
  }

  lemma EffectsCompose(db: Db, es: seq<QueryEvent>, mid: Db, fs: seq<QueryEvent>, db': Db, now: Time)
    requires Effect(db, es, now, mid) && Effect(mid, fs, now, db')
    ensures Effect(db, es + fs, now, db')
  {
    forall d
      ensures RowEffect(db.domains, es + fs, now, db'.domains, d)
      ensures Get(db'.queue, d) ==
              if FallsDue(db.domains, es + fs, d, now) && Accepts(db.queue, d, now) then Some(FreshRow(Miss, now))
              else Get(db.queue, d)
    {
      assert RowEffect(db.domains, es, now, mid.domains, d) && RowEffect(mid.domains, fs, now, db'.domains, d);
      RowsCompose(db.domains, es, mid.domains, fs, db'.domains, now, d);
      assert Get(mid.queue, d) == Get(db.queue, d) ==> (Accepts(mid.queue, d, now) <==> Accepts(db.queue, d, now));
    }
  }

  /** Whatever the split into batches, the database ends as the events, in order, say. */
  lemma {:induction false} BatchesHaveEffect(db: Db, batches: seq<seq<QueryEvent>>, now: Time)
    requires forall i :: 0 <= i < |batches| ==> Timed(batches[i])
    ensures Effect(db, Concat(batches), now, WriteAll(db, batches, now))
  {
    if batches != [] {
      var n := |batches| - 1;
      BatchesHaveEffect(db, batches[..n], now);
      var mid := WriteAll(db, batches[..n], now);
      BatchEffect(mid, batches[n], now);
      EffectsCompose(db, Concat(batches[..n]), mid, batches[n], WriteAll(db, batches, now), now);
    }
  }

  /**
   * Batching is transparent: two splits of the same events leave the same queue, the same names and,
   * for every name known beforehand, the same row; a name added on the way differs at most in its
   * hit count and last query time.
   */
  lemma BatchingIsTransparent(db: Db, xs: seq<seq<QueryEvent>>, ys: seq<seq<QueryEvent>>, now: Time)
    requires forall i :: 0 <= i < |xs| ==> Timed(xs[i])
    requires forall i :: 0 <= i < |ys| ==> Timed(ys[i])
    requires Concat(xs) == Concat(ys)
    ensures var x, y := WriteAll(db, xs, now), WriteAll(db, ys, now);
            && x.queue == y.queue
            && x.domains.Keys == y.domains.Keys
            && (forall d :: SameRow(db, x, y, d))
            && x == y.(domains := x.domains)
  {
    BatchesHaveEffect(db, xs, now);
    BatchesHaveEffect(db, ys, now);
    OutcomesAgree(db, Concat(xs), now, WriteAll(db, xs, now), WriteAll(db, ys, now));
  }

  /** What two outcomes share about one name. */
  ghost predicate SameRow(db: Db, x: Db, y: Db, d: Name) {
    && (d in x.domains <==> d in y.domains)
    && (d in db.domains ==> d in x.domains && x.domains[d] == y.domains[d])
    && (d in x.domains ==>
          x.domains[d].(hitCount := 0, lastQueriedAt := None) == y.domains[d].(hitCount := 0, lastQueriedAt := None))
    && Get(x.queue, d) == Get(y.queue, d)
  }

  lemma EffectsAgree(db: Db, es: seq<QueryEvent>, now: Time, x: Db, y: Db, d: Name)
    requires Effect(db, es, now, x) && Effect(db, es, now, y)
    ensures SameRow(db, x, y, d)
  {
    assert RowEffect(db.domains, es, now, x.domains, d);
    assert RowEffect(db.domains, es, now, y.domains, d);
  }

  lemma OutcomesAgree(db: Db, es: seq<QueryEvent>, now: Time, x: Db, y: Db)
    requires Effect(db, es, now, x) && Effect(db, es, now, y)
    ensures x.queue == y.queue && x.domains.Keys == y.domains.Keys && x == y.(domains := x.domains)
    ensures forall d :: SameRow(db, x, y, d)
  {
    forall d
      ensures SameRow(db, x, y, d)
      ensures d in x.queue <==> d in y.queue
      ensures d in x.queue ==> x.queue[d] == y.queue[d]
    {
      EffectsAgree(db, es, now, x, y, d);
    }
    forall d
      ensures d in x.domains <==> d in y.domains
    {
      assert SameRow(db, x, y, d);
    }
  }

  // ----- the effect of batches, on the columns -----

  /** `last` is the latest of the column's old value and the times of the events of d. */
  ghost predicate IsLast(last: Option<Time>, column: Option<Time>, es: seq<QueryEvent>, d: Name) {
    && (last == None <==> column == None && forall e :: e in es ==> e.name != d)
    && (last.Some? ==>
          && (last == column || exists e :: e in es && e.name == d && e.time == last.value)
          && (column.Some? ==> column.value <= last.value)
          && (forall e :: e in es && e.name == d ==> e.time <= last.value))
  }

  lemma {:induction false} LastSeenIsLast(column: Option<Time>, es: seq<QueryEvent>, d: Name)
    ensures IsLast(LastSeen(column, es, d), column, es, d)
  {
    if es != [] {
      var n := |es| - 1;
      LastSeenIsLast(column, es[..n], d);
      assert es == es[..n] + [es[n]];
    }
  }

  /** A miss of d that finds it unknown, or neither backing off nor measured since. */
  ghost predicate CallsFor(db: Db, e: QueryEvent, d: Name, now: Time) {
    && e.kind == NoHit && e.name == d
    && (d in db.domains ==>
          && (db.domains[d].retryAfter.Some? ==> db.domains[d].retryAfter.value <= now)
          && (db.domains[d].measuredAt.Some? ==> db.domains[d].measuredAt.value < e.time))
  }

  /**
   * What a stretch of events does to a known name, whatever the batching: its hits are added up and its
   * last query is the latest one; no other column and no other table changes.
   */
  lemma KnownNameColumns(db: Db, batches: seq<seq<QueryEvent>>, now: Time, d: Name)
    requires forall i :: 0 <= i < |batches| ==> Timed(batches[i])
    requires d in db.domains
    ensures var after := WriteAll(db, batches, now);
            && after == db.(domains := after.domains, queue := after.queue)
            && d in after.domains
            && after.domains[d].hitCount == db.domains[d].hitCount + HitsOf(Concat(batches), d)
            && IsLast(after.domains[d].lastQueriedAt, db.domains[d].lastQueriedAt, Concat(batches), d)
            && after.domains[d].(hitCount := 0, lastQueriedAt := None) ==
                db.domains[d].(hitCount := 0, lastQueriedAt := None)
  {
    BatchesHaveEffect(db, batches, now);
    assert RowEffect(db.domains, Concat(batches), now, WriteAll(db, batches, now).domains, d);
    LastSeenIsLast(db.domains[d].lastQueriedAt, Concat(batches), d);
  }

  /**
   * Batches change the queue row of d exactly when some miss calls for it and it is not queued, or dead
   * past its cooldown; a name backing off, or measured since its misses, is left alone.
   */
  lemma QueuedByMissIff(db: Db, batches: seq<seq<QueryEvent>>, now: Time, d: Name)
    requires forall i :: 0 <= i < |batches| ==> Timed(batches[i])
    ensures var after := WriteAll(db, batches, now);
            && (Get(after.queue, d) != Get(db.queue, d) <==>
                  && (exists e :: e in Concat(batches) && CallsFor(db, e, d, now))
                  && (d in db.queue ==> db.queue[d].state == Dead && db.queue[d].nextAttemptAt <= now))
            && (Get(after.queue, d) != Get(db.queue, d) ==>
                  Get(after.queue, d) == Some(Row(Miss, Pending, now, 0, now, None, None)))
  {
    BatchesHaveEffect(db, batches, now);
    var es := Concat(batches);
    if FallsDue(db.domains, es, d, now) {
      var i :| 0 <= i < |es| && es[i].kind.NoHit? && es[i].name == d &&
               (d !in db.domains || DueRow(db.domains[d], es[i].time, now));
      assert es[i] in es && CallsFor(db, es[i], d, now);
    }
    if e :| e in es && CallsFor(db, e, d, now) {
      var i :| 0 <= i < |es| && es[i] == e;
      assert FallsDue(db.domains, es, d, now);
    }
  }

  /**
   * A name whose misses are all no later than its last measurement, or that is backing off, is left
   * alone by the queue.
   */
  lemma OldMissesNeverEnqueue(db: Db, batches: seq<seq<QueryEvent>>, now: Time, d: Name)
    requires forall i :: 0 <= i < |batches| ==> Timed(batches[i])
    requires d in db.domains
    requires || (db.domains[d].retryAfter.Some? && db.domains[d].retryAfter.value > now)
             || (db.domains[d].measuredAt.Some? && forall e :: e in Concat(batches) && e.kind.NoHit? && e.name == d ==>
                                                     e.time <= db.domains[d].measuredAt.value)
    ensures Get(WriteAll(db, batches, now).queue, d) == Get(db.queue, d)
  {
    QueuedByMissIff(db, batches, now, d);
  }

  // ----- names that were not known beforehand -----

  /** A hit of d comes after a miss of it. */
  ghost predicate HitFollowsMiss(es: seq<QueryEvent>, d: Name) {
    exists i, j :: 0 <= i < j < |es| && es[i] == QueryEvent(NoHit, d, es[i].time) &&
        es[j] == QueryEvent(Hit, d, es[j].time)
  }

  ghost predicate SplitOf(xs: seq<seq<QueryEvent>>, es: seq<QueryEvent>) {
    Concat(xs) == es && forall i :: 0 <= i < |xs| ==> Timed(xs[i])
  }

  ghost function KnownRow(domains: map<Name, Domain>, d: Name): Option<Domain> {
    if d in domains then Some(domains[d]) else None
  }

  /** Every split of es into batches leaves d with the same row. */
  ghost predicate SplitsAgree(db: Db, es: seq<QueryEvent>, now: Time, d: Name) {
    forall xs, ys :: SplitOf(xs, es) && SplitOf(ys, es) ==>
                       KnownRow(WriteAll(db, xs, now).domains, d) == KnownRow(WriteAll(db, ys, now).domains, d)
  }

  /** The time of the last miss of d. */
  ghost function LastMiss(es: seq<QueryEvent>, d: Name): Option<Time> {
    if es == [] then None
    else
      var before := LastMiss(es[..|es| - 1], d);
      if es[|es| - 1].kind.NoHit? && es[|es| - 1].name == d then Greatest(before, es[|es| - 1].time) else before
  }

  lemma {:induction false} LastMissSplit(es: seq<QueryEvent>, fs: seq<QueryEvent>, d: Name)
    ensures LastMiss(es + fs, d) ==
            if LastMiss(fs, d).Some? then Greatest(LastMiss(es, d), LastMiss(fs, d).value) else LastMiss(es, d)
    decreases |fs|
  {
    if fs == [] {
      assert es + fs == es;
    } else {
      var n := |fs| - 1;
      LastMissSplit(es, fs[..n], d);
      assert (es + fs)[..|es + fs| - 1] == es + fs[..n];
    }
  }

  /** What a batch keeps of the misses of a name: their last time. */
  lemma {:induction false} AggregateMisses(es: seq<QueryEvent>, d: Name)
    requires Timed(es)
    ensures var b := Aggregate(es);
            LastMiss(es, d) == (if d in b.misses then Some(b.misses[d]) else None) &&
            (d in b.misses ==> b.misses[d] >= 0)
  {
    if es != [] {
      var n := |es| - 1;
      assert Timed(es[..n]) && es[n].time >= 0;
      AggregateMisses(es[..n], d);
    }
  }

  /** The row of a new name no hit of which comes after a miss: nothing counted, dated by its last miss. */
  ghost function NewRow(es: seq<QueryEvent>, d: Name, now: Time): Option<Domain> {
    var seen := LastMiss(es, d);
    if seen.Some? then Some(Domain(Unmeasured, now, None, seen, 0, None)) else None
  }

  lemma {:induction false} NewNameRow(db: Db, batches: seq<seq<QueryEvent>>, now: Time, d: Name)
    requires forall i :: 0 <= i < |batches| ==> Timed(batches[i])
    requires d !in db.domains && !HitFollowsMiss(Concat(batches), d)
    ensures KnownRow(WriteAll(db, batches, now).domains, d) == NewRow(Concat(batches), d, now)
  {
    if batches != [] {
      var n := |batches| - 1;
      var before, last := Concat(batches[..n]), batches[n];
      assert forall i :: 0 <= i < |before| ==> Concat(batches)[i] == before[i];
      assert forall i :: 0 <= i < |last| ==> Concat(batches)[|before| + i] == last[i];
      NewNameRow(db, batches[..n], now, d);
      LastMissSplit(before, last, d);
      AggregateMisses(last, d);
      AggregateHits(last, d);
      if LastMiss(before, d).Some? {
        NoHitsAfter(before, last, d);
      }
    }
  }

  /** Behind a miss of d there is no hit of it. */
  lemma NoHitsAfter(before: seq<QueryEvent>, last: seq<QueryEvent>, d: Name)
    requires LastMiss(before, d).Some? && !HitFollowsMiss(before + last, d)
    ensures HitsOf(last, d) == 0 && d !in Aggregate(last).hits
  {
    var i := SomeMiss(before, d);
    forall j | 0 <= j < |last|
      ensures !(last[j].kind.Hit? && last[j].name == d)
    {
      var all := before + last;
      assert all[i] == before[i] && all[|before| + j] == last[j];
    }
    NoHits(last, d);
  }

  lemma {:induction false} SomeMiss(es: seq<QueryEvent>, d: Name) returns (i: nat)
    requires LastMiss(es, d).Some?
    ensures i < |es| && es[i].kind.NoHit? && es[i].name == d
  {
    var n := |es| - 1;
    if es[n].kind.NoHit? && es[n].name == d {
      i := n;
    } else {
      i := SomeMiss(es[..n], d);
    }
  }

  lemma {:induction false} NoHits(es: seq<QueryEvent>, d: Name)
    requires forall j :: 0 <= j < |es| ==> !(es[j].kind.Hit? && es[j].name == d)
    ensures HitsOf(es, d) == 0 && d !in Aggregate(es).hits
  {
    if es != [] {
      NoHits(es[..|es| - 1], d);
    }
  }

  lemma {:induction false} SomeHits(es: seq<QueryEvent>, d: Name, j: nat)
    requires j < |es| && es[j].kind.Hit? && es[j].name == d
    ensures HitsOf(es, d) >= 1
    decreases |es|
  {
    if j < |es| - 1 {
      SomeHits(es[..|es| - 1], d, j);
    }
  }

  /** One batch drops the hits of a new name. */
  lemma HitsDroppedTogether(db: Db, es: seq<QueryEvent>, now: Time, d: Name, i: nat)
    requires Timed(es) && d !in db.domains
    requires i < |es| && es[i].kind.NoHit? && es[i].name == d
    ensures var row := KnownRow(Written(db, Aggregate(es), now).domains, d); row.Some? && row.value.hitCount == 0
  {
    AggregateHits(es, d);
  }

  /** A batch counts the hits of a known name. */
  lemma HitsCounted(db: Db, es: seq<QueryEvent>, now: Time, d: Name)
    requires Timed(es) && d in db.domains
    requires es != [] && es[0].kind.Hit? && es[0].name == d
    ensures var row := KnownRow(Written(db, Aggregate(es), now).domains, d);
            row.Some? && row.value.hitCount > db.domains[d].hitCount
  {
    BatchRow(db.domains, es, now, d);
    SomeHits(es, d, 0);
  }

  /** Flushing between a miss and a later hit counts the hit. */
  lemma HitsCountedApart(db: Db, es: seq<QueryEvent>, now: Time, d: Name, i: nat, j: nat)
    requires Timed(es) && d !in db.domains
    requires i < j < |es| && es[i].kind.NoHit? && es[j].kind.Hit? && es[i].name == d && es[j].name == d
    ensures KnownRow(Written(db, Aggregate(es), now).domains, d) !=
            KnownRow(Written(Written(db, Aggregate(es[..j]), now), Aggregate(es[j..]), now).domains, d)
  {
    var pre, post := es[..j], es[j..];
    HitsDroppedTogether(db, es, now, d, i);
    assert pre[i] == es[i];
    HitsDroppedTogether(db, pre, now, d, i);
    HitsCounted(Written(db, Aggregate(pre), now), post, now, d);
  }

  lemma OneBatch(db: Db, es: seq<QueryEvent>, now: Time) returns (xs: seq<seq<QueryEvent>>)
    requires Timed(es)
    ensures SplitOf(xs, es) && WriteAll(db, xs, now) == Written(db, Aggregate(es), now)
  {
    var none: seq<seq<QueryEvent>> := [];
    xs := [es];
    assert xs[..0] == none;
  }

  lemma TwoBatches(db: Db, es: seq<QueryEvent>, now: Time, j: nat) returns (xs: seq<seq<QueryEvent>>)
    requires Timed(es) && j <= |es|
    ensures SplitOf(xs, es)
    ensures WriteAll(db, xs, now) == Written(Written(db, Aggregate(es[..j]), now), Aggregate(es[j..]), now)
  {
    var first := OneBatch(db, es[..j], now);
    xs := first + [es[j..]];
    assert xs[..|first|] == first;
    assert Concat(xs) == es[..j] + es[j..] == es;
  }

  /**
   * For a name not known beforehand batching is transparent exactly when no hit of it comes after a
   * miss: a batch writes its hits before its misses, so hits on a name the batch itself adds are lost.
   */
  lemma NewNamesAgreeIff(db: Db, es: seq<QueryEvent>, now: Time, d: Name)
    requires Timed(es) && d !in db.domains
    ensures SplitsAgree(db, es, now, d) <==> !HitFollowsMiss(es, d)
  {
    if HitFollowsMiss(es, d) {
      var i, j :| 0 <= i < j < |es| && es[i] == QueryEvent(NoHit, d, es[i].time) &&
          es[j] == QueryEvent(Hit, d, es[j].time);
      HitsCountedApart(db, es, now, d, i, j);
      var xs := OneBatch(db, es, now);
      var ys := TwoBatches(db, es, now, j);
    } else {
      forall xs, ys | SplitOf(xs, es) && SplitOf(ys, es)
        ensures KnownRow(WriteAll(db, xs, now).domains, d) == KnownRow(WriteAll(db, ys, now).domains, d)
      {
        NewNameRow(db, xs, now, d);
        NewNameRow(db, ys, now, d);
      }
    }
  }
}
