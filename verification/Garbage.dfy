/** Garbage collection (services/src/cadns/monitor/tasks.py, collect_garbage). */
module Garbage {
  import opened Common
  import opened Queue
  import opened Database
  import opened AnswerPolicy

  datatype Retention = Retention(domainDays: nat, endpointDays: nat, carbonDays: nat, batchSize: nat)

  datatype GcResult = GcResult(domains: nat, endpoints: nat, signals: nat, deadJobs: nat)

  // ----- the four DELETE statements -----

  /** coalesce(last_queried_at, first_seen_at). */
  function LastActive(d: Domain): Time {
    if d.lastQueriedAt.Some? then d.lastQueriedAt.value else d.firstSeenAt
  }

  function IdleDomains(db: Db, cutoff: Time): set<Name> {
    set d | d in db.domains && LastActive(db.domains[d]) < cutoff
  }

  /** ON DELETE CASCADE takes the records of a deleted domain along. */
  function DropDomains(db: Db, ds: set<Name>): Db {
    db.(domains := db.domains - ds, records := map k | k in db.records && k.domain !in ds :: db.records[k])
  }

  /** Dead jobs of names that are no longer known. */
  function DeadJobs(db: Db, cutoff: Time): set<Name> {
    set d | d in db.queue && db.queue[d].state.Dead? && db.queue[d].enqueuedAt < cutoff && d !in db.domains
  }

  function DropJobs(db: Db, ds: set<Name>): Db {
    db.(queue := db.queue - ds)
  }

  predicate Referenced(db: Db, a: Address) {
    exists k :: k in db.records && k.address == a
  }

  function Orphans(db: Db, cutoff: Time): set<Address> {
    set a | a in db.endpoints && !Referenced(db, a) &&
            (db.endpoints[a].geoUpdatedAt.None? || db.endpoints[a].geoUpdatedAt.value < cutoff)
  }

  function DropEndpoints(db: Db, es: set<Address>): Db {
    db.(endpoints := db.endpoints - es)
  }

  /** point_time < (SELECT max(point_time) ... of the region): a newer point exists. */
  predicate Superseded(signals: map<SignalKey, real>, k: SignalKey) {
    exists l :: l in signals && l.region == k.region && l.pointTime > k.pointTime
  }

  function OldSignals(db: Db, cutoff: Time): set<SignalKey> {
    set k | k in db.signals && k.pointTime < cutoff && Superseded(db.signals, k)
  }

  function DropSignals(db: Db, ks: set<SignalKey>): Db {
    db.(signals := db.signals - ks)
  }

  // ----- batches -----

  /**
   * A WHERE clause that batches cannot disturb: deleting some matching rows leaves exactly the other
   * matching rows matching, and deleting in two steps is deleting once.
   */
  ghost predicate Separable<K(!new)>(matching: Db -> set<K>, drop: (Db, set<K>) -> Db) {
    && (forall db, ks {:trigger drop(db, ks)} :: ks <= matching(db) ==> matching(drop(db, ks)) == matching(db) - ks)
    && (forall db, ks, ls {:trigger drop(drop(db, ks), ls)} :: drop(drop(db, ks), ls) == drop(db, ks + ls))
    && (forall db :: drop(db, {}) == db)
  }

  lemma {:induction false} SubsetOfSize<K>(s: set<K>, n: nat) returns (sub: set<K>)
    requires n <= |s|
    ensures sub <= s && |sub| == n
  {
    if n == 0 {
      sub := {};
    } else {
      var x :| x in s;
      var rest := SubsetOfSize(s - {x}, n - 1);
      sub := rest + {x};
    }
  }

  /**
   * _delete_in_batches: whichever rows each LIMIT picks, the loop ends and deletes exactly what one
   * unlimited DELETE would.
   */
  method DeleteInBatches<K(!new, ==)>(store: Store, matching: Db -> set<K>, drop: (Db, set<K>) -> Db, limit: nat)
    returns (total: nat)
    requires limit >= 1
    requires Separable(matching, drop)
    modifies store
    ensures store.db == drop(old(store.db), matching(old(store.db)))
    ensures total == |matching(old(store.db))|
  {
    total := 0;
    ghost var start, gone: set<K> := store.db, {};
    while true
      invariant gone <= matching(start)
      invariant store.db == drop(start, gone)
      invariant matching(store.db) == matching(start) - gone
      invariant total == |gone|
      decreases |matching(store.db)|
    {
      ghost var before := matching(store.db);
      ghost var some := SubsetOfSize(before, Min(limit, |before|));
      var batch: set<K> :| batch <= matching(store.db) && |batch| == Min(limit, |matching(store.db)|);
      BatchSizes(before, batch, gone, matching(start));
      store.db := drop(store.db, batch);
      gone := gone + batch;
      total := total + |batch|;
      if |batch| < limit {
        EqualSize(batch, before);
        assert gone == matching(start);
        return;
      }
    }
  }

  lemma {:induction false} RemovedSize<K, V>(m: map<K, V>, s: set<K>)
    requires s <= m.Keys
    ensures |m - s| + |s| == |m|
  {
    assert m.Keys == (m - s).Keys + s;
    assert |m - s| == |(m - s).Keys| && |m| == |m.Keys|;
  }

  lemma BatchSizes<K>(before: set<K>, batch: set<K>, gone: set<K>, all: set<K>)
    requires gone <= all && before == all - gone && batch <= before
    ensures |gone + batch| == |gone| + |batch|
    ensures |before - batch| == |before| - |batch|
    ensures before - batch == all - (gone + batch) && gone + batch <= all
  {
  }

  // ----- collect_garbage -----

  function Cutoff(now: Time, days: nat): Time {
    now - days * DAY
  }

  function AfterDomains(db: Db, now: Time, p: Retention): Db {
    DropDomains(db, IdleDomains(db, Cutoff(now, p.domainDays)))
  }

  function AfterJobs(db: Db, now: Time, p: Retention): Db {
    var db1 := AfterDomains(db, now, p);
    DropJobs(db1, DeadJobs(db1, Cutoff(now, p.domainDays)))
  }

  function AfterEndpoints(db: Db, now: Time, p: Retention): Db {
    var db2 := AfterJobs(db, now, p);
    DropEndpoints(db2, Orphans(db2, Cutoff(now, p.endpointDays)))
  }

  /** The four unlimited deletes, one after another. */
  function Collected(db: Db, now: Time, p: Retention): Db {
    var db3 := AfterEndpoints(db, now, p);
    if p.carbonDays > 0 then DropSignals(db3, OldSignals(db3, Cutoff(now, p.carbonDays))) else db3
  }

  lemma DomainsSeparable(cutoff: Time)
    ensures Separable((db: Db) => IdleDomains(db, cutoff), DropDomains)
  {
  }

  lemma JobsSeparable(cutoff: Time)
    ensures Separable((db: Db) => DeadJobs(db, cutoff), DropJobs)
  {
  }

  lemma EndpointsSeparable(cutoff: Time)
    ensures Separable((db: Db) => Orphans(db, cutoff), DropEndpoints)
  {
  }

  /** A superseded point stays superseded while the region's newest point stays, and it does. */
  lemma NewestSupersedes(signals: map<SignalKey, real>, k: SignalKey) returns (newest: SignalKey)
    requires k in signals && Superseded(signals, k)
    ensures newest in signals && newest.region == k.region && newest.pointTime > k.pointTime
    ensures !Superseded(signals, newest)
  {
    var times := set l | l in signals && l.region == k.region :: l.pointTime;
    assert forall l :: l in signals && l.region == k.region ==> l.pointTime in times;
    assert k.pointTime in times;
    newest := SignalKey(k.region, MaxOf(times));
    var l :| l in signals && l.region == k.region && l.pointTime > k.pointTime;
  }

  lemma OldSignalsAfter(db: Db, cutoff: Time, ks: set<SignalKey>)
    requires ks <= OldSignals(db, cutoff)
    ensures OldSignals(DropSignals(db, ks), cutoff) == OldSignals(db, cutoff) - ks
  {
    forall k | k in db.signals && k !in ks
      ensures Superseded(db.signals, k) <==> Superseded(db.signals - ks, k)
    {
      if Superseded(db.signals, k) {
        var newest := NewestSupersedes(db.signals, k);
        assert newest in db.signals - ks;
      }
    }
  }

  lemma SignalsSeparable(cutoff: Time)
    ensures Separable((db: Db) => OldSignals(db, cutoff), DropSignals)
  {
    forall db: Db, ks: set<SignalKey> | ks <= OldSignals(db, cutoff)
      ensures OldSignals(DropSignals(db, ks), cutoff) == OldSignals(db, cutoff) - ks
    {
      OldSignalsAfter(db, cutoff, ks);
    }
    forall db: Db, ks: set<SignalKey>, ls: set<SignalKey>
      ensures DropSignals(DropSignals(db, ks), ls) == DropSignals(db, ks + ls)
    {
      assert db.signals - ks - ls == db.signals - (ks + ls);
    }
    forall db: Db
      ensures DropSignals(db, {}) == db
    {
      DropNothing(db);
    }
  }

  /** Rows are conserved, table by table: those left and those matched make up the table. */
  lemma DomainsConserved(db: Db, now: Time, p: Retention)
    ensures |Collected(db, now, p).domains| + |IdleDomains(db, Cutoff(now, p.domainDays))| == |db.domains|
  {
    CollectedTables(db, now, p);
    RemovedSize(db.domains, IdleDomains(db, Cutoff(now, p.domainDays)));
  }

  lemma JobsConserved(db: Db, now: Time, p: Retention)
    ensures |Collected(db, now, p).queue| + |DeadJobs(AfterDomains(db, now, p), Cutoff(now, p.domainDays))| ==
        |db.queue|
  {
    CollectedTables(db, now, p);
    RemovedSize(db.queue, DeadJobs(AfterDomains(db, now, p), Cutoff(now, p.domainDays)));
  }

  lemma EndpointsConserved(db: Db, now: Time, p: Retention)
    ensures |Collected(db, now, p).endpoints| + |Orphans(AfterJobs(db, now, p), Cutoff(now, p.endpointDays))| ==
            |db.endpoints|
  {
    CollectedTables(db, now, p);
    RemovedSize(db.endpoints, Orphans(AfterJobs(db, now, p), Cutoff(now, p.endpointDays)));
  }

  lemma SignalsConserved(db: Db, now: Time, p: Retention)
    ensures p.carbonDays == 0 ==> |Collected(db, now, p).signals| == |db.signals|
    ensures p.carbonDays > 0 ==>
              |Collected(db, now, p).signals| + |OldSignals(AfterEndpoints(db, now, p), Cutoff(now, p.carbonDays))| ==
              |db.signals|
  {
    assert AfterEndpoints(db, now, p).signals == db.signals;
    RemovedSize(db.signals, OldSignals(AfterEndpoints(db, now, p), Cutoff(now, p.carbonDays)));
  }

  /** collect_garbage: the batched passes together, with the number of rows each removed. */
  method CollectGarbage(store: Store, now: Time, p: Retention) returns (result: GcResult)
    requires p.batchSize >= 1
    modifies store
    ensures store.db == Collected(old(store.db), now, p)
    ensures |store.db.domains| + result.domains == |old(store.db).domains|
    ensures |store.db.queue| + result.deadJobs == |old(store.db).queue|
    ensures |store.db.endpoints| + result.endpoints == |old(store.db).endpoints|
    ensures |store.db.signals| + result.signals == |old(store.db).signals|
  {
    var domainCutoff, endpointCutoff := Cutoff(now, p.domainDays), Cutoff(now, p.endpointDays);
    DomainsSeparable(domainCutoff);
    var domains := DeleteInBatches(store, (db: Db) => IdleDomains(db, domainCutoff), DropDomains, p.batchSize);
    JobsSeparable(domainCutoff);
    var jobs := DeleteInBatches(store, (db: Db) => DeadJobs(db, domainCutoff), DropJobs, p.batchSize);
    EndpointsSeparable(endpointCutoff);
    var endpoints := DeleteInBatches(store, (db: Db) => Orphans(db, endpointCutoff), DropEndpoints, p.batchSize);
    var signals := 0;
    if p.carbonDays > 0 {
      var carbonCutoff := Cutoff(now, p.carbonDays);
      SignalsSeparable(carbonCutoff);
      signals := DeleteInBatches(store, (db: Db) => OldSignals(db, carbonCutoff), DropSignals, p.batchSize);
    }
    result := GcResult(domains, endpoints, signals, jobs);
    DomainsConserved(old(store.db), now, p);
    JobsConserved(old(store.db), now, p);
    EndpointsConserved(old(store.db), now, p);
    SignalsConserved(old(store.db), now, p);
  }

  /** Each delete touches its own table, and the records through the cascade. */
  lemma CollectedTables(db: Db, now: Time, p: Retention)
    ensures var after := Collected(db, now, p);
            && after.settings == db.settings
            && after.domains == AfterDomains(db, now, p).domains
            && after.records == AfterDomains(db, now, p).records
            && after.queue == AfterJobs(db, now, p).queue
            && after.endpoints == AfterEndpoints(db, now, p).endpoints
  {
    var db1, db2, db3 := AfterDomains(db, now, p), AfterJobs(db, now, p), AfterEndpoints(db, now, p);
    assert db2 == db1.(queue := db2.queue);
    assert db3 == db2.(endpoints := db3.endpoints);
    assert Collected(db, now, p) == db3.(signals := Collected(db, now, p).signals);
  }

  lemma NothingLeft(db: Db, now: Time, p: Retention)
    ensures var after := Collected(db, now, p);
            && IdleDomains(after, Cutoff(now, p.domainDays)) == {}
            && DeadJobs(after, Cutoff(now, p.domainDays)) == {}
            && Orphans(after, Cutoff(now, p.endpointDays)) == {}
            && (p.carbonDays > 0 ==> OldSignals(after, Cutoff(now, p.carbonDays)) == {})
  {
  }

  // ----- what a pass removes, on the columns -----

  /** A domain survives exactly when its last query, or its first sight if never queried, is recent enough. */
  lemma CollectedDomains(db: Db, now: Time, p: Retention, d: Name)
    ensures var after := Collected(db, now, p);
            && (d in after.domains <==>
                  && d in db.domains
                  && (match db.domains[d].lastQueriedAt
                      case Some(t) => t
                      case None => db.domains[d].firstSeenAt) >= now - p.domainDays * 86_400_000_000)
            && (d in after.domains ==> after.domains[d] == db.domains[d])
  {
    CollectedTables(db, now, p);
  }

  /** A record goes exactly with its domain. */
  lemma CollectedRecords(db: Db, now: Time, p: Retention, k: RecordKey)
    ensures var after := Collected(db, now, p);
            && (k in after.records <==> k in db.records && (k.domain in db.domains ==> k.domain in after.domains))
            && (k in after.records ==> after.records[k] == db.records[k])
  {
    CollectedTables(db, now, p);
  }

  /** A queue row is deleted exactly when it is dead, enqueued before the cutoff, and its name does not survive. */
  lemma CollectedJobs(db: Db, now: Time, p: Retention, d: Name)
    ensures var after := Collected(db, now, p);
            && (d in after.queue <==>
                  && d in db.queue
                  && !(&& db.queue[d].state == Dead
                       && db.queue[d].enqueuedAt < now - p.domainDays * 86_400_000_000
                       && d !in after.domains))
            && (d in after.queue ==> after.queue[d] == db.queue[d])
  {
    CollectedTables(db, now, p);
  }

  /** An endpoint is deleted exactly when no surviving record names it and its location is missing or old. */
  lemma CollectedEndpoints(db: Db, now: Time, p: Retention, a: Address)
    ensures var after := Collected(db, now, p);
            && (a in after.endpoints <==>
                  && a in db.endpoints
                  && ((exists k :: k in after.records && k.address == a) ||
                      (match db.endpoints[a].geoUpdatedAt
                       case Some(t) => t >= now - p.endpointDays * 86_400_000_000
                       case None => false)))
            && (a in after.endpoints ==> after.endpoints[a] == db.endpoints[a])
  {
    CollectedTables(db, now, p);
    assert AfterJobs(db, now, p).records == Collected(db, now, p).records;
  }

  /**
   * A carbon point is deleted exactly when history is limited, it is before the cutoff, and its
   * region has a later one.
   */
  lemma CollectedSignals(db: Db, now: Time, p: Retention, k: SignalKey)
    ensures var after := Collected(db, now, p);
            && (k in after.signals <==>
                  && k in db.signals
                  && !(&& p.carbonDays > 0
                       && k.pointTime < now - p.carbonDays * 86_400_000_000
                       && exists l :: l in db.signals && l.region == k.region && l.pointTime > k.pointTime))
            && (k in after.signals ==> after.signals[k] == db.signals[k])
  {
    assert AfterEndpoints(db, now, p).signals == db.signals;
  }

  lemma DropNothing(db: Db)
    ensures DropDomains(db, {}) == db
    ensures DropJobs(db, {}) == db
    ensures DropEndpoints(db, {}) == db
    ensures DropSignals(db, {}) == db
  {
    assert db.domains - {} == db.domains;
    assert DropDomains(db, {}).records == db.records;
    assert db.queue - {} == db.queue;
    assert db.endpoints - {} == db.endpoints;
    assert db.signals - {} == db.signals;
  }

  /** A second pass at the same instant changes nothing: each delete leaves nothing for a later pass to match. */
  lemma CollectedIsFixpoint(db: Db, now: Time, p: Retention)
    ensures Collected(Collected(db, now, p), now, p) == Collected(db, now, p)
  {
    var after := Collected(db, now, p);
    NothingLeft(db, now, p);
    DropNothing(after);
    assert AfterDomains(after, now, p) == after;
    assert AfterJobs(after, now, p) == after;
    assert AfterEndpoints(after, now, p) == after;
  }

  // ----- survivors -----

  /** Deleting superseded points does not change what a region's newest point is. */
  lemma LatestKept(db: Db, cutoff: Time, region: Region)
    ensures Latest(DropSignals(db, OldSignals(db, cutoff)).signals, region) == Latest(db.signals, region)
  {
    var before, after := db.signals, DropSignals(db, OldSignals(db, cutoff)).signals;
    var ts := set k | k in before && k.region == region :: k.pointTime;
    var ts' := set k | k in after && k.region == region :: k.pointTime;
    if ts != {} {
      var newest := SignalKey(region, MaxOf(ts));
      assert forall k :: k in before && k.region == region ==> k.pointTime in ts;
      assert newest in before && !Superseded(before, newest);
      assert newest in after && newest.pointTime in ts';
      assert forall t :: t in ts' ==> t in ts;
      assert MaxOf(ts') == MaxOf(ts);
    } else {
      assert ts' == {};
    }
  }

  lemma SurvivorRecords(db: Db, now: Time, p: Retention, d: Name)
    requires d in Collected(db, now, p).domains
    ensures d in db.domains && Collected(db, now, p).domains[d] == db.domains[d]
    ensures RecordsOf(Collected(db, now, p), d) == RecordsOf(db, d)
    ensures Collected(db, now, p).settings == db.settings
  {
    CollectedTables(db, now, p);
    assert d !in IdleDomains(db, Cutoff(now, p.domainDays));
  }

  lemma SurvivorMoer(db: Db, now: Time, p: Retention, d: Name, k: RecordKey)
    requires d in Collected(db, now, p).domains && k in db.records && k.domain == d
    ensures Moer(Collected(db, now, p), k.address) == Moer(db, k.address)
  {
    var db2, db3 := AfterJobs(db, now, p), AfterEndpoints(db, now, p);
    assert k in db2.records && Referenced(db2, k.address);
    assert k.address in db.endpoints ==>
        k.address in db3.endpoints && db3.endpoints[k.address] == db.endpoints[k.address];
    if p.carbonDays > 0 && k.address in db.endpoints && db.endpoints[k.address].region.Some? {
      LatestKept(db3, Cutoff(now, p.carbonDays), db.endpoints[k.address].region.value);
    }
  }

  lemma {:induction false} InsertAgrees(db: Db, db': Db, a: Address, s: seq<Address>)
    requires Moer(db, a) == Moer(db', a) && forall x :: x in s ==> Moer(db, x) == Moer(db', x)
    ensures Insert(db, a, s) == Insert(db', a, s)
    ensures forall x :: x in Insert(db, a, s) ==> x == a || x in s
  {
    if s != [] {
      assert s[0] in s && forall x :: x in s[1..] ==> x in s;
      InsertAgrees(db, db', a, s[1..]);
    }
  }

  lemma {:induction false} RankAgrees(db: Db, db': Db, s: seq<Address>)
    requires forall x :: x in s ==> Moer(db, x) == Moer(db', x)
    ensures Rank(db, s) == Rank(db', s)
    ensures forall x :: x in Rank(db, s) ==> x in s
  {
    if s != [] {
      assert s[0] in s && forall x :: x in s[1..] ==> x in s;
      RankAgrees(db, db', s[1..]);
      InsertAgrees(db, db', s[0], Rank(db, s[1..]));
    }
  }

  /**
   * Garbage collection is invisible to survivors: for every database, a domain it keeps has the same
   * possible answers before and after, at every instant and for every random order.
   */
  lemma SurvivorsAnswerTheSame(db: Db, now: Time, p: Retention, zone: string, record: string, t: Time, sh: Shuffle)
    requires Normalize(zone) in Collected(db, now, p).domains
    ensures var after := Collected(db, now, p);
            && RecordsOf(after, Normalize(zone)) == RecordsOf(db, Normalize(zone))
            && (FindZone(after, zone, t) <==> FindZone(db, zone, t))
            && (IsShuffle(RecordsOf(db, Normalize(zone)), t, sh) ==>
                  Lookup(after, zone, record, t, sh) == Lookup(db, zone, record, t, sh))
  {
    var after, d := Collected(db, now, p), Normalize(zone);
    SurvivorRecords(db, now, p, d);
    var rs := RecordsOf(db, d);
    if IsShuffle(rs, t, sh) {
      forall rt: RType
        ensures Rank(after, sh.For(rt)) == Rank(db, sh.For(rt))
      {
        forall x | x in sh.For(rt)
          ensures Moer(after, x) == Moer(db, x)
        {
          assert x in Candidates(rs, rt, t);
          var k :| k in rs && k.address == x;
          SurvivorMoer(db, now, p, d, k);
        }
        RankAgrees(after, db, sh.For(rt));
      }
      assert Chosen(after, A, sh) == Chosen(db, A, sh);
      assert Chosen(after, AAAA, sh) == Chosen(db, AAAA, sh);
    }
  }
}
