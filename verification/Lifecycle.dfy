/**
 * The serve / measure / refresh / collect lifecycle on one database: every transaction of the
 * services as a step, and what holds over whole histories of them.
 */
module Lifecycle {
  import opened Common
  import opened Queue
  import opened Database
  import opened AnswerPolicy
  import opened AnswerGuarantees
  import opened Resolvers
  import opened Measurement
  import opened Garbage
  import opened Collector

  // ----- the expiry scan -----

  /** FreshnessPolicy, in seconds. */
  datatype Freshness = Freshness(window: nat, lead: nat, minRemeasure: nat)

  ghost predicate Expiring(db: Db, d: Name, now: Time, p: Freshness) {
    && d in db.domains
    && ServedUntil(RecordsOf(db, d)).Some?
    && db.domains[d].lastQueriedAt.Some?
    && db.domains[d].lastQueriedAt.value > now - p.window * SECOND
    && (db.domains[d].retryAfter.None? || db.domains[d].retryAfter.value <= now)
    && (db.domains[d].measuredAt.None? || db.domains[d].measuredAt.value <= now - p.minRemeasure * SECOND)
    && ServedUntil(RecordsOf(db, d)).value < now + p.lead * SECOND
  }

  ghost function ExpiringDomains(db: Db, now: Time, p: Freshness): set<Name> {
    set d | d in db.domains && Expiring(db, d, now, p)
  }

  // ----- steps -----

  datatype Config = Config(resolvers: seq<Address>, backoff: Backoff)

  datatype SysEvent =
    | Measure(name: Name, answers: seq<Answer>, endpoints: seq<NewEndpoint>)
    | Scan(freshness: Freshness)
    | Collect(retention: Retention)
    | Flush(events: seq<QueryEvent>)
    | SaveSignal(key: SignalKey, moer: real)
    | Configure(settings: Settings)
    | QueueStep(event: Event, policy: Policy)  // claim, complete, fail, release

  ghost function StoreOf(db: Db, ev: SysEvent, now: Time, cfg: Config): Option<Db>
    requires ev.Measure?
  {
    var o := Classify(ev.answers, cfg.backoff);
    var es := if o.status.Resolved? then ev.endpoints else [];
    Stored(db, ev.name, o.status, o.retryAfter, es, Records(ev.answers), now)
  }

  /** One transaction; a measurement whose transaction rolls back changes nothing. */
  ghost function Next(db: Db, ev: SysEvent, now: Time, cfg: Config): Db {
    match ev
    case Measure(_, _, _) => if StoreOf(db, ev, now, cfg).Some? then StoreOf(db, ev, now, cfg).value else db
    case Scan(p) => db.(queue := Enqueued(db.queue, ExpiringDomains(db, now, p), Expired, now))
    case Collect(p) => Collected(db, now, p)
    case Flush(es) => Written(db, Aggregate(es), now)
    case SaveSignal(key, moer) => db.(signals := db.signals[key := moer])
    case Configure(settings) => db.(settings := settings)
    case QueueStep(event, policy) => db.(queue := After(db.queue, event, now, policy))
  }

  /** What a transaction is for the queue: one of the queue's own events. */
  ghost function QueueEvent(db: Db, ev: SysEvent, now: Time): Event {
    match ev
    case Scan(f) => Event.Enqueue(ExpiringDomains(db, now, f), Expired)
    case Flush(es) => Event.Enqueue(DueNames(WriteHits(db.domains, Aggregate(es)), Aggregate(es), now), Miss)
    case Collect(r) => Event.Purge(DeadJobs(AfterDomains(db, now, r), Cutoff(now, r.domainDays)))
    case QueueStep(event, _) => event
    case _ => Event.Purge({})
  }

  /** Every transaction changes the queue by its queue event; those that are not queue steps are legal ones. */
  lemma QueueSeesItsEvents(db: Db, ev: SysEvent, now: Time, cfg: Config, p: Policy, handles: multiset<Handle>)
    requires ev.QueueStep? ==> ev.policy == p
    ensures Next(db, ev, now, cfg).queue == After(db.queue, QueueEvent(db, ev, now), now, p)
    ensures !ev.QueueStep? ==>
              Step(World(db.queue, handles), QueueEvent(db, ev, now), now, p,
                  World(Next(db, ev, now, cfg).queue, handles))
  {
    match ev
    case Measure(_, _, _) =>
      if StoreOf(db, ev, now, cfg).Some? {
        var o := Classify(ev.answers, cfg.backoff);
        var es := if o.status.Resolved? then ev.endpoints else [];
        StoredRows(db, ev.name, o.status, o.retryAfter, es, Records(ev.answers), now);
      }
      assert db.queue - {} == db.queue;
    case Collect(r) => CollectedTables(db, now, r);
    case SaveSignal(_, _) => assert db.queue - {} == db.queue;
    case Configure(_) => assert db.queue - {} == db.queue;
    case _ =>
  }

  ghost predicate Legal(ev: SysEvent, cfg: Config) {
    match ev
    case Measure(_, answers, _) => FromPool(answers, cfg.resolvers)
    case Configure(settings) => ValidSettings(settings)
    case _ => true
  }

  /** Event i happened at times[i] and led from dbs[i] to dbs[i + 1]. */
  datatype History = History(dbs: seq<Db>, events: seq<SysEvent>, times: seq<Time>)

  ghost predicate StepAt(h: History, cfg: Config, i: nat)
    requires i < |h.events| == |h.times| && |h.dbs| == |h.events| + 1
  {
    Legal(h.events[i], cfg) && h.dbs[i + 1] == Next(h.dbs[i], h.events[i], h.times[i], cfg)
  }

  ghost predicate ValidHistory(h: History, cfg: Config) {
    && cfg.resolvers != []
    && |h.dbs| == |h.events| + 1
    && |h.times| == |h.events|
    && ValidSettings(h.dbs[0].settings)
    && (forall i :: 0 <= i < |h.events| ==> StepAt(h, cfg, i))
    && (forall i, j :: 0 <= i <= j < |h.times| ==> h.times[i] <= h.times[j])
  }

  lemma {:induction false} SettingsStayValid(h: History, cfg: Config, k: nat)
    requires ValidHistory(h, cfg) && k <= |h.events|
    ensures ValidSettings(h.dbs[k].settings)
  {
    if k > 0 {
      SettingsStayValid(h, cfg, k - 1);
      assert StepAt(h, cfg, k - 1);
      if h.events[k - 1].Collect? {
        CollectedTables(h.dbs[k - 1], h.times[k - 1], h.events[k - 1].retention);
      }
    }
  }

  // ----- what a scan queues, on the columns -----

  /** All records of some stored type of d expire before e. */
  ghost predicate RunsOutBefore(db: Db, d: Name, e: Time) {
    exists k :: k in db.records && k.domain == d &&
                forall l :: l in db.records && l.domain == d && l.rtype == k.rtype ==> db.records[l].expiresAt < e
  }

  lemma RunsOutIff(db: Db, d: Name, e: Time)
    ensures RunsOutBefore(db, d, e) <==>
            ServedUntil(RecordsOf(db, d)).Some? && ServedUntil(RecordsOf(db, d)).value < e
  {
    var rs := RecordsOf(db, d);
    StaleTypeIff(db, d, e);
    ServedUntilIsEarliest(rs, e - 1);
    ServableMeansFresh(rs, e - 1);
  }

  lemma StaleTypeIff(db: Db, d: Name, e: Time)
    ensures var rs := RecordsOf(db, d);
            RunsOutBefore(db, d, e) <==> exists t :: t in Types(rs) && !HasFresh(rs, t, e - 1)
  {
    var rs := RecordsOf(db, d);
    if t :| t in Types(rs) && !HasFresh(rs, t, e - 1) {
      StaleTypeRunsOut(db, d, e, t);
    }
    if RunsOutBefore(db, d, e) {
      var t := RunsOutStaleType(db, d, e);
    }
  }

  lemma RunsOutStaleType(db: Db, d: Name, e: Time) returns (t: RType)
    requires RunsOutBefore(db, d, e)
    ensures var rs := RecordsOf(db, d); t in Types(rs) && !HasFresh(rs, t, e - 1)
  {
    var rs := RecordsOf(db, d);
    var k :| k in db.records && k.domain == d &&
             forall l :: l in db.records && l.domain == d && l.rtype == k.rtype ==> db.records[l].expiresAt < e;
    t := k.rtype;
    assert k in rs;
    forall l | l in rs && l.rtype == t
      ensures rs[l].expiresAt < e
    {
      assert l in db.records && l.domain == d;
    }
  }

  lemma StaleTypeRunsOut(db: Db, d: Name, e: Time, t: RType)
    requires var rs := RecordsOf(db, d); t in Types(rs) && !HasFresh(rs, t, e - 1)
    ensures RunsOutBefore(db, d, e)
  {
    var rs := RecordsOf(db, d);
    var k :| k in rs && k.rtype == t;
    assert k in db.records && k.domain == d;
    forall l | l in db.records && l.domain == d && l.rtype == k.rtype
      ensures db.records[l].expiresAt < e
    {
      assert l in rs && rs[l] == db.records[l];
    }
  }

  /** d is active, not backing off, not measured too recently, and runs out within the lead time. */
  ghost predicate NeedsRefresh(db: Db, d: Name, now: Time, p: Freshness) {
    && d in db.domains
    && var row := db.domains[d];
    && row.lastQueriedAt.Some? && row.lastQueriedAt.value > now - p.window * 1_000_000
    && (row.retryAfter.Some? ==> row.retryAfter.value <= now)
    && (row.measuredAt.Some? ==> row.measuredAt.value <= now - p.minRemeasure * 1_000_000)
    && RunsOutBefore(db, d, now + p.lead * 1_000_000)
  }

  lemma ExpiringIff(db: Db, d: Name, now: Time, p: Freshness)
    ensures Expiring(db, d, now, p) <==> NeedsRefresh(db, d, now, p)
  {
    RunsOutIff(db, d, now + p.lead * SECOND);
  }

  /** What needs a refresh is not served any more at the end of the lead time. */
  lemma RunsOutUnserved(db: Db, zone: string, e: Time)
    requires RunsOutBefore(db, Normalize(zone), e)
    ensures !FindZone(db, zone, e - 1)
  {
    RunsOutIff(db, Normalize(zone), e);
    FreshnessFormsAgree(db, zone, e - 1);
  }

  /**
   * A scan changes the queue row of d exactly when d needs a refresh and is not queued, or dead past its
   * cooldown; the new row is due at once. What it queues would not be served at the end of the lead time.
   */
  lemma ScanQueuesIff(h: History, cfg: Config, i: nat, p: Freshness, d: Name)
    requires ValidHistory(h, cfg) && i < |h.events| && h.events[i] == Scan(p)
    ensures var (db, q', now) := (h.dbs[i], h.dbs[i + 1].queue, h.times[i]);
            && (Get(q', d) != Get(db.queue, d) <==>
                  && NeedsRefresh(db, d, now, p)
                  && (d in db.queue ==> db.queue[d].state == Dead && db.queue[d].nextAttemptAt <= now))
            && (Get(q', d) != Get(db.queue, d) ==>
                  Get(q', d) == Some(Row(Expired, Pending, now, 0, now, None, None)))
    ensures Get(h.dbs[i + 1].queue, d) != Get(h.dbs[i].queue, d) ==>
              forall zone :: Normalize(zone) == d ==> !FindZone(h.dbs[i], zone, h.times[i] + p.lead * 1_000_000 - 1)
  {
    assert StepAt(h, cfg, i);
    ScannedRow(h.dbs[i], h.times[i], p, d);
    if Get(h.dbs[i + 1].queue, d) != Get(h.dbs[i].queue, d) {
      forall zone | Normalize(zone) == d
        ensures !FindZone(h.dbs[i], zone, h.times[i] + p.lead * 1_000_000 - 1)
      {
        RunsOutUnserved(h.dbs[i], zone, h.times[i] + p.lead * 1_000_000);
      }
    }
  }

  lemma ScannedRow(db: Db, now: Time, p: Freshness, d: Name)
    ensures var (q, q') := (db.queue, Enqueued(db.queue, ExpiringDomains(db, now, p), Expired, now));
            var changes := NeedsRefresh(db, d, now, p) && (d in q ==> q[d].state == Dead && q[d].nextAttemptAt <= now);
            && (changes ==> Get(q', d) == Some(Row(Expired, Pending, now, 0, now, None, None)))
            && (changes <==> Get(q', d) != Get(q, d))
  {
    ExpiringIff(db, d, now, p);
  }

  /**
   * A flush of the collector changes the queue row of d exactly when one of its misses calls for it and
   * d is not queued, or dead past its cooldown; a known name is counted and dated by its events.
   */
  lemma FlushQueuesIff(h: History, cfg: Config, i: nat, es: seq<QueryEvent>, d: Name)
    requires ValidHistory(h, cfg) && i < |h.events| && h.events[i] == Flush(es) && Timed(es)
    ensures var (db, db', now) := (h.dbs[i], h.dbs[i + 1], h.times[i]);
            && (Get(db'.queue, d) != Get(db.queue, d) <==>
                  && (exists e :: e in es && CallsFor(db, e, d, now))
                  && (d in db.queue ==> db.queue[d].state == Dead && db.queue[d].nextAttemptAt <= now))
            && (d in db.domains ==>
                  && d in db'.domains
                  && db'.domains[d].hitCount == db.domains[d].hitCount + HitsOf(es, d)
                  && IsLast(db'.domains[d].lastQueriedAt, db.domains[d].lastQueriedAt, es, d))
  {
    assert StepAt(h, cfg, i);
    var batches := OneBatch(h.dbs[i], es, h.times[i]);
    QueuedByMissIff(h.dbs[i], batches, h.times[i], d);
    if d in h.dbs[i].domains {
      KnownNameColumns(h.dbs[i], batches, h.times[i], d);
    }
  }

  /** A saved carbon point is there at once, and from then on decides the MOER of its region while it is the newest. */
  lemma SignalSaved(h: History, cfg: Config, i: nat, key: SignalKey, moer: real)
    requires ValidHistory(h, cfg) && i < |h.events| && h.events[i] == SaveSignal(key, moer)
    ensures h.dbs[i + 1] == h.dbs[i].(signals := h.dbs[i + 1].signals)
    ensures forall k :: k in h.dbs[i + 1].signals <==> k in h.dbs[i].signals || k == key
    ensures forall k :: k in h.dbs[i + 1].signals ==>
              h.dbs[i + 1].signals[k] == if k == key then moer else h.dbs[i].signals[k]
    ensures (forall k :: k in h.dbs[i].signals && k.region == key.region ==> k.pointTime <= key.pointTime) ==>
              Latest(h.dbs[i + 1].signals, key.region) == Some(moer)
  {
    assert StepAt(h, cfg, i);
    var signals := h.dbs[i + 1].signals;
    if forall k :: k in h.dbs[i].signals && k.region == key.region ==> k.pointTime <= key.pointTime {
      var times := set k | k in signals && k.region == key.region :: k.pointTime;
      assert key.pointTime in times;
      assert key == SignalKey(key.region, MaxOf(times));
    }
  }

  // ----- which steps touch a domain's records -----

  ghost predicate MeasuresAt(h: History, i: nat, d: Name)
    requires i < |h.events|
  {
    h.events[i].Measure? && h.events[i].name == d
  }

  /** Event i stored a measurement of d that was not failed. */
  ghost predicate ReplacesAt(h: History, cfg: Config, i: nat, d: Name)
    requires i < |h.events| == |h.times| && |h.dbs| == |h.events| + 1
  {
    && MeasuresAt(h, i, d)
    && !Classify(h.events[i].answers, cfg.backoff).status.Unresolved?
    && StoreOf(h.dbs[i], h.events[i], h.times[i], cfg).Some?
  }

  lemma StoreKeepsOthers(db: Db, ev: SysEvent, now: Time, cfg: Config, d: Name)
    requires ev.Measure? && StoreOf(db, ev, now, cfg).Some?
    requires ev.name != d || Classify(ev.answers, cfg.backoff).status.Unresolved?
    ensures RecordsOf(StoreOf(db, ev, now, cfg).value, d) == RecordsOf(db, d)
  {
    var o := Classify(ev.answers, cfg.backoff);
    var es := if o.status.Resolved? then ev.endpoints else [];
    var after := StoreOf(db, ev, now, cfg).value;
    StoredRows(db, ev.name, o.status, o.retryAfter, es, Records(ev.answers), now);
    if !o.status.Unresolved? {
      forall k: RecordKey | k.domain == d
        ensures k in after.records <==> k in db.records
        ensures k in db.records ==> after.records[k] == db.records[k]
      {
        StoredReplaces(db, ev.name, o.status, o.retryAfter, es, Records(ev.answers), now, k);
      }
    }
  }

  lemma CollectKeepsOrDrops(db: Db, now: Time, p: Retention, d: Name)
    ensures RecordsOf(Collected(db, now, p), d) == RecordsOf(db, d) || RecordsOf(Collected(db, now, p), d) == map[]
    ensures d in db.domains && d !in IdleDomains(db, Cutoff(now, p.domainDays)) ==>
              && d in Collected(db, now, p).domains
              && Collected(db, now, p).domains[d] == db.domains[d]
              && RecordsOf(Collected(db, now, p), d) == RecordsOf(db, d)
  {
    CollectedTables(db, now, p);
    var after, idle := Collected(db, now, p), IdleDomains(db, Cutoff(now, p.domainDays));
    if d in idle {
      assert RecordsOf(after, d) == map[];
    } else {
      assert RecordsOf(after, d) == RecordsOf(db, d);
    }
  }

  /** Only a stored measurement of d changes d's records; collection may remove them. */
  lemma RecordsKept(h: History, cfg: Config, i: nat, d: Name)
    requires ValidHistory(h, cfg) && i < |h.events| && !ReplacesAt(h, cfg, i, d)
    ensures RecordsOf(h.dbs[i + 1], d) == RecordsOf(h.dbs[i], d) || RecordsOf(h.dbs[i + 1], d) == map[]
  {
    assert StepAt(h, cfg, i);
    var db, ev, now := h.dbs[i], h.events[i], h.times[i];
    match ev
    case Measure(_, _, _) =>
      if StoreOf(db, ev, now, cfg).Some? {
        StoreKeepsOthers(db, ev, now, cfg, d);
      }
    case Collect(p) => CollectKeepsOrDrops(db, now, p, d);
    case _ =>
  }

  /** A measurement that rolls back changes nothing, and one that found no address leaves the endpoints alone. */
  lemma MeasureStep(h: History, cfg: Config, i: nat)
    requires ValidHistory(h, cfg) && i < |h.events| && h.events[i].Measure?
    ensures StoreOf(h.dbs[i], h.events[i], h.times[i], cfg).None? ==> h.dbs[i + 1] == h.dbs[i]
    ensures !AnyAddress(h.events[i].answers) ==> h.dbs[i + 1].endpoints == h.dbs[i].endpoints
    ensures h.dbs[i + 1].queue == h.dbs[i].queue && h.dbs[i + 1].signals == h.dbs[i].signals
  {
    assert StepAt(h, cfg, i);
    var db, ev := h.dbs[i], h.events[i];
    if StoreOf(db, ev, h.times[i], cfg).Some? {
      var o := Classify(ev.answers, cfg.backoff);
      var es := if o.status.Resolved? then ev.endpoints else [];
      StoredRows(db, ev.name, o.status, o.retryAfter, es, Records(ev.answers), h.times[i]);
    }
  }

  // ----- no false NODATA -----

  ghost predicate FromEmptyStore(h: History, cfg: Config) {
    ValidHistory(h, cfg) && h.dbs[0].records == map[]
  }

  /** The last stored measurement of d before event k that was not failed, or -1. */
  lemma LastReplace(h: History, cfg: Config, k: nat, d: Name) returns (i: int)
    requires ValidHistory(h, cfg) && k <= |h.events|
    ensures -1 <= i < k && (i >= 0 ==> ReplacesAt(h, cfg, i, d))
    ensures forall j :: i < j < k ==> !ReplacesAt(h, cfg, j, d)
  {
    var counts := (j: nat) => j < |h.events| && ReplacesAt(h, cfg, j, d);
    i := LastTrue(counts, k);
    forall j | i < j < k
      ensures !ReplacesAt(h, cfg, j, d)
    {
      assert !counts(j);
    }
  }

  /** Between such measurements the records of d stay, or are collected. */
  lemma {:induction false} RecordsSince(h: History, cfg: Config, from: nat, k: nat, d: Name)
    requires ValidHistory(h, cfg) && from <= k <= |h.events|
    requires forall j :: from <= j < k ==> !ReplacesAt(h, cfg, j, d)
    ensures RecordsOf(h.dbs[k], d) == map[] || RecordsOf(h.dbs[k], d) == RecordsOf(h.dbs[from], d)
    decreases k
  {
    if from < k {
      RecordsSince(h, cfg, from, k - 1, d);
      RecordsKept(h, cfg, k - 1, d);
    }
  }

  /** Stored records are always exactly those of the last stored measurement that was not failed. */
  lemma RecordsComeFrom(h: History, cfg: Config, k: nat, d: Name) returns (i: nat)
    requires FromEmptyStore(h, cfg) && k <= |h.events|
    requires RecordsOf(h.dbs[k], d) != map[]
    ensures i < k && ReplacesAt(h, cfg, i, d)
    ensures forall j :: i < j < k ==> !ReplacesAt(h, cfg, j, d)
    ensures RecordsOf(h.dbs[k], d) == RecordsOf(h.dbs[i + 1], d)
  {
    var last := LastReplace(h, cfg, k, d);
    RecordsSince(h, cfg, last + 1, k, d);
    assert RecordsOf(h.dbs[0], d) == map[];
    i := last;
  }

  lemma ReplacedTypes(h: History, cfg: Config, i: nat, d: Name, t: RType)
    requires ValidHistory(h, cfg) && i < |h.events| && ReplacesAt(h, cfg, i, d)
    ensures t in Types(RecordsOf(h.dbs[i + 1], d)) <==> HasAddress(h.events[i].answers, t)
  {
    assert StepAt(h, cfg, i);
    var ev := h.events[i];
    var o := Classify(ev.answers, cfg.backoff);
    var es := if o.status.Resolved? then ev.endpoints else [];
    StoredTypes(h.dbs[i], d, o.status, o.retryAfter, es, ev.answers, h.times[i], t);
  }

  /**
   * No false NODATA: in every history that starts without records, whenever a name is served, the
   * last stored measurement that was not failed got a definitive answer for both types, and a type
   * is absent from the answer exactly when no resolver returned an address of it then.
   */
  lemma NoFalseNodata(h: History, cfg: Config, k: nat, zone: string, record: string, now: Time, sh: Shuffle)
    returns (i: nat)
    requires FromEmptyStore(h, cfg) && k <= |h.events|
    requires IsShuffle(RecordsOf(h.dbs[k], Normalize(zone)), now, sh)
    requires IsApex(zone, record) && FindZone(h.dbs[k], zone, now)
    ensures i < k && ReplacesAt(h, cfg, i, Normalize(zone))
    ensures forall j :: i < j < k ==> !ReplacesAt(h, cfg, j, Normalize(zone))
    ensures forall t: RType ::
              && Settled(h.events[i].answers, t)
              && (Emitted(Lookup(h.dbs[k], zone, record, now, sh), t) == {} <==> !HasAddress(h.events[i].answers, t))
  {
    var d := Normalize(zone);
    i := RecordsComeFrom(h, cfg, k, d);
    SettingsStayValid(h, cfg, k);
    assert StepAt(h, cfg, i);
    StoredOnlyWhenSettled(h.events[i].answers, cfg.resolvers, cfg.backoff);
    forall t: RType
      ensures Settled(h.events[i].answers, t)
      ensures Emitted(Lookup(h.dbs[k], zone, record, now, sh), t) == {} <==> !HasAddress(h.events[i].answers, t)
    {
      assert t == A || t == AAAA;
      GreenestAnswer(h.dbs[k], zone, record, now, sh, t);
      ReplacedTypes(h, cfg, i, d, t);
    }
  }

  // ----- service without gaps -----

  /** A measurement at i that is stored, resolved, and servable for at least T. */
  ghost predicate RefreshesAt(h: History, cfg: Config, i: nat, d: Name, T: Time)
    requires i < |h.events| == |h.times| && |h.dbs| == |h.events| + 1
  {
    && MeasuresAt(h, i, d)
    && Classify(h.events[i].answers, cfg.backoff).status.Resolved?
    && StoreOf(h.dbs[i], h.events[i], h.times[i], cfg).Some?
    && forall r :: r in Records(h.events[i].answers) ==> Max(r.ttl, h.dbs[i].settings.minRecordTtl) * SECOND >= T
  }

  /** d is queried within the activity window, and retention is at least that window. */
  ghost predicate ActiveAt(h: History, i: nat, d: Name, p: Freshness)
    requires i < |h.events| == |h.times| && |h.dbs| == |h.events| + 1
  {
    && (d in h.dbs[i].domains ==>
          h.dbs[i].domains[d].lastQueriedAt.Some? &&
          h.dbs[i].domains[d].lastQueriedAt.value > h.times[i] - p.window * SECOND)
    && (h.events[i].Collect? ==> h.events[i].retention.domainDays * DAY >= p.window * SECOND)
  }

  /** Some scan lies in (x, x + S]. */
  ghost predicate ScanWithin(h: History, p: Freshness, x: Time, S: Time) {
    exists i :: 0 <= i < |h.events| && i < |h.times| && h.events[i] == Scan(p) && x < h.times[i] <= x + S
  }

  /** Some measurement of d follows event i within D. */
  ghost predicate MeasuredWithin(h: History, i: nat, d: Name, D: Time)
    requires i < |h.times| == |h.events|
  {
    exists j :: i < j < |h.events| && MeasuresAt(h, j, d) && h.times[j] <= h.times[i] + D
  }

  /** Events are known up to `end`; f is a measurement of d, and from then on d is maintained. */
  ghost predicate Maintained(
    h: History, cfg: Config, d: Name, f: nat, p: Freshness, S: Time, D: Time, T: Time, end: Time)
  {
    && ValidHistory(h, cfg)
    && f < |h.events| && MeasuresAt(h, f, d)
    && (forall i :: f <= i < |h.events| && MeasuresAt(h, i, d) ==> RefreshesAt(h, cfg, i, d, T))
    && (forall i :: f < i < |h.events| ==> ActiveAt(h, i, d, p))
    && (forall x :: h.times[f] <= x && x + S <= end ==> ScanWithin(h, p, x, S))
    && (forall i :: f < i < |h.events| && h.events[i] == Scan(p) && h.times[i] + D <= end
                    && Expiring(h.dbs[i], d, h.times[i], p)
          ==> MeasuredWithin(h, i, d, D))
  }

  /** What a step other than a measurement of d leaves of d. */
  lemma MaintainedStep(h: History, cfg: Config, d: Name, i: nat, p: Freshness)
    requires ValidHistory(h, cfg) && i < |h.events| && !MeasuresAt(h, i, d) && ActiveAt(h, i, d, p)
    requires d in h.dbs[i].domains
    ensures d in h.dbs[i + 1].domains
    ensures h.dbs[i + 1].domains[d].measuredAt == h.dbs[i].domains[d].measuredAt
    ensures h.dbs[i + 1].domains[d].retryAfter == h.dbs[i].domains[d].retryAfter
    ensures RecordsOf(h.dbs[i + 1], d) == RecordsOf(h.dbs[i], d)
  {
    assert StepAt(h, cfg, i);
    var db, ev, now := h.dbs[i], h.events[i], h.times[i];
    match ev
    case Measure(_, _, _) =>
      if StoreOf(db, ev, now, cfg).Some? {
        StoreKeepsOthers(db, ev, now, cfg, d);
        var o := Classify(ev.answers, cfg.backoff);
        var es := if o.status.Resolved? then ev.endpoints else [];
        StoredRows(db, ev.name, o.status, o.retryAfter, es, Records(ev.answers), now);
      }
    case Collect(r) => CollectKeepsOrDrops(db, now, r, d);
    case _ =>
  }

  /** After a refresh at j, d keeps its records and times until the next measurement. */
  lemma {:induction false} ViewKept(h: History, cfg: Config, d: Name, j: nat, k: nat, p: Freshness, T: Time)
    requires ValidHistory(h, cfg) && j < k <= |h.events| && RefreshesAt(h, cfg, j, d, T)
    requires forall i :: j < i < k ==> !MeasuresAt(h, i, d) && ActiveAt(h, i, d, p)
    ensures d in h.dbs[k].domains
    ensures h.dbs[k].domains[d].measuredAt == Some(h.times[j]) && h.dbs[k].domains[d].retryAfter.None?
    ensures RecordsOf(h.dbs[k], d) == RecordsOf(h.dbs[j + 1], d)
    decreases k
  {
    if k == j + 1 {
      assert StepAt(h, cfg, j);
      var ev := h.events[j];
      StoredRows(h.dbs[j], d, Resolved, None, ev.endpoints, Records(ev.answers), h.times[j]);
    } else {
      ViewKept(h, cfg, d, j, k - 1, p, T);
      assert !MeasuresAt(h, k - 1, d);
      MaintainedStep(h, cfg, d, k - 1, p);
    }
  }

  lemma EachLastExpiry(rs: map<RecordKey, Record>, e: Time)
    requires rs != map[] && forall k :: k in rs ==> rs[k].expiresAt >= e
    ensures ServedUntil(rs).Some? && ServedUntil(rs).value >= e
  {
    ServedUntilIsEarliest(rs, e - 1);
  }

  /** A refresh at j is served for at least T. */
  lemma RefreshLasts(h: History, cfg: Config, d: Name, j: nat, T: Time)
    requires ValidHistory(h, cfg) && j < |h.events| && RefreshesAt(h, cfg, j, d, T)
    ensures var rs := RecordsOf(h.dbs[j + 1], d); ServedUntil(rs).Some? && ServedUntil(rs).value >= h.times[j] + T
  {
    assert StepAt(h, cfg, j);
    var ev, rs := h.events[j], RecordsOf(h.dbs[j + 1], d);
    var i :| 0 <= i < |ev.answers| && ev.answers[i].addresses != [];
    assert HasAddress(ev.answers, ev.answers[i].rtype);
    ReplacedTypes(h, cfg, j, d, ev.answers[i].rtype);
    forall k | k in rs
      ensures rs[k].expiresAt >= h.times[j] + T
    {
      StoredReplaces(h.dbs[j], d, Resolved, None, ev.endpoints, Records(ev.answers), h.times[j], k);
    }
    EachLastExpiry(rs, h.times[j] + T);
  }

  ghost function LastMeasure(h: History, d: Name, f: nat, k: nat): (j: nat)
    requires f < k <= |h.events| && MeasuresAt(h, f, d)
    ensures f <= j < k && MeasuresAt(h, j, d)
    ensures forall i :: j < i < k ==> !MeasuresAt(h, i, d)
  {
    if MeasuresAt(h, k - 1, d) then k - 1 else LastMeasure(h, d, f, k - 1)
  }

  /** A scan late enough after the refresh at j, with no measurement between them, selects d. */
  lemma ScanSelects(h: History, cfg: Config, d: Name, j: nat, i: nat, p: Freshness, T: Time)
    requires ValidHistory(h, cfg) && j < i < |h.events| && RefreshesAt(h, cfg, j, d, T)
    requires forall k :: j < k < i ==> !MeasuresAt(h, k, d) && ActiveAt(h, k, d, p)
    requires ActiveAt(h, i, d, p)
    requires ServedUntil(RecordsOf(h.dbs[j + 1], d)).Some?
    requires h.times[i] >= h.times[j] + p.minRemeasure * SECOND
    requires h.times[i] > ServedUntil(RecordsOf(h.dbs[j + 1], d)).value - p.lead * SECOND
    ensures Expiring(h.dbs[i], d, h.times[i], p)
  {
    ViewKept(h, cfg, d, j, i, p, T);
  }

  /** From the refresh at j on, the served data cannot run out before the next measurement. */
  lemma RemeasuredInTime(
    h: History, cfg: Config, d: Name, f: nat, p: Freshness, S: Time, D: Time, T: Time, end: Time,
    j: nat, k: nat, t: Time)
    requires Maintained(h, cfg, d, f, p, S, D, T, end)
    requires S >= 0 && D >= 0 && S + D < p.lead * SECOND && p.minRemeasure * SECOND + S + D < T
    requires f <= j < k <= |h.events| && MeasuresAt(h, j, d)
    requires forall i :: j < i < k ==> !MeasuresAt(h, i, d)
    requires t <= end && (k < |h.events| ==> t <= h.times[k])
    ensures var rs := RecordsOf(h.dbs[j + 1], d); ServedUntil(rs).Some? && t < ServedUntil(rs).value
  {
    assert RefreshesAt(h, cfg, j, d, T);
    RefreshLasts(h, cfg, d, j, T);
    var m, u := h.times[j], ServedUntil(RecordsOf(h.dbs[j + 1], d)).value;
    var x := Max(m + p.minRemeasure * SECOND, u - p.lead * SECOND);
    assert h.times[f] <= m <= x && x + S + D < u;
    if u <= t {
      assert ScanWithin(h, p, x, S);
      var i :| 0 <= i < |h.events| && i < |h.times| && h.events[i] == Scan(p) && x < h.times[i] <= x + S;
      ScanSelects(h, cfg, d, j, i, p, T);
    }
  }

  /**
   * Gap-free service: if scans are never more than S apart, each scan that selects d is followed by
   * a measurement of it within D, every measurement is resolved and servable for at least T, d stays
   * active, and S + D is below the lead time and below T by the re-measure interval, then
   * dlz_findzone(d) holds at every instant after the first measurement, however long the history.
   */
  lemma GapFreeService(
    h: History, cfg: Config, f: nat, p: Freshness, S: Time, D: Time, T: Time, end: Time, k: nat, zone: string, t: Time)
    requires Maintained(h, cfg, Normalize(zone), f, p, S, D, T, end)
    requires S >= 0 && D >= 0 && S + D < p.lead * SECOND && p.minRemeasure * SECOND + S + D < T
    requires f < k <= |h.events|
    requires h.times[k - 1] <= t <= end && (k < |h.events| ==> t <= h.times[k])
    ensures FindZone(h.dbs[k], zone, t)
  {
    var d := Normalize(zone);
    var j := LastMeasure(h, d, f, k);
    RemeasuredInTime(h, cfg, d, f, p, S, D, T, end, j, k, t);
    ViewKept(h, cfg, d, j, k, p, T);
    RefreshLasts(h, cfg, d, j, T);
    FreshnessFormsAgree(h.dbs[k], zone, t);
  }
}
