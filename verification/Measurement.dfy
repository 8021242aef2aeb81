/**
 * One measurement: classification of the upstream answers (services/src/cadns/worker/pipeline.py)
 * and the transaction that stores it (services/src/cadns/worker/store.py).
 */
module Measurement {
  import opened Common
  import opened Queue
  import opened Database
  import opened Resolvers

  // ----- classify -----

  /** Backoff settings, in seconds. */
  datatype Backoff = Backoff(failedRetry: int, negativeMin: int, negativeMax: int)

  datatype NewRecord = NewRecord(rtype: RType, address: Address, resolver: Address, ttl: nat)

  datatype Outcome = Outcome(status: Status, answers: seq<Answer>, retryAfter: Option<int>)

  /** Some answer of the type is definitive. */
  predicate Settled(answers: seq<Answer>, t: RType) {
    exists i :: 0 <= i < |answers| && answers[i].rtype == t && Definitive(answers[i])
  }

  predicate Asked(answers: seq<Answer>, t: RType) {
    exists i :: 0 <= i < |answers| && answers[i].rtype == t
  }

  predicate AnyAddress(answers: seq<Answer>) {
    exists i :: 0 <= i < |answers| && answers[i].addresses != []
  }

  /** Some resolver returned an address of the type. */
  predicate HasAddress(answers: seq<Answer>, t: RType) {
    exists i :: 0 <= i < |answers| && answers[i].rtype == t && answers[i].addresses != []
  }

  function NegativeTtls(answers: seq<Answer>): seq<nat> {
    if answers == [] then []
    else (if answers[0].negativeTtl.Some? then [answers[0].negativeTtl.value] else []) + NegativeTtls(answers[1..])
  }

  function Classify(answers: seq<Answer>, cfg: Backoff): Outcome {
    if (Asked(answers, A) && !Settled(answers, A)) || (Asked(answers, AAAA) && !Settled(answers, AAAA)) then
      Outcome(Unresolved, answers, Some(cfg.failedRetry))
    else if AnyAddress(answers) then
      Outcome(Resolved, answers, None)
    else
      var ttls := NegativeTtls(answers);
      var backoff := if ttls != [] then MinSeq(ttls) else cfg.negativeMin;
      Outcome(
        if exists i :: 0 <= i < |answers| && answers[i].status.Nx? then NxDomain else NoData,
        answers,
        Some(Max(cfg.negativeMin, Min(cfg.negativeMax, backoff))))
  }

  function RecordsOfAnswer(a: Answer): seq<NewRecord> {
    var ttl := if a.ttl.Some? then a.ttl.value else 0;
    seq(|a.addresses|, i requires 0 <= i < |a.addresses| => NewRecord(a.rtype, a.addresses[i], a.resolver, ttl))
  }

  /** Outcome.records: one record per answer and address. */
  function Records(answers: seq<Answer>): seq<NewRecord> {
    if answers == [] then [] else RecordsOfAnswer(answers[0]) + Records(answers[1..])
  }

  /** Records hold the addresses of all answers and nothing else. */
  lemma {:induction false} RecordsAreAnswers(answers: seq<Answer>, t: RType, a: Address)
    ensures (exists r :: r in Records(answers) && r.rtype == t && r.address == a) <==>
            (exists i :: 0 <= i < |answers| && answers[i].rtype == t && a in answers[i].addresses)
  {
    if answers != [] {
      RecordsAreAnswers(answers[1..], t, a);
      var first, rest := answers[0], answers[1..];
      var own := RecordsOfAnswer(first);
      if first.rtype == t && a in first.addresses {
        var i :| 0 <= i < |first.addresses| && first.addresses[i] == a;
        assert own[i] in Records(answers);
      }
      if i :| 0 <= i < |rest| && rest[i].rtype == t && a in rest[i].addresses {
        assert answers[i + 1] == rest[i];
      }
      if i :| 1 <= i < |answers| && answers[i].rtype == t && a in answers[i].addresses {
        assert rest[i - 1] == answers[i];
      }
      if r :| r in Records(answers) && r.rtype == t && r.address == a {
        if r in own {
          var i :| 0 <= i < |own| && own[i] == r;
          assert first.addresses[i] == a;
        } else {
          assert r in Records(rest);
        }
      }
    }
  }

  /** A record is an address of an answer, with that answer's type, resolver and TTL, or 0 without a TTL. */
  ghost predicate RecordOf(r: NewRecord, a: Answer) {
    && r.rtype == a.rtype && r.resolver == a.resolver && r.address in a.addresses
    && r.ttl == match a.ttl case Some(ttl) => ttl case None => 0
  }

  lemma {:induction false} RecordsExact(answers: seq<Answer>, r: NewRecord)
    ensures r in Records(answers) <==> exists i :: 0 <= i < |answers| && RecordOf(r, answers[i])
  {
    if answers != [] {
      RecordsExact(answers[1..], r);
      var first, rest := answers[0], answers[1..];
      if RecordOf(r, first) {
        var i :| 0 <= i < |first.addresses| && first.addresses[i] == r.address;
        assert RecordsOfAnswer(first)[i] == r;
      }
      if i :| 0 <= i < |rest| && RecordOf(r, rest[i]) {
        assert answers[i + 1] == rest[i];
      }
      if i :| 1 <= i < |answers| && RecordOf(r, answers[i]) {
        assert rest[i - 1] == answers[i];
      }
    }
  }

  /** No answer of the type is NOERROR or NXDOMAIN. */
  ghost predicate Undecided(answers: seq<Answer>, t: RType) {
    forall i :: 0 <= i < |answers| && answers[i].rtype == t ==> answers[i].status != NoErr && answers[i].status != Nx
  }

  lemma UndecidedIff(answers: seq<Answer>, t: RType)
    ensures Undecided(answers, t) <==> !Settled(answers, t)
  {
  }

  /**
   * The outcome, case by case: failed when no answer of some asked type is NOERROR or NXDOMAIN;
   * otherwise resolved when any address came back, else NXDOMAIN when any resolver said so, else NODATA.
   */
  lemma ClassifyCases(answers: seq<Answer>, cfg: Backoff)
    ensures var o := Classify(answers, cfg);
            var failed := exists i :: 0 <= i < |answers| && Undecided(answers, answers[i].rtype);
            var found := exists i :: 0 <= i < |answers| && answers[i].addresses != [];
            var absent := exists i :: 0 <= i < |answers| && answers[i].status == Nx;
            && o.answers == answers
            && o.status ==
               (if failed then Unresolved else if found then Resolved else if absent then NxDomain else NoData)
            && (failed ==> o.retryAfter == Some(cfg.failedRetry))
            && (!failed ==> (o.retryAfter == None <==> found))
  {
    UndecidedIff(answers, A);
    UndecidedIff(answers, AAAA);
    var failed := exists i :: 0 <= i < |answers| && Undecided(answers, answers[i].rtype);
    assert failed <==> exists t :: Asked(answers, t) && !Settled(answers, t) by {
      if i :| 0 <= i < |answers| && Undecided(answers, answers[i].rtype) {
        assert answers[i].rtype == A || answers[i].rtype == AAAA;
      }
    }
  }

  /** ResolverPool.resolve: every resolver is asked for A and then every resolver for AAAA. */
  ghost predicate FromPool(answers: seq<Answer>, resolvers: seq<Address>) {
    && |answers| == 2 * |resolvers|
    && (forall i :: 0 <= i < |resolvers| ==> answers[i].rtype == A && answers[i].resolver == resolvers[i])
    && (forall i :: |resolvers| <= i < |answers| ==>
          answers[i].rtype == AAAA && answers[i].resolver == resolvers[i - |resolvers|])
  }

  /** A pool's measurement is stored only when both types were settled. */
  lemma StoredOnlyWhenSettled(answers: seq<Answer>, resolvers: seq<Address>, cfg: Backoff)
    requires FromPool(answers, resolvers) && resolvers != []
    ensures !Classify(answers, cfg).status.Unresolved? <==> Settled(answers, A) && Settled(answers, AAAA)
  {
    assert answers[0].rtype == A && answers[|resolvers|].rtype == AAAA;
  }

  lemma {:induction false} NegativeTtlsAre(answers: seq<Answer>, ttl: nat)
    ensures ttl in NegativeTtls(answers) <==> exists i :: 0 <= i < |answers| && answers[i].negativeTtl == Some(ttl)
  {
    if answers != [] {
      NegativeTtlsAre(answers[1..], ttl);
      if i :| 0 <= i < |answers[1..]| && answers[1..][i].negativeTtl == Some(ttl) {
        assert answers[i + 1].negativeTtl == Some(ttl);
      }
      if i :| 1 <= i < |answers| && answers[i].negativeTtl == Some(ttl) {
        assert answers[1..][i - 1] == answers[i];
      }
    }
  }

  /** The backoff of a negative result: a negative TTL brought within the configured limits. */
  function Clamp(ttl: int, cfg: Backoff): int {
    Max(cfg.negativeMin, Min(cfg.negativeMax, ttl))
  }

  /** A negative result backs off as long as the shortest SOA allows, within the configured limits. */
  lemma NegativeBackoff(answers: seq<Answer>, cfg: Backoff) returns (shortest: Option<nat>)
    requires var o := Classify(answers, cfg); o.status.NxDomain? || o.status.NoData?
    ensures Classify(answers, cfg).retryAfter ==
        Some(Clamp(if shortest.Some? then shortest.value else cfg.negativeMin, cfg))
    ensures shortest.Some? ==> exists i :: 0 <= i < |answers| && answers[i].negativeTtl == shortest
    ensures forall i :: 0 <= i < |answers| && answers[i].negativeTtl.Some? ==>
              shortest.Some? && shortest.value <= answers[i].negativeTtl.value
  {
    var ttls := NegativeTtls(answers);
    shortest := if ttls == [] then None else Some(MinSeq(ttls));
    forall i | 0 <= i < |answers| && answers[i].negativeTtl.Some?
      ensures shortest.Some? && shortest.value <= answers[i].negativeTtl.value
    {
      NegativeTtlsAre(answers, answers[i].negativeTtl.value);
    }
    if shortest.Some? {
      NegativeTtlsAre(answers, shortest.value);
    }
  }

  // ----- store_measurement -----

  datatype NewEndpoint = NewEndpoint(address: Address, row: Endpoint)

  /** Located endpoints overwrite; unlocated ones are inserted only if the address is new. */
  function Upsert(table: map<Address, Endpoint>, es: seq<NewEndpoint>, located: bool): map<Address, Endpoint> {
    if es == [] then table
    else
      var e := es[|es| - 1];
      var before := Upsert(table, es[..|es| - 1], located);
      if e.row.geoUpdatedAt.Some? != located then before
      else if located then before[e.address := e.row]
      else if e.address in before then before
      else before[e.address := Endpoint(false, None, None)]
  }

  function UpsertAll(table: map<Address, Endpoint>, es: seq<NewEndpoint>): map<Address, Endpoint> {
    Upsert(Upsert(table, es, true), es, false)
  }

  ghost predicate DistinctAddresses(es: seq<NewEndpoint>) {
    forall i, j :: 0 <= i < j < |es| ==> es[i].address != es[j].address
  }

  ghost function RowAt(table: map<Address, Endpoint>, a: Address): Option<Endpoint> {
    if a in table then Some(table[a]) else None
  }

  lemma {:induction false} UpsertAt(table: map<Address, Endpoint>, es: seq<NewEndpoint>, located: bool, i: nat)
    requires DistinctAddresses(es) && i < |es|
    ensures var e, before := es[i], RowAt(table, es[i].address);
            RowAt(Upsert(table, es, located), e.address) ==
              if e.row.geoUpdatedAt.Some? != located then before
              else if located then Some(e.row)
              else if before.Some? then before else Some(Endpoint(false, None, None))
    decreases |es|
  {
    var n := |es| - 1;
    if i < n {
      UpsertAt(table, es[..n], located, i);
    } else {
      UpsertElsewhere(table, es[..n], located, es[n].address);
    }
  }

  lemma {:induction false} UpsertElsewhere(
    table: map<Address, Endpoint>, es: seq<NewEndpoint>, located: bool, a: Address)
    requires forall i :: 0 <= i < |es| ==> es[i].address != a
    ensures RowAt(Upsert(table, es, located), a) == RowAt(table, a)
    decreases |es|
  {
    if es != [] {
      UpsertElsewhere(table, es[..|es| - 1], located, a);
    }
  }

  /**
   * Every endpoint of a measurement ends up stored: a located one with its new row, an unlocated
   * one never overwriting.
   */
  lemma EndpointsStored(table: map<Address, Endpoint>, es: seq<NewEndpoint>, i: nat)
    requires DistinctAddresses(es) && i < |es|
    ensures var e, before := es[i], RowAt(table, es[i].address);
            RowAt(UpsertAll(table, es), e.address) ==
              if e.row.geoUpdatedAt.Some? then Some(e.row)
              else if before.Some? then before else Some(Endpoint(false, None, None))
  {
    UpsertAt(table, es, true, i);
    UpsertAt(Upsert(table, es, true), es, false, i);
  }

  /** Addresses that a measurement does not list keep their rows. */
  lemma EndpointsKept(table: map<Address, Endpoint>, es: seq<NewEndpoint>, a: Address)
    requires forall i :: 0 <= i < |es| ==> es[i].address != a
    ensures RowAt(UpsertAll(table, es), a) == RowAt(table, a)
  {
    UpsertElsewhere(table, es, true, a);
    UpsertElsewhere(Upsert(table, es, true), es, false, a);
  }

  /** The upserted row of the domain: the measurement replaces status, measured_at and retry_after. */
  function MeasuredRow(old': Option<Domain>, status: Status, retry: Option<int>, now: Time): Domain {
    var retryAfter := if retry.Some? then Some(now + retry.value * SECOND) else None;
    if old'.Some? then old'.value.(status := status, measuredAt := Some(now), retryAfter := retryAfter)
    else Domain(status, now, Some(now), None, 0, retryAfter)
  }

  function KeyOf(domain: Name, r: NewRecord): RecordKey {
    RecordKey(domain, r.rtype, r.address, r.resolver)
  }

  function RowOf(r: NewRecord, minTtl: int, now: Time): Record {
    Record(r.ttl, now, now + Max(r.ttl, minTtl) * SECOND)
  }

  /** The record INSERTs in order; a duplicate key or an unknown address aborts the transaction. */
  function Insert(
    table: map<RecordKey, Record>, endpoints: map<Address, Endpoint>, domain: Name,
    rs: seq<NewRecord>, minTtl: int, now: Time): Option<map<RecordKey, Record>>
  {
    if rs == [] then Some(table)
    else
      var before := Insert(table, endpoints, domain, rs[..|rs| - 1], minTtl, now);
      var r := rs[|rs| - 1];
      if before.None? || KeyOf(domain, r) in before.value || r.address !in endpoints then None
      else Some(before.value[KeyOf(domain, r) := RowOf(r, minTtl, now)])
  }

  function WithoutRecords(table: map<RecordKey, Record>, domain: Name): map<RecordKey, Record> {
    map k | k in table && k.domain != domain :: table[k]
  }

  /** The whole transaction; None when a constraint makes it roll back. */
  function Stored(
    db: Db, domain: Name, status: Status, retry: Option<int>,
    es: seq<NewEndpoint>, rs: seq<NewRecord>, now: Time): Option<Db>
  {
    var row := MeasuredRow(if domain in db.domains then Some(db.domains[domain]) else None, status, retry, now);
    var db1 := db.(domains := db.domains[domain := row]);
    if status.Unresolved? then Some(db1)
    else
      var endpoints := UpsertAll(db.endpoints, es);
      var table := Insert(WithoutRecords(db.records, domain), endpoints, domain, rs, db.settings.minRecordTtl, now);
      if table.None? then None else Some(db1.(endpoints := endpoints, records := table.value))
  }

  /** The two executemany calls: located endpoints first, then the unlocated ones. */
  method UpsertEndpoints(table: map<Address, Endpoint>, es: seq<NewEndpoint>)
    returns (endpoints: map<Address, Endpoint>)
    ensures endpoints == UpsertAll(table, es)
  {
    endpoints := table;
    for i := 0 to |es|
      invariant endpoints == Upsert(table, es[..i], true)
    {
      assert es[..i + 1][..i] == es[..i];
      if es[i].row.geoUpdatedAt.Some? {
        endpoints := endpoints[es[i].address := es[i].row];
      }
    }
    assert es[..|es|] == es;
    ghost var located := endpoints;
    for i := 0 to |es|
      invariant endpoints == Upsert(located, es[..i], false)
    {
      assert es[..i + 1][..i] == es[..i];
      if es[i].row.geoUpdatedAt.None? && es[i].address !in endpoints {
        endpoints := endpoints[es[i].address := Endpoint(false, None, None)];
      }
    }
  }

  method InsertRecords(
    table: map<RecordKey, Record>, endpoints: map<Address, Endpoint>, domain: Name,
    rs: seq<NewRecord>, minTtl: int, now: Time) returns (after: Option<map<RecordKey, Record>>)
    ensures after == Insert(table, endpoints, domain, rs, minTtl, now)
  {
    var records := table;
    for i := 0 to |rs|
      invariant Insert(table, endpoints, domain, rs[..i], minTtl, now) == Some(records)
    {
      assert rs[..i + 1][..i] == rs[..i];
      var key := RecordKey(domain, rs[i].rtype, rs[i].address, rs[i].resolver);
      if key in records || rs[i].address !in endpoints {
        InsertAborts(table, endpoints, domain, rs, i + 1, minTtl, now);
        return None;
      }
      records := records[key := Record(rs[i].ttl, now, now + Max(rs[i].ttl, minTtl) * SECOND)];
    }
    assert rs[..|rs|] == rs;
    return Some(records);
  }

  /** store_measurement. Returns false, with nothing changed, when the transaction rolled back. */
  method StoreMeasurement(
    store: Store, domain: Name, status: Status, retry: Option<int>,
    es: seq<NewEndpoint>, rs: seq<NewRecord>, now: Time) returns (ok: bool)
    modifies store
    ensures var after := Stored(old(store.db), domain, status, retry, es, rs, now);
            ok == after.Some? && store.db == if ok then after.value else old(store.db)
  {
    var db := store.db;
    var domains := db.domains;
    var retryAfter := if retry.Some? then Some(now + retry.value * SECOND) else None;
    if domain in domains {
      domains := domains[domain :=
        domains[domain].(status := status, measuredAt := Some(now), retryAfter := retryAfter)];
    } else {
      domains := domains[domain := Domain(status, now, Some(now), None, 0, retryAfter)];
    }
    if status.Unresolved? {
      store.db := db.(domains := domains);
      return true;
    }
    var endpoints := UpsertEndpoints(db.endpoints, es);
    var kept := WithoutRecords(db.records, domain);
    var records := InsertRecords(kept, endpoints, domain, rs, db.settings.minRecordTtl, now);
    if records.None? {
      return false;
    }
    store.db := db.(domains := domains, endpoints := endpoints, records := records.value);
    return true;
  }

  lemma {:induction false} InsertAborts(
    table: map<RecordKey, Record>, endpoints: map<Address, Endpoint>, domain: Name,
    rs: seq<NewRecord>, i: nat, minTtl: int, now: Time)
    requires i <= |rs| && Insert(table, endpoints, domain, rs[..i], minTtl, now).None?
    ensures Insert(table, endpoints, domain, rs, minTtl, now).None?
    decreases |rs| - i
  {
    if i < |rs| {
      assert rs[..i + 1][..i] == rs[..i];
      InsertAborts(table, endpoints, domain, rs, i + 1, minTtl, now);
    } else {
      assert rs[..i] == rs;
    }
  }

  /** What the INSERTs leave: the old rows, and one row per new record, keyed and timed as given. */
  lemma {:induction false} InsertedRows(
    table: map<RecordKey, Record>, endpoints: map<Address, Endpoint>, domain: Name,
    rs: seq<NewRecord>, minTtl: int, now: Time, k: RecordKey)
    requires Insert(table, endpoints, domain, rs, minTtl, now).Some?
    ensures var after := Insert(table, endpoints, domain, rs, minTtl, now).value;
            && (k in after <==> k in table || exists r :: r in rs && KeyOf(domain, r) == k)
            && (k in table ==> k in after && after[k] == table[k])
            && (k in after && k !in table ==>
                exists r :: r in rs && KeyOf(domain, r) == k && after[k] == RowOf(r, minTtl, now))
  {
    if rs != [] {
      InsertedRows(table, endpoints, domain, rs[..|rs| - 1], minTtl, now, k);
      assert rs == rs[..|rs| - 1] + [rs[|rs| - 1]];
    }
  }

  /** The transaction goes through exactly when no record repeats a key and every address has an endpoint. */
  lemma {:induction false} InsertSucceedsIff(
    table: map<RecordKey, Record>, endpoints: map<Address, Endpoint>, domain: Name,
    rs: seq<NewRecord>, minTtl: int, now: Time)
    requires forall k :: k in table ==> k.domain != domain
    ensures Insert(table, endpoints, domain, rs, minTtl, now).Some? <==>
            && (forall i, j :: 0 <= i < j < |rs| ==> KeyOf(domain, rs[i]) != KeyOf(domain, rs[j]))
            && (forall i :: 0 <= i < |rs| ==> rs[i].address in endpoints)
  {
    if rs != [] {
      var n := |rs| - 1;
      var before := Insert(table, endpoints, domain, rs[..n], minTtl, now);
      InsertSucceedsIff(table, endpoints, domain, rs[..n], minTtl, now);
      if before.Some? {
        InsertedRows(table, endpoints, domain, rs[..n], minTtl, now, KeyOf(domain, rs[n]));
        assert KeyOf(domain, rs[n]) in before.value <==>
            exists i :: 0 <= i < n && KeyOf(domain, rs[i]) == KeyOf(domain, rs[n]) by {
          if r :| r in rs[..n] && KeyOf(domain, r) == KeyOf(domain, rs[n]) {
            var i :| 0 <= i < n && rs[..n][i] == r;
            assert rs[i] == r;
          }
          if i :| 0 <= i < n && KeyOf(domain, rs[i]) == KeyOf(domain, rs[n]) {
            assert rs[..n][i] in rs[..n];
          }
        }
      }
    }
  }

  /**
   * A stored measurement that is not failed replaces the domain's records by exactly the measured
   * ones, each servable for at least min_record_ttl; every other domain keeps its records.
   */
  lemma StoredReplaces(
    db: Db, domain: Name, status: Status, retry: Option<int>,
    es: seq<NewEndpoint>, rs: seq<NewRecord>, now: Time, k: RecordKey)
    requires !status.Unresolved? && Stored(db, domain, status, retry, es, rs, now).Some?
    ensures var after := Stored(db, domain, status, retry, es, rs, now).value;
            && (k.domain == domain ==> (k in after.records <==> exists r :: r in rs && KeyOf(domain, r) == k))
            && (k.domain == domain && k in after.records ==>
                  exists r :: r in rs && KeyOf(domain, r) == k &&
                      after.records[k] == RowOf(r, db.settings.minRecordTtl, now))
            && (k.domain != domain ==>
                  (k in after.records <==> k in db.records) &&
                  (k in db.records ==> after.records[k] == db.records[k]))
  {
    InsertedRows(WithoutRecords(db.records, domain), UpsertAll(db.endpoints, es), domain, rs,
        db.settings.minRecordTtl, now, k);
  }

  /** A stored record's columns: its answer's TTL, resolved now, lasting the longer of that and min_record_ttl. */
  ghost predicate StoredAs(rec: Record, a: Answer, minTtl: int, now: Time) {
    && rec.ttl == (match a.ttl case Some(ttl) => ttl case None => 0)
    && rec.resolvedAt == now
    && rec.expiresAt == now + (if rec.ttl < minTtl then minTtl else rec.ttl) * 1_000_000
  }

  lemma AnswerStored(
    db: Db, domain: Name, status: Status, retry: Option<int>,
    es: seq<NewEndpoint>, answers: seq<Answer>, now: Time, k: RecordKey, j: nat)
    requires !status.Unresolved? && Stored(db, domain, status, retry, es, Records(answers), now).Some?
    requires k.domain == domain && j < |answers| && Names(k, answers[j])
    ensures k in Stored(db, domain, status, retry, es, Records(answers), now).value.records
  {
    StoredReplaces(db, domain, status, retry, es, Records(answers), now, k);
    var r := NewRecord(k.rtype, k.address, k.resolver, match answers[j].ttl case Some(ttl) => ttl case None => 0);
    RecordsExact(answers, r);
    assert RecordOf(r, answers[j]) && KeyOf(domain, r) == k;
  }

  /** The stored records on their columns: exactly one per answer and address, under the answer's type and resolver. */
  lemma StoredFromAnswers(
    db: Db, domain: Name, status: Status, retry: Option<int>,
    es: seq<NewEndpoint>, answers: seq<Answer>, now: Time, k: RecordKey) returns (j: nat)
    requires !status.Unresolved? && Stored(db, domain, status, retry, es, Records(answers), now).Some?
    requires k.domain == domain
    ensures var after := Stored(db, domain, status, retry, es, Records(answers), now).value;
            && (k in after.records <==> exists i :: 0 <= i < |answers| && Names(k, answers[i]))
            && (k in after.records ==>
                  j < |answers| && Names(k, answers[j]) &&
                  StoredAs(after.records[k], answers[j], db.settings.minRecordTtl, now))
  {
    StoredReplaces(db, domain, status, retry, es, Records(answers), now, k);
    var after := Stored(db, domain, status, retry, es, Records(answers), now).value;
    j := 0;
    if k in after.records {
      var r :| r in Records(answers) && KeyOf(domain, r) == k &&
               after.records[k] == RowOf(r, db.settings.minRecordTtl, now);
      RecordsExact(answers, r);
      j :| 0 <= j < |answers| && RecordOf(r, answers[j]);
    } else if i :| 0 <= i < |answers| && Names(k, answers[i]) {
      AnswerStored(db, domain, status, retry, es, answers, now, k, i);
    }
  }

  /** k is the key of a record of the answer. */
  ghost predicate Names(k: RecordKey, a: Answer) {
    k.rtype == a.rtype && k.resolver == a.resolver && k.address in a.addresses
  }

  /** The types stored by a measurement are those for which some resolver returned an address. */
  lemma StoredTypes(
    db: Db, domain: Name, status: Status, retry: Option<int>,
    es: seq<NewEndpoint>, answers: seq<Answer>, now: Time, t: RType)
    requires !status.Unresolved? && Stored(db, domain, status, retry, es, Records(answers), now).Some?
    ensures var after := Stored(db, domain, status, retry, es, Records(answers), now).value;
            t in Types(RecordsOf(after, domain)) <==> HasAddress(answers, t)
  {
    var rs := RecordsOf(Stored(db, domain, status, retry, es, Records(answers), now).value, domain);
    if t in Types(rs) {
      var k :| k in rs && k.rtype == t;
      StoredReplaces(db, domain, status, retry, es, Records(answers), now, k);
      var r :| r in Records(answers) && KeyOf(domain, r) == k;
      RecordsAreAnswers(answers, t, r.address);
    }
    if HasAddress(answers, t) {
      var j :| 0 <= j < |answers| && answers[j].rtype == t && answers[j].addresses != [];
      var a := answers[j].addresses[0];
      assert a in answers[j].addresses;
      RecordsAreAnswers(answers, t, a);
      var r :| r in Records(answers) && r.rtype == t && r.address == a;
      StoredReplaces(db, domain, status, retry, es, Records(answers), now, KeyOf(domain, r));
      assert KeyOf(domain, r) in rs;
    }
  }

  /** A stored record's address is known: it had an endpoint row, or the measurement brings one. */
  ghost predicate Located(db: Db, es: seq<NewEndpoint>, a: Address) {
    a in db.endpoints || exists i :: 0 <= i < |es| && es[i].address == a
  }

  lemma LocatedIff(db: Db, es: seq<NewEndpoint>, a: Address)
    requires DistinctAddresses(es)
    ensures a in UpsertAll(db.endpoints, es) <==> Located(db, es, a)
  {
    if i :| 0 <= i < |es| && es[i].address == a {
      EndpointsStored(db.endpoints, es, i);
    } else {
      EndpointsKept(db.endpoints, es, a);
    }
  }

  /**
   * The transaction goes through exactly when the outcome is failed, or no two records share type,
   * address and resolver and every address is known.
   */
  lemma StoredIff(
    db: Db, domain: Name, status: Status, retry: Option<int>,
    es: seq<NewEndpoint>, rs: seq<NewRecord>, now: Time)
    requires DistinctAddresses(es)
    ensures Stored(db, domain, status, retry, es, rs, now).Some? <==>
            || status.Unresolved?
            || (&& (forall i, j :: 0 <= i < j < |rs| ==>
                      (rs[i].rtype, rs[i].address, rs[i].resolver) != (rs[j].rtype, rs[j].address, rs[j].resolver))
                && (forall i :: 0 <= i < |rs| ==> Located(db, es, rs[i].address)))
  {
    InsertSucceedsIff(
      WithoutRecords(db.records, domain), UpsertAll(db.endpoints, es), domain, rs, db.settings.minRecordTtl, now);
    forall i | 0 <= i < |rs|
      ensures rs[i].address in UpsertAll(db.endpoints, es) <==> Located(db, es, rs[i].address)
    {
      LocatedIff(db, es, rs[i].address);
    }
  }

  /** The endpoints after a stored measurement: located ones as measured, unlocated ones added, all others kept. */
  lemma StoredEndpoints(
    db: Db, domain: Name, status: Status, retry: Option<int>,
    es: seq<NewEndpoint>, rs: seq<NewRecord>, now: Time, a: Address)
    requires DistinctAddresses(es) && !status.Unresolved? && Stored(db, domain, status, retry, es, rs, now).Some?
    ensures var (before, after) := (RowAt(db.endpoints, a),
                                    RowAt(Stored(db, domain, status, retry, es, rs, now).value.endpoints, a));
            && (forall i :: 0 <= i < |es| && es[i].address == a ==>
                  after == if es[i].row.geoUpdatedAt.Some? then Some(es[i].row)
                           else if before.Some? then before else Some(Endpoint(false, None, None)))
            && ((forall i :: 0 <= i < |es| ==> es[i].address != a) ==> after == before)
  {
    if i :| 0 <= i < |es| && es[i].address == a {
      EndpointsStored(db.endpoints, es, i);
    } else {
      EndpointsKept(db.endpoints, es, a);
    }
  }

  /** A failed measurement keeps every record; either way only this domain's row changes. */
  lemma StoredRows(
    db: Db, domain: Name, status: Status, retry: Option<int>,
    es: seq<NewEndpoint>, rs: seq<NewRecord>, now: Time)
    requires Stored(db, domain, status, retry, es, rs, now).Some?
    ensures var after := Stored(db, domain, status, retry, es, rs, now).value;
            && (status.Unresolved? ==> after.records == db.records && after.endpoints == db.endpoints)
            && domain in after.domains
            && after.domains[domain].status == status && after.domains[domain].measuredAt == Some(now)
            && (retry.None? <==> after.domains[domain].retryAfter.None?)
            && (retry.Some? ==> after.domains[domain].retryAfter == Some(now + retry.value * SECOND))
            && (domain !in db.domains ==>
                  && after.domains[domain].firstSeenAt == now && after.domains[domain].lastQueriedAt == None
                  && after.domains[domain].hitCount == 0)
            && (domain in db.domains ==>
                  after.domains[domain].(status := status, measuredAt := None, retryAfter := None) ==
                  db.domains[domain].(status := status, measuredAt := None, retryAfter := None))
            && (forall d :: d != domain ==> (d in after.domains <==> d in db.domains))
            && (forall d :: d != domain && d in db.domains ==> after.domains[d] == db.domains[d])
            && after.queue == db.queue && after.signals == db.signals && after.settings == db.settings
  {
  }
}
