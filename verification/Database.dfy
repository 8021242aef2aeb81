/**
 * The cadns schema (db/migrations): the tables the services and the resolver share.
 * A domain's id is identified with its unique name: deleting a domain deletes its records.
 */
module Database {
  import opened Common
  import opened Queue

  /** An inet value, by its canonical text. */
  datatype Address = Address(text: string)

  type Region = string

  datatype RType = A | AAAA

  datatype Status = Unmeasured | Resolved | NxDomain | NoData | Unresolved

  datatype Domain = Domain(
    status: Status,
    firstSeenAt: Time,
    measuredAt: Option<Time>,
    lastQueriedAt: Option<Time>,
    hitCount: int,
    retryAfter: Option<Time>)

  /** Primary key of rrset_records. */
  datatype RecordKey = RecordKey(domain: Name, rtype: RType, address: Address, resolver: Address)

  datatype Record = Record(ttl: nat, resolvedAt: Time, expiresAt: Time)

  /** The columns of endpoints that decide ranking and retention. */
  datatype Endpoint = Endpoint(isAnycast: bool, region: Option<Region>, geoUpdatedAt: Option<Time>)

  datatype SignalKey = SignalKey(region: Region, pointTime: Time)

  /** The single row of cadns.settings; the CHECK constraints are in ValidSettings. */
  datatype Settings = Settings(answerK: int, maxAnswerTtl: int, minRecordTtl: int, nsName: string, hostmaster: string)

  predicate ValidSettings(s: Settings) {
    s.answerK >= 1 && s.maxAnswerTtl >= 1 && 0 <= s.minRecordTtl <= 86400
  }

  datatype Db = Db(
    settings: Settings,
    domains: map<Name, Domain>,
    records: map<RecordKey, Record>,
    endpoints: map<Address, Endpoint>,
    signals: map<SignalKey, real>,
    queue: Table)

  /** The database as the object that the services change, one transaction at a time. */
  class Store {
    var db: Db

    constructor (db: Db)
      ensures this.db == db
    {
      this.db := db;
    }
  }

  // ----- normalize_name: lower(rtrim(name, '.')) -----

  function TrimDots(s: string): string {
    if s != "" && s[|s| - 1] == '.' then TrimDots(s[..|s| - 1]) else s
  }

  function Normalize(s: string): string {
    Lower(TrimDots(s))
  }

  // ----- what the queries read -----

  ghost function RecordsOf(db: Db, d: Name): map<RecordKey, Record> {
    map k | k in db.records && k.domain == d :: db.records[k]
  }

  ghost function Types(rs: map<RecordKey, Record>): set<RType> {
    set k | k in rs :: k.rtype
  }

  /** max(expires_at) ... GROUP BY rtype. */
  ghost function LastExpiry(rs: map<RecordKey, Record>, t: RType): (e: Time)
    requires t in Types(rs)
    ensures exists k :: k in rs && k.rtype == t && rs[k].expiresAt == e
    ensures forall k :: k in rs && k.rtype == t ==> rs[k].expiresAt <= e
  {
    var es := set k | k in rs && k.rtype == t :: rs[k].expiresAt;
    assert forall k :: k in rs && k.rtype == t ==> rs[k].expiresAt in es;
    var k :| k in rs && k.rtype == t;
    assert es != {};
    MaxOf(es)
  }

  /** min over types of max(expires_at), NULL without records. */
  ghost function ServedUntil(rs: map<RecordKey, Record>): Option<Time> {
    if rs == map[] then None
    else
      var k :| k in rs;
      var ends := set t | t in Types(rs) :: LastExpiry(rs, t);
      assert LastExpiry(rs, k.rtype) in ends;
      Some(MinOf(ends))
  }
}
