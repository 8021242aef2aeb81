/** The answer policy (db/migrations/0002_dlz_functions.sql): dlz_findzone and dlz_lookup. */
module AnswerPolicy {
  import opened Common
  import opened Queue
  import opened Database

  // ----- dlz_findzone -----

  /** bool_and over the stored types of "the type's last expiry is in the future", false without records. */
  ghost predicate Servable(rs: map<RecordKey, Record>, now: Time) {
    rs != map[] && forall t :: t in Types(rs) ==> LastExpiry(rs, t) > now
  }

  ghost predicate FindZone(db: Db, zone: string, now: Time) {
    Normalize(zone) in db.domains && Servable(RecordsOf(db, Normalize(zone)), now)
  }

  /** The served_domains gauge (services/src/cadns/metrics.py): no stored type has max(expires_at) <= now. */
  ghost predicate CountedAsServed(rs: map<RecordKey, Record>, now: Time) {
    (exists k :: k in rs) && !exists t :: t in Types(rs) && LastExpiry(rs, t) <= now
  }

  ghost predicate HasFresh(rs: map<RecordKey, Record>, t: RType, now: Time) {
    exists k :: k in rs && k.rtype == t && rs[k].expiresAt > now
  }

  /** Freshness said without aggregates: some record, and for each stored type a fresh one. */
  ghost predicate EveryTypeFresh(rs: map<RecordKey, Record>, now: Time) {
    rs != map[] && forall t :: t in Types(rs) ==> HasFresh(rs, t, now)
  }

  // ----- ranking -----

  /** The newest point of a region: ORDER BY point_time DESC LIMIT 1. */
  ghost function Latest(signals: map<SignalKey, real>, region: Region): Option<real> {
    var times := set k | k in signals && k.region == region :: k.pointTime;
    if times == {} then None else Some(signals[SignalKey(region, MaxOf(times))])
  }

  /** MOER of an address; unknown for anycast, unlocated, or signal-less endpoints. */
  ghost function Moer(db: Db, a: Address): Option<real> {
    if a in db.endpoints && !db.endpoints[a].isAnycast && db.endpoints[a].region.Some?
    then Latest(db.signals, db.endpoints[a].region.value) else None
  }

  /** ASC NULLS LAST, as "no dirtier than". */
  ghost predicate NoDirtier(x: Option<real>, y: Option<real>) {
    y.None? || (x.Some? && x.value <= y.value)
  }

  ghost function Insert(db: Db, a: Address, s: seq<Address>): seq<Address> {
    if s == [] || NoDirtier(Moer(db, a), Moer(db, s[0])) then [a] + s else [s[0]] + Insert(db, a, s[1..])
  }

  /** Ranks a random order of the candidates by MOER; equal MOER keeps the random order. */
  ghost function Rank(db: Db, shuffled: seq<Address>): seq<Address> {
    if shuffled == [] then [] else Insert(db, shuffled[0], Rank(db, shuffled[1..]))
  }

  ghost predicate Distinct<T(!new)>(s: seq<T>) {
    forall i, j :: 0 <= i < j < |s| ==> s[i] != s[j]
  }

  ghost predicate Greenest(db: Db, s: seq<Address>) {
    forall i, j :: 0 <= i < j < |s| ==> NoDirtier(Moer(db, s[i]), Moer(db, s[j]))
  }

  lemma {:induction false} InsertRanks(db: Db, a: Address, s: seq<Address>)
    requires Greenest(db, s) && Distinct(s) && a !in s
    ensures var r := Insert(db, a, s);
            |r| == |s| + 1 && Greenest(db, r) && Distinct(r) && forall x :: x in r <==> x == a || x in s
  {
    if s != [] && !NoDirtier(Moer(db, a), Moer(db, s[0])) {
      InsertRanks(db, a, s[1..]);
      var r := Insert(db, a, s);
      assert r == [s[0]] + Insert(db, a, s[1..]);
      forall j | 1 <= j < |r|
        ensures r[j] != s[0] && NoDirtier(Moer(db, s[0]), Moer(db, r[j]))
      {
        var x := Insert(db, a, s[1..])[j - 1];
        assert x in Insert(db, a, s[1..]);
        if x != a {
          var i :| 0 <= i < |s[1..]| && s[1..][i] == x;
          assert s[i + 1] == x;
        }
      }
    }
  }

  lemma {:induction false} RankSorts(db: Db, shuffled: seq<Address>)
    requires Distinct(shuffled)
    ensures var r := Rank(db, shuffled);
            |r| == |shuffled| && Greenest(db, r) && Distinct(r) && forall x :: x in r <==> x in shuffled
  {
    if shuffled != [] {
      RankSorts(db, shuffled[1..]);
      InsertRanks(db, shuffled[0], Rank(db, shuffled[1..]));
      assert forall x :: x in shuffled <==> x == shuffled[0] || x in shuffled[1..];
    }
  }

  /** Every legal ranking arises from some random order: ranking a ranking changes nothing. */
  lemma {:induction false} EveryRankingArises(db: Db, ranking: seq<Address>)
    requires Greenest(db, ranking)
    ensures Rank(db, ranking) == ranking
  {
    if ranking != [] {
      EveryRankingArises(db, ranking[1..]);
      assert Rank(db, ranking) == Insert(db, ranking[0], ranking[1..]);
    }
  }

  // ----- dlz_lookup -----

  datatype RData =
    | Soa(nsName: string, hostmaster: string, serial: int, refresh: int, retry: int, expire: int, minimum: int)
    | Ns(nsName: string)
    | Host(rtype: RType, address: Address)

  datatype AnswerRow = AnswerRow(ttl: int, data: RData)

  /** One random() order of the candidates of each type. */
  datatype Shuffle = Shuffle(a: seq<Address>, aaaa: seq<Address>) {
    function For(t: RType): seq<Address> {
      if t.A? then a else aaaa
    }
  }

  /** Fresh records of one address: an address stays a candidate while any resolver's record does. */
  ghost function FreshKeys(rs: map<RecordKey, Record>, t: RType, a: Address, now: Time): set<RecordKey> {
    set k | k in rs && k.rtype == t && k.address == a && rs[k].expiresAt > now
  }

  ghost function Candidates(rs: map<RecordKey, Record>, t: RType, now: Time): set<Address> {
    set k | k in rs && k.rtype == t && rs[k].expiresAt > now :: k.address
  }

  ghost function ExpiryOf(rs: map<RecordKey, Record>, t: RType, a: Address, now: Time): (e: Time)
    requires a in Candidates(rs, t, now)
    ensures e > now
    ensures exists k :: k in FreshKeys(rs, t, a, now) && rs[k].expiresAt == e
    ensures forall k :: k in FreshKeys(rs, t, a, now) ==> rs[k].expiresAt <= e
  {
    var keys := FreshKeys(rs, t, a, now);
    var es := set k | k in keys :: rs[k].expiresAt;
    assert forall k :: k in keys ==> rs[k].expiresAt in es;
    var k :| k in rs && k.rtype == t && k.address == a && rs[k].expiresAt > now;
    assert k in keys;
    MaxOf(es)
  }

  ghost function ResolvedOf(rs: map<RecordKey, Record>, t: RType, a: Address, now: Time): (e: Time)
    requires a in Candidates(rs, t, now)
    ensures exists k :: k in FreshKeys(rs, t, a, now) && rs[k].resolvedAt == e
    ensures forall k :: k in FreshKeys(rs, t, a, now) ==> rs[k].resolvedAt <= e
  {
    var keys := FreshKeys(rs, t, a, now);
    var es := set k | k in keys :: rs[k].resolvedAt;
    assert forall k :: k in keys ==> rs[k].resolvedAt in es;
    var k :| k in rs && k.rtype == t && k.address == a && rs[k].expiresAt > now;
    assert k in keys && rs[k].resolvedAt in es;
    MaxOf(es)
  }

  ghost predicate IsShuffle(rs: map<RecordKey, Record>, now: Time, sh: Shuffle) {
    forall t: RType :: Distinct(sh.For(t)) && (forall x :: x in sh.For(t) <==> x in Candidates(rs, t, now))
  }

  function Take<T>(s: seq<T>, k: int): seq<T> {
    if k <= 0 then [] else if |s| <= k then s else s[..k]
  }

  ghost function Chosen(db: Db, t: RType, sh: Shuffle): seq<Address> {
    Take(Rank(db, sh.For(t)), db.settings.answerK)
  }

  ghost predicate Fresh(rs: map<RecordKey, Record>, t: RType, now: Time, chosen: seq<Address>) {
    forall a :: a in chosen ==> a in Candidates(rs, t, now)
  }

  /** greatest(1, least(max_answer_ttl, whole seconds until the first chosen address expires)). */
  ghost function RRsetTtl(s: Settings, rs: map<RecordKey, Record>, t: RType, now: Time, chosen: seq<Address>): int
    requires chosen != [] && Fresh(rs, t, now, chosen)
  {
    var es := set a | a in chosen :: ExpiryOf(rs, t, a, now);
    assert ExpiryOf(rs, t, chosen[0], now) in es;
    Max(1, Min(s.maxAnswerTtl, (MinOf(es) - now) / SECOND))
  }

  ghost function HostRows(ttl: int, t: RType, chosen: seq<Address>): seq<AnswerRow> {
    seq(|chosen|, i requires 0 <= i < |chosen| => AnswerRow(ttl, Host(t, chosen[i])))
  }

  /** The resolution times of the chosen addresses of a type. */
  ghost function Resolutions(rs: map<RecordKey, Record>, t: RType, now: Time, chosen: seq<Address>): (times: set<Time>)
    requires Fresh(rs, t, now, chosen)
    ensures chosen != [] ==> times != {}
  {
    var times := set a | a in chosen :: ResolvedOf(rs, t, a, now);
    assert chosen != [] ==> ResolvedOf(rs, t, chosen[0], now) in times;
    times
  }

  /** floor(extract(epoch FROM max(resolved_at))) % 2^32 over all chosen rows. */
  ghost function Serial(rs: map<RecordKey, Record>, now: Time, ca: seq<Address>, cb: seq<Address>): int
    requires ca != [] || cb != []
    requires Fresh(rs, A, now, ca) && Fresh(rs, AAAA, now, cb)
  {
    (MaxOf(Resolutions(rs, A, now, ca) + Resolutions(rs, AAAA, now, cb)) / SECOND) % 0x1_0000_0000
  }

  /** Only the zone apex has data. */
  predicate IsApex(zone: string, record: string) {
    record == "@" || record == "" || Normalize(record) == Normalize(zone)
  }

  lemma ChosenAreCandidates(db: Db, rs: map<RecordKey, Record>, now: Time, sh: Shuffle, t: RType)
    requires IsShuffle(rs, now, sh)
    ensures var c := Chosen(db, t, sh);
            && Distinct(c) && Greenest(db, c)
            && (forall a :: a in c ==> a in Candidates(rs, t, now))
            && (forall a, b :: a in c && b in Candidates(rs, t, now) && b !in c ==> NoDirtier(Moer(db, a), Moer(db, b)))
            && |c| == Min(Max(0, db.settings.answerK), |Candidates(rs, t, now)|)
  {
    assert Distinct(sh.For(t));
    RankSorts(db, sh.For(t));
    var ranked := Rank(db, sh.For(t));
    var c := Chosen(db, t, sh);
    assert (set x | x in ranked) == Candidates(rs, t, now);
    DistinctSize(ranked);
    forall a, b | a in c && b in Candidates(rs, t, now) && b !in c
      ensures NoDirtier(Moer(db, a), Moer(db, b))
    {
      var i :| 0 <= i < |c| && c[i] == a;
      assert b in ranked;
      var j :| 0 <= j < |ranked| && ranked[j] == b;
      assert c[i] == ranked[i];
      assert i < j;
    }
  }

  lemma ChosenFresh(db: Db, rs: map<RecordKey, Record>, now: Time, sh: Shuffle, t: RType)
    requires IsShuffle(rs, now, sh)
    ensures Fresh(rs, t, now, Chosen(db, t, sh))
  {
    ChosenAreCandidates(db, rs, now, sh, t);
  }

  lemma {:induction false} DistinctSize<T>(s: seq<T>)
    requires forall i, j :: 0 <= i < j < |s| ==> s[i] != s[j]
    ensures |set x | x in s| == |s|
  {
    if s != [] {
      DistinctSize(s[1..]);
      assert (set x | x in s) == (set x | x in s[1..]) + {s[0]};
    }
  }

  /** SOA, NS, then the A rows and the AAAA rows in rank order. */
  ghost function Rows(
    s: Settings, serial: int, ttl: int, ttlA: int, ca: seq<Address>, ttlB: int, cb: seq<Address>): seq<AnswerRow>
  {
    [AnswerRow(ttl, Soa(s.nsName, s.hostmaster, serial, 3600, 600, 86400, ttl)), AnswerRow(ttl, Ns(s.nsName))]
    + HostRows(ttlA, A, ca) + HostRows(ttlB, AAAA, cb)
  }

  /** The TTL of a type's rows, if it has any. */
  ghost function TtlOf(s: Settings, rs: map<RecordKey, Record>, t: RType, now: Time, chosen: seq<Address>): int
    requires Fresh(rs, t, now, chosen)
  {
    if chosen == [] then 0 else RRsetTtl(s, rs, t, now, chosen)
  }

  /** The rows of an answer, given the chosen addresses of each type in rank order. */
  ghost function Assemble(
    s: Settings, rs: map<RecordKey, Record>, now: Time, ca: seq<Address>, cb: seq<Address>): seq<AnswerRow>
    requires Fresh(rs, A, now, ca) && Fresh(rs, AAAA, now, cb)
  {
    if ca == [] && cb == [] then []
    else
      var ttlA, ttlB := TtlOf(s, rs, A, now, ca), TtlOf(s, rs, AAAA, now, cb);
      var ttl := if cb == [] then ttlA else if ca == [] then ttlB else Min(ttlA, ttlB);
      Rows(s, Serial(rs, now, ca, cb), ttl, ttlA, ca, ttlB, cb)
  }

  ghost function Lookup(db: Db, zone: string, record: string, now: Time, sh: Shuffle): seq<AnswerRow>
    requires IsShuffle(RecordsOf(db, Normalize(zone)), now, sh)
  {
    var rs := RecordsOf(db, Normalize(zone));
    ChosenFresh(db, rs, now, sh, A);
    ChosenFresh(db, rs, now, sh, AAAA);
    if IsApex(zone, record) && FindZone(db, zone, now)
    then Assemble(db.settings, rs, now, Chosen(db, A, sh), Chosen(db, AAAA, sh)) else []
  }
}
