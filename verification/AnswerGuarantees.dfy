/** What the answer policy promises, stated on its answers alone, for every random order of the candidates. */
module AnswerGuarantees {
  import opened Common
  import opened Queue
  import opened Database
  import opened AnswerPolicy
  import opened DlzThread

  // ----- the forms of freshness -----

  lemma ServedUntilIsEarliest(rs: map<RecordKey, Record>, now: Time)
    ensures Servable(rs, now) <==> ServedUntil(rs).Some? && now < ServedUntil(rs).value
  {
    if rs != map[] {
      var ends := set t | t in Types(rs) :: LastExpiry(rs, t);
      assert forall t :: t in Types(rs) ==> LastExpiry(rs, t) in ends;
    }
  }

  lemma LastExpiryMeansFresh(rs: map<RecordKey, Record>, t: RType, now: Time)
    requires t in Types(rs)
    ensures LastExpiry(rs, t) > now <==> HasFresh(rs, t, now)
  {
  }

  lemma ServableMeansFresh(rs: map<RecordKey, Record>, now: Time)
    ensures Servable(rs, now) <==> EveryTypeFresh(rs, now)
    ensures Servable(rs, now) <==> CountedAsServed(rs, now)
  {
    forall t | t in Types(rs)
      ensures LastExpiry(rs, t) > now <==> HasFresh(rs, t, now)
    {
      LastExpiryMeansFresh(rs, t, now);
    }
    if rs != map[] {
      var k :| k in rs;
    }
  }

  /**
   * dlz_findzone, the monitor's "served until" and the metrics gauge agree at every instant: all
   * three say that a record is stored and every stored type still has a fresh one.
   */
  lemma FreshnessFormsAgree(db: Db, zone: string, now: Time)
    ensures var d := Normalize(zone);
            var rs := RecordsOf(db, d);
            && (FindZone(db, zone, now) <==> d in db.domains && EveryTypeFresh(rs, now))
            && (FindZone(db, zone, now) <==> d in db.domains && ServedUntil(rs).Some? && now < ServedUntil(rs).value)
            && (FindZone(db, zone, now) <==> d in db.domains && CountedAsServed(rs, now))
  {
    ServedUntilIsEarliest(RecordsOf(db, Normalize(zone)), now);
    ServableMeansFresh(RecordsOf(db, Normalize(zone)), now);
  }

  /** In a served name the stored types are those with candidates. */
  lemma StoredTypesHaveCandidates(rs: map<RecordKey, Record>, now: Time, t: RType)
    requires Servable(rs, now)
    ensures t in Types(rs) <==> |Candidates(rs, t, now)| >= 1
  {
    if t in Types(rs) {
      LastExpiryMeansFresh(rs, t, now);
      var k :| k in rs && k.rtype == t && rs[k].expiresAt > now;
      assert k.address in Candidates(rs, t, now);
    } else {
      assert Candidates(rs, t, now) == {};
    }
  }

  /** A served name has something to answer with: in one of the types an address is chosen. */
  lemma ServableChooses(db: Db, rs: map<RecordKey, Record>, now: Time, sh: Shuffle)
    requires db.settings.answerK >= 1 && IsShuffle(rs, now, sh) && Servable(rs, now)
    ensures Chosen(db, A, sh) != [] || Chosen(db, AAAA, sh) != []
  {
    var k :| k in rs;
    assert k.rtype in Types(rs);
    StoredTypesHaveCandidates(rs, now, k.rtype);
    ChosenAreCandidates(db, rs, now, sh, k.rtype);
  }

  /** The apex answer is non-empty exactly when the name is served, and nothing else ever has data. */
  lemma LookupNonEmptyIffServed(db: Db, zone: string, record: string, now: Time, sh: Shuffle)
    requires db.settings.answerK >= 1
    requires IsShuffle(RecordsOf(db, Normalize(zone)), now, sh)
    ensures Lookup(db, zone, record, now, sh) != [] <==> IsApex(zone, record) && FindZone(db, zone, now)
  {
    if FindZone(db, zone, now) {
      ServableChooses(db, RecordsOf(db, Normalize(zone)), now, sh);
    }
  }

  // ----- reading an answer -----

  ghost predicate IsHost(row: AnswerRow, t: RType) {
    row.data.Host? && row.data.rtype == t
  }

  ghost function Emitted(answer: seq<AnswerRow>, t: RType): set<Address> {
    set i | 0 <= i < |answer| && IsHost(answer[i], t) :: answer[i].data.address
  }

  ghost function ByType<T>(t: RType, a: T, b: T): T {
    if t.A? then a else b
  }

  lemma RowsShape(
    s: Settings, serial: int, ttl: int, ttlA: int, ca: seq<Address>, ttlB: int, cb: seq<Address>, t: RType)
    ensures var answer, c, from := Rows(s, serial, ttl, ttlA, ca, ttlB, cb), ByType(t, ca, cb), ByType(t, 2, 2 + |ca|);
            && |answer| == 2 + |ca| + |cb|
            && (forall i :: 0 <= i < |answer| ==> (IsHost(answer[i], t) <==> from <= i < from + |c|))
            && (forall i :: from <= i < from + |c| ==>
                answer[i] == AnswerRow(ByType(t, ttlA, ttlB), Host(t, c[i - from])))
  {
  }

  lemma EmittedBlock(answer: seq<AnswerRow>, t: RType, from: nat, c: seq<Address>)
    requires from + |c| <= |answer|
    requires forall i :: 0 <= i < |answer| ==> (IsHost(answer[i], t) <==> from <= i < from + |c|)
    requires forall i :: from <= i < from + |c| ==> answer[i].data.Host? && answer[i].data.address == c[i - from]
    ensures Emitted(answer, t) == set a | a in c
  {
    forall a | a in c
      ensures a in Emitted(answer, t)
    {
      var i :| 0 <= i < |c| && c[i] == a;
      assert IsHost(answer[from + i], t) && answer[from + i].data.address == a;
    }
  }

  lemma RowsEmitted(
    s: Settings, serial: int, ttl: int, ttlA: int, ca: seq<Address>, ttlB: int, cb: seq<Address>, t: RType)
    ensures Emitted(Rows(s, serial, ttl, ttlA, ca, ttlB, cb), t) == set a | a in ByType(t, ca, cb)
  {
    RowsShape(s, serial, ttl, ttlA, ca, ttlB, cb, t);
    EmittedBlock(Rows(s, serial, ttl, ttlA, ca, ttlB, cb), t, ByType(t, 2, 2 + |ca|), ByType(t, ca, cb));
  }

  /** The answer of a served name: its rows, and where the TTLs and the serial in them come from. */
  lemma ServedAnswer(db: Db, zone: string, record: string, now: Time, sh: Shuffle)
    returns (serial: int, ttl: int, ttlA: int, ttlB: int)
    requires ValidSettings(db.settings)
    requires IsShuffle(RecordsOf(db, Normalize(zone)), now, sh)
    requires IsApex(zone, record) && FindZone(db, zone, now)
    ensures var rs, ca, cb := RecordsOf(db, Normalize(zone)), Chosen(db, A, sh), Chosen(db, AAAA, sh);
            && Fresh(rs, A, now, ca) && Fresh(rs, AAAA, now, cb) && (ca != [] || cb != [])
            && serial == Serial(rs, now, ca, cb)
            && ttlA == TtlOf(db.settings, rs, A, now, ca) && ttlB == TtlOf(db.settings, rs, AAAA, now, cb)
            && (ttl == if cb == [] then ttlA else if ca == [] then ttlB else Min(ttlA, ttlB))
            && Lookup(db, zone, record, now, sh) == Rows(db.settings, serial, ttl, ttlA, ca, ttlB, cb)
  {
    var rs, ca, cb := RecordsOf(db, Normalize(zone)), Chosen(db, A, sh), Chosen(db, AAAA, sh);
    ServableChooses(db, rs, now, sh);
    ChosenFresh(db, rs, now, sh, A);
    ChosenFresh(db, rs, now, sh, AAAA);
    serial := Serial(rs, now, ca, cb);
    ttlA, ttlB := TtlOf(db.settings, rs, A, now, ca), TtlOf(db.settings, rs, AAAA, now, cb);
    ttl := if cb == [] then ttlA else if ca == [] then ttlB else Min(ttlA, ttlB);
  }

  /**
   * Greenest answer: per type, min(k, candidates) distinct fresh addresses, in order of MOER, and
   * none dirtier than a candidate left out; exactly the stored types of a served name are answered.
   */
  lemma GreenestAnswer(db: Db, zone: string, record: string, now: Time, sh: Shuffle, t: RType)
    requires ValidSettings(db.settings)
    requires IsShuffle(RecordsOf(db, Normalize(zone)), now, sh)
    requires IsApex(zone, record) && FindZone(db, zone, now)
    ensures var answer := Lookup(db, zone, record, now, sh);
            var rs := RecordsOf(db, Normalize(zone));
            var cands := Candidates(rs, t, now);
            var out := Emitted(answer, t);
            && out <= cands
            && |out| == Min(db.settings.answerK, |cands|)
            && (forall a, b :: a in out && b in cands && b !in out ==> NoDirtier(Moer(db, a), Moer(db, b)))
            && (t in Types(rs) <==> out != {})
  {
    var rs := RecordsOf(db, Normalize(zone));
    var serial, ttl, ttlA, ttlB := ServedAnswer(db, zone, record, now, sh);
    RowsEmitted(db.settings, serial, ttl, ttlA, Chosen(db, A, sh), ttlB, Chosen(db, AAAA, sh), t);
    ChosenAreCandidates(db, rs, now, sh, t);
    DistinctSize(Chosen(db, t, sh));
    StoredTypesHaveCandidates(rs, now, t);
  }

  lemma RowAddress(
    s: Settings, serial: int, ttl: int, ttlA: int, ca: seq<Address>, ttlB: int, cb: seq<Address>, t: RType, i: nat)
    requires i < |Rows(s, serial, ttl, ttlA, ca, ttlB, cb)| && IsHost(Rows(s, serial, ttl, ttlA, ca, ttlB, cb)[i], t)
    ensures var c, k := ByType(t, ca, cb), i - ByType(t, 2, 2 + |ca|);
            && 0 <= k < |c|
            && Rows(s, serial, ttl, ttlA, ca, ttlB, cb)[i] == AnswerRow(ByType(t, ttlA, ttlB), Host(t, c[k]))
  {
    RowsShape(s, serial, ttl, ttlA, ca, ttlB, cb, t);
  }

  /** The rows of a type come in order of MOER and never repeat an address. */
  lemma RowsInRankOrder(db: Db, zone: string, record: string, now: Time, sh: Shuffle, t: RType, i: nat, j: nat)
    requires ValidSettings(db.settings)
    requires IsShuffle(RecordsOf(db, Normalize(zone)), now, sh)
    requires IsApex(zone, record) && FindZone(db, zone, now)
    requires var answer := Lookup(db, zone, record, now, sh);
             i < j < |answer| && IsHost(answer[i], t) && IsHost(answer[j], t)
    ensures var answer := Lookup(db, zone, record, now, sh);
            && answer[i].data.address != answer[j].data.address
            && NoDirtier(Moer(db, answer[i].data.address), Moer(db, answer[j].data.address))
  {
    var serial, ttl, ttlA, ttlB := ServedAnswer(db, zone, record, now, sh);
    RowAddress(db.settings, serial, ttl, ttlA, Chosen(db, A, sh), ttlB, Chosen(db, AAAA, sh), t, i);
    RowAddress(db.settings, serial, ttl, ttlA, Chosen(db, A, sh), ttlB, Chosen(db, AAAA, sh), t, j);
    ChosenAreCandidates(db, RecordsOf(db, Normalize(zone)), now, sh, t);
  }

  lemma RRsetTtlBounds(s: Settings, rs: map<RecordKey, Record>, t: RType, now: Time, chosen: seq<Address>)
    requires s.maxAnswerTtl >= 1
    requires chosen != [] && Fresh(rs, t, now, chosen)
    ensures var ttl := TtlOf(s, rs, t, now, chosen);
            && 1 <= ttl <= s.maxAnswerTtl
            && (ttl == 1 || forall a :: a in chosen ==> now + ttl * SECOND <= ExpiryOf(rs, t, a, now))
  {
    var es := set a | a in chosen :: ExpiryOf(rs, t, a, now);
    assert ExpiryOf(rs, t, chosen[0], now) in es;
    assert forall a :: a in chosen ==> ExpiryOf(rs, t, a, now) in es;
  }

  /**
   * TTLs of the address rows: one TTL per type (section 5.2 of RFC 2181), within 1..max_answer_ttl,
   * that does not pass the expiry of any returned address, but for the one-second floor.
   */
  lemma HostTtls(db: Db, zone: string, record: string, now: Time, sh: Shuffle, t: RType, i: nat, j: nat)
    requires ValidSettings(db.settings)
    requires IsShuffle(RecordsOf(db, Normalize(zone)), now, sh)
    requires IsApex(zone, record) && FindZone(db, zone, now)
    requires var answer := Lookup(db, zone, record, now, sh);
             i < |answer| && j < |answer| && IsHost(answer[i], t) && IsHost(answer[j], t)
    ensures var answer, rs := Lookup(db, zone, record, now, sh), RecordsOf(db, Normalize(zone));
            && answer[i].ttl == answer[j].ttl
            && 1 <= answer[i].ttl <= db.settings.maxAnswerTtl
            && answer[i].data.address in Candidates(rs, t, now)
            && (answer[i].ttl == 1 || now + answer[i].ttl * SECOND <= ExpiryOf(rs, t, answer[i].data.address, now))
  {
    TypeTtl(db, zone, record, now, sh, t, i);
    TypeTtl(db, zone, record, now, sh, t, j);
    var rs, c := RecordsOf(db, Normalize(zone)), Chosen(db, t, sh);
    RRsetTtlBounds(db.settings, rs, t, now, c);
    assert Lookup(db, zone, record, now, sh)[i].data.address in Emitted(Lookup(db, zone, record, now, sh), t);
  }

  lemma FirstToExpire(s: Settings, rs: map<RecordKey, Record>, t: RType, now: Time, chosen: seq<Address>)
    returns (a: Address)
    requires s.maxAnswerTtl >= 1
    requires chosen != [] && Fresh(rs, t, now, chosen)
    ensures a in chosen
    ensures var ttl := TtlOf(s, rs, t, now, chosen);
            ttl == s.maxAnswerTtl || ExpiryOf(rs, t, a, now) < now + (ttl + 1) * SECOND
  {
    var es := set a | a in chosen :: ExpiryOf(rs, t, a, now);
    assert ExpiryOf(rs, t, chosen[0], now) in es;
    a :| a in chosen && ExpiryOf(rs, t, a, now) == MinOf(es);
  }

  /** The TTL is as long as that allows: one second more would pass the cap or outlive a returned address. */
  lemma TtlIsLongest(db: Db, zone: string, record: string, now: Time, sh: Shuffle, t: RType, i: nat)
    returns (a: Address)
    requires ValidSettings(db.settings)
    requires IsShuffle(RecordsOf(db, Normalize(zone)), now, sh)
    requires IsApex(zone, record) && FindZone(db, zone, now)
    requires var answer := Lookup(db, zone, record, now, sh); i < |answer| && IsHost(answer[i], t)
    ensures var answer, rs := Lookup(db, zone, record, now, sh), RecordsOf(db, Normalize(zone));
            && a in Emitted(answer, t) && a in Candidates(rs, t, now)
            && (answer[i].ttl == db.settings.maxAnswerTtl ||
                ExpiryOf(rs, t, a, now) < now + (answer[i].ttl + 1) * SECOND)
  {
    var rs, c := RecordsOf(db, Normalize(zone)), Chosen(db, t, sh);
    TypeTtl(db, zone, record, now, sh, t, i);
    a := FirstToExpire(db.settings, rs, t, now, c);
  }

  /** A row of a type carries the TTL computed from the chosen addresses, which are the emitted ones. */
  lemma TypeTtl(db: Db, zone: string, record: string, now: Time, sh: Shuffle, t: RType, i: nat)
    requires ValidSettings(db.settings)
    requires IsShuffle(RecordsOf(db, Normalize(zone)), now, sh)
    requires IsApex(zone, record) && FindZone(db, zone, now)
    requires var answer := Lookup(db, zone, record, now, sh); i < |answer| && IsHost(answer[i], t)
    ensures var answer, rs, c := Lookup(db, zone, record, now, sh), RecordsOf(db, Normalize(zone)), Chosen(db, t, sh);
            && c != [] && Fresh(rs, t, now, c) && Emitted(answer, t) == (set a | a in c)
            && answer[i].ttl == TtlOf(db.settings, rs, t, now, c)
  {
    var serial, ttl, ttlA, ttlB := ServedAnswer(db, zone, record, now, sh);
    var ca, cb := Chosen(db, A, sh), Chosen(db, AAAA, sh);
    RowAddress(db.settings, serial, ttl, ttlA, ca, ttlB, cb, t, i);
    RowsEmitted(db.settings, serial, ttl, ttlA, ca, ttlB, cb, t);
  }

  lemma HeadOfRows(s: Settings, serial: int, ttl: int, ttlA: int, ca: seq<Address>, ttlB: int, cb: seq<Address>)
    requires ca != [] || cb != []
    requires ttl == if cb == [] then ttlA else if ca == [] then ttlB else Min(ttlA, ttlB)
    ensures var answer := Rows(s, serial, ttl, ttlA, ca, ttlB, cb);
            && |answer| >= 3
            && answer[0].data.Soa? && answer[1].data.Ns?
            && answer[0].ttl == answer[1].ttl == answer[0].data.minimum == ttl
            && (forall i :: 2 <= i < |answer| ==> answer[i].data.Host? && ttl <= answer[i].ttl)
            && (answer[2].ttl == ttl || answer[|answer| - 1].ttl == ttl)
  {
  }

  /** SOA and NS come first and carry the smallest address TTL, which is also the SOA minimum. */
  lemma ApexTtls(db: Db, zone: string, record: string, now: Time, sh: Shuffle)
    requires ValidSettings(db.settings)
    requires IsShuffle(RecordsOf(db, Normalize(zone)), now, sh)
    requires IsApex(zone, record) && FindZone(db, zone, now)
    ensures var answer := Lookup(db, zone, record, now, sh);
            && |answer| >= 3
            && answer[0].data.Soa? && answer[1].data.Ns?
            && answer[0].ttl == answer[1].ttl == answer[0].data.minimum
            && (forall i :: 2 <= i < |answer| ==> answer[i].data.Host? && answer[0].ttl <= answer[i].ttl)
            && (answer[2].ttl == answer[0].ttl || answer[|answer| - 1].ttl == answer[0].ttl)
  {
    var serial, ttl, ttlA, ttlB := ServedAnswer(db, zone, record, now, sh);
    HeadOfRows(db.settings, serial, ttl, ttlA, Chosen(db, A, sh), ttlB, Chosen(db, AAAA, sh));
  }

  lemma NewestResolution(rs: map<RecordKey, Record>, now: Time, ca: seq<Address>, cb: seq<Address>)
    returns (newest: Time)
    requires Fresh(rs, A, now, ca) && Fresh(rs, AAAA, now, cb) && (ca != [] || cb != [])
    ensures Serial(rs, now, ca, cb) == (newest / SECOND) % 0x1_0000_0000
    ensures forall a :: a in ca ==> ResolvedOf(rs, A, a, now) <= newest
    ensures forall a :: a in cb ==> ResolvedOf(rs, AAAA, a, now) <= newest
    ensures (exists a :: a in ca && ResolvedOf(rs, A, a, now) == newest) ||
            (exists a :: a in cb && ResolvedOf(rs, AAAA, a, now) == newest)
  {
    ResolutionsAre(rs, A, now, ca);
    ResolutionsAre(rs, AAAA, now, cb);
    newest := MaxOf(Resolutions(rs, A, now, ca) + Resolutions(rs, AAAA, now, cb));
  }

  /** The emitted addresses of a type are the chosen ones; the SOA comes first with their serial. */
  lemma SoaSerial(db: Db, zone: string, record: string, now: Time, sh: Shuffle)
    requires ValidSettings(db.settings)
    requires IsShuffle(RecordsOf(db, Normalize(zone)), now, sh)
    requires IsApex(zone, record) && FindZone(db, zone, now)
    ensures var answer, rs := Lookup(db, zone, record, now, sh), RecordsOf(db, Normalize(zone));
            var ca, cb := Chosen(db, A, sh), Chosen(db, AAAA, sh);
            && Fresh(rs, A, now, ca) && Fresh(rs, AAAA, now, cb) && (ca != [] || cb != [])
            && answer != [] && answer[0].data.Soa? && answer[0].data.serial == Serial(rs, now, ca, cb)
            && Emitted(answer, A) == (set a | a in ca) && Emitted(answer, AAAA) == (set a | a in cb)
  {
    var serial, ttl, ttlA, ttlB := ServedAnswer(db, zone, record, now, sh);
    var ca, cb := Chosen(db, A, sh), Chosen(db, AAAA, sh);
    RowsEmitted(db.settings, serial, ttl, ttlA, ca, ttlB, cb, A);
    RowsEmitted(db.settings, serial, ttl, ttlA, ca, ttlB, cb, AAAA);
  }

  /** The SOA serial is the newest resolution time among the returned addresses, in seconds modulo 2^32. */
  lemma SerialIsNewest(db: Db, zone: string, record: string, now: Time, sh: Shuffle)
    returns (newest: Time, t: RType, a: Address)
    requires ValidSettings(db.settings)
    requires IsShuffle(RecordsOf(db, Normalize(zone)), now, sh)
    requires IsApex(zone, record) && FindZone(db, zone, now)
    ensures var answer, rs := Lookup(db, zone, record, now, sh), RecordsOf(db, Normalize(zone));
            && answer != [] && answer[0].data.Soa? && answer[0].data.serial == (newest / SECOND) % 0x1_0000_0000
            && a in Emitted(answer, t) && a in Candidates(rs, t, now) && ResolvedOf(rs, t, a, now) == newest
            && (forall b :: b in Emitted(answer, A) ==>
                b in Candidates(rs, A, now) && ResolvedOf(rs, A, b, now) <= newest)
            && (forall b :: b in Emitted(answer, AAAA) ==>
                b in Candidates(rs, AAAA, now) && ResolvedOf(rs, AAAA, b, now) <= newest)
  {
    var rs := RecordsOf(db, Normalize(zone));
    var ca, cb := Chosen(db, A, sh), Chosen(db, AAAA, sh);
    SoaSerial(db, zone, record, now, sh);
    newest := NewestResolution(rs, now, ca, cb);
    if x :| x in ca && ResolvedOf(rs, A, x, now) == newest {
      t, a := A, x;
    } else {
      t := AAAA;
      a :| a in cb && ResolvedOf(rs, AAAA, a, now) == newest;
    }
  }

  lemma ResolutionsAre(rs: map<RecordKey, Record>, t: RType, now: Time, chosen: seq<Address>)
    requires Fresh(rs, t, now, chosen)
    ensures forall a :: a in chosen ==> ResolvedOf(rs, t, a, now) in Resolutions(rs, t, now, chosen)
    ensures forall x :: x in Resolutions(rs, t, now, chosen) ==>
        exists a :: a in chosen && ResolvedOf(rs, t, a, now) == x
  {
  }

  /** Rows in an answer: it stays within the resolver module's limit when its two address sets do. */
  lemma AnswerSize(db: Db, zone: string, record: string, now: Time, sh: Shuffle)
    requires ValidSettings(db.settings)
    requires IsShuffle(RecordsOf(db, Normalize(zone)), now, sh)
    requires IsApex(zone, record) && FindZone(db, zone, now)
    ensures var rs := RecordsOf(db, Normalize(zone));
            |Lookup(db, zone, record, now, sh)| ==
            2 + Min(db.settings.answerK, |Candidates(rs, A, now)|) +
                Min(db.settings.answerK, |Candidates(rs, AAAA, now)|)
    ensures db.settings.answerK <= 31 ==> |Lookup(db, zone, record, now, sh)| <= MAX_ROWS
  {
    var rs := RecordsOf(db, Normalize(zone));
    var serial, ttl, ttlA, ttlB := ServedAnswer(db, zone, record, now, sh);
    ChosenAreCandidates(db, rs, now, sh, A);
    ChosenAreCandidates(db, rs, now, sh, AAAA);
  }

  /**
   * So for answer_k <= 31 the module never rejects an answer for its number of rows; from 32 on it
   * rejects that of every name with 32 fresh addresses of each type.
   */
  lemma RowLimitReachedFrom32(db: Db, zone: string, record: string, now: Time, sh: Shuffle, rows: seq<Tuple>)
    requires ValidSettings(db.settings)
    requires IsShuffle(RecordsOf(db, Normalize(zone)), now, sh)
    requires IsApex(zone, record) && FindZone(db, zone, now)
    requires |rows| == |Lookup(db, zone, record, now, sh)| && NoNulls(rows) && Size(rows) <= ROW_BUF_LEN
    ensures db.settings.answerK <= 31 ==> FetchResult(Tuples(rows, 3)).Success?
    ensures var rs := RecordsOf(db, Normalize(zone));
            db.settings.answerK >= 32 && |Candidates(rs, A, now)| >= 32 && |Candidates(rs, AAAA, now)| >= 32 ==>
              FetchResult(Tuples(rows, 3)).Failure?
  {
    AnswerSize(db, zone, record, now, sh);
  }
}
