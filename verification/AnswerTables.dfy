/**
 * The answer policy on the tables: what dlz_lookup returns, said only with rows of rrset_records,
 * endpoints, carbon_signals and settings.
 */
module AnswerTables {
  import opened Common
  import opened Queue
  import opened Database
  import opened AnswerPolicy
  import opened AnswerGuarantees

  // ----- names -----

  lemma {:induction false} TrimDotsIs(s: string)
    ensures var r := TrimDots(s);
            && r <= s && (r == "" || r[|r| - 1] != '.')
            && forall i :: |r| <= i < |s| ==> s[i] == '.'
    decreases |s|
  {
    if s != "" && s[|s| - 1] == '.' {
      TrimDotsIs(s[..|s| - 1]);
    }
  }

  /** A stored name is the given one without its trailing dots, in lower case. */
  lemma NormalizeIs(s: string)
    ensures var r := Normalize(s);
            && |r| <= |s| && (r == "" || r[|r| - 1] != '.')
            && (forall i :: |r| <= i < |s| ==> s[i] == '.')
            && (forall i :: 0 <= i < |r| ==> (r[i] == s[i] && !('A' <= s[i] <= 'Z')) ||
                                             ('A' <= s[i] <= 'Z' && r[i] as int == s[i] as int + 32))
  {
    TrimDotsIs(s);
    var t, r := TrimDots(s), Normalize(s);
    forall i | 0 <= i < |r|
      ensures (r[i] == s[i] && !('A' <= s[i] <= 'Z')) || ('A' <= s[i] <= 'Z' && r[i] as int == s[i] as int + 32)
    {
      assert t[i] == s[i];
    }
    assert r != "" ==> t[|t| - 1] != '.';
  }

  // ----- records and points -----

  /** k is a record of the name's type and address that has not expired. */
  ghost predicate FreshRecord(db: Db, zone: string, t: RType, a: Address, now: Time, k: RecordKey) {
    k in db.records && k.domain == Normalize(zone) && k.rtype == t && k.address == a && db.records[k].expiresAt > now
  }

  ghost predicate FreshAddress(db: Db, zone: string, t: RType, a: Address, now: Time) {
    exists k :: FreshRecord(db, zone, t, a, now, k)
  }

  /** k is the newest carbon point of the region of a's endpoint, which is not anycast. */
  ghost predicate NewestPoint(db: Db, a: Address, k: SignalKey) {
    && a in db.endpoints && !db.endpoints[a].isAnycast && db.endpoints[a].region == Some(k.region)
    && k in db.signals
    && forall l :: l in db.signals && l.region == k.region ==> l.pointTime <= k.pointTime
  }

  /** The carbon intensity of an address is known. */
  ghost predicate Rated(db: Db, a: Address) {
    exists k :: NewestPoint(db, a, k)
  }

  lemma MoerIsNewest(db: Db, a: Address, k: SignalKey)
    requires NewestPoint(db, a, k)
    ensures Moer(db, a) == Some(db.signals[k])
  {
    var times := set l | l in db.signals && l.region == k.region :: l.pointTime;
    assert k.pointTime in times;
    assert k == SignalKey(k.region, MaxOf(times));
  }

  lemma MoerIffRated(db: Db, a: Address)
    ensures Moer(db, a).Some? <==> Rated(db, a)
  {
    if k :| NewestPoint(db, a, k) {
      MoerIsNewest(db, a, k);
    }
    if Moer(db, a).Some? {
      var region := db.endpoints[a].region.value;
      var times := set l | l in db.signals && l.region == region :: l.pointTime;
      assert forall l :: l in db.signals && l.region == region ==> l.pointTime in times;
      assert NewestPoint(db, a, SignalKey(region, MaxOf(times)));
    }
  }

  lemma CandidateIff(db: Db, zone: string, t: RType, a: Address, now: Time)
    ensures a in Candidates(RecordsOf(db, Normalize(zone)), t, now) <==> FreshAddress(db, zone, t, a, now)
  {
    var rs := RecordsOf(db, Normalize(zone));
    if k :| FreshRecord(db, zone, t, a, now, k) {
      assert k in rs && rs[k] == db.records[k];
    }
    if a in Candidates(rs, t, now) {
      var k :| k in rs && k.rtype == t && k.address == a && rs[k].expiresAt > now;
      assert FreshRecord(db, zone, t, a, now, k);
    }
  }

  // ----- when there is an answer -----

  /** dlz_lookup answers exactly at the apex of a known name with records, each stored type of which has a fresh one. */
  lemma AnsweredIff(db: Db, zone: string, record: string, now: Time, sh: Shuffle)
    requires db.settings.answerK >= 1
    requires IsShuffle(RecordsOf(db, Normalize(zone)), now, sh)
    ensures Lookup(db, zone, record, now, sh) != [] <==>
            && (record == "@" || record == "" || Normalize(record) == Normalize(zone))
            && Normalize(zone) in db.domains
            && (exists k :: k in db.records && k.domain == Normalize(zone))
            && forall k :: k in db.records && k.domain == Normalize(zone) ==>
                 exists l :: l in db.records && l.domain == Normalize(zone) && l.rtype == k.rtype &&
                     db.records[l].expiresAt > now
  {
    LookupNonEmptyIffServed(db, zone, record, now, sh);
    ServedIff(db, zone, now);
  }

  /** dlz_findzone, on the rows of rrset_records. */
  lemma ServedIff(db: Db, zone: string, now: Time)
    ensures FindZone(db, zone, now) <==>
            && Normalize(zone) in db.domains
            && (exists k :: k in db.records && k.domain == Normalize(zone))
            && forall k :: k in db.records && k.domain == Normalize(zone) ==>
                 exists l :: l in db.records && l.domain == Normalize(zone) && l.rtype == k.rtype &&
                     db.records[l].expiresAt > now
  {
    FreshnessFormsAgree(db, zone, now);
    var d := Normalize(zone);
    var rs := RecordsOf(db, d);
    assert forall k :: k in rs <==> k in db.records && k.domain == d;
    assert rs != map[] <==> exists k :: k in rs;
    forall t
      ensures HasFresh(rs, t, now) <==>
              exists l :: l in db.records && l.domain == d && l.rtype == t && db.records[l].expiresAt > now
    {
      if l :| l in db.records && l.domain == d && l.rtype == t && db.records[l].expiresAt > now {
        assert l in rs && rs[l].expiresAt > now;
      }
      if HasFresh(rs, t, now) {
        var l :| l in rs && l.rtype == t && rs[l].expiresAt > now;
        assert db.records[l].expiresAt > now;
      }
    }
    forall k | k in rs
      ensures k.rtype in Types(rs)
    {
    }
  }

  // ----- which addresses -----

  /** Each type's answer holds min(answer_k, fresh addresses) addresses, all of them fresh. */
  lemma EmittedOnTables(db: Db, zone: string, record: string, now: Time, sh: Shuffle, t: RType, fresh': set<Address>)
    requires ValidSettings(db.settings)
    requires IsShuffle(RecordsOf(db, Normalize(zone)), now, sh)
    requires IsApex(zone, record) && FindZone(db, zone, now)
    requires forall a :: a in fresh' <==> FreshAddress(db, zone, t, a, now)
    ensures var out := Emitted(Lookup(db, zone, record, now, sh), t);
            out <= fresh' && |out| == Min(db.settings.answerK, |fresh'|)
  {
    GreenestAnswer(db, zone, record, now, sh, t);
    var cands := Candidates(RecordsOf(db, Normalize(zone)), t, now);
    forall a
      ensures a in cands <==> a in fresh'
    {
      CandidateIff(db, zone, t, a, now);
    }
    assert cands == fresh';
  }

  /**
   * Greenest answer, on the tables: an emitted address has no higher carbon intensity than a fresh one
   * left out, by the newest points of their regions, and an unrated address is emitted only when every
   * rated fresh one is.
   */
  lemma GreenestOnTables(db: Db, zone: string, record: string, now: Time, sh: Shuffle, t: RType, a: Address, b: Address)
    requires ValidSettings(db.settings)
    requires IsShuffle(RecordsOf(db, Normalize(zone)), now, sh)
    requires IsApex(zone, record) && FindZone(db, zone, now)
    requires var out := Emitted(Lookup(db, zone, record, now, sh), t); a in out && b !in out
    requires FreshAddress(db, zone, t, b, now)
    ensures forall ka, kb :: NewestPoint(db, a, ka) && NewestPoint(db, b, kb) ==> db.signals[ka] <= db.signals[kb]
    ensures Rated(db, b) ==> Rated(db, a)
  {
    GreenestAnswer(db, zone, record, now, sh, t);
    CandidateIff(db, zone, t, b, now);
    assert NoDirtier(Moer(db, a), Moer(db, b));
    ByNewestPoints(db, a, b);
  }

  /** "No dirtier" is by the newest points of the regions, and unrated addresses come last. */
  lemma ByNewestPoints(db: Db, a: Address, b: Address)
    requires NoDirtier(Moer(db, a), Moer(db, b))
    ensures forall ka, kb :: NewestPoint(db, a, ka) && NewestPoint(db, b, kb) ==> db.signals[ka] <= db.signals[kb]
    ensures Rated(db, b) ==> Rated(db, a)
  {
    MoerIffRated(db, a);
    MoerIffRated(db, b);
    forall ka, kb | NewestPoint(db, a, ka) && NewestPoint(db, b, kb)
      ensures db.signals[ka] <= db.signals[kb]
    {
      MoerIsNewest(db, a, ka);
      MoerIsNewest(db, b, kb);
    }
  }

  /** The rows of a type are in that order too. */
  lemma OrderedOnTables(db: Db, zone: string, record: string, now: Time, sh: Shuffle, t: RType, i: nat, j: nat)
    requires ValidSettings(db.settings)
    requires IsShuffle(RecordsOf(db, Normalize(zone)), now, sh)
    requires IsApex(zone, record) && FindZone(db, zone, now)
    requires var answer := Lookup(db, zone, record, now, sh);
             i < j < |answer| && IsHost(answer[i], t) && IsHost(answer[j], t)
    ensures var answer := Lookup(db, zone, record, now, sh);
            var a, b := answer[i].data.address, answer[j].data.address;
            && a != b && (Rated(db, b) ==> Rated(db, a))
            && forall ka, kb :: NewestPoint(db, a, ka) && NewestPoint(db, b, kb) ==> db.signals[ka] <= db.signals[kb]
  {
    RowsInRankOrder(db, zone, record, now, sh, t, i, j);
    var answer := Lookup(db, zone, record, now, sh);
    ByNewestPoints(db, answer[i].data.address, answer[j].data.address);
  }

  // ----- TTLs and the apex rows -----

  /** The last expiry of an address is that of one of its fresh records, and no other is later. */
  lemma ExpiryOnTables(db: Db, zone: string, t: RType, a: Address, now: Time)
    requires a in Candidates(RecordsOf(db, Normalize(zone)), t, now)
    ensures var e := ExpiryOf(RecordsOf(db, Normalize(zone)), t, a, now);
            && (exists k :: FreshRecord(db, zone, t, a, now, k) && db.records[k].expiresAt == e)
            && (forall k :: FreshRecord(db, zone, t, a, now, k) ==> db.records[k].expiresAt <= e)
  {
    var rs := RecordsOf(db, Normalize(zone));
    var e := ExpiryOf(rs, t, a, now);
    var k :| k in FreshKeys(rs, t, a, now) && rs[k].expiresAt == e;
    assert FreshRecord(db, zone, t, a, now, k) && db.records[k].expiresAt == e;
    forall k | FreshRecord(db, zone, t, a, now, k)
      ensures db.records[k].expiresAt <= e
    {
      assert k in FreshKeys(rs, t, a, now);
    }
  }

  lemma ResolvedOnTables(db: Db, zone: string, t: RType, a: Address, now: Time)
    requires a in Candidates(RecordsOf(db, Normalize(zone)), t, now)
    ensures var e := ResolvedOf(RecordsOf(db, Normalize(zone)), t, a, now);
            && (exists k :: FreshRecord(db, zone, t, a, now, k) && db.records[k].resolvedAt == e)
            && (forall k :: FreshRecord(db, zone, t, a, now, k) ==> db.records[k].resolvedAt <= e)
  {
    var rs := RecordsOf(db, Normalize(zone));
    var e := ResolvedOf(rs, t, a, now);
    var k :| k in FreshKeys(rs, t, a, now) && rs[k].resolvedAt == e;
    assert FreshRecord(db, zone, t, a, now, k) && db.records[k].resolvedAt == e;
    forall k | FreshRecord(db, zone, t, a, now, k)
      ensures db.records[k].resolvedAt <= e
    {
      assert k in FreshKeys(rs, t, a, now);
    }
  }

  /**
   * A row's TTL is within 1..max_answer_ttl; some record of its address lasts that long, but for the
   * 1 s floor; and it is the cap, or all records of some returned address expire within one second more.
   */
  lemma TtlOnTables(db: Db, zone: string, record: string, now: Time, sh: Shuffle, t: RType, i: nat)
    returns (first: Address)
    requires ValidSettings(db.settings)
    requires IsShuffle(RecordsOf(db, Normalize(zone)), now, sh)
    requires IsApex(zone, record) && FindZone(db, zone, now)
    requires var answer := Lookup(db, zone, record, now, sh); i < |answer| && IsHost(answer[i], t)
    ensures var answer := Lookup(db, zone, record, now, sh);
            var ttl := answer[i].ttl;
            && 1 <= ttl <= db.settings.maxAnswerTtl
            && (ttl == 1 || exists k :: FreshRecord(db, zone, t, answer[i].data.address, now, k)
                                        && now + ttl * 1_000_000 <= db.records[k].expiresAt)
            && first in Emitted(answer, t)
            && (ttl == db.settings.maxAnswerTtl ||
                forall k :: FreshRecord(db, zone, t, first, now, k) ==>
                    db.records[k].expiresAt < now + (ttl + 1) * 1_000_000)
  {
    HostTtls(db, zone, record, now, sh, t, i, i);
    ExpiryOnTables(db, zone, t, Lookup(db, zone, record, now, sh)[i].data.address, now);
    first := TtlIsLongest(db, zone, record, now, sh, t, i);
    ExpiryOnTables(db, zone, t, first, now);
  }

  /** The apex rows: SOA and NS from the settings, with the TTL as the SOA minimum. */
  lemma ApexRows(db: Db, zone: string, record: string, now: Time, sh: Shuffle)
    requires ValidSettings(db.settings)
    requires IsShuffle(RecordsOf(db, Normalize(zone)), now, sh)
    requires IsApex(zone, record) && FindZone(db, zone, now)
    ensures var answer := Lookup(db, zone, record, now, sh);
            && |answer| >= 3 && answer[0].data.Soa?
            && var ttl := answer[0].ttl;
            && var serial := answer[0].data.serial;
            && answer[0].data == Soa(db.settings.nsName, db.settings.hostmaster, serial, 3600, 600, 86400, ttl)
            && answer[1] == AnswerRow(ttl, Ns(db.settings.nsName))
  {
    var serial, ttl, ttlA, ttlB := ServedAnswer(db, zone, record, now, sh);
    ApexTtls(db, zone, record, now, sh);
  }

  /** The serial is the newest resolved_at of the fresh records of the returned addresses, in seconds modulo 2^32. */
  lemma SerialOnTables(db: Db, zone: string, record: string, now: Time, sh: Shuffle) returns (newest: Time)
    requires ValidSettings(db.settings)
    requires IsShuffle(RecordsOf(db, Normalize(zone)), now, sh)
    requires IsApex(zone, record) && FindZone(db, zone, now)
    ensures var answer := Lookup(db, zone, record, now, sh);
            && answer != [] && answer[0].data.Soa? && answer[0].data.serial == (newest / 1_000_000) % 4294967296
            && (exists t, a, k :: a in Emitted(answer, t) && FreshRecord(db, zone, t, a, now, k)
                                  && db.records[k].resolvedAt == newest)
            && (forall t, a, k :: a in Emitted(answer, t) && FreshRecord(db, zone, t, a, now, k) ==>
                                    db.records[k].resolvedAt <= newest)
  {
    var t, a;
    newest, t, a := SerialIsNewest(db, zone, record, now, sh);
    ResolvedOnTables(db, zone, t, a, now);
    var answer := Lookup(db, zone, record, now, sh);
    forall u, b, k | b in Emitted(answer, u) && FreshRecord(db, zone, u, b, now, k)
      ensures db.records[k].resolvedAt <= newest
    {
      assert u == A || u == AAAA;
      ResolvedOnTables(db, zone, u, b, now);
    }
  }
}
