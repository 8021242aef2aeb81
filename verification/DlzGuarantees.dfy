/** What BIND can rely on: cached rows are those of a fetch, and only the exact query name is fetched. */
module DlzGuarantees {
  import opened Common
  import opened DlzThread

  // ----- the row cache over any sequence of callbacks on a thread -----

  datatype Call =
    | FindZoneCall(inst: nat, name: string, outcome: Outcome, filledNs: int)
    | LookupCall(inst: nat, name: string, record: string, outcome: Outcome, filledNs: int, now: int)

  ghost function AfterCall(v: View, c: Call): View {
    match c
    case FindZoneCall(inst, name, o, filled) => AfterFindZone(v, inst, name, o, filled)
    case LookupCall(inst, zone, record, o, filled, now) => AfterLookup(v, inst, zone, record, o, now, filled)
  }

  /** The thread's state after the first k callbacks of its life. */
  ghost function ViewAt(calls: seq<Call>, k: nat): View
    requires k <= |calls|
  {
    if k == 0 then View("", None) else AfterCall(ViewAt(calls, k - 1), calls[k - 1])
  }

  /** Callback i goes to the database. */
  ghost predicate Fetches(calls: seq<Call>, i: nat)
    requires i < |calls|
  {
    var v, c := ViewAt(calls, i), calls[i];
    if c.FindZoneCall? then Probes(v, c.name) else c.record == "@" && !CacheHit(v, c.inst, c.name, c.now)
  }

  /** Callback i is a successful fetch, and `e` is what it stored. */
  ghost predicate Stores(calls: seq<Call>, i: nat, e: Entry)
    requires i < |calls|
  {
    && Fetches(calls, i)
    && FetchResult(calls[i].outcome).Success?
    && e == Entry(calls[i].inst, Truncated(calls[i].name), calls[i].filledNs, Converted(calls[i].outcome.rows))
  }

  /** Whatever is in the cache was put there whole by one successful fetch, and no query since then had a result. */
  lemma {:induction false} CacheOrigin(calls: seq<Call>, k: nat) returns (i: nat)
    requires k <= |calls| && ViewAt(calls, k).cache.Some?
    ensures i < k && Stores(calls, i, ViewAt(calls, k).cache.value)
    ensures forall j :: i < j < k && Fetches(calls, j) ==> calls[j].outcome.Unavailable?
  {
    var v, c := ViewAt(calls, k - 1), calls[k - 1];
    if Fetches(calls, k - 1) && FetchResult(c.outcome).Success? {
      i := k - 1;
    } else {
      assert ViewAt(calls, k).cache == v.cache;
      i := CacheOrigin(calls, k - 1);
    }
  }

  /**
   * The row cache refines a direct lookup: the rows a lookup emits are those of one successful fetch
   * by the same instance - its own, or the last query on this thread that had a result, at most two
   * seconds ago - for a name that, shortened to the cache's name field, is the zone up to ASCII case.
   */
  lemma RowCacheRefinesLookup(calls: seq<Call>, k: nat, rows: seq<CachedRow>) returns (i: nat)
    requires k < |calls| && calls[k].LookupCall?
    requires var c := calls[k];
             LookupRows(ViewAt(calls, k), c.inst, c.name, c.record, c.outcome, c.now, c.filledNs) == Some(rows)
    ensures i <= k && Fetches(calls, i) && FetchResult(calls[i].outcome).Success?
    ensures forall j :: i < j < k && Fetches(calls, j) ==> calls[j].outcome.Unavailable?
    ensures calls[i].inst == calls[k].inst && Converted(calls[i].outcome.rows) == rows
    ensures i == k || (EqFold(Truncated(calls[i].name), calls[k].name) &&
        calls[k].now - calls[i].filledNs <= 2_000_000_000)
    ensures |calls[i].name| < 1025 ==> EqFold(calls[i].name, calls[k].name)
  {
    if Fetches(calls, k) {
      i := k;
    } else {
      i := CacheOrigin(calls, k);
    }
  }

  /** The cache is used: a lookup within two seconds of the probe that found the zone makes no query of its own. */
  lemma LookupAfterProbe(calls: seq<Call>, k: nat)
    requires 0 < k < |calls| && calls[k - 1].FindZoneCall? && calls[k].LookupCall?
    requires Fetches(calls, k - 1) && FetchResult(calls[k - 1].outcome).Success?
    requires calls[k].inst == calls[k - 1].inst && calls[k].record == "@"
    requires EqFold(calls[k].name, calls[k - 1].name) && calls[k].now - calls[k - 1].filledNs <= 2_000_000_000
    ensures !Fetches(calls, k)
    ensures var c := calls[k];
            LookupRows(ViewAt(calls, k), c.inst, c.name, c.record, c.outcome, c.now, c.filledNs) ==
            Some(Converted(calls[k - 1].outcome.rows))
  {
  }

  /**
   * What a fetch comes to: the rows must be few, complete and small enough; none at all means the
   * name is not served.
   */
  lemma FetchResultIff(o: Outcome)
    ensures FetchResult(o) == NotFound <==> o.Tuples? && o.rows == []
    ensures FetchResult(o) == Success <==>
            && o.Tuples? && 1 <= |o.rows| <= 64 && o.nfields == 3 && Size(o.rows) <= 8192
            && forall i :: 0 <= i < |o.rows| ==> o.rows[i].ttl != None
    ensures FetchResult(o) != PutFailed
  {
  }

  /**
   * The result of a lookup: nothing below the apex; at the apex never NOTFOUND, so a zone that vanished
   * since it was found is a failure; a row that BIND refuses ends it after exactly the rows before.
   */
  lemma LookupResultIff(calls: seq<Call>, k: nat, refusedAt: Option<nat>)
    requires k < |calls| && calls[k].LookupCall?
    ensures var c := calls[k];
            var rows := LookupRows(ViewAt(calls, k), c.inst, c.name, c.record, c.outcome, c.now, c.filledNs);
            var result := LookupResult(c.record, rows, refusedAt);
            && (result == NotFound <==> c.record != "@")
            && (result == NotFound ==> rows == None)
            && (result == Failure <==> Fetches(calls, k) && FetchResult(c.outcome) != Success)
            && (result == Failure ==> rows == None)
            && (result == PutFailed <==> rows.Some? && refusedAt.Some? && refusedAt.value < |rows.value|)
            && (rows.Some? ==>
                  var out := Emits(rows.value, refusedAt);
                  out <= rows.value && |out| == if result == PutFailed then refusedAt.value else |rows.value|)
  {
  }

  /** Exactly the names that fit the name field are cached under their own name. */
  lemma TruncationDecides(fetched: string, zone: string)
    requires EqFold(Truncated(fetched), zone)
    ensures EqFold(fetched, zone) <==> |fetched| < 1025
  {
  }

  /** So a lookup for an over-long name does leave rows that the shortened name is then answered from. */
  lemma LongNamesLeak(long: string, rows: seq<Tuple>)
    requires |long| >= 1025 && rows != [] && Fits(Tuples(rows, 3))
    ensures var calls := [LookupCall(0, long, "@", Tuples(rows, 3), 0, 0),
                          LookupCall(0, Truncated(long), "@", Unavailable, 0, 0)];
            && LookupRows(ViewAt(calls, 1), 0, Truncated(long), "@", Unavailable, 0, 0) == Some(Converted(rows))
            && !EqFold(long, Truncated(long))
  {
  }

  // ----- the search: BIND probes the query name and its parents, longest first -----

  /** A name from its labels. */
  function Join(labels: seq<string>): string {
    if labels == [] then "" else if |labels| == 1 then labels[0] else labels[0] + "." + Join(labels[1..])
  }

  ghost predicate ValidLabels(labels: seq<string>) {
    labels != [] && forall i :: 0 <= i < |labels| ==> labels[i] != ""
  }

  /** The names fetched, the result BIND's loop ends with, and the thread's state then. */
  datatype Searched = Searched(fetched: seq<string>, result: Isc, view: View)

  /** dns_view_searchdlz: from the full name to its last label, until something other than NOTFOUND. */
  function Search(v: View, inst: nat, labels: seq<string>, db: string -> Outcome, now: int): Searched
    decreases |labels|
  {
    if labels == [] then Searched([], NotFound, v)
    else
      var name := Join(labels);
      var here := if Probes(v, name) then [name] else [];
      var result := FindZoneResult(v, name, db(name));
      var v' := AfterFindZone(v, inst, name, db(name), now);
      if !result.NotFound? then Searched(here, result, v')
      else
        var rest := Search(v', inst, labels[1..], db, now);
        Searched(here + rest.fetched, rest.result, rest.view)
  }

  /** Dropping the first label gives a proper parent, at a label boundary. */
  lemma DropLabelIsParent(labels: seq<string>)
    requires ValidLabels(labels) && |labels| >= 2
    ensures ValidLabels(labels[1..])
    ensures Join(labels[1..]) != "" && |Join(labels[1..])| < |Join(labels)|
    ensures IsParentName(Join(labels[1..]), Join(labels))
  {
    var rest := Join(labels[1..]);
    JoinNonEmpty(labels[1..]);
    assert Join(labels) == labels[0] + "." + rest;
    assert Join(labels)[|Join(labels)| - |rest|..] == rest;
  }

  lemma {:induction false} JoinNonEmpty(labels: seq<string>)
    requires ValidLabels(labels)
    ensures Join(labels) != ""
    ensures |labels[|labels| - 1]| <= |Join(labels)|
  {
    if |labels| > 1 {
      JoinNonEmpty(labels[1..]);
    }
  }

  /** Once a probe of the search is recorded, no later one reaches the database. */
  lemma {:induction false} ParentsNotFetched(v: View, inst: nat, labels: seq<string>, db: string -> Outcome, now: int)
    requires ValidLabels(labels) && |labels| >= 2
    requires v.lastProbe == Join(labels) && |Join(labels)| < 1025
    ensures var s := Search(v, inst, labels[1..], db, now);
            && s.fetched == [] && s.result.NotFound?
            && s.view == v.(lastProbe := labels[|labels| - 1])
    decreases |labels|
  {
    DropLabelIsParent(labels);
    var rest := labels[1..];
    var v' := AfterFindZone(v, inst, Join(rest), db(Join(rest)), now);
    assert v' == v.(lastProbe := Join(rest));
    if |rest| >= 2 {
      ParentsNotFetched(v', inst, rest, db, now);
    } else {
      assert rest[1..] == [];
      assert Search(v', inst, rest[1..], db, now) == Searched([], NotFound, v');
    }
  }

  /**
   * Exact-name search: for any earlier thread state, a search fetches at most once and only the full
   * query name, so a parent is never served; it does fetch exactly unless the name is a parent of
   * the previous probe.
   */
  lemma ExactNameSearch(v: View, inst: nat, labels: seq<string>, db: string -> Outcome, now: int)
    requires ValidLabels(labels) && |Join(labels)| < 1025
    ensures var s := Search(v, inst, labels, db, now);
            var name := Join(labels);
            && s.fetched == (if IsParentName(name, v.lastProbe) then [] else [name])
            && (s.result == if s.fetched == [] then NotFound else FetchResult(db(name)))
            && s.view.lastProbe == (if s.result.NotFound? then labels[|labels| - 1] else "")
            && s.view.cache == (if s.fetched == [] then v.cache else CacheAfter(v.cache, inst, name, db(name), now))
  {
    var name := Join(labels);
    JoinNonEmpty(labels);
    var v' := AfterFindZone(v, inst, name, db(name), now);
    if FindZoneResult(v, name, db(name)).NotFound? {
      assert v'.lastProbe == name;
      if |labels| >= 2 {
        ParentsNotFetched(v', inst, labels, db, now);
      } else {
        assert labels[1..] == [];
      }
    }
  }

  /** A dot-free or empty last probe has no parents, so the next search fetches. */
  lemma NoDotNoParent(name: string, last: string)
    requires '.' !in last
    ensures !IsParentName(name, last)
  {
  }

  datatype Query = Query(inst: nat, labels: seq<string>, now: int)

  /** A query name with non-empty labels free of dots, short enough for the probe buffer. */
  ghost predicate PlainQuery(q: Query) {
    && ValidLabels(q.labels)
    && |Join(q.labels)| < 1025
    && forall i :: 0 <= i < |q.labels| ==> '.' !in q.labels[i]
  }

  ghost function ViewAfter(v: View, qs: seq<Query>, db: (nat, string) -> Outcome, k: nat): View
    requires k <= |qs|
  {
    if k == 0 then v
    else
      var q := qs[k - 1];
      Search(ViewAfter(v, qs, db, k - 1), q.inst, q.labels, (n: string) => db(k - 1, n), q.now).view
  }

  /**
   * The other direction: on a thread whose searches all run to their end - success, failure, or the
   * single-label name - every query reaches the database with exactly its own name.
   */
  lemma {:induction false} EveryQueryFetched(v: View, qs: seq<Query>, db: (nat, string) -> Outcome, k: nat)
    requires k < |qs| && '.' !in v.lastProbe
    requires forall i :: 0 <= i < |qs| ==> PlainQuery(qs[i])
    ensures '.' !in ViewAfter(v, qs, db, k).lastProbe
    ensures Search(ViewAfter(v, qs, db, k), qs[k].inst, qs[k].labels, (n: string) => db(k, n), qs[k].now).fetched ==
            [Join(qs[k].labels)]
  {
    if k > 0 {
      EveryQueryFetched(v, qs, db, k - 1);
      assert PlainQuery(qs[k - 1]);
      ExactNameSearch(ViewAfter(v, qs, db, k - 1), qs[k - 1].inst, qs[k - 1].labels, (n: string) => db(k - 1, n),
          qs[k - 1].now);
    }
    assert PlainQuery(qs[k]);
    NoDotNoParent(Join(qs[k].labels), ViewAfter(v, qs, db, k).lastProbe);
    ExactNameSearch(ViewAfter(v, qs, db, k), qs[k].inst, qs[k].labels, (n: string) => db(k, n), qs[k].now);
  }

  /** A search that BIND broke off can hide the next query: a missed green answer, never a wrong one. */
  lemma InterruptedSearchHides(v: View, inst: nat, labels: seq<string>, db: string -> Outcome, now: int)
    requires ValidLabels(labels) && |labels| >= 2 && |Join(labels)| < 1025
    requires Probes(v, Join(labels)) && FetchResult(db(Join(labels))).NotFound?
    ensures var broken := AfterFindZone(v, inst, Join(labels), db(Join(labels)), now);
            var s := Search(broken, inst, labels[1..], db, now);
            s.fetched == [] && s.result.NotFound?
  {
    ParentsNotFetched(AfterFindZone(v, inst, Join(labels), db(Join(labels)), now), inst, labels, db, now);
  }

  /**
   * Over-long names are the exception: the search then fetches the longest suffix that fits, a
   * parent, unless not even the last label fits.
   */
  lemma {:induction false} LongNameFetchesParent(
    v: View, inst: nat, labels: seq<string>, db: string -> Outcome, now: int)
    requires ValidLabels(labels) && |Join(labels)| >= 1025
    ensures var s := Search(v, inst, labels, db, now);
            && (s.fetched == [] <==> |labels[|labels| - 1]| >= 1025)
            && (s.fetched != [] ==> exists i :: 0 < i < |labels| && s.fetched == [Join(labels[i..])]
                                               && |Join(labels[i..])| < 1025 <= |Join(labels[i - 1..])|)
    decreases |labels|
  {
    var v' := v.(lastProbe := "");
    var rest := labels[1..];
    assert labels[0..] == labels;
    if |labels| == 1 {
      assert rest == [];
    } else {
      DropLabelIsParent(labels);
      JoinNonEmpty(rest);
      if |Join(rest)| < 1025 {
        ExactNameSearch(v', inst, rest, db, now);
        assert Search(v, inst, labels, db, now).fetched == [Join(labels[1..])];
        assert labels[1 - 1..] == labels;
      } else {
        LongNameFetchesParent(v', inst, rest, db, now);
        var s := Search(v', inst, rest, db, now);
        assert Search(v, inst, labels, db, now).fetched == [] + s.fetched;
        if s.fetched != [] {
          var i :| 0 < i < |rest| && s.fetched == [Join(rest[i..])]
                   && |Join(rest[i..])| < 1025 <= |Join(rest[i - 1..])|;
          assert rest[i..] == labels[i + 1..] && rest[i - 1..] == labels[i..];
          assert labels[i + 1 - 1..] == labels[i..];
          assert Search(v, inst, labels, db, now).fetched == [Join(labels[i + 1..])];
        }
      }
    }
  }
}
