/**
 * Per-thread state of the BIND module (resolver/dlz_pgsql/src/dlz_pgsql.c): the last probe and the
 * packed row cache, kept in fixed-size buffers. What libpq returns is a parameter of each call.
 */
module DlzThread {
  import opened Common

  const NAME_MAX_LEN: nat := 1025
  const MAX_ROWS: nat := 64
  const ROW_BUF_LEN: nat := 8192
  const CACHE_MAX_AGE_NS := 2_000_000_000
  const NUL: char := '\0'

  // ----- C strings -----

  predicate IsCString(s: string) {
    NUL !in s
  }

  /** The C string at an offset of a buffer. */
  function CStr(b: seq<char>, off: nat): string
    requires off <= |b|
    decreases |b| - off
  {
    if off == |b| || b[off] == NUL then "" else [b[off]] + CStr(b, off + 1)
  }

  /** s and its terminator lie at off. */
  predicate Lies(b: seq<char>, off: nat, s: string) {
    off + |s| + 1 <= |b| && b[off..off + |s|] == s && b[off + |s|] == NUL
  }

  lemma {:induction false} LiesReads(b: seq<char>, off: nat, s: string)
    requires IsCString(s) && Lies(b, off, s)
    ensures CStr(b, off) == s
    decreases |s|
  {
    if s != "" {
      assert b[off] == b[off..off + |s|][0] == s[0];
      assert s[0] in s;
      assert b[off + 1..off + 1 + |s[1..]|] == s[1..] by {
        assert b[off..off + |s|][1..] == s[1..];
      }
      LiesReads(b, off + 1, s[1..]);
    }
  }

  /** Bytes outside a string do not matter to it. */
  lemma LiesFramed(b: seq<char>, b': seq<char>, off: nat, s: string)
    requires Lies(b, off, s) && |b'| == |b|
    requires forall i :: off <= i <= off + |s| ==> b'[i] == b[i]
    ensures Lies(b', off, s)
  {
    assert b'[off..off + |s|] == b[off..off + |s|];
  }

  /** memcpy of a string with its terminator. */
  method CopyString(dst: array<char>, off: nat, s: string)
    requires off + |s| + 1 <= dst.Length
    modifies dst
    ensures Lies(dst[..], off, s)
    ensures forall i :: 0 <= i < dst.Length && !(off <= i <= off + |s|) ==> dst[i] == old(dst[i])
  {
    forall i | 0 <= i < |s| {
      dst[off + i] := s[i];
    }
    dst[off + |s|] := NUL;
    assert dst[..][off..off + |s|] == s;
  }

  // ----- names -----

  /** strcasecmp(a, b) == 0. */
  predicate EqFold(a: string, b: string) {
    Lower(a) == Lower(b)
  }

  /** cadns_is_parent_name: `name` is a proper parent of `child`, at a label boundary. */
  predicate IsParentName(name: string, child: string) {
    var n, c := |name|, |child|;
    n != 0 && c > n + 1 && child[c - n - 1] == '.' && EqFold(child[c - n..], name)
  }

  /** The same letter up to ASCII case. */
  predicate SameLetter(c: char, d: char) {
    || c == d
    || ('A' <= c <= 'Z' && d as int == c as int + 32)
    || ('A' <= d <= 'Z' && c as int == d as int + 32)
  }

  lemma FoldIff(a: string, b: string)
    ensures EqFold(a, b) <==> |a| == |b| && forall i :: 0 <= i < |a| ==> SameLetter(a[i], b[i])
  {
    if EqFold(a, b) {
      assert |Lower(a)| == |Lower(b)|;
      forall i | 0 <= i < |a|
        ensures SameLetter(a[i], b[i])
      {
        assert Lower(a)[i] == Lower(b)[i];
      }
    }
  }

  lemma LowerAppend(a: string, b: string)
    ensures Lower(a + b) == Lower(a) + Lower(b)
  {
  }

  /** `child` is `name` below at least one more character and a dot, up to ASCII case. */
  lemma ParentNameIff(name: string, child: string)
    ensures IsParentName(name, child) <==>
            name != "" && exists below :: below != "" && EqFold(child, below + "." + name)
  {
    if IsParentName(name, child) {
      var k := |child| - |name|;
      var below := child[..k - 1];
      assert child == below + "." + child[k..];
      LowerAppend(below + ".", child[k..]);
      LowerAppend(below + ".", name);
      assert below != "" && EqFold(child, below + "." + name);
    }
    if below :| below != "" && EqFold(child, below + "." + name) {
      var k := |child| - |name|;
      assert |Lower(child)| == |Lower(below + "." + name)|;
      assert k == |below| + 1;
      LowerAppend(child[..k - 1] + [child[k - 1]], child[k..]);
      assert child == child[..k - 1] + [child[k - 1]] + child[k..];
      LowerAppend(below + ".", name);
      assert Lower(child)[k..] == Lower(child[k..]) && Lower(below + "." + name)[k..] == Lower(name);
      assert Lower(child)[k - 1] == '.';
    }
  }

  function Truncated(name: string): string {
    if |name| < NAME_MAX_LEN then name else name[..NAME_MAX_LEN - 1]
  }

  // ----- what a callback does, on values -----

  datatype Isc = Success | NotFound | Failure | PutFailed

  /** One result row: ttl is NULL or a number. */
  datatype Tuple = Tuple(ttl: Option<nat>, rtype: string, data: string)

  datatype CachedRow = CachedRow(ttl: nat, rtype: string, data: string)

  /** What acquire, connect and PQexecPrepared came to. */
  datatype Outcome = Unavailable | Tuples(rows: seq<Tuple>, nfields: nat)

  predicate ValidOutcome(o: Outcome) {
    o.Tuples? ==> forall i :: 0 <= i < |o.rows| ==> IsCString(o.rows[i].rtype) && IsCString(o.rows[i].data)
  }

  /** Bytes the rows take in the buffer, terminators included. */
  function Size(rows: seq<Tuple>): nat {
    if rows == [] then 0
    else Size(rows[..|rows| - 1]) + |rows[|rows| - 1].rtype| + |rows[|rows| - 1].data| + 2
  }

  predicate NoNulls(rows: seq<Tuple>) {
    forall i :: 0 <= i < |rows| ==> rows[i].ttl.Some?
  }

  /** The result fits the cache. */
  predicate Fits(o: Outcome) {
    o.Tuples? && |o.rows| <= MAX_ROWS && o.nfields == 3 && NoNulls(o.rows) && Size(o.rows) <= ROW_BUF_LEN
  }

  function Converted(rows: seq<Tuple>): seq<CachedRow>
    requires NoNulls(rows)
  {
    seq(|rows|, i requires 0 <= i < |rows| => CachedRow(rows[i].ttl.value, rows[i].rtype, rows[i].data))
  }

  function FetchResult(o: Outcome): Isc {
    if o.Tuples? && o.rows == [] then NotFound else if Fits(o) then Success else Failure
  }

  /** A usable cache: who filled it, for which zone, when, with what. */
  datatype Entry = Entry(owner: nat, zone: string, filledNs: int, rows: seq<CachedRow>)

  datatype View = View(lastProbe: string, cache: Option<Entry>)

  /** The cache after fetch: replaced on success, emptied by any other query result, kept without one. */
  function CacheAfter(cache: Option<Entry>, inst: nat, name: string, o: Outcome, filledNs: int): Option<Entry> {
    if o.Unavailable? then cache
    else if FetchResult(o).Success? then Some(Entry(inst, Truncated(name), filledNs, Converted(o.rows)))
    else None
  }

  /** dlz_findzonedb: does the probe reach the database, what is returned, and the state after. */
  predicate Probes(v: View, name: string) {
    |name| < NAME_MAX_LEN && !IsParentName(name, v.lastProbe)
  }

  function FindZoneResult(v: View, name: string, o: Outcome): Isc {
    if Probes(v, name) then FetchResult(o) else NotFound
  }

  function AfterFindZone(v: View, inst: nat, name: string, o: Outcome, filledNs: int): View {
    if |name| >= NAME_MAX_LEN then v.(lastProbe := "")
    else if IsParentName(name, v.lastProbe) then v.(lastProbe := name)
    else View(if FetchResult(o).NotFound? then name else "", CacheAfter(v.cache, inst, name, o, filledNs))
  }

  /** dlz_lookup may answer from the cache. */
  predicate CacheHit(v: View, inst: nat, zone: string, now: int) {
    && v.cache.Some? && v.cache.value.owner == inst
    && EqFold(v.cache.value.zone, zone)
    && now - v.cache.value.filledNs <= CACHE_MAX_AGE_NS
  }

  function AfterLookup(v: View, inst: nat, zone: string, name: string, o: Outcome, now: int, filledNs: int): View {
    if name != "@" || CacheHit(v, inst, zone, now) then v
    else v.(cache := CacheAfter(v.cache, inst, zone, o, filledNs))
  }

  /** The rows handed to putrr: all of them, or those before the first that putrr refuses. */
  function Emits(rows: seq<CachedRow>, refusedAt: Option<nat>): seq<CachedRow> {
    if refusedAt.Some? && refusedAt.value < |rows| then rows[..refusedAt.value] else rows
  }

  function LookupRows(
    v: View, inst: nat, zone: string, name: string, o: Outcome, now: int, filledNs: int): Option<seq<CachedRow>>
  {
    if name != "@" then None
    else if CacheHit(v, inst, zone, now) then Some(v.cache.value.rows)
    else if FetchResult(o).Success? then Some(Converted(o.rows))
    else None
  }

  function LookupResult(name: string, rows: Option<seq<CachedRow>>, refusedAt: Option<nat>): Isc {
    if name != "@" then NotFound
    else if rows.None? then Failure
    else if refusedAt.Some? && refusedAt.value < |rows.value| then PutFailed
    else Success
  }

  // ----- the buffers -----

  /** struct row: its strings by their offsets in the buffer. */
  datatype RowRef = RowRef(ttl: nat, typeAt: nat, dataAt: nat)

  /** Row i of `rows` lies where `refs` says, straight after the row before it. */
  predicate PackedAt(b: seq<char>, refs: seq<RowRef>, rows: seq<Tuple>, i: nat)
    requires i < |rows| && i < |refs|
  {
    && rows[i].ttl == Some(refs[i].ttl)
    && refs[i].typeAt == Size(rows[..i])
    && refs[i].dataAt == refs[i].typeAt + |rows[i].rtype| + 1
    && Lies(b, refs[i].typeAt, rows[i].rtype)
    && Lies(b, refs[i].dataAt, rows[i].data)
  }

  predicate Packed(b: seq<char>, refs: seq<RowRef>, rows: seq<Tuple>) {
    |rows| <= |refs| && forall i :: 0 <= i < |rows| ==> PackedAt(b, refs, rows, i)
  }

  lemma {:induction false} SizeMonotone(rows: seq<Tuple>, i: nat, j: nat)
    requires i <= j <= |rows|
    ensures Size(rows[..i]) <= Size(rows[..j])
    ensures i < j ==> Size(rows[..i]) + |rows[i].rtype| + |rows[i].data| + 2 <= Size(rows[..j])
    decreases j
  {
    if i < j {
      assert rows[..j][..j - 1] == rows[..j - 1];
      SizeMonotone(rows, i, j - 1);
    }
  }

  /** Packed rows occupy disjoint stretches of the buffer, in order, and stay inside it. */
  lemma PackedDisjoint(b: seq<char>, refs: seq<RowRef>, rows: seq<Tuple>, i: nat, j: nat)
    requires Packed(b, refs, rows) && i < j < |rows|
    ensures refs[i].typeAt + |rows[i].rtype| < refs[i].dataAt
    ensures refs[i].dataAt + |rows[i].data| < refs[j].typeAt
    ensures refs[j].dataAt + |rows[j].data| < |b|
  {
    assert PackedAt(b, refs, rows, i) && PackedAt(b, refs, rows, j);
    SizeMonotone(rows, i, j);
  }

  /** Packed rows read back as they were given. */
  lemma PackedReads(b: seq<char>, refs: seq<RowRef>, rows: seq<Tuple>, i: nat)
    requires Packed(b, refs, rows) && i < |rows| && NoNulls(rows)
    requires IsCString(rows[i].rtype) && IsCString(rows[i].data)
    ensures refs[i].typeAt <= |b| && refs[i].dataAt <= |b|
    ensures CachedRow(refs[i].ttl, CStr(b, refs[i].typeAt), CStr(b, refs[i].dataAt)) == Converted(rows)[i]
  {
    assert PackedAt(b, refs, rows, i);
    LiesReads(b, refs[i].typeAt, rows[i].rtype);
    LiesReads(b, refs[i].dataAt, rows[i].data);
  }

  class ThreadState {
    const lastProbe: array<char>
    const zone: array<char>
    const rows: array<RowRef>
    const buf: array<char>
    var owner: Option<nat>
    var filledNs: int
    var nrows: nat
    ghost var source: seq<Tuple>  // the result last stored

    ghost predicate Valid()
      reads this, lastProbe, zone, rows, buf
    {
      && lastProbe.Length == NAME_MAX_LEN && zone.Length == NAME_MAX_LEN
      && rows.Length == MAX_ROWS && buf.Length == ROW_BUF_LEN
      && lastProbe != zone && lastProbe != buf && zone != buf
      && nrows <= MAX_ROWS
      && (owner.Some? ==>
            && nrows == |source| && nrows > 0
            && NoNulls(source)
            && (forall i :: 0 <= i < |source| ==> IsCString(source[i].rtype) && IsCString(source[i].data))
            && Packed(buf[..], rows[..], source))
    }

    ghost function TheView(): View
      requires Valid()
      reads this, lastProbe, zone, rows, buf
    {
      View(CStr(lastProbe[..], 0),
           if owner.Some? then Some(Entry(owner.value, CStr(zone[..], 0), filledNs, Converted(source))) else None)
    }

    /** Zeroed thread-local storage. */
    constructor ()
      ensures Valid() && TheView() == View("", None)
      ensures fresh(lastProbe) && fresh(zone) && fresh(rows) && fresh(buf)
    {
      lastProbe := new char[NAME_MAX_LEN](_ => NUL);
      zone := new char[NAME_MAX_LEN](_ => NUL);
      rows := new RowRef[MAX_ROWS](_ => RowRef(0, 0, 0));
      buf := new char[ROW_BUF_LEN](_ => NUL);
      owner, filledNs, nrows, source := None, 0, 0, [];
    }

    /** One round of the copy loop: row i goes to `off`, behind the rows before it. */
    method PackRow(ghost tuples: seq<Tuple>, i: nat, off: nat, t: Tuple)
      requires Valid() && owner.None? && i < |tuples| <= MAX_ROWS && t == tuples[i] && t.ttl.Some?
      requires off == Size(tuples[..i]) && off + |t.rtype| + 1 + |t.data| + 1 <= ROW_BUF_LEN
      requires Packed(buf[..], rows[..], tuples[..i])
      modifies rows, buf
      ensures Packed(buf[..], rows[..], tuples[..i + 1])
    {
      ghost var b, refs := buf[..], rows[..];
      CopyString(buf, off, t.rtype);
      ghost var b1 := buf[..];
      CopyString(buf, off + |t.rtype| + 1, t.data);
      rows[i] := RowRef(t.ttl.value, off, off + |t.rtype| + 1);
      LiesFramed(b1, buf[..], off, t.rtype);
      PackedExtends(b, refs, tuples, i, buf[..], rows[..]);
    }

    /** The copy loop of store_rows: fills the buffer row by row, or stops at a row it cannot take. */
    method PackRows(tuples: seq<Tuple>) returns (ok: bool)
      requires Valid() && owner.None? && |tuples| <= MAX_ROWS
      modifies rows, buf
      ensures ok <==> NoNulls(tuples) && Size(tuples) <= ROW_BUF_LEN
      ensures ok ==> Packed(buf[..], rows[..], tuples)
    {
      var off := 0;
      for i := 0 to |tuples|
        invariant NoNulls(tuples[..i])
        invariant off == Size(tuples[..i]) <= ROW_BUF_LEN
        invariant Packed(buf[..], rows[..], tuples[..i])
      {
        var t := tuples[i];
        assert tuples[..i + 1][..i] == tuples[..i];
        SizeMonotone(tuples, i + 1, |tuples|);
        assert tuples[..|tuples|] == tuples;
        if t.ttl.None? || off + |t.rtype| + 1 + |t.data| + 1 > ROW_BUF_LEN {
          return false;
        }
        PackRow(tuples, i, off, t);
        off := off + |t.rtype| + |t.data| + 2;
      }
      assert tuples[..|tuples|] == tuples;
      return true;
    }

    /** store_rows: the cache is unusable until the last row is in. */
    method StoreRows(inst: nat, name: string, o: Outcome, now: int) returns (result: Isc)
      requires Valid() && IsCString(name)
      requires o.Tuples? && ValidOutcome(o)
      modifies this, zone, rows, buf
      ensures Valid() && result == FetchResult(o)
      ensures TheView() == old(TheView()).(cache := CacheAfter(old(TheView()).cache, inst, name, o, now))
    {
      owner, nrows := None, 0;
      if o.rows == [] {
        return NotFound;
      }
      if |o.rows| > MAX_ROWS || o.nfields != 3 {
        return Failure;
      }
      var ok := PackRows(o.rows);
      if !ok {
        return Failure;
      }
      var kept := if |name| < NAME_MAX_LEN then name else name[..NAME_MAX_LEN - 1];
      CopyString(zone, 0, kept);
      LiesReads(zone[..], 0, kept);
      nrows, filledNs, owner, source := |o.rows|, now, Some(inst), o.rows;
      return Success;
    }

    method Fetch(inst: nat, name: string, o: Outcome, now: int) returns (result: Isc)
      requires Valid() && IsCString(name) && ValidOutcome(o)
      modifies this, zone, rows, buf
      ensures Valid() && result == FetchResult(o)
      ensures TheView() == old(TheView()).(cache := CacheAfter(old(TheView()).cache, inst, name, o, now))
    {
      if o.Unavailable? {
        return Failure;
      }
      result := StoreRows(inst, name, o, now);
    }

    /** dlz_findzonedb. */
    method FindZoneDb(inst: nat, name: string, o: Outcome, now: int) returns (result: Isc)
      requires Valid() && IsCString(name) && ValidOutcome(o)
      modifies this, lastProbe, zone, rows, buf
      ensures Valid() && result == FindZoneResult(old(TheView()), name, o)
      ensures TheView() == AfterFindZone(old(TheView()), inst, name, o, now)
    {
      if |name| >= lastProbe.Length {
        lastProbe[0] := NUL;
        return NotFound;
      }
      var parentProbe := IsParentName(name, CStr(lastProbe[..], 0));
      CopyString(lastProbe, 0, name);
      LiesReads(lastProbe[..], 0, name);
      if parentProbe {
        return NotFound;
      }
      result := Fetch(inst, name, o, now);
      if !result.NotFound? {
        lastProbe[0] := NUL;
      }
    }

    /** dlz_lookup: `o` is the result of the fetch it may make, `refusedAt` the first row putrr refuses. */
    method Lookup(
      inst: nat, zoneName: string, name: string, o: Outcome, now: int, fillTime: int, refusedAt: Option<nat>)
      returns (result: Isc, emitted: seq<CachedRow>)
      requires Valid() && IsCString(zoneName) && ValidOutcome(o)
      modifies this, zone, rows, buf
      ensures Valid()
      ensures TheView() == AfterLookup(old(TheView()), inst, zoneName, name, o, now, fillTime)
      ensures var all := LookupRows(old(TheView()), inst, zoneName, name, o, now, fillTime);
              result == LookupResult(name, all, refusedAt) &&
              emitted == if all.Some? then Emits(all.value, refusedAt) else []
    {
      emitted := [];
      if name != "@" {
        return NotFound, [];
      }
      var usable := owner == Some(inst) && nrows != 0 && EqFold(CStr(zone[..], 0), zoneName);
      if !usable || now - filledNs > CACHE_MAX_AGE_NS {
        var r := Fetch(inst, zoneName, o, fillTime);
        if !r.Success? {
          return Failure, [];
        }
      }
      var ok;
      ok, emitted := PutRows(refusedAt);
      return if ok then Success else PutFailed, emitted;
    }

    /** The putrr loop, reading every row back at its offsets. */
    method PutRows(refusedAt: Option<nat>) returns (ok: bool, emitted: seq<CachedRow>)
      requires Valid() && owner.Some?
      ensures emitted == Emits(TheView().cache.value.rows, refusedAt)
      ensures ok <==> !(refusedAt.Some? && refusedAt.value < |TheView().cache.value.rows|)
    {
      emitted := [];
      ghost var all := Converted(source);
      for i := 0 to nrows
        invariant emitted == all[..i]
        invariant refusedAt.Some? ==> i <= refusedAt.value
      {
        if refusedAt == Some(i) {
          return false, emitted;
        }
        PackedReads(buf[..], rows[..], source, i);
        emitted := emitted + [CachedRow(rows[i].ttl, CStr(buf[..], rows[i].typeAt), CStr(buf[..], rows[i].dataAt))];
      }
      return true, emitted;
    }
  }

  /** Packing one more row behind the others leaves the others as they were. */
  lemma PackedExtends(b: seq<char>, refs: seq<RowRef>, rows: seq<Tuple>, n: nat, b': seq<char>, refs': seq<RowRef>)
    requires n < |rows| && Packed(b, refs, rows[..n])
    requires |b'| == |b| && |refs'| == |refs| > n
    requires forall i :: 0 <= i < n ==> refs'[i] == refs[i]
    requires forall i :: 0 <= i < Size(rows[..n]) && i < |b| ==> b'[i] == b[i]
    requires rows[n].ttl == Some(refs'[n].ttl)
    requires refs'[n].typeAt == Size(rows[..n]) && refs'[n].dataAt == refs'[n].typeAt + |rows[n].rtype| + 1
    requires Lies(b', refs'[n].typeAt, rows[n].rtype) && Lies(b', refs'[n].dataAt, rows[n].data)
    ensures Packed(b', refs', rows[..n + 1])
  {
    var more := rows[..n + 1];
    forall i | 0 <= i < |more|
      ensures PackedAt(b', refs', more, i)
    {
      assert more[..i] == rows[..i];
      if i < n {
        assert rows[..n][..i] == rows[..i];
        assert PackedAt(b, refs, rows[..n], i);
        SizeMonotone(rows, i, n);
        LiesFramed(b, b', refs[i].typeAt, rows[i].rtype);
        LiesFramed(b, b', refs[i].dataAt, rows[i].data);
      }
    }
  }
}
