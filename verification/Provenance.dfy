/**
 * From DNS messages to answers: over whole histories, what a client is told about a name is what the
 * upstream resolvers said in the last measurement that counts.
 */
module Provenance {
  import opened Common
  import opened Queue
  import opened Database
  import opened AnswerPolicy
  import opened AnswerGuarantees
  import opened AnswerTables
  import opened Resolvers
  import opened Measurement
  import opened Lifecycle

  /** Question j of a measurement: every resolver is asked for A, then every resolver for AAAA. */
  function AskedType(resolvers: seq<Address>, j: nat): RType {
    if j < |resolvers| then A else AAAA
  }

  /** The answers of a measurement are those to its questions, made from what came back for each. */
  ghost predicate Heard(ev: SysEvent, replies: seq<Reply>, resolvers: seq<Address>) {
    && ev.Measure? && |ev.answers| == |replies| == 2 * |resolvers|
    && forall j :: 0 <= j < |replies| ==>
         ev.answers[j] == Ask(replies[j], ev.name, AskedType(resolvers, j),
             resolvers[if j < |resolvers| then j else j - |resolvers|])
  }

  /** Reply j is a NOERROR message for type t whose CNAME chain leads from the name to a. */
  ghost predicate Returned(replies: seq<Reply>, resolvers: seq<Address>, j: nat, name: Name, t: RType, a: Address)
    requires j < |replies|
  {
    && AskedType(resolvers, j) == t
    && replies[j].Got? && replies[j].message.rcode == NoError && LeadsTo(replies[j].message, t, name, a)
  }

  /** Reply j is a message for type t with NOERROR or NXDOMAIN. */
  ghost predicate Spoke(replies: seq<Reply>, resolvers: seq<Address>, j: nat, t: RType)
    requires j < |replies|
  {
    && AskedType(resolvers, j) == t
    && replies[j].Got? && (replies[j].message.rcode == NoError || replies[j].message.rcode == NameError)
  }

  /** Every measurement of the history was made from the replies recorded for it. */
  ghost predicate AllHeard(h: History, cfg: Config, replies: seq<seq<Reply>>) {
    && |replies| == |h.events|
    && forall i :: 0 <= i < |h.events| && h.events[i].Measure? ==> Heard(h.events[i], replies[i], cfg.resolvers)
  }

  /** Some resolver gave a definitive reply for the type. */
  ghost predicate TypeSpoken(replies: seq<Reply>, resolvers: seq<Address>, t: RType) {
    exists j :: 0 <= j < |replies| && Spoke(replies, resolvers, j, t)
  }

  /** No reply for the type led to an address. */
  ghost predicate NoneReturned(replies: seq<Reply>, resolvers: seq<Address>, name: Name, t: RType) {
    forall j, a :: 0 <= j < |replies| ==> !Returned(replies, resolvers, j, name, t, a)
  }

  /** Answer j says what reply j said. */
  lemma AnswerSays(ev: SysEvent, replies: seq<Reply>, resolvers: seq<Address>, t: RType, j: nat)
    requires Heard(ev, replies, resolvers) && j < |replies|
    ensures ev.answers[j].rtype == t && Definitive(ev.answers[j]) <==> Spoke(replies, resolvers, j, t)
    ensures forall a :: ev.answers[j].rtype == t && a in ev.answers[j].addresses <==>
                        Returned(replies, resolvers, j, ev.name, t, a)
  {
    AskedAndAnswered(replies[j], ev.name, AskedType(resolvers, j),
        resolvers[if j < |resolvers| then j else j - |resolvers|]);
  }

  lemma SettledWasSpoken(ev: SysEvent, replies: seq<Reply>, resolvers: seq<Address>, t: RType)
    requires Heard(ev, replies, resolvers)
    ensures Settled(ev.answers, t) ==> TypeSpoken(replies, resolvers, t)
  {
    if j :| 0 <= j < |ev.answers| && ev.answers[j].rtype == t && Definitive(ev.answers[j]) {
      AnswerSays(ev, replies, resolvers, t, j);
    }
  }

  lemma AddressWasReturned(ev: SysEvent, replies: seq<Reply>, resolvers: seq<Address>, t: RType)
    requires Heard(ev, replies, resolvers)
    ensures HasAddress(ev.answers, t) <==> !NoneReturned(replies, resolvers, ev.name, t)
  {
    if j :| 0 <= j < |ev.answers| && ev.answers[j].rtype == t && ev.answers[j].addresses != [] {
      AnswerSays(ev, replies, resolvers, t, j);
      assert Returned(replies, resolvers, j, ev.name, t, ev.answers[j].addresses[0]);
    }
    if !NoneReturned(replies, resolvers, ev.name, t) {
      var j, a :| 0 <= j < |replies| && Returned(replies, resolvers, j, ev.name, t, a);
      AnswerSays(ev, replies, resolvers, t, j);
      assert a in ev.answers[j].addresses;
    }
  }

  /** Event i is the last stored measurement of d before event k that was not failed. */
  ghost predicate CountsLast(h: History, cfg: Config, i: nat, k: nat, d: Name)
    requires ValidHistory(h, cfg) && k <= |h.events|
  {
    i < k && ReplacesAt(h, cfg, i, d) && forall j :: i < j < k ==> !ReplacesAt(h, cfg, j, d)
  }

  /**
   * No false NODATA, down to the messages: when a name is served, the last stored measurement that was
   * not failed heard NOERROR or NXDOMAIN from some resolver for each type, and a type is missing from
   * the answer exactly when no NOERROR message for it led to an address.
   */
  lemma NoFalseNodataByMessages(
    h: History, cfg: Config, replies: seq<seq<Reply>>, k: nat, zone: string, record: string, now: Time, sh: Shuffle)
    returns (i: nat)
    requires FromEmptyStore(h, cfg) && k <= |h.events| && AllHeard(h, cfg, replies)
    requires IsShuffle(RecordsOf(h.dbs[k], Normalize(zone)), now, sh)
    requires IsApex(zone, record) && FindZone(h.dbs[k], zone, now)
    ensures CountsLast(h, cfg, i, k, Normalize(zone))
    ensures forall t: RType ::
              && TypeSpoken(replies[i], cfg.resolvers, t)
              && (Emitted(Lookup(h.dbs[k], zone, record, now, sh), t) == {} <==>
                    NoneReturned(replies[i], cfg.resolvers, Normalize(zone), t))
  {
    i := NoFalseNodata(h, cfg, k, zone, record, now, sh);
    var ev := h.events[i];
    assert Heard(ev, replies[i], cfg.resolvers);
    forall t: RType
      ensures TypeSpoken(replies[i], cfg.resolvers, t)
      ensures HasAddress(ev.answers, t) <==> !NoneReturned(replies[i], cfg.resolvers, Normalize(zone), t)
    {
      SettledWasSpoken(ev, replies[i], cfg.resolvers, t);
      AddressWasReturned(ev, replies[i], cfg.resolvers, t);
    }
  }

  /** A stored record carries an address of an answer to the measurement that stored it. */
  lemma RecordAnswered(h: History, cfg: Config, i: nat, d: Name, key: RecordKey) returns (j: nat)
    requires ValidHistory(h, cfg) && i < |h.events| && ReplacesAt(h, cfg, i, d) && key in RecordsOf(h.dbs[i + 1], d)
    ensures j < |h.events[i].answers| && Names(key, h.events[i].answers[j])
  {
    assert Lifecycle.StepAt(h, cfg, i);
    var ev := h.events[i];
    var o := Classify(ev.answers, cfg.backoff);
    var es := if o.status.Resolved? then ev.endpoints else [];
    j := StoredFromAnswers(h.dbs[i], d, o.status, o.retryAfter, es, ev.answers, h.times[i], key);
  }

  /** An emitted address is that of a stored record. */
  lemma EmittedIsStored(db: Db, zone: string, record: string, now: Time, sh: Shuffle, t: RType, a: Address)
    returns (key: RecordKey)
    requires ValidSettings(db.settings)
    requires IsShuffle(RecordsOf(db, Normalize(zone)), now, sh)
    requires IsApex(zone, record) && FindZone(db, zone, now)
    requires a in Emitted(Lookup(db, zone, record, now, sh), t)
    ensures key in RecordsOf(db, Normalize(zone)) && key.rtype == t && key.address == a
  {
    GreenestAnswer(db, zone, record, now, sh, t);
    key :| key in RecordsOf(db, Normalize(zone)) && key.rtype == t && key.address == a;
  }

  /**
   * Nothing is made up: every address in an answer was at the end of the CNAME chain of a NOERROR
   * message of the last stored measurement that was not failed, for the name and type asked.
   */
  lemma ServedWasReturned(
    h: History, cfg: Config, replies: seq<seq<Reply>>, k: nat, zone: string, record: string, now: Time, sh: Shuffle,
    t: RType, a: Address)
    returns (i: nat, j: nat)
    requires FromEmptyStore(h, cfg) && k <= |h.events| && AllHeard(h, cfg, replies)
    requires IsShuffle(RecordsOf(h.dbs[k], Normalize(zone)), now, sh)
    requires IsApex(zone, record) && FindZone(h.dbs[k], zone, now)
    requires a in Emitted(Lookup(h.dbs[k], zone, record, now, sh), t)
    ensures CountsLast(h, cfg, i, k, Normalize(zone))
    ensures j < |replies[i]| && Returned(replies[i], cfg.resolvers, j, Normalize(zone), t, a)
  {
    var d := Normalize(zone);
    SettingsStayValid(h, cfg, k);
    var key := EmittedIsStored(h.dbs[k], zone, record, now, sh, t, a);
    i := RecordsComeFrom(h, cfg, k, d);
    j := RecordAnswered(h, cfg, i, d, key);
    assert Heard(h.events[i], replies[i], cfg.resolvers);
    AnswerSays(h.events[i], replies[i], cfg.resolvers, t, j);
  }
}
