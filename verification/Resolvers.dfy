/** Upstream answers (services/src/cadns/resolvers/pool.py): CNAME following and negative TTLs. */
module Resolvers {
  import opened Common
  import opened Queue
  import opened Database

  datatype Rcode = NoError | NameError | ServerFailure | QueryRefused | OtherRcode

  /** An address RRset: its TTL and its sorted, duplicate-free addresses. */
  datatype AddressSet = AddressSet(ttl: nat, addresses: seq<Address>)

  /** A CNAME RRset: its TTL and the target of its first record. */
  datatype Alias = Alias(ttl: nat, target: Name)

  datatype Authority = SoaSet(ttl: nat, minimum: nat) | OtherSet

  /** A response, as far as it is read: RRsets by owner name and type, and the authority section. */
  datatype Message = Message(
    rcode: Rcode,
    addresses: map<(Name, RType), AddressSet>,
    aliases: map<Name, Alias>,
    authority: seq<Authority>)

  datatype AnswerStatus = NoErr | Nx | ServFail | Refused | Timeout | Error

  datatype Answer = Answer(
    resolver: Address,
    rtype: RType,
    status: AnswerStatus,
    addresses: seq<Address>,
    ttl: Option<nat>,
    negativeTtl: Option<nat>)

  /** The resolver gave a real answer (addresses, NODATA or NXDOMAIN). */
  predicate Definitive(a: Answer) {
    a.status.NoErr? || a.status.Nx?
  }

  const MAX_CNAME_HOPS: nat := 16

  /** Section 5 of RFC 2308: the smaller of the SOA's own TTL and its minimum field, from the first SOA. */
  function NegativeTtl(authority: seq<Authority>): (r: Option<nat>)
    ensures r.None? <==> forall i :: 0 <= i < |authority| ==> authority[i].OtherSet?
    ensures forall i :: 0 <= i < |authority| && authority[i].SoaSet?
                        && (forall j :: 0 <= j < i ==> authority[j].OtherSet?) ==>
                          r == Some(Min(authority[i].ttl, authority[i].minimum))
  {
    if authority == [] then None
    else if authority[0].SoaSet? then Some(Min(authority[0].ttl, authority[0].minimum))
    else
      var rest := authority[1..];
      assert forall i :: 0 <= i < |rest| ==> rest[i] == authority[i + 1];
      NegativeTtl(rest)
  }

  function MinSeq(s: seq<nat>): (m: nat)
    requires s != []
    ensures m in s
    ensures forall x :: x in s ==> m <= x
  {
    if |s| == 1 then s[0]
    else
      assert s == [s[0]] + s[1..];
      Min(s[0], MinSeq(s[1..]))
  }

  /** The loop of parse_response: what it returns from `name` with `hops` CNAMEs still allowed. */
  function Follow(m: Message, rtype: RType, name: Name, hops: nat, ttls: seq<nat>): Option<(seq<Address>, nat)>
    decreases hops
  {
    if (name, rtype) in m.addresses then
      Some((m.addresses[(name, rtype)].addresses, MinSeq(ttls + [m.addresses[(name, rtype)].ttl])))
    else if name !in m.aliases || hops == 0 then None
    else Follow(m, rtype, m.aliases[name].target, hops - 1, ttls + [m.aliases[name].ttl])
  }

  function Parse(m: Message, qname: Name, rtype: RType, resolver: Address): Answer {
    match m.rcode
    case NameError => Answer(resolver, rtype, Nx, [], None, NegativeTtl(m.authority))
    case ServerFailure => Answer(resolver, rtype, ServFail, [], None, None)
    case QueryRefused => Answer(resolver, rtype, Refused, [], None, None)
    case OtherRcode => Answer(resolver, rtype, Error, [], None, None)
    case NoError =>
      var found := Follow(m, rtype, qname, MAX_CNAME_HOPS, []);
      if found.Some? then Answer(resolver, rtype, NoErr, found.value.0, Some(found.value.1), None)
      else Answer(resolver, rtype, NoErr, [], None, NegativeTtl(m.authority))
  }

  /** parse_response, with its loop. */
  method ParseResponse(m: Message, qname: Name, rtype: RType, resolver: Address) returns (a: Answer)
    ensures a == Parse(m, qname, rtype, resolver)
  {
    if m.rcode.NameError? {
      return Answer(resolver, rtype, Nx, [], None, NegativeTtl(m.authority));
    }
    if !m.rcode.NoError? {
      var status := if m.rcode.ServerFailure? then ServFail else if m.rcode.QueryRefused? then Refused else Error;
      return Answer(resolver, rtype, status, [], None, None);
    }
    var name, ttls := qname, [];
    var i := 0;
    while i < MAX_CNAME_HOPS + 1
      invariant 0 <= i <= MAX_CNAME_HOPS + 1
      invariant i <= MAX_CNAME_HOPS ==>
                  Follow(m, rtype, qname, MAX_CNAME_HOPS, []) == Follow(m, rtype, name, MAX_CNAME_HOPS - i, ttls)
      invariant i == MAX_CNAME_HOPS + 1 ==> Follow(m, rtype, qname, MAX_CNAME_HOPS, []).None?
    {
      if (name, rtype) in m.addresses {
        var rrset := m.addresses[(name, rtype)];
        ttls := ttls + [rrset.ttl];
        return Answer(resolver, rtype, NoErr, rrset.addresses, Some(MinSeq(ttls)), None);
      }
      if name !in m.aliases {
        break;
      }
      ttls := ttls + [m.aliases[name].ttl];
      name := m.aliases[name].target;
      i := i + 1;
    }
    return Answer(resolver, rtype, NoErr, [], None, NegativeTtl(m.authority));
  }

  // ----- the chain, as section 3.6.2 of RFC 1034 describes it -----

  /** A CNAME chain: every name but the last is an alias of the next and owns no wanted RRset. */
  ghost predicate Chain(m: Message, rtype: RType, path: seq<Name>) {
    && path != []
    && forall i :: 0 <= i < |path| - 1 ==>
         (path[i], rtype) !in m.addresses && path[i] in m.aliases && m.aliases[path[i]].target == path[i + 1]
  }

  /** A chain from qname that ends at a name owning the wanted RRset. */
  ghost predicate Reaches(m: Message, rtype: RType, qname: Name, path: seq<Name>) {
    Chain(m, rtype, path) && path[0] == qname && (path[|path| - 1], rtype) in m.addresses
  }

  /** The TTLs met along a chain: those of its CNAMEs and of the RRset at its end. */
  ghost function PathTtls(m: Message, rtype: RType, path: seq<Name>): seq<nat>
    requires Chain(m, rtype, path) && (path[|path| - 1], rtype) in m.addresses
  {
    seq(|path|, i requires 0 <= i < |path| =>
      if i < |path| - 1 then m.aliases[path[i]].ttl else m.addresses[(path[i], rtype)].ttl)
  }

  lemma {:induction false} FollowFinds(m: Message, rtype: RType, name: Name, hops: nat, ttls: seq<nat>, path: seq<Name>)
    requires Reaches(m, rtype, name, path) && |path| <= hops + 1
    ensures Follow(m, rtype, name, hops, ttls) ==
            Some((m.addresses[(path[|path| - 1], rtype)].addresses, MinSeq(ttls + PathTtls(m, rtype, path))))
    decreases hops
  {
    if |path| == 1 {
      assert PathTtls(m, rtype, path) == [m.addresses[(name, rtype)].ttl];
    } else {
      assert path[0] == name && (path[0], rtype) !in m.addresses;
      Suffix(m, rtype, name, path, 1);
      FollowFinds(m, rtype, path[1], hops - 1, ttls + [m.aliases[name].ttl], path[1..]);
      assert PathTtls(m, rtype, path) == [m.aliases[name].ttl] + PathTtls(m, rtype, path[1..]);
      AppendAssoc(ttls, [m.aliases[name].ttl], PathTtls(m, rtype, path[1..]));
    }
  }

  lemma {:induction false} FollowSound(m: Message, rtype: RType, name: Name, hops: nat, ttls: seq<nat>)
    returns (path: seq<Name>)
    requires Follow(m, rtype, name, hops, ttls).Some?
    ensures Reaches(m, rtype, name, path) && |path| <= hops + 1
    decreases hops
  {
    if (name, rtype) in m.addresses {
      path := [name];
    } else {
      var rest := FollowSound(m, rtype, m.aliases[name].target, hops - 1, ttls + [m.aliases[name].ttl]);
      path := [name] + rest;
      forall i | 0 <= i < |path| - 1
        ensures (path[i], rtype) !in m.addresses && path[i] in m.aliases && m.aliases[path[i]].target == path[i + 1]
      {
        if i > 0 {
          assert path[i] == rest[i - 1] && path[i + 1] == rest[i];
        }
      }
    }
  }

  /**
   * A NOERROR response gives the addresses at the end of the CNAME chain, with the smallest TTL met
   * on the way, exactly when the chain reaches a name owning them within 16 hops; otherwise it is
   * NODATA with the negative TTL.
   */
  lemma ParseFollowsChain(m: Message, qname: Name, rtype: RType, resolver: Address)
    requires m.rcode.NoError?
    ensures var a := Parse(m, qname, rtype, resolver);
            && a.status.NoErr? && a.resolver == resolver && a.rtype == rtype
            && (a.ttl.Some? <==> exists path :: Reaches(m, rtype, qname, path) && |path| <= 17)
            && (forall path :: Reaches(m, rtype, qname, path) && |path| <= 17 ==>
                  && a.addresses == m.addresses[(path[|path| - 1], rtype)].addresses
                  && a.ttl == Some(MinSeq(PathTtls(m, rtype, path)))
                  && a.negativeTtl.None?)
            && (a.ttl.None? ==> a.addresses == [] && a.negativeTtl == NegativeTtl(m.authority))
  {
    var found := Follow(m, rtype, qname, MAX_CNAME_HOPS, []);
    if found.Some? {
      var path := FollowSound(m, rtype, qname, MAX_CNAME_HOPS, []);
    }
    forall path | Reaches(m, rtype, qname, path) && |path| <= MAX_CNAME_HOPS + 1
      ensures found == Some((m.addresses[(path[|path| - 1], rtype)].addresses, MinSeq(PathTtls(m, rtype, path))))
    {
      FollowFinds(m, rtype, qname, MAX_CNAME_HOPS, [], path);
      assert [] + PathTtls(m, rtype, path) == PathTtls(m, rtype, path);
    }
  }

  /** The status of an answer tells the rcode, and only NOERROR and NXDOMAIN are definitive. */
  lemma ParseStatus(m: Message, qname: Name, rtype: RType, resolver: Address)
    ensures var a := Parse(m, qname, rtype, resolver);
            && a.resolver == resolver && a.rtype == rtype
            && (a.status == NoErr <==> m.rcode == NoError)
            && (a.status == Nx <==> m.rcode == NameError)
            && (a.status == ServFail <==> m.rcode == ServerFailure)
            && (a.status == Refused <==> m.rcode == QueryRefused)
            && (a.status == Error <==> m.rcode == OtherRcode)
            && (Definitive(a) <==> m.rcode == NoError || m.rcode == NameError)
            && (m.rcode != NoError ==> a.addresses == [] && a.ttl == None)
            && (m.rcode == NameError ==> a.negativeTtl == NegativeTtl(m.authority))
            && (!Definitive(a) ==> a.negativeTtl == None)
  {
  }

  // ----- one question to one resolver -----

  /** What a query came to. */
  datatype Reply = Got(message: Message) | TimedOut | Broken

  /** ResolverPool._ask. */
  function Ask(reply: Reply, qname: Name, rtype: RType, resolver: Address): Answer {
    match reply
    case Got(m) => Parse(m, qname, rtype, resolver)
    case TimedOut => Answer(resolver, rtype, Timeout, [], None, None)
    case Broken => Answer(resolver, rtype, Error, [], None, None)
  }

  /** The chain from qname ends, within 16 hops, at a name that owns a. */
  ghost predicate LeadsTo(m: Message, rtype: RType, qname: Name, a: Address) {
    exists path :: Reaches(m, rtype, qname, path) && |path| <= 17 &&
        a in m.addresses[(path[|path| - 1], rtype)].addresses
  }

  /**
   * An answer is definitive exactly when a message with NOERROR or NXDOMAIN came back, and holds
   * exactly the addresses that the CNAME chain of a NOERROR message leads to.
   */
  lemma AskedAndAnswered(reply: Reply, qname: Name, rtype: RType, resolver: Address)
    ensures var a := Ask(reply, qname, rtype, resolver);
            && a.resolver == resolver && a.rtype == rtype
            && (Definitive(a) <==> reply.Got? && (reply.message.rcode == NoError || reply.message.rcode == NameError))
            && forall x :: x in a.addresses <==>
                             reply.Got? && reply.message.rcode == NoError && LeadsTo(reply.message, rtype, qname, x)
  {
    var a := Ask(reply, qname, rtype, resolver);
    if reply.Got? {
      ParseStatus(reply.message, qname, rtype, resolver);
      if reply.message.rcode.NoError? {
        ParseFollowsChain(reply.message, qname, rtype, resolver);
        forall x | x in a.addresses
          ensures LeadsTo(reply.message, rtype, qname, x)
        {
          var path :| Reaches(reply.message, rtype, qname, path) && |path| <= 17;
          assert a.addresses == reply.message.addresses[(path[|path| - 1], rtype)].addresses;
        }
      }
    }
  }

  /** Two chains that reach the RRset from the same name have the same length. */
  lemma {:induction false} ReachesOnce(m: Message, rtype: RType, name: Name, p: seq<Name>, q: seq<Name>)
    requires Reaches(m, rtype, name, p) && Reaches(m, rtype, name, q)
    ensures |p| == |q|
    decreases |p|
  {
    if |p| > 1 && |q| > 1 {
      Suffix(m, rtype, name, p, 1);
      Suffix(m, rtype, name, q, 1);
      ReachesOnce(m, rtype, p[1], p[1..], q[1..]);
    }
  }

  lemma Suffix(m: Message, rtype: RType, name: Name, p: seq<Name>, i: nat)
    requires Reaches(m, rtype, name, p) && i < |p|
    ensures Reaches(m, rtype, p[i], p[i..])
  {
    assert forall j :: 0 <= j < |p[i..]| ==> p[i..][j] == p[i + j];
  }

  lemma {:induction false} ChainsAgree(m: Message, rtype: RType, c: seq<Name>, p: seq<Name>, i: nat)
    requires Chain(m, rtype, c) && p != [] && Reaches(m, rtype, c[0], p) && i < |c|
    ensures i < |p| && p[i] == c[i]
  {
    if i > 0 {
      ChainsAgree(m, rtype, c, p, i - 1);
    }
  }

  /** A chain that comes back to a name it visited never reaches addresses, however many hops are allowed. */
  lemma LoopIsNoData(m: Message, qname: Name, rtype: RType, resolver: Address, c: seq<Name>, i: nat, j: nat)
    requires m.rcode.NoError?
    requires Chain(m, rtype, c) && c[0] == qname && i < j < |c| && c[i] == c[j]
    ensures !exists path :: Reaches(m, rtype, qname, path)
    ensures Parse(m, qname, rtype, resolver) == Answer(resolver, rtype, NoErr, [], None, NegativeTtl(m.authority))
  {
    if path :| Reaches(m, rtype, qname, path) {
      ChainsAgree(m, rtype, c, path, i);
      ChainsAgree(m, rtype, c, path, j);
      Suffix(m, rtype, qname, path, i);
      Suffix(m, rtype, qname, path, j);
      ReachesOnce(m, rtype, path[i], path[i..], path[j..]);
    }
    ParseFollowsChain(m, qname, rtype, resolver);
  }
}
