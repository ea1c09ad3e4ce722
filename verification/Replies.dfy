/**
 * What each reply makes `resolve_recursive` of src/resolver/recursive.rs do, in terms of the records in the
 * message, and what that makes the whole call return.
 */
module Replies {
  import opened Bytes
  import opened Names
  import opened Messages
  import opened Filters
  import opened Resolver
  import opened Answers

  // --- Records picked ---

  /** Records of a type owned by a name. */
  function AnswersTo(name: bytes, t: u16): Record -> bool { (r: Record) => SameName(r.name, name) && r.rtype == t }

  /** Address records of a host. */
  function AddressOf(host: bytes, ipv6: bool): Record -> bool {
    (r: Record) => SameName(r.name, host) && (r.rtype == 1 || (ipv6 && r.rtype == 28))
  }

  predicate Contains(rs: seq<Record>, t: u16) { exists r :: r in rs && r.rtype == t }

  predicate ContainsFor(rs: seq<Record>, name: bytes, t: u16) {
    exists r :: r in rs && SameName(r.name, name) && r.rtype == t
  }

  lemma {:induction false} OfTypeIs(rs: seq<Record>, t: u16)
    ensures Resolver.OfType(rs, t) == Filter(rs, HasType(t))
    ensures Resolver.OfType(rs, t) != [] <==> Contains(rs, t)
  {
    if rs != [] {
      OfTypeIs(rs[1..], t);
      assert rs == [rs[0]] + rs[1..];
    }
  }

  lemma {:induction false} OwnedIs(rs: seq<Record>, name: bytes, t: u16)
    ensures Owned(rs, name, t) == Filter(rs, AnswersTo(name, t))
    ensures Owned(rs, name, t) != [] <==> ContainsFor(rs, name, t)
  {
    hide SameName;
    if rs != [] {
      OwnedIs(rs[1..], name, t);
      assert rs == [rs[0]] + rs[1..];
    }
  }

  function NotType(t: u16): Record -> bool { (r: Record) => r.rtype != t }

  /** What the server puts behind the CNAMEs: all other records, in their order. */
  lemma {:induction false} OthersIs(rs: seq<Record>, t: u16)
    ensures Others(rs, t) == Filter(rs, NotType(t))
  {
    if rs != [] { OthersIs(rs[1..], t); }
  }

  lemma {:induction false} GlueIs(rs: seq<Record>, host: bytes, ipv6: bool)
    ensures Glue(rs, host, ipv6) == Filter(rs, AddressOf(host, ipv6))
  {
    hide SameName;
    if rs != [] { GlueIs(rs[1..], host, ipv6); }
  }

  /** An address is in a record. */
  predicate Gives(r: Record, ipv6: bool, ip: Ip) {
    r.parsed.Some? && (r.parsed.value == A(ip) || (ipv6 && r.parsed.value == AAAA(ip)))
  }

  lemma {:induction false} AddressesIff(rs: seq<Record>, ipv6: bool, ip: Ip)
    ensures ip in Addresses(rs, ipv6) <==> exists r :: r in rs && Gives(r, ipv6, ip)
  {
    if rs != [] {
      AddressesIff(rs[1..], ipv6, ip);
      assert rs == [rs[0]] + rs[1..];
      assert ip in Addresses(rs, ipv6) <==> Gives(rs[0], ipv6, ip) || ip in Addresses(rs[1..], ipv6);
      hide Gives;
    }
  }

  /** The first server goes to the end, the others move up. */
  function MovedUp(s: seq<Ip>): seq<Ip> {
    seq(|s|, i requires 0 <= i < |s| => s[if i + 1 < |s| then i + 1 else 0])
  }

  lemma RotateIs(s: seq<Ip>)
    ensures Rotate(s) == MovedUp(s)
  {
  }

  // --- One reply ---

  /** Without an answer from a server the call goes on with the next server; a query it cannot build ends it. */
  lemma NoReply(q: Ask, st: State, proved: bool)
    ensures React(q, st, Unsent, proved) == Finish(Bad(Unsendable))
    ensures React(q, st, Silence, proved) == Again(State(MovedUp(st.servers), st.revealed))
  {
    RotateIs(st.servers);
  }

  /** Record `i` is the first CNAME of the name, and it points somewhere. */
  predicate FirstCname(rs: seq<Record>, name: bytes, i: nat) {
    && i < |rs| && SameName(rs[i].name, name) && rs[i].rtype == 5
    && (forall j :: 0 <= j < i ==> !(SameName(rs[j].name, name) && rs[j].rtype == 5))
  }

  /** Where it points: the parsed name, or else the RDATA as it stands, unless that is empty. */
  predicate PointsTo(c: Record, t: bytes) {
    if c.parsed.Some? && c.parsed.value.CNAME? then c.parsed.value.host == t else c.rdata != [] && c.rdata == t
  }

  predicate Points(rs: seq<Record>, name: bytes) {
    exists i :: 0 <= i < |rs| && FirstCname(rs, name, i) && PointsSomewhere(rs[i])
  }

  predicate PointsSomewhere(c: Record) { (c.parsed.Some? && c.parsed.value.CNAME?) || c.rdata != [] }

  /**
   * NXDOMAIN ends the call with all SOA records; other errors go on, with the next server once the name is all
   * revealed.
   */
  lemma ErrorReply(q: Ask, st: State, msg: Message, proved: bool)
    requires msg.header.rcode != 0
    ensures msg.header.rcode == 3 ==>
              React(q, st, Got(msg), proved) ==
                Finish(Bad(NxDomain(Filter(msg.authorities, HasType(6)),
                                    q.dnssecOk && proved && Contains(msg.authorities, 46))))
    ensures msg.header.rcode != 3 ==>
              React(q, st, Got(msg), proved) ==
                Again(State(if st.revealed >= LabelCount(q.name) then MovedUp(st.servers) else st.servers, st.revealed))
  {
    hide SameName, LabelCount, Target, Resolver.OfType, Filter, Owned;
    RotateIs(st.servers);
    OfTypeIs(msg.authorities, 6);
    OfTypeIs(msg.authorities, 46);
  }

  /**
   * Without error, records of the asked type owned by the name, if there are any, are the answer, all of them and in
   * their order; else the first CNAME of the name is followed if it points somewhere; else the reply is a referral.
   */
  lemma OkReply(q: Ask, st: State, msg: Message, proved: bool)
    requires msg.header.rcode == 0
    ensures var a := React(q, st, Got(msg), proved);
            var answered := ContainsFor(msg.answers, q.name, q.rtype);
            && (answered ==> a == Answer(Filter(msg.answers, AnswersTo(q.name, q.rtype))))
            && (!answered && !Points(msg.answers, q.name) ==> a == Refer(msg))
            && (!answered && Points(msg.answers, q.name) ==>
                  exists i, t :: 0 <= i < |msg.answers| && FirstCname(msg.answers, q.name, i)
                                 && PointsTo(msg.answers[i], t) && a == Follow(msg.answers[i], t))
  {
    hide SameName, LabelCount, Resolver.OfType, Filter, Owned;
    OwnedIs(msg.answers, q.name, q.rtype);
    OwnedIs(msg.answers, q.name, 5);
    var cnames := Owned(msg.answers, q.name, 5);
    if cnames != [] {
      var i := FilterFirst(msg.answers, AnswersTo(q.name, 5));
      assert FirstCname(msg.answers, q.name, i);
      assert Target(cnames[0]).Some? ==> PointsTo(msg.answers[i], Target(cnames[0]).value);
      forall j | 0 <= j < |msg.answers| && FirstCname(msg.answers, q.name, j) ensures j == i {}
      assert Points(msg.answers, q.name) <==> PointsSomewhere(msg.answers[i]);
    } else {
      forall j | 0 <= j < |msg.answers| ensures !FirstCname(msg.answers, q.name, j) {
        assert msg.answers[j] in msg.answers;
      }
    }
  }

  /**
   * After a referral: servers found are used and one more label is revealed; else an SOA record ends the call with
   * NODATA; else the next server is asked, for the full name if there was no referral at all.
   */
  lemma ReferralReply(q: Ask, st: State, msg: Message, found: seq<Ip>, proved: bool)
    ensures var a := AfterReferral(q, st, msg, found, proved);
            var total := LabelCount(q.name);
            && (found != [] ==> a == Again(State(found, if st.revealed < total then st.revealed + 1 else st.revealed)))
            && (found == [] && Contains(msg.authorities, 6) ==>
                  a == Finish(Good([], q.dnssecOk && proved && Contains(msg.authorities, 46))))
            && (found == [] && !Contains(msg.authorities, 6) ==>
                  var unreferred := st.revealed < total && !Contains(msg.authorities, 2);
                  a == Again(State(MovedUp(st.servers), if unreferred then total else st.revealed)))
  {
    hide LabelCount, Resolver.OfType, Filter;
    RotateIs(st.servers);
    OfTypeIs(msg.authorities, 6);
    OfTypeIs(msg.authorities, 46);
    OfTypeIs(msg.authorities, 2);
  }

  // --- The servers of a referral ---

  predicate Named(ns: Record, host: bytes) {
    if ns.parsed.Some? && ns.parsed.value.NS? then ns.parsed.value.host == host else ns.rdata == host
  }

  predicate HasGlue(extra: seq<Record>, host: bytes, ipv6: bool) {
    exists r :: r in extra && SameName(r.name, host) && (r.rtype == 1 || (ipv6 && r.rtype == 28))
  }

  predicate GlueGives(extra: seq<Record>, host: bytes, ipv6: bool, ip: Ip) {
    exists r :: r in extra && SameName(r.name, host) && (r.rtype == 1 || (ipv6 && r.rtype == 28)) && Gives(r, ipv6, ip)
  }

  /** A server record gives the addresses in its glue, or those cached for it if it has no glue. */
  ghost predicate ServerGives(ns: Record, extra: seq<Record>, ipv6: bool, cached: Option<seq<Ip>>, ip: Ip) {
    exists host :: Named(ns, host)
                   && if HasGlue(extra, host, ipv6) then GlueGives(extra, host, ipv6, ip)
                      else cached.Some? && ip in cached.value
  }

  function CachedFor(cached: seq<Option<seq<Ip>>>, j: nat): Option<seq<Ip>> {
    if j < |cached| then cached[j] else None
  }

  lemma GlueIff(extra: seq<Record>, host: bytes, ipv6: bool, ip: Ip)
    ensures Glue(extra, host, ipv6) != [] <==> HasGlue(extra, host, ipv6)
    ensures ip in Addresses(Glue(extra, host, ipv6), ipv6) <==> GlueGives(extra, host, ipv6, ip)
  {
    hide SameName, Gives, Glue, Addresses, Filter;
    GlueIs(extra, host, ipv6);
    FilterMembers(extra, AddressOf(host, ipv6));
    AddressesIff(Glue(extra, host, ipv6), ipv6, ip);
    if r :| r in extra && SameName(r.name, host) && (r.rtype == 1 || (ipv6 && r.rtype == 28)) {
      assert r in Glue(extra, host, ipv6);
    }
    if Glue(extra, host, ipv6) != [] { assert Glue(extra, host, ipv6)[0] in Glue(extra, host, ipv6); }
  }

  lemma ServerGivesIff(extra: seq<Record>, ns: seq<Record>, ipv6: bool, cached: seq<Option<seq<Ip>>>, j: nat, ip: Ip)
    requires j < |ns|
    ensures Provides(ipv6, extra, ns, cached, j, ip) <==> ServerGives(ns[j], extra, ipv6, CachedFor(cached, j), ip)
  {
    hide SameName, Gives, Glue, Addresses, HasGlue, GlueGives;
    GlueIff(extra, NsHost(ns[j]), ipv6, ip);
    assert Named(ns[j], NsHost(ns[j]));
    forall host | Named(ns[j], host) ensures host == NsHost(ns[j]) {}
  }

  /** The question asked for a server's name: its IPv4 addresses, one level down, the name in full, without DNSSEC. */
  function ServerAsk(q: Ask, host: bytes): Ask { Ask(host, 1, q.rclass, q.depth + 1, false, false) }

  /** The call for name `k` ended well, and a record it returned gives the address. */
  ghost predicate NameGives(net: Net, path: Path, q: Ask, i: nat, names: seq<bytes>, k: nat, ip: Ip) {
    && k < |names| && !SameName(names[k], [0])
    && var r := Resolve(net, path + [NsHop(i, k)], ServerAsk(q, names[k])).result;
       r.Good? && exists rec :: rec in r.records && Gives(rec, false, ip)
  }

  lemma FoundIff(r: Result, ip: Ip)
    ensures ip in Found(r) <==> r.Good? && exists rec :: rec in r.records && Gives(rec, false, ip)
  {
    if r.Good? { AddressesIff(r.records, false, ip); }
    hide Addresses, Gives;
  }

  lemma {:induction false} NamesGive(net: Net, path: Path, q: Ask, i: nat, names: seq<bytes>, j: nat, ip: Ip)
    requires q.depth <= MAX_CNAME_DEPTH && j <= |names|
    ensures ip in ResolveNames(net, path, q, i, names, j).ips <==>
              exists k :: j <= k < |names| && NameGives(net, path, q, i, names, k, ip)
    decreases |names| - j
  {
    hide Resolve, SameName, Found, Gives;
    if j < |names| {
      NamesGive(net, path, q, i, names, j + 1, ip);
      FoundIff(Resolve(net, path + [NsHop(i, j)], NsAsk(q, names[j])).result, ip);
      assert ip in ResolveNames(net, path, q, i, names, j).ips <==>
          NameGives(net, path, q, i, names, j, ip) || ip in ResolveNames(net, path, q, i, names, j + 1).ips;
      hide NameGives;
    }
  }

  /** Addresses a referral leads to: those its records give, and those resolving the remaining names gives. */
  lemma ServersIff(net: Net, path: Path, q: Ask, i: nat, msg: Message, ip: Ip)
    requires q.depth <= MAX_CNAME_DEPTH
    ensures var ns, names := Filter(msg.authorities, HasType(2)), ReferralOf(net, path, i, msg).unresolved;
            ip in Servers(net, path, q, i, msg).ips <==>
              (exists j :: 0 <= j < |ns|
                           && ServerGives(ns[j], msg.additionals, net.ipv6, CachedFor(net.cached(path, i), j), ip))
              || exists k :: 0 <= k < |names| && NameGives(net, path, q, i, names, k, ip)
  {
    OfTypeIs(msg.authorities, 2);
    hide ResolveNames, NameGives, ServerGives, Provides, Gather, Resolver.OfType, Filter, Lacks;
    var ns := Filter(msg.authorities, HasType(2));
    var cached := net.cached(path, i);
    GatherIff(net.ipv6, msg.additionals, ns, cached, 0, ip, []);
    forall j | 0 <= j < |ns|
      ensures Provides(net.ipv6, msg.additionals, ns, cached, j, ip) <==>
                ServerGives(ns[j], msg.additionals, net.ipv6, CachedFor(cached, j), ip)
    {
      ServerGivesIff(msg.additionals, ns, net.ipv6, cached, j, ip);
    }
    NamesGive(net, path, q, i, ReferralOf(net, path, i, msg).unresolved, 0, ip);
  }

  // --- What a call returns ---

  /**
   * A call starts with the delegation cached for it and the full name, or at the root, with one label when
   * minimising.
   */
  lemma StartIs(q: Ask, roots: seq<Ip>, hit: Option<seq<Ip>>)
    ensures Start(q, roots, hit) ==
              State(if hit.Some? then hit.value else roots,
                    if hit.Some? || !q.minimize then LabelCount(q.name) else 1)
  {
    hide LabelCount;
  }

  lemma RoundIs(net: Net, s: Stage)
    requires s.q.depth <= MAX_CNAME_DEPTH
    ensures var round, a := Round(net, s.path, s.q, s.st, s.iteration), Reaction(net, s);
            && (a.Finish? ==> round == Done(a.result, 1))
            && (a.Answer? ==> round == Done(Answered(s.q, a.direct, net.verdict(s.path, s.iteration)), 1))
            && (a.Follow? ==>
                  round.Done? && round.result ==
                    Chased(a.cname, Resolve(net, s.path + [CnameHop(s.iteration)], ChaseAsk(s.q, a.target)).result))
  {
    hide React, Resolve, Servers, Answered, AfterReferral, Chased;
  }

  /**
   * A call that gets an answer returns it complete: without DNSSEC exactly the records of the asked type owned by the
   * name, all of them and in order; with it also when the validator accepts them, and an error when it rejects them.
   */
  lemma AnswerReturned(net: Net, s: Stage, msg: Message)
    requires Reaches(net, s) && net.reply(s.path, s.iteration) == Got(msg)
    requires msg.header.rcode == 0 && ContainsFor(msg.answers, s.q.name, s.q.rtype)
    ensures var r := Resolve(net, s.path, s.q).result;
            var rs := Filter(msg.answers, AnswersTo(s.q.name, s.q.rtype));
            if !s.q.dnssecOk || s.q.rtype in {46, 48, 43} then r == Good(rs, false)
            else match net.verdict(s.path, s.iteration) case Accept(secure) => r == Good(rs, secure)
              case Reject => r == Bad(Rejected)
  {
    OkReply(s.q, s.st, msg, net.denialProved(s.path, s.iteration));
    hide React, Filter, ContainsFor, Points, Reaches, Round, Resolve, FirstCname, PointsTo;
    RoundIs(net, s);
    EndsAt(net, s);
  }

  /** A call that gets an NXDOMAIN fails with it and all SOA records of the reply. */
  lemma NxDomainReturned(net: Net, s: Stage, msg: Message)
    requires Reaches(net, s) && net.reply(s.path, s.iteration) == Got(msg) && msg.header.rcode == 3
    ensures Resolve(net, s.path, s.q).result ==
              Bad(NxDomain(Filter(msg.authorities, HasType(6)),
                           s.q.dnssecOk && net.denialProved(s.path, s.iteration) && Contains(msg.authorities, 46)))
  {
    ErrorReply(s.q, s.st, msg, net.denialProved(s.path, s.iteration));
    hide React, Filter, Contains, Reaches, Round, Resolve;
    RoundIs(net, s);
    EndsAt(net, s);
  }

  /**
   * A call that gets a CNAME and no answer returns it followed by what the call for its target returns, or that
   * failure.
   */
  lemma CnameReturned(net: Net, s: Stage, msg: Message)
    requires Reaches(net, s) && net.reply(s.path, s.iteration) == Got(msg) && msg.header.rcode == 0
    requires !ContainsFor(msg.answers, s.q.name, s.q.rtype) && Points(msg.answers, s.q.name)
    ensures exists i, t :: 0 <= i < |msg.answers| && FirstCname(msg.answers, s.q.name, i) && PointsTo(msg.answers[i], t)
              && var sub := Resolve(net, s.path + [CnameHop(s.iteration)],
                                    Ask(t, s.q.rtype, s.q.rclass, s.q.depth + 1, true, s.q.dnssecOk)).result;
                 Resolve(net, s.path, s.q).result ==
                   if sub.Good? then Good([msg.answers[i]] + sub.records, sub.ad) else sub
  {
    OkReply(s.q, s.st, msg, net.denialProved(s.path, s.iteration));
    var a := Reaction(net, s);
    hide React, Filter, ContainsFor, Points, Reaches, Round, Resolve, FirstCname, PointsTo;
    RoundIs(net, s);
    EndsAt(net, s);
    var i, t :| 0 <= i < |msg.answers| && FirstCname(msg.answers, s.q.name, i) && PointsTo(msg.answers[i], t)
      && a == Follow(msg.answers[i], t);
    assert ChaseAsk(s.q, t) == Ask(t, s.q.rtype, s.q.rclass, s.q.depth + 1, true, s.q.dnssecOk);
  }

  /** A call that gets neither, no servers and an SOA record returns no records: NODATA. */
  lemma NoDataReturned(net: Net, s: Stage, msg: Message)
    requires Reaches(net, s) && net.reply(s.path, s.iteration) == Got(msg) && msg.header.rcode == 0
    requires !ContainsFor(msg.answers, s.q.name, s.q.rtype) && !Points(msg.answers, s.q.name)
    requires Servers(net, s.path, s.q, s.iteration, msg).ips == [] && Contains(msg.authorities, 6)
    ensures Resolve(net, s.path, s.q).result ==
              Good([], s.q.dnssecOk && net.denialProved(s.path, s.iteration) && Contains(msg.authorities, 46))
  {
    var proved := net.denialProved(s.path, s.iteration);
    OkReply(s.q, s.st, msg, proved);
    ReferralReply(s.q, s.st, msg, [], proved);
    var spent := 1 + Servers(net, s.path, s.q, s.iteration, msg).rounds;
    assert Round(net, s.path, s.q, s.st, s.iteration) ==
        Concluded(AfterReferral(s.q, s.st, msg, [], proved), spent) by {
      hide React, AfterReferral, Servers, Resolve, Answered;
    }
    hide React, Filter, ContainsFor, Points, Contains, Reaches, Round, Resolve, AfterReferral, Servers;
    EndsAt(net, s);
  }
}
