/**
 * Iterative resolution of src/resolver/recursive.rs: referrals, QNAME minimisation, CNAME chasing and the mutual
 * recursion with the resolution of name server names, against any network.
 */
module Resolver {
  import opened Bytes
  import opened Names
  import opened Messages

  const MAX_ITERATIONS := 32
  const MAX_CNAME_DEPTH := 10
  const A_TYPE: u16 := 1
  const NS_TYPE: u16 := 2
  const CNAME_TYPE: u16 := 5
  const SOA_TYPE: u16 := 6
  const AAAA_TYPE: u16 := 28
  const RRSIG_TYPE: u16 := 46

  type Ip = bytes

  /** The arguments of `resolve_recursive`, with the resolver's `dnssec_ok`. */
  datatype Ask = Ask(name: bytes, rtype: u16, rclass: u16, depth: nat, minimize: bool, dnssecOk: bool)

  /** What one round of concurrent queries brings; `Unsent` when the query cannot be built. */
  datatype Reply = Unsent | Silence | Got(msg: Message)

  /** What validating a direct answer concludes. */
  datatype Verdict = Accept(secure: bool) | Reject

  datatype Failure = TooDeep | NoServers | NxDomain(soa: seq<Record>, ad: bool) | Rejected | Exhausted | Unsendable

  datatype Result = Good(records: seq<Record>, ad: bool) | Bad(why: Failure)

  /** How a nested call was reached from its caller: from which iteration, and for which server name. */
  datatype Hop = CnameHop(iteration: nat) | NsHop(iteration: nat, index: nat)

  type Path = seq<Hop>

  /**
   * Everything a call does not control, by call path and iteration: network, shared caches, clock, validator.
   * No question is asked twice, so every adaptive and time-dependent environment is one of these.
   */
  datatype Net = Net(
    ipv6: bool,
    roots: seq<Ip>,
    delegation: Path -> Option<seq<Ip>>,
    reply: (Path, nat) -> Reply,
    cached: (Path, nat) -> seq<Option<seq<Ip>>>,
    verdict: (Path, nat) -> Verdict,
    denialProved: (Path, nat) -> bool)

  // --- One iteration ---

  /** The loop's own state. */
  datatype State = State(servers: seq<Ip>, revealed: nat)

  datatype Action =
    | Again(state: State)
    | Finish(result: Result)
    | Answer(direct: seq<Record>)
    | Follow(cname: Record, target: bytes)
    | Refer(msg: Message)

  function Rotate(s: seq<Ip>): seq<Ip> { if |s| > 1 then s[1..] + [s[0]] else s }

  function OfType(rs: seq<Record>, t: u16): (r: seq<Record>)
    ensures forall i :: 0 <= i < |r| ==> r[i].rtype == t
  {
    if rs == [] then [] else (if rs[0].rtype == t then [rs[0]] else []) + OfType(rs[1..], t)
  }

  /** Records of a type owned by a name. */
  function Owned(rs: seq<Record>, name: bytes, t: u16): (r: seq<Record>)
    ensures forall i :: 0 <= i < |r| ==> r[i].rtype == t && SameName(r[i].name, name)
  {
    if rs == [] then []
    else (if SameName(rs[0].name, name) && rs[0].rtype == t then [rs[0]] else []) + Owned(rs[1..], name, t)
  }

  /** Where a CNAME record points: its parsed name, or its raw RDATA unless that is empty. */
  function Target(c: Record): Option<bytes> {
    match c.parsed
    case Some(CNAME(host)) => Some(host)
    case _ => if c.rdata != [] then Some(c.rdata) else None
  }

  function React(q: Ask, st: State, reply: Reply, proved: bool): Action {
    match reply
    case Unsent => Finish(Bad(Unsendable))
    case Silence => Again(st.(servers := Rotate(st.servers)))
    case Got(msg) =>
      var signed := OfType(msg.authorities, RRSIG_TYPE) != [];
      if msg.header.rcode == 3 then
        Finish(Bad(NxDomain(OfType(msg.authorities, SOA_TYPE), q.dnssecOk && signed && proved)))
      else if msg.header.rcode != 0 then
        Again(if st.revealed >= LabelCount(q.name) then st.(servers := Rotate(st.servers)) else st)
      else
        var direct := Owned(msg.answers, q.name, q.rtype);
        if direct != [] then Answer(direct)
        else
          var cnames := Owned(msg.answers, q.name, CNAME_TYPE);
          if cnames != [] && Target(cnames[0]).Some? then Follow(cnames[0], Target(cnames[0]).value)
          else Refer(msg)
  }

  /** How a direct answer ends the call; signatures, keys and DS records are not validated themselves. */
  function Answered(q: Ask, direct: seq<Record>, verdict: Verdict): Result {
    if !q.dnssecOk || q.rtype in {46, 48, 43} then Good(direct, false)
    else match verdict case Accept(secure) => Good(direct, secure) case Reject => Bad(Rejected)
  }

  /** Name servers of a referral: addresses already known, and names still to be resolved. */
  datatype Referral = Referral(known: seq<Ip>, unresolved: seq<bytes>)

  function NsHost(ns: Record): bytes { match ns.parsed case Some(NS(host)) => host case _ => ns.rdata }

  function Glue(rs: seq<Record>, host: bytes, ipv6: bool): seq<Record> {
    if rs == [] then []
    else (if SameName(rs[0].name, host) && (rs[0].rtype == A_TYPE || (ipv6 && rs[0].rtype == AAAA_TYPE))
          then [rs[0]] else []) + Glue(rs[1..], host, ipv6)
  }

  function Addresses(rs: seq<Record>, ipv6: bool): seq<Ip> {
    if rs == [] then []
    else (match rs[0].parsed
          case Some(A(ip)) => [ip]
          case Some(AAAA(ip)) => if ipv6 then [ip] else []
          case _ => []) + Addresses(rs[1..], ipv6)
  }

  /** `cached[j]` is what the NS cache holds for the `j`-th record. */
  function Gather(ipv6: bool, glue: seq<Record>, ns: seq<Record>, cached: seq<Option<seq<Ip>>>, j: nat): (r: Referral)
    ensures |r.unresolved| <= if j <= |ns| then |ns| - j else 0
    decreases |ns| - j
  {
    if j >= |ns| then Referral([], [])
    else
      var rest := Gather(ipv6, glue, ns, cached, j + 1);
      var host := NsHost(ns[j]);
      var own := Glue(glue, host, ipv6);
      if own != [] then rest.(known := Addresses(own, ipv6) + rest.known)
      else if j < |cached| && cached[j].Some? then rest.(known := cached[j].value + rest.known)
      else rest.(unresolved := [host] + rest.unresolved)
  }

  /** What an iteration without answer or CNAME does once it knows all addresses `found` of the referral. */
  function AfterReferral(q: Ask, st: State, msg: Message, found: seq<Ip>, proved: bool): (a: Action)
    ensures a.Again? || a.Finish?
  {
    var total := LabelCount(q.name);
    if found != [] then Again(State(found, if st.revealed < total then st.revealed + 1 else st.revealed))
    else if OfType(msg.authorities, SOA_TYPE) != [] then
      Finish(Good([], q.dnssecOk && OfType(msg.authorities, RRSIG_TYPE) != [] && proved))
    else
      var jump := st.revealed < total && OfType(msg.authorities, NS_TYPE) == [];
      Again(State(Rotate(st.servers), if jump then total else st.revealed))
  }

  function Start(q: Ask, roots: seq<Ip>, hit: Option<seq<Ip>>): State {
    match hit
    case Some(servers) => State(servers, LabelCount(q.name))
    case None => State(roots, if q.minimize then 1 else LabelCount(q.name))
  }

  // --- The recursion ---

  /** A result and how many rounds of server queries were spent on it. */
  datatype Run = Run(result: Result, rounds: nat)

  datatype Batch = Batch(ips: seq<Ip>, rounds: nat)

  /** Depths left; zero beyond the CNAME limit. */
  function Left(depth: nat): nat { if depth > MAX_CNAME_DEPTH then 0 else MAX_CNAME_DEPTH + 1 - depth }

  function Spend(rounds: nat, r: Run): Run { r.(rounds := rounds + r.rounds) }

  function Resolve(net: Net, path: Path, q: Ask): Run
    decreases Left(q.depth), MAX_ITERATIONS + 2, 0
  {
    if q.depth > MAX_CNAME_DEPTH then Run(Bad(TooDeep), 0)
    else Iterate(net, path, q, Start(q, net.roots, net.delegation(path)), 0)
  }

  function ChaseAsk(q: Ask, target: bytes): Ask { q.(name := target, depth := q.depth + 1, minimize := true) }

  function NsAsk(q: Ask, host: bytes): Ask { Ask(host, A_TYPE, q.rclass, q.depth + 1, false, false) }

  function Chased(c: Record, r: Result): Result {
    match r case Good(rs, ad) => Good([c] + rs, ad) case Bad(_) => r
  }

  /** How an iteration ends, with the rounds of queries it cost, nested calls included. */
  datatype Next = More(state: State, spent: nat) | Done(result: Result, spent: nat)

  function Concluded(a: Action, spent: nat): Next
    requires a.Again? || a.Finish?
  {
    match a case Again(st) => More(st, spent) case Finish(r) => Done(r, spent)
  }

  function Round(net: Net, path: Path, q: Ask, st: State, i: nat): Next
    requires q.depth <= MAX_CNAME_DEPTH
    decreases Left(q.depth), 0, 0
  {
    var proved := net.denialProved(path, i);
    match React(q, st, net.reply(path, i), proved)
    case Again(st') => More(st', 1)
    case Finish(r) => Done(r, 1)
    case Answer(direct) => Done(Answered(q, direct, net.verdict(path, i)), 1)
    case Follow(c, target) =>
      var sub := Resolve(net, path + [CnameHop(i)], ChaseAsk(q, target));
      Done(Chased(c, sub.result), 1 + sub.rounds)
    case Refer(msg) =>
      var batch := Servers(net, path, q, i, msg);
      Concluded(AfterReferral(q, st, msg, batch.ips, proved), 1 + batch.rounds)
  }

  function Iterate(net: Net, path: Path, q: Ask, st: State, i: nat): Run
    requires q.depth <= MAX_CNAME_DEPTH && i <= MAX_ITERATIONS
    decreases Left(q.depth), 1 + MAX_ITERATIONS - i, 0
  {
    if i == MAX_ITERATIONS then Run(Bad(Exhausted), 0)
    else if st.servers == [] then Run(Bad(NoServers), 0)
    else
      match Round(net, path, q, st, i)
      case More(st', spent) => Spend(spent, Iterate(net, path, q, st', i + 1))
      case Done(r, spent) => Run(r, spent)
  }

  function ReferralOf(net: Net, path: Path, i: nat, msg: Message): Referral {
    Gather(net.ipv6, msg.additionals, OfType(msg.authorities, NS_TYPE), net.cached(path, i), 0)
  }

  /** All addresses a referral leads to, known and newly resolved, and the rounds spent on resolving. */
  function Servers(net: Net, path: Path, q: Ask, i: nat, msg: Message): Batch
    requires q.depth <= MAX_CNAME_DEPTH
    decreases Left(q.depth + 1), MAX_ITERATIONS + 4, 0
  {
    var ref := ReferralOf(net, path, i, msg);
    var batch := ResolveNames(net, path, q, i, ref.unresolved, 0);
    Batch(ref.known + batch.ips, batch.rounds)
  }

  /** IPv4 addresses among the records of an answer. */
  function Found(r: Result): seq<Ip> { if r.Good? then Addresses(r.records, false) else [] }

  /** The names that are resolved concurrently, in order; the root is skipped. */
  function ResolveNames(net: Net, path: Path, q: Ask, i: nat, names: seq<bytes>, j: nat): Batch
    requires q.depth <= MAX_CNAME_DEPTH && j <= |names|
    decreases Left(q.depth + 1), MAX_ITERATIONS + 3, |names| - j
  {
    if j == |names| then Batch([], 0)
    else
      var rest := ResolveNames(net, path, q, i, names, j + 1);
      if SameName(names[j], [0]) then rest
      else
        var sub := Resolve(net, path + [NsHop(i, j)], NsAsk(q, names[j]));
        Batch(Found(sub.result) + rest.ips, sub.rounds + rest.rounds)
  }

  // --- The loops of the source ---

  lemma GatherStep(ipv6: bool, glue: seq<Record>, ns: seq<Record>, cached: seq<Option<seq<Ip>>>, j: nat)
    ensures j >= |ns| ==> Gather(ipv6, glue, ns, cached, j) == Referral([], [])
    ensures j < |ns| ==>
              var all, rest := Gather(ipv6, glue, ns, cached, j), Gather(ipv6, glue, ns, cached, j + 1);
              var own := Glue(glue, NsHost(ns[j]), ipv6);
              var hit := own == [] && j < |cached| && cached[j].Some?;
              && all.known ==
                   (if own != [] then Addresses(own, ipv6) else if hit then cached[j].value else []) + rest.known
              && all.unresolved == (if own != [] || hit then [] else [NsHost(ns[j])]) + rest.unresolved
  {
    hide Glue, Addresses, NsHost;
  }

  predicate CachedAt(cached: seq<Option<seq<Ip>>>, j: nat) { j < |cached| && cached[j].Some? }

  /** Record `j` is where address `ip` comes from: its own glue, or without glue the NS cache. */
  predicate Provides(ipv6: bool, glue: seq<Record>, ns: seq<Record>, cached: seq<Option<seq<Ip>>>, j: nat, ip: Ip)
    requires j < |ns|
  {
    var own := Glue(glue, NsHost(ns[j]), ipv6);
    if own != [] then ip in Addresses(own, ipv6) else CachedAt(cached, j) && ip in cached[j].value
  }

  /** Record `j` names `host`, with neither glue nor cached addresses. */
  predicate Lacks(ipv6: bool, glue: seq<Record>, ns: seq<Record>, cached: seq<Option<seq<Ip>>>, j: nat, host: bytes)
    requires j < |ns|
  {
    NsHost(ns[j]) == host && Glue(glue, host, ipv6) == [] && !CachedAt(cached, j)
  }

  /** Known addresses are exactly those some NS record provides; names to resolve exactly those without any source. */
  lemma {:induction false} GatherIff(ipv6: bool, glue: seq<Record>, ns: seq<Record>, cached: seq<Option<seq<Ip>>>,
                                     j: nat, ip: Ip, host: bytes)
    ensures ip in Gather(ipv6, glue, ns, cached, j).known <==>
              exists k :: j <= k < |ns| && Provides(ipv6, glue, ns, cached, k, ip)
    ensures host in Gather(ipv6, glue, ns, cached, j).unresolved <==>
              exists k :: j <= k < |ns| && Lacks(ipv6, glue, ns, cached, k, host)
    decreases |ns| - j
  {
    hide Gather, Glue, Addresses, NsHost;
    GatherStep(ipv6, glue, ns, cached, j);
    if j < |ns| {
      GatherIff(ipv6, glue, ns, cached, j + 1, ip, host);
      var all, rest := Gather(ipv6, glue, ns, cached, j), Gather(ipv6, glue, ns, cached, j + 1);
      assert ip in all.known <==> Provides(ipv6, glue, ns, cached, j, ip) || ip in rest.known;
      assert host in all.unresolved <==> Lacks(ipv6, glue, ns, cached, j, host) || host in rest.unresolved;
    }
  }

  lemma IterateStep(net: Net, path: Path, q: Ask, st: State, i: nat)
    requires q.depth <= MAX_CNAME_DEPTH && i <= MAX_ITERATIONS
    ensures i == MAX_ITERATIONS ==> Iterate(net, path, q, st, i) == Run(Bad(Exhausted), 0)
    ensures i < MAX_ITERATIONS && st.servers == [] ==> Iterate(net, path, q, st, i) == Run(Bad(NoServers), 0)
    ensures i < MAX_ITERATIONS && st.servers != [] ==>
              var next := Round(net, path, q, st, i);
              Iterate(net, path, q, st, i) ==
                if next.Done? then Run(next.result, next.spent)
                else var rest := Iterate(net, path, q, next.state, i + 1); Run(rest.result, next.spent + rest.rounds)
  {
    hide Round;
  }

  method GatherServers(ipv6: bool, glue: seq<Record>, ns: seq<Record>, cached: seq<Option<seq<Ip>>>)
    returns (known: seq<Ip>, unresolved: seq<bytes>)
    ensures Referral(known, unresolved) == Gather(ipv6, glue, ns, cached, 0)
  {
    hide Gather, Glue, Addresses, NsHost;
    known, unresolved := [], [];
    ghost var whole := Gather(ipv6, glue, ns, cached, 0);
    for j := 0 to |ns|
      invariant whole.known == known + Gather(ipv6, glue, ns, cached, j).known
      invariant whole.unresolved == unresolved + Gather(ipv6, glue, ns, cached, j).unresolved
    {
      GatherStep(ipv6, glue, ns, cached, j);
      var host := NsHost(ns[j]);
      var own := Glue(glue, host, ipv6);
      var more: seq<Ip>, missing: seq<bytes> := [], [];
      if own != [] {
        more := Addresses(own, ipv6);
      } else if j < |cached| && cached[j].Some? {
        more := cached[j].value;
      } else {
        missing := [host];
      }
      ghost var rest := Gather(ipv6, glue, ns, cached, j + 1);
      Regroup(known, more, rest.known);
      Regroup(unresolved, missing, rest.unresolved);
      known, unresolved := known + more, unresolved + missing;
    }
    GatherStep(ipv6, glue, ns, cached, |ns|);
  }

  method ResolveNsNames(net: Net, path: Path, q: Ask, i: nat, names: seq<bytes>) returns (ips: seq<Ip>, rounds: nat)
    requires q.depth <= MAX_CNAME_DEPTH
    ensures Batch(ips, rounds) == ResolveNames(net, path, q, i, names, 0)
    decreases Left(q.depth + 1), MAX_ITERATIONS + 3
  {
    hide Resolve, Found, SameName;
    ips, rounds := [], 0;
    for j := 0 to |names|
      invariant var whole, rest := ResolveNames(net, path, q, i, names, 0), ResolveNames(net, path, q, i, names, j);
                whole.ips == ips + rest.ips && whole.rounds == rounds + rest.rounds
    {
      if !SameName(names[j], [0]) {
        var sub := ResolveRecursive(net, path + [NsHop(i, j)], NsAsk(q, names[j]));
        ips, rounds := ips + Found(sub.result), rounds + sub.rounds;
      }
    }
  }

  method FindServers(net: Net, path: Path, q: Ask, i: nat, msg: Message) returns (found: seq<Ip>, rounds: nat)
    requires q.depth <= MAX_CNAME_DEPTH
    ensures Batch(found, rounds) == Servers(net, path, q, i, msg)
    decreases Left(q.depth + 1), MAX_ITERATIONS + 4
  {
    hide ResolveNames, Gather, OfType;
    var known, unresolved :=
      GatherServers(net.ipv6, msg.additionals, OfType(msg.authorities, NS_TYPE), net.cached(path, i));
    var ips, spent := ResolveNsNames(net, path, q, i, unresolved);
    return known + ips, spent;
  }

  /** The body of the loop. */
  method RunRound(net: Net, path: Path, q: Ask, st: State, i: nat) returns (next: Next)
    requires q.depth <= MAX_CNAME_DEPTH
    ensures next == Round(net, path, q, st, i)
    decreases Left(q.depth), 0
  {
    hide React, Resolve, Servers, Answered, AfterReferral;
    var proved := net.denialProved(path, i);
    match React(q, st, net.reply(path, i), proved)
    case Again(st') => return More(st', 1);
    case Finish(r) => return Done(r, 1);
    case Answer(direct) => return Done(Answered(q, direct, net.verdict(path, i)), 1);
    case Follow(c, target) =>
      var sub := ResolveRecursive(net, path + [CnameHop(i)], ChaseAsk(q, target));
      return Done(Chased(c, sub.result), 1 + sub.rounds);
    case Refer(msg) =>
      var found, spent := FindServers(net, path, q, i, msg);
      return Concluded(AfterReferral(q, st, msg, found, proved), 1 + spent);
  }

  lemma ResolveStarts(net: Net, path: Path, q: Ask)
    requires q.depth <= MAX_CNAME_DEPTH
    ensures Resolve(net, path, q) == Iterate(net, path, q, Start(q, net.roots, net.delegation(path)), 0)
  {
    hide Iterate, Start;
  }

  method StartState(q: Ask, roots: seq<Ip>, hit: Option<seq<Ip>>) returns (nameservers: seq<Ip>, revealed: nat)
    ensures State(nameservers, revealed) == Start(q, roots, hit)
  {
    hide LabelCount;
    nameservers := roots;
    var total := CountLabels(q.name);
    revealed := if q.minimize then 1 else total;
    if hit.Some? { nameservers, revealed := hit.value, total; }
  }

  method ResolveRecursive(net: Net, path: Path, q: Ask) returns (run: Run)
    ensures run == Resolve(net, path, q)
    decreases Left(q.depth), MAX_ITERATIONS + 2
  {
    if q.depth > MAX_CNAME_DEPTH { return Run(Bad(TooDeep), 0); }
    ResolveStarts(net, path, q);
    hide Iterate, Round, Resolve, Start;
    var nameservers, revealed := StartState(q, net.roots, net.delegation(path));
    var rounds: nat := 0;
    ghost var want := Resolve(net, path, q);
    for i := 0 to MAX_ITERATIONS
      invariant var rest := Iterate(net, path, q, State(nameservers, revealed), i);
                want.result == rest.result && want.rounds == rounds + rest.rounds
    {
      IterateStep(net, path, q, State(nameservers, revealed), i);
      if nameservers == [] { return Run(Bad(NoServers), rounds); }
      var next := RunRound(net, path, q, State(nameservers, revealed), i);
      rounds := rounds + next.spent;
      if next.Done? { return Run(next.result, rounds); }
      nameservers, revealed := next.state.servers, next.state.revealed;
    }
    IterateStep(net, path, q, State(nameservers, revealed), MAX_ITERATIONS);
    return Run(Bad(Exhausted), rounds);
  }
}
