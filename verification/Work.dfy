/** How much work one call of `resolve_recursive` can cause, over every network. */
module Work {
  import opened Bytes
  import opened Names
  import opened Messages
  import opened Resolver

  /** Rounds of server queries at a depth when a referral names at most `n` servers. */
  function Bound(depth: nat, n: nat): nat
    decreases Left(depth)
  {
    if depth > MAX_CNAME_DEPTH then 0 else Times(MAX_ITERATIONS, 1 + Times(Widest(n), Bound(depth + 1, n)))
  }

  /** At the last depth that still asks, thirty-two rounds; below it, none. */
  lemma BoundEnds(n: nat)
    ensures Bound(11, n) == 0 && Bound(10, n) == 32
  {
  }

  function Times(k: nat, c: nat): nat { k * c }

  /** Nested calls one iteration can make: one for a CNAME, or one for each server name. */
  function Widest(n: nat): nat { if n == 0 then 1 else n }

  function NsCount(reply: Reply): nat { if reply.Got? then |OfType(reply.msg.authorities, NS_TYPE)| else 0 }

  ghost predicate AtMost(net: Net, n: nat) { forall p, i :: NsCount(net.reply(p, i)) <= n }

  lemma Scale(a: nat, b: nat, c: nat)
    requires a <= b
    ensures Times(a, c) <= Times(b, c)
  {
  }

  lemma Split(a: nat, c: nat)
    ensures Times(a + 1, c) == Times(a, c) + c
  {
  }

  lemma Unit(c: nat)
    ensures Times(0, c) == 0 && Times(1, c) == c
  {
  }

  /** No call spends more rounds than its bound; in particular every call returns. */
  lemma {:induction false} RoundsBounded(net: Net, path: Path, q: Ask, n: nat)
    requires AtMost(net, n) && !q.dnssecOk
    ensures Resolve(net, path, q).rounds <= Bound(q.depth, n)
    decreases Left(q.depth), MAX_ITERATIONS + 2
  {
    hide AtMost, Iterate, Start, Times;
    if q.depth <= MAX_CNAME_DEPTH {
      IterateBounded(net, path, q, Start(q, net.roots, net.delegation(path)), 0, n);
    }
  }

  lemma {:induction false} IterateBounded(net: Net, path: Path, q: Ask, st: State, i: nat, n: nat)
    requires AtMost(net, n) && !q.dnssecOk && q.depth <= MAX_CNAME_DEPTH && i <= MAX_ITERATIONS
    ensures Iterate(net, path, q, st, i).rounds <=
              Times(MAX_ITERATIONS - i, 1 + Times(Widest(n), Bound(q.depth + 1, n)))
    decreases Left(q.depth), 1 + MAX_ITERATIONS - i
  {
    hide AtMost, Iterate, Round, Bound, Widest, Times;
    Unit(1 + Times(Widest(n), Bound(q.depth + 1, n)));
    IterateStep(net, path, q, st, i);
    if i < MAX_ITERATIONS && st.servers != [] {
      var each := 1 + Times(Widest(n), Bound(q.depth + 1, n));
      RoundBounded(net, path, q, st, i, n);
      Split(MAX_ITERATIONS - i - 1, each);
      var next := Round(net, path, q, st, i);
      if next.More? { IterateBounded(net, path, q, next.state, i + 1, n); }
    }
  }

  lemma {:induction false} RoundBounded(net: Net, path: Path, q: Ask, st: State, i: nat, n: nat)
    requires AtMost(net, n) && !q.dnssecOk && q.depth <= MAX_CNAME_DEPTH
    ensures Round(net, path, q, st, i).spent <= 1 + Times(Widest(n), Bound(q.depth + 1, n))
    decreases Left(q.depth), 0
  {
    hide React, Resolve, AfterReferral, Bound, Gather, OfType, ResolveNames, Answered, Times;
    var below := Bound(q.depth + 1, n);
    Unit(below);
    Scale(1, Widest(n), below);
    Scale(0, Widest(n), below);
    var reply := net.reply(path, i);
    match React(q, st, reply, net.denialProved(path, i))
    case Follow(c, t) => RoundsBounded(net, path + [CnameHop(i)], ChaseAsk(q, t), n);
    case Refer(msg) =>
      ReferSource(q, st, reply, net.denialProved(path, i));
      assert NsCount(reply) <= n;
      var names := ReferralOf(net, path, i, msg).unresolved;
      NamesBounded(net, path, q, i, names, 0, n);
      Scale(|names|, Widest(n), below);
    case _ =>
  }

  lemma ReferSource(q: Ask, st: State, reply: Reply, proved: bool)
    ensures var a := React(q, st, reply, proved); a.Refer? ==> reply == Got(a.msg)
  {
  }

  lemma {:induction false} NamesBounded(net: Net, path: Path, q: Ask, i: nat, names: seq<bytes>, j: nat, n: nat)
    requires AtMost(net, n) && q.depth <= MAX_CNAME_DEPTH && j <= |names|
    ensures ResolveNames(net, path, q, i, names, j).rounds <= Times(|names| - j, Bound(q.depth + 1, n))
    decreases Left(q.depth + 1), MAX_ITERATIONS + 3, |names| - j
  {
    hide AtMost, Resolve, Bound, SameName, Found, Times;
    Unit(Bound(q.depth + 1, n));
    if j < |names| {
      NamesBounded(net, path, q, i, names, j + 1, n);
      RoundsBounded(net, path + [NsHop(i, j)], NsAsk(q, names[j]), n);
      Split(|names| - j - 1, Bound(q.depth + 1, n));
    }
  }

  // --- The bound is reached ---

  const HOST: bytes := [1, 97, 0]

  function Hosts(n: nat): seq<bytes> { seq(n, i => HOST) }

  function NsRecord(): Record { Record([0], NS_TYPE, 1, 0, 3, HOST, Some(NS(HOST))) }

  /** A referral to `n` servers without addresses, and nothing else. */
  function Lame(n: nat): Message {
    Message(Header(0, true, 0, false, false, false, false, 0, false, false, 0, 0, 0, 0, 0),
            [], [], seq(n, i => NsRecord()), [])
  }

  function Hostile(n: nat): Net {
    Net(false, [[198, 41, 0, 4]], p => None, (p, i) => Got(Lame(n)), (p, i) => [], (p, i) => Reject, (p, i) => false)
  }

  lemma {:induction false} AllNs(rs: seq<Record>, n: nat)
    requires rs == seq(n, i => NsRecord())
    ensures OfType(rs, NS_TYPE) == rs && OfType(rs, SOA_TYPE) == []
  {
    if n > 0 {
      AllNs(rs[1..], n - 1);
      assert rs[0] == NsRecord() && rs == [rs[0]] + rs[1..];
    }
  }

  lemma {:induction false} AllUnresolved(ns: seq<Record>, n: nat, j: nat)
    requires ns == seq(n, i => NsRecord()) && j <= n
    ensures Gather(false, [], ns, [], j) == Referral([], Hosts(n - j))
    decreases n - j
  {
    if j < n {
      AllUnresolved(ns, n, j + 1);
      assert NsHost(ns[j]) == HOST && Glue([], HOST, false) == [];
      assert Hosts(n - j) == [HOST] + Hosts(n - j - 1);
    }
  }

  lemma HostileReferral(n: nat, path: Path, i: nat)
    ensures ReferralOf(Hostile(n), path, i, Lame(n)) == Referral([], Hosts(n))
  {
    AllNs(Lame(n).authorities, n);
    AllUnresolved(Lame(n).authorities, n, 0);
  }

  lemma HostileReaction(q: Ask, st: State, n: nat)
    ensures React(q, st, Got(Lame(n)), false) == Refer(Lame(n))
    ensures n > 0 ==> AfterReferral(q, st, Lame(n), [], false) == Again(st.(servers := Rotate(st.servers)))
  {
    AllNs(Lame(n).authorities, n);
    hide OfType, LabelCount;
    assert Owned([], q.name, q.rtype) == [] && Owned([], q.name, CNAME_TYPE) == [];
  }

  lemma FoundNothing(r: Result)
    requires r.Bad?
    ensures Found(r) == []
  {
  }

  lemma HostNotRoot()
    ensures !SameName(HOST, [0])
  {
  }

  lemma {:induction false} HostileNames(n: nat, path: Path, q: Ask, i: nat, names: seq<bytes>, j: nat)
    requires n > 0 && q.depth <= MAX_CNAME_DEPTH && j <= |names| && names == Hosts(|names|)
    ensures ResolveNames(Hostile(n), path, q, i, names, j) == Batch([], Times(|names| - j, Bound(q.depth + 1, n)))
    decreases Left(q.depth + 1), MAX_ITERATIONS + 3, |names| - j
  {
    hide Resolve, Bound, SameName, Hostile, Times, Found;
    Unit(Bound(q.depth + 1, n));
    if j < |names| {
      HostileNames(n, path, q, i, names, j + 1);
      HostNotRoot();
      assert names[j] == HOST;
      HostileSpends(n, path + [NsHop(i, j)], NsAsk(q, HOST));
      FoundNothing(Resolve(Hostile(n), path + [NsHop(i, j)], NsAsk(q, HOST)).result);
      Split(|names| - j - 1, Bound(q.depth + 1, n));
    }
  }

  lemma {:induction false} HostileIterate(n: nat, path: Path, q: Ask, st: State, i: nat)
    requires n > 0 && q.depth <= MAX_CNAME_DEPTH && i <= MAX_ITERATIONS && st.servers != []
    ensures var run := Iterate(Hostile(n), path, q, st, i);
            run.result.Bad? && run.rounds == Times(MAX_ITERATIONS - i, 1 + Times(n, Bound(q.depth + 1, n)))
    decreases Left(q.depth), 1 + MAX_ITERATIONS - i
  {
    hide Iterate, Round, Bound, Times, Hostile;
    Unit(1 + Times(n, Bound(q.depth + 1, n)));
    IterateStep(Hostile(n), path, q, st, i);
    if i < MAX_ITERATIONS {
      HostileRound(n, path, q, st, i);
      HostileIterate(n, path, q, st.(servers := Rotate(st.servers)), i + 1);
      Split(MAX_ITERATIONS - i - 1, 1 + Times(n, Bound(q.depth + 1, n)));
    }
  }

  lemma {:induction false} HostileRound(n: nat, path: Path, q: Ask, st: State, i: nat)
    requires n > 0 && q.depth <= MAX_CNAME_DEPTH
    ensures Round(Hostile(n), path, q, st, i) ==
              More(st.(servers := Rotate(st.servers)), 1 + Times(n, Bound(q.depth + 1, n)))
    decreases Left(q.depth), 0
  {
    hide React, AfterReferral, ReferralOf, ResolveNames, Bound, Lame, Times;
    assert |Hosts(n)| == n;
    HostileReaction(q, st, n);
    HostileReferral(n, path, i);
    HostileNames(n, path, q, i, Hosts(n), 0);
    assert Servers(Hostile(n), path, q, i, Lame(n)).ips == [];
  }

  /** The hostile network makes every call fail, after exactly the bound: no smaller bound holds. */
  lemma {:induction false} HostileSpends(n: nat, path: Path, q: Ask)
    requires n > 0
    ensures Resolve(Hostile(n), path, q).result.Bad?
    ensures Resolve(Hostile(n), path, q).rounds == Bound(q.depth, n)
    decreases Left(q.depth), MAX_ITERATIONS + 2
  {
    hide Iterate, Times;
    if q.depth <= MAX_CNAME_DEPTH { HostileIterate(n, path, q, Start(q, Hostile(n).roots, None), 0); }
  }

  lemma HostileIsBounded(n: nat)
    ensures AtMost(Hostile(n), n)
  {
    AllNs(Lame(n).authorities, n);
  }
}
