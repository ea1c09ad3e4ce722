/** What `resolve_recursive` can return, and what the server makes of it (src/server/udp.rs). */
module Answers {
  import opened Bytes
  import opened Names
  import opened Messages
  import opened Resolver

  // --- The shape of an answer ---

  /** The name that record `i` of a chain must be owned by: the asked name, then the previous target. */
  function NameAt(name: bytes, rs: seq<Record>, i: nat): bytes
    requires i <= |rs|
  {
    if i == 0 then name else match Target(rs[i - 1]) case Some(t) => t case None => []
  }

  /** The first `k` records are CNAMEs, each owned by the target of the one before. */
  predicate Linked(name: bytes, rs: seq<Record>, k: nat)
    requires k <= |rs|
  {
    forall i :: 0 <= i < k ==>
      rs[i].rtype == CNAME_TYPE && Target(rs[i]).Some? && SameName(rs[i].name, NameAt(name, rs, i))
  }

  /** The records from `k` on have the asked type and are owned by the last target. */
  predicate Terminal(name: bytes, rtype: u16, rs: seq<Record>, k: nat)
    requires k <= |rs|
  {
    forall i :: k <= i < |rs| ==> rs[i].rtype == rtype && SameName(rs[i].name, NameAt(name, rs, k))
  }

  predicate Shaped(name: bytes, rtype: u16, rs: seq<Record>, k: nat) {
    k <= |rs| && Linked(name, rs, k) && Terminal(name, rtype, rs, k)
  }

  lemma ShapedCons(name: bytes, rtype: u16, c: Record, rs: seq<Record>, k: nat)
    requires c.rtype == CNAME_TYPE && SameName(c.name, name) && Target(c).Some?
    requires Shaped(Target(c).value, rtype, rs, k)
    ensures Shaped(name, rtype, [c] + rs, k + 1)
  {
    hide SameName, Target;
    var all := [c] + rs;
    forall i | 1 <= i <= k + 1 ensures NameAt(name, all, i) == NameAt(Target(c).value, rs, i - 1) {
      assert i > 1 ==> all[i - 1] == rs[i - 2];
    }
    assert forall i :: 1 <= i < |all| ==> all[i] == rs[i - 1];
  }

  lemma DirectShaped(q: Ask, rs: seq<Record>, k: nat)
    requires k == 0 && forall i :: 0 <= i < |rs| ==> rs[i].rtype == q.rtype && SameName(rs[i].name, q.name)
    ensures Shaped(q.name, q.rtype, rs, k)
  {
  }

  /** The same servers in another order, so none is lost and none comes in. */
  predicate Rearranged(a: seq<Ip>, b: seq<Ip>) { multiset(a) == multiset(b) }

  lemma RotateRearranges(s: seq<Ip>)
    ensures Rearranged(Rotate(s), s)
  {
    if |s| > 1 { assert s == [s[0]] + s[1..]; }
  }

  /** What an iteration may do on a reply: servers change their order only, answers and CNAMEs belong to the name. */
  lemma Reactions(q: Ask, st: State, reply: Reply, proved: bool)
    ensures match React(q, st, reply, proved)
            case Again(st') => Rearranged(st'.servers, st.servers)
            case Finish(r) => r.Bad? && r.why != NoServers && r.why != TooDeep
            case Answer(direct) =>
              forall i :: 0 <= i < |direct| ==> direct[i].rtype == q.rtype && SameName(direct[i].name, q.name)
            case Follow(c, t) =>
              c.rtype == CNAME_TYPE && q.rtype != CNAME_TYPE && SameName(c.name, q.name) && Target(c) == Some(t)
            case Refer(_) => true
  {
    hide SameName, Target, LabelCount, OfType, Rotate, Rearranged;
    RotateRearranges(st.servers);
    SameRearranged(st.servers);
  }

  lemma SameRearranged(s: seq<Ip>)
    ensures Rearranged(s, s)
  {
  }

  /**
   * What it may do without answer or CNAME: take the servers found, or keep its own and try again, or report
   * NODATA.
   */
  lemma AfterReferrals(q: Ask, st: State, msg: Message, found: seq<Ip>, proved: bool)
    ensures match AfterReferral(q, st, msg, found, proved)
            case Again(st') => if found != [] then st'.servers == found else Rearranged(st'.servers, st.servers)
            case Finish(r) => r.Good? && r.records == [] && (r.ad ==> q.dnssecOk)
            case _ => true
  {
    hide LabelCount, OfType, Rotate, Rearranged;
    RotateRearranges(st.servers);
  }

  /**
   * Every answer is a linked CNAME chain, no longer than the depths left, and then nothing or records of the asked
   * type owned by the last target; when CNAMEs themselves are asked for, none is followed.
   */
  lemma {:induction false} AnswerShape(net: Net, path: Path, q: Ask) returns (k: nat)
    requires Resolve(net, path, q).result.Good?
    ensures q.depth + k <= 10 && (q.rtype == CNAME_TYPE ==> k == 0)
    ensures Shaped(q.name, q.rtype, Resolve(net, path, q).result.records, k)
    decreases Left(q.depth), MAX_ITERATIONS + 2
  {
    hide Iterate, Shaped, Start;
    k := IterateShape(net, path, q, Start(q, net.roots, net.delegation(path)), 0);
  }

  lemma {:induction false} IterateShape(net: Net, path: Path, q: Ask, st: State, i: nat) returns (k: nat)
    requires q.depth <= MAX_CNAME_DEPTH && i <= MAX_ITERATIONS && Iterate(net, path, q, st, i).result.Good?
    ensures q.depth + k <= MAX_CNAME_DEPTH && (q.rtype == CNAME_TYPE ==> k == 0)
    ensures Shaped(q.name, q.rtype, Iterate(net, path, q, st, i).result.records, k)
    decreases Left(q.depth), 1 + MAX_ITERATIONS - i
  {
    hide Iterate, Round, Shaped;
    IterateStep(net, path, q, st, i);
    var next := Round(net, path, q, st, i);
    if next.Done? {
      k := RoundShape(net, path, q, st, i);
    } else {
      k := IterateShape(net, path, q, next.state, i + 1);
    }
  }

  lemma {:induction false} RoundShape(net: Net, path: Path, q: Ask, st: State, i: nat) returns (k: nat)
    requires q.depth <= MAX_CNAME_DEPTH && Round(net, path, q, st, i).Done? && Round(net, path, q, st, i).result.Good?
    ensures q.depth + k <= MAX_CNAME_DEPTH && (q.rtype == CNAME_TYPE ==> k == 0)
    ensures Shaped(q.name, q.rtype, Round(net, path, q, st, i).result.records, k)
    decreases Left(q.depth), 0
  {
    hide React, AfterReferral, Resolve, Servers, Shaped, SameName;
    k := 0;
    var proved := net.denialProved(path, i);
    Reactions(q, st, net.reply(path, i), proved);
    match React(q, st, net.reply(path, i), proved)
    case Again(_) =>
    case Finish(_) =>
    case Answer(direct) => DirectShaped(q, direct, 0);
    case Follow(c, t) =>
      var sub := ChaseAsk(q, t);
      var k' := AnswerShape(net, path + [CnameHop(i)], sub);
      ShapedCons(q.name, q.rtype, c, Resolve(net, path + [CnameHop(i)], sub).result.records, k');
      k := k' + 1;
    case Refer(msg) =>
      AfterReferrals(q, st, msg, Servers(net, path, q, i, msg).ips, proved);
      DirectShaped(q, [], 0);
  }

  // --- The AD flag ---

  predicate Unauthenticated(r: Result) {
    match r case Good(_, ad) => !ad case Bad(NxDomain(_, ad)) => !ad case _ => true
  }

  lemma ReactUnauthenticated(q: Ask, st: State, reply: Reply, proved: bool)
    requires !q.dnssecOk
    ensures var a := React(q, st, reply, proved); a.Finish? ==> Unauthenticated(a.result)
  {
    hide SameName, Target, LabelCount, OfType;
  }

  /** A resolver that does not ask for DNSSEC never claims authenticated data. */
  lemma {:induction false} NeverAuthenticated(net: Net, path: Path, q: Ask)
    requires !q.dnssecOk
    ensures Unauthenticated(Resolve(net, path, q).result)
    decreases Left(q.depth), MAX_ITERATIONS + 2
  {
    hide Iterate, Start;
    if q.depth <= MAX_CNAME_DEPTH {
      IterateUnauthenticated(net, path, q, Start(q, net.roots, net.delegation(path)), 0);
    }
  }

  lemma {:induction false} IterateUnauthenticated(net: Net, path: Path, q: Ask, st: State, i: nat)
    requires q.depth <= MAX_CNAME_DEPTH && i <= MAX_ITERATIONS && !q.dnssecOk
    ensures Unauthenticated(Iterate(net, path, q, st, i).result)
    decreases Left(q.depth), 1 + MAX_ITERATIONS - i
  {
    hide Iterate, Round;
    IterateStep(net, path, q, st, i);
    if i < MAX_ITERATIONS && st.servers != [] {
      var next := Round(net, path, q, st, i);
      if next.Done? {
        RoundUnauthenticated(net, path, q, st, i);
      } else {
        IterateUnauthenticated(net, path, q, next.state, i + 1);
      }
    }
  }

  lemma {:induction false} RoundUnauthenticated(net: Net, path: Path, q: Ask, st: State, i: nat)
    requires q.depth <= MAX_CNAME_DEPTH && !q.dnssecOk && Round(net, path, q, st, i).Done?
    ensures Unauthenticated(Round(net, path, q, st, i).result)
    decreases Left(q.depth), 0
  {
    hide React, AfterReferral, Resolve, Servers;
    var proved := net.denialProved(path, i);
    ReactUnauthenticated(q, st, net.reply(path, i), proved);
    match React(q, st, net.reply(path, i), proved)
    case Again(_) =>
    case Finish(_) =>
    case Answer(_) =>
    case Follow(c, t) => NeverAuthenticated(net, path + [CnameHop(i)], ChaseAsk(q, t));
    case Refer(msg) => AfterReferrals(q, st, msg, Servers(net, path, q, i, msg).ips, proved);
  }

  // --- Where the flag comes from ---

  /** A call (by path and question) in one of its iterations. */
  datatype Stage = Stage(path: Path, q: Ask, st: State, iteration: nat)

  /** The state in which a call begins iteration `i`, if it gets there. */
  ghost function StateAt(net: Net, path: Path, q: Ask, i: nat): Option<State>
    requires q.depth <= MAX_CNAME_DEPTH
    decreases i
  {
    if i == 0 then Some(Start(q, net.roots, net.delegation(path)))
    else match StateAt(net, path, q, i - 1)
      case None => None
      case Some(prev) =>
        if prev.servers == [] then None
        else match Round(net, path, q, prev, i - 1) case More(st, _) => Some(st) case Done(_, _) => None
  }

  ghost predicate Reaches(net: Net, s: Stage) {
    && s.q.depth <= MAX_CNAME_DEPTH && s.iteration < MAX_ITERATIONS && s.st.servers != []
    && StateAt(net, s.path, s.q, s.iteration) == Some(s.st)
  }

  function Reaction(net: Net, s: Stage): Action {
    React(s.q, s.st, net.reply(s.path, s.iteration), net.denialProved(s.path, s.iteration))
  }

  /** The call follows a CNAME there, and `t` is a stage of the call for its target. */
  predicate Chases(net: Net, s: Stage, t: Stage) {
    match Reaction(net, s)
    case Follow(_, target) => t.path == s.path + [CnameHop(s.iteration)] && t.q == ChaseAsk(s.q, target)
    case _ => false
  }

  /** The call ends there with an answer, an NXDOMAIN or a NODATA that the validator found secure. */
  predicate Decides(net: Net, s: Stage)
    requires s.q.depth <= MAX_CNAME_DEPTH
  {
    var proved := net.denialProved(s.path, s.iteration);
    match Reaction(net, s)
    case Answer(_) =>
      s.q.dnssecOk && s.q.rtype !in {46, 48, 43} && net.verdict(s.path, s.iteration) == Accept(true)
    case Finish(r) => proved && r.Bad? && r.why.NxDomain? && r.why.ad
    case Refer(msg) =>
      proved && AfterReferral(s.q, s.st, msg, Servers(net, s.path, s.q, s.iteration, msg).ips, proved)
                == Finish(Good([], true))
    case _ => false
  }

  /** Stages from the call along CNAME targets only, to one that decides. */
  ghost predicate Vouched(net: Net, path: Path, q: Ask, stages: seq<Stage>) {
    && stages != [] && stages[0].path == path && stages[0].q == q
    && (forall k :: 0 <= k < |stages| ==> Reaches(net, stages[k]))
    && (forall k :: 0 <= k < |stages| - 1 ==> Chases(net, stages[k], stages[k + 1]))
    && Decides(net, stages[|stages| - 1])
  }

  lemma OneStage(net: Net, s: Stage)
    requires Reaches(net, s) && Decides(net, s)
    ensures Vouched(net, s.path, s.q, [s])
  {
    hide Reaches, Decides;
  }

  lemma FirstStage(net: Net, s: Stage, path: Path, q: Ask, stages: seq<Stage>)
    requires Reaches(net, s) && Vouched(net, path, q, stages) && Chases(net, s, stages[0])
    ensures Vouched(net, s.path, s.q, [s] + stages)
  {
    hide Reaches, Decides, Chases;
    var all := [s] + stages;
    assert forall k :: 1 <= k < |all| ==> all[k] == stages[k - 1];
  }

  lemma ReactVouched(q: Ask, st: State, reply: Reply, proved: bool)
    ensures var a := React(q, st, reply, proved); a.Finish? && !Unauthenticated(a.result) ==> proved && a.result.Bad?
  {
    hide SameName, Target, LabelCount, OfType;
  }

  lemma ReferralVouched(q: Ask, st: State, msg: Message, found: seq<Ip>, proved: bool)
    ensures var a := AfterReferral(q, st, msg, found, proved);
            a.Finish? && !Unauthenticated(a.result) ==> proved && a == Finish(Good([], true))
  {
    hide LabelCount, OfType;
  }

  /** Whatever claims authenticated data ended, along CNAME targets, where the validator found it secure. */
  lemma {:induction false} AuthenticatedIsVouched(net: Net, path: Path, q: Ask) returns (stages: seq<Stage>)
    requires !Unauthenticated(Resolve(net, path, q).result)
    ensures Vouched(net, path, q, stages)
    decreases Left(q.depth), MAX_ITERATIONS + 2
  {
    hide Iterate, Start, Vouched;
    stages := IterateVouched(net, path, q, Start(q, net.roots, net.delegation(path)), 0);
  }

  lemma {:induction false} IterateVouched(net: Net, path: Path, q: Ask, st: State, n: nat) returns (stages: seq<Stage>)
    requires q.depth <= MAX_CNAME_DEPTH && n <= MAX_ITERATIONS && StateAt(net, path, q, n) == Some(st)
    requires !Unauthenticated(Iterate(net, path, q, st, n).result)
    ensures Vouched(net, path, q, stages)
    decreases Left(q.depth), 1 + MAX_ITERATIONS - n
  {
    hide Iterate, Round, Vouched, StateAt;
    IterateStep(net, path, q, st, n);
    var next := Round(net, path, q, st, n);
    if next.Done? {
      stages := RoundVouched(net, path, q, st, n);
    } else {
      NextState(net, path, q, n, st);
      stages := IterateVouched(net, path, q, next.state, n + 1);
    }
  }

  lemma NextState(net: Net, path: Path, q: Ask, n: nat, st: State)
    requires q.depth <= MAX_CNAME_DEPTH && StateAt(net, path, q, n) == Some(st) && st.servers != []
    requires Round(net, path, q, st, n).More?
    ensures StateAt(net, path, q, n + 1) == Some(Round(net, path, q, st, n).state)
  {
    hide Round;
  }

  lemma {:induction false} RoundVouched(net: Net, path: Path, q: Ask, st: State, n: nat) returns (stages: seq<Stage>)
    requires q.depth <= MAX_CNAME_DEPTH && n < MAX_ITERATIONS && st.servers != []
    requires StateAt(net, path, q, n) == Some(st)
    requires Round(net, path, q, st, n).Done? && !Unauthenticated(Round(net, path, q, st, n).result)
    ensures Vouched(net, path, q, stages)
    decreases Left(q.depth), 0
  {
    hide React, AfterReferral, Resolve, Servers, StateAt, Vouched;
    var s := Stage(path, q, st, n);
    var proved := net.denialProved(path, n);
    ReactVouched(q, st, net.reply(path, n), proved);
    match React(q, st, net.reply(path, n), proved)
    case Follow(c, t) =>
      var sub := AuthenticatedIsVouched(net, path + [CnameHop(n)], ChaseAsk(q, t));
      VouchedStart(net, path + [CnameHop(n)], ChaseAsk(q, t), sub);
      FirstStage(net, s, path + [CnameHop(n)], ChaseAsk(q, t), sub);
      stages := [s] + sub;
    case Refer(msg) =>
      ReferralVouched(q, st, msg, Servers(net, path, q, n, msg).ips, proved);
      OneStage(net, s);
      stages := [s];
    case _ =>
      OneStage(net, s);
      stages := [s];
  }

  lemma VouchedStart(net: Net, path: Path, q: Ask, stages: seq<Stage>)
    requires Vouched(net, path, q, stages)
    ensures stages != [] && stages[0].path == path && stages[0].q == q
    ensures Reaches(net, stages[0]) && (|stages| == 1 ==> Decides(net, stages[0]))
    ensures |stages| > 1 ==>
              Chases(net, stages[0], stages[1]) && Vouched(net, stages[1].path, stages[1].q, stages[1..])
  {
    hide Reaches, Decides, Chases;
    if |stages| > 1 {
      var rest := stages[1..];
      assert forall k :: 0 <= k < |rest| ==> rest[k] == stages[k + 1];
    }
  }

  lemma PreviousState(net: Net, path: Path, q: Ask, i: nat, st: State) returns (prev: State)
    requires q.depth <= MAX_CNAME_DEPTH && i > 0 && StateAt(net, path, q, i) == Some(st)
    ensures StateAt(net, path, q, i - 1) == Some(prev) && prev.servers != []
    ensures Round(net, path, q, prev, i - 1).More? && Round(net, path, q, prev, i - 1).state == st
  {
    hide Round;
    prev := StateAt(net, path, q, i - 1).value;
  }

  /** From any iteration a call reaches, it comes to the same end. */
  lemma {:induction false} ResumeAt(net: Net, path: Path, q: Ask, i: nat, st: State)
    requires q.depth <= MAX_CNAME_DEPTH && i <= MAX_ITERATIONS && StateAt(net, path, q, i) == Some(st)
    ensures Resolve(net, path, q).result == Iterate(net, path, q, st, i).result
    decreases i
  {
    hide Iterate, Round, Start;
    if i > 0 {
      hide Resolve;
      var prev := PreviousState(net, path, q, i, st);
      hide StateAt;
      ResumeAt(net, path, q, i - 1, prev);
      IterateStep(net, path, q, prev, i - 1);
    }
  }

  /** A stage whose iteration ends the call gives the call its result. */
  lemma EndsAt(net: Net, s: Stage)
    requires Reaches(net, s) && Round(net, s.path, s.q, s.st, s.iteration).Done?
    ensures Resolve(net, s.path, s.q).result == Round(net, s.path, s.q, s.st, s.iteration).result
  {
    hide Iterate, Round, Resolve, StateAt;
    ResumeAt(net, s.path, s.q, s.iteration, s.st);
    IterateStep(net, s.path, s.q, s.st, s.iteration);
  }

  /** And wherever that happened the result claims authenticated data. */
  lemma {:induction false} VouchedIsAuthenticated(net: Net, path: Path, q: Ask, stages: seq<Stage>)
    requires Vouched(net, path, q, stages)
    ensures !Unauthenticated(Resolve(net, path, q).result)
    decreases |stages|
  {
    VouchedStart(net, path, q, stages);
    var s := stages[0];
    hide React, AfterReferral, Resolve, Servers, StateAt, Vouched;
    if |stages| > 1 { VouchedIsAuthenticated(net, stages[1].path, stages[1].q, stages[1..]); }
    EndsAt(net, s);
  }

  /** The AD flag is set exactly when the validator found the end of the CNAME chain secure. */
  lemma AuthenticatedIff(net: Net, path: Path, q: Ask)
    ensures !Unauthenticated(Resolve(net, path, q).result) <==> exists stages :: Vouched(net, path, q, stages)
  {
    hide Resolve, Vouched;
    if !Unauthenticated(Resolve(net, path, q).result) {
      var stages := AuthenticatedIsVouched(net, path, q);
    }
    if stages :| Vouched(net, path, q, stages) { VouchedIsAuthenticated(net, path, q, stages); }
  }

  // --- build_response ---

  /** Records of type CNAME first, the others after them, each group in its order. */
  function Others(rs: seq<Record>, t: u16): seq<Record> {
    if rs == [] then [] else (if rs[0].rtype != t then [rs[0]] else []) + Others(rs[1..], t)
  }

  function ResponseHeader(id: u16, rd: bool, ad: bool): Header {
    Header(id, true, 0, false, false, rd, true, 0, ad, false, 0, 0, 0, 0, 0)
  }

  lemma SplitStep(rs: seq<Record>, i: nat, t: u16)
    requires i < |rs|
    ensures OfType(rs[i..], t) == (if rs[i].rtype == t then [rs[i]] else []) + OfType(rs[i + 1..], t)
    ensures Others(rs[i..], t) == (if rs[i].rtype != t then [rs[i]] else []) + Others(rs[i + 1..], t)
  {
    assert rs[i..][1..] == rs[i + 1..];
  }

  method CnamesFirst(answers: seq<Record>) returns (all: seq<Record>)
    ensures all == OfType(answers, CNAME_TYPE) + Others(answers, CNAME_TYPE)
  {
    hide OfType, Others;
    var cnames, finals: seq<Record> := [], [];
    assert answers[0..] == answers;
    for i := 0 to |answers|
      invariant cnames + OfType(answers[i..], CNAME_TYPE) == OfType(answers, CNAME_TYPE)
      invariant finals + Others(answers[i..], CNAME_TYPE) == Others(answers, CNAME_TYPE)
    {
      SplitStep(answers, i, CNAME_TYPE);
      if answers[i].rtype == CNAME_TYPE { cnames := cnames + [answers[i]]; } else { finals := finals + [answers[i]]; }
    }
    SplitEmpty();
    assert answers[|answers|..] == [];
    return cnames + finals;
  }

  method BuildResponse(request: Header, question: Question, answers: seq<Record>, extra: seq<Record>, ad: bool)
    returns (m: Message)
    ensures m == Message(ResponseHeader(request.id, request.rd, ad), [question],
                         OfType(answers, CNAME_TYPE) + Others(answers, CNAME_TYPE), [], extra)
    ensures m.header.id == request.id && m.header.rd == request.rd && m.header.ad == ad
    ensures m.header.qr && m.header.ra && !m.header.aa && !m.header.tc && !m.header.cd
    ensures m.header.opcode == 0 && m.header.z == 0 && m.header.rcode == 0
  {
    hide OfType, Others;
    var all := CnamesFirst(answers);
    m := Message(ResponseHeader(request.id, request.rd, ad), [question], all, [], extra);
  }

  lemma SplitEmpty()
    ensures OfType([], CNAME_TYPE) == [] && Others([], CNAME_TYPE) == []
  {
  }

  /** A list that is already CNAMEs first is left as it is. */
  lemma {:induction false} SplitSorted(rs: seq<Record>, t: u16, k: nat)
    requires k <= |rs| && (forall i :: 0 <= i < k ==> rs[i].rtype == t)
    requires (forall i :: k <= i < |rs| ==> rs[i].rtype != t)
    ensures OfType(rs, t) == rs[..k] && Others(rs, t) == rs[k..]
  {
    if rs != [] {
      SplitSorted(rs[1..], t, if k > 0 then k - 1 else 0);
      if k > 0 { assert rs[..k] == [rs[0]] + rs[1..][..k - 1]; }
    }
  }

  /** The server sends an answer of the resolver on exactly as it is. */
  lemma ResponseKeepsAnswer(net: Net, path: Path, q: Ask)
    requires Resolve(net, path, q).result.Good?
    ensures var rs := Resolve(net, path, q).result.records; OfType(rs, CNAME_TYPE) + Others(rs, CNAME_TYPE) == rs
  {
    hide Resolve, SameName, Target, NameAt;
    var rs := Resolve(net, path, q).result.records;
    var k := AnswerShape(net, path, q);
    if q.rtype == CNAME_TYPE {
      SplitSorted(rs, CNAME_TYPE, |rs|);
    } else {
      SplitSorted(rs, CNAME_TYPE, k);
    }
    hide OfType, Others;
  }
}
