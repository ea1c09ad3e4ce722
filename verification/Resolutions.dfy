/**
 * All calls of `resolve_recursive` in a running resolver, interleaved in any order and sharing one delegation cache:
 * client queries, CNAME targets and name server names are tasks of one machine.
 */
module Resolutions {
  import opened Bytes
  import opened Names
  import opened Messages
  import opened Lru
  import opened Delegation
  import opened Resolver

  // --- The query name (RFC 7816) ---

  /** Names that do not come from the decoder may make the slicing panic; then no query goes out. */
  method MinimizedName(name: bytes, revealed: nat) returns (qname: Option<bytes>)
    ensures qname == PrefixOf(name, revealed)
  {
    hide LabelCount, Kept;
    var total := CountLabels(name);
    if revealed < total {
      qname := NamePrefixOf(name, revealed);
    } else {
      qname := Some(name);
    }
  }

  ghost predicate IsSuffix<T>(a: seq<T>, b: seq<T>) { |a| <= |b| && a == b[|b| - |a|..] }

  lemma LastLabelsGrow(ls: Labels, a: nat, b: nat)
    requires a <= b
    ensures IsSuffix(LastLabels(ls, a), LastLabels(ls, b)) && IsSuffix(LastLabels(ls, b), ls)
  {
  }

  /** Revealing more labels only ever extends the query name to the left, up to the full name. */
  lemma QueryNameGrows(name: bytes, a: nat, b: nat)
    requires a <= b && PrefixOf(name, a).Some? && PrefixOf(name, b).Some?
    ensures var p, q := PrefixOf(name, a).value, PrefixOf(name, b).value;
            && RawLabels(p) == LastLabels(RawLabels(name), a)
            && IsSuffix(RawLabels(p), RawLabels(q)) && IsSuffix(RawLabels(q), RawLabels(name))
            && (WellFormed(name) ==> IsSuffix(p, q) && IsSuffix(q, name))
  {
    hide RawLabels, LabelCount, WellFormed, PrefixOf, NamePrefix;
    PrefixHasLastLabels(name, a);
    PrefixHasLastLabels(name, b);
    LastLabelsGrow(RawLabels(name), a, b);
    if WellFormed(name) {
      PrefixOfWellFormed(name, a);
      PrefixOfWellFormed(name, b);
      NamePrefixIsSuffix(name, b);
      PrefixGrows(name, a, b);
    }
  }

  lemma LastOfLast(ls: Labels, a: nat, b: nat)
    requires a <= b
    ensures LastLabels(LastLabels(ls, b), a) == LastLabels(ls, a)
  {
  }

  lemma PrefixGrows(name: bytes, a: nat, b: nat)
    requires WellFormed(name) && a <= b
    ensures IsSuffix(NamePrefix(name, a), NamePrefix(name, b))
  {
    hide Wire, WellFormed, Unwire, LastLabels, LabelCount;
    var ls := Unwire(name);
    WireUnwire(name);
    LastAreLabels(ls, b);
    LastOfLast(ls, a, b);
    LastLabelsSuffix(LastLabels(ls, b), a);
  }

  lemma LastAreLabels(ls: Labels, n: nat)
    requires AreLabels(ls)
    ensures AreLabels(LastLabels(ls, n))
  {
  }

  // --- The machine ---

  datatype Phase =
    | Asking
    | Resolving(msg: Message, ref: Referral)
    | Chasing(cname: Record, target: bytes)
    | Ended(result: Result)

  datatype Task = Task(q: Ask, st: State, iteration: nat, phase: Phase)

  /** A query that went out: for which task, with how many labels revealed, under which name. */
  datatype Sent = Sent(task: nat, revealed: nat, qname: bytes)

  datatype World = World(zones: Zones, tasks: seq<Task>, sent: seq<Sent>)

  datatype Event =
    | Begin(q: Ask, zones: Zones)  // looks a delegation up, which may reorder the cache
    | Exchange(reply: Reply, cached: seq<Option<seq<Ip>>>, verdict: Verdict, proved: bool)
    | Referred(children: seq<nat>, proved: bool)
    | Chased(child: nat)

  datatype Config = Config(ipv6: bool, roots: seq<Ip>)

  function NonRoot(names: seq<bytes>): (r: seq<bytes>)
    ensures |r| <= |names|
  {
    if names == [] then [] else (if SameName(names[0], [0]) then [] else [names[0]]) + NonRoot(names[1..])
  }

  predicate EndedWith(w: World, child: nat, q: Ask) {
    child < |w.tasks| && w.tasks[child].q == q && w.tasks[child].phase.Ended?
  }

  /** Children answer exactly the questions their parent waits for. */
  ghost predicate Allowed(w: World, t: nat, e: Event) {
    match e
    case Begin(q, zones) =>
      t == |w.tasks| && Distinct(zones) && |zones| <= CAPACITY && SameContents(zones, w.zones)
    case Exchange(_, _, _, _) => t < |w.tasks| && w.tasks[t].phase.Asking?
    case Referred(children, _) =>
      && t < |w.tasks| && w.tasks[t].phase.Resolving?
      && var names := NonRoot(w.tasks[t].phase.ref.unresolved);
         |children| == |names|
         && forall j :: 0 <= j < |names| ==> EndedWith(w, children[j], NsAsk(w.tasks[t].q, names[j]))
    case Chased(child) =>
      && t < |w.tasks| && w.tasks[t].phase.Chasing?
      && EndedWith(w, child, ChaseAsk(w.tasks[t].q, w.tasks[t].phase.target))
  }

  function AllFound(w: World, children: seq<nat>): seq<Ip>
    requires forall j :: 0 <= j < |children| ==> children[j] < |w.tasks| && w.tasks[children[j]].phase.Ended?
  {
    if children == [] then [] else Found(w.tasks[children[0]].phase.result) + AllFound(w, children[1..])
  }

  function SetTask(w: World, t: nat, task: Task): World
    requires t < |w.tasks|
  {
    w.(tasks := w.tasks[t := task])
  }

  function NextTask(task: Task, a: Action): Task
    requires a.Again? || a.Finish?
  {
    if a.Again? then task.(st := a.state, iteration := task.iteration + 1, phase := Asking)
    else task.(phase := Ended(a.result))
  }

  function StepBegin(cfg: Config, w: World, q: Ask, zones: Zones, now: nat): World {
    var st := Start(q, cfg.roots, Walk(zones, q.name, now));
    World(zones, w.tasks + [Task(q, st, 0, if q.depth > MAX_CNAME_DEPTH then Ended(Bad(TooDeep)) else Asking)], w.sent)
  }

  function StepExchange(cfg: Config, w: World, t: nat, e: Event, now: nat): World
    requires e.Exchange? && t < |w.tasks|
  {
    var task := w.tasks[t];
    var st := task.st;
    if task.iteration >= MAX_ITERATIONS then SetTask(w, t, task.(phase := Ended(Bad(Exhausted))))
    else if st.servers == [] then SetTask(w, t, task.(phase := Ended(Bad(NoServers))))
    else if PrefixOf(task.q.name, st.revealed).None? then SetTask(w, t, task.(phase := Ended(Bad(Unsendable))))
    else
      var w' := w.(sent := w.sent + [Sent(t, st.revealed, PrefixOf(task.q.name, st.revealed).value)]);
      match React(task.q, st, e.reply, e.proved)
      case Answer(direct) =>
        var r := Answered(task.q, direct, e.verdict);
        var zones := if r.Good? then Store(w.zones, task.q.name, st.servers, now) else w.zones;
        SetTask(w'.(zones := zones), t, task.(phase := Ended(r)))
      case Follow(c, target) => SetTask(w', t, task.(phase := Chasing(c, target)))
      case Refer(msg) =>
        var ref := Gather(cfg.ipv6, msg.additionals, OfType(msg.authorities, NS_TYPE), e.cached, 0);
        SetTask(w', t, task.(phase := Resolving(msg, ref)))
      case Again(st') => SetTask(w', t, NextTask(task, Again(st')))
      case Finish(r) => SetTask(w', t, NextTask(task, Finish(r)))
  }

  function StepReferred(w: World, t: nat, ips: seq<Ip>, proved: bool, now: nat): World
    requires t < |w.tasks| && w.tasks[t].phase.Resolving?
  {
    var task := w.tasks[t];
    var msg, found := task.phase.msg, task.phase.ref.known + ips;
    var ns := OfType(msg.authorities, NS_TYPE);
    var zones := if found != [] && ns != [] then Store(w.zones, ns[0].name, found, now) else w.zones;
    SetTask(w.(zones := zones), t, NextTask(task, AfterReferral(task.q, task.st, msg, found, proved)))
  }

  function StepChased(w: World, t: nat, sub: Result, now: nat): World
    requires t < |w.tasks| && w.tasks[t].phase.Chasing?
  {
    var task := w.tasks[t];
    var zones := if sub.Good? then Store(w.zones, task.q.name, task.st.servers, now) else w.zones;
    SetTask(w.(zones := zones), t, task.(phase := Ended(Resolver.Chased(task.phase.cname, sub))))
  }

  ghost function Step(cfg: Config, w: World, t: nat, e: Event, now: nat): World
    requires Allowed(w, t, e)
  {
    match e
    case Begin(q, zones) => StepBegin(cfg, w, q, zones, now)
    case Exchange(_, _, _, _) => StepExchange(cfg, w, t, e, now)
    case Referred(children, proved) => StepReferred(w, t, AllFound(w, children), proved, now)
    case Chased(child) => StepChased(w, t, w.tasks[child].phase.result, now)
  }

  // --- The invariant ---

  ghost predicate TaskOk(task: Task) {
    && task.st.servers != []
    && (task.phase.Ended? ==> task.phase.result != Bad(NoServers))
  }

  ghost predicate ZonesOk(zones: Zones) { Distinct(zones) && |zones| <= CAPACITY && NoneEmpty(zones) }

  /** The query sent is the name with the labels revealed then, and no fewer are revealed since. */
  ghost predicate SentOk(tasks: seq<Task>, s: Sent) {
    && s.task < |tasks| && PrefixOf(tasks[s.task].q.name, s.revealed) == Some(s.qname)
    && s.revealed <= tasks[s.task].st.revealed
  }

  ghost predicate InOrder(sent: seq<Sent>) {
    forall j, k :: 0 <= j < k < |sent| && sent[j].task == sent[k].task ==> sent[j].revealed <= sent[k].revealed
  }

  ghost predicate Inv(w: World) {
    && ZonesOk(w.zones)
    && (forall t :: 0 <= t < |w.tasks| ==> TaskOk(w.tasks[t]))
    && (forall k :: 0 <= k < |w.sent| ==> SentOk(w.tasks, w.sent[k]))
    && InOrder(w.sent)
  }

  /** A task may change its state as long as it keeps its question and hides no label again. */
  lemma SetTaskInv(w: World, t: nat, task: Task)
    requires Inv(w) && t < |w.tasks| && TaskOk(task)
    requires task.q == w.tasks[t].q && w.tasks[t].st.revealed <= task.st.revealed
    ensures Inv(SetTask(w, t, task))
  {
    hide PrefixOf, ZonesOk, InOrder;
    var w' := SetTask(w, t, task);
    forall k | 0 <= k < |w'.sent| ensures SentOk(w'.tasks, w'.sent[k]) { assert SentOk(w.tasks, w.sent[k]); }
  }

  lemma SendInv(w: World, t: nat)
    requires Inv(w) && t < |w.tasks| && TaskOk(w.tasks[t])
    requires PrefixOf(w.tasks[t].q.name, w.tasks[t].st.revealed).Some?
    ensures var s := Sent(t, w.tasks[t].st.revealed, PrefixOf(w.tasks[t].q.name, w.tasks[t].st.revealed).value);
            Inv(w.(sent := w.sent + [s]))
  {
    hide PrefixOf, ZonesOk;
    var s := Sent(t, w.tasks[t].st.revealed, PrefixOf(w.tasks[t].q.name, w.tasks[t].st.revealed).value);
    var sent := w.sent + [s];
    forall k | 0 <= k < |sent| ensures SentOk(w.tasks, sent[k]) {
      if k < |w.sent| { assert SentOk(w.tasks, w.sent[k]); }
    }
    assert InOrder(sent) by {
      forall j, k | 0 <= j < k < |sent| && sent[j].task == sent[k].task ensures sent[j].revealed <= sent[k].revealed {
        assert SentOk(w.tasks, w.sent[j]);
      }
    }
  }

  lemma StoreInv(w: World, zone: bytes, servers: seq<Ip>, now: nat)
    requires Inv(w) && servers != []
    ensures Inv(w.(zones := Store(w.zones, zone, servers, now)))
  {
    hide TaskOk, SentOk, InOrder, Distinct, NoneEmpty;
    PutSpec(CAPACITY, w.zones, zone, Entry(servers, now + LIFETIME), zone);
    StoreNoneEmpty(w.zones, zone, servers, now);
  }

  lemma BeginInv(cfg: Config, w: World, q: Ask, zones: Zones, now: nat)
    requires Inv(w) && cfg.roots != []
    requires Distinct(zones) && |zones| <= CAPACITY && SameContents(zones, w.zones)
    ensures Inv(StepBegin(cfg, w, q, zones, now))
  {
    hide PrefixOf, Distinct, SameContents, NoneEmpty, LabelCount, Walk, InOrder;
    SameNoneEmpty(zones, w.zones);
    WalkNonEmpty(zones, q.name, now);
    var w' := StepBegin(cfg, w, q, zones, now);
    assert TaskOk(w'.tasks[|w.tasks|]);
    forall k | 0 <= k < |w'.sent| ensures SentOk(w'.tasks, w'.sent[k]) { assert SentOk(w.tasks, w.sent[k]); }
  }

  /** What reacting can do to the loop's state. */
  lemma ReactOk(q: Ask, st: State, reply: Reply, proved: bool)
    requires st.servers != []
    ensures match React(q, st, reply, proved)
            case Again(st') => st'.servers != [] && st'.revealed == st.revealed
            case Finish(r) => r != Bad(NoServers)
            case _ => true
  {
    hide SameName, Target, LabelCount, OfType;
  }

  lemma AfterReferralOk(q: Ask, st: State, msg: Message, found: seq<Ip>, proved: bool)
    requires st.servers != []
    ensures match AfterReferral(q, st, msg, found, proved)
            case Again(st') => st'.servers != [] && st.revealed <= st'.revealed
            case Finish(r) => r != Bad(NoServers)
            case _ => true
  {
    hide LabelCount, OfType;
  }

  lemma ExchangeInv(cfg: Config, w: World, t: nat, e: Event, now: nat)
    requires Inv(w) && e.Exchange? && t < |w.tasks| && TaskOk(w.tasks[t])
    ensures Inv(StepExchange(cfg, w, t, e, now))
  {
    hide Inv, PrefixOf, React, Gather, OfType, Store;
    var task := w.tasks[t];
    if task.iteration >= MAX_ITERATIONS {
      SetTaskInv(w, t, task.(phase := Ended(Bad(Exhausted))));
    } else if PrefixOf(task.q.name, task.st.revealed).None? {
      SetTaskInv(w, t, task.(phase := Ended(Bad(Unsendable))));
    } else {
      var w' := w.(sent := w.sent + [Sent(t, task.st.revealed, PrefixOf(task.q.name, task.st.revealed).value)]);
      SendInv(w, t);
      ReactOk(task.q, task.st, e.reply, e.proved);
      match React(task.q, task.st, e.reply, e.proved)
      case Answer(direct) =>
        var r := Answered(task.q, direct, e.verdict);
        if r.Good? {
          StoreInv(w', task.q.name, task.st.servers, now);
          SetTaskInv(w'.(zones := Store(w.zones, task.q.name, task.st.servers, now)), t, task.(phase := Ended(r)));
        } else {
          SetTaskInv(w', t, task.(phase := Ended(r)));
        }
      case Follow(c, target) => SetTaskInv(w', t, task.(phase := Chasing(c, target)));
      case Refer(msg) =>
        var ref := Gather(cfg.ipv6, msg.additionals, OfType(msg.authorities, NS_TYPE), e.cached, 0);
        SetTaskInv(w', t, task.(phase := Resolving(msg, ref)));
      case Again(st') => SetTaskInv(w', t, NextTask(task, Again(st')));
      case Finish(r) => SetTaskInv(w', t, NextTask(task, Finish(r)));
    }
  }

  lemma ReferredInv(w: World, t: nat, ips: seq<Ip>, proved: bool, now: nat)
    requires Inv(w) && t < |w.tasks| && w.tasks[t].phase.Resolving? && TaskOk(w.tasks[t])
    ensures Inv(StepReferred(w, t, ips, proved, now))
  {
    hide Inv, AfterReferral, OfType, Store;
    var task := w.tasks[t];
    var msg, found := task.phase.msg, task.phase.ref.known + ips;
    var ns := OfType(msg.authorities, NS_TYPE);
    AfterReferralOk(task.q, task.st, msg, found, proved);
    var next := NextTask(task, AfterReferral(task.q, task.st, msg, found, proved));
    if found != [] && ns != [] {
      StoreInv(w, ns[0].name, found, now);
      SetTaskInv(w.(zones := Store(w.zones, ns[0].name, found, now)), t, next);
    } else {
      SetTaskInv(w, t, next);
    }
  }

  lemma ChasedInv(w: World, t: nat, sub: Result, now: nat)
    requires Inv(w) && t < |w.tasks| && w.tasks[t].phase.Chasing? && TaskOk(w.tasks[t]) && sub != Bad(NoServers)
    ensures Inv(StepChased(w, t, sub, now))
  {
    hide Inv, Store;
    var task := w.tasks[t];
    var done := task.(phase := Ended(Resolver.Chased(task.phase.cname, sub)));
    if sub.Good? {
      StoreInv(w, task.q.name, task.st.servers, now);
      SetTaskInv(w.(zones := Store(w.zones, task.q.name, task.st.servers, now)), t, done);
    } else {
      SetTaskInv(w, t, done);
    }
  }

  lemma StepInv(cfg: Config, w: World, t: nat, e: Event, now: nat)
    requires Inv(w) && cfg.roots != [] && Allowed(w, t, e)
    ensures Inv(Step(cfg, w, t, e, now))
  {
    assert t < |w.tasks| ==> TaskOk(w.tasks[t]);
    assert e.Chased? ==> TaskOk(w.tasks[e.child]);
    hide Inv, StepBegin, StepExchange, StepReferred, StepChased, SameContents, Distinct;
    match e
    case Begin(q, zones) => BeginInv(cfg, w, q, zones, now);
    case Exchange(_, _, _, _) => ExchangeInv(cfg, w, t, e, now);
    case Referred(children, proved) => ReferredInv(w, t, AllFound(w, children), proved, now);
    case Chased(child) => ChasedInv(w, t, w.tasks[child].phase.result, now);
  }

  /** Tasks keep their questions and never hide a label they revealed. */
  ghost predicate Reveals(w: World, w': World) {
    |w.tasks| <= |w'.tasks| && forall t :: 0 <= t < |w.tasks| ==>
      w'.tasks[t].q == w.tasks[t].q && w.tasks[t].st.revealed <= w'.tasks[t].st.revealed
  }

  lemma StepReveals(cfg: Config, w: World, t: nat, e: Event, now: nat)
    requires Allowed(w, t, e)
    ensures Reveals(w, Step(cfg, w, t, e, now))
  {
    hide PrefixOf, Gather, OfType, Store, Walk, Start, SameContents, Distinct, NonRoot, AllFound, React;
    match e
    case Begin(_, _) =>
    case Exchange(reply, _, _, proved) => Reacted(w.tasks[t].q, w.tasks[t].st, reply, proved);
    case Referred(children, proved) =>
      hide AfterReferral;
      var task := w.tasks[t];
      Redirected(task.q, task.st, task.phase.msg, task.phase.ref.known + AllFound(w, children), proved);
    case Chased(_) =>
  }

  lemma Reacted(q: Ask, st: State, reply: Reply, proved: bool)
    ensures var a := React(q, st, reply, proved); a.Again? ==> a.state.revealed == st.revealed
  {
    hide SameName, Target, LabelCount, OfType;
  }

  lemma Redirected(q: Ask, st: State, msg: Message, found: seq<Ip>, proved: bool)
    ensures var a := AfterReferral(q, st, msg, found, proved); a.Again? ==> st.revealed <= a.state.revealed
  {
    hide LabelCount, OfType;
  }

  // --- Runs ---

  /** One step: which task, what happens to it, and the clock. */
  datatype Move = Move(task: nat, event: Event, now: nat)

  ghost predicate CanStep(w: World, m: Move) { Allowed(w, m.task, m.event) }

  ghost function Run(cfg: Config, w: World, ms: seq<Move>): World
    decreases |ms|
  {
    if ms == [] || !CanStep(w, ms[0]) then w
    else Run(cfg, Step(cfg, w, ms[0].task, ms[0].event, ms[0].now), ms[1..])
  }

  /** Whatever happens between two points of a run, the revealed-label counts do not go down. */
  lemma {:induction false} RunReveals(cfg: Config, w: World, ms: seq<Move>)
    ensures Reveals(w, Run(cfg, w, ms))
    decreases |ms|
  {
    hide Step, Allowed;
    if ms != [] && CanStep(w, ms[0]) {
      StepReveals(cfg, w, ms[0].task, ms[0].event, ms[0].now);
      RunReveals(cfg, Step(cfg, w, ms[0].task, ms[0].event, ms[0].now), ms[1..]);
    }
  }

  const IDLE := World([], [], [])

  lemma {:induction false} RunInv(cfg: Config, w: World, ms: seq<Move>)
    requires Inv(w) && cfg.roots != []
    ensures Inv(Run(cfg, w, ms))
    decreases |ms|
  {
    hide Inv, Step, Allowed;
    if ms != [] && CanStep(w, ms[0]) {
      StepInv(cfg, w, ms[0].task, ms[0].event, ms[0].now);
      RunInv(cfg, Step(cfg, w, ms[0].task, ms[0].event, ms[0].now), ms[1..]);
    }
  }

  lemma IdleInv()
    ensures Inv(IDLE)
  {
  }

  /** In every run no task is without servers, none fails for that, and no cached delegation is empty. */
  lemma ServersNeverRunOut(cfg: Config, ms: seq<Move>)
    requires cfg.roots != []
    ensures var w := Run(cfg, IDLE, ms);
            && (forall t :: 0 <= t < |w.tasks| ==>
                  w.tasks[t].st.servers != [] && w.tasks[t].phase != Ended(Bad(NoServers)))
            && NoneEmpty(w.zones)
  {
    IdleInv();
    RunInv(cfg, IDLE, ms);
    hide Run, SentOk, InOrder;
    var w := Run(cfg, IDLE, ms);
    forall t | 0 <= t < |w.tasks| ensures w.tasks[t].st.servers != [] && w.tasks[t].phase != Ended(Bad(NoServers)) {
      assert TaskOk(w.tasks[t]);
    }
  }

  /**
   * In every run, the query names of a task only grow: each has exactly the last min(revealed, total) labels of the
   * task's name, and its labels end every later query name of the task. On well-formed names they are octet suffixes.
   */
  lemma QueriesOnlyGrow(cfg: Config, ms: seq<Move>, j: nat, k: nat)
    requires cfg.roots != []
    requires var w := Run(cfg, IDLE, ms); j <= k < |w.sent| && w.sent[j].task == w.sent[k].task
    ensures var w := Run(cfg, IDLE, ms); w.sent[j].task < |w.tasks|
    ensures var w := Run(cfg, IDLE, ms);
            var name, p, q := w.tasks[w.sent[j].task].q.name, w.sent[j].qname, w.sent[k].qname;
            && RawLabels(p) == LastLabels(RawLabels(name), w.sent[j].revealed)
            && IsSuffix(RawLabels(p), RawLabels(q)) && IsSuffix(RawLabels(q), RawLabels(name))
            && (WellFormed(name) ==> IsSuffix(p, q) && IsSuffix(q, name))
  {
    IdleInv();
    RunInv(cfg, IDLE, ms);
    hide Run, WellFormed, RawLabels, PrefixOf, ZonesOk, TaskOk, IsSuffix;
    var w := Run(cfg, IDLE, ms);
    assert SentOk(w.tasks, w.sent[j]) && SentOk(w.tasks, w.sent[k]);
    QueryNameGrows(w.tasks[w.sent[j].task].q.name, w.sent[j].revealed, w.sent[k].revealed);
  }

  /** Two labels without a closing root octet: the query for the last one is no octet suffix of the name. */
  lemma MalformedIsNoSuffix()
    ensures PrefixOf([1, 97, 1, 98], 1) == Some([1, 98, 0]) && !IsSuffix([1, 98, 0], [1, 97, 1, 98])
  {
    var w: bytes := [1, 97, 1, 98];
    assert w[0..] == w && w[2..] == [1, 98] && w[4..] == [] && w[2..][2..] == [];
    assert LabelCount(w[2..]) == 1 && LabelCount(w) == 2;
    KeptStep(w, 2, 0);
    KeptStep(w, 0, 1);
    assert Kept(w, 1) == Some([1, 98]) by {
      assert [w[2]] + w[3..4] + [] == [1, 98];
    }
    var kept: bytes := [1, 98];
    assert Closed(kept) == kept + [0] == [1, 98, 0];
    assert PrefixOf(w, 1) == Some(Closed(kept));
    assert w[1..][0] == 97;
  }
}
