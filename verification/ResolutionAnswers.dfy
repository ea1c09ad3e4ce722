/** What finished tasks of the interleaved resolver return. */
module ResolutionAnswers {
  import opened Bytes
  import opened Names
  import opened Messages
  import opened Delegation
  import opened Resolver
  import opened Answers
  import opened Resolutions

  ghost predicate HasShape(q: Ask, rs: seq<Record>) {
    exists k: nat ::
      q.depth + k <= MAX_CNAME_DEPTH && (q.rtype == CNAME_TYPE ==> k == 0) && Shaped(q.name, q.rtype, rs, k)
  }

  ghost predicate ResultOk(q: Ask, r: Result) {
    (r.Good? ==> HasShape(q, r.records)) && (!q.dnssecOk ==> Unauthenticated(r))
  }

  ghost predicate TaskAnswers(task: Task) {
    && (!task.phase.Ended? ==> task.q.depth <= MAX_CNAME_DEPTH)
    && match task.phase
       case Chasing(c, target) =>
         && c.rtype == CNAME_TYPE && task.q.rtype != CNAME_TYPE && SameName(c.name, task.q.name)
         && Resolver.Target(c) == Some(target)
       case Ended(r) => ResultOk(task.q, r)
       case _ => true
  }

  ghost predicate AllAnswer(w: World) { forall t :: 0 <= t < |w.tasks| ==> TaskAnswers(w.tasks[t]) }

  lemma SetAnswers(w: World, t: nat, task: Task)
    requires AllAnswer(w) && t < |w.tasks| && TaskAnswers(task)
    ensures AllAnswer(SetTask(w, t, task))
  {
    hide TaskAnswers;
  }

  lemma DirectHasShape(q: Ask, rs: seq<Record>)
    requires q.depth <= MAX_CNAME_DEPTH
    requires forall i :: 0 <= i < |rs| ==> rs[i].rtype == q.rtype && SameName(rs[i].name, q.name)
    ensures HasShape(q, rs)
  {
    hide SameName, Shaped;
    DirectShaped(q, rs, 0);
  }

  lemma ChasedHasShape(q: Ask, c: Record, target: bytes, rs: seq<Record>)
    requires c.rtype == CNAME_TYPE && q.rtype != CNAME_TYPE && SameName(c.name, q.name)
    requires Resolver.Target(c) == Some(target) && HasShape(ChaseAsk(q, target), rs)
    ensures HasShape(q, [c] + rs)
  {
    hide SameName, Shaped;
    var sub := ChaseAsk(q, target);
    var k: nat :| sub.depth + k <= MAX_CNAME_DEPTH && Shaped(sub.name, sub.rtype, rs, k);
    ShapedCons(q.name, q.rtype, c, rs, k);
  }

  lemma ReactAnswers(task: Task, reply: Reply, proved: bool, verdict: Verdict)
    requires task.phase.Asking? && TaskAnswers(task)
    ensures match React(task.q, task.st, reply, proved)
            case Again(st') => TaskAnswers(NextTask(task, Again(st')))
            case Finish(r) => TaskAnswers(NextTask(task, Finish(r)))
            case Answer(direct) => TaskAnswers(task.(phase := Ended(Answered(task.q, direct, verdict))))
            case Follow(c, target) => TaskAnswers(task.(phase := Phase.Chasing(c, target)))
            case Refer(_) => true
  {
    hide React, SameName, HasShape, Resolver.Target;
    var q := task.q;
    Reactions(q, task.st, reply, proved);
    if !q.dnssecOk { ReactUnauthenticated(q, task.st, reply, proved); }
    match React(q, task.st, reply, proved)
    case Answer(direct) => DirectHasShape(q, direct);
    case _ =>
  }

  lemma ReferralAnswers(task: Task, msg: Message, found: seq<Ip>, proved: bool)
    requires task.phase.Resolving? && TaskAnswers(task)
    ensures TaskAnswers(NextTask(task, AfterReferral(task.q, task.st, msg, found, proved)))
  {
    hide AfterReferral, HasShape;
    AfterReferrals(task.q, task.st, msg, found, proved);
    DirectHasShape(task.q, []);
  }

  lemma StepAnswers(cfg: Config, w: World, t: nat, e: Event, now: nat)
    requires AllAnswer(w) && Allowed(w, t, e)
    ensures AllAnswer(Step(cfg, w, t, e, now))
  {
    if t < |w.tasks| { assert TaskAnswers(w.tasks[t]); }
    match e
    case Begin(q, zones) => BeginAnswers(cfg, w, q, zones, now);
    case Exchange(_, _, _, _) => ExchangeAnswers(cfg, w, t, e, now);
    case Referred(children, proved) =>
      hide AllAnswer, TaskAnswers, AfterReferral, OfType, Store, AllFound, NonRoot;
      var task := w.tasks[t];
      var found := task.phase.ref.known + AllFound(w, children);
      ReferralAnswers(task, task.phase.msg, found, proved);
      ReferredAnswers(w, t, AllFound(w, children), proved, now);
    case Chased(child) =>
      assert TaskAnswers(w.tasks[child]);
      ChasedAnswers(w, t, w.tasks[child].phase.result, now);
  }

  lemma BeginAnswers(cfg: Config, w: World, q: Ask, zones: Zones, now: nat)
    requires AllAnswer(w)
    ensures AllAnswer(StepBegin(cfg, w, q, zones, now))
  {
    hide HasShape, Walk, SameName, Resolver.Target, Start;
    var w' := StepBegin(cfg, w, q, zones, now);
    assert TaskAnswers(w'.tasks[|w.tasks|]);
    hide TaskAnswers;
  }

  lemma ExchangeAnswers(cfg: Config, w: World, t: nat, e: Event, now: nat)
    requires AllAnswer(w) && e.Exchange? && t < |w.tasks|
    requires w.tasks[t].phase.Asking? && TaskAnswers(w.tasks[t])
    ensures AllAnswer(StepExchange(cfg, w, t, e, now))
  {
    hide AllAnswer, PrefixOf, React, Gather, OfType, Store, HasShape, SameName, Resolver.Target, Answered;
    var task := w.tasks[t];
    ReactAnswers(task, e.reply, e.proved, e.verdict);
    var w' := StepExchange(cfg, w, t, e, now);
    assert TaskAnswers(w'.tasks[t]) && w'.tasks == w.tasks[t := w'.tasks[t]];
    hide StepExchange;
    SetAnswers(w, t, w'.tasks[t]);
    SameTasks(SetTask(w, t, w'.tasks[t]), w');
  }

  lemma ReferredAnswers(w: World, t: nat, ips: seq<Ip>, proved: bool, now: nat)
    requires AllAnswer(w) && t < |w.tasks| && w.tasks[t].phase.Resolving?
    requires var task := w.tasks[t];
             var found := task.phase.ref.known + ips;
             TaskAnswers(NextTask(task, AfterReferral(task.q, task.st, task.phase.msg, found, proved)))
    ensures AllAnswer(StepReferred(w, t, ips, proved, now))
  {
    hide AllAnswer, TaskAnswers, AfterReferral, OfType, Store;
    var w' := StepReferred(w, t, ips, proved, now);
    SetAnswers(w, t, w'.tasks[t]);
    SameTasks(SetTask(w, t, w'.tasks[t]), w');
  }

  lemma ChasedAnswers(w: World, t: nat, sub: Result, now: nat)
    requires AllAnswer(w) && t < |w.tasks| && w.tasks[t].phase.Chasing? && TaskAnswers(w.tasks[t])
    requires ResultOk(ChaseAsk(w.tasks[t].q, w.tasks[t].phase.target), sub)
    ensures AllAnswer(StepChased(w, t, sub, now))
  {
    hide AllAnswer, Store, HasShape, SameName, Resolver.Target;
    var task := w.tasks[t];
    if sub.Good? { ChasedHasShape(task.q, task.phase.cname, task.phase.target, sub.records); }
    var w' := StepChased(w, t, sub, now);
    assert TaskAnswers(w'.tasks[t]);
    SetAnswers(w, t, w'.tasks[t]);
    SameTasks(SetTask(w, t, w'.tasks[t]), w');
  }

  lemma SameTasks(a: World, b: World)
    requires AllAnswer(a) && a.tasks == b.tasks
    ensures AllAnswer(b)
  {
    hide TaskAnswers;
  }

  lemma {:induction false} RunAnswers(cfg: Config, w: World, ms: seq<Move>)
    requires AllAnswer(w)
    ensures AllAnswer(Resolutions.Run(cfg, w, ms))
    decreases |ms|
  {
    hide AllAnswer, Step, Allowed;
    if ms != [] && CanStep(w, ms[0]) {
      StepAnswers(cfg, w, ms[0].task, ms[0].event, ms[0].now);
      RunAnswers(cfg, Step(cfg, w, ms[0].task, ms[0].event, ms[0].now), ms[1..]);
    }
  }

  /**
   * In every interleaving, each finished task that succeeded returns a linked CNAME chain of at most ten records and
   * then nothing or records of the asked type owned by the last target; without DNSSEC none claims authenticity.
   */
  lemma FinishedAnswers(cfg: Config, ms: seq<Move>, t: nat)
    requires var w := Resolutions.Run(cfg, IDLE, ms); t < |w.tasks| && w.tasks[t].phase.Ended?
    ensures var task := Resolutions.Run(cfg, IDLE, ms).tasks[t]; ResultOk(task.q, task.phase.result)
  {
    RunAnswers(cfg, IDLE, ms);
    hide Resolutions.Run, HasShape;
    assert TaskAnswers(Resolutions.Run(cfg, IDLE, ms).tasks[t]);
  }
}
