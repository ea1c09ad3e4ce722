/**
 * What the steps of the interleaved resolver do to query names and to the delegation cache, and what they leave
 * alone.
 */
module ResolutionEffects {
  import opened Bytes
  import opened Names
  import opened Messages
  import opened Lru
  import opened Delegation
  import opened Resolver
  import opened Resolutions

  // --- Where a task begins ---

  /** A new task takes the delegation cached for its name and the full name, or starts at the root. */
  lemma BeginState(cfg: Config, w: World, t: nat, e: Event, now: nat)
    requires Allowed(w, t, e) && e.Begin?
    ensures var w' := Step(cfg, w, t, e, now);
            var hit, total := Walk(e.zones, e.q.name, now), LabelCount(e.q.name);
            && |w'.tasks| == |w.tasks| + 1 && w'.tasks[..|w.tasks|] == w.tasks && w'.tasks[t].q == e.q
            && w'.sent == w.sent && w'.zones == e.zones
            && w'.tasks[t].st ==
                 State(if hit.Some? then hit.value else cfg.roots, if hit.Some? || !e.q.minimize then total else 1)
  {
    hide LabelCount, Walk, Distinct, SameContents;
  }

  // --- Queries ---

  /** A step sends one query at most, for the task it belongs to, with the labels revealed at that moment. */
  lemma SentByStep(cfg: Config, w: World, t: nat, e: Event, now: nat)
    requires Allowed(w, t, e)
    ensures var w' := Step(cfg, w, t, e, now);
            w'.sent == w.sent
            || (e.Exchange? && PrefixOf(w.tasks[t].q.name, w.tasks[t].st.revealed).Some?
                && w'.sent == w.sent + [Sent(t, w.tasks[t].st.revealed,
                                             PrefixOf(w.tasks[t].q.name, w.tasks[t].st.revealed).value)])
  {
    hide PrefixOf, React, Gather, OfType, Store, Walk, Start, SameContents, Distinct, EndedWith, NonRoot, AllFound,
      AfterReferral;
  }

  ghost predicate Full(w: World) {
    && (forall t :: 0 <= t < |w.tasks| && !w.tasks[t].q.minimize ==>
          w.tasks[t].st.revealed >= LabelCount(w.tasks[t].q.name))
    && (forall k :: 0 <= k < |w.sent| ==> w.sent[k].task < |w.tasks|)
    && (forall k :: 0 <= k < |w.sent| && !w.tasks[w.sent[k].task].q.minimize ==>
          w.sent[k].qname == w.tasks[w.sent[k].task].q.name)
  }

  lemma WholeName(name: bytes, n: nat)
    requires n >= LabelCount(name)
    ensures PrefixOf(name, n) == Some(name)
  {
  }

  lemma StepFull(cfg: Config, w: World, t: nat, e: Event, now: nat)
    requires Full(w) && Allowed(w, t, e)
    ensures Full(Step(cfg, w, t, e, now))
  {
    var w' := Step(cfg, w, t, e, now);
    StepReveals(cfg, w, t, e, now);
    SentByStep(cfg, w, t, e, now);
    if e.Begin? { BeginState(cfg, w, t, e, now); } else { SameCount(cfg, w, t, e, now); }
    if e.Exchange? && !w.tasks[t].q.minimize { WholeName(w.tasks[t].q.name, w.tasks[t].st.revealed); }
    hide Step, PrefixOf, LabelCount, Walk, Distinct, SameContents, EndedWith, NonRoot;
    forall i | 0 <= i < |w'.tasks| && !w'.tasks[i].q.minimize
      ensures w'.tasks[i].st.revealed >= LabelCount(w'.tasks[i].q.name)
    {
      if i < |w.tasks| { assert w.tasks[i].st.revealed <= w'.tasks[i].st.revealed; }
    }
  }

  lemma SameCount(cfg: Config, w: World, t: nat, e: Event, now: nat)
    requires Allowed(w, t, e) && !e.Begin?
    ensures |Step(cfg, w, t, e, now).tasks| == |w.tasks|
  {
    hide PrefixOf, React, Gather, OfType, Store, SameContents, Distinct, EndedWith, NonRoot, AllFound, AfterReferral;
  }

  lemma {:induction false} RunFull(cfg: Config, w: World, ms: seq<Move>)
    requires Full(w)
    ensures Full(Resolutions.Run(cfg, w, ms))
    decreases |ms|
  {
    hide Full, Step, Allowed;
    if ms != [] && CanStep(w, ms[0]) {
      StepFull(cfg, w, ms[0].task, ms[0].event, ms[0].now);
      RunFull(cfg, Step(cfg, w, ms[0].task, ms[0].event, ms[0].now), ms[1..]);
    }
  }

  /** In every run a task that does not minimise, such as one for a server's name, sends only its full name. */
  lemma FullNamesSent(cfg: Config, ms: seq<Move>, k: nat)
    requires k < |Resolutions.Run(cfg, IDLE, ms).sent|
    ensures var w := Resolutions.Run(cfg, IDLE, ms); w.sent[k].task < |w.tasks|
    ensures var w := Resolutions.Run(cfg, IDLE, ms);
            !w.tasks[w.sent[k].task].q.minimize ==> w.sent[k].qname == w.tasks[w.sent[k].task].q.name
  {
    RunFull(cfg, IDLE, ms);
    hide Resolutions.Run;
  }

  // --- What is learned ---

  /** The cache has these servers for the zone, until two hours from `now`. */
  ghost predicate Learned(zones: Zones, zone: bytes, servers: seq<Ip>, now: nat) {
    Find(zones, zone) == Some(Entry(servers, now + 7_200_000_000_000))
  }

  lemma StoreLearned(zones: Zones, zone: bytes, servers: seq<Ip>, now: nat)
    requires ZonesOk(zones)
    ensures Learned(Store(zones, zone, servers, now), zone, servers, now)
  {
    PutSpec(CAPACITY, zones, zone, Entry(servers, now + LIFETIME), zone);
    hide Put, Find, Distinct, NoneEmpty;
  }

  /** A task that gets a direct answer and may return it leaves its servers behind as those of its name. */
  lemma AnswerTeaches(cfg: Config, w: World, t: nat, e: Event, now: nat)
    requires Inv(w) && Allowed(w, t, e) && e.Exchange?
    requires w.tasks[t].iteration < MAX_ITERATIONS && PrefixOf(w.tasks[t].q.name, w.tasks[t].st.revealed).Some?
    ensures var task := w.tasks[t];
            var a := React(task.q, task.st, e.reply, e.proved);
            var zones := Step(cfg, w, t, e, now).zones;
            if a.Answer? && Answered(task.q, a.direct, e.verdict).Good? then
              Learned(zones, task.q.name, task.st.servers, now)
            else zones == w.zones
  {
    assert TaskOk(w.tasks[t]);
    StoreLearned(w.zones, w.tasks[t].q.name, w.tasks[t].st.servers, now);
    hide PrefixOf, React, Gather, OfType, Store, Answered, Learned, ZonesOk, Inv;
  }

  /** A task that finds the servers of a referral leaves them behind as those of the zone of its first NS record. */
  lemma ReferralTeaches(cfg: Config, w: World, t: nat, e: Event, now: nat)
    requires Inv(w) && Allowed(w, t, e) && e.Referred?
    ensures var task := w.tasks[t];
            var found := task.phase.ref.known + AllFound(w, e.children);
            var ns := OfType(task.phase.msg.authorities, NS_TYPE);
            var zones := Step(cfg, w, t, e, now).zones;
            if found != [] && ns != [] then Learned(zones, ns[0].name, found, now) else zones == w.zones
  {
    var task := w.tasks[t];
    var found := task.phase.ref.known + AllFound(w, e.children);
    var ns := OfType(task.phase.msg.authorities, NS_TYPE);
    if ns != [] { StoreLearned(w.zones, ns[0].name, found, now); }
    hide AfterReferral, OfType, Store, AllFound, NonRoot, EndedWith, Learned, ZonesOk, Inv;
  }

  /** A task whose CNAME target was resolved leaves its servers behind as those of its own name. */
  lemma CnameTeaches(cfg: Config, w: World, t: nat, e: Event, now: nat)
    requires Inv(w) && Allowed(w, t, e) && e.Chased?
    ensures var task, sub := w.tasks[t], w.tasks[e.child].phase.result;
            var zones := Step(cfg, w, t, e, now).zones;
            if sub.Good? then Learned(zones, task.q.name, task.st.servers, now) else zones == w.zones
  {
    StoreLearned(w.zones, w.tasks[t].q.name, w.tasks[t].st.servers, now);
    hide Store, Learned, ZonesOk, Inv;
  }
}
