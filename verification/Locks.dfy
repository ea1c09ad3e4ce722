/** The lock discipline of src/resolver/recursive.rs: eight mutexes, background tasks, any number of other tasks. */
module Locks {

  datatype Lock = Cache | Stats | NsCache | Delegations | Truncation | Pool | Rtt | Health

  datatype Op = Take(lock: Lock) | Free(lock: Lock)

  type Script = seq<Op>

  datatype Kind = RttSaver | PoolCleaner | TruncationCleaner | CachePurger | HealthChecker | Resolve | Query

  // --- What each kind of task does while it holds a lock ---

  function Alone(l: Lock): Script { [Take(l), Free(l)] }

  function Within(outer: Lock, inner: Script): Script { [Take(outer)] + inner + [Free(outer)] }

  /** The stretches of code that hold locks; between them a task holds none. */
  function Sections(k: Kind): seq<Script> {
    match k
    case RttSaver => [Alone(Rtt)]
    case PoolCleaner => [Alone(Pool)]
    case TruncationCleaner => [Alone(Truncation)]
    case CachePurger => [Alone(Cache)]
    case HealthChecker => [Alone(Health), Alone(Rtt), Within(Rtt, Alone(Health)), Within(Health, Alone(Rtt))]
    case Resolve =>
      [Within(Cache, Alone(Stats)), Alone(Cache), Alone(Stats), Alone(Delegations), Alone(NsCache),
       Within(Cache, Alone(NsCache)), Alone(Rtt)]
    case Query =>
      // A server known to truncate is queried over TCP with the truncation cache still locked.
      [Alone(Truncation), Within(Truncation, Alone(Pool)), Within(Truncation, Alone(Pool) + Alone(Pool)),
       Within(Truncation, Alone(Pool) + Alone(Pool) + Alone(Rtt)), Alone(Pool), Alone(Rtt)]
  }

  // --- The machine ---

  /** `children` are the tasks this one waits for, for all of them or for the first that brings something. */
  datatype Task = Task(kind: Kind, held: set<Lock>, rest: Script, children: set<nat>, all: bool, done: bool)

  datatype World = World(owner: map<Lock, nat>, tasks: seq<Task>)

  datatype Move =
    | Enter(section: Script)     // start one of the kind's sections
    | Exec                       // the next lock operation
    | Fork(kinds: seq<Kind>, all: bool)  // start tasks and wait, as `join_all` or as the loop on `select_all`
    | Join                       // go on: all awaited tasks have ended, or the first one that suffices
    | Finish
    | Cancel                     // a timeout drops the task with its guards
    | Arrive(kind: Kind)         // a client query or a prefetch, started by nobody in particular

  predicate Transient(k: Kind) { k.Resolve? || k.Query? }

  function NewTask(k: Kind): Task { Task(k, {}, [], {}, false, false) }

  predicate CanExec(w: World, task: Task) {
    task.rest != [] && match task.rest[0] case Take(l) => l !in w.owner case Free(_) => true
  }

  predicate Ended(w: World, c: nat) { c < |w.tasks| && w.tasks[c].done }

  predicate AllEnded(w: World, task: Task) { forall c :: c in task.children ==> Ended(w, c) }

  predicate Enabled(w: World, t: nat, m: Move) {
    if m.Arrive? then Transient(m.kind)
    else
      && t < |w.tasks| && !w.tasks[t].done
      && var task := w.tasks[t];
         var idle := task.rest == [] && task.children == {};
         match m
         case Enter(s) => idle && s in Sections(task.kind)
         case Exec => CanExec(w, task)
         case Fork(ks, _) => idle && task.kind.Resolve? && ks != [] && forall i :: 0 <= i < |ks| ==> Transient(ks[i])
         case Join =>
           && task.children != {}
           && if task.all then AllEnded(w, task) else exists c :: c in task.children && Ended(w, c)
         case Finish => idle && Transient(task.kind)
         case Cancel => Transient(task.kind)
  }

  function Spawned(ks: seq<Kind>): seq<Task> { seq(|ks|, i requires 0 <= i < |ks| => NewTask(ks[i])) }

  function Ids(first: nat, n: nat): (r: set<nat>)
    ensures forall c :: c in r <==> first <= c < first + n
  {
    if n == 0 then {} else Ids(first, n - 1) + {first + n - 1}
  }

  function Set(w: World, t: nat, task: Task): World
    requires t < |w.tasks|
  {
    w.(tasks := w.tasks[t := task])
  }

  ghost function Step(w: World, t: nat, m: Move): World
    requires Enabled(w, t, m)
  {
    if m.Arrive? then w.(tasks := w.tasks + [NewTask(m.kind)])
    else
      var task := w.tasks[t];
      match m
      case Enter(s) => Set(w, t, task.(rest := s))
      case Exec =>
        (match task.rest[0]
         case Take(l) => Set(w.(owner := w.owner[l := t]), t, task.(held := task.held + {l}, rest := task.rest[1..]))
         case Free(l) => Set(w.(owner := w.owner - {l}), t, task.(held := task.held - {l}, rest := task.rest[1..])))
      case Fork(ks, all) =>
        var waiting := task.(children := Ids(|w.tasks|, |ks|), all := all);
        w.(tasks := w.tasks[t := waiting] + Spawned(ks))
      case Join => Set(w, t, task.(children := {}))
      case Finish => Set(w, t, task.(done := true))
      case Cancel =>
        Set(w.(owner := w.owner - task.held), t, task.(held := {}, rest := [], children := {}, done := true))
  }

  // --- The discipline ---

  /** The only nestings: `outer` held while `inner` is taken. */
  predicate Nests(k: Kind, outer: Lock, inner: Lock) {
    match outer
    case Cache => inner.Stats? || inner.NsCache?
    case Truncation => inner.Pool? || inner.Rtt?
    case Rtt => k.HealthChecker? && inner.Health?
    case Health => k.HealthChecker? && inner.Rtt?
    case _ => false
  }

  predicate MayTake(k: Kind, held: set<Lock>, l: Lock) {
    l !in held && (l.Health? ==> k.HealthChecker?) && forall h :: h in held ==> Nests(k, h, l)
  }

  /** From `held`, the script takes what it may, frees what it holds, and ends with nothing. */
  predicate Disciplined(k: Kind, held: set<Lock>, s: Script)
    decreases |s|
  {
    if s == [] then held == {}
    else match s[0]
      case Take(l) => MayTake(k, held, l) && Disciplined(k, held + {l}, s[1..])
      case Free(l) => l in held && Disciplined(k, held - {l}, s[1..])
  }

  lemma TakeFirst(k: Kind, held: set<Lock>, l: Lock, rest: Script)
    requires MayTake(k, held, l) && Disciplined(k, held + {l}, rest)
    ensures Disciplined(k, held, [Take(l)] + rest)
  {
  }

  lemma FreeFirst(k: Kind, held: set<Lock>, l: Lock, rest: Script)
    requires l in held && Disciplined(k, held - {l}, rest)
    ensures Disciplined(k, held, [Free(l)] + rest)
  {
  }

  /** Taking and freeing one lock in front of a disciplined script. */
  lemma AloneFirst(k: Kind, held: set<Lock>, l: Lock, rest: Script)
    requires MayTake(k, held, l) && Disciplined(k, held, rest)
    ensures Disciplined(k, held, Alone(l) + rest)
  {
    hide Disciplined, MayTake;
    assert l !in held by { assert MayTake(k, held, l); MayTakeFresh(k, held, l); }
    assert held + {l} - {l} == held;
    FreeFirst(k, held + {l}, l, rest);
    TakeFirst(k, held, l, [Free(l)] + rest);
    assert Alone(l) + rest == [Take(l)] + ([Free(l)] + rest);
  }

  lemma MayTakeFresh(k: Kind, held: set<Lock>, l: Lock)
    requires MayTake(k, held, l)
    ensures l !in held
  {
  }

  lemma NothingDisciplined(k: Kind)
    ensures Disciplined(k, {}, [])
  {
  }

  lemma AloneDisciplined(k: Kind, l: Lock)
    requires l.Health? ==> k.HealthChecker?
    ensures Disciplined(k, {}, Alone(l))
  {
    NothingDisciplined(k);
    hide Disciplined;
    AloneFirst(k, {}, l, []);
    assert Alone(l) + [] == Alone(l);
  }

  /** A lock held around a run of others, each taken alone. */
  lemma WithinDisciplined(k: Kind, outer: Lock, inner: seq<Lock>)
    requires outer.Health? ==> k.HealthChecker?
    requires forall i :: 0 <= i < |inner| ==> inner[i] != outer && Nests(k, outer, inner[i])
    requires forall i :: 0 <= i < |inner| ==> (inner[i].Health? ==> k.HealthChecker?)
    ensures Disciplined(k, {}, Within(outer, Each(inner)))
  {
    NothingDisciplined(k);
    assert {outer} - {outer} == {} && {} + {outer} == {outer};
    FreeFirst(k, {outer}, outer, []);
    EachDisciplined(k, outer, inner);
    TakeFirst(k, {}, outer, Each(inner) + [Free(outer)]);
    assert Within(outer, Each(inner)) == [Take(outer)] + (Each(inner) + [Free(outer)]);
  }

  function Each(ls: seq<Lock>): Script { if ls == [] then [] else Alone(ls[0]) + Each(ls[1..]) }

  lemma {:induction false} EachDisciplined(k: Kind, outer: Lock, inner: seq<Lock>)
    requires forall i :: 0 <= i < |inner| ==> inner[i] != outer && Nests(k, outer, inner[i])
    requires forall i :: 0 <= i < |inner| ==> (inner[i].Health? ==> k.HealthChecker?)
    requires Disciplined(k, {outer}, [Free(outer)])
    ensures Disciplined(k, {outer}, Each(inner) + [Free(outer)])
  {
    hide Disciplined;
    if inner == [] {
      assert Each(inner) + [Free(outer)] == [Free(outer)];
    } else {
      EachDisciplined(k, outer, inner[1..]);
      AloneFirst(k, {outer}, inner[0], Each(inner[1..]) + [Free(outer)]);
      assert Each(inner) + [Free(outer)] == Alone(inner[0]) + (Each(inner[1..]) + [Free(outer)]);
    }
  }

  lemma EachOf(a: Lock, b: Lock, c: Lock)
    ensures Each([a]) == Alone(a) && Each([a, b]) == Alone(a) + Alone(b)
    ensures Each([a, b, c]) == Alone(a) + Alone(b) + Alone(c)
  {
    assert [a, b, c][1..] == [b, c] && [a, b][1..] == [b] && [b, c][1..] == [c];
    assert Each([a]) == Alone(a) && Each([b]) == Alone(b) && Each([c]) == Alone(c);
    hide Alone;
    assert Each([a, b]) == Alone(a) + Alone(b) && Each([b, c]) == Alone(b) + Alone(c);
  }

  /** Every section of every kind of task keeps the discipline. */
  lemma SectionsDisciplined(k: Kind, s: Script)
    requires s in Sections(k)
    ensures Disciplined(k, {}, s)
  {
    hide Disciplined, Each, Alone, Within;
    match k
    case RttSaver => AloneDisciplined(k, Rtt);
    case PoolCleaner => AloneDisciplined(k, Pool);
    case TruncationCleaner => AloneDisciplined(k, Truncation);
    case CachePurger => AloneDisciplined(k, Cache);
    case HealthChecker =>
      AloneDisciplined(k, Rtt);
      AloneDisciplined(k, Health);
      EachOf(Health, Health, Health);
      EachOf(Rtt, Rtt, Rtt);
      WithinDisciplined(k, Rtt, [Health]);
      WithinDisciplined(k, Health, [Rtt]);
    case Resolve =>
      forall l: Lock | !l.Health? ensures Disciplined(k, {}, Alone(l)) { AloneDisciplined(k, l); }
      EachOf(Stats, Stats, Stats);
      EachOf(NsCache, NsCache, NsCache);
      WithinDisciplined(k, Cache, [Stats]);
      WithinDisciplined(k, Cache, [NsCache]);
    case Query =>
      forall l: Lock | !l.Health? ensures Disciplined(k, {}, Alone(l)) { AloneDisciplined(k, l); }
      EachOf(Pool, Pool, Rtt);
      WithinDisciplined(k, Truncation, [Pool]);
      WithinDisciplined(k, Truncation, [Pool, Pool]);
      WithinDisciplined(k, Truncation, [Pool, Pool, Rtt]);
  }

  // --- The invariant ---

  const CHECKER := 4

  ghost predicate TaskOk(w: World, t: nat)
    requires t < |w.tasks|
  {
    var task := w.tasks[t];
    && Disciplined(task.kind, task.held, task.rest)
    && (task.kind.HealthChecker? <==> t == CHECKER)
    && (task.children != {} ==> task.rest == [])
    && (task.done ==> task.rest == [])
    && (forall c :: c in task.children ==> t < c < |w.tasks|)
  }

  /** A lock's owner is the one task that holds it. */
  ghost predicate OwnersOk(w: World) {
    && (forall l, t :: 0 <= t < |w.tasks| ==> (l in w.tasks[t].held <==> l in w.owner && w.owner[l] == t))
    && (forall l :: l in w.owner ==> w.owner[l] < |w.tasks|)
  }

  ghost predicate Inv(w: World) {
    |w.tasks| > CHECKER && OwnersOk(w) && forall t :: 0 <= t < |w.tasks| ==> TaskOk(w, t)
  }

  /** Right after `spawn_background_tasks`. */
  function Boot(): World {
    World(map[], [NewTask(RttSaver), NewTask(PoolCleaner), NewTask(TruncationCleaner), NewTask(CachePurger),
                  NewTask(HealthChecker)])
  }

  lemma BootInv()
    ensures Inv(Boot())
  {
  }

  lemma SetOk(w: World, t: nat, task: Task)
    requires Inv(w) && t < |w.tasks| && task.kind == w.tasks[t].kind
    requires Disciplined(task.kind, task.held, task.rest)
    requires (task.children != {} ==> task.rest == []) && (task.done ==> task.rest == [])
    requires forall c :: c in task.children ==> t < c < |w.tasks|
    ensures forall u :: 0 <= u < |w.tasks| ==> TaskOk(Set(w, t, task), u)
  {
    hide Disciplined, OwnersOk;
    forall u | 0 <= u < |w.tasks| ensures TaskOk(Set(w, t, task), u) { assert TaskOk(w, u); }
  }

  /** The owner table plays no part in what a task alone must satisfy. */
  lemma OwnerFree(w: World, owner: map<Lock, nat>)
    requires forall u :: 0 <= u < |w.tasks| ==> TaskOk(w, u)
    ensures forall u :: 0 <= u < |w.tasks| ==> TaskOk(w.(owner := owner), u)
  {
    hide Disciplined;
    forall u | 0 <= u < |w.tasks| ensures TaskOk(w.(owner := owner), u) { assert TaskOk(w, u); }
  }

  lemma SameHeldInv(w: World, t: nat, task: Task)
    requires Inv(w) && t < |w.tasks| && task.kind == w.tasks[t].kind && task.held == w.tasks[t].held
    requires Disciplined(task.kind, task.held, task.rest)
    requires (task.children != {} ==> task.rest == []) && (task.done ==> task.rest == [])
    requires forall c :: c in task.children ==> t < c < |w.tasks|
    ensures Inv(Set(w, t, task))
  {
    SetOk(w, t, task);
    hide Disciplined, TaskOk;
  }

  lemma TakeInv(w: World, t: nat, l: Lock)
    requires Inv(w) && t < |w.tasks| && w.tasks[t].rest != [] && w.tasks[t].rest[0] == Take(l) && l !in w.owner
    requires !w.tasks[t].done
    ensures Inv(Step(w, t, Exec))
  {
    assert TaskOk(w, t);
    var task := w.tasks[t];
    var task' := task.(held := task.held + {l}, rest := task.rest[1..]);
    assert Disciplined(task'.kind, task'.held, task'.rest);
    hide Disciplined;
    SetOk(w, t, task');
    OwnerFree(Set(w, t, task'), w.owner[l := t]);
    var w' := Set(w, t, task').(owner := w.owner[l := t]);
    assert Step(w, t, Exec) == w';
    hide TaskOk, Enabled, Step;
    forall k, u | 0 <= u < |w.tasks| ensures k in w'.tasks[u].held <==> k in w'.owner && w'.owner[k] == u {
      assert k in w.tasks[u].held <==> k in w.owner && w.owner[k] == u;
    }
  }

  lemma FreeInv(w: World, t: nat, l: Lock)
    requires Inv(w) && t < |w.tasks| && w.tasks[t].rest != [] && w.tasks[t].rest[0] == Free(l)
    requires !w.tasks[t].done
    ensures Inv(Step(w, t, Exec))
  {
    assert TaskOk(w, t);
    var task := w.tasks[t];
    var task' := task.(held := task.held - {l}, rest := task.rest[1..]);
    assert Disciplined(task'.kind, task'.held, task'.rest) && l in task.held;
    hide Disciplined;
    SetOk(w, t, task');
    OwnerFree(Set(w, t, task'), w.owner - {l});
    var w' := Set(w, t, task').(owner := w.owner - {l});
    assert Step(w, t, Exec) == w';
    hide TaskOk, Enabled, Step;
    forall k, u | 0 <= u < |w.tasks| ensures k in w'.tasks[u].held <==> k in w'.owner && w'.owner[k] == u {
      assert k in w.tasks[u].held <==> k in w.owner && w.owner[k] == u;
    }
  }

  lemma CancelInv(w: World, t: nat)
    requires Inv(w) && Enabled(w, t, Cancel)
    ensures Inv(Step(w, t, Cancel))
  {
    assert TaskOk(w, t);
    var task := w.tasks[t];
    var task' := task.(held := {}, rest := [], children := {}, done := true);
    NothingDisciplined(task.kind);
    hide Disciplined;
    SetOk(w, t, task');
    OwnerFree(Set(w, t, task'), w.owner - task.held);
    var w' := Set(w, t, task').(owner := w.owner - task.held);
    assert Step(w, t, Cancel) == w';
    hide TaskOk, Enabled, Step;
    forall l, u | 0 <= u < |w.tasks| ensures l in w'.tasks[u].held <==> l in w'.owner && w'.owner[l] == u {
      assert l in w.tasks[u].held <==> l in w.owner && w.owner[l] == u;
      assert l in task.held <==> l in w.owner && w.owner[l] == t;
    }
  }

  /** New tasks hold nothing. */
  lemma AppendInv(w: World, ks: seq<Kind>)
    requires Inv(w) && forall i :: 0 <= i < |ks| ==> Transient(ks[i])
    ensures Inv(w.(tasks := w.tasks + Spawned(ks)))
  {
    var w' := w.(tasks := w.tasks + Spawned(ks));
    forall t | 0 <= t < |w'.tasks| ensures TaskOk(w', t) {
      if t < |w.tasks| { assert TaskOk(w, t); } else { NothingDisciplined(w'.tasks[t].kind); }
      hide Disciplined;
    }
    hide TaskOk;
    assert forall t :: |w.tasks| <= t < |w'.tasks| ==> w'.tasks[t].held == {};
  }

  lemma ForkInv(w: World, t: nat, ks: seq<Kind>, all: bool)
    requires Inv(w) && Enabled(w, t, Fork(ks, all))
    ensures Inv(Step(w, t, Fork(ks, all)))
  {
    assert TaskOk(w, t);
    AppendInv(w, ks);
    var more := w.(tasks := w.tasks + Spawned(ks));
    var waiting := w.tasks[t].(children := Ids(|w.tasks|, |ks|), all := all);
    SameHeldInv(more, t, waiting);
    hide Inv;
    assert Step(w, t, Fork(ks, all)) == Set(more, t, waiting);
  }

  lemma StepInv(w: World, t: nat, m: Move)
    requires Inv(w) && Enabled(w, t, m)
    ensures Inv(Step(w, t, m))
  {
    if !m.Arrive? { assert TaskOk(w, t); }
    hide Inv, Disciplined, Sections;
    match m
    case Arrive(k) =>
      AppendInv(w, [k]);
      assert Spawned([k]) == [NewTask(k)];
    case Enter(s) =>
      SectionsDisciplined(w.tasks[t].kind, s);
      IdleHoldsNothing(w.tasks[t]);
      SameHeldInv(w, t, w.tasks[t].(rest := s));
    case Exec =>
      var op := w.tasks[t].rest[0];
      if op.Take? { TakeInv(w, t, op.lock); } else { FreeInv(w, t, op.lock); }
    case Fork(ks, all) => ForkInv(w, t, ks, all);
    case Join => SameHeldInv(w, t, w.tasks[t].(children := {}));
    case Finish => SameHeldInv(w, t, w.tasks[t].(done := true));
    case Cancel => CancelInv(w, t);
  }

  lemma IdleHoldsNothing(task: Task)
    requires Disciplined(task.kind, task.held, task.rest) && task.rest == []
    ensures task.held == {}
  {
  }

  // --- Runs ---

  datatype Turn = Turn(task: nat, move: Move)

  ghost function Run(w: World, ts: seq<Turn>): World
    decreases |ts|
  {
    if ts == [] || !Enabled(w, ts[0].task, ts[0].move) then w else Run(Step(w, ts[0].task, ts[0].move), ts[1..])
  }

  lemma {:induction false} RunInv(w: World, ts: seq<Turn>)
    requires Inv(w)
    ensures Inv(Run(w, ts))
    decreases |ts|
  {
    hide Inv, Step, Enabled;
    if ts != [] && Enabled(w, ts[0].task, ts[0].move) {
      StepInv(w, ts[0].task, ts[0].move);
      RunInv(Step(w, ts[0].task, ts[0].move), ts[1..]);
    }
  }

  // --- Main results ---

  /** No two tasks ever hold the same lock. */
  lemma MutualExclusion(ts: seq<Turn>, t: nat, u: nat)
    requires var w := Run(Boot(), ts); t < u < |w.tasks|
    ensures var w := Run(Boot(), ts); w.tasks[t].held !! w.tasks[u].held
  {
    BootInv();
    RunInv(Boot(), ts);
    hide Boot, Run, TaskOk;
    var w := Run(Boot(), ts);
    forall l | l in w.tasks[t].held ensures l !in w.tasks[u].held { assert w.owner[l] == t; }
  }

  /** Whenever a task is about to take a lock, what it holds already stands in one of the listed nestings. */
  lemma OnlyListedNestings(ts: seq<Turn>, t: nat, h: Lock)
    requires var w := Run(Boot(), ts);
             t < |w.tasks| && w.tasks[t].rest != [] && w.tasks[t].rest[0].Take? && h in w.tasks[t].held
    ensures var task := Run(Boot(), ts).tasks[t]; Nests(task.kind, h, task.rest[0].lock)
  {
    BootInv();
    RunInv(Boot(), ts);
    hide Boot, Run;
    assert TaskOk(Run(Boot(), ts), t);
  }

  /** Taken along a chain of waiting tasks, the wanted locks have growing ranks. */
  function Rank(l: Lock): nat {
    match l
    case Cache => 0
    case Delegations => 0
    case Truncation => 0
    case Stats => 1
    case NsCache => 1
    case Pool => 1
    case Rtt => 2
    case Health => 3
  }

  /** Task `t` cannot go on before task `u` does: it wants `u`'s lock, or awaits tasks of which `u` is one. */
  ghost predicate WaitsFor(w: World, t: nat, u: nat) {
    && t < |w.tasks| && u < |w.tasks| && !w.tasks[t].done && !w.tasks[u].done
    && var task := w.tasks[t];
       || (task.rest != [] && task.rest[0].Take? && task.rest[0].lock in w.owner && w.owner[task.rest[0].lock] == u)
       || u in task.children
  }

  /** A move the task can make now for certain: one that waits counts only when all it waits for has ended. */
  predicate Certain(w: World, t: nat, m: Move) {
    Enabled(w, t, m) && !m.Arrive? && !m.Cancel? && (m.Join? ==> AllEnded(w, w.tasks[t]))
  }

  ghost predicate CanMove(w: World, t: nat) { exists m: Move :: Certain(w, t, m) }

  ghost predicate Frees(w: World, chain: seq<nat>) {
    && chain != [] && CanMove(w, chain[|chain| - 1])
    && forall i :: 0 <= i < |chain| - 1 ==> WaitsFor(w, chain[i], chain[i + 1])
  }

  lemma Extend(w: World, t: nat, chain: seq<nat>)
    requires Frees(w, chain) && WaitsFor(w, t, chain[0])
    ensures Frees(w, [t] + chain)
  {
    hide WaitsFor, CanMove;
    var c := [t] + chain;
    assert c[|c| - 1] == chain[|chain| - 1];
    forall i | 0 <= i < |c| - 1 ensures WaitsFor(w, c[i], c[i + 1]) {
      if i > 0 { assert c[i] == chain[i - 1] && c[i + 1] == chain[i]; }
    }
  }

  lemma Single(w: World, t: nat, m: Move)
    requires Certain(w, t, m)
    ensures Frees(w, [t])
  {
  }

  /** The owner of a wanted lock is another task in the middle of a section. */
  lemma OwnerActive(w: World, t: nat)
    requires Inv(w) && t < |w.tasks| && !w.tasks[t].done && w.tasks[t].rest != [] && w.tasks[t].rest[0].Take?
    requires w.tasks[t].rest[0].lock in w.owner
    ensures var l := w.tasks[t].rest[0].lock;
            var u := w.owner[l];
            && u < |w.tasks| && u != t && l in w.tasks[u].held
            && w.tasks[u].rest != [] && !w.tasks[u].done && WaitsFor(w, t, u)
            && (w.tasks[u].rest[0].Take? ==> Rank(l) < Rank(w.tasks[u].rest[0].lock))
  {
    var l := w.tasks[t].rest[0].lock;
    var u := w.owner[l];
    assert TaskOk(w, t) && TaskOk(w, u);
    assert l in w.tasks[u].held && l !in w.tasks[t].held;
    hide Inv, OwnersOk;
  }

  lemma {:induction false} LockChain(w: World, t: nat) returns (chain: seq<nat>)
    requires Inv(w) && t < |w.tasks| && !w.tasks[t].done && w.tasks[t].rest != []
    ensures Frees(w, chain) && chain[0] == t
    decreases if w.tasks[t].rest[0].Take? then 4 - Rank(w.tasks[t].rest[0].lock) else 0
  {
    hide Inv, Frees, WaitsFor;
    if CanExec(w, w.tasks[t]) {
      Single(w, t, Exec);
      chain := [t];
    } else {
      OwnerActive(w, t);
      chain := LockChain(w, w.owner[w.tasks[t].rest[0].lock]);
      FreesNonEmpty(w, chain);
      Extend(w, t, chain);
      chain := [t] + chain;
    }
  }

  lemma FreesNonEmpty(w: World, chain: seq<nat>)
    requires Frees(w, chain)
    ensures chain != []
  {
  }

  /** Every unfinished task leads, through the locks and tasks it waits for, to one that can move. */
  lemma {:induction false} WaitingEnds(w: World, t: nat) returns (chain: seq<nat>)
    requires Inv(w) && t < |w.tasks| && !w.tasks[t].done
    ensures Frees(w, chain) && chain[0] == t
    decreases |w.tasks| - t
  {
    assert TaskOk(w, t);
    var task := w.tasks[t];
    if task.rest != [] {
      chain := LockChain(w, t);
    } else if task.children == {} {
      hide Inv, Disciplined;
      IdleMoves(w, t);
      chain := [t];
    } else {
      if c :| c in task.children && !Ended(w, c) {
        chain := WaitingEnds(w, c);
        assert WaitsFor(w, t, c);
        Extend(w, t, chain);
        chain := [t] + chain;
      } else {
        JoinMoves(w, t);
        chain := [t];
      }
    }
  }

  lemma JoinMoves(w: World, t: nat)
    requires t < |w.tasks| && !w.tasks[t].done && w.tasks[t].children != {} && AllEnded(w, w.tasks[t])
    ensures Frees(w, [t])
  {
    var c :| c in w.tasks[t].children;
    assert Ended(w, c);
    Single(w, t, Join);
  }

  lemma IdleMoves(w: World, t: nat)
    requires t < |w.tasks| && !w.tasks[t].done && w.tasks[t].rest == [] && w.tasks[t].children == {}
    ensures Frees(w, [t])
  {
    var sections := Sections(w.tasks[t].kind);
    assert sections[0] in sections;
    Single(w, t, Enter(sections[0]));
  }

  /** Deadlock freedom: in no reachable state does any task wait for ever. */
  lemma NoDeadlock(ts: seq<Turn>, t: nat) returns (chain: seq<nat>)
    requires t < |Run(Boot(), ts).tasks| && !Run(Boot(), ts).tasks[t].done
    ensures Frees(Run(Boot(), ts), chain) && chain[0] == t
  {
    BootInv();
    RunInv(Boot(), ts);
    hide Boot, Run, Inv, Frees;
    chain := WaitingEnds(Run(Boot(), ts), t);
  }

  function TwoCheckers(): World { World(map[], [NewTask(HealthChecker), NewTask(HealthChecker)]) }

  function OneFirst(): seq<Turn> {
    [Turn(0, Enter(Within(Rtt, Alone(Health)))), Turn(1, Enter(Within(Health, Alone(Rtt)))),
     Turn(0, Exec), Turn(1, Exec)]
  }

  /** The rtt/health cycle is harmless only because one task takes both: two of them can block each other. */
  lemma TwoCheckersBlock()
    ensures var w := Run(TwoCheckers(), OneFirst()); WaitsFor(w, 0, 1) && WaitsFor(w, 1, 0)
  {
    hide Step, Enabled, WaitsFor, TwoCheckers;
    var w, ts := TwoCheckers(), OneFirst();
    CheckersEnter();
    var w1 := Step(w, 0, ts[0].move);
    var w2 := Step(w1, 1, ts[1].move);
    CheckersBlock(w2);
    var w3 := Step(w2, 0, Exec);
    assert Run(w, ts) == Run(w1, ts[1..]);
    assert Run(w1, ts[1..]) == Run(w2, ts[2..]) by { assert ts[1..][1..] == ts[2..]; }
    assert Run(w2, ts[2..]) == Run(w3, ts[3..]) by { assert ts[2..][1..] == ts[3..]; }
    assert Run(w3, ts[3..]) == Step(w3, 1, Exec) by { assert ts[3..][1..] == []; }
  }

  /** Both checkers are about to take their first lock. */
  predicate Poised(w: World) {
    && w.owner == map[] && |w.tasks| == 2 && !w.tasks[0].done && !w.tasks[1].done
    && |w.tasks[0].rest| > 1 && w.tasks[0].rest[..2] == [Take(Rtt), Take(Health)]
    && |w.tasks[1].rest| > 1 && w.tasks[1].rest[..2] == [Take(Health), Take(Rtt)]
  }

  lemma CheckersEnter()
    ensures var w, ts := TwoCheckers(), OneFirst();
            && Enabled(w, 0, ts[0].move) && Enabled(Step(w, 0, ts[0].move), 1, ts[1].move)
            && Poised(Step(Step(w, 0, ts[0].move), 1, ts[1].move))
  {
    var a, b := Within(Rtt, Alone(Health)), Within(Health, Alone(Rtt));
    assert Sections(HealthChecker)[2] == a && Sections(HealthChecker)[3] == b;
    assert a[..2] == [Take(Rtt), Take(Health)] && b[..2] == [Take(Health), Take(Rtt)];
  }

  lemma CheckersBlock(w: World)
    requires Poised(w)
    ensures Enabled(w, 0, Exec) && Enabled(Step(w, 0, Exec), 1, Exec)
    ensures var w' := Step(Step(w, 0, Exec), 1, Exec); WaitsFor(w', 0, 1) && WaitsFor(w', 1, 0)
  {
    assert w.tasks[0].rest[0] == Take(Rtt) && w.tasks[0].rest[1] == Take(Health);
    assert w.tasks[1].rest[0] == Take(Health) && w.tasks[1].rest[1] == Take(Rtt);
  }
}
