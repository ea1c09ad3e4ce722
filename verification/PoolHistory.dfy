/** Which connection an acquire gives, in terms of the whole history of the pool (src/resolver/recursive.rs). */
module PoolHistory {
  import opened Bytes
  import opened TcpPool

  /** Event `i` released a connection to server `s`, and there was room for it. */
  ghost predicate Pooled(es: seq<Event>, i: nat, s: Ip) {
    && i < |es| && es[i].op.ReleaseOp?
    && var w := Run(es[..i]);
       && es[i].op.conn in w.held && w.held[es[i].op.conn] == s
       && |Retain(At(w.pool, s), es[i].now)| < PER_SERVER
  }

  /** Event `j` took connection `c` from the pool again. */
  ghost predicate Takes(es: seq<Event>, j: nat, s: Ip, c: Conn) {
    j < |es| && es[j].op == AcquireOp(s) && Popped(At(Run(es[..j]).pool, s), es[j].now) == Some(c)
  }

  /** Event `i` pooled a connection that nobody has taken since. */
  ghost predicate Outstanding(es: seq<Event>, i: nat, s: Ip) {
    Pooled(es, i, s) && forall j :: i < j < |es| ==> !Takes(es, j, s, es[i].op.conn)
  }

  /** What event `i`, a release, put into the pool. */
  function Entry(es: seq<Event>, i: nat): Idle {
    if i < |es| && es[i].op.ReleaseOp? then Idle(es[i].op.conn, es[i].now) else Idle(0, 0)
  }

  function LastTime(es: seq<Event>): nat { if es == [] then 0 else es[|es| - 1].now }

  /** `f` gives, for each place of the server's list `v`, the event that filled it. */
  ghost predicate Filled(es: seq<Event>, s: Ip, v: seq<Idle>, f: seq<nat>) {
    && |f| == |v|
    && (forall k :: 0 <= k < |f| ==> Outstanding(es, f[k], s) && v[k] == Entry(es, f[k]))
    && (forall k, l :: 0 <= k < l < |f| ==> f[k] < f[l])
  }

  /** Every unexpired outstanding connection is in the list. */
  ghost predicate Complete(es: seq<Event>, s: Ip, f: seq<nat>, now: nat) {
    forall i: nat :: Outstanding(es, i, s) && Alive(Entry(es, i), now) ==> i in f
  }

  // --- One more event ---

  lemma Prefixes(es: seq<Event>, i: nat)
    requires es != [] && i <= |es| - 1
    ensures es[..|es| - 1][..i] == es[..i]
  {
  }

  lemma PooledBefore(es: seq<Event>, i: nat, s: Ip)
    requires es != [] && i < |es| - 1
    ensures Pooled(es, i, s) <==> Pooled(es[..|es| - 1], i, s)
  {
    Prefixes(es, i);
  }

  lemma TakesBefore(es: seq<Event>, j: nat, s: Ip, c: Conn)
    requires es != [] && j < |es| - 1
    ensures Takes(es, j, s, c) <==> Takes(es[..|es| - 1], j, s, c)
  {
    Prefixes(es, j);
  }

  /** A connection stays outstanding unless the new event takes it. */
  lemma OutstandingBefore(es: seq<Event>, i: nat, s: Ip)
    requires es != [] && i < |es| - 1
    ensures Outstanding(es, i, s) <==>
              Outstanding(es[..|es| - 1], i, s) && !Takes(es, |es| - 1, s, es[i].op.conn)
  {
    hide Pooled, Takes;
    var before := es[..|es| - 1];
    PooledBefore(es, i, s);
    if Pooled(es, i, s) {
      PooledReleases(es, i, s);
      forall j | i < j < |before| ensures Takes(es, j, s, es[i].op.conn) <==> Takes(before, j, s, before[i].op.conn) {
        TakesBefore(es, j, s, es[i].op.conn);
      }
    }
  }

  lemma PooledReleases(es: seq<Event>, i: nat, s: Ip)
    requires Pooled(es, i, s)
    ensures i < |es| && es[i].op.ReleaseOp?
  {
  }

  lemma OutstandingLast(es: seq<Event>, s: Ip)
    requires es != []
    ensures Outstanding(es, |es| - 1, s) <==> Pooled(es, |es| - 1, s)
  {
  }

  /** The list after the last event of a legal run. */
  lemma RunStep(es: seq<Event>)
    requires es != [] && Legal(es)
    ensures Legal(es[..|es| - 1]) && LastTime(es[..|es| - 1]) <= LastTime(es)
    ensures var w, e := Run(es[..|es| - 1]), es[|es| - 1];
            Allowed(w, e.op) && Run(es) == Step(w, e) && Owned(w, e.now)
  {
    TimeStep(es);
    LegalStep(es);
    hide *;
    var n := |es| - 1;
    RunOwned(es[..n]);
    TidiedLater(Run(es[..n]), LastTime(es[..n]), es[n].now);
  }

  lemma LegalStep(es: seq<Event>)
    requires es != [] && Legal(es)
    ensures LastTime(es) == es[|es| - 1].now
    ensures var w, e := Run(es[..|es| - 1]), es[|es| - 1]; Allowed(w, e.op) && Run(es) == Step(w, e)
  {
    hide Step, Allowed;
  }

  lemma TimeStep(es: seq<Event>)
    requires es != [] && Legal(es)
    ensures Legal(es[..|es| - 1]) && LastTime(es[..|es| - 1]) <= LastTime(es)
  {
  }

  /** The last event is no acquire for `s`, or finds nothing. */
  ghost predicate TakesNone(es: seq<Event>, s: Ip)
    requires es != []
  {
    var n := |es| - 1;
    es[n].op == AcquireOp(s) ==> Popped(At(Run(es[..n]).pool, s), es[n].now).None?
  }

  lemma StillThere(es: seq<Event>, s: Ip, v: seq<Idle>, g: seq<nat>, k: nat)
    requires es != [] && k < |g| && Filled(es[..|es| - 1], s, v, g)
    requires !Takes(es, |es| - 1, s, v[k].conn)
    ensures Outstanding(es, g[k], s) && g[k] < |es| - 1 && v[k] == Entry(es, g[k])
  {
    hide Pooled, Takes;
    var before := es[..|es| - 1];
    assert Outstanding(before, g[k], s);
    PooledReleases(before, g[k], s);
    OutstandingBefore(es, g[k], s);
  }

  /** An earlier release that is outstanding and unexpired had its place in the list. */
  lemma WasThere(es: seq<Event>, s: Ip, v: seq<Idle>, g: seq<nat>, i: nat) returns (k: nat)
    requires es != [] && LastTime(es[..|es| - 1]) <= LastTime(es)
    requires var before := es[..|es| - 1]; Filled(before, s, v, g) && Complete(before, s, g, LastTime(before))
    requires Outstanding(es, i, s) && Alive(Entry(es, i), LastTime(es)) && i != |es| - 1
    ensures k < |g| && g[k] == i && v[k] == Entry(es, i) && !Takes(es, |es| - 1, s, v[k].conn)
  {
    hide Pooled, Takes;
    PooledReleases(es, i, s);
    OutstandingBefore(es, i, s);
    var before := es[..|es| - 1];
    AliveEarlier(Entry(es, i), LastTime(before), LastTime(es));
    assert Entry(before, i) == Entry(es, i);
    assert i in g;
    k :| 0 <= k < |g| && g[k] == i;
  }

  /** Expired connections dropped from the front, when nothing is taken. */
  lemma ShrinksFilled(es: seq<Event>, s: Ip, v: seq<Idle>, g: seq<nat>, d: nat)
    requires es != [] && Filled(es[..|es| - 1], s, v, g) && d <= |v| && TakesNone(es, s)
    ensures |g| == |v| && Filled(es, s, v[d..], g[d..]) && forall k :: 0 <= k < |g| ==> g[k] < |es| - 1
  {
    hide TakesNone, Takes, Outstanding, Entry;
    forall k | 0 <= k < |g| ensures Outstanding(es, g[k], s) && v[k] == Entry(es, g[k]) && g[k] < |es| - 1 {
      NoneTaken(es, s, v[k].conn);
      StillThere(es, s, v, g, k);
    }
  }

  lemma NoneTaken(es: seq<Event>, s: Ip, c: Conn)
    requires es != [] && TakesNone(es, s)
    ensures !Takes(es, |es| - 1, s, c)
  {
    hide Run, Popped;
  }

  lemma ShrinksComplete(es: seq<Event>, s: Ip, v: seq<Idle>, g: seq<nat>, d: nat)
    requires es != [] && LastTime(es[..|es| - 1]) <= LastTime(es) && d <= |v|
    requires var before := es[..|es| - 1]; Filled(before, s, v, g) && Complete(before, s, g, LastTime(before))
    requires forall k :: 0 <= k < d ==> !Alive(v[k], LastTime(es))
    ensures |g| == |v|
    ensures forall i: nat :: i != |es| - 1 && Outstanding(es, i, s) && Alive(Entry(es, i), LastTime(es)) ==> i in g[d..]
  {
    FilledLength(es[..|es| - 1], s, v, g);
    hide Alive, Takes, Pooled, Filled, Complete;
    forall i: nat | i != |es| - 1 && Outstanding(es, i, s) && Alive(Entry(es, i), LastTime(es)) ensures i in g[d..] {
      var k := WasThere(es, s, v, g, i);
      assert k >= d && g[d..][k - d] == i;
    }
  }

  lemma FilledLength(es: seq<Event>, s: Ip, v: seq<Idle>, f: seq<nat>)
    requires Filled(es, s, v, f)
    ensures |f| == |v|
  {
  }

  lemma Shrinks(es: seq<Event>, s: Ip, v: seq<Idle>, g: seq<nat>, d: nat)
    requires es != [] && LastTime(es[..|es| - 1]) <= LastTime(es) && d <= |v|
    requires var before := es[..|es| - 1]; Filled(before, s, v, g) && Complete(before, s, g, LastTime(before))
    requires forall k :: 0 <= k < d ==> !Alive(v[k], LastTime(es))
    requires TakesNone(es, s) && !Pooled(es, |es| - 1, s)
    ensures d <= |g| && Filled(es, s, v[d..], g[d..]) && Complete(es, s, g[d..], LastTime(es))
  {
    hide Alive, Pooled, TakesNone, Filled, Entry, Takes;
    FilledLength(es[..|es| - 1], s, v, g);
    ShrinksFilled(es, s, v, g, d);
    ShrinksComplete(es, s, v, g, d);
  }

  /** A release with room: expired connections go, the new one comes last. */
  lemma Grows(es: seq<Event>, s: Ip, v: seq<Idle>, g: seq<nat>, d: nat)
    requires es != [] && LastTime(es[..|es| - 1]) <= LastTime(es) && d <= |v|
    requires var before := es[..|es| - 1]; Filled(before, s, v, g) && Complete(before, s, g, LastTime(before))
    requires forall k :: 0 <= k < d ==> !Alive(v[k], LastTime(es))
    requires es[|es| - 1].op.ReleaseOp? && Pooled(es, |es| - 1, s)
    ensures var n := |es| - 1;
            && d <= |g| && Filled(es, s, v[d..] + [Entry(es, n)], g[d..] + [n])
            && Complete(es, s, g[d..] + [n], LastTime(es))
  {
    hide Alive, Pooled, Takes;
    var n := |es| - 1;
    OutstandingLast(es, s);
    FilledLength(es[..n], s, v, g);
    assert TakesNone(es, s);
    ShrinksFilled(es, s, v, g, d);
    ShrinksComplete(es, s, v, g, d);
    hide Outstanding, Entry, TakesNone;
    FilledSnoc(es, s, v[d..], g[d..], n);
    assert forall i :: i in g[d..] || i == n ==> i in g[d..] + [n];
  }

  lemma FilledSnoc(es: seq<Event>, s: Ip, v: seq<Idle>, f: seq<nat>, n: nat)
    requires Filled(es, s, v, f) && Outstanding(es, n, s) && forall k :: 0 <= k < |f| ==> f[k] < n
    ensures Filled(es, s, v + [Entry(es, n)], f + [n])
  {
    hide Outstanding;
  }

  /** An acquire that finds a connection: it was the last one, and it is gone. */
  lemma Pops(es: seq<Event>, s: Ip, v: seq<Idle>, g: seq<nat>)
    requires es != [] && LastTime(es[..|es| - 1]) <= LastTime(es) && v != []
    requires var before := es[..|es| - 1]; Filled(before, s, v, g) && Complete(before, s, g, LastTime(before))
    requires forall k :: 0 <= k < |v| - 1 ==> v[k].conn != v[|v| - 1].conn
    requires es[|es| - 1].op == AcquireOp(s)
    requires Takes(es, |es| - 1, s, v[|v| - 1].conn)
    ensures |g| == |v| && Filled(es, s, v[..|v| - 1], g[..|v| - 1]) && Complete(es, s, g[..|v| - 1], LastTime(es))
  {
    hide Alive, Pooled, Takes, Outstanding, Entry;
    FilledLength(es[..|es| - 1], s, v, g);
    var m := |v| - 1;
    forall k | 0 <= k < m ensures Outstanding(es, g[k], s) && v[k] == Entry(es, g[k]) {
      TakesOne(es, |es| - 1, s, v[m].conn, v[k].conn);
      StillThere(es, s, v, g, k);
    }
    forall i: nat | Outstanding(es, i, s) && Alive(Entry(es, i), LastTime(es)) ensures i in g[..m] {
      NotLast(es, i, s);
      var k := WasThere(es, s, v, g, i);
      assert g[..m][k] == i;
    }
  }

  lemma TakesOne(es: seq<Event>, j: nat, s: Ip, c: Conn, c': Conn)
    requires Takes(es, j, s, c) && c != c'
    ensures !Takes(es, j, s, c')
  {
  }

  lemma NotLast(es: seq<Event>, i: nat, s: Ip)
    requires Outstanding(es, i, s) && es[|es| - 1].op == AcquireOp(s)
    ensures i != |es| - 1
  {
  }

  // --- Every run ---

  /** The server's list after a run. */
  ghost function ListOf(es: seq<Event>, s: Ip): seq<Idle> { At(Run(es).pool, s) }

  lemma {:induction false} RunFilled(es: seq<Event>, s: Ip) returns (f: seq<nat>)
    requires Legal(es)
    ensures Filled(es, s, ListOf(es, s), f) && Complete(es, s, f, LastTime(es))
  {
    if es == [] {
      f := [];
    } else {
      TimeStep(es);
      hide *;
      var g := RunFilled(es[..|es| - 1], s);
      f := StepFilled(es, s, g);
    }
  }

  /** What the last event of a run does to the list: take the last one, or drop expired ones and perhaps add one. */
  datatype Effect = Taken | Kept(dropped: nat) | Added(dropped: nat)

  ghost predicate Explains(es: seq<Event>, s: Ip, x: Effect)
    requires es != []
  {
    var n, v := |es| - 1, ListOf(es[..|es| - 1], s);
    match x
    case Taken =>
      && v != [] && es[n].op == AcquireOp(s) && ListOf(es, s) == v[..|v| - 1]
      && (forall k :: 0 <= k < |v| - 1 ==> v[k].conn != v[|v| - 1].conn)
      && Takes(es, n, s, v[|v| - 1].conn)
    case Kept(d) =>
      && d <= |v| && ListOf(es, s) == v[d..] && (forall k :: 0 <= k < d ==> !Alive(v[k], LastTime(es)))
      && TakesNone(es, s) && !Pooled(es, n, s)
    case Added(d) =>
      && d <= |v| && (forall k :: 0 <= k < d ==> !Alive(v[k], LastTime(es)))
      && es[n].op.ReleaseOp? && Pooled(es, n, s) && ListOf(es, s) == v[d..] + [Entry(es, n)]
  }

  lemma StepFilled(es: seq<Event>, s: Ip, g: seq<nat>) returns (f: seq<nat>)
    requires es != [] && Legal(es)
    requires var before := es[..|es| - 1];
             Filled(before, s, ListOf(before, s), g) && Complete(before, s, g, LastTime(before))
    ensures Filled(es, s, ListOf(es, s), f) && Complete(es, s, f, LastTime(es))
  {
    TimeStep(es);
    hide *;
    var x := StepExplained(es, s);
    f := EffectFilled(es, s, g, x);
  }

  lemma EffectFilled(es: seq<Event>, s: Ip, g: seq<nat>, x: Effect) returns (f: seq<nat>)
    requires es != [] && LastTime(es[..|es| - 1]) <= LastTime(es) && Explains(es, s, x)
    requires var before := es[..|es| - 1];
             Filled(before, s, ListOf(before, s), g) && Complete(before, s, g, LastTime(before))
    ensures Filled(es, s, ListOf(es, s), f) && Complete(es, s, f, LastTime(es))
  {
    hide ListOf, Filled, Complete, Alive, Pooled, Takes, TakesNone, LastTime, Entry;
    var v := ListOf(es[..|es| - 1], s);
    FilledLength(es[..|es| - 1], s, v, g);
    match x
    case Taken =>
      Pops(es, s, v, g);
      f := g[..|v| - 1];
    case Kept(d) =>
      Shrinks(es, s, v, g, d);
      f := g[d..];
    case Added(d) =>
      Grows(es, s, v, g, d);
      f := g[d..] + [|es| - 1];
  }

  lemma StepExplained(es: seq<Event>, s: Ip) returns (x: Effect)
    requires es != [] && Legal(es)
    ensures Explains(es, s, x)
  {
    RunStep(es);
    var e := es[|es| - 1];
    hide *;
    if e.op == AcquireOp(s) {
      x := AcquireExplained(es, s);
    } else if e.op.ReleaseOp? && Run(es[..|es| - 1]).held[e.op.conn] == s {
      x := ReleaseExplained(es, s);
    } else {
      x := OtherExplained(es, s);
    }
  }

  lemma DistinctConns(w: World, now: nat, s: Ip)
    requires Owned(w, now)
    ensures var v := At(w.pool, s);
            && Tidied(v, now) && forall k :: 0 <= k < |v| - 1 ==> v[k].conn != v[|v| - 1].conn
  {
  }

  lemma AcquireEffect(es: seq<Event>, s: Ip)
    requires es != [] && Legal(es) && es[|es| - 1].op == AcquireOp(s)
    ensures var n := |es| - 1;
            var v, now := ListOf(es[..n], s), es[n].now;
            && ListOf(es, s) == AfterPop(v, now) && (Popped(v, now).None? ==> TakesNone(es, s))
            && (Popped(v, now).Some? ==> Takes(es, n, s, Popped(v, now).value))
            && Tidied(v, now) && forall k :: 0 <= k < |v| - 1 ==> v[k].conn != v[|v| - 1].conn
  {
    RunStep(es);
    var n := |es| - 1;
    DistinctConns(Run(es[..n]), es[n].now, s);
    hide Run, Legal, Owned, Popped, AfterPop, Tidied;
    if s !in Run(es[..n]).pool { NothingPopped(es[n].now); }
  }

  lemma NothingPopped(now: nat)
    ensures AfterPop([], now) == []
  {
  }

  lemma AcquireExplained(es: seq<Event>, s: Ip) returns (x: Effect)
    requires es != [] && Legal(es) && es[|es| - 1].op == AcquireOp(s)
    ensures Explains(es, s, x)
  {
    AcquireEffect(es, s);
    var n := |es| - 1;
    var v := ListOf(es[..n], s);
    hide ListOf, Legal, Alive, Popped, AfterPop, Tidied, Pooled, Takes, TakesNone;
    AcquireNewest(v, es[n].now);
    NotPooled(es, s);
    if v != [] && Alive(v[|v| - 1], es[n].now) {
      PopsLast(v, es[n].now);
      x := Taken;
    } else {
      assert v[|v|..] == [];
      x := Kept(|v|);
    }
  }

  lemma NotPooled(es: seq<Event>, s: Ip)
    requires es != [] && !es[|es| - 1].op.ReleaseOp?
    ensures !Pooled(es, |es| - 1, s)
  {
  }

  lemma ReleaseEffect(es: seq<Event>, s: Ip)
    requires es != [] && Legal(es) && es[|es| - 1].op.ReleaseOp?
    requires Allowed(Run(es[..|es| - 1]), es[|es| - 1].op) && Run(es[..|es| - 1]).held[es[|es| - 1].op.conn] == s
    ensures var n := |es| - 1;
            var v := ListOf(es[..n], s);
            var kept := Retain(v, es[n].now);
            && Ordered(v) && TakesNone(es, s)
            && (Pooled(es, n, s) <==> |kept| < PER_SERVER)
            && ListOf(es, s) == if |kept| < PER_SERVER then kept + [Entry(es, n)] else kept
  {
    RunStep(es);
    var n := |es| - 1;
    DistinctConns(Run(es[..n]), es[n].now, s);
    hide Run, Legal, Owned, Retain, Ordered, Popped;
  }

  lemma ReleaseExplained(es: seq<Event>, s: Ip) returns (x: Effect)
    requires es != [] && Legal(es) && es[|es| - 1].op.ReleaseOp?
    requires Allowed(Run(es[..|es| - 1]), es[|es| - 1].op) && Run(es[..|es| - 1]).held[es[|es| - 1].op.conn] == s
    ensures Explains(es, s, x)
  {
    ReleaseEffect(es, s);
    var n := |es| - 1;
    var v := ListOf(es[..n], s);
    hide ListOf, Run, Legal, Alive, Retain, Pooled, TakesNone, Entry, Ordered;
    var d := RetainIsSuffix(v, es[n].now);
    x := if |Retain(v, es[n].now)| < PER_SERVER then Added(d) else Kept(d);
  }

  lemma StepElsewhere(w: World, e: Event, s: Ip)
    requires Allowed(w, e.op) && e.op != AcquireOp(s) && (e.op.ReleaseOp? ==> w.held[e.op.conn] != s)
    ensures At(Step(w, e).pool, s) == if e.op.CleanupOp? then Retain(At(w.pool, s), e.now) else At(w.pool, s)
  {
    CleanupAt(w.pool, s, e.now);
    hide Retain, Popped, AfterPop, Cleanup;
  }

  lemma OtherEffect(es: seq<Event>, s: Ip)
    requires es != [] && Legal(es) && es[|es| - 1].op != AcquireOp(s)
    requires Allowed(Run(es[..|es| - 1]), es[|es| - 1].op)
    requires es[|es| - 1].op.ReleaseOp? ==> Run(es[..|es| - 1]).held[es[|es| - 1].op.conn] != s
    ensures var n := |es| - 1;
            var v := ListOf(es[..n], s);
            && Ordered(v) && TakesNone(es, s) && !Pooled(es, n, s)
            && ListOf(es, s) == if es[n].op.CleanupOp? then Retain(v, es[n].now) else v
  {
    RunStep(es);
    var n := |es| - 1;
    var w := Run(es[..n]);
    DistinctConns(w, es[n].now, s);
    StepElsewhere(w, es[n], s);
    hide Run, Legal, Owned, Retain, Ordered, Popped, Step;
  }

  lemma OtherExplained(es: seq<Event>, s: Ip) returns (x: Effect)
    requires es != [] && Legal(es) && es[|es| - 1].op != AcquireOp(s)
    requires Allowed(Run(es[..|es| - 1]), es[|es| - 1].op)
    requires es[|es| - 1].op.ReleaseOp? ==> Run(es[..|es| - 1]).held[es[|es| - 1].op.conn] != s
    ensures Explains(es, s, x)
  {
    OtherEffect(es, s);
    var n := |es| - 1;
    var v := ListOf(es[..n], s);
    hide ListOf, Run, Legal, Alive, Retain, Pooled, TakesNone, Ordered;
    assert v[0..] == v;
    x := Kept(0);
    if es[n].op.CleanupOp? {
      var d := RetainIsSuffix(v, es[n].now);
      x := Kept(d);
    }
  }

  lemma CleanupAt(p: Pool, s: Ip, now: nat)
    ensures At(Cleanup(p, now), s) == Retain(At(p, s), now)
  {
  }

  lemma PopsLast(v: seq<Idle>, now: nat)
    requires v != [] && Alive(v[|v| - 1], now)
    ensures AfterPop(v, now) == v[..|v| - 1] && Popped(v, now) == Some(v[|v| - 1].conn)
  {
  }

  lemma {:induction false} TimesGrow(es: seq<Event>, i: nat, j: nat)
    requires Legal(es) && i <= j < |es|
    ensures es[i].now <= es[j].now
  {
    var n := |es| - 1;
    if i < n {
      TimesGrow(es[..n], i, if j < n then j else n - 1);
    }
  }

  /** Event `i` is the last release to the server that was pooled and not taken back. */
  ghost predicate LastPooled(es: seq<Event>, i: nat, s: Ip) {
    Outstanding(es, i, s) && forall j :: i < j < |es| ==> !Outstanding(es, j, s)
  }

  /**
   * After every run, acquire gives the connection of the last release to that server that was pooled and not taken
   * back, if it is unexpired, and nothing exactly when every such connection is expired.
   */
  lemma AcquireIsLastPooled(es: seq<Event>, s: Ip, now: nat, c: Conn)
    requires Legal(es) && LastTime(es) <= now
    ensures Popped(ListOf(es, s), now) == Some(c) <==>
              exists i: nat :: LastPooled(es, i, s) && Entry(es, i).conn == c && Alive(Entry(es, i), now)
    ensures Popped(ListOf(es, s), now).None? <==>
              forall i: nat :: Outstanding(es, i, s) ==> !Alive(Entry(es, i), now)
  {
    var v := ListOf(es, s);
    var f := RunFilled(es, s);
    RunOwned(es);
    TidiedLater(Run(es), LastTime(es), now);
    assert Tidied(v, now);
    AcquireNewest(v, now);
    hide Run, Legal, Owned, Popped, AfterPop, Pooled, Takes, Outstanding, Alive;
    forall i: nat | Outstanding(es, i, s) && Alive(Entry(es, i), now) ensures i in f {
      AliveEarlier(Entry(es, i), LastTime(es), now);
    }
    if v != [] && Alive(v[|v| - 1], now) {
      var i := f[|f| - 1];
      assert v[|v| - 1] == Entry(es, i) && i in f;
      forall j | i < j < |es| ensures !Outstanding(es, j, s) {
        if Outstanding(es, j, s) {
          TimesGrow(es, i, j);
          YoungerAlive(Entry(es, i), Entry(es, j), now);
        }
      }
      assert LastPooled(es, i, s);
    }
  }

  lemma YoungerAlive(x: Idle, y: Idle, now: nat)
    requires Alive(x, now) && x.lastUsed <= y.lastUsed
    ensures Alive(y, now)
  {
  }

  // --- A full list drops the newest connection ---

  /** Three connections to one server are opened and then given back in turn, all at time 0. */
  function ThreeReturns(s: Ip): seq<Event> {
    [Event(AcquireOp(s), 0), Event(AcquireOp(s), 0), Event(AcquireOp(s), 0),
     Event(ReleaseOp(0), 0), Event(ReleaseOp(1), 0), Event(ReleaseOp(2), 0)]
  }

  lemma RunSnoc(es: seq<Event>, e: Event, w: World)
    requires Legal(es) && Run(es) == w && Allowed(w, e.op) && LastTime(es) <= e.now
    ensures Legal(es + [e]) && Run(es + [e]) == Step(w, e) && LastTime(es + [e]) == e.now
  {
    assert (es + [e])[..|es|] == es;
  }

  function Holding(s: Ip, pool: Pool, from: nat): World {
    World(pool, if from == 0 then map[0 := s, 1 := s, 2 := s] else if from == 1 then map[1 := s, 2 := s]
                else if from == 2 then map[2 := s] else map[], 3)
  }

  lemma FreshStep(s: Ip, held: map<Conn, Ip>, n: nat)
    ensures Step(World(map[], held, n), Event(AcquireOp(s), 0)) == World(map[], held[n := s], n + 1)
  {
  }

  lemma ThreeOpened(s: Ip)
    ensures Legal(ThreeReturns(s)[..3]) && Run(ThreeReturns(s)[..3]) == Holding(s, map[], 0)
    ensures LastTime(ThreeReturns(s)[..3]) == 0
  {
    var e := Event(AcquireOp(s), 0);
    FreshStep(s, map[], 0);
    RunSnoc([], e, World(map[], map[], 0));
    assert [] + [e] == [e] && map[][0 := s] == map[0 := s];
    FreshStep(s, map[0 := s], 1);
    RunSnoc([e], e, World(map[], map[0 := s], 1));
    assert [e] + [e] == [e, e] && map[0 := s][1 := s] == map[0 := s, 1 := s];
    FreshStep(s, map[0 := s, 1 := s], 2);
    RunSnoc([e, e], e, World(map[], map[0 := s, 1 := s], 2));
    assert [e, e] + [e] == ThreeReturns(s)[..3];
    assert map[0 := s, 1 := s][2 := s] == Holding(s, map[], 0).held;
  }

  lemma AllAlive(v: seq<Idle>)
    requires forall i :: 0 <= i < |v| ==> v[i].lastUsed == 0
    ensures Retain(v, 0) == v
  {
    assert Ordered(v);
    if v != [] { assert Alive(v[0], 0); }
    RetainAll(v, 0);
  }

  lemma ReturnStep(s: Ip, v: seq<Idle>, c: nat)
    requires c < 3 && forall i :: 0 <= i < |v| ==> v[i].lastUsed == 0
    ensures Step(Holding(s, map[s := v], c), Event(ReleaseOp(c), 0)) ==
              Holding(s, map[s := if |v| < 2 then v + [Idle(c, 0)] else v], c + 1)
  {
    AllAlive(v);
    hide Retain;
    assert Holding(s, map[s := v], c).held - {c} == Holding(s, map[s := v], c + 1).held;
  }

  lemma FirstReturn(s: Ip)
    ensures Step(Holding(s, map[], 0), Event(ReleaseOp(0), 0)) == Holding(s, map[s := [Idle(0, 0)]], 1)
  {
    AllAlive([]);
    hide Retain;
    assert Holding(s, map[], 0).held - {0} == Holding(s, map[], 1).held;
    assert [] + [Idle(0, 0)] == [Idle(0, 0)];
  }

  /** The connection given back last was dropped, and acquire gives the one given back before it. */
  lemma FullListDropsNewest(s: Ip)
    ensures Legal(ThreeReturns(s)) && Popped(ListOf(ThreeReturns(s), s), 0) == Some(1)
  {
    ThreeOpened(s);
    hide Run, Legal, Step, ThreeReturns, Popped;
    var es := ThreeReturns(s);
    var a, b := Idle(0, 0), Idle(1, 0);
    ThreeParts(s);
    FirstReturn(s);
    RunSnoc(es[..3], Event(ReleaseOp(0), 0), Holding(s, map[], 0));
    ReturnStep(s, [a], 1);
    RunSnoc(es[..4], Event(ReleaseOp(1), 0), Holding(s, map[s := [a]], 1));
    assert [a] + [b] == [a, b];
    ReturnStep(s, [a, b], 2);
    RunSnoc(es[..5], Event(ReleaseOp(2), 0), Holding(s, map[s := [a, b]], 2));
    PopsLast([a, b], 0);
  }

  lemma ThreeParts(s: Ip)
    ensures var es := ThreeReturns(s);
            && |es| == 6 && es[..3] + [Event(ReleaseOp(0), 0)] == es[..4]
            && es[..4] + [Event(ReleaseOp(1), 0)] == es[..5] && es[..5] + [Event(ReleaseOp(2), 0)] == es
  {
  }
}
