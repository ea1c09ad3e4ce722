/** The pool of idle TCP connections of src/resolver/recursive.rs. */
module TcpPool {
  import opened Bytes

  const PER_SERVER := 2
  const IDLE_TIMEOUT := 60_000_000_000

  /** A server address and the identity of an open connection. */
  type Ip = bytes
  type Conn = nat

  datatype Idle = Idle(conn: Conn, lastUsed: nat)

  type Pool = map<Ip, seq<Idle>>

  // --- Operations, on the map as a value ---

  predicate Alive(x: Idle, now: nat) { (if now > x.lastUsed then now - x.lastUsed else 0) < IDLE_TIMEOUT }

  function At(p: Pool, s: Ip): seq<Idle> { if s in p then p[s] else [] }

  /** What popping leaves: everything popped so far was expired. */
  function AfterPop(v: seq<Idle>, now: nat): seq<Idle> {
    if v == [] then [] else if Alive(v[|v| - 1], now) then v[..|v| - 1] else AfterPop(v[..|v| - 1], now)
  }

  function Popped(v: seq<Idle>, now: nat): Option<Conn> {
    if v == [] then None else if Alive(v[|v| - 1], now) then Some(v[|v| - 1].conn) else Popped(v[..|v| - 1], now)
  }

  function Retain(v: seq<Idle>, now: nat): seq<Idle> {
    if v == [] then [] else (if Alive(v[0], now) then [v[0]] else []) + Retain(v[1..], now)
  }

  function Acquire(p: Pool, s: Ip, now: nat): Pool { if s in p then p[s := AfterPop(p[s], now)] else p }

  function Release(p: Pool, s: Ip, c: Conn, now: nat): Pool {
    var kept := Retain(At(p, s), now);
    p[s := if |kept| < PER_SERVER then kept + [Idle(c, now)] else kept]
  }

  function Cleanup(p: Pool, now: nat): Pool { map s | s in p && Retain(p[s], now) != [] :: Retain(p[s], now) }

  lemma RetainStep(v: seq<Idle>, i: nat, now: nat)
    requires i < |v|
    ensures Retain(v[i..], now) == (if Alive(v[i], now) then [v[i]] else []) + Retain(v[i + 1..], now)
  {
    assert v[i..][1..] == v[i + 1..];
  }

  /** `Vec::retain`. */
  method RetainAlive(v: seq<Idle>, now: nat) returns (kept: seq<Idle>)
    ensures kept == Retain(v, now)
  {
    kept := [];
    assert v[0..] == v;
    for i := 0 to |v|
      invariant kept + Retain(v[i..], now) == Retain(v, now)
    {
      RetainStep(v, i, now);
      hide Retain, Alive;
      if Alive(v[i], now) { kept := kept + [v[i]]; }
    }
  }

  class Connections {
    var pool: Pool

    constructor ()
      ensures pool == map[]
    {
      pool := map[];
    }

    method TakeIdle(server: Ip, now: nat) returns (c: Option<Conn>)
      modifies this
      ensures pool == Acquire(old(pool), server, now) && c == Popped(At(old(pool), server), now)
    {
      if server !in pool { return None; }
      var v := pool[server];
      while v != []
        invariant AfterPop(v, now) == AfterPop(old(pool)[server], now)
        invariant Popped(v, now) == Popped(old(pool)[server], now)
        decreases |v|
      {
        var last := v[|v| - 1];
        v := v[..|v| - 1];
        if Alive(last, now) {
          pool := pool[server := v];
          return Some(last.conn);
        }
      }
      pool := pool[server := v];
      return None;
    }

    method GiveBack(server: Ip, c: Conn, now: nat)
      modifies this
      ensures pool == Release(old(pool), server, c, now)
    {
      var v := if server in pool then pool[server] else [];
      var kept := RetainAlive(v, now);
      if |kept| < PER_SERVER { kept := kept + [Idle(c, now)]; }
      pool := pool[server := kept];
    }

    method Tidy(now: nat)
      modifies this
      ensures pool == Cleanup(old(pool), now)
    {
      var left := pool.Keys;
      var kept: Pool := map[];
      while left != {}
        invariant pool == old(pool) && left <= pool.Keys
        invariant kept.Keys == set s | s in pool && s !in left && Retain(pool[s], now) != []
        invariant forall s :: s in kept ==> s in pool && kept[s] == Retain(pool[s], now)
        decreases |left|
      {
        var s :| s in left;
        var v := RetainAlive(pool[s], now);
        if v != [] { kept := kept[s := v]; }
        left := left - {s};
      }
      pool := kept;
    }
  }

  // --- Runs with users ---

  /** The pool, the connections in use with their servers, and the next unused identity. */
  datatype World = World(pool: Pool, held: map<Conn, Ip>, next: Conn)

  datatype Op =
    | AcquireOp(server: Ip)     // a pooled connection, or a new one
    | ReleaseOp(conn: Conn)     // after a complete exchange
    | DropOp(conn: Conn)        // after an error
    | CleanupOp

  datatype Event = Event(op: Op, now: nat)

  /** Users release and drop only what they hold. */
  predicate Allowed(w: World, op: Op) { (op.ReleaseOp? || op.DropOp?) ==> op.conn in w.held }

  function Step(w: World, e: Event): World
    requires Allowed(w, e.op)
  {
    match e.op
    case AcquireOp(s) =>
      (match Popped(At(w.pool, s), e.now)
       case Some(c) => w.(pool := Acquire(w.pool, s, e.now), held := w.held[c := s])
       case None => w.(pool := Acquire(w.pool, s, e.now), held := w.held[w.next := s], next := w.next + 1))
    case ReleaseOp(c) => w.(pool := Release(w.pool, w.held[c], c, e.now), held := w.held - {c})
    case DropOp(c) => w.(held := w.held - {c})
    case CleanupOp => w.(pool := Cleanup(w.pool, e.now))
  }

  /** At most two connections per server, in order of last use, none used in the future. */
  predicate Tidied(v: seq<Idle>, now: nat) {
    && |v| <= PER_SERVER
    && (forall i :: 0 <= i < |v| ==> v[i].lastUsed <= now)
    && Ordered(v)
  }

  ghost predicate UniquePlaces(p: Pool) {
    forall s, i, s', i' ::
      s in p && 0 <= i < |p[s]| && s' in p && 0 <= i' < |p[s']| && p[s][i].conn == p[s'][i'].conn ==>
        s == s' && i == i'
  }

  /** Each connection is pooled in one place only, and never both pooled and held. */
  ghost predicate Owned(w: World, now: nat) {
    && (forall s :: s in w.pool ==> Tidied(w.pool[s], now))
    && (forall s, i :: s in w.pool && 0 <= i < |w.pool[s]| ==>
        w.pool[s][i].conn !in w.held && w.pool[s][i].conn < w.next)
    && UniquePlaces(w.pool)
    && (forall c :: c in w.held ==> c < w.next)
  }

  lemma {:induction false} PopIsPrefix(v: seq<Idle>, now: nat)
    ensures AfterPop(v, now) <= v
    ensures Popped(v, now).Some? ==>
              |AfterPop(v, now)| < |v| && v[|AfterPop(v, now)|].conn == Popped(v, now).value
  {
    hide Alive;
    if v != [] && !Alive(v[|v| - 1], now) { PopIsPrefix(v[..|v| - 1], now); }
  }

  /** Where the elements of a thinned list stand in the original one. */
  ghost predicate Positions(f: seq<nat>, a: seq<Idle>, b: seq<Idle>) {
    && |f| == |a|
    && (forall i :: 0 <= i < |f| ==> f[i] < |b| && a[i] == b[f[i]])
    && (forall i, j :: 0 <= i < j < |f| ==> f[i] < f[j])
  }

  function Shifted(g: seq<nat>): (h: seq<nat>)
    ensures |h| == |g| && forall i :: 0 <= i < |g| ==> h[i] == g[i] + 1
  {
    seq(|g|, i requires 0 <= i < |g| => g[i] + 1)
  }

  lemma SkipPosition(g: seq<nat>, a: seq<Idle>, x: Idle, b: seq<Idle>)
    requires Positions(g, a, b)
    ensures Positions(Shifted(g), a, [x] + b)
  {
  }

  lemma KeepPosition(g: seq<nat>, a: seq<Idle>, x: Idle, b: seq<Idle>)
    requires Positions(g, a, b)
    ensures Positions([0] + Shifted(g), [x] + a, [x] + b)
  {
    hide Shifted;
  }

  lemma {:induction false} RetainSpec(v: seq<Idle>, now: nat) returns (f: seq<nat>)
    ensures Positions(f, Retain(v, now), v)
  {
    hide Alive, Positions;
    if v == [] {
      f := [];
      NoPositions();
    } else {
      var g := RetainSpec(v[1..], now);
      var r := Retain(v[1..], now);
      assert v == [v[0]] + v[1..];
      if Alive(v[0], now) {
        f := [0] + Shifted(g);
        KeepPosition(g, r, v[0], v[1..]);
      } else {
        f := Shifted(g);
        SkipPosition(g, r, v[0], v[1..]);
        assert [] + r == r;
      }
    }
  }

  lemma NoPositions()
    ensures Positions([], [], [])
  {
  }

  lemma TidiedLater(w: World, t: nat, now: nat)
    requires Owned(w, t) && t <= now
    ensures Owned(w, now)
  {
    forall s | s in w.pool ensures Tidied(w.pool[s], now) { assert Tidied(w.pool[s], t); }
  }

  /** Shrinking lists, in place or to fewer of their elements, keeps ownership. */
  ghost predicate Thinner(a: seq<Idle>, b: seq<Idle>) {
    exists f: seq<nat> :: Positions(f, a, b)
  }

  lemma {:induction false} Increasing(f: seq<nat>, n: nat)
    requires (forall i :: 0 <= i < |f| ==> f[i] < n) && forall i, j :: 0 <= i < j < |f| ==> f[i] < f[j]
    ensures |f| <= n
  {
    if f != [] {
      var m := |f| - 1;
      assert forall i :: 0 <= i < m ==> f[i] < f[m];
      Increasing(f[..m], f[m]);
    }
  }

  lemma ThinnerTidied(a: seq<Idle>, b: seq<Idle>, now: nat)
    requires Thinner(a, b) && Tidied(b, now)
    ensures Tidied(a, now)
  {
    var f: seq<nat> :| Positions(f, a, b);
    Increasing(f, |b|);
  }

  ghost predicate ThinnerPool(p: Pool, q: Pool) { forall s :: s in p ==> s in q && Thinner(p[s], q[s]) }

  lemma ThinnerOwned(w: World, p: Pool, now: nat)
    requires Owned(w, now) && ThinnerPool(p, w.pool)
    ensures Owned(w.(pool := p), now)
  {
    var q := w.pool;
    hide Thinner, Tidied, UniquePlaces;
    forall s | s in p ensures Tidied(p[s], now) { ThinnerTidied(p[s], q[s], now); }
    forall s, i | s in p && 0 <= i < |p[s]| ensures p[s][i].conn !in w.held && p[s][i].conn < w.next {
      var k := Origin(p, q, s, i);
    }
    ThinnerUnique(q, p);
  }

  lemma Origin(p: Pool, q: Pool, s: Ip, i: nat) returns (k: nat)
    requires ThinnerPool(p, q) && s in p && i < |p[s]|
    ensures s in q && k < |q[s]| && p[s][i] == q[s][k]
  {
    var f: seq<nat> :| Positions(f, p[s], q[s]);
    k := f[i];
  }

  lemma ThinnerUnique(q: Pool, p: Pool)
    requires UniquePlaces(q) && ThinnerPool(p, q)
    ensures UniquePlaces(p)
  {
    hide ThinnerPool;
    forall s, i, s', i' | s in p && 0 <= i < |p[s]| && s' in p && 0 <= i' < |p[s']| && p[s][i].conn == p[s'][i'].conn
      ensures s == s' && i == i'
    {
      SameOrigin(q, p, s, i, s', i');
    }
  }

  lemma SameOrigin(q: Pool, p: Pool, s: Ip, i: nat, s': Ip, i': nat)
    requires UniquePlaces(q) && ThinnerPool(p, q)
    requires s in p && i < |p[s]| && s' in p && i' < |p[s']| && p[s][i].conn == p[s'][i'].conn
    ensures s == s' && i == i'
  {
    var k := Origin(p, q, s, i);
    var k' := Origin(p, q, s', i');
    assert s == s';
    var a, b := p[s], q[s];
    assert Thinner(a, b);
    var f: seq<nat> :| Positions(f, a, b);
    hide ThinnerPool;
    assert b[f[i]].conn == b[f[i']].conn;
    assert f[i] == f[i'];
  }

  lemma PrefixThinner(a: seq<Idle>, b: seq<Idle>)
    requires a <= b
    ensures Thinner(a, b)
  {
    var f: seq<nat> := seq(|a|, i => i);
    assert Positions(f, a, b);
  }

  lemma RetainThinner(v: seq<Idle>, now: nat)
    ensures Thinner(Retain(v, now), v)
  {
    var f := RetainSpec(v, now);
  }

  lemma SelfThinner(p: Pool)
    ensures ThinnerPool(p, p)
  {
    forall s | s in p ensures Thinner(p[s], p[s]) { PrefixThinner(p[s], p[s]); }
  }

  lemma AcquireThinner(p: Pool, s: Ip, now: nat)
    ensures ThinnerPool(Acquire(p, s, now), p)
  {
    SelfThinner(p);
    if s in p {
      PopIsPrefix(p[s], now);
      PrefixThinner(AfterPop(p[s], now), p[s]);
    }
  }

  /** What was popped is in the pool no longer. */
  lemma PoppedGone(w: World, s: Ip, now: nat, c: Conn)
    requires Owned(w, now) && Popped(At(w.pool, s), now) == Some(c)
    ensures c < w.next
    ensures var p := Acquire(w.pool, s, now); forall s': Ip, i :: s' in p && 0 <= i < |p[s']| ==> p[s'][i].conn != c
  {
    var p: Pool := Acquire(w.pool, s, now);
    PopIsPrefix(At(w.pool, s), now);
    hide AfterPop, Popped, Tidied;
    var n := |p[s]|;
    assert w.pool[s][n].conn == c;
    forall s': Ip, i | s' in p && 0 <= i < |p[s']| ensures p[s'][i].conn != c {
      assert p[s'][i] == w.pool[s'][i];
      assert s' == s ==> i != n;
    }
  }

  lemma HoldOwned(w: World, c: Conn, s: Ip, now: nat)
    requires Owned(w, now) && c <= w.next
    requires forall s', i :: s' in w.pool && 0 <= i < |w.pool[s']| ==> w.pool[s'][i].conn != c
    ensures Owned(w.(held := w.held[c := s], next := if c == w.next then w.next + 1 else w.next), now)
  {
    hide Tidied, UniquePlaces;
  }

  lemma AcquireOwned(w: World, s: Ip, now: nat)
    requires Owned(w, now)
    ensures Owned(Step(w, Event(AcquireOp(s), now)), now)
  {
    hide Owned, Popped, Acquire, ThinnerPool;
    var p := Acquire(w.pool, s, now);
    AcquireThinner(w.pool, s, now);
    ThinnerOwned(w, p, now);
    match Popped(At(w.pool, s), now)
    case Some(c) =>
      PoppedGone(w, s, now, c);
      HoldOwned(w.(pool := p), c, s, now);
    case None =>
      NextUnpooled(w.(pool := p), now);
      HoldOwned(w.(pool := p), w.next, s, now);
  }

  lemma NextUnpooled(w: World, now: nat)
    requires Owned(w, now)
    ensures forall s', i :: s' in w.pool && 0 <= i < |w.pool[s']| ==> w.pool[s'][i].conn != w.next
  {
    hide Tidied, UniquePlaces;
  }

  lemma WithEntry(w: World, s: Ip, now: nat)
    requires Owned(w, now)
    ensures Owned(w.(pool := w.pool[s := At(w.pool, s)]), now)
  {
    if s in w.pool { assert w.pool[s := w.pool[s]] == w.pool; }
  }

  lemma RetainOwned(w: World, s: Ip, now: nat)
    requires Owned(w, now) && s in w.pool
    ensures Owned(w.(pool := w.pool[s := Retain(w.pool[s], now)]), now)
  {
    var p := w.pool[s := Retain(w.pool[s], now)];
    assert ThinnerPool(p, w.pool) by {
      SelfThinner(w.pool);
      RetainThinner(w.pool[s], now);
      hide Thinner, Retain;
    }
    hide ThinnerPool, Retain;
    ThinnerOwned(w, p, now);
  }

  lemma DropOwned(w: World, c: Conn, now: nat)
    requires Owned(w, now)
    ensures Owned(w.(held := w.held - {c}), now)
  {
    hide Tidied, UniquePlaces;
  }

  lemma ReleaseOwned(w: World, c: Conn, now: nat)
    requires Owned(w, now) && c in w.held
    ensures Owned(Step(w, Event(ReleaseOp(c), now)), now)
  {
    hide Owned, Retain;
    var s := w.held[c];
    var v := At(w.pool, s);
    var kept := Retain(v, now);
    var w0 := w.(pool := w.pool[s := v]);
    WithEntry(w, s, now);
    RetainOwned(w0, s, now);
    var w1 := w.(pool := w.pool[s := kept]);
    assert w0.pool[s := kept] == w.pool[s := kept];
    if |kept| < PER_SERVER {
      AddOwned(w1, s, c, now);
      assert w1.pool[s := kept + [Idle(c, now)]] == w.pool[s := kept + [Idle(c, now)]];
    } else {
      DropOwned(w1, c, now);
    }
  }

  lemma AddOwned(w: World, s: Ip, c: Conn, now: nat)
    requires Owned(w, now) && s in w.pool && |w.pool[s]| < PER_SERVER && c in w.held
    ensures Owned(w.(pool := w.pool[s := w.pool[s] + [Idle(c, now)]], held := w.held - {c}), now)
  {
    var q := w.pool[s := w.pool[s] + [Idle(c, now)]];
    forall s', i | s' in q && 0 <= i < |q[s']|
      ensures (s' == s && i == |w.pool[s]|) || (s' in w.pool && i < |w.pool[s']| && q[s'][i] == w.pool[s'][i])
      ensures q[s'][i].conn == c ==> s' == s && i == |w.pool[s]|
    {
    }
    assert Tidied(q[s], now) by { assert Tidied(w.pool[s], now); }
  }

  lemma CleanupOwned(w: World, now: nat)
    requires Owned(w, now)
    ensures Owned(w.(pool := Cleanup(w.pool, now)), now)
  {
    var p := Cleanup(w.pool, now);
    forall s | s in p ensures s in w.pool && Thinner(p[s], w.pool[s]) { RetainThinner(w.pool[s], now); }
    ThinnerOwned(w, p, now);
  }

  lemma StepOwned(w: World, t: nat, e: Event)
    requires Owned(w, t) && t <= e.now && Allowed(w, e.op)
    ensures Owned(Step(w, e), e.now)
  {
    TidiedLater(w, t, e.now);
    hide Owned;
    match e.op
    case AcquireOp(s) => AcquireOwned(w, s, e.now);
    case ReleaseOp(c) => ReleaseOwned(w, c, e.now);
    case DropOp(c) => DropOwned(w, c, e.now);
    case CleanupOp => CleanupOwned(w, e.now);
  }

  ghost predicate Legal(es: seq<Event>) {
    es == [] ||
    var n := |es| - 1;
    Legal(es[..n]) && Allowed(Run(es[..n]), es[n].op) && (n > 0 ==> es[n - 1].now <= es[n].now)
  }

  ghost function Run(es: seq<Event>): World
    decreases |es|, 0
  {
    if es == [] then World(map[], map[], 0)
    else
      var n := |es| - 1;
      var w := Run(es[..n]);
      if Allowed(w, es[n].op) then Step(w, es[n]) else w
  }

  /** Ownership holds after every run of acquire, release, drop and cleanup under a monotone clock. */
  lemma {:induction false} RunOwned(es: seq<Event>)
    requires Legal(es)
    ensures Owned(Run(es), if es == [] then 0 else es[|es| - 1].now)
  {
    hide Owned, Step, Allowed;
    if es == [] {
      EmptyOwned();
    } else {
      var n := |es| - 1;
      RunOwned(es[..n]);
      StepOwned(Run(es[..n]), if n == 0 then 0 else es[n - 1].now, es[n]);
    }
  }

  lemma EmptyOwned()
    ensures Owned(World(map[], map[], 0), 0)
  {
  }

  /** Acquire gives the last connection of a server's list if that is alive, and nothing only if none is. */
  lemma {:induction false} AcquireNewest(v: seq<Idle>, now: nat)
    requires Tidied(v, now)
    ensures Popped(v, now) == if v != [] && Alive(v[|v| - 1], now) then Some(v[|v| - 1].conn) else None
    ensures Popped(v, now).None? <==> forall i :: 0 <= i < |v| ==> !Alive(v[i], now)
    ensures Popped(v, now).None? ==> AfterPop(v, now) == []
  {
    if v != [] && !Alive(v[|v| - 1], now) {
      var u := v[..|v| - 1];
      assert forall i :: 0 <= i < |u| ==> u[i] == v[i];
      AcquireNewest(u, now);
      assert forall i :: 0 <= i < |v| ==> !Alive(v[i], now);
    }
  }

  // --- What cleaning up means ---

  /** Unexpired means used less than a minute ago. */
  lemma AliveIff(x: Idle, now: nat)
    ensures Alive(x, now) <==> now < x.lastUsed + 60_000_000_000
  {
  }

  lemma AliveEarlier(x: Idle, t: nat, now: nat)
    requires t <= now && Alive(x, now)
    ensures Alive(x, t)
  {
  }

  predicate Ordered(v: seq<Idle>) { forall i, j :: 0 <= i < j < |v| ==> v[i].lastUsed <= v[j].lastUsed }

  lemma RetainSkip(v: seq<Idle>, now: nat)
    requires v != [] && Ordered(v)
    ensures Ordered(v[1..]) && (!Alive(v[0], now) ==> Retain(v, now) == Retain(v[1..], now))
  {
    hide Alive;
  }

  /** In a list ordered by last use, the connections that stay are the last ones. */
  lemma {:induction false} RetainIsSuffix(v: seq<Idle>, now: nat) returns (d: nat)
    requires Ordered(v)
    ensures d <= |v| && Retain(v, now) == v[d..]
    ensures forall i :: 0 <= i < d ==> !Alive(v[i], now)
    ensures forall i :: d <= i < |v| ==> Alive(v[i], now)
  {
    hide Alive, Retain, Ordered;
    if v == [] || Alive(v[0], now) {
      RetainAll(v, now);
      assert v[0..] == v;
      d := 0;
    } else {
      RetainSkip(v, now);
      var u := v[1..];
      var d' := RetainIsSuffix(u, now);
      d := d' + 1;
      assert u[d'..] == v[d..] && forall i :: 1 <= i < |v| ==> v[i] == u[i - 1];
    }
  }

  lemma {:induction false} RetainAll(v: seq<Idle>, now: nat)
    requires Ordered(v) && (v == [] || Alive(v[0], now))
    ensures Retain(v, now) == v && forall i :: 0 <= i < |v| ==> Alive(v[i], now)
  {
    if v != [] {
      if |v| > 1 { assert v[0].lastUsed <= v[1].lastUsed; }
      RetainSkip(v, now);
      RetainAll(v[1..], now);
      assert v == [v[0]] + v[1..];
    }
  }

  /** After cleaning up, every list holds exactly the unexpired connections, in order, and no list is empty. */
  lemma CleanupIff(p: Pool, now: nat, s: Ip, x: Idle)
    ensures x in At(Cleanup(p, now), s) <==> x in At(p, s) && Alive(x, now)
    ensures s in Cleanup(p, now) ==> Cleanup(p, now)[s] != []
  {
    hide Alive;
    RetainMembers(At(p, s), now, x);
  }

  lemma {:induction false} RetainMembers(v: seq<Idle>, now: nat, x: Idle)
    ensures x in Retain(v, now) <==> x in v && Alive(x, now)
  {
    hide Alive;
    if v != [] {
      RetainMembers(v[1..], now, x);
      assert x in v <==> x == v[0] || x in v[1..];
    }
  }

  lemma {:induction false} PoppedSuffix(v: seq<Idle>, d: nat, now: nat)
    requires d <= |v| && forall i :: 0 <= i < d ==> !Alive(v[i], now)
    ensures Popped(v[d..], now) == Popped(v, now)
  {
    hide Alive;
    if |v| > d {
      if !Alive(v[|v| - 1], now) {
        PoppedSuffix(v[..|v| - 1], d, now);
        assert v[d..][..|v| - d - 1] == v[..|v| - 1][d..];
      }
    } else {
      assert v[d..] == [];
      PoppedNone(v, now);
    }
  }

  lemma {:induction false} PoppedNone(v: seq<Idle>, now: nat)
    requires forall i :: 0 <= i < |v| ==> !Alive(v[i], now)
    ensures Popped(v, now).None?
  {
    if v != [] { PoppedNone(v[..|v| - 1], now); }
  }

  /** No user can tell: from then on acquiring gives the same connection with or without the clean-up. */
  lemma CleanupInvisible(w: World, t: nat, s: Ip, now: nat)
    requires Owned(w, t) && t <= now
    ensures Popped(At(Cleanup(w.pool, t), s), now) == Popped(At(w.pool, s), now)
  {
    var v := At(w.pool, s);
    assert Tidied(v, t);
    assert At(Cleanup(w.pool, t), s) == Retain(v, t);
    hide Retain, Cleanup, Popped, Owned;
    var d := RetainIsSuffix(v, t);
    forall i | 0 <= i < d ensures !Alive(v[i], now) {}
    PoppedSuffix(v, d, now);
  }
}
