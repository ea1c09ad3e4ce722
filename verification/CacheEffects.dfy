/** What each operation of src/resolver/cache.rs changes for later readers, key by key, and what it leaves alone. */
module CacheEffects {
  import opened Bytes
  import opened Messages
  import opened Lru
  import opened Filters
  import opened Cache
  import opened CacheRuns

  // --- Lists of entries ---

  function LiveAt(now: nat): Entry -> bool { (e: Entry) => now < e.expiresAt }

  function GoneAt(now: nat): Entry -> bool { (e: Entry) => e.expiresAt <= now }

  /** Less than six hours past expiry. */
  function RecentAt(now: nat): Entry -> bool { (e: Entry) => now < e.expiresAt + 21_600_000_000_000 }

  lemma {:induction false} PartIs(v: seq<Entry>, now: nat)
    ensures Part(v, now, false) == Filter(v, LiveAt(now)) && Part(v, now, true) == Filter(v, GoneAt(now))
  {
    if v != [] { PartIs(v[1..], now); }
  }

  lemma {:induction false} UsableIs(v: seq<Entry>, now: nat)
    ensures Usable(v, now) == Filter(v, RecentAt(now))
  {
    if v != [] { UsableIs(v[1..], now); }
  }

  /** The list held for a key, empty if there is none. */
  function Held(s: Store, k: Key): seq<Entry> { match Find(s, k) case None => [] case Some(v) => v }

  /** What a stale lookup answers with a list: its recent entries with TTL 0, or nothing. */
  function StaleAnswer(v: seq<Entry>, now: nat): Option<seq<Record>> {
    var recent := Filter(v, RecentAt(now));
    if recent == [] then None else Some(seq(|recent|, i requires 0 <= i < |recent| => recent[i].record.(ttl := 0)))
  }

  lemma StaleResultIs(c: State, k: Key, now: nat)
    ensures StaleResult(c, k, now) == StaleAnswer(Held(c.stale, k), now)
  {
    UsableIs(Held(c.stale, k), now);
    hide Usable, Filter;
    if Find(c.stale, k).None? { NothingKept(now); }
  }

  lemma NothingKept(now: nat)
    ensures Filter([], RecentAt(now)) == [] && Filter([], LiveAt(now)) == []
  {
  }

  /** What a lookup answers depends on the list's live entries alone. */
  function LiveAnswer(live: seq<Entry>, now: nat): Option<Hit> {
    if live == [] then None else Some(Hit(WithTtls(live, now), MinTtl(live, now)))
  }

  lemma LookupResultIs(c: State, k: Key, now: nat)
    ensures LookupResult(c, k, now) == LiveAnswer(Filter(Held(c.entries, k), LiveAt(now)), now)
  {
    PartIs(Held(c.entries, k), now);
    hide Part, Filter, WithTtls, MinTtl;
    if Find(c.entries, k).None? { NothingKept(now); }
  }

  // --- A lookup ---

  /** After a lookup the live list of the key is what was live, and its stale list what had expired, if anything had. */
  lemma LookupLists(c: State, k: Key, t: nat)
    requires Bounds(c)
    ensures var c' := AfterLookup(c, k, t);
            && Held(c'.entries, k) == Filter(Held(c.entries, k), LiveAt(t))
            && (Filter(Held(c.entries, k), GoneAt(t)) != [] ==>
                  Held(c'.stale, k) == Filter(Held(c.entries, k), GoneAt(t)))
            && (Filter(Held(c.entries, k), GoneAt(t)) == [] ==> c'.stale == c.stale)
  {
    PartIs(Held(c.entries, k), t);
    hide Part, Put, Remove;
    match Find(c.entries, k)
    case None =>
    case Some(v) =>
      hide Filter;
      PutSpec(c.staleCap, c.stale, k, Filter(v, GoneAt(t)), k);
      PutSpec(c.cap, c.entries, k, Filter(v, LiveAt(t)), k);
      RemoveSpec(c.entries, k);
      hide Distinct, Find;
  }

  /** Other keys keep their live lists; they keep their stale lists unless a full store has to push one out. */
  lemma LookupElsewhere(c: State, k: Key, t: nat, j: Key)
    requires Bounds(c) && j != k
    ensures Held(AfterLookup(c, k, t).entries, j) == Held(c.entries, j)
    ensures Spares(c, Event(LookupOp(k), t), j) ==> Held(AfterLookup(c, k, t).stale, j) == Held(c.stale, j)
  {
    PartIs(Held(c.entries, k), t);
    hide Part, Put, Remove, Filter;
    match Find(c.entries, k)
    case None =>
    case Some(v) =>
      PutSpec(c.staleCap, c.stale, k, Filter(v, GoneAt(t)), j);
      PutSpec(c.cap, c.entries, k, Filter(v, LiveAt(t)), j);
      FindRemove(c.entries, k, j);
  }

  /** The event is no clear and puts no list of another key into a full stale store, nor a new list for key `k`. */
  predicate Spares(c: State, e: Event, k: Key) {
    match e.op
    case ClearOp => false
    case LookupOp(j) =>
      Filter(Held(c.entries, j), GoneAt(e.now)) != [] ==>
        j != k && (Find(c.stale, j).Some? || |c.stale| < c.staleCap)
    case _ => true
  }

  lemma {:induction false} LaterLive(v: seq<Entry>, t: nat, now: nat)
    requires t <= now
    ensures Filter(Filter(v, LiveAt(t)), LiveAt(now)) == Filter(v, LiveAt(now))
  {
    FilterTwice(v, LiveAt(t), LiveAt(now));
  }

  /** No lookup changes what any later lookup of any key answers. */
  lemma LookupInvisible(c: State, k: Key, t: nat, j: Key, now: nat)
    requires Bounds(c) && t <= now
    ensures LookupResult(AfterLookup(c, k, t), j, now) == LookupResult(c, j, now)
  {
    LookupResultIs(c, j, now);
    LookupResultIs(AfterLookup(c, k, t), j, now);
    hide AfterLookup, LookupResult, Filter;
    if j == k {
      LookupLists(c, k, t);
      LaterLive(Held(c.entries, k), t, now);
    } else {
      LookupElsewhere(c, k, t, j);
    }
  }

  /** It counts as a hit when it answers, and as a miss when it does not. */
  lemma LookupCounted(c: State, k: Key, t: nat)
    ensures var c', found := AfterLookup(c, k, t), LookupResult(c, k, t).Some?;
            c'.hits == c.hits + (if found then 1 else 0) && c'.misses == c.misses + if found then 0 else 1
  {
    hide Part, Put, Remove, Find, WithTtls, MinTtl;
  }

  /**
   * After a lookup that finds expired entries, a stale lookup of the key answers, at any later time, with exactly
   * those of them that are less than six hours past expiry, in their order and with TTL 0, and with nothing if
   * there are none.
   */
  lemma LookupServesStale(c: State, k: Key, t: nat, now: nat)
    requires Bounds(c) && Filter(Held(c.entries, k), GoneAt(t)) != []
    ensures StaleResult(AfterLookup(c, k, t), k, now) == StaleAnswer(Filter(Held(c.entries, k), GoneAt(t)), now)
  {
    hide AfterLookup, StaleResult, Filter, StaleAnswer;
    LookupLists(c, k, t);
    StaleResultIs(AfterLookup(c, k, t), k, now);
  }

  // --- Other operations ---

  /** A stale lookup changes no later answer, live or stale. */
  lemma StaleInvisible(c: State, k: Key, t: nat, j: Key, now: nat)
    requires Bounds(c) && t <= now
    ensures LookupResult(AfterStale(c, k, t), j, now) == LookupResult(c, j, now)
    ensures StaleResult(AfterStale(c, k, t), j, now) == StaleResult(c, j, now)
  {
    var c' := AfterStale(c, k, t);
    assert c'.entries == c.entries;
    UsableIs(Held(c.stale, k), t);
    StaleListAfter(c, k, t, j);
    LookupResultIs(c, j, now);
    LookupResultIs(c', j, now);
    StaleResultIs(c, j, now);
    StaleResultIs(c', j, now);
    hide AfterStale, LookupResult, StaleResult, Filter, Usable;
    if j == k && Filter(Held(c.stale, k), RecentAt(t)) == [] {
      RecentLater(Held(c.stale, k), t, now);
      NothingKept(now);
    }
  }

  lemma StaleListAfter(c: State, k: Key, t: nat, j: Key)
    requires Bounds(c)
    ensures j == k && Usable(Held(c.stale, k), t) == [] ==> Held(AfterStale(c, k, t).stale, j) == []
    ensures j != k || Usable(Held(c.stale, k), t) != [] ==> Held(AfterStale(c, k, t).stale, j) == Held(c.stale, j)
  {
    FindRemove(c.stale, k, j);
    TouchSpec(c.stale, k, j);
    hide Usable, Remove, Touch, Find;
  }

  lemma RecentLater(v: seq<Entry>, t: nat, now: nat)
    requires t <= now && Filter(v, RecentAt(t)) == []
    ensures Filter(v, RecentAt(now)) == []
  {
    FilterTwice(v, RecentAt(t), RecentAt(now));
  }

  /** Purging changes no later answer, live or stale. */
  lemma PurgeChangesNothing(c: State, t: nat, j: Key, now: nat)
    requires Bounds(c) && t <= now
    ensures LookupResult(Purge(c, t), j, now) == LookupResult(c, j, now)
    ensures StaleResult(Purge(c, t), j, now) == StaleResult(c, j, now)
  {
    var c' := Purge(c, t);
    PurgedList(c, t, j);
    LookupResultIs(c, j, now);
    LookupResultIs(c', j, now);
    StaleResultIs(c, j, now);
    StaleResultIs(c', j, now);
    assert c'.entries == c.entries;
    hide Purge, LookupResult, StaleResult, Filter;
    if Held(c'.stale, j) != Held(c.stale, j) {
      RecentLater(Held(c.stale, j), t, now);
      NothingKept(now);
    }
  }

  lemma PurgedList(c: State, t: nat, j: Key)
    requires Bounds(c)
    ensures Held(Purge(c, t).stale, j) == Held(c.stale, j)
            || (Held(Purge(c, t).stale, j) == [] && Filter(Held(c.stale, j), RecentAt(t)) == [])
  {
    KeepSpec(c.stale, (v: seq<Entry>) => SomeYoung(v, t), j);
    FilterMembers(Held(c.stale, j), RecentAt(t));
    hide Keep, Find, Filter, Distinct;
  }

  /** Clearing leaves nothing to answer with. */
  lemma ClearAnswersNothing(c: State, j: Key, now: nat)
    ensures LookupResult(Clear(c), j, now).None? && StaleResult(Clear(c), j, now).None?
  {
  }

  // --- An insertion ---

  /** The data is in the list already. */
  predicate HasData(v: seq<Entry>, rdata: bytes) { exists e :: e in v && e.record.rdata == rdata }

  /** A fresh entry: remaining lifetime the TTL in seconds, at most a day. */
  function Fresh(k: Key, ttl: u32, rdata: bytes, rdlength: u16, now: nat): Entry {
    var t: u32 := if ttl < 86400 then ttl else 86400;
    Entry(Record(k.name, k.rtype, k.rclass, t, rdlength, rdata, None), now + t * 1_000_000_000)
  }

  /**
   * New data with a TTL goes behind what is held for the key, and the oldest entry goes if there are sixteen already;
   * without a TTL, or with data that is held already, nothing changes. Stale lists never change.
   */
  lemma InsertLists(c: State, k: Key, ttl: u32, rdata: bytes, rdlength: u16, now: nat)
    requires Bounds(c)
    ensures var c', v := Insert(c, k, ttl, rdata, rdlength, now), Held(c.entries, k);
            && c'.stale == c.stale
            && (ttl == 0 || HasData(v, rdata) ==> Held(c'.entries, k) == v)
            && (ttl > 0 && !HasData(v, rdata) ==>
                  Held(c'.entries, k) == (if |v| >= 16 then v[1..] else v) + [Fresh(k, ttl, rdata, rdlength, now)])
  {
    var v := Held(c.entries, k);
    assert HoldsRData(v, rdata) <==> HasData(v, rdata);
    var e := NewEntry(k, ttl, rdata, rdlength, now);
    PutSpec(c.cap, c.entries, k, Bounded(v, e), k);
    PutSpec(c.cap, c.entries, k, [e], k);
    TouchSpec(c.entries, k, k);
    hide HoldsRData, HasData, Put, Touch, Find, Distinct;
    assert [] + [e] == [e];
  }

  /** Other keys keep their live lists unless a full store has to push one out for a new key. */
  lemma InsertElsewhere(c: State, k: Key, ttl: u32, rdata: bytes, rdlength: u16, now: nat, j: Key)
    requires Bounds(c) && j != k && (Find(c.entries, k).Some? || |c.entries| < c.cap)
    ensures Held(Insert(c, k, ttl, rdata, rdlength, now).entries, j) == Held(c.entries, j)
  {
    var e := NewEntry(k, ttl, rdata, rdlength, now);
    PutSpec(c.cap, c.entries, k, Bounded(Held(c.entries, k), e), j);
    PutSpec(c.cap, c.entries, k, [e], j);
    TouchSpec(c.entries, k, j);
    hide HoldsRData, Put, Touch, Distinct;
  }

  // --- Stale records over runs ---

  lemma StepSpares(c: State, e: Event, k: Key, now: nat)
    requires Bounds(c) && Spares(c, e, k) && e.now <= now
    ensures StaleResult(Step(c, e), k, now) == StaleResult(c, k, now)
  {
    hide Insert, AfterLookup, AfterStale, Purge, StaleResult, Filter;
    match e.op
    case InsertOp(j, ttl, rdata, rdlength) =>
      InsertLists(c, j, ttl, rdata, rdlength, e.now);
      StaleResultIs(c, k, now);
      StaleResultIs(Step(c, e), k, now);
    case LookupOp(j) =>
      StaleResultIs(c, k, now);
      StaleResultIs(Step(c, e), k, now);
      if j == k { LookupLists(c, j, e.now); } else { LookupElsewhere(c, j, e.now, k); }
    case StaleOp(j) => StaleInvisible(c, j, e.now, k, now);
    case PurgeOp => PurgeChangesNothing(c, e.now, k, now);
    case ClearOp =>
  }

  /** A run none of whose events replaces, evicts or clears the stale list of the key. */
  ghost predicate AllSpare(c: State, es: seq<Event>, k: Key)
    decreases |es|
  {
    es == [] || (AllSpare(c, es[..|es| - 1], k) && Spares(RunFrom(c, es[..|es| - 1]), es[|es| - 1], k))
  }

  lemma {:induction false} RunSpares(c: State, t: nat, es: seq<Event>, k: Key, now: nat)
    requires Sound(c, t) && Monotone(es) && AllSpare(c, es, k)
    requires forall i :: 0 <= i < |es| ==> t <= es[i].now <= now
    ensures Sound(RunFrom(c, es), if es == [] then t else es[|es| - 1].now)
    ensures StaleResult(RunFrom(c, es), k, now) == StaleResult(c, k, now)
    decreases |es|
  {
    if es != [] {
      var before, e := es[..|es| - 1], es[|es| - 1];
      RunSpares(c, t, before, k, now);
      hide Step, StaleResult, Spares, AllSpare;
      var last := if before == [] then t else before[|before| - 1].now;
      var d := RunFrom(c, before);
      assert Bounds(d);
      assert Spares(d, e, k) && RunFrom(c, es) == Step(d, e);
      hide Sound;
      StepSpares(d, e, k, now);
      StepSound(d, last, e);
    }
  }

  /**
   * Whatever a lookup finds expired is served stale until its six hours are over, through every run in which no later
   * lookup replaces the key's stale list, no full store pushes it out and nothing is cleared.
   */
  lemma MovedIsServed(c: State, k: Key, t: nat, es: seq<Event>, now: nat)
    requires Sound(c, t) && Filter(Held(c.entries, k), GoneAt(t)) != []
    requires Monotone(es) && (forall i :: 0 <= i < |es| ==> t <= es[i].now <= now)
    requires AllSpare(AfterLookup(c, k, t), es, k)
    ensures StaleResult(RunFrom(AfterLookup(c, k, t), es), k, now)
            == StaleAnswer(Filter(Held(c.entries, k), GoneAt(t)), now)
  {
    assert Bounds(c);
    hide *;
    LookupSound(c, k, t);
    LookupServesStale(c, k, t, now);
    RunSpares(AfterLookup(c, k, t), t, es, k, now);
  }

  // --- Records of a response ---

  /** Inserting records is inserting each under its own name, type and class, one after the other. */
  lemma {:induction false} InsertAllIs(c: State, a: seq<Record>, r: Record, now: nat)
    ensures InsertAll(c, [], now) == c
    ensures InsertAll(c, a + [r], now) ==
              Insert(InsertAll(c, a, now), Key(r.name, r.rtype, r.rclass), r.ttl, r.rdata, r.rdlength, now)
  {
    assert (a + [r])[..|a|] == a;
    hide Insert;
  }

  /** A new cache is empty; it holds at least one key, and between 1000 and 50000 stale ones, a fifth if that fits. */
  lemma EmptyIs(max: nat)
    ensures var c := Empty(max);
            && c.entries == [] && c.stale == [] && c.hits == 0 && c.misses == 0
            && c.cap >= 1 && c.cap >= max && (c.cap == 1 || c.cap == max)
            && 1000 <= c.staleCap <= 50_000
            && (5_000 <= max < 250_005 ==> 5 * c.staleCap <= max < 5 * c.staleCap + 5)
            && (max < 5_000 ==> c.staleCap == 1000) && (max >= 250_000 ==> c.staleCap == 50_000)
  {
  }
}
