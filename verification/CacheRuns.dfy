/** What the cache guarantees over every run under a monotone clock (src/resolver/cache.rs). */
module CacheRuns {
  import opened Bytes
  import opened Messages
  import opened Lru
  import opened Cache

  datatype Op =
    | InsertOp(key: Key, ttl: u32, rdata: bytes, rdlength: u16)
    | LookupOp(key: Key)
    | StaleOp(key: Key)
    | PurgeOp
    | ClearOp

  datatype Event = Event(op: Op, now: nat)

  function Step(c: State, e: Event): State {
    match e.op
    case InsertOp(k, ttl, rdata, rdlength) => Insert(c, k, ttl, rdata, rdlength, e.now)
    case LookupOp(k) => AfterLookup(c, k, e.now)
    case StaleOp(k) => AfterStale(c, k, e.now)
    case PurgeOp => Purge(c, e.now)
    case ClearOp => Clear(c)
  }

  function Run(max: nat, es: seq<Event>): State {
    if es == [] then Empty(max) else Step(Run(max, es[..|es| - 1]), es[|es| - 1])
  }

  predicate Monotone(es: seq<Event>) { forall i, j :: 0 <= i < j < |es| ==> es[i].now <= es[j].now }

  // --- Structure ---

  predicate Fits(k: Key, e: Entry) {
    e.record.name == k.name && e.record.rtype == k.rtype && e.record.rclass == k.rclass && e.record.parsed == None
  }

  /** One to sixteen records, all of the key, no two with the same RDATA. */
  predicate GoodList(k: Key, v: seq<Entry>) {
    && 1 <= |v| <= MAX_RECORDS_PER_KEY
    && (forall i :: 0 <= i < |v| ==> Fits(k, v[i]))
    && (forall i, j :: 0 <= i < j < |v| ==> v[i].record.rdata != v[j].record.rdata)
  }

  predicate AllExpired(v: seq<Entry>, now: nat) { forall i :: 0 <= i < |v| ==> Expired(v[i], now) }

  predicate Bounds(c: State) {
    c.cap > 0 && c.staleCap > 0 && |c.entries| <= c.cap && |c.stale| <= c.staleCap
    && Distinct(c.entries) && Distinct(c.stale)
  }

  ghost predicate Sound(c: State, now: nat) {
    && Bounds(c)
    && (forall k :: Find(c.entries, k).Some? ==> GoodList(k, Find(c.entries, k).value))
    && (forall k :: Find(c.stale, k).Some? ==>
          GoodList(k, Find(c.stale, k).value) && AllExpired(Find(c.stale, k).value, now))
  }

  lemma {:induction false} PartSpec(v: seq<Entry>, now: nat, expired: bool)
    ensures forall i :: 0 <= i < |Part(v, now, expired)| ==>
              Part(v, now, expired)[i] in v && Expired(Part(v, now, expired)[i], now) == expired
    ensures |Part(v, now, expired)| <= |v|
  {
    hide Expired;
    if v != [] { PartSpec(v[1..], now, expired); }
  }

  /** A lookup splits a list into its live and expired parts; nothing is lost or invented. */
  lemma {:induction false} PartsConserve(v: seq<Entry>, now: nat)
    ensures multiset(Part(v, now, false)) + multiset(Part(v, now, true)) == multiset(v)
  {
    hide Expired;
    if v != [] {
      PartsConserve(v[1..], now);
      assert v == [v[0]] + v[1..];
    }
  }

  lemma {:induction false} PartDistinct(v: seq<Entry>, now: nat, expired: bool)
    requires forall i, j :: 0 <= i < j < |v| ==> v[i].record.rdata != v[j].record.rdata
    ensures var p := Part(v, now, expired); forall i, j :: 0 <= i < j < |p| ==> p[i].record.rdata != p[j].record.rdata
  {
    if v != [] {
      PartDistinct(v[1..], now, expired);
      var r := Part(v[1..], now, expired);
      PartSpec(v[1..], now, expired);
      forall i | 0 <= i < |r| ensures r[i].record.rdata != v[0].record.rdata {
        var j :| 0 <= j < |v[1..]| && v[1..][j] == r[i];
        assert v[j + 1].record.rdata != v[0].record.rdata;
      }
    }
  }

  lemma PartGood(k: Key, v: seq<Entry>, now: nat, expired: bool)
    requires GoodList(k, v)
    ensures Part(v, now, expired) != [] ==> GoodList(k, Part(v, now, expired))
    ensures expired ==> AllExpired(Part(v, now, expired), now)
  {
    PartSpec(v, now, expired);
    PartDistinct(v, now, expired);
  }

  lemma BoundedGood(k: Key, v: seq<Entry>, e: Entry)
    requires GoodList(k, v) && Fits(k, e) && !HoldsRData(v, e.record.rdata)
    ensures GoodList(k, Bounded(v, e))
  {
    var r := Bounded(v, e);
    var s := if |v| >= MAX_RECORDS_PER_KEY then v[1..] else v;
    assert r == s + [e];
    assert forall i :: 0 <= i < |s| ==> s[i] in v;
  }

  /** Replacing one key's list keeps both stores sound. */
  lemma PutSound(c: State, k: Key, v: seq<Entry>, now: nat)
    requires Sound(c, now) && GoodList(k, v)
    ensures Sound(c.(entries := Put(c.cap, c.entries, k, v)), now)
    ensures AllExpired(v, now) ==> Sound(c.(stale := Put(c.staleCap, c.stale, k, v)), now)
  {
    hide Put, GoodList, AllExpired;
    var es, ss := Put(c.cap, c.entries, k, v), Put(c.staleCap, c.stale, k, v);
    PutSpec(c.cap, c.entries, k, v, k);
    PutSpec(c.staleCap, c.stale, k, v, k);
    forall j | Find(es, j).Some? ensures GoodList(j, Find(es, j).value) { PutSpec(c.cap, c.entries, k, v, j); }
    if AllExpired(v, now) {
      forall j | Find(ss, j).Some? ensures GoodList(j, Find(ss, j).value) && AllExpired(Find(ss, j).value, now) {
        PutSpec(c.staleCap, c.stale, k, v, j);
      }
    }
  }

  lemma RemoveSound(c: State, k: Key, now: nat)
    requires Sound(c, now)
    ensures Sound(c.(entries := Remove(c.entries, k)), now) && Sound(c.(stale := Remove(c.stale, k)), now)
  {
    hide Remove, GoodList, AllExpired;
    RemoveSpec(c.entries, k);
    RemoveSpec(c.stale, k);
    forall j ensures Find(Remove(c.entries, k), j).Some? ==> Find(Remove(c.entries, k), j) == Find(c.entries, j) {
      FindRemove(c.entries, k, j);
    }
    forall j ensures Find(Remove(c.stale, k), j).Some? ==> Find(Remove(c.stale, k), j) == Find(c.stale, j) {
      FindRemove(c.stale, k, j);
    }
  }

  lemma TouchSound(c: State, k: Key, now: nat)
    requires Sound(c, now)
    ensures Sound(c.(entries := Touch(c.entries, k)), now) && Sound(c.(stale := Touch(c.stale, k)), now)
  {
    hide Touch, GoodList, AllExpired;
    TouchSpec(c.entries, k, k);
    TouchSpec(c.stale, k, k);
    forall j ensures Find(Touch(c.entries, k), j) == Find(c.entries, j) { TouchSpec(c.entries, k, j); }
    forall j ensures Find(Touch(c.stale, k), j) == Find(c.stale, j) { TouchSpec(c.stale, k, j); }
  }

  lemma SoundLater(c: State, t: nat, now: nat)
    requires Sound(c, t) && t <= now
    ensures Sound(c, now)
  {
    hide GoodList;
    forall k | Find(c.stale, k).Some? ensures AllExpired(Find(c.stale, k).value, now) {
      assert AllExpired(Find(c.stale, k).value, t);
    }
  }

  lemma InsertSound(c: State, k: Key, ttl: u32, rdata: bytes, rdlength: u16, now: nat)
    requires Sound(c, now)
    ensures Sound(Insert(c, k, ttl, rdata, rdlength, now), now)
  {
    if ttl != 0 {
      var e := NewEntry(k, ttl, rdata, rdlength, now);
      var f := Find(c.entries, k);
      hide Find, Put, Touch, Bounded;
      if f.Some? {
        if HoldsRData(f.value, rdata) {
          TouchSound(c, k, now);
        } else {
          assert GoodList(k, f.value);
          BoundedGood(k, f.value, e);
          PutSound(c, k, Bounded(f.value, e), now);
        }
      } else {
        PutSound(c, k, [e], now);
      }
    }
  }

  lemma LookupSound(c: State, k: Key, now: nat)
    requires Sound(c, now)
    ensures Sound(AfterLookup(c, k, now), now)
  {
    var f := Find(c.entries, k);
    hide Find, Put, Remove, Part, GoodList;
    if f.Some? {
      var v := f.value;
      var live, gone := Part(v, now, false), Part(v, now, true);
      assert GoodList(k, v);
      PartGood(k, v, now, false);
      PartGood(k, v, now, true);
      var c1 := if gone == [] then c else c.(stale := Put(c.staleCap, c.stale, k, gone));
      if gone != [] { PutSound(c, k, gone, now); }
      if live == [] { RemoveSound(c1, k, now); } else { PutSound(c1, k, live, now); }
    }
  }

  lemma PurgeSound(c: State, now: nat)
    requires Sound(c, now)
    ensures Sound(Purge(c, now), now)
  {
    hide Keep, GoodList, AllExpired, SomeYoung;
    var p := (v: seq<Entry>) => SomeYoung(v, now);
    KeepSpec(c.stale, p, Key([], 0, 0));
    forall j ensures Find(Keep(c.stale, p), j).Some? ==> Find(Keep(c.stale, p), j) == Find(c.stale, j) {
      KeepSpec(c.stale, p, j);
    }
  }

  lemma StepSound(c: State, t: nat, e: Event)
    requires Sound(c, t) && t <= e.now
    ensures Sound(Step(c, e), e.now)
  {
    SoundLater(c, t, e.now);
    hide Sound, Insert, AfterLookup, Purge;
    match e.op
    case InsertOp(k, ttl, rdata, rdlength) => InsertSound(c, k, ttl, rdata, rdlength, e.now);
    case LookupOp(k) => LookupSound(c, k, e.now);
    case StaleOp(k) => RemoveSound(c, k, e.now); TouchSound(c, k, e.now);
    case PurgeOp => PurgeSound(c, e.now);
    case ClearOp => ClearSound(c, e.now);
  }

  lemma ClearSound(c: State, now: nat)
    requires Sound(c, now)
    ensures Sound(Clear(c), now)
  {
  }

  function Latest(es: seq<Event>): nat { if es == [] then 0 else es[|es| - 1].now }

  /** After every run: sizes within capacity, every list good, everything stale already expired. */
  lemma {:induction false} RunSound(max: nat, es: seq<Event>)
    requires Monotone(es)
    ensures Sound(Run(max, es), Latest(es))
  {
    if es == [] {
      assert Sound(Empty(max), 0);
    } else {
      var before := es[..|es| - 1];
      RunSound(max, before);
      hide Sound, Step;
      StepSound(Run(max, before), Latest(before), es[|es| - 1]);
    }
  }

  // --- History ---

  /** Insertion number `i` of the run made this entry, and no clear came after it. */
  predicate MadeBy(es: seq<Event>, i: nat, k: Key, e: Entry) {
    && i < |es| && es[i].op.InsertOp? && es[i].op.key == k && es[i].op.ttl > 0
    && e == NewEntry(k, es[i].op.ttl, es[i].op.rdata, es[i].op.rdlength, es[i].now)
    && forall j :: i < j < |es| ==> !es[j].op.ClearOp?
  }

  ghost predicate HasMaker(es: seq<Event>, k: Key, e: Entry) { exists i: nat :: MadeBy(es, i, k, e) }

  ghost predicate Recorded(es: seq<Event>, k: Key, v: seq<Entry>) {
    forall x :: 0 <= x < |v| ==> HasMaker(es, k, v[x])
  }

  ghost predicate Explained(es: seq<Event>, c: State) {
    && (forall k :: Find(c.entries, k).Some? ==> Recorded(es, k, Find(c.entries, k).value))
    && (forall k :: Find(c.stale, k).Some? ==> Recorded(es, k, Find(c.stale, k).value))
  }

  lemma RecordedLater(es: seq<Event>, e: Event, k: Key, v: seq<Entry>)
    requires Recorded(es, k, v) && !e.op.ClearOp?
    ensures Recorded(es + [e], k, v)
  {
    forall x | 0 <= x < |v| ensures HasMaker(es + [e], k, v[x]) {
      assert HasMaker(es, k, v[x]);
      var i: nat :| MadeBy(es, i, k, v[x]);
      assert MadeBy(es + [e], i, k, v[x]);
    }
  }

  lemma RecordedPart(es: seq<Event>, k: Key, v: seq<Entry>, now: nat, expired: bool)
    requires Recorded(es, k, v)
    ensures Recorded(es, k, Part(v, now, expired))
  {
    hide HasMaker;
    PartSpec(v, now, expired);
    var p := Part(v, now, expired);
    hide Part;
    forall x | 0 <= x < |p| ensures HasMaker(es, k, p[x]) {
      var y :| 0 <= y < |v| && v[y] == p[x];
    }
  }

  lemma RecordedBounded(es: seq<Event>, k: Key, v: seq<Entry>, ev: Event, e: Entry)
    requires Recorded(es, k, v) && MadeBy(es + [ev], |es|, k, e) && !ev.op.ClearOp?
    ensures Recorded(es + [ev], k, Bounded(v, e)) && Recorded(es + [ev], k, [e])
  {
    RecordedLater(es, ev, k, v);
    assert HasMaker(es + [ev], k, e);
    hide HasMaker;
    var r := Bounded(v, e);
    forall x | 0 <= x < |r| ensures HasMaker(es + [ev], k, r[x]) {
      if x < |r| - 1 {
        var y := if |v| >= MAX_RECORDS_PER_KEY then x + 1 else x;
        assert r[x] == v[y];
      } else {
        assert r[x] == e;
      }
    }
  }

  lemma PutExplained(es: seq<Event>, c: State, k: Key, v: seq<Entry>)
    requires Bounds(c) && Explained(es, c) && Recorded(es, k, v)
    ensures Explained(es, c.(entries := Put(c.cap, c.entries, k, v)))
    ensures Explained(es, c.(stale := Put(c.staleCap, c.stale, k, v)))
  {
    hide Put, Recorded;
    forall j
      ensures Find(Put(c.cap, c.entries, k, v), j).Some? ==> Recorded(es, j, Find(Put(c.cap, c.entries, k, v), j).value)
    {
      PutSpec(c.cap, c.entries, k, v, j);
    }
    forall j
      ensures Find(Put(c.staleCap, c.stale, k, v), j).Some? ==>
                Recorded(es, j, Find(Put(c.staleCap, c.stale, k, v), j).value)
    {
      PutSpec(c.staleCap, c.stale, k, v, j);
    }
  }

  lemma ReorderExplained(es: seq<Event>, c: State, k: Key, now: nat)
    requires Bounds(c) && Explained(es, c)
    ensures Explained(es, c.(entries := Remove(c.entries, k))) && Explained(es, c.(stale := Remove(c.stale, k)))
    ensures Explained(es, c.(entries := Touch(c.entries, k))) && Explained(es, c.(stale := Touch(c.stale, k)))
    ensures Explained(es, Purge(c, now))
  {
    hide Remove, Touch, Keep, Recorded, SomeYoung;
    var p := (v: seq<Entry>) => SomeYoung(v, now);
    forall j ensures Find(Remove(c.entries, k), j).Some? ==> Find(Remove(c.entries, k), j) == Find(c.entries, j) {
      FindRemove(c.entries, k, j);
    }
    forall j ensures Find(Remove(c.stale, k), j).Some? ==> Find(Remove(c.stale, k), j) == Find(c.stale, j) {
      FindRemove(c.stale, k, j);
    }
    forall j ensures Find(Touch(c.entries, k), j) == Find(c.entries, j) { TouchSpec(c.entries, k, j); }
    forall j ensures Find(Touch(c.stale, k), j) == Find(c.stale, j) { TouchSpec(c.stale, k, j); }
    forall j ensures Find(Keep(c.stale, p), j).Some? ==> Find(Keep(c.stale, p), j) == Find(c.stale, j) {
      KeepSpec(c.stale, p, j);
    }
  }

  lemma ExplainedLater(es: seq<Event>, c: State, e: Event)
    requires Explained(es, c) && !e.op.ClearOp?
    ensures Explained(es + [e], c)
  {
    hide Recorded;
    forall k | Find(c.entries, k).Some? ensures Recorded(es + [e], k, Find(c.entries, k).value) {
      RecordedLater(es, e, k, Find(c.entries, k).value);
    }
    forall k | Find(c.stale, k).Some? ensures Recorded(es + [e], k, Find(c.stale, k).value) {
      RecordedLater(es, e, k, Find(c.stale, k).value);
    }
  }

  lemma InsertExplained(es: seq<Event>, c: State, e: Event)
    requires Bounds(c) && Explained(es, c) && e.op.InsertOp?
    ensures Explained(es + [e], Step(c, e))
  {
    ExplainedLater(es, c, e);
    var InsertOp(k, ttl, rdata, rdlength) := e.op;
    var f := Find(c.entries, k);
    if ttl != 0 {
      var entry := NewEntry(k, ttl, rdata, rdlength, e.now);
      assert MadeBy(es + [e], |es|, k, entry);
      if f.Some? && HoldsRData(f.value, rdata) {
        hide Find, Touch, Explained, Recorded;
        ReorderExplained(es + [e], c, k, e.now);
      } else {
        var v := if f.Some? then f.value else [];
        assert Recorded(es, k, v);
        RecordedBounded(es, k, v, e, entry);
        assert f.None? ==> Bounded([], entry) == [entry];
        hide Find, Put, Explained, Recorded, MadeBy;
        PutExplained(es + [e], c, k, Bounded(v, entry));
      }
    }
  }

  lemma LookupExplained(es: seq<Event>, c: State, k: Key, now: nat)
    requires Sound(c, now) && Explained(es, c)
    ensures Explained(es, AfterLookup(c, k, now))
  {
    var f := Find(c.entries, k);
    if f.Some? {
      var v := f.value;
      assert Recorded(es, k, v);
      var live, gone := Part(v, now, false), Part(v, now, true);
      RecordedPart(es, k, v, now, false);
      RecordedPart(es, k, v, now, true);
      var c1 := if gone == [] then c else c.(stale := Put(c.staleCap, c.stale, k, gone));
      assert gone != [] ==> Sound(c1, now) by {
        if gone != [] {
          PartGood(k, v, now, true);
          PutSound(c, k, gone, now);
        }
      }
      hide Find, Put, Remove, Part, Recorded, Explained;
      if gone != [] { PutExplained(es, c, k, gone); }
      if live == [] { ReorderExplained(es, c1, k, now); } else { PutExplained(es, c1, k, live); }
      Uncounted(es, c1.(entries := Remove(c.entries, k)), c.hits, c.misses + 1);
      Uncounted(es, c1.(entries := Put(c.cap, c.entries, k, live)), c.hits + 1, c.misses);
    } else {
      Uncounted(es, c, c.hits, c.misses + 1);
    }
  }

  /** Counters play no part in where records come from. */
  lemma Uncounted(es: seq<Event>, c: State, hits: nat, misses: nat)
    ensures Explained(es, c.(hits := hits, misses := misses)) == Explained(es, c)
  {
  }

  lemma {:induction false} RunExplained(max: nat, es: seq<Event>)
    requires Monotone(es)
    ensures Explained(es, Run(max, es))
  {
    if es != [] {
      var before, e := es[..|es| - 1], es[|es| - 1];
      assert before + [e] == es;
      RunExplained(max, before);
      RunSound(max, before);
      var c := Run(max, before);
      SoundLater(c, Latest(before), e.now);
      match e.op
      case InsertOp(_, _, _, _) => InsertExplained(before, c, e);
      case LookupOp(k) => ExplainedLater(before, c, e); LookupExplained(es, c, k, e.now);
      case StaleOp(k) => ExplainedLater(before, c, e); ReorderExplained(es, c, k, e.now);
      case PurgeOp => ExplainedLater(before, c, e); ReorderExplained(es, c, Key([], 0, 0), e.now);
      case ClearOp =>
    }
  }

  // --- What callers get ---

  /** The returned record is the inserted one with its remaining time, which has not run out. */
  ghost predicate Faithful(es: seq<Event>, k: Key, now: nat, r: Record) {
    exists i: nat ::
      && i < |es| && es[i].op.InsertOp? && es[i].op.key == k && es[i].op.ttl > 0
      && (forall j :: i < j < |es| ==> !es[j].op.ClearOp?)
      && var deadline := es[i].now + Least(es[i].op.ttl, MAX_TTL) * NANOS;
         && es[i].now <= now < deadline
         && r == Record(k.name, k.rtype, k.rclass, (deadline - now) / NANOS, es[i].op.rdlength, es[i].op.rdata, None)
  }

  lemma MadeFaithful(es: seq<Event>, i: nat, k: Key, now: nat, e: Entry)
    requires MadeBy(es, i, k, e) && !Expired(e, now) && Monotone(es) && Latest(es) <= now
    ensures Faithful(es, k, now, e.record.(ttl := Least(TtlRemaining(e, now), 0xFFFF_FFFF)))
  {
    var t := Least(es[i].op.ttl, MAX_TTL);
    var deadline := es[i].now + t * NANOS;
    assert es[i].now <= now by { if i < |es| - 1 { assert es[i].now <= es[|es| - 1].now; } }
    assert (deadline - now) / NANOS <= MAX_TTL;
    var r := e.record.(ttl := Least(TtlRemaining(e, now), 0xFFFF_FFFF));
    assert r == Record(k.name, k.rtype, k.rclass, (deadline - now) / NANOS, es[i].op.rdlength, es[i].op.rdata, None);
  }

  lemma {:induction false} MinTtlSpec(v: seq<Entry>, now: nat)
    requires v != []
    ensures forall x :: 0 <= x < |v| ==> MinTtl(v, now) <= WithTtls(v, now)[x].ttl
    ensures exists x :: 0 <= x < |v| && MinTtl(v, now) == WithTtls(v, now)[x].ttl
  {
    hide TtlRemaining;
    var w := WithTtls(v, now);
    if |v| > 1 {
      MinTtlSpec(v[1..], now);
      var u := WithTtls(v[1..], now);
      assert forall x :: 0 <= x < |u| ==> u[x] == w[x + 1];
      assert forall x :: 0 < x < |v| ==> w[x] == u[x - 1];
      var y :| 0 <= y < |u| && MinTtl(v[1..], now) == u[y].ttl;
      assert MinTtl(v, now) == if TtlRemaining(v[0], now) < MinTtl(v[1..], now) then w[0].ttl else w[y + 1].ttl;
    } else {
      assert MinTtl(v[1..], now) == 0xFFFF_FFFF;
      assert MinTtl(v, now) == w[0].ttl;
    }
  }

  /**
   * Over every run under a monotone clock: each record a lookup returns was inserted under that key since the
   * last clear and has not expired, carries its remaining seconds, and the least of these is returned too.
   */
  lemma LookupFaithful(max: nat, es: seq<Event>, k: Key, now: nat)
    requires Monotone(es) && Latest(es) <= now && LookupResult(Run(max, es), k, now).Some?
    ensures var hit := LookupResult(Run(max, es), k, now).value;
            && 1 <= |hit.records| <= MAX_RECORDS_PER_KEY
            && (forall x :: 0 <= x < |hit.records| ==> Faithful(es, k, now, hit.records[x]))
            && (forall x :: 0 <= x < |hit.records| ==> hit.minTtl <= hit.records[x].ttl)
            && (exists x :: 0 <= x < |hit.records| && hit.minTtl == hit.records[x].ttl)
  {
    hide Run, Faithful;
    var c := Run(max, es);
    RunExplained(max, es);
    RunSound(max, es);
    var v := Find(c.entries, k).value;
    assert Recorded(es, k, v) && GoodList(k, v);
    var live := Part(v, now, false);
    RecordedPart(es, k, v, now, false);
    PartSpec(v, now, false);
    MinTtlSpec(live, now);
    hide Part, Find;
    forall x | 0 <= x < |live| ensures Faithful(es, k, now, WithTtls(live, now)[x]) {
      assert HasMaker(es, k, live[x]);
      var i: nat :| MadeBy(es, i, k, live[x]);
      MadeFaithful(es, i, k, now, live[x]);
    }
  }

  function LookupsSinceClear(es: seq<Event>): nat {
    if es == [] then 0
    else match es[|es| - 1].op
      case ClearOp => 0
      case LookupOp(_) => LookupsSinceClear(es[..|es| - 1]) + 1
      case _ => LookupsSinceClear(es[..|es| - 1])
  }

  /** Every lookup since the last clear is counted exactly once. */
  lemma {:induction false} CountersConserve(max: nat, es: seq<Event>)
    ensures Run(max, es).hits + Run(max, es).misses == LookupsSinceClear(es)
  {
    hide Find, Put, Touch, Remove, Keep, Part, Usable;
    if es != [] { CountersConserve(max, es[..|es| - 1]); }
  }

  // --- Serve-stale ---

  lemma {:induction false} UsableSpec(v: seq<Entry>, now: nat)
    ensures forall i :: 0 <= i < |Usable(v, now)| ==>
        Usable(v, now)[i] in v && Age(Usable(v, now)[i], now) < STALE_MAX_AGE
    ensures Usable(v, now) == [] <==> !SomeYoung(v, now)
  {
    hide Age;
    if v != [] {
      UsableSpec(v[1..], now);
      if SomeYoung(v, now) && Age(v[0], now) >= STALE_MAX_AGE {
        var i :| 0 <= i < |v| && Age(v[i], now) < STALE_MAX_AGE;
        assert v[1..][i - 1] == v[i];
      }
      if SomeYoung(v[1..], now) {
        var i :| 0 <= i < |v[1..]| && Age(v[1..][i], now) < STALE_MAX_AGE;
        assert v[i + 1] == v[1..][i];
      }
    }
  }

  /** A stale answer is an inserted record, TTL zero, past its deadline by less than six hours. */
  ghost predicate Stale(es: seq<Event>, k: Key, now: nat, r: Record) {
    exists i: nat ::
      && i < |es| && es[i].op.InsertOp? && es[i].op.key == k && es[i].op.ttl > 0
      && (forall j :: i < j < |es| ==> !es[j].op.ClearOp?)
      && var deadline := es[i].now + Least(es[i].op.ttl, MAX_TTL) * NANOS;
         && deadline <= now < deadline + STALE_MAX_AGE
         && r == Record(k.name, k.rtype, k.rclass, 0, es[i].op.rdlength, es[i].op.rdata, None)
  }

  lemma StaleWindow(max: nat, es: seq<Event>, k: Key, now: nat)
    requires Monotone(es) && Latest(es) <= now && StaleResult(Run(max, es), k, now).Some?
    ensures var rs := StaleResult(Run(max, es), k, now).value;
            1 <= |rs| && forall x :: 0 <= x < |rs| ==> Stale(es, k, now, rs[x])
  {
    hide Run, Stale;
    var c := Run(max, es);
    RunExplained(max, es);
    RunSound(max, es);
    var v := Find(c.stale, k).value;
    assert Recorded(es, k, v) && AllExpired(v, Latest(es));
    var u := Usable(v, now);
    UsableSpec(v, now);
    hide Usable, Find;
    forall x | 0 <= x < |u| ensures Stale(es, k, now, AsStale(u)[x]) {
      var y :| 0 <= y < |v| && v[y] == u[x];
      assert HasMaker(es, k, v[y]) && Expired(v[y], Latest(es));
      var i: nat :| MadeBy(es, i, k, v[y]);
      MadeStale(es, i, k, now, v[y]);
    }
  }

  lemma MadeStale(es: seq<Event>, i: nat, k: Key, now: nat, e: Entry)
    requires MadeBy(es, i, k, e) && Expired(e, now) && Age(e, now) < STALE_MAX_AGE
    ensures Stale(es, k, now, e.record.(ttl := 0))
  {
  }

  // --- Purging is invisible ---

  ghost predicate StaleAlike(a: Store, b: Store, t: nat) {
    forall k :: Find(a, k) == Find(b, k) || (Find(b, k).None? && Find(a, k).Some? && !SomeYoung(Find(a, k).value, t))
  }

  /** Same live side; the stale sides differ at most in lists too old to serve at time `t`. */
  ghost predicate Indistinguishable(a: State, b: State, t: nat) {
    && Sound(a, t) && Sound(b, t) && a.entries == b.entries && a.cap == b.cap
    && StaleAlike(a.stale, b.stale, t)
  }

  lemma AgesGrow(v: seq<Entry>, t: nat, now: nat)
    requires t <= now && !SomeYoung(v, t)
    ensures !SomeYoung(v, now)
  {
    forall i | 0 <= i < |v| ensures Age(v[i], now) >= STALE_MAX_AGE {
      assert Age(v[i], t) >= STALE_MAX_AGE;
    }
  }

  lemma SameAnswers(a: State, b: State, t: nat, k: Key, now: nat)
    requires Indistinguishable(a, b, t) && t <= now
    ensures StaleResult(a, k, now) == StaleResult(b, k, now)
  {
    hide Sound, SomeYoung, Usable, AsStale;
    if Find(a.stale, k) != Find(b.stale, k) {
      AgesGrow(Find(a.stale, k).value, t, now);
      UsableSpec(Find(a.stale, k).value, now);
    }
  }

  lemma PurgeIndistinguishable(c: State, t: nat)
    requires Sound(c, t)
    ensures Indistinguishable(c, Purge(c, t), t)
  {
    PurgeSound(c, t);
    hide SomeYoung, Keep;
    var p := (v: seq<Entry>) => SomeYoung(v, t);
    assert Distinct(c.stale);
    hide Sound;
    forall k
      ensures Find(Keep(c.stale, p), k) ==
                match Find(c.stale, k) case None => None case Some(v) => if p(v) then Some(v) else None
    {
      KeepSpec(c.stale, p, k);
    }
  }

  /** The event puts nothing into the stale store: it is no lookup that finds an expired record. */
  predicate MovesNothing(c: State, e: Event) {
    e.op.LookupOp? ==> match Find(c.entries, e.op.key) case None => true case Some(v) => Part(v, e.now, true) == []
  }

  lemma AlikeLater(a: Store, b: Store, t: nat, now: nat)
    requires StaleAlike(a, b, t) && t <= now
    ensures StaleAlike(a, b, now)
  {
    hide SomeYoung;
    forall k
      ensures Find(a, k) == Find(b, k)
              || (Find(b, k).None? && Find(a, k).Some? && !SomeYoung(Find(a, k).value, now))
    {
      if Find(a, k) != Find(b, k) { AgesGrow(Find(a, k).value, t, now); }
    }
  }

  lemma StepIndistinguishable(a: State, b: State, t: nat, e: Event)
    requires Indistinguishable(a, b, t) && t <= e.now && MovesNothing(a, e)
    ensures Indistinguishable(Step(a, e), Step(b, e), e.now)
  {
    StepSound(a, t, e);
    StepSound(b, t, e);
    AlikeLater(a.stale, b.stale, t, e.now);
    assert Distinct(a.stale) && Distinct(b.stale);
    hide Sound, Put, Touch, Remove, Keep, Part, Find, Bounded, HoldsRData;
    match e.op
    case InsertOp(_, _, _, _) =>
    case LookupOp(_) =>
    case StaleOp(k) => StaleStep(a.stale, b.stale, k, e.now);
    case PurgeOp => PurgeStep(a.stale, b.stale, e.now);
    case ClearOp => BothEmpty(e.now);
  }

  lemma BothEmpty(t: nat)
    ensures StaleAlike([], [], t)
  {
  }

  function StaleAfter(s: Store, k: Key, now: nat): Store {
    match Find(s, k)
    case None => s
    case Some(v) => if Usable(v, now) == [] then Remove(s, k) else Touch(s, k)
  }

  lemma StaleStep(a: Store, b: Store, k: Key, now: nat)
    requires Distinct(a) && Distinct(b) && StaleAlike(a, b, now)
    ensures StaleAlike(StaleAfter(a, k, now), StaleAfter(b, k, now), now)
  {
    hide SomeYoung, Touch, Remove, Usable;
    if Find(a, k).Some? { UsableSpec(Find(a, k).value, now); }
    forall j ensures Find(Remove(a, k), j) == if j == k then None else Find(a, j) { FindRemove(a, k, j); }
    forall j ensures Find(Remove(b, k), j) == if j == k then None else Find(b, j) { FindRemove(b, k, j); }
    forall j ensures Find(Touch(a, k), j) == Find(a, j) { TouchSpec(a, k, j); }
    forall j ensures Find(Touch(b, k), j) == Find(b, j) { TouchSpec(b, k, j); }
  }

  lemma PurgeStep(a: Store, b: Store, now: nat)
    requires Distinct(a) && Distinct(b) && StaleAlike(a, b, now)
    ensures var p := (v: seq<Entry>) => SomeYoung(v, now); StaleAlike(Keep(a, p), Keep(b, p), now)
  {
    hide SomeYoung, Keep;
    var p := (v: seq<Entry>) => SomeYoung(v, now);
    forall k
      ensures Find(Keep(a, p), k) == match Find(a, k) case None => None case Some(v) => if p(v) then Some(v) else None
    {
      KeepSpec(a, p, k);
    }
    forall k
      ensures Find(Keep(b, p), k) == match Find(b, k) case None => None case Some(v) => if p(v) then Some(v) else None
    {
      KeepSpec(b, p, k);
    }
  }

  function RunFrom(c: State, es: seq<Event>): State {
    if es == [] then c else Step(RunFrom(c, es[..|es| - 1]), es[|es| - 1])
  }

  /** A run, from time `t` on, during which nothing is moved into the stale store. */
  ghost predicate Quiet(c: State, t: nat, es: seq<Event>) {
    && Monotone(es) && (forall i :: 0 <= i < |es| ==> t <= es[i].now)
    && forall i :: 0 <= i < |es| ==> MovesNothing(RunFrom(c, es[..i]), es[i])
  }

  lemma QuietPrefix(c: State, t: nat, es: seq<Event>)
    requires Quiet(c, t, es) && es != []
    ensures Quiet(c, t, es[..|es| - 1])
  {
    hide MovesNothing;
    var before := es[..|es| - 1];
    forall i | 0 <= i < |before| ensures MovesNothing(RunFrom(c, before[..i]), before[i]) {
      assert before[..i] == es[..i] && before[i] == es[i];
    }
  }

  lemma {:induction false} RunsIndistinguishable(a: State, b: State, t: nat, es: seq<Event>)
    requires Indistinguishable(a, b, t) && Quiet(a, t, es)
    ensures Indistinguishable(RunFrom(a, es), RunFrom(b, es), if es == [] then t else Latest(es))
  {
    hide Indistinguishable, Step, MovesNothing;
    if es != [] {
      var before := es[..|es| - 1];
      QuietPrefix(a, t, es);
      RunsIndistinguishable(a, b, t, before);
      assert MovesNothing(RunFrom(a, es[..|es| - 1]), es[|es| - 1]);
      var last := if before == [] then t else Latest(before);
      StepIndistinguishable(RunFrom(a, before), RunFrom(b, before), last, es[|es| - 1]);
    }
  }

  /**
   * Purging at time `t` changes no stale answer for any key at any later time, whatever operations come between,
   * as long as none of them moves a record into the stale store.
   */
  lemma PurgeInvisible(c: State, t: nat, es: seq<Event>, k: Key, now: nat)
    requires Sound(c, t) && Quiet(c, t, es) && t <= now && (es != [] ==> Latest(es) <= now)
    ensures StaleResult(RunFrom(c, es), k, now) == StaleResult(RunFrom(Purge(c, t), es), k, now)
  {
    hide Indistinguishable, Purge, StaleResult, Quiet, Sound;
    PurgeIndistinguishable(c, t);
    RunsIndistinguishable(c, Purge(c, t), t, es);
    SameAnswers(RunFrom(c, es), RunFrom(Purge(c, t), es), if es == [] then t else Latest(es), k, now);
  }

  // --- Insert, then look up ---

  predicate Returns(r: Option<Hit>, rdata: bytes) {
    r.Some? && exists x :: 0 <= x < |r.value.records| && r.value.records[x].rdata == rdata
  }

  lemma {:induction false} PartKeeps(v: seq<Entry>, now: nat, rdata: bytes)
    ensures (exists i :: 0 <= i < |Part(v, now, false)| && Part(v, now, false)[i].record.rdata == rdata) <==>
            (exists i :: 0 <= i < |v| && v[i].record.rdata == rdata && !Expired(v[i], now))
  {
    hide Expired;
    if v != [] {
      PartKeeps(v[1..], now, rdata);
      var p, q := Part(v, now, false), Part(v[1..], now, false);
      if i :| 0 <= i < |q| && q[i].record.rdata == rdata { assert p[if Expired(v[0], now) then i else i + 1] == q[i]; }
      if i :| 0 <= i < |p| && p[i].record.rdata == rdata {
        if !Expired(v[0], now) && i > 0 { assert q[i - 1] == p[i]; }
        if Expired(v[0], now) { assert q[i] == p[i]; }
      }
      if i :| 0 <= i < |v[1..]| && v[1..][i].record.rdata == rdata && !Expired(v[1..][i], now) {
        assert v[i + 1] == v[1..][i];
      }
      if i :| 0 <= i < |v| && v[i].record.rdata == rdata && !Expired(v[i], now) {
        if i > 0 { assert v[1..][i - 1] == v[i]; } else { assert p[0] == v[0]; }
      }
    }
  }

  ghost predicate HeldLive(c: State, k: Key, rdata: bytes, now: nat) {
    Find(c.entries, k).Some?
    && exists i :: 0 <= i < |Find(c.entries, k).value| && Find(c.entries, k).value[i].record.rdata == rdata
                   && !Expired(Find(c.entries, k).value[i], now)
  }

  lemma ReturnsIff(c: State, k: Key, rdata: bytes, now: nat)
    ensures Returns(LookupResult(c, k, now), rdata) <==> HeldLive(c, k, rdata, now)
  {
    if Find(c.entries, k).Some? {
      var v := Find(c.entries, k).value;
      PartKeeps(v, now, rdata);
      var p := Part(v, now, false);
      hide Part, TtlRemaining;
      assert forall x :: 0 <= x < |p| ==> WithTtls(p, now)[x].rdata == p[x].record.rdata;
      if i :| 0 <= i < |p| && p[i].record.rdata == rdata { assert WithTtls(p, now)[i].rdata == rdata; }
      if Returns(LookupResult(c, k, now), rdata) {
        var x :| 0 <= x < |p| && WithTtls(p, now)[x].rdata == rdata;
        assert p[x].record.rdata == rdata;
      }
    }
  }

  /**
   * An insertion is visible to the next lookup exactly when the data was already live, or it had a TTL and no
   * copy was held: an expired copy that no lookup has moved away yet makes the cache drop the fresh one.
   */
  lemma InsertVisibleIff(c: State, k: Key, ttl: u32, rdata: bytes, rdlength: u16, now: nat)
    requires Sound(c, now)
    ensures Returns(LookupResult(Insert(c, k, ttl, rdata, rdlength, now), k, now), rdata) <==>
              HeldLive(c, k, rdata, now)
              || (ttl > 0 && !(Find(c.entries, k).Some? && HoldsRData(Find(c.entries, k).value, rdata)))
  {
    var c' := Insert(c, k, ttl, rdata, rdlength, now);
    hide LookupResult, Returns;
    ReturnsIff(c', k, rdata, now);
    if ttl > 0 {
      var e := NewEntry(k, ttl, rdata, rdlength, now);
      assert !Expired(e, now);
      var f := Find(c.entries, k);
      if f.Some? && HoldsRData(f.value, rdata) {
        TouchSpec(c.entries, k, k);
      } else {
        var v := if f.Some? then Bounded(f.value, e) else [e];
        PutSpec(c.cap, c.entries, k, v, k);
        assert v[|v| - 1] == e;
      }
    }
  }

  /** The same data inserted with a TTL of one second at time 0 and again two seconds later. */
  function Reinsertion(k: Key, rdata: bytes, rdlength: u16): seq<Event> {
    [Event(InsertOp(k, 1, rdata, rdlength), 0), Event(InsertOp(k, 1, rdata, rdlength), 2 * NANOS)]
  }

  lemma FirstInsertion(max: nat, k: Key, rdata: bytes, rdlength: u16)
    ensures var c := Run(max, Reinsertion(k, rdata, rdlength)[..1]);
            Find(c.entries, k) == Some([NewEntry(k, 1, rdata, rdlength, 0)])
  {
    var es := Reinsertion(k, rdata, rdlength)[..1];
    assert es[..0] == [] && |es| == 1;
    assert Run(max, es) == Insert(Empty(max), k, 1, rdata, rdlength, 0);
    PutSpec(Empty(max).cap, [], k, [NewEntry(k, 1, rdata, rdlength, 0)], k);
  }

  /** In every cache, for every key and data, the second of these insertions is lost: a lookup right after it misses. */
  lemma ReinsertionIsLost(max: nat, k: Key, rdata: bytes, rdlength: u16)
    ensures Monotone(Reinsertion(k, rdata, rdlength))
    ensures !Returns(LookupResult(Run(max, Reinsertion(k, rdata, rdlength)), k, 2 * NANOS), rdata)
  {
    var es := Reinsertion(k, rdata, rdlength);
    var c := Run(max, es[..1]);
    RunSound(max, es[..1]);
    SoundLater(c, Latest(es[..1]), 2 * NANOS);
    FirstInsertion(max, k, rdata, rdlength);
    assert Run(max, es) == Step(c, es[1]);
    hide Sound, Run, Insert, LookupResult, Returns;
    InsertVisibleIff(c, k, 1, rdata, rdlength, 2 * NANOS);
    var v := Find(c.entries, k).value;
    assert v[0].record.rdata == rdata && Expired(v[0], 2 * NANOS);
  }
}
