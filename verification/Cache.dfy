/** The TTL cache with serve-stale of src/resolver/cache.rs (RFC 8767). */
module Cache {
  import opened Bytes
  import opened Messages
  import opened Lru

  const NANOS := 1_000_000_000
  const MAX_TTL := 86400
  const MAX_RECORDS_PER_KEY := 16
  const STALE_MAX_AGE := 6 * 3600 * NANOS
  const STALE_MAX_ENTRIES := 50_000

  datatype Key = Key(name: bytes, rtype: u16, rclass: u16)

  /** Instants are nanoseconds of a monotone clock. */
  datatype Entry = Entry(record: Record, expiresAt: nat)

  type Store = Items<Key, seq<Entry>>

  datatype State = State(cap: nat, staleCap: nat, entries: Store, stale: Store, hits: nat, misses: nat)

  /** Records found and the least remaining TTL. */
  datatype Hit = Hit(records: seq<Record>, minTtl: nat)

  // --- Entries ---

  function Least(a: nat, b: nat): nat { if a < b then a else b }

  predicate Expired(e: Entry, now: nat) { now >= e.expiresAt }

  function TtlRemaining(e: Entry, now: nat): nat {
    if e.expiresAt > now then (e.expiresAt - now) / NANOS else 0
  }

  function Age(e: Entry, now: nat): nat { if now > e.expiresAt then now - e.expiresAt else 0 }

  /** Order-preserving selection by expiry. */
  function Part(v: seq<Entry>, now: nat, expired: bool): seq<Entry> {
    if v == [] then []
    else (if Expired(v[0], now) == expired then [v[0]] else []) + Part(v[1..], now, expired)
  }

  function Usable(v: seq<Entry>, now: nat): seq<Entry> {
    if v == [] then [] else (if Age(v[0], now) < STALE_MAX_AGE then [v[0]] else []) + Usable(v[1..], now)
  }

  function WithTtls(v: seq<Entry>, now: nat): seq<Record> {
    seq(|v|, i requires 0 <= i < |v| => v[i].record.(ttl := Least(TtlRemaining(v[i], now), 0xFFFF_FFFF)))
  }

  function MinTtl(v: seq<Entry>, now: nat): nat {
    if v == [] then 0xFFFF_FFFF else Least(TtlRemaining(v[0], now), MinTtl(v[1..], now))
  }

  function AsStale(v: seq<Entry>): seq<Record> {
    seq(|v|, i requires 0 <= i < |v| => v[i].record.(ttl := 0))
  }

  predicate HoldsRData(v: seq<Entry>, rdata: bytes) { exists i :: 0 <= i < |v| && v[i].record.rdata == rdata }

  /** The entry an insertion at `now` creates. */
  function NewEntry(k: Key, ttl: u32, rdata: bytes, rdlength: u16, now: nat): Entry {
    var t := Least(ttl, MAX_TTL);
    Entry(Record(k.name, k.rtype, k.rclass, t, rdlength, rdata, None), now + t * NANOS)
  }

  /** Append, dropping the oldest record of a full list. */
  function Bounded(v: seq<Entry>, e: Entry): seq<Entry> {
    (if |v| >= MAX_RECORDS_PER_KEY then v[1..] else v) + [e]
  }

  // --- Operations, on the state as a value ---

  function Insert(c: State, k: Key, ttl: u32, rdata: bytes, rdlength: u16, now: nat): State {
    if ttl == 0 then c
    else
      var e := NewEntry(k, ttl, rdata, rdlength, now);
      match Find(c.entries, k)
      case Some(v) =>
        if HoldsRData(v, rdata) then c.(entries := Touch(c.entries, k))
        else c.(entries := Put(c.cap, c.entries, k, Bounded(v, e)))
      case None => c.(entries := Put(c.cap, c.entries, k, [e]))
  }

  function AfterLookup(c: State, k: Key, now: nat): State {
    match Find(c.entries, k)
    case None => c.(misses := c.misses + 1)
    case Some(v) =>
      var live, gone := Part(v, now, false), Part(v, now, true);
      var c1 := if gone == [] then c else c.(stale := Put(c.staleCap, c.stale, k, gone));
      if live == [] then c1.(entries := Remove(c.entries, k), misses := c.misses + 1)
      else c1.(entries := Put(c.cap, c.entries, k, live), hits := c.hits + 1)
  }

  function LookupResult(c: State, k: Key, now: nat): Option<Hit> {
    match Find(c.entries, k)
    case None => None
    case Some(v) =>
      var live := Part(v, now, false);
      if live == [] then None else Some(Hit(WithTtls(live, now), MinTtl(live, now)))
  }

  function AfterStale(c: State, k: Key, now: nat): State {
    match Find(c.stale, k)
    case None => c
    case Some(v) =>
      if Usable(v, now) == [] then c.(stale := Remove(c.stale, k)) else c.(stale := Touch(c.stale, k))
  }

  function StaleResult(c: State, k: Key, now: nat): Option<seq<Record>> {
    match Find(c.stale, k)
    case None => None
    case Some(v) => if Usable(v, now) == [] then None else Some(AsStale(Usable(v, now)))
  }

  predicate SomeYoung(v: seq<Entry>, now: nat) { exists i :: 0 <= i < |v| && Age(v[i], now) < STALE_MAX_AGE }

  function Purge(c: State, now: nat): State {
    c.(stale := Keep(c.stale, (v: seq<Entry>) => SomeYoung(v, now)))
  }

  function Clear(c: State): State { c.(entries := [], stale := [], hits := 0, misses := 0) }

  function Empty(max: nat): State {
    State(if max < 1 then 1 else max,
          if max / 5 < 1000 then 1000 else if max / 5 > STALE_MAX_ENTRIES then STALE_MAX_ENTRIES else max / 5,
          [], [], 0, 0)
  }

  // --- The loops inside the operations ---

  method SplitByExpiry(v: seq<Entry>, now: nat) returns (live: seq<Entry>, gone: seq<Entry>)
    ensures live == Part(v, now, false) && gone == Part(v, now, true)
  {
    live, gone := [], [];
    for i := 0 to |v|
      invariant live + Part(v[i..], now, false) == Part(v, now, false)
      invariant gone + Part(v[i..], now, true) == Part(v, now, true)
    {
      assert v[i..][1..] == v[i + 1..];
      if Expired(v[i], now) { gone := gone + [v[i]]; } else { live := live + [v[i]]; }
    }
    assert v[|v|..] == [] && live + [] == live && gone + [] == gone;
  }

  method Presented(v: seq<Entry>, now: nat) returns (records: seq<Record>, minTtl: nat)
    ensures records == WithTtls(v, now) && minTtl == MinTtl(v, now)
  {
    minTtl, records := 0xFFFF_FFFF, [];
    for i := |v| downto 0
      invariant minTtl == MinTtl(v[i..], now) && records == WithTtls(v[i..], now)
    {
      assert v[i..] == [v[i]] + v[i + 1..];
      minTtl := Least(TtlRemaining(v[i], now), minTtl);
      records := [v[i].record.(ttl := Least(TtlRemaining(v[i], now), 0xFFFF_FFFF))] + records;
    }
    assert v[0..] == v;
  }

  method StillUsable(v: seq<Entry>, now: nat) returns (usable: seq<Entry>)
    ensures usable == Usable(v, now)
  {
    usable := [];
    for i := 0 to |v|
      invariant usable + Usable(v[i..], now) == Usable(v, now)
    {
      assert v[i..][1..] == v[i + 1..];
      if Age(v[i], now) < STALE_MAX_AGE { usable := usable + [v[i]]; }
    }
    assert v[|v|..] == [] && usable + [] == usable;
  }

  // --- The object ---

  class DnsCache {
    var entries: Store
    var staleEntries: Store
    var cap: nat
    var staleCap: nat
    var hits: nat
    var misses: nat

    ghost function Model(): State
      reads this
    {
      State(cap, staleCap, entries, staleEntries, hits, misses)
    }

    constructor WithMaxEntries(max: nat)
      ensures Model() == Empty(max)
    {
      entries, staleEntries, hits, misses := [], [], 0, 0;
      cap := if max < 1 then 1 else max;
      staleCap := if max / 5 < 1000 then 1000 else if max / 5 > STALE_MAX_ENTRIES then STALE_MAX_ENTRIES else max / 5;
    }

    method InsertOne(k: Key, ttl: u32, rdata: bytes, rdlength: u16, now: nat)
      modifies this
      ensures Model() == Insert(old(Model()), k, ttl, rdata, rdlength, now)
    {
      if ttl == 0 { return; }
      var entry := NewEntry(k, ttl, rdata, rdlength, now);
      var found := Find(entries, k);
      match found {
        case Some(v) =>
          var i := 0;
          while i < |v|
            invariant 0 <= i <= |v|
            invariant forall j :: 0 <= j < i ==> v[j].record.rdata != rdata
          {
            if v[i].record.rdata == rdata {
              entries := Touch(entries, k);
              return;
            }
            i := i + 1;
          }
          var kept := if |v| >= MAX_RECORDS_PER_KEY then v[1..] else v;
          entries := Put(cap, entries, k, kept + [entry]);
        case None =>
          entries := Put(cap, entries, k, [entry]);
      }
    }

    method InsertRecords(records: seq<Record>, now: nat)
      modifies this
      ensures Model() == InsertAll(old(Model()), records, now)
    {
      assert records[..0] == [];
      for i := 0 to |records|
        invariant Model() == InsertAll(old(Model()), records[..i], now)
      {
        var r := records[i];
        InsertOne(Key(r.name, r.rtype, r.rclass), r.ttl, r.rdata, r.rdlength, now);
        assert records[..i + 1][..i] == records[..i];
      }
      assert records[..|records|] == records;
    }

    method Lookup(k: Key, now: nat) returns (r: Option<Hit>)
      modifies this
      ensures Model() == AfterLookup(old(Model()), k, now) && r == LookupResult(old(Model()), k, now)
    {
      var found := Find(entries, k);
      if found.None? {
        misses := misses + 1;
        return None;
      }
      var live, gone := SplitByExpiry(found.value, now);
      if gone != [] { staleEntries := Put(staleCap, staleEntries, k, gone); }
      if live == [] {
        entries := Remove(entries, k);
        misses := misses + 1;
        return None;
      }
      entries := Put(cap, entries, k, live);
      var records, minTtl := Presented(live, now);
      hits := hits + 1;
      return Some(Hit(records, minTtl));
    }

    method LookupStale(k: Key, now: nat) returns (r: Option<seq<Record>>)
      modifies this
      ensures Model() == AfterStale(old(Model()), k, now) && r == StaleResult(old(Model()), k, now)
    {
      var found := Find(staleEntries, k);
      if found.None? { return None; }
      var usable := StillUsable(found.value, now);
      if usable == [] {
        staleEntries := Remove(staleEntries, k);
        return None;
      }
      staleEntries := Touch(staleEntries, k);
      return Some(AsStale(usable));
    }

    method PurgeExpired(now: nat)
      modifies this
      ensures Model() == Purge(old(Model()), now)
    {
      ghost var young := (v: seq<Entry>) => SomeYoung(v, now);
      var kept: Store := [];
      for i := 0 to |staleEntries|
        invariant Model() == old(Model())
        invariant kept + Keep(staleEntries[i..], young) == Keep(staleEntries, young)
      {
        assert staleEntries[i..][1..] == staleEntries[i + 1..];
        if SomeYoung(staleEntries[i].value, now) { kept := kept + [staleEntries[i]]; }
      }
      staleEntries := kept;
    }

    method ClearAll()
      modifies this
      ensures Model() == Clear(old(Model()))
    {
      entries, staleEntries, hits, misses := [], [], 0, 0;
    }
  }

  function InsertAll(c: State, records: seq<Record>, now: nat): State {
    if records == [] then c
    else
      var r := records[|records| - 1];
      Insert(InsertAll(c, records[..|records| - 1], now), Key(r.name, r.rtype, r.rclass), r.ttl, r.rdata,
          r.rdlength, now)
  }
}
