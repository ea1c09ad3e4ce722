/** The cache from zone names to name server addresses of src/resolver/recursive.rs. */
module Delegation {
  import opened Bytes
  import opened Names
  import opened Lru

  const CAPACITY := 1024
  const LIFETIME := 7_200_000_000_000

  type Ip = bytes

  datatype Entry = Entry(servers: seq<Ip>, expiry: nat)

  type Zones = Items<bytes, Entry>

  /** Does the cache hold an unexpired entry for exactly these octets? */
  predicate Live(dc: Zones, zone: bytes, now: nat) {
    match Find(dc, zone) case None => false case Some(e) => now < e.expiry
  }

  function ServersFor(dc: Zones, zone: bytes, now: nat): seq<Ip>
    requires Live(dc, zone, now)
  {
    Find(dc, zone).value.servers
  }

  /** What the walk answers when it looks at `name` and then at what is left after each label. */
  function Walk(dc: Zones, name: bytes, now: nat): Option<seq<Ip>>
    decreases |name|
  {
    if |name| <= 1 then None
    else if Live(dc, name, now) then Some(ServersFor(dc, name, now))
    else if LabelSpan(name) < |name| then Walk(dc, name[LabelSpan(name)..], now)
    else None
  }

  function Store(dc: Zones, zone: bytes, servers: seq<Ip>, now: nat): Zones {
    Put(CAPACITY, dc, zone, Entry(servers, now + LIFETIME))
  }

  /** Same keys with the same values; only the recency order may differ. */
  ghost predicate SameContents(a: Zones, b: Zones) { forall k :: Find(a, k) == Find(b, k) }

  class DelegationCache {
    var items: Zones

    ghost predicate Valid()
      reads this
    {
      Distinct(items) && |items| <= CAPACITY
    }

    constructor ()
      ensures Valid() && items == []
    {
      items := [];
    }

    /** `LruCache::get`. */
    method Get(zone: bytes) returns (e: Option<Entry>)
      requires Valid()
      modifies this
      ensures Valid() && SameContents(items, old(items)) && e == Find(items, zone)
    {
      e := Find(items, zone);
      TouchAll(items, zone);
      hide Touch, Find;
      items := Touch(items, zone);
    }

    method FindCachedDelegation(name: bytes, now: nat) returns (r: Option<seq<Ip>>)
      requires Valid()
      modifies this
      ensures Valid() && SameContents(items, old(items))
      ensures r == Walk(old(items), name, now)
    {
      ghost var dc := items;
      assert name == [] ==> Walk(dc, name, now).None?;
      hide Walk, Find, Distinct, LabelSpan;
      var offset := 0;
      assert name[0..] == name;
      while offset < |name|
        invariant 0 <= offset
        invariant Valid() && SameContents(items, dc)
        invariant Walk(dc, name, now) == if offset < |name| then Walk(dc, name[offset..], now) else None
        decreases |name| - offset
      {
        WalkStep(dc, name, offset, now);
        var suffix := name[offset..];
        if |suffix| <= 1 { break; }
        var e := Get(suffix);
        if e.Some? && now < e.value.expiry { return Some(e.value.servers); }
        offset := offset + 1 + name[offset] as int;
      }
      return None;
    }

    method CacheDelegation(zone: bytes, servers: seq<Ip>, now: nat)
      requires Valid()
      modifies this
      ensures Valid() && items == Store(old(items), zone, servers, now)
    {
      PutSpec(CAPACITY, items, zone, Entry(servers, now + LIFETIME), zone);
      items := Put(CAPACITY, items, zone, Entry(servers, now + LIFETIME));
    }
  }

  lemma TouchAll(dc: Zones, zone: bytes)
    requires Distinct(dc)
    ensures Distinct(Touch(dc, zone)) && |Touch(dc, zone)| <= |dc| && SameContents(Touch(dc, zone), dc)
  {
    hide Touch, Find;
    forall k ensures Distinct(Touch(dc, zone)) && |Touch(dc, zone)| <= |dc| && Find(Touch(dc, zone), k) == Find(dc, k) {
      TouchSpec(dc, zone, k);
    }
    TouchSpec(dc, zone, zone);
  }

  lemma WalkStep(dc: Zones, name: bytes, i: nat, now: nat)
    requires i < |name|
    ensures var s, j := name[i..], i + 1 + name[i] as int;
            Walk(dc, s, now) ==
              if |s| <= 1 then None
              else if Live(dc, s, now) then Some(ServersFor(dc, s, now))
              else if j < |name| then Walk(dc, name[j..], now) else None
  {
    hide Find;
    var s, j := name[i..], i + 1 + name[i] as int;
    if j < |name| { assert s[LabelSpan(s)..] == name[j..]; }
  }

  // --- Longest suffix match ---

  /** `k` labels removed from the front leave the longest suffix, above the root, with a live entry. */
  ghost predicate LongestLive(dc: Zones, ls: Labels, k: nat, now: nat)
    requires AreLabels(ls)
  {
    && k < |ls| && Live(dc, Wire(ls[k..]), now)
    && forall j :: 0 <= j < k ==> !Live(dc, Wire(ls[j..]), now)
  }

  lemma WireLonger(ls: Labels)
    requires AreLabels(ls)
    ensures |Wire(ls)| <= 1 <==> ls == []
  {
  }

  lemma WalkLabel(dc: Zones, ls: Labels, now: nat)
    requires AreLabels(ls)
    ensures Walk(dc, Wire(ls), now) ==
              if ls == [] then None
              else if Live(dc, Wire(ls), now) then Some(ServersFor(dc, Wire(ls), now))
              else Walk(dc, Wire(ls[1..]), now)
  {
    WireLonger(ls);
    if ls != [] { WireParts(ls); }
    hide Wire, Find;
  }

  lemma ShiftLongest(dc: Zones, ls: Labels, k: nat, now: nat)
    requires AreLabels(ls) && ls != [] && !Live(dc, Wire(ls), now)
    requires LongestLive(dc, ls[1..], k, now)
    ensures LongestLive(dc, ls, k + 1, now)
  {
    hide Wire, Live;
    assert ls[1..][k..] == ls[k + 1..];
    forall j | 0 <= j < k + 1 ensures !Live(dc, Wire(ls[j..]), now) {
      if j == 0 { assert ls[0..] == ls; } else { assert ls[1..][j - 1..] == ls[j..]; }
    }
  }

  /** The walk refines longest-suffix match: it finds the longest live suffix, and nothing only if there is none. */
  lemma {:induction false} WalkIsLongest(dc: Zones, ls: Labels, now: nat) returns (k: nat)
    requires AreLabels(ls)
    ensures match Walk(dc, Wire(ls), now)
            case Some(servers) => LongestLive(dc, ls, k, now) && servers == ServersFor(dc, Wire(ls[k..]), now)
            case None => forall j :: 0 <= j < |ls| ==> !Live(dc, Wire(ls[j..]), now)
  {
    hide Walk, Wire, Live, ServersFor;
    WalkLabel(dc, ls, now);
    k := 0;
    assert ls[0..] == ls;
    if ls != [] && !Live(dc, Wire(ls), now) {
      var k' := WalkIsLongest(dc, ls[1..], now);
      if Walk(dc, Wire(ls[1..]), now).Some? {
        ShiftLongest(dc, ls, k', now);
        assert ls[1..][k'..] == ls[k' + 1..];
        k := k' + 1;
      } else {
        forall j | 0 <= j < |ls| ensures !Live(dc, Wire(ls[j..]), now) {
          if j > 0 { assert ls[1..][j - 1..] == ls[j..]; }
        }
      }
    }
  }

  /**
   * A stored zone is what every name below it gets for two hours, unless a longer suffix is live;
   * `below` is what stands in front of the zone.
   */
  lemma StoredIsFound(dc: Zones, below: Labels, zone: Labels, servers: seq<Ip>, t: nat, now: nat)
    requires Distinct(dc) && |dc| <= CAPACITY && AreLabels(below) && AreLabels(zone) && zone != []
    requires now < t + 7_200_000_000_000
    ensures AreLabels(below + zone)
    ensures var dc' := Store(dc, Wire(zone), servers, t);
            Walk(dc', Wire(below + zone), now) == Some(servers)
            || exists j :: 0 <= j < |below| && Live(dc', Wire(below[j..] + zone), now)
  {
    var dc' := Store(dc, Wire(zone), servers, t);
    PutSpec(CAPACITY, dc, Wire(zone), Entry(servers, t + LIFETIME), Wire(zone));
    assert Live(dc', Wire(zone), now) && ServersFor(dc', Wire(zone), now) == servers;
    hide Store, Wire, Live, ServersFor, Walk;
    var ls := below + zone;
    var k := WalkIsLongest(dc', ls, now);
    assert ls[|below|..] == zone;
    if k < |below| {
      assert ls[k..] == below[k..] + zone;
      assert Walk(dc', Wire(ls), now).Some?;
    }
  }

  // --- No empty server list ---

  ghost predicate NoneEmpty(dc: Zones) { forall i :: 0 <= i < |dc| ==> dc[i].value.servers != [] }

  lemma {:induction false} RemoveNoneEmpty(dc: Zones, zone: bytes)
    requires NoneEmpty(dc)
    ensures NoneEmpty(Remove(dc, zone))
  {
    if dc != [] { RemoveNoneEmpty(dc[1..], zone); }
  }

  lemma StoreNoneEmpty(dc: Zones, zone: bytes, servers: seq<Ip>, now: nat)
    requires NoneEmpty(dc) && servers != []
    ensures NoneEmpty(Store(dc, zone, servers, now))
  {
    RemoveNoneEmpty(dc, zone);
  }

  /** Any cache with the contents of one without empty lists has none either. */
  lemma SameNoneEmpty(a: Zones, b: Zones)
    requires Distinct(a) && SameContents(a, b) && NoneEmpty(b)
    ensures NoneEmpty(a)
  {
    forall i | 0 <= i < |a| ensures a[i].value.servers != [] {
      FindAt(a, i);
      FindIn(b, a[i].key);
      assert Find(b, a[i].key) == Some(a[i].value);
    }
  }

  lemma {:induction false} FindAt(a: Zones, i: nat)
    requires Distinct(a) && i < |a|
    ensures Find(a, a[i].key) == Some(a[i].value)
  {
    if i > 0 { FindAt(a[1..], i - 1); }
  }

  lemma {:induction false} WalkNonEmpty(dc: Zones, name: bytes, now: nat)
    requires NoneEmpty(dc)
    ensures Walk(dc, name, now).Some? ==> Walk(dc, name, now).value != []
    decreases |name|
  {
    FindIn(dc, name);
    if |name| > 1 && LabelSpan(name) < |name| { WalkNonEmpty(dc, name[LabelSpan(name)..], now); }
  }
}
