/** The `lru` crate's map as the caches use it: most recently used item first, bounded capacity. */
module Lru {
  import opened Bytes

  datatype Item<K, V> = Item(key: K, value: V)

  type Items<K, V> = seq<Item<K, V>>

  predicate Distinct<K(==), V>(s: Items<K, V>) {
    forall i, j :: 0 <= i < j < |s| ==> s[i].key != s[j].key
  }

  function Find<K(==), V>(s: Items<K, V>, k: K): Option<V> {
    if s == [] then None else if s[0].key == k then Some(s[0].value) else Find(s[1..], k)
  }

  /** `pop_entry`. */
  function Remove<K(==), V>(s: Items<K, V>, k: K): Items<K, V> {
    if s == [] then [] else if s[0].key == k then Remove(s[1..], k) else [s[0]] + Remove(s[1..], k)
  }

  /** `put`: the item becomes the most recent; a new key may push out the least recent one. */
  function Put<K(==), V>(cap: nat, s: Items<K, V>, k: K, v: V): Items<K, V> {
    var rest := Remove(s, k);
    [Item(k, v)] + if |rest| < cap then rest else if cap == 0 then [] else rest[..cap - 1]
  }

  /** What `get` and `get_mut` do to the order. */
  function Touch<K(==), V>(s: Items<K, V>, k: K): Items<K, V> {
    match Find(s, k) case None => s case Some(v) => [Item(k, v)] + Remove(s, k)
  }

  /** Items whose value passes a test, order kept. */
  function Keep<K(==), V>(s: Items<K, V>, p: V -> bool): Items<K, V> {
    if s == [] then [] else (if p(s[0].value) then [s[0]] else []) + Keep(s[1..], p)
  }

  lemma {:induction false} RemoveSpec<K, V>(s: Items<K, V>, k: K)
    ensures |Remove(s, k)| <= |s| && (Find(s, k).Some? ==> |Remove(s, k)| < |s|)
    ensures Find(Remove(s, k), k).None?
    ensures forall i :: 0 <= i < |Remove(s, k)| ==> Remove(s, k)[i] in s && Remove(s, k)[i].key != k
    ensures Distinct(s) ==> Distinct(Remove(s, k))
  {
    if s != [] {
      RemoveSpec(s[1..], k);
      var r := Remove(s[1..], k);
      if Distinct(s) {
        assert Distinct(s[1..]);
        assert forall i :: 0 <= i < |r| ==> r[i].key != s[0].key by {
          forall i | 0 <= i < |r| ensures r[i].key != s[0].key {
            assert r[i] in s[1..];
            var j :| 0 <= j < |s[1..]| && s[1..][j] == r[i];
            assert s[j + 1].key != s[0].key;
          }
        }
      }
    }
  }

  lemma {:induction false} FindRemove<K, V>(s: Items<K, V>, k: K, j: K)
    ensures Find(Remove(s, k), j) == if j == k then None else Find(s, j)
  {
    if s != [] {
      FindRemove(s[1..], k, j);
      if s[0].key != k { assert ([s[0]] + Remove(s[1..], k))[1..] == Remove(s[1..], k); }
    }
  }

  lemma {:induction false} FindIn<K, V>(s: Items<K, V>, k: K)
    ensures Find(s, k).Some? ==> Item(k, Find(s, k).value) in s
    ensures Find(s, k).None? <==> forall i :: 0 <= i < |s| ==> s[i].key != k
  {
    if s != [] { FindIn(s[1..], k); }
  }

  lemma {:induction false} FindPrefix<K, V>(s: Items<K, V>, n: nat, k: K)
    requires n <= |s|
    ensures Find(s[..n], k).Some? ==> Find(s, k) == Find(s[..n], k)
    decreases n
  {
    if n > 0 {
      FindPrefix(s[1..], n - 1, k);
      assert s[..n][1..] == s[1..][..n - 1];
    }
  }

  lemma DistinctPrefix<K, V>(s: Items<K, V>, n: nat)
    requires n <= |s| && Distinct(s)
    ensures Distinct(s[..n])
  {
  }

  /** After `put` the key holds the value, other keys keep theirs or are pushed out, bounds are kept. */
  lemma PutSpec<K, V>(cap: nat, s: Items<K, V>, k: K, v: V, j: K)
    requires Distinct(s) && |s| <= cap && cap > 0
    ensures Distinct(Put(cap, s, k, v)) && |Put(cap, s, k, v)| <= cap
    ensures Find(Put(cap, s, k, v), k) == Some(v)
    ensures j != k && Find(Put(cap, s, k, v), j).Some? ==> Find(Put(cap, s, k, v), j) == Find(s, j)
    ensures j != k && (Find(s, k).Some? || |s| < cap) ==> Find(Put(cap, s, k, v), j) == Find(s, j)
  {
    var rest := Remove(s, k);
    RemoveSpec(s, k);
    FindRemove(s, k, j);
    var t := if |rest| < cap then rest else rest[..cap - 1];
    if |rest| >= cap {
      DistinctPrefix(rest, cap - 1);
      FindPrefix(rest, cap - 1, j);
    }
    assert Put(cap, s, k, v) == [Item(k, v)] + t;
    assert forall i :: 0 <= i < |t| ==> t[i] == rest[i];
    ConsSpec(k, v, t, j);
  }

  lemma ConsSpec<K, V>(k: K, v: V, t: Items<K, V>, j: K)
    requires Distinct(t) && forall i :: 0 <= i < |t| ==> t[i].key != k
    ensures var s := [Item(k, v)] + t; Distinct(s) && Find(s, k) == Some(v) && (j != k ==> Find(s, j) == Find(t, j))
  {
    var s := [Item(k, v)] + t;
    assert s[1..] == t;
  }

  /** `get` changes the order only. */
  lemma TouchSpec<K, V>(s: Items<K, V>, k: K, j: K)
    requires Distinct(s)
    ensures Distinct(Touch(s, k)) && |Touch(s, k)| <= |s| && Find(Touch(s, k), j) == Find(s, j)
  {
    if Find(s, k).Some? {
      RemoveSpec(s, k);
      FindRemove(s, k, j);
      ConsSpec(k, Find(s, k).value, Remove(s, k), j);
    }
  }

  /** Keeping is a matter of each item alone, and keeps the order. */
  lemma {:induction false} KeepIn<K, V>(s: Items<K, V>, p: V -> bool)
    ensures |Keep(s, p)| <= |s|
    ensures forall i :: 0 <= i < |Keep(s, p)| ==> Keep(s, p)[i] in s
  {
    if s != [] {
      KeepIn(s[1..], p);
      var r := Keep(s[1..], p);
      forall i | 0 <= i < |Keep(s, p)| ensures Keep(s, p)[i] in s {
        if p(s[0].value) {
          assert i > 0 ==> Keep(s, p)[i] == r[i - 1] && r[i - 1] in s[1..];
        } else {
          assert r[i] in s[1..];
        }
      }
    }
  }

  lemma FirstKeyAlone<K, V>(s: Items<K, V>, p: V -> bool)
    requires Distinct(s) && s != []
    ensures Distinct(s[1..]) && forall i :: 0 <= i < |Keep(s[1..], p)| ==> Keep(s[1..], p)[i].key != s[0].key
  {
    KeepIn(s[1..], p);
    hide Keep;
    var r := Keep(s[1..], p);
    forall i | 0 <= i < |r| ensures r[i].key != s[0].key {
      assert r[i] in s[1..];
      var j :| 0 <= j < |s[1..]| && s[1..][j] == r[i];
      assert s[j + 1].key != s[0].key;
    }
  }

  lemma {:induction false} KeepSpec<K, V>(s: Items<K, V>, p: V -> bool, k: K)
    requires Distinct(s)
    ensures |Keep(s, p)| <= |s| && Distinct(Keep(s, p))
    ensures forall i :: 0 <= i < |Keep(s, p)| ==> Keep(s, p)[i] in s
    ensures Find(Keep(s, p), k) == match Find(s, k) case None => None case Some(v) => if p(v) then Some(v) else None
  {
    KeepIn(s, p);
    if s != [] {
      FirstKeyAlone(s, p);
      KeepSpec(s[1..], p, k);
      var r := Keep(s[1..], p);
      if p(s[0].value) {
        assert Keep(s, p) == [Item(s[0].key, s[0].value)] + r;
        ConsSpec(s[0].key, s[0].value, r, k);
      } else {
        assert Keep(s, p) == r;
        if s[0].key == k { FindIn(r, k); }
      }
    }
  }
}
