/**
 * What it means to pick some elements of a sequence: all that pass a test, each as often and in the order it
 * stands.
 */
module Filters {

  predicate Increasing(f: seq<nat>) { forall i, j :: 0 <= i < j < |f| ==> f[i] < f[j] }

  /** `chosen` is what stands at the places `f`. */
  predicate Reads<T(==)>(all: seq<T>, chosen: seq<T>, f: seq<nat>) {
    |f| == |chosen| && forall i :: 0 <= i < |f| ==> f[i] < |all| && chosen[i] == all[f[i]]
  }

  /** The places are exactly those of elements that pass. */
  predicate Hits<T>(all: seq<T>, keep: T -> bool, f: seq<nat>) {
    forall j :: 0 <= j < |all| ==> (keep(all[j]) <==> j in f)
  }

  ghost predicate Picks<T>(all: seq<T>, chosen: seq<T>, keep: T -> bool) {
    exists f: seq<nat> :: Increasing(f) && Reads(all, chosen, f) && Hits(all, keep, f)
  }

  function Filter<T>(all: seq<T>, keep: T -> bool): seq<T> {
    if all == [] then [] else (if keep(all[0]) then [all[0]] else []) + Filter(all[1..], keep)
  }

  // --- Filter picks ---

  function Shift(g: seq<nat>): (h: seq<nat>)
    ensures |h| == |g| && forall i :: 0 <= i < |g| ==> h[i] == g[i] + 1
  {
    seq(|g|, i requires 0 <= i < |g| => g[i] + 1)
  }

  lemma ShiftMembers(g: seq<nat>, j: nat)
    ensures j + 1 in Shift(g) <==> j in g
    ensures 0 !in Shift(g)
  {
    if j in g {
      var i :| 0 <= i < |g| && g[i] == j;
      assert Shift(g)[i] == j + 1;
    }
  }

  /** The places one further on, and the first place in front of them or not. */
  function Places(first: bool, g: seq<nat>): seq<nat> { (if first then [0] else []) + Shift(g) }

  lemma PlacesMembers(first: bool, g: seq<nat>, j: nat)
    ensures 0 in Places(first, g) <==> first
    ensures j + 1 in Places(first, g) <==> j in g
  {
    ShiftMembers(g, j);
  }

  lemma PlacesIncrease(first: bool, g: seq<nat>)
    requires Increasing(g)
    ensures Increasing(Places(first, g))
  {
  }

  lemma PlacesRead<T>(x: T, all: seq<T>, chosen: seq<T>, first: bool, g: seq<nat>)
    requires Reads(all, chosen, g)
    ensures Reads([x] + all, (if first then [x] else []) + chosen, Places(first, g))
  {
    var all', chosen', f := [x] + all, (if first then [x] else []) + chosen, Places(first, g);
    forall i | 0 <= i < |f| ensures f[i] < |all'| && chosen'[i] == all'[f[i]] {
      var k := if first then i - 1 else i;
      if k >= 0 { assert f[i] == g[k] + 1 && all'[f[i]] == all[g[k]]; }
    }
  }

  lemma PlacesHit<T>(x: T, all: seq<T>, keep: T -> bool, g: seq<nat>)
    requires Hits(all, keep, g)
    ensures Hits([x] + all, keep, Places(keep(x), g))
  {
    hide Places;
    var all' := [x] + all;
    forall j | 0 <= j < |all'| ensures keep(all'[j]) <==> j in Places(keep(x), g) {
      PlacesMembers(keep(x), g, if j > 0 then j - 1 else 0);
      if j > 0 { assert all'[j] == all[j - 1]; }
    }
  }

  lemma {:induction false} FilterPlaces<T>(all: seq<T>, keep: T -> bool) returns (f: seq<nat>)
    ensures Increasing(f) && Reads(all, Filter(all, keep), f) && Hits(all, keep, f)
  {
    if all == [] {
      f := [];
    } else {
      var x, rest := all[0], all[1..];
      var g := FilterPlaces(rest, keep);
      hide Increasing, Reads, Hits, Places;
      assert all == [x] + rest;
      f := Places(keep(x), g);
      PlacesIncrease(keep(x), g);
      PlacesRead(x, rest, Filter(rest, keep), keep(x), g);
      PlacesHit(x, rest, keep, g);
    }
  }

  // --- There is one way to pick ---

  lemma Least(f: seq<nat>, x: nat)
    requires x in f && Increasing(f)
    ensures f[0] <= x
  {
    var k :| 0 <= k < |f| && f[k] == x;
    if k > 0 { assert f[0] < f[k]; }
  }

  lemma TailMembers(f: seq<nat>, j: nat)
    requires f != [] && Increasing(f)
    ensures Increasing(f[1..]) && (j in f[1..] <==> j in f && j != f[0])
  {
    if j in f && j != f[0] {
      var i :| 0 <= i < |f| && f[i] == j;
      assert f[1..][i - 1] == j;
    }
  }

  lemma {:induction false} SortedSame(f: seq<nat>, g: seq<nat>)
    requires Increasing(f) && Increasing(g) && forall j: nat :: j in f <==> j in g
    ensures f == g
    decreases |f|
  {
    assert f != [] ==> f[0] in g;
    assert g != [] ==> g[0] in f;
    if f != [] {
      Least(g, f[0]);
      Least(f, g[0]);
      forall j: nat ensures j in f[1..] <==> j in g[1..] {
        TailMembers(f, j);
        TailMembers(g, j);
      }
      TailMembers(f, 0);
      TailMembers(g, 0);
      SortedSame(f[1..], g[1..]);
      assert f == [f[0]] + f[1..] && g == [g[0]] + g[1..];
    }
  }

  lemma SamePlaces<T>(all: seq<T>, a: seq<T>, b: seq<T>, keep: T -> bool, f: seq<nat>, g: seq<nat>)
    requires Increasing(f) && Reads(all, a, f) && Hits(all, keep, f)
    requires Increasing(g) && Reads(all, b, g) && Hits(all, keep, g)
    ensures a == b
  {
    forall j: nat ensures j in f <==> j in g {
      if j in f { assert j < |all| && keep(all[j]); }
      if j in g { assert j < |all| && keep(all[j]); }
    }
    hide Hits;
    SortedSame(f, g);
  }

  /** `Filter` picks what passes, and any other way to pick gives the same. */
  lemma FilterIff<T>(all: seq<T>, chosen: seq<T>, keep: T -> bool)
    ensures chosen == Filter(all, keep) <==> Picks(all, chosen, keep)
  {
    var f := FilterPlaces(all, keep);
    hide Increasing, Reads, Hits, Filter;
    if g: seq<nat> :| Increasing(g) && Reads(all, chosen, g) && Hits(all, keep, g) {
      SamePlaces(all, chosen, Filter(all, keep), keep, g, f);
    }
  }

  // --- Consequences ---

  /** Exactly the elements that pass are picked; nothing is picked only if nothing passes. */
  lemma {:induction false} FilterMembers<T>(all: seq<T>, keep: T -> bool)
    ensures forall x :: x in Filter(all, keep) <==> x in all && keep(x)
    ensures Filter(all, keep) == [] <==> forall j :: 0 <= j < |all| ==> !keep(all[j])
    ensures |Filter(all, keep)| <= |all|
  {
    if all != [] {
      FilterMembers(all[1..], keep);
      assert all == [all[0]] + all[1..];
      assert forall j :: 1 <= j < |all| ==> all[j] == all[1..][j - 1];
      assert forall j :: 0 <= j < |all[1..]| ==> all[1..][j] == all[j + 1];
    }
  }

  /** The first element picked is the first that passes. */
  lemma {:induction false} FilterFirst<T>(all: seq<T>, keep: T -> bool) returns (j: nat)
    requires Filter(all, keep) != []
    ensures j < |all| && Filter(all, keep)[0] == all[j] && keep(all[j]) && forall i :: 0 <= i < j ==> !keep(all[i])
  {
    j := 0;
    if !keep(all[0]) {
      var k := FilterFirst(all[1..], keep);
      j := k + 1;
      assert forall i :: 1 <= i < j ==> all[i] == all[1..][i - 1];
    }
  }

  lemma {:induction false} FilterSnoc<T>(all: seq<T>, x: T, keep: T -> bool)
    ensures Filter(all + [x], keep) == Filter(all, keep) + if keep(x) then [x] else []
  {
    if all == [] {
      assert all + [x] == [x] && [x][1..] == [];
    } else {
      FilterSnoc(all[1..], x, keep);
      assert (all + [x])[1..] == all[1..] + [x];
    }
  }

  /** A stricter test after a weaker one is the stricter one alone. */
  lemma {:induction false} FilterTwice<T(!new)>(all: seq<T>, weak: T -> bool, strict: T -> bool)
    requires forall x :: strict(x) ==> weak(x)
    ensures Filter(Filter(all, weak), strict) == Filter(all, strict)
  {
    if all != [] {
      FilterTwice(all[1..], weak, strict);
      if weak(all[0]) {
        var kept := Filter(all, weak);
        assert kept[0] == all[0] && kept[1..] == Filter(all[1..], weak);
      } else {
        assert [] + Filter(all[1..], weak) == Filter(all[1..], weak);
      }
    }
  }
}
