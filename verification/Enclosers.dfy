/**
 * What an NSEC record that covers a name says about the rest of the zone: the name's closest encloser, whether there
 * is something below it, and whether a wildcard answers it (RFC 4592), against src/dnssec/mod.rs.
 */
module Enclosers {
  import opened Bytes
  import opened Names
  import opened NameText
  import opened NameOrder
  import opened Messages
  import opened Denial

  // --- Common ancestors ---

  /** How many labels, from the root down, two names share. */
  function Shared(x: Labels, y: Labels): nat {
    if x == [] || y == [] || x[0] != y[0] then 0 else 1 + Shared(x[1..], y[1..])
  }

  lemma {:induction false} SharedIff(x: Labels, y: Labels, n: nat)
    ensures n <= Shared(x, y) <==> n <= |x| && n <= |y| && x[..n] == y[..n]
    decreases n
  {
    if n > 0 && x != [] && y != [] {
      SharedIff(x[1..], y[1..], n - 1);
      if n <= |x| && n <= |y| {
        assert x[..n] == [x[0]] + x[1..][..n - 1] && y[..n] == [y[0]] + y[1..][..n - 1];
        if x[..n] == y[..n] { assert x[..n][0] == y[..n][0] && x[..n][1..] == y[..n][1..]; }
      }
    }
  }

  /** Whatever lies between two names below a common ancestor lies below it, too. */
  lemma {:induction false} Between(p: Labels, a: Labels, b: Labels, c: Labels)
    requires p <= a && p <= c && Lex(LABELS, a, b) != Greater && Lex(LABELS, b, c) != Greater
    ensures p <= b
    decreases |p|
  {
    LabelsLawful();
    if p != [] {
      assert a[0] == p[0] == c[0];
      if b == [] { assert false; }
      Squeeze(a[0], b[0]);
      assert p[1..] <= a[1..] && p[1..] <= c[1..];
      Between(p[1..], a[1..], b[1..], c[1..]);
      assert p == [p[0]] + p[1..] && b == [b[0]] + b[1..];
    }
  }

  lemma Squeeze(x: bytes, y: bytes)
    requires LABELS(x, y) != Greater && LABELS(y, x) != Greater
    ensures x == y
  {
    LabelsLawful();
    assert LABELS(x, y) == Less <==> LABELS(y, x) == Greater;
    assert LABELS(y, x) == Less <==> LABELS(x, y) == Greater;
  }

  /** An ancestor does not come after what is below it. */
  lemma {:induction false} AncestorFirst(x: Labels, y: Labels)
    requires x <= y
    ensures Lex(LABELS, x, y) != Greater
    decreases |x|
  {
    LabelsLawful();
    if x != [] {
      assert LABELS(x[0], y[0]) == Equal;
      AncestorFirst(x[1..], y[1..]);
    }
  }

  // --- Existence in a zone ---

  /** The zone has a name when it has an owner at or below it; an empty non-terminal is such a name. */
  ghost predicate HasName(z: Zone, k: Labels) {
    exists i :: 0 <= i < |z.owners| && k <= Key(z.owners[i])
  }

  /** The closest encloser of a name is its longest ancestor in the zone, here given by its number of labels. */
  ghost predicate IsEncloser(z: Zone, qname: bytes, n: nat) {
    && n <= |Key(qname)| && HasName(z, Key(qname)[..n])
    && forall m :: n < m <= |Key(qname)| ==> !HasName(z, Key(qname)[..m])
  }

  /** A wildcard answers names that do not exist, from their closest encloser (section 3.3.1 of RFC 4592). */
  ghost predicate WildcardAnswers(z: Zone, qname: bytes) {
    && !HasName(z, Key(qname))
    && exists n: nat, i :: IsEncloser(z, qname, n) && 0 <= i < |z.owners|
                           && Key(z.owners[i]) == Key(qname)[..n] + [[STAR]]
  }

  /** NXDOMAIN is right for a name that does not exist and that no wildcard answers. */
  ghost predicate NameError(z: Zone, qname: bytes) { !HasName(z, Key(qname)) && !WildcardAnswers(z, qname) }

  // --- Read off the covering record ---

  function Max(a: nat, b: nat): nat { if a < b then b else a }

  /** The longest suffix the name shares with the owner or the next name of an NSEC. */
  function Depth(qname: bytes, owner: bytes, next: bytes): nat {
    Max(Shared(Key(qname), Key(owner)), Shared(Key(qname), Key(next)))
  }

  /** An owner before the name shares no more with it than the last such owner. */
  lemma NearestBefore(z: Zone, qname: bytes, j: nat, i: nat)
    requires ValidZone(z) && j <= i < |z.owners| && Compare(qname, z.owners[i]) == Greater
    ensures Shared(Key(qname), Key(z.owners[j])) <= Shared(Key(qname), Key(z.owners[i]))
    ensures !(Key(qname) <= Key(z.owners[j]))
  {
    hide Key, Compare, Shared, IsPlain;
    var q, a, b := Key(qname), Key(z.owners[j]), Key(z.owners[i]);
    NotAfter(z, j, i);
    CompareTotal(z.owners[i], qname, qname);
    CompareTotal(qname, z.owners[i], qname);
    CompareIsLex(z.owners[i], qname);
    CompareIsLex(z.owners[j], z.owners[i]);
    CompareIsLex(z.owners[j], qname);
    var n := Shared(q, a);
    SharedIff(q, a, n);
    Between(q[..n], a, b, q);
    SharedIff(q, b, n);
    assert b[..n] == q[..n];
    if q <= a {
      Between(q, a, b, q);
      AncestorFirst(q, b);
      CompareIsLex(qname, z.owners[i]);
    }
  }

  /** An owner after the name shares no more with it than the first such owner. */
  lemma NearestAfter(z: Zone, qname: bytes, i: nat, j: nat)
    requires ValidZone(z) && i <= j < |z.owners| && Compare(qname, z.owners[i]) == Less
    ensures Shared(Key(qname), Key(z.owners[j])) <= Shared(Key(qname), Key(z.owners[i]))
    ensures Key(qname) <= Key(z.owners[j]) ==> Key(qname) <= Key(z.owners[i])
  {
    hide Key, Compare, Shared, IsPlain;
    var q, a, b := Key(qname), Key(z.owners[j]), Key(z.owners[i]);
    NotAfter(z, i, j);
    CompareIsLex(qname, z.owners[i]);
    CompareIsLex(z.owners[i], z.owners[j]);
    var n := Shared(q, a);
    SharedIff(q, a, n);
    assert q[..n] <= a;
    Between(q[..n], q, b, a);
    SharedIff(q, b, n);
    assert b[..n] == q[..n];
    if q <= a { Between(q, q, b, a); }
  }

  lemma NotAfter(z: Zone, i: nat, j: nat)
    requires ValidZone(z) && i <= j < |z.owners|
    ensures Compare(z.owners[i], z.owners[j]) != Greater
  {
    hide Compare, IsPlain;
    if i == j { CompareTotal(z.owners[i], z.owners[j], z.owners[i]); }
  }

  /** The covering record's names are the nearest owners on both sides, as far as there are any. */
  lemma CoveringSlot(z: Zone, qname: bytes, i: nat) returns (k: nat)
    requires ValidZone(z) && i < |z.owners| && Covers(z.owners[i], Next(z, i), qname)
    ensures k <= |z.owners|
    ensures forall j :: 0 <= j < k ==> Compare(qname, z.owners[j]) == Greater
    ensures forall j :: k <= j < |z.owners| ==> Compare(qname, z.owners[j]) == Less
    ensures k > 0 ==> i == k - 1
    ensures k < |z.owners| ==> Next(z, i) == z.owners[k]
  {
    hide Compare, Covers, IsPlain, ValidZone, IsOwner;
    NotOwnerCovered(z, qname, i);
    k := Slot(z, qname);
    CoversBySlot(z, qname, k, i);
  }

  lemma NotOwnerCovered(z: Zone, qname: bytes, i: nat)
    requires ValidZone(z) && i < |z.owners| && Covers(z.owners[i], Next(z, i), qname)
    ensures !IsOwner(z, qname)
  {
    hide *;
    RingCoversExactlyOnce(z, qname);
  }

  lemma DepthBounds(qname: bytes, owner: bytes, next: bytes)
    ensures Shared(Key(qname), Key(owner)) <= Depth(qname, owner, next)
    ensures Shared(Key(qname), Key(next)) <= Depth(qname, owner, next)
  {
    hide Key, Shared;
  }

  /** No owner shares more with a covered name than the covering record's own two names. */
  lemma SharedWithOwners(z: Zone, qname: bytes, i: nat, j: nat)
    requires ValidZone(z) && i < |z.owners| && j < |z.owners| && Covers(z.owners[i], Next(z, i), qname)
    ensures Shared(Key(qname), Key(z.owners[j])) <= Depth(qname, z.owners[i], Next(z, i))
    ensures Key(qname) <= Key(z.owners[j]) ==> Key(qname) <= Key(Next(z, i))
  {
    hide *;
    var k := CoveringSlot(z, qname, i);
    DepthBounds(qname, z.owners[i], Next(z, i));
    if j < k {
      NearestBefore(z, qname, j, k - 1);
    } else {
      NearestAfter(z, qname, k, j);
    }
  }

  lemma SharedIsName(z: Zone, qname: bytes, j: nat, n: nat)
    requires j < |z.owners| && n <= Shared(Key(qname), Key(z.owners[j]))
    ensures n <= |Key(qname)| && HasName(z, Key(qname)[..n])
  {
    hide Key, Shared;
    SharedIff(Key(qname), Key(z.owners[j]), n);
    assert Key(z.owners[j])[..n] == Key(qname)[..n];
  }

  /** The closest encloser is the longest suffix shared with the owner or the next name of the covering record. */
  lemma CoveringGivesEncloser(z: Zone, qname: bytes, i: nat)
    requires ValidZone(z) && i < |z.owners| && Covers(z.owners[i], Next(z, i), qname)
    ensures IsEncloser(z, qname, Depth(qname, z.owners[i], Next(z, i)))
  {
    hide Covers, Key, Shared, ValidZone;
    var q, d := Key(qname), Depth(qname, z.owners[i], Next(z, i));
    if Shared(q, Key(z.owners[i])) == d {
      SharedIsName(z, qname, i, d);
    } else {
      SharedIsName(z, qname, if i + 1 < |z.owners| then i + 1 else 0, d);
    }
    forall m | d < m <= |q| ensures !HasName(z, q[..m]) {
      forall j | 0 <= j < |z.owners| ensures !(q[..m] <= Key(z.owners[j])) {
        SharedWithOwners(z, qname, i, j);
        SharedIff(q, Key(z.owners[j]), m);
      }
    }
  }

  /** A covered name exists, as an empty non-terminal, exactly when the next name of the covering record is below it. */
  lemma CoveredExistsIff(z: Zone, qname: bytes, i: nat)
    requires ValidZone(z) && i < |z.owners| && Covers(z.owners[i], Next(z, i), qname)
    ensures HasName(z, Key(qname)) <==> Key(qname) <= Key(Next(z, i))
  {
    hide Covers, Key, ValidZone;
    if j :| 0 <= j < |z.owners| && Key(qname) <= Key(z.owners[j]) {
      SharedWithOwners(z, qname, i, j);
    }
    if Key(qname) <= Key(Next(z, i)) {
      var j := if i + 1 < |z.owners| then i + 1 else 0;
      assert z.owners[j] == Next(z, i);
    }
  }

  lemma EncloserUnique(z: Zone, qname: bytes, m: nat, n: nat)
    requires IsEncloser(z, qname, m) && IsEncloser(z, qname, n)
    ensures m == n
  {
    hide Key, HasName;
  }

  // --- The wildcard, in text ---

  /** `*.` in front of the last `n` labels of the name. */
  function WildcardAt(qname: bytes, n: nat): bytes
    requires n <= |Key(qname)|
  {
    var ls := TextLabels(qname);
    Join([[STAR]] + ls[|ls| - n..])
  }

  lemma {:induction false} ReverseDrop(ls: Labels, d: nat)
    requires d <= |ls|
    ensures Reverse(ls[d..]) == Reverse(ls)[..|ls| - d]
    decreases d
  {
    if d == 0 {
      assert ls[0..] == ls;
    } else {
      ReverseDrop(ls[1..], d - 1);
      assert ls[1..][d - 1..] == ls[d..];
    }
  }

  lemma WildcardLabels(qname: bytes, n: nat)
    requires n <= |Key(qname)|
    ensures var w := [[STAR]] + TextLabels(qname)[|TextLabels(qname)| - n..];
            TextLabels(WildcardAt(qname, n)) == w && IsPlain(WildcardAt(qname, n))
  {
    hide TextLabels, Join;
    var ls := TextLabels(qname);
    TextLabelsShape(qname);
    TextLabelsOfJoin([[STAR]] + ls[|ls| - n..]);
  }

  lemma LowerStar()
    ensures Lower([STAR]) == [STAR]
  {
  }

  lemma StarReversed(s: Labels)
    ensures Reverse([[STAR]] + s) == Reverse(s) + [[STAR]]
  {
    assert ([[STAR]] + s)[1..] == s;
  }

  lemma LowerTake(ls: Labels, n: nat)
    requires n <= |ls|
    ensures LowerLabels(ls[..n] + [[STAR]]) == LowerLabels(ls)[..n] + [[STAR]]
  {
    LowerStar();
    hide Lower;
  }

  lemma KeyIs(s: bytes)
    ensures Key(s) == LowerLabels(Reverse(TextLabels(s))) && |Key(s)| == |TextLabels(s)|
  {
    hide TextLabels;
  }

  lemma WildcardKey(qname: bytes, n: nat)
    requires n <= |Key(qname)|
    ensures Key(WildcardAt(qname, n)) == Key(qname)[..n] + [[STAR]]
  {
    hide *;
    KeyIs(qname);
    KeyIs(WildcardAt(qname, n));
    WildcardLabels(qname, n);
    var ls := TextLabels(qname);
    StarReversed(ls[|ls| - n..]);
    ReverseDrop(ls, |ls| - n);
    LowerTake(Reverse(ls), n);
  }

  lemma OwnerByKey(z: Zone, name: bytes)
    ensures IsOwner(z, name) <==> exists i :: 0 <= i < |z.owners| && Key(z.owners[i]) == Key(name)
  {
    hide Key, Compare;
    forall i | 0 <= i < |z.owners| ensures Compare(name, z.owners[i]) == Equal <==> Key(z.owners[i]) == Key(name) {
      CompareTotal(name, z.owners[i], name);
    }
  }

  // --- Main results ---

  /** What the covering record `r` says: nothing below the name, and the wildcard at the shared suffix is no owner. */
  predicate NothingBelow(r: Record, qname: bytes)
    requires IsNsec(r)
  {
    !(Key(qname) <= Key(ToText(r.parsed.value.nextDomain)))
  }

  function WildcardFrom(r: Record, qname: bytes): bytes
    requires IsNsec(r)
  {
    var n := Depth(qname, ToText(r.name), ToText(r.parsed.value.nextDomain));
    if n <= |Key(qname)| then WildcardAt(qname, n) else []
  }

  /**
   * Any one NSEC of the ring that covers a name decides what exists above and below it: the name exists exactly when
   * the record's next name is below it, and otherwise a wildcard answers it exactly when `*.` and the suffix shared
   * with the record's names is an owner.
   */
  lemma CoveringDecides(z: Zone, nsecs: seq<Record>, qname: bytes, r: Record)
    requires ValidZone(z) && FromRing(z, nsecs) && r in nsecs && CoveredBy(r, qname)
    ensures HasName(z, Key(qname)) <==> !NothingBelow(r, qname)
    ensures WildcardAnswers(z, qname) <==> NothingBelow(r, qname) && IsOwner(z, WildcardFrom(r, qname))
  {
    hide ToText, Covers, Key, ValidZone, HasName, WildcardAt, IsEncloser, IsOwner, Depth;
    var i: nat :| i < |z.owners| && NsecAt(z, i, r);
    CoveredExistsIff(z, qname, i);
    CoveringGivesEncloser(z, qname, i);
    EncloserAnswers(z, qname, Depth(qname, z.owners[i], Next(z, i)));
  }

  lemma EncloserAnswers(z: Zone, qname: bytes, n: nat)
    requires IsEncloser(z, qname, n)
    ensures n <= |Key(qname)|
    ensures WildcardAnswers(z, qname) <==> !HasName(z, Key(qname)) && IsOwner(z, WildcardAt(qname, n))
  {
    WildcardKey(qname, n);
    OwnerByKey(z, WildcardAt(qname, n));
    hide Key, HasName, WildcardAt, IsOwner;
    if m: nat, i :| IsEncloser(z, qname, m) && 0 <= i < |z.owners|
                    && Key(z.owners[i]) == Key(qname)[..m] + [[STAR]] {
      EncloserUnique(z, qname, m, n);
    }
  }

  /**
   * With the whole ring, NXDOMAIN is right for a covered name exactly when the covering record's next name is not below
   * it and no NSEC supplied is owned by the wildcard at the suffix the name shares with that record.
   */
  lemma NameErrorIff(z: Zone, nsecs: seq<Record>, qname: bytes, r: Record)
    requires ValidZone(z) && FromRing(z, nsecs) && WholeRing(z, nsecs) && r in nsecs && CoveredBy(r, qname)
    ensures NameError(z, qname) <==>
              NothingBelow(r, qname) && forall s :: s in nsecs ==> !OwnedBy(s, WildcardFrom(r, qname))
    ensures WildcardAnswers(z, qname) <==>
              NothingBelow(r, qname) && exists s :: s in nsecs && OwnedBy(s, WildcardFrom(r, qname))
  {
    CoveringDecides(z, nsecs, qname, r);
    WildcardFromPlain(z, nsecs, qname, r);
    hide ValidZone, FromRing, WholeRing, HasName, WildcardAnswers, IsOwner, OwnedBy, CoveredBy, WildcardFrom, IsPlain,
      NothingBelow;
    OwnedOrCovered(z, nsecs, WildcardFrom(r, qname));
    forall s | s in nsecs && OwnedBy(s, WildcardFrom(r, qname)) ensures IsOwner(z, WildcardFrom(r, qname)) {
      OwnedIsOwner(z, nsecs, s, WildcardFrom(r, qname));
    }
  }

  /** With part of the ring: an NSEC owned by that wildcard shows that it answers, one that covers it that none does. */
  lemma PartOfRing(z: Zone, nsecs: seq<Record>, qname: bytes, r: Record, s: Record)
    requires ValidZone(z) && FromRing(z, nsecs) && r in nsecs && s in nsecs
    requires CoveredBy(r, qname) && NothingBelow(r, qname)
    ensures OwnedBy(s, WildcardFrom(r, qname)) ==> WildcardAnswers(z, qname)
    ensures CoveredBy(s, WildcardFrom(r, qname)) ==> NameError(z, qname)
  {
    CoveringDecides(z, nsecs, qname, r);
    hide ValidZone, FromRing, HasName, WildcardAnswers, IsOwner, OwnedBy, CoveredBy, WildcardFrom, NothingBelow;
    if OwnedBy(s, WildcardFrom(r, qname)) { OwnedIsOwner(z, nsecs, s, WildcardFrom(r, qname)); }
    if CoveredBy(s, WildcardFrom(r, qname)) { CoveredIsNoOwner(z, nsecs, s, WildcardFrom(r, qname)); }
  }

  lemma WildcardFromPlain(z: Zone, nsecs: seq<Record>, qname: bytes, r: Record)
    requires ValidZone(z) && FromRing(z, nsecs) && r in nsecs && CoveredBy(r, qname)
    ensures IsPlain(WildcardFrom(r, qname))
  {
    hide ToText, Covers, Key, ValidZone, HasName, WildcardAt, Depth, IsPlain;
    var i: nat :| i < |z.owners| && NsecAt(z, i, r);
    CoveringGivesEncloser(z, qname, i);
    var n := Depth(qname, z.owners[i], Next(z, i));
    WildcardLabels(qname, n);
  }

  lemma OwnedIsOwner(z: Zone, nsecs: seq<Record>, s: Record, name: bytes)
    requires ValidZone(z) && FromRing(z, nsecs) && s in nsecs && OwnedBy(s, name)
    ensures IsOwner(z, name)
  {
    hide ToText, Compare, EqIgnoreCase;
    var i: nat :| i < |z.owners| && NsecAt(z, i, s);
    SameTextSameOwner(z, i, name);
  }

  lemma CoveredIsNoOwner(z: Zone, nsecs: seq<Record>, s: Record, name: bytes)
    requires ValidZone(z) && FromRing(z, nsecs) && s in nsecs && CoveredBy(s, name)
    ensures !IsOwner(z, name)
  {
    hide ToText, Compare, Covers, IsOwner;
    var i: nat :| i < |z.owners| && NsecAt(z, i, s);
    RingCoversExactlyOnce(z, name);
  }
}
