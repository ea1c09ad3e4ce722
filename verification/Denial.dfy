/** NSEC denial of existence (src/dnssec/mod.rs) over whole zones (section 5.4 of RFC 4035). */
module Denial {
  import opened Bytes
  import opened Names
  import opened NameText
  import opened NameOrder
  import opened Messages
  import opened Signing
  import opened Chain
  import opened RRsets
  import TypeBitmap

  const NSEC_TYPE: u16 := 47
  const CNAME_TYPE: u16 := 5
  const STAR: byte := 42

  // --- The code ---

  /** `nsec_covers_name`: strictly between owner and next, wrapping at the end of the zone. */
  predicate Covers(owner: bytes, next: bytes, qname: bytes) {
    if Compare(owner, next) != Less
    then Compare(qname, owner) == Greater || Compare(qname, next) == Less
    else Compare(qname, owner) == Greater && Compare(qname, next) == Less
  }

  predicate IsNsec(r: Record) { r.parsed.Some? && r.parsed.value.NSEC? }

  predicate CoveredBy(r: Record, qname: bytes) {
    IsNsec(r) && Covers(ToText(r.name), ToText(r.parsed.value.nextDomain), qname)
  }

  predicate OwnedBy(r: Record, name: bytes) { IsNsec(r) && EqIgnoreCase(ToText(r.name), name) }

  /** `nsec_proves_nodata`. */
  predicate ProvesNoData(r: Record, qname: bytes, qtype: u16) {
    OwnedBy(r, qname) && !TypeBitmap.Contains(r.parsed.value.typeBitMaps, qtype)
    && !TypeBitmap.Contains(r.parsed.value.typeBitMaps, CNAME_TYPE)
  }

  /** `closest_encloser`: the longest suffix of the name that owns one of the NSEC records. */
  function ClosestEncloser(labels: Labels, nsecs: seq<Record>): Option<bytes> {
    if labels == [] then None
    else if exists r :: r in nsecs && OwnedBy(r, Join(labels)) then Some(Join(labels))
    else ClosestEncloser(labels[1..], nsecs)
  }

  predicate WildcardDenied(nsecs: seq<Record>, qname: bytes) {
    match ClosestEncloser(TextLabels(qname), nsecs)
    case None => true
    case Some(ce) =>
      var wildcard: bytes := [STAR, DOT] + ce;
      exists r :: r in nsecs && (CoveredBy(r, wildcard) || OwnedBy(r, wildcard))
  }

  predicate NxDomainProven(nsecs: seq<Record>, qname: bytes) {
    (exists r :: r in nsecs && CoveredBy(r, qname)) && WildcardDenied(nsecs, qname)
  }

  predicate NoDataProven(nsecs: seq<Record>, qname: bytes, qtype: u16) {
    exists r :: r in nsecs && ProvesNoData(r, qname, qtype)
  }

  /** First signature that names the owner as its signer and covers the type. */
  function CoveringSig(sigs: seq<Record>, name: bytes, rtype: u16): Option<Record> {
    if sigs == [] then None
    else if CoversType(sigs[0], rtype) && sigs[0].parsed.value.signerName == name then Some(sigs[0])
    else CoveringSig(sigs[1..], name, rtype)
  }

  /** One denial RRset verified with keys looked up in the cache under the signer's name. */
  predicate GroupVerified(env: Env, g: Group, sigs: seq<Record>, cached: bytes -> Option<seq<Record>>) {
    match CoveringSig(sigs, g.name, g.rtype)
    case None => false
    case Some(sig) =>
      match cached(g.name)
      case None => false
      case Some(keys) => exists key :: key in keys && VerifiedBy(env, sig, key, g.rrset)
  }

  /** `verify_authority_rrsigs`. */
  predicate AuthorityVerified(env: Env, authorities: seq<Record>, sigs: seq<Record>, rtype: u16,
                              cached: bytes -> Option<seq<Record>>) {
    var groups := GroupUp(OfType(authorities, rtype));
    groups != [] && forall i :: 0 <= i < |groups| ==> GroupVerified(env, groups[i], sigs, cached)
  }

  /** `validate_denial`; its NSEC3 half filters for NSEC records again and so is never reached. */
  function ValidateDenial(env: Env, authorities: seq<Record>, sigs: seq<Record>, qname: bytes, qtype: u16,
                          nxdomain: bool, cached: bytes -> Option<seq<Record>>): Status {
    var nsecs := Select(IsNsec, authorities);
    if nsecs == [] then Indeterminate
    else if !AuthorityVerified(env, authorities, sigs, NSEC_TYPE, cached) then Indeterminate
    else if nxdomain then if NxDomainProven(nsecs, qname) then Secure else Bogus
    else if NoDataProven(nsecs, qname, qtype) then Secure else Bogus
  }

  // --- Zones and their NSEC ring ---

  /** Owner names in text form and the types each of them has. */
  datatype Zone = Zone(owners: seq<bytes>, types: seq<set<u16>>)

  /** Strictly ascending owners, written without empty labels. */
  ghost predicate ValidZone(z: Zone) {
    && z.owners != [] && |z.types| == |z.owners|
    && (forall i, j :: 0 <= i < j < |z.owners| ==> Compare(z.owners[i], z.owners[j]) == Less)
    && (forall i :: 0 <= i < |z.owners| ==> IsPlain(z.owners[i]))
  }

  predicate IsPlain(s: bytes) { s == [DOT] || (TextLabels(s) != [] && s == Join(TextLabels(s))) }

  function Next(z: Zone, i: nat): bytes
    requires i < |z.owners|
  {
    if i + 1 < |z.owners| then z.owners[i + 1] else z.owners[0]
  }

  ghost predicate IsOwner(z: Zone, qname: bytes) {
    exists i :: 0 <= i < |z.owners| && Compare(qname, z.owners[i]) == Equal
  }

  /** Record `r` is the NSEC of owner number `i`. */
  ghost predicate NsecAt(z: Zone, i: nat, r: Record)
    requires ValidZone(z) && i < |z.owners|
  {
    && IsNsec(r) && ToText(r.name) == z.owners[i] && ToText(r.parsed.value.nextDomain) == Next(z, i)
    && r.parsed.value.typeBitMaps == TypeBitmap.EncodeTypes(z.types[i])
  }

  ghost predicate FromRing(z: Zone, nsecs: seq<Record>)
    requires ValidZone(z)
  {
    forall r :: r in nsecs ==> exists i: nat :: i < |z.owners| && NsecAt(z, i, r)
  }

  ghost predicate Supplied(z: Zone, i: nat, nsecs: seq<Record>)
    requires ValidZone(z) && i < |z.owners|
  {
    exists r :: r in nsecs && NsecAt(z, i, r)
  }

  ghost predicate WholeRing(z: Zone, nsecs: seq<Record>)
    requires ValidZone(z)
  {
    forall i :: 0 <= i < |z.owners| ==> Supplied(z, i, nsecs)
  }

  /** The place of a non-owner among the owners. */
  lemma Slot(z: Zone, qname: bytes) returns (k: nat)
    requires ValidZone(z) && !IsOwner(z, qname)
    ensures k <= |z.owners|
    ensures forall i :: 0 <= i < k ==> Compare(qname, z.owners[i]) == Greater
    ensures forall i :: k <= i < |z.owners| ==> Compare(qname, z.owners[i]) == Less
  {
    hide Compare, IsPlain;
    k := 0;
    while k < |z.owners| && Compare(qname, z.owners[k]) == Greater
      invariant k <= |z.owners|
      invariant forall i :: 0 <= i < k ==> Compare(qname, z.owners[i]) == Greater
    {
      k := k + 1;
    }
    if k < |z.owners| {
      forall i | k <= i < |z.owners| ensures Compare(qname, z.owners[i]) == Less {
        if i > k { CompareTotal(qname, z.owners[k], z.owners[i]); }
      }
    }
  }

  /** What one NSEC of the ring covers, in terms of the place of the name. */
  lemma CoversBySlot(z: Zone, qname: bytes, k: nat, i: nat)
    requires ValidZone(z) && k <= |z.owners| && i < |z.owners|
    requires forall j :: 0 <= j < k ==> Compare(qname, z.owners[j]) == Greater
    requires forall j :: k <= j < |z.owners| ==> Compare(qname, z.owners[j]) == Less
    ensures Covers(z.owners[i], Next(z, i), qname) <==> if k == 0 then i == |z.owners| - 1 else i == k - 1
  {
    hide Compare, IsPlain;
    var n := |z.owners|;
    if i + 1 < n {
      assert Compare(z.owners[i], z.owners[i + 1]) == Less;
    } else {
      if n > 1 { assert Compare(z.owners[0], z.owners[i]) == Less; }
      CompareTotal(z.owners[0], z.owners[i], z.owners[0]);
      CompareTotal(z.owners[i], z.owners[0], z.owners[i]);
    }
  }

  /** In the ring of a zone, a name is covered by exactly one NSEC if it is no owner, by none if it is. */
  lemma RingCoversExactlyOnce(z: Zone, qname: bytes)
    requires ValidZone(z)
    ensures IsOwner(z, qname) ==> forall i :: 0 <= i < |z.owners| ==> !Covers(z.owners[i], Next(z, i), qname)
    ensures !IsOwner(z, qname) ==>
              exists i :: 0 <= i < |z.owners| && Covers(z.owners[i], Next(z, i), qname)
                && forall j :: 0 <= j < |z.owners| && Covers(z.owners[j], Next(z, j), qname) ==> j == i
  {
    hide Compare, Covers, IsPlain;
    if IsOwner(z, qname) {
      forall i | 0 <= i < |z.owners| ensures !Covers(z.owners[i], Next(z, i), qname) {
        OwnersUncovered(z, qname, i);
      }
    } else {
      var k := Slot(z, qname);
      forall i | 0 <= i < |z.owners|
        ensures Covers(z.owners[i], Next(z, i), qname) <==> if k == 0 then i == |z.owners| - 1 else i == k - 1
      {
        CoversBySlot(z, qname, k, i);
      }
      var i := if k == 0 then |z.owners| - 1 else k - 1;
      assert Covers(z.owners[i], Next(z, i), qname);
    }
  }

  lemma OwnersUncovered(z: Zone, qname: bytes, i: nat)
    requires ValidZone(z) && IsOwner(z, qname) && i < |z.owners|
    ensures !Covers(z.owners[i], Next(z, i), qname)
  {
    hide Compare, IsPlain;
    var n := |z.owners|;
    var m :| 0 <= m < n && Compare(qname, z.owners[m]) == Equal;
    CompareTotal(qname, z.owners[m], z.owners[i]);
    CompareTotal(qname, z.owners[m], Next(z, i));
    CompareTotal(z.owners[i], z.owners[m], z.owners[i]);
    CompareTotal(z.owners[m], z.owners[m], z.owners[m]);
    CompareTotal(z.owners[m], Next(z, i), z.owners[m]);
    if i + 1 < n {
      assert Compare(z.owners[i], z.owners[i + 1]) == Less;
      if m < i { assert Compare(z.owners[m], z.owners[i]) == Less; }
      if m > i + 1 {
        assert Compare(z.owners[i + 1], z.owners[m]) == Less;
        CompareTotal(z.owners[i + 1], z.owners[m], z.owners[m]);
      }
    } else {
      if m < i { assert Compare(z.owners[m], z.owners[i]) == Less; }
      if m > 0 {
        assert Compare(z.owners[0], z.owners[m]) == Less;
        CompareTotal(z.owners[0], z.owners[m], z.owners[m]);
      }
    }
  }

  // --- Soundness ---

  lemma SameTextSameOwner(z: Zone, i: nat, qname: bytes)
    requires ValidZone(z) && i < |z.owners| && EqIgnoreCase(z.owners[i], qname)
    ensures Compare(qname, z.owners[i]) == Equal
  {
    KeyIgnoresCase(z.owners[i], qname);
    CompareTotal(qname, z.owners[i], qname);
  }

  lemma {:induction false} NonEmptyLower(parts: seq<bytes>)
    ensures NonEmpty(LowerLabels(parts)) == LowerLabels(NonEmpty(parts))
  {
    if parts != [] {
      NonEmptyLower(parts[1..]);
      assert LowerLabels(parts)[1..] == LowerLabels(parts[1..]);
      LowerLabelsCons(parts[0], NonEmpty(parts[1..]));
      assert [] + NonEmpty(parts[1..]) == NonEmpty(parts[1..]);
    }
  }

  lemma {:induction false} ReverseLower(ls: Labels)
    ensures LowerLabels(Reverse(ls)) == Reverse(LowerLabels(ls))
  {
    if ls != [] {
      ReverseLower(ls[1..]);
      assert LowerLabels(ls)[1..] == LowerLabels(ls[1..]);
      assert LowerLabels(Reverse(ls[1..]) + [ls[0]]) == LowerLabels(Reverse(ls[1..])) + [Lower(ls[0])];
    }
  }

  lemma KeyIgnoresCase(s: bytes, t: bytes)
    requires EqIgnoreCase(s, t)
    ensures Key(s) == Key(t)
  {
    hide Split, NonEmpty, Reverse;
    SplitLower(s);
    SplitLower(t);
    NonEmptyLower(Split(s));
    NonEmptyLower(Split(t));
    ReverseLower(TextLabels(s));
    ReverseLower(TextLabels(t));
  }

  /** With NSECs drawn from the zone's ring, a proven NXDOMAIN names no owner of the zone. */
  lemma NxDomainSound(z: Zone, nsecs: seq<Record>, qname: bytes)
    requires ValidZone(z) && FromRing(z, nsecs) && NxDomainProven(nsecs, qname)
    ensures !IsOwner(z, qname)
  {
    hide Covers, WildcardDenied, IsOwner, ToText;
    var r :| r in nsecs && CoveredBy(r, qname);
    var i: nat :| i < |z.owners| && NsecAt(z, i, r);
    RingCoversExactlyOnce(z, qname);
  }

  /** A proven NODATA names an owner that has neither the type asked for nor a CNAME. */
  lemma NoDataSound(z: Zone, nsecs: seq<Record>, qname: bytes, qtype: u16)
    requires ValidZone(z) && FromRing(z, nsecs) && NoDataProven(nsecs, qname, qtype)
    ensures exists i :: 0 <= i < |z.owners| && Compare(qname, z.owners[i]) == Equal
                        && qtype !in z.types[i] && CNAME_TYPE !in z.types[i]
  {
    hide Compare, EqIgnoreCase, ToText;
    var r :| r in nsecs && ProvesNoData(r, qname, qtype);
    var i: nat :| i < |z.owners| && NsecAt(z, i, r);
    TypeBitmap.ContainsIffMember(z.types[i], qtype);
    TypeBitmap.ContainsIffMember(z.types[i], CNAME_TYPE);
    SameTextSameOwner(z, i, qname);
  }

  /** The two together, for the verdict of the code. */
  lemma DenialSound(z: Zone, env: Env, authorities: seq<Record>, sigs: seq<Record>, qname: bytes, qtype: u16,
                    nxdomain: bool, cached: bytes -> Option<seq<Record>>)
    requires ValidZone(z) && FromRing(z, Select(IsNsec, authorities))
    requires ValidateDenial(env, authorities, sigs, qname, qtype, nxdomain, cached) == Secure
    ensures AuthorityVerified(env, authorities, sigs, NSEC_TYPE, cached)
    ensures nxdomain ==> !IsOwner(z, qname)
    ensures !nxdomain ==> exists i :: 0 <= i < |z.owners| && Compare(qname, z.owners[i]) == Equal
                                      && qtype !in z.types[i] && CNAME_TYPE !in z.types[i]
  {
    hide AuthorityVerified, NxDomainProven, NoDataProven, ValidZone, FromRing, IsOwner, Compare;
    if nxdomain {
      NxDomainSound(z, Select(IsNsec, authorities), qname);
    } else {
      NoDataSound(z, Select(IsNsec, authorities), qname, qtype);
    }
  }

  // --- Completeness, when the whole ring is at hand ---

  predicate AllNonEmpty(ls: Labels) { forall i :: 0 <= i < |ls| ==> ls[i] != [] }

  lemma {:induction false} NonEmptyAll(ls: Labels)
    requires AllNonEmpty(ls)
    ensures NonEmpty(ls) == ls
  {
    if ls != [] {
      NonEmptyAll(ls[1..]);
      assert [ls[0]] + ls[1..] == ls;
    }
  }

  lemma {:induction false} NonEmptyShape(parts: seq<bytes>)
    requires AllDotFree(parts)
    ensures AllNonEmpty(NonEmpty(parts)) && AllDotFree(NonEmpty(parts))
  {
    if parts != [] { NonEmptyShape(parts[1..]); }
  }

  lemma TextLabelsOfJoin(ls: Labels)
    requires ls != [] && AllNonEmpty(ls) && AllDotFree(ls)
    ensures TextLabels(Join(ls)) == ls
  {
    SplitJoin(ls);
    NonEmptyAll(ls);
  }

  lemma {:induction false} ReverseInvolutive<T>(s: seq<T>)
    ensures Reverse(Reverse(s)) == s
  {
    if s != [] {
      ReverseInvolutive(s[1..]);
      ReverseSnoc(Reverse(s[1..]), s[0]);
      assert [s[0]] + s[1..] == s;
    }
  }

  lemma {:induction false} ReverseSnoc<T>(s: seq<T>, x: T)
    ensures Reverse(s + [x]) == [x] + Reverse(s)
  {
    if s == [] {
      assert s + [x] == [x] && [x][1..] == [];
    } else {
      ReverseSnoc(s[1..], x);
      assert (s + [x])[1..] == s[1..] + [x];
    }
  }

  lemma SameKeySameLabels(a: bytes, b: bytes)
    requires Key(a) == Key(b)
    ensures LowerLabels(TextLabels(a)) == LowerLabels(TextLabels(b))
  {
    hide TextLabels, Reverse;
    ReverseLower(TextLabels(a));
    ReverseLower(TextLabels(b));
    ReverseInvolutive(LowerLabels(TextLabels(a)));
    ReverseInvolutive(LowerLabels(TextLabels(b)));
  }

  /** Between texts without empty labels, order-equality is equality up to case. */
  lemma PlainEqual(a: bytes, b: bytes)
    requires IsPlain(a) && IsPlain(b) && Compare(a, b) == Equal
    ensures EqIgnoreCase(a, b)
  {
    CompareTotal(a, b, a);
    SameKeySameLabels(a, b);
    RootLabels();
    hide TextLabels, Compare, Key, Join;
    var la, lb := TextLabels(a), TextLabels(b);
    assert |la| == |LowerLabels(la)| == |lb|;
    if la != [] {
      JoinLower(la);
      JoinLower(lb);
    }
  }

  lemma RootLabels()
    ensures TextLabels([DOT]) == []
  {
    var root: bytes, empty: bytes := [DOT], [];
    assert root[1..] == empty && Split(empty) == [empty];
    var parts := Split(root);
    assert parts == [empty] + [empty] && parts[1..] == [empty] && [empty][1..] == [];
    assert NonEmpty([empty]) == [];
  }

  ghost predicate OwnsAny(nsecs: seq<Record>, name: bytes) { exists r :: r in nsecs && OwnedBy(r, name) }

  /** The computed encloser is the longest suffix of the name that owns an NSEC, and there is none only if none does. */
  lemma {:induction false} EncloserIsLongest(labels: Labels, nsecs: seq<Record>) returns (k: nat)
    ensures var ce := ClosestEncloser(labels, nsecs);
            && (ce.Some? ==> k < |labels| && ce.value == Join(labels[k..]) && OwnsAny(nsecs, Join(labels[k..]))
                             && forall j :: 0 <= j < k ==> !OwnsAny(nsecs, Join(labels[j..])))
            && (ce.None? ==> forall j :: 0 <= j < |labels| ==> !OwnsAny(nsecs, Join(labels[j..])))
  {
    hide OwnedBy, Join;
    k := 0;
    assert labels[0..] == labels;
    if labels != [] && !OwnsAny(nsecs, Join(labels)) {
      var k' := EncloserIsLongest(labels[1..], nsecs);
      k := k' + 1;
      assert forall j :: 1 <= j < |labels| ==> labels[1..][j - 1..] == labels[j..];
      assert forall j :: 0 <= j < |labels| - 1 ==> labels[1..][j..] == labels[j + 1..];
    }
  }

  lemma TextLabelsShape(s: bytes)
    ensures AllNonEmpty(TextLabels(s)) && AllDotFree(TextLabels(s))
  {
    JoinSplit(s);
    NonEmptyShape(Split(s));
  }

  lemma StarIsPlain(ls: Labels)
    requires ls != [] && AllNonEmpty(ls) && AllDotFree(ls)
    ensures IsPlain([STAR, DOT] + Join(ls))
  {
    hide TextLabels;
    var star: bytes := [STAR];
    var all := [star] + ls;
    assert all[1..] == ls;
    assert Join(all) == star + [DOT] + Join(ls);
    assert star + [DOT] == [STAR, DOT];
    TextLabelsOfJoin(all);
  }

  lemma WildcardIsPlain(qname: bytes, nsecs: seq<Record>)
    requires ClosestEncloser(TextLabels(qname), nsecs).Some?
    ensures IsPlain([STAR, DOT] + ClosestEncloser(TextLabels(qname), nsecs).value)
  {
    hide ClosestEncloser, IsPlain, TextLabels, Join;
    var labels := TextLabels(qname);
    TextLabelsShape(qname);
    var k := EncloserIsLongest(labels, nsecs);
    StarIsPlain(labels[k..]);
  }

  /** Any name without empty labels is either owned by a record of the whole ring or covered by one. */
  lemma OwnedOrCovered(z: Zone, nsecs: seq<Record>, name: bytes)
    requires ValidZone(z) && WholeRing(z, nsecs)
    ensures !IsOwner(z, name) ==> exists r :: r in nsecs && CoveredBy(r, name)
    ensures IsOwner(z, name) && IsPlain(name) ==> exists r :: r in nsecs && OwnedBy(r, name)
  {
    hide Compare, Covers, ToText, IsPlain;
    if !IsOwner(z, name) {
      RingCoversExactlyOnce(z, name);
      var i :| 0 <= i < |z.owners| && Covers(z.owners[i], Next(z, i), name);
      assert Supplied(z, i, nsecs);
      var r :| r in nsecs && NsecAt(z, i, r);
      assert CoveredBy(r, name);
    } else if IsPlain(name) {
      var i :| 0 <= i < |z.owners| && Compare(name, z.owners[i]) == Equal;
      PlainEqual(name, z.owners[i]);
      assert Supplied(z, i, nsecs);
      var r :| r in nsecs && NsecAt(z, i, r);
      assert OwnedBy(r, name);
    }
  }

  /** Given the whole ring, the wildcard test refuses nothing: the wildcard is covered, or it is there. */
  lemma WildcardRefusesNothing(z: Zone, nsecs: seq<Record>, qname: bytes)
    requires ValidZone(z) && WholeRing(z, nsecs)
    ensures WildcardDenied(nsecs, qname)
  {
    hide ValidZone, WholeRing, IsOwner, CoveredBy, OwnedBy, ClosestEncloser, IsPlain;
    var ce := ClosestEncloser(TextLabels(qname), nsecs);
    if ce.Some? {
      WildcardIsPlain(qname, nsecs);
      OwnedOrCovered(z, nsecs, [STAR, DOT] + ce.value);
    }
  }

  /** Given the whole ring, NXDOMAIN is proven exactly for the names the zone does not have. */
  lemma NxDomainIff(z: Zone, nsecs: seq<Record>, qname: bytes)
    requires ValidZone(z) && FromRing(z, nsecs) && WholeRing(z, nsecs)
    ensures NxDomainProven(nsecs, qname) <==> !IsOwner(z, qname)
  {
    hide ValidZone, FromRing, WholeRing, IsOwner, CoveredBy, OwnedBy, WildcardDenied, IsPlain;
    if NxDomainProven(nsecs, qname) { NxDomainSound(z, nsecs, qname); }
    if !IsOwner(z, qname) {
      OwnedOrCovered(z, nsecs, qname);
      WildcardRefusesNothing(z, nsecs, qname);
    }
  }

  /**
   * A proven NXDOMAIN also denies the wildcard at the closest encloser exactly when no NSEC record supplied is owned
   * by that wildcard: the code accepts such a record whatever types it lists.
   */
  lemma WildcardAbsentIff(z: Zone, nsecs: seq<Record>, qname: bytes, ce: bytes)
    requires ValidZone(z) && FromRing(z, nsecs) && NxDomainProven(nsecs, qname)
    requires ClosestEncloser(TextLabels(qname), nsecs) == Some(ce)
    ensures !IsOwner(z, [STAR, DOT] + ce) <==> forall r :: r in nsecs ==> !OwnedBy(r, [STAR, DOT] + ce)
  {
    var wildcard: bytes := [STAR, DOT] + ce;
    hide Compare, Covers, ToText, IsPlain, ClosestEncloser, EqIgnoreCase;
    if r :| r in nsecs && OwnedBy(r, wildcard) {
      var i: nat :| i < |z.owners| && NsecAt(z, i, r);
      SameTextSameOwner(z, i, wildcard);
    } else {
      var r :| r in nsecs && CoveredBy(r, wildcard);
      var i: nat :| i < |z.owners| && NsecAt(z, i, r);
      RingCoversExactlyOnce(z, wildcard);
    }
  }

  /** Given the whole ring, NODATA is proven exactly for owners with neither the type nor a CNAME. */
  lemma NoDataIff(z: Zone, nsecs: seq<Record>, qname: bytes, qtype: u16)
    requires ValidZone(z) && FromRing(z, nsecs) && WholeRing(z, nsecs) && IsPlain(qname)
    ensures NoDataProven(nsecs, qname, qtype) <==>
              exists i :: 0 <= i < |z.owners| && Compare(qname, z.owners[i]) == Equal
                          && qtype !in z.types[i] && CNAME_TYPE !in z.types[i]
  {
    if NoDataProven(nsecs, qname, qtype) { NoDataSound(z, nsecs, qname, qtype); }
    hide Compare, ToText, IsPlain;
    if i :|
      0 <= i < |z.owners| && Compare(qname, z.owners[i]) == Equal && qtype !in z.types[i] && CNAME_TYPE !in z.types[i]
    {
      PlainEqual(qname, z.owners[i]);
      assert Supplied(z, i, nsecs);
      var r :| r in nsecs && NsecAt(z, i, r);
      TypeBitmap.ContainsIffMember(z.types[i], qtype);
      TypeBitmap.ContainsIffMember(z.types[i], CNAME_TYPE);
      assert ProvesNoData(r, qname, qtype);
    }
  }
}
