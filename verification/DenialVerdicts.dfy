/** When `validate_denial` of src/dnssec/mod.rs says Secure, signatures included. */
module DenialVerdicts {
  import opened Bytes
  import opened NameText
  import opened NameOrder
  import opened Messages
  import opened Chain
  import opened RRsets
  import opened Denial

  /** The NSEC RRset of one owner has a signature that names this owner as its signer, and a cached key verifies it. */
  predicate OwnerVerified(env: Env, authorities: seq<Record>, name: bytes, rtype: u16, sigs: seq<Record>,
                          cached: bytes -> Option<seq<Record>>) {
    GroupVerified(env, Group(name, rtype, Members(OfType(authorities, rtype), name, rtype)), sigs, cached)
  }

  predicate Counts(r: Record, rtype: u16) { r.rtype == rtype && !IsSig(r) }

  lemma OfTypeMembers(rs: seq<Record>, rtype: u16)
    ensures forall r :: r in OfType(rs, rtype) <==> r in rs && r.rtype == rtype
  {
  }

  /** Each group stands for a record, and each record has its group. */
  lemma GroupOfRecord(records: seq<Record>, r: Record) returns (i: nat)
    requires r in records && !IsSig(r)
    ensures i < |GroupUp(records)|
    ensures GroupUp(records)[i] == Group(r.name, r.rtype, Members(records, r.name, r.rtype))
  {
    GroupUpPartitions(records);
    hide GroupUp, Members;
    i := Find(GroupUp(records), r.name, r.rtype);
  }

  lemma RecordOfGroup(records: seq<Record>, i: nat) returns (r: Record)
    requires i < |GroupUp(records)|
    ensures r in records && !IsSig(r)
    ensures GroupUp(records)[i] == Group(r.name, r.rtype, Members(records, r.name, r.rtype))
  {
    GroupUpPartitions(records);
    hide GroupUp;
    var g := GroupUp(records)[i];
    MembersBelong(records, g.name, g.rtype);
    hide Members;
    r := g.rrset[0];
    assert r in Members(records, g.name, g.rtype);
  }

  /** `verify_authority_rrsigs` accepts exactly when there is a record of the type and each owner of one is verified. */
  lemma AuthorityVerifiedIff(env: Env, authorities: seq<Record>, sigs: seq<Record>, rtype: u16,
                             cached: bytes -> Option<seq<Record>>)
    ensures AuthorityVerified(env, authorities, sigs, rtype, cached) <==>
              (exists r :: r in authorities && Counts(r, rtype))
              && forall r :: r in authorities && Counts(r, rtype) ==>
                   OwnerVerified(env, authorities, r.name, rtype, sigs, cached)
  {
    hide GroupUp, GroupVerified, Members, OfType;
    var records := OfType(authorities, rtype);
    OfTypeMembers(authorities, rtype);
    if AuthorityVerified(env, authorities, sigs, rtype, cached) {
      var r0 := RecordOfGroup(records, 0);
      forall r | r in authorities && Counts(r, rtype)
        ensures OwnerVerified(env, authorities, r.name, rtype, sigs, cached)
      {
        var i := GroupOfRecord(records, r);
      }
    }
    if r :| r in authorities && Counts(r, rtype) {
      var i := GroupOfRecord(records, r);
    }
    if forall r :: r in authorities && Counts(r, rtype) ==>
         OwnerVerified(env, authorities, r.name, rtype, sigs, cached) {
      forall i | 0 <= i < |GroupUp(records)| ensures GroupVerified(env, GroupUp(records)[i], sigs, cached) {
        var r := RecordOfGroup(records, i);
        assert OwnerVerified(env, authorities, r.name, rtype, sigs, cached);
      }
    }
  }

  // --- The verdict, given the ring ---

  ghost predicate HasNoData(z: Zone, qname: bytes, qtype: u16)
    requires |z.types| == |z.owners|
  {
    exists i :: 0 <= i < |z.owners| && Compare(qname, z.owners[i]) == Equal
                && qtype !in z.types[i] && CNAME_TYPE !in z.types[i]
  }

  lemma RingNotEmpty(z: Zone, nsecs: seq<Record>)
    requires ValidZone(z) && WholeRing(z, nsecs)
    ensures nsecs != []
  {
    hide NsecAt;
    assert Supplied(z, 0, nsecs);
  }

  /**
   * Given the whole ring, a denial is Secure exactly when every NSEC owner is verified, by a signature of its own, and
   * the name is no owner (NXDOMAIN) or an owner with neither the type nor CNAME (NODATA).
   */
  lemma DenialSecureIff(z: Zone, env: Env, authorities: seq<Record>, sigs: seq<Record>, qname: bytes, qtype: u16,
                        nxdomain: bool, cached: bytes -> Option<seq<Record>>)
    requires ValidZone(z) && FromRing(z, Select(IsNsec, authorities)) && WholeRing(z, Select(IsNsec, authorities))
    requires nxdomain || IsPlain(qname)
    ensures ValidateDenial(env, authorities, sigs, qname, qtype, nxdomain, cached) == Secure <==>
              AuthorityVerified(env, authorities, sigs, NSEC_TYPE, cached)
              && if nxdomain then !IsOwner(z, qname) else HasNoData(z, qname, qtype)
  {
    hide AuthorityVerified, NxDomainProven, NoDataProven, FromRing, WholeRing, IsOwner, Compare, IsPlain;
    var nsecs := Select(IsNsec, authorities);
    RingNotEmpty(z, nsecs);
    if nxdomain {
      NxDomainIff(z, nsecs, qname);
    } else {
      NoDataIff(z, nsecs, qname, qtype);
    }
  }

  /** It is Bogus exactly when every NSEC owner is verified and that fails, and without verified NSECs Indeterminate. */
  lemma DenialBogusIff(z: Zone, env: Env, authorities: seq<Record>, sigs: seq<Record>, qname: bytes, qtype: u16,
                       nxdomain: bool, cached: bytes -> Option<seq<Record>>)
    requires ValidZone(z) && FromRing(z, Select(IsNsec, authorities)) && WholeRing(z, Select(IsNsec, authorities))
    requires nxdomain || IsPlain(qname)
    ensures ValidateDenial(env, authorities, sigs, qname, qtype, nxdomain, cached) == Bogus <==>
              AuthorityVerified(env, authorities, sigs, NSEC_TYPE, cached)
              && !(if nxdomain then !IsOwner(z, qname) else HasNoData(z, qname, qtype))
    ensures ValidateDenial(env, authorities, sigs, qname, qtype, nxdomain, cached) == Indeterminate <==>
              !AuthorityVerified(env, authorities, sigs, NSEC_TYPE, cached)
  {
    RingNotEmpty(z, Select(IsNsec, authorities));
    hide AuthorityVerified, NxDomainProven, NoDataProven, FromRing, WholeRing, IsOwner, HasNoData, IsPlain, ValidZone;
    DenialSecureIff(z, env, authorities, sigs, qname, qtype, nxdomain, cached);
  }

  // --- Zones sign with one name ---

  lemma {:induction false} CoveringSigNames(sigs: seq<Record>, name: bytes, rtype: u16)
    ensures CoveringSig(sigs, name, rtype).Some? ==>
              var sig := CoveringSig(sigs, name, rtype).value;
              sig in sigs && CoversType(sig, rtype) && sig.parsed.value.signerName == name
  {
    if sigs != [] { CoveringSigNames(sigs[1..], name, rtype); }
  }

  ghost predicate OneSigner(sigs: seq<Record>, apex: bytes) {
    forall s :: s in sigs && IsSig(s) ==> s.parsed.value.signerName == apex
  }

  /** Signatures by one zone verify no denial that holds an NSEC owned by another name than the zone's. */
  lemma OneSignerOneOwner(env: Env, authorities: seq<Record>, sigs: seq<Record>, qname: bytes, qtype: u16,
                          nxdomain: bool, cached: bytes -> Option<seq<Record>>, apex: bytes, r: Record)
    requires OneSigner(sigs, apex) && r in authorities && Counts(r, NSEC_TYPE) && r.name != apex
    ensures ValidateDenial(env, authorities, sigs, qname, qtype, nxdomain, cached) != Secure
  {
    AuthorityVerifiedIff(env, authorities, sigs, NSEC_TYPE, cached);
    CoveringSigNames(sigs, r.name, NSEC_TYPE);
    hide AuthorityVerified, NxDomainProven, NoDataProven;
  }

  lemma OwnersDiffer(z: Zone)
    requires ValidZone(z) && |z.owners| > 1
    ensures z.owners[0] != z.owners[1]
  {
    hide Compare, IsPlain;
    CompareTotal(z.owners[0], z.owners[1], z.owners[0]);
    assert Compare(z.owners[0], z.owners[1]) == Less;
  }

  /** So in a zone of two or more owners, signed by one name, the whole ring never makes a denial Secure. */
  lemma WholeRingNeverSecure(z: Zone, env: Env, authorities: seq<Record>, sigs: seq<Record>, qname: bytes, qtype: u16,
                             nxdomain: bool, cached: bytes -> Option<seq<Record>>, apex: bytes)
    requires ValidZone(z) && |z.owners| > 1 && WholeRing(z, Select(IsNsec, authorities)) && OneSigner(sigs, apex)
    requires forall r :: r in authorities && IsNsec(r) ==> r.rtype == NSEC_TYPE
    ensures ValidateDenial(env, authorities, sigs, qname, qtype, nxdomain, cached) != Secure
  {
    OwnersDiffer(z);
    hide ValidZone, ToText, ValidateDenial, OneSigner;
    var nsecs := Select(IsNsec, authorities);
    assert Supplied(z, 0, nsecs) && Supplied(z, 1, nsecs);
    var r :| r in nsecs && NsecAt(z, 0, r);
    var s :| s in nsecs && NsecAt(z, 1, s);
    var other := if r.name == apex then s else r;
    OneSignerOneOwner(env, authorities, sigs, qname, qtype, nxdomain, cached, apex, other);
  }

  /** Keys that come back from the cache without their parsed form verify nothing: with them no denial is Secure. */
  lemma UnparsedKeysNeverSecure(env: Env, authorities: seq<Record>, sigs: seq<Record>, qname: bytes, qtype: u16,
                                nxdomain: bool, cached: bytes -> Option<seq<Record>>)
    requires forall n: bytes :: cached(n).Some? ==> forall k :: k in cached(n).value ==> k.parsed.None?
    ensures ValidateDenial(env, authorities, sigs, qname, qtype, nxdomain, cached) != Secure
  {
    AuthorityVerifiedIff(env, authorities, sigs, NSEC_TYPE, cached);
    hide AuthorityVerified, NxDomainProven, NoDataProven, CoveringSig, Members;
    if r :| r in authorities && Counts(r, NSEC_TYPE) {
      assert !OwnerVerified(env, authorities, r.name, NSEC_TYPE, sigs, cached);
    }
  }
}
