/** Verdicts on whole responses: `validate_response` of src/dnssec/mod.rs. */
module Responses {
  import opened Bytes
  import opened NameText
  import opened Messages
  import opened Chain
  import opened RRsets
  import opened Denial

  /**
   * The network as the validation of one RRset meets it: every fetch may be answered differently, so
   * answers depend on which signature (first index) and which key (second index) is being tried.
   */
  type Nets = (nat, nat) -> Net

  datatype Outcome = Verified | ChainBogus | Skip

  /** `try_verify_with_key`. */
  function TryKey(env: Env, net: Net, sig: Record, key: Record, rrset: seq<Record>, signer: bytes,
      keys: seq<Record>): Outcome {
    if !VerifiedBy(env, sig, key, rrset) then Skip
    else match ValidateChain(env, net, signer, keys, 0)
      case Secure => Verified
      case Bogus => ChainBogus
      case Insecure => Skip
      case Indeterminate => Skip
  }

  /** The signer's records as fetched for signature number `j`. */
  function Fetched(nets: Nets, sigs: seq<Record>, j: nat): seq<Record>
    requires j < |sigs| && IsSig(sigs[j])
  {
    nets(j, 0).dnskeys(Signer(sigs[j]))
  }

  function Signer(sig: Record): bytes
    requires IsSig(sig)
  {
    ToText(sig.parsed.value.signerName)
  }

  function KeyCount(nets: Nets, sigs: seq<Record>, j: nat): nat
    requires j < |sigs| && IsSig(sigs[j])
  {
    |Select(IsKey, Fetched(nets, sigs, j))|
  }

  /** Attempt number `k` with signature number `j`: the `k`-th DNSKEY among the signer's records. */
  function Attempt(env: Env, nets: Nets, sigs: seq<Record>, rrset: seq<Record>, j: nat, k: nat): Outcome
    requires j < |sigs| && IsSig(sigs[j]) && k < KeyCount(nets, sigs, j)
  {
    var keys := Fetched(nets, sigs, j);
    TryKey(env, nets(j, k + 1), sigs[j], Select(IsKey, keys)[k], rrset, Signer(sigs[j]), keys)
  }

  /** `try_verify_rrsig`: keys in order until one decides. */
  function TrySig(env: Env, nets: Nets, sigs: seq<Record>, rrset: seq<Record>, j: nat, k: nat): Outcome
    requires j < |sigs| && IsSig(sigs[j]) && k <= KeyCount(nets, sigs, j)
    decreases KeyCount(nets, sigs, j) - k
  {
    if k == KeyCount(nets, sigs, j) then Skip
    else
      var o := Attempt(env, nets, sigs, rrset, j, k);
      if o != Skip then o else TrySig(env, nets, sigs, rrset, j, k + 1)
  }

  predicate AllSigs(sigs: seq<Record>) { forall j :: 0 <= j < |sigs| ==> IsSig(sigs[j]) }

  /** `verify_rrset`: signatures in order until one decides; none deciding counts as bogus. */
  function VerifyFrom(env: Env, nets: Nets, sigs: seq<Record>, rrset: seq<Record>, j: nat): bool
    requires AllSigs(sigs) && j <= |sigs|
    decreases |sigs| - j
  {
    j < |sigs| &&
    match TrySig(env, nets, sigs, rrset, j, 0)
    case Verified => true
    case ChainBogus => false
    case Skip => VerifyFrom(env, nets, sigs, rrset, j + 1)
  }

  /** `matching_rrsigs_for`: as in the code, the signer name is compared with the owner name. */
  function Matching(sigs: seq<Record>, name: bytes, rtype: u16): (m: seq<Record>)
    ensures AllSigs(m)
  {
    var m := Select((r: Record) => CoversType(r, rtype) && r.parsed.value.signerName == name, sigs);
    assert forall j :: 0 <= j < |m| ==> m[j] in m;
    m
  }

  function AllRrsigs(m: Message): seq<Record> { Select(IsSig, m.answers + m.authorities + m.additionals) }

  predicate GroupPasses(env: Env, nets: nat -> Nets, m: Message, i: nat)
    requires i < |GroupUp(m.answers)|
  {
    var g := GroupUp(m.answers)[i];
    var sigs := Matching(AllRrsigs(m), g.name, g.rtype);
    sigs == [] || VerifyFrom(env, nets(i), sigs, g.rrset, 0)
  }

  /** `validate_response`. */
  function ValidateResponse(env: Env, nets: nat -> Nets, m: Message, cached: bytes -> Option<seq<Record>>): Status {
    if AllRrsigs(m) == [] then Insecure
    else
      var groups := GroupUp(m.answers);
      if !(forall i :: 0 <= i < |groups| ==> GroupPasses(env, nets, m, i)) then Bogus
      else if groups == [] then
        var qname := if m.questions == [] then [0] else m.questions[0].qname;
        var qtype := if m.questions == [] then 0 else m.questions[0].qtype;
        ValidateDenial(env, m.authorities, AllRrsigs(m), ToText(qname), qtype, m.header.rcode == 3, cached)
      else Secure
  }

  // --- What the verdict means ---

  /** Attempt (j, k) verifies and every attempt before it, in the order of the code, was inconclusive. */
  ghost predicate DecidedAt(env: Env, nets: Nets, sigs: seq<Record>, rrset: seq<Record>, j: nat, k: nat)
    requires AllSigs(sigs)
  {
    && j < |sigs| && k < KeyCount(nets, sigs, j) && Attempt(env, nets, sigs, rrset, j, k) == Verified
    && (forall k' :: 0 <= k' < k ==> Attempt(env, nets, sigs, rrset, j, k') == Skip)
    && (forall j', k' :: 0 <= j' < j && 0 <= k' < KeyCount(nets, sigs, j') ==>
        Attempt(env, nets, sigs, rrset, j', k') == Skip)
  }

  lemma {:induction false} TrySigVerified(env: Env, nets: Nets, sigs: seq<Record>, rrset: seq<Record>, j: nat, k: nat)
      returns (at: nat)
    requires j < |sigs| && IsSig(sigs[j]) && k <= KeyCount(nets, sigs, j)
    requires TrySig(env, nets, sigs, rrset, j, k) == Verified
    ensures k <= at < KeyCount(nets, sigs, j) && Attempt(env, nets, sigs, rrset, j, at) == Verified
    ensures forall k' :: k <= k' < at ==> Attempt(env, nets, sigs, rrset, j, k') == Skip
    decreases KeyCount(nets, sigs, j) - k
  {
    hide Attempt, KeyCount;
    if Attempt(env, nets, sigs, rrset, j, k) == Verified {
      at := k;
    } else {
      at := TrySigVerified(env, nets, sigs, rrset, j, k + 1);
    }
  }

  lemma {:induction false} TrySigSkip(env: Env, nets: Nets, sigs: seq<Record>, rrset: seq<Record>, j: nat, k: nat)
    requires j < |sigs| && IsSig(sigs[j]) && k <= KeyCount(nets, sigs, j)
    ensures TrySig(env, nets, sigs, rrset, j, k) == Skip <==>
              forall k' :: k <= k' < KeyCount(nets, sigs, j) ==> Attempt(env, nets, sigs, rrset, j, k') == Skip
    decreases KeyCount(nets, sigs, j) - k
  {
    hide Attempt, KeyCount;
    if k < KeyCount(nets, sigs, j) { TrySigSkip(env, nets, sigs, rrset, j, k + 1); }
  }

  lemma {:induction false} TrySigDecided(env: Env, nets: Nets, sigs: seq<Record>, rrset: seq<Record>, j: nat,
      k: nat, at: nat)
    requires j < |sigs| && IsSig(sigs[j]) && k <= at < KeyCount(nets, sigs, j)
    requires Attempt(env, nets, sigs, rrset, j, at) == Verified
    requires forall k' :: k <= k' < at ==> Attempt(env, nets, sigs, rrset, j, k') == Skip
    ensures TrySig(env, nets, sigs, rrset, j, k) == Verified
    decreases at - k
  {
    hide Attempt, KeyCount;
    if k < at { TrySigDecided(env, nets, sigs, rrset, j, k + 1, at); }
  }

  lemma {:induction false} VerifiedDecided(env: Env, nets: Nets, sigs: seq<Record>, rrset: seq<Record>, j: nat)
      returns (j1: nat, k1: nat)
    requires AllSigs(sigs) && j <= |sigs| && VerifyFrom(env, nets, sigs, rrset, j)
    requires forall j', k' :: 0 <= j' < j && 0 <= k' < KeyCount(nets, sigs, j') ==>
        Attempt(env, nets, sigs, rrset, j', k') == Skip
    ensures DecidedAt(env, nets, sigs, rrset, j1, k1)
    decreases |sigs| - j
  {
    hide Attempt, KeyCount, TrySig, IsSig;
    if TrySig(env, nets, sigs, rrset, j, 0) == Verified {
      k1 := TrySigVerified(env, nets, sigs, rrset, j, 0);
      j1 := j;
    } else {
      TrySigSkip(env, nets, sigs, rrset, j, 0);
      j1, k1 := VerifiedDecided(env, nets, sigs, rrset, j + 1);
    }
  }

  lemma {:induction false} DecidedVerified(env: Env, nets: Nets, sigs: seq<Record>, rrset: seq<Record>, j: nat,
      j1: nat, k1: nat)
    requires AllSigs(sigs) && j <= j1 && DecidedAt(env, nets, sigs, rrset, j1, k1)
    ensures VerifyFrom(env, nets, sigs, rrset, j)
    decreases j1 - j
  {
    hide Attempt, KeyCount, TrySig, IsSig;
    if j < j1 {
      TrySigSkip(env, nets, sigs, rrset, j, 0);
      DecidedVerified(env, nets, sigs, rrset, j + 1, j1, k1);
    } else {
      TrySigDecided(env, nets, sigs, rrset, j, 0, k1);
    }
  }

  /** An RRset passes exactly when some attempt verifies before any chain turns out bogus. */
  lemma VerifiedIffDecided(env: Env, nets: Nets, sigs: seq<Record>, rrset: seq<Record>)
    requires AllSigs(sigs)
    ensures VerifyFrom(env, nets, sigs, rrset, 0) <==> exists j, k :: DecidedAt(env, nets, sigs, rrset, j, k)
  {
    hide DecidedAt, VerifyFrom;
    if VerifyFrom(env, nets, sigs, rrset, 0) {
      var j, k := VerifiedDecided(env, nets, sigs, rrset, 0);
    }
    if j, k :| DecidedAt(env, nets, sigs, rrset, j, k) {
      DecidedVerified(env, nets, sigs, rrset, 0, j, k);
    }
  }

  /** Key `k` fetched for signer `j` made the signature over the RRset, and the keys fetched lead to a trust anchor. */
  ghost predicate AuthenticatedBy(env: Env, nets: Nets, sigs: seq<Record>, rrset: seq<Record>, j: nat, k: nat) {
    && j < |sigs| && IsSig(sigs[j]) && k < KeyCount(nets, sigs, j)
    && VerifiedBy(env, sigs[j], Select(IsKey, Fetched(nets, sigs, j))[k], rrset)
    && Trusted(env, nets(j, k + 1), Signer(sigs[j]), Fetched(nets, sigs, j))
  }

  ghost predicate Authenticated(env: Env, nets: Nets, sigs: seq<Record>, rrset: seq<Record>) {
    exists j, k :: AuthenticatedBy(env, nets, sigs, rrset, j, k)
  }

  lemma DecidedAuthenticated(env: Env, nets: Nets, sigs: seq<Record>, rrset: seq<Record>, j: nat, k: nat)
    requires AllSigs(sigs) && DecidedAt(env, nets, sigs, rrset, j, k)
    ensures Authenticated(env, nets, sigs, rrset)
  {
    hide VerifiedBy, ValidateChain, Trusted;
    SecureIffTrusted(env, nets(j, k + 1), Signer(sigs[j]), Fetched(nets, sigs, j));
    assert AuthenticatedBy(env, nets, sigs, rrset, j, k);
  }

  /**
   * A Secure verdict on a response with answers: every answer RRset for which a signature matches is
   * authenticated down from a trust anchor, and the verdict is Secure exactly when each of them passes.
   */
  lemma SecureAnswers(env: Env, nets: nat -> Nets, m: Message, cached: bytes -> Option<seq<Record>>)
    requires GroupUp(m.answers) != []
    ensures ValidateResponse(env, nets, m, cached) == Secure <==>
              AllRrsigs(m) != [] && forall i :: 0 <= i < |GroupUp(m.answers)| ==> GroupPasses(env, nets, m, i)
    ensures ValidateResponse(env, nets, m, cached) != Indeterminate
    ensures ValidateResponse(env, nets, m, cached) == Secure ==>
              forall i :: 0 <= i < |GroupUp(m.answers)| ==>
                var g := GroupUp(m.answers)[i];
                var sigs := Matching(AllRrsigs(m), g.name, g.rtype);
                sigs == [] || Authenticated(env, nets(i), sigs, g.rrset)
  {
    hide GroupUp, AllRrsigs, Matching, VerifyFrom, Authenticated, ValidateDenial;
    if ValidateResponse(env, nets, m, cached) == Secure {
      forall i | 0 <= i < |GroupUp(m.answers)|
        ensures var g := GroupUp(m.answers)[i];
                var sigs := Matching(AllRrsigs(m), g.name, g.rtype);
                sigs == [] || Authenticated(env, nets(i), sigs, g.rrset)
      {
        var g := GroupUp(m.answers)[i];
        var sigs := Matching(AllRrsigs(m), g.name, g.rtype);
        assert GroupPasses(env, nets, m, i);
        if sigs != [] {
          VerifiedIffDecided(env, nets(i), sigs, g.rrset);
          hide DecidedAt;
          var j, k :| DecidedAt(env, nets(i), sigs, g.rrset, j, k);
          DecidedAuthenticated(env, nets(i), sigs, g.rrset, j, k);
        }
      }
    }
  }

  // --- When Secure authenticates the answers ---

  function SigsFor(m: Message, i: nat): (sigs: seq<Record>)
    requires i < |GroupUp(m.answers)|
    ensures AllSigs(sigs)
  {
    Matching(AllRrsigs(m), GroupUp(m.answers)[i].name, GroupUp(m.answers)[i].rtype)
  }

  ghost predicate GroupAuthenticated(env: Env, nets: nat -> Nets, m: Message, i: nat)
    requires i < |GroupUp(m.answers)|
  {
    Authenticated(env, nets(i), SigsFor(m, i), GroupUp(m.answers)[i].rrset)
  }

  /** Given a Secure verdict, an answer RRset is authenticated exactly when some signature matches it. */
  lemma AuthenticatedIffMatched(env: Env, nets: nat -> Nets, m: Message, cached: bytes -> Option<seq<Record>>, i: nat)
    requires ValidateResponse(env, nets, m, cached) == Secure && i < |GroupUp(m.answers)|
    ensures GroupAuthenticated(env, nets, m, i) <==> SigsFor(m, i) != []
  {
    hide GroupUp, AllRrsigs, Matching, ValidateResponse, AuthenticatedBy;
    SecureAnswers(env, nets, m, cached);
    if SigsFor(m, i) == [] { UnsignedUnauthenticated(env, nets(i), GroupUp(m.answers)[i].rrset); }
  }

  lemma UnsignedUnauthenticated(env: Env, nets: Nets, rrset: seq<Record>)
    ensures !Authenticated(env, nets, [], rrset)
  {
  }

  /** So Secure authenticates all answers exactly when every RRset has a signature by its own owner. */
  lemma AllAuthenticatedIff(env: Env, nets: nat -> Nets, m: Message, cached: bytes -> Option<seq<Record>>)
    requires ValidateResponse(env, nets, m, cached) == Secure
    ensures (forall i :: 0 <= i < |GroupUp(m.answers)| ==> GroupAuthenticated(env, nets, m, i)) <==>
              forall i :: 0 <= i < |GroupUp(m.answers)| ==> SigsFor(m, i) != []
  {
    hide GroupUp, SigsFor, ValidateResponse, GroupAuthenticated;
    forall i | 0 <= i < |GroupUp(m.answers)| ensures GroupAuthenticated(env, nets, m, i) <==> SigsFor(m, i) != [] {
      AuthenticatedIffMatched(env, nets, m, cached, i);
    }
  }

  /** A response with signatures, none of which matches an answer RRset, is Secure for everyone. */
  lemma UnmatchedIsSecure(env: Env, nets: nat -> Nets, m: Message, cached: bytes -> Option<seq<Record>>)
    requires GroupUp(m.answers) != [] && AllRrsigs(m) != []
    requires forall i :: 0 <= i < |GroupUp(m.answers)| ==> SigsFor(m, i) == []
    ensures ValidateResponse(env, nets, m, cached) == Secure
  {
    hide GroupUp, AllRrsigs, Matching, ValidateResponse, VerifyFrom;
    forall i | 0 <= i < |GroupUp(m.answers)| ensures GroupPasses(env, nets, m, i) { assert SigsFor(m, i) == []; }
    SecureAnswers(env, nets, m, cached);
  }

  /** The owner names `www.a.` and `a.`. */
  const WWW_A: bytes := [3, 119, 119, 119, 1, 97, 0]
  const APEX_A: bytes := [1, 97, 0]

  const ADDRESS: Record := RecordOf(WWW_A, 1, 60, A([192, 0, 2, 1]))

  /** A signature over the address with the zone as its signer, as zones sign; its octets are empty. */
  const ZONE_SIG: Record := RecordOf(WWW_A, 46, 60, RRSIG(1, 13, 2, 60, 0, 0, 0, APEX_A, []))

  function BelowApex(header: Header): Message { Message(header, [], [ADDRESS, ZONE_SIG], [], []) }

  lemma BelowApexGroups(header: Header)
    ensures GroupUp(BelowApex(header).answers) == [Group(WWW_A, 1, [ADDRESS])]
  {
    var rs := [ADDRESS, ZONE_SIG];
    assert rs[..1] == [ADDRESS] && rs[..0] == [] && rs[..1][..0] == [];
    assert GroupUp([]) == [];
    assert GroupUp([ADDRESS]) == [Group(WWW_A, 1, [ADDRESS])];
  }

  lemma FirstIsMember<T>(s: seq<T>)
    ensures s != [] ==> s[0] in s
  {
  }

  lemma BelowApexSigs(header: Header)
    ensures AllRrsigs(BelowApex(header)) == [ZONE_SIG] && Matching([ZONE_SIG], WWW_A, 1) == []
  {
    var rs := [ADDRESS, ZONE_SIG];
    assert rs + [] + [] == rs && rs[1..] == [ZONE_SIG] && [ZONE_SIG][1..] == [];
    assert Select(IsSig, [ZONE_SIG]) == [ZONE_SIG];
    assert WWW_A[0] != APEX_A[0];
    FirstIsMember(Matching([ZONE_SIG], WWW_A, 1));
  }

  /** An address of `www.a.` with such a signature by `a.` is Secure for every validator, and authenticated for none. */
  lemma BelowApexIsSecure(env: Env, nets: nat -> Nets, header: Header, cached: bytes -> Option<seq<Record>>)
    ensures ValidateResponse(env, nets, BelowApex(header), cached) == Secure
    ensures |GroupUp(BelowApex(header).answers)| == 1 && !GroupAuthenticated(env, nets, BelowApex(header), 0)
  {
    hide GroupUp, AllRrsigs, Matching, ValidateResponse, AuthenticatedBy;
    BelowApexGroups(header);
    BelowApexSigs(header);
    UnmatchedIsSecure(env, nets, BelowApex(header), cached);
    AuthenticatedIffMatched(env, nets, BelowApex(header), cached, 0);
  }

  // --- When a response is Insecure ---

  /** An Insecure chain ends in no Insecure verdict: that one is given exactly to responses without any signature. */
  lemma InsecureIffNoSignatures(env: Env, nets: nat -> Nets, m: Message, cached: bytes -> Option<seq<Record>>)
    ensures ValidateResponse(env, nets, m, cached) == Insecure <==> AllRrsigs(m) == []
  {
    hide GroupUp, AllRrsigs, GroupPasses, NxDomainProven, NoDataProven, AuthorityVerified, ToText;
  }
}
