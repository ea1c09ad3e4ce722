/** The chain-of-trust walk of src/dnssec/mod.rs, over any network and any signature scheme. */
module Chain {
  import opened Bytes
  import opened NameText
  import opened Messages
  import opened Signing

  const MAX_CHAIN_DEPTH := 10
  const DNSKEY_TYPE: u16 := 48
  const DS_TYPE: u16 := 43

  datatype Status = Secure | Insecure | Bogus | Indeterminate

  /** Signature check (algorithm, key, data, signature) and digest (type, data), left arbitrary. */
  datatype Crypto = Crypto(verify: (byte, bytes, bytes, bytes) -> bool, digest: (byte, bytes) -> bytes)

  /** What one validation knows: the primitives, the clock (Unix seconds) and the trust anchors. */
  datatype Env = Env(crypto: Crypto, now: u32, anchors: seq<Record>)

  /** What the network (or the cache) answers during one walk. */
  datatype Net = Net(dnskeys: bytes -> seq<Record>, ds: bytes -> seq<Record>)

  // --- Keys and signatures ---

  predicate IsKey(r: Record) { r.parsed.Some? && r.parsed.value.DNSKEY? }
  predicate IsDs(r: Record) { r.parsed.Some? && r.parsed.value.DS? }
  predicate IsSig(r: Record) { r.parsed.Some? && r.parsed.value.RRSIG? }
  predicate CoversType(r: Record, rtype: u16) { IsSig(r) && r.parsed.value.typeCovered == rtype }

  function KeyRData(k: RData): bytes
    requires k.DNSKEY?
  {
    Be16(k.flags) + [k.protocol, k.algorithm] + k.publicKey
  }

  /** Octets at even places count as high halves of 16-bit words. */
  function WordSum(s: bytes, even: bool): nat {
    if s == [] then 0 else (if even then s[0] as int * 0x100 else s[0] as int) + WordSum(s[1..], !even)
  }

  /** `compute_key_tag` (appendix B of RFC 4034). */
  function KeyTag(k: RData): u16
    requires k.DNSKEY?
  {
    var ac := WordSum(KeyRData(k), true);
    (ac + ac / 0x1_0000 % 0x1_0000) % 0x1_0000
  }

  const WRAP := 0x1_0000_0000

  /** `is_rrsig_time_valid`: serial-number arithmetic with 300 seconds of tolerance before inception. */
  predicate TimeValid(now: u32, expiration: u32, inception: u32) {
    && ((now - inception) % WRAP < 0x8000_0000 || (now + 300) % WRAP >= inception)
    && (expiration - now) % WRAP < 0x8000_0000
  }

  /** `rrsig_verified_by`: the single signature gate. */
  predicate VerifiedBy(env: Env, sig: Record, key: Record, rrset: seq<Record>) {
    && IsSig(sig) && IsKey(key)
    && key.parsed.value.algorithm == sig.parsed.value.algorithm
    && KeyTag(key.parsed.value) == sig.parsed.value.keyTag
    && TimeValid(env.now, sig.parsed.value.expiration, sig.parsed.value.inception)
    && env.crypto.verify(sig.parsed.value.algorithm, key.parsed.value.publicKey, SignedData(sig, rrset),
                         sig.parsed.value.signature)
  }

  predicate SameKey(a: Record, b: Record) {
    IsKey(a) && IsKey(b) && a.parsed.value.algorithm == b.parsed.value.algorithm
    && a.parsed.value.publicKey == b.parsed.value.publicKey
  }

  /** `verify_ds`: digest types 2 and 4 only. */
  predicate DsMatches(env: Env, ds: Record, key: Record, owner: bytes) {
    && IsDs(ds) && IsKey(key)
    && KeyTag(key.parsed.value) == ds.parsed.value.keyTag
    && key.parsed.value.algorithm == ds.parsed.value.algorithm
    && (ds.parsed.value.digestType == 2 || ds.parsed.value.digestType == 4)
    && env.crypto.digest(ds.parsed.value.digestType, NameToWire(owner) + KeyRData(key.parsed.value))
       == ds.parsed.value.digest
  }

  function Select(p: Record -> bool, rs: seq<Record>): (s: seq<Record>)
    ensures forall r :: r in s <==> r in rs && p(r)
  {
    if rs == [] then [] else (if p(rs[0]) then [rs[0]] else []) + Select(p, rs[1..])
  }

  function OfType(rs: seq<Record>, rtype: u16): seq<Record> { Select((r: Record) => r.rtype == rtype, rs) }

  /** `verify_rrset_signed`. */
  predicate RRsetSigned(env: Env, records: seq<Record>, rtype: u16, keys: seq<Record>) {
    var rrset := OfType(records, rtype);
    && rrset != []
    && exists sig, key ::
         sig in records && key in keys && CoversType(sig, rtype) && VerifiedBy(env, sig, key, rrset)
  }

  // --- The walk ---

  /** `parent_zone_str`. */
  function ParentZone(zone: bytes): bytes {
    if IsRoot(zone) then [DOT] else AfterDot(zone)
  }

  function AfterDot(s: bytes): bytes {
    if s == [] then [DOT] else if s[0] == DOT then s[1..] else AfterDot(s[1..])
  }

  predicate IsRoot(zone: bytes) { zone == [DOT] || zone == [] }

  predicate HasAnchor(env: Env, records: seq<Record>) {
    exists k, a :: k in records && a in env.anchors && SameKey(k, a)
  }

  function MatchedKeys(env: Env, net: Net, zone: bytes, records: seq<Record>): seq<Record> {
    var dss := Select(IsDs, net.ds(zone));
    Select((k: Record) => exists ds :: ds in dss && DsMatches(env, ds, k, zone), Select(IsKey, records))
  }

  function ValidateChain(env: Env, net: Net, zone: bytes, records: seq<Record>, depth: nat): Status
    decreases MAX_CHAIN_DEPTH + 1 - depth
  {
    if depth > MAX_CHAIN_DEPTH then Indeterminate
    else if HasAnchor(env, records) then
      if RRsetSigned(env, records, DNSKEY_TYPE, env.anchors) then Secure else Bogus
    else if IsRoot(zone) then Indeterminate
    else if Select(IsDs, net.ds(zone)) == [] then Insecure
    else
      var ksks := MatchedKeys(env, net, zone, records);
      if ksks == [] then Bogus
      else if !RRsetSigned(env, records, DNSKEY_TYPE, ksks) then Bogus
      else
        var parent := ParentZone(zone);
        var parentRecords := net.dnskeys(parent);
        if parentRecords == [] then Indeterminate
        else
          var status := ValidateChain(env, net, parent, parentRecords, depth + 1);
          if status != Secure then status
          else if !RRsetSigned(env, net.ds(zone), DS_TYPE, parentRecords) then Bogus
          else Secure
  }

  // --- What Secure means ---

  /** A zone and the key set the walk uses for it. */
  datatype Link = Link(zone: bytes, records: seq<Record>)

  ghost predicate Anchored(env: Env, top: Link) {
    HasAnchor(env, top.records)
    && exists sig, key :: sig in top.records && key in env.anchors && CoversType(sig, DNSKEY_TYPE)
         && VerifiedBy(env, sig, key, OfType(top.records, DNSKEY_TYPE)) && OfType(top.records, DNSKEY_TYPE) != []
  }

  /** The child's key set is signed by a key that a DS record of the child's zone commits to. */
  ghost predicate SelfSigned(env: Env, net: Net, child: Link) {
    exists sig, key, ds ::
      && sig in child.records && key in child.records && ds in net.ds(child.zone)
      && CoversType(sig, DNSKEY_TYPE) && DsMatches(env, ds, key, child.zone)
      && VerifiedBy(env, sig, key, OfType(child.records, DNSKEY_TYPE)) && OfType(child.records, DNSKEY_TYPE) != []
  }

  /** One step towards the root: neither anchored nor root, self-signed, with a fetched parent. */
  ghost predicate StepsUp(env: Env, net: Net, child: Link, parent: Link) {
    && !HasAnchor(env, child.records) && !IsRoot(child.zone)
    && parent.zone == ParentZone(child.zone) && parent.records == net.dnskeys(parent.zone) && parent.records != []
    && SelfSigned(env, net, child)
  }

  /** The DS RRset of the child is signed by a key of the parent. */
  ghost predicate DsSigned(env: Env, net: Net, child: Link, parent: Link) {
    OfType(net.ds(child.zone), DS_TYPE) != []
    && exists sig, key :: sig in net.ds(child.zone) && key in parent.records && CoversType(sig, DS_TYPE)
         && VerifiedBy(env, sig, key, OfType(net.ds(child.zone), DS_TYPE))
  }

  /** A path of authenticated links that ends in a signed trust anchor. */
  ghost predicate TrustPath(env: Env, net: Net, path: seq<Link>) {
    && path != [] && Anchored(env, path[|path| - 1])
    && forall i :: 0 <= i < |path| - 1 ==>
        StepsUp(env, net, path[i], path[i + 1]) && DsSigned(env, net, path[i], path[i + 1])
  }

  lemma SelfSignedIff(env: Env, net: Net, child: Link)
    ensures SelfSigned(env, net, child) <==>
              RRsetSigned(env, child.records, DNSKEY_TYPE, MatchedKeys(env, net, child.zone, child.records))
    ensures SelfSigned(env, net, child) ==>
              MatchedKeys(env, net, child.zone, child.records) != [] && Select(IsDs, net.ds(child.zone)) != []
  {
    hide VerifiedBy;
    var keys := MatchedKeys(env, net, child.zone, child.records);
    forall k
      ensures k in keys <==>
                k in child.records && exists ds :: ds in net.ds(child.zone) && DsMatches(env, ds, k, child.zone)
    {
      if ds :| ds in net.ds(child.zone) && DsMatches(env, ds, k, child.zone) {
        assert ds in Select(IsDs, net.ds(child.zone));
      }
    }
    hide DsMatches, MatchedKeys;
    var rrset := OfType(child.records, DNSKEY_TYPE);
    if RRsetSigned(env, child.records, DNSKEY_TYPE, keys) {
      var sig, key :| sig in child.records && key in keys && CoversType(sig, DNSKEY_TYPE)
          && VerifiedBy(env, sig, key, rrset);
      var ds :| ds in net.ds(child.zone) && DsMatches(env, ds, key, child.zone);
    }
    if SelfSigned(env, net, child) {
      var sig, key, ds :| sig in child.records && key in child.records && ds in net.ds(child.zone)
        && CoversType(sig, DNSKEY_TYPE) && DsMatches(env, ds, key, child.zone)
        && VerifiedBy(env, sig, key, rrset) && rrset != [];
      assert key in keys;
      DsMatchesIsDs(env, ds, key, child.zone);
      assert ds in Select(IsDs, net.ds(child.zone));
    }
  }

  lemma DsMatchesIsDs(env: Env, ds: Record, key: Record, owner: bytes)
    requires DsMatches(env, ds, key, owner)
    ensures IsDs(ds)
  {
  }

  lemma AnchoredIff(env: Env, top: Link)
    ensures Anchored(env, top) <==>
              HasAnchor(env, top.records) && RRsetSigned(env, top.records, DNSKEY_TYPE, env.anchors)
  {
    hide VerifiedBy, HasAnchor;
  }

  lemma DsSignedIff(env: Env, net: Net, child: Link, parent: Link)
    ensures DsSigned(env, net, child, parent) <==> RRsetSigned(env, net.ds(child.zone), DS_TYPE, parent.records)
  {
    hide VerifiedBy;
  }

  /** Soundness: a Secure verdict comes with its path. */
  lemma {:induction false} SecureHasPath(env: Env, net: Net, zone: bytes, records: seq<Record>, depth: nat)
      returns (path: seq<Link>)
    requires ValidateChain(env, net, zone, records, depth) == Secure
    ensures TrustPath(env, net, path) && path[0] == Link(zone, records) && |path| <= MAX_CHAIN_DEPTH + 1 - depth
    decreases MAX_CHAIN_DEPTH + 1 - depth
  {
    hide HasAnchor, RRsetSigned, MatchedKeys, Anchored, SelfSigned, DsSigned, ParentZone, IsRoot;
    var here := Link(zone, records);
    AnchoredIff(env, here);
    if HasAnchor(env, records) {
      path := [here];
    } else {
      var parent := ParentZone(zone);
      var rest := SecureHasPath(env, net, parent, net.dnskeys(parent), depth + 1);
      SelfSignedIff(env, net, here);
      DsSignedIff(env, net, here, rest[0]);
      path := [here] + rest;
      forall i | 0 <= i < |path| - 1
        ensures StepsUp(env, net, path[i], path[i + 1]) && DsSigned(env, net, path[i], path[i + 1])
      {
        if i > 0 { assert path[i] == rest[i - 1] && path[i + 1] == rest[i]; }
      }
    }
  }

  /** Completeness: every path within the depth limit is found. */
  lemma {:induction false} PathIsSecure(env: Env, net: Net, zone: bytes, records: seq<Record>, depth: nat,
      path: seq<Link>)
    requires TrustPath(env, net, path) && path[0] == Link(zone, records) && |path| <= MAX_CHAIN_DEPTH + 1 - depth
    ensures ValidateChain(env, net, zone, records, depth) == Secure
    decreases |path|
  {
    hide HasAnchor, RRsetSigned, MatchedKeys, Anchored, SelfSigned, DsSigned, ParentZone, IsRoot;
    var here := path[0];
    if |path| == 1 {
      AnchoredIff(env, here);
    } else {
      var rest := path[1..];
      assert StepsUp(env, net, path[0], path[1]) && DsSigned(env, net, path[0], path[1]);
      forall i | 0 <= i < |rest| - 1
        ensures StepsUp(env, net, rest[i], rest[i + 1]) && DsSigned(env, net, rest[i], rest[i + 1])
      {
        assert rest[i] == path[i + 1] && rest[i + 1] == path[i + 2];
      }
      PathIsSecure(env, net, path[1].zone, path[1].records, depth + 1, rest);
      SelfSignedIff(env, net, here);
      DsSignedIff(env, net, here, path[1]);
    }
  }

  ghost predicate Trusted(env: Env, net: Net, zone: bytes, records: seq<Record>) {
    exists path :: TrustPath(env, net, path) && path[0] == Link(zone, records) && |path| <= MAX_CHAIN_DEPTH + 1
  }

  /** The walk from depth 0 is Secure exactly when a trust path of at most eleven zones exists. */
  lemma SecureIffTrusted(env: Env, net: Net, zone: bytes, records: seq<Record>)
    ensures ValidateChain(env, net, zone, records, 0) == Secure <==> Trusted(env, net, zone, records)
  {
    hide ValidateChain, Anchored, StepsUp, DsSigned;
    if ValidateChain(env, net, zone, records, 0) == Secure {
      var path := SecureHasPath(env, net, zone, records, 0);
    }
    if path :| TrustPath(env, net, path) && path[0] == Link(zone, records) && |path| <= MAX_CHAIN_DEPTH + 1 {
      PathIsSecure(env, net, zone, records, 0, path);
    }
  }

  // --- What Insecure means ---

  /** The walk climbs self-signed links and then meets a zone without DS records. */
  ghost predicate UnsignedPath(env: Env, net: Net, path: seq<Link>) {
    && path != []
    && (forall i :: 0 <= i < |path| - 1 ==> StepsUp(env, net, path[i], path[i + 1]))
    && var last := path[|path| - 1];
       !HasAnchor(env, last.records) && !IsRoot(last.zone) && Select(IsDs, net.ds(last.zone)) == []
  }

  lemma {:induction false} InsecureHasPath(env: Env, net: Net, zone: bytes, records: seq<Record>, depth: nat)
      returns (path: seq<Link>)
    requires ValidateChain(env, net, zone, records, depth) == Insecure
    ensures UnsignedPath(env, net, path) && path[0] == Link(zone, records) && |path| <= MAX_CHAIN_DEPTH + 1 - depth
    decreases MAX_CHAIN_DEPTH + 1 - depth
  {
    hide HasAnchor, RRsetSigned, MatchedKeys, SelfSigned, ParentZone, IsRoot, Select;
    var here := Link(zone, records);
    if Select(IsDs, net.ds(zone)) == [] {
      path := [here];
    } else {
      var parent := ParentZone(zone);
      var rest := InsecureHasPath(env, net, parent, net.dnskeys(parent), depth + 1);
      SelfSignedIff(env, net, here);
      path := [here] + rest;
      forall i | 0 <= i < |path| - 1 ensures StepsUp(env, net, path[i], path[i + 1]) {
        if i > 0 { assert path[i] == rest[i - 1] && path[i + 1] == rest[i]; }
      }
    }
  }

  lemma {:induction false} PathIsInsecure(env: Env, net: Net, zone: bytes, records: seq<Record>, depth: nat,
      path: seq<Link>)
    requires UnsignedPath(env, net, path) && path[0] == Link(zone, records) && |path| <= MAX_CHAIN_DEPTH + 1 - depth
    ensures ValidateChain(env, net, zone, records, depth) == Insecure
    decreases |path|
  {
    hide HasAnchor, RRsetSigned, MatchedKeys, SelfSigned, ParentZone, IsRoot, Select;
    if |path| > 1 {
      var rest := path[1..];
      assert StepsUp(env, net, path[0], path[1]);
      forall i | 0 <= i < |rest| - 1 ensures StepsUp(env, net, rest[i], rest[i + 1]) {
        assert rest[i] == path[i + 1] && rest[i + 1] == path[i + 2];
      }
      PathIsInsecure(env, net, path[1].zone, path[1].records, depth + 1, rest);
      SelfSignedIff(env, net, path[0]);
    }
  }

  /** Insecure exactly when such a path exists; the missing DS itself is never authenticated. */
  lemma InsecureIffUnsigned(env: Env, net: Net, zone: bytes, records: seq<Record>)
    ensures ValidateChain(env, net, zone, records, 0) == Insecure <==>
              exists path :: UnsignedPath(env, net, path) && path[0] == Link(zone, records)
                  && |path| <= MAX_CHAIN_DEPTH + 1
  {
    hide ValidateChain, HasAnchor, StepsUp, IsRoot, Select;
    if ValidateChain(env, net, zone, records, 0) == Insecure {
      var path := InsecureHasPath(env, net, zone, records, 0);
    }
    if path :| UnsignedPath(env, net, path) && path[0] == Link(zone, records) && |path| <= MAX_CHAIN_DEPTH + 1 {
      PathIsInsecure(env, net, zone, records, 0, path);
    }
  }

  /** The walk stops at any zone without DS records and calls it Insecure: nothing has to prove their absence. */
  lemma NoDsIsInsecure(env: Env, net: Net, zone: bytes, records: seq<Record>)
    requires !HasAnchor(env, records) && !IsRoot(zone) && net.ds(zone) == []
    ensures ValidateChain(env, net, zone, records, 0) == Insecure
  {
  }

  const ZONE_A: bytes := [97]

  /** A network that hides the DS records makes zone `a` Insecure for everyone, whatever key it shows. */
  lemma HiddenDsIsInsecure(env: Env, dnskeys: bytes -> seq<Record>, key: Record)
    requires IsKey(key) && forall a :: a in env.anchors ==> !SameKey(key, a)
    ensures ValidateChain(env, Net(dnskeys, z => []), ZONE_A, [key], 0) == Insecure
  {
    NoDsIsInsecure(env, Net(dnskeys, z => []), ZONE_A, [key]);
  }
}
