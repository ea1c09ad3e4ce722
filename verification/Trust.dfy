/**
 * What a verdict of the chain walk of src/dnssec/mod.rs rests on, spelled out: serial-number time windows (RFC 1982),
 * key tags (appendix B of RFC 4034), signatures and digests.
 */
module Trust {
  import opened Bytes
  import opened NameText
  import opened Messages
  import opened Signing
  import opened Chain
  import opened RRsets
  import opened Responses
  import opened Denial
  import opened DenialVerdicts
  import opened Filters

  // --- Time ---

  const HALF := 0x8000_0000

  /** Counting up from `from`, fewer than 2^31 seconds lead to `to`. */
  ghost predicate Ahead(from: u32, to: u32) { exists d: nat :: d < HALF && Later(from, d) == to }

  function Later(from: u32, d: nat): u32 { (from + d) % WRAP }

  /** Inception reached, or no more than 300 seconds away, and expiration not passed. */
  ghost predicate InForce(now: u32, sig: RData)
    requires sig.RRSIG?
  {
    (Ahead(sig.inception, now) || sig.inception <= (now + 300) % WRAP) && Ahead(now, sig.expiration)
  }

  lemma AheadIff(from: u32, to: u32)
    ensures Ahead(from, to) <==> (to - from) % WRAP < HALF
  {
    var d: nat := (to - from) % WRAP;
    assert Later(from, d) == to by {
      assert d == if to >= from then to - from else to - from + WRAP;
    }
    if e: nat :| e < HALF && Later(from, e) == to {
      assert from + e == to || from + e == to + WRAP;
      assert d == e;
    }
  }

  lemma TimeValidIff(now: u32, sig: RData)
    requires sig.RRSIG?
    ensures TimeValid(now, sig.expiration, sig.inception) <==> InForce(now, sig)
  {
    AheadIff(sig.inception, now);
    AheadIff(now, sig.expiration);
    hide Ahead;
  }

  /**
   * For times less than 2^31 seconds apart, the window is from 300 seconds before inception to expiration,
   * inclusive.
   */
  lemma Window(now: u32, expiration: u32, inception: u32)
    requires -HALF < now - expiration < HALF && -HALF < now - inception < HALF && now + 300 < WRAP
    ensures TimeValid(now, expiration, inception) <==> inception <= now + 300 && now <= expiration
  {
  }

  // --- Key tags and digests ---

  /** The sum of the 16-bit words of an octet string, a last odd octet counting as the high half of one. */
  function Words(s: bytes): nat {
    if |s| >= 2 then Rd16(s, 0) + Words(s[2..]) else if |s| == 1 then s[0] as int * 0x100 else 0
  }

  /** Appendix B of RFC 4034: the words of the DNSKEY RDATA, with the carry of the sum added once. */
  function Tag(key: RData): u16
    requires key.DNSKEY?
  {
    var sum := Words(Flatten(key));
    (sum + sum / 0x1_0000 % 0x1_0000) % 0x1_0000
  }

  lemma {:induction false} WordSums(s: bytes)
    ensures WordSum(s, true) == Words(s)
    decreases |s|
  {
    if |s| >= 2 {
      WordSums(s[2..]);
      assert s[1..][1..] == s[2..];
      assert WordSum(s[1..], false) == s[1] as int + WordSum(s[2..], true);
    } else if |s| == 1 {
      assert s[1..] == [];
    }
  }

  lemma TagIff(key: RData)
    requires key.DNSKEY?
    ensures KeyTag(key) == Tag(key)
  {
    hide Be16;
    assert KeyRData(key) == Flatten(key);
    WordSums(Flatten(key));
  }

  // --- One signature, one DS record ---

  /** The signature over the RRset is by this key, in force, and cryptographically good. */
  ghost predicate Signed(env: Env, sig: Record, key: Record, rrset: seq<Record>) {
    && sig.parsed.Some? && sig.parsed.value.RRSIG? && key.parsed.Some? && key.parsed.value.DNSKEY?
    && var s, k := sig.parsed.value, key.parsed.value;
       && s.algorithm == k.algorithm && s.keyTag == Tag(k) && InForce(env.now, s)
       && env.crypto.verify(s.algorithm, k.publicKey, SignedData(sig, rrset), s.signature)
  }

  lemma SignedIff(env: Env, sig: Record, key: Record, rrset: seq<Record>)
    ensures VerifiedBy(env, sig, key, rrset) <==> Signed(env, sig, key, rrset)
  {
    hide TimeValid, KeyTag, Tag, SignedData, InForce;
    if sig.parsed.Some? && sig.parsed.value.RRSIG? { TimeValidIff(env.now, sig.parsed.value); }
    if key.parsed.Some? && key.parsed.value.DNSKEY? { TagIff(key.parsed.value); }
  }

  /** The DS record commits to the key: same tag and algorithm, SHA-256 or SHA-384 digest of owner and key RDATA. */
  predicate Commits(env: Env, ds: Record, key: Record, owner: bytes) {
    && ds.parsed.Some? && ds.parsed.value.DS? && key.parsed.Some? && key.parsed.value.DNSKEY?
    && var d, k := ds.parsed.value, key.parsed.value;
       && d.digestType in {2, 4} && d.algorithm == k.algorithm && d.keyTag == Tag(k)
       && env.crypto.digest(d.digestType, NameToWire(owner) + Flatten(k)) == d.digest
  }

  lemma CommitsIff(env: Env, ds: Record, key: Record, owner: bytes)
    ensures DsMatches(env, ds, key, owner) <==> Commits(env, ds, key, owner)
  {
    hide KeyTag, Tag, NameToWire, Be16;
    if key.parsed.Some? && key.parsed.value.DNSKEY? {
      TagIff(key.parsed.value);
      assert KeyRData(key.parsed.value) == Flatten(key.parsed.value);
    }
  }

  // --- The path ---

  predicate Holds(rs: seq<Record>, rtype: u16) { exists r :: r in rs && r.rtype == rtype }

  /** Some signature among the records over their RRset of a type, by one of the keys. */
  ghost predicate SignedRRset(env: Env, rs: seq<Record>, rtype: u16, sig: Record, key: Record, keys: seq<Record>) {
    && Holds(rs, rtype) && sig in rs && key in keys
    && sig.parsed.Some? && sig.parsed.value.RRSIG? && sig.parsed.value.typeCovered == rtype
    && Signed(env, sig, key, OfType(rs, rtype))
  }

  /** The same public key for the same algorithm; flags may differ. */
  predicate KeysAgree(k: Record, a: Record) {
    && k.parsed.Some? && k.parsed.value.DNSKEY? && a.parsed.Some? && a.parsed.value.DNSKEY?
    && k.parsed.value.algorithm == a.parsed.value.algorithm && k.parsed.value.publicKey == a.parsed.value.publicKey
  }

  predicate AnchorAmong(env: Env, rs: seq<Record>) { exists k, a :: k in rs && a in env.anchors && KeysAgree(k, a) }

  lemma AnchorIff(env: Env, rs: seq<Record>)
    ensures HasAnchor(env, rs) <==> AnchorAmong(env, rs)
  {
    forall k, a ensures SameKey(k, a) <==> KeysAgree(k, a) {}
    hide SameKey, KeysAgree;
  }

  /** Key set and anchors share a key, and an anchor signs the set. */
  ghost predicate IsTop(env: Env, top: Link) {
    && AnchorAmong(env, top.records)
    && exists sig, key :: SignedRRset(env, top.records, 48, sig, key, env.anchors)
  }

  /**
   * A key of the child signs its key set; a DS record of the child commits to that key; the parent signs the DS
   * RRset.
   */
  ghost predicate IsStep(env: Env, net: Net, child: Link, parent: Link) {
    && !AnchorAmong(env, child.records) && child.zone != [46] && child.zone != []
    && parent.zone == ParentZone(child.zone) && parent.records == net.dnskeys(parent.zone) && parent.records != []
    && (exists sig, key, ds :: SignedRRset(env, child.records, 48, sig, key, child.records)
                               && ds in net.ds(child.zone) && Commits(env, ds, key, child.zone))
    && exists sig, key :: SignedRRset(env, net.ds(child.zone), 43, sig, key, parent.records)
  }

  ghost predicate IsPath(env: Env, net: Net, path: seq<Link>) {
    && path != [] && IsTop(env, path[|path| - 1])
    && forall i :: 0 <= i < |path| - 1 ==> IsStep(env, net, path[i], path[i + 1])
  }

  lemma HoldsIff(rs: seq<Record>, rtype: u16)
    ensures Holds(rs, rtype) <==> OfType(rs, rtype) != []
  {
    if r :| r in rs && r.rtype == rtype { assert r in OfType(rs, rtype); }
    if OfType(rs, rtype) != [] { assert OfType(rs, rtype)[0] in OfType(rs, rtype); }
  }

  lemma TopIff(env: Env, top: Link)
    ensures Anchored(env, top) <==> IsTop(env, top)
  {
    hide VerifiedBy, Signed, HasAnchor, AnchorAmong, OfType, Holds;
    AnchorIff(env, top.records);
    HoldsIff(top.records, 48);
    forall sig, key
      ensures VerifiedBy(env, sig, key, OfType(top.records, 48)) <==> Signed(env, sig, key, OfType(top.records, 48))
    {
      SignedIff(env, sig, key, OfType(top.records, 48));
    }
    if Anchored(env, top) {
      var sig, key :| sig in top.records && key in env.anchors && CoversType(sig, DNSKEY_TYPE)
        && VerifiedBy(env, sig, key, OfType(top.records, DNSKEY_TYPE)) && OfType(top.records, DNSKEY_TYPE) != [];
      assert SignedRRset(env, top.records, 48, sig, key, env.anchors);
    }
  }

  lemma SelfIff(env: Env, net: Net, child: Link)
    ensures SelfSigned(env, net, child) <==>
              exists sig, key, ds :: SignedRRset(env, child.records, 48, sig, key, child.records)
                                     && ds in net.ds(child.zone) && Commits(env, ds, key, child.zone)
  {
    hide VerifiedBy, Signed, OfType, Holds, DsMatches, Commits;
    HoldsIff(child.records, 48);
    var rrset := OfType(child.records, 48);
    forall sig, key ensures VerifiedBy(env, sig, key, rrset) <==> Signed(env, sig, key, rrset) {
      SignedIff(env, sig, key, rrset);
    }
    forall ds, key ensures DsMatches(env, ds, key, child.zone) <==> Commits(env, ds, key, child.zone) {
      CommitsIff(env, ds, key, child.zone);
    }
    if SelfSigned(env, net, child) {
      var sig, key, ds :| sig in child.records && key in child.records && ds in net.ds(child.zone)
        && CoversType(sig, DNSKEY_TYPE) && DsMatches(env, ds, key, child.zone)
        && VerifiedBy(env, sig, key, OfType(child.records, DNSKEY_TYPE)) && OfType(child.records, DNSKEY_TYPE) != [];
      assert SignedRRset(env, child.records, 48, sig, key, child.records);
    }
  }

  lemma DsIff(env: Env, net: Net, child: Link, parent: Link)
    ensures DsSigned(env, net, child, parent) <==>
              exists sig, key :: SignedRRset(env, net.ds(child.zone), 43, sig, key, parent.records)
  {
    hide VerifiedBy, Signed, OfType, Holds;
    HoldsIff(net.ds(child.zone), 43);
    var rrset := OfType(net.ds(child.zone), 43);
    forall sig, key ensures VerifiedBy(env, sig, key, rrset) <==> Signed(env, sig, key, rrset) {
      SignedIff(env, sig, key, rrset);
    }
    if DsSigned(env, net, child, parent) {
      var sig, key :| sig in net.ds(child.zone) && key in parent.records && CoversType(sig, DS_TYPE)
        && VerifiedBy(env, sig, key, OfType(net.ds(child.zone), DS_TYPE));
      assert SignedRRset(env, net.ds(child.zone), 43, sig, key, parent.records);
    }
  }

  lemma StepIff(env: Env, net: Net, child: Link, parent: Link)
    ensures IsStep(env, net, child, parent) <==>
              StepsUp(env, net, child, parent) && DsSigned(env, net, child, parent)
  {
    hide SelfSigned, DsSigned, SignedRRset, Commits, HasAnchor, AnchorAmong, ParentZone;
    AnchorIff(env, child.records);
    SelfIff(env, net, child);
    DsIff(env, net, child, parent);
  }

  lemma PathIff(env: Env, net: Net, path: seq<Link>)
    ensures TrustPath(env, net, path) <==> IsPath(env, net, path)
  {
    hide Anchored, IsTop, IsStep, StepsUp, DsSigned;
    if path != [] { TopIff(env, path[|path| - 1]); }
    forall i | 0 <= i < |path| - 1
      ensures IsStep(env, net, path[i], path[i + 1]) <==>
                StepsUp(env, net, path[i], path[i + 1]) && DsSigned(env, net, path[i], path[i + 1])
    {
      StepIff(env, net, path[i], path[i + 1]);
    }
  }

  /**
   * Secure, from depth 0, exactly when there is a path of at most eleven zones, every signature on it good and in
   * force.
   */
  lemma SecureSpelledOut(env: Env, net: Net, zone: bytes, records: seq<Record>)
    ensures ValidateChain(env, net, zone, records, 0) == Secure <==>
              exists path :: IsPath(env, net, path) && path[0] == Link(zone, records) && |path| <= 11
  {
    hide ValidateChain, TrustPath, IsPath;
    SecureIffTrusted(env, net, zone, records);
    forall path ensures TrustPath(env, net, path) <==> IsPath(env, net, path) { PathIff(env, net, path); }
  }

  // --- Signatures out of force ---

  /** Expired, or not yet in force by more than 300 seconds, by at most 2^31 seconds. */
  predicate Stale(now: u32, sig: RData)
    requires sig.RRSIG?
  {
    0 < now - sig.expiration <= HALF || (now + 300 < sig.inception && sig.inception - now <= HALF)
  }

  lemma StaleNotInForce(now: u32, sig: RData)
    requires sig.RRSIG? && Stale(now, sig)
    ensures !InForce(now, sig)
  {
    AheadIff(sig.inception, now);
    AheadIff(now, sig.expiration);
    hide Ahead;
  }

  predicate AllStale(now: u32, rs: seq<Record>, rtype: u16) {
    forall r :: r in rs && r.parsed.Some? && r.parsed.value.RRSIG? && r.parsed.value.typeCovered == rtype ==>
      Stale(now, r.parsed.value)
  }

  lemma StaleRRset(env: Env, rs: seq<Record>, rtype: u16, sig: Record, key: Record, keys: seq<Record>)
    requires AllStale(env.now, rs, rtype)
    ensures !SignedRRset(env, rs, rtype, sig, key, keys)
  {
    hide Stale, InForce, OfType, Holds, Tag;
    if sig in rs && sig.parsed.Some? && sig.parsed.value.RRSIG? && sig.parsed.value.typeCovered == rtype {
      StaleNotInForce(env.now, sig.parsed.value);
    }
  }

  /** The first zone of a path has its key set signed. */
  lemma KeysSigned(env: Env, net: Net, path: seq<Link>) returns (sig: Record, key: Record, keys: seq<Record>)
    requires IsPath(env, net, path)
    ensures SignedRRset(env, path[0].records, 48, sig, key, keys)
  {
    hide SignedRRset, Commits, AnchorAmong;
    var top := path[0];
    if |path| == 1 {
      keys := env.anchors;
      sig, key :| SignedRRset(env, top.records, 48, sig, key, env.anchors);
    } else {
      keys := top.records;
      assert IsStep(env, net, path[0], path[1]);
      var ds;
      sig, key, ds :| SignedRRset(env, top.records, 48, sig, key, top.records)
                      && ds in net.ds(top.zone) && Commits(env, ds, key, top.zone);
    }
  }

  /** Unless it is anchored, it has its DS records signed. */
  lemma DsRecordsSigned(env: Env, net: Net, path: seq<Link>) returns (sig: Record, key: Record, keys: seq<Record>)
    requires IsPath(env, net, path) && !HasAnchor(env, path[0].records)
    ensures SignedRRset(env, net.ds(path[0].zone), 43, sig, key, keys)
  {
    hide SignedRRset, Commits, HasAnchor, AnchorAmong;
    AnchorIff(env, path[0].records);
    assert |path| > 1;
    assert IsStep(env, net, path[0], path[1]);
    keys := path[1].records;
    sig, key :| SignedRRset(env, net.ds(path[0].zone), 43, sig, key, path[1].records);
  }

  /** A key set whose signatures are all expired or not yet in force is not Secure, at any depth. */
  lemma StaleKeysNotSecure(env: Env, net: Net, zone: bytes, records: seq<Record>, depth: nat)
    requires AllStale(env.now, records, 48)
    ensures ValidateChain(env, net, zone, records, depth) != Secure
  {
    hide *;
    if ValidateChain(env, net, zone, records, depth) == Secure {
      var path := SecureHasPath(env, net, zone, records, depth);
      PathIff(env, net, path);
      var sig, key, keys := KeysSigned(env, net, path);
      StaleRRset(env, records, 48, sig, key, keys);
    }
  }

  /** Neither is a zone without anchor all of whose DS signatures are. */
  lemma StaleDsNotSecure(env: Env, net: Net, zone: bytes, records: seq<Record>, depth: nat)
    requires AllStale(env.now, net.ds(zone), 43) && !HasAnchor(env, records)
    ensures ValidateChain(env, net, zone, records, depth) != Secure
  {
    hide *;
    if ValidateChain(env, net, zone, records, depth) == Secure {
      var path := SecureHasPath(env, net, zone, records, depth);
      PathIff(env, net, path);
      var sig, key, keys := DsRecordsSigned(env, net, path);
      StaleRRset(env, net.ds(zone), 43, sig, key, keys);
    }
  }

  lemma SignedInForce(env: Env, sig: Record, key: Record, rrset: seq<Record>)
    requires Signed(env, sig, key, rrset)
    ensures sig.parsed.Some? && sig.parsed.value.RRSIG? && InForce(env.now, sig.parsed.value)
  {
  }

  /** An RRset verifies with no signature that is expired or not yet in force. */
  lemma StaleNotVerified(env: Env, nets: Nets, sigs: seq<Record>, rrset: seq<Record>)
    requires AllSigs(sigs) && forall j :: 0 <= j < |sigs| ==> Stale(env.now, sigs[j].parsed.value)
    ensures !VerifyFrom(env, nets, sigs, rrset, 0)
  {
    hide VerifyFrom, Stale, InForce, Signed, DecidedAt, Select, Fetched;
    VerifiedIffDecided(env, nets, sigs, rrset);
    if j: nat, k: nat :| DecidedAt(env, nets, sigs, rrset, j, k) {
      DecidedSigned(env, nets, sigs, rrset, j, k);
      SignedInForce(env, sigs[j], Select(IsKey, Fetched(nets, sigs, j))[k], rrset);
      StaleNotInForce(env.now, sigs[j].parsed.value);
    }
  }

  lemma DecidedSigned(env: Env, nets: Nets, sigs: seq<Record>, rrset: seq<Record>, j: nat, k: nat)
    requires AllSigs(sigs) && DecidedAt(env, nets, sigs, rrset, j, k)
    ensures j < |sigs| && k < |Select(IsKey, Fetched(nets, sigs, j))|
    ensures Signed(env, sigs[j], Select(IsKey, Fetched(nets, sigs, j))[k], rrset)
  {
    hide VerifiedBy, Signed, ValidateChain;
    SignedIff(env, sigs[j], Select(IsKey, Fetched(nets, sigs, j))[k], rrset);
  }

  // --- One attempt at an RRset ---

  /** An attempt verifies with a good signature and a trusted key set, and otherwise decides only on a bogus chain. */
  lemma AttemptIff(env: Env, nets: Nets, sigs: seq<Record>, rrset: seq<Record>, j: nat, k: nat)
    requires j < |sigs| && IsSig(sigs[j]) && k < KeyCount(nets, sigs, j)
    ensures var o := Attempt(env, nets, sigs, rrset, j, k);
            var keys, net, signer := Fetched(nets, sigs, j), nets(j, k + 1), Signer(sigs[j]);
            var good := Signed(env, sigs[j], Select(IsKey, keys)[k], rrset);
            && (o == Verified <==> good && Trusted(env, net, signer, keys))
            && (o == ChainBogus <==> good && ValidateChain(env, net, signer, keys, 0) == Bogus)
  {
    hide VerifiedBy, Signed, ValidateChain, Trusted;
    SignedIff(env, sigs[j], Select(IsKey, Fetched(nets, sigs, j))[k], rrset);
    SecureIffTrusted(env, nets(j, k + 1), Signer(sigs[j]), Fetched(nets, sigs, j));
  }

  /** A signature matches an RRset when it covers its type and its signer is the RRset's owner. */
  lemma MatchingIff(sigs: seq<Record>, name: bytes, rtype: u16, sig: Record)
    ensures sig in Matching(sigs, name, rtype) <==>
              sig in sigs && sig.parsed.Some? && sig.parsed.value.RRSIG?
              && sig.parsed.value.typeCovered == rtype && sig.parsed.value.signerName == name
  {
  }

  // --- Parents ---

  lemma {:induction false} AfterFirstDot(a: bytes, rest: bytes)
    requires DOT !in a
    ensures AfterDot(a + [DOT] + rest) == rest
  {
    var s := a + [DOT] + rest;
    if a != [] {
      AfterFirstDot(a[1..], rest);
      assert s[1..] == a[1..] + [DOT] + rest;
    }
  }

  lemma {:induction false} NoDotLeft(a: bytes)
    requires DOT !in a
    ensures AfterDot(a) == [DOT]
  {
    if a != [] { NoDotLeft(a[1..]); }
  }

  /** The parent of a zone is its name without the first label, and the root for a zone of one label. */
  lemma ParentIsTail(ls: seq<bytes>)
    requires ls != [] && AllDotFree(ls) && ls[0] != []
    ensures !IsRoot(Join(ls)) && ParentZone(Join(ls)) == if |ls| == 1 then [DOT] else Join(ls[1..])
  {
    if |ls| == 1 {
      NoDotLeft(ls[0]);
    } else {
      AfterFirstDot(ls[0], Join(ls[1..]));
    }
  }

  // --- Indeterminate and Bogus ---

  /**
   * The walk climbs self-signed links and then meets an unanchored root, a parent without records, or its depth
   * limit.
   */
  ghost predicate OpenPath(env: Env, net: Net, path: seq<Link>, depth: nat) {
    && path != [] && depth <= MAX_CHAIN_DEPTH + 1 && |path| <= MAX_CHAIN_DEPTH + 2 - depth
    && (forall i :: 0 <= i < |path| - 1 ==> StepsUp(env, net, path[i], path[i + 1]))
    && var last := path[|path| - 1];
       || |path| == MAX_CHAIN_DEPTH + 2 - depth
       || (!HasAnchor(env, last.records) && IsRoot(last.zone))
       || (!HasAnchor(env, last.records) && !IsRoot(last.zone) && SelfSigned(env, net, last)
           && net.dnskeys(ParentZone(last.zone)) == [])
  }

  lemma {:induction false} IndeterminateHasPath(env: Env, net: Net, zone: bytes, records: seq<Record>, depth: nat)
      returns (path: seq<Link>)
    requires depth <= MAX_CHAIN_DEPTH + 1 && ValidateChain(env, net, zone, records, depth) == Indeterminate
    ensures OpenPath(env, net, path, depth) && path[0] == Link(zone, records)
    decreases MAX_CHAIN_DEPTH + 1 - depth
  {
    hide HasAnchor, RRsetSigned, MatchedKeys, SelfSigned, ParentZone, IsRoot, Select;
    var here := Link(zone, records);
    path := [here];
    if depth <= MAX_CHAIN_DEPTH && !IsRoot(zone) {
      SelfSignedIff(env, net, here);
      var parent := ParentZone(zone);
      if net.dnskeys(parent) != [] {
        var rest := IndeterminateHasPath(env, net, parent, net.dnskeys(parent), depth + 1);
        path := [here] + rest;
        forall i | 0 <= i < |path| - 1 ensures StepsUp(env, net, path[i], path[i + 1]) {
          if i > 0 { assert path[i] == rest[i - 1] && path[i + 1] == rest[i]; }
        }
      }
    }
  }

  lemma {:induction false} PathIsIndeterminate(env: Env, net: Net, depth: nat, path: seq<Link>)
    requires OpenPath(env, net, path, depth)
    ensures ValidateChain(env, net, path[0].zone, path[0].records, depth) == Indeterminate
    decreases |path|
  {
    hide HasAnchor, RRsetSigned, MatchedKeys, SelfSigned, ParentZone, IsRoot, Select;
    if depth <= MAX_CHAIN_DEPTH {
      SelfSignedIff(env, net, path[0]);
      if |path| > 1 {
        var rest := path[1..];
        assert StepsUp(env, net, path[0], path[1]);
        forall i | 0 <= i < |rest| - 1 ensures StepsUp(env, net, rest[i], rest[i + 1]) {
          assert rest[i] == path[i + 1] && rest[i + 1] == path[i + 2];
        }
        PathIsIndeterminate(env, net, depth + 1, rest);
      }
    }
  }

  /** Indeterminate exactly with such a path; whatever is neither this nor Secure nor Insecure is Bogus. */
  lemma IndeterminateIff(env: Env, net: Net, zone: bytes, records: seq<Record>)
    ensures ValidateChain(env, net, zone, records, 0) == Indeterminate <==>
              exists path :: OpenPath(env, net, path, 0) && path[0] == Link(zone, records)
  {
    hide ValidateChain, HasAnchor, StepsUp, SelfSigned, IsRoot, ParentZone;
    if ValidateChain(env, net, zone, records, 0) == Indeterminate {
      var path := IndeterminateHasPath(env, net, zone, records, 0);
    }
    if path :| OpenPath(env, net, path, 0) && path[0] == Link(zone, records) {
      PathIsIndeterminate(env, net, 0, path);
    }
  }

  // --- RRsets, and the signatures of denials ---

  function OfOwner(name: bytes, t: u16): Record -> bool {
    (r: Record) => !(r.parsed.Some? && r.parsed.value.RRSIG?) && r.name == name && r.rtype == t
  }

  /** The RRset a signature is checked over: the records of its type, in order. */
  lemma {:induction false} OfTypeIs(rs: seq<Record>, t: u16)
    ensures OfType(rs, t) == Filter(rs, HasType(t))
  {
    if rs != [] { OfTypeIs(rs[1..], t); }
  }

  /** A group's members: the records of its owner and type, signatures left aside, in order. */
  lemma {:induction false} MembersIs(rs: seq<Record>, name: bytes, t: u16)
    ensures Members(rs, name, t) == Filter(rs, OfOwner(name, t))
  {
    if rs != [] {
      var n := |rs| - 1;
      MembersIs(rs[..n], name, t);
      FilterSnoc(rs[..n], rs[n], OfOwner(name, t));
      assert rs == rs[..n] + [rs[n]];
    }
  }

  /** Signature `i` is the first that names this signer and covers this type. */
  predicate FirstBy(sigs: seq<Record>, name: bytes, t: u16, i: nat) {
    i < |sigs| && IsBy(sigs[i], name, t) && forall j :: 0 <= j < i ==> !IsBy(sigs[j], name, t)
  }

  predicate IsBy(r: Record, name: bytes, t: u16) {
    r.parsed.Some? && r.parsed.value.RRSIG? && r.parsed.value.typeCovered == t && r.parsed.value.signerName == name
  }

  lemma {:induction false} CoveringSigIs(sigs: seq<Record>, name: bytes, t: u16) returns (i: nat)
    ensures match CoveringSig(sigs, name, t)
            case Some(sig) => FirstBy(sigs, name, t, i) && sigs[i] == sig
            case None => forall j :: 0 <= j < |sigs| ==> !IsBy(sigs[j], name, t)
  {
    i := 0;
    if sigs != [] && !IsBy(sigs[0], name, t) {
      var k := CoveringSigIs(sigs[1..], name, t);
      i := k + 1;
      assert forall j :: 1 <= j < |sigs| ==> sigs[j] == sigs[1..][j - 1];
    }
  }

  lemma FirstByOne(sigs: seq<Record>, name: bytes, t: u16, i: nat, j: nat)
    requires FirstBy(sigs, name, t, i) && FirstBy(sigs, name, t, j)
    ensures i == j
  {
    hide IsBy;
  }

  /** A cached key of the owner made the owner's first signature over all its records of the type. */
  ghost predicate SignedByOwner(env: Env, authorities: seq<Record>, name: bytes, t: u16, sigs: seq<Record>,
                                cached: bytes -> Option<seq<Record>>, i: nat, key: Record) {
    && FirstBy(sigs, name, t, i) && cached(name).Some? && key in cached(name).value
    && Signed(env, sigs[i], key, Filter(authorities, OfOwner(name, t)))
  }

  lemma OwnerVerifiedIff(env: Env, authorities: seq<Record>, name: bytes, t: u16, sigs: seq<Record>,
                         cached: bytes -> Option<seq<Record>>)
    ensures OwnerVerified(env, authorities, name, t, sigs, cached) <==>
              exists i, key :: SignedByOwner(env, authorities, name, t, sigs, cached, i, key)
  {
    MembersIs(OfType(authorities, t), name, t);
    OfTypeIs(authorities, t);
    FilterTwice(authorities, HasType(t), OfOwner(name, t));
    var rrset := Filter(authorities, OfOwner(name, t));
    var at := CoveringSigIs(sigs, name, t);
    hide Signed, VerifiedBy, IsBy, CoveringSig, Members, OfType, Filter;
    forall sig, key ensures VerifiedBy(env, sig, key, rrset) <==> Signed(env, sig, key, rrset) {
      SignedIff(env, sig, key, rrset);
    }
    if i: nat, key :| SignedByOwner(env, authorities, name, t, sigs, cached, i, key) {
      assert CoveringSig(sigs, name, t).Some?;
      FirstByOne(sigs, name, t, i, at);
    }
    if OwnerVerified(env, authorities, name, t, sigs, cached) {
      var key :| key in cached(name).value && VerifiedBy(env, sigs[at], key, rrset);
      assert SignedByOwner(env, authorities, name, t, sigs, cached, at, key);
    }
  }

  // --- Whole responses ---

  /** Signatures are collected from all three sections. */
  lemma AllRrsigsIff(m: Message, sig: Record)
    ensures sig in AllRrsigs(m) <==>
              (sig in m.answers || sig in m.authorities || sig in m.additionals)
              && sig.parsed.Some? && sig.parsed.value.RRSIG?
  {
  }

  /**
   * A signed response without answers, whose authorities hold the whole ring, is Secure exactly when the owners of
   * the NSEC records are verified and its response code is right about the first question: with code 3 the name is no
   * owner, and else it is an owner with neither the type nor CNAME.
   */
  lemma NegativeResponseIff(z: Zone, env: Env, nets: nat -> Nets, m: Message, cached: bytes -> Option<seq<Record>>)
    requires ValidZone(z) && m.questions != [] && GroupUp(m.answers) == [] && AllRrsigs(m) != []
    requires FromRing(z, Select(IsNsec, m.authorities)) && WholeRing(z, Select(IsNsec, m.authorities))
    requires m.header.rcode == 3 || IsPlain(ToText(m.questions[0].qname))
    ensures var qname, qtype := ToText(m.questions[0].qname), m.questions[0].qtype;
            ValidateResponse(env, nets, m, cached) == Secure <==>
              AuthorityVerified(env, m.authorities, AllRrsigs(m), NSEC_TYPE, cached)
              && if m.header.rcode == 3 then !IsOwner(z, qname) else HasNoData(z, qname, qtype)
  {
    hide GroupUp, AllRrsigs, AuthorityVerified, ValidateDenial, FromRing, WholeRing, ValidZone, IsOwner, HasNoData,
        ToText,
      IsPlain;
    DenialSecureIff(z, env, m.authorities, AllRrsigs(m), ToText(m.questions[0].qname), m.questions[0].qtype,
                    m.header.rcode == 3, cached);
  }
}
