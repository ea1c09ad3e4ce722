/** Zones for which src/dnssec/mod.rs proves NXDOMAIN wrongly: a wildcard answers the name, or the name exists. */
module Wildcards {
  import opened Bytes
  import opened Names
  import opened NameText
  import opened NameOrder
  import opened Messages
  import opened Signing
  import opened Chain
  import opened RRsets
  import opened Denial
  import opened DenialVerdicts
  import opened Enclosers
  import TypeBitmap

  /** A label that reads the same in text and in wire form. */
  predicate Plain(l: bytes) { IsLabel(l) && Utf8Valid(l) && DotFree(l) }

  function Star(): bytes { [STAR] }

  lemma StarPlain()
    ensures Plain(Star()) && Lower(Star()) == Star()
  {
    assert Star()[1..] == [];
  }

  predicate AllPlain(ls: Labels) { forall i :: 0 <= i < |ls| ==> Plain(ls[i]) }

  lemma PlainForms(ls: Labels)
    requires ls != [] && AllPlain(ls)
    ensures AreLabels(ls) && ToText(Wire(ls)) == Join(ls) && TextLabels(Join(ls)) == ls && IsPlain(Join(ls))
    ensures Key(Join(ls)) == LowerLabels(Reverse(ls))
  {
    hide Utf8Valid, ToText, Join;
    PlainText(ls);
    assert AllNonEmpty(ls);
    TextLabelsOfJoin(ls);
  }

  lemma PlainText(ls: Labels)
    requires ls != [] && AllPlain(ls)
    ensures AreLabels(ls) && ToText(Wire(ls)) == Join(ls)
  {
    hide Utf8Valid, Join, Wire, Parts;
    PartsWire(ls);
  }

  lemma Reversed<T>(x: T, y: T, z: T)
    ensures Reverse([x]) == [x] && Reverse([x, y]) == [y, x] && Reverse([x, y, z]) == [z, y, x]
  {
    assert [x][1..] == [] && [x, y][1..] == [y] && [y][1..] == [] && [x, y, z][1..] == [y, z] && [y, z][1..] == [z];
    assert Reverse([z]) == [z] && Reverse([y]) == [y] && Reverse([y, z]) == [z, y];
  }

  /** Names of up to three labels, as the canonical order sees them. */
  lemma Keys(a: bytes, b: bytes, c: bytes)
    requires Plain(a) && Plain(b) && Plain(c)
    ensures Key(Join([a])) == [Lower(a)] && Key(Join([b, a])) == [Lower(a), Lower(b)]
    ensures Key(Join([c, b, a])) == [Lower(a), Lower(b), Lower(c)]
  {
    hide Plain, Join, Key, TextLabels, IsPlain, ToText, Wire, Lower, Reverse;
    Reversed(a, b, c);
    Reversed(b, a, a);
    Reversed(c, b, a);
    PlainForms([a]);
    PlainForms([b, a]);
    PlainForms([c, b, a]);
    assert LowerLabels([a]) == [Lower(a)] && LowerLabels([a, b]) == [Lower(a), Lower(b)];
    assert LowerLabels([a, b, c]) == [Lower(a), Lower(b), Lower(c)];
  }

  // --- Zones of two owners ---

  /** A name below the apex `a`. */
  predicate Below(a: bytes, w: Labels) { |w| > 1 && AllPlain(w) && w[|w| - 1] == a }

  /** The apex with an NS record and one name below it with an address. */
  function ZoneOf(a: bytes, w: Labels): Zone
    requires w != []
  {
    Zone([Join([a]), Join(w)], [{2}, {1}])
  }

  function NsecOf(owner: Labels, next: Labels, types: set<u16>): Record
    requires AreLabels(owner) && AreLabels(next)
  {
    RecordOf(Wire(owner), NSEC_TYPE, 0, NSEC(Wire(next), TypeBitmap.EncodeTypes(types)))
  }

  lemma ArePlain(a: bytes, w: Labels)
    requires Below(a, w)
    ensures Plain(a) && AllPlain([a]) && AreLabels([a]) && AreLabels(w)
  {
    hide Utf8Valid, DotFree;
  }

  function RingOf(a: bytes, w: Labels): seq<Record>
    requires Below(a, w)
  {
    ArePlain(a, w);
    [NsecOf([a], w, {2}), NsecOf(w, [a], {1})]
  }

  lemma {:induction false} LastFirst<T>(s: seq<T>)
    requires s != []
    ensures Reverse(s)[0] == s[|s| - 1]
  {
    if |s| > 1 { LastFirst(s[1..]); }
  }

  /** The apex comes before what is below it. */
  lemma ApexFirst(a: bytes, w: Labels)
    requires Below(a, w)
    ensures Compare(Join([a]), Join(w)) == Less
  {
    ArePlain(a, w);
    hide Plain, Join, Compare, Key, Lower, TextLabels, IsPlain, ToText, Wire;
    PlainForms([a]);
    PlainForms(w);
    LastFirst(w);
    Reversed(a, a, a);
    hide Reverse;
    var k, l := Key(Join([a])), Key(Join(w));
    assert k == [Lower(a)] && l[0] == Lower(a);
    assert k[..1] == l[..1];
    assert Precedes(k, l);
    CompareIffPrecedes(Join([a]), Join(w));
  }

  lemma ZoneOfValid(a: bytes, w: Labels)
    requires Below(a, w)
    ensures ValidZone(ZoneOf(a, w))
  {
    ArePlain(a, w);
    hide Plain, Join, Compare, IsPlain, TextLabels, Key, ToText, Wire;
    PlainForms([a]);
    PlainForms(w);
    ApexFirst(a, w);
  }

  lemma NsecOfAt(z: Zone, i: nat, owner: Labels, next: Labels, types: set<u16>)
    requires ValidZone(z) && i < |z.owners| && owner != [] && next != [] && AllPlain(owner) && AllPlain(next)
    requires z.owners[i] == Join(owner) && Next(z, i) == Join(next) && z.types[i] == types
    ensures AreLabels(owner) && AreLabels(next) && NsecAt(z, i, NsecOf(owner, next, types))
  {
    hide ToText, Join, Wire, Plain, ValidZone;
    PlainText(owner);
    PlainText(next);
  }

  lemma RingOfTwo(z: Zone, r: Record, s: Record)
    requires ValidZone(z) && |z.owners| == 2 && NsecAt(z, 0, r) && NsecAt(z, 1, s)
    ensures FromRing(z, [r, s]) && WholeRing(z, [r, s])
  {
    hide NsecAt, ValidZone;
    var rs := [r, s];
    assert rs[0] in rs && rs[1] in rs;
    assert Supplied(z, 0, rs) && Supplied(z, 1, rs);
  }

  lemma RingOfWhole(a: bytes, w: Labels)
    requires Below(a, w) && ValidZone(ZoneOf(a, w))
    ensures FromRing(ZoneOf(a, w), RingOf(a, w)) && WholeRing(ZoneOf(a, w), RingOf(a, w))
  {
    ArePlain(a, w);
    hide ValidZone, Join, Plain, NsecAt, NsecOf, FromRing, WholeRing;
    var z := ZoneOf(a, w);
    NsecOfAt(z, 0, [a], w, {2});
    NsecOfAt(z, 1, w, [a], {1});
    RingOfTwo(z, RingOf(a, w)[0], RingOf(a, w)[1]);
  }

  /** Ownership and existence in such a zone, by keys. */
  lemma InZone(a: bytes, w: Labels, name: bytes)
    requires w != []
    ensures IsOwner(ZoneOf(a, w), name) <==> Key(Join([a])) == Key(name) || Key(Join(w)) == Key(name)
  {
    hide Key, Join, Compare, IsOwner;
    OwnerByKey(ZoneOf(a, w), name);
    var z := ZoneOf(a, w);
    assert z.owners[0] == Join([a]) && z.owners[1] == Join(w);
  }

  lemma HasInZone(a: bytes, w: Labels, k: Labels)
    requires w != []
    ensures HasName(ZoneOf(a, w), k) <==> k <= Key(Join([a])) || k <= Key(Join(w))
  {
    hide Key, Join;
    var z := ZoneOf(a, w);
    assert z.owners[0] == Join([a]) && z.owners[1] == Join(w);
  }

  // --- A validator that accepts the denial ---

  const KEY: RData := DNSKEY(257, 3, 13, [])

  function KeyRecord(): Record { RecordOf([0], DNSKEY_TYPE, 0, KEY) }

  /** A signature over NSEC records by the owner itself. */
  function SigBy(name: bytes): Record { RecordOf(name, 46, 0, RRSIG(NSEC_TYPE, 13, 1, 0, 0, 0, KeyTag(KEY), name, [])) }

  function SigsOf(nsecs: seq<Record>): (sigs: seq<Record>)
    ensures |sigs| == |nsecs| && forall i :: 0 <= i < |nsecs| ==> sigs[i] == SigBy(nsecs[i].name)
  {
    seq(|nsecs|, i requires 0 <= i < |nsecs| => SigBy(nsecs[i].name))
  }

  /** Every signature is good, the clock stands at zero, and the key is cached under every name. */
  function Accepting(): Env { Env(Crypto((alg, key, data, sig) => true, (kind, data) => []), 0, []) }

  function Cached(): bytes -> Option<seq<Record>> { name => Some([KeyRecord()]) }

  lemma SigAccepted(name: bytes, rrset: seq<Record>)
    ensures VerifiedBy(Accepting(), SigBy(name), KeyRecord(), rrset)
  {
    hide KeyTag, SignedData, Flatten;
    assert TimeValid(0, 0, 0);
  }

  lemma {:induction false} FindsSig(sigs: seq<Record>, name: bytes, i: nat)
    requires forall j :: 0 <= j < |sigs| ==> exists n :: sigs[j] == SigBy(n)
    requires i < |sigs| && sigs[i] == SigBy(name)
    ensures CoveringSig(sigs, name, NSEC_TYPE) == Some(SigBy(name))
  {
    hide KeyTag, Flatten;
    if sigs[0] != SigBy(name) {
      assert forall j :: 0 <= j < |sigs[1..]| ==> sigs[1..][j] == sigs[j + 1];
      FindsSig(sigs[1..], name, i - 1);
    }
  }

  lemma RingVerified(nsecs: seq<Record>)
    requires exists r :: r in nsecs && Counts(r, NSEC_TYPE)
    ensures AuthorityVerified(Accepting(), nsecs, SigsOf(nsecs), NSEC_TYPE, Cached())
  {
    var sigs := SigsOf(nsecs);
    hide AuthorityVerified, VerifiedBy, CoveringSig, SigBy, Accepting, KeyRecord, Counts, Members;
    AuthorityVerifiedIff(Accepting(), nsecs, sigs, NSEC_TYPE, Cached());
    forall r | r in nsecs && Counts(r, NSEC_TYPE)
      ensures OwnerVerified(Accepting(), nsecs, r.name, NSEC_TYPE, sigs, Cached())
    {
      var i :| 0 <= i < |nsecs| && nsecs[i] == r;
      FindsSig(sigs, r.name, i);
      SigAccepted(r.name, Members(OfType(nsecs, NSEC_TYPE), r.name, NSEC_TYPE));
      assert KeyRecord() in [KeyRecord()];
    }
  }

  lemma SelectAll(nsecs: seq<Record>)
    requires |nsecs| == 2 && IsNsec(nsecs[0]) && IsNsec(nsecs[1])
    ensures Select(IsNsec, nsecs) == nsecs
  {
    var tail := nsecs[1..];
    assert tail[1..] == [] && Select(IsNsec, tail[1..]) == [];
    assert Select(IsNsec, tail) == [nsecs[1]];
    assert nsecs == [nsecs[0]] + [nsecs[1]];
  }

  /** What the validator says to an NXDOMAIN response with the whole ring, each NSEC signed by its owner. */
  function Verdict(a: bytes, w: Labels, qname: bytes): Status
    requires Below(a, w)
  {
    ValidateDenial(Accepting(), RingOf(a, w), SigsOf(RingOf(a, w)), qname, 1, true, Cached())
  }

  lemma RingShape(a: bytes, w: Labels)
    requires Below(a, w)
    ensures var rs := RingOf(a, w); |rs| == 2 && IsNsec(rs[0]) && IsNsec(rs[1]) && Counts(rs[0], NSEC_TYPE)
  {
    ArePlain(a, w);
    hide Plain, Flatten, Wire;
  }

  lemma RingAccepted(rs: seq<Record>)
    requires |rs| == 2 && IsNsec(rs[0]) && IsNsec(rs[1]) && Counts(rs[0], NSEC_TYPE)
    ensures Select(IsNsec, rs) == rs
    ensures AuthorityVerified(Accepting(), rs, SigsOf(rs), NSEC_TYPE, Cached())
  {
    hide *;
    SelectAll(rs);
    assert rs[0] in rs;
    RingVerified(rs);
  }

  lemma VerdictIs(a: bytes, w: Labels, qname: bytes)
    requires Below(a, w)
    ensures Verdict(a, w, qname) ==
              ValidateDenial(Accepting(), RingOf(a, w), SigsOf(RingOf(a, w)), qname, 1, true, Cached())
  {
    hide ValidateDenial, RingOf, Below;
  }

  /** It is Secure for every name that is no owner. */
  lemma SecureNxDomain(a: bytes, w: Labels, qname: bytes)
    requires Below(a, w) && !IsOwner(ZoneOf(a, w), qname)
    ensures ValidZone(ZoneOf(a, w))
    ensures FromRing(ZoneOf(a, w), RingOf(a, w)) && WholeRing(ZoneOf(a, w), RingOf(a, w))
    ensures NxDomainProven(RingOf(a, w), qname) && Verdict(a, w, qname) == Secure
  {
    var z, nsecs := ZoneOf(a, w), RingOf(a, w);
    hide *;
    ZoneOfValid(a, w);
    RingOfWhole(a, w);
    RingShape(a, w);
    RingAccepted(nsecs);
    VerdictIs(a, w, qname);
    NxDomainIff(z, nsecs, qname);
    DenialSecureIff(z, Accepting(), nsecs, SigsOf(nsecs), qname, 1, true, Cached());
  }

  // --- The computed encloser ---

  lemma EncloserStep(labels: Labels, nsecs: seq<Record>)
    requires labels != []
    ensures (exists r :: r in nsecs && OwnedBy(r, Join(labels))) ==>
        ClosestEncloser(labels, nsecs) == Some(Join(labels))
    ensures (forall r :: r in nsecs ==> !OwnedBy(r, Join(labels))) ==>
              ClosestEncloser(labels, nsecs) == ClosestEncloser(labels[1..], nsecs)
  {
    hide OwnedBy, Join;
  }

  /** A name that is no owner of the zone owns no NSEC of its ring. */
  lemma NotOwned(z: Zone, nsecs: seq<Record>, name: bytes)
    requires ValidZone(z) && FromRing(z, nsecs) && !IsOwner(z, name)
    ensures forall r :: r in nsecs ==> !OwnedBy(r, name)
  {
    hide ValidZone, FromRing, IsOwner, OwnedBy;
    forall r | r in nsecs && OwnedBy(r, name) ensures false { OwnedIsOwner(z, nsecs, r, name); }
  }

  lemma ApexOwnsNsec(a: bytes, next: Labels, types: set<u16>)
    requires Plain(a) && AreLabels(next)
    ensures AreLabels([a]) && OwnedBy(NsecOf([a], next, types), Join([a]))
  {
    hide Plain, Wire, Join, ToText;
    PlainText([a]);
  }

  lemma ApexOwns(a: bytes, w: Labels)
    requires Below(a, w)
    ensures exists r :: r in RingOf(a, w) && OwnedBy(r, Join([a]))
  {
    ArePlain(a, w);
    hide Plain, Join, OwnedBy, NsecOf;
    ApexOwnsNsec(a, w, {2});
    var rs := RingOf(a, w);
    assert rs[0] in rs;
  }

  /** One label below the apex, or two: nothing but the apex owns an NSEC above the name. */
  lemma EncloserIsApex(a: bytes, w: Labels, b: bytes)
    requires Below(a, w) && ValidZone(ZoneOf(a, w)) && FromRing(ZoneOf(a, w), RingOf(a, w))
    requires !IsOwner(ZoneOf(a, w), Join([b, a]))
    ensures ClosestEncloser([b, a], RingOf(a, w)) == Some(Join([a]))
  {
    var z, rs := ZoneOf(a, w), RingOf(a, w);
    hide *;
    NotOwned(z, rs, Join([b, a]));
    ApexOwns(a, w);
    EncloserStep([b, a], rs);
    EncloserStep([a], rs);
    assert [b, a][1..] == [a];
  }

  lemma DeepEncloserIsApex(a: bytes, w: Labels, b: bytes, x: bytes)
    requires Below(a, w) && ValidZone(ZoneOf(a, w)) && FromRing(ZoneOf(a, w), RingOf(a, w))
    requires !IsOwner(ZoneOf(a, w), Join([b, a])) && !IsOwner(ZoneOf(a, w), Join([x, b, a]))
    ensures ClosestEncloser([x, b, a], RingOf(a, w)) == Some(Join([a]))
  {
    var z, rs := ZoneOf(a, w), RingOf(a, w);
    hide *;
    NotOwned(z, rs, Join([x, b, a]));
    EncloserIsApex(a, w, b);
    EncloserStep([x, b, a], rs);
    assert [x, b, a][1..] == [b, a];
  }

  // --- Main results ---

  lemma SameLower(b: bytes)
    requires !EqIgnoreCase(b, Star())
    ensures Lower(b) != Star()
  {
    StarPlain();
  }

  /** The wildcard owner answers a name of one label more than its encloser. */
  lemma Answers(a: bytes, w: Labels, qname: bytes, n: nat)
    requires w != [] && |Key(Join([a]))| <= n
    requires |Key(qname)| == n + 1 && |Key(Join(w))| == n + 1
    requires Key(qname)[..n] == Key(Join(w))[..n] && Key(Join(w))[n] == Star() && Key(qname)[n] != Star()
    ensures WildcardAnswers(ZoneOf(a, w), qname)
  {
    hide Key, Join;
    var z, q, k := ZoneOf(a, w), Key(qname), Key(Join(w));
    HasInZone(a, w, q);
    HasInZone(a, w, q[..n]);
    assert q[..n + 1] == q;
    assert !(q <= k) by { assert q[n] != k[n]; }
    hide HasName;
    forall m | n < m <= |q| ensures !HasName(z, q[..m]) { assert m == n + 1; }
    assert IsEncloser(z, qname, n);
    assert k == k[..n] + [[STAR]];
    assert z.owners[1] == Join(w);
  }

  lemma PlainTexts(a: bytes, b: bytes, c: bytes)
    requires Plain(a) && Plain(b) && Plain(c)
    ensures TextLabels(Join([b, a])) == [b, a] && TextLabels(Join([c, b, a])) == [c, b, a]
  {
    hide Plain, Join, TextLabels;
    PlainForms([b, a]);
    PlainForms([c, b, a]);
  }

  lemma WildBelow(a: bytes, b: bytes)
    requires Plain(a) && Plain(b)
    ensures Below(a, [Star(), a]) && Below(a, [Star(), b, a])
  {
    StarPlain();
    hide Plain, Star;
  }

  lemma Sibling(a: bytes, b: bytes)
    requires Plain(a) && Plain(b) && !EqIgnoreCase(b, Star())
    ensures var w, qname := [Star(), a], Join([b, a]);
            !IsOwner(ZoneOf(a, w), qname) && WildcardAnswers(ZoneOf(a, w), qname)
  {
    StarPlain();
    hide Plain, Join, Key, Star, Lower, IsOwner, WildcardAnswers, EqIgnoreCase, ZoneOf;
    var w, qname := [Star(), a], Join([b, a]);
    Keys(a, b, b);
    Keys(a, Star(), b);
    SameLower(b);
    InZone(a, w, qname);
    assert Key(qname)[1] != Key(Join(w))[1];
    Answers(a, w, qname, 1);
  }

  /**
   * A wildcard at the apex: whatever the apex `a` and the label `b`, unless it is a star, NXDOMAIN for `b.a` is Secure
   * with the zone's whole ring, although the wildcard `*.a`, at the encloser the code computes, answers it.
   */
  lemma WildcardOverlooked(a: bytes, b: bytes)
    requires Plain(a) && Plain(b) && !EqIgnoreCase(b, Star())
    ensures var w, qname := [Star(), a], Join([b, a]);
            && Below(a, w) && ValidZone(ZoneOf(a, w)) && WholeRing(ZoneOf(a, w), RingOf(a, w))
            && ClosestEncloser(TextLabels(qname), RingOf(a, w)) == Some(Join([a]))
            && WildcardAnswers(ZoneOf(a, w), qname) && Verdict(a, w, qname) == Secure
  {
    hide *;
    WildBelow(a, a);
    Sibling(a, b);
    SecureNxDomain(a, [Star(), a], Join([b, a]));
    PlainTexts(a, b, b);
    EncloserIsApex(a, [Star(), a], b);
  }

  lemma DeepSibling(a: bytes, b: bytes, x: bytes)
    requires Plain(a) && Plain(b) && Plain(x) && !EqIgnoreCase(x, Star())
    ensures var z, qname := ZoneOf(a, [Star(), b, a]), Join([x, b, a]);
            && !IsOwner(z, qname) && !IsOwner(z, Join([b, a])) && !IsOwner(z, Join([Star(), a]))
            && WildcardAnswers(z, qname)
  {
    StarPlain();
    hide Plain, Join, Key, Star, Lower, IsOwner, WildcardAnswers, EqIgnoreCase, ZoneOf;
    var w, qname := [Star(), b, a], Join([x, b, a]);
    Keys(a, b, x);
    Keys(a, b, Star());
    Keys(a, Star(), b);
    SameLower(x);
    InZone(a, w, qname);
    InZone(a, w, Join([b, a]));
    InZone(a, w, Join([Star(), a]));
    assert Key(qname)[2] != Key(Join(w))[2];
    assert Key(qname)[..2] == [Lower(a), Lower(b)] == Key(Join(w))[..2];
    Answers(a, w, qname, 2);
  }

  /**
   * A wildcard deeper down: the zone of `a` and `*.b.a` answers `x.b.a`, and NXDOMAIN for it is Secure with the whole
   * ring. The code's encloser is `a`; no NSEC is owned by `*.a`, which is no owner either.
   */
  lemma DeepWildcardOverlooked(a: bytes, b: bytes, x: bytes)
    requires Plain(a) && Plain(b) && Plain(x) && !EqIgnoreCase(x, Star())
    ensures var w, qname := [Star(), b, a], Join([x, b, a]);
            && Below(a, w) && ValidZone(ZoneOf(a, w)) && WholeRing(ZoneOf(a, w), RingOf(a, w))
            && ClosestEncloser(TextLabels(qname), RingOf(a, w)) == Some(Join([a]))
            && !IsOwner(ZoneOf(a, w), Join([Star(), a]))
            && (forall r :: r in RingOf(a, w) ==> !OwnedBy(r, Join([Star(), a])))
            && WildcardAnswers(ZoneOf(a, w), qname) && Verdict(a, w, qname) == Secure
  {
    hide *;
    var w := [Star(), b, a];
    WildBelow(a, b);
    DeepSibling(a, b, x);
    SecureNxDomain(a, w, Join([x, b, a]));
    PlainTexts(a, b, x);
    DeepEncloserIsApex(a, w, b, x);
    NotOwned(ZoneOf(a, w), RingOf(a, w), Join([Star(), a]));
  }

  lemma NonTerminal(a: bytes, b: bytes)
    requires Plain(a) && Plain(b)
    ensures var z, qname := ZoneOf(a, [Star(), b, a]), Join([b, a]);
            !IsOwner(z, qname) && HasName(z, Key(qname))
  {
    StarPlain();
    hide Plain, Join, Key, Star, Lower, IsOwner, HasName, ZoneOf;
    Keys(a, b, Star());
    InZone(a, [Star(), b, a], Join([b, a]));
    HasInZone(a, [Star(), b, a], Key(Join([b, a])));
  }

  /** In that zone `b.a` exists, as an empty non-terminal, and NXDOMAIN for it is Secure all the same. */
  lemma EmptyNonTerminalDenied(a: bytes, b: bytes)
    requires Plain(a) && Plain(b)
    ensures var w, qname := [Star(), b, a], Join([b, a]);
            && Below(a, w) && ValidZone(ZoneOf(a, w)) && WholeRing(ZoneOf(a, w), RingOf(a, w))
            && HasName(ZoneOf(a, w), Key(qname)) && Verdict(a, w, qname) == Secure
  {
    hide *;
    WildBelow(a, b);
    NonTerminal(a, b);
    SecureNxDomain(a, [Star(), b, a], Join([b, a]));
  }
}
