/**
 * What `build_signed_data` of src/dnssec/mod.rs is on the wire: the signature's RDATA without its signature,
 * followed by the canonical records, printed one after the other (section 3.1.8.1 of RFC 4034).
 */
module SignedOctets {
  import opened Bytes
  import opened Names
  import opened NameText
  import opened Messages
  import opened RoundTrip
  import opened Signing

  // --- Canonical names ---

  /** A name whose labels read the same in text: UTF-8 without dots. */
  predicate PlainName(w: bytes) { WellFormed(w) && Utf8Labels(Unwire(w)) && AllDotFree(Unwire(w)) }

  lemma LowerAreLabels(ls: Labels)
    requires AreLabels(ls)
    ensures AreLabels(LowerLabels(ls))
  {
  }

  /** The name in lower case, label by label. */
  function LowerName(w: bytes): (l: bytes)
    requires WellFormed(w)
    ensures WellFormed(l)
  {
    WireUnwire(w);
    LowerAreLabels(Unwire(w));
    UnwireWire(LowerLabels(Unwire(w)));
    Wire(LowerLabels(Unwire(w)))
  }

  lemma {:induction false} LowerWire(ls: Labels)
    requires AreLabels(ls)
    ensures AreLabels(LowerLabels(ls)) && Lower(Wire(ls)) == Wire(LowerLabels(ls))
  {
    LowerAreLabels(ls);
    if ls == [] {
      WireNil();
    } else {
      LowerWire(ls[1..]);
      assert ls == [ls[0]] + ls[1..];
      WireCons(ls[0], ls[1..]);
      LowerLabelsCons(ls[0], ls[1..]);
      WireCons(Lower(ls[0]), LowerLabels(ls[1..]));
      hide Wire, LowerLabels;
      LowerHead(ls[0], Wire(ls[1..]));
    }
  }

  lemma LowerHead(l: bytes, tail: bytes)
    requires IsLabel(l)
    ensures Lower([|l|] + l + tail) == [|l|] + Lower(l) + Lower(tail)
  {
    hide Lower;
    var head: bytes := [|l|];
    LowerConcat(head + l, tail);
    LowerConcat(head, l);
    LengthIsLower(|l|);
  }

  lemma LengthIsLower(n: nat)
    requires n <= MAX_LABEL
    ensures Lower([n]) == [n]
  {
  }

  lemma {:induction false} LowerTwice(ls: Labels)
    ensures LowerLabels(LowerLabels(ls)) == LowerLabels(ls)
  {
    hide Lower;
    forall i | 0 <= i < |ls| ensures LowerLabels(LowerLabels(ls))[i] == LowerLabels(ls)[i] { LowerIdempotent(ls[i]); }
  }

  /** The canonical form of a name is the name in lower case. */
  lemma CanonicalIsLower(w: bytes)
    requires PlainName(w)
    ensures CanonicalName(w) == LowerName(w)
  {
    hide ToText, Encode, Wire, Unwire, Utf8Valid, WellFormed, Lower;
    var ls := Unwire(w);
    WireUnwire(w);
    EncodeToText(ls, 0);
    assert ToText(w) + Dots(0) == ToText(w);
    LowerWire(LowerLabels(ls));
    LowerTwice(ls);
  }

  // --- Canonical records ---

  /** The RDATA with its names in lower case (section 6.2 of RFC 4034). */
  function CanonicalValue(rtype: u16, p: RData): (c: RData)
    requires Fits(rtype, p)
    ensures Fits(rtype, c)
  {
    match p
    case NS(h) => NS(LowerName(h))
    case CNAME(h) => CNAME(LowerName(h))
    case PTR(h) => PTR(LowerName(h))
    case MX(pref, ex) => MX(pref, LowerName(ex))
    case SOA(m, r, serial, refresh, retry, expire, minimum) =>
      SOA(LowerName(m), LowerName(r), serial, refresh, retry, expire, minimum)
    case NSEC(next, maps) => NSEC(LowerName(next), maps)
    case _ => p
  }

  predicate PlainRData(p: RData) {
    match p
    case NS(h) => PlainName(h)
    case CNAME(h) => PlainName(h)
    case PTR(h) => PlainName(h)
    case MX(_, ex) => PlainName(ex)
    case SOA(m, r, _, _, _, _, _) => PlainName(m) && PlainName(r)
    case NSEC(next, _) => PlainName(next)
    case _ => true
  }

  lemma FlatLength(rtype: u16, p: RData)
    requires Fits(rtype, p) && (p.SRV? || p.RRSIG?)
    ensures Flatten(p) != []
  {
    hide Be16, Be32;
  }

  /** The RDATA signed is the flattened canonical value, except for SRV and RRSIG, of which nothing is signed. */
  lemma CanonicalRDataIff(rtype: u16, p: RData)
    requires Fits(rtype, p) && PlainRData(p)
    ensures CanonicalRData(Some(p)) == Flatten(CanonicalValue(rtype, p)) <==> !p.SRV? && !p.RRSIG?
  {
    hide CanonicalName, PlainName, LowerName, Be16, Be32;
    match p
    case NS(h) => CanonicalIsLower(h);
    case CNAME(h) => CanonicalIsLower(h);
    case PTR(h) => CanonicalIsLower(h);
    case MX(_, ex) => CanonicalIsLower(ex);
    case SOA(m, r, _, _, _, _, _) =>
      CanonicalIsLower(m);
      CanonicalIsLower(r);
    case NSEC(next, _) => CanonicalIsLower(next);
    case SRV(_, _, _, _) => FlatLength(rtype, p);
    case RRSIG(_, _, _, _, _, _, _, _, _) => FlatLength(rtype, p);
    case _ =>
  }

  /** A record of an RRset that can be signed as section 6.2 asks for. */
  predicate Signable(r: Record) {
    && PlainName(r.name) && r.parsed.Some?
    && var p := r.parsed.value;
       Fits(r.rtype, p) && PlainRData(p) && !p.SRV? && !p.RRSIG? && |Flatten(CanonicalValue(r.rtype, p))| < 0x1_0000
  }

  predicate AllSignable(rrset: seq<Record>) { forall i :: 0 <= i < |rrset| ==> Signable(rrset[i]) }

  /** Owner and names in RDATA in lower case, and the original TTL. */
  function Canonical(r: Record, ttl: u32): (c: Record)
    requires Signable(r)
  {
    var v := CanonicalValue(r.rtype, r.parsed.value);
    Record(LowerName(r.name), r.rtype, r.rclass, ttl, |Flatten(v)|, Flatten(v), Some(v))
  }

  lemma WireIsPrinted(r: Record, ttl: u32)
    requires Signable(r)
    ensures RecordWire(r, ttl) == PrintRecord(Canonical(r, ttl)) && Restored(Canonical(r, ttl))
  {
    hide CanonicalName, PlainName, LowerName, PlainRData, CanonicalValue, CanonicalRData, Flatten, Be16, Be32, Fits,
      WellFormed;
    CanonicalIsLower(r.name);
    CanonicalRDataIff(r.rtype, r.parsed.value);
  }

  // --- Permutations ---

  function Canonicals(rrset: seq<Record>, ttl: u32): (cs: seq<Record>)
    requires AllSignable(rrset)
    ensures |cs| == |rrset| && forall i :: 0 <= i < |cs| ==> cs[i] == Canonical(rrset[i], ttl)
  {
    seq(|rrset|, i requires 0 <= i < |rrset| => Canonical(rrset[i], ttl))
  }

  function Printed(rs: seq<Record>): (ws: seq<bytes>)
    ensures |ws| == |rs|
  {
    seq(|rs|, i requires 0 <= i < |rs| => PrintRecord(rs[i]))
  }

  lemma WiresArePrinted(rrset: seq<Record>, ttl: u32)
    requires AllSignable(rrset)
    ensures Wires(rrset, ttl) == Printed(Canonicals(rrset, ttl)) && AllRestored(Canonicals(rrset, ttl))
  {
    hide RecordWire, PrintRecord, Canonical, Signable, Restored;
    var cs := Canonicals(rrset, ttl);
    forall i | 0 <= i < |rrset| ensures RecordWire(rrset[i], ttl) == PrintRecord(cs[i]) && Restored(cs[i]) {
      assert Signable(rrset[i]);
      WireIsPrinted(rrset[i], ttl);
    }
  }

  lemma {:induction false} ConcatPrinted(rs: seq<Record>)
    ensures Concat(Printed(rs)) == PrintRecords(rs)
  {
    hide PrintRecord;
    if rs != [] {
      ConcatPrinted(rs[1..]);
      assert Printed(rs)[1..] == Printed(rs[1..]);
    }
  }

  lemma PrintedWithout(rs: seq<Record>, i: nat)
    requires i < |rs|
    ensures Printed(rs[..i] + rs[i + 1..]) == Printed(rs)[..i] + Printed(rs)[i + 1..]
  {
    hide PrintRecord;
  }

  /** Any arrangement of printed records is the print of an arrangement of the records. */
  lemma {:induction false} Rearrange(ws: seq<bytes>, rs: seq<Record>) returns (ps: seq<Record>)
    requires multiset(ws) == multiset(Printed(rs))
    ensures multiset(ps) == multiset(rs) && ws == Printed(ps)
    decreases |ws|
  {
    hide PrintRecord, Printed;
    assert |ws| == |multiset(ws)| == |multiset(Printed(rs))| == |rs|;
    if ws == [] {
      ps := [];
      EmptyPrinted();
      assert rs == [];
    } else {
      var i := FirstElsewhere(ws, Printed(rs));
      PrintedWithout(rs, i);
      var rest := Rearrange(ws[1..], rs[..i] + rs[i + 1..]);
      ps := [rs[i]] + rest;
      TakeOut(rs, i);
      PrintedCons(rs[i], rest);
      PrintedAt(rs, i);
      assert ws == [ws[0]] + ws[1..];
    }
  }

  lemma EmptyPrinted()
    ensures Printed([]) == []
  {
  }

  lemma PrintedAt(rs: seq<Record>, i: nat)
    requires i < |rs|
    ensures Printed(rs)[i] == PrintRecord(rs[i])
  {
  }

  lemma PrintedCons(r: Record, rest: seq<Record>)
    ensures Printed([r] + rest) == [PrintRecord(r)] + Printed(rest)
  {
    hide PrintRecord;
  }

  lemma RestoredAnyOrder(rs: seq<Record>, ps: seq<Record>)
    requires multiset(ps) == multiset(rs) && AllRestored(rs)
    ensures AllRestored(ps)
  {
    hide Restored;
    forall i | 0 <= i < |ps| ensures Restored(ps[i]) {
      assert ps[i] in multiset(ps);
      assert ps[i] in rs;
    }
  }

  // --- The octets ---

  /** The signature's RDATA as it is signed: without the signature, the signer in lower case. */
  function Unsigned(sig: RData): RData
    requires sig.RRSIG? && WellFormed(sig.signerName)
  {
    sig.(signerName := LowerName(sig.signerName), signature := [])
  }

  lemma HeadIsFlat(sig: RData)
    requires sig.RRSIG? && PlainName(sig.signerName)
    ensures SignatureHead(sig) == Flatten(Unsigned(sig))
  {
    CanonicalIsLower(sig.signerName);
    hide CanonicalName, LowerName, Be16, Be32, WellFormed;
    assert Flatten(Unsigned(sig)) == SignatureHead(sig) + [];
  }

  /**
   * The signed octets are the flattened signature RDATA without its signature and then, in the order of their
   * octets, the canonical records as they are printed: owner in lower case, original TTL, real length, canonical
   * RDATA.
   */
  lemma SignedIsPrinted(rrsig: Record, rrset: seq<Record>) returns (ps: seq<Record>)
    requires rrsig.parsed.Some? && rrsig.parsed.value.RRSIG? && PlainName(rrsig.parsed.value.signerName)
    requires AllSignable(rrset)
    ensures var sig := rrsig.parsed.value;
            && multiset(ps) == multiset(Canonicals(rrset, sig.originalTtl)) && Sorted(Printed(ps)) && AllRestored(ps)
            && SignedData(rrsig, rrset) == Flatten(Unsigned(sig)) + PrintRecords(ps)
  {
    var sig := rrsig.parsed.value;
    var cs := Canonicals(rrset, sig.originalTtl);
    var ws := Wires(rrset, sig.originalTtl);
    assert SignedData(rrsig, rrset) == SignatureHead(sig) + Concat(Sort(ws));
    hide *;
    WiresArePrinted(rrset, sig.originalTtl);
    SortSorts(ws);
    ps := Rearrange(Sort(ws), cs);
    RestoredAnyOrder(cs, ps);
    ConcatPrinted(ps);
    HeadIsFlat(sig);
  }

  lemma AllParsedSurvive(data: bytes, at: nat, rs: seq<Record>)
    requires forall i :: 0 <= i < |rs| ==> rs[i].parsed.Some?
    ensures AllSurvive(data, at, rs)
    decreases |rs|
  {
    hide PrintRecord;
    if rs != [] { AllParsedSurvive(data, at + |PrintRecord(rs[0])|, rs[1..]); }
  }

  /** So a verifier can read back from the signed octets exactly what was signed. */
  lemma SignedReparses(rrsig: Record, rrset: seq<Record>) returns (ps: seq<Record>)
    requires rrsig.parsed.Some? && rrsig.parsed.value.RRSIG? && PlainName(rrsig.parsed.value.signerName)
    requires AllSignable(rrset)
    ensures var sig, data := rrsig.parsed.value, SignedData(rrsig, rrset);
            var n := |Flatten(Unsigned(sig))|;
            && multiset(ps) == multiset(Canonicals(rrset, sig.originalTtl)) && Sorted(Printed(ps)) && n <= |data|
            && ParseRrsig(data, 0, n) == Ok(Some(Unsigned(sig)))
            && ParseRecords(data, n, |rrset|) == Ok(At(ps, |data|))
  {
    ps := SignedIsPrinted(rrsig, rrset);
    hide *;
    var sig := rrsig.parsed.value;
    ParsedInAnyOrder(Canonicals(rrset, sig.originalTtl), ps);
    LowerSigner(sig);
    ReadBack(Unsigned(sig), ps);
  }

  /** A signature without its octets and records behind it are read back. */
  lemma ReadBack(sig: RData, ps: seq<Record>)
    requires sig.RRSIG? && WellFormed(sig.signerName)
    requires AllRestored(ps) && forall i :: 0 <= i < |ps| ==> ps[i].parsed.Some?
    ensures var n, data := |Flatten(sig)|, Flatten(sig) + PrintRecords(ps);
            && n <= |data| && ParseRrsig(data, 0, n) == Ok(Some(sig))
            && ParseRecords(data, n, |ps|) == Ok(At(ps, |data|))
  {
    hide *;
    var head, rest := Flatten(sig), PrintRecords(ps);
    HasAll(head, rest);
    RrsigReparse(head + rest, 0, sig);
    AllParsedSurvive(head + rest, |head|, ps);
    RecordsReparseIff(head + rest, |head|, ps);
  }

  lemma HasAll(a: bytes, b: bytes)
    ensures HasAt(a + b, 0, a) && HasAt(a + b, |a|, b)
  {
    assert HasAt(a + b, 0, a + b);
    HasAtConcat(a + b, 0, a, b);
  }

  lemma LowerSigner(sig: RData)
    requires sig.RRSIG? && PlainName(sig.signerName)
    ensures WellFormed(sig.signerName) && Unsigned(sig).RRSIG? && WellFormed(Unsigned(sig).signerName)
  {
    hide Utf8Valid, LowerName;
  }

  lemma ParsedInAnyOrder(cs: seq<Record>, ps: seq<Record>)
    requires multiset(ps) == multiset(cs) && forall i :: 0 <= i < |cs| ==> cs[i].parsed.Some?
    ensures |ps| == |cs| && forall i :: 0 <= i < |ps| ==> ps[i].parsed.Some?
  {
    assert |ps| == |multiset(ps)| == |multiset(cs)| == |cs|;
    forall i | 0 <= i < |ps| ensures ps[i].parsed.Some? {
      assert ps[i] in multiset(ps);
      assert ps[i] in cs;
    }
  }

  // --- What is not signed ---

  /** The contents of SRV records play no part in the signed octets. */
  lemma SrvContentsUnsigned(rrsig: Record, a: seq<Record>, b: seq<Record>)
    requires |a| == |b|
    requires forall i :: 0 <= i < |a| ==>
               a[i].parsed.Some? && a[i].parsed.value.SRV? && b[i].parsed.Some? && b[i].parsed.value.SRV?
               && a[i].name == b[i].name && a[i].rtype == b[i].rtype && a[i].rclass == b[i].rclass
    ensures SignedData(rrsig, a) == SignedData(rrsig, b)
  {
    hide CanonicalName, WithLength, SignatureHead, Sort, Concat, Be16, Be32;
    if rrsig.parsed.Some? && rrsig.parsed.value.RRSIG? {
      var ttl := rrsig.parsed.value.originalTtl;
      forall i | 0 <= i < |a| ensures RecordWire(a[i], ttl) == RecordWire(b[i], ttl) {}
      hide RecordWire;
      assert Wires(a, ttl) == Wires(b, ttl);
    }
  }
}
