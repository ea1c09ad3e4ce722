/** Canonical signed data: `build_signed_data` of src/dnssec/mod.rs against section 6 of RFC 4034. */
module Signing {
  import opened Bytes
  import opened Names
  import opened NameText
  import opened NameOrder
  import opened Messages

  // --- Canonical forms ---

  /** `name_to_wire`: length octets are below 'A', so lower-casing every octet touches labels only. */
  function NameToWire(name: bytes): bytes {
    match Encode(name) case None => [] case Some(w) => Lower(w)
  }

  function CanonicalName(w: bytes): bytes { NameToWire(ToText(w)) }

  /** A name of one label in lower case is its own canonical form. */
  lemma CanonicalOne(l: bytes)
    requires IsLabel(l) && Utf8Valid(l) && DotFree(l) && Lower(l) == l
    ensures CanonicalName([|l|] + l + [0]) == [|l|] + l + [0]
  {
    hide ToText, Encode, Utf8Valid;
    var w: bytes := [|l|] + l + [0];
    WireNil();
    WireCons(l, []);
    assert [l] + [] == [l];
    assert LowerLabels([l]) == [l];
    EncodeToText([l], 0);
    assert ToText(w) + Dots(0) == ToText(w);
    assert Lower(w) == w by {
      forall i | 0 <= i < |w| ensures LowerByte(w[i]) == w[i] {
        if 0 < i <= |l| { assert Lower(l)[i - 1] == l[i - 1]; }
      }
    }
  }

  /** `record_rdata_canonical`; what it does not know (SRV, RRSIG, unparsed) is left empty. */
  function CanonicalRData(parsed: Option<RData>): bytes {
    match parsed
    case None => []
    case Some(p) =>
      match p
      case A(addr) => addr
      case AAAA(addr) => addr
      case NS(h) => CanonicalName(h)
      case CNAME(h) => CanonicalName(h)
      case PTR(h) => CanonicalName(h)
      case MX(pref, ex) => Be16(pref) + CanonicalName(ex)
      case DNSKEY(flags, prot, alg, key) => Be16(flags) + [prot, alg] + key
      case DS(tag, alg, dtype, digest) => Be16(tag) + [alg, dtype] + digest
      case NSEC(next, maps) => CanonicalName(next) + maps
      case SOA(m, r, serial, refresh, retry, expire, minimum) =>
        CanonicalName(m) + CanonicalName(r) + Be32(serial) + Be32(refresh) + Be32(retry) + Be32(expire) + Be32(minimum)
      case TXT(strings) => FlattenTxt(strings)
      case Unknown(raw) => raw
      case SRV(_, _, _, _) => []
      case RRSIG(_, _, _, _, _, _, _, _, _) => []
  }

  /** Everything before the RDATA length: owner, type, class and the signed TTL. */
  function RecordHead(r: Record, originalTtl: u32): bytes {
    CanonicalName(r.name) + Be16(r.rtype) + Be16(r.rclass) + Be32(originalTtl)
  }

  function WithLength(rdata: bytes): bytes { Be16(|rdata| % 0x1_0000) + rdata }

  function RecordWire(r: Record, originalTtl: u32): bytes {
    RecordHead(r, originalTtl) + WithLength(CanonicalRData(r.parsed))
  }

  /** RRSIG RDATA without the signature. */
  function SignatureHead(sig: RData): bytes
    requires sig.RRSIG?
  {
    Be16(sig.typeCovered) + [sig.algorithm, sig.labels] + Be32(sig.originalTtl) + Be32(sig.expiration)
    + Be32(sig.inception) + Be16(sig.keyTag) + CanonicalName(sig.signerName)
  }

  // --- Sorting octet strings ---

  predicate Before(a: bytes, b: bytes) { CompareOctets(a, b) != Greater }

  predicate Sorted(s: seq<bytes>) { forall i, j :: 0 <= i < j < |s| ==> Before(s[i], s[j]) }

  function Insert(x: bytes, s: seq<bytes>): seq<bytes> {
    if s == [] || Before(x, s[0]) then [x] + s else [s[0]] + Insert(x, s[1..])
  }

  /** The result of `sort()`. */
  function Sort(s: seq<bytes>): seq<bytes> {
    if s == [] then [] else Insert(s[0], Sort(s[1..]))
  }

  lemma BeforeTotal(a: bytes, b: bytes, c: bytes)
    ensures Before(a, a) && (Before(a, b) || Before(b, a))
    ensures Before(a, b) && Before(b, a) ==> a == b
    ensures Before(a, b) && Before(b, c) ==> Before(a, c)
  {
    hide Lex;
    LexEqual(OCTETS, a, a);
    LexEqual(OCTETS, a, b);
    LexEqual(OCTETS, b, c);
    LexFlip(OCTETS, a, b);
    LexFlip(OCTETS, b, a);
    if CompareOctets(a, b) == Less && CompareOctets(b, c) == Less { LexTransitive(OCTETS, a, b, c); }
  }

  lemma OneOf(t: seq<bytes>, x: bytes, s: seq<bytes>, j: nat)
    requires multiset(t) == multiset{x} + multiset(s) && j < |t|
    ensures t[j] == x || t[j] in s
  {
    assert t[j] in multiset(t);
  }

  lemma SortedCons(x: bytes, s: seq<bytes>)
    requires Sorted(s) && forall j :: 0 <= j < |s| ==> Before(x, s[j])
    ensures Sorted([x] + s)
  {
    hide Before;
    var r := [x] + s;
    forall i, j | 0 <= i < j < |r| ensures Before(r[i], r[j]) {
      assert r[j] == s[j - 1];
      if i > 0 { assert r[i] == s[i - 1]; }
    }
  }

  /** In front of what is already sorted. */
  lemma InsertFirst(x: bytes, s: seq<bytes>)
    requires Sorted(s) && (s == [] || Before(x, s[0]))
    ensures Sorted([x] + s)
  {
    hide Before;
    forall j | 0 <= j < |s| ensures Before(x, s[j]) {
      if j > 0 { BeforeTotal(x, s[0], s[j]); }
    }
    SortedCons(x, s);
  }

  /** Behind a first element that is not after `x`, given `t`, the rest with `x` put in. */
  lemma InsertLater(x: bytes, s: seq<bytes>, t: seq<bytes>)
    requires Sorted(s) && s != [] && !Before(x, s[0])
    requires Sorted(t) && multiset(t) == multiset{x} + multiset(s[1..])
    ensures Sorted([s[0]] + t) && multiset([s[0]] + t) == multiset{x} + multiset(s)
  {
    hide Before;
    assert s == [s[0]] + s[1..];
    BeforeTotal(x, s[0], s[0]);
    forall j | 0 <= j < |t| ensures Before(s[0], t[j]) {
      OneOf(t, x, s[1..], j);
      if t[j] != x {
        var k :| 0 <= k < |s[1..]| && s[1..][k] == t[j];
        assert s[k + 1] == t[j];
      }
    }
    SortedCons(s[0], t);
  }

  lemma {:induction false} InsertSorted(x: bytes, s: seq<bytes>)
    requires Sorted(s)
    ensures Sorted(Insert(x, s)) && multiset(Insert(x, s)) == multiset{x} + multiset(s)
  {
    hide Before;
    if s == [] || Before(x, s[0]) {
      InsertFirst(x, s);
    } else {
      InsertSorted(x, s[1..]);
      InsertLater(x, s, Insert(x, s[1..]));
    }
  }

  lemma {:induction false} SortSorts(s: seq<bytes>)
    ensures Sorted(Sort(s)) && multiset(Sort(s)) == multiset(s)
  {
    if s != [] {
      SortSorts(s[1..]);
      InsertSorted(s[0], Sort(s[1..]));
      assert s == [s[0]] + s[1..];
    }
  }

  lemma TakeOut<T>(s: seq<T>, i: nat)
    requires i < |s|
    ensures multiset(s[..i] + s[i + 1..]) == multiset(s) - multiset{s[i]}
  {
    assert s == s[..i] + [s[i]] + s[i + 1..];
  }

  lemma MultisetTail<T>(s: seq<T>)
    requires s != []
    ensures multiset(s[1..]) == multiset(s) - multiset{s[0]}
  {
    assert s == [s[0]] + s[1..];
  }

  lemma SameLeast(a: seq<bytes>, b: seq<bytes>)
    requires a != [] && b != [] && Sorted(a) && Sorted(b) && multiset(a) == multiset(b)
    ensures a[0] == b[0]
  {
    hide Before;
    assert a[0] in multiset(b) by { assert a[0] in multiset(a); }
    assert b[0] in multiset(a) by { assert b[0] in multiset(b); }
    var i :| 0 <= i < |b| && b[i] == a[0];
    var j :| 0 <= j < |a| && a[j] == b[0];
    BeforeTotal(a[0], b[0], a[0]);
  }

  /** There is only one sorted arrangement. */
  lemma {:induction false} SortedUnique(a: seq<bytes>, b: seq<bytes>)
    requires Sorted(a) && Sorted(b) && multiset(a) == multiset(b)
    ensures a == b
  {
    hide Before;
    assert |a| == |multiset(a)| == |multiset(b)| == |b|;
    if a != [] {
      SameLeast(a, b);
      MultisetTail(a);
      MultisetTail(b);
      SortedUnique(a[1..], b[1..]);
      assert a == [a[0]] + a[1..] && b == [b[0]] + b[1..];
    }
  }

  function Concat(s: seq<bytes>): bytes {
    if s == [] then [] else s[0] + Concat(s[1..])
  }

  function Wires(rrset: seq<Record>, ttl: u32): (ws: seq<bytes>)
    ensures |ws| == |rrset|
  {
    seq(|rrset|, i requires 0 <= i < |rrset| => RecordWire(rrset[i], ttl))
  }

  /** `build_signed_data`. */
  function SignedData(rrsig: Record, rrset: seq<Record>): bytes {
    match rrsig.parsed
    case Some(sig) =>
      if sig.RRSIG? then SignatureHead(sig) + Concat(Sort(Wires(rrset, sig.originalTtl))) else []
    case None => []
  }

  method BuildSignedData(rrsig: Record, rrset: seq<Record>) returns (data: bytes)
    ensures data == SignedData(rrsig, rrset)
  {
    hide RecordWire, SignatureHead, Insert;
    data := [];
    if rrsig.parsed.None? || !rrsig.parsed.value.RRSIG? { return; }
    var sig := rrsig.parsed.value;
    data := SignatureHead(sig);
    var sorted: seq<bytes> := [];
    ghost var ws := Wires(rrset, sig.originalTtl);
    for i := |rrset| downto 0
      invariant sorted == Sort(ws[i..])
    {
      assert ws[i..][1..] == ws[i + 1..] && ws[i..][0] == RecordWire(rrset[i], sig.originalTtl);
      sorted := Insert(RecordWire(rrset[i], sig.originalTtl), sorted);
    }
    assert ws[0..] == ws && sorted[0..] == sorted;
    for i := 0 to |sorted|
      invariant data + Concat(sorted[i..]) == SignatureHead(sig) + Concat(sorted)
    {
      assert sorted[i..][1..] == sorted[i + 1..];
      assert data + Concat(sorted[i..]) == data + sorted[i] + Concat(sorted[i + 1..]);
      data := data + sorted[i];
    }
    assert data + Concat([]) == data;
  }

  // --- Independence of record order ---

  lemma WiresTakeOut(b: seq<Record>, i: nat, ttl: u32)
    requires i < |b|
    ensures multiset(Wires(b, ttl)) == multiset{RecordWire(b[i], ttl)} + multiset(Wires(b[..i] + b[i + 1..], ttl))
  {
    hide RecordWire;
    var w, u, v := [RecordWire(b[i], ttl)], Wires(b[..i], ttl), Wires(b[i + 1..], ttl);
    assert Wires(b, ttl) == u + w + v;
    assert Wires(b[..i] + b[i + 1..], ttl) == u + v;
  }

  /** The first element of one arrangement, found in another, leaves arrangements of the same rest. */
  lemma FirstElsewhere<T>(a: seq<T>, b: seq<T>) returns (i: nat)
    requires a != [] && multiset(a) == multiset(b)
    ensures i < |b| && b[i] == a[0] && multiset(a[1..]) == multiset(b[..i] + b[i + 1..])
  {
    assert a[0] in multiset(a);
    assert a[0] in b;
    i :| 0 <= i < |b| && b[i] == a[0];
    TakeOut(b, i);
    TakeOut(a, 0);
    assert a[..0] + a[1..] == a[1..];
  }

  lemma {:induction false} WiresMultiset(a: seq<Record>, b: seq<Record>, ttl: u32)
    requires multiset(a) == multiset(b)
    ensures multiset(Wires(a, ttl)) == multiset(Wires(b, ttl))
    decreases |a|
  {
    hide RecordWire, Wires;
    assert |a| == |multiset(a)| == |multiset(b)| == |b|;
    if a == [] {
      assert a == b;
    } else {
      var i := FirstElsewhere(a, b);
      WiresTakeOut(a, 0, ttl);
      WiresTakeOut(b, i, ttl);
      assert a[..0] + a[1..] == a[1..];
      WiresMultiset(a[1..], b[..i] + b[i + 1..], ttl);
    }
  }

  /** Any permutation of the RRset gives the same signed octets. */
  lemma SignedDataPermutation(rrsig: Record, a: seq<Record>, b: seq<Record>)
    requires multiset(a) == multiset(b)
    ensures SignedData(rrsig, a) == SignedData(rrsig, b)
  {
    if rrsig.parsed.Some? && rrsig.parsed.value.RRSIG? {
      hide RecordWire, Sort, SignatureHead, Concat;
      var ttl := rrsig.parsed.value.originalTtl;
      WiresMultiset(a, b, ttl);
      SortSorts(Wires(a, ttl));
      SortSorts(Wires(b, ttl));
      SortedUnique(Sort(Wires(a, ttl)), Sort(Wires(b, ttl)));
    }
  }

  // --- Independence of current TTLs and of ASCII case in owner names ---

  lemma {:induction false} TrimLower(s: bytes)
    ensures TrimDots(Lower(s)) == Lower(TrimDots(s))
  {
    if s != [] && s[|s| - 1] == DOT {
      assert Lower(s)[..|s| - 1] == Lower(s[..|s| - 1]);
      TrimLower(s[..|s| - 1]);
    }
  }

  lemma {:induction false} SplitLower(s: bytes)
    ensures Split(Lower(s)) == LowerLabels(Split(s))
  {
    if s != [] {
      SplitLower(s[1..]);
      assert Lower(s)[1..] == Lower(s[1..]);
      var rest := Split(s[1..]);
      if s[0] == DOT {
        LowerLabelsCons([], rest);
      } else {
        LowerLabelsCons([s[0]] + rest[0], rest[1..]);
        LowerConcat([s[0]], rest[0]);
        assert Lower([s[0]]) == [Lower(s)[0]];
        assert LowerLabels(rest)[1..] == LowerLabels(rest[1..]);
      }
    }
  }

  /** Encoding sees its text only up to ASCII case. */
  lemma EncodeIgnoresCase(s: bytes, t: bytes)
    requires EqIgnoreCase(s, t)
    ensures Encode(s) == Encode(t)
  {
    hide Split, TrimDots, EncodeParts;
    TrimLower(s);
    TrimLower(t);
    SplitLower(TrimDots(s));
    SplitLower(TrimDots(t));
    assert |TrimDots(s)| == |Lower(TrimDots(s))| && |TrimDots(t)| == |Lower(TrimDots(t))|;
  }

  lemma {:induction false} PartsIgnoreCase(a: Labels, b: Labels)
    requires AreLabels(a) && AreLabels(b) && LowerLabels(a) == LowerLabels(b)
    ensures LowerLabels(Parts(Wire(a))) == LowerLabels(Parts(Wire(b)))
    decreases |a|
  {
    assert |a| == |LowerLabels(a)| == |b|;
    if a != [] {
      hide Utf8Valid;
      WireParts(a);
      WireParts(b);
      assert LowerLabels(a[1..]) == LowerLabels(a)[1..] == LowerLabels(b)[1..] == LowerLabels(b[1..]);
      PartsIgnoreCase(a[1..], b[1..]);
      assert Lower(a[0]) == LowerLabels(a)[0] == LowerLabels(b)[0] == Lower(b[0]);
      Utf8Lower(a[0]);
      Utf8Lower(b[0]);
      LowerLabelsCons(a[0], Parts(Wire(a[1..])));
      LowerLabelsCons(b[0], Parts(Wire(b[1..])));
      assert [] + Parts(Wire(a[1..])) == Parts(Wire(a[1..])) && [] + Parts(Wire(b[1..])) == Parts(Wire(b[1..]));
    }
  }

  /** Names equal up to case have the same canonical form. */
  lemma CanonicalNameIgnoresCase(a: bytes, b: bytes)
    requires WellFormed(a) && WellFormed(b) && SameName(a, b)
    ensures CanonicalName(a) == CanonicalName(b)
  {
    hide Parts, Encode, SameName, WellFormed, Join;
    SameNameIff(a, b);
    WireUnwire(a);
    WireUnwire(b);
    PartsIgnoreCase(Unwire(a), Unwire(b));
    var pa, pb := Parts(a), Parts(b);
    assert |pa| == |LowerLabels(pa)| == |pb|;
    if pa != [] {
      JoinLower(pa);
      JoinLower(pb);
    }
    EncodeIgnoresCase(ToText(a), ToText(b));
  }

  /** Records a validator must not tell apart: other TTLs, raw octets, or case of the owner name. */
  predicate Alike(r: Record, s: Record) {
    WellFormed(r.name) && WellFormed(s.name) && SameName(r.name, s.name)
    && r.rtype == s.rtype && r.rclass == s.rclass && r.parsed == s.parsed
  }

  lemma SignedDataAlike(rrsig: Record, a: seq<Record>, b: seq<Record>)
    requires |a| == |b| && forall i :: 0 <= i < |a| ==> Alike(a[i], b[i])
    ensures SignedData(rrsig, a) == SignedData(rrsig, b)
  {
    if rrsig.parsed.Some? && rrsig.parsed.value.RRSIG? {
      var ttl := rrsig.parsed.value.originalTtl;
      forall i | 0 <= i < |a| ensures RecordWire(a[i], ttl) == RecordWire(b[i], ttl) {
        hide CanonicalName, CanonicalRData, WellFormed, SameName;
        assert Alike(a[i], b[i]);
        CanonicalNameIgnoresCase(a[i].name, b[i].name);
      }
      hide RecordWire, Sort, Concat, SignatureHead;
      assert Wires(a, ttl) == Wires(b, ttl);
    }
  }
}
