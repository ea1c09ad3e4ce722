/** Printing and parsing undo each other (src/dns/types.rs). */
module RoundTrip {
  import opened Bytes
  import opened Names
  import opened Decompress
  import opened Messages

  /** The octets of `data` from `at` on begin with `s`. */
  predicate HasAt(data: bytes, at: nat, s: bytes) {
    at + |s| <= |data| && data[at..at + |s|] == s
  }

  lemma HasAtConcat(data: bytes, at: nat, a: bytes, b: bytes)
    ensures HasAt(data, at, a + b) <==> HasAt(data, at, a) && HasAt(data, at + |a|, b)
  {
    if at + |a| + |b| <= |data| {
      var x, y := data[at..at + |a|], data[at + |a|..at + |a| + |b|];
      assert data[at..at + |a + b|] == x + y;
      assert (x + y)[..|a|] == x && (x + y)[|a|..] == y && (a + b)[..|a|] == a && (a + b)[|a|..] == b;
    }
  }

  lemma HasAtIndex(data: bytes, at: nat, s: bytes, i: nat)
    requires HasAt(data, at, s) && i < |s|
    ensures data[at + i] == s[i]
  {
    assert data[at..at + |s|][i] == s[i];
  }

  lemma Rd16At(data: bytes, at: nat, v: u16)
    requires HasAt(data, at, Be16(v))
    ensures Rd16(data, at) == v
  {
    HasAtIndex(data, at, Be16(v), 0);
    HasAtIndex(data, at, Be16(v), 1);
  }

  lemma Rd32At(data: bytes, at: nat, v: u32)
    requires HasAt(data, at, Be32(v))
    ensures Rd32(data, at) == v
  {
    HasAtIndex(data, at, Be32(v), 0);
    HasAtIndex(data, at, Be32(v), 1);
    HasAtIndex(data, at, Be32(v), 2);
    HasAtIndex(data, at, Be32(v), 3);
  }

  // --- Header ---

  lemma BitsByte(b: bv8)
    ensures (b as int) as bv8 == b
  {
  }

  lemma ParsedHeaderInRange(data: bytes)
    requires ParseHeader(data).Ok?
    ensures HeaderInRange(ParseHeader(data).value)
  {
  }

  lemma FlagsReparse(h: Header)
    requires HeaderInRange(h)
    ensures var g := Flags(h);
            var f := (((g >> 8) as bv8) as bv16 << 8) | (((g & 0xFF) as bv8) as bv16);
            && h.qr == ((f >> 15) & 1 == 1) && h.opcode == ((f >> 11) & 0x0F) as bv8
            && h.aa == ((f >> 10) & 1 == 1) && h.tc == ((f >> 9) & 1 == 1) && h.rd == ((f >> 8) & 1 == 1)
            && h.ra == ((f >> 7) & 1 == 1) && h.z == ((f >> 6) & 0x03) as bv8
            && h.ad == ((f >> 5) & 1 == 1) && h.cd == ((f >> 4) & 1 == 1) && h.rcode == (f & 0x0F) as bv8
  {
  }

  lemma PrintedFlagWord(h: Header)
    ensures var g := Flags(h);
            FlagWord((g >> 8) as bv8 as int, (g & 0xFF) as bv8 as int)
            == (((g >> 8) as bv8) as bv16 << 8) | (((g & 0xFF) as bv8) as bv16)
  {
    BitsByte((Flags(h) >> 8) as bv8);
    BitsByte((Flags(h) & 0xFF) as bv8);
  }

  lemma HeaderWords(data: bytes, h: Header)
    requires HasAt(data, 0, PrintHeader(h))
    ensures |data| >= 12 && Rd16(data, 0) == h.id
            && data[2] == (Flags(h) >> 8) as bv8 as int && data[3] == (Flags(h) & 0xFF) as bv8 as int
            && Rd16(data, 4) == h.qdcount && Rd16(data, 6) == h.ancount
            && Rd16(data, 8) == h.nscount && Rd16(data, 10) == h.arcount
  {
    var s := PrintHeader(h);
    forall i | 0 <= i < 12 ensures data[i] == s[i] { HasAtIndex(data, 0, s, i); }
  }

  lemma HeaderReparse(data: bytes, h: Header)
    requires HeaderInRange(h) && HasAt(data, 0, PrintHeader(h))
    ensures ParseHeader(data) == Ok(h)
  {
    HeaderWords(data, h);
    PrintedFlagWord(h);
    FlagsReparse(h);
  }

  // --- RDATA ---

  predicate Fits(rtype: u16, p: RData) {
    match p
    case A(addr) => rtype == 1 && |addr| == 4
    case AAAA(addr) => rtype == 28 && |addr| == 16
    case CNAME(h) => rtype == 5 && WellFormed(h)
    case NS(h) => rtype == 2 && WellFormed(h)
    case PTR(h) => rtype == 12 && WellFormed(h)
    case MX(_, h) => rtype == 15 && WellFormed(h)
    case SOA(m, r, _, _, _, _, _) => rtype == 6 && WellFormed(m) && WellFormed(r)
    case TXT(strings) => rtype == 16 && forall i :: 0 <= i < |strings| ==> |strings[i]| < 0x100 && Utf8Valid(strings[i])
    case SRV(_, _, _, h) => rtype == 33 && WellFormed(h)
    case RRSIG(_, _, _, _, _, _, _, h, _) => rtype == 46 && WellFormed(h)
    case DNSKEY(_, _, _, _) => rtype == 48
    case NSEC(h, _) => rtype == 47 && WellFormed(h)
    case DS(_, _, _, _) => rtype == 43
    case Unknown(_) => rtype !in {1, 28, 5, 2, 12, 15, 6, 16, 33, 46, 48, 47, 43}
  }

  lemma {:induction false} TxtFits(rdata: bytes)
    requires ParseTxt(rdata).Some?
    ensures Fits(16, TXT(ParseTxt(rdata).value))
    decreases |rdata|
  {
    if rdata != [] {
      var rest := rdata[LabelSpan(rdata)..];
      TxtFits(rest);
    }
  }

  lemma ParsedNameShape(data: bytes, off: nat)
    requires ParseName(data, off).Ok?
    ensures var n := ParseName(data, off).value; WellFormed(n.value) && off < n.next <= |data|
  {
    DecodedShape(data, off);
  }

  /** Whatever the parser makes of RDATA fits its type: all names uncompressed, all texts UTF-8. */
  lemma ParsedFits(rtype: u16, data: bytes, start: nat, len: nat)
    requires start + len <= |data| && ParseRData(rtype, data, start, len).Ok?
    ensures var p := ParseRData(rtype, data, start, len).value; p.Some? ==> Fits(rtype, p.value)
  {
    hide ParseName, WellFormed, ParseTxt, Utf8Valid;
    var at := match rtype case 15 => start + 2 case 33 => start + 6 case 46 => start + 18 case _ => start;
    if ParseName(data, at).Ok? {
      ParsedNameShape(data, at);
      var n := ParseName(data, at).value.next;
      if ParseName(data, n).Ok? { ParsedNameShape(data, n); }
    }
    if rtype == 16 && ParseTxt(data[start..start + len]).Some? { TxtFits(data[start..start + len]); }
  }

  lemma NameReparse(data: bytes, at: nat, name: bytes)
    requires WellFormed(name) && HasAt(data, at, name)
    ensures ParseName(data, at) == Ok(At(name, at + |name|))
  {
    DecodePlain(data, at, name);
  }

  lemma NameOptReparse(data: bytes, at: nat, name: bytes)
    requires WellFormed(name) && HasAt(data, at, name)
    ensures ParseNameOpt(data, at) == Ok(Some(At(name, at + |name|)))
  {
    NameReparse(data, at, name);
  }

  lemma TxtNil()
    ensures ParseTxt([]) == Some([])
  {
  }

  lemma TxtCons(s: bytes, tail: bytes)
    requires |s| < 0x100 && Utf8Valid(s) && ParseTxt(tail).Some?
    ensures ParseTxt([|s|] + s + tail) == Some([s] + ParseTxt(tail).value)
  {
    var w: bytes := [|s|] + s + tail;
    assert w[1..1 + |s|] == s && w[1 + |s|..] == tail;
  }

  lemma {:induction false} TxtReparse(strings: seq<bytes>)
    requires Fits(16, TXT(strings))
    ensures ParseTxt(FlattenTxt(strings)) == Some(strings)
  {
    hide ParseTxt, Utf8Valid;
    assert strings == [] ==> ParseTxt([]) == Some([]) by { TxtNil(); }
    if strings != [] {
      TxtReparse(strings[1..]);
      TxtCons(strings[0], FlattenTxt(strings[1..]));
      assert strings == [strings[0]] + strings[1..];
    }
  }

  lemma SoaParts(data: bytes, start: nat, p: RData)
    requires p.SOA? && HasAt(data, start, Flatten(p))
    ensures HasAt(data, start, p.mname) && HasAt(data, start + |p.mname|, p.rname)
    ensures HasAt(data, start + |p.mname| + |p.rname|,
                  Be32(p.serial) + Be32(p.refresh) + Be32(p.retry) + Be32(p.expire) + Be32(p.minimum))
  {
    var words := Be32(p.serial) + Be32(p.refresh) + Be32(p.retry) + Be32(p.expire) + Be32(p.minimum);
    assert Flatten(p) == p.mname + (p.rname + words);
    HasAtConcat(data, start, p.mname, p.rname + words);
    HasAtConcat(data, start + |p.mname|, p.rname, words);
  }

  lemma SoaFromNames(data: bytes, start: nat, len: nat, m: At<bytes>, r: At<bytes>)
    requires start + len <= |data|
    requires ParseNameOpt(data, start) == Ok(Some(m)) && ParseNameOpt(data, m.next) == Ok(Some(r))
    requires r.next - start + 20 <= len
    ensures ParseSoa(data, start, len)
            == Ok(Some(SOA(m.value, r.value, Rd32(data, r.next), Rd32(data, r.next + 4), Rd32(data, r.next + 8),
                           Rd32(data, r.next + 12), Rd32(data, r.next + 16))))
  {
  }

  lemma SoaNames(data: bytes, start: nat, p: RData)
    requires p.SOA? && WellFormed(p.mname) && WellFormed(p.rname)
    requires HasAt(data, start, p.mname) && HasAt(data, start + |p.mname|, p.rname)
    ensures var at := start + |p.mname|;
            && ParseNameOpt(data, start) == Ok(Some(At(p.mname, at)))
            && ParseNameOpt(data, at) == Ok(Some(At(p.rname, at + |p.rname|)))
  {
    NameOptReparse(data, start, p.mname);
    NameOptReparse(data, start + |p.mname|, p.rname);
  }

  lemma SoaReparse(data: bytes, start: nat, p: RData)
    requires p.SOA? && Fits(6, p) && HasAt(data, start, Flatten(p))
    ensures ParseSoa(data, start, |Flatten(p)|) == Ok(Some(p))
  {
    SoaParts(data, start, p);
    var at := start + |p.mname|;
    var words := at + |p.rname|;
    assert |Flatten(p)| == |p.mname| + |p.rname| + 20;
    FiveWords(data, words, p.serial, p.refresh, p.retry, p.expire, p.minimum);
    SoaNames(data, start, p);
    SoaFromNames(data, start, |Flatten(p)|, At(p.mname, at), At(p.rname, words));
  }

  lemma FiveWords(data: bytes, at: nat, a: u32, b: u32, c: u32, d: u32, e: u32)
    requires HasAt(data, at, Be32(a) + Be32(b) + Be32(c) + Be32(d) + Be32(e))
    ensures at + 20 <= |data| && Rd32(data, at) == a && Rd32(data, at + 4) == b && Rd32(data, at + 8) == c
            && Rd32(data, at + 12) == d && Rd32(data, at + 16) == e
  {
    HasAtConcat(data, at, Be32(a) + Be32(b) + Be32(c) + Be32(d), Be32(e));
    HasAtConcat(data, at, Be32(a) + Be32(b) + Be32(c), Be32(d));
    HasAtConcat(data, at, Be32(a) + Be32(b), Be32(c));
    HasAtConcat(data, at, Be32(a), Be32(b));
    Rd32At(data, at, a);
    Rd32At(data, at + 4, b);
    Rd32At(data, at + 8, c);
    Rd32At(data, at + 12, d);
    Rd32At(data, at + 16, e);
  }

  /** The fixed eighteen octets before the signer's name. */
  function RrsigHead(p: RData): (s: bytes)
    requires p.RRSIG?
    ensures |s| == 18
  {
    Be16(p.typeCovered) + [p.algorithm, p.labels] + Be32(p.originalTtl) + Be32(p.expiration) + Be32(p.inception)
    + Be16(p.keyTag)
  }

  lemma RrsigFlat(p: RData)
    requires p.RRSIG?
    ensures Flatten(p) == RrsigHead(p) + p.signerName + p.signature
  {
    hide Be16, Be32;
  }

  lemma RrsigHeadParts(data: bytes, start: nat, p: RData)
    requires p.RRSIG? && HasAt(data, start, RrsigHead(p))
    ensures HasAt(data, start, Be16(p.typeCovered)) && HasAt(data, start + 2, [p.algorithm, p.labels])
    ensures HasAt(data, start + 4, Be32(p.originalTtl)) && HasAt(data, start + 8, Be32(p.expiration))
    ensures HasAt(data, start + 12, Be32(p.inception)) && HasAt(data, start + 16, Be16(p.keyTag))
  {
    hide HasAt, Be16, Be32;
    var a := Be16(p.typeCovered) + [p.algorithm, p.labels];
    var b := a + Be32(p.originalTtl);
    var c := b + Be32(p.expiration);
    var d := c + Be32(p.inception);
    HasAtConcat(data, start, d, Be16(p.keyTag));
    HasAtConcat(data, start, c, Be32(p.inception));
    HasAtConcat(data, start, b, Be32(p.expiration));
    HasAtConcat(data, start, a, Be32(p.originalTtl));
    HasAtConcat(data, start, Be16(p.typeCovered), [p.algorithm, p.labels]);
  }

  lemma RrsigParts(data: bytes, start: nat, p: RData)
    requires p.RRSIG? && HasAt(data, start, Flatten(p))
    ensures |Flatten(p)| == 18 + |p.signerName| + |p.signature| && HasAt(data, start, RrsigHead(p))
    ensures HasAt(data, start + 18, p.signerName) && HasAt(data, start + 18 + |p.signerName|, p.signature)
  {
    hide Flatten, HasAt, RrsigHead;
    RrsigFlat(p);
    HasAtConcat(data, start, RrsigHead(p) + p.signerName, p.signature);
    HasAtConcat(data, start, RrsigHead(p), p.signerName);
  }

  lemma RrsigFromName(data: bytes, start: nat, len: nat, n: At<bytes>)
    requires start + len <= |data| && 18 <= len && ParseNameOpt(data, start + 18) == Ok(Some(n))
    requires n.next <= start + len
    ensures ParseRrsig(data, start, len)
            == Ok(Some(RRSIG(Rd16(data, start), data[start + 2], data[start + 3], Rd32(data, start + 4),
                             Rd32(data, start + 8), Rd32(data, start + 12), Rd16(data, start + 16),
                             n.value, data[n.next..start + len])))
  {
    hide ParseNameOpt, Rd16, Rd32;
  }

  lemma RrsigFields(data: bytes, start: nat, p: RData)
    requires p.RRSIG? && HasAt(data, start, Flatten(p))
    ensures start + |Flatten(p)| <= |data| && |Flatten(p)| == 18 + |p.signerName| + |p.signature|
    ensures Rd16(data, start) == p.typeCovered && data[start + 2] == p.algorithm && data[start + 3] == p.labels
    ensures Rd32(data, start + 4) == p.originalTtl && Rd32(data, start + 8) == p.expiration
    ensures Rd32(data, start + 12) == p.inception && Rd16(data, start + 16) == p.keyTag
    ensures HasAt(data, start + 18, p.signerName)
    ensures data[start + 18 + |p.signerName|..start + |Flatten(p)|] == p.signature
  {
    RrsigParts(data, start, p);
    RrsigHeadParts(data, start, p);
    hide Flatten, RrsigHead, Rd16, Rd32, Be16, Be32;
    Rd16At(data, start, p.typeCovered);
    HasAtIndex(data, start + 2, [p.algorithm, p.labels], 0);
    HasAtIndex(data, start + 2, [p.algorithm, p.labels], 1);
    Rd32At(data, start + 4, p.originalTtl);
    Rd32At(data, start + 8, p.expiration);
    Rd32At(data, start + 12, p.inception);
    Rd16At(data, start + 16, p.keyTag);
  }

  lemma RrsigReparse(data: bytes, start: nat, p: RData)
    requires p.RRSIG? && WellFormed(p.signerName) && HasAt(data, start, Flatten(p))
    ensures ParseRrsig(data, start, |Flatten(p)|) == Ok(Some(p))
  {
    hide *;
    RrsigFields(data, start, p);
    NameOptReparse(data, start + 18, p.signerName);
    RrsigFromName(data, start, |Flatten(p)|, At(p.signerName, start + 18 + |p.signerName|));
  }

  lemma KeyReparse(data: bytes, start: nat, p: RData)
    requires (p.DNSKEY? || p.DS?) && HasAt(data, start, Flatten(p))
    ensures ParseRData(if p.DNSKEY? then 48 else 43, data, start, |Flatten(p)|) == Ok(Some(p))
  {
    var raw := Flatten(p);
    assert raw[4..] == if p.DNSKEY? then p.publicKey else p.digest;
  }

  lemma MxSrvReparse(data: bytes, start: nat, p: RData)
    requires ((p.MX? && Fits(15, p)) || (p.SRV? && Fits(33, p))) && HasAt(data, start, Flatten(p))
    ensures ParseRData(if p.MX? then 15 else 33, data, start, |Flatten(p)|) == Ok(Some(p))
  {
    if p.MX? {
      HasAtConcat(data, start, Be16(p.preference), p.exchange);
      Rd16At(data, start, p.preference);
      NameOptReparse(data, start + 2, p.exchange);
    } else {
      HasAtConcat(data, start, Be16(p.priority) + Be16(p.weight) + Be16(p.port), p.target);
      HasAtConcat(data, start, Be16(p.priority) + Be16(p.weight), Be16(p.port));
      HasAtConcat(data, start, Be16(p.priority), Be16(p.weight));
      Rd16At(data, start, p.priority);
      Rd16At(data, start + 2, p.weight);
      Rd16At(data, start + 4, p.port);
      NameOptReparse(data, start + 6, p.target);
    }
  }

  lemma NsecReparse(data: bytes, start: nat, p: RData)
    requires p.NSEC? && Fits(47, p) && HasAt(data, start, Flatten(p))
    ensures ParseNsec(data, start, |Flatten(p)|) == Ok(Some(p))
  {
    HasAtConcat(data, start, p.nextDomain, p.typeBitMaps);
    NameOptReparse(data, start, p.nextDomain);
  }

  /** Decompressed RDATA parses back to the value it came from, wherever it is placed. */
  lemma RDataReparse(rtype: u16, data: bytes, start: nat, p: RData)
    requires Fits(rtype, p) && HasAt(data, start, Flatten(p))
    ensures ParseRData(rtype, data, start, |Flatten(p)|) == Ok(Some(p))
  {
    match p
    case A(_) =>
    case AAAA(_) =>
    case CNAME(h) => NameOptReparse(data, start, h);
    case NS(h) => NameOptReparse(data, start, h);
    case PTR(h) => NameOptReparse(data, start, h);
    case MX(_, _) => MxSrvReparse(data, start, p);
    case SOA(_, _, _, _, _, _, _) => SoaReparse(data, start, p);
    case TXT(strings) => TxtReparse(strings);
    case SRV(_, _, _, _) => MxSrvReparse(data, start, p);
    case RRSIG(_, _, _, _, _, _, _, _, _) => RrsigReparse(data, start, p);
    case DNSKEY(_, _, _, _) => KeyReparse(data, start, p);
    case NSEC(_, _) => NsecReparse(data, start, p);
    case DS(_, _, _, _) => KeyReparse(data, start, p);
    case Unknown(_) =>
  }

  // --- Records and messages ---

  /** RDATA that no position in a message could make parse. */
  predicate Unparsable(rtype: u16, rdata: bytes) {
    match rtype
    case 1 => |rdata| != 4
    case 28 => |rdata| != 16
    case 5 => rdata == []
    case 2 => rdata == []
    case 12 => rdata == []
    case 15 => |rdata| < 3
    case 33 => |rdata| < 7
    case 46 => |rdata| < 18
    case 48 => |rdata| < 4
    case 43 => |rdata| < 4
    case 16 => ParseTxt(rdata).None?
    case _ => false
  }

  /** A record as the parser leaves it, length included: RDATA is the flattening of `parsed`, or as it came. */
  predicate Restored(r: Record) {
    && WellFormed(r.name) && r.rdlength == |r.rdata|
    && (r.parsed.Some? ==> Fits(r.rtype, r.parsed.value) && r.rdata == Flatten(r.parsed.value))
  }

  lemma RecordParts(data: bytes, at: nat, r: Record)
    requires HasAt(data, at, PrintRecord(r)) && r.rdlength == |r.rdata|
    ensures var off := at + |r.name|;
            && HasAt(data, at, r.name) && off + 10 <= |data|
            && Rd16(data, off) == r.rtype && Rd16(data, off + 2) == r.rclass && Rd32(data, off + 4) == r.ttl
            && Rd16(data, off + 8) == r.rdlength && HasAt(data, off + 10, r.rdata)
            && |PrintRecord(r)| == |r.name| + 10 + |r.rdata|
  {
    hide Be16, Be32, Rd16, Rd32;
    var a := r.name + Be16(r.rtype);
    var b := a + Be16(r.rclass);
    var c := b + Be32(r.ttl);
    var d := c + Be16(r.rdlength);
    assert PrintRecord(r) == d + r.rdata;
    HasAtConcat(data, at, d, r.rdata);
    HasAtConcat(data, at, c, Be16(r.rdlength));
    HasAtConcat(data, at, b, Be32(r.ttl));
    HasAtConcat(data, at, a, Be16(r.rclass));
    HasAtConcat(data, at, r.name, Be16(r.rtype));
    var off := at + |r.name|;
    Rd16At(data, off, r.rtype);
    Rd16At(data, off + 2, r.rclass);
    Rd32At(data, off + 4, r.ttl);
    Rd16At(data, off + 8, r.rdlength);
  }

  /** An unparsed record printed at `at` is left unparsed there, too. */
  predicate Survives(data: bytes, at: nat, r: Record) {
    var start := at + |r.name| + 10;
    r.parsed.None? ==> start + |r.rdata| <= |data| && ParseRData(r.rtype, data, start, |r.rdata|) == Ok(None)
  }

  lemma AnyRDataReparse(data: bytes, at: nat, r: Record)
    requires Restored(r) && HasAt(data, at + |r.name| + 10, r.rdata)
    ensures ParseRData(r.rtype, data, at + |r.name| + 10, |r.rdata|) == Ok(r.parsed) <==> Survives(data, at, r)
  {
    if r.parsed.Some? { RDataReparse(r.rtype, data, at + |r.name| + 10, r.parsed.value); }
  }

  /** A printed record is read back unchanged exactly when it survives, and in any case ends where it ends. */
  lemma RecordReparseIff(data: bytes, at: nat, r: Record)
    requires Restored(r) && HasAt(data, at, PrintRecord(r))
    ensures ParseRecord(data, at).Ok? ==> ParseRecord(data, at).value.next == at + |PrintRecord(r)|
    ensures ParseRecord(data, at) == Ok(At(r, at + |PrintRecord(r)|)) <==> Survives(data, at, r)
  {
    hide ParseName, ParseRData, PrintRecord, Fits, Flatten, WellFormed, Rd16, Rd32;
    RecordParts(data, at, r);
    var start := at + |r.name| + 10;
    assert data[start..start + |r.rdata|] == r.rdata;
    NameReparse(data, at, r.name);
    AnyRDataReparse(data, at, r);
    hide HasAt, Survives;
  }

  predicate AllRestored(rs: seq<Record>) { forall i :: 0 <= i < |rs| ==> Restored(rs[i]) }

  predicate AllNamed(qs: seq<Question>) { forall i :: 0 <= i < |qs| ==> WellFormed(qs[i].qname) }

  /** The same for records printed one after the other from `at` on. */
  predicate AllSurvive(data: bytes, at: nat, rs: seq<Record>)
    decreases |rs|
  {
    rs == [] || (Survives(data, at, rs[0]) && AllSurvive(data, at + |PrintRecord(rs[0])|, rs[1..]))
  }

  lemma RecordsStep(data: bytes, at: nat, count: nat)
    requires count > 0
    ensures ParseRecords(data, at, count).Ok? <==>
              ParseRecord(data, at).Ok? && ParseRecords(data, ParseRecord(data, at).value.next, count - 1).Ok?
    ensures ParseRecords(data, at, count).Ok? ==>
              var r := ParseRecord(data, at).value;
              var rest := ParseRecords(data, r.next, count - 1).value;
              ParseRecords(data, at, count) == Ok(At([r.value] + rest.value, rest.next))
  {
    hide ParseRecord;
  }

  lemma SameCons<T>(x: T, xs: seq<T>, y: T, ys: seq<T>)
    ensures [x] + xs == [y] + ys <==> x == y && xs == ys
  {
    if [x] + xs == [y] + ys {
      assert ([x] + xs)[0] == x && ([y] + ys)[0] == y && ([x] + xs)[1..] == xs && ([y] + ys)[1..] == ys;
    }
  }

  /** One record and then the rest, each read back or not. */
  lemma RecordsConsIff(data: bytes, at: nat, r: Record, next: nat, rest: seq<Record>, end: nat)
    requires ParseRecord(data, at).Ok? ==> ParseRecord(data, at).value.next == next
    requires ParseRecords(data, next, |rest|).Ok? ==> ParseRecords(data, next, |rest|).value.next == end
    ensures var all := ParseRecords(data, at, 1 + |rest|);
            && (all.Ok? ==> all.value.next == end)
            && (all == Ok(At([r] + rest, end)) <==>
                ParseRecord(data, at) == Ok(At(r, next)) && ParseRecords(data, next, |rest|) == Ok(At(rest, end)))
  {
    hide ParseRecord, ParseRecords;
    RecordsStep(data, at, 1 + |rest|);
    if ParseRecords(data, at, 1 + |rest|).Ok? {
      SameCons(ParseRecord(data, at).value.value, ParseRecords(data, next, |rest|).value.value, r, rest);
    }
  }

  lemma SectionEnd(data: bytes, at: nat)
    ensures ParseRecords(data, at, 0) == Ok(At([], at)) && PrintRecords([]) == [] && AllSurvive(data, at, [])
  {
  }

  lemma SectionStep(data: bytes, at: nat, rs: seq<Record>)
    requires rs != [] && AllRestored(rs)
    ensures Restored(rs[0]) && AllRestored(rs[1..])
    ensures PrintRecords(rs) == PrintRecord(rs[0]) + PrintRecords(rs[1..])
    ensures AllSurvive(data, at, rs) <==>
              Survives(data, at, rs[0]) && AllSurvive(data, at + |PrintRecord(rs[0])|, rs[1..])
  {
    hide Restored, PrintRecord, Survives;
  }

  lemma {:induction false} RecordsReparseIff(data: bytes, at: nat, rs: seq<Record>)
    requires AllRestored(rs) && HasAt(data, at, PrintRecords(rs))
    ensures ParseRecords(data, at, |rs|).Ok? ==> ParseRecords(data, at, |rs|).value.next == at + |PrintRecords(rs)|
    ensures ParseRecords(data, at, |rs|) == Ok(At(rs, at + |PrintRecords(rs)|)) <==> AllSurvive(data, at, rs)
    decreases |rs|
  {
    hide *;
    if rs == [] {
      SectionEnd(data, at);
    } else {
      SectionStep(data, at, rs);
      var r, rest := rs[0], rs[1..];
      var next := at + |PrintRecord(r)|;
      HasAtConcat(data, at, PrintRecord(r), PrintRecords(rest));
      RecordReparseIff(data, at, r);
      RecordsReparseIff(data, next, rest);
      RecordsConsIff(data, at, r, next, rest, next + |PrintRecords(rest)|);
      assert rs == [r] + rest;
    }
  }

  lemma QuestionReparse(data: bytes, at: nat, q: Question)
    requires WellFormed(q.qname) && HasAt(data, at, PrintQuestion(q))
    ensures ParseQuestion(data, at) == Ok(At(q, at + |PrintQuestion(q)|))
  {
    HasAtConcat(data, at, q.qname + Be16(q.qtype), Be16(q.qclass));
    HasAtConcat(data, at, q.qname, Be16(q.qtype));
    var off := at + |q.qname|;
    Rd16At(data, off, q.qtype);
    Rd16At(data, off + 2, q.qclass);
    NameReparse(data, at, q.qname);
  }

  lemma {:induction false} QuestionsReparse(data: bytes, at: nat, qs: seq<Question>)
    requires AllNamed(qs) && HasAt(data, at, PrintQuestions(qs))
    ensures ParseQuestions(data, at, |qs|) == Ok(At(qs, at + |PrintQuestions(qs)|))
    decreases |qs|
  {
    hide ParseQuestion, PrintQuestion, WellFormed;
    if qs != [] {
      HasAtConcat(data, at, PrintQuestion(qs[0]), PrintQuestions(qs[1..]));
      QuestionReparse(data, at, qs[0]);
      QuestionsReparse(data, at + |PrintQuestion(qs[0])|, qs[1..]);
      assert [qs[0]] + qs[1..] == qs;
    }
  }

  predicate CountsAgree(m: Message) {
    && m.header.qdcount == |m.questions| && m.header.ancount == |m.answers|
    && m.header.nscount == |m.authorities| && m.header.arcount == |m.additionals|
  }

  /** A message as the parser leaves it, with real lengths. */
  predicate RestoredMessage(m: Message) {
    && HeaderInRange(m.header) && CountsAgree(m) && AllNamed(m.questions)
    && AllRestored(m.answers) && AllRestored(m.authorities) && AllRestored(m.additionals)
  }

  /** Every unparsed record is left unparsed at its place in the printed message. */
  predicate MessageSurvives(m: Message) {
    var data := Print(m);
    var a := 12 + |PrintQuestions(m.questions)|;
    var n := a + |PrintRecords(m.answers)|;
    && AllSurvive(data, a, m.answers) && AllSurvive(data, n, m.authorities)
    && AllSurvive(data, n + |PrintRecords(m.authorities)|, m.additionals)
  }

  lemma FiveParts(a: bytes, b: bytes, c: bytes, d: bytes, e: bytes)
    ensures var s := a + b + c + d + e;
            && HasAt(s, 0, a) && HasAt(s, |a|, b) && HasAt(s, |a| + |b|, c)
            && HasAt(s, |a| + |b| + |c|, d) && HasAt(s, |a| + |b| + |c| + |d|, e)
  {
    var s := a + b + c + d + e;
    assert HasAt(s, 0, s);
    HasAtConcat(s, 0, a + b + c + d, e);
    HasAtConcat(s, 0, a + b + c, d);
    HasAtConcat(s, 0, a + b, c);
    HasAtConcat(s, 0, a, b);
  }

  lemma SectionsReparseIff(data: bytes, m: Message)
    requires CountsAgree(m) && AllNamed(m.questions)
    requires AllRestored(m.answers) && AllRestored(m.authorities) && AllRestored(m.additionals)
    requires var a := 12 + |PrintQuestions(m.questions)|;
             var n := a + |PrintRecords(m.answers)|;
             && HasAt(data, 12, PrintQuestions(m.questions)) && HasAt(data, a, PrintRecords(m.answers))
             && HasAt(data, n, PrintRecords(m.authorities))
             && HasAt(data, n + |PrintRecords(m.authorities)|, PrintRecords(m.additionals))
    ensures var a := 12 + |PrintQuestions(m.questions)|;
            var n := a + |PrintRecords(m.answers)|;
            ParseSections(data, m.header) == Ok(m) <==>
              AllSurvive(data, a, m.answers) && AllSurvive(data, n, m.authorities)
              && AllSurvive(data, n + |PrintRecords(m.authorities)|, m.additionals)
  {
    hide ParseQuestions, ParseRecords, PrintQuestions, PrintRecords, AllRestored, AllNamed, AllSurvive;
    var a := 12 + |PrintQuestions(m.questions)|;
    var n := a + |PrintRecords(m.answers)|;
    QuestionsReparse(data, 12, m.questions);
    RecordsReparseIff(data, a, m.answers);
    RecordsReparseIff(data, n, m.authorities);
    RecordsReparseIff(data, n + |PrintRecords(m.authorities)|, m.additionals);
  }

  /** Encode then decode: a message is recovered exactly when its unparsed records survive. */
  lemma PrintParseIff(m: Message)
    requires RestoredMessage(m)
    ensures Parse(Print(m)) == Ok(m) <==> MessageSurvives(m)
  {
    hide ParseHeader, ParseSections, PrintHeader, PrintQuestions, PrintRecords, AllRestored, AllNamed, HeaderInRange,
      AllSurvive;
    assert Counted(m) == m.header;
    FiveParts(PrintHeader(m.header), PrintQuestions(m.questions), PrintRecords(m.answers),
              PrintRecords(m.authorities), PrintRecords(m.additionals));
    HeaderReparse(Print(m), m.header);
    SectionsReparseIff(Print(m), m);
  }

  // --- Parse, print, parse ---

  lemma ParsedRecord(data: bytes, offset: nat)
    requires ParseRecord(data, offset).Ok?
    ensures var r := ParseRecord(data, offset).value.value; r.rdlength == |r.rdata| ==> Restored(r)
  {
    hide Fits, Flatten, WellFormed, ParseName, ParseRData;
    ParsedNameShape(data, offset);
    var off := ParseName(data, offset).value.next;
    ParsedFits(Rd16(data, off), data, off + 10, Rd16(data, off + 8));
  }

  predicate TrueLengths(rs: seq<Record>) { forall i :: 0 <= i < |rs| ==> rs[i].rdlength == |rs[i].rdata| }

  lemma {:induction false} ParsedRecords(data: bytes, offset: nat, count: nat)
    requires ParseRecords(data, offset, count).Ok?
    ensures var rs := ParseRecords(data, offset, count).value.value;
            |rs| == count && (TrueLengths(rs) ==> AllRestored(rs))
    decreases count
  {
    hide ParseRecord, Restored;
    if count > 0 {
      var r := ParseRecord(data, offset).value;
      ParsedRecords(data, r.next, count - 1);
      ParsedRecord(data, offset);
      var rest := ParseRecords(data, r.next, count - 1).value.value;
      var rs := [r.value] + rest;
      assert ParseRecords(data, offset, count).value.value == rs;
      hide ParseRecords;
      assert rs[0] == r.value && forall i :: 0 <= i < |rest| ==> rest[i] == rs[i + 1];
    }
  }

  lemma {:induction false} ParsedQuestions(data: bytes, offset: nat, count: nat)
    requires ParseQuestions(data, offset, count).Ok?
    ensures var qs := ParseQuestions(data, offset, count).value.value;
            |qs| == count && AllNamed(qs)
    decreases count
  {
    if count > 0 {
      ParsedNameShape(data, offset);
      ParsedQuestions(data, ParseQuestion(data, offset).value.next, count - 1);
    }
  }

  lemma AgreeingLengths(m: Message)
    requires LengthsAgree(m)
    ensures TrueLengths(m.answers) && TrueLengths(m.authorities) && TrueLengths(m.additionals)
  {
    var all := m.answers + m.authorities + m.additionals;
    forall i | 0 <= i < |m.answers| ensures m.answers[i] in all {}
    forall i | 0 <= i < |m.authorities| ensures m.authorities[i] in all {}
    forall i | 0 <= i < |m.additionals| ensures m.additionals[i] in all {}
  }

  /** Every accepted message with real lengths is restored: counts agree, no pointer is left in any name. */
  lemma ParsedMessage(data: bytes)
    requires Parse(data).Ok? && LengthsAgree(Parse(data).value)
    ensures RestoredMessage(Parse(data).value)
  {
    hide Restored, LengthsAgree, ParseHeader, ParseQuestions, ParseRecords, HeaderInRange, TrueLengths, AllRestored;
    AgreeingLengths(Parse(data).value);
    ParsedHeaderInRange(data);
    var h := ParseHeader(data).value;
    ParsedQuestions(data, 12, h.qdcount);
    var a := ParseQuestions(data, 12, h.qdcount).value.next;
    ParsedRecords(data, a, h.ancount);
    var n := ParseRecords(data, a, h.ancount).value.next;
    ParsedRecords(data, n, h.nscount);
    ParsedRecords(data, ParseRecords(data, n, h.nscount).value.next, h.arcount);
  }

  /**
   * Whatever was accepted and can be printed comes back unchanged exactly when every record left unparsed is left
   * unparsed again at the place where it is printed.
   */
  lemma ParsePrintParseIff(data: bytes)
    requires Parse(data).Ok? && LengthsAgree(Parse(data).value)
    ensures Parse(Print(Parse(data).value)) == Parse(data) <==> MessageSurvives(Parse(data).value)
  {
    hide Print, LengthsAgree, RestoredMessage, MessageSurvives;
    ParsedMessage(data);
    PrintParseIff(Parse(data).value);
  }

  /** A record parsed, or of a form that parses nowhere, survives anywhere. */
  predicate Printable(r: Record) { r.parsed.Some? || Unparsable(r.rtype, r.rdata) }

  predicate AllPrintable(rs: seq<Record>) { forall i :: 0 <= i < |rs| ==> Printable(rs[i]) }

  lemma PrintableSurvives(data: bytes, at: nat, r: Record)
    requires Printable(r) && Restored(r) && HasAt(data, at, PrintRecord(r))
    ensures Survives(data, at, r)
  {
    RecordParts(data, at, r);
    hide PrintRecord, WellFormed, Fits, Flatten;
    if r.parsed.None? { assert data[at + |r.name| + 10..at + |r.name| + 10 + |r.rdata|] == r.rdata; }
  }

  lemma {:induction false} AllPrintableSurvive(data: bytes, at: nat, rs: seq<Record>)
    requires AllPrintable(rs) && AllRestored(rs) && HasAt(data, at, PrintRecords(rs))
    ensures AllSurvive(data, at, rs)
    decreases |rs|
  {
    hide PrintRecord, Printable, Restored, Survives;
    if rs != [] {
      HasAtConcat(data, at, PrintRecord(rs[0]), PrintRecords(rs[1..]));
      PrintableSurvives(data, at, rs[0]);
      AllPrintableSurvive(data, at + |PrintRecord(rs[0])|, rs[1..]);
    }
  }

  lemma PrintableMessageSurvives(m: Message)
    requires RestoredMessage(m)
    requires AllPrintable(m.answers) && AllPrintable(m.authorities) && AllPrintable(m.additionals)
    ensures MessageSurvives(m)
  {
    hide AllRestored, AllSurvive, AllPrintable, PrintRecords, PrintQuestions, PrintHeader, AllNamed, HasAt;
    var h, q := PrintHeader(Counted(m)), PrintQuestions(m.questions);
    var a, n, x := PrintRecords(m.answers), PrintRecords(m.authorities), PrintRecords(m.additionals);
    FiveParts(h, q, a, n, x);
    AllPrintableSurvive(Print(m), 12 + |q|, m.answers);
    AllPrintableSurvive(Print(m), 12 + |q| + |a|, m.authorities);
    AllPrintableSurvive(Print(m), 12 + |q| + |a| + |n|, m.additionals);
  }

  /** So a message whose records are all parsed, or parse nowhere, survives printing and parsing. */
  lemma ParsePrintParse(data: bytes)
    requires Parse(data).Ok? && LengthsAgree(Parse(data).value)
    requires var m := Parse(data).value;
             AllPrintable(m.answers) && AllPrintable(m.authorities) && AllPrintable(m.additionals)
    ensures Parse(Print(Parse(data).value)) == Parse(data)
  {
    hide *;
    ParsedMessage(data);
    ParsePrintParseIff(data);
    PrintableMessageSurvives(Parse(data).value);
  }

  // --- Counts ---

  /** The header a message is printed with: the section lengths, whatever counts it carries. */
  predicate CountedFrom(h: Header, m: Message) {
    h == Header(m.header.id, m.header.qr, m.header.opcode, m.header.aa, m.header.tc, m.header.rd, m.header.ra,
        m.header.z,
                m.header.ad, m.header.cd, m.header.rcode, h.qdcount, h.ancount, h.nscount, h.arcount)
    && h.qdcount == |m.questions| && h.ancount == |m.answers|
    && h.nscount == |m.authorities| && h.arcount == |m.additionals|
  }

  /** A message with any counts in its header comes back with the right ones, when its unparsed records survive. */
  lemma PrintParseAnyCounts(m: Message, h: Header)
    requires CountedFrom(h, m) && RestoredMessage(m.(header := h))
    ensures Parse(Print(m)) == Ok(m.(header := h)) <==> MessageSurvives(m.(header := h))
  {
    assert Print(m) == Print(m.(header := h)) by {
      hide PrintHeader, PrintQuestions, PrintRecords;
      assert Counted(m) == h == Counted(m.(header := h));
    }
    hide Parse, Print, MessageSurvives, RestoredMessage;
    PrintParseIff(m.(header := h));
  }
}
