/**
 * Where a parsed message comes from: every field, name and piece of RDATA is what the octets spell at its place, names
 * being followed through the whole message (src/dns/types.rs, sections 3.2, 3.3 and 4.1 of RFC 1035).
 */
module Placement {
  import opened Bytes
  import opened Names
  import opened Decompress
  import opened Messages
  import opened Filters

  // --- Names ---

  /** The labels that the message spells from `at` on, pointers followed. */
  ghost predicate NameAt(data: bytes, at: nat, ls: Labels) { AreLabels(ls) && SpelledBy(data, at, ls) }

  lemma ParseNameIff(data: bytes, at: nat, name: bytes, next: nat)
    ensures ParseName(data, at) == Ok(At(name, next)) <==>
              exists ls :: NameAt(data, at, ls) && name == Wire(ls) && next == RunEnd(data, at)
  {
    hide Decode, SpelledBy, Wire, RunEnd;
    DecodeIffSpelled(data, at, name, next);
  }

  lemma ParseNameOptIff(data: bytes, at: nat, name: bytes, next: nat)
    ensures ParseNameOpt(data, at) == Ok(Some(At(name, next))) <==>
              exists ls :: NameAt(data, at, ls) && name == Wire(ls) && next == RunEnd(data, at)
  {
    hide ParseName, NameAt, Wire, RunEnd;
    ParseNameIff(data, at, name, next);
  }

  // --- Character strings ---

  predicate AreStrings(cs: seq<bytes>) { forall i :: 0 <= i < |cs| ==> |cs[i]| < 0x100 }

  /** Each string behind its length octet. */
  function Strings(cs: seq<bytes>): bytes
    requires AreStrings(cs)
  {
    if cs == [] then [] else [|cs[0]|] + cs[0] + Strings(cs[1..])
  }

  function IsUtf8(): bytes -> bool { s => Utf8Valid(s) }

  /** TXT RDATA is a row of strings; those that are no UTF-8 are left out. */
  ghost predicate TxtAt(raw: bytes, strings: seq<bytes>) {
    exists cs :: AreStrings(cs) && raw == Strings(cs) && strings == Filter(cs, IsUtf8())
  }

  lemma {:induction false} TxtSpelled(raw: bytes) returns (cs: seq<bytes>)
    requires ParseTxt(raw).Some?
    ensures AreStrings(cs) && raw == Strings(cs) && ParseTxt(raw) == Some(Filter(cs, IsUtf8()))
    decreases |raw|
  {
    hide Utf8Valid;
    if raw == [] {
      cs := [];
    } else {
      var n := LabelSpan(raw);
      var rest := TxtSpelled(raw[n..]);
      cs := [raw[1..n]] + rest;
      assert cs[1..] == rest && raw == [raw[0]] + raw[1..n] + raw[n..];
    }
  }

  lemma {:induction false} SpelledTxt(cs: seq<bytes>)
    requires AreStrings(cs)
    ensures ParseTxt(Strings(cs)) == Some(Filter(cs, IsUtf8()))
  {
    hide Utf8Valid;
    if cs != [] {
      SpelledTxt(cs[1..]);
      var raw := Strings(cs);
      assert raw[1..LabelSpan(raw)] == cs[0] && raw[LabelSpan(raw)..] == Strings(cs[1..]);
    }
  }

  lemma ParseTxtIff(raw: bytes, strings: seq<bytes>)
    ensures ParseTxt(raw) == Some(strings) <==> TxtAt(raw, strings)
  {
    hide ParseTxt, Strings, Filter;
    if ParseTxt(raw) == Some(strings) { var cs := TxtSpelled(raw); }
    if cs :| AreStrings(cs) && raw == Strings(cs) && strings == Filter(cs, IsUtf8()) { SpelledTxt(cs); }
  }

  // --- RDATA ---

  /** `h` is the name spelled at `at`. */
  ghost predicate HostAt(data: bytes, at: nat, h: bytes) { exists ls :: NameAt(data, at, ls) && h == Wire(ls) }

  /** The RDATA of type `rtype` that takes `len` octets from `start` on spells `p`. */
  ghost predicate RDataAt(rtype: u16, data: bytes, start: nat, len: nat, p: RData)
    requires start + len <= |data|
  {
    var raw := data[start..start + len];
    match rtype
    case 1 => len == 4 && p == A(raw)
    case 28 => len == 16 && p == AAAA(raw)
    case 5 => len > 0 && p.CNAME? && HostAt(data, start, p.host)
    case 2 => len > 0 && p.NS? && HostAt(data, start, p.host)
    case 12 => len > 0 && p.PTR? && HostAt(data, start, p.host)
    case 15 => len >= 3 && p.MX? && p.preference == Rd16(data, start) && HostAt(data, start + 2, p.exchange)
    case 33 =>
      && len >= 7 && p.SRV? && p.priority == Rd16(data, start) && p.weight == Rd16(data, start + 2)
      && p.port == Rd16(data, start + 4) && HostAt(data, start + 6, p.target)
    case 6 =>
      var r := RunEnd(data, start);
      var at := RunEnd(data, r);
      && p.SOA? && HostAt(data, start, p.mname) && HostAt(data, r, p.rname) && at + 20 <= start + len
      && p.serial == Rd32(data, at) && p.refresh == Rd32(data, at + 4) && p.retry == Rd32(data, at + 8)
      && p.expire == Rd32(data, at + 12) && p.minimum == Rd32(data, at + 16)
    case 16 => p.TXT? && TxtAt(raw, p.strings)
    case 46 =>
      var at := RunEnd(data, start + 18);
      && len >= 18 && p.RRSIG? && HostAt(data, start + 18, p.signerName) && at <= start + len
      && p.typeCovered == Rd16(data, start) && p.algorithm == data[start + 2] && p.labels == data[start + 3]
      && p.originalTtl == Rd32(data, start + 4) && p.expiration == Rd32(data, start + 8)
      && p.inception == Rd32(data, start + 12) && p.keyTag == Rd16(data, start + 16)
      && p.signature == data[at..start + len]
    case 48 =>
      && len >= 4 && p.DNSKEY? && p.flags == Rd16(data, start) && p.protocol == data[start + 2]
      && p.algorithm == data[start + 3] && p.publicKey == data[start + 4..start + len]
    case 43 =>
      && len >= 4 && p.DS? && p.keyTag == Rd16(data, start) && p.algorithm == data[start + 2]
      && p.digestType == data[start + 3] && p.digest == data[start + 4..start + len]
    case 47 =>
      var at := RunEnd(data, start);
      && p.NSEC? && HostAt(data, start, p.nextDomain) && at <= start + len
      && p.typeBitMaps == data[at..start + len]
    case _ => p == Unknown(raw)
  }

  /** What decoding gives at a place: the host spelled there and the end of its run, or no host at all. */
  lemma HostOpt(data: bytes, at: nat)
    ensures var o := ParseNameOpt(data, at);
            o.Ok? && o.value.Some? ==> HostAt(data, at, o.value.value.value) && o.value.value.next == RunEnd(data, at)
    ensures forall h :: HostAt(data, at, h) ==> ParseNameOpt(data, at) == Ok(Some(At(h, RunEnd(data, at))))
  {
    hide ParseNameOpt, NameAt, Wire, RunEnd;
    var o := ParseNameOpt(data, at);
    if o.Ok? && o.value.Some? { ParseNameOptIff(data, at, o.value.value.value, o.value.value.next); }
    forall h | HostAt(data, at, h) ensures o == Ok(Some(At(h, RunEnd(data, at)))) {
      ParseNameOptIff(data, at, h, RunEnd(data, at));
    }
  }

  lemma HostIff(rtype: u16, data: bytes, start: nat, len: nat, p: RData)
    requires start + len <= |data| && rtype in {5, 2, 12, 15, 33}
    ensures ParseRData(rtype, data, start, len) == Ok(Some(p)) <==> RDataAt(rtype, data, start, len, p)
  {
    hide ParseNameOpt, HostAt, RunEnd, Rd16;
    HostOpt(data, match rtype case 15 => start + 2 case 33 => start + 6 case _ => start);
  }

  lemma SoaIff(data: bytes, start: nat, len: nat, p: RData)
    requires start + len <= |data|
    ensures ParseRData(6, data, start, len) == Ok(Some(p)) <==> RDataAt(6, data, start, len, p)
  {
    hide ParseNameOpt, HostAt, RunEnd, Rd32;
    HostOpt(data, start);
    HostOpt(data, RunEnd(data, start));
  }

  lemma RrsigIff(data: bytes, start: nat, len: nat, p: RData)
    requires start + len <= |data|
    ensures ParseRData(46, data, start, len) == Ok(Some(p)) <==> RDataAt(46, data, start, len, p)
  {
    hide ParseNameOpt, HostAt, RunEnd, Rd16, Rd32;
    HostOpt(data, start + 18);
  }

  lemma NsecIff(data: bytes, start: nat, len: nat, p: RData)
    requires start + len <= |data|
    ensures ParseRData(47, data, start, len) == Ok(Some(p)) <==> RDataAt(47, data, start, len, p)
  {
    hide ParseNameOpt, HostAt, RunEnd;
    HostOpt(data, start);
  }

  /** RDATA parses to a value exactly when the message spells it at its place. */
  lemma RDataIff(rtype: u16, data: bytes, start: nat, len: nat, p: RData)
    requires start + len <= |data|
    ensures ParseRData(rtype, data, start, len) == Ok(Some(p)) <==> RDataAt(rtype, data, start, len, p)
  {
    hide RDataAt, ParseRData;
    if rtype in {5, 2, 12, 15, 33} {
      HostIff(rtype, data, start, len, p);
    } else if rtype == 6 {
      SoaIff(data, start, len, p);
    } else if rtype == 46 {
      RrsigIff(data, start, len, p);
    } else if rtype == 47 {
      NsecIff(data, start, len, p);
    } else {
      FlatIff(rtype, data, start, len, p);
    }
  }

  lemma KeyOctets(data: bytes, start: nat, len: nat)
    requires start + len <= |data| && len >= 4
    ensures var raw := data[start..start + len];
            && Rd16(raw, 0) == Rd16(data, start) && raw[2] == data[start + 2] && raw[3] == data[start + 3]
            && raw[4..] == data[start + 4..start + len]
  {
    var raw := data[start..start + len];
    assert raw[0] == data[start] && raw[1] == data[start + 1];
  }

  lemma FlatIff(rtype: u16, data: bytes, start: nat, len: nat, p: RData)
    requires start + len <= |data| && rtype !in {5, 2, 12, 15, 33, 6, 46, 47}
    ensures ParseRData(rtype, data, start, len) == Ok(Some(p)) <==> RDataAt(rtype, data, start, len, p)
  {
    hide ParseTxt, TxtAt, Rd16;
    if rtype == 16 && p.TXT? { ParseTxtIff(data[start..start + len], p.strings); }
    if len >= 4 { KeyOctets(data, start, len); }
  }

  // --- Header ---

  /** Section 4.1.1 of RFC 1035, octet by octet; AD and CD as in section 6 of RFC 4035. */
  predicate HeaderAt(data: bytes, h: Header) {
    && |data| >= 12
    && var hi, lo := data[2] as bv8, data[3] as bv8;
       && h.id == Rd16(data, 0)
       && h.qr == (hi & 0x80 != 0) && h.opcode == (hi >> 3) & 0x0F && h.aa == (hi & 4 != 0)
       && h.tc == (hi & 2 != 0) && h.rd == (hi & 1 != 0)
       && h.ra == (lo & 0x80 != 0) && h.z == lo >> 6 && h.ad == (lo & 0x20 != 0)
       && h.cd == (lo & 0x10 != 0) && h.rcode == lo & 0x0F
       && h.qdcount == Rd16(data, 4) && h.ancount == Rd16(data, 6)
       && h.nscount == Rd16(data, 8) && h.arcount == Rd16(data, 10)
  }

  lemma FlagBits(hi: bv8, lo: bv8)
    ensures var f := (hi as bv16 << 8) | (lo as bv16);
            && ((f >> 15) & 1 == 1) == (hi & 0x80 != 0) && ((f >> 11) & 0x0F) as bv8 == (hi >> 3) & 0x0F
            && ((f >> 10) & 1 == 1) == (hi & 4 != 0) && ((f >> 9) & 1 == 1) == (hi & 2 != 0)
            && ((f >> 8) & 1 == 1) == (hi & 1 != 0) && ((f >> 7) & 1 == 1) == (lo & 0x80 != 0)
            && ((f >> 6) & 0x03) as bv8 == lo >> 6 && ((f >> 5) & 1 == 1) == (lo & 0x20 != 0)
            && ((f >> 4) & 1 == 1) == (lo & 0x10 != 0) && (f & 0x0F) as bv8 == lo & 0x0F
  {
  }

  lemma ParsedFields(data: bytes)
    requires |data| >= 12
    ensures ParseHeader(data).Ok?
    ensures var h, f := ParseHeader(data).value, (data[2] as bv8 as bv16 << 8) | (data[3] as bv8 as bv16);
            && h.qr == ((f >> 15) & 1 == 1) && h.opcode == ((f >> 11) & 0x0F) as bv8 && h.aa == ((f >> 10) & 1 == 1)
            && h.tc == ((f >> 9) & 1 == 1) && h.rd == ((f >> 8) & 1 == 1) && h.ra == ((f >> 7) & 1 == 1)
            && h.z == ((f >> 6) & 0x03) as bv8 && h.ad == ((f >> 5) & 1 == 1) && h.cd == ((f >> 4) & 1 == 1)
            && h.rcode == (f & 0x0F) as bv8
            && h.id == Rd16(data, 0) && h.qdcount == Rd16(data, 4) && h.ancount == Rd16(data, 6)
            && h.nscount == Rd16(data, 8) && h.arcount == Rd16(data, 10)
  {
    hide Rd16;
  }

  lemma ParsedHeaderAt(data: bytes)
    requires |data| >= 12
    ensures ParseHeader(data).Ok? && HeaderAt(data, ParseHeader(data).value)
  {
    hide Rd16, ParseHeader;
    ParsedFields(data);
    FlagBits(data[2] as bv8, data[3] as bv8);
  }

  lemma OneHeaderAt(data: bytes, g: Header, h: Header)
    requires HeaderAt(data, g) && HeaderAt(data, h)
    ensures g == h
  {
    hide Rd16;
  }

  lemma HeaderIff(data: bytes, h: Header)
    ensures ParseHeader(data) == Ok(h) <==> HeaderAt(data, h)
  {
    if |data| >= 12 {
      ParsedHeaderAt(data);
      hide HeaderAt, ParseHeader;
      if HeaderAt(data, h) { OneHeaderAt(data, ParseHeader(data).value, h); }
    }
  }

  // --- Questions and records ---

  ghost predicate QuestionAt(data: bytes, at: nat, q: Question, next: nat) {
    var off := RunEnd(data, at);
    && HostAt(data, at, q.qname) && off + 4 <= |data| && next == off + 4
    && q.qtype == Rd16(data, off) && q.qclass == Rd16(data, off + 2)
  }

  /** RDATA is kept flattened when it parses, and as it stands when it spells nothing. */
  ghost predicate RecordAt(data: bytes, at: nat, r: Record, next: nat) {
    var off := RunEnd(data, at);
    && HostAt(data, at, r.name) && off + 10 <= |data|
    && r.rtype == Rd16(data, off) && r.rclass == Rd16(data, off + 2) && r.ttl == Rd32(data, off + 4)
    && var start, len := off + 10, Rd16(data, off + 8);
       && start + len <= |data| && next == start + len && r.rdlength == |r.rdata| % 0x1_0000
       && match r.parsed
          case Some(p) => RDataAt(r.rtype, data, start, len, p) && r.rdata == Flatten(p)
          case None => SpellsNothing(r.rtype, data, start, len) && r.rdata == data[start..start + len]
  }

  ghost predicate SpellsNothing(rtype: u16, data: bytes, start: nat, len: nat)
    requires start + len <= |data|
  {
    forall p :: !RDataAt(rtype, data, start, len, p)
  }

  lemma HostName(data: bytes, at: nat)
    ensures var o := ParseName(data, at);
            o.Ok? ==> HostAt(data, at, o.value.value) && o.value.next == RunEnd(data, at)
    ensures forall h :: HostAt(data, at, h) ==> ParseName(data, at) == Ok(At(h, RunEnd(data, at)))
  {
    hide ParseName, NameAt, Wire, RunEnd;
    var o := ParseName(data, at);
    if o.Ok? { ParseNameIff(data, at, o.value.value, o.value.next); }
    forall h | HostAt(data, at, h) ensures o == Ok(At(h, RunEnd(data, at))) {
      ParseNameIff(data, at, h, RunEnd(data, at));
    }
  }

  lemma QuestionIff(data: bytes, at: nat, q: Question, next: nat)
    ensures ParseQuestion(data, at) == Ok(At(q, next)) <==> QuestionAt(data, at, q, next)
  {
    hide ParseName, HostAt, RunEnd, Rd16;
    HostName(data, at);
  }

  lemma NothingSpelled(rtype: u16, data: bytes, start: nat, len: nat)
    requires start + len <= |data| && ParseRData(rtype, data, start, len) == Ok(None)
    ensures SpellsNothing(rtype, data, start, len)
  {
    hide ParseRData, RDataAt;
    forall p ensures !RDataAt(rtype, data, start, len, p) { RDataIff(rtype, data, start, len, p); }
  }

  /** Every record read stands where it was read; one whose RDATA spells something is read wherever it stands. */
  lemma RecordIff(data: bytes, at: nat, r: Record, next: nat)
    ensures ParseRecord(data, at) == Ok(At(r, next)) ==> RecordAt(data, at, r, next)
    ensures RecordAt(data, at, r, next) && r.parsed.Some? ==> ParseRecord(data, at) == Ok(At(r, next))
  {
    hide ParseName, HostAt, RunEnd, Rd16, Rd32, ParseRData, RDataAt, Flatten, SpellsNothing;
    HostName(data, at);
    var off := RunEnd(data, at);
    if off + 10 <= |data| && off + 10 + Rd16(data, off + 8) <= |data| {
      var rtype, start, len := Rd16(data, off), off + 10, Rd16(data, off + 8);
      if r.parsed.Some? { RDataIff(rtype, data, start, len, r.parsed.value); }
      if ParseRData(rtype, data, start, len) == Ok(None) { NothingSpelled(rtype, data, start, len); }
    }
  }

  // --- Sections and messages ---

  ghost predicate QuestionsAt(data: bytes, at: nat, qs: seq<Question>, end: nat)
    decreases |qs|
  {
    if qs == [] then end == at
    else exists next: nat :: QuestionAt(data, at, qs[0], next) && QuestionsAt(data, next, qs[1..], end)
  }

  ghost predicate RecordsAt(data: bytes, at: nat, rs: seq<Record>, end: nat)
    decreases |rs|
  {
    if rs == [] then end == at
    else exists next: nat :: RecordAt(data, at, rs[0], next) && RecordsAt(data, next, rs[1..], end)
  }

  predicate AllParsed(rs: seq<Record>) { forall i :: 0 <= i < |rs| ==> rs[i].parsed.Some? }

  lemma ParsedHead<T>(x: T, rest: seq<T>)
    ensures ([x] + rest)[0] == x && ([x] + rest)[1..] == rest
  {
  }

  lemma {:induction false} QuestionsIff(data: bytes, at: nat, qs: seq<Question>, end: nat)
    ensures ParseQuestions(data, at, |qs|) == Ok(At(qs, end)) <==> QuestionsAt(data, at, qs, end)
    decreases |qs|
  {
    hide ParseQuestion, QuestionAt;
    if qs != [] {
      var q := ParseQuestion(data, at);
      if q.Ok? {
        QuestionIff(data, at, q.value.value, q.value.next);
        QuestionsIff(data, q.value.next, qs[1..], end);
        var rest := ParseQuestions(data, q.value.next, |qs| - 1);
        if rest.Ok? { ParsedHead(q.value.value, rest.value.value); }
        assert qs == [qs[0]] + qs[1..];
      }
      forall next: nat | QuestionAt(data, at, qs[0], next) ensures q == Ok(At(qs[0], next)) {
        QuestionIff(data, at, qs[0], next);
      }
    }
  }

  lemma {:induction false} ParsedRecordsAt(data: bytes, at: nat, count: nat)
    requires ParseRecords(data, at, count).Ok?
    ensures var o := ParseRecords(data, at, count).value; |o.value| == count && RecordsAt(data, at, o.value, o.next)
    decreases count
  {
    hide ParseRecord, RecordAt;
    if count > 0 {
      var r := ParseRecord(data, at).value;
      RecordIff(data, at, r.value, r.next);
      ParsedRecordsAt(data, r.next, count - 1);
      ParsedHead(r.value, ParseRecords(data, r.next, count - 1).value.value);
    }
  }

  lemma {:induction false} RecordsAtParsed(data: bytes, at: nat, rs: seq<Record>, end: nat)
    requires RecordsAt(data, at, rs, end) && AllParsed(rs)
    ensures ParseRecords(data, at, |rs|) == Ok(At(rs, end))
    decreases |rs|
  {
    hide ParseRecord, RecordAt;
    if rs != [] {
      var next: nat :| RecordAt(data, at, rs[0], next) && RecordsAt(data, next, rs[1..], end);
      RecordIff(data, at, rs[0], next);
      RecordsAtParsed(data, next, rs[1..], end);
      assert rs == [rs[0]] + rs[1..];
    }
  }

  /** The sections follow each other from octet 12 on, each as long as the header says. */
  ghost predicate MessageAt(data: bytes, m: Message, a: nat, n: nat, x: nat, end: nat) {
    && HeaderAt(data, m.header)
    && |m.questions| == m.header.qdcount && QuestionsAt(data, 12, m.questions, a)
    && |m.answers| == m.header.ancount && RecordsAt(data, a, m.answers, n)
    && |m.authorities| == m.header.nscount && RecordsAt(data, n, m.authorities, x)
    && |m.additionals| == m.header.arcount && RecordsAt(data, x, m.additionals, end)
  }

  lemma {:induction false} QuestionsCount(data: bytes, at: nat, count: nat)
    requires ParseQuestions(data, at, count).Ok?
    ensures |ParseQuestions(data, at, count).value.value| == count
    decreases count
  {
    hide ParseQuestion;
    if count > 0 { QuestionsCount(data, ParseQuestion(data, at).value.next, count - 1); }
  }

  /** Every accepted message stands in the octets it was read from. */
  lemma ParsedStandsThere(data: bytes) returns (a: nat, n: nat, x: nat, end: nat)
    requires Parse(data).Ok?
    ensures MessageAt(data, Parse(data).value, a, n, x, end)
  {
    hide ParseHeader, ParseQuestions, ParseRecords, HeaderAt, QuestionsAt, RecordsAt;
    var h := ParseHeader(data).value;
    HeaderIff(data, h);
    var qs := ParseQuestions(data, 12, h.qdcount).value;
    QuestionsCount(data, 12, h.qdcount);
    QuestionsIff(data, 12, qs.value, qs.next);
    a := qs.next;
    ParsedRecordsAt(data, a, h.ancount);
    n := ParseRecords(data, a, h.ancount).value.next;
    ParsedRecordsAt(data, n, h.nscount);
    x := ParseRecords(data, n, h.nscount).value.next;
    ParsedRecordsAt(data, x, h.arcount);
    end := ParseRecords(data, x, h.arcount).value.next;
  }

  /** A message of records with parsed RDATA is what parsing gives exactly when it stands there. */
  lemma ParseIff(data: bytes, m: Message)
    requires AllParsed(m.answers) && AllParsed(m.authorities) && AllParsed(m.additionals)
    ensures Parse(data) == Ok(m) <==> exists a, n, x, end :: MessageAt(data, m, a, n, x, end)
  {
    hide ParseHeader, ParseQuestions, ParseRecords, HeaderAt, QuestionsAt, RecordsAt, AllParsed;
    if Parse(data) == Ok(m) {
      var a, n, x, end := ParsedStandsThere(data);
    }
    if a: nat, n: nat, x: nat, end: nat :| MessageAt(data, m, a, n, x, end) {
      HeaderIff(data, m.header);
      QuestionsIff(data, 12, m.questions, a);
      RecordsAtParsed(data, a, m.answers, n);
      RecordsAtParsed(data, n, m.authorities, x);
      RecordsAtParsed(data, x, m.additionals, end);
    }
  }

  // --- Panics ---

  /** Reading RDATA goes out of range exactly for an NSEC whose next name ends behind the RDATA. */
  lemma RDataPanicIff(rtype: u16, data: bytes, start: nat, len: nat)
    requires start + len <= |data|
    ensures ParseRData(rtype, data, start, len).Panic? <==>
              rtype == 47 && (exists h :: HostAt(data, start, h)) && RunEnd(data, start) > start + len
  {
    hide HostAt, RunEnd, Rd16, Rd32, ParseTxt;
    NoNamePanics(data, start);
    NoNamePanics(data, start + 2);
    NoNamePanics(data, start + 6);
    NoNamePanics(data, start + 18);
    var m := ParseNameOpt(data, start);
    if m.Ok? && m.value.Some? { NoNamePanics(data, m.value.value.next); }
    HostOpt(data, start);
    hide ParseNameOpt;
  }

  lemma NoNamePanics(data: bytes, at: nat)
    ensures !ParseNameOpt(data, at).Panic?
  {
    hide Decode;
  }
}
