/** DNS messages: parser and printer of src/dns/types.rs (section 4.1 of RFC 1035). */
module Messages {
  import opened Bytes
  import opened Names
  import opened Decompress

  // --- Entities ---

  datatype Header = Header(
    id: u16, qr: bool, opcode: bv8, aa: bool, tc: bool, rd: bool, ra: bool, z: bv8, ad: bool, cd: bool, rcode: bv8,
    qdcount: u16, ancount: u16, nscount: u16, arcount: u16)

  datatype Question = Question(qname: bytes, qtype: u16, qclass: u16)

  /** High-level RDATA; addresses are their octets. */
  datatype RData =
    | A(addr: bytes)
    | AAAA(addr: bytes)
    | CNAME(host: bytes)
    | NS(host: bytes)
    | PTR(host: bytes)
    | MX(preference: u16, exchange: bytes)
    | SOA(mname: bytes, rname: bytes, serial: u32, refresh: u32, retry: u32, expire: u32, minimum: u32)
    | TXT(strings: seq<bytes>)
    | SRV(priority: u16, weight: u16, port: u16, target: bytes)
    | RRSIG(typeCovered: u16, algorithm: byte, labels: byte, originalTtl: u32, expiration: u32, inception: u32,
            keyTag: u16, signerName: bytes, signature: bytes)
    | DNSKEY(flags: u16, protocol: byte, algorithm: byte, publicKey: bytes)
    | NSEC(nextDomain: bytes, typeBitMaps: bytes)
    | DS(keyTag: u16, algorithm: byte, digestType: byte, digest: bytes)
    | Unknown(raw: bytes)

  datatype Record = Record(
    name: bytes, rtype: u16, rclass: u16, ttl: u32, rdlength: u16, rdata: bytes, parsed: Option<RData>)

  datatype Message = Message(
    header: Header, questions: seq<Question>, answers: seq<Record>, authorities: seq<Record>, additionals: seq<Record>)

  function HasType(t: u16): Record -> bool { (r: Record) => r.rtype == t }

  /** How a call can end; `Hang` is an endless pointer loop, `Panic` a slice out of range. */
  datatype Outcome<+T> = Ok(value: T) | Err | Hang | Panic {
    predicate IsFailure() { !Ok? }
    function PropagateFailure<U>(): Outcome<U>
      requires IsFailure()
    {
      match this case Err => Err case Hang => Hang case Panic => Panic
    }
    function Extract(): T
      requires !IsFailure()
    {
      value
    }
  }

  /** A value and the offset just after it. */
  datatype At<+T> = At(value: T, next: nat)

  // --- Header ---

  function Bit(b: bool): bv16 { if b then 1 else 0 }

  function FlagWord(hi: byte, lo: byte): bv16 { ((hi as bv8) as bv16 << 8) | ((lo as bv8) as bv16) }

  function ParseHeader(data: bytes): Outcome<Header> {
    if |data| < 12 then Err
    else
      var flags := FlagWord(data[2], data[3]);
      Ok(Header(Rd16(data, 0),
                (flags >> 15) & 1 == 1,
                ((flags >> 11) & 0x0F) as bv8,
                (flags >> 10) & 1 == 1,
                (flags >> 9) & 1 == 1,
                (flags >> 8) & 1 == 1,
                (flags >> 7) & 1 == 1,
                ((flags >> 6) & 0x03) as bv8,
                (flags >> 5) & 1 == 1,
                (flags >> 4) & 1 == 1,
                (flags & 0x0F) as bv8,
                Rd16(data, 4), Rd16(data, 6), Rd16(data, 8), Rd16(data, 10)))
  }

  function Flags(h: Header): bv16 {
    (Bit(h.qr) << 15) | (h.opcode as bv16 << 11) | (Bit(h.aa) << 10) | (Bit(h.tc) << 9) | (Bit(h.rd) << 8)
    | (Bit(h.ra) << 7) | (h.z as bv16 << 6) | (Bit(h.ad) << 5) | (Bit(h.cd) << 4) | h.rcode as bv16
  }

  function PrintHeader(h: Header): (s: bytes)
    ensures |s| == 12
  {
    var f := Flags(h);
    Be16(h.id) + [(f >> 8) as bv8 as int, (f & 0xFF) as bv8 as int]
    + Be16(h.qdcount) + Be16(h.ancount) + Be16(h.nscount) + Be16(h.arcount)
  }

  /** What every parsed header satisfies: four-bit fields, and `z` overlapping `ra` in bit 7. */
  predicate HeaderInRange(h: Header) {
    h.opcode < 16 && h.rcode < 16 && h.z < 4 && (h.ra <==> h.z >= 2)
  }

  // --- Questions and records ---

  function ParseName(data: bytes, off: nat): (r: Outcome<At<bytes>>) {
    match Decode(data, off)
    case Name(name, end) => Ok(At(name, end))
    case Fail(_) => Err
    case Endless => Hang
  }

  function ParseQuestion(data: bytes, offset: nat): Outcome<At<Question>> {
    var n :- ParseName(data, offset);
    if n.next + 4 > |data| then Err
    else Ok(At(Question(n.value, Rd16(data, n.next), Rd16(data, n.next + 2)), n.next + 4))
  }

  /** `parse_rdata` turns a decoding error into `None`; only a hang goes further. */
  function ParseNameOpt(data: bytes, off: nat): Outcome<Option<At<bytes>>> {
    match ParseName(data, off)
    case Ok(at) => Ok(Some(at))
    case Err => Ok(None)
    case Hang => Hang
    case Panic => Panic
  }

  function ParseTxt(rdata: bytes): Option<seq<bytes>>
    decreases |rdata|
  {
    if rdata == [] then Some([])
    else
      var n := LabelSpan(rdata);
      if n > |rdata| then None
      else match ParseTxt(rdata[n..])
        case None => None
        case Some(rest) => Some((if Utf8Valid(rdata[1..n]) then [rdata[1..n]] else []) + rest)
  }

  /** `parse_name_rdata` and the like: too little RDATA, or an undecodable name, gives `None`. */
  function ParseHost(data: bytes, at: nat, enough: bool, ctor: bytes -> RData): Outcome<Option<RData>> {
    if !enough then Ok(None)
    else
      var n :- ParseNameOpt(data, at);
      Ok(match n case None => None case Some(at) => Some(ctor(at.value)))
  }

  function ParseSoa(data: bytes, start: nat, len: nat): Outcome<Option<RData>>
    requires start + len <= |data|
  {
    var m :- ParseNameOpt(data, start);
    if m.None? then Ok(None)
    else
      var r :- ParseNameOpt(data, m.value.next);
      if r.None? || r.value.next - start + 20 > len then Ok(None)
      else
        var at := r.value.next;
        Ok(Some(SOA(m.value.value, r.value.value, Rd32(data, at), Rd32(data, at + 4), Rd32(data, at + 8),
                    Rd32(data, at + 12), Rd32(data, at + 16))))
  }

  function ParseRrsig(data: bytes, start: nat, len: nat): Outcome<Option<RData>>
    requires start + len <= |data|
  {
    if len < 18 then Ok(None)
    else
      var n :- ParseNameOpt(data, start + 18);
      if n.None? || n.value.next > start + len then Ok(None)
      else
        Ok(Some(RRSIG(Rd16(data, start), data[start + 2], data[start + 3], Rd32(data, start + 4),
                      Rd32(data, start + 8), Rd32(data, start + 12), Rd16(data, start + 16),
                      n.value.value, data[n.value.next..start + len])))
  }

  /** The bitmap slice is taken without a check: a next name ending past the RDATA panics. */
  function ParseNsec(data: bytes, start: nat, len: nat): Outcome<Option<RData>>
    requires start + len <= |data|
  {
    var n :- ParseNameOpt(data, start);
    match n
    case None => Ok(None)
    case Some(at) =>
      if at.next > start + len then Panic
      else Ok(Some(NSEC(at.value, data[at.next..start + len])))
  }

  function ParseRData(rtype: u16, data: bytes, start: nat, len: nat): Outcome<Option<RData>>
    requires start + len <= |data|
  {
    var raw := data[start..start + len];
    match rtype
    case 1 => Ok(if len == 4 then Some(A(raw)) else None)
    case 28 => Ok(if len == 16 then Some(AAAA(raw)) else None)
    case 5 => ParseHost(data, start, len > 0, h => CNAME(h))
    case 2 => ParseHost(data, start, len > 0, h => NS(h))
    case 12 => ParseHost(data, start, len > 0, h => PTR(h))
    case 15 => if len < 3 then Ok(None) else ParseHost(data, start + 2, true, h => MX(Rd16(data, start), h))
    case 6 => ParseSoa(data, start, len)
    case 16 => Ok(match ParseTxt(raw) case None => None case Some(strings) => Some(TXT(strings)))
    case 33 =>
      if len < 7 then Ok(None)
      else
        ParseHost(data, start + 6, true,
                  h => SRV(Rd16(data, start), Rd16(data, start + 2), Rd16(data, start + 4), h))
    case 46 => ParseRrsig(data, start, len)
    case 48 => Ok(if len < 4 then None else Some(DNSKEY(Rd16(raw, 0), raw[2], raw[3], raw[4..])))
    case 43 => Ok(if len < 4 then None else Some(DS(Rd16(raw, 0), raw[2], raw[3], raw[4..])))
    case 47 => ParseNsec(data, start, len)
    case _ => Ok(Some(Unknown(raw)))
  }

  function FlattenTxt(strings: seq<bytes>): bytes {
    if strings == [] then [] else [|strings[0]| % 0x100] + strings[0] + FlattenTxt(strings[1..])
  }

  /** `decompressed_rdata`. */
  function Flatten(p: RData): bytes {
    match p
    case A(addr) => addr
    case AAAA(addr) => addr
    case CNAME(h) => h
    case NS(h) => h
    case PTR(h) => h
    case MX(pref, ex) => Be16(pref) + ex
    case SOA(m, r, serial, refresh, retry, expire, minimum) =>
      m + r + Be32(serial) + Be32(refresh) + Be32(retry) + Be32(expire) + Be32(minimum)
    case TXT(strings) => FlattenTxt(strings)
    case SRV(prio, weight, port, target) => Be16(prio) + Be16(weight) + Be16(port) + target
    case RRSIG(tc, alg, labels, ttl, exp, inc, tag, signer, sig) =>
      Be16(tc) + [alg, labels] + Be32(ttl) + Be32(exp) + Be32(inc) + Be16(tag) + signer + sig
    case DNSKEY(flags, prot, alg, key) => Be16(flags) + [prot, alg] + key
    case NSEC(next, maps) => next + maps
    case DS(tag, alg, dtype, digest) => Be16(tag) + [alg, dtype] + digest
    case Unknown(raw) => raw
  }

  /** A record of class IN as the parser makes it from RDATA it can parse. */
  function RecordOf(name: bytes, rtype: u16, ttl: u32, p: RData): Record {
    Record(name, rtype, 1, ttl, |Flatten(p)| % 0x1_0000, Flatten(p), Some(p))
  }

  function ParseRecord(data: bytes, offset: nat): Outcome<At<Record>> {
    var n :- ParseName(data, offset);
    var off := n.next;
    if off + 10 > |data| then Err
    else
      var rtype := Rd16(data, off);
      var len := Rd16(data, off + 8);
      var start := off + 10;
      if start + len > |data| then Err
      else
        var parsed :- ParseRData(rtype, data, start, len);
        var rdata := match parsed case Some(p) => Flatten(p) case None => data[start..start + len];
        Ok(At(Record(n.value, rtype, Rd16(data, off + 2), Rd32(data, off + 4), |rdata| % 0x1_0000, rdata, parsed),
              start + len))
  }

  function ParseQuestions(data: bytes, offset: nat, count: nat): Outcome<At<seq<Question>>>
    decreases count
  {
    if count == 0 then Ok(At([], offset))
    else
      var q :- ParseQuestion(data, offset);
      var rest :- ParseQuestions(data, q.next, count - 1);
      Ok(At([q.value] + rest.value, rest.next))
  }

  function ParseRecords(data: bytes, offset: nat, count: nat): Outcome<At<seq<Record>>>
    decreases count
  {
    if count == 0 then Ok(At([], offset))
    else
      var r :- ParseRecord(data, offset);
      var rest :- ParseRecords(data, r.next, count - 1);
      Ok(At([r.value] + rest.value, rest.next))
  }

  function ParseSections(data: bytes, h: Header): Outcome<Message> {
    var qs :- ParseQuestions(data, 12, h.qdcount);
    var an :- ParseRecords(data, qs.next, h.ancount);
    var ns :- ParseRecords(data, an.next, h.nscount);
    var ar :- ParseRecords(data, ns.next, h.arcount);
    Ok(Message(h, qs.value, an.value, ns.value, ar.value))
  }

  function Parse(data: bytes): Outcome<Message> {
    var h :- ParseHeader(data);
    ParseSections(data, h)
  }

  // --- Printer ---

  function PrintQuestion(q: Question): bytes { q.qname + Be16(q.qtype) + Be16(q.qclass) }

  function PrintRecord(r: Record): bytes {
    r.name + Be16(r.rtype) + Be16(r.rclass) + Be32(r.ttl) + Be16(r.rdlength) + r.rdata
  }

  function PrintQuestions(qs: seq<Question>): bytes {
    if qs == [] then [] else PrintQuestion(qs[0]) + PrintQuestions(qs[1..])
  }

  function PrintRecords(rs: seq<Record>): bytes {
    if rs == [] then [] else PrintRecord(rs[0]) + PrintRecords(rs[1..])
  }

  /** The counts written are the section lengths, whatever the header says. */
  function Counted(m: Message): Header {
    m.header.(qdcount := |m.questions| % 0x1_0000, ancount := |m.answers| % 0x1_0000,
              nscount := |m.authorities| % 0x1_0000, arcount := |m.additionals| % 0x1_0000)
  }

  function Print(m: Message): bytes {
    PrintHeader(Counted(m)) + PrintQuestions(m.questions) + PrintRecords(m.answers)
    + PrintRecords(m.authorities) + PrintRecords(m.additionals)
  }

  /** `copy_from_slice` of the RDATA panics unless the length field is the real length. */
  predicate LengthsAgree(m: Message) {
    forall r :: r in m.answers + m.authorities + m.additionals ==> r.rdlength == |r.rdata|
  }
}
