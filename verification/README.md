# FastDNS, modelled and proved in Dafny

FastDNS is a recursive DNS resolver written in Rust. This project models the four parts of it whose behaviour is
hardest to see from the code, and proves what they do for every input, every run and every network:

- **Names and messages** (`src/dns/types.rs`): decompression of names, the label algebra, the message parser and the
  printer that writes into a caller's buffer.
- **DNSSEC** (`src/dnssec/mod.rs`): the chain-of-trust walk, verdicts on RRsets and responses, the canonical octets that
  are signed, the NSEC denial proof, type bitmaps and base32hex.
- **Resolution** (`src/resolver/recursive.rs`): the iterative loop with QNAME minimisation and CNAME chasing, its mutual
  recursion with name server resolution, the delegation cache, the TCP pool and the lock discipline.
- **The cache** (`src/resolver/cache.rs`): two LRU stores, de-duplication, expiry, serve-stale and purging.

`dafny verify dfyconfig.toml` checks all of it.

## How the model is built

Code that computes a value by cases or recursion is a function. Code that works by loops or by changing state is a
method or a class, and its postcondition ties it to a function (`Decode`, `Parse`, `Print`, `Resolve`, `Insert`, ...).
The lemmas are about these functions, and about runs made of them.

- Octet strings are sequences of integers below 256; a Rust `str` is its UTF-8 octets.
- Time is a natural number of nanoseconds, or seconds where the code uses Unix time. Every operation reads the clock
  once.
- Cryptography is an arbitrary predicate (signature check) and an arbitrary function (digest). The network, the other
  caches and the validator are arbitrary functions of which question is being asked, so each theorem holds for every
  signature scheme and every adversary, including one that answers the same question differently each time.
- A call that never returns (`Endless`, `Hang`) and a slice out of range (`Panic`) are outcomes like any other.
- `LruCache` is a list in recency order with a capacity (module `Lru`).

Names used in the table: `Wire` is the uncompressed wire form of a label list, `SameName` what `domain_names_equal`
decides, `Compare` what `canonical_dns_name_order` decides, `Spells` the reading of a name with pointers that section
4.1.4 of RFC 1035 describes, `TrustPath` a list of zones from a key set up to a signed trust anchor, `HasName` the
existence of a name in a zone (an owner at or below it), and `WildcardAnswers` synthesis from the wildcard at the closest
encloser (section 3.3.1 of RFC 4592).

## Where the code and its promises part

- The pointer guard of `decode_domain_name` compares with the starting offset only. A pointer loop before that offset
  is followed for ever (`SelfPointerNeverReturns`). The call returns exactly when no position is visited twice.
- A record whose RDATA could not be parsed because of a pointer is printed as raw octets and can mean something else
  afterwards (`UnprintableCanChange`). A message survives exactly when every unparsed record is left unparsed again at
  the place where it is printed (`ParsePrintParseIff`).
- `build_signed_data` sorts whole wire records, so the RDATA length is compared before the RDATA. This is the order of
  section 6.3 of RFC 4034 exactly when no shorter RDATA sorts after a longer one (`CanonicalOrderIff`).
- `record_rdata_canonical` does not know SRV and RRSIG and signs them with empty RDATA, where section 6.2 of RFC 4034 asks
  for the RDATA (`SrvContentsUnsigned`, `CanonicalRDataIff`).
- `matching_rrsigs_for` compares the signer's name with the owner name, so an RRset below the apex of its zone has no
  matching signature and passes unchecked (`BelowApexIsSecure`). Secure authenticates the answers exactly when each RRset
  has a matching signature (`AllAuthenticatedIff`).
- The wildcard test for NXDOMAIN asks for a wildcard that is covered or whose types lack the one asked for, but the code
  accepts any NSEC record owned by the wildcard, and looks for it at an encloser computed from NSEC owners, which is too
  short when the real one is an empty non-terminal. NXDOMAIN is Secure for names that a wildcard of the zone answers
  (`WildcardOverlooked`, `DeepWildcardOverlooked`) and for empty non-terminals, which exist (`EmptyNonTerminalDenied`).
  When exactly NXDOMAIN is right can be read off the covering record (`NameErrorIff`).
- `verify_authority_rrsigs` wants for every NSEC owner a signature whose signer is that owner. A zone signs with its apex
  as the signer, so there no denial holding an NSEC of another owner is ever Secure (`OneSignerOneOwner`); when exactly a
  denial is Secure is `DenialSecureIff`. The keys for it are looked up in the cache, which keeps records without their
  parsed form; with such keys no denial is Secure at all (`UnparsedKeysNeverSecure`).
- `insert` drops a fresh record if an expired copy of the same data is still in the list (`ReinsertionIsLost`,
  `InsertVisibleIff`).
- A missing DS record is not authenticated before a chain is called Insecure (`HiddenDsIsInsecure`,
  `InsecureIffUnsigned`). For the answers such a chain only means that the signature does not decide: a response is
  Insecure exactly when it has no signature (`InsecureIffNoSignatures`).
- A connection given back to a full list is dropped although it is the newest (`FullListDropsNewest`); what acquire
  returns is said by `AcquireIsLastPooled`.
- The minimised query name is the rest of the name's own octets, after the labels skipped, only if labels take up all
  the octets and the last one is zero (`PrefixIsRestIff`, `MalformedIsNoSuffix`); it always has the right labels.
- The cycle between the round-trip-time and the health lock is harmless only because one task takes the health lock;
  two such tasks could block each other (`TwoCheckersBlock`).
- The work limit of the mutual recursion is finite but astronomically large, and a network that answers every query with
  the same lame referral reaches it (`HostileSpends`).

## Model

| member | source | states |
|---|---|---|
| Names.UnwireWire | src/dns/types.rs:635-680 | Every list of labels of 1 to 63 octets is recovered from its uncompressed wire form. |
| Names.WireUnwire | src/dns/types.rs:635-680 | Every well-formed name is the wire form of its labels, so well-formed names and label lists correspond one to one. |
| Names.SameOctets | src/dns/types.rs:727-736 | The inner loop accepts exactly when both names still have that many octets and they agree up to ASCII case. |
| Names.DomainNamesEqual | src/dns/types.rs:707-738 | The comparison loop decides `SameName` on any two octet strings, truncated ones included. |
| Names.SameNameIffLabels | src/dns/types.rs:706-738 | Two names compare equal exactly when their lower-cased label lists are equal. |
| Names.SameNameIff | src/dns/types.rs:706-738 | The same for any two well-formed octet strings. |
| Names.CountLabels | src/dns/types.rs:741-753 | The counting loop computes the label count of any octet string. |
| Names.LabelCountWire | src/dns/types.rs:741-753 | The count of a wire form is the number of its labels. |
| Names.NamePrefixOf | src/dns/types.rs:757-784 | The copying loop computes `PrefixOf` on any octet string, the slice out of range included. |
| Names.PrefixPanicsIff | src/dns/types.rs:757-784 | The slice goes out of range exactly when a label runs past the end and some but not all labels are asked for. |
| Names.PrefixHasLastLabels | src/dns/types.rs:755-784 | On any octets, whatever is returned has exactly the last min(n, total) labels. |
| Names.PrefixOfWellFormed | src/dns/types.rs:755-784 | On a well-formed name the result is the name made of the last n labels. |
| Names.PrefixIsRestIff | src/dns/types.rs:757-784 | For some but not all labels the result is the rest of the name's own octets exactly when labels take up all the octets and the last octet is zero. |
| Names.NamePrefixIsSuffix | src/dns/types.rs:755-784 | A minimised name is an octet suffix of the full name, well formed, with min(n, total) labels. |
| Decompress.DecodeDomainName | src/dns/types.rs:635-680 | Whenever the decoding loop returns, its result (name and end, or which error) is the model's. |
| Decompress.EndlessIsForever | src/dns/types.rs:635-680 | The outcome Endless means that no number of loop turns finishes; any outcome reached after some turns is the result. |
| Decompress.EndlessIffRevisits | src/dns/types.rs:635-680 | Decoding fails to return exactly when the walk visits some position twice. |
| Decompress.SelfPointerNeverReturns | src/dns/types.rs:652-665 | The octets C0 00 C0 00 decoded at offset 2 pass the guard and never return. |
| Decompress.BackwardRunsReturn | src/dns/types.rs:635-680 | If every pointer met targets a position before the start of its label run, decoding returns. |
| Decompress.DecodeIffSpelled | src/dns/types.rs:635-680 | Decoding yields a name and an end exactly when the name is the recursive expansion at that offset and the end lies just past the first pointer or root octet. |
| Decompress.DecodedShape | src/dns/types.rs:635-680 | Every decoded name is labels of 1 to 63 octets closed by one zero, and the end is after the start and inside the data. |
| Decompress.DecodePlain | src/dns/types.rs:635-680 | An uncompressed name decodes to itself wherever it stands. |
| RoundTrip.ParsedHeaderInRange | src/dns/types.rs:81-105 | A parsed header has four-bit codes and `z` agreeing with `ra` in the bit they share. |
| RoundTrip.HeaderReparse | src/dns/types.rs:81-131 | Every header in that range is recovered from its twelve printed octets. |
| RoundTrip.ParsedFits | src/dns/types.rs:790-816 | Whatever RDATA parses to fits its type: all names uncompressed and well formed, all texts UTF-8. |
| RoundTrip.RDataReparse | src/dns/types.rs:790-952 | Decompressed RDATA of every supported type parses back to the value it came from, at any place in any message. |
| RoundTrip.RecordReparseIff | src/dns/types.rs:279-338 | A printed record is read back unchanged exactly when its RDATA, if unparsed, is left unparsed at that place; in any case reading ends where it ends. |
| RoundTrip.PrintParseIff | src/dns/types.rs:417-481 | A message as the parser leaves it is recovered from its printed form exactly when every unparsed record survives at its place. |
| RoundTrip.PrintParseAnyCounts | src/dns/types.rs:460-481 | A message with any counts in its header is printed with the lengths of its sections. |
| RoundTrip.ParsedMessage | src/dns/types.rs:417-458 | Every accepted message with real lengths is restored: counts agree, RDATA is the flattening of its parsed form, no pointer is left in any name. |
| RoundTrip.ParsePrintParseIff | src/dns/types.rs:417-481 | For every accepted octet string that can be printed, parsing the printed message gives the same message exactly when each unparsed record is left unparsed at the place where it is printed. |
| RoundTrip.ParsePrintParse | src/dns/types.rs:417-481 | In particular it does when every record is parsed, or of a form that parses nowhere. |
| Shifting.UnprintableCanChange | src/dns/types.rs:279-338 | A concrete accepted message with an unparsed record whose printed form parses to a different message. |
| Buffers.ReadQuestions | src/dns/types.rs:417-458 | The question loop reads what the recursive parser reads, errors included. |
| Buffers.ReadRecords | src/dns/types.rs:417-458 | The record loop reads what the recursive parser reads, errors included. |
| Buffers.MessageFromBytes | src/dns/types.rs:417-458 | The imperative parser computes `Parse` on every octet string. |
| Placement.HeaderIff | src/dns/types.rs:81-105 | A header parses exactly to the fields its twelve octets hold, bit by bit as section 4.1.1 of RFC 1035 lays them out. |
| Placement.ParseTxtIff | src/dns/types.rs:1074-1089 | TXT RDATA parses exactly to the UTF-8 ones among the strings it is a row of. |
| Placement.RDataIff | src/dns/types.rs:790-1189 | RDATA of every type parses to a value exactly when the message spells it at its place: fields at their offsets, names followed through the whole message, what is left over behind the last name. |
| Placement.RDataPanicIff | src/dns/types.rs:1161-1173 | Reading RDATA goes out of range exactly for an NSEC whose next name ends behind the RDATA. |
| Placement.QuestionIff | src/dns/types.rs:156-173 | A question is read exactly where its name, type and class stand. |
| Placement.RecordIff | src/dns/types.rs:279-318 | Every record read stands where it was read, owner followed through the message, RDATA kept as it is only if it spells nothing; a record whose RDATA spells something is read wherever it stands. |
| Placement.ParsedStandsThere | src/dns/types.rs:417-458 | Every accepted message stands in its octets: header, then the sections one after the other, each as long as the header says. |
| Placement.ParseIff | src/dns/types.rs:417-458 | A message of records with parsed RDATA is what parsing gives exactly when it stands there. |
| Buffers.WriteQuestions | src/dns/types.rs:175-186 | Writing questions in place succeeds exactly when they fit, and leaves what is before and after as it was. |
| Buffers.WriteRecords | src/dns/types.rs:322-338 | Writing records in place ends as `Written` says, the panic of a wrong length field included; on success what is before and after is as it was. |
| Buffers.WrittenOkIff | src/dns/types.rs:322-338 | It succeeds exactly when all length fields are the real lengths and the printed records fit. |
| Buffers.WrittenPanicIff | src/dns/types.rs:322-338 | It panics exactly when some record announces another length than its own, that length fits, and all records before it agree and fit. |
| Buffers.MessageToBytes | src/dns/types.rs:460-481 | Ends as `MessageWritten` says for every message and buffer; on success exactly the printed form is written and nothing behind it. |
| Buffers.PrintsIff | src/dns/types.rs:460-481 | Printing succeeds exactly when the length fields are the real lengths and the printed form fits. |
| NameText.EncodeDomainName | src/dns/types.rs:569-593 | The encoding loop computes `Encode`, rejecting empty and oversized labels. |
| NameText.LabelsToString | src/dns/types.rs:683-704 | The reading loop computes `ToText` on any octet string, skipping labels that are no UTF-8. |
| NameText.EncodeToText | src/dns/types.rs:569-704 | Reading out any dot-free UTF-8 name, adding any number of dots and encoding gives the name in lower case, root included. |
| NameText.ToTextEncode | src/dns/types.rs:569-704 | Encoding any text that can be encoded and reading it out gives the text in lower case without trailing dots. |
| NameText.EncodeDomainNameMixed | src/dns/types.rs:597-632 | The 0x20 encoding loop computes `EncodeMixed` for every mask, its position running across labels, the panic on an empty mask included. |
| NameText.MixedEncodesSameName | src/dns/types.rs:595-632 | For every non-empty mask the 0x20 encoding fails exactly when the plain one does, and otherwise is the same name; an empty mask panics on an encodable name exactly when it has a letter. |
| TypeBitmap.TypeBitmapContains | src/dnssec/mod.rs:1241-1260 | The scanning loop computes `Contains` on any octet string, malformed bitmaps included. |
| TypeBitmap.ContainsIffMember | src/dnssec/mod.rs:1241-1260 | On the section 4.1.2 RFC 4034 encoding of any set of 16-bit types, containment is membership. |
| Base32Hex.Base32HexDecode | src/dnssec/mod.rs:1354-1442 | The decoding loop computes `Decode`. |
| Base32Hex.LutIff | src/dnssec/mod.rs:1354-1400 | A character has the value of the alphabet's character it equals up to case, and no other character has a value. |
| Base32Hex.FeedAllAccounts | src/dnssec/mod.rs:1354-1442 | Decoding fails exactly on a non-digit before the first padding; otherwise value(input) = value(output) * 2^bit_count + bits, with bit_count < 8 and bits < 2^bit_count. |
| Base32Hex.DecodeEncode | src/dnssec/mod.rs:1354-1442 | Decoding inverts the unpadded encoder of section 7 of RFC 4648 on every octet string. |
| NameOrder.CompareIsLex | src/dnssec/mod.rs:1262-1284 | The two phases of the comparison are one lexicographic comparison of reversed lower-cased labels. |
| NameOrder.CompareTotal | src/dnssec/mod.rs:1262-1284 | The comparison is a total order up to ASCII case and empty labels. |
| NameOrder.CompareIffPrecedes | src/dnssec/mod.rs:1262-1284 | It is the order of section 6.1 of RFC 4034, stated by the first differing label and octet. |
| Signing.SortSorts | src/dnssec/mod.rs:1082-1087 | Sorting wire records gives a sorted permutation. |
| Signing.SortedUnique | src/dnssec/mod.rs:1082-1087 | There is one sorted arrangement of a multiset of wire records. |
| Signing.BuildSignedData | src/dnssec/mod.rs:1057-1094 | The builder computes `SignedData`. |
| SignedOctets.CanonicalIsLower | src/dnssec/mod.rs:1041-1053 | The canonical form of a name with UTF-8 labels without dots is the name in lower case, label by label. |
| SignedOctets.CanonicalRDataIff | src/dnssec/mod.rs:1120-1205 | The RDATA signed is the flattened RDATA with its names in lower case exactly when it is neither SRV nor RRSIG. |
| SignedOctets.SignedIsPrinted | src/dnssec/mod.rs:1057-1118 | The signed octets are the flattened RRSIG RDATA without its signature, signer in lower case, and then the printed canonical records, each once, in the order of their octets. |
| SignedOctets.SignedReparses | src/dnssec/mod.rs:1057-1118 | Parsing the signed octets gives back that RRSIG and those records: owner in lower case, original TTL, canonical RDATA. |
| SignedOctets.SrvContentsUnsigned | src/dnssec/mod.rs:1120-1205 | The contents of SRV records play no part in the signed octets. |
| Signing.SignedDataPermutation | src/dnssec/mod.rs:1057-1118 | Any permutation of the RRset gives the same signed octets. |
| Signing.CanonicalNameIgnoresCase | src/dnssec/mod.rs:1041-1053 | Names that compare equal have the same canonical form. |
| Signing.SignedDataAlike | src/dnssec/mod.rs:1057-1118 | Changing the records' current TTLs and the case of owner names changes no signed octet. |
| RecordOrder.SortCommutesIff | src/dnssec/mod.rs:1082-1118 | Sorting records in wire form is sorting them by RDATA exactly when no shorter RDATA sorts after a longer one. |
| RecordOrder.CanonicalOrderIff | src/dnssec/mod.rs:1057-1118 | The signed octets are those with records in the order of section 6.3 of RFC 4034 exactly under that condition. |
| RecordOrder.EqualLengthsCanonical | src/dnssec/mod.rs:1057-1118 | In particular they are whenever all RDATA have the same length. |
| RecordOrder.LengthFirstIsNotCanonical | src/dnssec/mod.rs:1082-1118 | Two MX records for which, under every signature record, the signed octets are not those of section 6.3. |
| Chain.SecureHasPath | src/dnssec/mod.rs:400-522 | Soundness: a Secure verdict at any depth comes with a trust path within the depths left. |
| Chain.PathIsSecure | src/dnssec/mod.rs:400-522 | Completeness: every trust path within the depths left is found. |
| Chain.SecureIffTrusted | src/dnssec/mod.rs:400-601 | For every network, signature scheme, digest and clock, the walk from depth 0 is Secure exactly when a trust path of at most eleven zones exists. |
| Trust.TimeValidIff | src/dnssec/mod.rs:1227-1237 | A signature is in force when its inception is reached in serial-number arithmetic or at most 300 seconds away, and its expiration is not passed. |
| Trust.Window | src/dnssec/mod.rs:1227-1237 | For times less than 2^31 seconds apart the window is from 300 seconds before inception to expiration, inclusive. |
| Trust.TagIff | src/dnssec/mod.rs:755-774 | The key tag is the sum of the 16-bit words of the DNSKEY RDATA, with its carry added once. |
| Trust.SignedIff | src/dnssec/mod.rs:537-579 | One signature verifies exactly when algorithm and key tag agree, it is in force, and it is cryptographically good over the signed octets. |
| Trust.CommitsIff | src/dnssec/mod.rs:979-1036 | A DS record matches a key exactly when tag and algorithm agree and its SHA-256 or SHA-384 digest is that of owner and key RDATA. |
| Trust.ParentIsTail | src/dnssec/mod.rs:1756-1773 | The parent of a zone is its name without the first label, the root for one label. |
| Trust.SecureSpelledOut | src/dnssec/mod.rs:400-601 | Secure exactly when there is a path of at most eleven zones, spelled out down to tags, times, digests and signatures. |
| Trust.StaleKeysNotSecure | src/dnssec/mod.rs:400-601 | A key set all of whose signatures are expired or not yet in force is not Secure at any depth. |
| Trust.StaleDsNotSecure | src/dnssec/mod.rs:400-601 | Neither is a zone without anchor all of whose DS signatures are. |
| Chain.InsecureIffUnsigned | src/dnssec/mod.rs:400-522 | It is Insecure exactly when a path of self-signed key sets climbs to a zone without anchor and without DS records. |
| Trust.IndeterminateIff | src/dnssec/mod.rs:400-522 | It is Indeterminate exactly when such a path reaches an unanchored root, a parent without records, or the depth limit; otherwise it is Bogus. |
| Chain.HiddenDsIsInsecure | src/dnssec/mod.rs:445-464 | A network that hides the DS records of zone `a` makes it Insecure for every validator without that key among its anchors, whatever key the network shows. |
| RRsets.GroupUpPartitions | src/dnssec/mod.rs:1207-1225 | Grouping partitions the records that are no signatures by exact owner and type, each group in order of appearance. |
| RRsets.GroupRrsets | src/dnssec/mod.rs:1207-1225 | The grouping loop computes that partition. |
| Denial.RingCoversExactlyOnce | src/dnssec/mod.rs:1286-1297 | In the NSEC ring of any strictly sorted owner list, one of size one included, a name is covered by exactly one record if it is no owner and by none if it is. |
| Denial.OwnersUncovered | src/dnssec/mod.rs:1286-1297 | No NSEC of the ring covers an owner. |
| Denial.EncloserIsLongest | src/dnssec/mod.rs:1300-1318 | The computed encloser is the longest suffix of the name that owns an NSEC, and None exactly if none does. |
| Denial.NxDomainSound | src/dnssec/mod.rs:1567-1634 | With NSECs from a zone's ring, a proven NXDOMAIN names no owner. |
| Denial.NoDataSound | src/dnssec/mod.rs:1320-1324 | With NSECs from a zone's ring, a proven NODATA names an owner with neither the type nor CNAME. |
| Denial.DenialSound | src/dnssec/mod.rs:1558-1634 | Both, for a Secure verdict of the code, whose NSECs then carry verified signatures. |
| Denial.NxDomainIff | src/dnssec/mod.rs:1567-1634 | About the NSEC test alone, before signatures: given the whole ring, it proves NXDOMAIN exactly for names that are no owners. |
| Denial.WildcardRefusesNothing | src/dnssec/mod.rs:1594-1612 | Given the whole ring, the wildcard test accepts every name. |
| Denial.WildcardAbsentIff | src/dnssec/mod.rs:1593-1612 | A proven NXDOMAIN excludes the wildcard at the encloser the code computes exactly when no NSEC supplied is owned by that wildcard. |
| Enclosers.CoveringGivesEncloser | src/dnssec/mod.rs:1286-1318 | The closest encloser of a covered name is the longest suffix it shares with the owner or the next name of the covering NSEC. |
| Enclosers.CoveredExistsIff | src/dnssec/mod.rs:1286-1297 | A covered name exists, as an empty non-terminal, exactly when the next name of the covering NSEC is below it. |
| Enclosers.CoveringDecides | src/dnssec/mod.rs:1567-1634 | With any part of the ring: a covered name exists exactly when the covering NSEC's next name is below it, and else a wildcard of the zone answers it exactly when `*.` and the shared suffix is an owner. |
| Enclosers.NameErrorIff | src/dnssec/mod.rs:1567-1634 | With the whole ring: NXDOMAIN is right for a covered name exactly when the next name is not below it and no NSEC supplied is owned by that wildcard; a wildcard answers exactly when the first holds and some NSEC is. |
| Enclosers.PartOfRing | src/dnssec/mod.rs:1567-1634 | With part of the ring: an NSEC owned by that wildcard shows that it answers, one that covers it that NXDOMAIN is right. |
| Wildcards.WildcardOverlooked | src/dnssec/mod.rs:1593-1612 | Zones, one for every apex `a`, in which NXDOMAIN is Secure, signatures included, for names `b.a` that the wildcard `*.a` answers. |
| Wildcards.DeepWildcardOverlooked | src/dnssec/mod.rs:1300-1318 | Zones of `a` and `*.b.a` in which NXDOMAIN is Secure for `x.b.a`, which the wildcard answers, though no NSEC is owned by `*.a`, the wildcard the code looks for. |
| Wildcards.EmptyNonTerminalDenied | src/dnssec/mod.rs:1567-1634 | In these zones NXDOMAIN is Secure for `b.a`, which exists as an empty non-terminal. |
| Denial.NoDataIff | src/dnssec/mod.rs:1567-1634 | About the NSEC test alone, before signatures: given the whole ring, it proves NODATA exactly for owners with neither the type nor CNAME. |
| DenialVerdicts.AuthorityVerifiedIff | src/dnssec/mod.rs:1473-1556 | The signature check accepts exactly when there is a record of the type and each owner of one has a signature naming this owner as its signer that a cached key verifies. |
| Trust.OwnerVerifiedIff | src/dnssec/mod.rs:1473-1556 | An owner is verified exactly when a cached key of it made, in force and cryptographically good, its first signature of the type over all its records of the type. |
| DenialVerdicts.DenialSecureIff | src/dnssec/mod.rs:1558-1634 | Given the whole ring, the verdict is Secure exactly when that check accepts and the name is no owner (NXDOMAIN) or an owner with neither the type nor CNAME (NODATA). |
| DenialVerdicts.DenialBogusIff | src/dnssec/mod.rs:1558-1634 | It is Bogus exactly when the check accepts and that fails, and Indeterminate exactly when the check refuses. |
| DenialVerdicts.OneSignerOneOwner | src/dnssec/mod.rs:1473-1556 | Signatures by one signer never make a denial Secure that holds an NSEC owned by another name. |
| DenialVerdicts.UnparsedKeysNeverSecure | src/dnssec/mod.rs:1515-1556 | When the cache returns keys without their parsed form, no denial is Secure. |
| DenialVerdicts.WholeRingNeverSecure | src/dnssec/mod.rs:1473-1634 | So in a zone of two or more owners signed by one name the whole ring never makes a denial Secure. |
| Responses.VerifiedIffDecided | src/dnssec/mod.rs:279-395 | An RRset verifies exactly when some signature and key verify with a Secure chain and every earlier attempt was inconclusive. |
| Trust.AttemptIff | src/dnssec/mod.rs:296-395 | One attempt verifies exactly with a good signature and a trusted key set, and stops the search exactly with a good signature and a Bogus chain. |
| Trust.MatchingIff | src/dnssec/mod.rs:256-277 | A signature matches exactly when it covers the type and its signer is the RRset's owner. |
| Trust.StaleNotVerified | src/dnssec/mod.rs:279-395 | An RRset verifies with no signature that is expired or not yet in force. |
| Responses.DecidedAuthenticated | src/dnssec/mod.rs:296-395 | The deciding attempt's signature was made over the RRset by a fetched key of the signer, and the key set has a trust path. |
| Responses.SecureAnswers | src/dnssec/mod.rs:156-229 | A response with answers is Secure exactly when it has signatures and every RRset with a matching one verifies; each of those is then authenticated down from a trust anchor. |
| Responses.AuthenticatedIffMatched | src/dnssec/mod.rs:190-229 | Under a Secure verdict an answer RRset is authenticated exactly when some signature names its owner as the signer and covers its type. |
| Responses.AllAuthenticatedIff | src/dnssec/mod.rs:190-229 | So a Secure verdict authenticates all answers exactly when every RRset has such a signature. |
| Responses.UnmatchedIsSecure | src/dnssec/mod.rs:190-277 | A response with signatures, none of which matches an answer RRset, is Secure for every validator and network. |
| Responses.BelowApexIsSecure | src/dnssec/mod.rs:256-277 | An address of `www.a.` with an empty signature by `a.` is Secure for every validator and authenticated for none. |
| Responses.InsecureIffNoSignatures | src/dnssec/mod.rs:156-189 | A response is Insecure exactly when it has no signature at all. |
| Trust.AllRrsigsIff | src/dnssec/mod.rs:164-175 | Signatures are collected from all three sections. |
| Trust.NegativeResponseIff | src/dnssec/mod.rs:208-226 | A signed response without answers, with the whole ring, is Secure exactly when the NSEC owners are verified and its code is right about the first question. |
| Lru.PutSpec | src/resolver/cache.rs:123-138 | Inserting into an LRU map stores the value, keeps keys distinct and the size bounded, and disturbs another key only by evicting it when full. |
| Lru.TouchSpec | src/resolver/cache.rs:153-160 | Reading an LRU map changes the order only. |
| Lru.KeepSpec | src/resolver/cache.rs:274-290 | Filtering an LRU map keeps exactly the items that pass. |
| Cache.SplitByExpiry | src/resolver/cache.rs:153-180 | The drain loop splits a list, in order, into its live and its expired part. |
| Cache.Presented | src/resolver/cache.rs:182-212 | Records as presented to the client, with remaining TTLs and their minimum. |
| Cache.StillUsable | src/resolver/cache.rs:217-256 | The stale entries less than six hours past expiry, in order. |
| Cache.DnsCache.WithMaxEntries | src/resolver/cache.rs:76-87 | An empty cache of the given capacity. |
| Cache.DnsCache.InsertOne | src/resolver/cache.rs:90-143 | The whole new state: no TTL, duplicate data, the cap of 16 per key, eviction. |
| Cache.DnsCache.InsertRecords | src/resolver/cache.rs:259-271 | Inserting a list is inserting its records in order. |
| Cache.DnsCache.Lookup | src/resolver/cache.rs:146-212 | The answer, and the whole new state: expired records move to the stale store, counters advance. |
| Cache.DnsCache.LookupStale | src/resolver/cache.rs:217-256 | The stale answer, and the whole new state. |
| Cache.DnsCache.PurgeExpired | src/resolver/cache.rs:274-290 | The whole new state after purging. |
| Cache.DnsCache.ClearAll | src/resolver/cache.rs:293-298 | Everything is gone and the counters are zero. |
| CacheEffects.LookupInvisible | src/resolver/cache.rs:146-212 | No lookup changes what any later lookup of any key answers. |
| CacheEffects.LookupCounted | src/resolver/cache.rs:146-212 | A lookup counts one hit when it answers and one miss when it does not. |
| CacheEffects.LookupServesStale | src/resolver/cache.rs:146-256 | After a lookup that finds expired entries, a stale lookup answers at any later time with exactly those less than six hours past expiry, in order, with TTL 0, or with nothing if there are none. |
| CacheEffects.StaleInvisible | src/resolver/cache.rs:217-256 | A stale lookup changes no later answer, live or stale. |
| CacheEffects.PurgeChangesNothing | src/resolver/cache.rs:274-290 | Purging changes no later answer, live or stale. |
| CacheEffects.ClearAnswersNothing | src/resolver/cache.rs:293-298 | After clearing, no key has an answer. |
| CacheEffects.InsertLists | src/resolver/cache.rs:90-143 | New data with a TTL goes behind what is held, the oldest of sixteen entries going; without a TTL, or with data held already, nothing changes; stale lists never do. |
| CacheEffects.InsertElsewhere | src/resolver/cache.rs:90-143 | Other keys keep their lists unless a full store evicts one for a new key. |
| CacheEffects.InsertAllIs | src/resolver/cache.rs:259-271 | Inserting records is inserting each under its own name, type and class, in order. |
| CacheEffects.EmptyIs | src/resolver/cache.rs:76-87 | A new cache is empty, holds at least one key, and between 1000 and 50000 stale ones, a fifth if that fits. |
| CacheEffects.MovedIsServed | src/resolver/cache.rs:146-290 | Whatever a lookup finds expired is served stale for its six hours through every run in which no later lookup replaces the list, no full store evicts it and nothing is cleared. |
| CacheRuns.RunSound | src/resolver/cache.rs:76-138 | After every run under a monotone clock each live key holds 1 to 16 records of distinct data matching it, both stores are within capacity, and everything stale is expired. |
| CacheRuns.PartsConserve | src/resolver/cache.rs:153-180 | What a lookup keeps and what it moves are together what was there. |
| CacheRuns.RunExplained | src/resolver/cache.rs:90-298 | Every entry of either store was made by an insertion under its key since the last clear. |
| CacheRuns.LookupFaithful | src/resolver/cache.rs:36-212 | Each record a lookup returns after any run was inserted under that key since the last clear, is unexpired and carries floor(insertion + min(ttl, 86400) - now); the minimum returned is their minimum. |
| CacheRuns.CountersConserve | src/resolver/cache.rs:146-212 | Hits plus misses is the number of lookups since the last clear. |
| CacheRuns.StaleWindow | src/resolver/cache.rs:217-256 | After any run a stale answer holds only inserted records less than six hours past expiry, all with TTL 0. |
| CacheRuns.PurgeInvisible | src/resolver/cache.rs:217-290 | Purging changes no stale answer for any key at any later time, through any operations that move nothing into the stale store. |
| CacheRuns.InsertVisibleIff | src/resolver/cache.rs:90-143 | When exactly the next lookup sees an inserted record. |
| CacheRuns.ReinsertionIsLost | src/resolver/cache.rs:123-131 | In every cache, for every key and data: inserted for one second and again after two, the data is not found. |
| Delegation.DelegationCache.FindCachedDelegation | src/resolver/recursive.rs:1604-1625 | The loop answers `Walk` on any octet string and changes the cache's order only. |
| Delegation.DelegationCache.CacheDelegation | src/resolver/recursive.rs:1628-1632 | The zone's servers are stored for two hours within the capacity. |
| Delegation.WalkIsLongest | src/resolver/recursive.rs:1604-1625 | For every name and cache the answer is the servers of the longest suffix above the root with an unexpired entry, and None exactly when there is none. |
| Delegation.StoredIsFound | src/resolver/recursive.rs:1604-1632 | For two hours every name at or below a stored zone gets its servers, unless a longer suffix is live. |
| Resolver.GatherServers | src/resolver/recursive.rs:1185-1217 | The loop over NS records collects glue, else cached addresses, else the names to resolve, in order. |
| Resolver.GatherIff | src/resolver/recursive.rs:1185-1217 | An address is known exactly when the glue of some NS record, or without glue the cache, provides it; a name is left to resolve exactly when a record names it and has neither. |
| Replies.ServersIff | src/resolver/recursive.rs:1185-1232 | The servers of a referral are exactly the addresses in the glue of its NS records, those cached for records without glue, and those that resolving the other names returns. |
| Resolver.ResolveNsNames | src/resolver/recursive.rs:1533-1569 | The nested resolutions, root names skipped, give the addresses and rounds of `ResolveNames`. |
| Resolver.RunRound | src/resolver/recursive.rs:764-1316 | One turn of the resolution loop, every branch, computes `Round`. |
| Resolver.ResolveRecursive | src/resolver/recursive.rs:721-1319 | The loop with its nested calls terminates under the measure (11 - depth, 32 - iteration) and computes `Resolve`. |
| Replies.StartIs | src/resolver/recursive.rs:737-762 | A call starts with the delegation cached for it and the full name, or at the root with one label when minimising. |
| Replies.NoReply | src/resolver/recursive.rs:786-806 | Without a reply the next server is asked. |
| Replies.ErrorReply | src/resolver/recursive.rs:823-845 | NXDOMAIN ends the call with all SOA records of the reply; another error goes on, with the next server once the name is all revealed. |
| Replies.OkReply | src/resolver/recursive.rs:847-1181 | Records of the asked type and name, if any, are the answer, all of them in order; else the first CNAME of the name is followed if it points anywhere; else the reply is a referral. |
| Replies.ReferralReply | src/resolver/recursive.rs:1232-1314 | Servers found are used and one more label is revealed; else an SOA record ends the call with NODATA; else the next server is asked, for the full name if there was no referral. |
| Replies.AnswerReturned | src/resolver/recursive.rs:847-1141 | A call that reaches an answer returns exactly its records of the asked type and name, with the validator's verdict when it asks for DNSSEC. |
| Replies.NxDomainReturned | src/resolver/recursive.rs:823-830 | A call that reaches an NXDOMAIN fails with it and all its SOA records. |
| Replies.CnameReturned | src/resolver/recursive.rs:1143-1175 | A call that reaches a CNAME returns it followed by what the call for its target returns, or that call's failure. |
| Replies.NoDataReturned | src/resolver/recursive.rs:1254-1291 | A call that reaches an SOA record without servers returns no records. |
| Work.RoundsBounded | src/resolver/recursive.rs:721-1319 | With at most N server names per referral, R(d) <= 32 * (1 + max(1, N) * R(d + 1)) rounds and R(11) = 0, for every network. |
| Work.BoundEnds | src/resolver/recursive.rs:44-46 | Thirty-two rounds at the last depth, none below it. |
| Work.HostileSpends | src/resolver/recursive.rs:1176-1316 | For every N > 0 one network makes every call fail after exactly that many rounds: no smaller bound holds. |
| Work.HostileIsBounded | src/resolver/recursive.rs:1176-1217 | That network names N servers in each referral. |
| Answers.AnswerShape | src/resolver/recursive.rs:721-1319 | Every answer is a linked chain of at most 10 - depth CNAMEs, then nothing or records of the asked type owned by the last target. |
| Answers.Reactions | src/resolver/recursive.rs:797-1175 | What a reply can lead to: servers keep or rotate their order, failures are never for lack of servers, answers have the asked type and owner, a followed CNAME is owned by the name and only if no CNAME was asked for. |
| Answers.AfterReferrals | src/resolver/recursive.rs:1232-1314 | Without answer or CNAME the servers become exactly those found, or stay the same in another order, or the call ends with an empty answer. |
| Answers.AuthenticatedIsVouched | src/resolver/recursive.rs:721-1319 | A result with the AD flag ended, along CNAME targets only, in an iteration the calls really reach, with an answer, NXDOMAIN or NODATA that the validator found secure there. |
| Answers.AuthenticatedIff | src/resolver/recursive.rs:721-1319 | The flag is set exactly when there are such stages. |
| Answers.NeverAuthenticated | src/resolver/recursive.rs:730-1319 | With `dnssec_ok` = false no result, positive or negative, carries the AD flag. |
| Answers.CnamesFirst | src/server/udp.rs:304-317 | The loop puts CNAMEs before the other records, each group in order. |
| Replies.OthersIs | src/server/udp.rs:304-317 | The records behind the CNAMEs are all others, in their order. |
| Answers.BuildResponse | src/server/udp.rs:292-326 | The response repeats the request's id and RD, sets QR, RA and the AD given, clears all other flags and the response code, and carries exactly those records. |
| Answers.ResponseKeepsAnswer | src/server/udp.rs:304-317 | On every answer of the resolver this reordering changes nothing. |
| Resolutions.MinimizedName | src/resolver/recursive.rs:769-784 | The query name computed from the revealed-label count, or the panic, for any name. |
| Resolutions.QueryNameGrows | src/resolver/recursive.rs:769-784 | For any name, more revealed labels only extend the query name to the left: it has the last min(revealed, total) labels; on well-formed names it is an octet suffix. |
| Resolutions.RunReveals | src/resolver/recursive.rs:744-1314 | In every interleaving of tasks no revealed-label count ever decreases. |
| Resolutions.ServersNeverRunOut | src/resolver/recursive.rs:737-1314 | In every interleaving no task is ever without servers, none fails for that, and no delegation-cache entry is empty. |
| Resolutions.QueriesOnlyGrow | src/resolver/recursive.rs:764-806 | In every interleaving, for any names, each query name of a task has the last min(revealed, total) labels of its name and ends every later one; on well-formed names they are octet suffixes. |
| ResolutionEffects.BeginState | src/resolver/recursive.rs:721-762 | A new task takes the delegation cached for its name and the full name, or starts at the root, with one label when minimising; nothing else changes. |
| ResolutionEffects.FullNamesSent | src/resolver/recursive.rs:721-806 | In every interleaving a task that does not minimise, such as one for a server's name, sends only its full name. |
| ResolutionEffects.AnswerTeaches | src/resolver/recursive.rs:1139-1141 | An answer, and nothing else in that step, leaves the servers asked in the delegation cache under the name for two hours. |
| ResolutionEffects.ReferralTeaches | src/resolver/recursive.rs:1232-1252 | The servers found of a referral are left under the owner of its first NS record, and nothing else is. |
| ResolutionEffects.CnameTeaches | src/resolver/recursive.rs:1143-1175 | A resolved CNAME leaves the servers asked under the CNAME's owner, and a failed one leaves nothing. |
| Resolutions.MalformedIsNoSuffix | src/dns/types.rs:757-784 | Two labels without a root octet: the query for the last one is no octet suffix of the name. |
| ResolutionAnswers.FinishedAnswers | src/resolver/recursive.rs:721-1319 | In every interleaving each finished task's answer has the shape above, and without DNSSEC no AD flag. |
| TcpPool.Connections.TakeIdle | src/resolver/recursive.rs:92-105 | Pops until an unexpired connection is found, and drops what it popped. |
| TcpPool.Connections.GiveBack | src/resolver/recursive.rs:108-118 | Purges the server's list and adds the connection if there is room. |
| TcpPool.Connections.Tidy | src/resolver/recursive.rs:121-127 | The loop over the servers purges every list and removes the empty ones, as `Cleanup` says. |
| TcpPool.CleanupIff | src/resolver/recursive.rs:121-127 | After cleaning up, a connection is pooled exactly when it was and is unexpired, and no list is empty. |
| TcpPool.CleanupInvisible | src/resolver/recursive.rs:92-127 | In every reachable pool a clean-up changes no later acquire. |
| TcpPool.AliveIff | src/resolver/recursive.rs:92-105 | A connection is unexpired when it was used less than sixty seconds ago. |
| TcpPool.RunOwned | src/resolver/recursive.rs:78-128 | After every run under a monotone clock each connection is pooled at most once and never both pooled and held; at most two are pooled per server, in order of last use. |
| TcpPool.AcquireNewest | src/resolver/recursive.rs:92-105 | Acquire returns the last connection of a server's list if it is unexpired, and None exactly when none is. |
| PoolHistory.AcquireIsLastPooled | src/resolver/recursive.rs:92-127 | After every run under a monotone clock, acquire returns the connection of the last release to that server that was pooled and not taken back, if it is unexpired, and None exactly when all such connections are expired. |
| PoolHistory.FullListDropsNewest | src/resolver/recursive.rs:108-118 | Three connections given back in turn: the last one is dropped and acquire returns the second. |
| Locks.SectionsDisciplined | src/resolver/recursive.rs:376-528 | Every stretch of code holding locks, of every kind of task, takes and frees them in the listed nestings and ends with none. |
| Locks.MutualExclusion | src/resolver/recursive.rs:376-528 | In every run no two tasks hold the same lock. |
| Locks.OnlyListedNestings | src/resolver/recursive.rs:589-616 | In every run a lock is taken under another only as cache-stats, cache-ns_cache, truncation-pool, truncation-rtt, or rtt-health either way by the health task. |
| Locks.NoDeadlock | src/resolver/recursive.rs:376-528 | In every reachable state, for any number of query and resolve tasks, forks, joins and cancellations, every unfinished task leads through what it waits for to a task that can move for certain; one that waits for others counts only when all of them have ended. |
| Locks.TwoCheckersBlock | src/resolver/recursive.rs:502-520 | With a second health task a state is reachable in which the two wait for each other. |

## Left out

- Signature and hash primitives: foreign code, kept as arbitrary predicates and functions.
- The NSEC3 branch of `validate_denial`: it filters the NSEC records again after the NSEC branch has returned, so it is never entered.
- The resolver's own `validate_dnssec`, `validate_dnssec_chain` and `validate_negative_dnssec`: placeholders or ignored results; the model takes their verdicts as arbitrary.
- Termination with `dnssec_ok` = true: negative answers re-enter `resolve` at depth 0, which the depth measure does not cover; the shape theorems hold there too, the work bound does not count those calls.
- Prefetching of signer keys (`prefetch_signer_dnskeys`) and the shipped fetchers, which keep only answers of the asked type and return cached records unparsed: fetched record lists are arbitrary.
- The 32-bit accumulator of `compute_key_tag`: the sum is unbounded in the model; it cannot overflow for keys that fit a message.
- Several clock readings inside one operation: the model reads the clock once for each.
- Decompress.DecodeDomainName: requires that decoding returns; when exactly that is the case is `EndlessIffRevisits`.
- A panic on a malformed name ends the task like a failed query in the model; in the source it also ends the tasks that wait for it.
- Work.RoundsBounded: states nothing for `dnssec_ok` = true, and counts rounds of concurrent queries, not single packets, retries inside a round or the TCP fallback.
- The NS cache is an arbitrary answer to each lookup; its own contents are not tracked.
- The labels field of an RRSIG: the code signs the owner as it is, also for answers expanded from a wildcard.
- Record de-duplication in signed data (section 6.3 of RFC 4034), which the code does not do.
- Round-trip-time smoothing, server sorting, persistence and health pings: floating point, files and sockets.
- Blocklist, configuration, rate limits, UDP and TCP servers, DoH, DoT, REST API, service installation: plumbing and string handling that would add only easy members.
