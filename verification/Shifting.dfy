/** A message that changes its meaning when it is printed (src/dns/types.rs). */
module Shifting {
  import opened Bytes
  import opened Names
  import opened Decompress
  import opened Messages
  import opened RoundTrip

  /** A compressed answer owner, and CNAME RDATA that is a pointer to itself. */
  const SHIFTING: bytes :=
    [0, 0, 0, 0, 0, 1, 0, 1, 0, 0, 0, 0] + [2, 97, 98, 0] + [0, 1, 0, 1]
    + [0xC0, 12] + [0, 5, 0, 1, 0, 0, 0, 0, 0, 2] + [0xC0, 32]

  /** The same after printing: the owner is longer by two octets, so the pointer now leads backwards. */
  const SHIFTED: bytes :=
    [0, 0, 0, 0, 0, 1, 0, 1, 0, 0, 0, 0] + [2, 97, 98, 0] + [0, 1, 0, 1]
    + [2, 97, 98, 0] + [0, 5, 0, 1, 0, 0, 0, 0, 0, 2] + [0xC0, 32]

  const PLAIN_NAME: bytes := [2, 97, 98, 0]

  lemma PlainNameOk()
    ensures WellFormed(PLAIN_NAME)
  {
    assert PLAIN_NAME[3..] == [0];
  }

  lemma ShiftingQuestion(data: bytes)
    requires data == SHIFTING || data == SHIFTED
    ensures ParseQuestion(data, 12) == Ok(At(Question(PLAIN_NAME, 1, 1), 20))
  {
    PlainNameOk();
    assert data[12..16] == PLAIN_NAME;
    NameReparse(data, 12, PLAIN_NAME);
  }

  lemma ShiftingOwner()
    ensures ParseName(SHIFTING, 20) == Ok(At(PLAIN_NAME, 22))
  {
    var data := SHIFTING;
    var l: bytes := [97, 98];
    assert Wire([l]) == PLAIN_NAME by { WireCons(l, []); WireNil(); assert [l] + [] == [l]; }
    assert data[13..15] == l;
    assert Target(data, 20) == 12;
    assert Spells(data, 20, 15, [], 0);
    assert [l][1..] == [];
    assert Spells(data, 20, 12, [l], 1);
    assert Spells(data, 20, 20, [l], 2);
    assert SpelledBy(data, 20, [l]);
    DecodeIffSpelled(data, 20, PLAIN_NAME, 22);
  }

  lemma ShiftingRData()
    ensures ParseRData(5, SHIFTING, 32, 2) == Ok(None)
  {
    assert Target(SHIFTING, 32) == 32;
    assert Decode(SHIFTING, 32) == Fail(InvalidPointer(32));
  }

  lemma ShiftingAnswer()
    ensures ParseRecord(SHIFTING, 20) == Ok(At(Record(PLAIN_NAME, 5, 1, 0, 2, [0xC0, 32], None), 34))
  {
    hide ParseName, ParseRData;
    ShiftingOwner();
    ShiftingRData();
    assert SHIFTING[32..34] == [0xC0, 32];
  }

  lemma ShiftedAnswer()
    ensures ParseRecord(SHIFTED, 20).Ok? && ParseRecord(SHIFTED, 20).value.value.parsed == Some(CNAME([0]))
  {
    var data := SHIFTED;
    PlainNameOk();
    assert data[20..24] == PLAIN_NAME;
    NameReparse(data, 20, PLAIN_NAME);
    assert Target(data, 34) == 32;
    assert Spells(data, 34, 32, [], 0);
    assert Spells(data, 34, 34, [], 1);
    assert SpelledBy(data, 34, []);
    WireNil();
    DecodeIffSpelled(data, 34, [0], 36);
    assert ParseRData(5, data, 34, 2) == Ok(Some(CNAME([0])));
  }

  lemma OneAndOne(data: bytes)
    requires data == SHIFTING || data == SHIFTED
    requires ParseQuestion(data, 12).Ok? && ParseRecord(data, ParseQuestion(data, 12).value.next).Ok?
    ensures var q := ParseQuestion(data, 12).value;
            var r := ParseRecord(data, q.next).value;
            Parse(data) == Ok(Message(ParseHeader(data).value, [q.value], [r.value], [], []))
  {
    hide ParseQuestion, ParseRecord;
    var h := ParseHeader(data).value;
    assert h.qdcount == 1 && h.ancount == 1 && h.nscount == 0 && h.arcount == 0;
    var q := ParseQuestion(data, 12).value;
    var r := ParseRecord(data, q.next).value;
    assert ParseQuestions(data, q.next, 0) == Ok(At([], q.next));
    assert ParseRecords(data, r.next, 0) == Ok(At([], r.next));
    assert [q.value] + [] == [q.value] && [r.value] + [] == [r.value];
    assert ParseQuestions(data, 12, 1) == Ok(At([q.value], q.next));
    assert ParseRecords(data, q.next, 1) == Ok(At([r.value], r.next));
  }

  lemma OneQuestion(q: Question)
    ensures PrintQuestions([q]) == PrintQuestion(q)
  {
    assert [q][1..] == [] && PrintQuestions([]) == [] && PrintQuestion(q) + [] == PrintQuestion(q);
  }

  lemma OneRecord(r: Record)
    ensures PrintRecords([r]) == PrintRecord(r)
  {
    assert [r][1..] == [] && PrintRecords([]) == [] && PrintRecord(r) + [] == PrintRecord(r);
  }

  lemma ShiftedSections()
    ensures PrintQuestions([Question(PLAIN_NAME, 1, 1)]) == SHIFTED[12..20]
    ensures PrintRecords([Record(PLAIN_NAME, 5, 1, 0, 2, [0xC0, 32], None)]) == SHIFTED[20..]
  {
    hide PrintQuestions, PrintRecords;
    var q, r := Question(PLAIN_NAME, 1, 1), Record(PLAIN_NAME, 5, 1, 0, 2, [0xC0, 32], None);
    OneQuestion(q);
    OneRecord(r);
    assert PrintQuestion(q) == SHIFTED[12..20];
    assert PrintRecord(r) == SHIFTED[20..];
  }

  lemma ZeroFlags(h: Header)
    requires Flags(h) == 0
    ensures PrintHeader(h) ==
              Be16(h.id) + [0, 0] + Be16(h.qdcount) + Be16(h.ancount) + Be16(h.nscount) + Be16(h.arcount)
  {
    hide Flags, Be16;
  }

  lemma ShiftingHeader(h: Header)
    requires ParseHeader(SHIFTING) == Ok(h)
    ensures h.qdcount == h.ancount == 1 && h.nscount == h.arcount == 0 && PrintHeader(h) == SHIFTING[..12]
  {
    assert Flags(h) == 0;
    ZeroFlags(h);
    hide Flags, PrintHeader;
  }

  lemma PrintedShifting(h: Header)
    requires ParseHeader(SHIFTING) == Ok(h)
    ensures Print(Message(h, [Question(PLAIN_NAME, 1, 1)],
                          [Record(PLAIN_NAME, 5, 1, 0, 2, [0xC0, 32], None)], [], [])) == SHIFTED
  {
    hide PrintHeader, ParseHeader;
    ShiftingHeader(h);
    ShiftedSections();
    assert PrintRecords([]) == [];
    hide PrintQuestions, PrintRecords;
    assert SHIFTED == SHIFTING[..12] + SHIFTED[12..20] + SHIFTED[20..];
  }

  lemma OneLength(m: Message, r: Record)
    requires m.answers == [r] && m.authorities == [] && m.additionals == [] && r.rdlength == |r.rdata|
    ensures LengthsAgree(m)
  {
  }

  lemma ShiftingOk()
    ensures ParseHeader(SHIFTING).Ok?
  {
  }

  /** A record left unparsed because of a pointer can change its meaning when printed. */
  lemma UnprintableCanChange()
    ensures Parse(SHIFTING).Ok? && LengthsAgree(Parse(SHIFTING).value)
    ensures Print(Parse(SHIFTING).value) == SHIFTED
    ensures Parse(SHIFTED).Ok? && Parse(SHIFTED) != Parse(SHIFTING)
  {
    hide *;
    ShiftingOk();
    ShiftingQuestion(SHIFTING);
    ShiftingQuestion(SHIFTED);
    ShiftingAnswer();
    ShiftedAnswer();
    OneAndOne(SHIFTING);
    OneAndOne(SHIFTED);
    PrintedShifting(ParseHeader(SHIFTING).value);
    var m := Parse(SHIFTING).value;
    OneLength(m, m.answers[0]);
    assert m.answers[0] != Parse(SHIFTED).value.answers[0];
  }
}
