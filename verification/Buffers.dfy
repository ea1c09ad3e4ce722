/** The loops of `Message::from_bytes` and the in-place printers `to_bytes` (src/dns/types.rs). */
module Buffers {
  import opened Bytes
  import opened Messages

  /** Put already parsed items in front of the rest of a section. */
  function Prepend<T>(done: seq<T>, rest: Outcome<At<seq<T>>>): Outcome<At<seq<T>>> {
    match rest
    case Ok(at) => Ok(At(done + at.value, at.next))
    case Err => Err
    case Hang => Hang
    case Panic => Panic
  }

  lemma PrependNil<T>(rest: Outcome<At<seq<T>>>)
    ensures Prepend([], rest) == rest
  {
    if rest.Ok? { assert [] + rest.value.value == rest.value.value; }
  }

  method ReadQuestions(data: bytes, offset: nat, count: nat) returns (r: Outcome<At<seq<Question>>>)
    ensures r == ParseQuestions(data, offset, count)
  {
    hide ParseQuestion;
    var items, off := [], offset;
    PrependNil(ParseQuestions(data, offset, count));
    for i := 0 to count
      invariant ParseQuestions(data, offset, count) == Prepend(items, ParseQuestions(data, off, count - i))
    {
      var q := ParseQuestion(data, off);
      if q.IsFailure() { return q.PropagateFailure(); }
      assert forall at: At<seq<Question>> :: items + ([q.value.value] + at.value) == items + [q.value.value] + at.value;
      items, off := items + [q.value.value], q.value.next;
    }
    assert items + [] == items;
    return Ok(At(items, off));
  }

  method ReadRecords(data: bytes, offset: nat, count: nat) returns (r: Outcome<At<seq<Record>>>)
    ensures r == ParseRecords(data, offset, count)
  {
    hide ParseRecord;
    var items, off := [], offset;
    PrependNil(ParseRecords(data, offset, count));
    for i := 0 to count
      invariant ParseRecords(data, offset, count) == Prepend(items, ParseRecords(data, off, count - i))
    {
      var q := ParseRecord(data, off);
      if q.IsFailure() { return q.PropagateFailure(); }
      assert forall at: At<seq<Record>> :: items + ([q.value.value] + at.value) == items + [q.value.value] + at.value;
      items, off := items + [q.value.value], q.value.next;
    }
    assert items + [] == items;
    return Ok(At(items, off));
  }

  method MessageFromBytes(data: bytes) returns (r: Outcome<Message>)
    ensures r == Parse(data)
  {
    hide ParseHeader, ParseQuestions, ParseRecords;
    var h := ParseHeader(data);
    if h.IsFailure() { return h.PropagateFailure(); }
    var qs := ReadQuestions(data, 12, h.value.qdcount);
    if qs.IsFailure() { return qs.PropagateFailure(); }
    var an := ReadRecords(data, qs.value.next, h.value.ancount);
    if an.IsFailure() { return an.PropagateFailure(); }
    var ns := ReadRecords(data, an.value.next, h.value.nscount);
    if ns.IsFailure() { return ns.PropagateFailure(); }
    var ar := ReadRecords(data, ns.value.next, h.value.arcount);
    if ar.IsFailure() { return ar.PropagateFailure(); }
    return Ok(Message(h.value, qs.value.value, an.value.value, ns.value.value, ar.value.value));
  }

  // --- Printing ---

  /** `buf` holds `done` at its start and is otherwise as it was. */
  ghost predicate Holds(now: bytes, before: bytes, done: bytes) {
    |now| == |before| && |done| <= |now| && now[..|done|] == done && now[|done|..] == before[|done|..]
  }

  /** `copy_from_slice` into the buffer at `off`. */
  method Put(buf: array<byte>, off: nat, s: bytes)
    requires off + |s| <= buf.Length
    modifies buf
    ensures buf[..off] == old(buf[..off]) && buf[off..off + |s|] == s && buf[off + |s|..] == old(buf[off + |s|..])
  {
    for i := 0 to |s|
      invariant buf[..off] == old(buf[..off])
      invariant buf[off..off + i] == s[..i]
      invariant buf[off + i..] == old(buf[off + i..])
    {
      assert old(buf[off + i..])[1..] == old(buf[off + i + 1..]) && buf[off + i..][1..] == buf[off + i + 1..];
      ghost var before, rest := buf[..off], buf[off + i + 1..];
      ghost var written := buf[off..off + i];
      buf[off + i] := s[i];
      assert buf[..off] == before && buf[off + i + 1..] == rest;
      assert buf[off..off + i + 1] == written + [s[i]] && s[..i + 1] == s[..i] + [s[i]];
    }
  }

  /** Write `s` after what is already there, or report that it does not fit. */
  method Append(buf: array<byte>, off: nat, s: bytes, ghost before: bytes, ghost done: bytes) returns (ok: bool)
    requires off == |done| && Holds(buf[..], before, done)
    modifies buf
    ensures ok <==> off + |s| <= buf.Length
    ensures ok ==> Holds(buf[..], before, done + s)
    ensures !ok ==> buf[..] == old(buf[..])
  {
    if off + |s| > buf.Length { return false; }
    Put(buf, off, s);
    ok := true;
    assert buf[..off] == done && buf[..off + |s|] == buf[..off] + buf[off..off + |s|];
    assert before[off..][|s|..] == before[off + |s|..];
  }

  method WriteQuestions(buf: array<byte>, start: nat, qs: seq<Question>, ghost before: bytes, ghost done: bytes)
      returns (end: Option<nat>)
    requires start == |done| && Holds(buf[..], before, done)
    modifies buf
    ensures end.Some? <==> start + |PrintQuestions(qs)| <= buf.Length
    ensures end.Some? ==> end.value == start + |PrintQuestions(qs)| && Holds(buf[..], before, done + PrintQuestions(qs))
  {
    hide PrintQuestion, Holds;
    var off := start;
    ghost var out := done;
    assert qs[0..] == qs;
    for i := 0 to |qs|
      invariant off == |out| && Holds(buf[..], before, out)
      invariant done + PrintQuestions(qs) == out + PrintQuestions(qs[i..])
    {
      assert qs[i..][1..] == qs[i + 1..];
      assert out + PrintQuestions(qs[i..]) == out + PrintQuestion(qs[i]) + PrintQuestions(qs[i + 1..]);
      var ok := Append(buf, off, PrintQuestion(qs[i]), before, out);
      if !ok {
        assert |done| + |PrintQuestions(qs)| == |out + PrintQuestions(qs[i..])|;
        return None;
      }
      off := off + |PrintQuestion(qs[i])|;
      out := out + PrintQuestion(qs[i]);
    }
    assert out + PrintQuestions([]) == out;
    assert |out| <= buf.Length by { HoldsBound(buf[..], before, out); }
    return Some(off);
  }

  lemma HoldsBound(now: bytes, before: bytes, done: bytes)
    requires Holds(now, before, done)
    ensures |done| <= |now|
  {
  }

  /** What a record announces as its length; the RDATA is copied only if that is its real length. */
  function Announced(r: Record): nat { |r.name| + 10 + r.rdlength }

  /** How writing records from `off` on ends in a buffer of `size` octets. */
  function Written(rs: seq<Record>, off: nat, size: nat): Outcome<nat> {
    if rs == [] then Ok(off)
    else if off + Announced(rs[0]) > size then Err
    else if rs[0].rdlength != |rs[0].rdata| then Panic
    else Written(rs[1..], off + Announced(rs[0]), size)
  }

  lemma PrintedLength(r: Record)
    ensures |PrintRecord(r)| == |r.name| + 10 + |r.rdata|
  {
  }

  predicate Agree(rs: seq<Record>) { forall i :: 0 <= i < |rs| ==> rs[i].rdlength == |rs[i].rdata| }

  /** Writing succeeds exactly when all lengths agree and the printed records fit. */
  lemma {:induction false} WrittenOkIff(rs: seq<Record>, off: nat, size: nat)
    requires off <= size
    ensures Written(rs, off, size).Ok? <==> Agree(rs) && off + |PrintRecords(rs)| <= size
    ensures Written(rs, off, size).Ok? ==> Written(rs, off, size).value == off + |PrintRecords(rs)|
    ensures !Written(rs, off, size).Hang?
  {
    hide PrintRecord;
    if rs != [] {
      PrintedLength(rs[0]);
      if off + Announced(rs[0]) <= size { WrittenOkIff(rs[1..], off + Announced(rs[0]), size); }
      assert Agree(rs) <==> rs[0].rdlength == |rs[0].rdata| && Agree(rs[1..]) by {
        if Agree(rs[1..]) { assert forall i :: 1 <= i < |rs| ==> rs[i] == rs[1..][i - 1]; }
      }
    }
  }

  /** Record `i` breaks the copy: all before it agree and fit, its announced length fits and is not the real one. */
  predicate Breaks(rs: seq<Record>, off: nat, size: nat, i: nat) {
    && i < |rs| && Agree(rs[..i]) && rs[i].rdlength != |rs[i].rdata|
    && off + |PrintRecords(rs[..i])| + Announced(rs[i]) <= size
  }

  lemma BreaksLater(rs: seq<Record>, off: nat, size: nat, i: nat)
    requires rs != [] && rs[0].rdlength == |rs[0].rdata| && i > 0
    ensures Breaks(rs, off, size, i) <==> Breaks(rs[1..], off + Announced(rs[0]), size, i - 1)
  {
    hide PrintRecord;
    PrintedLength(rs[0]);
    if i < |rs| {
      var a, b := rs[..i], rs[1..][..i - 1];
      assert a[0] == rs[0] && a[1..] == b;
      assert Agree(a) <==> Agree(b) by {
        if Agree(b) { assert forall k :: 1 <= k < |a| ==> a[k] == b[k - 1]; }
        if Agree(a) { assert forall k :: 0 <= k < |b| ==> b[k] == a[k + 1]; }
      }
    }
  }

  /** It panics exactly when some record breaks the copy. */
  lemma {:induction false} WrittenPanicIff(rs: seq<Record>, off: nat, size: nat)
    ensures Written(rs, off, size).Panic? <==> exists i: nat :: Breaks(rs, off, size, i)
  {
    hide Breaks;
    if rs != [] {
      BreaksFirst(rs, off, size);
      if rs[0].rdlength == |rs[0].rdata| {
        var rest, next := rs[1..], off + Announced(rs[0]);
        WrittenPanicIff(rest, next, size);
        if next > size { NoneBreaks(rs, off, size); }
        if i: nat :| Breaks(rs, off, size, i) { BreaksLater(rs, off, size, i); }
        if i: nat :| Breaks(rest, next, size, i) { BreaksLater(rs, off, size, i + 1); }
      } else {
        if i: nat :| Breaks(rs, off, size, i) && i > 0 { BreaksAfter(rs, off, size, i); }
      }
    } else {
      NoneBreaks(rs, off, size);
    }
  }

  lemma BreaksFirst(rs: seq<Record>, off: nat, size: nat)
    requires rs != []
    ensures Breaks(rs, off, size, 0) <==> rs[0].rdlength != |rs[0].rdata| && off + Announced(rs[0]) <= size
  {
    assert rs[..0] == [];
  }

  lemma BreaksAfter(rs: seq<Record>, off: nat, size: nat, i: nat)
    requires Breaks(rs, off, size, i) && i > 0
    ensures rs[0].rdlength == |rs[0].rdata|
  {
    assert rs[..i][0] == rs[0];
  }

  lemma NoneBreaks(rs: seq<Record>, off: nat, size: nat)
    requires rs == [] || (off + Announced(rs[0]) > size && rs[0].rdlength == |rs[0].rdata|)
    ensures forall i: nat :: !Breaks(rs, off, size, i)
  {
    hide PrintRecord;
    forall i: nat ensures !Breaks(rs, off, size, i) {
      if 0 < i < |rs| { PrintedFirst(rs, i); }
    }
  }

  lemma PrintedFirst(rs: seq<Record>, i: nat)
    requires 0 < i <= |rs|
    ensures |PrintRecords(rs[..i])| >= |rs[0].name| + 10 + |rs[0].rdata|
  {
    PrintedLength(rs[0]);
    assert rs[..i][0] == rs[0];
  }

  lemma {:induction false} WrittenAppend(a: seq<Record>, b: seq<Record>, off: nat, size: nat)
    ensures Written(a + b, off, size) ==
              match Written(a, off, size)
              case Ok(next) => Written(b, next, size)
              case Err => Err
              case Hang => Hang
              case Panic => Panic
  {
    if a == [] {
      assert a + b == b;
    } else {
      assert (a + b)[0] == a[0] && (a + b)[1..] == a[1..] + b;
      if off + Announced(a[0]) <= size && a[0].rdlength == |a[0].rdata| {
        WrittenAppend(a[1..], b, off + Announced(a[0]), size);
      }
    }
  }

  lemma WrittenStep(rs: seq<Record>, i: nat, off: nat, size: nat)
    requires i < |rs|
    ensures Written(rs[i..], off, size) ==
              if off + Announced(rs[i]) > size then Err
              else if rs[i].rdlength != |rs[i].rdata| then Panic
              else Written(rs[i + 1..], off + Announced(rs[i]), size)
    ensures PrintRecords(rs[i..]) == PrintRecord(rs[i]) + PrintRecords(rs[i + 1..])
  {
    assert rs[i..][1..] == rs[i + 1..];
  }

  method WriteRecords(buf: array<byte>, start: nat, rs: seq<Record>, ghost before: bytes, ghost done: bytes)
      returns (end: Outcome<nat>)
    requires start == |done| && Holds(buf[..], before, done)
    modifies buf
    ensures end == Written(rs, start, buf.Length)
    ensures end.Ok? ==> end.value == start + |PrintRecords(rs)| && Holds(buf[..], before, done + PrintRecords(rs))
  {
    hide PrintRecord, PrintRecords, Holds, Written;
    var off := start;
    ghost var out := done;
    assert rs[0..] == rs;
    for i := 0 to |rs|
      invariant off == |out| && Holds(buf[..], before, out)
      invariant Written(rs, start, buf.Length) == Written(rs[i..], off, buf.Length)
      invariant done + PrintRecords(rs) == out + PrintRecords(rs[i..])
    {
      WrittenStep(rs, i, off, buf.Length);
      PrintedLength(rs[i]);
      if off + Announced(rs[i]) > buf.Length { return Err; }
      if rs[i].rdlength != |rs[i].rdata| { return Panic; }
      ghost var line := PrintRecord(rs[i]);
      Regroup(out, line, PrintRecords(rs[i + 1..]));
      var ok := Append(buf, off, PrintRecord(rs[i]), before, out);
      off := off + Announced(rs[i]);
      out := out + line;
    }
    NothingWritten(rs[|rs|..], off, buf.Length);
    assert out + [] == out;
    return Ok(off);
  }

  lemma NothingWritten(rs: seq<Record>, off: nat, size: nat)
    requires rs == []
    ensures Written(rs, off, size) == Ok(off) && PrintRecords(rs) == []
  {
  }

  function AllRecords(m: Message): seq<Record> { m.answers + m.authorities + m.additionals }

  /** How printing a message ends; records come after header and questions, section by section. */
  function MessageWritten(m: Message, size: nat): Outcome<nat> {
    var off := 12 + |PrintQuestions(m.questions)|;
    if off > size then Err else Written(AllRecords(m), off, size)
  }

  lemma SectionsWritten(m: Message, off: nat, size: nat)
    ensures Written(AllRecords(m), off, size) ==
              match Written(m.answers, off, size)
              case Ok(a) =>
                (match Written(m.authorities, a, size)
                 case Ok(n) => Written(m.additionals, n, size)
                 case Err => Err
                 case Hang => Hang
                 case Panic => Panic)
              case Err => Err
              case Hang => Hang
              case Panic => Panic
  {
    hide Written;
    WrittenAppend(m.answers + m.authorities, m.additionals, off, size);
    WrittenAppend(m.answers, m.authorities, off, size);
  }

  /** Ends as `MessageWritten` says; on success exactly the printed form is written and nothing behind it. */
  method MessageToBytes(m: Message, buf: array<byte>) returns (len: Outcome<nat>)
    modifies buf
    ensures len == MessageWritten(m, buf.Length)
    ensures len.Ok? ==> len.value == |Print(m)| <= buf.Length && buf[..len.value] == Print(m)
                        && buf[len.value..] == old(buf[len.value..])
  {
    hide PrintHeader, PrintQuestions, PrintRecords, Written;
    ghost var before := buf[..];
    var h := PrintHeader(Counted(m));
    var ok := Append(buf, 0, h, before, []);
    if !ok { return Err; }
    assert [] + h == h;
    var q := WriteQuestions(buf, |h|, m.questions, before, h);
    if q.None? { return Err; }
    SectionsWritten(m, q.value, buf.Length);
    var a := WriteRecords(buf, q.value, m.answers, before, h + PrintQuestions(m.questions));
    if !a.Ok? { return a; }
    var n := WriteRecords(buf, a.value, m.authorities, before,
        h + PrintQuestions(m.questions) + PrintRecords(m.answers));
    if !n.Ok? { return n; }
    len := WriteRecords(buf, n.value, m.additionals, before,
                        h + PrintQuestions(m.questions) + PrintRecords(m.answers) + PrintRecords(m.authorities));
    if len.Ok? {
      assert buf[len.value..] == before[len.value..];
    }
  }

  lemma AgreeAll(m: Message)
    ensures Agree(AllRecords(m)) <==> LengthsAgree(m)
  {
    var rs := AllRecords(m);
    if Agree(rs) {
      forall r | r in rs ensures r.rdlength == |r.rdata| { var i :| 0 <= i < |rs| && rs[i] == r; }
    }
    if LengthsAgree(m) {
      forall i | 0 <= i < |rs| ensures rs[i].rdlength == |rs[i].rdata| { assert rs[i] in rs; }
    }
  }

  /** Printing succeeds exactly when the length fields are the real lengths and the printed form fits. */
  lemma PrintsIff(m: Message, size: nat)
    ensures MessageWritten(m, size).Ok? <==> LengthsAgree(m) && |Print(m)| <= size
  {
    hide PrintHeader, PrintQuestions, PrintRecords, Written, LengthsAgree, Agree;
    AgreeAll(m);
    var off := 12 + |PrintQuestions(m.questions)|;
    PrintAppend(m.answers + m.authorities, m.additionals);
    PrintAppend(m.answers, m.authorities);
    if off <= size { WrittenOkIff(AllRecords(m), off, size); }
  }

  lemma {:induction false} PrintAppend(a: seq<Record>, b: seq<Record>)
    ensures PrintRecords(a + b) == PrintRecords(a) + PrintRecords(b)
  {
    hide PrintRecord;
    if a == [] {
      assert a + b == b;
    } else {
      PrintAppend(a[1..], b);
      assert (a + b)[0] == a[0] && (a + b)[1..] == a[1..] + b;
      Regroup(PrintRecord(a[0]), PrintRecords(a[1..]), PrintRecords(b));
    }
  }
}
