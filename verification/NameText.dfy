/** Dotted text and wire form of names: the encoders and `labels_to_string` of src/dns/types.rs. */
module NameText {
  import opened Bytes
  import opened Names

  const DOT: byte := 46

  // --- Rust text operations ---

  /** `str::split('.')`: always at least one piece. */
  function Split(s: bytes): (parts: seq<bytes>)
    ensures |parts| >= 1
  {
    if s == [] then [[]]
    else
      var rest := Split(s[1..]);
      if s[0] == DOT then [[]] + rest else [[s[0]] + rest[0]] + rest[1..]
  }

  /** `join(".")`. */
  function Join(parts: seq<bytes>): bytes
    requires parts != []
  {
    if |parts| == 1 then parts[0] else parts[0] + [DOT] + Join(parts[1..])
  }

  /** `trim_end_matches('.')`. */
  function TrimDots(s: bytes): bytes {
    if s != [] && s[|s| - 1] == DOT then TrimDots(s[..|s| - 1]) else s
  }

  predicate DotFree(s: bytes) { DOT !in s }

  predicate AllDotFree(parts: seq<bytes>) { forall i :: 0 <= i < |parts| ==> DotFree(parts[i]) }

  lemma {:induction false} SplitDotFree(s: bytes)
    requires DotFree(s)
    ensures Split(s) == [s]
  {
    if s != [] {
      SplitDotFree(s[1..]);
      assert [s[0]] + s[1..] == s;
    }
  }

  lemma {:induction false} SplitAtDot(a: bytes, b: bytes)
    requires DotFree(a)
    ensures Split(a + [DOT] + b) == [a] + Split(b)
  {
    var s := a + [DOT] + b;
    if a == [] {
      assert s[1..] == b;
    } else {
      SplitAtDot(a[1..], b);
      assert s[1..] == a[1..] + [DOT] + b;
      assert [a[0]] + a[1..] == a;
    }
  }

  lemma {:induction false} SplitJoin(parts: seq<bytes>)
    requires parts != [] && AllDotFree(parts)
    ensures Split(Join(parts)) == parts
  {
    if |parts| == 1 {
      SplitDotFree(parts[0]);
    } else {
      SplitJoin(parts[1..]);
      SplitAtDot(parts[0], Join(parts[1..]));
      assert [parts[0]] + parts[1..] == parts;
    }
  }

  lemma {:induction false} JoinSplit(s: bytes)
    ensures AllDotFree(Split(s)) && Join(Split(s)) == s
  {
    if s != [] {
      JoinSplit(s[1..]);
      var rest := Split(s[1..]);
      var parts := Split(s);
      if s[0] == DOT {
        assert parts[1..] == rest;
        assert [] + [DOT] + s[1..] == s;
      } else {
        assert parts[1..] == rest[1..];
        assert [s[0]] + s[1..] == s;
      }
    }
  }

  // --- encode_domain_name ---

  /** Length-prefix each piece; `None` is the error for an empty or overlong label. */
  function EncodeParts(parts: seq<bytes>): Option<bytes> {
    if parts == [] then Some([0])
    else if !IsLabel(parts[0]) then None
    else match EncodeParts(parts[1..])
      case None => None
      case Some(rest) => Some([|parts[0]|] + parts[0] + rest)
  }

  function Encode(name: bytes): Option<bytes> {
    var t := TrimDots(name);
    if t == [] then Some([0]) else EncodeParts(LowerLabels(Split(t)))
  }

  lemma {:induction false} EncodePartsWire(parts: seq<bytes>)
    ensures EncodeParts(parts).Some? <==> AreLabels(parts)
    ensures AreLabels(parts) ==> EncodeParts(parts) == Some(Wire(parts))
  {
    if parts != [] { EncodePartsWire(parts[1..]); }
  }

  lemma {:induction false} EncodePartsAppend(done: Labels, rest: seq<bytes>)
    requires AreLabels(done)
    ensures EncodeParts(done + rest)
            == match EncodeParts(rest) case None => None case Some(w) => Some(Heads(done) + w)
  {
    if done == [] {
      assert done + rest == rest;
      if EncodeParts(rest).Some? { assert [] + EncodeParts(rest).value == EncodeParts(rest).value; }
    } else {
      EncodePartsAppend(done[1..], rest);
      assert (done + rest)[1..] == done[1..] + rest && (done + rest)[0] == done[0];
      if EncodeParts(rest).Some? {
        var w := EncodeParts(rest).value;
        assert [|done[0]|] + done[0] + (Heads(done[1..]) + w) == Heads(done) + w;
      }
    }
  }

  lemma {:induction false} HeadsSnoc(done: Labels, l: bytes)
    requires AreLabels(done) && IsLabel(l)
    ensures AreLabels(done + [l]) && Heads(done + [l]) == Heads(done) + [|l|] + l
  {
    if done == [] {
      assert done + [l] == [l] && [l][1..] == [];
    } else {
      HeadsSnoc(done[1..], l);
      assert (done + [l])[1..] == done[1..] + [l];
    }
  }

  method EncodeDomainName(name: bytes) returns (r: Option<bytes>)
    ensures r == Encode(name)
  {
    hide TrimDots, Split, EncodeParts, IsLabel;
    var t := TrimDots(name);
    if t == [] { return Some([0]); }
    var parts := Split(t);
    ghost var lower := LowerLabels(parts);
    var encoded: bytes := [];
    for i := 0 to |parts|
      invariant AreLabels(lower[..i]) && encoded == Heads(lower[..i])
    {
      EncodePartsAppend(lower[..i], lower[i..]);
      assert lower[..i] + lower[i..] == lower;
      EncodePartsHead(lower[i..]);
      IsLabelDef(parts[i]);
      IsLabelDef(lower[i]);
      if parts[i] == [] { return None; }
      if |parts[i]| > MAX_LABEL { return None; }
      HeadsSnoc(lower[..i], lower[i]);
      assert lower[..i + 1] == lower[..i] + [lower[i]];
      encoded := encoded + [|parts[i]|] + Lower(parts[i]);
    }
    assert lower[..|parts|] == lower;
    EncodePartsAppend(lower, []);
    assert lower + [] == lower;
    EncodePartsHead([]);
    return Some(encoded + [0]);
  }

  lemma EncodePartsHead(parts: seq<bytes>)
    ensures parts == [] ==> EncodeParts(parts) == Some([0])
    ensures parts != [] && !IsLabel(parts[0]) ==> EncodeParts(parts).None?
  {
  }

  lemma IsLabelDef(l: bytes)
    ensures IsLabel(l) <==> 1 <= |l| <= MAX_LABEL
  {
  }

  // --- labels_to_string ---

  /** The labels kept: reading stops at the root or at a label running past the end. */
  function Parts(w: bytes): seq<bytes>
    decreases |w|
  {
    if w == [] || w[0] == 0 || LabelSpan(w) > |w| then []
    else
      var l := w[1..LabelSpan(w)];
      (if Utf8Valid(l) then [l] else []) + Parts(w[LabelSpan(w)..])
  }

  function ToText(w: bytes): bytes {
    if Parts(w) == [] then [DOT] else Join(Parts(w))
  }

  lemma PartsStep(labels: bytes, i: nat)
    requires i < |labels|
    ensures var j := i + 1 + labels[i] as int;
            Parts(labels[i..]) ==
            if labels[i] == 0 || j > |labels| then []
            else (if Utf8Valid(labels[i + 1..j]) then [labels[i + 1..j]] else []) + Parts(labels[j..])
  {
    var w := labels[i..];
    if labels[i] != 0 && LabelSpan(w) <= |w| {
      assert w[1..LabelSpan(w)] == labels[i + 1..i + LabelSpan(w)] && w[LabelSpan(w)..] == labels[i + LabelSpan(w)..];
    }
  }

  method LabelsToString(labels: bytes) returns (text: bytes)
    ensures text == ToText(labels)
  {
    hide Parts, Utf8Valid, Join;
    var parts: seq<bytes> := [];
    var i := 0;
    ghost var left := Parts(labels);
    assert labels[0..] == labels;
    while i < |labels|
      invariant 0 <= i <= |labels|
      invariant Parts(labels) == parts + left && left == Parts(labels[i..])
      decreases |labels| - i
    {
      PartsStep(labels, i);
      var len := labels[i] as int;
      if len == 0 { break; }
      i := i + 1;
      if i + len > |labels| { break; }
      if Utf8Valid(labels[i..i + len]) {
        parts := parts + [labels[i..i + len]];
      }
      i := i + len;
      left := Parts(labels[i..]);
    }
    assert left == [] by { if i == |labels| && left == Parts(labels[i..]) { PartsNil(labels[i..]); } }
    assert parts + left == parts;
    if parts == [] { return [DOT]; }
    return Join(parts);
  }

  lemma PartsNil(w: bytes)
    requires w == []
    ensures Parts(w) == []
  {
  }

  predicate Utf8Labels(ls: Labels) { forall i :: 0 <= i < |ls| ==> Utf8Valid(ls[i]) }

  lemma {:induction false} PartsWire(ls: Labels)
    requires AreLabels(ls) && Utf8Labels(ls)
    ensures Parts(Wire(ls)) == ls
  {
    if ls != [] {
      WireParts(ls);
      PartsWire(ls[1..]);
      assert [ls[0]] + ls[1..] == ls;
    }
  }

  // --- The two are inverse up to case ---

  lemma TrimStops(s: bytes)
    requires s != [] && s[|s| - 1] != DOT
    ensures TrimDots(s) == s
  {
  }

  lemma {:induction false} JoinLast(parts: seq<bytes>)
    requires parts != [] && AllDotFree(parts) && parts[|parts| - 1] != []
    ensures Join(parts) != [] && Join(parts)[|Join(parts)| - 1] != DOT
  {
    if |parts| == 1 {
      assert parts[0][|parts[0]| - 1] in parts[0];
    } else {
      JoinLast(parts[1..]);
    }
  }

  function Dots(n: nat): bytes { seq(n, _ => DOT) }

  lemma {:induction false} TrimTrailing(s: bytes, n: nat)
    ensures TrimDots(s + Dots(n)) == TrimDots(s)
  {
    if n == 0 {
      assert s + Dots(0) == s;
    } else {
      var t := s + Dots(n);
      assert t[..|t| - 1] == s + Dots(n - 1);
      TrimTrailing(s, n - 1);
    }
  }

  /** Reading a name out and encoding it again gives it back in lower case, root included. */
  lemma EncodeToText(ls: Labels, trailing: nat)
    requires AreLabels(ls) && Utf8Labels(ls) && AllDotFree(ls)
    ensures AreLabels(LowerLabels(ls))
    ensures Encode(ToText(Wire(ls)) + Dots(trailing)) == Some(Wire(LowerLabels(ls)))
  {
    var t := ToText(Wire(ls));
    PartsWire(ls);
    hide Wire, Parts, Dots, Split, EncodeParts, Utf8Valid;
    TrimTrailing(t, trailing);
    if ls == [] {
      WireNil();
      assert t[..0] == [];
      assert TrimDots(t) == TrimDots([]);
    } else {
      assert IsLabel(ls[|ls| - 1]);
      JoinLast(ls);
      TrimStops(t);
      hide TrimDots, Join;
      SplitJoin(ls);
      EncodePartsWire(LowerLabels(ls));
    }
  }

  lemma {:induction false} SplitUtf8(s: bytes)
    requires Utf8Valid(s)
    ensures Utf8Labels(Split(s))
    decreases |s|
  {
    JoinSplit(s);
    var parts := Split(s);
    if |parts| == 1 {
      assert parts == [s];
    } else {
      var rest := Join(parts[1..]);
      Utf8SplitAtAscii(parts[0], DOT, rest);
      SplitJoin(parts[1..]);
      SplitUtf8(rest);
      assert forall i :: 0 < i < |parts| ==> parts[i] == parts[1..][i - 1];
    }
  }

  lemma {:induction false} JoinLower(parts: seq<bytes>)
    requires parts != []
    ensures Join(LowerLabels(parts)) == Lower(Join(parts))
  {
    if |parts| > 1 {
      JoinLower(parts[1..]);
      assert LowerLabels(parts)[1..] == LowerLabels(parts[1..]);
      LowerConcat(parts[0] + [DOT], Join(parts[1..]));
      LowerConcat(parts[0], [DOT]);
    }
  }

  lemma {:induction false} TrimUtf8(s: bytes)
    requires Utf8Valid(s)
    ensures Utf8Valid(TrimDots(s))
  {
    if s != [] && s[|s| - 1] == DOT {
      var t := s[..|s| - 1];
      assert t + [DOT] + [] == s;
      Utf8SplitAtAscii(t, DOT, []);
      TrimUtf8(t);
    }
  }

  /** Encoding text and reading it out gives the lower-cased text without its trailing dots. */
  lemma ToTextEncode(s: bytes)
    requires Utf8Valid(s) && Encode(s).Some?
    ensures WellFormed(Encode(s).value)
    ensures ToText(Encode(s).value) == if TrimDots(s) == [] then [DOT] else Lower(TrimDots(s))
  {
    var t := TrimDots(s);
    if t != [] {
      var parts := LowerLabels(Split(t));
      EncodePartsWire(parts);
      UnwireWire(parts);
      TrimUtf8(s);
      SplitUtf8(t);
      forall i | 0 <= i < |parts| ensures Utf8Valid(parts[i]) { Utf8Lower(Split(t)[i]); }
      PartsWire(parts);
      JoinLower(Split(t));
      JoinSplit(t);
    }
  }

  // --- 0x20 case mixing ---

  /** Toggle the case of a letter: `b ^ 0x20`. */
  function Toggle(b: byte): byte
    requires IsAlphabetic(b)
  {
    if IsUpper(b) then b + 32 else b - 32
  }

  /** No mask, no change: the code does not get that far on a letter. */
  function MixOctet(b: byte, mask: seq<bool>, bit: nat): byte {
    if IsAlphabetic(b) && mask != [] && mask[bit % |mask|] then Toggle(b) else b
  }

  lemma MixOctetLower(b: byte, mask: seq<bool>, bit: nat)
    ensures LowerByte(MixOctet(b, mask, bit)) == LowerByte(b)
  {
  }

  /** One label, consuming one mask bit per letter from position `bit` on. */
  function MixLabel(l: bytes, mask: seq<bool>, bit: nat): bytes {
    if l == [] then []
    else [MixOctet(l[0], mask, bit)] + MixLabel(l[1..], mask, if IsAlphabetic(l[0]) then bit + 1 else bit)
  }

  function Letters(l: bytes): nat {
    if l == [] then 0 else (if IsAlphabetic(l[0]) then 1 else 0) + Letters(l[1..])
  }

  function MixParts(parts: seq<bytes>, mask: seq<bool>, bit: nat): seq<bytes> {
    if parts == [] then []
    else [MixLabel(parts[0], mask, bit)] + MixParts(parts[1..], mask, bit + Letters(parts[0]))
  }

  /** `Rejected` is the error result, `Panicked` the remainder by the length of an empty mask. */
  datatype Mixed = Encoded(octets: bytes) | Rejected | Panicked

  /** A letter comes before the first label that is empty or too long. */
  predicate LetterFirst(parts: seq<bytes>) {
    parts != [] && IsLabel(parts[0]) && (Letters(parts[0]) > 0 || LetterFirst(parts[1..]))
  }

  /** `encode_domain_name_mixed`. */
  function EncodeMixed(name: bytes, mask: seq<bool>): Mixed {
    var t := TrimDots(name);
    if t == [] then Encoded([0])
    else if mask == [] && LetterFirst(Split(t)) then Panicked
    else match EncodeParts(MixParts(Split(t), mask, 0)) case None => Rejected case Some(w) => Encoded(w)
  }

  lemma MixStep(l: bytes, i: nat, mask: seq<bool>, bit: nat)
    requires i < |l|
    ensures var next := if IsAlphabetic(l[i]) then bit + 1 else bit;
            && MixLabel(l[i..], mask, bit) == [MixOctet(l[i], mask, bit)] + MixLabel(l[i + 1..], mask, next)
            && bit + Letters(l[i..]) == next + Letters(l[i + 1..])
  {
    assert l[i..][1..] == l[i + 1..];
  }

  /** The octets of one label; `next` is the mask position for the label after it. */
  method MixedLabel(l: bytes, mask: seq<bool>, bit: nat) returns (r: Option<bytes>, next: nat)
    ensures r.None? <==> mask == [] && Letters(l) > 0
    ensures r.Some? ==> r.value == MixLabel(l, mask, bit) && next == bit + Letters(l)
  {
    var out: bytes := [];
    next := bit;
    assert l[0..] == l;
    for i := 0 to |l|
      invariant out + MixLabel(l[i..], mask, next) == MixLabel(l, mask, bit)
      invariant next + Letters(l[i..]) == bit + Letters(l) && next >= bit
      invariant mask == [] ==> next == bit
    {
      MixStep(l, i, mask, next);
      hide MixLabel, Letters, MixOctet, IsAlphabetic;
      if IsAlphabetic(l[i]) {
        if mask == [] { return None, next; }
        out, next := out + [MixOctet(l[i], mask, next)], next + 1;
      } else {
        out := out + [MixOctet(l[i], mask, next)];
      }
    }
    assert l[|l|..] == [];
    return Some(out), next;
  }

  lemma LetterFirstStep(parts: seq<bytes>, i: nat)
    requires i < |parts|
    ensures LetterFirst(parts[i..]) <==> IsLabel(parts[i]) && (Letters(parts[i]) > 0 || LetterFirst(parts[i + 1..]))
  {
    assert parts[i..][1..] == parts[i + 1..];
  }

  lemma MixPartsStep(parts: seq<bytes>, i: nat, mask: seq<bool>, bit: nat)
    requires i < |parts|
    ensures MixParts(parts[i..], mask, bit) ==
              [MixLabel(parts[i], mask, bit)] + MixParts(parts[i + 1..], mask, bit + Letters(parts[i]))
  {
    assert parts[i..][1..] == parts[i + 1..];
  }

  lemma {:induction false} MixPartsLengths(parts: seq<bytes>, mask: seq<bool>, bit: nat)
    ensures |MixParts(parts, mask, bit)| == |parts|
  {
    if parts != [] { MixPartsLengths(parts[1..], mask, bit + Letters(parts[0])); }
  }

  lemma NextMixed(parts: seq<bytes>, mixed: seq<bytes>, i: nat, mask: seq<bool>, bit: nat)
    requires i < |parts| == |mixed| && mixed[i..] == MixParts(parts[i..], mask, bit)
    ensures mixed[i] == MixLabel(parts[i], mask, bit) && |mixed[i]| == |parts[i]|
    ensures mixed[i + 1..] == MixParts(parts[i + 1..], mask, bit + Letters(parts[i]))
  {
    MixPartsStep(parts, i, mask, bit);
    MixLabelLower(parts[i], mask, bit);
    hide MixParts, MixLabel, Letters;
    assert mixed[i..][0] == mixed[i] && mixed[i..][1..] == mixed[i + 1..];
  }

  method EncodeDomainNameMixed(name: bytes, mask: seq<bool>) returns (r: Mixed)
    ensures r == EncodeMixed(name, mask)
  {
    hide TrimDots, Split, EncodeParts, IsLabel, MixParts, MixLabel, Letters, LetterFirst;
    var t := TrimDots(name);
    if t == [] { return Encoded([0]); }
    var parts := Split(t);
    ghost var mixed := MixParts(parts, mask, 0);
    MixPartsLengths(parts, mask, 0);
    assert parts[0..] == parts && mixed[0..] == mixed;
    var encoded: bytes, bit := [], 0;
    for i := 0 to |parts|
      invariant AreLabels(mixed[..i]) && encoded == Heads(mixed[..i])
      invariant mixed[i..] == MixParts(parts[i..], mask, bit)
      invariant mask == [] ==> LetterFirst(parts) == LetterFirst(parts[i..])
    {
      LetterFirstStep(parts, i);
      IsLabelDef(parts[i]);
      EncodePartsAppend(mixed[..i], mixed[i..]);
      assert mixed[..i] + mixed[i..] == mixed;
      EncodePartsHead(mixed[i..]);
      NextMixed(parts, mixed, i, mask, bit);
      IsLabelDef(mixed[i]);
      if parts[i] == [] { return Rejected; }
      if |parts[i]| > MAX_LABEL { return Rejected; }
      var l, next := MixedLabel(parts[i], mask, bit);
      if l.None? { return Panicked; }
      HeadsSnoc(mixed[..i], mixed[i]);
      assert mixed[..i + 1] == mixed[..i] + [mixed[i]];
      encoded, bit := encoded + [|parts[i]|] + l.value, next;
    }
    assert mixed[..|parts|] == mixed;
    EncodePartsAppend(mixed, []);
    assert mixed + [] == mixed;
    EncodePartsHead([]);
    LetterFirstNot(parts[|parts|..]);
    return Encoded(encoded + [0]);
  }

  lemma LetterFirstNot(parts: seq<bytes>)
    requires parts == []
    ensures !LetterFirst(parts)
  {
  }

  lemma {:induction false} MixLabelLower(l: bytes, mask: seq<bool>, bit: nat)
    ensures |MixLabel(l, mask, bit)| == |l| && Lower(MixLabel(l, mask, bit)) == Lower(l)
    decreases |l|
  {
    if l != [] {
      var next := if IsAlphabetic(l[0]) then bit + 1 else bit;
      var first := MixOctet(l[0], mask, bit);
      MixLabelLower(l[1..], mask, next);
      assert l == [l[0]] + l[1..];
      hide Lower, MixOctet;
      assert LowerByte(first) == LowerByte(l[0]) by { MixOctetLower(l[0], mask, bit); }
      LowerCons(l[0], l[1..]);
      LowerCons(first, MixLabel(l[1..], mask, next));
    }
  }

  lemma {:induction false} MixPartsLower(parts: seq<bytes>, mask: seq<bool>, bit: nat)
    ensures LowerLabels(MixParts(parts, mask, bit)) == LowerLabels(parts)
    decreases |parts|
  {
    if parts != [] {
      MixLabelLower(parts[0], mask, bit);
      MixPartsLower(parts[1..], mask, bit + Letters(parts[0]));
      LowerLabelsCons(parts[0], parts[1..]);
      LowerLabelsCons(MixLabel(parts[0], mask, bit), MixParts(parts[1..], mask, bit + Letters(parts[0])));
      assert [parts[0]] + parts[1..] == parts;
    }
  }

  lemma LowerKeepsLabels(a: Labels, b: Labels)
    requires LowerLabels(a) == LowerLabels(b)
    ensures AreLabels(a) <==> AreLabels(b)
  {
    assert |a| == |LowerLabels(a)| == |b|;
    forall i | 0 <= i < |a| ensures |a[i]| == |b[i]| {
      assert |LowerLabels(a)[i]| == |LowerLabels(b)[i]|;
    }
  }

  /**
   * The 0x20 encoding panics only on an empty mask; otherwise it fails exactly when the plain one does and names the
   * same domain. With an empty mask a name that can be encoded at all makes it panic exactly when it has a letter.
   */
  lemma MixedEncodesSameName(name: bytes, mask: seq<bool>)
    ensures var r := EncodeMixed(name, mask);
            && (r.Panicked? ==> mask == [])
            && (!r.Panicked? ==> (r.Encoded? <==> Encode(name).Some?))
            && (r.Encoded? ==> SameName(r.octets, Encode(name).value))
    ensures mask == [] && Encode(name).Some? ==>
              (EncodeMixed(name, mask).Panicked? <==> TrimDots(name) != [] && HasLetter(Split(TrimDots(name))))
  {
    var t := TrimDots(name);
    if t != [] {
      var parts := Split(t);
      var plain, mixed := LowerLabels(parts), MixParts(parts, mask, 0);
      MixPartsLower(parts, mask, 0);
      assert LowerLabels(plain) == plain by {
        forall i | 0 <= i < |plain| ensures Lower(plain[i]) == plain[i] { LowerIdempotent(parts[i]); }
      }
      LowerKeepsLabels(plain, mixed);
      LowerKeepsLabels(plain, parts);
      EncodePartsWire(plain);
      EncodePartsWire(mixed);
      hide TrimDots, Split, EncodeParts, MixParts, Lower, SameName;
      if AreLabels(plain) {
        SameNameIffLabels(mixed, plain);
        LetterFirstIff(parts);
      }
    }
  }

  predicate HasLetter(parts: seq<bytes>) { exists i :: 0 <= i < |parts| && Letters(parts[i]) > 0 }

  lemma {:induction false} LetterFirstIff(parts: seq<bytes>)
    requires AreLabels(parts)
    ensures LetterFirst(parts) <==> HasLetter(parts)
  {
    hide Letters;
    if parts != [] {
      LetterFirstIff(parts[1..]);
      if i :| 0 <= i < |parts| && Letters(parts[i]) > 0 {
        if i > 0 { assert parts[1..][i - 1] == parts[i]; }
      }
      if i :| 0 <= i < |parts[1..]| && Letters(parts[1..][i]) > 0 { assert Letters(parts[i + 1]) > 0; }
    }
  }
}
