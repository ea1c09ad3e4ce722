/** Domain names: label lists, their wire form, and the label algebra of src/dns/types.rs. */
module Names {
  import opened Bytes

  const MAX_LABEL := 63

  type Labels = seq<bytes>

  predicate IsLabel(l: bytes) { 1 <= |l| <= MAX_LABEL }

  predicate AreLabels(ls: Labels) { forall i :: 0 <= i < |ls| ==> IsLabel(ls[i]) }

  /** Uncompressed wire form of a label list, root octet included. */
  function Wire(ls: Labels): (w: bytes)
    requires AreLabels(ls)
    ensures |w| >= 1
  {
    if ls == [] then [0] else [|ls[0]|] + ls[0] + Wire(ls[1..])
  }

  /** Octets taken by the label that starts `w`, length octet included. */
  function LabelSpan(w: bytes): nat
    requires w != []
  {
    1 + w[0] as int
  }

  /** Labels of 1..63 octets closed by exactly one zero octet. */
  predicate WellFormed(w: bytes)
    decreases |w|
  {
    w != [] &&
    if w[0] == 0 then |w| == 1
    else w[0] <= MAX_LABEL && LabelSpan(w) < |w| && WellFormed(w[LabelSpan(w)..])
  }

  function Unwire(w: bytes): (ls: Labels)
    requires WellFormed(w)
    decreases |w|
  {
    if w[0] == 0 then [] else [w[1..LabelSpan(w)]] + Unwire(w[LabelSpan(w)..])
  }

  lemma WireCons(l: bytes, rest: Labels)
    requires IsLabel(l) && AreLabels(rest)
    ensures AreLabels([l] + rest)
    ensures Wire([l] + rest) == [|l|] + l + Wire(rest)
  {
    assert ([l] + rest)[1..] == rest;
  }

  lemma UnwireCons(l: bytes, tail: bytes)
    requires IsLabel(l) && WellFormed(tail)
    ensures var w: bytes := [|l|] + l + tail; WellFormed(w) && Unwire(w) == [l] + Unwire(tail)
  {
    var w: bytes := [|l|] + l + tail;
    assert w[1..1 + |l|] == l && w[1 + |l|..] == tail;
  }

  lemma {:induction false} UnwireWire(ls: Labels)
    requires AreLabels(ls)
    ensures WellFormed(Wire(ls)) && Unwire(Wire(ls)) == ls
  {
    if ls != [] {
      UnwireWire(ls[1..]);
      UnwireCons(ls[0], Wire(ls[1..]));
    }
  }

  lemma {:induction false} WireUnwire(w: bytes)
    requires WellFormed(w)
    ensures AreLabels(Unwire(w)) && Wire(Unwire(w)) == w
    decreases |w|
  {
    if w[0] != 0 {
      WireUnwire(w[LabelSpan(w)..]);
      WireCons(w[1..LabelSpan(w)], Unwire(w[LabelSpan(w)..]));
    }
  }

  lemma WireNil()
    ensures Wire([]) == [0]
  {
  }

  /** The wire form of a non-empty list is its first label followed by the rest. */
  lemma WireParts(ls: Labels)
    requires AreLabels(ls) && ls != []
    ensures var w := Wire(ls);
            && w[0] == |ls[0]| && LabelSpan(w) < |w|
            && w[1..LabelSpan(w)] == ls[0] && w[LabelSpan(w)..] == Wire(ls[1..])
  {
  }

  function LowerLabels(ls: Labels): (r: Labels)
    ensures |r| == |ls|
    ensures forall i :: 0 <= i < |ls| ==> r[i] == Lower(ls[i])
  {
    seq(|ls|, i requires 0 <= i < |ls| => Lower(ls[i]))
  }

  lemma LowerLabelsCons(l: bytes, rest: Labels)
    ensures LowerLabels([l] + rest) == [Lower(l)] + LowerLabels(rest)
  {
  }

  // --- domain_names_equal ---

  /** What the comparison loop decides, on any two octet strings. */
  predicate SameName(a: bytes, b: bytes)
    decreases |a|
  {
    if a == [] || b == [] then a == b
    else if a[0] != b[0] then false
    else if a[0] == 0 then true
    else
      var n := LabelSpan(a);
      n <= |a| && n <= |b| && EqIgnoreCase(a[1..n], b[1..n]) && SameName(a[n..], b[n..])
  }

  /** The inner loop: are the `n` octets from `ia` and `ib` present and equal up to case? */
  method SameOctets(a: bytes, b: bytes, ia: nat, ib: nat, n: nat) returns (eq: bool)
    requires ia <= |a| && ib <= |b|
    ensures eq <==> ia + n <= |a| && ib + n <= |b| && EqIgnoreCase(a[ia..ia + n], b[ib..ib + n])
  {
    for k := 0 to n
      invariant ia + k <= |a| && ib + k <= |b|
      invariant EqIgnoreCase(a[ia..ia + k], b[ib..ib + k])
    {
      if ia + k >= |a| || ib + k >= |b| { return false; }
      if LowerByte(a[ia + k]) != LowerByte(b[ib + k]) {
        if ia + n <= |a| && ib + n <= |b| {
          assert Lower(a[ia..ia + n])[k] != Lower(b[ib..ib + n])[k];
        }
        return false;
      }
      assert a[ia..ia + k + 1] == a[ia..ia + k] + [a[ia + k]];
      assert b[ib..ib + k + 1] == b[ib..ib + k] + [b[ib + k]];
    }
    return true;
  }

  /** One label of the comparison, at offsets `ia` and `ib` that hold the same length octet. */
  lemma SameNameStep(a: bytes, b: bytes, ia: nat, ib: nat)
    requires ia < |a| && ib < |b| && a[ia] == b[ib] && a[ia] != 0
    ensures var ja, jb := ia + 1 + a[ia] as int, ib + 1 + a[ia] as int;
            SameName(a[ia..], b[ib..]) <==>
              ja <= |a| && jb <= |b| && EqIgnoreCase(a[ia + 1..ja], b[ib + 1..jb]) && SameName(a[ja..], b[jb..])
  {
    var n := 1 + a[ia] as int;
    var ra, rb := a[ia..], b[ib..];
    if n <= |ra| && n <= |rb| {
      assert ra[1..n] == a[ia + 1..ia + n] && ra[n..] == a[ia + n..];
      assert rb[1..n] == b[ib + 1..ib + n] && rb[n..] == b[ib + n..];
    }
  }

  lemma SameNameEnds(a: bytes, b: bytes)
    ensures a == [] || b == [] ==> (SameName(a, b) <==> a == b)
    ensures a != [] && b != [] && a[0] != b[0] ==> !SameName(a, b)
    ensures a != [] && b != [] && a[0] == b[0] == 0 ==> SameName(a, b)
  {
  }

  method DomainNamesEqual(a: bytes, b: bytes) returns (eq: bool)
    ensures eq == SameName(a, b)
  {
    hide SameName, EqIgnoreCase;
    var ia, ib := 0, 0;
    assert a[0..] == a && b[0..] == b;
    while true
      invariant 0 <= ia <= |a| && 0 <= ib <= |b|
      invariant SameName(a, b) == SameName(a[ia..], b[ib..])
      decreases |a| - ia
    {
      SameNameEnds(a[ia..], b[ib..]);
      if ia >= |a| && ib >= |b| { return true; }
      if ia >= |a| || ib >= |b| { return false; }
      var la, lb := a[ia] as int, b[ib] as int;
      if la != lb { return false; }
      if la == 0 { return true; }
      SameNameStep(a, b, ia, ib);
      var same := SameOctets(a, b, ia + 1, ib + 1, la);
      if !same { return false; }
      ia, ib := ia + 1 + la, ib + 1 + la;
    }
  }

  /** On well-formed names the comparison is exactly equality of lower-cased label lists. */
  lemma {:induction false} SameNameIffLabels(a: Labels, b: Labels)
    requires AreLabels(a) && AreLabels(b)
    ensures SameName(Wire(a), Wire(b)) <==> LowerLabels(a) == LowerLabels(b)
    decreases |a|
  {
    if a == [] || b == [] {
      assert a != b ==> |LowerLabels(a)| != |LowerLabels(b)|;
    } else {
      WireParts(a);
      WireParts(b);
      SameNameIffLabels(a[1..], b[1..]);
      assert a == [a[0]] + a[1..] && b == [b[0]] + b[1..];
      LowerLabelsCons(a[0], a[1..]);
      LowerLabelsCons(b[0], b[1..]);
      assert LowerLabels(a)[1..] == LowerLabels(a[1..]) && LowerLabels(b)[1..] == LowerLabels(b[1..]);
    }
  }

  /** The same, for names given as octets; hence an equivalence relation on decoder output. */
  lemma SameNameIff(a: bytes, b: bytes)
    requires WellFormed(a) && WellFormed(b)
    ensures SameName(a, b) <==> LowerLabels(Unwire(a)) == LowerLabels(Unwire(b))
  {
    WireUnwire(a);
    WireUnwire(b);
    SameNameIffLabels(Unwire(a), Unwire(b));
  }

  // --- count_labels and name_prefix ---

  function LabelCount(w: bytes): nat
    decreases |w|
  {
    if w == [] || w[0] == 0 then 0
    else 1 + if LabelSpan(w) <= |w| then LabelCount(w[LabelSpan(w)..]) else 0
  }

  method CountLabels(name: bytes) returns (count: nat)
    ensures count == LabelCount(name)
  {
    count := 0;
    var i := 0;
    assert name[0..] == name;
    while i < |name|
      invariant 0 <= i
      invariant LabelCount(name) == count + if i <= |name| then LabelCount(name[i..]) else 0
      decreases |name| - i
    {
      var len := name[i] as int;
      if len == 0 { break; }
      count := count + 1;
      assert 1 + len <= |name[i..]| ==> name[i..][1 + len..] == name[i + 1 + len..];
      i := i + 1 + len;
    }
  }

  lemma {:induction false} LabelCountWire(ls: Labels)
    requires AreLabels(ls)
    ensures LabelCount(Wire(ls)) == |ls|
  {
    if ls != [] {
      WireParts(ls);
      LabelCountWire(ls[1..]);
    }
  }

  function LastLabels(ls: Labels, n: nat): Labels {
    if n >= |ls| then ls else ls[|ls| - n..]
  }

  /** The name with only its last `n` labels (the whole name when it has no more than that). */
  function NamePrefix(name: bytes, n: nat): bytes
    requires WellFormed(name)
  {
    WireUnwire(name);
    Wire(LastLabels(Unwire(name), n))
  }

  /** Length-prefixed labels without the closing root octet. */
  function Heads(ls: Labels): bytes
    requires AreLabels(ls)
  {
    if ls == [] then [] else [|ls[0]|] + ls[0] + Heads(ls[1..])
  }

  lemma {:induction false} WireAppend(a: Labels, b: Labels)
    requires AreLabels(a) && AreLabels(b)
    ensures AreLabels(a + b) && Wire(a + b) == Heads(a) + Wire(b)
  {
    if a == [] {
      assert a + b == b;
    } else {
      var head: bytes := [|a[0]|] + a[0];
      assert (a + b)[0] == a[0] && (a + b)[1..] == a[1..] + b;
      WireAppend(a[1..], b);
      assert Wire(a + b) == head + Wire(a[1..] + b) && Heads(a) == head + Heads(a[1..]);
      hide Wire, Heads;
      Regroup(head, Heads(a[1..]), Wire(b));
    }
  }

  /** Dropping labels from the front of a name drops octets from the front of its wire form. */
  lemma WireDrop(ls: Labels, k: nat)
    requires AreLabels(ls) && k <= |ls|
    ensures var p := Wire(ls[k..]); |p| <= |Wire(ls)| && p == Wire(ls)[|Wire(ls)| - |p|..]
  {
    assert ls == ls[..k] + ls[k..];
    WireAppend(ls[..k], ls[k..]);
  }

  lemma LastLabelsSuffix(ls: Labels, n: nat)
    requires AreLabels(ls)
    ensures var p := Wire(LastLabels(ls, n));
            && |p| <= |Wire(ls)| && p == Wire(ls)[|Wire(ls)| - |p|..]
            && LabelCount(p) == (if n < |ls| then n else |ls|)
  {
    hide Wire, LabelCount;
    WireDrop(ls, if n < |ls| then |ls| - n else 0);
    assert ls[0..] == ls;
    LabelCountWire(LastLabels(ls, n));
  }

  /** A minimised query name is an octet suffix of the full name with min(n, total) labels. */
  lemma NamePrefixIsSuffix(name: bytes, n: nat)
    requires WellFormed(name)
    ensures var p := NamePrefix(name, n);
            && WellFormed(p) && |p| <= |name| && p == name[|name| - |p|..]
            && LabelCount(p) == (if n < LabelCount(name) then n else LabelCount(name))
  {
    var ls := Unwire(name);
    WireUnwire(name);
    LabelCountWire(ls);
    LastLabelsSuffix(ls, n);
    UnwireWire(LastLabels(ls, n));
  }

  // --- name_prefix on any octets ---

  /** The labels that `count_labels` counts; the last one may be cut short by the end of the octets. */
  function RawLabels(w: bytes): (ls: Labels)
    ensures |ls| == LabelCount(w)
    decreases |w|
  {
    if w == [] || w[0] == 0 then []
    else if LabelSpan(w) <= |w| then [w[1..LabelSpan(w)]] + RawLabels(w[LabelSpan(w)..])
    else [w[1..]]
  }

  /** Does some label run past the end of the octets? */
  predicate Truncated(w: bytes)
    decreases |w|
  {
    w != [] && w[0] != 0 && (LabelSpan(w) > |w| || Truncated(w[LabelSpan(w)..]))
  }

  /** The copying loop: skip labels, keep the others and the root octet. `None` is the slice out of range. */
  function Kept(w: bytes, skip: nat): Option<bytes>
    decreases |w|
  {
    if w == [] then Some([])
    else if w[0] == 0 then Some([0])
    else
      var n := LabelSpan(w);
      if skip > 0 then if n <= |w| then Kept(w[n..], skip - 1) else Some([])
      else if n > |w| then None
      else match Kept(w[n..], 0) case None => None case Some(r) => Some(w[..n] + r)
  }

  function Closed(r: bytes): bytes { if r == [] || r[|r| - 1] != 0 then r + [0] else r }

  /** `name_prefix` on any octets; `None` is a panic. */
  function PrefixOf(name: bytes, n: nat): Option<bytes> {
    var total := LabelCount(name);
    if n >= total then Some(name)
    else match Kept(name, total - n) case None => None case Some(r) => Some(Closed(r))
  }

  /** One turn of the loop at offset `i`. */
  lemma KeptStep(name: bytes, i: nat, skip: nat)
    requires i < |name|
    ensures var j := i + 1 + name[i] as int;
            Kept(name[i..], skip) ==
              if name[i] == 0 then Some([0])
              else if skip > 0 then if j <= |name| then Kept(name[j..], skip - 1) else Some([])
              else if j > |name| then None
              else match Kept(name[j..], 0)
                case None => None
                case Some(r) => Some([name[i]] + name[i + 1..j] + r)
  {
    var w, j := name[i..], i + 1 + name[i] as int;
    if name[i] != 0 && j <= |name| {
      assert w[LabelSpan(w)..] == name[j..] && w[..LabelSpan(w)] == [name[i]] + name[i + 1..j];
    }
  }

  lemma KeptNil(skip: nat)
    ensures Kept([], skip) == Some([])
  {
  }

  /** What is kept so far, in front of what the rest of the loop keeps. */
  function With(kept: bytes, rest: Option<bytes>): Option<bytes> {
    match rest case None => None case Some(r) => Some(kept + r)
  }

  /** The loop itself. */
  method KeepLabels(name: bytes, skip: nat) returns (result: Option<bytes>)
    ensures result == Kept(name, skip)
  {
    hide Kept;
    var kept: bytes := [];
    var i, count := 0, 0;
    assert name[0..] == name;
    KeptNil(skip);
    if Kept(name, skip).Some? { assert [] + Kept(name, skip).value == Kept(name, skip).value; }
    while i < |name|
      invariant 0 <= i && 0 <= count
      invariant count < skip ==> kept == []
      invariant var left := if count < skip then skip - count else 0;
                Kept(name, skip) == With(kept, if i < |name| then Kept(name[i..], left) else Some([]))
      decreases |name| - i
    {
      var len := name[i] as int;
      KeptStep(name, i, if count < skip then skip - count else 0);
      if len == 0 { return Some(kept + [0]); }
      var j := i + 1 + len;
      if j == |name| {
        assert name[j..] == [];
        KeptNil(if count < skip then skip - count - 1 else 0);
      }
      if count >= skip {
        if j > |name| { return None; }
        var part := [name[i]] + name[i + 1..j];
        var rest := Kept(name[j..], 0);
        if rest.Some? { Regroup(kept, part, rest.value); }
        kept := kept + part;
      }
      i := j;
      count := count + 1;
    }
    assert kept + [] == kept;
    return Some(kept);
  }

  method NamePrefixOf(name: bytes, n: nat) returns (result: Option<bytes>)
    ensures result == PrefixOf(name, n)
  {
    hide Kept, LabelCount;
    var total := CountLabels(name);
    if n >= total { return Some(name); }
    var r := KeepLabels(name, total - n);
    if r.None? { return None; }
    var kept := r.value;
    if kept == [] || kept[|kept| - 1] != 0 { kept := kept + [0]; }
    return Some(kept);
  }

  lemma {:induction false} KeptPanics(w: bytes, skip: nat)
    ensures Kept(w, skip).None? <==> Truncated(w) && skip < LabelCount(w)
    decreases |w|
  {
    if w != [] && w[0] != 0 && LabelSpan(w) <= |w| {
      KeptPanics(w[LabelSpan(w)..], if skip > 0 then skip - 1 else 0);
      if Truncated(w[LabelSpan(w)..]) { TruncatedCounts(w[LabelSpan(w)..]); }
    }
  }

  lemma TruncatedCounts(w: bytes)
    requires Truncated(w)
    ensures LabelCount(w) > 0
  {
  }

  /** The slice goes out of range exactly when a label is cut short and some, but not all, labels are asked for. */
  lemma PrefixPanicsIff(name: bytes, n: nat)
    ensures PrefixOf(name, n).None? <==> Truncated(name) && 0 < n < LabelCount(name)
  {
    if n < LabelCount(name) { KeptPanics(name, LabelCount(name) - n); }
  }

  lemma {:induction false} KeptAll(w: bytes)
    requires !Truncated(w)
    ensures Kept(w, 0).Some? && !Truncated(Kept(w, 0).value) && RawLabels(Kept(w, 0).value) == RawLabels(w)
    decreases |w|
  {
    if w != [] && w[0] != 0 {
      var n := LabelSpan(w);
      KeptAll(w[n..]);
      var r := Kept(w[n..], 0).value;
      var k := w[..n] + r;
      assert k[0] == w[0] && k[1..n] == w[1..n] && k[n..] == r;
    }
  }

  /** One label skipped. */
  lemma SkipOne(w: bytes, skip: nat)
    requires 0 < skip <= LabelCount(w) && LabelSpan(w) <= |w|
    ensures var rest := w[LabelSpan(w)..];
            && Kept(w, skip) == Kept(rest, skip - 1) && LabelCount(w) == 1 + LabelCount(rest)
            && (Truncated(w) <==> Truncated(rest)) && RawLabels(w)[skip..] == RawLabels(rest)[skip - 1..]
  {
    hide Kept;
    var rest := w[LabelSpan(w)..];
    assert RawLabels(w) == [w[1..LabelSpan(w)]] + RawLabels(rest);
    SkipKept(w, skip);
  }

  lemma SkipKept(w: bytes, skip: nat)
    requires skip > 0 && w != [] && w[0] != 0
    ensures LabelSpan(w) <= |w| ==> Kept(w, skip) == Kept(w[LabelSpan(w)..], skip - 1)
    ensures LabelSpan(w) > |w| ==> Kept(w, skip) == Some([])
  {
  }

  lemma {:induction false} KeptLabels(w: bytes, skip: nat)
    requires skip <= LabelCount(w) && (Truncated(w) ==> skip == LabelCount(w))
    ensures Kept(w, skip).Some? && !Truncated(Kept(w, skip).value)
    ensures RawLabels(Kept(w, skip).value) == RawLabels(w)[skip..]
    decreases |w|
  {
    hide Kept;
    if skip == 0 {
      if Truncated(w) { TruncatedCounts(w); }
      KeptAll(w);
      assert RawLabels(w)[0..] == RawLabels(w);
    } else if LabelSpan(w) <= |w| {
      SkipOne(w, skip);
      KeptLabels(w[LabelSpan(w)..], skip - 1);
    } else {
      SkipKept(w, skip);
    }
  }

  lemma {:induction false} CloseKeepsLabels(w: bytes)
    requires !Truncated(w)
    ensures RawLabels(w + [0]) == RawLabels(w)
    decreases |w|
  {
    if w == [] {
      assert w + [0] == [0];
    } else if w[0] != 0 {
      var n := LabelSpan(w);
      CloseKeepsLabels(w[n..]);
      assert (w + [0])[1..n] == w[1..n] && (w + [0])[n..] == w[n..] + [0];
    }
  }

  /** On any octets, whatever `name_prefix` returns has exactly the last min(n, total) labels of the name. */
  lemma PrefixHasLastLabels(name: bytes, n: nat)
    requires PrefixOf(name, n).Some?
    ensures RawLabels(PrefixOf(name, n).value) == LastLabels(RawLabels(name), n)
  {
    PrefixPanicsIff(name, n);
    var total := LabelCount(name);
    if n < total {
      KeptLabels(name, total - n);
      hide Kept;
      CloseKeepsLabels(Kept(name, total - n).value);
    }
  }

  lemma {:induction false} KeptWire(ls: Labels, skip: nat)
    requires AreLabels(ls) && skip <= |ls|
    ensures Kept(Wire(ls), skip) == Some(Wire(ls[skip..]))
  {
    if ls == [] {
      WireNil();
    } else {
      WireParts(ls);
      KeptWire(ls[1..], if skip > 0 then skip - 1 else 0);
      if skip > 0 {
        assert ls[1..][skip - 1..] == ls[skip..];
      } else {
        assert ls[1..][0..] == ls[1..] && ls[0..] == ls;
        var w := Wire(ls);
        assert w == w[..LabelSpan(w)] + w[LabelSpan(w)..];
      }
    }
  }

  lemma {:induction false} WireEndsInRoot(ls: Labels)
    requires AreLabels(ls)
    ensures Wire(ls)[|Wire(ls)| - 1] == 0
  {
    if ls != [] { WireEndsInRoot(ls[1..]); }
  }

  lemma PrefixOfWire(ls: Labels, n: nat)
    requires AreLabels(ls)
    ensures PrefixOf(Wire(ls), n) == Some(Wire(LastLabels(ls, n)))
  {
    hide Kept, Wire, LabelCount;
    LabelCountWire(ls);
    if n < |ls| {
      KeptWire(ls, |ls| - n);
      WireEndsInRoot(ls[|ls| - n..]);
    }
  }

  /** On a well-formed name it is the name made of the last labels. */
  lemma PrefixOfWellFormed(name: bytes, n: nat)
    requires WellFormed(name)
    ensures PrefixOf(name, n) == Some(NamePrefix(name, n))
  {
    hide PrefixOf, WellFormed, Unwire, Wire;
    WireUnwire(name);
    PrefixOfWire(Unwire(name), n);
  }

  /** Do the labels, with a root octet or without, take up all the octets? */
  predicate AllLabels(w: bytes)
    decreases |w|
  {
    w == [] || if w[0] == 0 then |w| == 1 else LabelSpan(w) <= |w| && AllLabels(w[LabelSpan(w)..])
  }

  /** What is left after the first `skip` labels. */
  function After(w: bytes, skip: nat): bytes
    requires skip <= LabelCount(w)
    decreases |w|
  {
    if skip == 0 then w else if LabelSpan(w) <= |w| then After(w[LabelSpan(w)..], skip - 1) else []
  }

  lemma {:induction false} KeptIsPrefix(w: bytes)
    requires !Truncated(w)
    ensures Kept(w, 0).Some? && Kept(w, 0).value <= w
    ensures Kept(w, 0).value == w <==> AllLabels(w)
    ensures Kept(w, 0).value != w ==> Kept(w, 0).value != [] && Kept(w, 0).value[|Kept(w, 0).value| - 1] == 0
    decreases |w|
  {
    if w != [] && w[0] != 0 {
      var n := LabelSpan(w);
      KeptIsPrefix(w[n..]);
      assert w == w[..n] + w[n..];
    }
  }

  lemma {:induction false} KeptIsAfter(w: bytes, skip: nat)
    requires skip < LabelCount(w) && !Truncated(w)
    ensures !Truncated(After(w, skip)) && Kept(w, skip) == Kept(After(w, skip), 0)
    ensures After(w, skip) != [] && After(w, skip)[|After(w, skip)| - 1] == w[|w| - 1]
    ensures AllLabels(After(w, skip)) <==> AllLabels(w)
    decreases |w|
  {
    if skip > 0 { KeptIsAfter(w[LabelSpan(w)..], skip - 1); }
  }

  /**
   * When some but not all labels are asked for, the result is the rest of the name's own octets exactly when labels
   * take up all the octets and the last octet is zero; a well-formed name is such a name.
   */
  lemma PrefixIsRestIff(name: bytes, n: nat)
    requires 0 < n < LabelCount(name)
    ensures PrefixOf(name, n) == Some(After(name, LabelCount(name) - n)) <==>
              AllLabels(name) && name[|name| - 1] == 0
  {
    PrefixPanicsIff(name, n);
    hide Kept;
    if Truncated(name) {
      TruncatedIsNotAll(name);
    } else {
      KeptIsAfter(name, LabelCount(name) - n);
      KeptIsPrefix(After(name, LabelCount(name) - n));
    }
  }

  lemma {:induction false} TruncatedIsNotAll(w: bytes)
    requires Truncated(w)
    ensures !AllLabels(w)
    decreases |w|
  {
    if LabelSpan(w) <= |w| { TruncatedIsNotAll(w[LabelSpan(w)..]); }
  }
}
