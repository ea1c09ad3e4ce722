/** When the code's record order is the canonical RR order of section 6.3 of RFC 4034. */
module RecordOrder {
  import opened Bytes
  import opened NameOrder
  import opened Messages
  import opened Signing

  function RDatas(rrset: seq<Record>): (s: seq<bytes>)
    ensures |s| == |rrset|
  {
    seq(|rrset|, i requires 0 <= i < |rrset| => CanonicalRData(rrset[i].parsed))
  }

  /** Wire forms of records that share everything but their RDATA. */
  function Prefixed(head: bytes, rdatas: seq<bytes>): (s: seq<bytes>)
    ensures |s| == |rdatas|
  {
    seq(|rdatas|, i requires 0 <= i < |rdatas| => head + WithLength(rdatas[i]))
  }

  /** Same owner (up to case), type and class, as an RRset has; RDATA of lengths that fit their field. */
  ghost predicate IsRRset(rrset: seq<Record>) {
    && (forall i :: 0 <= i < |rrset| ==>
          && CanonicalName(rrset[i].name) == CanonicalName(rrset[0].name)
          && rrset[i].rtype == rrset[0].rtype && rrset[i].rclass == rrset[0].rclass)
    && Short(RDatas(rrset))
  }

  predicate Short(rdatas: seq<bytes>) { forall i :: 0 <= i < |rdatas| ==> |rdatas[i]| < 0x1_0000 }

  /** The signed octets with records in canonical order: sorted by RDATA as octet strings. */
  function RfcSignedData(sig: RData, rrset: seq<Record>): bytes
    requires sig.RRSIG?
  {
    SignatureHead(sig)
    + if rrset == [] then []
      else Concat(Prefixed(RecordHead(rrset[0], sig.originalTtl), Sort(RDatas(rrset))))
  }

  /** No shorter RDATA sorts after a longer one. */
  predicate LengthMonotone(rdatas: seq<bytes>) {
    forall i, j :: 0 <= i < |rdatas| && 0 <= j < |rdatas| && |rdatas[i]| < |rdatas[j]| ==>
      CompareOctets(rdatas[i], rdatas[j]) == Less
  }

  // --- The order of wire forms ---

  lemma {:induction false} LexAppend(a: bytes, b: bytes, x: bytes, y: bytes)
    requires |a| == |b|
    ensures CompareOctets(a + x, b + y) ==
              if CompareOctets(a, b) != Equal then CompareOctets(a, b) else CompareOctets(x, y)
    decreases |a|
  {
    if a == [] {
      assert a + x == x && b + y == y;
    } else {
      LexAppend(a[1..], b[1..], x, y);
      assert (a + x)[1..] == a[1..] + x && (b + y)[1..] == b[1..] + y;
    }
  }

  lemma LexOne(a: byte, b: byte)
    ensures CompareOctets([a], [b]) == CompareInts(a, b)
  {
    var x: bytes, y: bytes := [a], [b];
    LexEqual(OCTETS, x, y);
    assert OCTETS(x[0], y[0]) == CompareInts(a, b);
  }

  lemma LexBe16(m: u16, n: u16)
    ensures CompareOctets(Be16(m), Be16(n)) == CompareInts(m, n)
  {
    var x, y := Be16(m), Be16(n);
    assert x[1..] == [m % 256] && y[1..] == [n % 256];
    LexOne(m % 256, n % 256);
  }

  /** Sorting wire forms compares lengths before contents. */
  lemma WireOrder(head: bytes, x: bytes, y: bytes)
    requires |x| < 0x1_0000 && |y| < 0x1_0000
    ensures CompareOctets(head + WithLength(x), head + WithLength(y))
            == if |x| != |y| then CompareInts(|x|, |y|) else CompareOctets(x, y)
  {
    OctetsFlip(head, head);
    hide CompareOctets, Be16;
    LexAppend(head, head, WithLength(x), WithLength(y));
    LexAppend(Be16(|x|), Be16(|y|), x, y);
    LexBe16(|x|, |y|);
  }

  lemma PrefixedTake(head: bytes, s: seq<bytes>, i: nat)
    requires i < |s|
    ensures multiset(Prefixed(head, s)) ==
        multiset{head + WithLength(s[i])} + multiset(Prefixed(head, s[..i] + s[i + 1..]))
  {
    hide WithLength;
    var u, v := Prefixed(head, s[..i]), Prefixed(head, s[i + 1..]);
    assert Prefixed(head, s) == u + [head + WithLength(s[i])] + v;
    assert Prefixed(head, s[..i] + s[i + 1..]) == u + v;
  }

  lemma {:induction false} PrefixedMultiset(head: bytes, a: seq<bytes>, b: seq<bytes>)
    requires multiset(a) == multiset(b)
    ensures multiset(Prefixed(head, a)) == multiset(Prefixed(head, b))
    decreases |a|
  {
    hide Prefixed, WithLength;
    assert |a| == |multiset(a)| == |multiset(b)| == |b|;
    if a == [] {
      assert a == b;
    } else {
      var i := FirstElsewhere(a, b);
      PrefixedTake(head, a, 0);
      PrefixedTake(head, b, i);
      assert a[..0] + a[1..] == a[1..];
      PrefixedMultiset(head, a[1..], b[..i] + b[i + 1..]);
    }
  }

  lemma ShortSame(a: seq<bytes>, b: seq<bytes>)
    requires multiset(a) == multiset(b) && Short(a)
    ensures Short(b)
  {
    forall i | 0 <= i < |b| ensures |b[i]| < 0x1_0000 {
      assert b[i] in multiset(b);
      assert b[i] in a;
    }
  }

  lemma MonotoneSame(a: seq<bytes>, b: seq<bytes>)
    requires multiset(a) == multiset(b) && LengthMonotone(a)
    ensures LengthMonotone(b)
  {
    hide CompareOctets;
    forall i, j | 0 <= i < |b| && 0 <= j < |b| && |b[i]| < |b[j]| ensures CompareOctets(b[i], b[j]) == Less {
      assert b[i] in multiset(b) && b[j] in multiset(b);
      assert b[i] in a && b[j] in a;
    }
  }

  /** With monotone lengths, RDATA order makes the wire forms sorted too. */
  lemma SortedWires(head: bytes, s: seq<bytes>)
    requires Sorted(s) && Short(s) && LengthMonotone(s)
    ensures Sorted(Prefixed(head, s))
  {
    hide CompareOctets, WithLength;
    var p := Prefixed(head, s);
    forall i, j | 0 <= i < j < |p| ensures Before(p[i], p[j]) {
      WireOrder(head, s[i], s[j]);
      assert Before(s[i], s[j]);
      if |s[i]| > |s[j]| {
        assert CompareOctets(s[j], s[i]) == Less;
        OctetsFlip(s[j], s[i]);
      }
    }
  }

  lemma OctetsFlip(x: bytes, y: bytes)
    ensures CompareOctets(x, y) == Less <==> CompareOctets(y, x) == Greater
    ensures CompareOctets(x, y) == Equal <==> x == y
  {
    LexFlip(OCTETS, x, y);
    LexEqual(OCTETS, x, y);
  }

  /** Sorting wire forms gives canonical order exactly when lengths are monotone. */
  lemma SortCommutesIff(head: bytes, rdatas: seq<bytes>)
    requires Short(rdatas)
    ensures Sort(Prefixed(head, rdatas)) == Prefixed(head, Sort(rdatas)) <==> LengthMonotone(rdatas)
  {
    hide Sort, CompareOctets, WithLength, Before;
    var s := Sort(rdatas);
    SortSorts(rdatas);
    SortSorts(Prefixed(head, rdatas));
    PrefixedMultiset(head, rdatas, s);
    ShortSame(rdatas, s);
    if LengthMonotone(rdatas) {
      MonotoneSame(rdatas, s);
      SortedWires(head, s);
      SortedUnique(Sort(Prefixed(head, rdatas)), Prefixed(head, s));
    }
    if Sort(Prefixed(head, rdatas)) == Prefixed(head, s) {
      SortedBothWays(head, s);
      MonotoneSame(s, rdatas);
    }
  }

  lemma SortedBothWays(head: bytes, s: seq<bytes>)
    requires Short(s) && Sorted(s) && Sorted(Prefixed(head, s))
    ensures LengthMonotone(s)
  {
    hide CompareOctets, WithLength;
    var p := Prefixed(head, s);
    forall i, j | 0 <= i < |s| && 0 <= j < |s| && |s[i]| < |s[j]| ensures CompareOctets(s[i], s[j]) == Less {
      WireOrder(head, s[i], s[j]);
      OctetsFlip(p[i], p[j]);
      if j < i { assert false; }
      assert Before(s[i], s[j]);
      OctetsFlip(s[i], s[j]);
    }
  }

  // --- Concatenation loses nothing ---

  lemma {:induction false} ConcatInjective(head: bytes, a: seq<bytes>, b: seq<bytes>)
    requires |a| == |b| && Short(a) && Short(b) && Concat(Prefixed(head, a)) == Concat(Prefixed(head, b))
    ensures a == b
    decreases |a|
  {
    if a != [] {
      var pa, pb := Prefixed(head, a), Prefixed(head, b);
      var ra, rb := Prefixed(head, a[1..]), Prefixed(head, b[1..]);
      assert pa[1..] == ra && pb[1..] == rb;
      hide Concat, Prefixed;
      SplitFirst(head, a[0], b[0], Concat(ra), Concat(rb));
      ConcatInjective(head, a[1..], b[1..]);
      assert a == [a[0]] + a[1..] && b == [b[0]] + b[1..];
    }
  }

  lemma SplitEqual(a: bytes, b: bytes, u: bytes, v: bytes)
    requires |a| == |b| && a + u == b + v
    ensures a == b && u == v
  {
    assert a == (a + u)[..|a|] && b == (b + v)[..|b|] && u == (a + u)[|a|..] && v == (b + v)[|b|..];
  }

  lemma WithLengthRegroups(head: bytes, x: bytes, u: bytes)
    ensures head + WithLength(x) + u == head + (Be16(|x| % 0x1_0000) + (x + u))
  {
    hide Be16;
    Regroup(head, WithLength(x), u);
    Regroup(Be16(|x| % 0x1_0000), x, u);
  }

  lemma Be16Injective(m: u16, n: u16)
    requires Be16(m) == Be16(n)
    ensures m == n
  {
    assert m == Rd16(Be16(m), 0) && n == Rd16(Be16(n), 0);
  }

  lemma SplitFirst(head: bytes, x: bytes, y: bytes, u: bytes, v: bytes)
    requires |x| < 0x1_0000 && |y| < 0x1_0000
    requires head + WithLength(x) + u == head + WithLength(y) + v
    ensures x == y && u == v
  {
    hide Be16, WithLength;
    WithLengthRegroups(head, x, u);
    WithLengthRegroups(head, y, v);
    SplitEqual(head, head, Be16(|x|) + (x + u), Be16(|y|) + (y + v));
    SplitEqual(Be16(|x|), Be16(|y|), x + u, y + v);
    Be16Injective(|x|, |y|);
    SplitEqual(x, y, u, v);
  }

  lemma WiresArePrefixed(rrset: seq<Record>, ttl: u32)
    requires rrset != [] && IsRRset(rrset)
    ensures Wires(rrset, ttl) == Prefixed(RecordHead(rrset[0], ttl), RDatas(rrset))
  {
    hide CanonicalName, CanonicalRData, WithLength;
    forall i | 0 <= i < |rrset| ensures RecordHead(rrset[i], ttl) == RecordHead(rrset[0], ttl) {
      assert CanonicalName(rrset[i].name) == CanonicalName(rrset[0].name);
    }
  }

  /**
   * The code signs over the octets section 6.3 asks for exactly when no shorter RDATA of the RRset
   * sorts after a longer one; in particular whenever all RDATA have the same length.
   */
  lemma CanonicalOrderIff(rrsig: Record, rrset: seq<Record>)
    requires rrsig.parsed.Some? && rrsig.parsed.value.RRSIG? && IsRRset(rrset)
    ensures SignedData(rrsig, rrset) == RfcSignedData(rrsig.parsed.value, rrset) <==> LengthMonotone(RDatas(rrset))
  {
    var sig := rrsig.parsed.value;
    var ttl := sig.originalTtl;
    if rrset == [] {
      assert Wires(rrset, ttl) == [];
      assert SignatureHead(sig) + [] == SignatureHead(sig);
    } else {
      var head, rds := RecordHead(rrset[0], ttl), RDatas(rrset);
      hide RecordHead, RDatas, SignatureHead, Sort, Concat, Prefixed, LengthMonotone, Short;
      WiresArePrefixed(rrset, ttl);
      SortCommutesIff(head, rds);
      SameConcat(head, rds);
      var a, b := Concat(Sort(Prefixed(head, rds))), Concat(Prefixed(head, Sort(rds)));
      assert SignatureHead(sig) + a == SignatureHead(sig) + b ==> a == b by {
        assert (SignatureHead(sig) + a)[|SignatureHead(sig)|..] == a
            && (SignatureHead(sig) + b)[|SignatureHead(sig)|..] == b;
      }
    }
  }

  /** Sorted wire forms are wire forms again. */
  lemma {:induction false} SortedIsPrefixed(head: bytes, ws: seq<bytes>, rdatas: seq<bytes>) returns (perm: seq<bytes>)
    requires multiset(ws) == multiset(Prefixed(head, rdatas)) && Short(rdatas)
    ensures |perm| == |ws| && ws == Prefixed(head, perm) && Short(perm)
    decreases |ws|
  {
    hide WithLength;
    var p := Prefixed(head, rdatas);
    assert |ws| == |multiset(ws)| == |multiset(p)| == |p|;
    perm := [];
    for k := 0 to |ws|
      invariant |perm| == k && Short(perm) && forall i :: 0 <= i < k ==> ws[i] == head + WithLength(perm[i])
    {
      assert ws[k] in multiset(ws);
      assert ws[k] in p;
      var j :| 0 <= j < |p| && p[j] == ws[k];
      perm := perm + [rdatas[j]];
    }
  }

  lemma SameConcat(head: bytes, rdatas: seq<bytes>)
    requires Short(rdatas)
    ensures Concat(Sort(Prefixed(head, rdatas))) == Concat(Prefixed(head, Sort(rdatas))) ==>
              Sort(Prefixed(head, rdatas)) == Prefixed(head, Sort(rdatas))
  {
    if Concat(Sort(Prefixed(head, rdatas))) == Concat(Prefixed(head, Sort(rdatas))) {
      hide Sort, Concat, WithLength;
      SortSorts(rdatas);
      SortSorts(Prefixed(head, rdatas));
      ShortSame(rdatas, Sort(rdatas));
      var perm := SortedIsPrefixed(head, Sort(Prefixed(head, rdatas)), rdatas);
      assert |perm| == |multiset(Sort(Prefixed(head, rdatas)))| == |multiset(rdatas)| == |Sort(rdatas)|;
      ConcatInjective(head, perm, Sort(rdatas));
    }
  }

  lemma EqualLengthsCanonical(rrsig: Record, rrset: seq<Record>)
    requires rrsig.parsed.Some? && rrsig.parsed.value.RRSIG? && IsRRset(rrset)
    requires forall i, j :: 0 <= i < |rrset| && 0 <= j < |rrset| ==> |RDatas(rrset)[i]| == |RDatas(rrset)[j]|
    ensures SignedData(rrsig, rrset) == RfcSignedData(rrsig.parsed.value, rrset)
  {
    hide SignedData, RfcSignedData;
    CanonicalOrderIff(rrsig, rrset);
  }

  function MailRecord(preference: u16, exchange: bytes): Record {
    RecordOf([0], 15, 0, MX(preference, exchange))
  }

  /** Preference 20 with the exchange `a.`, preference 10 with the exchange `ab.`. */
  function MailRecords(): seq<Record> { [MailRecord(20, [1, 97, 0]), MailRecord(10, [2, 97, 98, 0])] }

  const MX_20: bytes := [0, 20, 1, 97, 0]
  const MX_10: bytes := [0, 10, 2, 97, 98, 0]

  lemma MailRDatas()
    ensures RDatas(MailRecords()) == [MX_20, MX_10]
  {
    hide CanonicalName;
    CanonicalOne([97]);
    CanonicalOne([97, 98]);
    assert [1] + [97] + [0] == [1, 97, 0] && [2] + [97, 98] + [0] == [2, 97, 98, 0];
    assert Be16(20) + [1, 97, 0] == MX_20 && Be16(10) + [2, 97, 98, 0] == MX_10;
  }

  lemma MailNotMonotone()
    ensures !LengthMonotone([MX_20, MX_10])
  {
    var rds := [MX_20, MX_10];
    assert MX_20[1..] == [20, 1, 97, 0] && MX_10[1..] == [10, 2, 97, 98, 0];
    assert CompareOctets(MX_20, MX_10) == Greater;
    assert |rds[0]| < |rds[1]|;
  }

  /** In wire form the shorter 20 sorts before the longer 10, so the octets signed are not those of section 6.3. */
  lemma LengthFirstIsNotCanonical(rrsig: Record)
    requires rrsig.parsed.Some? && rrsig.parsed.value.RRSIG?
    ensures IsRRset(MailRecords())
    ensures SignedData(rrsig, MailRecords()) != RfcSignedData(rrsig.parsed.value, MailRecords())
  {
    hide SignedData, RfcSignedData, CanonicalName, RDatas, LengthMonotone;
    MailRDatas();
    MailNotMonotone();
    CanonicalOrderIff(rrsig, MailRecords());
  }
}
