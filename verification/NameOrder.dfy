/** Canonical name order of src/dnssec/mod.rs and section 6.1 of RFC 4034. */
module NameOrder {
  import opened Bytes
  import opened Names
  import opened NameText

  datatype Ordering = Less | Equal | Greater

  function CompareInts(a: int, b: int): Ordering {
    if a < b then Less else if a == b then Equal else Greater
  }

  // --- Lexicographic comparison, for octets and for labels ---

  /** Comparison of the first differing elements; a proper prefix comes first. */
  function Lex<T>(c: (T, T) -> Ordering, x: seq<T>, y: seq<T>): Ordering {
    if x == [] || y == [] then CompareInts(|x|, |y|)
    else if c(x[0], y[0]) != Equal then c(x[0], y[0])
    else Lex(c, x[1..], y[1..])
  }

  /** A comparison function of a total order. */
  ghost predicate Lawful<T(!new)>(c: (T, T) -> Ordering) {
    && (forall x, y :: c(x, y) == Equal <==> x == y)
    && (forall x, y :: c(x, y) == Less <==> c(y, x) == Greater)
    && (forall x, y, z :: c(x, y) == Less && c(y, z) == Less ==> c(x, z) == Less)
  }

  lemma {:induction false} LexEqual<T(!new)>(c: (T, T) -> Ordering, x: seq<T>, y: seq<T>)
    requires Lawful(c)
    ensures Lex(c, x, y) == Equal <==> x == y
    decreases |x|
  {
    if x != [] && y != [] {
      LexEqual(c, x[1..], y[1..]);
      assert x == [x[0]] + x[1..] && y == [y[0]] + y[1..];
    }
  }

  lemma {:induction false} LexFlip<T(!new)>(c: (T, T) -> Ordering, x: seq<T>, y: seq<T>)
    requires Lawful(c)
    ensures Lex(c, x, y) == Less <==> Lex(c, y, x) == Greater
    decreases |x|
  {
    if x != [] && y != [] {
      assert c(x[0], y[0]) == Less <==> c(y[0], x[0]) == Greater;
      assert c(y[0], x[0]) == Less <==> c(x[0], y[0]) == Greater;
      LexFlip(c, x[1..], y[1..]);
    }
  }

  lemma {:induction false} LexTransitive<T(!new)>(c: (T, T) -> Ordering, x: seq<T>, y: seq<T>, z: seq<T>)
    requires Lawful(c) && Lex(c, x, y) == Less && Lex(c, y, z) == Less
    ensures Lex(c, x, z) == Less
    decreases |x|
  {
    if x != [] && y != [] && z != [] {
      if c(x[0], y[0]) == Equal && c(y[0], z[0]) == Equal {
        LexTransitive(c, x[1..], y[1..], z[1..]);
      }
    }
  }

  const OCTETS: (int, int) -> Ordering := (a, b) => CompareInts(a, b)

  /** Slice order on octet strings, as `sort` and iterator `cmp` use it. */
  function CompareOctets(a: bytes, b: bytes): Ordering { Lex(OCTETS, a, b) }

  // --- canonical_dns_name_order ---

  /** The non-empty pieces between dots. */
  function TextLabels(s: bytes): Labels { NonEmpty(Split(s)) }

  function NonEmpty(parts: seq<bytes>): Labels {
    if parts == [] then []
    else (if parts[0] == [] then [] else [parts[0]]) + NonEmpty(parts[1..])
  }

  function Reverse<T>(s: seq<T>): (r: seq<T>)
    ensures |r| == |s|
  {
    if s == [] then [] else Reverse(s[1..]) + [s[0]]
  }

  /** First phase: labels from the right, compared in lower case, until they differ or one side ends. */
  function ZipOrder(x: Labels, y: Labels): Ordering {
    if x == [] || y == [] then Equal
    else
      var o := CompareOctets(Lower(x[0]), Lower(y[0]));
      if o != Equal then o else ZipOrder(x[1..], y[1..])
  }

  function Compare(a: bytes, b: bytes): Ordering {
    var o := ZipOrder(Reverse(TextLabels(a)), Reverse(TextLabels(b)));
    if o != Equal then o else CompareInts(|TextLabels(a)|, |TextLabels(b)|)
  }

  /** What the order looks at: lower-cased labels from the root down. */
  function Key(s: bytes): Labels { LowerLabels(Reverse(TextLabels(s))) }

  const LABELS: (bytes, bytes) -> Ordering := (a: bytes, b: bytes) => CompareOctets(a, b)

  lemma LabelsLawful()
    ensures Lawful(LABELS)
  {
    hide Lex;
    forall x: bytes, y: bytes
      ensures LABELS(x, y) == Equal <==> x == y
      ensures LABELS(x, y) == Less <==> LABELS(y, x) == Greater
    {
      LexEqual(OCTETS, x, y);
      LexFlip(OCTETS, x, y);
    }
    forall x: bytes, y: bytes, z: bytes | LABELS(x, y) == Less && LABELS(y, z) == Less
      ensures LABELS(x, z) == Less
    {
      LexTransitive(OCTETS, x, y, z);
    }
  }

  lemma {:induction false} ZipVsLex(x: Labels, y: Labels)
    ensures Lex(LABELS, LowerLabels(x), LowerLabels(y))
            == if ZipOrder(x, y) != Equal then ZipOrder(x, y) else CompareInts(|x|, |y|)
    decreases |x|
  {
    if x != [] && y != [] {
      ZipVsLex(x[1..], y[1..]);
      assert LowerLabels(x)[1..] == LowerLabels(x[1..]) && LowerLabels(y)[1..] == LowerLabels(y[1..]);
    }
  }

  /** The two phases of the code are one lexicographic comparison of keys. */
  lemma CompareIsLex(a: bytes, b: bytes)
    ensures Compare(a, b) == Lex(LABELS, Key(a), Key(b))
  {
    ZipVsLex(Reverse(TextLabels(a)), Reverse(TextLabels(b)));
  }

  /** A total order up to ASCII case and empty labels. */
  lemma CompareTotal(a: bytes, b: bytes, c: bytes)
    ensures Compare(a, b) == Equal <==> Key(a) == Key(b)
    ensures Compare(a, b) == Less <==> Compare(b, a) == Greater
    ensures Compare(a, b) == Less && Compare(b, c) == Less ==> Compare(a, c) == Less
    ensures Compare(a, b) == Equal ==> Compare(a, c) == Compare(b, c) && Compare(c, a) == Compare(c, b)
  {
    LabelsLawful();
    CompareIsLex(a, b);
    CompareIsLex(b, a);
    CompareIsLex(b, c);
    CompareIsLex(a, c);
    CompareIsLex(c, a);
    CompareIsLex(c, b);
    LexEqual(LABELS, Key(a), Key(b));
    LexFlip(LABELS, Key(a), Key(b));
    if Compare(a, b) == Less && Compare(b, c) == Less {
      LexTransitive(LABELS, Key(a), Key(b), Key(c));
    }
  }

  /**
   * Section 6.1 of RFC 4034: at the first label, from the root, in which the names differ, the absence
   * of a label sorts first; within it, the first differing octet decides and absence sorts first.
   */
  ghost predicate Precedes(x: Labels, y: Labels) {
    exists k: nat :: k <= |x| && k < |y| && x[..k] == y[..k] && (k == |x| || OctetsPrecede(x[k], y[k]))
  }

  ghost predicate OctetsPrecede(x: bytes, y: bytes) {
    exists k: nat :: k <= |x| && k < |y| && x[..k] == y[..k] && (k == |x| || x[k] < y[k])
  }

  lemma {:induction false} LexWitness<T(!new)>(c: (T, T) -> Ordering, x: seq<T>, y: seq<T>) returns (k: nat)
    requires Lawful(c) && Lex(c, x, y) == Less
    ensures k <= |x| && k < |y| && x[..k] == y[..k] && (k == |x| || c(x[k], y[k]) == Less)
    decreases |x|
  {
    if x == [] || c(x[0], y[0]) != Equal {
      k := 0;
    } else {
      var j := LexWitness(c, x[1..], y[1..]);
      k := j + 1;
      assert x[..k] == [x[0]] + x[1..][..j] && y[..k] == [y[0]] + y[1..][..j];
    }
  }

  lemma {:induction false} WitnessLex<T(!new)>(c: (T, T) -> Ordering, x: seq<T>, y: seq<T>, k: nat)
    requires Lawful(c) && k <= |x| && k < |y| && x[..k] == y[..k] && (k == |x| || c(x[k], y[k]) == Less)
    ensures Lex(c, x, y) == Less
    decreases k
  {
    if k > 0 {
      assert x[..k][0] == y[..k][0];
      assert x[1..][..k - 1] == x[..k][1..] && y[1..][..k - 1] == y[..k][1..];
      WitnessLex(c, x[1..], y[1..], k - 1);
    }
  }

  lemma OctetsPrecedeIff(x: bytes, y: bytes)
    ensures CompareOctets(x, y) == Less <==> OctetsPrecede(x, y)
  {
    if CompareOctets(x, y) == Less {
      var k := LexWitness(OCTETS, x, y);
    }
    if k: nat :| k <= |x| && k < |y| && x[..k] == y[..k] && (k == |x| || x[k] < y[k]) {
      WitnessLex(OCTETS, x, y, k);
    }
  }

  /** The code's order is the RFC's order. */
  lemma CompareIffPrecedes(a: bytes, b: bytes)
    ensures Compare(a, b) == Less <==> Precedes(Key(a), Key(b))
  {
    hide Key, Compare;
    LabelsLawful();
    CompareIsLex(a, b);
    var x, y := Key(a), Key(b);
    if Compare(a, b) == Less {
      var k := LexWitness(LABELS, x, y);
      if k < |x| { OctetsPrecedeIff(x[k], y[k]); }
    }
    if k: nat :| k <= |x| && k < |y| && x[..k] == y[..k] && (k == |x| || OctetsPrecede(x[k], y[k])) {
      if k < |x| { OctetsPrecedeIff(x[k], y[k]); }
      WitnessLex(LABELS, x, y, k);
    }
  }
}
