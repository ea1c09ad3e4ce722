/** The base32hex decoder of src/dnssec/mod.rs against section 7 of RFC 4648. */
module Base32Hex {
  import opened Bytes

  const EQUALS: byte := 61

  /** The lookup table: digits, then A-V in either case. */
  function Lut(ch: byte): Option<nat> {
    if 48 <= ch <= 57 then Some(ch as int - 48)
    else if 65 <= ch <= 86 then Some(ch as int - 55)
    else if 97 <= ch <= 118 then Some(ch as int - 87)
    else None
  }

  function Alphabet(d: nat): byte
    requires d < 32
  {
    if d < 10 then 48 + d else 55 + d
  }

  /** A character has the value of the alphabet's character it equals up to case. */
  lemma LutIff(ch: byte, d: nat)
    ensures Lut(ch) == Some(d) <==> d < 32 && LowerByte(ch) == LowerByte(Alphabet(d))
  {
  }

  // --- Values of digit strings ---

  function Pow2(n: nat): (p: nat)
    ensures p >= 1
  {
    if n == 0 then 1 else 2 * Pow2(n - 1)
  }

  /** Characters before the first '='. */
  function Payload(s: bytes): bytes {
    if s == [] || s[0] == EQUALS then [] else [s[0]] + Payload(s[1..])
  }

  predicate AllDigits(s: bytes) { forall i :: 0 <= i < |s| ==> Lut(s[i]).Some? }

  /** A string of digits as a base-32 number. */
  function Value32(s: bytes): nat
    requires AllDigits(s)
  {
    if s == [] then 0 else Value32(s[..|s| - 1]) * 32 + Lut(s[|s| - 1]).value
  }

  /** Octets as a base-256 number. */
  function Value256(s: bytes): nat {
    if s == [] then 0 else Value256(s[..|s| - 1]) * 256 + s[|s| - 1] as int
  }

  lemma {:induction false} Pow2Add(a: nat, b: nat)
    ensures Pow2(a + b) == Pow2(a) * Pow2(b)
  {
    if a > 0 {
      Pow2Add(a - 1, b);
      assert 2 * (Pow2(a - 1) * Pow2(b)) == (2 * Pow2(a - 1)) * Pow2(b);
    }
  }

  lemma PowersNeeded()
    ensures Pow2(5) == 32 && Pow2(8) == 256
  {
    assert Pow2(2) == 4;
    assert Pow2(4) == 16;
    assert Pow2(6) == 64;
  }

  lemma ValueSnoc(s: bytes, b: byte)
    ensures Value256(s + [b]) == Value256(s) * 256 + b as int
  {
    assert (s + [b])[..|s|] == s;
  }

  // --- The decoder ---

  /** The loop variables: `bits` holds the `count` bits not yet written. */
  datatype Acc = Acc(bits: nat, count: nat, output: bytes)

  predicate Settled(a: Acc) { a.count < 8 && a.bits < Pow2(a.count) }

  function TopOctet(bits: nat, n: nat): byte
    requires bits < Pow2(n + 8)
  {
    EmitOctet(0, bits, n);
    bits / Pow2(n)
  }

  /** One more digit; at eight bits or more the top octet moves to the output. */
  function Feed(a: Acc, val: nat): Acc
    requires Settled(a) && val < 32
  {
    var bits, count := a.bits * 32 + val, a.count + 5;
    if count >= 8 then
      ShiftBound(a.bits, a.count, val);
      Acc(bits % Pow2(count - 8), count - 8, a.output + [TopOctet(bits, count - 8)])
    else
      Acc(bits, count, a.output)
  }

  lemma FeedSettled(a: Acc, val: nat)
    requires Settled(a) && val < 32
    ensures Settled(Feed(a, val))
  {
    ShiftBound(a.bits, a.count, val);
  }

  function FeedAll(a: Acc, s: bytes): Option<Acc>
    requires Settled(a)
    decreases |s|
  {
    if s == [] || s[0] == EQUALS then Some(a)
    else match Lut(s[0])
      case None => None
      case Some(val) => FeedSettled(a, val); FeedAll(Feed(a, val), s[1..])
  }

  function Decode(input: bytes): Option<bytes> {
    match FeedAll(Acc(0, 0, []), input)
    case None => None
    case Some(a) => Some(a.output)
  }

  method Base32HexDecode(input: bytes) returns (r: Option<bytes>)
    ensures r == Decode(input)
  {
    hide Lut;
    var acc := Acc(0, 0, []);
    assert input[0..] == input;
    for i := 0 to |input|
      invariant Settled(acc) && FeedAll(acc, input[i..]) == FeedAll(Acc(0, 0, []), input)
    {
      var ch := input[i];
      assert input[i..][1..] == input[i + 1..];
      if ch == EQUALS { return Some(acc.output); }
      var val := Lut(ch);
      if val.None? { return None; }
      assert val.value < 32 by { LutBound(ch); }
      FeedSettled(acc, val.value);
      acc := Feed(acc, val.value);
    }
    return Some(acc.output);
  }

  lemma LutBound(ch: byte)
    requires Lut(ch).Some?
    ensures Lut(ch).value < 32
  {
  }

  function Total(a: Acc): nat { Value256(a.output) * Pow2(a.count) + a.bits }

  /** The digits read so far have the value of the output followed by the pending bits. */
  predicate Accounts(a: Acc, seen: bytes) {
    && Settled(a) && AllDigits(seen) && 5 * |seen| == 8 * |a.output| + a.count
    && Value32(seen) == Total(a)
  }

  lemma Rescale(out: nat, p: nat, b: nat, v: nat)
    ensures (out * p + b) * 32 + v == out * (p * 32) + (b * 32 + v)
  {
  }

  lemma Value32Snoc(seen: bytes, ch: byte)
    requires AllDigits(seen) && Lut(ch).Some?
    ensures AllDigits(seen + [ch]) && Value32(seen + [ch]) == Value32(seen) * 32 + Lut(ch).value
  {
    hide Lut;
    assert (seen + [ch])[..|seen|] == seen;
  }

  lemma ValueGrows(seen: bytes, ch: byte, out: nat, n: nat, b: nat)
    requires AllDigits(seen) && Lut(ch).Some? && Value32(seen) == out * Pow2(n) + b
    ensures AllDigits(seen + [ch]) && Value32(seen + [ch]) == out * Pow2(n + 5) + (b * 32 + Lut(ch).value)
  {
    hide Pow2, Lut, Value32, AllDigits;
    Value32Snoc(seen, ch);
    Pow2Add(n, 5);
    PowersNeeded();
    Rescale(out, Pow2(n), b, Lut(ch).value);
  }

  lemma FeedTotal(a: Acc, val: nat)
    requires Settled(a) && val < 32
    ensures var f := Feed(a, val);
            && 8 * |f.output| + f.count == 8 * |a.output| + a.count + 5
            && Total(f) == Value256(a.output) * Pow2(a.count + 5) + (a.bits * 32 + val)
  {
    hide Pow2, Value256;
    ShiftBound(a.bits, a.count, val);
    var bits, count := a.bits * 32 + val, a.count + 5;
    if count >= 8 {
      var n, out := count - 8, Value256(a.output);
      EmitOctet(out, bits, n);
      ValueSnoc(a.output, bits / Pow2(n));
      assert Feed(a, val) == Acc(bits % Pow2(n), n, a.output + [bits / Pow2(n)]);
      hide Feed, TopOctet;
    }
  }

  lemma FeedAccounts(a: Acc, seen: bytes, ch: byte)
    requires Accounts(a, seen) && Lut(ch).Some?
    ensures Lut(ch).value < 32 && Accounts(Feed(a, Lut(ch).value), seen + [ch])
  {
    hide Pow2, Lut, Value32, Value256, AllDigits, Feed;
    LutBound(ch);
    ValueGrows(seen, ch, Value256(a.output), a.count, a.bits);
    FeedSettled(a, Lut(ch).value);
    FeedTotal(a, Lut(ch).value);
  }

  /**
   * Decoding fails exactly when a character before the first '=' is no digit; otherwise the value of
   * the digits is the value of the output followed by fewer than eight left-over bits.
   */
  lemma {:induction false} FeedAllAccounts(a: Acc, seen: bytes, s: bytes)
    requires Accounts(a, seen)
    ensures FeedAll(a, s).Some? <==> AllDigits(Payload(s))
    ensures FeedAll(a, s).Some? ==> Accounts(FeedAll(a, s).value, seen + Payload(s))
    decreases |s|
  {
    hide Lut, Feed, Accounts;
    assert Settled(a) by { AccountsSettled(a, seen); }
    if s == [] || s[0] == EQUALS {
      assert seen + [] == seen;
    } else if Lut(s[0]).None? {
      assert Payload(s)[0] == s[0];
    } else {
      LutBound(s[0]);
      FeedAccounts(a, seen, s[0]);
      FeedSettled(a, Lut(s[0]).value);
      FeedAllAccounts(Feed(a, Lut(s[0]).value), seen + [s[0]], s[1..]);
      assert seen + Payload(s) == seen + [s[0]] + Payload(s[1..]);
      var p := Payload(s[1..]);
      assert Payload(s) == [s[0]] + p;
      assert AllDigits(Payload(s)) ==> AllDigits(p) by {
        if AllDigits(Payload(s)) {
          forall i | 0 <= i < |p| ensures Lut(p[i]).Some? { assert Payload(s)[i + 1] == p[i]; }
        }
      }
    }
  }

  lemma AccountsSettled(a: Acc, seen: bytes)
    requires Accounts(a, seen)
    ensures Settled(a)
  {
  }

  lemma ShiftBound(b: nat, n: nat, val: nat)
    requires b < Pow2(n) && val < 32
    ensures b * 32 + val < Pow2(n + 5)
  {
    Pow2Add(n, 5);
    PowersNeeded();
  }

  lemma SplitTop(out: nat, bits: nat, p: nat)
    requires p > 0 && bits < p * 256
    ensures bits / p < 256 && bits % p < p
    ensures out * (p * 256) + bits == (out * 256 + bits / p) * p + bits % p
  {
    var q, r := bits / p, bits % p;
    assert bits == q * p + r;
    assert q < 256 by { if q >= 256 { MulMono(256, q, p); } }
    assert (out * 256 + q) * p == out * (p * 256) + q * p;
  }

  /** Taking the top octet off `n + 8` bits. */
  lemma EmitOctet(out: nat, bits: nat, n: nat)
    requires bits < Pow2(n + 8)
    ensures bits / Pow2(n) < 256 && bits % Pow2(n) < Pow2(n)
    ensures out * Pow2(n + 8) + bits == (out * 256 + bits / Pow2(n)) * Pow2(n) + bits % Pow2(n)
  {
    Pow2Add(n, 8);
    PowersNeeded();
    hide Pow2;
    SplitTop(out, bits, Pow2(n));
  }

  lemma MulMono(a: nat, b: nat, p: nat)
    requires a <= b
    ensures a * p <= b * p
  {
  }

  // --- The unpadded encoder of section 7 of RFC 4648, and the inverse law ---

  /** The `m` base-32 digits of `v`, most significant first. */
  function Digits(v: nat, m: nat): (s: bytes)
    ensures |s| == m
  {
    if m == 0 then [] else Digits(v / 32, m - 1) + [Alphabet(v % 32)]
  }

  /** Bits left to right in groups of five, the last group filled up with zero bits. */
  function EncodeBase32(data: bytes): bytes {
    var m := (8 * |data| + 4) / 5;
    Digits(Value256(data) * Pow2(5 * m - 8 * |data|), m)
  }

  lemma {:induction false} DigitsValue(v: nat, m: nat)
    requires v < Pow2(5 * m)
    ensures AllDigits(Digits(v, m)) && Payload(Digits(v, m)) == Digits(v, m) && Value32(Digits(v, m)) == v
  {
    hide Pow2, Value32, AllDigits, Payload;
    if m == 0 {
      NoDigits();
      PowZero();
    } else {
      Pow2Add(5 * (m - 1), 5);
      assert 5 * (m - 1) + 5 == 5 * m;
      PowersNeeded();
      DigitsValue(v / 32, m - 1);
      var s, d := Digits(v / 32, m - 1), Alphabet(v % 32);
      assert Lut(d) == Some(v % 32);
      hide Lut, Alphabet;
      Value32Snoc(s, d);
    }
    PayloadAll(Digits(v, m));
  }

  lemma NoDigits()
    ensures AllDigits([]) && Value32([]) == 0
  {
  }

  lemma PowZero()
    ensures Pow2(0) == 1
  {
  }

  lemma {:induction false} PayloadAll(s: bytes)
    requires AllDigits(s)
    ensures Payload(s) == s
  {
    if s != [] { PayloadAll(s[1..]); }
  }

  lemma {:induction false} Value256Bound(s: bytes)
    ensures Value256(s) < Pow2(8 * |s|)
  {
    if s != [] {
      Value256Bound(s[..|s| - 1]);
      Pow2Add(8 * (|s| - 1), 8);
      PowersNeeded();
    }
  }

  lemma {:induction false} Value256Injective(a: bytes, b: bytes)
    requires |a| == |b| && Value256(a) == Value256(b)
    ensures a == b
  {
    if a != [] {
      var n := |a| - 1;
      Value256Injective(a[..n], b[..n]);
      assert a == a[..n] + [a[n]] && b == b[..n] + [b[n]];
    }
  }

  lemma DivisionUnique(a: nat, b: nat, p: nat, r: nat)
    requires p > 0 && r < p && a * p == b * p + r
    ensures a == b
  {
    if a > b { MulMono(b + 1, a, p); }
    if a < b { MulMono(a + 1, b, p); }
  }

  /** Decoding inverts the encoder on every octet string. */
  lemma DecodeEncode(data: bytes)
    ensures Decode(EncodeBase32(data)) == Some(data)
  {
    hide EncodeBase32, Value256, Value32, Payload, AllDigits, FeedAll;
    var m := (8 * |data| + 4) / 5;
    var pad := 5 * m - 8 * |data|;
    var v := Value256(data);
    EncodedValue(data, m, pad);
    var start := Acc(0, 0, []);
    StartAccounts();
    FeedAllAccounts(start, [], EncodeBase32(data));
    assert [] + EncodeBase32(data) == EncodeBase32(data);
    var a := FeedAll(start, EncodeBase32(data)).value;
    hide Pow2;
    assert a.count == pad && |a.output| == |data|;
    DivisionUnique(v, Value256(a.output), Pow2(pad), a.bits);
    Value256Injective(a.output, data);
  }

  lemma StartAccounts()
    ensures Accounts(Acc(0, 0, []), [])
  {
  }

  lemma ScaleBound(v: nat, p: nat, q: nat)
    requires v < p && q > 0
    ensures v * q < p * q
  {
  }

  lemma EncodedValue(data: bytes, m: nat, pad: nat)
    requires m == (8 * |data| + 4) / 5 && pad == 5 * m - 8 * |data|
    ensures var s := EncodeBase32(data);
            |s| == m && AllDigits(s) && Payload(s) == s && Value32(s) == Value256(data) * Pow2(pad)
  {
    hide Pow2, Value256, Value32, Digits, AllDigits, Payload;
    Value256Bound(data);
    Pow2Add(8 * |data|, pad);
    ScaleBound(Value256(data), Pow2(8 * |data|), Pow2(pad));
    DigitsValue(Value256(data) * Pow2(pad), m);
  }
}
