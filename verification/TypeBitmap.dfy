/** NSEC type bitmaps: `type_bitmap_contains` of src/dnssec/mod.rs and section 4.1.2 of RFC 4034. */
module TypeBitmap {
  import opened Bytes

  // --- Reading ---

  function PowerOfTwo(k: nat): nat
    requires k < 8
  {
    [1, 2, 4, 8, 16, 32, 64, 128][k]
  }

  /** `octet & (0x80 >> k) != 0`. */
  predicate BitAt(octet: byte, k: nat)
    requires k < 8
  {
    octet as int / PowerOfTwo(7 - k) % 2 == 1
  }

  /** What the scan decides about octet `off`, bit `k` of window `w`. */
  predicate Scan(bitmap: bytes, w: nat, off: nat, k: nat)
    requires k < 8
    decreases |bitmap|
  {
    |bitmap| >= 2 &&
    var len := bitmap[1] as int;
    2 + len <= |bitmap| &&
    if bitmap[0] == w && off < len then BitAt(bitmap[2 + off], k) else Scan(bitmap[2 + len..], w, off, k)
  }

  predicate Contains(bitmap: bytes, qtype: u16) {
    Scan(bitmap, qtype / 256, qtype % 256 / 8, qtype % 8)
  }

  method TypeBitmapContains(bitmap: bytes, qtype: u16) returns (found: bool)
    ensures found == Contains(bitmap, qtype)
  {
    hide BitAt;
    var targetWindow, targetBit: int := qtype / 256, qtype % 256;
    var byteOffset, bit := targetBit / 8, targetBit % 8;
    var pos := 0;
    assert bitmap[0..] == bitmap;
    while pos + 2 <= |bitmap|
      invariant 0 <= pos <= |bitmap|
      invariant Contains(bitmap, qtype) == Scan(bitmap[pos..], targetWindow, byteOffset, bit)
      decreases |bitmap| - pos
    {
      var window, len := bitmap[pos], bitmap[pos + 1] as int;
      ghost var rest := bitmap[pos..];
      assert rest[0] == window && rest[1] == len;
      if pos + 2 + len > |bitmap| { break; }
      if window == targetWindow && byteOffset < len {
        assert rest[2 + byteOffset] == bitmap[pos + 2 + byteOffset];
        return BitAt(bitmap[pos + 2 + byteOffset], bit);
      }
      assert rest[2 + len..] == bitmap[pos + 2 + len..];
      pos := pos + 2 + len;
    }
    return false;
  }

  // --- Writing (section 4.1.2 of RFC 4034) ---

  function TypeAt(w: nat, off: nat, k: nat): u16
    requires w < 256 && off < 32 && k < 8
  {
    w * 256 + off * 8 + k
  }

  function Bit(b: bool): nat { if b then 1 else 0 }

  /** One octet: bit 0 is the most significant. */
  function Octet(types: set<u16>, w: nat, off: nat): byte
    requires w < 256 && off < 32
  {
    Bit(TypeAt(w, off, 0) in types) * 128 + Bit(TypeAt(w, off, 1) in types) * 64
    + Bit(TypeAt(w, off, 2) in types) * 32 + Bit(TypeAt(w, off, 3) in types) * 16
    + Bit(TypeAt(w, off, 4) in types) * 8 + Bit(TypeAt(w, off, 5) in types) * 4
    + Bit(TypeAt(w, off, 6) in types) * 2 + Bit(TypeAt(w, off, 7) in types)
  }

  /** Number of octets of window `w` once trailing zero octets are dropped, looking below `n`. */
  function BlockLen(types: set<u16>, w: nat, n: nat): (len: nat)
    requires w < 256 && n <= 32
    ensures len <= n
  {
    if n == 0 then 0 else if Octet(types, w, n - 1) != 0 then n else BlockLen(types, w, n - 1)
  }

  /** Window number, length and octets; windows without types are omitted. */
  function Block(types: set<u16>, w: nat): bytes
    requires w < 256
  {
    var n := BlockLen(types, w, 32);
    if n == 0 then [] else [w, n] + seq(n, off requires 0 <= off < n => Octet(types, w, off))
  }

  function BlocksFrom(types: set<u16>, w: nat): bytes
    requires w <= 256
    decreases 256 - w
  {
    if w == 256 then [] else Block(types, w) + BlocksFrom(types, w + 1)
  }

  function EncodeTypes(types: set<u16>): bytes { BlocksFrom(types, 0) }

  // --- Membership ---

  /** Cutting an octet at each bit, in linear arithmetic. */
  lemma Quotients(v: nat, a: nat, b: nat, c: nat, d: nat, e: nat, f: nat, g: nat, h: nat)
    requires a <= 1 && b <= 1 && c <= 1 && d <= 1 && e <= 1 && f <= 1 && g <= 1 && h <= 1
    requires v == a * 128 + b * 64 + c * 32 + d * 16 + e * 8 + f * 4 + g * 2 + h
    ensures v / 128 == a && v / 64 == 2 * a + b && v / 32 == 2 * (2 * a + b) + c
    ensures v / 16 == 2 * (v / 32) + d && v / 8 == 2 * (v / 16) + e && v / 4 == 2 * (v / 8) + f
    ensures v / 2 == 2 * (v / 4) + g && v == 2 * (v / 2) + h
  {
  }

  lemma BitByQuotient(v: byte, k: nat, q: nat, bit: nat)
    requires k < 8 && bit <= 1 && v as int / PowerOfTwo(7 - k) == 2 * q + bit
    ensures BitAt(v, k) == (bit == 1)
  {
    hide PowerOfTwo;
  }

  lemma BitsOf(v: byte, a: nat, b: nat, c: nat, d: nat, e: nat, f: nat, g: nat, h: nat)
    requires a <= 1 && b <= 1 && c <= 1 && d <= 1 && e <= 1 && f <= 1 && g <= 1 && h <= 1
    requires v as int == a * 128 + b * 64 + c * 32 + d * 16 + e * 8 + f * 4 + g * 2 + h
    ensures BitAt(v, 0) == (a == 1) && BitAt(v, 1) == (b == 1) && BitAt(v, 2) == (c == 1) && BitAt(v, 3) == (d == 1)
    ensures BitAt(v, 4) == (e == 1) && BitAt(v, 5) == (f == 1) && BitAt(v, 6) == (g == 1) && BitAt(v, 7) == (h == 1)
  {
    hide BitAt;
    var n := v as int;
    Quotients(n, a, b, c, d, e, f, g, h);
    BitByQuotient(v, 0, 0, a);
    BitByQuotient(v, 1, a, b);
    BitByQuotient(v, 2, n / 64, c);
    BitByQuotient(v, 3, n / 32, d);
    BitByQuotient(v, 4, n / 16, e);
    BitByQuotient(v, 5, n / 8, f);
    BitByQuotient(v, 6, n / 4, g);
    BitByQuotient(v, 7, n / 2, h);
  }

  lemma OctetBits(types: set<u16>, w: nat, off: nat, k: nat)
    requires w < 256 && off < 32 && k < 8
    ensures BitAt(Octet(types, w, off), k) <==> TypeAt(w, off, k) in types
    ensures Octet(types, w, off) == 0 ==> TypeAt(w, off, k) !in types
  {
    hide TypeAt;
    BitsOf(Octet(types, w, off),
           Bit(TypeAt(w, off, 0) in types), Bit(TypeAt(w, off, 1) in types), Bit(TypeAt(w, off, 2) in types),
           Bit(TypeAt(w, off, 3) in types), Bit(TypeAt(w, off, 4) in types), Bit(TypeAt(w, off, 5) in types),
           Bit(TypeAt(w, off, 6) in types), Bit(TypeAt(w, off, 7) in types));
    hide Octet;
    if k == 0 {} else if k == 1 {} else if k == 2 {} else if k == 3 {}
    else if k == 4 {} else if k == 5 {} else if k == 6 {} else { assert k == 7; }
    ZeroOctet(k);
  }

  lemma ZeroOctet(k: nat)
    requires k < 8
    ensures !BitAt(0, k)
  {
  }

  lemma {:induction false} BeyondBlock(types: set<u16>, w: nat, n: nat, off: nat)
    requires w < 256 && n <= 32 && BlockLen(types, w, n) <= off < n
    ensures Octet(types, w, off) == 0
  {
    if off < n - 1 { BeyondBlock(types, w, n - 1, off); }
  }

  /** Scanning past a whole block, for another window or an octet it leaves out. */
  lemma SkipBlock(types: set<u16>, v: nat, rest: bytes, w: nat, off: nat, k: nat)
    requires v < 256 && k < 8 && (v != w || off >= BlockLen(types, v, 32))
    ensures Scan(Block(types, v) + rest, w, off, k) == Scan(rest, w, off, k)
  {
    hide BitAt, Octet;
    var n := BlockLen(types, v, 32);
    var all := Block(types, v) + rest;
    if n > 0 {
      assert all[0] == v && all[1] == n && all[2 + n..] == rest;
    } else {
      assert all == rest;
    }
  }

  lemma HitBlock(types: set<u16>, w: nat, rest: bytes, off: nat, k: nat)
    requires w < 256 && off < BlockLen(types, w, 32) && k < 8
    ensures Scan(Block(types, w) + rest, w, off, k) == BitAt(Octet(types, w, off), k)
  {
    hide BitAt, Octet;
    var n := BlockLen(types, w, 32);
    var all := Block(types, w) + rest;
    assert all[0] == w && all[1] == n && all[2 + off] == Block(types, w)[2 + off];
  }

  lemma {:induction false} ScanBlocks(types: set<u16>, v: nat, w: nat, off: nat, k: nat)
    requires v <= 256 && w < 256 && off < 32 && k < 8
    ensures Scan(BlocksFrom(types, v), w, off, k) <==> v <= w && TypeAt(w, off, k) in types
    decreases 256 - v
  {
    hide Scan, Block, Octet, BlockLen, TypeAt;
    if v == 256 {
      assert BlocksFrom(types, v) == [];
      ScanNil(w, off, k);
    } else {
      var rest := BlocksFrom(types, v + 1);
      ScanBlocks(types, v + 1, w, off, k);
      if v == w && off < BlockLen(types, w, 32) {
        HitBlock(types, w, rest, off, k);
        OctetBits(types, w, off, k);
      } else {
        SkipBlock(types, v, rest, w, off, k);
        if v == w {
          BeyondBlock(types, w, 32, off);
          OctetBits(types, w, off, k);
        }
      }
    }
  }

  lemma ScanNil(w: nat, off: nat, k: nat)
    requires k < 8
    ensures !Scan([], w, off, k)
  {
  }

  /** Reading back an encoded type set is exactly membership. */
  lemma ContainsIffMember(types: set<u16>, qtype: u16)
    ensures Contains(EncodeTypes(types), qtype) <==> qtype in types
  {
    var w, off, k := qtype / 256, qtype % 256 / 8, qtype % 8;
    assert TypeAt(w, off, k) == qtype;
    ScanBlocks(types, 0, w, off, k);
  }
}
