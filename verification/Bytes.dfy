/** Octets, fixed-width integers in network order, ASCII case and UTF-8. */
module Bytes {

  type byte = x: int | 0 <= x < 0x100
  type u16 = x: int | 0 <= x < 0x1_0000
  type u32 = x: int | 0 <= x < 0x1_0000_0000

  /** Wire data, and also Rust text: a `str` is the sequence of its UTF-8 octets. */
  type bytes = seq<byte>

  datatype Option<+T> = None | Some(value: T)

  lemma Regroup<T>(a: seq<T>, b: seq<T>, c: seq<T>)
    ensures a + (b + c) == (a + b) + c
  {
  }

  // --- Network byte order ---

  function Be16(v: u16): (s: bytes)
    ensures |s| == 2 && Rd16(s, 0) == v
  {
    [v / 0x100, v % 0x100]
  }

  function Be32(v: u32): (s: bytes)
    ensures |s| == 4 && Rd32(s, 0) == v
  {
    Be16(v / 0x1_0000) + Be16(v % 0x1_0000)
  }

  function Rd16(s: bytes, i: nat): u16
    requires i + 2 <= |s|
  {
    s[i] as int * 0x100 + s[i + 1]
  }

  function Rd32(s: bytes, i: nat): u32
    requires i + 4 <= |s|
  {
    s[i] as int * 0x100_0000 + s[i + 1] as int * 0x1_0000 + s[i + 2] as int * 0x100 + s[i + 3]
  }

  // --- ASCII case ---

  predicate IsUpper(b: byte) { 65 <= b <= 90 }

  predicate IsAlphabetic(b: byte) { 65 <= b <= 90 || 97 <= b <= 122 }

  function LowerByte(b: byte): byte {
    if IsUpper(b) then b + 32 else b
  }

  /** `to_ascii_lowercase` on every octet. */
  function Lower(s: bytes): (r: bytes)
    ensures |r| == |s|
    ensures forall i :: 0 <= i < |s| ==> r[i] == LowerByte(s[i])
  {
    seq(|s|, i requires 0 <= i < |s| => LowerByte(s[i]))
  }

  /** `eq_ignore_ascii_case`. */
  predicate EqIgnoreCase(a: bytes, b: bytes) { Lower(a) == Lower(b) }

  lemma LowerConcat(a: bytes, b: bytes)
    ensures Lower(a + b) == Lower(a) + Lower(b)
  {
  }

  lemma LowerCons(x: byte, s: bytes)
    ensures Lower([x] + s) == [LowerByte(x)] + Lower(s)
  {
  }

  lemma LowerIdempotent(a: bytes)
    ensures Lower(Lower(a)) == Lower(a)
  {
  }

  // --- UTF-8 (the table `std::str::from_utf8` follows) ---

  predicate Cont(b: byte) { 0x80 <= b <= 0xBF }

  /** Length of the well-formed code unit sequence that starts `s`, 0 when there is none. */
  function CharLen(s: bytes): (n: nat)
    ensures n <= |s|
  {
    if s == [] then 0
    else if s[0] < 0x80 then 1
    else if |s| >= 2 && 0xC2 <= s[0] <= 0xDF && Cont(s[1]) then 2
    else if |s| >= 3 && 0xE0 <= s[0] <= 0xEF && Cont(s[1]) && Cont(s[2])
            && (s[0] == 0xE0 ==> 0xA0 <= s[1]) && (s[0] == 0xED ==> s[1] <= 0x9F) then 3
    else if |s| >= 4 && 0xF0 <= s[0] <= 0xF4 && Cont(s[1]) && Cont(s[2]) && Cont(s[3])
            && (s[0] == 0xF0 ==> 0x90 <= s[1]) && (s[0] == 0xF4 ==> s[1] <= 0x8F) then 4
    else 0
  }

  predicate Utf8Valid(s: bytes) {
    s == [] || (CharLen(s) > 0 && Utf8Valid(s[CharLen(s)..]))
  }

  /** ASCII case changes never affect UTF-8 validity. */
  lemma {:induction false} Utf8Lower(s: bytes)
    ensures Utf8Valid(Lower(s)) == Utf8Valid(s)
    decreases |s|
  {
    if s != [] {
      var n := CharLen(s);
      assert CharLen(Lower(s)) == n;
      assert Lower(s)[n..] == Lower(s[n..]);
      if n > 0 { Utf8Lower(s[n..]); }
    }
  }

  /** An ASCII octet always separates characters, so validity distributes over it. */
  lemma {:induction false} Utf8SplitAtAscii(a: bytes, c: byte, b: bytes)
    requires c < 0x80
    ensures Utf8Valid(a + [c] + b) == (Utf8Valid(a) && Utf8Valid(b))
    decreases |a|
  {
    var s := a + [c] + b;
    if a == [] {
      assert s[1..] == b;
    } else {
      var n := CharLen(a);
      assert CharLen(s) == n;
      if n > 0 {
        assert s[n..] == a[n..] + [c] + b;
        Utf8SplitAtAscii(a[n..], c, b);
      }
    }
  }
}
