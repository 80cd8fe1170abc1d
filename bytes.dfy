/**
  Bytes, the big-endian integer layouts of Go's `encoding/binary.BigEndian`,
  and the UTF-8 encoding Go applies when a `string` is converted to `[]byte`.
  A Go string is modelled as a Dafny `string` of Unicode scalar values; its
  Go length `len(s)` is the length of its UTF-8 encoding.
*/
module Bytes {

  type Byte = bv8

  /** Go's `int` on a 64-bit platform: no slice is longer than this. */
  const MaxInt: int := 0x7FFF_FFFF_FFFF_FFFF

  /** `binary.BigEndian.PutUint16` */
  function BE16(x: bv16): (r: seq<Byte>)
    ensures |r| == 2 && ReadBE16(r) == x
  {
    [(x >> 8) as bv8, (x & 0xFF) as bv8]
  }

  /** `binary.BigEndian.Uint16` (reads the first two bytes) */
  function ReadBE16(b: seq<Byte>): bv16
    requires |b| >= 2
  {
    ((b[0] as bv16) << 8) | (b[1] as bv16)
  }

  /** `binary.BigEndian.PutUint32` */
  function BE32(x: bv32): (r: seq<Byte>)
    ensures |r| == 4 && ReadBE32(r) == x
  {
    [(x >> 24) as bv8, ((x >> 16) & 0xFF) as bv8, ((x >> 8) & 0xFF) as bv8, (x & 0xFF) as bv8]
  }

  /** `binary.BigEndian.Uint32` */
  function ReadBE32(b: seq<Byte>): bv32
    requires |b| >= 4
  {
    ((b[0] as bv32) << 24) | ((b[1] as bv32) << 16) | ((b[2] as bv32) << 8) | (b[3] as bv32)
  }

  /** `binary.BigEndian.PutUint64` */
  function BE64(x: bv64): (r: seq<Byte>)
    ensures |r| == 8 && ReadBE64(r) == x
  {
    [(x >> 56) as bv8, ((x >> 48) & 0xFF) as bv8, ((x >> 40) & 0xFF) as bv8, ((x >> 32) & 0xFF) as bv8,
     ((x >> 24) & 0xFF) as bv8, ((x >> 16) & 0xFF) as bv8, ((x >> 8) & 0xFF) as bv8, (x & 0xFF) as bv8]
  }

  /** `binary.BigEndian.Uint64` */
  function ReadBE64(b: seq<Byte>): bv64
    requires |b| >= 8
  {
    ((b[0] as bv64) << 56) | ((b[1] as bv64) << 48) | ((b[2] as bv64) << 40) | ((b[3] as bv64) << 32) |
    ((b[4] as bv64) << 24) | ((b[5] as bv64) << 16) | ((b[6] as bv64) << 8) | (b[7] as bv64)
  }

  lemma Double8(x: Byte, b: Byte)
    requires x as nat < 0x80 && b as nat < 2
    ensures ((x << 1) | b) as nat == 2 * x as nat + b as nat
  {
  }

  /** Go's `byte(n)` for an `n` that fits, built bit by bit. */
  function ToU8(n: nat): (r: Byte)
    requires n < 0x100
    ensures r as nat == n
  {
    if n < 2 then (if n == 0 then 0 else 1)
    else
      var high := ToU8(n / 2);
      var low: Byte := if n % 2 == 0 then 0 else 1;
      Double8(high, low);
      (high << 1) | low
  }

  function Pow256(k: nat): nat {
    if k == 0 then 1 else 0x100 * Pow256(k - 1)
  }

  /** The number that big-endian bytes stand for. */
  function BytesValue(b: seq<Byte>): nat {
    if b == [] then 0 else BytesValue(b[..|b| - 1]) * 0x100 + b[|b| - 1] as nat
  }

  /**
    Go's `int(x)` for an unsigned 16- or 64-bit `x`, read through its
    big-endian bytes. Stating it this way rather than as `x as nat` keeps
    the solver from expanding the conversion wherever a length field appears.
  */
  function Nat16(x: bv16): nat {
    BytesValue(BE16(x))
  }

  function Nat64(x: bv64): nat {
    BytesValue(BE64(x))
  }

  /** The `w` big-endian base-256 digits of `n`, the most significant first (`n` taken modulo 256^w). */
  function NatBytes(n: nat, w: nat): (r: seq<Byte>)
    ensures |r| == w
  {
    if w == 0 then [] else NatBytes(n / 0x100, w - 1) + [ToU8(n % 0x100)]
  }

  /** The digits of an `n` below 256^w stand for `n`. */
  lemma {:induction false} NatBytesValue(n: nat, w: nat)
    requires n < Pow256(w)
    ensures BytesValue(NatBytes(n, w)) == n
  {
    if w > 0 {
      var b := NatBytes(n, w);
      assert b[..w - 1] == NatBytes(n / 0x100, w - 1);
      assert n / 0x100 < Pow256(w - 1);
      NatBytesValue(n / 0x100, w - 1);
    }
  }

  /**
    Go's `uint16(n)` and `uint64(n)` for an `n` that fits, read from its
    big-endian digits. `ToU16Value` and `ToU64Value` state that the result
    stands for `n`.
  */
  function ToU16(n: nat): bv16
    requires n < 0x1_0000
  {
    ReadBE16(NatBytes(n, 2))
  }

  function ToU64(n: nat): bv64
    requires n < 0x1_0000_0000_0000_0000
  {
    ReadBE64(NatBytes(n, 8))
  }

  lemma ToU16Value(n: nat)
    requires n < 0x1_0000
    ensures Nat16(ToU16(n)) == n
  {
    ReadBE16Inverse(NatBytes(n, 2));
    assert Pow256(2) == 0x1_0000;
    NatBytesValue(n, 2);
  }

  lemma ToU64Value(n: nat)
    requires n < 0x1_0000_0000_0000_0000
    ensures Nat64(ToU64(n)) == n
  {
    ReadBE64Inverse(NatBytes(n, 8));
    assert Pow256(8) == 0x1_0000_0000_0000_0000;
    NatBytesValue(n, 8);
  }

  /** A byte-sized `n` gives `uint16(byte(n))`. */
  lemma ToU16Small(n: nat)
    requires n < 0x100
    ensures ToU16(n) == ToU8(n) as bv16
  {
    assert n / 0x100 == 0 && n % 0x100 == n;
    assert NatBytes(0, 1) == [ToU8(0)] == [0];
    WidenByte(ToU8(n));
  }

  lemma WidenByte(b: Byte)
    ensures ((0 as bv16) << 8) | (b as bv16) == b as bv16
  {
  }

  /** Zero is the only value whose number is zero. */
  lemma Nat16Zero(x: bv16)
    ensures Nat16(x) == 0 <==> x == 0
  {
    BytesValueZero(BE16(x));
  }

  lemma Nat64Zero(x: bv64)
    ensures Nat64(x) == 0 <==> x == 0
  {
    BytesValueZero(BE64(x));
  }

  /** Bytes stand for zero exactly when they are all zero. */
  lemma {:induction false} BytesValueZero(b: seq<Byte>)
    ensures BytesValue(b) == 0 <==> forall i :: 0 <= i < |b| ==> b[i] == 0
  {
    if b != [] {
      var b' := b[..|b| - 1];
      BytesValueZero(b');
      if forall i :: 0 <= i < |b'| ==> b'[i] == 0 {
        assert forall i :: 0 <= i < |b'| ==> b[i] == b'[i];
      } else {
        var i :| 0 <= i < |b'| && b'[i] != 0;
        assert b[i] != 0;
      }
    }
  }

  /** Decoding eight bytes and encoding the result gives the bytes back. */
  lemma ReadBE64Inverse(b: seq<Byte>)
    requires |b| == 8
    ensures BE64(ReadBE64(b)) == b
  {
  }

  /** Decoding two bytes and encoding the result gives the bytes back. */
  lemma ReadBE16Inverse(b: seq<Byte>)
    requires |b| == 2
    ensures BE16(ReadBE16(b)) == b
  {
  }

  /** The UTF-8 encoding of one Unicode scalar value. */
  function EncodeChar(c: char): (r: seq<Byte>)
    ensures 1 <= |r| <= 4
    ensures |r| == 1 <==> c as int < 0x80
    ensures |r| == 1 ==> r[0] as int == c as int
  {
    var n := c as int;
    if n < 0x80 then [ToU8(n)]
    else if n < 0x800 then [ToU8(0xC0 + n / 0x40), ToU8(0x80 + n % 0x40)]
    else if n < 0x1_0000 then
      [ToU8(0xE0 + n / 0x1000), ToU8(0x80 + (n / 0x40) % 0x40), ToU8(0x80 + n % 0x40)]
    else
      [ToU8(0xF0 + n / 0x4_0000), ToU8(0x80 + (n / 0x1000) % 0x40),
       ToU8(0x80 + (n / 0x40) % 0x40), ToU8(0x80 + n % 0x40)]
  }

  /** `[]byte(s)`: the UTF-8 bytes of a string, one to four per character. */
  function Utf8(s: string): (r: seq<Byte>)
    ensures |s| <= |r| <= 4 * |s|
  {
    if s == [] then [] else EncodeChar(s[0]) + Utf8(s[1..])
  }

  /** Encoding is a homomorphism: Go's `[]byte(a + b)` is `[]byte(a)` followed by `[]byte(b)`. */
  lemma {:induction false} Utf8Append(a: string, b: string)
    ensures Utf8(a + b) == Utf8(a) + Utf8(b)
  {
    if a == [] {
      assert a + b == b;
    } else {
      assert (a + b)[0] == a[0];
      assert (a + b)[1..] == a[1..] + b;
      Utf8Append(a[1..], b);
    }
  }

  ghost predicate IsAscii(s: string) {
    forall i :: 0 <= i < |s| ==> s[i] as int < 0x80
  }

  /** An ASCII string is encoded one byte per character, each byte its code. */
  lemma {:induction false} AsciiUtf8(s: string)
    requires IsAscii(s)
    ensures |Utf8(s)| == |s|
    ensures forall i :: 0 <= i < |s| ==> Utf8(s)[i] as int == s[i] as int
  {
    if s != [] {
      AsciiUtf8(s[1..]);
      assert Utf8(s) == EncodeChar(s[0]) + Utf8(s[1..]);
    }
  }
}
