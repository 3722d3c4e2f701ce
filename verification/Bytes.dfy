/** Bytes, fixed-width integers and their little-endian form. */
module Bytes {

  type byte = x: int | 0 <= x < 0x100
  type bytes = seq<byte>

  type u16 = x: int | 0 <= x < 0x1_0000
  type u32 = x: int | 0 <= x < 0x1_0000_0000
  type u64 = x: int | 0 <= x < 0x1_0000_0000_0000_0000
  type i32 = x: int | -0x8000_0000 <= x < 0x8000_0000
  type i64 = x: int | -0x8000_0000_0000_0000 <= x < 0x8000_0000_0000_0000

  const MAX_INT32: int := 0x7fff_ffff
  const MAX_INT64: int := 0x7fff_ffff_ffff_ffff

  function Pow256(w: nat): (p: nat)
    ensures p >= 1
  {
    if w == 0 then 1 else 256 * Pow256(w - 1)
  }

  lemma Widths()
    ensures Pow256(1) == 0x100 && Pow256(2) == 0x1_0000 && Pow256(4) == 0x1_0000_0000
    ensures Pow256(8) == 0x1_0000_0000_0000_0000
  {
    assert Pow256(4) == 256 * (256 * (256 * (256 * Pow256(0))));
    assert Pow256(8) == 256 * (256 * (256 * (256 * Pow256(4))));
  }

  /** The low `w` bytes of `v`, least significant first; higher bits are cut off. */
  function ToLittleEndian(w: nat, v: nat): (b: bytes)
    ensures |b| == w
  {
    if w == 0 then [] else [v % 256] + ToLittleEndian(w - 1, v / 256)
  }

  function FromLittleEndian(b: bytes): (v: nat)
    ensures v < Pow256(|b|)
  {
    if b == [] then 0 else b[0] + 256 * FromLittleEndian(b[1..])
  }

  lemma {:induction false} WordRoundTrip(w: nat, v: nat)
    requires v < Pow256(w)
    ensures FromLittleEndian(ToLittleEndian(w, v)) == v
  {
    if w == 0 {
    } else {
      WordRoundTrip(w - 1, v / 256);
      assert ToLittleEndian(w, v)[1..] == ToLittleEndian(w - 1, v / 256);
    }
  }

  lemma {:induction false} BytesRoundTrip(b: bytes)
    ensures ToLittleEndian(|b|, FromLittleEndian(b)) == b
  {
    if b == [] {
    } else {
      var v, rest := FromLittleEndian(b), FromLittleEndian(b[1..]);
      assert v % 256 == b[0] && v / 256 == rest;
      BytesRoundTrip(b[1..]);
      hide FromLittleEndian;
      assert ToLittleEndian(|b|, v) == [b[0]] + b[1..];
    }
  }

  lemma DivTwice(v: nat, p: nat)
    requires p >= 1
    ensures v / (256 * p) == v / 256 / p
  {
    var q, r := v / 256, v % 256;
    var a, b := q / p, q % p;
    assert q == a * p + b;
    assert v == a * (256 * p) + (256 * b + r) by {
      assert 256 * (a * p) == a * (256 * p);
    }
    DivUnique(v, 256 * p, a, 256 * b + r);
  }

  lemma DivUnique(v: nat, d: nat, a: nat, rest: nat)
    requires d >= 1 && v == a * d + rest && rest < d
    ensures v / d == a
  {
    MulMonotone(a + 1, v / d, d);
    MulMonotone(v / d + 1, a, d);
  }

  lemma MulMonotone(x: nat, y: nat, d: nat)
    ensures x <= y ==> x * d <= y * d
  {
  }

  /** Byte `i` carries the bits of weight 256^i. */
  lemma {:induction false} LeastSignificantFirst(w: nat, v: nat, i: nat)
    requires i < w
    ensures ToLittleEndian(w, v)[i] == v / Pow256(i) % 256
  {
    if i == 0 {
    } else {
      LeastSignificantFirst(w - 1, v / 256, i - 1);
      DivTwice(v, Pow256(i - 1));
    }
  }

  /** Two's complement reading of an unsigned word. */
  function AsSigned32(u: u32): i32 {
    if u < 0x8000_0000 then u else u - 0x1_0000_0000
  }

  function AsUnsigned32(i: i32): u32 {
    if i >= 0 then i else i + 0x1_0000_0000
  }

  function AsSigned64(u: u64): i64 {
    if u < 0x8000_0000_0000_0000 then u else u - 0x1_0000_0000_0000_0000
  }

  function AsUnsigned64(i: i64): u64 {
    if i >= 0 then i else i + 0x1_0000_0000_0000_0000
  }

  /** The conversion of a wide length to qint32: only the low 32 bits survive. */
  function Narrow32(n: int): i32 {
    AsSigned32(n % 0x1_0000_0000)
  }

  lemma NarrowFits(n: nat)
    ensures Narrow32(n) == n <==> n <= MAX_INT32
  {
  }

  /** `flag` is a single bit. */
  predicate HasFlag(b: byte, flag: byte)
    requires flag > 0
  {
    (b / flag) % 2 == 1
  }

  function SetFlag(b: byte, flag: byte): byte
    requires flag in {0x40, 0x80}
  {
    if HasFlag(b, flag) then b else b + flag
  }

  // The flags as numbers are the flags as bits.

  lemma UriFlagIsABit(b: bv8)
    ensures HasFlag(b as int, 0x80) <==> b & 0x80 != 0
    ensures SetFlag(b as int, 0x80) == (b | 0x80) as int
  {
  }

  lemma ServerFlagIsABit(b: bv8)
    ensures HasFlag(b as int, 0x40) <==> b & 0x40 != 0
    ensures SetFlag(b as int, 0x40) == (b | 0x40) as int
  {
  }

  lemma TextFlagsAreBits(b: bv8)
    ensures HasFlag(b as int, 0x01) <==> b & 0x01 != 0
    ensures HasFlag(b as int, 0x02) <==> b & 0x02 != 0
  {
  }

  lemma FormIsTheLowBits(b: bv8)
    ensures (b as int) % 0x40 == (b & !(0x40 | 0x80)) as int
  {
  }
}
