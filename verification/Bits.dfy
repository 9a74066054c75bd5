/** Bytes, byte strings and the few bit operations the codecs use on them.

    A byte is an integer in 0..255.  Go's `x >> k` and `x & (2^k - 1)` are written as division and
    remainder by the power of two; `|` is defined here bit by bit, so that a place where the two
    operands overlap is not silently turned into an addition. */
module Bits {

  type byte = x: int | 0 <= x < 256
  type bytes = seq<byte>
  type uint16 = x: int | 0 <= x < 0x1_0000
  type uint32 = x: int | 0 <= x < 0x1_0000_0000
  type uint64 = x: int | 0 <= x < 0x1_0000_0000_0000_0000

  /** Media clocks count modulo 2^33. */
  const TWO_33: int := 0x2_0000_0000

  /** The truncating conversion byte(n) of an integer of any width. */
  function Byte(n: int): byte { n % 256 }

  lemma ByteIs(x: int)
    requires 0 <= x < 0x100
    ensures Byte(x) == x
  {
  }

  /** Bitwise or. */
  function Or(a: nat, b: nat): (r: nat)
    decreases a + b
  {
    if a == 0 then b
    else if b == 0 then a
    else 2 * Or(a / 2, b / 2) + (if a % 2 == 1 || b % 2 == 1 then 1 else 0)
  }

  /** x << k, before any truncation. */
  function Shl(x: nat, k: nat): nat {
    if k == 0 then x else 2 * Shl(x, k - 1)
  }

  /** Operands that share no bit are or-ed by adding them. */
  lemma {:induction false} OrDisjoint(a: nat, b: nat, k: nat)
    requires b < Shl(1, k)
    ensures Or(Shl(a, k), b) == Shl(a, k) + b
    ensures Or(b, Shl(a, k)) == Shl(a, k) + b
  {
    if k == 0 {
    } else {
      OrDisjoint(a, b / 2, k - 1);
    }
  }

  lemma {:induction false} ShlAdd(m: nat, a: nat, b: nat)
    ensures Shl(Shl(m, a), b) == Shl(m, a + b)
    decreases b
  {
    if b == 0 {
    } else {
      ShlAdd(m, a, b - 1);
    }
  }

  lemma {:induction false} ShlValues(x: nat)
    ensures Shl(x, 1) == 2 * x
    ensures Shl(x, 2) == 4 * x
    ensures Shl(x, 3) == 8 * x
    ensures Shl(x, 4) == 16 * x
    ensures Shl(x, 5) == 32 * x
    ensures Shl(x, 6) == 64 * x
    ensures Shl(x, 7) == 128 * x
  {
    assert Shl(x, 1) == 2 * Shl(x, 0);
    assert Shl(x, 2) == 2 * Shl(x, 1);
    assert Shl(x, 3) == 2 * Shl(x, 2);
    assert Shl(x, 4) == 2 * Shl(x, 3);
    assert Shl(x, 5) == 2 * Shl(x, 4);
    assert Shl(x, 6) == 2 * Shl(x, 5);
    assert Shl(x, 7) == 2 * Shl(x, 6);
  }

  lemma {:induction false} OrBit(a: nat)
    ensures Or(2 * a, 1) == 2 * a + 1
  {
    assert Or(a, 0) == a;
  }

  lemma {:induction false} Or2(a: nat, b: nat)
    requires b < 4
    ensures Or(4 * a, b) == Or(b, 4 * a) == 4 * a + b
  {
    ShlValues(a);
    ShlValues(1);
    OrDisjoint(a, b, 2);
  }

  lemma {:induction false} Or4(a: nat, b: nat)
    requires b < 16
    ensures Or(16 * a, b) == Or(b, 16 * a) == 16 * a + b
  {
    ShlValues(a);
    ShlValues(1);
    OrDisjoint(a, b, 4);
  }

  lemma {:induction false} Or5(a: nat, b: nat)
    requires b < 32
    ensures Or(32 * a, b) == Or(b, 32 * a) == 32 * a + b
  {
    ShlValues(a);
    ShlValues(1);
    OrDisjoint(a, b, 5);
  }

  lemma {:induction false} Or6(a: nat, b: nat)
    requires b < 64
    ensures Or(64 * a, b) == Or(b, 64 * a) == 64 * a + b
  {
    ShlValues(a);
    ShlValues(1);
    OrDisjoint(a, b, 6);
  }

  lemma {:induction false} Or7(a: nat, b: nat)
    requires b < 128
    ensures Or(128 * a, b) == Or(b, 128 * a) == 128 * a + b
  {
    ShlValues(a);
    ShlValues(1);
    OrDisjoint(a, b, 7);
  }

  // ---- big-endian fields

  function Be16(n: nat): (s: bytes)
    ensures |s| == 2
  {
    [Byte(n / 0x100), Byte(n)]
  }

  function Be24(n: nat): (s: bytes)
    ensures |s| == 3
  {
    [Byte(n / 0x1_0000), Byte(n / 0x100), Byte(n)]
  }

  function Be32(n: nat): (s: bytes)
    ensures |s| == 4
  {
    [Byte(n / 0x100_0000), Byte(n / 0x1_0000), Byte(n / 0x100), Byte(n)]
  }

  function De16(s: bytes): (n: nat)
    requires |s| >= 2
    ensures n < 0x1_0000
  {
    (s[0] as int) * 0x100 + s[1]
  }

  function De24(s: bytes): (n: nat)
    requires |s| >= 3
    ensures n < 0x100_0000
  {
    (s[0] as int) * 0x1_0000 + (s[1] as int) * 0x100 + s[2]
  }

  function De32(s: bytes): (n: nat)
    requires |s| >= 4
    ensures n < 0x1_0000_0000
  {
    (s[0] as int) * 0x100_0000 + (s[1] as int) * 0x1_0000 + (s[2] as int) * 0x100 + s[3]
  }

  /** Reading a field back gives the value modulo the width of the field. */
  lemma Be16Inverse(n: nat)
    ensures De16(Be16(n)) == n % 0x1_0000
  {
  }

  lemma Be24Inverse(n: nat)
    ensures De24(Be24(n)) == n % 0x100_0000
  {
    hide De24, Be24;
    QuotientOnce(n, 0x100);
    LowByte(n, 0x1_0000);
    LowByte(n / 0x100, 0x100);
    Be24Bytes(n);
  }

  lemma Be24Bytes(n: nat)
    ensures De24(Be24(n)) == n / 0x1_0000 % 0x100 * 0x1_0000 + n / 0x100 % 0x100 * 0x100 + n % 0x100
  {
  }

  lemma Be32Inverse(n: nat)
    ensures De32(Be32(n)) == n % 0x1_0000_0000
  {
    hide De32, Be32;
    var q, r := n / 0x100, n / 0x1_0000;
    QuotientOnce(n, 0x100);
    QuotientOnce(n, 0x1_0000);
    LowByte(n, 0x100_0000);
    LowByte(q, 0x1_0000);
    LowByte(r, 0x100);
    Be32Bytes(n);
  }

  lemma QuotientOnce(n: nat, p: nat)
    requires p == 0x100 || p == 0x1_0000
    ensures n / p / 0x100 == n / (p * 0x100)
  {
    var (q, r) := (n / p, n % p);
    var (d, e) := (q / 0x100, q % 0x100);
    assert n == p * q + r && q == 0x100 * d + e;
    Unique(n, p * 0x100, d, p * e + r);
  }

  /** The lowest byte of a number cut to one byte more than p. */
  lemma LowByte(n: nat, p: nat)
    requires p == 0x100 || p == 0x1_0000 || p == 0x100_0000
    ensures n % (p * 0x100) == n / 0x100 % p * 0x100 + n % 0x100
  {
    var (q, r) := (n / 0x100, n % 0x100);
    var (d, e) := (q / p, q % p);
    assert n == 0x100 * q + r && q == p * d + e;
    Unique(n, p * 0x100, d, e * 0x100 + r);
  }

  /** Quotient and remainder are determined. */
  lemma Unique(n: int, m: nat, d: int, r: nat)
    requires n == m * d + r && r < m
    ensures n / m == d && n % m == r
  {
    var (q, e) := (n / m, n % m);
    assert n == m * q + e;
    assert m * (q - d) == m * q - m * d;
    NoMultiple(m, q - d);
  }

  lemma NoMultiple(m: int, k: int)
    requires -m < m * k < m
    ensures k == 0
  {
    assert m * (k - 1) == m * k - m && m * (k + 1) == m * k + m;
    assert k >= 1 ==> m * (k - 1) >= 0;
    assert k <= -1 ==> m * (k + 1) <= 0;
  }

  lemma Be32Bytes(n: nat)
    ensures De32(Be32(n)) ==
      n / 0x100_0000 % 0x100 * 0x100_0000 + n / 0x1_0000 % 0x100 * 0x1_0000 + n / 0x100 % 0x100 * 0x100 + n % 0x100
  {
  }

  /** Writing a field that was read gives the same bytes. */
  lemma DeInverse(s: bytes)
    ensures |s| == 2 ==> Be16(De16(s)) == s
    ensures |s| == 4 ==> Be32(De32(s)) == s
  {
    if |s| == 4 {
      var n := De32(s);
      var (a, b) := (s[0] as int, s[0] as int * 0x100 + s[1]);
      var c := b * 0x100 + s[2];
      assert n == 0x100 * c + s[3];
      Unique(n, 0x100, c, s[3]);
      Unique(n, 0x1_0000, b, s[2] as int * 0x100 + s[3]);
      Unique(n, 0x100_0000, a, s[1] as int * 0x1_0000 + s[2] as int * 0x100 + s[3]);
      Unique(c, 0x100, b, s[2]);
      Unique(b, 0x100, a, s[1]);
    }
  }

  /** Only the first bytes of a string make a field. */
  lemma De16Prefix(s: bytes)
    requires |s| >= 2
    ensures De16(s) == De16(s[..2])
  {
  }

  lemma De24Prefix(s: bytes)
    requires |s| >= 3
    ensures De24(s) == De24(s[..3])
  {
  }

  lemma De32Prefix(s: bytes)
    requires |s| >= 4
    ensures De32(s) == De32(s[..4])
  {
  }

  // ---- buffers

  /** Go's copy into a slice that begins at i. */
  method Copy(dst: array<byte>, i: nat, s: bytes)
    requires i + |s| <= dst.Length
    modifies dst
    ensures dst[..] == old(dst[..i]) + s + old(dst[i + |s|..])
    ensures dst[..i + |s|] == old(dst[..i]) + s
  {
    for k := 0 to |s|
      invariant dst[..i] == old(dst[..i]) && dst[i..i + k] == s[..k]
      invariant dst[i + k..] == old(dst[i + k..])
    {
      dst[i + k] := s[k];
    }
    assert dst[..] == dst[..i] + dst[i..i + |s|] + dst[i + |s|..];
  }
}
