/** The eight bytes of an IEEE 754 double that an integer is converted to (float64(n), written by
    binary.Write in big-endian order).  Arithmetic on doubles is not part of this model: everywhere
    else a double is just its eight bytes. */
module Float64 {
  import opened Bits

  type Float = s: bytes | |s| == 8 witness [0, 0, 0, 0, 0, 0, 0, 0]

  /** The integers of all Go integer types. */
  type GoInt = n: int | -0x8000_0000_0000_0000 <= n < 0x1_0000_0000_0000_0000

  const ONE: nat := 0x10_0000_0000_0000

  function Abs(n: int): nat { if n < 0 then -n else n }

  /** The position of the highest bit. */
  function Exponent(m: nat): (e: nat)
    requires m > 0
    ensures Shl(1, e) <= m < 2 * Shl(1, e)
  {
    if m < 2 then 0 else 1 + Exponent(m / 2)
  }

  /** m / p rounded to the nearest integer, and to the even one of two equally near. */
  function Rounded(m: nat, p: nat): nat
    requires p > 0
  {
    var (q, r) := (m / p, m % p);
    if 2 * r > p || (2 * r == p && q % 2 == 1) then q + 1 else q
  }

  /** The 53 significant bits, before a carry out of rounding. */
  function Significand(m: nat): (f: nat)
    requires m > 0
    ensures ONE <= f <= 2 * ONE
  {
    var e := Exponent(m);
    if e <= 52 then ScaleBounds(m, e); Shl(m, 52 - e)
    else RoundBounds(m, e); Rounded(m, Shl(1, e - 52))
  }

  function Word(negative: bool, e: nat, f: nat): nat {
    ((if negative then 0x800 else 0) + 1023 + e) * ONE + f
  }

  function WordOf(n: GoInt): (w: nat)
    ensures w < 0x1_0000_0000_0000_0000
  {
    if n == 0 then 0
    else
      var (e, f) := (Exponent(Abs(n)), Significand(Abs(n)));
      OneIs();
      ExponentBound(Abs(n), 64);
      if f == 2 * ONE then Word(n < 0, e + 1, 0) else Word(n < 0, e, f - ONE)
  }

  function FloatOf(n: GoInt): Float {
    Be32(WordOf(n) / 0x1_0000_0000) + Be32(WordOf(n) % 0x1_0000_0000)
  }

  // ---- the arithmetic behind it

  lemma {:induction false} ShlMul(m: nat, k: nat)
    ensures Shl(m, k) == m * Shl(1, k) && Shl(1, k) > 0
    decreases k
  {
    if k == 0 {
    } else {
      ShlMul(m, k - 1);
      assert 2 * (m * Shl(1, k - 1)) == m * (2 * Shl(1, k - 1));
    }
  }

  lemma {:induction false} ShlMonotone(a: nat, b: nat, k: nat)
    ensures a <= b ==> Shl(a, k) <= Shl(b, k)
    ensures a < b ==> Shl(a, k) < Shl(b, k)
    decreases k
  {
    if k == 0 {
    } else {
      ShlMonotone(a, b, k - 1);
    }
  }

  lemma {:induction false} ShlOne(k: nat)
    ensures Shl(1, 10 + k) == 0x400 * Shl(1, k)
  {
    ShlAdd(1, k, 10);
    var x := Shl(1, k);
    assert Shl(x, 10) == 2 * Shl(x, 9);
    assert Shl(x, 9) == 2 * Shl(x, 8);
    assert Shl(x, 8) == 2 * Shl(x, 7);
    ShlValues(x);
  }

  lemma OneIs()
    ensures Shl(1, 52) == ONE
    ensures Shl(1, 64) == 0x1_0000_0000_0000_0000
  {
    ShlValues(1);
    ShlOne(2);
    ShlOne(12);
    ShlOne(22);
    ShlOne(32);
    ShlOne(42);
    ShlOne(4);
    ShlOne(14);
    ShlOne(24);
    ShlOne(34);
    ShlOne(44);
    ShlOne(54);
  }

  lemma ScaleBounds(m: nat, e: nat)
    requires e <= 52 && Shl(1, e) <= m < 2 * Shl(1, e)
    ensures ONE <= Shl(m, 52 - e) < 2 * ONE
  {
    OneIs();
    ShlAdd(1, e, 52 - e);
    ShlMonotone(Shl(1, e), m, 52 - e);
    ShlMonotone(m, Shl(1, e + 1), 52 - e);
    ShlAdd(1, e + 1, 52 - e);
    assert Shl(1, 53) == 2 * Shl(1, 52);
  }

  lemma RoundBounds(m: nat, e: nat)
    requires e > 52 && Shl(1, e) <= m < 2 * Shl(1, e)
    ensures Shl(1, e - 52) > 0 && ONE <= Rounded(m, Shl(1, e - 52)) <= 2 * ONE
  {
    var p := Shl(1, e - 52);
    OneIs();
    ShlAdd(1, 52, e - 52);
    ShlMul(ONE, e - 52);
    QuotientBounds(m, p);
  }

  lemma QuotientBounds(m: nat, p: nat)
    requires p > 0 && ONE * p <= m < 2 * (ONE * p)
    ensures ONE <= m / p < 2 * ONE
  {
    var q := m / p;
    assert m == q * p + m % p;
    MulOrder(ONE, q + 1, p);
    MulOrder(q, 2 * ONE, p);
  }

  lemma MulOrder(a: nat, b: nat, p: nat)
    requires a * p < b * p
    ensures a < b
  {
    assert b * p - a * p == (b - a) * p;
    assert b - a <= 0 ==> (b - a) * p <= 0;
  }

  lemma {:induction false} ExponentBound(m: nat, k: nat)
    requires 0 < m < Shl(1, k)
    ensures Exponent(m) < k
    decreases k
  {
    if m == 1 {
    } else {
      ExponentBound(m / 2, k - 1);
    }
  }

  // ---- what the double means

  /** The integer part of the absolute value of a double that is at least one, with its sign; 0 for zero.
      Infinities and fractions below one do not come out of FloatOf. */
  function IntegerOf(b: Float): int {
    var w := De32(b[..4]) * 0x1_0000_0000 + De32(b[4..]);
    var (top, f) := (w / ONE, w % ONE);
    var e := top % 0x800 - 1023;
    var m := if e < 0 then 0 else if e <= 52 then (ONE + f) / Shl1(52 - e) else Shl(ONE + f, e - 52);
    if top >= 0x800 then -m else m
  }

  function Shl1(k: nat): (p: nat)
    ensures p > 0
  {
    ShlMul(1, k);
    Shl(1, k)
  }

  /** At most 53 significant bits. */
  predicate Representable(n: GoInt) {
    n == 0 || Exponent(Abs(n)) <= 52 || Abs(n) % Shl1(Exponent(Abs(n)) - 52) == 0
  }

  lemma SmallRepresentable(n: GoInt)
    requires Abs(n) <= 0x20_0000_0000_0000
    ensures Representable(n)
  {
    hide Shl, Exponent;
    FiftyThree();
    if 0 < Abs(n) < 0x20_0000_0000_0000 {
      ExponentBound(Abs(n), 53);
    } else if Abs(n) == 0x20_0000_0000_0000 {
      ExponentBound(Abs(n), 54);
    }
  }

  lemma FiftyThree()
    ensures Shl(1, 53) == 0x20_0000_0000_0000 && Shl(1, 54) == 0x40_0000_0000_0000
    ensures Shl1(1) == 2 && Shl1(0) == 1
  {
    OneIs();
    ShlValues(1);
    assert Shl(1, 53) == 2 * ONE;
    assert Shl(1, 54) == 2 * Shl(1, 53);
  }

  lemma WordReads(negative: bool, e: nat, f: nat)
    requires e <= 64 && f < ONE
    ensures var w := Word(negative, e, f);
            w < 0x1_0000_0000_0000_0000 &&
            w / ONE % 0x800 - 1023 == e && w % ONE == f && (w / ONE >= 0x800 <==> negative)
  {
  }

  lemma BytesRead(w: nat)
    requires w < 0x1_0000_0000_0000_0000
    ensures var b := Be32(w / 0x1_0000_0000) + Be32(w % 0x1_0000_0000);
            De32(b[..4]) * 0x1_0000_0000 + De32(b[4..]) == w
  {
    hide Be32, De32;
    var b := Be32(w / 0x1_0000_0000) + Be32(w % 0x1_0000_0000);
    assert b[..4] == Be32(w / 0x1_0000_0000) && b[4..] == Be32(w % 0x1_0000_0000);
    Be32Inverse(w / 0x1_0000_0000);
    Be32Inverse(w % 0x1_0000_0000);
  }

  /** The magnitude that is read back from a significand. */
  function Magnitude(e: nat, f: nat): int {
    if e <= 52 then f / Shl1(52 - e) else Shl(f, e - 52)
  }

  lemma {:induction false} MagnitudeIs(m: nat)
    requires 0 < m < 0x1_0000_0000_0000_0000
    ensures var (e, f) := (Exponent(m), Significand(m));
            if e <= 52 then Magnitude(e, f) == m && f < 2 * ONE
            else Magnitude(e, f) == m <==> m % Shl1(e - 52) == 0
  {
    hide Shl, Exponent;
    var e := Exponent(m);
    if e <= 52 {
      ScaleBounds(m, e);
      ShlMul(m, 52 - e);
      MulDiv(m, Shl1(52 - e));
    } else {
      var p := Shl1(e - 52);
      RoundBounds(m, e);
      ShlMul(Rounded(m, p), e - 52);
      RoundedExact(m, p);
    }
  }

  lemma MulDiv(m: nat, p: nat)
    requires p > 0
    ensures m * p / p == m
  {
    assert m * p == p * m + 0;
    Unique(m * p, p, m, 0);
  }

  lemma RoundedExact(m: nat, p: nat)
    requires p > 0
    ensures Rounded(m, p) * p == m <==> m % p == 0
  {
    var (q, r) := (m / p, m % p);
    assert m == q * p + r;
    assert (q + 1) * p == q * p + p;
  }

  /** What is read from the word of a sign, an exponent and a fraction. */
  lemma WordMeans(negative: bool, e: nat, f: nat)
    requires e <= 64 && f < ONE
    ensures var w := Word(negative, e, f);
            IntegerOf(Be32(w / 0x1_0000_0000) + Be32(w % 0x1_0000_0000)) ==
              if negative then -Magnitude(e, ONE + f) else Magnitude(e, ONE + f)
  {
    hide Be32, De32, Shl, Word;
    WordReads(negative, e, f);
    BytesRead(Word(negative, e, f));
  }

  /** The conversion is exact for the integers of at most 53 significant bits, and for no others. */
  lemma ExactIff(n: GoInt)
    ensures IntegerOf(FloatOf(n)) == n <==> Representable(n)
  {
    hide Be32, IntegerOf, Magnitude, Shl, Exponent, Significand, Word;
    if n == 0 {
      ZeroReads();
    } else {
      var m := Abs(n);
      var (e, f) := (Exponent(m), Significand(m));
      OneIs();
      ExponentBound(m, 64);
      MagnitudeIs(m);
      if f == 2 * ONE {
        WordMeans(n < 0, e + 1, 0);
        CarryMagnitude(e);
      } else {
        WordMeans(n < 0, e, f - ONE);
      }
    }
  }

  lemma ZeroReads()
    ensures IntegerOf(Be32(0) + Be32(0)) == 0
  {
    BytesRead(0);
  }

  lemma CarryMagnitude(e: nat)
    requires e > 52
    ensures Magnitude(e + 1, ONE) == Magnitude(e, 2 * ONE)
  {
    ShlMul(ONE, e - 51);
    ShlMul(2 * ONE, e - 52);
    assert Shl(1, e - 51) == 2 * Shl(1, e - 52);
  }
}
