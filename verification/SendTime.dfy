/** The absolute send time extension of an RTP header (rtp/packetizer.go:54-65 and 95-117): a one-byte
    header of RFC 5285, then 24 bits of the NTP time, of which 18 are the fraction of a second. */
module SendTime {
  import opened Bits

  const NANOS := 1_000_000_000
  const NTP_EPOCH := 0x83AA_7E80

  /** 64 bits, of which 32 are the fraction; u is the Unix time in nanoseconds. */
  function NtpTime(u: uint64): nat {
    var s := (u / NANOS + NTP_EPOCH) * 0x1_0000_0000 % 0x1_0000_0000_0000_0000;
    var f := u % NANOS * 0x1_0000_0000 / NANOS;
    Or(s, f)
  }

  /** What is put into the header; of the number only the low bits reach the byte. */
  function Extension(number: int, u: uint64): (s: bytes)
    ensures |s| == 4
  {
    var t := NtpTime(u) / 0x4000;
    [Byte(Or(number * 16 % 0x100, 2)), t / 0x1_0000 % 0x100, t / 0x100 % 0x100, t % 0x100]
  }

  // ---- what a receiver reads

  /** The NTP time, which began 2208988800 seconds before the Unix time, in units of 2^-18 seconds. */
  function Ticks(u: nat): nat { (u + 2_208_988_800 * 1_000_000_000) * 0x4_0000 / 1_000_000_000 }

  const FIELD := 0x100_0000

  lemma NtpTimeIs(u: uint64)
    ensures NtpTime(u) == (u / NANOS + NTP_EPOCH) % 0x1_0000_0000 * 0x1_0000_0000 + u % NANOS * 0x1_0000_0000 / NANOS
  {
    hide Or, Shl;
    var (q, f) := ((u / NANOS + NTP_EPOCH) % 0x1_0000_0000, u % NANOS * 0x1_0000_0000 / NANOS);
    Shift32(q);
    Shift32(1);
    OrDisjoint(q, f, 32);
  }

  lemma {:induction false} Shift32(q: nat)
    ensures Shl(q, 32) == q * 0x1_0000_0000
  {
    hide Shl;
    Shift8(q);
    Shift8(q * 0x100);
    ShlAdd(q, 8, 8);
    Shift8(q * 0x1_0000);
    ShlAdd(q, 16, 8);
    Shift8(q * 0x100_0000);
    ShlAdd(q, 24, 8);
  }

  lemma {:induction false} Shift8(q: nat)
    ensures Shl(q, 8) == q * 0x100
  {
    hide Shl;
    ShlValues(q);
    ShlValues(16 * q);
    ShlAdd(q, 4, 4);
  }

  /** The fraction cut off in two steps is the fraction cut off in one. */
  lemma FractionOnce(r: nat)
    requires r < NANOS
    ensures r * 0x1_0000_0000 / NANOS / 0x4000 == r * 0x4_0000 / NANOS < 0x4_0000
  {
    var (k, m) := (r * 0x4_0000 / NANOS, r * 0x4_0000 % NANOS);
    assert r * 0x1_0000_0000 == (k * 0x4000) * NANOS + m * 0x4000;
    var low := m * 0x4000 / NANOS;
    assert low < 0x4000;
    assert r * 0x1_0000_0000 / NANOS == k * 0x4000 + low;
  }

  lemma TicksSplit(u: nat)
    ensures Ticks(u) == (u / NANOS + NTP_EPOCH) * 0x4_0000 + u % NANOS * 0x4_0000 / NANOS
  {
    var (q, r) := (u / NANOS, u % NANOS);
    assert (u + NTP_EPOCH * NANOS) * 0x4_0000 == (q + NTP_EPOCH) * 0x4_0000 * NANOS + r * 0x4_0000;
  }

  /** A receiver finds the low four bits of the number, the length of three bytes, and the NTP time modulo
      64 seconds. */
  lemma ExtensionReads(number: int, u: uint64)
    ensures var e := Extension(number, u);
            e[0] / 16 == number % 16 && e[0] % 16 + 1 == |e[1..]| &&
            De24(e[1..]) == Ticks(u) % FIELD
  {
    hide Or, NtpTime, De24, Be24, Ticks;
    NumberByte(number);
    TimeField(u);
    var (e, t) := (Extension(number, u), NtpTime(u) / 0x4000);
    ThreeBytes(t);
    assert e[1..] == Be24(t);
    Be24Inverse(t);
  }

  lemma ThreeBytes(t: nat)
    ensures Be24(t) == [t / 0x1_0000 % 0x100, t / 0x100 % 0x100, t % 0x100]
  {
  }

  lemma {:induction false} NumberByte(number: int)
    ensures var b := Byte(Or(number * 16 % 0x100, 2)); b / 16 == number % 16 && b % 16 == 2
  {
    hide Or;
    HighHalf(number);
    Or4(number % 16, 2);
    NibbleByte(number % 16);
  }

  lemma HighHalf(number: int)
    ensures number * 16 % 0x100 == 16 * (number % 16)
  {
    var d := number / 16;
    assert number * 16 == 0x100 * d + 16 * (number % 16);
  }

  lemma NibbleByte(n: nat)
    requires n < 16
    ensures var b := Byte(16 * n + 2); b / 16 == n && b % 16 == 2
  {
  }

  lemma TimeField(u: uint64)
    ensures NtpTime(u) / 0x4000 % FIELD == Ticks(u) % FIELD
  {
    hide NtpTime, Ticks;
    NtpTimeIs(u);
    FractionOnce(u % NANOS);
    TicksSplit(u);
    SecondsWrap(u / NANOS + NTP_EPOCH, u % NANOS * 0x1_0000_0000 / NANOS);
  }

  lemma SecondsWrap(s: nat, f: nat)
    requires f < 0x1_0000_0000
    ensures (s % 0x1_0000_0000 * 0x1_0000_0000 + f) / 0x4000 % FIELD == (s * 0x4_0000 + f / 0x4000) % FIELD
  {
    var t := s % 0x1_0000_0000;
    CutFraction(t, f);
    SixBits(t, f / 0x4000);
    SixBits(s, f / 0x4000);
    assert t % 64 == s % 64 by { SixOfMany(s); }
  }

  lemma CutFraction(t: nat, f: nat)
    ensures (t * 0x1_0000_0000 + f) / 0x4000 == t * 0x4_0000 + f / 0x4000
  {
    var (q, r) := (f / 0x4000, f % 0x4000);
    assert t * 0x1_0000_0000 + f == 0x4000 * (t * 0x4_0000 + q) + r;
  }

  lemma SixOfMany(s: nat)
    ensures s % 0x1_0000_0000 % 64 == s % 64
  {
    var (q, r) := (s / 0x1_0000_0000, s % 0x1_0000_0000);
    assert s == 64 * (q * 0x400_0000 + r / 64) + r % 64;
  }

  /** Of the seconds only six bits are kept. */
  lemma SixBits(s: nat, g: nat)
    requires g < 0x4_0000
    ensures (s * 0x4_0000 + g) % FIELD == s % 64 * 0x4_0000 + g
  {
    var (q, r) := (s / 64, s % 64);
    assert s == 64 * q + r;
    Unique(s * 0x4_0000 + g, FIELD, q, r * 0x4_0000 + g);
  }

  /** From two packets sent less than 64 seconds apart a receiver knows the time between them to less than
      2^-18 seconds, also where the field wraps around. */
  lemma ApartIs(number: int, u: uint64, v: uint64)
    requires u <= v && (v - u) * 0x4_0000 <= (FIELD - 1) * NANOS
    ensures var (a, b) := (De24(Extension(number, u)[1..]), De24(Extension(number, v)[1..]));
            -NANOS < (b - a) % FIELD * NANOS - (v - u) * 0x4_0000 < NANOS
  {
    hide Ticks, Extension, De24;
    ExtensionReads(number, u);
    ExtensionReads(number, v);
    TicksApart(u, v);
    DifferenceWraps(Ticks(u), Ticks(v));
  }

  lemma DifferenceWraps(a: nat, b: nat)
    ensures (b % FIELD - a % FIELD) % FIELD == (b - a) % FIELD
  {
  }

  lemma TicksApart(u: nat, v: nat)
    requires u <= v
    ensures Ticks(u) <= Ticks(v)
    ensures -NANOS < (Ticks(v) - Ticks(u)) * NANOS - (v - u) * 0x4_0000 < NANOS
  {
  }
}
