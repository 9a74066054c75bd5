/** AAC frames in ADTS form (parser/aac/parser.go; ISO/IEC 14496-3, section 1.A.3.2). */
module Aac {
  import opened Bits
  import opened Av

  const AAC_RAW: byte := 1
  const AAC_RATES: seq<nat> := [96000, 88200, 64000, 48000, 44100, 32000, 24000, 22050, 16000, 12000, 11025, 8000, 7350]

  datatype Error = NoError | SpecificBufInvalid | AudioBufInvalid

  /** The configuration a sequence header carries. */
  datatype Config = NoConfig | Config(objectType: byte, sampleRate: byte, channel: byte)

  predicate IsConfig(c: Config) {
    c.Config? ==> c.objectType < 32 && c.sampleRate < 16 && c.channel < 16
  }

  function ReadConfig(src: bytes): (c: Config)
    requires |src| >= 2
    ensures IsConfig(c) && c.Config?
  {
    Config(src[0] / 8, src[0] % 8 * 2 + src[1] / 0x80, src[1] / 8 % 16)
  }

  /** Five bits of the object type, four of the sample rate and four of the channels, as section 1.6.2.1 of
      ISO/IEC 14496-3 has them, with anything behind them. */
  lemma SpecificReads(objectType: byte, sampleRate: byte, channel: byte, low: byte, rest: bytes)
    requires objectType < 32 && sampleRate < 16 && channel < 16 && low < 8
    ensures ReadConfig([objectType * 8 + sampleRate / 2, sampleRate % 2 * 0x80 + channel * 8 + low] + rest) ==
      Config(objectType, sampleRate, channel)
  {
    Unique(objectType * 8 + sampleRate / 2, 8, objectType, sampleRate / 2);
    Unique(sampleRate % 2 * 0x80 + channel * 8 + low, 0x80, sampleRate % 2, channel * 8 + low);
    Unique(sampleRate % 2 * 0x80 + channel * 8 + low, 8, sampleRate % 2 * 16 + channel, low);
  }

  /** Three rates, each halved three times, and 7350 Hz; 44100 Hz for other indices, and 96000 Hz before any
      configuration is known. */
  lemma RatesAre(i: byte)
    requires i < 16
    ensures var r := Rate(Config(2, i, 2));
            if i < 12 then
              var first := if i % 3 == 0 then 96000 else if i % 3 == 1 then 88200 else 64000;
              r == first / (if i / 3 == 0 then 1 else if i / 3 == 1 then 2 else if i / 3 == 2 then 4 else 8)
            else if i == 12 then r == 7350
            else r == 44100
    ensures Rate(NoConfig) == 96000
  {
    assert i in {0, 1, 2, 3, 4, 5, 6, 7, 8, 9, 10, 11, 12, 13, 14, 15};
  }

  function Rate(c: Config): nat {
    if c.Config? then (if c.sampleRate < 13 then AAC_RATES[c.sampleRate] else 44100) else 96000
  }

  /** The ADTS header in front of n bytes: the length field has 13 bits, the channel field keeps two. */
  function AdtsHeader(c: Config, n: nat): (s: bytes)
    requires c.Config? && IsConfig(c)
    ensures |s| == 7
  {
    var frameLen := (n + 7) % 0x1_0000;
    [0xff, 0xf1, (c.objectType + 3) % 4 * 0x40 + c.sampleRate * 4, c.channel % 4 * 0x40 + frameLen / 0x800 % 4,
     frameLen / 8 % 0x100, frameLen % 8 * 0x20 + 0x1f, 0xfc]
  }

  function AdtsFrame(c: Config, raw: bytes): bytes
    requires c.Config? && IsConfig(c)
  {
    AdtsHeader(c, |raw|) + raw
  }

  class Parser {
    var gettedSpecific: bool
    var objectType: byte
    var sampleRate: byte
    var channel: byte
    const adtsHeader: array<byte>

    ghost predicate Valid()
      reads this
    {
      adtsHeader.Length == 7 && objectType < 32 && sampleRate < 16 && channel < 16 &&
      (!gettedSpecific ==> objectType == sampleRate == channel == 0)
    }

    ghost function Current(): (c: Config)
      requires Valid()
      reads this
      ensures IsConfig(c)
    {
      if gettedSpecific then Config(objectType, sampleRate, channel) else NoConfig
    }

    constructor ()
      ensures Valid() && Current() == NoConfig && fresh(adtsHeader)
    {
      gettedSpecific := false;
      objectType, sampleRate, channel := 0, 0, 0;
      adtsHeader := new byte[7](_ => 0);
    }

    method SpecificInfo(src: bytes) returns (err: Error)
      requires Valid()
      modifies this`gettedSpecific, this`objectType, this`sampleRate, this`channel
      ensures Valid()
      ensures err == if |src| < 2 then SpecificBufInvalid else NoError
      ensures Current() == if |src| < 2 then old(Current()) else ReadConfig(src)
    {
      if |src| < 2 {
        return SpecificBufInvalid;
      }
      hide Or, Byte;
      gettedSpecific := true;
      objectType := src[0] / 8;
      OrBits(src[0] % 8, src[1] / 0x80);
      ByteIs(src[0] as int % 8 * 2 + src[1] as int / 0x80);
      sampleRate := Byte(Or(src[0] % 8 * 2, src[1] / 0x80));
      channel := src[1] / 8 % 16;
      err := NoError;
    }

    method Adts(src: bytes, w: Buffer) returns (err: Error)
      requires Valid()
      modifies adtsHeader, w
      ensures err == if |src| == 0 || Current().NoConfig? then AudioBufInvalid else NoError
      ensures w.data == old(w.data) + (if err.NoError? then AdtsFrame(Current(), src) else [])
    {
      if |src| <= 0 || !gettedSpecific {
        return AudioBufInvalid;
      }
      WriteHeader((|src| + 7) % 0x1_0000);
      w.Write(adtsHeader[..]);
      w.Write(src);
      err := NoError;
    }

    method WriteHeader(frameLen: nat)
      requires Valid() && gettedSpecific && frameLen < 0x1_0000
      modifies adtsHeader
      ensures forall n: nat :: (n + 7) % 0x1_0000 == frameLen ==> adtsHeader[..] == AdtsHeader(Current(), n)
    {
      hide Or, Byte;
      HeaderByte2(objectType, sampleRate);
      HeaderByte3(channel, frameLen);
      HeaderByte45(frameLen);
      adtsHeader[0] := 0xff;
      adtsHeader[1] := 0xf1;
      adtsHeader[2] := Byte(Or(Byte(Byte(objectType - 1) * 0x40), Byte(sampleRate * 4)));
      adtsHeader[3] := Byte(Or(Byte(Byte(channel * 4) * 0x10), frameLen * 8 % 0x1_0000 / 0x4000));
      adtsHeader[4] := Byte(frameLen * 0x20 % 0x1_0000 / 0x100);
      adtsHeader[5] := Byte(Or(Byte(frameLen * 0x2000 % 0x1_0000 / 0x2000 * 0x20), 0x1f));
      adtsHeader[6] := 0xfc;
    }

    method SampleRate() returns (rate: nat)
      requires Valid()
      ensures rate == Rate(Current()) > 0
    {
      rate := 44100;
      if sampleRate as int <= |AAC_RATES| - 1 {
        rate := AAC_RATES[sampleRate];
      }
    }
  }

  lemma {:induction false} OrBits(a: nat, b: nat)
    requires b < 2
    ensures Or(a * 2, b) == 2 * a + b
  {
    OrBit(a);
  }

  lemma HeaderByte2(objectType: nat, sampleRate: nat)
    requires objectType < 32 && sampleRate < 16
    ensures Byte(Or(Byte(Byte(objectType - 1) * 0x40), Byte(sampleRate * 4)))
         == (objectType + 3) % 4 * 0x40 + sampleRate * 4
  {
    hide Or, Byte;
    var p := (objectType + 3) % 4;
    Profile(objectType);
    ByteIs(sampleRate * 4);
    ByteIs(p * 0x40 + sampleRate * 4);
    Or6(p, sampleRate * 4);
  }

  lemma Profile(objectType: nat)
    requires objectType < 32
    ensures Byte(Byte(objectType - 1) * 0x40) == 0x40 * ((objectType + 3) % 4)
  {
  }

  lemma {:induction false} HeaderByte3(channel: nat, frameLen: nat)
    requires channel < 16 && frameLen < 0x1_0000
    ensures Byte(Or(Byte(Byte(channel * 4) * 0x10), frameLen * 8 % 0x1_0000 / 0x4000))
         == channel % 4 * 0x40 + frameLen / 0x800 % 4
  {
    hide Or, Byte;
    TopBits(frameLen);
    ChannelBits(channel);
    Or6(channel % 4, frameLen / 0x800 % 4);
    ByteIs(channel % 4 * 0x40 + frameLen / 0x800 % 4);
  }

  lemma ChannelBits(channel: nat)
    requires channel < 16
    ensures Byte(Byte(channel * 4) * 0x10) == 0x40 * (channel % 4)
  {
    ByteIs(channel * 4);
    var (q, r) := (channel / 4, channel % 4);
    assert channel * 4 * 0x10 == 0x100 * q + 0x40 * r;
  }

  /** Bits 11 and 12, bits 3 to 10 and bits 0 to 2 of a 16-bit number, cut out by shifting. */
  lemma TopBits(f: nat)
    requires f < 0x1_0000
    ensures f * 8 % 0x1_0000 / 0x4000 == f / 0x800 % 4
  {
    var q, r := f / 0x800, f % 0x800;
    Mod16(f * 8, q / 4, 0x4000 * (q % 4) + 8 * r);
  }

  lemma Mod16(x: nat, q: nat, r: nat)
    requires x == 0x1_0000 * q + r && r < 0x1_0000
    ensures x % 0x1_0000 == r
  {
  }

  lemma MiddleBits(f: nat)
    requires f < 0x1_0000
    ensures f * 0x20 % 0x1_0000 / 0x100 == f / 8 % 0x100
  {
    var q, r := f / 8, f % 8;
    Mod16(f * 0x20, q / 0x100, 0x100 * (q % 0x100) + 0x20 * r);
  }

  lemma LowBits(f: nat)
    requires f < 0x1_0000
    ensures f * 0x2000 % 0x1_0000 / 0x2000 == f % 8
  {
    Mod16(f * 0x2000, f / 8, 0x2000 * (f % 8));
  }

  lemma HeaderByte45(frameLen: nat)
    requires frameLen < 0x1_0000
    ensures Byte(frameLen * 0x20 % 0x1_0000 / 0x100) == frameLen / 8 % 0x100
    ensures Byte(Or(Byte(frameLen * 0x2000 % 0x1_0000 / 0x2000 * 0x20), 0x1f)) == frameLen % 8 * 0x20 + 0x1f
  {
    hide Or, Byte;
    MiddleBits(frameLen);
    LowBits(frameLen);
    ByteIs(frameLen / 8 % 0x100);
    ByteIs(frameLen % 8 * 0x20);
    ByteIs(frameLen % 8 * 0x20 + 0x1f);
    Or5(frameLen % 8, 0x1f);
  }

  // ---- a receiver

  function FrameLength(s: bytes): nat
    requires |s| >= 7
  {
    s[3] as int % 4 * 0x800 + s[4] as int * 8 + s[5] as int / 0x20
  }

  function ReadHeader(s: bytes): Config
    requires |s| >= 7
  {
    Config(s[2] / 0x40 + 1, s[2] / 4 % 16, s[2] % 2 * 4 + s[3] / 0x40)
  }

  predicate HasSync(s: bytes) {
    |s| >= 7 && s[0] == 0xff && s[1] / 0x10 == 0xf
  }

  /** Cuts a run of ADTS frames by their length fields; what cannot be cut is left out. */
  function Split(s: bytes): seq<bytes>
    decreases |s|
  {
    if !HasSync(s) || FrameLength(s) < 7 || FrameLength(s) > |s| then []
    else [s[7..FrameLength(s)]] + Split(s[FrameLength(s)..])
  }

  /** A raw frame and the configuration it was packed with. */
  datatype Unit = Unit(config: Config, raw: bytes)

  predicate AllConfigured(units: seq<Unit>) {
    forall i :: 0 <= i < |units| ==> units[i].config.Config? && IsConfig(units[i].config)
  }

  function Join(units: seq<Unit>): bytes
    requires AllConfigured(units)
  {
    if units == [] then [] else AdtsFrame(units[0].config, units[0].raw) + Join(units[1..])
  }

  function Raws(units: seq<Unit>): (r: seq<bytes>)
    ensures |r| == |units|
  {
    seq(|units|, i requires 0 <= i < |units| => units[i].raw)
  }

  /** What the header says about the frame behind it. */
  lemma HeaderReads(c: Config, n: nat)
    requires c.Config? && IsConfig(c)
    ensures var h := AdtsHeader(c, n);
            HasSync(h) && FrameLength(h) == (n + 7) % 0x2000 &&
            ReadHeader(h) == Config((c.objectType + 3) % 4 + 1, c.sampleRate, c.channel % 4)
  {
    LengthReads(c, n);
    ConfigReads(c, n);
  }

  lemma LengthReads(c: Config, n: nat)
    requires c.Config? && IsConfig(c)
    ensures FrameLength(AdtsHeader(c, n)) == (n + 7) % 0x2000
  {
    var f := (n + 7) % 0x1_0000;
    Mod13(n + 7);
    JoinBits(f);
    LowTwo(c.channel % 4, f / 0x800 % 4);
    TopThree(f % 8);
  }

  lemma ConfigReads(c: Config, n: nat)
    requires c.Config? && IsConfig(c)
    ensures ReadHeader(AdtsHeader(c, n)) == Config((c.objectType + 3) % 4 + 1, c.sampleRate, c.channel % 4)
  {
    ProfileBits((c.objectType + 3) % 4, c.sampleRate);
    LowTwo(c.channel % 4, (n + 7) % 0x1_0000 / 0x800 % 4);
  }

  lemma LowTwo(q: nat, x: nat)
    requires x < 4
    ensures (q * 0x40 + x) % 4 == x && (q * 0x40 + x) / 0x40 == q
  {
    Unique(q * 0x40 + x, 4, q * 0x10, x);
    Unique(q * 0x40 + x, 0x40, q, x);
  }

  lemma TopThree(y: nat)
    ensures (y * 0x20 + 0x1f) / 0x20 == y
  {
    Unique(y * 0x20 + 0x1f, 0x20, y, 0x1f);
  }

  lemma Mod13(m: nat)
    ensures m % 0x1_0000 % 0x2000 == m % 0x2000
  {
    assert m == 0x2000 * (8 * (m / 0x1_0000)) + m % 0x1_0000;
  }

  lemma JoinBits(f: nat)
    ensures f % 0x2000 == f / 0x800 % 4 * 0x800 + f / 8 % 0x100 * 8 + f % 8
  {
    var (q, h) := (f / 8, f / 0x2000);
    assert f == 8 * q + f % 8;
    assert q == 0x100 * (q / 0x100) + q % 0x100;
    assert q / 0x100 == f / 0x800 == 4 * h + f / 0x800 % 4;
    assert f == 0x2000 * h + (f / 0x800 % 4 * 0x800 + f / 8 % 0x100 * 8 + f % 8);
  }

  lemma ProfileBits(p: nat, r: nat)
    requires p < 4 && r < 16
    ensures (p * 0x40 + r * 4) / 0x40 == p && (p * 0x40 + r * 4) / 4 % 16 == r && (p * 0x40 + r * 4) % 2 == 0
  {
  }

  /** The decoder learns the configuration exactly for object types 1 to 4 and fewer than four channels. */
  lemma ConfigSurvives(c: Config, n: nat)
    requires c.Config? && IsConfig(c)
    ensures ReadHeader(AdtsHeader(c, n)) == c <==> 1 <= c.objectType <= 4 && c.channel < 4
  {
    hide AdtsHeader, ReadHeader;
    HeaderReads(c, n);
  }

  lemma {:induction false} JoinHead(units: seq<Unit>)
    requires AllConfigured(units)
    requires units != []
    ensures var s := Join(units);
            var h := AdtsHeader(units[0].config, |units[0].raw|);
            |s| >= 7 && HasSync(s) == HasSync(h) && FrameLength(s) == FrameLength(h)
  {
    hide AdtsHeader;
    var s := Join(units);
    assert s[..7] == AdtsHeader(units[0].config, |units[0].raw|);
  }

  lemma {:induction false} SplitOne(s: bytes, n: nat)
    requires HasSync(s) && FrameLength(s) == n + 7 <= |s|
    ensures Split(s) == [s[7..n + 7]] + Split(s[n + 7..])
  {
    hide HasSync, FrameLength;
  }

  lemma {:induction false} SplitIsShort(s: bytes)
    ensures Split(s) == [] || |Split(s)[0]| <= 8184
  {
  }

  /** The first frame is cut off whole if its length fits, and not otherwise. */
  lemma {:induction false} SplitHead(units: seq<Unit>)
    requires AllConfigured(units)
    requires units != []
    ensures var (s, u) := (Split(Join(units)), units[0]);
            if |u.raw| <= 8184 then s == [u.raw] + Split(Join(units[1..])) else s == [] || |s[0]| < |u.raw|
  {
    hide AdtsHeader, FrameLength, HasSync, Split;
    var u := units[0];
    var n := |u.raw|;
    var s := Join(units);
    HeaderReads(u.config, n);
    JoinHead(units);
    SplitIsShort(s);
    if n <= 8184 {
      assert s[7..n + 7] == u.raw;
      assert s[n + 7..] == Join(units[1..]);
      SplitOne(s, n);
    }
  }

  /** Splitting a run of frames gives back the raw frames exactly if none is longer than the 13-bit
      length field can say. */
  lemma {:induction false} SplitInvertsJoin(units: seq<Unit>)
    requires AllConfigured(units)
    ensures Split(Join(units)) == Raws(units) <==> forall i :: 0 <= i < |units| ==> |units[i].raw| <= 8184
    decreases |units|
  {
    hide AdtsHeader, Split, Join;
    if units == [] {
      assert Split(Join(units)) == [] by { EmptySplits(); }
    } else {
      var rest := units[1..];
      SplitHead(units);
      SplitInvertsJoin(rest);
      assert forall i :: 0 <= i < |rest| ==> rest[i] == units[i + 1];
      var (s, t) := (Split(Join(units)), Split(Join(rest)));
      if |units[0].raw| <= 8184 {
        assert Raws(units) == [units[0].raw] + Raws(rest);
        assert s[1..] == t && Raws(units)[1..] == Raws(rest);
        assert forall i :: 1 <= i < |units| ==> units[i] == rest[i - 1];
      }
    }
  }

  lemma EmptySplits()
    ensures Split(Join([])) == []
  {
  }
}
