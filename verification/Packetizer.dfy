/** Cutting samples into numbered, time-stamped RTP packets (rtp/packetizer.go:50-118,
    rtp/sequencer.go:43-53, rtp/codecs/vp8_packet.go:15-65, rtp/codecs/g722_packet.go:7-22). */
module Packetizer {
  import opened Bits
  import opened H264Payload
  import AnnexB
  import Rtp
  import SendTime
  import opened Wrappers

  // ---- the VP8 and G.722 payloaders

  const VP8_HEADER := 1

  function Vp8From(payload: bytes, max: nat, i: nat): seq<bytes>
    requires max > 0 && i <= |payload|
    decreases |payload| - i
  {
    if i == |payload| then []
    else
      var size := Min(max, |payload| - i);
      [[if i == 0 then 0x10 else 0] + payload[i..i + size]] + Vp8From(payload, max, i + size)
  }

  function Vp8(mtu: int, payload: bytes): seq<bytes> {
    if mtu <= VP8_HEADER then [] else Vp8From(payload, mtu - VP8_HEADER, 0)
  }

  lemma {:induction false} Vp8Step(payload: bytes, max: nat, i: nat, before: seq<bytes>)
    requires max > 0 && i < |payload|
    ensures var size := Min(max, |payload| - i);
            before + Vp8From(payload, max, i) ==
              before + [[if i == 0 then 0x10 else 0] + payload[i..i + size]] + Vp8From(payload, max, i + size)
  {
    var size := Min(max, |payload| - i);
    var (f, rest) := ([if i == 0 then 0x10 else 0] + payload[i..i + size], Vp8From(payload, max, i + size));
    assert before + ([f] + rest) == before + [f] + rest;
  }

  lemma {:induction false} Vp8Done(payload: bytes, max: int)
    ensures max > 0 ==> Vp8From(payload, max, |payload|) == []
  {
  }

  /** A fragment behind its descriptor. */
  method MakeVp8(payload: bytes, first: bool, index: nat, size: nat) returns (f: bytes)
    requires index + size <= |payload|
    ensures f == [if first then 0x10 else 0] + payload[index..index + size]
  {
    var out := new byte[VP8_HEADER + size](_ => 0);
    if first {
      out[0] := 0x10;
    }
    forall k | 0 <= k < size {
      out[VP8_HEADER + k] := payload[index + k];
    }
    f := out[..];
  }

  method PayloadVp8(mtu: int, payload: bytes) returns (payloads: seq<bytes>)
    ensures payloads == Vp8(mtu, payload)
  {
    hide Vp8From;
    var maxFragmentSize := mtu - VP8_HEADER;
    var remaining, index := |payload|, 0;
    payloads := [];
    Vp8Done(payload, maxFragmentSize);
    if Min(maxFragmentSize, remaining) <= 0 {
      return;
    }
    while remaining > 0
      invariant 0 <= remaining && 0 <= index && index + remaining == |payload|
      invariant payloads + Vp8From(payload, maxFragmentSize, index) == Vp8From(payload, maxFragmentSize, 0)
    {
      var size := Min(maxFragmentSize, remaining);
      var out := MakeVp8(payload, remaining == |payload|, index, size);
      Vp8Step(payload, maxFragmentSize, index, payloads);
      payloads := payloads + [out];
      remaining := remaining - size;
      index := index + size;
    }
  }

  function G722(mtu: int, payload: bytes): seq<bytes>
    decreases |payload|
  {
    if mtu <= 0 then []
    else if |payload| <= mtu then [payload]
    else [payload[..mtu]] + G722(mtu, payload[mtu..])
  }

  method PayloadG722(mtu: int, payload: bytes) returns (out: seq<bytes>)
    ensures out == G722(mtu, payload)
  {
    out := [];
    if mtu <= 0 {
      return;
    }
    var left := payload;
    while |left| > mtu
      invariant out + G722(mtu, left) == G722(mtu, payload)
      decreases |left|
    {
      out := out + [left[..mtu]];
      left := left[mtu..];
    }
    out := out + [left];
  }

  /** The data of the fragments without the first n bytes of each, one after the other. */
  function Stripped(fs: seq<bytes>, n: nat): bytes {
    if fs == [] then [] else (if |fs[0]| < n then [] else fs[0][n..]) + Stripped(fs[1..], n)
  }

  lemma {:induction false} Vp8FromCarries(payload: bytes, max: nat, i: nat)
    requires max > 0 && i <= |payload|
    ensures var fs := Vp8From(payload, max, i);
            Stripped(fs, VP8_HEADER) == payload[i..] &&
            forall k :: 0 <= k < |fs| ==> 2 <= |fs[k]| <= max + 1 && (fs[k][0] == 0x10 <==> i == 0 && k == 0)
    decreases |payload| - i
  {
    if i < |payload| {
      var size := Min(max, |payload| - i);
      Vp8FromCarries(payload, max, i + size);
      var (first, tail) := ([if i == 0 then 0x10 else 0] + payload[i..i + size], Vp8From(payload, max, i + size));
      var fs := Vp8From(payload, max, i);
      assert fs[0] == first && fs[1..] == tail && first[1..] == payload[i..i + size];
      assert forall k :: 1 <= k < |fs| ==> fs[k] == tail[k - 1];
    }
  }

  /** A VP8 receiver that strips the descriptors gets the frame, and sees its start on the first packet
      alone. */
  lemma Vp8Carries(mtu: int, payload: bytes)
    requires mtu >= 2
    ensures var fs := Vp8(mtu, payload);
            Stripped(fs, VP8_HEADER) == payload &&
            forall k :: 0 <= k < |fs| ==> 2 <= |fs[k]| <= mtu && (fs[k][0] == 0x10 <==> k == 0)
  {
    Vp8FromCarries(payload, mtu - VP8_HEADER, 0);
  }

  lemma {:induction false} G722Carries(mtu: int, payload: bytes)
    requires mtu >= 1
    ensures var fs := G722(mtu, payload);
            Stripped(fs, 0) == payload && fs != [] &&
            (forall k :: 0 <= k < |fs| ==> |fs[k]| <= mtu) &&
            (forall k :: 0 <= k < |fs| - 1 ==> |fs[k]| == mtu)
    decreases |payload|
  {
    if |payload| <= mtu {
    } else {
      G722Carries(mtu, payload[mtu..]);
      var fs := G722(mtu, payload);
      assert fs[1..] == G722(mtu, payload[mtu..]);
      assert forall k :: 1 <= k < |fs| ==> fs[k] == fs[1..][k - 1];
    }
  }

  // ---- sequence numbers

  class Sequencer {
    var sequenceNumber: uint16
    var rollOverCount: nat

    /** The number of the last packet, counted without wrapping around. */
    ghost function Extended(): nat
      reads this
    {
      0x1_0000 * rollOverCount + sequenceNumber
    }

    constructor (s: uint16)
      ensures Extended() == (if s == 0 then 0xffff else s - 1)
    {
      sequenceNumber, rollOverCount := (s - 1) % 0x1_0000, 0;
    }

    method NextSequenceNumber() returns (n: uint16)
      modifies this
      ensures Extended() == old(Extended()) + 1 && n == Extended() % 0x1_0000 == sequenceNumber
    {
      sequenceNumber := (sequenceNumber + 1) % 0x1_0000;
      if sequenceNumber == 0 {
        rollOverCount := rollOverCount + 1;
      }
      n := sequenceNumber;
    }
  }

  // ---- the packetizer

  datatype Codec = CodecVP8 | CodecH264 | CodecG722

  /** sendTime is the number of the absolute send time extension; with 0 there is none. */
  datatype Config = Config(mtu: int, payloadType: byte, ssrc: uint32, codec: Codec, sendTime: int)

  function PayloadsFor(codec: Codec, mtu: int, payload: bytes): Payloads {
    match codec
    case CodecVP8 => Payloads(Vp8(mtu, payload))
    case CodecG722 => Payloads(G722(mtu, payload))
    case CodecH264 =>
      var units := AnnexB.Units(payload);
      if NoneEmpty(units) then Payloads(AllFragments(mtu, units)) else Panic
  }

  datatype Packet = Packet(header: Rtp.Header, payload: bytes)

  /** ext is the extended sequence number of the last packet sent. */
  datatype State = State(ext: nat, timestamp: uint32)

  /** now is what the clock says when the sample is packetized. */
  datatype Sample = Sample(payload: bytes, samples: uint32, now: uint64)

  const RTP_HEADER := 12

  /** The packets of one sample, the first one numbered ext + 1. */
  function Numbered(c: Config, ext: nat, ts: uint32, payloads: seq<bytes>): (r: seq<Packet>)
    ensures |r| == |payloads|
  {
    seq(|payloads|, i requires 0 <= i < |payloads| =>
      Packet(Rtp.Header(2, false, false, i == |payloads| - 1, c.payloadType, (ext + 1 + i) % 0x1_0000, ts, c.ssrc,
                        [], 0, []),
             payloads[i]))
  }

  const ONE_BYTE_HEADERS := 0xBEDE

  /** The last packet of a sample tells when it was sent. */
  function Timed(c: Config, now: uint64, ps: seq<Packet>): (r: seq<Packet>)
    ensures |r| == |ps|
  {
    if ps == [] || c.sendTime == 0 then ps
    else
      var last := ps[|ps| - 1];
      ps[|ps| - 1 := last.(header := last.header.(extension := true, profile := ONE_BYTE_HEADERS,
                                                  extPayload := SendTime.Extension(c.sendTime, now)))]
  }

  lemma TimedKeeps(c: Config, now: uint64, ps: seq<Packet>)
    requires forall k :: 0 <= k < |ps| ==> !ps[k].header.extension && (ps[k].header.marker <==> k == |ps| - 1)
    ensures var r := Timed(c, now, ps);
            forall k :: 0 <= k < |ps| ==>
              r[k].payload == ps[k].payload && r[k].header.sequenceNumber == ps[k].header.sequenceNumber &&
              r[k].header.timestamp == ps[k].header.timestamp && r[k].header.marker == ps[k].header.marker &&
              (r[k].header.extension <==> c.sendTime != 0 && k == |ps| - 1)
  {
  }

  datatype Outcome = Sent(packets: seq<Packet>, next: State) | Crash

  function Packetized(c: Config, s: State, sample: Sample): Outcome {
    if sample.payload == [] then Sent([], s)
    else
      match PayloadsFor(c.codec, c.mtu - RTP_HEADER, sample.payload)
      case Panic => Crash
      case Payloads(ps) =>
        Sent(Timed(c, sample.now, Numbered(c, s.ext, s.timestamp, ps)),
             State(s.ext + |ps|, (s.timestamp + sample.samples) % 0x1_0000_0000))
  }

  class PacketMaker {
    var config: Config
    const sequencer: Sequencer
    var timestamp: uint32

    ghost function Abs(): State
      reads this, sequencer
    {
      State(sequencer.Extended(), timestamp)
    }

    /** start is the random first time stamp. */
    constructor (c: Config, s: Sequencer, start: uint32)
      ensures config == c && sequencer == s && timestamp == start
    {
      config, sequencer, timestamp := c, s, start;
    }

    method EnableAbsSendTime(value: int)
      modifies this`config
      ensures config == old(config).(sendTime := value)
    {
      config := config.(sendTime := value);
    }

    method Payload(payload: bytes) returns (r: Payloads)
      ensures r == PayloadsFor(config.codec, config.mtu - RTP_HEADER, payload)
    {
      hide AnnexB.Units, AllFragments, NoneEmpty;
      match config.codec {
        case CodecVP8 =>
          var ps := PayloadVp8(config.mtu - RTP_HEADER, payload);
          r := Payloads(ps);
        case CodecG722 =>
          var ps := PayloadG722(config.mtu - RTP_HEADER, payload);
          r := Payloads(ps);
        case CodecH264 =>
          r := H264Payload.Payload(config.mtu - RTP_HEADER, payload);
      }
    }

    method Packetize(payload: bytes, samples: uint32, now: uint64) returns (ok: bool, packets: seq<Packet>)
      modifies this`timestamp, sequencer
      ensures match Packetized(config, old(Abs()), Sample(payload, samples, now))
              case Crash => !ok
              case Sent(ps, next) => ok && packets == ps && Abs() == next
    {
      hide PayloadsFor, Timed;
      ghost var before := Abs();
      if |payload| == 0 {
        return true, [];
      }
      var payloads := Payload(payload);
      if payloads.Panic? {
        return false, [];
      }
      var pps := payloads.packets;
      packets := [];
      for i := 0 to |pps|
        invariant sequencer.Extended() == before.ext + i && timestamp == before.timestamp
        invariant packets == Numbered(config, before.ext, before.timestamp, pps)[..i]
      {
        var number := sequencer.NextSequenceNumber();
        var h := Rtp.Header(2, false, false, i == |pps| - 1, config.payloadType, number, timestamp, config.ssrc,
                            [], 0, []);
        packets := packets + [Packet(h, pps[i])];
      }
      timestamp := (timestamp + samples) % 0x1_0000_0000;
      assert packets == Numbered(config, before.ext, before.timestamp, pps);
      packets := WithSendTime(packets, now);
      ok := true;
    }

    method WithSendTime(packets: seq<Packet>, now: uint64) returns (r: seq<Packet>)
      ensures r == Timed(config, now, packets)
    {
      r := packets;
      if |packets| != 0 && config.sendTime != 0 {
        var last := packets[|packets| - 1];
        var extension := SendTime.Extension(config.sendTime, now);
        r := packets[|packets| - 1 := last.(header := last.header.(
          extension := true, profile := ONE_BYTE_HEADERS, extPayload := extension))];
      }
    }
  }

  // ---- whole runs

  /** The packets of each sample, in order. */
  datatype Trace = Trace(batches: seq<seq<Packet>>, last: State) | Crashed

  function Run(c: Config, start: State, samples: seq<Sample>): (r: Trace)
    ensures r.Trace? ==> |r.batches| == |samples|
  {
    if samples == [] then Trace([], start)
    else
      var n := |samples| - 1;
      match Run(c, start, samples[..n])
      case Crashed => Crashed
      case Trace(batches, s) =>
        match Packetized(c, s, samples[n])
        case Crash => Crashed
        case Sent(ps, next) => Trace(batches + [ps], next)
  }

  function Flat(batches: seq<seq<Packet>>): seq<Packet> {
    if batches == [] then [] else Flat(batches[..|batches| - 1]) + batches[|batches| - 1]
  }

  /** The sample counts of all samples that are not empty. */
  function Elapsed(samples: seq<Sample>): nat {
    if samples == [] then 0
    else
      var s := samples[|samples| - 1];
      Elapsed(samples[..|samples| - 1]) + if s.payload == [] then 0 else s.samples
  }

  /** Over all packets of a run the sequence number counts by one modulo 2^16, and the roll-over count
      keeps what it loses. */
  lemma {:induction false} NumbersRise(c: Config, start: State, samples: seq<Sample>)
    ensures var r := Run(c, start, samples);
            r.Trace? ==>
              r.last.ext == start.ext + |Flat(r.batches)| &&
              forall k :: 0 <= k < |Flat(r.batches)| ==>
                Flat(r.batches)[k].header.sequenceNumber == (start.ext + 1 + k) % 0x1_0000
    decreases |samples|
  {
    hide Packetized;
    if samples == [] {
    } else {
      var n := |samples| - 1;
      NumbersRise(c, start, samples[..n]);
      var (before, r) := (Run(c, start, samples[..n]), Run(c, start, samples));
      if r.Trace? {
        assert r.batches[..n] == before.batches;
        BatchNumbered(c, before.last, samples[n]);
      }
    }
  }

  lemma BatchNumbered(c: Config, s: State, sample: Sample)
    ensures var r := Packetized(c, s, sample);
            r.Sent? ==>
              r.next.ext == s.ext + |r.packets| &&
              forall k :: 0 <= k < |r.packets| ==>
                r.packets[k].header.sequenceNumber == (s.ext + 1 + k) % 0x1_0000
  {
    hide PayloadsFor, Timed;
    KeepsAll(c, s, sample);
  }

  lemma KeepsAll(c: Config, s: State, sample: Sample)
    ensures var r := PayloadsFor(c.codec, c.mtu - RTP_HEADER, sample.payload);
            r.Payloads? ==>
              var ps := Numbered(c, s.ext, s.timestamp, r.packets);
              forall k :: 0 <= k < |ps| ==>
                var p := Timed(c, sample.now, ps)[k];
                p.payload == ps[k].payload && p.header.sequenceNumber == ps[k].header.sequenceNumber &&
                p.header.timestamp == ps[k].header.timestamp && p.header.marker == ps[k].header.marker &&
                (p.header.extension <==> c.sendTime != 0 && k == |ps| - 1)
  {
    hide PayloadsFor, Timed;
    var r := PayloadsFor(c.codec, c.mtu - RTP_HEADER, sample.payload);
    if r.Payloads? {
      TimedKeeps(c, sample.now, Numbered(c, s.ext, s.timestamp, r.packets));
    }
  }

  /** The stamp of a batch, and the marker on its last packet alone. */
  predicate Stamped(ps: seq<Packet>, ts: nat) {
    forall k :: 0 <= k < |ps| ==>
      ps[k].header.timestamp == ts % 0x1_0000_0000 && (ps[k].header.marker <==> k == |ps| - 1)
  }

  /** The last step of a run. */
  lemma {:induction false} RunStep(c: Config, start: State, samples: seq<Sample>)
    requires samples != [] && Run(c, start, samples).Trace?
    ensures var (before, r) := (Run(c, start, samples[..|samples| - 1]), Run(c, start, samples));
            before.Trace? &&
            var step := Packetized(c, before.last, samples[|samples| - 1]);
            step.Sent? && r == Trace(before.batches + [step.packets], step.next)
  {
    hide Packetized;
  }

  /** All packets of a sample carry the start plus the length of all earlier samples that were not
      empty, modulo 2^32, and the marker is on the last of them. */
  lemma {:induction false} StampsAdvance(c: Config, start: State, samples: seq<Sample>)
    ensures var r := Run(c, start, samples);
            r.Trace? ==>
              r.last.timestamp == (start.timestamp + Elapsed(samples)) % 0x1_0000_0000 &&
              forall j :: 0 <= j < |samples| ==> Stamped(r.batches[j], start.timestamp + Elapsed(samples[..j]))
    decreases |samples|
  {
    hide Packetized, Stamped;
    if samples == [] || Run(c, start, samples).Crashed? {
    } else {
      hide Run;
      var n := |samples| - 1;
      StampsAdvance(c, start, samples[..n]);
      RunStep(c, start, samples);
      var (before, r) := (Run(c, start, samples[..n]), Run(c, start, samples));
      BatchStamped(c, before.last, samples[n], start.timestamp + Elapsed(samples[..n]));
      PrefixesAgain(samples, n);
    }
  }

  lemma PrefixesAgain(samples: seq<Sample>, n: nat)
    requires n <= |samples|
    ensures forall j :: 0 <= j <= n ==> samples[..n][..j] == samples[..j]
  {
  }

  lemma BatchStamped(c: Config, s: State, sample: Sample, ts: nat)
    requires s.timestamp == ts % 0x1_0000_0000
    ensures var r := Packetized(c, s, sample);
            r.Sent? ==>
              Stamped(r.packets, ts) &&
              r.next.timestamp == (ts + if sample.payload == [] then 0 else sample.samples) % 0x1_0000_0000
  {
    hide PayloadsFor, Timed;
    KeepsAll(c, s, sample);
    AddModulo(ts, sample.samples);
  }

  lemma AddModulo(a: nat, b: nat)
    ensures (a % 0x1_0000_0000 + b) % 0x1_0000_0000 == (a + b) % 0x1_0000_0000
  {
  }

  /** What else every header of a run says: version 2, no padding and no contributing sources, the payload type and
      source of the packetizer; an extension only with the send time, on the last packet of a sample, in the form
      with one-byte headers. */
  predicate Plain(c: Config, p: Packet) {
    p.header.version == 2 && !p.header.padding && p.header.csrc == [] && p.header.payloadType == c.payloadType &&
    p.header.ssrc == c.ssrc &&
    if p.header.extension then c.sendTime != 0 && p.header.marker && p.header.profile == 0xBEDE &&
      |p.header.extPayload| == 4
    else p.header.profile == 0 && p.header.extPayload == []
  }

  lemma {:induction false} HeadersPlain(c: Config, start: State, samples: seq<Sample>)
    ensures var r := Run(c, start, samples);
            r.Trace? ==> forall k :: 0 <= k < |Flat(r.batches)| ==> Plain(c, Flat(r.batches)[k])
    decreases |samples|
  {
    hide Packetized, Plain;
    if samples == [] {
    } else {
      var n := |samples| - 1;
      HeadersPlain(c, start, samples[..n]);
      var (before, r) := (Run(c, start, samples[..n]), Run(c, start, samples));
      if r.Trace? {
        assert r.batches[..n] == before.batches;
        BatchPlain(c, before.last, samples[n]);
      }
    }
  }

  lemma BatchPlain(c: Config, s: State, sample: Sample)
    ensures var r := Packetized(c, s, sample);
            r.Sent? ==> forall k :: 0 <= k < |r.packets| ==> Plain(c, r.packets[k])
  {
    hide PayloadsFor, SendTime.Extension;
  }

  predicate AllWithin(fs: seq<bytes>, mtu: int) {
    forall k :: 0 <= k < |fs| ==> |fs[k]| <= mtu
  }

  lemma {:induction false} FragmentsWithin(mtu: int, units: seq<bytes>)
    requires NoneEmpty(units)
    ensures AllWithin(AllFragments(mtu, units), mtu)
    decreases |units|
  {
    hide Fragments;
    if units == [] {
    } else {
      var n := |units| - 1;
      FragmentsWithin(mtu, units[..n]);
      OneWithin(mtu, units[n]);
    }
  }

  lemma OneWithin(mtu: int, unit: bytes)
    requires unit != []
    ensures AllWithin(Fragments(mtu, unit), mtu)
  {
    hide FuasFrom, Shaped;
    if !Dropped(unit) && |unit| > mtu && mtu > FUA_HEADER {
      LongNalShaped(mtu, unit);
      ShapedWithin(Fragments(mtu, unit), mtu);
    }
  }

  lemma ShapedWithin(fs: seq<bytes>, mtu: nat)
    requires Shaped(fs, mtu, true)
    ensures AllWithin(fs, mtu)
  {
  }

  lemma PayloadsWithin(codec: Codec, mtu: int, payload: bytes)
    ensures var r := PayloadsFor(codec, mtu, payload); r.Payloads? ==> AllWithin(r.packets, mtu)
  {
    hide AnnexB.Units, AllFragments, Vp8From, G722, NoneEmpty;
    match codec
    case CodecVP8 =>
      if mtu >= 2 {
        Vp8Carries(mtu, payload);
      }
    case CodecG722 =>
      if mtu >= 1 {
        G722Carries(mtu, payload);
      } else {
        NoG722(mtu, payload);
      }
    case CodecH264 =>
      if NoneEmpty(AnnexB.Units(payload)) {
        FragmentsWithin(mtu, AnnexB.Units(payload));
      }
  }

  lemma {:induction false} NoG722(mtu: int, payload: bytes)
    requires mtu <= 0
    ensures G722(mtu, payload) == []
  {
  }

  /** Of every packet of a run, once marshalled, a receiver reads the header and payload back; it is not
      longer than the MTU, except that no room is left for a send time. */
  lemma {:induction false} PacketsFit(c: Config, start: State, samples: seq<Sample>)
    requires c.payloadType < 0x80
    ensures var r := Run(c, start, samples);
            r.Trace? ==> forall k :: 0 <= k < |Flat(r.batches)| ==>
              ReadsBack(Flat(r.batches)[k]) && FitsIff(Flat(r.batches)[k], c.mtu)
    decreases |samples|
  {
    hide Packetized, ReadsBack, FitsIff;
    if samples == [] {
    } else {
      var n := |samples| - 1;
      PacketsFit(c, start, samples[..n]);
      var (before, r) := (Run(c, start, samples[..n]), Run(c, start, samples));
      if r.Trace? {
        assert r.batches[..n] == before.batches;
        BatchFits(c, before.last, samples[n]);
      }
    }
  }

  predicate ReadsBack(p: Packet) {
    Rtp.Parse(Rtp.HeaderBytes(p.header) + p.payload, Rtp.NO_HEADER) ==
      Rtp.Parsed(p.header, if p.header.extension then RTP_HEADER + SEND_TIME else RTP_HEADER)
  }

  const SEND_TIME := 8

  predicate Within(p: Packet, mtu: int) { |Rtp.HeaderBytes(p.header) + p.payload| <= mtu }

  predicate FitsIff(p: Packet, mtu: int) {
    Within(p, mtu) <==> (p.header.extension ==> |p.payload| + RTP_HEADER + SEND_TIME <= mtu)
  }

  lemma BatchFits(c: Config, s: State, sample: Sample)
    ensures var r := Packetized(c, s, sample);
            r.Sent? ==> forall k :: 0 <= k < |r.packets| ==>
              FitsIff(r.packets[k], c.mtu) && (c.payloadType < 0x80 ==> ReadsBack(r.packets[k]))
  {
    hide PayloadsFor, ReadsBack, FitsIff, Timed;
    PayloadsWithin(c.codec, c.mtu - RTP_HEADER, sample.payload);
    var r := Packetized(c, s, sample);
    if r.Sent? && sample.payload != [] {
      var ps := Numbered(c, s.ext, s.timestamp, PayloadsFor(c.codec, c.mtu - RTP_HEADER, sample.payload).packets);
      forall k | 0 <= k < |ps|
        ensures FitsIff(r.packets[k], c.mtu) && (c.payloadType < 0x80 ==> ReadsBack(r.packets[k]))
      {
        PacketFits(c, sample.now, ps, k);
        if c.payloadType < 0x80 {
          PacketReads(c, sample.now, ps, k);
        }
      }
    }
  }

  lemma PacketFits(c: Config, now: uint64, ps: seq<Packet>, k: nat)
    requires k < |ps| && |ps[k].payload| <= c.mtu - RTP_HEADER
    requires !ps[k].header.extension && ps[k].header.csrc == []
    ensures FitsIff(Timed(c, now, ps)[k], c.mtu)
  {
    hide Rtp.HeaderBytes;
    assert Rtp.MarshalSize(Timed(c, now, ps)[k].header) <= RTP_HEADER + SEND_TIME;
  }

  lemma PacketReads(c: Config, now: uint64, ps: seq<Packet>, k: nat)
    requires k < |ps| && Rtp.WellFormed(ps[k].header) && !ps[k].header.extension && ps[k].header.csrc == []
    ensures ReadsBack(Timed(c, now, ps)[k])
  {
    hide Rtp.Parse, Rtp.HeaderBytes;
    var p := Timed(c, now, ps)[k];
    Rtp.HeaderRoundTrip(p.header, p.payload);
  }

  predicate AllFit(ps: seq<Packet>, mtu: int) {
    forall k :: 0 <= k < |ps| ==> Within(ps[k], mtu)
  }

  /** The packets of a sample all fit exactly if there is no send time or the last payload leaves room. */
  lemma BatchWithin(c: Config, s: State, sample: Sample)
    requires Packetized(c, s, sample).Sent?
    ensures var ps := Packetized(c, s, sample).packets;
            AllFit(ps, c.mtu) <==>
              c.sendTime == 0 || ps == [] || |ps[|ps| - 1].payload| + RTP_HEADER + SEND_TIME <= c.mtu
  {
    hide PayloadsFor, ReadsBack, Timed, Within;
    BatchFits(c, s, sample);
    KeepsAll(c, s, sample);
  }

  /** Anything of a unit is sent. */
  predicate Yields(mtu: int, u: bytes)
    requires u != []
  {
    !Dropped(u) && (|u| <= mtu || mtu > FUA_HEADER)
  }

  /** The length of the last payload that a list of units leads to. */
  function LastOfUnits(mtu: int, units: seq<bytes>): Option<nat>
    requires NoneEmpty(units)
  {
    if units == [] then None
    else
      var u := units[|units| - 1];
      if !Yields(mtu, u) then LastOfUnits(mtu, units[..|units| - 1])
      else if |u| <= mtu then Some(|u|)
      else Some((|u| - 2) % (mtu - FUA_HEADER) + 1 + FUA_HEADER)
  }

  /** The length of the last payload of a sample, of whatever codec. */
  function LastSize(c: Config, payload: bytes): Option<nat> {
    var mtu := c.mtu - RTP_HEADER;
    if payload == [] then None
    else
      match c.codec
      case CodecVP8 =>
        if mtu <= VP8_HEADER then None else Some((|payload| - 1) % (mtu - VP8_HEADER) + 1 + VP8_HEADER)
      case CodecG722 => if mtu <= 0 then None else Some((|payload| - 1) % mtu + 1)
      case CodecH264 =>
        var units := AnnexB.Units(payload);
        if NoneEmpty(units) then LastOfUnits(mtu, units) else None
  }

  /** The input decides, for every codec: a sample is packetized unless it is an H.264 stream with an empty
      unit, and its packets all fit exactly if there is no send time or the last payload leaves room. */
  lemma SampleWithin(c: Config, s: State, sample: Sample)
    ensures var (n, r) := (LastSize(c, sample.payload), Packetized(c, s, sample));
            (r.Crash? <==> c.codec == CodecH264 && sample.payload != [] && !NoneEmpty(AnnexB.Units(sample.payload))) &&
            (r.Sent? ==>
              (AllFit(r.packets, c.mtu) <==>
                c.sendTime == 0 || n.None? || n.value + RTP_HEADER + SEND_TIME <= c.mtu))
  {
    hide Timed, AllFit, Vp8, G722, AnnexB.Units, AllFragments, NoneEmpty, LastSize;
    if Packetized(c, s, sample).Sent? {
      BatchWithin(c, s, sample);
      if sample.payload != [] {
        KeepsAll(c, s, sample);
      }
      LastLength(c, sample.payload);
    }
  }

  lemma LastLength(c: Config, payload: bytes)
    requires payload != [] ==> PayloadsFor(c.codec, c.mtu - RTP_HEADER, payload).Payloads?
    ensures payload == [] ==> LastSize(c, payload) == None
    ensures payload != [] ==>
      var fs := PayloadsFor(c.codec, c.mtu - RTP_HEADER, payload).packets;
      LastSize(c, payload) == if fs == [] then None else Some(|fs[|fs| - 1]|)
  {
    hide Vp8From, G722, AnnexB.Units, AllFragments, NoneEmpty, LastOfUnits;
    var mtu := c.mtu - RTP_HEADER;
    if payload != [] {
      match c.codec
      case CodecVP8 =>
        if mtu > VP8_HEADER {
          LastVp8(payload, mtu - VP8_HEADER, 0);
        }
      case CodecG722 =>
        if mtu > 0 {
          LastG722(mtu, payload);
        } else {
          NoG722(mtu, payload);
        }
      case CodecH264 => LastFragment(mtu, AnnexB.Units(payload));
    }
  }

  lemma {:induction false} LastFragment(mtu: int, units: seq<bytes>)
    requires NoneEmpty(units)
    ensures var fs := AllFragments(mtu, units);
            LastOfUnits(mtu, units) == if fs == [] then None else Some(|fs[|fs| - 1]|)
    decreases |units|
  {
    hide FuasFrom, Dropped;
    if units == [] {
    } else {
      var n := |units| - 1;
      LastFragment(mtu, units[..n]);
      if Yields(mtu, units[n]) && |units[n]| > mtu {
        LastFua(units[n], mtu - FUA_HEADER, 1);
      }
    }
  }

  lemma {:induction false} LastFua(nalu: bytes, max: nat, i: nat)
    requires max > 0 && 1 <= i < |nalu|
    ensures var fs := FuasFrom(nalu, max, i);
            fs != [] && |fs[|fs| - 1]| == (|nalu| - i - 1) % max + 1 + FUA_HEADER
    decreases |nalu| - i
  {
    hide Fua;
    if |nalu| - i <= max {
      Small(|nalu| - i - 1, max);
      assert FuasFrom(nalu, max, |nalu|) == [];
    } else {
      LastFua(nalu, max, i + max);
      SkipOne(|nalu| - i - 1, max);
    }
  }

  lemma {:induction false} LastG722(mtu: int, payload: bytes)
    requires mtu > 0 && payload != []
    ensures var fs := G722(mtu, payload); fs != [] && |fs[|fs| - 1]| == (|payload| - 1) % mtu + 1
    decreases |payload|
  {
    if |payload| <= mtu {
      Small(|payload| - 1, mtu);
    } else {
      LastG722(mtu, payload[mtu..]);
      SkipOne(|payload| - 1, mtu);
    }
  }

  lemma {:induction false} LastVp8(payload: bytes, max: nat, i: nat)
    requires max > 0 && i < |payload|
    ensures var fs := Vp8From(payload, max, i); fs != [] && |fs[|fs| - 1]| == (|payload| - i - 1) % max + 2
    decreases |payload| - i
  {
    if i + max < |payload| {
      LastVp8(payload, max, i + max);
      SkipOne(|payload| - i - 1, max);
    } else {
      Small(|payload| - i - 1, max);
      assert Vp8From(payload, max, |payload|) == [];
    }
  }

  lemma Small(n: nat, m: nat)
    requires n < m
    ensures n % m == n
  {
  }

  lemma SkipOne(n: nat, m: nat)
    requires 0 < m <= n
    ensures (n - m) % m == n % m
  {
    var (q, r) := (n / m, n % m);
    assert q == 0 ==> n == r;
    assert n - m == m * (q - 1) + r;
    Unique(n - m, m, q - 1, r);
  }

  /** With a send time a sample that fills its last packet makes that packet eight bytes too long. */
  lemma TimedTooLong(s: State, payload: bytes, now: uint64)
    requires |payload| == 100
    ensures var r := Packetized(Config(112, 9, 0, CodecG722, 1), s, Sample(payload, 100, now));
            r.Sent? && |r.packets| == 1 &&
            |Rtp.HeaderBytes(r.packets[0].header) + r.packets[0].payload| == 120
  {
    assert G722(100, payload) == [payload];
    var r := Packetized(Config(112, 9, 0, CodecG722, 1), s, Sample(payload, 100, now));
    assert Rtp.MarshalSize(r.packets[0].header) == 20;
  }

  /** And so with one H.264 slice of the size of the room. */
  lemma TimedSliceTooLong(s: State, slice: bytes, now: uint64)
    requires |slice| == 100 && slice[0] % 32 == 1 && !AnnexB.HasCode(slice)
    ensures var r := Packetized(Config(112, 96, 0, CodecH264, 1), s, Sample(slice, 3000, now));
            r.Sent? && |r.packets| == 1 &&
            |Rtp.HeaderBytes(r.packets[0].header) + r.packets[0].payload| == 120
  {
    hide AnnexB.Code;
    assert AnnexB.Units(slice) == [slice];
    assert AllFragments(100, [slice][..0]) == [];
    assert AllFragments(100, [slice]) == [slice];
    var r := Packetized(Config(112, 96, 0, CodecH264, 1), s, Sample(slice, 3000, now));
    assert Rtp.MarshalSize(r.packets[0].header) == 20;
  }

  function PayloadsIn(ps: seq<Packet>): (r: seq<bytes>)
    ensures |r| == |ps|
  {
    seq(|ps|, i requires 0 <= i < |ps| => ps[i].payload)
  }

  /** A receiver recovers each sample from its packets: a VP8 or G.722 frame whole, and of an H.264 stream
      the NAL units that are sent, unchanged exactly if every fragmented one has its forbidden-zero bit
      clear. */
  lemma SampleDelivered(c: Config, s: State, sample: Sample)
    requires c.mtu >= 15 && sample.payload != [] && Packetized(c, s, sample).Sent?
    ensures var ps := PayloadsIn(Packetized(c, s, sample).packets);
            match c.codec
            case CodecVP8 => Stripped(ps, VP8_HEADER) == sample.payload
            case CodecG722 => Stripped(ps, 0) == sample.payload
            case CodecH264 =>
              var units := AnnexB.Units(sample.payload);
              AllOrdinary(units) ==>
                NoneEmpty(units) &&
                (Receive(ps, Receiver([], [])) == Receiver(H264Payload.Sent(units), []) <==>
                  forall i :: 0 <= i < |units| ==> Clear(c.mtu - RTP_HEADER, units[i]))
  {
    hide AnnexB.Units, AllFragments, Receive, Vp8, G722, Stripped, H264Payload.Sent, NoneEmpty, Clear, AllOrdinary,
         Timed;
    KeepsAll(c, s, sample);
    var mtu := c.mtu - RTP_HEADER;
    assert PayloadsIn(Packetized(c, s, sample).packets) == PayloadsFor(c.codec, mtu, sample.payload).packets;
    match c.codec
    case CodecVP8 => Vp8Carries(mtu, sample.payload);
    case CodecG722 => G722Carries(mtu, sample.payload);
    case CodecH264 =>
      if AllOrdinary(AnnexB.Units(sample.payload)) {
        StreamReceived(mtu, sample.payload);
      }
  }
}
