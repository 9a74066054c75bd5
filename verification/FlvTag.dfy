/** Taking the FLV tag header off the data of a packet (container/flv/tag.go:134-181, demuxer.go:27-44). */
module FlvTag {
  import opened Bits
  import opened Av

  const FRAME_KEY: byte := 1
  const FRAME_INTER: byte := 2
  const AVC_SEQHDR: byte := 0

  /** The header found and the data behind it; an end-of-sequence mark; data too short to hold a header; an
      index out of range. */
  datatype Demuxed = Found(header: Header, data: bytes) | EndOfSequence | TooShort | Panic

  function VideoOf(b: bytes): Demuxed {
    if |b| < 5 then TooShort
    else
      var (frameType, codecID) := (b[0] / 16, b[0] % 16);
      var isFrame := frameType == FRAME_KEY || frameType == FRAME_INTER;
      if b[0] == 0x17 && b[1] == 2 then EndOfSequence
      else
        Found(VideoHeader(frameType == FRAME_KEY, frameType == FRAME_KEY && b[1] == AVC_SEQHDR, codecID,
                          if isFrame then De24(b[2..]) else 0),
              if isFrame then b[5..] else b[1..])
  }

  function AudioOf(b: bytes): Demuxed {
    if b == [] then TooShort
    else if b[0] / 16 != SOUND_AAC then Found(AudioHeader(b[0] / 16, 0), b[1..])
    else if |b| < 2 then Panic
    else Found(AudioHeader(SOUND_AAC, b[1]), b[2..])
  }

  function HeaderOf(b: bytes, isVideo: bool): Demuxed { if isVideo then VideoOf(b) else AudioOf(b) }

  class Tag {
    var soundFormat: byte
    var aacPacketType: byte
    var frameType: byte
    var codecID: byte
    var avcPacketType: byte
    var compositionTime: int

    constructor ()
      ensures soundFormat == aacPacketType == frameType == codecID == avcPacketType == 0 && compositionTime == 0
    {
      soundFormat, aacPacketType, frameType, codecID, avcPacketType, compositionTime := 0, 0, 0, 0, 0, 0;
    }

    ghost function AsHeader(isVideo: bool): Header
      reads this
    {
      if isVideo then
        VideoHeader(frameType == FRAME_KEY, frameType == FRAME_KEY && avcPacketType == AVC_SEQHDR, codecID,
                    compositionTime)
      else AudioHeader(soundFormat, aacPacketType)
    }

    method ParseAudioHeader(b: bytes) returns (r: Demuxed)
      requires aacPacketType == codecID == 0
      modifies this
      ensures r == AudioOf(b) && codecID == 0
      ensures r.Found? ==> r.header == AsHeader(false)
    {
      if |b| < 1 {
        return TooShort;
      }
      soundFormat := b[0] / 16;
      var n := 1;
      if soundFormat == SOUND_AAC {
        if |b| < 2 {
          return Panic;
        }
        aacPacketType := b[1];
        n := n + 1;
      }
      r := Found(AudioHeader(soundFormat, aacPacketType), b[n..]);
    }

    /** The end-of-sequence mark is not looked for here. */
    method ParseVideoHeader(b: bytes) returns (n: nat, ok: bool)
      requires avcPacketType == 0 && compositionTime == 0
      modifies this
      ensures ok == (|b| >= 5)
      ensures ok ==> codecID == b[0] % 16 && n <= |b|
      ensures ok && !(b[0] == 0x17 && b[1] == 2) ==> VideoOf(b) == Found(AsHeader(true), b[n..])
    {
      if |b| < 5 {
        return 0, false;
      }
      frameType, codecID := b[0] / 16, b[0] % 16;
      n, ok := 1, true;
      if frameType == FRAME_INTER || frameType == FRAME_KEY {
        avcPacketType := b[1];
        for i := 2 to 5
          invariant frameType == b[0] / 16 && codecID == b[0] % 16 && avcPacketType == b[1]
          invariant i == 2 ==> compositionTime == 0
          invariant i == 3 ==> compositionTime == b[2] as int
          invariant i == 4 ==> compositionTime == b[2] as int * 0x100 + b[3] as int
          invariant i == 5 ==> compositionTime == De24(b[2..])
        {
          compositionTime := compositionTime * 0x100 + b[i] as int;
        }
        n := n + 4;
      }
    }
  }

  class Demuxer {
    constructor () {}

    method Demux(b: bytes, isVideo: bool) returns (r: Demuxed)
      ensures r == HeaderOf(b, isVideo)
    {
      var tag := new Tag();
      if isVideo {
        var n, ok := tag.ParseVideoHeader(b);
        if !ok {
          return TooShort;
        }
        if tag.codecID == VIDEO_H264 && b[0] == 0x17 && b[1] == 0x02 {
          return EndOfSequence;
        }
        return Found(VideoHeader(tag.frameType == FRAME_KEY,
                                 tag.frameType == FRAME_KEY && tag.avcPacketType == AVC_SEQHDR, tag.codecID,
                                 tag.compositionTime),
                     b[n..]);
      }
      r := tag.ParseAudioHeader(b);
    }
  }

  // ---- what a sender has written

  /** The header of an AVC packet as the FLV specification has it (section E.4.3.1): frame type and codec, the
      kind of packet, and the composition time as a signed number of 24 bits. */
  function AvcHeader(frameType: byte, packetType: byte, compositionTime: int): bytes
    requires 1 <= frameType <= 2
  {
    [frameType * 16 + 7, packetType] + Be24(compositionTime % 0x100_0000)
  }

  /** Everything but the composition time is found as it was sent, and that exactly if it is not negative:
      its sign is lost. */
  lemma AvcReads(frameType: byte, packetType: byte, compositionTime: int, data: bytes)
    requires 1 <= frameType <= 2 && packetType < 2 && -0x80_0000 <= compositionTime < 0x80_0000
    ensures var r := VideoOf(AvcHeader(frameType, packetType, compositionTime) + data);
            r.Found? && r.data == data &&
            r.header == VideoHeader(frameType == 1, frameType == 1 && packetType == 0, 7,
                                    compositionTime % 0x100_0000) &&
            (r.header.compositionTime == compositionTime <==> compositionTime >= 0)
  {
    hide Be24, De24;
    var t := compositionTime % 0x100_0000;
    var b := AvcHeader(frameType, packetType, compositionTime) + data;
    Be24Inverse(t);
    De24Prefix(b[2..]);
    assert b[2..][..3] == Be24(t) && b[5..] == data;
  }

  /** The end-of-sequence mark is one of a keyframe. */
  lemma AvcEnds(compositionTime: int, data: bytes)
    ensures VideoOf(AvcHeader(1, 2, compositionTime) + data) == EndOfSequence
    ensures VideoOf(AvcHeader(2, 2, compositionTime) + data) ==
      Found(VideoHeader(false, false, 7, compositionTime % 0x100_0000), data)
  {
    hide Be24, De24;
    var t := compositionTime % 0x100_0000;
    var b := AvcHeader(2, 2, compositionTime) + data;
    Be24Inverse(t);
    De24Prefix(b[2..]);
    assert b[2..][..3] == Be24(t) && b[5..] == data;
  }

  /** Frames that are neither key nor inter frames have a header of one byte. */
  lemma OtherReads(frameType: byte, codecID: byte, data: bytes)
    requires 2 < frameType < 16 && codecID < 16 && |data| >= 4
    ensures VideoOf([frameType * 16 + codecID] + data) == Found(VideoHeader(false, false, codecID, 0), data)
  {
    Unique(frameType * 16 + codecID, 16, frameType, codecID);
    assert ([frameType * 16 + codecID] + data)[1..] == data;
  }

  /** Sound has a header of one byte with the format in its upper half, and AAC the kind of packet behind it. */
  lemma AudioReads(format: byte, low: byte, data: bytes)
    requires format < 16 && low < 16
    ensures format != 10 ==> AudioOf([format * 16 + low] + data) == Found(AudioHeader(format, 0), data)
    ensures format == 10 && data != [] ==>
      AudioOf([format * 16 + low] + data) == Found(AudioHeader(10, data[0]), data[1..])
  {
    Unique(format * 16 + low, 16, format, low);
    assert ([format * 16 + low] + data)[1..] == data;
    if data != [] {
      assert ([format * 16 + low] + data)[2..] == data[1..];
    }
  }

  /** A B-frame shown one millisecond earlier than it is decoded comes out as shown more than four hours later. */
  lemma NegativeOffsetLost(data: bytes)
    ensures VideoOf(AvcHeader(FRAME_INTER, 1, -1) + data) ==
      Found(VideoHeader(false, false, VIDEO_H264, 0xff_ffff), data)
  {
    AvcReads(FRAME_INTER, 1, -1, data);
  }
}
