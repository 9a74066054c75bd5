/** Packets as they travel between the protocol handlers (av/av.go), and the byte buffer they are
    written to. */
module Av {
  import opened Bits

  /** What a container demuxer learned about the codec data of a packet. */
  datatype Header =
    | NoHeader
    | VideoHeader(isKeyFrame: bool, isSeq: bool, codecID: byte, compositionTime: int)
    | AudioHeader(soundFormat: byte, aacPacketType: byte)

  datatype Packet = Packet(isAudio: bool, isVideo: bool, isMetadata: bool, timeStamp: uint32, header: Header,
                           data: bytes)

  const SOUND_AAC: byte := 10
  const AAC_SEQHDR: byte := 0
  const VIDEO_H264: byte := 7

  /** A bytes.Buffer that is only appended to and emptied. */
  class Buffer {
    var data: bytes

    constructor ()
      ensures data == []
    {
      data := [];
    }

    method Write(s: bytes)
      modifies this
      ensures data == old(data) + s
    {
      data := data + s;
    }

    method Reset()
      modifies this
      ensures data == []
    {
      data := [];
    }
  }
}
