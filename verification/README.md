# Verified model of the live-media server's codecs and state machines

Media arrives as RTMP, FLV or AMF and leaves as MPEG-TS/HLS, FLV or RTP. This project models the parts
between the sockets, in Dafny, and proves what they promise: that each writer is undone by a reader
written from the standard, and what every run of each state machine keeps.

The parts, and the files they are in:

- **MPEG-TS** (`Pes`, `TsFormat`, `Psi`, `TsMuxer`; receiver in `TsReader`; CRC in `Gf2`, `Crc32`).
  `TsMuxer.Muxer` is the muxer with its reused 188-byte buffer and its 8-bit offsets. What it writes is
  proved equal to a specification on byte strings, and a receiver that knows only ISO/IEC 13818-1 gets
  the PES packets back. The CRC loop is proved to be long division by the generator polynomial.
- **HLS** (`HlsCache`, `Segmenter`, `Spans`, `AudioStamps`, `Delivery`, `HlsSource`, `VideoSource`,
  `AudioSource`, `FlvTag`, `Aac`). `Segmenter` is the segmenter as a state machine over frames; its main
  theorems speak of all runs and of a receiver of everything published so far, those of `Spans` of a receiver
  that has a single segment, and those of `AudioStamps` of the times at which audio is played. `HlsSource` is
  the source's own form, objects with fields, proved to take exactly those steps; `FlvTag` takes the container
  header off. `Delivery`, `VideoSource` and `AudioSource` say in the fields of the packets, from those that
  arrive to the stamps, pictures and frames that a receiver reads, what all this amounts to.
- **H.264** (`AnnexB`, `H264`, `H264Payload`). Length-prefixed units become a byte stream, are scanned
  into units again, are fragmented for RTP, and are put together by a receiver written from RFC 6184.
- **RTP** (`Rtp`, `Packetizer`, `SendTime`). Header marshalling in both directions, runs of the packetizer, and
  the absolute send time extension.
- **AMF** (`Float64`, `Amf`, `Amf3`, `Amf3Codec`, `Amf0`, `Amf0Codec`, `AmfBatch`; other writers in `Wire0`,
  `Wire3`). The `Codec` modules
  hold the encoders and decoders as methods over a buffer and a reader; the others hold what is written
  and read, as functions, and the inverse theorems. A `Tree` is a value together with the order in which
  the keys of its objects are written, so a statement about all trees is one about all map orders. The `Wire`
  modules write every kind of value the decoders read as the specifications have it, also those that these
  encoders never write.
- **FLV** (`Flv`). The tag writer, and readers that go forwards and backwards through the file.
- **Signalling** (`Signaling`, `Transceivers`). One peer connection, two of them exchanging descriptions
  in any interleaving, and the choice of transceivers for an answer.
- **Packet queue** (`PacketQueue`, `PacketOrder`). The drop policy alone, and against a consumer that may run
  between any two channel operations: what is kept, when the producer stops, and in which order packets
  arrive.

`Wrappers` holds the option type. A byte is an integer in 0..255 (`Bits`); shifts are divisions, and bitwise
or is a function of its own, so that overlapping operands are not silently added. Where a property holds only
on a part of the inputs, the lemma is an equivalence with a condition on the input:

- a keyframe whose PES packet is shorter than 184 bytes arrives unchanged only if it has exactly 176 bytes;
  at 183 bytes its first packet loses the random-access flag and the clock reference, and from 178 to 182
  the clock reference is overwritten and right for some times only;
- `writeTs` brings a stamp into range by subtracting 2^33-1, so stamps of more than 33 bits come out one
  tick late;
- the sign of a composition time is lost, so that a frame shown before it is decoded comes out as one shown
  more than four hours later;
- of the configuration record everything behind the SPS is taken for the PPS, so that the right sets are found
  only if nothing follows the first PPS;
- the ADTS header keeps two bits of the channel configuration and 13 bits of the frame length;
- a segment cache loses items if a key comes again while its last use is among the three newest;
- AMF3 integers of the narrow kinds from 2^28 to 2^29-1 come back negative, because the decoder takes as
  signed what the encoder wrote as unsigned; larger ones and those of the wide kinds come back as doubles;
  AMF0 keys must have 1 to 65535 bytes;
- exactly the metadata marker is taken off only if it is an AMF0 short string, or an AMF3 string with its
  length in one byte: always 16 bytes go, and in every other encoding the marker takes another number;
- fragmenting a NAL unit clears its forbidden-zero bit;
- the absolute send time makes the last RTP packet of a sample longer than the MTU if its payload is not at
  least eight bytes short of full, which the input decides for each codec;
- an FLV file can be read forwards up to 24-bit sizes and backwards up to 32-bit sizes, and after
  `CalcBaseTimestamp` a tag is stamped no earlier than the newest audio and video tags unless the 32-bit sum
  wraps around;
- two crossing offers stay unanswered for good, since rollbacks are always refused; any other negotiation
  of two open sides can still end in agreement;
- the drop loop waits forever if the queue is empty when it receives, which takes a consumer that gets 61
  packets out while one packet is being written; the packets it keeps arrive in order until it takes one from
  the front of the queue while a different one is behind it.

## Model

| member | source | states |
|---|---|---|
| Crc32.GenCrc32 | container/ts/crc32.go:3-78 | the table-driven loop computes the remainder of the bit-by-bit long division by 0x04C11DB7 started from 0xFFFFFFFF |
| Crc32.CrcIsDivision | container/ts/crc32.go:69-78 | the shift-register form and the long division give the same remainder for every message |
| Crc32.TableIsCorrect | container/ts/crc32.go:4-67 | every one of the 256 table entries is the remainder of its index |
| Crc32.Residue | container/ts/muxer.go:179-187 | a receiver that runs the CRC over any section followed by its four CRC bytes gets 0 |
| Crc32.BurstDetected | container/ts/crc32.go:69-78 | two messages of equal length that differ within four consecutive bytes never have the same CRC |
| Pes.PesHeader.Packet | container/ts/muxer.go:291-341 | the in-place header code writes the header bytes of the specification and sets the number in use |
| Pes.WriteTs | container/ts/muxer.go:344-363 | exactly five bytes of the buffer change, to the time stamp field |
| Pes.TimeFieldReads | container/ts/muxer.go:344-363 | a receiver finds the prescribed prefix and marker bits and reads the stamp, one tick late beyond 33 bits |
| Pes.TimeIsExactWithin33Bits | container/ts/muxer.go:345-347 | the stamp is read back modulo 2^33 if and only if it is at most 2^33-1 |
| Pes.ParseInverts | container/ts/muxer.go:291-341 | a receiver gets back stream id, both stamps and the data; the length field is that of the packet, or 0 where it does not fit |
| TsFormat.PcrReads | container/ts/muxer.go:269-285 | the clock reference base is the given time modulo 2^33 |
| TsFormat.KeyCellReads | container/ts/muxer.go:74-126 | the first packet of a keyframe, as a receiver reads it, for every PES length: its payload always, its random-access flag and the presence of a clock reference if the PES does not have 183 bytes, and neither of them if it has |
| TsFormat.KeyClockReads | container/ts/muxer.go:93-126 | the clock base read from it is the time modulo 2^33 whenever the PES has at most 177 or at least 184 bytes |
| TsFormat.KeyClockIff | container/ts/muxer.go:93-126 | for every PES length: a receiver reads the right time from it if and only if the bytes of the clock that are overwritten agree with the start of the PES header by chance, spelled out for each of 178 to 182 bytes, and never at 183 |
| TsFormat.MuxedReceived | container/ts/muxer.go:57-156 | everything written for one PES packet is whole packets, adds one unit to a receiver and advances the counter by the number of packets without a gap |
| TsFormat.MuxedForOthers | container/ts/muxer.go:74-92 | a receiver of another PID sees nothing of it |
| TsFormat.DemuxUndoesMux | container/ts/muxer.go:33-158 | demuxing gives the PES packet back if and only if it is not a keyframe, or has at least 184 bytes, or exactly 176 |
| TsMuxer.Muxer.Mux | container/ts/muxer.go:33-158 | the loop over the reused buffer with 8-bit offsets appends exactly the specified packets, for every packet; no stale byte, counters advanced |
| Delivery.VideoArrives | container/ts/muxer.go:33-158 | for every video packet a receiver gets one unit from what is written, and reads from it stream 0xe0, 90 ticks for each millisecond of the stamp and of the composition time as the presentation time and those of the stamp as the decoding time, and the data; or nothing, if it is a keyframe with a PES shorter than 184 bytes and not of 176 |
| Delivery.AudioArrives | container/ts/muxer.go:33-158 | for every other packet stream 0xc0, the stamp at 90 ticks to the millisecond, and the data |
| Delivery.MarksAreKeyframes | container/ts/muxer.go:94-102 | the first transport packet of a keyframe is marked as a point of access and carries a clock reference, unless its PES has 183 bytes; nothing else that is written for any packet is marked or carries one |
| TsMuxer.Muxer.SendCell | container/ts/muxer.go:57-156 | one turn sends the next part of the PES packet and keeps the account of what has been sent |
| TsMuxer.Muxer.FrameCell | container/ts/muxer.go:74-126 | the part in front of the payload, its stuffing included, is as specified when n bytes are left, and the room left is computed right |
| TsMuxer.Muxer.FillCell | container/ts/muxer.go:128-150 | the rest of the buffer is overwritten with the next header and data bytes, none skipped or sent twice |
| TsMuxer.StuffingOffsets | container/ts/muxer.go:99-126 | the offset arithmetic in bytes ends at the right place even where it wraps around |
| TsMuxer.MuxStep | container/ts/muxer.go:57-156 | one turn writes one packet of the specification and leaves the rest to be written |
| TsMuxer.AdaptationBufInit | container/ts/muxer.go:257-267 | the stuffing written in place is an adaptation field of the given length |
| TsMuxer.WritePcr | container/ts/muxer.go:269-285 | the six bytes written in place are the clock reference |
| TsMuxer.ClockMatchesStamps | container/ts/muxer.go:269-363 | the clock reference of a frame is the decoding time a receiver reads if and only if it is below 2^33 ticks |
| TsMuxer.Muxer.PAT | container/ts/muxer.go:161-196 | the table packet with its counter and CRC, and the counter kept for the next |
| TsMuxer.Muxer.PMT | container/ts/muxer.go:198-255 | the table packet for every sound format, with or without video |
| Psi.TableCellReads | container/ts/muxer.go:173-194 | a receiver that checks length and CRC gets the section of any table packet |
| Psi.PatReads | container/ts/muxer.go:161-196 | a receiver finds program 1 on the PID of the PMT |
| Psi.PmtReads | container/ts/muxer.go:198-255 | a receiver finds the PIDs and stream types the muxer uses, and the PID of the clock |
| Psi.TablesSay | container/ts/muxer.go:161-255 | table ids, stream and program number, version and section number of both tables |
| Aac.Parser.SpecificInfo | parser/aac/parser.go:50-59 | reads the configuration, or refuses a short input and keeps the old one |
| Aac.Parser.Adts | parser/aac/parser.go:61-95 | writes header and frame, or nothing and an error without data or configuration |
| Aac.HeaderReads | parser/aac/parser.go:66-86 | what a decoder reads from the header: sync word, length modulo 2^13, profile, rate, two bits of the channels |
| Aac.SpecificReads | parser/aac/parser.go:50-59 | the configuration is read from 5, 4 and 4 bits, whatever is behind them |
| Aac.RatesAre | parser/aac/parser.go:97-103 | the sampling rate of every index |
| Aac.ConfigSurvives | parser/aac/parser.go:66-86 | the configuration is read back if and only if the object type is 1 to 4 and there are fewer than four channels |
| Aac.SplitInvertsJoin | parser/aac/parser.go:61-95 | cutting a run of frames by the length fields gives back the raw frames if and only if none is longer than 8184 bytes |
| AnnexB.NextInd | rtp/codecs/h264_packet.go:11-27 | finds the next 00 00 01 and the zeros in front of it, or that there is none |
| AnnexB.EmitNalus | rtp/codecs/h264_packet.go:10-43 | emits the units of the byte stream in order |
| AnnexB.PiecesSplit | rtp/codecs/h264_packet.go:10-43 | a start code separates the units before it from those behind it |
| AnnexB.ScanInvertsJoin | rtp/codecs/h264_packet.go:10-43 | scanning joined units gives them back if and only if none contains 00 00 01 and none but the last ends in 00 |
| H264.Parser.ParseSpecificInfo | parser/h264/parser.go:77-121 | of an accepted record the SPS found and all that is taken for the PPS are appended behind start codes; a refused one leaves everything as it was and says which part is malformed |
| H264.RecordReads | parser/h264/parser.go:77-121 | of every record of one SPS and one PPS and whatever is behind them the SPS is found, and the PPS with all that is behind it |
| H264.RecordIff | parser/h264/parser.go:77-121 | both parameter sets of a record are found as they are if and only if nothing is behind the first PPS |
| H264.RecordWritten | parser/h264/parser.go:77-121 | every input that is accepted is such a record |
| H264.SecondPpsStays | parser/h264/parser.go:77-121 | an input where they are not: of a record with two PPS the second one, with its length, is taken as a part of the first |
| H264.CutRecord | parser/h264/parser.go:77-121 | which error is reported for a record cut off at any position |
| H264.Parser.NaluSize | parser/h264/parser.go:133-143 | reads a length, or refuses fewer than four bytes |
| H264.Parser.GetAnnexbH264 | parser/h264/parser.go:145-217 | the loop with its flags and its parameter set buffer writes the access unit of the specification, with the same errors |
| H264.EmitBeforeIdr | parser/h264/parser.go:160-214 | the unit-by-unit form puts the parameter sets once, immediately before the first IDR slice, and prefers those of the input |
| H264.OutputIsJoin | parser/h264/parser.go:145-217 | the output is a delimiter and the access unit, each unit behind a start code |
| H264.LengthsRead | parser/h264/parser.go:155-163 | reading length-prefixed units gives back the units |
| H264.LengthsWritten | parser/h264/parser.go:155-163 | every accepted input is length-prefixed units and nothing else |
| H264.TailEnds | parser/h264/parser.go:145-220 | which error is reported where something other than a whole unit comes behind whole units |
| H264.ReframingScans | parser/h264/parser.go:145-217 | the scanner recovers one delimiter and exactly the access unit from the re-framed stream if and only if its units can be told apart |
| H264Payload.SendNalu | rtp/codecs/h264_packet.go:53-127 | the loop produces the specified payloads of one unit, for every MTU |
| H264Payload.SentByType | rtp/codecs/h264_packet.go:53-60 | what is sent of a stream is everything but units of types 9 and 12 |
| H264Payload.MakeFua | rtp/codecs/h264_packet.go:92-123 | indicator and header octets put together with shifts and ors are those of the fragment |
| H264Payload.Payload | rtp/codecs/h264_packet.go:46-130 | the payloads of all units of the stream in order; an empty unit is an index out of range |
| H264Payload.LongNalShaped | rtp/codecs/h264_packet.go:66-126 | fragments of a unit longer than the MTU: at least two, none longer than the MTU, the start bit on the first alone and the end bit on the last alone |
| H264Payload.ReceiveOne | rtp/codecs/h264_packet.go:53-127 | a receiver puts each unit together again, with the forbidden-zero bit cleared if it was fragmented |
| H264Payload.StreamReceived | rtp/codecs/h264_packet.go:46-130 | over a whole stream a receiver gets the units that are sent, in order, unchanged if and only if every fragmented one has that bit clear |
| H264Payload.AccessUnitReceived | rtp/codecs/h264_packet.go:10-130 | from the length-prefixed access unit over the byte stream and RTP to the receiver: the same units arrive, under the same equivalence |
| HlsCache.TSCacheItem.SetItem | protocol/hls/cache.go:68-77 | list and map after the call |
| HlsCache.TSCacheItem.GetItem | protocol/hls/cache.go:79-85 | finds an item if and only if the map holds its key |
| HlsCache.TSCacheItem.GenM3U8PlayList | protocol/hls/cache.go:41-66 | the loop over the list builds the playlist of the items that are found |
| HlsCache.HoldsWithoutRepeat | protocol/hls/cache.go:68-77 | after any number of calls list and map hold exactly the last three items, in order, if no key comes again too early |
| HlsCache.HoldsIffNoRepeat | protocol/hls/cache.go:68-77 | with items that differ they do so after every call if and only if no key comes again while among the newest three |
| HlsCache.PlaylistOfNumbered | protocol/hls/cache.go:41-66 | for items numbered from 1 whose keys do not come again too early: the media sequence is the number of the oldest entry, entries are consecutive, and the target duration bounds each |
| Segmenter.StepSound | protocol/hls/source.go:187-276 | one accepted frame adds its own unit to what a receiver gets, nothing else, and no counter of any PID skips, across cuts too |
| Segmenter.RunReceived | protocol/hls/source.go:120-276 | over every run: the receiver has exactly the units of the video frames since the first keyframe, in order; groups sent and frames waiting are the audio frames since then, in groups of 1 to 6 |
| Segmenter.AllSurvive | protocol/hls/source.go:120-276 | the video PES packets arrive unchanged if and only if every keyframe's has at least 184 bytes, or 176 |
| Segmenter.StreamDelivers | protocol/hls/source.go:120-276 | the audio bytes received and those still waiting are the audio frames since the first keyframe, and the video packets arrive under the equivalence above |
| Delivery.VideoPlays | protocol/hls/source.go:120-276 | over every run: a receiver of the video PID has one unit for each video packet from the first one whose header says keyframe on, in order, and reads from it that packet's own stamps and data, or nothing under the condition above |
| Delivery.NothingBeforeKey | protocol/hls/source.go:187-242 | over every run: nothing is written or published if and only if no video packet has come whose header says keyframe |
| Delivery.CutsExact | protocol/hls/source.go:187-242 | over every run: the cuts are at video packets whose header says keyframe, the first of all and then each first one whose predecessor is at least 3000 milliseconds later than the last cut, and nowhere else |
| Delivery.OpenersAreKeys | protocol/hls/source.go:187-242 | over every run: the packets that open a segment are those at the cuts, and their headers say keyframe |
| Segmenter.RunFine | protocol/hls/source.go:187-208 | every segment of every run is whole packets, begins with PAT, PMT and the start of the keyframe that opened it, lasts at least three seconds, and is numbered in order; it begins with the random-access flag and a clock reference if and only if the PES of that keyframe does not have 183 bytes, and with the right time if and only if the clock of that keyframe is read right; the segment being written likewise |
| Segmenter.ShortKeyNotTuned | protocol/hls/source.go:187-208 | an input where the flags are missing: a run that begins with a keyframe of 169 bytes |
| Segmenter.RunPlaylist | protocol/hls/source.go:187-208 | over every run: list and map hold the newest three segments after every cut if and only if no name comes again too early, and then the playlist lists them consecutively from the media sequence on, none longer than the target duration |
| Spans.RunSpans | protocol/hls/source.go:187-276 | over every run: a segment begins at the first keyframe, and at each keyframe whose predecessor is at least three seconds later than the keyframe that began the last segment; who has one segment alone gets from it the video packets and the audio bytes of the frames between its keyframe and the next cut, all of them and no others, the audio in packets of six frames and one of those left; and its duration is the stamp of the last of them less that of the keyframe |
| AudioStamps.AlignedNear | protocol/hls/align.go:12-29 | an aligned stamp is within 180 ticks of the one the frame came with |
| AudioStamps.ClockRunsOn | protocol/hls/align.go:12-29 | from one frame to the next the clock runs on by exactly one frame if that keeps it within 180 ticks of the stamp, and takes over the stamp otherwise |
| AudioStamps.RunNear | protocol/hls/source.go:244-276 | over every run: the stamp of each audio group, sent or waiting, is within 180 ticks of the stamp of its first frame |
| AudioStamps.GroupPts | protocol/hls/source.go:254-276 | a receiver reads for a group its stamp cut to whole milliseconds and to 32 bits of them |
| AudioStamps.AudioPlaysInTime | protocol/hls/source.go:244-276 | over every run: the time a receiver reads for each audio packet is that of a millisecond at most two away from the stamp of its first frame |
| HlsSource.Aligner.AlignDts | protocol/hls/align.go:12-29 | the audio clock runs on by whole frames while the stamp stays within two milliseconds, and starts anew otherwise |
| HlsSource.Stat.UpdateTs | protocol/hls/status.go:23-32 | first and last stamp of the segment |
| HlsSource.AudioCache.Cache | protocol/hls/audio_cache.go:24-35 | the frame is added to the group; the stamp is that of the first |
| HlsSource.AudioCache.GetFrame | protocol/hls/audio_cache.go:37-40 | hands out the frames of the group one after the other and empties it |
| HlsSource.Source.CutAt | protocol/hls/source.go:187-208 | the cut of the state machine: audio flushed, segment published, counters and tables carried on |
| HlsSource.Source.CodecParse | parser/parser.go:36-68 | dispatches to the codec parsers; their state, and the data written, which is none for a sequence header |
| HlsSource.Source.ParseAndCut | protocol/hls/source.go:210-242 | refuses other codecs, keeps sequence headers to itself, and cuts at an accepted keyframe |
| HlsSource.Source.CalcStamps | protocol/hls/source.go:244-252 | the stamps of a frame, with the audio clock aligned |
| HlsSource.Source.TsMuxPacket | protocol/hls/source.go:258-276 | video is muxed at once, audio is grouped and muxed when the group is full |
| HlsSource.Source.Turn | protocol/hls/source.go:120-165 | one turn of the receive loop on any packet put into the queue, container header and all, is one step of the state machine, or ends the loop |
| HlsSource.QueuedIsPackets | protocol/hls/source.go:120-165 | over every sequence of packets put into the queue: the source does what it does with the packets up to the first unreadable one, and runs as long as there is none |
| HlsSource.UnreadableIff | container/flv/tag.go:145-181 | the packets that end the loop: video of fewer than five bytes, empty audio, AAC of one byte, where an index is out of range |
| FlvTag.Tag.ParseAudioHeader | container/flv/tag.go:145-162 | the fields found and the data behind them, or which way it fails |
| FlvTag.Tag.ParseVideoHeader | container/flv/tag.go:164-181 | the fields found, with the composition time of three bytes, and the length of the header |
| FlvTag.Demuxer.Demux | container/flv/demuxer.go:30-44 | header and data, the end-of-sequence mark, or the failure |
| FlvTag.AvcReads | container/flv/tag.go:164-181 | an AVC header as its specification has it is read back with the data behind it, the composition time modulo 2^24, and so as it was if and only if it is not negative |
| FlvTag.AvcEnds | container/flv/demuxer.go:35-38 | the end-of-sequence mark is found on keyframes and not on inter frames |
| FlvTag.OtherReads | container/flv/tag.go:164-181 | frames of other types have a header of one byte |
| FlvTag.AudioReads | container/flv/tag.go:145-162 | sound has a header of one byte, and AAC one of two |
| FlvTag.NegativeOffsetLost | container/flv/tag.go:164-181 | an input where it is not: -1 is read as 2^24-1 |
| HlsSource.RunPacketsIsRun | protocol/hls/source.go:120-165 | over every sequence of packets the source does what the segmenter does with the frames the codec parser accepts |
| VideoSource.SetsKnown | parser/h264/parser.go:77-121 | over every sequence of packets: the codec parser holds the parameter sets of all sequence headers that have arrived, in order |
| VideoSource.PictureWritten | parser/h264/parser.go:145-220 | what is written for an access unit is the delimiter, the units of types 1, 5 and 6 in order, and in front of the first of type 5 those of types 7 and 8 that came before it, or else the sets of the sequence headers, each behind a start code |
| VideoSource.PictureScans | parser/h264/parser.go:145-220 | a scanner gets those units back if and only if start codes can separate them |
| VideoSource.VideoRecovered | protocol/hls/source.go:120-276 | over every sequence of packets: a receiver reads one unit for each picture that has arrived since the first accepted keyframe, with that packet's stamps, and as its data that picture with the parameter sets that had arrived by then; a byte stream is passed on as it came |
| VideoSource.QueuedVideo | protocol/hls/source.go:120-276 | the same from the packets as they were put into the queue |
| AudioSource.ConfigKnown | parser/aac/parser.go:50-59 | over every sequence of packets: the configuration in use is that of the last AAC sequence header of two bytes or more |
| AudioSource.FrameTicks | protocol/hls/source.go:244-252 | each audio frame moves the clock by 1024 samples in ticks of 90 kHz, rounded down, at the rate of that configuration |
| HlsSource.AcceptedIsRaw | parser/aac/parser.go:61-95 | over every sequence of packets: the audio frames handed to the segmenter since the first keyframe are the raw frames of the packets, each behind the header of the configuration in force when it arrived |
| AudioSource.AudioRecovered | protocol/hls/source.go:120-276 | over every sequence of packets: cutting the audio received and waiting by its ADTS lengths gives back the raw frames of AAC that arrived after the first accepted keyframe, each with the configuration known by then, if and only if none is longer than 8184 bytes |
| Float64.ExactIff | protocol/amf/encoder_amf0.go:32-35 | float64(n), rounded half to even, has the integer value n if and only if n has at most 53 significant bits |
| Amf.ValueOfIsNorm | protocol/amf/encoder_amf0.go:147-159 | what is read back depends on the value alone, not on the order its keys were written in |
| Amf.IntegerSeen | protocol/amf/encoder_amf3.go:13-82 | what becomes of an integer: a double in AMF0; in AMF3 itself below 2^28, the negative number of its 29 bits below 2^29, and a double otherwise or if it is of a wide kind |
| Amf.Reader.ReadBytes | protocol/amf/util.go:54-67 | all the bytes asked for, or an error |
| Amf3.U29RoundTrip | protocol/amf/encoder_amf3.go:414-431 | decodeU29 undoes encodeAmf3Uint29 for every number up to 2^29-1 |
| Amf3.Decode | protocol/amf/decoder_amf3.go:10-46 | every value read takes at least one byte, so decoding terminates on every input |
| Amf3Codec.FitsIffSmall | protocol/amf/encoder_amf3.go:226-412 | for every value: the encoder accepts it if and only if all its lengths are below 2^28 modulo 2^31 and its numbers of properties below 2^25 modulo 2^28 |
| Amf3.SizeFitsIff | protocol/amf/encoder_amf3.go:394-412 | for every length: it passes the size check if and only if it is below 2^28 modulo 2^31 |
| Amf3.TraitFitsIff | protocol/amf/encoder_amf3.go:263-279 | for every number of properties: it passes if and only if it is below 2^25 modulo 2^28 |
| Amf3.LimitedIff | protocol/amf/encoder_amf3.go:226-412 | the limits on a value are those on its trees, whatever the order of its keys |
| Amf3.TreeRoundTrip | protocol/amf/decoder_amf3.go:10-373 | reading an encoded value with any suffix gives the value back and leaves the suffix, for nested arrays and objects and every key order |
| Amf3.StableIff | protocol/amf/decoder_amf3.go:79-96 | a value comes back as it was if and only if it has no typed object and its integers are of the narrow kinds and in 0..2^28-1 |
| Amf3.RoundTrip | protocol/amf/decoder_amf3.go:10-373 | both together, about values |
| Amf3Codec.SortStrings | protocol/amf/encoder_amf3.go:280-284 | the property names in ascending order, each once |
| Amf3Codec.FitsIff | protocol/amf/encoder_amf3.go:226-431 | the values the encoder accepts are those whose trees can be written |
| Amf3Codec.EncodeAmf3 | protocol/amf/encoder_amf3.go:13-82 | accepts exactly the values whose sizes fit, and writes the bytes of the value with its keys in ascending order |
| Amf3Codec.EncodeObject | protocol/amf/encoder_amf3.go:263-328 | trait header, type name, sorted names, then the values in that order |
| Amf3Codec.EncodeArray | protocol/amf/encoder_amf3.go:226-257 | length, empty name, then the elements in order |
| Amf3Codec.EncodeUint29 | protocol/amf/encoder_amf3.go:414-431 | one to four bytes, or an error beyond 29 bits |
| Amf3Codec.DecodeU29 | protocol/amf/decoder_amf3.go:462-484 | the loop over up to three bytes and a fourth reads what the specification reads, and hands on a plain end of input |
| Amf3Codec.DecodeAmf3 | protocol/amf/decoder_amf3.go:10-46 | the consuming decoder reads what the specification reads, with the same errors and the same rest, and terminates on every input |
| Amf3Codec.DecodeObjectBody | protocol/amf/decoder_amf3.go:238-373 | sealed and dynamic properties, in the order read |
| Amf3Codec.DecodeString | protocol/amf/decoder_amf3.go:116-145 | a string of the length given, padded with zeros where the input is short |
| Wire3.ReadsBack | protocol/amf/decoder_amf3.go:10-373 | every value as other programs write it, without references: undefined, null, booleans, 29-bit integers as signed, doubles, strings and both kinds of XML, arrays, and objects with sealed and dynamic properties, at any depth and with anything behind it, is read as it is meant |
| Wire3.PlainEndIff | protocol/amf/decoder_amf3.go:10-46 | reading ends with a plain end of input if and only if there is nothing to read or an integer is cut off |
| Amf0.Decode | protocol/amf/decoder_amf0.go:9-53 | every value read takes at least one byte, so decoding terminates on every input |
| Amf0.TreeRoundTrip | protocol/amf/decoder_amf0.go:9-240 | reading an encoded value with any suffix gives the value back and leaves the suffix, for every nested value within the limits and every key order |
| Amf0.AllSurviveIff | protocol/amf/encoder_amf0.go:108-261 | a value and all its parts are read back, whatever follows, if and only if keys have 1 to 65535 bytes and strings and arrays fewer than 2^32 |
| Amf0.LimitedIff | protocol/amf/encoder_amf0.go:108-261 | the limits on a value are those on its trees, whatever the order of its keys |
| Amf0.IntegerSurvives | protocol/amf/encoder_amf0.go:32-35 | an integer is read back as a double of the same value if and only if it has at most 53 significant bits; all up to 2^53 have |
| Amf0.KeysRead | protocol/amf/decoder_amf0.go:118-150 | no key that comes out of the decoder is empty or longer than 65535 bytes |
| Amf0.RoundTrip | protocol/amf/decoder_amf0.go:9-240 | the round trip about values: integers come back as doubles, all else as it was |
| Amf0Codec.EncodeAmf0 | protocol/amf/encoder_amf0.go:10-56 | accepts exactly the values without typed objects and writes their bytes |
| Amf0Codec.AcceptedIff | protocol/amf/encoder_amf0.go:10-56 | the values refused are those that hold a typed object at some depth |
| Amf0Codec.EncodeObject | protocol/amf/encoder_amf0.go:137-173 | whichever key is taken next, what is written is the object with its keys in that order |
| Amf0Codec.EncodeArray | protocol/amf/encoder_amf0.go:236-261 | length and elements in order |
| Amf0Codec.DecodeAmf0 | protocol/amf/decoder_amf0.go:9-53 | the consuming decoder reads what the specification reads, with the same errors and the same rest, and terminates on every input; `Wire0` says what that is |
| Wire0.ReadsBack | protocol/amf/decoder_amf0.go:9-335 | every value as other programs write it: null, undefined and unsupported, booleans, numbers, dates with their time zone, short and long strings, XML, objects, associative arrays whatever count they announce, strict arrays, typed objects and AMF3 values, at any depth and with anything behind it, is read as it is meant |
| Wire0.Refused | protocol/amf/decoder_amf0.go:15-52 | movie clips, references, record sets, a lone end marker, unknown markers and booleans other than 0 and 1 are refused |
| Wire0.PlainEndIff | protocol/amf/decoder_amf0.go:9-53 | reading ends with a plain end of input if and only if there is nothing to read, or a boolean or an AMF3 integer is cut off |
| Amf0Codec.DecodeObject | protocol/amf/decoder_amf0.go:118-150 | the loop up to the empty key and the end marker; later values of a key replace earlier ones |
| Amf0Codec.DecodeStrictArray | protocol/amf/decoder_amf0.go:218-240 | as many elements as announced, or an error |
| AmfBatch.EncodeOne | protocol/amf/amf.go:41-50 | dispatch by version |
| AmfBatch.VersionsAre | protocol/amf/amf.go:21-50 | versions 0 and 3 take what their encoders take, and no other version takes or reads anything |
| AmfBatch.EncodeBatch | protocol/amf/amf.go:32-39 | the values one after the other, stopping at the first that is refused; decoding what was added to the buffer gives the list back when all values are within the limits |
| AmfBatch.DecodeBatch | protocol/amf/amf.go:9-19 | the values up to the first error, and whether that was the plain end of the input |
| AmfBatch.BatchRoundTrip | protocol/amf/amf.go:9-39 | for values within the limits, written with their keys in any order: decoding gives the list back and ends with a plain end of input, in both versions |
| AmfBatch.MetaDataReform | protocol/amf/metadata.go:30-70 | the marker put before or taken off a message, or an error |
| AmfBatch.RefusedIff | protocol/amf/metadata.go:30-70 | a message is refused if and only if it does not begin with a string, or the wish is neither 0 nor 3 |
| AmfBatch.MarkerSays | protocol/amf/metadata.go:14-28 | the marker is the name @setDataFrame as a short string |
| AmfBatch.NameTakesSixteen | protocol/amf/metadata.go:52-60 | the slice taken by DEL is within the message, in whatever encoding the name came |
| AmfBatch.DelUndoesAdd | protocol/amf/metadata.go:34-60 | adding twice is adding once; taking off what was added gives the message back if and only if it did not begin with the marker |
| AmfBatch.DelTakesTheName | protocol/amf/metadata.go:47-60 | of a message that begins with the marker, exactly the marker is taken off if and only if it is an AMF0 short string or an AMF3 string with its length in one byte |
| AmfBatch.LongNameStays | protocol/amf/metadata.go:47-60 | an input where more is left: behind the marker as a long string, any message keeps two bytes of it in front |
| Rtp.Packet.MarshalHeaderTo | rtp/packet.go:162-228 | fails exactly on a short buffer or an extension that is not whole words; otherwise writes the header bytes and nothing behind them |
| Rtp.Packet.MarshalTo | rtp/packet.go:255-270 | header and payload, and their size |
| Rtp.Packet.Marshal | rtp/packet.go:243-252 | a buffer of the announced size is never too short |
| Rtp.MarshalSize | rtp/packet.go:231-240 | the announced size is exactly the number of bytes written |
| Rtp.Packet.Unmarshal | rtp/packet.go:74-147 | the fields read, the payload, and the three ways to fail, one of them an index out of range |
| Rtp.ParseFails | rtp/packet.go:74-147 | the inputs that are refused, and those of four to eleven bytes where an index is out of range |
| Rtp.FixedRead | rtp/packet.go:162-228 | the first twelve bytes written hold the fields in the places section 5.1 of RFC 3550 gives them |
| Rtp.HeaderRoundTrip | rtp/packet.go:74-228 | unmarshalling a marshalled header with any payload behind it gives the header back |
| Rtp.RoundTripIff | rtp/packet.go:74-228 | a header comes back if and only if its fields fit their places |
| Rtp.MarshalUndoesUnmarshal | rtp/packet.go:74-228 | every accepted packet is marshalled to the same bytes |
| Packetizer.PayloadVp8 | rtp/codecs/vp8_packet.go:15-65 | the loop produces the specified fragments |
| Packetizer.Vp8Carries | rtp/codecs/vp8_packet.go:36-65 | stripping the descriptors gives the frame; fragments fit the MTU; the start bit is on the first alone |
| Packetizer.PayloadG722 | rtp/codecs/g722_packet.go:7-22 | the loop produces the specified chunks |
| Packetizer.G722Carries | rtp/codecs/g722_packet.go:7-22 | the chunks are the frame; all but the last are full |
| Packetizer.Sequencer.NextSequenceNumber | rtp/sequencer.go:43-53 | 65536 times the roll-over count plus the number rises by exactly one |
| Packetizer.PacketMaker.Packetize | rtp/packetizer.go:69-118 | the packets of one sample, the last one with its send time if that is enabled, and the new state |
| Packetizer.NumbersRise | rtp/packetizer.go:69-93 | over every run the sequence numbers count on by one, from sample to sample too |
| Packetizer.HeadersPlain | rtp/packetizer.go:69-118 | over every run: version 2, no padding and no contributing sources, the payload type and the source of the packetizer; an extension only with the send time, on the last packet of a sample |
| Packetizer.StampsAdvance | rtp/packetizer.go:78-93 | the packets of a sample share a stamp, the start plus all earlier samples that were not empty, and the marker is on the last alone |
| Packetizer.SampleDelivered | rtp/packetizer.go:69-93 | a receiver recovers each VP8 or G.722 sample from its packets, and the NAL units sent of an H.264 sample, unchanged under the equivalence above |
| Packetizer.PacketsFit | rtp/packetizer.go:75-118 | over every run a receiver reads header and payload of each packet back, and the packet is within the MTU if and only if it has no send time or its payload leaves eight bytes |
| Packetizer.SampleWithin | rtp/packetizer.go:75-118 | for every codec, MTU and input: a sample is packetized unless it is an H.264 stream with an empty unit, and all its packets are within the MTU if and only if there is no send time or what the input leaves for the last payload, as computed from its length, or for H.264 from its last unit that is sent, is at least eight bytes short of full |
| Packetizer.TimedTooLong | rtp/packetizer.go:75-118 | an input where a packet is too long: 100 bytes of G.722 and an MTU of 112 make a packet of 120 |
| Packetizer.TimedSliceTooLong | rtp/packetizer.go:75-118 | the same with any H.264 slice of 100 bytes |
| SendTime.ExtensionReads | rtp/packetizer.go:54-114 | a receiver finds the extension number modulo 16, the length of three bytes, and the NTP time modulo 64 seconds in units of 2^-18 seconds, cut off once, for every clock value |
| SendTime.ApartIs | rtp/packetizer.go:54-114 | from two packets at least one such unit less than 64 seconds apart a receiver knows the time between them to less than 2^-18 seconds, across wrap-around too |
| Flv.FLVWriter.constructor | container/flv/muxer.go:56-73 | the file begins with the header and the size 0 |
| Flv.FLVWriter.Write | container/flv/muxer.go:75-119 | the tag of the packet is appended, or nothing where its metadata is refused; the metadata of the packet itself is replaced by what is written, or lost if refused; the stream id in the reused buffer stays 0 |
| Flv.TagSays | container/flv/muxer.go:75-119 | the tag of a packet read as the FLV specification has it: type 9 for video, 18 for metadata and 8 for audio, size, stamp with the base added, stream 0, data and size |
| Flv.FileSays | container/flv/muxer.go:16-73 | the file begins with FLV, version 1, sound and video, and 9 bytes of header |
| Flv.WrittenAgain | container/flv/muxer.go:79-91 | a packet written a second time makes the same tag if and only if it is not metadata, or what the first write made of its data begins with a string other than the marker; a refused one is refused again |
| Flv.MarkedTwice | container/flv/muxer.go:79-91 | an input where it makes another: metadata with the marker twice loses one with each write |
| Flv.FLVWriter.CalcBaseTimestamp | av/rwbase.go:26-40 | over everything written so far: the base becomes the stamp of the newest video or the newest audio tag, whichever is later |
| Flv.StampsContinue | container/flv/muxer.go:92-96 | the next tag is then stamped no earlier than both, and later than them by the stamp of its packet, if and only if the sum stays below 2^32 |
| Flv.LastStampMeans | av/rwbase.go:34-40 | the newest stamp of a type is found whatever tags of other types come behind it |
| Flv.PutI32BE | utils/pio/writer.go:30-35 | the big-endian bytes go to the first four places and the others stay |
| Flv.ForwardIff | container/flv/muxer.go:92-116 | reading forwards gives back the tags with their 32-bit stamps if and only if no data has 2^24 bytes or more |
| Flv.BackwardIff | container/flv/muxer.go:92-116 | reading backwards by the sizes behind the tags does so if and only if every size fits 32 bits |
| Signaling.CheckNext | webrtc/signalingstate.go:106-178 | a proposed transition is allowed if and only if it is the one in the table |
| Signaling.PeerConnection.SetDescription | webrtc/peerconnection.go:696-792 | accepts exactly the permitted descriptions; an answer makes the exchange current, anything else waits, a refusal changes nothing |
| Signaling.PeerConnection.SetLocalDescription | webrtc/peerconnection.go:795-837 | the same with an empty text completed from the last offer or answer; if gathering candidates then fails there is an error and the description stays set |
| Signaling.PeerConnection.SetRemoteDescription | webrtc/peerconnection.go:851-911 | the same, once a remote description is current always a refusal; if its candidates or its fingerprint cannot be used there is an error and it stays set |
| Signaling.PeerConnection.CreateAnswer | webrtc/peerconnection.go:658-693 | remembers its text only if there is a remote description and the connection is open |
| Signaling.PeerConnection.Close | webrtc/peerconnection.go:1579-1596 | closes once |
| Signaling.RunConsistent | webrtc/peerconnection.go:696-792 | in every run the signalling state says which descriptions wait and of which type, and the current ones are an offer and its answer or absent |
| Signaling.LocalIff | webrtc/peerconnection.go:696-820 | which local descriptions are accepted in terms of those that wait: the text created last; an offer if none waits; an answer if the other side's offer waits, and a provisional one if no other does |
| Signaling.RemoteIff | webrtc/peerconnection.go:696-865 | which remote descriptions are accepted, likewise, and only while none is current |
| Signaling.WhatIsSet | webrtc/peerconnection.go:696-865 | what an accepted description does to the four descriptions, and that a refused one changes nothing |
| Signaling.LatestHolds | webrtc/peerconnection.go:838-849 | the description that holds for a side is the one accepted last |
| Signaling.RefusedForGood | webrtc/peerconnection.go:728-763 | rollbacks and unknown types are always refused and change nothing |
| Signaling.ClosedStays | webrtc/peerconnection.go:697-699 | in every run a closed connection stays exactly as it is |
| Signaling.ClosedForGood | webrtc/peerconnection.go:1579-1596 | in every run: once it has been closed a connection is closed, with the descriptions it had then, whatever is called |
| Signaling.OneExchange | webrtc/peerconnection.go:851-854 | once an exchange is complete its descriptions never change again |
| Signaling.MoveSound | webrtc/peerconnection.go:696-860 | every move of either of two peers keeps the negotiation in one of its phases, whatever is on its way |
| Signaling.StableMeansAgreed | webrtc/peerconnection.go:696-860 | in every interleaving of two peers, when both are stable each one's current local description is the other's current remote one |
| Signaling.GlareForever | webrtc/peerconnection.go:728-732 | two crossing offers are never resolved, however the run goes on, even if one side closes |
| Signaling.CanComplete | webrtc/peerconnection.go:696-860 | after every run of two open sides whose offers have not crossed there is a continuation that ends with both agreed |
| Signaling.CompletableIff | webrtc/peerconnection.go:696-860 | after every run of two open sides such a continuation exists if and only if their offers have not crossed |
| Transceivers.SatisfyTypeAndDirection | webrtc/peerconnection.go:546-575 | the chosen transceiver and the list shortened in place |
| Transceivers.ChoiceIsBest | webrtc/peerconnection.go:546-575 | one is chosen whenever one is compatible: the earliest with the preferred direction, otherwise the earliest other one |
| Transceivers.ChoiceMeans | webrtc/peerconnection.go:546-575 | one fits if it receives what the other side sends, or sends where the other side only receives; one for one way only is taken before one for both, and the earliest of its sort |
| Transceivers.FillSection | webrtc/peerconnection.go:625-632 | the plan-B loop ends, and takes all that are compatible |
| Transceivers.FillConserves | webrtc/peerconnection.go:625-632 | none of those is lost, and none that is compatible is left |
| Transceivers.AddAnswerMediaTransceivers | webrtc/peerconnection.go:577-655 | the sections of the answer or a refusal, also where there are no ICE parameters; the list of the connection itself is not modified |
| Transceivers.RefusedIff | webrtc/peerconnection.go:593-655 | an answer is refused if and only if some section has no name, or is a media section of the plan that the configuration does not allow |
| Transceivers.SectionsInOrder | webrtc/peerconnection.go:593-655 | the sections of an answer are those of the offer in their order, but for those of unknown kind or direction; without plan-B each media section has exactly one transceiver |
| Transceivers.NoneFitsBehind | webrtc/peerconnection.go:616-632 | with plan-B no transceiver that fits is left behind a media section |
| Transceivers.SectionsPrint | webrtc/peerconnection.go:1646-1649 | printing a section fails only without transceivers, and no media section of an answer is without |
| Transceivers.AnswerConserves | webrtc/peerconnection.go:593-648 | those used and those left over are together those of the connection, as a multiset |
| Transceivers.NoneUsedTwice | webrtc/peerconnection.go:593-648 | no transceiver is used in two sections, or used and left over too |
| Transceivers.DescriptionIsPlanB | webrtc/peerconnection.go:1034-1046 | the offer is plan-B if and only if some media section has one of the names audio, video and data, in whatever case |
| Transceivers.PlanBNames | webrtc/peerconnection.go:1039-1044 | the names are audio, video and data once capitals are made small |
| Transceivers.PlanBAnywhere | webrtc/peerconnection.go:1039-1044 | one such section is enough, wherever it stands |
| PacketQueue.VirWriter.DropPacket | protocol/rtmp/rtmp.go:232-261 | 940 turns of the drop policy, none of which can block or overflow when no consumer runs |
| PacketQueue.VirWriter.Write | protocol/rtmp/rtmp.go:264-284 | below 1000 the packet is queued; at 1000 it is lost and the queue becomes its packets from 940 on and then those of the first 940 that are kept |
| PacketQueue.DropIs | protocol/rtmp/rtmp.go:232-261 | in a queue of at most 1000 no packet is dropped unseen, and n turns rotate exactly the protected packets to the back |
| PacketQueue.RunConserves | protocol/rtmp/rtmp.go:232-288 | in every interleaving with the consumer the queue never exceeds 1000, no send blocks, the blind drops are not reached, and every audio packet, keyframe and sequence header queued is in the queue, in hand or delivered, as often as it was queued |
| PacketQueue.NothingNeededIsLost | protocol/rtmp/rtmp.go:232-288 | in every interleaving each audio packet, and each video packet whose header says keyframe or sequence header, is in the queue, in hand or delivered as often as it was queued |
| PacketQueue.NothingIsAdded | protocol/rtmp/rtmp.go:232-288 | and no packet is there more often than it was queued |
| PacketQueue.RearByFields | protocol/rtmp/rtmp.go:232-261 | after a write that finds 1000 packets the last 60 come first, and behind them exactly those of the first 940 that are audio, keyframes or sequence headers |
| PacketOrder.OrderIff | protocol/rtmp/rtmp.go:232-288 | in every interleaving: at every moment the consumer can get all kept packets in the order written, exactly as long as the drop loop has not taken one of them from the front of the queue while a different one was behind it |
| PacketOrder.RoomKeepsAll | protocol/rtmp/rtmp.go:264-288 | if no write finds the queue full, all packets arrive, in the order written |
| PacketOrder.OvertakenOnce | protocol/rtmp/rtmp.go:232-288 | a run where they do not: for any two different kept packets, one that is followed by the other 999 times is overtaken by it at the next write |
| PacketQueue.StuckIff | protocol/rtmp/rtmp.go:234-236 | the producer stops for good if and only if the queue is empty when the drop loop receives |
| PacketQueue.StuckForever | protocol/rtmp/rtmp.go:234-236 | then neither side moves again, whatever is offered |
| PacketQueue.StuckReached | protocol/rtmp/rtmp.go:264-288 | a run that ends there |
| PacketQueue.SixtyAreSafe | protocol/rtmp/rtmp.go:232-288 | from any moment between two writes on, in every interleaving, the producer is not stuck before the consumer has taken 61 packets |
| PacketQueue.SixtyOneCanStop | protocol/rtmp/rtmp.go:232-288 | for every packet that is not protected there is a run in which 61 packets taken do stop it |
| PacketQueue.AloneDrops | protocol/rtmp/rtmp.go:232-261 | without a consumer the steps leave what the method leaves |

## Left out

- Sockets, HTTP, websocket, TLS, files, logging and statistics: writers are byte strings, readers are byte strings.
- Clocks and randomness: segment names, time stamps of the clock and first sequence numbers are parameters.
- A reader is taken to give an empty result when it is asked for no bytes at the end of its input, as `bytes.Buffer` does and `bytes.Reader` does not; with the latter a final empty string is not read back.
- AMF3 references, dates, byte arrays and externalizable objects: reading one is an error in the model, also for metadata, where the source panics at a reference. The encoder writes none of the first and the last, and looking up an array or object by reference shifts its index twice.
- Go values that are not numbers, booleans, strings, slices, or maps and objects of the codec's own types; the byte counts the encoders return.
- AMF doubles are eight bytes without arithmetic, except for the conversion from integers.
- Amf3.Decode: ends in failure at references, dates, byte arrays and externalizable objects, which the source reads on.
- Amf3Codec.DecodeAmf3: the same; the markers of dates and byte arrays are failures.
- Amf3Codec.DecodeObjectBody: the same; object and trait references and externalizable objects are failures.
- Amf3Codec.DecodeString: the same; a reference to an earlier string is a failure.
- Amf0.AllSurviveIff: speaks of a value together with all its parts, because bytes behind a part that is misread might happen to decode to the value that was lost.
- HlsSource.Source.CodecParse: the MP3 parser, which is not reached from there, since MP3 is refused before.
- HLS source: its own queue with its own drop policy; codec parsers are made at once and not on first use; the audio clock is unbounded where the source has 64 bits; `parse`, `cut` and `Mux` are split into several methods here.
- H264.Parser.GetAnnexbH264: the branch of the caller that passes input with start codes on unchanged is in HlsSource.Source.CodecParse.
- H264Payload.Payload: a nil input, which gives no payloads.
- Rtp.Packet.Unmarshal: which fields are already overwritten when it fails.
- Packetizer: the roll-over count is unbounded where the source has 64 bits.
- Session description texts, ICE, DTLS and SCTP: whether a text parses, candidates are gathered and a remote text can be used are parameters, and a description that one side could set is taken to parse on the other. Candidates added to a copy of a description that is handed out are not modelled.
- PacketQueue: closing the channel, and more than one producer.
- The queue of the HTTP-FLV writer, which removes up to two packets in a turn, the GOP cache, the relay, and the chunk protocol of RTMP.
