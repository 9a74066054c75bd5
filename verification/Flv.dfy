/** Writing packets as an FLV file (container/flv/muxer.go:51-119, utils/pio/writer.go:3-34,
    av/rwbase.go:22-40), and reading the file forwards and backwards. */
module Flv {
  import opened Bits
  import opened Av
  import opened Wrappers
  import Amf0
  import AmfBatch

  const TAG_AUDIO: byte := 8
  const TAG_VIDEO: byte := 9
  const TAG_SCRIPT: byte := 18
  const HEADER_LEN := 11

  const FLV_HEADER: bytes := [0x46, 0x4c, 0x56, 0x01, 0x05, 0x00, 0x00, 0x00, 0x09]

  datatype Tag = Tag(typeId: byte, timestamp: uint32, data: bytes)

  // ---- what is written

  /** The 24-bit size, the time stamp in 24 + 8 bits, and stream 0. */
  function TagHeader(t: Tag): (h: bytes)
    ensures |h| == HEADER_LEN
  {
    [t.typeId] + Be24(|t.data|) + Be24(t.timestamp % 0x100_0000) + [Byte(t.timestamp / 0x100_0000)] + [0, 0, 0]
  }

  function TagBytes(t: Tag): (s: bytes)
    ensures |s| == |t.data| + 15
  {
    TagHeader(t) + t.data + Be32(|t.data| + HEADER_LEN)
  }

  function TagsBytes(tags: seq<Tag>): bytes {
    if tags == [] then [] else TagsBytes(tags[..|tags| - 1]) + TagBytes(tags[|tags| - 1])
  }

  function FileBytes(tags: seq<Tag>): bytes {
    FLV_HEADER + Be32(0) + TagsBytes(tags)
  }

  /** The tag of a packet, or nothing where its metadata is refused. */
  function TagOf(base: uint32, p: Packet): Option<Tag> {
    var ts := (p.timeStamp + base) % 0x1_0000_0000;
    if p.isVideo then Some(Tag(TAG_VIDEO, ts, p.data))
    else if !p.isMetadata then Some(Tag(TAG_AUDIO, ts, p.data))
    else
      match AmfBatch.Reformed(p.data, AmfBatch.DEL)
      case Err => None
      case Ok(data) => Some(Tag(TAG_SCRIPT, ts, data))
  }

  /** What becomes of the packet itself: its metadata is replaced, and lost if it is refused. */
  function Left(p: Packet): Packet {
    if p.isVideo || !p.isMetadata then p
    else
      match AmfBatch.Reformed(p.data, AmfBatch.DEL)
      case Err => p.(data := [])
      case Ok(data) => p.(data := data)
  }

  /** The stamp of the newest tag of a type, or 0. */
  function LastStamp(tags: seq<Tag>, typeId: byte): uint32 {
    if tags == [] then 0
    else if tags[|tags| - 1].typeId == typeId then tags[|tags| - 1].timestamp
    else LastStamp(tags[..|tags| - 1], typeId)
  }

  /** The later of the newest audio and the newest video stamp in the file. */
  function Latest(tags: seq<Tag>): uint32 {
    var (v, a) := (LastStamp(tags, TAG_VIDEO), LastStamp(tags, TAG_AUDIO));
    if a > v then a else v
  }

  method PutI24BE(b: array<byte>, at: nat, v: nat)
    requires at + 3 <= b.Length
    modifies b
    ensures b[..] == old(b[..])[at := Byte(v / 0x1_0000)][at + 1 := Byte(v / 0x100)][at + 2 := Byte(v)]
  {
    b[at] := Byte(v / 0x1_0000);
    b[at + 1] := Byte(v / 0x100);
    b[at + 2] := Byte(v);
  }

  method PutI32BE(b: array<byte>, v: nat)
    requires 4 <= b.Length
    modifies b
    ensures b[..] == Be32(v) + old(b[4..])
  {
    b[0] := Byte(v / 0x100_0000);
    b[1] := Byte(v / 0x1_0000);
    b[2] := Byte(v / 0x100);
    b[3] := Byte(v);
    assert b[..4] == Be32(v) && b[4..] == old(b[4..]);
    assert b[..] == b[..4] + b[4..];
  }

  class FLVWriter {
    const ctx: Buffer
    const buf: array<byte>
    var baseTimestamp: uint32
    var lastVideoTimestamp: uint32
    var lastAudioTimestamp: uint32
    ghost var written: seq<Tag>

    /** The last three bytes of the header buffer, the stream id, are never touched. */
    ghost predicate NoStreamId()
      reads buf
    {
      buf.Length == HEADER_LEN && buf[8] == 0 && buf[9] == 0 && buf[10] == 0
    }

    ghost predicate Valid()
      reads this, ctx, buf
    {
      NoStreamId() && ctx.data == FileBytes(written) &&
      lastVideoTimestamp == LastStamp(written, TAG_VIDEO) && lastAudioTimestamp == LastStamp(written, TAG_AUDIO)
    }

    constructor (file: Buffer)
      requires file.data == []
      modifies file
      ensures Valid() && ctx == file && fresh(buf) && written == [] && baseTimestamp == 0
    {
      ctx := file;
      buf := new byte[HEADER_LEN](_ => 0);
      baseTimestamp, lastVideoTimestamp, lastAudioTimestamp := 0, 0, 0;
      written := [];
      new;
      ctx.Write(FLV_HEADER);
      PutI32BE(buf, 0);
      ctx.Write(buf[..4]);
      assert FLV_HEADER + Be32(0) == FLV_HEADER + Be32(0) + TagsBytes([]);
    }

    /** The next stream begins where the file has got to. */
    method CalcBaseTimestamp()
      requires Valid()
      modifies this`baseTimestamp
      ensures Valid() && baseTimestamp == Latest(written)
    {
      if lastAudioTimestamp > lastVideoTimestamp {
        baseTimestamp := lastAudioTimestamp;
      } else {
        baseTimestamp := lastVideoTimestamp;
      }
    }

    method FillHeader(t: Tag)
      requires NoStreamId()
      modifies buf
      ensures buf[..] == TagHeader(t)
    {
      hide Byte;
      buf[0] := t.typeId;
      PutI24BE(buf, 1, |t.data|);
      PutI24BE(buf, 4, t.timestamp % 0x100_0000);
      buf[7] := Byte(t.timestamp / 0x100_0000 % 0x100);
      TopByte(t.timestamp);
      assert buf[..] ==
        [buf[0]] + [buf[1], buf[2], buf[3]] + [buf[4], buf[5], buf[6]] + [buf[7]] + [buf[8], buf[9], buf[10]];
    }

    /** left is p afterwards. */
    method Write(p: Packet) returns (ok: bool, left: Packet)
      requires Valid()
      modifies this, ctx, buf
      ensures Valid() && baseTimestamp == old(baseTimestamp) && left == Left(p)
      ensures var t := TagOf(baseTimestamp, p);
              ok == t.Some? && written == if ok then old(written) + [t.value] else old(written)
    {
      hide FileBytes, AmfBatch.Reformed, TagHeader, Be32, LastStamp;
      left := p;
      var typeID := TAG_VIDEO;
      if !p.isVideo {
        if p.isMetadata {
          typeID := TAG_SCRIPT;
          var reformed := AmfBatch.MetaDataReform(p.data, AmfBatch.DEL);
          if reformed.Err? {
            left := p.(data := []);
            return false, left;
          }
          left := p.(data := reformed.p);
        } else {
          typeID := TAG_AUDIO;
        }
      }
      var timestamp := (p.timeStamp + baseTimestamp) % 0x1_0000_0000;
      if typeID == TAG_VIDEO {
        lastVideoTimestamp := timestamp;
      } else if typeID == TAG_AUDIO {
        lastAudioTimestamp := timestamp;
      }
      var t := Tag(typeID, timestamp, left.data);
      FillHeader(t);
      HeaderEnds(t);
      ctx.Write(buf[..]);
      ctx.Write(left.data);
      PutI32BE(buf, |left.data| + HEADER_LEN);
      ctx.Write(buf[..4]);
      OneMore(written, t);
      NewestStamp(written, t);
      written := written + [t];
      ok := true;
    }
  }

  /** A packet that is written a second time makes the same tag, unless the message behind the marker
      begins with the marker again or with no string at all; a refused one is refused again. */
  lemma {:induction false} WrittenAgain(base: uint32, p: Packet)
    ensures TagOf(base, p).None? ==> TagOf(base, Left(p)).None?
    ensures TagOf(base, p).Some? ==>
      (TagOf(base, Left(p)) == TagOf(base, p) <==>
        p.isVideo || !p.isMetadata ||
        var first := AmfBatch.FirstString(Left(p).data); first.Got? && first.v != AmfBatch.SET_DATA_FRAME)
  {
    hide Amf0.Decode, AmfBatch.FirstString;
    NothingFirst();
    MarkerGoes(Left(p).data);
  }

  /** Metadata that carries the marker twice makes another tag when it is written again. */
  lemma MarkedTwice(base: uint32, p: Packet, message: bytes)
    requires !p.isVideo && p.isMetadata && p.data == AmfBatch.SET_FRAME + AmfBatch.SET_FRAME + message
    ensures TagOf(base, p).Some? && TagOf(base, p).value.data == AmfBatch.SET_FRAME + message
    ensures TagOf(base, Left(p)).Some? && TagOf(base, Left(p)).value.data == message
  {
    hide AmfBatch.FirstString, Amf0.Decode;
    var once := AmfBatch.SET_FRAME + message;
    assert p.data == AmfBatch.SET_FRAME + once;
    AmfBatch.SetFrameReads(once);
    AmfBatch.SetFrameReads(message);
    assert p.data[|AmfBatch.SET_FRAME|..] == once && once[|AmfBatch.SET_FRAME|..] == message;
  }

  lemma MarkerGoes(d: bytes)
    ensures AmfBatch.Reformed(d, AmfBatch.DEL) == AmfBatch.Ok(d) <==>
      AmfBatch.FirstString(d).Got? && AmfBatch.FirstString(d).v != AmfBatch.SET_DATA_FRAME
  {
    hide AmfBatch.FirstString;
    if AmfBatch.FirstString(d).Got? && AmfBatch.FirstString(d).v == AmfBatch.SET_DATA_FRAME {
      AmfBatch.NameTakesSixteen(d);
      assert |d[|AmfBatch.SET_FRAME|..]| < |d|;
    }
  }

  lemma {:induction false} NothingFirst()
    ensures AmfBatch.FirstString([]).Fail?
  {
  }

  /** The tag of a packet as the FLV specification has it (section E.4.1): its type is 9 for video, 18 for metadata
      and 8 for audio; then come 24 bits of the size, 24 bits of the time stamp and its top byte, stream 0, the
      data, and the size of all that. */
  lemma TagSays(base: uint32, p: Packet)
    requires TagOf(base, p).Some?
    ensures var t := TagOf(base, p).value;
            var (s, n) := (TagBytes(t), |t.data|);
            s[0] == (if p.isVideo then 9 else if p.isMetadata then 18 else 8) &&
            De24(s[1..]) == n % 0x100_0000 &&
            s[7] as int * 0x100_0000 + De24(s[4..]) == (p.timeStamp + base) % 0x1_0000_0000 &&
            s[8..11] == [0, 0, 0] && s[11..11 + n] == t.data && De32(s[11 + n..]) == (n + 11) % 0x1_0000_0000
  {
    hide Be24, De24, Be32, De32, AmfBatch.Reformed;
    var t := TagOf(base, p).value;
    var (s, n) := (TagBytes(t), |t.data|);
    Be24Inverse(n);
    Be24Inverse(t.timestamp % 0x100_0000);
    Be32Inverse(n + 11);
    assert s[1..][..3] == Be24(n) && s[4..][..3] == Be24(t.timestamp % 0x100_0000);
    De24Prefix(s[1..]);
    De24Prefix(s[4..]);
    assert s[11 + n..] == Be32(n + 11);
    TopByte(t.timestamp);
    ByteIs(t.timestamp / 0x100_0000);
  }

  /** The file begins with FLV, version 1, sound and video present, and 9 bytes of header. */
  lemma FileSays(tags: seq<Tag>)
    ensures var s := FileBytes(tags);
            |s| >= 13 && s[0] == 'F' as int && s[1] == 'L' as int && s[2] == 'V' as int && s[3] == 1 &&
            s[4] == 4 + 1 && De32(s[5..]) == 9 && De32(s[9..]) == 0
  {
    hide TagsBytes;
    var s := FileBytes(tags);
    assert s[..13] == FLV_HEADER + [0, 0, 0, 0];
    assert forall i :: 0 <= i < 13 ==> s[i] == s[..13][i];
  }

  lemma TopByte(n: uint32)
    ensures n / 0x100_0000 % 0x100 == n / 0x100_0000
  {
  }

  lemma HeaderEnds(t: Tag)
    ensures var h := TagHeader(t); h[8] == 0 && h[9] == 0 && h[10] == 0
  {
  }

  lemma OneMore(tags: seq<Tag>, t: Tag)
    ensures FileBytes(tags + [t]) == FileBytes(tags) + TagHeader(t) + t.data + Be32(|t.data| + HEADER_LEN)
  {
    hide TagHeader;
    assert (tags + [t])[..|tags|] == tags;
  }

  lemma {:induction false} NewestStamp(tags: seq<Tag>, t: Tag)
    ensures forall typeId: byte ::
      LastStamp(tags + [t], typeId) == if t.typeId == typeId then t.timestamp else LastStamp(tags, typeId)
  {
    assert (tags + [t])[..|tags|] == tags;
  }

  /** The newest tag of a type, whatever other tags are before and behind it. */
  lemma {:induction false} LastStampMeans(before: seq<Tag>, t: Tag, behind: seq<Tag>)
    requires forall j :: 0 <= j < |behind| ==> behind[j].typeId != t.typeId
    ensures LastStamp(before + [t] + behind, t.typeId) == t.timestamp
    ensures LastStamp(behind, t.typeId) == 0
    decreases |behind|
  {
    hide LastStamp;
    var tags := before + [t];
    if behind == [] {
      assert tags + [] == tags;
      NewestStamp(before, t);
      NoStamp(t.typeId);
    } else {
      var (n, last) := (|behind| - 1, behind[|behind| - 1]);
      LastStampMeans(before, t, behind[..n]);
      assert tags + behind == tags + behind[..n] + [last] && behind == behind[..n] + [last];
      NewestStamp(tags + behind[..n], last);
      NewestStamp(behind[..n], last);
    }
  }

  lemma {:induction false} NoStamp(typeId: byte)
    ensures LastStamp([], typeId) == 0
  {
  }

  /** After CalcBaseTimestamp the tag of a packet is stamped no earlier than the newest audio and video
      tags, and by as much later as the packet's own stamp says, exactly if the sum does not wrap around. */
  lemma {:induction false} StampsContinue(tags: seq<Tag>, p: Packet)
    requires TagOf(Latest(tags), p).Some?
    ensures var ts := TagOf(Latest(tags), p).value.timestamp;
            ((ts >= LastStamp(tags, TAG_VIDEO) && ts >= LastStamp(tags, TAG_AUDIO)) <==>
              p.timeStamp + Latest(tags) < 0x1_0000_0000) &&
            (ts >= Latest(tags) ==> ts - Latest(tags) == p.timeStamp)
  {
    hide AmfBatch.Reformed, LastStamp;
    var sum := p.timeStamp + Latest(tags);
    if sum >= 0x1_0000_0000 {
      assert sum % 0x1_0000_0000 == sum - 0x1_0000_0000;
    }
  }

  // ---- readers

  function ReadTag(h: bytes, data: bytes): Tag
    requires |h| >= 8
  {
    Tag(h[0], De24(h[4..]) + (h[7] as int) * 0x100_0000, data)
  }

  /** Forwards, by the data size in each tag; stops where no whole tag with stream id 0 follows. */
  function ReadForward(s: bytes): seq<Tag>
    decreases |s|
  {
    if |s| < HEADER_LEN then []
    else
      var size := De24(s[1..]);
      if |s| < size + 15 || s[8] != 0 || s[9] != 0 || s[10] != 0 then []
      else [ReadTag(s, s[11..11 + size])] + ReadForward(s[15 + size..])
  }

  /** Backwards, by the sizes behind the tags, from the end of the file to the size 0 at its start. */
  function ReadBackward(s: bytes): seq<Tag>
    decreases |s|
  {
    if |s| < 4 then []
    else
      var n := De32(s[|s| - 4..]);
      if n < HEADER_LEN || |s| < n + 4 then []
      else
        var at := |s| - 4 - n;
        ReadBackward(s[..at]) + [ReadTag(s[at..], s[at + 11..|s| - 4])]
  }

  predicate AllBelow(tags: seq<Tag>, limit: nat) {
    forall i :: 0 <= i < |tags| ==> |tags[i].data| < limit
  }

  lemma HeaderReads(t: Tag, rest: bytes, data: bytes)
    ensures var s := TagHeader(t) + rest;
            ReadTag(s, data) == t.(data := data) && De24(s[1..]) == |t.data| % 0x100_0000 &&
            s[8] == 0 && s[9] == 0 && s[10] == 0
  {
    hide De24, Be24;
    var s := TagHeader(t) + rest;
    assert s[1..4] == Be24(|t.data|) && s[4..7] == Be24(t.timestamp % 0x100_0000);
    Be24Inverse(|t.data|);
    Be24Inverse(t.timestamp % 0x100_0000);
    assert s[1..][..3] == s[1..4] && s[4..][..3] == s[4..7];
    De24Prefix(s[1..]);
    De24Prefix(s[4..]);
    TopByte(t.timestamp);
    ByteIs(t.timestamp / 0x100_0000);
  }

  lemma {:induction false} TagsBytesHead(tags: seq<Tag>)
    requires tags != []
    ensures TagsBytes(tags) == TagBytes(tags[0]) + TagsBytes(tags[1..])
    decreases |tags|
  {
    hide TagBytes;
    var n := |tags| - 1;
    if n == 0 {
      assert tags[..0] == [] && tags[1..] == [];
    } else {
      TagsBytesHead(tags[..n]);
      var tail := tags[1..];
      assert tags[..n][1..] == tail[..n - 1] && tail[n - 1] == tags[n];
      assert TagBytes(tags[0]) + TagsBytes(tail[..n - 1]) + TagBytes(tags[n])
        == TagBytes(tags[0]) + (TagsBytes(tail[..n - 1]) + TagBytes(tags[n]));
    }
  }

  lemma {:induction false} ForwardOne(s: bytes, size: nat, t: Tag)
    requires |s| >= size + 15 && De24(s[1..]) == size && s[8] == 0 && s[9] == 0 && s[10] == 0
    requires ReadTag(s, s[11..11 + size]) == t
    ensures ReadForward(s) == [t] + ReadForward(s[15 + size..])
  {
    hide De24, ReadTag;
  }

  lemma {:induction false} ForwardStep(t: Tag, rest: bytes)
    requires |t.data| < 0x100_0000
    ensures ReadForward(TagBytes(t) + rest) == [t] + ReadForward(rest)
  {
    hide TagHeader, De24, Be32, ReadTag, ReadForward;
    var s := TagBytes(t) + rest;
    var behind := t.data + Be32(|t.data| + HEADER_LEN) + rest;
    assert s == TagHeader(t) + behind;
    HeaderReads(t, behind, t.data);
    assert s[11..11 + |t.data|] == t.data;
    assert s[15 + |t.data|..] == rest;
    ForwardOne(s, |t.data|, t);
  }

  lemma {:induction false} ShortTags(s: bytes)
    ensures var r := ReadForward(s); r == [] || |r[0].data| < 0x100_0000
  {
    hide De24;
  }

  /** Reading forwards gives back the tags exactly if no data is longer than 24 bits can say. */
  lemma {:induction false} ForwardIff(tags: seq<Tag>)
    ensures ReadForward(TagsBytes(tags)) == tags <==> AllBelow(tags, 0x100_0000)
    decreases |tags|
  {
    hide TagBytes, ReadForward, TagsBytes;
    if tags == [] {
      NothingForward();
    } else {
      var (t, rest) := (tags[0], tags[1..]);
      TagsBytesHead(tags);
      ShortTags(TagsBytes(tags));
      ForwardIff(rest);
      assert tags == [t] + rest;
      var r := ReadForward(TagsBytes(tags));
      if |t.data| < 0x100_0000 {
        ForwardStep(t, TagsBytes(rest));
        assert r[1..] == ReadForward(TagsBytes(rest));
        assert forall i :: 1 <= i < |tags| ==> tags[i] == rest[i - 1];
        assert forall i :: 0 <= i < |rest| ==> rest[i] == tags[i + 1];
      }
    }
  }

  lemma NothingForward()
    ensures ReadForward(TagsBytes([])) == []
  {
  }

  const SIZE_LIMIT: nat := 0x1_0000_0000 - HEADER_LEN

  lemma {:induction false} BackwardOne(s: bytes, at: nat, t: Tag)
    requires at + 15 <= |s| && De32(s[|s| - 4..]) == |s| - 4 - at
    requires ReadTag(s[at..], s[at + 11..|s| - 4]) == t
    ensures ReadBackward(s) == ReadBackward(s[..at]) + [t]
  {
    hide De32, ReadTag;
    var n := De32(s[|s| - 4..]);
    assert |s| - 4 - n == at;
  }

  lemma {:induction false} BackwardStep(s: bytes, t: Tag)
    requires |t.data| < SIZE_LIMIT
    ensures ReadBackward(s + TagBytes(t)) == ReadBackward(s) + [t]
  {
    hide TagHeader, De32, Be32, De24, ReadTag, ReadBackward;
    var (all, n) := (s + TagBytes(t), |t.data| + HEADER_LEN);
    var at := |all| - 4 - n;
    assert all[|all| - 4..] == Be32(n);
    Be32Inverse(n);
    assert all[..at] == s;
    assert all[at..] == TagHeader(t) + (t.data + Be32(n));
    assert all[at + 11..|all| - 4] == t.data;
    HeaderReads(t, t.data + Be32(n), t.data);
    BackwardOne(all, at, t);
  }

  lemma {:induction false} ShortTagsBackward(s: bytes)
    ensures var r := ReadBackward(s); r == [] || |r[|r| - 1].data| < SIZE_LIMIT
  {
    hide De32, De24;
  }

  /** Reading backwards from the end of the file does so exactly if no size is longer than 32 bits can
      say, and stops at the size before the first tag. */
  lemma {:induction false} BackwardIff(tags: seq<Tag>)
    ensures ReadBackward(FileBytes(tags)) == tags <==> AllBelow(tags, SIZE_LIMIT)
    decreases |tags|
  {
    hide TagBytes, ReadBackward;
    if tags == [] {
      NothingBackward();
    } else {
      var n := |tags| - 1;
      var (t, before) := (tags[n], tags[..n]);
      assert FileBytes(tags) == FileBytes(before) + TagBytes(t);
      ShortTagsBackward(FileBytes(tags));
      BackwardIff(before);
      assert tags == before + [t];
      var r := ReadBackward(FileBytes(tags));
      if |t.data| < SIZE_LIMIT {
        BackwardStep(FileBytes(before), t);
        assert r[..|r| - 1] == ReadBackward(FileBytes(before));
        assert r == tags ==> r[..|r| - 1] == before;
        assert forall i :: 0 <= i < n ==> tags[i] == before[i];
      }
    }
  }

  lemma NothingBackward()
    ensures ReadBackward(FileBytes([])) == []
  {
    hide De32, Be32;
    var s := FileBytes([]);
    assert s[|s| - 4..] == Be32(0);
    Be32Inverse(0);
  }
}
