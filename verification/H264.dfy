/** The H.264 parser: length-prefixed NAL units to a byte stream with start codes
    (parser/h264/parser.go). */
module H264 {
  import opened Bits
  import opened Av
  import opened AnnexB

  const AUD: byte := 9
  const IDR: byte := 5
  const SLICE: byte := 1
  const SEI: byte := 6
  const SPS: byte := 7
  const PPS: byte := 8

  const AUD_NAL: bytes := [0x09, 0xf0]

  datatype Error =
    | NoError | DecDataNil | SpsDataError | PpsHeaderError | PpsDataError
    | VideoDataInvalid | DataSizeNotMatch | NaluBodyLenError

  function Type(nal: bytes): byte
    requires nal != []
  {
    nal[0] % 0x20
  }

  predicate IsKept(nal: bytes) { nal != [] && Type(nal) in [IDR, SLICE, SEI] }

  predicate IsParam(nal: bytes) { nal != [] && Type(nal) in [SPS, PPS] }

  predicate IsIdr(nal: bytes) { nal != [] && Type(nal) == IDR }

  // ---- the input

  datatype Lengths = Lengths(nals: seq<bytes>, err: Error)

  /** The units up to the first length that does not fit. */
  function ReadLengths(src: bytes): (r: Lengths)
    ensures forall i :: 0 <= i < |r.nals| ==> r.nals[i] != []
    decreases |src|
  {
    if src == [] then Lengths([], NoError)
    else if |src| < 4 then Lengths([], DataSizeNotMatch)
    else
      var n := De32(src);
      if 0 < n <= |src| - 4 then
        var later := ReadLengths(src[4 + n..]);
        Lengths([src[4..4 + n]] + later.nals, later.err)
      else Lengths([], NaluBodyLenError)
  }

  function LengthPrefixed(nals: seq<bytes>): bytes {
    if nals == [] then [] else Be32(|nals[0]|) + nals[0] + LengthPrefixed(nals[1..])
  }

  // ---- the output

  function Filter(nals: seq<bytes>, keep: bytes -> bool): seq<bytes> {
    if nals == [] then [] else (if keep(nals[0]) then [nals[0]] else []) + Filter(nals[1..], keep)
  }

  /** The position of the first IDR unit, or the number of units. */
  function FirstIdr(nals: seq<bytes>): (k: nat)
    ensures k <= |nals|
    ensures forall i :: 0 <= i < k ==> !IsIdr(nals[i])
    ensures k < |nals| ==> IsIdr(nals[k])
  {
    if nals == [] || IsIdr(nals[0]) then 0 else 1 + FirstIdr(nals[1..])
  }

  /** The access unit that has to come out: slices, IDR slices and SEI in their order, and in front of
      the first IDR slice the parameter sets: those seen so far, or else those of the header. */
  function AccessUnit(header: seq<bytes>, nals: seq<bytes>): seq<bytes> {
    var k := FirstIdr(nals);
    var own := Filter(nals[..k], IsParam);
    Filter(nals[..k], IsKept)
      + (if k == |nals| then [] else if own == [] then header else own)
      + Filter(nals[k..], IsKept)
  }

  /** The byte form of an access unit, as the program writes it. */
  function OutputBytes(specific: bytes, nals: seq<bytes>): bytes {
    var k := FirstIdr(nals);
    var own := Filter(nals[..k], IsParam);
    Join([AUD_NAL]) + Join(Filter(nals[..k], IsKept))
      + (if k == |nals| then [] else if own == [] then specific else Join(own))
      + Join(Filter(nals[k..], IsKept))
  }

  /** The same, unit by unit: wrote tells whether an IDR slice has gone out, params holds the
      parameter sets collected so far. */
  function Emit(specific: bytes, wrote: bool, params: bytes, nals: seq<bytes>): bytes
    decreases |nals|
  {
    if nals == [] then []
    else
      var n := nals[0];
      if IsIdr(n) then
        (if wrote then [] else if params == [] then specific else params) + (START_CODE + n)
          + Emit(specific, true, params, nals[1..])
      else if IsKept(n) then START_CODE + n + Emit(specific, wrote, params, nals[1..])
      else Emit(specific, wrote, if IsParam(n) then params + START_CODE + n else params, nals[1..])
  }

  /** What getAnnexbH264 writes, also when it then fails. */
  function Annexed(specific: bytes, src: bytes): bytes {
    if |src| < 4 then [] else OutputBytes(specific, ReadLengths(src).nals)
  }

  function AnnexedError(src: bytes): Error {
    if |src| < 4 then VideoDataInvalid else ReadLengths(src).err
  }

  // ---- sequence headers

  /** The error of parseSpecificInfo, and the SPS and the rest it takes for the PPS. */
  datatype Specific = Specific(err: Error, sps: bytes, pps: bytes)

  function ReadSpecific(src: bytes): Specific {
    if |src| < 9 then Specific(DecDataNil, [], [])
    else
      var spsLen := src[6] as int * 0x100 + src[7] as int;
      if |src| - 8 < spsLen || spsLen <= 0 then Specific(SpsDataError, [], [])
      else
        var tmp := src[8 + spsLen..];
        if |tmp| < 4 then Specific(PpsHeaderError, [], [])
        else
          var ppsLen := tmp[1] as int * 0x100 + tmp[2] as int;
          if |tmp| - 3 < ppsLen || ppsLen <= 0 then Specific(PpsDataError, [], [])
          else Specific(NoError, src[8..8 + spsLen], tmp[3..])
  }

  /** The record of two parameter sets: six bytes, then each set behind its length, the PPS with their
      number in front; tail is what the record holds behind the first PPS. */
  function Record(head: bytes, sps: bytes, n: byte, pps: bytes, tail: bytes): bytes {
    head + Be16(|sps|) + sps + [n] + Be16(|pps|) + pps + tail
  }

  /** The SPS of every record is found; all that is behind it is taken for the PPS. */
  lemma RecordReads(head: bytes, sps: bytes, n: byte, pps: bytes, tail: bytes)
    requires |head| == 6 && 0 < |sps| < 0x1_0000 && 0 < |pps| < 0x1_0000
    ensures ReadSpecific(Record(head, sps, n, pps, tail)) == Specific(NoError, sps, pps + tail)
  {
    hide Be16;
    var src := Record(head, sps, n, pps, tail);
    var tmp := [n] + Be16(|pps|) + (pps + tail);
    assert src == head + Be16(|sps|) + sps + tmp;
    LengthAt(src, 6, |sps|);
    assert src[8..8 + |sps|] == sps && src[8 + |sps|..] == tmp;
    LengthAt(tmp, 1, |pps|);
    assert tmp[3..] == pps + tail;
  }

  lemma LengthAt(s: bytes, i: nat, n: nat)
    requires i + 2 <= |s| && s[i..i + 2] == Be16(n) && n < 0x1_0000
    ensures s[i] as int * 0x100 + s[i + 1] as int == n
  {
    hide Be16;
    Be16Inverse(n);
    assert s[i] == s[i..i + 2][0] && s[i + 1] == s[i..i + 2][1];
  }

  /** Of a record the right sets are taken exactly if nothing is behind its first PPS. */
  lemma RecordIff(head: bytes, sps: bytes, n: byte, pps: bytes, tail: bytes)
    requires |head| == 6 && 0 < |sps| < 0x1_0000 && 0 < |pps| < 0x1_0000
    ensures ReadSpecific(Record(head, sps, n, pps, tail)) == Specific(NoError, sps, pps) <==> tail == []
  {
    hide ReadSpecific, Record;
    RecordReads(head, sps, n, pps, tail);
    assert tail == [] ==> pps + tail == pps;
    assert |pps + tail| == |pps| + |tail|;
  }

  lemma Accepted(src: bytes)
    requires ReadSpecific(src).err == NoError
    ensures var r := ReadSpecific(src);
            var k := |r.sps|;
            0 < k && |src| >= 12 + k && src[6] as int * 0x100 + src[7] as int == k &&
            r.sps == src[8..8 + k] && r.pps == src[8 + k..][3..] &&
            0 < src[9 + k] as int * 0x100 + src[10 + k] as int <= |r.pps|
  {
  }

  /** Every accepted input is such a record. */
  lemma RecordWritten(src: bytes)
    requires ReadSpecific(src).err == NoError
    ensures var r := ReadSpecific(src);
            var k := |r.sps|;
            0 < k < 0x1_0000 && |src| >= 12 + k &&
            var m := De16(src[9 + k..]);
            0 < m <= |r.pps| && src == Record(src[..6], r.sps, src[8 + k], r.pps[..m], r.pps[m..])
  {
    hide Be16, ReadSpecific, Record;
    Accepted(src);
    var r := ReadSpecific(src);
    var k := |r.sps|;
    var (tmp, m) := (src[8 + k..], De16(src[9 + k..]));
    FieldSplit(src, 6, k);
    FieldSplit(tmp, 1, m);
    assert tmp[..1] == [src[8 + k]] && tmp[3..3 + m] == r.pps[..m] && tmp[3 + m..] == r.pps[m..];
    Regrouped(src[..6], r.sps, src[8 + k], r.pps[..m], r.pps[m..]);
  }

  /** A length at position i and what follows it. */
  lemma FieldSplit(s: bytes, i: nat, k: nat)
    requires i + 2 + k <= |s| && s[i] as int * 0x100 + s[i + 1] as int == k
    ensures k < 0x1_0000 && s == s[..i] + Be16(k) + s[i + 2..i + 2 + k] + s[i + 2 + k..]
  {
    hide Be16;
    DeInverse(s[i..i + 2]);
    assert s[i..i + 2] == Be16(k);
  }

  lemma Regrouped(head: bytes, sps: bytes, n: byte, pps: bytes, tail: bytes)
    ensures Record(head, sps, n, pps, tail) == head + Be16(|sps|) + sps + ([n] + Be16(|pps|) + pps + tail)
  {
    hide Be16;
  }

  /** Where a record is cut off decides which error is reported. */
  lemma CutRecord(head: bytes, sps: bytes, n: byte, pps: bytes, k: nat)
    requires |head| == 6 && 0 < |sps| < 0x1_0000 && 0 < |pps| < 0x1_0000 && k <= 11 + |sps| + |pps|
    ensures |Record(head, sps, n, pps, [])| == 11 + |sps| + |pps|
    ensures ReadSpecific(Record(head, sps, n, pps, [])[..k]).err ==
      if k < 9 then DecDataNil
      else if k < 8 + |sps| then SpsDataError
      else if k < 12 + |sps| then PpsHeaderError
      else if k < 11 + |sps| + |pps| then PpsDataError
      else NoError
  {
    hide Be16;
    var src := Record(head, sps, n, pps, []);
    var cut := src[..k];
    var tmp := [n] + Be16(|pps|) + pps;
    assert src == head + Be16(|sps|) + sps + tmp;
    LengthAt(src, 6, |sps|);
    if k >= 9 {
      assert cut[6] == src[6] && cut[7] == src[7];
      if k >= 12 + |sps| {
        LengthAt(tmp, 1, |pps|);
        assert cut[8 + |sps|..] == tmp[..k - 8 - |sps|];
      }
    }
  }

  /** A record with two picture parameter sets: the second one, with its length, comes behind the first. */
  lemma SecondPpsStays(head: bytes, sps: bytes, pps: bytes, second: bytes)
    requires |head| == 6 && 0 < |sps| < 0x1_0000 && 0 < |pps| < 0x1_0000
    ensures var r := ReadSpecific(Record(head, sps, 2, pps, Be16(|second|) + second));
            r == Specific(NoError, sps, pps + Be16(|second|) + second) && r.pps != pps
  {
    hide ReadSpecific, Record, Be16;
    var tail := Be16(|second|) + second;
    RecordReads(head, sps, 2, pps, tail);
    assert pps + tail == pps + Be16(|second|) + second;
    assert |pps + tail| > |pps|;
  }

  predicate IsNaluHeader(src: bytes) {
    |src| >= 4 && src[0] == 0 && src[1] == 0 && src[2] == 0 && src[3] == 1
  }

  class Parser {
    var specificInfo: bytes
    const pps: Buffer

    constructor ()
      ensures specificInfo == [] && fresh(pps)
    {
      specificInfo := [];
      pps := new Buffer();
    }

    method ParseSpecificInfo(src: bytes) returns (err: Error)
      modifies this`specificInfo
      ensures var r := ReadSpecific(src);
              err == r.err &&
              specificInfo == old(specificInfo) + (if r.err.NoError? then Join([r.sps, r.pps]) else [])
    {
      hide Join;
      if |src| < 9 {
        return DecDataNil;
      }
      var spsLen := src[6] as int * 0x100 + src[7] as int;
      if |src[8..]| < spsLen || spsLen <= 0 {
        return SpsDataError;
      }
      var sps := START_CODE + src[8..8 + spsLen];
      var tmpBuf := src[8 + spsLen..];
      if |tmpBuf| < 4 {
        return PpsHeaderError;
      }
      var ppsLen := tmpBuf[1] as int * 0x100 + tmpBuf[2] as int;
      if |tmpBuf[3..]| < ppsLen || ppsLen <= 0 {
        return PpsDataError;
      }
      var ppsBytes := START_CODE + tmpBuf[3..];
      JoinTwo(src[8..8 + spsLen], tmpBuf[3..]);
      AppendTwice(specificInfo, sps, ppsBytes);
      specificInfo := specificInfo + sps;
      specificInfo := specificInfo + ppsBytes;
      err := NoError;
    }

    method NaluSize(src: bytes) returns (size: nat, ok: bool)
      ensures ok == (|src| >= 4)
      ensures ok ==> size == De32(src)
    {
      if |src| < 4 {
        return 0, false;
      }
      size := 0;
      for i := 0 to 4
        invariant i == 1 ==> size == src[0] as int
        invariant i == 2 ==> size == src[0] as int * 0x100 + src[1] as int
        invariant i == 3 ==> size == src[0] as int * 0x1_0000 + src[1] as int * 0x100 + src[2] as int
        invariant i == 4 ==> size == De32(src)
        invariant i == 0 ==> size == 0
      {
        size := size * 0x100 + src[i] as int;
      }
      ok := true;
    }

    method GetAnnexbH264(src: bytes, w: Buffer) returns (err: Error)
      requires w != pps
      modifies pps, w
      ensures err == AnnexedError(src)
      ensures w.data == old(w.data) + Annexed(specificInfo, src)
    {
      hide OutputBytes, Join, De32, Emit, WrittenFor, Params;
      var dataSize := |src|;
      if dataSize < 4 {
        return VideoDataInvalid;
      }
      pps.Reset();
      w.Write([0x00, 0x00, 0x00, 0x01, 0x09, 0xf0]);
      ghost var written := w.data;
      ghost var all := ReadLengths(src);
      var index := 0;
      var hasSpsPps := false;
      var hasWriteSpsPps := false;
      assert src[index..] == src;
      while dataSize > 0
        invariant 0 <= index && 0 <= dataSize && index + dataSize == |src|
        invariant ReadLengths(src[index..]).err == all.err
        invariant hasSpsPps == (pps.data != [])
        invariant w.data + Emit(specificInfo, hasWriteSpsPps, pps.data, ReadLengths(src[index..]).nals)
               == written + Emit(specificInfo, false, [], all.nals)
      {
        ghost var rest := src[index..];
        ghost var before, params, wrote := w.data, pps.data, hasWriteSpsPps;
        var nalLen, ok := NaluSize(src[index..]);
        if !ok {
          EmitNothing(specificInfo, wrote, params);
          assert w.data + [] == w.data;
          EmitIsOutput(specificInfo, all.nals);
          return DataSizeNotMatch;
        }
        index := index + 4;
        dataSize := dataSize - 4;
        if dataSize >= nalLen && |src[index..]| >= nalLen && nalLen > 0 {
          var nal := src[index..index + nalLen];
          assert rest[4..4 + nalLen] == nal && rest[4 + nalLen..] == src[index + nalLen..];
          ghost var later := ReadLengths(src[index + nalLen..]).nals;
          assert ReadLengths(rest).nals == [nal] + later;
          EmitOne(w.data, specificInfo, hasWriteSpsPps, pps.data, nal, later);
          hasSpsPps, hasWriteSpsPps := Handle(nal, hasSpsPps, hasWriteSpsPps, w);
          index := index + nalLen;
          dataSize := dataSize - nalLen;
        } else {
          EmitNothing(specificInfo, wrote, params);
          assert w.data + [] == w.data;
          EmitIsOutput(specificInfo, all.nals);
          return NaluBodyLenError;
        }
      }
      assert src[index..] == [];
      EmitNothing(specificInfo, hasWriteSpsPps, pps.data);
      assert w.data + [] == w.data;
      EmitIsOutput(specificInfo, all.nals);
      err := NoError;
    }

    /** The switch over the type of one unit. */
    method Handle(nal: bytes, hasSpsPps0: bool, hasWriteSpsPps0: bool, w: Buffer)
        returns (hasSpsPps: bool, hasWriteSpsPps: bool)
      requires w != pps && nal != []
      requires hasSpsPps0 == (pps.data != [])
      modifies pps, w
      ensures hasSpsPps == (pps.data != []) && hasWriteSpsPps == (hasWriteSpsPps0 || IsIdr(nal))
      ensures pps.data == Params(old(pps.data), nal)
      ensures w.data == old(w.data) + WrittenFor(specificInfo, hasWriteSpsPps0, old(pps.data), nal)
    {
      hide WrittenFor;
      OutputOf(w.data, specificInfo, hasWriteSpsPps0, pps.data, nal);
      hasSpsPps, hasWriteSpsPps := hasSpsPps0, hasWriteSpsPps0;
      var nalType := nal[0] % 0x20;
      if nalType == IDR && !hasWriteSpsPps {
        hasWriteSpsPps := true;
        if !hasSpsPps {
          w.Write(specificInfo);
        } else {
          w.Write(pps.data);
        }
      }
      if nalType == IDR || nalType == SLICE || nalType == SEI {
        w.Write(START_CODE);
        w.Write(nal);
      } else if nalType == SPS || nalType == PPS {
        hasSpsPps := true;
        pps.Write(START_CODE);
        pps.Write(nal);
      }
    }
  }

  function Params(params: bytes, n: bytes): bytes { if IsParam(n) then params + START_CODE + n else params }

  /** What one unit adds to the output. */
  function WrittenFor(specific: bytes, wrote: bool, params: bytes, n: bytes): bytes {
    if IsIdr(n) then (if wrote then [] else if params == [] then specific else params) + (START_CODE + n)
    else if IsKept(n) then START_CODE + n
    else []
  }

  lemma OutputOf(w: bytes, specific: bytes, wrote: bool, params: bytes, n: bytes)
    ensures w + WrittenFor(specific, wrote, params, n) ==
            if IsIdr(n) && !wrote then w + (if params == [] then specific else params) + START_CODE + n
            else if IsKept(n) then w + START_CODE + n
            else w
  {
    hide IsIdr, IsKept;
    IdrIsKept(n);
    Regroup(w, if params == [] then specific else params, START_CODE, n);
  }

  lemma IdrIsKept(n: bytes)
    ensures IsIdr(n) ==> IsKept(n)
  {
  }

  lemma Regroup(a: bytes, b: bytes, c: bytes, d: bytes)
    ensures a + (b + (c + d)) == a + b + c + d && a + (c + d) == a + c + d && a + [] == a
    ensures a + ([] + (c + d)) == a + c + d
  {
  }

  lemma {:induction false} EmitOne(w: bytes, specific: bytes, wrote: bool, params: bytes, n: bytes, later: seq<bytes>)
    ensures w + Emit(specific, wrote, params, [n] + later) ==
      w + WrittenFor(specific, wrote, params, n) + Emit(specific, wrote || IsIdr(n), Params(params, n), later)
  {
    assert ([n] + later)[1..] == later;
  }

  lemma {:induction false} EmitNothing(specific: bytes, wrote: bool, params: bytes)
    ensures Emit(specific, wrote, params, []) == []
  {
  }

  lemma AppendTwice(a: bytes, b: bytes, c: bytes)
    ensures a + b + c == a + (b + c)
  {
  }

  lemma JoinTwo(a: bytes, b: bytes)
    ensures Join([a, b]) == START_CODE + a + (START_CODE + b)
  {
    assert [a, b][1..] == [b] && [b][1..] == [];
    assert Join([b]) == START_CODE + b + [];
  }

  lemma {:induction false} EmitAfterIdr(specific: bytes, params: bytes, nals: seq<bytes>)
    ensures Emit(specific, true, params, nals) == Join(Filter(nals, IsKept))
    decreases |nals|
  {
    if nals == [] {
    } else {
      var n := nals[0];
      var next := if !IsIdr(n) && !IsKept(n) && IsParam(n) then params + START_CODE + n else params;
      EmitAfterIdr(specific, next, nals[1..]);
      JoinAppend(if IsKept(n) then [n] else [], Filter(nals[1..], IsKept));
      JoinOne(n);
    }
  }

  lemma JoinOne(n: bytes)
    ensures Join([n]) == START_CODE + n
    ensures Join([]) == []
  {
    assert [n][1..] == [];
  }

  /** The parts of an access unit around its first IDR slice, in bytes. */
  function Around(specific: bytes, own: seq<bytes>, nals: seq<bytes>): bytes {
    var k := FirstIdr(nals);
    Join(Filter(nals[..k], IsKept))
      + (if k == |nals| then [] else if own == [] then specific else Join(own))
      + Join(Filter(nals[k..], IsKept))
  }

  /** The unit-by-unit form when the parameter sets ps have already been collected. */
  lemma {:induction false} EmitBeforeIdr(specific: bytes, ps: seq<bytes>, nals: seq<bytes>)
    ensures Emit(specific, false, Join(ps), nals)
         == Around(specific, ps + Filter(nals[..FirstIdr(nals)], IsParam), nals)
    decreases |nals|, 1
  {
    if nals == [] {
      assert nals[..0] == [] && ps + [] == ps;
    } else if IsIdr(nals[0]) {
      assert nals[..0] == [] && nals[0..] == nals && ps + [] == ps;
      EmitAfterIdr(specific, Join(ps), nals[1..]);
      JoinAppend([nals[0]], Filter(nals[1..], IsKept));
      JoinOne(nals[0]);
      assert (Join(ps) == []) == (ps == []);
    } else {
      BeforeIdrStep(specific, ps, nals);
    }
  }

  lemma {:induction false} BeforeIdrStep(specific: bytes, ps: seq<bytes>, nals: seq<bytes>)
    requires nals != [] && !IsIdr(nals[0])
    ensures Emit(specific, false, Join(ps), nals)
         == Around(specific, ps + Filter(nals[..FirstIdr(nals)], IsParam), nals)
    decreases |nals|, 0
  {
    hide Join, FirstIdr, Type;
    var n, rest := nals[0], nals[1..];
    var k := FirstIdr(rest);
    FirstIdrStep(nals);
    assert nals[..k + 1][1..] == rest[..k] && nals[..k + 1][0] == n && nals[k + 1..] == rest[k..];
    var own := Filter(rest[..k], IsParam);
    if IsKept(n) {
      EmitBeforeIdr(specific, ps, rest);
      JoinAppend([n], Filter(rest[..k], IsKept));
      JoinOne(n);
      assert Filter(nals[..k + 1], IsParam) == own;
      assert Filter(nals[..k + 1], IsKept) == [n] + Filter(rest[..k], IsKept);
      PutInFront(START_CODE + n, specific, ps + own, nals, rest);
    } else if IsParam(n) {
      EmitBeforeIdr(specific, ps + [n], rest);
      ParamStep(specific, ps, nals);
      assert Filter(nals[..k + 1], IsKept) == Filter(rest[..k], IsKept);
    } else {
      EmitBeforeIdr(specific, ps, rest);
      assert Filter(nals[..k + 1], IsKept) == Filter(rest[..k], IsKept);
      assert Filter(nals[..k + 1], IsParam) == own;
    }
  }

  lemma {:induction false} ParamStep(specific: bytes, ps: seq<bytes>, nals: seq<bytes>)
    requires nals != [] && IsParam(nals[0])
    ensures var k := FirstIdr(nals[1..]);
            FirstIdr(nals) == k + 1 && k <= |nals| - 1 &&
            ps + [nals[0]] + Filter(nals[1..][..k], IsParam) == ps + Filter(nals[..k + 1], IsParam)
    ensures Emit(specific, false, Join(ps), nals) == Emit(specific, false, Join(ps + [nals[0]]), nals[1..])
  {
    hide Join;
    var n, rest := nals[0], nals[1..];
    var k := FirstIdr(rest);
    assert nals[..k + 1][1..] == rest[..k] && nals[..k + 1][0] == n;
    JoinAppend(ps, [n]);
    JoinOne(n);
    assert Join(ps) + START_CODE + n == Join(ps + [n]);
  }

  lemma {:induction false} FirstIdrStep(nals: seq<bytes>)
    requires nals != [] && !IsIdr(nals[0])
    ensures FirstIdr(nals) == FirstIdr(nals[1..]) + 1
  {
  }

  lemma {:induction false} PutInFront(front: bytes, specific: bytes, own: seq<bytes>,
                                          nals: seq<bytes>, rest: seq<bytes>)
    requires nals != [] && rest == nals[1..] && !IsIdr(nals[0])
    requires Join(Filter(nals[..FirstIdr(nals)], IsKept)) == front + Join(Filter(rest[..FirstIdr(rest)], IsKept))
    ensures Around(specific, own, nals) == front + Around(specific, own, rest)
  {
    hide Join, Filter, IsIdr, IsKept;
    var k := FirstIdr(rest);
    FirstIdrStep(nals);
    assert nals[k + 1..] == rest[k..];
    var later := Join(Filter(rest[k..], IsKept));
    var middle := if k == |rest| then [] else if own == [] then specific else Join(own);
    var kept := Join(Filter(rest[..k], IsKept));
    assert front + kept + middle + later == front + (kept + middle + later);
  }

  lemma {:induction false} EmitIsOutput(specific: bytes, nals: seq<bytes>)
    ensures [0x00, 0x00, 0x00, 0x01, 0x09, 0xf0] + Emit(specific, false, [], nals) == OutputBytes(specific, nals)
  {
    hide Filter, Join, Emit;
    JoinOne(AUD_NAL);
    EmitBeforeIdr(specific, [], nals);
    var k := FirstIdr(nals);
    var own := Filter(nals[..k], IsParam);
    assert [] + own == own;
  }

  // ---- the results

  predicate FitLengths(nals: seq<bytes>) {
    forall i :: 0 <= i < |nals| ==> 0 < |nals[i]| < 0x1_0000_0000
  }

  /** Reading lengths undoes writing them. */
  lemma {:induction false} LengthsRead(nals: seq<bytes>)
    requires FitLengths(nals)
    ensures ReadLengths(LengthPrefixed(nals)) == Lengths(nals, NoError)
    decreases |nals|
  {
    hide Be32, De32;
    if nals == [] {
    } else {
      LengthsRead(nals[1..]);
      ReadOne(nals[0], LengthPrefixed(nals[1..]));
    }
  }

  lemma {:induction false} ReadStep(s: bytes, k: nat)
    requires |s| >= 4 && De32(s) == k && 0 < k <= |s| - 4
    ensures var later := ReadLengths(s[4 + k..]);
            ReadLengths(s) == Lengths([s[4..4 + k]] + later.nals, later.err)
  {
    hide De32;
  }

  lemma {:induction false} ReadOne(n: bytes, rest: bytes)
    requires 0 < |n| < 0x1_0000_0000
    ensures var later := ReadLengths(rest);
            ReadLengths(Be32(|n|) + n + rest) == Lengths([n] + later.nals, later.err)
  {
    hide Be32, De32, ReadLengths;
    var s := Be32(|n|) + n + rest;
    Be32Inverse(|n|);
    De32Prefix(Be32(|n|) + (n + rest));
    assert s == Be32(|n|) + (n + rest);
    ReadStep(s, |n|);
    assert s[4..4 + |n|] == n && s[4 + |n|..] == rest;
  }

  /** Behind whole units anything that is no whole unit ends the reading: fewer than four bytes are no length, and a
      length that is 0 or more than what is left fits no unit. */
  lemma {:induction false} TailEnds(nals: seq<bytes>, tail: bytes)
    requires FitLengths(nals)
    requires |tail| >= 4 ==> De32(tail) == 0 || De32(tail) > |tail| - 4
    ensures ReadLengths(LengthPrefixed(nals) + tail) ==
      Lengths(nals, if tail == [] then NoError else if |tail| < 4 then DataSizeNotMatch else NaluBodyLenError)
    decreases |nals|
  {
    hide Be32, De32;
    if nals == [] {
      assert LengthPrefixed(nals) + tail == tail;
    } else {
      TailEnds(nals[1..], tail);
      ReadOne(nals[0], LengthPrefixed(nals[1..]) + tail);
      assert LengthPrefixed(nals) + tail == Be32(|nals[0]|) + nals[0] + (LengthPrefixed(nals[1..]) + tail);
    }
  }

  /** Every accepted input is a list of units behind their lengths. */
  lemma {:induction false} LengthsWritten(src: bytes)
    requires ReadLengths(src).err == NoError
    ensures LengthPrefixed(ReadLengths(src).nals) == src && FitLengths(ReadLengths(src).nals)
    decreases |src|
  {
    hide Be32, De32;
    if src == [] {
    } else {
      var n := De32(src);
      LengthsWritten(src[4 + n..]);
      ReadStep(src, n);
      PrefixedAgain(src, n, ReadLengths(src[4 + n..]).nals);
    }
  }

  lemma {:induction false} PrefixedAgain(src: bytes, n: nat, later: seq<bytes>)
    requires |src| >= 4 && De32(src) == n <= |src| - 4 && LengthPrefixed(later) == src[4 + n..]
    ensures n < 0x1_0000_0000
    ensures LengthPrefixed([src[4..4 + n]] + later) == src
  {
    hide Be32, De32;
    DeInverse(src[..4]);
    De32Prefix(src);
    assert src == src[..4] + src[4..4 + n] + src[4 + n..];
    assert ([src[4..4 + n]] + later)[1..] == later;
  }

  lemma {:induction false} OutputIsJoin(header: seq<bytes>, nals: seq<bytes>)
    ensures OutputBytes(Join(header), nals) == Join([AUD_NAL] + AccessUnit(header, nals))
  {
    hide Join, Filter;
    var k := FirstIdr(nals);
    var own := Filter(nals[..k], IsParam);
    var a, c := Filter(nals[..k], IsKept), Filter(nals[k..], IsKept);
    var b := if k == |nals| then [] else if own == [] then header else own;
    JoinAppend([AUD_NAL], a + b + c);
    JoinAppend(a + b, c);
    JoinAppend(a, b);
    JoinOne(AUD_NAL);
  }

  /** Re-framing and scanning: from the byte stream made of length-prefixed units a scanner recovers
      one access unit delimiter and then exactly the access unit, if and only if no unit of it
      contains a start code and none but the last ends in a zero byte. */
  lemma {:induction false} ReframingScans(header: seq<bytes>, nals: seq<bytes>)
    requires nals != [] && FitLengths(nals)
    ensures AnnexedError(LengthPrefixed(nals)) == NoError
    ensures Units(Annexed(Join(header), LengthPrefixed(nals))) == [AUD_NAL] + AccessUnit(header, nals)
       <==> Separable([AUD_NAL] + AccessUnit(header, nals))
  {
    hide OutputBytes, AccessUnit, Units, Join, Separable, ReadLengths;
    LengthsRead(nals);
    OutputIsJoin(header, nals);
    ScanInvertsJoin([AUD_NAL] + AccessUnit(header, nals));
  }
}
