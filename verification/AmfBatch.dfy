/** Lists of AMF values (protocol/amf/amf.go), and the marker put before and taken off stream metadata
    (protocol/amf/metadata.go). */
module AmfBatch {
  import opened Bits
  import opened Amf
  import opened Av
  import Amf0
  import Amf3
  import Amf0Codec
  import Amf3Codec

  const AMF0 := 0
  const AMF3 := 3

  function ViewOf(ver: byte): View { if ver == AMF0 then Read0 else Read3 }

  // ---- one value

  function Decode(s: bytes, ver: byte): (r: Parsed<Value>)
    ensures r.Got? ==> |r.rest| < |s|
  {
    if ver == AMF0 then Amf0.Decode(s) else if ver == AMF3 then Amf3.Decode(s) else Fail(false)
  }

  /** What can be written and read back. */
  predicate WellFormed(t: Tree, ver: byte) {
    IsTree(t) && if ver == AMF0 then Amf0.WellFormed(t) else ver == AMF3 && Amf3.WellFormed(t)
  }

  /** The limits of the format, on a value. */
  predicate Limited(v: Value, ver: byte) {
    if ver == AMF0 then Amf0.Limited(v) else Amf3.Limited(v, Amf3.SIZE_LIMIT, Amf3.COUNT_LIMIT)
  }

  predicate AllLimited(vals: seq<Value>, ver: byte) {
    forall i :: 0 <= i < |vals| ==> Limited(vals[i], ver)
  }

  lemma {:induction false} LimitedWellFormed(t: Tree, ver: byte)
    requires (ver == AMF0 || ver == AMF3) && Writable(t, ver) && Limited(ValueOf(t, Written), ver)
    ensures WellFormed(t, ver)
  {
    hide Amf0.WellFormed, Amf0.Limited, Amf3.Within, Amf3.Limited, IsTree, ValueOf, Amf3.Encodable;
    if ver == AMF0 {
      Amf0.LimitedIff(t);
    } else {
      Amf3.LimitedIff(t, Amf3.SIZE_LIMIT, Amf3.COUNT_LIMIT);
    }
  }

  function Bytes(t: Tree, ver: byte): bytes
    requires Writable(t, ver)
  {
    if ver == AMF0 then Amf0.Bytes(t) else Amf3.Bytes(t)
  }

  predicate Writable(t: Tree, ver: byte) {
    IsTree(t) && (ver == AMF0 || (ver == AMF3 && Amf3.Encodable(t)))
  }

  predicate Accepted(v: Value, ver: byte) {
    if ver == AMF0 then Amf0Codec.Accepted(v) else ver == AMF3 && Amf3Codec.Fits(v)
  }

  method EncodeOne(w: Buffer, v: Value, ver: byte) returns (ok: bool, ghost t: Tree)
    modifies w
    ensures ok == Accepted(v, ver)
    ensures ok ==> Writable(t, ver) && ValueOf(t, Written) == v && w.data == old(w.data) + Bytes(t, ver)
  {
    hide Amf0.Bytes, Amf3.Bytes, ValueOf, IsTree, Amf3.Encodable, Amf3Codec.Sorted;
    t := Leaf(Null);
    match ver
    case 0 => ok, t := Amf0Codec.EncodeAmf0(w, v);
    case 3 => ok, t := Amf3Codec.EncodeAmf3(w, v);
    case _ => ok := false;
  }

  method DecodeOne(r: Reader, ver: byte) returns (res: Parsed<Value>)
    modifies r
    ensures res == Decode(old(r.rest), ver)
    ensures res.Got? ==> r.rest == res.rest
  {
    hide Amf0.Decode, Amf3.Decode;
    match ver
    case 0 => res := Amf0Codec.DecodeAmf0(r);
    case 3 => res := Amf3Codec.DecodeAmf3(r);
    case _ => res := Fail(false);
  }

  // ---- lists

  predicate AllWritable(ts: seq<Tree>, ver: byte) {
    forall i :: 0 <= i < |ts| ==> Writable(ts[i], ver)
  }

  function BatchBytes(ts: seq<Tree>, ver: byte): bytes
    requires AllWritable(ts, ver)
  {
    if ts == [] then [] else BatchBytes(ts[..|ts| - 1], ver) + Bytes(ts[|ts| - 1], ver)
  }

  /** The values up to the first error, and whether that is the end of the input. */
  datatype Batch = Batch(values: seq<Value>, eof: bool)

  function ReadBatch(s: bytes, ver: byte): Batch
    decreases |s|
  {
    match Decode(s, ver)
    case Fail(eof) => Batch([], eof)
    case Got(v, rest) =>
      var b := ReadBatch(rest, ver);
      Batch([v] + b.values, b.eof)
  }

  ghost predicate Renders(ts: seq<Tree>, vals: seq<Value>, ver: byte) {
    |ts| == |vals| && AllWritable(ts, ver) &&
    forall i :: 0 <= i < |ts| ==> ValueOf(ts[i], Written) == vals[i]
  }

  function NormAll(vals: seq<Value>, view: View): (r: seq<Value>)
    ensures |r| == |vals|
  {
    seq(|vals|, i requires 0 <= i < |vals| => Norm(vals[i], view))
  }

  lemma {:induction false} OneRoundTrip(t: Tree, ver: byte, suffix: bytes)
    requires WellFormed(t, ver) && Writable(t, ver)
    ensures Decode(Bytes(t, ver) + suffix, ver) == Got(Norm(ValueOf(t, Written), ViewOf(ver)), suffix)
  {
    hide Amf0.Decode, Amf3.Decode, Amf0.Bytes, Amf3.Bytes, Amf0.WellFormed, Amf3.Encodable, Norm, ValueOf, IsTree;
    if ver == AMF0 {
      Amf0.RoundTrip(t, suffix);
    } else {
      Amf3.RoundTrip(t, suffix);
    }
  }

  lemma {:induction false} BatchBytesHead(ts: seq<Tree>, ver: byte)
    requires AllWritable(ts, ver) && ts != []
    ensures BatchBytes(ts, ver) == Bytes(ts[0], ver) + BatchBytes(ts[1..], ver)
    decreases |ts|
  {
    hide Bytes, Writable;
    var n := |ts| - 1;
    if n > 0 {
      BatchBytesHead(ts[..n], ver);
      var tail := ts[1..];
      assert ts[..n][1..] == tail[..n - 1] && tail[n - 1] == ts[n];
      assert Bytes(ts[0], ver) + BatchBytes(tail[..n - 1], ver) + Bytes(ts[n], ver)
        == Bytes(ts[0], ver) + (BatchBytes(tail[..n - 1], ver) + Bytes(ts[n], ver));
    } else {
      assert ts[..n] == [] && ts[1..] == [];
    }
  }

  lemma NothingRead(ver: byte)
    requires ver == AMF0 || ver == AMF3
    ensures Decode([], ver) == Fail(true)
  {
  }

  /** Values within the limits, in trees of any key order: the list comes back, and then a plain end of
      input. */
  lemma {:induction false} BatchRoundTrip(ts: seq<Tree>, vals: seq<Value>, ver: byte)
    requires ver == 0 || ver == 3
    requires Renders(ts, vals, ver) && AllLimited(vals, ver)
    ensures ReadBatch(BatchBytes(ts, ver), ver) == Batch(NormAll(vals, ViewOf(ver)), true)
    decreases |ts|
  {
    hide Bytes, Writable, WellFormed, Limited, ValueOf, Norm, Amf0.Decode, Amf3.Decode;
    if ts == [] {
      NothingRead(ver);
    } else {
      BatchBytesHead(ts, ver);
      LimitedWellFormed(ts[0], ver);
      OneRoundTrip(ts[0], ver, BatchBytes(ts[1..], ver));
      BatchRoundTrip(ts[1..], vals[1..], ver);
      assert NormAll(vals, ViewOf(ver)) == [Norm(vals[0], ViewOf(ver))] + NormAll(vals[1..], ViewOf(ver));
    }
  }

  method EncodeBatch(w: Buffer, ver: byte, vals: seq<Value>) returns (ok: bool, ghost ts: seq<Tree>)
    modifies w
    ensures ok == forall i :: 0 <= i < |vals| ==> Accepted(vals[i], ver)
    ensures ok ==> Renders(ts, vals, ver) && w.data == old(w.data) + BatchBytes(ts, ver)
    ensures ok && (ver == 0 || ver == 3) && AllLimited(vals, ver) ==>
      ReadBatch(w.data[|old(w.data)|..], ver) == Batch(NormAll(vals, ViewOf(ver)), true)
  {
    hide Bytes, Writable, ValueOf, Accepted, Limited, ReadBatch;
    ts := [];
    for i := 0 to |vals|
      invariant |ts| == i && Renders(ts, vals[..i], ver) && forall j :: 0 <= j < i ==> Accepted(vals[j], ver)
      invariant w.data == old(w.data) + BatchBytes(ts, ver)
    {
      ghost var t;
      ok, t := EncodeOne(w, vals[i], ver);
      if !ok {
        return;
      }
      assert (ts + [t])[..i] == ts;
      ts := ts + [t];
    }
    ok := true;
    assert vals[..|vals|] == vals;
    if (ver == AMF0 || ver == AMF3) && AllLimited(vals, ver) {
      BatchRoundTrip(ts, vals, ver);
      assert w.data[|old(w.data)|..] == BatchBytes(ts, ver);
    }
  }

  method DecodeBatch(r: Reader, ver: byte) returns (ret: seq<Value>, eof: bool)
    modifies r
    ensures Batch(ret, eof) == ReadBatch(old(r.rest), ver)
  {
    hide Decode;
    ghost var s := r.rest;
    ret := [];
    var v := Fail(true);
    while true
      invariant var b := ReadBatch(r.rest, ver); ReadBatch(s, ver) == Batch(ret + b.values, b.eof)
      decreases |r.rest|
    {
      v := DecodeOne(r, ver);
      if v.Fail? {
        break;
      }
      assert ret + ([v.v] + ReadBatch(r.rest, ver).values) == ret + [v.v] + ReadBatch(r.rest, ver).values;
      ret := ret + [v.v];
    }
    assert ret + [] == ret;
    eof := v.eof;
  }

  // ---- stream metadata

  /** "@setDataFrame" */
  const SET_DATA_FRAME: bytes := [64, 115, 101, 116, 68, 97, 116, 97, 70, 114, 97, 109, 101]

  const SET_FRAME: bytes := [2, 0, 13] + SET_DATA_FRAME

  const ADD: byte := 0
  const DEL: byte := 3

  datatype Result = Ok(p: bytes) | Err

  /** The first value of a message, if it is a string. */
  function FirstString(p: bytes): Parsed<bytes> {
    match Amf0.Decode(p)
    case Fail(eof) => Fail(eof)
    case Got(v, rest) => if v.Str? then Got(v.s, rest) else Fail(false)
  }

  function Reformed(p: bytes, flag: byte): Result {
    var first := FirstString(p);
    if (flag != ADD && flag != DEL) || first.Fail? then Err
    else if flag == ADD then Ok(if first.v != SET_DATA_FRAME then SET_FRAME + p else p)
    else Ok(if first.v == SET_DATA_FRAME then NameTakesSixteen(p); p[|SET_FRAME|..] else p)
  }

  method MetaDataReform(p: bytes, flag: byte) returns (res: Result)
    ensures res == Reformed(p, flag)
  {
    hide Amf0.Decode;
    var r := new Reader(p);
    if flag == ADD {
      var v := DecodeOne(r, AMF0);
      if v.Fail? || !v.v.Str? {
        return Err;
      }
      if v.v.s != SET_DATA_FRAME {
        return Ok(SET_FRAME + p);
      }
      return Ok(p);
    } else if flag == DEL {
      var v := DecodeOne(r, AMF0);
      if v.Fail? || !v.v.Str? {
        return Err;
      }
      if v.v.s == SET_DATA_FRAME {
        NameTakesSixteen(p);
        return Ok(p[|SET_FRAME|..]);
      }
      return Ok(p);
    }
    res := Err;
  }

  /** The slice expression in DEL stays within the message, in whatever encoding the name came. */
  lemma NameTakesSixteen(p: bytes)
    requires FirstString(p).Got? && FirstString(p).v == SET_DATA_FRAME
    ensures |p| >= |SET_FRAME|
    ensures p[0] == 2 ==> FirstString(p).rest == p[|SET_FRAME|..]
    ensures p[0] != 2 && p[0] != 17 ==> |FirstString(p).rest| == |p| - 18
  {
    hide Amf0.Decode, Amf0.ReadString, Amf0.ReadLongString, Amf3.Decode;
    var marker, rest := p[0], p[1..];
    StringInAmf0(p);
    if marker == 17 {
      NameInAmf3(rest);
    } else if marker == 2 {
      StringTail(rest);
    }
  }

  lemma StringTail(s: bytes)
    requires Amf0.ReadString(s).Got?
    ensures var r := Amf0.ReadString(s); r.rest == s[2 + |r.v|..]
  {
    hide De16;
  }

  lemma {:induction false} StringInAmf0(p: bytes)
    requires var d := Amf0.Decode(p); d.Got? && d.v.Str?
    ensures p != []
    ensures var (d, s) := (Amf0.Decode(p), p[1..]);
            if p[0] == 17 then d == Amf3.Decode(s)
            else if p[0] == 2 then Amf0.ReadString(s) == Got(d.v.s, d.rest)
            else Amf0.ReadLongString(s) == Got(d.v.s, d.rest)
  {
    hide Amf0.DecodeFields, Amf0.DecodeItems, Amf0.ReadString, Amf0.ReadLongString, Amf3.Decode;
  }

  lemma {:induction false} NameInAmf3(p: bytes)
    requires var d := Amf3.Decode(p); d.Got? && d.v == Str(SET_DATA_FRAME)
    ensures |p| >= 15
  {
    hide Amf3.Decode, Amf3.ReadU29;
    StringInAmf3(p);
    var size := Amf3.ReadSize(p[1..]);
    if size.rest != [] && size.v > 0 {
      ShortRead(size.rest, size.v);
    }
  }

  lemma {:induction false} StringInAmf3(p: bytes)
    requires var d := Amf3.Decode(p); d.Got? && d.v.Str?
    ensures p != [] && Amf3.ReadString(p[1..]) == Got(Amf3.Decode(p).v.s, Amf3.Decode(p).rest)
  {
    hide Amf3.ReadU29, Amf3.ReadString, Amf3.ReadNames, Amf3.DecodeItems, Amf3.DecodeProperties, Amf3.DecodeDynamic;
  }

  /** A short read ends in a zero. */
  lemma ShortRead(s: bytes, n: nat)
    requires n > 0 && s != []
    ensures TakeSome(s, n).Got? && (|s| < n ==> TakeSome(s, n).v[n - 1] == 0)
  {
    if |s| < n {
      assert (s + Zeros(n - |s|))[n - 1] == Zeros(n - |s|)[n - |s| - 1];
    }
  }

  lemma SetFrameReads(p: bytes)
    ensures FirstString(SET_FRAME + p) == Got(SET_DATA_FRAME, p)
  {
    hide Amf0.Decode;
    Amf0.TreeRoundTrip(Leaf(Str(SET_DATA_FRAME)), p);
    assert Amf0.Bytes(Leaf(Str(SET_DATA_FRAME))) == SET_FRAME;
  }

  /** ADD puts the marker before a message exactly once; DEL takes off what ADD put on, and gives the
      message back exactly if it did not begin with the marker already. */
  lemma DelUndoesAdd(p: bytes)
    requires Reformed(p, 0).Ok?
    ensures var q := Reformed(p, 0).p;
            Reformed(q, 0) == Ok(q) &&
            Reformed(q, 3).Ok? &&
            (Reformed(q, 3) == Ok(p) <==> FirstString(p).v != SET_DATA_FRAME)
  {
    hide FirstString;
    if FirstString(p).v != SET_DATA_FRAME {
      SetFrameReads(p);
      assert (SET_FRAME + p)[|SET_FRAME|..] == p;
    } else {
      NameTakesSixteen(p);
    }
  }

  /** The name as an AMF3 string, behind the marker that leads there: whether it took 16 bytes depends on
      the first byte of its length. */
  lemma {:induction false} NameRest(p: bytes)
    requires var d := Amf3.Decode(p); d.Got? && d.v == Str(SET_DATA_FRAME)
    ensures |p| >= 15
    ensures p[1] < 0x80 ==> Amf3.Decode(p).rest == p[15..]
    ensures p[1] >= 0x80 ==> |Amf3.Decode(p).rest| < |p| - 15
  {
    hide Amf3.Decode, Amf3.ReadU29;
    NameInAmf3(p);
    StringInAmf3(p);
    LengthBytes(p[1..]);
    var size := Amf3.ReadSize(p[1..]);
    ShortRead(size.rest, size.v);
    FullRead(size.rest, size.v);
    if p[1] < 0x80 {
      assert p[1..][1..][13..] == p[15..];
    }
  }

  lemma FullRead(s: bytes, n: nat)
    ensures |s| >= n > 0 ==> TakeSome(s, n) == Got(s[..n], s[n..])
  {
  }

  /** A length of one byte, and a longer one. */
  lemma LengthBytes(s: bytes)
    requires Amf3.ReadU29(s).Got?
    ensures s != [] && (s[0] < 0x80 ==> Amf3.ReadU29(s).rest == s[1..])
    ensures s[0] >= 0x80 ==> |Amf3.ReadU29(s).rest| < |s| - 1
  {
  }

  /** DEL takes off exactly the name if it is an AMF0 short string, or an AMF3 string with its length in
      one byte, and in no other encoding. */
  lemma DelTakesTheName(p: bytes)
    requires FirstString(p).Got? && FirstString(p).v == SET_DATA_FRAME
    ensures |p| >= |SET_FRAME|
    ensures Reformed(p, 3) == Ok(FirstString(p).rest) <==> p[0] == 2 || (p[0] == 17 && p[2] < 0x80)
  {
    hide Amf0.Decode, Amf3.Decode;
    NameTakesSixteen(p);
    if p[0] == 17 {
      StringInAmf0(p);
      NameRest(p[1..]);
      assert p[1..][15..] == p[16..];
    }
    assert |p[|SET_FRAME|..]| == |p| - 16;
  }

  /** Version 0 takes the values without typed objects, version 3 those whose sizes look small, and no other takes or
      reads anything. */
  lemma {:induction false} VersionsAre(v: Value, ver: byte, s: bytes)
    ensures Accepted(v, ver) <==>
      (ver == 0 && !Amf0Codec.HoldsTyped(v)) || (ver == 3 && Amf3Codec.LooksSmall(v))
    ensures Decode(s, ver) == if ver == 0 then Amf0.Decode(s) else if ver == 3 then Amf3.Decode(s) else Fail(false)
  {
    hide Amf0Codec.Accepted, Amf0Codec.HoldsTyped, Amf3Codec.Fits, Amf3Codec.LooksSmall, Amf0.Decode, Amf3.Decode;
    Amf0Codec.AcceptedIff(v);
    Amf3Codec.FitsIffSmall(v);
  }

  /** A message that does not begin with a string is refused, and so is any wish but 0 and 3. */
  lemma {:induction false} RefusedIff(p: bytes, flag: byte)
    ensures Reformed(p, flag).Err? <==>
      (flag != 0 && flag != 3) || Amf0.Decode(p).Fail? || !Amf0.Decode(p).v.Str?
  {
    hide Amf0.Decode;
  }

  /** The marker is the name @setDataFrame as a short string. */
  lemma MarkerSays()
    ensures |SET_DATA_FRAME| == |"@setDataFrame"|
    ensures forall i :: 0 <= i < |SET_DATA_FRAME| ==> SET_DATA_FRAME[i] == "@setDataFrame"[i] as int
    ensures SET_FRAME == [2] + Be16(13) + SET_DATA_FRAME
  {
  }

  /** The same name as a long string: two of its bytes stay in front of the message. */
  lemma LongNameStays(message: bytes)
    ensures var p := [12] + Be32(13) + SET_DATA_FRAME + message;
            FirstString(p) == Got(SET_DATA_FRAME, message) && Reformed(p, 3) == Ok([109, 101] + message)
  {
    hide Be32, De32, Amf0.DecodeFields, Amf0.DecodeArray, Amf0.DecodeTyped, Amf3.Decode, Amf0.ReadLongString;
    var p := [12] + Be32(13) + SET_DATA_FRAME + message;
    var s := p[1..];
    assert s == Be32(13) + SET_DATA_FRAME + message;
    Amf0.LongStringReads(SET_DATA_FRAME, message);
    assert p[16..] == [109, 101] + message;
  }
}
