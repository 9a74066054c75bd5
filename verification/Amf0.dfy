/** The AMF0 codec (protocol/amf/encoder_amf0.go, decoder_amf0.go; section 2 of the AMF0 specification):
    what is written, what is read, and that reading undoes writing. */
module Amf0 {
  import opened Bits
  import opened Float64
  import opened Amf
  import Amf3

  const STRING_MAX := 65535
  const LONG_LIMIT := 0x1_0000_0000

  // ---- what the encoder writes

  /** A string without its marker; the length is cut to 16 bits. */
  function ShortString(s: bytes): bytes { Be16(|s|) + s }

  function ScalarBytes(v: Value): bytes
    requires Scalar(v)
  {
    match v
    case Null => [5]
    case Bool(b) => [1, if b then 1 else 0]
    case Int(n, _) => [0] + FloatOf(n)
    case Number(bits) => [0] + bits
    case Str(s) => if |s| <= STRING_MAX then [2] + ShortString(s) else [12] + Be32(|s|) + s
  }

  const OBJECT_END: bytes := [0, 0, 9]

  function Bytes(t: Tree): bytes
    requires IsTree(t)
    decreases t
  {
    match t
    case Leaf(v) => ScalarBytes(v)
    case List(items) => [10] + Be32(|items|) + ListBytes(items)
    case Fields(_, _, entries) => [3] + EntryBytes(entries) + OBJECT_END
  }

  function ListBytes(items: seq<Tree>): bytes
    requires forall i :: 0 <= i < |items| ==> IsTree(items[i])
    decreases items
  {
    if items == [] then [] else Bytes(items[0]) + ListBytes(items[1..])
  }

  function EntryBytes(es: seq<Entry>): bytes
    requires AreEntries(es)
    decreases es
  {
    if es == [] then []
    else TailEntries(es); ShortString(es[0].key) + Bytes(es[0].val) + EntryBytes(es[1..])
  }

  // ---- what the decoder reads

  function ReadString(s: bytes): (r: Parsed<bytes>)
    ensures r.Got? ==> |r.rest| + 2 + |r.v| == |s| && |r.v| <= STRING_MAX
    ensures r.Fail? ==> !r.eof
  {
    if |s| < 2 then Fail(false) else TakeExactly(s[2..], De16(s))
  }

  function ReadLongString(s: bytes): (r: Parsed<bytes>)
    ensures r.Got? ==> |r.rest| + 4 + |r.v| == |s| && |r.v| < LONG_LIMIT
    ensures r.Fail? ==> !r.eof
  {
    if |s| < 4 then Fail(false) else TakeExactly(s[4..], De32(s))
  }

  /** Decoding terminates on every input: a value takes at least its marker. */
  function Decode(s: bytes): (r: Parsed<Value>)
    ensures r.Got? ==> |r.rest| < |s|
    decreases |s|, 1
  {
    match TakeByte(s)
    case Fail(eof) => Fail(eof)
    case Got(marker, rest) =>
      if marker == 3 then AsObject(DecodeFields(rest, map[]))
      else if marker == 8 then AsObject(DecodeFields(if |rest| < 4 then [] else rest[4..], map[]))
      else if marker == 10 then DecodeArray(rest)
      else if marker == 16 then DecodeTyped(rest)
      else if marker == 17 then Amf3.Decode(rest)
      else DecodeScalar(marker, rest)
  }

  function AsObject(m: Parsed<map<bytes, Value>>): Parsed<Value> {
    match m
    case Fail(_) => Fail(false)
    case Got(fields, rest) => Got(Obj(fields), rest)
  }

  function AsString(s: Parsed<bytes>): Parsed<Value> {
    match s
    case Fail(eof) => Fail(eof)
    case Got(v, rest) => Got(Str(v), rest)
  }

  function AsNumber(s: bytes, trailer: nat): (r: Parsed<Value>)
    ensures r.Got? ==> |r.rest| <= |s|
  {
    if |s| < 8 + trailer then Fail(false) else Got(Number(s[..8]), s[8 + trailer..])
  }

  function DecodeScalar(marker: byte, s: bytes): (r: Parsed<Value>)
    ensures r.Got? ==> |r.rest| <= |s|
  {
    if marker == 0 then AsNumber(s, 0)
    else if marker == 1 then
      match TakeByte(s)
      case Fail(eof) => Fail(eof)
      case Got(b, rest) => if b <= 1 then Got(Bool(b == 1), rest) else Fail(false)
    else if marker == 2 then AsString(ReadString(s))
    else if marker == 5 || marker == 6 || marker == 13 then Got(Null, s)
    else if marker == 11 then AsNumber(s, 2)
    else if marker == 12 || marker == 15 then AsString(ReadLongString(s))
    else Fail(false)
  }

  function DecodeTyped(s: bytes): (r: Parsed<Value>)
    ensures r.Got? ==> |r.rest| < |s|
    decreases |s|, 2
  {
    match ReadString(s)
    case Fail(_) => Fail(false)
    case Got(name, rest) =>
      match DecodeFields(rest, map[])
      case Fail(_) => Fail(false)
      case Got(fields, rest2) => Got(Typed(name, fields), rest2)
  }

  function DecodeFields(s: bytes, acc: map<bytes, Value>): (r: Parsed<map<bytes, Value>>)
    ensures r.Got? ==> |r.rest| < |s|
    ensures r.Fail? ==> !r.eof
    decreases |s|, 0
  {
    match ReadString(s)
    case Fail(_) => Fail(false)
    case Got(key, rest) =>
      if key == [] then
        match TakeByte(rest)
        case Fail(_) => Fail(false)
        case Got(marker, rest2) => if marker == 9 then Got(acc, rest2) else Fail(false)
      else
        match Decode(rest)
        case Fail(_) => Fail(false)
        case Got(v, rest2) => DecodeFields(rest2, acc[key := v])
  }

  function DecodeArray(s: bytes): (r: Parsed<Value>)
    ensures r.Got? ==> |r.rest| < |s|
    decreases |s|, 0
  {
    if |s| < 4 then Fail(false)
    else
      match DecodeItems(s[4..], De32(s))
      case Fail(_) => Fail(false)
      case Got(items, rest) => Got(Arr(items), rest)
  }

  function DecodeItems(s: bytes, n: nat): (r: Parsed<seq<Value>>)
    ensures r.Got? ==> |r.rest| <= |s| && |r.v| == n
    ensures r.Fail? ==> !r.eof
    decreases |s|, 2
  {
    if n == 0 then Got([], s)
    else
      match Decode(s)
      case Fail(_) => Fail(false)
      case Got(v, rest) =>
        Prepend(v, DecodeItems(rest, n - 1))
  }

  // ---- the decoder undoes the encoder

  /** The limits of the format on one level. */
  predicate OwnLimits(t: Tree) {
    match t
    case Leaf(v) => v.Str? ==> |v.s| < LONG_LIMIT
    case List(items) => |items| < LONG_LIMIT
    case Fields(_, _, es) => forall i :: 0 <= i < |es| ==> 1 <= |es[i].key| <= STRING_MAX
  }

  predicate WellFormed(t: Tree)
    decreases t
  {
    OwnLimits(t) &&
    match t
    case Leaf(_) => true
    case List(items) => forall i :: 0 <= i < |items| ==> WellFormed(items[i])
    case Fields(_, _, es) => forall i :: 0 <= i < |es| ==> WellFormed(es[i].val)
  }

  predicate WellFormedEntries(es: seq<Entry>) {
    forall i :: 0 <= i < |es| ==> 1 <= |es[i].key| <= STRING_MAX && WellFormed(es[i].val)
  }

  lemma StringReads(b: bytes, suffix: bytes)
    requires |b| <= STRING_MAX
    ensures ReadString(ShortString(b) + suffix) == Got(b, suffix)
  {
    hide De16, Be16;
    var s := ShortString(b) + suffix;
    assert s[..2] == Be16(|b|) && s[2..] == b + suffix;
    De16Prefix(s);
    Be16Inverse(|b|);
    assert (b + suffix)[..|b|] == b && (b + suffix)[|b|..] == suffix;
  }

  lemma LongStringReads(b: bytes, suffix: bytes)
    requires |b| < LONG_LIMIT
    ensures ReadLongString(Be32(|b|) + b + suffix) == Got(b, suffix)
  {
    hide De32, Be32;
    var s := Be32(|b|) + b + suffix;
    assert s[..4] == Be32(|b|) && s[4..] == b + suffix;
    De32Prefix(s);
    Be32Inverse(|b|);
    assert (b + suffix)[..|b|] == b && (b + suffix)[|b|..] == suffix;
  }

  lemma {:induction false} ScalarReads(v: Value, suffix: bytes)
    requires Scalar(v) && OwnLimits(Leaf(v))
    ensures Decode(ScalarBytes(v) + suffix) == Got(Seen(v, Read0), suffix)
  {
    hide FloatOf, ShortString, Be32, ReadString, ReadLongString, DecodeFields, DecodeArray, DecodeTyped, Amf3.Decode;
    var b := ScalarBytes(v);
    var rest := (b + suffix)[1..];
    assert rest == b[1..] + suffix;
    if v.Int? {
      assert rest[..8] == FloatOf(v.n) && rest[8..] == suffix;
    } else if v.Number? {
      assert rest[..8] == v.bits && rest[8..] == suffix;
    } else if v.Str? && |v.s| <= STRING_MAX {
      assert b[1..] == ShortString(v.s);
      StringReads(v.s, suffix);
    } else if v.Str? {
      assert b[1..] == Be32(|v.s|) + v.s;
      LongStringReads(v.s, suffix);
    } else if v.Bool? {
      assert rest[1..] == suffix;
    } else {
      assert b[1..] == [];
    }
  }

  /** AMF0: reading what was written, with anything behind it, gives the value back, whatever the order
      of the keys, and leaves what is behind it. */
  lemma {:induction false} TreeRoundTrip(t: Tree, suffix: bytes)
    requires IsTree(t) && WellFormed(t)
    ensures Decode(Bytes(t) + suffix) == Got(ValueOf(t, Read0), suffix)
    decreases t, 0
  {
    hide Decode, ScalarBytes, DecodeFields, DecodeItems, ListBytes, EntryBytes, Be32, FieldsOf;
    match t
    case Leaf(v) => ScalarReads(v, suffix);
    case List(items) =>
      ItemsRoundTrip(items, suffix);
      ArrayReads(items, ListBytes(items), suffix);
    case Fields(_, _, es) =>
      FieldsRoundTrip(es, map[], suffix);
      ObjectReads(es, EntryBytes(es), suffix);
  }

  lemma {:induction false} ArrayReads(items: seq<Tree>, b: bytes, suffix: bytes)
    requires |items| < LONG_LIMIT
    requires forall i :: 0 <= i < |items| ==> IsTree(items[i])
    requires DecodeItems(b + suffix, |items|) == Got(ValuesOf(items, Read0), suffix)
    ensures Decode([10] + Be32(|items|) + b + suffix) == Got(Arr(ValuesOf(items, Read0)), suffix)
  {
    hide Be32, De32, DecodeItems, DecodeFields, DecodeTyped, DecodeScalar, Amf3.Decode, IsTree, ValuesOf;
    var s := [10] + Be32(|items|) + b + suffix;
    var rest := s[1..];
    assert rest[..4] == Be32(|items|) && rest[4..] == b + suffix;
    De32Prefix(rest);
    Be32Inverse(|items|);
  }

  lemma {:induction false} ObjectReads(es: seq<Entry>, b: bytes, suffix: bytes)
    requires AreEntries(es)
    requires DecodeFields(b + OBJECT_END + suffix, map[]) == Got(FieldsOf(es, Read0, map[]), suffix)
    ensures Decode([3] + b + OBJECT_END + suffix) == Got(Obj(FieldsOf(es, Read0, map[])), suffix)
  {
    hide DecodeFields, DecodeTyped, DecodeArray, DecodeScalar, Amf3.Decode, AreEntries, FieldsOf;
    var s := [3] + b + OBJECT_END + suffix;
    assert s[1..] == b + OBJECT_END + suffix;
  }

  lemma {:induction false} ListHead(items: seq<Tree>, suffix: bytes)
    requires items != [] && forall i :: 0 <= i < |items| ==> IsTree(items[i])
    ensures forall i :: 0 <= i < |items[1..]| ==> items[1..][i] == items[i + 1]
    ensures ListBytes(items) + suffix == Bytes(items[0]) + (ListBytes(items[1..]) + suffix)
    ensures ValuesOf(items, Read0) == [ValueOf(items[0], Read0)] + ValuesOf(items[1..], Read0)
  {
    hide Bytes, IsTree, ValueOf;
  }

  lemma {:induction false} ItemsRoundTrip(items: seq<Tree>, suffix: bytes)
    requires forall i :: 0 <= i < |items| ==> IsTree(items[i]) && WellFormed(items[i])
    ensures DecodeItems(ListBytes(items) + suffix, |items|) == Got(ValuesOf(items, Read0), suffix)
    decreases items, 1
  {
    hide Decode, Bytes, WellFormed, IsTree, ValueOf;
    if items == [] {
      assert ListBytes(items) + suffix == suffix;
    } else {
      var tail := items[1..];
      ListHead(items, suffix);
      TreeRoundTrip(items[0], ListBytes(tail) + suffix);
      ItemsRoundTrip(tail, suffix);
    }
  }

  lemma {:induction false} FieldsRoundTrip(es: seq<Entry>, acc: map<bytes, Value>, suffix: bytes)
    requires AreEntries(es) && WellFormedEntries(es)
    ensures DecodeFields(EntryBytes(es) + OBJECT_END + suffix, acc) == Got(FieldsOf(es, Read0, acc), suffix)
    decreases es, 1
  {
    hide Decode, Bytes, IsTree, ValueOf, WellFormed, ShortString, ReadString;
    if es == [] {
      EndReads(acc, suffix);
      assert EntryBytes(es) + OBJECT_END + suffix == OBJECT_END + suffix;
    } else {
      TailEntries(es);
      var tail := es[1..];
      assert forall i :: 0 <= i < |tail| ==> tail[i] == es[i + 1];
      var behind := EntryBytes(tail) + OBJECT_END + suffix;
      TreeRoundTrip(es[0].val, behind);
      StringReads(es[0].key, Bytes(es[0].val) + behind);
      assert EntryBytes(es) + OBJECT_END + suffix == ShortString(es[0].key) + (Bytes(es[0].val) + behind);
      FieldsRoundTrip(tail, acc[es[0].key := ValueOf(es[0].val, Read0)], suffix);
    }
  }

  lemma {:induction false} EndReads(acc: map<bytes, Value>, suffix: bytes)
    ensures DecodeFields(OBJECT_END + suffix, acc) == Got(acc, suffix)
  {
    hide Decode, ReadString;
    EmptyString();
    StringReads([], [9] + suffix);
    assert OBJECT_END + suffix == ShortString([]) + ([9] + suffix);
    assert ([9] + suffix)[1..] == suffix;
  }

  lemma EmptyString()
    ensures ShortString([]) == [0, 0]
  {
  }

  // ---- and only within the limits

  /** The tree is read back as it was written, whatever follows. */
  ghost predicate Survives(t: Tree)
    requires IsTree(t)
  {
    forall suffix: bytes :: Decode(Bytes(t) + suffix) == Got(ValueOf(t, Read0), suffix)
  }

  ghost predicate AllSurvive(t: Tree)
    requires IsTree(t)
    decreases t
  {
    Survives(t) &&
    match t
    case Leaf(_) => true
    case List(items) => forall i :: 0 <= i < |items| ==> AllSurvive(items[i])
    case Fields(_, _, es) => forall i :: 0 <= i < |es| ==> EntrySurvives(es, i)
  }

  ghost predicate EntrySurvives(es: seq<Entry>, i: nat)
    requires AreEntries(es) && i < |es|
    decreases es
  {
    AllSurvive(es[i].val)
  }

  /** Keys that come out of the decoder are short and not empty. */
  lemma {:induction false} KeysRead(s: bytes, acc: map<bytes, Value>)
    requires forall k :: k in acc ==> 1 <= |k| <= STRING_MAX
    ensures var r := DecodeFields(s, acc); r.Got? ==> forall k :: k in r.v ==> 1 <= |k| <= STRING_MAX
    decreases |s|
  {
    hide Decode, ReadString;
    var key := ReadString(s);
    if key.Fail? || key.v == [] || Decode(key.rest).Fail? {
    } else {
      KeysRead(Decode(key.rest).rest, acc[key.v := Decode(key.rest).v]);
    }
  }

  lemma {:induction false} SurvivorLimits(t: Tree)
    requires IsTree(t) && Survives(t)
    ensures OwnLimits(t)
  {
    hide DecodeFields, DecodeItems, EntryBytes, ListBytes, FieldsOf, De32, Be32, TakeExactly, ShortString, Amf3.Decode,
         Distinct;
    var s := Bytes(t) + [];
    assert Decode(s) == Got(ValueOf(t, Read0), []);
    match t
    case Leaf(v) =>
    case List(items) =>
      assert s[0] == 10;
      ArrayLength(s);
      assert ValueOf(t, Read0) == Arr(ValuesOf(items, Read0));
    case Fields(_, _, es) =>
      assert s[0] == 3;
      KeysRead(s[1..], map[]);
      KeysIn(es);
  }

  lemma {:induction false} ArrayLength(s: bytes)
    requires s != [] && s[0] == 10
    ensures var r := Decode(s); r.Got? ==> r.v.Arr? && |r.v.items| < LONG_LIMIT
  {
    hide DecodeItems;
  }

  lemma {:induction false} KeysIn(es: seq<Entry>)
    requires AreEntries(es)
    ensures forall i :: 0 <= i < |es| ==> es[i].key in FieldsOf(es, Read0, map[])
  {
    hide IsTree, FieldsOf, ValueOf;
    FieldsContents(es, Read0, map[]);
  }

  /** A tree and all its subtrees are read back exactly if every key has 1 to 65535 bytes and every
      string and array has fewer than 2^32 bytes or elements. */
  lemma {:induction false} AllSurviveIff(t: Tree)
    requires IsTree(t)
    ensures AllSurvive(t) <==> WellFormed(t)
    decreases t
  {
    hide Survives, OwnLimits, Distinct;
    if WellFormed(t) {
      RoundTripSurvives(t);
    }
    if Survives(t) {
      SurvivorLimits(t);
    }
    match t
    case Leaf(_) =>
    case List(items) =>
      forall i | 0 <= i < |items|
        ensures AllSurvive(items[i]) <==> WellFormed(items[i])
      {
        AllSurviveIff(items[i]);
      }
    case Fields(_, _, es) =>
      forall i | 0 <= i < |es|
        ensures EntrySurvives(es, i) <==> WellFormed(es[i].val)
      {
        AllSurviveIff(es[i].val);
      }
  }

  lemma {:induction false} RoundTripSurvives(t: Tree)
    requires IsTree(t) && WellFormed(t)
    ensures Survives(t)
  {
    hide Decode, Bytes, ValueOf, WellFormed, IsTree;
    forall suffix: bytes
      ensures Decode(Bytes(t) + suffix) == Got(ValueOf(t, Read0), suffix)
    {
      TreeRoundTrip(t, suffix);
    }
  }

  /** The statement about values: whatever order the keys were written in. */
  lemma {:induction false} RoundTrip(t: Tree, suffix: bytes)
    requires IsTree(t) && WellFormed(t)
    ensures Decode(Bytes(t) + suffix) == Got(Norm(ValueOf(t, Written), Read0), suffix)
  {
    hide Decode, Bytes, WellFormed, IsTree, Norm, ValueOf;
    TreeRoundTrip(t, suffix);
    ValueOfIsNorm(t, Read0);
  }

  /** The limits on a value, whatever the order of its keys. */
  predicate Limited(v: Value)
    decreases v
  {
    match v
    case Str(s) => |s| < LONG_LIMIT
    case Arr(items) => |items| < LONG_LIMIT && forall i :: 0 <= i < |items| ==> Limited(items[i])
    case Obj(m) => forall k :: k in m ==> 1 <= |k| <= STRING_MAX && Limited(m[k])
    case Typed(_, m) => forall k :: k in m ==> 1 <= |k| <= STRING_MAX && Limited(m[k])
    case _ => true
  }

  lemma {:induction false} LimitedIff(t: Tree)
    requires IsTree(t)
    ensures WellFormed(t) <==> Limited(ValueOf(t, Written))
    decreases t
  {
    hide WellFormed, Limited, ValueOf;
    match t
    case Leaf(_) => LeafLimited(t);
    case List(items) =>
      forall i | 0 <= i < |items|
        ensures WellFormed(items[i]) <==> Limited(ValueOf(items[i], Written))
      {
        LimitedIff(items[i]);
      }
      ListLimited(t);
    case Fields(_, _, es) =>
      forall i | 0 <= i < |es|
        ensures WellFormed(es[i].val) <==> Limited(ValueOf(es[i].val, Written))
      {
        LimitedIff(es[i].val);
      }
      FieldsLimited(t);
  }

  lemma {:induction false} LeafLimited(t: Tree)
    requires IsTree(t) && t.Leaf?
    ensures WellFormed(t) <==> Limited(ValueOf(t, Written))
  {
  }

  lemma {:induction false} ListLimited(t: Tree)
    requires IsTree(t) && t.List?
    requires forall i :: 0 <= i < |t.items| ==>
      (WellFormed(t.items[i]) <==> Limited(ValueOf(t.items[i], Written)))
    ensures WellFormed(t) <==> Limited(ValueOf(t, Written))
  {
    var vs := ValuesOf(t.items, Written);
    assert forall i :: 0 <= i < |t.items| ==> vs[i] == ValueOf(t.items[i], Written);
  }

  lemma {:induction false} FieldsLimited(t: Tree)
    requires IsTree(t) && t.Fields? && AreEntries(t.entries)
    requires forall i :: 0 <= i < |t.entries| ==>
      (WellFormed(t.entries[i].val) <==> Limited(ValueOf(t.entries[i].val, Written)))
    ensures WellFormed(t) <==> Limited(ValueOf(t, Written))
  {
    hide FieldsOf, Distinct;
    var m := FieldsOf(t.entries, Written, map[]);
    FieldsCount(t.entries, Written, map[]);
    FieldsForall(t.entries, m, (k: bytes, v: Value) => 1 <= |k| <= STRING_MAX && Limited(v));
  }

  /** An integer comes back as a double, with the same value exactly if it has at most 53 significant bits,
      as all integers up to 2^53 have. */
  lemma {:induction false} IntegerSurvives(n: GoInt, wide: bool, suffix: bytes)
    ensures var d := Decode(Bytes(Leaf(Int(n, wide))) + suffix);
            d.Got? && d.v.Number? && d.rest == suffix &&
            (IntegerOf(d.v.bits) == n <==> Representable(n)) &&
            (-0x20_0000_0000_0000 <= n <= 0x20_0000_0000_0000 ==> IntegerOf(d.v.bits) == n)
  {
    hide Decode, ScalarBytes, IntegerOf, FloatOf, Representable;
    ScalarReads(Int(n, wide), suffix);
    ExactIff(n);
    if Abs(n) <= 0x20_0000_0000_0000 {
      SmallRepresentable(n);
    }
  }
}
