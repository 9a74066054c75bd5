/** The AMF0 encoder and decoder as they run: writing to a buffer, consuming a reader. */
module Amf0Codec {
  import opened Bits
  import opened Float64
  import opened Amf
  import opened Amf0
  import opened Av
  import Amf3
  import Amf3Codec

  // ---- the encoder

  /** What the encoder accepts: no typed object at any depth. */
  predicate Accepted(v: Value)
    decreases v
  {
    match v
    case Arr(items) => forall i :: 0 <= i < |items| ==> Accepted(items[i])
    case Obj(m) => forall k :: k in m ==> Accepted(m[k])
    case Typed(_, _) => false
    case _ => true
  }

  /** A typed object in it, at some depth. */
  predicate HoldsTyped(v: Value)
    decreases v
  {
    match v
    case Arr(items) => exists i :: 0 <= i < |items| && HoldsTyped(items[i])
    case Obj(m) => exists k :: k in m && HoldsTyped(m[k])
    case _ => v.Typed?
  }

  lemma {:induction false} AcceptedIff(v: Value)
    ensures Accepted(v) <==> !HoldsTyped(v)
    decreases v
  {
    match v
    case Arr(items) =>
      forall i | 0 <= i < |items|
        ensures Accepted(items[i]) <==> !HoldsTyped(items[i])
      {
        AcceptedIff(items[i]);
      }
    case Obj(m) =>
      forall k | k in m
        ensures Accepted(m[k]) <==> !HoldsTyped(m[k])
      {
        AcceptedIff(m[k]);
      }
    case _ =>
  }

  ghost predicate Renders(t: Tree, v: Value) {
    IsTree(t) && ValueOf(t, Written) == v
  }

  method EncodeScalar(w: Buffer, v: Value)
    requires Scalar(v)
    modifies w
    ensures w.data == old(w.data) + ScalarBytes(v)
  {
    hide FloatOf, Be32, Be16;
    ghost var before := w.data;
    match v
    case Null => w.Write([5]);
    case Bool(b) =>
      w.Write([1]);
      w.Write([if b then 1 else 0]);
      assert w.data == before + [1, if b then 1 else 0];
    case Int(n, _) =>
      w.Write([0]);
      w.Write(FloatOf(n));
      assert w.data == before + ([0] + FloatOf(n));
    case Number(bits) =>
      w.Write([0]);
      w.Write(bits);
      assert w.data == before + ([0] + bits);
    case Str(s) =>
      if |s| <= STRING_MAX {
        w.Write([2]);
        EncodeString(w, s);
        assert w.data == before + ([2] + ShortString(s));
      } else {
        w.Write([12]);
        w.Write(Be32(|s|));
        w.Write(s);
        assert w.data == before + ([12] + Be32(|s|) + s);
      }
  }

  method EncodeString(w: Buffer, s: bytes)
    modifies w
    ensures w.data == old(w.data) + ShortString(s)
  {
    hide Be16;
    w.Write(Be16(|s|));
    w.Write(s);
    assert w.data == old(w.data) + (Be16(|s|) + s);
  }

  method EncodeAmf0(w: Buffer, v: Value) returns (ok: bool, ghost t: Tree)
    modifies w
    ensures ok == Accepted(v)
    ensures ok ==> Renders(t, v) && w.data == old(w.data) + Bytes(t)
    decreases v, 1
  {
    hide ScalarBytes, FieldsOf, ValuesOf, EntryBytes, ListBytes;
    t := Leaf(v);
    ok := true;
    if v.Arr? {
      ok, t := EncodeArray(w, v);
    } else if v.Obj? {
      ok, t := EncodeObject(w, v);
    } else if v.Typed? {
      ok := false;
    } else {
      EncodeScalar(w, v);
    }
  }

  ghost predicate AllRender(ts: seq<Tree>, vs: seq<Value>) {
    |ts| == |vs| && forall i :: 0 <= i < |ts| ==> Renders(ts[i], vs[i])
  }

  ghost function ListPart(ts: seq<Tree>, vs: seq<Value>): bytes
    requires AllRender(ts, vs)
  {
    ListBytes(ts)
  }

  lemma {:induction false} ListBytesAppend(ts: seq<Tree>, t: Tree)
    requires IsTree(t) && forall i :: 0 <= i < |ts| ==> IsTree(ts[i])
    ensures ListBytes(ts + [t]) == ListBytes(ts) + Bytes(t)
    decreases |ts|
  {
    hide Bytes, IsTree;
    if ts == [] {
      assert (ts + [t])[1..] == [];
    } else {
      ListBytesAppend(ts[1..], t);
      assert (ts + [t])[1..] == ts[1..] + [t];
    }
  }

  lemma {:induction false} ListPartAppend(ts: seq<Tree>, vs: seq<Value>, t: Tree, v: Value)
    requires AllRender(ts, vs) && Renders(t, v)
    ensures AllRender(ts + [t], vs + [v])
    ensures ListPart(ts + [t], vs + [v]) == ListPart(ts, vs) + Bytes(t)
  {
    hide Bytes, IsTree, ValueOf;
    ListBytesAppend(ts, t);
  }

  lemma NoneRender()
    ensures AllRender([], []) && ListPart([], []) == []
  {
  }

  lemma ListRenders(ts: seq<Tree>, vs: seq<Value>)
    requires AllRender(ts, vs)
    ensures Renders(List(ts), Arr(vs)) && Bytes(List(ts)) == [10] + Be32(|vs|) + ListPart(ts, vs)
  {
    hide Be32, ListBytes;
    assert ValuesOf(ts, Written) == vs;
  }

  method EncodeArray(w: Buffer, v: Value) returns (ok: bool, ghost t: Tree)
    requires v.Arr?
    modifies w
    ensures ok == Accepted(v)
    ensures ok ==> Renders(t, v) && w.data == old(w.data) + Bytes(t)
    decreases v, 0
  {
    hide Be32, Bytes, Renders, AllRender, ListPart;
    t := Leaf(Null);
    w.Write([10]);
    w.Write(Be32(|v.items|));
    ghost var before, ts: seq<Tree> := w.data, [];
    NoneRender();
    var i := 0;
    while i < |v.items|
      invariant i <= |v.items| && AllRender(ts, v.items[..i])
      invariant forall j :: 0 <= j < i ==> Accepted(v.items[j])
      invariant w.data == before + ListPart(ts, v.items[..i])
    {
      ghost var ti;
      ok, ti := EncodeAmf0(w, v.items[i]);
      if !ok {
        return;
      }
      ListPartAppend(ts, v.items[..i], ti, v.items[i]);
      assert v.items[..i + 1] == v.items[..i] + [v.items[i]];
      ts := ts + [ti];
      i := i + 1;
    }
    ok := true;
    assert v.items[..i] == v.items;
    ListRenders(ts, v.items);
    t := List(ts);
    assert w.data == old(w.data) + ([10] + Be32(|v.items|) + ListPart(ts, v.items));
  }

  /** The entries written so far and the fields they stand for. */
  ghost predicate EntriesRender(es: seq<Entry>, m: map<bytes, Value>) {
    AreEntries(es) && FieldsOf(es, Written, map[]) == m
  }

  ghost function EntryPart(es: seq<Entry>, m: map<bytes, Value>): bytes
    requires EntriesRender(es, m)
  {
    EntryBytes(es)
  }

  lemma NoEntries()
    ensures EntriesRender([], map[]) && EntryPart([], map[]) == []
  {
  }

  lemma {:induction false} AppendEntry(es: seq<Entry>, e: Entry)
    requires AreEntries(es) && IsTree(e.val) && e.key !in FieldsOf(es, Written, map[])
    ensures AreEntries(es + [e])
  {
    hide IsTree, ValueOf, FieldsOf;
    FieldsContents(es, Written, map[]);
    assert forall i :: 0 <= i < |es| ==> es[i].key in FieldsOf(es, Written, map[]);
    var all := es + [e];
    assert forall i :: 0 <= i < |es| ==> all[i] == es[i];
  }

  lemma {:induction false} FieldsOfAppend(es: seq<Entry>, e: Entry, acc: map<bytes, Value>)
    requires AreEntries(es) && AreEntries(es + [e]) && IsTree(e.val)
    ensures FieldsOf(es + [e], Written, acc) == FieldsOf(es, Written, acc)[e.key := ValueOf(e.val, Written)]
    decreases |es|
  {
    hide IsTree, ValueOf;
    TailEntries(es + [e]);
    if es == [] {
      assert (es + [e])[1..] == [];
    } else {
      TailEntries(es);
      assert (es + [e])[1..] == es[1..] + [e];
      FieldsOfAppend(es[1..], e, acc[es[0].key := ValueOf(es[0].val, Written)]);
    }
  }

  lemma {:induction false} EntryBytesAppend(es: seq<Entry>, e: Entry)
    requires AreEntries(es) && AreEntries(es + [e]) && IsTree(e.val)
    ensures EntryBytes(es + [e]) == EntryBytes(es) + (ShortString(e.key) + Bytes(e.val))
    decreases |es|
  {
    hide Bytes, IsTree, ShortString;
    TailEntries(es + [e]);
    if es == [] {
      assert (es + [e])[1..] == [];
    } else {
      TailEntries(es);
      assert (es + [e])[1..] == es[1..] + [e];
      EntryBytesAppend(es[1..], e);
    }
  }

  lemma {:induction false} EntryPartAppend(es: seq<Entry>, m: map<bytes, Value>, key: bytes, t: Tree, v: Value)
    requires EntriesRender(es, m) && Renders(t, v) && key !in m
    ensures EntriesRender(es + [Entry(key, t)], m[key := v])
    ensures EntryPart(es + [Entry(key, t)], m[key := v]) == EntryPart(es, m) + (ShortString(key) + Bytes(t))
  {
    hide Bytes, IsTree, ValueOf, AreEntries, FieldsOf, ShortString, EntryBytes;
    AppendEntry(es, Entry(key, t));
    FieldsOfAppend(es, Entry(key, t), map[]);
    EntryBytesAppend(es, Entry(key, t));
  }

  lemma ObjectRenders(es: seq<Entry>, m: map<bytes, Value>)
    requires EntriesRender(es, m)
    ensures Renders(Fields(false, [], es), Obj(m))
    ensures Bytes(Fields(false, [], es)) == [3] + EntryPart(es, m) + OBJECT_END
  {
    hide AreEntries, FieldsOf, EntryBytes;
  }

  /** The keys are taken in any order, as ranging over a Go map does. */
  method EncodeObject(w: Buffer, v: Value) returns (ok: bool, ghost t: Tree)
    requires v.Obj?
    modifies w
    ensures ok == Accepted(v)
    ensures ok ==> Renders(t, v) && w.data == old(w.data) + Bytes(t)
    decreases v, 0
  {
    hide Bytes, Renders, EntriesRender, EntryPart, ShortString;
    t := Leaf(Null);
    w.Write([3]);
    ghost var before, es: seq<Entry>, m := w.data, [], map[];
    NoEntries();
    var fields := v.fields;
    var left := fields.Keys;
    while left != {}
      invariant left <= fields.Keys && m.Keys == fields.Keys - left
      invariant forall k :: k in m ==> k in fields && m[k] == fields[k] && Accepted(fields[k])
      invariant EntriesRender(es, m) && w.data == before + EntryPart(es, m)
      decreases left
    {
      var key :| key in left;
      assert key in fields;
      left := left - {key};
      EncodeString(w, key);
      ghost var tv;
      ok, tv := EncodeAmf0(w, fields[key]);
      if !ok {
        return;
      }
      EntryPartAppend(es, m, key, tv, fields[key]);
      es, m := es + [Entry(key, tv)], m[key := fields[key]];
    }
    EncodeString(w, []);
    EmptyString();
    w.Write([9]);
    ok := true;
    assert m == fields;
    ObjectRenders(es, m);
    t := Fields(false, [], es);
    assert w.data == old(w.data) + ([3] + EntryPart(es, m) + OBJECT_END);
  }

  // ---- the decoder

  method DecodeString(r: Reader) returns (res: Parsed<bytes>)
    modifies r
    ensures res == ReadString(old(r.rest))
    ensures res.Got? ==> r.rest == res.rest
    ensures |r.rest| <= |old(r.rest)|
  {
    hide De16;
    ghost var s := r.rest;
    var length := r.ReadBytes(2);
    if length.Fail? {
      return Fail(false);
    }
    De16Prefix(s);
    res := r.ReadBytes(De16(length.v));
    if res.Fail? {
      return Fail(false);
    }
  }

  method DecodeLongString(r: Reader) returns (res: Parsed<bytes>)
    modifies r
    ensures res == ReadLongString(old(r.rest))
    ensures res.Got? ==> r.rest == res.rest
    ensures |r.rest| <= |old(r.rest)|
  {
    hide De32;
    ghost var s := r.rest;
    var length := r.ReadBytes(4);
    if length.Fail? {
      return Fail(false);
    }
    De32Prefix(s);
    res := r.ReadBytes(De32(length.v));
    if res.Fail? {
      return Fail(false);
    }
  }

  method DecodeNumber(r: Reader, trailer: nat) returns (res: Parsed<Value>)
    modifies r
    ensures res == AsNumber(old(r.rest), trailer)
    ensures res.Got? ==> r.rest == res.rest
    ensures |r.rest| <= |old(r.rest)|
  {
    var bits := r.ReadBytes(8);
    if bits.Fail? {
      return Fail(false);
    }
    var unused := r.ReadBytes(trailer);
    if unused.Fail? {
      return Fail(false);
    }
    res := Got(Number(bits.v), r.rest);
  }

  method DecodeOther(marker: byte, r: Reader) returns (res: Parsed<Value>)
    modifies r
    ensures res == DecodeScalar(marker, old(r.rest))
    ensures res.Got? ==> r.rest == res.rest
    ensures |r.rest| <= |old(r.rest)|
  {
    hide ReadString, ReadLongString, AsNumber;
    if marker == 0 {
      res := DecodeNumber(r, 0);
    } else if marker == 1 {
      var b := r.ReadByte();
      if b.Fail? {
        return Fail(b.eof);
      }
      if b.v == 0 {
        return Got(Bool(false), r.rest);
      } else if b.v == 1 {
        return Got(Bool(true), r.rest);
      }
      res := Fail(false);
    } else if marker == 2 {
      var s := DecodeString(r);
      res := AsString(s);
    } else if marker == 5 || marker == 6 || marker == 13 {
      res := Got(Null, r.rest);
    } else if marker == 11 {
      res := DecodeNumber(r, 2);
    } else if marker == 12 || marker == 15 {
      var s := DecodeLongString(r);
      res := AsString(s);
    } else {
      res := Fail(false);
    }
  }

  method DecodeAmf0(r: Reader) returns (res: Parsed<Value>)
    modifies r
    ensures res == Decode(old(r.rest))
    ensures res.Got? ==> r.rest == res.rest
    ensures |r.rest| <= |old(r.rest)|
    decreases |r.rest|, 1
  {
    hide DecodeScalar, DecodeArray, DecodeFields, DecodeTyped, Amf3.Decode;
    var marker := r.ReadByte();
    if marker.Fail? {
      return Fail(marker.eof);
    }
    if marker.v == 3 {
      var m := DecodeObject(r);
      res := AsObject(m);
    } else if marker.v == 8 {
      var _ := r.ReadBytes(4);
      var m := DecodeObject(r);
      res := AsObject(m);
    } else if marker.v == 10 {
      res := DecodeStrictArray(r);
    } else if marker.v == 16 {
      res := DecodeTypedObject(r);
    } else if marker.v == 17 {
      res := Amf3Codec.DecodeAmf3(r);
    } else {
      res := DecodeOther(marker.v, r);
    }
  }

  method DecodeTypedObject(r: Reader) returns (res: Parsed<Value>)
    modifies r
    ensures res == DecodeTyped(old(r.rest))
    ensures res.Got? ==> r.rest == res.rest
    ensures |r.rest| <= |old(r.rest)|
    decreases |r.rest|, 2
  {
    hide ReadString, DecodeFields;
    var name := DecodeString(r);
    if name.Fail? {
      return Fail(false);
    }
    var m := DecodeObject(r);
    if m.Fail? {
      return Fail(false);
    }
    res := Got(Typed(name.v, m.v), r.rest);
  }

  method DecodeObject(r: Reader) returns (res: Parsed<map<bytes, Value>>)
    modifies r
    ensures res == DecodeFields(old(r.rest), map[])
    ensures res.Got? ==> r.rest == res.rest
    ensures |r.rest| <= |old(r.rest)|
    decreases |r.rest|, 0
  {
    hide ReadString, Decode;
    ghost var s := r.rest;
    var result := map[];
    while true
      invariant DecodeFields(s, map[]) == DecodeFields(r.rest, result) && |r.rest| <= |s|
      decreases |r.rest|
    {
      var key := DecodeString(r);
      if key.Fail? {
        return Fail(false);
      }
      if key.v == [] {
        var marker := r.ReadByte();
        if marker.Fail? || marker.v != 9 {
          return Fail(false);
        }
        break;
      }
      var value := DecodeAmf0(r);
      if value.Fail? {
        return Fail(false);
      }
      result := result[key.v := value.v];
    }
    res := Got(result, r.rest);
  }

  method DecodeStrictArray(r: Reader) returns (res: Parsed<Value>)
    modifies r
    ensures res == DecodeArray(old(r.rest))
    ensures res.Got? ==> r.rest == res.rest
    ensures |r.rest| <= |old(r.rest)|
    decreases |r.rest|, 0
  {
    hide De32, DecodeItems;
    ghost var s := r.rest;
    var length := r.ReadBytes(4);
    if length.Fail? {
      return Fail(false);
    }
    De32Prefix(s);
    var items := DecodeElements(r, De32(length.v));
    if items.Fail? {
      return Fail(false);
    }
    res := Got(Arr(items.v), r.rest);
  }

  method DecodeElements(r: Reader, n: nat) returns (res: Parsed<seq<Value>>)
    modifies r
    ensures res == DecodeItems(old(r.rest), n)
    ensures res.Got? ==> r.rest == res.rest
    ensures |r.rest| <= |old(r.rest)|
    decreases |r.rest|, 2
  {
    hide Decode, Prepend;
    ghost var s := r.rest;
    var items := [];
    var i := 0;
    ContinuesStart(DecodeItems(s, n));
    while i < n
      invariant i <= n && |r.rest| <= |s|
      invariant Continues(DecodeItems(s, n), items, DecodeItems(r.rest, n - i))
    {
      var v := DecodeAmf0(r);
      if v.Fail? {
        return Fail(false);
      }
      ContinuesStep(DecodeItems(s, n), items, v.v, DecodeItems(r.rest, n - i - 1));
      items := items + [v.v];
      i := i + 1;
    }
    ContinuesEnd(DecodeItems(s, n), items, r.rest);
    res := Got(items, r.rest);
  }
}
