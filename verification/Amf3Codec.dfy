/** The AMF3 encoder and decoder as they run: writing to a buffer, consuming a reader. */
module Amf3Codec {
  import opened Bits
  import opened Float64
  import opened Amf
  import opened Amf3
  import opened Av

  // ---- sorted property names (sort.Strings)

  predicate Less(a: bytes, b: bytes) {
    if b == [] then false
    else if a == [] then true
    else a[0] < b[0] || (a[0] == b[0] && Less(a[1..], b[1..]))
  }

  lemma {:induction false} LessTotal(a: bytes, b: bytes)
    ensures Less(a, b) || a == b || Less(b, a)
    decreases |a|
  {
    if a == [] || b == [] || a[0] != b[0] {
    } else {
      LessTotal(a[1..], b[1..]);
      assert a == [a[0]] + a[1..] && b == [b[0]] + b[1..];
    }
  }

  lemma {:induction false} LessTransitive(a: bytes, b: bytes, c: bytes)
    requires Less(a, b) && Less(b, c)
    ensures Less(a, c)
    decreases |a|
  {
    if a == [] || a[0] < b[0] || b[0] < c[0] {
    } else {
      LessTransitive(a[1..], b[1..], c[1..]);
    }
  }

  predicate Ascending(names: seq<bytes>) {
    forall i, j :: 0 <= i < j < |names| ==> Less(names[i], names[j])
  }

  method SortStrings(keys: set<bytes>) returns (names: seq<bytes>)
    ensures Ascending(names) && |names| == |keys|
    ensures forall k :: k in names <==> k in keys
  {
    names := [];
    var left := keys;
    while left != {}
      invariant Ascending(names) && left <= keys && |names| + |left| == |keys|
      invariant forall k :: k in names <==> k in keys && k !in left
      decreases left
    {
      var key :| key in left;
      left := left - {key};
      var i := 0;
      while i < |names| && Less(names[i], key)
        invariant i <= |names| && forall j :: 0 <= j < i ==> Less(names[j], key)
      {
        i := i + 1;
      }
      Insertion(names, key, i);
      names := names[..i] + [key] + names[i..];
    }
  }

  lemma {:induction false} Insertion(names: seq<bytes>, key: bytes, i: nat)
    requires Ascending(names) && i <= |names| && key !in names
    requires forall j :: 0 <= j < i ==> Less(names[j], key)
    requires i < |names| ==> !Less(names[i], key)
    ensures var r := names[..i] + [key] + names[i..];
            Ascending(r) && forall k :: k in r <==> k in names || k == key
  {
    hide Less;
    var r := names[..i] + [key] + names[i..];
    if i < |names| {
      LessTotal(names[i], key);
      forall j | i < j < |names|
        ensures Less(key, names[j])
      {
        LessTransitive(key, names[i], names[j]);
      }
    }
    forall k | k in names
      ensures k in r
    {
      var j :| 0 <= j < |names| && names[j] == k;
      assert if j < i then r[j] == k else r[j + 1] == k;
    }
    assert r[i] == key;
  }

  /** The keys of every object stand in ascending order. */
  predicate Sorted(t: Tree)
    decreases t
  {
    match t
    case Leaf(_) => true
    case List(items) => forall i :: 0 <= i < |items| ==> Sorted(items[i])
    case Fields(_, _, es) => Ascending(Keys(es)) && forall i :: 0 <= i < |es| ==> Sorted(es[i].val)
  }

  // ---- the encoder

  /** What the encoder accepts: all sizes pass the 29-bit check. */
  predicate Fits(v: Value)
    decreases v
  {
    match v
    case Str(s) => SizeFits(|s|)
    case Arr(items) => SizeFits(|items|) && forall i :: 0 <= i < |items| ==> Fits(items[i])
    case Obj(m) => TraitFits(|m|) && forall k :: k in m ==> SizeFits(|k|) && Fits(m[k])
    case Typed(name, m) => TraitFits(|m|) && SizeFits(|name|) && forall k :: k in m ==> SizeFits(|k|) && Fits(m[k])
    case _ => true
  }

  /** A value is accepted exactly if its trees can be written. */
  lemma {:induction false} FitsIff(t: Tree)
    requires IsTree(t)
    ensures Encodable(t) <==> Fits(ValueOf(t, Written))
    decreases t
  {
    hide SizeFits, TraitFits, FieldsOf, Distinct;
    match t
    case Leaf(_) =>
    case List(items) =>
      forall i | 0 <= i < |items|
        ensures Encodable(items[i]) <==> Fits(ValueOf(items[i], Written))
      {
        FitsIff(items[i]);
      }
      var vs := ValuesOf(items, Written);
      assert forall i :: 0 <= i < |items| ==> vs[i] == ValueOf(items[i], Written);
    case Fields(typed, name, es) =>
      forall i | 0 <= i < |es|
        ensures Encodable(es[i].val) <==> Fits(ValueOf(es[i].val, Written))
      {
        FitsIff(es[i].val);
      }
      var m := FieldsOf(es, Written, map[]);
      FieldsCount(es, Written, map[]);
      FieldsForall(es, m, (k: bytes, v: Value) => SizeFits(|k|) && Fits(v));
      ObjectFits(ValueOf(t, Written));
  }

  /** Small sizes, as far as the check can see: lengths modulo 2^31 and numbers of properties modulo 2^28. */
  predicate LooksSmall(v: Value)
    decreases v
  {
    match v
    case Str(s) => SmallLength(|s|)
    case Arr(items) => SmallLength(|items|) && forall i :: 0 <= i < |items| ==> LooksSmall(items[i])
    case Obj(m) => SmallNumber(|m|) && forall k :: k in m ==> SmallLength(|k|) && LooksSmall(m[k])
    case Typed(name, m) =>
      SmallNumber(|m|) && SmallLength(|name|) && forall k :: k in m ==> SmallLength(|k|) && LooksSmall(m[k])
    case _ => true
  }

  predicate SmallLength(n: nat) { n % 0x8000_0000 < 0x1000_0000 }

  predicate SmallNumber(n: nat) { n % 0x1000_0000 < 0x200_0000 }

  /** The encoder accepts exactly the values whose sizes look small to it, for all values. */
  lemma {:induction false} FitsIffSmall(v: Value)
    ensures Fits(v) <==> LooksSmall(v)
    decreases v
  {
    hide SizeFits, TraitFits, SmallLength, SmallNumber;
    match v
    case Str(s) => LengthSmall(|s|);
    case Arr(items) =>
      LengthSmall(|items|);
      forall i | 0 <= i < |items|
        ensures Fits(items[i]) <==> LooksSmall(items[i])
      {
        FitsIffSmall(items[i]);
      }
    case Obj(m) =>
      NumberSmall(|m|);
      forall k | k in m
        ensures SizeFits(|k|) && Fits(m[k]) <==> SmallLength(|k|) && LooksSmall(m[k])
      {
        LengthSmall(|k|);
        FitsIffSmall(m[k]);
      }
    case Typed(name, m) =>
      LengthSmall(|name|);
      NumberSmall(|m|);
      forall k | k in m
        ensures SizeFits(|k|) && Fits(m[k]) <==> SmallLength(|k|) && LooksSmall(m[k])
      {
        LengthSmall(|k|);
        FitsIffSmall(m[k]);
      }
    case _ =>
  }

  lemma LengthSmall(n: nat)
    ensures SizeFits(n) <==> SmallLength(n)
  {
    SizeFitsIff(n);
  }

  lemma NumberSmall(n: nat)
    ensures TraitFits(n) <==> SmallNumber(n)
  {
    TraitFitsIff(n);
  }

  /** t is v with its keys in ascending order, and can be written. */
  ghost predicate Renders(t: Tree, v: Value) {
    IsTree(t) && Sorted(t) && Encodable(t) && ValueOf(t, Written) == v
  }

  lemma {:induction false} LeafRenders(v: Value)
    requires Scalar(v) && Fits(v)
    ensures Renders(Leaf(v), v)
  {
  }

  method EncodeUint29(w: Buffer, n: nat) returns (ok: bool)
    modifies w
    ensures ok == (n <= U29_MAX)
    ensures w.data == if ok then old(w.data) + U29(n) else old(w.data)
  {
    if n <= 0x7f {
      w.Write([Byte(n)]);
    } else if n <= 0x3fff {
      w.Write([Byte(Or(n / 0x80, 0x80)), n % 0x80]);
    } else if n <= 0x1f_ffff {
      w.Write([Byte(Or(n / 0x4000, 0x80)), Byte(Or(n / 0x80 % 0x80, 0x80)), n % 0x80]);
    } else if n <= 0x1fff_ffff {
      w.Write([Byte(Or(n / 0x40_0000, 0x80)), Byte(Or(n / 0x8000 % 0x80, 0x80)), Byte(Or(n / 0x100 % 0x80, 0x80)),
               Byte(n)]);
    } else {
      return false;
    }
    ok := true;
  }

  method EncodeUtf8(w: Buffer, s: bytes) returns (ok: bool)
    modifies w
    ensures ok == SizeFits(|s|)
    ensures ok ==> w.data == old(w.data) + Utf8(s)
  {
    hide U29;
    ok := EncodeUint29(w, SizeWord(|s|));
    if ok {
      w.Write(s);
      assert old(w.data) + U29(SizeWord(|s|)) + s == old(w.data) + Utf8(s);
    }
  }

  method EncodeScalar(w: Buffer, v: Value) returns (ok: bool)
    requires Scalar(v)
    modifies w
    ensures ok == Fits(v)
    ensures ok ==> w.data == old(w.data) + ScalarBytes(v)
  {
    hide U29, Utf8, FloatOf;
    ghost var before := w.data;
    ok := true;
    match v
    case Null => w.Write([1]);
    case Bool(b) => w.Write([if b then 3 else 2]);
    case Int(n, wide) =>
      if !wide && 0 <= n <= AMF3_INTEGER_MAX {
        w.Write([4]);
        ok := EncodeUint29(w, n);
        assert w.data == before + ([4] + U29(n));
      } else {
        w.Write([5]);
        w.Write(FloatOf(n));
        assert w.data == before + ([5] + FloatOf(n));
      }
    case Number(bits) =>
      w.Write([5]);
      w.Write(bits);
      assert w.data == before + ([5] + bits);
    case Str(s) =>
      w.Write([6]);
      ok := EncodeUtf8(w, s);
      assert ok ==> w.data == before + ([6] + Utf8(s));
  }

  method EncodeAmf3(w: Buffer, v: Value) returns (ok: bool, ghost t: Tree)
    modifies w
    ensures ok == Fits(v)
    ensures ok ==> Renders(t, v) && w.data == old(w.data) + Bytes(t)
    decreases v, 2
  {
    hide ScalarBytes, ValueOf, IsTree, Sorted, Bytes, Encodable;
    if v.Arr? {
      ok, t := EncodeArray(w, v);
    } else if v.Obj? || v.Typed? {
      ok, t := EncodeObject(w, v);
    } else {
      ok := EncodeScalar(w, v);
      t := Leaf(v);
      if ok {
        LeafRenders(v);
        LeafBytes(v);
      }
    }
  }

  lemma {:induction false} LeafBytes(v: Value)
    requires Scalar(v) && Renders(Leaf(v), v)
    ensures Fits(v) && Bytes(Leaf(v)) == ScalarBytes(v)
  {
  }

  lemma {:induction false} RendersCan(t: Tree, v: Value)
    requires Renders(t, v)
    ensures IsTree(t) && Encodable(t)
  {
  }

  ghost predicate AllRender(ts: seq<Tree>, vs: seq<Value>) {
    |ts| == |vs| && forall i :: 0 <= i < |ts| ==> Renders(ts[i], vs[i])
  }

  lemma {:induction false} ListBytesAppend(ts: seq<Tree>, t: Tree)
    requires forall i :: 0 <= i < |ts| ==> IsTree(ts[i]) && Encodable(ts[i])
    requires IsTree(t) && Encodable(t)
    ensures ListBytes(ts + [t]) == ListBytes(ts) + Bytes(t)
    decreases |ts|
  {
    hide Bytes, IsTree, Encodable;
    if ts == [] {
      assert (ts + [t])[1..] == [];
    } else {
      ListBytesAppend(ts[1..], t);
      assert (ts + [t])[1..] == ts[1..] + [t];
    }
  }

  lemma ListRenders(ts: seq<Tree>, v: Value)
    requires v.Arr? && AllRender(ts, v.items) && SizeFits(|ts|)
    ensures Renders(List(ts), v)
  {
    hide SizeFits;
    assert ValuesOf(ts, Written) == v.items;
  }

  lemma {:induction false} ListIs(ts: seq<Tree>)
    requires IsTree(List(ts)) && Encodable(List(ts))
    ensures SizeFits(0)
    ensures Bytes(List(ts)) == [9] + U29(SizeWord(|ts|)) + Utf8([]) + ListBytes(ts)
  {
    hide U29, Utf8, SizeWord;
    EmptyFits();
  }

  method EncodeArray(w: Buffer, v: Value) returns (ok: bool, ghost t: Tree)
    requires v.Arr?
    modifies w
    ensures ok == Fits(v)
    ensures ok ==> Renders(t, v) && w.data == old(w.data) + Bytes(t)
    decreases v, 0
  {
    hide U29, Utf8, SizeWord, Bytes, Renders, ListBytes, AllRender;
    t := Leaf(Null);
    w.Write([9]);
    ok := EncodeUint29(w, SizeWord(|v.items|));
    if !ok {
      return;
    }
    EmptyFits();
    var noKey: bytes := [];
    assert |noKey| == 0;
    ok := EncodeUtf8(w, noKey);
    ghost var before, ts: seq<Tree> := w.data, [];
    NoneRender();
    var i := 0;
    while i < |v.items|
      invariant ok && i <= |v.items| && AllRender(ts, v.items[..i])
      invariant forall j :: 0 <= j < i ==> Fits(v.items[j])
      invariant w.data == before + ListPart(ts, v.items[..i])
    {
      ghost var ti;
      ok, ti := EncodeAmf3(w, v.items[i]);
      if !ok {
        return;
      }
      ListPartAppend(ts, v.items[..i], ti, v.items[i]);
      assert v.items[..i + 1] == v.items[..i] + [v.items[i]];
      ts := ts + [ti];
      i := i + 1;
    }
    assert v.items[..i] == v.items;
    PartIsList(ts, v.items);
    ListRenders(ts, v);
    t := List(ts);
    RendersCan(t, v);
    ListIs(ts);
    assert w.data == old(w.data) + Bytes(t);
  }

  ghost function ListPart(ts: seq<Tree>, vs: seq<Value>): bytes
    requires AllRender(ts, vs)
  {
    ListBytes(ts)
  }

  lemma NoneRender()
    ensures AllRender([], []) && ListPart([], []) == []
  {
  }

  lemma {:induction false} PartIsList(ts: seq<Tree>, vs: seq<Value>)
    requires AllRender(ts, vs)
    ensures forall i :: 0 <= i < |ts| ==> IsTree(ts[i]) && Encodable(ts[i])
    ensures |ts| == |vs| && ListPart(ts, vs) == ListBytes(ts)
  {
  }

  lemma {:induction false} ListPartAppend(ts: seq<Tree>, vs: seq<Value>, t: Tree, v: Value)
    requires AllRender(ts, vs) && Renders(t, v)
    ensures AllRender(ts + [t], vs + [v])
    ensures ListPart(ts + [t], vs + [v]) == ListPart(ts, vs) + Bytes(t)
  {
    hide Bytes, IsTree, Encodable, Sorted, ValueOf;
    ListBytesAppend(ts, t);
  }

  function FieldsIn(v: Value): map<bytes, Value>
    requires v.Obj? || v.Typed?
  {
    v.fields
  }

  function NameIn(v: Value): bytes
    requires v.Obj? || v.Typed?
  {
    if v.Typed? then v.name else []
  }

  /** Entries made from the first names and their values. */
  ghost predicate EntriesRender(es: seq<Entry>, names: seq<bytes>, m: map<bytes, Value>) {
    |es| <= |names| && forall i :: 0 <= i < |es| ==>
      es[i].key == names[i] && names[i] in m && SizeFits(|names[i]|) && Renders(es[i].val, m[names[i]])
  }

  lemma {:induction false} EntriesAreEntries(es: seq<Entry>, names: seq<bytes>, m: map<bytes, Value>)
    requires Ascending(names) && EntriesRender(es, names, m)
    ensures AreEntries(es) && EntriesEncodable(es)
  {
    hide Sorted, SizeFits, ValueOf;
    forall i, j | 0 <= i < j < |es|
      ensures es[i].key != es[j].key
    {
      LessIrreflexive(names[i]);
    }
  }

  lemma {:induction false} LessIrreflexive(a: bytes)
    ensures !Less(a, a)
    decreases |a|
  {
    if a == [] {
    } else {
      LessIrreflexive(a[1..]);
    }
  }

  ghost function ValuePart(es: seq<Entry>, names: seq<bytes>, m: map<bytes, Value>): bytes
    requires Ascending(names) && EntriesRender(es, names, m)
  {
    EntriesAreEntries(es, names, m);
    ValueBytes(es)
  }

  lemma {:induction false} ValueBytesAppend(es: seq<Entry>, e: Entry)
    requires AreEntries(es) && EntriesEncodable(es)
    requires AreEntries(es + [e]) && EntriesEncodable(es + [e]) && IsTree(e.val) && Encodable(e.val)
    ensures ValueBytes(es + [e]) == ValueBytes(es) + Bytes(e.val)
    decreases |es|
  {
    hide Bytes, IsTree, Encodable, SizeFits;
    TailEntries(es + [e]);
    if es == [] {
      assert (es + [e])[1..] == [];
    } else {
      TailEntries(es);
      assert (es + [e])[1..] == es[1..] + [e];
      var (a, b) := (es[1..], (es + [e])[1..]);
      assert forall i :: 0 <= i < |a| ==> a[i] == es[i + 1];
      assert forall i :: 0 <= i < |b| ==> b[i] == (es + [e])[i + 1];
      ValueBytesAppend(es[1..], e);
    }
  }

  lemma {:induction false} ValuePartAppend(es: seq<Entry>, names: seq<bytes>, m: map<bytes, Value>, t: Tree)
    requires Ascending(names) && EntriesRender(es, names, m) && |es| < |names|
    requires names[|es|] in m && SizeFits(|names[|es|]|) && Renders(t, m[names[|es|]])
    ensures EntriesRender(es + [Entry(names[|es|], t)], names, m)
    ensures ValuePart(es + [Entry(names[|es|], t)], names, m) == ValuePart(es, names, m) + Bytes(t)
  {
    hide Bytes, IsTree, Encodable, Sorted, ValueOf, SizeFits, Less;
    var e := Entry(names[|es|], t);
    EntriesAreEntries(es, names, m);
    EntriesAreEntries(es + [e], names, m);
    ValueBytesAppend(es, e);
  }

  lemma NoEntries(names: seq<bytes>, m: map<bytes, Value>)
    requires Ascending(names)
    ensures EntriesRender([], names, m) && ValuePart([], names, m) == []
  {
    hide Less;
  }

  lemma {:induction false} ObjectRenders(es: seq<Entry>, names: seq<bytes>, v: Value)
    requires v.Obj? || v.Typed?
    requires Ascending(names) && (forall k :: k in names <==> k in FieldsIn(v)) && EntriesRender(es, names, FieldsIn(v))
    requires |es| == |names| && TraitFits(|names|) && SizeFits(|NameIn(v)|)
    ensures forall i :: 0 <= i < |names| ==> SizeFits(|names[i]|)
    ensures var t := Fields(v.Typed?, NameIn(v), es);
            Renders(t, v) &&
            Bytes(t) ==
              [10] + U29(TraitWord(|names|)) + Utf8(NameIn(v)) + NameBytes(names) + ValuePart(es, names, FieldsIn(v))
  {
    hide U29, Utf8, SizeFits, TraitWord, NameBytes, Less, ValueBytes, FieldsOf;
    EntriesAreEntries(es, names, FieldsIn(v));
    FieldsRendered(es, names, FieldsIn(v));
    assert Keys(es) == names;
  }

  lemma {:induction false} FieldsRendered(es: seq<Entry>, names: seq<bytes>, m: map<bytes, Value>)
    requires Ascending(names) && (forall k :: k in names <==> k in m) && EntriesRender(es, names, m)
    requires |es| == |names| && AreEntries(es)
    ensures FieldsOf(es, Written, map[]) == m
  {
    hide Less, SizeFits, FieldsOf, IsTree, Sorted, Encodable;
    FieldsContents(es, Written, map[]);
    forall k | k in m
      ensures k in FieldsOf(es, Written, map[]) && FieldsOf(es, Written, map[])[k] == m[k]
    {
      var i :| 0 <= i < |names| && names[i] == k;
      assert es[i].key == k;
    }
  }

  lemma {:induction false} ObjectFits(v: Value)
    requires v.Obj? || v.Typed?
    ensures Fits(v) ==
      (TraitFits(|FieldsIn(v)|) && SizeFits(|NameIn(v)|) &&
       forall k :: k in FieldsIn(v) ==> SizeFits(|k|) && Fits(FieldsIn(v)[k]))
  {
    hide TraitFits, SizeFits;
    EmptyFits();
  }

  method EncodeNames(w: Buffer, names: seq<bytes>) returns (ok: bool)
    modifies w
    ensures ok == forall i :: 0 <= i < |names| ==> SizeFits(|names[i]|)
    ensures ok ==> w.data == old(w.data) + NameBytes(names)
  {
    hide Utf8, SizeFits;
    var i := 0;
    ok := true;
    while i < |names|
      invariant i <= |names| && forall j :: 0 <= j < i ==> SizeFits(|names[j]|)
      invariant w.data == old(w.data) + NameBytes(names[..i])
    {
      ok := EncodeUtf8(w, names[i]);
      if !ok {
        return;
      }
      assert names[..i + 1][..i] == names[..i];
      i := i + 1;
    }
    assert names[..i] == names;
  }

  method EncodeValues(w: Buffer, v: Value, names: seq<bytes>) returns (ok: bool, ghost es: seq<Entry>)
    requires v.Obj? || v.Typed?
    requires Ascending(names) && forall i :: 0 <= i < |names| ==> names[i] in FieldsIn(v) && SizeFits(|names[i]|)
    modifies w
    ensures ok == forall i :: 0 <= i < |names| ==> Fits(FieldsIn(v)[names[i]])
    ensures ok ==> |es| == |names| && EntriesRender(es, names, FieldsIn(v))
    ensures ok ==> w.data == old(w.data) + ValuePart(es, names, FieldsIn(v))
    decreases v, 0
  {
    hide Bytes, Renders, ValuePart, Less, Fits, SizeFits;
    es := [];
    NoEntries(names, FieldsIn(v));
    var i := 0;
    while i < |names|
      invariant i <= |names| && |es| == i && EntriesRender(es, names, FieldsIn(v))
      invariant forall j :: 0 <= j < i ==> Fits(FieldsIn(v)[names[j]])
      invariant w.data == old(w.data) + ValuePart(es, names, FieldsIn(v))
    {
      ghost var t;
      ok, t := EncodeAmf3(w, v.fields[names[i]]);
      if !ok {
        return;
      }
      ValuePartAppend(es, names, FieldsIn(v), t);
      es := es + [Entry(names[i], t)];
      i := i + 1;
    }
    ok := true;
  }

  method EncodeTrait(w: Buffer, v: Value, names: seq<bytes>) returns (ok: bool)
    requires v.Obj? || v.Typed?
    modifies w
    ensures ok == (TraitFits(|names|) && SizeFits(|NameIn(v)|) && forall i :: 0 <= i < |names| ==> SizeFits(|names[i]|))
    ensures ok ==> w.data == old(w.data) + [10] + U29(TraitWord(|names|)) + Utf8(NameIn(v)) + NameBytes(names)
  {
    hide U29, Utf8, TraitWord, SizeWord, NameBytes;
    w.Write([10]);
    ok := EncodeUint29(w, TraitWord(|names|));
    if !ok {
      return;
    }
    ok := EncodeUtf8(w, if v.Typed? then v.name else []);
    if !ok {
      return;
    }
    ok := EncodeNames(w, names);
  }

  method EncodeObject(w: Buffer, v: Value) returns (ok: bool, ghost t: Tree)
    requires v.Obj? || v.Typed?
    modifies w
    ensures ok == Fits(v)
    ensures ok ==> Renders(t, v) && w.data == old(w.data) + Bytes(t)
    decreases v, 1
  {
    hide U29, Utf8, TraitWord, SizeWord, Bytes, Renders, NameBytes, ValuePart, Less, Fits, EntriesRender, SizeFits,
         TraitFits;
    ObjectFits(v);
    t := Leaf(Null);
    var names := SortStrings(v.fields.Keys);
    assert |names| == |FieldsIn(v)|;
    ok := EncodeTrait(w, v, names);
    if !ok {
      NamesNotFit(names, v);
      return;
    }
    ghost var es;
    ok, es := EncodeValues(w, v, names);
    if ok {
      ObjectRenders(es, names, v);
      t := Fields(v.Typed?, NameIn(v), es);
      RendersCan(t, v);
      assert w.data == old(w.data) + Bytes(t);
    }
  }

  lemma NamesNotFit(names: seq<bytes>, v: Value)
    requires v.Obj? || v.Typed?
    requires forall k :: k in names <==> k in FieldsIn(v)
    ensures (forall i :: 0 <= i < |names| ==> SizeFits(|names[i]|)) <==> forall k :: k in FieldsIn(v) ==> SizeFits(|k|)
  {
    hide SizeFits;
    if forall i :: 0 <= i < |names| ==> SizeFits(|names[i]|) {
      forall k | k in FieldsIn(v)
        ensures SizeFits(|k|)
      {
        var i :| 0 <= i < |names| && names[i] == k;
      }
    }
  }

  // ---- the decoder

  method DecodeU29(r: Reader) returns (res: Parsed<nat>)
    modifies r
    ensures res == ReadU29(old(r.rest))
    ensures res.Got? ==> r.rest == res.rest
    ensures |r.rest| <= |old(r.rest)|
  {
    var result: nat := 0;
    for i := 0 to 3
      invariant ReadU29(old(r.rest)) == ReadU29From(r.rest, i, result) && |r.rest| <= |old(r.rest)|
    {
      var b := r.ReadByte();
      if b.Fail? {
        return Fail(b.eof);
      }
      result := result * 0x80 + b.v % 0x80;
      if b.v < 0x80 {
        return Got(result, r.rest);
      }
    }
    var b := r.ReadByte();
    if b.Fail? {
      return Fail(b.eof);
    }
    res := Got(result * 0x100 + b.v, r.rest);
  }

  method DecodeReferenceInt(r: Reader) returns (res: Parsed<nat>)
    modifies r
    ensures res == ReadSize(old(r.rest))
    ensures res.Got? ==> r.rest == res.rest
    ensures |r.rest| <= |old(r.rest)|
  {
    hide ReadU29;
    var u := DecodeU29(r);
    if u.Fail? || u.v % 2 == 0 {
      return Fail(false);
    }
    res := Got(u.v / 2, r.rest);
  }

  method DecodeString(r: Reader) returns (res: Parsed<bytes>)
    modifies r
    ensures res == ReadString(old(r.rest))
    ensures res.Got? ==> r.rest == res.rest
    ensures |r.rest| <= |old(r.rest)|
  {
    hide ReadSize, TakeSome;
    var n := DecodeReferenceInt(r);
    if n.Fail? {
      return Fail(n.eof);
    }
    res := r.ReadOnce(n.v);
    if res.Fail? {
      return Fail(false);
    }
  }

  method DecodeOther(marker: byte, r: Reader) returns (res: Parsed<Value>)
    modifies r
    ensures res == DecodeScalar(marker, old(r.rest))
    ensures res.Got? ==> r.rest == res.rest
    ensures |r.rest| <= |old(r.rest)|
  {
    hide ReadU29, ReadString;
    ghost var s := r.rest;
    match marker
    case 0 => res := Got(Null, r.rest);
    case 1 => res := Got(Null, r.rest);
    case 2 => res := Got(Bool(false), r.rest);
    case 3 => res := Got(Bool(true), r.rest);
    case 4 =>
      ReadU29Bound(s);
      var u := DecodeU29(r);
      if u.Fail? {
        return Fail(u.eof);
      }
      var n: GoInt := u.v;
      if n > 0xfff_ffff {
        n := n - 0x2000_0000;
      }
      res := Got(Int(n, false), r.rest);
    case 5 =>
      var b := r.ReadBytes(8);
      if b.Fail? {
        return Fail(false);
      }
      res := Got(Number(b.v), r.rest);
    case _ =>
      if marker == 6 || marker == 7 || marker == 11 {
        var b := DecodeString(r);
        if b.Fail? {
          return Fail(b.eof);
        }
        res := Got(Str(b.v), r.rest);
      } else {
        res := Fail(false);
      }
  }

  method DecodeAmf3(r: Reader) returns (res: Parsed<Value>)
    modifies r
    ensures res == Decode(old(r.rest))
    ensures res.Got? ==> r.rest == res.rest
    ensures |r.rest| <= |old(r.rest)|
    decreases |r.rest|, 2
  {
    hide DecodeScalar, DecodeArray, DecodeObject;
    var marker := r.ReadByte();
    if marker.Fail? {
      return Fail(marker.eof);
    }
    if marker.v == 9 {
      res := DecodeArrayBody(r);
    } else if marker.v == 10 {
      res := DecodeObjectBody(r);
    } else {
      res := DecodeOther(marker.v, r);
    }
  }

  method DecodeArrayBody(r: Reader) returns (res: Parsed<Value>)
    modifies r
    ensures res == DecodeArray(old(r.rest))
    ensures res.Got? ==> r.rest == res.rest
    ensures |r.rest| <= |old(r.rest)|
    decreases |r.rest|, 1
  {
    hide ReadSize, ReadString, DecodeItems;
    var n := DecodeReferenceInt(r);
    if n.Fail? {
      return Fail(false);
    }
    var key := DecodeString(r);
    if key.Fail? || key.v != [] {
      return Fail(false);
    }
    var items := DecodeElements(r, n.v);
    if items.Fail? {
      return Fail(false);
    }
    res := Got(Arr(items.v), r.rest);
  }

  method DecodeElements(r: Reader, n: nat) returns (res: Parsed<seq<Value>>)
    modifies r
    ensures res == DecodeItems(old(r.rest), n)
    ensures res.Got? ==> r.rest == res.rest
    ensures |r.rest| <= |old(r.rest)|
    decreases |r.rest|, 3
  {
    hide Decode, Prepend;
    ghost var s := r.rest;
    var items := [];
    var i := 0;
    ContinuesStart(DecodeItems(s, n));
    while i < n
      invariant i <= n && |r.rest| <= |s|
      invariant Continues(DecodeItems(s, n), items, DecodeItems(r.rest, n - i))
    {
      var v := DecodeAmf3(r);
      if v.Fail? {
        return Fail(false);
      }
      ContinuesStep(DecodeItems(s, n), items, v.v, DecodeItems(r.rest, n - i - 1));
      items := items + [v.v];
      i := i + 1;
    }
    ContinuesEnd(DecodeItems(s, n), items, r.rest);
    res := Got(items, r.rest);
  }

  method DecodeNames(r: Reader, n: nat) returns (res: Parsed<seq<bytes>>)
    modifies r
    ensures res == ReadNames(old(r.rest), n)
    ensures res.Got? ==> r.rest == res.rest
    ensures |r.rest| <= |old(r.rest)|
  {
    hide ReadString;
    ghost var s := r.rest;
    var names := [];
    var i := 0;
    ContinuesStart(ReadNames(s, n));
    while i < n
      invariant i <= n && |r.rest| <= |s|
      invariant Continues(ReadNames(s, n), names, ReadNames(r.rest, n - i))
    {
      var name := DecodeString(r);
      if name.Fail? {
        return Fail(false);
      }
      ContinuesStep(ReadNames(s, n), names, name.v, ReadNames(r.rest, n - i - 1));
      names := names + [name.v];
      i := i + 1;
    }
    ContinuesEnd(ReadNames(s, n), names, r.rest);
    res := Got(names, r.rest);
  }

  method DecodeObjectBody(r: Reader) returns (res: Parsed<Value>)
    modifies r
    ensures res == DecodeObject(old(r.rest))
    ensures res.Got? ==> r.rest == res.rest
    ensures |r.rest| <= |old(r.rest)|
    decreases |r.rest|, 1
  {
    hide ReadSize, ReadString, Decode, ReadNames, DecodeProperties, DecodeDynamic;
    var u := DecodeReferenceInt(r);
    if u.Fail? {
      return Fail(false);
    }
    var (traitIsRef, externalizable, dynamic) := (u.v % 2 == 0, u.v / 2 % 2 != 0, u.v / 4 % 2 != 0);
    if traitIsRef {
      return Fail(false);
    }
    var cls := DecodeString(r);
    if cls.Fail? {
      return Fail(false);
    }
    var names := DecodeNames(r, u.v / 8);
    if names.Fail? || externalizable {
      return Fail(false);
    }
    var obj := DecodeSealed(r, names.v);
    if obj.Fail? {
      return Fail(false);
    }
    if dynamic {
      obj := DecodeMore(r, obj.v);
      if obj.Fail? {
        return Fail(false);
      }
    }
    res := Got(Obj(obj.v), r.rest);
  }

  method DecodeSealed(r: Reader, names: seq<bytes>) returns (res: Parsed<map<bytes, Value>>)
    modifies r
    ensures res == DecodeProperties(old(r.rest), names, map[])
    ensures res.Got? ==> r.rest == res.rest
    ensures |r.rest| <= |old(r.rest)|
    decreases |r.rest|, 3
  {
    hide Decode;
    ghost var s := r.rest;
    var obj := map[];
    var i := 0;
    assert names[0..] == names;
    while i < |names|
      invariant i <= |names| && |r.rest| <= |s|
      invariant DecodeProperties(s, names, map[]) == DecodeProperties(r.rest, names[i..], obj)
    {
      var v := DecodeAmf3(r);
      if v.Fail? {
        return Fail(false);
      }
      assert names[i..][1..] == names[i + 1..];
      obj := obj[names[i] := v.v];
      i := i + 1;
    }
    res := Got(obj, r.rest);
  }

  method DecodeMore(r: Reader, sealed: map<bytes, Value>) returns (res: Parsed<map<bytes, Value>>)
    modifies r
    ensures res == DecodeDynamic(old(r.rest), sealed)
    ensures res.Got? ==> r.rest == res.rest
    ensures |r.rest| <= |old(r.rest)|
    decreases |r.rest|, 3
  {
    hide Decode, ReadString;
    ghost var s := r.rest;
    var obj := sealed;
    while true
      invariant |r.rest| <= |s|
      invariant DecodeDynamic(s, sealed) == DecodeDynamic(r.rest, obj)
      decreases |r.rest|
    {
      var key := DecodeString(r);
      if key.Fail? {
        return Fail(false);
      }
      if key.v == [] {
        break;
      }
      var v := DecodeAmf3(r);
      if v.Fail? {
        return Fail(false);
      }
      obj := obj[key.v := v.v];
    }
    res := Got(obj, r.rest);
  }
}
