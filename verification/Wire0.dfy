/** AMF0 as other programs write it (section 2 of the AMF0 specification): every kind of value that the decoder
    reads, and what is read; and the markers that are refused. */
module Wire0 {
  import opened Bits
  import opened Float64
  import opened Amf
  import Amf0
  import Wire3

  datatype Wire =
    | Nothing(marker: byte)
    | Truth(b: bool)
    | Double(bits: Float)
    | Date(bits: Float, zone: uint16)
    | Text(s: bytes)
    | LongText(marker: byte, s: bytes)
    | Items(items: seq<Wire>)
    | Object(pairs: seq<Pair>)
    | EcmaArray(count: uint32, pairs: seq<Pair>)
    | TypedObject(name: bytes, pairs: seq<Pair>)
    | Avm(w: Wire3.Wire)

  datatype Pair = Pair(key: bytes, val: Wire)

  /** Null, undefined and unsupported; long strings and XML; and the lengths their fields have room for. */
  predicate Legal(w: Wire)
    decreases w
  {
    match w
    case Nothing(marker) => marker == 5 || marker == 6 || marker == 13
    case Text(s) => |s| <= 65535
    case LongText(marker, s) => (marker == 12 || marker == 15) && |s| < 0x1_0000_0000
    case Items(items) => |items| < 0x1_0000_0000 && forall i :: 0 <= i < |items| ==> Legal(items[i])
    case Object(ps) => LegalPairs(ps)
    case EcmaArray(_, ps) => LegalPairs(ps)
    case TypedObject(name, ps) => |name| <= 65535 && LegalPairs(ps)
    case Avm(v) => Wire3.Legal(v)
    case _ => true
  }

  predicate LegalPairs(ps: seq<Pair>)
    decreases ps
  {
    forall i :: 0 <= i < |ps| ==> 1 <= |ps[i].key| <= 65535 && Legal(ps[i].val)
  }

  // ---- what is written

  function Bytes(w: Wire): bytes
    requires Legal(w)
    decreases w, 0
  {
    match w
    case Nothing(marker) => [marker]
    case Truth(b) => [1, if b then 1 else 0]
    case Double(bits) => [0] + bits
    case Date(bits, zone) => [11] + bits + Be16(zone)
    case Text(s) => [2] + Be16(|s|) + s
    case LongText(marker, s) => [marker] + Be32(|s|) + s
    case Items(items) => [10] + Be32(|items|) + ItemBytes(items)
    case Object(ps) => [3] + PairBytes(ps)
    case EcmaArray(count, ps) => [8] + Be32(count) + PairBytes(ps)
    case TypedObject(name, ps) => [16] + Be16(|name|) + name + PairBytes(ps)
    case Avm(v) => [17] + Wire3.Bytes(v)
  }

  function ItemBytes(items: seq<Wire>): bytes
    requires forall i :: 0 <= i < |items| ==> Legal(items[i])
    decreases items
  {
    if items == [] then [] else Bytes(items[0]) + ItemBytes(items[1..])
  }

  /** Each key behind its length, then its value; an empty key and the end marker come last. */
  function PairBytes(ps: seq<Pair>): bytes
    requires LegalPairs(ps)
    decreases ps
  {
    if ps == [] then [0, 0, 9]
    else TailLegal(ps); Be16(|ps[0].key|) + ps[0].key + Bytes(ps[0].val) + PairBytes(ps[1..])
  }

  lemma {:induction false} TailLegal(ps: seq<Pair>)
    requires LegalPairs(ps) && ps != []
    ensures LegalPairs(ps[1..]) && 1 <= |ps[0].key| <= 65535 && Legal(ps[0].val)
  {
    hide Legal;
    var tail := ps[1..];
    assert forall i :: 0 <= i < |tail| ==> tail[i] == ps[i + 1];
  }

  // ---- what is meant

  function Meaning(w: Wire): Value
    decreases w
  {
    match w
    case Nothing(_) => Null
    case Truth(b) => Bool(b)
    case Double(bits) => Number(bits)
    case Date(bits, _) => Number(bits)
    case Text(s) => Str(s)
    case LongText(_, s) => Str(s)
    case Items(items) => Arr(Meanings(items))
    case Object(ps) => Obj(Put(ps, map[]))
    case EcmaArray(_, ps) => Obj(Put(ps, map[]))
    case TypedObject(name, ps) => Typed(name, Put(ps, map[]))
    case Avm(v) => Wire3.Meaning(v)
  }

  function Meanings(items: seq<Wire>): (vs: seq<Value>)
    ensures |vs| == |items|
    decreases items
  {
    if items == [] then [] else [Meaning(items[0])] + Meanings(items[1..])
  }

  function Put(ps: seq<Pair>, acc: map<bytes, Value>): map<bytes, Value>
    decreases ps
  {
    if ps == [] then acc else Put(ps[1..], acc[ps[0].key := Meaning(ps[0].val)])
  }

  // ---- what is read

  /** Everything that is written so is read, with anything behind it, as it is meant. */
  lemma {:induction false} ReadsBack(w: Wire, suffix: bytes)
    requires Legal(w)
    ensures Amf0.Decode(Bytes(w) + suffix) == Got(Meaning(w), suffix)
    decreases w, 0
  {
    hide Amf0.Decode, Bytes, ItemBytes, PairBytes, Put, Meaning, Meanings, Legal, LegalPairs;
    LegalParts(w);
    match w
    case Items(items) =>
      ItemsRead(items, suffix);
      ArrayReads(items, suffix);
    case Object(ps) =>
      PairsRead(ps, map[], suffix);
      KeyedReads(w, ps, suffix);
    case EcmaArray(_, ps) =>
      PairsRead(ps, map[], suffix);
      KeyedReads(w, ps, suffix);
    case TypedObject(_, ps) =>
      PairsRead(ps, map[], suffix);
      TypedReads(w, suffix);
    case Avm(v) => AvmReads(v, suffix);
    case _ => ScalarReads(w, suffix);
  }

  lemma {:induction false} LegalParts(w: Wire)
    requires Legal(w)
    ensures w.Items? ==> |w.items| < 0x1_0000_0000 && forall i :: 0 <= i < |w.items| ==> Legal(w.items[i])
    ensures w.Object? || w.EcmaArray? || w.TypedObject? ==> LegalPairs(w.pairs)
    ensures w.TypedObject? ==> |w.name| <= 65535
    ensures w.Avm? ==> Wire3.Legal(w.w)
  {
  }

  lemma {:induction false} ScalarReads(w: Wire, suffix: bytes)
    requires Legal(w) && !w.Items? && !w.Object? && !w.EcmaArray? && !w.TypedObject? && !w.Avm?
    ensures Amf0.Decode(Bytes(w) + suffix) == Got(Meaning(w), suffix)
  {
    hide Be16, Be32, Amf0.ReadString, Amf0.ReadLongString, Amf0.DecodeFields, Amf0.DecodeArray, Amf0.DecodeTyped,
         Amf0.Amf3.Decode;
    var b := Bytes(w);
    var rest := (b + suffix)[1..];
    assert rest == b[1..] + suffix;
    match w
    case Nothing(_) => assert b[1..] == [];
    case Truth(_) => assert rest[1..] == suffix;
    case Double(bits) => assert rest[..8] == bits && rest[8..] == suffix;
    case Date(bits, zone) =>
      assert b[1..] == bits + Be16(zone);
      assert rest[..8] == bits && rest[10..] == suffix;
    case Text(s) =>
      assert b[1..] == Amf0.ShortString(s);
      Amf0.StringReads(s, suffix);
    case LongText(_, s) =>
      assert b[1..] == Be32(|s|) + s;
      Amf0.LongStringReads(s, suffix);
  }

  lemma {:induction false} ItemsRead(items: seq<Wire>, suffix: bytes)
    requires forall i :: 0 <= i < |items| ==> Legal(items[i])
    ensures Amf0.DecodeItems(ItemBytes(items) + suffix, |items|) == Got(Meanings(items), suffix)
    decreases items, 1
  {
    hide Amf0.Decode, Bytes, Meaning, Legal;
    if items == [] {
      assert ItemBytes(items) + suffix == suffix;
    } else {
      var tail := items[1..];
      ReadsBack(items[0], ItemBytes(tail) + suffix);
      assert ItemBytes(items) + suffix == Bytes(items[0]) + (ItemBytes(tail) + suffix);
      ItemsRead(tail, suffix);
    }
  }

  lemma {:induction false} ArrayReads(items: seq<Wire>, suffix: bytes)
    requires |items| < 0x1_0000_0000 && Legal(Items(items))
    requires forall i :: 0 <= i < |items| ==> Legal(items[i])
    requires Amf0.DecodeItems(ItemBytes(items) + suffix, |items|) == Got(Meanings(items), suffix)
    ensures Amf0.Decode(Bytes(Items(items)) + suffix) == Got(Arr(Meanings(items)), suffix)
    ensures Meaning(Items(items)) == Arr(Meanings(items))
  {
    hide Be32, De32, ItemBytes, Meanings, Legal, Amf0.DecodeItems, Amf0.DecodeFields, Amf0.DecodeTyped,
         Amf0.DecodeScalar, Amf0.Amf3.Decode;
    var rest := Be32(|items|) + (ItemBytes(items) + suffix);
    assert (Bytes(Items(items)) + suffix)[1..] == rest;
    assert rest[..4] == Be32(|items|) && rest[4..] == ItemBytes(items) + suffix;
    De32Prefix(rest);
    Be32Inverse(|items|);
  }

  lemma {:induction false} PairsRead(ps: seq<Pair>, acc: map<bytes, Value>, suffix: bytes)
    requires LegalPairs(ps)
    ensures Amf0.DecodeFields(PairBytes(ps) + suffix, acc) == Got(Put(ps, acc), suffix)
    decreases ps, 1
  {
    hide Amf0.Decode, Bytes, Meaning, Legal, LegalPairs, Amf0.ReadString, Be16;
    if ps == [] {
      EndReads(suffix);
    } else {
      TailLegal(ps);
      var tail := ps[1..];
      var behind := PairBytes(tail) + suffix;
      KeyReads(ps[0].key, Bytes(ps[0].val) + behind);
      ReadsBack(ps[0].val, behind);
      assert PairBytes(ps) + suffix == Be16(|ps[0].key|) + ps[0].key + (Bytes(ps[0].val) + behind);
      PairsRead(tail, acc[ps[0].key := Meaning(ps[0].val)], suffix);
    }
  }

  lemma KeyReads(key: bytes, suffix: bytes)
    requires |key| <= 65535
    ensures Amf0.ReadString(Be16(|key|) + key + suffix) == Got(key, suffix)
  {
    hide Amf0.ReadString, Be16;
    Amf0.StringReads(key, suffix);
    assert Amf0.ShortString(key) == Be16(|key|) + key;
  }

  lemma EndReads(suffix: bytes)
    ensures Amf0.ReadString([0, 0, 9] + suffix) == Got([], [9] + suffix)
    ensures ([9] + suffix)[1..] == suffix
  {
    hide Amf0.ReadString;
    KeyReads([], [9] + suffix);
    assert Be16(0) + [] + ([9] + suffix) == [0, 0, 9] + suffix;
  }

  /** Objects, and associative arrays whatever count they announce. */
  lemma {:induction false} KeyedReads(w: Wire, ps: seq<Pair>, suffix: bytes)
    requires Legal(w) && LegalPairs(ps) && (w == Object(ps) || (w.EcmaArray? && w.pairs == ps))
    requires Amf0.DecodeFields(PairBytes(ps) + suffix, map[]) == Got(Put(ps, map[]), suffix)
    ensures Amf0.Decode(Bytes(w) + suffix) == Got(Meaning(w), suffix)
  {
    hide Be32, PairBytes, Put, Legal, LegalPairs, Amf0.DecodeFields, Amf0.DecodeTyped, Amf0.DecodeScalar,
         Amf0.DecodeArray, Amf0.Amf3.Decode;
    var rest := (Bytes(w) + suffix)[1..];
    if w.Object? {
      assert rest == PairBytes(ps) + suffix;
    } else {
      assert rest == Be32(w.count) + (PairBytes(ps) + suffix);
      assert rest[4..] == PairBytes(ps) + suffix;
    }
  }

  lemma {:induction false} TypedReads(w: Wire, suffix: bytes)
    requires Legal(w) && w.TypedObject? && LegalPairs(w.pairs) && |w.name| <= 65535
    requires Amf0.DecodeFields(PairBytes(w.pairs) + suffix, map[]) == Got(Put(w.pairs, map[]), suffix)
    ensures Amf0.Decode(Bytes(w) + suffix) == Got(Meaning(w), suffix)
  {
    hide Be16, PairBytes, Put, Legal, LegalPairs, Amf0.DecodeFields, Amf0.DecodeScalar, Amf0.DecodeArray,
         Amf0.Amf3.Decode, Amf0.ReadString;
    KeyReads(w.name, PairBytes(w.pairs) + suffix);
    assert (Bytes(w) + suffix)[1..] == Be16(|w.name|) + w.name + (PairBytes(w.pairs) + suffix);
  }

  lemma {:induction false} AvmReads(v: Wire3.Wire, suffix: bytes)
    requires Wire3.Legal(v) && Legal(Avm(v))
    ensures Amf0.Decode(Bytes(Avm(v)) + suffix) == Got(Meaning(Avm(v)), suffix)
  {
    hide Wire3.Bytes, Wire3.Meaning, Wire3.Legal, Amf0.Amf3.Decode, Amf0.DecodeFields, Amf0.DecodeScalar,
         Amf0.DecodeArray, Amf0.DecodeTyped;
    Wire3.ReadsBack(v, suffix);
    assert (Bytes(Avm(v)) + suffix)[1..] == Wire3.Bytes(v) + suffix;
  }

  /** Reading fails with a plain end of input exactly where there is nothing to read, or a boolean or an AMF3 integer
      is cut off; any other failure is an error. */
  lemma {:induction false} PlainEndIff(s: bytes)
    ensures Amf0.Decode(s) == Fail(true) <==>
      s == [] || s == [1] || s == [17] ||
      (|s| >= 2 && s[0] == 17 && s[1] == 4 && Amf0.Amf3.ReadU29(s[2..]).Fail?)
  {
    hide Amf0.DecodeFields, Amf0.DecodeArray, Amf0.DecodeTyped, Amf0.DecodeScalar, Amf0.Amf3.Decode, Amf0.Amf3.ReadU29;
    if s != [] {
      assert s == [s[0]] + s[1..];
      assert |s| == 1 ==> s == [s[0]];
      if s[0] == 17 {
        Wire3.PlainEndIff(s[1..]);
        assert |s| >= 2 ==> s[1..][0] == s[1] && s[1..][1..] == s[2..];
      } else {
        NoPlainEnd(s[0], s[1..]);
      }
    }
  }

  lemma {:induction false} NoPlainEnd(marker: byte, rest: bytes)
    ensures Amf0.DecodeScalar(marker, rest) == Fail(true) <==> marker == 1 && rest == []
    ensures Amf0.DecodeTyped(rest) != Fail(true) && Amf0.DecodeArray(rest) != Fail(true)
    ensures Amf0.AsObject(Amf0.DecodeFields(rest, map[])) != Fail(true)
  {
    hide Amf0.DecodeFields, Amf0.DecodeItems;
  }

  /** Movie clips, references, a lone end marker, record sets and unknown markers are refused, and so is a boolean
      that is neither 0 nor 1. */
  lemma {:induction false} Refused(marker: byte, rest: bytes)
    requires marker in {4, 7, 9, 14} || marker > 17
    ensures Amf0.Decode([marker] + rest) == Fail(false)
    ensures forall b: byte :: b > 1 ==> Amf0.Decode([1, b] + rest) == Fail(false)
  {
    hide Amf0.DecodeFields, Amf0.DecodeArray, Amf0.DecodeTyped, Amf0.Amf3.Decode;
    forall b: byte | b > 1
      ensures Amf0.Decode([1, b] + rest) == Fail(false)
    {
      assert ([1, b] + rest)[1..] == [b] + rest;
    }
  }
}
