/** AMF3 as other programs write it (sections 1.3.1 and 3 of the AMF3 specification): every kind of value that the
    decoder reads, with strings, arrays and objects written out, and what is read. */
module Wire3 {
  import opened Bits
  import opened Float64
  import opened Amf
  import Amf3

  type U29 = n: nat | n < 0x2000_0000

  datatype Wire =
    | Undefined
    | Nil
    | Truth(b: bool)
    | Whole(n: U29)
    | Double(bits: Float)
    | Text(marker: byte, s: bytes)
    | Items(items: seq<Wire>)
    | Object(name: bytes, sealed: seq<Pair>, dynamic: bool, more: seq<Pair>)

  datatype Pair = Pair(key: bytes, val: Wire)

  /** Within the 29 bits of a number; the markers of a string and of both kinds of XML. */
  predicate Legal(w: Wire)
    decreases w
  {
    match w
    case Whole(n) => true
    case Text(marker, s) => (marker == 6 || marker == 7 || marker == 11) && |s| < 0x1000_0000
    case Items(items) => |items| < 0x1000_0000 && forall i :: 0 <= i < |items| ==> Legal(items[i])
    case Object(name, sealed, dynamic, more) =>
      |name| < 0x1000_0000 && |sealed| < 0x200_0000 && (!dynamic ==> more == []) &&
      (forall i :: 0 <= i < |sealed| ==> |sealed[i].key| < 0x1000_0000 && Legal(sealed[i].val)) &&
      forall i :: 0 <= i < |more| ==> 0 < |more[i].key| < 0x1000_0000 && Legal(more[i].val)
    case _ => true
  }

  predicate LegalPairs(ps: seq<Pair>, least: nat) {
    forall i :: 0 <= i < |ps| ==> least <= |ps[i].key| < 0x1000_0000 && Legal(ps[i].val)
  }

  // ---- what is written

  /** Seven bits to the byte, and eight in the fourth. */
  function Number29(n: nat): bytes
    requires n < 0x2000_0000
  {
    if n < 0x80 then [n]
    else if n < 0x4000 then [0x80 + n / 0x80, n % 0x80]
    else if n < 0x20_0000 then [0x80 + n / 0x4000, 0x80 + n / 0x80 % 0x80, n % 0x80]
    else [0x80 + n / 0x40_0000, 0x80 + n / 0x8000 % 0x80, 0x80 + n / 0x100 % 0x80, n % 0x100]
  }

  function Inline(s: bytes): bytes
    requires |s| < 0x1000_0000
  {
    Number29(2 * |s| + 1) + s
  }

  function Bytes(w: Wire): bytes
    requires Legal(w)
    decreases w, 0
  {
    match w
    case Undefined => [0]
    case Nil => [1]
    case Truth(b) => [if b then 3 else 2]
    case Whole(n) => [4] + Number29(n)
    case Double(bits) => [5] + bits
    case Text(marker, s) => [marker] + Inline(s)
    case Items(items) => [9] + Number29(2 * |items| + 1) + [1] + ItemBytes(items)
    case Object(name, sealed, dynamic, more) =>
      [10] + Number29(16 * |sealed| + (if dynamic then 8 else 0) + 3) + Inline(name) + KeyBytes(sealed)
        + ValueBytes(sealed) + if dynamic then PairBytes(more) + [1] else []
  }

  function ItemBytes(items: seq<Wire>): bytes
    requires forall i :: 0 <= i < |items| ==> Legal(items[i])
    decreases items
  {
    if items == [] then [] else Bytes(items[0]) + ItemBytes(items[1..])
  }

  function KeyBytes(ps: seq<Pair>): bytes
    requires LegalPairs(ps, 0)
  {
    if ps == [] then [] else Inline(ps[0].key) + KeyBytes(ps[1..])
  }

  function ValueBytes(ps: seq<Pair>): bytes
    requires LegalPairs(ps, 0)
    decreases ps
  {
    if ps == [] then [] else Bytes(ps[0].val) + ValueBytes(ps[1..])
  }

  function PairBytes(ps: seq<Pair>): bytes
    requires LegalPairs(ps, 1)
    decreases ps
  {
    if ps == [] then [] else Inline(ps[0].key) + Bytes(ps[0].val) + PairBytes(ps[1..])
  }

  // ---- what is meant

  function Meaning(w: Wire): Value
    decreases w
  {
    match w
    case Undefined => Null
    case Nil => Null
    case Truth(b) => Bool(b)
    case Whole(n) => Int(if n < 0x1000_0000 then n else n - 0x2000_0000, false)
    case Double(bits) => Number(bits)
    case Text(_, s) => Str(s)
    case Items(items) => Arr(Meanings(items))
    case Object(_, sealed, _, more) => Obj(Put(more, Put(sealed, map[])))
  }

  function Meanings(items: seq<Wire>): (vs: seq<Value>)
    ensures |vs| == |items|
    decreases items
  {
    if items == [] then [] else [Meaning(items[0])] + Meanings(items[1..])
  }

  /** Later values of a key replace earlier ones. */
  function Put(ps: seq<Pair>, acc: map<bytes, Value>): map<bytes, Value>
    decreases ps
  {
    if ps == [] then acc else Put(ps[1..], acc[ps[0].key := Meaning(ps[0].val)])
  }

  // ---- what is read

  lemma SameNumber(n: nat)
    requires n < 0x2000_0000
    ensures Number29(n) == Amf3.U29(n)
  {
    hide Or, Byte;
    if n < 0x80 {
      ByteIs(n);
    } else if n < 0x4000 {
      Amf3.TopBit(n / 0x80);
    } else if n < 0x20_0000 {
      Amf3.TopBit(n / 0x4000);
      Amf3.TopBit(n / 0x80 % 0x80);
    } else {
      Amf3.TopBit(n / 0x40_0000);
      Amf3.TopBit(n / 0x8000 % 0x80);
      Amf3.TopBit(n / 0x100 % 0x80);
      LastByte(n);
    }
  }

  lemma LastByte(n: nat)
    ensures Byte(n) == n % 0x100
  {
  }

  lemma NumberReads(n: nat, suffix: bytes)
    requires n < 0x2000_0000
    ensures Amf3.ReadU29(Number29(n) + suffix) == Got(n, suffix)
  {
    hide Amf3.ReadU29, Number29, Amf3.U29;
    SameNumber(n);
    Amf3.U29RoundTrip(n, suffix);
  }

  lemma InlineReads(s: bytes, suffix: bytes)
    requires |s| < 0x1000_0000
    ensures Amf3.ReadString(Inline(s) + suffix) == Got(s, suffix)
  {
    hide Number29, Amf3.ReadU29;
    NumberReads(2 * |s| + 1, s + suffix);
    Unique(2 * |s| + 1, 2, |s|, 1);
    assert Inline(s) + suffix == Number29(2 * |s| + 1) + (s + suffix);
    assert (s + suffix)[..|s|] == s && (s + suffix)[|s|..] == suffix;
  }

  function Keys(ps: seq<Pair>): (r: seq<bytes>)
    ensures |r| == |ps|
  {
    seq(|ps|, i requires 0 <= i < |ps| => ps[i].key)
  }

  lemma {:induction false} KeysRead(ps: seq<Pair>, suffix: bytes)
    requires LegalPairs(ps, 0)
    ensures Amf3.ReadNames(KeyBytes(ps) + suffix, |ps|) == Got(Keys(ps), suffix)
    decreases |ps|
  {
    hide Inline, Legal, Amf3.ReadString;
    if ps == [] {
      assert KeyBytes(ps) + suffix == suffix;
    } else {
      var tail := ps[1..];
      InlineReads(ps[0].key, KeyBytes(tail) + suffix);
      assert KeyBytes(ps) + suffix == Inline(ps[0].key) + (KeyBytes(tail) + suffix);
      KeysRead(tail, suffix);
      assert Keys(ps) == [ps[0].key] + Keys(tail);
    }
  }

  /** Reading fails with a plain end of input exactly where there is nothing to read or an integer is cut off. */
  lemma {:induction false} PlainEndIff(s: bytes)
    ensures Amf3.Decode(s) == Fail(true) <==> s == [] || (s[0] == 4 && Amf3.ReadU29(s[1..]).Fail?)
  {
    hide Amf3.ReadU29, Amf3.ReadString, Amf3.DecodeArray, Amf3.DecodeObject;
    if s != [] {
      NoPlainEnd(s[1..]);
    }
  }

  lemma {:induction false} NoPlainEnd(s: bytes)
    ensures Amf3.DecodeArray(s) != Fail(true) && Amf3.DecodeObject(s) != Fail(true)
    ensures Amf3.ReadU29(s).Fail? ==> Amf3.ReadU29(s) == Fail(true)
    ensures Amf3.ReadString(s) != Fail(true)
  {
    hide Amf3.DecodeItems, Amf3.ReadNames, Amf3.DecodeProperties, Amf3.DecodeDynamic, Amf3.ReadString, Amf3.ReadSize,
         Amf3.ReadU29;
    NumberEnds(s, 0, 0);
    SameRead(s);
  }

  lemma {:induction false} SameRead(s: bytes)
    ensures Amf3.ReadU29(s) == Amf3.ReadU29From(s, 0, 0)
  {
    hide Amf3.ReadU29From;
  }

  lemma {:induction false} NumberEnds(s: bytes, i: nat, acc: nat)
    requires i <= 3
    ensures Amf3.ReadU29From(s, i, acc).Fail? ==> Amf3.ReadU29From(s, i, acc) == Fail(true)
    decreases 3 - i
  {
    if s == [] || i == 3 {
    } else {
      NumberEnds(s[1..], i + 1, acc * 0x80 + s[0] % 0x80);
    }
  }

  /** Everything that is written so is read, with anything behind it, as it is meant. */
  lemma {:induction false} ReadsBack(w: Wire, suffix: bytes)
    requires Legal(w)
    ensures Amf3.Decode(Bytes(w) + suffix) == Got(Meaning(w), suffix)
    decreases w, 0
  {
    hide Amf3.Decode, Bytes, ItemBytes, ValueBytes, KeyBytes, PairBytes, Inline, Number29, Put, Meaning, Legal;
    match w
    case Items(items) =>
      LegalItems(w);
      ItemsRead(items, suffix);
      ArrayReads(w, suffix);
    case Object(_, sealed, dynamic, more) =>
      LegalObject(w);
      if dynamic {
        MoreRead(more, Put(sealed, map[]), suffix);
        SealedRead(sealed, map[], PairBytes(more) + [1] + suffix);
      } else {
        SealedRead(sealed, map[], suffix);
      }
      ObjectReads(w, suffix);
    case _ => ScalarReads(w, suffix);
  }

  lemma {:induction false} LegalItems(w: Wire)
    requires Legal(w) && w.Items?
    ensures |w.items| < 0x1000_0000 && forall i :: 0 <= i < |w.items| ==> Legal(w.items[i])
  {
  }

  lemma {:induction false} LegalObject(w: Wire)
    requires Legal(w) && w.Object?
    ensures |w.name| < 0x1000_0000 && |w.sealed| < 0x200_0000 && (!w.dynamic ==> w.more == [])
    ensures LegalPairs(w.sealed, 0) && LegalPairs(w.more, 1)
  {
  }

  lemma {:induction false} ScalarReads(w: Wire, suffix: bytes)
    requires Legal(w) && !w.Items? && !w.Object?
    ensures Amf3.Decode(Bytes(w) + suffix) == Got(Meaning(w), suffix)
  {
    hide Inline, Number29, Amf3.ReadString, Amf3.ReadU29, Amf3.DecodeArray, Amf3.DecodeObject;
    var b := Bytes(w);
    var rest := (b + suffix)[1..];
    assert rest == b[1..] + suffix;
    match w
    case Whole(n) =>
      assert b[1..] == Number29(n);
      NumberReads(n, suffix);
    case Double(bits) => assert rest[..8] == bits && rest[8..] == suffix;
    case Text(_, t) =>
      assert b[1..] == Inline(t);
      InlineReads(t, suffix);
    case Undefined => assert b[1..] == [];
    case Nil => assert b[1..] == [];
    case Truth(_) => assert b[1..] == [];
  }

  lemma {:induction false} ItemsRead(items: seq<Wire>, suffix: bytes)
    requires forall i :: 0 <= i < |items| ==> Legal(items[i])
    ensures Amf3.DecodeItems(ItemBytes(items) + suffix, |items|) == Got(Meanings(items), suffix)
    decreases items, 1
  {
    hide Amf3.Decode, Bytes, Meaning, Legal;
    if items == [] {
      assert ItemBytes(items) + suffix == suffix;
    } else {
      var tail := items[1..];
      ReadsBack(items[0], ItemBytes(tail) + suffix);
      assert ItemBytes(items) + suffix == Bytes(items[0]) + (ItemBytes(tail) + suffix);
      ItemsRead(tail, suffix);
    }
  }

  lemma {:induction false} ArrayReads(w: Wire, suffix: bytes)
    requires Legal(w) && w.Items?
    requires Amf3.DecodeItems(ItemBytes(w.items) + suffix, |w.items|) == Got(Meanings(w.items), suffix)
    ensures Amf3.Decode(Bytes(w) + suffix) == Got(Meaning(w), suffix)
  {
    hide Number29, ItemBytes, Amf3.ReadU29, Amf3.DecodeItems, Amf3.DecodeObject, Amf3.DecodeScalar, Legal;
    LegalItems(w);
    var n := |w.items|;
    var behind := [1] + (ItemBytes(w.items) + suffix);
    assert (Bytes(w) + suffix)[1..] == Number29(2 * n + 1) + behind;
    NumberReads(2 * n + 1, behind);
    Unique(2 * n + 1, 2, n, 1);
    EmptyReads(ItemBytes(w.items) + suffix);
  }

  lemma EmptyReads(suffix: bytes)
    ensures Amf3.ReadString([1] + suffix) == Got([], suffix)
  {
    InlineReads([], suffix);
    assert Inline([]) == [1];
  }

  lemma {:induction false} SealedRead(ps: seq<Pair>, acc: map<bytes, Value>, suffix: bytes)
    requires LegalPairs(ps, 0)
    ensures Amf3.DecodeProperties(ValueBytes(ps) + suffix, Keys(ps), acc) == Got(Put(ps, acc), suffix)
    decreases ps, 1
  {
    hide Amf3.Decode, Bytes, Meaning, Legal;
    if ps == [] {
      assert ValueBytes(ps) + suffix == suffix;
    } else {
      var tail := ps[1..];
      ReadsBack(ps[0].val, ValueBytes(tail) + suffix);
      assert ValueBytes(ps) + suffix == Bytes(ps[0].val) + (ValueBytes(tail) + suffix);
      assert Keys(ps)[1..] == Keys(tail);
      SealedRead(tail, acc[ps[0].key := Meaning(ps[0].val)], suffix);
    }
  }

  lemma {:induction false} MoreRead(ps: seq<Pair>, acc: map<bytes, Value>, suffix: bytes)
    requires LegalPairs(ps, 1)
    ensures Amf3.DecodeDynamic(PairBytes(ps) + [1] + suffix, acc) == Got(Put(ps, acc), suffix)
    decreases ps, 1
  {
    hide Amf3.Decode, Amf3.ReadString, Bytes, Meaning, Legal, Inline;
    if ps == [] {
      EmptyReads(suffix);
      assert PairBytes(ps) + [1] + suffix == [1] + suffix;
    } else {
      var tail := ps[1..];
      var behind := PairBytes(tail) + [1] + suffix;
      InlineReads(ps[0].key, Bytes(ps[0].val) + behind);
      ReadsBack(ps[0].val, behind);
      assert PairBytes(ps) + [1] + suffix == Inline(ps[0].key) + (Bytes(ps[0].val) + behind);
      MoreRead(tail, acc[ps[0].key := Meaning(ps[0].val)], suffix);
    }
  }

  lemma TraitBits(n: nat, d: nat)
    requires d < 2
    ensures var u := 16 * n + 8 * d + 3;
            u % 2 == 1 && u / 2 == 8 * n + 4 * d + 1 && u / 2 % 2 == 1 && u / 2 / 2 % 2 == 0 &&
            u / 2 / 4 % 2 == d && u / 2 / 8 == n
  {
    var v := 8 * n + 4 * d + 1;
    Unique(16 * n + 8 * d + 3, 2, v, 1);
    Unique(v, 2, 4 * n + 2 * d, 1);
    Unique(4 * n + 2 * d, 2, 2 * n + d, 0);
    Unique(v, 4, 2 * n + d, 1);
    Unique(2 * n + d, 2, n, d);
    Unique(v, 8, n, 4 * d + 1);
  }

  lemma {:induction false} ObjectReads(w: Wire, suffix: bytes)
    requires Legal(w) && w.Object? && LegalPairs(w.sealed, 0) && LegalPairs(w.more, 1)
    requires var tail := if w.dynamic then PairBytes(w.more) + [1] + suffix else suffix;
             Amf3.DecodeProperties(ValueBytes(w.sealed) + tail, Keys(w.sealed), map[]) ==
               Got(Put(w.sealed, map[]), tail)
    requires w.dynamic ==>
      Amf3.DecodeDynamic(PairBytes(w.more) + [1] + suffix, Put(w.sealed, map[])) ==
        Got(Put(w.more, Put(w.sealed, map[])), suffix)
    ensures Amf3.Decode(Bytes(w) + suffix) == Got(Meaning(w), suffix)
  {
    hide Number29, Inline, KeyBytes, ValueBytes, PairBytes, Put, Legal, LegalPairs, Amf3.ReadU29, Amf3.ReadString,
         Amf3.ReadNames, Amf3.DecodeProperties, Amf3.DecodeDynamic, Amf3.DecodeArray, Amf3.DecodeScalar,
         Amf3.DecodeObject, Amf3.Decode, Bytes;
    LegalObject(w);
    var (n, d) := (|w.sealed|, if w.dynamic then 1 else 0);
    var u := 16 * n + 8 * d + 3;
    var tail := if w.dynamic then PairBytes(w.more) + [1] + suffix else suffix;
    var values := ValueBytes(w.sealed) + tail;
    var behind := Inline(w.name) + (KeyBytes(w.sealed) + values);
    ObjectBytes(w, suffix);
    NumberReads(u, behind);
    TraitBits(n, d);
    InlineReads(w.name, KeyBytes(w.sealed) + values);
    KeysRead(w.sealed, values);
    if !w.dynamic {
      NothingMore(Put(w.sealed, map[]));
    }
    TraitReads(Number29(u) + behind, u, behind, values, Keys(w.sealed), tail, Put(w.sealed, map[]));
  }

  /** The marker, and what the parts behind it are. */
  lemma {:induction false} ObjectBytes(w: Wire, suffix: bytes)
    requires Legal(w) && w.Object? && LegalPairs(w.sealed, 0) && LegalPairs(w.more, 1) && |w.name| < 0x1000_0000
    requires |w.sealed| < 0x200_0000
    ensures var u := 16 * |w.sealed| + (if w.dynamic then 8 else 0) + 3;
            var tail := if w.dynamic then PairBytes(w.more) + [1] + suffix else suffix;
            var behind := Inline(w.name) + (KeyBytes(w.sealed) + (ValueBytes(w.sealed) + tail));
            Amf3.Decode(Bytes(w) + suffix) == Amf3.DecodeObject(Number29(u) + behind)
  {
    hide Number29, Inline, KeyBytes, ValueBytes, PairBytes, Legal, LegalPairs, Amf3.DecodeObject, Amf3.DecodeArray,
         Amf3.DecodeScalar;
    var u := 16 * |w.sealed| + (if w.dynamic then 8 else 0) + 3;
    var tail := if w.dynamic then PairBytes(w.more) + [1] + suffix else suffix;
    var behind := Inline(w.name) + (KeyBytes(w.sealed) + (ValueBytes(w.sealed) + tail));
    assert (Bytes(w) + suffix)[1..] == Number29(u) + behind;
  }

  lemma {:induction false} TraitReads(s: bytes, u: nat, behind: bytes, values: bytes, names: seq<bytes>, tail: bytes,
                   m: map<bytes, Value>)
    requires Amf3.ReadU29(s) == Got(u, behind) && u % 2 == 1 && u / 2 % 2 == 1 && u / 2 / 2 % 2 == 0
    requires Amf3.ReadString(behind).Got?
    requires Amf3.ReadNames(Amf3.ReadString(behind).rest, u / 2 / 8) == Got(names, values)
    requires Amf3.DecodeProperties(values, names, map[]) == Got(m, tail)
    ensures u / 2 / 4 % 2 == 0 ==> Amf3.DecodeObject(s) == Got(Obj(m), tail)
    ensures u / 2 / 4 % 2 == 1 && Amf3.DecodeDynamic(tail, m).Got? ==>
      Amf3.DecodeObject(s) == Got(Obj(Amf3.DecodeDynamic(tail, m).v), Amf3.DecodeDynamic(tail, m).rest)
  {
    hide Amf3.ReadU29, Amf3.ReadString, Amf3.ReadNames, Amf3.DecodeProperties, Amf3.DecodeDynamic;
  }

  lemma {:induction false} NothingMore(acc: map<bytes, Value>)
    ensures Put([], acc) == acc
  {
  }
}
