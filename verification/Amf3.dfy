/** The AMF3 codec (protocol/amf/encoder_amf3.go, decoder_amf3.go; sections 1.3.1 and 3 of the AMF3
    specification). */
module Amf3 {
  import opened Bits
  import opened Float64
  import opened Amf
  import opened Av

  const U29_MAX := 0x1fff_ffff

  // ---- 29-bit integers

  /** The bytes encodeAmf3Uint29 writes; it refuses larger numbers. */
  function U29(n: nat): bytes
    requires n <= U29_MAX
  {
    if n <= 0x7f then [Byte(n)]
    else if n <= 0x3fff then [Byte(Or(n / 0x80, 0x80)), n % 0x80]
    else if n <= 0x1f_ffff then [Byte(Or(n / 0x4000, 0x80)), Byte(Or(n / 0x80 % 0x80, 0x80)), n % 0x80]
    else [Byte(Or(n / 0x40_0000, 0x80)), Byte(Or(n / 0x8000 % 0x80, 0x80)), Byte(Or(n / 0x100 % 0x80, 0x80)), Byte(n)]
  }

  /** What decodeU29 reads, after i bytes that all had their top bit set. */
  function ReadU29From(s: bytes, i: nat, acc: nat): (r: Parsed<nat>)
    requires i <= 3
    ensures r.Got? ==> |r.rest| < |s|
    decreases 3 - i
  {
    match TakeByte(s)
    case Fail(eof) => Fail(eof)
    case Got(b, rest) =>
      if i == 3 then Got(acc * 0x100 + b, rest)
      else
        var acc' := acc * 0x80 + b % 0x80;
        if b < 0x80 then Got(acc', rest) else ReadU29From(rest, i + 1, acc')
  }

  function ReadU29(s: bytes): (r: Parsed<nat>)
    ensures r.Got? ==> |r.rest| < |s|
  {
    ReadU29From(s, 0, 0)
  }

  lemma ReadU29Bound(s: bytes)
    ensures ReadU29(s).Got? ==> ReadU29(s).v <= U29_MAX
  {
    U29Bound(s, 0, 0);
  }

  lemma {:induction false} U29Bound(s: bytes, i: nat, acc: nat)
    requires i <= 3 && acc < (if i == 0 then 1 else if i == 1 then 0x80 else if i == 2 then 0x4000 else 0x20_0000)
    ensures var r := ReadU29From(s, i, acc); r.Got? ==> r.v <= U29_MAX
    decreases 3 - i
  {
    if s == [] || i == 3 || s[0] < 0x80 {
    } else {
      U29Bound(s[1..], i + 1, acc * 0x80 + s[0] % 0x80);
    }
  }

  lemma {:induction false} TopBit(x: nat)
    requires x < 0x80
    ensures Byte(Or(x, 0x80)) == 0x80 + x
  {
    hide Or;
    Or7(1, x);
  }

  /** A byte with its top bit set is read and the next one follows. */
  lemma {:induction false} ReadOn(x: nat, rest: bytes, i: nat, acc: nat)
    requires i < 3 && x < 0x80
    ensures ReadU29From([Byte(Or(x, 0x80))] + rest, i, acc) == ReadU29From(rest, i + 1, acc * 0x80 + x)
  {
    hide Or, Byte;
    TopBit(x);
    assert ([Byte(Or(x, 0x80))] + rest)[1..] == rest;
  }

  lemma {:induction false} ReadLast(b: byte, rest: bytes, i: nat, acc: nat)
    requires i <= 3 && (i < 3 ==> b < 0x80)
    ensures ReadU29From([b] + rest, i, acc) == Got(if i == 3 then acc * 0x100 + b else acc * 0x80 + b, rest)
  {
    assert ([b] + rest)[1..] == rest;
  }

  /** Reading undoes writing for every 29-bit integer. */
  lemma U29RoundTrip(n: nat, suffix: bytes)
    requires n <= U29_MAX
    ensures ReadU29(U29(n) + suffix) == Got(n, suffix)
  {
    hide ReadU29From, Or, Byte;
    if n <= 0x7f {
      ByteIs(n);
      ReadLast(n, suffix, 0, 0);
    } else if n <= 0x3fff {
      var a, b := n / 0x80, n % 0x80;
      assert U29(n) + suffix == [Byte(Or(a, 0x80))] + ([b] + suffix);
      ReadOn(a, [b] + suffix, 0, 0);
      ReadLast(b, suffix, 1, a);
    } else if n <= 0x1f_ffff {
      var a, b, c := n / 0x4000, n / 0x80 % 0x80, n % 0x80;
      assert U29(n) + suffix == [Byte(Or(a, 0x80))] + ([Byte(Or(b, 0x80))] + ([c] + suffix));
      ReadOn(a, [Byte(Or(b, 0x80))] + ([c] + suffix), 0, 0);
      ReadOn(b, [c] + suffix, 1, a);
      ReadLast(c, suffix, 2, a * 0x80 + b);
      Recompose(n, 0x80, 0x80);
    } else {
      LongRoundTrip(n, suffix);
    }
  }

  lemma LongRoundTrip(n: nat, suffix: bytes)
    requires 0x1f_ffff < n <= U29_MAX
    ensures ReadU29(U29(n) + suffix) == Got(n, suffix)
  {
    hide ReadU29From, Or, Byte;
    var a, b, c, d := n / 0x40_0000, n / 0x8000 % 0x80, n / 0x100 % 0x80, n % 0x100;
    ByteOf(n);
    assert U29(n) + suffix == [Byte(Or(a, 0x80))] + ([Byte(Or(b, 0x80))] + ([Byte(Or(c, 0x80))] + ([d] + suffix)));
    ReadOn(a, [Byte(Or(b, 0x80))] + ([Byte(Or(c, 0x80))] + ([d] + suffix)), 0, 0);
    ReadOn(b, [Byte(Or(c, 0x80))] + ([d] + suffix), 1, a);
    ReadOn(c, [d] + suffix, 2, a * 0x80 + b);
    ReadLast(d, suffix, 3, (a * 0x80 + b) * 0x80 + c);
    Recompose(n / 0x100, 0x80, 0x80);
    assert n / 0x8000 == n / 0x100 / 0x80 && n / 0x40_0000 == n / 0x100 / 0x4000;
  }

  lemma ByteOf(n: nat)
    ensures Byte(n) == n % 0x100
  {
  }

  lemma Recompose(n: nat, p: nat, q: nat)
    requires p == 0x80 && q == 0x80
    ensures (n / 0x4000 * p + n / 0x80 % q) * p + n % p == n
  {
    assert n / 0x4000 == n / 0x80 / 0x80;
  }

  // ---- what the encoder writes

  /** uint32(length<<1) | 0x01 */
  function SizeWord(n: nat): nat { Or(n * 2 % 0x1_0000_0000, 1) }

  /** The trait header: neither dynamic nor externalizable, n sealed properties. */
  function TraitWord(n: nat): nat { Or(3, n * 16 % 0x1_0000_0000) }

  predicate SizeFits(n: nat) { SizeWord(n) <= U29_MAX }

  predicate TraitFits(n: nat) { TraitWord(n) <= U29_MAX }

  function Utf8(s: bytes): bytes
    requires SizeFits(|s|)
  {
    U29(SizeWord(|s|)) + s
  }

  function TypeName(t: Tree): bytes
    requires t.Fields?
  {
    if t.typed then t.name else []
  }

  /** All lengths pass the range check of encodeAmf3Uint29. */
  predicate Encodable(t: Tree)
    requires IsTree(t)
    decreases t
  {
    match t
    case Leaf(v) => v.Str? ==> SizeFits(|v.s|)
    case List(items) => SizeFits(|items|) && forall i :: 0 <= i < |items| ==> Encodable(items[i])
    case Fields(_, _, entries) => TraitFits(|entries|) && SizeFits(|TypeName(t)|) && EntriesEncodable(entries)
  }

  predicate EntriesEncodable(es: seq<Entry>)
    requires AreEntries(es)
    decreases es
  {
    forall i :: 0 <= i < |es| ==> SizeFits(|es[i].key|) && Encodable(es[i].val)
  }

  function ScalarBytes(v: Value): bytes
    requires Scalar(v) && (v.Str? ==> SizeFits(|v.s|))
  {
    match v
    case Null => [1]
    case Bool(b) => [if b then 3 else 2]
    case Int(n, _) => if IsU29(v) then [4] + U29(n) else [5] + FloatOf(n)
    case Number(bits) => [5] + bits
    case Str(s) => [6] + Utf8(s)
  }

  function Bytes(t: Tree): bytes
    requires IsTree(t) && Encodable(t)
    decreases t
  {
    match t
    case Leaf(v) => ScalarBytes(v)
    case List(items) => EmptyFits(); [9] + U29(SizeWord(|items|)) + Utf8([]) + ListBytes(items)
    case Fields(_, _, entries) =>
      KeysFit(entries);
      [10] + U29(TraitWord(|entries|)) + Utf8(TypeName(t)) + NameBytes(Keys(entries)) + ValueBytes(entries)
  }

  lemma EmptyFits()
    ensures SizeFits(0) && Utf8([]) == [1]
  {
    hide Or, Byte;
    OrBit(0);
    ByteIs(1);
  }

  function ListBytes(items: seq<Tree>): bytes
    requires forall i :: 0 <= i < |items| ==> IsTree(items[i]) && Encodable(items[i])
    decreases items
  {
    if items == [] then [] else Bytes(items[0]) + ListBytes(items[1..])
  }

  function Keys(es: seq<Entry>): (r: seq<bytes>)
    ensures |r| == |es| && forall i :: 0 <= i < |es| ==> r[i] == es[i].key
  {
    seq(|es|, i requires 0 <= i < |es| => es[i].key)
  }

  lemma {:induction false} KeysFit(es: seq<Entry>)
    requires AreEntries(es) && EntriesEncodable(es)
    ensures forall i :: 0 <= i < |es| ==> SizeFits(|Keys(es)[i]|)
  {
  }

  function NameBytes(names: seq<bytes>): bytes
    requires forall i :: 0 <= i < |names| ==> SizeFits(|names[i]|)
  {
    if names == [] then [] else NameBytes(names[..|names| - 1]) + Utf8(names[|names| - 1])
  }

  function ValueBytes(es: seq<Entry>): bytes
    requires AreEntries(es) && EntriesEncodable(es)
    decreases es
  {
    if es == [] then [] else TailEntries(es); Bytes(es[0].val) + ValueBytes(es[1..])
  }

  // ---- what the decoder reads

  /** A length or a reference; every reference, a table lookup, ends in Fail here. */
  function ReadSize(s: bytes): (r: Parsed<nat>)
    ensures r.Got? ==> |r.rest| < |s|
    ensures r.Fail? ==> !r.eof
  {
    match ReadU29(s)
    case Fail(_) => Fail(false)
    case Got(u, rest) => if u % 2 == 0 then Fail(false) else Got(u / 2, rest)
  }

  function ReadString(s: bytes): (r: Parsed<bytes>)
    ensures r.Got? ==> |r.rest| < |s|
    ensures r.Fail? ==> !r.eof
  {
    match ReadSize(s)
    case Fail(eof) => Fail(eof)
    case Got(n, rest) => if TakeSome(rest, n).Fail? then Fail(false) else TakeSome(rest, n)
  }

  /** Dates, byte arrays, references and externalizable objects are not part of this model: they end in Fail. */
  function Decode(s: bytes): (r: Parsed<Value>)
    ensures r.Got? ==> |r.rest| < |s|
    decreases |s|, 2
  {
    match TakeByte(s)
    case Fail(eof) => Fail(eof)
    case Got(marker, rest) =>
      if marker == 9 then DecodeArray(rest)
      else if marker == 10 then DecodeObject(rest)
      else DecodeScalar(marker, rest)
  }

  function DecodeScalar(marker: byte, s: bytes): (r: Parsed<Value>)
    ensures r.Got? ==> |r.rest| <= |s|
  {
    if marker == 0 || marker == 1 then Got(Null, s)
    else if marker == 2 || marker == 3 then Got(Bool(marker == 3), s)
    else if marker == 4 then
      match ReadU29(s)
      case Fail(eof) => Fail(eof)
      case Got(u, rest) => ReadU29Bound(s); Got(Int(if u > 0xfff_ffff then u - 0x2000_0000 else u, false), rest)
    else if marker == 5 then
      match TakeExactly(s, 8)
      case Fail(_) => Fail(false)
      case Got(b, rest) => Got(Number(b), rest)
    else if marker == 6 || marker == 7 || marker == 11 then
      match ReadString(s)
      case Fail(eof) => Fail(eof)
      case Got(b, rest) => Got(Str(b), rest)
    else Fail(false)
  }

  function DecodeArray(s: bytes): (r: Parsed<Value>)
    ensures r.Got? ==> |r.rest| < |s|
    decreases |s|, 1
  {
    match ReadSize(s)
    case Fail(_) => Fail(false)
    case Got(n, rest) =>
      match ReadString(rest)
      case Fail(_) => Fail(false)
      case Got(key, rest2) =>
        if key != [] then Fail(false)
        else
          match DecodeItems(rest2, n)
          case Fail(_) => Fail(false)
          case Got(items, rest3) => Got(Arr(items), rest3)
  }

  function DecodeItems(s: bytes, n: nat): (r: Parsed<seq<Value>>)
    ensures r.Got? ==> |r.rest| <= |s| && |r.v| == n
    ensures r.Fail? ==> !r.eof
    decreases |s|, 3
  {
    if n == 0 then Got([], s)
    else
      match Decode(s)
      case Fail(_) => Fail(false)
      case Got(v, rest) =>
        Prepend(v, DecodeItems(rest, n - 1))
  }

  function DecodeObject(s: bytes): (r: Parsed<Value>)
    ensures r.Got? ==> |r.rest| < |s|
    decreases |s|, 1
  {
    match ReadSize(s)
    case Fail(_) => Fail(false)
    case Got(u, rest) =>
      if u % 2 == 0 || u / 2 % 2 != 0 then Fail(false)
      else
        match ReadString(rest)
        case Fail(_) => Fail(false)
        case Got(_, rest2) =>
          match ReadNames(rest2, u / 8)
          case Fail(_) => Fail(false)
          case Got(names, rest3) =>
            match DecodeProperties(rest3, names, map[])
            case Fail(_) => Fail(false)
            case Got(m, rest4) =>
              if u / 4 % 2 == 0 then Got(Obj(m), rest4)
              else
                match DecodeDynamic(rest4, m)
                case Fail(_) => Fail(false)
                case Got(m', rest5) => Got(Obj(m'), rest5)
  }

  function ReadNames(s: bytes, n: nat): (r: Parsed<seq<bytes>>)
    ensures r.Got? ==> |r.rest| <= |s| && |r.v| == n
    ensures r.Fail? ==> !r.eof
    decreases n
  {
    if n == 0 then Got([], s)
    else
      match ReadString(s)
      case Fail(_) => Fail(false)
      case Got(name, rest) =>
        Prepend(name, ReadNames(rest, n - 1))
  }

  function DecodeProperties(s: bytes, names: seq<bytes>, acc: map<bytes, Value>): (r: Parsed<map<bytes, Value>>)
    ensures r.Got? ==> |r.rest| <= |s|
    ensures r.Fail? ==> !r.eof
    decreases |s|, 3
  {
    if names == [] then Got(acc, s)
    else
      match Decode(s)
      case Fail(_) => Fail(false)
      case Got(v, rest) => DecodeProperties(rest, names[1..], acc[names[0] := v])
  }

  function DecodeDynamic(s: bytes, acc: map<bytes, Value>): (r: Parsed<map<bytes, Value>>)
    ensures r.Got? ==> |r.rest| <= |s|
    ensures r.Fail? ==> !r.eof
    decreases |s|, 3
  {
    match ReadString(s)
    case Fail(_) => Fail(false)
    case Got(key, rest) =>
      if key == [] then Got(acc, rest)
      else
        match Decode(rest)
        case Fail(_) => Fail(false)
        case Got(v, rest2) => DecodeDynamic(rest2, acc[key := v])
  }

  // ---- the decoder undoes the encoder

  /** Lengths of strings and arrays below size, numbers of properties below count. */
  predicate Within(t: Tree, size: nat, count: nat)
    requires IsTree(t)
    decreases t
  {
    match t
    case Leaf(v) => v.Str? ==> |v.s| < size
    case List(items) => |items| < size && forall i :: 0 <= i < |items| ==> Within(items[i], size, count)
    case Fields(_, _, entries) => |entries| < count && |TypeName(t)| < size && EntriesWithin(entries, size, count)
  }

  predicate EntriesWithin(es: seq<Entry>, size: nat, count: nat)
    requires AreEntries(es)
    decreases es
  {
    forall i :: 0 <= i < |es| ==> |es[i].key| < size && Within(es[i].val, size, count)
  }

  const SIZE_LIMIT := 0x1000_0000
  const COUNT_LIMIT := 0x200_0000

  /** The check sees a length shifted in 32 bits, and so loses its bit 31 and those above. */
  lemma SizeFitsIff(n: nat)
    ensures SizeFits(n) <==> n % 0x8000_0000 < SIZE_LIMIT
  {
    hide Or;
    OrBit(n % 0x8000_0000);
  }

  lemma TraitFitsIff(n: nat)
    ensures TraitFits(n) <==> n % 0x1000_0000 < COUNT_LIMIT
  {
    hide Or;
    Or4(n % 0x1000_0000, 3);
  }

  lemma SmallSize(n: nat)
    requires n < 0x8000_0000
    ensures SizeFits(n) <==> n < SIZE_LIMIT
    ensures SizeWord(n) == 2 * n + 1
  {
    hide Or;
    OrBit(n);
  }

  lemma SmallTrait(n: nat)
    requires n < 0x1000_0000
    ensures TraitFits(n) <==> n < COUNT_LIMIT
    ensures TraitWord(n) == 16 * n + 3
  {
    hide Or;
    Or4(n, 3);
  }

  /** The same limits on a value, whatever the order of its keys. */
  predicate Limited(v: Value, size: nat, count: nat)
    decreases v
  {
    match v
    case Str(s) => |s| < size
    case Arr(items) => |items| < size && forall i :: 0 <= i < |items| ==> Limited(items[i], size, count)
    case Obj(m) => |m| < count && size > 0 && forall k :: k in m ==> |k| < size && Limited(m[k], size, count)
    case Typed(name, m) =>
      |m| < count && |name| < size && forall k :: k in m ==> |k| < size && Limited(m[k], size, count)
    case _ => true
  }

  lemma {:induction false} LimitedIff(t: Tree, size: nat, count: nat)
    requires IsTree(t)
    ensures Within(t, size, count) <==> Limited(ValueOf(t, Written), size, count)
    decreases t
  {
    hide Within, Limited, ValueOf;
    match t
    case Leaf(_) => LeafLimited(t, size, count);
    case List(items) =>
      forall i | 0 <= i < |items|
        ensures Within(items[i], size, count) <==> Limited(ValueOf(items[i], Written), size, count)
      {
        LimitedIff(items[i], size, count);
      }
      ListLimited(t, size, count);
    case Fields(_, _, es) =>
      forall i | 0 <= i < |es|
        ensures Within(es[i].val, size, count) <==> Limited(ValueOf(es[i].val, Written), size, count)
      {
        LimitedIff(es[i].val, size, count);
      }
      FieldsLimited(t, size, count);
  }

  lemma {:induction false} LeafLimited(t: Tree, size: nat, count: nat)
    requires IsTree(t) && t.Leaf?
    ensures Within(t, size, count) <==> Limited(ValueOf(t, Written), size, count)
  {
  }

  lemma {:induction false} ListLimited(t: Tree, size: nat, count: nat)
    requires IsTree(t) && t.List?
    requires forall i :: 0 <= i < |t.items| ==>
      (Within(t.items[i], size, count) <==> Limited(ValueOf(t.items[i], Written), size, count))
    ensures Within(t, size, count) <==> Limited(ValueOf(t, Written), size, count)
  {
    var vs := ValuesOf(t.items, Written);
    assert forall i :: 0 <= i < |t.items| ==> vs[i] == ValueOf(t.items[i], Written);
  }

  lemma {:induction false} FieldsLimited(t: Tree, size: nat, count: nat)
    requires IsTree(t) && t.Fields? && AreEntries(t.entries)
    requires forall i :: 0 <= i < |t.entries| ==>
      (Within(t.entries[i].val, size, count) <==> Limited(ValueOf(t.entries[i].val, Written), size, count))
    ensures Within(t, size, count) <==> Limited(ValueOf(t, Written), size, count)
  {
    hide FieldsOf, Distinct;
    var m := FieldsOf(t.entries, Written, map[]);
    FieldsCount(t.entries, Written, map[]);
    FieldsForall(t.entries, m, (k: bytes, v: Value) => |k| < size && Limited(v, size, count));
  }

  predicate WellFormed(t: Tree)
    requires IsTree(t)
  {
    Encodable(t) && Within(t, SIZE_LIMIT, COUNT_LIMIT)
  }

  predicate WellFormedEntries(es: seq<Entry>)
    requires AreEntries(es)
  {
    EntriesEncodable(es) && EntriesWithin(es, SIZE_LIMIT, COUNT_LIMIT)
  }

  lemma SizeReads(n: nat, suffix: bytes)
    requires n < SIZE_LIMIT
    ensures SizeFits(n) && ReadSize(U29(SizeWord(n)) + suffix) == Got(n, suffix)
  {
    hide U29, ReadU29, SizeWord;
    SmallSize(n);
    U29RoundTrip(SizeWord(n), suffix);
  }

  lemma StringReads(b: bytes, suffix: bytes)
    requires |b| < SIZE_LIMIT
    ensures SizeFits(|b|) && ReadString(Utf8(b) + suffix) == Got(b, suffix)
  {
    hide U29, SizeWord, ReadSize;
    SizeReads(|b|, b + suffix);
    assert Utf8(b) + suffix == U29(SizeWord(|b|)) + (b + suffix);
    assert (b + suffix)[..|b|] == b && (b + suffix)[|b|..] == suffix;
  }

  lemma {:induction false} ScalarReads(v: Value, suffix: bytes)
    requires Scalar(v) && (v.Str? ==> |v.s| < SIZE_LIMIT && SizeFits(|v.s|))
    ensures Decode(ScalarBytes(v) + suffix) == Got(Seen(v, Read3), suffix)
  {
    hide U29, Utf8, ReadU29, ReadString, FloatOf, SizeFits;
    var b := ScalarBytes(v);
    var rest := (b + suffix)[1..];
    assert rest == b[1..] + suffix;
    if v.Int? && IsU29(v) {
      assert b[1..] == U29(v.n);
      U29RoundTrip(v.n, suffix);
    } else if v.Int? {
      assert rest[..8] == FloatOf(v.n) && rest[8..] == suffix;
    } else if v.Number? {
      assert rest[..8] == v.bits && rest[8..] == suffix;
    } else if v.Str? {
      assert b[1..] == Utf8(v.s);
      StringReads(v.s, suffix);
    } else {
      assert b[1..] == [];
    }
  }

  /** AMF3: reading what was written, with anything behind it, gives the value back, whatever the order
      of the keys, and leaves what is behind it. */
  lemma {:induction false} TreeRoundTrip(t: Tree, suffix: bytes)
    requires IsTree(t) && WellFormed(t)
    ensures Decode(Bytes(t) + suffix) == Got(ValueOf(t, Read3), suffix)
    decreases t, 0
  {
    hide Decode, DecodeArray, DecodeObject, ScalarBytes, Utf8, U29, TraitWord, SizeWord, AreEntries;
    match t
    case Leaf(v) => ScalarReads(v, suffix);
    case List(items) =>
      ItemsRoundTrip(items, suffix);
      EmptyFits();
      ArrayReads(items, ListBytes(items), suffix);
    case Fields(_, _, entries) =>
      FieldsRoundTrip(entries, map[], suffix);
      ObjectReads(t, suffix);
  }

  lemma {:induction false} ArrayReads(items: seq<Tree>, b: bytes, suffix: bytes)
    requires |items| < SIZE_LIMIT && SizeFits(|items|) && SizeFits(0)
    requires forall i :: 0 <= i < |items| ==> IsTree(items[i])
    requires DecodeItems(b + suffix, |items|) == Got(ValuesOf(items, Read3), suffix)
    ensures Decode([9] + U29(SizeWord(|items|)) + Utf8([]) + b + suffix) == Got(Arr(ValuesOf(items, Read3)), suffix)
  {
    hide U29, SizeWord, Utf8, ReadSize, ReadString, DecodeItems, IsTree, ValuesOf, DecodeObject, DecodeScalar;
    var s := [9] + U29(SizeWord(|items|)) + Utf8([]) + b + suffix;
    assert s[1..] == U29(SizeWord(|items|)) + (Utf8([]) + (b + suffix));
    SizeReads(|items|, Utf8([]) + (b + suffix));
    StringReads([], b + suffix);
  }

  lemma {:induction false} ListHead(items: seq<Tree>, suffix: bytes)
    requires items != [] && forall i :: 0 <= i < |items| ==> IsTree(items[i]) && Encodable(items[i])
    ensures forall i :: 0 <= i < |items[1..]| ==> items[1..][i] == items[i + 1]
    ensures ListBytes(items) + suffix == Bytes(items[0]) + (ListBytes(items[1..]) + suffix)
    ensures ValuesOf(items, Read3) == [ValueOf(items[0], Read3)] + ValuesOf(items[1..], Read3)
  {
    hide Bytes, IsTree, ValueOf, Encodable;
  }

  lemma {:induction false} ItemsRoundTrip(items: seq<Tree>, suffix: bytes)
    requires forall i :: 0 <= i < |items| ==> IsTree(items[i]) && Encodable(items[i])
    requires forall i :: 0 <= i < |items| ==> Within(items[i], SIZE_LIMIT, COUNT_LIMIT)
    ensures DecodeItems(ListBytes(items) + suffix, |items|) == Got(ValuesOf(items, Read3), suffix)
    decreases items, 1
  {
    hide Decode, Bytes, Encodable, Within, IsTree, ValueOf;
    if items == [] {
      assert ListBytes(items) + suffix == suffix;
    } else {
      var tail := items[1..];
      ListHead(items, suffix);
      TreeRoundTrip(items[0], ListBytes(tail) + suffix);
      ItemsRoundTrip(tail, suffix);
    }
  }

  lemma {:induction false} ObjectReads(t: Tree, suffix: bytes)
    requires t.Fields? && IsTree(t) && WellFormed(t)
    requires DecodeProperties(ValueBytes(t.entries) + suffix, Keys(t.entries), map[])
      == Got(FieldsOf(t.entries, Read3, map[]), suffix)
    ensures Decode(Bytes(t) + suffix) == Got(Obj(FieldsOf(t.entries, Read3, map[])), suffix)
  {
    hide U29, TraitWord, Utf8, ReadU29, ReadString, ReadNames, DecodeProperties, NameBytes, ValueBytes, FieldsOf,
         SizeFits, EntriesEncodable, EntriesWithin, DecodeArray, DecodeScalar, DecodeDynamic, AreEntries;
    var n, name := |t.entries|, TypeName(t);
    KeysWithin(t.entries);
    var behind := NameBytes(Keys(t.entries)) + (ValueBytes(t.entries) + suffix);
    SmallTrait(n);
    assert (Bytes(t) + suffix)[1..] == U29(TraitWord(n)) + (Utf8(name) + behind);
    U29RoundTrip(TraitWord(n), Utf8(name) + behind);
    TraitBits(n);
    StringReads(name, behind);
    NamesRead(Keys(t.entries), ValueBytes(t.entries) + suffix);
  }

  lemma {:induction false} KeysWithin(es: seq<Entry>)
    requires AreEntries(es) && WellFormedEntries(es)
    ensures NamesFine(Keys(es))
  {
  }

  lemma TraitBits(n: nat)
    ensures var w := 16 * n + 3;
            w % 2 == 1 && w / 2 % 2 == 1 && w / 2 / 2 % 2 == 0 && w / 2 / 4 % 2 == 0 && w / 2 / 8 == n
  {
    Unique(16 * n + 3, 2, 8 * n + 1, 1);
    Unique(8 * n + 1, 2, 4 * n, 1);
    Unique(4 * n, 2, 2 * n, 0);
    Unique(8 * n + 1, 4, 2 * n, 1);
    Unique(2 * n, 2, n, 0);
    Unique(8 * n + 1, 8, n, 1);
  }

  predicate NamesFine(names: seq<bytes>) {
    forall i :: 0 <= i < |names| ==> |names[i]| < SIZE_LIMIT && SizeFits(|names[i]|)
  }

  lemma {:induction false} NamesRead(names: seq<bytes>, suffix: bytes)
    requires NamesFine(names)
    ensures ReadNames(NameBytes(names) + suffix, |names|) == Got(names, suffix)
    decreases |names|
  {
    hide Utf8, ReadString, SizeFits;
    if names == [] {
      assert NameBytes(names) + suffix == suffix;
    } else {
      var tail := names[1..];
      NameBytesHead(names);
      StringReads(names[0], NameBytes(tail) + suffix);
      assert NameBytes(names) + suffix == Utf8(names[0]) + (NameBytes(tail) + suffix);
      NamesRead(tail, suffix);
      assert [names[0]] + tail == names;
    }
  }

  lemma {:induction false} NameBytesHead(names: seq<bytes>)
    requires NamesFine(names) && names != []
    ensures NameBytes(names) == Utf8(names[0]) + NameBytes(names[1..])
    decreases |names|
  {
    hide Utf8, SizeFits;
    var n := |names| - 1;
    if n > 0 {
      NameBytesHead(names[..n]);
      var tail := names[1..];
      assert names[..n][1..] == tail[..n - 1] && tail[n - 1] == names[n];
      assert Utf8(names[0]) + NameBytes(tail[..n - 1]) + Utf8(names[n])
        == Utf8(names[0]) + (NameBytes(tail[..n - 1]) + Utf8(names[n]));
    } else {
      assert names[..n] == [] && names[1..] == [];
    }
  }

  lemma {:induction false} FieldsRoundTrip(es: seq<Entry>, acc: map<bytes, Value>, suffix: bytes)
    requires AreEntries(es) && WellFormedEntries(es)
    ensures DecodeProperties(ValueBytes(es) + suffix, Keys(es), acc) == Got(FieldsOf(es, Read3, acc), suffix)
    decreases es, 1
  {
    hide Decode, Bytes, IsTree, ValueOf, Encodable, Within, SizeFits;
    if es == [] {
      assert ValueBytes(es) + suffix == suffix;
    } else {
      TailEntries(es);
      var tail := es[1..];
      TreeRoundTrip(es[0].val, ValueBytes(tail) + suffix);
      assert ValueBytes(es) + suffix == Bytes(es[0].val) + (ValueBytes(tail) + suffix);
      assert Keys(es)[1..] == Keys(tail);
      FieldsRoundTrip(tail, acc[es[0].key := ValueOf(es[0].val, Read3)], suffix);
    }
  }

  /** The values that come back from AMF3 as they were. */
  predicate Stable(v: Value)
    decreases v
  {
    match v
    case Arr(items) => forall i :: 0 <= i < |items| ==> Stable(items[i])
    case Obj(fields) => forall k :: k in fields ==> Stable(fields[k])
    case Typed(_, _) => false
    case Int(n, wide) => !wide && 0 <= n < 0x1000_0000
    case _ => true
  }

  /** Exactly those with untyped objects only and integers of the narrow kinds in 0..2^28-1. */
  lemma {:induction false} StableIff(v: Value)
    ensures Norm(v, Read3) == v <==> Stable(v)
    decreases v
  {
    match v
    case Arr(items) =>
      forall i | 0 <= i < |items|
        ensures Norm(items[i], Read3) == items[i] <==> Stable(items[i])
      {
        StableIff(items[i]);
      }
      var n := Norm(v, Read3);
      if n == v {
        assert forall i :: 0 <= i < |items| ==> n.items[i] == items[i];
      } else {
        assert n.items != items;
      }
    case Obj(fields) =>
      forall k | k in fields
        ensures Norm(fields[k], Read3) == fields[k] <==> Stable(fields[k])
      {
        StableIff(fields[k]);
      }
      var n := Norm(v, Read3);
      if n == v {
        assert forall k :: k in fields ==> n.fields[k] == fields[k];
      } else {
        assert n.fields != fields;
      }
    case _ =>
  }

  /** The statement about values: whatever order the keys were written in. */
  lemma {:induction false} RoundTrip(t: Tree, suffix: bytes)
    requires IsTree(t) && WellFormed(t)
    ensures Decode(Bytes(t) + suffix) == Got(Norm(ValueOf(t, Written), Read3), suffix)
    ensures Decode(Bytes(t) + suffix) == Got(ValueOf(t, Written), suffix) <==> Stable(ValueOf(t, Written))
  {
    hide Decode, Bytes, WellFormed, IsTree, Norm, ValueOf, Stable;
    TreeRoundTrip(t, suffix);
    ValueOfIsNorm(t, Read3);
    StableIff(ValueOf(t, Written));
  }
}
