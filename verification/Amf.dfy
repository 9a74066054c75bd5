/** Values of the AMF codecs (protocol/amf/const.go:66-103, util.go): what is encoded, what is read
    back, and the reader that both decoders consume. */
module Amf {
  import opened Bits
  import opened Float64

  /** The Go values the encoders accept and the decoders make.  wide marks the 64-bit integer kinds. */
  datatype Value =
    | Null
    | Bool(b: bool)
    | Int(n: GoInt, wide: bool)
    | Number(bits: Float)
    | Str(s: bytes)
    | Arr(items: seq<Value>)
    | Obj(fields: map<bytes, Value>)
    | Typed(name: bytes, fields: map<bytes, Value>)

  predicate Scalar(v: Value) {
    !v.Arr? && !v.Obj? && !v.Typed?
  }

  // ---- what comes back

  /** A value as written, as read back from AMF0, or as read back from AMF3. */
  datatype View = Written | Read0 | Read3

  const AMF3_INTEGER_MAX := 536870911

  predicate IsU29(v: Value)
    requires v.Int?
  {
    !v.wide && 0 <= v.n <= AMF3_INTEGER_MAX
  }

  /** Numbers are where the formats lose something: AMF0 has doubles only; AMF3 has 29-bit integers,
      which the decoder takes as signed although the encoder wrote them as unsigned. */
  function Seen(v: Value, view: View): Value
    requires Scalar(v)
  {
    if !v.Int? || view == Written then v
    else if view == Read0 || !IsU29(v) then Number(FloatOf(v.n))
    else if v.n > 0xfff_ffff then Int(v.n - 0x2000_0000, false)
    else v
  }

  /** What becomes of an integer: a double in AMF0; in AMF3 itself if it is of a narrow kind and has 28 bits, the
      negative number its 29 bits stand for if it has 29, and a double otherwise. */
  lemma IntegerSeen(n: GoInt, wide: bool)
    ensures Seen(Int(n, wide), Read0) == Number(FloatOf(n))
    ensures Seen(Int(n, wide), Read3) ==
      if wide || n < 0 || n > 536870911 then Number(FloatOf(n))
      else if n < 268435456 then Int(n, false)
      else Int(n - 536870912, false)
  {
    hide FloatOf;
  }

  function Norm(v: Value, view: View): Value
    decreases v
  {
    match v
    case Arr(items) => Arr(seq(|items|, i requires 0 <= i < |items| => Norm(items[i], view)))
    case Obj(fields) => Obj(map k | k in fields :: Norm(fields[k], view))
    case Typed(name, fields) =>
      var m := map k | k in fields :: Norm(fields[k], view);
      if view == Written then Typed(name, m) else Obj(m)
    case _ => Seen(v, view)
  }

  // ---- values with the order in which their keys are written

  /** A value in which the keys of every object stand in the order they are written in. */
  datatype Tree = Leaf(v: Value) | List(items: seq<Tree>) | Fields(typed: bool, name: bytes, entries: seq<Entry>)
  datatype Entry = Entry(key: bytes, val: Tree)

  predicate Distinct(es: seq<Entry>) {
    forall i, j :: 0 <= i < j < |es| ==> es[i].key != es[j].key
  }

  predicate IsTree(t: Tree)
    decreases t
  {
    match t
    case Leaf(v) => Scalar(v)
    case List(items) => forall i :: 0 <= i < |items| ==> IsTree(items[i])
    case Fields(_, _, entries) => AreEntries(entries)
  }

  predicate AreEntries(es: seq<Entry>)
    decreases es
  {
    Distinct(es) && forall i :: 0 <= i < |es| ==> IsTree(es[i].val)
  }

  function ValueOf(t: Tree, view: View): Value
    requires IsTree(t)
    decreases t
  {
    match t
    case Leaf(v) => Seen(v, view)
    case List(items) => Arr(ValuesOf(items, view))
    case Fields(typed, name, entries) =>
      var m := FieldsOf(entries, view, map[]);
      if typed && view == Written then Typed(name, m) else Obj(m)
  }

  function ValuesOf(items: seq<Tree>, view: View): (r: seq<Value>)
    requires forall i :: 0 <= i < |items| ==> IsTree(items[i])
    ensures |r| == |items|
    decreases items
  {
    seq(|items|, i requires 0 <= i < |items| => ValueOf(items[i], view))
  }

  /** Entries put into a map one after the other. */
  function FieldsOf(es: seq<Entry>, view: View, acc: map<bytes, Value>): map<bytes, Value>
    requires AreEntries(es)
    decreases es
  {
    if es == [] then acc
    else
      TailEntries(es);
      FieldsOf(es[1..], view, acc[es[0].key := ValueOf(es[0].val, view)])
  }

  lemma {:induction false} TailEntries(es: seq<Entry>)
    requires es != []
    ensures AreEntries(es) ==> AreEntries(es[1..])
  {
    var tail := es[1..];
    assert forall i :: 0 <= i < |tail| ==> tail[i] == es[i + 1];
  }

  // ---- what the order of keys does to the value: nothing

  lemma {:induction false} FieldsContents(es: seq<Entry>, view: View, acc: map<bytes, Value>)
    requires AreEntries(es)
    ensures forall k :: k in FieldsOf(es, view, acc) <==> k in acc || exists i :: 0 <= i < |es| && es[i].key == k
    ensures forall i :: 0 <= i < |es| ==>
      es[i].key in FieldsOf(es, view, acc) && FieldsOf(es, view, acc)[es[i].key] == ValueOf(es[i].val, view)
    ensures forall k :: k in acc && (forall i :: 0 <= i < |es| ==> es[i].key != k) ==>
      k in FieldsOf(es, view, acc) && FieldsOf(es, view, acc)[k] == acc[k]
    decreases |es|
  {
    hide IsTree, ValueOf;
    if es == [] {
    } else {
      TailEntries(es);
      var tail, acc' := es[1..], acc[es[0].key := ValueOf(es[0].val, view)];
      FieldsContents(tail, view, acc');
      assert forall i :: 1 <= i < |es| ==> es[i] == tail[i - 1];
      assert forall i :: 0 <= i < |tail| ==> tail[i] == es[i + 1];
    }
  }

  /** Reading back depends on the value alone, not on the order its keys were written in. */
  lemma {:induction false} ValueOfIsNorm(t: Tree, view: View)
    requires IsTree(t)
    ensures ValueOf(t, view) == Norm(ValueOf(t, Written), view)
    decreases t
  {
    hide AreEntries, Norm, Seen, FieldsOf, ValuesOf;
    match t
    case Leaf(v) => NormScalar(v, view);
    case List(items) =>
      forall i | 0 <= i < |items|
        ensures ValueOf(items[i], view) == Norm(ValueOf(items[i], Written), view)
      {
        ValueOfIsNorm(items[i], view);
      }
      NormItems(items, view);
    case Fields(typed, name, entries) =>
      forall i | 0 <= i < |entries|
        ensures IsTree(entries[i].val) && ValueOf(entries[i].val, view) == Norm(ValueOf(entries[i].val, Written), view)
      {
        EntryIsTree(entries, i);
        ValueOfIsNorm(entries[i].val, view);
      }
      NormFields(entries, view);
      NormObject(typed, name, FieldsOf(entries, Written, map[]), view);
  }

  lemma {:induction false} EntryIsTree(es: seq<Entry>, i: nat)
    requires AreEntries(es) && i < |es|
    ensures IsTree(es[i].val)
  {
  }

  lemma {:induction false} NormScalar(v: Value, view: View)
    requires Scalar(v)
    ensures Seen(v, view) == Norm(Seen(v, Written), view)
  {
  }

  lemma {:induction false} NormItems(items: seq<Tree>, view: View)
    requires forall i :: 0 <= i < |items| ==> IsTree(items[i])
    requires forall i :: 0 <= i < |items| ==> ValueOf(items[i], view) == Norm(ValueOf(items[i], Written), view)
    ensures Arr(ValuesOf(items, view)) == Norm(Arr(ValuesOf(items, Written)), view)
  {
    hide ValueOf, IsTree;
  }

  lemma NormObject(typed: bool, name: bytes, m: map<bytes, Value>, view: View)
    ensures var m' := map k | k in m :: Norm(m[k], view);
            Norm(if typed then Typed(name, m) else Obj(m), view) ==
            if typed && view == Written then Typed(name, m') else Obj(m')
  {
  }

  lemma {:induction false} NormFields(es: seq<Entry>, view: View)
    requires AreEntries(es)
    requires forall i :: 0 <= i < |es| ==> ValueOf(es[i].val, view) == Norm(ValueOf(es[i].val, Written), view)
    ensures var m := FieldsOf(es, Written, map[]);
            FieldsOf(es, view, map[]) == map k | k in m :: Norm(m[k], view)
  {
    hide IsTree, ValueOf, Norm, FieldsOf;
    FieldsContents(es, Written, map[]);
    FieldsContents(es, view, map[]);
    var m, m' := FieldsOf(es, Written, map[]), FieldsOf(es, view, map[]);
    forall k | k in m
      ensures k in m' && m'[k] == Norm(m[k], view)
    {
      var i :| 0 <= i < |es| && es[i].key == k;
    }
  }

  /** What holds of all entries holds of all fields, and the other way round. */
  lemma {:induction false} FieldsForall(es: seq<Entry>, m: map<bytes, Value>, holds: (bytes, Value) -> bool)
    requires AreEntries(es) && m == FieldsOf(es, Written, map[])
    ensures (forall i :: 0 <= i < |es| ==> holds(es[i].key, ValueOf(es[i].val, Written))) <==>
      forall k :: k in m ==> holds(k, m[k])
  {
    hide IsTree, ValueOf, FieldsOf, Distinct;
    FieldsContents(es, Written, map[]);
    if forall i :: 0 <= i < |es| ==> holds(es[i].key, ValueOf(es[i].val, Written)) {
      forall k | k in m
        ensures holds(k, m[k])
      {
        var i :| 0 <= i < |es| && es[i].key == k;
      }
    }
  }

  /** Every entry of an object with distinct keys counts. */
  lemma {:induction false} FieldsCount(es: seq<Entry>, view: View, acc: map<bytes, Value>)
    requires AreEntries(es) && forall i :: 0 <= i < |es| ==> es[i].key !in acc
    ensures |FieldsOf(es, view, acc)| == |acc| + |es|
    decreases |es|
  {
    hide IsTree, ValueOf;
    if es == [] {
    } else {
      TailEntries(es);
      var tail, acc' := es[1..], acc[es[0].key := ValueOf(es[0].val, view)];
      assert forall i :: 0 <= i < |tail| ==> tail[i] == es[i + 1];
      assert acc'.Keys == acc.Keys + {es[0].key};
      assert |acc'.Keys| == |acc'| && |acc.Keys| == |acc|;
      FieldsCount(tail, view, acc');
    }
  }

  // ---- reading

  /** What a decoder gets: a value and the bytes behind it, or an error, which is a plain end of input
      where the decoder hands that on unwrapped. */
  datatype Parsed<T> = Got(v: T, rest: bytes) | Fail(eof: bool)

  /** ReadByte and ReadMarker. */
  function TakeByte(s: bytes): (r: Parsed<byte>)
    ensures r.Got? ==> |r.rest| < |s|
  {
    if s == [] then Fail(true) else Got(s[0], s[1..])
  }

  /** Exactly n bytes, or an error. */
  function TakeExactly(s: bytes, n: nat): (r: Parsed<bytes>)
    ensures r.Got? ==> |r.rest| == |s| - n && |r.v| == n
  {
    if |s| < n then Fail(false) else Got(s[..n], s[n..])
  }

  function Zeros(n: nat): (s: bytes)
    ensures |s| == n
  {
    seq(n, i => 0)
  }

  /** One call of Read into a buffer of n bytes, whose result is not compared with n: what the input
      is short of stays zero. */
  function TakeSome(s: bytes, n: nat): (r: Parsed<bytes>)
    ensures r.Got? ==> |r.rest| <= |s| && |r.v| == n
  {
    if n == 0 then Got([], s)
    else if s == [] then Fail(false)
    else if |s| < n then Got(s + Zeros(n - |s|), [])
    else Got(s[..n], s[n..])
  }

  /** A list read in two parts. */
  ghost predicate Continues<T>(whole: Parsed<seq<T>>, first: seq<T>, others: Parsed<seq<T>>) {
    match others
    case Fail(_) => whole == Fail(false)
    case Got(vs, rest) => whole == Got(first + vs, rest)
  }

  lemma ContinuesStart<T>(whole: Parsed<seq<T>>)
    requires whole.Fail? ==> !whole.eof
    ensures Continues(whole, [], whole)
  {
    if whole.Got? {
      assert [] + whole.v == whole.v;
    }
  }

  /** One more value in front of what is still to be read. */
  function Prepend<T>(v: T, others: Parsed<seq<T>>): Parsed<seq<T>> {
    match others
    case Fail(_) => Fail(false)
    case Got(vs, rest) => Got([v] + vs, rest)
  }

  lemma ContinuesStep<T>(whole: Parsed<seq<T>>, first: seq<T>, v: T, others: Parsed<seq<T>>)
    requires Continues(whole, first, Prepend(v, others))
    ensures Continues(whole, first + [v], others)
  {
    if others.Got? {
      assert first + ([v] + others.v) == first + [v] + others.v;
    }
  }

  lemma ContinuesEnd<T>(whole: Parsed<seq<T>>, first: seq<T>, rest: bytes)
    requires Continues(whole, first, Got([], rest))
    ensures whole == Got(first, rest)
  {
    assert first + [] == first;
  }

  /** An in-memory reader. */
  class Reader {
    var rest: bytes

    constructor (s: bytes)
      ensures rest == s
    {
      rest := s;
    }

    method ReadByte() returns (r: Parsed<byte>)
      modifies this
      ensures r == TakeByte(old(rest))
      ensures r.Got? ==> rest == r.rest
      ensures |rest| <= |old(rest)|
    {
      if rest == [] {
        return Fail(true);
      }
      var b := rest[0];
      rest := rest[1..];
      r := Got(b, rest);
    }

    method ReadBytes(n: nat) returns (r: Parsed<bytes>)
      modifies this
      ensures r == TakeExactly(old(rest), n)
      ensures rest == if r.Got? then r.rest else []
      ensures |rest| <= |old(rest)|
    {
      if |rest| < n {
        rest := [];
        return Fail(false);
      }
      r := Got(rest[..n], rest[n..]);
      rest := rest[n..];
    }

    method ReadOnce(n: nat) returns (r: Parsed<bytes>)
      modifies this
      ensures r == TakeSome(old(rest), n)
      ensures r.Got? ==> rest == r.rest
      ensures |rest| <= |old(rest)|
    {
      if n == 0 {
        return Got([], rest);
      }
      if rest == [] {
        return Fail(false);
      }
      if |rest| < n {
        r := Got(rest + Zeros(n - |rest|), []);
        rest := [];
      } else {
        r := Got(rest[..n], rest[n..]);
        rest := rest[n..];
      }
    }
  }
}
