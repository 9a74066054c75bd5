/** Sending an Annex B stream in RTP payloads (rtp/codecs/h264_packet.go:46-130) and putting the NAL
    units together again as sections 5.6 and 5.8 of RFC 6184 say. */
module H264Payload {
  import opened Bits
  import opened AnnexB
  import H264

  const FUA_HEADER := 2

  function Min(a: int, b: int): int { if a < b then a else b }

  function NalType(nalu: bytes): byte
    requires nalu != []
  {
    nalu[0] % 32
  }

  function RefIdc(nalu: bytes): nat
    requires nalu != []
  {
    nalu[0] / 32 % 4 * 32
  }

  /** Access unit delimiters and filler data are not sent. */
  predicate Dropped(nalu: bytes)
    requires nalu != []
  {
    NalType(nalu) == 9 || NalType(nalu) == 12
  }

  // ---- the payloader

  /** The fragment of size bytes at position i. */
  function Fua(nalu: bytes, i: nat, size: nat): (f: bytes)
    requires 1 <= i && i + size <= |nalu|
    ensures |f| == FUA_HEADER + size
  {
    [28 + RefIdc(nalu),
     (if i == 1 then 0x80 else if i + size == |nalu| then 0x40 else 0) + NalType(nalu)] + nalu[i..i + size]
  }

  /** The fragments from position i on, of at most max bytes of data each. */
  function FuasFrom(nalu: bytes, max: nat, i: nat): seq<bytes>
    requires max > 0 && 1 <= i <= |nalu|
    decreases |nalu| - i
  {
    if i == |nalu| then []
    else
      var size := Min(max, |nalu| - i);
      [Fua(nalu, i, size)] + FuasFrom(nalu, max, i + size)
  }

  function Fragments(mtu: int, nalu: bytes): seq<bytes>
    requires nalu != []
  {
    if Dropped(nalu) then []
    else if |nalu| <= mtu then [nalu]
    else if mtu <= FUA_HEADER then []
    else FuasFrom(nalu, mtu - FUA_HEADER, 1)
  }

  function AllFragments(mtu: int, units: seq<bytes>): seq<bytes>
    requires forall i :: 0 <= i < |units| ==> units[i] != []
  {
    if units == [] then [] else AllFragments(mtu, units[..|units| - 1]) + Fragments(mtu, units[|units| - 1])
  }

  datatype Payloads = Payloads(packets: seq<bytes>) | Panic

  predicate NoneEmpty(units: seq<bytes>) {
    forall i :: 0 <= i < |units| ==> units[i] != []
  }

  method MakeFua(nalu: bytes, naluRefIdc: nat, naluType: byte, first: bool, last: bool, index: nat, size: nat)
      returns (f: bytes)
    requires 1 <= index && index + size <= |nalu| && naluRefIdc == RefIdc(nalu) && naluType == NalType(nalu)
    requires first == (index == 1) && last == (index + size == |nalu|)
    ensures f == Fua(nalu, index, size)
  {
    hide Or, Byte;
    var out := new byte[FUA_HEADER + size];
    out[0] := 28;
    ByteIs(28 + naluRefIdc);
    Or5(nalu[0] / 32 % 4, 28);
    out[0] := Byte(Or(out[0], naluRefIdc));
    out[1] := naluType;
    ByteIs(0x80 + naluType);
    ByteIs(0x40 + naluType);
    if first {
      Or7(1, naluType);
      out[1] := Byte(Or(out[1], 0x80));
    } else if last {
      Or6(1, naluType);
      out[1] := Byte(Or(out[1], 0x40));
    }
    forall k | 0 <= k < size {
      out[FUA_HEADER + k] := nalu[index + k];
    }
    f := out[..];
    assert f == [out[0], out[1]] + nalu[index..index + size];
  }

  /** What Payload does with each NAL unit. */
  method SendNalu(mtu: int, nalu: bytes) returns (payloads: seq<bytes>)
    requires nalu != []
    ensures payloads == Fragments(mtu, nalu)
  {
    hide Fua;
    var naluType, naluRefIdc := nalu[0] % 32, nalu[0] / 32 % 4 * 32;
    if naluType == 9 || naluType == 12 {
      return [];
    }
    if |nalu| <= mtu {
      return [nalu];
    }
    var maxFragmentSize := mtu - FUA_HEADER;
    var naluDataIndex, naluDataLength := 1, |nalu| - 1;
    var naluDataRemaining := naluDataLength;
    payloads := [];
    if Min(maxFragmentSize, naluDataRemaining) <= 0 {
      NothingLeft(mtu, nalu);
      return;
    }
    while naluDataRemaining > 0
      invariant 1 <= naluDataIndex && 0 <= naluDataRemaining && naluDataIndex + naluDataRemaining == |nalu|
      invariant payloads + FuasFrom(nalu, maxFragmentSize, naluDataIndex) == FuasFrom(nalu, maxFragmentSize, 1)
    {
      var currentFragmentSize := Min(maxFragmentSize, naluDataRemaining);
      var out := MakeFua(nalu, naluRefIdc, naluType, naluDataRemaining == naluDataLength,
                         naluDataRemaining - currentFragmentSize == 0, naluDataIndex, currentFragmentSize);
      payloads := payloads + [out];
      naluDataRemaining := naluDataRemaining - currentFragmentSize;
      naluDataIndex := naluDataIndex + currentFragmentSize;
    }
  }

  /** A unit of one byte that is longer than the MTU has no data to fragment. */
  lemma NothingLeft(mtu: int, nalu: bytes)
    requires nalu != [] && !Dropped(nalu) && |nalu| > mtu && Min(mtu - FUA_HEADER, |nalu| - 1) <= 0
    ensures Fragments(mtu, nalu) == []
  {
  }

  method Payload(mtu: int, payload: bytes) returns (r: Payloads)
    ensures r == if NoneEmpty(Units(payload)) then Payloads(AllFragments(mtu, Units(payload))) else Panic
  {
    hide Units, Fragments;
    var payloads := [];
    var units := EmitNalus(payload);
    for i := 0 to |units|
      invariant NoneEmpty(units[..i]) && payloads == AllFragments(mtu, units[..i])
    {
      if units[i] == [] {
        return Panic;
      }
      var more := SendNalu(mtu, units[i]);
      assert units[..i + 1][..i] == units[..i];
      payloads := payloads + more;
    }
    assert units[..|units|] == units;
    r := Payloads(payloads);
  }

  // ---- the shape of the fragments

  predicate Start(f: bytes) requires |f| >= 2 { f[1] >= 0x80 }
  predicate End(f: bytes) requires |f| >= 2 { f[1] / 0x40 % 2 == 1 }

  /** What each fragment of a unit looks like, from position i on. */
  predicate Shaped(fs: seq<bytes>, mtu: nat, starts: bool) {
    (forall k :: 0 <= k < |fs| ==> 2 < |fs[k]| <= mtu) &&
    (forall k :: 0 <= k < |fs| ==> fs[k][0] % 32 == 28) &&
    (forall k :: 0 <= k < |fs| ==> (Start(fs[k]) <==> starts && k == 0)) &&
    (forall k :: 0 <= k < |fs| ==> (End(fs[k]) <==> k == |fs| - 1))
  }

  lemma {:induction false} FuasShaped(nalu: bytes, max: nat, i: nat)
    requires max > 0 && 1 <= i < |nalu| && (i == 1 ==> |nalu| - 1 > max)
    ensures var fs := FuasFrom(nalu, max, i);
            fs != [] && (i == 1 ==> |fs| >= 2) && Shaped(fs, max + FUA_HEADER, i == 1)
    decreases |nalu| - i
  {
    hide Fua, Shaped, Start, End;
    var size := Min(max, |nalu| - i);
    FuaShaped(nalu, i, size);
    if i + size == |nalu| {
      assert FuasFrom(nalu, max, i) == [Fua(nalu, i, size)];
      OneShaped(Fua(nalu, i, size), max + FUA_HEADER, i == 1);
    } else {
      FuasShaped(nalu, max, i + size);
      MoreShaped(Fua(nalu, i, size), FuasFrom(nalu, max, i + size), max + FUA_HEADER, i == 1);
    }
  }

  lemma OneShaped(f: bytes, mtu: nat, starts: bool)
    requires 2 < |f| <= mtu && f[0] % 32 == 28 && (Start(f) <==> starts) && End(f)
    ensures Shaped([f], mtu, starts)
  {
    hide Start, End;
  }

  lemma MoreShaped(f: bytes, tail: seq<bytes>, mtu: nat, starts: bool)
    requires tail != [] && Shaped(tail, mtu, false)
    requires 2 < |f| <= mtu && f[0] % 32 == 28 && (Start(f) <==> starts) && !End(f)
    ensures Shaped([f] + tail, mtu, starts)
  {
    hide Start, End;
    assert forall k :: 1 <= k <= |tail| ==> ([f] + tail)[k] == tail[k - 1];
  }

  lemma FuaShaped(nalu: bytes, i: nat, size: nat)
    requires 1 <= i && 0 < size && i + size <= |nalu|
    requires i == 1 ==> i + size < |nalu|
    ensures var f := Fua(nalu, i, size);
            f[0] % 32 == 28 && (Start(f) <==> i == 1) && (End(f) <==> i + size == |nalu|)
  {
  }

  /** Fragments fit the MTU, there are at least two, the first alone has the start bit and the last
      alone the end bit. */
  lemma LongNalShaped(mtu: nat, nalu: bytes)
    requires 3 <= mtu < |nalu| && !Dropped(nalu)
    ensures var fs := Fragments(mtu, nalu); |fs| >= 2 && Shaped(fs, mtu, true)
  {
    FuasShaped(nalu, mtu - FUA_HEADER, 1);
  }

  // ---- a receiver

  /** Units received, and the one being put together. */
  datatype Receiver = Receiver(done: seq<bytes>, partial: bytes)

  function Take(r: Receiver, p: bytes): Receiver {
    if p == [] || p[0] % 32 == 0 || p[0] % 32 > 28 then r
    else if p[0] % 32 < 24 then Receiver(r.done + [p], [])
    else if p[0] % 32 != 28 || |p| < 2 then r
    else
      var unit := if Start(p) then [p[0] / 32 * 32 + p[1] % 32] + p[2..] else r.partial + p[2..];
      if End(p) then Receiver(r.done + [unit], []) else r.(partial := unit)
  }

  function Receive(ps: seq<bytes>, r: Receiver): Receiver {
    if ps == [] then r else Take(Receive(ps[..|ps| - 1], r), ps[|ps| - 1])
  }

  lemma {:induction false} ReceiveAppend(a: seq<bytes>, b: seq<bytes>, r: Receiver)
    ensures Receive(a + b, r) == Receive(b, Receive(a, r))
    decreases |b|
  {
    hide Take;
    if b == [] {
      assert a + b == a;
    } else {
      assert (a + b)[..|a + b| - 1] == a + b[..|b| - 1];
      ReceiveAppend(a, b[..|b| - 1], r);
    }
  }

  /** The unit with its forbidden-zero bit cleared, which fragmenting does. */
  function Cleared(nalu: bytes): bytes
    requires nalu != []
  {
    [nalu[0] % 128] + nalu[1..]
  }

  lemma TakeFua(nalu: bytes, i: nat, size: nat, r: Receiver)
    requires 1 <= i && 0 < size && i + size <= |nalu|
    requires if i == 1 then i + size < |nalu| else r.partial == Cleared(nalu)[..i]
    ensures Take(r, Fua(nalu, i, size)) ==
      if i + size == |nalu| then Receiver(r.done + [Cleared(nalu)], [])
      else r.(partial := Cleared(nalu)[..i + size])
  {
    hide Start, End;
    FuaShaped(nalu, i, size);
    var f := Fua(nalu, i, size);
    assert f[2..] == nalu[i..i + size];
    HeaderRestored(nalu, i, size);
    if i == 1 {
      assert [nalu[0] % 128] + nalu[1..1 + size] == Cleared(nalu)[..1 + size];
    } else {
      assert Cleared(nalu)[..i] + nalu[i..i + size] == Cleared(nalu)[..i + size];
    }
    assert Cleared(nalu)[..|nalu|] == Cleared(nalu);
  }

  lemma HeaderRestored(nalu: bytes, i: nat, size: nat)
    requires 1 <= i && 0 < size && i + size <= |nalu|
    ensures var f := Fua(nalu, i, size); f[0] / 32 * 32 + f[1] % 32 == nalu[0] % 128
  {
    var x := nalu[0];
    assert x % 128 == x / 32 % 4 * 32 + x % 32;
  }

  lemma {:induction false} ReceiveFuas(nalu: bytes, max: nat, i: nat, r: Receiver)
    requires max > 0 && 1 <= i < |nalu|
    requires if i == 1 then |nalu| - 1 > max else r.partial == Cleared(nalu)[..i]
    ensures Receive(FuasFrom(nalu, max, i), r) == Receiver(r.done + [Cleared(nalu)], [])
    decreases |nalu| - i
  {
    hide Take, Fua, Cleared;
    var size := Min(max, |nalu| - i);
    var f := [Fua(nalu, i, size)];
    TakeFua(nalu, i, size, r);
    assert f[..0] == [];
    ReceiveAppend(f, FuasFrom(nalu, max, i + size), r);
    if i + size < |nalu| {
      ReceiveFuas(nalu, max, i + size, Take(r, f[0]));
    } else {
      assert f + [] == f;
    }
  }

  /** What arrives of a unit of the types 1 to 23. */
  function Arrives(mtu: nat, nalu: bytes): seq<bytes>
    requires nalu != []
  {
    if Dropped(nalu) then [] else if |nalu| <= mtu then [nalu] else [Cleared(nalu)]
  }

  predicate Ordinary(nalu: bytes) { nalu != [] && 1 <= nalu[0] % 32 <= 23 }

  lemma {:induction false} ReceiveOne(mtu: nat, nalu: bytes, r: Receiver)
    requires mtu >= 3 && Ordinary(nalu) && r.partial == []
    ensures Receive(Fragments(mtu, nalu), r) == Receiver(r.done + Arrives(mtu, nalu), [])
  {
    hide FuasFrom, Cleared;
    var fs := Fragments(mtu, nalu);
    if Dropped(nalu) {
      assert r.done + [] == r.done;
    } else if |nalu| <= mtu {
      assert fs[..0] == [];
    } else {
      ReceiveFuas(nalu, mtu - FUA_HEADER, 1, r);
    }
  }

  function AllArrive(mtu: nat, units: seq<bytes>): seq<bytes>
    requires NoneEmpty(units)
  {
    if units == [] then [] else AllArrive(mtu, units[..|units| - 1]) + Arrives(mtu, units[|units| - 1])
  }

  function Sent(units: seq<bytes>): seq<bytes>
    requires NoneEmpty(units)
  {
    if units == [] then []
    else Sent(units[..|units| - 1]) + (if Dropped(units[|units| - 1]) then [] else [units[|units| - 1]])
  }

  lemma {:induction false} SentStep(front: seq<bytes>, n: bytes)
    requires NoneEmpty(front) && n != []
    ensures NoneEmpty(front + [n])
    ensures Sent(front + [n]) == if n[0] % 32 == 9 || n[0] % 32 == 12 then Sent(front) else Sent(front) + [n]
  {
    assert (front + [n])[..|front|] == front;
    assert Sent(front) + [] == Sent(front);
  }

  /** What is sent of a stream: everything but delimiters (type 9) and filler data (type 12), in order. */
  lemma {:induction false} SentByType(units: seq<bytes>)
    requires NoneEmpty(units)
    ensures forall n :: n in Sent(units) <==> n in units && n[0] % 32 != 9 && n[0] % 32 != 12
    ensures (forall i :: 0 <= i < |units| ==> units[i][0] % 32 != 9 && units[i][0] % 32 != 12) ==> Sent(units) == units
    decreases |units|
  {
    if units == [] {
    } else {
      hide Sent, Dropped;
      var (front, n) := (units[..|units| - 1], units[|units| - 1]);
      SentByType(front);
      assert units == front + [n];
      SentStep(front, n);
    }
  }

  predicate AllOrdinary(units: seq<bytes>) {
    forall i :: 0 <= i < |units| ==> Ordinary(units[i])
  }

  /** Units that fit the MTU, are not sent, or have the forbidden-zero bit clear. */
  predicate Clear(mtu: nat, nalu: bytes)
    requires nalu != []
  {
    Dropped(nalu) || |nalu| <= mtu || nalu[0] < 128
  }

  lemma ArrivesUnchanged(mtu: nat, nalu: bytes)
    requires nalu != []
    ensures Arrives(mtu, nalu) == (if Dropped(nalu) then [] else [nalu]) <==> Clear(mtu, nalu)
    ensures |Arrives(mtu, nalu)| == if Dropped(nalu) then 0 else 1
  {
    if nalu[0] < 128 {
      assert Cleared(nalu) == nalu;
    } else {
      assert Cleared(nalu)[0] != nalu[0];
    }
  }

  lemma {:induction false} ReceiveAll(mtu: nat, units: seq<bytes>)
    requires mtu >= 3 && AllOrdinary(units)
    ensures Receive(AllFragments(mtu, units), Receiver([], [])) == Receiver(AllArrive(mtu, units), [])
    decreases |units|
  {
    hide Fragments, Arrives, Take;
    if units == [] {
    } else {
      var before, u := units[..|units| - 1], units[|units| - 1];
      ReceiveAll(mtu, before);
      ReceiveAppend(AllFragments(mtu, before), Fragments(mtu, u), Receiver([], []));
      ReceiveOne(mtu, u, Receiver(AllArrive(mtu, before), []));
    }
  }

  lemma {:induction false} ArriveAsSent(mtu: nat, units: seq<bytes>)
    requires NoneEmpty(units)
    ensures AllArrive(mtu, units) == Sent(units) <==> forall i :: 0 <= i < |units| ==> Clear(mtu, units[i])
    ensures |AllArrive(mtu, units)| == |Sent(units)|
    decreases |units|
  {
    hide Arrives, Clear, Dropped;
    if units == [] {
    } else {
      var before, u := units[..|units| - 1], units[|units| - 1];
      ArriveAsSent(mtu, before);
      ArrivesUnchanged(mtu, u);
      var (a, b) := (AllArrive(mtu, units), Sent(units));
      var n := |Sent(before)|;
      assert a[..n] == AllArrive(mtu, before) && b[..n] == Sent(before);
      assert a[n..] == Arrives(mtu, u) && b[n..] == if Dropped(u) then [] else [u];
      assert forall i :: 0 <= i < |before| ==> units[i] == before[i];
    }
  }

  /** A receiver puts together exactly the units of the stream, in order, except those that are not
      sent; unchanged exactly if every fragmented one has its forbidden-zero bit clear. */
  lemma {:induction false} StreamReceived(mtu: nat, stream: bytes)
    requires mtu >= 3 && AllOrdinary(Units(stream))
    ensures NoneEmpty(Units(stream))
    ensures Receive(AllFragments(mtu, Units(stream)), Receiver([], [])) == Receiver(Sent(Units(stream)), []) <==>
      forall i :: 0 <= i < |Units(stream)| ==> Clear(mtu, Units(stream)[i])
  {
    hide Units, Receive, AllFragments, Sent, AllArrive, Clear;
    ReceiveAll(mtu, Units(stream));
    ArriveAsSent(mtu, Units(stream));
  }

  lemma {:induction false} SentAfter(first: bytes, units: seq<bytes>)
    requires first != [] && Dropped(first) && NoneEmpty(units)
    ensures NoneEmpty([first] + units) && Sent([first] + units) == Sent(units)
    decreases |units|
  {
    hide Dropped;
    var all := [first] + units;
    if units == [] {
      assert all[..0] == [];
    } else {
      assert all[..|all| - 1] == [first] + units[..|units| - 1];
      SentAfter(first, units[..|units| - 1]);
    }
  }

  /** From a length-prefixed access unit over the byte stream and RTP to a receiver: the units of the
      access unit arrive, each one unchanged exactly if those that are fragmented have the
      forbidden-zero bit clear. */
  lemma {:induction false} AccessUnitReceived(mtu: nat, header: seq<bytes>, nals: seq<bytes>)
    requires mtu >= 3 && nals != [] && H264.FitLengths(nals)
    requires var unit := H264.AccessUnit(header, nals);
             AllOrdinary(unit) && Separable([H264.AUD_NAL] + unit)
    ensures var unit := H264.AccessUnit(header, nals);
            var stream := H264.Annexed(Join(header), H264.LengthPrefixed(nals));
            NoneEmpty(Units(stream)) && NoneEmpty(unit) &&
            (Receive(AllFragments(mtu, Units(stream)), Receiver([], [])) == Receiver(Sent(unit), []) <==>
              forall i :: 0 <= i < |unit| ==> Clear(mtu, unit[i]))
  {
    hide Units, Receive, AllFragments, Sent, AllArrive, Clear, Join, Separable, H264.AccessUnit, H264.Annexed,
         H264.LengthPrefixed;
    var unit := H264.AccessUnit(header, nals);
    var all := [H264.AUD_NAL] + unit;
    H264.ReframingScans(header, nals);
    AudIsDropped(mtu);
    assert AllOrdinary(all);
    SentAfter(H264.AUD_NAL, unit);
    ReceiveAll(mtu, all);
    ArriveAsSent(mtu, all);
    assert forall i :: 0 <= i < |unit| ==> all[i + 1] == unit[i];
    assert forall i :: 1 <= i < |all| ==> all[i] == unit[i - 1];
  }

  lemma AudIsDropped(mtu: nat)
    ensures Ordinary(H264.AUD_NAL) && Dropped(H264.AUD_NAL) && Clear(mtu, H264.AUD_NAL)
  {
  }
}
