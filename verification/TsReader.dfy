/** A transport stream receiver, written from ISO/IEC 13818-1 (sections 2.4.3.2 and 2.4.3.4) and not
    from the muxer: it finds the payload of a packet by the packet's own adaptation field. */
module TsReader {
  import opened Bits

  const CELL := 188

  function Pid(p: bytes): nat
    requires |p| == CELL
  {
    (p[1] as int % 0x20) * 0x100 + p[2]
  }

  function Counter(p: bytes): nat
    requires |p| == CELL
  {
    p[3] as int % 16
  }

  predicate StartsUnit(p: bytes)
    requires |p| == CELL
  {
    p[1] as int / 0x40 % 2 == 1
  }

  predicate HasAdaptation(p: bytes)
    requires |p| == CELL
  {
    p[3] as int / 0x20 % 2 == 1
  }

  /** Where the payload begins. */
  function Start(p: bytes): nat
    requires |p| == CELL
  {
    if HasAdaptation(p) then 5 + p[4] as int else 4
  }

  predicate IsCell(p: bytes) {
    |p| == CELL && p[0] == 0x47 && p[3] as int / 0x10 % 2 == 1 && Start(p) <= CELL
  }

  function Payload(p: bytes): bytes {
    if IsCell(p) then p[Start(p)..] else []
  }

  /** The packets that carry a program clock reference, and the 33-bit base it holds. */
  predicate HasPcr(p: bytes)
    requires |p| == CELL
  {
    HasAdaptation(p) && p[4] >= 7 && p[5] as int / 0x10 % 2 == 1
  }

  predicate RandomAccess(p: bytes)
    requires |p| == CELL
  {
    HasAdaptation(p) && p[4] >= 1 && p[5] as int / 0x40 % 2 == 1
  }

  function PcrBase(s: bytes): nat
    requires |s| == 6
  {
    De32(s[..4]) * 2 + s[4] as int / 0x80
  }

  // ---- streams

  /** A whole number of well-formed packets. */
  predicate WholeCells(stream: bytes)
    decreases |stream|
  {
    stream == [] || (|stream| >= CELL && IsCell(stream[..CELL]) && WholeCells(stream[CELL..]))
  }

  /** A receiver tuned to one PID: the units collected so far, the last continuity counter, and
      whether every counter was one more, modulo 16, than the one before it. */
  datatype Receiver = Receiver(units: seq<bytes>, counter: nat, continuous: bool)

  function Extend(units: seq<bytes>, payload: bytes): seq<bytes> {
    if units == [] then [] else units[..|units| - 1] + [units[|units| - 1] + payload]
  }

  function Take(r: Receiver, p: bytes, pid: nat): Receiver
    requires |p| == CELL
  {
    if Pid(p) != pid || !IsCell(p) then r
    else Receiver(if StartsUnit(p) then r.units + [Payload(p)] else Extend(r.units, Payload(p)),
                  Counter(p),
                  r.continuous && Counter(p) == (r.counter + 1) % 16)
  }

  function Receive(stream: bytes, pid: nat, r: Receiver): Receiver
    decreases |stream|
  {
    if |stream| < CELL then r else Receive(stream[CELL..], pid, Take(r, stream[..CELL], pid))
  }

  /** Reading one stream and then another is reading their concatenation. */
  lemma {:induction false} ReceiveAppend(a: bytes, b: bytes, pid: nat, r: Receiver)
    requires WholeCells(a)
    ensures Receive(a + b, pid, r) == Receive(b, pid, Receive(a, pid, r))
    decreases |a|
  {
    hide IsCell, Take;
    if a == [] {
      assert a + b == b;
    } else {
      assert (a + b)[..CELL] == a[..CELL] && (a + b)[CELL..] == a[CELL..] + b;
      ReceiveAppend(a[CELL..], b, pid, Take(r, a[..CELL], pid));
    }
  }

  lemma {:induction false} WholeAppend(a: bytes, b: bytes)
    requires WholeCells(a) && WholeCells(b)
    ensures WholeCells(a + b) && |a| % CELL == 0
    decreases |a|
  {
    hide IsCell;
    if a == [] {
      assert a + b == b;
    } else {
      assert (a + b)[..CELL] == a[..CELL] && (a + b)[CELL..] == a[CELL..] + b;
      WholeAppend(a[CELL..], b);
    }
  }

  lemma {:induction false} ReceiveOne(p: bytes, rest: bytes, pid: nat, r: Receiver)
    requires |p| == CELL
    ensures Receive(p + rest, pid, r) == Receive(rest, pid, Take(r, p, pid))
    ensures WholeCells(p + rest) <==> IsCell(p) && WholeCells(rest)
  {
    assert (p + rest)[..CELL] == p && (p + rest)[CELL..] == rest;
  }
}
