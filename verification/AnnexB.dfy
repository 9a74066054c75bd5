/** NAL units in a byte stream with start codes (H.264, Annex B): joining them, and the scanner of
    rtp/codecs/h264_packet.go:10-43 that finds them again. */
module AnnexB {
  import opened Bits

  const START_CODE: bytes := [0x00, 0x00, 0x00, 0x01]

  function Join(nals: seq<bytes>): bytes {
    if nals == [] then [] else START_CODE + nals[0] + Join(nals[1..])
  }

  // ---- what the scanner finds

  predicate CodeAt(s: bytes, j: int) {
    0 <= j && j + 2 < |s| && s[j] == 0 && s[j + 1] == 0 && s[j + 2] == 1
  }

  /** The first 00 00 01 at or after position k, or -1. */
  function CodeFrom(s: bytes, k: nat): (j: int)
    requires k <= |s|
    ensures j == -1 || (k <= j && CodeAt(s, j))
    ensures forall i :: k <= i && (j == -1 || i < j) ==> !CodeAt(s, i)
    decreases |s| - k
  {
    if CodeAt(s, k) then k else if k < |s| then CodeFrom(s, k + 1) else -1
  }

  function Code(s: bytes): (j: int)
    ensures j == -1 || CodeAt(s, j)
    ensures forall i :: 0 <= i && (j == -1 || i < j) ==> !CodeAt(s, i)
  {
    CodeFrom(s, 0)
  }

  function Trim(s: bytes): bytes
    decreases |s|
  {
    if s != [] && s[|s| - 1] == 0 then Trim(s[..|s| - 1]) else s
  }

  /** The units of a stream whose first start code has been consumed.  Zeros in front of a start
      code belong to the code. */
  function Pieces(s: bytes): (ps: seq<bytes>)
    ensures |ps| >= 1
    decreases |s|
  {
    var j := Code(s);
    if j == -1 then [s] else [Trim(s[..j])] + Pieces(s[j + 3..])
  }

  function Units(s: bytes): seq<bytes> {
    var j := Code(s);
    if j == -1 then [s] else Pieces(s[j + 3..])
  }

  // ---- the scanner

  /** Where the zeros that end at position j begin, not before start. */
  function ZerosBefore(s: bytes, start: nat, j: nat): (i: nat)
    requires start <= j <= |s|
    ensures start <= i <= j
    ensures Trim(s[start..j]) == s[start..i]
    decreases j - start
  {
    if start < j && s[j - 1] == 0 then
      assert s[start..j][..j - start - 1] == s[start..j - 1];
      ZerosBefore(s, start, j - 1)
    else j
  }

  method NextInd(nalu: bytes, start: nat) returns (indStart: int, indLen: int)
    requires start <= |nalu|
    ensures var j := CodeFrom(nalu, start);
            if j == -1 then indStart == indLen == -1
            else indStart == ZerosBefore(nalu, start, j) && indStart + indLen == j + 3
  {
    hide ZerosBefore, Trim, CodeFrom;
    var zeroCount := 0;
    for i := start to |nalu|
      invariant 0 <= zeroCount <= i - start
      invariant forall k :: i - zeroCount <= k < i ==> nalu[k] == 0
      invariant i - zeroCount == start || nalu[i - zeroCount - 1] != 0
      invariant forall k :: start <= k && k + 2 < i ==> !CodeAt(nalu, k)
    {
      if nalu[i] == 0 {
        zeroCount := zeroCount + 1;
        continue;
      } else if nalu[i] == 1 {
        if zeroCount >= 2 {
          assert CodeAt(nalu, i - 2);
          ZerosAre(nalu, start, i - zeroCount, i - 2);
          return i - zeroCount, zeroCount + 1;
        }
      }
      zeroCount := 0;
    }
    indStart, indLen := -1, -1;
  }

  lemma {:induction false} ZerosAre(s: bytes, start: nat, i: nat, j: nat)
    requires start <= i <= j <= |s|
    requires forall k :: i <= k < j ==> s[k] == 0
    requires i == start || s[i - 1] != 0
    ensures ZerosBefore(s, start, j) == i
    decreases j
  {
    if i == j {
    } else {
      ZerosAre(s, start, i, j - 1);
    }
  }

  /** The units in the order in which emit is called for them. */
  method EmitNalus(nals: bytes) returns (emitted: seq<bytes>)
    ensures emitted == Units(nals)
  {
    hide CodeFrom, Code, CodeAt, ZerosBefore, Trim, Pieces, Units;
    emitted := [];
    var nextIndStart, nextIndLen := NextInd(nals, 0);
    FirstUnits(nals);
    if nextIndStart == -1 {
      emitted := [nals];
    } else {
      while nextIndStart != -1
        invariant nextIndStart == -1 ==> emitted == Units(nals)
        invariant nextIndStart != -1 ==>
          0 <= nextIndStart && nextIndStart + nextIndLen <= |nals| && 3 <= nextIndLen &&
          emitted + Pieces(nals[nextIndStart + nextIndLen..]) == Units(nals)
        decreases nextIndStart != -1, |nals| - nextIndStart
      {
        var prevStart := nextIndStart + nextIndLen;
        OneMore(nals, prevStart, emitted);
        nextIndStart, nextIndLen := NextInd(nals, prevStart);
        if nextIndStart != -1 {
          emitted := emitted + [nals[prevStart..nextIndStart]];
        } else {
          emitted := emitted + [nals[prevStart..]];
        }
      }
    }
  }

  /** One turn: the piece up to the next start code, or up to the end. */
  lemma OneMore(s: bytes, k: nat, emitted: seq<bytes>)
    requires k <= |s| && emitted + Pieces(s[k..]) == Units(s)
    ensures var j := CodeFrom(s, k);
            if j == -1 then emitted + [s[k..]] == Units(s)
            else k <= j && j + 3 <= |s| && emitted + [s[k..ZerosBefore(s, k, j)]] + Pieces(s[j + 3..]) == Units(s)
  {
    hide CodeFrom, ZerosBefore, Pieces, Units;
    NextPiece(s, k);
    CodeFits(s, k);
  }

  lemma {:induction false} FirstUnits(s: bytes)
    ensures var j := CodeFrom(s, 0);
            if j == -1 then [s] == Units(s) else j + 3 <= |s| && 0 <= j && Pieces(s[j + 3..]) == Units(s)
  {
    hide CodeFrom, Code, Pieces;
    CodeIsFrom(s);
    CodeFits(s, 0);
  }

  lemma {:induction false} CodeIsFrom(s: bytes)
    ensures Code(s) == CodeFrom(s, 0)
  {
  }

  lemma {:induction false} CodeFits(s: bytes, k: nat)
    requires k <= |s|
    ensures CodeFrom(s, k) != -1 ==> k <= CodeFrom(s, k) && CodeFrom(s, k) + 3 <= |s|
  {
  }

  lemma NextPiece(s: bytes, k: nat)
    requires k <= |s|
    ensures var j := CodeFrom(s, k);
            Pieces(s[k..]) == if j == -1 || j < k || j + 3 > |s| then [s[k..]]
                              else [s[k..ZerosBefore(s, k, j)]] + Pieces(s[j + 3..])
  {
    hide CodeFrom, Code, Trim;
    var j := CodeFrom(s, k);
    CodeOfSuffix(s, k);
    if j != -1 {
      assert s[k..][..j - k] == s[k..j];
      assert s[k..][j - k + 3..] == s[j + 3..];
    }
  }

  /** Scanning a suffix finds what scanning from that position finds. */
  lemma {:induction false} CodeOfSuffix(s: bytes, k: nat)
    requires k <= |s|
    ensures var j := CodeFrom(s, k);
            Code(s[k..]) == if j == -1 then -1 else j - k
  {
    var j, c := CodeFrom(s, k), Code(s[k..]);
    assert forall i :: 0 <= i ==> (CodeAt(s[k..], i) <==> CodeAt(s, k + i));
    if j != -1 {
      assert CodeAt(s[k..], j - k);
    }
    if c != -1 {
      assert CodeAt(s, k + c);
    }
  }

  // ---- joining and scanning

  predicate HasCode(s: bytes) { Code(s) != -1 }

  predicate EndsInZero(s: bytes) { s != [] && s[|s| - 1] == 0 }

  lemma CodeUnique(s: bytes, j: nat)
    requires CodeAt(s, j) && forall i :: 0 <= i < j ==> !CodeAt(s, i)
    ensures Code(s) == j
  {
  }

  /** The first start code of a unit followed by a start code. */
  lemma CodeOfJoined(n: bytes, t: bytes)
    ensures Code(n + START_CODE + t) == if HasCode(n) then Code(n) else |n| + 1
  {
    var s := n + START_CODE + t;
    assert s[|n|] == 0 && s[|n| + 1] == 0 && s[|n| + 2] == 0 && s[|n| + 3] == 1;
    forall i | 0 <= i && i + 2 < |n|
      ensures CodeAt(s, i) <==> CodeAt(n, i)
    {
    }
    if HasCode(n) {
      CodeUnique(s, Code(n));
    } else {
      CodeUnique(s, |n| + 1);
    }
  }

  lemma {:induction false} TrimZero(s: bytes)
    ensures Trim(s + [0]) == Trim(s)
  {
    assert (s + [0])[..|s|] == s;
  }

  lemma {:induction false} TrimKeeps(s: bytes)
    ensures Trim(s) == s <==> !EndsInZero(s)
    ensures |Trim(s)| <= |s|
    decreases |s|
  {
    if !EndsInZero(s) {
    } else {
      TrimKeeps(s[..|s| - 1]);
    }
  }

  function TrimLast(ps: seq<bytes>): seq<bytes>
    requires |ps| >= 1
  {
    ps[..|ps| - 1] + [Trim(ps[|ps| - 1])]
  }

  /** A start code separates what is before it from what is behind it. */
  lemma {:induction false} PiecesSplit(n: bytes, t: bytes)
    ensures Pieces(n + START_CODE + t) == TrimLast(Pieces(n)) + Pieces(t)
    decreases |n|
  {
    hide Code, Trim;
    var s := n + START_CODE + t;
    CodeOfJoined(n, t);
    if HasCode(n) {
      var j := Code(n);
      assert s[..j] == n[..j];
      assert s[j + 3..] == n[j + 3..] + START_CODE + t;
      PiecesSplit(n[j + 3..], t);
      var tail := Pieces(n[j + 3..]);
      assert TrimLast([Trim(n[..j])] + tail) == [Trim(n[..j])] + TrimLast(tail);
    } else {
      assert s[..|n| + 1] == n + [0];
      assert s[|n| + 4..] == t;
      TrimZero(n);
    }
  }

  predicate Separable(nals: seq<bytes>) {
    (forall i :: 0 <= i < |nals| ==> !HasCode(nals[i])) &&
    (forall i :: 0 <= i < |nals| - 1 ==> !EndsInZero(nals[i]))
  }

  /** The pieces of n units joined: at least n, and the units themselves just if they are separable. */
  lemma {:induction false} PiecesOfJoin(nals: seq<bytes>)
    requires nals != []
    ensures var ps := Pieces(nals[0] + Join(nals[1..]));
            |ps| >= |nals| && (ps == nals <==> Separable(nals))
    decreases |nals|
  {
    hide Pieces, Code, Trim;
    var n, rest := nals[0], nals[1..];
    OnePiece(n);
    if rest == [] {
      assert n + Join(rest) == n;
    } else {
      var t := rest[0] + Join(rest[1..]);
      assert n + Join(rest) == n + START_CODE + t;
      PiecesSplit(n, t);
      PiecesOfJoin(rest);
      TrimKeeps(n);
      assert nals == [n] + rest;
      SeparableStep(n, rest);
      var first, later := TrimLast(Pieces(n)), Pieces(t);
      if first + later == nals {
        assert |first| == 1;
        assert first == [n] && later == rest by {
          assert (first + later)[0] == n && (first + later)[1..] == rest;
          assert first == [first[0]];
        }
      }
    }
  }

  lemma SeparableStep(n: bytes, rest: seq<bytes>)
    requires rest != []
    ensures Separable([n] + rest) <==> !HasCode(n) && !EndsInZero(n) && Separable(rest)
  {
    hide HasCode, EndsInZero;
    var nals := [n] + rest;
    if Separable(nals) {
      forall i | 0 <= i < |rest|
        ensures !HasCode(rest[i]) && (i < |rest| - 1 ==> !EndsInZero(rest[i]))
      {
        assert nals[i + 1] == rest[i];
      }
      assert nals[0] == n;
    }
  }

  lemma {:induction false} OnePiece(n: bytes)
    ensures |Pieces(n)| == 1 <==> !HasCode(n)
    ensures !HasCode(n) ==> Pieces(n) == [n]
  {
  }

  /** The scanner gives back the units exactly if none contains 00 00 01 and none but the last ends
      in a zero byte. */
  lemma {:induction false} ScanInvertsJoin(nals: seq<bytes>)
    requires nals != []
    ensures Units(Join(nals)) == nals <==> Separable(nals)
  {
    hide Pieces;
    var s := Join(nals);
    assert s[0] == 0 && s[1] == 0 && s[2] == 0 && s[3] == 1;
    assert CodeAt(s, 1) && !CodeAt(s, 0);
    CodeUnique(s, 1);
    assert s[4..] == nals[0] + Join(nals[1..]);
    PiecesOfJoin(nals);
  }

  lemma {:induction false} JoinAppend(a: seq<bytes>, b: seq<bytes>)
    ensures Join(a + b) == Join(a) + Join(b)
    decreases |a|
  {
    if a == [] {
      assert a + b == b;
    } else {
      assert (a + b)[1..] == a[1..] + b;
      JoinAppend(a[1..], b);
    }
  }
}
