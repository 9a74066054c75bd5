/** The window of published segments and the playlist made from it (protocol/hls/cache.go). */
module HlsCache {
  import opened Bits

  const MAX_TS_CACHE_NUM := 3

  datatype TSItem = TSItem(name: string, seqNum: nat, duration: int, data: bytes)

  /** The list of keys, oldest first, and the map from keys to items. */
  datatype Cache = Cache(ll: seq<string>, lm: map<string, TSItem>)

  function Set(c: Cache, key: string, item: TSItem): Cache {
    var c1 := if |c.ll| == MAX_TS_CACHE_NUM then Cache(c.ll[1..], c.lm - {c.ll[0]}) else c;
    Cache(c1.ll + [key], c1.lm[key := item])
  }

  datatype Entry = Entry(duration: int, name: string)

  datatype Playlist = Playlist(targetDuration: int, mediaSequence: nat, entries: seq<Entry>)

  /** The items the list leads to, in order; a key the map does not know is passed over. */
  function Listed(c: Cache): seq<TSItem> {
    ListedFrom(c.ll, c.lm)
  }

  function ListedFrom(ll: seq<string>, lm: map<string, TSItem>): seq<TSItem> {
    if ll == [] then [] else (if ll[0] in lm then [lm[ll[0]]] else []) + ListedFrom(ll[1..], lm)
  }

  function MaxDuration(items: seq<TSItem>): int {
    if items == [] then 0
    else
      var n := |items| - 1;
      var d := MaxDuration(items[..n]);
      if items[n].duration > d then items[n].duration else d
  }

  function FirstNumber(items: seq<TSItem>): nat { if items == [] then 0 else items[0].seqNum }

  function Entries(items: seq<TSItem>): seq<Entry> {
    seq(|items|, i requires 0 <= i < |items| => Entry(items[i].duration, items[i].name))
  }

  /** One entry for each item; the target duration is in whole seconds. */
  function PlaylistOf(items: seq<TSItem>): Playlist {
    Playlist(MaxDuration(items) / 1000 + 1, FirstNumber(items), Entries(items))
  }

  lemma {:induction false} MaxBounds(items: seq<TSItem>)
    ensures MaxDuration(items) >= 0
    ensures forall i :: 0 <= i < |items| ==> items[i].duration <= MaxDuration(items)
  {
    if items == [] {
    } else {
      MaxBounds(items[..|items| - 1]);
    }
  }

  lemma {:induction false} MaxStep(items: seq<TSItem>, v: TSItem)
    ensures Entries(items + [v]) == Entries(items) + [Entry(v.duration, v.name)]
    ensures MaxDuration(items + [v]) == if v.duration > MaxDuration(items) then v.duration else MaxDuration(items)
  {
    assert (items + [v])[..|items|] == items;
  }

  class TSCacheItem {
    var ll: seq<string>
    var lm: map<string, TSItem>

    constructor ()
      ensures Abs() == Cache([], map[])
    {
      ll, lm := [], map[];
    }

    ghost function Abs(): Cache
      reads this
    {
      Cache(ll, lm)
    }

    method SetItem(key: string, item: TSItem)
      modifies this
      ensures Abs() == Set(old(Abs()), key, item)
    {
      if |ll| == MAX_TS_CACHE_NUM {
        var k := ll[0];
        ll := ll[1..];
        lm := lm - {k};
      }
      lm := lm[key := item];
      ll := ll + [key];
    }

    /** Returns a default item where the map has none, together with the information that it has none. */
    method GetItem(key: string) returns (item: TSItem, ok: bool)
      ensures ok == (key in lm)
      ensures ok ==> item == lm[key]
    {
      if key in lm {
        item, ok := lm[key], true;
      } else {
        item, ok := TSItem("", 0, 0, []), false;
      }
    }

    /** The playlist, before it is printed. */
    method GenM3U8PlayList() returns (p: Playlist)
      ensures p == PlaylistOf(Listed(Abs()))
    {
      hide ListedFrom, PlaylistOf;
      var seqNum: nat := 0;
      var getSeq := false;
      var maxDuration := 0;
      var body: seq<Entry> := [];
      ghost var done: seq<TSItem> := [];
      for e := 0 to |ll|
        invariant done + ListedFrom(ll[e..], lm) == Listed(Abs())
        invariant Accumulated(done, getSeq, seqNum, maxDuration, body)
      {
        var key := ll[e];
        ListedStep(ll, lm, e);
        if key in lm {
          var v := lm[key];
          if v.duration > maxDuration {
            maxDuration := v.duration;
          }
          if !getSeq {
            getSeq := true;
            seqNum := v.seqNum;
          }
          body := body + [Entry(v.duration, v.name)];
          MaxStep(done, v);
          done := done + [v];
        }
      }
      ListedNone(lm);
      assert ll[|ll|..] == [] && done + [] == done;
      p := Playlist(maxDuration / 1000 + 1, seqNum, body);
      PlaylistIs(done);
    }
  }

  /** What the loop has gathered from the items passed so far. */
  ghost predicate Accumulated(done: seq<TSItem>, getSeq: bool, seqNum: nat, maxDuration: int, body: seq<Entry>) {
    getSeq == (done != []) && seqNum == FirstNumber(done) && maxDuration == MaxDuration(done) && body == Entries(done)
  }

  lemma {:induction false} PlaylistIs(items: seq<TSItem>)
    ensures PlaylistOf(items) == Playlist(MaxDuration(items) / 1000 + 1, FirstNumber(items), Entries(items))
  {
  }

  lemma {:induction false} ListedStep(ll: seq<string>, lm: map<string, TSItem>, e: nat)
    requires e < |ll|
    ensures ListedFrom(ll[e..], lm) == (if ll[e] in lm then [lm[ll[e]]] else []) + ListedFrom(ll[e + 1..], lm)
  {
    assert ll[e..][1..] == ll[e + 1..];
  }

  lemma {:induction false} ListedNone(lm: map<string, TSItem>)
    ensures ListedFrom([], lm) == []
  {
  }

  // ---- runs

  datatype Put = Put(key: string, item: TSItem)

  /** The cache after a sequence of SetItem calls. */
  function After(sets: seq<Put>): Cache {
    if sets == [] then Cache([], map[])
    else var n := |sets| - 1; Set(After(sets[..n]), sets[n].key, sets[n].item)
  }

  function Window(sets: seq<Put>): (w: seq<Put>)
    ensures |w| == if |sets| < 3 then |sets| else 3
  {
    sets[if |sets| < 3 then 0 else |sets| - 3..]
  }

  /** List and map hold exactly the last three pairs. */
  predicate Holds(c: Cache, w: seq<Put>) {
    |c.ll| == |w| &&
    (forall i :: 0 <= i < |w| ==> c.ll[i] == w[i].key && c.ll[i] in c.lm && c.lm[c.ll[i]] == w[i].item) &&
    (forall k :: k in c.lm ==> k in c.ll)
  }

  predicate NoNearRepeat(sets: seq<Put>) {
    forall i, j :: 0 <= i < j < |sets| && j <= i + 2 ==> sets[i].key != sets[j].key
  }

  predicate ItemsDiffer(sets: seq<Put>) {
    forall i, j :: 0 <= i < j < |sets| ==> sets[i].item != sets[j].item
  }

  lemma {:induction false} ListIsWindow(sets: seq<Put>)
    ensures var c := After(sets);
            |c.ll| == |Window(sets)| && forall i :: 0 <= i < |c.ll| ==> c.ll[i] == Window(sets)[i].key
    decreases |sets|
  {
    if sets == [] {
    } else {
      hide After, Window, Set;
      var n := |sets| - 1;
      ListIsWindow(sets[..n]);
      WindowStep(sets);
      AfterStep(sets[..n], sets[n]);
      assert sets[..n] + [sets[n]] == sets;
      ListStep(After(sets[..n]), Window(sets[..n]), sets[n]);
    }
  }

  lemma ListStep(c: Cache, w: seq<Put>, put: Put)
    requires |c.ll| == |w| <= 3 && forall i :: 0 <= i < |c.ll| ==> c.ll[i] == w[i].key
    ensures var (c', w') := (Set(c, put.key, put.item), (if |w| < 3 then w else w[1..]) + [put]);
            |c'.ll| == |w'| && forall i :: 0 <= i < |c'.ll| ==> c'.ll[i] == w'[i].key
  {
  }

  lemma {:induction false} HoldsWithoutRepeat(sets: seq<Put>)
    requires NoNearRepeat(sets)
    ensures Holds(After(sets), Window(sets))
    decreases |sets|
  {
    if sets == [] {
    } else {
      hide Holds, Set, NoNearRepeat, FreshKey, Window, After;
      var n := |sets| - 1;
      var before := sets[..n];
      WindowIsFresh(sets);
      HoldsWithoutRepeat(before);
      var w := Window(before);
      SetKeeps(After(before), w, sets[n].key, sets[n].item);
      WindowStep(sets);
      AfterStep(before, sets[n]);
      assert before + [sets[n]] == sets;
    }
  }

  lemma {:induction false} WindowStep(sets: seq<Put>)
    requires sets != []
    ensures var (n, w) := (|sets| - 1, Window(sets[..|sets| - 1]));
            Window(sets) == (if n < 3 then w else w[1..]) + [sets[n]]
  {
  }

  lemma {:induction false} AfterStep(sets: seq<Put>, put: Put)
    ensures After(sets + [put]) == Set(After(sets), put.key, put.item)
  {
    hide Set;
    assert (sets + [put])[..|sets|] == sets;
  }

  /** The key is not in the window once that has made room, nor is the key that makes room in it twice. */
  predicate FreshKey(w: seq<Put>, key: string) {
    if |w| < 3 then forall i :: 0 <= i < |w| ==> w[i].key != key
    else |w| == 3 && w[1].key != key && w[2].key != key && w[0].key != w[1].key && w[0].key != w[2].key
  }

  lemma WindowIsFresh(sets: seq<Put>)
    requires sets != [] && NoNearRepeat(sets)
    ensures NoNearRepeat(sets[..|sets| - 1])
    ensures FreshKey(Window(sets[..|sets| - 1]), sets[|sets| - 1].key)
  {
    var n := |sets| - 1;
    var w := Window(sets[..n]);
    if n >= 3 {
      assert w == [sets[n - 3], sets[n - 2], sets[n - 1]];
    }
  }

  lemma SetKeeps(c: Cache, w: seq<Put>, key: string, item: TSItem)
    requires Holds(c, w) && |w| <= 3
    requires FreshKey(w, key)
    ensures Holds(Set(c, key, item), (if |w| < 3 then w else w[1..]) + [Put(key, item)])
  {
  }

  /** With items that all differ, list and map hold the last three items after every call exactly
      if no key comes again while its last use is among the three newest. */
  lemma HoldsIffNoRepeat(sets: seq<Put>)
    requires ItemsDiffer(sets)
    ensures (forall n :: 0 <= n <= |sets| ==> Holds(After(sets[..n]), Window(sets[..n]))) <==> NoNearRepeat(sets)
  {
    if NoNearRepeat(sets) {
      forall n | 0 <= n <= |sets|
        ensures Holds(After(sets[..n]), Window(sets[..n]))
      {
        HoldsWithoutRepeat(sets[..n]);
      }
    }
    forall i, j | 0 <= i < j < |sets| && j <= i + 2 && sets[i].key == sets[j].key
      ensures exists n :: 0 <= n <= |sets| && !Holds(After(sets[..n]), Window(sets[..n]))
    {
      RepeatLoses(sets, i, j);
    }
  }

  lemma RepeatLoses(sets: seq<Put>, i: nat, j: nat)
    requires ItemsDiffer(sets) && i < j < |sets| && j <= i + 2 && sets[i].key == sets[j].key
    ensures !Holds(After(sets[..j + 1]), Window(sets[..j + 1]))
  {
    var s := sets[..j + 1];
    var w := Window(s);
    ListIsWindow(s);
    assert w[|w| - 1] == sets[j] && w[|w| - 1 - (j - i)] == sets[i];
  }

  /** Items numbered one after the other, as the segmenter numbers them. */
  predicate Numbered(sets: seq<Put>) {
    forall i :: 0 <= i < |sets| ==> sets[i].item.seqNum == i + 1 && sets[i].item.name == sets[i].key
  }

  lemma NumberedDiffer(sets: seq<Put>)
    requires Numbered(sets)
    ensures ItemsDiffer(sets)
  {
  }

  lemma {:induction false} ListedIsWindow(ll: seq<string>, lm: map<string, TSItem>, w: seq<Put>)
    requires |ll| == |w|
    requires forall i :: 0 <= i < |w| ==> ll[i] in lm && lm[ll[i]] == w[i].item
    ensures var items := ListedFrom(ll, lm);
            |items| == |w| && forall i :: 0 <= i < |w| ==> items[i] == w[i].item
  {
    if ll == [] {
    } else {
      ListedIsWindow(ll[1..], lm, w[1..]);
    }
  }

  lemma {:induction false} ListedOfRun(sets: seq<Put>)
    requires NoNearRepeat(sets)
    ensures var items := Listed(After(sets));
            var w := Window(sets);
            |items| == |w| && forall i :: 0 <= i < |w| ==> items[i] == w[i].item
  {
    HoldsWithoutRepeat(sets);
    hide After, NoNearRepeat, ListedFrom, Window;
    var c := After(sets);
    ListedIsWindow(c.ll, c.lm, Window(sets));
  }

  lemma WindowNumbers(sets: seq<Put>)
    requires Numbered(sets)
    ensures var w := Window(sets);
            forall i :: 0 <= i < |w| ==> w[i].item.name == w[i].key && w[i].item.seqNum == |sets| - |w| + 1 + i
  {
  }

  /** The playlist shows the window of total items: numbered without a gap from the media sequence on,
      and none longer than the target duration, in whole seconds, which is one second too long at most. */
  predicate PlaylistFits(p: Playlist, w: seq<Put>, total: nat) {
    p.mediaSequence == (if w == [] then 0 else total - |w| + 1) &&
    |p.entries| == |w| && p.targetDuration >= 1 &&
    (p.targetDuration == 1 || exists i :: 0 <= i < |w| && w[i].item.duration >= (p.targetDuration - 1) * 1000) &&
    forall i :: 0 <= i < |w| ==>
      w[i].item.seqNum == p.mediaSequence + i &&
      p.entries[i] == Entry(w[i].item.duration, w[i].key) &&
      p.entries[i].duration < p.targetDuration * 1000
  }

  lemma {:induction false} PlaylistOfNumbered(sets: seq<Put>)
    requires Numbered(sets) && NoNearRepeat(sets)
    ensures PlaylistFits(PlaylistOf(Listed(After(sets))), Window(sets), |sets|)
  {
    ListedOfRun(sets);
    WindowNumbers(sets);
    var items := Listed(After(sets));
    MaxBounds(items);
    hide Listed, After, NoNearRepeat, Window, Numbered, MaxDuration;
    var d := MaxDuration(items);
    assert d < (d / 1000 + 1) * 1000 && d / 1000 * 1000 <= d;
    MaxReached(items);
  }

  lemma {:induction false} MaxReached(items: seq<TSItem>)
    ensures MaxDuration(items) == 0 || exists i :: 0 <= i < |items| && items[i].duration == MaxDuration(items)
    decreases |items|
  {
    if items == [] {
    } else {
      var n := |items| - 1;
      MaxReached(items[..n]);
      if MaxDuration(items) != 0 && items[n].duration < MaxDuration(items) {
        var i :| 0 <= i < n && items[..n][i].duration == MaxDuration(items[..n]);
        assert items[i].duration == MaxDuration(items);
      }
    }
  }
}
