/** The reader that merges several journals by timestamp: an incrementally kept heap for more than three
    journals, a linear scan for fewer, and a direct path for one. */
module Merge {

  import opened Layout

  const MAX_TIME: int := 0x7FFF_FFFF_FFFF_FFFF
  const NO_JOURNAL: int := -1

  // Committed frames, PageEnd sentinels included.
  datatype Frame = Frame(time: int, msgType: int, payload: seq<int>)

  // A joined journal: its committed frames and how many of them were consumed.
  datatype Journal = Journal(uid: uint32, dest: uint32, frames: seq<Frame>, pos: nat)

  datatype Entry = Entry(time: int, index: nat)

  datatype Item = Item(index: nat, frame: Frame)

  datatype Option<T> = None | Some(value: T)

  predicate HasData(j: Journal) {
    j.pos < |j.frames|
  }

  function Head(j: Journal): Frame
    requires HasData(j)
  {
    j.frames[j.pos]
  }

  function Stepped(j: Journal): Journal {
    if HasData(j) then j.(pos := j.pos + 1) else j
  }

  // The journals after one frame of journal i was consumed.
  function After(js: seq<Journal>, i: nat): seq<Journal>
    requires i < |js|
  {
    js[i := Stepped(js[i])]
  }

  predicate AnyData(js: seq<Journal>) {
    exists i :: 0 <= i < |js| && HasData(js[i])
  }

  predicate MinHead(js: seq<Journal>, i: nat) {
    && i < |js| && HasData(js[i])
    && forall k :: 0 <= k < |js| && HasData(js[k]) ==> Head(js[i]).time <= Head(js[k]).time
  }

  // The journal a linear scan picks: the first of those with the smallest head.
  predicate FirstMinHead(js: seq<Journal>, i: nat) {
    MinHead(js, i) && forall k :: 0 <= k < i && HasData(js[k]) ==> Head(js[k]).time > Head(js[i]).time
  }

  // No two journals share the smallest head time.
  predicate UniqueMinimum(js: seq<Journal>) {
    forall i, k :: 0 <= i < |js| && 0 <= k < |js| && i != k && MinHead(js, i) && HasData(js[k]) ==>
      Head(js[i]).time < Head(js[k]).time
  }

  // The linear scan starts from the largest timestamp and compares strictly: it sees a head below it only.
  predicate SomeBelowMax(js: seq<Journal>) {
    exists i :: 0 <= i < |js| && HasData(js[i]) && Head(js[i]).time < MAX_TIME
  }

  predicate BelowMax(js: seq<Journal>) {
    forall i, n :: 0 <= i < |js| && 0 <= n < |js[i].frames| ==> js[i].frames[n].time < MAX_TIME
  }

  // A heap leaves ties to the library; a linear scan does not.
  predicate Picks(js: seq<Journal>, i: nat, heapMode: bool) {
    if heapMode then MinHead(js, i) else FirstMinHead(js, i)
  }

  // ---------- The heap ----------

  predicate IsHead(js: seq<Journal>, e: Entry) {
    e.index < |js| && HasData(js[e.index]) && Head(js[e.index]).time == e.time
  }

  function HeadEntry(js: seq<Journal>, i: nat): Entry
    requires i < |js| && HasData(js[i])
  {
    Entry(Head(js[i]).time, i)
  }

  // Every key of the heap is the current head of its journal, and no journal is in it twice.
  ghost predicate HeapWithin(js: seq<Journal>, heap: multiset<Entry>) {
    forall e :: e in heap ==> heap[e] == 1 && IsHead(js, e)
  }

  ghost predicate HeapCovers(js: seq<Journal>, heap: multiset<Entry>) {
    forall i :: 0 <= i < |js| && HasData(js[i]) ==> HeadEntry(js, i) in heap
  }

  // The comparator looks at the time only: among equal times any entry may be on top.
  predicate MinEntry(heap: multiset<Entry>, e: Entry) {
    e in heap && forall x :: x in heap ==> e.time <= x.time
  }

  // What rebuildHeap may leave behind when some journal has data. The vector is heapified twice, so the
  // current journal and the top of the heap are two separate choices among the smallest heads.
  ghost predicate Rebuilt(js: seq<Journal>, heap: multiset<Entry>, top: Entry, current: int) {
    && HeapWithin(js, heap) && HeapCovers(js, heap) && MinEntry(heap, top)
    && current >= 0 && MinHead(js, current)
  }

  // The heap without its top, and with the next frame of journal `current` if it has one.
  function Replaced(js: seq<Journal>, current: nat, heap: multiset<Entry>, top: Entry): multiset<Entry>
    requires current < |js|
  {
    var rest := heap - multiset{top};
    if HasData(js[current]) then rest + multiset{HeadEntry(js, current)} else rest
  }

  // What updateHeap does after a frame of journal `current` was consumed.
  ghost predicate Updated(js: seq<Journal>, current: nat, heap: multiset<Entry>, top: Entry,
                          heap': multiset<Entry>, top': Entry, current': int)
    requires current < |js|
  {
    && heap' == Replaced(js, current, heap, top)
    && (if heap' == multiset{} then current' == NO_JOURNAL else MinEntry(heap', top') && current' == top'.index)
  }

  // The part of the reader's state that the merge uses.
  datatype Snapshot = Snapshot(js: seq<Journal>, heap: multiset<Entry>, top: Entry, current: int, rebuild: bool)

  predicate Positioned(s: Snapshot) {
    0 <= s.current < |s.js| && HasData(s.js[s.current])
  }

  // What isDataAvailable does in heap mode; its answer is Positioned(s').
  ghost predicate Looks(s: Snapshot, s': Snapshot) {
    if !s.rebuild then s' == (if 0 <= s.current < |s.js| then s else s.(rebuild := true))
    else if AnyData(s.js) then
      s'.js == s.js && !s'.rebuild && Rebuilt(s.js, s'.heap, s'.top, s'.current)
    else s' == s.(current := NO_JOURNAL)
  }

  // What next does in heap mode.
  ghost predicate Moves(s: Snapshot, s': Snapshot)
    requires 0 <= s.current < |s.js|
  {
    && s'.js == After(s.js, s.current)
    && (if s.heap == multiset{} then s' == s.(js := s'.js, rebuild := true)
        else Updated(s'.js, s.current, s.heap, s.top, s'.heap, s'.top, s'.current)
             && s'.rebuild == (s.rebuild || s'.heap == multiset{}))
  }

  // What nextStatic does in heap mode, whatever the library does with equal keys.
  ghost predicate HeapStep(s: Snapshot, item: Option<Item>, s': Snapshot) {
    exists m :: Looks(s, m) && Takes(m, item, s')
  }

  ghost predicate Takes(m: Snapshot, item: Option<Item>, s': Snapshot) {
    if Positioned(m) then item == Some(Item(m.current, Head(m.js[m.current]))) && Moves(m, s')
    else item == None && s' == m
  }

  lemma {:induction false} MinExists(heap: multiset<Entry>)
    requires heap != multiset{}
    ensures exists e :: MinEntry(heap, e)
    decreases |heap|
  {
    var e :| e in heap;
    var rest := heap - multiset{e};
    if rest == multiset{} {
      assert heap == multiset{e};
      assert MinEntry(heap, e);
    } else {
      MinExists(rest);
      var m :| MinEntry(rest, m);
      assert forall x :: x in heap ==> x == e || x in rest;
      assert MinEntry(heap, if e.time <= m.time then e else m);
    }
  }

  // ---------- The reader ----------

  const TWO_32: nat := 0x1_0000_0000

  function MakeKey(uid: uint32, dest: uint32): nat {
    uid * TWO_32 + dest
  }

  /** The location is the upper half of the key, the destination the lower. */
  lemma KeyHalves(uid: uint32, dest: uint32)
    ensures MakeKey(uid, dest) / TWO_32 == uid && MakeKey(uid, dest) % TWO_32 == dest
  {
    RemainderIsUnique(MakeKey(uid, dest), TWO_32, uid, dest);
  }

  lemma KeysDiffer(a: uint32, b: uint32, c: uint32, d: uint32)
    requires MakeKey(a, b) == MakeKey(c, d)
    ensures a == c && b == d
  {
  }

  function KeyOf(j: Journal): nat {
    MakeKey(j.uid, j.dest)
  }

  predicate DistinctKeys(js: seq<Journal>) {
    forall a, b :: 0 <= a < b < |js| ==> KeyOf(js[a]) != KeyOf(js[b])
  }

  ghost predicate AreKeys(js: seq<Journal>, keys: set<nat>) {
    && (forall i :: 0 <= i < |js| ==> KeyOf(js[i]) in keys)
    && (forall k :: k in keys ==> HasKey(js, k))
  }

  predicate HasKey(js: seq<Journal>, key: nat) {
    exists i :: 0 <= i < |js| && KeyOf(js[i]) == key
  }

  // The journals that do not come from location uid, in their old order.
  function Without(js: seq<Journal>, uid: uint32): (r: seq<Journal>)
    ensures |r| <= |js|
  {
    if js == [] then []
    else Without(js[..|js| - 1], uid) + if js[|js| - 1].uid == uid then [] else [js[|js| - 1]]
  }

  lemma {:induction false} WithoutHas(js: seq<Journal>, uid: uint32)
    ensures forall j :: j in Without(js, uid) <==> j in js && j.uid != uid
    decreases |js|
  {
    if js != [] {
      WithoutHas(js[..|js| - 1], uid);
      assert js == js[..|js| - 1] + [js[|js| - 1]];
    }
  }

  // Any two of the kept journals stood in that order before.
  ghost predicate SameOrder(js: seq<Journal>, kept: seq<Journal>) {
    forall a, b :: 0 <= a < b < |kept| ==> Ordered(js, kept[a], kept[b])
  }

  ghost predicate Ordered(js: seq<Journal>, x: Journal, y: Journal) {
    exists i, k :: 0 <= i < k < |js| && js[i] == x && js[k] == y
  }

  lemma OrderedLonger(js: seq<Journal>, n: nat, x: Journal, y: Journal)
    requires n <= |js| && Ordered(js[..n], x, y)
    ensures Ordered(js, x, y)
  {
    var i, k :| 0 <= i < k < n && js[..n][i] == x && js[..n][k] == y;
    assert js[i] == x && js[k] == y;
  }

  lemma OrderedLast(js: seq<Journal>, x: Journal)
    requires js != [] && x in js[..|js| - 1]
    ensures Ordered(js, x, js[|js| - 1])
  {
    var i :| 0 <= i < |js| - 1 && js[i] == x;
  }

  lemma {:induction false} WithoutInOrder(js: seq<Journal>, uid: uint32)
    ensures SameOrder(js, Without(js, uid))
    decreases |js|
  {
    if js != [] {
      var n := |js| - 1;
      var before, kept := Without(js[..n], uid), Without(js, uid);
      WithoutInOrder(js[..n], uid);
      WithoutHas(js[..n], uid);
      forall a, b | 0 <= a < b < |kept|
        ensures Ordered(js, kept[a], kept[b])
      {
        hide Ordered;
        if b < |before| {
          OrderedLonger(js, n, before[a], before[b]);
        } else {
          assert before[a] in js[..n];
          OrderedLast(js, before[a]);
        }
      }
    }
  }

  predicate IsJoined(js: seq<Journal>, uid: uint32, dest: uint32) {
    exists i :: 0 <= i < |js| && js[i].uid == uid && js[i].dest == dest
  }

  /** The 64-bit key stands for the pair of location and destination. */
  lemma KeyMeansJoined(js: seq<Journal>, uid: uint32, dest: uint32)
    ensures HasKey(js, MakeKey(uid, dest)) <==> IsJoined(js, uid, dest)
  {
    if HasKey(js, MakeKey(uid, dest)) {
      var i :| 0 <= i < |js| && KeyOf(js[i]) == MakeKey(uid, dest);
      KeysDiffer(js[i].uid, js[i].dest, uid, dest);
    }
    if IsJoined(js, uid, dest) {
      var i :| 0 <= i < |js| && js[i].uid == uid && js[i].dest == dest;
      assert KeyOf(js[i]) == MakeKey(uid, dest);
    }
  }

  lemma JoinKeepsKeys(js: seq<Journal>, keys: set<nat>, j: Journal)
    requires AreKeys(js, keys) && DistinctKeys(js) && KeyOf(j) !in keys
    ensures AreKeys(js + [j], keys + {KeyOf(j)}) && DistinctKeys(js + [j])
  {
    var js' := js + [j];
    forall k | k in keys + {KeyOf(j)}
      ensures HasKey(js', k)
    {
      if k in keys {
        assert HasKey(js, k);
        var i :| 0 <= i < |js| && KeyOf(js[i]) == k;
        assert js'[i] == js[i];
      } else {
        assert js'[|js|] == j;
      }
    }
  }

  lemma KeysOfAll(js: seq<Journal>)
    ensures AreKeys(js, set j | j in js :: KeyOf(j))
  {
    var keys := set j | j in js :: KeyOf(j);
    forall k | k in keys
      ensures HasKey(js, k)
    {
      var j :| j in js && KeyOf(j) == k;
      var i :| 0 <= i < |js| && js[i] == j;
    }
  }

  lemma SameKeys(js: seq<Journal>, js': seq<Journal>, keys: set<nat>)
    requires AreKeys(js, keys) && DistinctKeys(js)
    requires |js'| == |js| && forall i :: 0 <= i < |js| ==> KeyOf(js'[i]) == KeyOf(js[i])
    ensures AreKeys(js', keys) && DistinctKeys(js')
  {
    forall k | k in keys
      ensures HasKey(js', k)
    {
      assert HasKey(js, k);
      var i :| 0 <= i < |js| && KeyOf(js[i]) == k;
      assert KeyOf(js'[i]) == k;
    }
  }

  method RemoveIf(js: seq<Journal>, uid: uint32) returns (kept: seq<Journal>)
    ensures kept == Without(js, uid)
  {
    kept := [];
    var n := 0;
    while n < |js|
      invariant 0 <= n <= |js|
      invariant kept == Without(js[..n], uid)
    {
      assert js[..n + 1][..n] == js[..n];
      if js[n].uid != uid {
        kept := kept + [js[n]];
      }
      n := n + 1;
    }
    assert js[..n] == js;
  }

  class Reader {
    var journals: seq<Journal>
    var joined: set<nat>
    var current: int
    var needsRebuild: bool
    var useHeap: bool
    var single: bool
    var heap: multiset<Entry>
    var top: Entry

    ghost predicate Valid()
      reads this
    {
      && NO_JOURNAL <= current
      && (single <==> |journals| == 1) && (single ==> current == 0)
      && AreKeys(journals, joined) && DistinctKeys(journals)
    }

    predicate UsesHeap()
      reads this
    {
      useHeap && |journals| > 3
    }

    // Until a rebuild is asked for, the current journal has data, and in heap mode it is the one on top.
    ghost predicate Settled()
      reads this
    {
      needsRebuild || |journals| <= 1
      || (&& 0 <= current < |journals| && HasData(journals[current])
          && (UsesHeap() ==> HeapWithin(journals, heap) && MinEntry(heap, top) && top.index == current))
    }

    // No journal gained its first unread frame since the last rebuild.
    ghost predicate Complete()
      reads this
    {
      needsRebuild || |journals| <= 1
      || (if UsesHeap() then HeapCovers(journals, heap) else current >= 0 && FirstMinHead(journals, current))
    }

    // A rebuild of the heap finds one smallest head; a linear scan finds usable times.
    ghost predicate TieFree()
      reads this
    {
      if UsesHeap() then needsRebuild ==> UniqueMinimum(journals)
      else |journals| > 1 && AnyData(journals) ==> SomeBelowMax(journals)
    }

    function Now(): Snapshot
      reads this
    {
      Snapshot(journals, heap, top, current, needsRebuild)
    }

    constructor ()
      ensures Valid() && Settled() && Complete() && journals == [] && useHeap && needsRebuild
    {
      journals, joined, current, needsRebuild, useHeap, single := [], {}, NO_JOURNAL, true, true, false;
      heap, top := multiset{}, Entry(0, 0);
    }

    method RefreshSingleJournal()
      modifies this`single, this`current
      ensures single <==> |journals| == 1
      ensures current == if |journals| == 1 then 0 else old(current)
    {
      single := |journals| == 1;
      if single {
        current := 0;
      }
    }

    // A second join of the same location and destination is ignored.
    method Join(uid: uint32, dest: uint32, frames: seq<Frame>, start: nat)
      requires Valid() && start <= |frames|
      modifies this
      ensures Valid() && useHeap == old(useHeap)
      ensures journals == old(journals)
                          + (if IsJoined(old(journals), uid, dest) then [] else [Journal(uid, dest, frames, start)])
      ensures Now() == if journals == old(journals) then old(Now())
                       else old(Now()).(js := journals, rebuild := true,
                                        current := if |journals| == 1 then 0 else old(current))
      ensures old(Settled()) ==> Settled()
      ensures old(Complete()) ==> Complete()
    {
      var key := MakeKey(uid, dest);
      KeyMeansJoined(journals, uid, dest);
      if key in joined {
        return;
      }
      JoinKeepsKeys(journals, joined, Journal(uid, dest, frames, start));
      journals := journals + [Journal(uid, dest, frames, start)];
      joined := joined + {key};
      RefreshSingleJournal();
      needsRebuild := true;
    }

    method Disjoin(uid: uint32)
      requires Valid()
      modifies this
      ensures Valid() && useHeap == old(useHeap)
      ensures journals == Without(old(journals), uid)
      ensures forall j :: j in journals <==> j in old(journals) && j.uid != uid
      ensures SameOrder(old(journals), journals)
      ensures Now() == if |journals| == |old(journals)| then old(Now())
                       else old(Now()).(js := journals, rebuild := true,
                                        current := if |journals| == 1 then 0 else NO_JOURNAL)
      ensures old(Settled()) ==> Settled()
      ensures old(Complete()) ==> Complete()
    {
      hide DistinctKeys, AreKeys, HeapWithin, HeapCovers, MinEntry, FirstMinHead, HasData, KeyOf, Without;
      var oldSize := |journals|;
      WithoutKeepsDistinct(journals, uid);
      WithoutNothing(journals, uid);
      WithoutHas(journals, uid);
      WithoutInOrder(journals, uid);
      journals := RemoveIf(journals, uid);
      if |journals| != oldSize {
        joined := set j | j in journals :: KeyOf(j);
        KeysOfAll(journals);
        current := NO_JOURNAL;
        RefreshSingleJournal();
        needsRebuild := true;
      }
    }

    method SetUseHeap(use: bool)
      requires Valid()
      modifies this`useHeap, this`needsRebuild
      ensures Valid() && Settled() && Complete() && useHeap == use && needsRebuild
    {
      useHeap, needsRebuild := use, true;
    }

    // The writer of journal i commits one more frame.
    method Publish(i: nat, f: Frame)
      requires Valid() && i < |journals|
      modifies this`journals
      ensures Valid() && journals == old(journals)[i := old(journals)[i].(frames := old(journals)[i].frames + [f])]
      ensures old(Settled()) ==> Settled()
    {
      var j := journals[i];
      SameKeys(journals, journals[i := j.(frames := j.frames + [f])], joined);
      journals := journals[i := j.(frames := j.frames + [f])];
      assert forall e :: IsHead(old(journals), e) ==> IsHead(journals, e);
    }

    // std::make_heap followed by front(), and std::priority_queue::top().
    method Smallest(entries: multiset<Entry>) returns (e: Entry)
      requires entries != multiset{}
      ensures MinEntry(entries, e)
    {
      MinExists(entries);
      e :| e in entries && MinEntry(entries, e);
    }

    method FindMinimumLinear()
      requires Valid()
      modifies this`current
      ensures NO_JOURNAL <= current < |journals|
      ensures current == NO_JOURNAL <==> !SomeBelowMax(journals)
      ensures current != NO_JOURNAL ==> FirstMinHead(journals, current) && Head(journals[current]).time < MAX_TIME
    {
      var minTime, minIndex := MAX_TIME, NO_JOURNAL;
      var i := 0;
      while i < |journals|
        invariant 0 <= i <= |journals| && NO_JOURNAL <= minIndex < i
        invariant minIndex == NO_JOURNAL ==> minTime == MAX_TIME
        invariant minIndex != NO_JOURNAL ==>
          HasData(journals[minIndex]) && Head(journals[minIndex]).time == minTime < MAX_TIME
        invariant forall k :: 0 <= k < i && HasData(journals[k]) ==> Head(journals[k]).time >= minTime
        invariant forall k :: 0 <= k < minIndex && HasData(journals[k]) ==> Head(journals[k]).time > minTime
      {
        if HasData(journals[i]) {
          var time := Head(journals[i]).time;
          if time < minTime {
            minTime, minIndex := time, i;
          }
        }
        i := i + 1;
      }
      current := minIndex;
    }

    method CurrentHeads() returns (temp: multiset<Entry>)
      ensures HeapWithin(journals, temp) && HeapCovers(journals, temp)
      ensures temp == multiset{} <==> !AnyData(journals)
    {
      temp := multiset{};
      var i := 0;
      while i < |journals|
        invariant 0 <= i <= |journals|
        invariant forall e :: e in temp ==> temp[e] == 1 && e.index < i && IsHead(journals, e)
        invariant forall k :: 0 <= k < i && HasData(journals[k]) ==> HeadEntry(journals, k) in temp
      {
        if HasData(journals[i]) {
          temp := temp + multiset{HeadEntry(journals, i)};
        }
        i := i + 1;
      }
      if temp != multiset{} {
        var e :| e in temp;
        assert HasData(journals[e.index]);
      }
    }

    method RebuildHeap()
      requires Valid() && |journals| != 1
      modifies this`current, this`needsRebuild, this`heap, this`top
      ensures Valid() && !needsRebuild
      ensures UsesHeap() && AnyData(journals) ==> Rebuilt(journals, heap, top, current)
      ensures UsesHeap() && !AnyData(journals) ==> current == NO_JOURNAL
      ensures !UsesHeap() || !AnyData(journals) ==> heap == old(heap) && top == old(top)
      ensures !UsesHeap() && |journals| > 0 ==>
        if SomeBelowMax(journals) then
          current >= 0 && FirstMinHead(journals, current) && Head(journals[current]).time < MAX_TIME
        else current == NO_JOURNAL
      ensures journals == [] ==> current == NO_JOURNAL
    {
      hide HeapWithin, HeapCovers, MinEntry, MinHead, AreKeys, DistinctKeys;
      if |journals| == 0 {
        current, needsRebuild := NO_JOURNAL, false;
        return;
      }
      if useHeap && |journals| > 3 {
        var temp := CurrentHeads();
        if temp == multiset{} {
          current := NO_JOURNAL;
        } else {
          var front := Smallest(temp);
          current := front.index;
          heap := temp;
          top := Smallest(temp);
          MinEntryIsMinHead(journals, heap, front);
        }
      } else {
        FindMinimumLinear();
      }
      needsRebuild := false;
    }

    // The first half of updateHeap: the top leaves the heap, and the current journal's next frame enters it.
    method PopAndPush()
      requires 0 <= current < |journals|
      modifies this`heap
      ensures heap == Replaced(journals, current, old(heap), top)
    {
      heap := heap - multiset{top};
      if HasData(journals[current]) {
        heap := heap + multiset{HeadEntry(journals, current)};
      }
    }

    method UpdateHeap()
      requires 0 <= current < |journals|
      modifies this`current, this`needsRebuild, this`heap, this`top
      ensures NO_JOURNAL <= current
      ensures old(heap) == multiset{} ==>
        needsRebuild && current == old(current) && heap == old(heap) && top == old(top)
      ensures old(heap) != multiset{} ==>
        && Updated(journals, old(current), old(heap), old(top), heap, top, current)
        && needsRebuild == (old(needsRebuild) || heap == multiset{})
    {
      hide MinEntry, Replaced;
      if heap == multiset{} {
        needsRebuild := true;
        return;
      }
      PopAndPush();
      if heap == multiset{} {
        current, needsRebuild := NO_JOURNAL, true;
      } else {
        top := Smallest(heap);
        current := top.index;
      }
    }

    method IsDataAvailable() returns (available: bool)
      requires Valid()
      modifies this`current, this`needsRebuild, this`heap, this`top
      ensures Valid()
      ensures available ==>
        && 0 <= current < |journals| && HasData(journals[current])
        && (needsRebuild ==> |journals| == 1)
      ensures |journals| == 1 ==> Now() == old(Now()) && available == HasData(journals[0])
      ensures (useHeap && |journals| > 3) || (|journals| > 1 && !old(needsRebuild)) ==>
        Looks(old(Now()), Now()) && available == Positioned(Now())
      ensures !UsesHeap() && |journals| > 1 && old(needsRebuild) ==>
        && heap == old(heap) && top == old(top)
        && (available <==> SomeBelowMax(journals)) && (!available <==> needsRebuild)
        && (available ==> FirstMinHead(journals, current) && Head(journals[current]).time < MAX_TIME)
      ensures !available && !old(needsRebuild) && 0 <= current ==> current == old(current)
      ensures old(Settled() && TieFree()) ==> Settled() && (available <==> AnyData(journals))
      ensures old(Settled() && TieFree()) && !available && |journals| > 1 ==> needsRebuild
      ensures old(Settled() && Complete() && TieFree()) ==>
        Complete() && (available ==> Picks(journals, current, UsesHeap()))
    {
      hide AreKeys, DistinctKeys, BelowMax;
      if single {
        OnlyOne(journals);
        return HasData(journals[0]);
      }
      if needsRebuild {
        RebuildHeap();
        if UsesHeap() && AnyData(journals) && UniqueMinimum(journals) {
          RebuiltSettles(journals, heap, top, current);
        }
      } else if UsesHeap() && journals != [] && Settled() && Complete() {
        MinEntryIsMinHead(journals, heap, top);
      }
      var positioned := 0 <= current < |journals|;
      if !positioned && journals != [] {
        needsRebuild := true;
      }
      return positioned && HasData(journals[current]);
    }

    // A committed frame always passes Frame::hasData, so the frame seen here is the current head.
    method TryCurrentFrame() returns (frame: Option<Frame>)
      requires Valid()
      modifies this`current, this`needsRebuild, this`heap, this`top
      ensures Valid()
      ensures frame.Some? ==> 0 <= current < |journals| && HasData(journals[current])
                              && frame.value == Head(journals[current]) && (needsRebuild ==> |journals| == 1)
      ensures UsesHeap() ==> Looks(old(Now()), Now()) && frame.Some? == Positioned(Now())
      ensures !UsesHeap() && |journals| > 1 && old(needsRebuild) ==>
        && (frame.Some? <==> SomeBelowMax(journals)) && (frame.None? ==> needsRebuild)
        && (frame.Some? ==> FirstMinHead(journals, current) && Head(journals[current]).time < MAX_TIME)
      ensures old(Settled() && TieFree()) ==> Settled() && (frame.Some? <==> AnyData(journals))
      ensures old(Settled() && TieFree()) && frame.None? && |journals| > 1 ==> needsRebuild
      ensures old(Settled() && Complete() && TieFree()) ==>
        Complete() && (frame.Some? ==> Picks(journals, current, UsesHeap()))
    {
      var available := IsDataAvailable();
      if !available {
        return None;
      }
      return Some(Head(journals[current]));
    }

    method Next()
      requires Valid()
      modifies this`journals, this`current, this`needsRebuild, this`heap, this`top
      ensures Valid()
      ensures journals ==
        if 0 <= old(current) < |old(journals)| then After(old(journals), old(current)) else old(journals)
      ensures old(needsRebuild) ==> needsRebuild
      ensures |journals| == 1 || !(0 <= old(current) < |journals|) ==> Now() == old(Now()).(js := journals)
      ensures useHeap && |journals| > 3 && 0 <= old(current) < |journals| ==> Moves(old(Now()), Now())
      ensures !UsesHeap() && |journals| > 1 && 0 <= old(current) < |journals| ==>
        Now() == old(Now()).(js := journals, rebuild := true)
      ensures old(Settled()) ==> Settled()
      ensures old(Settled() && Complete()) ==> Complete()
      ensures old(Settled() && Complete() && !needsRebuild) && UsesHeap() && needsRebuild ==> !AnyData(journals)
    {
      hide AreKeys, DistinctKeys, HeapWithin, HeapCovers, MinEntry, MinHead, Replaced, AnyData;
      if !(0 <= current < |journals|) {
        return;
      }
      SameKeys(journals, After(journals, current), joined);
      ghost var js, settled := journals, !needsRebuild && Settled() && UsesHeap();
      if single {
        journals := After(journals, 0);
        return;
      }
      journals := After(journals, current);
      if useHeap && |journals| > 3 {
        if settled {
          Popped(js, heap, top);
        }
        UpdateHeap();
      } else {
        needsRebuild := true;
      }
    }

    // Delivers the next committed frame, if there is one, and moves past it.
    method NextStatic() returns (item: Option<Item>)
      requires Valid()
      modifies this`journals, this`current, this`needsRebuild, this`heap, this`top
      ensures Valid()
      ensures match item
              case None => journals == old(journals)
              case Some(it) => Delivers(old(journals), it, journals)
      ensures useHeap && |journals| > 3 ==> HeapStep(old(Now()), item, Now())
      ensures 1 < |journals| <= 3 && item.Some? && old(needsRebuild) ==> FirstMinHead(old(journals), item.value.index)
      ensures !UsesHeap() && |journals| > 1 && old(needsRebuild) ==>
        match item
        case None => !SomeBelowMax(journals) && needsRebuild
        case Some(it) => FirstMinHead(old(journals), it.index) && it.frame.time < MAX_TIME && needsRebuild
      ensures old(Settled() && TieFree()) ==> Settled() && (item.Some? <==> AnyData(old(journals)))
      ensures old(Settled() && Complete() && TieFree()) ==>
        && Complete()
        && (item.Some? ==> Picks(old(journals), item.value.index, UsesHeap()))
        && (item.Some? && UsesHeap() && needsRebuild ==> !AnyData(journals))
    {
      hide AreKeys, DistinctKeys, HeapWithin, HeapCovers, MinEntry, MinHead, FirstMinHead, BelowMax, UniqueMinimum;
      var frame := TryCurrentFrame();
      if frame.None? {
        return None;
      }
      item := Some(Item(current, frame.value));
      Next();
    }
  }

  // Frame it was the head of its journal and is now consumed; nothing else changed.
  predicate Delivers(js: seq<Journal>, it: Item, js': seq<Journal>) {
    && it.index < |js| && HasData(js[it.index]) && it.frame == Head(js[it.index])
    && js' == After(js, it.index)
  }

  /** Consuming the head on top of the heap: the popped key was that journal's, and the key pushed back is
      its new head, so the heap again holds each of its journals once, at its head. */
  lemma Popped(js: seq<Journal>, heap: multiset<Entry>, top: Entry)
    requires HeapWithin(js, heap) && MinEntry(heap, top) && top.index < |js|
    ensures heap != multiset{}
    ensures var js' := After(js, top.index);
            var heap' := Replaced(js', top.index, heap, top);
            && HeapWithin(js', heap') && (HeapCovers(js, heap) ==> HeapCovers(js', heap'))
            && (heap' == multiset{} && HeapCovers(js, heap) ==> !AnyData(js'))
            && forall e :: MinEntry(heap', e) ==> e.index < |js'| && HasData(js'[e.index])
  {
    var js' := After(js, top.index);
    var heap' := Replaced(js', top.index, heap, top);
    forall e | e in heap'
      ensures heap'[e] == 1 && IsHead(js', e)
    {
      if e in heap - multiset{top} {
        assert heap[e] == 1 && e != top && e.index != top.index;
      }
    }
    if HeapCovers(js, heap) {
      forall i | 0 <= i < |js'| && HasData(js'[i])
        ensures HeadEntry(js', i) in heap'
      {
        if i != top.index {
          assert HeadEntry(js, i) in heap;
        }
      }
    }
  }

  lemma DistinctPair(js: seq<Journal>, a: nat, b: nat)
    requires DistinctKeys(js) && a < b < |js|
    ensures KeyOf(js[a]) != KeyOf(js[b])
  {
  }

  lemma DistinctAppend(js: seq<Journal>, j: Journal)
    requires DistinctKeys(js) && forall a :: 0 <= a < |js| ==> KeyOf(js[a]) != KeyOf(j)
    ensures DistinctKeys(js + [j])
  {
  }

  lemma {:induction false} WithoutKeepsDistinct(js: seq<Journal>, uid: uint32)
    requires DistinctKeys(js)
    ensures DistinctKeys(Without(js, uid))
    decreases |js|
  {
    if js != [] {
      var n := |js| - 1;
      var kept := Without(js[..n], uid);
      assert DistinctKeys(js[..n]);
      WithoutKeepsDistinct(js[..n], uid);
      WithoutHas(js[..n], uid);
      hide DistinctKeys;
      if js[n].uid == uid {
        assert Without(js, uid) == kept;
        return;
      }
      forall a | 0 <= a < |kept|
        ensures KeyOf(kept[a]) != KeyOf(js[n])
      {
        assert kept[a] in js[..n];
        var b :| 0 <= b < n && js[b] == kept[a];
        DistinctPair(js, b, n);
      }
      DistinctAppend(kept, js[n]);
    }
  }

  lemma {:induction false} WithoutNothing(js: seq<Journal>, uid: uint32)
    ensures |Without(js, uid)| == |js| ==> Without(js, uid) == js
    decreases |js|
  {
    if js != [] {
      WithoutNothing(js[..|js| - 1], uid);
      assert js == js[..|js| - 1] + [js[|js| - 1]];
    }
  }

  lemma OnlyOne(js: seq<Journal>)
    requires |js| == 1
    ensures AnyData(js) <==> HasData(js[0])
    ensures HasData(js[0]) ==> MinHead(js, 0)
  {
  }

  // With one smallest head both choices of a rebuild fall on the same journal.
  lemma RebuiltSettles(js: seq<Journal>, heap: multiset<Entry>, top: Entry, current: int)
    requires Rebuilt(js, heap, top, current) && UniqueMinimum(js)
    ensures top.index == current
  {
    MinEntryIsMinHead(js, heap, top);
  }

  lemma MinEntryIsMinHead(js: seq<Journal>, heap: multiset<Entry>, e: Entry)
    requires HeapWithin(js, heap) && HeapCovers(js, heap) && MinEntry(heap, e)
    ensures MinHead(js, e.index)
  {
    forall k | 0 <= k < |js| && HasData(js[k])
      ensures Head(js[e.index]).time <= Head(js[k]).time
    {
      assert HeadEntry(js, k) in heap;
    }
  }
}
