/** What a whole merge delivers, whichever way the next journal is picked. */
module MergeTheorems {
  import opened Merge

  // ---------- Any history: frames published and delivered in any order ----------

  datatype Event = Delivered(item: Item) | Published(index: nat, frame: Frame)

  predicate Happens(js: seq<Journal>, event: Event, js': seq<Journal>) {
    match event
    case Delivered(it) => Delivers(js, it, js')
    case Published(i, f) => i < |js| && js' == js[i := js[i].(frames := js[i].frames + [f])]
  }

  predicate History(states: seq<seq<Journal>>, events: seq<Event>) {
    && |states| == |events| + 1
    && forall n :: 0 <= n < |events| ==> Happens(states[n], events[n], states[n + 1])
  }

  // What journal i delivered, and what was published to it, in order.
  function DeliveredBy(events: seq<Event>, i: nat): seq<Frame> {
    if events == [] then []
    else DeliveredBy(events[..|events| - 1], i)
         + match events[|events| - 1]
           case Delivered(it) => if it.index == i then [it.frame] else []
           case Published(_, _) => []
  }

  function PublishedTo(events: seq<Event>, i: nat): seq<Frame> {
    if events == [] then []
    else PublishedTo(events[..|events| - 1], i)
         + match events[|events| - 1]
           case Delivered(_) => []
           case Published(k, f) => if k == i then [f] else []
  }

  // From j to j': frames were published at the end, and exactly those between the positions delivered.
  predicate Tracks(j: Journal, j': Journal, published: seq<Frame>, delivered: seq<Frame>) {
    && j'.frames == j.frames + published
    && j.pos <= j'.pos <= |j'.frames|
    && delivered == j'.frames[j.pos..j'.pos]
  }

  lemma TracksDelivery(j: Journal, before: Journal, published: seq<Frame>, delivered: seq<Frame>)
    requires Tracks(j, before, published, delivered) && HasData(before)
    ensures Tracks(j, Stepped(before), published, delivered + [Head(before)])
  {
  }

  lemma TracksPublication(j: Journal, before: Journal, f: Frame, published: seq<Frame>, delivered: seq<Frame>)
    requires Tracks(j, before, published, delivered)
    ensures Tracks(j, before.(frames := before.frames + [f]), published + [f], delivered)
  {
    assert (before.frames + [f])[j.pos..before.pos] == before.frames[j.pos..before.pos];
  }

  /** Whatever is picked, and however the journals grow meanwhile, each journal delivers exactly the frames
      from where it was joined to where it stands, each once and in order. */
  lemma {:induction false} NothingSkippedOrRepeated(states: seq<seq<Journal>>, events: seq<Event>, i: nat)
    requires History(states, events) && i < |states[0]| && states[0][i].pos <= |states[0][i].frames|
    ensures |states[|events|]| == |states[0]|
    ensures Tracks(states[0][i], states[|events|][i], PublishedTo(events, i), DeliveredBy(events, i))
    decreases |events|
  {
    hide Tracks;
    if events == [] {
      TracksNothing(states[0][i]);
    } else {
      var n := |events| - 1;
      assert History(states[..n + 1], events[..n]);
      NothingSkippedOrRepeated(states[..n + 1], events[..n], i);
      assert Happens(states[n], events[n], states[n + 1]);
      var j, before := states[0][i], states[n][i];
      var published, delivered := PublishedTo(events[..n], i), DeliveredBy(events[..n], i);
      assert published + [] == published && delivered + [] == delivered;
      match events[n]
      case Delivered(it) =>
        if it.index == i {
          TracksDelivery(j, before, published, delivered);
        }
      case Published(k, f) =>
        if k == i {
          TracksPublication(j, before, f, published, delivered);
        }
    }
  }

  lemma TracksNothing(j: Journal)
    requires j.pos <= |j.frames|
    ensures Tracks(j, j, [], [])
  {
  }

  // ---------- Draining journals that do not grow ----------

  // A delivery of out that always takes a smallest head.
  predicate Greedy(js: seq<Journal>, out: seq<Item>, js': seq<Journal>)
    decreases |out|
  {
    if out == [] then js' == js
    else
      && MinHead(js, out[0].index) && out[0].frame == Head(js[out[0].index])
      && Greedy(After(js, out[0].index), out[1..], js')
  }

  lemma {:induction false} GreedyAppend(js: seq<Journal>, out: seq<Item>, mid: seq<Journal>, it: Item)
    requires Greedy(js, out, mid) && MinHead(mid, it.index) && it.frame == Head(mid[it.index])
    ensures Greedy(js, out + [it], After(mid, it.index))
    decreases |out|
  {
    if out == [] {
      assert Greedy(After(js, it.index), [it][1..], After(mid, it.index));
    } else {
      GreedyAppend(After(js, out[0].index), out[1..], mid, it);
      assert (out + [it])[1..] == out[1..] + [it];
    }
  }

  function Remaining(js: seq<Journal>): nat {
    if js == [] then 0
    else Remaining(js[..|js| - 1]) + var j := js[|js| - 1]; if HasData(j) then |j.frames| - j.pos else 0
  }

  lemma {:induction false} RemainingDrops(js: seq<Journal>, i: nat)
    requires i < |js| && HasData(js[i])
    ensures Remaining(After(js, i)) == Remaining(js) - 1
    decreases |js|
  {
    var n := |js| - 1;
    var js' := After(js, i);
    if i == n {
      assert js'[..n] == js[..n];
    } else {
      RemainingDrops(js[..n], i);
      assert js'[..n] == After(js[..n], i);
    }
  }

  lemma SmallestHeadExists(js: seq<Journal>)
    requires AnyData(js)
    ensures exists i :: 0 <= i < |js| && FirstMinHead(js, i)
  {
    var k :| 0 <= k < |js| && HasData(js[k]);
    var best := k;
    var i := 0;
    while i < |js|
      invariant 0 <= i <= |js| && 0 <= best < |js| && HasData(js[best])
      invariant forall k :: 0 <= k < i && HasData(js[k]) ==> Head(js[best]).time <= Head(js[k]).time
    {
      if HasData(js[i]) && Head(js[i]).time < Head(js[best]).time {
        best := i;
      }
      i := i + 1;
    }
    assert MinHead(js, best);
    var first := 0;
    while !MinHead(js, first)
      invariant 0 <= first <= best
      invariant forall k :: 0 <= k < first ==> !MinHead(js, k)
      decreases best - first
    {
      first := first + 1;
    }
    forall k | 0 <= k < first && HasData(js[k])
      ensures Head(js[k]).time > Head(js[first]).time
    {
      if Head(js[k]).time == Head(js[first]).time {
        assert MinHead(js, k);
      }
    }
    assert FirstMinHead(js, first);
  }

  // The reference merge: a linear scan before every frame.
  ghost function LinearPick(js: seq<Journal>): (i: nat)
    requires AnyData(js)
    ensures FirstMinHead(js, i)
  {
    SmallestHeadExists(js);
    var i :| 0 <= i < |js| && FirstMinHead(js, i);
    i
  }

  lemma FirstIsUnique(js: seq<Journal>, i: nat, k: nat)
    requires FirstMinHead(js, i) && FirstMinHead(js, k)
    ensures i == k
  {
    assert i < k || k < i || i == k;
  }

  ghost function LinearRun(js: seq<Journal>): seq<Item>
    decreases Remaining(js)
  {
    if !AnyData(js) then []
    else
      var i := LinearPick(js);
      RemainingDrops(js, i);
      [Item(i, Head(js[i]))] + LinearRun(After(js, i))
  }

  /** Draining a reader: as long as a heap rebuild finds one smallest head, every frame is delivered, always
      a smallest one first; with the linear scan the result is exactly the reference merge. */
  method Drain(r: Reader) returns (out: seq<Item>)
    requires r.Valid() && r.Settled() && r.Complete() && r.TieFree()
    requires !r.UsesHeap() && |r.journals| > 1 ==> BelowMax(r.journals)
    modifies r
    ensures Greedy(old(r.journals), out, r.journals) && !AnyData(r.journals)
    ensures !old(r.UsesHeap()) ==> out == LinearRun(old(r.journals))
  {
    hide MinHead, FirstMinHead, BelowMax, UniqueMinimum, AnyData, SomeBelowMax, HeapStep;
    out := [];
    ghost var js := r.journals;
    var more := true;
    while more
      invariant r.Valid() && r.Settled() && r.Complete() && (more ==> r.TieFree())
      invariant |r.journals| == |js| && r.useHeap == old(r.useHeap)
      invariant !r.UsesHeap() && |r.journals| > 1 ==> BelowMax(r.journals)
      invariant Greedy(js, out, r.journals)
      invariant !r.UsesHeap() ==> LinearRun(js) == out + LinearRun(r.journals)
      invariant !more ==> !AnyData(r.journals)
      decreases more, Remaining(r.journals)
    {
      ghost var before := r.journals;
      var next := r.NextStatic();
      match next
      case None =>
        more := false;
      case Some(it) =>
        PickIsSmallest(before, it.index, r.UsesHeap());
        GreedyAppend(js, out, before, it);
        RemainingDrops(before, it.index);
        if !r.UsesHeap() {
          LinearRunStep(before, it, out);
        }
        TieFreeAfter(r, before, it.index);
        out := out + [it];
    }
    NothingLeft(r.journals);
    assert out + [] == out;
  }

  lemma PickIsSmallest(js: seq<Journal>, i: nat, heapMode: bool)
    requires Picks(js, i, heapMode)
    ensures MinHead(js, i) && i < |js| && HasData(js[i])
  {
  }

  lemma NothingLeft(js: seq<Journal>)
    requires !AnyData(js)
    ensures LinearRun(js) == []
  {
  }

  lemma LinearRunStep(js: seq<Journal>, it: Item, out: seq<Item>)
    requires FirstMinHead(js, it.index) && it.frame == Head(js[it.index])
    ensures out + LinearRun(js) == (out + [it]) + LinearRun(After(js, it.index))
  {
    assert AnyData(js);
    FirstIsUnique(js, it.index, LinearPick(js));
    assert LinearRun(js) == [it] + LinearRun(After(js, it.index));
  }

  lemma TieFreeAfter(r: Reader, before: seq<Journal>, i: nat)
    requires i < |before| && r.journals == After(before, i)
    requires r.UsesHeap() && r.needsRebuild ==> !AnyData(r.journals)
    requires !r.UsesHeap() && |before| > 1 ==> BelowMax(before)
    ensures r.TieFree() && (!r.UsesHeap() && |before| > 1 ==> BelowMax(r.journals))
  {
    assert forall k :: 0 <= k < |before| ==> r.journals[k].frames == before[k].frames;
    if !r.UsesHeap() && |before| > 1 && AnyData(r.journals) {
      var k :| 0 <= k < |before| && HasData(r.journals[k]);
      assert Head(r.journals[k]) == before[k].frames[r.journals[k].pos];
    }
  }

  // ---------- Order and content of a greedy merge ----------

  predicate InOrder(j: Journal) {
    forall a, b :: j.pos <= a < b < |j.frames| ==> j.frames[a].time <= j.frames[b].time
  }

  predicate AllInOrder(js: seq<Journal>) {
    forall i :: 0 <= i < |js| ==> InOrder(js[i])
  }

  predicate AtLeast(js: seq<Journal>, bound: int) {
    forall i :: 0 <= i < |js| && HasData(js[i]) ==> bound <= Head(js[i]).time
  }

  predicate Sorted(out: seq<Item>) {
    forall a, b :: 0 <= a < b < |out| ==> out[a].frame.time <= out[b].frame.time
  }

  lemma StepKeepsOrder(js: seq<Journal>, i: nat)
    requires AllInOrder(js) && MinHead(js, i)
    ensures AllInOrder(After(js, i)) && AtLeast(After(js, i), Head(js[i]).time)
  {
  }

  lemma {:induction false} GreedyAtLeast(js: seq<Journal>, out: seq<Item>, js': seq<Journal>, bound: int)
    requires Greedy(js, out, js') && AllInOrder(js) && AtLeast(js, bound)
    ensures Sorted(out) && forall k :: 0 <= k < |out| ==> bound <= out[k].frame.time
    decreases |out|
  {
    if out != [] {
      var next := After(js, out[0].index);
      StepKeepsOrder(js, out[0].index);
      GreedyAtLeast(next, out[1..], js', out[0].frame.time);
      forall k | 0 <= k < |out|
        ensures out[0].frame.time <= out[k].frame.time
      {
        assert k == 0 || out[k] == out[1..][k - 1];
      }
      forall a, b | 0 <= a < b < |out|
        ensures out[a].frame.time <= out[b].frame.time
      {
        assert b > 0 && out[b] == out[1..][b - 1] && (a > 0 ==> out[a] == out[1..][a - 1]);
      }
    }
  }

  /** Journals in time order merge into time order. */
  lemma MergeIsSorted(js: seq<Journal>, out: seq<Item>, js': seq<Journal>)
    requires Greedy(js, out, js') && AllInOrder(js)
    ensures Sorted(out)
  {
    if out != [] {
      GreedyAtLeast(js, out, js', out[0].frame.time);
    }
  }

  // The items of journal i, in order.
  function From(out: seq<Item>, i: nat): seq<Frame> {
    if out == [] then []
    else (if out[0].index == i then [out[0].frame] else []) + From(out[1..], i)
  }

  /** A drained merge is an interleaving of what was left of the journals: item by item it names the journal,
      and the items of each journal are its unread frames in their own order. */
  lemma {:induction false} MergeIsInterleaving(js: seq<Journal>, out: seq<Item>, js': seq<Journal>, i: nat)
    requires Greedy(js, out, js') && !AnyData(js') && i < |js| && js[i].pos <= |js[i].frames|
    ensures From(out, i) == js[i].frames[js[i].pos..]
    ensures forall k :: 0 <= k < |out| ==> out[k].index < |js|
    decreases |out|
  {
    if out == [] {
      assert !HasData(js[i]);
    } else {
      var next := After(js, out[0].index);
      MergeIsInterleaving(next, out[1..], js', i);
      forall k | 0 <= k < |out|
        ensures out[k].index < |js|
      {
        assert k == 0 || out[k] == out[1..][k - 1];
      }
      if out[0].index == i {
        assert js[i].frames[js[i].pos..] == [Head(js[i])] + js[i].frames[js[i].pos + 1..];
      }
    }
  }

  // ---------- Two merges of the same journals ----------

  function Unread(j: Journal): seq<Frame> {
    if HasData(j) then j.frames[j.pos..] else []
  }

  function Times(frames: seq<Frame>): seq<int> {
    seq(|frames|, k requires 0 <= k < |frames| => frames[k].time)
  }

  function TimesOf(out: seq<Item>): seq<int> {
    seq(|out|, k requires 0 <= k < |out| => out[k].frame.time)
  }

  function Pending(js: seq<Journal>): multiset<int> {
    if js == [] then multiset{} else Pending(js[..|js| - 1]) + multiset(Times(Unread(js[|js| - 1])))
  }

  lemma UnreadStep(j: Journal)
    requires HasData(j)
    ensures multiset(Times(Unread(j))) == multiset(Times(Unread(Stepped(j)))) + multiset{Head(j).time}
  {
    assert Times(Unread(j)) == [Head(j).time] + Times(Unread(Stepped(j)));
  }

  lemma PendingLast(js: seq<Journal>)
    requires js != []
    ensures Pending(js) == Pending(js[..|js| - 1]) + multiset(Times(Unread(js[|js| - 1])))
  {
  }

  lemma {:induction false} PendingStep(js: seq<Journal>, i: nat)
    requires i < |js| && HasData(js[i])
    ensures Pending(js) == Pending(After(js, i)) + multiset{Head(js[i]).time}
    decreases |js|
  {
    hide Times, Unread, Pending;
    var n := |js| - 1;
    var js' := After(js, i);
    PendingLast(js);
    PendingLast(js');
    var rest, t := Pending(js'[..n]), multiset{Head(js[i]).time};
    if i == n {
      assert js'[..n] == js[..n];
      UnreadStep(js[i]);
      RegroupTimes(rest, multiset(Times(Unread(js'[n]))), t);
    } else {
      PendingStep(js[..n], i);
      assert js'[..n] == After(js[..n], i);
      assert js'[n] == js[n];
      RegroupTimes(rest, multiset(Times(Unread(js[n]))), t);
    }
  }

  lemma RegroupTimes(rest: multiset<int>, last: multiset<int>, t: multiset<int>)
    ensures rest + (last + t) == (rest + last) + t == (rest + t) + last
  {
  }

  lemma {:induction false} PendingNothing(js: seq<Journal>)
    requires !AnyData(js)
    ensures Pending(js) == multiset{}
    decreases |js|
  {
    if js != [] {
      var n := |js| - 1;
      assert forall i :: 0 <= i < n ==> js[..n][i] == js[i];
      PendingNothing(js[..n]);
      assert !HasData(js[n]);
      assert Times([]) == [];
    }
  }

  lemma MinHasData(js: seq<Journal>, i: nat)
    requires MinHead(js, i)
    ensures i < |js| && HasData(js[i])
  {
  }

  lemma TimesCons(out: seq<Item>)
    requires out != []
    ensures multiset(TimesOf(out)) == multiset{out[0].frame.time} + multiset(TimesOf(out[1..]))
  {
    assert TimesOf(out) == [out[0].frame.time] + TimesOf(out[1..]);
  }

  lemma {:induction false} MergedTimes(js: seq<Journal>, out: seq<Item>, js': seq<Journal>)
    requires Greedy(js, out, js')
    ensures Pending(js) == Pending(js') + multiset(TimesOf(out))
    decreases |out|
  {
    if out == [] {
      assert TimesOf(out) == [];
    } else {
      MinHasData(js, out[0].index);
      MergedTimes(After(js, out[0].index), out[1..], js');
      hide MinHead, Pending;
      PendingStep(js, out[0].index);
      TimesCons(out);
      hide TimesOf;
    }
  }

  predicate SortedTimes(xs: seq<int>) {
    forall a, b :: 0 <= a < b < |xs| ==> xs[a] <= xs[b]
  }

  lemma {:induction false} SortedIsUnique(xs: seq<int>, ys: seq<int>)
    requires SortedTimes(xs) && SortedTimes(ys) && multiset(xs) == multiset(ys)
    ensures xs == ys
    decreases |xs|
  {
    assert |xs| == |multiset(xs)| && |ys| == |multiset(ys)|;
    if xs != [] {
      assert xs[0] in multiset(ys) && ys[0] in multiset(xs);
      assert xs[0] == ys[0];
      assert xs == [xs[0]] + xs[1..] && ys == [ys[0]] + ys[1..];
      assert multiset(xs[1..]) == multiset(xs) - multiset{xs[0]};
      assert multiset(ys[1..]) == multiset(ys) - multiset{ys[0]};
      SortedIsUnique(xs[1..], ys[1..]);
    }
  }

  /** However ties are broken, two drained merges of journals in time order deliver the same timestamps in
      the same order; in particular the heap's are those of the linear scan. */
  lemma SameTimesWhateverTies(js: seq<Journal>, out1: seq<Item>, end1: seq<Journal>, out2: seq<Item>,
                              end2: seq<Journal>)
    requires AllInOrder(js) && Greedy(js, out1, end1) && !AnyData(end1) && Greedy(js, out2, end2) && !AnyData(end2)
    ensures TimesOf(out1) == TimesOf(out2)
  {
    MergeIsSorted(js, out1, end1);
    MergeIsSorted(js, out2, end2);
    MergedTimes(js, out1, end1);
    MergedTimes(js, out2, end2);
    PendingNothing(end1);
    PendingNothing(end2);
    assert multiset(TimesOf(out1)) == Pending(js);
    assert multiset(TimesOf(out2)) == Pending(js);
    SortedIsUnique(TimesOf(out1), TimesOf(out2));
  }

  // One smallest head before every frame of the reference merge.
  ghost predicate NoTies(js: seq<Journal>)
    decreases Remaining(js)
  {
    AnyData(js) ==>
      UniqueMinimum(js)
      && (RemainingDrops(js, LinearPick(js)); NoTies(After(js, LinearPick(js))))
  }

  lemma {:induction false} LinearIsGreedy(js: seq<Journal>) returns (js': seq<Journal>)
    ensures Greedy(js, LinearRun(js), js') && !AnyData(js')
    decreases Remaining(js)
  {
    if !AnyData(js) {
      js' := js;
    } else {
      var i := LinearPick(js);
      RemainingDrops(js, i);
      js' := LinearIsGreedy(After(js, i));
      assert LinearRun(js)[1..] == LinearRun(After(js, i));
    }
  }

  lemma UniqueIs(js: seq<Journal>, i: nat, k: nat)
    requires NoTies(js) && MinHead(js, i) && MinHead(js, k)
    ensures i == k && UniqueMinimum(js)
  {
  }

  lemma {:induction false} OnlyOneMerge(js: seq<Journal>, out: seq<Item>, js': seq<Journal>)
    requires NoTies(js) && Greedy(js, out, js') && !AnyData(js')
    ensures out == LinearRun(js)
    decreases |out|
  {
    if out != [] {
      MinHasData(js, out[0].index);
      var i := LinearPick(js);
      UniqueIs(js, i, out[0].index);
      hide MinHead, FirstMinHead, UniqueMinimum;
      OnlyOneMerge(After(js, i), out[1..], js');
      assert out == [out[0]] + out[1..];
    }
  }

  // Where two heads tie, some merge takes the other one.
  lemma {:induction false} AnotherMerge(js: seq<Journal>) returns (out: seq<Item>, js': seq<Journal>)
    requires !NoTies(js)
    ensures Greedy(js, out, js') && !AnyData(js') && out != LinearRun(js)
    decreases Remaining(js)
  {
    var i := LinearPick(js);
    RemainingDrops(js, i);
    if !UniqueMinimum(js) {
      var a, b :| 0 <= a < |js| && 0 <= b < |js| && a != b && MinHead(js, a) && HasData(js[b])
                  && Head(js[a]).time >= Head(js[b]).time;
      var k := if a == i then b else a;
      assert MinHead(js, k) && k != i;
      js' := LinearIsGreedy(After(js, k));
      var rest := LinearRun(After(js, k));
      out := [Item(k, Head(js[k]))] + rest;
      assert out[1..] == rest;
      assert LinearRun(js)[0].index == i;
    } else {
      var rest;
      rest, js' := AnotherMerge(After(js, i));
      out := [Item(i, Head(js[i]))] + rest;
      assert out[1..] == rest;
      assert LinearRun(js)[1..] == LinearRun(After(js, i));
    }
  }

  ghost predicate AllAgree(js: seq<Journal>) {
    forall out, js' :: Greedy(js, out, js') && !AnyData(js') ==> out == LinearRun(js)
  }

  /** Every drained merge picks the same frame of the same journal as the linear scan throughout, exactly
      when the scan never meets two smallest heads. */
  lemma MergesAgreeIff(js: seq<Journal>)
    ensures AllAgree(js) <==> NoTies(js)
  {
    if NoTies(js) {
      forall out, js' | Greedy(js, out, js') && !AnyData(js')
        ensures out == LinearRun(js)
      {
        OnlyOneMerge(js, out, js');
      }
    } else {
      var out, js' := AnotherMerge(js);
    }
  }

  // ---------- Ties at a rebuild ----------

  ghost predicate RebuildAgrees(js: seq<Journal>) {
    forall heap, top, current :: Rebuilt(js, heap, top, current) ==> top.index == current
  }

  ghost function Heads(js: seq<Journal>, n: nat): (heap: multiset<Entry>)
    requires n <= |js|
    ensures forall e :: e in heap ==> heap[e] == 1 && e.index < n && IsHead(js, e)
    ensures forall i :: 0 <= i < n && HasData(js[i]) ==> HeadEntry(js, i) in heap
  {
    if n == 0 then multiset{}
    else Heads(js, n - 1) + if HasData(js[n - 1]) then multiset{HeadEntry(js, n - 1)} else multiset{}
  }

  lemma RebuildCanPick(js: seq<Journal>, a: nat, b: nat)
    requires MinHead(js, a) && MinHead(js, b)
    ensures Rebuilt(js, Heads(js, |js|), HeadEntry(js, b), a)
  {
  }

  /** A rebuild leaves the current journal on top of the heap, whatever the library does with equal keys,
      exactly when one head is smallest. */
  lemma RebuildAgreesIff(js: seq<Journal>)
    requires AnyData(js)
    ensures RebuildAgrees(js) <==> UniqueMinimum(js)
  {
    if UniqueMinimum(js) {
      forall heap, top, current | Rebuilt(js, heap, top, current)
        ensures top.index == current
      {
        RebuiltSettles(js, heap, top, current);
      }
    } else {
      var a, b :| 0 <= a < |js| && 0 <= b < |js| && a != b && MinHead(js, a) && HasData(js[b])
                  && Head(js[a]).time >= Head(js[b]).time;
      assert MinHead(js, b);
      RebuildCanPick(js, a, b);
    }
  }

  /** What goes wrong on a tie. Journals a and b share the smallest head and a has just that frame left: the
      rebuild may make a current with b on top; consuming a's frame then drops b from the heap and leaves a,
      which has nothing to read, current. No rebuild is asked for, so isDataAvailable answers no although
      b has data. */
  lemma TieHidesData(js: seq<Journal>, a: nat, b: nat)
    requires |js| > 3 && a != b && MinHead(js, a) && MinHead(js, b) && js[a].pos + 1 == |js[a].frames|
    ensures var heap, top := Heads(js, |js|), HeadEntry(js, b);
            var js', heap' := After(js, a), Replaced(After(js, a), a, heap, top);
            && Rebuilt(js, heap, top, a)
            && Updated(js', a, heap, top, heap', HeadEntry(js, a), a)
            && heap' != multiset{} && !HasData(js'[a]) && HasData(js'[b])
  {
    RebuildCanPick(js, a, b);
    var heap, top := Heads(js, |js|), HeadEntry(js, b);
    assert HeadEntry(js, a) in heap && HeadEntry(js, a) != top;
    assert HeadEntry(js, a) in heap - multiset{top};
  }
}
