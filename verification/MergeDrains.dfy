/** Draining a reader of journals that do not grow, step by step as nextStatic takes it: which drains are
    complete, and which deliver what the linear scan delivers. */
module MergeDrains {
  import opened Merge
  import opened MergeTheorems

  // ---------- The heap ----------

  // The reader's states and the frames delivered between them; the last step delivers none.
  ghost predicate HeapDrain(states: seq<Snapshot>, out: seq<Item>) {
    && |states| == |out| + 2 && |states[0].js| > 3
    && (forall k :: 0 <= k < |out| ==> HeapStep(states[k], Some(out[k]), states[k + 1]))
    && HeapStep(states[|out|], None, states[|out| + 1])
  }

  function End(states: seq<Snapshot>): seq<Journal>
    requires |states| > 0
  {
    states[|states| - 1].js
  }

  lemma DrainTail(states: seq<Snapshot>, out: seq<Item>)
    requires HeapDrain(states, out) && out != [] && |states[1].js| > 3
    ensures HeapStep(states[0], Some(out[0]), states[1]) && HeapDrain(states[1..], out[1..])
    ensures End(states[1..]) == End(states)
  {
    hide HeapStep;
  }

  lemma DrainCons(s: Snapshot, item: Item, states: seq<Snapshot>, out: seq<Item>)
    requires |s.js| > 3 && HeapDrain(states, out) && HeapStep(s, Some(item), states[0])
    ensures HeapDrain([s] + states, [item] + out) && End([s] + states) == End(states)
  {
    hide HeapStep;
    var all, items := [s] + states, [item] + out;
    forall k | 0 <= k < |items|
      ensures HeapStep(all[k], Some(items[k]), all[k + 1])
    {
      if k > 0 {
        assert all[k] == states[k - 1] && all[k + 1] == states[k] && items[k] == out[k - 1];
      }
    }
    assert all[|items|] == states[|out|] && all[|items| + 1] == states[|out| + 1];
  }

  lemma StepKeepsCount(s: Snapshot, item: Option<Item>, s': Snapshot)
    requires HeapStep(s, item, s')
    ensures |s'.js| == |s.js|
    ensures match item
            case None => s'.js == s.js
            case Some(it) => Delivers(s.js, it, s'.js)
  {
    hide Rebuilt, Updated, AnyData;
    var m :| Looks(s, m) && Takes(m, item, s');
  }

  // ---------- A drain that starts with one smallest head ----------

  // Current journal and heap top agree, and the heap holds every head; or there is nothing left to read.
  ghost predicate Aligned(s: Snapshot) {
    if s.rebuild then !AnyData(s.js)
    else
      && HeapWithin(s.js, s.heap) && HeapCovers(s.js, s.heap) && MinEntry(s.heap, s.top)
      && s.current == s.top.index
  }

  lemma AlignedPositioned(s: Snapshot)
    requires Aligned(s) && !s.rebuild
    ensures Positioned(s) && MinHead(s.js, s.current) && s.heap != multiset{}
  {
    MinEntryIsMinHead(s.js, s.heap, s.top);
  }

  lemma AlignedMoves(s: Snapshot, s': Snapshot)
    requires Aligned(s) && !s.rebuild && 0 <= s.current < |s.js| && Moves(s, s')
    ensures Aligned(s')
  {
    hide HeapWithin, HeapCovers, AnyData, MinEntry, MinHead, Replaced;
    AlignedPositioned(s);
    Popped(s.js, s.heap, s.top);
  }

  lemma LooksAligned(s: Snapshot, m: Snapshot)
    requires Looks(s, m) && (Aligned(s) || (s.rebuild && AnyData(s.js) && UniqueMinimum(s.js)))
    ensures Aligned(m) && m.js == s.js
  {
    if s.rebuild && AnyData(s.js) {
      RebuiltSettles(s.js, m.heap, m.top, m.current);
    } else if !s.rebuild {
      AlignedPositioned(s);
    }
  }

  /** A drain that meets one smallest head at its rebuild takes a smallest head every time and leaves nothing. */
  lemma {:induction false} CleanDrain(states: seq<Snapshot>, out: seq<Item>)
    requires HeapDrain(states, out)
    requires Aligned(states[0]) || (states[0].rebuild && AnyData(states[0].js) && UniqueMinimum(states[0].js))
    ensures Greedy(states[0].js, out, End(states)) && !AnyData(End(states))
    decreases |out|
  {
    hide HeapWithin, HeapCovers, MinEntry, MinHead, UniqueMinimum, AnyData, Rebuilt, Updated, Aligned;
    if out == [] {
      assert HeapStep(states[0], None, states[1]);
      var m :| Looks(states[0], m) && Takes(m, None, states[1]);
      LooksAligned(states[0], m);
      StopsEmpty(m);
    } else {
      assert HeapStep(states[0], Some(out[0]), states[1]);
      var m :| Looks(states[0], m) && Takes(m, Some(out[0]), states[1]);
      LooksAligned(states[0], m);
      GoesOn(m);
      AlignedMoves(m, states[1]);
      DrainTail(states, out);
      CleanDrain(states[1..], out[1..]);
    }
  }

  lemma StopsEmpty(m: Snapshot)
    requires Aligned(m) && !Positioned(m)
    ensures !AnyData(m.js)
  {
    if !m.rebuild {
      AlignedPositioned(m);
    }
  }

  lemma GoesOn(m: Snapshot)
    requires Aligned(m) && Positioned(m)
    ensures !m.rebuild && MinHead(m.js, m.current)
  {
    assert HasData(m.js[m.current]);
    if !m.rebuild {
      AlignedPositioned(m);
    }
  }

  // ---------- A drain whose rebuild was torn by a tie ----------

  // Journal b is missing from the heap though it has data, and one key of journal a is out of date.
  ghost predicate Torn(s: Snapshot, a: nat, b: nat) {
    && a != b && a < |s.js| && b < |s.js| && HasData(s.js[b]) && !s.rebuild
    && MinEntry(s.heap, s.top) && s.current == s.top.index
    && exists stale: Entry, rest :: Parts(s, a, b, stale, rest)
  }

  ghost predicate Parts(s: Snapshot, a: nat, b: nat, stale: Entry, rest: multiset<Entry>) {
    && s.heap == multiset{stale} + rest && stale.index == a
    && HeapWithin(s.js, rest) && (forall e :: e in rest ==> e.index != b)
    && (a < |s.js| && HasData(s.js[a]) ==> HeadEntry(s.js, a) in rest)
  }

  // The keys that stay right when the top is consumed.
  function Remainder(js: seq<Journal>, js': seq<Journal>, stale: Entry, rest: multiset<Entry>,
                     top: Entry): multiset<Entry>
    requires top.index < |js| == |js'| && HasData(js[top.index])
  {
    var gone := if top in rest then top else HeadEntry(js, top.index);
    var kept := rest - multiset{gone};
    if HasData(js'[top.index]) then kept + multiset{HeadEntry(js', top.index)} else kept
  }

  lemma TornTop(s: Snapshot, a: nat, b: nat, stale: Entry, rest: multiset<Entry>)
    requires Torn(s, a, b) && Parts(s, a, b, stale, rest)
    ensures s.top == stale || s.top in rest
    ensures s.current < |s.js| && s.current != b
    ensures !HasData(s.js[s.current]) ==> s.top == stale
  {
    assert s.top in multiset{stale} + rest;
  }

  lemma RemainderRight(js: seq<Journal>, a: nat, b: nat, stale: Entry, rest: multiset<Entry>, top: Entry)
    requires a != b && a < |js| && b < |js| && top.index < |js| && HasData(js[top.index]) && top.index != b
    requires HeapWithin(js, rest) && (forall e :: e in rest ==> e.index != b)
    requires (HasData(js[a]) ==> HeadEntry(js, a) in rest) && stale.index == a
    requires top == stale || top in rest
    ensures var js' := After(js, top.index);
            var rest' := Remainder(js, js', stale, rest, top);
            && HeapWithin(js', rest') && (forall e :: e in rest' ==> e.index != b)
            && (HasData(js'[a]) ==> HeadEntry(js', a) in rest')
  {
    var js' := After(js, top.index);
    var rest' := Remainder(js, js', stale, rest, top);
    var gone := if top in rest then top else HeadEntry(js, top.index);
    assert gone in rest && gone == HeadEntry(js, top.index);
    var kept := rest - multiset{gone};
    forall e | e in rest'
      ensures rest'[e] == 1 && IsHead(js', e) && e.index != b
    {
      if e in kept {
        assert e in rest && rest[e] == 1 && e != gone && e.index != top.index;
      }
    }
    if HasData(js'[a]) && a != top.index {
      assert HeadEntry(js', a) == HeadEntry(js, a);
    }
  }

  // Popping the top and pushing the next head, split into the stale key and the others.
  lemma TornHeap(heap: multiset<Entry>, stale: Entry, rest: multiset<Entry>, top: Entry, gone: Entry,
                 pushed: multiset<Entry>)
    requires heap == multiset{stale} + rest && gone in rest
    requires top == gone || top == stale
    ensures heap - multiset{top} + pushed
            == multiset{if top == gone then stale else gone} + (rest - multiset{gone} + pushed)
  {
  }

  lemma TornMoves(s: Snapshot, a: nat, b: nat, s': Snapshot)
    requires Torn(s, a, b) && Positioned(s) && Moves(s, s')
    ensures Torn(s', a, b) && s'.js[b] == s.js[b]
  {
    hide Parts, MinEntry, HeapWithin, Replaced;
    var stale, rest :| Parts(s, a, b, stale, rest);
    TornTop(s, a, b, stale, rest);
    var stale', rest' := TornParts(s, a, b, stale, rest, s');
    assert Parts(s', a, b, stale', rest');
  }

  lemma TornParts(s: Snapshot, a: nat, b: nat, stale: Entry, rest: multiset<Entry>, s': Snapshot)
    returns (stale': Entry, rest': multiset<Entry>)
    requires Torn(s, a, b) && Parts(s, a, b, stale, rest) && Positioned(s) && Moves(s, s')
    ensures s.heap != multiset{} && s'.heap != multiset{} && Parts(s', a, b, stale', rest')
  {
    hide MinEntry, HeapWithin, Remainder, Replaced;
    TornTop(s, a, b, stale, rest);
    RemainderRight(s.js, a, b, stale, rest, s.top);
    stale', rest' := TornSplit(s, a, b, stale, rest, s');
  }

  lemma TornSplit(s: Snapshot, a: nat, b: nat, stale: Entry, rest: multiset<Entry>, s': Snapshot)
    returns (stale': Entry, rest': multiset<Entry>)
    requires Torn(s, a, b) && Parts(s, a, b, stale, rest) && Positioned(s) && Moves(s, s')
    ensures s.heap != multiset{} && s'.heap != multiset{}
    ensures s'.heap == multiset{stale'} + rest' && stale'.index == a
    ensures rest' == Remainder(s.js, s'.js, stale, rest, s.top)
  {
    hide MinEntry, HeapWithin;
    TornTop(s, a, b, stale, rest);
    var gone := if s.top in rest then s.top else HeadEntry(s.js, s.top.index);
    var pushed := if HasData(s'.js[s.current]) then multiset{HeadEntry(s'.js, s.current)} else multiset{};
    GoneInRest(s, a, b, stale, rest, gone);
    TornHeap(s.heap, stale, rest, s.top, gone, pushed);
    stale' := if s.top == gone then stale else gone;
    rest' := Remainder(s.js, s'.js, stale, rest, s.top);
    PushedSame(rest - multiset{gone}, s.heap - multiset{s.top});
    StaleAndRest(s.heap, stale, rest);
    StaleAndRest(s'.heap, stale', rest');
  }

  lemma PushedSame(kept: multiset<Entry>, popped: multiset<Entry>)
    ensures kept + multiset{} == kept && popped + multiset{} == popped
  {
  }

  lemma GoneInRest(s: Snapshot, a: nat, b: nat, stale: Entry, rest: multiset<Entry>, gone: Entry)
    requires Torn(s, a, b) && Parts(s, a, b, stale, rest) && Positioned(s)
    requires gone == if s.top in rest then s.top else HeadEntry(s.js, s.top.index)
    ensures gone in rest && gone.index == s.top.index && (s.top == gone || s.top == stale)
  {
    TornTop(s, a, b, stale, rest);
  }

  /** After a torn rebuild journal b delivers nothing more: the drain ends with its data unread. */
  lemma {:induction false} TornDrain(states: seq<Snapshot>, out: seq<Item>, a: nat, b: nat)
    requires HeapDrain(states, out) && Torn(states[0], a, b)
    ensures b < |End(states)| && End(states)[b] == states[0].js[b] && AnyData(End(states))
    decreases |out|
  {
    hide HeapStep;
    TornLooks(states[0], a, b);
    if out == [] {
      StepKeepsCount(states[0], None, states[1]);
      assert HasData(End(states)[b]);
    } else {
      TornStep(states[0], a, b, out[0], states[1]);
      DrainTail(states, out);
      TornDrain(states[1..], out[1..], a, b);
    }
  }

  lemma TornLooks(s: Snapshot, a: nat, b: nat)
    requires Torn(s, a, b)
    ensures 0 <= s.current < |s.js|
  {
    var stale, rest :| Parts(s, a, b, stale, rest);
    TornTop(s, a, b, stale, rest);
  }

  lemma TornStep(s: Snapshot, a: nat, b: nat, item: Item, s': Snapshot)
    requires Torn(s, a, b) && HeapStep(s, Some(item), s')
    ensures Torn(s', a, b) && s'.js[b] == s.js[b] && |s'.js| == |s.js|
  {
    hide Torn, Rebuilt, Updated;
    TornLooks(s, a, b);
    var m :| Looks(s, m) && Takes(m, Some(item), s');
    TornSettled(s, a, b);
    assert m == s;
    TornMoves(s, a, b, s');
  }

  lemma TornSettled(s: Snapshot, a: nat, b: nat)
    requires Torn(s, a, b)
    ensures !s.rebuild
  {
  }

  // The keys that stay right when a's frame is consumed while b is popped.
  lemma KeptRight(js: seq<Journal>, heap: multiset<Entry>, a: nat, b: nat)
    requires HeapWithin(js, heap) && HeapCovers(js, heap) && a != b && a < |js| && b < |js|
    requires HasData(js[a]) && HasData(js[b])
    ensures var js' := After(js, a);
            var kept := heap - multiset{HeadEntry(js, b)} - multiset{HeadEntry(js, a)};
            var rest := if HasData(js'[a]) then kept + multiset{HeadEntry(js', a)} else kept;
            && heap == kept + multiset{HeadEntry(js, b)} + multiset{HeadEntry(js, a)}
            && HeapWithin(js', rest) && (forall e :: e in rest ==> e.index != b)
            && (HasData(js'[a]) ==> HeadEntry(js', a) in rest)
  {
    var ea, eb := HeadEntry(js, a), HeadEntry(js, b);
    assert ea in heap && eb in heap && heap[ea] == 1 && heap[eb] == 1 && ea != eb;
    var js' := After(js, a);
    var kept := heap - multiset{eb} - multiset{ea};
    var rest := if HasData(js'[a]) then kept + multiset{HeadEntry(js', a)} else kept;
    forall e | e in rest
      ensures rest[e] == 1 && IsHead(js', e) && e.index != b
    {
      if e in kept {
        assert heap[e] == 1 && e != eb && e != ea && e.index != a && e.index != b;
      }
    }
  }

  lemma TornKeys(heap: multiset<Entry>, kept: multiset<Entry>, eb: Entry, ea: Entry, pushed: multiset<Entry>)
    requires heap == kept + multiset{eb} + multiset{ea}
    ensures heap - multiset{eb} + pushed == multiset{ea} + (kept + pushed)
    ensures heap - multiset{eb} == multiset{ea} + kept
  {
  }

  // A rebuild that puts b on top and makes a current tears the heap with the next step.
  lemma RebuildTears(m: Snapshot, b: nat, s': Snapshot)
    requires !m.rebuild && Rebuilt(m.js, m.heap, m.top, m.current) && m.top.index == b != m.current && Moves(m, s')
    ensures Torn(s', m.current, b) && s'.js[b] == m.js[b]
  {
    hide Parts, HeapWithin, HeapCovers, MinEntry, MinHead, Replaced;
    TopIsHead(m.js, m.heap, m.top, m.current);
    var stale, rest := RebuildParts(m, b, s');
    assert Parts(s', m.current, b, stale, rest);
  }

  lemma RebuildParts(m: Snapshot, b: nat, s': Snapshot) returns (stale: Entry, rest: multiset<Entry>)
    requires Rebuilt(m.js, m.heap, m.top, m.current) && m.top.index == b != m.current && Moves(m, s')
    ensures s'.heap != multiset{} && m.heap != multiset{} && Parts(s', m.current, b, stale, rest)
  {
    hide HeapWithin, HeapCovers, MinEntry, MinHead;
    var js, js', a := m.js, s'.js, m.current;
    TopIsHead(js, m.heap, m.top, a);
    stale := HeadEntry(js, a);
    KeptRight(js, m.heap, a, b);
    var kept := m.heap - multiset{m.top} - multiset{stale};
    rest := if HasData(js'[a]) then kept + multiset{HeadEntry(js', a)} else kept;
    TornKeys(m.heap, kept, m.top, stale, if HasData(js'[a]) then multiset{HeadEntry(js', a)} else multiset{});
    StaleAndRest(s'.heap, stale, rest);
  }

  lemma TopIsHead(js: seq<Journal>, heap: multiset<Entry>, top: Entry, a: nat)
    requires Rebuilt(js, heap, top, a)
    ensures top in heap && top.index < |js| && HasData(js[top.index]) && top == HeadEntry(js, top.index)
    ensures a < |js| && HasData(js[a])
  {
    assert IsHead(js, top);
  }

  lemma StaleAndRest(heap: multiset<Entry>, stale: Entry, rest: multiset<Entry>)
    requires heap == multiset{stale} + rest
    ensures heap != multiset{} && stale in heap
  {
    assert stale in multiset{stale} + rest;
  }

  // ---------- Drains exist ----------

  lemma LooksExists(s: Snapshot) returns (m: Snapshot)
    requires |s.js| > 3
    ensures Looks(s, m) && m.js == s.js
  {
    if !s.rebuild {
      m := if 0 <= s.current < |s.js| then s else s.(rebuild := true);
    } else if AnyData(s.js) {
      SmallestHeadExists(s.js);
      var i :| 0 <= i < |s.js| && FirstMinHead(s.js, i);
      RebuildCanPick(s.js, i, i);
      m := Snapshot(s.js, Heads(s.js, |s.js|), HeadEntry(s.js, i), i, false);
    } else {
      m := s.(current := NO_JOURNAL);
    }
  }

  lemma MovesExists(s: Snapshot) returns (s': Snapshot)
    requires 0 <= s.current < |s.js|
    ensures Moves(s, s') && s'.js == After(s.js, s.current)
  {
    hide HeapWithin, MinHead;
    var js' := After(s.js, s.current);
    if s.heap == multiset{} {
      s' := s.(js := js', rebuild := true);
    } else {
      var heap' := Replaced(js', s.current, s.heap, s.top);
      if heap' == multiset{} {
        s' := Snapshot(js', heap', s.top, NO_JOURNAL, true);
      } else {
        MinExists(heap');
        var top' :| MinEntry(heap', top');
        s' := Snapshot(js', heap', top', top'.index, s.rebuild);
      }
    }
  }

  lemma {:induction false} DrainExists(s: Snapshot) returns (states: seq<Snapshot>, out: seq<Item>)
    requires |s.js| > 3
    ensures HeapDrain(states, out) && states[0] == s
    decreases Remaining(s.js)
  {
    hide Looks, Moves;
    var m := LooksExists(s);
    if Positioned(m) {
      var s' := MovesExists(m);
      RemainingDrops(m.js, m.current);
      var rest, items := DrainExists(s');
      var item := Item(m.current, Head(m.js[m.current]));
      assert Takes(m, Some(item), s');
      assert HeapStep(s, Some(item), s');
      DrainCons(s, item, rest, items);
      states, out := [s] + rest, [item] + items;
    } else {
      assert Takes(m, None, m);
      assert HeapStep(s, None, m);
      states, out := [s, m], [];
    }
  }

  // ---------- Exactly when every drain is complete ----------

  ghost predicate StartsAt(states: seq<Snapshot>, js: seq<Journal>) {
    |states| > 0 && states[0].js == js && states[0].rebuild
  }

  ghost predicate EveryDrainComplete(js: seq<Journal>) {
    forall states, out :: HeapDrain(states, out) && StartsAt(states, js) ==> !AnyData(End(states))
  }

  ghost predicate EveryDrainGreedy(js: seq<Journal>) {
    forall states, out :: HeapDrain(states, out) && StartsAt(states, js) ==> Greedy(js, out, End(states))
  }

  // A library that breaks the tie apart strands a journal.
  lemma TornDrainExists(s: Snapshot) returns (states: seq<Snapshot>, out: seq<Item>)
    requires |s.js| > 3 && s.rebuild && AnyData(s.js) && !UniqueMinimum(s.js)
    ensures HeapDrain(states, out) && states[0] == s && AnyData(End(states))
  {
    hide HeapWithin, HeapCovers, Updated, HeapDrain, HeapStep, Torn;
    var a, b :| 0 <= a < |s.js| && 0 <= b < |s.js| && a != b && MinHead(s.js, a) && HasData(s.js[b])
                && Head(s.js[a]).time >= Head(s.js[b]).time;
    assert MinHead(s.js, b);
    RebuildCanPick(s.js, a, b);
    var m := Snapshot(s.js, Heads(s.js, |s.js|), HeadEntry(s.js, b), a, false);
    var s' := MovesExists(m);
    RebuildTears(m, b, s');
    var rest, items := DrainExists(s');
    var item := Item(a, Head(s.js[a]));
    StepBy(s, m, item, s');
    DrainStarts(rest, items);
    TornDrain(rest, items, a, b);
    DrainCons(s, item, rest, items);
    states, out := [s] + rest, [item] + items;
  }

  lemma StepBy(s: Snapshot, m: Snapshot, item: Item, s': Snapshot)
    requires Looks(s, m) && Positioned(m) && item == Item(m.current, Head(m.js[m.current])) && Moves(m, s')
    ensures HeapStep(s, Some(item), s')
  {
    hide Looks, Moves;
    assert Takes(m, Some(item), s');
  }

  lemma DrainStarts(states: seq<Snapshot>, out: seq<Item>)
    requires HeapDrain(states, out)
    ensures |states| > 0
  {
  }

  /** For journals that do not grow, every drain delivers all frames, whatever the library does with equal
      keys, if and only if the rebuild it starts with finds one smallest head; and then every drain takes a
      smallest head every time. No later rebuild finds data. */
  lemma DrainsCompleteIff(js: seq<Journal>)
    requires |js| > 3 && AnyData(js)
    ensures EveryDrainComplete(js) <==> UniqueMinimum(js)
    ensures UniqueMinimum(js) ==> EveryDrainGreedy(js)
  {
    hide HeapDrain, AnyData, UniqueMinimum;
    if UniqueMinimum(js) {
      forall states, out | HeapDrain(states, out) && StartsAt(states, js)
        ensures Greedy(js, out, End(states)) && !AnyData(End(states))
      {
        CleanDrain(states, out);
      }
    } else {
      var s := Snapshot(js, multiset{}, Entry(0, 0), NO_JOURNAL, true);
      var states, out := TornDrainExists(s);
      DrainStarts(states, out);
      assert StartsAt(states, js);
    }
  }

  // ---------- Exactly when every drain is the linear one ----------

  ghost predicate EveryDrainLinear(js: seq<Journal>) {
    forall states, out :: HeapDrain(states, out) && StartsAt(states, js) ==> out == LinearRun(js)
  }

  /** The journals after the items were consumed. */
  function Consumed(js: seq<Journal>, out: seq<Item>): seq<Journal>
    decreases |out|
  {
    if out == [] then js
    else if out[0].index < |js| then Consumed(After(js, out[0].index), out[1..])
    else js
  }

  lemma {:induction false} DrainConsumes(states: seq<Snapshot>, out: seq<Item>)
    requires HeapDrain(states, out)
    ensures End(states) == Consumed(states[0].js, out)
    decreases |out|
  {
    hide HeapStep;
    if out == [] {
      StepKeepsCount(states[0], None, states[1]);
    } else {
      StepKeepsCount(states[0], Some(out[0]), states[1]);
      DrainTail(states, out);
      DrainConsumes(states[1..], out[1..]);
    }
  }

  lemma {:induction false} GreedyConsumes(js: seq<Journal>, out: seq<Item>, js': seq<Journal>)
    requires Greedy(js, out, js')
    ensures js' == Consumed(js, out)
    decreases |out|
  {
    hide MinHead;
    if out != [] {
      MinHasData(js, out[0].index);
      GreedyConsumes(After(js, out[0].index), out[1..], js');
    }
  }

  // From an aligned state a library can take any smallest head next, so it can follow any greedy merge.
  lemma {:induction false} FollowGreedy(s: Snapshot, out: seq<Item>, js': seq<Journal>)
    returns (states: seq<Snapshot>)
    requires |s.js| > 3 && Aligned(s) && !s.rebuild && Greedy(s.js, out, js') && !AnyData(js')
    requires out != [] && out[0].index == s.current
    ensures HeapDrain(states, out) && states[0] == s
    decreases |out|
  {
    hide HeapWithin, HeapCovers, MinHead, UniqueMinimum, AnyData, Rebuilt, Replaced, HeapStep;
    AlignedPositioned(s);
    Popped(s.js, s.heap, s.top);
    var js1 := After(s.js, s.current);
    var heap1 := Replaced(js1, s.current, s.heap, s.top);
    if heap1 == multiset{} {
      var s1 := Snapshot(js1, heap1, s.top, NO_JOURNAL, true);
      NothingToGo(js1, out[1..], js');
      states := LastStep(s, s1, out[0]);
    } else {
      HeapHasData(js1, heap1);
      var i := NextHead(js1, out[1..], js', heap1);
      var s1 := Snapshot(js1, heap1, HeadEntry(js1, i), i, false);
      LooksSame(s);
      StepBy(s, s, out[0], s1);
      var rest := FollowGreedy(s1, out[1..], js');
      DrainCons(s, out[0], rest, out[1..]);
      states := [s] + rest;
      assert [out[0]] + out[1..] == out;
    }
  }

  lemma LooksSame(s: Snapshot)
    requires !s.rebuild && 0 <= s.current < |s.js|
    ensures Looks(s, s)
  {
  }

  lemma NothingToGo(js: seq<Journal>, out: seq<Item>, js': seq<Journal>)
    requires Greedy(js, out, js') && !AnyData(js)
    ensures out == []
  {
  }

  lemma HeapHasData(js: seq<Journal>, heap: multiset<Entry>)
    requires HeapWithin(js, heap) && heap != multiset{}
    ensures AnyData(js)
  {
    var e :| e in heap;
    assert IsHead(js, e);
  }

  // The next item of a greedy merge is a possible top.
  lemma NextHead(js: seq<Journal>, out: seq<Item>, js': seq<Journal>, heap: multiset<Entry>) returns (i: nat)
    requires Greedy(js, out, js') && !AnyData(js') && AnyData(js)
    requires HeapWithin(js, heap) && HeapCovers(js, heap)
    ensures out != [] && i == out[0].index < |js| && HasData(js[i]) && MinEntry(heap, HeadEntry(js, i))
  {
    i := out[0].index;
    MinHasData(js, i);
    forall e | e in heap
      ensures Head(js[i]).time <= e.time
    {
      assert IsHead(js, e);
    }
  }

  lemma LastStep(s: Snapshot, s1: Snapshot, item: Item) returns (states: seq<Snapshot>)
    requires |s.js| > 3 && !s.rebuild && Positioned(s) && item == Item(s.current, Head(s.js[s.current])) && Moves(s, s1)
    requires s1.rebuild && s1.current == NO_JOURNAL && !AnyData(s1.js)
    ensures HeapDrain(states, [item]) && states[0] == s
  {
    LooksSame(s);
    StepBy(s, s, item, s1);
    assert Looks(s1, s1) && Takes(s1, None, s1);
    assert HeapStep(s1, None, s1);
    states := [s, s1, s1];
  }

  lemma FollowFromRebuild(js: seq<Journal>, out: seq<Item>, js': seq<Journal>) returns (states: seq<Snapshot>)
    requires |js| > 3 && AnyData(js) && Greedy(js, out, js') && !AnyData(js')
    ensures HeapDrain(states, out) && StartsAt(states, js)
  {
    hide HeapDrain, HeapStep, AnyData, UniqueMinimum, MinHead;
    var s := Snapshot(js, multiset{}, Entry(0, 0), NO_JOURNAL, true);
    var heap := Heads(js, |js|);
    FirstItem(js, out, js');
    var i := out[0].index;
    RebuildCanPick(js, i, i);
    var m := Snapshot(js, heap, HeadEntry(js, i), i, false);
    var rest := FollowGreedy(m, out, js');
    states := StartOver(s, m, rest, out);
    DrainStarts(states, out);
  }

  lemma FirstItem(js: seq<Journal>, out: seq<Item>, js': seq<Journal>)
    requires AnyData(js) && Greedy(js, out, js') && !AnyData(js')
    ensures out != [] && MinHead(js, out[0].index) && out[0].frame == Head(js[out[0].index])
  {
  }

  // A drain from the rebuilt state is one from the state before the rebuild.
  lemma StartOver(s: Snapshot, m: Snapshot, rest: seq<Snapshot>, out: seq<Item>) returns (states: seq<Snapshot>)
    requires s.rebuild && Looks(s, m) && m.js == s.js && !m.rebuild && Positioned(m)
    requires HeapDrain(rest, out) && rest[0] == m && out != []
    ensures HeapDrain(states, out) && states[0] == s
  {
    hide Rebuilt, Updated;
    assert HeapStep(m, Some(out[0]), rest[1]);
    assert Takes(m, Some(out[0]), rest[1]) by {
      var n :| Looks(m, n) && Takes(n, Some(out[0]), rest[1]);
      assert n == m;
    }
    assert HeapStep(s, Some(out[0]), rest[1]);
    states := [s] + rest[1..];
    hide HeapStep;
    forall k | 0 <= k < |out|
      ensures HeapStep(states[k], Some(out[k]), states[k + 1])
    {
      if k > 0 {
        assert states[k] == rest[k] && states[k + 1] == rest[k + 1];
      }
    }
  }

  /** For journals that do not grow, every drain picks the same frame of the same journal as the linear scan
      throughout, whatever the library does with equal keys, if and only if the scan never meets two smallest
      heads: a tie at the rebuild can strand a journal, and at a later one the library can choose. */
  lemma DrainsLinearIff(js: seq<Journal>)
    requires |js| > 3
    ensures EveryDrainLinear(js) <==> NoTies(js)
  {
    hide HeapDrain, HeapStep, UniqueMinimum, MinHead, FirstMinHead;
    if NoTies(js) {
      forall states, out | HeapDrain(states, out) && StartsAt(states, js)
        ensures out == LinearRun(js)
      {
        if AnyData(js) {
          NoTiesUnique(js);
        } else {
          CleanStart(states[0]);
        }
        CleanDrain(states, out);
        OnlyOneMerge(js, out, End(states));
      }
    } else {
      SomeData(js);
      if UniqueMinimum(js) {
        var out, js' := AnotherMerge(js);
        var states := FollowFromRebuild(js, out, js');
      } else {
        var s := Snapshot(js, multiset{}, Entry(0, 0), NO_JOURNAL, true);
        var states, out := TornDrainExists(s);
        DrainStarts(states, out);
        DrainConsumes(states, out);
        var js' := LinearIsGreedy(js);
        GreedyConsumes(js, LinearRun(js), js');
        assert StartsAt(states, js);
      }
    }
  }

  lemma NoTiesUnique(js: seq<Journal>)
    requires NoTies(js) && AnyData(js)
    ensures UniqueMinimum(js)
  {
  }

  lemma CleanStart(s: Snapshot)
    requires s.rebuild && !AnyData(s.js)
    ensures Aligned(s)
  {
  }

  lemma SomeData(js: seq<Journal>)
    requires !NoTies(js)
    ensures AnyData(js)
  {
  }

  // ---------- The linear scan and the largest timestamp ----------

  // Deliveries of the linear scan: the first smallest head, which is below the largest time.
  predicate LinearSteps(js: seq<Journal>, out: seq<Item>, js': seq<Journal>)
    decreases |out|
  {
    if out == [] then js' == js
    else
      && FirstMinHead(js, out[0].index) && out[0].frame == Head(js[out[0].index]) && out[0].frame.time < MAX_TIME
      && LinearSteps(After(js, out[0].index), out[1..], js')
  }

  lemma {:induction false} LinearAppend(js: seq<Journal>, out: seq<Item>, mid: seq<Journal>, it: Item)
    requires LinearSteps(js, out, mid) && FirstMinHead(mid, it.index) && it.frame == Head(mid[it.index])
    requires it.frame.time < MAX_TIME
    ensures LinearSteps(js, out + [it], After(mid, it.index))
    decreases |out|
  {
    hide FirstMinHead;
    if out == [] {
      FirstHasData(js, it.index);
      assert LinearSteps(After(js, it.index), [it][1..], After(mid, it.index));
    } else {
      FirstHasData(js, out[0].index);
      LinearAppend(After(js, out[0].index), out[1..], mid, it);
      assert (out + [it])[1..] == out[1..] + [it];
    }
  }

  lemma FirstHasData(js: seq<Journal>, i: nat)
    requires FirstMinHead(js, i)
    ensures i < |js| && HasData(js[i])
  {
  }

  predicate UnreadBelowMax(js: seq<Journal>) {
    forall i, n :: 0 <= i < |js| && js[i].pos <= n < |js[i].frames| ==> js[i].frames[n].time < MAX_TIME
  }

  lemma UnreadStep(js: seq<Journal>, i: nat)
    requires i < |js| && HasData(js[i]) && Head(js[i]).time < MAX_TIME
    ensures UnreadBelowMax(js) <==> UnreadBelowMax(After(js, i))
  {
    var js' := After(js, i);
    if UnreadBelowMax(js') {
      forall k, n | 0 <= k < |js| && js[k].pos <= n < |js[k].frames|
        ensures js[k].frames[n].time < MAX_TIME
      {
        assert js'[k].frames == js[k].frames;
        assert k == i && n == js[i].pos ==> js[k].frames[n] == Head(js[i]);
      }
    }
    if UnreadBelowMax(js) {
      assert forall k :: 0 <= k < |js| ==> js'[k].frames == js[k].frames && js'[k].pos >= js[k].pos;
    }
  }

  lemma StoppedIff(js: seq<Journal>)
    requires !SomeBelowMax(js)
    ensures !AnyData(js) <==> UnreadBelowMax(js)
  {
    if AnyData(js) {
      var i :| 0 <= i < |js| && HasData(js[i]);
      assert js[i].frames[js[i].pos].time >= MAX_TIME;
    } else {
      assert forall i :: 0 <= i < |js| ==> !HasData(js[i]);
    }
  }

  /** A drain by the linear scan delivers everything if and only if no unread frame is stamped with the largest
      time: isDataAvailable answers no at such a head, although it is data. */
  lemma {:induction false} LinearCompleteIff(js: seq<Journal>, out: seq<Item>, js': seq<Journal>)
    requires LinearSteps(js, out, js') && !SomeBelowMax(js')
    ensures !AnyData(js') <==> UnreadBelowMax(js)
    decreases |out|
  {
    hide FirstMinHead;
    if out == [] {
      StoppedIff(js);
    } else {
      hide UnreadBelowMax;
      FirstHasData(js, out[0].index);
      UnreadStep(js, out[0].index);
      LinearCompleteIff(After(js, out[0].index), out[1..], js');
    }
  }

  // ---------- The reader itself ----------

  ghost predicate Steps(states: seq<Snapshot>, out: seq<Item>) {
    && |states| == |out| + 1
    && forall k :: 0 <= k < |out| ==> HeapStep(states[k], Some(out[k]), states[k + 1])
  }

  lemma StepsAppend(states: seq<Snapshot>, out: seq<Item>, item: Item, s: Snapshot)
    requires Steps(states, out) && HeapStep(states[|out|], Some(item), s)
    ensures Steps(states + [s], out + [item])
  {
    hide HeapStep;
  }

  lemma StepsEnd(states: seq<Snapshot>, out: seq<Item>, s: Snapshot)
    requires Steps(states, out) && |states[0].js| > 3 && HeapStep(states[|out|], None, s)
    ensures HeapDrain(states + [s], out) && End(states + [s]) == s.js && (states + [s])[0] == states[0]
  {
    hide HeapStep;
  }

  /** Calling nextStatic until it delivers nothing is a drain of the kind the theorems are about, with no
      assumption on ties or timestamps. */
  method Exhaust(r: Reader) returns (out: seq<Item>, ghost states: seq<Snapshot>)
    requires r.Valid() && r.needsRebuild && |r.journals| > 1
    modifies r
    ensures old(r.UsesHeap()) ==>
      HeapDrain(states, out) && StartsAt(states, old(r.journals)) && End(states) == r.journals
    ensures !old(r.UsesHeap()) ==> LinearSteps(old(r.journals), out, r.journals) && !SomeBelowMax(r.journals)
  {
    hide HeapStep, FirstMinHead, SomeBelowMax, LinearSteps, HeapDrain;
    out, states := [], [r.Now()];
    ghost var js := r.journals;
    var more := true;
    NoSteps(js);
    while more
      invariant r.Valid() && |r.journals| == |js| && r.useHeap == old(r.useHeap)
      invariant |states| > 0 && states[0] == old(r.Now())
      invariant r.UsesHeap() ==> if more then Steps(states, out) && states[|out|] == r.Now()
                                 else HeapDrain(states, out) && End(states) == r.journals
      invariant !r.UsesHeap() ==>
        && LinearSteps(js, out, r.journals) && r.needsRebuild
        && (more || !SomeBelowMax(r.journals))
      decreases more, Remaining(r.journals)
    {
      ghost var before := r.journals;
      var next := r.NextStatic();
      match next
      case None =>
        more := false;
        if r.UsesHeap() {
          StepsEnd(states, out, r.Now());
        }
        states := states + [r.Now()];
      case Some(it) =>
        RemainingDrops(before, it.index);
        if r.UsesHeap() {
          StepsAppend(states, out, it, r.Now());
        } else {
          LinearAppend(js, out, before, it);
        }
        states := states + [r.Now()];
        out := out + [it];
    }
  }

  lemma NoSteps(js: seq<Journal>)
    ensures LinearSteps(js, [], js)
  {
  }
}
