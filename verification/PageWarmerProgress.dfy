/** A page that is ready is found, and the warmer makes the pages ahead ready. */
module PageWarmerProgress {
  import opened Layout
  import opened PageWarmer
  import opened PageWarmerSafety
  import opened PageWarmerTheorems

  // ---------- The scan finds a ready page ----------

  // The wanted page sits in slot t, o looks from where the scan began, and that look is still to come.
  ghost predicate Ahead(g: Ring, s: State, t: nat, o: nat)
    requires g.capacity > 0
  {
    && s.writer.Scanning? && s.writer.i <= o < g.capacity && (s.writer.start + o) % g.capacity == t
    && t < |s.slots| && s.slots[t].pageId == s.current + 1
  }

  predicate Answered(s: State) {
    s.writer.Claimed? || s.writer.AddressRead? || s.writer.Warmed?
  }

  ghost predicate WillFind(g: Ring, s: State, t: nat, o: nat)
    requires g.capacity > 0
  {
    Ahead(g, s, t, o) || Answered(s)
  }

  // Only the writer takes the wanted page out of the ring.
  lemma WarmerLeavesWanted(g: Ring, s: State, step: Step, s': State, t: nat)
    requires SlotsOK(g, s) && PassOK(g, s) && Next(g, s, step, s') && s.warmer != Gone
    requires step == LoadCurrent || step == LookInRing || step == SwapSlot || step == FillSlot || step == EndPass
             || step == CleanSlot || step == EndCleaning
    requires t < |s.slots| && s.slots[t].pageId == s.current + 1
    ensures |s'.slots| == |s.slots| && s'.slots[t].pageId == s.current + 1
    ensures s'.writer == s.writer && s'.current == s.current
  {
    hide InRing, PassedOver;
  }

  lemma StillFinds(g: Ring, s: State, step: Step, s': State, t: nat, o: nat)
    requires Inv(g, s) && g.capacity > 0 && |s.slots| == g.capacity && Next(g, s, step, s') && WillFind(g, s, t, o)
    requires s'.writer != Writing
    ensures WillFind(g, s', t, o) && s'.current == s.current
  {
    hide LaterFillsStay, NoGaps, PassOK, Conserved, DistinctPages, OwnedAddresses, ClaimOK, OwnOK, SlotsOK;
    match step
    case PassSlot =>
    case LoadCurrent | LookInRing | SwapSlot | FillSlot | EndPass | CleanSlot | EndCleaning =>
      if Ahead(g, s, t, o) {
        WarmerLeavesWanted(g, s, step, s', t);
      }
    case _ =>
  }

  // Some look of the scan is at slot t.
  lemma OffsetOf(start: nat, t: nat, n: nat) returns (o: nat)
    requires t < n && start < n
    ensures o < n && (start + o) % n == t
  {
    o := if start <= t then t - start else t + n - start;
    if start > t {
      RemainderIsUnique(start + o, n, 1, t);
    } else {
      RemainderIsUnique(start + o, n, 0, t);
    }
  }

  lemma ScanStart(g: Ring, run: seq<State>, steps: seq<Step>, n: nat)
    requires Run(g, run, steps) && n < |run| && run[n].writer.Scanning?
    ensures run[n].writer.start < g.capacity
    decreases n
  {
    hide Init;
    if n > 0 {
      var s := run[n - 1];
      assert Next(g, s, steps[n - 1], run[n]);
      if s.writer.Scanning? {
        ScanStart(g, run, steps, n - 1);
      }
      SameScan(g, s, steps[n - 1], run[n]);
    } else {
      NoScanYet(g, run[0]);
    }
  }

  lemma NoScanYet(g: Ring, s: State)
    requires Init(g, s)
    ensures s.writer == Writing
  {
  }

  lemma SameScan(g: Ring, s: State, step: Step, s': State)
    requires g.capacity > 0 && |s.slots| == g.capacity && Next(g, s, step, s') && s'.writer.Scanning?
    ensures if s.writer.Scanning? then s'.writer.start == s.writer.start else s'.writer.start < g.capacity
  {
    hide InRing;
  }

  lemma {:induction false} FindsFrom(g: Ring, run: seq<State>, steps: seq<Step>, m: nat, n: nat, t: nat, o: nat)
    requires Run(g, run, steps) && m <= n < |run| && WillFind(g, run[m], t, o)
    requires forall k :: m <= k <= n ==> run[k].writer != Writing
    ensures WillFind(g, run[n], t, o) && run[n].current == run[m].current
    decreases n
  {
    hide Inv, Next, WillFind;
    if m < n {
      FindsFrom(g, run, steps, m, n - 1, t, o);
      RunKeeps(g, run, steps, n - 1);
      StillFinds(g, run[n - 1], steps[n - 1], run[n], t, o);
    }
  }

  /** A page that is ready when it is asked for is never missed: no later state of that request is a miss, whatever
      slot the page is in, wherever the search starts and whatever the warmer does meanwhile. */
  lemma ReadyPageIsFound(g: Ring, run: seq<State>, steps: seq<Step>, m: nat, n: nat)
    requires Run(g, run, steps) && m <= n < |run|
    requires run[m].writer.Scanning? && run[m].writer.i == 0 && InRing(run[m], run[m].current + 1)
    requires forall k :: m <= k <= n ==> run[k].writer != Writing
    ensures run[n].writer != Missed && run[n].current == run[m].current
  {
    var s := run[m];
    RunKeeps(g, run, steps, m);
    ScanStart(g, run, steps, m);
    var t :| 0 <= t < |s.slots| && s.slots[t].pageId == s.current + 1;
    var o := OffsetOf(s.writer.start, t, g.capacity);
    assert Ahead(g, s, t, o);
    FindsFrom(g, run, steps, m, n, t, o);
  }

  // ---------- Extending a run ----------

  ghost predicate Longer(g: Ring, run: seq<State>, steps: seq<Step>, run': seq<State>, steps': seq<Step>) {
    0 < |run| <= |run'| && Run(g, run', steps') && run <= run' && steps <= steps'
  }

  function Last(run: seq<State>): State
    requires |run| > 0
  {
    run[|run| - 1]
  }

  lemma Extend(g: Ring, run: seq<State>, steps: seq<Step>, step: Step, s': State)
    requires |run| > 0 && Run(g, run, steps) && g.capacity > 0 && |Last(run).slots| == g.capacity
    requires Next(g, Last(run), step, s')
    ensures Longer(g, run, steps, run + [s'], steps + [step]) && Last(run + [s']) == s'
  {
    hide Next, Init;
    var run', steps' := run + [s'], steps + [step];
    forall i | 0 <= i < |steps'|
      ensures |run'[i].slots| == g.capacity && Next(g, run'[i], steps'[i], run'[i + 1])
    {
      if i < |steps| {
        assert run'[i] == run[i] && run'[i + 1] == run[i + 1] && steps'[i] == steps[i];
      }
    }
  }

  lemma LastInv(g: Ring, run: seq<State>, steps: seq<Step>)
    requires |run| > 0 && Run(g, run, steps)
    ensures Inv(g, Last(run)) && g.capacity > 0 && |Last(run).slots| == g.capacity && Last(run).current >= 0
  {
    RunKeeps(g, run, steps, |run| - 1);
  }

  // ---------- The writer on its own ----------

  // Look o of the scan meets the wanted page.
  predicate HasWanted(g: Ring, s: State, o: nat)
    requires s.writer.Scanning? && g.capacity > 0 && |s.slots| == g.capacity
  {
    s.slots[(s.writer.start + o) % g.capacity].pageId == s.current + 1
  }

  lemma WantedLook(g: Ring, s: State) returns (o: nat)
    requires s.writer.Scanning? && s.writer.start < g.capacity && |s.slots| == g.capacity
    requires InRing(s, s.current + 1)
    ensures o < g.capacity && HasWanted(g, s, o)
  {
    var t :| 0 <= t < |s.slots| && s.slots[t].pageId == s.current + 1;
    o := OffsetOf(s.writer.start, t, g.capacity);
  }

  // getWarmedPage from look i on, up to the swap or the end of the ring.
  lemma {:induction false} ScanEnds(g: Ring, run: seq<State>, steps: seq<Step>)
    returns (run': seq<State>, steps': seq<Step>)
    requires |run| > 0 && Run(g, run, steps)
    requires Last(run).writer.Scanning? && Last(run).writer.i <= g.capacity
    ensures Longer(g, run, steps, run', steps')
    ensures var s, s' := Last(run), Last(run');
            && s'.current == s.current && |s'.slots| == |s.slots| == g.capacity && s'.warmer == s.warmer
            && (if s'.writer.Claimed? then
                  s'.writer.slot < |s.slots| && s.slots[s'.writer.slot].pageId == s.current + 1
                  && s'.slots[s'.writer.slot].address == s.slots[s'.writer.slot].address
                else
                  && s'.writer == Missed
                  && forall o :: s.writer.i <= o < g.capacity ==> !HasWanted(g, s, o))
    decreases g.capacity - Last(run).writer.i
  {
    hide Run, Inv;
    LastInv(g, run, steps);
    var s := Last(run);
    if s.writer.i == g.capacity {
      var u := s.(writer := Missed);
      Extend(g, run, steps, Miss, u);
      run', steps' := run + [u], steps + [Miss];
    } else {
      var t := Looked(g, s.writer);
      if s.slots[t].pageId == s.current + 1 {
        var u := s.(slots := s.slots[t := s.slots[t].(pageId := EMPTY)], writer := Claimed(t));
        Extend(g, run, steps, ClaimSlot(t), u);
        run', steps' := run + [u], steps + [ClaimSlot(t)];
      } else {
        var u := s.(writer := Scanning(s.writer.start, s.writer.i + 1));
        Extend(g, run, steps, PassSlot, u);
        assert forall o: nat :: HasWanted(g, u, o) == HasWanted(g, s, o);
        run', steps' := ScanEnds(g, run + [u], steps + [PassSlot]);
      }
    }
  }

  lemma ClaimEnds(g: Ring, run: seq<State>, steps: seq<Step>)
    returns (run': seq<State>, steps': seq<Step>)
    requires |run| > 0 && Run(g, run, steps) && Last(run).writer.Claimed? && Last(run).warmer != Gone
    ensures Longer(g, run, steps, run', steps') && Last(run).writer.slot < |Last(run).slots|
    ensures Last(run').writer == Warmed(Last(run).slots[Last(run).writer.slot].address)
    ensures Last(run').current == Last(run).current
  {
    hide Run, Inv;
    LastInv(g, run, steps);
    var s := Last(run);
    ClaimInRing(g, s);
    var u := s.(writer := AddressRead(s.writer.slot, s.slots[s.writer.slot].address));
    Extend(g, run, steps, ReadAddress, u);
    var t := u.writer.slot;
    var v := u.(slots := u.slots[t := u.slots[t].(owned := false)], writer := Warmed(u.writer.address),
                taken := u.taken + [u.writer.address]);
    Extend(g, run + [u], steps + [ReadAddress], ClearOwned, v);
    run', steps' := run + [u] + [v], steps + [ReadAddress] + [ClearOwned];
  }

  lemma ClaimInRing(g: Ring, s: State)
    requires Inv(g, s) && s.writer.Claimed? && s.warmer != Gone
    ensures s.writer.slot < |s.slots|
  {
  }

  /** A writer that asks for the next page and is run on alone gets the mapping of the slot that holds it if the page
      is ready, from wherever the search starts, and a miss otherwise. */
  lemma WriterGetsReadyPage(g: Ring, run: seq<State>, steps: seq<Step>, start: nat)
    returns (run': seq<State>, steps': seq<Step>)
    requires |run| > 0 && Run(g, run, steps) && start < g.capacity
    requires Last(run).writer == Writing && Last(run).warmer != Gone
    ensures Longer(g, run, steps, run', steps') && Last(run').current == Last(run).current
    ensures var s, w := Last(run), Last(run').writer;
            if InRing(s, s.current + 1) then
              w.Warmed? && exists t :: 0 <= t < |s.slots| && s.slots[t].pageId == s.current + 1
                                       && s.slots[t].address == w.address
            else w == Missed
  {
    hide Run, Inv;
    LastInv(g, run, steps);
    var s := Last(run);
    var u := s.(writer := Scanning(start, 0));
    Extend(g, run, steps, Request(start), u);
    var run1, steps1 := ScanEnds(g, run + [u], steps + [Request(start)]);
    var v := Last(run1);
    if v.writer.Claimed? {
      var t := v.writer.slot;
      assert s.slots[t].pageId == s.current + 1;
      run', steps' := ClaimEnds(g, run1, steps1);
    } else {
      run', steps' := run1, steps1;
      if InRing(s, s.current + 1) {
        var o := WantedLook(g, u);
      }
    }
  }

  // ---------- The warmer on its own ----------

  // No slot holds a page that will not be asked for again.
  ghost predicate NoStale(s: State) {
    forall t :: 0 <= t < |s.slots| ==> s.slots[t].pageId < 0 || s.slots[t].pageId > s.current
  }

  // The pages from current + 1 on, before the i-th, are ready.
  ghost predicate ReadyBefore(s: State, i: nat) {
    forall z :: s.current < z < s.current + i ==> InRing(s, z)
  }

  ghost predicate NoneOld(g: Ring, s: State, j: nat) {
    forall t :: 0 <= t < j && t < |s.slots| ==> !(0 <= s.slots[t].pageId < s.current - g.capacity)
  }

  predicate AtRest(s: State) {
    s.writer == Writing || s.writer.Scanning?
  }

  ghost predicate OnlyWarmer(s: State, s': State) {
    s'.writer == s.writer && s'.current == s.current && (NoStale(s) ==> NoStale(s'))
  }

  // One page of a pass: found in the ring, or put into the next slot.
  lemma PassOne(g: Ring, run: seq<State>, steps: seq<Step>)
    returns (run': seq<State>, steps': seq<Step>)
    requires |run| > 0 && Run(g, run, steps) && AtRest(Last(run))
    requires var s := Last(run); s.warmer.Passing? && s.warmer.local == s.current && s.warmer.i <= g.distance
    ensures Longer(g, run, steps, run', steps')
    ensures var s, s' := Last(run), Last(run');
            && OnlyWarmer(s, s') && s'.warmer == Passing(s.current, s.warmer.i + 1)
            && (NoStale(s) && ReadyBefore(s, s.warmer.i) ==> ReadyBefore(s', s.warmer.i + 1))
  {
    hide Run, Inv, InRing, NoStale, ReadyBefore;
    LastInv(g, run, steps);
    var s := Last(run);
    var i := s.warmer.i;
    PassBounds(g, s);
    if InRing(s, s.current + i) {
      var u := s.(warmer := Passing(s.current, i + 1));
      Extend(g, run, steps, LookInRing, u);
      run', steps' := run + [u], steps + [LookInRing];
      SameReady(s, u, i);
    } else {
      var u := s.(warmer := Swapping(s.current, i));
      Extend(g, run, steps, LookInRing, u);
      var run1, steps1 := run + [u], steps + [LookInRing];
      LastInv(g, run1, steps1);
      SwapFindsNoClaim(g, u);
      var t := NextSlot(g, u);
      if u.slots[t].pageId == EMPTY {
        var v := u.(slots := u.slots[t := u.slots[t].(pageId := WARMING)], warmer := Filling(s.current, i));
        Extend(g, run1, steps1, SwapSlot, v);
        var x := v.(slots := v.slots[t := Slot(s.current + i, v.next, true, v.fills + 1)], fills := v.fills + 1,
                    warmer := Passing(s.current, i + 1), pageOf := v.pageOf[v.next := s.current + i],
                    next := v.next + 1);
        Extend(g, run1 + [v], steps1 + [SwapSlot], FillSlot, x);
        run', steps' := run1 + [v] + [x], steps1 + [SwapSlot] + [FillSlot];
        FilledReady(s, x, t, i);
      } else {
        var v := u.(warmer := Passing(s.current, i + 1));
        Extend(g, run1, steps1, SwapSlot, v);
        run', steps' := run1 + [v], steps1 + [SwapSlot];
        StaleBlocks(g, s);
        SameReady(s, v, i);
      }
    }
  }

  lemma PassBounds(g: Ring, s: State)
    requires Inv(g, s) && s.warmer.Passing?
    ensures s.warmer.i >= 1
  {
  }

  lemma SameReady(s: State, s': State, i: nat)
    requires s'.slots == s.slots && s'.current == s.current
    ensures NoStale(s) == NoStale(s')
    ensures ReadyBefore(s, i) && InRing(s, s.current + i) ==> ReadyBefore(s', i + 1)
  {
    forall z
      ensures InRing(s, z) == InRing(s', z)
    {
    }
    hide InRing;
  }

  lemma FilledReady(s: State, s': State, t: nat, i: nat)
    requires t < |s.slots| && s.slots[t].pageId == EMPTY && i >= 1 && s.current >= 0
    requires |s'.slots| == |s.slots| && s'.slots == s.slots[t := s'.slots[t]] && s'.slots[t].pageId == s.current + i
    requires s'.current == s.current
    ensures NoStale(s) ==> NoStale(s')
    ensures ReadyBefore(s, i) ==> ReadyBefore(s', i + 1)
  {
    if ReadyBefore(s, i) {
      forall z | s.current < z < s.current + i + 1
        ensures InRing(s', z)
      {
        if z < s.current + i {
          assert InRing(s, z);
          var v :| 0 <= v < |s.slots| && s.slots[v].pageId == z;
          assert s'.slots[v].pageId == z;
        } else {
          assert s'.slots[t].pageId == z;
        }
      }
    }
  }

  // A slot that blocks the warmer holds a stale page.
  lemma StaleBlocks(g: Ring, s: State)
    requires g.capacity > 0 && |s.slots| == g.capacity && AtRest(s) && Blocked(g, s)
    ensures !NoStale(s)
  {
  }

  lemma {:induction false} PassEnds(g: Ring, run: seq<State>, steps: seq<Step>)
    returns (run': seq<State>, steps': seq<Step>)
    requires |run| > 0 && Run(g, run, steps) && AtRest(Last(run))
    requires var s := Last(run);
             s.warmer.Passing? && s.warmer.local == s.current && s.warmer.i <= g.distance + 1
    ensures Longer(g, run, steps, run', steps')
    ensures var s, s' := Last(run), Last(run');
            && OnlyWarmer(s, s') && s'.warmer == Passing(s.current, g.distance + 1)
            && (NoStale(s) && ReadyBefore(s, s.warmer.i) ==> ReadyBefore(s', g.distance + 1))
    decreases g.distance + 1 - Last(run).warmer.i
  {
    hide Run, Inv, NoStale, ReadyBefore;
    if Last(run).warmer.i == g.distance + 1 {
      run', steps' := run, steps;
    } else {
      var run1, steps1 := PassOne(g, run, steps);
      run', steps' := PassEnds(g, run1, steps1);
    }
  }

  lemma {:induction false} CleaningEnds(g: Ring, run: seq<State>, steps: seq<Step>)
    returns (run': seq<State>, steps': seq<Step>)
    requires |run| > 0 && Run(g, run, steps) && AtRest(Last(run))
    requires var s := Last(run);
             s.warmer.Cleaning? && s.warmer.local == s.current && s.warmer.j <= g.capacity
             && NoneOld(g, s, s.warmer.j)
    ensures Longer(g, run, steps, run', steps')
    ensures var s, s' := Last(run), Last(run');
            && OnlyWarmer(s, s') && s'.warmer == Top && NoneOld(g, s', g.capacity)
            && (ReadyBefore(s, g.distance + 1) ==> ReadyBefore(s', g.distance + 1))
    decreases g.capacity - Last(run).warmer.j
  {
    hide Run, Inv, NoStale, ReadyBefore, OwnedAddresses;
    LastInv(g, run, steps);
    var s := Last(run);
    var j := s.warmer.j;
    if j == g.capacity {
      var u := s.(warmer := Top);
      Extend(g, run, steps, EndCleaning, u);
      run', steps' := run + [u], steps + [EndCleaning];
      KeptReady(g, s, u);
    } else {
      var slot := s.slots[j];
      var u := if 0 <= slot.pageId < s.current - g.capacity
               then s.(slots := s.slots[j := Freed(slot)], warmer := Cleaning(s.current, j + 1),
                       released := s.released + OwnedAddresses([slot]))
               else s.(warmer := Cleaning(s.current, j + 1));
      Extend(g, run, steps, CleanSlot, u);
      KeptReady(g, s, u);
      run', steps' := CleaningEnds(g, run + [u], steps + [CleanSlot]);
    }
  }

  lemma KeptReady(g: Ring, s: State, s': State)
    requires s'.current == s.current >= 0 && |s'.slots| == |s.slots|
    requires forall t :: 0 <= t < |s.slots| ==>
               s'.slots[t] == s.slots[t] || (s'.slots[t].pageId < 0 && s.slots[t].pageId < s.current)
    ensures NoStale(s) ==> NoStale(s')
    ensures ReadyBefore(s, g.distance + 1) ==> ReadyBefore(s', g.distance + 1)
  {
    if ReadyBefore(s, g.distance + 1) {
      forall z | s.current < z < s.current + (g.distance + 1)
        ensures InRing(s', z)
      {
        assert InRing(s, z);
        var v :| 0 <= v < |s.slots| && s.slots[v].pageId == z;
        assert s'.slots[v].pageId == z;
      }
    }
  }

  /** One turn of the warmer's loop, run on alone: afterwards no slot holds a page more than the ring's size behind,
      and, if no slot held a page that was passed already, every page within the distance is ready. */
  lemma WarmerMakesReady(g: Ring, run: seq<State>, steps: seq<Step>)
    returns (run': seq<State>, steps': seq<Step>)
    requires |run| > 0 && Run(g, run, steps) && AtRest(Last(run)) && Last(run).warmer == Top
    ensures Longer(g, run, steps, run', steps')
    ensures var s, s' := Last(run), Last(run');
            && s'.warmer == Top && s'.writer == s.writer && s'.current == s.current
            && (forall t :: 0 <= t < |s'.slots| ==> !(0 <= s'.slots[t].pageId < s.current - g.capacity))
            && (NoStale(s) ==> forall z :: s.current < z <= s.current + g.distance ==> InRing(s', z))
  {
    hide Run, Inv, NoStale, InRing;
    LastInv(g, run, steps);
    var s := Last(run);
    var u := s.(warmer := Passing(s.current, 1));
    Extend(g, run, steps, LoadCurrent, u);
    SameStale(s, u);
    var run1, steps1 := PassEnds(g, run + [u], steps + [LoadCurrent]);
    LastInv(g, run1, steps1);
    var v := Last(run1);
    var x := v.(warmer := Cleaning(v.current, 0));
    Extend(g, run1, steps1, EndPass, x);
    SameStale(v, x);
    KeptReadySame(g, v, x);
    run', steps' := CleaningEnds(g, run1 + [x], steps1 + [EndPass]);
    LastInv(g, run', steps');
  }

  lemma SameStale(s: State, s': State)
    requires s'.slots == s.slots && s'.current == s.current
    ensures NoStale(s) == NoStale(s')
  {
  }

  lemma KeptReadySame(g: Ring, s: State, s': State)
    requires s'.slots == s.slots && s'.current == s.current
    ensures ReadyBefore(s, g.distance + 1) ==> ReadyBefore(s', g.distance + 1)
  {
    forall z
      ensures InRing(s, z) == InRing(s', z)
    {
    }
    hide InRing;
  }
}
