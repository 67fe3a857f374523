/** Every step keeps the ring's invariant, and what that means for the writer and for the mappings. */
module PageWarmerTheorems {
  import opened Layout
  import opened Counting
  import opened PageWarmer
  import opened PageWarmerSafety

  // ---------- The warmer's steps ----------

  // Steps that change neither a slot nor the mappings.
  lemma WarmerMoves(g: Ring, s: State, s': State)
    requires Inv(g, s) && s.warmer != Gone && !s.warmer.Filling?
    requires !s'.warmer.Filling? && s'.warmer != Gone && s' == s.(warmer := s'.warmer)
    requires PassOK(g, s')
    ensures Inv(g, s')
  {
    hide LaterFillsStay, NoGaps, PassOK, Conserved, DistinctPages, OwnedAddresses, ClaimOK, OwnOK, Guarded,
      GuardedPage;
    assert SlotsOK(g, s');
    StillOwned(g, s, s');
    FillsMono(g, s, s') by { SameGuards(s, s'); }
    GapsMono(s, s');
    DistinctFrame(s, s');
  }

  lemma SameGuards(s: State, s': State)
    requires s' == s.(warmer := s'.warmer)
    ensures forall t :: 0 <= t < |s.slots| && Guarded(s', t) ==>
              Guarded(s, t) && GuardedPage(s, t) == GuardedPage(s', t)
  {
  }

  lemma StillOwned(g: Ring, s: State, s': State)
    requires s' == s.(warmer := s'.warmer) && s.warmer != Gone && s'.warmer != Gone
    requires ClaimOK(s) && OwnOK(s) && Conserved(s)
    ensures ClaimOK(s') && OwnOK(s') && Conserved(s')
  {
  }

  lemma LookPass(g: Ring, s: State, s': State)
    requires Inv(g, s) && Next(g, s, LookInRing, s')
    ensures PassOK(g, s')
  {
    hide LaterFillsStay, NoGaps, Conserved, DistinctPages, OwnedAddresses, ClaimOK, OwnOK;
    var local, i := s.warmer.local, s.warmer.i;
    InRingSame(s, s', local + i);
    if PassedOver(s, local, i) {
      forall z | local < z < local + i + (if InRing(s, local + i) then 1 else 0) && z > Done(s')
        ensures InRing(s', z)
      {
        assert z < local + i ==> InRing(s, z);
        InRingSame(s, s', z);
      }
    }
  }

  lemma WalkKeeps(g: Ring, s: State, step: Step, s': State)
    requires Inv(g, s) && Next(g, s, step, s') && s.warmer != Gone
    requires step == LoadCurrent || step == LookInRing || step == EndPass || step == EndCleaning
    ensures Inv(g, s')
  {
    hide LaterFillsStay, NoGaps, Conserved, DistinctPages, OwnedAddresses, ClaimOK, OwnOK;
    if step == LookInRing {
      LookPass(g, s, s');
    }
    WarmerMoves(g, s, s');
  }

  /** The next slot, when free, is not the one the writer is claiming, and when not free holds a page
      that will not be requested again. */
  lemma SwapFindsNoClaim(g: Ring, s: State)
    requires Inv(g, s) && s.warmer.Swapping?
    ensures var t := NextSlot(g, s);
            if s.slots[t].pageId == EMPTY then !BeingClaimed(s, t) else Blocked(g, s)
  {
    hide LaterFillsStay, NoGaps, Conserved, DistinctPages, OwnedAddresses, OwnOK;
    var t, local, i := NextSlot(g, s), s.warmer.local, s.warmer.i;
    if Guarded(s, t) {
      FullTurn(g, s, t, s.current + g.distance);
      assert local == s.current;
      FullTurn(g, s, t, local + i);
      assert false;
    }
  }

  lemma SwapKeepsLater(g: Ring, s: State, s': State)
    requires SlotsOK(g, s) && s.warmer.Swapping? && Next(g, s, SwapSlot, s') && LaterFillsStay(g, s)
    requires s.slots[NextSlot(g, s)].pageId == EMPTY && !BeingClaimed(s, NextSlot(g, s))
    ensures |s'.slots| == g.capacity && LaterFillsStay(g, s')
  {
    forall u, w | 0 <= u < |s'.slots| && Guarded(s', u) && s'.slots[u].sequence <= w < s'.fills
      ensures StillThere(g, s', GuardedPage(s', u), w)
    {
      assert Guarded(s, u) && GuardedPage(s, u) == GuardedPage(s', u);
      assert StillThere(g, s, GuardedPage(s, u), w);
    }
  }

  lemma SwapKeepsRing(g: Ring, s: State, s': State)
    requires SlotsOK(g, s) && s.warmer.Swapping? && Next(g, s, SwapSlot, s') && NoGaps(s) && DistinctPages(s)
    requires s.slots[NextSlot(g, s)].pageId == EMPTY && !BeingClaimed(s, NextSlot(g, s))
    ensures SlotsOK(g, s') && NoGaps(s') && DistinctPages(s')
  {
    hide InRing;
    forall u, z | 0 <= u < |s'.slots| && Live(s', u) && Done(s') < z < s'.slots[u].pageId
      ensures InRing(s', z)
    {
      assert Live(s, u) && InRing(s, z);
      InRingAfterSwap(g, s, s', z);
    }
  }

  lemma InRingAfterSwap(g: Ring, s: State, s': State, z: int)
    requires |s.slots| == g.capacity > 0 && Next(g, s, SwapSlot, s') && z >= 0
    ensures InRing(s, z) <==> InRing(s', z)
  {
    if InRing(s, z) {
      var v :| 0 <= v < |s.slots| && s.slots[v].pageId == z;
      assert s'.slots[v].pageId == z;
    }
    if InRing(s', z) {
      var v :| 0 <= v < |s'.slots| && s'.slots[v].pageId == z;
      assert s.slots[v].pageId == z;
    }
  }

  lemma SwapKeepsPass(g: Ring, s: State, s': State)
    requires SlotsOK(g, s) && PassOK(g, s) && Next(g, s, SwapSlot, s')
    requires s.slots[NextSlot(g, s)].pageId == EMPTY && !BeingClaimed(s, NextSlot(g, s))
    ensures PassOK(g, s')
  {
    hide InRing;
    var local, i := s.warmer.local, s.warmer.i;
    InRingAfterSwap(g, s, s', local + i);
    forall z | local < z < local + i && z > Done(s')
      ensures InRing(s', z)
    {
      assert InRing(s, z);
      InRingAfterSwap(g, s, s', z);
    }
  }

  lemma SwapKeepsOwnership(g: Ring, s: State, s': State)
    requires SlotsOK(g, s) && ClaimOK(s) && OwnOK(s) && Next(g, s, SwapSlot, s')
    requires s.slots[NextSlot(g, s)].pageId == EMPTY && !BeingClaimed(s, NextSlot(g, s))
    ensures ClaimOK(s') && OwnOK(s')
  {
  }

  lemma SwapKeeps(g: Ring, s: State, s': State)
    requires Inv(g, s) && Next(g, s, SwapSlot, s')
    ensures Inv(g, s')
  {
    hide LaterFillsStay, NoGaps, PassOK, Conserved, DistinctPages, OwnedAddresses, ClaimOK, OwnOK, Guarded,
      GuardedPage;
    SwapFindsNoClaim(g, s);
    var t := NextSlot(g, s);
    if s.slots[t].pageId == EMPTY {
      SwapKeepsRing(g, s, s');
      SwapKeepsLater(g, s, s');
      SwapKeepsPass(g, s, s');
      SwapKeepsOwnership(g, s, s');
      ConservedSame(s, s', t, s.slots[t].(pageId := WARMING));
    } else {
      BlockedPass(g, s, s');
      WarmerMoves(g, s, s');
    }
  }

  lemma BlockedPass(g: Ring, s: State, s': State)
    requires g.capacity > 0 && |s.slots| == g.capacity && PassOK(g, s) && Blocked(g, s) && Next(g, s, SwapSlot, s')
    requires s.slots[NextSlot(g, s)].pageId != EMPTY
    ensures PassOK(g, s')
  {
  }

  // ---------- Filling ----------

  lemma InRingAfterFill(g: Ring, s: State, s': State, z: int)
    requires SlotsOK(g, s) && Next(g, s, FillSlot, s') && z >= 0
    ensures InRing(s', z) <==> InRing(s, z) || z == s.warmer.local + s.warmer.i
  {
    var t := NextSlot(g, s);
    if InRing(s, z) {
      var v :| 0 <= v < |s.slots| && s.slots[v].pageId == z;
      assert s'.slots[v].pageId == z;
    }
    if InRing(s', z) {
      var v :| 0 <= v < |s'.slots| && s'.slots[v].pageId == z;
      assert v == t || s.slots[v].pageId == z;
    }
    assert s'.slots[t].pageId == s.warmer.local + s.warmer.i;
  }

  lemma FillKeepsSlots(g: Ring, s: State, s': State)
    requires SlotsOK(g, s) && PassOK(g, s) && DistinctPages(s) && Next(g, s, FillSlot, s')
    ensures SlotsOK(g, s') && DistinctPages(s')
  {
    hide PassedOver;
    var t, page := NextSlot(g, s), s.warmer.local + s.warmer.i;
    forall u | 0 <= u < |s.slots| && u != t && (s.slots[u].pageId >= 0 || BeingClaimed(s, u))
      ensures s'.fills < s.slots[u].sequence + g.capacity && s.slots[u].pageId != page
    {
      if s.fills + 1 == s.slots[u].sequence + g.capacity {
        TurnIsSameSlot(s.slots[u].sequence - 1, g.capacity);
        assert false;
      }
      assert s.slots[u].pageId == page ==> InRing(s, page);
    }
    NewestInPlace(s.fills, g.capacity);
  }

  lemma TurnIsSameSlot(w: nat, n: nat)
    requires n > 0
    ensures (w + n) % n == w % n
  {
    RemainderIsUnique(w + n, n, w / n + 1, w % n);
    assert n * (w / n + 1) == n * (w / n) + n;
  }

  lemma NewestInPlace(w: nat, n: nat)
    requires n > 0
    ensures w < w + 1 + n && (w + 1 - 1) % n == w % n
  {
  }

  lemma FillKeepsLater(g: Ring, s: State, s': State)
    requires SlotsOK(g, s) && PassOK(g, s) && LaterFillsStay(g, s) && NoGaps(s) && Next(g, s, FillSlot, s')
    ensures LaterFillsStay(g, s')
  {
    hide PassedOver, NoGaps;
    var t, page := NextSlot(g, s), s.warmer.local + s.warmer.i;
    forall u, w | 0 <= u < |s'.slots| && Guarded(s', u) && s'.slots[u].sequence <= w < s'.fills
      ensures StillThere(g, s', GuardedPage(s', u), w)
    {
      assert u != t && Guarded(s, u) && GuardedPage(s, u) == GuardedPage(s', u);
      var q := GuardedPage(s, u);
      assert q <= s.warmer.local + g.distance;
      if w < s.fills {
        assert StillThere(g, s, q, w);
        assert w % g.capacity != t;
      } else {
        NotBetween(g, s, u, page);
      }
    }
  }

  // A page missing from the ring is not one the warmer should have put in before a guarded page.
  lemma NotBetween(g: Ring, s: State, u: nat, page: int)
    requires SlotsOK(g, s) && NoGaps(s) && u < |s.slots| && Guarded(s, u) && page >= 0 && !InRing(s, page)
    ensures page <= Done(s) || page > GuardedPage(s, u)
  {
    if Live(s, u) && !BeingClaimed(s, u) && Done(s) < page {
      assert page != s.slots[u].pageId;
    }
  }

  lemma FillKeepsGaps(g: Ring, s: State, s': State)
    requires SlotsOK(g, s) && PassOK(g, s) && NoGaps(s) && Next(g, s, FillSlot, s')
    ensures NoGaps(s')
  {
    hide InRing;
    var t, page := NextSlot(g, s), s.warmer.local + s.warmer.i;
    forall u, z | 0 <= u < |s'.slots| && Live(s', u) && Done(s') < z < s'.slots[u].pageId
      ensures InRing(s', z)
    {
      InRingAfterFill(g, s, s', z);
      if u != t {
        assert Live(s, u);
      }
    }
  }

  lemma FillKeepsPass(g: Ring, s: State, s': State)
    requires SlotsOK(g, s) && PassOK(g, s) && Next(g, s, FillSlot, s')
    ensures PassOK(g, s')
  {
    hide InRing;
    var local, i := s.warmer.local, s.warmer.i;
    forall z | local < z < local + i + 1 && z > Done(s')
      ensures InRing(s', z)
    {
      InRingAfterFill(g, s, s', z);
      assert z < local + i ==> InRing(s, z);
    }
  }

  lemma FillKeepsOwnership(g: Ring, s: State, s': State)
    requires SlotsOK(g, s) && PassOK(g, s) && ClaimOK(s) && OwnOK(s) && Next(g, s, FillSlot, s')
    ensures ClaimOK(s') && OwnOK(s') && Held(s.slots[NextSlot(g, s)]) == []
  {
    hide PassedOver, InRing, IdsUpTo;
  }

  lemma FillKeeps(g: Ring, s: State, s': State)
    requires Inv(g, s) && Next(g, s, FillSlot, s')
    ensures Inv(g, s')
  {
    hide LaterFillsStay, NoGaps, PassOK, Conserved, DistinctPages, OwnedAddresses, ClaimOK, OwnOK, Guarded,
      GuardedPage;
    FillKeepsSlots(g, s, s');
    FillKeepsLater(g, s, s');
    FillKeepsGaps(g, s, s');
    FillKeepsPass(g, s, s');
    FillKeepsOwnership(g, s, s');
    var t := NextSlot(g, s);
    NextPositive(s);
    ConservedFill(s, s', t, Slot(s.warmer.local + s.warmer.i, s.next, true, s.fills + 1));
  }

  lemma NextPositive(s: State)
    requires OwnOK(s)
    ensures s.next >= 1
  {
  }

  // ---------- Cleaning up ----------

  ghost predicate Stale(g: Ring, s: State) {
    s.warmer.Cleaning? && s.warmer.j < |s.slots| && 0 <= s.slots[s.warmer.j].pageId < s.warmer.local - g.capacity
  }

  lemma InRingAfterClean(g: Ring, s: State, s': State, z: int)
    requires |s.slots| == g.capacity > 0 && Next(g, s, CleanSlot, s') && Stale(g, s)
    requires z >= s.warmer.local - g.capacity && z >= 0
    ensures InRing(s, z) ==> InRing(s', z)
  {
    if InRing(s, z) {
      var v :| 0 <= v < |s.slots| && s.slots[v].pageId == z;
      assert s'.slots[v].pageId == z;
    }
  }

  lemma CleanKeepsSlots(g: Ring, s: State, s': State)
    requires SlotsOK(g, s) && ClaimOK(s) && DistinctPages(s) && Next(g, s, CleanSlot, s') && Stale(g, s)
    ensures SlotsOK(g, s') && DistinctPages(s')
  {
  }

  lemma CleanKeepsPass(g: Ring, s: State, s': State)
    requires |s.slots| == g.capacity > 0 && PassOK(g, s) && Next(g, s, CleanSlot, s') && Stale(g, s)
    ensures PassOK(g, s')
  {
    assert forall t :: 0 <= t < |s.slots| ==> s'.slots[t].pageId <= s.slots[t].pageId;
  }

  lemma CleanKeepsGuards(g: Ring, s: State, s': State)
    requires SlotsOK(g, s) && PassOK(g, s) && ClaimOK(s) && Next(g, s, CleanSlot, s') && Stale(g, s)
    ensures forall u :: 0 <= u < |s.slots| && Guarded(s', u) ==>
      Guarded(s, u) && GuardedPage(s, u) == GuardedPage(s', u) && GuardedPage(s, u) > Done(s) - 1
  {
  }

  lemma CleanKeepsLater(g: Ring, s: State, s': State)
    requires SlotsOK(g, s) && PassOK(g, s) && LaterFillsStay(g, s) && Next(g, s, CleanSlot, s') && Stale(g, s)
    requires forall u :: 0 <= u < |s.slots| && Guarded(s', u) ==>
      Guarded(s, u) && GuardedPage(s, u) == GuardedPage(s', u) && GuardedPage(s, u) > Done(s) - 1
    ensures LaterFillsStay(g, s')
  {
    hide Guarded, GuardedPage, IdsUpTo;
    forall u, w | 0 <= u < |s'.slots| && Guarded(s', u) && s'.slots[u].sequence <= w < s'.fills
      ensures StillThere(g, s', GuardedPage(s', u), w)
    {
      assert StillThere(g, s, GuardedPage(s, u), w);
    }
  }

  lemma CleanKeepsGaps(g: Ring, s: State, s': State)
    requires SlotsOK(g, s) && PassOK(g, s) && NoGaps(s) && Next(g, s, CleanSlot, s') && Stale(g, s)
    ensures NoGaps(s')
  {
    forall u, z | 0 <= u < |s'.slots| && Live(s', u) && Done(s') < z < s'.slots[u].pageId
      ensures InRing(s', z)
    {
      assert Live(s, u) && InRing(s, z);
      InRingAfterClean(g, s, s', z);
    }
  }

  lemma CleanKeepsRing(g: Ring, s: State, s': State)
    requires SlotsOK(g, s) && PassOK(g, s) && ClaimOK(s) && LaterFillsStay(g, s) && NoGaps(s) && DistinctPages(s)
    requires Next(g, s, CleanSlot, s') && Stale(g, s)
    ensures SlotsOK(g, s') && LaterFillsStay(g, s') && NoGaps(s') && DistinctPages(s') && PassOK(g, s')
  {
    RingSize(g, s);
    hide SlotsOK, LaterFillsStay, NoGaps, PassOK, DistinctPages, ClaimOK, Guarded, GuardedPage, Stale;
    CleanKeepsSlots(g, s, s');
    CleanKeepsPass(g, s, s');
    CleanKeepsGuards(g, s, s');
    CleanKeepsLater(g, s, s');
    CleanKeepsGaps(g, s, s');
  }

  lemma CleanKeepsOwnership(g: Ring, s: State, s': State)
    requires SlotsOK(g, s) && PassOK(g, s) && ClaimOK(s) && OwnOK(s) && Next(g, s, CleanSlot, s') && Stale(g, s)
    ensures ClaimOK(s') && OwnOK(s') && Held(Freed(s.slots[s.warmer.j])) == []
    ensures OwnedAddresses([s.slots[s.warmer.j]]) == Held(s.slots[s.warmer.j])
  {
    var slot := s.slots[s.warmer.j];
    assert [slot][1..] == [];
    assert slot.owned && slot.address >= 1;
  }

  lemma CleanKeeps(g: Ring, s: State, s': State)
    requires Inv(g, s) && Next(g, s, CleanSlot, s')
    ensures Inv(g, s')
  {
    hide LaterFillsStay, NoGaps, Conserved, DistinctPages, OwnedAddresses, ClaimOK, OwnOK, Guarded, GuardedPage;
    if Stale(g, s) {
      CleanKeepsRing(g, s, s');
      CleanKeepsOwnership(g, s, s');
      NextPositive(s);
      ConservedMove(s, s', s.warmer.j, Freed(s.slots[s.warmer.j]));
    } else {
      WarmerMoves(g, s, s');
    }
  }

  // ---------- Shutdown and the first state ----------

  lemma ShutdownOwnsNothing(g: Ring, s: State, s': State)
    requires SlotsOK(g, s) && OwnOK(s) && Next(g, s, Shutdown, s')
    ensures OwnOK(s') && OwnedAddresses(s'.slots) == []
  {
    forall t | 0 <= t < |s'.slots|
      ensures s'.slots[t] == LetGo(s.slots[t]) && !s'.slots[t].owned
    {
      assert s.slots[t].owned ==> s.slots[t].pageId >= 0 && s.slots[t].address >= 1;
    }
    NothingOwned(s'.slots);
  }

  lemma MovedAll(held: multiset<nat>, taken: multiset<nat>, released: multiset<nat>)
    ensures multiset{} + taken + (released + held) == held + taken + released
  {
  }

  lemma ShutdownKeeps(g: Ring, s: State, s': State)
    requires Inv(g, s) && Next(g, s, Shutdown, s')
    ensures Inv(g, s')
  {
    hide LaterFillsStay, NoGaps, OwnedAddresses, OwnOK, PassOK;
    ShutdownOwnsNothing(g, s, s');
    NextPositive(s);
    assert forall t :: 0 <= t < |s.slots| ==> s'.slots[t] == LetGo(s.slots[t]);
    MovedAll(multiset(OwnedAddresses(s.slots)), multiset(s.taken), multiset(s.released));
    ReleasedAll(s, s');
  }

  lemma ReleasedAll(s: State, s': State)
    requires s'.released == s.released + OwnedAddresses(s.slots)
    ensures multiset(s'.released) == multiset(s.released) + multiset(OwnedAddresses(s.slots))
  {
  }

  lemma InitKeeps(g: Ring, s: State)
    requires Init(g, s)
    ensures Inv(g, s)
  {
    NothingOwned(s.slots);
    assert Addresses(1) == [];
  }

  lemma NextKeeps(g: Ring, s: State, step: Step, s': State)
    requires Inv(g, s) && Next(g, s, step, s')
    ensures Inv(g, s')
  {
    hide SlotsOK, LaterFillsStay, NoGaps, PassOK, Conserved, DistinctPages, OwnedAddresses, ClaimOK, OwnOK;
    RingSize(g, s);
    match step
    case ClaimSlot(t) => ClaimKeeps(g, s, t, s');
    case LoadCurrent => WalkKeeps(g, s, step, s');
    case LookInRing => WalkKeeps(g, s, step, s');
    case EndPass => WalkKeeps(g, s, step, s');
    case EndCleaning => WalkKeeps(g, s, step, s');
    case SwapSlot => SwapKeeps(g, s, s');
    case FillSlot => FillKeeps(g, s, s');
    case CleanSlot => CleanKeeps(g, s, s');
    case Shutdown => ShutdownKeeps(g, s, s');
    case _ => WriterKeeps(g, s, step, s');
  }

  lemma RingSize(g: Ring, s: State)
    requires SlotsOK(g, s)
    ensures g.capacity > 0 && |s.slots| == g.capacity
  {
  }

  // ---------- Whole runs ----------

  ghost predicate Run(g: Ring, run: seq<State>, steps: seq<Step>) {
    && g.capacity > 0 && |run| == |steps| + 1
    && Init(g, run[0])
    && forall i :: 0 <= i < |steps| ==> |run[i].slots| == g.capacity && Next(g, run[i], steps[i], run[i + 1])
  }

  lemma {:induction false} RunKeeps(g: Ring, run: seq<State>, steps: seq<Step>, n: nat)
    requires Run(g, run, steps) && n < |run|
    ensures Inv(g, run[n])
    decreases n
  {
    hide Inv, Next, Init;
    if n == 0 {
      InitKeeps(g, run[0]);
    } else {
      RunKeeps(g, run, steps, n - 1);
      NextKeeps(g, run[n - 1], steps[n - 1], run[n]);
    }
  }

  /** From the writer's swap until it returns, the slot it claimed keeps the mapping of the page it asked
      for, and the address it returns maps exactly that page. */
  lemma ClaimReturnsRequestedPage(g: Ring, run: seq<State>, steps: seq<Step>, n: nat)
    requires Run(g, run, steps) && n < |run|
    ensures var s := run[n];
            && (s.writer.Claimed? ==>
                  s.writer.slot < |s.slots| && var a := s.slots[s.writer.slot].address;
                  a in s.pageOf && s.pageOf[a] == s.current + 1)
            && (s.writer.AddressRead? ==>
                  s.writer.slot < |s.slots| && s.slots[s.writer.slot].address == s.writer.address
                  && s.writer.address in s.pageOf && s.pageOf[s.writer.address] == s.current + 1)
            && (s.writer.Warmed? ==> s.writer.address in s.pageOf && s.pageOf[s.writer.address] == s.current + 1)
  {
    RunKeeps(g, run, steps, n);
  }

  /** No step of the warmer touches the slot being claimed. */
  lemma ClaimedSlotUntouched(g: Ring, run: seq<State>, steps: seq<Step>, n: nat)
    requires Run(g, run, steps) && n < |steps|
    requires (run[n].writer.Claimed? || run[n].writer.AddressRead?) && run[n + 1].writer == run[n].writer
    ensures run[n].writer.slot < |run[n].slots| == |run[n + 1].slots|
    ensures run[n + 1].slots[run[n].writer.slot] == run[n].slots[run[n].writer.slot]
  {
    var s, s', t := run[n], run[n + 1], run[n].writer.slot;
    RunKeeps(g, run, steps, n);
    assert Next(g, s, steps[n], s');
    StepLeavesClaim(g, s, steps[n], s');
  }

  lemma StepLeavesClaim(g: Ring, s: State, step: Step, s': State)
    requires Inv(g, s) && Next(g, s, step, s') && (s.writer.Claimed? || s.writer.AddressRead?) && s'.writer == s.writer
    ensures s.writer.slot < |s.slots| == |s'.slots| && s'.slots[s.writer.slot] == s.slots[s.writer.slot]
  {
    hide LaterFillsStay, NoGaps, Conserved, DistinctPages, OwnedAddresses, OwnOK;
    if step == SwapSlot {
      SwapFindsNoClaim(g, s);
    }
  }

  /** Ready slots hold different pages, none further ahead of the current page than the distance. Each ready slot's
      address maps its page, and its sequence says which fill it was: the fills go round the ring. */
  lemma ReadySlots(g: Ring, run: seq<State>, steps: seq<Step>, n: nat, t: nat)
    requires Run(g, run, steps) && n < |run| && t < g.capacity
    ensures |run[n].slots| == g.capacity
    ensures var s, slot := run[n], run[n].slots[t];
            slot.pageId >= 0 ==>
              && slot.pageId <= s.current + g.distance
              && (forall u :: 0 <= u < g.capacity && u != t ==> s.slots[u].pageId != slot.pageId)
              && (s.warmer != Gone ==> slot.address in s.pageOf && s.pageOf[slot.address] == slot.pageId)
              && 1 <= slot.sequence <= s.fills && (slot.sequence - 1) % g.capacity == t
  {
    hide Run;
    RunKeeps(g, run, steps, n);
  }

  /** A ready page leaves the ring in two ways only: the writer claims it, when it is the page after the current, or
      the warmer drops it, when it is more than the ring's size behind. */
  lemma ReadyPageStays(g: Ring, run: seq<State>, steps: seq<Step>, n: nat, t: nat)
    requires Run(g, run, steps) && n < |steps| && t < g.capacity
    ensures |run[n].slots| == g.capacity && |run[n + 1].slots| == g.capacity
    ensures var s, page, page' := run[n], run[n].slots[t].pageId, run[n + 1].slots[t].pageId;
            page >= 0 && page' != page ==>
              && page' == EMPTY
              && ((steps[n] == ClaimSlot(t) && page == s.current + 1)
                  || (steps[n] == CleanSlot && page < s.current - g.capacity))
  {
    hide Inv, Next, SlotsOK;
    StepAt(g, run, steps, n);
    RunKeeps(g, run, steps, n);
    RunKeeps(g, run, steps, n + 1);
    InvParts(g, run[n]);
    InvParts(g, run[n + 1]);
    PageStays(g, run[n], steps[n], run[n + 1], t);
  }

  lemma PageStays(g: Ring, s: State, step: Step, s': State, t: nat)
    requires SlotsOK(g, s) && CleansBehind(s) && Next(g, s, step, s') && |s'.slots| == g.capacity && t < g.capacity
    ensures s.slots[t].pageId >= 0 && s'.slots[t].pageId != s.slots[t].pageId ==>
      && s'.slots[t].pageId == EMPTY
      && ((step == ClaimSlot(t) && s.slots[t].pageId == s.current + 1)
          || (step == CleanSlot && s.slots[t].pageId < s.current - g.capacity))
  {
    hide OwnedAddresses, InRing;
  }

  predicate CleansBehind(s: State) {
    s.warmer.Cleaning? ==> s.warmer.local <= s.current
  }

  lemma StepAt(g: Ring, run: seq<State>, steps: seq<Step>, n: nat)
    requires Run(g, run, steps) && n < |steps|
    ensures g.capacity > 0 && |run[n].slots| == g.capacity && Next(g, run[n], steps[n], run[n + 1])
  {
  }

  // How often the writer was answered by then.
  function Answers(steps: seq<Step>, n: nat): nat
    requires n <= |steps|
  {
    if n == 0 then 0 else Answers(steps, n - 1) + if steps[n - 1] == UpdateCurrent then 1 else 0
  }

  ghost predicate TakenInOrder(s: State) {
    && (forall i :: 0 <= i < |s.taken| ==> s.taken[i] in s.pageOf && s.pageOf[s.taken[i]] <= Given(s))
    && forall i, j :: 0 <= i < j < |s.taken| ==> s.pageOf[s.taken[i]] < s.pageOf[s.taken[j]]
  }

  // The last page whose mapping the writer may have.
  function Given(s: State): int {
    if s.writer.Warmed? || s.writer.Missed? then s.current + 1 else s.current
  }

  lemma StepInOrder(g: Ring, s: State, step: Step, s': State)
    requires SlotsOK(g, s) && ClaimOK(s) && OwnOK(s) && Next(g, s, step, s') && TakenInOrder(s)
    ensures TakenInOrder(s')
  {
    hide SlotsOK, OwnedAddresses, InRing, NextSlot, Looked;
  }

  lemma {:induction false} RunInOrder(g: Ring, run: seq<State>, steps: seq<Step>, n: nat)
    requires Run(g, run, steps) && n < |run|
    ensures TakenInOrder(run[n]) && run[n].current == run[0].current + Answers(steps, n)
    decreases n
  {
    hide TakenInOrder, Inv, Next, Init, SlotsOK, ClaimOK, OwnOK;
    if n == 0 {
      FirstState(g, run, steps);
      NoneTaken(g, run[0]);
    } else {
      RunInOrder(g, run, steps, n - 1);
      RunKeeps(g, run, steps, n - 1);
      StepAt(g, run, steps, n - 1);
      CurrentMoves(g, run[n - 1], steps[n - 1], run[n]);
      InvParts(g, run[n - 1]);
      StepInOrder(g, run[n - 1], steps[n - 1], run[n]);
    }
  }

  lemma InvParts(g: Ring, s: State)
    requires Inv(g, s)
    ensures SlotsOK(g, s) && ClaimOK(s) && OwnOK(s) && CleansBehind(s) && |s.slots| == g.capacity
  {
  }

  lemma FirstState(g: Ring, run: seq<State>, steps: seq<Step>)
    requires Run(g, run, steps)
    ensures Init(g, run[0])
  {
  }

  lemma NoneTaken(g: Ring, s: State)
    requires Init(g, s)
    ensures TakenInOrder(s)
  {
  }

  lemma CurrentMoves(g: Ring, s: State, step: Step, s': State)
    requires g.capacity > 0 && |s.slots| == g.capacity && Next(g, s, step, s')
    ensures s'.current == s.current + if step == UpdateCurrent then 1 else 0
  {
    hide OwnedAddresses, InRing, NextSlot, Looked;
  }

  /** The writer asks for one page after the other, and the mappings it is given map pages in ascending order, none
      twice and none beyond the page it asked for last. */
  lemma WriterTakesInOrder(g: Ring, run: seq<State>, steps: seq<Step>, n: nat)
    requires Run(g, run, steps) && n < |run|
    ensures run[n].current == run[0].current + Answers(steps, n)
    ensures var s := run[n];
            && (forall i :: 0 <= i < |s.taken| ==> s.taken[i] in s.pageOf && s.pageOf[s.taken[i]] <= s.current + 1)
            && forall i, j :: 0 <= i < j < |s.taken| ==> s.pageOf[s.taken[i]] < s.pageOf[s.taken[j]]
  {
    hide Run;
    RunInOrder(g, run, steps, n);
  }

  lemma {:induction false} AddressesOnce(n: nat, a: nat)
    requires n >= 1
    ensures Count(Addresses(n), a) == if 1 <= a < n then 1 else 0
    decreases n
  {
    if n == 1 {
      assert Addresses(1) == [];
    } else {
      AddressesOnce(n - 1, a);
      assert Addresses(n) == Addresses(n - 1) + [n - 1];
    }
  }

  /** Each mapping the warmer made is, in every state, in exactly one place: owned by one slot of the ring,
      handed to the writer, or released; so nothing is released twice or after it was handed over. */
  lemma OneOwner(g: Ring, run: seq<State>, steps: seq<Step>, n: nat, a: nat)
    requires Run(g, run, steps) && n < |run|
    ensures var s := run[n];
            Count(OwnedAddresses(s.slots), a) + Count(s.taken, a) + Count(s.released,
                a) == if 1 <= a < s.next then 1 else 0
  {
    RunKeeps(g, run, steps, n);
    AddressesOnce(run[n].next, a);
    var s := run[n];
    assert (multiset(OwnedAddresses(s.slots)) + multiset(s.taken) + multiset(s.released))[a]
        == multiset(Addresses(s.next))[a];
  }

  /** After shutdown no mapping is left in the ring: each was taken by the writer or released, once. */
  lemma NothingLeaks(g: Ring, run: seq<State>, steps: seq<Step>, n: nat, a: nat)
    requires Run(g, run, steps) && n < |run| && run[n].warmer == Gone
    ensures Count(run[n].taken, a) + Count(run[n].released, a) == if 1 <= a < run[n].next then 1 else 0
  {
    RunKeeps(g, run, steps, n);
    OneOwner(g, run, steps, n, a);
  }
}
