/** The split claim is safe: the warmer never reuses a slot between the writer's swap and its reads. */
module PageWarmerSafety {
  import opened Layout
  import opened PageWarmer

  // ---------- The invariant ----------

  // The last page that will not be requested again.
  function Done(s: State): int {
    if s.writer == Writing || s.writer.Scanning? then s.current else s.current + 1
  }

  predicate BeingClaimed(s: State, t: nat) {
    (s.writer.Claimed? || s.writer.AddressRead?) && s.writer.slot == t
  }

  predicate Live(s: State, t: nat)
    requires t < |s.slots|
  {
    s.slots[t].pageId > Done(s)
  }

  // A slot whose page the writer is claiming or may still claim.
  predicate Guarded(s: State, t: nat)
    requires t < |s.slots|
  {
    Live(s, t) || BeingClaimed(s, t)
  }

  function GuardedPage(s: State, t: nat): int
    requires t < |s.slots|
  {
    if BeingClaimed(s, t) then s.current + 1 else s.slots[t].pageId
  }

  ghost predicate SlotsOK(g: Ring, s: State) {
    && ValidRing(g) && |s.slots| == g.capacity && s.current >= 0
    && forall t :: 0 <= t < |s.slots| ==>
         var slot := s.slots[t];
         && slot.pageId >= WARMING
         && (slot.pageId == WARMING <==> s.warmer.Filling? && t == NextSlot(g, s))
         && slot.pageId <= s.current + g.distance
         && (slot.pageId >= 0 || BeingClaimed(s, t) ==>
               && 1 <= slot.sequence <= s.fills < slot.sequence + g.capacity
               && (slot.sequence - 1) % g.capacity == t)
  }

  ghost predicate DistinctPages(s: State) {
    forall t, u :: 0 <= t < u < |s.slots| && s.slots[t].pageId >= 0 ==> s.slots[t].pageId != s.slots[u].pageId
  }

  // Fill number w still sits in its slot; it is no older than what page q's fill allows, and no page
  // between the requested ones and q.
  ghost predicate StillThere(g: Ring, s: State, q: int, w: nat)
    requires g.capacity > 0 && |s.slots| == g.capacity
  {
    var slot := s.slots[w % g.capacity];
    && slot.pageId >= 0 && slot.sequence == w + 1
    && slot.pageId > q - g.distance
    && (slot.pageId <= Done(s) || slot.pageId > q)
  }

  ghost predicate LaterFillsStay(g: Ring, s: State)
    requires g.capacity > 0 && |s.slots| == g.capacity
  {
    forall t, w :: 0 <= t < |s.slots| && Guarded(s, t) && s.slots[t].sequence <= w < s.fills ==>
      StillThere(g, s, GuardedPage(s, t), w)
  }

  ghost predicate NoGaps(s: State) {
    forall t, z :: 0 <= t < |s.slots| && Live(s, t) && Done(s) < z < s.slots[t].pageId ==> InRing(s, z)
  }

  // The next slot holds a page nobody will claim; the warmer can do nothing until it is cleaned up.
  ghost predicate Blocked(g: Ring, s: State)
    requires g.capacity > 0 && |s.slots| == g.capacity
  {
    0 <= s.slots[NextSlot(g, s)].pageId <= Done(s)
  }

  ghost predicate PassedOver(s: State, local: int, i: nat) {
    forall z :: local < z < local + i && z > Done(s) ==> InRing(s, z)
  }

  ghost predicate IdsUpTo(s: State, bound: int) {
    forall t :: 0 <= t < |s.slots| ==> s.slots[t].pageId <= bound && (BeingClaimed(s, t) ==> s.current + 1 <= bound)
  }

  ghost predicate PassOK(g: Ring, s: State)
    requires g.capacity > 0 && |s.slots| == g.capacity
  {
    match s.warmer
    case Passing(local, i) =>
      && 0 <= local <= s.current && IdsUpTo(s, local + g.distance) && 1 <= i <= g.distance + 1
      && (Blocked(g, s) || PassedOver(s, local, i))
    case Swapping(local, i) =>
      && 0 <= local <= s.current && IdsUpTo(s, local + g.distance) && 1 <= i <= g.distance
      && (Blocked(g, s) || PassedOver(s, local, i)) && !InRing(s, local + i)
    case Filling(local, i) =>
      && 0 <= local <= s.current && IdsUpTo(s, local + g.distance) && 1 <= i <= g.distance
      && PassedOver(s, local, i) && !InRing(s, local + i) && !BeingClaimed(s, NextSlot(g, s))
    case Cleaning(local, j) => local <= s.current && IdsUpTo(s, local + g.distance) && j <= |s.slots|
    case _ => true
  }

  ghost predicate ClaimOK(s: State) {
    match s.writer
    case Claimed(t) =>
      && t < |s.slots| && s.slots[t].pageId == EMPTY
      && s.slots[t].address in s.pageOf && s.pageOf[s.slots[t].address] == s.current + 1
    case AddressRead(t, a) =>
      && t < |s.slots| && s.slots[t].pageId == EMPTY && a == s.slots[t].address
      && a in s.pageOf && s.pageOf[a] == s.current + 1
    case Warmed(a) => a in s.pageOf && s.pageOf[a] == s.current + 1
    case _ => true
  }

  ghost predicate OwnOK(s: State) {
    && (forall t :: 0 <= t < |s.slots| && s.slots[t].pageId >= 0 && s.warmer != Gone ==>
          s.slots[t].owned && s.slots[t].address in s.pageOf && s.pageOf[s.slots[t].address] == s.slots[t].pageId)
    && (forall t :: 0 <= t < |s.slots| ==> (s.slots[t].owned ==> s.slots[t].pageId >= 0 || BeingClaimed(s, t)))
    && (forall t :: 0 <= t < |s.slots| && BeingClaimed(s, t) ==> s.slots[t].owned)
    && (forall a :: a in s.pageOf ==> 1 <= a < s.next)
    && s.next >= 1
  }

  function Addresses(n: nat): (r: seq<nat>)
    requires n >= 1
  {
    if n == 1 then [] else Addresses(n - 1) + [n - 1]
  }

  // Every mapping ever made is in exactly one place: a slot that owns it, the writer, or released.
  ghost predicate Conserved(s: State)
    requires s.next >= 1
  {
    multiset(OwnedAddresses(s.slots)) + multiset(s.taken) + multiset(s.released) == multiset(Addresses(s.next))
  }

  ghost predicate Inv(g: Ring, s: State) {
    && SlotsOK(g, s) && DistinctPages(s)
    && (s.warmer != Gone ==> LaterFillsStay(g, s) && NoGaps(s) && PassOK(g, s) && ClaimOK(s))
    && OwnOK(s) && Conserved(s)
    && (s.warmer == Gone ==> s.writer == Writing && OwnedAddresses(s.slots) == [])
  }

  // ---------- Counting ----------

  lemma {:induction false} DistinctSize(xs: seq<int>)
    requires forall i, j :: 0 <= i < j < |xs| ==> xs[i] != xs[j]
    ensures |set x | x in xs| == |xs|
    decreases |xs|
  {
    if xs == [] {
      assert (set x | x in xs) == {};
    } else {
      var n := |xs| - 1;
      DistinctSize(xs[..n]);
      assert (set x | x in xs) == (set x | x in xs[..n]) + {xs[n]};
    }
  }

  ghost function Interval(lo: int, n: nat): (r: set<int>)
    ensures forall x :: x in r <==> lo <= x < lo + n
    ensures |r| == n
  {
    if n == 0 then {} else Interval(lo, n - 1) + {lo + n - 1}
  }

  lemma SubsetOfSameSize(a: set<int>, b: set<int>)
    requires a <= b && |a| == |b|
    ensures a == b
  {
    assert |b - a| == |b| - |a|;
  }

  /** Distinct values that all lie in an interval no longer than their number fill it. */
  lemma Pigeonhole(xs: seq<int>, lo: int, v: int)
    requires forall i, j :: 0 <= i < j < |xs| ==> xs[i] != xs[j]
    requires forall i :: 0 <= i < |xs| ==> lo <= xs[i] < lo + |xs|
    requires lo <= v < lo + |xs|
    ensures v in xs
  {
    DistinctSize(xs);
    var a := set x | x in xs;
    var b := Interval(lo, |xs|);
    SubsetOfSameSize(a, b);
    assert v in b;
  }

  lemma ModDistinct(a: nat, b: nat, n: nat)
    requires n > 0 && a < b < a + n
    ensures a % n != b % n
  {
    if a % n == b % n {
      var p, q := a / n, b / n;
      assert b - a == n * (q - p);
      if q > p {
        MulGrows(n, q - p);
      } else if q < p {
        MulGrows(n, p - q);
      }
    }
  }

  // Two fills to one slot are a whole turn apart.
  lemma SameSlotTurn(w: nat, v: nat, n: nat)
    requires n > 0 && w < v <= w + n && w % n == v % n
    ensures v == w + n
  {
    if v < w + n {
      ModDistinct(w, v, n);
    }
  }

  // The pages of the fills made after the one in slot t, oldest first.
  function LaterPages(g: Ring, s: State, t: nat): (xs: seq<int>)
    requires ValidRing(g) && |s.slots| == g.capacity && t < |s.slots|
  {
    seq(g.capacity - 1, k requires 0 <= k < g.capacity - 1 => s.slots[(s.slots[t].sequence + k) % g.capacity].pageId)
  }

  lemma OwnSlot(g: Ring, s: State, t: nat)
    requires SlotsOK(g, s) && t < |s.slots| && Guarded(s, t)
    ensures s.slots[t].sequence >= 1 && (s.slots[t].sequence - 1) % g.capacity == t
  {
  }

  lemma StaysThere(g: Ring, s: State, t: nat, w: nat)
    requires g.capacity > 0 && |s.slots| == g.capacity && LaterFillsStay(g, s)
    requires t < |s.slots| && Guarded(s, t) && s.slots[t].sequence <= w < s.fills
    ensures StillThere(g, s, GuardedPage(s, t), w)
  {
  }

  lemma LaterPagesBounded(g: Ring, s: State, t: nat, k: nat)
    requires SlotsOK(g, s) && LaterFillsStay(g, s)
    requires t < |s.slots| && Guarded(s, t) && s.fills == s.slots[t].sequence - 1 + g.capacity && k < g.capacity - 1
    ensures var u := (s.slots[t].sequence + k) % g.capacity;
            u != t && s.slots[u].pageId >= 0 && LaterPages(g, s, t)[k] == s.slots[u].pageId
    ensures GuardedPage(s, t) - g.distance < LaterPages(g, s, t)[k] <= s.current + g.distance
  {
    hide LaterFillsStay, Guarded, GuardedPage;
    OwnSlot(g, s, t);
    StaysThere(g, s, t, s.slots[t].sequence + k);
    ModDistinct(s.slots[t].sequence - 1, s.slots[t].sequence + k, g.capacity);
  }

  lemma LaterPagesDistinct(g: Ring, s: State, t: nat, i: nat, j: nat)
    requires SlotsOK(g, s) && LaterFillsStay(g, s) && DistinctPages(s)
    requires t < |s.slots| && Guarded(s, t) && s.fills == s.slots[t].sequence - 1 + g.capacity && i < j < g.capacity - 1
    ensures LaterPages(g, s, t)[i] != LaterPages(g, s, t)[j]
  {
    hide LaterFillsStay, LaterPages, DistinctPages;
    LaterPagesBounded(g, s, t, i);
    LaterPagesBounded(g, s, t, j);
    ModDistinct(s.slots[t].sequence + i, s.slots[t].sequence + j, g.capacity);
    DistinctAt(s, (s.slots[t].sequence + i) % g.capacity, (s.slots[t].sequence + j) % g.capacity);
  }

  lemma DistinctAt(s: State, a: nat, b: nat)
    requires DistinctPages(s) && a < |s.slots| && b < |s.slots| && a != b && s.slots[a].pageId >= 0
    ensures s.slots[a].pageId != s.slots[b].pageId
  {
    assert a < b || b < a;
  }

  /** When the next fill would reuse the slot of a guarded page, the other slots together hold every
      page between the oldest and the newest that may be in the ring. */
  lemma FullTurn(g: Ring, s: State, t: nat, v: int)
    requires SlotsOK(g, s) && DistinctPages(s) && LaterFillsStay(g, s)
    requires t < |s.slots| && Guarded(s, t) && t == NextSlot(g, s)
    requires GuardedPage(s, t) - g.distance < v <= s.current + g.distance
    ensures exists u :: 0 <= u < |s.slots| && u != t && s.slots[u].pageId == v
  {
    hide LaterFillsStay, DistinctPages;
    SameSlotTurn(s.slots[t].sequence - 1, s.fills, g.capacity);
    var xs := LaterPages(g, s, t);
    forall i, j | 0 <= i < j < |xs|
      ensures xs[i] != xs[j]
    {
      LaterPagesDistinct(g, s, t, i, j);
    }
    var lo := GuardedPage(s, t) - g.distance + 1;
    forall k | 0 <= k < |xs|
      ensures lo <= xs[k] < lo + |xs|
    {
      LaterPagesBounded(g, s, t, k);
    }
    Pigeonhole(xs, lo, v);
    var k :| 0 <= k < |xs| && xs[k] == v;
    LaterPagesBounded(g, s, t, k);
  }

  // ---------- Ownership bookkeeping ----------

  function Held(slot: Slot): seq<nat> {
    if slot.owned && slot.address != 0 then [slot.address] else []
  }

  lemma OwnedSplit(slots: seq<Slot>)
    requires slots != []
    ensures multiset(OwnedAddresses(slots)) == multiset(Held(slots[0])) + multiset(OwnedAddresses(slots[1..]))
  {
    assert OwnedAddresses(slots) == Held(slots[0]) + OwnedAddresses(slots[1..]);
  }

  lemma {:induction false} OwnedUpdate(slots: seq<Slot>, t: nat, slot: Slot)
    requires t < |slots|
    ensures multiset(OwnedAddresses(slots[t := slot])) + multiset(Held(slots[t]))
            == multiset(OwnedAddresses(slots)) + multiset(Held(slot))
    decreases |slots|
  {
    hide OwnedAddresses, Held;
    var slots' := slots[t := slot];
    OwnedSplit(slots);
    OwnedSplit(slots');
    if t == 0 {
      assert slots'[1..] == slots[1..];
    } else {
      assert slots'[1..] == slots[1..][t - 1 := slot];
      assert slots[1..][t - 1] == slots[t];
      OwnedUpdate(slots[1..], t - 1, slot);
      AddToBoth(multiset(Held(slots[0])), multiset(OwnedAddresses(slots'[1..])), multiset(Held(slots[t])),
                multiset(OwnedAddresses(slots[1..])), multiset(Held(slot)));
    }
  }

  lemma AddToBoth(h0: multiset<nat>, b': multiset<nat>, ht: multiset<nat>, b: multiset<nat>, h: multiset<nat>)
    requires b' + ht == b + h
    ensures (h0 + b') + ht == (h0 + b) + h
  {
    assert (h0 + b') + ht == h0 + (b' + ht);
    assert (h0 + b) + h == h0 + (b + h);
  }

  lemma {:induction false} NothingOwned(slots: seq<Slot>)
    requires forall t :: 0 <= t < |slots| ==> Held(slots[t]) == []
    ensures OwnedAddresses(slots) == []
    decreases |slots|
  {
    if slots != [] {
      NothingOwned(slots[1..]);
    }
  }

  lemma MultisetSums(total: multiset<nat>, a: multiset<nat>, a': multiset<nat>, h: multiset<nat>, h': multiset<nat>,
                     rest: multiset<nat>)
    requires a' + h == a + h' && a + rest == total
    ensures h' == multiset{} ==> a' + (rest + h) == total
    ensures h' == h ==> a' + rest == total
    ensures h == multiset{} ==> a' + rest == total + h'
  {
    forall x
      ensures a'[x] + h[x] == a[x] + h'[x] && a[x] + rest[x] == total[x]
    {
      assert (a' + h)[x] == (a + h')[x];
      assert (a + rest)[x] == total[x];
    }
  }

  // A change of one slot that hands its mapping to the writer or releases it.
  lemma ConservedMove(s: State, s': State, t: nat, slot: Slot)
    requires s.next >= 1 && Conserved(s) && t < |s.slots|
    requires s'.slots == s.slots[t := slot] && s'.next == s.next && Held(slot) == []
    requires (s'.taken == s.taken + Held(s.slots[t]) && s'.released == s.released)
             || (s'.taken == s.taken && s'.released == s.released + Held(s.slots[t]))
    ensures Conserved(s')
  {
    hide OwnedAddresses, Held, Addresses;
    OwnedUpdate(s.slots, t, slot);
    MultisetSums(multiset(Addresses(s.next)), multiset(OwnedAddresses(s.slots)), multiset(OwnedAddresses(s'.slots)),
                 multiset(Held(s.slots[t])), multiset(Held(slot)), multiset(s.taken) + multiset(s.released));
  }

  lemma ConservedSame(s: State, s': State, t: nat, slot: Slot)
    requires s.next >= 1 && Conserved(s) && t < |s.slots|
    requires s'.slots == s.slots[t := slot] && s'.next == s.next
    requires Held(slot) == Held(s.slots[t]) && s'.taken == s.taken && s'.released == s.released
    ensures Conserved(s')
  {
    hide OwnedAddresses, Held, Addresses;
    OwnedUpdate(s.slots, t, slot);
    MultisetSums(multiset(Addresses(s.next)), multiset(OwnedAddresses(s.slots)), multiset(OwnedAddresses(s'.slots)),
                 multiset(Held(s.slots[t])), multiset(Held(slot)), multiset(s.taken) + multiset(s.released));
  }

  lemma ConservedFill(s: State, s': State, t: nat, slot: Slot)
    requires s.next >= 1 && Conserved(s) && t < |s.slots|
    requires s'.slots == s.slots[t := slot] && s'.next == s.next + 1
    requires Held(s.slots[t]) == [] && Held(slot) == [s.next] && s'.taken == s.taken && s'.released == s.released
    ensures Conserved(s')
  {
    hide OwnedAddresses, Held;
    OwnedUpdate(s.slots, t, slot);
    MultisetSums(multiset(Addresses(s.next)), multiset(OwnedAddresses(s.slots)), multiset(OwnedAddresses(s'.slots)),
                 multiset(Held(s.slots[t])), multiset(Held(slot)), multiset(s.taken) + multiset(s.released));
    assert Addresses(s'.next) == Addresses(s.next) + [s.next];
  }

  // ---------- Steps that leave the page ids alone ----------

  ghost predicate SameIds(s: State, s': State) {
    && |s'.slots| == |s.slots|
    && forall t :: 0 <= t < |s.slots| ==>
         s'.slots[t].pageId == s.slots[t].pageId && s'.slots[t].sequence == s.slots[t].sequence
  }

  ghost predicate SameSlots(s: State, s': State) {
    && SameIds(s, s') && s'.fills == s.fills && s.current <= s'.current && Done(s) <= Done(s')
  }

  lemma FillsMono(g: Ring, s: State, s': State)
    requires g.capacity > 0 && |s.slots| == g.capacity && SameSlots(s, s') && LaterFillsStay(g, s)
    requires forall t :: 0 <= t < |s.slots| && Guarded(s', t) ==>
              Guarded(s, t) && GuardedPage(s, t) == GuardedPage(s', t)
    ensures LaterFillsStay(g, s')
  {
    forall t, w | 0 <= t < |s'.slots| && Guarded(s', t) && s'.slots[t].sequence <= w < s'.fills
      ensures StillThere(g, s', GuardedPage(s', t), w)
    {
      assert Guarded(s, t);
      assert StillThere(g, s, GuardedPage(s, t), w);
    }
  }

  lemma GapsMono(s: State, s': State)
    requires SameSlots(s, s') && NoGaps(s)
    ensures NoGaps(s')
  {
    forall t, z | 0 <= t < |s'.slots| && Live(s', t) && Done(s') < z < s'.slots[t].pageId
      ensures InRing(s', z)
    {
      assert Live(s, t) && InRing(s, z);
      var v :| 0 <= v < |s.slots| && s.slots[v].pageId == z;
      assert s'.slots[v].pageId == z;
    }
  }

  lemma InRingSame(s: State, s': State, z: int)
    requires SameIds(s, s')
    ensures InRing(s, z) <==> InRing(s', z)
  {
    if InRing(s, z) {
      var v :| 0 <= v < |s.slots| && s.slots[v].pageId == z;
      assert s'.slots[v].pageId == z;
    }
    if InRing(s', z) {
      var v :| 0 <= v < |s'.slots| && s'.slots[v].pageId == z;
      assert s.slots[v].pageId == z;
    }
  }

  lemma PassedMono(s: State, s': State, local: int, i: nat)
    requires SameSlots(s, s') && PassedOver(s, local, i)
    ensures PassedOver(s', local, i)
  {
    forall z | local < z < local + i && z > Done(s')
      ensures InRing(s', z)
    {
      InRingSame(s, s', z);
    }
  }

  lemma PassMono(g: Ring, s: State, s': State)
    requires g.capacity > 0 && |s.slots| == g.capacity && SameSlots(s, s') && PassOK(g, s) && s'.warmer == s.warmer
    requires s.warmer.Filling? ==> !BeingClaimed(s', NextSlot(g, s'))
    requires forall t :: 0 <= t < |s.slots| && BeingClaimed(s', t) ==> BeingClaimed(s, t) && s'.current == s.current
    ensures PassOK(g, s')
  {
    hide InRing, PassedOver;
    match s.warmer
    case Passing(local, i) =>
      if PassedOver(s, local, i) { PassedMono(s, s', local, i); }
    case Swapping(local, i) =>
      InRingSame(s, s', local + i);
      if PassedOver(s, local, i) { PassedMono(s, s', local, i); }
    case Filling(local, i) =>
      InRingSame(s, s', local + i);
      PassedMono(s, s', local, i);
    case _ =>
  }

  ghost predicate WriterStep(g: Ring, s: State, step: Step, s': State)
    requires g.capacity > 0 && |s.slots| == g.capacity
  {
    (step.Request? || step == PassSlot || step == ReadAddress || step == ClearOwned || step == Miss
     || step == UpdateCurrent)
    && Next(g, s, step, s')
  }

  lemma WriterKeepsSlots(g: Ring, s: State, step: Step, s': State)
    requires SlotsOK(g, s) && ClaimOK(s) && WriterStep(g, s, step, s')
    ensures SlotsOK(g, s') && SameSlots(s, s') && g.capacity > 0 && |s.slots| == g.capacity
  {
  }

  lemma WriterKeepsGuards(g: Ring, s: State, step: Step, s': State)
    requires SlotsOK(g, s) && ClaimOK(s) && WriterStep(g, s, step, s')
    ensures |s'.slots| == |s.slots|
    ensures forall t :: 0 <= t < |s.slots| && Guarded(s', t) ==>
              Guarded(s, t) && GuardedPage(s, t) == GuardedPage(s', t)
    ensures forall t :: 0 <= t < |s.slots| && BeingClaimed(s', t) ==> BeingClaimed(s, t) && s'.current == s.current
  {
  }

  lemma WriterKeepsClaim(g: Ring, s: State, step: Step, s': State)
    requires SlotsOK(g, s) && ClaimOK(s) && OwnOK(s) && WriterStep(g, s, step, s')
    ensures ClaimOK(s')
  {
  }

  lemma WriterKeepsOwnership(g: Ring, s: State, step: Step, s': State)
    requires SlotsOK(g, s) && ClaimOK(s) && OwnOK(s) && WriterStep(g, s, step, s')
    ensures OwnOK(s')
  {
  }

  lemma WriterKeepsMappings(g: Ring, s: State, step: Step, s': State)
    requires SlotsOK(g, s) && ClaimOK(s) && OwnOK(s) && Conserved(s) && WriterStep(g, s, step, s')
    ensures Conserved(s')
  {
    hide OwnedAddresses, Addresses, SlotsOK;
    if step == ClearOwned {
      var t := s.writer.slot;
      ConservedMove(s, s', t, s.slots[t].(owned := false));
    }
  }

  lemma DistinctFrame(s: State, s': State)
    requires DistinctPages(s) && SameIds(s, s')
    ensures DistinctPages(s')
  {
  }

  // The writer's steps other than the swap.
  lemma WriterKeeps(g: Ring, s: State, step: Step, s': State)
    requires Inv(g, s) && WriterStep(g, s, step, s') && s.warmer != Gone
    ensures Inv(g, s')
  {
    hide SlotsOK, LaterFillsStay, NoGaps, PassOK, Conserved, DistinctPages, OwnedAddresses, ClaimOK, OwnOK, Guarded,
      GuardedPage;
    WriterKeepsSlots(g, s, step, s');
    WriterKeepsGuards(g, s, step, s');
    WriterKeepsClaim(g, s, step, s');
    WriterKeepsOwnership(g, s, step, s');
    WriterKeepsMappings(g, s, step, s');
    FillsMono(g, s, s');
    GapsMono(s, s');
    PassOKBound(g, s);
    PassMono(g, s, s');
    DistinctFrame(s, s');
  }

  lemma PassOKBound(g: Ring, s: State)
    requires g.capacity > 0 && |s.slots| == g.capacity && PassOK(g, s)
    ensures s.warmer.Filling? ==> !BeingClaimed(s, NextSlot(g, s))
  {
  }

  // ---------- Claiming ----------

  // Swapping the id of the slot that holds the requested page.
  lemma ClaimKeepsFills(g: Ring, s: State, t: nat, s': State)
    requires SlotsOK(g, s) && LaterFillsStay(g, s) && Next(g, s, ClaimSlot(t), s')
    ensures LaterFillsStay(g, s')
  {
    forall u, w | 0 <= u < |s'.slots| && Guarded(s', u) && s'.slots[u].sequence <= w < s'.fills
      ensures StillThere(g, s', GuardedPage(s', u), w)
    {
      assert Guarded(s, u) && GuardedPage(s, u) == GuardedPage(s', u);
      assert StillThere(g, s, GuardedPage(s, u), w);
      if u == t {
        ModDistinct(s.slots[t].sequence - 1, w, g.capacity);
      }
    }
  }

  lemma ClaimKeepsGaps(g: Ring, s: State, t: nat, s': State)
    requires SlotsOK(g, s) && NoGaps(s) && Next(g, s, ClaimSlot(t), s')
    ensures NoGaps(s')
  {
    forall u, z | 0 <= u < |s'.slots| && Live(s', u) && Done(s') < z < s'.slots[u].pageId
      ensures InRing(s', z)
    {
      assert Live(s, u) && InRing(s, z);
      var v :| 0 <= v < |s.slots| && s.slots[v].pageId == z;
      assert s'.slots[v].pageId == z;
    }
  }

  lemma InRingAfterClaim(g: Ring, s: State, t: nat, s': State, z: int)
    requires |s.slots| == g.capacity > 0 && Next(g, s, ClaimSlot(t), s')
    ensures InRing(s', z) ==> InRing(s, z) || z == EMPTY
    ensures InRing(s, z) && z != s.current + 1 ==> InRing(s', z)
  {
    if InRing(s', z) {
      var v :| 0 <= v < |s'.slots| && s'.slots[v].pageId == z;
      assert v == t || s.slots[v].pageId == z;
    }
    if InRing(s, z) && z != s.current + 1 {
      var v :| 0 <= v < |s.slots| && s.slots[v].pageId == z;
      assert s'.slots[v].pageId == z;
    }
  }

  lemma PassedAfterClaim(g: Ring, s: State, t: nat, s': State, local: int, i: nat)
    requires |s.slots| == g.capacity > 0 && Next(g, s, ClaimSlot(t), s') && PassedOver(s, local, i)
    ensures PassedOver(s', local, i)
  {
    hide InRing;
    forall z | local < z < local + i && z > Done(s')
      ensures InRing(s', z)
    {
      InRingAfterClaim(g, s, t, s', z);
    }
  }

  lemma ClaimKeepsPass(g: Ring, s: State, t: nat, s': State)
    requires SlotsOK(g, s) && PassOK(g, s) && Next(g, s, ClaimSlot(t), s')
    ensures PassOK(g, s')
  {
    hide InRing, PassedOver;
    match s.warmer
    case Passing(local, i) =>
      if PassedOver(s, local, i) { PassedAfterClaim(g, s, t, s', local, i); }
    case Swapping(local, i) =>
      InRingAfterClaim(g, s, t, s', local + i);
      if PassedOver(s, local, i) { PassedAfterClaim(g, s, t, s', local, i); }
    case Filling(local, i) =>
      assert s.slots[NextSlot(g, s)].pageId == WARMING;
      InRingAfterClaim(g, s, t, s', local + i);
      PassedAfterClaim(g, s, t, s', local, i);
    case _ =>
  }

  lemma ClaimKeeps(g: Ring, s: State, t: nat, s': State)
    requires Inv(g, s) && Next(g, s, ClaimSlot(t), s') && s.warmer != Gone
    ensures Inv(g, s')
  {
    hide LaterFillsStay, NoGaps, PassOK, Conserved, OwnedAddresses;
    ClaimKeepsFills(g, s, t, s');
    ClaimKeepsGaps(g, s, t, s');
    ClaimKeepsPass(g, s, t, s');
    ConservedSame(s, s', t, s.slots[t].(pageId := EMPTY));
  }
}
