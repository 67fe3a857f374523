/** The ring through which the page warmer hands pre-mapped pages to the writer.

    The warmer and the writer interleave at every atomic operation. The writer's claim is two
    steps: a compare-and-swap on the slot's page id, and only then the reads of the slot. */
module PageWarmer {
  import opened Layout

  // `capacity` is RingSize; `distance` is warmup_distance_, never more than half of it.
  datatype Ring = Ring(capacity: nat, distance: nat)

  predicate ValidRing(g: Ring) {
    1 <= g.distance && 2 * g.distance <= g.capacity
  }

  const EMPTY: int := -1
  const WARMING: int := -2

  // sequence counts fills from 1; address 0 stands for no mapping.
  datatype Slot = Slot(pageId: int, address: nat, owned: bool, sequence: nat)

  datatype WriterPhase =
    | Writing
    | Scanning(start: nat, i: nat)             // getWarmedPage(current + 1): i slots looked at, from read_index_ on
    | Claimed(slot: nat)                       // page id swapped to EMPTY
    | AddressRead(slot: nat, address: nat)     // address read, ownership not yet cleared
    | Warmed(address: nat)                     // getWarmedPage returned this address
    | Missed                                   // getWarmedPage returned 0

  datatype WarmerPhase =
    | Top
    | Passing(local: int, i: nat)              // about to look for page local + i in the ring
    | Swapping(local: int, i: nat)             // not found; about to claim the next slot
    | Filling(local: int, i: nat)              // slot claimed, mapping the page
    | Cleaning(local: int, j: nat)
    | Gone

  // pageOf says which page an address maps; taken are the addresses the writer's pages own.
  datatype State = State(slots: seq<Slot>, fills: nat, current: int, writer: WriterPhase, warmer: WarmerPhase,
                         pageOf: map<nat, int>, next: nat, taken: seq<nat>, released: seq<nat>)

  ghost predicate Init(g: Ring, s: State) {
    && ValidRing(g) && s.current >= 0
    && s == State(seq(g.capacity, _ => Slot(EMPTY, 0, false, 0)), 0, s.current, Writing, Top, map[], 1, [], [])
  }

  datatype Step =
    | Request(start: nat)
    | ClaimSlot(slot: nat)
    | PassSlot
    | ReadAddress
    | ClearOwned
    | Miss
    | UpdateCurrent
    | LoadCurrent
    | LookInRing
    | SwapSlot
    | FillSlot
    | EndPass
    | CleanSlot
    | EndCleaning
    | Shutdown

  ghost predicate InRing(s: State, page: int) {
    exists t :: 0 <= t < |s.slots| && s.slots[t].pageId == page
  }

  // The slot that the next fill goes to.
  function NextSlot(g: Ring, s: State): nat
    requires g.capacity > 0
  {
    s.fills % g.capacity
  }

  // The slot that getWarmedPage looks at next.
  function Looked(g: Ring, w: WriterPhase): (t: nat)
    requires g.capacity > 0 && w.Scanning?
    ensures t < g.capacity
  {
    (w.start + w.i) % g.capacity
  }

  function Freed(slot: Slot): Slot {
    if slot.owned && slot.address != 0 then Slot(EMPTY, 0, false, slot.sequence) else slot.(pageId := EMPTY)
  }

  function LetGo(slot: Slot): Slot {
    if slot.owned && slot.address != 0 then slot.(address := 0, owned := false) else slot
  }

  // releaseAllPages: every mapping a slot still owns, in slot order.
  function OwnedAddresses(slots: seq<Slot>): seq<nat> {
    if slots == [] then []
    else (if slots[0].owned && slots[0].address != 0 then [slots[0].address] else []) + OwnedAddresses(slots[1..])
  }

  ghost predicate Next(g: Ring, s: State, step: Step, s': State)
    requires g.capacity > 0 && |s.slots| == g.capacity
  {
    match step
    case Request(start) =>
      && s.writer == Writing && s.warmer != Gone && start < g.capacity
      && s' == s.(writer := Scanning(start, 0))
    case ClaimSlot(t) =>
      && s.writer.Scanning? && s.writer.i < g.capacity && t == Looked(g, s.writer) && t < |s.slots|
      && s.slots[t].pageId == s.current + 1
      && s' == s.(slots := s.slots[t := s.slots[t].(pageId := EMPTY)], writer := Claimed(t))
    case ReadAddress =>
      && s.writer.Claimed? && s.writer.slot < |s.slots|
      && s' == s.(writer := AddressRead(s.writer.slot, s.slots[s.writer.slot].address))
    case ClearOwned =>
      && s.writer.AddressRead? && s.writer.slot < |s.slots|
      && var t := s.writer.slot;
         s' == s.(slots := s.slots[t := s.slots[t].(owned := false)], writer := Warmed(s.writer.address),
                  taken := s.taken + [s.writer.address])
    case PassSlot =>
      && s.writer.Scanning? && s.writer.i < g.capacity && s.slots[Looked(g, s.writer)].pageId != s.current + 1
      && s' == s.(writer := Scanning(s.writer.start, s.writer.i + 1))
    case Miss => s.writer.Scanning? && s.writer.i == g.capacity && s' == s.(writer := Missed)
    case UpdateCurrent =>
      && (s.writer.Warmed? || s.writer.Missed?)
      && s' == s.(current := s.current + 1, writer := Writing)
    case LoadCurrent => s.warmer == Top && s' == s.(warmer := Passing(s.current, 1))
    case LookInRing =>
      && s.warmer.Passing? && s.warmer.i <= g.distance
      && var local, i := s.warmer.local, s.warmer.i;
         s' == s.(warmer := if InRing(s, local + i) then Passing(local, i + 1) else Swapping(local, i))
    case SwapSlot =>
      && s.warmer.Swapping?
      && var local, i, t := s.warmer.local, s.warmer.i, NextSlot(g, s);
         s' == if s.slots[t].pageId == EMPTY
               then s.(slots := s.slots[t := s.slots[t].(pageId := WARMING)], warmer := Filling(local, i))
               else s.(warmer := Passing(local, i + 1))
    case FillSlot =>
      && s.warmer.Filling?
      && var local, i, t := s.warmer.local, s.warmer.i, NextSlot(g, s);
         s' == s.(slots := s.slots[t := Slot(local + i, s.next, true, s.fills + 1)], fills := s.fills + 1,
                  warmer := Passing(local, i + 1), pageOf := s.pageOf[s.next := local + i], next := s.next + 1)
    case EndPass =>
      && s.warmer.Passing? && s.warmer.i == g.distance + 1
      && s' == s.(warmer := Cleaning(s.warmer.local, 0))
    case CleanSlot =>
      && s.warmer.Cleaning? && s.warmer.j < |s.slots|
      && var local, j := s.warmer.local, s.warmer.j;
         var slot := s.slots[j];
         s' == if 0 <= slot.pageId < local - g.capacity
               then s.(slots := s.slots[j := Freed(slot)], warmer := Cleaning(local, j + 1),
                       released := s.released + OwnedAddresses([slot]))
               else s.(warmer := Cleaning(local, j + 1))
    case EndCleaning =>
      && s.warmer.Cleaning? && s.warmer.j == |s.slots|
      && s' == s.(warmer := Top)
    case Shutdown =>
      // stop() joins the warmer, then the ring is destroyed; the writer is not in getWarmedPage.
      && s.warmer == Top && s.writer == Writing
      && s' == s.(warmer := Gone, slots := seq(|s.slots|, i requires 0 <= i < |s.slots| => LetGo(s.slots[i])),
                  released := s.released + OwnedAddresses(s.slots))
  }
}
