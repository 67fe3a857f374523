/** A reading journal with its two threads: one maps the next page ahead of the reader, one unmaps the
    pages the reader has left. They are joined by the journal's destructor.

    A critical section that does not wait is one step, taken when the mutex is free. The two waits are
    steps of their own: the predicate is evaluated while the mutex is held, and only a later step releases
    the mutex and sleeps, so that a notification may fall between.

    The running flag is loaded relaxed. The retire thread loads it under the mutex under which it is cleared,
    so it reads the latest value. The warmer holds another mutex: until the destructor has been through that
    one, each of its loads may still return the old value, but not after one that returned the new. */
module Handoff {
  import opened Counting

  // `timeout` bounds both polling loops; `retained` is max_retained_pages_.
  datatype Config = Config(timeout: nat, retained: nat)

  // A mapping is a positive number, zero is none.
  datatype MainPhase =
    | Reading
    | Taking(page: int)                        // loadPage: look for the warmed mapping
    | Mapping(page: int)                       // no warmed mapping: map the page here
    | Switching(page: int, mapping: nat)
    | Retiring(page: int)                      // move surplus pages to the queue
    | Pushing(page: int, mapping: nat)
    | Notifying(page: int)
    | Signalling(page: int)                    // ask for the next page
    | Stopped                                  // destructor: flag cleared, pages queued
    | RetireNotified
    | WarmerLocked                             // warmer mutex taken and given back
    | WarmerNotified
    | RetireJoined
    | WarmerJoined
    | Destroyed

  datatype WarmerPhase =
    | Wanting                                  // about to lock and evaluate the wait predicate
    | Evaluating                               // mutex held
    | FallingAsleep                            // mutex held, predicate was false
    | Asleep
    | Woken                                    // mutex held, predicate was true
    | Polling(page: int, t: nat)
    | Stating(page: int, t: nat)
    | Rechecking(page: int)
    | Opening(page: int)
    | HeaderPolling(page: int, mapping: nat, t: nat)
    | HeaderReading(page: int, mapping: nat, t: nat)
    | Preparing(page: int, mapping: nat)
    | Installing(page: int, mapping: nat)
    | Exited

  datatype RetirePhase =
    | RWanting
    | REvaluating                              // mutex held
    | RFallingAsleep                           // mutex held
    | RAsleep
    | RDraining                                // mutex held
    | RReleasing(mapping: nat)
    | RLocking
    | RExited

  datatype State = State(main: MainPhase, warmer: WarmerPhase, retire: RetirePhase,
                         running: bool, pending: bool, wanted: int, addr: nat, readyId: int,
                         current: nat, currentId: int, retired: seq<nat>, queue: seq<nat>,
                         released: seq<nat>, next: nat, pageOf: map<nat, int>, stopSeen: bool)

  ghost predicate Init(s: State) {
    s == State(Reading, Wanting, RWanting, true, false, -1, 0, -1, 0, -1, [], [], [], 1, map[], false)
  }

  predicate WarmerMutexFree(s: State) {
    !(s.warmer.Evaluating? || s.warmer.FallingAsleep? || s.warmer.Woken?)
  }

  predicate RetireMutexFree(s: State) {
    !(s.retire.REvaluating? || s.retire.RFallingAsleep? || s.retire.RDraining?)
  }

  // The flag is cleared, and nothing orders its clearing before the warmer's loads yet.
  predicate StopInFlight(s: State) {
    s.main.Stopped? || s.main.RetireNotified?
  }

  // What the warmer's load of the running flag may tell it.
  predicate MayLoad(s: State, stop: bool) {
    if stop then !s.running else s.running || (StopInFlight(s) && !s.stopSeen)
  }

  function Knowing(s: State, stop: bool): State {
    s.(stopSeen := s.stopSeen || stop)
  }

  function WokenRetire(s: State): RetirePhase {
    if s.retire.RAsleep? then RWanting else s.retire
  }

  function WokenWarmer(s: State): WarmerPhase {
    if s.warmer.Asleep? then Wanting else s.warmer
  }

  function Opt(m: nat): seq<nat> {
    if m == 0 then [] else [m]
  }

  datatype MainStep =
    | LoadPage(page: int)
    | TakeWarmed
    | TakeInvalid                              // the warmed page's header is rejected
    | TakeNothing
    | MapHere
    | SwitchPage
    | PopRetired
    | PushQueue
    | NotifyRetire
    | EndRetiring
    | SignalWarmer
    | Stop
    | NotifyAllRetire
    | LockWarmer
    | NotifyAllWarmer
    | JoinRetire
    | JoinWarmer
    | ReleaseWarmed

  ghost predicate MainNext(c: Config, s: State, step: MainStep, s': State) {
    match step
    case LoadPage(page) =>
      && s.main == Reading && page >= 0 && (s.current == 0 || s.currentId != page)
      && s' == s.(main := Taking(page))
    case TakeWarmed =>
      && s.main.Taking? && WarmerMutexFree(s) && s.readyId == s.main.page && s.addr != 0
      && s' == s.(main := Switching(s.main.page, s.addr), addr := 0, readyId := -1)
    case TakeInvalid =>
      && s.main.Taking? && WarmerMutexFree(s) && s.readyId == s.main.page && s.addr != 0
      && s' == s.(main := Mapping(s.main.page), addr := 0, readyId := -1, released := s.released + [s.addr])
    case TakeNothing =>
      && s.main.Taking? && WarmerMutexFree(s) && !(s.readyId == s.main.page && s.addr != 0)
      && s' == s.(main := Mapping(s.main.page))
    case MapHere =>
      && s.main.Mapping?
      && s' == s.(main := Switching(s.main.page, s.next), next := s.next + 1, pageOf := s.pageOf[s.next := s.main.page])
    case SwitchPage =>
      && s.main.Switching?
      && s' == s.(main := Retiring(s.main.page), current := s.main.mapping, currentId := s.main.page,
                  retired := s.retired + Opt(s.current))
    case PopRetired =>
      && s.main.Retiring? && |s.retired| > c.retained
      && s' == s.(main := Pushing(s.main.page, s.retired[0]), retired := s.retired[1..])
    case PushQueue =>
      && s.main.Pushing? && RetireMutexFree(s)
      && s' == s.(main := Notifying(s.main.page), queue := s.queue + [s.main.mapping])
    case NotifyRetire =>
      && s.main.Notifying?
      && s' == s.(main := Retiring(s.main.page), retire := WokenRetire(s))
    case EndRetiring =>
      && s.main.Retiring? && |s.retired| <= c.retained
      && s' == s.(main := Signalling(s.main.page))
    case SignalWarmer =>
      && s.main.Signalling? && WarmerMutexFree(s)
      && s' == s.(main := Reading, wanted := s.main.page + 1, pending := true, warmer := WokenWarmer(s))
    case Stop =>
      && s.main == Reading && RetireMutexFree(s)
      && s' == s.(main := Stopped, running := false, queue := s.queue + Opt(s.current) + s.retired,
                  current := 0, currentId := -1, retired := [])
    case NotifyAllRetire =>
      && s.main == Stopped
      && s' == s.(main := RetireNotified, retire := WokenRetire(s))
    case LockWarmer =>
      && s.main == RetireNotified && WarmerMutexFree(s)
      && s' == s.(main := WarmerLocked)
    case NotifyAllWarmer =>
      && s.main == WarmerLocked
      && s' == s.(main := WarmerNotified, warmer := WokenWarmer(s))
    case JoinRetire =>
      && s.main == WarmerNotified && s.retire == RExited
      && s' == s.(main := RetireJoined)
    case JoinWarmer =>
      && s.main == RetireJoined && s.warmer == Exited
      && s' == s.(main := WarmerJoined)
    case ReleaseWarmed =>
      && s.main == WarmerJoined
      && s' == s.(main := Destroyed, addr := 0, readyId := -1, released := s.released + Opt(s.addr))
  }

  datatype WarmerStep =
    | WLock
    | WEvaluate(stop: bool)
    | WSleep
    | WSpurious
    | WDecide(stop: bool)
    | WPoll(stop: bool)
    | WStat(found: bool)
    | WRecheck(stop: bool)
    | WOpen(mapped: bool)
    | WHeaderPoll(stop: bool)
    | WHeader(valid: bool)
    | WPrepare(prepared: bool)
    | WInstall(stop: bool)

  ghost predicate WarmerNext(c: Config, s: State, step: WarmerStep, s': State) {
    match step
    case WLock => s.warmer == Wanting && s' == s.(warmer := Evaluating)
    case WEvaluate(stop) =>
      && s.warmer == Evaluating && MayLoad(s, stop)
      && s' == Knowing(s, stop).(warmer := if s.pending || stop then Woken else FallingAsleep)
    case WSleep => s.warmer == FallingAsleep && s' == s.(warmer := Asleep)
    case WSpurious => s.warmer == Asleep && s' == s.(warmer := Wanting)
    case WDecide(stop) =>
      && s.warmer == Woken && MayLoad(s, stop)
      && s' == if stop then Knowing(s, stop).(warmer := Exited)
               else s.(pending := false, warmer := if s.wanted < 0 then Wanting else Polling(s.wanted, 0))
    case WPoll(stop) =>
      && s.warmer.Polling? && MayLoad(s, stop)
      && var page, t := s.warmer.page, s.warmer.t;
         s' == Knowing(s, stop).(warmer := if t >= c.timeout || s.pending || stop then Wanting else Stating(page, t))
    case WStat(found) =>
      && s.warmer.Stating?
      && var page, t := s.warmer.page, s.warmer.t;
         s' == s.(warmer := if found then Rechecking(page) else Polling(page, t + 1))
    case WRecheck(stop) =>
      && s.warmer.Rechecking? && MayLoad(s, stop)
      && s' == Knowing(s, stop).(warmer := if s.pending || stop then Wanting else Opening(s.warmer.page))
    case WOpen(mapped) =>
      && s.warmer.Opening?
      && var page := s.warmer.page;
         s' == if mapped then s.(warmer := HeaderPolling(page, s.next, 0), next := s.next + 1,
                                 pageOf := s.pageOf[s.next := page])
               else s.(warmer := Wanting)
    case WHeaderPoll(stop) =>
      && s.warmer.HeaderPolling? && MayLoad(s, stop)
      && var page, m, t, k := s.warmer.page, s.warmer.mapping, s.warmer.t, Knowing(s, stop);
         s' == if t >= c.timeout || s.pending || stop then k.(warmer := Wanting, released := s.released + [m])
               else k.(warmer := HeaderReading(page, m, t))
    case WHeader(valid) =>
      && s.warmer.HeaderReading?
      && var page, m, t := s.warmer.page, s.warmer.mapping, s.warmer.t;
         s' == s.(warmer := if valid then Preparing(page, m) else HeaderPolling(page, m, t + 1))
    case WPrepare(prepared) =>
      && s.warmer.Preparing?
      && var page, m := s.warmer.page, s.warmer.mapping;
         s' == if prepared then s.(warmer := Installing(page, m))
               else s.(warmer := Wanting, released := s.released + [m])
    case WInstall(stop) =>
      && s.warmer.Installing? && MayLoad(s, stop)
      && var page, m, k := s.warmer.page, s.warmer.mapping, Knowing(s, stop);
         s' == if s.pending || stop then k.(warmer := Wanting, released := s.released + [m])
               else k.(warmer := Wanting, addr := m, readyId := page, released := s.released + Opt(s.addr))
  }

  datatype RetireStep = RLock | REvaluate | RSleep | RSpurious | RDrain | RRelease | RRelock

  ghost predicate RetireNext(s: State, step: RetireStep, s': State) {
    match step
    case RLock => s.retire == RWanting && s' == s.(retire := REvaluating)
    case REvaluate =>
      && s.retire == REvaluating
      && s' == s.(retire := if s.queue != [] || !s.running then RDraining else RFallingAsleep)
    case RSleep => s.retire == RFallingAsleep && s' == s.(retire := RAsleep)
    case RSpurious => s.retire == RAsleep && s' == s.(retire := RWanting)
    case RDrain =>
      && s.retire == RDraining
      && s' == if s.queue != [] then s.(retire := RReleasing(s.queue[0]), queue := s.queue[1..])
               else s.(retire := if s.running then RWanting else RExited)
    case RRelease =>
      && s.retire.RReleasing?
      && s' == s.(retire := RLocking, released := s.released + [s.retire.mapping])
    case RRelock => s.retire == RLocking && s' == s.(retire := RDraining)
  }

  datatype Step = OfMain(mainStep: MainStep) | OfWarmer(warmerStep: WarmerStep) | OfRetire(retireStep: RetireStep)

  ghost predicate Next(c: Config, s: State, step: Step, s': State) {
    match step
    case OfMain(ms) => MainNext(c, s, ms, s')
    case OfWarmer(ws) => WarmerNext(c, s, ws, s')
    case OfRetire(rs) => RetireNext(s, rs, s')
  }

  // ---------- Who owns which mapping ----------

  function MainHolds(s: State): nat {
    match s.main
    case Switching(_, m) => m
    case Pushing(_, m) => m
    case _ => 0
  }

  function WarmerHolds(s: State): nat {
    match s.warmer
    case HeaderPolling(_, m, _) => m
    case HeaderReading(_, m, _) => m
    case Preparing(_, m) => m
    case Installing(_, m) => m
    case _ => 0
  }

  function RetireHolds(s: State): nat {
    if s.retire.RReleasing? then s.retire.mapping else 0
  }

  function One(m: nat, a: nat): nat {
    if m == a then 1 else 0
  }

  // In how many places mapping a is owned.
  function Owners(s: State, a: nat): nat {
    One(s.addr, a) + One(s.current, a) + One(MainHolds(s), a) + One(WarmerHolds(s), a) + One(RetireHolds(s), a)
    + Count(s.retired, a) + Count(s.queue, a)
  }

  ghost predicate OneOwner(s: State) {
    forall a :: a >= 1 ==> Owners(s, a) + Count(s.released, a) == if a < s.next then 1 else 0
  }

  // Past the clearing of the flag, past each notification, past each join.
  predicate Stopping(m: MainPhase) {
    m.Stopped? || m.RetireNotified? || m.WarmerLocked? || m.WarmerNotified? || m.RetireJoined? || m.WarmerJoined?
    || m.Destroyed?
  }

  ghost predicate SharedMapsOK(s: State) {
    && 1 <= s.next && (forall a :: a in s.pageOf <==> 1 <= a < s.next)
    && (s.addr != 0 ==> s.addr < s.next && s.pageOf[s.addr] == s.readyId)
    && (s.current != 0 ==> s.current < s.next && s.pageOf[s.current] == s.currentId)
    && (forall i :: 0 <= i < |s.retired| ==> 0 != s.retired[i] < s.next)
    && (forall i :: 0 <= i < |s.queue| ==> 0 != s.queue[i] < s.next)
  }

  ghost predicate Maps(s: State, m: nat, page: int) {
    0 < m < s.next && m in s.pageOf && s.pageOf[m] == page
  }

  // The mapping a thread holds exists, and maps the page that the thread works on.
  ghost predicate MainMapsOK(s: State) {
    match s.main
    case Switching(page, m) => Maps(s, m, page)
    case Pushing(_, m) => 0 < m < s.next
    case _ => true
  }

  ghost predicate WarmerMapsOK(s: State) {
    match s.warmer
    case HeaderPolling(page, m, _) => Maps(s, m, page)
    case HeaderReading(page, m, _) => Maps(s, m, page)
    case Preparing(page, m) => Maps(s, m, page)
    case Installing(page, m) => Maps(s, m, page)
    case _ => true
  }

  ghost predicate RetireMapsOK(s: State) {
    s.retire.RReleasing? ==> 0 < s.retire.mapping < s.next
  }

  ghost predicate MapsOK(s: State) {
    SharedMapsOK(s) && MainMapsOK(s) && WarmerMapsOK(s) && RetireMapsOK(s)
  }

  // No thread sleeps through a notification it still needs.
  ghost predicate WakeOK(s: State) {
    && (s.running <==> !Stopping(s.main))
    && (s.pending ==> !s.warmer.FallingAsleep? && !s.warmer.Asleep?)
    && (s.warmer.Asleep? ==> s.running || s.main.Stopped? || s.main.RetireNotified? || s.main.WarmerLocked?)
    && (s.warmer.FallingAsleep? ==> s.running || s.main.Stopped? || s.main.RetireNotified?)
    && (s.retire.RFallingAsleep? ==> s.running && s.queue == [])
    && (s.retire.RAsleep? ==> (s.running && (s.queue == [] || s.main.Notifying?)) || s.main.Stopped?)
    && (s.retire.RExited? ==> !s.running && s.queue == [])
    && (s.warmer.Exited? ==> !s.running)
    && (s.warmer.Woken? ==> s.pending || s.stopSeen)
    && (s.stopSeen ==> !s.running)
  }

  ghost predicate DestroyOK(s: State) {
    && (Stopping(s.main) ==> s.current == 0 && s.retired == [])
    && (s.main.RetireJoined? || s.main.WarmerJoined? || s.main.Destroyed? ==> s.retire == RExited)
    && (s.main.WarmerJoined? || s.main.Destroyed? ==> s.warmer == Exited)
    && (s.main.Destroyed? ==> s.addr == 0)
  }

  ghost predicate PollOK(c: Config, s: State) {
    (s.warmer.Stating? ==> s.warmer.t < c.timeout) && (s.warmer.HeaderReading? ==> s.warmer.t < c.timeout)
  }

  ghost predicate Inv(c: Config, s: State) {
    OneOwner(s) && MapsOK(s) && WakeOK(s) && DestroyOK(s) && PollOK(c, s)
  }

  // ---------- Every step keeps the invariant ----------

  lemma CountFront(xs: seq<nat>, a: nat)
    requires xs != []
    ensures Count(xs, a) == One(xs[0], a) + Count(xs[1..], a)
  {
    assert xs == [xs[0]] + xs[1..];
    CountAppend([xs[0]], xs[1..], a);
  }

  lemma CountOne(m: nat, a: nat)
    requires a >= 1
    ensures Count(Opt(m), a) == One(m, a) && (m != 0 ==> Count([m], a) == One(m, a)) && Count([], a) == 0
  {
  }

  lemma NextKeepsOwner(c: Config, s: State, step: Step, s': State)
    requires OneOwner(s) && MapsOK(s) && Next(c, s, step, s')
    ensures OneOwner(s')
  {
    hide MapsOK, Next, Owners, Count;
    forall a: nat | a >= 1
      ensures Owners(s', a) + Count(s'.released, a) == if a < s'.next then 1 else 0
    {
      assert Owners(s, a) + Count(s.released, a) == if a < s.next then 1 else 0;
      StepMovesOwner(c, s, step, s', a);
    }
  }

  // What a step does to the places of one mapping.
  lemma StepMovesOwner(c: Config, s: State, step: Step, s': State, a: nat)
    requires MapsOK(s) && Next(c, s, step, s') && a >= 1
    ensures Owners(s', a) + Count(s'.released, a)
            == Owners(s, a) + Count(s.released, a) + if s.next <= a < s'.next then 1 else 0
    ensures s.next <= s'.next
  {
    hide MapsOK, Owners, Count, MainNext, WarmerNext, RetireNext;
    match step
    case OfMain(ms) =>
      MainMovesOwner(c, s, ms, s', a);
      MainGrows(c, s, ms, s');
    case OfWarmer(ws) =>
      WarmerMovesOwner(c, s, ws, s', a);
      WarmerGrows(c, s, ws, s');
    case OfRetire(rs) =>
      RetireMovesOwner(s, rs, s', a);
      RetireLeaves(s, rs, s');
  }

  // The mappings a step may release or move.
  lemma HoldsReal(s: State)
    requires MapsOK(s)
    ensures s.main.Switching? || s.main.Pushing? ==> s.main.mapping != 0
    ensures s.warmer.HeaderPolling? || s.warmer.HeaderReading? || s.warmer.Preparing? || s.warmer.Installing? ==>
      s.warmer.mapping != 0
    ensures s.next >= 1
  {
  }

  // The steps that move pages between the current one, the lists and the main thread.
  lemma MainListsMove(c: Config, s: State, step: MainStep, s': State, a: nat)
    requires MainNext(c, s, step, s') && a >= 1 && (s.main.Switching? || s.main.Pushing? ==> s.main.mapping != 0)
    requires step.SwitchPage? || step.PopRetired? || step.PushQueue? || step.Stop?
    ensures Owners(s', a) == Owners(s, a) && s'.released == s.released && s'.next == s.next
  {
    hide Count;
    CountOne(0, a);
    match step
    case SwitchPage => CountOne(s.current, a); CountAppend(s.retired, Opt(s.current), a);
    case PopRetired => CountFront(s.retired, a);
    case PushQueue => CountOne(s.main.mapping, a); CountAppend(s.queue, [s.main.mapping], a);
    case Stop =>
      CountOne(s.current, a);
      CountAppend(s.queue + Opt(s.current), s.retired, a);
      CountAppend(s.queue, Opt(s.current), a);
  }

  lemma MainMovesOwner(c: Config, s: State, step: MainStep, s': State, a: nat)
    requires MapsOK(s) && MainNext(c, s, step, s') && a >= 1
    ensures Owners(s', a) + Count(s'.released, a)
            == Owners(s, a) + Count(s.released, a) + if s.next <= a < s'.next then 1 else 0
  {
    hide Count, MapsOK, MainNext, Owners;
    HoldsReal(s);
    if step.SwitchPage? || step.PopRetired? || step.PushQueue? || step.Stop? {
      MainListsMove(c, s, step, s', a);
    } else {
      MainTakes(c, s, step, s', a);
    }
  }

  // The other steps take, make or release a mapping, or none.
  lemma MainTakes(c: Config, s: State, step: MainStep, s': State, a: nat)
    requires MainNext(c, s, step, s') && a >= 1 && s.next >= 1
    requires !(step.SwitchPage? || step.PopRetired? || step.PushQueue? || step.Stop?)
    ensures Owners(s', a) + Count(s'.released, a)
            == Owners(s, a) + Count(s.released, a) + if s.next <= a < s'.next then 1 else 0
  {
    hide Count, WarmerMutexFree;
    match step
    case TakeInvalid => CountOne(s.addr, a); CountAppend(s.released, [s.addr], a);
    case ReleaseWarmed => CountOne(s.addr, a); CountAppend(s.released, Opt(s.addr), a);
    case _ =>
  }

  lemma WarmerMovesOwner(c: Config, s: State, step: WarmerStep, s': State, a: nat)
    requires MapsOK(s) && WarmerNext(c, s, step, s') && a >= 1
    ensures Owners(s', a) + Count(s'.released, a)
            == Owners(s, a) + Count(s.released, a) + if s.next <= a < s'.next then 1 else 0
  {
    hide Count, MapsOK;
    HoldsReal(s);
    if step.WHeaderPoll? || step.WPrepare? {
      WarmerReleases(c, s, step, s', a);
    } else if step.WInstall? {
      WarmerInstalls(c, s, step, s', a);
    }
  }

  lemma WarmerReleases(c: Config, s: State, step: WarmerStep, s': State, a: nat)
    requires WarmerNext(c, s, step, s') && a >= 1 && (step.WHeaderPoll? || step.WPrepare?) && s.warmer.mapping != 0
    ensures Owners(s', a) + Count(s'.released, a) == Owners(s, a) + Count(s.released, a)
    ensures s'.next == s.next
  {
    hide Count, Owners;
    CountOne(s.warmer.mapping, a);
    CountAppend(s.released, [s.warmer.mapping], a);
    WarmerAlone(s, s', a);
  }

  // A step that changes only the warmer's mapping, the shared one and what was released.
  lemma WarmerAlone(s: State, s': State, a: nat)
    requires s'.main == s.main && s'.retire == s.retire && s'.current == s.current && s'.retired == s.retired
    requires s'.queue == s.queue
    ensures Owners(s', a) - One(s'.addr, a) - One(WarmerHolds(s'), a)
            == Owners(s, a) - One(s.addr, a) - One(WarmerHolds(s), a)
  {
    hide Count, WarmerHolds;
  }

  lemma WarmerInstalls(c: Config, s: State, step: WarmerStep, s': State, a: nat)
    requires WarmerNext(c, s, step, s') && a >= 1 && step.WInstall? && s.warmer.mapping != 0
    ensures Owners(s', a) + Count(s'.released, a) == Owners(s, a) + Count(s.released, a)
    ensures s'.next == s.next
  {
    hide Count, Owners;
    WarmerAlone(s, s', a);
    CountOne(0, a);
    CountOne(s.warmer.mapping, a);
    CountAppend(s.released, [s.warmer.mapping], a);
    CountOne(s.addr, a);
    CountAppend(s.released, Opt(s.addr), a);
  }

  lemma RetireMovesOwner(s: State, step: RetireStep, s': State, a: nat)
    requires MapsOK(s) && RetireNext(s, step, s') && a >= 1
    ensures Owners(s', a) + Count(s'.released, a)
            == Owners(s, a) + Count(s.released, a) + if s.next <= a < s'.next then 1 else 0
  {
    hide Count;
    if step == RDrain && s.queue != [] {
      CountFront(s.queue, a);
    }
    if step == RRelease {
      CountOne(s.retire.mapping, a);
      CountAppend(s.released, [s.retire.mapping], a);
    }
  }

  lemma MainKeepsMaps(c: Config, s: State, step: MainStep, s': State)
    requires SharedMapsOK(s) && MainMapsOK(s) && MainNext(c, s, step, s')
    ensures SharedMapsOK(s') && MainMapsOK(s')
  {
    hide SharedMapsOK, MainMapsOK, MainNext;
    if step.PopRetired? || step.PushQueue? || step.SwitchPage? || step.Stop? {
      MainMovesPages(c, s, step, s');
    } else if step == MapHere {
      MainMakesMap(c, s, s');
    } else {
      MainTakesMap(c, s, step, s');
    }
  }

  lemma MainTakesMap(c: Config, s: State, step: MainStep, s': State)
    requires SharedMapsOK(s) && MainMapsOK(s) && MainNext(c, s, step, s')
    requires !(step.PopRetired? || step.PushQueue? || step.SwitchPage? || step.Stop? || step.MapHere?)
    ensures SharedMapsOK(s') && MainMapsOK(s')
  {
    hide WarmerMutexFree, RetireMutexFree;
  }

  lemma MainMakesMap(c: Config, s: State, s': State)
    requires SharedMapsOK(s) && MainMapsOK(s) && MainNext(c, s, MapHere, s')
    ensures SharedMapsOK(s') && MainMapsOK(s')
  {
  }

  // The steps that move pages between the lists.
  lemma MainMovesPages(c: Config, s: State, step: MainStep, s': State)
    requires SharedMapsOK(s) && MainMapsOK(s) && MainNext(c, s, step, s')
    requires step.PopRetired? || step.PushQueue? || step.SwitchPage? || step.Stop?
    ensures SharedMapsOK(s') && MainMapsOK(s')
  {
    hide WarmerMutexFree, RetireMutexFree;
  }

  // At most one mapping was made.
  ghost predicate Grown(s: State, s': State) {
    || (s'.next == s.next && s'.pageOf == s.pageOf)
    || (s'.next == s.next + 1 && s.next in s'.pageOf && s'.pageOf == s.pageOf[s.next := s'.pageOf[s.next]])
  }

  lemma StillMaps(s: State, s': State, m: nat, page: int)
    requires Maps(s, m, page) && Grown(s, s')
    ensures Maps(s', m, page)
  {
  }

  lemma MainGrows(c: Config, s: State, step: MainStep, s': State)
    requires MainNext(c, s, step, s')
    ensures Grown(s, s') && s'.retire in {s.retire, RWanting} && s'.warmer in {s.warmer, Wanting}
  {
    assert step == MapHere ==> s'.pageOf == s.pageOf[s.next := s.main.page];
  }

  lemma WarmerGrows(c: Config, s: State, step: WarmerStep, s': State)
    requires WarmerNext(c, s, step, s')
    ensures Grown(s, s') && s'.retire == s.retire && s'.main == s.main
  {
    assert step == WOpen(true) ==> s'.pageOf == s.pageOf[s.next := s.warmer.page];
  }

  lemma MainMapsFrame(s: State, s': State)
    requires MainMapsOK(s) && Grown(s, s') && s'.main == s.main
    ensures MainMapsOK(s')
  {
    hide Maps, Grown;
    GrownNext(s, s');
    if s.main.Switching? {
      StillMaps(s, s', s.main.mapping, s.main.page);
    }
  }

  lemma GrownNext(s: State, s': State)
    requires Grown(s, s')
    ensures s.next <= s'.next
  {
  }

  lemma WarmerMapsFrame(s: State, s': State)
    requires WarmerMapsOK(s) && Grown(s, s') && s'.warmer in {s.warmer, Wanting}
    ensures WarmerMapsOK(s')
  {
    hide Maps, Grown;
    if WarmerHolds(s) != 0 {
      match s.warmer
      case HeaderPolling(page, m, _) => StillMaps(s, s', m, page);
      case HeaderReading(page, m, _) => StillMaps(s, s', m, page);
      case Preparing(page, m) => StillMaps(s, s', m, page);
      case Installing(page, m) => StillMaps(s, s', m, page);
      case _ =>
    } else {
      HoldsNothing(s);
    }
  }

  lemma HoldsNothing(s: State)
    requires WarmerMapsOK(s) && WarmerHolds(s) == 0
    ensures !(s.warmer.HeaderPolling? || s.warmer.HeaderReading? || s.warmer.Preparing? || s.warmer.Installing?)
  {
  }

  lemma RetireMapsFrame(s: State, s': State)
    requires RetireMapsOK(s) && Grown(s, s') && s'.retire in {s.retire, RWanting}
    ensures RetireMapsOK(s')
  {
    GrownNext(s, s');
  }

  lemma SharedMapsFrame(s: State, s': State)
    requires SharedMapsOK(s) && Grown(s, s') && s'.current == s.current && s'.currentId == s.currentId
    requires s'.retired == s.retired && s'.queue == s.queue
    requires (s'.addr == s.addr && s'.readyId == s.readyId) || Maps(s', s'.addr, s'.readyId)
    ensures SharedMapsOK(s')
  {
  }

  lemma WarmerKeepsMaps(c: Config, s: State, step: WarmerStep, s': State)
    requires SharedMapsOK(s) && WarmerMapsOK(s) && WarmerNext(c, s, step, s')
    ensures SharedMapsOK(s') && WarmerMapsOK(s')
  {
    hide SharedMapsOK, Maps, Grown;
    WarmerGrows(c, s, step, s');
    if step.WInstall? {
      StillMaps(s, s', s.warmer.mapping, s.warmer.page);
    } else if step == WOpen(true) {
      NewMaps(s, s', s.warmer.page);
    } else {
      WarmerMoves(c, s, step, s');
    }
    SharedMapsFrame(s, s');
  }

  lemma NewMaps(s: State, s': State, page: int)
    requires SharedMapsOK(s) && s'.next == s.next + 1 && s'.pageOf == s.pageOf[s.next := page]
    ensures Maps(s', s.next, page)
  {
  }

  lemma WarmerMoves(c: Config, s: State, step: WarmerStep, s': State)
    requires WarmerMapsOK(s) && WarmerNext(c, s, step, s') && !step.WInstall? && step != WOpen(true)
    ensures WarmerMapsOK(s')
  {
  }

  lemma QueuePopped(s: State, s': State)
    requires SharedMapsOK(s) && s.queue != [] && s'.queue == s.queue[1..]
            && s' == s.(retire := s'.retire, queue := s'.queue)
    ensures SharedMapsOK(s') && 0 < s.queue[0] < s.next
  {
  }

  lemma RetireKeepsMaps(s: State, step: RetireStep, s': State)
    requires SharedMapsOK(s) && RetireMapsOK(s) && RetireNext(s, step, s')
    ensures SharedMapsOK(s') && RetireMapsOK(s')
  {
    if step == RDrain && s.queue != [] {
      hide SharedMapsOK;
      QueuePopped(s, s');
    }
  }

  // The reader's own steps, and the destructor's.
  lemma ReadingKeepsWake(c: Config, s: State, step: MainStep, s': State)
    requires WakeOK(s) && DestroyOK(s) && MainNext(c, s, step, s') && !Stopping(s.main) && step != Stop
    ensures WakeOK(s') && DestroyOK(s')
  {
  }

  lemma StoppingKeepsWake(c: Config, s: State, step: MainStep, s': State)
    requires WakeOK(s) && DestroyOK(s) && MainNext(c, s, step, s') && (Stopping(s.main) || step == Stop)
    ensures WakeOK(s') && DestroyOK(s')
  {
  }

  lemma MainKeepsWake(c: Config, s: State, step: MainStep, s': State)
    requires WakeOK(s) && DestroyOK(s) && MainNext(c, s, step, s')
    ensures WakeOK(s') && DestroyOK(s')
  {
    hide WakeOK, DestroyOK, MainNext, Stopping;
    if Stopping(s.main) || step == Stop {
      StoppingKeepsWake(c, s, step, s');
    } else {
      ReadingKeepsWake(c, s, step, s');
    }
  }

  lemma WarmerKeepsDestroy(c: Config, s: State, step: WarmerStep, s': State)
    requires WakeOK(s) && DestroyOK(s) && WarmerNext(c, s, step, s')
    ensures DestroyOK(s')
  {
  }

  lemma WarmerKeepsWake(c: Config, s: State, step: WarmerStep, s': State)
    requires WakeOK(s) && WarmerNext(c, s, step, s')
    ensures WakeOK(s')
  {
  }

  lemma WarmerKeepsPoll(c: Config, s: State, step: WarmerStep, s': State)
    requires PollOK(c, s) && WarmerNext(c, s, step, s')
    ensures PollOK(c, s')
  {
  }

  lemma RetireKeepsWake(s: State, step: RetireStep, s': State)
    requires WakeOK(s) && DestroyOK(s) && RetireNext(s, step, s')
    ensures WakeOK(s') && DestroyOK(s')
  {
  }

  lemma NextKeeps(c: Config, s: State, step: Step, s': State)
    requires Inv(c, s) && Next(c, s, step, s')
    ensures Inv(c, s')
  {
    hide MainNext, WarmerNext, RetireNext, OneOwner, SharedMapsOK, MainMapsOK, WarmerMapsOK, RetireMapsOK, WakeOK,
      DestroyOK, Grown;
    NextKeepsOwner(c, s, step, s');
    match step
    case OfMain(ms) =>
      MainKeepsMaps(c, s, ms, s');
      MainGrows(c, s, ms, s');
      WarmerMapsFrame(s, s');
      RetireMapsFrame(s, s');
      MainKeepsWake(c, s, ms, s');
      MainLeavesWarmer(c, s, ms, s');
    case OfWarmer(ws) =>
      WarmerKeepsMaps(c, s, ws, s');
      WarmerGrows(c, s, ws, s');
      MainMapsFrame(s, s');
      RetireMapsFrame(s, s');
      WarmerKeepsWake(c, s, ws, s');
      WarmerKeepsDestroy(c, s, ws, s');
      WarmerKeepsPoll(c, s, ws, s');
    case OfRetire(rs) =>
      RetireKeepsMaps(s, rs, s');
      RetireLeaves(s, rs, s');
      MainMapsFrame(s, s');
      WarmerMapsFrame(s, s');
      RetireKeepsWake(s, rs, s');
  }

  lemma MainLeavesWarmer(c: Config, s: State, step: MainStep, s': State)
    requires MainNext(c, s, step, s') && PollOK(c, s)
    ensures PollOK(c, s')
  {
  }

  lemma RetireLeaves(s: State, step: RetireStep, s': State)
    requires RetireNext(s, step, s')
    ensures Grown(s, s') && s'.main == s.main && s'.warmer == s.warmer
  {
  }

  ghost predicate Run(c: Config, run: seq<State>, steps: seq<Step>) {
    && |run| == |steps| + 1 && Init(run[0])
    && forall i :: 0 <= i < |steps| ==> Next(c, run[i], steps[i], run[i + 1])
  }

  lemma {:induction false} RunKeeps(c: Config, run: seq<State>, steps: seq<Step>, n: nat)
    requires Run(c, run, steps) && n < |run|
    ensures Inv(c, run[n])
    decreases n
  {
    hide Inv, Next;
    if n == 0 {
      InitKeeps(c, run[0]);
    } else {
      RunKeeps(c, run, steps, n - 1);
      NextKeeps(c, run[n - 1], steps[n - 1], run[n]);
    }
  }

  lemma InitKeeps(c: Config, s: State)
    requires Init(s)
    ensures Inv(c, s)
  {
  }

  // ---------- Ownership over whole runs ----------

  /** Every mapping ever made is owned in exactly one place, or was released exactly once. */
  lemma MappingHasOneOwner(c: Config, run: seq<State>, steps: seq<Step>, n: nat, a: nat)
    requires Run(c, run, steps) && n < |run| && a >= 1
    ensures Owners(run[n], a) + Count(run[n].released, a) == if a < run[n].next then 1 else 0
  {
    RunKeeps(c, run, steps, n);
  }

  /** The warmed mapping maps the page it is offered for, and the reader's current page is mapped by the
      mapping it reads, whether it was taken from the warmer or made on the spot. */
  lemma MappingsMatchPages(c: Config, run: seq<State>, steps: seq<Step>, n: nat)
    requires Run(c, run, steps) && n < |run|
    ensures var s := run[n];
            && (s.addr != 0 ==> s.addr in s.pageOf && s.pageOf[s.addr] == s.readyId)
            && (s.main.Switching? ==> s.main.mapping in s.pageOf && s.pageOf[s.main.mapping] == s.main.page)
            && (s.current != 0 ==> s.current in s.pageOf && s.pageOf[s.current] == s.currentId)
  {
    RunKeeps(c, run, steps, n);
  }

  /** After destruction nothing is mapped: every mapping was released, each once. */
  lemma NothingMappedAfterDestruction(c: Config, run: seq<State>, steps: seq<Step>, n: nat, a: nat)
    requires Run(c, run, steps) && n < |run| && a >= 1 && run[n].main == Destroyed
    ensures Owners(run[n], a) == 0
    ensures Count(run[n].released, a) == if a < run[n].next then 1 else 0
  {
    RunKeeps(c, run, steps, n);
    MappingHasOneOwner(c, run, steps, n, a);
  }

  // ---------- Shutdown ----------

  /** No wake-up is lost. Work waits for no sleeping thread unless the notification is on its way, and once
      the destructor has notified a thread it is awake and stays so. */
  lemma NoLostWakeup(c: Config, run: seq<State>, steps: seq<Step>, n: nat)
    requires Run(c, run, steps) && n < |run|
    ensures var s := run[n];
            && (s.pending ==> !s.warmer.Asleep? && !s.warmer.FallingAsleep?)
            && (s.queue != [] && (s.retire.RAsleep? || s.retire.RFallingAsleep?) ==>
                  s.main.Notifying? || s.main.Stopped?)
            && (Stopping(s.main) && !s.main.Stopped? ==> !s.retire.RAsleep? && !s.retire.RFallingAsleep?)
            && (s.main.WarmerNotified? || s.main.RetireJoined? || s.main.WarmerJoined? || s.main.Destroyed? ==>
                  !s.warmer.Asleep? && !s.warmer.FallingAsleep?)
  {
    RunKeeps(c, run, steps, n);
  }

  function MainRank(m: MainPhase): nat {
    match m
    case Stopped => 11
    case RetireNotified => 10
    case WarmerLocked => 4
    case WarmerNotified => 3
    case RetireJoined => 2
    case WarmerJoined => 1
    case _ => 0
  }

  function Left(c: Config, t: nat): nat {
    if t < c.timeout then c.timeout - t else 0
  }

  // A request still pending may send the warmer through both polling loops once more, if it does not see the
  // flag's clearing before.
  function WarmerRank(c: Config, s: State): nat {
    (if s.pending then 14 + 4 * c.timeout else 0)
    + match s.warmer
      case Exited => 0
      case Asleep => if StopInFlight(s) then 1 else 5
      case Woken => 1
      case FallingAsleep => 2
      case Evaluating => 3
      case Wanting => 4
      case Installing(_, _) => 5
      case Preparing(_, _) => 6
      case HeaderReading(_, _, t) => 6 + 2 * Left(c, t)
      case HeaderPolling(_, _, t) => 7 + 2 * Left(c, t)
      case Opening(_) => 8 + 2 * c.timeout
      case Rechecking(_) => 9 + 2 * c.timeout
      case Stating(_, t) => 10 + 2 * c.timeout + 2 * Left(c, t)
      case Polling(_, t) => 11 + 2 * c.timeout + 2 * Left(c, t)
  }

  function RetireRank(r: RetirePhase, queued: nat): nat {
    3 * queued
    + match r
      case RExited => 0
      case RDraining => 1
      case RLocking | REvaluating => 2
      case RReleasing(_) | RWanting => 3
      case RAsleep => 4
      case RFallingAsleep => 5
  }

  function Rank(c: Config, s: State): nat {
    MainRank(s.main) + WarmerRank(c, s) + RetireRank(s.retire, |s.queue|)
  }

  // A wake-up that costs steps: nothing asked for it, and the warmer may still miss that the flag is cleared.
  predicate IdleWakeup(s: State, step: Step) {
    step == OfWarmer(WSpurious) && StopInFlight(s)
  }

  function Allowed(s: State, step: Step): nat {
    if IdleWakeup(s, step) then 4 else 0
  }

  lemma WarmerRankFrame(c: Config, s: State, s': State)
    requires s'.warmer == s.warmer && s'.pending == s.pending
    ensures WarmerRank(c, s') <= WarmerRank(c, s) + 4
    ensures StopInFlight(s') == StopInFlight(s) ==> WarmerRank(c, s') == WarmerRank(c, s)
  {
  }

  lemma WokenRank(c: Config, s: State, s': State)
    requires s'.warmer == WokenWarmer(s) && s'.pending == s.pending && !StopInFlight(s) && !StopInFlight(s')
    ensures WarmerRank(c, s') <= WarmerRank(c, s)
  {
  }

  // A step after the flag was cleared: the rank drops, and the clearing is never in flight again.
  ghost predicate Closer(c: Config, s: State, s': State, allowed: nat) {
    && Stopping(s'.main) && (!StopInFlight(s) ==> !StopInFlight(s'))
    && Rank(c, s') < Rank(c, s) + allowed
  }

  lemma MainRankDrops(c: Config, s: State, step: MainStep, s': State)
    requires Stopping(s.main) && MainNext(c, s, step, s')
    ensures Closer(c, s, s', 0)
  {
    hide WarmerRank;
    if step == NotifyAllWarmer {
      WokenRank(c, s, s');
    } else {
      WarmerRankFrame(c, s, s');
    }
  }

  predicate Waiting(step: WarmerStep) {
    step.WLock? || step.WEvaluate? || step.WSleep? || step.WSpurious? || step.WDecide?
  }

  lemma WaitingDrops(c: Config, s: State, step: WarmerStep, s': State)
    requires Stopping(s.main) && WakeOK(s) && WarmerNext(c, s, step, s') && Waiting(step)
    ensures WarmerRank(c, s') < WarmerRank(c, s) + Allowed(s, OfWarmer(step))
  {
  }

  lemma LoopingDrops(c: Config, s: State, step: WarmerStep, s': State)
    requires PollOK(c, s) && WarmerNext(c, s, step, s') && !Waiting(step)
    ensures WarmerRank(c, s') < WarmerRank(c, s)
  {
  }

  lemma WarmerLeaves(c: Config, s: State, step: WarmerStep, s': State)
    requires WarmerNext(c, s, step, s')
    ensures s'.main == s.main && s'.retire == s.retire && s'.queue == s.queue && s'.retired == s.retired
  {
  }

  lemma WarmerRankDrops(c: Config, s: State, step: WarmerStep, s': State)
    requires Stopping(s.main) && WakeOK(s) && PollOK(c, s) && WarmerNext(c, s, step, s')
    ensures Closer(c, s, s', Allowed(s, OfWarmer(step)))
  {
    hide WarmerNext, WakeOK, PollOK, WarmerRank, MainRank, RetireRank, Allowed;
    WarmerLeaves(c, s, step, s');
    if Waiting(step) {
      WaitingDrops(c, s, step, s');
    } else {
      LoopingDrops(c, s, step, s');
    }
  }

  lemma RetireRankDrops(c: Config, s: State, step: RetireStep, s': State)
    requires Stopping(s.main) && WakeOK(s) && RetireNext(s, step, s')
    ensures Closer(c, s, s', 0)
  {
    hide WarmerRank, MainRank;
    WarmerRankFrame(c, s, s');
  }

  // Once the flag is cleared every step of every thread comes closer to the end, but for idle wake-ups.
  lemma RankDrops(c: Config, s: State, step: Step, s': State)
    requires Stopping(s.main) && WakeOK(s) && PollOK(c, s) && Next(c, s, step, s')
    ensures Closer(c, s, s', Allowed(s, step))
  {
    hide MainNext, WarmerNext, RetireNext, WakeOK, PollOK, Stopping, Closer;
    match step
    case OfMain(ms) => MainRankDrops(c, s, ms, s');
    case OfWarmer(ws) => WarmerRankDrops(c, s, ws, s');
    case OfRetire(rs) => RetireRankDrops(c, s, rs, s');
  }

  // How many of the steps from m on, up to n, were idle wake-ups.
  function IdleWakeups(run: seq<State>, steps: seq<Step>, m: nat, n: nat): nat
    requires m <= n <= |steps| < |run|
    decreases n
  {
    if m == n then 0
    else IdleWakeups(run, steps, m, n - 1) + if IdleWakeup(run[n - 1], steps[n - 1]) then 1 else 0
  }

  /** After the destructor clears the flag only a bounded number of steps is left, however the threads are
      scheduled and however long the warmer's loads return the old value. The bound counts three steps for every
      page still queued and the rest of the polling loops, and four for each idle wake-up. */
  lemma {:induction false} ShutdownIsBounded(c: Config, run: seq<State>, steps: seq<Step>, m: nat, n: nat)
    requires Run(c, run, steps) && m <= n < |run| && Stopping(run[m].main)
    ensures Stopping(run[n].main) && Rank(c, run[n]) + (n - m) <= Rank(c, run[m]) + 4 * IdleWakeups(run, steps, m, n)
    decreases n
  {
    hide Inv, Next, Rank, Stopping, IdleWakeup;
    if m < n {
      ShutdownIsBounded(c, run, steps, m, n - 1);
      RunKeeps(c, run, steps, n - 1);
      AwakeOf(c, run[n - 1]);
      RankDrops(c, run[n - 1], steps[n - 1], run[n]);
    }
  }

  /** From the moment the destructor has been through the warmer's mutex the bound holds without exception. */
  lemma {:induction false} ShutdownIsBoundedAfterLock(c: Config, run: seq<State>, steps: seq<Step>, m: nat, n: nat)
    requires Run(c, run, steps) && m <= n < |run| && Stopping(run[m].main) && !StopInFlight(run[m])
    ensures Stopping(run[n].main) && !StopInFlight(run[n]) && Rank(c, run[n]) + (n - m) <= Rank(c, run[m])
    decreases n
  {
    hide Inv, Next, Rank, Stopping, StopInFlight;
    if m < n {
      ShutdownIsBoundedAfterLock(c, run, steps, m, n - 1);
      RunKeeps(c, run, steps, n - 1);
      AwakeOf(c, run[n - 1]);
      RankDrops(c, run[n - 1], steps[n - 1], run[n]);
    }
  }

  lemma AwakeOf(c: Config, s: State)
    requires Inv(c, s)
    ensures WakeOK(s) && DestroyOK(s) && PollOK(c, s)
  {
  }

  predicate Spurious(step: Step) {
    step == OfWarmer(WSpurious) || step == OfRetire(RSpurious)
  }

  ghost predicate CanStep(c: Config, s: State) {
    exists step, s' :: Next(c, s, step, s') && !Spurious(step)
  }

  /** Shutdown never gets stuck: until the journal is destroyed some thread can take a step, and no spurious
      wake-up is needed for it. */
  lemma ShutdownNeverStuck(c: Config, run: seq<State>, steps: seq<Step>, n: nat)
    requires Run(c, run, steps) && n < |run| && Stopping(run[n].main) && run[n].main != Destroyed
    ensures CanStep(c, run[n])
  {
    RunKeeps(c, run, steps, n);
    AwakeOf(c, run[n]);
    hide Inv;
    StoppingCanStep(c, run[n]);
  }

  lemma StoppingCanStep(c: Config, s: State)
    requires WakeOK(s) && DestroyOK(s) && Stopping(s.main) && s.main != Destroyed
    ensures CanStep(c, s)
  {
    match s.main
    case Stopped =>
      MainSteps(c, s, NotifyAllRetire, s.(main := RetireNotified, retire := WokenRetire(s)));
    case RetireNotified =>
      if WarmerMutexFree(s) {
        MainSteps(c, s, LockWarmer, s.(main := WarmerLocked));
      } else {
        WarmerCanStep(c, s);
      }
    case WarmerLocked =>
      MainSteps(c, s, NotifyAllWarmer, s.(main := WarmerNotified, warmer := WokenWarmer(s)));
    case WarmerNotified =>
      if s.retire == RExited {
        MainSteps(c, s, JoinRetire, s.(main := RetireJoined));
      } else {
        RetireCanStep(c, s);
      }
    case RetireJoined =>
      if s.warmer == Exited {
        MainSteps(c, s, JoinWarmer, s.(main := WarmerJoined));
      } else {
        WarmerCanStep(c, s);
      }
    case WarmerJoined =>
      MainSteps(c, s, ReleaseWarmed,
                s.(main := Destroyed, addr := 0, readyId := -1, released := s.released + Opt(s.addr)));
  }

  lemma MainSteps(c: Config, s: State, step: MainStep, s': State)
    requires MainNext(c, s, step, s')
    ensures CanStep(c, s)
  {
    assert Next(c, s, OfMain(step), s') && !Spurious(OfMain(step));
  }

  lemma WarmerSteps(c: Config, s: State, step: WarmerStep, s': State)
    requires WarmerNext(c, s, step, s') && step != WSpurious
    ensures CanStep(c, s)
  {
    assert Next(c, s, OfWarmer(step), s') && !Spurious(OfWarmer(step));
  }

  lemma RetireSteps(c: Config, s: State, step: RetireStep, s': State)
    requires RetireNext(s, step, s') && step != RSpurious
    ensures CanStep(c, s)
  {
    assert Next(c, s, OfRetire(step), s') && !Spurious(OfRetire(step));
  }

  lemma WarmerCanStep(c: Config, s: State)
    requires !s.running && s.warmer != Asleep && s.warmer != Exited
    ensures CanStep(c, s)
  {
    match s.warmer
    case Wanting => WarmerSteps(c, s, WLock, s.(warmer := Evaluating));
    case Evaluating => WarmerSteps(c, s, WEvaluate(true), Knowing(s, true).(warmer := Woken));
    case FallingAsleep => WarmerSteps(c, s, WSleep, s.(warmer := Asleep));
    case Woken => WarmerSteps(c, s, WDecide(true), Knowing(s, true).(warmer := Exited));
    case Polling(_, _) => WarmerSteps(c, s, WPoll(true), Knowing(s, true).(warmer := Wanting));
    case Stating(page, t) => WarmerSteps(c, s, WStat(true), s.(warmer := Rechecking(page)));
    case Rechecking(_) => WarmerSteps(c, s, WRecheck(true), Knowing(s, true).(warmer := Wanting));
    case Opening(_) => WarmerSteps(c, s, WOpen(false), s.(warmer := Wanting));
    case HeaderPolling(_, m, _) =>
      WarmerSteps(c, s, WHeaderPoll(true), Knowing(s, true).(warmer := Wanting, released := s.released + [m]));
    case HeaderReading(page, m, _) => WarmerSteps(c, s, WHeader(true), s.(warmer := Preparing(page, m)));
    case Preparing(page, m) => WarmerSteps(c, s, WPrepare(true), s.(warmer := Installing(page, m)));
    case Installing(_, m) =>
      WarmerSteps(c, s, WInstall(true), Knowing(s, true).(warmer := Wanting, released := s.released + [m]));
  }

  lemma RetireCanStep(c: Config, s: State)
    requires !s.running && s.retire != RAsleep && s.retire != RExited
    ensures CanStep(c, s)
  {
    match s.retire
    case RWanting => RetireSteps(c, s, RLock, s.(retire := REvaluating));
    case REvaluating => RetireSteps(c, s, REvaluate, s.(retire := RDraining));
    case RFallingAsleep => RetireSteps(c, s, RSleep, s.(retire := RAsleep));
    case RDraining =>
      RetireSteps(c, s, RDrain, if s.queue != [] then s.(retire := RReleasing(s.queue[0]), queue := s.queue[1..])
                                else s.(retire := RExited));
    case RReleasing(m) => RetireSteps(c, s, RRelease, s.(retire := RLocking, released := s.released + [m]));
    case RLocking => RetireSteps(c, s, RRelock, s.(retire := RDraining));
  }
}
