/** The pages a reader leaves are unmapped in the order in which it left them, and the last ones stay mapped. */
module HandoffOrder {
  import opened Handoff

  ghost predicate Happened(run: seq<State>, steps: seq<Step>, n: nat) {
    |run| == |steps| + 1 && n <= |steps|
  }

  // The mappings of the pages that the reader has left, in that order.
  ghost function LeftBehind(run: seq<State>, steps: seq<Step>, n: nat): seq<nat>
    requires Happened(run, steps, n)
  {
    if n == 0 then []
    else LeftBehind(run, steps, n - 1) + if steps[n - 1] == OfMain(SwitchPage) then Opt(run[n - 1].current) else []
  }

  // The mappings given to the retire thread: the oldest each time there are too many, and at the end the current
  // one and all that are left.
  ghost function Handed(run: seq<State>, steps: seq<Step>, n: nat): seq<nat>
    requires Happened(run, steps, n)
  {
    if n == 0 then []
    else Handed(run, steps, n - 1) + if steps[n - 1].OfMain? then Gives(run[n - 1], steps[n - 1].mainStep) else []
  }

  function Gives(s: State, step: MainStep): seq<nat> {
    match step
    case PopRetired => if s.retired == [] then [] else [s.retired[0]]
    case Stop => Opt(s.current) + s.retired
    case _ => []
  }

  // The mappings that the retire thread has unmapped.
  ghost function Unmapped(run: seq<State>, steps: seq<Step>, n: nat): seq<nat>
    requires Happened(run, steps, n)
  {
    if n == 0 then []
    else Unmapped(run, steps, n - 1) + if steps[n - 1] == OfRetire(RRelease) then InHand(run[n - 1]) else []
  }

  function InHand(s: State): seq<nat> {
    if s.retire.RReleasing? then [s.retire.mapping] else []
  }

  function OnTheWay(s: State): seq<nat> {
    if s.main.Pushing? then [s.main.mapping] else []
  }

  // What the retire thread still has to unmap, the next first.
  function Pending(s: State): seq<nat> {
    InHand(s) + s.queue + OnTheWay(s)
  }

  // Between two page loads nothing is left to be handed over.
  predicate Settled(m: MainPhase) {
    m == Reading || m.Taking? || m.Mapping? || m.Switching? || m.Signalling?
  }

  ghost predicate InOrder(c: Config, s: State, left: seq<nat>, handed: seq<nat>, unmapped: seq<nat>) {
    && unmapped + Pending(s) == handed
    && (!Stopping(s.main) ==> handed + s.retired == left)
    && (!Stopping(s.main) && handed != [] ==> |s.retired| >= c.retained)
    && (Settled(s.main) ==> |s.retired| <= c.retained)
  }

  lemma Regroup(a: seq<nat>, b: seq<nat>, d: seq<nat>)
    ensures a + b + d == a + (b + d)
  {
  }

  lemma MainQueues(c: Config, s: State, step: MainStep, s': State)
    requires MainNext(c, s, step, s')
    ensures InHand(s') == InHand(s)
    ensures var gives := Gives(s, step);
            || (s'.queue == s.queue + OnTheWay(s) && OnTheWay(s') == [] && gives == [])
            || (s'.queue == s.queue && OnTheWay(s) == [] && OnTheWay(s') == gives)
            || (s'.queue == s.queue && OnTheWay(s') == OnTheWay(s) && gives == [])
            || (OnTheWay(s) == OnTheWay(s') == [] && s'.queue == s.queue + gives)
  {
    hide WokenWarmer, WarmerMutexFree, RetireMutexFree, Opt;
    if step == Stop {
      Regroup(s.queue, Opt(s.current), s.retired);
    }
  }

  lemma MainHands(c: Config, s: State, step: MainStep, s': State)
    requires MainNext(c, s, step, s')
    ensures Pending(s') == Pending(s) + Gives(s, step)
  {
    hide MainNext, Gives, InHand, OnTheWay;
    MainQueues(c, s, step, s');
  }

  lemma MainLeaves(c: Config, s: State, step: MainStep, s': State)
    requires MainNext(c, s, step, s') && !Stopping(s'.main)
    ensures !Stopping(s.main)
    ensures Gives(s, step) + s'.retired == s.retired + if step == SwitchPage then Opt(s.current) else []
  {
    hide WokenRetire, WokenWarmer, WarmerMutexFree, RetireMutexFree, Opt;
  }

  lemma MainRetains(c: Config, s: State, step: MainStep, s': State)
    requires MainNext(c, s, step, s') && !Stopping(s'.main)
    ensures Gives(s, step) == [] ==> |s'.retired| >= |s.retired|
    ensures Gives(s, step) != [] ==> |s'.retired| >= c.retained
    ensures (Settled(s.main) ==> |s.retired| <= c.retained) ==> (Settled(s'.main) ==> |s'.retired| <= c.retained)
  {
  }

  lemma MainInOrder(c: Config, s: State, step: MainStep, s': State, left: seq<nat>, handed: seq<nat>,
                    unmapped: seq<nat>)
    requires MainNext(c, s, step, s') && InOrder(c, s, left, handed, unmapped)
    ensures var leaves := if step == SwitchPage then Opt(s.current) else [];
            InOrder(c, s', left + leaves, handed + Gives(s, step), unmapped)
  {
    hide MainNext, Gives, Pending, Stopping, Opt;
    MainHands(c, s, step, s');
    Regroup(unmapped, Pending(s), Gives(s, step));
    if !Stopping(s'.main) {
      MainLeaves(c, s, step, s');
      MainRetains(c, s, step, s');
      Regroup(handed, Gives(s, step), s'.retired);
      Regroup(handed, s.retired, if step == SwitchPage then Opt(s.current) else []);
    } else {
      StoppedIsUnsettled(s'.main);
    }
  }

  lemma StoppedIsUnsettled(m: MainPhase)
    requires Stopping(m)
    ensures !Settled(m)
  {
  }

  lemma RetireQueues(s: State, step: RetireStep, s': State)
    requires RetireNext(s, step, s')
    ensures s'.main == s.main && s'.retired == s.retired && OnTheWay(s') == OnTheWay(s)
    ensures if step == RRelease then s'.queue == s.queue && InHand(s') == []
            else || (s'.queue == s.queue && InHand(s') == InHand(s))
                 || (InHand(s) == [] && s.queue == InHand(s') + s'.queue)
  {
  }

  lemma RetireInOrder(s: State, step: RetireStep, s': State)
    requires RetireNext(s, step, s')
    ensures Pending(s) == (if step == RRelease then InHand(s) else []) + Pending(s')
    ensures s'.main == s.main && s'.retired == s.retired
  {
    hide RetireNext, InHand, OnTheWay;
    RetireQueues(s, step, s');
  }

  lemma {:induction false} RunInOrder(c: Config, run: seq<State>, steps: seq<Step>, n: nat)
    requires Run(c, run, steps) && n < |run|
    ensures InOrder(c, run[n], LeftBehind(run, steps, n), Handed(run, steps, n), Unmapped(run, steps, n))
    decreases n
  {
    hide MainNext, WarmerNext, RetireNext, InOrder, Gives, InHand;
    if n == 0 {
      FirstInOrder(c, run[0]);
    } else {
      RunInOrder(c, run, steps, n - 1);
      var s, s' := run[n - 1], run[n];
      var left, handed, unmapped :=
        LeftBehind(run, steps, n - 1), Handed(run, steps, n - 1), Unmapped(run, steps, n - 1);
      assert Next(c, s, steps[n - 1], s');
      match steps[n - 1]
      case OfMain(step) =>
        MainInOrder(c, s, step, s', left, handed, unmapped);
        assert unmapped + [] == unmapped;
      case OfWarmer(step) =>
        WarmerLeaves(c, s, step, s');
        SameOrder(c, s, s', left, handed, unmapped);
      case OfRetire(step) =>
        RetireInOrder(s, step, s');
        UnmapsNext(c, s, s', left, handed, unmapped, if step == RRelease then InHand(s) else []);
    }
  }

  lemma FirstInOrder(c: Config, s: State)
    requires Init(s)
    ensures InOrder(c, s, [], [], [])
  {
  }

  lemma SameOrder(c: Config, s: State, s': State, left: seq<nat>, handed: seq<nat>, unmapped: seq<nat>)
    requires InOrder(c, s, left, handed, unmapped)
    requires s'.main == s.main && s'.retire == s.retire && s'.queue == s.queue && s'.retired == s.retired
    ensures InOrder(c, s', left + [], handed + [], unmapped + [])
  {
    assert left + [] == left && handed + [] == handed && unmapped + [] == unmapped;
  }

  lemma UnmapsNext(c: Config, s: State, s': State, left: seq<nat>, handed: seq<nat>, unmapped: seq<nat>, one: seq<nat>)
    requires InOrder(c, s, left, handed, unmapped) && Pending(s) == one + Pending(s')
    requires s'.main == s.main && s'.retired == s.retired
    ensures InOrder(c, s', left + [], handed + [], unmapped + one)
  {
    hide Pending;
    assert left + [] == left && handed + [] == handed;
    Regroup(unmapped, one, Pending(s'));
  }

  /** Pages are unmapped in the order in which the reader left them: what the retire thread has unmapped, then what
      it still has to, then what is retained, is exactly what was left behind. The destructor adds the current page
      and then the retained ones. */
  lemma UnmappedInOrder(c: Config, run: seq<State>, steps: seq<Step>, n: nat)
    requires Run(c, run, steps) && n < |run|
    ensures Unmapped(run, steps, n) + Pending(run[n]) == Handed(run, steps, n)
    ensures !Stopping(run[n].main) ==> Handed(run, steps, n) + run[n].retired == LeftBehind(run, steps, n)
  {
    RunInOrder(c, run, steps, n);
  }

  /** Between page loads exactly the pages left last stay mapped, as many as are to be retained, or all of them. */
  lemma LastPagesStay(c: Config, run: seq<State>, steps: seq<Step>, n: nat)
    requires Run(c, run, steps) && n < |run| && Settled(run[n].main)
    ensures var left, m := LeftBehind(run, steps, n), |run[n].retired|;
            && m == (if |left| < c.retained then |left| else c.retained)
            && run[n].retired == left[|left| - m..]
  {
    RunInOrder(c, run, steps, n);
    var left, handed := LeftBehind(run, steps, n), Handed(run, steps, n);
    assert left == handed + run[n].retired;
  }

  /** Neither polling loop of the warmer goes on past the timeout. */
  lemma PollsAreBounded(c: Config, run: seq<State>, steps: seq<Step>, n: nat)
    requires Run(c, run, steps) && n < |run|
    ensures run[n].warmer.Stating? || run[n].warmer.HeaderReading? ==> run[n].warmer.t < c.timeout
  {
    RunKeeps(c, run, steps, n);
  }
}
