/** What the reading journal's threads get done: the next page is the one that is warmed, a page asked for is loaded,
    from the warmed mapping if there is one, and a requested page is warmed. */
module HandoffProgress {
  import opened Counting
  import opened Handoff

  // ---------- The next page is wanted ----------

  predicate Moving(m: MainPhase) {
    m.Retiring? || m.Pushing? || m.Notifying? || m.Signalling?
  }

  predicate Loading(m: MainPhase) {
    m.Taking? || m.Mapping? || m.Switching?
  }

  predicate Warms(w: WarmerPhase) {
    w.Polling? || w.Stating? || w.Rechecking? || w.Opening? || w.HeaderPolling? || w.HeaderReading? || w.Preparing?
    || w.Installing?
  }

  ghost predicate MainWants(s: State) {
    && (Moving(s.main) ==> s.current != 0 && s.currentId == s.main.page)
    && ((s.main == Reading || Loading(s.main)) && s.current != 0 ==> s.wanted == s.currentId + 1)
  }

  ghost predicate WarmerWants(s: State) {
    Warms(s.warmer) && !s.pending ==> s.warmer.page == s.wanted
  }

  ghost predicate WantsNext(s: State) {
    MainWants(s) && WarmerWants(s)
  }

  lemma MainKeepsMain(c: Config, s: State, step: MainStep, s': State)
    requires MainMapsOK(s) && MainWants(s) && MainNext(c, s, step, s')
    ensures MainWants(s')
  {
    hide WokenRetire, WokenWarmer, WarmerMutexFree, RetireMutexFree, Opt;
  }

  lemma MainKeepsWarmer(c: Config, s: State, step: MainStep, s': State)
    requires WarmerWants(s) && MainNext(c, s, step, s')
    ensures WarmerWants(s')
  {
  }

  lemma MainKeepsWanted(c: Config, s: State, step: MainStep, s': State)
    requires MainMapsOK(s) && WantsNext(s) && MainNext(c, s, step, s')
    ensures WantsNext(s')
  {
    hide MainNext, MainMapsOK, MainWants, WarmerWants;
    MainKeepsMain(c, s, step, s');
    MainKeepsWarmer(c, s, step, s');
  }

  lemma WarmerKeepsOwn(c: Config, s: State, step: WarmerStep, s': State)
    requires WarmerWants(s) && WarmerNext(c, s, step, s')
    ensures WarmerWants(s')
  {
  }

  lemma WarmerLeavesMain(c: Config, s: State, step: WarmerStep, s': State)
    requires WarmerNext(c, s, step, s')
    ensures s'.main == s.main && s'.current == s.current && s'.currentId == s.currentId && s'.wanted == s.wanted
  {
    hide WokenRetire, WokenWarmer, WarmerMutexFree, RetireMutexFree, Opt;
  }

  lemma WarmerKeepsWanted(c: Config, s: State, step: WarmerStep, s': State)
    requires WantsNext(s) && WarmerNext(c, s, step, s')
    ensures WantsNext(s')
  {
    hide WarmerNext, WarmerWants;
    WarmerKeepsOwn(c, s, step, s');
    WarmerLeavesMain(c, s, step, s');
  }

  lemma RetireKeepsWanted(s: State, step: RetireStep, s': State)
    requires WantsNext(s) && RetireNext(s, step, s')
    ensures WantsNext(s')
  {
  }

  lemma MainMaps(c: Config, s: State)
    requires Inv(c, s)
    ensures MainMapsOK(s)
  {
  }

  lemma {:induction false} RunWants(c: Config, run: seq<State>, steps: seq<Step>, n: nat)
    requires Run(c, run, steps) && n < |run|
    ensures WantsNext(run[n])
    decreases n
  {
    hide Inv, MainNext, WarmerNext, RetireNext, WantsNext;
    if n == 0 {
      NothingWanted(run[0]);
    } else {
      RunWants(c, run, steps, n - 1);
      RunKeeps(c, run, steps, n - 1);
      MainMaps(c, run[n - 1]);
      assert Next(c, run[n - 1], steps[n - 1], run[n]);
      match steps[n - 1]
      case OfMain(ms) => MainKeepsWanted(c, run[n - 1], ms, run[n]);
      case OfWarmer(ws) => WarmerKeepsWanted(c, run[n - 1], ws, run[n]);
      case OfRetire(rs) => RetireKeepsWanted(run[n - 1], rs, run[n]);
    }
  }

  lemma NothingWanted(s: State)
    requires Init(s)
    ensures WantsNext(s)
  {
  }

  /** Whenever the reader is between page loads, the page after its current one is the one asked for; the warmer works
      on that page unless a newer request waits; and the mapping it installs is of the page asked for. */
  lemma NextPageIsWanted(c: Config, run: seq<State>, steps: seq<Step>, n: nat)
    requires Run(c, run, steps) && n < |run|
    ensures var s := run[n];
            && (s.main == Reading && s.current != 0 ==> s.wanted == s.currentId + 1)
            && (Warms(s.warmer) && !s.pending ==> s.warmer.page == s.wanted)
    ensures n < |steps| && steps[n].OfWarmer? && steps[n].warmerStep.WInstall? && run[n + 1].addr != run[n].addr ==>
      run[n + 1].readyId == run[n + 1].wanted
  {
    hide Run;
    RunWants(c, run, steps, n);
    if n < |steps| && steps[n].OfWarmer? && steps[n].warmerStep.WInstall? {
      StepAt(c, run, steps, n);
      InstallsWanted(c, run[n], steps[n].warmerStep, run[n + 1]);
    }
  }

  lemma StepAt(c: Config, run: seq<State>, steps: seq<Step>, n: nat)
    requires Run(c, run, steps) && n < |steps|
    ensures |run| == |steps| + 1 && Next(c, run[n], steps[n], run[n + 1])
  {
  }

  lemma InstallsWanted(c: Config, s: State, step: WarmerStep, s': State)
    requires WantsNext(s) && WarmerNext(c, s, step, s') && step.WInstall?
    ensures s'.addr != s.addr ==> s'.readyId == s'.wanted
  {
  }

  // ---------- Extending a run ----------

  ghost predicate Longer(c: Config, run: seq<State>, steps: seq<Step>, run': seq<State>, steps': seq<Step>) {
    0 < |run| <= |run'| && Run(c, run', steps') && run <= run' && steps <= steps'
  }

  function Last(run: seq<State>): State
    requires |run| > 0
  {
    run[|run| - 1]
  }

  lemma Extend(c: Config, run: seq<State>, steps: seq<Step>, step: Step, s': State)
    requires |run| > 0 && Run(c, run, steps) && Next(c, Last(run), step, s')
    ensures Longer(c, run, steps, run + [s'], steps + [step]) && Last(run + [s']) == s'
  {
    hide Next, Init;
    var run', steps' := run + [s'], steps + [step];
    forall i | 0 <= i < |steps'|
      ensures Next(c, run'[i], steps'[i], run'[i + 1])
    {
      if i < |steps| {
        assert run'[i] == run[i] && run'[i + 1] == run[i + 1] && steps'[i] == steps[i];
      }
    }
  }

  lemma LastInv(c: Config, run: seq<State>, steps: seq<Step>)
    requires |run| > 0 && Run(c, run, steps)
    ensures Inv(c, Last(run)) && WakeOK(Last(run)) && MainMapsOK(Last(run)) && WantsNext(Last(run))
  {
    hide Run;
    RunKeeps(c, run, steps, |run| - 1);
    RunWants(c, run, steps, |run| - 1);
  }

  // ---------- The warmer on its own ----------

  // The warmer gives up what it is at, because a request waits, and comes back to its wait.
  function BackOff(c: Config, s: State): (r: (WarmerStep, State))
    requires s.pending && s.running
  {
    var w, k := s.warmer, Knowing(s, false);
    match w
    case Polling(_, _) => (WPoll(false), k.(warmer := Wanting))
    case Stating(page, _) => (WStat(true), s.(warmer := Rechecking(page)))
    case Rechecking(_) => (WRecheck(false), k.(warmer := Wanting))
    case Opening(_) => (WOpen(false), s.(warmer := Wanting))
    case HeaderPolling(_, m, _) => (WHeaderPoll(false), k.(warmer := Wanting, released := s.released + [m]))
    case HeaderReading(page, m, _) => (WHeader(true), s.(warmer := Preparing(page, m)))
    case Preparing(_, m) => (WPrepare(false), s.(warmer := Wanting, released := s.released + [m]))
    case Installing(_, m) => (WInstall(false), k.(warmer := Wanting, released := s.released + [m]))
    case Wanting => (WLock, s.(warmer := Evaluating))
    case Evaluating => (WEvaluate(false), k.(warmer := Woken))
    case _ => (WDecide(false), s.(pending := false, warmer := if s.wanted < 0 then Wanting else Polling(s.wanted, 0)))
  }

  function ToWoken(w: WarmerPhase): nat {
    match w
    case Woken => 0
    case Evaluating => 1
    case Wanting => 2
    case Stating(_, _) | HeaderReading(_, _, _) => 4
    case _ => 3
  }

  lemma BackOffStep(c: Config, s: State)
    requires WakeOK(s) && s.pending && s.running && s.warmer != Woken
    ensures var (step, s') := BackOff(c, s);
            && WarmerNext(c, s, step, s') && ToWoken(s'.warmer) < ToWoken(s.warmer)
            && s'.pending && s'.running && s'.wanted == s.wanted && s'.main == s.main
  {
  }

  lemma {:induction false} BecomesWoken(c: Config, run: seq<State>, steps: seq<Step>)
    returns (run': seq<State>, steps': seq<Step>)
    requires |run| > 0 && Run(c, run, steps) && Last(run).pending && Last(run).running
    ensures Longer(c, run, steps, run', steps')
    ensures var s, s' := Last(run), Last(run');
            s'.warmer == Woken && s'.pending && s'.running && s'.wanted == s.wanted && s'.main == s.main
    decreases ToWoken(Last(run).warmer)
  {
    hide Run, Inv, WakeOK, MainMapsOK, WantsNext, BackOff, ToWoken, WarmerNext;
    var s := Last(run);
    if s.warmer == Woken {
      run', steps' := run, steps;
    } else {
      LastInv(c, run, steps);
      BackOffStep(c, s);
      var (step, u) := BackOff(c, s);
      Extend(c, run, steps, OfWarmer(step), u);
      run', steps' := BecomesWoken(c, run + [u], steps + [OfWarmer(step)]);
    }
  }

  // The warmer is on its way with the wanted page, and nothing stands against it.
  predicate Going(c: Config, s: State) {
    && s.running && !s.pending && Warms(s.warmer) && s.warmer.page == s.wanted
  }

  // The file is found at poll k, mapped, and its header valid at poll l.
  predicate InTime(s: State, k: nat, l: nat) {
    && (s.warmer.Polling? || s.warmer.Stating? ==> s.warmer.t <= k)
    && (s.warmer.HeaderPolling? || s.warmer.HeaderReading? ==> s.warmer.t <= l)
  }

  function Forward(s: State, k: nat, l: nat): (r: (WarmerStep, State))
    requires s.running && !s.pending && Warms(s.warmer)
  {
    var u := Knowing(s, false);
    match s.warmer
    case Polling(page, t) => (WPoll(false), u.(warmer := Stating(page, t)))
    case Stating(page, t) =>
      (WStat(t == k), s.(warmer := if t == k then Rechecking(page) else Polling(page, t + 1)))
    case Rechecking(page) => (WRecheck(false), u.(warmer := Opening(page)))
    case Opening(page) =>
      (WOpen(true), s.(warmer := HeaderPolling(page, s.next, 0), next := s.next + 1,
                       pageOf := s.pageOf[s.next := page]))
    case HeaderPolling(page, m, t) => (WHeaderPoll(false), u.(warmer := HeaderReading(page, m, t)))
    case HeaderReading(page, m, t) =>
      (WHeader(t == l), s.(warmer := if t == l then Preparing(page, m) else HeaderPolling(page, m, t + 1)))
    case Preparing(page, m) => (WPrepare(true), s.(warmer := Installing(page, m)))
    case Installing(page, m) =>
      (WInstall(false), u.(warmer := Wanting, addr := m, readyId := page, released := s.released + Opt(s.addr)))
  }

  function ToInstalled(s: State, k: nat, l: nat): nat
    requires InTime(s, k, l)
  {
    match s.warmer
    case Installing(_, _) => 1
    case Preparing(_, _) => 2
    case HeaderReading(_, _, t) => 3 + 2 * (l - t)
    case HeaderPolling(_, _, t) => 4 + 2 * (l - t)
    case Opening(_) => 5 + 2 * l
    case Rechecking(_) => 6 + 2 * l
    case Stating(_, t) => 7 + 2 * l + 2 * (k - t)
    case Polling(_, t) => 8 + 2 * l + 2 * (k - t)
    case _ => 0
  }

  lemma ForwardStep(c: Config, s: State, k: nat, l: nat)
    requires Going(c, s) && InTime(s, k, l) && k < c.timeout && l < c.timeout
    ensures var (step, s') := Forward(s, k, l);
            && WarmerNext(c, s, step, s') && s'.main == s.main && s'.wanted == s.wanted
            && (if s.warmer.Installing? then s'.readyId == s.wanted && s'.addr == s.warmer.mapping
                else Going(c, s') && InTime(s', k, l) && ToInstalled(s', k, l) < ToInstalled(s, k, l))
  {
  }

  lemma HeldMapping(c: Config, s: State)
    requires Inv(c, s) && s.warmer.Installing?
    ensures s.warmer.mapping != 0
  {
  }

  lemma {:induction false} Installs(c: Config, run: seq<State>, steps: seq<Step>, k: nat, l: nat)
    returns (run': seq<State>, steps': seq<Step>)
    requires |run| > 0 && Run(c, run, steps) && Going(c, Last(run)) && InTime(Last(run), k, l)
    requires k < c.timeout && l < c.timeout
    ensures Longer(c, run, steps, run', steps')
    ensures var s, s' := Last(run), Last(run');
            s'.addr != 0 && s'.readyId == s.wanted == s'.wanted && s'.main == s.main
    decreases ToInstalled(Last(run), k, l)
  {
    hide Run, Inv, Going, InTime, Forward, ToInstalled, WarmerNext;
    var s := Last(run);
    GoingOn(c, s);
    var (step, u) := Forward(s, k, l);
    ForwardStep(c, s, k, l);
    Extend(c, run, steps, OfWarmer(step), u);
    if s.warmer.Installing? {
      LastInv(c, run, steps);
      HeldMapping(c, s);
      run', steps' := run + [u], steps + [OfWarmer(step)];
    } else {
      run', steps' := Installs(c, run + [u], steps + [OfWarmer(step)], k, l);
    }
  }

  lemma GoingOn(c: Config, s: State)
    requires Going(c, s)
    ensures s.running && !s.pending && Warms(s.warmer)
  {
  }

  lemma Departs(c: Config, s: State)
    requires s.warmer == Woken && s.pending && s.running && s.wanted >= 0
    ensures var s' := s.(pending := false, warmer := Polling(s.wanted, 0));
            WarmerNext(c, s, WDecide(false), s') && Going(c, s') && forall k, l :: InTime(s', k, l)
  {
  }

  /** A request is served: from every reachable state in which one waits, the warmer run on alone offers a mapping of
      the wanted page, if the file is there at any poll k and its header valid at any poll l before the timeout. */
  lemma RequestIsServed(c: Config, run: seq<State>, steps: seq<Step>, k: nat, l: nat)
    returns (run': seq<State>, steps': seq<Step>)
    requires |run| > 0 && Run(c, run, steps) && k < c.timeout && l < c.timeout
    requires Last(run).pending && Last(run).running && Last(run).wanted >= 0
    ensures Longer(c, run, steps, run', steps')
    ensures var s, s' := Last(run), Last(run');
            && s'.addr != 0 && s'.readyId == s.wanted && s'.main == s.main
            && s'.addr in s'.pageOf && s'.pageOf[s'.addr] == s.wanted
  {
    hide Run, Inv, WarmerNext, Going, InTime;
    var run1, steps1 := BecomesWoken(c, run, steps);
    var s := Last(run1);
    var u := s.(pending := false, warmer := Polling(s.wanted, 0));
    Departs(c, s);
    Extend(c, run1, steps1, OfWarmer(WDecide(false)), u);
    run', steps' := Installs(c, run1 + [u], steps1 + [OfWarmer(WDecide(false))], k, l);
    MappingsMatchPages(c, run', steps', |run'| - 1);
  }

  // ---------- The reader on its own ----------

  // Whoever holds the warmer's mutex gives it back.
  lemma {:induction false} WarmerMutexFreed(c: Config, run: seq<State>, steps: seq<Step>)
    returns (run': seq<State>, steps': seq<Step>)
    requires |run| > 0 && Run(c, run, steps) && Last(run).running
    ensures Longer(c, run, steps, run', steps')
    ensures var s, s' := Last(run), Last(run');
            && WarmerMutexFree(s') && s' == s.(warmer := s'.warmer, pending := s'.pending)
    decreases if WarmerMutexFree(Last(run)) then 0 else if Last(run).warmer.Evaluating? then 2 else 1
  {
    hide Run, Inv, WarmerNext;
    var s := Last(run);
    if WarmerMutexFree(s) {
      run', steps' := run, steps;
    } else {
      LastInv(c, run, steps);
      var r := LetsGo(c, s);
      var step, u := r.0, r.1;
      Extend(c, run, steps, OfWarmer(step), u);
      run', steps' := WarmerMutexFreed(c, run + [u], steps + [OfWarmer(step)]);
    }
  }

  lemma LetsGo(c: Config, s: State) returns (r: (WarmerStep, State))
    requires WakeOK(s) && s.running && !WarmerMutexFree(s)
    ensures WarmerNext(c, s, r.0, r.1) && r.1 == s.(warmer := r.1.warmer, pending := r.1.pending)
    ensures if s.warmer.Evaluating? then r.1.warmer.Woken? || r.1.warmer.FallingAsleep? else WarmerMutexFree(r.1)
  {
    if s.warmer.Evaluating? {
      r := (WEvaluate(false), s.(warmer := if s.pending then Woken else FallingAsleep));
    } else if s.warmer.FallingAsleep? {
      r := (WSleep, s.(warmer := Asleep));
    } else {
      r := (WDecide(false),
            s.(pending := false, warmer := if s.wanted < 0 then Wanting else Polling(s.wanted, 0)));
    }
  }

  // Whoever holds the retire mutex gives it back.
  lemma {:induction false} RetireMutexFreed(c: Config, run: seq<State>, steps: seq<Step>)
    returns (run': seq<State>, steps': seq<Step>)
    requires |run| > 0 && Run(c, run, steps) && Last(run).running
    ensures Longer(c, run, steps, run', steps')
    ensures var s, s' := Last(run), Last(run');
            && RetireMutexFree(s') && s' == s.(retire := s'.retire, queue := s'.queue)
    decreases if RetireMutexFree(Last(run)) then 0 else if Last(run).retire.REvaluating? then 2 else 1
  {
    hide Run, Inv;
    var s := Last(run);
    if RetireMutexFree(s) {
      run', steps' := run, steps;
    } else {
      var step, u;
      if s.retire.REvaluating? {
        step, u := REvaluate, s.(retire := if s.queue != [] then RDraining else RFallingAsleep);
      } else if s.retire.RFallingAsleep? {
        step, u := RSleep, s.(retire := RAsleep);
      } else {
        step := RDrain;
        u := if s.queue != [] then s.(retire := RReleasing(s.queue[0]), queue := s.queue[1..])
             else s.(retire := RWanting);
      }
      Extend(c, run, steps, OfRetire(step), u);
      run', steps' := RetireMutexFreed(c, run + [u], steps + [OfRetire(step)]);
    }
  }

  // The mapping of the page that is being loaded is found: the warmed one, or a new one.
  lemma MappingFound(c: Config, run: seq<State>, steps: seq<Step>)
    returns (run': seq<State>, steps': seq<Step>)
    requires |run| > 0 && Run(c, run, steps) && Last(run).running && Last(run).main.Taking?
    ensures Longer(c, run, steps, run', steps')
    ensures var s, s' := Last(run), Last(run');
            && s'.running && s'.main.Switching? && s'.main.page == s.main.page && s'.main.mapping != 0
            && s'.retired == s.retired
            && (s.readyId == s.main.page && s.addr != 0 ==> s'.main.mapping == s.addr)
  {
    hide Run, Inv;
    var run1, steps1 := WarmerMutexFreed(c, run, steps);
    var s := Last(run1);
    var page := s.main.page;
    if s.readyId == page && s.addr != 0 {
      var u := s.(main := Switching(page, s.addr), addr := 0, readyId := -1);
      Extend(c, run1, steps1, OfMain(TakeWarmed), u);
      run', steps' := run1 + [u], steps1 + [OfMain(TakeWarmed)];
    } else {
      LastInv(c, run1, steps1);
      NextMapping(c, s);
      var u := s.(main := Mapping(page));
      Extend(c, run1, steps1, OfMain(TakeNothing), u);
      var v := u.(main := Switching(page, u.next), next := u.next + 1, pageOf := u.pageOf[u.next := page]);
      Extend(c, run1 + [u], steps1 + [OfMain(TakeNothing)], OfMain(MapHere), v);
      run', steps' := run1 + [u] + [v], steps1 + [OfMain(TakeNothing)] + [OfMain(MapHere)];
    }
  }

  lemma NextMapping(c: Config, s: State)
    requires Inv(c, s)
    ensures s.next >= 1
  {
  }

  // The surplus of retired pages goes to the queue.
  lemma {:induction false} SurplusQueued(c: Config, run: seq<State>, steps: seq<Step>)
    returns (run': seq<State>, steps': seq<Step>)
    requires |run| > 0 && Run(c, run, steps) && Last(run).running && Last(run).main.Retiring?
    ensures Longer(c, run, steps, run', steps')
    ensures var s, s' := Last(run), Last(run');
            && s'.running && s'.main == s.main && |s'.retired| <= c.retained
            && s'.current == s.current && s'.currentId == s.currentId
    decreases |Last(run).retired|
  {
    hide Run, Inv, WarmerNext, RetireNext;
    var s := Last(run);
    if |s.retired| <= c.retained {
      run', steps' := run, steps;
    } else {
      var page := s.main.page;
      var u := s.(main := Pushing(page, s.retired[0]), retired := s.retired[1..]);
      Extend(c, run, steps, OfMain(PopRetired), u);
      var run1, steps1 := RetireMutexFreed(c, run + [u], steps + [OfMain(PopRetired)]);
      var v := Last(run1);
      var x := v.(main := Notifying(page), queue := v.queue + [v.main.mapping]);
      Extend(c, run1, steps1, OfMain(PushQueue), x);
      var y := x.(main := Retiring(page), retire := WokenRetire(x));
      Extend(c, run1 + [x], steps1 + [OfMain(PushQueue)], OfMain(NotifyRetire), y);
      run', steps' := SurplusQueued(c, run1 + [x] + [y], steps1 + [OfMain(PushQueue)] + [OfMain(NotifyRetire)]);
    }
  }

  /** A page that is asked for gets loaded: through the mapping that the warmer offers if it offers one of that
      page, and the page after it is asked for. */
  lemma PageIsLoaded(c: Config, run: seq<State>, steps: seq<Step>, page: nat)
    returns (run': seq<State>, steps': seq<Step>)
    requires |run| > 0 && Run(c, run, steps) && Last(run).running && Last(run).main == Reading
    requires Last(run).current == 0 || Last(run).currentId != page
    ensures Longer(c, run, steps, run', steps')
    ensures var s, s' := Last(run), Last(run');
            && s'.main == Reading && s'.current != 0 && s'.currentId == page
            && s'.current in s'.pageOf && s'.pageOf[s'.current] == page
            && s'.pending && s'.wanted == page + 1
            && (s.readyId == page && s.addr != 0 ==> s'.current == s.addr)
  {
    hide Run, Inv, WarmerNext, RetireNext;
    var s := Last(run);
    var u := s.(main := Taking(page));
    Extend(c, run, steps, OfMain(LoadPage(page)), u);
    var run1, steps1 := MappingFound(c, run + [u], steps + [OfMain(LoadPage(page))]);
    var v := Last(run1);
    var x := v.(main := Retiring(page), current := v.main.mapping, currentId := page,
                retired := v.retired + Opt(v.current));
    Extend(c, run1, steps1, OfMain(SwitchPage), x);
    var run2, steps2 := SurplusQueued(c, run1 + [x], steps1 + [OfMain(SwitchPage)]);
    var y := Last(run2).(main := Signalling(page));
    Extend(c, run2, steps2, OfMain(EndRetiring), y);
    var run3, steps3 := WarmerMutexFreed(c, run2 + [y], steps2 + [OfMain(EndRetiring)]);
    var z := Last(run3);
    var e := z.(main := Reading, wanted := page + 1, pending := true, warmer := WokenWarmer(z));
    Extend(c, run3, steps3, OfMain(SignalWarmer), e);
    run', steps' := run3 + [e], steps3 + [OfMain(SignalWarmer)];
    MappingsMatchPages(c, run', steps', |run'| - 1);
  }

  // ---------- The retire thread on its own ----------

  predicate Draining(r: RetirePhase) {
    r.RDraining? || r.RReleasing? || r.RLocking?
  }

  function HeldByRetire(s: State): seq<nat> {
    if s.retire.RReleasing? then [s.retire.mapping] else []
  }

  /** The retire thread, once awake and run on alone, unmaps all that is queued, in order. */
  lemma {:induction false} QueueIsReleased(c: Config, run: seq<State>, steps: seq<Step>)
    returns (run': seq<State>, steps': seq<Step>)
    requires |run| > 0 && Run(c, run, steps) && Draining(Last(run).retire)
    ensures Longer(c, run, steps, run', steps')
    ensures var s, s' := Last(run), Last(run');
            && s'.queue == [] && s'.retire == RDraining && s'.main == s.main
            && s'.released == s.released + HeldByRetire(s) + s.queue
    decreases |Last(run).queue|, if Last(run).retire.RReleasing? then 2 else if Last(run).retire.RLocking? then 1 else 0
  {
    hide Run, Inv;
    var s := Last(run);
    if s.retire.RReleasing? {
      var u := s.(retire := RLocking, released := s.released + [s.retire.mapping]);
      Extend(c, run, steps, OfRetire(RRelease), u);
      run', steps' := QueueIsReleased(c, run + [u], steps + [OfRetire(RRelease)]);
    } else if s.retire.RLocking? {
      var u := s.(retire := RDraining);
      Extend(c, run, steps, OfRetire(RRelock), u);
      run', steps' := QueueIsReleased(c, run + [u], steps + [OfRetire(RRelock)]);
    } else if s.queue != [] {
      var u := s.(retire := RReleasing(s.queue[0]), queue := s.queue[1..]);
      Extend(c, run, steps, OfRetire(RDrain), u);
      run', steps' := QueueIsReleased(c, run + [u], steps + [OfRetire(RDrain)]);
      assert [s.queue[0]] + s.queue[1..] == s.queue;
    } else {
      run', steps' := run, steps;
    }
  }

  /** The retire thread wakes for a queue: between notification and drain it only has to take the mutex. */
  lemma RetireStartsDraining(c: Config, run: seq<State>, steps: seq<Step>)
    returns (run': seq<State>, steps': seq<Step>)
    requires |run| > 0 && Run(c, run, steps) && Last(run).queue != []
    requires Last(run).retire == RWanting || Last(run).retire == REvaluating
    ensures Longer(c, run, steps, run', steps')
    ensures Last(run') == Last(run).(retire := RDraining)
  {
    hide Run, Inv;
    var s := Last(run);
    var run1, steps1 := run, steps;
    if s.retire == RWanting {
      var u := s.(retire := REvaluating);
      Extend(c, run, steps, OfRetire(RLock), u);
      run1, steps1 := run + [u], steps + [OfRetire(RLock)];
    }
    var v := s.(retire := RDraining);
    Extend(c, run1, steps1, OfRetire(REvaluate), v);
    run', steps' := run1 + [v], steps1 + [OfRetire(REvaluate)];
  }
}
