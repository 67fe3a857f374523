/** Several threads write through one writer. openData takes the spin lock and closeData gives it back, so
    the lock is held across two calls and the caller's own stores; mark and writeBytes hold it inside one. */
module WriterLock {

  // scripts gives, for each thread, the payloads it writes, in its program order. Calls come in pairs.
  datatype Config = Config(scripts: map<nat, seq<seq<int>>>, sequence0: nat)

  datatype Phase =
    | Outside
    | Spinning
    | Locked                                   // the exchange returned false
    | Rotating(sequence: nat)                  // PageEnd took a sequence number
    | Rotated
    | Filling(k: nat)                          // frame opened, k payload bytes stored
    | Closed                                   // length released, lock still held

  datatype Thread = Thread(n: nat, phase: Phase)   // n payloads written before

  // The frame at open_frame_header_; every thread that believes it holds the lock writes here.
  datatype Slot = Slot(sequence: nat, bytes: seq<int>)

  datatype Frame = Data(sequence: nat, thread: nat, bytes: seq<int>) | PageEnd(sequence: nat)

  // owner is the thread whose exchange succeeded last; it appears in statements only, no step reads it.
  datatype State = State(writing: bool, sequence: nat, slot: Slot, published: seq<Frame>, threads: map<nat, Thread>,
                         owner: nat)

  ghost predicate Init(c: Config, s: State) {
    s == State(false, c.sequence0, Slot(0, []), [], map t | t in c.scripts :: Thread(0, Outside), s.owner)
  }

  datatype Step = Enter | Exchange | TakeEnd | PublishEnd | OpenFrame | StoreByte | PublishFrame | Unlock

  ghost function Moved(s: State, t: nat, phase: Phase): State
    requires t in s.threads
  {
    s.(threads := s.threads[t := s.threads[t].(phase := phase)])
  }

  ghost predicate Next(c: Config, s: State, t: nat, step: Step, s': State) {
    && t in c.scripts && t in s.threads && s.threads[t].n <= |c.scripts[t]|
    && var n, phase := s.threads[t].n, s.threads[t].phase;
       match step
       case Enter => phase == Outside && n < |c.scripts[t]| && s' == Moved(s, t, Spinning)
       case Exchange =>
         phase == Spinning && s' == if s.writing then s else Moved(s, t, Locked).(writing := true, owner := t)
       case TakeEnd =>
         // The page has no room left: rotatePage.
         phase == Locked && s' == Moved(s, t, Rotating(s.sequence)).(sequence := s.sequence + 1)
       case PublishEnd =>
         phase.Rotating? && s' == Moved(s, t, Rotated).(published := s.published + [PageEnd(phase.sequence)])
       case OpenFrame =>
         (phase == Locked || phase == Rotated)
         && s' == Moved(s, t, Filling(0)).(slot := Slot(s.sequence, []), sequence := s.sequence + 1)
       case StoreByte =>
         phase.Filling? && n < |c.scripts[t]| && phase.k < |c.scripts[t][n]|
         && s' == Moved(s, t,
             Filling(phase.k + 1)).(slot := s.slot.(bytes := s.slot.bytes + [c.scripts[t][n][phase.k]]))
       case PublishFrame =>
         phase.Filling? && n < |c.scripts[t]| && phase.k == |c.scripts[t][n]|
         && s' == Moved(s, t, Closed).(published := s.published + [Data(s.slot.sequence, t, s.slot.bytes)])
       case Unlock =>
         phase == Closed && s' == s.(threads := s.threads[t := Thread(n + 1, Outside)], writing := false)
  }

  // ---------- Invariant ----------

  predicate Holds(s: State, t: nat) {
    t in s.threads && s.threads[t].phase != Outside && s.threads[t].phase != Spinning
  }

  ghost predicate LockOK(s: State) {
    forall t :: t in s.threads ==> (Holds(s, t) <==> s.writing && t == s.owner)
  }

  // How many sequence numbers are taken and not published yet.
  function Taken(s: State): nat {
    if s.writing && s.owner in s.threads
       && (s.threads[s.owner].phase.Rotating? || s.threads[s.owner].phase.Filling?) then 1 else 0
  }

  ghost predicate SequenceOK(c: Config, s: State) {
    && (forall i :: 0 <= i < |s.published| ==> s.published[i].sequence == c.sequence0 + i)
    && s.sequence == c.sequence0 + |s.published| + Taken(s)
    && (s.owner in s.threads ==>
          && (s.threads[s.owner].phase.Rotating? ==> s.threads[s.owner].phase.sequence == c.sequence0 + |s.published|)
          && (s.threads[s.owner].phase.Filling? ==> s.slot.sequence == c.sequence0 + |s.published|))
  }

  ghost predicate SlotOK(c: Config, s: State) {
    forall t :: t in s.threads ==>
      var thread := s.threads[t];
      && t in c.scripts && thread.n <= |c.scripts[t]| && (thread.phase != Outside ==> thread.n < |c.scripts[t]|)
      && (thread.phase.Filling? ==>
            thread.phase.k <= |c.scripts[t][thread.n]| && s.slot.bytes == c.scripts[t][thread.n][..thread.phase.k])
  }

  // The payloads of thread t in stream order.
  function WrittenBy(published: seq<Frame>, t: nat): seq<seq<int>> {
    if published == [] then []
    else
      var f := published[|published| - 1];
      WrittenBy(published[..|published| - 1], t) + if f.Data? && f.thread == t then [f.bytes] else []
  }

  function Completed(thread: Thread): nat {
    if thread.phase == Closed then thread.n + 1 else thread.n
  }

  ghost predicate ScriptsOK(c: Config, s: State) {
    forall t :: t in s.threads ==>
      && t in c.scripts && Completed(s.threads[t]) <= |c.scripts[t]|
      && WrittenBy(s.published, t) == c.scripts[t][..Completed(s.threads[t])]
  }

  ghost predicate Inv(c: Config, s: State) {
    LockOK(s) && SequenceOK(c, s) && SlotOK(c, s) && ScriptsOK(c, s)
  }

  lemma LockKept(c: Config, s: State, t: nat, step: Step, s': State)
    requires LockOK(s) && Next(c, s, t, step, s')
    ensures LockOK(s')
    ensures step != Enter && step != Exchange ==> s.writing && t == s.owner == s'.owner
  {
    assert Holds(s, t) <==> s.writing && t == s.owner;
    assert forall u :: u != t ==> (Holds(s', u) <==> Holds(s, u));
  }

  lemma SequenceKept(c: Config, s: State, t: nat, step: Step, s': State)
    requires LockOK(s) && SequenceOK(c, s) && Next(c, s, t, step, s')
    ensures SequenceOK(c, s')
  {
    LockKept(c, s, t, step, s');
    if step == Exchange && s' != s {
      assert !Holds(s, s.owner);
    }
    if step == Enter {
      assert !Holds(s, t);
    }
    hide LockOK;
  }

  lemma SlotKept(c: Config, s: State, t: nat, step: Step, s': State)
    requires LockOK(s) && SlotOK(c, s) && Next(c, s, t, step, s')
    ensures SlotOK(c, s')
  {
    if step == OpenFrame || step == StoreByte {
      assert Holds(s, t);
      forall u | u in s.threads && u != t
        ensures !s.threads[u].phase.Filling?
      {
        assert s.threads[u].phase.Filling? ==> Holds(s, u);
      }
    }
    if step == StoreByte {
      var payload, k := c.scripts[t][s.threads[t].n], s.threads[t].phase.k;
      assert payload[..k + 1] == payload[..k] + [payload[k]];
    }
  }

  lemma WrittenAppend(published: seq<Frame>, f: Frame, t: nat)
    ensures WrittenBy(published + [f], t)
            == WrittenBy(published, t) + if f.Data? && f.thread == t then [f.bytes] else []
  {
    assert (published + [f])[..|published|] == published;
  }

  lemma PublishKeepsScripts(c: Config, s: State, t: nat, s': State, u: nat)
    requires SlotOK(c, s) && ScriptsOK(c, s) && Next(c, s, t, PublishFrame, s') && u in s.threads
    ensures u in c.scripts && Completed(s'.threads[u]) <= |c.scripts[u]|
    ensures WrittenBy(s'.published, u) == c.scripts[u][..Completed(s'.threads[u])]
  {
    hide WrittenBy;
    WrittenAppend(s.published, s'.published[|s.published|], u);
    if u == t {
      WholePayload(c.scripts[t], s.threads[t].n);
    }
  }

  lemma ScriptsKept(c: Config, s: State, t: nat, step: Step, s': State)
    requires SlotOK(c, s) && ScriptsOK(c, s) && Next(c, s, t, step, s')
    ensures ScriptsOK(c, s')
  {
    hide WrittenBy;
    if step == PublishFrame {
      forall u | u in s'.threads
        ensures u in c.scripts && Completed(s'.threads[u]) <= |c.scripts[u]|
        ensures WrittenBy(s'.published, u) == c.scripts[u][..Completed(s'.threads[u])]
      {
        PublishKeepsScripts(c, s, t, s', u);
      }
    } else {
      hide SlotOK;
      if step == PublishEnd {
        forall u | u in s'.threads
          ensures WrittenBy(s'.published, u) == WrittenBy(s.published, u)
        {
          WrittenAppend(s.published, s'.published[|s.published|], u);
        }
      }
    }
  }

  lemma WholePayload(script: seq<seq<int>>, n: nat)
    requires n < |script|
    ensures script[n][..|script[n]|] == script[n] && script[..n + 1] == script[..n] + [script[n]]
  {
  }

  lemma NextKeeps(c: Config, s: State, t: nat, step: Step, s': State)
    requires Inv(c, s) && Next(c, s, t, step, s')
    ensures Inv(c, s')
  {
    hide LockOK, SequenceOK, SlotOK, ScriptsOK, Next;
    LockKept(c, s, t, step, s');
    SequenceKept(c, s, t, step, s');
    SlotKept(c, s, t, step, s');
    ScriptsKept(c, s, t, step, s');
  }

  // ---------- Whole runs ----------

  datatype Move = Move(thread: nat, step: Step)

  ghost predicate Run(c: Config, run: seq<State>, moves: seq<Move>) {
    && |run| == |moves| + 1 && Init(c, run[0])
    && forall i :: 0 <= i < |moves| ==> Next(c, run[i], moves[i].thread, moves[i].step, run[i + 1])
  }

  lemma {:induction false} RunKeeps(c: Config, run: seq<State>, moves: seq<Move>, n: nat)
    requires Run(c, run, moves) && n < |run|
    ensures Inv(c, run[n])
    decreases n
  {
    hide Inv, Next;
    if n == 0 {
      InitKeeps(c, run[0]);
    } else {
      RunKeeps(c, run, moves, n - 1);
      NextKeeps(c, run[n - 1], moves[n - 1].thread, moves[n - 1].step, run[n]);
    }
  }

  lemma InitKeeps(c: Config, s: State)
    requires Init(c, s)
    ensures Inv(c, s)
  {
  }

  /** At most one thread is between taking and giving back the lock. */
  lemma MutualExclusion(c: Config, run: seq<State>, moves: seq<Move>, n: nat, t: nat, u: nat)
    requires Run(c, run, moves) && n < |run| && Holds(run[n], t) && Holds(run[n], u)
    ensures t == u && run[n].writing
  {
    RunKeeps(c, run, moves, n);
  }

  /** The published stream is a linearisation of the threads' writes: sequence numbers count up without gap
      or repeat, PageEnd frames included, and the frames of each thread carry exactly its payloads, whole
      and in its program order. */
  lemma StreamLinearisesWrites(c: Config, run: seq<State>, moves: seq<Move>, n: nat, t: nat)
    requires Run(c, run, moves) && n < |run| && t in run[n].threads
    ensures t in c.scripts && Completed(run[n].threads[t]) <= |c.scripts[t]|
    ensures WrittenBy(run[n].published, t) == c.scripts[t][..Completed(run[n].threads[t])]
    ensures forall i :: 0 <= i < |run[n].published| ==> run[n].published[i].sequence == c.sequence0 + i
  {
    RunKeeps(c, run, moves, n);
  }

  // ---------- Progress ----------

  ghost predicate Longer(c: Config, run: seq<State>, moves: seq<Move>, run': seq<State>, moves': seq<Move>) {
    0 < |run| <= |run'| && Run(c, run', moves') && run <= run' && moves <= moves'
  }

  function Last(run: seq<State>): State
    requires |run| > 0
  {
    run[|run| - 1]
  }

  lemma Extend(c: Config, run: seq<State>, moves: seq<Move>, t: nat, step: Step, s': State)
    requires |run| > 0 && Run(c, run, moves) && Next(c, Last(run), t, step, s')
    ensures Longer(c, run, moves, run + [s'], moves + [Move(t, step)]) && Last(run + [s']) == s'
  {
    hide Next, Init;
    var run', moves' := run + [s'], moves + [Move(t, step)];
    forall i | 0 <= i < |moves'|
      ensures Next(c, run'[i], moves'[i].thread, moves'[i].step, run'[i + 1])
    {
      if i < |moves| {
        assert run'[i] == run[i] && run'[i + 1] == run[i + 1] && moves'[i] == moves[i];
      }
    }
  }

  // What a thread that holds the lock does next, and where that leads.
  ghost function Onward(c: Config, s: State, t: nat): (r: (Step, State))
    requires Holds(s, t) && t in c.scripts && s.threads[t].n < |c.scripts[t]|
    requires s.threads[t].phase.Filling? ==> s.threads[t].phase.k <= |c.scripts[t][s.threads[t].n]|
  {
    var n, phase := s.threads[t].n, s.threads[t].phase;
    if phase.Rotating? then
      (PublishEnd, Moved(s, t, Rotated).(published := s.published + [PageEnd(phase.sequence)]))
    else if phase.Filling? && phase.k < |c.scripts[t][n]| then
      (StoreByte,
       Moved(s, t, Filling(phase.k + 1)).(slot := s.slot.(bytes := s.slot.bytes + [c.scripts[t][n][phase.k]])))
    else if phase.Filling? then
      (PublishFrame, Moved(s, t, Closed).(published := s.published + [Data(s.slot.sequence, t, s.slot.bytes)]))
    else if phase.Closed? then
      (Unlock, s.(threads := s.threads[t := Thread(n + 1, Outside)], writing := false))
    else
      (OpenFrame, Moved(s, t, Filling(0)).(slot := Slot(s.sequence, []), sequence := s.sequence + 1))
  }

  function StepsLeft(c: Config, s: State, t: nat): nat
    requires t in s.threads && t in c.scripts && s.threads[t].n < |c.scripts[t]|
  {
    var payload := c.scripts[t][s.threads[t].n];
    match s.threads[t].phase
    case Rotating(_) => |payload| + 5
    case Filling(k) => if k <= |payload| then |payload| - k + 2 else 0
    case Closed => 1
    case _ => |payload| + 4
  }

  lemma OnwardStep(c: Config, s: State, t: nat)
    requires Holds(s, t) && t in c.scripts && s.threads[t].n < |c.scripts[t]|
    requires s.threads[t].phase.Filling? ==> s.threads[t].phase.k <= |c.scripts[t][s.threads[t].n]|
    ensures var (step, s') := Onward(c, s, t);
            && Next(c, s, t, step, s') && s'.threads.Keys == s.threads.Keys
            && (forall u :: u in s.threads && u != t ==> s'.threads[u] == s.threads[u])
            && (if s.threads[t].phase == Closed then !s'.writing && s'.threads[t] == Thread(s.threads[t].n + 1, Outside)
                else Holds(s', t) && s'.threads[t].n == s.threads[t].n && StepsLeft(c, s', t) < StepsLeft(c, s, t))
  {
  }

  lemma HolderBounds(c: Config, s: State, t: nat)
    requires Inv(c, s) && t in s.threads
    ensures t in c.scripts && s.threads[t].n <= |c.scripts[t]|
    ensures s.threads[t].phase != Outside ==> s.threads[t].n < |c.scripts[t]|
    ensures s.threads[t].phase.Filling? ==> s.threads[t].phase.k <= |c.scripts[t][s.threads[t].n]|
    ensures Holds(s, t) <==> s.writing && t == s.owner
  {
  }

  // The holder of the lock, run on alone, publishes its frame and gives the lock back.
  lemma {:induction false} HolderFinishes(c: Config, run: seq<State>, moves: seq<Move>, t: nat)
    returns (run': seq<State>, moves': seq<Move>)
    requires |run| > 0 && Run(c, run, moves) && Holds(Last(run), t)
    requires t in c.scripts && Last(run).threads[t].n < |c.scripts[t]|
    ensures Longer(c, run, moves, run', moves')
    ensures var s, s' := Last(run), Last(run');
            && !s'.writing && s'.threads.Keys == s.threads.Keys
            && s'.threads[t] == Thread(s.threads[t].n + 1, Outside)
            && forall u :: u in s.threads && u != t ==> s'.threads[u] == s.threads[u]
    decreases StepsLeft(c, Last(run), t)
  {
    hide Run, Inv, Next, Onward, StepsLeft;
    var s := Last(run);
    RunKeeps(c, run, moves, |run| - 1);
    HolderBounds(c, s, t);
    var (step, u) := Onward(c, s, t);
    OnwardStep(c, s, t);
    Extend(c, run, moves, t, step, u);
    if s.threads[t].phase == Closed {
      run', moves' := run + [u], moves + [Move(t, step)];
    } else {
      run', moves' := HolderFinishes(c, run + [u], moves + [Move(t, step)], t);
    }
  }

  // Whoever holds the lock gives it back.
  lemma LockFreed(c: Config, run: seq<State>, moves: seq<Move>)
    returns (run': seq<State>, moves': seq<Move>)
    requires |run| > 0 && Run(c, run, moves)
    ensures Longer(c, run, moves, run', moves') && !Last(run').writing
    ensures var s, s' := Last(run), Last(run');
            && s'.threads.Keys == s.threads.Keys
            && forall u :: u in s.threads && !Holds(s, u) ==> s'.threads[u] == s.threads[u]
  {
    hide Run, Inv;
    var s := Last(run);
    RunKeeps(c, run, moves, |run| - 1);
    if s.writing && s.owner in s.threads {
      HolderBounds(c, s, s.owner);
      run', moves' := HolderFinishes(c, run, moves, s.owner);
    } else {
      run', moves' := run, moves;
      OwnerKnown(c, run, moves, |run| - 1);
    }
  }

  lemma {:induction false} OwnerKnown(c: Config, run: seq<State>, moves: seq<Move>, n: nat)
    requires Run(c, run, moves) && n < |run|
    ensures run[n].threads.Keys == c.scripts.Keys && (run[n].writing ==> run[n].owner in run[n].threads)
    decreases n
  {
    if n > 0 {
      OwnerKnown(c, run, moves, n - 1);
      assert Next(c, run[n - 1], moves[n - 1].thread, moves[n - 1].step, run[n]);
    }
  }

  // With the lock taken a thread may rotate first.
  lemma MayRotate(c: Config, s: State, t: nat)
    requires Inv(c, s) && t in s.threads && s.threads[t].phase == Locked
    ensures Next(c, s, t, TakeEnd, Moved(s, t, Rotating(s.sequence)).(sequence := s.sequence + 1))
  {
  }

  // A thread outside takes the lock when it is free.
  lemma TakesFreeLock(c: Config, s: State, t: nat)
    requires t in s.threads && t in c.scripts && s.threads[t].n < |c.scripts[t]| && !s.writing
    ensures s.threads[t].phase == Spinning ==>
      Next(c, s, t, Exchange, Moved(s, t, Locked).(writing := true, owner := t))
    ensures s.threads[t].phase == Outside ==> Next(c, s, t, Enter, Moved(s, t, Spinning))
  {
  }

  /** No thread is shut out: from every reachable state the threads can be run on so that thread t publishes its next
      payload, a spinning thread taking the lock at its first look once it is free. */
  lemma NextPayloadGetsWritten(c: Config, run: seq<State>, moves: seq<Move>, t: nat)
    returns (run': seq<State>, moves': seq<Move>)
    requires |run| > 0 && Run(c, run, moves) && t in c.scripts
    requires t in Last(run).threads ==> Last(run).threads[t].n < |c.scripts[t]|
    ensures Longer(c, run, moves, run', moves') && t in Last(run).threads && t in Last(run').threads
    ensures Last(run').threads[t] == Thread(Last(run).threads[t].n + 1, Outside)
  {
    hide Run, Inv, Next;
    var s := Last(run);
    RunKeeps(c, run, moves, |run| - 1);
    OwnerKnown(c, run, moves, |run| - 1);
    HolderBounds(c, s, t);
    if Holds(s, t) {
      run', moves' := HolderFinishes(c, run, moves, t);
    } else {
      var run1, moves1 := LockFreed(c, run, moves);
      var u := Last(run1);
      TakesFreeLock(c, u, t);
      if u.threads[t].phase == Outside {
        var v := Moved(u, t, Spinning);
        Extend(c, run1, moves1, t, Enter, v);
        run1, moves1 := run1 + [v], moves1 + [Move(t, Enter)];
        TakesFreeLock(c, v, t);
        u := v;
      }
      var x := Moved(u, t, Locked).(writing := true, owner := t);
      Extend(c, run1, moves1, t, Exchange, x);
      run', moves' := HolderFinishes(c, run1 + [x], moves1 + [Move(t, Exchange)], t);
    }
  }

  /** So every thread can get its whole script written. */
  lemma {:induction false} ScriptCompletes(c: Config, run: seq<State>, moves: seq<Move>, t: nat)
    returns (run': seq<State>, moves': seq<Move>)
    requires |run| > 0 && Run(c, run, moves) && t in c.scripts
    ensures Longer(c, run, moves, run', moves') && t in Last(run').threads
    ensures WrittenBy(Last(run').published, t) == c.scripts[t]
    decreases |c.scripts[t]| - if t in Last(run).threads then Last(run).threads[t].n else 0
  {
    hide Run, Next, WrittenBy, LockOK, SequenceOK;
    RunKeeps(c, run, moves, |run| - 1);
    OwnerKnown(c, run, moves, |run| - 1);
    var thread := Last(run).threads[t];
    if thread.n == |c.scripts[t]| {
      run', moves' := run, moves;
      assert c.scripts[t][..thread.n] == c.scripts[t];
    } else {
      var run1, moves1 := NextPayloadGetsWritten(c, run, moves, t);
      run', moves' := ScriptCompletes(c, run1, moves1, t);
    }
  }
}
