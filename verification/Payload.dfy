/** A published frame carries what was asked for and what its caller stored, read off the steps of the run. */
module Payload {
  import opened Layout
  import opened Memory
  import opened Protocol
  import opened ProtocolSafety
  import opened ProtocolProofs
  import opened ProtocolTheorems

  predicate Begins(step: Step) {
    step.OfWriter? && step.writerStep.BeginWrite?
  }

  // A store of the caller that covers byte a of the slot.
  predicate Covers(step: Step, a: nat) {
    step.OfWriter? && step.writerStep.CallerStore?
    && step.writerStep.store.off <= a < step.writerStep.store.off + |step.writerStep.store.bytes|
  }

  function ByteOfStore(step: Step, a: nat): byte
    requires Covers(step, a)
  {
    step.writerStep.store.bytes[a - step.writerStep.store.off]
  }

  // Step j begins the write that is under way before step i.
  ghost predicate Begun(steps: seq<Step>, j: nat, i: nat) {
    j < i <= |steps| && Begins(steps[j]) && forall k :: j < k < i ==> !Begins(steps[k])
  }

  // A frame nobody has stored into.
  function Requested(req: Request, sequence: int, a: nat): byte {
    if a < 32 then HeaderBytes(32 + req.size, req.msgType, req.flags, sequence, req.timestamp, 0)[a] else 0
  }

  // Byte a after the steps from j up to i.
  ghost function Composed(steps: seq<Step>, j: nat, i: nat, a: nat, requested: byte): byte
    requires j < i <= |steps|
    decreases i
  {
    if i == j + 1 then requested
    else if Covers(steps[i - 1], a) then ByteOfStore(steps[i - 1], a)
    else Composed(steps, j, i - 1, a, requested)
  }

  ghost predicate LastOver(steps: seq<Step>, k: nat, i: nat, a: nat)
    requires i <= |steps|
  {
    k < i && Covers(steps[k], a) && forall l :: k < l < i ==> !Covers(steps[l], a)
  }

  ghost predicate NoneOver(steps: seq<Step>, j: nat, i: nat, a: nat)
    requires i <= |steps|
  {
    forall k :: j < k < i ==> !Covers(steps[k], a)
  }

  lemma {:induction false} ComposedLast(steps: seq<Step>, j: nat, i: nat, a: nat, requested: byte, k: nat)
    requires j < k < i <= |steps| && LastOver(steps, k, i, a)
    ensures Composed(steps, j, i, a, requested) == ByteOfStore(steps[k], a)
    decreases i
  {
    if k < i - 1 {
      ComposedLast(steps, j, i - 1, a, requested, k);
    }
  }

  lemma {:induction false} ComposedNone(steps: seq<Step>, j: nat, i: nat, a: nat, requested: byte)
    requires j < i <= |steps| && NoneOver(steps, j, i, a)
    ensures Composed(steps, j, i, a, requested) == requested
    decreases i
  {
    if i > j + 1 {
      ComposedNone(steps, j, i - 1, a, requested);
    }
  }

  // Byte a of the writer's slot.
  ghost function SlotByte(c: Config, s: State, a: nat): byte {
    Val(c.base, s.log, s.w.page, s.w.cursor + a)
  }

  predicate Underway(w: Writer) {
    w.phase != Idle && !w.phase.Closed?
  }

  ghost predicate SlotHolds(c: Config, s: State, steps: seq<Step>, i: nat, j: nat)
    requires j < i <= |steps| && Underway(s.w)
  {
    var w, req := s.w, s.w.phase.req;
    if w.phase.Open? then
      forall a :: 4 <= a < 32 + req.size ==>
        SlotByte(c, s, a) == Composed(steps, j, i, a, Requested(req, c.sequence0 + |s.pub|, a))
    else
      && (forall k :: j < k < i ==> !(steps[k].OfWriter? && steps[k].writerStep.CallerStore?))
      && (w.phase.Filling? ==> forall a :: 32 <= a < 32 + req.size ==> SlotByte(c, s, a) == 0)
  }

  // What the steps so far say about the write under way.
  ghost predicate Describes(c: Config, s: State, steps: seq<Step>, i: nat, j: nat) {
    && Underway(s.w) && Begun(steps, j, i) && steps[j].writerStep.req == s.w.phase.req
    && SlotHolds(c, s, steps, i, j)
  }

  ghost predicate Described(c: Config, s: State, steps: seq<Step>, i: nat) {
    Underway(s.w) ==> exists j: nat :: Describes(c, s, steps, i, j)
  }

  // ---------- Every step keeps the description ----------

  lemma AheadZero(c: Config, s: State, p: nat, a: nat)
    requires ValidConfig(c) && LogOK(c, s.w, s.top, s.log) && c.page0 <= s.w.page < p && 64 <= a
    ensures Val(c.base, s.log, p, a) == 0
  {
    forall k | 0 <= k < |s.log| && s.log[k].page == p
      ensures s.log[k].ZeroFrom(a)
    {
      assert EventOK(c, s.w, s.top, s.log[k]);
    }
    CleanBody(c, s.log, p, a);
  }

  lemma CursorZero(c: Config, s: State, a: nat)
    requires ValidConfig(c) && LogOK(c, s.w, s.top, s.log) && c.page0 <= s.w.page && 64 <= Hi(s.w) <= a
    ensures Val(c.base, s.log, s.w.page, a) == 0
  {
    forall k | 0 <= k < |s.log| && s.log[k].page == s.w.page
      ensures s.log[k].ZeroFrom(a)
    {
      assert EventOK(c, s.w, s.top, s.log[k]);
    }
    CleanBody(c, s.log, s.w.page, a);
  }

  lemma BeginDescribes(c: Config, s: State, steps: seq<Step>, i: nat, s': State)
    requires Inv(c, s) && i < |steps| && Next(c, s, steps[i], s') && Begins(steps[i])
    ensures Described(c, s', steps, i + 1)
  {
    hide ValidConfig, LogOK, SlotOK, ChainOK, FrontierOK, SafeOK, HeadersOK, MakingOK, RotationOK, ViewOK, ReadersOK,
      WarmerOK;
    var req := s'.w.phase.req;
    if s'.w.phase.Filling? {
      forall a | 32 <= a < 32 + req.size
        ensures SlotByte(c, s', a) == 0
      {
        CursorZero(c, s, s.w.cursor + a);
      }
    }
    assert Describes(c, s', steps, i + 1, i);
  }

  // A step that is no store of the caller leaves every composed byte.
  lemma ComposedOn(steps: seq<Step>, j: nat, i: nat, a: nat, requested: byte)
    requires j < i < |steps| && !Covers(steps[i], a)
    ensures Composed(steps, j, i + 1, a, requested) == Composed(steps, j, i, a, requested)
  {
  }

  lemma OtherStep(c: Config, s: State, step: Step, s': State, a: nat)
    requires WarmerOK(c, s) && Next(c, s, step, s') && !step.OfWriter?
    ensures s'.w == s.w && s'.pub == s.pub && SlotByte(c, s', a) == SlotByte(c, s, a)
  {
    hide LE, ReaderNext, WarmStores;
  }

  // A step of the warmer or a reader.
  lemma OthersDescribe(c: Config, s: State, steps: seq<Step>, i: nat, j: nat, s': State)
    requires WarmerOK(c, s) && Describes(c, s, steps, i, j) && i < |steps|
    requires Next(c, s, steps[i], s') && !steps[i].OfWriter?
    ensures Describes(c, s', steps, i + 1, j)
  {
    hide SlotByte, Requested, Next, WarmerOK, Composed;
    OtherStep(c, s, steps[i], s', 0);
    var req := s.w.phase.req;
    forall a: nat
      ensures SlotByte(c, s', a) == SlotByte(c, s, a)
      ensures Composed(steps, j, i + 1, a, Requested(req, c.sequence0 + |s.pub|, a))
              == Composed(steps, j, i, a, Requested(req, c.sequence0 + |s.pub|, a))
    {
      OtherStep(c, s, steps[i], s', a);
      ComposedOn(steps, j, i, a, Requested(req, c.sequence0 + |s.pub|, a));
    }
  }

  // The caller stores into the open frame.
  lemma CallerDescribes(c: Config, s: State, steps: seq<Step>, i: nat, j: nat, s': State)
    requires Describes(c, s, steps, i, j) && i < |steps| && steps[i].OfWriter? && steps[i].writerStep.CallerStore?
    requires Next(c, s, steps[i], s')
    ensures Describes(c, s', steps, i + 1, j)
  {
    hide Requested;
    var req, store := s.w.phase.req, steps[i].writerStep.store;
    var e := Plain(s.w.page, s.w.cursor, store);
    assert s'.log == s.log + [e];
    forall a | 4 <= a < 32 + req.size
      ensures SlotByte(c, s', a) == Composed(steps, j, i + 1, a, Requested(req, c.sequence0 + |s'.pub|, a))
    {
      ValAppend(c.base, s.log, e, s.w.page, s.w.cursor + a);
      assert SlotByte(c, s, a) == Composed(steps, j, i, a, Requested(req, c.sequence0 + |s.pub|, a));
      assert Covers(steps[i], a) <==> e.Covers(s.w.page, s.w.cursor + a);
    }
  }

  lemma FilledByte(c: Config, s: State, a: nat)
    requires SlotOK(c, s) && WriterOK(c, s) && s.w.phase.Filling? && s.w.phase.k == 7 && 4 <= a < 32
    ensures SlotByte(c, s, a) == Requested(s.w.phase.req, c.sequence0 + |s.pub|, a)
  {
    hide Val, LE, PutAll, HeaderBytes, Requested;
    var req, q := s.w.phase.req, c.sequence0 + |s.pub|;
    var slot := Image(c.base, s.log, s.w.page, s.w.cursor, 32);
    var stores := OpenStores(req.timestamp, req.msgType, req.flags, q);
    assert stores[..7] == stores;
    OpenStoresResult(Zeros(32), req.timestamp, req.msgType, req.flags, q);
    LengthApart(req, q);
    assert slot[a] == Val(c.base, s.log, s.w.page, s.w.cursor + a);
  }

  // The header is complete: it holds the request, and the payload is zero.
  lemma FilledDescribes(c: Config, s: State, steps: seq<Step>, i: nat, j: nat, s': State)
    requires SlotOK(c, s) && WriterOK(c, s) && Describes(c, s, steps, i, j) && i < |steps|
    requires steps[i] == OfWriter(FillDone) && Next(c, s, steps[i], s')
    ensures Describes(c, s', steps, i + 1, j)
  {
    hide Val, SlotOK, WriterOK, HeaderBytes;
    var req, q := s.w.phase.req, c.sequence0 + |s.pub|;
    forall a | 4 <= a < 32 + req.size
      ensures SlotByte(c, s', a) == Composed(steps, j, i + 1, a, Requested(req, q, a))
    {
      assert SlotByte(c, s', a) == SlotByte(c, s, a);
      if a < 32 {
        FilledByte(c, s, a);
      }
      assert NoneOver(steps, j, i + 1, a);
      ComposedNone(steps, j, i + 1, a, Requested(req, q, a));
    }
  }

  // Headers that differ in the length agree from byte 4 on.
  lemma LengthApart(req: Request, q: int)
    ensures forall a :: 4 <= a < 32 ==>
      HeaderBytes(0, req.msgType, req.flags, q, req.timestamp, 0)[a] == Requested(req, q, a)
  {
    hide LE;
  }

  lemma FillZero(c: Config, s: State, s': State, a: nat)
    requires Next(c, s, OfWriter(FillStore), s') && a >= 32 && SlotByte(c, s, a) == 0
    ensures SlotByte(c, s', a) == 0
  {
    hide LE, Val;
    var req := s.w.phase.req;
    var e := Plain(s.w.page, s.w.cursor,
                   OpenStores(req.timestamp, req.msgType, req.flags, s.w.sequence - 1)[s.w.phase.k]);
    ValAppend(c.base, s.log, e, s.w.page, s.w.cursor + a);
  }

  lemma SwitchZero(c: Config, s: State, s': State, a: nat)
    requires Inv(c, s) && Next(c, s, OfWriter(SwitchPage), s')
    ensures SlotByte(c, s', a) == 0
  {
    hide ValidConfig, LogOK, SlotOK, ChainOK, FrontierOK, SafeOK, HeadersOK, MakingOK, RotationOK, ViewOK, ReadersOK,
      WarmerOK, LE, Val;
    var e := Plain(s.w.page, 16, Store(0, LE(s.w.cursor, 8)));
    ValAppend(c.base, s.log, e, s.w.page + 1, 64 + a);
    AheadZero(c, s, s.w.page + 1, 64 + a);
  }

  // What the writer's steps make of the write under way, before the frame is open.
  lemma MakingPhase(c: Config, s: State, step: WriterStep, s': State)
    requires WriterNext(c, s, step, s') && !step.BeginWrite? && step != FillDone && Underway(s.w) && !s.w.phase.Open?
    ensures Underway(s'.w) && !s'.w.phase.Open? && s'.w.phase.req == s.w.phase.req && !step.CallerStore?
    ensures s'.w.phase.Filling? ==> step == SwitchPage || (step == FillStore && s.w.phase.Filling?)
  {
    hide LE, Image, PageEvents;
  }

  // The writer's other steps before the frame is open.
  lemma MakingDescribes(c: Config, s: State, steps: seq<Step>, i: nat, j: nat, s': State)
    requires Inv(c, s) && Describes(c, s, steps, i, j) && i < |steps| && Next(c, s, steps[i], s')
    requires steps[i].OfWriter? && !Begins(steps[i]) && !s.w.phase.Open? && steps[i] != OfWriter(FillDone)
    ensures Describes(c, s', steps, i + 1, j)
  {
    hide Inv, WriterNext, SlotByte;
    MakingPhase(c, s, steps[i].writerStep, s');
    if s'.w.phase.Filling? {
      forall a | 32 <= a < 32 + s.w.phase.req.size
        ensures SlotByte(c, s', a) == 0
      {
        if steps[i] == OfWriter(FillStore) {
          FillZero(c, s, s', a);
        } else {
          SwitchZero(c, s, s', a);
        }
      }
    }
  }

  lemma StepDescribes(c: Config, s: State, steps: seq<Step>, i: nat, s': State)
    requires Inv(c, s) && i < |steps| && Next(c, s, steps[i], s') && Described(c, s, steps, i)
    ensures Described(c, s', steps, i + 1)
  {
    hide Inv, Describes, Next;
    if Begins(steps[i]) {
      BeginDescribes(c, s, steps, i, s');
    } else if Underway(s'.w) {
      StaysUnderway(c, s, steps[i], s');
      var j: nat :| Describes(c, s, steps, i, j);
      Parts(c, s);
      if !steps[i].OfWriter? {
        OthersDescribe(c, s, steps, i, j, s');
      } else if steps[i].writerStep.CallerStore? {
        CallerDescribes(c, s, steps, i, j, s');
      } else if steps[i] == OfWriter(FillDone) {
        FilledDescribes(c, s, steps, i, j, s');
      } else {
        MakingDescribes(c, s, steps, i, j, s');
      }
    }
  }

  lemma StaysUnderway(c: Config, s: State, step: Step, s': State)
    requires Next(c, s, step, s') && !Begins(step) && Underway(s'.w)
    ensures Underway(s.w)
    ensures step.OfWriter? && !step.writerStep.CallerStore? && step != OfWriter(FillDone) ==> !s.w.phase.Open?
  {
    hide LE, Image, PageEvents, ReaderNext;
  }

  lemma Parts(c: Config, s: State)
    requires Inv(c, s)
    ensures WarmerOK(c, s) && SlotOK(c, s) && WriterOK(c, s)
  {
  }

  lemma {:induction false} RunDescribes(c: Config, states: seq<State>, steps: seq<Step>, i: nat)
    requires Run(c, states, steps) && i < |states|
    ensures Described(c, states[i], steps, i)
    decreases i
  {
    hide Inv, Next, Describes;
    if i == 0 {
      IdleAtFirst(c, states[0]);
    } else {
      RunDescribes(c, states, steps, i - 1);
      Reachable(c, states, steps, i - 1);
      StepDescribes(c, states[i - 1], steps, i - 1, states[i]);
    }
  }

  lemma IdleAtFirst(c: Config, s: State)
    requires Init(c, s)
    ensures !Underway(s.w)
  {
  }

  // ---------- Published frames ----------

  // The step that published frame n.
  lemma {:induction false} PublishedBy(c: Config, states: seq<State>, steps: seq<Step>, m: nat, n: nat) returns (i: nat)
    requires Run(c, states, steps) && m < |states| && n < |states[m].pub|
    ensures i < m && |states[i].pub| == n < |states[i + 1].pub| && states[i + 1].pub[n] == states[m].pub[n]
    decreases m
  {
    hide Next;
    if m > 0 {
      PublishesOne(c, states[m - 1], steps[m - 1], states[m]);
      if n < |states[m - 1].pub| {
        i := PublishedBy(c, states, steps, m - 1, n);
      } else {
        i := m - 1;
      }
    }
  }

  lemma PublishesOne(c: Config, s: State, step: Step, s': State)
    requires Next(c, s, step, s')
    ensures s.pub <= s'.pub && |s'.pub| <= |s.pub| + 1
  {
    hide LE, Image, PageEvents, ReaderNext;
  }

  lemma PublishStep(c: Config, s: State, step: Step, s': State)
    requires Next(c, s, step, s') && |s'.pub| > |s.pub|
    ensures if s'.pub[|s.pub|].kind.Data?
            then step == OfWriter(ReleaseFrame) && s.w.phase.Open? && s'.pub[|s.pub|].kind.req == s.w.phase.req
                 && |s'.pub[|s.pub|].bytes| == 32 + s.w.phase.req.size
            else step == OfWriter(ReleasePageEnd) && s.w.phase.Ending? && s'.pub[|s.pub|].kind.now == s.w.phase.now
  {
    hide WriterNext;
    if !step.OfWriter? {
      OnlyWriterPublishes(c, s, step, s');
    }
    WriterPublishes(c, s, step.writerStep, s');
  }

  lemma OnlyWriterPublishes(c: Config, s: State, step: Step, s': State)
    requires Next(c, s, step, s') && !step.OfWriter?
    ensures s'.pub == s.pub
  {
    hide LE, ReaderNext;
  }

  lemma WriterPublishes(c: Config, s: State, step: WriterStep, s': State)
    requires WriterNext(c, s, step, s') && |s'.pub| > |s.pub|
    ensures if s'.pub[|s.pub|].kind.Data?
            then step == ReleaseFrame && s.w.phase.Open? && s'.pub[|s.pub|].kind.req == s.w.phase.req
                 && |s'.pub[|s.pub|].bytes| == 32 + s.w.phase.req.size
            else step == ReleasePageEnd && s.w.phase.Ending? && s'.pub[|s.pub|].kind.now == s.w.phase.now
  {
    hide LE, PageEvents, Image, ValidRequest, PageHeaderStores, PageEndStores, OpenStores, Stride;
  }

  // The released frame is its slot with the length in.
  lemma ReleasedBytes(c: Config, s: State, s': State)
    requires Next(c, s, OfWriter(ReleaseFrame), s')
    ensures |s'.pub| == |s.pub| + 1 && |s'.pub[|s.pub|].bytes| == 32 + s.w.phase.req.size
    ensures forall a :: 4 <= a < 32 + s.w.phase.req.size ==> s'.pub[|s.pub|].bytes[a] == SlotByte(c, s, a)
    ensures s'.pub[|s.pub|].bytes[0..4] == LE(32 + s.w.phase.req.size, 4)
  {
    hide LE, Image;
    var e := Event(s.w.page, s.w.cursor, LE(32 + s.w.phase.req.size, 4), s.w.view + {|s.log|});
    var bytes := s'.pub[|s.pub|].bytes;
    assert s'.log == s.log + [e];
    forall a | 0 <= a < 32 + s.w.phase.req.size
      ensures bytes[a] == if a < 4 then e.bytes[a] else SlotByte(c, s, a)
    {
      ValAppend(c.base, s.log, e, s.w.page, s.w.cursor + a);
      assert bytes[a] == Val(c.base, s'.log, s.w.page, s.w.cursor + a);
    }
  }

  /** Every published data frame is the one that a write step asked for, with what its caller stored: from that step j
      to the release i no other write begins, each byte is the one that the last store over it carries, and a byte
      that no store covers is that of the requested header, or zero. */
  lemma FramesCarryPayload(c: Config, states: seq<State>, steps: seq<Step>, m: nat, n: nat) returns (j: nat, i: nat)
    requires Run(c, states, steps) && m < |states| && n < |states[m].pub| && states[m].pub[n].kind.Data?
    ensures j < i < m && |states[i].pub| == n && steps[i] == OfWriter(ReleaseFrame)
    ensures Begins(steps[j]) && forall k :: j < k < i ==> !Begins(steps[k])
    ensures var bytes, req := states[m].pub[n].bytes, steps[j].writerStep.req;
            && |bytes| == 32 + req.size
            && (forall a: nat, k: nat :: a < |bytes| && j < k < i && LastOver(steps, k, i, a) ==>
                  bytes[a] == ByteOfStore(steps[k], a))
            && (forall a :: 0 <= a < |bytes| && NoneOver(steps, j, i, a) ==>
                  bytes[a] == Requested(req, c.sequence0 + n, a))
  {
    hide Inv, Next, Requested, Composed, SlotByte, NoneOver;
    i := PublishedBy(c, states, steps, m, n);
    var s, s' := states[i], states[i + 1];
    PublishStep(c, s, steps[i], s');
    RunDescribes(c, states, steps, i);
    j :| 0 <= j && Describes(c, s, steps, i, j);
    ReleasedBytes(c, s, s');
    var bytes, req := s'.pub[n].bytes, s.w.phase.req;
    forall a: nat, k: nat | a < |bytes| && j < k < i && LastOver(steps, k, i, a)
      ensures bytes[a] == ByteOfStore(steps[k], a)
    {
      StoredByte(c, states, steps, j, i, k, a, bytes);
    }
    forall a | 0 <= a < |bytes| && NoneOver(steps, j, i, a)
      ensures bytes[a] == Requested(req, c.sequence0 + n, a)
    {
      DefaultByte(c, states, steps, j, i, a, bytes);
    }
  }

  ghost predicate FromSlot(c: Config, s: State, bytes: Bytes) {
    && s.w.phase.Open? && |bytes| == 32 + s.w.phase.req.size && bytes[0..4] == LE(|bytes|, 4)
    && forall a :: 4 <= a < |bytes| ==> bytes[a] == SlotByte(c, s, a)
  }

  lemma StoredByte(c: Config, states: seq<State>, steps: seq<Step>, j: nat, i: nat, k: nat, a: nat, bytes: Bytes)
    requires Run(c, states, steps) && i <= |steps| && Describes(c, states[i], steps, i, j)
    requires FromSlot(c, states[i], bytes) && a < |bytes| && j < k < i && LastOver(steps, k, i, a)
    ensures bytes[a] == ByteOfStore(steps[k], a)
  {
    hide Composed, SlotByte, Requested, Next;
    if a < 4 {
      NeverStored(c, states, steps, k, a);
    } else {
      var s := states[i];
      ComposedLast(steps, j, i, a, Requested(s.w.phase.req, c.sequence0 + |s.pub|, a), k);
    }
  }

  lemma DefaultByte(c: Config, states: seq<State>, steps: seq<Step>, j: nat, i: nat, a: nat, bytes: Bytes)
    requires Run(c, states, steps) && i <= |steps| && Describes(c, states[i], steps, i, j)
    requires FromSlot(c, states[i], bytes) && a < |bytes| && NoneOver(steps, j, i, a)
    ensures bytes[a] == Requested(states[i].w.phase.req, c.sequence0 + |states[i].pub|, a)
  {
    hide Composed, SlotByte, Requested, Next, LE, NoneOver;
    var s := states[i];
    if a < 4 {
      LengthBytes(s.w.phase.req, c.sequence0 + |s.pub|, a);
      assert bytes[a] == bytes[0..4][a];
    } else {
      ComposedNone(steps, j, i, a, Requested(s.w.phase.req, c.sequence0 + |s.pub|, a));
    }
  }

  lemma LengthBytes(req: Request, q: int, a: nat)
    requires a < 4
    ensures Requested(req, q, a) == LE(32 + req.size, 4)[a]
  {
    hide LE;
    HeaderFields(32 + req.size, req.msgType, req.flags, q, req.timestamp, 0);
    assert HeaderBytes(32 + req.size, req.msgType, req.flags, q, req.timestamp, 0)[0..4][a] == LE(32 + req.size, 4)[a];
  }

  // The caller never stores into the length.
  lemma NeverStored(c: Config, states: seq<State>, steps: seq<Step>, k: nat, a: nat)
    requires Run(c, states, steps) && k < |steps| && a < 4
    ensures !Covers(steps[k], a)
  {
    assert Next(c, states[k], steps[k], states[k + 1]);
  }

  // ---------- PageEnd frames ----------

  // The step at which rotatePage has found the next page and reads the clock.
  predicate Turns(step: Step) {
    step.OfWriter? && (step.writerStep.ClaimWarmed? || step.writerStep.LoadExisting? || step.writerStep.HeaderDone?)
  }

  function ClockOf(step: Step): int
    requires Turns(step)
  {
    match step.writerStep
    case ClaimWarmed(now) => now
    case LoadExisting(now) => now
    case HeaderDone(now) => now
  }

  ghost predicate TurnedAt(steps: seq<Step>, j: nat, i: nat) {
    j < i <= |steps| && Turns(steps[j]) && forall k :: j < k < i ==> !Turns(steps[k])
  }

  ghost predicate Clocked(s: State, steps: seq<Step>, i: nat) {
    s.w.phase.Ending? ==> exists j: nat :: TurnedAt(steps, j, i) && ClockOf(steps[j]) == s.w.phase.now
  }

  lemma StepClocked(c: Config, s: State, steps: seq<Step>, i: nat, s': State)
    requires i < |steps| && Next(c, s, steps[i], s') && Clocked(s, steps, i)
    ensures Clocked(s', steps, i + 1)
  {
    hide LE, Image, PageEvents, ReaderNext, ValidRequest, OpenStores, PageEndStores, PageHeaderStores,
      Layout.WarmStores;
    if s'.w.phase.Ending? {
      if Turns(steps[i]) {
        assert TurnedAt(steps, i, i + 1);
      } else {
        var j: nat :| TurnedAt(steps, j, i) && ClockOf(steps[j]) == s.w.phase.now;
        assert TurnedAt(steps, j, i + 1);
      }
    }
  }

  lemma {:induction false} RunClocked(c: Config, states: seq<State>, steps: seq<Step>, i: nat)
    requires Run(c, states, steps) && i < |states|
    ensures Clocked(states[i], steps, i)
    decreases i
  {
    hide Next, Clocked;
    if i == 0 {
      NotEndingAtFirst(c, states[0], steps);
    } else {
      RunClocked(c, states, steps, i - 1);
      StepClocked(c, states[i - 1], steps, i - 1, states[i]);
    }
  }

  lemma NotEndingAtFirst(c: Config, s: State, steps: seq<Step>)
    requires Init(c, s)
    ensures Clocked(s, steps, 0)
  {
  }

  /** Every published PageEnd is stamped with the time at which its rotation found the next page, and is otherwise
      fixed: a header of length 32 with the next sequence number. */
  lemma PageEndsCarryTheirTime(c: Config, states: seq<State>, steps: seq<Step>, m: nat, n: nat)
    returns (j: nat, i: nat)
    requires Run(c, states, steps) && m < |states| && n < |states[m].pub| && states[m].pub[n].kind.End?
    ensures j < i < m && |states[i].pub| == n && steps[i] == OfWriter(ReleasePageEnd)
    ensures Turns(steps[j]) && forall k :: j < k < i ==> !Turns(steps[k])
    ensures states[m].pub[n].bytes == HeaderBytes(32, PAGE_END, 0, c.sequence0 + n, ClockOf(steps[j]), 0)
  {
    hide Inv, Next, HeaderBytes;
    i := PublishedBy(c, states, steps, m, n);
    PublishStep(c, states[i], steps[i], states[i + 1]);
    RunClocked(c, states, steps, i);
    j :| 0 <= j && TurnedAt(steps, j, i) && ClockOf(steps[j]) == states[i].w.phase.now;
    Reachable(c, states, steps, m);
    EndBytes(c, states[m], n);
  }

  lemma EndBytes(c: Config, s: State, n: nat)
    requires Inv(c, s) && n < |s.pub| && s.pub[n].kind.End?
    ensures s.pub[n].bytes == HeaderBytes(32, PAGE_END, 0, c.sequence0 + n, s.pub[n].kind.now, 0)
  {
    hide ValidConfig, WriterOK, WarmerOK, LogOK, SlotOK, FrontierOK, SafeOK, HeadersOK, MakingOK, RotationOK, ViewOK,
      ReadersOK, HeaderBytes;
    EndInChain(c, s.pub, n);
  }

  lemma EndInChain(c: Config, pub: seq<Pub>, n: nat)
    requires ChainOK(c, pub) && n < |pub| && pub[n].kind.End?
    ensures pub[n].bytes == HeaderBytes(32, PAGE_END, 0, c.sequence0 + n, pub[n].kind.now, 0)
  {
    hide HeaderBytes, LE, FramePhysicalLength;
    assert PubOK(c, pub, n);
  }
}
