/** What the last-frame positions of the pages say at any moment of a session. */
module LastFramePosition {
  import opened Layout
  import opened Memory
  import opened Protocol
  import opened ProtocolSafety
  import opened ProtocolProofs
  import opened ProtocolTheorems

  ghost function Lfp(c: Config, log: Log, p: nat): nat {
    FromLE(Image(c.base, log, p, 16, 8))
  }

  // How many published frames have also been closed.
  function ClosedCount(s: State): nat {
    if (s.w.phase.Closed? || s.w.phase.Ended?) && |s.pub| > 0 then |s.pub| - 1 else |s.pub|
  }

  // The offset of the last frame closed on the current page; that of the first frame if there is none.
  function LastClosed(s: State): nat {
    var n := ClosedCount(s);
    if n > 0 && s.pub[n - 1].page == s.w.page then s.pub[n - 1].off else 64
  }

  // Between its release and its closing, the last published frame is the one at the cursor.
  ghost predicate SlotPublished(s: State) {
    s.w.phase.Closed? || s.w.phase.Ended? ==>
      |s.pub| > 0 && s.pub[|s.pub| - 1].page == s.w.page && s.pub[|s.pub| - 1].off == s.w.cursor
  }

  // Pages behind the writer point past their first frame, pages ahead do not, and the current page
  // points at its last closed frame.
  ghost predicate LfpOK(c: Config, s: State) {
    && (forall p :: c.page0 <= p < s.w.page ==> Lfp(c, s.log, p) > 64)
    && SlotPublished(s) && Lfp(c, s.log, s.w.page) == LastClosed(s)
    && (forall p :: s.w.page < p <= s.top ==> Lfp(c, s.log, p) <= 64)
  }

  lemma LfpAvoids(c: Config, log: Log, e: Event)
    requires e.off >= 64
    ensures forall p :: Lfp(c, log + [e], p) == Lfp(c, log, p)
  {
    forall p: nat
      ensures Lfp(c, log + [e], p) == Lfp(c, log, p)
    {
      ImageAvoids(c.base, log, e, p, 16, 8);
    }
  }

  lemma LfpElsewhere(c: Config, log: Log, e: Event, p: nat)
    requires e.Avoids(p, 16, 24)
    ensures Lfp(c, log + [e], p) == Lfp(c, log, p)
  {
    ImageAvoids(c.base, log, e, p, 16, 8);
  }

  lemma LfpStored(c: Config, log: Log, p: nat, v: nat)
    requires v < 0x1_0000_0000
    ensures Lfp(c, log + [Plain(p, 16, Store(0, LE(v, 8)))], p) == v
  {
    hide LE;
    var e := Plain(p, 16, Store(0, LE(v, 8)));
    ImagePut(c.base, log, e, p, 16, 8);
    assert Put(Image(c.base, log, p, 16, 8), Store(0, e.bytes)) == e.bytes;
    PowValues();
    UnsignedRoundTrip(v, 8);
  }

  // A store of the initial header words leaves the position at most 64.
  lemma LfpInitialised(c: Config, log: Log, p: nat, st: Store)
    requires Lfp(c, log, p) <= 64
    requires st.off + |st.bytes| <= 16 || st.off >= 64 || st == Store(16, LE(64, 8)) || st == Store(0, Zeros(64))
    ensures Lfp(c, log + [Plain(p, 0, st)], p) <= 64
  {
    hide LE;
    if st == Store(0, Zeros(64)) {
      forall i | 0 <= i < 8
        ensures Image(c.base, log + [Plain(p, 0, st)], p, 16, 8)[i] == 0
      {
        ValAppend(c.base, log, Plain(p, 0, st), p, 16 + i);
      }
      FromLEZero(Image(c.base, log + [Plain(p, 0, st)], p, 16, 8));
    } else if st == Store(16, LE(64, 8)) {
      LfpStored(c, log, p, 64);
      assert Plain(p, 0, st) == Plain(p, 16, Store(0, LE(64, 8)));
    } else {
      LfpElsewhere(c, log, Plain(p, 0, st), p);
    }
  }

  // Stores that leave every last-frame position alone, and silent steps.
  lemma LfpUnmoved(c: Config, s: State, s': State)
    requires LfpOK(c, s) && s'.w.page == s.w.page && s.pub <= s'.pub
    requires s'.top == s.top || (s'.top == s.top + 1 && Lfp(c, s'.log, s'.top) <= 64)
    requires forall p :: Lfp(c, s'.log, p) == Lfp(c, s.log, p)
    requires LastClosed(s') == LastClosed(s) && SlotPublished(s')
    ensures LfpOK(c, s')
  {
    hide Lfp;
  }

  lemma FreshLfp(c: Config, s: State)
    requires Inv(c, s)
    ensures Lfp(c, s.log, s.top + 1) == 0
  {
    hide LE, Val;
    FreshPage(c, s);
    var word := Image(c.base, s.log, s.top + 1, 16, 8);
    forall i | 0 <= i < 8
      ensures word[i] == 0
    {
      assert Image(c.base, s.log, s.top + 1, 0, c.P)[16 + i] == Zeros(c.P)[16 + i];
    }
    FromLEZero(word);
  }

  lemma CloseFrameLfp(c: Config, s: State, s': State)
    requires Inv(c, s) && LfpOK(c, s) && WriterNext(c, s, CloseFrame, s')
    ensures LfpOK(c, s')
  {
    hide Lfp, LE, LogOK, SafeOK, ChainOK, ReadersOK, HeadersOK, MakingOK, SlotOK, ViewOK, RotationOK, WarmerOK,
      ValidConfig, Image, FramePhysicalLength, AlignUp;
    LfpStored(c, s.log, s.w.page, s.w.cursor);
    forall p | p != s.w.page
      ensures Lfp(c, s'.log, p) == Lfp(c, s.log, p)
    {
      LfpElsewhere(c, s.log, LfpEvent(s.w), p);
    }
  }

  lemma NextPageLfp(c: Config, s: State)
    requires HeadersOK(c, s) && WarmerOK(c, s) && WriterOK(c, s) && s.w.phase.Ended?
    ensures Lfp(c, s.log, s.w.page + 1) >= 64
  {
    hide LE, FromLE, Image, HeaderOK;
    assert !InProgress(s, s.w.page + 1);
    HeaderInMemory(c, s, s.w.page + 1);
  }

  lemma SwitchPageLfp(c: Config, s: State, s': State)
    requires Inv(c, s) && LfpOK(c, s) && WriterNext(c, s, SwitchPage, s')
    ensures LfpOK(c, s')
  {
    hide Lfp, LE, LogOK, SafeOK, ChainOK, ReadersOK, HeaderOK, MakingOK, SlotOK, ViewOK, FrontierOK, Image;
    LfpStored(c, s.log, s.w.page, s.w.cursor);
    assert Lfp(c, s.log, s.w.page + 1) >= 64 by { NextPageLfp(c, s); }
    forall p | p != s.w.page
      ensures Lfp(c, s'.log, p) == Lfp(c, s.log, p)
    {
      LfpElsewhere(c, s.log, LfpEvent(s.w), p);
    }
  }

  lemma InitialStoreLfp(c: Config, s: State, p: nat, st: Store, s': State)
    requires LfpOK(c, s) && s.w.page < p <= s.top
    requires st.off + |st.bytes| <= 16 || st.off >= 64 || st == Store(16, LE(64, 8)) || st == Store(0, Zeros(64))
    requires s'.log == s.log + [Plain(p, 0, st)] && s'.w.page == s.w.page && s'.top == s.top
    requires LastClosed(s') == LastClosed(s) && SlotPublished(s')
    ensures LfpOK(c, s')
  {
    hide Lfp, LE;
    LfpInitialised(c, s.log, p, st);
    forall q | q != p
      ensures Lfp(c, s'.log, q) == Lfp(c, s.log, q)
    {
      LfpElsewhere(c, s.log, Plain(p, 0, st), q);
    }
  }

  // Stores and releases in a frame's slot.
  lemma SlotStoreLfp(c: Config, s: State, step: WriterStep, s': State)
    requires Inv(c, s) && LfpOK(c, s) && WriterNext(c, s, step, s')
    requires step.PageEndStore? || step.ReleasePageEnd? || step.FillStore? || step.CallerStore? || step.ReleaseFrame?
    ensures LfpOK(c, s')
  {
    hide LE, LfpOK, LogOK, SafeOK, ChainOK, ReadersOK, HeadersOK, MakingOK, SlotOK, ViewOK, FrontierOK, Image, Lfp;
    match step
    case PageEndStore =>
      LfpAvoids(c, s.log, Plain(s.w.page, s.w.cursor, PageEndStores(s.w.phase.now, s.w.sequence - 1)[s.w.phase.k]));
      LfpUnmoved(c, s, s');
    case ReleasePageEnd => LfpAvoids(c, s.log, ReleaseEvent(s, 32)); LfpUnmoved(c, s, s');
    case FillStore =>
      var req := s.w.phase.req;
      LfpAvoids(c, s.log, Plain(s.w.page, s.w.cursor,
                                OpenStores(req.timestamp, req.msgType, req.flags, s.w.sequence - 1)[s.w.phase.k]));
      LfpUnmoved(c, s, s');
    case CallerStore(store) => LfpAvoids(c, s.log, Plain(s.w.page, s.w.cursor, store)); LfpUnmoved(c, s, s');
    case ReleaseFrame =>
      LfpAvoids(c, s.log, ReleaseEvent(s, FRAME_HEADER_SIZE + s.w.phase.req.size));
      LfpUnmoved(c, s, s');
  }

  lemma WriterLfp(c: Config, s: State, step: WriterStep, s': State)
    requires Inv(c, s) && LfpOK(c, s) && WriterNext(c, s, step, s')
    ensures LfpOK(c, s')
  {
    hide LE, LfpOK, LogOK, SafeOK, ChainOK, ReadersOK, HeadersOK, MakingOK, SlotOK, ViewOK, FrontierOK, Image, Lfp;
    match step
    case BeginWrite(req) => LfpUnmoved(c, s, s');
    case ClaimWarmed(now) => LfpUnmoved(c, s, s');
    case LoadExisting(now) => LfpUnmoved(c, s, s');
    case LoadNew => FreshLfp(c, s); LfpUnmoved(c, s, s');
    case HeaderStore => InitialStoreLfp(c, s, s.w.page + 1, PageHeaderStores(c.P)[s.w.phase.k], s');
    case HeaderDone(now) => LfpUnmoved(c, s, s');
    case SwitchPage => SwitchPageLfp(c, s, s');
    case FillDone => LfpUnmoved(c, s, s');
    case CloseFrame => CloseFrameLfp(c, s, s');
    case _ => SlotStoreLfp(c, s, step, s');
  }

  lemma WarmerLfp(c: Config, s: State, step: WarmerStep, s': State)
    requires Inv(c, s) && LfpOK(c, s) && WarmerNext(c, s, step, s')
    ensures LfpOK(c, s')
  {
    hide LE, LogOK, SafeOK, ChainOK, ReadersOK, HeadersOK, MakingOK, SlotOK, ViewOK, FrontierOK;
    match step
    case WarmBegin => FreshLfp(c, s); LfpUnmoved(c, s, s');
    case WarmStore => InitialStoreLfp(c, s, s.warmer.page, WarmStores(c.P)[s.warmer.k], s');
    case WarmDone => LfpUnmoved(c, s, s');
  }

  lemma NextLfp(c: Config, s: State, step: Step, s': State)
    requires Inv(c, s) && LfpOK(c, s) && Next(c, s, step, s')
    ensures LfpOK(c, s')
  {
    hide Inv, WriterNext, WarmerNext, ReaderNext, Lfp;
    match step
    case OfWriter(ws) => WriterLfp(c, s, ws, s');
    case OfWarmer(ws) => WarmerLfp(c, s, ws, s');
    case JoinReader(_, _, _) => LfpUnmoved(c, s, s');
    case OfReader(_, _, _) => LfpUnmoved(c, s, s');
  }

  lemma InitLfp(c: Config, s: State)
    requires Init(c, s)
    ensures LfpOK(c, s)
  {
    hide LE, FromLE, Val;
    forall p | c.page0 <= p <= c.top0
      ensures Lfp(c, [], p) == 64
    {
      assert CleanPage(c.P, c.base, p);
      EmptyImage(c.base, p, 16, 8);
    }
  }

  lemma {:induction false} ReachableLfp(c: Config, states: seq<State>, steps: seq<Step>, i: nat)
    requires Run(c, states, steps) && i < |states|
    ensures LfpOK(c, states[i])
  {
    hide Inv, Next, Init, LfpOK;
    if i == 0 {
      InitLfp(c, states[0]);
    } else {
      ReachableLfp(c, states, steps, i - 1);
      Reachable(c, states, steps, i - 1);
      NextLfp(c, states[i - 1], steps[i - 1], states[i]);
    }
  }
}
