/** What can always be done next: a writer between writes can publish any valid request, rotating if it has to,
    and a reader that is run on alone gets to the end of what was published. */
module Progress {
  import opened Layout
  import opened Memory
  import opened Protocol
  import opened ProtocolSafety
  import opened ProtocolProofs
  import opened ProtocolTheorems

  // ---------- Extending a run ----------

  ghost predicate Longer(c: Config, states: seq<State>, steps: seq<Step>, states': seq<State>, steps': seq<Step>) {
    0 < |states| <= |states'| && Run(c, states', steps') && states <= states' && steps <= steps'
  }

  function Last(states: seq<State>): State
    requires |states| > 0
  {
    states[|states| - 1]
  }

  lemma Extend(c: Config, states: seq<State>, steps: seq<Step>, step: Step, s': State)
    requires |states| > 0 && Run(c, states, steps) && Next(c, Last(states), step, s')
    ensures Longer(c, states, steps, states + [s'], steps + [step])
    ensures Last(states + [s']) == s'
  {
    hide Next, Init;
    var states', steps' := states + [s'], steps + [step];
    forall i | 0 <= i < |steps'|
      ensures Next(c, states'[i], steps'[i], states'[i + 1])
    {
      if i < |steps| {
        assert states'[i] == states[i] && states'[i + 1] == states[i + 1] && steps'[i] == steps[i];
      }
    }
  }

  lemma LastInv(c: Config, states: seq<State>, steps: seq<Step>)
    requires |states| > 0 && Run(c, states, steps)
    ensures Inv(c, Last(states))
  {
    hide Inv, Run;
    Reachable(c, states, steps, |states| - 1);
  }

  // ---------- The writer's stores, one after the other ----------

  ghost function FilledOnce(s: State): State
    requires s.w.phase.Filling? && s.w.phase.k < 7
  {
    var req, k := s.w.phase.req, s.w.phase.k;
    Stored(s, Plain(s.w.page, s.w.cursor, OpenStores(req.timestamp, req.msgType, req.flags, s.w.sequence - 1)[k]),
           Filling(req, k + 1))
  }

  lemma FillStep(c: Config, s: State)
    requires s.w.phase.Filling? && s.w.phase.k < 7
    ensures Next(c, s, OfWriter(FillStore), FilledOnce(s))
    ensures FilledOnce(s).w == s.w.(view := FilledOnce(s).w.view, phase := Filling(s.w.phase.req, s.w.phase.k + 1))
    ensures FilledOnce(s).pub == s.pub && FilledOnce(s).top == s.top && FilledOnce(s).ready == s.ready
  {
  }

  lemma {:induction false} FillHeader(c: Config, states: seq<State>, steps: seq<Step>)
    returns (states': seq<State>, steps': seq<Step>)
    requires |states| > 0 && Run(c, states, steps)
    requires var s := Last(states); s.w.phase.Filling? && s.w.phase.k <= 7
    ensures Longer(c, states, steps, states', steps')
    ensures var s, s' := Last(states), Last(states');
            && s'.w == s.w.(phase := Filling(s.w.phase.req, 7), view := s'.w.view)
            && s'.pub == s.pub && s'.top == s.top && s'.ready == s.ready
    decreases 7 - Last(states).w.phase.k
  {
    hide Run, Next, FilledOnce;
    var s := Last(states);
    if s.w.phase.k == 7 {
      states', steps' := states, steps;
    } else {
      var t := FilledOnce(s);
      FillStep(c, s);
      Extend(c, states, steps, OfWriter(FillStore), t);
      states', steps' := FillHeader(c, states + [t], steps + [OfWriter(FillStore)]);
    }
  }

  ghost function EndedOnce(s: State): State
    requires s.w.phase.Ending? && s.w.phase.k < 6
  {
    var k := s.w.phase.k;
    Stored(s, Plain(s.w.page, s.w.cursor, PageEndStores(s.w.phase.now, s.w.sequence - 1)[k]),
           Ending(s.w.phase.req, s.w.phase.now, k + 1))
  }

  lemma EndStep(c: Config, s: State)
    requires s.w.phase.Ending? && s.w.phase.k < 6
    ensures Next(c, s, OfWriter(PageEndStore), EndedOnce(s))
    ensures EndedOnce(s).w == s.w.(view := EndedOnce(s).w.view,
                                   phase := Ending(s.w.phase.req, s.w.phase.now, s.w.phase.k + 1))
    ensures EndedOnce(s).pub == s.pub && EndedOnce(s).top == s.top && EndedOnce(s).ready == s.ready
  {
  }

  lemma {:induction false} EndHeader(c: Config, states: seq<State>, steps: seq<Step>)
    returns (states': seq<State>, steps': seq<Step>)
    requires |states| > 0 && Run(c, states, steps)
    requires var s := Last(states); s.w.phase.Ending? && s.w.phase.k <= 6
    ensures Longer(c, states, steps, states', steps')
    ensures var s, s' := Last(states), Last(states');
            && s'.w == s.w.(phase := Ending(s.w.phase.req, s.w.phase.now, 6), view := s'.w.view)
            && s'.pub == s.pub && s'.top == s.top && s'.ready == s.ready
    decreases 6 - Last(states).w.phase.k
  {
    hide Run, Next, EndedOnce;
    var s := Last(states);
    if s.w.phase.k == 6 {
      states', steps' := states, steps;
    } else {
      var t := EndedOnce(s);
      EndStep(c, s);
      Extend(c, states, steps, OfWriter(PageEndStore), t);
      states', steps' := EndHeader(c, states + [t], steps + [OfWriter(PageEndStore)]);
    }
  }

  ghost function HeadedOnce(c: Config, s: State): State
    requires s.w.phase.Heading? && s.w.phase.k < 6
  {
    var k := s.w.phase.k;
    Stored(s, Plain(s.w.page + 1, 0, PageHeaderStores(c.P)[k]), Heading(s.w.phase.req, k + 1))
    .(hdr := if k == 5 then s.hdr[s.w.page + 1 := |s.log|] else s.hdr)
  }

  lemma HeadStep(c: Config, s: State)
    requires s.w.phase.Heading? && s.w.phase.k < 6
    ensures Next(c, s, OfWriter(HeaderStore), HeadedOnce(c, s))
    ensures var t := HeadedOnce(c, s);
            && t.w == s.w.(view := t.w.view, phase := Heading(s.w.phase.req, s.w.phase.k + 1))
            && t.pub == s.pub && t.top == s.top
  {
  }

  lemma {:induction false} MakeHeader(c: Config, states: seq<State>, steps: seq<Step>)
    returns (states': seq<State>, steps': seq<Step>)
    requires |states| > 0 && Run(c, states, steps)
    requires var s := Last(states); s.w.phase.Heading? && s.w.phase.k <= 6
    ensures Longer(c, states, steps, states', steps')
    ensures var s, s' := Last(states), Last(states');
            && s'.w == s.w.(phase := Heading(s.w.phase.req, 6), view := s'.w.view)
            && s'.pub == s.pub && s'.top == s.top
    decreases 6 - Last(states).w.phase.k
  {
    hide Run, Next, HeadedOnce;
    var s := Last(states);
    if s.w.phase.k == 6 {
      states', steps' := states, steps;
    } else {
      var t := HeadedOnce(c, s);
      HeadStep(c, s);
      Extend(c, states, steps, OfWriter(HeaderStore), t);
      states', steps' := MakeHeader(c, states + [t], steps + [OfWriter(HeaderStore)]);
    }
  }

  ghost function WarmedOnce(c: Config, s: State): State
    requires s.warmer.Warming? && s.warmer.k < 6
  {
    var p, k := s.warmer.page, s.warmer.k;
    s.(log := s.log + [Plain(p, 0, WarmStores(c.P)[k])], warmer := Warming(p, k + 1),
       hdr := if k == 4 then s.hdr[p := |s.log|] else s.hdr)
  }

  lemma WarmStep(c: Config, s: State)
    requires s.warmer.Warming? && s.warmer.k < 6
    ensures Next(c, s, OfWarmer(WarmStore), WarmedOnce(c, s))
  {
  }

  lemma WarmEnds(c: Config, s: State)
    requires s.warmer.Warming? && s.warmer.k == 6
    ensures Next(c, s, OfWarmer(WarmDone), s.(warmer := Resting, ready := s.ready + {s.warmer.page}))
  {
  }

  // The page warmer comes to rest.
  lemma {:induction false} FinishWarming(c: Config, states: seq<State>, steps: seq<Step>)
    returns (states': seq<State>, steps': seq<Step>)
    requires |states| > 0 && Run(c, states, steps)
    requires var s := Last(states); s.warmer.Warming? ==> s.warmer.k <= 6
    ensures Longer(c, states, steps, states', steps')
    ensures var s, s' := Last(states), Last(states');
            s'.warmer == Resting && s'.w == s.w && s'.pub == s.pub && s'.top == s.top && s.ready <= s'.ready
    decreases if Last(states).warmer.Warming? then 7 - Last(states).warmer.k else 0
  {
    hide Run, Next;
    var s := Last(states);
    if s.warmer == Resting {
      states', steps' := states, steps;
    } else if s.warmer.k == 6 {
      var t := s.(warmer := Resting, ready := s.ready + {s.warmer.page});
      WarmEnds(c, s);
      Extend(c, states, steps, OfWarmer(WarmDone), t);
      states', steps' := states + [t], steps + [OfWarmer(WarmDone)];
    } else {
      var t := WarmedOnce(c, s);
      WarmStep(c, s);
      Extend(c, states, steps, OfWarmer(WarmStore), t);
      states', steps' := FinishWarming(c, states + [t], steps + [OfWarmer(WarmStore)]);
    }
  }

  // ---------- Any request ----------

  // What rotatePage does to find the next page: it is warmed already, it exists, or it is made.
  lemma NextPageFound(c: Config, states: seq<State>, steps: seq<Step>)
    returns (states': seq<State>, steps': seq<Step>)
    requires |states| > 0 && Run(c, states, steps) && Last(states).w.phase.Loading?
    ensures Longer(c, states, steps, states', steps')
    ensures var s, s' := Last(states), Last(states');
            && s'.w == s.w.(phase := Ending(s.w.phase.req, 0, 0), sequence := s.w.sequence + 1, view := s'.w.view)
            && s'.pub == s.pub && s'.top == (if s.w.page < s.top then s.top else s.w.page + 1)
            && (s.w.page + 1 in s.ready ==> s.w.page + 1 !in s'.ready)
  {
    hide Run, Inv;
    LastInv(c, states, steps);
    WarmerBounded(c, Last(states));
    PageListed(c, Last(states));
    var states1, steps1 := FinishWarming(c, states, steps);
    LastInv(c, states1, steps1);
    var s := Last(states1);
    PageListed(c, s);
    var found := BeginPageEnd(s, s.w.phase.req, 0, s.w.view + PageEvents(s.log, s.w.page + 1));
    if s.w.page + 1 in s.ready {
      var t := s.(ready := s.ready - {s.w.page + 1}, w := found);
      Extend(c, states1, steps1, OfWriter(ClaimWarmed(0)), t);
      states', steps' := states1 + [t], steps1 + [OfWriter(ClaimWarmed(0))];
    } else if s.w.page + 1 <= s.top {
      var t := s.(w := found);
      Extend(c, states1, steps1, OfWriter(LoadExisting(0)), t);
      states', steps' := states1 + [t], steps1 + [OfWriter(LoadExisting(0))];
    } else {
      states', steps' := NextPageMade(c, states1, steps1);
    }
  }

  lemma WarmerBounded(c: Config, s: State)
    requires Inv(c, s)
    ensures s.warmer.Warming? ==> s.warmer.k <= 6
  {
  }

  lemma PageListed(c: Config, s: State)
    requires Inv(c, s)
    ensures s.w.page <= s.top && (s.w.page + 1 in s.ready ==> s.w.page < s.top)
  {
  }

  lemma NextPageMade(c: Config, states: seq<State>, steps: seq<Step>)
    returns (states': seq<State>, steps': seq<Step>)
    requires |states| > 0 && Run(c, states, steps)
    requires Last(states).w.phase.Loading? && Last(states).w.page == Last(states).top
    ensures Longer(c, states, steps, states', steps')
    ensures var s, s' := Last(states), Last(states');
            && s'.w == s.w.(phase := Ending(s.w.phase.req, 0, 0), sequence := s.w.sequence + 1, view := s'.w.view)
            && s'.pub == s.pub && s'.top == s.top + 1
  {
    hide Run;
    var s := Last(states);
    var t := s.(top := s.top + 1, w := s.w.(phase := Heading(s.w.phase.req, 0)));
    Extend(c, states, steps, OfWriter(LoadNew), t);
    var states1, steps1 := MakeHeader(c, states + [t], steps + [OfWriter(LoadNew)]);
    var s1 := Last(states1);
    var t1 := s1.(w := BeginPageEnd(s1, s1.w.phase.req, 0, s1.w.view));
    Extend(c, states1, steps1, OfWriter(HeaderDone(0)), t1);
    states', steps' := states1 + [t1], steps1 + [OfWriter(HeaderDone(0))];
  }

  ghost function EndReleased(c: Config, s: State): State
    requires s.w.phase.Ending?
  {
    Released(c, s, FRAME_HEADER_SIZE, End(s.w.phase.now), Ended(s.w.phase.req))
  }

  lemma EndReleaseStep(c: Config, s: State)
    requires s.w.phase.Ending? && s.w.phase.k == 6
    ensures Next(c, s, OfWriter(ReleasePageEnd), EndReleased(c, s))
    ensures var t := EndReleased(c, s);
            && t.w == s.w.(phase := Ended(s.w.phase.req), view := t.w.view) && t.top == s.top && t.ready == s.ready
            && |t.pub| == |s.pub| + 1 && s.pub <= t.pub && t.pub[|s.pub|].kind.End?
            && t.pub[|s.pub|].page == s.w.page && t.pub[|s.pub|].off == s.w.cursor
  {
    hide LE, Image;
  }

  ghost function Switched(s: State): State
    requires s.w.phase.Ended?
  {
    var t := Stored(s, Plain(s.w.page, 16, Store(0, LE(s.w.cursor, 8))), Filling(s.w.phase.req, 0));
    t.(w := t.w.(page := s.w.page + 1, cursor := 64, sequence := s.w.sequence + 1))
  }

  lemma SwitchStep(c: Config, s: State)
    requires s.w.phase.Ended?
    ensures Next(c, s, OfWriter(SwitchPage), Switched(s)) && Switched(s).pub == s.pub
    ensures Switched(s).top == s.top && Switched(s).ready == s.ready
    ensures var w := Switched(s).w; w.phase == Filling(s.w.phase.req, 0) && w.page == s.w.page + 1 && w.cursor == 64
  {
    hide LE;
  }

  // The rest of rotatePage: PageEnd is published and the writer moves over.
  lemma PageEnded(c: Config, states: seq<State>, steps: seq<Step>)
    returns (states': seq<State>, steps': seq<Step>)
    requires |states| > 0 && Run(c, states, steps)
    requires Last(states).w.phase.Ending? && Last(states).w.phase.k == 0
    ensures Longer(c, states, steps, states', steps')
    ensures var s, s' := Last(states), Last(states');
            && s'.w.phase == Filling(s.w.phase.req, 0) && s'.w.page == s.w.page + 1 && s'.w.cursor == 64
            && s'.top == s.top && s'.ready == s.ready
            && |s'.pub| == |s.pub| + 1 && s.pub <= s'.pub && s'.pub[|s.pub|].kind.End?
            && s'.pub[|s.pub|].page == s.w.page && s'.pub[|s.pub|].off == s.w.cursor
  {
    hide Run, Next, EndReleased, Switched;
    var states1, steps1 := EndHeader(c, states, steps);
    var s := Last(states1);
    EndReleaseStep(c, s);
    var t := EndReleased(c, s);
    Extend(c, states1, steps1, OfWriter(ReleasePageEnd), t);
    SwitchStep(c, t);
    Extend(c, states1 + [t], steps1 + [OfWriter(ReleasePageEnd)], OfWriter(SwitchPage), Switched(t));
    states' := states1 + [t] + [Switched(t)];
    steps' := steps1 + [OfWriter(ReleasePageEnd)] + [OfWriter(SwitchPage)];
  }

  // The caller stores the whole payload at once.
  ghost function PayloadStored(s: State, payload: Bytes): State
    requires s.w.phase.Filling?
  {
    var req := s.w.phase.req;
    Stored(s.(w := s.w.(phase := Open(req))), Plain(s.w.page, s.w.cursor, Store(32, payload)), Open(req))
  }

  lemma PayloadStoreStep(c: Config, s: State, payload: Bytes)
    requires s.w.phase.Filling? && s.w.phase.k == 7 && |payload| == s.w.phase.req.size
    ensures var t := s.(w := s.w.(phase := Open(s.w.phase.req)));
            && Next(c, s, OfWriter(FillDone), t)
            && Next(c, t, OfWriter(CallerStore(Store(32, payload))), PayloadStored(s, payload))
    ensures var t := PayloadStored(s, payload);
            && t.w == s.w.(phase := Open(s.w.phase.req), view := t.w.view) && t.top == s.top && t.pub == s.pub
            && t.ready == s.ready
            && t.log == s.log + [Plain(s.w.page, s.w.cursor, Store(32, payload))]
  {
  }

  ghost function FrameReleased(c: Config, s: State): State
    requires s.w.phase.Open?
  {
    var req := s.w.phase.req;
    Released(c, s, FRAME_HEADER_SIZE + req.size, Data(req), Closed(req))
  }

  lemma FrameReleaseStep(c: Config, s: State)
    requires s.w.phase.Open?
    ensures Next(c, s, OfWriter(ReleaseFrame), FrameReleased(c, s))
    ensures var req, t := s.w.phase.req, FrameReleased(c, s);
            && t.w == s.w.(phase := Closed(req), view := t.w.view) && t.top == s.top && t.ready == s.ready
            && |t.pub| == |s.pub| + 1 && s.pub <= t.pub && t.pub[|s.pub|].kind == Data(req)
            && t.pub[|s.pub|].page == s.w.page && t.pub[|s.pub|].off == s.w.cursor
            && t.pub[|s.pub|].bytes == Image(c.base, t.log, s.w.page, s.w.cursor, FRAME_HEADER_SIZE + req.size)
            && t.log == s.log + [Event(s.w.page, s.w.cursor, LE(FRAME_HEADER_SIZE + req.size, 4), t.w.view)]
  {
    hide LE, Image;
  }

  ghost function FrameClosed(s: State): State
    requires s.w.phase.Closed?
  {
    var t := Stored(s, Plain(s.w.page, 16, Store(0, LE(s.w.cursor, 8))), Idle);
    t.(w := t.w.(cursor := s.w.cursor + Stride(s.w.phase.req.size)))
  }

  lemma FrameCloseStep(c: Config, s: State)
    requires s.w.phase.Closed?
    ensures var t := FrameClosed(s);
            && Next(c, s, OfWriter(CloseFrame), t) && t.pub == s.pub && t.top == s.top && t.ready == s.ready
            && t.w.phase == Idle && t.w.page == s.w.page && t.w.cursor == s.w.cursor + Stride(s.w.phase.req.size)
  {
    hide LE;
  }

  // The header is filled, the payload stored, the length released and the frame closed.
  lemma FramePublished(c: Config, states: seq<State>, steps: seq<Step>, payload: Bytes)
    returns (states': seq<State>, steps': seq<Step>)
    requires |states| > 0 && Run(c, states, steps)
    requires var s := Last(states); s.w.phase.Filling? && s.w.phase.k == 0 && |payload| == s.w.phase.req.size
    ensures Longer(c, states, steps, states', steps')
    ensures var s, s' := Last(states), Last(states');
            var req := s.w.phase.req;
            && s'.w.phase == Idle && s'.w.page == s.w.page && s'.w.cursor == s.w.cursor + Stride(req.size)
            && s'.top == s.top && s'.ready == s.ready && |s'.pub| == |s.pub| + 1
            && s.pub <= s'.pub && s'.pub[|s.pub|].kind == Data(req)
            && s'.pub[|s.pub|].page == s.w.page && s'.pub[|s.pub|].off == s.w.cursor
            && |s'.pub[|s.pub|].bytes| == 32 + |payload|
            && s'.pub[|s.pub|].bytes[16..24] == LE(req.timestamp, 8) && s'.pub[|s.pub|].bytes[32..] == payload
  {
    hide Run, Next, LE, Image, PayloadStored, FrameReleased, FrameClosed, Stride;
    var states1, steps1 := FillHeader(c, states, steps);
    var s := Last(states1);
    LastInv(c, states1, steps1);
    var t, u := s.(w := s.w.(phase := Open(s.w.phase.req))), PayloadStored(s, payload);
    PayloadStoreStep(c, s, payload);
    Extend(c, states1, steps1, OfWriter(FillDone), t);
    Extend(c, states1 + [t], steps1 + [OfWriter(FillDone)], OfWriter(CallerStore(Store(32, payload))), u);
    var states2 := states1 + [t] + [u];
    var steps2 := steps1 + [OfWriter(FillDone)] + [OfWriter(CallerStore(Store(32, payload)))];
    var v := FrameReleased(c, u);
    FrameReleaseStep(c, u);
    Extend(c, states2, steps2, OfWriter(ReleaseFrame), v);
    ReleasedContents(c, s, payload, v.w.view);
    FrameCloseStep(c, v);
    Extend(c, states2 + [v], steps2 + [OfWriter(ReleaseFrame)], OfWriter(CloseFrame), FrameClosed(v));
    states' := states2 + [v] + [FrameClosed(v)];
    steps' := steps2 + [OfWriter(ReleaseFrame)] + [OfWriter(CloseFrame)];
  }

  lemma ReleasedContents(c: Config, s: State, payload: Bytes, view: set<nat>)
    requires SlotOK(c, s) && s.w.phase.Filling? && s.w.phase.k == 7
    ensures var p, at, size := s.w.page, s.w.cursor, |payload|;
            var d, e := Plain(p, at, Store(32, payload)), Event(p, at, LE(FRAME_HEADER_SIZE + size, 4), view);
            var log := s.log + [d] + [e];
            var bytes := Image(c.base, log, p, at, FRAME_HEADER_SIZE + size);
            bytes[16..24] == LE(s.w.phase.req.timestamp, 8) && bytes[32..] == payload
  {
    hide LE, Val, PutAll, Image;
    var req, p, at, size := s.w.phase.req, s.w.page, s.w.cursor, |payload|;
    var d, e := Plain(p, at, Store(32, payload)), Event(p, at, LE(FRAME_HEADER_SIZE + size, 4), view);
    var log := s.log + [d] + [e];
    var bytes := Image(c.base, log, p, at, FRAME_HEADER_SIZE + size);
    StampedTime(c, s);
    ImageSlice(c.base, log, p, at, FRAME_HEADER_SIZE + size, 16, 24);
    ImageAvoids(c.base, s.log, d, p, at + 16, 8);
    ImageAvoids(c.base, s.log + [d], e, p, at + 16, 8);
    ImageSlice(c.base, log, p, at, FRAME_HEADER_SIZE + size, 32, FRAME_HEADER_SIZE + size);
    ImageAvoids(c.base, s.log + [d], e, p, at + 32, size);
    ImagePut(c.base, s.log, d, p, at + 32, size);
    assert Put(Image(c.base, s.log, p, at + 32, size), Store(0, payload)) == payload;
  }

  lemma StampedTime(c: Config, s: State)
    requires SlotOK(c, s) && s.w.phase.Filling? && s.w.phase.k == 7
    ensures Image(c.base, s.log, s.w.page, s.w.cursor + 16, 8) == LE(s.w.phase.req.timestamp, 8)
  {
    hide LE, Val, PutAll, Image;
    var req := s.w.phase.req;
    var stores := OpenStores(req.timestamp, req.msgType, req.flags, s.w.sequence - 1);
    assert stores[..7] == stores;
    OpenStoresResult(Zeros(32), req.timestamp, req.msgType, req.flags, s.w.sequence - 1);
    HeaderFields(0, req.msgType, req.flags, s.w.sequence - 1, req.timestamp, 0);
    ImageSlice(c.base, s.log, s.w.page, s.w.cursor, 32, 16, 24);
  }

  /** A writer between writes can publish any valid request with any payload. If the frame does not fit the page,
      PageEnd is published first and the frame becomes the first of the next page: the warmed one if it is ready,
      the existing one, or a new one. */
  lemma WriterCanPublish(c: Config, states: seq<State>, steps: seq<Step>, req: Request, payload: Bytes)
    returns (states': seq<State>, steps': seq<Step>)
    requires |states| > 0 && Run(c, states, steps) && ValidRequest(c.P, req) && Last(states).w.phase == Idle
    requires |payload| == req.size
    ensures Longer(c, states, steps, states', steps')
    ensures var s, s' := Last(states), Last(states');
            var m, n := |s.pub|, |s'.pub|;
            && s'.w.phase == Idle && m < n && s.pub <= s'.pub && s'.pub[n - 1].kind == Data(req)
            && s'.pub[n - 1].page == s'.w.page && s'.pub[n - 1].off + Stride(req.size) == s'.w.cursor
            && |s'.pub[n - 1].bytes| == 32 + req.size && s'.pub[n - 1].bytes[32..] == payload
            && s'.pub[n - 1].bytes[16..24] == LE(req.timestamp, 8)
            && (if s.w.cursor + Stride(req.size) <= c.P - 64 then
                  n == m + 1 && s'.w.page == s.w.page && s'.pub[m].off == s.w.cursor && s'.top == s.top
                else
                  && n == m + 2 && s'.w.page == s.w.page + 1 && s'.pub[m + 1].off == 64
                  && s'.pub[m].kind.End? && s'.pub[m].page == s.w.page && s'.pub[m].off == s.w.cursor
                  && s'.top == (if s.w.page < s.top then s.top else s.w.page + 1)
                  && (s.w.page + 1 in s.ready ==> s.w.page + 1 !in s'.ready))
  {
    hide Run, LE;
    var s := Last(states);
    var begun := OfWriter(BeginWrite(req));
    if s.w.cursor + Stride(req.size) <= c.P - 64 {
      var t := s.(w := s.w.(sequence := s.w.sequence + 1, phase := Filling(req, 0)));
      Extend(c, states, steps, begun, t);
      states', steps' := FramePublished(c, states + [t], steps + [begun], payload);
    } else {
      var t := s.(w := s.w.(phase := Loading(req)));
      Extend(c, states, steps, begun, t);
      var states1, steps1 := NextPageFound(c, states + [t], steps + [begun]);
      var states2, steps2 := PageEnded(c, states1, steps1);
      states', steps' := FramePublished(c, states2, steps2, payload);
    }
  }

  // ---------- A reader on its own ----------

  // Only the reader differs.
  ghost predicate OnlyReader(s: State, s': State, id: nat) {
    id in s.readers && id in s'.readers && s' == s.(readers := s.readers[id := s'.readers[id]])
  }

  ghost function WithReader(s: State, id: nat, r: Reader): State {
    s.(readers := s.readers[id := r])
  }

  function Behind(r: ReaderPhase): nat {
    match r
    case Turning => 4
    case Loaded(len) => if len == 0 then 3 else 1
    case Polling => 2
    case _ => 0
  }

  function Unread(r: ReaderPhase): nat {
    if r.Holding? && |r.got| < r.len then r.len - |r.got| else 0
  }

  lemma LatestRead(c: Config, s: State, view: set<nat>, p: nat, a: nat, n: nat)
    ensures ReadsBytes(c, s, view, p, a, Image(c.base, s.log, p, a, n))
  {
    hide Val;
  }

  // The newest store of the last-frame position can be loaded.
  lemma {:induction false} LfpLoadable(c: Config, log: Log, p: nat, g: int, view: set<nat>)
    returns (src: int, word: Bytes)
    requires HeaderOK(c, log, p, g)
    ensures WordLoad(c.base, log, view, p, 16, 8, src, word)
    decreases |log|
  {
    hide LE, FromLE, Val;
    if log == [] {
      src, word := -1, c.base[p][16..24];
    } else {
      var n := |log| - 1;
      var e := log[n];
      if e.page == p && e.off < 64 {
        assert LfpStore(c.P, e);
        src, word := n, e.bytes;
      } else {
        ImageAvoids(c.base, log[..n], e, p, 0, 12);
        assert log == log[..n] + [e];
        assert HeaderOK(c, log[..n], p, g);
        src, word := LfpLoadable(c, log[..n], p, g, view);
      }
    }
  }

  // A step of the reader that brings it closer to the end.
  ghost predicate Nearer(c: Config, s: State, rs: ReaderStep, r: Reader, r': Reader) {
    && ReaderNext(c, s, rs, r, r') && r'.from == r.from && Due(r) <= Due(r')
    && (Due(r') == Due(r) ==>
          || Behind(r'.phase) < Behind(r.phase)
          || (Behind(r'.phase) == Behind(r.phase) && Unread(r'.phase) < Unread(r.phase)))
  }

  lemma PollStep(c: Config, s: State, r: Reader) returns (rs: ReaderStep, r': Reader)
    requires Inv(c, s) && ReaderOK(c, s.log, s.pub, r) && r.phase == Polling && Due(r) < |s.pub|
    ensures Nearer(c, s, rs, r, r')
  {
    hide ValidConfig, WriterOK, WarmerOK, SlotOK, LogOK, FrontierOK, HeadersOK, MakingOK, RotationOK, ViewOK, Image,
      LE, FromLE, PubOK;
    var n := Due(r);
    assert FrameSafe(c.base, s.log, s.pub[n]);
    ChainAt(c, s.pub, n);
    LoadableLength(c, s, n, r.view);
    var p := s.pub[n];
    rs := LoadLength(p.idx, LE(|p.bytes|, 4));
    r' := r.(view := r.view + s.log[p.idx].rel, phase := Loaded(|p.bytes|));
  }

  lemma TypeStep(c: Config, s: State, r: Reader) returns (rs: ReaderStep, r': Reader)
    requires Inv(c, s) && ReaderOK(c, s.log, s.pub, r) && r.phase.Loaded?
    ensures Nearer(c, s, rs, r, r')
  {
    hide ValidConfig, WriterOK, WarmerOK, SlotOK, LogOK, FrontierOK, HeadersOK, MakingOK, RotationOK, ViewOK, Image,
      LE, FromLE, PubOK, FrameSafe, ReadsBytes;
    var half := Image(c.base, s.log, r.page, r.off + 4, 2);
    LatestRead(c, s, r.view, r.page, r.off + 4, 2);
    rs := LoadType(half);
    if r.phase.len > 0 {
      var n := Due(r);
      ChainAt(c, s.pub, n);
      FrameKind(c, s.pub, n);
      FrameType(c, s, n, r.view, half);
      r' := r.(phase := Holding(r.phase.len, FromLE(half), []));
    } else {
      r' := r.(phase := Polling);
    }
  }

  lemma HoldStep(c: Config, s: State, r: Reader) returns (rs: ReaderStep, r': Reader)
    requires Inv(c, s) && ReaderOK(c, s.log, s.pub, r) && r.phase.Holding?
    ensures Nearer(c, s, rs, r, r')
  {
    hide ValidConfig, WriterOK, WarmerOK, SlotOK, LogOK, FrontierOK, HeadersOK, MakingOK, RotationOK, ViewOK, Image,
      LE, FromLE, PubOK, SafeOK, ChainOK, Val;
    if |r.phase.got| < r.phase.len {
      var b := Val(c.base, s.log, r.page, r.off + |r.phase.got|);
      rs := ReadByte(b);
      r' := r.(phase := r.phase.(got := r.phase.got + [b]));
    } else {
      rs := Advance;
      r' := Moved(r, r.view, r.phase.len, r.phase.msgType, r.phase.got);
    }
  }

  lemma TurnStep(c: Config, s: State, r: Reader) returns (rs: ReaderStep, r': Reader)
    requires Inv(c, s) && ReaderOK(c, s.log, s.pub, r) && r.phase == Turning
    ensures Nearer(c, s, rs, r, r')
  {
    hide ValidConfig, WriterOK, WarmerOK, SlotOK, LogOK, FrontierOK, MakingOK, ViewOK, Image, LE, FromLE, PubOK,
      ChainOK, SafeOK, HeaderOK, ReadsBytes, WordLoad, ReadersOK;
    var p := r.page + 1;
    var prefix := Image(c.base, s.log, p, 0, 12);
    LatestRead(c, s, r.view, p, 0, 12);
    var src, lfp := LfpLoadable(c, s.log, p, s.hdr[p], r.view);
    rs := TurnPage(prefix, src, lfp);
    r' := if FromLE(lfp) == 0 || prefix != HeaderPrefix(c.P) || FromLE(lfp) >= c.P then r.(phase := Fault)
          else r.(page := p, off := 64, phase := Polling);
    TurnPageKeeps(c, s, prefix, src, lfp, r, r');
  }

  lemma ReaderStepNear(c: Config, s: State, r: Reader) returns (rs: ReaderStep, r': Reader)
    requires Inv(c, s) && ReaderOK(c, s.log, s.pub, r) && !(r.phase == Polling && Due(r) == |s.pub|)
    ensures Nearer(c, s, rs, r, r')
  {
    hide Inv, Nearer;
    match r.phase
    case Polling =>
      WantsMore(c, s, r);
      rs, r' := PollStep(c, s, r);
    case Loaded(_) => rs, r' := TypeStep(c, s, r);
    case Holding(_, _, _) => rs, r' := HoldStep(c, s, r);
    case Turning => rs, r' := TurnStep(c, s, r);
  }

  lemma WantsMore(c: Config, s: State, r: Reader)
    requires ReaderOK(c, s.log, s.pub, r)
    ensures Due(r) <= |s.pub|
  {
  }

  /** A reader that is run on alone, from whatever it was doing, gets to the end of what was published, over all
      page turns, and has then consumed exactly the frames from the one it joined at. */
  lemma {:induction false} ReaderCatchesUp(c: Config, states: seq<State>, steps: seq<Step>, id: nat)
    returns (states': seq<State>, steps': seq<Step>)
    requires |states| > 0 && Run(c, states, steps) && id in Last(states).readers
    ensures Longer(c, states, steps, states', steps')
    ensures forall i :: |steps| <= i < |steps'| ==> steps'[i].OfReader? && steps'[i].id == id
    ensures var s, s' := Last(states), Last(states');
            && OnlyReader(s, s', id) && s'.readers[id].phase == Polling
            && s'.readers[id].from == s.readers[id].from <= |s.pub|
            && s'.readers[id].consumed == Frames(s)[s.readers[id].from..]
    decreases |Last(states).pub| - Due(Last(states).readers[id]), Behind(Last(states).readers[id].phase),
      Unread(Last(states).readers[id].phase)
  {
    hide Run, Inv, ReaderNext, Behind, Unread;
    var s := Last(states);
    var r := s.readers[id];
    LastInv(c, states, steps);
    ReaderIn(c, s, id);
    if r.phase == Polling && Due(r) == |s.pub| {
      states', steps' := states, steps;
      assert r.consumed == Frames(s)[r.from..];
    } else {
      var rs, r' := ReaderStepNear(c, s, r);
      var t := WithReader(s, id, r');
      Extend(c, states, steps, OfReader(id, rs, r'), t);
      LastInv(c, states + [t], steps + [OfReader(id, rs, r')]);
      ReaderIn(c, t, id);
      states', steps' := ReaderCatchesUp(c, states + [t], steps + [OfReader(id, rs, r')], id);
    }
  }

  /** A reader that joins late, at any published frame and with whatever it has seen, can be run on until it has
      consumed exactly the frames from there on. */
  lemma LateReaderCatchesUp(c: Config, states: seq<State>, steps: seq<Step>, id: nat, n: nat, view: set<nat>)
    returns (states': seq<State>, steps': seq<Step>)
    requires |states| > 0 && Run(c, states, steps) && id !in Last(states).readers && n <= |Last(states).pub|
    ensures Longer(c, states, steps, states', steps') && id in Last(states').readers
    ensures Last(states').pub == Last(states).pub && Last(states').w == Last(states).w
    ensures Last(states').readers[id].consumed == Frames(Last(states))[n..]
  {
    hide Run, Inv, Pos;
    var s := Last(states);
    var (page, off) := Pos(c, s.pub, n);
    var t := s.(readers := s.readers[id := Reader(n, page, off, view, [], Polling)]);
    Extend(c, states, steps, JoinReader(id, n, view), t);
    states', steps' := ReaderCatchesUp(c, states + [t], steps + [JoinReader(id, n, view)], id);
  }

  /** Moving on with a second load of the length leads where the saved length and type lead. */
  lemma NextReloads(c: Config, s: State, r: Reader) returns (rs: ReaderStep, r': Reader)
    requires Inv(c, s) && ReaderOK(c, s.log, s.pub, r) && r.phase.Holding? && |r.phase.got| == r.phase.len
    ensures rs.NextReloading? && ReaderNext(c, s, rs, r, r')
    ensures r' == Moved(r, r'.view, r.phase.len, r.phase.msgType, r.phase.got) && r.view <= r'.view
  {
    hide ValidConfig, WriterOK, WarmerOK, SlotOK, LogOK, FrontierOK, HeadersOK, MakingOK, RotationOK, ViewOK, Image,
      LE, FromLE, PubOK, ReadsBytes;
    var n := Due(r);
    var p := s.pub[n];
    assert FrameSafe(c.base, s.log, p);
    ChainAt(c, s.pub, n);
    LoadableLength(c, s, n, r.view);
    var view := Acquired(s.log, r.view, p.idx);
    var half := Image(c.base, s.log, r.page, r.off + 4, 2);
    LatestRead(c, s, view, r.page, r.off + 4, 2);
    FrameType(c, s, n, view, half);
    rs := NextReloading(p.idx, LE(|p.bytes|, 4), half);
    r' := Moved(r, view, r.phase.len, r.phase.msgType, r.phase.got);
  }

  /** The warmer can prepare the next page file whenever it rests: the file gets a complete header and is there for
      the writer to claim. */
  lemma PageGetsWarmed(c: Config, states: seq<State>, steps: seq<Step>)
    returns (states': seq<State>, steps': seq<Step>)
    requires |states| > 0 && Run(c, states, steps) && Last(states).warmer == Resting
    ensures Longer(c, states, steps, states', steps')
    ensures var s, s' := Last(states), Last(states');
            && s'.top == s.top + 1 && s'.warmer == Resting && s'.ready == s.ready + {s'.top} && s'.top in s'.hdr
            && s'.w == s.w && s'.pub == s.pub
  {
    hide Run, Inv, Next;
    var s := Last(states);
    var t := s.(top := s.top + 1, warmer := Warming(s.top + 1, 0));
    WarmBeginStep(c, s);
    Extend(c, states, steps, OfWarmer(WarmBegin), t);
    states', steps' := WarmingEnds(c, states + [t], steps + [OfWarmer(WarmBegin)]);
    LastInv(c, states', steps');
    HeaderMade(c, Last(states'));
  }

  lemma WarmBeginStep(c: Config, s: State)
    requires s.warmer == Resting
    ensures Next(c, s, OfWarmer(WarmBegin), s.(top := s.top + 1, warmer := Warming(s.top + 1, 0)))
  {
  }

  lemma HeaderMade(c: Config, s: State)
    requires Inv(c, s) && s.warmer == Resting && s.top in s.ready
    ensures s.top in s.hdr
  {
    hide LE, FromLE, HeaderOK, Image, ChainOK, SafeOK, ReadersOK, FrontierOK, RotationOK, MakingOK, LogOK;
  }

  lemma {:induction false} WarmingEnds(c: Config, states: seq<State>, steps: seq<Step>)
    returns (states': seq<State>, steps': seq<Step>)
    requires |states| > 0 && Run(c, states, steps)
    requires Last(states).warmer.Warming? && Last(states).warmer.k <= 6
    ensures Longer(c, states, steps, states', steps')
    ensures var s, s' := Last(states), Last(states');
            && s'.warmer == Resting && s'.ready == s.ready + {s.warmer.page}
            && s'.w == s.w && s'.pub == s.pub && s'.top == s.top
    decreases 7 - Last(states).warmer.k
  {
    hide Run, Next;
    var s := Last(states);
    if s.warmer.k == 6 {
      var t := s.(warmer := Resting, ready := s.ready + {s.warmer.page});
      WarmEnds(c, s);
      Extend(c, states, steps, OfWarmer(WarmDone), t);
      states', steps' := states + [t], steps + [OfWarmer(WarmDone)];
    } else {
      var t := WarmedOnce(c, s);
      WarmStep(c, s);
      Extend(c, states, steps, OfWarmer(WarmStore), t);
      states', steps' := WarmingEnds(c, states + [t], steps + [OfWarmer(WarmStore)]);
    }
  }
}
