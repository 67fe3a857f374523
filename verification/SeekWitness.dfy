/** A run after which every join at a time from the first frame on faults. */
module SeekWitness {
  import opened Layout
  import opened Memory
  import opened Protocol
  import opened ProtocolSafety
  import opened ProtocolProofs
  import opened ProtocolTheorems
  import opened Progress
  import opened Recovery
  import opened PageDecoding
  import opened ResumeTheorems
  import opened ResumeWitness
  import opened Seek
  import opened SeekTheorems

  /** One frame is published and the page warmer has just created the next page: the search finds that the first
      page begins by the time, looks at the second, and faults. Prefaulting does not help, because the search
      loads without it. */
  lemma JoinFaults(P: PageSize) returns (c: Config, states: seq<State>, steps: seq<Step>)
    ensures c == ResumeConfig(P, map[], 0) && |states| > 0 && Run(c, states, steps)
    ensures var s := Last(states);
            && |s.pub| == 1 && s.top == 2 && c.page0 == 1 && Listed(P, DiskOf(c, s), SessionPages(c, s))
            && forall time, prefault :: time >= 1 ==>
                 SeekOutcome(P, DiskOf(c, s), SessionPages(c, s), time, prefault) == Faulted
  {
    hide Run, Inv, Next, SeekOutcome, ProbesUnderWay, Listed, HeaderUnderWay, LE;
    var s0;
    c, s0 := FreshStart(P);
    var states1, steps1 := WriterCanPublish(c, [s0], [], Request(1, 1, 0, 0), []);
    LastInv(c, states1, steps1);
    WarmerBounded(c, Last(states1));
    var states2, steps2 := FinishWarming(c, states1, steps1);
    var s := Last(states2);
    var t := s.(top := s.top + 1, warmer := Warming(s.top + 1, 0));
    WarmBegins(c, s);
    Extend(c, states2, steps2, OfWarmer(WarmBegin), t);
    states, steps := states2 + [t], steps2 + [OfWarmer(WarmBegin)];
    LastInv(c, states, steps);
    forall time: int, prefault: bool | time >= 1
      ensures Listed(P, DiskOf(c, t), SessionPages(c, t))
      ensures SeekOutcome(P, DiskOf(c, t), SessionPages(c, t), time, prefault) == Faulted
    {
      SeekFaultsIff(c, states, steps, |states| - 1, time, prefault);
      SecondProbed(c, t, time);
    }
    SeekFaultsIff(c, states, steps, |states| - 1, 1, false);
  }

  lemma WarmBegins(c: Config, s: State)
    requires s.warmer == Resting
    ensures Next(c, s, OfWarmer(WarmBegin), s.(top := s.top + 1, warmer := Warming(s.top + 1, 0)))
  {
  }

  lemma FirstBegins(c: Config, s: State)
    requires Inv(c, s) && |s.pub| >= 1 && s.pub[0].page == 1 && s.pub[0].off == 64
    requires |s.pub[0].bytes| >= 32 && s.pub[0].bytes[16..24] == LE(1, 8)
    ensures BeginTime(c.P, Image(c.base, s.log, 1, 0, c.P)) == 1
  {
    hide LE, FromLE, Val, ValidConfig, WriterOK, LogOK, SlotOK, FrontierOK, HeadersOK, MakingOK, RotationOK, ViewOK,
      ReadersOK, WarmerOK, Image;
    var img := Image(c.base, s.log, 1, 0, c.P);
    FrameInPage(c, s, 0);
    assert PubOK(c, s.pub, 0);
    SameHeader(img, 64, |s.pub[0].bytes|);
    Signed64RoundTrip(1);
  }

  lemma SecondProbed(c: Config, s: State, time: int)
    requires Inv(c, s) && c.page0 == 1 && s.top == 2 && s.warmer == Warming(2, 0) && time >= 1
    requires |s.pub| == 1 && s.pub[0].page == 1 && s.pub[0].off == 64
    requires |s.pub[0].bytes| >= 32 && s.pub[0].bytes[16..24] == LE(1, 8)
    requires Listed(c.P, DiskOf(c, s), SessionPages(c, s))
    ensures ProbesUnderWay(c, s, time)
  {
    hide Inv, LE, BeginTime, Image, Listed, Starting, ProbePath;
    var disk, ids := DiskOf(c, s), SessionPages(c, s);
    FirstBegins(c, s);
    NothingYet(c, s);
    assert disk[ids[0]] == Image(c.base, s.log, 1, 0, c.P) && disk[ids[1]] == Image(c.base, s.log, 2, 0, c.P);
    TwoPages(c.P, disk, ids, time);
    var path := ProbePath(0, 1, Starting(c.P, disk, ids, time, 0));
    assert InProgress(s, ids[path[1]]);
  }

  lemma TwoPages(P: PageSize, disk: Disk, ids: seq<nat>, time: int)
    requires Listed(P, disk, ids) && |ids| == 2
    requires StartsBy(P, disk, ids[0], time) && !StartsBy(P, disk, ids[1], time)
    ensures var path := ProbePath(0, 1, Starting(P, disk, ids, time, 0)); |path| > 1 && path[1] == 1
  {
    hide StartsBy;
    assert Starting(P, disk, ids, time, 1) == 0;
    assert ProbePath(1, 1, 1)[0] == 1;
    assert ProbePath(0, 1, 1) == [0] + ProbePath(1, 1, 1);
  }

  lemma NothingYet(c: Config, s: State)
    requires Inv(c, s) && c.page0 == 1 && s.top == 2 && s.warmer == Warming(2, 0)
    ensures BeginTime(c.P, Image(c.base, s.log, 2, 0, c.P)) == 0
  {
    hide LE, FromLE, Val, SlotOK, FrontierOK, HeadersOK, MakingOK, RotationOK, ViewOK, ReadersOK, Image, ChainOK,
      SafeOK, Touched;
    AheadUntouched(c, s, 2);
    UntouchedLength(Image(c.base, s.log, 2, 0, c.P));
  }
}
