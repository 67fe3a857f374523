/** Runs that show what a resuming writer loses: a page with a single closed frame is handed out again, and
    a header under way makes the scan fault. */
module ResumeWitness {
  import opened Layout
  import opened Memory
  import opened Protocol
  import opened ProtocolSafety
  import opened ProtocolProofs
  import opened ProtocolTheorems
  import opened Progress
  import opened Recovery
  import opened PageDecoding
  import opened LastFramePosition
  import opened ResumeTheorems
  import opened SessionChains

  // ---------- A committed frame that is overwritten ----------

  // The first k stores with which the next writer opens its first frame.
  function Overwritten(P: PageSize, img: Bytes, req: Request, sequence: nat, k: nat): (r: Bytes)
    requires |img| == P && k <= 7
    ensures |r| == P
  {
    Put(img, Store(64, PutAll(img[64..96], OpenStores(req.timestamp, req.msgType, req.flags, sequence)[..k])))
  }

  lemma LengthErased(img: Bytes, req: Request, sequence: nat, k: nat)
    requires |img| == 32 && 1 <= k <= 7
    ensures FromLE(PutAll(img, OpenStores(req.timestamp, req.msgType, req.flags, sequence)[..k])[0..4]) == 0
  {
    hide PutAll, LE, FromLE;
    var all := OpenStores(req.timestamp, req.msgType, req.flags, sequence);
    var stores := all[..k];
    forall i | 0 <= i < k
      ensures stores[i] == all[i]
    {
    }
    ZeroWord(4);
    if k == 7 {
      PutAllLast(img, stores, 6, 0, 4);
    } else {
      PutAllLast(img, stores, 0, 0, 4);
      assert Zeros(32)[0..4] == Zeros(4);
    }
    FromLEZero(PutAll(img, stores)[0..4]);
  }

  lemma FirstStoreErases(P: PageSize, img: Bytes, req: Request, sequence: nat, k: nat)
    requires |img| == P && 1 <= k <= 7
    ensures Walk(P, Overwritten(P, img, req, sequence, k), 64) == []
  {
    hide PutAll, FromLE, Walk, OpenStores;
    LengthErased(img[64..96], req, sequence, k);
    var slot := PutAll(img[64..96], OpenStores(req.timestamp, req.msgType, req.flags, sequence)[..k]);
    var r := Put(img, Store(64, slot));
    PutSlice(img, Store(64, slot), 64, 96);
    SliceOfSlice(r, 64, 96, 64, 68);
    assert r[64..68] == slot[0..4];
    WalkStep(P, r, 64);
  }

  /** A writer that publishes and closes one frame and stops leaves a journal whose next writer starts on that
      very page with that very sequence number. Before it writes, the committed frame is all that a reader finds
      there; from the first store of its first frame on, whatever that frame is, a reader finds nothing. */
  lemma SingleFrameIsReused(P: PageSize) returns (c: Config, states: seq<State>, steps: seq<Step>)
    ensures c == ResumeConfig(P, map[], 0) && |states| > 0 && Run(c, states, steps)
    ensures var s := Last(states);
            && s.w.phase == Idle && |s.pub| == 1 && s.pub[0].page == 1 && s.pub[0].off == 64
            && Contiguous(P, DiskOf(c, s), s.top)
            && !ResumeGuard(P, DiskOf(c, s), s.top)
            && var r := Resume(P, DiskOf(c, s), s.top);
               && r.page == 1 && r.sequence == 0 && 1 in r.disk && |r.disk[1]| == P
               && Walk(P, r.disk[1], 64) == [s.pub[0].bytes]
               && forall req, k :: 1 <= k <= 7 ==> Walk(P, Overwritten(P, r.disk[1], req, r.sequence, k), 64) == []
  {
    hide Inv, LfpOK, Linked, ResumeGuard, Walk, LastSequence, Touched, Image, Lfp, Run, Written, LastWritten, Resume,
      Overwritten, DiskOf;
    var s0;
    c, s0 := FreshStart(P);
    states, steps := WriterCanPublish(c, [s0], [], Request(1, 1, 0, 0), []);
    var s := Last(states);
    ReachableGood(c, states, steps);
    OneFrame(c, s);
    var img := Resume(P, DiskOf(c, s), s.top).disk[1];
    forall req, k | 1 <= k <= 7
      ensures Walk(P, Overwritten(P, img, req, 0, k), 64) == []
    {
      FirstStoreErases(P, img, req, 0, k);
    }
  }

  // The first session of a journal.
  lemma FreshStart(P: PageSize) returns (c: Config, s: State)
    ensures c == ResumeConfig(P, map[], 0) && Linked(c) && c.page0 == 1 && c.sequence0 == 0
    ensures Run(c, [s], []) && s.pub == [] && s.log == [] && s.w == Writer(1, 64, 0, {}, Idle) && s.warmer == Resting
    ensures s.top == c.top0 == 1
  {
    hide Linked, CleanPage;
    c := ResumeConfig(P, map[], 0);
    FreshLinked(P);
    ResumedDisk(P, map[], 0);
    s := State([], [], Writer(c.page0, 64, c.sequence0, {}, Idle), Resting, c.top0, {},
               map p | p in c.base && c.page0 <= p :: -1, map[]);
  }

  // ---------- Payload that is read as a frame ----------

  // A session that stopped with its first frame open, a frame header among the payload.
  lemma LeftOpen(P: PageSize, leftover: Bytes) returns (c: Config, states: seq<State>, steps: seq<Step>)
    requires P >= 256 && |leftover| == 32
    ensures c == ResumeConfig(P, map[], 0) && |states| > 0 && Run(c, states, steps) && Linked(c) && c.page0 == 1
    ensures var s := Last(states);
            && s.pub == [] && s.w.page == 1 && Hi(s.w) == 192
            && Image(c.base, s.log, 1, 128, 32) == leftover
  {
    hide Run, Linked, LE, Image;
    var s0;
    c, s0 := FreshStart(P);
    var req := Request(1, 1, 96, 0);
    assert Stride(96) == 128;
    var s1 := s0.(w := s0.w.(sequence := 1, phase := Filling(req, 0)));
    Extend(c, [s0], [], OfWriter(BeginWrite(req)), s1);
    var states1, steps1 := FillHeader(c, [s0] + [s1], [] + [OfWriter(BeginWrite(req))]);
    var s2 := Last(states1);
    var s3 := s2.(w := s2.w.(phase := Open(req)));
    Extend(c, states1, steps1, OfWriter(FillDone), s3);
    var e := Plain(1, 64, Store(64, leftover));
    var s4 := Stored(s3, e, Open(req));
    Extend(c, states1 + [s3], steps1 + [OfWriter(FillDone)], OfWriter(CallerStore(Store(64, leftover))), s4);
    ImagePut(c.base, s3.log, e, 1, 128, 32);
    assert Put(Image(c.base, s3.log, 1, 128, 32), Store(0, leftover)) == leftover;
    states := states1 + [s3] + [s4];
    steps := steps1 + [OfWriter(FillDone)] + [OfWriter(CallerStore(Store(64, leftover)))];
  }

  /** The guard for frames does not protect the next writer's readers. This session stopped before it published
      anything, so nothing is lost; but the next writer starts on the page with the payload on it, and once it
      has published any frame of 32 bytes, a reader takes payload behind it for a frame that nobody wrote. */
  lemma LeftoverIsRead(P: PageSize) returns (c: Config, states: seq<State>, steps: seq<Step>, leftover: Bytes)
    requires P >= 256
    ensures c == ResumeConfig(P, map[], 0) && |states| > 0 && Run(c, states, steps) && |leftover| == 32
    ensures var s := Last(states);
            && s.pub == [] && Contiguous(P, DiskOf(c, s), s.top)
            && FramesGuard(P, DiskOf(c, s), s.top) && !ResumeGuard(P, DiskOf(c, s), s.top)
            && var r := Resume(P, DiskOf(c, s), s.top);
               && r.page == 1 && 1 in r.disk && |r.disk[1]| == P && Walk(P, r.disk[1], 64) == []
               && forall first: Bytes :: |first| == 32 && LengthOf(first) == 32 && TypeOf(first) != PAGE_END ==>
                    Walk(P, Put(r.disk[1], Store(64, first)), 64) == [first, leftover]
  {
    hide Inv, LfpOK, Linked, ResumeGuard, Walk, LastSequence, Touched, Image, Lfp, Run, Written, LastWritten, Resume,
      FramesGuard, DiskOf, LengthOf, TypeOf, LE, HeaderBytes, PutAll;
    leftover := HeaderBytes(32, 1, 0, 0, 0, 0);
    LeftoverHeader();
    c, states, steps := LeftOpen(P, leftover);
    var s := Last(states);
    ReachableGood(c, states, steps);
    NoFrameYet(c, states, steps, leftover);
    var img := Resume(P, DiskOf(c, s), s.top).disk[1];
    forall first: Bytes | |first| == 32 && LengthOf(first) == 32 && TypeOf(first) != PAGE_END
      ensures Walk(P, Put(img, Store(64, first)), 64) == [first, leftover]
    {
      PayloadWalk(P, img, first, leftover);
    }
  }

  lemma LeftoverHeader()
    ensures var h := HeaderBytes(32, 1, 0, 0, 0, 0); LengthOf(h) == 32 && TypeOf(h) == 1
  {
    hide LE, FromLE;
    HeaderFields(32, 1, 0, 0, 0, 0);
    PowValues();
    UnsignedRoundTrip(32, 4);
    UnsignedRoundTrip(1, 2);
  }

  lemma PayloadWalk(P: PageSize, img: Bytes, first: Bytes, leftover: Bytes)
    requires P >= 256 && |img| == P && img[128..160] == leftover && LengthOf(leftover) == 32 && TypeOf(leftover) == 1
    requires forall a :: 192 <= a < P ==> img[a] == 0
    requires |first| == 32 && LengthOf(first) == 32 && TypeOf(first) != PAGE_END
    ensures Walk(P, Put(img, Store(64, first)), 64) == [first, leftover]
  {
    hide Walk, FromLE, TypeOf;
    var r := Put(img, Store(64, first));
    assert FramePhysicalLength(32) == 64;
    PutSlice(img, Store(64, first), 64, 96);
    PutSlice(img, Store(64, first), 128, 160);
    PutSlice(img, Store(64, first), 192, 196);
    SliceOfSlice(r, 64, 96, 64, 68);
    SliceOfSlice(r, 128, 160, 128, 132);
    assert r[64..68] == first[0..4] && r[128..132] == leftover[0..4];
    WalkFrame(P, r, 64, first);
    WalkFrame(P, r, 128, leftover);
    FromLEZero(img[192..196]);
    WalkStep(P, r, 192);
    assert [first] + ([leftover] + []) == [first, leftover];
  }

  lemma NoFrameYet(c: Config, states: seq<State>, steps: seq<Step>, leftover: Bytes)
    requires |states| > 0 && Run(c, states, steps) && Good(c, Last(states))
    requires c.page0 == 1 && c.P >= 256
    requires var s := Last(states);
             && s.pub == [] && s.w.page == 1 && Hi(s.w) == 192
             && Image(c.base, s.log, 1, 128, 32) == leftover && LengthOf(leftover) == 32
    ensures var s := Last(states);
            && Contiguous(c.P, DiskOf(c, s), s.top)
            && FramesGuard(c.P, DiskOf(c, s), s.top) && !ResumeGuard(c.P, DiskOf(c, s), s.top)
            && var r := Resume(c.P, DiskOf(c, s), s.top);
               && r.page == 1 && 1 in r.disk && |r.disk[1]| == c.P && Walk(c.P, r.disk[1], 64) == []
               && r.disk[1][128..160] == leftover && forall a :: 192 <= a < c.P ==> r.disk[1][a] == 0
  {
    hide Inv, LfpOK, Linked, ResumeGuard, Walk, Touched, Image, Lfp, Run, Written, LastWritten, LfpOf, FramesGuard;
    var s := Last(states);
    var img := Image(c.base, s.log, 1, 0, c.P);
    ImageSlice(c.base, s.log, 1, 0, c.P, 128, 160);
    forall a | 192 <= a < c.P
      ensures img[a] == 0
    {
      NothingBehindCursor(c, states, steps, |states| - 1, a);
      assert img[a] == Val(c.base, s.log, 1, 0 + a);
    }
    CurrentPage(c, s);
    TwoClosedMeans(c, s);
    SliceOfSlice(img, 128, 160, 128, 132);
    NonzeroWordTouches(img, 128);
    GuardMeans(c, s);
    FramesGuardMeans(c, s);
    ScanResult(c, s);
    ResumedDisk(c.P, DiskOf(c, s), s.top);
    HeaderStands(c, s);
  }

  // The current page has its header, so loading leaves it as it is.
  lemma HeaderStands(c: Config, s: State)
    requires Good(c, s)
    ensures Lfp(c, s.log, s.w.page) >= 64
  {
    hide LfpOK, Linked, Lfp, LE, FromLE, HeaderOK, LogOK, SlotOK, FrontierOK, MakingOK, RotationOK, ViewOK,
      ReadersOK, ChainOK, SafeOK, Image;
    ResumeTheorems.HeaderDone(c, s, s.w.page);
    LfpOfImage(c, s, s.w.page);
  }

  // ---------- A header under way ----------

  /** A session stopped right after its page warmer created a file: without prefaulting, the next writer's
      scan faults. */
  lemma UnfinishedHeaderFaults(P: PageSize) returns (c: Config, states: seq<State>, steps: seq<Step>)
    ensures c == ResumeConfig(P, map[], 0) && |states| > 0 && Run(c, states, steps)
    ensures var s := states[|states| - 1];
            && Contiguous(P, DiskOf(c, s), s.top)
            && Unfinished(P, DiskOf(c, s), LastWritten(P, DiskOf(c, s), s.top), s.top)
  {
    hide Inv, LfpOK, Linked, Walk, LastSequence, Image, Lfp, Run, Written, LastWritten, Unfinished;
    var s0;
    c, s0 := FreshStart(P);
    var s1 := s0.(top := s0.top + 1, warmer := Warming(s0.top + 1, 0));
    Extend(c, [s0], [], OfWarmer(WarmBegin), s1);
    states, steps := [s0] + [s1], [] + [OfWarmer(WarmBegin)];
    ReachableGood(c, states, steps);
    assert InProgress(s1, s1.top);
    ScanFaultsIff(c, s1);
  }

  lemma ReachableGood(c: Config, states: seq<State>, steps: seq<Step>)
    requires |states| > 0 && Run(c, states, steps) && Linked(c)
    ensures Good(c, states[|states| - 1])
  {
    hide Inv, LfpOK, Linked, Run;
    Reachable(c, states, steps, |states| - 1);
    ReachableLfp(c, states, steps, |states| - 1);
  }

  lemma OneFrame(c: Config, s: State)
    requires Good(c, s) && s.w.phase == Idle && |s.pub| == 1 && s.w.page == 1 && s.pub[0].page == 1
    ensures Contiguous(c.P, DiskOf(c, s), s.top) && !ResumeGuard(c.P, DiskOf(c, s), s.top)
    ensures var r := Resume(c.P, DiskOf(c, s), s.top);
            && r.page == 1 && r.sequence == 0 && 1 in r.disk && |r.disk[1]| == c.P
            && Walk(c.P, r.disk[1], 64) == [s.pub[0].bytes]
  {
    hide Inv, LfpOK, Linked, ResumeGuard, Walk, LastSequence, Touched, Image, Lfp, Written, LastWritten, LfpOf;
    HeaderStands(c, s);
    CurrentPage(c, s);
    ResumedDisk(c.P, DiskOf(c, s), s.top);
    OnlyFrame(c, s);
    GuardMeans(c, s);
    TwoClosedMeans(c, s);
    FrameTouches(c, s, 0);
    ScanResult(c, s);
  }

  lemma OnlyFrame(c: Config, s: State)
    requires Good(c, s) && |s.pub| == 1 && s.w.page == 1 && s.pub[0].page == 1
    ensures Walk(c.P, Image(c.base, s.log, 1, 0, c.P), 64) == [s.pub[0].bytes]
  {
    hide LfpOK, Linked, LE, FromLE, Val, Walk, LogOK, SlotOK, HeadersOK, MakingOK, RotationOK, ViewOK, ReadersOK,
      WarmerOK, ChainOK, SafeOK, FrontierOK, Image;
    PageDecodesIn(c, s, 1);
  }
}
