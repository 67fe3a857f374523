/** Any number of writer sessions over the same files, each stopped between any two steps. */
module SessionChains {
  import opened Layout
  import opened Memory
  import opened Protocol
  import opened ProtocolSafety
  import opened ProtocolProofs
  import opened ProtocolTheorems
  import opened Recovery
  import opened PageDecoding
  import opened LastFramePosition
  import opened ResumeTheorems

  datatype Session = Session(c: Config, states: seq<State>, steps: seq<Step>)

  ghost function Final(x: Session): State
    requires |x.states| > 0
  {
    x.states[|x.states| - 1]
  }

  // A state reached by some run of a session whose start is linked to the page before it.
  ghost predicate Good(c: Config, s: State) {
    Inv(c, s) && LfpOK(c, s) && Linked(c)
  }

  ghost predicate Resumes(x: Session, y: Session)
    requires |x.states| > 0
  {
    var disk, top := DiskOf(x.c, Final(x)), Final(x).top;
    Contiguous(x.c.P, disk, top) && ResumeGuard(x.c.P, disk, top) && y.c == ResumeConfig(x.c.P, disk, top)
  }

  // The first session starts on an empty directory; every later one resumes under the guard.
  ghost predicate History(P: PageSize, hs: seq<Session>) {
    && |hs| > 0
    && (forall i :: 0 <= i < |hs| ==> |hs[i].states| > 0 && Run(hs[i].c, hs[i].states, hs[i].steps))
    && hs[0].c == ResumeConfig(P, map[], 0)
    && (forall i :: 0 <= i < |hs| - 1 ==> Resumes(hs[i], hs[i + 1]))
  }

  lemma ResumeLinked(c: Config, s: State)
    requires Good(c, s)
    requires Contiguous(c.P, DiskOf(c, s), s.top) && ResumeGuard(c.P, DiskOf(c, s), s.top)
    ensures Linked(ResumeConfig(c.P, DiskOf(c, s), s.top))
  {
    hide Inv, LfpOK, Written, Walk, LastSequence, ResumeGuard, LastWritten, LoadedPage;
    var disk := DiskOf(c, s);
    ResumeSequence(c, s);
    ResumedDisk(c.P, disk, s.top);
    LastWrittenIsHighest(c.P, disk, s.top);
  }

  lemma FreshLinked(P: PageSize)
    ensures var c := ResumeConfig(P, map[], 0); Linked(c) && ValidConfig(c) && c.page0 == 1 && c.sequence0 == 0
  {
    hide Walk, LastSequence, LoadedPage, CleanPage;
    var c := ResumeConfig(P, map[], 0);
    ResumedDisk(P, map[], 0);
    CleanZeros(P, 1, c.base);
  }

  lemma SessionGood(c: Config, states: seq<State>, steps: seq<Step>)
    requires Run(c, states, steps) && Linked(c)
    ensures forall k :: 0 <= k < |states| ==> Good(c, states[k])
  {
    hide Inv, LfpOK, Linked, Run;
    forall k | 0 <= k < |states|
      ensures Good(c, states[k])
    {
      Reachable(c, states, steps, k);
      ReachableLfp(c, states, steps, k);
    }
  }

  lemma HistoryAt(P: PageSize, hs: seq<Session>, i: nat)
    requires History(P, hs) && i < |hs|
    ensures |hs[i].states| > 0 && Run(hs[i].c, hs[i].states, hs[i].steps)
    ensures i == 0 ==> hs[0].c == ResumeConfig(P, map[], 0)
    ensures i > 0 ==> |hs[i - 1].states| > 0 && Resumes(hs[i - 1], hs[i])
  {
    hide Run, ResumeConfig, Resumes;
    if i > 0 {
      assert Resumes(hs[i - 1], hs[i - 1 + 1]);
    }
  }

  lemma {:induction false} HistoryGood(P: PageSize, hs: seq<Session>, i: nat)
    requires History(P, hs) && i < |hs|
    ensures hs[i].c.P == P && Linked(hs[i].c)
    ensures forall k :: 0 <= k < |hs[i].states| ==> Good(hs[i].c, hs[i].states[k])
  {
    hide History, Good, Linked, ResumeGuard, Run, Resume;
    HistoryAt(P, hs, i);
    if i == 0 {
      FreshLinked(P);
    } else {
      HistoryGood(P, hs, i - 1);
      ResumeLinked(hs[i - 1].c, Final(hs[i - 1]));
    }
    SessionGood(hs[i].c, hs[i].states, hs[i].steps);
  }

  // A frame that lies in the base image of a session, before the session's first page.
  ghost predicate Settled(c: Config, p: Pub) {
    && p.page < c.page0 && p.page in c.base && p.off + |p.bytes| <= |c.base[p.page]|
    && c.base[p.page][p.off..p.off + |p.bytes|] == p.bytes
  }

  // Pages that a resumed writer leaves behind keep their contents.
  lemma KeptPage(c: Config, s: State, p: nat)
    requires Good(c, s) && 1 <= p <= LastPage(c, s)
    requires Contiguous(c.P, DiskOf(c, s), s.top)
    ensures var c' := ResumeConfig(c.P, DiskOf(c, s), s.top);
            p < c'.page0 && p in c'.base && c'.base[p] == Image(c.base, s.log, p, 0, c.P)
  {
    hide Inv, LfpOK, Linked, Walk, LastSequence, Image, LastWritten, LoadedPage, Lfp;
    ScanResult(c, s);
    ResumedDisk(c.P, DiskOf(c, s), s.top);
  }

  // Under the guard every frame of the session lies on a page left behind.
  lemma FramesBehind(c: Config, s: State, n: nat)
    requires Good(c, s) && n < |s.pub|
    requires Contiguous(c.P, DiskOf(c, s), s.top) && ResumeGuard(c.P, DiskOf(c, s), s.top)
    ensures 1 <= s.pub[n].page <= LastPage(c, s)
  {
    hide LE, FromLE, HeaderOK, WarmerOK, LogOK, SlotOK, MakingOK, RotationOK, ViewOK, ReadersOK, ChainOK, SafeOK,
      Image, HeadersOK, Touched, Walk, Lfp, ResumeGuard, CleanPage, LfpOK, Linked;
    GuardMeans(c, s);
    PosBound(c, s.pub, n);
    ChainAt(c, s.pub, n);
    if Lfp(c, s.log, s.w.page) <= 64 {
      UntouchedEmpty(c, s);
    }
  }

  lemma SettleFrame(c: Config, s: State, n: nat)
    requires Good(c, s) && n < |s.pub|
    requires Contiguous(c.P, DiskOf(c, s), s.top) && ResumeGuard(c.P, DiskOf(c, s), s.top)
    ensures Settled(ResumeConfig(c.P, DiskOf(c, s), s.top), s.pub[n])
  {
    hide LfpOK, Linked, ResumeGuard, WriterOK, WarmerOK, LogOK, SlotOK, FrontierOK, HeadersOK, MakingOK, RotationOK,
      ViewOK, ReadersOK, ChainOK, SafeOK, Lfp, ResumeConfig, Image, ValidConfig;
    FramesBehind(c, s, n);
    KeptPage(c, s, s.pub[n].page);
    FrameInPage(c, s, n);
  }

  lemma StaysSettled(c: Config, s: State, p: Pub)
    requires Good(c, s) && Settled(c, p) && 1 <= p.page
    requires Contiguous(c.P, DiskOf(c, s), s.top) && ResumeGuard(c.P, DiskOf(c, s), s.top)
    ensures Settled(ResumeConfig(c.P, DiskOf(c, s), s.top), p)
  {
    hide LfpOK, ResumeGuard, WarmerOK, LogOK, SlotOK, FrontierOK, HeadersOK, MakingOK, RotationOK, ViewOK, ReadersOK,
      ChainOK, SafeOK, ResumeConfig, Image, Written, Walk, ValidConfig, Lfp;
    OldPage(c, s, p.page);
    KeptPage(c, s, p.page);
  }

  lemma SettledInMemory(c: Config, s: State, p: Pub)
    requires Good(c, s) && Settled(c, p)
    ensures Image(c.base, s.log, p.page, p.off, |p.bytes|) == p.bytes
  {
    hide LfpOK, WarmerOK, LogOK, SlotOK, FrontierOK, HeadersOK, MakingOK, RotationOK, ViewOK, ReadersOK, ChainOK,
      SafeOK, Val, Written, Walk, ValidConfig;
    OldPage(c, s, p.page);
    ImageSlice(c.base, s.log, p.page, 0, c.P, p.off, p.off + |p.bytes|);
  }

  // Session j resumed from the final state of session j - 1.
  lemma HistoryStep(P: PageSize, hs: seq<Session>, j: nat)
    requires History(P, hs) && 0 < j < |hs|
    ensures |hs[j - 1].states| > 0
    ensures Good(hs[j - 1].c, Final(hs[j - 1])) && Resumes(hs[j - 1], hs[j])
  {
    hide Inv, LfpOK, Linked, ResumeGuard, Run, ResumeConfig;
    HistoryGood(P, hs, j - 1);
  }

  lemma HistoryFinal(P: PageSize, hs: seq<Session>, j: nat)
    requires History(P, hs) && j < |hs|
    ensures |hs[j].states| > 0 && Good(hs[j].c, Final(hs[j]))
  {
    hide Inv, LfpOK, Linked, ResumeGuard, Run, ResumeConfig;
    HistoryGood(P, hs, j);
  }

  lemma {:induction false} SettledLater(P: PageSize, hs: seq<Session>, i: nat, j: nat, n: nat)
    requires History(P, hs) && i < j < |hs|
    requires |hs[i].states| > 0 && n < |Final(hs[i]).pub|
    ensures Settled(hs[j].c, Final(hs[i]).pub[n])
    decreases j
  {
    hide History, Good, Settled, ResumeGuard, ResumeConfig;
    HistoryStep(P, hs, j);
    var s := Final(hs[j - 1]);
    if i == j - 1 {
      SettleFrame(hs[i].c, s, n);
    } else {
      SettledLater(P, hs, i, j - 1, n);
      HistoryFinal(P, hs, i);
      FramePage(hs[i].c, Final(hs[i]), n);
      StaysSettled(hs[j - 1].c, s, Final(hs[i]).pub[n]);
    }
  }

  lemma FramePage(c: Config, s: State, n: nat)
    requires Good(c, s) && n < |s.pub|
    ensures 1 <= s.pub[n].page
  {
    PosBound(c, s.pub, n);
    ChainAt(c, s.pub, n);
  }

  /** No later session, at any of its moments, has overwritten a frame published by an earlier one. */
  lemma CommittedFramesSurvive(P: PageSize, hs: seq<Session>, i: nat, j: nat, k: nat, n: nat)
    requires History(P, hs) && i < j < |hs| && k < |hs[j].states|
    requires |hs[i].states| > 0 && n < |Final(hs[i]).pub|
    ensures FrameInMemory(hs[j].c, hs[j].states[k], Final(hs[i]).pub[n]) == Final(hs[i]).pub[n].bytes
  {
    hide History, Inv, LfpOK, Linked, Settled, Image;
    SettledLater(P, hs, i, j, n);
    HistoryGood(P, hs, j);
    SettledInMemory(hs[j].c, hs[j].states[k], Final(hs[i]).pub[n]);
  }

  predicate AllStarted(hs: seq<Session>) {
    forall k :: 0 <= k < |hs| ==> |hs[k].states| > 0
  }

  // How many frames the first i sessions have published.
  ghost function Total(hs: seq<Session>, i: nat): nat
    requires i <= |hs| && AllStarted(hs)
  {
    if i == 0 then 0 else Total(hs, i - 1) + |Final(hs[i - 1]).pub|
  }

  lemma HistoryStates(P: PageSize, hs: seq<Session>)
    requires History(P, hs)
    ensures AllStarted(hs)
  {
  }

  lemma NextStart(x: Session, y: Session, total: nat)
    requires |x.states| > 0 && Good(x.c, Final(x)) && Resumes(x, y)
    requires x.c.sequence0 == total % SEQUENCE_MODULUS
    ensures y.c.sequence0 == (total + |Final(x).pub|) % SEQUENCE_MODULUS
  {
    hide Inv, LfpOK, Linked, ResumeGuard, Walk, LastWritten;
    ResumeSequence(x.c, Final(x));
    SumModulo(total, |Final(x).pub|);
  }

  lemma {:induction false} SessionStart(P: PageSize, hs: seq<Session>, i: nat)
    requires History(P, hs) && i < |hs|
    ensures AllStarted(hs)
    ensures hs[i].c.sequence0 == Total(hs, i) % SEQUENCE_MODULUS
  {
    hide History, Good, ResumeGuard, ResumeConfig, Resumes;
    HistoryStates(P, hs);
    if i == 0 {
      FreshStart(P, hs);
    } else {
      SessionStart(P, hs, i - 1);
      HistoryStep(P, hs, i);
      NextStart(hs[i - 1], hs[i], Total(hs, i - 1));
    }
  }

  lemma FreshStart(P: PageSize, hs: seq<Session>)
    requires History(P, hs)
    ensures hs[0].c.sequence0 == 0
  {
    hide Linked, ValidConfig, ResumeConfig, Run;
    FreshLinked(P);
  }

  lemma SumModulo(a: nat, b: nat)
    ensures (a % SEQUENCE_MODULUS + b) % SEQUENCE_MODULUS == (a + b) % SEQUENCE_MODULUS
  {
  }

  /** Sequence numbers run on across sessions without a gap or a repetition: the n-th frame of a
      session carries the number of frames published before it by all sessions together. */
  lemma SequencesContinue(P: PageSize, hs: seq<Session>, i: nat, n: nat)
    requires History(P, hs) && i < |hs| && |hs[i].states| > 0 && n < |Final(hs[i]).pub|
    ensures AllStarted(hs)
    ensures var frame := Final(hs[i]).pub[n].bytes;
            |frame| >= 32 && SequenceOf(frame) == (Total(hs, i) + n) % SEQUENCE_MODULUS
  {
    hide History, Inv, LfpOK, Linked;
    SessionStart(P, hs, i);
    HistoryFinal(P, hs, i);
    PubSequence(hs[i].c, Final(hs[i]), n);
    SumModulo(Total(hs, i), n);
  }

  // ---------- What the guard means for the frames written ----------

  // At least two frames have been closed on the current page.
  predicate TwoClosed(s: State) {
    var n := ClosedCount(s);
    n >= 2 && s.pub[n - 1].page == s.w.page && s.pub[n - 2].page == s.w.page
  }

  lemma TwoClosedMeans(c: Config, s: State)
    requires Good(c, s)
    ensures Lfp(c, s.log, s.w.page) > 64 <==> TwoClosed(s)
  {
    hide Lfp, LE, FromLE, HeaderOK, WarmerOK, LogOK, SlotOK, MakingOK, RotationOK, ViewOK, ReadersOK, ChainOK, SafeOK,
      Image, HeadersOK, ValidConfig, Linked;
    var n := ClosedCount(s);
    if n > 0 {
      ChainAt(c, s.pub, n - 1);
      if n > 1 {
        ChainAt(c, s.pub, n - 2);
        PosBound(c, s.pub, n - 2);
        FrameKind(c, s.pub, n - 2);
      }
    }
  }

  /** A resumed writer starts on an untouched page if and only if the interrupted one had closed
      two frames on its current page, or stored nothing there. */
  lemma ResumeIsSafeIff(c: Config, states: seq<State>, steps: seq<Step>)
    requires |states| > 0 && Run(c, states, steps) && Linked(c)
    ensures var s := states[|states| - 1];
            && Contiguous(c.P, DiskOf(c, s), s.top)
            && var r := Resume(c.P, DiskOf(c, s), s.top);
               && r.page in r.disk
               && (!Touched(r.disk[r.page])
                   <==> TwoClosed(s) || !Touched(Image(c.base, s.log, s.w.page, 0, c.P)))
  {
    hide Inv, LfpOK, Linked, Run, Touched, Image, Resume, Lfp;
    var s := states[|states| - 1];
    Reachable(c, states, steps, |states| - 1);
    ReachableLfp(c, states, steps, |states| - 1);
    ResumeUntouchedIff(c, s);
    GuardMeans(c, s);
    TwoClosedMeans(c, s);
  }

  // ---------- What resuming does to the frames ----------

  predicate NoneOnCurrent(s: State) {
    forall n :: 0 <= n < |s.pub| ==> s.pub[n].page != s.w.page
  }

  // Each frame of a page takes at least a slot of 64 bytes.
  lemma {:induction false} FramesFew(c: Config, s: State, m: nat, n: nat)
    requires ChainOK(c, s.pub) && m <= n < |s.pub|
    requires s.pub[m].off == 64 && forall i :: m <= i < |s.pub| ==> s.pub[i].page == s.pub[m].page
    ensures 64 * (n - m + 1) <= s.pub[n].off <= c.P
    decreases n
  {
    hide LE, FromLE, HeaderBytes, FramePhysicalLength;
    assert PubOK(c, s.pub, n);
    if m < n {
      FramesFew(c, s, m, n - 1);
      assert PubOK(c, s.pub, n - 1);
      StrideOfFrame(|s.pub[n - 1].bytes|);
    }
  }

  lemma StrideOfFrame(len: nat)
    requires len > 0
    ensures FramePhysicalLength(len) >= 64
  {
  }

  lemma DifferentNumbers(base: nat, m: nat, n: nat)
    requires m < n < m + SEQUENCE_MODULUS
    ensures (base + m) % SEQUENCE_MODULUS != (base + n) % SEQUENCE_MODULUS
  {
  }

  // The next writer begins behind every committed frame.
  ghost predicate KeepsFrames(s: State, page: nat) {
    forall n :: 0 <= n < |s.pub| ==> s.pub[n].page < page
  }

  // The next writer's first frame goes to the very slot of a committed one.
  ghost predicate ReusesSlot(s: State, page: nat) {
    exists n :: 0 <= n < |s.pub| && s.pub[n].page == page && s.pub[n].off == 64
  }

  // The same as a condition on the files, which a caller can check before resuming: the highest page with a
  // frame says that a frame past its first was closed on it.
  ghost predicate FramesGuard(P: PageSize, disk: Disk, top: nat)
    requires Contiguous(P, disk, top)
  {
    forall p :: 1 <= p <= top && HighestWithFrames(P, disk, top, p) ==> LfpOf(disk[p]) > PAGE_HEADER_SIZE
  }

  ghost predicate HighestWithFrames(P: PageSize, disk: Disk, top: nat, p: nat)
    requires Contiguous(P, disk, top) && 1 <= p <= top
  {
    Walk(P, disk[p], 64) != [] && forall q :: p < q <= top ==> Walk(P, disk[q], 64) == []
  }

  lemma GuardAtHighest(P: PageSize, disk: Disk, top: nat, p: nat)
    requires Contiguous(P, disk, top) && 1 <= p <= top && HighestWithFrames(P, disk, top, p)
    ensures FramesGuard(P, disk, top) <==> LfpOf(disk[p]) > PAGE_HEADER_SIZE
  {
    hide Walk, LfpOf;
  }

  lemma NoFramesNoDemand(P: PageSize, disk: Disk, top: nat)
    requires Contiguous(P, disk, top) && forall q :: 1 <= q <= top ==> Walk(P, disk[q], 64) == []
    ensures FramesGuard(P, disk, top)
  {
    hide Walk, LfpOf;
  }

  lemma NothingAhead(c: Config, s: State)
    requires Good(c, s)
    ensures Contiguous(c.P, DiskOf(c, s), s.top)
    ensures forall q :: s.w.page < q <= s.top ==> Walk(c.P, DiskOf(c, s)[q], 64) == []
  {
    hide Inv, LfpOK, Linked, Walk, Lfp, TwoClosed, LfpOf, Image;
    DiskContiguous(c, s);
    forall q | s.w.page < q <= s.top
      ensures Walk(c.P, DiskOf(c, s)[q], 64) == []
    {
      EmptyAhead(c, s, q);
    }
  }

  lemma GuardWithFrames(c: Config, s: State)
    requires Good(c, s) && !NoneOnCurrent(s)
    ensures Contiguous(c.P, DiskOf(c, s), s.top)
    ensures FramesGuard(c.P, DiskOf(c, s), s.top) <==> Lfp(c, s.log, s.w.page) > 64
  {
    hide Inv, LfpOK, Linked, Walk, Lfp, TwoClosed, LfpOf, Image, FramesGuard, NoneOnCurrent;
    CurrentPage(c, s);
    NothingAhead(c, s);
    GuardAtHighest(c.P, DiskOf(c, s), s.top, s.w.page);
  }

  lemma FramesOnPageBehind(c: Config, s: State)
    requires Good(c, s) && s.w.page > 1 && Lfp(c, s.log, s.w.page) <= 64
    ensures Contiguous(c.P, DiskOf(c, s), s.top) && s.w.page <= s.top
    ensures var img := DiskOf(c, s)[s.w.page - 1]; Walk(c.P, img, 64) != [] && LfpOf(img) > 64
  {
    hide Inv, LfpOK, Linked, Walk, Lfp, LastWritten, Written, LfpOf, Image;
    CurrentPage(c, s);
    ScanResult(c, s);
    var m := ResumedSequence(c, s);
    BehindWritten(c, s);
  }

  lemma GuardWithoutFrames(c: Config, s: State)
    requires Good(c, s) && NoneOnCurrent(s)
    ensures Contiguous(c.P, DiskOf(c, s), s.top)
    ensures FramesGuard(c.P, DiskOf(c, s), s.top)
  {
    hide Inv, LfpOK, Linked, Walk, Lfp, TwoClosed, LastWritten, Written, LfpOf, Image, FramesGuard, NoneOnCurrent;
    CurrentPage(c, s);
    NothingAhead(c, s);
    if s.w.page > 1 {
      FramesOnPageBehind(c, s);
      GuardAtHighest(c.P, DiskOf(c, s), s.top, s.w.page - 1);
    } else {
      NoFramesNoDemand(c.P, DiskOf(c, s), s.top);
    }
  }

  lemma FramesGuardMeans(c: Config, s: State)
    requires Good(c, s)
    ensures Contiguous(c.P, DiskOf(c, s), s.top)
    ensures FramesGuard(c.P, DiskOf(c, s), s.top) <==> TwoClosed(s) || NoneOnCurrent(s)
  {
    hide Good, Inv, LfpOK, Linked, Lfp, TwoClosed, FramesGuard, NoneOnCurrent, Contiguous, DiskOf;
    TwoClosedMeans(c, s);
    if NoneOnCurrent(s) {
      GuardWithoutFrames(c, s);
    } else {
      GuardWithFrames(c, s);
    }
  }

  lemma CurrentPage(c: Config, s: State)
    requires Good(c, s)
    ensures 1 <= s.w.page <= s.top && LfpOf(Image(c.base, s.log, s.w.page, 0, c.P)) == Lfp(c, s.log, s.w.page)
    ensures Walk(c.P, Image(c.base, s.log, s.w.page, 0, c.P), 64) == [] <==> NoneOnCurrent(s)
    ensures Lfp(c, s.log, s.w.page) > 64 ==> !NoneOnCurrent(s)
  {
    hide LE, FromLE, HeaderOK, WarmerOK, LogOK, SlotOK, FrontierOK, HeadersOK, MakingOK, RotationOK, ViewOK,
      ReadersOK, ChainOK, SafeOK, Walk, Image, Lfp, LfpOf, Linked;
    LfpOfImage(c, s, s.w.page);
    PageDecodesIn(c, s, s.w.page);
    FramesOnNone(s.pub, s.w.page, 0);
  }

  lemma {:induction false} FramesOnNone(pub: seq<Pub>, p: nat, n: nat)
    requires n <= |pub|
    ensures FramesOn(pub, p, n) == [] <==> forall i :: n <= i < |pub| ==> pub[i].page != p
    decreases |pub| - n
  {
    if n < |pub| {
      FramesOnNone(pub, p, n + 1);
    }
  }

  lemma EmptyAhead(c: Config, s: State, q: nat)
    requires Good(c, s) && s.w.page < q <= s.top
    ensures Walk(c.P, Image(c.base, s.log, q, 0, c.P), 64) == []
  {
    hide LE, FromLE, HeaderOK, SlotOK, FrontierOK, HeadersOK, MakingOK, RotationOK, ViewOK, ReadersOK, ChainOK,
      SafeOK, Walk, Image, Lfp, Linked, Touched, LfpOK;
    AheadUntouched(c, s, q);
    if Walk(c.P, Image(c.base, s.log, q, 0, c.P), 64) != [] {
      WalkTouches(c.P, Image(c.base, s.log, q, 0, c.P));
    }
  }

  // The page before the writer's holds frames, and its last-frame position is past the first.
  lemma BehindWritten(c: Config, s: State)
    requires Good(c, s) && s.w.page > 1
    ensures LfpOf(Image(c.base, s.log, s.w.page - 1, 0, c.P)) > 64
    ensures Lfp(c, s.log, s.w.page) <= 64 ==> Walk(c.P, Image(c.base, s.log, s.w.page - 1, 0, c.P), 64) != []
  {
    hide Inv, LfpOK, Linked, Walk, Lfp, LastWritten, LfpOf, Image;
    BehindTouched(c, s);
    LfpOfImage(c, s, s.w.page - 1);
    ScanResult(c, s);
    var m := ResumedSequence(c, s);
    OnDisk(c, s);
  }

  lemma OnDisk(c: Config, s: State)
    requires Good(c, s)
    ensures s.w.page > 1 ==> s.w.page - 1 in DiskOf(c, s)
  {
  }

  /** A resumed writer keeps every committed frame, and takes the right next sequence number, if and only if
      the interrupted one had closed two frames on its current page or published none there. Otherwise its
      first frame goes to the slot of a committed one. */
  lemma ResumeKeepsFramesIff(c: Config, states: seq<State>, steps: seq<Step>)
    requires |states| > 0 && Run(c, states, steps) && Linked(c)
    ensures var s := states[|states| - 1];
            && Contiguous(c.P, DiskOf(c, s), s.top)
            && var r := Resume(c.P, DiskOf(c, s), s.top);
               && (KeepsFrames(s, r.page) <==> TwoClosed(s) || NoneOnCurrent(s))
               && (r.sequence == (c.sequence0 + |s.pub|) % SEQUENCE_MODULUS <==> TwoClosed(s) || NoneOnCurrent(s))
               && (ReusesSlot(s, r.page) <==> !(TwoClosed(s) || NoneOnCurrent(s)))
  {
    hide Inv, LfpOK, Linked, Run, Resume, Lfp, TwoClosed;
    var s := states[|states| - 1];
    Reachable(c, states, steps, |states| - 1);
    ReachableLfp(c, states, steps, |states| - 1);
    TwoClosedMeans(c, s);
    var m := ResumedSequence(c, s);
    if m < |s.pub| {
      ChainOf(c, s);
      FramesFew(c, s, m, |s.pub| - 1);
      DifferentNumbers(c.sequence0, m, |s.pub|);
    }
  }

  lemma ChainOf(c: Config, s: State)
    requires Inv(c, s)
    ensures ChainOK(c, s.pub)
  {
  }
}
