/** The pages of a running or interrupted session are as a seek needs them: a full page is one that was
    ended at the border, and it has a successor. */
module SeekTheorems {
  import opened Layout
  import opened Memory
  import opened Protocol
  import opened ProtocolSafety
  import opened ProtocolProofs
  import opened ProtocolTheorems
  import opened Recovery
  import opened PageDecoding
  import opened LastFramePosition
  import opened ResumeTheorems
  import opened Seek

  // ---------- Ended pages point at their PageEnd ----------

  ghost predicate EndsAt(pub: seq<Pub>, p: nat, a: nat) {
    exists n :: 0 <= n < |pub| && EndHere(pub[n], p, a)
  }

  predicate EndHere(f: Pub, p: nat, a: nat) {
    f.page == p && f.off == a && f.kind.End?
  }

  ghost predicate EndsMarked(c: Config, s: State) {
    forall p :: c.page0 <= p < s.w.page ==> EndsAt(s.pub, p, Lfp(c, s.log, p))
  }

  lemma EndsGrow(pub: seq<Pub>, pub': seq<Pub>, p: nat, a: nat)
    requires EndsAt(pub, p, a) && pub <= pub'
    ensures EndsAt(pub', p, a)
  {
    var n :| 0 <= n < |pub| && EndHere(pub[n], p, a);
    assert EndHere(pub'[n], p, a);
  }

  // A step stores nothing, or one event on the current page or on a later one.
  ghost predicate StoresAhead(s: State, s': State) {
    s'.log == s.log || (|s'.log| == |s.log| + 1 && s'.log[..|s.log|] == s.log && s'.log[|s.log|].page >= s.w.page)
  }

  lemma WriterStoresAhead(c: Config, s: State, step: WriterStep, s': State)
    requires WriterNext(c, s, step, s')
    ensures StoresAhead(s, s') && (s'.w.page == s.w.page || step == SwitchPage)
  {
    hide LE, Image, PageEvents, ValidRequest, PageHeaderStores, PageEndStores, OpenStores;
  }

  lemma WarmerStoresAhead(c: Config, s: State, step: WarmerStep, s': State)
    requires WarmerNext(c, s, step, s') && (s.warmer.Warming? ==> s.w.page < s.warmer.page)
    ensures StoresAhead(s, s') && s'.w == s.w
  {
    hide LE, WarmStores;
  }

  lemma StepStoresAhead(c: Config, s: State, step: Step, s': State)
    requires WarmerOK(c, s) && Next(c, s, step, s')
    ensures s.pub <= s'.pub && StoresAhead(s, s')
    ensures s'.w.page == s.w.page || step == OfWriter(SwitchPage)
  {
    StepExtends(c, s, step, s');
    hide WriterNext, WarmerNext, ReaderNext, StoresAhead;
    match step
    case OfWriter(ws) => WriterStoresAhead(c, s, ws, s');
    case OfWarmer(ws) => WarmerStoresAhead(c, s, ws, s');
    case JoinReader(_, _, _) => SameLogAhead(s, s');
    case OfReader(_, _, _) => SameLogAhead(s, s');
  }

  lemma SameLogAhead(s: State, s': State)
    requires s'.log == s.log
    ensures StoresAhead(s, s')
  {
  }

  lemma BehindUnchanged(c: Config, s: State, step: Step, s': State, p: nat)
    requires WarmerOK(c, s) && Next(c, s, step, s') && p < s.w.page
    ensures Lfp(c, s'.log, p) == Lfp(c, s.log, p)
  {
    hide LE, Next, WarmerOK, Lfp;
    StepStoresAhead(c, s, step, s');
    if s'.log != s.log {
      var e := s'.log[|s.log|];
      assert s'.log == s.log + [e];
      LfpElsewhere(c, s.log, e, p);
    }
  }

  lemma SwitchMarks(c: Config, s: State, s': State)
    requires FrontierOK(c, s.pub, s.w) && SlotPublished(s) && WriterNext(c, s, SwitchPage, s')
    requires s.w.cursor < 0x1_0000_0000
    ensures EndsAt(s'.pub, s.w.page, Lfp(c, s'.log, s.w.page))
  {
    hide LE, Image, Lfp;
    LfpStored(c, s.log, s.w.page, s.w.cursor);
    assert s'.log == s.log + [Plain(s.w.page, 16, Store(0, LE(s.w.cursor, 8)))];
    assert EndHere(s'.pub[|s.pub| - 1], s.w.page, s.w.cursor);
  }

  lemma NextMarks(c: Config, s: State, step: Step, s': State)
    requires Inv(c, s) && LfpOK(c, s) && EndsMarked(c, s) && Next(c, s, step, s')
    ensures EndsMarked(c, s')
  {
    hide LE, Image, Lfp, LogOK, SlotOK, ChainOK, SafeOK, HeadersOK, MakingOK, RotationOK, ViewOK, ReadersOK, EndsAt,
      ValidConfig, ReaderNext, WarmerNext, WarmerOK, LastClosed, ClosedCount, SlotPublished, FrontierOK;
    StepStoresAhead(c, s, step, s');
    if step == OfWriter(SwitchPage) {
      SwitchMarks(c, s, s');
    }
    forall p | c.page0 <= p < s.w.page
      ensures EndsAt(s'.pub, p, Lfp(c, s'.log, p))
    {
      BehindUnchanged(c, s, step, s', p);
      EndsGrow(s.pub, s'.pub, p, Lfp(c, s.log, p));
    }
  }

  lemma {:induction false} ReachableMarks(c: Config, states: seq<State>, steps: seq<Step>, i: nat)
    requires Run(c, states, steps) && i < |states|
    ensures EndsMarked(c, states[i])
  {
    hide Inv, Next, LfpOK, Lfp, EndsAt, EndsMarked;
    if i == 0 {
      NothingBehind(c, states[0]);
    } else {
      ReachableMarks(c, states, steps, i - 1);
      Reachable(c, states, steps, i - 1);
      ReachableLfp(c, states, steps, i - 1);
      NextMarks(c, states[i - 1], steps[i - 1], states[i]);
    }
  }

  lemma NothingBehind(c: Config, s: State)
    requires s.w.page == c.page0
    ensures EndsMarked(c, s)
  {
  }

  // ---------- Full pages ----------

  // The page's last-frame position is that of an unended frame, or of no frame.
  ghost predicate NotFullHere(c: Config, s: State, p: nat) {
    var img := Image(c.base, s.log, p, 0, c.P);
    LfpOf(img) + 64 <= c.P && !IsFull(c.P, img)
  }

  // A PageEnd frame in the image of its page.
  lemma EndInPage(c: Config, s: State, n: nat)
    requires ChainOK(c, s.pub) && SafeOK(c.base, s.log, s.pub) && n < |s.pub| && s.pub[n].kind.End?
    ensures s.pub[n].off + 64 <= c.P
    ensures var f := s.pub[n];
            var img := Image(c.base, s.log, f.page, 0, c.P);
            HeaderAt(img, f.off) == f.bytes && LengthAt(img, f.off) == 32
  {
    hide LE, FromLE, Val, HeaderBytes, SafeOK, Image, TypeOf, FramePhysicalLength;
    FrameInPage(c, s, n);
    EndSize(c, s.pub, n);
    StrideOfEnd();
  }

  lemma EndSize(c: Config, pub: seq<Pub>, n: nat)
    requires ChainOK(c, pub) && n < |pub| && pub[n].kind.End?
    ensures |pub[n].bytes| == 32
  {
    hide LE, FromLE, FramePhysicalLength, LengthOf;
    assert PubOK(c, pub, n);
  }

  lemma StrideOfEnd()
    ensures FramePhysicalLength(32) == 64
  {
  }

  // On an ended page the last-frame position is that of the PageEnd frame.
  lemma EndedPage(c: Config, s: State, p: nat) returns (n: nat)
    requires Inv(c, s) && EndsMarked(c, s) && c.page0 <= p < s.w.page
    ensures n < |s.pub| && EndHere(s.pub[n], p, Lfp(c, s.log, p)) && s.pub[n].off + 64 <= c.P
    ensures var img := Image(c.base, s.log, p, 0, c.P);
            && LfpOf(img) == s.pub[n].off
            && HeaderAt(img, s.pub[n].off) == s.pub[n].bytes && LengthAt(img, s.pub[n].off) == 32
  {
    hide LE, FromLE, Val, LogOK, SlotOK, HeadersOK, MakingOK, RotationOK, ViewOK, ReadersOK, WarmerOK, HeaderBytes,
      Lfp, LfpOf, ChainOK, SafeOK, FrontierOK, WriterOK, ValidConfig, Image, LengthAt, HeaderAt;
    assert EndsAt(s.pub, p, Lfp(c, s.log, p));
    n :| 0 <= n < |s.pub| && EndHere(s.pub[n], p, Lfp(c, s.log, p));
    EndInPage(c, s, n);
    LfpOfImage(c, s, p);
  }

  // The last frame closed on the current page ends at the border or before it.
  lemma CurrentNotFull(c: Config, s: State)
    requires Inv(c, s) && LfpOK(c, s)
    ensures NotFullHere(c, s, s.w.page)
  {
    hide LE, FromLE, Val, LogOK, SlotOK, HeadersOK, MakingOK, RotationOK, ViewOK, ReadersOK, WarmerOK, HeaderBytes,
      Lfp, LfpOf, ChainOK, SafeOK, FrontierOK, SlotPublished;
    var p := s.w.page;
    LfpOfImage(c, s, p);
    var a := LastClosed(s);
    assert Lfp(c, s.log, p) == a;
    var k := ClosedCount(s);
    if k > 0 && s.pub[k - 1].page == p {
      ClosedIsData(c, s);
      FrameInPage(c, s, k - 1);
      DataEndsInside(c, s.pub, k - 1);
    } else {
      FirstSlotNotEnd(c, s);
    }
  }

  lemma DataEndsInside(c: Config, pub: seq<Pub>, n: nat)
    requires ChainOK(c, pub) && n < |pub| && pub[n].kind.Data?
    ensures pub[n].off + FramePhysicalLength(|pub[n].bytes|) <= c.P - 64
  {
    hide LE, FromLE, HeaderBytes;
    assert PubOK(c, pub, n);
  }

  // While the writer is on a page, PageEnd is at most the last frame of it.
  lemma ClosedIsData(c: Config, s: State)
    requires ChainOK(c, s.pub) && FrontierOK(c, s.pub, s.w) && SlotPublished(s)
    requires ClosedCount(s) > 0 && s.pub[ClosedCount(s) - 1].page == s.w.page
    ensures s.pub[ClosedCount(s) - 1].kind.Data?
  {
    hide LE, FromLE, HeaderBytes, FramePhysicalLength;
    var k := ClosedCount(s);
    if s.pub[k - 1].kind.End? {
      if k < |s.pub| {
        ChainAt(c, s.pub, k);
      }
      assert false;
    }
  }

  // A page whose first frame is not closed yet is not full: that frame is no PageEnd.
  lemma FirstSlotNotEnd(c: Config, s: State)
    requires Inv(c, s) && LfpOK(c, s)
    requires !(ClosedCount(s) > 0 && s.pub[ClosedCount(s) - 1].page == s.w.page)
    ensures var len := LengthAt(Image(c.base, s.log, s.w.page, 0, c.P), 64); 64 + FramePhysicalLength(len) <= c.P - 64
  {
    hide LE, FromLE, Val, LogOK, SlotOK, HeadersOK, MakingOK, RotationOK, ViewOK, ReadersOK, WarmerOK, HeaderBytes,
      Lfp, LfpOf, ChainOK, SafeOK, FramePhysicalLength;
    NoLength();
    if ClosedCount(s) < |s.pub| {
      // Published, not closed.
      var n := |s.pub| - 1;
      FirstOffset(c, s, n);
      FrameInPage(c, s, n);
      if s.pub[n].kind.Data? {
        DataEndsInside(c, s.pub, n);
      } else {
        NoEarlyEnd(c, s);
        assert false;
      }
    } else {
      FrontierOnPage(c, s);
      FrontierLength(c, s);
    }
  }

  lemma NoLength()
    ensures FramePhysicalLength(0) == 0
  {
  }

  // The last published frame, when it is the only one of its page, is the page's first.
  lemma FirstOffset(c: Config, s: State, n: nat)
    requires ChainOK(c, s.pub) && FrontierOK(c, s.pub, s.w) && SlotPublished(s)
    requires ClosedCount(s) == n && |s.pub| == n + 1 && !(n > 0 && s.pub[n - 1].page == s.w.page)
    ensures s.pub[n].page == s.w.page && s.pub[n].off == 64
  {
    hide LE, FromLE, HeaderBytes, FramePhysicalLength;
    ChainAt(c, s.pub, n);
  }

  // A page is not ended before it holds a frame.
  lemma NoEarlyEnd(c: Config, s: State)
    requires WriterOK(c, s) && s.w.phase.Ended?
    ensures s.w.cursor > 64
  {
    hide FramePhysicalLength;
  }

  lemma FrontierOnPage(c: Config, s: State)
    requires ChainOK(c, s.pub) && FrontierOK(c, s.pub, s.w) && SlotPublished(s)
    requires ClosedCount(s) == |s.pub| && !(|s.pub| > 0 && s.pub[|s.pub| - 1].page == s.w.page)
    ensures Pos(c, s.pub, |s.pub|) == (s.w.page, 64)
  {
    hide LE, FromLE, HeaderBytes, FramePhysicalLength;
  }

  // A page that the writer has not reached holds nothing.
  lemma AheadNotFull(c: Config, s: State, p: nat)
    requires Inv(c, s) && LfpOK(c, s) && s.w.page < p <= s.top && p in s.hdr
    ensures NotFullHere(c, s, p)
    ensures LengthAt(Image(c.base, s.log, p, 0, c.P), 64) == 0 && LfpOf(Image(c.base, s.log, p, 0, c.P)) == 64
  {
    hide LE, FromLE, Val, LogOK, SlotOK, MakingOK, RotationOK, ViewOK, ReadersOK, WarmerOK, HeaderBytes, Lfp, LfpOf,
      ChainOK, SafeOK, HeadersOK, Touched, LastClosed;
    AheadUntouched(c, s, p);
    var img := Image(c.base, s.log, p, 0, c.P);
    LfpOfImage(c, s, p);
    PrefixOfImage(c, s, p);
    UntouchedLength(img);
    NoLength();
  }

  lemma UntouchedLength(img: Bytes)
    requires |img| >= 128 && !Touched(img)
    ensures LengthAt(img, 64) == 0
  {
    var word := img[64..68];
    assert forall i :: 0 <= i < 4 ==> word[i] == 0;
    FromLEZero(word);
  }

  // An ended page's frames end with its PageEnd.
  lemma EndedFrames(c: Config, s: State, p: nat, n: nat)
    requires Inv(c, s) && c.page0 <= p < s.w.page && 1 <= p && n < |s.pub| && s.pub[n].page == p && s.pub[n].kind.End?
    ensures var frames := FramesOf(c.P, DiskOf(c, s), p);
            IsEnded(frames) && frames[|frames| - 1] == s.pub[n].bytes
  {
    hide LE, FromLE, Image, Walk, LogOK, SlotOK, HeadersOK, MakingOK, RotationOK, ViewOK, ReadersOK, WarmerOK,
      HeaderBytes, ChainOK, SafeOK, FrontierOK;
    PageDecodesIn(c, s, p);
    forall i | n < i < |s.pub|
      ensures s.pub[i].page != p
    {
      PageOrder(c, s.pub, n + 1, i);
      ChainAt(c, s.pub, i);
    }
    LastOnPage(s.pub, p, 0, n);
    FrameKind(c, s.pub, n);
  }

  lemma NextHeader(s: State, c: Config, n: nat)
    requires HeadersOK(c, s) && RotationOK(s.hdr, s.pub) && n < |s.pub| && s.pub[n].kind.End?
    ensures s.pub[n].page + 1 <= s.top && s.pub[n].page + 1 in s.hdr
  {
    hide HeaderOK;
  }

  // What the seek's full-page test means on one page.
  ghost predicate FullOnlyIfEnded(c: Config, s: State, p: nat) {
    var img, disk := Image(c.base, s.log, p, 0, c.P), DiskOf(c, s);
    && 64 <= LfpOf(img) && LfpOf(img) + 64 <= c.P
    && (IsFull(c.P, img) ==>
          && LfpOf(img) == c.P - 64 && TypeOf(HeaderAt(img, c.P - 64)) == PAGE_END
          && var frames := FramesOf(c.P, disk, p);
             IsEnded(frames) && EndTime(c.P, img) == GenTimeOf(frames[|frames| - 1])
             && p + 1 <= s.top && p + 1 in s.hdr)
  }

  lemma EndedPageFull(c: Config, s: State, p: nat)
    requires Inv(c, s) && EndsMarked(c, s) && c.page0 <= p < s.w.page && 1 <= p
    ensures FullOnlyIfEnded(c, s, p)
    ensures IsEnded(FramesOf(c.P, DiskOf(c, s), p))
  {
    hide LE, FromLE, Val, LogOK, SlotOK, MakingOK, RotationOK, ViewOK, ReadersOK, HeaderBytes, Lfp, LfpOf, ChainOK,
      SafeOK, HeadersOK, EndsMarked, Image, DiskOf, Walk, FramesOf, TypeOf, GenTimeOf, WriterOK, WarmerOK, FrontierOK,
      ValidConfig, IsFull, EndTime, HeaderAt, LengthAt;
    var n := EndedPage(c, s, p);
    ChainAt(c, s.pub, n);
    PosBound(c, s.pub, n);
    Aligned(c, s.pub, n);
    FrameKind(c, s.pub, n);
    EndedFrames(c, s, p, n);
    NextHeader(s, c, n);
    EndSlot(c.P, Image(c.base, s.log, p, 0, c.P), s.pub[n].off, s.pub[n].bytes);
  }

  // A page whose last-frame position is that of a PageEnd frame.
  lemma EndSlot(P: PageSize, img: Bytes, off: nat, frame: Bytes)
    requires |img| == P && LfpOf(img) == off && off + 64 <= P && off % 64 == 0
    requires LengthAt(img, off) == 32 && HeaderAt(img, off) == frame
    ensures IsFull(P, img) ==> off == P - 64
    ensures EndTime(P, img) == GenTimeOf(frame)
  {
    hide LfpOf, LengthAt, HeaderAt, GenTimeOf;
    assert FramePhysicalLength(32) == 64;
  }

  /** A page that looks full was ended: PageEnd lies in the page's last slot and is its last frame, and the
      next page has a complete valid header. So a seek that leaves a full page always has a next one. */
  lemma FullPageIsEnded(c: Config, states: seq<State>, steps: seq<Step>, i: nat, p: nat)
    requires Run(c, states, steps) && i < |states| && c.page0 <= p <= states[i].top && p in states[i].hdr
    ensures FullOnlyIfEnded(c, states[i], p)
  {
    hide Run, LE, FromLE, Image, LogOK, SlotOK, MakingOK, RotationOK, ViewOK, ReadersOK, HeaderBytes, Lfp, LfpOf,
      ChainOK, SafeOK, HeadersOK, LfpOK, IsFull, FramesOf, WarmerOK, FrontierOK, EndsMarked;
    Reachable(c, states, steps, i);
    ReachableLfp(c, states, steps, i);
    ReachableMarks(c, states, steps, i);
    FullMeansEnded(c, states[i], p);
  }

  lemma FullMeansEnded(c: Config, s: State, p: nat)
    requires Inv(c, s) && LfpOK(c, s) && EndsMarked(c, s) && c.page0 <= p <= s.top && p in s.hdr
    ensures FullOnlyIfEnded(c, s, p)
  {
    hide LE, FromLE, Image, LogOK, SlotOK, MakingOK, RotationOK, ViewOK, ReadersOK, HeaderBytes, Lfp, LfpOf, ChainOK,
      SafeOK, HeadersOK, LfpOK, IsFull, FramesOf, WarmerOK, FrontierOK, EndsMarked;
    if p < s.w.page {
      EndedPageFull(c, s, p);
    } else if p == s.w.page {
      CurrentNotFull(c, s);
      LfpAtLeast(c, s);
    } else {
      AheadNotFull(c, s, p);
    }
  }

  lemma LfpAtLeast(c: Config, s: State)
    requires ChainOK(c, s.pub) && LfpOK(c, s)
    ensures LfpOf(Image(c.base, s.log, s.w.page, 0, c.P)) >= 64
  {
    hide LE, FromLE, Image, HeaderBytes, Lfp, LfpOf, ChainOK;
    LfpOfImage(c, s, s.w.page);
    var n := ClosedCount(s);
    if n > 0 {
      ChainAt(c, s.pub, n - 1);
      PosBound(c, s.pub, n - 1);
    }
  }

  /** A page that was left behind looks full exactly if its PageEnd lies in the last slot; no other page does. */
  lemma FullIffEndsLast(c: Config, states: seq<State>, steps: seq<Step>, i: nat, p: nat)
    requires Run(c, states, steps) && i < |states| && c.page0 <= p <= states[i].top && p in states[i].hdr
    ensures var s := states[i];
            var img := Image(c.base, s.log, p, 0, c.P);
            && LfpOf(img) + 64 <= c.P
            && (IsFull(c.P, img) <==> p < s.w.page && EndsAt(s.pub, p, c.P - 64))
  {
    hide Run, LE, FromLE, Image, LogOK, SlotOK, MakingOK, RotationOK, ViewOK, ReadersOK, HeaderBytes, Lfp, LfpOf,
      ChainOK, SafeOK, HeadersOK, LfpOK, IsFull, FramesOf, WarmerOK, FrontierOK, EndsMarked, TypeOf, GenTimeOf;
    Reachable(c, states, steps, i);
    ReachableLfp(c, states, steps, i);
    ReachableMarks(c, states, steps, i);
    var s := states[i];
    if p < s.w.page {
      FullBehind(c, s, p);
    } else if p == s.w.page {
      CurrentNotFull(c, s);
    } else {
      AheadNotFull(c, s, p);
    }
  }

  lemma FullBehind(c: Config, s: State, p: nat)
    requires Inv(c, s) && EndsMarked(c, s) && c.page0 <= p < s.w.page
    ensures var img := Image(c.base, s.log, p, 0, c.P);
            LfpOf(img) + 64 <= c.P && (IsFull(c.P, img) <==> EndsAt(s.pub, p, c.P - 64))
  {
    hide LE, FromLE, Image, LogOK, SlotOK, MakingOK, RotationOK, ViewOK, ReadersOK, HeaderBytes, Lfp, LfpOf,
      SafeOK, HeadersOK, WarmerOK, FrontierOK, EndsMarked, HeaderAt, LengthAt, ChainOK;
    var n := EndedPage(c, s, p);
    ChainAt(c, s.pub, n);
    Aligned(c, s.pub, n);
    assert FramePhysicalLength(32) == 64;
    if EndsAt(s.pub, p, c.P - 64) {
      var m :| 0 <= m < |s.pub| && EndHere(s.pub[m], p, c.P - 64);
      OneEnd(c, s.pub, m, n);
    }
  }

  lemma OneEnd(c: Config, pub: seq<Pub>, m: nat, n: nat)
    requires ChainOK(c, pub) && m < |pub| && n < |pub| && pub[m].kind.End? && pub[n].kind.End?
    requires pub[m].page == pub[n].page
    ensures m == n
  {
    hide ChainOK;
    if m < n {
      OrderedAt(c, pub, m, n);
    } else if n < m {
      OrderedAt(c, pub, n, m);
    }
  }

  // ---------- A whole session ----------

  lemma {:induction false} ReadableFrom(c: Config, s: State, n: nat)
    requires Inv(c, s) && n <= |s.pub|
    ensures var (p, a) := Pos(c, s.pub, n); a + 32 <= c.P ==> Readable(c.P, Image(c.base, s.log, p, 0, c.P), a)
    decreases |s.pub| - n
  {
    hide LE, FromLE, Val, ValidConfig, WriterOK, LogOK, SlotOK, FrontierOK, HeadersOK, MakingOK, RotationOK, ViewOK,
      ReadersOK, WarmerOK, ChainOK, SafeOK, TypeOf;
    var (p, a) := Pos(c, s.pub, n);
    var img := Image(c.base, s.log, p, 0, c.P);
    if a + 32 <= c.P {
      if n == |s.pub| {
        FrontierLength(c, s);
      } else {
        ChainAt(c, s.pub, n);
        FrameInPage(c, s, n);
        FrameKind(c, s.pub, n);
        SameHeader(img, a, |s.pub[n].bytes|);
        if s.pub[n].kind.Data? {
          DataEndsInside(c, s.pub, n);
          ReadableFrom(c, s, n + 1);
        }
      }
    }
  }

  lemma SessionReadable(c: Config, s: State, p: nat)
    requires Inv(c, s) && c.page0 <= p <= s.top
    ensures Readable(c.P, Image(c.base, s.log, p, 0, c.P), 64)
  {
    hide LE, FromLE, Val, ValidConfig, LogOK, SlotOK, HeadersOK, MakingOK, RotationOK, ViewOK, ReadersOK, WarmerOK,
      ChainOK, SafeOK, Touched;
    if p <= s.w.page {
      var m := FirstOnPage(c, s.pub, p, |s.pub|);
      ReadableFrom(c, s, m);
    } else {
      AheadUntouched(c, s, p);
      UntouchedLength(Image(c.base, s.log, p, 0, c.P));
    }
  }

  ghost function SessionPages(c: Config, s: State): seq<nat>
    requires c.page0 <= s.top
  {
    seq(s.top - c.page0 + 1, m requires 0 <= m => c.page0 + m)
  }

  lemma PagesOK(c: Config, s: State)
    requires Inv(c, s) && LfpOK(c, s) && EndsMarked(c, s)
    ensures Pages(c.P, DiskOf(c, s), SessionPages(c, s))
    ensures forall p :: c.page0 <= p <= s.top && p in s.hdr ==> PageOK(c.P, DiskOf(c, s), p)
  {
    hide Inv, LfpOK, EndsMarked, PageOK, Blank;
    PageBounds(c, s);
    var ids := SessionPages(c, s);
    forall p | c.page0 <= p <= s.top
      ensures PageOK(c.P, DiskOf(c, s), p) || Blank(c.P, DiskOf(c, s), p)
      ensures p in s.hdr ==> PageOK(c.P, DiskOf(c, s), p)
    {
      if p in s.hdr {
        CompletePage(c, s, p);
      } else {
        BlankPage(c, s, p);
      }
    }
  }

  lemma CompletePage(c: Config, s: State, p: nat)
    requires Inv(c, s) && LfpOK(c, s) && EndsMarked(c, s) && c.page0 <= p <= s.top && p in s.hdr
    ensures PageOK(c.P, DiskOf(c, s), p)
  {
    hide LE, FromLE, Val, LogOK, SlotOK, HeadersOK, MakingOK, RotationOK, ViewOK, ReadersOK, WarmerOK, ChainOK,
      SafeOK, Readable, LfpOf, HeaderPrefix, FrontierOK, LfpOK, EndsMarked, IsFull, FramesOf, Lfp;
    SessionReadable(c, s, p);
    FullMeansEnded(c, s, p);
    PrefixOfImage(c, s, p);
    LfpOfImage(c, s, p);
  }

  // A page whose header is still being made holds nothing.
  lemma BlankPage(c: Config, s: State, p: nat)
    requires Inv(c, s) && LfpOK(c, s) && c.page0 <= p <= s.top && p !in s.hdr
    ensures Blank(c.P, DiskOf(c, s), p)
  {
    hide LE, FromLE, Val, LogOK, SlotOK, HeaderOK, MakingOK, RotationOK, ViewOK, ReadersOK, ChainOK, SafeOK, LfpOf,
      HeaderPrefix, FrontierOK, Image, Touched, InProgress;
    InProgressAhead(c, s, p);
    InProgressZero(c, s, p);
    AheadUntouched(c, s, p);
    UntouchedLength(Image(c.base, s.log, p, 0, c.P));
  }

  // A page followed by a frame was ended, and an ended page has a successor.
  lemma PageOrderOK(c: Config, s: State, p: nat)
    requires Inv(c, s) && LfpOK(c, s) && EndsMarked(c, s) && c.page0 <= p <= s.top && 1 <= p
    ensures FramesOf(c.P, DiskOf(c, s), p + 1) != [] ==> IsEnded(FramesOf(c.P, DiskOf(c, s), p))
    ensures IsEnded(FramesOf(c.P, DiskOf(c, s), p)) ==> p + 1 <= s.top && p + 1 in s.hdr
  {
    hide LE, FromLE, Val, LogOK, SlotOK, HeadersOK, MakingOK, RotationOK, ViewOK, ReadersOK, ChainOK, SafeOK,
      Readable, LfpOf, HeaderPrefix, FrontierOK, LfpOK, EndsMarked, IsFull, Lfp, Walk, Image, TypeOf;
    if p < s.w.page {
      EndedPageFull(c, s, p);
      var n := EndedPage(c, s, p);
      NextHeader(s, c, n);
    } else {
      if p + 1 <= s.top {
        NothingAhead(c, s, p + 1);
      }
      if p == s.w.page && IsEnded(FramesOf(c.P, DiskOf(c, s), p)) {
        EndedHasNext(c, s);
      }
      if p > s.w.page {
        NothingAhead(c, s, p);
      }
    }
  }

  lemma NothingAhead(c: Config, s: State, p: nat)
    requires Inv(c, s) && s.w.page < p <= s.top
    ensures FramesOf(c.P, DiskOf(c, s), p) == []
  {
    hide LE, FromLE, Val, LogOK, SlotOK, HeadersOK, MakingOK, RotationOK, ViewOK, ReadersOK, WarmerOK, ChainOK,
      SafeOK, HeaderPrefix, FrontierOK, Walk, Touched;
    AheadUntouched(c, s, p);
    UntouchedLength(Image(c.base, s.log, p, 0, c.P));
    WalkStep(c.P, Image(c.base, s.log, p, 0, c.P), 64);
  }

  lemma EndedHasNext(c: Config, s: State)
    requires Inv(c, s) && s.w.page >= 1 && IsEnded(FramesOf(c.P, DiskOf(c, s), s.w.page))
    ensures s.w.page + 1 <= s.top && s.w.page + 1 in s.hdr
  {
    hide LE, FromLE, Image, LogOK, SlotOK, MakingOK, ViewOK, ReadersOK, WarmerOK, ChainOK, SafeOK, HeaderPrefix,
      FrontierOK, Walk, HeadersOK, RotationOK, TypeOf;
    var p := s.w.page;
    PageDecodesIn(c, s, p);
    if forall n :: 0 <= n < |s.pub| && s.pub[n].page == p ==> s.pub[n].kind.Data? {
      forall n | 0 <= n < |s.pub| && s.pub[n].page == p
        ensures |s.pub[n].bytes| >= 32 && TypeOf(s.pub[n].bytes) != PAGE_END
      {
        FrameKind(c, s.pub, n);
      }
      NoEndAmong(s.pub, p, 0);
    } else {
      var n :| 0 <= n < |s.pub| && s.pub[n].page == p && !s.pub[n].kind.Data?;
      NextHeader(s, c, n);
    }
  }

  lemma {:induction false} NoEndAmong(pub: seq<Pub>, p: nat, n: nat)
    requires n <= |pub|
    requires forall i :: n <= i < |pub| && pub[i].page == p ==> |pub[i].bytes| >= 32 && TypeOf(pub[i].bytes) != PAGE_END
    ensures forall k :: 0 <= k < |FramesOn(pub, p, n)| ==>
      |FramesOn(pub, p, n)[k]| >= 32 && TypeOf(FramesOn(pub, p, n)[k]) != PAGE_END
    decreases |pub| - n
  {
    hide TypeOf;
    if n < |pub| {
      NoEndAmong(pub, p, n + 1);
    }
  }

  /** At any moment of a session, running or interrupted, the page files meet everything the seek asks of them
      except the order in time, which is the caller's. */
  lemma SessionIsSeekable(c: Config, states: seq<State>, steps: seq<Step>, i: nat)
    requires Run(c, states, steps) && i < |states|
    ensures c.page0 <= states[i].top
    ensures var disk, ids := DiskOf(c, states[i]), SessionPages(c, states[i]);
            Pages(c.P, disk, ids) && OneSession(c.P, disk, ids)
  {
    hide Run, Inv, LfpOK, EndsMarked;
    Reachable(c, states, steps, i);
    ReachableLfp(c, states, steps, i);
    ReachableMarks(c, states, steps, i);
    PageBounds(c, states[i]);
    SeekableState(c, states[i]);
  }

  lemma PageBounds(c: Config, s: State)
    requires Inv(c, s)
    ensures 1 <= c.page0 <= s.w.page <= s.top
  {
  }

  lemma SeekableState(c: Config, s: State)
    requires Inv(c, s) && LfpOK(c, s) && EndsMarked(c, s) && 1 <= c.page0 <= s.top
    ensures var disk, ids := DiskOf(c, s), SessionPages(c, s); Pages(c.P, disk, ids) && OneSession(c.P, disk, ids)
  {
    hide Inv, LfpOK, EndsMarked, Readable, Accepted, LfpOf, Blank, FramesOf, IsEnded, IsFull, EndTime, GenTimeOf, Image;
    PagesOK(c, s);
    var disk, ids := DiskOf(c, s), SessionPages(c, s);
    forall m | 0 <= m < |ids| && IsEnded(FramesOf(c.P, disk, ids[m]))
      ensures m + 1 < |ids| && PageOK(c.P, disk, ids[m + 1])
    {
      PageOrderOK(c, s, ids[m]);
    }
    forall m | 0 <= m < |ids|
      ensures m < |ids| - 1 && FramesOf(c.P, disk, ids[m + 1]) != [] ==> IsEnded(FramesOf(c.P, disk, ids[m]))
      ensures PageOK(c.P, disk, ids[m]) && IsFull(c.P, disk[ids[m]]) ==> FullIsEnded(c.P, disk, ids[m])
    {
      PageOrderOK(c, s, ids[m]);
      if PageOK(c.P, disk, ids[m]) {
        FullHere(c, s, ids[m]);
      }
    }
  }

  lemma FullHere(c: Config, s: State, p: nat)
    requires Inv(c, s) && LfpOK(c, s) && EndsMarked(c, s) && 1 <= c.page0 <= p <= s.top && PageOK(c.P, DiskOf(c, s), p)
    ensures IsFull(c.P, DiskOf(c, s)[p]) ==> FullIsEnded(c.P, DiskOf(c, s), p)
  {
    hide Inv, LfpOK, EndsMarked, FramesOf, IsEnded, IsFull, EndTime, GenTimeOf, Image, Readable, Accepted, LfpOf;
    if p !in s.hdr {
      BlankPage(c, s, p);
    } else {
      FullMeansEnded(c, s, p);
    }
  }

  // ---------- When a join faults ----------

  // Whether the search for a time looks at a page whose header is being made.
  ghost predicate ProbesUnderWay(c: Config, s: State, time: int)
    requires c.page0 <= s.top && Listed(c.P, DiskOf(c, s), SessionPages(c, s))
  {
    var disk, ids := DiskOf(c, s), SessionPages(c, s);
    && time != 0
    && var path := ProbePath(0, |ids| - 1, Starting(c.P, disk, ids, time, 0));
       exists n :: 0 <= n < |path| && InProgress(s, ids[path[n]])
  }

  /** At any moment of a session a join at a time faults if and only if its search looks at a page whose header is
      just being made; with no header under way it never faults, and it is never rejected. */
  lemma SeekFaultsIff(c: Config, states: seq<State>, steps: seq<Step>, i: nat, time: int, prefault: bool)
    requires Run(c, states, steps) && i < |states|
    ensures var s := states[i];
            && c.page0 <= s.top && Listed(c.P, DiskOf(c, s), SessionPages(c, s))
            && SeekOutcome(c.P, DiskOf(c, s), SessionPages(c, s), time, prefault)
               == (if ProbesUnderWay(c, s, time) then Outcome.Faulted else Outcome.Loaded)
            && (ProbesUnderWay(c, s, time) ==> HeaderUnderWay(c, s))
  {
    hide Run, Inv, Pages, Listed, OneSession, SearchOutcome, ProbePath, Starting, LfpOf, Image, InProgress;
    Reachable(c, states, steps, i);
    var s := states[i];
    SessionIsSeekable(c, states, steps, i);
    var disk, ids := DiskOf(c, s), SessionPages(c, s);
    SearchFaultsIff(c.P, disk, ids, time);
    PageBounds(c, s);
    forall p | c.page0 <= p <= s.top
      ensures LfpOf(disk[p]) == 0 <==> InProgress(s, p)
    {
      ZeroIffUnderWay(c, s, p);
    }
    CurrentDone(c, s);
  }

  lemma ZeroIffUnderWay(c: Config, s: State, p: nat)
    requires Inv(c, s) && c.page0 <= p <= s.top
    ensures LfpOf(Image(c.base, s.log, p, 0, c.P)) == 0 <==> InProgress(s, p)
  {
    hide LE, FromLE, HeaderOK, LogOK, SlotOK, FrontierOK, RotationOK, ViewOK, ReadersOK, ChainOK, SafeOK, Image,
      ValidConfig, LfpOf, InProgress;
    if InProgress(s, p) {
      InProgressZero(c, s, p);
    } else {
      ResumeTheorems.HeaderDone(c, s, p);
    }
  }

  lemma CurrentDone(c: Config, s: State)
    requires Inv(c, s)
    ensures !InProgress(s, c.page0)
  {
  }
}
