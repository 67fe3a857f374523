/** What the protocol guarantees along every run, for every number of readers. */
module ProtocolTheorems {
  import opened Layout
  import opened Memory
  import opened Protocol
  import opened ProtocolSafety
  import opened ProtocolProofs

  ghost predicate Run(c: Config, states: seq<State>, steps: seq<Step>) {
    && |states| == |steps| + 1
    && Init(c, states[0])
    && forall i :: 0 <= i < |steps| ==> Next(c, states[i], steps[i], states[i + 1])
  }

  lemma {:induction false} Reachable(c: Config, states: seq<State>, steps: seq<Step>, i: nat)
    requires Run(c, states, steps) && i < |states|
    ensures Inv(c, states[i])
  {
    hide Inv, Next, Init;
    if i == 0 {
      InitOK(c, states[0]);
    } else {
      Reachable(c, states, steps, i - 1);
      NextKeeps(c, states[i - 1], steps[i - 1], states[i]);
    }
  }

  lemma ReaderIn(c: Config, s: State, id: nat)
    requires Inv(c, s) && id in s.readers
    ensures ReaderOK(c, s.log, s.pub, s.readers[id]) && Due(s.readers[id]) <= |s.pub|
  {
  }

  /** In every interleaving, what a reader has consumed is a prefix of what was published from the frame on
      that it joined at: nothing torn, skipped, repeated or invented, across pages. No reader ever takes the
      next page for a new one or rejects its header. */
  lemma ReadersSeePrefix(c: Config, states: seq<State>, steps: seq<Step>, i: nat, id: nat)
    requires Run(c, states, steps) && i < |states| && id in states[i].readers
    ensures var s, r := states[i], states[i].readers[id]; r.from <= |s.pub| && r.consumed <= Frames(s)[r.from..]
    ensures states[i].readers[id].phase != Fault
  {
    hide Run, Inv;
    Reachable(c, states, steps, i);
    ReaderIn(c, states[i], id);
    ConsumedPrefix(c, states[i], states[i].readers[id]);
  }

  lemma ConsumedPrefix(c: Config, s: State, r: Reader)
    requires ReaderOK(c, s.log, s.pub, r)
    ensures r.from <= |s.pub| && r.consumed <= Frames(s)[r.from..] && r.phase != Fault
  {
    hide Pos, LE, FromLE;
  }

  // The bytes that memory holds at a published frame.
  ghost function FrameInMemory(c: Config, s: State, p: Pub): Bytes {
    Image(c.base, s.log, p.page, p.off, |p.bytes|)
  }

  lemma StepExtends(c: Config, s: State, step: Step, s': State)
    requires Next(c, s, step, s')
    ensures s.pub <= s'.pub
  {
    hide LE, FromLE, Image, PageEvents, ReaderNext, ValidRequest, OpenStores, PageEndStores, PageHeaderStores,
      Layout.WarmStores;
  }

  lemma {:induction false} PublishedGrows(c: Config, states: seq<State>, steps: seq<Step>, i: nat, j: nat)
    requires Run(c, states, steps) && i <= j < |states|
    ensures states[i].pub <= states[j].pub
    decreases j
  {
    hide Next, Init;
    if i < j {
      PublishedGrows(c, states, steps, i, j - 1);
      StepExtends(c, states[j - 1], steps[j - 1], states[j]);
    }
  }

  /** Published frames are never withdrawn, reordered or overwritten for the rest of the run. */
  lemma PublishedIsForever(c: Config, states: seq<State>, steps: seq<Step>, i: nat, j: nat, n: nat)
    requires Run(c, states, steps) && i <= j < |states| && n < |states[i].pub|
    ensures Frames(states[i]) <= Frames(states[j])
    ensures FrameInMemory(c, states[j], states[i].pub[n]) == states[i].pub[n].bytes
  {
    Reachable(c, states, steps, j);
    PublishedGrows(c, states, steps, i, j);
    assert states[j].pub[n] == states[i].pub[n];
    assert FrameSafe(c.base, states[j].log, states[j].pub[n]);
  }

  /** The published stream: sequence numbers count up by one from the first, every frame declares
      its own length, and each has the type that was asked for. */
  lemma PublishedStream(c: Config, states: seq<State>, steps: seq<Step>, i: nat, n: nat)
    requires Run(c, states, steps) && i < |states| && n < |states[i].pub|
    ensures var p := states[i].pub[n];
            && |p.bytes| >= 32 && LengthOf(p.bytes) == |p.bytes|
            && SequenceOf(p.bytes) == (c.sequence0 + n) % 0x1_0000_0000_0000_0000
            && TypeOf(p.bytes) == (if p.kind.Data? then p.kind.req.msgType else PAGE_END)
            && (p.kind.Data? ==> |p.bytes| == FRAME_HEADER_SIZE + p.kind.req.size)
  {
    Reachable(c, states, steps, i);
    FrameFields(c, states[i].pub, n);
  }

  lemma FrameFields(c: Config, pub: seq<Pub>, n: nat)
    requires ChainOK(c, pub) && n < |pub|
    ensures var p := pub[n];
            && |p.bytes| >= 32 && LengthOf(p.bytes) == |p.bytes|
            && SequenceOf(p.bytes) == (c.sequence0 + n) % 0x1_0000_0000_0000_0000
            && TypeOf(p.bytes) == (if p.kind.Data? then p.kind.req.msgType else PAGE_END)
            && (p.kind.Data? ==> |p.bytes| == FRAME_HEADER_SIZE + p.kind.req.size)
  {
    hide LE, FromLE, HeaderBytes;
    assert PubOK(c, pub, n);
    FrameKind(c, pub, n);
    assert FromLE(LE(c.sequence0 + n, 8)) == (c.sequence0 + n) % 0x1_0000_0000_0000_0000 by {
      PowValues();
      LERoundTrip(c.sequence0 + n, 8);
    }
    match pub[n].kind
    case Data(req) => TypeWord(req.msgType);
    case End(now) => HeaderFields(32, PAGE_END, 0, c.sequence0 + n, now, 0);
  }

  // ---------- Where the frames lie ----------

  // Whether position (p, a) comes no later than position (q, b).
  predicate NotAfter(p: nat, a: nat, q: nat, b: nat) {
    p < q || (p == q && a <= b)
  }

  lemma {:induction false} PositionsGrow(c: Config, pub: seq<Pub>, m: nat, n: nat)
    requires ChainOK(c, pub) && m < n <= |pub|
    ensures var (q, b) := Pos(c, pub, n);
            pub[m].kind.End? ==> NotAfter(pub[m].page + 1, 64, q, b)
    ensures var (q, b) := Pos(c, pub, n);
            pub[m].kind.Data? ==> NotAfter(pub[m].page, pub[m].off + FramePhysicalLength(|pub[m].bytes|), q, b)
    decreases n
  {
    hide LE, FromLE, HeaderBytes, FramePhysicalLength;
    if m + 1 < n {
      PositionsGrow(c, pub, m, n - 1);
      assert PubOK(c, pub, n - 1);
    }
  }

  lemma {:induction false} Aligned(c: Config, pub: seq<Pub>, n: nat)
    requires ChainOK(c, pub) && n <= |pub|
    ensures Pos(c, pub, n).1 % 64 == 0
    decreases n
  {
    hide LE, FromLE, HeaderBytes, ChainOK, FramePhysicalLength;
    if n > 0 {
      Aligned(c, pub, n - 1);
      ChainAt(c, pub, n - 1);
    }
  }

  /** Where a published frame lies, the newest included: aligned, behind the page header, with its whole stride on
      the page and, unless it ends the page, before the page's last slot. It begins where the frame before it
      on the page ends, or in the first slot. */
  lemma FrameLies(c: Config, states: seq<State>, steps: seq<Step>, i: nat, n: nat)
    requires Run(c, states, steps) && i < |states| && n < |states[i].pub|
    ensures var pub := states[i].pub;
            var p := pub[n];
            && 64 <= p.off && p.off % 64 == 0 && p.off + FramePhysicalLength(|p.bytes|) <= c.P
            && (p.kind.Data? ==> p.off + FramePhysicalLength(|p.bytes|) <= c.P - 64)
            && (if n == 0 then p.page == c.page0 && p.off == 64
                else if pub[n - 1].kind.End? then p.page == pub[n - 1].page + 1 && p.off == 64
                else p.page == pub[n - 1].page && p.off == pub[n - 1].off + FramePhysicalLength(|pub[n - 1].bytes|))
  {
    Reachable(c, states, steps, i);
    LiesAt(c, states[i].pub, n);
  }

  lemma LiesAt(c: Config, pub: seq<Pub>, n: nat)
    requires ChainOK(c, pub) && n < |pub|
    ensures var p := pub[n];
            && (p.page, p.off) == Pos(c, pub, n)
            && 64 <= p.off && p.off % 64 == 0 && p.off + FramePhysicalLength(|p.bytes|) <= c.P
            && (p.kind.Data? ==> p.off + FramePhysicalLength(|p.bytes|) <= c.P - 64)
  {
    hide LE, FromLE, HeaderBytes, FramePhysicalLength;
    Aligned(c, pub, n);
    assert PubOK(c, pub, n);
  }

  // The frame after this PageEnd did not fit in front of the page's last slot.
  predicate Overflows(P: PageSize, end: Pub, size: nat) {
    end.off + Stride(size) > P - 64
  }

  ghost predicate EndsFull(P: PageSize, s: State) {
    && (forall i :: 0 < i < |s.pub| && s.pub[i - 1].kind.End? ==>
          s.pub[i].kind.Data? && Overflows(P, s.pub[i - 1], s.pub[i].kind.req.size))
    && (s.pub != [] && s.pub[|s.pub| - 1].kind.End? ==>
          AfterEnd(s.w.phase) && Overflows(P, s.pub[|s.pub| - 1], s.w.phase.req.size))
  }

  predicate AfterEnd(phase: Phase) {
    phase.Ended? || phase.Filling? || phase.Open?
  }

  lemma QuietStep(c: Config, s: State, step: Step, s': State)
    requires Next(c, s, step, s') && s'.pub == s.pub && AfterEnd(s.w.phase)
    ensures AfterEnd(s'.w.phase) && s'.w.phase.req == s.w.phase.req
  {
    hide LE, FromLE, Image, PageEvents, ReaderNext, ValidRequest, OpenStores, PageEndStores, PageHeaderStores,
      Layout.WarmStores, Stride;
  }

  lemma PublishingStep(c: Config, s: State, step: Step, s': State)
    requires Next(c, s, step, s') && s'.pub != s.pub
    ensures |s'.pub| == |s.pub| + 1 && s'.pub[..|s.pub|] == s.pub
    ensures var p := s'.pub[|s.pub|];
            || (s.w.phase.Ending? && p.kind.End? && p.off == s.w.cursor && s'.w.phase == Ended(s.w.phase.req))
            || (s.w.phase.Open? && p.kind == Data(s.w.phase.req))
  {
    hide LE, FromLE, Image, PageEvents, ReaderNext, ValidRequest, OpenStores, PageEndStores, PageHeaderStores,
      Layout.WarmStores, Stride;
  }

  lemma StepEndsFull(c: Config, s: State, step: Step, s': State)
    requires WriterOK(c, s) && EndsFull(c.P, s) && Next(c, s, step, s')
    ensures EndsFull(c.P, s')
  {
    hide Next, Stride, ValidRequest;
    if s'.pub != s.pub {
      PublishingStep(c, s, step, s');
      assert forall i :: 0 <= i < |s.pub| ==> s'.pub[i] == s'.pub[..|s.pub|][i];
    } else if AfterEnd(s.w.phase) {
      QuietStep(c, s, step, s');
    }
  }

  lemma NoneEnded(c: Config, s: State)
    requires Init(c, s)
    ensures EndsFull(c.P, s)
  {
  }

  lemma {:induction false} RunEndsFull(c: Config, states: seq<State>, steps: seq<Step>, i: nat)
    requires Run(c, states, steps) && i < |states|
    ensures EndsFull(c.P, states[i])
    decreases i
  {
    hide Next, EndsFull, WriterOK;
    if i == 0 {
      NoneEnded(c, states[0]);
    } else {
      RunEndsFull(c, states, steps, i - 1);
      Reachable(c, states, steps, i - 1);
      StepEndsFull(c, states[i - 1], steps[i - 1], states[i]);
    }
  }

  /** A page is ended only for a frame that does not fit on it any more, and that frame comes next. */
  lemma PagesEndFull(c: Config, states: seq<State>, steps: seq<Step>, i: nat, n: nat)
    requires Run(c, states, steps) && i < |states| && n + 1 < |states[i].pub| && states[i].pub[n].kind.End?
    ensures var p, q := states[i].pub[n], states[i].pub[n + 1];
            && q.kind.Data? && (q.page, q.off) == (p.page + 1, 64)
            && p.off + FramePhysicalLength(|q.bytes|) > c.P - 64
  {
    hide Run, Next, Inv;
    RunEndsFull(c, states, steps, i);
    FrameLies(c, states, steps, i, n + 1);
    PublishedStream(c, states, steps, i, n + 1);
  }

  /** Frames of one page never overlap, and a frame that ends a page is the last on it. */
  lemma FramesTile(c: Config, states: seq<State>, steps: seq<Step>, i: nat, m: nat, n: nat)
    requires Run(c, states, steps) && i < |states| && m < n < |states[i].pub|
    ensures var p, q := states[i].pub[m], states[i].pub[n];
            && p.page <= q.page
            && (p.page == q.page ==> p.kind.Data? && p.off + FramePhysicalLength(|p.bytes|) <= q.off)
  {
    Reachable(c, states, steps, i);
    OrderedAt(c, states[i].pub, m, n);
  }

  lemma OrderedAt(c: Config, pub: seq<Pub>, m: nat, n: nat)
    requires ChainOK(c, pub) && m < n < |pub|
    ensures pub[m].page <= pub[n].page
    ensures pub[m].page == pub[n].page ==>
      pub[m].kind.Data? && pub[m].off + FramePhysicalLength(|pub[m].bytes|) <= pub[n].off
  {
    hide LE, FromLE, HeaderBytes, FramePhysicalLength, ChainOK;
    PositionsGrow(c, pub, m, n);
    ChainAt(c, pub, m);
    ChainAt(c, pub, n);
  }

  /** The cursor is aligned and never past the page's last slot, so PageEnd always fits. The published frames of
      the current page end exactly at the cursor between writes, and every byte from there on is zero; while
      a frame is being written the zeros begin behind its stride. */
  lemma NothingBehindCursor(c: Config, states: seq<State>, steps: seq<Step>, i: nat, a: nat)
    requires Run(c, states, steps) && i < |states| && Hi(states[i].w) <= a < c.P
    ensures var s := states[i];
            && 64 <= s.w.cursor <= c.P - 64 && s.w.cursor % 64 == 0 && s.w.cursor <= Hi(s.w) <= c.P
            && (s.w.phase == Idle ==> Hi(s.w) == s.w.cursor && Pos(c, s.pub, |s.pub|) == (s.w.page, s.w.cursor))
            && Val(c.base, s.log, s.w.page, a) == 0
  {
    hide Run, LE, FromLE, HeadersOK, MakingOK, RotationOK, ViewOK, ReadersOK, SlotOK, SafeOK, ChainOK,
      FramePhysicalLength;
    Reachable(c, states, steps, i);
    var s := states[i];
    forall k | 0 <= k < |s.log| && s.log[k].page == s.w.page
      ensures s.log[k].ZeroFrom(a)
    {
      assert EventOK(c, s.w, s.top, s.log[k]);
    }
    CleanBody(c, s.log, s.w.page, a);
  }

  /** Once PageEnd is published on page k, page k + 1 has a complete valid header, whichever way
      it was made. */
  lemma RotationOrdering(c: Config, states: seq<State>, steps: seq<Step>, i: nat, n: nat)
    requires Run(c, states, steps) && i < |states| && n < |states[i].pub| && states[i].pub[n].kind.End?
    ensures var s := states[i];
            var page := s.pub[n].page + 1;
            && page <= s.top
            && Image(c.base, s.log, page, 0, 12) == HeaderPrefix(c.P)
            && 64 <= FromLE(Image(c.base, s.log, page, 16, 8)) < c.P
  {
    hide Run, ValidConfig, WriterOK, WarmerOK, SlotOK, LogOK, ChainOK, FrontierOK, SafeOK, MakingOK, ViewOK,
      ReadersOK, Image, LE, FromLE, HeaderPrefix;
    Reachable(c, states, steps, i);
    var s := states[i];
    var page := s.pub[n].page + 1;
    HeaderInMemory(c, s, page);
  }

  // The last-frame position of a page with a complete header always lies within the page.
  lemma {:induction false} LfpInMemory(c: Config, log: Log, p: nat, g: int)
    requires HeaderOK(c, log, p, g)
    ensures 64 <= FromLE(Image(c.base, log, p, 16, 8)) < c.P
    decreases |log|
  {
    hide LE, FromLE, Val;
    if log == [] {
      assert g == -1;
      assert Image(c.base, log, p, 16, 8) == c.base[p][16..24] by { EmptyImage(c.base, p, 16, 8); }
    } else {
      var n := |log| - 1;
      var e := log[n];
      assert log == log[..n] + [e];
      if e.page == p && e.off < 64 {
        assert LfpStore(c.P, e);
        ImagePut(c.base, log[..n], e, p, 16, 8);
        assert Put(Image(c.base, log[..n], p, 16, 8), Store(0, e.bytes)) == e.bytes;
      } else {
        ImageAvoids(c.base, log[..n], e, p, 16, 8);
        ImageAvoids(c.base, log[..n], e, p, 0, 12);
        assert g < n;
        assert HeaderOK(c, log[..n], p, g);
        LfpInMemory(c, log[..n], p, g);
      }
    }
  }

  lemma HeaderInMemory(c: Config, s: State, p: nat)
    requires HeadersOK(c, s) && p in s.hdr
    ensures p <= s.top
    ensures Image(c.base, s.log, p, 0, 12) == HeaderPrefix(c.P)
    ensures 64 <= FromLE(Image(c.base, s.log, p, 16, 8)) < c.P
  {
    hide LE, FromLE, Image, HeaderPrefix;
    assert HeaderOK(c, s.log, p, s.hdr[p]);
    LfpInMemory(c, s.log, p, s.hdr[p]);
  }

  lemma EmptyImage(base: Disk, p: nat, lo: nat, n: nat)
    requires p in base && lo + n <= |base[p]|
    ensures Image(base, [], p, lo, n) == base[p][lo..lo + n]
  {
  }

  /** A reader that polls behind the last published frame can always load that frame's length,
      and every load that returns a length is of the next frame it has not consumed. */
  lemma ReaderCanProceed(c: Config, states: seq<State>, steps: seq<Step>, i: nat, id: nat)
    requires Run(c, states, steps) && i < |states| && id in states[i].readers
    requires states[i].readers[id].phase == Polling && Due(states[i].readers[id]) < |states[i].pub|
    ensures var s, r := states[i], states[i].readers[id];
            var p := s.pub[Due(r)];
            && |p.bytes| > 0 && p.idx < |s.log|
            && var r' := r.(view := r.view + s.log[p.idx].rel, phase := Loaded(|p.bytes|));
               ReaderNext(c, s, LoadLength(p.idx, LE(|p.bytes|, 4)), r, r')
  {
    hide Run, ValidConfig, WriterOK, WarmerOK, SlotOK, LogOK, FrontierOK, HeadersOK, MakingOK, RotationOK, ViewOK,
      Image, LE, FromLE, PubOK;
    Reachable(c, states, steps, i);
    var s, r := states[i], states[i].readers[id];
    assert ReaderOK(c, s.log, s.pub, r);
    assert FrameSafe(c.base, s.log, s.pub[Due(r)]);
    ChainAt(c, s.pub, Due(r));
    LoadableLength(c, s, Due(r), r.view);
  }

  lemma LoadableLength(c: Config, s: State, n: nat, view: set<nat>)
    requires ChainOK(c, s.pub) && n < |s.pub| && FrameSafe(c.base, s.log, s.pub[n])
    ensures var p := s.pub[n];
            && FromLE(LE(|p.bytes|, 4)) == |p.bytes|
            && WordLoad(c.base, s.log, view, p.page, p.off, 4, p.idx, LE(|p.bytes|, 4))
  {
    hide LE, FromLE, Image;
    var p := s.pub[n];
    assert PubOK(c, s.pub, n);
    LengthWord(|p.bytes|);
    forall k | p.idx < k < |s.log| && k in view
      ensures s.log[k].Avoids(p.page, p.off, p.off + 4)
    {
      assert s.log[k].Avoids(p.page, p.off, p.off + |p.bytes|);
    }
  }

  /** What the release of a frame's length makes visible is exactly every store so far on its page and the pages
      before, for PageEnd on the next page too; not what the warmer stores further ahead. */
  lemma ReleasesExactly(c: Config, states: seq<State>, steps: seq<Step>, i: nat, n: nat)
    requires Run(c, states, steps) && i < |states| && n < |states[i].pub|
    ensures var s := states[i];
            var p := s.pub[n];
            p.idx < |s.log| && forall k: nat :: k in s.log[p.idx].rel <==> k <= p.idx && s.log[k].page <= Covered(p)
  {
    hide Run, ValidConfig, WriterOK, WarmerOK, SlotOK, LogOK, ChainOK, FrontierOK, HeadersOK, MakingOK, RotationOK,
      ViewOK, ReadersOK, Image, LE;
    Reachable(c, states, steps, i);
    assert FrameSafe(c.base, states[i].log, states[i].pub[n]);
  }

  /** A reader may also miss a frame that is published: as long as its view holds no store to the length word, the load
      may return zero, and the reader polls again. */
  lemma ReaderMayMiss(c: Config, states: seq<State>, steps: seq<Step>, i: nat, id: nat)
    requires Run(c, states, steps) && i < |states| && id in states[i].readers && states[i].readers[id].phase == Polling
    requires var s, r := states[i], states[i].readers[id];
             forall k :: k in r.view && k < |s.log| ==> s.log[k].Avoids(r.page, r.off, r.off + 4)
    ensures var s, r := states[i], states[i].readers[id];
            ReaderNext(c, s, LoadLength(-1, Zeros(4)), r, r.(phase := Loaded(0)))
  {
    hide Run, Inv;
    Reachable(c, states, steps, i);
    var s, r := states[i], states[i].readers[id];
    ReaderIn(c, s, id);
    FromLEZero(Zeros(4));
    BaseIsZero(c, s, r);
  }

  lemma BaseIsZero(c: Config, s: State, r: Reader)
    requires Inv(c, s) && ReaderOK(c, s.log, s.pub, r) && r.phase == Polling
    ensures forall a :: r.off <= a < r.off + 4 ==> ByteOf(c.base, r.page, a) == 0
  {
    hide LE, FromLE, WriterOK, WarmerOK, SlotOK, LogOK, FrontierOK, HeadersOK, MakingOK, RotationOK, ViewOK,
      ReadersOK, Image, SafeOK;
    PosBound(c, s.pub, Due(r));
    if r.page in c.base {
      assert CleanPage(c.P, c.base, r.page);
    }
  }
}
