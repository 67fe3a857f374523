/** Chains of writer sessions: any session may stop between any two stores, and the next writer
    resumes from the page files it finds. */
module ResumeTheorems {
  import opened Layout
  import opened Memory
  import opened Protocol
  import opened ProtocolSafety
  import opened ProtocolProofs
  import opened ProtocolTheorems
  import opened Recovery
  import opened PageDecoding
  import opened LastFramePosition

  // The page files when a session stops in state s.
  ghost function DiskOf(c: Config, s: State): Disk {
    map p | 1 <= p <= s.top :: Image(c.base, s.log, p, 0, c.P)
  }

  ghost predicate Touched(img: Bytes) {
    exists a :: 64 <= a < |img| && img[a] != 0
  }

  // A caller can check this before resuming: the highest page with anything stored behind its
  // header says that a frame past the first one was closed on it.
  ghost predicate ResumeGuard(P: PageSize, disk: Disk, top: nat)
    requires Contiguous(P, disk, top)
  {
    forall p :: 1 <= p <= top && Touched(disk[p]) && (forall q :: p < q <= top ==> !Touched(disk[q])) ==>
      LfpOf(disk[p]) > PAGE_HEADER_SIZE
  }

  ghost function ResumeConfig(P: PageSize, disk: Disk, top: nat): Config
    requires Contiguous(P, disk, top)
  {
    var r := Resume(P, disk, top);
    Config(P, r.page, r.sequence, r.disk, r.top)
  }

  // How a session's start is tied to the page it resumes from.
  ghost predicate Linked(c: Config) {
    && Contiguous(c.P, c.base, c.top0) && c.sequence0 < SEQUENCE_MODULUS
    && (c.page0 == 1 ==> c.sequence0 == 0)
    && (c.page0 > 1 && c.page0 - 1 <= c.top0 ==>
          var img := c.base[c.page0 - 1];
          && Written(c.P, img) && Walk(c.P, img, 64) != []
          && (LastSequence(Walk(c.P, img, 64)) + 1) % SEQUENCE_MODULUS == c.sequence0)
  }

  // ---------- What the scan finds ----------

  lemma DiskContiguous(c: Config, s: State)
    ensures Contiguous(c.P, DiskOf(c, s), s.top)
  {
    hide Val;
  }

  lemma OldPage(c: Config, s: State, p: nat)
    requires LogOK(c, s.w, s.top, s.log) && p < c.page0 && p in c.base && |c.base[p]| == c.P
    ensures Image(c.base, s.log, p, 0, c.P) == c.base[p]
  {
    var img := Image(c.base, s.log, p, 0, c.P);
    forall i | 0 <= i < c.P
      ensures img[i] == c.base[p][i]
    {
      forall k | 0 <= k < |s.log|
        ensures s.log[k].page != p
      {
        assert EventOK(c, s.w, s.top, s.log[k]);
      }
      NoEvents(c.base, s.log, p, i);
    }
  }

  lemma {:induction false} NoEvents(base: Disk, log: Log, p: nat, a: nat)
    requires forall k :: 0 <= k < |log| ==> log[k].page != p
    ensures Val(base, log, p, a) == ByteOf(base, p, a)
    decreases |log|
  {
    if log != [] {
      NoEvents(base, log[..|log| - 1], p, a);
    }
  }

  lemma LfpOfImage(c: Config, s: State, p: nat)
    ensures LfpOf(Image(c.base, s.log, p, 0, c.P)) == Lfp(c, s.log, p)
  {
    hide Val, FromLE;
    ImageSlice(c.base, s.log, p, 0, c.P, 16, 24);
  }

  lemma PrefixOfImage(c: Config, s: State, p: nat)
    requires HeadersOK(c, s) && p in s.hdr
    ensures Image(c.base, s.log, p, 0, c.P)[0..12] == HeaderPrefix(c.P)
    ensures 64 <= Lfp(c, s.log, p) < c.P
  {
    hide Val, FromLE, HeaderPrefix, HeaderOK;
    ImageSlice(c.base, s.log, p, 0, c.P, 0, 12);
    HeaderInMemory(c, s, p);
  }

  // Among the session's pages the scan takes exactly those that point past their first frame.
  lemma WrittenInSession(c: Config, s: State, p: nat)
    requires Inv(c, s) && LfpOK(c, s) && c.page0 <= p <= s.top
    ensures Written(c.P, Image(c.base, s.log, p, 0, c.P)) <==> Lfp(c, s.log, p) > 64
  {
    hide LE, FromLE, Written, HeaderPrefix, HeaderOK, ValidConfig, WriterOK, LogOK, SlotOK, FrontierOK, MakingOK,
      RotationOK, ViewOK, ReadersOK, WarmerOK, ChainOK, SafeOK, Image;
    WrittenIff(c.P, Image(c.base, s.log, p, 0, c.P));
    LfpOfImage(c, s, p);
    if p in s.hdr {
      PrefixOfImage(c, s, p);
    } else {
      assert InProgress(s, p);
      InProgressAhead(c, s, p);
    }
  }

  lemma InProgressAhead(c: Config, s: State, p: nat)
    requires WarmerOK(c, s) && WriterOK(c, s) && LfpOK(c, s) && InProgress(s, p)
    ensures s.w.page < p <= s.top && Lfp(c, s.log, p) <= 64
  {
    hide Lfp;
  }

  // The page a resumed writer continues after.
  ghost function LastPage(c: Config, s: State): int {
    if Lfp(c, s.log, s.w.page) > 64 then s.w.page else s.w.page - 1
  }

  lemma ScanResult(c: Config, s: State)
    requires Inv(c, s) && LfpOK(c, s) && Linked(c)
    ensures LastPage(c, s) >= 0 && LastWritten(c.P, DiskOf(c, s), s.top) == LastPage(c, s)
  {
    hide LE, FromLE, Written, HeaderPrefix, HeaderOK, WarmerOK, LogOK, SlotOK, FrontierOK, MakingOK, RotationOK,
      ViewOK, ReadersOK, ChainOK, SafeOK, Image, Walk, Lfp, CleanPage;
    DiskContiguous(c, s);
    var disk, q := DiskOf(c, s), LastPage(c, s);
    forall p | q < p <= s.top
      ensures !Written(c.P, disk[p])
    {
      WrittenInSession(c, s, p);
    }
    if q >= c.page0 {
      WrittenInSession(c, s, q);
    } else if q > 0 {
      assert q == c.page0 - 1;
      OldPage(c, s, q);
    }
    LastWrittenIs(c.P, disk, s.top, q);
  }

  // ---------- Which pages have been touched ----------

  lemma AheadUntouched(c: Config, s: State, p: nat)
    requires ValidConfig(c) && LogOK(c, s.w, s.top, s.log) && c.page0 <= s.w.page < p
    ensures !Touched(Image(c.base, s.log, p, 0, c.P))
  {
    hide ValidConfig;
    var img := Image(c.base, s.log, p, 0, c.P);
    forall a | 64 <= a < c.P
      ensures img[a] == 0
    {
      forall k | 0 <= k < |s.log| && s.log[k].page == p
        ensures s.log[k].ZeroFrom(a)
      {
        assert EventOK(c, s.w, s.top, s.log[k]);
      }
      CleanBody(c, s.log, p, a);
    }
  }

  lemma NonzeroWordTouches(img: Bytes, a: nat)
    requires 64 <= a && a + 4 <= |img| && FromLE(img[a..a + 4]) != 0
    ensures Touched(img)
  {
    FromLEZero(img[a..a + 4]);
    var i :| 0 <= i < 4 && img[a..a + 4][i] != 0;
    assert img[a + i] != 0;
  }

  lemma FrameTouches(c: Config, s: State, n: nat)
    requires Inv(c, s) && n < |s.pub|
    ensures Touched(Image(c.base, s.log, s.pub[n].page, 0, c.P))
  {
    hide LE, FromLE, HeaderOK, WarmerOK, LogOK, SlotOK, FrontierOK, MakingOK, RotationOK, ViewOK, ReadersOK, ChainOK,
      SafeOK, Image, HeadersOK, ValidConfig, Touched;
    FrameInPage(c, s, n);
    PosBound(c, s.pub, n);
    ChainAt(c, s.pub, n);
    NonzeroWordTouches(Image(c.base, s.log, s.pub[n].page, 0, c.P), s.pub[n].off);
  }

  lemma WalkTouches(P: PageSize, img: Bytes)
    requires |img| == P && Walk(P, img, 64) != []
    ensures Touched(img)
  {
    hide FromLE, Touched, Walk;
    WalkStep(P, img, 64);
    NonzeroWordTouches(img, 64);
  }

  // The PageEnd that closed the page before the current one.
  lemma LastPageEnd(c: Config, s: State) returns (n: nat)
    requires Inv(c, s) && c.page0 < s.w.page
    ensures n < |s.pub| && s.pub[n].page == s.w.page - 1 && s.pub[n].kind.End? && Pos(c, s.pub, n + 1) == (s.w.page, 64)
    ensures (forall i :: 0 <= i < |s.pub| ==> s.pub[i].page != s.w.page) ==> n == |s.pub| - 1
  {
    hide LE, FromLE, HeaderBytes, HeadersOK, LogOK, SlotOK, MakingOK, RotationOK, ViewOK, ReadersOK, WarmerOK,
      ValidConfig, SafeOK, ChainOK;
    var m := FirstOnPage(c, s.pub, s.w.page, |s.pub|);
    n := m - 1;
    ChainAt(c, s.pub, n);
    if m < |s.pub| {
      ChainAt(c, s.pub, m);
    }
  }

  // The page before the current one is touched, and the scan accepts it.
  lemma BehindTouched(c: Config, s: State)
    requires Inv(c, s) && LfpOK(c, s) && Linked(c) && s.w.page > 1
    ensures Touched(Image(c.base, s.log, s.w.page - 1, 0, c.P)) && Lfp(c, s.log, s.w.page - 1) > 64
  {
    hide LE, FromLE, HeaderOK, WarmerOK, LogOK, SlotOK, FrontierOK, MakingOK, RotationOK, ViewOK, ReadersOK, ChainOK,
      SafeOK, Image, HeadersOK, Touched, Walk, Written, Lfp, HeaderPrefix;
    var q := s.w.page - 1;
    if q >= c.page0 {
      var n := LastPageEnd(c, s);
      FrameTouches(c, s, n);
    } else {
      OldPage(c, s, q);
      WalkTouches(c.P, c.base[q]);
      WrittenIff(c.P, c.base[q]);
      LfpOfImage(c, s, q);
    }
  }

  lemma LfpTouched(c: Config, s: State)
    requires Inv(c, s) && LfpOK(c, s) && Lfp(c, s.log, s.w.page) > 64
    ensures Touched(Image(c.base, s.log, s.w.page, 0, c.P))
  {
    hide Inv, Touched, Lfp;
    FrameTouches(c, s, |s.pub| - 1);
  }

  /** The guard on the page files says the same as the writer's own state: the current page points
      past its first frame, or nothing has been stored on it. */
  lemma GuardMeans(c: Config, s: State)
    requires Inv(c, s) && LfpOK(c, s) && Linked(c)
    ensures Contiguous(c.P, DiskOf(c, s), s.top)
    ensures ResumeGuard(c.P, DiskOf(c, s), s.top)
            <==> Lfp(c, s.log, s.w.page) > 64 || !Touched(Image(c.base, s.log, s.w.page, 0, c.P))
  {
    hide LE, FromLE, HeaderOK, WarmerOK, LogOK, SlotOK, FrontierOK, MakingOK, RotationOK, ViewOK, ReadersOK, ChainOK,
      SafeOK, Image, HeadersOK, Touched, Walk, Written, Lfp, LfpOK, Linked, CleanPage, LfpOf;
    DiskContiguous(c, s);
    var disk, p := DiskOf(c, s), s.w.page;
    forall q | p < q <= s.top
      ensures !Touched(disk[q])
    {
      AheadUntouched(c, s, q);
    }
    LfpOfImage(c, s, p);
    if Lfp(c, s.log, p) > 64 {
      LfpTouched(c, s);
    }
    if p > 1 {
      BehindTouched(c, s);
      LfpOfImage(c, s, p - 1);
    }
    assert disk[p] == Image(c.base, s.log, p, 0, c.P);
    if Lfp(c, s.log, p) > 64 || !Touched(disk[p]) {
      forall x | 1 <= x <= s.top && Touched(disk[x]) && (forall q :: x < q <= s.top ==> !Touched(disk[q]))
        ensures LfpOf(disk[x]) > PAGE_HEADER_SIZE
      {
        if x > p {
          assert false;
        } else if x < p {
          assert p - 1 in disk;
          assert x == p - 1;
        }
      }
    }
  }

  // ---------- Where the resumed writer starts ----------

  lemma LoadedBody(P: PageSize, img: Bytes)
    requires |img| == P
    ensures Touched(LoadedPage(P, img)) <==> Touched(img)
  {
    hide PutAll, FromLE;
    var r := LoadedPage(P, img);
    if LfpOf(img) == 0 {
      HeaderInitBody(P, img);
    }
    assert forall a :: 64 <= a < P ==> r[a] == img[a];
    assert Touched(r) == exists a :: 64 <= a < P && img[a] != 0;
  }

  // A page without a complete header has no last-frame position.
  lemma InProgressZero(c: Config, s: State, p: nat)
    requires MakingOK(c, s) && WarmerOK(c, s) && WriterOK(c, s) && InProgress(s, p)
    ensures LfpOf(Image(c.base, s.log, p, 0, c.P)) == 0
  {
    hide PutAll, LE, FromLE, Val, Image;
    var img := Image(c.base, s.log, p, 0, c.P);
    if s.w.phase.Heading? && p == s.w.page + 1 {
      PartialHeader(Zeros(c.P), PageHeaderStores(c.P)[..s.w.phase.k], c.P);
    } else {
      PartialHeader(Zeros(c.P), WarmStores(c.P)[..s.warmer.k], c.P);
    }
  }

  lemma {:induction false} PartialHeader(img: Bytes, stores: seq<Store>, n: nat)
    requires |img| == n >= 24 && StoresFit(stores, n)
    requires forall i :: 16 <= i < 24 ==> img[i] == 0
    requires forall j :: 0 <= j < |stores| ==>
               stores[j].off + |stores[j].bytes| <= 16 || forall i :: 0 <= i < |stores[j].bytes| ==>
                   stores[j].bytes[i] == 0
    ensures LfpOf(PutAll(img, stores)) == 0
    decreases |stores|
  {
    hide FromLE, LE;
    if stores == [] {
      FromLEZero(img[16..24]);
    } else {
      var img' := Put(img, stores[0]);
      forall i | 16 <= i < 24
        ensures img'[i] == 0
      {
        PutAt(img, stores[0], i);
      }
      PartialHeader(img', stores[1..], n);
    }
  }

  // Every page from the resumed one on is clean once it has been loaded.
  lemma LoadedClean(c: Config, s: State, p: nat)
    requires Inv(c, s) && LfpOK(c, s) && c.page0 <= p <= s.top
    requires Lfp(c, s.log, p) <= 64 && !Touched(Image(c.base, s.log, p, 0, c.P))
    ensures var img := LoadedPage(c.P, Image(c.base, s.log, p, 0, c.P));
            ValidPageHeader(c.P, img) && LfpOf(img) == 64 && forall a :: 64 <= a < c.P ==> img[a] == 0
  {
    hide LE, FromLE, HeaderOK, LogOK, SlotOK, FrontierOK, RotationOK, ViewOK, ReadersOK, ChainOK, SafeOK, Image,
      ValidConfig, PutAll, Lfp, HeaderPrefix;
    var img := Image(c.base, s.log, p, 0, c.P);
    LfpOfImage(c, s, p);
    if p in s.hdr {
      PrefixOfImage(c, s, p);
    } else {
      InProgressZero(c, s, p);
      HeaderInitBody(c.P, img);
    }
  }

  lemma CleanZeros(P: PageSize, page: nat, disk: Disk)
    requires page in disk && disk[page] == LoadedPage(P, Zeros(P))
    ensures CleanPage(P, disk, page)
  {
    hide PutAll, LE, ValidPageHeader;
    FromLEZero(Zeros(P)[16..24]);
    HeaderInitBody(P, Zeros(P));
  }

  // The files after resuming: pages up to the last written one as they were, later ones loaded.
  lemma ResumedDisk(P: PageSize, disk: Disk, top: nat)
    requires Contiguous(P, disk, top)
    ensures var r, q := Resume(P, disk, top), LastWritten(P, disk, top);
            && r.page == q + 1 && q <= top && Contiguous(P, r.disk, r.top) && r.top == (if q < top then top else q + 1)
            && (forall p :: 1 <= p <= q ==> r.disk[p] == disk[p])
            && (forall p :: q < p <= top ==> r.disk[p] == LoadedPage(P, disk[p]))
            && (q == top ==> r.disk[q + 1] == LoadedPage(P, Zeros(P)))
  {
    hide LoadedPage, LastWritten, Written, Walk, LastSequence;
    LastWrittenIsHighest(P, disk, top);
  }

  /** A resumed writer starts on an untouched page exactly when the guard holds. */
  lemma ResumeUntouchedIff(c: Config, s: State)
    requires Inv(c, s) && LfpOK(c, s) && Linked(c)
    ensures Contiguous(c.P, DiskOf(c, s), s.top)
    ensures var r := Resume(c.P, DiskOf(c, s), s.top);
            && r.page in r.disk
            && (!Touched(r.disk[r.page]) <==> ResumeGuard(c.P, DiskOf(c, s), s.top))
  {
    hide LE, FromLE, HeaderOK, WarmerOK, LogOK, SlotOK, FrontierOK, MakingOK, RotationOK, ViewOK, ReadersOK, ChainOK,
      SafeOK, Image, HeadersOK, Touched, Walk, Written, Lfp, LfpOK, Linked, ResumeGuard, CleanPage, LoadedPage,
      Resume;
    GuardMeans(c, s);
    ScanResult(c, s);
    ResumedDisk(c.P, DiskOf(c, s), s.top);
    var p := s.w.page;
    if Lfp(c, s.log, p) > 64 {
      if p + 1 <= s.top {
        AheadUntouched(c, s, p + 1);
        LoadedBody(c.P, Image(c.base, s.log, p + 1, 0, c.P));
      } else {
        UntouchedZeros(c.P);
      }
    } else {
      LoadedBody(c.P, Image(c.base, s.log, p, 0, c.P));
    }
  }

  // Whether the last-frame position of some page is not stored yet.
  ghost predicate HeaderUnderWay(c: Config, s: State) {
    exists p :: c.page0 <= p <= s.top && InProgress(s, p)
  }

  /** Without prefaulting, where the pages are mapped read-only, the scan of a resuming writer faults if and
      only if the interrupted session had stopped while a page header was being made. */
  lemma ScanFaultsIff(c: Config, s: State)
    requires Inv(c, s) && LfpOK(c, s) && Linked(c)
    ensures Contiguous(c.P, DiskOf(c, s), s.top)
    ensures var disk := DiskOf(c, s);
            Unfinished(c.P, disk, LastWritten(c.P, disk, s.top), s.top) <==> HeaderUnderWay(c, s)
  {
    hide LE, FromLE, HeaderOK, WarmerOK, LogOK, SlotOK, FrontierOK, MakingOK, RotationOK, ViewOK, ReadersOK, ChainOK,
      SafeOK, Image, HeadersOK, Walk, Written, Lfp, LfpOK, Linked, CleanPage, ValidConfig, LastWritten, LfpOf,
      InProgress;
    ScanResult(c, s);
    DiskContiguous(c, s);
    var disk, q := DiskOf(c, s), LastWritten(c.P, DiskOf(c, s), s.top);
    forall p | c.page0 <= p <= s.top && InProgress(s, p)
      ensures q < p && LfpOf(disk[p]) == 0
    {
      InProgressAhead(c, s, p);
      InProgressZero(c, s, p);
    }
    forall p | q < p <= s.top && !InProgress(s, p)
      ensures LfpOf(disk[p]) != 0
    {
      HeaderDone(c, s, p);
    }
  }

  lemma HeaderDone(c: Config, s: State, p: nat)
    requires HeadersOK(c, s) && c.page0 <= p <= s.top && !InProgress(s, p)
    ensures 64 <= LfpOf(Image(c.base, s.log, p, 0, c.P)) && p in s.hdr
  {
    hide LE, FromLE, HeaderOK, Image, Lfp, LfpOf;
    PrefixOfImage(c, s, p);
    LfpOfImage(c, s, p);
  }

  /** The page a resuming writer starts on always passes the checks of its header. */
  lemma ResumeNeverRejected(c: Config, s: State)
    requires Inv(c, s) && LfpOK(c, s) && Linked(c)
    ensures Contiguous(c.P, DiskOf(c, s), s.top)
    ensures var r := Resume(c.P, DiskOf(c, s), s.top);
            r.page in r.disk && |r.disk[r.page]| == c.P && Accepted(c.P, r.disk[r.page])
  {
    hide LE, FromLE, HeaderOK, WarmerOK, LogOK, SlotOK, FrontierOK, MakingOK, RotationOK, ViewOK, ReadersOK, ChainOK,
      SafeOK, Image, HeadersOK, Walk, Written, Lfp, LfpOK, Linked, CleanPage, ValidConfig, LastWritten, LfpOf,
      InProgress, LoadedPage, Accepted, Resume;
    ScanResult(c, s);
    DiskContiguous(c, s);
    ResumedDisk(c.P, DiskOf(c, s), s.top);
    var p := LastPage(c, s) + 1;
    if p <= s.top {
      LoadedAccepted(c, s, p);
    } else {
      ZerosAccepted(c.P);
    }
  }

  lemma LoadedAccepted(c: Config, s: State, p: nat)
    requires HeadersOK(c, s) && MakingOK(c, s) && WarmerOK(c, s) && WriterOK(c, s) && c.page0 <= p <= s.top
    ensures Accepted(c.P, LoadedPage(c.P, Image(c.base, s.log, p, 0, c.P)))
  {
    hide LE, FromLE, HeaderOK, Image, Lfp, PutAll, HeaderPrefix, InProgress, PageHeaderStores, HeadersOK, MakingOK,
      WarmerOK, WriterOK;
    var img := Image(c.base, s.log, p, 0, c.P);
    if InProgress(s, p) {
      InProgressZero(c, s, p);
      PageHeaderStoresResult(c.P, img);
    } else {
      HeaderDone(c, s, p);
      PrefixOfImage(c, s, p);
      LfpOfImage(c, s, p);
    }
  }

  lemma ZerosAccepted(P: PageSize)
    ensures Accepted(P, LoadedPage(P, Zeros(P)))
  {
    hide LE, FromLE, PutAll, HeaderPrefix, PageHeaderStores;
    FromLEZero(Zeros(P)[16..24]);
    PageHeaderStoresResult(P, Zeros(P));
  }

  lemma UntouchedZeros(P: PageSize)
    ensures !Touched(LoadedPage(P, Zeros(P)))
  {
    hide LoadedPage;
    LoadedBody(P, Zeros(P));
  }

  lemma ResumeConfigClean(c: Config, s: State)
    requires Inv(c, s) && LfpOK(c, s) && Linked(c)
    requires Contiguous(c.P, DiskOf(c, s), s.top) && ResumeGuard(c.P, DiskOf(c, s), s.top)
    ensures ValidConfig(ResumeConfig(c.P, DiskOf(c, s), s.top))
  {
    hide LE, FromLE, HeaderOK, WarmerOK, LogOK, SlotOK, FrontierOK, MakingOK, RotationOK, ViewOK, ReadersOK, ChainOK,
      SafeOK, Image, HeadersOK, Touched, Walk, Written, Lfp, Linked, ResumeGuard, LoadedPage, Resume, ValidPageHeader;
    GuardMeans(c, s);
    ScanResult(c, s);
    ResumedDisk(c.P, DiskOf(c, s), s.top);
    var r := Resume(c.P, DiskOf(c, s), s.top);
    forall p | r.page <= p <= r.top
      ensures CleanPage(c.P, r.disk, p)
    {
      if p <= s.top {
        if p > s.w.page {
          AheadUntouched(c, s, p);
        }
        LoadedClean(c, s, p);
      } else {
        CleanZeros(c.P, p, r.disk);
      }
    }
  }

  /** The files left behind meet every assumption of a new session exactly when the guard holds: otherwise the
      new writer's cursor stands on bytes that the old one left. */
  lemma ResumeConfigValid(c: Config, s: State)
    requires Inv(c, s) && LfpOK(c, s) && Linked(c)
    ensures Contiguous(c.P, DiskOf(c, s), s.top)
    ensures ValidConfig(ResumeConfig(c.P, DiskOf(c, s), s.top)) <==> ResumeGuard(c.P, DiskOf(c, s), s.top)
  {
    hide Inv, LfpOK, Linked, ResumeGuard, Touched, Resume, ValidPageHeader, FromLE;
    ResumeUntouchedIff(c, s);
    var r := ResumeConfig(c.P, DiskOf(c, s), s.top);
    if ResumeGuard(c.P, DiskOf(c, s), s.top) {
      ResumeConfigClean(c, s);
    } else if ValidConfig(r) {
      assert CleanPage(c.P, r.base, r.page0);
      CleanUntouched(r.base[r.page0]);
    }
  }

  lemma CleanUntouched(img: Bytes)
    requires forall a :: 64 <= a < |img| ==> img[a] == 0
    ensures !Touched(img)
  {
  }

  // ---------- Which sequence number comes next ----------

  lemma {:induction false} LastOnPage(pub: seq<Pub>, p: nat, n: nat, last: nat)
    requires n <= last < |pub| && pub[last].page == p && forall i :: last < i < |pub| ==> pub[i].page != p
    ensures FramesOn(pub, p, n) != [] && FramesOn(pub, p, n)[|FramesOn(pub, p, n)| - 1] == pub[last].bytes
    decreases last - n
  {
    if n < last {
      LastOnPage(pub, p, n + 1, last);
    } else {
      NoneLeft(pub, p, last + 1);
    }
  }

  lemma {:induction false} NoneLeft(pub: seq<Pub>, p: nat, n: nat)
    requires n <= |pub| && forall i :: n <= i < |pub| ==> pub[i].page != p
    ensures FramesOn(pub, p, n) == []
    decreases |pub| - n
  {
    if n < |pub| {
      NoneLeft(pub, p, n + 1);
    }
  }

  // The walk of a page ends with the last frame published on it.
  lemma LastFrameWalked(c: Config, s: State, p: nat, last: nat)
    requires Inv(c, s) && last < |s.pub| && s.pub[last].page == p && c.page0 <= p <= s.w.page
    requires forall i :: last < i < |s.pub| ==> s.pub[i].page != p
    ensures var frames := Walk(c.P, Image(c.base, s.log, p, 0, c.P), 64);
            && frames != []
            && (LastSequence(frames) + 1) % SEQUENCE_MODULUS == (c.sequence0 + last + 1) % SEQUENCE_MODULUS
  {
    hide Inv, Walk, Image, PubOK;
    PageDecodesIn(c, s, p);
    LastOnPage(s.pub, p, 0, last);
    assert SequenceOf(s.pub[last].bytes) == (c.sequence0 + last) % SEQUENCE_MODULUS by { PubSequence(c, s, last); }
    NextSequence(c.sequence0 + last);
  }

  lemma PubSequence(c: Config, s: State, n: nat)
    requires Inv(c, s) && n < |s.pub|
    ensures |s.pub[n].bytes| >= 32 && SequenceOf(s.pub[n].bytes) == (c.sequence0 + n) % SEQUENCE_MODULUS
  {
    FrameFields(c, s.pub, n);
  }

  lemma NextSequence(v: nat)
    ensures (v % SEQUENCE_MODULUS + 1) % SEQUENCE_MODULUS == (v + 1) % SEQUENCE_MODULUS
  {
  }

  lemma UntouchedEmpty(c: Config, s: State)
    requires Inv(c, s) && !Touched(Image(c.base, s.log, s.w.page, 0, c.P))
    ensures forall i :: 0 <= i < |s.pub| ==> s.pub[i].page != s.w.page
  {
    hide Inv, Touched, Image;
    forall i | 0 <= i < |s.pub|
      ensures s.pub[i].page != s.w.page
    {
      FrameTouches(c, s, i);
    }
  }

  // How many frames lie behind the writer's current page; the others are on it, from its first slot on.
  lemma FramesBefore(c: Config, s: State) returns (m: nat)
    requires Inv(c, s)
    ensures m <= |s.pub| && (m > 0 <==> c.page0 < s.w.page)
    ensures forall i :: 0 <= i < m ==> s.pub[i].page < s.w.page
    ensures forall i :: m <= i < |s.pub| ==> s.pub[i].page == s.w.page
    ensures m > 0 ==> s.pub[m - 1].page == s.w.page - 1
    ensures m < |s.pub| ==> s.pub[m].off == 64
    ensures Pos(c, s.pub, m) == (s.w.page, 64)
  {
    hide LE, FromLE, HeaderBytes, HeadersOK, LogOK, SlotOK, MakingOK, RotationOK, ViewOK, ReadersOK, WarmerOK,
      ValidConfig, SafeOK, ChainOK;
    m := FirstOnPage(c, s.pub, s.w.page, |s.pub|);
    if m > 0 {
      ChainAt(c, s.pub, m - 1);
      PosBound(c, s.pub, m - 1);
    }
    forall i | m <= i < |s.pub|
      ensures s.pub[i].page == s.w.page
    {
      PageOrder(c, s.pub, m, i);
      ChainAt(c, s.pub, i);
    }
    if m < |s.pub| {
      ChainAt(c, s.pub, m);
    }
  }

  /** The next sequence number is always the one after the last frame behind the page that the resumed writer
      starts on. Frames on that page itself, if any, start in its first slot. */
  lemma ResumedSequence(c: Config, s: State) returns (m: nat)
    requires Inv(c, s) && LfpOK(c, s) && Linked(c)
    ensures Contiguous(c.P, DiskOf(c, s), s.top) && m <= |s.pub|
    ensures var r := Resume(c.P, DiskOf(c, s), s.top);
            && r.sequence == (c.sequence0 + m) % SEQUENCE_MODULUS
            && (forall i :: 0 <= i < m ==> s.pub[i].page < r.page)
            && (forall i :: m <= i < |s.pub| ==> s.pub[i].page == r.page)
            && (m < |s.pub| ==> s.pub[m].off == 64 && r.page == s.w.page)
            && (Lfp(c, s.log, s.w.page) > 64 ==> m == |s.pub|)
            && (Lfp(c, s.log, s.w.page) <= 64 ==> r.page == s.w.page)
    ensures var q := LastWritten(c.P, DiskOf(c, s), s.top);
            q > 0 ==> q <= s.top && Walk(c.P, DiskOf(c, s)[q], 64) != []
  {
    hide Inv, LfpOK, Linked, Touched, Walk, Written, Lfp, LoadedPage, LastSequence, LastWritten, Image;
    DiskContiguous(c, s);
    ScanResult(c, s);
    WriterPage(c, s);
    m := FramesBefore(c, s);
    if Lfp(c, s.log, s.w.page) > 64 {
      PublishedHere(c, s, m);
      LastFrameWalked(c, s, s.w.page, |s.pub| - 1);
      m := |s.pub|;
    } else if m > 0 {
      LastFrameWalked(c, s, s.w.page - 1, m - 1);
    } else {
      ResumedFromBase(c, s);
    }
  }

  lemma WriterPage(c: Config, s: State)
    requires Inv(c, s)
    ensures 1 <= c.page0 <= s.w.page <= s.top
    ensures forall i :: 0 <= i < |s.pub| ==> s.pub[i].page <= s.w.page
  {
    hide LE, FromLE, HeaderOK, WarmerOK, LogOK, SlotOK, MakingOK, RotationOK, ViewOK, ReadersOK, ChainOK, SafeOK,
      HeadersOK, CleanPage, FramePhysicalLength;
  }

  // Past its first frame a page holds a published one.
  lemma PublishedHere(c: Config, s: State, m: nat)
    requires Inv(c, s) && LfpOK(c, s) && Lfp(c, s.log, s.w.page) > 64
    requires m <= |s.pub| && forall i :: 0 <= i < m ==> s.pub[i].page < s.w.page
    ensures m < |s.pub|
  {
    hide Inv, Lfp;
  }

  // Where nothing was written before the current page by this session, the number is that of its start.
  lemma ResumedFromBase(c: Config, s: State)
    requires Inv(c, s) && LfpOK(c, s) && Linked(c) && s.w.page == c.page0 && Lfp(c, s.log, s.w.page) <= 64
    ensures c.page0 >= 1 && Contiguous(c.P, DiskOf(c, s), s.top)
    ensures LastWritten(c.P, DiskOf(c, s), s.top) == c.page0 - 1
    ensures Resume(c.P, DiskOf(c, s), s.top).sequence == c.sequence0 % SEQUENCE_MODULUS
    ensures c.page0 > 1 ==> c.page0 - 1 <= s.top && Walk(c.P, DiskOf(c, s)[c.page0 - 1], 64) != []
  {
    hide LE, FromLE, HeaderOK, WarmerOK, LogOK, SlotOK, MakingOK, RotationOK, ViewOK, ReadersOK, ChainOK, SafeOK,
      Image, HeadersOK, Touched, Walk, Written, Lfp, LfpOK, LoadedPage, CleanPage, LastSequence, LastWritten,
      FrontierOK;
    DiskContiguous(c, s);
    ScanResult(c, s);
    if c.page0 > 1 {
      OldPage(c, s, c.page0 - 1);
    }
  }

  /** Under the guard the next sequence number is the one after the last published frame. */
  lemma ResumeSequence(c: Config, s: State)
    requires Inv(c, s) && LfpOK(c, s) && Linked(c)
    requires Contiguous(c.P, DiskOf(c, s), s.top) && ResumeGuard(c.P, DiskOf(c, s), s.top)
    ensures Resume(c.P, DiskOf(c, s), s.top).sequence == (c.sequence0 + |s.pub|) % SEQUENCE_MODULUS
    ensures var q := LastWritten(c.P, DiskOf(c, s), s.top);
            q > 0 ==> q <= s.top && Walk(c.P, DiskOf(c, s)[q], 64) != []
  {
    hide Inv, LfpOK, Linked, Touched, Walk, Written, Lfp, ResumeGuard, LastSequence, Resume, Image, LastWritten;
    GuardMeans(c, s);
    var m := ResumedSequence(c, s);
    if Lfp(c, s.log, s.w.page) <= 64 {
      UntouchedEmpty(c, s);
    }
  }
}
