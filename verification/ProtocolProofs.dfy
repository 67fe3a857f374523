/** Every step of the protocol keeps the invariant. */
module ProtocolProofs {
  import opened Layout
  import opened Memory
  import opened Protocol
  import opened ProtocolSafety

  // ---------- Appending one store ----------

  lemma FrameSafeAppend(base: Disk, log: Log, e: Event, p: Pub)
    requires FrameSafe(base, log, p) && e.Avoids(p.page, p.off, p.off + |p.bytes|)
    ensures FrameSafe(base, log + [e], p)
  {
    var log' := log + [e];
    assert log'[p.idx] == log[p.idx];
    ImageAvoids(base, log, e, p.page, p.off, |p.bytes|);
    forall k | 0 <= k < |log'| && k != p.idx && log'[k].page == p.page
      ensures log'[k].ZeroOn(p.off, 4)
    {
      if k < |log| {
        assert log'[k] == log[k];
      }
    }
  }

  // A store that leaves every published frame alone.
  ghost predicate Harmless(w: Writer, e: Event) {
    && e.page >= w.page
    && (e.page == w.page ==> e.off + |e.bytes| <= 64 || e.off >= Lo(w))
  }

  lemma SafeAppend(c: Config, log: Log, pub: seq<Pub>, w: Writer, e: Event)
    requires SafeOK(c.base, log, pub) && FrontierOK(c, pub, w) && ChainOK(c, pub) && Harmless(w, e)
    ensures SafeOK(c.base, log + [e], pub)
  {
    forall i | 0 <= i < |pub|
      ensures FrameSafe(c.base, log + [e], pub[i])
    {
      assert PubOK(c, pub, i);
      assert FrameSafe(c.base, log, pub[i]);
      assert pub[i].off + |pub[i].bytes| <= pub[i].off + FramePhysicalLength(|pub[i].bytes|);
      FrameSafeAppend(c.base, log, e, pub[i]);
    }
  }

  lemma ReaderAppend(c: Config, log: Log, log': Log, pub: seq<Pub>, pub': seq<Pub>, r: Reader)
    requires ReaderOK(c, log, pub, r)
    requires log <= log' && pub <= pub'
    requires forall i :: |pub| <= i < |pub'| ==> pub'[i].idx < |log'|
    ensures ReaderOK(c, log', pub', r)
  {
    forall i | 0 <= i < |pub'|
      ensures pub'[i].idx < |log'|
    {
      if i < |pub| {
        assert pub'[i] == pub[i];
      }
    }
    assert forall i :: 0 <= i < |log| ==> log'[i] == log[i];
    assert forall i :: 0 <= i < |pub| ==> pub'[i] == pub[i];
  }

  lemma ReadersAppend(c: Config, log: Log, log': Log, pub: seq<Pub>, pub': seq<Pub>, readers: map<nat, Reader>)
    requires ReadersOK(c, log, pub, readers)
    requires log <= log' && pub <= pub'
    requires forall i :: |pub| <= i < |pub'| ==> pub'[i].idx < |log'|
    ensures ReadersOK(c, log', pub', readers)
  {
    forall id | id in readers
      ensures ReaderOK(c, log', pub', readers[id])
    {
      ReaderAppend(c, log, log', pub, pub', readers[id]);
    }
  }

  // A store that leaves a completed header of page p alone.
  ghost predicate SparesHeader(P: PageSize, e: Event, p: nat) {
    e.page == p ==> e.off >= 64 || LfpStore(P, e)
  }

  lemma HeaderAppend(c: Config, log: Log, e: Event, p: nat, g: int)
    requires HeaderOK(c, log, p, g) && SparesHeader(c.P, e, p)
    ensures HeaderOK(c, log + [e], p, g)
  {
    var log' := log + [e];
    ImageAvoids(c.base, log, e, p, 0, 12);
    forall k | g < k < |log'| && log'[k].page == p
      ensures log'[k].off >= 64 || LfpStore(c.P, log'[k])
    {
      if k < |log| {
        assert log'[k] == log[k];
      }
    }
    if g >= 0 {
      assert log'[g] == log[g];
    }
  }

  lemma HeadersAppend(c: Config, s: State, e: Event)
    requires HeadersOK(c, s)
    requires forall p :: p in s.hdr ==> SparesHeader(c.P, e, p)
    ensures HeadersOK(c, s.(log := s.log + [e]))
  {
    forall p | p in s.hdr
      ensures HeaderOK(c, s.log + [e], p, s.hdr[p])
    {
      assert SparesHeader(c.P, e, p);
      HeaderAppend(c, s.log, e, p, s.hdr[p]);
    }
  }

  lemma LogAppend(c: Config, w: Writer, top: nat, log: Log, w': Writer, e: Event)
    requires LogOK(c, w, top, log)
    requires w'.page == w.page && Hi(w') == Hi(w) && Lo(w') == Lo(w)
    requires EventOK(c, w', top, e)
    ensures LogOK(c, w', top, log + [e])
  {
    var log' := log + [e];
    forall k | 0 <= k < |log'|
      ensures EventOK(c, w', top, log'[k])
    {
      if k < |log| {
        assert log'[k] == log[k] && EventOK(c, w, top, log[k]);
      }
    }
  }

  // Memory beyond the stores of the log is as zero as the base image.
  lemma CleanBody(c: Config, log: Log, p: nat, a: nat)
    requires ValidConfig(c) && c.page0 <= p && 64 <= a
    requires forall k :: 0 <= k < |log| && log[k].page == p ==> log[k].ZeroFrom(a)
    ensures Val(c.base, log, p, a) == 0
  {
    forall k | 0 <= k < |log| && log[k].page == p
      ensures log[k].ZeroOn(a, 1)
    {
      assert log[k].ZeroFrom(a);
    }
    if p in c.base {
      assert CleanPage(c.P, c.base, p);
    }
    ValZero(c.base, log, p, a);
  }

  lemma LogWiden(c: Config, w: Writer, top: nat, log: Log, w': Writer, top': nat)
    requires LogOK(c, w, top, log)
    requires w'.page == w.page && Hi(w) <= Hi(w') && Lo(w') == Lo(w) && top <= top'
    ensures LogOK(c, w', top', log)
  {
    forall k | 0 <= k < |log|
      ensures EventOK(c, w', top', log[k])
    {
      assert EventOK(c, w, top, log[k]);
    }
  }

  // Nothing has been stored where the next frame goes.
  lemma FreshSlot(c: Config, s: State)
    requires Inv(c, s) && Hi(s.w) == s.w.cursor
    ensures Image(c.base, s.log, s.w.page, s.w.cursor, 32) == Zeros(32)
  {
    hide WarmerOK, SlotOK, ChainOK, FrontierOK, SafeOK, HeadersOK, MakingOK, RotationOK, ViewOK, ReadersOK, Val, Stride;
    var w := s.w;
    var slot := Image(c.base, s.log, w.page, w.cursor, 32);
    forall i | 0 <= i < 32
      ensures slot[i] == 0
    {
      forall k | 0 <= k < |s.log| && s.log[k].page == w.page
        ensures s.log[k].ZeroFrom(w.cursor + i)
      {
        assert EventOK(c, w, s.top, s.log[k]);
      }
      CleanBody(c, s.log, w.page, w.cursor + i);
    }
  }

  lemma FreshPage(c: Config, s: State)
    requires Inv(c, s)
    ensures Image(c.base, s.log, s.top + 1, 0, c.P) == Zeros(c.P)
  {
    var page := Image(c.base, s.log, s.top + 1, 0, c.P);
    forall i | 0 <= i < c.P
      ensures page[i] == 0
    {
      forall k | 0 <= k < |s.log|
        ensures s.log[k].page != s.top + 1
      {
        assert EventOK(c, s.w, s.top, s.log[k]);
      }
      ValZero(c.base, s.log, s.top + 1, i);
    }
  }

  // ---------- Steps of the writer that store nothing ----------

  lemma PutNone(img: Bytes, stores: seq<Store>)
    requires StoresFit(stores, |img|)
    ensures stores[..0] == [] && PutAll(img, stores[..0]) == img
  {
  }

  lemma BeginWriteKeeps(c: Config, s: State, req: Request, s': State)
    requires Inv(c, s) && WriterNext(c, s, BeginWrite(req), s')
    ensures Inv(c, s')
  {
    hide ValidConfig, SafeOK, ChainOK, ReadersOK, LogOK, HeaderOK, RotationOK, PutAll, LE, Val, OpenStores;
    LogWiden(c, s.w, s.top, s.log, s'.w, s'.top);
    FreshSlot(c, s);
    PutNone(Zeros(32), OpenStores(req.timestamp, req.msgType, req.flags, s'.w.sequence - 1));
  }

  lemma NextPageKeeps(c: Config, s: State, now: int, s': State)
    requires Inv(c, s) && (WriterNext(c, s, ClaimWarmed(now), s') || WriterNext(c, s, LoadExisting(now), s'))
    ensures Inv(c, s')
  {
    hide ValidConfig, SafeOK, ChainOK, ReadersOK, LogOK, HeaderOK, RotationOK, PutAll, LE, Val, PageEndStores;
    LogWiden(c, s.w, s.top, s.log, s'.w, s'.top);
    FreshSlot(c, s);
    PutNone(Zeros(32), PageEndStores(now, s'.w.sequence - 1));
  }

  lemma SameFrontier(c: Config, pub: seq<Pub>, w: Writer, w': Writer)
    requires FrontierOK(c, pub, w) && w'.page == w.page && Lo(w') == Lo(w) && !w.phase.Ended? && !w'.phase.Ended?
    ensures FrontierOK(c, pub, w')
  {
  }

  lemma LoadNewMakes(c: Config, s: State, s': State)
    requires MakingOK(c, s) && Image(c.base, s.log, s.top + 1, 0, c.P) == Zeros(c.P)
    requires s'.log == s.log && s'.warmer == s.warmer && s'.w.page + 1 == s.top + 1
    requires s'.w.phase.Heading? && s'.w.phase.k == 0
    ensures MakingOK(c, s')
  {
    hide PutAll, LE, Image, PageHeaderStores, WarmStores;
    PutNone(Zeros(c.P), PageHeaderStores(c.P));
    assert PageHeaderStores(c.P)[..0] == [];
  }

  lemma LoadNewKeeps(c: Config, s: State, s': State)
    requires Inv(c, s) && WriterNext(c, s, LoadNew, s')
    ensures Inv(c, s')
  {
    hide ValidConfig, SafeOK, ChainOK, ReadersOK, HeaderOK, RotationOK, FrontierOK, MakingOK, PutAll, LE, Image,
      PageHeaderStores;
    LogWiden(c, s.w, s.top, s.log, s'.w, s'.top);
    FreshPage(c, s);
    LoadNewMakes(c, s, s');
    assert FrontierOK(c, s.pub, s'.w) by { SameFrontier(c, s.pub, s.w, s'.w); }
    forall k | 0 <= k < |s.log| && s.log[k].page <= Reach(s'.w)
      ensures k in s.w.view
    {
      assert EventOK(c, s.w, s.top, s.log[k]);
    }
  }

  lemma HeaderDoneKeeps(c: Config, s: State, now: int, s': State)
    requires Inv(c, s) && WriterNext(c, s, HeaderDone(now), s')
    ensures Inv(c, s')
  {
    hide ValidConfig, SafeOK, ChainOK, ReadersOK, LogOK, HeaderOK, RotationOK, PutAll, LE, Val, PageEndStores;
    LogWiden(c, s.w, s.top, s.log, s'.w, s'.top);
    FreshSlot(c, s);
    PutNone(Zeros(32), PageEndStores(now, s'.w.sequence - 1));
  }

  lemma FilledHeader(img: Bytes, req: Request, q: int)
    requires |img| == 32
    requires img == PutAll(Zeros(32), OpenStores(req.timestamp, req.msgType, req.flags, q)[..7])
    ensures img[4..6] == LE(req.msgType, 2) && img[8..16] == LE(q, 8)
  {
    hide PutAll, LE;
    var stores := OpenStores(req.timestamp, req.msgType, req.flags, q);
    assert stores[..7] == stores;
    OpenStoresResult(Zeros(32), req.timestamp, req.msgType, req.flags, q);
    HeaderFields(0, req.msgType, req.flags, q, req.timestamp, 0);
  }

  lemma FillDoneKeeps(c: Config, s: State, s': State)
    requires Inv(c, s) && WriterNext(c, s, FillDone, s')
    ensures Inv(c, s')
  {
    hide ValidConfig, SafeOK, ChainOK, ReadersOK, LogOK, HeaderOK, RotationOK, PutAll, LE, Val, OpenStores;
    LogWiden(c, s.w, s.top, s.log, s'.w, s'.top);
    FilledHeader(Image(c.base, s.log, s.w.page, s.w.cursor, 32), s.w.phase.req, s.w.sequence - 1);
  }

  // ---------- Plain stores of the writer ----------

  /** Executing the k-th store of a list advances the image by that store. */
  lemma ImageStep(base: Disk, log: Log, p: nat, lo: nat, n: nat, stores: seq<Store>, k: nat)
    requires StoresFit(stores, n) && k < |stores|
    requires Image(base, log, p, lo, n) == PutAll(Zeros(n), stores[..k])
    ensures Image(base, log + [Plain(p, lo, stores[k])], p, lo, n) == PutAll(Zeros(n), stores[..k + 1])
  {
    ImagePut(base, log, Plain(p, lo, stores[k]), p, lo, n);
    assert stores[..k + 1] == stores[..k] + [stores[k]];
    PutAllAppend(Zeros(n), stores[..k], stores[k]);
  }

  // What any store of the session keeps, whoever makes it.
  lemma StoreKeepsFrames(c: Config, s: State, e: Event)
    requires ChainOK(c, s.pub) && FrontierOK(c, s.pub, s.w) && SafeOK(c.base, s.log, s.pub)
    requires ReadersOK(c, s.log, s.pub, s.readers) && Harmless(s.w, e)
    ensures SafeOK(c.base, s.log + [e], s.pub) && ReadersOK(c, s.log + [e], s.pub, s.readers)
  {
    hide *;
    SafeAppend(c, s.log, s.pub, s.w, e);
    ReadersAppend(c, s.log, s.log + [e], s.pub, s.pub, s.readers);
  }

  lemma HeaderImage(c: Config, log: Log, p: nat)
    requires ValidPageHeader(c.P, Image(c.base, log, p, 0, c.P))
    ensures Image(c.base, log, p, 0, 12) == HeaderPrefix(c.P)
  {
    var page := Image(c.base, log, p, 0, c.P);
    assert page[0..12] == Image(c.base, log, p, 0, 12);
  }

  lemma NewHeaderOK(c: Config, log: Log, p: nat)
    requires |log| > 0 && log[|log| - 1] == Plain(p, 0, Store(16, LE(64, 8)))
    requires Image(c.base, log, p, 0, 12) == HeaderPrefix(c.P)
    ensures HeaderOK(c, log, p, |log| - 1)
  {
    FirstFramePosition();
  }

  lemma MadeHeaderOK(c: Config, log: Log, p: nat)
    requires |log| > 0 && log[|log| - 1] == Plain(p, 0, PageHeaderStores(c.P)[5])
    requires Image(c.base, log, p, 0, c.P) == PutAll(Zeros(c.P), PageHeaderStores(c.P)[..6])
    ensures HeaderOK(c, log, p, |log| - 1)
  {
    hide PutAll, LE, Val, ValidPageHeader, FromLE, HeaderOK;
    assert PageHeaderStores(c.P)[..6] == PageHeaderStores(c.P);
    PageHeaderStoresResult(c.P, Zeros(c.P));
    HeaderImage(c, log, p);
    NewHeaderOK(c, log, p);
  }

  lemma HeaderStoreMakes(c: Config, s: State, s': State)
    requires WarmerOK(c, s) && MakingOK(c, s) && WriterNext(c, s, HeaderStore, s')
    ensures MakingOK(c, s')
    ensures s.w.phase.k == 5 ==> HeaderOK(c, s'.log, s.w.page + 1, |s.log|)
  {
    hide HeaderOK, PutAll, LE, Val, PageHeaderStores, WarmStores;
    var p, k := s.w.page + 1, s.w.phase.k;
    ImageStep(c.base, s.log, p, 0, c.P, PageHeaderStores(c.P), k);
    if s.warmer.Warming? {
      ImageAvoids(c.base, s.log, Plain(p, 0, PageHeaderStores(c.P)[k]), s.warmer.page, 0, c.P);
    }
    if k == 5 {
      MadeHeaderOK(c, s'.log, p);
    }
  }

  lemma HeaderStoreHeaders(c: Config, s: State, s': State)
    requires Inv(c, s) && WriterNext(c, s, HeaderStore, s')
    requires s.w.phase.k == 5 ==> HeaderOK(c, s'.log, s.w.page + 1, |s.log|)
    ensures HeadersOK(c, s') && RotationOK(s'.hdr, s'.pub)
  {
    hide ValidConfig, SafeOK, ChainOK, ReadersOK, LogOK, HeaderOK, MakingOK, SlotOK, FrontierOK, ViewOK, LfpStore, LE;
    var e := Plain(s.w.page + 1, 0, PageHeaderStores(c.P)[s.w.phase.k]);
    assert InProgress(s, s.w.page + 1);
    HeadersAppend(c, s, e);
  }

  lemma HeaderStoreRest(c: Config, s: State, s': State)
    requires WriterOK(c, s) && WarmerOK(c, s) && FrontierOK(c, s.pub, s.w) && ViewOK(s.log, s.w)
    requires WriterNext(c, s, HeaderStore, s')
    ensures WriterOK(c, s') && WarmerOK(c, s') && FrontierOK(c, s'.pub, s'.w) && ViewOK(s'.log, s'.w) && SlotOK(c, s')
  {
    hide ValidConfig, LE, AlignUp, FramePhysicalLength, PageHeaderStores;
  }

  lemma HeaderStoreEvent(c: Config, w: Writer, top: nat, k: nat)
    requires c.page0 <= w.page < top && k < 6
    ensures var e := Plain(w.page + 1, 0, PageHeaderStores(c.P)[k]);
            EventOK(c, w, top, e) && Harmless(w, e)
  {
  }

  lemma HeaderStoreKeeps(c: Config, s: State, s': State)
    requires Inv(c, s) && WriterNext(c, s, HeaderStore, s')
    ensures Inv(c, s')
  {
    hide ValidConfig, SafeOK, ChainOK, ReadersOK, LogOK, HeadersOK, MakingOK, RotationOK, LE, WarmerOK, SlotOK,
      FrontierOK, ViewOK, EventOK, HeaderOK, PageHeaderStores;
    HeaderStoreMakes(c, s, s');
    HeaderStoreHeaders(c, s, s');
    HeaderStoreRest(c, s, s');
    HeaderStoreEvent(c, s'.w, s.top, s.w.phase.k);
    var e := Plain(s.w.page + 1, 0, PageHeaderStores(c.P)[s.w.phase.k]);
    StoreKeepsFrames(c, s, e);
    LogAppend(c, s.w, s.top, s.log, s'.w, e);
  }

  // A store into the open slot of the current page.
  ghost predicate SlotStore(c: Config, w: Writer, e: Event) {
    && Lo(w) == w.cursor && Hi(w) <= c.P
    && e.page == w.page && w.cursor <= e.off && e.off + |e.bytes| <= Hi(w)
    && e.ZeroOn(w.cursor, 4)
  }

  ghost predicate SameSlot(w: Writer, w': Writer) {
    && w'.page == w.page && w'.cursor == w.cursor && w'.sequence == w.sequence
    && Hi(w') == Hi(w) && Lo(w') == Lo(w) && Taken(w') == Taken(w) && Reach(w') == Reach(w)
    && NextPageLoaded(w') == NextPageLoaded(w) && !w'.phase.Heading? && !w.phase.Heading?
    && w.phase.Ended? == w'.phase.Ended?
  }

  lemma SlotStoreKeeps(c: Config, s: State, e: Event, phase: Phase, s': State)
    requires Inv(c, s) && s' == Stored(s, e, phase)
    requires SlotStore(c, s.w, e) && SameSlot(s.w, s'.w)
    requires WriterOK(c, s') && SlotOK(c, s')
    ensures Inv(c, s')
  {
    hide ValidConfig, SafeOK, ChainOK, ReadersOK, LogOK, HeaderOK, RotationOK, SlotOK, LE, Val, PutAll, Hi, Lo;
    StoreKeepsFrames(c, s, e);
    LogAppend(c, s.w, s.top, s.log, s'.w, e);
    HeadersAppend(c, s, e);
    if s.warmer.Warming? {
      ImageAvoids(c.base, s.log, e, s.warmer.page, 0, c.P);
    }
  }

  lemma HeaderStoresSpareLength(stores: seq<Store>, k: nat)
    requires k < |stores| && (stores[k].off >= 4 || forall i :: 0 <= i < |stores[k].bytes| ==> stores[k].bytes[i] == 0)
    ensures forall p, at :: Plain(p, at, stores[k]).ZeroOn(at, 4)
  {
  }

  lemma PageEndStoreKeeps(c: Config, s: State, s': State)
    requires Inv(c, s) && WriterNext(c, s, PageEndStore, s')
    ensures Inv(c, s')
  {
    hide ValidConfig, SafeOK, ChainOK, ReadersOK, LogOK, HeadersOK, RotationOK, MakingOK, FrontierOK, ViewOK, LE,
      PutAll, Val;
    var w := s.w;
    var stores := PageEndStores(w.phase.now, w.sequence - 1);
    HeaderStoresSpareLength(stores, w.phase.k);
    ImageStep(c.base, s.log, w.page, w.cursor, 32, stores, w.phase.k);
    SlotStoreKeeps(c, s, Plain(w.page, w.cursor, stores[w.phase.k]), s'.w.phase, s');
  }

  lemma FillStoreKeeps(c: Config, s: State, s': State)
    requires Inv(c, s) && WriterNext(c, s, FillStore, s')
    ensures Inv(c, s')
  {
    hide ValidConfig, SafeOK, ChainOK, ReadersOK, LogOK, HeadersOK, RotationOK, MakingOK, FrontierOK, ViewOK, LE,
      PutAll, Val;
    var w, req := s.w, s.w.phase.req;
    var stores := OpenStores(req.timestamp, req.msgType, req.flags, w.sequence - 1);
    ZeroWord(4);
    HeaderStoresSpareLength(stores, w.phase.k);
    ImageStep(c.base, s.log, w.page, w.cursor, 32, stores, w.phase.k);
    SlotStoreKeeps(c, s, Plain(w.page, w.cursor, stores[w.phase.k]), s'.w.phase, s');
  }

  lemma CallerStoreKeeps(c: Config, s: State, store: Store, s': State)
    requires Inv(c, s) && WriterNext(c, s, CallerStore(store), s')
    ensures Inv(c, s')
  {
    hide ValidConfig, SafeOK, ChainOK, ReadersOK, LogOK, HeadersOK, RotationOK, MakingOK, FrontierOK, ViewOK, LE,
      PutAll, Val;
    var w := s.w;
    var e := Plain(w.page, w.cursor, store);
    ImageAvoids(c.base, s.log, e, w.page, w.cursor + 4, 2);
    ImageSlice(c.base, s.log, w.page, w.cursor, 32, 4, 6);
    ImageSlice(c.base, s'.log, w.page, w.cursor, 32, 4, 6);
    ImageAvoids(c.base, s.log, e, w.page, w.cursor + 8, 8);
    ImageSlice(c.base, s.log, w.page, w.cursor, 32, 8, 16);
    ImageSlice(c.base, s'.log, w.page, w.cursor, 32, 8, 16);
    SlotStoreKeeps(c, s, e, s'.w.phase, s');
  }

  // ---------- Publishing ----------

  lemma LengthWord(len: nat)
    requires len < 0x1_0000_0000
    ensures FromLE(LE(len, 4)) == len
  {
    PowValues();
    UnsignedRoundTrip(len, 4);
  }

  ghost function ReleaseEvent(s: State, len: nat): Event {
    Event(s.w.page, s.w.cursor, LE(len, 4), s.w.view + {|s.log|})
  }

  lemma ReleasedFrameSafe(c: Config, s: State, len: nat, kind: Kind, p: Pub)
    requires LogOK(c, s.w, s.top, s.log) && ViewOK(s.log, s.w) && Lo(s.w) == s.w.cursor && len >= 32
    requires Reach(s.w) == (if kind.End? then s.w.page + 1 else s.w.page)
    requires var log := s.log + [ReleaseEvent(s, len)];
             p == Pub(s.w.page, s.w.cursor, Image(c.base, log, s.w.page, s.w.cursor, len), |s.log|, kind)
    ensures FrameSafe(c.base, s.log + [ReleaseEvent(s, len)], p)
  {
    hide LE, Val;
    var log := s.log + [ReleaseEvent(s, len)];
    assert log[p.idx] == ReleaseEvent(s, len);
    forall k | 0 <= k < |log| && k != p.idx && log[k].page == p.page
      ensures log[k].ZeroOn(p.off, 4)
    {
      assert log[k] == s.log[k] && EventOK(c, s.w, s.top, s.log[k]);
    }
    forall k | 0 <= k <= p.idx && log[k].page <= Covered(p)
      ensures k in log[p.idx].rel
    {
      if k < |s.log| {
        assert log[k] == s.log[k];
      }
    }
  }

  lemma ReleaseKeepsLog(c: Config, s: State, len: nat, w': Writer)
    requires LogOK(c, s.w, s.top, s.log) && s.w.cursor + 4 <= Hi(s.w) <= c.P && c.page0 <= s.w.page <= s.top
    requires w'.page == s.w.page && Hi(w') == Hi(s.w) == Lo(w')
    ensures LogOK(c, w', s.top, s.log + [ReleaseEvent(s, len)])
  {
    var e := ReleaseEvent(s, len);
    var log := s.log + [e];
    forall k | 0 <= k < |log|
      ensures EventOK(c, w', s.top, log[k])
    {
      if k < |s.log| {
        assert log[k] == s.log[k] && EventOK(c, s.w, s.top, s.log[k]);
      }
    }
  }

  // The bytes of the slot when its length is released.
  lemma ReleasedBytes(c: Config, s: State, len: nat)
    requires 32 <= len < 0x1_0000_0000
    ensures var slot := Image(c.base, s.log, s.w.page, s.w.cursor, 32);
            var bytes := Image(c.base, s.log + [ReleaseEvent(s, len)], s.w.page, s.w.cursor, len);
            bytes[0..4] == LE(len, 4) && LengthOf(bytes) == len && bytes[4..32] == slot[4..32]
  {
    hide LE;
    var p, a := s.w.page, s.w.cursor;
    var e := ReleaseEvent(s, len);
    var slot, slot' := Image(c.base, s.log, p, a, 32), Image(c.base, s.log + [e], p, a, 32);
    var bytes := Image(c.base, s.log + [e], p, a, len);
    assert bytes[..32] == slot';
    ImagePut(c.base, s.log, e, p, a, 32);
    PutSlice(slot, Store(0, LE(len, 4)), 0, 4);
    PutSlice(slot, Store(0, LE(len, 4)), 4, 32);
    assert bytes[0..4] == slot'[0..4] && bytes[4..32] == slot'[4..32];
    LengthWord(len);
  }

  lemma ReleasedPageEnd(c: Config, s: State)
    requires SlotOK(c, s) && s.w.phase.Ending? && s.w.phase.k == 6
    ensures Image(c.base, s.log + [ReleaseEvent(s, 32)], s.w.page, s.w.cursor, 32)
            == HeaderBytes(32, PAGE_END, 0, s.w.sequence - 1, s.w.phase.now, 0)
  {
    hide LE, PutAll, Val;
    var now, q := s.w.phase.now, s.w.sequence - 1;
    var slot := Image(c.base, s.log, s.w.page, s.w.cursor, 32);
    var bytes := Image(c.base, s.log + [ReleaseEvent(s, 32)], s.w.page, s.w.cursor, 32);
    ReleasedBytes(c, s, 32);
    assert PageEndStores(now, q)[..6] == PageEndStores(now, q);
    PageEndStoresResult(Zeros(32), now, q);
    HeaderFields(0, PAGE_END, 0, q, now, 0);
    SubSlices(bytes, slot);
    HeaderFromFields(bytes, 32, PAGE_END, 0, q, now, 0);
  }

  lemma SubSlices(a: Bytes, b: Bytes)
    requires |a| >= 32 && |b| >= 32 && a[4..32] == b[4..32]
    ensures a[4..6] == b[4..6] && a[6..8] == b[6..8] && a[8..16] == b[8..16]
            && a[16..24] == b[16..24] && a[24..32] == b[24..32]
  {
    SubSlice(a, b, 4, 6);
    SubSlice(a, b, 6, 8);
    SubSlice(a, b, 8, 16);
    SubSlice(a, b, 16, 24);
    SubSlice(a, b, 24, 32);
  }

  lemma SubSlice(a: Bytes, b: Bytes, lo: nat, hi: nat)
    requires |a| >= 32 && |b| >= 32 && a[4..32] == b[4..32] && 4 <= lo <= hi <= 32
    ensures a[lo..hi] == b[lo..hi]
  {
    SliceOfSlice(a, 4, 32, lo, hi);
    SliceOfSlice(b, 4, 32, lo, hi);
  }

  // The frame being published is what was asked for.
  lemma ReleasedPubOK(c: Config, s: State, p: Pub)
    requires WriterOK(c, s) && SlotOK(c, s) && FrontierOK(c, s.pub, s.w)
    requires (s.w.phase.Ending? && s.w.phase.k == 6 && p.kind == End(s.w.phase.now) && |p.bytes| == 32)
             || (s.w.phase.Open? && p.kind == Data(s.w.phase.req)
                 && |p.bytes| == FRAME_HEADER_SIZE + s.w.phase.req.size)
    requires p.page == s.w.page && p.off == s.w.cursor
    requires p.bytes == Image(c.base, s.log + [ReleaseEvent(s, |p.bytes|)], p.page, p.off, |p.bytes|)
    ensures PubOK(c, s.pub + [p], |s.pub|)
  {
    hide LE, PutAll, Val, HeaderBytes, OpenStores, PageEndStores, Image, AlignUp;
    ReleasedBytes(c, s, |p.bytes|);
    if p.kind.End? {
      ReleasedPageEnd(c, s);
    } else {
      SubSlices(p.bytes, Image(c.base, s.log, s.w.page, s.w.cursor, 32));
    }
  }

  // Publishing appends one frame to the chain.
  lemma ReleaseKeepsChain(c: Config, s: State, p: Pub)
    requires WriterOK(c, s) && SlotOK(c, s) && ChainOK(c, s.pub) && FrontierOK(c, s.pub, s.w)
    requires (s.w.phase.Ending? && s.w.phase.k == 6 && p.kind == End(s.w.phase.now) && |p.bytes| == 32)
             || (s.w.phase.Open? && p.kind == Data(s.w.phase.req)
                 && |p.bytes| == FRAME_HEADER_SIZE + s.w.phase.req.size)
    requires p.page == s.w.page && p.off == s.w.cursor
    requires p.bytes == Image(c.base, s.log + [ReleaseEvent(s, |p.bytes|)], p.page, p.off, |p.bytes|)
    ensures ChainOK(c, s.pub + [p])
  {
    hide LE, PutAll, Val, HeaderBytes, SlotOK, FromLE;
    var pub := s.pub + [p];
    ReleasedPubOK(c, s, p);
    forall i | 0 <= i < |pub|
      ensures PubOK(c, pub, i)
    {
      assert Pos(c, pub, i) == Pos(c, s.pub, i);
      if i < |s.pub| {
        assert PubOK(c, s.pub, i);
      }
    }
  }

  lemma ReleaseKeepsFrontier(c: Config, s: State, p: Pub, w': Writer)
    requires FrontierOK(c, s.pub, s.w) && Lo(s.w) == s.w.cursor && !s.w.phase.Ended?
    requires p.page == s.w.page && p.off == s.w.cursor
    requires w'.page == s.w.page && Lo(w') == p.off + FramePhysicalLength(|p.bytes|) && w'.phase.Ended? == p.kind.End?
    ensures FrontierOK(c, s.pub + [p], w')
  {
  }

  lemma ReleaseKeepsReaders(c: Config, s: State, e: Event, p: Pub)
    requires ReadersOK(c, s.log, s.pub, s.readers) && p.idx == |s.log|
    ensures ReadersOK(c, s.log + [e], s.pub + [p], s.readers)
  {
    hide ReadersOK;
    ReadersAppend(c, s.log, s.log + [e], s.pub, s.pub + [p], s.readers);
  }

  lemma ReleaseKeepsSafe(c: Config, s: State, p: Pub)
    requires SafeOK(c.base, s.log + [ReleaseEvent(s, |p.bytes|)], s.pub)
    requires FrameSafe(c.base, s.log + [ReleaseEvent(s, |p.bytes|)], p)
    ensures SafeOK(c.base, s.log + [ReleaseEvent(s, |p.bytes|)], s.pub + [p])
  {
    hide FrameSafe;
  }

  // When PageEnd is released the header of the next page is complete.
  lemma ReleaseKeepsRotation(c: Config, s: State, p: Pub)
    requires HeadersOK(c, s) && RotationOK(s.hdr, s.pub) && WarmerOK(c, s) && WriterOK(c, s)
    requires p.idx == |s.log| && p.page == s.w.page && (p.kind.End? ==> s.w.phase.Ending?)
    ensures RotationOK(s.hdr, s.pub + [p])
  {
    hide Image, HeaderPrefix, LfpStore, LfpWord, FramePhysicalLength, AlignUp;
    if p.kind.End? {
      assert !InProgress(s, p.page + 1);
    }
  }

  lemma ReleaseKeeps(c: Config, s: State, len: nat, kind: Kind, phase: Phase, s': State)
    requires Inv(c, s) && s' == Released(c, s, len, kind, phase)
    requires (s.w.phase.Ending? && s.w.phase.k == 6 && kind == End(s.w.phase.now) && len == 32
              && phase == Ended(s.w.phase.req))
             || (s.w.phase.Open? && kind == Data(s.w.phase.req) && len == FRAME_HEADER_SIZE + s.w.phase.req.size
                 && phase == Closed(s.w.phase.req))
    ensures Inv(c, s')
  {
    hide ValidConfig, SafeOK, ChainOK, ReadersOK, LogOK, HeaderOK, RotationOK, SlotOK, FrontierOK, FrameSafe, LE, Val;
    var e, p := ReleaseEvent(s, len), s'.pub[|s.pub|];
    ReleaseKeepsLog(c, s, len, s'.w);
    ReleaseKeepsChain(c, s, p);
    ReleaseKeepsFrontier(c, s, p, s'.w);
    StoreKeepsFrames(c, s, e);
    ReleasedFrameSafe(c, s, len, kind, p);
    ReleaseKeepsSafe(c, s, p);
    ReleaseKeepsReaders(c, s, e, p);
    ReleaseKeepsRotation(c, s, p);
    HeadersAppend(c, s, e);
    if s.warmer.Warming? {
      ImageAvoids(c.base, s.log, e, s.warmer.page, 0, c.P);
    }
    assert SlotOK(c, s') by { ClosedSlot(c, s'); }
  }

  lemma ClosedSlot(c: Config, s: State)
    requires s.w.phase.Ended? || s.w.phase.Closed? || s.w.phase.Idle?
    ensures SlotOK(c, s)
  {
  }

  // ---------- Advancing the cursor ----------

  ghost function LfpEvent(w: Writer): Event {
    Plain(w.page, 16, Store(0, LE(w.cursor, 8)))
  }

  lemma LfpEventOK(c: Config, w: Writer)
    requires 64 <= w.cursor < c.P
    ensures LfpStore(c.P, LfpEvent(w)) && Harmless(w, LfpEvent(w))
  {
    PowValues();
    UnsignedRoundTrip(w.cursor, 8);
  }

  lemma LfpKeepsHeaders(c: Config, s: State, s': State)
    requires HeadersOK(c, s) && WarmerOK(c, s) && MakingOK(c, s) && LfpStore(c.P, LfpEvent(s.w))
    requires s'.log == s.log + [LfpEvent(s.w)] && s'.hdr == s.hdr && s'.top == s.top && s'.warmer == s.warmer
    requires !s.w.phase.Heading? && !s'.w.phase.Heading?
    ensures HeadersOK(c, s') && MakingOK(c, s')
  {
    hide HeaderOK, LfpStore, PutAll, Val;
    HeadersAppend(c, s, LfpEvent(s.w));
    if s.warmer.Warming? {
      ImageAvoids(c.base, s.log, LfpEvent(s.w), s.warmer.page, 0, c.P);
    }
  }

  lemma CloseFrameKeeps(c: Config, s: State, s': State)
    requires Inv(c, s) && WriterNext(c, s, CloseFrame, s')
    ensures Inv(c, s')
  {
    hide ValidConfig, SafeOK, ChainOK, ReadersOK, LogOK, HeadersOK, MakingOK, RotationOK, SlotOK, LE, LfpStore,
      Harmless, AlignUp;
    var e := LfpEvent(s.w);
    LfpEventOK(c, s.w);
    StoreKeepsFrames(c, s, e);
    LfpKeepsHeaders(c, s, s');
    LogAppend(c, s.w, s.top, s.log, s'.w, e);
    ClosedSlot(c, s');
  }

  lemma SwitchLog(c: Config, s: State, s': State)
    requires LogOK(c, s.w, s.top, s.log) && c.page0 <= s.w.page <= s.top
    requires s'.log == s.log + [LfpEvent(s.w)] && s'.w.page == s.w.page + 1 && Lo(s'.w) == 64 <= Hi(s'.w)
            && s'.top == s.top
    ensures LogOK(c, s'.w, s'.top, s'.log)
  {
    hide LE;
    forall k | 0 <= k < |s'.log|
      ensures EventOK(c, s'.w, s'.top, s'.log[k])
    {
      if k < |s.log| {
        assert s'.log[k] == s.log[k] && EventOK(c, s.w, s.top, s.log[k]);
      }
    }
  }

  lemma SwitchSlot(c: Config, s: State, s': State)
    requires ValidConfig(c) && LogOK(c, s.w, s.top, s.log) && c.page0 <= s.w.page
    requires s'.log == s.log + [LfpEvent(s.w)] && s'.w.page == s.w.page + 1 && s'.w.cursor == 64
    requires s'.w.phase.Filling? && s'.w.phase.k == 0
    ensures SlotOK(c, s')
  {
    hide LE, PutAll, ValidConfig, OpenStores;
    var req := s'.w.phase.req;
    var slot := Image(c.base, s'.log, s'.w.page, 64, 32);
    forall i | 0 <= i < 32
      ensures slot[i] == 0
    {
      forall k | 0 <= k < |s'.log| && s'.log[k].page == s'.w.page
        ensures s'.log[k].ZeroFrom(64 + i)
      {
        assert s'.log[k] == s.log[k] && EventOK(c, s.w, s.top, s.log[k]);
      }
      CleanBody(c, s'.log, s'.w.page, 64 + i);
    }
    assert slot == Zeros(32);
    PutNone(Zeros(32), OpenStores(req.timestamp, req.msgType, req.flags, s'.w.sequence - 1));
  }

  lemma SwitchPageKeeps(c: Config, s: State, s': State)
    requires Inv(c, s) && WriterNext(c, s, SwitchPage, s')
    ensures Inv(c, s')
  {
    hide ValidConfig, SafeOK, ChainOK, ReadersOK, LogOK, HeadersOK, MakingOK, RotationOK, SlotOK, LE, LfpStore,
      Harmless;
    var e := LfpEvent(s.w);
    LfpEventOK(c, s.w);
    StoreKeepsFrames(c, s, e);
    LfpKeepsHeaders(c, s, s');
    SwitchLog(c, s, s');
    SwitchSlot(c, s, s');
  }

  lemma ReleasePageEndKeeps(c: Config, s: State, s': State)
    requires Inv(c, s) && WriterNext(c, s, ReleasePageEnd, s')
    ensures Inv(c, s')
  {
    hide Inv, Released;
    ReleaseKeeps(c, s, FRAME_HEADER_SIZE, End(s.w.phase.now), Ended(s.w.phase.req), s');
  }

  lemma ReleaseFrameKeeps(c: Config, s: State, s': State)
    requires Inv(c, s) && WriterNext(c, s, ReleaseFrame, s')
    ensures Inv(c, s')
  {
    hide Inv, Released;
    ReleaseKeeps(c, s, FRAME_HEADER_SIZE + s.w.phase.req.size, Data(s.w.phase.req), Closed(s.w.phase.req), s');
  }

  lemma WriterKeeps(c: Config, s: State, step: WriterStep, s': State)
    requires Inv(c, s) && WriterNext(c, s, step, s')
    ensures Inv(c, s')
  {
    hide Inv, WriterNext;
    match step
    case BeginWrite(req) => BeginWriteKeeps(c, s, req, s');
    case ClaimWarmed(now) => NextPageKeeps(c, s, now, s');
    case LoadExisting(now) => NextPageKeeps(c, s, now, s');
    case LoadNew => LoadNewKeeps(c, s, s');
    case HeaderStore => HeaderStoreKeeps(c, s, s');
    case HeaderDone(now) => HeaderDoneKeeps(c, s, now, s');
    case PageEndStore => PageEndStoreKeeps(c, s, s');
    case ReleasePageEnd => ReleasePageEndKeeps(c, s, s');
    case SwitchPage => SwitchPageKeeps(c, s, s');
    case FillStore => FillStoreKeeps(c, s, s');
    case FillDone => FillDoneKeeps(c, s, s');
    case CallerStore(store) => CallerStoreKeeps(c, s, store, s');
    case ReleaseFrame => ReleaseFrameKeeps(c, s, s');
    case CloseFrame => CloseFrameKeeps(c, s, s');
  }

  // ---------- Steps of the warmer ----------

  lemma WarmBeginKeeps(c: Config, s: State, s': State)
    requires Inv(c, s) && WarmerNext(c, s, WarmBegin, s')
    ensures Inv(c, s')
  {
    hide ValidConfig, SafeOK, ChainOK, ReadersOK, LogOK, HeaderOK, RotationOK, SlotOK, FrontierOK, LE, Val, PutAll;
    LogWiden(c, s.w, s.top, s.log, s'.w, s'.top);
    FreshPage(c, s);
    PutNone(Zeros(c.P), WarmStores(c.P));
    assert SlotOK(c, s') by { SameSlotOK(c, s, s'); }
  }

  lemma SameSlotOK(c: Config, s: State, s': State)
    requires SlotOK(c, s) && s'.w == s.w && s'.log == s.log
    ensures SlotOK(c, s')
  {
    hide Image, PutAll, LE, OpenStores, PageEndStores;
  }

  lemma WarmEventOK(c: Config, w: Writer, top: nat, p: nat, k: nat)
    requires c.page0 <= w.page < p <= top && k < 6
    ensures var e := Plain(p, 0, WarmStores(c.P)[k]);
            EventOK(c, w, top, e) && Harmless(w, e) && (k == 5 ==> e.off == 64)
  {
  }

  lemma WarmedHeaderOK(c: Config, log: Log, p: nat)
    requires |log| > 0 && log[|log| - 1] == Plain(p, 0, WarmStores(c.P)[4])
    requires Image(c.base, log, p, 0, c.P) == PutAll(Zeros(c.P), WarmStores(c.P)[..5])
    ensures HeaderOK(c, log, p, |log| - 1)
  {
    hide PutAll, LE, Val, FromLE, HeaderOK;
    var stores := WarmStores(c.P);
    var page := Image(c.base, log, p, 0, c.P);
    assert stores == stores[..5] + [stores[5]];
    PutAllAppend(Zeros(c.P), stores[..5], stores[5]);
    PutSlice(page, stores[5], 0, 12);
    WarmStoresResult(c.P, Zeros(c.P));
    ImageSlice(c.base, log, p, 0, c.P, 0, 12);
    NewHeaderOK(c, log, p);
  }

  lemma WarmStoreMakes(c: Config, s: State, s': State)
    requires WarmerOK(c, s) && MakingOK(c, s) && WarmerNext(c, s, WarmStore, s')
    ensures MakingOK(c, s')
    ensures s.warmer.k == 4 ==> HeaderOK(c, s'.log, s.warmer.page, |s.log|)
  {
    hide HeaderOK, PutAll, LE, Val, PageHeaderStores, WarmStores;
    var p, k := s.warmer.page, s.warmer.k;
    ImageStep(c.base, s.log, p, 0, c.P, WarmStores(c.P), k);
    if s.w.phase.Heading? {
      ImageAvoids(c.base, s.log, Plain(p, 0, WarmStores(c.P)[k]), s.w.page + 1, 0, c.P);
    }
    if k == 4 {
      WarmedHeaderOK(c, s'.log, p);
    }
  }

  lemma WarmStoreHeaders(c: Config, s: State, s': State)
    requires HeadersOK(c, s) && RotationOK(s.hdr, s.pub) && WarmerOK(c, s) && c.page0 <= s.w.page
    requires WarmerNext(c, s, WarmStore, s')
    requires s.warmer.k == 4 ==> HeaderOK(c, s'.log, s.warmer.page, |s.log|)
    ensures HeadersOK(c, s') && RotationOK(s'.hdr, s'.pub)
  {
    hide HeaderOK, WarmStores, LfpStore, LE;
    var e := Plain(s.warmer.page, 0, WarmStores(c.P)[s.warmer.k]);
    WarmEventOK(c, s.w, s.top, s.warmer.page, s.warmer.k);
    if s.warmer.k < 5 {
      assert InProgress(s, s.warmer.page);
    }
    HeadersAppend(c, s, e);
  }

  lemma WarmStoreSlot(c: Config, s: State, e: Event, s': State)
    requires SlotOK(c, s) && s'.w == s.w && s'.log == s.log + [e] && e.page != s.w.page
    ensures SlotOK(c, s')
  {
    hide PutAll, LE, Val;
    ImageAvoids(c.base, s.log, e, s.w.page, s.w.cursor, 32);
  }

  lemma WarmStoreKeeps(c: Config, s: State, s': State)
    requires Inv(c, s) && WarmerNext(c, s, WarmStore, s')
    ensures Inv(c, s')
  {
    hide ValidConfig, SafeOK, ChainOK, ReadersOK, LogOK, HeadersOK, MakingOK, RotationOK, SlotOK, FrontierOK,
      WarmStores, LE, Hi, Lo, EventOK, Harmless;
    var e := Plain(s.warmer.page, 0, WarmStores(c.P)[s.warmer.k]);
    WarmStoreMakes(c, s, s');
    WarmStoreHeaders(c, s, s');
    WarmEventOK(c, s.w, s.top, s.warmer.page, s.warmer.k);
    StoreKeepsFrames(c, s, e);
    LogAppend(c, s.w, s.top, s.log, s'.w, e);
    WarmStoreSlot(c, s, e, s');
  }

  lemma WarmDoneKeeps(c: Config, s: State, s': State)
    requires Inv(c, s) && WarmerNext(c, s, WarmDone, s')
    ensures Inv(c, s')
  {
    hide ValidConfig, SafeOK, ChainOK, ReadersOK, LogOK, HeaderOK, RotationOK, FrontierOK, SlotOK, ViewOK, MakingOK,
      LE, Image;
    SameSlotOK(c, s, s');
    WarmDoneMakes(c, s, s');
  }

  lemma WarmDoneMakes(c: Config, s: State, s': State)
    requires MakingOK(c, s) && s'.w == s.w && s'.log == s.log && s'.warmer == Resting
    ensures MakingOK(c, s')
  {
    hide Image, PutAll, LE, PageHeaderStores, WarmStores;
  }

  lemma WarmerKeeps(c: Config, s: State, step: WarmerStep, s': State)
    requires Inv(c, s) && WarmerNext(c, s, step, s')
    ensures Inv(c, s')
  {
    hide Inv;
    match step
    case WarmBegin => WarmBeginKeeps(c, s, s');
    case WarmStore => WarmStoreKeeps(c, s, s');
    case WarmDone => WarmDoneKeeps(c, s, s');
  }

  // ---------- Steps of a reader ----------

  lemma BaseZero(c: Config, p: nat, a: nat)
    requires ValidConfig(c) && c.page0 <= p && 64 <= a
    ensures ByteOf(c.base, p, a) == 0
  {
    if p in c.base {
      assert CleanPage(c.P, c.base, p);
    }
  }

  lemma PosBound(c: Config, pub: seq<Pub>, i: nat)
    requires ChainOK(c, pub) && i <= |pub|
    ensures var (p, a) := Pos(c, pub, i); c.page0 <= p && 64 <= a
    decreases i
  {
    if i > 0 {
      PosBound(c, pub, i - 1);
      assert PubOK(c, pub, i - 1);
    }
  }

  // At a published frame, a length load gives zero or the length of that frame; then the whole frame is visible.
  lemma LengthLoadAt(c: Config, s: State, n: nat, view: set<nat>, src: int, word: Bytes)
    requires ValidConfig(c) && SafeOK(c.base, s.log, s.pub) && ChainOK(c, s.pub) && n < |s.pub|
    requires WordLoad(c.base, s.log, view, s.pub[n].page, s.pub[n].off, 4, src, word)
    ensures FromLE(word) == 0 || (src == s.pub[n].idx && FromLE(word) == |s.pub[n].bytes|)
  {
    hide LE, FromLE, Val, ValidConfig;
    var p := s.pub[n];
    assert PubOK(c, s.pub, n) && FrameSafe(c.base, s.log, p);
    if src == p.idx {
      assert word == LE(|p.bytes|, 4);
      LengthWord(|p.bytes|);
    } else {
      if src == -1 {
        PosBound(c, s.pub, n);
        forall x | p.off <= x < p.off + 4
          ensures ByteOf(c.base, p.page, x) == 0
        {
          BaseZero(c, p.page, x);
        }
      }
      WordLoadZero(c.base, s.log, view, p.page, p.off, 4, src, word);
    }
  }

  // Behind the last published frame a length load gives zero.
  lemma LengthLoadFrontier(c: Config, s: State, view: set<nat>, src: int, word: Bytes)
    requires ValidConfig(c) && ChainOK(c, s.pub) && FrontierOK(c, s.pub, s.w) && LogOK(c, s.w, s.top, s.log)
    requires var (p, a) := Pos(c, s.pub, |s.pub|); WordLoad(c.base, s.log, view, p, a, 4, src, word)
    ensures FromLE(word) == 0
  {
    hide FromLE, Val, ValidConfig, ChainOK;
    var (p, a) := Pos(c, s.pub, |s.pub|);
    PosBound(c, s.pub, |s.pub|);
    forall x | a <= x < a + 4
      ensures ByteOf(c.base, p, x) == 0
    {
      BaseZero(c, p, x);
    }
    if src >= 0 {
      assert EventOK(c, s.w, s.top, s.log[src]);
      assert s.log[src].ZeroOn(a, 4);
    }
    WordLoadZero(c.base, s.log, view, p, a, 4, src, word);
  }

  // Once the release of a frame is visible, every byte of it reads as published.
  lemma FrameByte(c: Config, s: State, n: nat, view: set<nat>, d: nat, v: byte)
    requires n < |s.pub| && FrameSafe(c.base, s.log, s.pub[n]) && d < |s.pub[n].bytes|
    requires s.log[s.pub[n].idx].rel <= view
    requires PlainRead(c.base, s.log, view, s.pub[n].page, s.pub[n].off + d, v)
    ensures v == s.pub[n].bytes[d]
  {
    var p := s.pub[n];
    forall k | 0 <= k < |s.log| && s.log[k].Covers(p.page, p.off + d)
      ensures k in view
    {
      assert k <= p.idx;
    }
    assert Image(c.base, s.log, p.page, p.off, |p.bytes|)[d] == Val(c.base, s.log, p.page, p.off + d);
  }

  lemma FrameType(c: Config, s: State, n: nat, view: set<nat>, half: Bytes)
    requires n < |s.pub| && FrameSafe(c.base, s.log, s.pub[n]) && s.log[s.pub[n].idx].rel <= view
    requires |half| == 2 && ReadsBytes(c, s, view, s.pub[n].page, s.pub[n].off + 4, half)
    ensures FromLE(half) == TypeOf(s.pub[n].bytes)
  {
    hide FromLE, FrameSafe, Val;
    var p := s.pub[n];
    assert |p.bytes| >= 32 by { FrameLength(c, s, n); }
    forall i | 0 <= i < 2
      ensures half[i] == p.bytes[4 + i]
    {
      assert PlainRead(c.base, s.log, view, p.page, p.off + 4 + i, half[i]);
      assert p.off + 4 + i == p.off + (4 + i);
      FrameByte(c, s, n, view, 4 + i, half[i]);
    }
    assert half == p.bytes[4..6];
  }

  lemma FrameLength(c: Config, s: State, n: nat)
    requires n < |s.pub| && FrameSafe(c.base, s.log, s.pub[n])
    ensures |s.pub[n].bytes| >= 32
  {
  }

  // The type tells PageEnd from every other frame, and is never zero.
  lemma FrameKind(c: Config, pub: seq<Pub>, n: nat)
    requires ChainOK(c, pub) && n < |pub|
    ensures |pub[n].bytes| >= 32 && TypeOf(pub[n].bytes) > 0
    ensures TypeOf(pub[n].bytes) == PAGE_END <==> pub[n].kind.End?
  {
    hide LE, FromLE, HeaderBytes;
    assert PubOK(c, pub, n);
    match pub[n].kind
    case Data(req) =>
      TypeWord(req.msgType);
    case End(now) =>
      TypeWord(PAGE_END);
      HeaderFields(32, PAGE_END, 0, c.sequence0 + n, now, 0);
  }

  lemma TypeWord(t: nat)
    requires t < 0x1_0000
    ensures FromLE(LE(t, 2)) == t
  {
    PowValues();
    UnsignedRoundTrip(t, 2);
  }

  lemma ChainAt(c: Config, pub: seq<Pub>, n: nat)
    requires ChainOK(c, pub) && n < |pub|
    ensures (pub[n].page, pub[n].off) == Pos(c, pub, n)
  {
    assert PubOK(c, pub, n);
  }

  lemma LoadLengthKeeps(c: Config, s: State, src: int, word: Bytes, r: Reader, r': Reader)
    requires Inv(c, s) && ReaderOK(c, s.log, s.pub, r) && ReaderNext(c, s, LoadLength(src, word), r, r')
    ensures ReaderOK(c, s.log, s.pub, r')
  {
    hide LE, FromLE, Val, ValidConfig, SafeOK, ChainOK, LogOK, HeadersOK, MakingOK, SlotOK, RotationOK, FrontierOK,
      ReadersOK;
    var n := Due(r);
    if n < |s.pub| {
      ChainAt(c, s.pub, n);
      LengthLoadAt(c, s, n, r.view, src, word);
    } else {
      LengthLoadFrontier(c, s, r.view, src, word);
    }
  }

  lemma LoadTypeKeeps(c: Config, s: State, half: Bytes, r: Reader, r': Reader)
    requires Inv(c, s) && ReaderOK(c, s.log, s.pub, r) && ReaderNext(c, s, LoadType(half), r, r')
    ensures ReaderOK(c, s.log, s.pub, r')
  {
    hide LE, FromLE, Val, ValidConfig, ChainOK, LogOK, HeadersOK, MakingOK, SlotOK, RotationOK, FrontierOK, ReadersOK,
      FrameSafe, PlainRead;
    var n := Due(r);
    if r.phase.len > 0 {
      ChainAt(c, s.pub, n);
      FrameKind(c, s.pub, n);
      FrameType(c, s, n, r.view, half);
    }
  }

  lemma ReadByteKeeps(c: Config, s: State, b: byte, r: Reader, r': Reader)
    requires Inv(c, s) && ReaderOK(c, s.log, s.pub, r) && ReaderNext(c, s, ReadByte(b), r, r')
    ensures ReaderOK(c, s.log, s.pub, r')
  {
    hide LE, FromLE, Val, ValidConfig, ChainOK, LogOK, HeadersOK, MakingOK, SlotOK, RotationOK, FrontierOK, ReadersOK,
      FrameSafe, PlainRead;
    var n := Due(r);
    var bytes, got := s.pub[n].bytes, r.phase.got;
    ChainAt(c, s.pub, n);
    FrameByte(c, s, n, r.view, |got|, b);
    assert got + [b] == bytes[..|got| + 1];
  }

  // Moving on from frame n by its own length and type leads to where frame n + 1 goes.
  lemma MovedOK(c: Config, s: State, r: Reader, view: set<nat>)
    requires ChainOK(c, s.pub) && ReaderOK(c, s.log, s.pub, r) && r.phase.Holding? && |r.phase.got| == r.phase.len
    requires r.view <= view
    ensures ReaderOK(c, s.log, s.pub, Moved(r, view, r.phase.len, r.phase.msgType, r.phase.got))
  {
    hide LE, FromLE, ChainOK;
    var n := Due(r);
    FrameKind(c, s.pub, n);
    ChainAt(c, s.pub, n);
    assert r.phase.got == s.pub[n].bytes;
    assert Pos(c, s.pub, n + 1) == After(s.pub[n]);
  }

  // A second load of the length of a visible frame gives the same length.
  lemma ReloadAt(c: Config, s: State, n: nat, view: set<nat>, src: int, word: Bytes)
    requires n < |s.pub| && FrameSafe(c.base, s.log, s.pub[n]) && s.log[s.pub[n].idx].rel <= view
    requires WordLoad(c.base, s.log, view, s.pub[n].page, s.pub[n].off, 4, src, word)
    ensures src == s.pub[n].idx
  {
    hide LE, FromLE, Val, Image;
    var p := s.pub[n];
    assert p.idx in view;
    assert !s.log[p.idx].Avoids(p.page, p.off, p.off + 4);
    assert src <= p.idx;
  }

  lemma NextReloadingKeeps(c: Config, s: State, src: int, word: Bytes, half: Bytes, r: Reader, r': Reader)
    requires Inv(c, s) && ReaderOK(c, s.log, s.pub, r) && ReaderNext(c, s, NextReloading(src, word, half), r, r')
    ensures ReaderOK(c, s.log, s.pub, r')
  {
    hide LE, FromLE, Val, ValidConfig, ChainOK, LogOK, HeadersOK, MakingOK, SlotOK, RotationOK, FrontierOK, ReadersOK,
      FrameSafe, PlainRead, ReadsBytes;
    var n := Due(r);
    var view := Acquired(s.log, r.view, src);
    ChainAt(c, s.pub, n);
    ReloadAt(c, s, n, r.view, src, word);
    LengthReloaded(c, s, n, r.view, src, word);
    FrameType(c, s, n, view, half);
    MovedOK(c, s, r, view);
  }

  lemma LengthReloaded(c: Config, s: State, n: nat, view: set<nat>, src: int, word: Bytes)
    requires n < |s.pub| && FrameSafe(c.base, s.log, s.pub[n]) && ChainOK(c, s.pub)
    requires WordLoad(c.base, s.log, view, s.pub[n].page, s.pub[n].off, 4, src, word) && src == s.pub[n].idx
    ensures FromLE(word) == |s.pub[n].bytes|
  {
    hide LE, FromLE, Val, Image;
    assert PubOK(c, s.pub, n);
    assert word == LE(|s.pub[n].bytes|, 4);
    LengthWord(|s.pub[n].bytes|);
  }

  // What a reader that has seen PageEnd reads of the next page's header.
  lemma HeaderRead(c: Config, s: State, p: nat, g: int, view: set<nat>, prefix: Bytes)
    requires HeaderOK(c, s.log, p, g)
    requires forall k :: 0 <= k <= g && s.log[k].page == p ==> k in view
    requires |prefix| == 12 && ReadsBytes(c, s, view, p, 0, prefix)
    ensures prefix == HeaderPrefix(c.P)
  {
    hide LE, FromLE, Val;
    forall i | 0 <= i < 12
      ensures prefix[i] == HeaderPrefix(c.P)[i]
    {
      assert PlainRead(c.base, s.log, view, p, 0 + i, prefix[i]);
      assert Image(c.base, s.log, p, 0, 12)[i] == Val(c.base, s.log, p, 0 + i);
    }
  }

  lemma LfpRead(c: Config, s: State, p: nat, g: int, view: set<nat>, src: int, lfp: Bytes)
    requires HeaderOK(c, s.log, p, g)
    requires forall k :: 0 <= k <= g && s.log[k].page == p ==> k in view
    requires WordLoad(c.base, s.log, view, p, 16, 8, src, lfp)
    ensures 64 <= FromLE(lfp) < c.P
  {
    hide LE, FromLE, Val, Image;
    if g >= 0 {
      assert !s.log[g].Avoids(p, 16, 24);
    }
    assert src >= g;
    if src == -1 {
      assert lfp == c.base[p][16..24];
    } else {
      assert LfpStore(c.P, s.log[src]);
      assert lfp == s.log[src].bytes;
    }
  }

  lemma TurnPageKeeps(c: Config, s: State, prefix: Bytes, src: int, lfp: Bytes, r: Reader, r': Reader)
    requires Inv(c, s) && ReaderOK(c, s.log, s.pub, r) && ReaderNext(c, s, TurnPage(prefix, src, lfp), r, r')
    ensures ReaderOK(c, s.log, s.pub, r')
  {
    hide LE, FromLE, Val, Image, ValidConfig, ChainOK, LogOK, MakingOK, SlotOK, FrontierOK, ReadersOK, PlainRead,
      WordLoad, ReadsBytes, HeaderOK, LfpStore, HeaderPrefix;
    var p := s.pub[Due(r) - 1];
    var g := s.hdr[p.page + 1];
    assert FrameSafe(c.base, s.log, p);
    HeaderRead(c, s, p.page + 1, g, r.view, prefix);
    LfpRead(c, s, p.page + 1, g, r.view, src, lfp);
  }

  lemma ReaderKeeps(c: Config, s: State, step: ReaderStep, r: Reader, r': Reader)
    requires Inv(c, s) && ReaderOK(c, s.log, s.pub, r) && ReaderNext(c, s, step, r, r')
    ensures ReaderOK(c, s.log, s.pub, r')
  {
    match step
    case LoadLength(src, word) => LoadLengthKeeps(c, s, src, word, r, r');
    case LoadType(half) => LoadTypeKeeps(c, s, half, r, r');
    case ReadByte(b) => ReadByteKeeps(c, s, b, r, r');
    case Advance => MovedOK(c, s, r, r.view);
    case NextReloading(src, word, half) => NextReloadingKeeps(c, s, src, word, half, r, r');
    case TurnPage(prefix, src, lfp) => TurnPageKeeps(c, s, prefix, src, lfp, r, r');
  }

  // ---------- One step ----------

  lemma JoinKeeps(c: Config, s: State, id: nat, n: nat, view: set<nat>, s': State)
    requires Inv(c, s) && Next(c, s, JoinReader(id, n, view), s')
    ensures Inv(c, s')
  {
    hide LE, FromLE, Val, ValidConfig, SafeOK, ChainOK, LogOK, HeaderOK, RotationOK, FrontierOK, PutAll;
    forall i | 0 <= i < |s.pub|
      ensures s.pub[i].idx < |s.log|
    {
      PubIndex(c, s, i);
    }
    assert ReaderOK(c, s.log, s.pub, s'.readers[id]);
  }

  lemma PubIndex(c: Config, s: State, i: nat)
    requires SafeOK(c.base, s.log, s.pub) && i < |s.pub|
    ensures s.pub[i].idx < |s.log|
  {
    assert FrameSafe(c.base, s.log, s.pub[i]);
  }

  lemma ReaderStepKeeps(c: Config, s: State, id: nat, rs: ReaderStep, r': Reader, s': State)
    requires Inv(c, s) && Next(c, s, OfReader(id, rs, r'), s')
    ensures Inv(c, s')
  {
    hide LE, FromLE, Val, ValidConfig, SafeOK, ChainOK, LogOK, HeaderOK, RotationOK, FrontierOK, PutAll, ReaderOK,
      ReaderNext, ViewOK, Image, Stride, Hi, Lo, PageHeaderStores, Layout.WarmStores, OpenStores, PageEndStores;
    assert ReaderOK(c, s.log, s.pub, s.readers[id]);
    ReaderKeeps(c, s, rs, s.readers[id], r');
  }

  lemma InitialHeader(c: Config, p: nat)
    requires ValidConfig(c) && c.page0 <= p <= c.top0
    ensures p in c.base && HeaderOK(c, [], p, -1)
  {
    hide LE, FromLE;
    assert CleanPage(c.P, c.base, p);
    assert Image(c.base, [], p, 0, 12) == c.base[p][0..12];
  }

  lemma InitOK(c: Config, s: State)
    requires Init(c, s)
    ensures Inv(c, s)
  {
    hide PutAll, LE, FromLE, HeaderOK, CleanPage;
    forall p | c.page0 <= p <= c.top0
      ensures p in s.hdr && HeaderOK(c, s.log, p, s.hdr[p])
    {
      InitialHeader(c, p);
    }
    assert LogOK(c, s.w, s.top, s.log);
    assert HeadersOK(c, s);
  }

  lemma NextKeeps(c: Config, s: State, step: Step, s': State)
    requires Inv(c, s) && Next(c, s, step, s')
    ensures Inv(c, s')
  {
    match step
    case OfWriter(ws) => WriterKeeps(c, s, ws, s');
    case OfWarmer(ws) => WarmerKeeps(c, s, ws, s');
    case JoinReader(id, n, view) => JoinKeeps(c, s, id, n, view, s');
    case OfReader(id, rs, r') => ReaderStepKeeps(c, s, id, rs, r', s');
  }
}
