/** One writer session, its page warmer and any number of readers, step by step.

    Every store of the writer and of the warmer is one step; every load of a reader is one step.
    The state keeps the log of stores (module Memory) and, for the statements only, the frames
    published so far. */
module Protocol {
  import opened Layout
  import opened Memory

  // A session starts at page `page0` with sequence number `sequence0`; `base` holds the page
  // files 1..top0 as the previous session left them.
  datatype Config = Config(P: PageSize, page0: nat, sequence0: nat, base: Disk, top0: nat)

  datatype Request = Request(timestamp: int, msgType: nat, size: nat, flags: nat)

  // openFrame does not test the border again after rotating, so a stride may not exceed what a
  // fresh page offers; readers take type 0 for no frame and PageEnd for the end of a page.
  predicate ValidRequest(P: PageSize, req: Request) {
    && 0 < req.msgType < 0x1_0000 && req.msgType != PAGE_END
    && Stride(req.size) <= P - 128
  }

  datatype Phase =
    | Idle
    | Loading(req: Request)                     // rotatePage: the next page is wanted
    | Heading(req: Request, k: nat)             // k header stores of the new page done
    | Ending(req: Request, now: int, k: nat)    // k header stores of PageEnd done
    | Ended(req: Request)                       // PageEnd released
    | Filling(req: Request, k: nat)             // k header stores of the frame done
    | Open(req: Request)                        // the caller fills the payload
    | Closed(req: Request)                      // length released

  datatype Writer = Writer(page: nat, cursor: nat, sequence: nat, view: set<nat>, phase: Phase)

  datatype Warmer = Resting | Warming(page: nat, k: nat)

  datatype Kind = Data(req: Request) | End(now: int)

  // A published frame: where it lies, its bytes when its length was released, and that release.
  datatype Pub = Pub(page: nat, off: nat, bytes: Bytes, idx: nat, kind: Kind)

  datatype ReaderPhase =
    | Polling
    | Loaded(len: nat)                               // length loaded, type not yet
    | Holding(len: nat, msgType: nat, got: Bytes)    // a frame is offered; got are the bytes read
    | Turning                                        // PageEnd consumed
    | Fault                                          // took the next page for new, or rejected it

  // `from` counts the frames published before the one that the reader joined at.
  datatype Reader = Reader(from: nat, page: nat, off: nat, view: set<nat>, consumed: seq<Bytes>, phase: ReaderPhase)

  // hdr maps a page to the store that completed its header, -1 for a header of the base image.
  datatype State = State(log: Log, pub: seq<Pub>, w: Writer, warmer: Warmer, top: nat, ready: set<nat>,
                         hdr: map<nat, int>, readers: map<nat, Reader>)

  // ---------- Initial states and steps ----------

  ghost predicate CleanPage(P: PageSize, base: Disk, p: nat) {
    && p in base && |base[p]| == P
    && ValidPageHeader(P, base[p]) && FromLE(base[p][16..24]) == 64
    && forall a :: 64 <= a < P ==> base[p][a] == 0
  }

  ghost predicate ValidConfig(c: Config) {
    && 1 <= c.page0 <= c.top0
    && (forall p :: p in c.base ==> p <= c.top0)
    && (forall p :: c.page0 <= p <= c.top0 ==> CleanPage(c.P, c.base, p))
  }

  ghost predicate Init(c: Config, s: State) {
    && ValidConfig(c)
    && s == State([], [], Writer(c.page0, 64, c.sequence0, {}, Idle), Resting, c.top0, {},
                  map p | p in c.base && c.page0 <= p :: -1, map[])
  }

  datatype WriterStep =
    | BeginWrite(req: Request)
    | ClaimWarmed(now: int)
    | LoadExisting(now: int)
    | LoadNew
    | HeaderStore
    | HeaderDone(now: int)
    | PageEndStore
    | ReleasePageEnd
    | SwitchPage
    | FillStore
    | FillDone
    | CallerStore(store: Store)
    | ReleaseFrame
    | CloseFrame

  datatype WarmerStep = WarmBegin | WarmStore | WarmDone

  datatype ReaderStep =
    | LoadLength(src: int, word: Bytes)
    | LoadType(half: Bytes)
    | ReadByte(b: byte)
    | Advance
    | NextReloading(src: int, word: Bytes, half: Bytes)
    | TurnPage(prefix: Bytes, src: int, lfp: Bytes)

  datatype Step =
    | OfWriter(writerStep: WriterStep)
    | OfWarmer(warmerStep: WarmerStep)
    | JoinReader(id: nat, n: nat, view: set<nat>)
    | OfReader(id: nat, readerStep: ReaderStep, after: Reader)

  ghost function PageEvents(log: Log, p: nat): set<nat> {
    set k | 0 <= k < |log| && log[k].page == p
  }

  function Plain(p: nat, at: nat, s: Store): Event {
    Event(p, at + s.off, s.bytes, {})
  }

  // Where the next frame after p begins.
  function After(p: Pub): (nat, nat) {
    if p.kind.End? then (p.page + 1, 64) else (p.page, p.off + FramePhysicalLength(|p.bytes|))
  }

  ghost function Pos(c: Config, pub: seq<Pub>, i: nat): (nat, nat)
    requires i <= |pub|
  {
    if i == 0 then (c.page0, 64) else After(pub[i - 1])
  }

  // The number of the frame that the reader wants next.
  function Due(r: Reader): nat {
    r.from + |r.consumed|
  }

  ghost function Frames(s: State): seq<Bytes> {
    seq(|s.pub|, i requires 0 <= i < |s.pub| => s.pub[i].bytes)
  }

  // The writer makes a plain store.
  ghost function Stored(s: State, e: Event, phase: Phase): State {
    s.(log := s.log + [e], w := s.w.(view := s.w.view + {|s.log|}, phase := phase))
  }

  // The writer releases the length word of the frame at its cursor.
  ghost function Released(c: Config, s: State, len: nat, kind: Kind, phase: Phase): State {
    var view := s.w.view + {|s.log|};
    var log := s.log + [Event(s.w.page, s.w.cursor, LE(len, 4), view)];
    var p := Pub(s.w.page, s.w.cursor, Image(c.base, log, s.w.page, s.w.cursor, len), |s.log|, kind);
    s.(log := log, pub := s.pub + [p], w := s.w.(view := view, phase := phase))
  }

  ghost function BeginPageEnd(s: State, req: Request, now: int, view: set<nat>): Writer {
    s.w.(view := view, sequence := s.w.sequence + 1, phase := Ending(req, now, 0))
  }

  ghost predicate WriterNext(c: Config, s: State, step: WriterStep, s': State) {
    var w := s.w;
    match step
    case BeginWrite(req) =>
      && w.phase == Idle && ValidRequest(c.P, req)
      && s' == s.(w := if w.cursor + Stride(req.size) > c.P - 64 then w.(phase := Loading(req))
                       else w.(sequence := w.sequence + 1, phase := Filling(req, 0)))
    case ClaimWarmed(now) =>
      && w.phase.Loading? && w.page + 1 in s.ready
      && s' == s.(ready := s.ready - {w.page + 1},
                  w := BeginPageEnd(s, w.phase.req, now, w.view + PageEvents(s.log, w.page + 1)))
    case LoadExisting(now) =>
      // Assumed not to overlap the warmer's stores to the page, its zero-fill included (module WarmOverlap).
      && w.phase.Loading? && w.page + 1 <= s.top && !(s.warmer.Warming? && s.warmer.page == w.page + 1)
      && s' == s.(w := BeginPageEnd(s, w.phase.req, now, w.view + PageEvents(s.log, w.page + 1)))
    case LoadNew =>
      && w.phase.Loading? && w.page + 1 == s.top + 1
      && s' == s.(top := s.top + 1, w := w.(phase := Heading(w.phase.req, 0)))
    case HeaderStore =>
      && w.phase.Heading? && w.phase.k < 6
      && var k := w.phase.k;
         s' == Stored(s, Plain(w.page + 1, 0, PageHeaderStores(c.P)[k]), Heading(w.phase.req, k + 1))
                 .(hdr := if k == 5 then s.hdr[w.page + 1 := |s.log|] else s.hdr)
    case HeaderDone(now) =>
      && w.phase.Heading? && w.phase.k == 6
      && s' == s.(w := BeginPageEnd(s, w.phase.req, now, w.view))
    case PageEndStore =>
      && w.phase.Ending? && w.phase.k < 6
      && s' == Stored(s, Plain(w.page, w.cursor, PageEndStores(w.phase.now, w.sequence - 1)[w.phase.k]),
                      Ending(w.phase.req, w.phase.now, w.phase.k + 1))
    case ReleasePageEnd =>
      && w.phase.Ending? && w.phase.k == 6
      && s' == Released(c, s, FRAME_HEADER_SIZE, End(w.phase.now), Ended(w.phase.req))
    case SwitchPage =>
      && w.phase.Ended?
      && var t := Stored(s, Plain(w.page, 16, Store(0, LE(w.cursor, 8))), Filling(w.phase.req, 0));
         s' == t.(w := t.w.(page := w.page + 1, cursor := 64, sequence := w.sequence + 1))
    case FillStore =>
      && w.phase.Filling? && w.phase.k < 7
      && var req := w.phase.req;
         s' == Stored(s, Plain(w.page, w.cursor,
                               OpenStores(req.timestamp, req.msgType, req.flags, w.sequence - 1)[w.phase.k]),
                      Filling(req, w.phase.k + 1))
    case FillDone =>
      && w.phase.Filling? && w.phase.k == 7
      && s' == s.(w := w.(phase := Open(w.phase.req)))
    case CallerStore(store) =>
      // The caller fills the payload; a publish hook may also set flags and both times.
      && w.phase.Open? && store.off + |store.bytes| <= FRAME_HEADER_SIZE + w.phase.req.size
      && (store.off >= 16 || (6 <= store.off && store.off + |store.bytes| <= 8))
      && s' == Stored(s, Plain(w.page, w.cursor, store), w.phase)
    case ReleaseFrame =>
      && w.phase.Open?
      && s' == Released(c, s, FRAME_HEADER_SIZE + w.phase.req.size, Data(w.phase.req), Closed(w.phase.req))
    case CloseFrame =>
      && w.phase.Closed?
      && var t := Stored(s, Plain(w.page, 16, Store(0, LE(w.cursor, 8))), Idle);
         s' == t.(w := t.w.(cursor := w.cursor + Stride(w.phase.req.size)))
  }

  ghost predicate WarmerNext(c: Config, s: State, step: WarmerStep, s': State) {
    match step
    case WarmBegin =>
      && s.warmer == Resting
      && s' == s.(top := s.top + 1, warmer := Warming(s.top + 1, 0))
    case WarmStore =>
      && s.warmer.Warming? && s.warmer.k < 6
      && var p, k := s.warmer.page, s.warmer.k;
         s' == s.(log := s.log + [Plain(p, 0, WarmStores(c.P)[k])], warmer := Warming(p, k + 1),
                  hdr := if k == 4 then s.hdr[p := |s.log|] else s.hdr)
    case WarmDone =>
      && s.warmer.Warming? && s.warmer.k == 6
      && s' == s.(warmer := Resting, ready := s.ready + {s.warmer.page})
  }

  ghost predicate ReadsBytes(c: Config, s: State, view: set<nat>, p: nat, a: nat, bytes: Bytes) {
    forall i :: 0 <= i < |bytes| ==> PlainRead(c.base, s.log, view, p, a + i, bytes[i])
  }

  // The reader has handled its frame and moves on by a length and a type.
  ghost function Moved(r: Reader, view: set<nat>, len: nat, msgType: nat, got: Bytes): Reader {
    var r' := r.(view := view, consumed := r.consumed + [got]);
    if msgType == PAGE_END then r'.(phase := Turning)
    else r'.(off := r.off + FramePhysicalLength(len), phase := Polling)
  }

  ghost predicate ReaderNext(c: Config, s: State, step: ReaderStep, r: Reader, r': Reader) {
    match step
    case LoadLength(src, word) =>
      && r.phase == Polling
      && WordLoad(c.base, s.log, r.view, r.page, r.off, 4, src, word)
      && r' == r.(view := Acquired(s.log, r.view, src), phase := Loaded(FromLE(word)))
    case LoadType(half) =>
      && r.phase.Loaded? && |half| == 2 && ReadsBytes(c, s, r.view, r.page, r.off + 4, half)
      && r' == r.(phase := if r.phase.len > 0 && FromLE(half) > 0 then Holding(r.phase.len, FromLE(half), [])
                           else Polling)
    case ReadByte(b) =>
      && r.phase.Holding? && |r.phase.got| < r.phase.len
      && PlainRead(c.base, s.log, r.view, r.page, r.off + |r.phase.got|, b)
      && r' == r.(phase := r.phase.(got := r.phase.got + [b]))
    case Advance =>
      && r.phase.Holding? && |r.phase.got| == r.phase.len
      && r' == Moved(r, r.view, r.phase.len, r.phase.msgType, r.phase.got)
    case NextReloading(src, word, half) =>
      && r.phase.Holding? && |r.phase.got| == r.phase.len
      && WordLoad(c.base, s.log, r.view, r.page, r.off, 4, src, word)
      && |half| == 2 && ReadsBytes(c, s, Acquired(s.log, r.view, src), r.page, r.off + 4, half)
      && r' == Moved(r, Acquired(s.log, r.view, src), FromLE(word), FromLE(half), r.phase.got)
    case TurnPage(prefix, src, lfp) =>
      && r.phase == Turning
      && |prefix| == 12 && ReadsBytes(c, s, r.view, r.page + 1, 0, prefix)
      && WordLoad(c.base, s.log, r.view, r.page + 1, 16, 8, src, lfp)
      && r' == if FromLE(lfp) == 0 || prefix != HeaderPrefix(c.P) || FromLE(lfp) >= c.P then r.(phase := Fault)
               else r.(page := r.page + 1, off := 64, phase := Polling)
  }

  ghost predicate Next(c: Config, s: State, step: Step, s': State) {
    match step
    case OfWriter(ws) => WriterNext(c, s, ws, s')
    case OfWarmer(ws) => WarmerNext(c, s, ws, s')
    case JoinReader(id, n, view) =>
      // At the first frame, or where a seek has put the reader: at a published frame or at the end of them.
      && id !in s.readers && n <= |s.pub|
      && var (page, off) := Pos(c, s.pub, n);
         s' == s.(readers := s.readers[id := Reader(n, page, off, view, [], Polling)])
    case OfReader(id, rs, r') =>
      && id in s.readers && ReaderNext(c, s, rs, s.readers[id], r')
      && s' == s.(readers := s.readers[id := r'])
  }
}
