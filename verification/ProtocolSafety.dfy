/** What every reachable state of the protocol satisfies. */
module ProtocolSafety {
  import opened Layout
  import opened Memory
  import opened Protocol

  // ---------- The invariant ----------

  // The first address of the current page that no store of the session has made non-zero.
  function Hi(w: Writer): nat {
    match w.phase
    case Idle | Loading(_) | Heading(_, _) => w.cursor
    case Ending(_, _, _) | Ended(_) => w.cursor + 64
    case Filling(req, _) => w.cursor + Stride(req.size)
    case Open(req) => w.cursor + Stride(req.size)
    case Closed(req) => w.cursor + Stride(req.size)
  }

  // The end of the published frames of the current page.
  function Lo(w: Writer): nat {
    match w.phase
    case Ended(_) => w.cursor + 64
    case Closed(req) => w.cursor + Stride(req.size)
    case _ => w.cursor
  }

  predicate NextPageLoaded(w: Writer) {
    w.phase.Ending? || w.phase.Ended?
  }

  // Up to which page the writer's view holds every store.
  function Reach(w: Writer): nat {
    if w.phase.Heading? || NextPageLoaded(w) then w.page + 1 else w.page
  }

  function Taken(w: Writer): nat {
    if w.phase.Ending? || w.phase.Filling? || w.phase.Open? then 1 else 0
  }

  ghost predicate WriterOK(c: Config, s: State) {
    var w, P := s.w, c.P;
    && c.page0 <= w.page <= s.top && c.top0 <= s.top
    && 64 <= w.cursor <= P - 64 && w.cursor % 64 == 0
    && w.sequence == c.sequence0 + |s.pub| + Taken(w)
    && (w.phase != Idle ==> ValidRequest(P, w.phase.req))
    && (w.phase.Loading? || w.phase.Heading? || NextPageLoaded(w) ==> w.cursor + Stride(w.phase.req.size) > P - 64)
    && (w.phase.Filling? || w.phase.Open? || w.phase.Closed? ==> w.cursor + Stride(w.phase.req.size) <= P - 64)
    && (w.phase.Heading? ==> w.phase.k <= 6 && w.page + 1 <= s.top)
    && (w.phase.Ending? ==> w.phase.k <= 6)
    && (NextPageLoaded(w) ==> w.page + 1 <= s.top)
    && (w.phase.Filling? ==> w.phase.k <= 7)
  }

  ghost predicate WarmerOK(c: Config, s: State) {
    && (s.warmer.Warming? ==>
          && s.w.page < s.warmer.page <= s.top && s.warmer.k <= 6
          && (s.w.phase.Heading? || NextPageLoaded(s.w) ==> s.warmer.page != s.w.page + 1))
    && (forall p :: p in s.ready ==> p <= s.top && !(s.warmer.Warming? && p == s.warmer.page))
    && (s.w.phase.Heading? ==> s.w.page + 1 !in s.ready)
  }

  ghost predicate EventOK(c: Config, w: Writer, top: nat, e: Event) {
    && c.page0 <= e.page <= top && e.off + |e.bytes| <= c.P
    && (e.page > w.page ==> e.ZeroFrom(64))
    && (e.page == w.page ==> e.ZeroFrom(Hi(w)) && e.ZeroOn(Lo(w), 4))
  }

  ghost predicate LogOK(c: Config, w: Writer, top: nat, log: Log) {
    forall k :: 0 <= k < |log| ==> EventOK(c, w, top, log[k])
  }

  ghost predicate SlotOK(c: Config, s: State) {
    var w := s.w;
    var slot := Image(c.base, s.log, w.page, w.cursor, 32);
    match w.phase
    case Ending(_, now, k) => k <= 6 ==> slot == PutAll(Zeros(32), PageEndStores(now, w.sequence - 1)[..k])
    case Filling(req, k) =>
      k <= 7 ==> slot == PutAll(Zeros(32), OpenStores(req.timestamp, req.msgType, req.flags, w.sequence - 1)[..k])
    case Open(req) => slot[4..6] == LE(req.msgType, 2) && slot[8..16] == LE(w.sequence - 1, 8)
    case _ => true
  }

  ghost predicate PubOK(c: Config, pub: seq<Pub>, i: nat)
    requires i < |pub|
  {
    var p := pub[i];
    && (p.page, p.off) == Pos(c, pub, i)
    && 32 <= |p.bytes| && 64 <= p.off && p.off + FramePhysicalLength(|p.bytes|) <= c.P
    && LengthOf(p.bytes) == |p.bytes|
    && match p.kind
       case Data(req) =>
         && ValidRequest(c.P, req) && |p.bytes| == FRAME_HEADER_SIZE + req.size
         && p.off + Stride(req.size) <= c.P - 64
         && p.bytes[4..6] == LE(req.msgType, 2) && p.bytes[8..16] == LE(c.sequence0 + i, 8)
       case End(now) => p.bytes == HeaderBytes(32, PAGE_END, 0, c.sequence0 + i, now, 0)
  }

  ghost predicate ChainOK(c: Config, pub: seq<Pub>) {
    forall i :: 0 <= i < |pub| ==> PubOK(c, pub, i)
  }

  ghost predicate FrontierOK(c: Config, pub: seq<Pub>, w: Writer) {
    && Pos(c, pub, |pub|) == (if w.phase.Ended? then (w.page + 1, 64) else (w.page, Lo(w)))
    && forall i :: 0 <= i < |pub| ==>
         pub[i].page < w.page || (pub[i].page == w.page && pub[i].off + FramePhysicalLength(|pub[i].bytes|) <= Lo(w))
  }

  // The last page on which the release of p makes every earlier store visible.
  function Covered(p: Pub): nat {
    if p.kind.End? then p.page + 1 else p.page
  }

  ghost predicate FrameSafe(base: Disk, log: Log, p: Pub) {
    && |p.bytes| >= 32 && p.idx < |log|
    && log[p.idx] == Event(p.page, p.off, LE(|p.bytes|, 4), log[p.idx].rel)
    && (forall k :: p.idx < k < |log| ==> log[k].Avoids(p.page, p.off, p.off + |p.bytes|))
    && (forall k :: 0 <= k < |log| && k != p.idx && log[k].page == p.page ==> log[k].ZeroOn(p.off, 4))
    && Image(base, log, p.page, p.off, |p.bytes|) == p.bytes
    && (forall k :: 0 <= k <= p.idx && log[k].page <= Covered(p) ==> k in log[p.idx].rel)
    && (forall k :: k in log[p.idx].rel ==> k <= p.idx && log[k].page <= Covered(p))
  }

  ghost predicate SafeOK(base: Disk, log: Log, pub: seq<Pub>) {
    forall i :: 0 <= i < |pub| ==> FrameSafe(base, log, pub[i])
  }

  ghost predicate LfpStore(P: PageSize, e: Event) {
    e.off == 16 && |e.bytes| == 8 && PAGE_HEADER_SIZE <= FromLE(e.bytes) < P
  }

  ghost predicate LfpWord(P: PageSize, base: Disk, p: nat) {
    p in base && |base[p]| == P && PAGE_HEADER_SIZE <= FromLE(base[p][16..24]) < P
  }

  // The header of page p is complete since store g.
  ghost predicate HeaderOK(c: Config, log: Log, p: nat, g: int) {
    && -1 <= g < |log|
    && (g == -1 ==> LfpWord(c.P, c.base, p))
    && (g >= 0 ==> log[g].page == p && LfpStore(c.P, log[g]))
    && (forall k :: g < k < |log| && log[k].page == p ==> log[k].off >= 64 || LfpStore(c.P, log[k]))
    && Image(c.base, log, p, 0, 12) == HeaderPrefix(c.P)
  }

  ghost predicate InProgress(s: State, p: nat) {
    || (s.w.phase.Heading? && p == s.w.page + 1 && s.w.phase.k < 6)
    || (s.warmer.Warming? && p == s.warmer.page && s.warmer.k < 5)
  }

  ghost predicate HeadersOK(c: Config, s: State) {
    && (forall p :: p in s.hdr ==> c.page0 <= p <= s.top && HeaderOK(c, s.log, p, s.hdr[p]))
    && (forall p :: c.page0 <= p <= s.top ==> (p in s.hdr <==> !InProgress(s, p)))
  }

  ghost predicate MakingOK(c: Config, s: State) {
    && (s.w.phase.Heading? && s.w.phase.k <= 6 ==>
          Image(c.base, s.log, s.w.page + 1, 0, c.P) == PutAll(Zeros(c.P), PageHeaderStores(c.P)[..s.w.phase.k]))
    && (s.warmer.Warming? && s.warmer.k <= 6 ==>
          Image(c.base, s.log, s.warmer.page, 0, c.P) == PutAll(Zeros(c.P), WarmStores(c.P)[..s.warmer.k]))
  }

  // Rotation ordering: a released PageEnd comes after the header of the next page.
  ghost predicate RotationOK(hdr: map<nat, int>, pub: seq<Pub>) {
    forall i :: 0 <= i < |pub| && pub[i].kind.End? ==>
      pub[i].page + 1 in hdr && hdr[pub[i].page + 1] < pub[i].idx
  }

  ghost predicate ViewOK(log: Log, w: Writer) {
    && (forall k :: 0 <= k < |log| && log[k].page <= Reach(w) ==> k in w.view)
    && (forall k :: k in w.view ==> k < |log| && log[k].page <= Reach(w))
  }

  ghost predicate Consumed(pub: seq<Pub>, from: nat, consumed: seq<Bytes>) {
    && from + |consumed| <= |pub|
    && forall i :: 0 <= i < |consumed| ==> consumed[i] == pub[from + i].bytes
  }

  ghost predicate ReaderOK(c: Config, log: Log, pub: seq<Pub>, r: Reader) {
    var n := Due(r);
    && Consumed(pub, r.from, r.consumed)
    && (forall i :: 0 <= i < |pub| ==> pub[i].idx < |log|)
    && match r.phase
       case Polling => (r.page, r.off) == Pos(c, pub, n)
       case Loaded(len) =>
         && (r.page, r.off) == Pos(c, pub, n)
         && (len > 0 ==> n < |pub| && len == |pub[n].bytes| && log[pub[n].idx].rel <= r.view)
       case Holding(len, msgType, got) =>
         && (r.page, r.off) == Pos(c, pub, n)
         && n < |pub| && len == |pub[n].bytes| && log[pub[n].idx].rel <= r.view
         && len >= 32 && msgType == TypeOf(pub[n].bytes)
         && |got| <= len && got == pub[n].bytes[..|got|]
       case Turning =>
         && 0 < n && pub[n - 1].kind.End? && r.page == pub[n - 1].page
         && log[pub[n - 1].idx].rel <= r.view
       case Fault => false
  }

  ghost predicate ReadersOK(c: Config, log: Log, pub: seq<Pub>, readers: map<nat, Reader>) {
    forall id :: id in readers ==> ReaderOK(c, log, pub, readers[id])
  }

  ghost predicate Inv(c: Config, s: State) {
    && ValidConfig(c)
    && WriterOK(c, s) && WarmerOK(c, s)
    && LogOK(c, s.w, s.top, s.log) && SlotOK(c, s)
    && ChainOK(c, s.pub) && FrontierOK(c, s.pub, s.w) && SafeOK(c.base, s.log, s.pub)
    && HeadersOK(c, s) && MakingOK(c, s) && RotationOK(s.hdr, s.pub)
    && ViewOK(s.log, s.w) && ReadersOK(c, s.log, s.pub, s.readers)
  }
}
