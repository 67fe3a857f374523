/** The writer as one thread runs it: frames are made in place in the bytes of the current page. */
module JournalWriter {
  import opened Layout
  import opened Memory
  import opened Recovery
  import opened Seek

  function FrameBytes(msgType: nat, flags: nat, sequence: nat, genTime: int, payload: Bytes): Bytes {
    HeaderBytes(FRAME_HEADER_SIZE + |payload|, msgType, flags, sequence, genTime, 0) + payload
  }

  function PageEndBytes(sequence: nat, now: int): Bytes {
    HeaderBytes(FRAME_HEADER_SIZE, PAGE_END, 0, sequence, now, 0)
  }

  // ---------- Walking a page that grows at one end ----------

  // Following committed frames from `at` leads exactly to `end`.
  predicate Reaches(P: PageSize, img: Bytes, at: nat, end: nat)
    requires |img| == P && end + 64 <= P
    decreases P - at
  {
    at == end
    || (at < end
        && var len := LengthAt(img, at);
           && 32 <= len <= P && at + FramePhysicalLength(len) <= end
           && TypeOf(HeaderAt(img, at)) != PAGE_END
           && Reaches(P, img, at + FramePhysicalLength(len), end))
  }

  lemma SameWord(a: Bytes, b: Bytes, end: nat, lo: nat, hi: nat)
    requires |a| == |b| && 64 <= lo <= hi <= end <= |a| && a[64..end] == b[64..end]
    ensures a[lo..hi] == b[lo..hi]
  {
    SliceOfSlice(a, 64, end, lo, hi);
    SliceOfSlice(b, 64, end, lo, hi);
  }

  lemma SameFrame(img: Bytes, img': Bytes, end: nat, at: nat)
    requires |img| == |img'| && 64 <= at && at + 32 <= end <= |img| && img[64..end] == img'[64..end]
    ensures LengthAt(img, at) == LengthAt(img', at) && HeaderAt(img, at) == HeaderAt(img', at)
    ensures at + LengthAt(img, at) <= end ==> img[at..at + LengthAt(img, at)] == img'[at..at + LengthAt(img, at)]
  {
    hide FromLE;
    SameWord(img, img', end, at, at + 4);
    SameWord(img, img', end, at, at + 32);
    if at + LengthAt(img, at) <= end {
      SameWord(img, img', end, at, at + LengthAt(img, at));
    }
  }

  lemma {:induction false} ReachesSame(P: PageSize, img: Bytes, img': Bytes, at: nat, end: nat)
    requires |img| == P && |img'| == P && 64 <= at && 64 <= end && end + 64 <= P && Reaches(P, img, at, end)
    requires img[64..end] == img'[64..end]
    ensures Reaches(P, img', at, end)
    decreases P - at
  {
    hide LengthAt, HeaderAt, TypeOf;
    if at < end {
      SameFrame(img, img', end, at);
      ReachesSame(P, img, img', at + FramePhysicalLength(LengthAt(img, at)), end);
    }
  }

  /** Bytes from `end` on changed: the walk is what it was, followed by what is found at `end`. */
  lemma {:induction false} WalkExtends(P: PageSize, img: Bytes, img': Bytes, at: nat, end: nat)
    requires |img| == P && |img'| == P && 64 <= at && 64 <= end && end + 64 <= P && Reaches(P, img, at, end)
    requires img[64..end] == img'[64..end] && Walk(P, img, end) == []
    ensures Walk(P, img', at) == Walk(P, img, at) + Walk(P, img', end)
    decreases P - at
  {
    hide FromLE, TypeOf, Walk, FramePhysicalLength;
    if at < end {
      FrameReached(P, img, at, end);
      SameFrame(img, img', end, at);
      SameHeader(img, at, LengthAt(img, at));
      WalkStep(P, img, at);
      WalkStep(P, img', at);
      WalkExtends(P, img, img', at + FramePhysicalLength(LengthAt(img, at)), end);
    }
  }

  lemma FrameReached(P: PageSize, img: Bytes, at: nat, end: nat)
    requires |img| == P && end + 64 <= P && Reaches(P, img, at, end) && at < end
    ensures var len := LengthAt(img, at);
            && 32 <= len <= FramePhysicalLength(len) && 64 <= FramePhysicalLength(len)
            && at + FramePhysicalLength(len) <= end && TypeOf(HeaderAt(img, at)) != PAGE_END
            && Reaches(P, img, at + FramePhysicalLength(len), end)
  {
    hide LengthAt, HeaderAt, TypeOf;
  }

  lemma {:induction false} ReachesFurther(P: PageSize, img: Bytes, at: nat, mid: nat, end: nat)
    requires |img| == P && mid < end && end + 64 <= P && Reaches(P, img, at, mid)
    requires var len := LengthAt(img, mid);
             32 <= len <= P && mid + FramePhysicalLength(len) == end && TypeOf(HeaderAt(img, mid)) != PAGE_END
    ensures Reaches(P, img, at, end)
    decreases P - at
  {
    hide FromLE, TypeOf;
    if at < mid {
      ReachesFurther(P, img, at + FramePhysicalLength(LengthAt(img, at)), mid, end);
    } else {
      assert Reaches(P, img, end, end);
    }
  }

  ghost predicate ZeroFrom(img: Bytes, at: nat) {
    forall a :: at <= a < |img| ==> img[a] == 0
  }

  lemma ZeroStops(P: PageSize, img: Bytes, at: nat)
    requires |img| == P && at + 64 <= P && forall a :: at <= a < at + 4 ==> img[a] == 0
    ensures Walk(P, img, at) == [] && LengthAt(img, at) == 0
  {
    var word := img[at..at + 4];
    assert forall i :: 0 <= i < 4 ==> word[i] == 0;
    FromLEZero(word);
    WalkStep(P, img, at);
  }

  // ---------- In-place stores ----------

  method PutBytes(a: array<byte>, off: nat, bytes: Bytes)
    requires off + |bytes| <= a.Length
    modifies a
    ensures a[..] == Put(old(a[..]), Store(off, bytes))
  {
    var i := 0;
    while i < |bytes|
      invariant 0 <= i <= |bytes|
      invariant forall k :: 0 <= k < a.Length ==>
        a[k] == if off <= k < off + i then bytes[k - off] else old(a[k])
    {
      a[off + i] := bytes[i];
      i := i + 1;
    }
  }

  // A store inside the slot [off, off + n) as seen from the slot and from outside it.
  lemma PutInSlot(img: Bytes, off: nat, n: nat, st: Store)
    requires off + n <= |img| && st.off + |st.bytes| <= n
    ensures var img' := Put(img, Store(off + st.off, st.bytes));
            && img'[off..off + n] == Put(img[off..off + n], st)
            && img'[..off] == img[..off] && img'[off + n..] == img[off + n..]
  {
  }

  lemma NoStores(img: Bytes)
    ensures PutAll(img, []) == img
  {
  }

  // Everything of an image but its slot.
  ghost predicate SameOutside(a: Bytes, b: Bytes, off: nat, n: nat) {
    |a| == |b| && off + n <= |a| && a[..off] == b[..off] && a[off + n..] == b[off + n..]
  }

  // The stores are made one after the other, each at its place in the slot.
  method PutStores(a: array<byte>, off: nat, n: nat, stores: seq<Store>)
    requires off + n <= a.Length && StoresFit(stores, n)
    modifies a
    ensures a[..][off..off + n] == PutAll(old(a[..])[off..off + n], stores)
    ensures SameOutside(a[..], old(a[..]), off, n)
  {
    hide PutAll, Put;
    var k := 0;
    ghost var slot := a[..][off..off + n];
    NoStores(slot);
    assert stores[..0] == [];
    while k < |stores|
      invariant 0 <= k <= |stores|
      invariant StoresFit(stores[..k], n) && a[..][off..off + n] == PutAll(slot, stores[..k])
      invariant SameOutside(a[..], old(a[..]), off, n)
    {
      assert stores[..k + 1] == stores[..k] + [stores[k]];
      assert StoresFit(stores[..k + 1], n);
      PutAllAppend(slot, stores[..k], stores[k]);
      PutInSlot(a[..], off, n, stores[k]);
      PutBytes(a, off + stores[k].off, stores[k].bytes);
      k := k + 1;
    }
    assert stores[..k] == stores;
  }

  // ---------- One page ----------

  // Committed frames lead from the page header to the cursor, and none is at the cursor.
  ghost predicate Tiled(P: PageSize, img: Bytes, cursor: nat) {
    && |img| == P && 64 <= cursor <= P - 64 && cursor % 64 == 0
    && ValidPageHeader(P, img) && Reaches(P, img, 64, cursor) && LengthAt(img, cursor) == 0
  }

  lemma NothingAt(P: PageSize, img: Bytes, at: nat)
    requires |img| == P && at + 64 <= P && LengthAt(img, at) == 0
    ensures Walk(P, img, at) == []
  {
    hide FromLE;
    WalkStep(P, img, at);
  }

  lemma ZeroLength(P: PageSize, img: Bytes, at: nat, from: nat)
    requires |img| == P && from <= at && at + 64 <= P && ZeroFrom(img, from)
    ensures LengthAt(img, at) == 0
  {
    ZeroStops(P, img, at);
  }

  // A frame put at the cursor is found there.
  lemma FrameFound(P: PageSize, img': Bytes, cursor: nat, frame: Bytes)
    requires |img'| == P && 32 <= |frame| && LengthOf(frame) == |frame| && cursor + FramePhysicalLength(|frame|) <= P
    requires cursor + |frame| <= P && img'[cursor..cursor + |frame|] == frame
    ensures LengthAt(img', cursor) == |frame| && TypeOf(HeaderAt(img', cursor)) == TypeOf(frame)
    ensures Walk(P, img', cursor)
            == [frame] + if TypeOf(frame) == PAGE_END then [] else Walk(P, img', cursor + FramePhysicalLength(|frame|))
  {
    hide FromLE, TypeOf, Walk;
    SliceOfSlice(img', cursor, cursor + |frame|, cursor, cursor + 4);
    assert frame[0..4] == img'[cursor..cursor + 4];
    SameHeader(img', cursor, |frame|);
    WalkFrame(P, img', cursor, frame);
  }

  lemma AppendedAt(P: PageSize, img: Bytes, img': Bytes, cursor: nat, frame: Bytes)
    requires Tiled(P, img, cursor) && |img'| == P && img[64..cursor] == img'[64..cursor]
    requires 32 <= |frame| && LengthOf(frame) == |frame| && cursor + FramePhysicalLength(|frame|) <= P
    requires cursor + |frame| <= P && img'[cursor..cursor + |frame|] == frame
    ensures LengthAt(img', cursor) == |frame| && TypeOf(HeaderAt(img', cursor)) == TypeOf(frame)
    ensures Reaches(P, img', 64, cursor) && (cursor + FramePhysicalLength(|frame|)) % 64 == 0
    ensures Walk(P, img', 64) == Walk(P, img, 64)
            + ([frame] + if TypeOf(frame) == PAGE_END then [] else Walk(P, img', cursor + FramePhysicalLength(|frame|)))
  {
    hide LengthAt, HeaderAt, LengthOf, TypeOf, Walk, Reaches, ValidPageHeader, FramePhysicalLength, AlignUp;
    NothingAt(P, img, cursor);
    ReachesSame(P, img, img', 64, cursor);
    WalkExtends(P, img, img', 64, cursor);
    FrameFound(P, img', cursor, frame);
    SumAligned(cursor, FramePhysicalLength(|frame|));
  }

  lemma SumAligned(m: nat, n: nat)
    requires m % 64 == 0 && n % 64 == 0
    ensures (m + n) % 64 == 0
  {
  }

  /** A frame put at the cursor becomes the last one of the page, and every earlier one is as it was. */
  lemma FrameAppended(P: PageSize, img: Bytes, img': Bytes, cursor: nat, frame: Bytes)
    requires Tiled(P, img, cursor) && |img'| == P && img[64..cursor] == img'[64..cursor]
    requires 32 <= |frame| && LengthOf(frame) == |frame| && cursor + FramePhysicalLength(|frame|) <= P
    requires cursor + |frame| <= P && img'[cursor..cursor + |frame|] == frame
    ensures TypeOf(frame) == PAGE_END ==> Walk(P, img', 64) == Walk(P, img, 64) + [frame]
    ensures var next := cursor + FramePhysicalLength(|frame|);
            TypeOf(frame) != PAGE_END && next <= P - 64 && LengthAt(img', next) == 0 ==>
              Walk(P, img', 64) == Walk(P, img, 64) + [frame] && Reaches(P, img', 64, next) && next % 64 == 0
  {
    hide LengthAt, HeaderAt, LengthOf, TypeOf, Walk, Reaches, ValidPageHeader, FramePhysicalLength, AlignUp, Tiled;
    AppendedAt(P, img, img', cursor, frame);
    assert [frame] + [] == [frame];
    var next := cursor + FramePhysicalLength(|frame|);
    if TypeOf(frame) != PAGE_END && next <= P - 64 && LengthAt(img', next) == 0 {
      NothingAt(P, img', next);
      ReachesFurther(P, img', 64, cursor, next);
    }
  }

  // Bytes below the cursor outside the page header stay; the header stays valid.
  ghost predicate Kept(P: PageSize, img: Bytes, img': Bytes, cursor: nat) {
    |img| == P && |img'| == P && 64 <= cursor <= P && img'[64..cursor] == img[64..cursor] && ValidPageHeader(P, img')
  }

  /** Storing in a slot behind the cursor, with a zero length, leaves the walk as it was. */
  lemma SlotFilled(P: PageSize, img: Bytes, img': Bytes, cursor: nat)
    requires Tiled(P, img, cursor) && Kept(P, img, img', cursor) && LengthAt(img', cursor) == 0
    ensures Tiled(P, img', cursor) && Walk(P, img', 64) == Walk(P, img, 64)
  {
    hide FromLE, TypeOf, Walk, Reaches, ValidPageHeader;
    NothingAt(P, img, cursor);
    NothingAt(P, img', cursor);
    ReachesSame(P, img, img', 64, cursor);
    WalkExtends(P, img, img', 64, cursor);
  }

  lemma OutsideKept(P: PageSize, img: Bytes, img': Bytes, cursor: nat, n: nat)
    requires |img| == P && 64 <= cursor && cursor + n <= P && SameOutside(img', img, cursor, n)
            && ValidPageHeader(P, img)
    ensures Kept(P, img, img', cursor)
  {
    assert img'[..cursor][0..12] == img'[0..12] && img[..cursor][0..12] == img[0..12];
    assert img'[..cursor][16..24] == img'[16..24] && img[..cursor][16..24] == img[16..24];
    assert img'[..cursor][64..cursor] == img'[64..cursor] && img[..cursor][64..cursor] == img[64..cursor];
  }

  // What setLastFramePosition does to the page.
  lemma PositionStored(P: PageSize, img: Bytes, off: nat)
    requires |img| == P && ValidPageHeader(P, img) && 64 <= off < P
    ensures var img' := Put(img, Store(16, LE(off, 8)));
            && ValidPageHeader(P, img') && LfpOf(img') == off
            && (forall a :: 64 <= a < P ==> img'[a] == img[a]) && img'[64..] == img[64..]
  {
    hide LE, FromLE;
    var st := Store(16, LE(off, 8));
    PutSlice(img, st, 0, 12);
    PutSlice(img, st, 16, 24);
    PowValues();
    UnsignedRoundTrip(off, 8);
  }

  lemma TailSlice(img: Bytes, img': Bytes, lo: nat, hi: nat)
    requires |img| == |img'| && 64 <= lo <= hi <= |img| && img'[64..] == img[64..]
    ensures img'[lo..hi] == img[lo..hi]
  {
    assert img'[64..][lo - 64..hi - 64] == img'[lo..hi] && img[64..][lo - 64..hi - 64] == img[lo..hi];
  }

  // A header with its length filled in.
  lemma LengthStored(len: int, msgType: int, flags: int, sequence: int, genTime: int)
    ensures HeaderBytes(len, msgType, flags, sequence, genTime, 0)
            == LE(len, 4) + HeaderBytes(0, msgType, flags, sequence, genTime, 0)[4..]
  {
    hide LE;
  }

  lemma FreshPageTiled(P: PageSize, img: Bytes)
    requires |img| == P && img[0..64] == PutAll(Zeros(64), PageHeaderStores(P)) && ZeroFrom(img, 64)
    ensures Tiled(P, img, 64) && Walk(P, img, 64) == []
  {
    hide FromLE, LE, PutAll, HeaderPrefix;
    PageHeaderStoresResult(P, Zeros(64));
    SliceOfSlice(img, 0, 64, 0, 12);
    SliceOfSlice(img, 0, 64, 16, 24);
    ZeroStops(P, img, 64);
  }

  // Storing a header with zero length in the slot of a page.
  lemma HeaderStored(P: PageSize, img: Bytes, img1: Bytes, cursor: nat, stores: seq<Store>, h: Bytes)
    requires Tiled(P, img, cursor) && SameOutside(img1, img, cursor, 32) && StoresFit(stores, 32)
    requires img1[cursor..cursor + 32] == PutAll(img[cursor..cursor + 32], stores) == h
    requires h[0..4] == LE(0, 4)
    ensures Tiled(P, img1, cursor) && Walk(P, img1, 64) == Walk(P, img, 64) && HeaderAt(img1, cursor) == h
    ensures forall a :: cursor + 32 <= a < P ==> img1[a] == img[a]
  {
    hide FromLE, LE, PutAll, Walk, Reaches;
    OutsideKept(P, img, img1, cursor, 32);
    SliceOfSlice(img1, cursor, cursor + 32, cursor, cursor + 4);
    PowValues();
    UnsignedRoundTrip(0, 4);
    SlotFilled(P, img, img1, cursor);
    forall a | cursor + 32 <= a < P
      ensures img1[a] == img[a]
    {
      assert img1[a] == img1[cursor + 32..][a - cursor - 32];
    }
  }

  lemma LengthPut(img: Bytes, cursor: nat, len: nat)
    requires 32 <= len && cursor + len <= |img|
    ensures var img' := Put(img, Store(cursor, LE(len, 4)));
            && img'[cursor..cursor + len] == LE(len, 4) + img[cursor..cursor + len][4..]
            && img'[..cursor] == img[..cursor]
            && (forall a :: cursor + len <= a < |img| ==> img'[a] == img[a])
  {
    hide LE;
  }

  // The frame at the cursor is published: its length is stored, then the page's last-frame position.
  lemma FramePublished(P: PageSize, img: Bytes, cursor: nat, len: nat)
    requires Tiled(P, img, cursor) && 32 <= len && cursor + FramePhysicalLength(len) <= P
    requires len < 0x1_0000_0000 && cursor + len <= P
    ensures var frame := LE(len, 4) + img[cursor..cursor + len][4..];
            var img2 := Put(img, Store(cursor, LE(len, 4)));
            var img3 := Put(img2, Store(16, LE(cursor, 8)));
            && |img3| == P && |frame| == len && LengthOf(frame) == len && LfpOf(img3) == cursor
            && (TypeOf(frame) == PAGE_END ==> Walk(P, img3, 64) == Walk(P, img, 64) + [frame])
            && (TypeOf(frame) != PAGE_END && cursor + FramePhysicalLength(len) <= P - 64
                && ZeroFrom(img, cursor + FramePhysicalLength(len)) ==>
                  && Walk(P, img3, 64) == Walk(P, img, 64) + [frame]
                  && Tiled(P, img3, cursor + FramePhysicalLength(len))
                  && ZeroFrom(img3, cursor + FramePhysicalLength(len)))
  {
    hide FromLE, LE, TypeOf, Walk, Reaches, Put;
    var frame := LE(len, 4) + img[cursor..cursor + len][4..];
    var img2 := Put(img, Store(cursor, LE(len, 4)));
    var img3 := Put(img2, Store(16, LE(cursor, 8)));
    LengthPut(img, cursor, len);
    PowValues();
    UnsignedRoundTrip(len, 4);
    assert frame[0..4] == LE(len, 4);
    PrefixKept(P, img, img2, cursor);
    PositionStored(P, img2, cursor);
    TailSlice(img2, img3, cursor, cursor + len);
    TailSlice(img2, img3, 64, cursor);
    FrameAppended(P, img, img3, cursor, frame);
    var next := cursor + FramePhysicalLength(len);
    if next <= P - 64 && ZeroFrom(img, next) {
      assert ZeroFrom(img3, next);
      ZeroLength(P, img3, next, next);
    }
  }

  lemma PrefixKept(P: PageSize, img: Bytes, img': Bytes, cursor: nat)
    requires |img| == P && |img'| == P && 64 <= cursor <= P && img'[..cursor] == img[..cursor]
            && ValidPageHeader(P, img)
    ensures Kept(P, img, img', cursor)
  {
    hide FromLE, HeaderPrefix;
    assert img'[..cursor][0..12] == img'[0..12] && img[..cursor][0..12] == img[0..12];
    assert img'[..cursor][16..24] == img'[16..24] && img[..cursor][16..24] == img[16..24];
    assert img'[..cursor][64..cursor] == img'[64..cursor] && img[..cursor][64..cursor] == img[64..cursor];
  }

  // ---------- The stream ----------

  // The frames of pages first to n - 1.
  function FramesBefore(P: PageSize, files: map<nat, Bytes>, first: nat, n: nat): seq<Bytes>
    decreases n
  {
    if n <= first then []
    else FramesBefore(P, files, first, n - 1)
         + if n - 1 in files && |files[n - 1]| == P then Walk(P, files[n - 1], 64) else []
  }

  lemma {:induction false} LaterPageIrrelevant(P: PageSize, files: map<nat, Bytes>, first: nat, n: nat, p: nat,
                                               img: Bytes)
    requires n <= p
    ensures FramesBefore(P, files[p := img], first, n) == FramesBefore(P, files, first, n)
    decreases n
  {
    hide Walk;
    if n > first {
      LaterPageIrrelevant(P, files, first, n - 1, p, img);
    }
  }

  predicate Fits(P: PageSize, cursor: nat, size: nat) {
    cursor + Stride(size) <= P - FRAME_ALIGNMENT
  }

  // What the caller owes: a frame that a fresh page can hold, and a type that readers take for data.
  predicate Writable(P: PageSize, msgType: nat, size: nat) {
    Stride(size) <= P - 128 && 0 < msgType < 0x1_0000 && msgType != PAGE_END
  }

  // The page the writer has left says where its PageEnd is; the other files are as they were.
  predicate Left(files: map<nat, Bytes>, files': map<nat, Bytes>, p: nat, end: nat) {
    p in files' && |files'[p]| >= 64 && LfpOf(files'[p]) == end && files' == files[p := files'[p]]
  }

  class Writer {
    const P: PageSize
    const first: nat
    var page: array<byte>
    var pageId: nat
    var cursor: nat
    var sequence: nat
    var isOpen: bool
    var openSize: nat
    var files: map<nat, Bytes>

    ghost predicate Valid()
      reads this, page
    {
      && page.Length == P && first <= pageId
      && Tiled(P, page[..], cursor)
      && (if isOpen then Fits(P, cursor, openSize) && ZeroFrom(page[..], cursor + Stride(openSize))
                         && TypeOf(HeaderAt(page[..], cursor)) != PAGE_END
          else ZeroFrom(page[..], cursor))
    }

    /** What a reader of the pages finds. */
    ghost function Stream(): seq<Bytes>
      requires Valid()
      reads this, page
    {
      FramesBefore(P, files, first, pageId) + Walk(P, page[..], 64)
    }

    method NewPage() returns (a: array<byte>)
      ensures fresh(a) && a.Length == P
      ensures Tiled(P, a[..], 64) && ZeroFrom(a[..], 64) && Walk(P, a[..], 64) == []
    {
      hide PutAll, Walk, Reaches, ValidPageHeader;
      a := new byte[P](_ => 0);
      assert a[..][0..64] == Zeros(64);
      PutStores(a, 0, 64, PageHeaderStores(P));
      forall x | 64 <= x < P
        ensures a[..][x] == 0
      {
        assert a[..][x] == a[..][64..][x - 64];
      }
      FreshPageTiled(P, a[..]);
    }

    constructor (P: PageSize, first: nat, sequence: nat)
      ensures Valid() && !isOpen && fresh(page) && Stream() == []
      ensures this.P == P && this.first == first && pageId == first && cursor == 64 && this.sequence == sequence
    {
      hide Tiled, Walk;
      this.P, this.first, this.sequence := P, first, sequence;
      pageId, cursor, isOpen, openSize, files := first, 64, false, 0, map[];
      page := new byte[P](_ => 0);
      new;
      page := NewPage();
    }

    method RotatePage(now: int)
      requires Valid() && !isOpen
      modifies this, page
      ensures Valid() && !isOpen && fresh(page)
      ensures pageId == old(pageId) + 1 && cursor == 64 && sequence == old(sequence) + 1
      ensures Stream() == old(Stream()) + [PageEndBytes(old(sequence), now)]
      ensures Left(old(files), files, old(pageId), old(cursor))
    {
      hide FromLE, LE, PutAll, Put, Walk, Reaches, ValidPageHeader, HeaderBytes, TypeOf;
      ghost var img := page[..];
      var nextPage := NewPage();
      PutStores(page, cursor, 32, PageEndStores(now, sequence));
      EndStored(P, img, page[..], cursor, now, sequence);
      sequence := sequence + 1;
      PutBytes(page, cursor, LE(FRAME_HEADER_SIZE, 4));
      PutBytes(page, 16, LE(cursor, 8));
      LaterPageIrrelevant(P, files, first, pageId, pageId, page[..]);
      files := files[pageId := page[..]];
      page := nextPage;
      pageId, cursor := pageId + 1, 64;
    }

    /** Room is made by ending the page if the frame does not fit; then the header is written with length
        zero, so that no reader sees the frame yet. */
    method OpenFrame(timestamp: int, msgType: nat, size: nat, flags: nat, now: int)
      requires Valid() && !isOpen && Writable(P, msgType, size)
      modifies this, page
      ensures Valid() && isOpen && openSize == size
      ensures var fits := Fits(P, old(cursor), size);
              && pageId == old(pageId) + (if fits then 0 else 1) && cursor == (if fits then old(cursor) else 64)
              && sequence == old(sequence) + (if fits then 1 else 2)
              && Stream() == old(Stream()) + (if fits then [] else [PageEndBytes(old(sequence), now)])
              && (if fits then page == old(page) && files == old(files)
                  else fresh(page) && Left(old(files), files, old(pageId), old(cursor)))
      ensures HeaderAt(page[..], cursor) == HeaderBytes(0, msgType, flags, sequence - 1, timestamp, 0)
      ensures ZeroFrom(page[..], cursor + 32)
    {
      hide FromLE, LE, PutAll, Put, Walk, Reaches, ValidPageHeader, HeaderBytes, TypeOf, Stride, AlignUp,
        FramePhysicalLength, Tiled, HeaderAt, OpenStores;
      FrameRoom(P, cursor, size);
      StrideFits(P, FRAME_HEADER_SIZE + size);
      var stride := FramePhysicalLength32(FRAME_HEADER_SIZE + size);
      if cursor + stride > P - FRAME_ALIGNMENT {
        RotatePage(now);
      }
      FrameRoom(P, cursor, size);
      ghost var img := page[..];
      PutStores(page, cursor, 32, OpenStores(timestamp, msgType, flags, sequence));
      SlotOpened(P, img, page[..], cursor, timestamp, msgType, flags, sequence);
      sequence := sequence + 1;
      isOpen, openSize := true, size;
    }

    // The caller's own stores into the payload it was given.
    method FillPayload(data: Bytes)
      requires Valid() && isOpen && |data| <= openSize
      modifies page
      ensures Valid() && Stream() == old(Stream())
      ensures HeaderAt(page[..], cursor) == old(HeaderAt(page[..], cursor))
      ensures page[..][cursor + 32..cursor + 32 + |data|] == data
    {
      hide FromLE, LE, Put, Walk, Reaches, ValidPageHeader, HeaderBytes, TypeOf, Stride;
      FrameRoom(P, cursor, openSize);
      ghost var img := page[..];
      PutBytes(page, cursor + 32, data);
      PayloadStored(P, img, cursor, openSize, data);
    }

    /** Storing the length publishes the frame as it stands in its slot; the page's last-frame position and
        the cursor follow. */
    method CloseFrame(size: nat)
      requires Valid() && isOpen && size == openSize
      modifies this`isOpen, this`cursor, page
      ensures Valid() && !isOpen && cursor == old(cursor) + Stride(size)
      ensures LfpOf(page[..]) == old(cursor)
      ensures Stream() == old(Stream())
                          + [LE(FRAME_HEADER_SIZE + size, 4) + old(page[..][cursor..cursor + 32 + size])[4..]]
    {
      hide FromLE, LE, Put, Walk, Reaches, ValidPageHeader, HeaderBytes, TypeOf;
      FrameRoom(P, cursor, size);
      var totalSize := FRAME_HEADER_SIZE + size;
      StrideFits(P, totalSize);
      FramePublished(P, page[..], cursor, totalSize);
      PublishedType(page[..], cursor, totalSize);
      PutBytes(page, cursor, LE(totalSize, 4));
      PutBytes(page, 16, LE(cursor, 8));
      isOpen := false;
      cursor := cursor + FramePhysicalLength32(totalSize);
    }

    // false stands for the exception thrown when no frame is open.
    method CloseData(size: nat) returns (closed: bool)
      requires Valid() && (isOpen ==> size == openSize)
      modifies this`isOpen, this`cursor, page
      ensures Valid() && !isOpen && closed == old(isOpen)
      ensures !closed ==> Stream() == old(Stream()) && cursor == old(cursor)
      ensures closed ==>
        && cursor == old(cursor) + Stride(size) && LfpOf(page[..]) == old(cursor)
        && Stream() == old(Stream())
                       + [LE(FRAME_HEADER_SIZE + size, 4) + old(page[..][cursor..cursor + 32 + size])[4..]]
    {
      closed := isOpen;
      if !isOpen {
        return;
      }
      CloseFrame(size);
    }

    /** One whole write: what readers find grows by exactly this frame, after a PageEnd if it did not fit. */
    method WriteBytes(timestamp: int, msgType: nat, data: Bytes, now: int)
      requires Valid() && !isOpen && Writable(P, msgType, |data|)
      modifies this, page
      ensures Valid() && !isOpen
      ensures var fits := Fits(P, old(cursor), |data|);
              && pageId == old(pageId) + (if fits then 0 else 1)
              && cursor == (if fits then old(cursor) else 64) + Stride(|data|)
              && sequence == old(sequence) + (if fits then 1 else 2)
              && Stream() == old(Stream()) + (if fits then [] else [PageEndBytes(old(sequence), now)])
                             + [FrameBytes(msgType, 0, sequence - 1, timestamp, data)]
              && (if fits then page == old(page) && files == old(files)
                  else fresh(page) && Left(old(files), files, old(pageId), old(cursor)))
      ensures LfpOf(page[..]) == cursor - Stride(|data|)
    {
      hide FromLE, LE, Put, Walk, Reaches, ValidPageHeader, HeaderBytes, TypeOf, Stride, Tiled;
      OpenFrame(timestamp, msgType, |data|, 0, now);
      if |data| > 0 {
        FillPayload(data);
      }
      ghost var img := page[..];
      Room(P, page[..], cursor, |data|);
      SlotIsFrame(img, cursor, msgType, sequence - 1, timestamp, data);
      CloseFrame(|data|);
    }

    method Mark(timestamp: int, msgType: nat, now: int)
      requires Valid() && !isOpen && Writable(P, msgType, 0)
      modifies this, page
      ensures Valid() && !isOpen
      ensures var fits := Fits(P, old(cursor), 0);
              && pageId == old(pageId) + (if fits then 0 else 1)
                  && cursor == (if fits then old(cursor) else 64) + Stride(0)
              && sequence == old(sequence) + (if fits then 1 else 2)
              && Stream() == old(Stream()) + (if fits then [] else [PageEndBytes(old(sequence), now)])
                          + [FrameBytes(msgType, 0, sequence - 1, timestamp, [])]
      ensures LfpOf(page[..]) == cursor - Stride(0)
    {
      hide FromLE, LE, Put, Walk, Reaches, ValidPageHeader, HeaderBytes, TypeOf, Stride, Tiled;
      OpenFrame(timestamp, msgType, 0, 0, now);
      Room(P, page[..], cursor, 0);
      SlotIsFrame(page[..], cursor, msgType, sequence - 1, timestamp, []);
      CloseFrame(0);
    }
  }

  lemma FrameRoom(P: PageSize, cursor: nat, size: nat)
    ensures Stride(size) == FramePhysicalLength(FRAME_HEADER_SIZE + size)
    ensures FRAME_HEADER_SIZE + size <= Stride(size) && 64 <= Stride(size) && Stride(size) % 64 == 0
    ensures Fits(P, cursor, size) <==> cursor + Stride(size) <= P - FRAME_ALIGNMENT
  {
  }

  lemma Room(P: PageSize, img: Bytes, cursor: nat, size: nat)
    requires Tiled(P, img, cursor) && Fits(P, cursor, size)
    ensures |img| == P && cursor + 32 + size <= P
  {
    hide Reaches, ValidPageHeader;
  }

  // The header of the frame being opened.
  lemma SlotOpened(P: PageSize, img: Bytes, img1: Bytes, cursor: nat, timestamp: int, msgType: nat, flags: nat,
                   sequence: nat)
    requires Tiled(P, img, cursor) && ZeroFrom(img, cursor) && SameOutside(img1, img, cursor, 32)
    requires 0 < msgType < 0x1_0000 && msgType != PAGE_END
    requires img1[cursor..cursor + 32] == PutAll(img[cursor..cursor + 32], OpenStores(timestamp, msgType, flags,
            sequence))
    ensures Tiled(P, img1, cursor) && Walk(P, img1, 64) == Walk(P, img, 64)
    ensures HeaderAt(img1, cursor) == HeaderBytes(0, msgType, flags, sequence, timestamp, 0)
    ensures TypeOf(HeaderAt(img1, cursor)) == msgType && ZeroFrom(img1, cursor + 32)
  {
    hide FromLE, LE, PutAll, Put, Walk, Reaches, ValidPageHeader, HeaderBytes;
    var h := HeaderBytes(0, msgType, flags, sequence, timestamp, 0);
    OpenStoresResult(img[cursor..cursor + 32], timestamp, msgType, flags, sequence);
    HeaderFields(0, msgType, flags, sequence, timestamp, 0);
    HeaderStored(P, img, img1, cursor, OpenStores(timestamp, msgType, flags, sequence), h);
    PowValues();
    UnsignedRoundTrip(msgType, 2);
  }

  lemma PayloadStored(P: PageSize, img: Bytes, cursor: nat, size: nat, data: Bytes)
    requires Tiled(P, img, cursor) && |data| <= size && cursor + Stride(size) <= P
            && ZeroFrom(img, cursor + Stride(size))
    ensures cursor + 32 + |data| <= P
    ensures var img' := Put(img, Store(cursor + 32, data));
            && Tiled(P, img', cursor) && Walk(P, img', 64) == Walk(P, img, 64)
            && HeaderAt(img', cursor) == HeaderAt(img, cursor) && ZeroFrom(img', cursor + Stride(size))
            && img'[cursor + 32..cursor + 32 + |data|] == data
  {
    hide FromLE, LE, Walk, Reaches, ValidPageHeader;
    FrameRoom(P, cursor, size);
    var img' := Put(img, Store(cursor + 32, data));
    assert img'[..cursor] == img[..cursor];
    PrefixKept(P, img, img', cursor);
    PutSlice(img, Store(cursor + 32, data), cursor, cursor + 4);
    PutSlice(img, Store(cursor + 32, data), cursor, cursor + 32);
    PutSlice(img, Store(cursor + 32, data), cursor + 32, cursor + 32 + |data|);
    SlotFilled(P, img, img', cursor);
  }

  // The type word is not touched by storing the length.
  lemma PublishedType(img: Bytes, cursor: nat, len: nat)
    requires 32 <= len && cursor + len <= |img|
    ensures TypeOf(LE(len, 4) + img[cursor..cursor + len][4..]) == TypeOf(HeaderAt(img, cursor))
  {
    hide LE, FromLE;
    var frame := LE(len, 4) + img[cursor..cursor + len][4..];
    var slot := img[cursor..cursor + len];
    assert frame[4..6] == slot[4..6];
    SliceOfSlice(img, cursor, cursor + len, cursor + 4, cursor + 6);
    SliceOfSlice(img, cursor, cursor + 32, cursor + 4, cursor + 6);
    assert frame[4..6] == HeaderAt(img, cursor)[4..6];
  }

  // An opened and filled slot, with its length stored, is the frame that was asked for.
  lemma SlotIsFrame(img: Bytes, cursor: nat, msgType: nat, sequence: nat, timestamp: int, data: Bytes)
    requires cursor + 32 + |data| <= |img|
            && HeaderAt(img, cursor) == HeaderBytes(0, msgType, 0, sequence, timestamp, 0)
    requires img[cursor + 32..cursor + 32 + |data|] == data
    ensures LE(FRAME_HEADER_SIZE + |data|, 4) + img[cursor..cursor + 32 + |data|][4..]
            == FrameBytes(msgType, 0, sequence, timestamp, data)
  {
    hide LE, HeaderBytes;
    LengthStored(FRAME_HEADER_SIZE + |data|, msgType, 0, sequence, timestamp);
    SlotPieces(img, cursor, HeaderAt(img, cursor), data, LE(FRAME_HEADER_SIZE + |data|, 4));
  }

  lemma SlotPieces(img: Bytes, cursor: nat, h: Bytes, data: Bytes, word: Bytes)
    requires |h| == 32 && cursor + 32 + |data| <= |img|
    requires img[cursor..cursor + 32] == h && img[cursor + 32..cursor + 32 + |data|] == data
    ensures word + img[cursor..cursor + 32 + |data|][4..] == (word + h[4..]) + data
  {
    assert img[cursor..cursor + 32 + |data|] == h + data;
    assert (h + data)[4..] == h[4..] + data;
  }

  // PageEnd put at the cursor and published.
  lemma EndStored(P: PageSize, img: Bytes, img1: Bytes, cursor: nat, now: int, sequence: nat)
    requires Tiled(P, img, cursor) && SameOutside(img1, img, cursor, 32)
    requires img1[cursor..cursor + 32] == PutAll(img[cursor..cursor + 32], PageEndStores(now, sequence))
    ensures var img3 := Put(Put(img1, Store(cursor, LE(FRAME_HEADER_SIZE, 4))), Store(16, LE(cursor, 8)));
            && |img3| == P && Walk(P, img3, 64) == Walk(P, img, 64) + [PageEndBytes(sequence, now)]
            && LfpOf(img3) == cursor
  {
    hide FromLE, LE, PutAll, Put, Walk, Reaches, ValidPageHeader, HeaderBytes, TypeOf;
    var h := HeaderBytes(0, PAGE_END, 0, sequence, now, 0);
    PageEndStoresResult(img[cursor..cursor + 32], now, sequence);
    HeaderFields(0, PAGE_END, 0, sequence, now, 0);
    HeaderStored(P, img, img1, cursor, PageEndStores(now, sequence), h);
    FramePublished(P, img1, cursor, 32);
    LengthStored(32, PAGE_END, 0, sequence, now);
    EndType(sequence, now);
  }

  lemma EndType(sequence: nat, now: int)
    ensures TypeOf(PageEndBytes(sequence, now)) == PAGE_END
  {
    hide LE, FromLE, HeaderBytes;
    HeaderFields(32, PAGE_END, 0, sequence, now, 0);
    PowValues();
    UnsignedRoundTrip(PAGE_END, 2);
  }

  // ---------- Frames of one stride ----------

  // How many frames of stride s a fresh page takes.
  function PerPage(P: PageSize, s: nat): nat
    requires s > 0
  {
    (P - 128) / s
  }

  // Where the writer stands when the last frame of stride s was the (k + 1)-st on its (q + 1)-st page, with f
  // frames to a page.
  ghost predicate Stands(pageId: nat, cursor: nat, sequence: nat, first: nat, start: nat, s: nat, f: nat, q: nat,
                         k: nat) {
    k < f && pageId == first + q && cursor == 64 + s * (k + 1) && sequence == start + q * (f + 1) + k + 1
  }

  // The division of the frames before the last one over the pages.
  lemma NextFrame(f: nat, n: nat, q: nat, k: nat)
    requires n == q * f + k && k < f
    ensures n / f == q && n % f == k
    ensures k + 1 < f ==> n + 1 == q * f + (k + 1)
    ensures k + 1 == f ==> n + 1 == (q + 1) * f
  {
    RemainderIsUnique(n, f, q, k);
    assert (q + 1) * f == q * f + f;
  }

  lemma PerPageBounds(P: PageSize, s: nat)
    requires s > 0
    ensures s * PerPage(P, s) <= P - 128 < s * (PerPage(P, s) + 1)
  {
    var f := PerPage(P, s);
    assert P - 128 == s * f + (P - 128) % s;
    assert s * (f + 1) == s * f + s;
  }

  lemma MulMonotone(s: nat, a: nat, b: nat)
    requires a <= b
    ensures s * a <= s * b
  {
  }

  // The (k + 2)-nd frame of a page fits exactly if the page takes that many.
  lemma FitsIff(P: PageSize, s: nat, k: nat)
    requires s > 0
    ensures 64 + s * (k + 1) + s <= P - FRAME_ALIGNMENT <==> k + 1 < PerPage(P, s)
  {
    hide PerPage;
    var f := PerPage(P, s);
    PerPageBounds(P, s);
    assert s * (k + 1) + s == s * (k + 2);
    if k + 2 <= f {
      MulMonotone(s, k + 2, f);
    } else {
      MulMonotone(s, f + 1, k + 2);
    }
  }

  lemma RoomForOne(P: PageSize, s: nat)
    requires 0 < s <= P - 128
    ensures PerPage(P, s) >= 1
  {
    PerPageBounds(P, s);
  }

  // One more write of stride s.
  lemma StandsNext(P: PageSize, pageId: nat, cursor: nat, sequence: nat, first: nat, start: nat, s: nat, q: nat, k: nat)
    requires s > 0 && Stands(pageId, cursor, sequence, first, start, s, PerPage(P, s), q, k)
    ensures if cursor + s <= P - FRAME_ALIGNMENT
            then k + 1 < PerPage(P, s)
                 && Stands(pageId, cursor + s, sequence + 1, first, start, s, PerPage(P, s), q, k + 1)
            else k + 1 == PerPage(P, s)
                 && Stands(pageId + 1, 64 + s, sequence + 2, first, start, s, PerPage(P, s), q + 1, 0)
  {
    FitsIff(P, s, k);
    var f := PerPage(P, s);
    hide PerPage;
    assert s * (k + 1) + s == s * (k + 2);
    assert (q + 1) * (f + 1) == q * (f + 1) + f + 1;
  }

  lemma StandsCount(pageId: nat, cursor: nat, sequence: nat, first: nat, start: nat, s: nat, f: nat, q: nat, k: nat)
    requires Stands(pageId, cursor, sequence, first, start, s, f, q, k)
    ensures pageId == first + q && sequence == start + (q * f + k) + 1 + q
  {
    assert q * (f + 1) == q * f + q;
  }

  /** N writes of one stride from a fresh start: with f frames to a page, the writer is on the page
      1 + (N - 1) / f (counting from its first) and N + (N - 1) / f sequence numbers are taken, one more
      for every page left behind. */
  method WriteUniform(w: Writer, items: seq<Bytes>, size: nat, msgType: nat, timestamp: int, now: int)
    requires w.Valid() && !w.isOpen && w.pageId == w.first && w.cursor == 64
    requires |items| > 0 && Writable(w.P, msgType, size) && forall i :: 0 <= i < |items| ==> |items[i]| == size
    modifies w, w.page
    ensures w.Valid() && !w.isOpen
    ensures var n, f := |items|, PerPage(w.P, Stride(size));
            && f >= 1
            && w.pageId == w.first + (n - 1) / f
            && w.sequence == old(w.sequence) + n + (n - 1) / f
  {
    hide Stride, PerPage, Tiled, ZeroFrom, Walk, HeaderBytes, TypeOf, Stands;
    FrameRoom(w.P, 64, size);
    var s := Stride(size);
    RoomForOne(w.P, s);
    ghost var f, start := PerPage(w.P, s), w.sequence;
    w.WriteBytes(timestamp, msgType, items[0], now);
    ghost var q, k := 0, 0;
    FirstStands(w.first, start, s, f);
    var n := 1;
    while n < |items|
      invariant 1 <= n <= |items| && w.Valid() && !w.isOpen
      invariant w.page == old(w.page) || fresh(w.page)
      invariant k < f && n - 1 == q * f + k && Stands(w.pageId, w.cursor, w.sequence, w.first, start, s, f, q, k)
    {
      StandsNext(w.P, w.pageId, w.cursor, w.sequence, w.first, start, s, q, k);
      NextFrame(f, n - 1, q, k);
      FrameRoom(w.P, w.cursor, size);
      ghost var fits := Fits(w.P, w.cursor, size);
      w.WriteBytes(timestamp, msgType, items[n], now);
      if fits {
        k := k + 1;
      } else {
        q, k := q + 1, 0;
      }
      n := n + 1;
    }
    NextFrame(f, n - 1, q, k);
    StandsCount(w.pageId, w.cursor, w.sequence, w.first, start, s, f, q, k);
  }

  lemma FirstStands(first: nat, start: nat, s: nat, f: nat)
    requires f >= 1
    ensures Stands(first, 64 + s, start + 1, first, start, s, f, 0, 0)
  {
  }
}
