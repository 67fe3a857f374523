/** Resuming a journal from the page files a previous writer left. */
module Recovery {
  import opened Layout
  import opened Memory

  const SEQUENCE_MODULUS: nat := 0x1_0000_0000_0000_0000

  function LfpOf(img: Bytes): nat
    requires |img| >= 24
  {
    FromLE(img[16..24])
  }

  /** The frames found by walking a page image from offset `at`, as findLastSequenceNumber does. */
  function Walk(P: PageSize, img: Bytes, at: nat): (frames: seq<Bytes>)
    requires |img| == P
    ensures forall i :: 0 <= i < |frames| ==> |frames[i]| >= 32
    decreases P - at
  {
    if at + FRAME_HEADER_SIZE > P then []
    else
      var len := FromLE(img[at..at + 4]);
      if len == 0 || len < FRAME_HEADER_SIZE || len > P then []
      else if at + FramePhysicalLength(len) > P then []
      else
        var frame := img[at..at + len];
        if TypeOf(frame) == PAGE_END then [frame]
        else [frame] + Walk(P, img, at + FramePhysicalLength(len))
  }

  function LastSequence(frames: seq<Bytes>): nat
    requires forall i :: 0 <= i < |frames| ==> |frames[i]| >= 32
  {
    if frames == [] then 0 else SequenceOf(frames[|frames| - 1])
  }

  /** The image of a page after Page::load: a page without a last-frame position gets a fresh header. */
  function LoadedPage(P: PageSize, img: Bytes): (r: Bytes)
    requires |img| == P
    ensures |r| == P
  {
    if LfpOf(img) == 0 then PutAll(img, PageHeaderStores(P)) else img
  }

  /** Page::load's checks on a header. */
  predicate Accepted(P: PageSize, img: Bytes)
    requires |img| == P
  {
    img[0..12] == HeaderPrefix(P) && LfpOf(img) < P
  }

  // The words of a page header that Page::load looks at.
  predicate WordsRight(P: PageSize, img: Bytes)
    requires |img| == P
  {
    FromLE(img[0..4]) == 2 && FromLE(img[4..8]) == 64 && FromLE(img[8..12]) == P && FromLE(img[16..24]) < P
  }

  /** A page is accepted exactly when version, header length and page size are right and the last-frame position
      lies within the page. */
  lemma AcceptedIff(P: PageSize, img: Bytes)
    requires |img| == P
    ensures Accepted(P, img) <==> WordsRight(P, img)
  {
    hide LE, FromLE;
    WordIff(img[0..4], JOURNAL_PAGE_VERSION);
    WordIff(img[4..8], 64);
    WordIff(img[8..12], P);
    assert img[0..12] == img[0..4] + img[4..8] + img[8..12];
    var h := HeaderPrefix(P);
    assert h[0..4] == LE(JOURNAL_PAGE_VERSION, 4) && h[4..8] == LE(64, 4) && h[8..12] == LE(P, 4);
    assert img[0..4] == img[0..12][0..4] && img[4..8] == img[0..12][4..8] && img[8..12] == img[0..12][8..12];
  }

  lemma WordIff(word: Bytes, v: nat)
    requires |word| == 4 && v < 0x1_0000_0000
    ensures word == LE(v, 4) <==> FromLE(word) == v
  {
    hide LE, FromLE;
    PowValues();
    LERoundTrip(v, 4);
    FromLERoundTrip(word);
  }

  predicate Written(P: PageSize, img: Bytes)
    requires |img| == P
  {
    Accepted(P, LoadedPage(P, img)) && LfpOf(LoadedPage(P, img)) > PAGE_HEADER_SIZE
  }

  // The page files of a journal are 1..top, each of the page size.
  ghost predicate Contiguous(P: PageSize, disk: Disk, top: nat) {
    && (forall p :: p in disk <==> 1 <= p <= top)
    && (forall p :: p in disk ==> |disk[p]| == P)
  }

  function LastWritten(P: PageSize, disk: Disk, top: nat): (q: nat)
    requires forall p :: 1 <= p <= top ==> p in disk && |disk[p]| == P
  {
    if top == 0 then 0
    else if Written(P, disk[top]) then top
    else LastWritten(P, disk, top - 1)
  }

  /** The scan finds the highest page that has been written, zero if there is none. */
  lemma {:induction false} LastWrittenIsHighest(P: PageSize, disk: Disk, top: nat)
    requires forall p :: 1 <= p <= top ==> p in disk && |disk[p]| == P
    ensures var q := LastWritten(P, disk, top);
            && q <= top && (q > 0 ==> Written(P, disk[q]))
            && forall p :: q < p <= top ==> !Written(P, disk[p])
  {
    hide Written;
    if top == 0 {
    } else if Written(P, disk[top]) {
    } else {
      LastWrittenIsHighest(P, disk, top - 1);
    }
  }

  lemma {:induction false} LastWrittenIs(P: PageSize, disk: Disk, top: nat, q: nat)
    requires forall p :: 1 <= p <= top ==> p in disk && |disk[p]| == P
    requires q <= top && (q > 0 ==> Written(P, disk[q]))
    requires forall p :: q < p <= top ==> !Written(P, disk[p])
    ensures LastWritten(P, disk, top) == q
  {
    hide Written;
    if q < top {
      LastWrittenIs(P, disk, top - 1, q);
    }
  }

  lemma WrittenIff(P: PageSize, img: Bytes)
    requires |img| == P
    ensures Written(P, img) <==> img[0..12] == HeaderPrefix(P) && PAGE_HEADER_SIZE < LfpOf(img) < P
  {
    hide PutAll, LE, FromLE, HeaderPrefix;
    PageHeaderStoresResult(P, img);
  }

  // The scan loads every page above the one it settles on.
  function Scanned(P: PageSize, disk: Disk, q: nat): (r: Disk)
    requires forall p :: p in disk ==> |disk[p]| == P
  {
    map p | p in disk :: if p > q then LoadedPage(P, disk[p]) else disk[p]
  }

  // A stop while a header was being made leaves a page without a last-frame position.
  ghost predicate Unfinished(P: PageSize, disk: Disk, q: nat, top: nat)
    requires Contiguous(P, disk, top)
  {
    exists p :: q < p <= top && LfpOf(disk[p]) == 0
  }

  datatype Outcome = Loaded | Rejected | Faulted

  datatype Resumed = Resumed(page: nat, sequence: nat, disk: Disk, top: nat)

  /** Where a new writer starts, and the page files when it does. */
  function Resume(P: PageSize, disk: Disk, top: nat): (r: Resumed)
    requires forall p :: 1 <= p <= top ==> p in disk && |disk[p]| == P
    requires forall p :: p in disk ==> |disk[p]| == P
  {
    var q := LastWritten(P, disk, top);
    var sequence := if q > 0 && q in disk then (LastSequence(Walk(P, disk[q], 64)) + 1) % SEQUENCE_MODULUS else 0;
    var scanned := Scanned(P, disk, q);
    var first := if q + 1 in scanned then scanned[q + 1] else LoadedPage(P, Zeros(P));
    Resumed(q + 1, sequence, scanned[q + 1 := first], if q < top then top else q + 1)
  }

  // One turn of the loop over a page: a frame that is found joins those seen before.
  lemma SeenStep(P: PageSize, img: Bytes, at: nat, seen: seq<Bytes>)
    requires |img| == P && at + FRAME_HEADER_SIZE <= P && Walk(P, img, 64) == seen + Walk(P, img, at)
    ensures var len := FromLE(img[at..at + 4]);
            if len < FRAME_HEADER_SIZE || len > P || at + FramePhysicalLength(len) > P then Walk(P, img, 64) == seen
            else var frame := img[at..at + len];
                 Walk(P, img, 64) == seen + [frame] + if TypeOf(frame) == PAGE_END then []
                                                      else Walk(P, img, at + FramePhysicalLength(len))
  {
    WalkStep(P, img, at);
  }

  /** The page files of one journal, and the part of a writer's construction that reads them. */
  class JournalFiles {
    const P: PageSize
    var disk: Disk
    var top: nat
    var currentPageId: nat
    var currentSequence: nat

    ghost predicate Valid()
      reads this
    {
      Contiguous(P, disk, top)
    }

    constructor (P: PageSize, disk: Disk, top: nat)
      requires Contiguous(P, disk, top)
      ensures Valid() && this.P == P && this.disk == disk && this.top == top
    {
      this.P, this.disk, this.top := P, disk, top;
      currentPageId, currentSequence := 0, 0;
    }

    // Page::load. A page without a last-frame position gets a header, which a read-only mapping cannot take;
    // Rejected stands for the exception that the checks of the header throw. A file to be read exists.
    method LoadPage(id: nat, writable: bool) returns (outcome: Outcome)
      requires Valid() && 1 <= id <= top + 1 && (!writable ==> id <= top)
      modifies this`disk, this`top
      ensures Valid()
      ensures outcome == Faulted <==> !writable && LfpOf(old(disk)[id]) == 0
      ensures outcome == Faulted ==> disk == old(disk) && top == old(top)
      ensures outcome != Faulted ==>
        && disk == old(disk)[id := LoadedPage(P, if id in old(disk) then old(disk)[id] else Zeros(P))]
        && top == (if id <= old(top) then old(top) else id)
        && (outcome == Loaded <==> Accepted(P, disk[id])) && (outcome == Loaded <==> WordsRight(P, disk[id]))
    {
      hide PutAll, LE, FromLE, HeaderPrefix, PageHeaderStores;
      var img := if id in disk then disk[id] else Zeros(P);
      if FromLE(img[16..24]) == 0 {
        if !writable {
          return Faulted;
        }
        img := PutAll(img, PageHeaderStores(P));
      }
      disk := disk[id := img];
      if id > top {
        top := id;
      }
      AcceptedIff(P, img);
      outcome := if img[0..12] == HeaderPrefix(P) && FromLE(img[16..24]) < P then Loaded else Rejected;
    }

    // The pages are mapped for reading; prefaulting happens to make the mapping writable too. A page that is
    // rejected is passed over, a fault ends the process.
    method FindLastWrittenPage(prefault: bool) returns (pageId: nat, faulted: bool)
      requires Valid()
      modifies this`disk, this`top
      ensures Valid() && top == old(top)
      ensures faulted <==> !prefault && Unfinished(P, old(disk), LastWritten(P, old(disk), top), top)
      ensures faulted ==> disk == old(disk)
      ensures !faulted ==> pageId == LastWritten(P, old(disk), top) && disk == Scanned(P, old(disk), pageId)
    {
      hide PutAll, LE, HeaderPrefix, PageHeaderStores, Scanned;
      pageId := top;
      ghost var before := disk;
      ScannedNone(P, disk, top);
      while pageId > 0
        invariant Valid() && top == old(top) && pageId <= top
        invariant disk == Scanned(P, before, pageId) && (!prefault ==> disk == before)
        invariant LastWritten(P, before, top) == LastWritten(P, before, pageId)
        invariant !prefault ==> forall p :: pageId < p <= top ==> LfpOf(before[p]) != 0
      {
        ghost var prior := disk;
        var outcome := LoadPage(pageId, prefault);
        ScannedStep(P, before, pageId);
        ScannedAt(P, before, pageId, pageId);
        if outcome == Faulted {
          LastWrittenBelow(P, before, pageId);
          return pageId, true;
        }
        assert disk[pageId] == LoadedPage(P, before[pageId]);
        if outcome == Loaded && FromLE(disk[pageId][16..24]) > PAGE_HEADER_SIZE {
          WrittenUnchanged(P, before[pageId]);
          assert disk == prior;
          return pageId, false;
        }
        pageId := pageId - 1;
      }
      faulted := false;
    }

    method FindLastSequenceNumber(pageId: nat) returns (lastSequence: nat)
      requires Valid() && 1 <= pageId <= top
      ensures lastSequence == LastSequence(Walk(P, disk[pageId], 64))
    {
      hide Walk, FromLE, TypeOf, SequenceOf, AlignUp;
      var img := disk[pageId];
      var at := 64;
      lastSequence := 0;
      ghost var seen: seq<Bytes> := [];
      while at + FRAME_HEADER_SIZE <= P
        invariant 64 <= at <= P
        invariant forall i :: 0 <= i < |seen| ==> |seen[i]| >= 32
        invariant Walk(P, img, 64) == seen + Walk(P, img, at)
        invariant lastSequence == LastSequence(seen)
        decreases P - at
      {
        SeenStep(P, img, at, seen);
        var len := FromLE(img[at..at + 4]);
        if len == 0 || len < FRAME_HEADER_SIZE || len > P {
          break;
        }
        StrideFits(P, len);
        var stride := FramePhysicalLength32(len);
        if at + stride > P {
          break;
        }
        var frame := img[at..at + len];
        lastSequence := SequenceOf(frame);
        seen := seen + [frame];
        if TypeOf(frame) == PAGE_END {
          return;
        }
        at := at + stride;
      }
      WalkStep(P, img, at);
    }

    // The constructor of a writer: resume after the last written page, or start at page 1. The first page is
    // mapped for writing; if its header is rejected the constructor throws.
    method ResumeWriter(prefault: bool) returns (outcome: Outcome)
      requires Valid()
      modifies this
      ensures Valid()
      ensures outcome == Faulted <==>
        !prefault && Unfinished(P, old(disk), LastWritten(P, old(disk), old(top)), old(top))
      ensures outcome == Faulted ==> disk == old(disk) && top == old(top)
      ensures outcome != Faulted ==>
        && Resumed(currentPageId, currentSequence, disk, top) == Resume(P, old(disk), old(top))
        && (outcome == Loaded <==> Accepted(P, disk[currentPageId]))
    {
      hide Walk, LoadedPage, LastWritten, LastSequence, Written, Accepted, PutAll, FromLE, LE;
      ghost var before := disk;
      var lastPageId, faulted := FindLastWrittenPage(prefault);
      if faulted {
        return Faulted;
      }
      LastWrittenIsHighest(P, before, top);
      if lastPageId > 0 {
        currentPageId := lastPageId;
        var lastSequence := FindLastSequenceNumber(lastPageId);
        currentSequence := (lastSequence + 1) % SEQUENCE_MODULUS;
      } else {
        currentPageId, currentSequence := 0, 0;
      }
      currentPageId := currentPageId + 1;
      ghost var scanned := disk;
      outcome := LoadPage(currentPageId, true);
      if currentPageId in scanned {
        LoadedTwice(P, before[currentPageId]);
      }
    }
  }

  lemma HeaderInitBody(P: PageSize, img: Bytes)
    requires |img| == P
    ensures ValidPageHeader(P, PutAll(img, PageHeaderStores(P))) && LfpOf(PutAll(img, PageHeaderStores(P))) == 64
    ensures forall a :: 64 <= a < P ==> PutAll(img, PageHeaderStores(P))[a] == img[a]
  {
    hide PutAll, LE, FromLE, ValidPageHeader;
    var r := PutAll(img, PageHeaderStores(P));
    PageHeaderStoresResult(P, img);
    PutAllMisses(img, PageHeaderStores(P), 64, P);
    forall a | 64 <= a < P
      ensures r[a] == img[a]
    {
      assert r[a] == r[64..P][a - 64];
    }
  }

  lemma LastWrittenBelow(P: PageSize, disk: Disk, id: nat)
    requires forall p :: 1 <= p <= id ==> p in disk && |disk[p]| == P
    requires id > 0 && LfpOf(disk[id]) == 0
    ensures LastWritten(P, disk, id) < id
  {
    hide HeaderPrefix, FromLE;
    WrittenIff(P, disk[id]);
    LastWrittenIsHighest(P, disk, id - 1);
  }

  /** The scan changes the files if and only if a page above the last written one has no position yet. */
  lemma ScanStoresIff(P: PageSize, disk: Disk, top: nat)
    requires Contiguous(P, disk, top)
    ensures var q := LastWritten(P, disk, top);
            Scanned(P, disk, q) != disk <==> Unfinished(P, disk, q, top)
  {
    hide LastWritten, PutAll, LE, FromLE, HeaderPrefix, PageHeaderStores;
    var q := LastWritten(P, disk, top);
    if Unfinished(P, disk, q, top) {
      var p :| q < p <= top && LfpOf(disk[p]) == 0;
      ScannedAt(P, disk, q, p);
      PageHeaderStoresResult(P, disk[p]);
      assert LfpOf(LoadedPage(P, disk[p])) == 64;
    } else {
      forall p | p in disk
        ensures Scanned(P, disk, q)[p] == disk[p]
      {
        ScannedAt(P, disk, q, p);
        assert q < p <= top ==> LfpOf(disk[p]) != 0;
      }
    }
  }

  /** One step of the walk. */
  lemma WalkStep(P: PageSize, img: Bytes, at: nat)
    requires |img| == P
    ensures at + FRAME_HEADER_SIZE > P ==> Walk(P, img, at) == []
    ensures at + FRAME_HEADER_SIZE <= P ==>
              var len := FromLE(img[at..at + 4]);
              if len < FRAME_HEADER_SIZE || len > P || at + FramePhysicalLength(len) > P then
                Walk(P, img, at) == []
              else
                var frame := img[at..at + len];
                Walk(P, img, at) == [frame] + (if TypeOf(frame) == PAGE_END then []
                                               else Walk(P, img, at + FramePhysicalLength(len)))
  {
  }

  /** A frame that lies whole at an offset, with its own length, is what the walk finds there. */
  lemma WalkFrame(P: PageSize, img: Bytes, at: nat, frame: Bytes)
    requires |img| == P && 32 <= |frame| && at + |frame| <= P && at + FramePhysicalLength(|frame|) <= P
    requires img[at..at + |frame|] == frame && FromLE(img[at..at + 4]) == |frame|
    ensures Walk(P, img, at)
            == [frame] + if TypeOf(frame) == PAGE_END then [] else Walk(P, img, at + FramePhysicalLength(|frame|))
  {
    hide Walk, FromLE, TypeOf, FramePhysicalLength;
    WalkStep(P, img, at);
  }

  lemma ScannedAt(P: PageSize, disk: Disk, q: nat, p: nat)
    requires forall p :: p in disk ==> |disk[p]| == P
    ensures p in Scanned(P, disk, q) <==> p in disk
    ensures p in disk ==> Scanned(P, disk, q)[p] == if p > q then LoadedPage(P, disk[p]) else disk[p]
  {
    hide LoadedPage;
  }

  lemma ScannedNone(P: PageSize, disk: Disk, top: nat)
    requires Contiguous(P, disk, top)
    ensures Scanned(P, disk, top) == disk
  {
    hide LoadedPage;
  }

  lemma ScannedStep(P: PageSize, disk: Disk, id: nat)
    requires forall p :: p in disk ==> |disk[p]| == P
    requires id in disk && id > 0
    ensures Scanned(P, disk, id)[id := LoadedPage(P, disk[id])] == Scanned(P, disk, id - 1)
  {
    hide LoadedPage;
  }

  lemma WrittenUnchanged(P: PageSize, img: Bytes)
    requires |img| == P && LfpOf(LoadedPage(P, img)) > PAGE_HEADER_SIZE
    ensures LoadedPage(P, img) == img
  {
    hide PutAll, LE, FromLE, HeaderPrefix;
    PageHeaderStoresResult(P, img);
  }

  lemma LoadedTwice(P: PageSize, img: Bytes)
    requires |img| == P
    ensures LoadedPage(P, LoadedPage(P, img)) == LoadedPage(P, img)
  {
    hide PutAll, LE, FromLE, HeaderPrefix;
    PageHeaderStoresResult(P, img);
  }
}
