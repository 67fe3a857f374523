/** Joining a journal at a point in time: a binary search over the pages, then a scan of frames. */
module Seek {
  import opened Layout
  import opened Memory
  import opened Recovery

  // ---------- Reading one page image ----------

  function LengthAt(img: Bytes, at: nat): nat
    requires at + 32 <= |img|
  {
    FromLE(img[at..at + 4])
  }

  function HeaderAt(img: Bytes, at: nat): (h: Bytes)
    requires at + 32 <= |img|
    ensures |h| == 32
  {
    img[at..at + 32]
  }

  // The generation time of the frame at an offset, zero where there is none.
  function TimeAt(img: Bytes, at: nat): int
    requires at + 32 <= |img|
  {
    if LengthAt(img, at) == 0 then 0 else GenTimeOf(HeaderAt(img, at))
  }

  function BeginTime(P: PageSize, img: Bytes): int
    requires |img| == P
  {
    TimeAt(img, 64)
  }

  function EndTime(P: PageSize, img: Bytes): int
    requires |img| == P && LfpOf(img) + 64 <= P
  {
    TimeAt(img, LfpOf(img))
  }

  predicate IsFull(P: PageSize, img: Bytes)
    requires |img| == P && LfpOf(img) + 64 <= P
  {
    LfpOf(img) + FramePhysicalLength(LengthAt(img, LfpOf(img))) > P - FRAME_ALIGNMENT
  }

  // Following the lengths from an offset meets committed frames only, up to a zero length or PageEnd.
  predicate Readable(P: PageSize, img: Bytes, at: nat)
    requires |img| == P
    decreases P - at
  {
    && at + 32 <= P
    && var len := LengthAt(img, at);
       len == 0
       || (&& 32 <= len <= P && at + FramePhysicalLength(len) <= P
           && TypeOf(HeaderAt(img, at)) > 0
           && (TypeOf(HeaderAt(img, at)) == PAGE_END || Readable(P, img, at + FramePhysicalLength(len))))
  }

  lemma SameHeader(img: Bytes, at: nat, len: nat)
    requires 32 <= len && at + len <= |img|
    ensures TypeOf(img[at..at + len]) == TypeOf(HeaderAt(img, at))
    ensures GenTimeOf(img[at..at + len]) == GenTimeOf(HeaderAt(img, at))
  {
    SliceOfSlice(img, at, at + len, at + 4, at + 6);
    SliceOfSlice(img, at, at + 32, at + 4, at + 6);
    SliceOfSlice(img, at, at + len, at + 16, at + 24);
    SliceOfSlice(img, at, at + 32, at + 16, at + 24);
  }

  /** The scan and the walk agree on the frame at an offset. */
  lemma ReadableStep(P: PageSize, img: Bytes, at: nat)
    requires |img| == P && Readable(P, img, at)
    ensures at + 32 <= P
    ensures LengthAt(img, at) == 0 <==> Walk(P, img, at) == []
    ensures LengthAt(img, at) > 0 ==>
      var frames := Walk(P, img, at);
      && TypeOf(frames[0]) == TypeOf(HeaderAt(img, at)) > 0
      && GenTimeOf(frames[0]) == TimeAt(img, at)
      && (TypeOf(frames[0]) == PAGE_END ==> frames == [frames[0]])
      && (TypeOf(frames[0]) != PAGE_END ==>
            var next := at + FramePhysicalLength(LengthAt(img, at));
            next <= P && Readable(P, img, next) && frames[1..] == Walk(P, img, next))
  {
    hide FromLE, Walk, TypeOf, GenTimeOf;
    WalkStep(P, img, at);
    var len := LengthAt(img, at);
    if len > 0 {
      SameHeader(img, at, len);
    }
  }

  // ---------- A journal's pages ----------

  function FramesOf(P: PageSize, disk: Disk, p: nat): (r: seq<Bytes>)
    ensures forall i :: 0 <= i < |r| ==> |r[i]| >= 32
  {
    if p in disk && |disk[p]| == P then Walk(P, disk[p], 64) else []
  }

  predicate IsEnded(frames: seq<Bytes>)
    requires forall i :: 0 <= i < |frames| ==> |frames[i]| >= 32
  {
    frames != [] && TypeOf(frames[|frames| - 1]) == PAGE_END
  }

  // The page files of a journal: consecutive, each with a complete header and readable frames, or with a header
  // that is still being made and nothing behind it.
  ghost predicate Pages(P: PageSize, disk: Disk, ids: seq<nat>) {
    && (forall m :: 0 <= m < |ids| ==> ids[m] == ids[0] + m)
    && (forall m :: 0 <= m < |ids| ==> PageOK(P, disk, ids[m]) || Blank(P, disk, ids[m]))
  }

  ghost predicate Blank(P: PageSize, disk: Disk, p: nat) {
    p in disk && |disk[p]| == P && LfpOf(disk[p]) == 0 && LengthAt(disk[p], 64) == 0
  }

  ghost predicate PageOK(P: PageSize, disk: Disk, p: nat) {
    && p in disk && |disk[p]| == P && Accepted(P, disk[p])
    && 64 <= LfpOf(disk[p]) <= P - 64 && Readable(P, disk[p], 64)
  }

  // What one writer session leaves: a page is followed by frames only if it was ended, an ended page has
  // a successor with a complete header, and a full page is an ended one whose last-frame position is that of
  // its PageEnd.
  ghost predicate OneSession(P: PageSize, disk: Disk, ids: seq<nat>)
    requires Pages(P, disk, ids)
  {
    && (forall m :: 0 <= m < |ids| - 1 && FramesOf(P, disk, ids[m + 1]) != [] ==> IsEnded(FramesOf(P, disk, ids[m])))
    && (forall m :: 0 <= m < |ids| && IsEnded(FramesOf(P, disk, ids[m])) ==>
          m + 1 < |ids| && PageOK(P, disk, ids[m + 1]))
    && (forall m :: 0 <= m < |ids| && PageOK(P, disk, ids[m]) && IsFull(P, disk[ids[m]]) ==>
          FullIsEnded(P, disk, ids[m]))
  }

  ghost predicate FullIsEnded(P: PageSize, disk: Disk, p: nat)
    requires PageOK(P, disk, p)
  {
    var frames := FramesOf(P, disk, p);
    IsEnded(frames) && EndTime(P, disk[p]) == GenTimeOf(frames[|frames| - 1])
  }

  ghost predicate Before(P: PageSize, disk: Disk, p: nat, i: nat, q: nat, j: nat)
    requires i < |FramesOf(P, disk, p)| && j < |FramesOf(P, disk, q)|
  {
    GenTimeOf(FramesOf(P, disk, p)[i]) <= GenTimeOf(FramesOf(P, disk, q)[j])
  }

  // Generation times, PageEnd's included, are positive and never decrease along the stream.
  ghost predicate TimeOrdered(P: PageSize, disk: Disk, ids: seq<nat>) {
    && (forall p, i :: p in ids && 0 <= i < |FramesOf(P, disk, p)| ==> GenTimeOf(FramesOf(P, disk, p)[i]) > 0)
    && (forall p, i, q, j :: (p in ids && q in ids && 0 <= i < |FramesOf(P, disk, p)|
                              && 0 <= j < |FramesOf(P, disk, q)| && (p < q || (p == q && i <= j))) ==>
          Before(P, disk, p, i, q, j))
  }

  // The listed files exist and have the page size; their ids ascend.
  ghost predicate Listed(P: PageSize, disk: Disk, ids: seq<nat>) {
    && (forall m :: 0 <= m < |ids| ==> ids[m] in disk && |disk[ids[m]]| == P)
    && (forall m, n :: 0 <= m < n < |ids| ==> ids[m] < ids[n])
  }

  lemma PagesListed(P: PageSize, disk: Disk, ids: seq<nat>)
    requires Pages(P, disk, ids)
    ensures Listed(P, disk, ids)
  {
    hide Readable, Accepted, LfpOf;
  }

  // Begin times of non-empty pages ascend, and empty pages come last.
  ghost predicate BeginsOrdered(P: PageSize, disk: Disk, ids: seq<nat>)
    requires Listed(P, disk, ids)
  {
    forall m, n :: 0 <= m < n < |ids| && BeginTime(P, disk[ids[n]]) != 0 ==>
      0 != BeginTime(P, disk[ids[m]]) <= BeginTime(P, disk[ids[n]])
  }

  ghost predicate StartsBy(P: PageSize, disk: Disk, p: nat, time: int)
    requires p in disk && |disk[p]| == P
  {
    0 != BeginTime(P, disk[p]) <= time
  }

  // ---------- The binary search over the pages ----------

  // How many of the pages from the m-th on begin by the time before one does not.
  ghost function Starting(P: PageSize, disk: Disk, ids: seq<nat>, time: int, m: nat): (k: nat)
    requires Listed(P, disk, ids) && m <= |ids|
    ensures m + k <= |ids|
    decreases |ids| - m
  {
    if m == |ids| || !StartsBy(P, disk, ids[m], time) then 0 else 1 + Starting(P, disk, ids, time, m + 1)
  }

  lemma {:induction false} StartingIff(P: PageSize, disk: Disk, ids: seq<nat>, time: int, m: nat, n: nat)
    requires Listed(P, disk, ids) && BeginsOrdered(P, disk, ids) && m <= n < |ids|
    ensures StartsBy(P, disk, ids[n], time) <==> n < m + Starting(P, disk, ids, time, m)
    decreases |ids| - m
  {
    hide BeginTime;
    if m < n && StartsBy(P, disk, ids[m], time) {
      StartingIff(P, disk, ids, time, m + 1, n);
    }
  }

  // The places that bisecting [left, right] for the boundary k looks at.
  function ProbePath(left: nat, right: int, k: nat): (path: seq<nat>)
    ensures forall n :: 0 <= n < |path| ==> left <= path[n] <= right
    decreases right - left + 1
  {
    if left > right then []
    else
      var mid := left + (right - left) / 2;
      [mid] + if mid < k then ProbePath(mid + 1, right, k) else ProbePath(left, mid - 1, k)
  }

  // Loading a page for reading: the checks of the header, or a store to the read-only mapping.
  function ReadOutcome(P: PageSize, img: Bytes): Outcome
    requires |img| == P
  {
    if LfpOf(img) == 0 then Faulted else if Accepted(P, img) then Loaded else Rejected
  }

  // The search goes on while pages load.
  ghost function PathOutcome(P: PageSize, disk: Disk, ids: seq<nat>, path: seq<nat>): Outcome
    requires Listed(P, disk, ids) && forall n :: 0 <= n < |path| ==> path[n] < |ids|
  {
    if path == [] then Loaded
    else if ReadOutcome(P, disk[ids[path[0]]]) == Loaded then PathOutcome(P, disk, ids, path[1..])
    else ReadOutcome(P, disk[ids[path[0]]])
  }

  // The page has a last-frame position, and all the words that a load checks are right.
  predicate Right(P: PageSize, img: Bytes)
    requires |img| == P
  {
    LfpOf(img) != 0 && WordsRight(P, img)
  }

  // The first page of the path that is not right.
  ghost predicate StopsAt(P: PageSize, disk: Disk, ids: seq<nat>, path: seq<nat>, n: nat)
    requires Listed(P, disk, ids) && forall n :: 0 <= n < |path| ==> path[n] < |ids|
  {
    n < |path| && !Right(P, disk[ids[path[n]]]) && forall m :: 0 <= m < n ==> Right(P, disk[ids[path[m]]])
  }

  lemma {:induction false} PathWords(P: PageSize, disk: Disk, ids: seq<nat>, path: seq<nat>)
    requires Listed(P, disk, ids) && forall n :: 0 <= n < |path| ==> path[n] < |ids|
    ensures PathOutcome(P, disk, ids, path) == Loaded <==>
            forall n :: 0 <= n < |path| ==> Right(P, disk[ids[path[n]]])
    ensures PathOutcome(P, disk, ids, path) == Rejected <==>
            exists n: nat :: StopsAt(P, disk, ids, path, n) && LfpOf(disk[ids[path[n]]]) != 0
    ensures PathOutcome(P, disk, ids, path) == Faulted <==>
            exists n: nat :: StopsAt(P, disk, ids, path, n) && LfpOf(disk[ids[path[n]]]) == 0
    decreases |path|
  {
    hide Accepted, WordsRight, LfpOf;
    if path != [] {
      var img, rest := disk[ids[path[0]]], path[1..];
      AcceptedIff(P, img);
      PathWords(P, disk, ids, rest);
      if Right(P, img) {
        PathShift(P, disk, ids, path);
      } else {
        assert StopsAt(P, disk, ids, path, 0);
      }
    }
  }

  lemma PathShift(P: PageSize, disk: Disk, ids: seq<nat>, path: seq<nat>)
    requires Listed(P, disk, ids) && forall n :: 0 <= n < |path| ==> path[n] < |ids|
    requires path != [] && Right(P, disk[ids[path[0]]])
    ensures forall n: nat :: StopsAt(P, disk, ids, path[1..], n) ==> StopsAt(P, disk, ids, path, n + 1)
    ensures forall n: nat :: StopsAt(P, disk, ids, path, n) ==> n > 0 && StopsAt(P, disk, ids, path[1..], n - 1)
    ensures (forall n :: 0 <= n < |path[1..]| ==> Right(P, disk[ids[path[1..][n]]])) <==>
            (forall n :: 0 <= n < |path| ==> Right(P, disk[ids[path[n]]]))
  {
    hide Right;
    var rest := path[1..];
    forall n: nat | StopsAt(P, disk, ids, rest, n)
      ensures StopsAt(P, disk, ids, path, n + 1)
    {
      forall m | 0 <= m < n + 1
        ensures Right(P, disk[ids[path[m]]])
      {
        assert m > 0 ==> path[m] == rest[m - 1];
      }
    }
    forall n: nat | StopsAt(P, disk, ids, path, n)
      ensures n > 0 && StopsAt(P, disk, ids, rest, n - 1)
    {
      assert n > 0 ==> forall m :: 0 <= m < n - 1 ==> rest[m] == path[m + 1];
    }
    forall n | 0 <= n < |rest|
      ensures rest[n] == path[n + 1]
    {
    }
    if forall n :: 0 <= n < |rest| ==> Right(P, disk[ids[rest[n]]]) {
      forall n | 0 <= n < |path|
        ensures Right(P, disk[ids[path[n]]])
      {
        assert n > 0 ==> path[n] == rest[n - 1];
      }
    }
  }

  ghost function SearchOutcome(P: PageSize, disk: Disk, ids: seq<nat>, time: int): Outcome
    requires Listed(P, disk, ids)
  {
    if ids == [] || time == 0 then Loaded
    else PathOutcome(P, disk, ids, ProbePath(0, |ids| - 1, Starting(P, disk, ids, time, 0)))
  }

  // Whether the search for a time looks at a page without a last-frame position.
  ghost predicate ProbesBlank(P: PageSize, disk: Disk, ids: seq<nat>, time: int)
    requires Listed(P, disk, ids)
  {
    && ids != [] && time != 0
    && var path := ProbePath(0, |ids| - 1, Starting(P, disk, ids, time, 0));
       exists n :: 0 <= n < |path| && LfpOf(disk[ids[path[n]]]) == 0
  }

  /** Among pages whose headers are complete or under way, the search faults exactly when it looks at one that is
      under way, and is never rejected. */
  lemma SearchFaultsIff(P: PageSize, disk: Disk, ids: seq<nat>, time: int)
    requires Pages(P, disk, ids)
    ensures Listed(P, disk, ids)
    ensures SearchOutcome(P, disk, ids, time) == if ProbesBlank(P, disk, ids, time) then Faulted else Loaded
  {
    hide Pages, LfpOf, PathOutcome, Starting;
    PagesListed(P, disk, ids);
    if ids != [] && time != 0 {
      PathFaultsIff(P, disk, ids, ProbePath(0, |ids| - 1, Starting(P, disk, ids, time, 0)));
    }
  }

  lemma {:induction false} PathFaultsIff(P: PageSize, disk: Disk, ids: seq<nat>, path: seq<nat>)
    requires Pages(P, disk, ids) && Listed(P, disk, ids) && forall n :: 0 <= n < |path| ==> path[n] < |ids|
    ensures PathOutcome(P, disk, ids, path)
            == if exists n :: 0 <= n < |path| && LfpOf(disk[ids[path[n]]]) == 0 then Faulted else Loaded
  {
    hide Accepted, LfpOf, Readable;
    if path != [] {
      PathFaultsIff(P, disk, ids, path[1..]);
    }
  }

  /** The search always looks at the last page that begins by the time and at the one behind it. */
  lemma {:induction false} ProbesBoundary(left: nat, right: int, k: nat)
    requires left <= k <= right + 1
    ensures k > left ==> k - 1 in ProbePath(left, right, k)
    ensures k <= right ==> k in ProbePath(left, right, k)
    decreases right - left + 1
  {
    hide ProbePath;
    if left <= right {
      var mid := left + (right - left) / 2;
      PathUnfold(left, right, k);
      if mid < k {
        ProbesBoundary(mid + 1, right, k);
      } else {
        ProbesBoundary(left, mid - 1, k);
      }
    }
  }

  lemma PathUnfold(left: nat, right: int, k: nat)
    requires left <= right
    ensures var mid := left + (right - left) / 2;
            var rest := if mid < k then ProbePath(mid + 1, right, k) else ProbePath(left, mid - 1, k);
            && |ProbePath(left, right, k)| == |rest| + 1
            && forall x :: x in ProbePath(left, right, k) <==> x == mid || x in rest
  {
  }

  function Pow2(n: nat): (r: nat)
    ensures r > 0
  {
    if n == 0 then 1 else 2 * Pow2(n - 1)
  }

  /** Among n pages it looks at no more than the logarithm of 2 n. */
  lemma {:induction false} ProbesFew(left: nat, right: int, k: nat)
    requires left <= right
    ensures Pow2(|ProbePath(left, right, k)|) <= 2 * (right + 1 - left)
    decreases right - left + 1
  {
    hide Pow2;
    var mid := left + (right - left) / 2;
    var rest := if mid < k then ProbePath(mid + 1, right, k) else ProbePath(left, mid - 1, k);
    PathUnfold(left, right, k);
    if mid < k && mid < right {
      ProbesFew(mid + 1, right, k);
    } else if mid >= k && left < mid {
      ProbesFew(left, mid - 1, k);
    } else {
      assert rest == [];
    }
    PowStep(|rest|);
  }

  lemma PowStep(n: nat)
    ensures Pow2(n + 1) == 2 * Pow2(n) && Pow2(0) == 1
  {
  }

  /** The search either ends as the first page that does not load, or returns the last page that begins by the
      time, else the first one. */
  method FindPageId(P: PageSize, disk: Disk, ids: seq<nat>, time: int) returns (best: nat, outcome: Outcome)
    requires Listed(P, disk, ids) && BeginsOrdered(P, disk, ids)
    ensures outcome == SearchOutcome(P, disk, ids, time)
    ensures ids != [] && time != 0 ==>
      var path := ProbePath(0, |ids| - 1, Starting(P, disk, ids, time, 0));
      && (outcome == Loaded <==> forall n :: 0 <= n < |path| ==> Right(P, disk[ids[path[n]]]))
      && (outcome == Rejected <==>
            exists n: nat :: StopsAt(P, disk, ids, path, n) && LfpOf(disk[ids[path[n]]]) != 0)
    ensures ids == [] || time == 0 ==> outcome == Loaded
    ensures ids == [] ==> best == 1
    ensures ids != [] ==> best in ids
    ensures ids != [] && time == 0 ==> best == ids[0]
    ensures outcome == Loaded && time != 0 ==>
      forall m :: 0 <= m < |ids| && StartsBy(P, disk, ids[m], time) ==> ids[m] <= best
    ensures ids != [] && best != ids[0] ==> StartsBy(P, disk, best, time)
  {
    hide BeginTime, Accepted, LfpOf, Starting, ReadOutcome, PathOutcome, ProbePath, BeginsOrdered, Right, StopsAt;
    if |ids| == 0 {
      return 1, Loaded;
    }
    if time == 0 {
      return ids[0], Loaded;
    }
    ghost var k := Starting(P, disk, ids, time, 0);
    PathWords(P, disk, ids, ProbePath(0, |ids| - 1, k));
    var left, right := 0, |ids| - 1;
    best := ids[0];
    while left <= right
      invariant 0 <= left <= |ids| && -1 <= right < |ids| && left <= k <= right + 1
      invariant best in ids && (best != ids[0] ==> StartsBy(P, disk, best, time))
      invariant forall m :: 0 <= m < left ==> ids[m] <= best
      invariant SearchOutcome(P, disk, ids, time) == PathOutcome(P, disk, ids, ProbePath(left, right, k))
      decreases right - left + 1
    {
      var mid := left + (right - left) / 2;
      PathStep(P, disk, ids, left, right, k);
      outcome := ReadOutcome(P, disk[ids[mid]]);
      if outcome != Loaded {
        return;
      }
      StartingIff(P, disk, ids, time, 0, mid);
      var pageBeginTime := BeginTime(P, disk[ids[mid]]);
      if pageBeginTime == 0 {
        right := mid - 1;
        continue;
      }
      if pageBeginTime <= time {
        best := ids[mid];
        left := mid + 1;
      } else {
        right := mid - 1;
      }
    }
    PathDone(P, disk, ids, left, right, k);
    outcome := Loaded;
    forall m | 0 <= m < |ids| && StartsBy(P, disk, ids[m], time)
      ensures ids[m] <= best
    {
      StartingIff(P, disk, ids, time, 0, m);
    }
  }

  lemma PathDone(P: PageSize, disk: Disk, ids: seq<nat>, left: nat, right: int, k: nat)
    requires Listed(P, disk, ids) && right < left
    ensures PathOutcome(P, disk, ids, ProbePath(left, right, k)) == Loaded
  {
  }

  // One look of the search.
  lemma PathStep(P: PageSize, disk: Disk, ids: seq<nat>, left: nat, right: int, k: nat)
    requires Listed(P, disk, ids) && left <= right < |ids|
    ensures var mid := left + (right - left) / 2;
            var rest := if mid < k then ProbePath(mid + 1, right, k) else ProbePath(left, mid - 1, k);
            PathOutcome(P, disk, ids, ProbePath(left, right, k))
            == if ReadOutcome(P, disk[ids[mid]]) == Loaded then PathOutcome(P, disk, ids, rest)
               else ReadOutcome(P, disk[ids[mid]])
  {
    hide ReadOutcome;
    var mid := left + (right - left) / 2;
    var rest := if mid < k then ProbePath(mid + 1, right, k) else ProbePath(left, mid - 1, k);
    assert ([mid] + rest)[1..] == rest;
  }

  // When no page begins by the time, the search looks at the first one.
  lemma {:induction false} FirstProbed(P: PageSize, disk: Disk, ids: seq<nat>, right: nat)
    requires Listed(P, disk, ids) && right < |ids|
    requires PathOutcome(P, disk, ids, ProbePath(0, right, 0)) == Loaded
    ensures ReadOutcome(P, disk[ids[0]]) == Loaded
    decreases right
  {
    hide ReadOutcome, PathOutcome, ProbePath, Listed;
    PathStep(P, disk, ids, 0, right, 0);
    var mid := right / 2;
    if mid > 0 {
      FirstProbed(P, disk, ids, mid - 1);
    }
  }

  /** In a stream that is ordered in time the begin times of its pages are ordered too. */
  lemma OrderedStreamBegins(P: PageSize, disk: Disk, ids: seq<nat>)
    requires Pages(P, disk, ids) && OneSession(P, disk, ids) && TimeOrdered(P, disk, ids)
    ensures Listed(P, disk, ids) && BeginsOrdered(P, disk, ids)
  {
    hide Readable, Walk, TimeAt, IsFull, LfpOf, Accepted;
    PagesListed(P, disk, ids);
    forall m, n | 0 <= m < n < |ids| && BeginTime(P, disk[ids[n]]) != 0
      ensures 0 != BeginTime(P, disk[ids[m]]) <= BeginTime(P, disk[ids[n]])
    {
      BeginIsFirst(P, disk, ids, m);
      BeginIsFirst(P, disk, ids, n);
      NonEmptyBefore(P, disk, ids, m, n);
      assert Before(P, disk, ids[m], 0, ids[n], 0);
    }
  }

  lemma BeginIsFirst(P: PageSize, disk: Disk, ids: seq<nat>, m: nat)
    requires Pages(P, disk, ids) && TimeOrdered(P, disk, ids) && m < |ids|
    ensures ids[m] in disk && |disk[ids[m]]| == P
    ensures var frames := FramesOf(P, disk, ids[m]);
            BeginTime(P, disk[ids[m]]) == if frames == [] then 0 else GenTimeOf(frames[0])
    ensures BeginTime(P, disk[ids[m]]) == 0 <==> FramesOf(P, disk, ids[m]) == []
  {
    hide Walk, Readable, GenTimeOf, FromLE, TypeOf;
    ReadablePage(P, disk, ids[m]);
    ReadableStep(P, disk[ids[m]], 64);
  }

  lemma ReadablePage(P: PageSize, disk: Disk, p: nat)
    requires PageOK(P, disk, p) || Blank(P, disk, p)
    ensures p in disk && |disk[p]| == P && Readable(P, disk[p], 64)
  {
  }

  lemma {:induction false} NonEmptyBefore(P: PageSize, disk: Disk, ids: seq<nat>, m: nat, n: nat)
    requires Pages(P, disk, ids) && OneSession(P, disk, ids) && m < n < |ids| && FramesOf(P, disk, ids[n]) != []
    ensures IsEnded(FramesOf(P, disk, ids[m]))
    decreases n - m
  {
    hide Walk, Readable, IsFull, Pages, FullIsEnded;
    if m + 1 < n {
      NonEmptyBefore(P, disk, ids, m + 1, n);
    }
    assert FramesOf(P, disk, ids[m + 1]) != [];
  }

  // ---------- The reader's cursor ----------

  // Frames a seek to `time` may pass over: earlier ones, or one at exactly `time` before a page that
  // begins at that time.
  ghost predicate MayPass(P: PageSize, disk: Disk, ids: seq<nat>, p: nat, i: nat, time: int)
    requires i < |FramesOf(P, disk, p)|
  {
    var t := GenTimeOf(FramesOf(P, disk, p)[i]);
    t <= time && (t == time ==> exists best :: best in ids && p < best && BeginsAt(P, disk, best, time))
  }

  ghost predicate BeginsAt(P: PageSize, disk: Disk, p: nat, time: int) {
    FramesOf(P, disk, p) != [] && GenTimeOf(FramesOf(P, disk, p)[0]) == time
  }

  ghost predicate AllPassed(P: PageSize, disk: Disk, ids: seq<nat>, page: nat, k: nat, time: int) {
    forall p, i :: p in ids && 0 <= i < |FramesOf(P, disk, p)| && (p < page || (p == page && i < k)) ==>
      MayPass(P, disk, ids, p, i, time)
  }

  // How a fresh join ends, from the files it finds.
  ghost function SeekOutcome(P: PageSize, disk: Disk, ids: seq<nat>, time: int, prefault: bool): Outcome
    requires ids != [] && Listed(P, disk, ids)
  {
    if time == 0 && !prefault && LfpOf(disk[ids[0]]) == 0 then Faulted else SearchOutcome(P, disk, ids, time)
  }

  lemma OnlyProbesFail(P: PageSize, disk: Disk, ids: seq<nat>, time: int)
    requires Listed(P, disk, ids) && SearchOutcome(P, disk, ids, time) != Loaded
    ensures time != 0
  {
  }

  class Cursor {
    const P: PageSize
    const ids: seq<nat>
    const prefault: bool
    var disk: Disk
    var page: nat
    var off: nat
    var pageFrameNb: nat

    constructor (P: PageSize, disk: Disk, ids: seq<nat>, prefault: bool)
      ensures this.P == P && this.disk == disk && this.ids == ids && this.prefault == prefault
    {
      this.P, this.disk, this.ids, this.prefault := P, disk, ids, prefault;
      page, off, pageFrameNb := 0, 0, 0;
    }

    // The cursor stands after pageFrameNb frames of its page.
    ghost predicate Valid()
      reads this
    {
      && page in ids && PageOK(P, disk, page) && Readable(P, disk[page], off)
      && pageFrameNb <= |FramesOf(P, disk, page)|
      && Walk(P, disk[page], off) == FramesOf(P, disk, page)[pageFrameNb..]
    }

    // Page::load on a mapping that prefaulting makes writable. A page without a last-frame position gets its
    // header, or the store faults.
    method LoadPage(id: nat) returns (outcome: Outcome)
      requires id in ids && (PageOK(P, disk, id) || Blank(P, disk, id))
      modifies this
      ensures outcome == if !prefault && LfpOf(old(disk)[id]) == 0 then Faulted else Loaded
      ensures outcome == Faulted ==> unchanged(this)
      ensures outcome == Loaded ==>
        && Valid() && page == id && pageFrameNb == 0 && disk == old(disk)[id := LoadedPage(P, old(disk)[id])]
    {
      hide PutAll, PageHeaderStores, Readable, LE, FromLE;
      if FromLE(disk[id][16..24]) == 0 && !prefault {
        return Faulted;
      }
      LoadedPageOK(P, disk, id);
      disk := disk[id := LoadedPage(P, disk[id])];
      page, off, pageFrameNb := id, 64, 0;
      outcome := Loaded;
    }

    method Next() returns (outcome: Outcome)
      requires Valid() && LengthAt(disk[page], off) > 0
      requires IsEnded(FramesOf(P, disk, page)) ==>
        page + 1 in ids && (PageOK(P, disk, page + 1) || Blank(P, disk, page + 1))
      modifies this
      ensures var turns := old(pageFrameNb) + 1 == |FramesOf(P, old(disk), old(page))|
                           && IsEnded(FramesOf(P, old(disk), old(page)));
              && outcome == (if turns && !prefault && LfpOf(old(disk)[old(page) + 1]) == 0 then Faulted else Loaded)
              && (outcome == Faulted ==> unchanged(this))
              && (outcome == Loaded ==>
                    && Valid()
                    && (if turns then page == old(page) + 1 && pageFrameNb == 0
                        else page == old(page) && pageFrameNb == old(pageFrameNb) + 1)
                    && disk == if turns then old(disk)[page := LoadedPage(P, old(disk)[page])] else old(disk))
    {
      hide Walk, Readable, TypeOf, PageOK, Blank, GenTimeOf, FromLE, FramePhysicalLength, AlignUp, LoadedPage, LfpOf;
      PageBytes(P, disk, page);
      var img := disk[page];
      ReadableStep(P, img, off);
      ghost var frames, k := FramesOf(P, disk, page), pageFrameNb;
      assert frames[k..][0] == frames[k];
      NotEndedYet(P, disk, page, off, k);
      if TypeOf(HeaderAt(img, off)) == PAGE_END {
        outcome := LoadPage(page + 1);
      } else {
        assert frames[k..][1..] == frames[k + 1..];
        off := off + FramePhysicalLength(LengthAt(img, off));
        pageFrameNb := pageFrameNb + 1;
        outcome := Loaded;
      }
    }

    // Inside a session a page that was ended is followed by one with a complete header.
    method NextInSession()
      requires Valid() && LengthAt(disk[page], off) > 0
      requires IsEnded(FramesOf(P, disk, page)) ==> page + 1 in ids && PageOK(P, disk, page + 1)
      modifies this
      ensures Valid() && disk == old(disk)
      ensures if old(pageFrameNb) + 1 == |FramesOf(P, disk, old(page))| && IsEnded(FramesOf(P, disk, old(page)))
              then page == old(page) + 1 && pageFrameNb == 0
              else page == old(page) && pageFrameNb == old(pageFrameNb) + 1
    {
      hide Walk, Readable, TypeOf, PageOK, FramesOf, IsEnded, FromLE, LoadedPage, LfpOf, LengthAt;
      if IsEnded(FramesOf(P, disk, page)) {
        CompleteStays(P, disk, page + 1);
      }
      var outcome := Next();
    }

    // The first half of a join: the search, and loading the page it returns.
    method OpenPage(time: int) returns (outcome: Outcome)
      requires ids != [] && Pages(P, disk, ids) && OneSession(P, disk, ids) && TimeOrdered(P, disk, ids)
      modifies this
      ensures Listed(P, old(disk), ids)
      ensures outcome == SeekOutcome(P, old(disk), ids, time, prefault)
      ensures disk == if outcome == Loaded && time == 0 then old(disk)[ids[0] := LoadedPage(P, old(disk)[ids[0]])]
                      else old(disk)
      ensures outcome == Loaded ==>
        && Valid() && pageFrameNb == 0 && AllPassed(P, disk, ids, page, 0, time)
        && Pages(P, disk, ids) && OneSession(P, disk, ids) && TimeOrdered(P, disk, ids)
    {
      hide Walk, Readable, Accepted, TypeOf, GenTimeOf, FromLE, IsFull, TimeOrdered, MayPass, OneSession, AllPassed,
        BeginsOrdered, FramesOf, EndTime, LoadedPage, LfpOf, SearchOutcome, Pages, StartsBy;
      OrderedStreamBegins(P, disk, ids);
      PagesListed(P, disk, ids);
      var pageId;
      pageId, outcome := FindPageId(P, disk, ids, time);
      if outcome != Loaded {
        OnlyProbesFail(P, disk, ids, time);
        return;
      }
      FoundPage(P, disk, ids, pageId, time);
      if time != 0 {
        CompleteStays(P, disk, pageId);
      }
      outcome := LoadPage(pageId);
      if outcome == Loaded {
        LoadingKeeps(P, old(disk), ids, pageId);
        SearchPasses(P, disk, ids, page, time);
      }
    }

    // The first loop of a seek: pages that ended before the time.
    method LeaveFullPages(time: int)
      requires Pages(P, disk, ids) && OneSession(P, disk, ids) && TimeOrdered(P, disk, ids)
      requires Valid() && pageFrameNb == 0 && AllPassed(P, disk, ids, page, 0, time)
      modifies this
      ensures Valid() && pageFrameNb == 0 && disk == old(disk) && AllPassed(P, disk, ids, page, 0, time)
    {
      hide Walk, Readable, Accepted, TypeOf, GenTimeOf, FromLE, IsFull, TimeOrdered, MayPass, OneSession, AllPassed,
        FramesOf, EndTime, LoadedPage, LfpOf, Pages, Blank;
      while IsFull(P, disk[page]) && EndTime(P, disk[page]) < time
        invariant Valid() && pageFrameNb == 0 && disk == old(disk) && AllPassed(P, disk, ids, page, 0, time)
        decreases ids[|ids| - 1] - page
      {
        FullPasses(P, disk, ids, page, time);
        CompleteStays(P, disk, page + 1);
        var outcome := LoadPage(page + 1);
      }
    }

    /** A fresh join at a time. It fails exactly as the search over the pages does, or if the first page has no
        header yet and is asked for without prefaulting. Else it lands on a frame that is not earlier, or at the
        end of the data, and passes only frames that are earlier, or at that time on pages before one that
        begins at it. */
    method SeekToTime(time: int) returns (outcome: Outcome)
      requires ids != [] && Pages(P, disk, ids) && OneSession(P, disk, ids) && TimeOrdered(P, disk, ids)
      modifies this
      ensures Listed(P, old(disk), ids)
      ensures outcome == SeekOutcome(P, old(disk), ids, time, prefault)
      ensures disk == if outcome == Loaded && time == 0 then old(disk)[ids[0] := LoadedPage(P, old(disk)[ids[0]])]
                      else old(disk)
      ensures outcome == Loaded ==> Valid() && AllPassed(P, disk, ids, page, pageFrameNb, time)
      ensures outcome == Loaded ==>
        var frames := FramesOf(P, disk, page);
        if pageFrameNb < |frames| then GenTimeOf(frames[pageFrameNb]) >= time else !IsEnded(frames)
    {
      hide Walk, Readable, Accepted, TypeOf, GenTimeOf, FromLE, IsFull, TimeOrdered, MayPass, OneSession, AllPassed,
        FramesOf, EndTime, LoadedPage, LfpOf, SeekOutcome, Pages, Listed, Blank;
      outcome := OpenPage(time);
      if outcome != Loaded {
        return;
      }
      LeaveFullPages(time);
      ghost var loaded := disk;
      while HasData() && GenTime() < time
        invariant Valid() && (pageFrameNb == |FramesOf(P, disk, page)| ==> !IsEnded(FramesOf(P, disk, page)))
        invariant disk == loaded
        invariant AllPassed(P, disk, ids, page, pageFrameNb, time)
        decreases ids[|ids| - 1] - page, |FramesOf(P, disk, page)| - pageFrameNb
      {
        ScanPasses(P, disk, ids, page, off, pageFrameNb, time);
        NextInSession();
      }
      StopsAtData(P, disk, page, off, pageFrameNb);
    }

    function GenTime(): int
      requires Valid()
      reads this
    {
      GenTimeOf(HeaderAt(disk[page], off))
    }

    // Frame::hasData at the cursor.
    predicate HasData()
      requires Valid()
      reads this
    {
      LengthAt(disk[page], off) > 0 && TypeOf(HeaderAt(disk[page], off)) > 0
    }
  }

  lemma PageBytes(P: PageSize, disk: Disk, p: nat)
    requires PageOK(P, disk, p)
    ensures p in disk && |disk[p]| == P
  {
  }

  // Where the scan stops there is a committed frame, or no more.
  lemma StopsAtData(P: PageSize, disk: Disk, p: nat, off: nat, k: nat)
    requires PageOK(P, disk, p) && Readable(P, disk[p], off) && k <= |FramesOf(P, disk, p)|
    requires Walk(P, disk[p], off) == FramesOf(P, disk, p)[k..]
    ensures off + 32 <= P && |disk[p]| == P
    ensures var frames := FramesOf(P, disk, p);
            if LengthAt(disk[p], off) > 0 && TypeOf(HeaderAt(disk[p], off)) > 0
            then k < |frames| && GenTimeOf(frames[k]) == GenTimeOf(HeaderAt(disk[p], off)) else k == |frames|
  {
    hide Walk, Readable, TypeOf, GenTimeOf, FromLE, FramesOf;
    PageBytes(P, disk, p);
    ReadableStep(P, disk[p], off);
    var frames := FramesOf(P, disk, p);
    assert k < |frames| ==> frames[k..][0] == frames[k];
  }

  // A frame that is not the last one of its page is no PageEnd.
  lemma NotEndedYet(P: PageSize, disk: Disk, p: nat, off: nat, k: nat)
    requires PageOK(P, disk, p) && Readable(P, disk[p], off) && k < |FramesOf(P, disk, p)|
    requires Walk(P, disk[p], off) == FramesOf(P, disk, p)[k..]
    ensures TypeOf(FramesOf(P, disk, p)[k]) == PAGE_END <==>
            k + 1 == |FramesOf(P, disk, p)| && IsEnded(FramesOf(P, disk, p))
  {
    hide Walk, Readable, TypeOf, GenTimeOf, FromLE;
    PageBytes(P, disk, p);
    ReadableStep(P, disk[p], off);
    assert FramesOf(P, disk, p)[k..][0] == FramesOf(P, disk, p)[k];
  }

  // The pages before the one the search found.
  lemma SearchPasses(P: PageSize, disk: Disk, ids: seq<nat>, page: nat, time: int)
    requires Pages(P, disk, ids) && TimeOrdered(P, disk, ids) && page in ids
    requires PageOK(P, disk, page) && (page != ids[0] ==> StartsBy(P, disk, page, time))
    ensures AllPassed(P, disk, ids, page, 0, time)
  {
    hide FramesOf, TimeAt, GenTimeOf, PageOK;
    if page != ids[0] {
      var m :| 0 <= m < |ids| && ids[m] == page;
      BeginIsFirst(P, disk, ids, m);
      forall p, i | p in ids && 0 <= i < |FramesOf(P, disk, p)| && p < page
        ensures MayPass(P, disk, ids, p, i, time)
      {
        assert Before(P, disk, p, i, page, 0);
        assert GenTimeOf(FramesOf(P, disk, page)[0]) == time ==> BeginsAt(P, disk, page, time);
      }
    }
  }

  // A full page that ended before the time.
  lemma FullPasses(P: PageSize, disk: Disk, ids: seq<nat>, page: nat, time: int)
    requires Pages(P, disk, ids) && OneSession(P, disk, ids) && TimeOrdered(P, disk, ids) && page in ids
    requires PageOK(P, disk, page) && IsFull(P, disk[page]) && EndTime(P, disk[page]) < time
    requires AllPassed(P, disk, ids, page, 0, time)
    ensures page + 1 in ids && page < ids[|ids| - 1] && PageOK(P, disk, page + 1)
    ensures AllPassed(P, disk, ids, page + 1, 0, time)
  {
    hide FramesOf, TimeAt, GenTimeOf, IsFull, EndTime, PageOK, TypeOf;
    var m :| 0 <= m < |ids| && ids[m] == page;
    assert FullIsEnded(P, disk, ids[m]);
    var frames := FramesOf(P, disk, page);
    assert ids[m + 1] == page + 1;
    forall p, i | p in ids && 0 <= i < |FramesOf(P, disk, p)| && p < page + 1
      ensures MayPass(P, disk, ids, p, i, time)
    {
      if p == page {
        assert Before(P, disk, page, i, page, |frames| - 1);
      }
    }
  }

  // One earlier frame under the cursor.
  lemma ScanPasses(P: PageSize, disk: Disk, ids: seq<nat>, page: nat, off: nat, k: nat, time: int)
    requires Pages(P, disk, ids) && OneSession(P, disk, ids) && page in ids && PageOK(P, disk, page)
    requires Readable(P, disk[page], off) && k <= |FramesOf(P, disk, page)|
    requires Walk(P, disk[page], off) == FramesOf(P, disk, page)[k..]
    requires LengthAt(disk[page], off) > 0 && GenTimeOf(HeaderAt(disk[page], off)) < time
    requires AllPassed(P, disk, ids, page, k, time)
    ensures k < |FramesOf(P, disk, page)|
    ensures IsEnded(FramesOf(P, disk, page)) ==> page + 1 in ids && page < ids[|ids| - 1] && PageOK(P, disk, page + 1)
    ensures AllPassed(P, disk, ids, page, k + 1, time)
    ensures k + 1 == |FramesOf(P, disk, page)| ==> AllPassed(P, disk, ids, page + 1, 0, time)
  {
    hide Walk, Readable, TypeOf, GenTimeOf, FromLE, IsFull, PageOK, FramesOf;
    PageBytes(P, disk, page);
    ReadableStep(P, disk[page], off);
    var frames := FramesOf(P, disk, page);
    assert k < |frames| && frames[k..][0] == frames[k];
    if IsEnded(frames) {
      var m :| 0 <= m < |ids| && ids[m] == page;
      assert ids[m + 1] == page + 1;
    }
    forall p, i | p in ids && 0 <= i < |FramesOf(P, disk, p)| && (p < page || (p == page && i < k + 1))
      ensures MayPass(P, disk, ids, p, i, time)
    {
      assert p == page && i == k ==> GenTimeOf(frames[k]) < time;
    }
  }

  // ---------- Loading a page without a header ----------

  lemma LoadedPageOK(P: PageSize, disk: Disk, p: nat)
    requires PageOK(P, disk, p) || Blank(P, disk, p)
    ensures PageOK(P, disk[p := LoadedPage(P, disk[p])], p)
    ensures FramesOf(P, disk[p := LoadedPage(P, disk[p])], p) == FramesOf(P, disk, p)
    ensures Blank(P, disk, p) ==> FramesOf(P, disk, p) == [] && !IsFull(P, LoadedPage(P, disk[p]))
  {
    hide PutAll, PageHeaderStores, LE, FromLE, Walk, HeaderPrefix, TypeOf;
    var img := disk[p];
    var r := LoadedPage(P, img);
    if LfpOf(img) == 0 {
      HeaderInitBody(P, img);
      assert r[64..68] == img[64..68];
      WalkStep(P, img, 64);
      WalkStep(P, r, 64);
    }
  }

  // A page with a complete header stays as it is.
  lemma CompleteStays(P: PageSize, disk: Disk, p: nat)
    requires PageOK(P, disk, p)
    ensures LfpOf(disk[p]) != 0 && disk[p := LoadedPage(P, disk[p])] == disk
  {
    hide Readable, Accepted;
  }

  lemma LoadingKeeps(P: PageSize, disk: Disk, ids: seq<nat>, id: nat)
    requires Pages(P, disk, ids) && OneSession(P, disk, ids) && TimeOrdered(P, disk, ids) && id in ids
    ensures var disk' := disk[id := LoadedPage(P, disk[id])];
            Pages(P, disk', ids) && OneSession(P, disk', ids) && TimeOrdered(P, disk', ids)
  {
    hide Pages, OneSession, TimeOrdered, PageOK, Blank, FramesOf, LoadedPage;
    InPages(P, disk, ids, id);
    LoadedPageOK(P, disk, id);
    if PageOK(P, disk, id) {
      CompleteStays(P, disk, id);
    } else {
      var disk' := disk[id := LoadedPage(P, disk[id])];
      OthersKept(P, disk, id, LoadedPage(P, disk[id]));
      KeptPages(P, disk, disk', ids, id);
      KeptFrames(P, disk, disk', ids);
    }
  }

  lemma InPages(P: PageSize, disk: Disk, ids: seq<nat>, id: nat)
    requires Pages(P, disk, ids) && id in ids
    ensures (PageOK(P, disk, id) || Blank(P, disk, id)) && id in disk && |disk[id]| == P
  {
    hide Readable, Accepted, LfpOf, LengthAt;
  }

  lemma OthersKept(P: PageSize, disk: Disk, id: nat, img: Bytes)
    requires FramesOf(P, disk[id := img], id) == FramesOf(P, disk, id)
    ensures forall p :: FramesOf(P, disk[id := img], p) == FramesOf(P, disk, p)
    ensures forall p :: p != id ==> (PageOK(P, disk[id := img], p) <==> PageOK(P, disk, p))
                                    && (Blank(P, disk[id := img], p) <==> Blank(P, disk, p))
  {
    hide Walk, Readable, Accepted, LfpOf, LengthAt;
  }

  lemma KeptPages(P: PageSize, disk: Disk, disk': Disk, ids: seq<nat>, id: nat)
    requires Pages(P, disk, ids) && OneSession(P, disk, ids)
    requires forall p :: FramesOf(P, disk', p) == FramesOf(P, disk, p)
    requires forall p :: p != id ==> (PageOK(P, disk', p) <==> PageOK(P, disk, p))
                                     && (Blank(P, disk', p) <==> Blank(P, disk, p))
    requires forall p :: p != id ==> (p in disk <==> p in disk') && (p in disk ==> disk'[p] == disk[p])
    requires PageOK(P, disk', id) && !IsFull(P, disk'[id])
    ensures Pages(P, disk', ids) && OneSession(P, disk', ids)
  {
    hide Walk, Readable, Accepted, LfpOf, LengthAt, FramesOf, IsEnded, IsFull, GenTimeOf, EndTime;
  }

  // The order in time is about frames only.
  lemma KeptFrames(P: PageSize, disk: Disk, disk': Disk, ids: seq<nat>)
    requires forall p :: FramesOf(P, disk', p) == FramesOf(P, disk, p)
    requires TimeOrdered(P, disk, ids)
    ensures TimeOrdered(P, disk', ids)
  {
    hide FramesOf, GenTimeOf;
    forall p, i, q, j | p in ids && q in ids && 0 <= i < |FramesOf(P, disk', p)|
                        && 0 <= j < |FramesOf(P, disk', q)| && (p < q || (p == q && i <= j))
      ensures Before(P, disk', p, i, q, j)
    {
      assert Before(P, disk, p, i, q, j);
    }
  }

  // The page that the search returns loads, but for a first page that was asked for without a look at it.
  lemma FoundPage(P: PageSize, disk: Disk, ids: seq<nat>, page: nat, time: int)
    requires Pages(P, disk, ids) && Listed(P, disk, ids) && BeginsOrdered(P, disk, ids) && page in ids
    requires SearchOutcome(P, disk, ids, time) == Loaded && (time == 0 ==> page == ids[0])
    requires time != 0 ==> forall m :: 0 <= m < |ids| && StartsBy(P, disk, ids[m], time) ==> ids[m] <= page
    requires page != ids[0] ==> StartsBy(P, disk, page, time)
    ensures PageOK(P, disk, page) || Blank(P, disk, page)
    ensures page != ids[0] || time != 0 ==> PageOK(P, disk, page)
  {
    hide Readable, Accepted, LfpOf, PathOutcome;
    var m :| 0 <= m < |ids| && ids[m] == page;
    if time != 0 && Blank(P, disk, page) {
      assert m == 0;
      assert Starting(P, disk, ids, time, 0) == 0;
      FirstProbed(P, disk, ids, |ids| - 1);
      assert false;
    }
  }
}
