# revoq journal: a verified model

revoq is a file-backed journal. One writer appends frames of 64-byte-aligned stride to fixed-size pages,
publishes a frame by storing its length last, and ends a page with a `PageEnd` frame. Any number of readers
follow the pages, and a reader may merge several journals by timestamp. This project models the journal's
core and proves what its readers, resuming writers and background threads rely on. `dafny verify
dfyconfig.toml` checks everything.

The page size is a parameter `P`: a multiple of 64, at least 192, below 2^32.

| files | part of the system |
|---|---|
| `Layout`, `Memory` | bytes of frame and page headers; a memory in which plain reads may be stale |
| `Protocol`, `ProtocolSafety`, `ProtocolProofs`, `ProtocolTheorems` | one writer session, its page warmer and any number of readers, one store or load per step |
| `Payload` | what a published frame carries, read off the steps of the run |
| `Progress`, `WarmOverlap` | what writer, warmer and reader can always do next; what a step left out of the protocol would destroy |
| `PageDecoding`, `LastFramePosition` | what the bytes of the pages say at any moment of a session |
| `Recovery`, `ResumeTheorems`, `SessionChains`, `ResumeWitness` | resuming after a stop between any two stores; chains of sessions |
| `JournalWriter` | the writer as one thread runs it, in place on the page's array |
| `Merge`, `MergeTheorems`, `MergeDrains` | the merging reader: heap, linear scan, single-journal path; whole drains of it |
| `Seek`, `SeekTheorems`, `SeekWitness` | joining at a time: binary search over pages and the scan behind it |
| `PageWarmer`, `PageWarmerSafety`, `PageWarmerTheorems`, `PageWarmerProgress` | the ring that hands pre-mapped pages to the writer |
| `Handoff`, `HandoffProgress`, `HandoffOrder` | the reader's warmer and retire threads, and the destructor that joins them |
| `WriterLock` | several threads on one writer: the lock taken by `openData` and given back by `closeData` |
| `Hash`, `Names` | the uid hashes; page file names and their listing |
| `Counting` | occurrences in a sequence, for the ownership proofs |

## How the concurrency is modelled

*Readers and writer.* The state is the log of all stores so far. A store of the writer or the warmer is one
step, and so is each load of a reader. A plain load returns the newest store the reader is known to have seen,
or any later or concurrent one; a load of the length word is untorn and, when it returns a released length,
adds everything the release makes visible to the reader's view. This follows release and acquire in clause
[intro.races] of ISO C++; the sequentially consistent runs are among the modelled ones.

*Threads with mutexes and condition variables.* A critical section without a wait is one step that needs the
mutex to be free. A wait is three: evaluate the predicate with the mutex held, release it and sleep, wake and
lock again. A notification can fall between any two of them, and wake-ups may be spurious.

*The reading journal's running flag* is loaded relaxed. The retire thread loads it under the mutex under which
it is cleared and reads the latest value. The warmer holds another mutex: until the destructor has been through
that one, every load of the warmer may return the old value, but not after one that returned the new. So each
spurious wake-up in that window may send the warmer back to sleep, and the bound on the shutdown counts them.

*The warmer's ring.* The writer's search looks at one slot a step, from any start, and misses only when it has
looked at all of them. The compare-and-swap of a claim, the reads of the slot and the clearing of its owner bit
are steps of their own. The warmer's scan for a page is one step: only the writer removes ids meanwhile, so a
negative scan can be placed at its end and a positive one at the read that found the page.

## Where the code falls short of the promise

Each of these has its exact condition proved.

* **Resuming reuses a page with one closed frame.** `findLastWrittenPage` takes a last-frame position of 64
  for an empty page, but 64 is also the position of the first frame. `ResumeWitness.SingleFrameIsReused` is a
  run that loses its only committed frame to the first store of the next writer's first frame.
  `SessionChains.ResumeKeepsFramesIff` says exactly when a resumed writer keeps every committed frame, exactly
  when it takes the right sequence number (the same condition), and that otherwise its first frame goes to the
  slot of a committed one; `SessionChains.FramesGuardMeans` gives the condition on the files, which a caller can
  check before resuming. That the writer starts on an untouched page is a stronger demand, with its own condition
  on the session (`SessionChains.ResumeIsSafeIff`) and on the files (`ResumeTheorems.ResumeUntouchedIff`). Under
  it no committed frame is ever overwritten and sequence numbers run on across any chain of sessions.
  That the guard for frames holds does not make the page safe to write on. Payload that the interrupted writer
  left there stays, and behind a shorter first frame a reader can take it for a frame that nobody wrote:
  `ResumeWitness.LeftoverIsRead` is such a run. `ResumeTheorems.ResumeConfigValid` says exactly when the new
  session meets the assumptions under which its readers see a prefix.
* **Resuming without prefaulting.** The scan loads pages for reading, and only prefaulting makes such a mapping
  writable (src/MmapBuffer.cpp:36, :78). A page whose header was still being made has no last-frame position,
  so `Page::load` stores to it and the process faults. `Recovery.ScanStoresIff` and
  `ResumeTheorems.ScanFaultsIff` say exactly when; `ResumeWitness.UnfinishedHeaderFaults` is a run of one step.
* **Joining while a page is made.** The search over the pages loads each page that it looks at for reading and
  without prefaulting (include/revoq/JournalPage.h:248), so a page whose header is still being made makes it
  fault, prefaulting or not. `SeekTheorems.SeekFaultsIff` says exactly when: the places the search looks at
  depend only on how many pages there are and how many begin by the time. `SeekWitness.JoinFaults` is a run after
  which every join at a time from the first frame on faults.
* **Loading a page while it is warmed.** A writer that misses a page in the ring loads the file itself, and
  nothing keeps this from overlapping `warmPageIntoSlot`, whose last store zeroes the page behind its header.
  The protocol leaves the overlap out; `WarmOverlap.OverlapErases` shows that it erases every frame published
  on the page, and `WarmOverlap.ZeroFillKeepsIff` that it is harmless exactly before anything was stored there.
* **Ties at a heap rebuild.** `rebuildHeap` heapifies twice with a comparator that ignores the journal, so on
  equal smallest timestamps the current journal need not be the one on top of the heap
  (`MergeTheorems.RebuildAgreesIff`). The other journal then delivers nothing for the rest of the drain, although
  it has data (`MergeDrains.TornDrain`). For journals that do not grow, every drain is complete, whatever the
  library does with equal keys, if and only if its rebuild finds one smallest head
  (`MergeDrains.DrainsCompleteIff`); later ties are harmless to that, but not to the choice of journal
  (`MergeDrains.DrainsLinearIff`).
* **Timestamps at the maximum.** The linear scan starts at the largest 64-bit time and compares strictly, so
  `isDataAvailable` answers no at heads stamped with it. `MergeDrains.LinearCompleteIff` says which drains miss
  a frame.
* **A full page is not every ended page.** `isFull` holds only for a page whose `PageEnd` lies in the last slot
  (`SeekTheorems.FullPageIsEnded`); an ended page with room left is passed by the scan of frames instead.

## Model

| member | source | states |
|---|---|---|
| `Layout.LERoundTrip` | include/revoq/JournalFrame.h:27-36 | little-endian fields of any width read back modulo their width |
| `Layout.LEAt` | include/revoq/JournalFrame.h:27-36 | byte i of a stored word is its digit i to the base 256: little-endian, and two's complement for negative times |
| `Layout.HeaderRoundTrip` | include/revoq/JournalFrame.h:27-36 | a header decodes to exactly the length, type, flags, sequence and times it was made from |
| `Layout.HeaderFields` | include/revoq/JournalFrame.h:27-36 | length, type, flags, sequence and both times lie at offsets 0, 4, 6, 8, 16 and 24 |
| `Layout.AlignUpIsLeast` | include/revoq/JournalFrame.h:42-45 | no aligned bound of a length is smaller than `alignUp` |
| `Layout.StrideFits` | include/revoq/JournalFrame.h:47-49 | no frame length up to the page size makes the 32-bit stride wrap around or exceed the page |
| `Layout.OpenStoresResult` | include/revoq/JournalWriter.h:411-418 | the stores of `openFrame`, in order, leave exactly the requested header with length zero, whatever was there |
| `Layout.PageEndStoresResult` | include/revoq/JournalWriter.h:363-370 | the stores of `rotatePage` leave a `PageEnd` header whose length is still zero |
| `Layout.PageHeaderStoresResult` | include/revoq/JournalPage.h:141-152 | `Page::load` leaves a new page a header that its own validation accepts and that names the first frame |
| `Layout.PageHeaderWhole` | include/revoq/JournalPage.h:141-152 | each word of that header and its offset, the rest of it zero whatever was there, and nothing behind it touched |
| `Layout.WarmStoresResult` | include/revoq/PageWarmer.h:221-233 | the warmer leaves a new page the same header, and zeros behind it |
| `Layout.WarmHeaderWhole` | include/revoq/PageWarmer.h:221-229 | the same words from the warmer, which leaves the rest of the header alone |
| `Memory.WordLoadZero` | include/revoq/JournalFrame.h:70-72 | a length word to which only zeros were stored reads as zero under every view |
| `Memory.WordIsLatest` | include/revoq/JournalFrame.h:70-72 | a thread that has seen every store to a word loads its latest value |
| `Memory.RacesAreVisible` | include/revoq/JournalFrame.h:70-72 | no race is hidden: a plain read of a byte with an unseen store may return anything, a word load any store that is not too old |
| `ProtocolProofs.WriterKeeps` | include/revoq/JournalWriter.h:332-438 | every single store of open, fill, publish, close and rotate keeps the protocol invariant |
| `ProtocolProofs.WarmerKeeps` | include/revoq/PageWarmer.h:206-242 | every store of the warmer keeps it |
| `ProtocolProofs.ReaderKeeps` | include/revoq/Journal.h:100-113 | every load of a reader keeps it, reading each byte from any store its view allows |
| `ProtocolTheorems.ReadersSeePrefix` | include/revoq/JournalReader.h:238-245 | in every interleaving a reader that joined at any published position has consumed a prefix of what was published from there on, byte for byte, and never faults at a page turn |
| `ProtocolTheorems.PublishedIsForever` | include/revoq/JournalWriter.h:427-438 | published frames are never withdrawn, reordered or overwritten for the rest of the run, given that the writer's own load of a page does not overlap the warming of it |
| `WarmOverlap.OverlapErases` | include/revoq/PageWarmer.h:221-233 | if it did overlap, the zero-fill would erase every frame published on the page |
| `WarmOverlap.ZeroFillKeepsIff` | include/revoq/PageWarmer.h:230-232 | the zero-fill leaves a page as it is if and only if nothing was stored behind its header |
| `ProtocolTheorems.PublishedStream` | include/revoq/JournalWriter.h:402-432 | sequence numbers count up by one from the first, `PageEnd` included, and each frame has its own length and the type asked for; what it carries is in `Payload.FramesCarryPayload` |
| `Payload.FramesCarryPayload` | include/revoq/JournalWriter.h:188-197 | in every run a published frame is the one its write step asked for: each byte is what the last of the caller's stores over it carries, and one without a store is that of the requested header, or zero |
| `Payload.PageEndsCarryTheirTime` | include/revoq/JournalWriter.h:363-375 | every `PageEnd` is the fixed header with the next sequence number and the time at which its rotation found the next page |
| `ProtocolTheorems.FrameLies` | include/revoq/JournalWriter.h:402-438 | every published frame, the newest included, is aligned, lies whole behind the page header, leaves the last slot to `PageEnd`, and begins where the one before it on the page ends, else in the first slot |
| `ProtocolTheorems.PagesEndFull` | include/revoq/JournalWriter.h:402-410 | a page is ended only for a frame that does not fit on it any more, and that frame comes next |
| `ProtocolTheorems.FramesTile` | include/revoq/JournalWriter.h:402-410 | frames of one page never overlap, and the one that ends a page is the last on it |
| `ProtocolTheorems.NothingBehindCursor` | include/revoq/JournalWriter.h:402-438 | the cursor is aligned and never past the last slot; every byte behind it, or behind the slot being written, is zero at every moment |
| `ProtocolTheorems.RotationOrdering` | include/revoq/JournalWriter.h:332-375 | once `PageEnd` is published on page k, page k + 1 has a complete valid header, pre-warmed or not |
| `ProtocolTheorems.ReleasesExactly` | include/revoq/JournalWriter.h:373-374 | the release of a length makes visible exactly the stores so far on its page and those before, for `PageEnd` on the next page too |
| `PageDecoding.TurnChecks` | include/revoq/JournalPage.h:157-185 | a reader that turns the page goes on in the first slot of the next one if its words are right, and faults otherwise |
| `PageDecoding.LoadChecks` | include/revoq/JournalFrame.h:53-64 | a reader that has seen every store to a page is offered a frame if and only if length and type are both there |
| `ProtocolTheorems.ReaderCanProceed` | include/revoq/JournalReader.h:149-162 | a reader behind the stream can load the next frame's length at once |
| `ProtocolTheorems.ReaderMayMiss` | include/revoq/JournalReader.h:149-162 | a reader that has seen no store to the length word may load zero and poll again |
| `Progress.ReaderCatchesUp` | include/revoq/JournalReader.h:171-189 | a reader run on alone, from whatever it was doing, gets to the end of what was published, over all page turns, having consumed exactly the frames from its first |
| `Progress.WriterCanPublish` | include/revoq/JournalWriter.h:332-438 | from every idle state any valid request can be carried through to publication with any payload, after a rotation exactly if it does not fit: to the warmed page if it is ready, to the existing one, or to a new one |
| `Progress.LateReaderCatchesUp` | include/revoq/Journal.h:115-129 | a reader that joins at any published frame can be run on until it has consumed exactly the frames from there on |
| `Progress.NextReloads` | include/revoq/Journal.h:100-113 | `next`, which loads length and type again, leads where `next` with the saved ones leads |
| `Progress.PageGetsWarmed` | include/revoq/PageWarmer.h:206-242 | a resting warmer can give the next page file a complete header and offer it to the writer |
| `PageDecoding.PageDecodes` | include/revoq/JournalWriter.h:299-321 | at any moment walking a page yields exactly the frames published on it, in order |
| `LastFramePosition.ReachableLfp` | include/revoq/JournalWriter.h:433-437 | at any moment the current page's last-frame position is that of its last closed frame, 64 if there is none; pages behind are past 64, pages ahead are not |
| `Recovery.LastWrittenIsHighest` | include/revoq/JournalWriter.h:264-281 | the page found is the highest one written, and none above it is |
| `Recovery.ScanStoresIff` | include/revoq/JournalWriter.h:266-275 | the scan of a resuming writer stores something if and only if a page above the last written one has no last-frame position |
| `Recovery.AcceptedIff` | include/revoq/JournalPage.h:157-185 | a header is accepted if and only if version, header length and page size are right and the position lies within the page |
| `Recovery.JournalFiles.LoadPage` | include/revoq/JournalPage.h:139-188 | loading stores a header only if the last-frame position is zero, faults if the mapping is then read-only, and rejects exactly the headers with a wrong version, header length, page size or position |
| `Recovery.JournalFiles.FindLastWrittenPage` | include/revoq/JournalWriter.h:259-282 | the downward loop returns that page, makes missing headers on the way and changes nothing else; without prefaulting it faults if and only if a header is missing |
| `Recovery.JournalFiles.FindLastSequenceNumber` | include/revoq/JournalWriter.h:294-330 | the loop returns the sequence of the last frame of the walk, zero for an empty walk |
| `Recovery.JournalFiles.ResumeWriter` | include/revoq/JournalWriter.h:75-86 | the constructor's page, sequence and files are those of `Resume`, and whether it returns, throws or faults |
| `ResumeTheorems.ResumeUntouchedIff` | include/revoq/JournalWriter.h:266-275 | the resumed page is untouched if and only if the highest touched page says that a frame past the first was closed on it |
| `ResumeTheorems.ScanFaultsIff` | src/MmapBuffer.cpp:33-90 | after a stop at any moment the scan faults without prefaulting if and only if the session was just making a page header |
| `ResumeTheorems.ResumeNeverRejected` | include/revoq/JournalPage.h:157-185 | after a stop at any moment the page that the resumed writer loads passes the checks, so its constructor does not throw there |
| `ResumeTheorems.ResumeSequence` | include/revoq/JournalWriter.h:78-80 | under that guard the next sequence is the one after the last published frame |
| `ResumeTheorems.ResumedSequence` | include/revoq/JournalWriter.h:294-324 | without the guard the next sequence is the one after the last frame behind the resumed page, and frames on that page begin in its first slot |
| `ResumeTheorems.ResumeConfigValid` | include/revoq/JournalWriter.h:284-292 | the resumed writer starts a session that meets every assumption of a first one if and only if the guard holds |
| `SessionChains.CommittedFramesSurvive` | include/revoq/JournalWriter.h:75-86 | over any chain of guarded sessions and crash points no later session overwrites a committed frame |
| `SessionChains.SequencesContinue` | include/revoq/JournalWriter.h:294-324 | over such chains a frame's sequence is the number of frames committed before it by all sessions, modulo 2^64 |
| `SessionChains.ResumeIsSafeIff` | include/revoq/JournalWriter.h:272-275 | the resumed writer starts on an untouched page if and only if two frames were closed on the interrupted one's page or nothing was stored there |
| `SessionChains.ResumeKeepsFramesIff` | include/revoq/JournalWriter.h:272-275 | no committed frame is overwritten, and the next sequence is right, if and only if two frames were closed on that page or none published there; else the first slot is reused |
| `SessionChains.FramesGuardMeans` | include/revoq/JournalWriter.h:272-275 | that condition is one on the files: the highest page with a frame has a last-frame position past 64 |
| `ResumeWitness.SingleFrameIsReused` | include/revoq/JournalWriter.h:272-275 | a run with one closed frame whose next writer starts on the same page with the same sequence; from its first store on, a reader finds nothing there |
| `ResumeWitness.LeftoverIsRead` | include/revoq/JournalWriter.h:272-275 | a run that published nothing, after which a reader of the next writer's first frame reads left payload as a frame |
| `ResumeWitness.UnfinishedHeaderFaults` | include/revoq/JournalWriter.h:268-275 | a run of one step after which the scan without prefaulting faults |
| `JournalWriter.WalkExtends` | include/revoq/JournalWriter.h:303-321 | a change behind the committed frames leaves the walk over them as it was |
| `JournalWriter.FrameAppended` | include/revoq/JournalWriter.h:427-438 | a frame put at the cursor becomes the last frame of the page's walk |
| `JournalWriter.Writer.RotatePage` | include/revoq/JournalWriter.h:332-400 | the stream grows by one `PageEnd` with the next sequence, the page left behind says where it is, and the writer stands at the start of the next page |
| `JournalWriter.Writer.OpenFrame` | include/revoq/JournalWriter.h:402-420 | rotates exactly when the frame does not fit; the slot holds the requested header and readers find nothing new in it |
| `JournalWriter.Writer.CloseFrame` | include/revoq/JournalWriter.h:427-438 | the stream grows by the frame as it stands in its slot; last-frame position and cursor follow |
| `JournalWriter.Writer.CloseData` | include/revoq/JournalWriter.h:136-154 | without an open frame it fails and changes nothing |
| `JournalWriter.Writer.WriteBytes` | include/revoq/JournalWriter.h:188-197 | what readers find grows by exactly the given header and payload, after a `PageEnd` if the page is full |
| `JournalWriter.Writer.Mark` | include/revoq/JournalWriter.h:177-184 | the same with an empty payload |
| `JournalWriter.FitsIff` | include/revoq/JournalWriter.h:404-410 | the border test admits exactly floor((P - 128) / s) frames of stride s to a page |
| `JournalWriter.WriteUniform` | include/revoq/JournalWriter.h:402-410 | after N writes of one stride the page is 1 + (N - 1) / f and N + (N - 1) / f sequence numbers are taken |
| `Merge.Reader.FindMinimumLinear` | include/revoq/JournalReader.h:291-305 | finds the first smallest head; none if and only if every head is at the maximal time |
| `Merge.Reader.RebuildHeap` | include/revoq/JournalReader.h:255-289 | the heap holds exactly the current heads; current journal and heap top are smallest heads, chosen apart |
| `Merge.Reader.UpdateHeap` | include/revoq/JournalReader.h:307-328 | pops the top, pushes the current journal's next head, and asks for a rebuild when drained |
| `Merge.Reader.IsDataAvailable` | include/revoq/JournalReader.h:149-162 | absent ties at a rebuild it answers yes exactly when some journal has data, and then the current head is a smallest one; a linear rebuild answers yes exactly when a head is below the maximal time; without a rebuild nothing moves |
| `Merge.Reader.Next` | include/revoq/JournalReader.h:171-189 | consumes one frame of the current journal and keeps heap top and current journal together |
| `Merge.Reader.NextStatic` | include/revoq/JournalReader.h:219-227 | delivers the head of one journal and consumes only that; with three journals or fewer the first of the smallest; in heap mode asks for a rebuild only when drained |
| `Merge.Reader.Join` | include/revoq/JournalReader.h:62-86 | adds a journal at its start position and asks for a rebuild, unless the pair is joined already: then nothing changes |
| `Merge.Reader.Disjoin` | include/revoq/JournalReader.h:88-106 | removes exactly the journals of the location; any two of the others stand in the order they had; asks for a rebuild only if one was removed |
| `Merge.Reader.SetUseHeap` | include/revoq/JournalReader.h:210-213 | the modes can be switched at any time: the next look rebuilds, so nothing is lost |
| `Merge.Reader.Publish` | include/revoq/JournalWriter.h:427-438 | a frame that a writer commits during the merge leaves the reader settled |
| `Merge.KeyMeansJoined` | include/revoq/JournalReader.h:331-333 | the 64-bit key is present if and only if that location and destination are joined |
| `Merge.KeyHalves` | include/revoq/JournalReader.h:331-333 | the upper half of the key is the location, the lower the destination |
| `Merge.Popped` | include/revoq/JournalReader.h:307-328 | replacing the popped key by the journal's next head keeps the heap equal to the heads |
| `MergeTheorems.NothingSkippedOrRepeated` | include/revoq/JournalReader.h:171-189 | however journals grow and whatever is picked, each journal delivers each frame once and in order |
| `MergeTheorems.Drain` | include/revoq/JournalReader.h:219-227 | draining delivers every frame, a smallest first; with the linear scan exactly the reference merge |
| `MergeTheorems.MergeIsSorted` | include/revoq/JournalReader.h:26-33 | journals in time order merge into time order |
| `MergeTheorems.MergeIsInterleaving` | include/revoq/JournalReader.h:171-189 | the output is an interleaving: each journal's items are its unread frames, in its order |
| `MergeTheorems.SameTimesWhateverTies` | include/revoq/JournalReader.h:255-328 | heap and linear scan deliver the same timestamps in the same order, however ties are broken |
| `MergeTheorems.MergesAgreeIff` | include/revoq/JournalReader.h:255-328 | all merges that take a smallest head each time equal the linear scan's if and only if the scan never meets two smallest heads |
| `MergeTheorems.RebuildAgreesIff` | include/revoq/JournalReader.h:276-282 | a rebuild leaves the current journal on top, for every conforming library, if and only if one head is smallest |
| `MergeTheorems.TieHidesData` | include/revoq/JournalReader.h:276-282 | the smallest instance: a tie whose current journal has one frame left leaves it without data while the other has some, and no rebuild is asked for |
| `MergeDrains.TornDrain` | include/revoq/JournalReader.h:276-328 | once a rebuild has torn top and current apart, the journal on top delivers nothing for the rest of the drain |
| `MergeDrains.DrainsCompleteIff` | include/revoq/JournalReader.h:219-328 | heap-mode drains of static journals deliver every frame, a smallest first, for every conforming library, if and only if the first rebuild finds one smallest head |
| `MergeDrains.DrainsLinearIff` | include/revoq/JournalReader.h:219-328 | heap-mode drains pick the very frames of the linear scan, for every conforming library, if and only if the scan never meets two smallest heads |
| `MergeDrains.LinearCompleteIff` | include/revoq/JournalReader.h:291-305 | a drain by the linear scan is complete if and only if no unread frame is stamped with the maximal time |
| `MergeDrains.Exhaust` | include/revoq/JournalReader.h:219-227 | calling `nextStatic` until it delivers nothing is a drain of the kind these theorems are about, in either mode |
| `Seek.FindPageId` | include/revoq/JournalPage.h:232-267 | the search is rejected or faults exactly at the first page it looks at that has a wrong word, or no position; else it returns the last page that begins by the time, else the first; page 1 without files |
| `Seek.ProbesBoundary` | include/revoq/JournalPage.h:243-265 | it looks at the last page that begins by the time and at the one behind it, whatever the pages |
| `Seek.ProbesFew` | include/revoq/JournalPage.h:243-265 | among n pages it looks at no more than the logarithm of 2 n |
| `Seek.SearchFaultsIff` | include/revoq/JournalPage.h:248-257 | among pages with complete headers or headers under way the search faults if and only if it looks at one under way, and is never rejected |
| `Seek.OrderedStreamBegins` | include/revoq/JournalPage.h:243-265 | a stream in time order has ordered begin times with empty pages last, as the search needs |
| `Seek.ReadableStep` | include/revoq/JournalFrame.h:53-64 | the reader's test for data agrees with the walk of the page |
| `Seek.Cursor.Next` | include/revoq/Journal.h:105-113 | moves over exactly one frame, to the next page after `PageEnd`, which gets its header first if it has none, or faults |
| `Seek.Cursor.SeekToTime` | include/revoq/Journal.h:115-129 | faults exactly as the search does, or on a first page without header; else lands on a frame not earlier than the time or at the end of data, passing only earlier frames, or frames at that time on pages before one that begins at it |
| `SeekTheorems.FullPageIsEnded` | include/revoq/JournalPage.h:111-118 | in every reachable state a page that looks full has `PageEnd` in its last slot and a valid next page |
| `SeekTheorems.FullIffEndsLast` | include/revoq/JournalPage.h:111-118 | in every reachable state a page looks full if and only if it was left behind with its `PageEnd` in the last slot |
| `SeekTheorems.SessionIsSeekable` | include/revoq/Journal.h:123-128 | the pages of every reachable state, headers under way included, meet all that the seek assumes of them but the order in time |
| `SeekTheorems.SeekFaultsIff` | include/revoq/JournalPage.h:248 | at any moment of a session a join faults if and only if its search looks at a page whose header is being made, and never if none is |
| `SeekWitness.JoinFaults` | include/revoq/JournalPage.h:248 | a run with one frame and a page being warmed after which every join at a time from that frame on faults |
| `PageWarmerSafety.FullTurn` | include/revoq/PageWarmer.h:163-193 | when the next fill would hit a slot being claimed, the other slots hold every page the warmer may want |
| `PageWarmerTheorems.SwapFindsNoClaim` | include/revoq/PageWarmer.h:174-183 | the warmer's swap never succeeds on the slot being claimed |
| `PageWarmerTheorems.NextKeeps` | include/revoq/PageWarmer.h:81-265 | every atomic step of writer and warmer keeps the ring's invariant |
| `PageWarmerTheorems.ClaimReturnsRequestedPage` | include/revoq/PageWarmer.h:81-106 | between swap and return the slot keeps its mapping, and the address returned maps the page asked for; that a ready page is claimed is in `PageWarmerProgress` |
| `PageWarmerTheorems.ClaimedSlotUntouched` | include/revoq/PageWarmer.h:88-102 | no step changes a slot while it is being claimed |
| `PageWarmerTheorems.ReadySlots` | include/revoq/PageWarmer.h:163-193 | ready slots hold different pages, at most the distance ahead, each mapped by its address, and the fills go round the ring |
| `PageWarmerTheorems.ReadyPageStays` | include/revoq/PageWarmer.h:244-265 | a ready page leaves the ring only when the writer claims it or when it is more than the ring's size behind |
| `PageWarmerTheorems.WriterTakesInOrder` | include/revoq/PageWarmer.h:81-112 | the writer asks for one page after the other and is given mappings of pages in ascending order, none twice |
| `PageWarmerTheorems.OneOwner` | include/revoq/PageWarmer.h:206-265 | every mapping is in one place: a slot, the writer or released; nothing is released twice |
| `PageWarmerTheorems.NothingLeaks` | include/revoq/PageWarmer.h:132-142 | after shutdown each mapping was taken by the writer or released, once |
| `PageWarmerProgress.ReadyPageIsFound` | include/revoq/PageWarmer.h:81-106 | a page that is ready when it is asked for is never missed, whatever slot holds it, wherever the search starts and whatever the warmer does meanwhile |
| `PageWarmerProgress.WriterGetsReadyPage` | include/revoq/PageWarmer.h:81-106 | a writer run on alone gets the address of the slot that holds the next page, and misses if and only if none does |
| `PageWarmerProgress.WarmerMakesReady` | include/revoq/PageWarmer.h:163-193 | after one turn of its loop, run on alone with no passed page left in the ring, every page within the distance is ready, and no slot holds a page more than the ring's size behind |
| `Handoff.MappingHasOneOwner` | include/revoq/Journal.h:182-345 | each mapping is in one place: warmer, shared field, page, queue, retiring thread or released |
| `Handoff.MappingsMatchPages` | include/revoq/Journal.h:320-350 | the warmed mapping maps the page it is offered for, and the current page is mapped by its own mapping |
| `Handoff.NothingMappedAfterDestruction` | include/revoq/Journal.h:72-96 | after destruction every mapping was released exactly once |
| `Handoff.NoLostWakeup` | include/revoq/Journal.h:72-94 | no thread sleeps while work waits for it unless its notification is on the way, and none after the destructor's |
| `Handoff.ShutdownIsBounded` | include/revoq/Journal.h:72-96 | once the flag is cleared only a bounded number of steps is left, in every schedule and however stale the warmer's relaxed loads, but for four steps per spurious wake-up while they may be stale |
| `Handoff.ShutdownIsBoundedAfterLock` | include/revoq/Journal.h:85-95 | from the destructor's passage through the warmer's mutex on the bound has no exception |
| `Handoff.ShutdownNeverStuck` | include/revoq/Journal.h:85-95 | until the journal is destroyed some thread can step without a spurious wake-up |
| `HandoffProgress.NextPageIsWanted` | include/revoq/Journal.h:367-373 | between page loads the page asked for is the one after the current; the warmer works on it unless a newer request waits, and installs only that |
| `HandoffProgress.RequestIsServed` | include/revoq/Journal.h:182-318 | from every reachable state with a request the warmer run on alone offers a mapping of that page, if file and header appear at any polls before the timeouts |
| `HandoffProgress.PageIsLoaded` | include/revoq/Journal.h:320-376 | a page that is asked for becomes current, through the offered mapping if that is of this page, and the page after it is asked for |
| `HandoffProgress.QueueIsReleased` | include/revoq/Journal.h:163-180 | the retire thread, once awake and run on alone, releases everything in its queue, in order |
| `HandoffOrder.UnmappedInOrder` | include/revoq/Journal.h:72-84 | pages are unmapped in the order in which the reader left them, the current and the retained ones last |
| `HandoffOrder.LastPagesStay` | include/revoq/Journal.h:351-363 | between page loads exactly the pages left last stay mapped, as many as are to be retained, or all of them |
| `HandoffOrder.PollsAreBounded` | include/revoq/Journal.h:204-285 | neither polling loop of the warmer goes on past the timeout |
| `WriterLock.MutualExclusion` | include/revoq/JournalWriter.h:111-121 | at most one thread is between taking and giving back the lock |
| `WriterLock.StreamLinearisesWrites` | include/revoq/JournalWriter.h:136-197 | sequences are contiguous, and each thread's frames carry exactly its payloads, whole and in program order |
| `WriterLock.NextPayloadGetsWritten` | include/revoq/JournalWriter.h:50-58 | from every reachable state the threads can be run on so that any given one publishes its next payload; a spinning thread takes the lock at its first look once it is free |
| `WriterLock.ScriptCompletes` | include/revoq/JournalWriter.h:136-197 | so any thread can get its whole script written |
| `Hash.MurmurHash3_x86_32` | src/MurMurHash3.cpp:85-141 | the loop with its falling-through tail computes the function that the next four members pin down |
| `Hash.MurmurEmpty` | src/MurMurHash3.cpp:85-141 | the hash of the empty key is the final mix of the seed |
| `Hash.MurmurBlock` | src/MurMurHash3.cpp:95-110 | with final mix and length taken off, four more bytes are scrambled, little-endian, and stirred into the state |
| `Hash.MurmurTail` | src/MurMurHash3.cpp:112-136 | one to three more bytes are scrambled with zeros for the absent ones and xored into it |
| `Hash.MurmurKnown` | src/MurMurHash3.cpp:85-141 | the hashes of the empty key with seed 1 and of "a" and "abcd" with seed 0 |
| `Hash.MixedUndone` | src/MurMurHash3.cpp:61-69 | the final mix can be undone, so it loses nothing |
| `Hash.ScrambledUndone` | src/MurMurHash3.cpp:102-104 | so can the scrambling of a block |
| `Hash.OneGroupNeverCollides` | src/MurMurHash3.cpp:85-141 | keys of one length that differ in a single group of four bytes, or only in the tail, never collide |
| `Hash.SeedsNeverCollide` | src/MurMurHash3.cpp:85-141 | one key never gets one hash from two seeds |
| `Hash.Fnv1a_32` | include/revoq/HashUtils.h:15-22 | the loop computes the function that `FnvByte` pins down |
| `Hash.FnvByte` | include/revoq/HashUtils.h:15-22 | the hash of the empty string, one more byte xored in before the multiplication, and the hash of "a" |
| `Hash.OneByteNeverCollides` | include/revoq/HashUtils.h:15-22 | strings of one length that differ in one byte never collide under FNV-1a |
| `Names.Split` | include/revoq/StringUtils.hpp:152-168 | the loop returns the pieces between all occurrences of the delimiter |
| `Names.JoinSplit` | include/revoq/StringUtils.hpp:152-168 | joining the pieces of any string gives the string back |
| `Names.Join` | include/revoq/StringUtils.hpp:239-268 | the loop computes the parts with the separator between them |
| `Names.JoinedAppend` | include/revoq/StringUtils.hpp:239-268 | two joined lists are joined by the separator, one part is joined to itself, and no part to the empty string |
| `Names.SplitJoinIff` | include/revoq/StringUtils.hpp:239-268 | splitting gives joined parts back if and only if there is a part and none contains the delimiter |
| `Names.PageNameInjective` | include/revoq/JournalPage.h:225-230 | different destinations or ids have different file names |
| `Names.PageNameParts` | include/revoq/JournalPage.h:225-230 | a name splits into the destination, the id and the extension |
| `Names.HexRoundTrip` | include/revoq/JournalPage.h:229 | the destination is in eight lower-case hexadecimal digits, the most significant first |
| `Names.DecimalRoundTrip` | include/revoq/JournalPage.h:229 | the id is in decimal digits, the most significant first, without leading zeros |
| `Names.ListPageId` | include/revoq/JournalBase.h:211-225 | of a directory of page files in any order, exactly the destination's ids come back, each once, ascending |

## Left out

* Memory mapping, `msync`, `mlock`, file creation and the directory itself: a map from page id to zero-initialised
  bytes, and numbered mappings where ownership matters. A crash is one of the process; loss of unsynced pages by
  the machine is not modelled.
* Failing page loads and throwing publish hooks: the first would use up a page id, the second a sequence number.
* The publish hook may store flags and both times of the open frame, as the payload's owner may store the payload;
  a hook that overwrites type, sequence or length is not modelled.
* The whole of `warmPageIntoSlot`, from the exists-check to the end of the zero-fill, is assumed not to overlap the
  writer's own load of the same page; `WarmOverlap` shows what is lost otherwise. Loading a page file that another
  step created makes that step's stores visible to the loader.
* The last-frame position is read as an untorn 64-bit word, though the field is not atomic.
* `Seek.Cursor.SeekToTime`: reads one state of the files, because frames published during the seek only extend what
  it may land on; a journal without any page file, whose load fails, is not modelled. The pages are those of one
  session, because a closing writer leaves its last page without `PageEnd`.
* `loadPage` on the current page does not rewind: a second seek of the same journal is not modelled.
* `Merge.Reader.IsDataAvailable`: with journals that grow during the merge it promises data and conservation, not
  order, because in heap mode a journal that had run dry is seen again only when the heap is drained.
* `Merge.Reader.Join`: the start position is a parameter; the seek that a join performs is modelled in `Seek`.
* `Merge.Reader`: `seekToTime` over all journals, the getters of page id, offset and page size, and `advance` with a
  saved view, which steps as `next` does.
* `JournalWriter.Writer`: holds one page as an array and the pages behind it as values, because they are never
  stored to again; the retire queue of the writer has the reader's shape and is modelled in `Handoff`.
* `WriterLock`: an unpaired `closeData` clears a lock it does not hold; calls are assumed to come in pairs. Memory
  order is not modelled there, since the lock's acquire and release order all accesses.
* `PageWarmer`: begins when the writer has announced its first page; failing warms and the writer's mapping on a
  miss are not modelled. `read_index_` only chooses where a search starts, so a search may start at any slot.
* Sequence numbers grow without bound inside a session and are compared modulo 2^64; page ids do not wrap.
* `Names.ListPageId`: the directory holds page files only, each name once, because names of another shape make
  `std::stoi` throw.
* The 128-bit hashes, floating-point parsing, string helpers the journal does not use, date formatting, logging, CPU
  pinning, priorities, back-off times, `TypedJournalDispatcher`, `calculateCRC16` and the language bindings.
