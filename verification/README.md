# A model of the Linux-personality shim

The shim lets programs compiled for Linux run on hosts whose kernel is something else. Most of its
files translate constants. A few hold algorithms and protocols of their own, and those are modelled
here, one module a file, each against the plain thing it stands for:

- **The allocator.** `TreeBins` is the search in the bitwise tries, `Chunks` the boundary-tagged
  chunks of one segment and what each rewrite of heads, feet and bins does to them, `Dlmalloc` the
  heap with malloc, free and realloc in place, `Bulk` aligned, array and bulk allocation on top.
  `Chunks.Ok` ties four things together: the chunks tile the segment, no two neighbours are both
  free, every bit and foot agrees with the neighbour it describes, and every free chunk is the top,
  the designated victim or in the bins, once. Every operation keeps it and says what became of the
  chunks in use (`Live`). `MallocLock` is the latch that skips the heap locks while one thread is
  alive, as a transition system of single accesses.
- **The epoll emulation.** `EpollSet` is one interest list: what is polled, what is handed out, what
  is disarmed. `EpollWait` runs it as a transition system with one waiter and any number of
  controllers and readers; a ghost log of registrations, re-arms and events makes "since it was last
  armed" a statement about the run. `EpollHandles` is the table of sets, `EpollPairs` the table of
  pipe and socket pairs, `IoHooks` the writes that feed it.
- **The inotify emulation.** `DirDiff` is the merge of two listings, `InotifyWire` the record format,
  `Inotify` the watches, the scan and the pipe.
- **Paths.** `Pathname` is pathname resolution over lists of components, `Realpath` the resolver and
  the walk on text and the proof that they agree with it;
  `RealpathBuffers` is the walk in its two shared buffers. `Unc` has the two resolvers of what
  follows a network share, `UncRoots` the registry of shares.
- **Codecs and copies.** `Cmsg` converts control messages between layouts, `Environ` turns an
  environment block read page by page into UTF-8, `NtMemory` commits and copies reservations.
- **Small protocols.** `Errno` is the sentinel pair as one last-writer-wins cell, `Signal` the
  handler slots as a plain table.

`LittleEndian`, `HostTables` and `PathText` hold what several modules share. `dafny verify
dfyconfig.toml` checks everything.

## Contracts of code that is not modelled

- The chunk macros and bin helpers are used as the struct at shim/dlmalloc.c:195-200 and their uses
  imply: a head holds a size and the two in-use bits, a free chunk below top writes its size where it
  ends, a small bin holds one size, and a tree bin is a trie on the bits of the size below its range.
  Every well-formed heap has such tries (`Dlmalloc.TriesExist`).
- One heap over one segment; what the heap cannot serve goes to the system and shows as 0.
- Whatever the host answers (poll, pipe writes, VirtualQuery and its kin, sigaction) is arbitrary
  within its documented contract. `LittleEndian` and 64-bit words are those of the two supported
  architectures.
- Section 4.13 of the Base Definitions of IEEE Std 1003.1-2017 is the resolver of `Realpath`;
  section 5 of RFC 3542 is the control-message layout; section 2 of RFC 2781 and section 3 of RFC
  3629 are the two Unicode encodings.

## Where the code does not do what one would expect

Each is kept as the code has it, with the exact condition under which the expected property holds.

- `internal_memalign`: an alignment above the top bit of a word rounds to 0, and a call with one is
  lost exactly when the heap serves it (`Bulk.RoundAlignmentWorks`, `Bulk.Memalign`).
- `ialloc`: a total that wraps a word is served by a chunk too small for its pieces
  (`Bulk.AggregateHoldsPieces`, `Bulk.AggregateWraps`), and then the call is lost (`Bulk.Ialloc`): some
  element, or the pointer array, needs more than the chunk has left for it (`Bulk.LostHow`). An element
  whose own size wraps is given fewer bytes than it asked for (`Bulk.WrappedTooSmall`).
- `realpath`: names below /zip come back unresolved (`Realpath.ZipVerbatim`, `Realpath.ZipDots`).
- `commit_nt`: it ends with success at the first page no query answers for, and leaves nothing
  waiting exactly when every waiting page comes before that one (`NtMemory.CommitNt`,
  `NtMemory.CommittingLeaves`, `NtMemory.CommittingStops`).
- Control messages: a raw level equal to the host's SOL_SOCKET, or a raw type that is some option's
  host value, comes back as something else (`Cmsg.RoundTrip`, `Cmsg.RawLevelLost`).
- `sigaction`: after a one-time handler was delivered its slot stays filled while the host holds the
  default (`Signal.Shim.FilledExactly`, `Signal.OneTimeLeavesSlot`).
- `errno`: handlers are invisible to the next visit exactly when errno is not parked at the sentinel
  as they start (`Errno.HandlerInvisible`); one handler is invisible wherever it runs exactly when,
  entered with errno parked, it sets nothing and visits only before its own calls fail
  (`Errno.BodyInvisible`, `Errno.HandlerSeen`).
- `__normuncrest`: the first component moved is kept exactly when the rest is empty or starts with a
  separator, "." or ".." (`Unc.FirstMoveKeeps`). The only caller passes such a rest, and for it the
  whole result is right (`Unc.NormUncRest`).
- `__ape_shim_unc_rel`: the mark for a trailing slash is cleared by the last turn of the scan, so the
  slash its comment promises is never written (`Unc.JoinPart`).
- inotify: a directory that goes away between the stat and the first listing of `inotify_add_watch`
  is dropped without an IN_IGNORED record (`Inotify.Instance.AddWatch`). A directory that cannot be
  listed just then is announced name by name by the first scan that can list it, contrary to the
  comment at shim/inotify.c:512-514, unless it is empty or IN_CREATE was not asked for
  (`Inotify.FreshSilent`). The DELETE record of a
  replaced name carries the directory bit of the new file, which is right exactly when both are
  directories or neither is (`DirDiff.DeletedSort`, `DirDiff.FileToDirectory`).

## Model

| member | source | states |
|---|---|---|
| Chunks.FreedOk | shim/dlmalloc.c:441-507 | giving a chunk back leaves the tiling, the coalescing, the bits and feet and the filing intact, and takes exactly that chunk out of use |
| Chunks.FreedMeans | shim/dlmalloc.c:441-507 | the chunk and the free chunks on both sides become one free chunk: top at the end of the segment, else the victim when the victim is part of it, else in a bin; nothing else is filed anew |
| Chunks.WholeOk | shim/dlmalloc.c:562-564 | handing a free chunk out whole keeps the heap well formed and adds one chunk in use |
| Chunks.FrontOk | shim/dlmalloc.c:562-569 | handing out the front of a free chunk and filing the rest keeps the heap well formed |
| Chunks.OffTopOk | shim/dlmalloc.c:737-742 | cutting a chunk off the front of top keeps the heap well formed |
| Chunks.SplitOk | shim/dlmalloc.c:901-909 | splitting a chunk in use makes two chunks in use that cover it |
| Chunks.AbsorbedOk | shim/dlmalloc.c:945-953 | a chunk in use takes the whole free chunk behind it, which leaves its bin or the victim |
| Chunks.IntoDvOk | shim/dlmalloc.c:923-935 | a chunk in use takes the front of the victim behind it, which keeps the rest |
| Chunks.IntoTopOk | shim/dlmalloc.c:911-922 | a chunk in use takes the front of top |
| Chunks.JoinedOk | shim/dlmalloc.c:1191-1197 | two neighbouring chunks in use become one |
| Chunks.BytesConserved | shim/dlmalloc.c:441-507 | walking the segment by chunk sizes meets every chunk, and bytes in use plus bytes free are the segment |
| TreeBins.ShiftOut | shim/dlmalloc.c:516-534 | shifting the request left bit by bit brings the bit that decides each level of the trie to the top |
| TreeBins.Branch | shim/dlmalloc.c:518-535 | one level of the descent keeps the best fit among what was met, the path below and the deepest right subtree left aside |
| TreeBins.FirstBinDecides | shim/dlmalloc.c:541-545 | when the bin of the request fits nothing, the first larger bin that is not empty holds the least fitting chunk |
| TreeBins.BestFit | shim/dlmalloc.c:512-557 | the search finds a chunk of least size among all that fit, over all tree bins, and none only when none fits |
| TreeBins.LeastFit | shim/dlmalloc.c:583-597 | for a small request the search finds the smallest tree chunk |
| Dlmalloc.RequestBounds | shim/dlmalloc.c:654-710 | a padded request holds the bytes and the overhead, is at least a least chunk, stays below the large sizes exactly for small requests and does not wrap |
| Dlmalloc.RequestIsLeast | shim/dlmalloc.c:654-710 | the padded request is the least multiple of the alignment that holds bytes and overhead and is a least chunk or more |
| Dlmalloc.LargeChoice | shim/dlmalloc.c:557 | comparing remainders as unsigned words takes the tree chunk exactly when it fits better than the victim, also when the victim is too small and the subtraction wraps |
| Dlmalloc.CarvedOk | shim/dlmalloc.c:651-748 | cutting a request from the chunk the policy chooses keeps the heap well formed and yields a chunk less than a least chunk too big |
| Dlmalloc.CarvedCuts | shim/dlmalloc.c:558-748 | what is left of the chunk cut goes to top, to the victim (cut from it, or for a small request) or to a bin, and less than a least chunk is handed out |
| Dlmalloc.TriesExist | shim/dlmalloc.c:512-580 | tries that hold exactly the large chunks, as both searches expect, exist for every well-formed heap and every layout of the bins |
| Dlmalloc.TooBigFails | shim/dlmalloc.c:707-708 | a request above the largest size finds nothing in the heap |
| Dlmalloc.Heap.constructor | shim/dlmalloc.c:195-200 | a fresh segment is one free chunk held as top, and well formed |
| Dlmalloc.Heap.TmallocLarge | shim/dlmalloc.c:512-580 | either the best fitting large chunk is carved, or the bins do not beat the victim and nothing changes |
| Dlmalloc.Heap.TmallocSmall | shim/dlmalloc.c:583-618 | the smallest tree chunk is carved for a small request, the rest becoming the victim |
| Dlmalloc.Heap.Serve | shim/dlmalloc.c:651-748 | the chunk served is the one the order of preference names: exact small bin, victim, least bin, top; 0 only when nothing fits |
| Dlmalloc.Heap.Malloc | shim/dlmalloc.c:651-748 | 0 exactly when the request is above the largest or no binned chunk, victim or top serves its padded size; else a chunk that was not in use, big enough and less than a least chunk too big, is added, the rest of it filed where the code files it |
| Dlmalloc.Heap.Dispose | shim/dlmalloc.c:441-507 | free and dispose_chunk: the chunk leaves the chunks in use, merged with the free chunks on both sides, and what comes of it is top, the victim or in a bin as the code has it; no other chunk in use changes |
| Dlmalloc.Heap.Consolidate | shim/dlmalloc.c:775-863 | the writes made branch by branch amount to merging all free bytes around the chunk and filing them once |
| Dlmalloc.Heap.TryRealloc | shim/dlmalloc.c:891-968 | the chunk is resized where it is exactly when it is big enough alone, with top, or with the free chunk behind it; else nothing changes |
| Dlmalloc.Heap.GrowIntoTop | shim/dlmalloc.c:911-921 | growing over the front of top changes the chunk's size alone, and top begins where it ends |
| Dlmalloc.Heap.GrowIntoDv | shim/dlmalloc.c:927-935 | growing over the front of the victim changes the chunk's size alone, and the victim begins where it ends |
| Bulk.RoundAlignmentWorks | shim/dlmalloc.c:972-975 | rounding reaches the alignment asked for, as a power of two below twice it, exactly when it is not above the top bit of a word |
| Bulk.AlignFront | shim/dlmalloc.c:990-1017 | an aligned spot is found with room for the body; what lies before it is given back and is a least chunk or absent |
| Bulk.TrimTail | shim/dlmalloc.c:1020-1029 | the remainder is given back when it is more than a least chunk |
| Bulk.Memalign | shim/dlmalloc.c:970-1039 | for every alignment: 0 exactly when the request is too big or nothing in the heap serves the padded request with room to align; else an aligned chunk that holds the request is added to the chunks in use and every other piece is free again; the call is lost exactly when a chunk is served and the alignment is above the top bit of a word |
| Bulk.AggregateHoldsPieces | shim/dlmalloc.c:1083-1108 | a chunk that serves the aggregate request holds all pieces exactly when their sum does not wrap a word |
| Bulk.AggregateWraps | shim/dlmalloc.c:1083-1108 | two elements whose sizes do not wrap and whose total does: the request for them is for a few least chunks |
| Bulk.LostHow | shim/dlmalloc.c:1119-1145 | in a chunk smaller than its pieces some element needs more than is left when its turn comes, every one before it split off exactly, or the pointer array does |
| Bulk.WrappedTooSmall | shim/dlmalloc.c:1133-1138 | an element whose padded size does not fit a word is given fewer bytes than it asked for |
| Bulk.LaidSideBySide | shim/dlmalloc.c:1128-1145 | every element is a chunk of its own size that ends where the next begins, and no other chunk changes |
| Bulk.SplitElements | shim/dlmalloc.c:1128-1145 | the elements are split off one by one, the last takes what is left |
| Bulk.Ialloc | shim/dlmalloc.c:1048-1165 | for every total: it fails exactly when nothing in the heap serves the aggregate request; else each element is a chunk that holds its bytes, the next begins where it ends, the pointer array behind the last, and whatever was in use before still is; the call is lost exactly when a chunk is served and the total wraps a word, and then the chunk is too small for some piece |
| Bulk.BulkFree | shim/dlmalloc.c:1174-1214 | exactly the chunks named in the array leave use, neighbours joined first, and the array is cleared |
| MallocLock.AfterKeeps | shim/dlmalloc.c:128-183 | every single access of any thread keeps the facts that make the latch sound |
| MallocLock.LatchIsSafe | shim/dlmalloc.c:128-183 | in every interleaving no two threads use one heap at once and each unlock decides as its lock did, whoever came and went |
| MallocLock.AloneSkips | shim/dlmalloc.c:134-183 | a thread alone goes in and out without touching mutex or latch |
| MallocLock.SecondLocks | shim/dlmalloc.c:134-183 | with a second thread counted the first access sets the latch and takes the mutex, and the unlock gives it back |
| MallocLock.CreationInsideBreaks | shim/dlmalloc.c:128-131 | without the rule that no thread is created inside malloc an unlock releases a mutex never taken |
| EpollSet.ControlledMeans | shim/epoll.c:342-406 | a request changes one number's registration or nothing, and its answer is Done or the one error the operation, the number and the memory call for |
| EpollSet.RemovedMeans | shim/epoll.c:394-402 | moving the last entry into the gap removes that entry alone |
| EpollSet.SlotsMean | shim/epoll.c:476-517 | a fresh poll array asks of every entry exactly the bits it registered for in the directions that are armed, all of them when it is level-triggered; it names each number once, and leaves an entry out exactly when there is nothing to ask and it is not level-triggered |
| EpollSet.ReadyMeans | shim/epoll.c:590-601 | events are on registered numbers, each once, and lie within what was asked plus ERR and HUP, and every number that is ready and still registered is reported |
| EpollSet.ReadyAnswers | shim/epoll.c:590-601 | an event says the bits of the answer that were asked for, with ERR and HUP, a bogus number as ERR, and carries its registration's data; every number with such a bit that is still registered has one |
| EpollSet.HandOutAllMeans | shim/epoll.c:597-614 | handing events out disarms exactly their entries, each by its own bits |
| EpollSet.DisarmedMeans | shim/epoll.c:602-614 | a one-shot entry is spent, an edge-triggered one loses the directions the bits speak of, an error or hangup speaking of both |
| EpollSet.Set.Ctl | shim/epoll.c:342-414 | the list after the call and its answer, for every operation and error |
| EpollSet.Set.Snapshot | shim/epoll.c:476-517 | the array asks of every entry exactly what should be asked, bit by bit, and names each number once and no other |
| EpollSet.Set.Match | shim/epoll.c:583-617 | at most maxevents events are handed out, in slot order, each saying what its answer holds, and all of them when there is room; each disarms its entry as its bits demand, and nothing else changes |
| EpollSet.Set.Rearm | shim/epoll.c:645-677 | edge-triggered entries alone are re-armed, and a kick is due exactly when something changed |
| EpollSet.RearmedMeans | shim/epoll.c:645-677 | exactly an edge-triggered entry for the number gains the directions, and something changed exactly when a kick is due |
| EpollWait.AfterKeeps | shim/epoll.c:342-677 | every step of a controller, reader or the waiter keeps the invariant |
| EpollWait.NoLostWakeup | shim/epoll.c:476-581 | whenever the waiter is in poll, every entry is in its array with each bit it should be asked for, or a wakeup is in the pipe or committed and on its way |
| EpollWait.Wakes | shim/epoll.c:476-617 | a byte in the pipe or due is enough: by the waiter's own steps it is back in poll with an array that asks all it should |
| EpollWait.MatchDelivers | shim/epoll.c:583-617 | what a match hands out answers poll, all of it unless maxevents cuts it off |
| EpollWait.ReadEndsArms | shim/read.c:267-268 | a read that ends with data or EAGAIN arms the read side of an edge-triggered entry and owes a wakeup when that changed it; end of file and hard errors change nothing |
| EpollWait.WriteEndsArms | shim/io.c:39-47 | a short write or EAGAIN arms the write side, a full write does not |
| EpollWait.PairWrittenArms | shim/epoll.c:749-761 | a write to the other end of a recorded pair arms the read side |
| EpollWait.CoveredSinceMeans | shim/epoll.c:587-617 | the running summary of the log is the statement about it: an event covering the direction, and nothing arming it later |
| EpollWait.DisarmedExactlyWhenHandedOut | shim/epoll.c:587-617 | a direction of an edge-triggered entry is disarmed exactly when an event covering it was handed out and nothing has armed it since |
| EpollWait.OneShotOnce | shim/epoll.c:602-604 | a one-shot entry has at most one event since it was added or modified, and is armed until then |
| EpollWait.CutOffStaysArmed | shim/epoll.c:583-617 | entries cut off by maxevents stay as they were; reported bits lie within the array's interest plus ERR and HUP |
| EpollHandles.PurgedMeans | shim/epoll.c:261-266 | the swap-and-shrink loop removes exactly the number, wherever it stands |
| EpollHandles.ReclaimedExactly | shim/epoll.c:289-307 | while a set is created another stays exactly when it has a handle still open that is neither number of the new pipe |
| EpollHandles.LostCounts | shim/epoll.c:267-306 | a waker is queued as many times as sets with it went away |
| EpollHandles.Table.SetByHandle | shim/epoll.c:151-166 | a number is found in the one set that owns it, or in none |
| EpollHandles.Table.NoteDup | shim/epoll.c:172-179 | a duplicate joins its original's set when there is room and nobody owns it |
| EpollHandles.Table.ForgetFd | shim/epoll.c:257-274 | the number leaves every set, and a set that loses its last handle queues its waker once |
| EpollHandles.Table.Create | shim/epoll.c:276-333 | the table with stale and closed sets gone and the new one in the first free slot; the wakers queued are those of the sets that went, within the array |
| EpollHandles.CreatedMeans | shim/epoll.c:276-333 | the new number names the new set alone; a set with a handle still open keeps exactly its other handles |
| EpollHandles.LostThrice | shim/epoll.c:289-306 | over the three passes each retired waker is queued once and never more than there are slots |
| EpollPairs.Table.Drop | shim/epoll.c:701-708 | retiring a number empties exactly the pairs that name it, and the counter follows |
| EpollPairs.Table.NotePair | shim/epoll.c:739-747 | both directions of a fresh pair are the newest insertions, and older pairs naming the numbers are retired |
| EpollPairs.Table.ReadEnd | shim/epoll.c:749-761 | any pair among the last 32 insertions that was not retired is found, and nothing else |
| EpollPairs.StillFound | shim/epoll.c:720-761 | the newest pair, none of whose numbers is retired, stays among the last 32 insertions, where it is found, through up to 31 later ones |
| IoHooks.Writev | shim/io.c:39-76 | what reaches the host is the whole request, or behind the gate the first slice that is not empty, clamped; any write short of the whole arms the write side, and so does EAGAIN |
| IoHooks.ReadResult | shim/read.c:257-283 | data and EAGAIN arm the read side, end of file and other errors do not |
| DirDiff.DiffExact | shim/inotify.c:283-318 | the merge emits an event exactly when the change calls for it and the mask asks for it |
| DirDiff.DeletedSort | shim/inotify.c:290-306 | a DELETE carries the directory bit of what went away exactly when nothing took its name or something of the same sort did |
| DirDiff.FileToDirectory | shim/inotify.c:299-306 | the DELETE of a file replaced by a directory says a directory went away |
| DirDiff.DiffEmpty | shim/inotify.c:283-318 | with a full mask nothing is emitted exactly when the listings agree on name, inode, times, size and mode |
| DirDiff.MergeReplays | shim/inotify.c:283-318 | replaying the events turns the old name set into the new one, never deleting an absent name or creating a present one |
| InotifyWire.ParseWireAll | shim/inotify.c:215-235 | a reader finds exactly the whole records written |
| InotifyWire.WireLayout | shim/inotify.c:219-235 | where a record has its descriptor, mask, zero cookie, length and name, and how far the name is padded |
| Inotify.Instance.Emit | shim/inotify.c:215-242 | a record goes into the pipe whole or not at all, as the write ended: one refused leaves the overflow mark, a broken pipe ends the instance |
| Inotify.RecordsExactly | shim/inotify.c:283-318 | the records of a scan, by their bits, are exactly those called for: 0x200 for a name gone or replaced, 0x100 for one new or replaced, 0x2 and 0x4 for one whose times or size, or mode, changed, each when asked for |
| Inotify.ScanFollowed | shim/inotify.c:283-318 | with everything asked for, a reader that follows the records by their bits ends with the names of the new listing |
| Inotify.Instance.Merge | shim/inotify.c:283-318 | the loop over two indices tries exactly the records the change from one listing to the other calls for, in order |
| Inotify.Instance.ScanWatch | shim/inotify.c:245-354 | one scan tries what is due for the watch, mask bits written out, and the watch then holds what was seen, or is dropped when it is gone |
| Inotify.Instance.TellOverflow | shim/inotify.c:369-372 | the overflow record is tried, and owed again when it is refused |
| Inotify.Instance.ScanPass | shim/inotify.c:364-391 | a pass says what is due for every live watch in order, forgets the ones that are gone and keeps every other with what was seen |
| Inotify.Instance.AddWatch | shim/inotify.c:452-535 | a watched path keeps its one live watch, remasked; a path that has none gets a descriptor never used, and its first listing says nothing; no two live watches share a path; a fresh watch is dropped exactly when its directory is gone at the first listing |
| Inotify.FreshSilent | shim/inotify.c:245-318 | the first scan of a fresh directory watch is silent about what was there when it was added exactly when that could be listed, or is nothing, or IN_CREATE is not asked for; else each name is announced as created |
| Inotify.Instance.RmWatch | shim/inotify.c:538-560 | a live watch goes with an IN_IGNORED record, any other number is refused |
| Inotify.Instance.ReaderSees | shim/inotify.c:215-242 | in every reachable state the bytes parse to the records sent, nothing follows a watch's IN_IGNORED, and dropped records keep the overflow mark |
| Realpath.ResolveCanonical | shim/realpath.c:191-300 | what the resolver arrives at has no empty, "." or ".." component and no prefix that is a link |
| Pathname.ResolveFollows | shim/realpath.c:191-300 | the resolver on text goes where the components lead, one after another, a link's components taking its place, as in pathname resolution over lists with no text in it |
| Realpath.ReadlinkOf | shim/realpath.c:222-262 | the text given to readlink names the directory the resolver is in, with the next component, leading ".." and all |
| Realpath.NamesTold | shim/realpath.c:235-246 | comparing the output's length with three times the ".." count tells whether there is a name to cancel |
| Realpath.StepDotDot | shim/realpath.c:222-275 | a ".." in the walk does what it does in the resolver |
| Realpath.StepName | shim/realpath.c:222-300 | a name in the walk does what it does in the resolver, link or not |
| Realpath.WalkAgrees | shim/realpath.c:191-300 | the walk ends where the resolver does, or fails as it does, or wants more room than the buffers have, which it never does above a size fixed by the text still to be walked |
| Realpath.FinishMeans | shim/realpath.c:303-321 | joining to the working directory with leading ".." cancelled spells the resolver's directory, and fails exactly when a relative result does not fit |
| Realpath.RealpathMeans | shim/realpath.c:107-325 | a result is the resolver's, absolute and canonical; a failure is the resolver's, the working directory's, or want of room in buffers no longer than the name and the link text met call for |
| Realpath.RoomSuffices | shim/realpath.c:107-325 | for every file system, name and working directory there is a size from which on the answer is exactly the resolver's |
| Realpath.TooLongMeans | shim/realpath.c:191-318 | a name is said to be too long only when it is, or the walk came to a state whose next component, slash or link text does not fit, or the joined result does not |
| Pathname.RealpathFollows | shim/realpath.c:107-325 | the result is the absolute spelling of where the components of the name lead |
| Realpath.ZipVerbatim | shim/realpath.c:179-182 | the result is free of dots for every file system exactly when the name is not below /zip or already is |
| Realpath.ZipDots | shim/realpath.c:179-182 | /zip/.. comes back as it is |
| RealpathBuffers.Buffers.Turn | shim/realpath.c:191-300 | one turn of the loop in the two buffers does what the walk on text does, all indices in range |
| RealpathBuffers.Buffers.Push | shim/realpath.c:276-300 | a link's text lands in front of the rest, with the length, empty and loop errors in the code's order |
| RealpathBuffers.Buffers.JoinCwd | shim/realpath.c:303-321 | the working directory ends up in front of the output, moved within the same buffer |
| RealpathBuffers.Call | shim/realpath.c:107-325 | the whole call in its buffers terminates and returns what the walk on text returns |
| Unc.ResolveClean | shim/mkntpath.c:282-304 | neither "." nor ".." survives and the root is never popped |
| Unc.ClimbedExactly | shim/mkntpath.c:291-299 | climbed is set exactly when some ".." meets an empty stack |
| Unc.ResolveLaws | shim/mkntpath.c:282-305 | a name before ".." goes with it, "." does nothing, ".." against an empty stack is a climb and no more, names alone pile up |
| Unc.CompsLaws | shim/mkntpath.c:283-288 | a path splits at either slash, and text without one is a component |
| Unc.MovedExactly | shim/mkntpath.c:300-304 | a component survives the write of its separator exactly when the write is behind the read |
| Unc.FirstMoveKeeps | shim/mkntpath.c:282-305 | the first component moved is kept exactly when the rest is empty or starts with a separator, "." or ".." |
| Unc.NormUncRest | shim/mkntpath.c:277-312 | the rest is normalized in place to its resolved stack, a trailing slash kept when anything is left |
| Unc.NormalShape | shim/mkntpath.c:300-311 | what is left is spelled with backslashes alone, one in front, and one behind exactly when the rest ended in a slash and something is left |
| Unc.NormalAgain | shim/mkntpath.c:277-312 | normalizing is idempotent, and a normal rest climbs nowhere |
| Unc.JoinPart | shim/uncshare.c:330-349 | a part is resolved onto the buffer without popping the server; it fails exactly when some component does not fit |
| Unc.FitsExactly | shim/uncshare.c:330-349 | every component fits exactly when each text on the way fits with its terminator |
| Unc.JoinRel | shim/uncshare.c:318-354 | "//server" and the resolved stack of rest and path, or a refusal exactly when it does not fit |
| Unc.ResolversAgree | shim/uncshare.c:323-354 | both resolvers compute one stack, their results equal up to separator and trailing slash |
| UncRoots.RootLen | shim/mkntpath.c:105-120 | the length of the one server/share prefix there is, 0 exactly when there is none |
| UncRoots.Registry.Known | shim/mkntpath.c:149-166 | a share is known exactly when some remembered one differs in case and slashes at most |
| UncRoots.Registry.Note | shim/mkntpath.c:170-186 | a named share is known afterwards unless the table is full, none is remembered twice, other paths change nothing |
| HostTables.LookupReturns | shim/socket.c:409-414 | looking a value up and back gives it again exactly when the table lists it or never uses it as a host value |
| HostTables.LookupFirst | shim/socket.c:409-414 | the first row that lists a value gives its host value, and a value no row lists stays |
| HostTables.LookupBackFirst | shim/socket.c:723-727 | the same from the host's side |
| Cmsg.ParseChunk | shim/socket.c:784-789 | an entry written with its alignment is the first a reader finds |
| Cmsg.StreamParses | shim/socket.c:784-789 | entries written one after another are read back, whatever the padding holds |
| Cmsg.LinuxLayout | shim/socket.c:772-788 | a 64-bit length with its 16-byte header, level at 8, type at 12, payload from 16, entries at multiples of 8 |
| Cmsg.BsdLayout | shim/socket.c:762-787 | a 32-bit length with its 12-byte header, level at 4, type at 8, payload from 12, entries at multiples of 4 on XNU and 8 elsewhere |
| Cmsg.RoundTrip | shim/socket.c:769-818 | a list comes back from the host exactly when each entry's level and type do |
| Cmsg.RawLevelLost | shim/socket.c:780-783 | a raw level 0xffff comes back as SOL_SOCKET on the BSDs |
| Cmsg.CmsgsToBsd | shim/socket.c:769-791 | -1 exactly when the converted messages do not fit, else a buffer that holds them: level 1 as the host's SOL_SOCKET, the types of levels 0 and 41 by their tables, all else as it was |
| Cmsg.CmsgsToLinuxLayout | shim/socket.c:796-818 | the longest prefix of the messages that fits, cut at an entry boundary: the host's SOL_SOCKET as level 1, the types of levels 0 and 41 looked up back, all else as it was |
| Cmsg.ThereAndBack | shim/socket.c:769-818 | for both alignments, with room, the messages come out again exactly when each of them returns |
| Environ.EncodeDecodes | shim/procfs/pid.c:180-191 | each code point is read back from its bytes, in the fewest bytes |
| Environ.PointsOfText | shim/procfs/pid.c:175-179 | well-formed UTF-16 decodes to its code points |
| Environ.PointsLone | shim/procfs/pid.c:175-182 | a surrogate without its other half stands for itself |
| Environ.Utf8OfText | shim/procfs/pid.c:174-193 | well-formed text comes out as the encodings of its code points, and they are read back |
| Environ.BatchStrings | shim/procfs/pid.c:367-387 | each string of a block comes out with its NUL, an empty one ends the block whatever follows, a last one cut short gets its NUL |
| Environ.Utf8Split | shim/procfs/pid.c:174-193 | text may be converted in two parts anywhere but inside a surrogate pair |
| Environ.FeedsBatch | shim/procfs/pid.c:347-387 | fed unit by unit a block comes out as converted at once: strings with their NUL, the end at the first empty one, a truncated tail ended |
| Environ.Buffer.PutUtf8 | shim/procfs/pid.c:174-193 | the loop appends the conversion of its text |
| Environ.GenEnviron | shim/procfs/pid.c:347-387 | for every page size the output is that of converting at once all of the block, or the whole pages of it below what cannot be read |
| NtMemory.CommitNt | shim/mmap.c:104-117 | committed pages are left alone, private reserved ones committed; with answer 0 exactly those before the first page no query answers for, so none is left waiting when all are answered for; -1 leaves a page waiting |
| NtMemory.CommittingLeaves | shim/mmap.c:104-117 | no page of the range is left waiting exactly when every waiting page comes before the first one no query answers for |
| NtMemory.CommittingStops | shim/mmap.c:108-116 | two reserved pages of which the second is not answered for: the answer is 0 and it still waits |
| NtMemory.Mprotect | shim/mmap.c:119-124 | a reservation stays one, contents stay, on success the part is committed with the protection, and it fails only when the host refuses or some page of the part is left uncommitted |
| NtMemory.CopyRun | shim/fork-nt.c:129-148 | a committed run is copied with its protection and the parent's is put back; it fails only when the host refuses a call |
| NtMemory.CopyReservation | shim/fork-nt.c:116-152 | on success every page was answered for, the child agrees page by page on state, contents and protection, and the parent is as it was; it fails only when the host refuses a call, a page cannot be queried or the span is not free in the child; the walk terminates |
| NtMemory.CopiedSpans | shim/fork-nt.c:295-317 | the spans copied are exactly those of the reservations, each once and apart |
| NtMemory.SpanIs | shim/fork-nt.c:303-311 | a span is the first piece and all that adjoin one another behind it, up to the next allocation or gap |
| NtMemory.PieceInside | shim/fork-nt.c:303-316 | every piece joined to a reservation lies in the span copied for it |
| Errno.ReadsLastWrite | shim/errno.c:68-79 | over every interleaving whose handlers start with an unread error or keep off the copy, each visit reads the translation of the last C-side error since, or what the Rust side last left |
| Errno.FailThenVisit | shim/errno.c:40-79 | a C call that fails with a host error some row lists, then a visit, reads that row's Linux value |
| Errno.HandlerInvisible | shim/signal.c:100-121 | trampolined handlers are all invisible to the next visit exactly when errno is not the sentinel as they start |
| Errno.BodyInvisible | shim/signal.c:100-121 | one handler is invisible from every state exactly when, entered at the sentinel, it sets nothing and visits only before its own calls fail |
| Errno.UnreadHandler | shim/signal.c:100-121 | a handler that does not look at errno is invisible, however its calls fail and whatever such handlers interrupt it |
| Errno.HandlerSeen | shim/signal.c:100-106 | a handler run right after a visit that fails and reads an error is seen outside |
| Errno.Thread.ErrnoLocation | shim/errno.c:72-79 | a visit parks the sentinel and reads the copy when errno was parked, else the Linux value of the first row for errno, 13 for the symlink error no row lists, or errno itself |
| Errno.Thread.Trampoline | shim/signal.c:100-121 | a handler's own errno traffic, nested handlers included, leaves errno as it was |
| Signal.Shim.Sigaction | shim/signal.c:123-170 | the handler, mask and flag reported are those in force, success installs the new ones, it fails exactly when the host refuses and then changes nothing, no other signal is touched |
| Signal.Shim.Deliver | shim/signal.c:100-121 | a delivery runs exactly the handler in force, with the program's number for the signal |
| Signal.Shim.Stage | shim/signal.c:134-153 | before the host is asked the slots and the trampoline already name the new handler, the three-argument trampoline exactly for SA_SIGINFO |
| Signal.Shim.FilledExactly | shim/signal.c:93-94 | a slot is filled exactly when the host holds a trampoline, but for signals a one-time delivery has reset |
| Signal.OneTimeLeavesSlot | shim/signal.c:123-170 | installing a one-time handler and delivering it leaves the slot filled and no trampoline |

## Left out

- The allocator's system side: sys_alloc, sys_trim, mmapped chunks, several segments, mspaces and statistics; the error branches of RTCHECK; zeroing in calloc; trie insertion and unlinking, whose code is not part of this model.
- Dlmalloc.Heap.Dispose: dlfree and dispose_chunk make the same writes and share this method; the mmap and trim branches are not modelled.
- Dlmalloc.Heap.Malloc: the policy says which sizes may be served; which of several chunks of that size is taken is left open.
- Bulk.Memalign: a lost call ends the model before the code writes at the spot it computed.
- Bulk.Ialloc: the head of the element being split is written for the remainder first, where the code writes it once at the end; the calls with no elements return at once and are not modelled. A lost call ends the model before the chunk is split.
- MallocLock.LatchIsSafe: plain reads and writes of the latch are taken as sequentially consistent.
- EpollWait.NoLostWakeup: several waiters on one set, duplicated registered descriptors, a set retired while in use and the level-triggered mode are not modelled; the code promises nothing there.
- EpollSet.FromPoll: hosts where POLLRDHUP does not exist are not modelled.
- The chunked scan for hosts that refuse long poll arrays polls the same array and is one poll step here.
- EpollPairs.Table.ReadEnd: the insertion counter is unbounded; the code's is an int.
- Inotify.Instance.Emit: a write interrupted by a signal loses its record without a mark; that outcome is not among those modelled, nor is running out of memory in a listing.
- Inotify.Instance.AddWatch: the null path, a failing stat and an unknown descriptor are refused before the part modelled; descriptors are taken to stay below 2^31.
- Realpath.RealpathMeans: the file system is static and the working directory canonical; the Windows branches are not modelled.
- RealpathBuffers.Call: malloc of the result is not modelled.
- Unc.NormUncRest: characters stand for UTF-16 units.
- UncRoots.Registry.Note: the lock-free publication is not modelled, nor is the lookup that restores a collapsed "//".
- Cmsg.CmsgsToBsd: buffers are taken to be shorter than 2^32 bytes, so the 32-bit length does not truncate; the callers' are 1024.
- The in-place rewrite of levels and types in control messages, for hosts with the Linux layout, is not modelled.
- Environ.GenEnviron: the environment of the calling process itself is a copy of strings and is not modelled.
- NtMemory.CopyReservation: a page's contents are one value and ranges are whole pages; the other kinds of mappings that fork copies are not modelled.
- Signal.Shim.Sigaction: flag and mask translation, the fields of siginfo, and a signal landing inside the call while the kind of handler changes.
- Errno.Thread.ErrnoLocation: the Rust side uses the pointer at once; keeping it across a C call is not modelled.
- The generated constant tables, other /proc text, console, network and name resolution code hold no protocol of their own.
