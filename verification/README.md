# Verified model of harvid

harvid serves video frames over HTTP.  This project models, in Dafny 4.11, the parts of it on
which everything else rests, and proves what they promise.

* `sequences.dfy`: sequences without repetitions.
* `stable_order.dfy`, `app_order.dfy`, `hash_table.dfy`: the intrusive hash table of uthash,
  with real pointers.  An element sits in its bucket chain and in the application-order list at
  once.  The class invariant of `UtHash.Table` is what HASH_FSCK checks.  The sort is the
  bottom-up merge sort on the linked list, proved stable for every total preorder.
* `decoder_object.dfy`, `decoder_pool.dfy`, `pool_object.dfy`: decoder objects, their flags and
  reference counts, the pool as a protocol for any number of threads, and the object updated in
  place, whose methods perform the steps.  Each region under a lock is one step.
  `pool_runs.dfy` has runs that go wrong, `trapped_lock.dfy` the loop that a thread may not get
  out of, `counting.dfy` the lemmas about counting threads.
* `frame_cache.dfy`, `frame_store.dfy`, `cache_runs.dfy`: the raw frame cache, as a protocol and
  as the methods that perform its steps, and runs of it that go wrong.
* `file_ids.dfy`: the map between files and ids, with its eviction.
* `server.dfy`: the three together.  Decoding is any function of file, format, frame and size;
  the main result is that clients get what decoding would give.  `stale_steps.dfy` says what
  the steps do for which that is not so; in the runs of `quiet_runs.dfy` nobody gets in between
  finding and pinning, or being given an object and locking it, and there are no such steps.
* `decoder_list.dfy`, `nearest_decoder.dfy`: the list of decoder objects and its two indexes, as
  whole operations, and which decoder testjvd picks.
* `conversions.dfy`, `formatter.dfy`, `format_specs.dfy`: the portable vsnprintf and the
  grow-and-append macro rpprintf.  `C99` in `conversions.dfy` is written after ISO C99, section
  7.19.6.1, and not after the code; `format_specs.dfy` says what directives mean and what they
  print without saying how they are parsed.
* `seek.dfy`: frame-accurate seeking on a finite stream of packets.
* `timecode.dfy`, `division.dfy`: SMPTE timecode, and the web player's version of it.
* `url.dfy`, `query.dfy`: URL escaping and query parameters, as printer and parser.
* `empty_frame.dfy`: the cross shown when a frame cannot be decoded.

`dafny verify dfyconfig.toml` checks everything.

## Where the code is weaker than it means to be

* `new_video_object` says `continue` for "try again", but inside `do ... while(!jvo)` that
  leaves the loop, and the object is claimed though somebody else has it by now
  (`libharvid/decoder_ctrl.c:555-562`).  The protocol models the retry.  The flags survive the
  code as written (`DecoderPool.ClaimAsCodedKeepsInv`), but the content claims do not, except
  under the condition of `StaleSteps.ClaimAsCodedKeepsInvIff`.  What the threads get: the claimer
  of an open object gets that decoder, whatever it was opened for (`StaleSteps.ClaimerIsServedIff`,
  and the run `PoolRuns.ClaimAsCodedTakesWrongDecoder`), who is opening the object opens the
  claimer's file (`StaleSteps.OpenerIsServedIff`), who has yet to lock it may find another file in
  it (`StaleSteps.ClaimAsCodedStalesLockIff`), and who holds its decoder is not harmed
  (`StaleSteps.HolderIsServed`).
* A request locks the object it was given again and again until that will do, and picks another
  one only if a file is just being opened (`libharvid/decoder_ctrl.c:642-713`).  If the object was
  cleared in between (`dctrl_cache_clear` with f = 1, or the garbage collection of another
  request), only somebody who claims it can help; if a purge is announced by then, the
  thread and the purge wait for each other forever (`TrappedLock.StuckForever`, and the run
  `PoolRuns.ClearedObjectTrapsThread`).
* `getcl` returns a line without flags as it is, without the re-keying of the other path
  (`libharvid/frame_cache.c:76`).  The protocol has both: `ReuseLine` re-keys, `EarlyLine` does
  not.  `FrameStore.Store.GetLine` does what the code does.  In the run
  `CacheRuns.EarlyLineServesWrongPicture` a client is served the wrong picture; in
  `CacheRuns.EarlyLineOutgrowsKey` a picture is written into a buffer of another size.
  `StaleSteps.EarlyLineIsGoodIff` and `StaleSteps.EarlyLineIsFreshIff` are the exact conditions.
* A line is found and then pinned, and an object is picked and then locked, without looking at
  the key again (`libharvid/frame_cache.c:193-200`, `libharvid/decoder_ctrl.c:649-661`).
  Meanwhile the line can be re-keyed (`CacheRuns.StalePinServesWrongPicture`), the object be
  opened for another file (`PoolRuns.StaleLockTakesWrongDecoder`), and the line be freed
  (`CacheRuns.FoundLineIsCleared`, `CacheRuns.FoundLineIsReleased`;
  `FrameCache.FoundLineLeavesIff` says exactly when).  Pinning a freed line is outside the
  model, so the claims about flags, counts and safety of the cache are about runs in which no
  thread does that; the pool has no such restriction.  The claims about contents are about runs
  in which what is found under the lock is still for what was asked for (`Server.Fresh`).
  `StaleSteps.PinIsFreshIff` and `StaleSteps.LockIsFreshIff` say that a step is fresh exactly if
  the client gets the right picture whatever decoding does.
* The initial root is in the indexes under id 0, and is entered again when it is first
  claimed unless the garbage collection removed it before
  (`libharvid/decoder_ctrl.c:374-380`, `:764-765`): that takes a clock of at least 600.
* The formatter looks at the sign of an argument before `h` cuts it down to a short, so
  `%+hd` with 40000 prints `+-25536`.  `Conversions.ConversionLayoutIff` says for every
  conversion and argument whether the characters come out right: exactly if `h` is harmless, or
  its harm is a blank that does not show among others, as with `% 10hd`.
* A frame accepted with a pts one tick early is not recognised when it is asked for again.  The
  second seek reads on, and shows the next frame exactly if that is in the window of the frame
  wanted (`Seek.SecondSeekShowsNextIff`, `Seek.FuzzyStream`); if that is beyond the window, it
  seeks back, and shows the same frame if it finds it (`Seek.SecondSeekShowsSameIff`,
  `Seek.OvershotStream`).
* The web player floors where C truncates, so it is two labels behind on the first two
  frames of every ten minutes of drop-frame timecode.
* The comment on `testjvd` promises the decoder with the nearest lower frame number
  (`libharvid/decoder_ctrl.c:158-159`).  `DecoderList.FarDecoders` has two lists on which the
  code picks another one, and `DecoderList.FoundIsNearestIff` says exactly when it keeps the promise.

## Model

| member | source | states |
|---|---|---|
| `StableOrder.StableSortIsUnique` | libharvid/uthash.h:730-815 | a sorted permutation that keeps equal items in their old order is determined by the items and the comparison alone: "stable sort" pins down one result |
| `StableOrder.MergeRuns` | libharvid/uthash.h:756-800 | merging two adjacent stably sorted runs gives the stably sorted run over both |
| `StableOrder.MergePassGood` | libharvid/uthash.h:744-802 | a pass over runs of width w leaves good runs of width 2w over the same items, about half as many |
| `StableOrder.LastRunIsSort` | libharvid/uthash.h:806-811 | when at most one merge was done, the one run left is the stable sort of all items |
| `AppOrder.Emit` | libharvid/uthash.h:789-799 | the next node becomes the tail of the list under construction, linked both ways; no other node changes |
| `AppOrder.TakeRun` | libharvid/uthash.h:746-754 | the second run starts insize nodes further on, or the list ends before |
| `AppOrder.MergeTwo` | libharvid/uthash.h:755-800 | two runs of the old list are taken apart and linked in merged order, the first run winning ties |
| `AppOrder.Pass` | libharvid/uthash.h:740-805 | one pass relinks the whole list in place into the merged runs and counts the merges |
| `AppOrder.SortList` | libharvid/uthash.h:735-813 | for every nonempty list and total preorder the loop ends, the list is the stable sort of the old one, prev and next are consistent, and the tail is its last node |
| `UtHash.MaskIsRemainder` | libharvid/uthash.h:207-210 | hashv & (n - 1) is hashv mod n for a power of two n |
| `UtHash.SplitTargets` | libharvid/uthash.h:695-698 | with twice the buckets an item of bucket i goes to bucket i or i + n |
| `UtHash.CeilShiftIsCeiling` | libharvid/uthash.h:688-690 | the shift-and-mask formula is the ceiling of items / new buckets |
| `UtHash.ExcessCounts` | libharvid/uthash.h:699-700 | nonidealItems is the number of places in the chains beyond the ideal length |
| `UtHash.MultipleIs` | libharvid/uthash.h:699-702 | expand_mult is 0 for a chain of at most the ideal length, and else the largest m with m * ideal <= count |
| `UtHash.PartitionAdd` | libharvid/uthash.h:187-203 | adding an item at the head of its bucket keeps every item in exactly the bucket hashv mod n, once |
| `UtHash.PartitionRemove` | libharvid/uthash.h:232-253 | so does removing an item from its bucket |
| `UtHash.ChainsAre` | libharvid/uthash.h:187-203 | with 2^k buckets, the chain of bucket b holds exactly the items whose hash value is b modulo 2^k, each once |
| `UtHash.ExpansionPartition` | libharvid/uthash.h:692-711 | splitting every old bucket over i and i + n loses no item, duplicates none, and puts each in bucket hashv mod 2n |
| `UtHash.ExpansionSize` | libharvid/uthash.h:692-711 | the new chains hold as many items as the old ones |
| `UtHash.PartitionMembers` | libharvid/uthash.h:730-815 | a permutation of the application order leaves the buckets right |
| `UtHash.Table.constructor` | libharvid/uthash.h:150-167 | a null head is an empty table that satisfies the HASH_FSCK invariant |
| `UtHash.Table.Find` | libharvid/uthash.h:103-114 | yields an item with the key exactly when one is in the table |
| `UtHash.Table.Add` | libharvid/uthash.h:182-205 | keeps the HASH_FSCK invariant (both lists, counts, tail, each item in its bucket), and application order is the old one with the item at the end |
| `UtHash.Table.AddToBucket` | libharvid/uthash.h:622-633 | the item goes to the head of its chain; the table expands exactly if the chain has reached (expand_mult + 1) * 10 items and expansion is not inhibited |
| `UtHash.Table.Delete` | libharvid/uthash.h:224-257 | keeps the invariant, and application order is the old one without the item |
| `UtHash.Table.Sort` | libharvid/uthash.h:730-815 | application order becomes the stable sort of the old one; the invariant holds and buckets and chains are untouched |
| `UtHash.Table.ExpandBuckets` | libharvid/uthash.h:677-723 | bucket i splits into exactly i and i + n; ideal_chain_maxlen is the ceiling, nonideal_items sums what exceeds it, expand_mult is count / ideal for exactly the overfull buckets; ineff_expands and noexpand follow |
| `UtHash.Table.Rehash` | libharvid/uthash.h:692-711 | all chains are walked while their nodes are relinked into the new buckets, without losing the rest of a chain |
| `UtHash.Table.MoveItem` | libharvid/uthash.h:697-708 | one node is relinked at the head of its new bucket and the figures stay those of the new chains |
| `UtHash.PushFront` | libharvid/uthash.h:624-628 | the node becomes head of the chain, with both neighbours linked |
| `UtHash.ListDelete` | libharvid/uthash.h:232-247 | unlinking closes the gap in the application order |
| `UtHash.ChainDelete` | libharvid/uthash.h:636-646 | unlinking closes the gap in the bucket chain and counts it |
| `PoolObject.StepsAnywhere` | libharvid/decoder_ctrl.c:631-731 | what a method of the object does is a step of the concurrent protocol, whatever the other threads and objects do |
| `PoolObject.VisitAnywhere` | libharvid/decoder_ctrl.c:292-339 | so is the visit of an object by a sweep that does not free it |
| `PoolObject.StepKeepsFlags` | libharvid/decoder_ctrl.c:631-731 | whatever step is done to an object whose flags and reference count agree with its info holders, its decoder holder and its opener, they agree with those there are afterwards |
| `PoolObject.JvObject.TryInfo` | libharvid/decoder_ctrl.c:631-639 | the locked region of an information request is the protocol step InfoLock: exactly if the object is open, valid and not pending, the reference count goes up by one and INFO is set; otherwise nothing changes |
| `PoolObject.JvObject.TryAcquire` | libharvid/decoder_ctrl.c:661-708 | the locked region in which a request picks the object up is the step LockObject; for each of the five results, exactly when it comes up and what it changes, flag by flag |
| `PoolObject.JvObject.FinishOpen` | libharvid/decoder_ctrl.c:675-709 | opening and taking the object in one locked region is the step OpenOk: the decoder is for the file and the format asked for (24-bit RGB if none was), PENDING becomes OPEN, and the thread has it or one more reference |
| `PoolObject.JvObject.FailOpen` | libharvid/decoder_ctrl.c:681-684 | the step OpenFail: PENDING goes, everything else stays |
| `PoolObject.JvObject.Decode` | libharvid/decoder_ctrl.c:733-740 | the step Render: time and frame are noted, everything else stays |
| `PoolObject.JvObject.ReleaseDecoder` | libharvid/decoder_ctrl.c:716-721 | the step Release of a thread that holds the decoder: USED goes, everything else stays |
| `PoolObject.JvObject.ReleaseInfo` | libharvid/decoder_ctrl.c:723-731 | the step Release of a thread that holds the information lock: one reference less, and INFO goes with the last |
| `PoolObject.JvObject.Visit` | libharvid/decoder_ctrl.c:292-341 | one round of clearjvo for an object that is not freed is the step SweepNext: another id, used less than age seconds ago, or busy, and it stays as it is; else it is closed, and forgets its file unless f = 0 |
| `PoolObject.JvObject.TryRecycle` | libharvid/decoder_ctrl.c:407-426 | the step RecycleLock that gets the lock: an object that is not busy loses decoder, flags and file, a busy one stays as it is |
| `PoolObject.JvObject.TryClaim` | libharvid/decoder_ctrl.c:555-568 | the step ClaimLock that gets the lock, with the retry that the source means: an object without flags becomes valid for the id and format, any other stays as it is |
| `DecoderPool.StepKeepsInv` | libharvid/decoder_ctrl.c:259-364 | every step of every thread (requests, releases, sweeps of modes 0 to 3) keeps the flag machine: infolock_refcnt counts the info holders and INFO says whether there are any, USED and PENDING count their one holder, PENDING excludes OPEN, USED and INFO, OPEN means a live decoder; busycnt and purge_in_progress count their threads; pointers stay valid |
| `DecoderPool.RunKeepsInv` | libharvid/decoder_ctrl.c:612-731 | hence in every reachable state, for any number of threads |
| `DecoderPool.OneDecoderHolder` | libharvid/decoder_ctrl.c:702-710 | no two threads hold the same decoder |
| `DecoderPool.SweepIsExclusive` | libharvid/decoder_ctrl.c:265-279 | while a purger sweeps, no thread is between BUSYADD and BUSYDEC, busycnt is 0, and no other purger sweeps |
| `DecoderPool.SweepNextIs` | libharvid/decoder_ctrl.c:290-341 | one visit of a sweep: what is for another id, was used less than age seconds ago, or is busy stays; else modes 2 and 3 free it, except the root, and otherwise it is closed, and loses file and flags unless the mode is 0 |
| `DecoderPool.HeldIsSafe` | libharvid/decoder_ctrl.c:300-348 | a held or opening object is not freed, closed, re-keyed or given away by any step of another thread |
| `DecoderPool.FreedIsUnreferenced` | libharvid/decoder_ctrl.c:343-349 | when clearjvo frees an object, no other thread has a pointer to it, and it is never the root |
| `DecoderPool.AssertionsHold` | libharvid/decoder_ctrl.c:424-424 | the assertions at lines 424, 683 and 727 never fail, and what clearjvo frees is not the object before it on the list |
| `DecoderPool.PurgeClosesTheDoor` | libharvid/decoder_ctrl.c:604-608 | once a purge is announced, 2 * (threads past the check) + (threads inside) drops by one with every entry and exit and never rises |
| `DecoderPool.PurgeWaitIsBounded` | libharvid/decoder_ctrl.c:273-278 | so along any stretch of a run the purger waits out at most that many entries and exits |
| `DecoderPool.ClaimAsCodedKeepsInv` | libharvid/decoder_ctrl.c:555-568 | the `continue` that leaves the do-while loop claims an object that is not blank any more; flags and counts survive even that |
| `PoolRuns.ClaimAsCodedTakesWrongDecoder` | libharvid/decoder_ctrl.c:555-568 | a run in which getjvo gives one blank object to two threads; the second claims it as coded while the first holds it, and ends up with a decoder for the file of the first, in an object that carries the second's id |
| `PoolRuns.StaleLockTakesWrongDecoder` | libharvid/decoder_ctrl.c:649-661 | a run in which an object picked for one file is recycled and opened for another before it is locked: the thread holds a decoder for the other file |
| `TrappedLock.LeavesLockIff` | libharvid/decoder_ctrl.c:642-713 | a thread that was given an object gets out of the loop that locks it exactly if the object is being opened, or is valid and not just the decoder of somebody else; otherwise nothing changes |
| `TrappedLock.LostUntilClaimed` | libharvid/decoder_ctrl.c:642-713 | while the object is neither valid nor being opened, nothing helps but another thread claiming it |
| `TrappedLock.PurgeWaitsForLocker` | libharvid/decoder_ctrl.c:273-278 | while a thread is in that loop no purge gets past its waiting |
| `TrappedLock.StuckForever` | libharvid/decoder_ctrl.c:273-278 | once a purge is announced, a thread is in that loop with such an object, and nobody else is inside, it stays that way in every continuation of the run: the thread never gets out and no purge goes on |
| `PoolRuns.ClearedObjectTrapsThread` | libharvid/decoder_ctrl.c:642-713 | a run that gets there: the object is cleared between being given to the thread and being locked |
| `FrameCache.StepKeepsInv` | libharvid/frame_cache.c:191-269 | refcnt equals the outstanding handles, INUSE iff it is positive, one thread decodes into a DECODING line, DECODING excludes VALID and INUSE, RELEASE implies INUSE; pinned or decoding lines exist.  A pin of a line that was freed since it was found is not a step |
| `FrameCache.RunKeepsInv` | libharvid/frame_cache.c:191-343 | hence in every state of every run in which no thread goes on to pin a line that was freed since it found it |
| `FrameCache.SizeStep` | libharvid/frame_cache.c:68-110 | no step takes the number of lines past the configured size |
| `FrameCache.PointedLineIsSafe` | libharvid/frame_cache.c:68-153 | a pinned or decoding line is not freed, re-keyed, rewritten or re-allocated by any step of another thread |
| `FrameCache.AssertionsHold` | libharvid/frame_cache.c:84-84 | the assertions at lines 84, 149, 321 and 326 never fail |
| `FrameCache.NoLineMeansAllBusy` | libharvid/frame_cache.c:72-97 | getcl comes back empty-handed exactly when the cache is full and every line is pinned or being decoded |
| `FrameCache.FoundLineLeavesIff` | libharvid/frame_cache.c:193-207 | between finding and pinning, a step of another thread takes the line away exactly if it clears the cache while the line is loose, or is the last release of an invalidated line; the pin is then no step of the model |
| `CacheRuns.FoundLineIsCleared` | libharvid/frame_cache.c:129-153 | a run of the first kind |
| `CacheRuns.FoundLineIsReleased` | libharvid/frame_cache.c:315-333 | a run of the second kind |
| `CacheRuns.StalePinServesWrongPicture` | libharvid/frame_cache.c:193-207 | a run in which the line found for k1 is re-keyed and filled for k2 before it is pinned: the client asked for k1 and holds the picture of k2 |
| `CacheRuns.EarlyLineServesWrongPicture` | libharvid/frame_cache.c:76-76 | a run of the code as written in which a client asks for k1 and is served what was decoded for k2 |
| `CacheRuns.EarlyLineOutgrowsKey` | libharvid/frame_cache.c:76-108 | a run in which a picture for k3 is written into the buffer that was allocated for k2 of another size |
| `FrameStore.StepsAnywhere` | libharvid/frame_cache.c:68-343 | what a method of the cache does is a step of the concurrent protocol, whatever the other threads do |
| `FrameStore.Store.Find` | libharvid/frame_cache.c:113-122 | what is found has the key, and nothing is found exactly if no line has it |
| `FrameStore.Store.PinFound` | libharvid/frame_cache.c:197-209 | a valid line is pinned and counted, an invalidated one is left alone; key, buffer and all other lines stay |
| `FrameStore.Store.GetLine` | libharvid/frame_cache.c:68-110 | room: a new line for the key at the end; full: the first line without flags as it is, else the least recently used loose line, re-keyed and moved to the end; else none; all other lines stay |
| `FrameStore.Store.TakeOver` | libharvid/frame_cache.c:83-108 | a taken-over line keeps its buffer exactly if the old geometry matches |
| `FrameStore.Store.Finish` | libharvid/frame_cache.c:237-268 | success makes the line valid and pinned, a decoder shortage gives it up, a decode error pins it invalid; key, buffer and all other lines stay |
| `FrameStore.Store.ReleaseBuffer` | libharvid/frame_cache.c:315-333 | the reference count goes down by one; the last release of an invalidated line frees it; all other lines stay |
| `FrameStore.Store.InvalidateBuffer` | libharvid/frame_cache.c:335-343 | marks the line and nothing else |
| `FrameStore.Store.ClearLines` | libharvid/frame_cache.c:129-153 | exactly the loose lines of the id (or all) are freed |
| `FileIds.IssueKeepsIds` | libharvid/decoder_ctrl.c:481-511 | issuing an id, with or without eviction, keeps the two maps mutually inverse; the id was never issued before and is not 0 |
| `FileIds.DropKeepsIds` | libharvid/decoder_ctrl.c:527-538 | so does dropping an entry |
| `FileIds.IssueKeepsSize` | libharvid/decoder_ctrl.c:481-511 | the map never outgrows max(1, cache_size) |
| `FileIds.FileMap.GetId` | libharvid/decoder_ctrl.c:454-516 | a known file keeps its id; a new one gets the next id, and a full map drops a least recently used entry |
| `FileIds.FileMap.LeastRecent` | libharvid/decoder_ctrl.c:483-490 | the scan finds an entry that no other is older than |
| `FileIds.FileMap.Insert` | libharvid/decoder_ctrl.c:502-511 | both tables get the entry; the 16-bit counter skips 0 |
| `FileIds.FileMap.ReleaseId` | libharvid/decoder_ctrl.c:527-542 | the entry of the id leaves both tables, all others stay |
| `FileIds.FileMap.ClearAll` | libharvid/decoder_ctrl.c:440-452 | both tables are emptied and every id that was in them is cleared elsewhere |
| `Server.StepKeepsInv` | libharvid/frame_cache.c:191-269 | every fresh step of the whole keeps: valid lines show their key, open decoders are open for the file of their id and their format, a decoding thread has the decoder for its line, buffers have the size of their key |
| `Server.RunKeepsInv` | libharvid/frame_cache.c:191-269 | hence in every state of every run of fresh steps |
| `Server.Transparency` | libharvid/frame_cache.c:191-269 | cache transparency: a client that got a buffer with err 0 holds the decoding of the file its id was given for, of its frame, in its size and format, in every state of every run whose steps are all fresh, whether hit, missed or reused.  Fresh: what a thread finds when it pins a line, gets one early or locks an object is for the file, frame, size and format it looked for |
| `Server.HeldDecoderFits` | libharvid/decoder_ctrl.c:787-797 | the decoder used to fill a line is open for the file of the line's id and the line's format |
| `Server.IssuedIdIsNew` | libharvid/decoder_ctrl.c:502-513 | right after an id is issued, no cache line, pinned or not, and no valid decoder object carries it |
| `QuietRuns.HitIsFresh` | libharvid/frame_cache.c:113-122 | whatever a lookup hits has the key looked for, and pinning it is fresh in every later state in which the line still has the key it had |
| `QuietRuns.AloneIsQuiet` | libharvid/frame_cache.c:193-207 | while no other thread is between finding a line and pinning it, or between being given an object and locking it, a step disturbs nobody |
| `QuietRuns.QuietRunIsFresh` | libharvid/frame_cache.c:191-269 | in a run in which nobody is disturbed, objects are picked as testjvd picks them, and early lines are right, every step is fresh |
| `QuietRuns.QuietTransparency` | libharvid/frame_cache.c:191-269 | so in these runs clients hold the decoding of their own file, frame, size and format, with nothing assumed about pins and locks |
| `StaleSteps.AllDecodingsAgreeIff` | libharvid/frame_cache.c:113-122 | two keys ask for the same picture under every decoding exactly if file, frame, size and format agree |
| `StaleSteps.PinnedPictureIff` | libharvid/frame_cache.c:193-207 | a client that pins the line it found holds the decoding of its own file and key exactly if the line's key and its own decode to the same picture |
| `StaleSteps.PinIsFreshIff` | libharvid/frame_cache.c:193-207 | so the pin is fresh exactly if the client gets the right picture under every decoding |
| `StaleSteps.EarlyLineIsGoodIff` | libharvid/frame_cache.c:76-76 | the line returned early, once decoded into, shows its key in a buffer of its key's size exactly if old and new key agree in size and format and decode to the same picture |
| `StaleSteps.EarlyLineIsFreshIff` | libharvid/frame_cache.c:76-76 | so the early return is fresh exactly if that holds under every decoding |
| `StaleSteps.TakenDecoderMakes` | libharvid/decoder_ctrl.c:700-708 | a thread that takes an open decoder to fill a line can only write what the object's file and format give |
| `StaleSteps.OpenedDecoderMakes` | libharvid/decoder_ctrl.c:667-709 | one that has to open it first, what the file of the object's id gives |
| `StaleSteps.LockIsFreshIff` | libharvid/decoder_ctrl.c:649-708 | locking the object is fresh exactly if what it makes is what was asked for, under every decoding |
| `StaleSteps.ClaimAsCodedKeepsInvIff` | libharvid/decoder_ctrl.c:555-568 | claiming as coded keeps the invariant of the whole exactly if an object that is open, or being opened to decode, is for the claimer's file, and if open in its format |
| `StaleSteps.ClaimerGets` | libharvid/decoder_ctrl.c:555-568 | the claimer of an open object, once it gets that decoder, can only write what the object's file and format gave before the claim |
| `StaleSteps.ClaimerIsNext` | libharvid/decoder_ctrl.c:555-568 | it gets it at once exactly if nobody held it, and else as soon as the holder lets go |
| `StaleSteps.ClaimerIsServedIff` | libharvid/decoder_ctrl.c:555-568 | so it gets the right picture under every decoding exactly if the object was open for its file and in its format |
| `StaleSteps.ClosedClaimIsServed` | libharvid/decoder_ctrl.c:555-568 | the claimer of a closed object opens its own file, or picks again if the object is being opened |
| `StaleSteps.HolderIsServed` | libharvid/decoder_ctrl.c:555-568 | who holds the decoder of the claimed object gets the right picture all the same |
| `StaleSteps.OpenerGets` | libharvid/decoder_ctrl.c:667-684 | who is opening the claimed object opens the claimer's file |
| `StaleSteps.OpenerIsServedIff` | libharvid/decoder_ctrl.c:667-684 | so it gets the right picture under every decoding exactly if the claimer is after the same file |
| `StaleSteps.ClaimAsCodedStalesLockIff` | libharvid/decoder_ctrl.c:555-568 | and a thread that was given the object and has yet to lock it can still do so freshly exactly if the claim was for the same file and format as its own |
| `DecoderList.SurvivorsAre` | libharvid/decoder_ctrl.c:284-354 | a sweep keeps the order of the list, drops exactly what it frees, and always keeps the root |
| `DecoderList.SweepKeepsIndex` | libharvid/decoder_ctrl.c:330-339 | both indexes stay consistent through a sweep |
| `DecoderList.SweepIs` | libharvid/decoder_ctrl.c:290-341 | the same for the functions on lists and maps that the sweep is proved against |
| `DecoderList.Jvd.Test` | libharvid/decoder_ctrl.c:165-230 | finds a valid, idle object for the id, in the format or in none, exactly if there is one; open before closed, least recently used; for a frame, the open one that the scan of NearestDecoder ends with, which is the closest if all are behind the frame |
| `NearestDecoder.NearestIff` | libharvid/decoder_ctrl.c:158-218 | the scan over the open decoders ends with the nearest one not ahead of the frame exactly if every decoder not ahead is matched, from the first one on that is behind the frame and less recently used than all before it, by one no farther; or, if there is none such, the least recently used is right at the frame |
| `NearestDecoder.AllBehind` | libharvid/decoder_ctrl.c:158-218 | if all are behind the frame it ends with the closest, the least recently used among equals |
| `DecoderList.FoundIsNearestIff` | libharvid/decoder_ctrl.c:158-218 | so testjvd finds the nearest open decoder not ahead of the frame exactly if the open ones come in such an order |
| `DecoderList.FarDecoders` | libharvid/decoder_ctrl.c:158-218 | two lists of open decoders for which it finds another one |
| `DecoderList.UnlinkKeepsLinks` | libharvid/decoder_ctrl.c:343-349 | taking an object off the list by prev->next leaves next pointers that follow the rest of the list, and lead to nothing that was freed |
| `DecoderList.Jvd.Visit` | libharvid/decoder_ctrl.c:284-354 | one round of clearjvo; when it frees an object, prev is another one (the assertion at line 345) and points past it from then on |
| `DecoderList.Jvd.Append` | libharvid/decoder_ctrl.c:150-153 | newjvo walks to the end of the list and links the new object there |
| `DecoderList.Jvd.HashrefDelete` | libharvid/decoder_ctrl.c:232-246 | the object leaves both indexes, all others stay |
| `DecoderList.Jvd.ClearJvo` | libharvid/decoder_ctrl.c:259-364 | of every object: for another id, used less than age seconds ago, or busy, it is there unchanged, with its index entries; else it leaves the indexes and is freed for f = 2 and 3, except the root, closed for f = 0, without file and flags for f = 1.  The list keeps its order; total = skipped + busy + freed + cleared |
| `DecoderList.Jvd.GetJvo` | libharvid/decoder_ctrl.c:368-434 | an object without flags, in no index once the clock shows 600; nothing only if the list is full and every object busy; whatever is busy or was used less than 600 seconds ago is unchanged unless it is the one returned; the list never exceeds max(1, max_objects) |
| `DecoderList.Jvd.Scan` | libharvid/decoder_ctrl.c:377-397 | the scan finds a blank object if there is one, and else the object to take over that VictimIs and VictimIsFree are about, and counts the list |
| `DecoderList.VictimIsFree` | libharvid/decoder_ctrl.c:377-397 | the object to take over is free; there is none exactly if all are busy, or used in the future |
| `DecoderList.VictimIs` | libharvid/decoder_ctrl.c:386-401 | it is closed exactly if some closed one is less recently used than all free ones before it, and then the last such one; otherwise the least recently used of all that are free |
| `DecoderList.OlderOpenIsTakenOver` | libharvid/decoder_ctrl.c:386-401 | an open decoder is taken over although a closed one used more recently follows |
| `DecoderList.Jvd.NewVideoObject` | libharvid/decoder_ctrl.c:545-581 | the object is valid and closed for the id, and the id is indexed |
| `DecoderList.Jvd.Pick` | libharvid/decoder_ctrl.c:645-659 | up to forty attempts at a free object, existing or new; none exactly if the list is full and all objects are busy |
| `DecoderList.Jvd.GetDecoder` | libharvid/decoder_ctrl.c:612-714 | a decoder open for the id in the wanted format, for the file if just opened, held for information or exclusively; 500 and 503 mean what they say; both indexes hold the same objects under their current id and format; busy objects are left alone, and so is what was used less than 600 seconds ago unless the open fails |
| `DecoderList.Jvd.TryInfo` | libharvid/decoder_ctrl.c:620-641 | information requests are served from the index even from a decoder in use |
| `DecoderList.Jvd.Release` | libharvid/decoder_ctrl.c:716-731 | USED goes, or one reference and with the last one INFO; list and indexes stay consistent |
| `DecoderList.Jvd.Decode` | libharvid/decoder_ctrl.c:733-740 | decoding moves lru and frame and keeps list and indexes consistent |
| `DecoderList.Jvd.PerformAll` | libharvid/decoder_ctrl.c:612-740 | after any sequence of requests, decodes, releases and cache flushes, in any order and at any times, list and indexes are consistent, closed objects in the index are those whose file failed to open, no object is from the future, and the list has at most max(1, max_objects) objects |
| `DecoderList.FirstClaimIsConsistentIff` | libharvid/decoder_ctrl.c:374-380 | claiming the initial root leaves the indexes consistent exactly if the clock shows at least 600 |
| `Conversions.DigitsRoundTrip` | libharvid/snprintf.c:852-877 | the digits printed read back as the value |
| `Conversions.PrintedIs` | libharvid/snprintf.c:760-804 | what is printed differs from the argument by a multiple of 2^16 for h, 2^32 for no modifier and l, 2^64 for ll, and is in the range of that type, signed for %d |
| `Conversions.PartsAgreeIff` | libharvid/snprintf.c:738-913 | what the source puts before and after the zeros that fill the field is the prefix and the digits of ISO C99 section 7.19.6.1 exactly if the modifier h is harmless |
| `Conversions.PaddingIsField` | libharvid/snprintf.c:914-1001 | zero fill lands after sign or 0x, blanks on the side the flags say, up to the field width |
| `Conversions.EmittedIsFieldIff` | libharvid/snprintf.c:715-1001 | the characters emitted for a value are the ISO C99 field exactly if h is harmless, or all it does is put a blank too many or too few among the blanks that fill the field |
| `Conversions.ConversionLayoutIff` | libharvid/snprintf.c:715-1001 | so for every argument of d, u, o, x, X |
| `Conversions.ShortIsHiddenInBlanks` | libharvid/snprintf.c:769-772 | % 10hd with 40000 comes out right though its h is not harmless |
| `Conversions.FittingShortIsHarmless` | libharvid/snprintf.c:760-804 | without h, or for arguments that fit a short, nothing can go wrong |
| `Conversions.ShortGoesWrong` | libharvid/snprintf.c:769-772 | %+hd with 40000 prints +-25536 |
| `Conversions.BodyReadsBack` | libharvid/snprintf.c:839-913 | the digits of the standard, zeros included, read back as the magnitude; there are none exactly for 0 with precision 0 |
| `Conversions.EmittedReadsBack` | libharvid/snprintf.c:839-913 | so do the digits emitted, harmless h or not |
| `Conversions.TextFitsTmp` | libharvid/snprintf.c:574-574 | numeric text and its NUL never exceed tmp[32] |
| `Conversions.Field` | libharvid/snprintf.c:943-1001 | a field has max(width, sign or prefix + digits) characters |
| `Formatter.LiteralRun` | libharvid/snprintf.c:555-565 | copying a stretch of text at once is copying it character by character |
| `Formatter.ReadSpec` | libharvid/snprintf.c:596-675 | the parsing loops read flags, width, precision, length modifier and conversion as the recursive description does |
| `Formatter.ReadFlags` | libharvid/snprintf.c:597-615 | the flag loop |
| `Formatter.ReadNumber` | libharvid/snprintf.c:624-654 | the digit loops, with unsigned int wrap-around |
| `Formatter.Put` | libharvid/snprintf.c:561-564 | fast_memcpy of what there is room for, and never past the end |
| `Formatter.Fill` | libharvid/snprintf.c:946-949 | fast_memset of what there is room for |
| `Formatter.Emit` | libharvid/snprintf.c:941-1001 | the five truncated sites of a conversion write, as far as there is room, exactly its output |
| `Formatter.TextLayout` | libharvid/snprintf.c:678-714 | %s, %c and %% pad with blanks on one side to the width |
| `Formatter.ClippedIsPrefix` | libharvid/snprintf.c:701-710 | a string argument is not looked at beyond its NUL or the precision |
| `Formatter.NumberConvertsIff` | libharvid/snprintf.c:715-919 | a numeric conversion in a format yields the ISO C99 field exactly under that condition |
| `FormatSpecs.ReadsBack` | libharvid/snprintf.c:596-675 | a directive printed from flags, width, precision, modifier and conversion is parsed back as what it means: i, D, U, O as d, ld, lu, lo; a negative * width as left adjustment; a negative * precision as none; each * takes one argument |
| `FormatSpecs.DirectivePrints` | libharvid/snprintf.c:676-1007 | wherever a directive stands, its conversion takes the argument after those of its stars (%% none), and what follows is printed with the arguments after that |
| `FormatSpecs.StringPrints` | libharvid/snprintf.c:698-714 | %s prints the first min(precision, strlen) characters of its argument, padded with blanks to the width, on the right exactly if there is a - flag or a negative * width |
| `FormatSpecs.CharPrints` | libharvid/snprintf.c:692-697 | %c prints its argument modulo 256 in such a field |
| `FormatSpecs.PercentPrints` | libharvid/snprintf.c:678-691 | %% prints a % in such a field |
| `FormatSpecs.PointerPrints` | libharvid/snprintf.c:716-919 | %p prints the text of the pointer in such a field, if there is neither a precision nor a 0 flag |
| `FormatSpecs.NumberPrintsIff` | libharvid/snprintf.c:715-919 | a directive for a number prints the ISO C99 field of its argument exactly if its h is harmless or the harm does not show |
| `FormatSpecs.PlainString` | libharvid/snprintf.c:698-714 | a plain %s prints its argument |
| `Formatter.Vsnprintf` | libharvid/snprintf.c:537-1023 | truncation refines unbounded formatting: full length returned whatever the size, the first min(length, size - 1) characters then NUL, nothing outside written |
| `Formatter.Builder.Append` | libharvid/dlog.h:88-94 | rpprintf terminates with off < siz and appends exactly the formatted piece to what was there |
| `Formatter.Builder.Grow` | libharvid/dlog.h:90-91 | the size doubles until piece and NUL fit; the contents survive realloc |
| `Seek.ScanResult` | libharvid/ffdecoder.c:620-704 | on any stream the read loop ends; success puts avprev and the frame shown in the window, failure leaves avprev at -1 |
| `Seek.SeekResult` | libharvid/ffdecoder.c:587-705 | so for a whole seek: success means pts in [timestamp - prefuzz, timestamp + tpf) and avprev is the pts shown; a frame outside the movie changes nothing |
| `Seek.TimestampsApart` | libharvid/ffdecoder.c:602-603 | rounded timestamps of later frames are later by at least the whole ticks per frame |
| `Seek.TimestampIsTick` | libharvid/ffdecoder.c:602-603 | av_rescale_q gives the tick nearest to k * num / den, halves up |
| `Seek.OneTick` | libharvid/ffdecoder.c:602-603 | there is only one such tick |
| `Seek.SeekWindow` | libharvid/ffdecoder.c:587-705 | if a seek succeeds, the frame shown has a pts from the tick of frame k, or one before if a frame has more than 10 ticks, to before that tick and the ticks of a frame |
| `Seek.SeekLandsNear` | libharvid/ffdecoder.c:609-612 | a backward seek lands on a keyframe fewer than 600 frames early |
| `Seek.ScanFinds` | libharvid/ffdecoder.c:620-703 | reading on from a keyframe or from the last frame shows the wanted frame, intact, before bailout runs out |
| `Seek.SeekIsExact` | libharvid/ffdecoder.c:587-705 | if the pts of every frame k is the tick nearest to k * num / den, every seek in range shows exactly the wanted frame, intact, whatever was shown before |
| `Seek.HistoryIndependent` | libharvid/ffdecoder.c:605-612 | after any sequence of seeks a seek shows what it shows in a movie just opened |
| `Seek.SecondSeekShowsNextIff` | libharvid/ffdecoder.c:676-681 | if the frame accepted carried a pts one tick early, seeking to it again shows the next packet's frame exactly if that is in the window of the frame wanted |
| `Seek.SecondSeekShowsSameIff` | libharvid/ffdecoder.c:587-705 | on a stream with increasing pts it shows the same frame again exactly if the next one is beyond the window and the seek back that follows finds a keyframe fewer than 599 frames before |
| `Seek.OvershotStream` | libharvid/ffdecoder.c:676-692 | a stream on which the same frame is shown again |
| `Seek.FuzzyStream` | libharvid/ffdecoder.c:676-681 | a stream on which the next frame is shown |
| `Seek.Player.MySeekFrame` | libharvid/ffdecoder.c:587-705 | the method with its loop computes the function the lemmas are about |
| `Seek.Player.ReadOn` | libharvid/ffdecoder.c:620-704 | its read loop, with bailout and the one re-seek, terminates and computes the recursive scan |
| `Timecode.LabelsStrictlyIncrease` | libharvid/timecode.c:34-48 | drop-frame labels come in strictly increasing order |
| `Timecode.LabelOfFrame` | libharvid/timecode.c:34-53 | no frame gets a dropped label, and the label tells the frame |
| `Timecode.FrameOfLabel` | libharvid/timecode.c:34-53 | the labels that are not dropped are exactly those of frames, and the frame is given explicitly |
| `Timecode.DroppedIsOutOfStep` | libharvid/timecode.c:48-53 | the labels missing are frames 00 and 01 of second 0 of every minute not divisible by ten |
| `Timecode.Drift` | libharvid/timecode.c:37-48 | 1000 n - 1001 f - 18 D stays in [-1799, 1816] |
| `Timecode.SplitIsExact` | libharvid/timecode.c:50-53 | h:m:s:f and the label number determine each other |
| `Timecode.SplitAtHours` | libharvid/timecode.c:60-80 | dividing hours off first, as the non-drop branch does, gives the same split |
| `Timecode.CeilRoundsUp` | libharvid/timecode.c:32-32 | frames per second are num / den rounded up: (n - 1) * den < num <= n * den |
| `Timecode.TimeOfIsPosition` | libharvid/timecode.c:56-80 | without drop-frame numbering f = ((60 h + m) 60 + s) n + frame with frame < n and m, s < 60 |
| `Timecode.PlayerDropsIff` | doc/seek.js:30-30 | the player counts as drop-frame exactly the rates from 29.97 to below 29.98 |
| `Timecode.PlayerAgreesIff` | doc/seek.js:31-33 | the player's label equals the server's exactly if f mod 17982 >= 2, and is two lower otherwise |
| `Timecode.PlayerShowsTimecodeIff` | doc/seek.js:27-46 | the player shows the server's h:m:s:f exactly if the rate is not 29.97 or f mod 17982 >= 2 |
| `Timecode.PadDigitsIsPercent02d` | doc/seek.js:18-25 | a number padded on the page looks as %02d prints it |
| `Timecode.NtscDrops` | libharvid/ffdecoder.c:346-348 | 30000/1001 counts as a drop-frame rate |
| `Timecode.Settc` | doc/seek.js:27-42 | without drop-frame numbering f is frame number frame of second h:m:s at n frames a second, where n is fps rounded up; with it, the arithmetic that PlayerAgreesIff is about |
| `Timecode.PadDigits` | doc/seek.js:18-25 | zeros in front up to the wanted width |
| `Timecode.TimecodeTime.SampleToTime` | libharvid/timecode.c:30-86 | without drop-frame numbering, frame f is number frame of second h:m:s at n frames a second, where n is num / den rounded up; with it, a label that is not dropped, whose number tells the frame |
| `Url.RoundTrip` | src/httprotocol.c:180-275 | unescaping undoes escaping for every byte string |
| `Url.UnescapeHex` | src/httprotocol.c:251-267 | % and two hexadecimal digits, each in either case, are one byte: %c3 and %C3 are both 0xc3 |
| `Url.UnescapeOther` | src/httprotocol.c:250-268 | anything else stays as it is |
| `Url.EscapeByte` | src/httprotocol.c:194-230 | letters and digits are written as they are, other bytes as % and two upper-case digits |
| `Url.EscapeUnescapeIff` | src/httprotocol.c:180-275 | escaping undoes unescaping exactly for strings of letters, digits and upper-case escapes of other bytes |
| `Url.EscapeIsClean` | src/httprotocol.c:194-230 | an escaped string has letters, digits and % only, and at most three times the length |
| `Url.UrlEscape` | src/httprotocol.c:180-233 | the buffer always has room (newlen = written + remaining + 1 <= alloc) and ends up with the escaped string and NUL |
| `Url.UrlUnescape` | src/httprotocol.c:239-275 | the buffer holds the unescaped string and NUL; olen is its length |
| `Query.JoinRoundTrip` | src/ics_handler.c:131-139 | parameters joined into a query are parsed back, in order |
| `Query.EscapedJoinRoundTrip` | src/ics_handler.c:86-104 | with escaped values, any nonempty byte strings survive the journey |
| `Query.AtoiReadsDecimal` | src/ics_handler.c:95-100 | atoi reads what %d prints |
| `Query.AtoiReads` | src/ics_handler.c:95-100 | atoi skips blanks, takes a sign, and stops at the first character that is no digit |
| `Query.FormatSets` | src/ics_handler.c:107-128 | name by name, what format= sets of rendering and pixels; jpg and jpeg ask for JPEG; any other value changes nothing |
| `Query.JpegQuality` | src/ics_handler.c:108-109 | a number after jpg or jpeg is the quality |
| `Query.FrameQueryIsUnderstood` | src/ics_handler.c:86-139 | the request for a frame of any file in any size is understood as it was meant; of the name, up to the first NUL, and so all of it exactly if it has none |
| `Query.Parser.ParseParam` | src/ics_handler.c:86-129 | cut in place at the first =; empty keys and values are ignored; the field the key names is set |
| `Query.Parser.ParseQueryParams` | src/ics_handler.c:131-139 | the loop that cuts the query in place applies exactly its parameters, in order |
| `Query.Strpbrk` | src/ics_handler.c:133-133 | the next separator, or the end |
| `EmptyFrame.RowInPicture` | libharvid/ffdecoder.c:152-155 | the diagonal stays inside the picture |
| `EmptyFrame.HitInside` | libharvid/ffdecoder.c:152-186 | every byte written lies inside the picture, the second pixel of a plane included |
| `EmptyFrame.PackedPicture` | libharvid/ffdecoder.c:159-189 | packed layouts: exactly the pixels of the two mirrored diagonals, all columns but the last, carry the cross |
| `EmptyFrame.RgbPicture` | libharvid/ffdecoder.c:135-176 | 24-bit layouts: 3 bytes a pixel, 255 on the cross, 0 elsewhere |
| `EmptyFrame.RgbaPicture` | libharvid/ffdecoder.c:137-189 | 32-bit layouts: 4 bytes a pixel, 255 on the cross except for the byte that is not a colour (first for ARGB, last for RGBA and BGRA), 0 elsewhere |
| `EmptyFrame.YuvPicture` | libharvid/ffdecoder.c:105-166 | packed YUV: 2 bytes a pixel, 127 on the cross, elsewhere 0x80 0 for YUYV and 0 0x80 for UYVY |
| `EmptyFrame.PlanarPicture` | libharvid/ffdecoder.c:150-158 | planar layouts: the luminance is 127 on those pixels and their right neighbours, 0 elsewhere |
| `EmptyFrame.ChromaPicture` | libharvid/ffdecoder.c:118-133 | the chroma planes are 0x80 everywhere |
| `EmptyFrame.PaintBackground` | libharvid/ffdecoder.c:104-146 | the background of every layout |
| `EmptyFrame.DrawCross` | libharvid/ffdecoder.c:150-189 | the loop writes the cross and nothing else |
| `EmptyFrame.RenderEmptyFrame` | libharvid/ffdecoder.c:103-194 | the finished picture: background except exactly on the cross; nothing beyond the buffer size is written |

## Left out

- FFmpeg, swscale, libjpeg and libpng: foreign code.  Decoding is any function, a stream is a finite sequence of packets, av_seek_frame is a function from timestamps to positions.
- Sockets, select loops, HTTP headers, logging, page building and directory walking: input, output and presentation.
- libharvid/image_cache.c: the same pins with fewer states; its flush frees pinned lines.
- clearjvo with f = 4, which clears objects that are in use, and the wait of clearcache with f = 1, which looks at a line after it has given up the lock.
- Deadlock: clearvid waits for busy threads while it holds a lock that get_fn needs.
- Id roll-over: the counter restarts at 1 without looking at live ids; claims about ids cover runs before that.
- HASH_SELECT, the Bloom filter and the hash functions: a table has any fixed function of the key as its hash.
- raprintf, the fixed-size page builders, str_escape in src/fileindex.c.
- Failure of malloc, overflow of machine integers (other than the unsigned int of a field width, the modifiers h, l and ll, and the id counter), and rounding of doubles.
- Locks are the boundaries of atomic steps; the memory model below them is not modelled.  Fields that the source touches outside its locks (the lru of a line after a hit, hit counters) are part of the step next to them.
- Server.Enabled: clients ask for frames from 0 on in a known pixel format; `src/harvid.c:751` sees to the first, the defaults of the query parser to the second.
- FrameCache.StepKeepsInv: pinning a line that was freed since it was found is no step; FrameCache.FoundLineLeavesIff says when that comes up.
- FrameCache.RunKeepsInv: likewise.
- Server.Transparency: covers runs whose steps are all fresh; StaleSteps says what becomes of the others.
- Server.StepKeepsInv: likewise.
- Server.RunKeepsInv: likewise.
- FrameCache.SizeStep: the size of a cache is fixed; vcache_resize is left out.
- DecoderPool.Enabled: testjvd and the scan of getjvo look at objects without a lock, so in the protocol a thread may pick any object at all; which one is the subject of DecoderList, for operations one after the other.
- PoolObject.JvObject.Visit: freeing an object is a matter of the list; DecoderPool and DecoderList have it.
- DecoderPool.StepKeepsInv: the waiting loops of BUSYADD and clearjvo are steps that are not enabled until the condition holds.
- DecoderList.Jvd.Pick: nobody releases a decoder between the forty attempts; what can happen then is the subject of DecoderPool.
- DecoderList.Jvd.ClearJvo: decoder objects are values at addresses here; their update in place is class PoolObject.JvObject.
- FrameStore.Store.GetLine: cache lines are values at addresses here, and the hash table below them is a map with an iteration order.
- UtHash.Table.Add: keys do not change while an element is in a table.
- PoolObject.JvObject.FinishOpen: the decoder may be taken at once because the object was pending, which excludes USED.
- FileIds.FileMap.GetId: covers ids up to 65535, and a clock that does not run backwards.
- Formatter.Vsnprintf: arguments beyond the last, or of the wrong kind, are undefined in C; here they read as 0 or null.  What sprintf prints for %p comes with the argument.  Strings are shorter than 2^31 characters.  long has 32 bits, as on the platform that compiles this file.
- Seek.SeekIsExact: decoders that return frames later than the packet they came in are not modelled, and start_time offsets are added by the caller.
- Timecode.TimecodeTime.SampleToTime: the sample rate is the frame rate, as the only caller passes it.
- Timecode.PadDigits: the text of a number is given; updating the page is left out.
- Query.Parser.ParseParam: atoi stands for the C library function on values that fit an int; check_path and the file system are left out.
- EmptyFrame.DrawCross: the four loops of the source differ in pixel size, offset and value only, and are one loop with a pen.
