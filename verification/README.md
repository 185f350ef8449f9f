# Proofs about an Android binder daemon and its support libraries

This project models the parts of the repository that carry its hardest guarantees and proves what they promise. Each
part has a specification on values, proofs about it, and, where the source changes things in place, classes and methods
with the source's loops and fields whose contracts equate the new state with the specification's.

| files | what they model |
|---|---|
| BestFitSpec, BestFitProofs, MemoryDealer | the best-fit heap of the memory dealer over a doubly linked chunk list |
| BinderSpec, BinderInvariants, BinderRuns, BinderReplies, BinderObjects, BinderDelivery, BinderStalls, BinderServer | the binder server: registry and sessions, as a state machine over connect, one message, a frame that cannot be unpacked, terminate |
| EventListSpec, EventListProofs, EventLog | the nested binary event list, written and read |
| ParcelSpec, ParcelProofs, Parcel | a parcel that owns its buffer: growth, padding, integers, strings, byte vectors |
| BundleSpec, BundleProofs, BundleLoss, PersistableBundle | the nested bundle written to and read from a parcel |
| LeadBytes, JString | Java's modified UTF-8 in both directions |
| RecordStream | length-prefixed records out of a stream read in pieces |
| HashMapSpec, HashMapProofs, HashMapCapacity, HashMap | the chained hash map with rehashing |
| ObjectSearch | the hinted search for an object of a received parcel |
| ObjectTranslator | the table between object addresses and ids |
| DeathLinks, BpBinder | death notices of a proxy under interleaving |
| SafeIop | checked arithmetic at every width |
| Bytes, Options | little-endian words and an option type |

## How the source is read

- Sizes are those of a 64-bit little-endian machine: `size_t` has 64 bits, `flat_binder_object` has 24 bytes. Wherever a
  sum or product can wrap, it wraps in the model: the request of `alloc`, the page rounding of a heap and its length in a
  28-bit field, the products of the hash map, the lengths of `strnlen16to8`, the check of an object table. Masks with a
  power of two less one are written as remainders; for the hash map `HashMapCapacity` proves that they are.
- Allocation succeeds, except that `calloc` cannot give more bytes than a `size_t` counts. `LOG_FATAL_IF` and `assert`
  are compiled out.
- A write to a parcel is modelled from every position from which it stays inside the buffer. `ParcelProofs.RoomExactly`
  says when it does; beyond that C++ defines nothing.
- The server takes each message as one step. An exception that leaves a handler ends in the loop of `ServerImpl::Run`
  (src/binderd/server_impl.cpp:116-124). The order in which an `unordered_map` is walked is a parameter. The handle
  and the binder word of an object share a union, so `obj->handle = 0` clears the low half of the binder word. The
  message kept in a transaction record is never read back and not modelled. A transaction's payload is a list of objects.
- Bundles: the eleven member maps are one map from a member map and a key. A double is its 64-bit pattern, so that two
  equal bundles have equal patterns.
- The proxy's methods are split at the lock. `reportOneDeath` counts as the report, whether or not the weak pointer can
  still be promoted.
- Files that are included but are not in the repository, such as the C++ library's containers, are not part of this model.

## Where the code falls short of what one would expect

- `alloc` of a size within 31 of SIZE_MAX rounds to zero units. If a free chunk can be aligned it leaves a chunk without a
  size, and only then is the heap no longer well formed (`BestFitProofs.AllocKeepsExactly`,
  `BestFitProofs.LargestRequestIsEmpty`).
- A frame to the server that is too short for its message, and a message that is too short for the handle it should hold,
  throw past the call that would read the next one. The session stays connected and is never read from again, so that its
  end is not noticed (`BinderStalls.StallsExactly`, `BinderStalls.NeverLeaves`).
- The length of a message's body is read from one byte: of a body of 256 bytes and more the rest is taken for what follows
  (`BinderStalls.OnlyTheWholeUnpacks`).
- An event-list reader in front of a cut number or an unknown type gives an unknown element that is not complete, over and
  over (`EventListProofs.ReaderSticksExactly`).
- A key that foreign data has twice for a bundle gives neither the first nor the second bundle, but both merged
  (`BundleProofs.BundleReadInto`).
- `alloc` of nothing returns offset 0 without a record, and `deallocate` of that offset releases whatever block starts the
  heap; `Allocation` takes care not to (`BestFitProofs.NothingIsAlias`).
- `TranslateObjects` sets the handle of a returning object to zero after its binder word
  (src/binderd/server_session.cpp:204-207); the two share a union, and the low half of the word is lost
  (`BinderObjects.ThereAndBack`). It also turns a handle that a session owns and sends to another one into the sender's own
  binder word and cookie (`BinderObjects.HandleArrives`), and cuts a 64-bit handle to the 32 bits of an object's handle
  field (`BinderObjects.HandleIsCut`).
- `growData` may succeed and leave too little room for a write behind the data (`ParcelProofs.RoomExactly`,
  `ParcelProofs.NoRoomBehindData`).
- `Parcel::writeString8`, `writeString16` and `write` return `mError`, which is still NO_ERROR, when `writeInplace` found
  no room: the payload is lost without an error. `ParcelProofs.RoundTrip` gives the exact condition.
- The event-list writer accepts one level of nesting more than the reader, and more elements in a list than its one-byte
  counter can say (`EventListProofs.RoundTrip`, `EventListProofs.DeepLogIsLost`, `EventListProofs.LongLogIsLost`).
- A string that is cut for an event list still advances the position by its whole length, and the length of the message
  that is handed to the logger can exceed the storage (`EventListProofs.MessageInStorage`, `EventListProofs.LongestIsCut`).
- `hashmapCreate` multiplies the capacity by four without a check. From 3 * 2^58 on no map can be allocated; from 2^62 on
  the product wraps, and the map that is created grows before it holds as much, unless it has 2^60 buckets and cannot
  (`HashMapCapacity.CapacityHolds`, `HashMapCapacity.NoMapBetween`, `HashMapCapacity.FirstBrokenCapacity`).
- The check in `ipcSetDataReference` wraps, and an accepted table may then hide objects from the hinted search
  (`ObjectSearch.SearchIsMembershipExactly`, `ObjectSearch.WrappedTable`).
- `safe_mod5` (external/android/include/safe_iop.h:345) has a comma for a semicolon and cannot be expanded; `SafeIop.Safe5`
  models it as its siblings are written.
- `PersistableBundle::erase` removes a key from one map only; a bundle read from foreign data can hold it in two
  (`BundleProofs.EraseForgetsExactly`, `BundleProofs.PutReplacesExactly`, `BundleProofs.ReadHoldsKeyTwice`).

## Model

| member | source | states |
|---|---|---|
| `MemoryDealer.ChunkList.InsertAfter` | external/android/binder/MemoryDealer.cpp:62-68 | the new chunk stands right behind its neighbour in the list, everything else keeps its order and contents, both directions of links agree |
| `MemoryDealer.ChunkList.InsertBefore` | external/android/binder/MemoryDealer.cpp:70-76 | the same in front of the neighbour |
| `MemoryDealer.ChunkList.InsertHead` | external/android/binder/MemoryDealer.cpp:78-88 | the same at the head |
| `MemoryDealer.ChunkList.Remove` | external/android/binder/MemoryDealer.cpp:101-107 | exactly the one chunk is gone from a list that is still doubly linked |
| `MemoryDealer.SimpleBestFitAllocator.constructor` | external/android/binder/MemoryDealer.cpp:280-287 | a page-rounded heap is one free chunk; the rounding wraps with `size_t` and the length keeps only the 28 bits of the `size` field |
| `MemoryDealer.HeapCovers` | external/android/binder/MemoryDealer.cpp:280-287 | that chunk covers what was asked for if and only if the rounding does not wrap and the length fits 28 bits, and then exceeds it by less than a page |
| `MemoryDealer.SimpleBestFitAllocator.Alloc` | external/android/binder/MemoryDealer.cpp:318-373 | the chunk list after `alloc` shows the layout that `BestFitSpec.Alloc` computes, the list is still well linked and tiles the heap, the result is its offset: a multiple of 32, and of the page size if the request is page-aligned; on a well-formed heap a request that is neither zero nor wraps is refused exactly when no free stretch is long enough, for a page-aligned one none that starts at a page |
| `MemoryDealer.SimpleBestFitAllocator.Search` | external/android/binder/MemoryDealer.cpp:328-343 | the walk with its early exit finds the best-fit chunk, or nothing exactly when none fits |
| `MemoryDealer.SimpleBestFitAllocator.Split` | external/android/binder/MemoryDealer.cpp:345-371 | the chosen chunk is cut into padding, block and rest by relinking |
| `MemoryDealer.SimpleBestFitAllocator.Dealloc` | external/android/binder/MemoryDealer.cpp:375-414 | the chunk list after `dealloc` shows the layout that `BestFitSpec.Dealloc` computes; found or not |
| `MemoryDealer.SimpleBestFitAllocator.Release` | external/android/binder/MemoryDealer.cpp:385-398 | the do-while loop over neighbours merges exactly as `DeallocAt` |
| `BestFitProofs.Ordered` | external/android/binder/MemoryDealer.cpp:318-414 | in a layout that tiles the heap blocks do not overlap and stay inside it |
| `BestFitProofs.ExtraIsLeast` | external/android/binder/MemoryDealer.cpp:329-331 | the padding of a page-aligned request is the least one |
| `BestFitProofs.BestFitIsLeast` | external/android/binder/MemoryDealer.cpp:328-343 | the search takes the smallest block that fits with its padding, the first among equals, and misses none |
| `BestFitProofs.ExactIsBest` | external/android/binder/MemoryDealer.cpp:338-340 | stopping at an exact fit cannot change the choice |
| `BestFitProofs.AllocAddsOne` | external/android/binder/MemoryDealer.cpp:345-371 | an allocation keeps the heap well formed and adds exactly one live block, at the padded start |
| `BestFitProofs.DeallocIsJoin` | external/android/binder/MemoryDealer.cpp:385-398 | on a well-formed heap the merging loop is one join with a free left and a free right neighbour |
| `BestFitProofs.DeallocRemovesOne` | external/android/binder/MemoryDealer.cpp:375-414 | a release keeps the heap well formed (tiled, no zero sizes, no two free neighbours) and removes exactly one live block |
| `BestFitProofs.DoubleFreeIsNoOp` | external/android/binder/MemoryDealer.cpp:380-410 | releasing a free block changes nothing (the fatal log is compiled out) |
| `BestFitProofs.Canonical` | external/android/binder/MemoryDealer.cpp:318-414 | a well-formed heap is determined by its size and its live blocks |
| `BestFitProofs.DeallocUndoesAlloc` | external/android/binder/MemoryDealer.cpp:318-414 | a release right after an allocation restores the exact layout |
| `BestFitProofs.SucceedsIffGap` | external/android/binder/MemoryDealer.cpp:318-373 | the search succeeds if and only if some aligned stretch of the heap avoids every live block |
| `BestFitProofs.AlignedOffset` | external/android/binder/MemoryDealer.cpp:330-331 | the offset of a page-aligned request is a multiple of the page size, that of any request a multiple of 32 |
| `BestFitProofs.RefusedExactly` | external/android/binder/MemoryDealer.cpp:318-373 | a request that is neither zero nor wraps gets -ENOMEM exactly when no free stretch of the heap is long enough; for a page-aligned one only stretches that start at a page count |
| `BestFitProofs.GoesToBestPlace` | external/android/binder/MemoryDealer.cpp:328-371 | a request that gets memory gets the lowest place it can have in one free block, and no free block with a place for it is smaller, none of the same size comes before |
| `BestFitProofs.RoundingCovers` | external/android/binder/MemoryDealer.cpp:323 | the rounded request covers the requested bytes if and only if adding 31 does not wrap |
| `BestFitProofs.AllocKeepsExactly` | external/android/binder/MemoryDealer.cpp:318-373 | `alloc` of any size keeps a heap well formed if and only if the request does not wrap or no free chunk can be aligned |
| `BestFitProofs.LargestRequestIsEmpty` | external/android/binder/MemoryDealer.cpp:323 | the largest request on an empty heap gets a chunk without a size at offset 0 |
| `BestFitProofs.AllocContract` | external/android/binder/MemoryDealer.cpp:318-373 | what a caller of `alloc` gets, for every size: a request of nothing gets offset 0 and leaves no record; failure changes nothing; unless the request wraps, failure means that there is no room anywhere; on success an aligned block that meets no live block is the only one added, and it covers the request exactly when the request did not wrap |
| `BestFitProofs.DeallocContract` | external/android/binder/MemoryDealer.cpp:375-414 | what a caller of `dealloc` gets: the block at the offset is no longer live, all others are; found exactly when a block starts there |
| `BestFitProofs.NothingIsAlias` | external/android/binder/MemoryDealer.cpp:318-322 | the offset of a request of nothing is that of the first chunk: releasing it changes nothing exactly when that chunk is free, and else releases the live block there |
| `BestFitProofs.DeallocUndoes` | external/android/binder/MemoryDealer.cpp:301-316 | `dealloc` of what `alloc` returned gives back the heap, through the byte offsets of the interface, if and only if the size was not zero (it may have wrapped) or the first chunk is free |
| `BestFitProofs.RunKeepsWellFormed` | external/android/binder/MemoryDealer.cpp:318-414 | along any run of allocations and releases, with valid offsets or not, the heap is well formed at every point if and only if no request that wraps finds a free chunk that can be aligned |
| `BestFitProofs.RunKeepsShape` | external/android/binder/MemoryDealer.cpp:318-414 | whatever is requested, the chunks tile the heap and no two neighbours are free |
| `BestFitProofs.AllFreedIsOneBlock` | external/android/binder/MemoryDealer.cpp:318-414 | after any run, whatever was requested, nothing is live if and only if the heap is one free block covering it |
| `BinderServer.Registry.FindSessionByHandle` | src/binderd/registry.cpp:43-52 | finds what the specification finds: handle 0 is the context manager |
| `BinderServer.Registry.NewObjectHandle` | src/binderd/registry.cpp:54-58 | the whole server state after a handle is given out |
| `BinderServer.Registry.RemoveHandle` | src/binderd/registry.cpp:60-75 | the whole server state after a handle is removed and its references are notified |
| `BinderServer.Registry.AddReferenceForHandle` | src/binderd/registry.cpp:89-100 | the whole server state and the status after an acquire (`BinderRuns.AcquireRefs` says when it is refused) |
| `BinderServer.Registry.RemoveReferenceForHandle` | src/binderd/registry.cpp:102-117 | the whole server state and the status after a release: the first occurrence of the session goes |
| `BinderServer.ServerSession.TranslateObjects` | src/binderd/server_session.cpp:174-225 | the loop over the objects rewrites them and extends registry and object map as `BinderSpec.Translate` |
| `BinderServer.ServerSession.PostTransaction` | src/binderd/server_session.cpp:124-172 | the whole server state, the posted message and the status (`BinderDelivery.PostedIsSent` says what the target is sent) |
| `BinderServer.ServerSession.OnTransaction` | src/binderd/server_session.cpp:235-260 | the whole server state: translation, delivery and the status to the sender |
| `BinderServer.ServerSession.OnReply` | src/binderd/server_session.cpp:262-272 | the pending transaction is taken and the reply written to its caller under the caller's cookie, or nothing happens |
| `BinderServer.ServerSession.OnReference` | src/binderd/server_session.cpp:274-292 | the whole server state after an acquire or release; it throws, with nothing changed, exactly when the handle cannot be read |
| `BinderServer.ServerSession.OnDeathNotification` | src/binderd/server_session.cpp:294-328 | the whole server state after a request or clear of a death notice; it throws, with nothing changed, exactly when the message is too short |
| `BinderServer.ServerSession.SendDeathNotification` | src/binderd/server_session.cpp:375-384 | a notice is written if and only if the session asked for it |
| `BinderServer.ServerSession.ForwardToMonitor` | src/binderd/server_session.cpp:330-339 | what the monitor, if there is one, is sent |
| `BinderServer.ServerSession.OnSetContextManager` | src/binderd/server_session.cpp:102-112 | the slot is taken only when it is free |
| `BinderServer.ServerSession.OnSetMonitor` | src/binderd/server_session.cpp:114-122 | the slot is taken only when it is free |
| `BinderServer.ServerSession.ProcessMessage` | src/binderd/server_session.cpp:345-373 | the whole server state after any message, also one whose reader throws |
| `BinderServer.Unpack` | src/binderd/message.cpp:66-73 | unpacking throws exactly when what is left of a frame is shorter than the header or than the body it announces |
| `BinderServer.ServerSession.TakeFrame` | src/binderd/server_session.cpp:82-95 | the whole server state when it does: the session is never read from again |
| `BinderServer.ServerSession.Terminate` | src/binderd/server_session.cpp:66-80 | the whole server state after a session has left, in whatever order its objects are walked |
| `BinderInvariants.StepKeepsInv` | src/binderd/server_session.cpp:66-384 | every connect, message and termination keeps: handles are nonzero, below the next one, owned by a live session whose object map holds them and the other way round; slots and references point to sessions; cookies are below the next |
| `BinderInvariants.RunKeepsInv` | src/binderd/server_session.cpp:66-384 | the invariant holds in every reachable state |
| `BinderInvariants.TerminateIsLeft` | src/binderd/server_session.cpp:66-80 | leaving removes exactly the session's handles with their references, gives up its slots and changes nothing else but what is written |
| `BinderInvariants.FoundIsLive` | src/binderd/registry.cpp:43-52 | a lookup only leads to a live session that holds the object |
| `BinderRuns.TargetKnowsObject` | src/binderd/server_session.cpp:134-149 | the branch "Cannot find object for handle" cannot be reached from `OnTransaction` |
| `BinderRuns.GoneForever` | src/binderd/server_session.cpp:66-80 | after a session has left no handle, context-manager or monitor lookup ever returns it, in any later state |
| `BinderRuns.SlotsAreHeld` | src/binderd/server_session.cpp:102-122 | the context manager is the first session that asked for that since the last one left; so is the monitor |
| `BinderRuns.FindsExactly` | src/binderd/registry.cpp:43-52 | a lookup finds the context manager for handle 0, and for another handle the live session that has an object under it, and no other |
| `BinderRuns.AcquireRefs` | src/binderd/registry.cpp:89-100 | an acquire is refused as DeadObject exactly when the handle is not known, and else adds one reference of that session to that handle |
| `BinderRuns.ReleaseRefs` | src/binderd/registry.cpp:102-117 | a release is refused as DeadObject for an unknown handle, as BadValue when the session holds no reference to it, and else takes one away |
| `BinderRuns.ReferencesInOrder` | src/binderd/registry.cpp:89-117 | the holders of a handle stand in the order of their acquires; a release takes out the first of the session that releases |
| `BinderRuns.WatchesIfAsked` | src/binderd/server_session.cpp:294-328 | a session is registered for a notice exactly while a request of its own stands, under the object id of that |
| `BinderRuns.RemoveHandleEffect` | src/binderd/registry.cpp:60-75 | removing a handle notifies its references, once each, and nobody else |
| `BinderRuns.StepDeaths` | src/binderd/server_session.cpp:274-327 | one step: the balance of references and exactly which death notices are written; only the step that removes a handle writes one |
| `BinderRuns.BeforeRemoval` | src/binderd/registry.cpp:54-117 | while a handle exists its reference list is acquires of it minus releases of what was held of the run, and nobody has been told of its death |
| `BinderRuns.DeathNotices` | src/binderd/server_session.cpp:375-384 | over a whole run: once a handle is removed it is never known again, and each session has been sent acquires of the known handle minus releases of what it held as copies of the notice if it had asked for it and not cleared that, and none otherwise |
| `BinderRuns.NextGrows` | src/binderd/registry.cpp:54-58 | handles are never given out again |
| `BinderReplies.PostedMeansOk` | src/binderd/server_session.cpp:235-260 | a transaction is posted exactly when its sender is told OK |
| `BinderReplies.StepPending` | src/binderd/server_session.cpp:124-172 | one step posts at most one transaction and answers at most one; no other pending table changes |
| `BinderReplies.PendingIsOutstanding` | src/binderd/server_session.cpp:262-272 | what a session has pending is exactly what was posted to it and not yet answered |
| `BinderReplies.AnsweredAtMostOnce` | src/binderd/server_session.cpp:262-272 | under a cookie one transaction is posted and answered at most once, and pending in between |
| `BinderReplies.PostedBy` | src/binderd/server_session.cpp:247-248 | the record of a pending transaction names the session and the cookie of the message that was posted |
| `BinderReplies.ReplyReachesCaller` | src/binderd/server_session.cpp:262-272 | a reply goes to the session that sent the transaction under the cookie that session gave it, beside the monitor to nobody else; under an unknown cookie it is dropped |
| `BinderDelivery.TargetIs` | src/binderd/server_session.cpp:235-260 | a transaction reaches the session its handle leads to; a handle that the message itself is about to be given leads to its sender |
| `BinderDelivery.DeliveredExactly` | src/binderd/server_session.cpp:124-260 | a transaction is delivered exactly when it can be read, its target is found and every object is of a known type; the status tells which of the three fails |
| `BinderDelivery.PostedIsSent` | src/binderd/server_session.cpp:124-172 | the target of a posted transaction is sent it at once: with the sender's destination and code, under the cookie it is pending under, with the binder and cookie of its own object (none for the context manager), and with the translated objects |
| `BinderDelivery.ReplyComesBack` | src/binderd/server_session.cpp:124-272 | whatever happens in between, the first answer under the cookie of the message the target was sent reaches the session that sent the transaction, under the cookie which that gave it; beside it only the monitor is written to |
| `BinderDelivery.MessageSends` | src/binderd/server_session.cpp:97-373 | everything every session is sent because of one message, in order: the transaction or the reply to its addressee, one status under the sender's cookie, and a log entry for the monitor behind each |
| `BinderDelivery.LeavingSends` | src/binderd/server_session.cpp:66-80 | everything every session is sent because one leaves: the notices of its handles, in the order of the walk and of the references, with the log entries for the monitor |
| `BinderDelivery.GivenOutInOrder` | src/binderd/server_session.cpp:124-125 | cookies count the transactions a session was asked to take, handles count the binders that were exported |
| `BinderDelivery.HandleInOrder` | src/binderd/server_session.cpp:188-196 | the k-th binder of a message gets the k-th handle from the next one on |
| `BinderDelivery.Connecting` | src/binderd/server_session.cpp:45-64 | a session that connects is read from, and has nothing |
| `BinderObjects.TranslateOk` | src/binderd/server_session.cpp:187-219 | translation succeeds exactly when no object has an unknown type |
| `BinderObjects.BinderExported` | src/binderd/server_session.cpp:188-196 | a binder becomes a handle that was never given out before and that leads back to it |
| `BinderObjects.TwoPasses` | src/binderd/server_session.cpp:124-172 | a delivered transaction is translated for its sender and then for its target |
| `BinderObjects.HandleArrives` | src/binderd/server_session.cpp:197-209 | a handle of a third session passes unchanged; one of the target arrives as a weak binder with its cookie and the high half of its binder word; one of the sender arrives, at whatever session, as that of the sender |
| `BinderObjects.BinderArrives` | src/binderd/server_session.cpp:188-196 | a binder sent to another session arrives as a new handle to it |
| `BinderObjects.BinderToSelf` | src/binderd/server_session.cpp:187-209 | a binder that a session sends to itself arrives as a weak binder with its cookie |
| `BinderObjects.HandleIsCut` | src/binderd/server_session.cpp:188-196 | an exported object names its own handle exactly while that fits 32 bits, and an older one after that |
| `BinderObjects.RunKeepsObjects` | src/binderd/server_session.cpp:188-196 | while its session lives an exported object keeps its handle, whatever happens |
| `BinderObjects.ThereAndBack` | src/binderd/server_session.cpp:187-209 | an object that goes out and is sent back by another session comes home as a weak binder with its cookie, whatever happens in between; its binder word is the one that was sent if and only if the low half of that was zero |
| `BinderStalls.StallsExactly` | src/binderd/server_session.cpp:82-95 | a session that is read from stops being read from exactly when it sends what makes a reader throw: a frame out of which no message can be unpacked, or a reference or death message that is too short |
| `BinderStalls.OnlyTheWholeUnpacks` | src/binderd/message.cpp:66-83 | a frame that a message was packed into unpacks; no shorter part of it does if and only if its body has less than 256 bytes |
| `BinderStalls.NeverLeaves` | src/binderd/server_session.cpp:82-95 | such a session stays connected for good: in every later state its handles lead to it, nobody has been told of the death of one, it keeps its slots, and what it had pending is never answered |
| `EventLog.LogContext.CreateLogger` | external/android/log/log_event_list.c:48-68 | a new writing context |
| `EventLog.LogContext.CreateParser` | external/android/log/log_event_list.c:70-86 | a reading context over at most the payload size |
| `EventLog.LogContext.ListBegin` | external/android/log/log_event_list.c:101-134 | the context and code after `android_log_write_list_begin` |
| `EventLog.LogContext.WriteScalar` | external/android/log/log_event_list.c:144-202 | the context and code after writing an integer (also a float, lines 246-270) |
| `EventLog.LogContext.WriteString` | external/android/log/log_event_list.c:204-239 | the context and code after writing a string, cut or not |
| `EventLog.LogContext.ListEnd` | external/android/log/log_event_list.c:272-297 | the context and code after `android_log_write_list_end`; the counter byte is patched in |
| `EventLog.LogContext.WriteList` | external/android/log/log_event_list.c:302-334 | the code, the context and where the message that is handed to the logger starts and how long it is, wherever the position is |
| `EventLog.LogContext.ReadNext` | external/android/log/log_event_list.c:361-529 | the element and the context after a read; a peek leaves the context alone |
| `EventListProofs.EventWritten` | external/android/log/log_event_list.c:101-297 | writing an element succeeds exactly when it fits in bytes and nesting, and then appends its encoding |
| `EventListProofs.AllWritten` | external/android/log/log_event_list.c:101-297 | the same for the elements of a list |
| `EventListProofs.EventRead` | external/android/log/log_event_list.c:361-529 | reading an encoded element, not nested too deep and without a list that is too long, yields its tokens, list stops included, and moves past its bytes |
| `EventListProofs.AllRead` | external/android/log/log_event_list.c:361-529 | the same for the elements of a list |
| `EventListProofs.ListMessageRead` | external/android/log/log_event_list.c:361-529 | the encoding of a list reads back until `complete` when it is nested less deep than the limit and has no list of more than 255 elements |
| `EventListProofs.ListMessageNotRead` | external/android/log/log_event_list.c:361-529 | any other list is not read back, wherever in the tree the depth or the length is too much |
| `EventListProofs.LongLogIsLost` | external/android/log/log_event_list.c:101-529 | 256 numbers, written without a failing call and not read back |
| `EventListProofs.DeepLogIsLost` | external/android/log/log_event_list.c:101-529 | such a log: a number and a number inside eight lists, written without a failing call and not read back |
| `EventListProofs.RoundTrip` | external/android/log/log_event_list.c:302-529 | a log of at least two elements that was written without a failing call reads back as the same tokens up to `complete`, if and only if it is nested less deep than the limit and neither it nor any list in it has more than 255 elements |
| `EventListProofs.SingleListRoundTrip` | external/android/log/log_event_list.c:302-529 | a log of a single list is sent without the root list and reads back as that list, if and only if no list in it has more than 255 elements |
| `EventListProofs.SingleElementRoundTrip` | external/android/log/log_event_list.c:302-529 | a log of one number or string reads back as that element, marked complete |
| `EventListProofs.EmptyRoundTrip` | external/android/log/log_event_list.c:302-529 | a log of nothing reads as the end |
| `EventListProofs.RefusedExactly` | external/android/log/log_event_list.c:101-297 | when each writing call is refused and with which code, and how much of a string is taken |
| `EventListProofs.ReadersDoNotWrite` | external/android/log/log_event_list.c:101-297 | a reading context refuses every writing call and nothing else is answered with EBADF |
| `EventListProofs.FailureSticks` | external/android/log/log_event_list.c:101-297 | after one call that fails nothing is opened or added any more, whatever is called |
| `EventListProofs.Depths` | external/android/log/log_event_list.c:101-297 | how deep each call leaves the context, refused or not |
| `EventListProofs.AcceptedText` | external/android/log/log_event_list.c:204-239 | an accepted string leaves the encoding of as much of it as the code says |
| `EventListProofs.ReaderSticksExactly` | external/android/log/log_event_list.c:412-528 | a reader that is due an element stays where it is, and gives the same for ever, exactly in front of the end, of a cut element and of an unknown type; when it then says that it is complete |
| `EventListProofs.TextIsCut` | external/android/log/log_event_list.c:461-488 | a string read from any bytes has the length that the low half of its length says, or what is left |
| `EventListProofs.StopIsDue` | external/android/log/log_event_list.c:392-411 | a list ends behind its last element, with a stop byte that follows; it is complete if that was the last list |
| `EventListProofs.EarlyStop` | external/android/log/log_event_list.c:511-523 | a stop byte ends the list it is in; outside all lists it is the last, unknown element |
| `EventListProofs.NothingToRead` | external/android/log/log_event_list.c:371-385 | a context that cannot be read is complete at once |
| `EventListProofs.LongMessageIsCut` | external/android/log/log_event_list.c:80-82 | a message is read up to the payload size |
| `EventListProofs.MessageInStorage` | external/android/log/log_event_list.c:204-331 | after any calls on a new context the message lies within the storage if and only if no string was accepted, cut short, whose uncut end is past it |
| `EventListProofs.LongestIsCut` | external/android/log/log_event_list.c:204-244 | the longest string of the plain call is such a string |
| `ParcelBuffer.OwnedParcel.ContinueWrite` | external/android/binder/Parcel.cpp:2380-2536 | size, position and capacity after `continueWrite` in a parcel without an owner and without objects; what the buffer held is unchanged |
| `ParcelBuffer.OwnedParcel.GrowData` | external/android/binder/Parcel.cpp:2317-2329 | the same for `growData` |
| `ParcelBuffer.OwnedParcel.FinishWrite` | external/android/binder/Parcel.cpp:683-700 | position and size move on |
| `ParcelBuffer.OwnedParcel.WriteAligned` | external/android/binder/Parcel.cpp:1433-1445 | the parcel and status after `writeAligned`, from every position from which the write stays inside the buffer |
| `ParcelBuffer.OwnedParcel.WriteInplace` | external/android/binder/Parcel.cpp:743-787 | room with zeroed padding, within the data and behind it: whatever payload the caller copies there, the parcel is the one with the padded payload |
| `ParcelBuffer.OwnedParcel.WriteBytes` | external/android/binder/Parcel.cpp:727-741 | the parcel and status after `write`, within the data and behind it; it reports success also when nothing was written |
| `ParcelBuffer.OwnedParcel.WriteInt32` | external/android/binder/Parcel.cpp:957-960 | the parcel and status; behind the data, what the buffer held up to the position becomes data |
| `ParcelBuffer.OwnedParcel.WriteInt64` | external/android/binder/Parcel.cpp:1015-1018 | the parcel and status; behind the data, what the buffer held up to the position becomes data |
| `ParcelBuffer.OwnedParcel.WriteString8` | external/android/binder/Parcel.cpp:1061-1071 | the parcel and status; behind the data, what the buffer held up to the position becomes data; an empty string has no payload |
| `ParcelBuffer.OwnedParcel.WriteString16` | external/android/binder/Parcel.cpp:1087-1103 | the parcel and status; behind the data, what the buffer held up to the position becomes data |
| `ParcelBuffer.OwnedParcel.WriteByteVector` | external/android/binder/Parcel.cpp:822-844 | the parcel and status; behind the data, what the buffer held up to the position becomes data |
| `ParcelBuffer.OwnedParcel.ReadAligned` | external/android/binder/Parcel.cpp:1408-1429 | value, position and status |
| `ParcelBuffer.OwnedParcel.ReadInplace` | external/android/binder/Parcel.cpp:1390-1406 | the payload in the buffer and the padded position |
| `ParcelBuffer.OwnedParcel.ReadString8` | external/android/binder/Parcel.cpp:1849-1858 | value and position |
| `ParcelBuffer.OwnedParcel.ReadString16` | external/android/binder/Parcel.cpp:1892-1918 | value, position and status |
| `ParcelBuffer.OwnedParcel.ReadByteVector` | external/android/binder/Parcel.cpp:1449-1479 | value, position and status |
| `ParcelProofs.GrowthLeavesRoom` | external/android/binder/Parcel.cpp:2317-2536 | from a position within the data growth succeeds exactly below 2^31 and then leaves room for the pending write |
| `ParcelProofs.RoomExactly` | external/android/binder/Parcel.cpp:2317-2536 | from any position, a growth that succeeds leaves room for the pending write if and only if the buffer is new, or the new capacity reaches the end of the write, or the capacity stays and the position is pulled back far enough |
| `ParcelProofs.NoRoomBehindData` | external/android/binder/Parcel.cpp:2317-2536 | a position behind the data from which a growth succeeds and leaves too little room, for either reason |
| `ParcelProofs.GrowthAnswers` | external/android/binder/Parcel.cpp:2317-2329 | when a growth fails and with which status; it then changes nothing |
| `ParcelProofs.SafeExactly` | external/android/binder/Parcel.cpp:1433-1445 | from which positions a write stays inside the buffer |
| `ParcelProofs.StoredAt` | external/android/binder/Parcel.cpp:1433-1445 | a write within the data or across its end puts its bytes at the position and leaves those in front of and behind them |
| `ParcelProofs.PaddedWithZeros` | external/android/binder/Parcel.cpp:743-785 | padding is zeros, as few as make whole words |
| `ParcelProofs.ItemAtEnd` | external/android/binder/Parcel.cpp:683-1103 | each writer appends the whole encoding exactly when it fits; when it does not, it reports an error or, for a string, silently leaves the payload away |
| `ParcelProofs.ItemMisfits` | external/android/binder/Parcel.cpp:683-1103 | what is left in the parcel of an item that does not fit, and when the writer says so |
| `ParcelProofs.ReadersAnswer` | external/android/binder/Parcel.cpp:1390-1918 | on any bytes: when each reader fails, and with which status |
| `ParcelProofs.WholeExactlyIfFits` | external/android/binder/Parcel.cpp:683-1103 | a sequence of writes reports success with all bytes written if and only if every growth on the way stays below 2^31 |
| `ParcelProofs.SmallFits` | external/android/binder/Parcel.cpp:2317-2329 | it does whenever one and a half times the total stays below 2^31 |
| `ParcelProofs.ItemRead` | external/android/binder/Parcel.cpp:1390-1918 | a reader gives back what the writer of its kind encoded and lands behind the padding |
| `ParcelProofs.RoundTrip` | external/android/binder/Parcel.cpp:683-1918 | any sequence of writes to an empty parcel is read back from position 0 with equal values and the positions in step, if and only if it fits |
| `ParcelProofs.LongStringIsLost` | external/android/binder/Parcel.cpp:1087-1103 | a String16 of 2^30 units is reported as written and is not |
| `PersistableBundles.PersistableBundle.Erase` | external/android/binder/PersistableBundle.cpp:152-164 | removes the key from the first map that has it |
| `PersistableBundles.PersistableBundle.Put` | external/android/binder/PersistableBundle.cpp:166-219 | erase, then assignment in the map of the value's type |
| `PersistableBundles.PersistableBundle.WriteToParcel` | external/android/binder/PersistableBundle.cpp:88-118 | at the end of a parcel: success means that the whole encoding was appended if it fits and too little otherwise, so that reading it gives the bundle if and only if it fits; an error means that it does not fit |
| `PersistableBundles.PersistableBundle.ReadFromParcel` | external/android/binder/PersistableBundle.cpp:120-132 | status, position and, on success, the maps |
| `PersistableBundles.WriteEntries` | external/android/binder/PersistableBundle.cpp:265-336 | the loops over the maps append the entries in map order, in key order within a map |
| `PersistableBundles.WriteVector` | external/android/include/binder/Parcel.h:648-670 | the length and then each element of a typed vector |
| `PersistableBundles.Backpatch` | external/android/binder/PersistableBundle.cpp:104-117 | the length is filled in and nothing else moves |
| `PersistableBundles.ReadAllEntries` | external/android/binder/PersistableBundle.cpp:338-430 | the loop over the entries |
| `PersistableBundles.ReadNumberVector` | external/android/include/binder/Parcel.h:582-616 | the elements of a typed vector |
| `BundleProofs.ErasedFrom` | external/android/binder/PersistableBundle.cpp:152-164 | while keys are in one map each, erasing forgets a key altogether and counts it |
| `BundleProofs.PutKeepsOneKind` | external/android/binder/PersistableBundle.cpp:166-219 | `put*` keeps every key in at most one of the eleven maps and acts like one map from keys to values |
| `BundleProofs.GetAfterEdits` | external/android/binder/PersistableBundle.cpp:152-263 | after any puts and erases a getter finds the value of the last put of its key, if that had the getter's type and the key was not erased since, and nothing otherwise |
| `BundleProofs.EraseForgetsExactly` | external/android/binder/PersistableBundle.cpp:152-164 | in any maps, `erase` forgets a key if and only if at most one map has it |
| `BundleProofs.PutReplacesExactly` | external/android/binder/PersistableBundle.cpp:166-219 | in any maps, `put*` leaves a key in the map of the value's type alone if and only if every map that has the key, but the first, is that one |
| `BundleProofs.ReadHoldsKeyTwice` | external/android/binder/PersistableBundle.cpp:338-430 | data that is read without an error into a bundle with a key in two maps; the key survives an erase and a put of another type |
| `BundleProofs.BundleRead` | external/android/binder/PersistableBundle.cpp:120-132 | reading an encoded bundle of any nesting into an empty bundle gives the bundle and consumes exactly its bytes |
| `BundleProofs.BundleReadInto` | external/android/binder/PersistableBundle.cpp:120-430 | reading it into a bundle that holds entries merges the two: an entry replaces the one under its key in its map, and a bundle is itself read into the bundle that is there, at any depth |
| `BundleProofs.OrderIsSorted` | external/android/binder/PersistableBundle.cpp:265-336 | entries are written map by map, and within a map in the order of the keys |
| `BundleProofs.EntryStarts` | external/android/binder/PersistableBundle.cpp:43-53 | an entry is its key, the tag of its type and its value; the tags and the order of the maps |
| `BundleProofs.BundleStarts` | external/android/binder/PersistableBundle.cpp:88-118 | a bundle is the number of bytes behind the next word, the magic word and the number of entries in front of these |
| `BundleProofs.BoolsAreWords` | external/android/binder/PersistableBundle.cpp:304-309 | a vector of truth values is its length and a 1 or 0 for each |
| `BundleProofs.HeaderDecides` | external/android/binder/PersistableBundle.cpp:120-132 | on any bytes: which first words are refused, as what, and which end the reading at once |
| `BundleProofs.NonzeroIsTrue` | external/android/binder/PersistableBundle.cpp:393-396 | any number but zero is read as true |
| `BundleProofs.NonzeroAreTrue` | external/android/binder/PersistableBundle.cpp:409-412 | so are those of a vector |
| `BundleLoss.LostIsNotRead` | external/android/binder/PersistableBundle.cpp:88-430 | a bundle of any nesting whose encoding did not fit is not read back as that bundle, wherever the reader ends |
| `BundleLoss.BundleRoundTrip` | external/android/binder/PersistableBundle.cpp:88-430 | what a write that reported success leaves at the end of a parcel is read into an empty bundle as the bundle if and only if its encoding fits, and then exactly its bytes are consumed |
| `BundleLoss.EmptyIsReadForFree` | external/android/binder/PersistableBundle.cpp:120-132 | an empty bundle in a bundle can be read behind the end of the data: without its last four bytes this bundle still comes back |
| `LeadBytes.ShiftedLengthIsTable` | external/android/cutils/strdup8to16.c:30 | the shift by the top bits is the table of UTF-8 lead bytes |
| `JString.Strlen8to16` | external/android/cutils/strdup8to16.c:68-99 | the count |
| `JString.GetUtf32FromUtf8` | external/android/cutils/strdup8to16.c:112-143 | the code point, or the replacement, and where the next sequence starts |
| `JString.Strcpy8to16` | external/android/cutils/strdup8to16.c:151-177 | the decoded units are written to a buffer of the counted size and nothing behind them (`JString.SupplementaryIsPair`, `SequenceDecoded`, `StrayReplaced` and `OthersAreOne` say which) |
| `JString.SupplementaryIsPair` | external/android/cutils/strdup8to16.c:163-168 | every supplementary code point up to 0x10fffd, in four bytes, becomes its surrogate pair, the high one first |
| `JString.SequenceDecoded` | external/android/cutils/strdup8to16.c:112-143 | a lead byte with the continuation bytes behind it: all it announces make the code point of their six-bit groups, fewer the replacement, and the next sequence starts behind them |
| `JString.StrayReplaced` | external/android/cutils/strdup8to16.c:121-125 | a continuation byte that nothing announces is replaced on its own |
| `JString.OthersAreOne` | external/android/cutils/strdup8to16.c:161-171 | any other code point is its unit, or the replacement if it is too large |
| `JString.CountedIsWritten` | external/android/cutils/strdup8to16.c:68-177 | the count is what is written and one more for each four-byte lead without a representable supplementary code point, for every byte string |
| `JString.BufferIsLargeEnough` | external/android/cutils/strdup8to16.c:68-177 | never more is written than counted, and as much exactly when every four-byte lead decodes to a supplementary code point up to 0x10fffd |
| `JString.Strnlen16to8` | external/android/cutils/strdup16to8.c:29-94 | the length of the encoding, or SIZE_MAX - 1 when no smaller size_t can hold it, on both paths |
| `JString.Strncpy16to8` | external/android/cutils/strdup16to8.c:109-140 | the encoding and its terminator |
| `JString.EncodedIsText` | external/android/cutils/strdup16to8.c:109-140 | the encoding holds no zero byte |
| `JString.RoundTrip` | external/android/cutils/strdup16to8.c:109-140 | every sequence of units, with zeros and unpaired surrogates, comes back (modified UTF-8, section 4.4.7 of the Java Virtual Machine Specification) |
| `RecordStreams.RecordStream.GetEndOfRecord` | external/android/cutils/record_stream.c:73-93 | where a full record in the buffer ends |
| `RecordStreams.RecordStream.GetNextRecord` | external/android/cutils/record_stream.c:95-112 | the record is taken out of the buffered bytes |
| `RecordStreams.RecordStream.Compact` | external/android/cutils/record_stream.c:153-164 | the buffered bytes are at the start of the buffer, unchanged |
| `RecordStreams.RecordStream.GetNext` | external/android/cutils/record_stream.c:127-186 | the state and outcome of one call |
| `RecordStreams.FirstRecord` | external/android/cutils/record_stream.c:73-93 | the beginning of a stream holds a full record exactly when it is as long as the first |
| `RecordStreams.NextKeepsHolds` | external/android/cutils/record_stream.c:127-186 | what is buffered and what is to come always encode the records not yet returned; EFBIG is returned exactly when the buffer has filled up in front of a record that is too long |
| `RecordStreams.EndSaysWhy` | external/android/cutils/record_stream.c:127-186 | the stream ends exactly when `read` gives nothing or an error, with its code, and nothing buffered is lost |
| `RecordStreams.RunReturnsRecords` | external/android/cutils/record_stream.c:127-186 | however the stream is cut and however long the records are, they come out in order, nothing is lost, and EFBIG is reached only in front of the first that is too long |
| `RecordStreams.AllReturned` | external/android/cutils/record_stream.c:127-186 | enough calls whose reads are not empty before the end return all records up to the first that is too long, and end in EFBIG if and only if there is one |
| `HashMaps.Create` | external/android/cutils/hashmap.c:43-75 | the smallest power of two above four thirds of the capacity as bucket count, all buckets empty |
| `HashMaps.Hashmap.Get` | external/android/cutils/hashmap.c:228-241 | the value the table holds for the key |
| `HashMaps.Hashmap.ContainsKey` | external/android/cutils/hashmap.c:243-256 | whether it holds one |
| `HashMaps.Hashmap.Put` | external/android/cutils/hashmap.c:196-226 | the previous value, the new table, expanded when the load asks for it, and the size |
| `HashMaps.Hashmap.Remove` | external/android/cutils/hashmap.c:291-311 | the previous value, the table without the entry and the size |
| `HashMaps.Hashmap.ExpandIfNecessary` | external/android/cutils/hashmap.c:104-133 | relinking every entry into a new array gives the rehashed table |
| `HashMaps.Hashmap.MoveAll` | external/android/cutils/hashmap.c:116-127 | the two loops over buckets and chains |
| `HashMaps.Hashmap.ForEach` | external/android/cutils/hashmap.c:313-327 | every entry is visited in bucket order until the callback has enough |
| `HashMapProofs.GetFindsEntry` | external/android/cutils/hashmap.c:228-241 | a lookup finds the one entry of the table whose key is the same |
| `HashMapProofs.PutKeepsOk` | external/android/cutils/hashmap.c:196-226 | entries stay in the bucket their masked hash names, keys stay unique, the entry total grows by one exactly for a new key |
| `HashMapProofs.GetAfterPut` | external/android/cutils/hashmap.c:196-226 | a put changes the answer for keys that are the same and for no other |
| `HashMapProofs.RemoveKeepsOk` | external/android/cutils/hashmap.c:291-311 | the same for a removal |
| `HashMapProofs.GetAfterRemove` | external/android/cutils/hashmap.c:291-311 | a removal forgets the keys that are the same and no other |
| `HashMapProofs.RehashKeepsMap` | external/android/cutils/hashmap.c:104-133 | rehashing into any number of buckets keeps placement, uniqueness, total and every answer |
| `HashMapProofs.RunRefines` | external/android/cutils/hashmap.c:196-311 | after any operations with the expansions they cause, every answer is that of a mathematical map, for any `equals` that is an equivalence respected by `hash` |
| `HashMapProofs.SameIsEquals` | external/android/cutils/hashmap.c:185-194 | keys that are the same are those that `equals` says are equal |
| `HashMapProofs.MixedExamples` | external/android/cutils/hashmap.c:83-94 | values of the secondary hash |
| `HashMapCapacity.BucketsArePowers` | external/android/cutils/hashmap.c:104-133 | from its creation on and through all operations a map has a power of two of buckets, never fewer |
| `HashMapCapacity.IndexIsMask` | external/android/cutils/hashmap.c:100-102 | the index of a hash is what the mask leaves of its sign-extended bits |
| `HashMapCapacity.StaysSmall` | external/android/cutils/hashmap.c:104-106 | a map does not grow while no more different keys are in use than three quarters of its buckets |
| `HashMapCapacity.Grows` | external/android/cutils/hashmap.c:104-133 | puts of more different keys make it grow, unless it has 2^60 buckets |
| `HashMapCapacity.NoMapBetween` | external/android/cutils/hashmap.c:53-67 | no map can be allocated for a capacity from 3 * 2^58 up to 2^62 |
| `HashMapCapacity.CapacityHolds` | external/android/cutils/hashmap.c:53-106 | over every run of operations on as many different keys as the capacity, a created map never grows if and only if the capacity is below 3 * 2^58 or the map has 2^60 buckets |
| `HashMapCapacity.FirstBrokenCapacity` | external/android/cutils/hashmap.c:53-59 | for a capacity of 2^62 a map gets one bucket, and the first put doubles it |
| `SafeIop.Limits` | external/android/include/safe_iop.h:79-83 | the bit tricks give the limits of the type at every width |
| `SafeIop.SameTypeExactly` | external/android/include/safe_iop.h:85-90 | `type_enforce` accepts exactly operands of one type |
| `SafeIop.TruncatingDivision` | external/android/include/safe_iop.h:428-461 | the quotient and remainder of C |
| `SafeIop.DivisionFits` | external/android/include/safe_iop.h:428-461 | a division has a result in range exactly for a nonzero divisor and not for the least value by -1 |
| `SafeIop.SignedProduct` | external/android/include/safe_iop.h:398-425 | the four comparisons of `safe_smul` decide whether the product is in range |
| `SafeIop.SafeUadd` | external/android/include/safe_iop.h:356-361 | succeeds exactly when the sum is in range |
| `SafeIop.SafeSadd` | external/android/include/safe_iop.h:363-371 | the same, and no intermediate result overflows |
| `SafeIop.SafeUsub` | external/android/include/safe_iop.h:373-379 | succeeds exactly when the difference is in range |
| `SafeIop.SafeSsub` | external/android/include/safe_iop.h:381-388 | the same, and no intermediate result overflows |
| `SafeIop.SafeUmul` | external/android/include/safe_iop.h:390-396 | succeeds exactly when the product is in range |
| `SafeIop.SafeSmul` | external/android/include/safe_iop.h:398-425 | succeeds exactly when the product is in range |
| `SafeIop.SafeDivide` | external/android/include/safe_iop.h:428-461 | succeeds exactly for a defined division |
| `SafeIop.Safe` | external/android/include/safe_iop.h:106-322 | an operation succeeds if and only if the types agree and the result fits, and only then writes through the pointer |
| `SafeIop.Safe3` | external/android/include/safe_iop.h:125-131 | a chain of three succeeds if and only if every prefix has a result in range, and then gives the result |
| `SafeIop.Safe4` | external/android/include/safe_iop.h:133-141 | the same for four |
| `SafeIop.Safe5` | external/android/include/safe_iop.h:143-153 | the same for five |
| `Proxies.BpBinder.LinkToDeath` | external/android/binder/BpBinder.cpp:174-205 | the state and status after a link |
| `Proxies.BpBinder.UnlinkToDeath` | external/android/binder/BpBinder.cpp:208-241 | the state and status after an unlink: the first match goes (`DeathLinks.UnlinkTakesFirst` says which) |
| `Proxies.BpBinder.CheckSent` | external/android/binder/BpBinder.cpp:248-249 | the unlocked test |
| `Proxies.BpBinder.TakeObituaries` | external/android/binder/BpBinder.cpp:251-262 | the critical section of `sendObituary` |
| `Proxies.BpBinder.SendObituary` | external/android/binder/BpBinder.cpp:243-274 | undisturbed, it reports each waiting recipient once, clears the notice and empties the list |
| `DeathLinks.RunKeepsInv` | external/android/binder/BpBinder.cpp:174-284 | every interleaving keeps the account of links and the balance of notices |
| `DeathLinks.ReportedExactlyOnce` | external/android/binder/BpBinder.cpp:243-274 | when the death was announced and no thread is inside any more, exactly the links that were not undone have been reported, each once, however many threads raced |
| `DeathLinks.NeverReportedTwice` | external/android/binder/BpBinder.cpp:243-274 | at no moment is anything reported more often than it is linked |
| `DeathLinks.NoticesBalance` | external/android/binder/BpBinder.cpp:174-337 | outside the lock requests exceed clears by one while the list exists and match otherwise; after the destructor they match |
| `DeathLinks.NothingLinksAfterwards` | external/android/binder/BpBinder.cpp:186-204 | after the death no link or unlink succeeds, whatever follows |
| `DeathLinks.UnlinkTakesFirst` | external/android/binder/BpBinder.cpp:208-241 | before the death an unlink takes out the first link with the recipient and flags that are given, without a recipient the first with the cookie and flags, and nothing else; it answers NAME_NOT_FOUND exactly when there is none |
| `DeathLinks.LinkWaits` | external/android/binder/BpBinder.cpp:174-206 | before the death a link succeeds and waits behind the others, after it is refused |
| `DeathLinks.AliveExactly` | external/android/binder/BpBinder.cpp:131-134 | a proxy says that its object is alive exactly until somebody reports or learns of the death |
| `DeathLinks.ThreadFinishes` | external/android/binder/BpBinder.cpp:248-273 | in any interleaving a thread that has entered takes the lock on its first turn, reports one of the obituaries it took on each of the next, and is out after one more, when all of them have been reported; and not before |
| `DeathLinks.AllAreReported` | external/android/binder/BpBinder.cpp:243-274 | once the death was announced, any continuation that gives the threads inside enough turns empties the proxy of threads, and exactly the links that were not undone have been reported, each once |
| `ObjectTranslation.CookieLeadsBack` | src/binderd/object_translator.cpp:27-32 | the id an address was given leads back to it, and the address to the id, in any later table |
| `ObjectTranslation.AddressLeadsBack` | src/binderd/object_translator.cpp:27-32 | a cookie is the id of what it leads to exactly when it is in the table, or it is 0 and null has no id |
| `ObjectTranslation.ObjectTranslator.TranslateObject` | src/binderd/object_translator.cpp:116-122 | the id of an address, or 0, whatever the order of the table |
| `ObjectTranslation.ObjectTranslator.TranslateOrAddObject` | src/binderd/object_translator.cpp:124-132 | the id of an address and the table, extended if need be |
| `ObjectTranslation.ObjectTranslator.ProcessBinderObject` | src/binderd/object_translator.cpp:78-114 | one binder object rewritten in place |
| `ObjectTranslation.ObjectTranslator.ProcessTransaction` | src/binderd/object_translator.cpp:34-76 | the cursor loop rewrites all objects up to the first that is refused |
| `ObjectTranslation.PassKeepsInjection` | src/binderd/object_translator.cpp:34-132 | the table stays an injection from nonzero ids and only grows, however a pass ends |
| `ObjectTranslation.AcceptedExactly` | src/binderd/object_translator.cpp:43-73 | a pass is refused exactly for an unknown type, or on the way in for a cookie that is no id |
| `ObjectTranslation.StopsAt` | src/binderd/object_translator.cpp:43-73 | a refused pass stops at the first object that is refused; that and all behind it stay as they are, those in front of it have been rewritten, and the status tells the reason |
| `ObjectTranslation.IdsInOrder` | src/binderd/object_translator.cpp:124-132 | the ids that have been given out are exactly those from 1 to below the next one |
| `ObjectTranslation.InUndoesOut` | src/binderd/object_translator.cpp:78-114 | going in undoes going out in any later table |
| `ObjectTranslation.ThereAndBack` | src/binderd/object_translator.cpp:34-132 | what goes out comes back as it was, whatever other translations happen in between |
| `ObjectTranslation.OutUndoesIn` | src/binderd/object_translator.cpp:78-114 | what came in goes out under the same ids |
| `ObjectSearch.ReceivedParcel.constructor` | external/android/binder/Parcel.cpp:2201-2229 | the table is kept exactly when the check accepts it |
| `ObjectSearch.ReceivedParcel.ReadObject` | external/android/binder/Parcel.cpp:2103-2162 | the two loops from the hint find what `Search` finds, and the hint moves behind it |
| `ObjectSearch.AcceptedMeansSpaced` | external/android/binder/Parcel.cpp:2218-2227 | objects of an accepted table do not overlap if and only if no offset but the last wraps |
| `ObjectSearch.SearchIsMembershipExactly` | external/android/binder/Parcel.cpp:2118-2156 | for every accepted table the hinted search equals membership, for every hint, if and only if every offset within the data is the first one not greater than itself when looking back from the last index and from each index whose offset wraps |
| `ObjectSearch.DistinctIsTame` | external/android/binder/Parcel.cpp:2118-2156 | without repeated offsets that says that no offset within the data comes behind one that wraps |
| `ObjectSearch.RepeatedIsSeen` | external/android/binder/Parcel.cpp:2118-2156 | an accepted table with a repeated offset that is found from every hint although it comes behind one that wraps |
| `ObjectSearch.SpacedIsMembership` | external/android/binder/Parcel.cpp:2118-2156 | for objects that do not overlap it does |
| `ObjectSearch.WrappedTable` | external/android/binder/Parcel.cpp:2218-2227 | an accepted table in which the search misses an object |

## Left out

- ParcelBuffer.OwnedParcel.ContinueWrite: the branch that takes over the buffer of an owner and the trimming of objects belong to parcels that are not modelled.
- PersistableBundles.PersistableBundle.WriteToParcel: from a position that is the end of the data, as in a parcel that is being built; over existing data the length and the entries would replace what is there.
- PersistableBundles.PersistableBundle.ReadFromParcel: what a failed read leaves in the maps is not modelled; for a bool it is indeterminate (external/android/binder/Parcel.cpp:1752-1758).
- Parcels with objects, file descriptors or an owner's release function, and the reference counts of `acquire_object` and `release_object`.
- Sockets, threads, asio, mmap and ashmem, logging, properties, the command line, process and scheduler glue.
- How the fields of a server message are taken from its bytes: beyond `BinderSpec.Unpackable` a message is what was read from it. (`BinaryReader::ReadValue`, src/binderd/common/binary_reader.cpp:78-87, takes a number from its first byte alone.) What follows in the same frame behind a message whose reader throws is lost with it.
- Strings of 2^32 bytes and more in an event list, for which the 32-bit position would wrap.
- Payload bytes outside of objects, object offsets above 255 (only the first byte of an offset is read) and two offsets naming one object.
- Races on the registry, which has no locks, and 64-bit counters that wrap.
- `client_impl.cpp`: calls and incoming transactions share one cookie space there.
- The other formats of Parcel (floats, C strings, UTF-8 as UTF-16, nullable vectors) and of the event list's `write_string8_len` with an explicit length; they repeat the modelled ones.
- The interface stubs, forwarding wrappers and `hashmapMemoize`, `hashmapCountCollisions`, `strcpylen8to16`: nothing harder than what is here.
