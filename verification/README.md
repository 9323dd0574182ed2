# A verified model of ipcpp

ipcpp lets processes exchange messages through shared memory. This project
models its core in Dafny and proves what it is built to guarantee:

* **Real-time publish/subscribe** (`RealTimeLayout`, `RealTimeTopic`,
  `RealTimeSafety`, `RealTimeEndpoints`). Publishers own areas of reference
  counted slots; subscribers hold messages under a credit. Publishing, fetching,
  releasing, moving, joining and leaving are the steps of a state machine over
  any number of endpoints; the classes of `RealTimeEndpoints` are proved to
  perform those steps.
* **The shared-memory pool** (`ChunkList`, `PoolAllocator`) and the **vector**
  on it (`Vector`). The pool's linked node records are proved to implement
  operations on a list of chunks, and the vector to be a sequence that touches
  only its own chunk.
* **FIFO messages and the shared spin lock** (`FifoMessage`, `SharedMutex`), one
  step per atomic operation, any number of threads, stale loads included.
* **The FIFO topic** (`FifoTopic`, `FifoEndpoints`): what a subscriber receives,
  exactly when a message is lost, and when a value is reset. `FifoRefinement`
  ties its steps to the atomic operations of `FifoMessage`.
* **The heap-node allocator** (`HeapAllocator`), the **ring queue**
  (`RingQueue`) and the **bit tricks** (`Numeric`) under all of them.
  `Counting` counts map entries.

Invariants are predicates named `Inv`, `Valid` or `WellFormed`; every step and
every method is proved to keep them, and `RunKeeps` lifts that to whole runs.
Widths and header sizes are symbolic.

## Results that differ from the documentation

* `is_power_of_two` also accepts 0 (`Numeric.IsPowerOfTwoExact`).
* `ceil_to_power_of_two` has no defined value above the top power of the word
  (`Numeric.CeilIsLeast`); the pool size is right exactly up to there
  (`RealTimeLayout.PoolSizeExact`).
* The test in `init_at` that the slot indices fit their type never fails, since
  the product has wrapped before it (`RealTimeLayout.CapacityTestNeverRejects`).
* The comment on `try_lock_shared` promises that one of the retries works unless
  a writer interferes. That is proved, and the exception is exact: an admitted
  reader is denied if and only if the writer of the very same value has not
  unlocked yet (`FifoMessage.LockDeniedOnlyByWriter`, with a concrete run in
  `FifoMessage.DeniedBeforeUnlock`). Such a denied reader is never counted out,
  so the value is then not reset in that generation
  (`FifoMessage.ResetExactlyOnce`).
* A fetch that is refused for lack of credit marks the publication as seen, so
  that it is never fetched later (`RealTimeSafety.NothingTwice`), and a
  subscriber that missed exactly a multiple of the counter's range of
  publications sees none (`RealTimeSafety.FetchExact`).
* Popping from an empty ring queue leaves a queue that claims to hold all but one
  of its places (`RingQueue.FixedSizeQueue.PopFront`).

## Model

| member | source | states |
|---|---|---|
| `RealTimeSafety.PublishNeverStalls` | include/ipcpp/publish_subscribe/real_time/real_time_publisher.h:86-97 | In every state a publisher's probing meets a dead slot within as many probes as its area has slots, also when its 32-bit id wraps |
| `RealTimeSafety.LiveBounded` | include/ipcpp/publish_subscribe/real_time/real_time_memory_layout.h:112-117 | With S subscribers of A credits an area has at most S * A + 1 live slots |
| `RealTimeSafety.DeadSlotExists` | include/ipcpp/publish_subscribe/real_time/real_time_publisher.h:90-97 | So every area holds a slot with the invalid id |
| `RealTimeSafety.HandlesBounded` | include/ipcpp/publish_subscribe/real_time/real_time_subscriber.h:142-149 | All subscribers together hold at most S * A messages |
| `RealTimeSafety.HeldValueStable` | include/ipcpp/publish_subscribe/real_time/real_time_message.h:48-61 | Over every continuation in which a handle is not released or moved, the value seen through it is the one that was acquired |
| `RealTimeSafety.SeenIsPublished` | include/ipcpp/publish_subscribe/real_time/real_time_subscriber.h:135-154 | A handle shows exactly the publication it was handed out for |
| `RealTimeSafety.Conservation` | include/ipcpp/publish_subscribe/real_time/real_time_message.h:48-61 | On every run: counter = handles + retained references; counter > 0 iff value present iff id valid; credits + held handles = the configured limit |
| `RealTimeSafety.FetchExact` | include/ipcpp/publish_subscribe/real_time/real_time_subscriber.h:135-154 | A fetch delivers iff the number of new publications is no multiple of the counter's range, the announced slot is live and a credit is left; it then delivers the globally last publication |
| `RealTimeSafety.ReceivedInOrder` | include/ipcpp/publish_subscribe/real_time/real_time_subscriber.h:135-154 | On every run a subscriber's received publications strictly increase, without duplicates |
| `RealTimeSafety.PublishEffect` | include/ipcpp/publish_subscribe/real_time/real_time_publisher.h:98-103 | A publication of v logs v, leaves the announced slot holding v with its publisher's one reference, and takes that reference from the message before; nothing else changes |
| `RealTimeSafety.PublishedIsFetched` | include/ipcpp/publish_subscribe/real_time/real_time_publisher.h:98-103 | After p published v and any run without another publication or p's leaving, a subscriber with a credit to which it is news fetches v |
| `RealTimeSafety.FetchEffect` | include/ipcpp/publish_subscribe/real_time/real_time_subscriber.h:135-154 | What each of the four cases of a fetch changes; a refusal for lack of credit marks the news as seen and nothing else |
| `RealTimeSafety.NothingTwice` | include/ipcpp/publish_subscribe/real_time/real_time_subscriber.h:135-149 | After a delivered or a refused fetch every further fetch finds no message until somebody publishes, whatever is released meanwhile |
| `RealTimeSafety.ReleaseEffect` | include/ipcpp/publish_subscribe/real_time/real_time_subscriber.h:60-66 | Releasing a handle takes one reference, resets the slot with the last one, and gives its owner one credit |
| `RealTimeSafety.LeaveEffect` | include/ipcpp/publish_subscribe/real_time/real_time_message.h:31-33 | A leaving publisher takes only its own reference with it |
| `RealTimeSafety.AnnouncedWhilePublisherStays` | include/ipcpp/publish_subscribe/real_time/real_time_publisher.h:98-105 | The announced slot is live as long as its publisher retains it |
| `RealTimeSafety.AnnouncedAlwaysLive` | include/ipcpp/publish_subscribe/real_time/real_time_publisher.h:98-105 | On every run in which no publisher leaves, the announced slot is live once anything was published |
| `RealTimeSafety.InitialInv` | include/ipcpp/publish_subscribe/real_time/real_time_memory_layout.h:70-87 | The freshly initialised buffer satisfies the protocol invariant |
| `RealTimeSafety.StepKeeps` | include/ipcpp/publish_subscribe/real_time/real_time_publisher.h:86-106 | Every step (publish, fetch, release, move, join, leave) keeps the protocol invariant |
| `RealTimeSafety.PublishKeeps` | include/ipcpp/publish_subscribe/real_time/real_time_publisher.h:86-106 | Publishing keeps it: the new slot was unreferenced and the previous reference is handed over |
| `RealTimeSafety.FetchKeeps` | include/ipcpp/publish_subscribe/real_time/real_time_subscriber.h:135-154 | Fetching keeps it, in all four outcomes |
| `RealTimeSafety.RefusedFetchKeepsSlots` | include/ipcpp/publish_subscribe/real_time/real_time_subscriber.h:138-150 | A fetch that hands out nothing leaves every slot as it was, although it counted up first |
| `RealTimeSafety.ReleaseKeeps` | include/ipcpp/publish_subscribe/real_time/real_time_subscriber.h:60-66 | Releasing a handle returns its reference and its credit and keeps the invariant |
| `RealTimeSafety.MoveKeeps` | include/ipcpp/publish_subscribe/real_time/real_time_subscriber.h:69-71 | Move construction changes no count |
| `RealTimeSafety.JoinPublisherKeeps` | include/ipcpp/publish_subscribe/real_time/real_time_publisher.h:109-125 | A publisher may join on an area that still holds referenced messages |
| `RealTimeSafety.LeavePublisherKeeps` | include/ipcpp/publish_subscribe/real_time/real_time_message.h:31-33 | A leaving publisher gives up the message it retained |
| `RealTimeSafety.RunKeeps` | include/ipcpp/publish_subscribe/real_time/real_time_publisher.h:86-106 | The invariant holds after every run of any number of publishers and subscribers |
| `RealTimeTopic.PublishReady` | include/ipcpp/publish_subscribe/real_time/real_time_publisher.h:90-103 | The slot the probing stops at lies in the publisher's own area, has no reference and is not the retained one |
| `RealTimeTopic.HandleLive` | include/ipcpp/publish_subscribe/real_time/real_time_message.h:48-56 | The slot under a handle is referenced |
| `RealTimeEndpoints.RealTimePublisher.Publish` | include/ipcpp/publish_subscribe/real_time/real_time_publisher.h:86-106 | The method terminates, the announced slot then holds v with one reference, and the objects mirror the successor state of the publish step |
| `RealTimeEndpoints.RealTimePublisher.PublishAt` | include/ipcpp/publish_subscribe/real_time/real_time_publisher.h:99-103 | The slot found holds v with one reference and is announced and retained; the message before loses one reference |
| `RealTimeEndpoints.RealTimePublisher.Leave` | include/ipcpp/publish_subscribe/real_time/real_time_message.h:31-33 | The destructor of the retained access mirrors the leave step |
| `RealTimeEndpoints.RealTimePublisher.Probe` | include/ipcpp/publish_subscribe/real_time/real_time_publisher.h:90-97 | The search loop stops at the first dead slot and leaves the wrapped id behind it |
| `RealTimeEndpoints.RealTimePublisher.NotifySubscribers` | include/ipcpp/publish_subscribe/real_time/real_time_publisher.h:128-133 | Stores the announced index and counts one more message, wrapping |
| `RealTimeEndpoints.RealTimePublisher.Retain` | include/ipcpp/publish_subscribe/real_time/real_time_publisher.h:103 | Takes the reference on the new message before it gives up the one on the message before |
| `RealTimeEndpoints.RealTimePublisher.constructor` | include/ipcpp/publish_subscribe/real_time/real_time_publisher.h:109-125 | A publisher gets the area of its entry and the mask of its size, and mirrors the join step |
| `RealTimeEndpoints.RealTimeSubscriber.FetchMessage` | include/ipcpp/publish_subscribe/real_time/real_time_subscriber.h:135-154 | Answers and mirrors the successor state as the fetch step does; the news count as seen unless there was no message, and a credit goes only with a delivery |
| `RealTimeEndpoints.RealTimeSubscriber.FetchAt` | include/ipcpp/publish_subscribe/real_time/real_time_subscriber.h:138-150 | On the announced slot: no value, no credit, or a message; id, credits and slots in each case |
| `RealTimeEndpoints.RealTimeSubscriber.constructor` | include/ipcpp/publish_subscribe/real_time/real_time_subscriber.h:180-189 | A subscriber starts with all credits, has seen what was published so far, and mirrors the join step |
| `RealTimeEndpoints.MessageWrapper.Cleanup` | include/ipcpp/publish_subscribe/real_time/real_time_subscriber.h:60-66 | The destructor returns reference and credit; for a moved-from wrapper it does nothing |
| `RealTimeEndpoints.MessageWrapper.Move` | include/ipcpp/publish_subscribe/real_time/real_time_subscriber.h:69-71 | The message and its credit pass to the new wrapper; the old one is empty |
| `RealTimeEndpoints.MessageBuffer.constructor` | include/ipcpp/publish_subscribe/real_time/real_time_memory_layout.h:173-179 | The buffer mirrors the initial state: publishers times pool size empty slots |
| `RealTimeEndpoints.MessageBuffer.ReleaseAt` | include/ipcpp/publish_subscribe/real_time/real_time_message.h:48-61 | Gives up one reference; the last resets value and id |
| `RealTimeEndpoints.MessageBuffer.EmplaceAt` | include/ipcpp/publish_subscribe/real_time/real_time_message.h:88-93 | Sets value and id of one slot, keeps its counter and all other slots |
| `RealTimeEndpoints.MessageBuffer.AcquireUnsafeAt` | include/ipcpp/publish_subscribe/real_time/real_time_message.h:114-117 | Adds one reference to one slot |
| `RealTimeLayout.PoolSizeExact` | include/ipcpp/publish_subscribe/real_time/real_time_memory_layout.h:112-117 | The pool size is defined and covers S * A + 2 iff that number is at most half the word's range |
| `RealTimeTopic.ValidIsComputed` | include/ipcpp/publish_subscribe/real_time/real_time_memory_layout.h:112-147 | The configurations the protocol is proved for are exactly those with the computed pool size, at most half the word's range of handles plus two, and indices that fit |
| `RealTimeLayout.CapacityTestNeverRejects` | include/ipcpp/publish_subscribe/real_time/real_time_memory_layout.h:127-147 | The capacity test of init_at can never fail, since the product has wrapped; the size is the true product iff that fits the word |
| `RealTimeLayout.GetIndexIs` | include/ipcpp/publish_subscribe/real_time/real_time_memory_layout.h:234-236 | Index = publisher * K + id mod K, inside the publisher's area |
| `RealTimeLayout.GetIndexInjective` | include/ipcpp/publish_subscribe/real_time/real_time_memory_layout.h:234-236 | Indices agree iff publisher and residue agree, so areas never overlap |
| `RealTimeLayout.ProbesVisitAll` | include/ipcpp/publish_subscribe/real_time/real_time_publisher.h:90-97 | K consecutive ids, masked, visit each slot exactly once, also across the wrap |
| `Numeric.CountLeadingZero` | include/ipcpp/utils/numeric.h:43-55 | The fallback loop stops and returns the number of zero bits above the highest set one |
| `Numeric.IsPowerOfTwoExact` | include/ipcpp/utils/numeric.h:59-67 | The test accepts exactly the powers of two and zero |
| `Numeric.FloorIsGreatest` | include/ipcpp/utils/numeric.h:69-81 | For positive v: the greatest power of two not above v |
| `Numeric.CeilIsLeast` | include/ipcpp/utils/numeric.h:83-90 | For positive v: defined iff v <= 2^(w-1), and then the least power of two not below v |
| `Numeric.ZeroIsKept` | include/ipcpp/utils/numeric.h:74-90 | Zero passes the test, so both roundings return it |
| `Numeric.AndMask` | include/ipcpp/publish_subscribe/real_time/real_time_publisher.h:92 | Masking with 2^k - 1 is the remainder by 2^k |
| `Numeric.AlignUpIsLeast` | include/ipcpp/stl/allocator.h:74-76 | The least multiple of 16 not below the size |
| `PoolAllocator.Pool.constructor` | include/ipcpp/stl/allocator.h:139-146 | The pool starts as one free chunk over everything behind the header |
| `PoolAllocator.Pool.AllocateFromList` | include/ipcpp/stl/allocator.h:350-373 | Fails iff no free chunk is large enough; otherwise rewrites the nodes to the list with the first fitting chunk taken and returns its data offset and size |
| `PoolAllocator.Pool.AllocateAtLeastOffset` | include/ipcpp/stl/allocator.h:193-196 | The same for a byte count that is first rounded up to 16 |
| `PoolAllocator.Pool.TakeChunk` | include/ipcpp/stl/allocator.h:354-365 | Marks the chunk and splits it if the rest can hold more than a header, keeping both link directions |
| `PoolAllocator.Pool.InsertNode` | include/ipcpp/stl/allocator.h:381-391 | Links a new free node between a node and its successor; no other record changes |
| `PoolAllocator.Pool.MergeNodesForward` | include/ipcpp/stl/allocator.h:399-420 | Fuses the node with the whole run of free chunks behind it |
| `PoolAllocator.Pool.MergeNodesBackward` | include/ipcpp/stl/allocator.h:431-456 | Fuses the node with the whole run of free chunks before it |
| `PoolAllocator.Pool.Deallocate` | include/ipcpp/stl/allocator.h:204-211 | Turns the list into the one with that chunk freed and fused with its neighbours; records stay linked both ways |
| `PoolAllocator.Pool.AllocatedSize` | include/ipcpp/stl/allocator.h:229-241 | Live bytes with headers; with the free ones they add up to the pool |
| `PoolAllocator.Pool.AllocatedDataSize` | include/ipcpp/stl/allocator.h:247-259 | Live bytes without headers; with one header for each live chunk and the free bytes they add up to the pool |
| `ChunkList.FirstFitLowest` | include/ipcpp/stl/allocator.h:350-373 | The search fails iff nothing fits and otherwise picks the fitting chunk of lowest offset |
| `ChunkList.AllocateTakes` | include/ipcpp/stl/allocator.h:350-373 | A successful request takes the fitting chunk of lowest offset, whole if at most a header would be left over, else exactly the size asked for; no other live chunk moves |
| `ChunkList.ServesAllocation` | include/ipcpp/stl/allocator.h:193-196 | An allocation within a run fails unchanged iff nothing fits and otherwise takes the first fitting chunk |
| `ChunkList.ServesDeallocation` | include/ipcpp/stl/allocator.h:204-211 | A deallocation within a run removes exactly the live chunk at its offset |
| `ChunkList.DataAndHeaders` | include/ipcpp/stl/allocator.h:243-259 | Live bytes are the live data plus one header for each live chunk |
| `ChunkList.AllocateKeeps` | include/ipcpp/stl/allocator.h:350-391 | Allocation keeps tiling, alignment and coalescing |
| `ChunkList.AllocateUsed` | include/ipcpp/stl/allocator.h:350-391 | It adds one live chunk at the chosen place, of exactly the size asked for unless no more than a header would be left over; no other live chunk moves |
| `ChunkList.DeallocateKeeps` | include/ipcpp/stl/allocator.h:204-211 | Deallocation keeps tiling, alignment and coalescing |
| `ChunkList.DeallocateUsed` | include/ipcpp/stl/allocator.h:204-211 | It removes that live chunk only |
| `ChunkList.DeallocateIsFuse` | include/ipcpp/stl/allocator.h:399-456 | Forward then backward merge is one splice of the maximal free run around the chunk |
| `ChunkList.Canonical` | include/ipcpp/stl/allocator.h:399-456 | A coalesced tiling is determined by its live chunks |
| `ChunkList.AllocateThenDeallocate` | include/ipcpp/stl/allocator.h:350-456 | Allocating and at once deallocating restores the list exactly, split or not |
| `ChunkList.InitialWellFormed` | include/ipcpp/stl/allocator.h:139-146 | The constructor's list is well-formed |
| `ChunkList.RunKeeps` | include/ipcpp/stl/allocator.h:193-211 | After every run of aligned allocations and deallocations the list is well-formed |
| `ChunkList.RunsConverge` | include/ipcpp/stl/allocator.h:193-211 | Runs that leave the same chunks live leave the same list |
| `ChunkList.Quiescent` | include/ipcpp/stl/allocator.h:139-146 | After any run that returned everything, in any order, the list is the constructor's and serves the full size |
| `ChunkList.BytesConserved` | include/ipcpp/stl/allocator.h:229-241 | Live and free chunks with their headers add up to the region |
| `ChunkList.TilesNext` | include/ipcpp/stl/allocator.h:65-70 | Each next offset is own offset + header + size, all inside the region |
| `ChunkList.TilesOrdered` | include/ipcpp/stl/allocator.h:65-70 | An earlier chunk ends before a later one starts |
| `HeapAllocator.SharedMemoryAllocator.constructor` | include/ipcpp/shm/allocator.h:64-75 | One free chunk; nothing allocated |
| `HeapAllocator.SharedMemoryAllocator.Allocate` | include/ipcpp/shm/allocator.h:77-88 | Fails iff nothing fits; otherwise takes the fitting chunk of lowest offset, and the allocated size grows by the rounded request, staying the sum of the live chunks |
| `HeapAllocator.SharedMemoryAllocator.AllocateFromList` | include/ipcpp/shm/allocator.h:112-137 | The walk finds the first fitting chunk and splits it unless it fits exactly |
| `HeapAllocator.SharedMemoryAllocator.Deallocate` | include/ipcpp/shm/allocator.h:90-100 | Removes exactly that live chunk and fuses it; the allocated size drops by it, staying the sum of the live chunks; null is ignored |
| `HeapAllocator.SharedMemoryAllocator.Coalesce` | include/ipcpp/shm/allocator.h:139-152 | Finds the chunk's node and fuses the free run around it |
| `HeapAllocator.SharedMemoryAllocator.CoalesceForward` | include/ipcpp/shm/allocator.h:166-175 | Merging one node at a time fuses the whole free run behind |
| `HeapAllocator.SharedMemoryAllocator.CoalesceBackwards` | include/ipcpp/shm/allocator.h:154-164 | Merging one node at a time fuses the whole free run before |
| `HeapAllocator.Node.Insert` | include/ipcpp/utils/linked_list.h:19-28 | A new node is linked in both directions between a node and its successor |
| `HeapAllocator.Node.Pop` | include/ipcpp/utils/linked_list.h:30-38 | The neighbours are linked to each other |
| `HeapAllocator.EmptyIsInitial` | include/ipcpp/shm/allocator.h:64-75 | With nothing allocated the list is the constructor's single chunk |
| `ChunkList.AllocateBytes` | include/ipcpp/shm/allocator.h:86 | Live bytes grow by the taken chunk |
| `ChunkList.DeallocateBytes` | include/ipcpp/shm/allocator.h:96 | Live bytes shrink by the freed chunk |
| `Vector.Vector.constructor` | include/ipcpp/stl/vector.h:587 | An empty vector without storage |
| `Vector.Vector.PushBack` | include/ipcpp/stl/vector.h:323-330 | Appends one element; exact conditions, in bytes, for length_error and bad_alloc, which change nothing; new storage is at most a header larger than the growth; only own chunks are written |
| `Vector.Vector.PopBack` | include/ipcpp/stl/vector.h:344-347 | Removes the last element |
| `Vector.Vector.Reserve` | include/ipcpp/stl/vector.h:225-228 | Contents unchanged, capacity at least as asked and not less than before; exact failure conditions in bytes of pool, header and elements |
| `Vector.Vector.ShrinkToFit` | include/ipcpp/stl/vector.h:232-235 | Contents unchanged, storage at most a header more than needed, none when empty |
| `Vector.Vector.Clear` | include/ipcpp/stl/vector.h:238-241 | Empty contents, storage kept |
| `Vector.Vector.Resize` | include/ipcpp/stl/vector.h:370-390 | Truncates, or appends copies up to the count; exact failure conditions |
| `Vector.Vector.Insert` | include/ipcpp/stl/vector.h:248-262 | Inserts one element at any position; exact failure conditions |
| `Vector.Vector.ShiftUp` | include/ipcpp/stl/vector.h:560-566 | The backward move puts every element from the position on one place up without losing any |
| `Vector.Vector.At` | include/ipcpp/stl/vector.h:180-187 | The element, or the range error iff the index is not below the size |
| `Vector.Vector.CheckLength` | include/ipcpp/stl/vector.h:479-485 | length_error iff the elements and n more exceed the pool in bytes; otherwise enough, at most max_size |
| `Vector.Vector.MaxSizeIs` | include/ipcpp/stl/allocator.h:218-220 | n exceeds max_size iff n elements and a chunk header are more bytes than the pool |
| `Vector.GrowthIs` | include/ipcpp/stl/vector.h:483-484 | The capacity asked for has room for n more within the maximum, is at least double unless it is the maximum, and no more than that or what is needed |
| `Vector.AlignedFits` | include/ipcpp/stl/allocator.h:193-196 | A chunk holds a request iff it holds the rounded one, so bad_alloc means that no free chunk has the bytes |
| `Vector.Vector.UninitializedMove` | include/ipcpp/stl/vector.h:461-468 | Copies the sequence to the new storage and leaves the old one intact |
| `Vector.Vector.ReallocAppend` | include/ipcpp/stl/vector.h:488-501 | Contents plus one, in new storage; the old chunk is given back |
| `Vector.Vector.ReallocAppendN` | include/ipcpp/stl/vector.h:504-519 | Contents plus copies, in new storage |
| `Vector.Vector.UninitializedReallocN` | include/ipcpp/stl/vector.h:521-532 | Same contents with room for n more |
| `Vector.Vector.ReallocCopy` | include/ipcpp/stl/vector.h:534-548 | Same contents in storage of the asked length |
| `Vector.Vector.Allocate` | include/ipcpp/stl/vector.h:395-400 | A chunk disjoint from all live ones with room for n elements, or the null storage for none |
| `Vector.FramedSparesOthers` | include/ipcpp/stl/vector.h:487-548 | What a vector operation is allowed to change leaves every other live chunk in place with its contents |
| `Vector.OtherVectorUntouched` | include/ipcpp/stl/vector.h:487-548 | So another vector on the pool keeps its elements |
| `Vector.AmortisedGrowth` | include/ipcpp/stl/vector.h:479-501 | n push_backs from empty move fewer than 2n elements, also when growth is clamped |
| `SharedMutex.Exclusion` | include/ipcpp/utils/mutex.h:79-133 | On every run: the flag is -1 with exactly one writer and no reader, or the number of readers with no writer |
| `SharedMutex.FailuresAreInterference` | include/ipcpp/utils/mutex.h:151-163 | Failed attempts of the bounded retry never exceed the flag's changes since its call |
| `SharedMutex.StepKeeps` | include/ipcpp/utils/mutex.h:81-163 | Each atomic operation keeps that invariant, stale expected values included |
| `SharedMutex.RunKeeps` | include/ipcpp/utils/mutex.h:81-163 | It holds after every run of any number of threads |
| `SharedMutex.WriterGetsIn` | include/ipcpp/utils/mutex.h:81-99 | An attempt at the exclusive lock succeeds iff nobody holds the lock; a failed one changes nothing |
| `SharedMutex.ReaderGetsIn` | include/ipcpp/utils/mutex.h:101-163 | A shared attempt that nobody interrupts, bounded or not, succeeds iff there is no writer |
| `SharedMutex.StaleExchangeFails` | include/ipcpp/utils/mutex.h:101-163 | An exchange with a stale value leaves the flag and lets nobody in |
| `SharedMutex.UnlockLetsOthersIn` | include/ipcpp/utils/mutex.h:91-117 | After a writer's unlock anyone gets in; a reader's unlock takes out that reader alone |
| `SharedMutex.MutexGetsIn` | include/ipcpp/utils/mutex.h:45-58 | An exchange makes its thread the owner iff the mutex was free, as it is after the owner's unlock |
| `SharedMutex.MutexKeeps` | include/ipcpp/utils/mutex.h:45-58 | The exclusive lock is set iff exactly one thread owns it |
| `FifoMessage.AdmissionBound` | include/ipcpp/publish_subscribe/fifo_seq/fifo_message.h:97-108 | Per generation at most N consumes are admitted; users + admissible tickets never exceed the remaining references |
| `FifoMessage.ReadersSeeTheValue` | include/ipcpp/publish_subscribe/fifo_seq/fifo_message.h:35-46 | Whoever reads sees the emplaced value, and nobody is resetting it |
| `FifoMessage.ResetExactlyOnce` | include/ipcpp/publish_subscribe/fifo_seq/fifo_message.h:35-46 | The value is reset iff the N-th release happened, once; one denied reader keeps it for the generation |
| `FifoMessage.InterferenceBounded` | include/ipcpp/utils/mutex.h:135-150 | While an admitted reader tries, the others changed the flag at most 2(N-1) times |
| `FifoMessage.LockDeniedOnlyByWriter` | include/ipcpp/publish_subscribe/fifo_seq/fifo_message.h:109-116 | An admitted reader is turned away iff the writer of this value has not unlocked yet; its retries never run out |
| `FifoMessage.DeniedBeforeUnlock` | include/ipcpp/publish_subscribe/fifo_seq/fifo_message.h:109-116 | A concrete run in which an admitted reader is denied before the unlock |
| `FifoMessage.NoDenialAfterUnlock` | include/ipcpp/publish_subscribe/fifo_seq/fifo_message.h:109-116 | After the unlock no admitted reader is ever denied |
| `FifoMessage.ConsumeAlone` | include/ipcpp/publish_subscribe/fifo_seq/fifo_message.h:97-117 | A consume that nobody interrupts is let in iff there is a value, fewer accesses are active than references remain, and the writer has unlocked; without a value it changes nothing |
| `FifoMessage.NextConsumeGetsIn` | include/ipcpp/publish_subscribe/fifo_seq/fifo_message.h:97-117 | On every run: after the unlock, while fewer accesses are active than references remain, the next consume ends reading |
| `FifoMessage.ReleaseAlone` | include/ipcpp/publish_subscribe/fifo_seq/fifo_message.h:35-46 | A release gives up one reference, lock and active access, and resets the value iff no reference remains |
| `FifoMessage.StaleExchangeFails` | include/ipcpp/utils/mutex.h:151-163 | An exchange with a stale flag costs one attempt and changes nothing else |
| `FifoMessage.StartInv` | include/ipcpp/publish_subscribe/fifo_seq/fifo_message.h:63-69 | An emplace with no consume in flight starts a generation |
| `FifoMessage.StepKeeps` | include/ipcpp/publish_subscribe/fifo_seq/fifo_message.h:30-117 | Each atomic operation keeps the accounts of a generation |
| `FifoMessage.RunKeeps` | include/ipcpp/publish_subscribe/fifo_seq/fifo_message.h:30-117 | They hold after every run of any number of threads |
| `FifoTopic.DeliveredUnlessOverwritten` | include/ipcpp/publish_subscribe/fifo_seq/fifo_subscriber.h:121-143 | A receive delivers the published entry of the subscriber's next id iff at most a queue size of messages were published since; otherwise it is a mismatch |
| `FifoTopic.NothingLost` | include/ipcpp/publish_subscribe/fifo_seq/fifo_subscriber.h:121-143 | The same at the end of every run: exactly the overwritten ids are skipped |
| `FifoTopic.PublishedIsReceived` | include/ipcpp/publish_subscribe/fifo_seq/fifo_subscriber.h:121-143 | After a successful publication of v and any run, a subscriber whose turn it is gets v, unless more than a queue size of messages were published since its id |
| `FifoTopic.PublishEffect` | include/ipcpp/publish_subscribe/fifo_seq/fifo_publisher.h:310-325 | Unless its cell is being read, a publication puts v with one reference per subscriber under the next id and appends v to what was published; nothing else changes |
| `FifoTopic.ReceiveEffect` | include/ipcpp/publish_subscribe/fifo_seq/fifo_subscriber.h:121-143 | Every receive moves its subscriber on by one id; a delivery opens one access, anything else leaves the cells alone |
| `FifoTopic.ReleaseEffect` | include/ipcpp/publish_subscribe/fifo_seq/fifo_message.h:35-46 | A release gives up one reference, lock and active access; the cell has a value afterwards iff references remain |
| `FifoTopic.LastReaderResets` | include/ipcpp/publish_subscribe/fifo_seq/fifo_message.h:36-38 | While references are settled, a release resets the value iff nobody else reads it and no subscriber is still to come |
| `FifoTopic.ValueLivesUntilAllHaveRead` | include/ipcpp/publish_subscribe/fifo_seq/fifo_message.h:36-38 | That holds on every run in which nobody cancels |
| `FifoTopic.ReferenceKept` | include/ipcpp/publish_subscribe/fifo_seq/fifo_publisher.h:314-316 | A subscriber whose turn it is finds a reference reserved and is not refused |
| `FifoTopic.Overwritten` | include/ipcpp/publish_subscribe/fifo_seq/fifo_message_queue.h:89-94 | A cell that lost a published id holds one at least a queue size later |
| `FifoTopic.OpenAccessReads` | include/ipcpp/publish_subscribe/fifo_seq/fifo_subscriber.h:137-142 | The value under an open access is the published entry of its id |
| `FifoTopic.OpenAccessReadsTheLog` | include/ipcpp/publish_subscribe/fifo_seq/fifo_subscriber.h:137-142 | On every run, whatever is published meanwhile |
| `FifoTopic.PublishSparesReaders` | include/ipcpp/publish_subscribe/fifo_seq/fifo_publisher.h:310-325 | Publishing fails, changing nothing, iff its cell is being read; no cell being read is ever touched |
| `FifoTopic.DeliveredInOrder` | include/ipcpp/publish_subscribe/fifo_seq/fifo_subscriber.h:121-143 | On every run the delivered ids of a subscriber strictly increase and were published before |
| `FifoTopic.CellIndexIs` | include/ipcpp/publish_subscribe/fifo_seq/fifo_message_queue.h:89-94 | Masking an id gives its remainder by the queue size |
| `FifoTopic.QueueFits` | include/ipcpp/publish_subscribe/fifo_seq/fifo_message_queue.h:55-74 | A memory that passes the size check gets the largest power of two of cells that fits |
| `FifoTopic.InitialInv` | include/ipcpp/publish_subscribe/fifo_seq/fifo_message_queue.h:64-72 | The initialised queue satisfies the invariant |
| `FifoTopic.PublishKeeps` | include/ipcpp/publish_subscribe/fifo_seq/fifo_publisher.h:310-325 | Publishing keeps it: references cover every subscriber |
| `FifoTopic.ReceiveKeeps` | include/ipcpp/publish_subscribe/fifo_seq/fifo_subscriber.h:121-143 | Receiving keeps it, in every outcome |
| `FifoTopic.ReleaseKeeps` | include/ipcpp/publish_subscribe/fifo_seq/fifo_message.h:35-46 | Releasing an access keeps it |
| `FifoRefinement.ConsumeRefines` | include/ipcpp/publish_subscribe/fifo_seq/fifo_message.h:97-117 | After any run of atomic operations, an uninterrupted consume has the effect and the answer of the topic's step on the cell |
| `FifoRefinement.ReleaseRefines` | include/ipcpp/publish_subscribe/fifo_seq/fifo_message.h:30-47 | An uninterrupted release has the effect of the topic's step |
| `FifoRefinement.PublishStartsGeneration` | include/ipcpp/publish_subscribe/fifo_seq/fifo_message.h:63-69 | A publication into a cell with no call in flight starts a generation, and its unlock leaves the topic's written cell |
| `FifoTopic.SubscribeKeeps` | include/ipcpp/publish_subscribe/fifo_seq/fifo_subscriber.h:145-148 | Subscribing keeps it |
| `FifoTopic.CancelKeeps` | include/ipcpp/publish_subscribe/fifo_seq/fifo_subscriber.h:150-154 | Cancelling keeps it |
| `FifoTopic.RunKeeps` | include/ipcpp/publish_subscribe/fifo_seq/fifo_publisher.h:310-325 | It holds after every run of one publisher and any subscribers |
| `FifoEndpoints.FifoPublisher.Publish` | include/ipcpp/publish_subscribe/fifo_seq/fifo_publisher.h:310-325 | Succeeds iff no access is open on the cell, which then holds v under the next id with one reference per subscriber; a failure changes nothing; the method mirrors the publish step |
| `FifoEndpoints.FifoSubscriber.Receive` | include/ipcpp/publish_subscribe/fifo_seq/fifo_subscriber.h:121-143 | The method mirrors the receive step; its answer is decided by the subscriber's lag alone |
| `FifoEndpoints.FifoSubscriber.Subscribe` | include/ipcpp/publish_subscribe/fifo_seq/fifo_subscriber.h:145-148 | Counts the subscriber and starts at the next id |
| `FifoEndpoints.FifoSubscriber.CancelSubscription` | include/ipcpp/publish_subscribe/fifo_seq/fifo_subscriber.h:150-154 | Uncounts the subscriber |
| `FifoEndpoints.ReadAccess.Read` | include/ipcpp/publish_subscribe/fifo_seq/fifo_message.h:75-77 | Reads the published entry of the access's id |
| `FifoEndpoints.ReadAccess.Release` | include/ipcpp/publish_subscribe/fifo_seq/fifo_message.h:30-47 | The destructor mirrors the release step |
| `FifoEndpoints.MessageQueue.ConsumeAt` | include/ipcpp/publish_subscribe/fifo_seq/fifo_message.h:97-117 | consume with nobody interfering, in all its outcomes |
| `FifoEndpoints.MessageQueue.RequestWritable` | include/ipcpp/publish_subscribe/fifo_seq/fifo_message.h:119-125 | Takes the exclusive lock iff the flag is 0 |
| `FifoEndpoints.MessageQueue.EmplaceAndUnlock` | include/ipcpp/publish_subscribe/fifo_seq/fifo_message.h:63-69 | Writes value, id and references, leaves the active counter, and unlocks |
| `FifoEndpoints.MessageQueue.Index` | include/ipcpp/publish_subscribe/fifo_seq/fifo_message_queue.h:89-94 | The cell of an id is inside the queue |
| `FifoEndpoints.MessageQueue.constructor` | include/ipcpp/publish_subscribe/fifo_seq/fifo_message_queue.h:64-72 | The queue mirrors the initial state |
| `RingQueue.FixedSizeQueue.constructor` | include/ipcpp/stl/fixed_size_queue.h:234-238 | An empty queue over the given items |
| `RingQueue.FixedSizeQueue.Push` | include/ipcpp/stl/fixed_size_queue.h:108-120 | Appends the item with no reference counted; a full queue drops it |
| `RingQueue.FixedSizeQueue.PopFront` | include/ipcpp/stl/fixed_size_queue.h:143-147 | Removes the first item iff there is one; on an empty queue the size becomes capacity - 1 |
| `RingQueue.FixedSizeQueue.PopBack` | include/ipcpp/stl/fixed_size_queue.h:152-160 | Removes the last item iff there is one; on an empty queue the size becomes capacity - 1 |
| `RingQueue.FixedSizeQueue.Front` | include/ipcpp/stl/fixed_size_queue.h:168-173 | The first item; its reference count grows by one |
| `RingQueue.FixedSizeQueue.Back` | include/ipcpp/stl/fixed_size_queue.h:181-187 | The last item; its reference count grows by one |
| `RingQueue.FixedSizeQueue.Empty` | include/ipcpp/stl/fixed_size_queue.h:193-196 | True iff there is no item |
| `RingQueue.FixedSizeQueue.Size` | include/ipcpp/stl/fixed_size_queue.h:202-214 | The number of items |
| `RingQueue.FixedSizeQueue.IsFull` | include/ipcpp/stl/fixed_size_queue.h:222-224 | True iff the size is the capacity |

## Left out

- RealTimeSafety.PublishKeeps: publish is one step. The code announces a slot before it takes its own reference, so the claims hold between method calls, not between its atomic operations.
- RealTimeSafety.FetchKeeps: fetch is one step. The code counts up before it looks for a value.
- RealTimeSafety.Conservation: reference counters are unbounded; a wrap-around of the 64-bit counter is not modelled. Slot moves are by construction only: move assignment and repeated explicit cleanup of a message wrapper, which can return a credit twice, are not modelled.
- RealTimeSafety.PublishNeverStalls: assumes, as the configuration must ensure, that all slot indices fit the half word, S * A + 2 is at most half its range, and live endpoints have distinct entries. Process liveness and entry locks are not modelled.
- FifoMessage.AdmissionBound: the ticket is taken before the remaining references are loaded; C++ leaves the order of the two operands open and the bound needs this one.
- FifoMessage.LockDeniedOnlyByWriter: compare_exchange_weak does not fail spuriously.
- FifoTopic.DeliveredUnlessOverwritten: admission inside a step is atomic (FifoMessage treats its interleavings), ids stay below the greatest 64-bit number, and a subscriber subscribes once and cancels when it reads nothing.
- FifoTopic.CancelKeeps: references counted for messages that a cancelling subscriber has not read stay counted, as in the code, so such values are not reset until overwritten.
- FifoTopic.ValueLivesUntilAllHaveRead: on runs without a cancel; what a cancel leaves counted is described under FifoTopic.CancelKeeps.
- FifoRefinement.ConsumeRefines: for calls that nobody interrupts; interrupted ones are FifoMessage's subject alone.
- FifoEndpoints.FifoSubscriber.Receive: waiting for data is a precondition, and the callback's own error code is not modelled.
- FifoEndpoints.MessageQueue.ConsumeAt: nobody interferes inside the call, so the first attempt at the lock decides.
- SharedMutex.Exclusion: locks are state machines over values, not objects; the waiting loops of lock and lock_shared are repeated rounds of their steps, and memory orders are sequentially consistent.
- PoolAllocator.Pool.AllocateFromList: the request is aligned, as in allocate_offset and the allocate_at_least family. `allocate`, which neither locks nor aligns, is not modelled; the variant that returns a pointer has the same walk.
- PoolAllocator.Pool.AllocatedSize: the pool's lock is not modelled; each call is one step. `fragmentation` computes with floating point.
- Vector.Vector.PushBack: destroyed objects leave their bytes, so destructors are not modelled; one element type per pool; emplace_back takes the same path with the value constructed in place.
- Vector.Vector.Resize: the code's length check counts the new size on top of the old one; the model does the same.
- Vector.Vector.Allocate: element sizes divide 16 and pool sizes are multiples of 16; max_size omits the pool header, so bad_alloc can come before length_error.
- HeapAllocator.SharedMemoryAllocator.Allocate: printing and the unused reader counter of a chunk are not modelled; deallocating an address that is not owned is excluded.
- RingQueue.FixedSizeQueue.Push: the capacity is positive; the queue's lock is not modelled.
- Vector erase, insertion of several elements, assignment, copies and swap; allocation of sizes whose byte count overflows.
- init_at and read_at races, span layout and required byte counts of the real-time buffer; memory mapping, files, sockets, inter-process locks, logging, timestamps.
- await_message and await_get_message, which repeat fetch_message; acquire, which the real-time path does not use.
- Backpressure handling of the FIFO publisher, which publish does not call; the notifier-based publisher and subscriber.
- futex and shared_futex, fixed-size stack, shared ring buffer and queue, chunk allocator, list, optional, strings and the synchronized wrapper.
