# easyhttpcpp: a verified model of its stateful core

easyhttpcpp is an HTTP client library in C++ on top of Poco. This project models, in Dafny, the components whose
correctness depends on state that outlives a call, and proves what they keep over whole runs:

- **The response cache.** A recency list with a map into it and a byte total (`LruList`, `CacheSpec`,
  `HttpLruCacheStrategy`), reader counts and deferred removal on top of it, and the file cache that keeps this index, a
  metadata table and body files in agreement and rebuilds the index at start-up (`FileCacheSpec`, `HttpFileCache`).
  The main results are the reader theorem (`FileCacheRuns.RunTracks`), the agreement theorem
  (`FileCacheAgreement.RunAgrees`), the read theorem (`CacheContents.ReadsLatest`), deferred removal
  (`DeferredRemoval.DueUntilReleased`, `LastReleaseRemoves`), and the exact result of start-up
  (`CacheLoad.LoadIsLongestSuffix`, `FileCacheAgreement.ListingAgreesIff`), which keeps what was used latest
  (`AccessOrder.RestartKeepsLatestUsed`).
- **The queued thread pool** as a protocol between callers of `start`, workers and shutdown (`ThreadPoolSpec`), and the
  methods that execute it while the others go on (`QueuedThreadPool`). Main results: `NoTaskLost`,
  `StrandedUntilLaunch`, and the termination of the retry loop.
- **The connection pool** with keep-alive timers that may run at any moment (`ConnectionPoolSpec`, `ConnectionRuns`,
  `ConnectionPool`), the requests that hold connections (`HeldConnections`), the body streams that own them
  (`BodyStreams`, `BodyStreamSpec`) and the engine's retry (`HttpEngine`). Main results: `NoSharing`, `HandedOutFits`,
  `TimerRemovesOnlyLatest`, `StaleForever`, `OfferWithLength`, `OfferWithoutLength`, and the contract of the retry loop.
  `CachedBody.ReceivedIsServed` joins the streams to the cache: what was received is what is served later.
- **The cache decision** in 64-bit words against the same rules over the integers (`CacheDecisionSpec`,
  `HttpCacheStrategy`), what an engine **answers** with it (`UserResponseSpec`, `HttpEngineExecution`), the **header
  merge** after a revalidation (`HeaderMergeSpec`, `Headers`) and what it does to the stored response
  (`Revalidation`, with `RevalidatedServes` from the merge to later answers), and **redirects** (`RedirectSpec`,
  `HttpRequestExecutor`), with `ChainIsFollowed` and `AuthorizationFollows` over whole chains.

Each component is written twice: as functions on values, about which the theorems are proved, and as classes with the
fields of the original, whose methods are proved to compute those functions. Everything the environment decides (which
deletions, queries, writes and reads succeed, the clock, what other threads do) is a parameter or an arbitrary choice, so
each result holds for every outcome that its `requires` clauses do not exclude. What other threads do between two moments
of a method is a method of its own, whose contract says only that it takes steps of the protocol.

Eight facts about the code that the model keeps and makes precise:

- `put` ignores a refused removal of the entry it replaces (src/HttpFileCache.cpp:240). If that row stays and the move
  or the writing of the new row then fails, an entry and a row can stay behind without a body: `PutAgreesIff` and
  `PutAgreesWhen` say exactly when, for every key but the empty one, which `makeSpace` takes for no key.
- A caching body stream tries again to create its temporary file after a failure
  (src/ResponseBodyStreamWithCaching.cpp:58), and does not look whether a write succeeded. A body without declared
  length, or one that exceeds it, can then be offered to the cache without its beginning, and any body without its end:
  `OfferWithLength` and `OfferWithoutLength` give the exact conditions, `LateFileIsOffered` and `ShortWriteIsOffered`
  a family of failing inputs each.
- `makeSpace` ignores refused removals (src/common/LruCacheByDataSizeStrategy.cpp:239): `AddOrUpdateBoundIff` gives the
  bytes that are then held, and so exactly when `maxSize` is exceeded; `BoundFails` is an input for which it is.
- A listing of the table that fails halfway leaves its rows in the index, and the next one asks for space for them again
  (src/HttpFileCache.cpp:468): `ListingAgreesIff` says exactly when this evicts rows that are still to be listed and so
  leaves entries without row, `ListedAgainFails` is an input for which it does.
- A runnable whose `run` throws ends the loop of its worker without the counter going down
  (src/executorservice/RunnableWorker.cpp:28-44): `StrandedUntilLaunch` says exactly when queued tasks are then left
  without a thread, `ThrowStrands` is a run in which they are. The library's own `Task` catches what it runs.
- The Age header of a stored response outlives a revalidation without one (src/HttpCacheStrategy.cpp:421): `OldAgeStays`.
- The condition header for a stored response is set through a builder that shares the header list of the user's request
  (src/HttpCacheStrategy.cpp:171-176, src/Request.cpp:115), and it is sent along on redirects: `ConditionStays`.
- Between the refusal of a thread and the look at the counter threads may leave
  (src/executorservice/QueuedThreadPool.cpp:84-104); the protocol has a state for this, and no task is lost by it.

`dafny verify dfyconfig.toml` checks the project.

## Model

| member | source | states |
|---|---|---|
| LruList.VictimsFound | src/HttpLruCacheStrategy.cpp:94-114 | The scan finds victims if and only if the entries nobody reads hold the bytes asked for. |
| LruList.VictimsAreShortestTail | src/HttpLruCacheStrategy.cpp:94-114 | The victims are exactly the unread entries of the shortest tail of the recency list that holds enough unread bytes, in list order. |
| LruList.VictimsUnpinned | src/HttpLruCacheStrategy.cpp:94-114 | Every victim is a listed entry without readers and no key is taken twice. |
| LruList.VictimsFree | src/HttpLruCacheStrategy.cpp:94-114 | Without the victims the list holds at least the requested number of bytes less. |
| CacheSpec.BaseRemoveEffect | src/common/LruCacheByDataSizeStrategy.cpp:67-89 | A removal touches one key only; accepted, it leaves no entry, row or file and gives back exactly the size of the entry; refused, it leaves the list as it was. |
| CacheSpec.MarkFacts | src/HttpLruCacheStrategy.cpp:47-53 | Setting the deferred-removal flag of an entry where it stands changes no size, no order and no other entry. |
| CacheSpec.EvictAllEffect | src/common/LruCacheByDataSizeStrategy.cpp:236-241 | Whatever the listener answers, the eviction loop changes nothing but its victims, spares the key being updated, and leaves keys unique. |
| CacheSpec.EvictAllAccepted | src/common/LruCacheByDataSizeStrategy.cpp:236-241 | When evictions are accepted the list loses exactly the victims, the spared key excepted. |
| CacheSpec.EvictAllDeletes | src/HttpFileCache.cpp:435-459 | When evictions are accepted the table and the files lose exactly the victims. |
| CacheSpec.MakeSpaceIff | src/common/LruCacheByDataSizeStrategy.cpp:222-248 | Making space succeeds if and only if the pinned bytes and the request together fit into maxSize, and changes nothing when it fails. |
| CacheSpec.MakeSpaceEffect | src/common/LruCacheByDataSizeStrategy.cpp:222-248 | Making space never changes an entry that is being read or the entry being updated, whatever deletions fail. |
| CacheSpec.MakeSpaceGives | src/common/LruCacheByDataSizeStrategy.cpp:222-248 | With accepted evictions index, rows and files lose exactly the victims of the scan. |
| CacheSpec.MakeSpaceVictims | src/common/LruCacheByDataSizeStrategy.cpp:222-248 | The entries given up are the unread ones of the shortest tail holding the missing bytes: one entry fewer would not be enough. |
| CacheSpec.MakeSpaceRoom | src/common/LruCacheByDataSizeStrategy.cpp:222-248 | After accepted evictions the request fits beside what is left, the old bytes of the entry being updated not counted. |
| CacheSpec.AddOrUpdateEffect | src/common/LruCacheByDataSizeStrategy.cpp:186-220 | A stored entry becomes the most recent one; other keys stay or are evicted without readers; a failure changes nothing; keys stay unique. |
| CacheSpec.AddOrUpdateBound | src/common/LruCacheByDataSizeStrategy.cpp:186-220 | With accepted evictions at most maxSize bytes are held afterwards, also when an entry grows in place and its old size counted towards the space found. |
| CacheSpec.AddOrUpdateBoundIff | src/common/LruCacheByDataSizeStrategy.cpp:186-248 | Whatever evictions are refused, the bytes held after an addition or update are those before, without the old entry, plus the new size, minus exactly what the accepted evictions free: so maxSize is kept if and only if they free enough. |
| CacheSpec.BoundFails | src/common/LruCacheByDataSizeStrategy.cpp:236-241 | A concrete cache of ten bytes holds twelve after an addition whose eviction is refused. |
| CacheSpec.RemoveEachEffect | src/HttpLruCacheStrategy.cpp:66-72 | Removing a list of keys touches no others, and reports success only if all of them are gone from index, table and files. |
| CacheSpec.ClearEffect | src/HttpLruCacheStrategy.cpp:62-92 | Clearing without force leaves every entry that is being read untouched; success means that the index is empty. |
| HttpLru.HttpCacheInfo.CopyOf | src/HttpCacheInfo.cpp:18-22 | The copy is a different object with the same key, size, flag and reader count. |
| HttpLru.HttpCacheInfo.ReleaseDataRef | src/HttpCacheInfo.cpp:62-69 | The reader count goes down by one and never below zero. |
| HttpLru.CacheStorage.OnRemove | src/HttpFileCache.cpp:435-459 | The listener deletes the row first and the file second and accepts only if both went well; what a half-done deletion leaves is stated. |
| HttpLru.HttpLruCacheStrategy.BaseRemove | src/common/LruCacheByDataSizeStrategy.cpp:67-89 | List, map and byte total of the objects stay in bijection and refine the removal of the plain sequence. |
| HttpLru.HttpLruCacheStrategy.PushFront | src/common/LruCacheByDataSizeStrategy.cpp:203-217 | Erasing the old node and pushing the new one is the move-to-front step on the sequence; map and total follow. |
| HttpLru.HttpLruCacheStrategy.Add | src/common/LruCacheByDataSizeStrategy.cpp:29-46 | Refines the addition of the specification; the object passed in is copied and never becomes part of the list. |
| HttpLru.HttpLruCacheStrategy.BaseUpdate | src/common/LruCacheByDataSizeStrategy.cpp:48-65 | Refines the update of the specification, null argument and refusing listener included. |
| HttpLru.HttpLruCacheStrategy.AddOrUpdate | src/common/LruCacheByDataSizeStrategy.cpp:186-220 | Refines the specification; after success the caller's object is not in the list, so changing it later cannot change the cache. |
| HttpLru.HttpLruCacheStrategy.RoomFor | src/common/LruCacheByDataSizeStrategy.cpp:186-201 | Space is asked for exactly when the key is new or its entry grows, with the key of a present entry spared; refines the specified step. |
| HttpLru.HttpLruCacheStrategy.MakeSpaceFor | src/common/LruCacheByDataSizeStrategy.cpp:222-248 | The imperative eviction refines the specified one, result and state. |
| HttpLru.HttpLruCacheStrategy.EvictAll | src/common/LruCacheByDataSizeStrategy.cpp:236-241 | The loop over the victims ignores refusals and refines the specified evictions. |
| HttpLru.HttpLruCacheStrategy.CreateRemoveLruDataList | src/HttpLruCacheStrategy.cpp:94-114 | The backward loop returns exactly the victims of the specification, or fails exactly when there are too few bytes. |
| HttpLru.HttpLruCacheStrategy.Remove | src/HttpLruCacheStrategy.cpp:40-60 | An entry being read is only marked, any other is removed; the marking happens in the shared node of the list. |
| HttpLru.HttpLruCacheStrategy.Reserve | src/HttpLruCacheStrategy.cpp:47-53 | The flag is set in the shared node itself: on the sequence this is the marking of exactly that entry. |
| HttpLru.HttpLruCacheStrategy.Update | src/HttpLruCacheStrategy.cpp:26-38 | An update that brings the reader count to zero carries out the deferred removal. |
| HttpLru.HttpLruCacheStrategy.Get | src/common/LruCacheByDataSizeStrategy.cpp:91-113 | A look-up moves the entry to the front even if the listener refuses; the object handed out is a fresh copy. |
| HttpLru.HttpLruCacheStrategy.CreateRemoveList | src/HttpLruCacheStrategy.cpp:75-92 | Collects all keys, or those without readers, and says whether any entry was left out. |
| HttpLru.HttpLruCacheStrategy.Clear | src/HttpLruCacheStrategy.cpp:62-73 | Refines the specified clearing for every answer of the listener. |
| HttpLru.HttpLruCacheStrategy.Reset | src/common/LruCacheByDataSizeStrategy.cpp:125-130 | Empties list, map and total without asking the listener. |
| HttpFileCache.FileCache.OnEnumerate | src/HttpFileCache.cpp:466-476 | A listed row enters the index if there is or can be made space for it, and is skipped otherwise. |
| HttpFileCache.FileCache.InitializeCache | src/HttpFileCache.cpp:488-503 | The loop over the table refines the specified load and marks the cache as ready; a listing that fails, at once or halfway, ends the call and leaves the rows read so far in the index, while a missing cache directory lets the call go on with the index as it is. |
| HttpFileCache.FileCache.ReadRow | src/HttpFileCache.cpp:71-79 | The metadata comes from the row of the key if both statements work; the last access of that row, and nothing else, then becomes the time of the call. |
| HttpFileCache.FileCache.OpenStream | src/HttpFileCache.cpp:112-119 | A stream is opened on the body file first and the reader counted only then. |
| HttpFileCache.FileCache.GetMetadata | src/HttpFileCache.cpp:51-91 | State and answer are those of the specified call for every outcome of index, table and files. |
| HttpFileCache.FileCache.GetData | src/HttpFileCache.cpp:93-130 | State and answer are those of the specified call; a stream is handed out exactly when a reader is counted. |
| HttpFileCache.FileCache.Get | src/HttpFileCache.cpp:132-182 | State and answer are those of the specified call, with row and stream both needed for success. |
| HttpFileCache.FileCache.PutMetadata | src/HttpFileCache.cpp:184-217 | Refused for an unknown, reserved or open entry; otherwise only the row changes. |
| HttpFileCache.FileCache.Put | src/HttpFileCache.cpp:219-290 | Displacing, making space, moving the body in, writing the row and entering the index refine the specified call, every early return included. |
| HttpFileCache.FileCache.Remove | src/HttpFileCache.cpp:299-320 | State and answer are those of the specified removal. |
| HttpFileCache.FileCache.ReleaseData | src/HttpFileCache.cpp:322-348 | One reader less, with the deferred removal if it was the last; works without rebuilding the index. |
| HttpFileCache.FileCache.Purge | src/HttpFileCache.cpp:350-373 | The table is dropped only if everything could be cleared. |
| FileCacheRuns.ReleaseEffect | src/HttpFileCache.cpp:322-348 | A release takes exactly one reader from its key and touches no other entry that is being read. |
| FileCacheRuns.PutEffect | src/HttpFileCache.cpp:219-290 | A put, however it fails, never changes an entry that is being read. |
| FileCacheRuns.LoadEffect | src/HttpFileCache.cpp:466-503 | Rebuilding the index creates no reader. |
| FileCacheRuns.DoEffect | src/HttpFileCache.cpp:51-373 | For every call and every key: entries with readers keep their body, and only the key of the call gains or loses the one reader the call stands for. |
| FileCacheRuns.InitialTracks | src/HttpFileCache.cpp:35-43 | Before the first call nothing is read, whatever the disk holds. |
| FileCacheRuns.StepTracks | src/HttpFileCache.cpp:93-130 | One call, under any failures, keeps reader counts equal to the open streams and their bodies in place. |
| FileCacheRuns.RunTracks | src/HttpFileCache.cpp:322-348 | In every run without forced purge, listings that fail halfway included, each reader count is the number of open streams on its key, and no body with an open reader is ever deleted or replaced. |
| FileCacheAgreement.MakeSpaceAgrees | src/common/LruCacheByDataSizeStrategy.cpp:222-248 | Evictions keep index, table and files in agreement. |
| FileCacheAgreement.StoreAgrees | src/HttpFileCache.cpp:255-289 | Moving the body in and writing its row either completes, with entry, row and body of one size, or leaves nothing of the key behind. |
| FileCacheAgreement.PutAgrees | src/HttpFileCache.cpp:219-290 | A put keeps the agreement even if the move or the row fails midway, and a successful one leaves exactly the given row and body. |
| FileCacheAgreement.PutThenGet | src/HttpFileCache.cpp:132-182 | After a successful put, get, getMetadata and getData return exactly the metadata and the body that were put. |
| FileCacheAgreement.PutAgreesIff | src/HttpFileCache.cpp:219-290 | Whatever row deletions are refused: a put keeps the agreement if and only if it is turned away, or what was there before is gone by the time the body is moved in, or body and row are both stored, or the move fails and leaves the old body; in every other case an entry and a row without body remain. When it is turned away is characterised too. |
| FileCacheAgreement.PutAgreesWhen | src/HttpFileCache.cpp:219-290 | The same in terms of what was there before the call: the old entry is in the way exactly if it is idle, its row cannot be deleted, and neither can it a second time, which is tried if all other unread entries together do not make enough room. |
| FileCacheAgreement.LoadAgrees | src/HttpFileCache.cpp:466-503 | The index built by a complete listing that evicts none of its rows too early agrees with the table and the files. |
| FileCacheAgreement.FirstListing | src/HttpFileCache.cpp:488-503 | On an index that knows none of the rows no row is evicted before it is reached. |
| FileCacheAgreement.ListingAgreesIff | src/HttpFileCache.cpp:466-503 | A listing, also one that starts over after another failed halfway, leaves index, table and files in agreement if and only if it evicts none of its rows before they are reached; a row that is evicted leaves an entry without row for good. |
| FileCacheAgreement.ListedAgainAgreesIff | src/HttpFileCache.cpp:466-503 | After a listing that failed halfway a row is listed again: the agreement is kept if and only if making space for the row does not evict the row itself; otherwise an entry without row and body is left. |
| FileCacheAgreement.ListedAgainFails | src/HttpCacheDatabase.cpp:269-283 | A concrete cache of ten bytes with one row of six loses that row when it is listed a second time. |
| FileCacheAgreement.StepAgrees | src/HttpFileCache.cpp:51-373 | Every public call, start-up included, keeps the key sets of index, table and files equal and the sizes right. |
| FileCacheAgreement.RunAgrees | src/HttpFileCache.cpp:51-373 | Over runs of any calls, forced purges, unmatched releases, a missing directory and listings that fail halfway included, index, table and files agree; if row deletions work as well, at most maxSize bytes are held and a reserved entry is being read. |
| FileCacheAgreement.InitialConsistent | src/HttpFileCache.cpp:35-43 | A cache with an empty table and directory is consistent. |
| FileCacheAgreement.RestartConsistent | src/HttpFileCache.cpp:488-503 | What a consistent cache leaves on disk is consistent again for the next start-up. |
| CacheContents.DoContents | src/HttpFileCache.cpp:51-373 | No call but a successful put or putMetadata of a key brings new metadata or a new body for it. |
| CacheContents.StepTells | src/HttpFileCache.cpp:51-373 | Each call, start-up included, answers a look-up with what was stored last for its key and keeps what is on disk equal to it. |
| CacheContents.ReadsLatest | src/HttpFileCache.cpp:51-290 | After any run within the assumptions of RunAgrees, a successful look-up returns the body of the latest successful put of its key and the metadata of the latest put or putMetadata, or what was on disk at first. |
| CacheContents.PutThenLaterGet | src/HttpFileCache.cpp:132-290 | What was put is what is got, however many calls come in between that store nothing for the key. |
| DeferredRemoval.RemoveDefers | src/HttpLruCacheStrategy.cpp:40-60 | Removing an entry that is being read succeeds, keeps the body for its readers and marks the entry. |
| DeferredRemoval.DueRefuses | src/HttpFileCache.cpp:65-69 | A marked entry refuses getMetadata, getData, get, putMetadata and put, and the attempt changes nothing about it. |
| DeferredRemoval.StaysDue | src/HttpFileCache.cpp:193-201 | While somebody reads it, a marked entry stays marked and gains no reader. |
| DeferredRemoval.DueUntilReleased | src/HttpFileCache.cpp:322-345 | Over runs, whatever else is called and fails: until the last reader releases, every use of a marked entry is refused. |
| DeferredRemoval.LastReleaseRemoves | src/HttpLruCacheStrategy.cpp:26-38 | The last release removes index entry, row and file if and only if both deletions work; otherwise the entry stays marked and unread. |
| CacheLoad.OldestGoFirst | src/HttpLruCacheStrategy.cpp:94-114 | On a freshly loaded index the rows given up are the fewest of the oldest. |
| CacheLoad.SpaceGivesUpOldest | src/common/LruCacheByDataSizeStrategy.cpp:222-248 | Making room for one more row gives up the shortest prefix of the rows loaded so far that is enough, and deletes exactly those. |
| CacheLoad.EnumerateLoads | src/HttpFileCache.cpp:466-476 | Adding one row keeps the loaded part the longest suffix that fits. |
| CacheLoad.LoadIsLongestSuffix | src/HttpCacheDatabase.cpp:263-278 | Start-up ends with exactly the longest suffix of the rows no bigger than maxSize whose sizes fit, newest first; exactly the other such rows are deleted and bigger ones stay in the table. |
| AccessOrder.StepStamps | src/HttpFileCache.cpp:51-290 | Whatever fails, a public call stamps the row of the key it uses with its time and leaves the stamps of all others; a get that reads its row uses it even if the body then cannot be opened. |
| AccessOrder.LookUpStamps | src/HttpFileCache.cpp:71-79 | After a successful getMetadata or get the row of the key is there and carries the time of that look-up. |
| AccessOrder.RowsTellLastUse | src/HttpCacheDatabase.cpp:190-232 | After any run, under any failures, every row carries the time of the latest successful put, putMetadata or getMetadata of its key or get that read it, or its old stamp if there was none. |
| AccessOrder.ListedByUse | src/HttpCacheDatabase.cpp:262-278 | With a clock that does not go back, the listing at the next start-up is in the order of the latest uses: of two keys the one used later is listed later, unless the clock showed the same time. |
| AccessOrder.RestartKeepsLatestUsed | src/HttpFileCache.cpp:488-503 | What the start-up after a run gives up was not used later than anything it keeps, and it keeps the longest run of latest used rows that fits. |
| Removals.RemovedIsGone | src/HttpFileCache.cpp:299-320 | A successful remove of an entry nobody reads leaves no entry, no row and no file; with a row in place it succeeds exactly when the deletions work; other keys are untouched. |
| Removals.PurgedIsGone | src/HttpFileCache.cpp:350-373 | A successful purge leaves no entry, row or file of anything indexed, and no row at all if the table can be dropped; when deletions work it fails only because of entries being read, and everything else is gone even then. |
| CacheAnswers.LookUpIff | src/HttpFileCache.cpp:51-182 | getMetadata succeeds exactly for an entry that is not due for removal and whose row can be read and stamped, getData exactly if the file can be opened, and get needs both. |
| CacheAnswers.PutMetadataIff | src/HttpFileCache.cpp:184-217 | putMetadata succeeds exactly for an entry that nobody reads and that is not due for removal, if the row can be written. |
| CacheAnswers.PutIff | src/HttpFileCache.cpp:219-290 | put succeeds exactly if nobody reads what it replaces and no removal of that is due, the body fits beside the bodies being read, and it can be moved in and its row written. |
| ThreadPoolSpec.InitialInv | src/executorservice/QueuedThreadPool.cpp:165-185 | A new pool is in order. |
| ThreadPoolSpec.StepCounted | src/executorservice/QueuedThreadPool.cpp:78-125 | The counter is the number of threads that will ask again and of those whose task threw: it never underflows, and is positive while tasks are queued. |
| ThreadPoolSpec.StepInv | src/executorservice/QueuedThreadPool.cpp:77-125 | Every step of callers, threads and shutdown keeps the counter, the ledger of tasks and their order right. |
| ThreadPoolSpec.RunInv | src/executorservice/RunnableWorker.cpp:28-44 | The invariant holds in every interleaving, those in which a thread leaves between a refusal and the decision that follows it included. |
| ThreadPoolSpec.PlaceForward | src/executorservice/QueuedThreadPool.cpp:77-125 | No step forgets a task, moves it back, or rejects one that was accepted. |
| ThreadPoolSpec.AcceptedStays | src/executorservice/QueuedThreadPool.cpp:77-125 | In every interleaving an accepted task stays accepted and only moves forward. |
| ThreadPoolSpec.NoTaskLost | src/executorservice/RunnableWorker.cpp:28-44 | In every reachable state tasks left the queue in order and every accepted task is queued, on one thread or finished; some thread is going to ask for a task if and only if the counter exceeds the number of tasks that threw. So while none has, queued tasks are served, and with no thread occupied the queue is empty and every accepted task has finished. |
| ThreadPoolSpec.StrandedUntilLaunch | src/executorservice/RunnableWorker.cpp:28-44 | Queued tasks are stranded if and only if the counter stands for threads alone whose task threw; they then stay queued, behind each other, until some start finds a thread for its own task. |
| ThreadPoolSpec.ThrowStrands | src/executorservice/RunnableWorker.cpp:28-44 | A run of one thread and two tasks that ends with the second in the queue and no thread occupied, because the first threw. |
| ThreadPoolSpec.RetryWaitsForExits | src/executorservice/QueuedThreadPool.cpp:86-91 | When the retry loop waits, every occupied thread is past its last request, needs no lock, and one departure lets the next attempt succeed. |
| ThreadPoolSpec.RetryMeasure | src/executorservice/QueuedThreadPool.cpp:86-91 | While it waits nobody can occupy a thread: the number of draining threads only goes down. |
| ThreadPoolSpec.WhileHeld | src/executorservice/QueuedThreadPool.cpp:78-112 | While one caller holds the lock the others change neither lock nor queue nor counter, and threads can only leave. |
| QueuedThreadPool.BlockingQueue.Push | src/executorservice/BoundBlockingQueue.cpp:38-49 | A full bounded queue refuses and is unchanged; otherwise the task is last. |
| QueuedThreadPool.BlockingQueue.Pop | src/executorservice/UnboundBlockingQueue.cpp:35-44 | The first task leaves the queue, or none if it is empty. |
| QueuedThreadPool.QueuedThreadPool.Start | src/executorservice/QueuedThreadPool.cpp:61-114 | With any steps of other callers, threads and shutdown in between: an execution error is answered if and only if a system error occurred in the last attempt; without one a thread runs the task if and only if the attempt finds one free, so always when one is free once the lock is held; the task is where the answer says, and the retry loop ends. |
| QueuedThreadPool.QueuedThreadPool.Attempt | src/executorservice/QueuedThreadPool.cpp:82-112 | One round, answered exactly: a system error, else a started thread if one is free, else a pause if the counter is zero, else a place in the queue or a refusal if that is full; after a pause fewer threads are left or fewer fruitless pauses remain. |
| QueuedThreadPool.QueuedThreadPool.Retrying | src/executorservice/QueuedThreadPool.cpp:81-112 | The loop makes another attempt only while no thread is free and the counter is zero; how it ends is settled by its last attempt. |
| QueuedThreadPool.QueuedThreadPool.WithoutThread | src/executorservice/QueuedThreadPool.cpp:84-104 | Threads may have left since the refusal: the counter alone decides between another round and the queue, whose limit decides between a place in it and a refusal. |
| QueuedThreadPool.QueuedThreadPool.Sleep | src/executorservice/QueuedThreadPool.cpp:86-91 | During the pause threads can only leave; either one does, or nothing happened to them. |
| QueuedThreadPool.QueuedThreadPool.GetNextTask | src/executorservice/QueuedThreadPool.cpp:117-125 | The oldest queued task is handed out, and the counter goes down exactly when there is none. |
| QueuedThreadPool.QueuedThreadPool.RunWorker | src/executorservice/RunnableWorker.cpp:28-44 | With the others going on in between, the worker finishes its own task and runs what it fetches exactly until run of one of them throws or a fetch finds the queue empty, leaves the pool, and no accepted task is lost meanwhile. |
| QueuedThreadPool.QueuedThreadPool.ThrowOut | src/executorservice/RunnableWorker.cpp:32-40 | A task that throws ends the loop of its worker without the counter being told. |
| QueuedThreadPool.QueuedThreadPool.Shutdown | src/executorservice/QueuedThreadPool.cpp:127-132 | Later starts are refused; accepted tasks are not touched. |
| ConnectionPoolSpec.ReleaseKeeps | src/ConnectionPoolInternal.cpp:166-202 | A release keeps every pooled connection idle exactly when it has a timer task and the idle count within the configured maximum; it reports whether the connection was parked. |
| ConnectionPoolSpec.VictimExpiresFirst | src/ConnectionPoolInternal.cpp:272-298 | The connection given up on a release expires no later than any idle one that is kept, and the maximum is then exactly reached. |
| ConnectionPoolSpec.ReusableIff | src/ConnectionInternal.cpp:65-142 | A connection can be handed out for a request if and only if it is pooled and idle and has the scheme (up to case), host, port, proxy and timeout of the request and, over https, its root certificates. |
| ConnectionPoolSpec.SupportedIff | src/ConnectionPoolInternal.cpp:98-113 | Connections are made for http and https, in any case, and for nothing else. |
| ConnectionPoolSpec.ReuseKeeps | src/ConnectionPoolInternal.cpp:244-270 | Reusing a connection keeps the pool in order. |
| ConnectionPoolSpec.CreateKeeps | src/ConnectionPoolInternal.cpp:132-137 | A new connection enters in use, uncancelled and without a timer task, and the pool stays in order. |
| ConnectionPoolSpec.RemoveKeeps | src/ConnectionPoolInternal.cpp:144-164 | Removing a connection, pooled or not, keeps the pool in order. |
| ConnectionPoolSpec.CancelKeeps | src/ConnectionInternal.cpp:144-183 | Cancelling changes no status and no timer task. |
| ConnectionPoolSpec.FireKeeps | src/ConnectionPoolInternal.cpp:204-221 | A timer task, whenever it runs, keeps the pool in order. |
| ConnectionRuns.InitialExclusive | src/ConnectionPoolInternal.cpp:26-30 | An empty pool is in order. |
| ConnectionRuns.StepExclusive | src/ConnectionPoolInternal.cpp:71-88 | No step of any request or timer makes two holders share a connection. |
| ConnectionRuns.NoSharing | src/ConnectionPoolInternal.cpp:244-270 | Over all interleavings of get, create, release, remove, cancel, hand-over and timer steps no connection has two holders. |
| ConnectionRuns.TimerRemovesOnlyLatest | src/ConnectionPoolInternal.cpp:204-221 | The timer task of a release, run at any later moment of any run: it removes the connection if and only if that has been neither handed out nor given back since, and never touches another one; a release that gives up its own connection leaves a task that does nothing. |
| ConnectionRuns.OwnedIffUntouched | src/ConnectionPoolInternal.cpp:166-202 | Over any run a task belongs to its connection exactly as long as the connection is neither obtained nor given back and stays in the pool. |
| ConnectionRuns.ReuseMakesStale | src/ConnectionPoolInternal.cpp:257-263 | Reuse leaves the timer task of the last release without a connection, also if cancelling it comes too late. |
| ConnectionRuns.StaleForever | src/ConnectionPoolInternal.cpp:204-221 | Such a task does nothing whenever it runs later: it never removes the connection in use, nor after it is released again. |
| ConnectionRuns.OthersKeep | src/ConnectionPoolInternal.cpp:71-88 | However other requests run on, a holder keeps its connection, and a connection that left the pool never returns. |
| ConnectionRuns.NeverHeld | src/ConnectionPoolInternal.cpp:144-164 | A connection that left the pool and is unheld is never held again, so a reference kept to it can do no harm. |
| ConnectionRuns.HandedOutFits | src/ConnectionPoolInternal.cpp:71-88 | Whatever a step of any run hands out for a request, new or reused, goes to the host and port of the request, with its scheme, proxy, timeout and root certificates, then and in every later state. |
| ConnectionRuns.ObtainedWasOpened | src/ConnectionPoolInternal.cpp:244-270 | A connection that a run hands out again was opened earlier in the run, and for where the request goes that now gets it. |
| ConnectionRuns.OriginStays | src/ConnectionInternal.cpp:33-48 | However a run goes on, a connection goes where it went. |
| ConnectionPool.ConnectionInternal.SetInuseIfReusable | src/ConnectionInternal.cpp:65-142 | An idle connection becomes in use if and only if scheme up to case, host, port, proxy, timeout and, for https, root certificates are those of the request, field by field. |
| ConnectionPool.ConnectionStatusListener.OnIdle | src/HttpEngine.cpp:597-607 | The engine behind the listener forgets the connection exactly if it is its own, and says so. |
| ConnectionPool.ConnectionInternal.OnConnectionReleased | src/ConnectionInternal.cpp:202-225 | Only a connection in use can be released; its listener is told and dropped if it has forgotten the connection. |
| ConnectionPool.ConnectionInternal.Cancel | src/ConnectionInternal.cpp:144-183 | The cancelled flag is set for good, status and listener are left alone, and only a socket that fails to shut down is reported. |
| ConnectionPool.ConnectionPoolInternal.FindAndReuseConnection | src/ConnectionPoolInternal.cpp:244-270 | A reusable connection is found whenever the pool has one, it is where it was made for, and only its status and timer task change. |
| ConnectionPool.ConnectionPoolInternal.CreateConnection | src/ConnectionPoolInternal.cpp:90-142 | A fresh connection enters the pool, or nothing changes when the scheme is not http or https or no session can be made. |
| ConnectionPool.ConnectionPoolInternal.GetConnection | src/ConnectionPoolInternal.cpp:71-88 | A reusable connection is preferred; a new one is made only if there is none. |
| ConnectionPool.ConnectionPoolInternal.RemoveConnection | src/ConnectionPoolInternal.cpp:144-164 | The connection leaves the pool if it was there, and the answer says so. |
| ConnectionPool.ConnectionPoolInternal.ReleaseConnection | src/ConnectionPoolInternal.cpp:166-202 | The connection is parked with a new timer task, and one idle connection too many is given up; a cancelled or unknown one is not kept. |
| ConnectionPool.ConnectionPoolInternal.UpdateConnections | src/ConnectionPoolInternal.cpp:272-298 | Beyond the maximum exactly one idle connection is given up, one that expires first; every idle connection has a timer task, so none is missing. |
| ConnectionPool.ConnectionPoolInternal.CountIdle | src/ConnectionPoolInternal.cpp:274-290 | The loop counts the idle connections exactly and finds one that expires no later than the others. |
| ConnectionPool.ConnectionPoolInternal.OnKeepAliveTimeoutExpired | src/ConnectionPoolInternal.cpp:204-221 | The scan removes the connection whose current timer task it is, or none. |
| HeldConnections.Obtain | src/HttpEngine.cpp:343-357 | Getting or creating a connection is one enabled step of its holder; it goes to the host and port of the request, a new one is made only if no pooled one serves it, and a forced creation never reuses. |
| HeldConnections.GiveBack | src/ResponseBodyStreamWithoutCaching.cpp:36-47 | Releasing or removing a held connection is one enabled step by which its holder has none any more; a released one expires after the keep-alive time. |
| HeldConnections.GivenBackSettles | src/ConnectionPoolInternal.cpp:166-202 | A connection given back as reusable, pooled and uncancelled is idle afterwards with a timer task of its own, unless it is itself given up, which happens only when as many are idle as may be; in every other case it is out of the pool. |
| HeldConnections.HandedOver | src/ResponseBodyStreamWithoutCaching.cpp:62-73 | An exchange moves the connection from one holder to the other and leaves the pool alone. |
| HeldConnections.CancelAndUnpool | src/HttpEngine.cpp:548-551 | Cancelling a connection and, with any steps of others in between, taking it out of the pool are two enabled steps, whoever holds it; it stays cancelled and out. |
| BodyStreamSpec.RunOn | src/ResponseBodyStreamWithCaching.cpp:73-110 | The reads of a user followed by those of closing the stream are one run of reads. |
| BodyStreamSpec.RunSound | src/ResponseBodyStreamInternal.cpp:41-89 | Over any reads and failing writes no byte is lost, made up or reordered between network and reader, and the temporary file holds bytes received in a row, beginning where the recorded ones begin. |
| BodyStreamSpec.WholeIffKept | src/ResponseBodyStreamWithCaching.cpp:44-71 | The temporary file is all that was received if and only if every read that brought bytes found or made a file that took all of them. |
| BodyStreamSpec.OfferWithLength | src/ResponseBodyStreamWithCaching.cpp:168-189 | With a declared length, whatever the network sends: an offered body has that size on record and its file is all that was received if and only if every read kept its bytes; if no more than declared was to come, the body was received completely. |
| BodyStreamSpec.OfferWithoutLength | src/ResponseBodyStreamWithCaching.cpp:168-189 | Without a declared length an offered body was received to its end; the file is all of it if and only if every read kept its bytes. |
| BodyStreamSpec.OfferAfterClose | src/ResponseBodyStreamWithCaching.cpp:73-110 | The same for the reads of a user followed by the ones made on closing. |
| BodyStreamSpec.LateFileIsOffered | src/ResponseBodyStreamWithCaching.cpp:57-68 | For every body and every k: if the file can be created only after the first k bytes, the cache is offered the body without them, without a declared length and also with one that the body exceeds by k. |
| BodyStreamSpec.ShortWriteIsOffered | src/ResponseBodyStreamWithCaching.cpp:57-68 | For every body and every k: if a write stops after k bytes, the cache is offered these with the size of the whole body. |
| CachedBody.ReceivedIsServed | src/ResponseBodyStreamWithCaching.cpp:73-110 | If every read kept its bytes and the cache accepted the file, what is served later is byte for byte what was received, with that size on record: the whole body, unless the network sent more than the declared length. |
| BodyStreams.ContentStream.Read | src/ResponseBodyStreamInternal.cpp:62-74 | The network stream hands out its bytes in order; the end shows in a read that gets fewer bytes than asked for, and a failure is for good. |
| BodyStreams.ResponseBodyStreamInternal.Receive | src/ResponseBodyStreamInternal.cpp:41-89 | Answer and rest are those of the specified read: closed stream, bad arguments, end, failure, bytes, in this order. |
| BodyStreams.ResponseBodyStreamInternal.CreateTempFile | src/ResponseBodyStreamWithCaching.cpp:117-157 | There is one temporary file at most; a failed creation changes nothing and is tried again by the next read. |
| BodyStreams.ResponseBodyStreamInternal.ReadBytes | src/ResponseBodyStreamWithCaching.cpp:44-71 | Received bytes go to the reader and, if there is a file, as far as writing works to the file; the recorded size counts all of them. |
| BodyStreams.ResponseBodyStreamInternal.WriteTempFile | src/ResponseBodyStreamWithCaching.cpp:57-68 | What a failing write does not take is not missed, and later writes add nothing. |
| BodyStreams.ResponseBodyStreamInternal.SkipAll | src/ResponseBodyStreamInternal.cpp:129-195 | The loop terminates, its effect is that of the reads it made, and it succeeds if and only if the stream is open, the end is reached and no time-out was in the way; it always does at the end already, and when all reads work in time. |
| BodyStreams.ResponseBodyStreamWithoutCaching.Close | src/ResponseBodyStreamWithoutCaching.cpp:27-55 | A stream gives its connection back exactly once, as reusable if and only if the end was reached without trouble, so always when the body had been read; it then expires after the keep-alive time, and the listening engine no longer refers to it unless it left the pool. |
| BodyStreams.ResponseBodyStreamWithoutCaching.ExchangeToResponseBodyStreamWithCaching | src/ResponseBodyStreamWithoutCaching.cpp:62-73 | The connection moves to a new caching stream over the same network stream, and the old stream is closed without giving it back; a closed stream has none to move. |
| BodyStreams.ResponseBodyStreamWithCaching.IsValidResponseBody | src/ResponseBodyStreamWithCaching.cpp:168-189 | True exactly when the body may be offered: the declared length was written, or the end was reached. |
| BodyStreams.ResponseBodyStreamWithCaching.RemoveTempFile | src/ResponseBodyStreamWithCaching.cpp:191-203 | The file is gone, or, exactly when it is there and cannot be removed, the caller is told. |
| BodyStreams.ResponseBodyStreamWithCaching.PutCache | src/ResponseBodyStreamWithCaching.cpp:205-233 | The file and its recorded size are offered if a key can be made; a temporary file is left only if the cache did not take it and it cannot be removed, and then the caller is told. |
| BodyStreams.ResponseBodyStreamWithCaching.Close | src/ResponseBodyStreamWithCaching.cpp:73-110 | The connection is given back exactly once, as reusable if and only if the end was reached without trouble, so always when the body had been read; the body is offered if and only if the reads, skipped ones included, make it valid; closing again does nothing. |
| CacheDecisionSpec.AgeIsPlain | src/HttpCacheStrategy.cpp:189-218 | With times in order the 64-bit age is the received age plus now minus the time of the request (section 13.2.3 of RFC 2616). |
| CacheDecisionSpec.FreshIsPlain | src/HttpCacheStrategy.cpp:220-256 | The 64-bit lifetime is the integer one and not negative (section 13.2.4 of RFC 2616). |
| CacheDecisionSpec.WordsAreIntegers | src/HttpCacheStrategy.cpp:101-115 | No 64-bit sum wraps, so the test for serving from the cache is the one over the integers. |
| CacheDecisionSpec.ServedUntilExpiry | src/HttpCacheStrategy.cpp:115-142 | A stored response is served if and only if it is not no-cache and the time is before one fixed expiry; it never becomes servable again. |
| CacheDecisionSpec.NeitherIff | src/HttpCacheStrategy.cpp:58-65 | Network request and cached response are both missing if and only if only-if-cached meets no servable response. |
| CacheDecisionSpec.WarnedIff | src/HttpCacheStrategy.cpp:119-138 | Warning 110 marks exactly the responses served beyond their lifetime, which needs a max-stale the server has not ruled out; warning 113 exactly the heuristically fresh ones over a day old. |
| CacheDecisionSpec.KeptIffConditional | src/HttpCacheStrategy.cpp:144-176 | A stored response is kept beside a network request if and only if a condition can be made from it, and the request then carries that condition: If-None-Match with the entity tag, or else If-Modified-Since with the text of Last-Modified or Date. |
| CacheDecisionSpec.ConditionOfKept | src/HttpCacheStrategy.cpp:144-176 | The condition beside a kept stored response is If-None-Match with its entity tag if it has one, else If-Modified-Since with the text of its Last-Modified header, else with that of its Date header; without a kept response there is none. |
| CacheStrategy.HttpCacheStrategy.constructor | src/HttpCacheStrategy.cpp:22-66 | Preparing the headers and resolving gives the specified decision for every stored response, or none. |
| CacheStrategy.HttpCacheStrategy.ResolveCacheResponseAndNetworkRequest | src/HttpCacheStrategy.cpp:72-177 | The branches of the decision, with its early returns, refine the specified one. |
| CacheStrategy.HttpCacheStrategy.MakeConditionalRequest | src/HttpCacheStrategy.cpp:151-176 | If-None-Match gets the stored ETag, or without one If-Modified-Since the stored Last-Modified, else Date text; without any of them the stored response is dropped. |
| CacheStrategy.HttpCacheStrategy.CalculateCacheResponseAge | src/HttpCacheStrategy.cpp:189-218 | The age computed from the prepared fields is the 64-bit age of the stored response. |
| CacheStrategy.HttpCacheStrategy.CalculateFreshnessLifetime | src/HttpCacheStrategy.cpp:220-256 | The lifetime computed from the prepared fields is the 64-bit lifetime of the stored response. |
| HeaderMergeSpec.InsertValues | src/Headers.cpp:37-46 | Adding a field appends to the values of its name, changes no other name and keeps equal names together. |
| HeaderMergeSpec.HopByHopNames | src/HttpCacheStrategy.cpp:459-470 | Hop-by-hop are exactly the eight names of section 13.5.1 of RFC 2616, in any case. |
| HeaderMergeSpec.InsertNew | src/Headers.cpp:37-46 | A field of a new name goes to the end. |
| HeaderMergeSpec.MergedValues | src/HttpCacheStrategy.cpp:396-439 | Every end-to-end name of the network response has exactly its values; hop-by-hop names and Content-Length come from the cache only; other names keep the cached values without 1xx warnings (sections 13.5.1 and 13.5.3 of RFC 2616). |
| HeaderMergeSpec.MergeApart | src/HttpCacheStrategy.cpp:421-436 | The part from the cache and the part from the network share no name. |
| HeaderMergeSpec.MergeTwice | src/HttpCacheStrategy.cpp:396-439 | Merging the result again with the same network response gives the same list, order included. |
| HttpHeaders.Headers.Add | src/Headers.cpp:37-46 | The field goes after the first run of equal names, or to the end; an empty name throws and changes nothing. |
| HttpHeaders.Headers.Has | src/Headers.cpp:74-82 | True exactly when some field has the name in any case. |
| HttpHeaders.CombineCacheAndNetworkHeader | src/HttpCacheStrategy.cpp:396-439 | The two loops build the specified merge in a new object and leave both inputs as they were. |
| HttpHeaders.Keep | src/HttpCacheStrategy.cpp:407-424 | A stored header is kept exactly when it is no transient warning and the network does not replace it. |
| Engine.HttpEngine.SendRequestAndReceiveResponse | src/HttpEngine.cpp:313-381 | One attempt: a pooled connection is used if and only if one is idle that goes where the request goes and none is to be created; afterwards the engine refers to exactly the connection it got, if any, and listens to it; unless cancelled it responds exactly when sending and receiving work, with a body stream that owns the connection and reads the body received; a connection the server will close is out of the pool. |
| Engine.HttpEngine.Converse | src/HttpEngine.cpp:456-475 | Unless cancelled, the reply is a response exactly when sending and receiving work; the connection leaves the pool at once if and only if the server will not keep it open. |
| Engine.HttpEngine.GiveUp | src/HttpEngine.cpp:249-264 | A connection that failed is out of the pool and no longer held. |
| Engine.HttpEngine.TryOnce | src/HttpEngine.cpp:245-309 | A failed attempt leaves no connection behind and calls for a retry exactly when a reused connection failed with an execution error, nothing was cancelled and the body can be sent again; the connection used goes where the request goes. |
| Engine.HttpEngine.SendRequestAndReceiveResponseWithRetryByConnection | src/HttpEngine.cpp:241-311 | At most two attempts, each made by what it meets, the second if and only if the first failed on a reused connection, and on a new one; all go to the host and port of the request; connections that failed or that the server will close are out of the pool, and only the one that answered is held. |
| Engine.HttpEngine.Cancel | src/HttpEngine.cpp:535-554 | The first cancel cancels the connection the engine refers to and takes it out of the pool, with other threads going on in between, and reports a failing shutdown; a second cancel does nothing. |
| UserResponseSpec.QuietIff | src/HttpEngine.cpp:198-239 | No request goes out in two cases only: status 504 if and only if only-if-cached meets no servable response, and the stored response if and only if it is servable; and both only for a GET without Authorization, without condition header and without no-cache. |
| UserResponseSpec.RevalidatedIff | src/HttpEngine.cpp:91-99 | A stored response answers after asking exactly if a condition made from it went out and the answer is status 304 or has an older Last-Modified date; a 304 to any other request is passed on. |
| UserResponseSpec.StorableCodes | src/HttpCacheStrategy.cpp:327-364 | Which codes may be stored: ten always, 302, 307 and 308 only with Expires, max-age, public or private, and no others. |
| UserResponseSpec.StoredIff | src/HttpEngine.cpp:101-107 | What arrives is stored if and only if it answers a GET without Authorization, neither side says no-store, its code may be stored and its length is declared or it is chunked. |
| UserResponseSpec.WarnedValues | src/HttpCacheStrategy.cpp:119-138 | The warnings of the decision are added to the Warning values the stored response has, and no other header changes. |
| UserResponseSpec.ConditionStays | src/HttpEngine.cpp:171-214 | A condition header, once added, is in every later request of a chain of redirects, whatever url it was made for, and none of these is answered from the cache. |
| EngineExecution.HttpEngine.Consult | src/HttpEngine.cpp:216-220 | The decision is that of the cache strategy; a condition header ends up in the request of the user as well, since builder and request share the header list, and nothing else of it changes. |
| EngineExecution.HttpEngine.CreateUserResponseFromCacheResponse | src/HttpEngine.cpp:648-667 | Code and body are those stored, headers are merged and the Location is that of the network if it confirmed the response; the refresh of the table then comes first, also when the body cannot be opened. |
| EngineExecution.HttpEngine.CreateUserResponseWithCaching | src/HttpEngine.cpp:678-696 | The body of the network response is exchanged for one that stores what is read, the prior response is added, and nothing else changes. |
| EngineExecution.HttpEngine.CheckCacheBeforeSendRequest | src/HttpEngine.cpp:198-239 | A response without the network or an exception comes exactly when the strategy sends no request. |
| EngineExecution.HttpEngine.Execute | src/HttpEngine.cpp:72-123 | One of six routes, chosen as specified; the request sent is the user's with the condition of the decision, and whichever route it is, the answer is for that request, carries the prior response without its body, and shows code, Location, headers and kind of body of its origin; what is stored is removed exactly after a successful POST, PATCH, PUT or DELETE that is passed on, and refreshed exactly after a revalidation. |
| Revalidation.RefreshIff | src/HttpEngine.cpp:706-736 | The refresh after a revalidation takes place if and only if nobody is reading the stored body, no removal is due and the statements work; the row then has the new headers and times, and otherwise keeps the old ones. |
| Revalidation.MergedFact | src/HttpCacheStrategy.cpp:396-439 | Each header that freshness, age or a condition depends on is that of the confirming response if it has one, and the stored one otherwise. |
| Revalidation.RevalidatedServes | src/HttpEngine.cpp:648-736 | After a refresh and any calls that store nothing for the key, a look-up finds the refreshed metadata, and the cache answers with them until the expiry they give. |
| Revalidation.OldAgeStays | src/HttpCacheStrategy.cpp:396-439 | An Age header outlives a revalidation whose response has none; if it reaches the lifetime with max-stale the refreshed response is not served at any time. |
| Revalidation.AskedWithStored | src/HttpEngine.cpp:216-239 | The request that goes out while a stored response is kept has as If-None-Match exactly the first stored ETag value, or, without one, as If-Modified-Since exactly the first stored Last-Modified or else Date value; everything else is as the caller made it, and without a kept response all of it is. |
| RedirectSpec.ChainIsFollowed | src/HttpEngine.cpp:125-136 | The prior chain of a response is exactly the redirects followed, latest first, without bodies. |
| RedirectSpec.SchemeStays | src/HttpEngine.cpp:162-169 | However many redirects a call follows, scheme and method stay those of its first request, and only GET and HEAD follow any. |
| RedirectSpec.FollowedIff | src/HttpEngine.cpp:737-762 | A response is followed if and only if its status is 301, 302, 303, 307 or 308, the request was a GET or HEAD and its Location names a target of the same scheme; only a malformed target ends the call with an exception. |
| RedirectSpec.RetryHeadersValues | src/HttpEngine.cpp:171-193 | Every name keeps its values, except Authorization when scheme, host or port change. |
| RedirectSpec.RedirectedRequest | src/HttpEngine.cpp:138-196 | A redirected request goes to the target with the same method and all headers, Authorization left out if and only if the host or port changes. |
| RedirectSpec.AuthorizationFollows | src/HttpEngine.cpp:171-195 | Over a chain of redirects the Authorization header is there if and only if every request went to the first host and port; once left out it never comes back. |
| RequestExecutor.HttpRequestExecutor.MakeRetryRequest | src/HttpEngine.cpp:138-196 | The loop over the headers and the checks of the Location give the specified request, none, or an exception about the URI. |
| RequestExecutor.HttpRequestExecutor.Follow | src/HttpRequestExecutor.cpp:104-119 | A response ends the call unless it redirects; a redirect is followed exactly if its body, where there is one and a cache, can be read first. |
| RequestExecutor.HttpRequestExecutor.RunEngine | src/HttpRequestExecutor.cpp:93-102 | The new engine throws, or answers the request it sent with the given prior response, exactly as the stored response, the time and what arrives make it. |
| RequestExecutor.HttpRequestExecutor.ExecuteWithRetry | src/HttpRequestExecutor.cpp:87-125 | At most six engines run, each for the request its predecessor was redirected to, and each reply is what its engine makes of that request and of what it meets; the answer is the last reply, and the call ends early only because it was cancelled, an engine threw, a redirect body could not be read or a target is malformed, and gives up only after a sixth redirect. |

## Left out

- CacheSpec.AddOrUpdateBound: needs deletions that succeed; `CacheSpec.AddOrUpdateBoundIff` covers the others.
- FileCacheAgreement.RunAgrees: assumes that metadata is given with its own key and size, that no stored row is bigger than `maxSize`, that files can be deleted, and that a listing evicts none of its rows too early, which `ListingAgreesIff` shows to be necessary and `FirstListing` to be so for the first one; the reader theorem assumes none of this.
- CacheContents.ReadsLatest: makes the assumptions of `FileCacheAgreement.RunAgrees`.
- FileCacheAgreement.RestartConsistent: starts from a state kept with working row deletions, which is what bounds each stored body by `maxSize`.
- FileCacheRuns.RunTracks: excludes a forced purge, which drops entries that are being read, and releases that match no open stream.
- CacheDecisionSpec.WordsAreIntegers: assumes directives that are absent or not negative and times in order, as clocks and well-formed headers give; a negative directive becomes a huge unsigned number.
- ConnectionPool.ConnectionPoolInternal.ReleaseConnection: assumes that the new expiration time is representable, which holds for 290,000 years; the signed overflow beyond it has no defined result in the original.
- QueuedThreadPool.QueuedThreadPool.Start: the retry loop ends if only finitely many of its pauses go by without a thread leaving, which is the fairness the original relies on.
- QueuedThreadPool.QueuedThreadPool.RunWorker: the loop of the worker ends if only finitely many tasks are queued while it runs.
- BodyStreams.ResponseBodyStreamInternal.SkipAll: the time limit and the socket timeouts are inputs; a write that is buffered and lost only when the file is closed counts as one that fell short.
- Engine.HttpEngine.SendRequestAndReceiveResponse: whether sending and receiving work is an input; the bytes of request and response are not modelled.
- EngineExecution.HttpEngine.Execute: what arrives from the network is arbitrary; that it comes over a connection is the subject of module `Engine`, and what becomes of its body that of `BodyStreams`. Interceptors, which may answer for another request, are not modelled.
- Revalidation.RevalidatedServes: makes the assumptions of `FileCacheAgreement.RunAgrees`; how header texts are read is a parameter.
- `HttpRequestExecutor::cancel`, which passes the cancel on to the engine and closes the stream.
- Database corruption and the deletion of the whole cache that follows it.
- SQL statements, cursors, cache file names and digests: the table and the files are maps, and a key names its file.
- 32-bit and `size_t` overflow of byte totals, reader counts and queue sizes, which are unbounded here.
- The base class `LruCacheByDataSizeStrategy` used on its own: it is the case in which no entry has readers.
- AccessOrder.ListedByUse: `getData` and `releaseData` reorder the index but stamp no row, so a restart does not reproduce the order in memory; rows stamped in the same second may be listed either way.
- `getData` on a body file that is changed from outside, and concurrent reads of one stream by several threads.
- `shutdownAndJoinAll`, thread idle times and the deadlock freedom of graceful shutdown.
- Parsing of URLs, dates, numbers and Cache-Control headers: the model starts from what they yield.
- Builders, exception classes, `CacheManager`, header JSON and `put` of a byte buffer: plumbing or single branches.
- That builders share header objects elsewhere than where a condition header is set.
