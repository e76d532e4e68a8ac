# RAM-Link: page caches, leases and the wire, proved

RAM-Link lends a flat byte buffer over a small wire protocol. A provider (a phone running
`android/termux/server.py`, or a PC running `clients/windows/ramlink_memory_provider.py`) owns the
buffer and grants leases on blocks of it. Borrowers put LRU page caches in front of their lease, and
the Windows side puts an application memory API on top of one of those caches.

This project models those layers and proves what they promise each other.

- **LRU order** (`Lru`, `LruBounds`). The key order of the `OrderedDict`s as a sequence of page
  numbers. After any trace it is exactly the most recent `min(capacity, distinct)` pages by last use;
  a larger cache holds a superset; no cache of the same size can avoid the misses of a stretch that
  touches too many pages; and LRU misses at most `capacity` times as often as any other demand-paged
  cache, plus `capacity`.
- **Write-back page cache** (`PageCacheSpec`, `PageCacheOps`, `OrderedPages`, `PageCaches`). The cache
  of `ramlink_cache_manager.py` and, line for line the same but for one counter, of
  `ramlink_memory_api.py`. The class changes page buffers in place and is proved against a
  specification on values; `View` is the byte a reader sees at each offset.
- **What a write-back run loses** (`Transparency`, `CacheRuns`, `LostBytes`, `DirtyEviction`,
  `WorkingSet`, `FlatHistory`, `RemoteWrites`). The byte that readers see after a read or a write,
  exactly; which whole runs act as a plain byte array, exactly, decided from offsets, lengths and recency
  alone; what those answer, from the operations alone; and how often a run writes to the remote side.
- **Regions** (`RegionSpec`, `RegionHistory`, `MemoryApi`). Bump-allocated regions over one cache, against
  independent arrays, and what those answer from calls and replies alone.
- **Write-through page cache** (`WriteThrough`). The borrower's cache of `remote_cache.py`, against the
  plain bytes of its lease.
- **Leases** (`Leases`, `LeaseBooks`). First fit, expiry, and the dictionary of lease records.
- **Allocators** (`AllocatorSpec`, `AllocatorRuns`, `AllocatorHistory`, `ProviderBuffers`, `Providers`,
  `TermuxServers`). PC provider and phone server are one state machine that branches where their code
  differs. One request is one atomic step. The clock may advance at every reading inside a step and
  between steps; an `Event` records what the readings decided (which leases were found expired, which
  block was found, when a lease was stamped). Each class proves that every request is a legal event and
  that the object moves as the specification's `Step` does. `AllocatorHistory` says what that amounts to
  from requests and replies alone: every byte of the buffer, and every lease alive.
- **Wire** (`Wire`, `RequestStream`, `RequestCodec`, `Connections`, `ReplyAlignment`). The header, the
  decoder under any fragmentation, what a client sends for each request, the decode loop driving the
  phone's allocator and sending its replies, and the client's side of the replies.
- **Memory service** (`ServiceSpec`, `Transfers`, `Services`). The client that keeps one lease over a
  network that may break at every request, before or after the request is served.

Proofs use Dafny's `hide` statement as the first statement of a body to keep definitions that a proof
does not need away from the solver.

## What the code does not do, stated exactly

- **A dirty page that is evicted is lost.** Eviction takes the page out of the dictionary and then asks
  the flush to look it up again, which finds nothing
  (`clients/windows/ramlink_cache_manager.py:106-120`, `clients/windows/ramlink_memory_api.py:80-92`).
  The model keeps this, and says exactly when it shows. For one operation: `LoadTransparentIff`,
  `ReadTransparentIff` and `WriteTransparentIff`. For a whole run: `NoByteLostIff`, by a condition on
  offsets, lengths and recency under which the run is one of a plain array (`NothingLost`), and without
  which some bytes of the same run show a difference. Between page touches the condition is that no
  dirty page is evicted (`NoDirtyEvictionIff`); a working set that fits is a sufficient case
  (`WorkingSetTransparency`), and `WorkingSetTight` shows, for every page size and capacity, a run one
  page larger that loses a byte. `ACTIVE_CACHE.md` describes a cache that can be smaller than the data
  written through it; that is not what the code does.
- **Non-overlapping leases need atomic requests.** `protocol/ramlink_protocol.md` promises
  non-overlapping regions. Search and insert are two critical sections
  (`android/termux/server.py:138-146`, `clients/windows/ramlink_memory_provider.py:67-72`).
  `SearchesBeforeInserts` says exactly when two borrows interleaved between them come to share a byte:
  when the longer block would have fitted at the earlier of the two places. Two borrows of one length
  always do (`SameLengthMeet`). All other lease results take one request as one step.
- **Write acknowledgements.** The reply to a WRITE announces as many bytes as were written and sends
  none (`android/termux/server.py:235`). `AlignedIff` says exactly which requests leave a client that
  reads the announced length out of step.
- **A request retried after a reconnect keeps its old address**
  (`clients/windows/ramlink_memory_service.py:127-133`). `WriteLandsIff` and `ReadSeesIff` say exactly
  which answered transfers are still right: a write only if nothing but its first chunk was retried,
  under a lease that starts where the old one did; a read only if nothing was retried, or its first
  chunk was and the old address lies in the new lease. `EarlyRetryMisses` joins this with the allocator
  over whole runs: neither can happen before the lost lease has run out on the server.

## Model

| member | source | states |
|---|---|---|
| Lru.TrimmingIsTouching | android/termux/remote_cache.py:73-79 | inserting a page and then trimming leaves the same key order as evicting before inserting, so the two cache designs hit and miss alike |
| Lru.TouchRecent | clients/windows/ramlink_cache_manager.py:92-113 | while at most `capacity` distinct pages have been touched since some moment, they are exactly the last keys, all cached, and the next eviction takes none of them |
| Lru.TouchAllRuns | clients/windows/ramlink_cache_manager.py:92-113 | order and counters after a trace: misses as LRU counts them, and one hit or miss per touch |
| LruBounds.ExactState | clients/windows/ramlink_cache_manager.py:92-113 | after any trace the keys are distinct pages of it, min(capacity, distinct) many, in order of last use, and every absent page was used before all of them |
| LruBounds.ExactStateUnique | clients/windows/ramlink_cache_manager.py:92-113 | only one key sequence of a given length fits that description |
| LruBounds.Inclusion | clients/windows/ramlink_cache_manager.py:92-113 | on one trace a larger cache holds every page of a smaller one and misses no more often |
| LruBounds.FewPagesFewMisses | clients/windows/ramlink_cache_manager.py:92-113 | a stretch over at most `capacity` distinct pages misses each of them at most once, whatever was cached before |
| LruBounds.FaultBound | clients/windows/ramlink_cache_manager.py:92-113 | a stretch with more misses than `capacity` touches more pages than `capacity`, and any demand-paged cache of that size misses in it too |
| LruBounds.Competitive | clients/windows/ramlink_cache_manager.py:92-113 | on any trace LRU misses at most `capacity` times as often as any demand-paged cache of its size, plus `capacity` |
| PageCacheSpec.LoadCoherent | clients/windows/ramlink_cache_manager.py:92-120 | a load keeps the invariant: dirty pages are cached, cached pages have the exact length of their page (a short last one included), clean ones equal the remote page, remote reads equal misses, evictions are the misses no longer cached |
| PageCacheSpec.PageView | clients/windows/ramlink_cache_manager.py:99-113 | a reader sees the cached page where there is one and the remote page elsewhere |
| PageCacheSpec.LoadView | clients/windows/ramlink_cache_manager.py:105-120 | a load changes what readers see on the evicted page only, which falls back to its remote bytes |
| PageCacheSpec.LoadTransparentIff | clients/windows/ramlink_cache_manager.py:105-120 | a load is invisible to readers if and only if it evicts nothing or a page equal to its remote page |
| PageCacheOps.PutView | clients/windows/ramlink_cache_manager.py:148-149 | overwriting part of a cached page replaces exactly those bytes of what readers see |
| PageCacheOps.ReadTouches | clients/windows/ramlink_cache_manager.py:122-136 | a read touches each page of its range once, in address order, and writes nothing back |
| PageCacheOps.WriteTouches | clients/windows/ramlink_cache_manager.py:138-152 | so does a write |
| PageCacheOps.AccessCount | clients/windows/ramlink_cache_manager.py:127-134 | an access of L > 0 bytes at o touches (o+L-1)/P - o/P + 1 pages, exactly those with a byte of the range |
| PageCacheOps.FlushView | clients/windows/ramlink_cache_manager.py:154-158 | a flush keeps the invariant and what readers see |
| Transparency.ReadByte | clients/windows/ramlink_cache_manager.py:92-136 | whatever a read evicts, each byte seen afterwards is the one seen before if its page stays cached, by the LRU order alone, while the pages of the range are touched, and the remote one otherwise |
| Transparency.WriteByte | clients/windows/ramlink_cache_manager.py:92-152 | after a write each written byte is the new one if its page stays cached from its load to the end of the write, each other byte the old one if its page stays cached throughout, and the remote one otherwise |
| Transparency.ReadTransparentIff | clients/windows/ramlink_cache_manager.py:92-136 | a whole read is invisible to readers if and only if every byte that differs from its remote one lies on a page that stays cached |
| Transparency.WriteTransparentIff | clients/windows/ramlink_cache_manager.py:92-152 | a whole write acts as a slice assignment if and only if every written byte that differs from the remote one has its page cached from its load to the end, and every other such byte has it cached throughout |
| Transparency.ReadReturns | clients/windows/ramlink_cache_manager.py:122-136 | a read that is invisible to readers returns exactly the bytes they see |
| CacheRuns.ExecuteTouches | clients/windows/ramlink_cache_manager.py:79-113 | in every run from any state the recency order and the hit and miss counters are those of LRU on the trace of touched pages |
| CacheRuns.CounterAccounting | clients/windows/ramlink_cache_manager.py:79-113 | in every run remote reads equal misses, evictions are misses minus cached pages, at most `capacity` pages are cached, and hits and misses count the touches |
| CacheRuns.CacheCompetitive | clients/windows/ramlink_cache_manager.py:79-113 | in every run the miss counter obeys the competitive bound against any other demand-paged cache |
| LostBytes.NothingLost | clients/windows/ramlink_cache_manager.py:92-158 | a run in which no operation pushes out a page with a byte written since the last flush, a question about offsets, lengths and recency alone, gives every reply of a plain byte array and shows readers that array |
| LostBytes.NoByteLostIff | clients/windows/ramlink_cache_manager.py:92-158 | that condition is exact, from any recency order with nothing unsaved: it holds if and only if no prefix of the run, whatever it writes and whatever the cache and the remote side hold, shows readers anything but the plain array |
| LostBytes.LossShows | clients/windows/ramlink_cache_manager.py:105-120 | a run that fails it has a prefix of the same shape, over a zeroed remote, that shows a reader a byte other than the array's |
| FlatHistory.FlatAnswers | clients/windows/ramlink_cache_manager.py:122-158 | the plain array answers a read in range with the bytes last written, from the operations alone, and refuses exactly what is out of range |
| FlatHistory.ReadsLastWritten | clients/windows/ramlink_cache_manager.py:122-158 | so does the cache, in every run that loses no byte: each read returns at each offset the byte of the last write that has it, or the remote byte |
| FlatHistory.WorkingSetReads | clients/windows/ramlink_cache_manager.py:92-158 | and in particular in every run that touches at most `capacity` pages between flushes |
| DirtyEviction.CleanRun | clients/windows/ramlink_cache_manager.py:92-158 | a run of which no page touch evicts a page written since the last flush gives every reply of a plain byte array and shows readers that array, however many pages it touches |
| DirtyEviction.NoDirtyEvictionIff | clients/windows/ramlink_cache_manager.py:92-158 | and that is exact between page touches: a run evicts no dirty page if and only if the same run cut at the page boundaries loses no byte at any point |
| DirtyEviction.PagedRun | clients/windows/ramlink_cache_manager.py:122-152 | cutting every access at the page boundaries leaves the cache in the same state, counters included |
| DirtyEviction.FlushedRun | clients/windows/ramlink_cache_manager.py:154-158 | once a run that loses no byte is flushed, the remote side holds exactly the array's bytes |
| RemoteWrites.WriteAccounting | clients/windows/ramlink_cache_manager.py:115-158 | in every run, whatever it loses, the dirty pages are those written and not evicted since the last flush, and the remote side is written once for every page dirty at a flush and at no other time |
| RemoteWrites.CleanWrites | clients/windows/ramlink_cache_manager.py:115-158 | in a run that evicts no dirty page these are all the pages written since the last flush |
| WorkingSet.FittingRun | clients/windows/ramlink_cache_manager.py:92-113 | a run that touches at most `capacity` pages between flushes evicts no dirty page |
| WorkingSet.WorkingSetTransparency | clients/windows/ramlink_cache_manager.py:92-158 | so in every such run every reply is that of a plain byte array, and what readers see is that array |
| WorkingSet.WorkingSetTight | clients/windows/ramlink_cache_manager.py:105-120 | for every page size and capacity there is a run touching one page more that reads back an overwritten byte |
| PageCaches.ManagerShape | clients/windows/ramlink_cache_manager.py:67-73 | addresses the given remote size in pages of the given size; the capacity is the number of whole pages in the budget, and a budget below one page is refused |
| PageCaches.RegionShape | clients/windows/ramlink_memory_api.py:58-60 | addresses the whole remote memory in pages of 64 KiB; the capacity is exactly the number of whole pages in the budget, but at least one |
| PageCaches.FlushOneMore | clients/windows/ramlink_cache_manager.py:115-120 | writing one more dirty page back moves the remote bytes one page nearer to what readers see |
| PageCaches.AllFlushed | clients/windows/ramlink_cache_manager.py:154-158 | once every dirty page is written back the remote bytes are what readers see |
| PageCaches.PageCache.constructor | clients/windows/ramlink_cache_manager.py:67-83 | starts empty, in front of any remote bytes |
| PageCaches.PageCache.FlushPage | clients/windows/ramlink_cache_manager.py:115-120 | writes a cached page back, and does nothing for a page that is not cached |
| PageCaches.PageCache.EvictOldest | clients/windows/ramlink_cache_manager.py:105-110 | takes the oldest page out before flushing it |
| PageCaches.PageCache.LoadPage | clients/windows/ramlink_cache_manager.py:92-113 | follows the specification's load and returns the buffer of the page itself, not a copy |
| PageCaches.PageCache.Read | clients/windows/ramlink_cache_manager.py:122-136 | follows the specification's read, out-of-range requests included |
| PageCaches.PageCache.Change | clients/windows/ramlink_cache_manager.py:148-150 | changes the buffer of a page in place, marks the page dirty and makes it the most recent |
| PageCaches.PageCache.WriteOnePage | clients/windows/ramlink_cache_manager.py:143-152 | one turn of the write loop |
| PageCaches.PageCache.Write | clients/windows/ramlink_cache_manager.py:138-152 | follows the specification's write, out-of-range requests included |
| PageCaches.PageCache.Flush | clients/windows/ramlink_cache_manager.py:154-158 | in whatever order the dirty set is iterated, the remote bytes become what readers see and one write is counted per dirty page |
| RegionSpec.BumpedRegion | clients/windows/ramlink_memory_api.py:187-196 | allocated regions are non-empty, lie one after the other and end at the next free offset |
| RegionSpec.FillFlat | clients/windows/ramlink_memory_api.py:148-158 | filling a range one transfer at a time sets every byte of it and no other |
| RegionSpec.CutSplice | clients/windows/ramlink_memory_api.py:140-146 | changing bytes of one region changes that region's array and no other, and no unallocated byte |
| RegionSpec.CallCuts | clients/windows/ramlink_memory_api.py:127-222 | a call whose cache operations act as on one plain array does to the regions, and replies, what it would do on separate arrays |
| RegionSpec.RegionIsolation | clients/windows/ramlink_memory_api.py:57-222 | in every run of calls that pushes out no page with an unsaved byte, over all regions together, every reply is that of separate arrays, and each region holds its array |
| RegionSpec.RegionsWhileClean | clients/windows/ramlink_memory_api.py:57-222 | so in every run that evicts no dirty page, however many pages it touches, and in every run whose working set fits |
| RegionHistory.AllocationLaw | clients/windows/ramlink_memory_api.py:178-196 | in every run from a new memory, whatever the cache loses, an allocation is granted if and only if its size is positive and the sizes granted so far and this one sum to at most the remote memory |
| RegionHistory.ArraysTold | clients/windows/ramlink_memory_api.py:127-222 | separate arrays answer every call as the calls and replies before it say: a read returns the bytes last written to or filled into that region, and a call is refused exactly outside the region, once it is closed, or for a bad value |
| RegionHistory.RegionsLastWritten | clients/windows/ramlink_memory_api.py:57-222 | so does the region memory, in every run that pushes out no page with an unsaved byte |
| MemoryApi.RAMLinkMemory.constructor | clients/windows/ramlink_memory_api.py:178-185 | starts with nothing allocated and an empty cache over the given number of MiB |
| MemoryApi.RAMLinkMemory.Allocate | clients/windows/ramlink_memory_api.py:187-196 | hands out a new region at the next offset exactly if its size is positive and fits into what the regions so far leave of the MiB configured |
| MemoryApi.RAMLinkMemory.Flush | clients/windows/ramlink_memory_api.py:204-205 | flushes the cache and leaves the regions alone |
| MemoryApi.RAMLinkMemory.Close | clients/windows/ramlink_memory_api.py:219-222 | flushes the cache and closes every region |
| MemoryApi.MemoryRegion.Read | clients/windows/ramlink_memory_api.py:134-142 | reads inside the region only, and not after it was closed |
| MemoryApi.MemoryRegion.Write | clients/windows/ramlink_memory_api.py:134-146 | writes inside the region only, and not after it was closed |
| MemoryApi.MemoryRegion.Fill | clients/windows/ramlink_memory_api.py:148-158 | fills the whole region, one transfer at a time; a closed region or a value above 255 is refused |
| MemoryApi.MemoryRegion.Close | clients/windows/ramlink_memory_api.py:160-161 | closes this region and no other |
| WriteThrough.PageWritten | android/termux/remote_cache.py:123-126 | changing part of a cached page and writing the whole page back changes only that part of the memory, and every cached page still equals its page of the lease |
| WriteThrough.RemoteCache.constructor | android/termux/remote_cache.py:45-57 | holds the granted block with an empty cache of at least one page, whatever the budget, a negative one included |
| WriteThrough.RemoteCache.RemoteRead | android/termux/remote_cache.py:59-65 | the chunked read is one slice of the lease |
| WriteThrough.RemoteCache.RemoteWrite | android/termux/remote_cache.py:67-71 | the chunked write replaces one slice of the lease |
| WriteThrough.RemoteCache.LoadPage | android/termux/remote_cache.py:73-79 | inserts and trims; the page lies inside the lease, whose size is a multiple of the page size |
| WriteThrough.RemoteCache.TouchPage | android/termux/remote_cache.py:92-99 | hit or miss, the page is cached and most recent afterwards, and exactly one counter moves |
| WriteThrough.RemoteCache.StorePage | android/termux/remote_cache.py:123-126 | changes the buffer in place and writes it back, keeping every cached page equal to the remote page |
| WriteThrough.RemoteCache.Read | android/termux/remote_cache.py:81-104 | at any capacity a read returns the bytes of the lease and changes none of them, and order and counters are those of LRU; a negative length, which the check lets through, touches one page and returns bytes only when it wraps around that page |
| WriteThrough.RemoteCache.Write | android/termux/remote_cache.py:106-127 | at any capacity a write replaces exactly the written bytes of the lease; order and counters are those of LRU |
| Leases.FirstFit | android/termux/server.py:100-116 | over any leases in offset order the scan finds the smallest offset at which the block fits, and fails only if it fits nowhere in the buffer |
| Leases.ScanIsFirstFit | clients/windows/ramlink_memory_provider.py:54-62 | the same for the dictionary of leases, in whatever order it is listed before sorting |
| Leases.FirstFitAligned | android/termux/server.py:107-114 | a found block starts at a sector boundary |
| Leases.Conservation | android/termux/server.py:100-146 | the lengths of the leases alive at one moment sum to at most the size of the buffer |
| LeaseBooks.FirstGap | android/termux/server.py:107-116 | the cursor loop computes the scan |
| LeaseBooks.LeaseRecord.constructor | clients/windows/ramlink_memory_provider.py:17-20 | a new lease is stamped with the time of its clock reading |
| LeaseBooks.LeaseRecord.Alive | clients/windows/ramlink_memory_provider.py:21 | compares the expiry with a clock reading no earlier than the call |
| LeaseBooks.LeaseRecord.KeepAlive | clients/windows/ramlink_memory_provider.py:22-23 | a keepalive stamps the lease with the time of its clock reading |
| LeaseBooks.LeaseBook.Cleanup | clients/windows/ramlink_memory_provider.py:49-52 | a cleanup deletes only expired leases, and every one that had expired when it began |
| LeaseBooks.LeaseBook.SortedByOffset | clients/windows/ramlink_memory_provider.py:57 | lists exactly the wanted leases, in offset order |
| LeaseBooks.LeaseBook.Enter | clients/windows/ramlink_memory_provider.py:69-72 | enters a lease under the next id |
| AllocatorSpec.BorrowServed | android/termux/server.py:128-152 | a borrow is granted whenever its block fits among the leases alive when the step begins, no later in the buffer than the first such place, and clear of every lease alive when it is stamped; the block then starts as zeros and no other byte changes |
| AllocatorSpec.StepInvariant | android/termux/server.py:100-168 | every step of phone or PC keeps the alive leases in whole sectors inside the buffer and apart, although on the phone expired entries may stay under blocks granted again; on the PC no two entries meet at all; ids are never taken back and the clock never turns back |
| AllocatorSpec.ReadBack | android/termux/server.py:227-271 | on the phone a read right after a write of the same range, in bytes or in sectors, returns what was written; a write touches no lease and is refused exactly outside the buffer or above one transfer |
| AllocatorRuns.LeaseSafety | android/termux/server.py:47-168 | in every state of every run, on phone and PC, alive leases are whole sectors inside the buffer, no two overlap, and their lengths sum to at most the buffer |
| AllocatorRuns.GrantsIncrease | clients/windows/ramlink_memory_provider.py:69-72 | lease ids are never reused, on phone or PC |
| AllocatorRuns.KeepAliveSafety | android/termux/server.py:36-52 | on phone and PC, a lease kept alive in time and not released stays with its block, and no byte of its block is granted again, whatever other clients do |
| AllocatorRuns.SearchesBeforeInserts | android/termux/server.py:138-146 | two borrows of any lengths that both search before either inserts come to hold a byte in common if and only if the longer block would have fitted at the earlier of the two places found |
| AllocatorRuns.SameLengthMeet | clients/windows/ramlink_memory_provider.py:67-72 | two such borrows of one length find the same block and hold it at once |
| AllocatorHistory.AccessReply | android/termux/server.py:227-271 | the phone serves exactly the accesses inside the buffer and one transfer, in bytes or sectors, the PC only inside the buffer; a read returns the bytes of its range |
| AllocatorHistory.StepByte | android/termux/server.py:128-272 | after every step of phone or PC each byte is that of a write done there, 0 in a granted block, and the old byte everywhere else |
| AllocatorHistory.MemoryIsHistory | android/termux/server.py:128-272 | in every run each byte of the buffer is the one last written or zeroed there, from requests and replies alone |
| AllocatorHistory.ReadsReturnHistory | android/termux/server.py:227-271 | so READ and BLOCK_READ return at each offset the byte last written or zeroed there, whoever wrote it, and the phone serves exactly those in range |
| AllocatorHistory.StepEntry | android/termux/server.py:118-225 | after every step each entry of the lease table is what the reply says of it: granted, renewed for 120 seconds, released or unchanged, unless a look at the clock found it expired and deleted it |
| AllocatorHistory.AliveIsHistory | android/termux/server.py:36-225 | in every run, on phone and PC, a lease is alive exactly if it was granted, not released since and is not yet due, from requests, replies and stamps alone |
| AllocatorHistory.ReleaseOutcome | android/termux/server.py:161-219 | a release takes the lease away and no other; the PC answers Done exactly if it had the id, the phone if the lease is alive at the end and only if it was alive at the beginning |
| AllocatorHistory.ReleaseServes | clients/windows/ramlink_memory_provider.py:54-101 | once a release is answered Done, a borrow that fits the released block is granted as long as no grant since took a byte of it, whatever else happened, on phone and PC |
| AllocatorHistory.KeepAliveOutcome | android/termux/server.py:161-225 | a keepalive of an alive lease is answered Done and makes it due 120 seconds later; one not answered Done leaves no such lease |
| AllocatorHistory.SweepOutcome | clients/windows/ramlink_memory_provider.py:49-84 | INFO, a borrow and on the PC a keepalive leave no entry that had expired when they began |
| AllocatorHistory.InfoCounts | android/termux/server.py:177-180 | INFO counts at least the leases alive at its end and at most those alive at its beginning |
| AllocatorHistory.PlainReplies | android/termux/server.py:204-247 | BLOCK_INFO on the phone gives 512 and the number of sectors of the buffer, PING is answered, and neither changes anything |
| ProviderBuffers.StepRefines | clients/windows/ramlink_memory_provider.py:54-119 | the PC's flat memory behaves as one separate buffer per alive lease: a grant adds a zeroed one, a non-empty write changes the one it lies in, a release takes one away, and one is missing if and only if its time ran out |
| ProviderBuffers.LastWrites | clients/windows/ramlink_memory_provider.py:54-119 | in every run an alive lease holds exactly the zeros of its grant overwritten by the writes inside it since |
| ProviderBuffers.ReadReturnsLastWrites | clients/windows/ramlink_memory_provider.py:105-118 | a read that is let through returns the bytes last written to the lease it lies in |
| ProviderBuffers.AccessGuard | clients/windows/ramlink_memory_provider.py:105-111 | an access that is let through lies in the block of an alive lease, in exactly one if not empty; one of an allowed size that is refused lies in no lease still alive |
| Providers.RAMProvider.constructor | clients/windows/ramlink_memory_provider.py:26-32 | starts with a zeroed buffer of whole sectors, no lease, and next id 1 |
| Providers.RAMProvider.FreeRegion | clients/windows/ramlink_memory_provider.py:54-62 | cleans up and finds the first fit among the leases left |
| Providers.RAMProvider.Borrow | clients/windows/ramlink_memory_provider.py:64-77 | is one legal step: grants a zeroed block, or fails |
| Providers.RAMProvider.Release | clients/windows/ramlink_memory_provider.py:98-101 | is one legal step: takes any lease in the table away, expired or not; what that is worth is in AllocatorHistory |
| Providers.RAMProvider.GetLease | clients/windows/ramlink_memory_provider.py:79-84 | finds a lease that survives a cleanup |
| Providers.RAMProvider.KeepAlive | clients/windows/ramlink_memory_provider.py:102-104 | is one legal step: renews only a lease that survived a cleanup |
| Providers.RAMProvider.Holder | clients/windows/ramlink_memory_provider.py:107-110 | finds a lease alive when looked at that has the whole range; if none is found, every such lease has expired |
| Providers.RAMProvider.Read | clients/windows/ramlink_memory_provider.py:105-118 | is one legal step: a guarded slice of the memory |
| Providers.RAMProvider.Write | clients/windows/ramlink_memory_provider.py:105-115 | is one legal step: a guarded slice assignment |
| Providers.RAMProvider.Info | clients/windows/ramlink_memory_provider.py:89-96 | is one legal step: cleans up and counts the leases left |
| Providers.RAMProvider.Handle | clients/windows/ramlink_memory_provider.py:86-120 | every request is one legal step of the state machine, unknown operations included |
| TermuxServers.RAMLinkServer.constructor | android/termux/server.py:56-70 | starts with a zeroed buffer of whole sectors, no lease, and next id 1 |
| TermuxServers.RAMLinkServer.AliveLeases | android/termux/server.py:102-105 | the filter keeps leases alive when looked at and skips only expired ones |
| TermuxServers.RAMLinkServer.FindFreeRegion | android/termux/server.py:100-116 | finds the first fit among the leases seen alive |
| TermuxServers.RAMLinkServer.Borrow | android/termux/server.py:128-153 | is one legal step |
| TermuxServers.RAMLinkServer.GetLease | android/termux/server.py:161-168 | finds an alive lease and deletes one found expired |
| TermuxServers.RAMLinkServer.Release | android/termux/server.py:213-219 | is one legal step |
| TermuxServers.RAMLinkServer.KeepAlive | android/termux/server.py:221-225 | is one legal step |
| TermuxServers.RAMLinkServer.Info | android/termux/server.py:177-180 | is one legal step: cleans up and counts the leases left |
| TermuxServers.RAMLinkServer.Handle | android/termux/server.py:199-272 | every request is one legal step of the state machine |
| TermuxServers.RAMLinkServer.Read | android/termux/server.py:227-241 | is one legal step: a slice of the buffer, whoever holds it |
| TermuxServers.RAMLinkServer.Write | android/termux/server.py:227-235 | is one legal step: a slice assignment, whoever holds the range |
| TermuxServers.RAMLinkServer.BlockRead | android/termux/server.py:249-271 | is one legal step on whole sectors |
| TermuxServers.RAMLinkServer.BlockWrite | android/termux/server.py:249-264 | is one legal step on whole sectors |
| Wire.UnpackPackHeader | android/termux/server.py:20 | the 17-byte big-endian header decodes to the fields it was made from, within their 8, 64 and 32 bits |
| Wire.PackUnpackHeader | android/termux/server.py:281-283 | a header accepted by the decoder encodes back to the same 17 bytes |
| Wire.UnpackWeighs | android/termux/server.py:20 | decoding is big-endian: a number is the sum of its bytes weighed by their places, the first one most |
| Wire.HeaderLayout | android/termux/server.py:20 | "RML1", one byte of operation, eight of offset, four of length, most significant first |
| Wire.LeaseReply | android/termux/server.py:21 | the body of a BORROW reply gives back id, offset and length, in that order, in eight big-endian bytes each |
| RequestStream.RecvAll | android/termux/server.py:79-86 | however the stream is split on arrival, exactly the next `size` bytes are taken, or none if it ends before |
| RequestStream.ReceiveRequest | android/termux/server.py:227-264 | a header, the range checks of its operation, and the payload it calls for |
| RequestStream.StreamRoundTrip | android/termux/server.py:227-284 | decoding gives back every list of accepted requests, and then whatever follows it |
| RequestStream.DecodedIsPrefix | android/termux/server.py:227-284 | the decoder invents nothing: what it returns is accepted and encodes to the bytes it consumed |
| RequestCodec.MeaningOfEncoded | android/termux/server.py:196-284 | the server takes what a client sends for a request to ask exactly that request, for every request within the field widths |
| RequestCodec.EncodedMeaning | android/termux/server.py:196-284 | every accepted request is what a client sends for what the server takes it to ask, but for fields its operation does not use, and exactly so when those are 0 |
| RequestCodec.AcceptedIff | android/termux/server.py:227-264 | a request is accepted exactly if its range lies in the buffer and in one transfer |
| RequestCodec.AskedRoundTrip | android/termux/server.py:227-284 | from the bytes of any list of servable requests the server recovers exactly that list |
| Connections.Client | android/termux/server.py:276-287 | the decode loop carries out the requests that the peer encoded, in order and whatever the fragmentation, as one run of the allocator, and sends for each a reply that carries the answer; it stops at the first that gets none, or at the first that is malformed, out of range or cut short; the peer takes exactly these replies if and only if none is misannounced |
| Connections.AnswerCarries | android/termux/server.py:148-271 | a reply carries the lease, the bytes or the sectors that the allocator answered; none is sent exactly for a failure or a number too large for its field |
| Connections.AnswerIsReply | android/termux/server.py:196-271 | what is sent for an accepted request has the header and the body length that the wire result takes it to have |
| ReplyAlignment.TakeReplyIff | clients/windows/ramlink_memory_service.py:37-46 | what the client takes as one reply, exactly: a header with the magic and as many bytes as it says |
| ReplyAlignment.AlignedIff | clients/windows/ramlink_memory_service.py:37-46 | the client takes exactly the replies sent, to the last byte, if and only if no request was a WRITE, BLOCK_READ or BLOCK_WRITE of non-zero length |
| ServiceSpec.HeldLease | clients/windows/ramlink_memory_service.py:83-145 | after any history a socket is held exactly when a lease id is, exactly when the latest grant was not dropped; base and length are then those of that grant, and the reconnect counter counts the reconnects |
| Transfers.ChunkPasses | clients/windows/ramlink_memory_service.py:147-173 | chunk k starts k transfers into the range, is not empty, is small enough, and passes the provider's lease check if the range lies in the lease |
| Transfers.CalmWriteAsks | clients/windows/ramlink_memory_service.py:162-173 | when nothing breaks, request k of a write goes to the base plus the offset plus chunk k's start, with that chunk's data |
| Transfers.CalmReadAsks | clients/windows/ramlink_memory_service.py:147-160 | when nothing breaks, request k of a read goes to the base plus the offset plus chunk k's start, with that chunk's length |
| Transfers.CalmWrite | clients/windows/ramlink_memory_service.py:162-173 | when nothing breaks a chunked write is one slice assignment on the lease |
| Transfers.CalmRead | clients/windows/ramlink_memory_service.py:147-160 | when nothing breaks a chunked read is one slice of the lease and changes nothing |
| Transfers.WriteLandsIff | clients/windows/ramlink_memory_service.py:127-173 | a write that was answered throughout is where the client looks for it, whatever its data, if and only if no chunk was retried, or only the first under a lease that starts where the old one did |
| Transfers.ReadSeesIff | clients/windows/ramlink_memory_service.py:127-160 | a read that was answered throughout returns what the client's lease holds in the end, whatever the memory held, if and only if no chunk was retried, or the first was and its old address range lies in the new lease |
| Transfers.WriteThenRead | clients/windows/ramlink_memory_service.py:147-173 | reading without a break what a landed write wrote returns the data |
| Transfers.EarlyRetryMisses | clients/windows/ramlink_memory_service.py:99-133 | in every run, if the lost lease is not released and the new one is stamped before the old one is due, the new block starts elsewhere and has no byte of the retried range, whatever other clients do: a retried write does not land and a retried read does not see the new lease |
| Services.RemoteMemory.ConnectAndBorrow | clients/windows/ramlink_memory_service.py:83-93 | sends one BORROW of the configured MiB and holds exactly the lease that came back, whose block is zeroed; without a grant nothing changes |
| Services.RemoteMemory.RequestWithReconnect | clients/windows/ramlink_memory_service.py:127-133 | at once, or after a BORROW at the same address: the requests sent and the server's memory afterwards are settled by what happened to the attempts, an answered read returns the bytes at the address, and an answered write lies there |
| Services.RemoteMemory.KeepAlive | clients/windows/ramlink_memory_service.py:135-145 | sends a KEEPALIVE for the lease held and drops it if that fails; sends nothing without one |
| Services.RemoteMemory.Read | clients/windows/ramlink_memory_service.py:147-160 | every request sent, the state, the memory and the output are those of the chunk loop under whatever happened to each request; a settled read returns what the client's lease holds |
| Services.RemoteMemory.Write | clients/windows/ramlink_memory_service.py:162-173 | every request sent, the state and the memory are those of the chunk loop under whatever happened to each request; a steady write lands in the client's lease |
| Services.RemoteMemory.Release | clients/windows/ramlink_memory_service.py:193-204 | sends a RELEASE for the lease held, if one is, and gives the socket and the lease id up together |

## Left out

- PageCaches.PageCache.Read: assumes that requests to the remote side succeed, as do the other operations of the caches; an exception in the middle of one leaves a cached page ahead of the remote, which is not modelled.
- PageCaches.PageCache.LoadPage: one class stands for both write-back caches; `_Cache` keeps no eviction counter, and `hits`, `misses`, `remote_reads` and `remote_writes` are the same.
- PageCaches.RegionShape: sizes are given in bytes; the megabyte arguments of the constructors are multiplied out by the caller.
- RegionSpec.RegionIsolation: one-way, because a call is several cache operations when it fills a region; the exact condition is stated for the cache operations it lowers to.
- WriteThrough.RemoteCache.LoadPage: the provider behind the cache is an object with exact reads and writes, so that a lost lease is not modelled here.
- WriteThrough.RemoteCache.Read: a negative length at an offset whose page lies outside the lease is taken as refused by the provider; a provider that finds another alive lease around that page would answer.
- LruBounds.Competitive: the other cache may choose what to evict as it likes, offline too, but drops at most one page per miss and fetches none ahead of its use.
- TermuxServers.RAMLinkServer.Handle: the text of an INFO reply is reduced to the number of leases, and is any text on the wire. The phone checks reads and writes against the buffer bounds only, so no isolation between leases is claimed for it.
- Connections.Client: one connection at a time; what other connections do between its requests is covered by the runs of `AllocatorRuns`, not by this loop. The PC's loop is not modelled; it decodes the same headers and differs in its lease check, which `Providers` has.
- Services.Network.Exchange: takes the acknowledgement of a write as a header without a payload, because the reply as sent would leave the client waiting; the wire result is stated separately. A write that breaks is served whole or not at all, as the server receives the payload before it stores it.
- Services.Network.Borrow: grants the length asked for, a whole number of MiB, which is a whole number of sectors.
- AllocatorRuns.LeaseSafety: takes one request as one step; what two interleaved borrows can do is stated separately.
- MemoryApi.RAMLinkMemory.Close: exceptions raised by the flush are not modelled.
- Sockets, threads, locks and timeouts: replaced by atomic steps, a clock that never runs backwards, and a network that may break at any request.
- The local text API of the memory service and its clients: replaced by exact reads and writes.
- The Dokan adapter, the test drivers, menus, argument parsing, hashes, printing, `stats` and `status`, and `parse_size`: not part of this model; their chunk loops repeat those proved here.
