# lt2http streaming engine: a verified model

lt2http streams files out of torrents over HTTP. With memory storage the pieces of a torrent live in
a fixed pool of buffers, readers ask for byte ranges, and a scheduler decides which pieces to
download next. This project models that engine in Dafny and proves what it keeps over whole runs.

`dafny verify dfyconfig.toml` checks the project.

| file | part of the system |
|---|---|
| `Arithmetic.dfy` | integer division and comparison helpers |
| `StoreModel.dfy` | the memory store as a value: state, invariant, what each operation does |
| `StoreEviction.dfy` | what the trim loop evicts and when it ends |
| `StoreOps.dfy` | reads and writes as operations on a map from pieces to bytes |
| `StoreRuns.dfy` | every sequence of calls: invariant, contents and access times against the history |
| `StoreAccounting.dfy` | slot accounting over runs, and what the counts say of the pool |
| `StoreService.dfy` | exactly when every write of every run is served, with and without growth |
| `StoreExamples.dfy` | two concrete runs: one that evicts, one that a growth leaves stuck |
| `GrowthOverlap.dfy` | overlapping calls that resize the pool |
| `Storage.dfy` | the store as an object with the loops of the program, proved against the model |
| `AllocationProtocol.dfy` | writers and trimmers interleaved on the allocation lock |
| `StoreInContext.dfy` | the protocol's critical sections are the store's operations; the schedule fits the store |
| `Readahead.dfy`, `Priorities.dfy` | the readahead window and the priorities it leads to |
| `PieceLayout.dfy`, `FileBuffer.dfy`, `RangeReader.dfy` | bytes and pieces, buffering a file, reading a range |
| `CivilDate.dfy`, `Weekdays.dfy` | the calendar arithmetic of the vendored date library |

## How the model reads

* Time is a strictly increasing clock: each reading of the system clock takes the next value.
  Buffers that were never used carry time 0.
* libtorrent's piece picker is two fields, the priority of every piece and the set of held pieces.
  Between two calls it may change both in any way.
* `trim` has no way out of a turn that finds no victim. The model of the loop reports this as
  `halts == false` and leaves it there; `TrimEndsIff` shows that no number of further turns ends it.
* Memory sizes are integers above minus one piece length, so that the pool is never of negative
  size; the division that sizes the pool is exact integer ceiling division.
* A call outside its contract is not made: `initialize` comes once and before `set_memory_size`,
  pieces belong to the torrent, and offsets stay within the piece.
* In the store, `is_completed`, `is_read`, `is_reading` and `reader_pieces` are never set or never
  consulted, so the branches on them are dead; the fields are not modelled.
* `is_handled` is taken as false until the torrent handle is set.
* The comments beside the pool size say "max possible buffers + 2"; the code adds nothing, and the
  model follows the code.
* The scheduler's readers come in the order of the reader map; their "iterated" flags are kept in a
  list of the scheduling loop.
* Waiting for a piece is a change of what is available: a read is given the pieces that the torrent
  has when it gets to them.

## Where the code falls short of what it is for

* A read cuts its remaining span by all bytes read so far, although the span was cut before. A read
  of three or more pieces therefore puts bytes in the wrong place and, as long as it stays in the
  caller's buffer, never delivers the full count: `FullServiceIff` and `PlacedIff` give the exact
  condition (at most two pieces), `ThreePiecesFallShort` an input.
* Such a read can also leave the caller's buffer: a span that starts past the buffer's end has a
  negative size, which the store takes as unsigned, so a whole piece is copied behind the buffer and
  counted. `InBoundsIff` gives the exact condition, `NineBytesLeaveBuffer` an input, and `CountIs`
  the count in every case.
* A read can run past the end of its file. `OverrunIff` says exactly when, for any number of pieces;
  for at most two pieces this is when the request passes the end of the file and the file does not
  end where a piece ends (`TwoPieceOverrunIff`, with `ReadRunsPastFile` as an input). With more
  pieces neither direction of that rule holds: `TwelveBytesStayInFile` passes the end and stays in
  the file, and the nine bytes of `NineBytesLeaveBuffer` are counted as twelve.
* Trimming spins for ever when fewer buffers are evictable than it needs: `TrimEndsIff`. Without
  growth, this can happen exactly when the pool has fewer than two buffers more than there are
  reserved pieces: `WritesNeverFailIff`, and `ReservingServesIff` for runs that change the reserved
  set under resident pieces.
* Growing the pool resets the limit and so forgets the slots charged for resident reserved pieces:
  `RunAccounting` says by how much the counts are then off. The trim loop then leaves the pool full
  and every write of a new piece returns 0 (`DebtHidesFullPool`; `GrownPoolIsStuck` is a run of eight
  calls, with the growth and the new reserved set of a second file's buffering, that ends so).
  `RunsServeIff` gives the exact condition after any run: all further writes are served if and only
  if no charge was ever forgotten and the pool has two buffers more than reserved pieces, or one was
  and the pool has a buffer for every piece of the torrent. `PreparedServesIff` says the same of one
  call of `start_buffer`.
* `set_memory_size` compares the size before it takes the lock. Calls that overlap keep the store's
  invariant if and only if the number of buffers they ask for never falls from one to the next
  (`OverlapIff`); a rise after a fall adds buffers whose index is not their position (`IndexedIff`).
  Two pieces are then linked to one buffer if and only if such a buffer is among those that a writer
  looks at (`SharedIff`; `TwoPiecesShareBuffer` is an input where it is, `StrayOutOfReach` one where it
  is not).

## Model

| member | source | states |
|---|---|---|
| StoreModel.FirstFree | src/bittorrent/memory_storage.cpp:274-277 | the allocation scan ends at the first free buffer, all before it being used |
| StoreModel.Victim | src/bittorrent/memory_storage.cpp:316-334 | a victim is used, not reserved and not the protected piece's buffer |
| StoreModel.RemoveKeepsInv | src/bittorrent/memory_storage.cpp:367-377 | evicting a used buffer keeps all links and frees exactly that buffer |
| StoreModel.TurnEvicts | src/bittorrent/memory_storage.cpp:310-335 | a turn of the trim loop evicts its victim and nothing else, or changes only the clock |
| StoreEviction.ScanFindsOldest | src/bittorrent/memory_storage.cpp:351-365 | the scan finds a candidate if there is one, and then the least recently accessed |
| StoreEviction.VictimIsFirst | src/bittorrent/memory_storage.cpp:316-334 | the two scans take the first evictable buffer by (wanted by a reader, last access); none only if nothing is evictable |
| StoreEviction.TurnKeepsOrder | src/bittorrent/memory_storage.cpp:310-335 | an eviction takes its victim out of the evictable buffers and leaves the order of the others |
| StoreEviction.TrimTakesFirst | src/bittorrent/memory_storage.cpp:303-336 | trimming evicts min(needed, evictable) buffers, the first ones in eviction order, never the protected or a reserved piece, and ends exactly when enough are evictable |
| StoreEviction.FirstOnesUnique | src/bittorrent/memory_storage.cpp:351-365 | the first so many evictable buffers are one definite set |
| StoreEviction.TrimOnlyEvicts | src/bittorrent/memory_storage.cpp:303-405 | trimming deletes whole pieces; all others keep buffer and bytes, and the picker forgets exactly the evicted ones |
| StoreEviction.SpinsForever | src/bittorrent/memory_storage.cpp:310-335 | without an evictable buffer no number of turns ends the loop |
| StoreEviction.TrimEndsIff | src/bittorrent/memory_storage.cpp:303-336 | the trim loop ends if and only if at least buffer_used - buffer_limit + 1 buffers are evictable |
| StoreOps.DealIsPrefix | src/bittorrent/memory_storage.cpp:137-147 | the destinations of a read together get a prefix of what is left in the buffer, each within its size |
| StoreOps.DealPlaces | src/bittorrent/memory_storage.cpp:137-147 | each destination gets the bytes from the sum of the sizes before it on, as many as its size or as are left |
| StoreOps.GetBufferKeepsInv | src/bittorrent/memory_storage.cpp:251-301 | a writer gets a buffer exactly when its piece has one or one is free; otherwise nothing changes |
| StoreOps.AssignContents | src/bittorrent/memory_storage.cpp:283-295 | an allocated piece starts out as zeros and changes no other piece |
| StoreOps.AcceptedIs | src/bittorrent/memory_storage.cpp:181-193 | a write copies the minimum of the room in the piece and the bytes offered, in the order of its chunks |
| StoreOps.WriteStores | src/bittorrent/memory_storage.cpp:164-209 | a write that gets a buffer returns that count; so many bytes of its chunks are in the piece from the offset on, and the rest of the piece is as it was, or zero |
| StoreOps.WriteRefines | src/bittorrent/memory_storage.cpp:164-209 | a write changes the plain map at its own piece only, less whole evicted pieces, none of them the written or a reserved one |
| StoreOps.WriteFails | src/bittorrent/memory_storage.cpp:171-179 | a write without a buffer, or before initialization, changes nothing and returns 0 |
| StoreOps.ReadRefines | src/bittorrent/memory_storage.cpp:122-162 | a read delivers the stored bytes from the offset on, as many as asked for and left in the buffer; nothing for a piece that is not resident |
| StoreOps.WriteThenRead | src/bittorrent/memory_storage.cpp:164-209 | what a write stored is read back right after the trim it triggers |
| StoreRuns.StepKeepsInv | src/bittorrent/memory_storage.cpp:59-116 | every call keeps links, zeroed free buffers, distinct access times and the pool size |
| StoreRuns.GrowKeepsInv | src/bittorrent/memory_storage.cpp:89-116 | growth adds free zeroed buffers and keeps all contents |
| StoreRuns.RunKeepsLinks | src/bittorrent/memory_storage.cpp:37-116 | in every reachable state piece-to-buffer and buffer-to-piece links are inverse, used means assigned, indices fit, free buffers are zero, and the pool has min(ceil(capacity/piece_length), piece_count) buffers |
| StoreRuns.StepMatchesLog | src/bittorrent/memory_storage.cpp:122-209 | every call keeps the contents equal to what the history of writes and evictions says |
| StoreRuns.RunMatchesHistory | src/bittorrent/memory_storage.cpp:122-209 | in every run a piece is resident exactly when written and not evicted since, and each byte is the last one written since allocation, or zero |
| StoreRuns.RunReadsLastWritten | src/bittorrent/memory_storage.cpp:122-162 | in every run each byte a read delivers is the last one written there since allocation |
| StoreRuns.RunKeepsLayout | src/bittorrent/memory_storage.cpp:37-237 | in every run each piece has the length that the torrent gave it, and the store is initialized and has its handle exactly if the run made these calls |
| StoreRuns.RunReserves | src/bittorrent/memory_storage.cpp:422-433 | nothing is reserved at first, and then what the last call named once the store is initialized |
| StoreRuns.RunStoresChunks | src/bittorrent/memory_storage.cpp:164-209 | in every run a write that gets a buffer returns min(length of the torrent's piece - offset, bytes offered), and the history has its own chunks' bytes from the offset on and what it had elsewhere |
| StoreRuns.RunFillsDestinations | src/bittorrent/memory_storage.cpp:122-162 | in every run a read of a resident piece fills its destinations in order with the history's bytes from the offset on, up to the piece length |
| StoreRuns.RunForgetsEvicted | src/bittorrent/memory_storage.cpp:379-405 | in every run with a torrent handle a piece that a write evicts gets priority 0 and is no longer held; every other piece keeps both |
| StoreRuns.RunKeepsRecency | src/bittorrent/memory_storage.cpp:159-202 | in every run access times order the resident pieces by when they were last read or written |
| StoreRuns.RunKeepsSizes | src/bittorrent/memory_storage.cpp:14-201 | in every run a piece's size is the number of bytes written to it since it was allocated |
| StoreRuns.RunEvictsLeastRecent | src/bittorrent/memory_storage.cpp:204-365 | in every run, when a write evicts one piece and keeps another that it might have taken, then with a handle the evicted one has priority 0 and the other has not, or else the history used the evicted one less recently |
| StoreExamples.ThirdWriteEvictsFirst | src/bittorrent/memory_storage.cpp:204-365 | a run of four calls after which the third piece's write evicts the first piece and keeps the second |
| StoreAccounting.StepDebt | src/bittorrent/memory_storage.cpp:89-116 | allocation, eviction and any change of the reserved set keep the debt; an effective growth adds buffer_size - buffer_limit |
| StoreAccounting.RunAccounting | src/bittorrent/memory_storage.cpp:283-295 | in every run used buffers = buffer_used + (buffer_size - buffer_limit) + debt of the growths so far |
| StoreAccounting.FreeBufferIff | src/bittorrent/memory_storage.cpp:274-295 | a buffer is free if and only if buffer_used plus the debt is below buffer_limit, and if and only if fewer buffers are used than there are |
| StoreAccounting.DebtHidesFullPool | src/bittorrent/memory_storage.cpp:303-306 | when only the debt fills the pool, trimming does nothing and every write of a piece without a buffer returns 0 and changes nothing |
| StoreService.FullPoolHasVictim | src/bittorrent/memory_storage.cpp:303-336 | without debt and with two buffers more than reserved pieces, a full pool has enough to evict, whatever the reserved set was before |
| StoreService.WriteKeepsSettled | src/bittorrent/memory_storage.cpp:164-209 | a write that returns leaves nothing to trim, keeps the debt and, where it held, the use count equal to the buffers of unreserved pieces, and gives a reserved piece one buffer more exactly if it allocated one |
| StoreService.EnoughServes | src/bittorrent/memory_storage.cpp:164-209 | with enough buffers a write gets one, stores all that fits and returns |
| StoreService.RunStaysServed | src/bittorrent/memory_storage.cpp:164-336 | and this holds after every run that keeps the reserved set and the memory size |
| StoreService.LastBufferSpins | src/bittorrent/memory_storage.cpp:303-336 | without debt, a write into the last free buffer of a pool of reserved pieces trims for ever |
| StoreService.SmallPoolGetsStuck | src/bittorrent/memory_storage.cpp:251-336 | without debt, a smaller pool has a run that ends in a write without buffer or an endless trim |
| StoreService.DebtGetsStuck | src/bittorrent/memory_storage.cpp:89-116 | with debt and fewer buffers than pieces, some run ends in a write that finds no buffer |
| StoreService.NeverStuckIff | src/bittorrent/memory_storage.cpp:164-336 | from any state between calls, every write of every run with the k reserved pieces it has is served if and only if buffer_size >= k + 2, or, in debt, buffer_size is the number of pieces |
| StoreService.InitializedIsReady | src/bittorrent/memory_storage.cpp:76-85 | initializing a new store and reserving pieces gives the start state of such runs |
| StoreService.WritesNeverFailIff | src/bittorrent/memory_storage.cpp:164-336 | over all runs with k reserved pieces fixed and no growth, every write is served if and only if buffer_size >= k + 2 |
| StoreService.GrowKeepsSettled | src/bittorrent/memory_storage.cpp:89-116 | growth leaves nothing to trim, keeps the reserved set and adds the outstanding charges to the debt |
| StoreService.RunKeepsBegun | src/bittorrent/memory_storage.cpp:76-433 | every initialized state of every run that is not spinning is a state between calls |
| StoreService.RunsServeIff | src/bittorrent/memory_storage.cpp:89-433 | after any run of a store, with growths and changes of the reserved set wherever they fall, all further writes are served if and only if the growths forgot no charge and buffer_size >= k + 2, or they did and every piece has a buffer |
| StoreService.ReservingServesIff | src/bittorrent/memory_storage.cpp:422-433 | over all runs that may reserve any k pieces at any time, every write is served if and only if buffer_size >= k + 2, or, in debt, buffer_size is the number of pieces |
| StoreService.PreparedServesIff | src/bittorrent/file.cpp:105-112 | growing for a file if it needs more memory and reserving its pieces adds buffer_size - buffer_limit to the debt exactly if the pool grows, and all further writes are served exactly as this leaves the counts |
| StoreExamples.AfterGrowth | src/bittorrent/file.cpp:105-112 | a growth with one reserved piece resident, followed by a new reserved set, leaves a debt of 1 |
| StoreExamples.GrownPoolIsStuck | src/bittorrent/memory_storage.cpp:164-306 | three writes later the pool is full with buffer_used 3 below buffer_limit 4, trimming does nothing and writes of other pieces, the reserved ones included, return 0 |
| GrowthOverlap.AloneIsGrow | src/bittorrent/memory_storage.cpp:89-116 | a call that runs alone is the store's growth |
| GrowthOverlap.OverlapIff | src/bittorrent/memory_storage.cpp:89-116 | overlapping calls keep the invariant if and only if the wanted number of buffers never falls from one body to the next |
| GrowthOverlap.BodiesSurplus | src/bittorrent/memory_storage.cpp:97-115 | the pool then has as many buffers too many as the wanted number fell |
| GrowthOverlap.StrayIff | src/bittorrent/memory_storage.cpp:113-115 | one of the first n buffers does not carry its own position if and only if the wanted number rises after a fall while the pool has fewer than n |
| GrowthOverlap.IndexedIff | src/bittorrent/memory_storage.cpp:113-115 | every buffer carries its own position if and only if the wanted number never rises after a fall |
| GrowthOverlap.ScanIsGetBuffer | src/bittorrent/memory_storage.cpp:274-301 | the scan of buffer_size buffers is the store's allocation as long as the invariant holds |
| GrowthOverlap.SameIndexIff | src/bittorrent/memory_storage.cpp:113-115 | two buffers that a writer may get carry the same index if and only if the wanted number rises after a fall while the pool has fewer buffers than are wanted in the end |
| GrowthOverlap.SharedIff | src/bittorrent/memory_storage.cpp:274-288 | and exactly then two pieces are linked to one buffer once writers have asked for all pieces |
| GrowthOverlap.TwoPiecesShareBuffer | src/bittorrent/memory_storage.cpp:89-288 | overlapping calls for 4, 3 and 5 buffers let two pieces be linked to the same buffer |
| GrowthOverlap.StrayOutOfReach | src/bittorrent/memory_storage.cpp:89-288 | overlapping calls for 4, 3, 5 and 3 buffers leave a stray index and no shared buffer |
| Storage.MemoryStorage.constructor | src/bittorrent/memory_storage.cpp:37-74 | the object starts in the model's new state: every piece with its own length and no buffer, the pool sized by memory and piece count, nothing used or reserved |
| Storage.MemoryStorage.AddBuffers | src/bittorrent/memory_storage.cpp:113-115 | the append loop adds fresh buffers with consecutive indices |
| Storage.MemoryStorage.InitializePool | src/bittorrent/memory_storage.cpp:76-85 | initialization does what the model says and keeps the invariant |
| Storage.MemoryStorage.SetMemorySize | src/bittorrent/memory_storage.cpp:89-116 | resizing does what the model says: no effect for a size not above the capacity, else pool, limit and capacity are reset |
| Storage.MemoryStorage.UpdateReservedPieces | src/bittorrent/memory_storage.cpp:422-433 | the reserved set becomes the set of the listed pieces once the store is initialized |
| Storage.MemoryStorage.GetBuffer | src/bittorrent/memory_storage.cpp:251-301 | the object's allocation is the model's; the result says whether the piece has a buffer |
| Storage.MemoryStorage.FindLastBuffer | src/bittorrent/memory_storage.cpp:351-365 | the object's scan is the model's |
| Storage.MemoryStorage.RemovePiece | src/bittorrent/memory_storage.cpp:367-377 | the object's eviction is the model's and keeps the invariant |
| Storage.MemoryStorage.TrimOnce | src/bittorrent/memory_storage.cpp:310-335 | one turn of the object's trim loop is the model's turn |
| Storage.MemoryStorage.TrimTo | src/bittorrent/memory_storage.cpp:303-336 | the object's trim loop ends where the model's does, and fails to end exactly when the model's does |
| Storage.MemoryStorage.DealOut | src/bittorrent/memory_storage.cpp:137-147 | the copy loop of a read deals out the buffer and counts the bytes |
| Storage.MemoryStorage.Readv | src/bittorrent/memory_storage.cpp:122-162 | the object's read is the model's and leaves the contents alone |
| Storage.MemoryStorage.CopyChunks | src/bittorrent/memory_storage.cpp:181-193 | the copy loop of a write overlays the accepted bytes and counts them |
| Storage.MemoryStorage.StoreChunks | src/bittorrent/memory_storage.cpp:181-202 | copying, the piece's size and the access time are updated together |
| Storage.MemoryStorage.Writev | src/bittorrent/memory_storage.cpp:164-209 | the object's write, with its trim, is the model's |
| AllocationProtocol.NextKeepsInv | src/bittorrent/memory_storage.cpp:251-336 | every step of every writer and trimmer keeps the lock invariant, the reserved set changing at any time |
| AllocationProtocol.LockFreeIsExclusive | src/bittorrent/memory_storage.cpp:251-335 | in every interleaving, whenever the lock is free, no piece owns two buffers, no buffer serves two pieces and the slot accounting holds |
| AllocationProtocol.MutualExclusion | src/bittorrent/memory_storage.cpp:262-308 | at most one thread is inside the lock |
| AllocationProtocol.WriterServedOrFull | src/bittorrent/memory_storage.cpp:274-300 | a writer about to unlock has its buffer, or no buffer is free |
| AllocationProtocol.WriterReturns | src/bittorrent/memory_storage.cpp:251-301 | in every interleaving, when a writer's call returns, with or without having locked, its piece has a buffer at that moment or none is free |
| AllocationProtocol.TrimmerReturns | src/bittorrent/memory_storage.cpp:303-336 | in every interleaving, when a trimmer's call returns, the use count is below the limit at that moment |
| AllocationProtocol.TrimmerSparesProtected | src/bittorrent/memory_storage.cpp:356-363 | a trimmer never clears the piece it protects |
| AllocationProtocol.WritersAreAtomic | src/bittorrent/memory_storage.cpp:251-301 | what a writer leaves at unlocking is one atomic allocation of the first free buffer of the pool it found at locking, charged to the limit exactly if the piece was reserved when it looked |
| AllocationProtocol.TrimmersAreAtomic | src/bittorrent/memory_storage.cpp:308-365 | what a trimmer leaves is the pool it found less exactly the needed number of buffers: distinct, in use, none of the protected piece or of a piece reserved when it was picked; all others are untouched |
| AllocationProtocol.TrimmerTurnsIff | src/bittorrent/memory_storage.cpp:310-335 | a trimmer above the limit turns without effect if and only if no buffer serves a piece that is neither protected nor reserved |
| AllocationProtocol.WriterAlone | src/bittorrent/memory_storage.cpp:251-301 | a writer left alone gets through its call and makes the allocation that is due, charged as the reserved set says |
| AllocationProtocol.TrimmerAlone | src/bittorrent/memory_storage.cpp:303-336 | a trimmer left alone with enough buffers to pick from gets through its call |
| StoreInContext.StorePoolIsConsistent | src/bittorrent/memory_storage.cpp:251-301 | an initialized store is a consistent start for the protocol, with the store's debt |
| StoreInContext.AllocationIsGetBuffer | src/bittorrent/memory_storage.cpp:251-301 | an atomic allocation of the protocol is the store's allocation |
| StoreInContext.EvictionIsRemoval | src/bittorrent/memory_storage.cpp:367-377 | an atomic eviction of the protocol is the store's eviction |
| StoreInContext.ScheduleFitsStore | src/bittorrent/memory_storage.cpp:118-120 | prioritized pieces and reserved pieces together fit the buffers |
| Readahead.DedupElements | src/bittorrent/torrent.cpp:868-871 | removing repeats keeps the elements and leaves each once |
| Readahead.EnumerationIsWanted | src/bittorrent/torrent.cpp:855-870 | the round-robin enumeration holds exactly the pieces that some open reader has in front of it |
| Readahead.WindowIsFair | src/bittorrent/torrent.cpp:855-876 | the window has no repeats, only wanted pieces, at most the limit, and all wanted pieces if it is short of the limit |
| Readahead.WindowInTurns | src/bittorrent/torrent.cpp:855-876 | the window is filled nearest first and, at one distance, in the order of the readers: a piece that comes by some turn stands before every piece of the window that does not |
| Readahead.OneRound | src/bittorrent/torrent.cpp:857-875 | one round extends the window by the next round of the enumeration, or stops at the limit with a prefix of it |
| Readahead.CollectWindow | src/bittorrent/torrent.cpp:845-876 | the loop computes the first min(limit, total) entries of the deduplicated round-robin enumeration within one round more than the longest reader range |
| Priorities.GroupSizes | src/utils/numbers.h:55-59 | the group sizes int(2 * 1.7^(n-1)) are 2, 3, 5, 9, 16 |
| Priorities.TiersAreGroups | src/bittorrent/torrent.cpp:891-907 | the entries of the n-th group have priority 5, 4, 3 and then 2 |
| Priorities.TiersFall | src/bittorrent/torrent.cpp:899-907 | priorities never rise along the window and stay between 2 and 5 |
| Priorities.BuildRequests | src/bittorrent/torrent.cpp:878-911 | the two loops build the drop requests (memory storage only) and the raise requests by tier |
| Priorities.RequestsAre | src/bittorrent/torrent.cpp:878-911 | no piece is requested twice; outside the window exactly the prioritized pieces are dropped, inside exactly the missing ones below their tier are raised |
| Priorities.ScheduledIs | src/bittorrent/torrent.cpp:878-916 | the priority of every piece after the requests are taken |
| Priorities.NothingToRequest | src/bittorrent/torrent.cpp:878-911 | nothing is requested exactly when every missing window piece has its tier and nothing else is prioritized |
| Priorities.SchedulingSettles | src/bittorrent/torrent.cpp:878-919 | afterwards every prioritized piece is in the window, missing window pieces have at least their tier, none was lowered, and a second run requests nothing |
| Priorities.ReadaheadIsShare | src/bittorrent/torrent.cpp:823-829 | the limit is the percentage of the unreserved buffers, cut to a whole number, or 20 with file storage |
| Priorities.Prioritize | src/bittorrent/torrent.cpp:845-916 | one scheduling computes the window of wanted pieces within that limit, all of them if the window is short of it, and its requests |
| Priorities.ScheduleFitsBuffers | src/bittorrent/torrent.cpp:823-889 | with percents in 0..100, 100 times the number of prioritized pieces is at most (buffers - reserved) * percents, and that number is at most the unreserved buffers |
| PieceLayout.RegionIsMeeting | src/utils/pieces.h:6-16 | a piece is in the range of a region inside the torrent exactly when they share a byte |
| PieceLayout.MeetsIsSharing | src/utils/pieces.h:6-16 | sharing means a common byte, a piece's bytes being those from its number times the piece length to the next piece or the torrent's end |
| PieceLayout.PieceFromOffsetIs | src/bittorrent/reader.cpp:115-126 | the piece of a position stays in the file's range and is unclamped for positions inside the file |
| PieceLayout.PieceFromOffsetMonotone | src/bittorrent/reader.cpp:115-126 | later positions never give earlier pieces |
| FileBuffer.BuffersForPieces | src/bittorrent/file.cpp:105-108 | the total length of distinct pieces needs at least as many buffers as there are pieces |
| FileBuffer.LengthOf | src/bittorrent/file.cpp:64-72 | all pieces are full but the last, which has the rest of the torrent |
| FileBuffer.ToBufferIsEnds | src/bittorrent/file.cpp:74-98 | a piece is to be buffered if and only if it holds one of the first or last so many positions of the file |
| FileBuffer.PlannedIsWanted | src/bittorrent/file.cpp:64-72 | a planned piece has a positive priority, at least that of any entry of a readahead window |
| FileBuffer.PoolHoldsPieces | src/bittorrent/memory_storage.cpp:99-104 | a store with that much memory has a buffer for each of them |
| FileBuffer.BufferedFile.constructor | src/bittorrent/file.cpp:20-33 | a file carries the piece range of its bytes |
| FileBuffer.BufferedFile.AddBufferPiece | src/bittorrent/file.cpp:64-72 | a piece joins the plan once, at top priority, with its length |
| FileBuffer.BufferedFile.AddRange | src/bittorrent/file.cpp:84-86 | a range of pieces joins the plan in order and without repeats |
| FileBuffer.BufferedFile.CollectPieces | src/bittorrent/file.cpp:74-98 | the plan is exactly the pieces that meet the first or last bytes to buffer, in order, from the file's first to its last piece |
| FileBuffer.BufferedFile.StartBuffer | src/bittorrent/file.cpp:74-117 | afterwards the store has a buffer for every planned piece, first and last piece are reserved and no contents changed; the store's new state is the prepared one, the debt grows by buffer_size - buffer_limit exactly if the pool grew, and all later writes are served exactly if no charge was forgotten and there are 4 buffers (3 if first and last piece are one), or every piece has a buffer |
| RangeReader.TwoPieces | src/bittorrent/reader.cpp:77-103 | the first two pieces of a request are counted and placed as they should be |
| RangeReader.FullServiceIff | src/bittorrent/reader.cpp:83-103 | a request whose pieces are all there is served in full and within the buffer if and only if it touches at most two pieces |
| RangeReader.ThreePiecesFallShort | src/bittorrent/reader.cpp:91-94 | an input where three pieces are served and bytes are lost |
| RangeReader.PlacedIff | src/bittorrent/reader.cpp:83-103 | the served bytes all land in their places if and only if at most two pieces are served |
| RangeReader.ShortRequest | src/bittorrent/reader.cpp:69-70 | a request no longer than a piece touches at most two pieces |
| RangeReader.InBoundsIff | src/bittorrent/reader.cpp:91-94 | every span lies in the caller's buffer if and only if the last piece's span starts in it, at the sum of the counts of the pieces before |
| RangeReader.SpanStartIs | src/bittorrent/reader.cpp:91-94 | the closed form of that sum |
| RangeReader.CountIs | src/bittorrent/reader.cpp:77-103 | the count for any number of pieces: in bounds the last piece is cut to the room of its span; out of bounds all pieces count in full, less one if an earlier span was cut short |
| RangeReader.NineBytesLeaveBuffer | src/bittorrent/reader.cpp:91-94 | a request for 9 bytes over pieces of 4 leaves the buffer and is counted as 12 |
| RangeReader.OverrunIff | src/bittorrent/reader.cpp:66-103 | a read of any number of pieces stays within the file if and only if the last piece served ends in it, or is cut to the file's share by its span's room or by a span cut short before |
| RangeReader.StaysInFile | src/bittorrent/reader.cpp:66-103 | no read overruns a file that ends where a piece ends, and no in-bounds read a file in which its request ends |
| RangeReader.TwelveBytesStayInFile | src/bittorrent/reader.cpp:66-103 | a request that passes the end of the file over three pieces and stays in the file |
| RangeReader.TwoPieceOverrunIff | src/bittorrent/reader.cpp:66-103 | a read of at most two pieces stays within the file if and only if the request ends in it or the file ends where a piece ends |
| RangeReader.ReadRunsPastFile | src/bittorrent/reader.cpp:66-103 | a request for 4 bytes of a file of 2 that is counted as 4 |
| RangeReader.ReaderIsInTorrent | src/bittorrent/reader.cpp:37-47 | a reader's position and its file's end are pieces of the torrent, as the scheduler needs |
| RangeReader.RunIsFaithful | src/bittorrent/reader.cpp:83-103 | after any run of the store, what reads rely on holds if and only if the history's last bytes of every available piece are the torrent's |
| RangeReader.Reader.constructor | src/bittorrent/reader.cpp:11-21 | a new reader stands at the start of its range, in that position's piece, and ends in the piece of the range's end |
| RangeReader.Reader.ServePieces | src/bittorrent/reader.cpp:77-103 | the loop counts as the model says, leaves the buffer exactly when the last span starts past it and, for at most two pieces, fills the buffer with the torrent's bytes up to the first missing piece |
| RangeReader.Reader.Read | src/bittorrent/reader.cpp:61-113 | a read moves the position by the returned count, says exactly when its spans leave the buffer and, for at most two pieces, delivers the file's bytes from the position on |
| RangeReader.StreamIsContiguous | src/bittorrent/reader.cpp:61-113 | the outputs of any sequence of such reads together are contiguous bytes |
| RangeReader.ReadInTurn | src/bittorrent/reader.cpp:61-113 | one short read after the other, some stopping early, yields the contiguous file bytes from the start position |
| CivilDate.YearHoldsDay | src/utils/date.h:3095-3098 | the year-of-era formula picks the March year that holds the day |
| CivilDate.DaysRoundTrip | src/utils/date.h:3084-3103 | every day number converts to a valid date with that number |
| CivilDate.DateRoundTrip | src/utils/date.h:2970-2987 | every valid date is the date of its day number |
| CivilDate.ToDaysIncreasing | src/utils/date.h:3029-3039 | day numbers are strictly increasing in (year, month, day) order |
| CivilDate.CountsDays | src/utils/date.h:2970-2987 | the next day of the calendar has the next day number |
| CivilDate.EpochIsDayZero | src/utils/date.h:2970-2987 | 1970-01-01 is day 0 |
| CivilDate.DaysOfMonth | src/utils/date.h:2734-2748 | the days of a month are exactly those from its first to its last |
| CivilDate.YearInRange | src/utils/date.h:1701-1707 | the year of a day lies in a range exactly when the day lies between the range's first and last day |
| Weekdays.WeekdayIsExact | src/utils/date.h:1820-1827 | the unsigned 32-bit formula equals (z + 4) mod 7 for every 32-bit day number |
| Weekdays.WeekdaysFollow | src/utils/date.h:1820-1827 | 1970-01-01 is a Thursday, and the next day of the calendar falls on the next weekday |
| Weekdays.WeekdayDiffForward | src/utils/date.h:1902-1910 | the weekday difference is the forward distance of 0 to 6 days |
| Weekdays.MonthWeekdayRoundTrip | src/utils/date.h:3273-3292 | day number to weekday-of-month form and back is the identity, through a valid form |
| Weekdays.MonthWeekdayCounts | src/utils/date.h:3273-3282 | the form names the day's month and weekday, and its index counts the weeks back to the first such weekday of the month |
| Weekdays.MonthWeekdayUnique | src/utils/date.h:3259-3292 | every valid weekday-of-month form is rebuilt from its day number |
| Weekdays.LastWeekdayIsLast | src/utils/date.h:3466-3473 | weekday[last] lies in its month on that weekday, with no later one in the month |
| Weekdays.IsoYearLength | src/utils/date.h:5809-5818 | an ISO year has 52 or 53 whole weeks |
| Weekdays.IsoRoundTrip | src/utils/date.h:5809-5818 | formatted ISO year, week and weekday parse back to the same day, and the week is 1 to 53 |
| Weekdays.IsoDateUnique | src/utils/date.h:7702-7706 | every ISO week date parses to a day that formats back to it |
| Weekdays.IsoByThursday | src/utils/date.h:5346-5351 | the ISO year is the year of the week's Thursday and the week number counts the Thursdays of that year, as section 4.1.4 of ISO 8601:2004 defines them |
| Weekdays.KnownWeekDates | src/utils/date.h:5809-5818 | 1970-01-01 is Thursday of week 1 of 1970, the day before is of the same week, and 2016-01-03 is Sunday of week 53 of 2015 |

## Left out

- HTTP controllers, DTOs, authentication, logging and start-up: input, output and framework glue.
- Session configuration, the alert loop, the torrent registry and tracker downloads: libtorrent and network calls.
- libtorrent's picker, handle and piece deadlines: only priorities and held pieces are kept.
- `Torrent::update_state`, the status getters and buffering progress: branch tables and display values.
- Unlocked data access in `readv` and `writev` and the unlocked check's view of memory: each call is one atomic step outside `AllocationProtocol`.
- Growth among the steps of `AllocationProtocol` and in the runs of `StoreRuns`: there growths come one after the other; overlapping ones are the subject of `GrowthOverlap`, with no write between their bodies.
- 32-bit and 64-bit wrap-around of sizes and offsets, and the 16-bit range of years: integers are unbounded, except in the 32-bit weekday formula.
- Writes at an offset past the end of a shorter last piece: callers stay within the piece.
- Held pieces that are not resident: reads are modelled for pieces that are there with their bytes.
- Torrents with file storage in `FileBuffer`: they collect the same pieces and neither grow nor reserve anything.
- Memory sizes at or below minus one piece length: the pool would be of negative size.
- Files without bytes and buffer sizes that are not positive in `FileBuffer`: the plan would be empty or meaningless.
- Storage.MemoryStorage.Readv: destinations are given by their sizes and the bytes are returned, so aliasing of destinations is not captured.
- RangeReader.Reader.Read: the first read's call of the scheduler is not made (it changes no contents), and bytes copied past the buffer's end are counted and flagged but what they overwrite is not modelled.
- Character handling and locale facets of the date library's formatting and parsing: only the week arithmetic inside them.
- `ifaddrs.c`, path and URL helpers, build scripts: no strong property.
