# Shared-memory sockets: a model and its proofs

The program passes bytes between processes through rings in shared memory. Rings are numbered by
an allocator that also lives in shared memory, named by pairs of ports, and used through a socket-like
interface. This project models those four layers in Dafny and proves what they promise.

| files | what they model |
|---|---|
| `Residues`, `RingProtocol`, `RingInvariant`, `RingRuns`, `RingCalls`, `RingProgress`, `RingSolo`, `RingLap`, `RingRoles`, `RingReuse` | `rb_read` and `rb_write` run by any number of threads, every load, copied byte and compare-and-swap a step of its own; and a ring handed from one connection to the next |
| `ByteRing`, `RingBuffers` | the same two calls with no other thread running, and the byte-at-a-time ring of `workspace/`, as classes over arrays |
| `FiniteSets`, `PoolModel`, `PoolGrowth`, `Pools`, `PoolConcurrent`, `PoolCalls`, `PoolRoles` | the index pool: one process on its own (values and classes), and one channel shared by threads |
| `RingNames`, `Directories`, `SharedKeys` | port pairs to ring indices, the handle cache, and the shared-memory keys |
| `PortValues`, `Handshake`, `Sockets`, `Connections`, `EndOfStream`, `ReceiveCalls`, `SecondRead`, `EndReported`, `ConnectionEnds` | the port table, `bind`/`connect`/`accept`/`close`, the wiring and the byte streams of a connection, what a connection leaves behind, and what `recvfrom` returns and when |

## How the ring is modelled

`RingProtocol.Concrete` is what the running program has: the words `head`, `tail`, `oldtail`, the data
area (its length is the capacity, any number from 2 up), and each thread's program counter with its
locals. `History` is bookkeeping that no step consults: absolute positions `h`, `o`, `t` whose
residues the three words are, the log of accepted writes in the order of swaps on `tail`, the log of
successful reads in the order of swaps on `head`, counts of failed swaps, and the queue of writers
between reservation and publication. A copy may visit its bytes in any order, and a retry keeps the
length it has already shortened.

Swaps compare residues, not positions, so runs come with two hypotheses. `RingRuns.TailRooms`: a swap
on `tail` that succeeds reserves room that is there at that moment. `RingRuns.HeadLaps`: a swap on
`head` that succeeds finds `h` less than a capacity ahead of the `head` value the reader loaded. Only
the side with several threads needs one: a single writer and a single reader meet them by themselves.
The one on `tail` is exact (`RingRuns.AlwaysExact`), and it follows when the head is in the same lap as
the tail, counted from the `head` value the writer loaded (`RingRuns.LapsGiveRoom`,
`RingRuns.TailCasExact`), in particular when less than a lap has passed. The swap on `oldtail` needs
no hypothesis. In terms of who uses the ring, every run is safe if and only if nobody writes, nobody
reads, or one thread writes and one reads (`RingRoles.SafeRoles`).

## What the code does not promise

* Several writers, or several readers, are safe only within a lap. At every capacity a slow writer can
  reserve room that is not there, after which a whole ring of bytes is undelivered and `rb_read` returns
  0 (`RingLap.TailLapNeeded`, `RingLap.NothingToRead`); a slow reader can deliver a byte twice
  (`RingLap.HeadLapNeeded`).
* Releasing a ring's index does not empty the ring. The next connection on that index receives the
  bytes left over first; it receives only its own if and only if `head` equals `tail` when the index
  changes hands (`RingReuse.LeftoverComesFirst`, `RingReuse.CleanHandOver`).
* A connection leaves nothing behind if and only if neither ring is looked up after it was last closed
  (`Sockets.SessionLeavesNothing`). A server that still sends after the client has closed names that
  ring again, and its own close does not let go of it (`Sockets.LateSendLeaks`).
* A pop that overlaps both another pop and a release can install a successor that has been taken:
  `PoolRoles.OverlapIsUnsafe` drives a channel of any size to hand out an index that a caller still
  owns. `PoolConcurrent.AlwaysExact` is the exact condition over runs; every run is safe if and only if
  at most one thread gets or no thread releases (`PoolRoles.SafeRoles`).
* The end of the stream may never be reported. A receiver that has everything returns if and only if it
  finds the peer's entry 0 (`EndReported.ReportedExactly`); if the closed peer's port is taken again
  before it looks, it polls for ever (`EndReported.EndCanBeMissed`).
* A client whose descriptor is 0 marks its port with a value that looks like a listening server
  (`PortValues.ClaimIsTaken`), and another client can win that port
  (`Handshake.ZeroDescriptorConfuses`).
* A client port above 32767 makes the descriptor that `accept` returns negative, and the other calls
  then index an array with it (`PortValues.AcceptFdUsable`).
* Ring keys fit a positive 32-bit key for indices up to 32767 (`SharedKeys.RingKeyFits`); with 4094
  indices a channel that is eight full channels and fifteen indices of the ninth.

## Model

| member | source | states |
|---|---|---|
| RingRuns.StreamIsDelivered | shm/RingBuffer.cpp:114-184 | From an initialised segment, over every interleaving of any number of readers and writers that meets the two hypotheses: the delivered bytes, in the order of swaps on `head`, are the first `h` bytes of the accepted bytes in the order of swaps on `tail`; each accepted write is a contiguous prefix of what its caller offered, and no read returns more than was asked |
| RingRuns.OneToOneIsDelivered | shm/RingBuffer.cpp:114-184 | The same, and the whole invariant, with one writer and one reader and no hypothesis at all |
| RingRuns.RunInv | shm/RingBuffer.cpp:114-184 | Every run keeps the invariant: `h <= o <= t < h + n`, words are their residues, unread cells hold the stream, pending reservations cut `o..t` into adjacent non-empty pieces; each hypothesis may be replaced by having a single thread on that side |
| RingRuns.AlwaysExact | shm/RingBuffer.cpp:155-168 | The hypothesis on `tail` is exact: over every run within the one on `head`, the invariant holds at every point if and only if every successful swap on `tail` reserved room that was there |
| RingRuns.LapsGiveRoom | shm/RingBuffer.cpp:155-168 | It holds of every run in which each successful swap on `tail` finds the head as many whole laps past the loaded head as the tail is |
| RingInvariant.StepInv | shm/RingBuffer.cpp:121-183 | Every load, copied byte and swap keeps that invariant |
| RingProtocol.Step | shm/RingBuffer.cpp:121-183 | Each atomic step of the two calls keeps every index inside the data area and leaves the capacity alone |
| RingProtocol.Slot | shm/RingBuffer.cpp:130-138 | Every byte of a transfer shorter than the capacity uses a cell inside the data area |
| RingInvariant.SlotIsResidue | shm/RingBuffer.cpp:170-178 | The two block copies put byte `k` of a transfer from position `p` into the cell of position `p + k` |
| RingInvariant.NewWord | shm/RingBuffer.cpp:139-165 | The new index computed with `%` is the residue of the advanced position |
| RingInvariant.WordsAreRemainders | shm/RingBuffer.cpp:139-182 | In every state that keeps the invariant the three words are the absolute positions modulo the capacity |
| Residues.WrapIsRemainder | shm/RingBuffer.cpp:139-165 | The residue of any position is what `%` computes |
| RingInvariant.ReadSizeIsDistance | shm/RingBuffer.cpp:124 | The two-case size of a read is the number of published unread bytes |
| RingInvariant.WriteSizeIsRoom | shm/RingBuffer.cpp:158-159 | The two-case size of a write is the number of free cells but one |
| RingInvariant.RoomIsSameLaps | shm/RingBuffer.cpp:155-159 | The room computed from the two loaded words, however old the head, is there now exactly when head and tail have made the same whole laps since |
| RingInvariant.DeliverFaithful | shm/RingBuffer.cpp:122-142 | A swap on `head` that succeeds within a lap found the head unmoved, and the reader's buffer is exactly the next bytes of the stream |
| RingInvariant.ReserveRoom | shm/RingBuffer.cpp:155-168 | A swap on `tail` that succeeds with the head in the lap of the tail reserves cells that are free now, though `head` was loaded before `tail`; less than a lap after the load it also found the tail unmoved |
| RingInvariant.PublisherIsOldest | shm/RingBuffer.cpp:179-182 | A pending writer's reserved start equals `oldtail`, as residues, exactly when it holds the oldest reservation |
| RingInvariant.PendingDisjoint | shm/RingBuffer.cpp:165-178 | Two pending reservations never overlap |
| RingRuns.SoleWriterStep | shm/RingBuffer.cpp:155-168 | A single writer meets the `tail` hypothesis at every step, in both forms |
| RingRuns.SoleReaderStep | shm/RingBuffer.cpp:122-142 | A single reader meets the `head` hypothesis at every step |
| RingRuns.HeadCasFaithful | shm/RingBuffer.cpp:139-142 | A successful swap on `head` compared equal positions if and only if it met the lap hypothesis |
| RingRuns.TailCasExact | shm/RingBuffer.cpp:165-168 | A successful swap on `tail` keeps the invariant if and only if the reserved length fits the room there is now; always when the head is in the lap of the tail, and only then when the writer took all the room it had computed |
| RingRuns.OldtailCasFaithful | shm/RingBuffer.cpp:179-182 | For `oldtail`, equal residues mean equal positions, with no hypothesis, so publication follows reservation order |
| RingRuns.ReaderCellsApart | shm/RingBuffer.cpp:130-138 | No step of any writer touches a cell of the published unread bytes |
| RingRuns.OptimisticReadValid | shm/RingBuffer.cpp:122-143 | If a reader's swap succeeds after its copy loop ran among any other steps, the head never moved in between and its buffer is exactly the stream from there |
| RingRuns.OptimisticReadUntouched | shm/RingBuffer.cpp:122-143 | ... and between its load of `oldtail` and that swap nobody wrote any cell it copies from |
| RingRuns.ReadZeroMeansEmpty | shm/RingBuffer.cpp:124-129 | `rb_read` returns 0 at its second load exactly when its caller asked for nothing or the ring was empty then (head less than a lap old) |
| RingRuns.WriteZeroMeansFull | shm/RingBuffer.cpp:158-164 | `rb_write` returns 0 at its second load exactly when its caller offered nothing or the tail is one cell short of whole laps past the loaded head, however old that head is |
| RingCalls.WriteExactly | shm/RingBuffer.cpp:146-184 | One call of `rb_write`, over every run and with no hypothesis: when it has ended, both words were loaded since its last failed swap, and it has added one entry of exactly the least of what was offered and the room its tries found, from the front of its input; none exactly when that is 0. Before that it has added nothing, or that entry while it copies |
| RingCalls.ReadExactly | shm/RingBuffer.cpp:114-144 | One call of `rb_read`, over every run and with no hypothesis: when it has ended it has added one entry of exactly the least of what was asked for and the bytes its tries found; none exactly when that is 0; and before that none |
| RingCalls.LocatedFromStart | shm/RingBuffer.cpp:139-182 | In every reachable state, with no hypothesis, the three words are the residues of their positions |
| RingRoles.SafeRoles | shm/RingBuffer.cpp:114-184 | At every capacity and for every set of writing and of reading threads: every run keeps the invariant if and only if nobody writes, nobody reads, or one thread writes and one reads |
| RingRoles.Breaks | shm/RingBuffer.cpp:114-184 | Otherwise a run of those threads breaks it |
| RingLap.TailLapNeeded | shm/RingBuffer.cpp:155-183 | At every capacity, for any three threads of which the second and third may be one, a run in which a stale swap on `tail` reserves room that is not there; once published, as many bytes as the ring has cells are undelivered and `head` equals `oldtail` |
| RingLap.NothingToRead | shm/RingBuffer.cpp:122-129 | There `rb_read`, for any length, returns 0 and delivers nothing |
| RingLap.HeadLapNeeded | shm/RingBuffer.cpp:122-142 | At every capacity, for any such three threads, a run in which a stale swap on `head` delivers bytes that are not a prefix of the stream |
| RingReuse.LeftoverComesFirst | shm/RingBuffer.cpp:79-112 | From any state of a ring, over every run: what readers receive from then on is a prefix of the bytes left over followed by what writers put in from then on |
| RingReuse.CleanHandOver | shm/RingBuffer.cpp:79-112 | A quiet ring with an idle thread gives its next users only their own bytes, over every run, if and only if `head` equals `tail` |
| RingReuse.StaleRead | shm/RingBuffer.cpp:112-144 | Otherwise a lone read returns a byte that was left over, although nothing was written since |
| RingProgress.OnePublisher | shm/RingBuffer.cpp:179-182 | Whenever reservations are pending, exactly one pending writer can pass the `oldtail` swap: the oldest |
| RingProgress.Drain | shm/RingBuffer.cpp:170-183 | From every state the pending writers alone, in reservation order, reach `oldtail == tail` in exactly (bytes not yet copied) + (pending writers) steps, so the spin loop never deadlocks |
| RingProgress.AmortisedLockFreedom | shm/RingBuffer.cpp:139-169 | Over every run, with no hypothesis: failed swaps on `tail` are at most (writers - 1) times the successful ones, and likewise for readers on `head` |
| RingProgress.TailAccount | shm/RingBuffer.cpp:167-169 | No step breaks the account that charges a failed swap on `tail` to the success that made its snapshot stale |
| RingProgress.HeadAccount | shm/RingBuffer.cpp:140-142 | The same for readers |
| RingSolo.SoloWrite | shm/RingBuffer.cpp:146-184 | From any state with no pending reservation, a call of `rb_write` that nobody disturbs has the result, data area and indices of the sequential write, and logs the bytes it took |
| RingSolo.SoloRead | shm/RingBuffer.cpp:114-144 | Likewise for `rb_read` |
| ByteRing.FastRefinesSimple | workspace/ringbuffer.cpp:34-68 | Over every sequence of operations from every ring, the two-block form and the byte loops give the same replies and leave the same data area and indices |
| ByteRing.RingRefinesQueue | workspace/ringbuffer.cpp:5-6 | ... and those are the replies and contents of a first-in first-out queue of capacity `n - 1` |
| ByteRing.FastWriteIsSimple | workspace/ringbuffer.cpp:58-62 | One write in the two forms |
| ByteRing.FastReadIsSimple | workspace/ringbuffer.cpp:40-44 | One read in the two forms |
| ByteRing.WriteIsEnqueue | shm/RingBuffer.cpp:158-178 | A sequential write accepts exactly min(offered, free) bytes and appends them to the contents |
| ByteRing.ReadIsDequeue | shm/RingBuffer.cpp:124-139 | A sequential read returns exactly min(asked, used) bytes, taken from the front |
| ByteRing.BlockWriteCell | shm/RingBuffer.cpp:170-178 | Each cell after the two block copies holds the input byte at its distance from the start, or what it held |
| ByteRing.PutBlockAt | shm/RingBuffer.cpp:170-178 | After a sequential write each entry of the contents is what it was or the byte of the input that belongs there |
| RingBuffers.RingBuffer.Read | shm/RingBuffer.cpp:114-144 | The array-backed `rb_read` is the sequential read: result, output, contents and untouched rest of the caller's buffer |
| RingBuffers.RingBuffer.Write | shm/RingBuffer.cpp:146-184 | The array-backed `rb_write` is the sequential write |
| RingBuffers.RingBuffer.CopyOut | shm/RingBuffer.cpp:130-138 | The one or two copies put the cells from `at`, going around, in the caller's buffer and leave the rest of it alone |
| RingBuffers.RingBuffer.CopyIn | shm/RingBuffer.cpp:170-178 | The one or two copies write the input to the cells from `at`, going around, and to no other |
| RingBuffers.CircularBuffer.Read | workspace/ringbuffer.cpp:34-50 | The byte loop computes the byte-at-a-time read |
| RingBuffers.CircularBuffer.Write | workspace/ringbuffer.cpp:52-68 | The byte loop computes the byte-at-a-time write |
| PoolModel.GetIsFresh | shm/Pool.cpp:95-110 | `get` returns a positive index that was not live, makes it and nothing else live, and appends a channel exactly when all are exhausted |
| PoolModel.GetFromExact | shm/Pool.cpp:95-110 | The walk takes the first index of the first channel that is not exhausted, numbered after all earlier channels |
| PoolModel.ReleaseIsExact | shm/Pool.cpp:112-119 | A legal `release` takes exactly its index out of the live set |
| PoolModel.ReleaseUndoesGet | shm/Pool.cpp:95-119 | `release` of what `get` returned restores the free lists, unless a channel was appended |
| PoolModel.LocateInverse | shm/Pool.cpp:97-117 | The subtraction loop of `release` inverts the prefix numbering of `get` |
| PoolModel.LocateExact | shm/Pool.cpp:114-117 | ... and every positive index has such a channel and local index |
| PoolModel.Partition | shm/Pool.cpp:95-119 | Of the indices 1 .. size * channels each is live or free, and not both |
| PoolModel.PopChain | shm/Pool.cpp:66-69 | Inside the array, a pop leaves the chain of the remaining free indices, including when the chain is empty and cell 0 is its own successor |
| PoolModel.PushChain | shm/Pool.cpp:77-80 | A push of an index that is not free leaves the chain with it in front |
| PoolGrowth.GrowthIsExact | shm/Pool.cpp:95-119 | After any legal run from a fresh pool the channel count is exactly what the peak number of live indices calls for, and no index above the peak was ever issued |
| PoolGrowth.NeededIsCeiling | shm/Pool.cpp:103-107 | What a peak calls for is max(1, ceil(peak / size)) channels |
| PoolGrowth.DoGrown | shm/Pool.cpp:95-119 | Each operation keeps the account behind that bound |
| Pools.Channel.constructor | shm/Pool.cpp:37-43 | A new channel's cells chain 1, 2, ..., size in order |
| Pools.Channel.Get | shm/Pool.cpp:63-73 | Pops the first free index, or returns 0 on an empty channel and changes nothing |
| Pools.Channel.Release | shm/Pool.cpp:74-83 | Pushes the index in front |
| Pools.Channel.AllocNextChannel | shm/Pool.cpp:59-62 | Links a fresh channel whose key is the next one, and records that key in the last cell |
| Pools.Pool.Get | shm/Pool.cpp:95-110 | The walk over the linked channels terminates and has the result and effect of the `get` on free lists |
| Pools.Pool.Release | shm/Pool.cpp:112-119 | The subtraction loop finds the right channel of the chain and has the effect of the `release` on free lists |
| PoolConcurrent.PoolIsSafe | shm/Pool.cpp:63-83 | Over every interleaving in which gets do not overlap one another, or gets do not overlap releases: the chain from cell 0 is acyclic and ends at 0, and free, owned and in-flight indices partition 1 .. size |
| PoolConcurrent.HandsOutFresh | shm/Pool.cpp:63-73 | ... and a get's successful swap takes an index nobody owns or is giving back, or 0 exactly when none is free |
| PoolConcurrent.PushIntact | shm/Pool.cpp:74-83 | A release's successful swap is right whatever happened since its load |
| PoolConcurrent.PopExact | shm/Pool.cpp:66-71 | A get's successful swap is right if and only if the successor it installs is still the successor |
| PoolConcurrent.AlwaysExact | shm/Pool.cpp:63-83 | Over every run, the channel is intact at every point if and only if every successful swap of a get installs the successor of that moment |
| PoolConcurrent.SoleGetterStep | shm/Pool.cpp:63-73 | With gets one at a time the loaded successor stays current, also across pushes on an empty channel |
| PoolConcurrent.PhaseStep | shm/Pool.cpp:63-73 | With gets and releases apart it stays current too |
| PoolCalls.GetEnds | shm/Pool.cpp:63-73 | A `get` ends only with a swap that finds in cell 0 the index it loaded: it takes that index, which was free and nobody's, or returns 0 and nothing was free |
| PoolCalls.ReleaseEnds | shm/Pool.cpp:74-83 | A `release` ends only with a swap that succeeds, and its index is then the first free one |
| PoolCalls.GetExactly | shm/Pool.cpp:63-73 | One `get`, over every run in which swaps install current successors: while it has not ended it has taken nothing; when it has, exactly one index, or the channel was empty at its last step |
| PoolCalls.AloneEnds | shm/Pool.cpp:63-83 | From any point of a `get` or `release`, stale loads included, the thread alone ends the call in at most five steps |
| PoolRoles.OverlapIsUnsafe | shm/Pool.cpp:63-83 | In a channel of any size, the empty case included, two getters and a releaser can bring a getter to where its next step succeeds and returns an index that is owned |
| PoolRoles.SafeRoles | shm/Pool.cpp:63-83 | For every size and every set of getting and of releasing threads: every run leaves the channel intact if and only if at most one thread gets or no thread releases |
| RingNames.TableFollowsPool | shm/RingBuffer.cpp:31-77 | After any sequence of lookups, attachments and closes from an empty start, the table is an injective view of the pool's live set and every cached handle has the index it is cached under; a pair has an entry exactly when it was looked up since its last close |
| RingNames.RunNames | shm/RingBuffer.cpp:31-77 | From any agreeing table, after any sequence of lookups, attachments and closes the agreement holds, and which pairs have an entry follows from their last lookup or close |
| RingNames.GetIdxAgrees | shm/RingBuffer.cpp:31-48 | A lookup keeps that agreement, returns the pair's entry, changes no other, and makes an index live exactly when the pair had none |
| RingNames.RbGetAgrees | shm/RingBuffer.cpp:66-77 | The cached or new handle under `k` has index `k` |
| RingNames.CloseReleases | shm/RingBuffer.cpp:50-112 | `close` clears and releases the same, live, index |
| RingNames.CloseAgrees | shm/socket.c:206-214 | `close` keeps the agreement, clears its pair's entry and no other, and takes exactly that entry's index out of the live set; for a never-used ring the live set does not change |
| RingNames.CloseUnusedRestores | shm/socket.c:206-214 | Closing a never-used ring restores free lists and table, unless the lookup had to append a channel |
| Directories.Directory.GetIdx | shm/RingBuffer.cpp:31-48 | The method over the shared table and the linked pool has exactly that effect |
| Directories.Directory.RbGet | shm/RingBuffer.cpp:65-77 | The method over the handle cache likewise |
| Directories.Directory.Attach | shm/RingBuffer.cpp:31-77 | `rb_get` of what `get_idx` returns is the handle of the pair's index, which is live; no other entry changes |
| Directories.Directory.Close | shm/socket.c:206-214 | The ring part of `close` likewise |
| SharedKeys.KeysApart | shm/RingBuffer.cpp:79-80 | In every reachable state with at most 32767 rings live at once, all ring keys are positive 32-bit keys; those of different pairs, of different port blocks and of different pool channels differ; and ring, port-block, pool-channel and listen-table keys never coincide |
| SharedKeys.IndicesBounded | shm/RingBuffer.cpp:31-48 | Every index in the table is at most the peak number of live rings |
| SharedKeys.RingKeyFits | shm/RingBuffer.cpp:80 | A ring key is a positive 32-bit key exactly for indices 1 .. 32767 |
| SharedKeys.RingKeyDecodes | shm/RingBuffer.cpp:80 | A ring's key is its index in the upper half and nothing in the lower; the key of a port's block is the port |
| PortValues.ClaimIsTaken | shm/socket.c:13-16 | A client's mark is told from a listening entry exactly when its descriptor is at least 1 |
| PortValues.MarkDecodes | shm/socket.c:16 | A client's mark holds its descriptor and its process |
| PortValues.EntryClasses | shm/socket.c:105-120 | The other values written fall in the class they are meant for, the -1 included, whose 32 bits are all set |
| PortValues.TakenDecodes | shm/socket.c:114-149 | `accept` recovers the client port from the value `connect` swapped in, which has bit 22 set above it and nothing else |
| PortValues.PackedPorts | shm/socket.c:14-15 | The port macros invert the packing of two ports, also when the packed value is negative |
| PortValues.AcceptFdUsable | shm/socket.c:150-162 | The descriptor `accept` returns is used at face value exactly for client ports up to 32767, and is negative beyond |
| PortValues.PortsPackedIsSum | shm/socket.c:113-150 | On 32-bit vectors, packing two ports with a shift and an or is the sum the model uses |
| PortValues.MarkIsSum | shm/socket.c:16 | Likewise for a descriptor and a process |
| PortValues.MasksAreRemainders | shm/socket.c:14-15 | The masks and shifts are remainders and quotients |
| Handshake.ClassFollowsOwner | shm/socket.c:101-110 | In every reachable state what `connect` sees in an entry is free, listening or taken exactly as nobody, an unmatched server, or somebody else is behind it |
| Handshake.StepInv | shm/socket.c:59-127 | Every step keeps each entry's value tied to who is behind it and each client's claim its own, for descriptors from 1 up |
| Handshake.SwapMeetsServer | shm/socket.c:101-114 | A swap that succeeds does so on the entry of a server that nobody has taken |
| Handshake.SwapExact | shm/socket.c:101-119 | A client's swap succeeds if and only if the server whose entry it loaded is still there and nobody has taken it |
| Handshake.BindExact | shm/socket.c:76-89 | `bind` puts the process into a free entry, and changes nothing otherwise |
| Handshake.BinderIsSignalled | shm/socket.c:86-126 | From a `bind` that succeeds until the server closes, the process that a winning client loaded, and signals, is the one that bound the port |
| Handshake.OneWinner | shm/socket.c:96-127 | Between two closes of a server port, over every interleaving, at most one connect succeeds, and none if the port is taken |
| Handshake.PortsAreDistinct | shm/socket.c:59-68 | In every reachable state claimed client ports are distinct and are no server's port |
| Handshake.LoserRestores | shm/socket.c:114-119 | A client that loses still owns its mark however long others run before its roll-back, which frees that entry and changes no other |
| Handshake.OwnEntryStays | shm/socket.c:111-120 | While a client holds a port nobody else's step touches its entry |
| Handshake.AcceptReadsWinner | shm/socket.c:149 | Until the server closes, its entry decodes to the winner's port |
| Handshake.WinnerTakes | shm/socket.c:111-119 | A successful swap takes the port for the client that did it, and the two ports differ |
| Handshake.ZeroDescriptorConfuses | shm/socket.c:96-119 | With descriptor 0, a run in which a client wins, and overwrites, another client's port that nobody bound |
| Handshake.RecordRun | shm/socket.c:111-121 | From its win until it closes a client keeps its two ports, and once connected its process has them on record under its descriptor, if no other client of the process uses that descriptor |
| Handshake.OpenStays | shm/socket.c:96-127 | Whatever anybody does on the port table, an end of a connection stays open until it closes |
| Handshake.OpenIsNotZero | shm/socket.c:192-205 | ... and until then its entry is not 0 |
| Sockets.FullDuplex | shm/socket.c:111-196 | After a win and an accept, for client ports up to 32767, with what `connect` recorded and what `accept` returned: each end sends to the ring the other receives from, the two rings differ, and so do their indices |
| Sockets.SidesRecorded | shm/socket.c:111-150 | `connect` has recorded the client's port and the server's under the client's descriptor, and `accept` returns the same two |
| Sockets.EndsMatch | shm/socket.c:163-184 | The descriptors of the two ends name the same two rings, crosswise: each sends on the ring from its own port to the other's |
| Sockets.AcceptedResolves | shm/socket.c:150-162 | An accepted descriptor, for client ports up to 32767, is looked up in no array: whatever is stored there, it stands for the server's own port and the client's |
| Sockets.ClosesOwn | shm/socket.c:201-214 | On the accepted descriptor `close` clears the server's port and the ring from the client's port to the server's; on the client's, the client's port and the ring the other way |
| Sockets.ConnectLooksUpOwn | shm/socket.c:121-124 | The ring a successful `connect` looks up is the one its descriptor receives from |
| Connections.ConnectionStreams | shm/socket.c:111-199 | After a win and an accept, over every run of any number of threads on all rings: what each end receives is a prefix of what the other sends over the two descriptors, if the two rings were empty when the connection got them and each has one writer and one reader or meets the hypotheses for many |
| Connections.EachOnItsOwn | shm/RingBuffer.cpp:114-184 | Rings of different indices run independently: what a run of all of them does to one is its own steps on it |
| ConnectionEnds.StreamIsReturned | shm/socket.c:111-199 | On either side of a connection whose ring was empty, with any number of threads: what the calls of `recvfrom` have returned is always a prefix of what the other side has sent; and when one with a positive length returns 0, it saw the peer's entry as 0 after the peer closed and the calls have returned all that the other side has sent, if every send finished before that close and the ring's swaps meet the hypotheses |
| Sockets.LoneConnect | shm/socket.c:96-121 | A client of the interleaved handshake that runs alone ends as the sequential `connect` does, recorded descriptor included; when it fails nothing has changed |
| Sockets.ResultsByClass | shm/socket.c:101-112 | `connect` returns -1 when the port is taken, -2 when nobody listens, and for a listening server 0 if some port is free and -1 if none is |
| Sockets.LeavesNothing | shm/socket.c:157-216 | Over every sequence of lookups, attachments and closes on two rings, from any agreeing table: names, and live indices, end up being those of the other rings if and only if neither pair is looked up after its last close |
| Sockets.SessionLeavesNothing | shm/socket.c:157-216 | So a connection whose rings were not in use before leaves names and live indices as they were if and only if neither ring is used again after its last close |
| Sockets.LateSendLeaks | shm/socket.c:157-216 | The client closes, the server sends, the server closes: the ring the server sends to is left named and live |
| Sockets.FirstFreeIsLowest | shm/socket.c:59-68 | The port scan returns 0 exactly when no port is free, and otherwise the lowest free one |
| Sockets.PortTable.GetFreePort | shm/socket.c:59-68 | The scanning loop marks that port and no other |
| Sockets.PortTable.Bind | shm/socket.c:76-89 | `bind` succeeds exactly on a free entry and changes no other |
| Sockets.SocketLayer.Connect | shm/socket.c:96-128 | The sequential `connect`: each return value with its condition on the old table, the new table, the stored descriptor, and the ring it names; every failing path leaves all of them unchanged |
| Sockets.SocketLayer.Writer | shm/socket.c:157-169 | `sendto` writes to the ring from the socket's own port to the port at the other end |
| Sockets.SocketLayer.Reader | shm/socket.c:178-190 | `recvfrom` reads the ring from the port at the other end to the socket's own |
| Sockets.SocketLayer.Close | shm/socket.c:201-216 | `close` frees the socket's own port, lets go of the ring it receives from, and changes nothing else |
| EndOfStream.ZeroMeansEnd | shm/socket.c:190-198 | With any number of sending and receiving threads on a ring in any state, whose swaps meet the hypotheses, and the port table run by everybody: if every send of the peer finishes before it closes, each call of `recvfrom` with a positive length that returned 0 saw the peer's entry as 0 after that close, and every committed byte has been delivered |
| EndOfStream.ZeroMeansEndOneToOne | shm/socket.c:190-198 | With one sending and one receiving thread this needs no hypothesis on the ring |
| EndOfStream.RingMeets | shm/socket.c:190-198 | The hypotheses on the ring follow from those of the ring's part of the run |
| ReceiveCalls.ReceiveExactly | shm/socket.c:178-199 | One call of `recvfrom`, over every run and with no hypothesis: while it has not returned it has taken nothing from the ring; it has returned a positive count exactly when it has taken one piece of that many bytes, no more than it asked for, which is what it returned; and 0 exactly when it has taken none |
| ReceiveCalls.ResultsAreDelivered | shm/socket.c:190-198 | Over every run, what calls of `recvfrom` have returned, by whom, for which length and which bytes, is exactly what was delivered from the ring, in the same order |
| SecondRead.SecondReadNeeded | shm/socket.c:192-194 | On every quiet empty ring, a run in which the entry is 0 right after `rb_read` returned 0 and yet a byte is undelivered, so the extra read is needed |
| EndReported.ReportedExactly | shm/socket.c:191-197 | Once the peer has closed and everything is delivered, a receiver that runs alone has a run in which it returns if and only if the peer's entry is 0 |
| EndReported.EndCanBeMissed | shm/socket.c:59-197 | If the peer's port is bound again, or claimed by another client as the lowest free one, between the close and the look, the receiver alone never returns |

## Left out

- Weak memory: steps are sequentially consistent, with one load per read in the source.
- System V calls, first-attach initialisation and reattachment of channels: the model starts from initialised segments and one process's view of the channel chain.
- Signals, `pause` and `kill`, the `get_idx` call of `accept` on its listening descriptor, and the rest of `accept` beyond the value it returns.
- Negative lengths; source port 0 (its key names a private segment); `rb_get(-1)`, `malloc` and attach failures; tracing; the unused `old_tail` load.
- 32-bit wrap-around of `head + len`: sums stay below twice the capacity, which is far below 2^31.
- shm/Connection.cpp, workspace/io.cpp, shm/Util.h, test and benchmark programs, and the copies under release/.
- RingProtocol.Step: concurrent code is modelled as transition systems on values, since methods of a class cannot interleave; the classes hold the same operations run alone, tied to the transition systems by RingSolo.SoloWrite, RingSolo.SoloRead and Sockets.LoneConnect.
- RingRuns.StreamIsDelivered: under contention a call may move less than there is room for, because a retry keeps the shortened length; RingCalls.WriteExactly and RingCalls.ReadExactly say how much, and RingSolo.SoloWrite and RingSolo.SoloRead for undisturbed calls.
- RingProgress.Drain: it gives a schedule that drains the ring from every state; fairness of the scheduler is not modelled.
- RingBuffers.CircularBuffer.constructor: size 0, for which the source divides by zero when it writes, and allocation failure.
- Pools.Channel.constructor: `key` takes the constructor's argument, which the source's constructor never stores in that field (shm/Pool.cpp:24 and 30).
- Pools.Pool.Get: the integers `prefix` and `key + 1` are unbounded; SharedKeys.KeysApart bounds them while at most 32767 rings are live.
- PoolConcurrent.PoolIsSafe: it is about one channel; two threads appending the next channel at once (shm/Pool.cpp:104-105) are not modelled.
- Directories.Directory.Close: the table, the cache and the pool are those of one process at a time; `get_idx` is one step, and a handle cached by another process is not modelled.
- Handshake.StepInv: `bind`, the port scan with its mark, and `get_idx` are single steps, as the source marks their multithread support as unfinished (shm/socket.c:39, 51 and 60); the results assume a client's descriptor is at least 1, and Handshake.ZeroDescriptorConfuses shows why.
- Connections.ConnectionStreams: the table of names stays fixed while the connection is in use; a ring looked up again after a close is the subject of Sockets.LeavesNothing.
- EndOfStream.ZeroMeansEnd: the polling loop of `recvfrom` is a state machine and not a method, since on its own it need not end; `sendto` is the peer's steps on the ring.
- Sockets.SocketLayer.Connect: with nobody else running its swap cannot fail, so the roll-back is in Handshake.LoserRestores only; descriptors from 1024 up, for which the source writes past the end of `client_fd_to_idx`, are excluded, there and in the handshake.
- Sockets.SocketLayer.Close: a descriptor that was never connected stands for ports 0 and 0, whose table of indices is a private segment of the process (likewise Writer and Reader).
