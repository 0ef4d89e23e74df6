# Expand: verified models of the concurrent, placement and recovery core

Expand (XPN) is a striped parallel file system. This project models the parts of it
whose correctness is hardest to see from one function, and proves in Dafny what those
parts are for. `dafny verify dfyconfig.toml` checks everything.

The modules, by component:

- **Thread pool.** `OperationsRing` is the bounded buffer with its critical sections as a
  class; `PoolProtocol` is the whole pool as a step machine in which one step is one
  critical section, one call or one return, a signal may release any sleeper, and spurious
  wake-ups are allowed; `PoolHandover` follows an operation from the thread into the queue,
  `PoolUse` shows that everything handed to the pool is done, and `PoolShutdown` decides
  when `worker_pool_destroy` ends and when it hangs.
- **On-demand workers.** `OnDemand` is the same kind of step machine for the launch, wait
  and destroy functions, with reused argument blocks; `OnDemandDiscipline` says exactly how
  callers have to use them.
- **Placement.** `Striping` is the round-robin placement of blocks and replicas and its
  inverse; `ExpandedPlacement` is the placement of a file whose servers were expanded,
  `Expansion` what an expansion records and moves, and `Meeting` and `Collisions` when
  expansions make blocks fall together.
- **Rebuild.** `RankTables` are the rank maps, `Exchange` is one round of ordered
  synchronous messages as an interleaving machine, `Rebuild` is the copy loop on top of it,
  and `RebuildClient` what clients find afterwards.
- **Shrink.** `ShrinkRanks` is the renumbering, `ShrinkProtocol` the four-part block
  messages and the stop messages, `ShrinkStop` safety, progress and the condition under
  which a shrink can end.
- **RAID-5.** `Raid5Layout` is the pair of locate functions as bijections, `Xor` the XOR
  loops and their algebra, `Raid5Recovery` storage built from both, in which any one
  server may be lost.
- **Descriptor tables.** `DTable` (free list through the elements) and `FdTable`
  (first-free hint) each refine a partial map.
- **Transfers.** `Transfer` has the retry loops over a kernel that transfers less than
  asked, and the chunk loops of the server's read and write operations.
- `DivMod`, `Counting` and `ByteStrings` hold facts and types the others share.

Where the source changes fields or arrays in place, the model is a class or a method with
loops, proved against a function whose properties are then lemmas (`WorkerPool`,
`Descriptors`, `FdsTable`, `File`, the XOR, renumbering and table loops). Threads and MPI
processes are step machines over values, since what is proved there is about every
interleaving.

Some properties one would expect do not hold of the code. Each is stated with the exact
condition under which it does, or with a run or an input on which it fails:

- `worker_pool_destroy` can hang: workers that leave do not signal not-full. It hangs in
  some run exactly when the queued operations leave no room for one sentinel a worker
  (`PoolShutdown.HangsExactlyWhenNearlyFull`, and `HangIsReachable` from a new pool).
- A shrink can end exactly if the leaving servers are listed in ascending rank order and
  the metadata has two free entries for each. Otherwise some leaving process does not get
  the mark -1 and is sent a stop it never receives, or none gets it and nobody sends stops
  (`ShrinkStop.ShrinkEndsExactlyIf`).
- A rebuild places from server 0 on, and clears the metadata; clients place from the first
  node, which depends on the name and the number of servers. A client of the new servers
  finds every file of a size exactly if the first nodes agree, and are 0, or the number of
  servers is the same, or all block copies fit behind the first node on the shorter list
  of servers (`RebuildClient.RebuildKeepsTheFileExactlyIf`). A file named `b` of one block
  is lost when two servers become three (`RebuildClient.FileNamedB`).
- `xpn_server_op_write` keeps a 64-bit size in `int` counters: a successful write takes
  the whole request exactly if that is below 2^31 (`Transfer.OpWrite`), and takes nothing
  exactly for the multiples of 2^32 (`Transfer.TakesNothingExactlyIf`).
- The external-parity layout divides by zero for one server (`Raid5Layout.LocateOutcome`).
- Deleting a descriptor keeps the descriptor table in order exactly if it was live; after
  a double delete two insertions share a descriptor (`DTable`).
- `xpn_expand` rounds the number of whole blocks down before it rounds up to a line of
  servers, so a partial last block behind a full line goes to the new segment. Nothing
  stored is moved exactly under the condition of `Expansion.ExpandKeepsTheFileExactlyIf`;
  a file smaller than one block is moved as a whole (`Expansion.SmallFileIsMoved`).
- Blocks behind the recorded one go to the new servers except after the expansion of one
  whole block on one server (`Expansion.NewBlocksUseNewServersExactlyIf`).
- Expanding again without enough growth in between can record a smaller block, and blocks
  can fall together. They never do while the steps back are small
  (`ExpandedPlacement.BasesGrowExactlyIf`, `NoTwoShareAPlace`), nor with up to two copies
  of a file that never shrinks (`Expansion.TwoCopiesNeverCollide`). The exact condition is
  `Meeting.CollideExactlyIf` for any number of expansions, and in closed form
  `Collisions.ExpandedTwiceCollidesExactlyIf` for two.
- Wait on an on-demand launch gets through only with its own function exactly if no other
  launch with wait4me on the block is still unwaited; and wait returns at all exactly if
  the block has an unwaited launch (`OnDemandDiscipline`).

## Model

| member | source | states |
|---|---|---|
| OperationsRing.PutAppends | src/base/workers_pool.c:145-147 | storing at enq_pos appends one operation to the FIFO sequence the ring represents, for every ring position |
| OperationsRing.TakeRemovesOldest | src/base/workers_pool.c:178-180 | the slot at deq_pos holds the oldest accepted operation not yet dequeued, and removing it leaves the rest in order |
| OperationsRing.WorkerPool.EnqueueSection | src/base/workers_pool.c:127-154 | one pass with the mutex held: waits exactly if the ring is full, else the ring becomes Put of the old one |
| OperationsRing.WorkerPool.DequeueSection | src/base/workers_pool.c:166-199 | one pass with the mutex held: waits exactly if the ring is empty, else takes the oldest operation and decides between calling it and leaving |
| OperationsRing.WorkerPool.SetPoolEnd | src/base/workers_pool.c:227-231 | pool_end is set and the ring is untouched |
| OperationsRing.WorkerPool.constructor | src/base/workers_pool.c:95-98 | a new pool holds the empty sequence |
| PoolProtocol.InitInv | src/base/workers_pool.c:73-116 | the invariant holds of a new pool with any number of workers and producers |
| PoolProtocol.AnyScheduleIsARun | src/base/workers_pool.c:118-200 | in every state any thread elsewhere may call enqueue with any operation, any call may return, whoever wants the mutex may get it, a signal may release any sleeper on its condition, and any sleeper may wake up by itself |
| PoolProtocol.HistoryKept | src/base/workers_pool.c:118-200 | every step keeps: the ring is the accepted operations from the first one not dequeued, and the calls started are exactly the operations dequeued to be called, once each and in order |
| PoolProtocol.RunnersKept | src/base/workers_pool.c:41-49 | every step keeps: a running worker runs an operation that was dequeued to be called, and no two run the same |
| PoolProtocol.NotEmptyKept | src/base/workers_pool.c:118-200 | every step keeps the bound of queued operations by workers about to look, while a worker sleeps |
| PoolProtocol.NotFullKept | src/base/workers_pool.c:118-200 | every step keeps the bound of free slots by threads about to enqueue and workers that left without a signal, while a thread sleeps, whichever sleeper a signal releases |
| PoolProtocol.EnoughKept | src/base/workers_pool.c:182-255 | every step keeps: queued operations and sentinels to come suffice for every worker still there |
| PoolProtocol.StepInv | src/base/workers_pool.c:118-200 | every step of every thread, spurious wake-ups included, keeps the invariant |
| PoolProtocol.RunInv | src/base/workers_pool.c:30-68 | the invariant holds in every state of every run |
| PoolProtocol.NoLostWakeUp | src/base/workers_pool.c:118-200 | in every run, while a worker sleeps the queued operations do not outnumber the workers about to look; while a producer sleeps the free slots do not outnumber the producers about to enqueue plus the workers that left |
| PoolProtocol.SentinelsWakeEveryone | src/base/workers_pool.c:238-249 | once the last sentinel is queued no worker sleeps, even before the broadcast |
| PoolProtocol.CallsAreFifo | src/base/workers_pool.c:41-61 | in every run exactly the operations dequeued before pool_end that are no sentinels are called, once each and in order; accepted = returned + running + taken by leaving workers + queued |
| PoolProtocol.NoCallAfterEnd | src/base/workers_pool.c:182-189 | after pool_end no further call is ever started |
| PoolHandover.EnqueueStep | src/base/workers_pool.c:118-155 | every step of every thread leaves an operation handed to enqueue with its thread, however often that waits or is woken, until a step appends exactly this operation to the accepted ones; apart from these only sentinels are appended |
| PoolHandover.EveryOperationIsKept | src/base/workers_pool.c:118-155 | in every run every operation was accepted as often as threads handed it over, less the threads still inside the call with it; a sentinel as often again as destroy has queued it |
| PoolUse.NeverStuckInUse | src/base/workers_pool.c:118-200 | without sentinels and before destroy, while operations are queued or running or a thread waits to enqueue, some step other than a new call or a spurious wake-up is enabled |
| PoolUse.EverythingIsDone | src/base/workers_pool.c:41-200 | from every state of every such run those steps number at most 2 a worker, 3 a queued operation and 5 a producer, and end only with the queue empty and no thread waiting; then every operation handed over was accepted as often as it was handed over, and the accepted ones were called one by one in their order and have all returned |
| PoolShutdown.RoomMeansProgress | src/base/workers_pool.c:219-255 | with room for the sentinels to come, destroy always finds an enabled step that is no spurious wake-up |
| PoolShutdown.MeasureStep | src/base/workers_pool.c:219-255 | every step of the shutdown lowers a measure that a spurious wake-up raises by one |
| PoolShutdown.ShutdownCompletes | src/base/workers_pool.c:219-255 | if queue length + workers <= MAX_OPERATIONS at the start, every shutdown run is bounded and stops only with every worker joined |
| PoolShutdown.ShutdownAccounts | src/base/workers_pool.c:182-240 | in every shutdown run, queued operations + sentinels to come = queue length when pool_end was set + live workers (+ workers gone before it); when destroy is done exactly that length is left unexecuted |
| PoolShutdown.HangsExactlyWhenNearlyFull | src/base/workers_pool.c:182-189 | some run of the shutdown hangs if and only if queue length + workers > MAX_OPERATIONS |
| PoolShutdown.HangIsReachable | src/base/workers_pool.c:219-240 | from a new pool with any positive number of workers a run leads to a hanging destroy |
| OnDemand.StepInv | src/base/workers_ondemand.c:58-92 | every step keeps: arguments belong to the launch, n_workers counts the workers between prolog and epilog, nobody sleeps on a condition that holds |
| OnDemand.AnyUseIsARun | src/base/workers_ondemand.c:118-213 | in every state between calls any call with any block is possible, whoever wants a mutex may get it, every worker may go on and a sleeper may wake up by itself |
| OnDemand.ArgumentsAreCopied | src/base/workers_ondemand.c:118-169 | in every run there is one worker for each launch called, in order; a worker not past its prolog implies that launch has not returned, and every other worker carries the arguments of its own launch, however often the block was reused |
| OnDemand.CallerStep | src/base/workers_ondemand.c:118-213 | every step leaves a caller inside its call or lets it out by that call's own section: out of launch once a worker has copied its arguments, out of wait on the same block with the flag raised again, out of destroy with no worker active |
| OnDemand.WorkersAreCounted | src/base/workers_ondemand.c:58-92 | in every run n_workers is the number of workers between prolog and epilog |
| OnDemand.DestroyWaitsForAll | src/base/workers_ondemand.c:188-213 | after a call of destroy, in every run, the caller is still inside it unless every worker ever launched is gone |
| OnDemand.StepWaitInv | src/base/workers_ondemand.c:76-82 | with one outstanding launch a block, every step keeps r_wait exactly in step with the outstanding function |
| OnDemand.WaitReturnsWithItsFunction | src/base/workers_ondemand.c:171-186 | in every such run the caller in wait gets through if and only if the outstanding function of its block has returned |
| OnDemand.WaitReturnsAfterItsFunction | src/base/workers_ondemand.c:171-186 | after such a call of wait, in every such run, the caller is still inside it unless the function last launched on the block has returned |
| OnDemandDiscipline.LaunchKeepsWaitExactlyIf | src/base/workers_ondemand.c:118-186 | from every state of disciplined calls: after a launch, every disciplined continuation lets a wait through only when the function of its block's last launch has returned, if and only if the launch is without wait4me or its block has no unwaited launch |
| OnDemandDiscipline.SecondLaunch | src/base/workers_ondemand.c:118-186 | a launch that breaks this extends to a run in which a wait for the block gets through while the new worker still runs |
| OnDemandDiscipline.WaitCanReturnExactlyIf | src/base/workers_ondemand.c:171-186 | a call of wait can return at all if and only if its block has an unwaited launch; otherwise it blocks for ever |
| OnDemand.NeverStuck | src/base/workers_ondemand.c:150-207 | while launch, wait or destroy is under way, a worker or the caller can take a step |
| OnDemand.EveryCallReturns | src/base/workers_ondemand.c:118-213 | from every reachable state, steps without new calls and spurious wake-ups are bounded in number and end only with the call returned |
| Striping.InvertAfterCalculate | src/xpn_client/xpn/xpn_simple/policy/xpn_policy_rw.c:36-47 | placing a byte of a copy and inverting the place gives the byte and the copy back |
| Striping.CalculateAfterInvert | src/xpn_client/xpn/xpn_simple/policy/xpn_policy_rw.c:335-345 | inverting a place of a server and placing the result gives the place back, so every place is used |
| Striping.DealtOneByOne | src/xpn_client/xpn/xpn_simple/policy/xpn_policy_rw.c:36-47 | the first copy of block 0 begins the first node; the next copy of a block, or the first copy of the next block, goes to the next server round robin, a line further on after each full turn |
| Striping.CopiesOnDistinctServers | src/xpn_client/xpn/xpn_simple/policy/xpn_policy_rw.c:36-47 | the copies of every byte lie on distinct servers if and only if the replication level is below the number of servers |
| Striping.SurvivesLostServers | src/xpn_client/xpn/xpn_simple/policy/xpn_policy_rw.c:36-47 | with fewer lost servers than copies, every byte keeps a copy on a server that is up |
| Striping.BlockIsContiguous | src/xpn_client/xpn/xpn_simple/policy/xpn_policy_rw.c:335-345 | inside a block the inverse follows the bytes, so whole blocks can be moved |
| ExpandedPlacement.CalculateBlockMdata | src/xpn_client/xpn/xpn_simple/policy/xpn_policy_rw.c:49-216 | the loops over the metadata compute Locate, which the rows below describe by where segments begin, for metadata of expansions |
| ExpandedPlacement.FindSegment | src/xpn_client/xpn/xpn_simple/policy/xpn_policy_rw.c:73-135 | the search stops at the segment of the block with the sums of the segments before it |
| ExpandedPlacement.SubtractMissing | src/xpn_client/xpn/xpn_simple/policy/xpn_policy_rw.c:152-169 | the inner loop finds the base of the expansion that added the server, as AddedServersStartEmpty and FirstServersKeepAll say what that is |
| ExpandedPlacement.AddedServersStartEmpty | src/xpn_client/xpn/xpn_simple/policy/xpn_policy_rw.c:152-169 | on the servers the j-th expansion added, from the first to the last one, segment j begins at offset 0, and a later segment at the distance of the bases |
| ExpandedPlacement.FirstServersKeepAll | src/xpn_client/xpn/xpn_simple/policy/xpn_policy_rw.c:152-169 | on the servers there from the start nothing is subtracted |
| ExpandedPlacement.SegmentFollows | src/xpn_client/xpn/xpn_simple/policy/xpn_policy_rw.c:100-149 | behind at least one block, a segment begins right behind the last byte of the last copy of that block, and is dealt out from the first node again |
| ExpandedPlacement.SegmentStepsBack | src/xpn_client/xpn/xpn_simple/policy/xpn_policy_rw.c:100-135 | where the recorded block steps back, the next segment begins earlier by the whole lines of block copies stepped back, from the line every segment is ahead |
| ExpandedPlacement.BasesGrowExactlyIf | src/xpn_client/xpn/xpn_simple/policy/xpn_policy_rw.c:100-135 | no segment begins on a server before the one in front of it, if and only if every step back of the recorded blocks is small: steps * copies + 1 < two lines of the servers found; always so where nothing steps back |
| ExpandedPlacement.SegmentsApart | src/xpn_client/xpn/xpn_simple/policy/xpn_policy_rw.c:100-149 | with growing bases, everything of an earlier segment lies on a server before everything of a later one |
| ExpandedPlacement.NoTwoShareAPlace | src/xpn_client/xpn/xpn_simple/policy/xpn_policy_rw.c:49-216 | after any number of expansions with growing bases, no two bytes of any copies share a byte of a server (the exact condition is Meeting.CollideExactlyIf) |
| ExpandedPlacement.PlaceExists | src/xpn_client/xpn/xpn_simple/policy/xpn_policy_rw.c:138-170 | with growing bases every place is on one of the servers of the segment at an offset that is not negative |
| ExpandedPlacement.CopiesStayOnDistinctServers | src/xpn_client/xpn/xpn_simple/policy/xpn_policy_rw.c:138-170 | copies lie on distinct servers after expansions if the first layout had enough servers |
| Expansion.ExpandKeepsPlaces | src/utils/xpn_expand.c:134-145 | an expansion moves no block up to the one it records |
| Expansion.LimitBounds | src/utils/xpn_expand.c:137-141 | the recorded block is the last one of a line, at least the last whole block and less than a line behind it, and is the last whole block exactly if the whole blocks fill their lines |
| Expansion.LimitCoversFileExactlyIf | src/utils/xpn_expand.c:137-141 | the recorded block covers the whole file if and only if there is no partial last block or the whole blocks do not fill the last line |
| Expansion.CopyStaysExactlyIf | src/utils/xpn_expand.c:134-145 | a copy of a partial block behind full lines stays in place if and only if its server and its line come out the same by the new layout |
| Expansion.ExpandKeepsTheFileExactlyIf | src/utils/xpn_expand.c:134-145 | for a file expanded any number of times before, the next expansion moves no byte of any copy if and only if there is no partial last block, or the whole blocks do not fill a line, or the partial block lies in an earlier segment or behind one block on one server, or the copies of the last segment fill whole lines (at least one, with more than one server) and the copies of one block do not wrap around |
| Expansion.FirstExpansionKeepsTheFileExactlyIf | src/utils/xpn_expand.c:134-145 | the same for a file never expanded: no partial last block, or whole blocks that do not fill a line, or a whole block (or one server) and first node + replication level below the number of servers |
| Expansion.SmallFileIsMoved | src/utils/xpn_expand.c:137-141 | a file smaller than a block on two or more servers has every byte of it placed one block further on after an expansion |
| Expansion.NewBlocksUseNewServersExactlyIf | src/xpn_client/xpn/xpn_simple/policy/xpn_policy_rw.c:91-96 | a block behind the recorded one goes to the new servers unless, and only unless, the file was one whole block on one server, when the recorded 0 counts as unused |
| Expansion.TwoCopiesNeverCollide | src/utils/xpn_expand.c:137-141 | with at most two copies, no expansions of a file that never shrinks make two bytes fall together |
| Meeting.HoldsExactlyIf | src/xpn_client/xpn/xpn_simple/policy/xpn_policy_rw.c:89-98 | a segment holds exactly the blocks behind all blocks recorded up to it and not behind the next one, if no entry on the way counts as unused |
| Meeting.MeetExactlyIf | src/xpn_client/xpn/xpn_simple/policy/xpn_policy_rw.c:100-149 | two segments meet on a server by comparing their first and end lines if and only if both take some line of it |
| Meeting.CollideExactlyIf | src/xpn_client/xpn/xpn_simple/policy/xpn_policy_rw.c:49-216 | after any number of expansions, whatever they recorded, two bytes of the file fall together if and only if two segments meet on a server of the earlier one: finitely many comparisons on the metadata |
| Collisions.CollisionNeeds | src/xpn_client/xpn/xpn_simple/policy/xpn_policy_rw.c:100-149 | after two expansions, two bytes of different segments that fall together need a step back of two lines or more that reaches the old servers |
| Collisions.TwoExpansionsCollideExactlyIf | src/xpn_client/xpn/xpn_simple/policy/xpn_policy_rw.c:49-216 | after two expansions two bytes fall together if and only if the recorded blocks cross: a closed condition on the two blocks, the three server counts, the copies and the first node |
| Collisions.ExpandedTwiceCollidesExactlyIf | src/utils/xpn_expand.c:137-141 | the same in terms of the two file sizes, for every file and pair of expansions |
| Collisions.CrossedExpansionsCollide | src/utils/xpn_expand.c:137-141 | 4 copies of 11 blocks expanded from 10 servers to 11 and on to 40 cross |
| RankTables.RemoveLaterDuplicates | src/utils/xpn_rebuild_active_reader.c:497-505 | the in-place loops compute KeepFirst of the new ranks |
| RankTables.RemoveEarlierDuplicates | src/utils/xpn_rebuild_active_reader.c:506-514 | the in-place loops compute KeepLast of the old ranks |
| RankTables.KeepFirstKeepsOnce | src/utils/xpn_rebuild_active_reader.c:497-505 | every rank present is kept exactly once, by its first holder, and nothing else is changed |
| RankTables.KeepLastKeepsOnce | src/utils/xpn_rebuild_active_reader.c:506-514 | every rank present is kept exactly once, by its last holder, and nothing else is changed |
| RankTables.BuildInverse | src/utils/xpn_rebuild.c:541-552 | the loops fill the way back: each entry that is not -1 names a holder of the rank, and every rank held names its last holder |
| RankTables.MutuallyInverse | src/utils/xpn_rebuild_active_reader.c:517-528 | on a table without duplicates the two directions are mutually inverse on live entries |
| Rebuild.TablesInverseExactlyIf | src/utils/xpn_rebuild.c:541-552 | the tables the loops build are what the copy needs (inverse of each other) if and only if every server of the host list has one process and no other rank is held |
| RankTables.PrepareTables | src/utils/xpn_rebuild_active_reader.c:496-528 | for all tables with values in -1..size-1 both pairs of tables end up mutually inverse, live exactly for the ranks present at first |
| Exchange.StepInv | src/utils/xpn_rebuild.c:221-266 | every send, receive, write or skip keeps: files are what the messages passed so far put there, received buffers are the sender's of this round, sends and receives went in pairs |
| Exchange.AnyOrderIsARun | src/utils/xpn_rebuild.c:221-266 | in every state a process may pass a message that is its own or none of its business, write what it has received, and exchange a message whenever both sides are at it |
| Exchange.StepProgress | src/utils/xpn_rebuild.c:221-266 | every step brings the end of the round nearer |
| Exchange.NeverStuck | src/utils/xpn_rebuild.c:221-266 | until every process has passed every message, some step is enabled although sends are synchronous |
| Exchange.EveryInterleaving | src/utils/xpn_rebuild.c:214-266 | every interleaving is bounded and, where it cannot go on, has every process through and in every file exactly what the messages put there in order |
| Rebuild.MoveBack | src/utils/xpn_rebuild.c:189-192 | moving a place to the new servers and back gives it back, so no two bytes go to one place |
| Rebuild.MessageCarries | src/utils/xpn_rebuild.c:198-203 | the bytes of a destination that a message writes are exactly those whose origin is the block its sender read |
| Rebuild.MessageKeeps | src/utils/xpn_rebuild.c:237-265 | one message adds to the destinations exactly the sender's block |
| Rebuild.RoundDone | src/utils/xpn_rebuild.c:183-276 | a round takes every destination from the bytes of k rounds to those of k + 1 |
| Rebuild.ExchangeRound | src/utils/xpn_rebuild.c:220-266 | the loop over the messages has the result every interleaving has |
| Rebuild.ReadRound | src/utils/xpn_rebuild.c:185-219 | the messages gathered describe exactly the blocks read in the round |
| Rebuild.NothingWasRead | src/utils/xpn_rebuild.c:267-273 | the loop ends the rounds if and only if no process had anything left |
| Rebuild.RebuildFile | src/utils/xpn_rebuild.c:180-276 | the copy stops after the first round in which nothing was read, with exactly the bytes of its rounds in place |
| Rebuild.EveryByteIsMoved | src/utils/xpn_rebuild.c:180-276 | every byte of an old server is, after the copy, at the place of the new servers to which the tool's placement from server 0 moves it |
| Rebuild.CopyExists | src/utils/xpn_rebuild.c:180-276 | for every content of the old servers the rounds come to an end with a complete copy |
| Rebuild.NothingElseIsWritten | src/utils/xpn_rebuild.c:236-265 | every byte on a new server is the byte of the old server place it was moved from |
| RebuildClient.CopyFoundExactlyIf | src/utils/xpn_rebuild.c:189-192 | the tool, which places from server 0, moves a block copy of a client to where a client of the new servers looks for it, if and only if its server and its line come out the same |
| RebuildClient.AllFoundExactlyIf | src/utils/xpn_rebuild.c:189-192 | all copies of a file are found if and only if the first nodes agree, and the file begins on server 0, or the number of servers is the same, or all block copies fit behind the first node on the shorter list of servers |
| RebuildClient.RebuildKeepsTheFile | src/utils/xpn_rebuild.c:180-276 | under that condition a client of the new servers finds at every offset of every copy what a client of the old ones found |
| RebuildClient.SomeFileIsLost | src/utils/xpn_rebuild.c:180-276 | otherwise there is a file of the same size, wholly on the old servers, that clients of the new ones do not find as it was |
| RebuildClient.RebuildKeepsTheFileExactlyIf | src/utils/xpn_rebuild.c:180-276 | every file of a size is kept for clients if and only if the condition on the first nodes, server counts and file size holds |
| RebuildClient.NamedFileIsKeptExactlyIf | src/base/path_misc.c:45-50 | the same with the first nodes that the character sum of the name gives for the old and the new servers |
| RebuildClient.FileNamedB | src/base/path_misc.c:45-50 | a file named b of one block without replicas is not kept when two servers become three |
| RebuildClient.ReadsAfterRebuild | src/utils/xpn_rebuild.c:249-259 | under the condition, and read through the file system, where holes give zeros, a client finds what it found before, save zeros where the old server had nothing |
| ShrinkRanks.Renumber | src/utils/xpn_shrink.c:151-262 | the loop over the metadata entries removes the leaving servers in order, two free entries each, until all are removed or the entries run out, and computes trans_rank of every process |
| ShrinkRanks.Removals | src/utils/xpn_shrink.c:151-153 | the number of servers removed is the most that find two free entries each |
| ShrinkRanks.AllRemovedExactlyIf | src/utils/xpn_shrink.c:151-153 | all are removed if and only if the metadata has two free entries for each leaving server |
| ShrinkRanks.StayersRenumbered | src/utils/xpn_shrink.c:241-245 | the staying processes get 0..survivors-1 in the old order, every value once, whatever the order of the list |
| ShrinkRanks.LeaverRank | src/utils/xpn_shrink.c:241-245 | a leaving process ends with -1, less one for every later leaver below it |
| ShrinkRanks.LeaversMarkedExactlyIfAscending | src/utils/xpn_shrink.c:241-245 | all leaving processes hold -1 at the end if and only if they are listed in ascending order |
| ShrinkRanks.RankToSend | src/utils/xpn_shrink.c:357-365 | the loop finds the first holder of a server rank, or 0 |
| ShrinkRanks.SearchIsInverse | src/utils/xpn_shrink.c:359-365 | every new server rank has exactly one holder, a staying process, for every order of the list |
| ShrinkProtocol.SendLogs | src/utils/xpn_shrink.c:368-371 | a sent part leaves the logs right: the fourth one adds exactly its block to the writer's log, at the offset sent before |
| ShrinkProtocol.StepInv | src/utils/xpn_shrink.c:478-501 | every step keeps: a writer inside a block belongs to the one reader that is inside it for this writer, logs hold exactly the blocks sent, nobody is over the barrier while a block is left |
| ShrinkStop.AnyArrivalIsARun | src/utils/xpn_shrink.c:478-501 | in every state a waiting writer may take the first part from any reader that sends to it, a block begun may go on, and a reader with nothing left may go to the barrier |
| ShrinkStop.NoEarlyStop | src/utils/xpn_shrink.c:381-402 | in every interleaving a writer stops only after it has written every block sent to it, each once and unmixed |
| ShrinkStop.StepProgress | src/utils/xpn_shrink.c:324-402 | every step lowers a measure, so every run is finite |
| ShrinkStop.NeverStuck | src/utils/xpn_shrink.c:324-402 | if the stops and the blocks go to the writers, some step is enabled until every process has ended |
| ShrinkStop.EveryInterleavingEnds | src/utils/xpn_shrink.c:304-402 | then every interleaving that cannot go on has every process ended and every block written |
| ShrinkStop.StopsRightExactlyIf | src/utils/xpn_shrink.c:384-402 | the stops go to the writers and nobody else if and only if the leaving servers are listed in ascending order and the metadata has two free entries for each |
| ShrinkStop.SetupSendsAll | src/utils/xpn_shrink.c:357-371 | the setup of the data move contains every block each leaving process sends, in order, with its offset and bytes, addressed to a process whose mark is the server of the block if there is one; staying processes send nothing |
| ShrinkStop.EveryBlockReachesItsServer | src/utils/xpn_shrink.c:304-402 | leaving servers in ascending order and with room: every interleaving is finite, and when it cannot go on every process has ended and each staying process has written exactly the blocks the leaving ones sent for the server it becomes (its number among those that stay), each once |
| ShrinkStop.SentToStayers | src/utils/xpn_shrink.c:357-371 | when all leaving servers were removed, the search over trans_rank_array sends every block of the setup to a process that stays |
| ShrinkStop.ShrinkEndsExactlyIf | src/utils/xpn_shrink.c:304-402 | when some server stays, with every block sent where the code's own search finds its server, some interleaving gets every process through if and only if the leaving servers are listed in ascending order and the metadata has two free entries for each (what it then has written is EveryBlockReachesItsServer) |
| Raid5Layout.LocateOutcome | src/base/math_misc.c:94-159 | both functions locate exactly for i >= 0 and m >= 2; the external one divides by zero exactly for i >= 0 and m = 1; all other arguments are refused |
| Raid5Layout.ParityMovesLeft | src/base/math_misc.c:100-164 | block 0 is on server 0 and its parity on the last server; the parity stays for the blocks of a stripe and moves one server to the left for the next one, with its index, in its own area, growing after every full turn |
| Raid5Layout.DataInOrder | src/base/math_misc.c:100-164 | with the parity inside, the blocks of a stripe take the servers in ascending order without that of the parity, one index a stripe; with the parity outside, they take the servers round robin |
| Raid5Layout.StripeUsesEveryServer | src/base/math_misc.c:100-112 | in both layouts the m-1 data blocks of a stripe and its parity are on m distinct servers |
| Raid5Layout.OwnerOfCellOf | src/base/math_misc.c:100-164 | from a block or a stripe's parity to its cell and back: cells are not shared |
| Raid5Layout.CellOfOwnerOf | src/base/math_misc.c:100-164 | from a cell to its holder and back: data and parity cover every cell |
| Raid5Layout.ParityRotates | src/base/math_misc.c:106-107 | any m consecutive stripes put parity on every server exactly once |
| Xor.Xor | src/base/math_misc.c:182-204 | the loop computes the byte-wise XOR of the inputs as they were, also in place, and nothing beyond block_size |
| Xor.Xor3 | src/base/math_misc.c:216-239 | the same for three blocks |
| Xor.XorN | src/base/math_misc.c:250-276 | the nested loops compute the XOR of all blocks as they were, for a result other than the later blocks |
| Xor.AnyBlockFromTheOthers | src/base/math_misc.c:250-276 | if one block is the XOR of all the others, every block is |
| Xor.ParityUpdate | src/base/math_misc.c:216-239 | Xor3 of old parity, old data and new data is the parity of the changed blocks |
| Raid5Recovery.WriteChangesOneStripe | src/base/math_misc.c:77-171 | a block write changes the two cells of its block and parity in one stripe only |
| Raid5Recovery.WriteKeepsParity | src/base/math_misc.c:216-239 | every block write keeps every stripe's parity right, in both layouts |
| Raid5Recovery.ReadAfterWrite | src/base/math_misc.c:77-171 | a write is seen by reads of its block and by no other |
| Raid5Recovery.AnyServerCanBeRebuilt | src/base/math_misc.c:250-276 | every data or parity block of any one lost server is XorN of the surviving blocks of its stripe |
| Raid5Recovery.RebuildUsesSurvivors | src/base/math_misc.c:250-276 | what is rebuilt for a lost server is the same for any two storages that agree on the other servers |
| Raid5Recovery.ReadsSurviveServerLoss | src/base/math_misc.c:77-276 | after any writes, reads with any one server down return what was last written |
| Raid5Recovery.DegradedReadUsesSurvivors | src/base/math_misc.c:77-276 | and so is every read while the server is down |
| Raid5Recovery.FreshIsConsistent | src/base/math_misc.c:250-276 | zeroed storage has the right parity |
| DTable.InsertRefines | src/base/dtable.c:52-86 | insertion returns a descriptor that was not live, the last deleted one or a new one, and changes no other live one |
| DTable.DeleteRefines | src/base/dtable.c:104-116 | deleting a live descriptor frees exactly it and chains it first |
| DTable.DeleteKeepsOrderExactlyIfLive | src/base/dtable.c:110-113 | the table stays in order if and only if the deleted descriptor was live |
| DTable.DoubleDeleteSharesDescriptor | src/base/dtable.c:110-113 | after a double delete two insertions return the same descriptor |
| DTable.RunsAreMaps | src/base/dtable.c:37-145 | in every run that deletes live descriptors only, each live descriptor gives what was inserted, the free chain visits exactly the deleted slots, and neltos is the most ever live at once |
| DTable.Descriptors.InsertElto | src/base/dtable.c:37-87 | the in-place insertion equals Insert, with the free list kept: NULL is refused and changes nothing, anything else gets a descriptor that was not live and now gives it |
| DTable.Descriptors.DeleteElto | src/base/dtable.c:96-117 | the in-place deletion equals Delete for every descriptor that is not negative, and leaves the table in order if and only if the descriptor was live or beyond the table; beyond the table it is refused and changes nothing |
| DTable.Descriptors.GetElto | src/base/dtable.c:126-145 | gives the information of the element, or NULL beyond the table |
| FdTable.PutOpensLowest | src/bypass/xpn_bypass.c:155-191 | put opens the lowest virtual descriptor that is not open and leaves every open one as it is, also when the table doubles |
| FdTable.RemoveCloses | src/bypass/xpn_bypass.c:199-225 | remove closes exactly its descriptor |
| FdTable.ScanIsLowest | src/bypass/xpn_bypass.c:159-174 | with no free slot below the hint, the scan from the hint finds the slot of a scan from 0 |
| FdTable.ApplyRefines | src/bypass/xpn_bypass.c:155-225 | every operation keeps the hint right and gives the table of a scan from 0 |
| FdTable.RunsOpenLowest | src/bypass/xpn_bypass.c:84-225 | any mix of put, remove and doubling opens the lowest descriptor each time |
| FdTable.FdsTable.Realloc | src/bypass/xpn_bypass.c:84-120 | the table gets MAX_FDS slots at first and twice as many later, keeps its entries and gets free slots behind |
| FdTable.FdsTable.PutFd | src/bypass/xpn_bypass.c:155-197 | the in-place put equals the hinted put and the put of a scan from 0, and never returns -1; the hint goes behind the slot taken unless the table had to grow |
| FdTable.FdsTable.GetFd | src/bypass/xpn_bypass.c:131-153 | gives what is open under the descriptor, a free slot where nothing is, and a system descriptor below PLUSXPN or without a table |
| FdTable.FdsTable.RemoveFd | src/bypass/xpn_bypass.c:199-225 | the in-place remove frees the slot and lowers the hint to it if it is higher; below PLUSXPN it changes nothing |
| Transfer.File.Read | src/base/filesystem.c:363-397 | whatever the kernel's short reads, the result is the range cut at end of file; it is a failure if and only if a read of the kernel failed |
| Transfer.File.Write | src/base/filesystem.c:399-427 | whatever the kernel's short writes, all bytes are written in place; it is a failure, with a first part of them written, if and only if a write of the kernel failed |
| Transfer.OpRead | src/xpn_server/xpn_server_ops.c:327-402 | the frames sent are those of the range; if and only if a read of the kernel failed, they are those of the chunks read before and the mark of a failure |
| Transfer.FramesAreTheRange | src/xpn_server/xpn_server_ops.c:363-402 | the frames concatenate to the file range cut at end of file |
| Transfer.FrameIsKthBuffer | src/xpn_server/xpn_server_ops.c:327-402 | frame k carries the k-th full buffer of MAX_BUFFER_SIZE bytes of the range, or what the range or the file has left of it |
| Transfer.FramesFitTheBuffer | src/xpn_server/xpn_server_ops.c:327-402 | no frame exceeds MAX_BUFFER_SIZE, and only the last one can be empty |
| Transfer.FramesEnd | src/xpn_server/xpn_server_ops.c:398-402 | the last frame is empty if and only if the request was empty or went beyond the file |
| Transfer.OpWrite | src/xpn_server/xpn_server_ops.c:440-502 | on success exactly the size as an int counter holds it is written at the offset, which is the whole request if and only if that is below 2^31; it fails if and only if a write of the kernel fails or the counter is negative, so that a counter of 0 always reports success with nothing written; in every case a first part of the stream is written |
| Transfer.OverwriteEffect | src/base/filesystem.c:399-427 | a write replaces exactly its range, fills a gap with zeros and never shortens the file |
| Transfer.TakesNothingExactlyIf | src/xpn_server/xpn_server_ops.c:418-445 | the int counter of a size is 0 exactly for the multiples of 2^32, of which OpWrite reports success with no byte taken |
| Transfer.WriteThenRead | src/xpn_server/xpn_server_ops.c:308-502 | the frames of the range just written are the bytes written |
| Transfer.WriteAndReadBack | src/xpn_server/xpn_server_ops.c:308-502 | op_write and then op_read give the client its bytes back if and only if no read or write of the kernel failed |

## Left out

- Real threads, MPI, sockets, the kernel and allocation: only their step semantics are kept (mutex and wait set, rendezvous, short transfers that make progress); thread creation and allocation succeed, worker functions return.
- worker_pool_wait and the post in worker_pool_function: the same flag protocol as the on-demand wait, which `OnDemand` models, with a signal in place of a broadcast.
- Concurrent callers of worker_ondemand_launch: busy_worker is set outside the lock (src/base/workers_ondemand.c:130), so one thread makes the calls.
- OnDemand.ArgumentsAreCopied: the reads of the argument block before the prolog's lock count as part of the prolog.
- Destroying a mutex while its last holder is still unlocking it.
- ExpandedPlacement.CalculateBlockMdata: metadata of expansions only; the branches for negative server counts, which a shrink records, and the offsets a shrink chooses are not modelled. At most 38 of the 40 entries are used, since the loop looks two entries ahead.
- ExpandedPlacement.FindSegment: metadata of expansions only, as for CalculateBlockMdata.
- ExpandedPlacement.SubtractMissing: metadata of expansions only, as for CalculateBlockMdata.
- Expansion.ExpandKeepsTheFileExactlyIf: supposes a first node below the first number of servers, as src/xpn_client/xpn/xpn_simple/xpncore/xpn_metadata.c:94 chooses it, and no fewer servers than before.
- Rebuild.RebuildFile: one process for every old and new server, file contents behind the 8192-byte header, and read and write errors abort the program.
- RebuildClient.RebuildKeepsTheFileExactlyIf: block size and replication level given to the tool are those of the file, and the file was never expanded or shrunk. The size a client is told is 0 after a rebuild, since the header is zeroed; the model is about the bytes it reads.
- RebuildClient.NamedFileIsKeptExactlyIf: the character sum is not negative, as for names in ASCII.
- Choosing the blocks a leaving process sends in a shrink, and the placement with shrunk metadata: what it sends, with the new server of each block, is an input of ShrinkStop; one writer thread (THREAD_WRITER is 1).
- ShrinkStop.ShrinkEndsExactlyIf: supposes synchronous sends; a buffering MPI could let the stop to a leaving process go through unreceived.
- The copy loops of the active reader and writer, where a process with both roles leaves the loop early.
- RankTables.PrepareTables: the four arrays are distinct and ranks lie in -1..size-1, as the ranks gathered do.
- Xor.XorN: needs at least one block and a result other than the later blocks; file contents and blocks are byte sequences of equal size.
- DTable.Descriptors.DeleteElto: descriptors are not negative; the dynamic array below the table is a sequence, and allocation succeeds.
- FdTable.FdsTable.PutFd: the descriptor put is not of type FD_FREE; the dup2 and close calls beside the table, and the table of directories, which has its own growth code.
- FdTable.FdsTable.GetFd: descriptors beyond the table are a precondition of get and remove, which do not check them.
- Transfer.OpRead: req.status.ret is read before it is set in the first pass (src/xpn_server/xpn_server_ops.c:381) and is taken not to be -1; lseek on the open file does not fail; sizes and offsets stay below 2^63.
- Transfer.OpWrite: failures of lseek and of the channel, and opening or closing the file; the size of each write beyond its bound by the buffer; a kernel write that takes no byte (the retry loop would not end); an allocation of negative size fails.
- Widths of the other integer counters: the int, long and off_t values of the placement, ring and table code are mathematical integers.
- Sockets, name server, proxy, FUSE, copy tools, URL and path helpers, dynamic arrays and the intercepted system calls: plumbing around the parts modelled.
