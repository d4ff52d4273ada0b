# Crash consistency, locking and trace tools, verified

This project models the persistent-memory workloads under `janus_workload` and the gem5
helper scripts with algorithmic content, and proves what they promise.

**Memory.** `PersistentMemory` gives every cell a volatile and a durable value. Stores change
the volatile one; `clwb` obliges the cache to write a line back before the next fence
completes; the cache may write any line back at any time. The object records every durable
image it passes through: the last one recorded is the present one, and from each to the next
at most one line differs. So a claim about all recorded images is a claim about every crash
point and every order of write-backs. (`clwb` and `sfence` as in their entries of the Intel 64
and IA-32 Architectures Software Developer's Manual, volume 2.)

**Recovery** is not part of the repository. It is defined from the log fields: where a valid
flag is durable, the saved item goes back to its saved place.

**Undo logs and links.** `ArraySwap` is the two-item undo log with a commit flag. `TatpLog` is
the per-thread log under per-subscriber locks, with any number of threads, as a state machine;
`TatpFields` says what its updates do byte by byte, and
`TatpRelock` shows what goes wrong in it, and exactly when. `TpccLog`, `TpccPhases`, `TpccWindow`,
`TpccSteps`, `TpccRequest`, `TpccRecording`, `TpccRuns` and `TpccOrder` are the new-order transaction,
from fence to fence; `TpccFields` is what it does field by field, `TpccHistory` what a run of it leaves,
and `ItemSelection` the loop that picks its items. `HashChains` and `HashTable` are the linked hash
table.

**Concurrency.** `LockQueue` and `LockOrder` (ordered locking), `Barrier`, `ContextTable` (slots
claimed by compare-and-swap) and `TxSections` (transactions driven by locks).

**Tools.** `ReorderBuffer` (pipeline viewer), `Upgraders` (checkpoint upgrader), `Varint` (message
framing), `TraceText` and `DepTrace` (dependency traces as text), `PortPass`, `PortSchedules`,
`PortDeadlocks` and `PortBinder` (binding ports), `PrimeSearch`. `Wrappers` and `Cycles` hold what
several of them share.

Check everything with `dafny verify dfyconfig.toml`.

Where the code does not do what it is meant to do:

- TATP releases a subscriber's mutex before it discards its log. `TatpRelock.CodeLosesUpdates`
  shows that the code as it is loses finished updates. `TatpRelock.BeginDecided` says exactly which
  locks may be taken: those whose subscriber has no log left, or one whose discard is stored on a
  line that the next holder flushes before its own update. `TatpLog.DisciplinedRunsRecover` is what
  such runs give.
- TPCC stores a stock record and its valid bit under one fence. `TpccWindow.WindowSafeIff` says
  exactly when that is safe, looking at memory before the call: when the slot already holds the row
  to be saved, and its old index does no harm. `TpccWindow.FreshSlotTears` is the first use of a slot,
  where it is not. `TpccRecording.RecordingSafeIff` says the same from memory when the order begins.
- TPCC saves the district row but never marks it valid, and never flushes `d_next_o_id`; order
  lines have no undo record. No crash claim is made about these.
- The pipeline viewer calls `print_insts` with one argument too few when it stops early, which
  raises; and even when that is repaired, stopping early loses instructions.
  `ReorderBuffer.CompleteIffNothingWantedLater` says exactly when it does not, and
  `ReorderBuffer.StoppingSafeIff` how far out of place the trace may be.
- The usage text of `gen_prime` promises a prime larger than the given value; the code returns the
  least prime not below it.
- The comments of `bind_ports` say that sorting makes one orientation of every connection bindable.
  It does not: `PortBinder.CrossedCannotBind` gives listings of which no order binds anything, and
  `PortBinder.SortingMisses` one that another order binds. `PortBinder.BindPorts` says exactly which
  orders do, `PortDeadlocks.BindableIff` which listings have one. The worked example there binds
  `a.b[1]` while `a.b[0]` is unbound; the code does not.
- The barrier does not check again after `pthread_cond_wait`. `Barrier.SpuriousWakeupExact` says when
  a spurious wakeup breaks it: whenever the last thread is not already about to count itself.
- A message of length 0 reads as the end of the file. `Varint.ReadBack` says what is read back then.
- `arr_swap` and `hash` are built with a `cache_flush` whose body is commented out. The loop used by
  TATP and TPCC is taken as its meaning throughout.

## Model

| member | source | states |
|---|---|---|
| PersistentMemory.FlushedLinesExact | janus_workload/TATP/common.cc:29-40 | for a non-empty range the lines walked over are exactly those holding one of its bytes; for an empty one at most the line the address points into |
| PersistentMemory.Memory.CacheFlush | janus_workload/TATP/common.cc:29-40 | the loop leaves every walked line on its way to memory, changes no value, and every image meanwhile meets the crash condition |
| PersistentMemory.Memory.Fence | janus_workload/TATP/common.cc:49-52 | a fence makes every cell of a pending line durable |
| PersistentMemory.OneMoreImage | janus_workload/TATP/common.cc:29-52 | a line written back adds one image to an unbroken history of durable images |
| PersistentMemory.Memory.Phase | janus_workload/arr_swap/arr_swap.h:50-60 | stores, flushes and a fence: flushed cells end durable, untouched ones stay so, every durable image on the way is recorded, and all of them meet any crash condition that the stores pass through and that survives writing back a line |
| ArraySwap.SwapArray.WriteLog | janus_workload/arr_swap/arr_swap.h:51-56 | both log entries are durable afterwards, and every crash meanwhile recovers to the unchanged array |
| ArraySwap.SwapArray.SwitchFlag | janus_workload/arr_swap/arr_swap.h:58-60 | switching the commit flag: recovery finds the array of before, or the current one, depending on which flag value is durable |
| ArraySwap.SwapArray.ExchangeItems | janus_workload/arr_swap/arr_swap.h:62-71 | slot `a` holds what slot `b` held and the reverse, every other slot what it held, durably, including for one slot given twice; every crash meanwhile recovers to the array of before |
| ArraySwap.SwapArray.Swap | janus_workload/arr_swap/arr_swap.h:48-76 | afterwards the two slots are exchanged and all others as before; every crash image recovers to the array of before or after the call; once returned, to the latter |
| ArraySwap.SwapArray.SwapAll | janus_workload/arr_swap/arr_swap.h:48-76 | for any sequence of calls there are the arrays between them, each of which has exactly the two named slots of the one before exchanged; a crash during a call recovers to the array before or after it, all of them permutations of the initial array |
| ArraySwap.SwapArray.Recover | janus_workload/arr_swap/arr_swap.h:51-60 | recovery from any image a swap or an interrupted recovery can leave reaches the array it stands for, and so does every image it passes through |
| ArraySwap.RestartableUndoes | janus_workload/arr_swap/arr_swap.h:51-60 | an image with the flag up is one the log undoes to what it recovers to |
| ArraySwap.ExchangeAllPermutes | janus_workload/arr_swap/arr_swap.h:62-65 | any sequence of exchanges permutes the items |
| TatpLog.GoKeepsInv | janus_workload/TATP/tatp_nvm.cc:98-142 | every instruction of any thread keeps the invariant: log before flag before update before discard, and one live log per subscriber, or two with the older one on its way out under a fence of the younger |
| TatpLog.BeginKeepsInv | janus_workload/TATP/tatp_nvm.cc:96-96 | so does taking a mutex, provided every live log about the same subscriber has its discard stored on a line that the new holder flushes before its update |
| TatpLog.EvictKeepsInv | janus_workload/TATP/tatp_nvm.cc:102-109 | so does writing back any line early |
| TatpLog.LinesFlushed | janus_workload/TATP/common.cc:29-40 | the lines of a run of words are exactly those that a flush of its bytes walks over |
| TatpLog.RecoverRow | janus_workload/TATP/tatp_db.cc:327-350 | recovery in any order gives a row its saved value if a thread's durable log is about it, else leaves it |
| TatpLog.InvRecovers | janus_workload/TATP/tatp_db.cc:166-166 | in the invariant, with `s_id` equal to the index of each row, recovery by the logged `s_id` loses at most updates in flight |
| TatpLog.DisciplinedRunsRecover | janus_workload/TATP/tatp_nvm.cc:96-142 | for any number of threads, interleaving, write-backs and crash point, recovery in any order finds each subscriber at its last finished update or apart from it by one in flight, if mutexes are taken again only as above |
| TatpFields.SetVlrRelocates | janus_workload/TATP/tatp_db.cc:340 | the update makes the 32-bit field at byte 84 the location modulo 2^32 and leaves every other byte of the entry |
| TatpFields.OtherFields | janus_workload/TATP/tableEntries.h:8-20 | so every other 32-bit field, at any byte offset, keeps its value |
| TatpFields.SIdIsField | janus_workload/TATP/tableEntries.h:8-20 | the `s_id` that recovery goes by is the field at byte 0 |
| TatpFields.StepRelocates | janus_workload/TATP/tatp_db.cc:327-350 | the only step of any thread that changes a subscriber's entry is the update of a thread that locked this subscriber, which sets its location |
| TatpFields.LastLocation | janus_workload/TATP/tatp_nvm.cc:96-142 | after any run, disciplined or not, the program sees the location stored last, or the initial one |
| TatpFields.UpdateArrives | janus_workload/TATP/tatp_nvm.cc:96-142 | in a disciplined run, from its update until it discards its log, the field at byte 84 of a thread's subscriber is the location given when it last took a mutex, the other bytes are as they were then, and from its fence on this is durable |
| TatpFields.OnlyLocations | janus_workload/TATP/tatp_nvm.cc:96-142 | no run changes anything but locations in the table |
| TatpFields.RecoveredFields | janus_workload/TATP/tatp_nvm.cc:96-142 | whatever a disciplined run is recovered to, in any order, has its original bytes around the location, which is the one the program sees or that of a live thread's entry before or after its update |
| TatpRelock.RelockLosesUpdate | janus_workload/TATP/tatp_nvm.cc:134-142 | whenever a mutex is taken again with the discard not stored, or stored but not durable on a line that the second thread does not flush before its update, there is a continuation in which the second thread finishes and recovery loses its update |
| TatpRelock.BeginDecided | janus_workload/TATP/tatp_nvm.cc:96-142 | for a table that starts a line, as `pmalloc` gives it: after any lock that can be taken, all continuations with later locks taken with care recover if and only if this one is taken with care |
| TatpRelock.CodeLosesUpdates | janus_workload/TATP/tatp_nvm.cc:96-142 | with two threads and a subscriber such a run exists from every initial state |
| TpccLog.LogFields | janus_workload/TPCC/tpcc_db.h:37-65 | the cells of the log record lie as its struct has them, one field after another |
| TpccLog.OrBitSets | janus_workload/TPCC/tpcc_db.cc:656-656 | setting a bit of the stock bitset sets that bit and no other |
| TpccLog.StockRecoversSame | janus_workload/TPCC/tpcc_db.cc:654-660 | images with the same raised stock records, whose rows differ only where such a record puts one back, undo to the same stock, in any order |
| TpccPhases.ClearPhase | janus_workload/TPCC/tpcc_db.cc:510-520 | however few of the flag clears are durable, recovery finds the tables as they stand |
| TpccPhases.RaisePhase | janus_workload/TPCC/tpcc_db.cc:521-523 | nor does raising `log_valid` over cleared flags undo anything |
| TpccPhases.SavePhase | janus_workload/TPCC/tpcc_db.cc:581-586 | saving index and row while the row's flag is down keeps what is recovered |
| TpccPhases.FlagPhase | janus_workload/TPCC/tpcc_db.cc:587-589 | so does raising the flag over a true record |
| TpccPhases.RowPhase | janus_workload/TPCC/tpcc_db.cc:596-605 | so does any part of the stores into the saved row |
| TpccPhases.WindowPhase | janus_workload/TPCC/tpcc_db.cc:654-660 | while a stock record and its bit go out together the two row tables are safe, and a crash image recovers if and only if the item's bit is down, the record names no row, or it saves the row it names as it was |
| TpccPhases.TornBitCorrupts | janus_workload/TPCC/tpcc_db.cc:654-660 | a durable bit over any other record makes recovery wrong |
| TpccWindow.WindowSafeIff | janus_workload/TPCC/tpcc_db.cc:654-660 | every crash while the record is written recovers if and only if, before the call, the slot holds the row about to be saved but for cells on the bit's line, and the index in it shares that line, names no row or one with the same contents; otherwise writing back the bit's line alone, or after the index's, leaves an image that does not recover |
| TpccWindow.FreshSlotTears | janus_workload/TPCC/tpcc_db.cc:654-660 | whatever else memory holds, the first record in a slot never used can tear: if the row has a non-zero cell off the bit's line, the image with bit and index durable and the row not does not recover |
| TpccWindow.FirstRecordTears | janus_workload/TPCC/tpcc_db.cc:654-660 | for every layout and line size there is such a memory, with the log and both row flags raised |
| TpccWindow.TornLinewise | janus_workload/TPCC/tpcc_db.cc:654-660 | the images of the window are closed under writing back lines: the bit is stored last, so a durable bit comes with the rest of its line |
| TpccWindow.RecordPasses | janus_workload/TPCC/tpcc_db.cc:654-660 | the three stores never leave the window |
| TpccPhases.RecordedRecovers | janus_workload/TPCC/tpcc_db.cc:654-660 | with all of the record written, recovery in any order is right again; rests on pairwise distinct items |
| TpccPhases.StockRowPhase | janus_workload/TPCC/tpcc_db.cc:667-685 | any part of the stores into a recorded stock row is undone |
| TpccPhases.LowerPhase | janus_workload/TPCC/tpcc_db.cc:553-558 | lowering `log_valid` commits all tables at once |
| TpccOrder.TpccDb.ClearFlags | janus_workload/TPCC/tpcc_db.cc:510-520 | with `log_valid` down, the three flags undoing looks at become durably 0, the tables stay, and every crash on the way recovers to them |
| TpccOrder.TpccDb.RaiseLog | janus_workload/TPCC/tpcc_db.cc:521-523 | from cleared flags, `log_valid` is durably up, the tables stay, and every crash recovers to them |
| TpccOrder.TpccDb.BackupDistrict | janus_workload/TPCC/tpcc_db.cc:525-529 | the log holds the district row as it stood; rows, stock, order lines and log records stay, and every crash still recovers to the tables before the order |
| TpccOrder.TpccDb.BumpCounter | janus_workload/TPCC/tpcc_db.cc:536 | exactly this district's counter grows by one; rows, stock and log records stay, and every crash still recovers to the tables before the order |
| TpccOrder.TpccDb.BeginTx | janus_workload/TPCC/tpcc_db.cc:508-536 | flags cleared, log raised, district saved, counter incremented; every crash recovers the tables of before |
| TpccOrder.TpccDb.SaveRow | janus_workload/TPCC/tpcc_db.cc:581-586 | the record durably holds the index and the contents of its row, its flag still down; the table, the other row table and the stock stay, and every crash still recovers |
| TpccOrder.TpccDb.RaiseFlag | janus_workload/TPCC/tpcc_db.cc:587-589 | over a true record, the flag is durably up; the tables stay, and every crash still recovers |
| TpccOrder.TpccDb.WriteRow | janus_workload/TPCC/tpcc_db.cc:596-605 | of a recorded row exactly the leading cells are overwritten, all other rows and the stock stay, and every crash still recovers to the tables before the order |
| TpccOrder.TpccDb.UpdateLoggedRow | janus_workload/TPCC/tpcc_db.cc:574-645 | one row of `new_order` or `order` gets its new cells, the other tables stay, and every crash recovers the tables of before |
| TpccOrder.TpccDb.RecordItem | janus_workload/TPCC/tpcc_db.cc:654-660 | the stock record is durable afterwards; every crash meanwhile lies in the window between the memory before and after, as `WindowSafeIff` decides it |
| TpccOrder.TpccDb.SellRow | janus_workload/TPCC/tpcc_db.cc:667-685 | of a recorded stock row exactly the sale happens, all records stay, and every crash still recovers to the tables before the order |
| TpccOrder.TpccDb.UpdateStockEntry | janus_workload/TPCC/tpcc_db.cc:647-690 | the item's stock row is sold from, its record and bit are set, and no other slot changes; only while the record is written may a crash not recover |
| TpccOrder.TpccDb.FillOrderLine | janus_workload/TPCC/tpcc_db.cc:692-722 | of the order-line table exactly this row's leading cells change; neither what is recovered nor the logged tables do |
| TpccOrder.TpccDb.OrderEach | janus_workload/TPCC/tpcc_db.cc:545-551 | the loop: each item in turn is recorded and sold, with one window each, its order line is written, and nothing else changes what is recovered |
| TpccOrder.TpccDb.OrderItems | janus_workload/TPCC/tpcc_db.cc:544-551 | sells from the rows of all items of the request and changes no other table; every crash image recovers, except those between the memory before and after one item's record was written, with exactly the items before it sold; each item has one such window |
| TpccOrder.TpccDb.FillOrder | janus_workload/TPCC/tpcc_db.cc:538-551 | the tables become those of the placed order, while undoing still leads back; crashes and windows as for the loop |
| TpccOrder.TpccDb.EndTx | janus_workload/TPCC/tpcc_db.cc:553-558 | every crash during the commit recovers all of before or all of after |
| TpccOrder.TpccDb.NewOrderTx | janus_workload/TPCC/tpcc_db.cc:489-571 | `OrderPlaced`: the district's counter grows by one; `new_order`, `order` and order-line rows at the stated numbers hold order, district, warehouse and customer ids, item count, items and amounts at their offsets; of the stock exactly the items of this warehouse lose seven units or gain 84, with `s_ytd` and `s_order_cnt` grown by 7 and 1; all other rows and cells stay. Every crash recovers both row tables and the stock of before, or all three of after, except those between the memory before and after one item's record was written, with exactly the items before it sold; each item has one such window |
| TpccOrder.TpccDb.NewOrders | janus_workload/TPCC/tpcc_nvm.cc:409-484 | for any run of requests, the states between them are linked by `OrderPlaced`, and at the end the fifteen latest orders of every district are in the tables with all their rows; a crash during a request leaves all of it or nothing of it and all requests before it, or lies in the window of one of its items |
| TpccRecording.InWindowDecides | janus_workload/TPCC/tpcc_db.cc:647-690 | what a crash in the window of an item leaves: the row tables recover, exactly the items before it are sold, and the stock recovers if and only if the record does no harm, which is certain if it was safe to write when the order began |
| TpccRecording.RecordingSafeIff | janus_workload/TPCC/tpcc_db.cc:654-660 | every crash in the window of an item recovers if and only if its record was safe to write when the order began; otherwise one of two images that the cache can make does not |
| TpccRequest.IndexesFit | janus_workload/TPCC/tpcc_db.cc:576-578 | every index the request computes lies within its table |
| TpccRequest.NewOrderRowOf | janus_workload/TPCC/tpcc_db.cc:576-578 | the row index in closed form: the sign change matters for the first district only, the final remainder for none |
| TpccRequest.NewOrderRowsOwn | janus_workload/TPCC/tpcc_db.cc:576-578 | no two open orders of any districts share a `new_order` row, for all the negative remainders |
| TpccRequest.OrderRowsOwn | janus_workload/TPCC/tpcc_db.cc:611-611 | nor an `order` row |
| TpccRequest.EachSoldOnce | janus_workload/TPCC/tpcc_db.cc:667-677 | selling from pairwise distinct rows one after another sells from each exactly once, whatever their order |
| TpccRequest.PlacedSells | janus_workload/TPCC/tpcc_db.cc:544-550 | a transaction sells from exactly the rows of its items |
| TpccFields.NextPlaces | janus_workload/TPCC/tpcc_db.cc:489-722 | a request changes exactly the counter, rows and cells that `OrderPlaced` lists, to the values it lists |
| TpccFields.StockNamed | janus_workload/TPCC/tpcc_db.cc:649 | a stock row is sold from if and only if it is the row of one of the request's items in the request's warehouse |
| TpccFields.OrderNumbers | janus_workload/TPCC/tpcc_db.cc:497 | order numbers start at 1, grow by one, and after 15 start over |
| TpccHistory.CountersCount | janus_workload/TPCC/tpcc_db.cc:536 | between any two points of a run a district's counter grows by the number of that district's orders |
| TpccHistory.NumbersRepeatIff | janus_workload/TPCC/tpcc_db.cc:497 | two orders of a district get the same number if and only if a multiple of fifteen of its orders lie from the one up to the other |
| TpccHistory.FifteenApart | janus_workload/TPCC/tpcc_db.cc:574-722 | any fifteen consecutive orders of a district have pairwise different numbers and share no row of any table |
| TpccHistory.StaysOnFile | janus_workload/TPCC/tpcc_db.cc:574-722 | an order with other rows leaves all rows of this one as they are |
| TpccHistory.LatestOnFile | janus_workload/TPCC/tpcc_db.cc:489-722 | at any point of a run an order is on file, with all its rows, until fifteen more of its district have followed |
| TpccHistory.ChainKeepsLatest | janus_workload/TPCC/tpcc_nvm.cc:409-484 | so after the run the fifteen latest orders of every district are |
| TpccHistory.RunIsChain | janus_workload/TPCC/tpcc_nvm.cc:409-484 | the states of a run of requests are linked by `OrderPlaced` |
| ItemSelection.Select | janus_workload/TPCC/tpcc_nvm.cc:432-448 | the ids are the first occurrences among the draws, pairwise distinct and in range, with no draw used beyond the one that completes them |
| ItemSelection.MakeRequest | janus_workload/TPCC/tpcc_nvm.cc:424-451 | whatever is drawn, a request has its warehouse, district, customer and number of items by the drawn number, distinct items in range, and meets what `NewOrderTx` requires |
| ItemSelection.FirstOccurrencesDistinct | janus_workload/TPCC/tpcc_nvm.cc:434-446 | first occurrences are pairwise distinct and miss no value |
| ItemSelection.Taken | janus_workload/TPCC/tpcc_nvm.cc:438-445 | a draw is rejected exactly when it is among the ids chosen |
| HashChains.Hash | janus_workload/hash/singly_linked_hash.h:54-56 | the bucket number is below the table size |
| HashChains.ProductGrows | janus_workload/hash/singly_linked_hash.h:54-56 | the 64-bit word before the remainder is 0 for value 0, and from one value to the next grows by 49979693, less 2^64 when that is reached |
| HashChains.HashIs | janus_workload/hash/singly_linked_hash.h:54-56 | the bucket is the only number below the size that differs from the word by a multiple of the size |
| HashChains.OneTable | janus_workload/hash/singly_linked_hash.h:92-130 | no memory image holds two different tables |
| HashTable.HashTable.Insert | janus_workload/hash/singly_linked_hash.h:92-130 | the node becomes the last of its bucket; from a durable table and a node with durable null link, every crash image holds the chains of before or of after, items included |
| HashTable.HashTable.StoreItem | janus_workload/hash/singly_linked_hash.h:100-105 | the item is durable in its node and no other cell changes; if the table was durable, every crash image holds the chains unchanged |
| HashTable.HashTable.LinkNode | janus_workload/hash/singly_linked_hash.h:108-112 | the node joins the end of its chain by one durable link; if table and node were durable, every crash image holds the chains without the node or with it |
| HashTable.HashTable.InsertAll | janus_workload/hash/singly_linked_hash.h:92-130 | for any run of inserts a crash finds the chains of the finished inserts, or those and the one in flight |
| HashTable.InsertsInOrder | janus_workload/hash/singly_linked_hash.h:92-130 | such chains are the initial ones followed by the nodes hashed to the bucket, in order |
| HashTable.HashTable.InitInsert | janus_workload/hash/singly_linked_hash.h:68-90 | the node becomes the last of its bucket with the item it already holds |
| HashTable.HashTable.FindTail | janus_workload/hash/singly_linked_hash.h:75-89 | the walk ends, at the bucket's last node |
| HashTable.HashTable.FindValue | janus_workload/hash/singly_linked_hash.h:140-155 | the walk ends, at the first node with the value or at null |
| HashTable.HashTable.Erase | janus_workload/hash/singly_linked_hash.h:134-162 | the first node with the value is unlinked, if there is one, and no other chain changes |
| HashTable.EraseCounts | janus_workload/hash/singly_linked_hash.h:134-162 | one occurrence of the value goes, if the table has any; no other count changes |
| HashTable.HashTable.Run | janus_workload/hash/singly_linked_hash.h:54-162 | any mix of operations on nodes of their own keeps chains disjoint, acyclic and null-terminated |
| HashTable.RunRefinesBag | janus_workload/hash/singly_linked_hash.h:54-162 | after any mix of operations the table holds every value as often as the multiset does, each in the bucket of its hash |
| LockQueue.SimpleQueue.Push | janus_workload/TPCC/simple_queue.h:49-59 | appends, unless 19 entries are held |
| LockQueue.SimpleQueue.Pop | janus_workload/TPCC/simple_queue.h:66-75 | removes the oldest entry, if there is one |
| LockQueue.SimpleQueue.Full | janus_workload/TPCC/simple_queue.h:30-35 | holds exactly with 19 entries |
| LockQueue.SimpleQueue.Size | janus_workload/TPCC/simple_queue.h:37-47 | the number of entries, wrapped or not |
| LockQueue.SimpleQueue.Front | janus_workload/TPCC/simple_queue.h:61-64 | the oldest entry, if there is one |
| LockQueue.SimpleQueue.Empty | janus_workload/TPCC/simple_queue.h:25-28 | the indexes meet exactly when the queue has no entries |
| LockQueue.AcquireLocks | janus_workload/TPCC/tpcc_db.cc:726-737 | locks all requested ids in order and notes them as far as the queue has room |
| LockQueue.ReleaseLocks | janus_workload/TPCC/tpcc_db.cc:739-750 | unlocks exactly the noted ids, oldest first |
| LockOrder.NoDeadlock | janus_workload/TPCC/tpcc_db.cc:726-750 | with increasing requests of at most 19 ids, in every reachable state with a transaction under way some transaction can go on |
| LockOrder.AllCanFinish | janus_workload/TPCC/tpcc_db.cc:726-750 | from there all transactions under way can be completed |
| LockOrder.RequestServed | janus_workload/TPCC/tpcc_db.cc:726-750 | whatever the others hold, a request of at most 19 increasing ids can be served to its end, with exactly its ids unlocked, in order |
| LockOrder.LocksBalance | janus_workload/TPCC/tpcc_db.cc:726-750 | no push is dropped, held locks are owned by their holder, and a finished transaction has unlocked its request in order |
| LockOrder.StepKeepsInv | janus_workload/TPCC/tpcc_db.cc:726-750 | every step of every thread keeps queues in order and owners right |
| Barrier.NobodyLeavesEarly | janus_workload/TATP/tatp_nvm.cc:215-230 | in every reachable state: all threads have arrived at a round that any thread has completed, completed rounds differ by at most one, `crossing` is the number of parked threads |
| Barrier.StepElsewhere | janus_workload/TATP/tatp_nvm.cc:215-230 | in any state, a step touches other threads only as the broadcast of the last to cross, which wakes those parked and no others |
| Barrier.BroadcastStartsRound | janus_workload/TATP/tatp_nvm.cc:224-229 | a broadcast finds every other thread parked and starts the next round |
| Barrier.StepKeepsRound | janus_workload/TATP/tatp_nvm.cc:215-230 | any other step stays in the round |
| Barrier.SomeoneMoves | janus_workload/TATP/tatp_nvm.cc:215-230 | some thread can always move |
| Barrier.SpuriousWakeupExact | janus_workload/TATP/tatp_nvm.cc:220-223 | in every reachable state with a parked thread, its spurious wakeup can make some thread complete a round another has not arrived at, if and only if the last arrival is not already holding the mutex to count itself |
| Barrier.SpuriousWakeupLeavesEarly | janus_workload/TATP/tatp_nvm.cc:220-223 | with two threads or more, a spurious wakeup of the first one parked lets it complete a round that another has not arrived at |
| ContextTable.ProbeCovers | janus_workload/TATP/context.cpp:41-43 | for every hash, also where the sum wraps at 2^64, the 128 probes visit every slot |
| ContextTable.StepKeepsInv | janus_workload/TATP/context.cpp:36-162 | every step of concurrent creates, lookups and joins keeps slots and ids in correspondence |
| ContextTable.OneSlotPerId | janus_workload/TATP/context.cpp:36-98 | in every reachable state a slot holds an id exactly when that id claimed it: one owner per slot, one slot per id |
| ContextTable.LookupsSucceed | janus_workload/TATP/context.cpp:100-110 | a lookup of a registered id never runs past the table, and finds that id's own slot, whatever was freed before it |
| ContextTable.CreatesSucceed | janus_workload/TATP/context.cpp:36-65 | with at most 128 live ids, a create during which nothing is freed does not run past the table |
| ContextTable.CallsEnd | janus_workload/TATP/context.cpp:41-64 | every step of a call shortens it and no other call's step prolongs it |
| ContextTable.CallFinishes | janus_workload/TATP/context.cpp:36-162 | a call left to itself ends within that many steps: a create that saw no join registers its id and no other, a join removes its id and no other, a lookup changes nothing |
| ContextTable.EveryCallCanEnd | janus_workload/TATP/context.cpp:36-162 | so, wherever a run has got to, each of its calls can end without help from the others |
| TxSections.ThreadContext.ExclusiveLock | janus_workload/TATP/context.cpp:320-339 | the write-lock and mutex wrappers: under the lock exactly one transaction is open, opened right after it if none was; counters keep matching the events, opens and commits alternate, and unless `tx_lock` or `tx_unlock` was called every finished outermost section is covered |
| TxSections.ThreadContext.Unlock | janus_workload/TATP/context.cpp:286-304 | both unlock wrappers: no transaction outlives the last lock, whose release comes after the commit, and none is committed while another lock is held; the same is kept |
| TxSections.ThreadContext.ReadLock | janus_workload/TATP/context.cpp:248-262 | a read lock adds no open or commit to the events; the same is kept |
| TxSections.ThreadContext.TxLock | janus_workload/TATP/context.cpp:209-219 | exactly one transaction is open afterwards, a new one only if none was; counters keep matching the events, and opens and commits alternate |
| TxSections.ThreadContext.TxUnlock | janus_workload/TATP/context.cpp:221-230 | no transaction is open afterwards, and one was committed only if it was open; the same is kept |
| TxSections.ThreadContext.Run | janus_workload/TATP/context.cpp:209-358 | whatever a thread calls, up to the first unlock without a lock: in the events of its context opens and commits alternate, and without `tx_lock` and `tx_unlock` they split into outermost sections, each covered by its own transaction |
| TxSections.StepTracks | janus_workload/TATP/context.cpp:209-358 | every call keeps the counters equal to the locks held and transactions open in the events, their alternation, and the split into covered sections |
| TxSections.TransactionsAlternate | janus_workload/TATP/context.cpp:209-358 | for every run opens and commits alternate, and `openTxs` is the number open, 0 or 1 |
| TxSections.RunsIff | janus_workload/TATP/context.cpp:286-304 | a sequence of calls gets past the assertions of the unlock wrappers if and only if it never releases more locks than it was granted, and the lock count is the difference |
| TxSections.SectionsCovered | janus_workload/TATP/context.cpp:248-358 | without `tx_lock` and `tx_unlock` a run is a sequence of outermost sections, each with a write lock or mutex covered by exactly one transaction that opens at the first such lock and is committed right before the last release, the others with none |
| ReorderBuffer.SortStable | gem5/util/o3-pipeview.py:154-169 | sorting keeps instructions with the same number in order |
| ReorderBuffer.SortPermutes | gem5/util/o3-pipeview.py:154-169 | and loses or repeats none |
| ReorderBuffer.FilterSort | gem5/util/o3-pipeview.py:169-188 | filtering before or after sorting makes no difference |
| ReorderBuffer.NextIsBehind | gem5/util/o3-pipeview.py:47-52 | an instruction preceded by at most `min_threshold` larger ones belongs behind everything already taken out |
| ReorderBuffer.Viewer.QueueInst | gem5/util/o3-pipeview.py:159-164 | nothing is lost or repeated, and what was taken out stays in its final place |
| ReorderBuffer.Viewer.PrintInsts | gem5/util/o3-pipeview.py:167-188 | takes out the smallest down to the threshold; all it prints lies within the five bounds of the options, and what it takes out and does not print breaks one |
| ReorderBuffer.Viewer.QueueRegion | gem5/util/o3-pipeview.py:126-150 | the main loop queues exactly the instructions from the start up to the first stopping fetch, and keeps the printing in order if the trace is out of order by at most the threshold |
| ReorderBuffer.FindStart | gem5/util/o3-pipeview.py:83-107 | the skipping loops stop at the one place where every fetch before is earlier than the starting tick, every line but the last instruction's too, and the next one is not; or, with a starting number only, at the first fetch with that number or a larger one; or at the beginning or the end |
| ReorderBuffer.OneStart | gem5/util/o3-pipeview.py:83-107 | that description fits exactly one place of any trace |
| ReorderBuffer.SkippingLosesNothing | gem5/util/o3-pipeview.py:83-107 | none of the skipped instructions is one the options ask for |
| ReorderBuffer.Viewer.ProcessTrace | gem5/util/o3-pipeview.py:70-150 | whatever is printed belongs to the region of the trace and lies within each of the five bounds; unless it raises, each instruction of the region that is not printed breaks one of them; if no instruction is preceded by more than `min_threshold` larger ones the output is sorted, and what was printed before a raise is the front of that |
| ReorderBuffer.CompleteIffNothingWantedLater | gem5/util/o3-pipeview.py:131-135 | that is the whole filtered trace if and only if nothing wanted comes at or after the stopping fetch |
| ReorderBuffer.StoppingLosesInstruction | gem5/util/o3-pipeview.py:131-135 | for every stopping number there is a trace out of order by one place whose wanted instruction is never printed |
| ReorderBuffer.StoppingSafeIff | gem5/util/o3-pipeview.py:47-57 | stopping at a sequence number loses nothing of any trace whose instructions are at most `d` places from where their numbers belong, if and only if 2 d is at most `max_threshold` plus one; the defaults 1000 and 2000 meet it |
| ReorderBuffer.TickStoppingSafeIff | gem5/util/o3-pipeview.py:131-135 | stopping at a tick loses no wanted instruction of any trace whose fetches are out of order by at most d ticks if and only if d is at most the drift |
| Upgraders.LoadAll | gem5/util/cpt_upgrader.py:161-185 | every tag ends with its own, legacy and forward dependencies, in whatever order tags are visited; it fails exactly when one of them does not exist |
| Upgraders.ChainLegacy | gem5/util/cpt_upgrader.py:167-171 | each consecutive legacy version from 3 on depends on the one before, other tags as declared |
| Upgraders.GatherAll | gem5/util/cpt_upgrader.py:173-185 | in whatever order the tags are visited: fails exactly when a dependency, own or forward, names no tag; else every tag has its own dependencies and those pushed to it, all of them tags |
| Upgraders.PushForward | gem5/util/cpt_upgrader.py:175-180 | fails exactly when a named tag does not exist; else the tag becomes a dependency of exactly the tags it names |
| Upgraders.Upgrade | gem5/util/cpt_upgrader.py:240-252 | terminates; applies each missing tag once, dependencies present; ends with the old tags and all tags; aborts if and only if missing tags form a dependency cycle |
| Upgraders.ApplyRound | gem5/util/cpt_upgrader.py:248-252 | a round applies all ready tags, in whatever order the set yields them |
| Upgraders.StuckCycles | gem5/util/cpt_upgrader.py:242-246 | where no missing tag is ready there is a cycle |
| Upgraders.AppliedAcyclic | gem5/util/cpt_upgrader.py:140-144 | tags applied with their dependencies present form no cycle |
| Varint.EncodeVarint | gem5/util/protolib.py:146-158 | groups of seven bits, least significant first, all but the last marked |
| Varint.InFile.ReadVarint | gem5/util/protolib.py:101-129 | value, end of file or too many bytes, and how much of the file is left, for every byte stream |
| Varint.DecodeStops | gem5/util/protolib.py:113-129 | decoding looks at no more than ten bytes of any stream |
| Varint.VarintRoundTrip | gem5/util/protolib.py:101-158 | every 32-bit number is read back, whatever follows |
| Varint.InFile.ReadMessage | gem5/util/protolib.py:131-144 | a message or false, and what is left |
| Varint.InFile.ReadAll | gem5/util/decode_inst_dep_trace.py:156-157 | reading until a message cannot be read yields what `DecodeAll` makes of the bytes, the decoding that `ReadBack` is about |
| Varint.EncodeMessage | gem5/util/protolib.py:160-166 | the length and the message are appended |
| Varint.WriteAll | gem5/util/encode_inst_dep_trace.py:150-197 | messages written one after another make the bytes that `ReadBack` is about |
| Varint.ReadBack | gem5/util/protolib.py:131-166 | of any list of messages shorter than 2^32 exactly those before the first empty one are read back |
| Varint.RoundTripIffNoneEmpty | gem5/util/protolib.py:131-166 | all of them are read back if and only if none is empty |
| DepTrace.PrintRecord | gem5/util/decode_inst_dep_trace.py:157-206 | the line of a record, written out piece by piece: number, `pc` or 0, `weight` or 1, type name, the optional fields that are there, delay, and both lists; or failure for an unknown type |
| DepTrace.PrintDeps | gem5/util/decode_inst_dep_trace.py:193-204 | the loop writes a comma before every number, and nothing for an empty list |
| DepTrace.ParseDeps | gem5/util/encode_inst_dep_trace.py:182-195 | the loop skips empty items and yields the numbers of the others in order, or fails if one is none |
| DepTrace.ParseLine | gem5/util/encode_inst_dep_trace.py:150-198 | the record of a line, or failure |
| DepTrace.ParseIff | gem5/util/encode_inst_dep_trace.py:150-198 | a line is accepted as a record if and only if it has three parts, its first spells the record field by field, and the others list its dependencies; extra fields do not matter |
| TraceText.StripIs | gem5/util/encode_inst_dep_trace.py:151 | stripping takes the blanks off both ends and nothing else |
| DepTrace.RecordRoundTrip | gem5/util/encode_inst_dep_trace.py:150-198 | parsing the printed line gives the record back, `pc` and `weight` defaulted and both dependency lists in order, if and only if it is a load or store with address, size and flags or a computation with none |
| DepTrace.TraceRoundTrip | gem5/util/decode_inst_dep_trace.py:156-206 | a whole trace survives the way through its text file if and only if all of its records do |
| DepTrace.DecodeTrace | gem5/util/decode_inst_dep_trace.py:156-206 | the loop writes the lines of all records, or fails at one of unknown type |
| DepTrace.EncodeTrace | gem5/util/encode_inst_dep_trace.py:150-198 | the loop gives the records of all lines, or fails |
| PortBinder.Collect | gem5/configs/example/read_config.py:305-341 | ports of each vector are bound in consecutive index order from 0 and no port twice; with both orientations listed every port is known |
| PortBinder.BindPorts | gem5/configs/example/read_config.py:300-354 | for a listing in both orientations without repetition it succeeds if and only if some part of the sorted connections, in their order, holds one orientation of each with the ports of every vector in index order from 0; then every connection is bound in exactly one orientation |
| PortBinder.CrossedCannotBind | gem5/configs/example/read_config.py:321-341 | two vectors connected crosswise are a symmetric listing without repetition or loops, no order binds any of it, and none has a schedule |
| PortBinder.SortingMisses | gem5/configs/example/read_config.py:158-160 | a chain of three connections has one ascending order by object, port name and index; some order binds the chain, that one does not |
| PortBinder.SortedOnce | gem5/configs/example/read_config.py:158-160 | sorting leaves one order of the connections only |
| PortBinder.ConnectionsCompare | gem5/configs/example/read_config.py:158-160 | any two connections compare, and none with itself |
| PortSchedules.PassExact | gem5/configs/example/read_config.py:332-346 | the greedy pass binds half of the listing if and only if the order has a schedule at all |
| PortSchedules.GreedyFollows | gem5/configs/example/read_config.py:332-341 | whatever a schedule has chosen up to some point, the pass has bound by then |
| PortDeadlocks.BindableIff | gem5/configs/example/read_config.py:321-346 | a listing can be bound in some order if and only if every port is in one connection, no vector has gaps, and no connections wait for each other in a cycle |
| PortPass.NeverBoth | gem5/configs/example/read_config.py:331-341 | no connection is bound in both orientations |
| PortPass.EachOnce | gem5/configs/example/read_config.py:343-346 | half as many connections that share no port are, with their reverses, all of them |
| PrimeSearch.IsPrime | janus_workload/hash/gen_prime.cpp:8-19 | true exactly for primes |
| PrimeSearch.SmallDivisor | janus_workload/hash/gen_prime.cpp:14-16 | a proper divisor brings one at most the square root |
| PrimeSearch.LargerPrime | janus_workload/hash/gen_prime.cpp:28-30 | beyond every number there is a prime |
| PrimeSearch.NextPrime | janus_workload/hash/gen_prime.cpp:27-31 | the search ends, at the least prime not below the start, which is larger than the start if and only if the start is not prime |

## Left out

- TATP thread ids are taken as 0 to n-1; the code counts from 1 over arrays of n slots.
- BeginDecided: needs the table to start a line, which holds because it starts the pool, and so does RelockLosesUpdate once the discard is stored; the other TATP results do not.
- TATP: a call of `flush_caches` is one step, and a thread's fence waits for its own flushes only.
- TATP: setting up the tables; the model starts from rows whose `s_id` is their index.
- TPCC: crash behaviour of the district row and the order lines, for which the code keeps no undo record.
- TPCC: several threads at once; one thread's log and tables are modelled. Locks are in `LockOrder`.
- TPCC: a 64-bit log flag is one cell; money and quantities are integers; the random amounts are given.
- Hash table: crash behaviour of `init_insert` and `erase`, which do not flush.
- C integers are unbounded, except the hash and the probe order, which wrap at 2^64.
- `janus_workload/queue`, `new_orders_nops`, and the libpmemobj variants.
- `ContextHash` itself: the context table is proved for every hash function; contexts' other fields are left out.
- `tx_open` and `tx_commit` are events in a trace; their bodies are not shown.
- Pipeline viewer: drawing of the timeline; lines are grouped into instructions, each starting with its fetch.
- Checkpoint upgrader: downgraders, whose dependencies the code does not treat as documented; the upgrades themselves.
- Dependency traces: `long` is modelled on plain digit strings, so signs and blanks inside a number are refused; the protobuf side of both scripts.
- BindPorts: holds for any order, not only the one of `sorted`; a port connected to itself, which the code would count twice, is excluded; setting the attributes of the objects.
- Random numbers are parameters; input and output, clocks and command lines are not modelled.
