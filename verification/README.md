# Quant feed handler: a verified model

This project models a market-data feed handler and proves what its data structures promise. The handler reads
add ('A'), cancel ('X') and execute ('E') messages, keeps a table of orders and, per side, a fixed array of the best
price levels; around it are a lock-free queue between two threads, an arbitrator that merges two copies of the feed,
a write-ahead log, a line parser with its printer, a rate limiter, a paper-trading ledger and a latency tracker.

`dafny verify dfyconfig.toml` checks everything.

## How it is built

| file | what it holds |
|---|---|
| `Bits.dfy`, `Wrappers.dfy`, `Protocol.dfy` | 64-bit wrap-around and masking, optional values, the message union |
| `PriceLevels.dfy` | the array of levels, updated in place, and the ladder (price to aggregate) it shows |
| `OrderTable.dfy` | open addressing with linear probing and tombstones, as a bounded map |
| `OrderBook.dfy` | the book class over both, and `Process`, one message as a step on plain values |
| `OrderHistory.dfy`, `LevelHistory.dfy` | one order and one level told from the messages alone |
| `LiveTotals.dfy` | the simple model: sums over the live records |
| `BookTheorems.dfy`, `TopOfBook.dfy`, `BookLimits.dfy`, `GapAccounting.dfy` | what the arrays and counters say about the live orders, and exactly where that stops |
| `RingBuffer.dfy`, `Pipeline.dfy`, `PipelineExit.dfy` | the queue as atomic steps of two threads, the benchmark pipeline around it, and how it ends |
| `Arbitrator.dfy`, `FeedConfluence.dfy` | the reorder buffer, and the book behind it |
| `WalJournal.dfy` | the log over its record array, sessions and crashes |
| `Decimals.dfy`, `LineParser.dfy`, `LineForms.dfy`, `WireFormat.dfy` | text lines and raw packets |
| `TokenBucket.dfy`, `PaperLedger.dfy`, `LatencyTracker.dfy` | the three arithmetic cores, over exact reals |

Each class keeps the fields of the C++, Python or JavaScript object and its methods update them in place. A method's
contract equates the new state with a function on plain values, and the theorems are about runs of those functions.
A side of the book is read as a map from price to quantity and count: `ViewDeterminesArray` shows that a well-formed
array has no other freedom, so a theorem about the map is a theorem about every slot.

The book is compared with sums over the live records of its own order table. Four readings of that comparison are
proved, from the weakest feed to the strongest: any message keeps the structure; a gentle feed never makes a level
overstate; a well-formed feed is exact above the watermark, the best price the side has ever dropped; and adds alone,
or any run with a clean watermark certificate, show the true top of the book. On a well-formed feed the top is lost in
exactly one way: a message empties a shown price while more prices are live than the side has room for (`TopKeptIff`,
`AlwaysTopIff`).

The arbitrator is characterised the same way: it loses a packet exactly when an arrival shares its slot with another
number still waiting (`NeverLostIff`), which arrivals within the window never do.

## Where the code and its documentation disagree

- `PRODUCTION_READINESS.md:45` claims that the best bid stays below the best ask. Nothing in the book enforces it:
  `CrossedBook` is a two-message feed that crosses it, and `UncrossedIff` says exactly which messages do.
- The comment at `include/feed_handler/parser_validator.hpp:189` offers optional dummy columns one by one. With a single
  one the parser takes the dummy for the quantity (`LoneDummyColumn`); `CancelShapesIff` and `ExecuteShapesIff` say for
  every number of columns when a line is read as meant.
- The printer accepts any positive price, but a price below half a cent prints as 0.00 and the parser refuses the line
  (`AddRoundTripIff`).
- A journal file filled to the last record scans back to offset zero on reopening (`ReopenFindsEndIff`), and unknown
  record types are skipped by recovery although live processing counts them (`RecoveryEqualsLiveIff`).
- The consumer loop of the threaded benchmark may leave early if its emptiness test sees an old head
  (`ExitIsComplete`; `EarlyExit` is such a run).
- `totalEquity` does not mark a short position (`EquityShownIff`), and the latency tracker never clears its sorted
  flag (`AnswersTrueIff`; `StaleFlag` is a wrong answer).

## Model

| member | source | states |
|---|---|---|
| `PriceLevels.ApplyDelta` | include/feed_handler/order_book.hpp:247-292 | keeps the side structurally well formed for any delta at all, and the ladder it shows moves by the map-level `Apply`: adjust, drop, open, evict the worst, or ignore |
| `PriceLevels.AdjustLevel` | include/feed_handler/order_book.hpp:250-259 | a shown price is updated in place, or its level removed when quantity or count runs out |
| `PriceLevels.OpenLevel` | include/feed_handler/order_book.hpp:264-292 | a price that is not shown takes a free slot, replaces the worst level if it is better, or is refused |
| `PriceLevels.InsertAt` | include/feed_handler/order_book.hpp:281-291 | a level written over the first free or the last slot and bubbled forward leaves a well-formed side that shows it, less the price overwritten |
| `PriceLevels.BubbleIntoPlace` | include/feed_handler/order_book.hpp:284-291 | the swaps stop with every better level in front and every worse one behind, nothing else moved |
| `PriceLevels.RemoveLevel` | include/feed_handler/order_book.hpp:294-299 | the levels behind the removed one move up by one and the last slot becomes the empty level |
| `PriceLevels.InsertedShape` | include/feed_handler/order_book.hpp:281-291 | the bubbled array is sorted and shows the old ladder, less an evicted price, plus the new level |
| `PriceLevels.RemovedShape` | include/feed_handler/order_book.hpp:294-299 | the shifted array is sorted and shows the old ladder less one price |
| `PriceLevels.ViewDeterminesArray` | include/feed_handler/order_book.hpp:15-20 | a well-formed array is fixed by the prices and aggregates it shows, so the map-level theorems below fix every slot |
| `PriceLevels.LastIsWorst` | include/feed_handler/order_book.hpp:274-279 | in a full array the last slot is the worst shown price, which is what the improvement test compares with |
| `OrderBooks.TopIsBest` | include/feed_handler/order_book.hpp:156-160 | slot zero is active exactly when the side is non-empty and no shown price is ahead of it |
| `OrderBooks.LimitOrderBook.constructor` | include/feed_handler/order_book.hpp:39-51 | a new book is the empty state |
| `OrderBooks.LimitOrderBook.Reset` | include/feed_handler/order_book.hpp:43-51 | reset returns to the empty state |
| `OrderBooks.LimitOrderBook.ProcessMessage` | include/feed_handler/order_book.hpp:56-83 | keeps the structural invariant under every message and moves the whole state (orders, both ladders, four counters) by `Process` |
| `OrderBooks.LimitOrderBook.CheckSequence` | include/feed_handler/order_book.hpp:57-67 | sequence check with 64-bit wrap, including the switched-off check when the expectation has wrapped to zero |
| `OrderBooks.LimitOrderBook.ProcessAdd` | include/feed_handler/order_book.hpp:88-99 | stores the record and moves one side, or changes nothing when the table refuses |
| `OrderBooks.LimitOrderBook.ProcessCancel` | include/feed_handler/order_book.hpp:104-123 | moves the level by new minus old quantity and rewrites the record; unknown or dead ids change nothing |
| `OrderBooks.LimitOrderBook.ProcessExecute` | include/feed_handler/order_book.hpp:128-149 | moves the level by the raw fill, clamps the record at zero, counts the trade |
| `OrderBooks.LimitOrderBook.AmendRecord` | include/feed_handler/order_book.hpp:113-122 | level first, then the record behind the looked-up pointer; all other orders untouched |
| `OrderBooks.LimitOrderBook.BestBidPrice` | include/feed_handler/order_book.hpp:159-159 | zero on an empty side, else the highest shown bid |
| `OrderBooks.LimitOrderBook.BestAskPrice` | include/feed_handler/order_book.hpp:160-160 | zero on an empty side, else the lowest shown ask |
| `OrderHistories.RecordIsHistory` | include/feed_handler/order_book.hpp:88-149 | in every run of any messages the record the book holds for an id is told by the messages for that id alone: its last accepted add, the quantities cancels set and the fills since, until one ends it; other ids only matter for whether an add is accepted |
| `OrderHistories.LiveOrderMeaning` | include/feed_handler/order_book.hpp:88-149 | an order is live exactly when no cancel or fill since its last accepted add left it nothing; it then rests on the side and at the price of that add with the quantity last set for it less the fills since |
| `OrderHistories.ReduceSets` | include/feed_handler/order_book.hpp:104-123 | a cancel with a positive quantity sets what is left of a live order, keeps its side and price, and moves the live volume there by the difference; no other order changes |
| `LevelHistories.ShownSinceHidden` | include/feed_handler/order_book.hpp:247-292 | on every well-formed run a shown price holds the live total now less the live total when it was last hidden, in quantity and in orders, and one order more if an amendment opened it |
| `LevelHistories.ShownIsArrived` | include/feed_handler/order_book.hpp:247-292 | on every run of any messages a shown price holds the volume and orders that arrived since it was last hidden, the opening message counting as one order at least |
| `OrderTables.OrderTable.Insert` | include/feed_handler/order_table.hpp:61-91 | bounded map update; null exactly when the id is unknown and every slot holds another id; `size()` keeps its accuracy |
| `OrderTables.OrderTable.Lookup` | include/feed_handler/order_table.hpp:97-110 | finds a slot exactly for the known ids, and that slot holds the stored record |
| `OrderTables.OrderTable.Erase` | include/feed_handler/order_table.hpp:130-138 | true exactly for a live id, which becomes a tombstone; every other record kept |
| `OrderTables.OrderTable.Edit` | include/feed_handler/order_book.hpp:119-122 | an edit through the pointer changes that one record, no probe chain, and does not touch the active count |
| `OrderTables.OrderTable.Clear` | include/feed_handler/order_table.hpp:41-45 | the empty map |
| `OrderTables.OrderTable.Size` | include/feed_handler/order_table.hpp:140-142 | the number of live orders plus the drift; `Pipelines.RunDirect` and `BookLimits.LiveIsBirthsLessDeaths` say what the drift is after a run |
| `OrderTables.MissMeansAbsent` | include/feed_handler/order_table.hpp:100-109 | reaching an empty slot, or probing every slot, proves the id absent; the latter also that the table is full |
| `OrderTables.StoreNew` | include/feed_handler/order_table.hpp:64-75 | storing at the first empty slot keeps ids unique and every probe chain unbroken |
| `OrderTables.StoreSame` | include/feed_handler/order_table.hpp:76-87 | overwriting in place keeps chains and changes one map entry |
| `OrderTables.LookupIsLastStored` | include/feed_handler/order_table.hpp:61-138 | over any history whatever an id is known if and only if some store of it came while fewer than capacity different ids had been stored, and it then maps to the last record stored for it with the edits since, whatever happened to other ids |
| `OrderTables.Perform` | include/feed_handler/order_table.hpp:61-138 | the probing table, put through a history of inserts, erases, lookups and edits, stands for the bounded map that history folds to |
| `OrderTables.RecordAfter` | include/feed_handler/order_table.hpp:61-138 | what the probing table answers for an id after any history: the last record stored for it with the edits since if it was admitted, nothing if it first came to a full table |
| `OrderTables.ProbeIndex` | include/feed_handler/order_table.hpp:65-65 | masking the probe position is walking the ring |
| `Bits.MaskIsModulo` | include/feed_handler/order_table.hpp:33-34 | x & (2^k - 1) equals x mod 2^k |
| `Bits.MaskOfWrapped` | include/feed_handler/ring_buffer.hpp:57-58 | wrapping an index at 64 bits does not change its slot |
| `Bits.WrappedDifference` | include/feed_handler/ring_buffer.hpp:50-52 | unsigned subtraction of wrapped indices is the true difference |
| `LiveTotals.SumBounds` | include/feed_handler/order_book.hpp:88-149 | a live sum is positive exactly where some live record rests |
| `LiveTotals.CountIsCardinality` | include/feed_handler/order_book.hpp:15-20 | the order count of a sum is the number of records resting at the price |
| `LiveTotals.ExactShift` | include/feed_handler/order_book.hpp:104-149 | on a well-formed message the level delta is exactly the movement of the live sum |
| `LiveTotals.GentleShift` | include/feed_handler/order_book.hpp:128-149 | otherwise the level delta never exceeds that movement |
| `LiveTotals.ArrivalIsBacked` | include/feed_handler/order_book.hpp:104-117 | where volume arrives a live record stands behind it |
| `BookTheorems.NeverOverstates` | include/feed_handler/order_book.hpp:88-149 | in every run whose adds are positive and never reuse a live id, whatever the cancels and fills, each shown level is at most the true totals, and some live order rests there |
| `BookTheorems.WatermarkExactness` | include/feed_handler/order_book.hpp:247-292 | in every well-formed run, every price better than the best price ever dropped is shown exactly when a live record rests there, with the sum and the number of those records |
| `BookTheorems.ExactStep` | include/feed_handler/order_book.hpp:247-292 | one message keeps a price exact unless that step drops a price at least as good |
| `BookTheorems.ExactRun` | include/feed_handler/order_book.hpp:88-149 | above the watermark the level is the live sum, over whole runs |
| `BookTheorems.StructuralRun` | include/feed_handler/order_book.hpp:247-299 | under every run of any messages a side shows at most `depth` prices, each with positive volume |
| `TopOfBook.AddsShowTopN` | include/feed_handler/order_book.hpp:264-292 | for every run of fresh positive adds each side is the top `depth` levels of the full per-price aggregate, in price, quantity and count |
| `TopOfBook.CertifiedTop` | include/feed_handler/order_book.hpp:247-299 | on any well-formed run, a side that dropped nothing, or is full of prices above its watermark, is the true top of the book |
| `TopOfBook.CertificateKept` | include/feed_handler/order_book.hpp:273-281 | what an arrival drops is behind everything the side then shows |
| `TopOfBook.TopKeptIff` | include/feed_handler/order_book.hpp:247-299 | a side that is the true top of the book stays so over a well-formed message if and only if the message does not empty a shown price while more prices are live than the side has room for |
| `TopOfBook.AlwaysTopIff` | include/feed_handler/order_book.hpp:247-299 | over whole well-formed feeds a side is the true top after every message if and only if no message does that |
| `TopOfBook.TopIff` | include/feed_handler/order_book.hpp:15-20 | a ladder is the best `depth` prices of another if and only if its values agree, unshown prices are behind every shown one, and it holds as many prices as fit |
| `BookLimits.ExecuteExactIff` | include/feed_handler/order_book.hpp:135-148 | a fill keeps an exact level exact if and only if it is at most the remaining quantity or the order is alone there |
| `BookLimits.CancelExactIff` | include/feed_handler/order_book.hpp:110-122 | a cancel keeps an exact level exact if and only if the new quantity is not negative or the order is alone there |
| `BookLimits.AddExactIff` | include/feed_handler/order_book.hpp:88-99 | a positive add keeps an exact book exact if and only if it is refused, or is fresh and fits, or overwrites an order alone at the worst price that its own better price pushes out |
| `BookLimits.ForgottenLevel` | include/feed_handler/order_book.hpp:281-281 | a concrete feed after which a side shows nothing while an order rests on it: the case `TopKeptIff` excludes |
| `BookLimits.UncrossedIff` | PRODUCTION_READINESS.md:45 | a message keeps an uncrossed book uncrossed if and only if it does not open a level at or through the other side |
| `BookLimits.CrossedBook` | PRODUCTION_READINESS.md:45 | a well-formed two-message feed that crosses the book |
| `GapAccounting.GapsCoverTheFeed` | include/feed_handler/order_book.hpp:57-67 | processed plus gaps is at least the last sequence number, with equality exactly when no message steps backwards |
| `GapAccounting.GapsAreTheMissing` | include/feed_handler/order_book.hpp:60-64 | on a strictly increasing feed the gap counter is the number of missing sequence numbers |
| `GapAccounting.TradesCounted` | include/feed_handler/order_book.hpp:128-129 | the trade counter counts every execute message, known order or not |
| `GapAccounting.BlindAfterWrap` | include/feed_handler/order_book.hpp:57-67 | after sequence number 2^64 - 1 the check is off for one message and the expectation starts again at one |
| `BookLimits.LiveIsBirthsLessDeaths` | include/feed_handler/order_table.hpp:140-142 | over any run the live orders are the births less the deaths, a death being a cancel or fill that ends an order |
| `RingBuffers.FifoInEveryInterleaving` | include/feed_handler/ring_buffer.hpp:46-100 | in every interleaving with stale loads and wrapping indices: pushed = popped followed by the buffered slots, occupancy at most capacity, never the same slot written and read |
| `RingBuffers.InvStep` | include/feed_handler/ring_buffer.hpp:46-100 | each atomic step of either thread keeps the index and slot invariant |
| `RingBuffers.RefusedPush` | include/feed_handler/ring_buffer.hpp:50-54 | a push is refused exactly when the queue was full as of the loaded tail; with a fresh load, full now |
| `RingBuffers.RefusedPop` | include/feed_handler/ring_buffer.hpp:90-94 | a pop is refused exactly when the queue was empty as of the loaded head; with a fresh load, empty now |
| `RingBuffers.SPSCRingBuffer.BeginPush` | include/feed_handler/ring_buffer.hpp:47-50 | first fullness check against the cached tail |
| `RingBuffers.SPSCRingBuffer.ReloadTail` | include/feed_handler/ring_buffer.hpp:51-54 | cached tail reloaded with any tail published since the last look, second check |
| `RingBuffers.SPSCRingBuffer.WriteSlot` | include/feed_handler/ring_buffer.hpp:57-57 | the slot under the head is written before the head moves |
| `RingBuffers.SPSCRingBuffer.PublishHead` | include/feed_handler/ring_buffer.hpp:58-59 | the head store publishes the item |
| `RingBuffers.SPSCRingBuffer.BeginPop` | include/feed_handler/ring_buffer.hpp:87-90 | first emptiness check against the cached head |
| `RingBuffers.SPSCRingBuffer.RefreshHead` | include/feed_handler/ring_buffer.hpp:91-94 | cached head reloaded with any head published since the last look, second check |
| `RingBuffers.SPSCRingBuffer.ReadSlot` | include/feed_handler/ring_buffer.hpp:97-97 | the slot under the tail is read before the tail moves |
| `RingBuffers.SPSCRingBuffer.ReleaseTail` | include/feed_handler/ring_buffer.hpp:98-99 | the tail store frees the slot |
| `RingBuffers.SPSCRingBuffer.TryPush` | include/feed_handler/ring_buffer.hpp:46-60 | without interference: appends to the queue, refused exactly when it is full |
| `RingBuffers.SPSCRingBuffer.TryPop` | include/feed_handler/ring_buffer.hpp:86-100 | without interference: takes the oldest item, refused exactly when the queue is empty |
| `Pipelines.BookIsAPrefix` | src/main.cpp:240-275 | in every interleaving the consumer book is the fold of a prefix of the feed |
| `Pipelines.ExitIsComplete` | src/main.cpp:249-253 | on exit the book has absorbed exactly as many messages as the head it compared with; it is the direct loop's book if and only if that load was up to date |
| `Pipelines.EarlyExit` | src/main.cpp:249-253 | an interleaving of one message through two slots that leaves with the message still queued and a different book |
| `PipelineExits.ExitedByTest` | src/main.cpp:248-253 | in every interleaving a consumer that has left did so at an emptiness test, having popped and processed exactly the messages up to the head that test saw |
| `PipelineExits.FreshExitIsComplete` | src/main.cpp:248-253 | if every test saw the head then published, a consumer that has left has the whole feed and the direct loop's book; and it has that book only if its last test saw the whole feed |
| `PipelineExits.CompleteRun` | src/main.cpp:240-275 | every feed has an interleaving, through a queue of any size, that leaves with all of it |
| `Pipelines.RunDirect` | src/main.cpp:205-213 | the direct loop leaves the fold of the whole feed, and a table whose drift is the deaths of the run and whose `size()` is its births |
| `Arbitrators.DualFeedArbitrator.IngestPacket` | include/feed_handler/feed_arbitrator.hpp:47-73 | duplicate dropped, in-sequence packet passed, later packet buffered in its slot; all counters |
| `Arbitrators.DualFeedArbitrator.TryDrainBuffered` | include/feed_handler/feed_arbitrator.hpp:80-89 | emits the buffered expected packet exactly when its slot holds that number |
| `Arbitrators.DualFeedArbitrator.DeliverPacket` | tests/test_arbitrator.cpp:54-62 | ingest then drain until nothing comes; the loop ends |
| `Arbitrators.DualFeedArbitrator.Reset` | include/feed_handler/feed_arbitrator.hpp:32-38 | the fresh state |
| `Arbitrators.ArbiterSafety` | include/feed_handler/feed_arbitrator.hpp:47-89 | under any mix of arrivals and drains: emitted numbers are 1, 2, 3, ... and were ingested; ingests = direct emissions + duplicates + retransmit requests; the expectation counts emissions |
| `Arbitrators.CountersCount` | include/feed_handler/feed_arbitrator.hpp:51-70 | under any mix of events the duplicates are the arrivals below the number due, the retransmit requests those beyond it, and the gaps the sum of their leads, each modulo 2^64 |
| `Arbitrators.StaleMeansEmitted` | include/feed_handler/feed_arbitrator.hpp:51-54 | while the count has not wrapped, an arrival is below the number due exactly when its number is zero or has been emitted |
| `Arbitrators.DrainDeactivates` | include/feed_handler/feed_arbitrator.hpp:80-86 | each drained packet empties a slot, so draining terminates |
| `Arbitrators.DeliverStep` | include/feed_handler/feed_arbitrator.hpp:47-89 | one packet on any feed: the next numbers come out in order, and a number is passed or waiting afterwards if and only if it is the packet or was so before and its slot is not overwritten |
| `Arbitrators.NeverLostIff` | include/feed_handler/feed_arbitrator.hpp:69-70 | for every feed, of any order and any lead, nothing is ever lost if and only if no packet shares its slot with another number still waiting, a condition on the feed alone |
| `Arbitrators.KeptMeansComplete` | include/feed_handler/feed_arbitrator.hpp:47-89 | nothing received has been lost if and only if the output stays complete whatever in-order repairs follow |
| `Arbitrators.ArbiterCompleteness` | include/feed_handler/feed_arbitrator.hpp:47-89 | without a collision, and draining to a fixpoint, the output is the longest contiguous run from 1 of everything received, in order |
| `Arbitrators.WindowNeverCollides` | include/feed_handler/feed_arbitrator.hpp:69-70 | feeds whose packets arrive less than the buffer size ahead of the first missing number never collide |
| `Arbitrators.AheadButComplete` | include/feed_handler/feed_arbitrator.hpp:69-70 | a feed outside the window that is delivered completely |
| `Arbitrators.NothingLost` | include/feed_handler/feed_arbitrator.hpp:69-70 | without a collision, what has been received and not emitted is still in its slot |
| `Arbitrators.SameOutput` | include/feed_handler/feed_arbitrator.hpp:47-89 | two collision-free arrival orders of one consistent message set, through buffers of any sizes, come out as the same sequence |
| `Arbitrators.LostOutsideWindow` | include/feed_handler/feed_arbitrator.hpp:69-70 | a feed with a collision that loses a packet |
| `FeedConfluence.BooksAgree` | include/feed_handler/feed_arbitrator.hpp:47-89 | arrival order cannot be seen in the book: same final book, no gap ever detected, expectations in step throughout |
| `FeedConfluence.NoGapsDownstream` | include/feed_handler/order_book.hpp:57-67 | a consecutive feed leaves the gap counter at zero |
| `WalJournals.WALJournal.Open` | include/feed_handler/wal_journal.hpp:105-115 | the append offset is the first blank record, or zero when there is none |
| `WalJournals.WALJournal.Append` | include/feed_handler/wal_journal.hpp:127-135 | refused exactly when closed or full; otherwise the record lands at the offset and the offset advances |
| `WalJournals.WALJournal.Recover` | include/feed_handler/wal_journal.hpp:145-161 | replays the market records below the offset into the book and counts them |
| `WalJournals.ReopenFindsEndIff` | include/feed_handler/wal_journal.hpp:105-115 | reopening finds the end of the log if and only if no record is blank and a slot is left free |
| `WalJournals.SessionsConcatenate` | include/feed_handler/wal_journal.hpp:105-135 | over any number of sessions the log is the concatenation of all appends |
| `WalJournals.AppendExtendsLog` | include/feed_handler/wal_journal.hpp:127-135 | appends fill every slot in order, and once the file is full change nothing |
| `WalJournals.FullFileStartsOver` | include/feed_handler/wal_journal.hpp:105-135 | a session on a full file overwrites the oldest record |
| `WalJournals.ReplayIsMarketRun` | include/feed_handler/wal_journal.hpp:145-161 | recovery is live processing of the adds, cancels and executes of the log, wherever other records stand between them, and counts them |
| `WalJournals.RecoveryEqualsLiveIff` | include/feed_handler/wal_journal.hpp:152-157 | recovering into a reset book equals live processing if and only if every record is a market message |
| `WalJournals.CrashRecovery` | include/feed_handler/wal_journal.hpp:105-161 | reopen, recover, continue equals the uninterrupted run, from any crash point |
| `WalJournals.CrashPointsInvisible` | include/feed_handler/wal_journal.hpp:105-135 | how a feed is cut into sessions cannot be seen in the file |
| `WalJournals.RoomInRecords` | include/feed_handler/wal_journal.hpp:128-133 | the byte-level capacity check is the record-level one |
| `WalJournals.RecordIsLargestStruct` | include/feed_handler/protocol.hpp:98-122 | a record is as large as the largest struct |
| `TokenBuckets.TokenBucketRateLimiter.AllowRequest` | bridge.py:63-71 | refill capped at capacity, then spend or refuse |
| `TokenBuckets.TokensInRange` | bridge.py:67-70 | tokens stay between zero and capacity |
| `TokenBuckets.GrantsBounded` | bridge.py:63-71 | the cost granted in any window is at most capacity + rate * window length |
| `TokenBuckets.GrantedIff` | bridge.py:63-71 | every answer of every stream: a request is granted if and only if in every window that ends with it, its cost and what the window has granted fit a full bucket and what drips in meanwhile; a refusal takes nothing |
| `TokenBuckets.TokenBucketRateLimiter.AllowAll` | bridge.py:63-71 | a stream served by the object, answered by that rule |
| `TokenBuckets.NewIsSane` | bridge.py:57-61 | a new bucket is full |
| `TokenBuckets.NeverRefusedIff` | bridge.py:63-71 | a stream is never refused if and only if its demand meets that bound in every window |
| `PaperLedgers.Desk.ExecuteBuyMarket` | web/app.js:433-469 | the buy branches: extend a long, cover a short, turn it round |
| `PaperLedgers.Desk.ExecuteSellMarket` | web/app.js:479-508 | the sell branches: close a long, turn it round, extend a short |
| `PaperLedgers.Desk.FlattenPosition` | web/app.js:538-552 | flatten is the opposite trade of the whole position |
| `PaperLedgers.LedgerConserves` | web/app.js:433-552 | in every session, at whatever prices, cash = initial cash + realized PnL - position * entry price |
| `PaperLedgers.CashNeverNegative` | web/app.js:441-446 | with bids that are not negative, cash never goes negative in any session |
| `PaperLedgers.Desk.Play` | web/app.js:433-552 | a session of clicks at a desk leaves the fold of its trades |
| `PaperLedgers.BuyFills` | web/app.js:433-450 | a buy fills exactly when a row is shown and the cash covers it, at the best ask, and moves cash and position by it |
| `PaperLedgers.SellFills` | web/app.js:479-487 | a sell fills exactly when a row is shown, at the best bid, with or without a position |
| `PaperLedgers.BuyAverages` | web/app.js:449-469 | average cost: extending realizes nothing and averages the entry price, reducing keeps it and realizes the difference, turning round closes all and enters the rest |
| `PaperLedgers.SellAverages` | web/app.js:486-508 | the same for sells |
| `PaperLedgers.TicksAreCents` | web/app.js:439-439 | a tick of a row is a cent |
| `PaperLedgers.MarkToMarket` | web/app.js:644-652 | for every mid price cash + position * mid = initial cash + realized + unrealized PnL |
| `PaperLedgers.EquityShownIff` | web/app.js:654-654 | the displayed equity is that sum if and only if the position is not short or the mid is zero |
| `PaperLedgers.FlattenSettles` | web/app.js:538-552 | when a flatten succeeds, and that it leaves cash = initial cash + realized PnL |
| `LatencyTrackers.LatencyTracker.PercentileNs` | include/feed_handler/latency_tracker.hpp:64-80 | sorts on the first call that finds samples, then interpolates the array as it stands; the samples end sorted if and only if the flag was clear or they were in order |
| `LatencyTrackers.LatencyTracker.Perform` | include/feed_handler/latency_tracker.hpp:25-80 | any history of records, queries and resets on a new tracker answers as the history functions say |
| `LatencyTrackers.LatencyTracker.MinNs` | include/feed_handler/latency_tracker.hpp:33-36 | the smallest sample, zero when empty |
| `LatencyTrackers.LatencyTracker.MaxNs` | include/feed_handler/latency_tracker.hpp:38-41 | the largest sample, zero when empty |
| `LatencyTrackers.PercentileMonotone` | include/feed_handler/latency_tracker.hpp:70-79 | percentiles grow with p and stay between the smallest and largest sample |
| `LatencyTrackers.PercentileIsLinear` | include/feed_handler/latency_tracker.hpp:73-79 | percentiles are the straight lines between neighbouring samples, spaced evenly from 0 to 100 |
| `LatencyTrackers.RightIffSorted` | include/feed_handler/latency_tracker.hpp:70-79 | interpolating an array as it stands gives every percentile of its samples if and only if it is sorted |
| `LatencyTrackers.AnswersTrueIff` | include/feed_handler/latency_tracker.hpp:25-79 | after any history every percentile is the true one of the samples since the last reset if and only if those recorded after the first query that found any came in ascending order and not below the earlier ones |
| `LatencyTrackers.HeldAfter` | include/feed_handler/latency_tracker.hpp:25-68 | the fields after any history: early samples sorted, late samples as they came, the flag set for good by the first query that found samples |
| `LatencyTrackers.PercentileEnds` | include/feed_handler/latency_tracker.hpp:64-79 | on such histories percentiles grow with p from the true minimum at p <= 0 to the true maximum at p >= 100 |
| `LatencyTrackers.StaleFlag` | include/feed_handler/latency_tracker.hpp:25-68 | record 2, query, record 1: the top percentile is then 1 although 2 was recorded |
| `LineParsers.Tokenize` | include/feed_handler/parser_validator.hpp:126-142 | the tokens are the maximal separator-free pieces of the line |
| `LineForms.TokensOfSpread` | include/feed_handler/parser_validator.hpp:126-142 | words without comma, space, tab, return or newline, laid out with any gaps of those five characters, come back as the tokens |
| `LineForms.AsCommaSeparated` | include/feed_handler/parser_validator.hpp:111-114 | any such layout of a line parses as the comma-separated one |
| `LineForms.OrderedSpreadSays` | include/feed_handler/parser_validator.hpp:146-149 | a leading ORDER or order, in any layout, changes nothing |
| `LineForms.SpacedAddIff` | include/feed_handler/parser_validator.hpp:112-112 | a space-separated add in ticks is read as meant if and only if its numbers fit |
| `LineForms.SpacedCancelIff` | include/feed_handler/parser_validator.hpp:113-113 | the space-separated cancels, with a quantity and without |
| `LineForms.SpacedExecuteIff` | include/feed_handler/parser_validator.hpp:114-114 | the space-separated execute |
| `LineForms.EitherCase` | include/feed_handler/parser_validator.hpp:152-174 | type and side letters count in either case, and nothing else stands for them |
| `LineForms.UnknownTypeRefused` | include/feed_handler/parser_validator.hpp:240-240 | a line of any other type is refused |
| `LineParsers.ParseUserLine` | include/feed_handler/parser_validator.hpp:121-240 | the running-index parser computes `ParseLine` |
| `LineParsers.AddShapesIff` | include/feed_handler/parser_validator.hpp:170-188 | an add line in any documented shape is read as meant if and only if the side is B or S, price and quantity are positive, and id and quantity fit |
| `LineParsers.CancelShapesIff` | include/feed_handler/parser_validator.hpp:189-209 | a cancel line with any number of dummy columns, with or without a quantity, is read as meant if and only if the numbers fit and any dummy taken for the quantity reads as it |
| `LineParsers.ExecuteShapesIff` | include/feed_handler/parser_validator.hpp:210-236 | an execute line with any number of dummy columns is read as meant if and only if the numbers fit, the quantity is positive and any dummies taken for price and quantity read as them |
| `LineParsers.AddRoundTripIff` | bridge.py:78-92 | over all inputs an add is printed and parses back to itself if and only if its side is B or S, its id positive and below 2^64, its quantity a positive int32 and its price rounds to a positive int32 of cents |
| `LineParsers.CancelRoundTripIff` | bridge.py:78-94 | over all inputs a cancel is printed and parses back to itself if and only if its id is positive and below 2^64 and its quantity an int32 |
| `LineParsers.ExecuteRoundTripIff` | bridge.py:78-96 | over all inputs an execute is printed and parses back to itself if and only if its id is positive and below 2^64, its price fits and its quantity is a positive int32 |
| `LineParsers.OnlyThreeTypes` | bridge.py:81-92 | only the three types are printed, only with positive ids, and adds only with positive price and quantity |
| `LineParsers.CsvTokens` | include/feed_handler/parser_validator.hpp:130-142 | columns joined by commas come back as the tokens |
| `LineParsers.TicksReadIff` | include/feed_handler/parser_validator.hpp:156-162 | a price without a point is read as its ticks if and only if they fit an int32 |
| `LineParsers.LoneDummyColumn` | include/feed_handler/parser_validator.hpp:189-200 | with one dummy column before it a cancel quantity is read as meant if and only if the dummy reads as that number; a side letter reads as zero |
| `Decimals.PriceRoundTrip` | bridge.py:92-92 | a price printed with two decimals reads back as its cents |
| `Decimals.TickPrice` | bridge.py:92-92 | a price of whole ticks is printed as itself |
| `Decimals.IntRoundTripIff` | include/feed_handler/parser_validator.hpp:175-175 | printing and reading an integer through the int32 cast is the identity exactly on int32 |
| `Decimals.IdRoundTripIff` | include/feed_handler/parser_validator.hpp:172-172 | an id survives exactly below 2^64 |
| `Decimals.SignedReads` | include/feed_handler/parser_validator.hpp:172-175 | an optional sign and the digits behind it are read, what follows is ignored, and the result saturates or wraps at 64 bits |
| `Decimals.NoDigitsReadZero` | include/feed_handler/parser_validator.hpp:172-175 | a text without digits at its head reads as zero |
| `LineForms.Numerals` | bridge.py:92-92 | numbers are printed in decimal, most significant digit first |
| `Decimals.DollarsRead` | include/feed_handler/parser_validator.hpp:156-162 | a decimal with any number of places is read as the nearest cent |
| `Decimals.RoundAwayIff` | include/feed_handler/parser_validator.hpp:159-159 | rounding goes to the nearest integer, from half-way away from zero |
| `Decimals.RoundHalfEvenIff` | bridge.py:92-92 | printing goes to the nearest cent, from half-way to the even one |
| `WireFormat.ValidateAndParse` | include/feed_handler/parser_validator.hpp:40-93 | each length error exactly when it applies; otherwise the decoded struct, valid if and only if `isValid` |
| `WireFormat.DecodeEncode` | include/feed_handler/protocol.hpp:15-51 | decoding the packed little-endian struct of a message gives the message back |
| `WireFormat.Layout` | include/feed_handler/protocol.hpp:15-51 | the offset, width, byte order and sign of every field of the three structs |

## Left out

- 32-bit overflow of prices and quantities: they are unbounded integers here; `ToInt32` models the cast only where text is parsed.
- OrderBooks.LimitOrderBook.BestBidPrice: spread, mid price, micro price and the printed snapshot are not modelled; they are one-line arithmetic on the two tops.
- OrderTables.OrderTable.Size: the contract alone states the count only up to the drift; after a run the drift is known exactly (`Pipelines.RunDirect`).
- BookTheorems.WatermarkExactness: says nothing about prices at or behind the watermark, where levels may have come back with partial totals; `NeverOverstates` still bounds those.
- RingBuffers.FifoInEveryInterleaving: C++ memory orders are modelled as atomic steps over sequentially consistent memory, plus cross-thread loads that may return any value published since the thread last looked; `tryEmplace` is the same code as `tryPush`, and the approximate `size()` is not modelled.
- Pipelines.ExitIsComplete: the relaxed load of the finished flag is a sequentially consistent load; only the load of the head may be stale.
- Arbitrators.ArbiterCompleteness: assumes sequence numbers below 2^64 - 1; `ArbiterSafety` covers the wrap. The feed label A or B is ignored by the source and does not appear.
- WalJournals.CrashRecovery: a crash falls between two records; torn records, asynchronous flushing and changes of file size between sessions are not modelled, and the file is an array of records rather than bytes.
- TokenBuckets.NeverRefusedIff: floating-point rounding is replaced by exact reals, and costs are taken to be non-negative.
- PaperLedgers.LedgerConserves: exact reals; trade sizes are positive, as the dashboard guarantees. Toasts, the tape and rendering are not modelled.
- LatencyTrackers.LatencyTracker.PercentileNs: exact reals, and `std::sort` is an insertion sort; mean and standard deviation are not modelled.
- LineParsers.AddRoundTripIff: prices are exact reals; `strtod` is modelled on plain decimals, without exponents, hexadecimal, infinities or NaN, and `llround` without its out-of-range case. Stripping and upper-casing of the printer's inputs happen before the model.
- WireFormat.ValidateAndParse: reads a fresh message; the bytes a shorter struct leaves untouched in a reused union are not modelled.
- The live stream server, the UDP receiver, the metrics exporter, the pcap replayer, mock generators, thread affinity and kernel bypass: input, output and foreign calls.
- The threading of the live stream server, which pushes into the queue from two threads and so is outside the queue's single-producer contract.
- Quant metrics of the dashboard other than mark-to-market: display arithmetic.
