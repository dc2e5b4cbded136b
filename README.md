# ChimeraCleaner, modelled in Dafny

This project models the dCache **ChimeraCleaner** cell. The cell reads the
trash table `t_locationinfo_trash`. Each row of that table is one location of
a deleted file that is still stored somewhere: on a pool disk (itype=1), on
tape (itype=0), or still owed a delete notification (itype=2). The cell
removes those copies and then the rows.

The model covers:

- **the disk sweep.** `getPoolList` and the black-list reaping loop of
  `run` feed `runDelete`, which runs `cleanPoolComplete` on every pool
  not on the black list. That streams the pool's ids in `iatime` order in
  batches of `_processAtOnce`. `sendRemoveToPoolCleaner` then reconciles
  each pool reply: return code 0 deletes the whole batch; code 1 with a
  `String[]` deletes the batch minus that list; any other reply lists the
  pool on the black list at the current time.
- **the black list.** Reaping uses a recover timer in any `TimeUnit`.
  `messageArrived(PoolManagerPoolUpMessage)` removes a pool that is enabled
  and adds one that is disabled with `putIfAbsent`. "remove from
  blacklist" removes an entry.
- **the tape sweep.** `runDeleteHSM` submits every itype=0 location and
  stops at the first location that is not a URI. `onSuccess` and
  `onFailure` are the tracker's callbacks.
- **the notification sweep.** `runNotification` picks the ids with an
  itype=2 row and no other row. `sendDeleteNotifications` notifies every
  target in order, stops at the first failure, and deletes the itype=2 rows
  only when every target acknowledged.
- **the admin commands.** "rundelete", "rundelete hsm", "clean pool",
  "set refresh", "set processedAtOnce" and "hsm set MaxFilesPerRequest".

The cell is the class `Cleaner.ChimeraCleaner`, whose methods update its
fields in place. It holds the trash table as a set of rows, the black list
as a map from pool to the time it was listed, the settings, and the
sequence of URIs handed to the request tracker. Every method that changes
state states its whole new state in every outcome. The admin setters do it
directly; the other methods tie the new state to a pure function of the old
one, with the database answers and the messages sent as further results:

- `PoolCleaning.Reconcile` for one reply;
- `PoolCleaning.SendBatches` for one pool;
- `PoolCleaning.RunDeleteSpec` for a run over several pools;
- `DeleteNotification.NotifyAll` for the notifications;
- `PoolBlackList.Reaped` and `PoolBlackList.OnPoolUp` for the black list;
- `TapeCleaning.DeleteTapeLocation` for a tape success callback.

Lemmas prove what those functions guarantee.

The outside world comes in as parameters:

- the pools' replies: `replies(pool, k)` is the reply to the k-th batch sent
  to that pool;
- the targets' acknowledgements: `acks(i, j)` is the answer of target j
  about the i-th candidate;
- URI parsing: `uriValid`;
- the clock: `now`, in milliseconds.

The database answers queries through `TrashTable.Select` and
`TrashTable.SelectByAtime`. Each may return the selected rows in any order
the query allows. With `ORDER BY iatime`, rows of equal `iatime` may come
in any order.

Where the code and its description disagree, the model follows the code:

- A failed batch overwrites the pool's black-list time with `put`; it does
  not keep the first failure time.
- A failed batch does not stop the later batches of the same pool. They are
  still sent, and a later success deletes its rows.
- A tape location that is not a URI raises
  `DataIntegrityViolationException`. That ends the whole run, so the
  notification phase does not run either.
- A negative `_processAtOnce` makes `new ArrayList<>(n)` throw. That ends
  the run as a bug before any pool is contacted.
- A `_processAtOnce` of 0 sends one id per batch.
- "set refresh" accepts 5, although its message says "greater than 5".
- "hsm set MaxFilesPerRequest" refuses only 0, so negative values are
  accepted.
- The notification query has no `DISTINCT`. An id with several itype=2
  rows is notified once per row.

## Model

| member | source | states |
|---|---|---|
| Sequences.Without | modules/dcache-chimera/src/main/java/org/dcache/chimera/namespace/ChimeraCleaner.java:440-444 | the result holds exactly the elements of the list that are not in the set, no longer than the list, and stays duplicate-free (`removed.removeAll(notRemoved)`) |
| TrashTable.Select | modules/dcache-chimera/src/main/java/org/dcache/chimera/namespace/ChimeraCleaner.java:361-365 | a query without ORDER BY returns each selected value once and nothing else, in some order |
| TrashTable.EarliestExists | modules/dcache-chimera/src/main/java/org/dcache/chimera/namespace/ChimeraCleaner.java:517 | every non-empty set of rows has a row of least iatime, so ORDER BY iatime can always produce its next row |
| TrashTable.SelectByAtime | modules/dcache-chimera/src/main/java/org/dcache/chimera/namespace/ChimeraCleaner.java:517 | ORDER BY iatime returns each selected row once, earliest first |
| Batching.BatchLimit | modules/dcache-chimera/src/main/java/org/dcache/chimera/namespace/ChimeraCleaner.java:516-521 | the batch size is `_processAtOnce` when positive, and 1 otherwise: with 0, `files.size() >= 0` flushes after every id |
| Batching.Batches | modules/dcache-chimera/src/main/java/org/dcache/chimera/namespace/ChimeraCleaner.java:516-524 | no batches exactly when there are no ids; every batch is non-empty and holds at most the limit |
| Batching.BatchesFlatten | modules/dcache-chimera/src/main/java/org/dcache/chimera/namespace/ChimeraCleaner.java:516-524 | the batches, concatenated, are the ids in query order, with nothing lost or repeated |
| Batching.BatchesFull | modules/dcache-chimera/src/main/java/org/dcache/chimera/namespace/ChimeraCleaner.java:521 | every batch but the last is full; only `rs.isLast()` flushes a short one |
| Batching.BatchesOfFull | modules/dcache-chimera/src/main/java/org/dcache/chimera/namespace/ChimeraCleaner.java:518-524 | full batches followed by a short last one are exactly the batches of the streamed ids (the flush rule of the row callback) |
| Batching.FlattenAppend | modules/dcache-chimera/src/main/java/org/dcache/chimera/namespace/ChimeraCleaner.java:522-523 | flushing a batch appends its ids to those already sent |
| PoolBlackList.Reaped | modules/dcache-chimera/src/main/java/org/dcache/chimera/namespace/ChimeraCleaner.java:316-329 | reaping only removes entries and never alters a kept entry's time |
| PoolBlackList.NoRecoveryWithoutTimer | modules/dcache-chimera/src/main/java/org/dcache/chimera/namespace/ChimeraCleaner.java:321-322 | with `_recoverTimer <= 0` no pool leaves the black list by reaping |
| PoolBlackList.ZeroStampStays | modules/dcache-chimera/src/main/java/org/dcache/chimera/namespace/ChimeraCleaner.java:321 | an entry whose time is 0 is never reaped |
| PoolBlackList.ReapedExactly | modules/dcache-chimera/src/main/java/org/dcache/chimera/namespace/ChimeraCleaner.java:321-326 | an entry is reaped iff its time is non-zero, the recover timer is positive, and more than the timer (converted to ms) has passed |
| PoolBlackList.ReapedIdempotent | modules/dcache-chimera/src/main/java/org/dcache/chimera/namespace/ChimeraCleaner.java:316-329 | a second reaping at the same time removes nothing more |
| PoolBlackList.DisabledIsSticky | modules/dcache-chimera/src/main/java/org/dcache/chimera/namespace/ChimeraCleaner.java:473-475 | a pool disabled twice keeps its first time, so recovery counts from the first listing |
| PoolBlackList.FailureOverwrites | modules/dcache-chimera/src/main/java/org/dcache/chimera/namespace/ChimeraCleaner.java:448-451 | a pool that fails twice carries the second time, so recovery counts from the latest failure |
| PoolBlackList.PoolUpEffect | modules/dcache-chimera/src/main/java/org/dcache/chimera/namespace/ChimeraCleaner.java:459-476 | enabled removes the pool; disabled adds it at `now` only when absent; other pools keep their entries |
| PoolCleaning.Confirmed | modules/dcache-chimera/src/main/java/org/dcache/chimera/namespace/ChimeraCleaner.java:437-447 | the ids deleted after a reply are a subset of the batch, and none when the reply fails |
| PoolCleaning.ReplyEffect | modules/dcache-chimera/src/main/java/org/dcache/chimera/namespace/ChimeraCleaner.java:427-452 | return code 0 deletes exactly the batch's (pool, id, itype=1) rows; code 1 with a String[] deletes the batch minus the list; any other reply or a send failure deletes nothing and lists the pool at `now`, leaving other entries alone |
| PoolCleaning.SendBatchesEffect | modules/dcache-chimera/src/main/java/org/dcache/chimera/namespace/ChimeraCleaner.java:512-530 | over a pool's batches, rows of other pools and itypes stay; a row of the pool goes iff some batch's reply confirmed its id; the pool is listed at `now` iff some reply failed, even if a later one succeeded |
| PoolCleaning.SendBatchesElsewhere | modules/dcache-chimera/src/main/java/org/dcache/chimera/namespace/ChimeraCleaner.java:427-452 | cleaning one pool leaves every other pool's rows and black-list entry as they were |
| PoolCleaning.SendBatchesCongruent | modules/dcache-chimera/src/main/java/org/dcache/chimera/namespace/ChimeraCleaner.java:512-530 | what cleaning does to a pool depends only on that pool's rows and black-list entry |
| PoolCleaning.RunDeleteElsewhere | modules/dcache-chimera/src/main/java/org/dcache/chimera/namespace/ChimeraCleaner.java:403-416 | runDelete leaves every pool that is not in its list as it was |
| PoolCleaning.RunDeleteAt | modules/dcache-chimera/src/main/java/org/dcache/chimera/namespace/ChimeraCleaner.java:403-416 | each pool of the list ends as if cleaned alone from the initial state; a pool listed at the start gets no request and keeps its rows |
| PoolCleaning.RunDeleteKeepsNonDisk | modules/dcache-chimera/src/main/java/org/dcache/chimera/namespace/ChimeraCleaner.java:403-416 | runDelete only deletes rows, and only itype=1 rows |
| DeleteNotification.FirstNack | modules/dcache-chimera/src/main/java/org/dcache/chimera/namespace/ChimeraCleaner.java:495-501 | the first target that does not acknowledge, with every earlier target acknowledging |
| DeleteNotification.Contacted | modules/dcache-chimera/src/main/java/org/dcache/chimera/namespace/ChimeraCleaner.java:493-504 | messages go to the targets in configured order, up to and including the first failure; all targets acknowledge iff every message was sent and acknowledged |
| DeleteNotification.CandidateIds | modules/dcache-chimera/src/main/java/org/dcache/chimera/namespace/ChimeraCleaner.java:480-482 | an id is a candidate iff it has an itype=2 row and no row of any other itype |
| DeleteNotification.NotifyAllEffect | modules/dcache-chimera/src/main/java/org/dcache/chimera/namespace/ChimeraCleaner.java:478-504 | a row is deleted iff it is an itype=2 row of a candidate all of whose targets acknowledged; a failure keeps only that candidate's rows; other itypes never change |
| DeleteNotification.EveryCandidateTried | modules/dcache-chimera/src/main/java/org/dcache/chimera/namespace/ChimeraCleaner.java:483-489 | a failed candidate does not stop the loop: every candidate is offered to the first target |
| TapeCleaning.FirstInvalid | modules/dcache-chimera/src/main/java/org/dcache/chimera/namespace/ChimeraCleaner.java:538-545 | the first selected location that is not a URI, with every earlier one valid |
| TapeCleaning.DeleteTapeLocation | modules/dcache-chimera/src/main/java/org/dcache/chimera/namespace/ChimeraCleaner.java:742-750 | onSuccess deletes every itype=0 row at that URI and nothing else |
| TapeCleaning.OnSuccessIdempotent | modules/dcache-chimera/src/main/java/org/dcache/chimera/namespace/ChimeraCleaner.java:742-750 | a repeated success callback for the same URI changes nothing more |
| TapeCleaning.HsmVerdict | modules/dcache-chimera/src/main/java/org/dcache/chimera/namespace/ChimeraCleaner.java:535-547 | the tape sweep stops early iff some itype=0 location is not a URI |
| Cleaner.ChimeraCleaner.constructor | modules/dcache-chimera/src/main/java/org/dcache/chimera/namespace/ChimeraCleaner.java:192-246 | the cell starts with the given table and settings, an empty black list and nothing submitted |
| Cleaner.ChimeraCleaner.GetPoolList | modules/dcache-chimera/src/main/java/org/dcache/chimera/namespace/ChimeraCleaner.java:361-365 | the distinct pools that hold itype=1 rows, each once |
| Cleaner.ChimeraCleaner.RemoveFiles | modules/dcache-chimera/src/main/java/org/dcache/chimera/namespace/ChimeraCleaner.java:375-394 | deletes exactly the (pool, id, itype=1) rows for the ids of the list |
| Cleaner.ChimeraCleaner.SendRemoveToPoolCleaner | modules/dcache-chimera/src/main/java/org/dcache/chimera/namespace/ChimeraCleaner.java:427-452 | the table and black list become what `Reconcile` gives for the reply |
| Cleaner.ChimeraCleaner.CleanPoolComplete | modules/dcache-chimera/src/main/java/org/dcache/chimera/namespace/ChimeraCleaner.java:512-530 | a negative batch size fails before any change; otherwise the pool's itype=1 rows in iatime order are cut by `Batches` and the state becomes `SendBatches` of them |
| Cleaner.ChimeraCleaner.RunDelete | modules/dcache-chimera/src/main/java/org/dcache/chimera/namespace/ChimeraCleaner.java:403-416 | pools listed when their turn comes are skipped; the others are cleaned from their iatime-ordered rows and the state becomes `RunDeleteSpec`; a negative batch size on any pool that is cleaned leaves the state unchanged |
| Cleaner.ChimeraCleaner.ReapBlackList | modules/dcache-chimera/src/main/java/org/dcache/chimera/namespace/ChimeraCleaner.java:316-329 | the black list becomes `Reaped` of the old one |
| Cleaner.ChimeraCleaner.SweepPools | modules/dcache-chimera/src/main/java/org/dcache/chimera/namespace/ChimeraCleaner.java:303-338 | the swept pools are those with itype=1 rows minus the reaped black list; each is cleaned from its iatime-ordered rows and its replies, and the state becomes `RunDeleteSpec` from the old table and the reaped list; unswept pools stay as they were; only itype=1 rows go; a negative batch size leaves only the reaping |
| Cleaner.ChimeraCleaner.Run | modules/dcache-chimera/src/main/java/org/dcache/chimera/namespace/ChimeraCleaner.java:293-354 | the disk phase leaves `RunDeleteSpec` of the swept pools; a negative batch size with pools to sweep is a bug that leaves only the reaping; with the HSM cleaner on, the tape locations are submitted in query order up to the first invalid one, which ends the run as a database failure; otherwise the candidates are notified, giving `NotifyAll` and `SentAll`; tape rows never change during a sweep |
| Cleaner.ChimeraCleaner.SendDeleteNotifications | modules/dcache-chimera/src/main/java/org/dcache/chimera/namespace/ChimeraCleaner.java:493-504 | sends `Contacted`; the itype=2 rows of the id go iff every target acknowledged |
| Cleaner.ChimeraCleaner.RunNotification | modules/dcache-chimera/src/main/java/org/dcache/chimera/namespace/ChimeraCleaner.java:478-491 | the candidates are the query's rows, each notified in turn; the table becomes `NotifyAll` and the messages are `SentAll` |
| Cleaner.ChimeraCleaner.RunDeleteHsm | modules/dcache-chimera/src/main/java/org/dcache/chimera/namespace/ChimeraCleaner.java:535-547 | submits the locations in query order up to the first invalid one; fails iff there is one |
| Cleaner.ChimeraCleaner.OnSuccess | modules/dcache-chimera/src/main/java/org/dcache/chimera/namespace/ChimeraCleaner.java:742-750 | the table becomes `DeleteTapeLocation` of the URI |
| Cleaner.ChimeraCleaner.OnFailure | modules/dcache-chimera/src/main/java/org/dcache/chimera/namespace/ChimeraCleaner.java:755-758 | nothing changes: the entry is retried on the next sweep |
| Cleaner.ChimeraCleaner.PoolUp | modules/dcache-chimera/src/main/java/org/dcache/chimera/namespace/ChimeraCleaner.java:459-476 | the black list becomes `OnPoolUp` of the message |
| Cleaner.ChimeraCleaner.RunDeleteCommand | modules/dcache-chimera/src/main/java/org/dcache/chimera/namespace/ChimeraCleaner.java:551-556 | "rundelete" runs runDelete over the distinct itype=1 pools, without reaping: the state becomes `RunDeleteSpec` of the pools and their iatime-ordered rows; pools listed when their turn comes are skipped; a negative batch size with a pool to clean leaves the state unchanged |
| Cleaner.ChimeraCleaner.CleanPool | modules/dcache-chimera/src/main/java/org/dcache/chimera/namespace/ChimeraCleaner.java:619-627 | a listed pool is refused and nothing changes; a negative batch size throws before any change; otherwise the pool's itype=1 rows in iatime order are cut by `Batches` and the state becomes `SendBatches` of them |
| Cleaner.ChimeraCleaner.RunDeleteHsmCommand | modules/dcache-chimera/src/main/java/org/dcache/chimera/namespace/ChimeraCleaner.java:672-680 | refused when the HSM cleaner is off; otherwise the tape locations are submitted in query order up to the first invalid one, and the command ends with the invalid-URI exception iff there is one, else with an empty reply |
| Cleaner.ChimeraCleaner.RemoveFromBlacklist | modules/dcache-chimera/src/main/java/org/dcache/chimera/namespace/ChimeraCleaner.java:590-597 | removes the pool and reports whether it was listed |
| Cleaner.ChimeraCleaner.SetRefresh | modules/dcache-chimera/src/main/java/org/dcache/chimera/namespace/ChimeraCleaner.java:632-653 | with an argument under 5, refuses and keeps the interval; with 5 or more, sets the interval in seconds; with none, reports the current interval |
| Cleaner.ChimeraCleaner.SetProcessedAtOnce | modules/dcache-chimera/src/main/java/org/dcache/chimera/namespace/ChimeraCleaner.java:656-667 | refuses a value of 0 or less, else sets it |
| Cleaner.ChimeraCleaner.HsmSetMaxFilesPerRequest | modules/dcache-chimera/src/main/java/org/dcache/chimera/namespace/ChimeraCleaner.java:706-721 | refused when the HSM cleaner is off; refuses only 0; else sets the value |

## Left out

- Database access (JDBC, the Hikari pool, `dbInit`) is not modelled. The table is a set of rows, and the queries are `Select` and `SelectByAtime`.
- A `DataAccessException` other than the invalid tape URI is not modelled: connection loss, a failed update, and the one `onSuccess` catches.
- Cell messaging, the broadcast registration, `init` and `cleanUp` are not modelled. Pool replies and notification acknowledgements are parameters.
- Scheduling is not modelled: the fixed-delay task, its rescheduling by "set refresh", and thread interruption (`InterruptedException`, `TransientDataAccessResourceException`). A run is one call.
- Concurrency is not modelled: the black list is a `ConcurrentHashMap` that pool up/down messages may change in the middle of a sweep. Here those messages arrive between calls.
- The request tracker is not modelled beyond the sequence of submitted URIs: its admission limit, timeouts and its own calls to onSuccess/onFailure. `_hsmCleanerRequest` is stored but not propagated to it, as in the command.
- Splitting `_reportTo` into notification targets is not modelled. The targets are a given sequence.
- Parsing of `PnfsId`, `CellPath` and `URI` is not modelled. URI validity is the `uriValid` parameter, and `PnfsId` parsing failures do not occur.
- Number parsing of admin arguments is not modelled (`NumberFormatException`). Arguments arrive as integers.
- "ls blacklist", "show info", logging and the `messageArrived(NoRouteToCellException)` log handler are not modelled.
- "clean file", "clean file hsm" and "hsm set TimeOut" are not modelled. They are outside the modelled core.
- `System.currentTimeMillis()` is read once per call, as `now`. The source reads the clock at every check and every failure.
- `PoolBlackList.ToMillis`: the saturation of `TimeUnit.toMillis` at `Long.MAX_VALUE`, and 64-bit overflow of `now - valueTime`, are not modelled. Integers are unbounded.
