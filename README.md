# MVCC store: transaction and version-chain engine in Dafny

This project models the core of a small single-node key-value store with
multi-version concurrency control (`mvcc_db.py`). Each record id maps to a
chain of versions, newest first. A version carries a timestamp, the number
of the transaction that wrote it, a payload and a tombstone flag.
Transactions read at a fixed snapshot. Writes put a new version at the head
of a chain. Commit validates the read set. Abort pops the written heads. The
garbage collector trims old tails.

The four module globals of the source are the four fields of the class
`Mvcc.Engine`:
- `versions` is a `map<string, seq<Version>>`;
- `transactions` is a `map<nat, Transaction>`, where transaction "tx{n}" is
  keyed by n;
- `txCounter` is the single clock;
- `currentTx` is the one current-transaction pointer.

Every operation that changes them is a method with a `modifies this`
clause. It states its whole new state in terms of the old one. Every one
except `Restore` preserves the engine invariant `Valid()`; `Restore`
preserves it when the imported versions are no later than the imported
clock, as in an image written by `backup` (`Backup.IncrementalIsBounded`).
The invariant says:
- the current pointer is empty or names a live transaction;
- every chain is non-increasing in timestamp;
- no version is later than the clock;
- transaction "tx{n}" has timestamp and snapshot n, with n at most the clock.

The pure parts are functions over the store, with lemmas stating their
properties:
- the snapshot scan of `read_version`;
- the read-set check of commit;
- the head-pop rollback;
- the tail trimming of `gc`;
- the backup filter;
- the sort-and-merge of `restore`.

Modules, one per component:
- `VersionStore` (`versions.dfy`): versions, chains and the snapshot read.
- `TxTable` (`transactions.dfy`): transaction records, commit validation
  and rollback.
- `Collector` (`gc.dfy`): the watermark and the tail trimming.
- `Backup` (`backup.dfy`): the incremental filter and the restore merge.
- `Mvcc` (`engine.dfy`): the engine class.
- `Scenarios` (`scenarios.dfy`): sequences of calls proved from the
  contracts alone.

The model follows the code as written:
- there is a single current-transaction pointer, and no transaction
  handles;
- `tx_write`, `tx_read` and `tx_delete` do not check that the transaction
  is still active;
- `tx_delete` has no conflict check;
- new versions take the clock value without advancing it;
- abort pops positional heads, whoever owns them.

One consequence, proved in `TxWrite`'s contract, is that the write-write
conflict test cannot fire while the current transaction's timestamp equals
the clock (`CurrentAtClock`). That holds from `tx_start` until `restore`
moves the clock. `Scenarios.ConflictAfterRestore` shows a conflict once
restore has imported a later head.

## Model

| member | source | states |
|---|---|---|
| `VersionStore.Visible` | mvcc_db.py:26-28 | the read of a chain at `ts` is the payload of the newest version not later than `ts` (None for a tombstone), and None when every version is later |
| `VersionStore.ReadVersion` | mvcc_db.py:24-28 | the read of a record at `ts` is the payload of the newest version of its chain not later than `ts` (None for a tombstone), and None for an unknown record or when every version is later |
| `VersionStore.VisibleAfterPush` | mvcc_db.py:40 | a new head changes the reads at or after its timestamp to its payload and leaves earlier reads alone |
| `VersionStore.ReadAtClockSeesHead` | mvcc_db.py:24-28 | on a valid store a read at or after the clock sees the chain head (None for an empty or missing chain) |
| `VersionStore.PushKeepsStoreValid` | mvcc_db.py:39-40 | a head stamped with the clock keeps every chain non-increasing and bounded by the clock |
| `TxTable.ValidateReads` | mvcc_db.py:14-15 | the commit validation succeeds exactly when no read record has a non-empty chain whose head is later than the transaction |
| `TxTable.PopHead` | mvcc_db.py:21 | definition: one rollback step drops the head of the record's chain when the record exists and its chain is non-empty, and changes nothing otherwise; its properties are stated by the two lemmas below |
| `TxTable.PopHeads` | mvcc_db.py:20-21 | definition: the store after the rollback loop, one head popped per logged write in log order; `Mvcc.Engine.RollBack` is proved equal to it |
| `TxTable.PopHeadKeepsStoreValid` | mvcc_db.py:21 | popping one head keeps the store invariant |
| `TxTable.PopHeadsShortensFromHead` | mvcc_db.py:20-21 | the rollback loop keeps every key, leaves each chain a suffix of what it was, and keeps the store invariant |
| `TxTable.SingleWriteRollback` | mvcc_db.py:17-23 | pushing one version onto a chain and rolling back that one write leaves every read of every record at every snapshot unchanged, also for a record that did not exist before |
| `Collector.OldestActiveSnapshot` | mvcc_db.py:54-56 | None exactly when no transaction is active; otherwise the minimum snapshot over the active transactions |
| `Collector.Trim` | mvcc_db.py:58 | the chain left by the `while` loop is never longer than the chain; `TrimCutsOldTail` states what it keeps and drops |
| `Collector.TrimAll` | mvcc_db.py:57-58 | the store after `gc` keeps every record, each chain trimmed at the watermark |
| `Collector.TrimTail` | mvcc_db.py:58 | the `while` loop on one chain returns exactly the trimmed chain |
| `Collector.TrimCutsOldTail` | mvcc_db.py:58 | the trimmed chain is a prefix; a non-empty chain keeps at least one version; every dropped version is older than the watermark; trimming stops at one version or at a tail that is not older |
| `Collector.TrimKeepsStoreValid` | mvcc_db.py:57-58 | trimming every chain keeps the store invariant |
| `Collector.TrimPreservesReadsFromWatermark` | mvcc_db.py:53-58 | a read whose visible version is not older than the watermark is unchanged by trimming |
| `Collector.TrimKeepsEmptyReads` | mvcc_db.py:53-58 | a read at a timestamp before every version of the chain sees nothing, before and after trimming |
| `Collector.TrimCanHideWatermarkRead` | mvcc_db.py:58 | for timestamps [5, 3, 2] and watermark 4 the read at 4 sees the ts-3 version before trimming and nothing after |
| `Backup.Newer` | mvcc_db.py:72 | the filtered chain is no longer than the chain and holds only versions later than the baseline |
| `Backup.NewerKeepsExactlyTheLater` | mvcc_db.py:72 | every version later than the baseline is kept as often as the chain holds it, and no other version is kept |
| `Backup.Incremental` | mvcc_db.py:72 | the backup image covers only known records and omits those whose filtered chain is empty |
| `Backup.NewerDistributes` | mvcc_db.py:72 | the filter keeps chain order: filtering a concatenation is concatenating the filtered parts |
| `Backup.DescendingSplits` | mvcc_db.py:72 | on a non-increasing chain the filtered versions are a prefix and the versions not later than the baseline are the rest |
| `Backup.AllAtOrBefore` | mvcc_db.py:72 | a chain with no version later than the baseline contributes nothing to the backup |
| `Backup.IncrementalTakesNewestPrefix` | mvcc_db.py:72 | on a valid store a record is in the backup exactly when its head is later than the baseline, and then it carries the prefix of its chain later than the baseline |
| `Backup.IncrementalIsBounded` | mvcc_db.py:72 | every chain of the backup image of a valid store is bounded by the clock the image records, which is what `Restore` needs to keep the engine invariant |
| `Backup.InsertIsSortedInsertion` | mvcc_db.py:77 | one insertion step adds exactly the new version and keeps a non-increasing chain non-increasing |
| `Backup.InsertAddsOne` | mvcc_db.py:77 | one insertion step adds exactly the new version, and either the new version or the old head becomes the head |
| `Backup.InsertKeepsDescending` | mvcc_db.py:77 | one insertion step keeps a non-increasing chain non-increasing |
| `Backup.SortIsSortedPermutation` | mvcc_db.py:77 | the restore sort yields a non-increasing permutation of its input |
| `Backup.SortKeepsDescending` | mvcc_db.py:77 | the sort leaves an already non-increasing chain unchanged |
| `Backup.SortDescending` | mvcc_db.py:77 | definition: the sort by descending timestamp, as insertion of each version into the sorted rest; it keeps the length, and the lemmas around it state order, permutation and stability |
| `Backup.InsertStable` | mvcc_db.py:77 | one insertion step puts the new version in front of the versions of its own timestamp and keeps the order among every other timestamp's versions |
| `Backup.SortStable` | mvcc_db.py:77 | the sort is stable, as Python's `sort` is: for every timestamp, the versions of that timestamp keep their relative order |
| `Backup.MergeSortsEachImportedChain` | mvcc_db.py:77 | each imported record's chain becomes its old chain plus the imported versions as a multiset, sorted non-increasing; other records are untouched |
| `Backup.Merge` | mvcc_db.py:77 | the store after the merge of `restore` holds exactly the old and the imported records; `MergeSortsEachImportedChain` states each chain |
| `Backup.MergeKeepsStoreValid` | mvcc_db.py:77 | when imported versions are bounded by the imported clock, the merged store is valid under the larger clock |
| `Backup.InsertBehind` | mvcc_db.py:77 | a version inserted into a run of strictly later versions followed by a not-later rest lands right after the run |
| `Backup.SortOlderThenNewer` | mvcc_db.py:77 | sorting a non-increasing older part followed by a non-increasing newer part puts the newer part in front, both kept in order |
| `Backup.ChainRoundTrip` | mvcc_db.py:72-77 | per chain, sorting the part not later than the baseline followed by the backed-up part gives back the chain |
| `Backup.RestoreUndoesIncrementalBackup` | mvcc_db.py:71-77 | restoring the backup taken at a baseline onto the store with every chain cut to its versions not later than the baseline (`AsOf`) gives back the store; once `gc` or an abort has changed chains, that cut is not the store as it was at the baseline |
| `Mvcc.Engine.constructor` | mvcc_db.py:5-7 | a new engine is empty, with clock 0 and no current transaction, and valid |
| `Mvcc.Engine.TxStart` | mvcc_db.py:8-10 | the clock advances by one; a fresh active transaction with timestamp and snapshot equal to the new clock and empty logs is added and becomes current |
| `Mvcc.Engine.TxCommit` | mvcc_db.py:11-16 | an unknown or non-active transaction fails with nothing changed; a stale read fails and leaves it active; otherwise only its state becomes committed |
| `Mvcc.Engine.TxAbort` | mvcc_db.py:17-23 | an unknown id fails with nothing changed; otherwise the store is the rollback of its write log, the transaction is removed, and the pointer is cleared only if it named it |
| `Mvcc.Engine.RollBack` | mvcc_db.py:20-21 | the rollback loop leaves the store equal to `PopHeads` of the log, and only the chains change |
| `Mvcc.Engine.TxRead` | mvcc_db.py:29-32 | without a current transaction it returns None and changes nothing; otherwise it appends the key to the read log and returns the read at the snapshot |
| `Mvcc.Engine.TxWrite` | mvcc_db.py:33-41 | no current transaction: fails, nothing changes; conflicting head: the transaction is rolled back and removed and the pointer cleared; otherwise a clock-stamped head is added and the write logged, after which reads at or after the clock see the data; never conflicts while the current transaction started at the clock |
| `Mvcc.Conflicts` | mvcc_db.py:38 | definition of the conflict test: the record's chain is non-empty and its head is later than the writer and written by another transaction |
| `Mvcc.ConflictNeedsOlderWriter` | mvcc_db.py:38 | on a valid store a conflict needs a writer older than the clock, so a transaction started at the clock never conflicts |
| `Mvcc.Engine.TxDelete` | mvcc_db.py:42-48 | fails with nothing changed when there is no current transaction or nothing visible at its snapshot; otherwise adds a clock-stamped tombstone carrying the visible data and logs it, after which reads at or after the clock see nothing |
| `Mvcc.Engine.Finish` | mvcc_db.py:49 | with a current transaction, commits it when the operation succeeded and aborts it when it failed; otherwise nothing |
| `Mvcc.Engine.Create` | mvcc_db.py:49 | on a valid engine always succeeds: one new committed transaction whose version of the data heads the chain |
| `Mvcc.Engine.Read` | mvcc_db.py:50 | returns the payload of the newest version and leaves a committed one-read transaction, the chains unchanged |
| `Mvcc.Engine.Update` | mvcc_db.py:51 | on a valid engine always succeeds, with the same effect as create |
| `Mvcc.Engine.Delete` | mvcc_db.py:52 | succeeds exactly when the newest version exists and is not a tombstone, then commits a tombstone; otherwise aborts, leaving chains and table unchanged, the clock advanced and no current transaction |
| `Mvcc.Engine.Gc` | mvcc_db.py:53-58 | a no-op when nothing is active; otherwise an oldest active snapshot exists and every chain is trimmed at it; table, clock and pointer unchanged; invariant kept |
| `Mvcc.Engine.TrimChains` | mvcc_db.py:57-58 | the loop over the records leaves every chain trimmed at the watermark, and only the chains change |
| `Mvcc.Engine.Restore` | mvcc_db.py:75-77 | the store becomes the merge of the old and imported chains; the clock becomes the larger of the two and never decreases; the invariant holds when imported versions are bounded by the imported clock |
| `Mvcc.Engine.MergeChains` | mvcc_db.py:77 | the loop over the imported records leaves the store equal to the merge, and only the chains change |
| `Scenarios.WriteThenAbort` | mvcc_db.py:17-23 | start, one write and abort leave every read of every record at every snapshot and the table as they were |
| `Scenarios.StaleReadBlocksCommit` | mvcc_db.py:11-16 | a transaction that read a record is refused at commit after a later create of that record, and stays active |
| `Scenarios.SnapshotSurvivesLaterUpdate` | mvcc_db.py:29-32 | after create(k, a), a new transaction reads a; a later update(k, b) leaves a visible at that snapshot while b is the newest |
| `Scenarios.ConflictAfterRestore` | mvcc_db.py:33-41 | after restore imports a head later than the current transaction, its write fails, the transaction is removed from the table and the current pointer is cleared |

## Left out

- `Mvcc.Engine.Restore`: an imported image is taken to be one written by `backup`, whose versions are no later than the clock it records. Only then is `Valid()` promised afterwards, and every other engine method requires `Valid()`. After an import with a version later than its recorded clock the source keeps running (a later `create` can then fail through the conflict test), and the model does not follow it there.
- `save`, `load` and the call to `load` in `init_db` (mvcc_db.py:5-7, 59-66). They are file I/O and `eval` of the file contents.
- In `backup` and `restore` (mvcc_db.py:71-78): the file writing and reading, the `eval` and `int` parsing, and the `try/except` that reports failure. Only the in-memory filter and merge are modelled. The parsed baseline in `restore` is unused by the source.
- `show_version_chain`, `read_at`'s string parsing, `main` and its command loop, including the transaction listing (mvcc_db.py:67-70, 79-99). They are console I/O and parsing. `read_at` itself is `ReadVersion`.
- Transaction ids are the strings "tx{n}". The model keys them by n. An id string not of that form is simply absent from the table, as in the source.
- A write-log entry is the pair (record id, 0). The model keeps the record id only, since the second component is always 0.
- Payloads are strings, as the command front end supplies them.
- Concurrency: the source is single-threaded and has no locks.

## Code versus intended design

- Chains are kept non-increasing, not strictly decreasing, in timestamp. Two writes by one transaction get the same clock value.
- `gc` does not keep the version visible at the oldest active snapshot. It drops every tail version older than the watermark, including the one that snapshot reads. `Collector.TrimCanHideWatermarkRead` gives the input. `Collector.TrimPreservesReadsFromWatermark` states what the loop does keep.
- Abort pops positional heads and does not check which transaction owns them.
- The stored states are only active and committed. An aborted transaction is removed from the table.
