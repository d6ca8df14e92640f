/** The transaction table: transaction records, the read-set validation of
    `tx_commit` and the head-pop rollback of `tx_abort`. */
module TxTable {
  import opened VersionStore

  /** Only these two states are ever stored: an aborted transaction is
      removed from the table. */
  datatype TxState = Active | Committed

  /** A transaction record. `writeLog` keeps one record id per write, in
      issue order (the source stores the pair (record id, 0)); `readLog` keeps
      every read, duplicates included. */
  datatype Transaction = Transaction(
    timestamp: int, snapshotTs: int, state: TxState,
    writeLog: seq<string>, readLog: seq<string>)

  type Table = map<nat, Transaction>

  /** The table half of the engine invariant: transaction "tx{n}" was
      started when the clock moved to n, and took n as its timestamp and its
      snapshot. */
  predicate TableValid(txs: Table, clock: int)
  {
    forall n :: n in txs ==> 1 <= n <= clock && txs[n].timestamp == n && txs[n].snapshotTs == n
  }

  /** The head of `k`'s chain is later than `ts`. */
  predicate HeadNewerThan(store: Store, k: string, ts: int)
  {
    k in store && |store[k]| > 0 && store[k][0].timestamp > ts
  }

  /** The commit-time validation succeeds: no record the transaction read
      has a head newer than the transaction's timestamp. */
  predicate ReadsValid(store: Store, tx: Transaction)
  {
    forall i :: 0 <= i < |tx.readLog| ==> !HeadNewerThan(store, tx.readLog[i], tx.timestamp)
  }

  /** The validation loop of `tx_commit`, stopping at the first stale read. */
  method ValidateReads(store: Store, readLog: seq<string>, ts: int) returns (ok: bool)
    ensures ok <==> forall i :: 0 <= i < |readLog| ==> !HeadNewerThan(store, readLog[i], ts)
  {
    for i := 0 to |readLog|
      invariant forall j :: 0 <= j < i ==> !HeadNewerThan(store, readLog[j], ts)
    {
      if HeadNewerThan(store, readLog[i], ts) {
        return false;
      }
    }
    return true;
  }

  /** One rollback step: drop the head of `k`'s chain when there is one. */
  function PopHead(store: Store, k: string): (r: Store)
  {
    if k in store && store[k] != [] then store[k := store[k][1..]] else store
  }

  /** The store after the rollback loop of `tx_abort` over `writeLog`. */
  function PopHeads(store: Store, writeLog: seq<string>): (r: Store)
  {
    if writeLog == [] then store
    else PopHead(PopHeads(store, writeLog[..|writeLog| - 1]), writeLog[|writeLog| - 1])
  }

  lemma PopHeadKeepsStoreValid(store: Store, clock: int, k: string)
    requires StoreValid(store, clock)
    ensures StoreValid(PopHead(store, k), clock)
  {
    if k in store && store[k] != [] {
      var c := store[k];
      assert Descending(c) && Bounded(c, clock);
      assert forall j :: 0 <= j < |c| - 1 ==> c[1..][j] == c[j + 1];
    }
  }

  /** Rollback keeps every key and only shortens chains from the head: each
      chain afterwards is a suffix of what it was, and the store stays valid. */
  lemma {:induction false} PopHeadsShortensFromHead(store: Store, clock: int, writeLog: seq<string>)
    requires StoreValid(store, clock)
    ensures PopHeads(store, writeLog).Keys == store.Keys
    ensures StoreValid(PopHeads(store, writeLog), clock)
    ensures forall k :: k in store ==>
      var c := PopHeads(store, writeLog)[k]; |c| <= |store[k]| && c == store[k][|store[k]| - |c|..]
  {
    if writeLog != [] {
      var prev := writeLog[..|writeLog| - 1];
      PopHeadsShortensFromHead(store, clock, prev);
      PopHeadKeepsStoreValid(PopHeads(store, prev), clock, writeLog[|writeLog| - 1]);
    }
  }

  /** Rollback of a single write: a transaction whose only action was one
      write to `k` leaves, once aborted, every read at every snapshot as it
      was before the write. */
  lemma SingleWriteRollback(store: Store, k: string, v: Version, j: string, ts: int)
    ensures ReadVersion(PopHeads(store[k := [v] + Chain(store, k)], [k]), j, ts) == ReadVersion(store, j, ts)
  {
    var pushed := store[k := [v] + Chain(store, k)];
    assert [k][..0] == [];
    assert PopHeads(pushed, [k]) == PopHead(pushed, k);
    assert ([v] + Chain(store, k))[1..] == Chain(store, k);
  }
}
