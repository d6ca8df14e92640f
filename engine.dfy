/** The engine: the four globals of the store (`versions`, `transactions`,
    `tx_counter`, `current_tx`) as the fields of one object, and the
    operations that update them in place. */
module Mvcc {
  import opened VersionStore
  import opened TxTable
  import opened Collector
  import opened Backup

  class Engine {
    var versions: Store
    var transactions: Table
    var txCounter: nat
    var currentTx: Option<nat>

    /** The engine invariant: the current pointer names a live
        transaction, every chain is newest first, and no version or
        transaction is later than the clock. */
    ghost predicate Valid()
      reads this
    {
      && (currentTx.Some? ==> currentTx.value in transactions)
      && StoreValid(versions, txCounter)
      && TableValid(transactions, txCounter)
    }

    /** The current transaction started at the present clock value. This
        holds from `tx_start` on until `restore` moves the clock. */
    ghost predicate CurrentAtClock()
      reads this
    {
      currentTx.Some? && currentTx.value in transactions
      && transactions[currentTx.value].timestamp == txCounter
    }

    /** `init_db` without loading a saved file. */
    constructor ()
      ensures Valid()
      ensures versions == map[] && transactions == map[] && txCounter == 0 && currentTx == None
    {
      versions, transactions, txCounter, currentTx := map[], map[], 0, None;
    }

    /** `tx_start`: advance the clock and open transaction "tx{n}" with
        timestamp and snapshot n; it becomes the current one. */
    method TxStart() returns (id: nat)
      requires Valid()
      modifies this
      ensures Valid() && CurrentAtClock()
      ensures id == old(txCounter) + 1 && txCounter == id && id !in old(transactions)
      ensures transactions == old(transactions)[id := Transaction(id, id, Active, [], [])]
      ensures versions == old(versions) && currentTx == Some(id)
    {
      txCounter := txCounter + 1;
      id := txCounter;
      transactions := transactions[id := Transaction(id, id, Active, [], [])];
      currentTx := Some(id);
    }

    /** `tx_commit`: an unknown or non-active transaction fails with nothing
        changed; a stale read fails and leaves it active; otherwise it
        becomes committed and nothing else changes. */
    method TxCommit(id: nat) returns (ok: bool)
      requires Valid()
      modifies this
      ensures Valid() && (old(CurrentAtClock()) ==> CurrentAtClock())
      ensures ok <==> id in old(transactions) && old(transactions)[id].state == Active
                      && ReadsValid(old(versions), old(transactions)[id])
      ensures ok ==> transactions == old(transactions)[id := old(transactions)[id].(state := Committed)]
      ensures !ok ==> transactions == old(transactions)
      ensures versions == old(versions) && txCounter == old(txCounter) && currentTx == old(currentTx)
    {
      if id !in transactions || transactions[id].state != Active {
        return false;
      }
      var tx := transactions[id];
      ok := ValidateReads(versions, tx.readLog, tx.timestamp);
      if ok {
        transactions := transactions[id := tx.(state := Committed)];
      }
    }

    /** `tx_abort`: an unknown id fails with nothing changed; otherwise one
        head is popped per logged write, the transaction is removed, and the
        current pointer is cleared if it named this transaction. */
    method TxAbort(id: nat) returns (ok: bool)
      requires Valid()
      modifies this
      ensures Valid() && (old(CurrentAtClock()) && old(currentTx) != Some(id) ==> CurrentAtClock())
      ensures ok <==> id in old(transactions)
      ensures ok ==> versions == PopHeads(old(versions), old(transactions)[id].writeLog)
      ensures ok ==> transactions == old(transactions) - {id}
      ensures ok ==> currentTx == if old(currentTx) == Some(id) then None else old(currentTx)
      ensures !ok ==> versions == old(versions) && transactions == old(transactions) && currentTx == old(currentTx)
      ensures txCounter == old(txCounter)
    {
      if id !in transactions {
        return false;
      }
      var log := transactions[id].writeLog;
      assert StoreValid(PopHeads(versions, log), txCounter) by {
        PopHeadsShortensFromHead(versions, txCounter, log);
      }
      RollBack(log);
      assert TableValid(transactions - {id}, txCounter);
      transactions := transactions - {id};
      if currentTx == Some(id) {
        currentTx := None;
      }
      ok := true;
    }

    /** The `for` loop of `tx_abort`: one head popped per logged write. */
    method RollBack(log: seq<string>)
      modifies this`versions
      ensures versions == PopHeads(old(versions), log)
    {
      for i := 0 to |log|
        invariant versions == PopHeads(old(versions), log[..i])
      {
        assert log[..i + 1][..i] == log[..i];
        var k := log[i];
        if k in versions && versions[k] != [] {
          versions := versions[k := versions[k][1..]];
        }
      }
      assert log[..|log|] == log;
    }

    /** `tx_read`: without a current transaction, None and no change;
        otherwise the key is logged as read and the read is made at the
        transaction's snapshot. */
    method TxRead(k: string) returns (r: Option<string>)
      requires Valid()
      modifies this
      ensures Valid() && (old(CurrentAtClock()) ==> CurrentAtClock())
      ensures versions == old(versions) && txCounter == old(txCounter) && currentTx == old(currentTx)
      ensures old(currentTx).None? ==> r == None && transactions == old(transactions)
      ensures old(currentTx).Some? ==>
        var id := old(currentTx).value;
        var tx := old(transactions)[id];
        && r == ReadVersion(versions, k, tx.snapshotTs)
        && transactions == old(transactions)[id := tx.(readLog := tx.readLog + [k])]
    {
      if currentTx.None? || currentTx.value !in transactions {
        return None;
      }
      var id := currentTx.value;
      var tx := transactions[id];
      transactions := transactions[id := tx.(readLog := tx.readLog + [k])];
      r := ReadVersion(versions, k, tx.snapshotTs);
    }

    /** `tx_write`. Without a current transaction it fails with nothing
        changed. A chain head later than the transaction and owned by
        another transaction is a write-write conflict: the transaction is
        aborted and the write fails. Otherwise a version stamped with the
        clock goes to the head and the write is logged. The state of the
        transaction is not checked. */
    method TxWrite(k: string, d: string) returns (ok: bool)
      requires Valid()
      modifies this
      ensures Valid() && txCounter == old(txCounter)
      ensures old(currentTx).None? ==>
        !ok && versions == old(versions) && transactions == old(transactions) && currentTx == None
      ensures old(currentTx).Some? ==>
        var id := old(currentTx).value;
        var tx := old(transactions)[id];
        if Conflicts(old(versions), k, tx.timestamp, id) then
          && !ok
          && versions == PopHeads(old(versions), tx.writeLog)
          && transactions == old(transactions) - {id}
          && currentTx == None
        else
          && ok
          && versions == old(versions)[k := [Version(txCounter, id, d, false)] + Chain(old(versions), k)]
          && transactions == old(transactions)[id := tx.(writeLog := tx.writeLog + [k])]
          && currentTx == old(currentTx)
      ensures old(CurrentAtClock()) ==> ok && CurrentAtClock()
      ensures ok ==> forall ts :: ts >= txCounter ==> ReadVersion(versions, k, ts) == Some(d)
    {
      if currentTx.None? {
        return false;
      }
      var id := currentTx.value;
      var tx := transactions[id];
      if k in versions && versions[k] != [] {
        var head := versions[k][0];
        if head.timestamp > tx.timestamp && head.txId != id {
          ok := TxAbort(id);
          return false;
        }
      }
      var v := Version(txCounter, id, d, false);
      PushKeepsStoreValid(versions, txCounter, k, v);
      versions := versions[k := [v] + Chain(versions, k)];
      transactions := transactions[id := tx.(writeLog := tx.writeLog + [k])];
      forall ts | ts >= txCounter ensures ReadVersion(versions, k, ts) == Some(d) {
        VisibleAfterPush(Chain(old(versions), k), v, ts);
      }
      ok := true;
    }

    /** `tx_delete`. Without a current transaction, or when nothing is
        visible at the snapshot, it fails with nothing changed. Otherwise a
        tombstone stamped with the clock and carrying the visible data goes
        to the head and the write is logged; there is no conflict check. */
    method TxDelete(k: string) returns (ok: bool)
      requires Valid()
      modifies this
      ensures Valid() && (old(CurrentAtClock()) ==> CurrentAtClock())
      ensures txCounter == old(txCounter) && currentTx == old(currentTx)
      ensures old(currentTx).None? ==> !ok && versions == old(versions) && transactions == old(transactions)
      ensures old(currentTx).Some? ==>
        var id := old(currentTx).value;
        var tx := old(transactions)[id];
        var seen := ReadVersion(old(versions), k, tx.snapshotTs);
        && (ok <==> seen.Some?)
        && (!ok ==> versions == old(versions) && transactions == old(transactions))
        && (ok ==> versions == old(versions)[k := [Version(txCounter, id, seen.value, true)] + Chain(old(versions), k)])
        && (ok ==> transactions == old(transactions)[id := tx.(writeLog := tx.writeLog + [k])])
      ensures ok ==> forall ts :: ts >= txCounter ==> ReadVersion(versions, k, ts) == None
    {
      if currentTx.None? {
        return false;
      }
      var id := currentTx.value;
      var tx := transactions[id];
      var seen := ReadVersion(versions, k, tx.snapshotTs);
      if seen.None? {
        return false;
      }
      var v := Version(txCounter, id, seen.value, true);
      PushKeepsStoreValid(versions, txCounter, k, v);
      versions := versions[k := [v] + Chain(versions, k)];
      transactions := transactions[id := tx.(writeLog := tx.writeLog + [k])];
      forall ts | ts >= txCounter ensures ReadVersion(versions, k, ts) == None {
        VisibleAfterPush(Chain(old(versions), k), v, ts);
      }
      ok := true;
    }

    /** The common tail of `create`, `update` and `delete`: when there is a
        current transaction, commit it if the operation succeeded and abort
        it if not. */
    method Finish(succeeded: bool)
      requires Valid()
      modifies this
      ensures Valid() && txCounter == old(txCounter)
      ensures old(currentTx).None? ==>
        versions == old(versions) && transactions == old(transactions) && currentTx == None
      ensures old(currentTx).Some? && succeeded ==>
        var id := old(currentTx).value;
        var tx := old(transactions)[id];
        && versions == old(versions) && currentTx == old(currentTx)
        && transactions == if tx.state == Active && ReadsValid(old(versions), tx)
                           then old(transactions)[id := tx.(state := Committed)]
                           else old(transactions)
      ensures old(currentTx).Some? && !succeeded ==>
        var id := old(currentTx).value;
        && versions == PopHeads(old(versions), old(transactions)[id].writeLog)
        && transactions == old(transactions) - {id}
        && currentTx == None
    {
      if currentTx.Some? {
        var done;
        if succeeded {
          done := TxCommit(currentTx.value);
        } else {
          done := TxAbort(currentTx.value);
        }
      }
    }

    /** `create`: a one-write transaction. On a valid engine the fresh
        transaction cannot conflict, so it always succeeds and commits. */
    method Create(k: string, d: string) returns (r: bool)
      requires Valid()
      modifies this
      ensures Valid() && CurrentAtClock() && r
      ensures txCounter == old(txCounter) + 1 && currentTx == Some(txCounter)
      ensures versions == old(versions)[k := [Version(txCounter, txCounter, d, false)] + Chain(old(versions), k)]
      ensures transactions == old(transactions)[txCounter := Transaction(txCounter, txCounter, Committed, [k], [])]
      ensures forall ts :: ts >= txCounter ==> ReadVersion(versions, k, ts) == Some(d)
    {
      var id := TxStart();
      r := TxWrite(k, d);
      ghost var written := transactions;
      assert [] + [k] == [k];
      assert written == old(transactions)[id := Transaction(id, id, Active, [k], [])];
      assert written[id].state == Active && ReadsValid(versions, written[id]);
      Finish(r);
      assert transactions == written[id := written[id].(state := Committed)];
    }

    /** `update`: the same one-write transaction as `create`. */
    method Update(k: string, d: string) returns (r: bool)
      requires Valid()
      modifies this
      ensures Valid() && CurrentAtClock() && r
      ensures txCounter == old(txCounter) + 1 && currentTx == Some(txCounter)
      ensures versions == old(versions)[k := [Version(txCounter, txCounter, d, false)] + Chain(old(versions), k)]
      ensures transactions == old(transactions)[txCounter := Transaction(txCounter, txCounter, Committed, [k], [])]
      ensures forall ts :: ts >= txCounter ==> ReadVersion(versions, k, ts) == Some(d)
    {
      var id := TxStart();
      r := TxWrite(k, d);
      ghost var written := transactions;
      assert [] + [k] == [k];
      assert written == old(transactions)[id := Transaction(id, id, Active, [k], [])];
      assert written[id].state == Active && ReadsValid(versions, written[id]);
      Finish(r);
      assert transactions == written[id := written[id].(state := Committed)];
    }

    /** `read`: a one-read transaction, committed afterwards whatever the
        read returned. It sees the newest version of the record. */
    method Read(k: string) returns (r: Option<string>)
      requires Valid()
      modifies this
      ensures Valid() && CurrentAtClock()
      ensures r == (if Chain(old(versions), k) == [] then None else Payload(old(versions)[k][0]))
      ensures txCounter == old(txCounter) + 1 && currentTx == Some(txCounter) && versions == old(versions)
      ensures transactions == old(transactions)[txCounter := Transaction(txCounter, txCounter, Committed, [], [k])]
    {
      var id := TxStart();
      r := TxRead(k);
      ReadAtClockSeesHead(versions, txCounter, k, txCounter);
      assert !HeadNewerThan(versions, k, txCounter);
      ghost var read := transactions;
      assert [] + [k] == [k];
      assert read == old(transactions)[id := Transaction(id, id, Active, [], [k])];
      assert read[id].state == Active && ReadsValid(versions, read[id]);
      var committed := TxCommit(currentTx.value);
      assert transactions == read[id := read[id].(state := Committed)];
    }

    /** `delete`: a one-delete transaction. It succeeds exactly when the
        record has a visible newest version, and then commits a tombstone;
        otherwise the transaction is aborted and only the clock moved. */
    method Delete(k: string) returns (r: bool)
      requires Valid()
      modifies this
      ensures Valid() && txCounter == old(txCounter) + 1
      ensures r <==> Chain(old(versions), k) != [] && !old(versions)[k][0].deleted
      ensures r ==> versions == old(versions)[k := [Version(txCounter, txCounter, old(versions)[k][0].data, true)] + old(versions)[k]]
      ensures r ==> transactions == old(transactions)[txCounter := Transaction(txCounter, txCounter, Committed, [k], [])]
      ensures r ==> currentTx == Some(txCounter) && forall ts :: ts >= txCounter ==> ReadVersion(versions, k, ts) == None
      ensures !r ==> versions == old(versions) && transactions == old(transactions) && currentTx == None
    {
      ReadAtClockSeesHead(versions, txCounter, k, txCounter + 1);
      var id := TxStart();
      r := TxDelete(k);
      ghost var deleted := transactions;
      assert [] + [k] == [k];
      assert r ==> deleted == old(transactions)[id := Transaction(id, id, Active, [k], [])];
      assert r ==> deleted[id].state == Active && ReadsValid(versions, deleted[id]);
      Finish(r);
      assert r ==> transactions == deleted[id := deleted[id].(state := Committed)];
    }

    /** `gc`: nothing happens when no transaction is active; otherwise every
        chain is trimmed at the oldest active snapshot. */
    method Gc()
      requires Valid()
      modifies this
      ensures Valid() && (old(CurrentAtClock()) ==> CurrentAtClock())
      ensures transactions == old(transactions) && txCounter == old(txCounter) && currentTx == old(currentTx)
      ensures !HasActive(transactions) ==> versions == old(versions)
      ensures HasActive(transactions) ==> exists s :: IsOldestActive(transactions, s)
      ensures forall s :: IsOldestActive(transactions, s) ==> versions == TrimAll(old(versions), s)
    {
      var oldest := OldestActiveSnapshot(transactions);
      if oldest.None? {
        return;
      }
      var s := oldest.value;
      TrimKeepsStoreValid(versions, txCounter, s);
      TrimChains(s);
      forall s' | IsOldestActive(transactions, s') ensures s' == s {
        OldestIsUnique(transactions, s, s');
      }
    }

    /** The `for` loop of `gc`: every chain trimmed at `s`. */
    method TrimChains(s: int)
      modifies this`versions
      ensures versions == TrimAll(old(versions), s)
    {
      var pending := versions.Keys;
      while pending != {}
        invariant pending <= old(versions).Keys && versions.Keys == old(versions).Keys
        invariant forall k :: k in old(versions) && k !in pending ==> versions[k] == Trim(old(versions)[k], s)
        invariant forall k :: k in pending ==> versions[k] == old(versions)[k]
        decreases pending
      {
        var k :| k in pending;
        var chain := TrimTail(versions[k], s);
        versions := versions[k := chain];
        pending := pending - {k};
      }
      ghost var trimmed := TrimAll(old(versions), s);
      assert versions == trimmed by {
        assert versions.Keys == trimmed.Keys;
        forall k | k in versions ensures versions[k] == trimmed[k] {
        }
      }
    }

    /** The merge of `restore`: every imported chain is appended to the
        record's chain, which is re-sorted newest first, and the clock
        becomes the larger of the two clocks, so it never goes back. */
    method Restore(imported: Store, importedClock: int)
      requires Valid()
      modifies this
      ensures versions == Merge(old(versions), imported)
      ensures txCounter == if importedClock > old(txCounter) then importedClock else old(txCounter)
      ensures txCounter >= old(txCounter)
      ensures transactions == old(transactions) && currentTx == old(currentTx)
      ensures (forall k :: k in imported ==> Bounded(imported[k], importedClock)) ==> Valid()
    {
      MergeChains(imported);
      if importedClock > txCounter {
        txCounter := importedClock;
      }
      if forall k :: k in imported ==> Bounded(imported[k], importedClock) {
        MergeKeepsStoreValid(old(versions), old(txCounter), imported, importedClock);
      }
    }

    /** The `for` loop of `restore`: each imported chain appended to the
        record's chain and re-sorted. */
    method MergeChains(imported: Store)
      modifies this`versions
      ensures versions == Merge(old(versions), imported)
    {
      var pending := imported.Keys;
      while pending != {}
        invariant pending <= imported.Keys
        invariant versions.Keys == old(versions).Keys + (imported.Keys - pending)
        invariant forall k :: k in imported && k !in pending ==>
          versions[k] == SortDescending(Chain(old(versions), k) + imported[k])
        invariant forall k :: k in old(versions) && (k !in imported || k in pending) ==> versions[k] == old(versions)[k]
        decreases pending
      {
        var k :| k in pending;
        var chain := Chain(versions, k) + imported[k];
        versions := versions[k := SortDescending(chain)];
        pending := pending - {k};
      }
      ghost var merged := Merge(old(versions), imported);
      assert versions == merged by {
        assert versions.Keys == merged.Keys;
        forall k | k in versions ensures versions[k] == merged[k] {
          if k in imported {
            assert merged[k] == SortDescending(Chain(old(versions), k) + imported[k]);
          } else {
            assert merged[k] == old(versions)[k];
          }
        }
      }
    }
  }

  /** The write-write conflict test of `tx_write`: the head of `k`'s chain
      is later than the writer's timestamp and owned by another
      transaction. */
  predicate Conflicts(store: Store, k: string, ts: int, id: nat)
  {
    k in store && store[k] != [] && store[k][0].timestamp > ts && store[k][0].txId != id
  }

  /** On a valid store a conflict needs a writer older than the clock: a
      transaction whose timestamp is the clock never conflicts. */
  lemma ConflictNeedsOlderWriter(store: Store, clock: int, k: string, ts: int, id: nat)
    requires StoreValid(store, clock) && Conflicts(store, k, ts, id)
    ensures ts < clock
  {
    assert Bounded(store[k], clock);
  }
}
