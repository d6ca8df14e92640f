/** Client-side sequences of engine calls, each proved from the operations'
    contracts alone. */
module Scenarios {
  import opened VersionStore
  import opened TxTable
  import opened Backup
  import opened Mvcc

  /** Rollback: a transaction whose only action was one write, aborted,
      leaves every read at every snapshot as it was. */
  method WriteThenAbort(e: Engine, k: string, d: string)
    requires e.Valid()
    modifies e
    ensures e.Valid()
    ensures forall j, ts :: ReadVersion(e.versions, j, ts) == ReadVersion(old(e.versions), j, ts)
    ensures e.transactions == old(e.transactions) && e.currentTx == None
    ensures e.txCounter == old(e.txCounter) + 1
  {
    var id := e.TxStart();
    var written := e.TxWrite(k, d);
    assert [] + [k] == [k];
    var aborted := e.TxAbort(id);
    assert e.transactions == old(e.transactions);
    forall j, ts ensures ReadVersion(e.versions, j, ts) == ReadVersion(old(e.versions), j, ts) {
      SingleWriteRollback(old(e.versions), k, Version(id, id, d, false), j, ts);
    }
  }

  /** Read-set validation: a transaction that read `k` is refused at
      commit once a later transaction has committed a write to `k`, and it
      stays active. */
  method StaleReadBlocksCommit(e: Engine, k: string, d: string) returns (reader: nat, ok: bool)
    requires e.Valid()
    modifies e
    ensures e.Valid()
    ensures !ok && reader in e.transactions && e.transactions[reader].state == Active
  {
    reader := e.TxStart();
    var seen := e.TxRead(k);
    assert [] + [k] == [k];
    assert e.transactions[reader].readLog == [k];
    var created := e.Create(k, d);
    ghost var tx := e.transactions[reader];
    assert tx.timestamp == reader && tx.readLog == [k] && tx.state == Active;
    assert HeadNewerThan(e.versions, tx.readLog[0], tx.timestamp);
    ok := e.TxCommit(reader);
  }

  /** Snapshot reads: after `create(k, a)`, a transaction started next
      reads `a`; a later `update(k, b)` changes the newest version but not
      what is visible at that transaction's snapshot. */
  method SnapshotSurvivesLaterUpdate(e: Engine, k: string, a: string, b: string)
    returns (t: nat, first: Option<string>)
    requires e.Valid()
    modifies e
    ensures e.Valid()
    ensures first == Some(a)
    ensures ReadVersion(e.versions, k, t) == Some(a)
    ensures ReadVersion(e.versions, k, e.txCounter) == Some(b)
  {
    var created := e.Create(k, a);
    t := e.TxStart();
    first := e.TxRead(k);
    var updated := e.Update(k, b);
    VisibleAfterPush(e.versions[k][1..], e.versions[k][0], t);
    assert [e.versions[k][0]] + e.versions[k][1..] == e.versions[k];
  }

  /** Write-write conflicts need a head later than the writer, which only
      `restore` can produce: a head imported from a later clock makes the
      current transaction's write fail and aborts it. */
  method ConflictAfterRestore(e: Engine, k: string, d: string, other: string) returns (t: nat, ok: bool)
    requires e.Valid()
    modifies e
    ensures e.Valid()
    ensures !ok && e.currentTx == None && t !in e.transactions
  {
    t := e.TxStart();
    var later := Version(t + 1, t + 1, other, false);
    e.Restore(map[k := [later]], t + 1);
    assert Bounded(Chain(old(e.versions), k), t - 1);
    LaterVersionSortsFirst(Chain(old(e.versions), k), later);
    ok := e.TxWrite(k, d);
  }

  /** A version later than every version of a chain is the head once it is
      appended and the chain is re-sorted. */
  lemma LaterVersionSortsFirst(before: seq<Version>, later: Version)
    requires forall i :: 0 <= i < |before| ==> before[i].timestamp < later.timestamp
    ensures SortDescending(before + [later])[0] == later
  {
    var both := before + [later];
    var chain := SortDescending(both);
    SortIsSortedPermutation(both);
    assert later in multiset(chain) by {
      assert both[|before|] == later;
      assert later in multiset(both);
    }
    forall i | 0 <= i < |chain| && chain[i] != later ensures chain[i].timestamp < later.timestamp {
      assert chain[i] in multiset(both);
      assert chain[i] in both;
      var j :| 0 <= j < |both| && both[j] == chain[i];
      assert before[j] == chain[i];
    }
    var i :| 0 <= i < |chain| && chain[i] == later;
  }
}
