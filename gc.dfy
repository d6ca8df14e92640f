/** The garbage collector's pure parts: the watermark (oldest snapshot of an
    active transaction) and the tail trimming of one chain. */
module Collector {
  import opened VersionStore
  import opened TxTable

  predicate HasActive(txs: Table)
  {
    exists n :: n in txs && txs[n].state == Active
  }

  /** `s` is the smallest snapshot among the active transactions. */
  predicate IsOldestActive(txs: Table, s: int)
  {
    (exists n :: n in txs && txs[n].state == Active && txs[n].snapshotTs == s)
    && forall n :: n in txs && txs[n].state == Active ==> s <= txs[n].snapshotTs
  }

  /** The watermark of `gc`: the minimum snapshot over the active
      transactions, or None when none is active. */
  method OldestActiveSnapshot(txs: Table) returns (oldest: Option<int>)
    ensures oldest.None? <==> !HasActive(txs)
    ensures oldest.Some? ==> IsOldestActive(txs, oldest.value)
  {
    oldest := None;
    var pending := txs.Keys;
    while pending != {}
      invariant pending <= txs.Keys
      invariant oldest.None? ==> forall n :: n in txs && n !in pending ==> txs[n].state != Active
      invariant oldest.Some? ==>
        (exists n :: n in txs && n !in pending && txs[n].state == Active && txs[n].snapshotTs == oldest.value)
        && forall n :: n in txs && n !in pending && txs[n].state == Active ==> oldest.value <= txs[n].snapshotTs
      decreases pending
    {
      var n :| n in pending;
      var tx := txs[n];
      if tx.state == Active && (oldest.None? || tx.snapshotTs < oldest.value) {
        oldest := Some(tx.snapshotTs);
      }
      pending := pending - {n};
    }
  }

  /** There is one smallest active snapshot. */
  lemma OldestIsUnique(txs: Table, s: int, s': int)
    requires IsOldestActive(txs, s) && IsOldestActive(txs, s')
    ensures s == s'
  {
  }

  /** The chain left by the `while` loop of `gc`: the tail is dropped while
      more than one version remains and the tail is older than `s`. */
  function Trim(chain: seq<Version>, s: int): (r: seq<Version>)
    ensures |r| <= |chain|
    decreases |chain|
  {
    if |chain| > 1 && chain[|chain| - 1].timestamp < s then Trim(chain[..|chain| - 1], s)
    else chain
  }

  /** The `while` loop of `gc` on one chain: pops the tail while more than
      one version remains and the tail is older than `s`. */
  method TrimTail(chain: seq<Version>, s: int) returns (r: seq<Version>)
    ensures r == Trim(chain, s)
  {
    r := chain;
    while |r| > 1 && r[|r| - 1].timestamp < s
      invariant Trim(r, s) == Trim(chain, s)
      decreases |r|
    {
      r := r[..|r| - 1];
    }
  }

  /** Trimming cuts a tail: the result is a prefix, a non-empty chain keeps
      at least one version, every dropped version is older than `s`, and
      the loop stopped as soon as the tail was not older than `s` or one
      version was left. */
  lemma {:induction false} TrimCutsOldTail(chain: seq<Version>, s: int)
    ensures |Trim(chain, s)| <= |chain| && Trim(chain, s) == chain[..|Trim(chain, s)|]
    ensures chain != [] ==> |Trim(chain, s)| >= 1
    ensures forall i :: |Trim(chain, s)| <= i < |chain| ==> chain[i].timestamp < s
    ensures var r := Trim(chain, s); |r| <= 1 || r[|r| - 1].timestamp >= s
    decreases |chain|
  {
    if |chain| > 1 && chain[|chain| - 1].timestamp < s {
      var shorter := chain[..|chain| - 1];
      TrimCutsOldTail(shorter, s);
      var r := Trim(chain, s);
      assert r == Trim(shorter, s);
      assert shorter[..|r|] == chain[..|r|];
      forall i | |r| <= i < |chain| ensures chain[i].timestamp < s {
        if i < |shorter| {
          assert shorter[i] == chain[i];
        }
      }
    }
  }

  /** The store after `gc` with watermark `s`: every chain trimmed. */
  function TrimAll(store: Store, s: int): (r: Store)
    ensures r.Keys == store.Keys
  {
    map k | k in store :: Trim(store[k], s)
  }

  /** Trimming keeps the store invariant. */
  lemma TrimKeepsStoreValid(store: Store, clock: int, s: int)
    requires StoreValid(store, clock)
    ensures StoreValid(TrimAll(store, s), clock)
  {
    forall k | k in store
      ensures Descending(Trim(store[k], s)) && Bounded(Trim(store[k], s), clock)
    {
      var c := store[k];
      assert Descending(c) && Bounded(c, clock);
      TrimCutsOldTail(c, s);
    }
  }

  /** What `gc` does guarantee: a read whose visible version is not older
      than the watermark is unchanged by trimming. */
  lemma TrimPreservesReadsFromWatermark(chain: seq<Version>, s: int, ts: int, i: int)
    requires FirstAtOrBefore(chain, ts, i) && chain[i].timestamp >= s
    ensures Visible(Trim(chain, s), ts) == Visible(chain, ts)
  {
    var r := Trim(chain, s);
    TrimCutsOldTail(chain, s);
    assert i < |r|;
    assert FirstAtOrBefore(r, ts, i);
  }

  /** A read at a `ts` before every version of the chain sees nothing,
      before and after trimming. */
  lemma TrimKeepsEmptyReads(chain: seq<Version>, s: int, ts: int)
    requires forall i :: 0 <= i < |chain| ==> chain[i].timestamp > ts
    ensures Visible(Trim(chain, s), ts) == None
  {
    TrimCutsOldTail(chain, s);
    var r := Trim(chain, s);
    assert forall i :: 0 <= i < |r| ==> r[i] == chain[i];
  }

  /** What `gc` does not guarantee: with timestamps [5, 3, 2] and watermark
      4, the read at 4 sees the version of timestamp 3 before and nothing
      after, because the loop drops both 2 and 3. */
  lemma TrimCanHideWatermarkRead()
    ensures var chain := [Version(5, 5, "c", false), Version(3, 3, "b", false), Version(2, 2, "a", false)];
      Visible(chain, 4) == Some("b") && Visible(Trim(chain, 4), 4) == None
  {
    var chain := [Version(5, 5, "c", false), Version(3, 3, "b", false), Version(2, 2, "a", false)];
    assert FirstAtOrBefore(chain, 4, 1);
    TrimCutsOldTail(chain, 4);
    assert chain[..2][..1] == chain[..1];
    assert Trim(chain, 4) == [chain[0]];
  }
}
