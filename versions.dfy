/** The version store: per-record chains of versions, newest first, and the
    snapshot read `read_version` that every transactional read goes through. */
module VersionStore {

  datatype Option<T> = None | Some(value: T)

  /** One entry of a version chain. `txId` is the number n of the owning
      transaction "tx{n}"; a tombstone (`deleted`) still carries the data that
      was visible when it was written. */
  datatype Version = Version(timestamp: int, txId: nat, data: string, deleted: bool)

  /** The whole store: record id to its chain, newest first. */
  type Store = map<string, seq<Version>>

  /** Timestamps never increase along a chain. Two writes by one transaction
      share the clock value, so equal neighbours are allowed. */
  predicate Descending(chain: seq<Version>)
  {
    forall i, j :: 0 <= i < j < |chain| ==> chain[i].timestamp >= chain[j].timestamp
  }

  /** No version of the chain is later than `clock`. */
  predicate Bounded(chain: seq<Version>, clock: int)
  {
    forall i :: 0 <= i < |chain| ==> chain[i].timestamp <= clock
  }

  /** The store half of the engine invariant. */
  predicate StoreValid(store: Store, clock: int)
  {
    forall k :: k in store ==> Descending(store[k]) && Bounded(store[k], clock)
  }

  /** The chain of `k`, empty when the record was never written. */
  function Chain(store: Store, k: string): (r: seq<Version>)
  {
    if k in store then store[k] else []
  }

  /** What a reader sees when `v` is the version visible to it. */
  function Payload(v: Version): (r: Option<string>)
  {
    if v.deleted then None else Some(v.data)
  }

  /** Index `i` holds the newest version not later than `ts`. */
  predicate FirstAtOrBefore(chain: seq<Version>, ts: int, i: int)
  {
    0 <= i < |chain| && chain[i].timestamp <= ts
    && forall j :: 0 <= j < i ==> chain[j].timestamp > ts
  }

  /** The scan of `read_version` over one chain: the first version whose
      timestamp is at most `ts` decides the answer. */
  function Visible(chain: seq<Version>, ts: int): (r: Option<string>)
    ensures forall i :: FirstAtOrBefore(chain, ts, i) ==> r == Payload(chain[i])
    ensures (forall i :: 0 <= i < |chain| ==> chain[i].timestamp > ts) ==> r == None
  {
    if chain == [] then None
    else if chain[0].timestamp <= ts then Payload(chain[0])
    else
      assert forall i :: FirstAtOrBefore(chain, ts, i) ==> i > 0 && FirstAtOrBefore(chain[1..], ts, i - 1);
      Visible(chain[1..], ts)
  }

  /** `read_version`: the payload of the newest version of `k` not later
      than `ts`; None for an unknown record or when every version is later. */
  function ReadVersion(store: Store, k: string, ts: int): (r: Option<string>)
    ensures forall i :: FirstAtOrBefore(Chain(store, k), ts, i) ==> r == Payload(Chain(store, k)[i])
    ensures (forall i :: 0 <= i < |Chain(store, k)| ==> Chain(store, k)[i].timestamp > ts) ==> r == None
  {
    if k !in store then None else Visible(store[k], ts)
  }

  /** Putting `v` at the head of a chain changes the reads at or after
      `v.timestamp` to `v`'s payload and no other read. */
  lemma {:induction false} VisibleAfterPush(chain: seq<Version>, v: Version, ts: int)
    ensures ts >= v.timestamp ==> Visible([v] + chain, ts) == Payload(v)
    ensures ts < v.timestamp ==> Visible([v] + chain, ts) == Visible(chain, ts)
  {
    assert ([v] + chain)[1..] == chain;
  }

  /** On a valid store, a read at the clock sees the chain head. */
  lemma ReadAtClockSeesHead(store: Store, clock: int, k: string, ts: int)
    requires StoreValid(store, clock) && ts >= clock
    ensures Chain(store, k) == [] ==> ReadVersion(store, k, ts) == None
    ensures Chain(store, k) != [] ==> ReadVersion(store, k, ts) == Payload(store[k][0])
  {
    if Chain(store, k) != [] {
      assert FirstAtOrBefore(store[k], ts, 0);
    }
  }

  /** A new version stamped with the clock keeps the store valid. */
  lemma PushKeepsStoreValid(store: Store, clock: int, k: string, v: Version)
    requires StoreValid(store, clock) && v.timestamp == clock
    ensures StoreValid(store[k := [v] + Chain(store, k)], clock)
  {
    var c := [v] + Chain(store, k);
    assert Bounded(Chain(store, k), clock);
    assert forall j :: 0 < j < |c| ==> c[j] == Chain(store, k)[j - 1];
  }
}
