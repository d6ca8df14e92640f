/** The in-memory halves of incremental backup and restore: the filter that
    selects the versions newer than a baseline, and the merge that appends
    imported versions to a chain and re-sorts it newest first. */
module Backup {
  import opened VersionStore
  import opened TxTable

  /** The versions of `chain` later than `baseline`, in chain order. */
  function Newer(chain: seq<Version>, baseline: int): (r: seq<Version>)
    ensures |r| <= |chain|
    ensures forall i :: 0 <= i < |r| ==> r[i].timestamp > baseline
  {
    if chain == [] then []
    else if chain[0].timestamp > baseline then [chain[0]] + Newer(chain[1..], baseline)
    else Newer(chain[1..], baseline)
  }

  /** The versions of `chain` not later than `baseline`, in chain order:
      what a store held at `baseline`. */
  function AtOrBefore(chain: seq<Version>, baseline: int): (r: seq<Version>)
    ensures |r| <= |chain|
    ensures forall i :: 0 <= i < |r| ==> r[i].timestamp <= baseline
  {
    if chain == [] then []
    else if chain[0].timestamp <= baseline then [chain[0]] + AtOrBefore(chain[1..], baseline)
    else AtOrBefore(chain[1..], baseline)
  }

  /** The incremental image written by `backup`: every record's newer
      versions, records with none left out. */
  function Incremental(store: Store, baseline: int): (r: Store)
    ensures r.Keys <= store.Keys
    ensures forall k :: k in r ==> r[k] != []
  {
    map k | k in store && Newer(store[k], baseline) != [] :: Newer(store[k], baseline)
  }

  /** The filter keeps chain order: it distributes over concatenation. */
  lemma {:induction false} NewerDistributes(a: seq<Version>, b: seq<Version>, baseline: int)
    ensures Newer(a + b, baseline) == Newer(a, baseline) + Newer(b, baseline)
  {
    if a == [] {
      assert a + b == b;
    } else {
      assert (a + b)[0] == a[0];
      assert (a + b)[1..] == a[1..] + b;
      NewerDistributes(a[1..], b, baseline);
      if a[0].timestamp <= baseline {
        assert Newer(a + b, baseline) == Newer(a[1..] + b, baseline);
        assert Newer(a, baseline) == Newer(a[1..], baseline);
      } else {
        calc {
          Newer(a + b, baseline);
          [a[0]] + Newer(a[1..] + b, baseline);
          [a[0]] + (Newer(a[1..], baseline) + Newer(b, baseline));
          ([a[0]] + Newer(a[1..], baseline)) + Newer(b, baseline);
        }
      }
    }
  }

  /** The filter drops nothing it should keep: it holds exactly the
      versions of the chain later than the baseline, with their
      multiplicities. */
  lemma {:induction false} NewerKeepsExactlyTheLater(chain: seq<Version>, baseline: int, v: Version)
    ensures multiset(Newer(chain, baseline))[v] == if v.timestamp > baseline then multiset(chain)[v] else 0
  {
    if chain != [] {
      assert chain == [chain[0]] + chain[1..];
      NewerKeepsExactlyTheLater(chain[1..], baseline, v);
    }
  }

  /** On a newest-first chain the newer versions are a prefix and the rest
      is the matching suffix. */
  lemma {:induction false} DescendingSplits(chain: seq<Version>, baseline: int)
    requires Descending(chain)
    ensures Newer(chain, baseline) == chain[..|Newer(chain, baseline)|]
    ensures AtOrBefore(chain, baseline) == chain[|Newer(chain, baseline)|..]
    ensures Newer(chain, baseline) != [] <==> chain != [] && chain[0].timestamp > baseline
  {
    if chain != [] {
      var rest := chain[1..];
      assert Descending(rest);
      if chain[0].timestamp <= baseline {
        AllAtOrBefore(chain, baseline);
      } else {
        DescendingSplits(rest, baseline);
      }
    }
  }

  /** A chain with nothing later than the baseline is all kept by the
      baseline cut and all dropped by the filter. */
  lemma {:induction false} AllAtOrBefore(chain: seq<Version>, baseline: int)
    requires forall i :: 0 <= i < |chain| ==> chain[i].timestamp <= baseline
    ensures Newer(chain, baseline) == []
    ensures AtOrBefore(chain, baseline) == chain
  {
    if chain != [] {
      AllAtOrBefore(chain[1..], baseline);
    }
  }

  /** The incremental image of a valid store holds exactly the records whose
      head is newer than the baseline, each with the newest part of its
      chain. */
  lemma IncrementalTakesNewestPrefix(store: Store, clock: int, baseline: int, k: string)
    requires StoreValid(store, clock)
    ensures k in Incremental(store, baseline) <==> HeadNewerThan(store, k, baseline)
    ensures k in Incremental(store, baseline) ==>
      var part := Incremental(store, baseline)[k];
      part == store[k][..|part|] && forall i :: |part| <= i < |store[k]| ==> store[k][i].timestamp <= baseline
  {
    if k in store {
      var c := store[k];
      DescendingSplits(c, baseline);
      var n := Newer(c, baseline);
      forall i | |n| <= i < |c| ensures c[i].timestamp <= baseline {
        assert AtOrBefore(c, baseline)[i - |n|] == c[i];
      }
    }
  }

  /** An image written by `backup` of a valid store has no version later
      than the clock it records. */
  lemma IncrementalIsBounded(store: Store, clock: int, baseline: int, k: string)
    requires StoreValid(store, clock) && k in Incremental(store, baseline)
    ensures Bounded(Incremental(store, baseline)[k], clock)
  {
    var c := store[k];
    var part := Incremental(store, baseline)[k];
    assert Bounded(c, clock);
    forall i | 0 <= i < |part| ensures part[i].timestamp <= clock {
      NewerKeepsExactlyTheLater(c, baseline, part[i]);
      assert part[i] in multiset(part);
      assert part[i] in c;
    }
  }

  /** One insertion step of Python's stable sort by descending timestamp:
      `v` goes after every version strictly later than it. */
  function Insert(v: Version, chain: seq<Version>): (r: seq<Version>)
    ensures |r| == |chain| + 1
  {
    if chain == [] || chain[0].timestamp <= v.timestamp then [v] + chain
    else [chain[0]] + Insert(v, chain[1..])
  }

  /** Insertion adds exactly `v`, and keeps a newest-first chain newest
      first. */
  lemma InsertIsSortedInsertion(v: Version, chain: seq<Version>)
    ensures multiset(Insert(v, chain)) == multiset(chain) + multiset{v}
    ensures Insert(v, chain)[0] == v || (chain != [] && Insert(v, chain)[0] == chain[0])
    ensures Descending(chain) ==> Descending(Insert(v, chain))
  {
    InsertAddsOne(v, chain);
    if Descending(chain) {
      InsertKeepsDescending(v, chain);
    }
  }

  lemma {:induction false} InsertAddsOne(v: Version, chain: seq<Version>)
    ensures multiset(Insert(v, chain)) == multiset(chain) + multiset{v}
    ensures Insert(v, chain)[0] == v || (chain != [] && Insert(v, chain)[0] == chain[0])
  {
    if chain != [] && chain[0].timestamp > v.timestamp {
      assert chain == [chain[0]] + chain[1..];
      InsertAddsOne(v, chain[1..]);
    }
  }

  lemma {:induction false} InsertKeepsDescending(v: Version, chain: seq<Version>)
    requires Descending(chain)
    ensures Descending(Insert(v, chain))
  {
    if chain == [] || chain[0].timestamp <= v.timestamp {
      DescendingCons(v, chain);
    } else {
      var rest := chain[1..];
      InsertKeepsDescending(v, rest);
      InsertAddsOne(v, rest);
      DescendingCons(chain[0], Insert(v, rest));
    }
  }

  /** A version not older than the head of a newest-first chain can be put
      in front of it. */
  lemma DescendingCons(v: Version, chain: seq<Version>)
    requires Descending(chain)
    requires chain == [] || chain[0].timestamp <= v.timestamp
    ensures Descending([v] + chain)
  {
    var r := [v] + chain;
    forall i, j | 0 <= i < j < |r| ensures r[i].timestamp >= r[j].timestamp {
      assert r[j] == chain[j - 1];
      if i > 0 {
        assert r[i] == chain[i - 1];
      } else {
        assert chain[0].timestamp >= chain[j - 1].timestamp;
      }
    }
  }

  /** The stable sort newest first that `restore` applies to each merged
      chain. */
  function SortDescending(s: seq<Version>): (r: seq<Version>)
    ensures |r| == |s|
  {
    if s == [] then [] else Insert(s[0], SortDescending(s[1..]))
  }

  /** The sort returns a newest-first permutation of its input. */
  lemma {:induction false} SortIsSortedPermutation(s: seq<Version>)
    ensures multiset(SortDescending(s)) == multiset(s)
    ensures Descending(SortDescending(s))
  {
    if s != [] {
      assert s == [s[0]] + s[1..];
      SortIsSortedPermutation(s[1..]);
      InsertIsSortedInsertion(s[0], SortDescending(s[1..]));
    }
  }

  /** The versions of `s` with timestamp `t`, in order. */
  function SameTs(s: seq<Version>, t: int): (r: seq<Version>)
    ensures |r| <= |s|
  {
    if s == [] then []
    else if s[0].timestamp == t then [s[0]] + SameTs(s[1..], t)
    else SameTs(s[1..], t)
  }

  /** Insertion puts `v` in front of the versions of its own timestamp and
      moves no other version of any timestamp past another. */
  lemma {:induction false} InsertStable(v: Version, chain: seq<Version>, t: int)
    ensures SameTs(Insert(v, chain), t) == (if v.timestamp == t then [v] else []) + SameTs(chain, t)
  {
    if chain == [] || chain[0].timestamp <= v.timestamp {
      assert ([v] + chain)[1..] == chain;
    } else {
      var rest := chain[1..];
      InsertStable(v, rest, t);
      assert ([chain[0]] + Insert(v, rest))[1..] == Insert(v, rest);
      if chain[0].timestamp == t {
        assert v.timestamp != t;
      }
    }
  }

  /** The sort is stable, as Python's `sort` is: versions with equal
      timestamps keep their relative order. */
  lemma {:induction false} SortStable(s: seq<Version>, t: int)
    ensures SameTs(SortDescending(s), t) == SameTs(s, t)
  {
    if s != [] {
      SortStable(s[1..], t);
      InsertStable(s[0], SortDescending(s[1..]), t);
    }
  }

  /** The sort leaves an already newest-first chain as it is. */
  lemma {:induction false} SortKeepsDescending(s: seq<Version>)
    requires Descending(s)
    ensures SortDescending(s) == s
  {
    if s != [] {
      SortKeepsDescending(s[1..]);
      assert s == [s[0]] + s[1..];
    }
  }

  /** The chains after `restore` merged `imported` into `store`: an imported
      record's chain is its old chain plus the imported versions, re-sorted;
      the other records keep theirs. */
  function Merge(store: Store, imported: Store): (r: Store)
    ensures r.Keys == store.Keys + imported.Keys
  {
    map k | k in store.Keys + imported.Keys ::
      if k in imported then SortDescending(Chain(store, k) + imported[k]) else store[k]
  }

  /** Per record, the merge holds the old and the imported versions, newest
      first, and leaves the records that were not imported alone. */
  lemma MergeSortsEachImportedChain(store: Store, imported: Store, k: string)
    ensures k in imported ==>
      var r := Merge(store, imported)[k];
      Descending(r) && multiset(r) == multiset(Chain(store, k)) + multiset(imported[k])
    ensures k in store && k !in imported ==> Merge(store, imported)[k] == store[k]
  {
    if k in imported {
      SortIsSortedPermutation(Chain(store, k) + imported[k]);
    }
  }

  /** Each merged chain is newest first, and no version is later than the
      larger of the two clocks. */
  lemma MergeKeepsStoreValid(store: Store, clock: int, imported: Store, importedClock: int)
    requires StoreValid(store, clock)
    requires forall k :: k in imported ==> Bounded(imported[k], importedClock)
    ensures StoreValid(Merge(store, imported), if importedClock > clock then importedClock else clock)
  {
    var m := if importedClock > clock then importedClock else clock;
    var r := Merge(store, imported);
    forall k | k in r ensures Descending(r[k]) && Bounded(r[k], m) {
      MergeSortsEachImportedChain(store, imported, k);
      if k in imported {
        var both := Chain(store, k) + imported[k];
        assert Bounded(Chain(store, k), clock);
        forall i | 0 <= i < |r[k]| ensures r[k][i].timestamp <= m {
          assert r[k][i] in multiset(r[k]);
          assert r[k][i] in both;
        }
      }
    }
  }

  /** Inserting a version behind a run of strictly later ones. */
  lemma {:induction false} InsertBehind(v: Version, later: seq<Version>, rest: seq<Version>)
    requires forall i :: 0 <= i < |later| ==> later[i].timestamp > v.timestamp
    requires rest == [] || rest[0].timestamp <= v.timestamp
    ensures Insert(v, later + rest) == later + [v] + rest
  {
    if later != [] {
      assert (later + rest)[1..] == later[1..] + rest;
      InsertBehind(v, later[1..], rest);
    }
  }

  /** Sorting an older chain followed by a newer one puts the newer first. */
  lemma {:induction false} SortOlderThenNewer(older: seq<Version>, newer: seq<Version>, baseline: int)
    requires Descending(older) && Descending(newer)
    requires forall i :: 0 <= i < |older| ==> older[i].timestamp <= baseline
    requires forall j :: 0 <= j < |newer| ==> newer[j].timestamp > baseline
    ensures SortDescending(older + newer) == newer + older
  {
    if older == [] {
      assert older + newer == newer;
      SortKeepsDescending(newer);
    } else {
      var v, tail := older[0], older[1..];
      DropHead(older, baseline);
      SortOlderThenNewer(tail, newer, baseline);
      var both := older + newer;
      calc {
        SortDescending(both);
        { assert both[0] == v && both[1..] == tail + newer; SortUnfold(both); }
        Insert(v, SortDescending(tail + newer));
        Insert(v, newer + tail);
        { InsertBehind(v, newer, tail); }
        newer + [v] + tail;
        { assert older == [v] + tail; }
        newer + older;
      }
    }
  }

  /** The tail of a newest-first chain bounded by `baseline` is newest
      first, bounded, and not newer than the head. */
  lemma DropHead(s: seq<Version>, baseline: int)
    requires s != [] && Descending(s)
    requires forall i :: 0 <= i < |s| ==> s[i].timestamp <= baseline
    ensures Descending(s[1..])
    ensures forall i :: 0 <= i < |s| - 1 ==> s[1..][i].timestamp <= baseline
    ensures s[1..] == [] || s[1..][0].timestamp <= s[0].timestamp
  {
  }

  lemma SortUnfold(s: seq<Version>)
    requires s != []
    ensures SortDescending(s) == Insert(s[0], SortDescending(s[1..]))
  {
  }

  /** Every chain of the store cut to its versions not later than
      `baseline`. Once `gc` or an abort has changed chains since, this is
      not the store as it was at `baseline`. */
  function AsOf(store: Store, baseline: int): (r: Store)
    ensures r.Keys == store.Keys
  {
    map k | k in store :: AtOrBefore(store[k], baseline)
  }

  /** One chain of the round trip below. */
  lemma ChainRoundTrip(c: seq<Version>, baseline: int)
    requires Descending(c)
    ensures Newer(c, baseline) != [] ==> SortDescending(AtOrBefore(c, baseline) + Newer(c, baseline)) == c
    ensures Newer(c, baseline) == [] ==> AtOrBefore(c, baseline) == c
  {
    DescendingSplits(c, baseline);
    var n := Newer(c, baseline);
    var o := AtOrBefore(c, baseline);
    assert c == n + o;
    assert Descending(o) && Descending(n);
    if n != [] {
      SortOlderThenNewer(o, n, baseline);
    }
  }

  /** Round trip: restoring the incremental backup taken at `baseline` onto
      the store with every chain cut at `baseline` gives back the store. */
  lemma RestoreUndoesIncrementalBackup(store: Store, clock: int, baseline: int)
    requires StoreValid(store, clock)
    ensures Merge(AsOf(store, baseline), Incremental(store, baseline)) == store
  {
    var base := AsOf(store, baseline);
    var incr := Incremental(store, baseline);
    var r := Merge(base, incr);
    assert r.Keys == store.Keys;
    forall k | k in store ensures r[k] == store[k] {
      ChainRoundTrip(store[k], baseline);
      assert Chain(base, k) == AtOrBefore(store[k], baseline);
    }
  }
}
