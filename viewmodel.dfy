/**
 * `FolderSyncViewModel`: the list of sync pairs the user edits, the status
 * line, and the busy flag. The engine is a parameter: a function from the two
 * folder URIs of a pair to the `SyncResult` of a two-way sync.
 */
module ViewModel {
  import opened Wrappers
  import opened Engine

  /** `SyncPair`: a pair id and the two folders, each unset until picked. */
  datatype SyncPair = SyncPair(
    id: int,
    sourceFolderUri: Option<string>,
    sourceFolderName: Option<string>,
    destFolderUri: Option<string>,
    destFolderName: Option<string>)
  {
    /** Both folders are picked, so the pair can be synced. */
    predicate Configured() {
      sourceFolderUri.Some? && destFolderUri.Some?
    }
  }

  /** `SyncPair(id = id)`: both folders unset. */
  function NewPair(id: int): SyncPair {
    SyncPair(id, None, None, None, None)
  }

  /** The status line, one constructor per message the view model shows. */
  datatype Status =
    | Blank                                              // ""
    | BothFoldersNeeded                                  // "Both folders must be selected"
    | Syncing                                            // "Syncing..."
    | Synced(copied: nat, updated: nat, scanned: nat)    // "✓ Synced: …"
    | SyncFailed(firstError: Option<string>)             // "✗ Sync failed: …"
    | AllSynced(copied: nat, updated: nat, scanned: nat) // "✓ All synced: …"

  /** The engine as the view model sees it: `syncFolders(sourceUri, destUri, twoWaySync = true)`. */
  type SyncEngine = (string, string) -> SyncResult

  function Ids(pairs: seq<SyncPair>): seq<int> {
    seq(|pairs|, i requires 0 <= i < |pairs| => pairs[i].id)
  }

  predicate UniqueIds(pairs: seq<SyncPair>) {
    forall i, j :: 0 <= i < j < |pairs| ==> pairs[i].id != pairs[j].id
  }

  /** `maxOfOrNull { it.id } ?: 0`. */
  function MaxId(pairs: seq<SyncPair>): (m: int)
    ensures forall p :: p in pairs ==> p.id <= m
    ensures pairs == [] ==> m == 0
    ensures pairs != [] ==> exists p :: p in pairs && p.id == m
  {
    if pairs == [] then 0
    else if |pairs| == 1 || pairs[0].id >= MaxId(pairs[1..]) then pairs[0].id
    else MaxId(pairs[1..])
  }

  /** The id `addNewPair` gives the new pair. */
  function NextId(pairs: seq<SyncPair>): int {
    MaxId(pairs) + 1
  }

  /** `indexOfFirst { it.id == pairId }`, null for -1. */
  function IndexOfId(pairs: seq<SyncPair>, pairId: int): (r: Option<nat>)
    ensures r.Some? ==> r.value < |pairs| && pairs[r.value].id == pairId
    ensures r.Some? ==> forall j :: 0 <= j < r.value ==> pairs[j].id != pairId
    ensures r.None? ==> forall j :: 0 <= j < |pairs| ==> pairs[j].id != pairId
  {
    if pairs == [] then None
    else if pairs[0].id == pairId then Some(0)
    else match IndexOfId(pairs[1..], pairId)
      case Some(i) => Some(i + 1)
      case None => None
  }

  /** The list after `addNewPair`: a fresh pair with no folders, at the end. */
  function Added(pairs: seq<SyncPair>): seq<SyncPair> {
    pairs + [NewPair(NextId(pairs))]
  }

  /** The list after `updateSourceFolder`: the first pair with the id gets the folder. */
  function WithSource(pairs: seq<SyncPair>, pairId: int, uri: string, name: string): seq<SyncPair> {
    match IndexOfId(pairs, pairId)
    case Some(i) => pairs[i := pairs[i].(sourceFolderUri := Some(uri), sourceFolderName := Some(name))]
    case None => pairs
  }

  /** The list after `updateDestFolder`: the first pair with the id gets the folder. */
  function WithDest(pairs: seq<SyncPair>, pairId: int, uri: string, name: string): seq<SyncPair> {
    match IndexOfId(pairs, pairId)
    case Some(i) => pairs[i := pairs[i].(destFolderUri := Some(uri), destFolderName := Some(name))]
    case None => pairs
  }

  /** The list after `removeAll { it.id == pairId }`. */
  function Removed(pairs: seq<SyncPair>, pairId: int): seq<SyncPair> {
    if pairs == [] then []
    else (if pairs[0].id == pairId then [] else [pairs[0]]) + Removed(pairs[1..], pairId)
  }

  /** A new pair gets an id above every existing one, so ids stay distinct;
    * the existing pairs are kept in order and the new pair has no folders. */
  lemma AddedKeepsIdsUnique(pairs: seq<SyncPair>)
    requires UniqueIds(pairs)
    ensures var r := Added(pairs);
      && UniqueIds(r) && r[..|pairs|] == pairs
      && (forall p :: p in pairs ==> p.id < r[|pairs|].id)
      && !r[|pairs|].Configured()
  {
    var r := Added(pairs);
    forall i | 0 <= i < |pairs| ensures r[i].id < r[|pairs|].id {
      assert r[i] in pairs;
    }
  }

  /**
   * Setting a folder touches the first pair with that id only, sets that side's
   * folder and leaves its other side alone; an unknown id changes nothing.
   * The ids, and so their distinctness, are unchanged.
   */
  lemma WithSourceSetsOne(pairs: seq<SyncPair>, pairId: int, uri: string, name: string)
    ensures var r := WithSource(pairs, pairId, uri, name);
      && Ids(r) == Ids(pairs)
      && (forall i :: 0 <= i < |pairs| && Some(i) != IndexOfId(pairs, pairId) ==> r[i] == pairs[i])
      && (IndexOfId(pairs, pairId).Some? ==>
            var p := r[IndexOfId(pairs, pairId).value];
            var q := pairs[IndexOfId(pairs, pairId).value];
            && p.sourceFolderUri == Some(uri) && p.sourceFolderName == Some(name)
            && p.destFolderUri == q.destFolderUri && p.destFolderName == q.destFolderName)
      && (IndexOfId(pairs, pairId).None? ==> r == pairs)
  {
  }

  lemma WithDestSetsOne(pairs: seq<SyncPair>, pairId: int, uri: string, name: string)
    ensures var r := WithDest(pairs, pairId, uri, name);
      && Ids(r) == Ids(pairs)
      && (forall i :: 0 <= i < |pairs| && Some(i) != IndexOfId(pairs, pairId) ==> r[i] == pairs[i])
      && (IndexOfId(pairs, pairId).Some? ==>
            var p := r[IndexOfId(pairs, pairId).value];
            var q := pairs[IndexOfId(pairs, pairId).value];
            && p.destFolderUri == Some(uri) && p.destFolderName == Some(name)
            && p.sourceFolderUri == q.sourceFolderUri && p.sourceFolderName == q.sourceFolderName)
      && (IndexOfId(pairs, pairId).None? ==> r == pairs)
  {
  }

  /** Removing keeps exactly the pairs with another id. */
  lemma {:induction false} RemovedKeepsOthers(pairs: seq<SyncPair>, pairId: int)
    ensures forall p :: p in Removed(pairs, pairId) <==> p in pairs && p.id != pairId
    ensures |Removed(pairs, pairId)| <= |pairs|
    decreases |pairs|
  {
    if pairs != [] {
      RemovedKeepsOthers(pairs[1..], pairId);
      assert forall p :: p in pairs <==> p == pairs[0] || p in pairs[1..];
    }
  }

  /**
   * Removal is a filter: it distributes over concatenation, so the pairs that
   * remain keep their relative order, and a single pair is kept exactly when
   * its id differs.
   */
  lemma {:induction false} RemovedAppend(a: seq<SyncPair>, b: seq<SyncPair>, pairId: int)
    ensures Removed(a + b, pairId) == Removed(a, pairId) + Removed(b, pairId)
    decreases |a|
  {
    if a == [] {
      assert a + b == b;
    } else {
      assert (a + b)[0] == a[0];
      assert (a + b)[1..] == a[1..] + b;
      RemovedAppend(a[1..], b, pairId);
      var head := if a[0].id == pairId then [] else [a[0]];
      assert Removed(a + b, pairId) == head + (Removed(a[1..], pairId) + Removed(b, pairId));
    }
  }

  /** A single pair is dropped exactly when it has the id. */
  lemma RemovedSingle(p: SyncPair, pairId: int)
    ensures Removed([p], pairId) == if p.id == pairId then [] else [p]
  {
    assert [p][1..] == [];
  }

  /** Removing keeps the order of what remains, and so the distinctness of ids. */
  lemma {:induction false} RemovedKeepsIdsUnique(pairs: seq<SyncPair>, pairId: int)
    requires UniqueIds(pairs)
    ensures UniqueIds(Removed(pairs, pairId))
    decreases |pairs|
  {
    if pairs != [] {
      RemovedKeepsIdsUnique(pairs[1..], pairId);
      RemovedKeepsOthers(pairs[1..], pairId);
      var rest := Removed(pairs[1..], pairId);
      var r := Removed(pairs, pairId);
      if pairs[0].id != pairId {
        forall j | 0 < j < |r| ensures r[0].id != r[j].id {
          assert r[j] == rest[j - 1];
          assert rest[j - 1] in pairs[1..];
        }
      }
    }
  }

  /** The totals `syncAll` adds up over the configured pairs, in list order. */
  datatype Totals = Totals(copied: nat, updated: nat, scanned: nat)

  function TotalsOf(pairs: seq<SyncPair>, sync: SyncEngine): Totals
    decreases |pairs|
  {
    if pairs == [] then Totals(0, 0, 0)
    else
      var t := TotalsOf(pairs[..|pairs| - 1], sync);
      var pair := pairs[|pairs| - 1];
      if pair.Configured() then
        var result := sync(pair.sourceFolderUri.value, pair.destFolderUri.value);
        Totals(t.copied + result.filesCopied, t.updated + result.filesUpdated, t.scanned + result.filesScanned)
      else t
  }

  /** The totals of a list split in two are the sums of the totals of the parts. */
  lemma {:induction false} TotalsAppend(a: seq<SyncPair>, b: seq<SyncPair>, sync: SyncEngine)
    ensures var ta := TotalsOf(a, sync);
      var tb := TotalsOf(b, sync);
      TotalsOf(a + b, sync) == Totals(ta.copied + tb.copied, ta.updated + tb.updated, ta.scanned + tb.scanned)
    decreases |b|
  {
    if b == [] {
      assert a + b == a;
    } else {
      assert (a + b)[..|a + b| - 1] == a + b[..|b| - 1];
      assert (a + b)[|a + b| - 1] == b[|b| - 1];
      TotalsAppend(a, b[..|b| - 1], sync);
    }
  }

  /** Pairs without both folders add nothing to the totals. */
  lemma {:induction false} TotalsSkipUnconfigured(pairs: seq<SyncPair>, sync: SyncEngine)
    requires forall i :: 0 <= i < |pairs| ==> !pairs[i].Configured()
    ensures TotalsOf(pairs, sync) == Totals(0, 0, 0)
    decreases |pairs|
  {
    if pairs != [] {
      TotalsSkipUnconfigured(pairs[..|pairs| - 1], sync);
    }
  }

  /**
   * The view model: `_syncPairs`, `_syncStatus` and `_isSyncing`, plus `saved`,
   * the list last handed to the repository by `savePairs`.
   */
  class FolderSyncViewModel {
    var pairs: seq<SyncPair>
    var status: Status
    var isSyncing: bool
    var saved: seq<SyncPair>

    /** The pairs the repository held at start-up become the list. */
    constructor (savedPairs: seq<SyncPair>)
      ensures pairs == savedPairs && saved == savedPairs && status == Blank && !isSyncing
    {
      pairs := savedPairs;
      saved := savedPairs;
      status := Blank;
      isSyncing := false;
    }

    /** `savePairs`. */
    method SavePairs()
      modifies this
      ensures saved == pairs && pairs == old(pairs) && status == old(status) && isSyncing == old(isSyncing)
    {
      saved := pairs;
    }

    /** `addNewPair`. */
    method AddNewPair()
      modifies this
      ensures pairs == Added(old(pairs)) && saved == pairs
      ensures status == old(status) && isSyncing == old(isSyncing)
    {
      var newId := NextId(pairs);
      pairs := pairs + [NewPair(newId)];
      SavePairs();
    }

    /** `updateSourceFolder`: saves only when a pair had the id. */
    method UpdateSourceFolder(pairId: int, uri: string, name: string)
      modifies this
      ensures pairs == WithSource(old(pairs), pairId, uri, name)
      ensures saved == if IndexOfId(old(pairs), pairId).Some? then pairs else old(saved)
      ensures status == old(status) && isSyncing == old(isSyncing)
    {
      var index := IndexOfId(pairs, pairId);
      if index.Some? {
        var i := index.value;
        pairs := pairs[i := pairs[i].(sourceFolderUri := Some(uri), sourceFolderName := Some(name))];
        SavePairs();
      }
    }

    /** `updateDestFolder`: saves only when a pair had the id. */
    method UpdateDestFolder(pairId: int, uri: string, name: string)
      modifies this
      ensures pairs == WithDest(old(pairs), pairId, uri, name)
      ensures saved == if IndexOfId(old(pairs), pairId).Some? then pairs else old(saved)
      ensures status == old(status) && isSyncing == old(isSyncing)
    {
      var index := IndexOfId(pairs, pairId);
      if index.Some? {
        var i := index.value;
        pairs := pairs[i := pairs[i].(destFolderUri := Some(uri), destFolderName := Some(name))];
        SavePairs();
      }
    }

    /** `removePair`: always saves. */
    method RemovePair(pairId: int)
      modifies this
      ensures pairs == Removed(old(pairs), pairId) && saved == pairs
      ensures status == old(status) && isSyncing == old(isSyncing)
    {
      var kept: seq<SyncPair> := [];
      var i := |pairs|;
      while i > 0
        invariant 0 <= i <= |pairs|
        invariant kept == Removed(pairs[i..], pairId)
      {
        i := i - 1;
        assert pairs[i..][1..] == pairs[i + 1..];
        if pairs[i].id != pairId {
          kept := [pairs[i]] + kept;
        }
      }
      pairs := kept;
      SavePairs();
    }

    /**
     * `syncPair`: an unknown id does nothing; a pair missing a folder sets the
     * status to ask for both; otherwise the two-way sync runs and the status
     * reports its counters, or its first error when it failed.
     */
    method SyncPair(pairId: int, sync: SyncEngine)
      modifies this
      ensures pairs == old(pairs) && saved == old(saved)
      ensures var found := IndexOfId(old(pairs), pairId);
        && (found.None? ==> status == old(status) && isSyncing == old(isSyncing))
        && (found.Some? && !old(pairs)[found.value].Configured() ==>
              status == BothFoldersNeeded && isSyncing == old(isSyncing))
        && (found.Some? && old(pairs)[found.value].Configured() ==>
              var pair := old(pairs)[found.value];
              var result := sync(pair.sourceFolderUri.value, pair.destFolderUri.value);
              && !isSyncing
              && status == if result.success then Synced(result.filesCopied, result.filesUpdated, result.filesScanned)
                           else SyncFailed(if result.errors == [] then None else Some(result.errors[0])))
    {
      var found := IndexOfId(pairs, pairId);
      if found.None? {
        return;
      }
      var pair := pairs[found.value];
      if pair.sourceFolderUri.None? || pair.destFolderUri.None? {
        status := BothFoldersNeeded;
        return;
      }
      isSyncing := true;
      status := Syncing;
      var result := sync(pair.sourceFolderUri.value, pair.destFolderUri.value);
      if result.success {
        status := Synced(result.filesCopied, result.filesUpdated, result.filesScanned);
      } else {
        status := SyncFailed(if result.errors == [] then None else Some(result.errors[0]));
      }
      isSyncing := false;
    }

    /** `syncAll`: syncs every configured pair in list order and reports the summed counters. */
    method SyncAll(sync: SyncEngine)
      modifies this
      ensures pairs == old(pairs) && saved == old(saved) && !isSyncing
      ensures var t := TotalsOf(pairs, sync);
        status == AllSynced(t.copied, t.updated, t.scanned)
    {
      isSyncing := true;
      var totalCopied: nat := 0;
      var totalUpdated: nat := 0;
      var totalScanned: nat := 0;
      var i := 0;
      while i < |pairs|
        invariant 0 <= i <= |pairs|
        invariant TotalsOf(pairs[..i], sync) == Totals(totalCopied, totalUpdated, totalScanned)
      {
        assert pairs[..i + 1][..i] == pairs[..i];
        var pair := pairs[i];
        if pair.sourceFolderUri.Some? && pair.destFolderUri.Some? {
          var result := sync(pair.sourceFolderUri.value, pair.destFolderUri.value);
          totalCopied := totalCopied + result.filesCopied;
          totalUpdated := totalUpdated + result.filesUpdated;
          totalScanned := totalScanned + result.filesScanned;
        }
        i := i + 1;
      }
      assert pairs[..i] == pairs;
      status := AllSynced(totalCopied, totalUpdated, totalScanned);
      isSyncing := false;
    }
  }
}
