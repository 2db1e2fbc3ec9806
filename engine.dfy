/**
 * `syncFolders`: checks that both roots exist, then runs either the two-way
 * pass over the flattened trees or the one-way scan, and reports a
 * `SyncResult`.
 */
module Engine {
  import opened Wrappers
  import opened Documents
  import opened FileMaps
  import opened Transfer
  import opened TwoWay
  import opened OneWay

  /** `SyncResult`: the counters default to 0 and the errors to none. */
  datatype SyncResult = SyncResult(success: bool, filesScanned: nat, filesCopied: nat, filesUpdated: nat, errors: seq<string>)

  const SourceNotAccessible: string := "Source folder not accessible"
  const DestNotAccessible: string := "Destination folder not accessible"

  function Max(a: nat, b: nat): nat {
    if a < b then b else a
  }

  /** The two trees after a sync and what it reports. */
  datatype Outcome = Outcome(trees: Trees, result: SyncResult)

  /** The maps the two-way pass works on: the flattened source and destination roots. */
  function FileMapOf(source: Node): FileMap {
    Flatten(source, [], "")
  }

  /**
   * `syncFolders(source, dest, twoWaySync)` on the roots `source` and `dest`
   * (a root that cannot be opened, or does not exist, is `Deleted`); the
   * source root is checked first. The report succeeds exactly when it lists no
   * error.
   */
  function Synchronize(source: Node, dest: Node, twoWaySync: bool, now: int): (o: Outcome)
    ensures o.result.success <==> o.result.errors == []
    ensures source.Deleted? ==>
      && o.trees == Trees(source, dest) && o.result.errors == [SourceNotAccessible]
      && o.result.filesScanned == 0 && o.result.filesCopied == 0 && o.result.filesUpdated == 0
    ensures !source.Deleted? && dest.Deleted? ==>
      && o.trees == Trees(source, dest) && o.result.errors == [DestNotAccessible]
      && o.result.filesScanned == 0 && o.result.filesCopied == 0 && o.result.filesUpdated == 0
    ensures !twoWaySync ==> o.trees.source == source
    ensures !twoWaySync ==>
      && o.result.filesCopied + o.result.filesUpdated <= o.result.filesScanned <= Census(source)
      && |o.result.errors| <= o.result.filesScanned + 1
  {
    if source.Deleted? then
      Outcome(Trees(source, dest), SyncResult(false, 0, 0, 0, [SourceNotAccessible]))
    else if dest.Deleted? then
      Outcome(Trees(source, dest), SyncResult(false, 0, 0, 0, [DestNotAccessible]))
    else if twoWaySync then
      var sourceFiles := FileMapOf(source);
      var destFiles := FileMapOf(dest);
      var p := Run(Pass(Trees(source, dest), 0, 0), sourceFiles, destFiles, UnionPaths(sourceFiles, destFiles), now);
      Outcome(p.trees, SyncResult(true, Max(|sourceFiles|, |destFiles|), p.copied, p.updated, []))
    else
      var r := SyncDirs(source, dest, [], [], now);
      Outcome(Trees(source, r.tree), SyncResult(r.errors == [], r.counts.scanned, r.counts.copied, r.counts.updated, r.errors))
  }

  /** One iteration of the two-way loop: the action for `path`, with the counters so far. */
  method SyncPath(store: DocumentStore, sourceFiles: FileMap, destFiles: FileMap, path: string, now: int,
                  copiedSoFar: nat, updatedSoFar: nat)
    returns (totalFilesCopied: nat, totalFilesUpdated: nat)
    modifies store
    ensures Step(Pass(Trees(old(store.source), old(store.dest)), copiedSoFar, updatedSoFar), sourceFiles, destFiles, path, now)
      == Pass(Trees(store.source, store.dest), totalFilesCopied, totalFilesUpdated)
  {
    totalFilesCopied, totalFilesUpdated := copiedSoFar, updatedSoFar;
    match (Get(sourceFiles, path), Get(destFiles, path)) {
      case (Some(sourceFile), None) =>
        // only in the source: copy to the destination
        var copied := CopyFileToPath(store, Dest, sourceFile.file, sourceFile.relativePath, now);
        if copied { totalFilesCopied := totalFilesCopied + 1; }
      case (None, Some(destFile)) =>
        // only in the destination: copy to the source
        var copied := CopyFileToPath(store, Source, destFile.file, destFile.relativePath, now);
        if copied { totalFilesCopied := totalFilesCopied + 1; }
      case (Some(sourceFile), Some(destFile)) =>
        var sourceModified := LastModified(sourceFile.file);
        var destModified := LastModified(destFile.file);
        if Abs(sourceModified - destModified) > Tolerance {
          var updated;
          if sourceModified > destModified {
            updated := UpdateFile(store, Dest, sourceFile.file, destFile.at);
          } else {
            updated := UpdateFile(store, Source, destFile.file, sourceFile.at);
          }
          // as written, an update always reports failure, so this never counts
          totalFilesUpdated := totalFilesUpdated + if updated then 1 else 0;
        }
      case (None, None) =>
    }
  }

  /** The loop of the two-way pass over every path of either map, acting on the trees in place. */
  method TwoWayPass(store: DocumentStore, sourceFiles: FileMap, destFiles: FileMap, now: int)
    returns (totalFilesCopied: nat, totalFilesUpdated: nat)
    modifies store
    ensures Run(Pass(Trees(old(store.source), old(store.dest)), 0, 0), sourceFiles, destFiles, UnionPaths(sourceFiles, destFiles), now)
      == Pass(Trees(store.source, store.dest), totalFilesCopied, totalFilesUpdated)
  {
    totalFilesCopied, totalFilesUpdated := 0, 0;
    var allPaths := UnionPaths(sourceFiles, destFiles);
    ghost var p0 := Pass(Trees(store.source, store.dest), 0, 0);
    var i := 0;
    while i < |allPaths|
      invariant 0 <= i <= |allPaths|
      invariant Run(p0, sourceFiles, destFiles, allPaths[..i], now)
        == Pass(Trees(store.source, store.dest), totalFilesCopied, totalFilesUpdated)
    {
      RunExtend(p0, sourceFiles, destFiles, allPaths, i, now);
      totalFilesCopied, totalFilesUpdated := SyncPath(store, sourceFiles, destFiles, allPaths[i], now, totalFilesCopied, totalFilesUpdated);
      i := i + 1;
    }
    assert allPaths[..i] == allPaths;
  }

  /**
   * `syncFolders` on the pair of trees held by `store`: the trees change in
   * place and the report is returned.
   */
  method SyncFolders(store: DocumentStore, twoWaySync: bool, now: int) returns (result: SyncResult)
    modifies store
    ensures var o := Synchronize(old(store.source), old(store.dest), twoWaySync, now);
      Trees(store.source, store.dest) == o.trees && result == o.result
  {
    if store.source.Deleted? {
      return SyncResult(false, 0, 0, 0, [SourceNotAccessible]);
    }
    if store.dest.Deleted? {
      return SyncResult(false, 0, 0, 0, [DestNotAccessible]);
    }
    var totalFilesScanned: nat := 0;
    var totalFilesCopied: nat := 0;
    var totalFilesUpdated: nat := 0;
    var errors: seq<string> := [];
    if twoWaySync {
      var sourceFiles := BuildFileMap(store.source, [], "");
      var destFiles := BuildFileMap(store.dest, [], "");
      totalFilesScanned := Max(|sourceFiles|, |destFiles|);
      totalFilesCopied, totalFilesUpdated := TwoWayPass(store, sourceFiles, destFiles, now);
    } else {
      var log := new ErrorLog();
      var counts := SyncDirectories(store, log, store.source, [], now);
      totalFilesScanned := counts.scanned;
      totalFilesCopied := counts.copied;
      totalFilesUpdated := counts.updated;
      errors := log.entries;
    }
    return SyncResult(errors == [], totalFilesScanned, totalFilesCopied, totalFilesUpdated, errors);
  }

  /**
   * A two-way sync of two existing roots always reports success with no
   * errors and no update; it scans as many files as the larger tree holds
   * (counting the distinct relative paths a flattening reaches), and copies at
   * most one file per path present in only one tree.
   */
  lemma TwoWayReport(source: Node, dest: Node, now: int)
    requires !source.Deleted? && !dest.Deleted?
    ensures var r := Synchronize(source, dest, true, now).result;
      var sourceKeys := KeySet(FileMapOf(source));
      var destKeys := KeySet(FileMapOf(dest));
      && r.success && r.errors == [] && r.filesUpdated == 0
      && r.filesScanned == Max(|sourceKeys|, |destKeys|)
      && r.filesCopied <= |(sourceKeys - destKeys) + (destKeys - sourceKeys)|
  {
    var sourceFiles := FileMapOf(source);
    var destFiles := FileMapOf(dest);
    var paths := UnionPaths(sourceFiles, destFiles);
    var p0 := Pass(Trees(source, dest), 0, 0);
    SizeIsKeyCount(sourceFiles);
    SizeIsKeyCount(destFiles);
    RunNeverUpdates(p0, sourceFiles, destFiles, paths, now);
    RunCopiesAtMostOneSided(p0, sourceFiles, destFiles, paths, now);
    UnionOneSided(sourceFiles, destFiles);
  }

  /**
   * A one-way sync onto a destination root whose folders all list and accept
   * new documents, from a source root whose documents all have unique names
   * and whose subdirectories meet directories (or nothing) of their names,
   * succeeds with no error, scans every document of the source, leaves the
   * source as it was, and leaves a destination that mirrors the source.
   */
  lemma OneWayMirrors(source: Node, dest: Node, now: int)
    requires source.Dir? && WellNamed(source)
    requires dest.Dir? && Tidy(dest) && Compatible(source, dest)
    ensures var o := Synchronize(source, dest, false, now);
      && o.result.success && o.result.errors == [] && o.result.filesScanned == Census(source)
      && o.trees.source == source && Tidy(o.trees.dest) && Mirrored(source, dest, o.trees.dest, now)
  {
    SyncDirsMirrors(source, dest, [], [], now);
  }

  /** Every entry of a flattened root lies below the root. */
  lemma FlattenedBelowRoot(root: Node)
    ensures BelowRoot(FileMapOf(root))
  {
    FlattenSound(root, [], "");
  }

  /** A flattened root is a map of it: entries are its files at their handles, one per path, apart. */
  lemma FlattenedIsMapOf(root: Node)
    ensures MapOf(FileMapOf(root), root)
  {
    var m := FileMapOf(root);
    FlattenSound(root, [], "");
    forall e | e in m ensures e.at != [] && At(root, e.at) == Some(e.file) && e.file.File? {
      assert e.at[0..] == e.at;
    }
    forall e, f | e in m && f in m && e.relativePath != f.relativePath ensures Apart(e.at, f.at) {
      FoundApart(root, e, f);
    }
  }

  /** Two reachable files of a root lie at handles apart, or are the same file under the same path. */
  lemma FoundApart(root: Node, e: FileInfo, f: FileInfo)
    requires Found(root, [], "", e) && Found(root, [], "", f)
    ensures Apart(e.at, f.at) || e.relativePath == f.relativePath
  {
    assert e.at[0..] == e.at && f.at[0..] == f.at;
    if !Apart(e.at, f.at) {
      NotApart(e.at, f.at);
      if |e.at| < |f.at| {
        AtConcat(root, e.at, f.at[|e.at|..]);
      } else if |f.at| < |e.at| {
        AtConcat(root, f.at, e.at[|f.at|..]);
      } else {
        assert e.at == f.at;
      }
    }
  }

  /**
   * Between two directory trees without handle-level failures, a two-way sync
   * copies every file whose path is present in only one tree: the other tree
   * then holds a file named after the path's last part, with the original's
   * bytes, under directories named after the path's other parts, and the
   * original stays where it was. Both trees are left free of failures.
   */
  lemma TwoWayCopiesEveryMissing(source: Node, dest: Node, now: int)
    requires Healthy(source) && Healthy(dest)
    ensures var o := Synchronize(source, dest, true, now);
      var sourceKeys := KeySet(FileMapOf(source));
      var destKeys := KeySet(FileMapOf(dest));
      && o.result.filesCopied == |(sourceKeys - destKeys) + (destKeys - sourceKeys)|
      && Healthy(o.trees.source) && Healthy(o.trees.dest)
      && (forall e :: e in FileMapOf(source) && e.relativePath !in destKeys ==>
            && At(o.trees.source, e.at) == Some(e.file)
            && HasCopy(o.trees.dest, e, now))
      && (forall e :: e in FileMapOf(dest) && e.relativePath !in sourceKeys ==>
            && At(o.trees.dest, e.at) == Some(e.file)
            && HasCopy(o.trees.source, e, now))
  {
    var sourceFiles := FileMapOf(source);
    var destFiles := FileMapOf(dest);
    var paths := UnionPaths(sourceFiles, destFiles);
    var p0 := Pass(Trees(source, dest), 0, 0);
    FlattenedBelowRoot(source);
    FlattenedBelowRoot(dest);
    FlattenedIsMapOf(source);
    FlattenedIsMapOf(dest);
    RunCopiesEveryOneSided(p0, sourceFiles, destFiles, paths, now);
    UnionOneSided(sourceFiles, destFiles);
    UnionPathsVisitsEachOnce(sourceFiles, destFiles);
    RunPlacesEveryOneSided(p0, sourceFiles, destFiles, paths, now);
    var t := Run(p0, sourceFiles, destFiles, paths, now).trees;
    TrackedPlacesAll(t.dest, destFiles, sourceFiles, paths, now);
    TrackedPlacesAll(t.source, sourceFiles, destFiles, paths, now);
  }

  /**
   * Between two directory trees without handle-level failures, a two-way sync
   * deletes exactly the files of a path both trees hold that are older by more
   * than the tolerance than the other tree's file of that path; every other
   * file of either tree, the newer copy and both copies within the tolerance
   * included, stays where it was.
   */
  lemma TwoWayDeletesOnlyOlder(source: Node, dest: Node, now: int)
    requires Healthy(source) && Healthy(dest)
    ensures var o := Synchronize(source, dest, true, now);
      && (forall e :: e in FileMapOf(source) ==>
            At(o.trees.source, e.at) == if Loses(e, FileMapOf(dest)) then Some(Deleted) else Some(e.file))
      && (forall e :: e in FileMapOf(dest) ==>
            At(o.trees.dest, e.at) == if Loses(e, FileMapOf(source)) then Some(Deleted) else Some(e.file))
  {
    var sourceFiles := FileMapOf(source);
    var destFiles := FileMapOf(dest);
    var paths := UnionPaths(sourceFiles, destFiles);
    var p0 := Pass(Trees(source, dest), 0, 0);
    FlattenedIsMapOf(source);
    FlattenedIsMapOf(dest);
    UnionPathsVisitsEachOnce(sourceFiles, destFiles);
    RunPlacesEveryOneSided(p0, sourceFiles, destFiles, paths, now);
    var t := Run(p0, sourceFiles, destFiles, paths, now).trees;
    TrackedHoldsAll(t.dest, destFiles, sourceFiles, paths, now);
    TrackedHoldsAll(t.source, sourceFiles, destFiles, paths, now);
  }

  /**
   * A two-way sync of trees that hold the same relative paths, with
   * timestamps that pair up within the tolerance, changes nothing and reports
   * nothing copied or updated.
   */
  lemma TwoWayIdleWhenInSync(source: Node, dest: Node, now: int)
    requires !source.Deleted? && !dest.Deleted?
    requires KeySet(FileMapOf(source)) == KeySet(FileMapOf(dest))
    requires forall e, f :: e in FileMapOf(source) && f in FileMapOf(dest) && e.relativePath == f.relativePath ==>
                              Abs(LastModified(e.file) - LastModified(f.file)) <= Tolerance
    ensures var o := Synchronize(source, dest, true, now);
      o.trees == Trees(source, dest) && o.result.filesCopied == 0 && o.result.filesUpdated == 0
  {
    var sourceFiles := FileMapOf(source);
    var destFiles := FileMapOf(dest);
    var paths := UnionPaths(sourceFiles, destFiles);
    UnionPathsVisitsEachOnce(sourceFiles, destFiles);
    assert Converged(sourceFiles, destFiles, paths) by {
      forall i | 0 <= i < |paths|
        ensures Get(sourceFiles, paths[i]).Some? && Get(destFiles, paths[i]).Some?
      {
        assert paths[i] in paths;
      }
    }
    RunConvergedIsIdle(Pass(Trees(source, dest), 0, 0), sourceFiles, destFiles, paths, now);
  }
}
