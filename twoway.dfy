/**
 * The two-way pass of `syncFolders`: every path in the union of both
 * flattened trees is classified and acted on once, in the union's order.
 */
module TwoWay {
  import opened Wrappers
  import opened Documents
  import opened FileMaps
  import opened Transfer

  function Abs(x: int): nat {
    if x < 0 then -x else x
  }

  /** The two trees of a pair. */
  datatype Trees = Trees(source: Node, dest: Node)

  /** The state of a pass: the trees and the counters `totalFilesCopied`, `totalFilesUpdated`. */
  datatype Pass = Pass(trees: Trees, copied: nat, updated: nat)

  predicate NoDuplicates(s: seq<string>) {
    forall i, j :: 0 <= i < j < |s| ==> s[i] != s[j]
  }

  /** `map.keys`, in the map's order. */
  function Keys(m: FileMap): (keys: seq<string>)
    ensures |keys| == |m| && forall i :: 0 <= i < |m| ==> keys[i] == m[i].relativePath
  {
    seq(|m|, i requires 0 <= i < |m| => m[i].relativePath)
  }

  /** The members of `keys` not in `known`, in order. */
  function Fresh(keys: seq<string>, known: set<string>): (r: seq<string>)
    ensures forall k :: k in r <==> k in keys && k !in known
    ensures NoDuplicates(keys) ==> NoDuplicates(r)
  {
    if keys == [] then []
    else
      var rest := Fresh(keys[1..], known);
      assert forall k :: k in keys <==> k == keys[0] || k in keys[1..];
      if keys[0] in known then rest else [keys[0]] + rest
  }

  /** `(sourceFiles.keys + destFiles.keys).toSet()`: the source's keys in order, then the
    * destination's keys the source lacks, in order. */
  function UnionPaths(sourceFiles: FileMap, destFiles: FileMap): seq<string> {
    Keys(sourceFiles) + Fresh(Keys(destFiles), KeySet(sourceFiles))
  }

  /** Each path of either tree is visited, and only once. */
  lemma UnionPathsVisitsEachOnce(sourceFiles: FileMap, destFiles: FileMap)
    requires UniqueKeys(sourceFiles) && UniqueKeys(destFiles)
    ensures NoDuplicates(UnionPaths(sourceFiles, destFiles))
    ensures forall k :: k in UnionPaths(sourceFiles, destFiles) <==> k in KeySet(sourceFiles) + KeySet(destFiles)
  {
    var a := Keys(sourceFiles);
    var b := Fresh(Keys(destFiles), KeySet(sourceFiles));
    assert forall k :: k in a <==> k in KeySet(sourceFiles) by {
      forall k | k in KeySet(sourceFiles) ensures k in a {
        var i :| 0 <= i < |sourceFiles| && sourceFiles[i].relativePath == k;
        assert a[i] == k;
      }
    }
    assert forall k :: k in Keys(destFiles) <==> k in KeySet(destFiles) by {
      forall k | k in KeySet(destFiles) ensures k in Keys(destFiles) {
        var i :| 0 <= i < |destFiles| && destFiles[i].relativePath == k;
        assert Keys(destFiles)[i] == k;
      }
    }
    forall i, j | 0 <= i < j < |a + b| ensures (a + b)[i] != (a + b)[j] {
      if j >= |a| && i < |a| {
        assert (a + b)[j] in b;
      } else if i >= |a| {
        assert b[i - |a|] != b[j - |a|];
      }
    }
  }

  /** The action for one path. */
  function Step(p: Pass, sourceFiles: FileMap, destFiles: FileMap, path: string, now: int): Pass {
    var t := p.trees;
    match (Get(sourceFiles, path), Get(destFiles, path))
    case (Some(s), None) =>
      // only in the source: copy to the destination
      var c := CopyToPath(t.dest, s.file, s.relativePath, now);
      Pass(Trees(t.source, c.tree), if c.at.Some? then p.copied + 1 else p.copied, p.updated)
    case (None, Some(d)) =>
      // only in the destination: copy to the source
      var c := CopyToPath(t.source, d.file, d.relativePath, now);
      Pass(Trees(c.tree, t.dest), if c.at.Some? then p.copied + 1 else p.copied, p.updated)
    case (Some(s), Some(d)) =>
      var sourceModified := LastModified(s.file);
      var destModified := LastModified(d.file);
      if Abs(sourceModified - destModified) > Tolerance then
        if sourceModified > destModified then
          var u := UpdateEffect(t.dest, d.at);
          Pass(Trees(t.source, u.tree), p.copied, if u.ok then p.updated + 1 else p.updated)
        else
          var u := UpdateEffect(t.source, s.at);
          Pass(Trees(u.tree, t.dest), p.copied, if u.ok then p.updated + 1 else p.updated)
      else p
    case (None, None) => p
  }

  /** The loop over `paths`, from the state `p0`. */
  function Run(p0: Pass, sourceFiles: FileMap, destFiles: FileMap, paths: seq<string>, now: int): Pass
    decreases |paths|
  {
    if paths == [] then p0
    else Step(Run(p0, sourceFiles, destFiles, paths[..|paths| - 1], now), sourceFiles, destFiles, paths[|paths| - 1], now)
  }

  /** The loop over one more path is one more step. */
  lemma RunExtend(p0: Pass, sourceFiles: FileMap, destFiles: FileMap, paths: seq<string>, i: nat, now: int)
    requires i < |paths|
    ensures Run(p0, sourceFiles, destFiles, paths[..i + 1], now)
      == Step(Run(p0, sourceFiles, destFiles, paths[..i], now), sourceFiles, destFiles, paths[i], now)
  {
    assert paths[..i + 1][..i] == paths[..i];
  }

  /**
   * One path's outcome, case by case: a path on one side only is copied to the
   * other side, the side that has it is untouched, and the copy counts only if
   * it succeeds; a path on both sides whose timestamps are within the
   * tolerance changes nothing; otherwise the older copy is deleted (the side
   * with the strictly greater timestamp wins), nothing is counted, and the
   * newer side is untouched.
   */
  lemma StepCases(p: Pass, sourceFiles: FileMap, destFiles: FileMap, path: string, now: int)
    ensures var q := Step(p, sourceFiles, destFiles, path, now);
      var s := Get(sourceFiles, path);
      var d := Get(destFiles, path);
      && (s.Some? && d.None? ==>
            var c := CopyToPath(p.trees.dest, s.value.file, s.value.relativePath, now);
            && q.trees == Trees(p.trees.source, c.tree)
            && q.copied == p.copied + (if c.at.Some? then 1 else 0) && q.updated == p.updated)
      && (s.None? && d.Some? ==>
            var c := CopyToPath(p.trees.source, d.value.file, d.value.relativePath, now);
            && q.trees == Trees(c.tree, p.trees.dest)
            && q.copied == p.copied + (if c.at.Some? then 1 else 0) && q.updated == p.updated)
      && (s.Some? && d.Some? && Abs(LastModified(s.value.file) - LastModified(d.value.file)) <= Tolerance ==>
            q == p)
      && (s.Some? && d.Some? && LastModified(s.value.file) > LastModified(d.value.file) + Tolerance ==>
            q == Pass(Trees(p.trees.source, Replace(p.trees.dest, d.value.at, Deleted)), p.copied, p.updated))
      && (s.Some? && d.Some? && LastModified(d.value.file) > LastModified(s.value.file) + Tolerance ==>
            q == Pass(Trees(Replace(p.trees.source, s.value.at, Deleted), p.trees.dest), p.copied, p.updated))
  {
  }

  /** As written, a two-way pass never counts an update: every update reports failure. */
  lemma {:induction false} RunNeverUpdates(p0: Pass, sourceFiles: FileMap, destFiles: FileMap, paths: seq<string>, now: int)
    ensures Run(p0, sourceFiles, destFiles, paths, now).updated == p0.updated
    decreases |paths|
  {
    if paths != [] {
      RunNeverUpdates(p0, sourceFiles, destFiles, paths[..|paths| - 1], now);
    }
  }

  /** The number of paths present on exactly one side. */
  function OneSided(sourceFiles: FileMap, destFiles: FileMap, paths: seq<string>): nat
    decreases |paths|
  {
    if paths == [] then 0
    else
      var path := paths[|paths| - 1];
      OneSided(sourceFiles, destFiles, paths[..|paths| - 1])
        + if Get(sourceFiles, path).Some? != Get(destFiles, path).Some? then 1 else 0
  }

  /** Only paths present on one side can be counted as copied. */
  lemma {:induction false} RunCopiesAtMostOneSided(p0: Pass, sourceFiles: FileMap, destFiles: FileMap, paths: seq<string>, now: int)
    ensures Run(p0, sourceFiles, destFiles, paths, now).copied <= p0.copied + OneSided(sourceFiles, destFiles, paths)
    decreases |paths|
  {
    if paths != [] {
      RunCopiesAtMostOneSided(p0, sourceFiles, destFiles, paths[..|paths| - 1], now);
    }
  }

  /** A tree root that is a directory without handle-level failures. */
  predicate Healthy(n: Node) {
    n.Dir? && Open(n)
  }

  /** Handles taken from a flattened map point below the root. */
  predicate BelowRoot(m: FileMap) {
    forall e :: e in m ==> e.at != []
  }

  lemma HealthyAfterDelete(n: Node, at: Loc)
    requires Healthy(n) && at != []
    ensures Healthy(Replace(n, at, Deleted))
  {
    OpenReplace(n, at, Deleted);
  }

  lemma HealthyAfterCopy(n: Node, src: Node, relativePath: string, now: int)
    requires Healthy(n)
    ensures CopyToPath(n, src, relativePath, now).at.Some?
    ensures Healthy(CopyToPath(n, src, relativePath, now).tree)
  {
    var parts := Paths.Split(relativePath, Paths.Separator);
    CopyIntoOpen(n, parts[..|parts| - 1], parts[|parts| - 1], src, now);
    CopyIntoGrows(n, parts[..|parts| - 1], parts[|parts| - 1], src, now);
  }

  /** Barring handle-level failures, every path present on one side only is copied and counted. */
  lemma {:induction false} RunCopiesEveryOneSided(p0: Pass, sourceFiles: FileMap, destFiles: FileMap, paths: seq<string>, now: int)
    requires Healthy(p0.trees.source) && Healthy(p0.trees.dest)
    requires BelowRoot(sourceFiles) && BelowRoot(destFiles)
    ensures var p := Run(p0, sourceFiles, destFiles, paths, now);
      && p.copied == p0.copied + OneSided(sourceFiles, destFiles, paths)
      && Healthy(p.trees.source) && Healthy(p.trees.dest)
    decreases |paths|
  {
    if paths != [] {
      var prefix := paths[..|paths| - 1];
      var path := paths[|paths| - 1];
      RunCopiesEveryOneSided(p0, sourceFiles, destFiles, prefix, now);
      var p := Run(p0, sourceFiles, destFiles, prefix, now);
      match (Get(sourceFiles, path), Get(destFiles, path))
      case (Some(s), None) =>
        HealthyAfterCopy(p.trees.dest, s.file, s.relativePath, now);
      case (None, Some(d)) =>
        HealthyAfterCopy(p.trees.source, d.file, d.relativePath, now);
      case (Some(s), Some(d)) =>
        HealthyAfterDelete(p.trees.dest, d.at);
        HealthyAfterDelete(p.trees.source, s.at);
      case (None, None) =>
    }
  }

  /** The last part of a relative path: the name a copy gives the file. */
  function FileNameOf(relativePath: string): string {
    var parts := Paths.Split(relativePath, Paths.Separator);
    parts[|parts| - 1]
  }

  /** Entries that are files, one per path, where entries of distinct paths have handles apart. */
  predicate WellKeyed(m: FileMap) {
    && UniqueKeys(m)
    && (forall e :: e in m ==> e.file.File?)
    && (forall e, f :: e in m && f in m && e.relativePath != f.relativePath ==> Apart(e.at, f.at))
  }

  /** `m` is a map of the tree `root`: each entry is the file at its handle, below the root. */
  predicate MapOf(m: FileMap, root: Node) {
    WellKeyed(m) && forall e :: e in m ==> e.at != [] && At(root, e.at) == Some(e.file)
  }

  /** The entry `e` of one side loses to the other side's entry of its path, which is newer
    * by more than the tolerance. */
  predicate Loses(e: FileInfo, other: FileMap) {
    var o := Get(other, e.relativePath);
    o.Some? && LastModified(o.value.file) > LastModified(e.file) + Tolerance
  }

  /** In `t`, every entry of `m` whose path was passed and which loses to `other` is deleted,
    * and every other entry of `m` is still its file. */
  predicate Holds(t: Node, m: FileMap, other: FileMap, paths: seq<string>) {
    forall e :: e in m ==>
      At(t, e.at) == if e.relativePath in paths && Loses(e, other) then Some(Deleted) else Some(e.file)
  }

  /** The handle `l` is apart from the handle of every entry of `m`. */
  predicate Clear(m: FileMap, l: Loc) {
    forall e :: e in m ==> Apart(e.at, l)
  }

  /** A copy of the entry `e`, named after the last part of its path and holding its bytes, sits in `t`
    * under directories named after the other parts, apart from every entry of `m`. */
  ghost predicate Placed(t: Node, e: FileInfo, m: FileMap, now: int) {
    exists l :: && Clear(m, l)
                && At(t, l) == Some(NewFile(e.file, FileNameOf(e.relativePath), now))
                && NamesAlong(t, l) == Somes(Paths.Split(e.relativePath, Paths.Separator))
  }

  /**
   * The tree `t` of one side, whose own map is `own`, during a pass over
   * `paths`: it has no handle-level failure, exactly its entries whose path
   * was passed and which lose to the other side are deleted, the others are
   * intact, and every entry of the other side's map `other` whose path was
   * passed and which `own` lacks is placed in it.
   */
  ghost predicate Tracked(t: Node, own: FileMap, other: FileMap, paths: seq<string>, now: int) {
    && Healthy(t) && Holds(t, own, other, paths)
    && forall e :: e in other && e.relativePath in paths && e.relativePath !in KeySet(own) ==> Placed(t, e, own, now)
  }

  /** Two entries of a map with unique keys that share a path are the same entry. */
  lemma SamePathSameEntry(m: FileMap, e: FileInfo, f: FileInfo)
    requires UniqueKeys(m) && e in m && f in m && e.relativePath == f.relativePath
    ensures e == f
  {
    var i :| 0 <= i < |m| && m[i] == e;
    var j :| 0 <= j < |m| && m[j] == f;
  }

  /** A handle created by a growth where nothing was is apart from every file or deleted document. */
  lemma ClearOfNew(t: Node, t2: Node, x: Loc, l: Loc)
    requires Grows(t, t2) && At(t, x).Some? && !At(t, x).value.Dir?
    requires At(t, l).None? && At(t2, l).Some?
    ensures Apart(x, l)
  {
    if !Apart(x, l) {
      NotApart(x, l);
      if |x| < |l| {
        GrowsAt(t, t2, x);
        AtConcat(t2, x, l[|x|..]);
      } else if |l| < |x| {
        AtConcat(t, l, x[|l|..]);
      }
    }
  }

  /** Growth keeps a side tracked. */
  lemma TrackGrows(t: Node, t2: Node, own: FileMap, other: FileMap, paths: seq<string>, now: int)
    requires Grows(t, t2) && Healthy(t2) && WellKeyed(own) && Tracked(t, own, other, paths, now)
    ensures Tracked(t2, own, other, paths, now)
  {
    forall e | e in own ensures At(t2, e.at) == At(t, e.at) {
      GrowsAt(t, t2, e.at);
    }
    forall e | e in other && e.relativePath in paths && e.relativePath !in KeySet(own)
      ensures Placed(t2, e, own, now)
    {
      var l :| && Clear(own, l)
                && At(t, l) == Some(NewFile(e.file, FileNameOf(e.relativePath), now))
                && NamesAlong(t, l) == Somes(Paths.Split(e.relativePath, Paths.Separator));
      GrowsAt(t, t2, l);
    }
  }

  /** Passing the path of an entry that loses to the other side, and deleting its file, keeps a side tracked. */
  lemma TrackDelete(t: Node, own: FileMap, other: FileMap, paths: seq<string>, now: int, d: FileInfo)
    requires d in own && Loses(d, other) && d.at != []
    requires WellKeyed(own) && Tracked(t, own, other, paths, now)
    ensures Tracked(Replace(t, d.at, Deleted), own, other, paths + [d.relativePath], now)
  {
    var t2 := Replace(t, d.at, Deleted);
    HealthyAfterDelete(t, d.at);
    AtReplace(t, d.at, Deleted);
    forall e | e in own && e != d ensures At(t2, e.at) == At(t, e.at) {
      if e.relativePath == d.relativePath {
        SamePathSameEntry(own, e, d);
      }
      AtReplaceApart(t, d.at, e.at, Deleted);
    }
    forall e | e in other && e.relativePath in paths && e.relativePath !in KeySet(own)
      ensures Placed(t2, e, own, now)
    {
      var l :| && Clear(own, l)
                && At(t, l) == Some(NewFile(e.file, FileNameOf(e.relativePath), now))
                && NamesAlong(t, l) == Somes(Paths.Split(e.relativePath, Paths.Separator));
      AtReplaceApart(t, d.at, l, Deleted);
      NamesAlongReplaceApart(t, d.at, l, Deleted);
    }
  }

  /** Copying in the entry `s` of the other side, whose path this side lacks, succeeds and places it. */
  lemma TrackCopy(t: Node, own: FileMap, other: FileMap, paths: seq<string>, now: int, s: FileInfo)
    requires s in other && s.relativePath !in KeySet(own)
    requires WellKeyed(own) && UniqueKeys(other) && Tracked(t, own, other, paths, now)
    ensures var c := CopyToPath(t, s.file, s.relativePath, now);
      c.at.Some? && Tracked(c.tree, own, other, paths + [s.relativePath], now)
  {
    var c := CopyToPath(t, s.file, s.relativePath, now);
    HealthyAfterCopy(t, s.file, s.relativePath, now);
    CopyToPathPlaces(t, s.file, s.relativePath, now);
    TrackGrows(t, c.tree, own, other, paths, now);
    var l := c.at.value;
    forall e | e in own ensures Apart(e.at, l) {
      ClearOfNew(t, c.tree, e.at, l);
    }
    assert Placed(c.tree, s, own, now);
    forall e | e in other && e.relativePath in paths + [s.relativePath] && e.relativePath !in KeySet(own)
      ensures Placed(c.tree, e, own, now)
    {
      if e.relativePath !in paths {
        SamePathSameEntry(other, e, s);
      }
    }
  }

  /** Passing a path that copies nothing into this side and whose entry here (if any) does not
    * lose keeps it tracked. */
  lemma TrackPass(t: Node, own: FileMap, other: FileMap, paths: seq<string>, now: int, path: string)
    requires !(path in KeySet(other) && path !in KeySet(own))
    requires Get(own, path).Some? ==> !Loses(Get(own, path).value, other)
    requires UniqueKeys(own) && Tracked(t, own, other, paths, now)
    ensures Tracked(t, own, other, paths + [path], now)
  {
    forall e | e in own && e.relativePath == path ensures !Loses(e, other) {
      SamePathSameEntry(own, e, Get(own, path).value);
    }
  }

  /** One step keeps both sides tracked. */
  lemma StepTracks(p: Pass, sourceFiles: FileMap, destFiles: FileMap, paths: seq<string>, path: string, now: int)
    requires WellKeyed(sourceFiles) && WellKeyed(destFiles) && BelowRoot(sourceFiles) && BelowRoot(destFiles)
    requires Tracked(p.trees.source, sourceFiles, destFiles, paths, now)
    requires Tracked(p.trees.dest, destFiles, sourceFiles, paths, now)
    ensures var q := Step(p, sourceFiles, destFiles, path, now);
      && Tracked(q.trees.source, sourceFiles, destFiles, paths + [path], now)
      && Tracked(q.trees.dest, destFiles, sourceFiles, paths + [path], now)
  {
    var t := p.trees;
    StepCases(p, sourceFiles, destFiles, path, now);
    match (Get(sourceFiles, path), Get(destFiles, path))
    case (Some(s), None) =>
      TrackCopy(t.dest, destFiles, sourceFiles, paths, now, s);
      TrackPass(t.source, sourceFiles, destFiles, paths, now, path);
    case (None, Some(d)) =>
      TrackCopy(t.source, sourceFiles, destFiles, paths, now, d);
      TrackPass(t.dest, destFiles, sourceFiles, paths, now, path);
    case (Some(s), Some(d)) =>
      if LastModified(s.file) > LastModified(d.file) + Tolerance {
        TrackDelete(t.dest, destFiles, sourceFiles, paths, now, d);
        TrackPass(t.source, sourceFiles, destFiles, paths, now, path);
      } else if LastModified(d.file) > LastModified(s.file) + Tolerance {
        TrackDelete(t.source, sourceFiles, destFiles, paths, now, s);
        TrackPass(t.dest, destFiles, sourceFiles, paths, now, path);
      } else {
        TrackPass(t.source, sourceFiles, destFiles, paths, now, path);
        TrackPass(t.dest, destFiles, sourceFiles, paths, now, path);
      }
    case (None, None) =>
      TrackPass(t.source, sourceFiles, destFiles, paths, now, path);
      TrackPass(t.dest, destFiles, sourceFiles, paths, now, path);
  }

  /**
   * Barring handle-level failures, a pass over `paths` places in each tree a
   * copy of every file of the other tree whose path was passed and which
   * this tree lacks, named along that path and holding the file's bytes, and
   * leaves every such original file where it was; of the files whose path
   * was passed, exactly those older by more than the tolerance than the other
   * tree's file of their path are deleted, and every other file stays.
   */
  lemma {:induction false} RunPlacesEveryOneSided(p0: Pass, sourceFiles: FileMap, destFiles: FileMap, paths: seq<string>, now: int)
    requires Healthy(p0.trees.source) && Healthy(p0.trees.dest)
    requires MapOf(sourceFiles, p0.trees.source) && MapOf(destFiles, p0.trees.dest)
    ensures var t := Run(p0, sourceFiles, destFiles, paths, now).trees;
      && Tracked(t.source, sourceFiles, destFiles, paths, now)
      && Tracked(t.dest, destFiles, sourceFiles, paths, now)
    decreases |paths|
  {
    if paths != [] {
      var prefix, last := paths[..|paths| - 1], paths[|paths| - 1];
      assert prefix + [last] == paths;
      var p := Run(p0, sourceFiles, destFiles, prefix, now);
      assert Run(p0, sourceFiles, destFiles, paths, now) == Step(p, sourceFiles, destFiles, last, now);
      RunPlacesEveryOneSided(p0, sourceFiles, destFiles, prefix, now);
      StepTracks(p, sourceFiles, destFiles, prefix, last, now);
    }
  }

  /** A copy of the file `e` sits in `t`: named after the last part of `e`'s path, holding `e`'s
    * bytes, under directories named after the path's other parts. */
  ghost predicate HasCopy(t: Node, e: FileInfo, now: int) {
    exists l :: && At(t, l) == Some(NewFile(e.file, FileNameOf(e.relativePath), now))
                && NamesAlong(t, l) == Somes(Paths.Split(e.relativePath, Paths.Separator))
  }

  /** Once every path of the other side is passed, each of its files this side lacks has a copy here,
    * and each of this side's files the other side lacks is still here. */
  lemma TrackedPlacesAll(t: Node, own: FileMap, other: FileMap, paths: seq<string>, now: int)
    requires Tracked(t, own, other, paths, now) && forall k :: k in KeySet(other) ==> k in paths
    ensures forall e :: e in other && e.relativePath !in KeySet(own) ==> HasCopy(t, e, now)
    ensures forall e :: e in own && e.relativePath !in KeySet(other) ==> At(t, e.at) == Some(e.file)
  {
    forall e | e in other && e.relativePath !in KeySet(own) ensures HasCopy(t, e, now) {
      var i :| 0 <= i < |other| && other[i] == e;
      assert e.relativePath in KeySet(other);
      assert Placed(t, e, own, now);
    }
  }

  /** Once every path of this side is passed, exactly its files that lose to the other side are
    * deleted, and every other file is still where it was. */
  lemma TrackedHoldsAll(t: Node, own: FileMap, other: FileMap, paths: seq<string>, now: int)
    requires Tracked(t, own, other, paths, now) && forall k :: k in KeySet(own) ==> k in paths
    ensures forall e :: e in own ==> At(t, e.at) == if Loses(e, other) then Some(Deleted) else Some(e.file)
  {
    forall e | e in own ensures e.relativePath in paths {
      var i :| 0 <= i < |own| && own[i] == e;
      assert e.relativePath in KeySet(own);
    }
  }

  /** Two maps that agree on their paths and whose timestamps are all within the tolerance. */
  predicate Converged(sourceFiles: FileMap, destFiles: FileMap, paths: seq<string>) {
    forall i :: 0 <= i < |paths| ==>
      && Get(sourceFiles, paths[i]).Some? && Get(destFiles, paths[i]).Some?
      && Abs(LastModified(Get(sourceFiles, paths[i]).value.file) - LastModified(Get(destFiles, paths[i]).value.file)) <= Tolerance
  }

  /** A pass over trees that are already in sync changes nothing and counts nothing. */
  lemma {:induction false} RunConvergedIsIdle(p0: Pass, sourceFiles: FileMap, destFiles: FileMap, paths: seq<string>, now: int)
    requires Converged(sourceFiles, destFiles, paths)
    ensures Run(p0, sourceFiles, destFiles, paths, now) == p0
    decreases |paths|
  {
    if paths != [] {
      var prefix := paths[..|paths| - 1];
      assert Converged(sourceFiles, destFiles, prefix) by {
        forall i | 0 <= i < |prefix| ensures prefix[i] == paths[i] { }
      }
      RunConvergedIsIdle(p0, sourceFiles, destFiles, prefix, now);
    }
  }

  /** The paths of `paths` present on exactly one side. */
  function OneSidedSet(sourceFiles: FileMap, destFiles: FileMap, paths: seq<string>): set<string> {
    set k | k in paths && (k in KeySet(sourceFiles)) != (k in KeySet(destFiles))
  }

  /** Over paths without repetition, `OneSided` counts the distinct one-sided paths. */
  lemma {:induction false} OneSidedCounts(sourceFiles: FileMap, destFiles: FileMap, paths: seq<string>)
    requires NoDuplicates(paths)
    ensures OneSided(sourceFiles, destFiles, paths) == |OneSidedSet(sourceFiles, destFiles, paths)|
    decreases |paths|
  {
    if paths != [] {
      var prefix := paths[..|paths| - 1];
      var last := paths[|paths| - 1];
      assert paths == prefix + [last];
      OneSidedCounts(sourceFiles, destFiles, prefix);
      assert last !in prefix;
      if (last in KeySet(sourceFiles)) != (last in KeySet(destFiles)) {
        assert OneSidedSet(sourceFiles, destFiles, paths) == OneSidedSet(sourceFiles, destFiles, prefix) + {last};
      } else {
        assert OneSidedSet(sourceFiles, destFiles, paths) == OneSidedSet(sourceFiles, destFiles, prefix);
      }
    }
  }

  /** Over the union of both maps' paths, the one-sided paths are the keys of one map missing from the other. */
  lemma UnionOneSided(sourceFiles: FileMap, destFiles: FileMap)
    requires UniqueKeys(sourceFiles) && UniqueKeys(destFiles)
    ensures OneSided(sourceFiles, destFiles, UnionPaths(sourceFiles, destFiles))
      == |(KeySet(sourceFiles) - KeySet(destFiles)) + (KeySet(destFiles) - KeySet(sourceFiles))|
  {
    var paths := UnionPaths(sourceFiles, destFiles);
    UnionPathsVisitsEachOnce(sourceFiles, destFiles);
    OneSidedCounts(sourceFiles, destFiles, paths);
    assert OneSidedSet(sourceFiles, destFiles, paths)
      == (KeySet(sourceFiles) - KeySet(destFiles)) + (KeySet(destFiles) - KeySet(sourceFiles));
  }
}
