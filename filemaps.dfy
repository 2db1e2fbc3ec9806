/**
 * Tree flattening (`buildFileMap`): a directory tree becomes a map from
 * `/`-joined relative path to the file found there.
 *
 * The Kotlin map is a `LinkedHashMap`, so it is modelled as a sequence of
 * entries in insertion order with unique keys: storing under a key that is
 * already present replaces that entry in place, any other key is appended.
 */
module FileMaps {
  import opened Wrappers
  import opened Documents
  import opened Paths

  /** `FileInfo`: a file handle together with the relative path it was found under. */
  datatype FileInfo = FileInfo(file: Node, at: Loc, relativePath: string)

  type FileMap = seq<FileInfo>

  function KeySet(m: FileMap): set<string> {
    set i | 0 <= i < |m| :: m[i].relativePath
  }

  predicate UniqueKeys(m: FileMap) {
    forall i, j :: 0 <= i < j < |m| ==> m[i].relativePath != m[j].relativePath
  }

  /** The position of the entry stored under `key`. */
  function IndexOf(m: FileMap, key: string): (r: Option<nat>)
    ensures r.Some? ==> r.value < |m| && m[r.value].relativePath == key
    ensures r.Some? ==> forall i :: 0 <= i < r.value ==> m[i].relativePath != key
    ensures r.None? ==> forall i :: 0 <= i < |m| ==> m[i].relativePath != key
    decreases |m|
  {
    if m == [] then None
    else if m[0].relativePath == key then Some(0)
    else match IndexOf(m[1..], key)
      case Some(i) => Some(i + 1)
      case None => None
  }

  /** The first position holding `key` is the one `IndexOf` finds. */
  lemma IndexOfIs(m: FileMap, key: string, j: nat)
    requires j < |m| && m[j].relativePath == key
    requires forall i :: 0 <= i < j ==> m[i].relativePath != key
    ensures IndexOf(m, key) == Some(j)
  {
  }

  /** `map[key]`: the entry stored under `key`, or null. */
  function Get(m: FileMap, key: string): (r: Option<FileInfo>)
    ensures r.Some? <==> key in KeySet(m)
    ensures r.Some? ==> r.value in m && r.value.relativePath == key
  {
    match IndexOf(m, key)
    case Some(i) => Some(m[i])
    case None => None
  }

  /** `map[e.relativePath] = e`. */
  function Put(m: FileMap, e: FileInfo): (r: FileMap)
    ensures KeySet(r) == KeySet(m) + {e.relativePath}
    ensures UniqueKeys(m) ==> UniqueKeys(r)
    ensures forall x :: x in r ==> x in m || x == e
    ensures Get(r, e.relativePath) == Some(e)
    ensures forall k :: k != e.relativePath ==> Get(r, k) == Get(m, k)
  {
    match IndexOf(m, e.relativePath)
    case Some(i) =>
      var r := m[i := e];
      IndexOfIs(r, e.relativePath, i);
      assert forall k :: k != e.relativePath ==> Get(r, k) == Get(m, k) by {
        forall k | k != e.relativePath ensures Get(r, k) == Get(m, k) {
          if IndexOf(m, k).Some? {
            IndexOfIs(r, k, IndexOf(m, k).value);
          }
        }
      }
      assert KeySet(r) == KeySet(m) by {
        forall k | k in KeySet(m) ensures k in KeySet(r) {
          var j :| 0 <= j < |m| && m[j].relativePath == k;
          assert r[j].relativePath == k;
        }
        forall k | k in KeySet(r) ensures k in KeySet(m) {
          var j :| 0 <= j < |r| && r[j].relativePath == k;
          assert m[j].relativePath == k;
        }
      }
      r
    case None =>
      var r := m + [e];
      IndexOfIs(r, e.relativePath, |m|);
      assert forall k :: k != e.relativePath ==> Get(r, k) == Get(m, k) by {
        forall k | k != e.relativePath ensures Get(r, k) == Get(m, k) {
          if IndexOf(m, k).Some? {
            IndexOfIs(r, k, IndexOf(m, k).value);
          }
        }
      }
      assert KeySet(r) == KeySet(m) + {e.relativePath} by {
        forall k | k in KeySet(m) ensures k in KeySet(r) {
          var j :| 0 <= j < |m| && m[j].relativePath == k;
          assert r[j].relativePath == k;
        }
        assert r[|m|].relativePath == e.relativePath;
      }
      r
  }

  lemma KeySetFirst(m: FileMap)
    requires m != []
    ensures KeySet(m) == {m[0].relativePath} + KeySet(m[1..])
  {
    forall k | k in KeySet(m) ensures k in {m[0].relativePath} + KeySet(m[1..]) {
      var j :| 0 <= j < |m| && m[j].relativePath == k;
      if j > 0 {
        assert m[1..][j - 1].relativePath == k;
      }
    }
    forall k | k in KeySet(m[1..]) ensures k in KeySet(m) {
      var j :| 0 <= j < |m[1..]| && m[1..][j].relativePath == k;
      assert m[j + 1].relativePath == k;
    }
  }

  /** A map with unique keys has one entry per key. */
  lemma {:induction false} SizeIsKeyCount(m: FileMap)
    requires UniqueKeys(m)
    ensures |KeySet(m)| == |m|
    decreases |m|
  {
    if m != [] {
      KeySetFirst(m);
      SizeIsKeyCount(m[1..]);
      assert m[0].relativePath !in KeySet(m[1..]);
    }
  }

  /** `map.putAll(other)`: the entries of `other` stored one after the other, in its order. */
  function PutAll(m: FileMap, other: FileMap): (r: FileMap)
    ensures KeySet(r) == KeySet(m) + KeySet(other)
    ensures UniqueKeys(m) ==> UniqueKeys(r)
    ensures forall x :: x in r ==> x in m || x in other
    decreases |other|
  {
    if other == [] then m
    else
      KeySetFirst(other);
      PutAll(Put(m, other[0]), other[1..])
  }

  /** `putAll` is last-writer-wins: a key of `other` (stored once there) maps to `other`'s entry,
    * and every other key keeps what `m` held. */
  lemma {:induction false} PutAllGet(m: FileMap, other: FileMap)
    ensures UniqueKeys(other) ==> forall k :: k in KeySet(other) ==> Get(PutAll(m, other), k) == Get(other, k)
    ensures forall k :: k !in KeySet(other) ==> Get(PutAll(m, other), k) == Get(m, k)
    decreases |other|
  {
    if other != [] {
      KeySetFirst(other);
      GetFirst(other);
      PutAllGet(Put(m, other[0]), other[1..]);
      if UniqueKeys(other) {
        assert other[0].relativePath !in KeySet(other[1..]);
      }
    }
  }

  lemma GetFirst(m: FileMap)
    requires m != []
    ensures Get(m, m[0].relativePath) == Some(m[0])
    ensures forall k :: k != m[0].relativePath ==> Get(m, k) == Get(m[1..], k)
  {
  }

  /**
   * `buildFileMap(dir, prefix)`, with `at` the handle of `dir`: nothing when the
   * listing throws, otherwise the children in listing order, where an unnamed
   * child is skipped, a directory contributes its own flattened map and a file
   * is stored under `prefix/name` (`name` at the root).
   */
  function Flatten(dir: Node, at: Loc, prefix: string): (r: FileMap)
    ensures UniqueKeys(r)
    decreases dir
  {
    if !Lists(dir) then [] else FlattenFrom(dir, 0, at, prefix, [])
  }

  /** The loop of `buildFileMap` from child `i` on, with `acc` gathered so far. */
  function FlattenFrom(dir: Node, i: nat, at: Loc, prefix: string, acc: FileMap): (r: FileMap)
    requires Lists(dir) && i <= |dir.children| && UniqueKeys(acc)
    ensures UniqueKeys(r)
    decreases dir, |dir.children| - i
  {
    if i == |dir.children| then acc
    else FlattenFrom(dir, i + 1, at, prefix, Gather(dir, i, at, prefix, acc))
  }

  /** What child `i` adds to the map gathered so far. */
  function Gather(dir: Node, i: nat, at: Loc, prefix: string, acc: FileMap): (r: FileMap)
    requires Lists(dir) && i < |dir.children| && UniqueKeys(acc)
    ensures UniqueKeys(r)
    decreases dir, 0
  {
    var c := dir.children[i];
    if c.Deleted? || c.name.None? then acc
    else if c.Dir? then PutAll(acc, Flatten(c, at + [i], ChildPath(prefix, c.name.value)))
    else Put(acc, FileInfo(c, at + [i], ChildPath(prefix, c.name.value)))
  }

  /** `buildFileMap`: fills a fresh map child by child, recursing into directories. */
  method BuildFileMap(dir: Node, at: Loc, currentPath: string) returns (fileMap: FileMap)
    ensures fileMap == Flatten(dir, at, currentPath)
    decreases dir
  {
    fileMap := [];
    if !Lists(dir) {
      // listFiles threw: the catch returns what was gathered, which is nothing
      return;
    }
    var i := 0;
    while i < |dir.children|
      invariant 0 <= i <= |dir.children| && UniqueKeys(fileMap)
      invariant FlattenFrom(dir, i, at, currentPath, fileMap) == Flatten(dir, at, currentPath)
    {
      var file := dir.children[i];
      if !file.Deleted? && file.name.Some? {
        var filePath := ChildPath(currentPath, file.name.value);
        if file.Dir? {
          var sub := BuildFileMap(file, at + [i], filePath);
          fileMap := PutAll(fileMap, sub);
        } else {
          fileMap := Put(fileMap, FileInfo(file, at + [i], filePath));
        }
      }
      i := i + 1;
    }
  }

  /**
   * The relative path of the document at `rel` below `dir` (whose own path is
   * `prefix`), when the way there passes only through listable directories
   * and named, existing documents — the documents a flattening can reach.
   */
  function PathOf(dir: Node, rel: Loc, prefix: string): Option<string>
    decreases |rel|
  {
    if rel == [] then Some(prefix)
    else if Lists(dir) && rel[0] < |dir.children| && NameOf(dir.children[rel[0]]).Some? then
      var c := dir.children[rel[0]];
      PathOf(c, rel[1..], ChildPath(prefix, NameOf(c).value))
    else None
  }

  /** `rel` leads from `dir` to a file that a flattening of `dir` can reach. */
  predicate FileLeaf(dir: Node, rel: Loc, prefix: string) {
    && rel != []
    && At(dir, rel).Some? && At(dir, rel).value.File?
    && PathOf(dir, rel, prefix).Some?
  }

  /** `e` is a reachable file of the tree `dir` at handle `at`: its handle points to it and its key is its path. */
  predicate Found(dir: Node, at: Loc, prefix: string, e: FileInfo) {
    && |at| < |e.at| && e.at[..|at|] == at
    && FileLeaf(dir, e.at[|at|..], prefix)
    && At(dir, e.at[|at|..]) == Some(e.file)
    && PathOf(dir, e.at[|at|..], prefix) == Some(e.relativePath)
  }

  lemma FoundInChild(dir: Node, i: nat, at: Loc, prefix: string, e: FileInfo)
    requires Lists(dir) && i < |dir.children| && NameOf(dir.children[i]).Some?
    requires Found(dir.children[i], at + [i], ChildPath(prefix, NameOf(dir.children[i]).value), e)
    ensures Found(dir, at, prefix, e)
  {
    var rel' := e.at[|at| + 1..];
    assert e.at[..|at| + 1] == at + [i];
    assert e.at[..|at|] == e.at[..|at| + 1][..|at|];
    assert e.at[|at|] == e.at[..|at| + 1][|at|];
    assert e.at[|at|..] == [i] + rel';
    assert ([i] + rel')[1..] == rel';
  }

  /** Soundness of flattening: every entry is a reachable file of the tree, stored under its own path,
    * and directories contribute no entry of their own. */
  lemma {:induction false} FlattenSound(dir: Node, at: Loc, prefix: string)
    ensures forall e :: e in Flatten(dir, at, prefix) ==> Found(dir, at, prefix, e)
    decreases dir
  {
    if Lists(dir) {
      FlattenFromSound(dir, 0, at, prefix, []);
    }
  }

  lemma {:induction false} FlattenFromSound(dir: Node, i: nat, at: Loc, prefix: string, acc: FileMap)
    requires Lists(dir) && i <= |dir.children| && UniqueKeys(acc)
    requires forall e :: e in acc ==> Found(dir, at, prefix, e)
    ensures forall e :: e in FlattenFrom(dir, i, at, prefix, acc) ==> Found(dir, at, prefix, e)
    decreases dir, |dir.children| - i
  {
    if i < |dir.children| {
      var c := dir.children[i];
      var acc' := Gather(dir, i, at, prefix, acc);
      if !c.Deleted? && c.name.Some? {
        var cp := ChildPath(prefix, c.name.value);
        if c.Dir? {
          FlattenSound(c, at + [i], cp);
          forall e | e in Flatten(c, at + [i], cp) ensures Found(dir, at, prefix, e) {
            FoundInChild(dir, i, at, prefix, e);
          }
        } else {
          var e := FileInfo(c, at + [i], cp);
          assert e.at[|at|..] == [i];
          assert e.at[..|at|] == at;
          assert [i][1..] == [];
          assert At(dir, [i]) == At(c, []) == Some(c);
          assert PathOf(dir, [i], prefix) == PathOf(c, [], cp) == Some(cp);
          assert FileLeaf(dir, [i], prefix);
          assert Found(dir, at, prefix, e);
        }
      }
      FlattenFromSound(dir, i + 1, at, prefix, acc');
    }
  }

  lemma {:induction false} FlattenFromKeeps(dir: Node, i: nat, at: Loc, prefix: string, acc: FileMap)
    requires Lists(dir) && i <= |dir.children| && UniqueKeys(acc)
    ensures KeySet(acc) <= KeySet(FlattenFrom(dir, i, at, prefix, acc))
    decreases |dir.children| - i
  {
    if i < |dir.children| {
      FlattenFromKeeps(dir, i + 1, at, prefix, Gather(dir, i, at, prefix, acc));
    }
  }

  /** Completeness of flattening: the path of every reachable file is a key. */
  lemma {:induction false} FlattenComplete(dir: Node, at: Loc, prefix: string, rel: Loc)
    requires FileLeaf(dir, rel, prefix)
    ensures PathOf(dir, rel, prefix).value in KeySet(Flatten(dir, at, prefix))
    decreases dir
  {
    FlattenFromComplete(dir, 0, at, prefix, [], rel);
  }

  lemma {:induction false} FlattenFromComplete(dir: Node, i: nat, at: Loc, prefix: string, acc: FileMap, rel: Loc)
    requires Lists(dir) && i <= |dir.children| && UniqueKeys(acc)
    requires FileLeaf(dir, rel, prefix) && i <= rel[0]
    ensures PathOf(dir, rel, prefix).value in KeySet(FlattenFrom(dir, i, at, prefix, acc))
    decreases dir, |dir.children| - i
  {
    var acc' := Gather(dir, i, at, prefix, acc);
    if rel[0] == i {
      GatherComplete(dir, i, at, prefix, acc, rel);
      FlattenFromKeeps(dir, i + 1, at, prefix, acc');
    } else {
      FlattenFromComplete(dir, i + 1, at, prefix, acc', rel);
    }
  }

  /** The child a reachable file lies in adds the file's path to the map. */
  lemma {:induction false} GatherComplete(dir: Node, i: nat, at: Loc, prefix: string, acc: FileMap, rel: Loc)
    requires Lists(dir) && i < |dir.children| && UniqueKeys(acc)
    requires FileLeaf(dir, rel, prefix) && rel[0] == i
    ensures PathOf(dir, rel, prefix).value in KeySet(Gather(dir, i, at, prefix, acc))
    decreases dir, 0
  {
    var c := dir.children[i];
    var cp := ChildPath(prefix, NameOf(c).value);
    assert At(dir, rel) == At(c, rel[1..]);
    assert PathOf(dir, rel, prefix) == PathOf(c, rel[1..], cp);
    if c.Dir? {
      FlattenComplete(c, at + [i], cp, rel[1..]);
    } else {
      assert rel[1..] == [];
    }
  }

  /** The keys of a flattened tree are exactly the paths of its reachable files. */
  lemma KeysArePaths(dir: Node, at: Loc, prefix: string, key: string)
    ensures key in KeySet(Flatten(dir, at, prefix)) <==>
      exists rel :: FileLeaf(dir, rel, prefix) && PathOf(dir, rel, prefix) == Some(key)
  {
    var m := Flatten(dir, at, prefix);
    if key in KeySet(m) {
      var i :| 0 <= i < |m| && m[i].relativePath == key;
      FlattenSound(dir, at, prefix);
      assert Found(dir, at, prefix, m[i]);
    }
    forall rel | FileLeaf(dir, rel, prefix) && PathOf(dir, rel, prefix) == Some(key) ensures key in KeySet(m) {
      FlattenComplete(dir, at, prefix, rel);
    }
  }
}
