/**
 * The transfer executor: `copyFileToPath` (walk or create the directories of
 * a relative path, then create the file) and `updateFile` (delete, then
 * re-create beside the deleted file).
 */
module Transfer {
  import opened Wrappers
  import opened Documents
  import opened Paths

  /** The names `names`, each present. */
  function Somes(names: seq<string>): seq<Option<string>> {
    if names == [] then [] else [Some(names[0])] + Somes(names[1..])
  }

  /** A handle one level further down, when there is one. */
  function Under(k: nat, at: Option<Loc>): Option<Loc> {
    if at.Some? then Some([k] + at.value) else None
  }

  /**
   * The walk of `copyFileToPath` from the directory `d` down the directory
   * names `dirs`, then the creation of `fileName`: for each name, the first
   * child so called is entered if it is a directory, and otherwise a new
   * directory is created and entered. A listing that throws or a creation that
   * returns null ends the walk with no file (directories created before stay).
   */
  function CopyInto(d: Node, dirs: seq<string>, fileName: string, src: Node, now: int): Creation
    decreases |dirs|
  {
    if dirs == [] then Create(d, [], NewFile(src, fileName, now))
    else if !Lists(d) then Creation(d, None)
    else
      var found := FindFile(d, dirs[0]);
      if found.Some? && d.children[found.value].Dir? then
        var sub := CopyInto(d.children[found.value], dirs[1..], fileName, src, now);
        Creation(d.(children := d.children[found.value := sub.tree]), Under(found.value, sub.at))
      else if !d.writable then Creation(d, None)
      else
        var sub := CopyInto(NewDir(dirs[0], now), dirs[1..], fileName, src, now);
        Creation(d.(children := d.children + [sub.tree]), Under(|d.children|, sub.at))
  }

  /** `copyFileToPath(sourceFile, root, relativePath)`: the path split on `/`, its last part the file name. */
  function CopyToPath(root: Node, src: Node, relativePath: string, now: int): Creation {
    var parts := Split(relativePath, Separator);
    CopyInto(root, parts[..|parts| - 1], parts[|parts| - 1], src, now)
  }

  /** A copy never removes, moves or alters anything already in the tree, whether it succeeds or not. */
  lemma {:induction false} CopyIntoGrows(d: Node, dirs: seq<string>, fileName: string, src: Node, now: int)
    ensures Grows(d, CopyInto(d, dirs, fileName, src, now).tree)
    decreases |dirs|
  {
    var c := CopyInto(d, dirs, fileName, src, now);
    if dirs == [] {
      CreateFacts(d, [], NewFile(src, fileName, now));
    } else if Lists(d) {
      var found := FindFile(d, dirs[0]);
      if found.Some? && d.children[found.value].Dir? {
        var k := found.value;
        CopyIntoGrows(d.children[k], dirs[1..], fileName, src, now);
        forall i | 0 <= i < |d.children| ensures Grows(d.children[i], c.tree.children[i]) {
          if i != k { GrowsRefl(d.children[i]); }
        }
      } else if d.writable {
        forall i | 0 <= i < |d.children| ensures Grows(d.children[i], c.tree.children[i]) {
          GrowsRefl(d.children[i]);
        }
      } else {
        GrowsRefl(d);
      }
    } else {
      GrowsRefl(d);
    }
  }

  /**
   * When a copy reports success, a file named after the last part of the path,
   * holding the source's bytes (none when the source's stream does not open),
   * sits under directories named after the other parts.
   */
  lemma {:induction false} CopyIntoPlaces(d: Node, dirs: seq<string>, fileName: string, src: Node, now: int)
    ensures var c := CopyInto(d, dirs, fileName, src, now);
      c.at.Some? ==>
        && At(c.tree, c.at.value) == Some(NewFile(src, fileName, now))
        && NamesAlong(c.tree, c.at.value) == Somes(dirs) + [Some(fileName)]
    decreases |dirs|
  {
    var c := CopyInto(d, dirs, fileName, src, now);
    if dirs == [] {
      CreateFacts(d, [], NewFile(src, fileName, now));
    } else if Lists(d) {
      var found := FindFile(d, dirs[0]);
      var sub, k;
      if found.Some? && d.children[found.value].Dir? {
        k := found.value;
        sub := CopyInto(d.children[k], dirs[1..], fileName, src, now);
        CopyIntoGrows(d.children[k], dirs[1..], fileName, src, now);
        assert NameOf(sub.tree) == NameOf(d.children[k]);
      } else if d.writable {
        k := |d.children|;
        sub := CopyInto(NewDir(dirs[0], now), dirs[1..], fileName, src, now);
        CopyIntoGrows(NewDir(dirs[0], now), dirs[1..], fileName, src, now);
      }
      if c.at.Some? {
        CopyIntoPlaces(if k < |d.children| then d.children[k] else NewDir(dirs[0], now), dirs[1..], fileName, src, now);
        var l := sub.at.value;
        assert c.tree.children[k] == sub.tree;
        assert ([k] + l)[0] == k && ([k] + l)[1..] == l;
        assert Somes(dirs) == [Some(dirs[0])] + Somes(dirs[1..]);
      }
    }
  }

  lemma {:induction false} SomesAppend(names: seq<string>, name: string)
    ensures Somes(names + [name]) == Somes(names) + [Some(name)]
    decreases |names|
  {
    if names != [] {
      assert (names + [name])[1..] == names[1..] + [name];
      SomesAppend(names[1..], name);
    }
  }

  /** A copy that reports success creates its file at a handle that was not valid before. */
  lemma {:induction false} CopyIntoFresh(d: Node, dirs: seq<string>, fileName: string, src: Node, now: int)
    ensures var c := CopyInto(d, dirs, fileName, src, now);
      c.at.Some? ==> At(d, c.at.value).None?
    decreases |dirs|
  {
    var c := CopyInto(d, dirs, fileName, src, now);
    if dirs != [] && Lists(d) && c.at.Some? {
      var found := FindFile(d, dirs[0]);
      if found.Some? && d.children[found.value].Dir? {
        var k := found.value;
        var sub := CopyInto(d.children[k], dirs[1..], fileName, src, now);
        CopyIntoFresh(d.children[k], dirs[1..], fileName, src, now);
        assert ([k] + sub.at.value)[1..] == sub.at.value;
      } else {
        var sub := CopyInto(NewDir(dirs[0], now), dirs[1..], fileName, src, now);
        assert ([|d.children|] + sub.at.value)[0] == |d.children|;
      }
    }
  }

  /**
   * `copyFileToPath` when it reports success: the file, named after the last
   * part of the path and holding the source's bytes, sits at a handle that
   * was not valid before, under directories named after the path's other
   * parts; nothing already in the tree is removed, moved or altered.
   */
  lemma CopyToPathPlaces(root: Node, src: Node, relativePath: string, now: int)
    ensures var c := CopyToPath(root, src, relativePath, now);
      var parts := Split(relativePath, Separator);
      && Grows(root, c.tree)
      && (c.at.Some? ==>
            && At(root, c.at.value).None?
            && At(c.tree, c.at.value) == Some(NewFile(src, parts[|parts| - 1], now))
            && NamesAlong(c.tree, c.at.value) == Somes(parts))
  {
    var parts := Split(relativePath, Separator);
    var dirs := parts[..|parts| - 1];
    CopyIntoGrows(root, dirs, parts[|parts| - 1], src, now);
    CopyIntoPlaces(root, dirs, parts[|parts| - 1], src, now);
    CopyIntoFresh(root, dirs, parts[|parts| - 1], src, now);
    SomesAppend(dirs, parts[|parts| - 1]);
    assert dirs + [parts[|parts| - 1]] == parts;
  }

  /** In a tree without handle-level failures a copy always succeeds and leaves no failure behind. */
  lemma {:induction false} CopyIntoOpen(d: Node, dirs: seq<string>, fileName: string, src: Node, now: int)
    requires d.Dir? && Open(d)
    ensures CopyInto(d, dirs, fileName, src, now).at.Some?
    ensures Open(CopyInto(d, dirs, fileName, src, now).tree)
    decreases |dirs|
  {
    var c := CopyInto(d, dirs, fileName, src, now);
    if dirs == [] {
      assert forall i :: 0 <= i < |c.tree.children| ==> i < |d.children| || c.tree.children[i].File?;
    } else {
      var found := FindFile(d, dirs[0]);
      if found.Some? && d.children[found.value].Dir? {
        var k := found.value;
        assert Open(d.children[k]);
        CopyIntoOpen(d.children[k], dirs[1..], fileName, src, now);
        assert forall i :: 0 <= i < |c.tree.children| ==> i == k || c.tree.children[i] == d.children[i];
      } else {
        CopyIntoOpen(NewDir(dirs[0], now), dirs[1..], fileName, src, now);
        assert forall i :: 0 <= i < |c.tree.children| ==> i == |d.children| || c.tree.children[i] == d.children[i];
      }
    }
  }

  /** The walk resumed at handle `cur` of the whole tree `root`. */
  ghost function CopyAt(root: Node, cur: Loc, dirs: seq<string>, fileName: string, src: Node, now: int): Creation
    requires At(root, cur).Some?
  {
    var c := CopyInto(At(root, cur).value, dirs, fileName, src, now);
    Creation(Replace(root, cur, c.tree), if c.at.Some? then Some(cur + c.at.value) else None)
  }

  lemma CopyAtRoot(root: Node, dirs: seq<string>, fileName: string, src: Node, now: int)
    ensures CopyAt(root, [], dirs, fileName, src, now) == CopyInto(root, dirs, fileName, src, now)
  {
    var c := CopyInto(root, dirs, fileName, src, now);
    if c.at.Some? {
      assert [] + c.at.value == c.at.value;
    }
  }

  /** Entering an existing directory. */
  lemma CopyAtDescend(root: Node, cur: Loc, k: nat, dirs: seq<string>, fileName: string, src: Node, now: int)
    requires At(root, cur).Some? && Lists(At(root, cur).value) && dirs != []
    requires FindFile(At(root, cur).value, dirs[0]) == Some(k) && At(root, cur).value.children[k].Dir?
    ensures At(root, cur + [k]).Some?
    ensures CopyAt(root, cur + [k], dirs[1..], fileName, src, now) == CopyAt(root, cur, dirs, fileName, src, now)
  {
    var d := At(root, cur).value;
    AtConcat(root, cur, [k]);
    var sub := CopyInto(d.children[k], dirs[1..], fileName, src, now);
    ReplaceConcat(root, cur, [k], sub.tree);
    assert Replace(d, [k], sub.tree) == d.(children := d.children[k := sub.tree]);
    if sub.at.Some? {
      assert cur + [k] + sub.at.value == cur + ([k] + sub.at.value);
    }
  }

  /** The step of the walk that creates the missing directory `dirs[0]` in `d` and goes on inside it. */
  lemma CopyIntoCreates(d: Node, dirs: seq<string>, fileName: string, src: Node, now: int)
    requires Lists(d) && d.writable && dirs != []
    requires var found := FindFile(d, dirs[0]); !(found.Some? && d.children[found.value].Dir?)
    ensures var sub := CopyInto(NewDir(dirs[0], now), dirs[1..], fileName, src, now);
      CopyInto(d, dirs, fileName, src, now) == Creation(d.(children := d.children + [sub.tree]), Under(|d.children|, sub.at))
  {
  }

  /** A child appended to the directory at `cur` is reached at `cur + [n]`, and replacing it
    * there is the same as appending the replacement instead. */
  lemma AppendThenReplace(root: Node, cur: Loc, child: Node, x: Node)
    requires At(root, cur).Some? && At(root, cur).value.Dir?
    ensures var d := At(root, cur).value;
      var t := Replace(root, cur, d.(children := d.children + [child]));
      && At(t, cur + [|d.children|]) == Some(child)
      && Replace(t, cur + [|d.children|], x) == Replace(root, cur, d.(children := d.children + [x]))
  {
    var d := At(root, cur).value;
    var n := |d.children|;
    var d1 := d.(children := d.children + [child]);
    var d2 := d.(children := d.children + [x]);
    var t := Replace(root, cur, d1);
    AtReplace(root, cur, d1);
    AtConcat(t, cur, [n]);
    ReplaceConcat(t, cur, [n], x);
    assert Replace(d1, [n], x) == d2 by {
      assert d1.children[n := x] == d.children + [x];
    }
    ReplaceTwice(root, cur, d1, d2);
  }

  lemma CopyAtUnfold(root: Node, cur: Loc, x: Node, dirs: seq<string>, fileName: string, src: Node, now: int)
    requires At(root, cur) == Some(x)
    ensures var c := CopyInto(x, dirs, fileName, src, now);
      CopyAt(root, cur, dirs, fileName, src, now)
        == Creation(Replace(root, cur, c.tree), if c.at.Some? then Some(cur + c.at.value) else None)
  {
  }

  /** The walk resumed inside a directory just appended at `cur`. */
  lemma CopyAtAppended(root: Node, cur: Loc, nd: Node, dirs: seq<string>, fileName: string, src: Node, now: int)
    requires At(root, cur).Some? && At(root, cur).value.Dir?
    ensures var d := At(root, cur).value;
      var t := Replace(root, cur, d.(children := d.children + [nd]));
      var sub := CopyInto(nd, dirs, fileName, src, now);
      && At(t, cur + [|d.children|]) == Some(nd)
      && CopyAt(t, cur + [|d.children|], dirs, fileName, src, now)
         == Creation(Replace(root, cur, d.(children := d.children + [sub.tree])),
                     if sub.at.Some? then Some(cur + ([|d.children|] + sub.at.value)) else None)
  {
    var d := At(root, cur).value;
    var sub := CopyInto(nd, dirs, fileName, src, now);
    var t := Replace(root, cur, d.(children := d.children + [nd]));
    AppendThenReplace(root, cur, nd, nd);
    CopyAtUnfold(t, cur + [|d.children|], nd, dirs, fileName, src, now);
    AppendedCreation(root, cur, nd, sub.tree, sub.at);
  }

  /** The creation reported at `cur + [n]` inside a just-appended child, restated from `cur`. */
  lemma AppendedCreation(root: Node, cur: Loc, nd: Node, x: Node, at: Option<Loc>)
    requires At(root, cur).Some? && At(root, cur).value.Dir?
    ensures var d := At(root, cur).value;
      var t := Replace(root, cur, d.(children := d.children + [nd]));
      var n := |d.children|;
      Creation(Replace(t, cur + [n], x), if at.Some? then Some(cur + [n] + at.value) else None)
        == Creation(Replace(root, cur, d.(children := d.children + [x])),
                    if at.Some? then Some(cur + ([n] + at.value)) else None)
  {
    AppendThenReplace(root, cur, nd, x);
    if at.Some? {
      var n := |At(root, cur).value.children|;
      assert cur + [n] + at.value == cur + ([n] + at.value);
    }
  }

  /** Creating a directory and entering it. */
  lemma CopyAtCreate(root: Node, cur: Loc, dirs: seq<string>, fileName: string, src: Node, now: int)
    requires At(root, cur).Some? && Lists(At(root, cur).value) && At(root, cur).value.writable && dirs != []
    requires var found := FindFile(At(root, cur).value, dirs[0]);
      !(found.Some? && At(root, cur).value.children[found.value].Dir?)
    ensures var cr := Create(root, cur, NewDir(dirs[0], now));
      && cr.at == Some(cur + [|At(root, cur).value.children|])
      && At(cr.tree, cr.at.value).Some?
      && CopyAt(cr.tree, cr.at.value, dirs[1..], fileName, src, now) == CopyAt(root, cur, dirs, fileName, src, now)
  {
    var d := At(root, cur).value;
    var nd := NewDir(dirs[0], now);
    var t := Replace(root, cur, d.(children := d.children + [nd]));
    assert Create(root, cur, nd) == Creation(t, Some(cur + [|d.children|]));
    CopyAtAppended(root, cur, nd, dirs[1..], fileName, src, now);
    CopyIntoCreates(d, dirs, fileName, src, now);
  }

  /** A walk that cannot go on leaves the tree as it is and creates nothing. */
  lemma CopyAtStop(root: Node, cur: Loc, dirs: seq<string>, fileName: string, src: Node, now: int)
    requires At(root, cur).Some? && dirs != []
    requires var d := At(root, cur).value;
      !Lists(d) ||
      (!d.writable && var found := FindFile(d, dirs[0]); !(found.Some? && d.children[found.value].Dir?))
    ensures CopyAt(root, cur, dirs, fileName, src, now) == Creation(root, None)
  {
    ReplaceSame(root, cur);
  }

  /** The last step: creating the file in the directory reached. */
  lemma CopyAtFile(root: Node, cur: Loc, fileName: string, src: Node, now: int)
    requires At(root, cur).Some?
    ensures CopyAt(root, cur, [], fileName, src, now) == Create(root, cur, NewFile(src, fileName, now))
  {
    var d := At(root, cur).value;
    var f := NewFile(src, fileName, now);
    if d.Dir? && d.writable {
      assert [] + [|d.children|] == [|d.children|];
    } else {
      ReplaceSame(root, cur);
    }
  }

  /**
   * `copyFileToPath`: walks `currentDir` down the directory parts of the path,
   * entering or creating each, then creates the file; false as soon as a
   * listing throws or a creation returns null.
   */
  method CopyFileToPath(store: DocumentStore, side: Side, sourceFile: Node, relativePath: string, now: int)
    returns (ok: bool)
    modifies store
    ensures store.Root(side) == CopyToPath(old(store.Root(side)), sourceFile, relativePath, now).tree
    ensures ok == CopyToPath(old(store.Root(side)), sourceFile, relativePath, now).at.Some?
    ensures store.Root(side.Other()) == old(store.Root(side.Other()))
  {
    var parts := Split(relativePath, Separator);
    var fileName := parts[|parts| - 1];
    var dirParts := parts[..|parts| - 1];
    ghost var goal := CopyToPath(store.Root(side), sourceFile, relativePath, now);
    CopyAtRoot(store.Root(side), dirParts, fileName, sourceFile, now);
    var currentDir: Loc := [];
    var i := 0;
    while i < |dirParts|
      invariant 0 <= i <= |dirParts|
      invariant At(store.Root(side), currentDir).Some?
      invariant CopyAt(store.Root(side), currentDir, dirParts[i..], fileName, sourceFile, now).tree == goal.tree
      invariant CopyAt(store.Root(side), currentDir, dirParts[i..], fileName, sourceFile, now).at.Some? == goal.at.Some?
      invariant store.Root(side.Other()) == old(store.Root(side.Other()))
    {
      var d := At(store.Root(side), currentDir).value;
      assert dirParts[i..][0] == dirParts[i] && dirParts[i..][1..] == dirParts[i + 1..];
      if !Lists(d) {
        // findFile threw; the catch returns false
        CopyAtStop(store.Root(side), currentDir, dirParts[i..], fileName, sourceFile, now);
        return false;
      }
      var subDir := FindFile(d, dirParts[i]);
      if subDir.Some? && d.children[subDir.value].Dir? {
        CopyAtDescend(store.Root(side), currentDir, subDir.value, dirParts[i..], fileName, sourceFile, now);
        currentDir := currentDir + [subDir.value];
      } else {
        if !d.writable {
          CopyAtStop(store.Root(side), currentDir, dirParts[i..], fileName, sourceFile, now);
        } else {
          CopyAtCreate(store.Root(side), currentDir, dirParts[i..], fileName, sourceFile, now);
        }
        var created := store.CreateChild(side, currentDir, NewDir(dirParts[i], now));
        if created.None? {
          return false;
        }
        currentDir := created.value;
      }
      i := i + 1;
    }
    CopyAtFile(store.Root(side), currentDir, fileName, sourceFile, now);
    var newFile := store.CreateChild(side, currentDir, NewFile(sourceFile, fileName, now));
    if newFile.None? {
      return false;
    }
    // the stream copy is part of NewFile: the source's bytes, or none when its stream is null
    return true;
  }

  /**
   * `findParentDirectory`: a document handle cannot name its parent, and every
   * path through the source's inspection of the handle's URI ends in null.
   */
  function FindParentDirectory(file: Loc): Option<Loc> {
    None
  }

  /** A tree after an update, and whether the update reports success. */
  datatype Update = Update(tree: Node, ok: bool)

  /**
   * `updateFile(sourceFile, destFile)`: the target is deleted first; the new
   * copy would be created under the target's parent, which the parent lookup
   * never supplies, so the update stops there and reports failure.
   */
  function UpdateEffect(tree: Node, target: Loc): Update {
    Update(Replace(tree, target, Deleted), FindParentDirectory(target).Some?)
  }

  /** An update loses the older copy: the target is gone, the update reports failure,
    * and every document at a handle apart from the target is as it was. */
  lemma UpdateDeletesTarget(tree: Node, target: Loc)
    requires At(tree, target).Some?
    ensures var u := UpdateEffect(tree, target);
      && !u.ok
      && At(u.tree, target) == Some(Deleted)
      && forall other :: Apart(target, other) ==> At(u.tree, other) == At(tree, other)
  {
    AtReplace(tree, target, Deleted);
    forall other | Apart(target, other) ensures At(Replace(tree, target, Deleted), other) == At(tree, other) {
      AtReplaceApart(tree, target, other, Deleted);
    }
  }

  /** `updateFile`: deletes `destFile`, then looks for its parent to re-create the file in. */
  method UpdateFile(store: DocumentStore, side: Side, sourceFile: Node, destFile: Loc) returns (ok: bool)
    modifies store
    ensures store.Root(side) == UpdateEffect(old(store.Root(side)), destFile).tree
    ensures ok == UpdateEffect(old(store.Root(side)), destFile).ok
    ensures store.Root(side.Other()) == old(store.Root(side.Other()))
  {
    store.Delete(side, destFile);
    var parent := FindParentDirectory(destFile);
    // re-creating the file needs the parent; the lookup never yields one
    ok := parent.Some?;
  }
}
