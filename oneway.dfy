/**
 * The one-way pass `syncDirectories` / `syncFile` / `copyFile`: the source
 * tree is walked directory by directory, each file is copied into the
 * matching destination directory when missing there, or replaced when the
 * source copy is newer by more than the tolerance. Failures are logged and
 * the walk goes on, except that a failure while scanning a directory ends
 * the scan of that directory.
 */
module OneWay {
  import opened Wrappers
  import opened Documents

  /** The counters a directory scan returns: `Triple(scanned, copied, updated)`. */
  datatype Counts = Counts(scanned: nat, copied: nat, updated: nat) {
    function Plus(other: Counts): Counts {
      Counts(scanned + other.scanned, copied + other.copied, updated + other.updated)
    }
  }

  /** `SyncFileResult`. */
  datatype FileOutcome = Copied | Updated | Skipped | Error

  /** The message logged when scanning the directory `dir` throws (its exception text is not modelled). */
  function ScanError(dir: Node): string {
    "Error scanning " + NameOf(dir).GetOr("null")
  }

  /** The message logged when syncing the file `file` throws (its exception text is not modelled). */
  function SyncError(file: Node): string {
    "Error syncing " + NameOf(file).GetOr("unknown")
  }

  /** The destination directory at `loc`, when a `findFile` on it returns instead of throwing. */
  function DirAt(tree: Node, loc: Loc): (r: Option<Node>)
    ensures r.Some? ==> At(tree, loc) == r && Lists(r.value)
    ensures r.None? ==> At(tree, loc).None? || !Lists(At(tree, loc).value)
  {
    match At(tree, loc)
    case Some(d) => if Lists(d) then Some(d) else None
    case None => None
  }

  /** The destination tree after one file, what `syncFile` returned, and the error log. */
  datatype FileSync = FileSync(tree: Node, result: FileOutcome, errors: seq<string>)

  /**
   * `syncFile(file, destFolder)` where `destFolder` is the handle `dest` of the
   * destination tree: an unnamed file is an error without a message; a file
   * missing from the folder is copied; a file whose source copy is newer by
   * more than the tolerance replaces the existing document (deleted first);
   * otherwise nothing happens. A `findFile` that throws, or a creation that
   * returns null, logs an error.
   */
  function SyncFileSpec(file: Node, tree: Node, dest: Loc, errors: seq<string>, now: int): (r: FileSync)
    ensures errors <= r.errors && |r.errors| <= |errors| + 1
  {
    match NameOf(file)
    case None => FileSync(tree, Error, errors)
    case Some(fileName) =>
      match DirAt(tree, dest)
      case None => FileSync(tree, Error, errors + [SyncError(file)])
      case Some(d) =>
        match FindFile(d, fileName)
        case None =>
          var c := Create(tree, dest, NewFile(file, fileName, now));
          if c.at.Some? then FileSync(c.tree, Copied, errors)
          else FileSync(c.tree, Error, errors + [SyncError(file)])
        case Some(k) =>
          if LastModified(file) > LastModified(d.children[k]) + Tolerance then
            var c := Create(Replace(tree, dest + [k], Deleted), dest, NewFile(file, fileName, now));
            if c.at.Some? then FileSync(c.tree, Updated, errors)
            else FileSync(c.tree, Error, errors + [SyncError(file)])
          else FileSync(tree, Skipped, errors)
  }

  /**
   * The folder `d` after `syncFile` put the file `file`, called `name`, into
   * it without failure: the file is added as the last child, the same-named
   * document it replaces (if any) is deleted, and every other document stays.
   */
  function PlaceFile(file: Node, name: string, d: Node, now: int): (r: Node)
    requires d.Dir?
    ensures r.Dir? && r == d.(children := r.children)
    ensures r.children == d.children
      || (|r.children| == |d.children| + 1 && r.children[|d.children|] == NewFile(file, name, now))
    ensures forall j :: 0 <= j < |d.children| ==>
      r.children[j] == d.children[j] || (Named(d.children[j], name) && r.children[j] == Deleted)
  {
    match FindFile(d, name)
    case None => d.(children := d.children + [NewFile(file, name, now)])
    case Some(k) =>
      if LastModified(file) > LastModified(d.children[k]) + Tolerance then
        d.(children := d.children[k := Deleted] + [NewFile(file, name, now)])
      else d
  }

  /**
   * `syncFile`'s result in every case: an unnamed file is an error with no
   * message; a folder whose `findFile` throws is an error with a message; a
   * file missing from the folder is copied, and one newer than its namesake
   * by more than the tolerance replaces it, where a folder that refuses the
   * creation makes either an error with a message (after the deletion); a
   * namesake that is not older by more than the tolerance is skipped. Outside
   * the folder the tree is unchanged.
   */
  lemma SyncFileWhen(file: Node, tree: Node, dest: Loc, errors: seq<string>, now: int)
    ensures var f := SyncFileSpec(file, tree, dest, errors, now);
      && (NameOf(file).None? ==> f == FileSync(tree, Error, errors))
      && (NameOf(file).Some? && DirAt(tree, dest).None? ==> f == FileSync(tree, Error, errors + [SyncError(file)]))
      && (NameOf(file).Some? && DirAt(tree, dest).Some? ==>
            var name := NameOf(file).value;
            var d := DirAt(tree, dest).value;
            var found := FindFile(d, name);
            var newer := found.Some? && LastModified(file) > LastModified(d.children[found.value]) + Tolerance;
            var placed := Replace(tree, dest, PlaceFile(file, name, d, now));
            && (found.None? && d.writable ==> f == FileSync(placed, Copied, errors))
            && (newer && d.writable ==> f == FileSync(placed, Updated, errors))
            && (found.Some? && !newer ==> f == FileSync(tree, Skipped, errors))
            && (found.None? && !d.writable ==> f == FileSync(tree, Error, errors + [SyncError(file)]))
            && (newer && !d.writable ==>
                  f == FileSync(Replace(tree, dest + [found.value], Deleted), Error, errors + [SyncError(file)])))
  {
    if NameOf(file).Some? && DirAt(tree, dest).Some? {
      var d := DirAt(tree, dest).value;
      var found := FindFile(d, NameOf(file).value);
      if found.Some? {
        var d1 := d.(children := d.children[found.value := Deleted]);
        ReplaceChild(tree, dest, d, found.value, Deleted);
        ReplaceTwice(tree, dest, d1, d1.(children := d1.children + [NewFile(file, NameOf(file).value, now)]));
      }
    }
  }

  /** The destination tree after a directory scan, the scan's counters, and the error log. */
  datatype Scan = Scan(tree: Node, counts: Counts, errors: seq<string>)

  /** The number of existing documents below `n`. */
  function Census(n: Node): nat
    decreases n, 1
  {
    if n.Dir? then CensusFrom(n, 0) else 0
  }

  function CensusFrom(n: Node, i: nat): nat
    requires n.Dir? && i <= |n.children|
    decreases n, 0, |n.children| - i
  {
    if i == |n.children| then 0
    else
      var c := n.children[i];
      (if c.Deleted? then 0 else 1 + Census(c)) + CensusFrom(n, i + 1)
  }

  /**
   * `syncDirectories(source, dest, errors)` with `dest` the handle of the
   * destination directory in `tree`: a listing of `source` that throws logs
   * one error and scans nothing. The log only grows, at most one error is
   * logged per document scanned plus one for the directory itself, no more
   * documents are scanned than exist below `source`, and every copy or update
   * counted is of a scanned document.
   */
  function SyncDirs(source: Node, tree: Node, dest: Loc, errors: seq<string>, now: int): (r: Scan)
    ensures errors <= r.errors
    ensures r.counts.copied + r.counts.updated <= r.counts.scanned <= Census(source)
    ensures |r.errors| <= |errors| + r.counts.scanned + 1
    decreases source, 1
  {
    if !Lists(source) then Scan(tree, Counts(0, 0, 0), errors + [ScanError(source)])
    else SyncChildren(source, 0, tree, dest, Counts(0, 0, 0), errors, now)
  }

  /**
   * The loop of `syncDirectories` from child `i` on, with the counters
   * `counts` so far. A subdirectory without a name, or a destination
   * directory whose `findFile` throws, ends the loop with one error logged;
   * a subdirectory is matched by name in the destination or created there,
   * and skipped when creation returns null.
   */
  function SyncChildren(source: Node, i: nat, tree: Node, dest: Loc, counts: Counts, errors: seq<string>, now: int): (r: Scan)
    requires Lists(source) && i <= |source.children|
    requires counts.copied + counts.updated <= counts.scanned
    ensures errors <= r.errors
    ensures r.counts.copied + r.counts.updated <= r.counts.scanned
    ensures counts.scanned <= r.counts.scanned <= counts.scanned + CensusFrom(source, i)
    ensures |r.errors| <= |errors| + (r.counts.scanned - counts.scanned) + 1
    decreases source, 0, |source.children| - i
  {
    if i == |source.children| then Scan(tree, counts, errors)
    else
      var file := source.children[i];
      if file.Deleted? then SyncChildren(source, i + 1, tree, dest, counts, errors, now)
      else
        var counts := counts.(scanned := counts.scanned + 1);
        if file.Dir? then
          match (file.name, DirAt(tree, dest))
          case (Some(name), Some(d)) =>
            var found := FindFile(d, name);
            var c := if found.Some? then Creation(tree, Some(dest + [found.value]))
                     else Create(tree, dest, NewDir(name, now));
            if c.at.Some? then
              var sub := SyncDirs(file, c.tree, c.at.value, errors, now);
              SyncChildren(source, i + 1, sub.tree, dest, counts.Plus(sub.counts), sub.errors, now)
            else SyncChildren(source, i + 1, c.tree, dest, counts, errors, now)
          case _ =>
            // `name!!` or `findFile` threw: the scan of `source` ends
            Scan(tree, counts, errors + [ScanError(source)])
        else
          var f := SyncFileSpec(file, tree, dest, errors, now);
          var counts := match f.result
            case Copied => counts.(copied := counts.copied + 1)
            case Updated => counts.(updated := counts.updated + 1)
            case _ => counts;
          SyncChildren(source, i + 1, f.tree, dest, counts, f.errors, now)
  }

  /**
   * What each outcome of `syncFile` means. Copied: no document of that name was
   * in the folder, and the new file is now its last child. Updated: the
   * same-named document was older by more than the tolerance, it is deleted,
   * and the new file is now the folder's last child. Skipped: the same-named
   * document is not older by more than the tolerance, and nothing changed. In
   * each of these no error is logged; an error logs at most one message, none
   * only for an unnamed file.
   */
  lemma SyncFileCases(file: Node, tree: Node, dest: Loc, errors: seq<string>, now: int)
    ensures var f := SyncFileSpec(file, tree, dest, errors, now);
      && (f.result != Error ==> f.errors == errors && NameOf(file).Some? && DirAt(tree, dest).Some?)
      && (f.result == Error ==> f.errors == errors + [SyncError(file)] || (NameOf(file).None? && f.errors == errors))
      && (f.result == Copied ==>
            var d := DirAt(tree, dest).value;
            && FindFile(d, NameOf(file).value).None?
            && At(f.tree, dest + [|d.children|]) == Some(NewFile(file, NameOf(file).value, now)))
      && (f.result == Updated ==>
            var d := DirAt(tree, dest).value;
            var k := FindFile(d, NameOf(file).value);
            && k.Some? && LastModified(file) > LastModified(d.children[k.value]) + Tolerance
            && At(f.tree, dest + [k.value]) == Some(Deleted)
            && At(f.tree, dest + [|d.children|]) == Some(NewFile(file, NameOf(file).value, now)))
      && (f.result == Skipped ==>
            var d := DirAt(tree, dest).value;
            var k := FindFile(d, NameOf(file).value);
            && k.Some? && LastModified(file) <= LastModified(d.children[k.value]) + Tolerance
            && f.tree == tree)
  {
    var f := SyncFileSpec(file, tree, dest, errors, now);
    if f.result == Copied || f.result == Updated {
      var fileName := NameOf(file).value;
      var d := DirAt(tree, dest).value;
      var nf := NewFile(file, fileName, now);
      var k := FindFile(d, fileName);
      if k.None? {
        CreateFacts(tree, dest, nf);
      } else {
        var t1 := Replace(tree, dest + [k.value], Deleted);
        AtConcat(tree, dest, [k.value]);
        ReplaceConcat(tree, dest, [k.value], Deleted);
        AtReplace(tree, dest, Replace(d, [k.value], Deleted));
        AtConcat(t1, dest, [k.value]);
        CreateFacts(t1, dest, nf);
        GrowsAt(t1, f.tree, dest + [k.value]);
      }
    }
  }

  /** The `errors` list the scan appends to. */
  class ErrorLog {
    var entries: seq<string>

    constructor ()
      ensures entries == []
    {
      entries := [];
    }

    method Add(message: string)
      modifies this
      ensures entries == old(entries) + [message]
    {
      entries := entries + [message];
    }
  }

  /**
   * `copyFile(file, destFolder)`: creates the file in the folder at `dest` of
   * the destination tree and fills it; false where the source throws (an
   * unnamed file, or a creation that returns null).
   */
  method CopyFile(store: DocumentStore, file: Node, destFolder: Loc, now: int) returns (created: bool)
    modifies store
    ensures NameOf(file).None? ==> !created && store.dest == old(store.dest)
    ensures NameOf(file).Some? ==>
      var c := Create(old(store.dest), destFolder, NewFile(file, NameOf(file).value, now));
      store.dest == c.tree && created == c.at.Some?
    ensures store.source == old(store.source)
  {
    if NameOf(file).None? {
      return false;
    }
    var newFile := store.CreateChild(Dest, destFolder, NewFile(file, NameOf(file).value, now));
    // the stream copy is part of NewFile: the source's bytes, or none when its stream is null
    created := newFile.Some?;
  }

  /** `syncFile`: compares `file` with the same-named document of the destination folder. */
  method SyncFile(store: DocumentStore, log: ErrorLog, file: Node, destFolder: Loc, now: int)
    returns (result: FileOutcome)
    modifies store, log
    ensures var f := SyncFileSpec(file, old(store.dest), destFolder, old(log.entries), now);
      store.dest == f.tree && log.entries == f.errors && result == f.result
    ensures store.source == old(store.source)
  {
    if NameOf(file).None? {
      return Error;
    }
    var fileName := NameOf(file).value;
    var folder := DirAt(store.dest, destFolder);
    if folder.None? {
      // findFile threw
      log.Add(SyncError(file));
      return Error;
    }
    var destFile := FindFile(folder.value, fileName);
    if destFile.None? {
      var created := CopyFile(store, file, destFolder, now);
      if !created {
        log.Add(SyncError(file));
        return Error;
      }
      return Copied;
    }
    var sourceModified := LastModified(file);
    var destModified := LastModified(folder.value.children[destFile.value]);
    if sourceModified > destModified + Tolerance {
      store.Delete(Dest, destFolder + [destFile.value]);
      var created := CopyFile(store, file, destFolder, now);
      if !created {
        log.Add(SyncError(file));
        return Error;
      }
      return Updated;
    }
    return Skipped;
  }

  /**
   * One iteration of the loop of `syncDirectories`: the child `i` of `source`
   * is scanned against the destination directory at `dest`. `stop` is set when
   * the scan of `source` ends here.
   */
  method ScanChild(store: DocumentStore, log: ErrorLog, source: Node, i: nat, dest: Loc, counts: Counts, now: int)
    returns (next: Counts, stop: bool)
    requires Lists(source) && i < |source.children|
    requires counts.copied + counts.updated <= counts.scanned
    modifies store, log
    ensures next.copied + next.updated <= next.scanned
    ensures SyncChildren(source, i, old(store.dest), dest, counts, old(log.entries), now)
      == if stop then Scan(store.dest, next, log.entries)
         else SyncChildren(source, i + 1, store.dest, dest, next, log.entries, now)
    ensures store.source == old(store.source)
    decreases source, 0
  {
    next, stop := counts, false;
    var sourceFile := source.children[i];
    if sourceFile.Deleted? {
      // not listed
      return;
    }
    next := next.(scanned := next.scanned + 1);
    if sourceFile.Dir? {
      var folder := DirAt(store.dest, dest);
      if sourceFile.name.None? || folder.None? {
        // `name!!` or findFile threw
        log.Add(ScanError(source));
        return next, true;
      }
      var name := sourceFile.name.value;
      var destSubDir: Option<Loc>;
      var found := FindFile(folder.value, name);
      if found.Some? {
        destSubDir := Some(dest + [found.value]);
      } else {
        destSubDir := store.CreateChild(Dest, dest, NewDir(name, now));
      }
      if destSubDir.Some? {
        var subResult := SyncDirectories(store, log, sourceFile, destSubDir.value, now);
        next := next.Plus(subResult);
      }
    } else {
      var result := SyncFile(store, log, sourceFile, dest, now);
      match result
      case Copied => next := next.(copied := next.copied + 1);
      case Updated => next := next.(updated := next.updated + 1);
      case Skipped =>
      case Error =>
    }
  }

  /**
   * `syncDirectories(source, dest, errors)`: scans the source directory `source`
   * against the destination directory at `dest`, recursing into subdirectories,
   * and returns the scan's counters.
   */
  method SyncDirectories(store: DocumentStore, log: ErrorLog, source: Node, dest: Loc, now: int)
    returns (counts: Counts)
    modifies store, log
    ensures var r := SyncDirs(source, old(store.dest), dest, old(log.entries), now);
      store.dest == r.tree && log.entries == r.errors && counts == r.counts
    ensures store.source == old(store.source)
    decreases source, 1
  {
    counts := Counts(0, 0, 0);
    if !Lists(source) {
      // listFiles threw
      log.Add(ScanError(source));
      return;
    }
    ghost var goal := SyncDirs(source, store.dest, dest, log.entries, now);
    var i := 0;
    while i < |source.children|
      invariant 0 <= i <= |source.children|
      invariant counts.copied + counts.updated <= counts.scanned
      invariant SyncChildren(source, i, store.dest, dest, counts, log.entries, now) == goal
      invariant store.source == old(store.source)
    {
      var stop;
      counts, stop := ScanChild(store, log, source, i, dest, counts, now);
      if stop {
        return;
      }
      i := i + 1;
    }
  }

  /*
   * The mirror property of the one-way scan: when the source has names
   * throughout, the destination fails nowhere, and the source's
   * subdirectories meet directories (or nothing) of their names, the scan
   * logs no error, scans every document, and leaves each source document
   * under the same name in the matching destination folder.
   */

  /** No two existing documents among `cs` share a name. */
  predicate UniqueNames(cs: seq<Node>) {
    forall i, j :: 0 <= i < |cs| && 0 <= j < |cs| && i != j && NameOf(cs[i]).Some? ==> NameOf(cs[i]) != NameOf(cs[j])
  }

  /** Every directory below `n` lists, every document has a name, and names are unique in each directory. */
  predicate WellNamed(n: Node)
    decreases n
  {
    n.Dir? ==>
      && n.listable && UniqueNames(n.children)
      && forall i :: 0 <= i < |n.children| ==>
           (n.children[i].Deleted? || n.children[i].name.Some?) && WellNamed(n.children[i])
  }

  /** Every directory below `n` lists and accepts new documents, and names are unique in each directory. */
  predicate Tidy(n: Node)
    decreases n
  {
    n.Dir? ==>
      && n.listable && n.writable && UniqueNames(n.children)
      && forall i :: 0 <= i < |n.children| ==> Tidy(n.children[i])
  }

  /** Each subdirectory of the source directory `s` meets, in the destination directory `d`,
    * a directory of its name or nothing of its name, all the way down. */
  predicate Compatible(s: Node, d: Node)
    decreases s, 1
  {
    s.Dir? && d.Dir? ==> forall i :: 0 <= i < |s.children| ==> Fits(s.children[i], d)
  }

  predicate Fits(c: Node, d: Node)
    decreases c, 2
  {
    c.Dir? && c.name.Some? && d.Dir? ==>
      var f := FindFile(d, c.name.value);
      f.Some? ==> d.children[f.value].Dir? && Compatible(c, d.children[f.value])
  }

  /** The names of the existing documents among the first `i` children of `s`. */
  function Done(s: Node, i: nat): set<string>
    requires s.Dir? && i <= |s.children|
  {
    set j | 0 <= j < i && NameOf(s.children[j]).Some? :: NameOf(s.children[j]).value
  }

  /** The document `a` of the original folder, seen as `b` after the scan: unchanged, unless a
    * source document of its name came by, and then still so named, or deleted. */
  predicate Kept(a: Node, b: Node, names: set<string>) {
    b == a || (NameOf(a).Some? && NameOf(a).value in names && (b.Deleted? || NameOf(b) == NameOf(a)))
  }

  /** What the destination child `k` was before the scan: the original document, or the
    * directory the scan created there. */
  function Origin(d0: Node, k: nat, name: string, now: int): Node {
    if d0.Dir? && k < |d0.children| then d0.children[k] else NewDir(name, now)
  }

  /**
   * The source document `c` is mirrored in the destination folder `d` (which
   * was `d0`): the first document of its name there is, for a file, the copy
   * made from it or the original namesake that is not older by more than the
   * tolerance, and for a directory, a directory mirroring it.
   */
  predicate MirrorsChild(c: Node, d0: Node, d: Node, now: int)
    decreases c, 3
  {
    c.Deleted? ||
    (c.name.Some? && d.Dir? &&
     var f := FindFile(d, c.name.value);
     f.Some? &&
     var e := d.children[f.value];
     if c.Dir? then Mirrored(c, Origin(d0, f.value, c.name.value, now), e, now)
     else
       || e == NewFile(c, c.name.value, now)
       || (d0.Dir? && f.value < |d0.children| && e == d0.children[f.value]
           && LastModified(c) <= LastModified(e) + Tolerance))
  }

  /** The destination folder `d`, which was `d0`, mirrors the source directory `s`. */
  predicate Mirrored(s: Node, d0: Node, d: Node, now: int)
    decreases s, 2
  {
    s.Dir? && MirroredUpTo(s, |s.children|, d0, d, now)
  }

  /**
   * The first `i` children of `s` are mirrored in `d`, which keeps the name,
   * timestamp and documents of `d0` apart from those named like one of those
   * children, and adds only documents so named.
   */
  predicate MirroredUpTo(s: Node, i: nat, d0: Node, d: Node, now: int)
    requires s.Dir? && i <= |s.children|
    decreases s, 1
  {
    && d0.Dir? && d.Dir? && d.name == d0.name && d.modified == d0.modified
    && |d0.children| <= |d.children|
    && (forall j :: 0 <= j < |d0.children| ==> Kept(d0.children[j], d.children[j], Done(s, i)))
    && (forall j :: |d0.children| <= j < |d.children| ==>
          NameOf(d.children[j]).None? || NameOf(d.children[j]).value in Done(s, i))
    && (forall j :: 0 <= j < i ==> MirrorsChild(s.children[j], d0, d, now))
  }

  /** The scan of `s` has reached child `i`, with `d` the destination folder as it is now. */
  predicate Progress(s: Node, i: nat, d0: Node, d: Node, now: int)
    requires s.Dir? && i <= |s.children|
  {
    && MirroredUpTo(s, i, d0, d, now) && Tidy(d)
    && forall j :: i <= j < |s.children| ==> Fits(s.children[j], d)
  }

  /** `d` and `d2` have the same first document called `name`. */
  predicate Agree(d: Node, d2: Node, name: string)
    requires d.Dir? && d2.Dir?
  {
    var f := FindFile(d, name);
    && FindFile(d2, name) == f
    && (f.Some? ==> f.value < |d2.children| && d2.children[f.value] == d.children[f.value])
  }

  lemma FindAppend(d: Node, m: Node, name: string)
    requires d.Dir?
    ensures var f := FindFile(d, name);
      FindFile(d.(children := d.children + [m]), name)
        == if f.Some? then f else if Named(m, name) then Some(|d.children|) else None
  {
    var d2 := d.(children := d.children + [m]);
    assert forall j :: 0 <= j < |d.children| ==> d2.children[j] == d.children[j];
    var f := FindFile(d, name);
    if f.Some? {
      assert Named(d2.children[f.value], name);
    } else if Named(m, name) {
      assert Named(d2.children[|d.children|], name);
    }
  }

  lemma FindSwap(d: Node, k: nat, m: Node, name: string)
    requires d.Dir? && k < |d.children| && (Named(d.children[k], name) <==> Named(m, name))
    ensures FindFile(d.(children := d.children[k := m]), name) == FindFile(d, name)
  {
    var d2 := d.(children := d.children[k := m]);
    assert forall j :: 0 <= j < |d.children| ==> (Named(d2.children[j], name) <==> Named(d.children[j], name));
  }

  lemma FindUnique(d: Node, k: nat, name: string)
    requires d.Dir? && UniqueNames(d.children) && k < |d.children| && Named(d.children[k], name)
    ensures FindFile(d, name) == Some(k)
  {
  }

  lemma DoneNext(s: Node, i: nat)
    requires s.Dir? && i < |s.children|
    ensures Done(s, i + 1) == Done(s, i) + if NameOf(s.children[i]).Some? then {NameOf(s.children[i]).value} else {}
  {
    var c := s.children[i];
    forall y | y in Done(s, i + 1) ensures y in Done(s, i) || NameOf(c) == Some(y) {
      var j :| 0 <= j < i + 1 && NameOf(s.children[j]).Some? && NameOf(s.children[j]).value == y;
      if j < i {
        assert y in Done(s, i);
      }
    }
    forall y | y in Done(s, i) ensures y in Done(s, i + 1) {
      var j :| 0 <= j < i && NameOf(s.children[j]).Some? && NameOf(s.children[j]).value == y;
      assert j < i + 1;
    }
  }

  /** A name not yet scanned: the children of a directory with unique names have distinct names. */
  lemma NotDone(s: Node, i: nat)
    requires s.Dir? && i < |s.children| && UniqueNames(s.children) && NameOf(s.children[i]).Some?
    ensures NameOf(s.children[i]).value !in Done(s, i)
  {
    forall j | 0 <= j < i
      ensures NameOf(s.children[j]) != NameOf(s.children[i])
    {
    }
  }

  /** A document of the current folder whose name no scanned child had is an original one, unchanged. */
  lemma Untouched(s: Node, i: nat, d0: Node, d: Node, now: int, k: nat)
    requires s.Dir? && i <= |s.children| && MirroredUpTo(s, i, d0, d, now)
    requires k < |d.children| && NameOf(d.children[k]).Some? && NameOf(d.children[k]).value !in Done(s, i)
    ensures k < |d0.children| && d.children[k] == d0.children[k]
  {
    if k < |d0.children| {
      assert Kept(d0.children[k], d.children[k], Done(s, i));
    }
  }

  lemma MirrorsChildAgree(c: Node, d0: Node, d: Node, d2: Node, now: int)
    requires d.Dir? && d2.Dir? && MirrorsChild(c, d0, d, now)
    requires !c.Deleted? ==> c.name.Some? && Agree(d, d2, c.name.value)
    ensures MirrorsChild(c, d0, d2, now)
  {
  }

  lemma FitsAgree(c: Node, d: Node, d2: Node)
    requires d.Dir? && d2.Dir? && Fits(c, d)
    requires c.Dir? && c.name.Some? ==> Agree(d, d2, c.name.value)
    ensures Fits(c, d2)
  {
  }

  /**
   * `d2` is the folder `d` after one source document called `x` came by:
   * only documents called `x` are changed (to ones still called `x`, or
   * deleted), and only documents called `x` (or unnamed) are added.
   */
  predicate Touches(d: Node, d2: Node, x: string)
    requires d.Dir?
  {
    && d2.Dir? && |d.children| <= |d2.children|
    && (forall j :: 0 <= j < |d.children| ==>
          d2.children[j] == d.children[j]
          || (Named(d.children[j], x) && (Named(d2.children[j], x) || d2.children[j].Deleted?)))
    && (forall j :: |d.children| <= j < |d2.children| ==> NameOf(d2.children[j]).None? || Named(d2.children[j], x))
  }

  lemma TouchesAgree(d: Node, d2: Node, x: string, y: string)
    requires d.Dir? && Touches(d, d2, x) && x != y
    ensures Agree(d, d2, y)
  {
    assert forall j :: 0 <= j < |d.children| ==> (Named(d2.children[j], y) <==> Named(d.children[j], y));
    var f := FindFile(d, y);
    var f2 := FindFile(d2, y);
    if f.Some? {
      assert Named(d2.children[f.value], y);
    }
  }

  /** The scan's state before the first child of `s`. */
  lemma ProgressStart(s: Node, d0: Node, now: int)
    requires s.Dir? && d0.Dir? && Tidy(d0) && Compatible(s, d0)
    ensures Progress(s, 0, d0, d0, now)
  {
    assert Done(s, 0) == {};
  }

  /** A deleted child of the source is passed over. */
  lemma ProgressSkip(s: Node, i: nat, d0: Node, d: Node, now: int)
    requires s.Dir? && i < |s.children| && s.children[i].Deleted? && Progress(s, i, d0, d, now)
    ensures Progress(s, i + 1, d0, d, now)
  {
    DoneNext(s, i);
  }

  /** One named child of the source handled: the folder changed only for its name, and mirrors it. */
  lemma ProgressStep(s: Node, i: nat, d0: Node, d: Node, d2: Node, now: int)
    requires s.Dir? && i < |s.children| && UniqueNames(s.children) && NameOf(s.children[i]).Some?
    requires Progress(s, i, d0, d, now)
    requires Tidy(d2) && d2.Dir? && d2.name == d.name && d2.modified == d.modified
    requires Touches(d, d2, NameOf(s.children[i]).value)
    requires MirrorsChild(s.children[i], d0, d2, now)
    ensures Progress(s, i + 1, d0, d2, now)
  {
    var x := NameOf(s.children[i]).value;
    DoneNext(s, i);
    NotDone(s, i);
    forall j | 0 <= j < i + 1
      ensures MirrorsChild(s.children[j], d0, d2, now)
    {
      if j < i && NameOf(s.children[j]).Some? {
        assert NameOf(s.children[j]).value in Done(s, i);
        TouchesAgree(d, d2, x, NameOf(s.children[j]).value);
        MirrorsChildAgree(s.children[j], d0, d, d2, now);
      } else if j < i {
        assert MirrorsChild(s.children[j], d0, d, now);
      }
    }
    forall j | i + 1 <= j < |s.children|
      ensures Fits(s.children[j], d2)
    {
      if s.children[j].Dir? && s.children[j].name.Some? {
        assert NameOf(s.children[j]) != NameOf(s.children[i]);
        TouchesAgree(d, d2, x, s.children[j].name.value);
        FitsAgree(s.children[j], d, d2);
      }
    }
    forall j | 0 <= j < |d0.children|
      ensures Kept(d0.children[j], d2.children[j], Done(s, i + 1))
    {
      assert Kept(d0.children[j], d.children[j], Done(s, i));
    }
    forall j | |d0.children| <= j < |d2.children|
      ensures NameOf(d2.children[j]).None? || NameOf(d2.children[j]).value in Done(s, i + 1)
    {
    }
  }

  /** `syncFile` in a tidy folder: the folder stays tidy, changes only for the file's name,
    * and then mirrors the file. */
  lemma PlaceFileMirrors(file: Node, name: string, d: Node, d0: Node, now: int)
    requires file.File? && file.name == Some(name) && Tidy(d) && d.Dir? && d0.Dir?
    requires var k := FindFile(d, name);
      k.Some? ==> k.value < |d0.children| && d.children[k.value] == d0.children[k.value]
    ensures var d2 := PlaceFile(file, name, d, now);
      && Tidy(d2) && d2.name == d.name && d2.modified == d.modified
      && Touches(d, d2, name) && MirrorsChild(file, d0, d2, now)
  {
    var d2 := PlaceFile(file, name, d, now);
    var nf := NewFile(file, name, now);
    match FindFile(d, name)
    case None =>
      FindAppend(d, nf, name);
    case Some(k) =>
      if LastModified(file) > LastModified(d.children[k]) + Tolerance {
        var d1 := d.(children := d.children[k := Deleted]);
        assert FindFile(d1, name).None? by {
          assert forall j :: 0 <= j < |d1.children| ==> !Named(d1.children[j], name);
        }
        FindAppend(d1, nf, name);
        assert d2 == d1.(children := d1.children + [nf]);
      }
  }

  /** `syncFile` into a tidy folder does not fail, and places the file. */
  lemma FileInTidy(file: Node, name: string, tree: Node, dest: Loc, errors: seq<string>, now: int)
    requires file.File? && file.name == Some(name)
    requires At(tree, dest).Some? && At(tree, dest).value.Dir? && Tidy(At(tree, dest).value)
    ensures var f := SyncFileSpec(file, tree, dest, errors, now);
      && f.result != Error && f.errors == errors
      && f.tree == Replace(tree, dest, PlaceFile(file, name, At(tree, dest).value, now))
  {
    SyncFileWhen(file, tree, dest, errors, now);
    ReplaceSame(tree, dest);
  }

  /** One file of the scan, in a tidy folder: no error, and the folder then mirrors it. */
  lemma FileStep(source: Node, i: nat, tree: Node, dest: Loc, counts: Counts, errors: seq<string>, now: int, d0: Node)
    returns (t: Node, next: Node, counts2: Counts)
    requires Lists(source) && WellNamed(source) && i < |source.children| && source.children[i].File?
    requires counts.copied + counts.updated <= counts.scanned
    requires At(tree, dest).Some? && Progress(source, i, d0, At(tree, dest).value, now)
    ensures counts2.copied + counts2.updated <= counts2.scanned == counts.scanned + 1
    ensures t == Replace(tree, dest, next) && At(t, dest) == Some(next) && Progress(source, i + 1, d0, next, now)
    ensures SyncChildren(source, i, tree, dest, counts, errors, now)
      == SyncChildren(source, i + 1, t, dest, counts2, errors, now)
  {
    var file := source.children[i];
    var name := file.name.value;
    var d := At(tree, dest).value;
    NotDone(source, i);
    if FindFile(d, name).Some? {
      Untouched(source, i, d0, d, now, FindFile(d, name).value);
    }
    PlaceFileMirrors(file, name, d, d0, now);
    next := PlaceFile(file, name, d, now);
    ProgressStep(source, i, d0, d, next, now);
    FileInTidy(file, name, tree, dest, errors, now);
    AtReplace(tree, dest, next);
    t := SyncFileSpec(file, tree, dest, errors, now).tree;
    counts2 := FileCounts(source, i, tree, dest, counts, errors, now);
  }

  /** The counters after the file `source.children[i]`: one more scanned, and one more copied or updated. */
  function FileCounts(source: Node, i: nat, tree: Node, dest: Loc, counts: Counts, errors: seq<string>, now: int): (r: Counts)
    requires Lists(source) && i < |source.children| && source.children[i].File?
    requires counts.copied + counts.updated <= counts.scanned
    ensures r.copied + r.updated <= r.scanned == counts.scanned + 1
    ensures var f := SyncFileSpec(source.children[i], tree, dest, errors, now);
      SyncChildren(source, i, tree, dest, counts, errors, now)
        == SyncChildren(source, i + 1, f.tree, dest, r, f.errors, now)
  {
    var f := SyncFileSpec(source.children[i], tree, dest, errors, now);
    match f.result
    case Copied => counts.(scanned := counts.scanned + 1, copied := counts.copied + 1)
    case Updated => counts.(scanned := counts.scanned + 1, updated := counts.updated + 1)
    case _ => counts.(scanned := counts.scanned + 1)
  }

  /**
   * The mirror property of `syncDirectories`: when every document below the
   * source has a name, names are unique in each directory, the destination
   * folder and everything below it list and accept new documents, and each
   * source subdirectory meets a directory of its name or nothing of its name,
   * then no error is logged, every document below the source is scanned, only
   * the destination folder changes, it stays so, and it mirrors the source.
   */
  lemma SyncDirsMirrors(source: Node, tree: Node, dest: Loc, errors: seq<string>, now: int)
    requires source.Dir? && WellNamed(source)
    requires At(tree, dest).Some? && At(tree, dest).value.Dir? && Tidy(At(tree, dest).value)
    requires Compatible(source, At(tree, dest).value)
    ensures var r := SyncDirs(source, tree, dest, errors, now);
      && r.errors == errors && r.counts.scanned == Census(source)
      && At(r.tree, dest).Some? && r.tree == Replace(tree, dest, At(r.tree, dest).value)
      && Tidy(At(r.tree, dest).value) && Mirrored(source, At(tree, dest).value, At(r.tree, dest).value, now)
    decreases source, 1
  {
    var d0 := At(tree, dest).value;
    ProgressStart(source, d0, now);
    SyncChildrenMirrors(source, 0, tree, dest, Counts(0, 0, 0), errors, now, d0);
  }

  /** The loop of `syncDirectories` from child `i` on keeps the mirror invariant `Progress`. */
  lemma SyncChildrenMirrors(source: Node, i: nat, tree: Node, dest: Loc, counts: Counts, errors: seq<string>, now: int, d0: Node)
    requires Lists(source) && WellNamed(source) && i <= |source.children|
    requires counts.copied + counts.updated <= counts.scanned
    requires At(tree, dest).Some? && Progress(source, i, d0, At(tree, dest).value, now)
    ensures var r := SyncChildren(source, i, tree, dest, counts, errors, now);
      && r.errors == errors && r.counts.scanned == counts.scanned + CensusFrom(source, i)
      && At(r.tree, dest).Some? && r.tree == Replace(tree, dest, At(r.tree, dest).value)
      && Progress(source, |source.children|, d0, At(r.tree, dest).value, now)
    decreases source, 0, |source.children| - i, 1
  {
    ReplaceSame(tree, dest);
    if i < |source.children| {
      var file := source.children[i];
      var t, next, counts2;
      if file.Deleted? {
        ProgressSkip(source, i, d0, At(tree, dest).value, now);
        t, next, counts2 := tree, At(tree, dest).value, counts;
      } else if file.File? {
        t, next, counts2 := FileStep(source, i, tree, dest, counts, errors, now, d0);
      } else if FindFile(At(tree, dest).value, file.name.value).Some? {
        t, next, counts2 := DirFound(source, i, tree, dest, counts, errors, now, d0);
      } else {
        t, next, counts2 := DirCreated(source, i, tree, dest, counts, errors, now, d0);
      }
      SyncChildrenMirrors(source, i + 1, t, dest, counts2, errors, now, d0);
      var r := SyncChildren(source, i + 1, t, dest, counts2, errors, now);
      ReplaceTwice(tree, dest, next, At(r.tree, dest).value);
    }
  }

  /** The loop's step over a subdirectory that is entered at `c.at`: scan it, then go on. */
  lemma DirUnfold(source: Node, i: nat, tree: Node, dest: Loc, counts: Counts, errors: seq<string>, now: int, c: Creation)
    requires Lists(source) && i < |source.children| && source.children[i].Dir? && source.children[i].name.Some?
    requires counts.copied + counts.updated <= counts.scanned
    requires DirAt(tree, dest).Some?
    requires var name := source.children[i].name.value;
      var found := FindFile(DirAt(tree, dest).value, name);
      c == if found.Some? then Creation(tree, Some(dest + [found.value])) else Create(tree, dest, NewDir(name, now))
    requires c.at.Some?
    ensures var sub := SyncDirs(source.children[i], c.tree, c.at.value, errors, now);
      SyncChildren(source, i, tree, dest, counts, errors, now)
        == SyncChildren(source, i + 1, sub.tree, dest, counts.(scanned := counts.scanned + 1).Plus(sub.counts), sub.errors, now)
  {
  }

  /** A subdirectory of the source whose namesake is in the destination folder: the scan descends into it. */
  lemma DirFound(source: Node, i: nat, tree: Node, dest: Loc, counts: Counts, errors: seq<string>, now: int, d0: Node)
    returns (t: Node, next: Node, counts2: Counts)
    requires Lists(source) && WellNamed(source) && i < |source.children| && source.children[i].Dir?
    requires counts.copied + counts.updated <= counts.scanned
    requires At(tree, dest).Some? && Progress(source, i, d0, At(tree, dest).value, now)
    requires FindFile(At(tree, dest).value, source.children[i].name.value).Some?
    ensures counts2.copied + counts2.updated <= counts2.scanned == counts.scanned + 1 + Census(source.children[i])
    ensures t == Replace(tree, dest, next) && At(t, dest) == Some(next) && Progress(source, i + 1, d0, next, now)
    ensures SyncChildren(source, i, tree, dest, counts, errors, now)
      == SyncChildren(source, i + 1, t, dest, counts2, errors, now)
    decreases source, 0, |source.children| - i, 0
  {
    var file := source.children[i];
    var name := file.name.value;
    var d := At(tree, dest).value;
    var k := FindFile(d, name).value;
    NotDone(source, i);
    Untouched(source, i, d0, d, now, k);
    ReplaceChild(tree, dest, d, k, d.children[k]);
    SyncDirsMirrors(file, tree, dest + [k], errors, now);
    var sub := SyncDirs(file, tree, dest + [k], errors, now);
    var e := At(sub.tree, dest + [k]).value;
    ReplaceChild(tree, dest, d, k, e);
    next := d.(children := d.children[k := e]);
    t := sub.tree;
    FindSwap(d, k, e, name);
    assert forall j :: 0 <= j < |d.children| ==> NameOf(next.children[j]) == NameOf(d.children[j]);
    ProgressStep(source, i, d0, d, next, now);
    DirUnfold(source, i, tree, dest, counts, errors, now, Creation(tree, Some(dest + [k])));
    counts2 := counts.(scanned := counts.scanned + 1).Plus(sub.counts);
  }

  /** A subdirectory of the source with no namesake in the destination folder: it is created there first. */
  lemma DirCreated(source: Node, i: nat, tree: Node, dest: Loc, counts: Counts, errors: seq<string>, now: int, d0: Node)
    returns (t: Node, next: Node, counts2: Counts)
    requires Lists(source) && WellNamed(source) && i < |source.children| && source.children[i].Dir?
    requires counts.copied + counts.updated <= counts.scanned
    requires At(tree, dest).Some? && Progress(source, i, d0, At(tree, dest).value, now)
    requires FindFile(At(tree, dest).value, source.children[i].name.value).None?
    ensures counts2.copied + counts2.updated <= counts2.scanned == counts.scanned + 1 + Census(source.children[i])
    ensures t == Replace(tree, dest, next) && At(t, dest) == Some(next) && Progress(source, i + 1, d0, next, now)
    ensures SyncChildren(source, i, tree, dest, counts, errors, now)
      == SyncChildren(source, i + 1, t, dest, counts2, errors, now)
    decreases source, 0, |source.children| - i, 0
  {
    var file := source.children[i];
    var name := file.name.value;
    var d := At(tree, dest).value;
    var nd := NewDir(name, now);
    var d1 := d.(children := d.children + [nd]);
    var t1 := Replace(tree, dest, d1);
    AtReplace(tree, dest, d1);
    ReplaceChild(t1, dest, d1, |d.children|, nd);
    SyncDirsMirrors(file, t1, dest + [|d.children|], errors, now);
    var sub := SyncDirs(file, t1, dest + [|d.children|], errors, now);
    var e := At(sub.tree, dest + [|d.children|]).value;
    ReplaceChild(t1, dest, d1, |d.children|, e);
    next := d.(children := d.children + [e]);
    assert d1.(children := d1.children[|d.children| := e]) == next;
    ReplaceTwice(tree, dest, d1, next);
    t := sub.tree;
    FindAppend(d, e, name);
    ProgressStep(source, i, d0, d, next, now);
    DirUnfold(source, i, tree, dest, counts, errors, now, Creation(t1, Some(dest + [|d.children|])));
    counts2 := counts.(scanned := counts.scanned + 1).Plus(sub.counts);
  }
}
