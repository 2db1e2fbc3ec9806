/**
 * The handle abstraction: a document tree as the storage provider exposes it
 * (a `DocumentFile` tree), the handles that point into it, and the few
 * operations the engine performs on it (list, find a child by name, create a
 * child, delete).
 *
 * Handle-level failures are properties of the documents: a directory that is
 * not `listable` makes `listFiles` (and so `findFile`) throw, one that is not
 * `writable` makes `createFile`/`createDirectory` return null, and a file that
 * is not `readable` yields no input stream.
 */
module Documents {
  import opened Wrappers

  type Byte = bv8

  /** A handle: the child indices that lead from a tree's root to a document. */
  type Loc = seq<nat>

  /** Timestamps at most this far apart (in milliseconds) count as the same. */
  const Tolerance: int := 2000

  /** The mime type used when a source file reports none. */
  const OctetStream: string := "application/octet-stream"

  /**
   * A document. A deleted document keeps its slot among its siblings as
   * `Deleted`, so that handles to its siblings stay valid; listings skip it.
   */
  datatype Node =
    | File(name: Option<string>, modified: int, mime: Option<string>, content: seq<Byte>, readable: bool)
    | Dir(name: Option<string>, modified: int, children: seq<Node>, listable: bool, writable: bool)
    | Deleted

  /** `name`: the display name, null for a document that no longer exists. */
  function NameOf(n: Node): Option<string> {
    if n.Deleted? then None else n.name
  }

  /** `lastModified()`: 0 for a document that no longer exists. */
  function LastModified(n: Node): int {
    if n.Deleted? then 0 else n.modified
  }

  /** `listFiles()` returns instead of throwing. */
  predicate Lists(n: Node) {
    n.Dir? && n.listable
  }

  /** A listed child whose name is `name`. */
  predicate Named(n: Node, name: string) {
    NameOf(n) == Some(name)
  }

  /** `sourceFile.type ?: "application/octet-stream"`. */
  function MimeOf(src: Node): string {
    if src.File? then src.mime.GetOr(OctetStream) else OctetStream
  }

  /** The directory `createDirectory(name)` makes, stamped with the time `now`. */
  function NewDir(name: string, now: int): Node {
    Dir(Some(name), now, [], true, true)
  }

  /** The file that `createFile(type, name)` makes and the stream copy fills: the source's
    * bytes when its input stream opens, no bytes when it does not. */
  function NewFile(src: Node, name: string, now: int): Node {
    File(Some(name), now, Some(MimeOf(src)), if src.File? && src.readable then src.content else [], true)
  }

  function FindFrom(children: seq<Node>, name: string, i: nat): (r: Option<nat>)
    requires i <= |children|
    ensures r.Some? ==> i <= r.value < |children| && Named(children[r.value], name)
    ensures r.Some? ==> forall j :: i <= j < r.value ==> !Named(children[j], name)
    ensures r.None? ==> forall j :: i <= j < |children| ==> !Named(children[j], name)
    decreases |children| - i
  {
    if i == |children| then None
    else if Named(children[i], name) then Some(i)
    else FindFrom(children, name, i + 1)
  }

  /** `findFile(name)` on a directory that lists: the first existing child called `name`,
    * whatever its kind. */
  function FindFile(dir: Node, name: string): (r: Option<nat>)
    requires dir.Dir?
    ensures r.Some? ==> r.value < |dir.children| && Named(dir.children[r.value], name)
    ensures r.Some? ==> forall j :: 0 <= j < r.value ==> !Named(dir.children[j], name)
    ensures r.None? ==> forall j :: 0 <= j < |dir.children| ==> !Named(dir.children[j], name)
  {
    FindFrom(dir.children, name, 0)
  }

  /** The document a handle points to, if the handle is valid in `n`. */
  function At(n: Node, loc: Loc): Option<Node>
    decreases |loc|
  {
    if loc == [] then Some(n)
    else if n.Dir? && loc[0] < |n.children| then At(n.children[loc[0]], loc[1..])
    else None
  }

  /** `n` with the document at `loc` replaced by `m` (no change for an invalid handle). */
  function Replace(n: Node, loc: Loc, m: Node): Node
    decreases |loc|
  {
    if loc == [] then m
    else if n.Dir? && loc[0] < |n.children| then
      n.(children := n.children[loc[0] := Replace(n.children[loc[0]], loc[1..], m)])
    else n
  }

  /** The names of the documents passed through on the way down `loc`. */
  function NamesAlong(n: Node, loc: Loc): seq<Option<string>>
    decreases |loc|
  {
    if loc != [] && n.Dir? && loc[0] < |n.children| then
      [NameOf(n.children[loc[0]])] + NamesAlong(n.children[loc[0]], loc[1..])
    else []
  }

  /** A tree after a creation, and the handle of the created document (none when creation failed). */
  datatype Creation = Creation(tree: Node, at: Option<Loc>)

  /** `createFile`/`createDirectory` on the directory at `at`: the new document becomes its
    * last child; null unless that directory exists and is writable. */
  function Create(n: Node, at: Loc, child: Node): Creation {
    match At(n, at)
    case Some(d) =>
      if d.Dir? && d.writable then
        Creation(Replace(n, at, d.(children := d.children + [child])), Some(at + [|d.children|]))
      else Creation(n, None)
    case None => Creation(n, None)
  }

  /**
   * `b` is `a` with zero or more documents added to its directories: nothing that
   * was in `a` is removed, moved or altered.
   */
  predicate Grows(a: Node, b: Node)
    decreases a
  {
    if a.Dir? then
      && b.Dir? && b.name == a.name && b.modified == a.modified
      && b.listable == a.listable && b.writable == a.writable
      && |a.children| <= |b.children|
      && forall i :: 0 <= i < |a.children| ==> Grows(a.children[i], b.children[i])
    else b == a
  }

  /** Every directory in the tree lists and accepts new children: no handle-level failure can occur. */
  predicate Open(n: Node)
    decreases n
  {
    n.Dir? ==> n.listable && n.writable && forall i :: 0 <= i < |n.children| ==> Open(n.children[i])
  }

  lemma {:induction false} AtConcat(n: Node, a: Loc, b: Loc)
    ensures At(n, a + b) == if At(n, a).Some? then At(At(n, a).value, b) else None
    decreases |a|
  {
    if a == [] {
      assert a + b == b;
    } else {
      assert (a + b)[0] == a[0];
      assert (a + b)[1..] == a[1..] + b;
      if n.Dir? && a[0] < |n.children| {
        AtConcat(n.children[a[0]], a[1..], b);
      }
    }
  }

  lemma {:induction false} ReplaceConcat(n: Node, a: Loc, b: Loc, m: Node)
    requires At(n, a).Some?
    ensures Replace(n, a + b, m) == Replace(n, a, Replace(At(n, a).value, b, m))
    decreases |a|
  {
    if a == [] {
      assert a + b == b;
    } else {
      assert (a + b)[0] == a[0];
      assert (a + b)[1..] == a[1..] + b;
      ReplaceConcat(n.children[a[0]], a[1..], b, m);
    }
  }

  lemma {:induction false} ReplaceTwice(n: Node, loc: Loc, m1: Node, m2: Node)
    ensures Replace(Replace(n, loc, m1), loc, m2) == Replace(n, loc, m2)
    decreases |loc|
  {
    if loc != [] && n.Dir? && loc[0] < |n.children| {
      ReplaceTwice(n.children[loc[0]], loc[1..], m1, m2);
    }
  }

  lemma {:induction false} ReplaceSame(n: Node, loc: Loc)
    requires At(n, loc).Some?
    ensures Replace(n, loc, At(n, loc).value) == n
    decreases |loc|
  {
    if loc != [] {
      ReplaceSame(n.children[loc[0]], loc[1..]);
    }
  }

  lemma {:induction false} AtReplace(n: Node, loc: Loc, m: Node)
    requires At(n, loc).Some?
    ensures At(Replace(n, loc, m), loc) == Some(m)
    decreases |loc|
  {
    if loc != [] {
      AtReplace(n.children[loc[0]], loc[1..], m);
    }
  }

  /** Replacing the child `k` of the directory at `dest` is replacing that directory. */
  lemma ReplaceChild(tree: Node, dest: Loc, d: Node, k: nat, m: Node)
    requires At(tree, dest) == Some(d) && d.Dir? && k < |d.children|
    ensures At(tree, dest + [k]) == Some(d.children[k])
    ensures Replace(tree, dest + [k], m) == Replace(tree, dest, d.(children := d.children[k := m]))
    ensures At(Replace(tree, dest + [k], m), dest) == Some(d.(children := d.children[k := m]))
  {
    AtConcat(tree, dest, [k]);
    ReplaceConcat(tree, dest, [k], m);
    assert Replace(d, [k], m) == d.(children := d.children[k := m]) by {
      assert [k][1..] == [];
    }
    AtReplace(tree, dest, d.(children := d.children[k := m]));
  }

  /** Two handles neither of which leads through the other. */
  predicate Apart(a: Loc, b: Loc) {
    exists i :: 0 <= i < |a| && i < |b| && a[i] != b[i]
  }

  /** Replacing one document leaves every document at a handle apart from it as it was. */
  lemma {:induction false} AtReplaceApart(n: Node, loc: Loc, other: Loc, m: Node)
    requires Apart(loc, other)
    ensures At(Replace(n, loc, m), other) == At(n, other)
    decreases |loc|
  {
    var i :| 0 <= i < |loc| && i < |other| && loc[i] != other[i];
    if n.Dir? && loc[0] < |n.children| && loc[0] == other[0] {
      assert loc[1..][i - 1] != other[1..][i - 1];
      AtReplaceApart(n.children[loc[0]], loc[1..], other[1..], m);
    }
  }

  /** Two handles that are not apart: one leads through the other (or they are equal). */
  lemma NotApart(a: Loc, b: Loc)
    requires !Apart(a, b)
    ensures (|a| <= |b| && b == a + b[|a|..]) || (|b| < |a| && a == b + a[|b|..])
  {
    if |a| <= |b| {
      assert forall i :: 0 <= i < |a| ==> a[i] == b[i];
      assert b == b[..|a|] + b[|a|..];
    } else {
      assert forall i :: 0 <= i < |b| ==> a[i] == b[i];
      assert a == a[..|b|] + a[|b|..];
    }
  }

  /** Replacing one document leaves the names along every handle apart from it as they were. */
  lemma {:induction false} NamesAlongReplaceApart(n: Node, loc: Loc, other: Loc, m: Node)
    requires Apart(loc, other)
    ensures NamesAlong(Replace(n, loc, m), other) == NamesAlong(n, other)
    decreases |loc|
  {
    var i :| 0 <= i < |loc| && i < |other| && loc[i] != other[i];
    if n.Dir? && loc[0] < |n.children| && loc[0] == other[0] {
      var c := n.children[loc[0]];
      assert loc[1..][i - 1] != other[1..][i - 1];
      NamesAlongReplaceApart(c, loc[1..], other[1..], m);
      assert NameOf(Replace(c, loc[1..], m)) == NameOf(c);
    }
  }

  lemma {:induction false} GrowsRefl(n: Node)
    ensures Grows(n, n)
    decreases n
  {
    if n.Dir? {
      forall i | 0 <= i < |n.children| ensures Grows(n.children[i], n.children[i]) {
        GrowsRefl(n.children[i]);
      }
    }
  }

  /** Growing a document inside a tree grows the tree. */
  lemma {:induction false} GrowsReplace(n: Node, loc: Loc, m: Node)
    requires At(n, loc).Some? && Grows(At(n, loc).value, m)
    ensures Grows(n, Replace(n, loc, m))
    decreases |loc|
  {
    if loc != [] {
      GrowsReplace(n.children[loc[0]], loc[1..], m);
      var r := Replace(n, loc, m);
      forall i | 0 <= i < |n.children| ensures Grows(n.children[i], r.children[i]) {
        if i != loc[0] {
          GrowsRefl(n.children[i]);
        }
      }
    }
  }

  /** In a grown tree every old handle is still valid, leads past the same names,
    * and points to a grown version of the same document. */
  lemma {:induction false} GrowsAt(a: Node, b: Node, loc: Loc)
    requires Grows(a, b) && At(a, loc).Some?
    ensures At(b, loc).Some? && Grows(At(a, loc).value, At(b, loc).value)
    ensures NamesAlong(b, loc) == NamesAlong(a, loc)
    decreases |loc|
  {
    if loc != [] {
      var k := loc[0];
      GrowsAt(a.children[k], b.children[k], loc[1..]);
      assert NameOf(b.children[k]) == NameOf(a.children[k]) by {
        assert Grows(a.children[k], b.children[k]);
      }
    }
  }

  /** A successful creation adds exactly the new child, as the last child of the directory,
    * and leaves everything else in the tree in place. */
  lemma CreateFacts(n: Node, at: Loc, child: Node)
    ensures var c := Create(n, at, child);
      && Grows(n, c.tree)
      && (c.at.Some? <==> At(n, at).Some? && At(n, at).value.Dir? && At(n, at).value.writable)
      && (c.at.Some? ==>
            && c.at.value == at + [|At(n, at).value.children|]
            && At(c.tree, c.at.value) == Some(child)
            && NamesAlong(c.tree, c.at.value) == NamesAlong(n, at) + [NameOf(child)]
            && forall l :: Apart(c.at.value, l) ==> At(c.tree, l) == At(n, l))
      && (c.at.None? ==> c.tree == n)
  {
    var c := Create(n, at, child);
    GrowsRefl(n);
    if c.at.Some? {
      forall l | Apart(c.at.value, l) ensures At(c.tree, l) == At(n, l) {
        CreateApart(n, at, child, l);
      }
      var d := At(n, at).value;
      var d' := d.(children := d.children + [child]);
      GrowsRefl(d);
      GrowsReplace(n, at, d');
      AtReplace(n, at, d');
      AtConcat(c.tree, at, [|d.children|]);
      NamesAlongExtend(c.tree, at, |d.children|);
      GrowsAt(n, c.tree, at);
    }
  }

  /** A creation leaves every document at a handle apart from the new one where it was. */
  lemma CreateApart(n: Node, at: Loc, child: Node, l: Loc)
    requires At(n, at).Some? && At(n, at).value.Dir? && At(n, at).value.writable
    requires Apart(at + [|At(n, at).value.children|], l)
    ensures At(Create(n, at, child).tree, l) == At(n, l)
  {
    var d := At(n, at).value;
    var d' := d.(children := d.children + [child]);
    var k := |d.children|;
    var i :| 0 <= i < |at| + 1 && i < |l| && (at + [k])[i] != l[i];
    if Apart(at, l) {
      AtReplaceApart(n, at, l, d');
    } else {
      assert i == |at|;
      var j := l[|at|];
      assert j != k;
      assert l == at + l[|at|..];
      AtConcat(n, at, l[|at|..]);
      AtReplace(n, at, d');
      AtConcat(Replace(n, at, d'), at, l[|at|..]);
      assert l[|at|..] == [j] + l[|at| + 1..];
    }
  }

  lemma {:induction false} NamesAlongExtend(n: Node, at: Loc, k: nat)
    requires At(n, at).Some? && At(n, at).value.Dir? && k < |At(n, at).value.children|
    ensures NamesAlong(n, at + [k]) == NamesAlong(n, at) + [NameOf(At(n, at).value.children[k])]
    decreases |at|
  {
    if at == [] {
      assert at + [k] == [k];
    } else {
      assert (at + [k])[1..] == at[1..] + [k];
      NamesAlongExtend(n.children[at[0]], at[1..], k);
    }
  }

  /** Replacing a document by one without failures keeps a tree free of failures. */
  lemma {:induction false} OpenReplace(n: Node, loc: Loc, m: Node)
    requires Open(n) && Open(m)
    ensures Open(Replace(n, loc, m))
    decreases |loc|
  {
    if loc != [] && n.Dir? && loc[0] < |n.children| {
      OpenReplace(n.children[loc[0]], loc[1..], m);
      var r := Replace(n, loc, m);
      assert forall i :: 0 <= i < |r.children| ==> r.children[i] == n.children[i] || i == loc[0];
    }
  }

  /** Which of the two trees of a sync pair an operation acts on. */
  datatype Side = Source | Dest {
    function Other(): Side {
      if this == Source then Dest else Source
    }
  }

  /**
   * The storage provider's state for one sync pair: the source tree and the
   * destination tree, both changed in place by the engine.
   */
  class DocumentStore {
    var source: Node
    var dest: Node

    constructor (source: Node, dest: Node)
      ensures this.source == source && this.dest == dest
    {
      this.source := source;
      this.dest := dest;
    }

    function Root(side: Side): Node
      reads this
    {
      if side == Source then source else dest
    }

    /** `createFile`/`createDirectory` on the directory handle `at` of one tree. */
    method CreateChild(side: Side, at: Loc, child: Node) returns (created: Option<Loc>)
      modifies this
      ensures Root(side) == Create(old(Root(side)), at, child).tree
      ensures created == Create(old(Root(side)), at, child).at
      ensures Root(side.Other()) == old(Root(side.Other()))
    {
      var c := Create(Root(side), at, child);
      if side == Source { source := c.tree; } else { dest := c.tree; }
      created := c.at;
    }

    /** `delete()` on the document handle `at` of one tree. */
    method Delete(side: Side, at: Loc)
      modifies this
      ensures Root(side) == Replace(old(Root(side)), at, Deleted)
      ensures Root(side.Other()) == old(Root(side.Other()))
    {
      if side == Source {
        source := Replace(source, at, Deleted);
      } else {
        dest := Replace(dest, at, Deleted);
      }
    }
  }
}
