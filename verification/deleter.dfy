/**
 * `delete(path)`, `deleteDirectory` and `delete(path, matchCriteria)`.
 *
 * `File.delete()` removes a file, or a directory that is empty, unless the
 * file system refuses: `locked` is the set of paths whose deletion it
 * refuses. The root of the tree can never be removed.
 */
module TreeDeleter {
  import opened Wrappers
  import opened FileTree

  /**
   * The `File.delete()` calls that `deleteDirectory` makes on the node `n`
   * at `at`: everything below each child, child by child in `listFiles()`
   * order, and `at` itself last.
   */
  function DeleteOrder(n: Node, at: Path): (r: seq<Path>)
    ensures |r| >= 1 && r[|r| - 1] == at
    ensures forall p :: p in r ==> IsPrefix(at, p)
    decreases n
  {
    (if n.Dir? then DeleteOrderChildren(n.children, at) else []) + [at]
  }

  function DeleteOrderChildren(children: seq<Node>, parent: Path): (r: seq<Path>)
    ensures forall p :: p in r ==> IsPrefix(parent, p) && |p| > |parent|
    decreases children
  {
    if children == [] then []
    else
      var last := children[|children| - 1];
      var own := DeleteOrder(last, parent + [last.name]);
      assert forall p :: p in own ==> IsPrefix(parent, p) && |p| > |parent| by {
        forall p | p in own ensures IsPrefix(parent, p) && |p| > |parent| {
          assert IsPrefix(parent + [last.name], p);
          assert p[..|parent|] == (parent + [last.name])[..|parent|];
        }
      }
      DeleteOrderChildren(children[..|children| - 1], parent) + own
  }

  /**
   * What is left of the node `n` at `at` after `deleteDirectory`: a node
   * stays when its deletion is refused or, for a directory, when something
   * inside it stayed.
   */
  function Remains(n: Node, at: Path, locked: set<Path>): (r: Option<Node>)
    ensures r.Some? ==> r.value.name == n.name
    ensures at in locked ==> r.Some?
    ensures n.File? ==> (r.None? <==> at !in locked)
    decreases n
  {
    var kept := if n.Dir? then RemainsChildren(n.children, at, locked) else [];
    if kept == [] && at !in locked then None
    else if n.Dir? then Some(Dir(n.name, n.hidden, kept))
    else Some(n)
  }

  function RemainsChildren(children: seq<Node>, parent: Path, locked: set<Path>): seq<Node>
    decreases children
  {
    if children == [] then []
    else
      var last := children[|children| - 1];
      RemainsChildren(children[..|children| - 1], parent, locked) + Kept(Remains(last, parent + [last.name], locked))
  }

  /** A child that stays, as a list of zero or one children. */
  function Kept(r: Option<Node>): seq<Node>
  {
    if r.Some? then [r.value] else []
  }

  /** One more child of the loop of `deleteDirectory`. */
  lemma DeleteChildrenStep(children: seq<Node>, parent: Path, locked: set<Path>, i: nat)
    requires i < |children|
    ensures var c := children[i];
      && DeleteOrderChildren(children[..i + 1], parent)
         == DeleteOrderChildren(children[..i], parent) + DeleteOrder(c, parent + [c.name])
      && RemainsChildren(children[..i + 1], parent, locked)
         == RemainsChildren(children[..i], parent, locked) + Kept(Remains(c, parent + [c.name], locked))
  {
    assert children[..i + 1][..i] == children[..i];
  }

  /**
   * `deleteDirectory`: deletes everything below `n` depth first, then `n`
   * itself; the answer is whether `n` is gone.
   */
  method DeleteDirectory(n: Node, at: Path, locked: set<Path>)
    returns (deleted: bool, rest: Option<Node>, calls: seq<Path>)
    ensures rest == Remains(n, at, locked)
    ensures calls == DeleteOrder(n, at)
    ensures deleted <==> rest.None?
    decreases n
  {
    var kept: seq<Node> := [];
    calls := [];
    if n.Dir? {
      kept, calls := DeleteChildren(n.children, at, locked);
    }
    calls := calls + [at];
    if kept == [] && at !in locked {
      rest := None;
    } else if n.Dir? {
      rest := Some(Dir(n.name, n.hidden, kept));
    } else {
      rest := Some(n);
    }
    deleted := rest.None?;
  }

  /** The loop of `deleteDirectory` over `listFiles()`: each child, in order, with `deleteDirectory`. */
  method DeleteChildren(children: seq<Node>, parent: Path, locked: set<Path>)
    returns (kept: seq<Node>, calls: seq<Path>)
    ensures kept == RemainsChildren(children, parent, locked)
    ensures calls == DeleteOrderChildren(children, parent)
    decreases children
  {
    kept, calls := [], [];
    assert children[..0] == [];
    for i := 0 to |children|
      invariant kept == RemainsChildren(children[..i], parent, locked)
      invariant calls == DeleteOrderChildren(children[..i], parent)
    {
      var c := children[i];
      var _, r, cs := DeleteDirectory(c, parent + [c.name], locked);
      DeleteChildrenStep(children, parent, locked, i);
      kept := kept + Kept(r);
      calls := calls + cs;
    }
    assert children[..|children|] == children;
  }

  /** `deleteDirectory` answers true exactly when none of its deletions is refused. */
  lemma {:induction false} DeletedIffNothingLocked(n: Node, at: Path, locked: set<Path>)
    ensures Remains(n, at, locked).None? <==> forall p :: p in DeleteOrder(n, at) ==> p !in locked
    decreases n
  {
    if n.Dir? {
      ChildrenDeletedIffNothingLocked(n.children, at, locked);
    }
  }

  lemma {:induction false} ChildrenDeletedIffNothingLocked(children: seq<Node>, parent: Path, locked: set<Path>)
    ensures RemainsChildren(children, parent, locked) == []
            <==> forall p :: p in DeleteOrderChildren(children, parent) ==> p !in locked
    decreases children
  {
    if children != [] {
      var last := children[|children| - 1];
      ChildrenDeletedIffNothingLocked(children[..|children| - 1], parent, locked);
      DeletedIffNothingLocked(last, parent + [last.name], locked);
    }
  }

  /** `deleteDirectory` tries to delete every walked path, each exactly once. */
  lemma {:induction false} DeletesEveryWalkedPathOnce(n: Node, at: Path)
    ensures multiset(DeleteOrder(n, at)) == multiset(Walk(n, at))
    decreases n
  {
    if n.Dir? {
      ChildrenDeleteEveryWalkedPathOnce(n.children, at);
    }
  }

  lemma {:induction false} ChildrenDeleteEveryWalkedPathOnce(children: seq<Node>, parent: Path)
    ensures multiset(DeleteOrderChildren(children, parent)) == multiset(WalkChildren(children, parent))
    decreases children
  {
    if children != [] {
      var front, last := children[..|children| - 1], children[|children| - 1];
      var at := parent + [last.name];
      ChildrenDeleteEveryWalkedPathOnce(front, parent);
      DeletesEveryWalkedPathOnce(last, at);
      var a, b := DeleteOrderChildren(front, parent), DeleteOrder(last, at);
      assert multiset(DeleteOrderChildren(children, parent)) == multiset(a) + multiset(b);
      WalkChildrenLast(children, parent);
      var wc, w := WalkChildren(front, parent), Walk(last, at);
      assert multiset(WalkChildren(children, parent)) == multiset(wc) + multiset(w);
    }
  }

  /** No path in `order` comes before a path strictly below it. */
  predicate ChildrenFirst(order: seq<Path>)
  {
    forall i, j :: 0 <= i < j < |order| && IsPrefix(order[i], order[j]) ==> order[i] == order[j]
  }

  lemma ChildrenFirstConcat(a: seq<Path>, b: seq<Path>)
    requires ChildrenFirst(a) && ChildrenFirst(b)
    requires forall x, y :: x in a && y in b && IsPrefix(x, y) ==> x == y
    ensures ChildrenFirst(a + b)
  {
    var o := a + b;
    forall i, j | 0 <= i < j < |o| && IsPrefix(o[i], o[j]) ensures o[i] == o[j] {
      if j < |a| {
        assert o[i] == a[i] && o[j] == a[j];
      } else if i >= |a| {
        assert o[i] == b[i - |a|] && o[j] == b[j - |a|];
      } else {
        assert o[i] in a && o[j] in b;
      }
    }
  }

  /** Every path deleted below `parent` continues with the name of one of the children. */
  lemma {:induction false} DeleteOrderChildrenNames(children: seq<Node>, parent: Path)
    ensures forall p :: p in DeleteOrderChildren(children, parent) ==>
              exists k :: 0 <= k < |children| && p[|parent|] == children[k].name
    decreases children
  {
    if children != [] {
      var front, last := children[..|children| - 1], children[|children| - 1];
      DeleteOrderChildrenNames(front, parent);
      forall p | p in DeleteOrderChildren(children, parent)
        ensures exists k :: 0 <= k < |children| && p[|parent|] == children[k].name
      {
        if p in DeleteOrderChildren(front, parent) {
          var k :| 0 <= k < |front| && p[|parent|] == front[k].name;
          assert front[k] == children[k];
        } else {
          assert p in DeleteOrder(last, parent + [last.name]);
          assert IsPrefix(parent + [last.name], p);
          assert p[|parent|] == (parent + [last.name])[|parent|];
        }
      }
    }
  }

  /**
   * In a tree whose directories never hold two children of the same name,
   * `deleteDirectory` deletes what is inside a directory before the directory.
   */
  lemma {:induction false} DeletesChildrenFirst(n: Node, at: Path)
    requires Valid(n)
    ensures ChildrenFirst(DeleteOrder(n, at))
    decreases n
  {
    var inner := if n.Dir? then DeleteOrderChildren(n.children, at) else [];
    if n.Dir? {
      ChildrenDeletedFirst(n.children, at);
    }
    ChildrenFirstConcat(inner, [at]);
  }

  lemma {:induction false} ChildrenDeletedFirst(children: seq<Node>, parent: Path)
    requires DistinctNames(children)
    requires forall c :: c in children ==> Valid(c)
    ensures ChildrenFirst(DeleteOrderChildren(children, parent))
    decreases children
  {
    if children != [] {
      var front, last := children[..|children| - 1], children[|children| - 1];
      var at := parent + [last.name];
      ChildrenDeletedFirst(front, parent);
      DeletesChildrenFirst(last, at);
      DeleteOrderChildrenNames(front, parent);
      forall x, y | x in DeleteOrderChildren(front, parent) && y in DeleteOrder(last, at)
        ensures !IsPrefix(x, y)
      {
        var k :| 0 <= k < |front| && x[|parent|] == front[k].name;
        assert front[k] == children[k];
        assert IsPrefix(at, y);
        assert y[|parent|] == at[|parent|] == last.name;
        assert x[|parent|] != y[|parent|];
      }
      ChildrenFirstConcat(DeleteOrderChildren(front, parent), DeleteOrder(last, at));
    }
  }

  /** The refused paths together with the root of the tree. */
  function Refused(locked: set<Path>): set<Path>
  {
    locked + {[]}
  }

  datatype DeleteOutcome = DeleteOutcome(fs: Node, deleted: bool, calls: seq<Path>)

  /**
   * `delete(path)` on the tree `fs`, run from the working directory
   * `userDir`: the working directory itself is refused outright; otherwise
   * a directory goes through `deleteDirectory` and anything else through
   * one `File.delete()`, which fails on a missing path.
   */
  function DeletePath(fs: Node, path: Path, userDir: Path, locked: set<Path>): (r: DeleteOutcome)
    ensures r.deleted ==> path != userDir && Lookup(fs, path).Some? && path !in Refused(locked)
    ensures r.deleted ==> r.calls != [] && r.calls[|r.calls| - 1] == path
    ensures path == userDir || Lookup(fs, path).None? ==> r.fs == fs && !r.deleted
    ensures path != userDir && Lookup(fs, path).Some? ==>
              var rest := Remains(Lookup(fs, path).value, path, Refused(locked));
              r.calls == DeleteOrder(Lookup(fs, path).value, path)
              && r.fs == ReplaceAt(fs, path, rest) && (r.deleted <==> rest.None?)
  {
    if path == userDir then DeleteOutcome(fs, false, [])
    else match Lookup(fs, path)
      case None => DeleteOutcome(fs, false, [path])
      case Some(n) =>
        var rest := Remains(n, path, Refused(locked));
        DeleteOutcome(ReplaceAt(fs, path, rest), rest.None?, DeleteOrder(n, path))
  }

  /**
   * `delete(path)`. The answer is false for the working directory, for a
   * missing path, and whenever one of the deletions is refused; when it is
   * true, the path is gone from a valid tree.
   */
  method Delete(fs: Node, path: Path, userDir: Path, locked: set<Path>)
    returns (after: Node, deleted: bool, calls: seq<Path>)
    ensures DeleteOutcome(after, deleted, calls) == DeletePath(fs, path, userDir, locked)
    ensures path == userDir ==> after == fs && !deleted && calls == []
    ensures Lookup(fs, path).None? ==> after == fs && !deleted
    ensures path != userDir && Lookup(fs, path).Some? ==>
              (deleted <==> forall p :: p in calls ==> p !in Refused(locked))
    ensures Valid(fs) && deleted ==> Lookup(after, path).None?
  {
    if path == userDir {
      return fs, false, [];
    }
    var found := Lookup(fs, path);
    if found.None? {
      return fs, false, [path];
    }
    var rest: Option<Node>;
    if found.value.Dir? {
      deleted, rest, calls := DeleteDirectory(found.value, path, Refused(locked));
    } else {
      deleted := path !in Refused(locked);
      rest := if deleted then None else found;
      calls := [path];
    }
    after := ReplaceAt(fs, path, rest);
    DeletedIffNothingLocked(found.value, path, Refused(locked));
    if Valid(fs) && deleted {
      RemovedIsGone(fs, path);
    }
  }

  /** `delete(path)` leaves every path that is neither above nor below `path` as it was. */
  lemma DeleteKeepsOthers(fs: Node, path: Path, userDir: Path, locked: set<Path>, q: Path)
    requires !IsPrefix(path, q) && !IsPrefix(q, path)
    ensures Lookup(DeletePath(fs, path, userDir, locked).fs, q) == Lookup(fs, q)
  {
    var found := Lookup(fs, path);
    if path != userDir && found.Some? {
      LookupName(fs, path);
      ReplaceKeepsDisjoint(fs, path, Remains(found.value, path, Refused(locked)), q);
    }
  }

  /** The tree after `delete` has been called on each of `targets` in turn. */
  function DeleteAll(fs: Node, targets: seq<Path>, userDir: Path, locked: set<Path>): Node
    decreases |targets|
  {
    if targets == [] then fs
    else DeletePath(DeleteAll(fs, targets[..|targets| - 1], userDir, locked), targets[|targets| - 1], userDir, locked).fs
  }

  /**
   * `delete(path, matchCriteria)`: `delete` on every walked path whose final
   * name matches, in walk order. A missing path, or the root (which has no
   * final name), deletes nothing.
   */
  method DeleteMatching(fs: Node, path: Path, criteria: string -> bool, userDir: Path, locked: set<Path>)
    returns (after: Node, targets: seq<Path>)
    ensures path == [] || Lookup(fs, path).None? ==> after == fs && targets == []
    ensures path != [] && Lookup(fs, path).Some? ==>
              var walk := Walk(Lookup(fs, path).value, path);
              (WalkBelow(Lookup(fs, path).value, path);
               && (forall p :: p in targets <==> p in walk && criteria(LastName(p)))
               && targets == Matching(walk, criteria)
               && after == DeleteAll(fs, targets, userDir, locked))
  {
    var found := Lookup(fs, path);
    if path == [] || found.None? {
      return fs, [];
    }
    WalkBelow(found.value, path);
    targets := Matching(Walk(found.value, path), criteria);
    after := DeleteEach(fs, targets, userDir, locked);
  }

  /** The `forEach` of `delete(path, matchCriteria)`: `delete` on each target in turn. */
  method DeleteEach(fs: Node, targets: seq<Path>, userDir: Path, locked: set<Path>) returns (after: Node)
    ensures after == DeleteAll(fs, targets, userDir, locked)
  {
    after := fs;
    var i := 0;
    while i < |targets|
      invariant 0 <= i <= |targets|
      invariant after == DeleteAll(fs, targets[..i], userDir, locked)
    {
      assert targets[..i + 1][..i] == targets[..i];
      var next, _, _ := Delete(after, targets[i], userDir, locked);
      after := next;
      i := i + 1;
    }
    assert targets[..|targets|] == targets;
  }

  /** Paths away from every delete target are untouched by `delete(path, matchCriteria)`. */
  lemma {:induction false} DeleteAllKeepsOthers(fs: Node, targets: seq<Path>, userDir: Path, locked: set<Path>, q: Path)
    requires forall t :: t in targets ==> !IsPrefix(t, q) && !IsPrefix(q, t)
    ensures Lookup(DeleteAll(fs, targets, userDir, locked), q) == Lookup(fs, q)
    decreases |targets|
  {
    if targets != [] {
      var front := targets[..|targets| - 1];
      assert forall t :: t in front ==> t in targets;
      assert targets[|targets| - 1] in targets;
      DeleteAllKeepsOthers(fs, front, userDir, locked, q);
      DeleteKeepsOthers(DeleteAll(fs, front, userDir, locked), targets[|targets| - 1], userDir, locked, q);
    }
  }

  /** When nothing is refused, `deleteDirectory` removes everything below any path but the root. */
  lemma NothingRefusedRemovesAll(n: Node, at: Path)
    requires at != []
    ensures Remains(n, at, Refused({})).None?
  {
    DeletedIffNothingLocked(n, at, Refused({}));
    forall p | p in DeleteOrder(n, at) ensures p !in Refused({}) {
      assert IsPrefix(at, p);
    }
  }

  /**
   * The working-directory guard compares paths exactly: deleting a
   * directory above the working directory, when nothing is refused,
   * succeeds and removes the working directory with it.
   */
  lemma ParentOfWorkingDirectoryIsDeleted(fs: Node, parent: Path, userDir: Path)
    requires Valid(fs) && parent != [] && IsPrefix(parent, userDir) && parent != userDir
    requires Lookup(fs, userDir).Some?
    ensures DeletePath(fs, parent, userDir, {}).deleted
    ensures Lookup(DeletePath(fs, parent, userDir, {}).fs, userDir).None?
  {
    var below := userDir[|parent|..];
    assert parent + below == userDir;
    LookupConcat(fs, parent, below);
    NothingRefusedRemovesAll(Lookup(fs, parent).value, parent);
    RemovedIsGone(fs, parent);
    LookupConcat(ReplaceAt(fs, parent, None), parent, below);
  }

  /**
   * When nothing is refused, deleting a list of paths (none of them the
   * root) in turn leaves a valid tree in which every one of them but the
   * working directory is gone.
   */
  lemma {:induction false} DeleteAllRemovesTargets(fs: Node, targets: seq<Path>, userDir: Path)
    requires Valid(fs)
    requires forall t :: t in targets ==> t != []
    ensures Valid(DeleteAll(fs, targets, userDir, {}))
    ensures forall t :: t in targets && t != userDir ==> Lookup(DeleteAll(fs, targets, userDir, {}), t).None?
    decreases |targets|
  {
    if targets != [] {
      var front, last := targets[..|targets| - 1], targets[|targets| - 1];
      assert forall t :: t in front ==> t in targets;
      assert last in targets;
      DeleteAllRemovesTargets(fs, front, userDir);
      var before := DeleteAll(fs, front, userDir, {});
      if last != userDir && Lookup(before, last).Some? {
        NothingRefusedRemovesAll(Lookup(before, last).value, last);
        ReplacePreservesValid(before, last, None);
        RemovedIsGone(before, last);
        forall t | t in front && t != userDir ensures Lookup(ReplaceAt(before, last, None), t).None? {
          RemovalCreatesNothing(before, last, t);
        }
      }
      assert forall t :: t in targets ==> t in front || t == last;
    }
  }

  /**
   * `delete(path, matchCriteria)` with nothing refused: every walked path
   * whose final name matches is gone afterwards, except the working
   * directory.
   */
  lemma MatchingDeleteRemovesMatches(fs: Node, path: Path, criteria: string -> bool, userDir: Path)
    requires Valid(fs) && path != [] && Lookup(fs, path).Some?
    ensures var walk := Walk(Lookup(fs, path).value, path);
      (WalkBelow(Lookup(fs, path).value, path);
       var after := DeleteAll(fs, Matching(walk, criteria), userDir, {});
       forall p :: p in walk && criteria(LastName(p)) && p != userDir ==> Lookup(after, p).None?)
  {
    var walk := Walk(Lookup(fs, path).value, path);
    WalkBelow(Lookup(fs, path).value, path);
    DeleteAllRemovesTargets(fs, Matching(walk, criteria), userDir);
  }
}
