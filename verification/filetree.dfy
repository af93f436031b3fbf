/**
 * The file system as the Reactor's utilities see it: a tree of named nodes,
 * each hidden or not, holding either bytes (a file) or an ordered list of
 * children (a directory, in `listFiles()` order). A path is the list of
 * names from the root of the tree.
 */
module FileTree {
  import opened Wrappers

  newtype byte = x: int | 0 <= x < 256

  datatype Node =
    | File(name: string, hidden: bool, content: seq<byte>)
    | Dir(name: string, hidden: bool, children: seq<Node>)

  type Path = seq<string>

  predicate IsPrefix(p: Path, q: Path)
  {
    |p| <= |q| && q[..|p|] == p
  }

  /** A name a file system accepts for an entry: not empty and without a separator. */
  predicate IsName(s: string)
  {
    s != [] && '/' !in s
  }

  /** No two of the children share a name. */
  predicate DistinctNames(children: seq<Node>)
  {
    forall i, j :: 0 <= i < j < |children| ==> children[i].name != children[j].name
  }

  /**
   * In every directory of the tree, no two children share a name, and every
   * child's name is a proper entry name.
   */
  predicate Valid(n: Node)
    decreases n
  {
    n.Dir? ==>
      DistinctNames(n.children)
      && forall c :: c in n.children ==> IsName(c.name) && Valid(c)
  }

  /** The child called `name`, as `new File(dir, name)` finds it. */
  function Child(children: seq<Node>, name: string): (r: Option<Node>)
    ensures r.Some? ==> r.value in children && r.value.name == name
    ensures r.None? ==> forall c :: c in children ==> c.name != name
  {
    if children == [] then None
    else if children[0].name == name then Some(children[0])
    else Child(children[1..], name)
  }

  /** The node at `rel` below `n`, if there is one. */
  function Lookup(n: Node, rel: Path): Option<Node>
    decreases rel
  {
    if rel == [] then Some(n)
    else if n.File? then None
    else match Child(n.children, rel[0])
      case None => None
      case Some(c) => Lookup(c, rel[1..])
  }

  /**
   * `Files.walk`: `at` (the path of `n`) followed, depth first and in child
   * order, by the path of every node below `n`.
   */
  function Walk(n: Node, at: Path): (r: seq<Path>)
    ensures |r| >= 1 && r[0] == at
    decreases n
  {
    [at] + (if n.Dir? then WalkChildren(n.children, at) else [])
  }

  function WalkChildren(children: seq<Node>, parent: Path): seq<Path>
    decreases children
  {
    if children == [] then []
    else Walk(children[0], parent + [children[0].name]) + WalkChildren(children[1..], parent)
  }

  /** Every path `Files.walk` reports lies at or below the starting path. */
  lemma {:induction false} WalkBelow(n: Node, at: Path)
    ensures forall p :: p in Walk(n, at) ==> IsPrefix(at, p)
    decreases n
  {
    if n.Dir? {
      WalkChildrenBelow(n.children, at);
    }
  }

  /** Every path reported below a directory lies strictly below it. */
  lemma {:induction false} WalkChildrenBelow(children: seq<Node>, parent: Path)
    ensures forall p :: p in WalkChildren(children, parent) ==> IsPrefix(parent, p) && |p| > |parent|
    decreases children
  {
    if children != [] {
      var at := parent + [children[0].name];
      WalkBelow(children[0], at);
      WalkChildrenBelow(children[1..], parent);
      forall p | p in Walk(children[0], at) ensures IsPrefix(parent, p) && |p| > |parent| {
        assert p[..|parent|] == at[..|parent|];
      }
    }
  }

  /** "/" followed by every name of `p` behind a "/". */
  function Joined(p: Path): string
  {
    if p == [] then "" else "/" + p[0] + Joined(p[1..])
  }

  /** How `Path.toString()` spells an absolute path: "/a/b", or "/" for the root. */
  function PathString(p: Path): string
  {
    if p == [] then "/" else Joined(p)
  }

  /** The final name component of a path, as `getFileName()` gives it. */
  function LastName(p: Path): string
    requires p != []
  {
    p[|p| - 1]
  }

  /**
   * The tree with the node at `rel` replaced by `sub` (removed when `sub` is
   * `None`). The root itself can only be replaced, not removed.
   */
  function ReplaceAt(n: Node, rel: Path, sub: Option<Node>): Node
    decreases |rel|, 0
  {
    if rel == [] then (if sub.Some? then sub.value else n)
    else if n.File? then n
    else Dir(n.name, n.hidden, ReplaceIn(n.children, rel[0], rel[1..], sub))
  }

  function ReplaceIn(children: seq<Node>, name: string, rest: Path, sub: Option<Node>): seq<Node>
    decreases |rest|, |children|
  {
    if children == [] then []
    else if children[0].name == name then
      (if rest != [] then [ReplaceAt(children[0], rest, sub)]
       else if sub.Some? then [sub.value]
       else []) + children[1..]
    else [children[0]] + ReplaceIn(children[1..], name, rest, sub)
  }

  lemma {:induction false} ChildIndex(children: seq<Node>, name: string) returns (i: nat)
    requires Child(children, name).Some?
    ensures i < |children| && children[i] == Child(children, name).value
  {
    if children[0].name == name {
      i := 0;
    } else {
      var j := ChildIndex(children[1..], name);
      i := j + 1;
    }
  }

  lemma {:induction false} ChildOfUnique(children: seq<Node>, i: nat)
    requires i < |children|
    requires DistinctNames(children)
    ensures Child(children, children[i].name) == Some(children[i])
  {
    if i > 0 {
      assert children[0].name != children[i].name;
      ChildOfUnique(children[1..], i - 1);
    }
  }

  lemma {:induction false} WalkChildrenMember(children: seq<Node>, parent: Path, p: Path) returns (i: nat)
    requires p in WalkChildren(children, parent)
    ensures i < |children| && p in Walk(children[i], parent + [children[i].name])
    decreases children
  {
    if p in Walk(children[0], parent + [children[0].name]) {
      i := 0;
    } else {
      var j := WalkChildrenMember(children[1..], parent, p);
      i := j + 1;
    }
  }

  lemma {:induction false} WalkChildrenContains(children: seq<Node>, parent: Path, i: nat, p: Path)
    requires i < |children| && p in Walk(children[i], parent + [children[i].name])
    ensures p in WalkChildren(children, parent)
    decreases children
  {
    if i > 0 {
      WalkChildrenContains(children[1..], parent, i - 1, p);
    }
  }

  /** In a valid tree every path `Files.walk` reports exists. */
  lemma {:induction false} WalkSound(n: Node, at: Path, p: Path)
    requires Valid(n) && p in Walk(n, at)
    ensures |at| <= |p| && Lookup(n, p[|at|..]).Some?
    decreases n
  {
    if p == at {
      assert p[|at|..] == [];
    } else {
      assert n.Dir?;
      assert p in WalkChildren(n.children, at);
      var i := WalkChildrenMember(n.children, at, p);
      var c := n.children[i];
      var at' := at + [c.name];
      assert Valid(c);
      WalkSound(c, at', p);
      WalkBelow(c, at');
      ChildOfUnique(n.children, i);
      var rel := p[|at|..];
      assert IsPrefix(at', p);
      assert p[..|at'|] == at';
      assert at'[|at|] == c.name;
      assert p[|at|] == p[..|at'|][|at|];
      assert rel[0] == c.name;
      assert rel[1..] == p[|at'|..];
      assert Lookup(n, rel) == Lookup(c, rel[1..]);
    }
  }

  /** Every path that exists below `n` is reported by `Files.walk`. */
  lemma {:induction false} WalkComplete(n: Node, at: Path, rel: Path)
    requires Lookup(n, rel).Some?
    ensures at + rel in Walk(n, at)
    decreases rel
  {
    if rel == [] {
      assert at + rel == at;
    } else {
      var c := Child(n.children, rel[0]).value;
      var i := ChildIndex(n.children, rel[0]);
      assert (at + [rel[0]]) + rel[1..] == at + rel;
      WalkComplete(c, at + [rel[0]], rel[1..]);
      WalkChildrenContains(n.children, at, i, at + rel);
    }
  }

  /** The node found at a non-empty path carries the path's final name. */
  lemma {:induction false} LookupName(n: Node, rel: Path)
    requires rel != [] && Lookup(n, rel).Some?
    ensures Lookup(n, rel).value.name == LastName(rel)
    decreases rel
  {
    var c := Child(n.children, rel[0]).value;
    if |rel| > 1 {
      LookupName(c, rel[1..]);
      assert LastName(rel[1..]) == LastName(rel);
    }
  }

  /**
   * The walked paths whose final name satisfies `criteria`, in walk order:
   * the filter `p -> criteria.test(p.getFileName().toString())`.
   */
  function Matching(walk: seq<Path>, criteria: string -> bool): (r: seq<Path>)
    requires forall p :: p in walk ==> p != []
    ensures forall p :: p in r <==> p in walk && criteria(LastName(p))
    ensures |r| <= |walk|
  {
    if walk == [] then []
    else
      assert walk[0] in walk;
      assert forall p :: p in walk[1..] ==> p in walk;
      (if criteria(LastName(walk[0])) then [walk[0]] else []) + Matching(walk[1..], criteria)
  }

  /** `Matching` keeps the walk's order: of two results, the earlier one was walked first. */
  lemma {:induction false} MatchingKeepsOrder(walk: seq<Path>, criteria: string -> bool, i: nat, j: nat)
    returns (a: nat, b: nat)
    requires forall p :: p in walk ==> p != []
    requires i < j < |Matching(walk, criteria)|
    ensures a < b < |walk| && walk[a] == Matching(walk, criteria)[i] && walk[b] == Matching(walk, criteria)[j]
    decreases |walk|
  {
    var tail := walk[1..];
    MatchingStep(walk, criteria);
    var m, rest := Matching(walk, criteria), Matching(tail, criteria);
    if criteria(LastName(walk[0])) {
      if i == 0 {
        var b' := MatchingIndex(tail, criteria, j - 1);
        ShiftFirst(walk, m, rest, j, b');
        a, b := 0, b' + 1;
      } else {
        var a', b' := MatchingKeepsOrder(tail, criteria, i - 1, j - 1);
        ShiftKept(walk, m, rest, i, j, a', b');
        a, b := a' + 1, b' + 1;
      }
    } else {
      var a', b' := MatchingKeepsOrder(tail, criteria, i, j);
      ShiftSkipped(walk, m, rest, i, j, a', b');
      a, b := a' + 1, b' + 1;
    }
  }

  lemma ShiftFirst(walk: seq<Path>, m: seq<Path>, rest: seq<Path>, j: nat, b': nat)
    requires walk != [] && m == [walk[0]] + rest && 0 < j < |m|
    requires b' < |walk| - 1 && walk[1..][b'] == rest[j - 1]
    ensures walk[0] == m[0] && walk[b' + 1] == m[j]
  {
  }

  lemma ShiftKept(walk: seq<Path>, m: seq<Path>, rest: seq<Path>, i: nat, j: nat, a': nat, b': nat)
    requires walk != [] && m == [walk[0]] + rest && 0 < i < j < |m|
    requires a' < b' < |walk| - 1 && walk[1..][a'] == rest[i - 1] && walk[1..][b'] == rest[j - 1]
    ensures walk[a' + 1] == m[i] && walk[b' + 1] == m[j]
  {
  }

  lemma ShiftSkipped(walk: seq<Path>, m: seq<Path>, rest: seq<Path>, i: nat, j: nat, a': nat, b': nat)
    requires walk != [] && m == rest && i < j < |m|
    requires a' < b' < |walk| - 1 && walk[1..][a'] == rest[i] && walk[1..][b'] == rest[j]
    ensures walk[a' + 1] == m[i] && walk[b' + 1] == m[j]
  {
  }

  /** One step of `Matching`: the first walked path, if it matches, then the matches among the rest. */
  lemma MatchingStep(walk: seq<Path>, criteria: string -> bool)
    requires walk != [] && forall p :: p in walk ==> p != []
    ensures walk[0] != [] && forall p :: p in walk[1..] ==> p != []
    ensures forall k :: 0 <= k < |walk| - 1 ==> walk[1..][k] == walk[k + 1]
    ensures Matching(walk, criteria)
            == (if criteria(LastName(walk[0])) then [walk[0]] else []) + Matching(walk[1..], criteria)
  {
    assert walk[0] in walk;
    assert forall p :: p in walk[1..] ==> p in walk;
  }

  /** Where the `k`-th result of `Matching` sits in the walk. */
  lemma MatchingIndex(walk: seq<Path>, criteria: string -> bool, k: nat) returns (a: nat)
    requires forall p :: p in walk ==> p != []
    requires k < |Matching(walk, criteria)|
    ensures a < |walk| && walk[a] == Matching(walk, criteria)[k]
  {
    var x := Matching(walk, criteria)[k];
    assert x in Matching(walk, criteria);
    a :| 0 <= a < |walk| && walk[a] == x;
  }

  /** The walk below a directory ends with the walk of its last child. */
  lemma WalkChildrenLast(children: seq<Node>, parent: Path)
    requires children != []
    ensures var last := children[|children| - 1];
      WalkChildren(children, parent)
      == WalkChildren(children[..|children| - 1], parent) + Walk(last, parent + [last.name])
  {
    var front, last := children[..|children| - 1], children[|children| - 1];
    assert front + [last] == children;
    WalkChildrenSnoc(front, last, parent);
  }

  /** Walking the children one more child at the back walks that child last. */
  lemma {:induction false} WalkChildrenSnoc(front: seq<Node>, last: Node, parent: Path)
    ensures WalkChildren(front + [last], parent) == WalkChildren(front, parent) + Walk(last, parent + [last.name])
    decreases front
  {
    if front == [] {
      assert ([] + [last])[1..] == [];
    } else {
      assert (front + [last])[0] == front[0];
      assert (front + [last])[1..] == front[1..] + [last];
      WalkChildrenSnoc(front[1..], last, parent);
      var head, rest := Walk(front[0], parent + [front[0].name]), WalkChildren(front[1..], parent);
      var tail := Walk(last, parent + [last.name]);
      assert head + (rest + tail) == (head + rest) + tail;
    }
  }

  lemma {:induction false} ChildAbsent(children: seq<Node>, name: string)
    requires forall c :: c in children ==> c.name != name
    ensures Child(children, name).None?
    decreases children
  {
    if children != [] {
      assert children[0] in children;
      assert forall c :: c in children[1..] ==> c in children;
      ChildAbsent(children[1..], name);
    }
  }

  /**
   * Replacing below the child `name` leaves every other child where it was,
   * and changes the child `name` by the replacement below it.
   */
  lemma {:induction false} ReplaceInChild(children: seq<Node>, name: string, rest: Path, sub: Option<Node>, other: string)
    requires rest != [] || sub.None? || sub.value.name == name
    ensures other != name ==> Child(ReplaceIn(children, name, rest, sub), other) == Child(children, other)
    ensures rest != [] ==>
              Child(ReplaceIn(children, name, rest, sub), name)
              == (if Child(children, name).Some? then Some(ReplaceAt(Child(children, name).value, rest, sub)) else None)
    decreases children
  {
    if children != [] {
      if children[0].name != name {
        ReplaceInChild(children[1..], name, rest, sub, other);
      } else {
        var replaced := ReplaceIn(children, name, rest, sub);
        if rest != [] || sub.Some? {
          assert replaced[1..] == children[1..];
        } else {
          assert replaced == children[1..];
        }
      }
    }
  }

  /** In a valid tree, the node removed at a path is no longer found there. */
  lemma {:induction false} RemovedIsGone(n: Node, rel: Path)
    requires Valid(n) && rel != [] && Lookup(n, rel).Some?
    ensures Lookup(ReplaceAt(n, rel, None), rel).None?
    decreases rel
  {
    var c := Child(n.children, rel[0]).value;
    if |rel| == 1 {
      RemoveChild(n.children, rel[0]);
    } else {
      ReplaceInChild(n.children, rel[0], rel[1..], None, rel[0]);
      RemovedIsGone(c, rel[1..]);
    }
  }

  lemma {:induction false} RemoveChild(children: seq<Node>, name: string)
    requires DistinctNames(children)
    ensures Child(ReplaceIn(children, name, [], None), name).None?
    decreases children
  {
    if children != [] {
      if children[0].name == name {
        forall c | c in children[1..] ensures c.name != name {
          var j :| 0 <= j < |children[1..]| && children[1..][j] == c;
          assert children[j + 1] == c;
        }
        ChildAbsent(children[1..], name);
      } else {
        RemoveChild(children[1..], name);
      }
    }
  }

  /**
   * Replacing the node at `rel` leaves every path that is neither above nor
   * below `rel` leading where it led before.
   */
  lemma {:induction false} ReplaceKeepsDisjoint(n: Node, rel: Path, sub: Option<Node>, q: Path)
    requires !IsPrefix(rel, q) && !IsPrefix(q, rel)
    requires sub.None? || sub.value.name == LastName(rel)
    ensures Lookup(ReplaceAt(n, rel, sub), q) == Lookup(n, q)
    decreases rel
  {
    if n.Dir? {
      ReplaceInChild(n.children, rel[0], rel[1..], sub, q[0]);
      if q[0] == rel[0] && Child(n.children, q[0]).Some? {
        PrefixCons(rel, q);
        PrefixCons(q, rel);
        ReplaceKeepsDisjoint(Child(n.children, q[0]).value, rel[1..], sub, q[1..]);
      }
    }
  }

  /** Two paths that start with the same name: one is a prefix of the other iff their rests are. */
  lemma PrefixCons(p: Path, q: Path)
    requires p != [] && q != [] && p[0] == q[0]
    ensures IsPrefix(p, q) <==> IsPrefix(p[1..], q[1..])
  {
    if |p| <= |q| {
      assert q[..|p|] == [q[0]] + q[1..][..|p| - 1];
      assert p == [p[0]] + p[1..];
    }
  }

  /** Looking up `p + r` is looking up `r` below the node at `p`. */
  lemma {:induction false} LookupConcat(n: Node, p: Path, r: Path)
    ensures Lookup(n, p + r) == if Lookup(n, p).Some? then Lookup(Lookup(n, p).value, r) else None
    decreases p
  {
    if p == [] {
      assert p + r == r;
    } else {
      assert (p + r)[0] == p[0];
      assert (p + r)[1..] == p[1..] + r;
      if n.Dir? && Child(n.children, p[0]).Some? {
        LookupConcat(Child(n.children, p[0]).value, p[1..], r);
      }
    }
  }

  /** A name no original child carries is carried by no child after a replacement. */
  lemma {:induction false} ReplaceInNames(children: seq<Node>, name: string, rest: Path, sub: Option<Node>, other: string)
    requires rest != [] || sub.None? || sub.value.name == name
    requires forall c :: c in children ==> c.name != other
    ensures forall c :: c in ReplaceIn(children, name, rest, sub) ==> c.name != other
    decreases children
  {
    if children != [] {
      var tail := children[1..];
      assert children[0] in children;
      assert forall c :: c in tail ==> c in children;
      if children[0].name != name {
        ReplaceInNames(tail, name, rest, sub, other);
        assert ReplaceIn(children, name, rest, sub) == [children[0]] + ReplaceIn(tail, name, rest, sub);
      }
    }
  }

  /** Removing a node, or replacing it by a valid node of the same name, keeps a tree valid. */
  lemma {:induction false} ReplacePreservesValid(n: Node, rel: Path, sub: Option<Node>)
    requires Valid(n) && rel != []
    requires sub.None? || (Valid(sub.value) && sub.value.name == LastName(rel))
    ensures Valid(ReplaceAt(n, rel, sub))
    decreases |rel|, 0
  {
    if n.Dir? {
      ReplaceInPreservesValid(n.children, rel[0], rel[1..], sub);
    }
  }

  lemma DistinctTail(children: seq<Node>)
    requires children != [] && DistinctNames(children)
    ensures DistinctNames(children[1..])
    ensures forall d :: d in children[1..] ==> d.name != children[0].name
  {
    var tail := children[1..];
    forall i, j | 0 <= i < j < |tail| ensures tail[i].name != tail[j].name {
      assert tail[i] == children[i + 1] && tail[j] == children[j + 1];
    }
    forall d | d in tail ensures d.name != children[0].name {
      var j :| 0 <= j < |tail| && tail[j] == d;
      assert children[j + 1] == d;
    }
  }

  /** A fresh first child whose name no later child carries keeps the names distinct. */
  lemma DistinctCons(head: Node, tail: seq<Node>)
    requires DistinctNames(tail)
    requires forall d :: d in tail ==> d.name != head.name
    ensures DistinctNames([head] + tail)
  {
    var r := [head] + tail;
    forall i, j | 0 <= i < j < |r| ensures r[i].name != r[j].name {
      assert r[j] == tail[j - 1];
      if i > 0 {
        assert r[i] == tail[i - 1];
      } else {
        assert r[j] in tail;
      }
    }
  }

  lemma {:induction false} ReplaceInPreservesValid(children: seq<Node>, name: string, rest: Path, sub: Option<Node>)
    requires DistinctNames(children)
    requires forall c :: c in children ==> IsName(c.name) && Valid(c)
    requires sub.None? || (Valid(sub.value) && sub.value.name == (if rest == [] then name else LastName(rest)))
    ensures DistinctNames(ReplaceIn(children, name, rest, sub))
    ensures forall c :: c in ReplaceIn(children, name, rest, sub) ==> IsName(c.name) && Valid(c)
    decreases |rest|, |children|
  {
    if children != [] {
      var tail := children[1..];
      assert forall c :: c in tail ==> c in children;
      assert children[0] in children;
      DistinctTail(children);
      if children[0].name == name {
        if rest != [] {
          var head := ReplaceAt(children[0], rest, sub);
          ReplacePreservesValid(children[0], rest, sub);
          DistinctCons(head, tail);
        } else if sub.Some? {
          DistinctCons(sub.value, tail);
        }
      } else {
        ReplaceInPreservesValid(tail, name, rest, sub);
        ReplaceInNames(tail, name, rest, sub, children[0].name);
        DistinctCons(children[0], ReplaceIn(tail, name, rest, sub));
      }
    }
  }

  /** In a valid tree, removing a node makes no missing path appear. */
  lemma {:induction false} RemovalCreatesNothing(n: Node, rel: Path, q: Path)
    requires Valid(n) && rel != [] && Lookup(n, q).None?
    ensures Lookup(ReplaceAt(n, rel, None), q).None?
    decreases rel
  {
    if n.Dir? && q != [] {
      ReplaceInChild(n.children, rel[0], rel[1..], None, q[0]);
      if q[0] == rel[0] {
        if rel[1..] == [] {
          RemoveChild(n.children, rel[0]);
        } else if Child(n.children, q[0]).Some? {
          var c := Child(n.children, q[0]).value;
          RemovalCreatesNothing(c, rel[1..], q[1..]);
        }
      }
    }
  }
}
