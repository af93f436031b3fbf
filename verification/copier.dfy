/**
 * `copy(origin, target)` and `copy(origin, target, includes, excludes)`.
 *
 * A copy is described by the `Files.copy(source, destination,
 * REPLACE_EXISTING)` calls it makes, in order. Any one of those calls may
 * throw; `fails` is the set of walked paths whose call throws. Inside the
 * walk the exception is swallowed and the entry is simply not copied.
 */
module TreeCopier {
  import opened Wrappers
  import opened FileTree
  import opened Ledger

  /** A `Predicate<String>` slot of `copy`; `None` is a null predicate. */
  type PathFilter = string -> bool

  /**
   * Whether a walked path is copied: it matches the includes predicate, OR it
   * fails to match the excludes predicate. A path that the includes predicate
   * rejects is still copied when the excludes predicate does not claim it.
   */
  predicate Included(includes: Option<PathFilter>, excludes: Option<PathFilter>, source: string)
    ensures Included(includes, excludes, source) ==> includes.Some? || excludes.Some?
    ensures excludes.Some? && !excludes.value(source) ==> Included(includes, excludes, source)
  {
    (includes.Some? && includes.value(source)) || (excludes.Some? && !excludes.value(source))
  }

  /** The predicates of the two-argument `copy`: `s -> true` and `s -> false`. */
  const CopyAllInclude: Option<PathFilter> := Some(s => true)
  const CopyAllExclude: Option<PathFilter> := Some(s => false)

  /** `originPath.relativize(source)` for a source below the origin. */
  function Relativize(origin: Path, source: Path): Path
    requires IsPrefix(origin, source)
  {
    source[|origin|..]
  }

  datatype CopyOp = CopyOp(source: Path, destination: Path)

  /**
   * The calls made for the walked paths `walk` of a directory origin.
   * `targetIsDir` is what `targetFile.isDirectory()` answers at that point:
   * it is asked again for every entry, and copying the origin directory onto
   * a target that is not a directory turns the target into one (unless that
   * copy throws).
   */
  function CopyWalk(walk: seq<Path>, origin: Path, target: Path, targetIsDir: bool,
                    includes: Option<PathFilter>, excludes: Option<PathFilter>, fails: set<Path>): (r: seq<CopyOp>)
    requires forall p :: p in walk ==> IsPrefix(origin, p)
    ensures |r| == IncludedCount(walk, includes, excludes)
    decreases |walk|
  {
    if walk == [] then []
    else
      var source := walk[0];
      if !Included(includes, excludes, PathString(source)) then
        CopyWalk(walk[1..], origin, target, targetIsDir, includes, excludes, fails)
      else if targetIsDir then
        [CopyOp(source, target + Relativize(origin, source))]
        + CopyWalk(walk[1..], origin, target, true, includes, excludes, fails)
      else
        [CopyOp(origin, target)]
        + CopyWalk(walk[1..], origin, target, source !in fails, includes, excludes, fails)
  }

  datatype CopyResult = CopyResult(ops: seq<CopyOp>, ok: bool)

  predicate IsDirectory(fs: Node, p: Path)
  {
    Lookup(fs, p).Some? && Lookup(fs, p).value.Dir?
  }

  /**
   * The four-argument `copy` on the tree `fs`. A file origin is copied once,
   * into the target directory under its own name or onto the target path; a
   * directory origin is walked. An origin that does not exist copies nothing
   * and succeeds. Only the single copy of a file origin can fail the call.
   */
  function CopyPlan(fs: Node, origin: Path, target: Path,
                    includes: Option<PathFilter>, excludes: Option<PathFilter>, fails: set<Path>): (r: CopyResult)
    ensures Lookup(fs, origin).None? ==> r == CopyResult([], true)
    ensures !r.ok <==> Lookup(fs, origin).Some? && Lookup(fs, origin).value.File? && origin in fails
    ensures Lookup(fs, origin).Some? && Lookup(fs, origin).value.File? ==> |r.ops| == 1 && r.ops[0].source == origin
    ensures Lookup(fs, origin).Some? && Lookup(fs, origin).value.File? && IsDirectory(fs, target)
            ==> r.ops == [CopyOp(origin, target + [Lookup(fs, origin).value.name])]
    ensures Lookup(fs, origin).Some? && Lookup(fs, origin).value.File? && !IsDirectory(fs, target)
            ==> r.ops == [CopyOp(origin, target)]
    ensures Lookup(fs, origin).Some? && Lookup(fs, origin).value.Dir?
            ==> (WalkBelow(Lookup(fs, origin).value, origin);
                 r == CopyResult(CopyWalk(Walk(Lookup(fs, origin).value, origin), origin, target,
                                          IsDirectory(fs, target), includes, excludes, fails), true))
  {
    match Lookup(fs, origin)
    case None => CopyResult([], true)
    case Some(n) =>
      if n.File? then
        var destination := if IsDirectory(fs, target) then target + [n.name] else target;
        CopyResult([CopyOp(origin, destination)], origin !in fails)
      else
        WalkBelow(n, origin);
        CopyResult(CopyWalk(Walk(n, origin), origin, target, IsDirectory(fs, target), includes, excludes, fails), true)
  }

  /** `copy(origin, target, includes, excludes)`: a failure is filed as "copy : origin --> target". */
  method Copy(fs: Node, origin: Path, target: Path,
              includes: Option<PathFilter>, excludes: Option<PathFilter>, fails: set<Path>, ledger: OutcomeLedger)
    returns (ok: bool, ops: seq<CopyOp>)
    modifies ledger
    ensures CopyResult(ops, ok) == CopyPlan(fs, origin, target, includes, excludes, fails)
    ensures ok ==> ledger.Contents() == old(ledger.Contents())
    ensures !ok ==> ledger.succeeded == old(ledger.succeeded)
                    && ledger.failed == old(ledger.failed) + ["copy : " + PathString(origin) + " --> " + PathString(target)]
  {
    var result := CopyPlan(fs, origin, target, includes, excludes, fails);
    ok, ops := result.ok, result.ops;
    if !ok {
      ledger.RecordFailure("copy : " + PathString(origin) + " --> " + PathString(target));
    }
  }

  /** `copy(origin, target)`: the four-argument copy with `s -> true` and `s -> false`. */
  method CopyAll(fs: Node, origin: Path, target: Path, fails: set<Path>, ledger: OutcomeLedger)
    returns (ok: bool, ops: seq<CopyOp>)
    modifies ledger
    ensures CopyResult(ops, ok) == CopyPlan(fs, origin, target, CopyAllInclude, CopyAllExclude, fails)
    ensures ok ==> ledger.Contents() == old(ledger.Contents())
    ensures !ok ==> ledger.succeeded == old(ledger.succeeded)
                    && ledger.failed == old(ledger.failed) + ["copy : " + PathString(origin) + " --> " + PathString(target)]
  {
    ok, ops := Copy(fs, origin, target, CopyAllInclude, CopyAllExclude, fails, ledger);
  }

  /** Both predicates of the two-argument `copy` let every path through. */
  lemma CopyAllIncludesEverything(source: string)
    ensures Included(CopyAllInclude, CopyAllExclude, source)
  {
  }

  /**
   * Into a target that is a directory, the walk keeps the hierarchy: each
   * copied path lands at the target joined with its path relative to the
   * origin, exactly the included walked paths are copied, and nothing more.
   */
  lemma {:induction false} CopyIntoDirectory(walk: seq<Path>, origin: Path, target: Path,
                                             includes: Option<PathFilter>, excludes: Option<PathFilter>, fails: set<Path>)
    requires forall p :: p in walk ==> IsPrefix(origin, p)
    ensures var ops := CopyWalk(walk, origin, target, true, includes, excludes, fails);
      && |ops| <= |walk|
      && (forall op :: op in ops ==>
            && op.source in walk
            && Included(includes, excludes, PathString(op.source))
            && op.destination == target + Relativize(origin, op.source))
      && (forall p :: p in walk && Included(includes, excludes, PathString(p)) ==>
            CopyOp(p, target + Relativize(origin, p)) in ops)
    decreases |walk|
  {
    if walk != [] {
      assert forall p :: p in walk[1..] ==> p in walk;
      CopyIntoDirectory(walk[1..], origin, target, includes, excludes, fails);
      assert forall p :: p in walk ==> p == walk[0] || p in walk[1..];
    }
  }

  /** With the predicates of the two-argument `copy`, every walked path is copied, in walk order. */
  lemma {:induction false} CopyAllIntoDirectory(walk: seq<Path>, origin: Path, target: Path, fails: set<Path>)
    requires forall p :: p in walk ==> IsPrefix(origin, p)
    ensures var ops := CopyWalk(walk, origin, target, true, CopyAllInclude, CopyAllExclude, fails);
      && |ops| == |walk|
      && forall i :: 0 <= i < |walk| ==> ops[i] == CopyOp(walk[i], target + Relativize(origin, walk[i]))
    decreases |walk|
  {
    if walk != [] {
      assert forall p :: p in walk[1..] ==> p in walk;
      CopyAllIncludesEverything(PathString(walk[0]));
      CopyAllIntoDirectory(walk[1..], origin, target, fails);
    }
  }

  /** `n` copies of the same call. */
  function Repeat(op: CopyOp, n: nat): (r: seq<CopyOp>)
    ensures |r| == n
  {
    if n == 0 then [] else [op] + Repeat(op, n - 1)
  }

  /** How many of the walked paths pass the inclusion test. */
  function IncludedCount(walk: seq<Path>, includes: Option<PathFilter>, excludes: Option<PathFilter>): (n: nat)
    ensures n <= |walk|
  {
    if walk == [] then 0
    else (if Included(includes, excludes, PathString(walk[0])) then 1 else 0) + IncludedCount(walk[1..], includes, excludes)
  }

  /**
   * Onto a target that is not a directory, every included entry copies the
   * whole origin onto the target for as long as those copies throw: when
   * every included copy throws, the walk collapses into one call per
   * included entry, each copying the origin onto the target.
   */
  lemma {:induction false} CollapseWhileCopiesFail(walk: seq<Path>, origin: Path, target: Path,
                                                   includes: Option<PathFilter>, excludes: Option<PathFilter>, fails: set<Path>)
    requires forall p :: p in walk ==> IsPrefix(origin, p)
    requires forall j :: 0 <= j < |walk| && Included(includes, excludes, PathString(walk[j])) ==> walk[j] in fails
    ensures CopyWalk(walk, origin, target, false, includes, excludes, fails)
            == Repeat(CopyOp(origin, target), IncludedCount(walk, includes, excludes))
    decreases |walk|
  {
    if walk != [] {
      assert forall p :: p in walk[1..] ==> p in walk;
      forall j | 0 <= j < |walk[1..]| && Included(includes, excludes, PathString(walk[1..][j]))
        ensures walk[1..][j] in fails
      {
        assert walk[1..][j] == walk[j + 1];
      }
      CollapseWhileCopiesFail(walk[1..], origin, target, includes, excludes, fails);
      CollapseStep(walk, origin, target, includes, excludes, fails);
      var op, n := CopyOp(origin, target), IncludedCount(walk[1..], includes, excludes);
      assert Repeat(op, n) + [] == Repeat(op, n);
      PrependRepeat(op, CopyWalk(walk, origin, target, false, includes, excludes, fails),
                    CopyWalk(walk[1..], origin, target, false, includes, excludes, fails), [],
                    n, IncludedCount(walk, includes, excludes), Included(includes, excludes, PathString(walk[0])));
      assert Repeat(op, IncludedCount(walk, includes, excludes)) + [] == Repeat(op, IncludedCount(walk, includes, excludes));
    }
  }

  /**
   * Onto a target that is not a directory, the walk splits at the first
   * included entry `walk[k]` whose copy succeeds: up to and including it,
   * each included entry copies the origin onto the target; that copy makes
   * the target a directory, and every later entry keeps the hierarchy below it.
   */
  lemma {:induction false} FirstCollapseMakesDirectory(walk: seq<Path>, origin: Path, target: Path,
                                                       includes: Option<PathFilter>, excludes: Option<PathFilter>,
                                                       fails: set<Path>, k: nat)
    requires forall p :: p in walk ==> IsPrefix(origin, p)
    requires k < |walk| && Included(includes, excludes, PathString(walk[k])) && walk[k] !in fails
    requires forall j :: 0 <= j < k && Included(includes, excludes, PathString(walk[j])) ==> walk[j] in fails
    ensures CopyWalk(walk, origin, target, false, includes, excludes, fails)
            == Repeat(CopyOp(origin, target), IncludedCount(walk[..k + 1], includes, excludes))
               + CopyWalk(walk[k + 1..], origin, target, true, includes, excludes, fails)
    decreases k
  {
    if k == 0 {
      CollapseAtFirst(walk, origin, target, includes, excludes, fails);
    } else {
      FailsBeforeTail(walk, includes, excludes, fails, k);
      assert forall p :: p in walk[1..] ==> p in walk;
      FirstCollapseMakesDirectory(walk[1..], origin, target, includes, excludes, fails, k - 1);
      CollapseShift(walk, origin, target, includes, excludes, fails, k);
    }
  }

  /** The first entry is included and its copy succeeds: one collapse, then the hierarchy. */
  lemma CollapseAtFirst(walk: seq<Path>, origin: Path, target: Path,
                        includes: Option<PathFilter>, excludes: Option<PathFilter>, fails: set<Path>)
    requires forall p :: p in walk ==> IsPrefix(origin, p)
    requires walk != [] && Included(includes, excludes, PathString(walk[0])) && walk[0] !in fails
    ensures CopyWalk(walk, origin, target, false, includes, excludes, fails)
            == Repeat(CopyOp(origin, target), IncludedCount(walk[..1], includes, excludes))
               + CopyWalk(walk[1..], origin, target, true, includes, excludes, fails)
  {
    var op := CopyOp(origin, target);
    CollapseStep(walk, origin, target, includes, excludes, fails);
    IncludedCountFront(walk, 0, includes, excludes);
    assert walk[1..][..0] == [];
    assert Repeat(op, 0) == [];
    assert Repeat(op, 1) == [op];
  }

  /** Moving the split point one entry on: the first entry either is skipped or collapses and fails. */
  lemma CollapseShift(walk: seq<Path>, origin: Path, target: Path,
                      includes: Option<PathFilter>, excludes: Option<PathFilter>, fails: set<Path>, k: nat)
    requires forall p :: p in walk ==> IsPrefix(origin, p)
    requires 0 < k < |walk|
    requires walk[0] !in fails ==> !Included(includes, excludes, PathString(walk[0]))
    requires forall p :: p in walk[1..] ==> IsPrefix(origin, p)
    requires CopyWalk(walk[1..], origin, target, false, includes, excludes, fails)
             == Repeat(CopyOp(origin, target), IncludedCount(walk[1..][..k], includes, excludes))
                + CopyWalk(walk[1..][k..], origin, target, true, includes, excludes, fails)
    ensures CopyWalk(walk, origin, target, false, includes, excludes, fails)
            == Repeat(CopyOp(origin, target), IncludedCount(walk[..k + 1], includes, excludes))
               + CopyWalk(walk[k + 1..], origin, target, true, includes, excludes, fails)
  {
    CollapseStep(walk, origin, target, includes, excludes, fails);
    IncludedCountFront(walk, k, includes, excludes);
    assert walk[1..][k..] == walk[k + 1..];
    PrependRepeat(CopyOp(origin, target),
                  CopyWalk(walk, origin, target, false, includes, excludes, fails),
                  CopyWalk(walk[1..], origin, target, false, includes, excludes, fails),
                  CopyWalk(walk[k + 1..], origin, target, true, includes, excludes, fails),
                  IncludedCount(walk[1..][..k], includes, excludes),
                  IncludedCount(walk[..k + 1], includes, excludes),
                  Included(includes, excludes, PathString(walk[0])));
  }

  /**
   * The calls of a walk whose first entry either adds one more collapsed
   * call or none, in front of the calls of the rest of the walk.
   */
  lemma PrependRepeat(op: CopyOp, whole: seq<CopyOp>, later: seq<CopyOp>, tail: seq<CopyOp>,
                      n: nat, count: nat, included: bool)
    requires included ==> whole == [op] + later && count == n + 1
    requires !included ==> whole == later && count == n
    requires later == Repeat(op, n) + tail
    ensures whole == Repeat(op, count) + tail
  {
    if included {
      RepeatCons(op, n, tail);
    }
  }

  /** One more call in front of `n` repeated calls. */
  lemma RepeatCons(op: CopyOp, n: nat, tail: seq<CopyOp>)
    ensures [op] + (Repeat(op, n) + tail) == Repeat(op, n + 1) + tail
  {
    assert Repeat(op, n + 1) == [op] + Repeat(op, n);
  }

  lemma IncludedCountFront(walk: seq<Path>, k: nat, includes: Option<PathFilter>, excludes: Option<PathFilter>)
    requires k < |walk|
    ensures IncludedCount(walk[..k + 1], includes, excludes)
            == (if Included(includes, excludes, PathString(walk[0])) then 1 else 0) + IncludedCount(walk[1..][..k], includes, excludes)
  {
    assert walk[..k + 1][0] == walk[0];
    assert walk[..k + 1][1..] == walk[1..][..k];
  }

  lemma FailsBeforeTail(walk: seq<Path>, includes: Option<PathFilter>, excludes: Option<PathFilter>, fails: set<Path>, k: nat)
    requires 0 < k < |walk| && Included(includes, excludes, PathString(walk[k])) && walk[k] !in fails
    requires forall j :: 0 <= j < k && Included(includes, excludes, PathString(walk[j])) ==> walk[j] in fails
    ensures walk[0] !in fails ==> !Included(includes, excludes, PathString(walk[0]))
    ensures var rest := walk[1..];
      && Included(includes, excludes, PathString(rest[k - 1])) && rest[k - 1] !in fails
      && forall j :: 0 <= j < k - 1 && Included(includes, excludes, PathString(rest[j])) ==> rest[j] in fails
  {
    var rest := walk[1..];
    assert rest[k - 1] == walk[k];
    forall j | 0 <= j < k - 1 && Included(includes, excludes, PathString(rest[j]))
      ensures rest[j] in fails
    {
      assert rest[j] == walk[j + 1];
    }
  }

  /** One entry of the walk onto a target that is not a directory. */
  lemma CollapseStep(walk: seq<Path>, origin: Path, target: Path,
                     includes: Option<PathFilter>, excludes: Option<PathFilter>, fails: set<Path>)
    requires walk != [] && forall p :: p in walk ==> IsPrefix(origin, p)
    ensures forall p :: p in walk[1..] ==> IsPrefix(origin, p)
    ensures !Included(includes, excludes, PathString(walk[0])) ==>
              CopyWalk(walk, origin, target, false, includes, excludes, fails)
              == CopyWalk(walk[1..], origin, target, false, includes, excludes, fails)
    ensures Included(includes, excludes, PathString(walk[0])) && walk[0] in fails ==>
              CopyWalk(walk, origin, target, false, includes, excludes, fails)
              == [CopyOp(origin, target)] + CopyWalk(walk[1..], origin, target, false, includes, excludes, fails)
    ensures Included(includes, excludes, PathString(walk[0])) && walk[0] !in fails ==>
              CopyWalk(walk, origin, target, false, includes, excludes, fails)
              == [CopyOp(origin, target)] + CopyWalk(walk[1..], origin, target, true, includes, excludes, fails)
  {
    assert forall p :: p in walk[1..] ==> p in walk;
  }

  /** A file copied into an existing directory keeps its own name there. */
  lemma CopyFileIntoDirectory(fs: Node, origin: Path, target: Path,
                              includes: Option<PathFilter>, excludes: Option<PathFilter>, fails: set<Path>)
    requires origin != [] && Lookup(fs, origin).Some? && Lookup(fs, origin).value.File?
    requires IsDirectory(fs, target)
    ensures CopyPlan(fs, origin, target, includes, excludes, fails)
            == CopyResult([CopyOp(origin, target + [LastName(origin)])], origin !in fails)
  {
    LookupName(fs, origin);
  }

  /**
   * A directory copied with the two-argument `copy` into an existing
   * directory: every walked path, hidden ones included, lands at the
   * same relative place below the target, and the call succeeds.
   */
  lemma CopyDirectoryIntoDirectory(fs: Node, origin: Path, target: Path, fails: set<Path>)
    requires Lookup(fs, origin).Some? && Lookup(fs, origin).value.Dir?
    requires IsDirectory(fs, target)
    ensures var n := Lookup(fs, origin).value;
      var walk := Walk(n, origin);
      var r := CopyPlan(fs, origin, target, CopyAllInclude, CopyAllExclude, fails);
      (WalkBelow(n, origin);
       && r.ok
       && |r.ops| == |walk|
       && forall i :: 0 <= i < |walk| ==> r.ops[i] == CopyOp(walk[i], target + Relativize(origin, walk[i])))
  {
    var n := Lookup(fs, origin).value;
    WalkBelow(n, origin);
    CopyAllIntoDirectory(Walk(n, origin), origin, target, fails);
  }

  /** With both predicates null, the four-argument `copy` copies nothing from a directory origin. */
  lemma {:induction false} NoPredicateCopiesNothing(walk: seq<Path>, origin: Path, target: Path, targetIsDir: bool, fails: set<Path>)
    requires forall p :: p in walk ==> IsPrefix(origin, p)
    ensures CopyWalk(walk, origin, target, targetIsDir, None, None, fails) == []
    decreases |walk|
  {
    if walk != [] {
      assert forall p :: p in walk[1..] ==> p in walk;
      NoPredicateCopiesNothing(walk[1..], origin, target, targetIsDir, fails);
    }
  }
}
