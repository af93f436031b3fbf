/** `find(origin, matchCriteria)`. */
module TreeFinder {
  import opened Wrappers
  import opened FileTree
  import opened Ledger

  /** The failure filed when `find` is called on a file. */
  function FindUsageError(origin: Path): string
  {
    "find : on " + PathString(origin) + "(called with a file, not a folder)"
  }

  /**
   * The walked paths below `origin` whose final name satisfies `criteria`,
   * in walk order. A file origin is refused and filed in the ledger. A
   * missing origin, or the root (which has no final name), gives nothing.
   */
  method Find(fs: Node, origin: Path, criteria: string -> bool, ledger: OutcomeLedger)
    returns (result: seq<Path>)
    modifies ledger
    ensures Lookup(fs, origin).Some? && Lookup(fs, origin).value.File? ==>
              result == []
              && ledger.succeeded == old(ledger.succeeded)
              && ledger.failed == old(ledger.failed) + [FindUsageError(origin)]
    ensures !(Lookup(fs, origin).Some? && Lookup(fs, origin).value.File?) ==>
              ledger.Contents() == old(ledger.Contents())
    ensures Lookup(fs, origin).None? || origin == [] ==> result == []
    ensures Lookup(fs, origin).Some? && Lookup(fs, origin).value.Dir? && origin != [] ==>
              var walk := Walk(Lookup(fs, origin).value, origin);
              (WalkBelow(Lookup(fs, origin).value, origin);
               && (forall p :: p in result <==> p in walk && criteria(LastName(p)))
               && result == Matching(walk, criteria))
  {
    result := [];
    var found := Lookup(fs, origin);
    if found.Some? && found.value.File? {
      ledger.RecordFailure(FindUsageError(origin));
      return;
    }
    if found.Some? && origin != [] {
      var walk := Walk(found.value, origin);
      WalkBelow(found.value, origin);
      result := Matching(walk, criteria);
    }
  }
}
