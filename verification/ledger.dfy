/**
 * The outcome ledger of the Reactor: the two process-wide, append-only lists
 * `successFullCommands` and `failedCommands`, the Maven run that classifies
 * every invocation into exactly one of them, and the build summary.
 *
 * The Maven invoker is a foreign library; it is modelled as an oracle from
 * the argument list of a request to the outcome the invoker reports.
 */
module Ledger {

  /** What `invoker.execute(request)` reports for one request. */
  datatype Invocation =
    | Completed(exitCode: int, hasExecutionException: bool)  // an InvocationResult
    | InvocationFailed                                       // a MavenInvocationException was thrown

  /** The Maven invoker: the outcome of executing a request with these goals/arguments. */
  type Invoker = seq<string> -> Invocation

  /** A run succeeds when it completed with exit code 0 and without an execution exception. */
  predicate Succeeded(inv: Invocation)
  {
    inv.Completed? && !inv.hasExecutionException && inv.exitCode == 0
  }

  /** The abstract value of the ledger: both lists, in insertion order. */
  datatype Entries = Entries(succeeded: seq<string>, failed: seq<string>)

  /** The ledger after one run labelled `message` whose invoker reported `inv`. */
  function Record(e: Entries, message: string, inv: Invocation): (r: Entries)
    ensures |r.succeeded| + |r.failed| == |e.succeeded| + |e.failed| + 1
    ensures r.succeeded == e.succeeded + [message] <==> Succeeded(inv)
    ensures r.failed == e.failed + [message] <==> !Succeeded(inv)
    ensures Succeeded(inv) ==> r.failed == e.failed
    ensures !Succeeded(inv) ==> r.succeeded == e.succeeded
  {
    if Succeeded(inv) then Entries(e.succeeded + [message], e.failed)
    else Entries(e.succeeded, e.failed + [message])
  }

  const OkPrefix: string := "OK -> "
  const KoPrefix: string := "KO -> "

  /** Every entry of `entries`, in order, behind `prefix`. */
  function Prefixed(prefix: string, entries: seq<string>): (lines: seq<string>)
    ensures |lines| == |entries|
    ensures forall i :: 0 <= i < |entries| ==> lines[i] == prefix + entries[i]
  {
    if entries == [] then [] else [prefix + entries[0]] + Prefixed(prefix, entries[1..])
  }

  /** The lines of `printSummary`: every success in order, then every failure in order. */
  function SummaryLines(e: Entries): (lines: seq<string>)
    ensures |lines| == |e.succeeded| + |e.failed|
    ensures forall i :: 0 <= i < |e.succeeded| ==> lines[i] == OkPrefix + e.succeeded[i]
    ensures forall j :: 0 <= j < |e.failed| ==> lines[|e.succeeded| + j] == KoPrefix + e.failed[j]
  {
    Prefixed(OkPrefix, e.succeeded) + Prefixed(KoPrefix, e.failed)
  }

  predicate StartsWith(s: string, prefix: string)
  {
    |prefix| <= |s| && s[..|prefix|] == prefix
  }

  /** Reads a summary back: "OK -> " lines are successes, "KO -> " lines failures. */
  function ParseSummary(lines: seq<string>): Entries
  {
    if lines == [] then Entries([], [])
    else
      var rest := ParseSummary(lines[1..]);
      if StartsWith(lines[0], OkPrefix) then Entries([lines[0][|OkPrefix|..]] + rest.succeeded, rest.failed)
      else if StartsWith(lines[0], KoPrefix) then Entries(rest.succeeded, [lines[0][|KoPrefix|..]] + rest.failed)
      else rest
  }

  /** The summary loses nothing: it lists both ledgers completely and in order. */
  lemma {:induction false} SummaryRoundTrip(e: Entries)
    ensures ParseSummary(SummaryLines(e)) == e
  {
    SummaryRoundTripFrom(e.succeeded, e.failed);
  }

  lemma {:induction false} SummaryRoundTripFrom(succeeded: seq<string>, failed: seq<string>)
    ensures ParseSummary(Prefixed(OkPrefix, succeeded) + Prefixed(KoPrefix, failed)) == Entries(succeeded, failed)
    decreases |succeeded| + |failed|
  {
    if succeeded != [] {
      var ok, ko := Prefixed(OkPrefix, succeeded[1..]), Prefixed(KoPrefix, failed);
      assert Prefixed(OkPrefix, succeeded) == [OkPrefix + succeeded[0]] + ok;
      assert ([OkPrefix + succeeded[0]] + ok) + ko == [OkPrefix + succeeded[0]] + (ok + ko);
      SummaryRoundTripFrom(succeeded[1..], failed);
      ParseOkLine(succeeded[0], ok + ko);
      assert [succeeded[0]] + succeeded[1..] == succeeded;
    } else if failed != [] {
      var rest := Prefixed(KoPrefix, failed[1..]);
      assert Prefixed(KoPrefix, failed) == [KoPrefix + failed[0]] + rest;
      assert Prefixed(OkPrefix, succeeded) + Prefixed(KoPrefix, failed) == [KoPrefix + failed[0]] + rest;
      assert rest == Prefixed(OkPrefix, []) + rest;
      SummaryRoundTripFrom([], failed[1..]);
      ParseKoLine(failed[0], rest);
      assert [failed[0]] + failed[1..] == failed;
    } else {
      assert Prefixed(OkPrefix, succeeded) + Prefixed(KoPrefix, failed) == [];
    }
  }

  lemma ParseOkLine(entry: string, rest: seq<string>)
    ensures ParseSummary([OkPrefix + entry] + rest)
         == Entries([entry] + ParseSummary(rest).succeeded, ParseSummary(rest).failed)
  {
    var lines := [OkPrefix + entry] + rest;
    assert lines[1..] == rest;
    assert lines[0][..|OkPrefix|] == OkPrefix;
    assert lines[0][|OkPrefix|..] == entry;
  }

  lemma ParseKoLine(entry: string, rest: seq<string>)
    ensures ParseSummary([KoPrefix + entry] + rest)
         == Entries(ParseSummary(rest).succeeded, [entry] + ParseSummary(rest).failed)
  {
    var lines := [KoPrefix + entry] + rest;
    assert lines[1..] == rest;
    assert lines[0][..|KoPrefix|] == KoPrefix;
    assert lines[0][..|OkPrefix|] != OkPrefix;
    assert lines[0][|KoPrefix|..] == entry;
  }

  /** `successFullCommands` and `failedCommands`, shared by every operation of the Reactor. */
  class OutcomeLedger {
    var succeeded: seq<string>
    var failed: seq<string>

    constructor ()
      ensures succeeded == [] && failed == []
    {
      succeeded := [];
      failed := [];
    }

    function Contents(): Entries
      reads this
    {
      Entries(succeeded, failed)
    }

    /**
     * `mvn.run`: executes one Maven request with `arguments` and files
     * `message` under exactly one of the two lists.
     */
    method Run(message: string, arguments: seq<string>, invoker: Invoker) returns (ok: bool)
      modifies this
      ensures ok <==> Succeeded(invoker(arguments))
      ensures Contents() == Record(old(Contents()), message, invoker(arguments))
    {
      var result := invoker(arguments);
      match result
      case InvocationFailed =>
        failed := failed + [message];
        return false;
      case Completed(exitCode, hasExecutionException) =>
        if hasExecutionException || exitCode != 0 {
          failed := failed + [message];
          return false;
        } else {
          succeeded := succeeded + [message];
        }
      ok := true;
    }

    /** A failure label filed by a file-system utility (zip, copy, find). */
    method RecordFailure(entry: string)
      modifies this
      ensures failed == old(failed) + [entry] && succeeded == old(succeeded)
    {
      failed := failed + [entry];
    }

    /** `printSummary`: the success lines in order, then the failure lines in order. */
    function Summary(): (lines: seq<string>)
      reads this
      ensures ParseSummary(lines) == Contents()
      ensures |lines| == |succeeded| + |failed|
      ensures forall i :: 0 <= i < |succeeded| ==> lines[i] == OkPrefix + succeeded[i]
      ensures forall j :: 0 <= j < |failed| ==> lines[|succeeded| + j] == KoPrefix + failed[j]
    {
      SummaryRoundTrip(Contents());
      SummaryLines(Contents())
    }
  }
}
