/**
 * Composing Maven invocations: the option helpers `mvnCliParam`,
 * `mvnCliPomFile` and `processOptions`, the `MvnProject` description of a
 * project directory, and the fluent `MvnExecutor` that accumulates options
 * and a goal string, runs them through the ledger and fires one of its two
 * callbacks.
 */
module Executor {
  import opened Wrappers
  import opened Ledger
  import Pom

  const MvnCliQuiet: string := "-q"
  const MvnCliUpdate: string := "-U"
  const MvnSkipTests: string := "-DskipTests=true"
  const PomFileName: string := "pom.xml"

  /**
   * `mvnCliParam(parameter, value...)`: a `-D` user property. The varargs
   * array may be null (`None`) or empty; only its first value is used.
   */
  function MvnCliParam(parameter: string, values: Option<seq<string>>): (r: string)
    ensures StartsWith(r, "-D" + parameter)
    ensures r == "-D" + parameter <==> values.None? || values.value == []
    ensures values.Some? && values.value != [] ==> r[2 + |parameter|..] == "=" + values.value[0]
  {
    "-D" + parameter + (if values.None? || values.value == [] then "" else "=" + values.value[0])
  }

  /** `mvnCliPomFile`: the `-f` option selecting a pom file. */
  function MvnCliPomFile(file: string): (r: string)
    ensures StartsWith(r, "-f ") && r[3..] == file
  {
    "-f " + file
  }

  /** The options as `processOptions` joins them: each one behind a single space. */
  function Spaced(options: seq<string>): string
  {
    if options == [] then "" else Spaced(options[..|options| - 1]) + " " + options[|options| - 1]
  }

  lemma {:induction false} SpacedConcat(a: seq<string>, b: seq<string>)
    ensures Spaced(a + b) == Spaced(a) + Spaced(b)
    decreases |b|
  {
    if b != [] {
      var front := b[..|b| - 1];
      assert (a + b)[..|a + b| - 1] == a + front;
      assert (a + b)[|a + b| - 1] == b[|b| - 1];
      SpacedConcat(a, front);
    } else {
      assert a + b == a;
    }
  }

  /** Option `i` appears in the joined string, behind its space, right after the options before it. */
  lemma SpacedAt(options: seq<string>, i: nat)
    requires i < |options|
    ensures var at := |Spaced(options[..i])|;
            at + 1 + |options[i]| <= |Spaced(options)|
            && Spaced(options)[at..at + 1 + |options[i]|] == " " + options[i]
  {
    assert options == options[..i] + ([options[i]] + options[i + 1..]);
    SpacedConcat(options[..i], [options[i]] + options[i + 1..]);
    SpacedConcat([options[i]], options[i + 1..]);
    assert [options[i]][..0] == [];
    assert Spaced([options[i]]) == " " + options[i];
  }

  /** `processOptions`: a null array gives "", otherwise every option behind a space, in order. */
  method ProcessOptions(options: Option<seq<string>>) returns (r: string)
    ensures options.None? ==> r == ""
    ensures options.Some? ==> r == Spaced(options.value)
  {
    if options.None? {
      return "";
    }
    var opts := options.value;
    r := "";
    var i := 0;
    while i < |opts|
      invariant 0 <= i <= |opts|
      invariant r == Spaced(opts[..i])
    {
      assert opts[..i + 1][..i] == opts[..i];
      r := r + " " + opts[i];
      i := i + 1;
    }
    assert opts[..i] == opts;
  }

  /** `MvnProject`: a project directory, the paths derived from it, and the identity read from its pom. */
  datatype MvnProject = MvnProject(
    projectDir: string,
    targetDir: string,
    javadocDir: string,
    dependenciesDir: string,
    version: string,
    artifactId: string,
    pomFileName: string)
  {
    /** `getPomFilePath`: the pom file inside the project directory. */
    function PomFilePath(): (r: string)
      ensures StartsWith(r, projectDir + "/") && r[|projectDir| + 1..] == pomFileName
    {
      projectDir + "/" + pomFileName
    }

    /** `getJavadocFilePath`: joins with " / " and repeats the (already project-relative) target and javadoc paths. */
    function JavadocFilePath(): (r: string)
      ensures StartsWith(r, projectDir + " / " + targetDir + "/")
      ensures |r| == |projectDir| + |targetDir| + |javadocDir| + 4
      ensures r[|projectDir| + |targetDir| + 4..] == javadocDir
    {
      projectDir + " / " + targetDir + "/" + javadocDir
    }

    /** `target()`: joins the project and target directories with " / ". */
    function Target(): (r: string)
      ensures StartsWith(r, projectDir + " / ") && r[|projectDir| + 3..] == targetDir
    {
      projectDir + " / " + targetDir
    }
  }

  lemma StartsWithConcat(prefix: string, rest: string)
    ensures StartsWith(prefix + rest, prefix)
  {
    assert (prefix + rest)[..|prefix|] == prefix;
  }

  /** What the project constructor reads for the version and artifact id of a pom (None: unreadable). */
  function PomField(pom: Option<Pom.Element>, tag: string): string
  {
    if pom.None? then "" else Pom.LastText(pom.value.children, tag)
  }

  /**
   * The `MvnProject` constructor: derives the target, javadoc and dependency
   * directories from `projectDir` and reads version and artifact id from the
   * pom that `readPom` yields for `projectDir/pom.xml`.
   */
  method NewProject(projectDir: string, readPom: string -> Option<Pom.Element>) returns (p: MvnProject)
    ensures p.projectDir == projectDir && p.pomFileName == PomFileName
    ensures p.targetDir == projectDir + "/target"
    ensures p.javadocDir == p.targetDir + "/site/apidocs"
    ensures p.dependenciesDir == p.targetDir + "/dependency"
    ensures StartsWith(p.javadocDir, projectDir + "/") && StartsWith(p.dependenciesDir, projectDir + "/")
    ensures p.version == PomField(readPom(projectDir + "/" + PomFileName), "version")
    ensures p.artifactId == PomField(readPom(projectDir + "/" + PomFileName), "artifactId")
  {
    var targetDir := projectDir + "/target";
    var javadocDir := targetDir + "/site/apidocs";
    var dependenciesDir := targetDir + "/dependency";
    var pom := readPom(projectDir + "/" + PomFileName);
    var version := Pom.ProjectVersion(pom);
    var artifactId := Pom.ProjectArtifactId(pom);
    p := MvnProject(projectDir, targetDir, javadocDir, dependenciesDir, version, artifactId, PomFileName);
    assert javadocDir == (projectDir + "/") + "target/site/apidocs";
    assert dependenciesDir == (projectDir + "/") + "target/dependency";
    StartsWithConcat(projectDir + "/", "target/site/apidocs");
    StartsWithConcat(projectDir + "/", "target/dependency");
  }

  /**
   * A callback slot of the executor. Callbacks are arbitrary code in the
   * source; here only which one was processed is kept.
   */
  datatype Operation =
    | LogFailure              // the default failOperation: logs "command status : error executing goal"
    | LogSuccess              // the default successOperation: logs "command status : success"
    | UserOperation(id: nat)  // a callback installed with onFail/onSuccess

  /** The whole state of an executor, so that a call can say which single field it changed. */
  datatype ExecutorState = ExecutorState(
    project: MvnProject,
    firstArguments: string,
    arguments: string,
    goals: string,
    failOperation: Operation,
    successOperation: Operation,
    processed: seq<Operation>)

  /** `MvnExecutor`: one chain of configuration calls ending in `execute`. */
  class MvnExecutor {
    var project: MvnProject
    var firstArguments: string        // a StringBuilder in the source
    var arguments: string             // a StringBuilder in the source
    var goals: string
    var failOperation: Operation
    var successOperation: Operation
    var processed: seq<Operation>     // the callbacks processed so far, oldest first

    function State(): ExecutorState
      reads this
    {
      ExecutorState(project, firstArguments, arguments, goals, failOperation, successOperation, processed)
    }

    /** The argument list handed to `mvn.run`. */
    function CommandLine(): seq<string>
      reads this
    {
      [firstArguments, arguments, goals]
    }

    /** The ledger label of an execution. */
    function Label(executionMessage: string): string
      reads this
    {
      project.artifactId + " : " + executionMessage
    }

    /** `MvnProject.executor()`: a fresh executor for `p` whose first arguments already select `p`'s pom. */
    constructor (p: MvnProject)
      ensures State() == ExecutorState(p, " -f " + p.PomFilePath() + " ", "", "", LogFailure, LogSuccess, [])
    {
      project := p;
      firstArguments := "";
      arguments := "";
      goals := "";
      failOperation := LogFailure;
      successOperation := LogSuccess;
      processed := [];
      new;
      var _ := ProjectPomFile(p.PomFilePath());
    }

    method ForceUpdate() returns (r: MvnExecutor)
      modifies this
      ensures r == this
      ensures State() == old(State()).(firstArguments := old(firstArguments) + " " + MvnCliUpdate + " ")
    {
      firstArguments := firstArguments + " " + MvnCliUpdate + " ";
      return this;
    }

    method SkipTests() returns (r: MvnExecutor)
      modifies this
      ensures r == this
      ensures State() == old(State()).(firstArguments := old(firstArguments) + " " + MvnSkipTests + " ")
    {
      firstArguments := firstArguments + " " + MvnSkipTests + " ";
      return this;
    }

    method Quiet() returns (r: MvnExecutor)
      modifies this
      ensures r == this
      ensures State() == old(State()).(firstArguments := old(firstArguments) + " " + MvnCliQuiet + " ")
    {
      firstArguments := firstArguments + " " + MvnCliQuiet + " ";
      return this;
    }

    /** `goals`: replaces (does not append to) the goal string. */
    method Goals(newGoals: string) returns (r: MvnExecutor)
      modifies this
      ensures r == this
      ensures State() == old(State()).(goals := newGoals)
    {
      goals := newGoals;
      return this;
    }

    method OnFail(op: Operation) returns (r: MvnExecutor)
      modifies this
      ensures r == this
      ensures State() == old(State()).(failOperation := op)
    {
      failOperation := op;
      return this;
    }

    method OnSuccess(op: Operation) returns (r: MvnExecutor)
      modifies this
      ensures r == this
      ensures State() == old(State()).(successOperation := op)
    {
      successOperation := op;
      return this;
    }

    /** `userProperty(key, value)`: appends " -Dkey=value" to the second accumulator. */
    method UserProperty(key: string, value: string) returns (r: MvnExecutor)
      modifies this
      ensures r == this
      ensures State() == old(State()).(arguments := old(arguments) + " -D" + key + "=" + value)
    {
      arguments := arguments + " " + MvnCliParam(key, Some([value]));
      return this;
    }

    /** `projectPomFile(path)`: appends " -f path " to the first accumulator. */
    method ProjectPomFile(pomFilePath: string) returns (r: MvnExecutor)
      modifies this
      ensures r == this
      ensures State() == old(State()).(firstArguments := old(firstArguments) + " -f " + pomFilePath + " ")
    {
      firstArguments := firstArguments + " -f " + pomFilePath + " ";
      return this;
    }

    /**
     * `execute(message)`: one `mvn.run` labelled "artifactId : message" with
     * the first arguments, the user properties and the goals, in that order;
     * then exactly one callback, the success one iff the run succeeded. The
     * accumulators are left as they were, so a second `execute` repeats them.
     */
    method Execute(executionMessage: string, ledger: OutcomeLedger, invoker: Invoker) returns (r: MvnExecutor)
      modifies this, ledger
      ensures r == this
      ensures ledger.Contents() == Record(old(ledger.Contents()), Label(executionMessage), invoker(CommandLine()))
      ensures State() == old(State()).(processed := old(processed) +
                [if Succeeded(invoker(CommandLine())) then successOperation else failOperation])
    {
      var ok := ledger.Run(project.artifactId + " : " + executionMessage, [firstArguments, arguments, goals], invoker);
      if ok {
        processed := processed + [successOperation];
      } else {
        processed := processed + [failOperation];
      }
      return this;
    }
  }
}
