# javen Reactor — a verified model

The model covers the decision logic of `Reactor`, the build-orchestration helper of javen, in Dafny.

- **Outcome ledger.** `OutcomeLedger` holds the process-wide lists `successFullCommands` and `failedCommands`. `mvn.run` files every Maven invocation under exactly one of them, and `printSummary` lists both.
- **Invocation composition.** This covers:
  - the option helpers `mvnCliParam`, `mvnCliPomFile` and `processOptions`;
  - `MvnProject`, which derives its directories from the project directory and reads its version and artifact id from the pom;
  - the fluent `MvnExecutor`. It accumulates first arguments, user properties and a goal string, runs them through the ledger, and processes one of its two callbacks.
- **Pom reading.** `extractVersion`, `extractArtifactId`, `mvn.projectversion`, `mvn.projectArtifactId` and `mvn.mvnProjectProperties` work over a parsed pom. The pom is an element tree of tag name, text content and children. The children are all child nodes, so text and comment nodes are among them, named "#text" and "#comment".
- **File-system utilities.** `zip`/`zipFile`, both `copy` overloads, `find`, both `delete` overloads and `deleteDirectory` work over a file tree.
  - The tree is a value: a node is a file (name, hidden flag, bytes) or a directory (name, hidden flag, children in `listFiles()` order).
  - Paths are absolute sequences of names. A name is non-empty and contains no "/", and the names of siblings are distinct.
  - `Files.walk` is a pre-order walk of the tree.

External effects are parameters:
- The Maven invoker is a function from the argument list to an `Invocation`: exit code and execution-exception flag, or a thrown `MavenInvocationException`.
- A pom reader maps a path to a parsed pom, or to `None` when it cannot be read.
- `copy` receives the set of walked paths whose `Files.copy` throws.
- `delete` receives the working directory (`user.dir`) and the set of paths whose deletion the file system refuses.
- `zip` receives whether the target can be opened for writing.
- Callbacks are tags. The executor keeps the list of callbacks it processed.

Modules:

| file | module |
|---|---|
| `wrappers.dfy` | `Wrappers`: `Option` |
| `ledger.dfy` | `Ledger` |
| `pom.dfy` | `Pom` |
| `executor.dfy` | `Executor` |
| `filetree.dfy` | `FileTree`: nodes, lookup, walk and replacement, with their lemmas |
| `archive.dfy` | `Archive`: `zip`, `zipFile` |
| `copier.dfy` | `TreeCopier`: `copy` |
| `finder.dfy` | `TreeFinder`: `find` |
| `deleter.dfy` | `TreeDeleter`: `delete`, `deleteDirectory`, `delete(path, matchCriteria)` |

Behaviour of the code a reader may not expect (line numbers are those of `Reactor.java`):
- **Parent fallback.** `extractVersion` starts `version` at `""` (line 415), so the `version == null` parent fallback at line 427 can never fire. A pom whose only version sits inside `<parent>` yields `""`, not the parent's version (`Pom.ParentVersionIsIgnored`).
- **Properties.** `mvnProjectProperties` reads `item(0)` on every pass of its loop (line 355), so it yields at most one entry. That entry is the first child node of `<properties>`, text nodes included: on an indented pom it is the whitespace text node `#text` (`Pom.IndentedPropertiesYieldText`).
- **Copy onto a non-directory target.** Every included entry collapses onto the target only while those copies throw. `targetFile.isDirectory()` is asked again for every entry (line 485), and the first successful copy of the origin directory turns the target into a directory. Later entries then keep the hierarchy below it (`TreeCopier.FirstCollapseMakesDirectory`).
- **Hidden files in copy.** `copy` also copies hidden files and directories, because `Files.walk` (line 478) does not skip them. Only `zip` leaves them out.
- **Copy with no predicates.** The Javadoc at lines 452-458 speaks of inclusions and exclusions, but with both predicates null neither disjunct of lines 482-483 holds and the four-argument `copy` copies nothing from a directory origin (a file origin is still copied, lines 470-475). Every walked path is copied only by the two-argument overload, which passes `s -> true` and `s -> false`.
- **Copy errors.** An `IOException` while copying one walked entry is caught inside the loop (lines 493-495): that entry is skipped and `copy` still returns true. In the model, only the single copy of a file origin can make `copy` return false and file "copy : origin --> target" (lines 499-503); in the code an `IOException` from `Files.walk` (line 478) reaches that catch too.

## Model

| member | source | states |
|---|---|---|
| Ledger.Record | sampleIntegrationProject/src/main/java/org/javen/integration/Reactor.java:316-330 | a run adds its message to exactly one list: to the successes iff the invocation completed with exit code 0 and no execution exception, otherwise to the failures; the other list is unchanged |
| Ledger.OutcomeLedger.constructor | sampleIntegrationProject/src/main/java/org/javen/integration/Reactor.java:41-42 | both lists start empty |
| Ledger.OutcomeLedger.Run | sampleIntegrationProject/src/main/java/org/javen/integration/Reactor.java:307-331 | `mvn.run` returns true iff the invocation succeeded, and the ledger becomes `Record` of its old contents |
| Ledger.OutcomeLedger.RecordFailure | sampleIntegrationProject/src/main/java/org/javen/integration/Reactor.java:501 | a utility's failure label is appended to the failures only |
| Ledger.Prefixed | sampleIntegrationProject/src/main/java/org/javen/integration/Reactor.java:556-563 | line i of a summary block is the prefix followed by entry i |
| Ledger.SummaryRoundTrip | sampleIntegrationProject/src/main/java/org/javen/integration/Reactor.java:553-564 | reading the summary back ("OK -> " lines as successes, "KO -> " lines as failures) gives both lists back completely and in order |
| Ledger.SummaryLines | sampleIntegrationProject/src/main/java/org/javen/integration/Reactor.java:553-564 | line i is "OK -> " + success i for every success, and the failures follow all of them in order, each behind "KO -> " |
| Ledger.OutcomeLedger.Summary | sampleIntegrationProject/src/main/java/org/javen/integration/Reactor.java:553-564 | `printSummary` has one line per entry: every success line in order, then every failure line in order; it parses back to the ledger's contents |
| Pom.Trim | sampleIntegrationProject/src/main/java/org/javen/integration/Reactor.java:421 | `String.trim`: the result is the middle of the text; only characters up to U+0020 are removed from both ends, and the result neither starts nor ends with one |
| Pom.TrimIdempotent | sampleIntegrationProject/src/main/java/org/javen/integration/Reactor.java:443 | trimming a trimmed text changes nothing |
| Pom.LastText | sampleIntegrationProject/src/main/java/org/javen/integration/Reactor.java:417-426 | the scanned value is "" when no direct child carries the tag |
| Pom.LastMatchWins | sampleIntegrationProject/src/main/java/org/javen/integration/Reactor.java:417-426 | when child k is the last direct child with the tag, the scanned value is the trimmed text of child k |
| Pom.FirstNamed | sampleIntegrationProject/src/main/java/org/javen/integration/Reactor.java:353 | `getElementsByTagName(tag).item(0)` finds an element with that name whenever one of the nodes has it |
| Pom.Preorder | sampleIntegrationProject/src/main/java/org/javen/integration/Reactor.java:353 | the document-order listing of some nodes starts with the first of them |
| Pom.FirstIn | sampleIntegrationProject/src/main/java/org/javen/integration/Reactor.java:353 | the search finds nothing iff no listed element has the name; otherwise it finds the element at the first position that has it |
| Pom.FirstNamedIsFirstInDocumentOrder | sampleIntegrationProject/src/main/java/org/javen/integration/Reactor.java:353 | `getElementsByTagName(tag).item(0)` is the first element named `tag` in document order, at any depth |
| Pom.IndentedPropertiesYieldText | sampleIntegrationProject/src/main/java/org/javen/integration/Reactor.java:353-357 | on an indented pom the first child node of `properties` is a whitespace text node, so the single entry is "#text" with an empty value |
| Pom.ExtractVersion | sampleIntegrationProject/src/main/java/org/javen/integration/Reactor.java:411-432 | `extractVersion` always returns the last direct `version` child, trimmed, or "": the parent fallback never fires |
| Pom.ParentVersionIsIgnored | sampleIntegrationProject/src/main/java/org/javen/integration/Reactor.java:414-430 | a pom whose only version is inside `<parent>` yields "" |
| Pom.DirectVersionIsRead | sampleIntegrationProject/src/main/java/org/javen/integration/Reactor.java:417-422 | a direct `<version> 2.0\n</version>` yields "2.0" |
| Pom.ExtractArtifactId | sampleIntegrationProject/src/main/java/org/javen/integration/Reactor.java:434-448 | `extractArtifactId` returns the last direct `artifactId` child, trimmed, or "" |
| Pom.ProjectVersion | sampleIntegrationProject/src/main/java/org/javen/integration/Reactor.java:278-287 | `mvn.projectversion` is "" for an unreadable pom, else the extracted version |
| Pom.ProjectArtifactId | sampleIntegrationProject/src/main/java/org/javen/integration/Reactor.java:295-304 | `mvn.projectArtifactId` is "" for an unreadable pom, else the extracted artifact id |
| Pom.ProjectProperties | sampleIntegrationProject/src/main/java/org/javen/integration/Reactor.java:349-363 | the map holds at most one key; it is empty iff there is no pom, no `properties` element or no child in it; otherwise it maps the first child's name to its trimmed text |
| Executor.MvnCliParam | sampleIntegrationProject/src/main/java/org/javen/integration/Reactor.java:64-66 | the option starts with "-D"+parameter; it is exactly that iff the value array is null or empty; otherwise "=" + the first value follows |
| Executor.MvnCliPomFile | sampleIntegrationProject/src/main/java/org/javen/integration/Reactor.java:68-70 | the option is "-f " followed by the file |
| Executor.SpacedAt | sampleIntegrationProject/src/main/java/org/javen/integration/Reactor.java:401-405 | each option appears, behind one space, right after the joined options before it |
| Executor.ProcessOptions | sampleIntegrationProject/src/main/java/org/javen/integration/Reactor.java:397-406 | a null array gives ""; otherwise the result is every option behind a space, in order |
| Executor.MvnProject.PomFilePath | sampleIntegrationProject/src/main/java/org/javen/integration/Reactor.java:596-598 | the pom path is the project directory, "/", then the pom file name |
| Executor.MvnProject.JavadocFilePath | sampleIntegrationProject/src/main/java/org/javen/integration/Reactor.java:600-602 | the javadoc path starts with projectDir + " / " + targetDir + "/" and repeats the javadoc directory after it |
| Executor.MvnProject.Target | sampleIntegrationProject/src/main/java/org/javen/integration/Reactor.java:634-636 | `target()` is projectDir + " / " + targetDir |
| Executor.NewProject | sampleIntegrationProject/src/main/java/org/javen/integration/Reactor.java:580-587 | the target, javadoc and dependency directories lie below the project directory as "/target", "/target/site/apidocs" and "/target/dependency"; version and artifact id come from projectDir/pom.xml, or are "" |
| Executor.MvnExecutor.constructor | sampleIntegrationProject/src/main/java/org/javen/integration/Reactor.java:589-594 | `executor()` gives an executor of the project whose first arguments are " -f <pom path> ", with no user properties, no goals, the logging callbacks and nothing processed |
| Executor.MvnExecutor.ForceUpdate | sampleIntegrationProject/src/main/java/org/javen/integration/Reactor.java:658-661 | appends " -U " to the first arguments; nothing else changes; returns this |
| Executor.MvnExecutor.SkipTests | sampleIntegrationProject/src/main/java/org/javen/integration/Reactor.java:663-666 | appends " -DskipTests=true " to the first arguments; nothing else changes; returns this |
| Executor.MvnExecutor.Quiet | sampleIntegrationProject/src/main/java/org/javen/integration/Reactor.java:668-671 | appends " -q " to the first arguments; nothing else changes; returns this |
| Executor.MvnExecutor.Goals | sampleIntegrationProject/src/main/java/org/javen/integration/Reactor.java:673-676 | replaces the goal string; nothing else changes; returns this |
| Executor.MvnExecutor.OnFail | sampleIntegrationProject/src/main/java/org/javen/integration/Reactor.java:678-681 | replaces the failure callback; nothing else changes; returns this |
| Executor.MvnExecutor.OnSuccess | sampleIntegrationProject/src/main/java/org/javen/integration/Reactor.java:683-686 | replaces the success callback; nothing else changes; returns this |
| Executor.MvnExecutor.UserProperty | sampleIntegrationProject/src/main/java/org/javen/integration/Reactor.java:689-692 | appends " -Dkey=value" to the user properties; nothing else changes; returns this |
| Executor.MvnExecutor.ProjectPomFile | sampleIntegrationProject/src/main/java/org/javen/integration/Reactor.java:694-697 | appends " -f path " to the first arguments; nothing else changes; returns this |
| Executor.MvnExecutor.Execute | sampleIntegrationProject/src/main/java/org/javen/integration/Reactor.java:699-706 | one run labelled "artifactId : message" with [first arguments, user properties, goals]; the ledger records it; exactly one callback is processed, the success one iff the run succeeded; the accumulators are kept; returns this |
| FileTree.Walk | sampleIntegrationProject/src/main/java/org/javen/integration/Reactor.java:193 | the walk is never empty and starts at the origin |
| FileTree.WalkBelow | sampleIntegrationProject/src/main/java/org/javen/integration/Reactor.java:193 | every walked path lies at or below the origin |
| FileTree.WalkChildrenBelow | sampleIntegrationProject/src/main/java/org/javen/integration/Reactor.java:193 | every path walked inside a directory lies strictly below it |
| FileTree.WalkSound | sampleIntegrationProject/src/main/java/org/javen/integration/Reactor.java:193 | every walked path leads to a node of the tree |
| FileTree.WalkComplete | sampleIntegrationProject/src/main/java/org/javen/integration/Reactor.java:193 | every node below the origin is walked |
| FileTree.Matching | sampleIntegrationProject/src/main/java/org/javen/integration/Reactor.java:194-196 | the filter by final name keeps exactly the walked paths whose name matches |
| FileTree.MatchingKeepsOrder | sampleIntegrationProject/src/main/java/org/javen/integration/Reactor.java:194-196 | the filtered paths keep walk order: of any two results, the earlier one was walked first |
| FileTree.LookupName | sampleIntegrationProject/src/main/java/org/javen/integration/Reactor.java:473 | the node at a path carries the path's final name (`getFileName`) |
| FileTree.RemovedIsGone | sampleIntegrationProject/src/main/java/org/javen/integration/Reactor.java:235 | a deleted node is no longer found at its path |
| FileTree.ReplaceKeepsDisjoint | sampleIntegrationProject/src/main/java/org/javen/integration/Reactor.java:227-235 | deleting one path leaves every path neither above nor below it unchanged |
| Archive.ZipEntriesUnder | sampleIntegrationProject/src/main/java/org/javen/integration/Reactor.java:109-124 | below the root, every entry of a node is named under the node's path, and a directory's "path/" entry comes first |
| Archive.ZipLevelIrrelevant | sampleIntegrationProject/src/main/java/org/javen/integration/Reactor.java:123 | the pre-incremented level only matters as zero or non-zero |
| Archive.ZipOutput.PutEntry | sampleIntegrationProject/src/main/java/org/javen/integration/Reactor.java:127-134 | an entry with all its bytes is appended to the archive |
| Archive.ZipEntriesCount | sampleIntegrationProject/src/main/java/org/javen/integration/Reactor.java:104-136 | one entry per node that is neither hidden nor inside a hidden directory, except the root directory, which has no entry of its own |
| Archive.ZipChildrenCount | sampleIntegrationProject/src/main/java/org/javen/integration/Reactor.java:121-124 | the children of a directory give one entry per visible node below them |
| Archive.ZipFile | sampleIntegrationProject/src/main/java/org/javen/integration/Reactor.java:104-136 | `zipFile` appends exactly the entries of the node: nothing for a hidden node, the file with its bytes, "name/" before a non-root directory's children, and no entry of its own for the root; those entries are the function `ZipEntries`, whose counts `ZipEntriesCount` and `ZipChildrenCount` state and whose contents `ArchiveComplete` and `ArchiveSound` characterise |
| Archive.ZipEach | sampleIntegrationProject/src/main/java/org/javen/integration/Reactor.java:121-124 | the loop appends the entries of each child in order, child i at level + i + 1 |
| Archive.Zip | sampleIntegrationProject/src/main/java/org/javen/integration/Reactor.java:85-101 | `zip` succeeds iff the target is writable and the origin either exists or is missing with a hidden name (`isHidden` on Unix, lines 104-106); an existing origin yields its archive and a missing hidden one an empty archive; otherwise it files "zip : origin --> target" |
| Archive.ArchiveComplete | sampleIntegrationProject/src/main/java/org/javen/integration/Reactor.java:104-136 | every file that is not hidden, and not inside a hidden directory, is in the archive under its path relative to the root, with its bytes unchanged |
| Archive.ArchiveSound | sampleIntegrationProject/src/main/java/org/javen/integration/Reactor.java:104-136 | every file entry of the archive is such a visible file, with its bytes |
| Archive.HiddenFileIsLeftOut | sampleIntegrationProject/src/main/java/org/javen/integration/Reactor.java:105-107 | a folder holding `b.txt` and the hidden `.hidden` archives to the single entry `b.txt` |
| TreeCopier.CopyAllIncludesEverything | sampleIntegrationProject/src/main/java/org/javen/integration/Reactor.java:173-175 | `s -> true` and `s -> false` let every path through the inclusive-OR test |
| TreeCopier.NoPredicateCopiesNothing | sampleIntegrationProject/src/main/java/org/javen/integration/Reactor.java:463-483 | with both predicates null, no walked path is copied |
| TreeCopier.CopyIntoDirectory | sampleIntegrationProject/src/main/java/org/javen/integration/Reactor.java:482-487 | into a directory target, exactly the included walked paths are copied, each to the target joined with its path relative to the origin |
| TreeCopier.CopyAllIntoDirectory | sampleIntegrationProject/src/main/java/org/javen/integration/Reactor.java:477-490 | with the two-argument predicates, every walked path is copied in walk order, keeping the hierarchy |
| TreeCopier.CollapseWhileCopiesFail | sampleIntegrationProject/src/main/java/org/javen/integration/Reactor.java:485-490 | onto a non-directory target whose every included copy throws, the calls are one copy of the origin onto the target per included entry |
| TreeCopier.FirstCollapseMakesDirectory | sampleIntegrationProject/src/main/java/org/javen/integration/Reactor.java:485-490 | onto a non-directory target, with walk[k] the first included entry whose copy succeeds: one copy of the origin onto the target per included entry up to walk[k], then the rest of the walk copied into the target as a directory, keeping the hierarchy |
| TreeCopier.CopyFileIntoDirectory | sampleIntegrationProject/src/main/java/org/javen/integration/Reactor.java:470-475 | a file copied into a directory lands at target/<its name>, and the call fails iff that copy throws |
| TreeCopier.CopyDirectoryIntoDirectory | src/test/java/org/javen/integration/ReactorTest.java:23-26 | a directory copied by the two-argument `copy` into a directory puts every walked path at the same relative place below the target, and succeeds |
| TreeCopier.Included | sampleIntegrationProject/src/main/java/org/javen/integration/Reactor.java:482-483 | only a given predicate can let a path through, and a path the exclude predicate does not claim is copied whatever the include predicate says |
| TreeCopier.CopyWalk | sampleIntegrationProject/src/main/java/org/javen/integration/Reactor.java:479-496 | one `Files.copy` call per included walked path, and none for the others |
| TreeCopier.CopyPlan | sampleIntegrationProject/src/main/java/org/javen/integration/Reactor.java:466-505 | a missing origin copies nothing and succeeds; the result is false iff the origin is a file whose single copy throws; a file origin is copied once, to target + its name when the target is a directory and onto the target path itself otherwise (lines 470-475); a directory origin gives the calls of `CopyWalk` over its walk, with the target's directory-ness taken before the walk, and succeeds |
| TreeCopier.Copy | sampleIntegrationProject/src/main/java/org/javen/integration/Reactor.java:460-506 | the copy calls and result of `copy`; a failure files "copy : origin --> target" and nothing else changes the ledger |
| TreeCopier.CopyAll | sampleIntegrationProject/src/main/java/org/javen/integration/Reactor.java:173-175 | the two-argument `copy` is the four-argument one with `s -> true` and `s -> false` |
| TreeFinder.Find | sampleIntegrationProject/src/main/java/org/javen/integration/Reactor.java:184-203 | on a file origin, "find : on ...(called with a file, not a folder)" is filed and the result is empty; otherwise the ledger is unchanged and the result is, in walk order, exactly the walked paths whose final name matches; a missing origin or the root gives nothing |
| TreeDeleter.Remains | sampleIntegrationProject/src/main/java/org/javen/integration/Reactor.java:227-235 | what survives `deleteDirectory` keeps its name; a refused path survives; a file is gone iff its deletion is not refused |
| TreeDeleter.DeleteOrder | sampleIntegrationProject/src/main/java/org/javen/integration/Reactor.java:227-235 | the last deletion of `deleteDirectory` is the directory itself, and every deletion is below it |
| TreeDeleter.DeleteDirectory | sampleIntegrationProject/src/main/java/org/javen/integration/Reactor.java:227-235 | `deleteDirectory` makes the deletions of `DeleteOrder`, leaves what `Remains` says, and answers whether the node itself is gone |
| TreeDeleter.DeleteChildren | sampleIntegrationProject/src/main/java/org/javen/integration/Reactor.java:229-233 | the loop over the entries of a directory deletes each child in turn: the kept children and the deletions are those of `RemainsChildren` and `DeleteOrderChildren` |
| TreeDeleter.DeletedIffNothingLocked | sampleIntegrationProject/src/main/java/org/javen/integration/Reactor.java:227-235 | `deleteDirectory` answers true iff none of its deletions is refused |
| TreeDeleter.DeletesEveryWalkedPathOnce | sampleIntegrationProject/src/main/java/org/javen/integration/Reactor.java:227-235 | every walked path is deleted exactly once (equal multisets) |
| TreeDeleter.DeletesChildrenFirst | sampleIntegrationProject/src/main/java/org/javen/integration/Reactor.java:227-235 | no path is deleted before a path below it |
| TreeDeleter.NothingRefusedRemovesAll | sampleIntegrationProject/src/main/java/org/javen/integration/Reactor.java:227-235 | when nothing is refused, `deleteDirectory` removes everything |
| TreeDeleter.DeletePath | sampleIntegrationProject/src/main/java/org/javen/integration/Reactor.java:213-225 | `delete` answers true only for an existing path other than the working directory whose own deletion is not refused, and then the path is the last deletion; the working directory or a missing path leaves the tree as it was and answers false; on any other existing path the calls are `DeleteOrder`, the new tree keeps what `Remains` says, and the answer is whether nothing remains |
| TreeDeleter.Delete | sampleIntegrationProject/src/main/java/org/javen/integration/Reactor.java:213-225 | the working directory is refused outright and nothing changes; a missing path fails; otherwise the answer is true iff no deletion is refused, and then the path is gone |
| TreeDeleter.DeleteKeepsOthers | sampleIntegrationProject/src/main/java/org/javen/integration/Reactor.java:213-225 | `delete` leaves every path neither above nor below its target unchanged |
| TreeDeleter.ParentOfWorkingDirectoryIsDeleted | sampleIntegrationProject/src/main/java/org/javen/integration/Reactor.java:214-219 | the guard compares paths exactly: deleting a directory above the working directory removes the working directory |
| TreeDeleter.DeleteEach | sampleIntegrationProject/src/main/java/org/javen/integration/Reactor.java:246-250 | the `forEach` deletes the targets one after the other, each on the tree the previous one left (`DeleteAll`) |
| TreeDeleter.DeleteMatching | sampleIntegrationProject/src/main/java/org/javen/integration/Reactor.java:242-254 | `delete(path, matchCriteria)` calls `delete`, in walk order, on exactly the walked paths whose final name matches; a missing path or the root deletes nothing |
| TreeDeleter.DeleteAllKeepsOthers | sampleIntegrationProject/src/main/java/org/javen/integration/Reactor.java:242-254 | paths away from every match are untouched |
| TreeDeleter.DeleteAllRemovesTargets | sampleIntegrationProject/src/main/java/org/javen/integration/Reactor.java:242-254 | when nothing is refused, every target but the working directory is gone afterwards, and the tree stays valid |
| TreeDeleter.MatchingDeleteRemovesMatches | sampleIntegrationProject/src/main/java/org/javen/integration/Reactor.java:242-254 | when nothing is refused, every walked path whose name matches is gone, except the working directory |

## Left out

- Logging and console output are not modelled: the logger set-up, `outputSection`, `logInfo`/`logError`, the printing of argument lists, and the section banner of `printSummary`. The summary is only its "OK -> " and "KO -> " lines.
- The Maven `Invoker` and the `InvocationRequest` set-up (Java home, goal list) are foreign code. The invoker is an oracle from the argument list to its outcome.
- XML parsing is not modelled. A pom is an already parsed element tree, and an unreadable pom is `None`.
- `MvnProject.properties` is not modelled: the constructor never assigns it.
- `new MvnExecutor()` without a project is not modelled: `execute` would then throw a `NullPointerException`. Only `executor()` creates executors here.
- Not modelled: the preset executors `prepareCompoDoc`, `prepareCleanInstall`, `prepareCleanDeploy`, `prepareCopyDependencies`, `prepareJavadoc`, `prepareJavadocJar` and `prepareSourcesJar`. Each is `executor()` followed by fixed `userProperty`/`goals` calls that are modelled.
- Not modelled: the fixed-argument helpers `mvn.copyDependencies`, `mvn.javadocJar`, `mvn.javadoc` and `mvn.sourcesJar`. Each is one `mvn.run`.
- `mvn.project`, `createDirs`, `move` and `listOf` are not modelled. Each is a one-line wrapper: of the `MvnProject` constructor (line 371), of `java.io.File.mkdirs` (line 74), of `java.nio.file.Files.move` (line 147) and of `Arrays.asList` (line 545).
- SampleProjectIntegration.java is not part of this model. It only wires calls together.
- Paths are absolute. Relative spelling, `getAbsolutePath` normalisation and symbolic links are not modelled. The `user.dir` guard compares paths exactly.
- `isHidden` is a node flag for an existing path. For a missing path the model follows Unix, where a name starting with "." is hidden (`HiddenName`); the Windows file attribute is not modelled.
- TreeCopier.Copy: states the sequence of `Files.copy` calls and the result, not the tree those calls produce. `REPLACE_EXISTING` and directory-onto-directory semantics are not modelled. Whether each call throws is the `fails` input.
- TreeCopier.Copy: walks a snapshot of the tree taken before the first copy. The lazy `Files.walk` (line 478) lists a directory only when it reaches it, so with a target inside the origin the walk can visit entries that the copies at line 487 created; that case is not modelled.
- TreeCopier.Copy: does not model an `IOException` thrown by `Files.walk` itself, which would make `copy` return false. Walking the modelled tree cannot fail.
- Archive.Zip: does not model an `IOException` in the middle of writing the archive. Besides an unwritable target and a missing origin whose name is not hidden, that is the only other cause of "zip : origin --> target". The target file that `FileOutputStream` creates is not modelled either.
- Archive.ZipOutput.PutEntry: the 1024-byte chunked read loop is the copy of a file's whole content.
- TreeDeleter.DeleteMatching: deletes along a walk taken before the first deletion. The source's lazy `Files.walk` stream may instead fail when a directory is deleted while the walk is still inside it.
- TreeDeleter.DeletePath: `locked` stands for every reason the file system refuses to delete a path, apart from a non-empty directory. The root of the tree is always refused.
