/**
 * `zip` and `zipFile`: packing a file or directory tree into a zip archive.
 * An archive is the sequence of entries written to the `ZipOutputStream`,
 * each a name and either the bytes of a file or nothing (a directory).
 */
module Archive {
  import opened Wrappers
  import opened FileTree
  import opened Ledger

  datatype EntryData = DirectoryEntry | FileEntry(bytes: seq<byte>)
  datatype ZipEntry = ZipEntry(name: string, data: EntryData)

  predicate EndsWithSlash(s: string)
  {
    |s| > 0 && s[|s| - 1] == '/'
  }

  /** How many nodes of `n` are neither hidden nor inside a hidden directory. */
  function VisibleNodes(n: Node): nat
    decreases n
  {
    if n.hidden then 0 else 1 + (if n.Dir? then VisibleIn(n.children) else 0)
  }

  function VisibleIn(children: seq<Node>): nat
    decreases children
  {
    if children == [] then 0
    else VisibleIn(children[..|children| - 1]) + VisibleNodes(children[|children| - 1])
  }

  /**
   * The entries `zipFile(n, fileName, zipOut, level)` writes. A hidden node
   * writes nothing; a file writes itself under `fileName`; a directory below
   * the root writes "fileName/" and then its children under "fileName/";
   * the root directory (level 0) writes only its children, under their own
   * names.
   */
  function ZipEntries(n: Node, fileName: string, level: nat): seq<ZipEntry>
    decreases n
  {
    if n.hidden then []
    else if n.File? then [ZipEntry(fileName, FileEntry(n.content))]
    else if level != 0 then
      [ZipEntry(if EndsWithSlash(fileName) then fileName else fileName + "/", DirectoryEntry)]
      + ZipChildren(n.children, fileName + "/", level)
    else ZipChildren(n.children, "", level)
  }

  /**
   * The loop over `listFiles()`: child `i` (from 0) is written under
   * `prefix` + its name at level `level + i + 1`, because the loop
   * pre-increments `level` once per child.
   */
  function ZipChildren(children: seq<Node>, prefix: string, level: nat): seq<ZipEntry>
    decreases children
  {
    if children == [] then []
    else
      var last := children[|children| - 1];
      ZipChildren(children[..|children| - 1], prefix, level)
      + ZipEntries(last, prefix + last.name, level + |children|)
  }

  /**
   * One entry per node that is neither hidden nor inside a hidden directory,
   * except the root directory, which writes no entry of its own.
   */
  lemma {:induction false} ZipEntriesCount(n: Node, fileName: string, level: nat)
    ensures |ZipEntries(n, fileName, level)|
            == if level == 0 && n.Dir? && !n.hidden then VisibleNodes(n) - 1 else VisibleNodes(n)
    decreases n
  {
    if !n.hidden && n.Dir? {
      ZipChildrenCount(n.children, if level != 0 then fileName + "/" else "", level);
    }
  }

  /** The children of a directory write one entry per visible node below them. */
  lemma {:induction false} ZipChildrenCount(children: seq<Node>, prefix: string, level: nat)
    ensures |ZipChildren(children, prefix, level)| == VisibleIn(children)
    decreases children
  {
    if children != [] {
      var last := children[|children| - 1];
      ZipChildrenCount(children[..|children| - 1], prefix, level);
      ZipEntriesCount(last, prefix + last.name, level + |children|);
    }
  }

  /**
   * Below the root every entry of a node is named under the node's own path,
   * so a directory's "path/" entry comes before everything inside it.
   */
  lemma {:induction false} ZipEntriesUnder(n: Node, fileName: string, level: nat)
    requires level != 0
    ensures forall e :: e in ZipEntries(n, fileName, level) ==> StartsWith(e.name, fileName)
    ensures !n.hidden && n.Dir? && !EndsWithSlash(fileName) ==>
              ZipEntries(n, fileName, level)[0] == ZipEntry(fileName + "/", DirectoryEntry)
              && forall e :: e in ZipEntries(n, fileName, level)[1..] ==> StartsWith(e.name, fileName + "/")
    decreases n
  {
    if !n.hidden && n.Dir? {
      ZipChildrenUnder(n.children, fileName + "/", level);
      forall e | e in ZipEntries(n, fileName, level) ensures StartsWith(e.name, fileName) {
        if e.name == fileName || e.name == fileName + "/" {
          assert e.name[..|fileName|] == fileName;
        } else {
          assert e in ZipChildren(n.children, fileName + "/", level);
          assert e.name[..|fileName|] == (fileName + "/")[..|fileName|];
        }
      }
      if !EndsWithSlash(fileName) {
        assert ZipEntries(n, fileName, level)[1..] == ZipChildren(n.children, fileName + "/", level);
      }
    }
  }

  lemma {:induction false} ZipChildrenUnder(children: seq<Node>, prefix: string, level: nat)
    ensures forall e :: e in ZipChildren(children, prefix, level) ==> StartsWith(e.name, prefix)
    decreases children
  {
    if children != [] {
      var last := children[|children| - 1];
      ZipChildrenUnder(children[..|children| - 1], prefix, level);
      ZipEntriesUnder(last, prefix + last.name, level + |children|);
      forall e | e in ZipEntries(last, prefix + last.name, level + |children|)
        ensures StartsWith(e.name, prefix)
      {
        assert e.name[..|prefix|] == (prefix + last.name)[..|prefix|];
      }
    }
  }

  /** One more child of the loop. */
  lemma ZipChildrenStep(children: seq<Node>, prefix: string, level: nat, i: nat)
    requires i < |children|
    ensures ZipChildren(children[..i + 1], prefix, level)
         == ZipChildren(children[..i], prefix, level)
            + ZipEntries(children[i], prefix + children[i].name, level + i + 1)
  {
    assert children[..i + 1][..i] == children[..i];
    assert children[..i + 1][i] == children[i];
  }

  /** The archive `zip` writes for the tree `n`: its name is the root's `getName()` and its level 0. */
  function Archive(n: Node): seq<ZipEntry>
  {
    ZipEntries(n, n.name, 0)
  }

  /** The output stream of `zip`: the entries written so far. */
  class ZipOutput {
    var entries: seq<ZipEntry>

    constructor ()
      ensures entries == []
    {
      entries := [];
    }

    /** `putNextEntry`, the writes of the entry's bytes, and `closeEntry`. */
    method PutEntry(e: ZipEntry)
      modifies this
      ensures entries == old(entries) + [e]
    {
      entries := entries + [e];
    }
  }

  /**
   * `zipFile`: writes the entries of `n` to `zipOut`. The 1024-byte chunked
   * copy of a file's stream is a copy of its whole content.
   */
  method ZipFile(n: Node, fileName: string, zipOut: ZipOutput, level: nat)
    modifies zipOut
    ensures zipOut.entries == old(zipOut.entries) + ZipEntries(n, fileName, level)
    decreases n
  {
    if n.hidden {
      return;
    }
    if n.Dir? {
      ghost var before := zipOut.entries;
      ghost var head: seq<ZipEntry> := [];
      var name := fileName;
      if level != 0 {
        if EndsWithSlash(name) {
          zipOut.PutEntry(ZipEntry(name, DirectoryEntry));
          head := [ZipEntry(name, DirectoryEntry)];
        } else {
          zipOut.PutEntry(ZipEntry(name + "/", DirectoryEntry));
          head := [ZipEntry(name + "/", DirectoryEntry)];
        }
        name := name + "/";
      } else {
        name := "";
      }
      assert ZipEntries(n, fileName, level) == head + ZipChildren(n.children, name, level);
      ZipEach(n.children, name, zipOut, level);
      assert zipOut.entries == (before + head) + ZipChildren(n.children, name, level);
      return;
    }
    zipOut.PutEntry(ZipEntry(fileName, FileEntry(n.content)));
  }

  /** The loop of `zipFile` over the children of a directory, `level` being pre-incremented per child. */
  method ZipEach(children: seq<Node>, name: string, zipOut: ZipOutput, level: nat)
    modifies zipOut
    ensures zipOut.entries == old(zipOut.entries) + ZipChildren(children, name, level)
    decreases children
  {
    ghost var before := zipOut.entries;
    var lvl := level;
    assert children[..0] == [];
    for i := 0 to |children|
      invariant lvl == level + i
      invariant zipOut.entries == before + ZipChildren(children[..i], name, level)
    {
      var child := children[i];
      lvl := lvl + 1;
      ghost var front := ZipChildren(children[..i], name, level);
      ZipFile(child, name + child.name, zipOut, lvl);
      ghost var own := ZipEntries(child, name + child.name, level + i + 1);
      ZipChildrenStep(children, name, level, i);
      assert zipOut.entries == (before + front) + own;
    }
    assert children[..|children|] == children;
  }

  /**
   * How `File.isHidden()` answers on Unix for a path that does not exist:
   * by its name alone, hidden when the name starts with ".".
   */
  predicate HiddenName(p: Path)
  {
    p != [] && LastName(p) != [] && LastName(p)[0] == '.'
  }

  /**
   * `zip(origin, target)`: archives the tree at `origin` of `fs`. When the
   * target cannot be opened for writing, or `origin` does not exist and is
   * not hidden (opening it for reading throws), the ledger gets
   * "zip : origin --> target" and the result is false. A missing origin whose
   * name is hidden is skipped by `zipFile` at once: the archive is empty.
   */
  method Zip(fs: Node, origin: Path, target: string, targetWritable: bool, ledger: OutcomeLedger)
    returns (ok: bool, archive: seq<ZipEntry>)
    modifies ledger
    ensures ok <==> targetWritable && (Lookup(fs, origin).Some? || HiddenName(origin))
    ensures ok && Lookup(fs, origin).None? ==> archive == [] && ledger.Contents() == old(ledger.Contents())
    ensures ok && Lookup(fs, origin).Some? ==> archive == Archive(Lookup(fs, origin).value) && ledger.Contents() == old(ledger.Contents())
    ensures !ok ==> ledger.succeeded == old(ledger.succeeded)
                    && ledger.failed == old(ledger.failed) + ["zip : " + PathString(origin) + " --> " + target]
  {
    var node := Lookup(fs, origin);
    if !targetWritable || (node.None? && !HiddenName(origin)) {
      ledger.RecordFailure("zip : " + PathString(origin) + " --> " + target);
      return false, [];
    }
    if node.None? {
      return true, [];
    }
    var zipOut := new ZipOutput();
    ZipFile(node.value, node.value.name, zipOut, 0);
    return true, zipOut.entries;
  }

  /** The level passed down only matters as "root or not": the pre-increment in the loop is harmless. */
  lemma {:induction false} ZipLevelIrrelevant(n: Node, fileName: string, level: nat, level': nat)
    requires level != 0 && level' != 0
    ensures ZipEntries(n, fileName, level) == ZipEntries(n, fileName, level')
    decreases n
  {
    if !n.hidden && n.Dir? {
      ZipChildrenLevelIrrelevant(n.children, fileName + "/", level, level');
    }
  }

  lemma {:induction false} ZipChildrenLevelIrrelevant(children: seq<Node>, prefix: string, level: nat, level': nat)
    ensures ZipChildren(children, prefix, level) == ZipChildren(children, prefix, level')
    decreases children
  {
    if children != [] {
      var last := children[|children| - 1];
      ZipChildrenLevelIrrelevant(children[..|children| - 1], prefix, level, level');
      ZipLevelIrrelevant(last, prefix + last.name, level + |children|, level' + |children|);
    }
  }

  lemma {:induction false} ZipChildrenContains(children: seq<Node>, prefix: string, level: nat, i: nat, e: ZipEntry)
    requires i < |children|
    requires e in ZipEntries(children[i], prefix + children[i].name, level + i + 1)
    ensures e in ZipChildren(children, prefix, level)
    decreases children
  {
    if i < |children| - 1 {
      var front := children[..|children| - 1];
      assert front[i] == children[i];
      ZipChildrenContains(front, prefix, level, i, e);
    }
  }

  lemma {:induction false} ZipChildrenMember(children: seq<Node>, prefix: string, level: nat, e: ZipEntry)
    returns (i: nat)
    requires e in ZipChildren(children, prefix, level)
    ensures i < |children| && e in ZipEntries(children[i], prefix + children[i].name, level + i + 1)
    decreases children
  {
    var last := children[|children| - 1];
    if e in ZipEntries(last, prefix + last.name, level + |children|) {
      i := |children| - 1;
    } else {
      var front := children[..|children| - 1];
      i := ZipChildrenMember(front, prefix, level, e);
      assert front[i] == children[i];
    }
  }

  /** No node on the way from `n` down to the node at `rel`, both included, is hidden. */
  predicate VisibleAlong(n: Node, rel: Path)
    decreases rel
  {
    !n.hidden
    && (rel != [] ==>
          n.Dir? && Child(n.children, rel[0]).Some?
          && VisibleAlong(Child(n.children, rel[0]).value, rel[1..]))
  }

  /** The entry name of the node at `rel` (non-empty) below the archived root: its names joined by "/". */
  function EntryName(rel: Path): string
    requires rel != []
  {
    rel[0] + Joined(rel[1..])
  }

  /** Appending a path to a name: the first component goes behind a "/", then the rest. */
  lemma JoinedStep(fileName: string, rel: Path)
    requires rel != []
    ensures fileName + Joined(rel) == (fileName + "/" + rel[0]) + Joined(rel[1..])
  {
    assert Joined(rel) == "/" + rel[0] + Joined(rel[1..]);
  }

  /** Below the root, every visible file at `rel` is archived under the node's name + "/" + the names of `rel`. */
  lemma {:induction false} ZipCompleteBelow(n: Node, fileName: string, level: nat, rel: Path)
    requires level != 0
    requires Lookup(n, rel).Some? && Lookup(n, rel).value.File? && VisibleAlong(n, rel)
    ensures ZipEntry(fileName + Joined(rel), FileEntry(Lookup(n, rel).value.content)) in ZipEntries(n, fileName, level)
    decreases rel
  {
    if rel == [] {
      assert fileName + Joined(rel) == fileName;
    } else {
      var c := Child(n.children, rel[0]).value;
      var i := ChildIndex(n.children, rel[0]);
      var f' := fileName + "/" + c.name;
      ZipCompleteBelow(c, f', level + i + 1, rel[1..]);
      JoinedStep(fileName, rel);
      ZipChildrenContains(n.children, fileName + "/", level, i,
                          ZipEntry(f' + Joined(rel[1..]), FileEntry(Lookup(n, rel).value.content)));
    }
  }

  /**
   * Extracting the archive gives back every file: each file of the tree that
   * is not hidden and not inside a hidden directory is an entry, under its
   * path relative to the root, with its bytes unchanged.
   */
  lemma {:induction false} ArchiveComplete(root: Node, rel: Path)
    requires Lookup(root, rel).Some? && Lookup(root, rel).value.File? && VisibleAlong(root, rel)
    ensures ZipEntry(if rel == [] then root.name else EntryName(rel), FileEntry(Lookup(root, rel).value.content))
            in Archive(root)
  {
    if rel != [] {
      var c := Child(root.children, rel[0]).value;
      var i := ChildIndex(root.children, rel[0]);
      ZipCompleteBelow(c, c.name, i + 1, rel[1..]);
      TopLevelContains(root.children, i, ZipEntry(EntryName(rel), FileEntry(Lookup(root, rel).value.content)));
    }
  }

  /** Below the root, every file entry comes from a visible file of the (valid) tree, with its bytes. */
  lemma {:induction false} ZipSoundBelow(n: Node, fileName: string, level: nat, e: ZipEntry) returns (rel: Path)
    requires Valid(n) && level != 0
    requires e in ZipEntries(n, fileName, level) && e.data.FileEntry?
    ensures Lookup(n, rel).Some? && Lookup(n, rel).value.File? && VisibleAlong(n, rel)
    ensures Lookup(n, rel).value.content == e.data.bytes && e.name == fileName + Joined(rel)
    decreases n
  {
    if n.File? {
      rel := [];
      assert e.name == fileName + Joined(rel);
    } else {
      assert !n.hidden;
      var head := ZipEntry(if EndsWithSlash(fileName) then fileName else fileName + "/", DirectoryEntry);
      assert ZipEntries(n, fileName, level) == [head] + ZipChildren(n.children, fileName + "/", level);
      assert e != head;
      assert e in ZipChildren(n.children, fileName + "/", level);
      var i := ZipChildrenMember(n.children, fileName + "/", level, e);
      var c := n.children[i];
      assert Valid(c);
      var rest := ZipSoundBelow(c, fileName + "/" + c.name, level + i + 1, e);
      rel := [c.name] + rest;
      SoundThroughChild(n, fileName, i, rest, e);
    }
  }

  /** A file entry found below the `i`-th child is found below `n`, one name further down. */
  lemma SoundThroughChild(n: Node, fileName: string, i: nat, rest: Path, e: ZipEntry)
    requires Valid(n) && n.Dir? && !n.hidden && i < |n.children| && e.data.FileEntry?
    requires var c := n.children[i];
      Lookup(c, rest).Some? && Lookup(c, rest).value.File? && VisibleAlong(c, rest)
      && Lookup(c, rest).value.content == e.data.bytes && e.name == fileName + "/" + c.name + Joined(rest)
    ensures var rel := [n.children[i].name] + rest;
      Lookup(n, rel).Some? && Lookup(n, rel).value.File? && VisibleAlong(n, rel)
      && Lookup(n, rel).value.content == e.data.bytes && e.name == fileName + Joined(rel)
  {
    var rel := [n.children[i].name] + rest;
    VisibleThroughChild(n, i, rest);
    JoinedStep(fileName, rel);
    assert rel[0] == n.children[i].name && rel[1..] == rest;
  }

  /** A path through the `i`-th child of a visible directory reaches what the path below that child reaches. */
  lemma VisibleThroughChild(n: Node, i: nat, rest: Path)
    requires Valid(n) && n.Dir? && !n.hidden && i < |n.children|
    requires VisibleAlong(n.children[i], rest)
    ensures var rel := [n.children[i].name] + rest;
      Lookup(n, rel) == Lookup(n.children[i], rest) && VisibleAlong(n, rel)
  {
    var rel := [n.children[i].name] + rest;
    ChildOfUnique(n.children, i);
    assert rel[0] == n.children[i].name && rel[1..] == rest;
  }

  /** An entry below the archived root comes from one of its children, named by the child's own name. */
  lemma {:induction false} TopLevelMember(children: seq<Node>, e: ZipEntry) returns (i: nat)
    requires e in ZipChildren(children, "", 0)
    ensures i < |children| && e in ZipEntries(children[i], children[i].name, i + 1)
  {
    i := ZipChildrenMember(children, "", 0, e);
    var name := children[i].name;
    assert "" + name == name;
    EntryRenamed(e, children[i], "" + name, name, i + 1);
  }

  /** An entry of one child of the archived root, named by the child's own name, is in the archive. */
  lemma {:induction false} TopLevelContains(children: seq<Node>, i: nat, e: ZipEntry)
    requires i < |children| && e in ZipEntries(children[i], children[i].name, i + 1)
    ensures e in ZipChildren(children, "", 0)
  {
    var name := children[i].name;
    assert "" + name == name;
    EntryRenamed(e, children[i], name, "" + name, i + 1);
    ZipChildrenContains(children, "", 0, i, e);
  }

  /** Membership depends on the entry name only through its value. */
  lemma {:induction false} EntryRenamed(e: ZipEntry, n: Node, fileName: string, alias: string, level: nat)
    requires fileName == alias && e in ZipEntries(n, fileName, level)
    ensures e in ZipEntries(n, alias, level)
  {
  }

  /** Every file entry of the archive of a valid tree is a visible file of it, under its relative path. */
  lemma {:induction false} ArchiveSound(root: Node, e: ZipEntry) returns (rel: Path)
    requires Valid(root)
    requires e in Archive(root) && e.data.FileEntry?
    ensures Lookup(root, rel).Some? && Lookup(root, rel).value.File? && VisibleAlong(root, rel)
    ensures Lookup(root, rel).value.content == e.data.bytes
    ensures e.name == if rel == [] then root.name else EntryName(rel)
  {
    if root.File? {
      rel := [];
    } else {
      var i := TopLevelMember(root.children, e);
      var c := root.children[i];
      assert Valid(c);
      var rest := ZipSoundBelow(c, c.name, i + 1, e);
      rel := [c.name] + rest;
      VisibleThroughChild(root, i, rest);
      assert rel[1..] == rest;
    }
  }

  /** A folder `a` holding `b.txt` ("hi") and the hidden `.hidden` archives to the single entry `b.txt`. */
  lemma HiddenFileIsLeftOut()
    ensures Archive(Dir("a", false, [File("b.txt", false, [104, 105]), File(".hidden", true, [120])]))
         == [ZipEntry("b.txt", FileEntry([104, 105]))]
  {
    var b := File("b.txt", false, [104, 105]);
    var children := [b, File(".hidden", true, [120])];
    assert children[..1] == [b];
    assert [b][..0] == [];
    assert "" + "b.txt" == "b.txt";
    assert ZipChildren([b], "", 0) == ZipEntries(b, "b.txt", 1);
    assert ZipChildren(children, "", 0) == ZipChildren([b], "", 0) + [];
  }
}
