/**
 * Reading the identity of a Maven project out of its pom: `extractVersion`,
 * `extractArtifactId`, `mvn.projectversion`, `mvn.projectArtifactId` and
 * `mvn.mvnProjectProperties`.
 *
 * XML parsing itself is not modelled: a parsed pom is an `Element` tree
 * (tag name, text content, child nodes in document order) and a pom that
 * cannot be read or parsed is `None`.
 */
module Pom {
  import opened Wrappers

  /**
   * A node of the parsed pom: its node name, its text content
   * (`getTextContent`, untrimmed) and its child nodes, which are all of
   * `getChildNodes()`: text and comment nodes are nodes too, named "#text"
   * and "#comment", with no children.
   */
  datatype Element = Element(name: string, text: string, children: seq<Element>)

  /** `String.trim` removes every character up to and including U+0020 from both ends. */
  predicate IsTrimmable(c: char)
  {
    c <= ' '
  }

  function TrimStart(s: string): (r: string)
    ensures |r| <= |s| && r == s[|s| - |r|..]
    ensures r == [] || !IsTrimmable(r[0])
    ensures forall k :: 0 <= k < |s| - |r| ==> IsTrimmable(s[k])
  {
    if s != [] && IsTrimmable(s[0]) then TrimStart(s[1..]) else s
  }

  function TrimEnd(s: string): (r: string)
    ensures |r| <= |s| && r == s[..|r|]
    ensures r == [] || !IsTrimmable(r[|r| - 1])
    ensures forall k :: |r| <= k < |s| ==> IsTrimmable(s[k])
  {
    if s != [] && IsTrimmable(s[|s| - 1]) then TrimEnd(s[..|s| - 1]) else s
  }

  /** How many trimmable characters `s` starts with. */
  function Lead(s: string): (n: nat)
    ensures n <= |s|
  {
    |s| - |TrimStart(s)|
  }

  /** `String.trim`: the longest middle part of `s` that neither starts nor ends with a trimmable character. */
  function Trim(s: string): (r: string)
    ensures r == [] || (!IsTrimmable(r[0]) && !IsTrimmable(r[|r| - 1]))
    ensures Lead(s) + |r| <= |s| && r == s[Lead(s)..Lead(s) + |r|]
    ensures forall k :: 0 <= k < Lead(s) ==> IsTrimmable(s[k])
    ensures forall k :: Lead(s) + |r| <= k < |s| ==> IsTrimmable(s[k])
  {
    TrimEnd(TrimStart(s))
  }

  /** Trimming twice changes nothing. */
  lemma TrimIdempotent(s: string)
    ensures Trim(Trim(s)) == Trim(s)
  {
    var t := Trim(s);
    assert TrimStart(t) == t;
    assert TrimEnd(t) == t;
  }

  /** Child `k` is named `tag` and no later child is. */
  predicate IsLastMatch(children: seq<Element>, tag: string, k: int)
  {
    0 <= k < |children| && children[k].name == tag
    && forall j :: k < j < |children| ==> children[j].name != tag
  }

  /**
   * The trimmed text of the LAST child named `tag`, or "" when no child has
   * that name: the value left by a forward scan that overwrites on every match.
   */
  function LastText(children: seq<Element>, tag: string): (r: string)
    ensures (forall k :: 0 <= k < |children| ==> children[k].name != tag) ==> r == ""
  {
    if children == [] then ""
    else if children[|children| - 1].name == tag then Trim(children[|children| - 1].text)
    else
      var front := children[..|children| - 1];
      assert forall k :: 0 <= k < |front| ==> front[k] == children[k];
      LastText(front, tag)
  }

  /** The last child named `tag` decides the scanned value: later children with other names do not matter. */
  lemma {:induction false} LastMatchWins(children: seq<Element>, tag: string, k: int)
    requires IsLastMatch(children, tag, k)
    ensures LastText(children, tag) == Trim(children[k].text)
    decreases |children|
  {
    if k < |children| - 1 {
      var front := children[..|children| - 1];
      assert front[k] == children[k];
      assert IsLastMatch(front, tag, k);
      LastMatchWins(front, tag, k);
    }
  }

  /** One more step of the scan: the prefix of length `i + 1` differs from that of length `i` only by child `i`. */
  lemma LastTextStep(children: seq<Element>, tag: string, i: nat)
    requires i < |children|
    ensures LastText(children[..i + 1], tag)
         == if children[i].name == tag then Trim(children[i].text) else LastText(children[..i], tag)
  {
    assert children[..i + 1][..i] == children[..i];
  }

  /** `getElementsByTagName(tag).item(0)` below some nodes: the first element named `tag`, in document order. */
  function FirstNamed(nodes: seq<Element>, tag: string): (r: Option<Element>)
    ensures r.Some? ==> r.value.name == tag
    ensures (exists k :: 0 <= k < |nodes| && nodes[k].name == tag) ==> r.Some?
    decreases nodes
  {
    if nodes == [] then None
    else if nodes[0].name == tag then Some(nodes[0])
    else match FirstNamedBelow(nodes[0], tag)
      case Some(e) => Some(e)
      case None => FirstNamed(nodes[1..], tag)
  }

  function FirstNamedBelow(e: Element, tag: string): (r: Option<Element>)
    ensures r.Some? ==> r.value.name == tag
    decreases e
  {
    FirstNamed(e.children, tag)
  }

  /** Every node of `nodes` and below, in document order (each node before its children, then its later siblings). */
  function Preorder(nodes: seq<Element>): (r: seq<Element>)
    ensures nodes != [] ==> r != [] && r[0] == nodes[0]
    decreases nodes
  {
    if nodes == [] then [] else [nodes[0]] + PreorderBelow(nodes[0]) + Preorder(nodes[1..])
  }

  function PreorderBelow(e: Element): seq<Element>
    decreases e
  {
    Preorder(e.children)
  }

  /** Position `k` of `s` is named `tag` and no earlier position is. */
  predicate IsFirstNamed(s: seq<Element>, tag: string, k: int)
  {
    0 <= k < |s| && s[k].name == tag && forall j :: 0 <= j < k ==> s[j].name != tag
  }

  /** A linear search for the first element named `tag`. */
  function FirstIn(s: seq<Element>, tag: string): (r: Option<Element>)
    ensures r.None? <==> forall k :: 0 <= k < |s| ==> s[k].name != tag
    ensures r.Some? ==> exists k :: IsFirstNamed(s, tag, k) && s[k] == r.value
  {
    if s == [] then None
    else if s[0].name == tag then
      assert IsFirstNamed(s, tag, 0);
      Some(s[0])
    else
      var r := FirstIn(s[1..], tag);
      assert r.Some? ==> exists k :: IsFirstNamed(s, tag, k) && s[k] == r.value by {
        if r.Some? {
          var k :| IsFirstNamed(s[1..], tag, k) && s[1..][k] == r.value;
          assert IsFirstNamed(s, tag, k + 1);
        }
      }
      assert r.None? ==> forall k :: 0 <= k < |s| ==> s[k].name != tag by {
        if r.None? {
          forall k | 0 <= k < |s| ensures s[k].name != tag {
            if k > 0 { assert s[k] == s[1..][k - 1]; }
          }
        }
      }
      r
  }

  lemma {:induction false} FirstInConcat(a: seq<Element>, b: seq<Element>, tag: string)
    ensures FirstIn(a + b, tag) == if FirstIn(a, tag).Some? then FirstIn(a, tag) else FirstIn(b, tag)
    decreases a
  {
    if a != [] {
      assert (a + b)[0] == a[0];
      assert (a + b)[1..] == a[1..] + b;
      FirstInConcat(a[1..], b, tag);
    } else {
      assert a + b == b;
    }
  }

  /**
   * `getElementsByTagName(tag).item(0)` is the first element named `tag` in
   * document order: `FirstNamed` is a linear search of the pre-order listing.
   */
  lemma {:induction false} FirstNamedIsFirstInDocumentOrder(nodes: seq<Element>, tag: string)
    ensures FirstNamed(nodes, tag) == FirstIn(Preorder(nodes), tag)
    decreases nodes
  {
    if nodes != [] {
      var head, rest := nodes[0], nodes[1..];
      var below := PreorderBelow(head);
      assert Preorder(nodes) == [head] + (below + Preorder(rest));
      FirstNamedIsFirstInDocumentOrder(head.children, tag);
      FirstNamedIsFirstInDocumentOrder(rest, tag);
      FirstInConcat(below, Preorder(rest), tag);
      FirstInConcat([head], below + Preorder(rest), tag);
    }
  }

  /**
   * The parent fallback of `extractVersion`: the trimmed text of the first
   * `version` element inside `parent`; `None` where Java would throw a
   * NullPointerException (no parent node, or no version inside it).
   */
  function ParentVersion(parent: Option<Element>): Option<string>
  {
    match parent
    case None => None
    case Some(p) =>
      match FirstNamedBelow(p, "version")
      case None => None
      case Some(v) => Some(Trim(v.text))
  }

  /**
   * `extractVersion` on a parsed pom. The local `version` is a Java string
   * reference, modelled as an option; it starts as `Some("")`, so the parent
   * fallback (guarded by `version == null`) never fires and the result is
   * always the last direct `version` child, or "".
   */
  method ExtractVersion(doc: Element) returns (version: Option<string>)
    ensures version == Some(LastText(doc.children, "version"))
  {
    var parent: Option<Element> := None;
    var v: Option<string> := Some("");
    var i := 0;
    while i < |doc.children|
      invariant 0 <= i <= |doc.children|
      invariant v == Some(LastText(doc.children[..i], "version"))
    {
      var item := doc.children[i];
      LastTextStep(doc.children, "version", i);
      if item.name == "version" {
        v := Some(Trim(item.text));
      }
      if item.name == "parent" {
        parent := Some(item);
      }
      i := i + 1;
    }
    assert doc.children[..i] == doc.children;
    if v.None? && parent.Some? {
      v := ParentVersion(parent);
    }
    version := v;
  }

  /**
   * An indented pom: the first child node of `<properties>` is the
   * whitespace text node before the first property, so `mvnProjectProperties`
   * yields the single entry "#text" -> "".
   */
  lemma IndentedPropertiesYieldText()
    ensures var space := Element("#text", "\n", []);
            var props := Element("properties", "\n11\n", [space, Element("java.version", "11", []), space]);
            var found := FirstNamed([Element("project", "", [space, props, space])], "properties");
            found.Some? && found.value.children != []
            && found.value.children[0].name == "#text" && Trim(found.value.children[0].text) == ""
  {
    var space := Element("#text", "\n", []);
    var props := Element("properties", "\n11\n", [space, Element("java.version", "11", []), space]);
    var children := [space, props, space];
    assert FirstNamedBelow(space, "properties") == None;
    assert children[1..][0] == props;
    assert FirstNamed(children[1..], "properties") == Some(props);
    assert FirstNamed(children, "properties") == Some(props);
    assert "\n"[1..] == "";
    assert TrimStart("\n") == "";
  }

  /** A pom whose only version sits inside `parent` has version "": the parent fallback cannot fire. */
  lemma ParentVersionIsIgnored(parentVersion: string)
    ensures LastText([Element("parent", "", [Element("version", parentVersion, [])])], "version") == ""
  {
  }

  /** `<version>2.0</version>` directly under the root gives "2.0", whatever whitespace surrounds it. */
  lemma DirectVersionIsRead()
    ensures LastText([Element("version", " 2.0\n", [])], "version") == "2.0"
  {
    var padded := " 2.0\n";
    assert padded[0] == ' ' && padded[1..] == "2.0\n";
    assert TrimStart("2.0\n") == "2.0\n";
    assert TrimStart(padded) == "2.0\n";
    var lined := "2.0\n";
    assert lined[3] == '\n' && lined[..3] == "2.0";
    assert TrimEnd("2.0") == "2.0";
    assert TrimEnd(lined) == "2.0";
    assert Trim(padded) == "2.0";
  }

  /** `extractArtifactId` on a parsed pom: the last direct `artifactId` child, or "". */
  method ExtractArtifactId(doc: Element) returns (artifactId: string)
    ensures artifactId == LastText(doc.children, "artifactId")
  {
    artifactId := "";
    var i := 0;
    while i < |doc.children|
      invariant 0 <= i <= |doc.children|
      invariant artifactId == LastText(doc.children[..i], "artifactId")
    {
      var item := doc.children[i];
      LastTextStep(doc.children, "artifactId", i);
      if item.name == "artifactId" {
        artifactId := Trim(item.text);
      }
      i := i + 1;
    }
    assert doc.children[..i] == doc.children;
  }

  /**
   * `mvn.projectversion`: the version, or "" when the pom cannot be parsed
   * (the exception is logged and swallowed).
   */
  method ProjectVersion(pom: Option<Element>) returns (version: string)
    ensures pom.None? ==> version == ""
    ensures pom.Some? ==> version == LastText(pom.value.children, "version")
  {
    version := "";
    if pom.Some? {
      var v := ExtractVersion(pom.value);
      if v.Some? {
        version := v.value;
      }
    }
  }

  /** `mvn.projectArtifactId`: the artifact id, or "" when the pom cannot be parsed. */
  method ProjectArtifactId(pom: Option<Element>) returns (artifactId: string)
    ensures pom.None? ==> artifactId == ""
    ensures pom.Some? ==> artifactId == LastText(pom.value.children, "artifactId")
  {
    artifactId := "";
    if pom.Some? {
      artifactId := ExtractArtifactId(pom.value);
    }
  }

  /**
   * `mvn.mvnProjectProperties`: the loop runs once per child node of the
   * first `properties` element but always reads `item(0)`, so the map holds
   * at most the first child. No pom, or no `properties` element (a
   * NullPointerException, swallowed), gives the empty map.
   */
  method ProjectProperties(pom: Option<Element>) returns (properties: map<string, string>)
    ensures |properties| <= 1
    ensures properties == map[] <==>
              pom.None? || FirstNamed([pom.value], "properties").None?
              || FirstNamed([pom.value], "properties").value.children == []
    ensures pom.Some? && FirstNamed([pom.value], "properties").Some?
            && FirstNamed([pom.value], "properties").value.children != []
            ==> var first := FirstNamed([pom.value], "properties").value.children[0];
                properties == map[first.name := Trim(first.text)]
  {
    properties := map[];
    if pom.None? {
      return;
    }
    var found := FirstNamed([pom.value], "properties");
    if found.None? {
      return;
    }
    var items := found.value.children;
    var i := 0;
    while i < |items|
      invariant 0 <= i <= |items|
      invariant i == 0 ==> properties == map[]
      invariant i > 0 ==> properties == map[items[0].name := Trim(items[0].text)]
    {
      var item := items[0];
      properties := properties[item.name := Trim(item.text)];
      i := i + 1;
    }
  }
}
