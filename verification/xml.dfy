/** The parsed XML document as an immutable tree, together with the two node
    selections the client uses: the XPath steps `//parent/child` and DOM's
    `Element.getElementsByTagName`, both in document order. */
module Xml {
  import opened Wrappers
  import opened Sequences

  /** An element (tag name, attribute map, children) or a text node. Text
      nodes have no attributes, which DOM reports as a null attribute map. */
  datatype Node =
    | Element(tag: string, attrs: map<string, string>, children: seq<Node>)
    | TextNode(content: string)

  /** A two-step XPath location path `//parent/child`. */
  datatype ChildPath = ChildPath(parent: string, child: string)

  predicate IsElementNamed(n: Node, tag: string) {
    n.Element? && n.tag == tag
  }

  /** DOM `getAttributes()`: the attribute map of an element, absent for text. */
  function Attributes(n: Node): (r: Option<map<string, string>>)
    ensures r.Some? <==> n.Element?
  {
    match n
    case Element(_, attrs, _) => Some(attrs)
    case TextNode(_) => None
  }

  /** DOM `Element.getAttribute(name)`: the empty string when absent. */
  function AttributeOrEmpty(n: Node, name: string): (r: string)
    requires n.Element?
    ensures name in n.attrs ==> r == n.attrs[name]
    ensures name !in n.attrs ==> r == ""
  {
    if name in n.attrs then n.attrs[name] else ""
  }

  /** Every node strictly below `n`, in document (pre-)order. */
  function Descendants(n: Node): seq<Node>
    decreases n, 1
  {
    match n
    case Element(_, _, children) => DescendantsOf(children)
    case TextNode(_) => []
  }

  function DescendantsOf(nodes: seq<Node>): seq<Node>
    decreases nodes, 0
  {
    if |nodes| == 0 then []
    else [nodes[0]] + Descendants(nodes[0]) + DescendantsOf(nodes[1..])
  }

  /** The nodes `//path.parent/path.child` selects in the document whose root
      element is `n`: every element named `path.child` whose parent element
      is named `path.parent`, at any depth below the root, in document order.
      The root itself is never selected, because its parent is the document. */
  function Select(path: ChildPath, n: Node): seq<Node>
    decreases n, 1
  {
    match n
    case Element(tag, _, children) => SelectAmong(path, tag, children)
    case TextNode(_) => []
  }

  /** `Select` over the children `nodes` of an element named `parentTag`. */
  function SelectAmong(path: ChildPath, parentTag: string, nodes: seq<Node>): seq<Node>
    decreases nodes, 0
  {
    if |nodes| == 0 then []
    else
      (if parentTag == path.parent && IsElementNamed(nodes[0], path.child) then [nodes[0]] else [])
      + Select(path, nodes[0])
      + SelectAmong(path, parentTag, nodes[1..])
  }

  /** A node followed by all its descendants, in document order. */
  function Subtree(n: Node): seq<Node> {
    [n] + Descendants(n)
  }

  /** The elements of `nodes` named `tag`, in their original order. */
  function ElementsNamed(nodes: seq<Node>, tag: string): (r: seq<Node>)
    ensures IsSubsequence(r, nodes)
    ensures forall i :: 0 <= i < |r| ==> IsElementNamed(r[i], tag)
    ensures forall x :: x in nodes && IsElementNamed(x, tag) ==> x in r
  {
    if |nodes| == 0 then []
    else if IsElementNamed(nodes[0], tag) then [nodes[0]] + ElementsNamed(nodes[1..], tag)
    else ElementsNamed(nodes[1..], tag)
  }

  /** DOM `Element.getElementsByTagName(tag)`: the descendant elements of
      `n` named `tag`, in document order (the element itself excluded). */
  function ElementsByTagName(n: Node, tag: string): seq<Node> {
    ElementsNamed(Descendants(n), tag)
  }

  /** Position `i` of `Descendants(n)` holds the first element named `tag`. */
  predicate IsFirstNamed(n: Node, tag: string, i: nat) {
    i < |Descendants(n)| && IsElementNamed(Descendants(n)[i], tag)
    && forall j :: 0 <= j < i ==> !IsElementNamed(Descendants(n)[j], tag)
  }

  /** `getElementsByTagName(tag).item(0)`: the first descendant element
      named `tag` in document order, or absent (DOM's null). */
  function FirstByTagName(n: Node, tag: string): (r: Option<Node>)
    ensures r.None? <==> forall j :: 0 <= j < |Descendants(n)| ==> !IsElementNamed(Descendants(n)[j], tag)
    ensures r.Some? ==> IsElementNamed(r.value, tag)
    ensures r.Some? ==>
      exists i :: 0 <= i < |Descendants(n)| && Descendants(n)[i] == r.value
        && forall j :: 0 <= j < i ==> !IsElementNamed(Descendants(n)[j], tag)
  {
    var matches := ElementsByTagName(n, tag);
    assert matches == ElementsNamed(Descendants(n), tag);
    FirstNamedIsHead(Descendants(n), tag);
    if |matches| > 0 then Some(matches[0]) else None
  }

  /** The head of `ElementsNamed` is the element at the first matching index. */
  lemma {:induction false} FirstNamedIsHead(nodes: seq<Node>, tag: string)
    ensures |ElementsNamed(nodes, tag)| == 0 <==> forall j :: 0 <= j < |nodes| ==> !IsElementNamed(nodes[j], tag)
    ensures |ElementsNamed(nodes, tag)| > 0 ==>
      exists i :: 0 <= i < |nodes| && nodes[i] == ElementsNamed(nodes, tag)[0]
        && forall j :: 0 <= j < i ==> !IsElementNamed(nodes[j], tag)
  {
    if |nodes| > 0 && !IsElementNamed(nodes[0], tag) {
      FirstNamedIsHead(nodes[1..], tag);
      if |ElementsNamed(nodes, tag)| > 0 {
        var i :| 0 <= i < |nodes[1..]| && nodes[1..][i] == ElementsNamed(nodes[1..], tag)[0]
          && forall j :: 0 <= j < i ==> !IsElementNamed(nodes[1..][j], tag);
        assert nodes[i + 1] == ElementsNamed(nodes, tag)[0];
        forall j | 0 <= j < i + 1
          ensures !IsElementNamed(nodes[j], tag)
        {
          if j > 0 {
            assert nodes[j] == nodes[1..][j - 1];
          }
        }
      } else {
        forall j | 0 <= j < |nodes|
          ensures !IsElementNamed(nodes[j], tag)
        {
          if j > 0 {
            assert nodes[j] == nodes[1..][j - 1];
          }
        }
      }
    } else if |nodes| > 0 {
      assert nodes[0] == ElementsNamed(nodes, tag)[0];
    }
  }

  /** Everything `//parent/child` selects is an element named `child`. */
  lemma {:induction false} SelectYieldsChildTag(path: ChildPath, n: Node)
    ensures forall i :: 0 <= i < |Select(path, n)| ==> IsElementNamed(Select(path, n)[i], path.child)
    decreases n, 1
  {
    match n
    case Element(tag, _, children) => SelectAmongYieldsChildTag(path, tag, children);
    case TextNode(_) =>
  }

  lemma {:induction false} SelectAmongYieldsChildTag(path: ChildPath, parentTag: string, nodes: seq<Node>)
    ensures forall i :: 0 <= i < |SelectAmong(path, parentTag, nodes)| ==>
      IsElementNamed(SelectAmong(path, parentTag, nodes)[i], path.child)
    decreases nodes, 0
  {
    if |nodes| > 0 {
      SelectYieldsChildTag(path, nodes[0]);
      SelectAmongYieldsChildTag(path, parentTag, nodes[1..]);
    }
  }

  /** `//parent/child` returns its nodes in document order. */
  lemma {:induction false} SelectInDocumentOrder(path: ChildPath, n: Node)
    ensures IsSubsequence(Select(path, n), Descendants(n))
    decreases n, 1
  {
    match n
    case Element(tag, _, children) => SelectAmongInDocumentOrder(path, tag, children);
    case TextNode(_) =>
  }

  lemma {:induction false} SelectAmongInDocumentOrder(path: ChildPath, parentTag: string, nodes: seq<Node>)
    ensures IsSubsequence(SelectAmong(path, parentTag, nodes), DescendantsOf(nodes))
    decreases nodes, 0
  {
    if |nodes| > 0 {
      var head: seq<Node> := if parentTag == path.parent && IsElementNamed(nodes[0], path.child) then [nodes[0]] else [];
      assert IsSubsequence(head, [nodes[0]]) by {
        if |head| > 0 {
          assert head[1..] == [];
        }
      }
      SelectInDocumentOrder(path, nodes[0]);
      SelectAmongInDocumentOrder(path, parentTag, nodes[1..]);
      SubsequenceConcat(head, [nodes[0]], Select(path, nodes[0]), Descendants(nodes[0]));
      SubsequenceConcat(head + Select(path, nodes[0]), [nodes[0]] + Descendants(nodes[0]),
                        SelectAmong(path, parentTag, nodes[1..]), DescendantsOf(nodes[1..]));
    }
  }

  /** `//parent/child` selects exactly the elements named `child` that are a
      child of an element named `parent` somewhere in the tree rooted at `n`. */
  lemma {:induction false} SelectMembers(path: ChildPath, n: Node, x: Node)
    ensures x in Select(path, n) <==>
      IsElementNamed(x, path.child)
      && exists p :: p in Subtree(n) && IsElementNamed(p, path.parent) && x in p.children
    decreases n, 1
  {
    match n
    case Element(tag, _, children) =>
      SelectAmongMembers(path, tag, children, x);
      assert Subtree(n) == [n] + DescendantsOf(children);
    case TextNode(_) =>
      assert Subtree(n) == [n];
  }

  lemma {:induction false} SelectAmongMembers(path: ChildPath, parentTag: string, nodes: seq<Node>, x: Node)
    ensures x in SelectAmong(path, parentTag, nodes) <==>
      IsElementNamed(x, path.child)
      && ((parentTag == path.parent && x in nodes)
          || exists p :: p in DescendantsOf(nodes) && IsElementNamed(p, path.parent) && x in p.children)
    decreases nodes, 0
  {
    if |nodes| > 0 {
      SelectMembers(path, nodes[0], x);
      SelectAmongMembers(path, parentTag, nodes[1..], x);
      assert DescendantsOf(nodes) == Subtree(nodes[0]) + DescendantsOf(nodes[1..]);
      assert nodes == [nodes[0]] + nodes[1..];
    }
  }

  /** Every node strictly below `n`, in document order, paired with the tag
      of its parent element. */
  function ParentTagged(n: Node): seq<(Node, string)>
    decreases n, 1
  {
    match n
    case Element(tag, _, children) => ParentTaggedOf(tag, children)
    case TextNode(_) => []
  }

  /** `ParentTagged` over the children `nodes` of an element named `parentTag`. */
  function ParentTaggedOf(parentTag: string, nodes: seq<Node>): seq<(Node, string)>
    decreases nodes, 0
  {
    if |nodes| == 0 then []
    else [(nodes[0], parentTag)] + ParentTagged(nodes[0]) + ParentTaggedOf(parentTag, nodes[1..])
  }

  /** The nodes of `ParentTagged(n)` are `Descendants(n)`, position by position. */
  lemma {:induction false} ParentTaggedNodes(n: Node)
    ensures |ParentTagged(n)| == |Descendants(n)|
    ensures forall i :: 0 <= i < |Descendants(n)| ==> ParentTagged(n)[i].0 == Descendants(n)[i]
    decreases n, 1
  {
    match n
    case Element(tag, _, children) => ParentTaggedOfNodes(tag, children);
    case TextNode(_) =>
  }

  lemma {:induction false} ParentTaggedOfNodes(parentTag: string, nodes: seq<Node>)
    ensures |ParentTaggedOf(parentTag, nodes)| == |DescendantsOf(nodes)|
    ensures forall i :: 0 <= i < |DescendantsOf(nodes)| ==> ParentTaggedOf(parentTag, nodes)[i].0 == DescendantsOf(nodes)[i]
    decreases nodes, 0
  {
    if |nodes| > 0 {
      ParentTaggedNodes(nodes[0]);
      ParentTaggedOfNodes(parentTag, nodes[1..]);
      var b, c := ParentTagged(nodes[0]), ParentTaggedOf(parentTag, nodes[1..]);
      var b', c' := Descendants(nodes[0]), DescendantsOf(nodes[1..]);
      var tagged, plain := [(nodes[0], parentTag)] + b + c, [nodes[0]] + b' + c';
      forall i | 0 <= i < |plain|
        ensures tagged[i].0 == plain[i]
      {
        if 0 < i <= |b| {
          assert tagged[i] == b[i - 1] && plain[i] == b'[i - 1];
        } else if i > |b| {
          assert tagged[i] == c[i - 1 - |b|] && plain[i] == c'[i - 1 - |b|];
        }
      }
    }
  }

  /** The tag paired with a node is the tag of an element in the tree that
      has the node as a child. */
  lemma {:induction false} ParentTaggedParents(n: Node, i: nat)
    requires i < |ParentTagged(n)|
    ensures exists p :: p in Subtree(n) && IsElementNamed(p, ParentTagged(n)[i].1) && ParentTagged(n)[i].0 in p.children
    decreases n, 1
  {
    match n
    case Element(tag, _, children) =>
      ParentTaggedOfParents(tag, children, i);
      assert Subtree(n) == [n] + DescendantsOf(children);
    case TextNode(_) =>
  }

  lemma {:induction false} ParentTaggedOfParents(parentTag: string, nodes: seq<Node>, i: nat)
    requires i < |ParentTaggedOf(parentTag, nodes)|
    ensures var e := ParentTaggedOf(parentTag, nodes)[i];
      (e.1 == parentTag && e.0 in nodes)
      || exists p :: p in DescendantsOf(nodes) && IsElementNamed(p, e.1) && e.0 in p.children
    decreases nodes, 0
  {
    var b, c := ParentTagged(nodes[0]), ParentTaggedOf(parentTag, nodes[1..]);
    var e := ParentTaggedOf(parentTag, nodes)[i];
    assert DescendantsOf(nodes) == Subtree(nodes[0]) + DescendantsOf(nodes[1..]);
    if 0 < i <= |b| {
      assert e == b[i - 1];
      ParentTaggedParents(nodes[0], i - 1);
    } else if i > |b| {
      assert e == c[i - 1 - |b|];
      ParentTaggedOfParents(parentTag, nodes[1..], i - 1 - |b|);
      if e.1 == parentTag && e.0 in nodes[1..] {
        assert e.0 in nodes;
      }
    }
  }

  /** The node of an entry of `ParentTagged` when `path` selects it. */
  function Chosen(path: ChildPath, entry: (Node, string)): Option<Node> {
    if entry.1 == path.parent && IsElementNamed(entry.0, path.child) then Some(entry.0) else None
  }

  function ChosenBy(path: ChildPath): ((Node, string)) -> Option<Node> {
    entry => Chosen(path, entry)
  }

  /** `//parent/child` is the filter "parent tag is `parent`, node is an
      element named `child`" over the descendants in document order. */
  lemma {:induction false} SelectByParentTag(path: ChildPath, n: Node)
    ensures Select(path, n) == FilterMap(ParentTagged(n), ChosenBy(path))
    decreases n, 1
  {
    match n
    case Element(tag, _, children) => SelectAmongByParentTag(path, tag, children);
    case TextNode(_) =>
  }

  lemma {:induction false} SelectAmongByParentTag(path: ChildPath, parentTag: string, nodes: seq<Node>)
    ensures SelectAmong(path, parentTag, nodes) == FilterMap(ParentTaggedOf(parentTag, nodes), ChosenBy(path))
    decreases nodes, 0
  {
    if |nodes| > 0 {
      var f := ChosenBy(path);
      var a: seq<(Node, string)> := [(nodes[0], parentTag)];
      var b, c := ParentTagged(nodes[0]), ParentTaggedOf(parentTag, nodes[1..]);
      SelectByParentTag(path, nodes[0]);
      SelectAmongByParentTag(path, parentTag, nodes[1..]);
      FilterMapAppend(a + b, c, f);
      FilterMapAppend(a, b, f);
      assert a[1..] == [];
    }
  }

  /** `//parent/child` selects each qualifying descendant once, by position:
      the result lists `Descendants(n)` at the increasing positions `idx`,
      and a position is in `idx` exactly when its node is an element named
      `child` whose parent is named `parent`. Equal subtrees at two
      positions are selected twice. */
  lemma SelectEnumerates(path: ChildPath, n: Node) returns (idx: seq<nat>)
    ensures |ParentTagged(n)| == |Descendants(n)|
    ensures |idx| == |Select(path, n)|
    ensures forall k :: 0 <= k < |idx| ==> idx[k] < |Descendants(n)| && Select(path, n)[k] == Descendants(n)[idx[k]]
    ensures forall k, l :: 0 <= k < l < |idx| ==> idx[k] < idx[l]
    ensures forall i :: 0 <= i < |Descendants(n)| ==>
      (i in idx <==> ParentTagged(n)[i].1 == path.parent && IsElementNamed(Descendants(n)[i], path.child))
  {
    ParentTaggedNodes(n);
    SelectByParentTag(path, n);
    idx := FilterMapEnumerates(ParentTagged(n), ChosenBy(path));
  }
}
