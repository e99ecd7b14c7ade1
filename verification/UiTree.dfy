/**
  UI hierarchies: the decoded XML nodes of internal/automation/dsl/dsl.go and the element
  tree that internal/automation/locator/locator_tree.go makes of them. A node is identified
  by its path from the root, which makes parent links and node identity explicit.
 */
module UiTree {
  import opened Common

  datatype Rect = Rect(left: int, top: int, right: int, bottom: int)
  {
    predicate Contains(x: int, y: int) {
      left <= x <= right && top <= y <= bottom
    }

    function Area(): int {
      (right - left) * (bottom - top)
    }
  }

  const NO_BOUNDS: Rect := Rect(0, 0, 0, 0)

  /** A decoded <node>; `bounds` is what `ParseBounds` reads, NO_BOUNDS if it cannot. */
  datatype XmlNode = XmlNode(index: string, resourceId: string, text: string, contentDesc: string, cls: string,
                             bounds: Rect, clickable: string, enabled: string, focusable: string,
                             longClickable: string, nodes: seq<XmlNode>)

  /** An element; `index` is that of its XML node, None for the virtual root. */
  datatype Element = Element(index: Option<string>, resourceId: string, text: string, contentDesc: string,
                             cls: string, bounds: Rect, clickable: bool, enabled: bool, focusable: bool,
                             longClickable: bool, children: seq<Element>)

  type Path = seq<nat>

  predicate IsPath(e: Element, p: Path) {
    p == [] || (p[0] < |e.children| && IsPath(e.children[p[0]], p[1..]))
  }

  function NodeAt(e: Element, p: Path): Element
    requires IsPath(e, p)
  {
    if p == [] then e else NodeAt(e.children[p[0]], p[1..])
  }

  lemma {:induction false} PrefixPath(e: Element, p: Path, k: nat)
    requires IsPath(e, p) && k <= |p|
    ensures IsPath(e, p[..k])
  {
    if k == 0 {
    } else {
      PrefixPath(e.children[p[0]], p[1..], k - 1);
      assert p[..k][1..] == p[1..][..k - 1];
    }
  }

  /** One more edge on a path. */
  lemma {:induction false} ExtendPath(e: Element, p: Path, i: nat)
    requires IsPath(e, p)
    ensures IsPath(e, p + [i]) <==> i < |NodeAt(e, p).children|
    ensures IsPath(e, p + [i]) ==> NodeAt(e, p + [i]) == NodeAt(e, p).children[i]
  {
    if p == [] {
    } else {
      ExtendPath(e.children[p[0]], p[1..], i);
      assert (p + [i])[1..] == p[1..] + [i];
    }
  }

  /** Paths below child `i`. */
  function Prefixed(i: nat, ps: seq<Path>): seq<Path> {
    if ps == [] then [] else [[i] + ps[0]] + Prefixed(i, ps[1..])
  }

  lemma {:induction false} InPrefixed(i: nat, ps: seq<Path>, p: Path)
    ensures p in Prefixed(i, ps) <==> p != [] && p[0] == i && p[1..] in ps
  {
    if ps == [] {
    } else {
      InPrefixed(i, ps[1..], p);
      assert ps == [ps[0]] + ps[1..];
      if p != [] && p[0] == i && p[1..] == ps[0] {
        assert p == [i] + ps[0];
      }
    }
  }

  // ---------------------------------------------------------------- conversion

  /** `convertXMLToUIElement`. */
  function Convert(n: XmlNode): Element {
    Element(Some(n.index), n.resourceId, n.text, n.contentDesc, n.cls, n.bounds,
            n.clickable == "true", n.enabled == "true", n.focusable == "true", n.longClickable == "true",
            seq(|n.nodes|, i requires 0 <= i < |n.nodes| => Convert(n.nodes[i])))
  }

  /** The union of the children's bounds, started as the source starts it. */
  function Union(children: seq<Element>): Rect {
    if children == [] then Rect(99999, 99999, 0, 0)
    else
      var u := Union(children[..|children| - 1]);
      var b := children[|children| - 1].bounds;
      Rect(if b.left < u.left then b.left else u.left, if b.top < u.top then b.top else u.top,
           if b.right > u.right then b.right else u.right, if b.bottom > u.bottom then b.bottom else u.bottom)
  }

  function VirtualRoot(children: seq<Element>): Element {
    Element(None, "", "", "", "hierarchy", Union(children), false, false, false, false, children)
  }

  /** `ParseXMLTree` after decoding: None for an empty hierarchy. */
  function ParseTree(nodes: seq<XmlNode>): Option<Element> {
    if nodes == [] then None
    else if |nodes| == 1 then Some(Convert(nodes[0]))
    else Some(VirtualRoot(seq(|nodes|, i requires 0 <= i < |nodes| => Convert(nodes[i]))))
  }

  /** Every point of a top-level node lies in the virtual root, so none is cut off by it. */
  lemma {:induction false} UnionCovers(children: seq<Element>, k: nat, x: int, y: int)
    requires k < |children| && children[k].bounds.Contains(x, y)
    ensures VirtualRoot(children).bounds.Contains(x, y)
  {
    if k == |children| - 1 {
    } else {
      UnionCovers(children[..|children| - 1], k, x, y);
    }
  }

  // ---------------------------------------------------------------- nodes of the hierarchy

  /** A node that holds the whole hierarchy. */
  function Hierarchy(nodes: seq<XmlNode>): XmlNode {
    XmlNode("", "", "", "", "", NO_BOUNDS, "", "", "", "", nodes)
  }

  predicate IsXmlPath(n: XmlNode, p: Path) {
    p == [] || (p[0] < |n.nodes| && IsXmlPath(n.nodes[p[0]], p[1..]))
  }

  function XmlAt(n: XmlNode, p: Path): XmlNode
    requires IsXmlPath(n, p)
  {
    if p == [] then n else XmlAt(n.nodes[p[0]], p[1..])
  }

  /** A converted node has the attributes of its XML node; a flag is set exactly by "true". */
  lemma ConvertFields(n: XmlNode)
    ensures var e := Convert(n);
            && e.index == Some(n.index) && e.resourceId == n.resourceId && e.text == n.text
            && e.contentDesc == n.contentDesc && e.cls == n.cls && e.bounds == n.bounds
            && (e.clickable <==> n.clickable == "true") && (e.enabled <==> n.enabled == "true")
            && (e.focusable <==> n.focusable == "true") && (e.longClickable <==> n.longClickable == "true")
            && |e.children| == |n.nodes|
  {
  }

  /** Several top-level nodes are put below a root of class "hierarchy" without attributes; a single one is the root. */
  lemma ParseTreeExact(nodes: seq<XmlNode>)
    ensures ParseTree(nodes).None? <==> nodes == []
    ensures |nodes| == 1 ==> ParseTree(nodes) == Some(Convert(nodes[0]))
    ensures |nodes| > 1 ==>
              var e := ParseTree(nodes).value;
              && e.index.None? && e.cls == "hierarchy" && e.resourceId == "" && e.text == "" && e.contentDesc == ""
              && !e.clickable && !e.enabled && !e.focusable && !e.longClickable
              && |e.children| == |nodes| && forall i :: 0 <= i < |nodes| ==> e.children[i] == Convert(nodes[i])
  {
  }

  /** The virtual root is as small as it can be, apart from the values the source starts from. */
  lemma {:induction false} UnionTight(children: seq<Element>, k: nat)
    requires k < |children|
    ensures var u := Union(children);
            && u.left <= children[k].bounds.left && u.top <= children[k].bounds.top
            && u.right >= children[k].bounds.right && u.bottom >= children[k].bounds.bottom
    ensures var u := Union(children);
            && (u.left == 99999 || exists j :: 0 <= j < |children| && u.left == children[j].bounds.left)
            && (u.top == 99999 || exists j :: 0 <= j < |children| && u.top == children[j].bounds.top)
            && (u.right == 0 || exists j :: 0 <= j < |children| && u.right == children[j].bounds.right)
            && (u.bottom == 0 || exists j :: 0 <= j < |children| && u.bottom == children[j].bounds.bottom)
  {
    var n := |children| - 1;
    var init := children[..n];
    assert forall j :: 0 <= j < n ==> init[j] == children[j];
    if init == [] {
    } else {
      UnionTight(init, if k < n then k else 0);
    }
  }

  lemma ChildAt(n: XmlNode, i: nat)
    requires i < |n.nodes|
    ensures IsXmlPath(n, [i]) && XmlAt(n, [i]) == n.nodes[i]
  {
    var p: Path := [i];
    assert p[1..] == [];
  }

  lemma LeafPath(n: XmlNode, p: Path)
    requires n.nodes == [] && IsXmlPath(n, p)
    ensures p == []
  {
  }

  /** Paths in a converted node are paths in the node, and lead to the converted nodes. */
  lemma {:induction false} ConvertAt(n: XmlNode, p: Path)
    ensures IsPath(Convert(n), p) <==> IsXmlPath(n, p)
    ensures IsXmlPath(n, p) ==> NodeAt(Convert(n), p) == Convert(XmlAt(n, p))
    decreases |p|
  {
    if p == [] {
    } else if p[0] < |n.nodes| {
      ConvertAt(n.nodes[p[0]], p[1..]);
    }
  }
}
