/**
  `FindByLocator` of internal/automation/locator/locator.go: what a locator finds in a
  decoded hierarchy, with and without an anchor. Results are nodes of the hierarchy.
 */
module Locators {
  import opened Common
  import opened UiTree
  import opened Resolver
  import XPath

  const BLANK: Element := Element(None, "", "", "", "", NO_BOUNDS, false, false, false, false, [])

  /** The temporary target of `FindByLocator`, for the strategies that score. */
  function TargetOf(strategy: string, value: string): Option<Element> {
    match strategy
    case "resourceId" => Some(BLANK.(resourceId := value))
    case "text" => Some(BLANK.(text := value))
    case "contentDesc" => Some(BLANK.(contentDesc := value))
    case "class" => Some(BLANK.(cls := value))
    case _ => None
  }

  /** Where the node at `p` of the parsed tree is in the hierarchy; the virtual root is nowhere. */
  function InHierarchy(nodes: seq<XmlNode>, p: Path): XPath.Outcome {
    if |nodes| == 1 then XPath.Found([0] + p) else if p == [] then XPath.Missing else XPath.Found(p)
  }

  function Located(nodes: seq<XmlNode>, m: Option<Match>): XPath.Outcome {
    if m.Some? then InHierarchy(nodes, m.value.path) else XPath.Missing
  }

  /** What a locator with one of the scoring strategies may find; Missing stands for an error. */
  ghost predicate Locates(nodes: seq<XmlNode>, strategy: string, value: string, anchor: Option<Anchor>,
                          r: XPath.Outcome)
  {
    if nodes == [] || TargetOf(strategy, value).None? then r == XPath.Missing
    else exists m :: Resolves(ParseTree(nodes).value, Target(strategy, value), anchor, m) && r == Located(nodes, m)
  }

  /** `FindByLocator` after decoding; `scan` is what `fmt.Sscanf` reads as a number. */
  method FindByLocator(nodes: seq<XmlNode>, strategy: string, value: string, anchor: Option<Anchor>,
                       scan: string -> Option<int>)
    returns (r: XPath.Outcome)
    ensures strategy != "xpath" ==> Locates(nodes, strategy, value, anchor, r)
    ensures strategy == "xpath" ==> r == if nodes == [] then XPath.Missing else XPath.Evaluate(nodes, value, scan)
  {
    hide Resolves, MatchScore, XPath.Evaluate;
    var root := ParseTree(nodes);
    if root.None? {
      return XPath.Missing;
    }
    if strategy == "xpath" {
      r := XPath.EvaluateXPath(nodes, value, scan);
      return;
    }
    var target := TargetOf(strategy, value);
    if target.None? {
      return XPath.Missing;
    }
    var m := ResolveElement(root, Some(Node(target.value, [])), anchor);
    r := if m.None? then XPath.Missing else InHierarchy(nodes, m.value.path);
    assert r == Located(nodes, m);
  }

  /** The node has the attribute that the locator names. */
  predicate Carries(strategy: string, value: string, e: Element)
    requires strategy in {"resourceId", "text", "contentDesc"}
  {
    match strategy
    case "resourceId" => IdMatches(BLANK.(resourceId := value), e)
    case "text" => e.text == value
    case _ => e.contentDesc == value
  }

  function Target(strategy: string, value: string): Node
    requires TargetOf(strategy, value).Some?
  {
    Node(TargetOf(strategy, value).value, [])
  }

  function AnchorPoints(cand: Node, anchor: Option<Anchor>): int
    requires IsPath(cand.root, cand.path)
  {
    if anchor.Some? then AnchorScore(cand, anchor.value) else 0
  }

  /** What a locator's target scores against a node. */
  lemma LocatorScore(strategy: string, value: string, cand: Node, anchor: Option<Anchor>)
    requires strategy in {"resourceId", "text", "contentDesc"} && value != "" && IsPath(cand.root, cand.path)
    ensures MatchScore(Target(strategy, value), cand, anchor)
            == (if Carries(strategy, value, cand.Get()) then if strategy == "resourceId" then 100 else 80 else -50)
               + Points(cand.Get().bounds == NO_BOUNDS, 30) + AnchorPoints(cand, anchor)
  {
    hide AnchorScore, IdMatches, NodeAt;
    var t := Target(strategy, value);
    NodeAtRoot(t.root);
  }

  lemma NodeAtRoot(e: Element)
    ensures NodeAt(e, []) == e
  {
  }

  function AnchorLimit(a: Anchor): int {
    Points(a.siblingText != "", 50) + Points(a.parentClass != "", 20) + Points(a.parentId != "", 40)
  }

  lemma AnchorBounds(cand: Node, a: Anchor)
    requires IsPath(cand.root, cand.path)
    ensures 0 <= AnchorScore(cand, a) <= AnchorLimit(a) <= 110
  {
  }

  /** An empty hierarchy and a strategy that is not one of the four give an error. */
  lemma NothingToLocate(nodes: seq<XmlNode>, strategy: string, value: string, anchor: Option<Anchor>, r: XPath.Outcome)
    requires Locates(nodes, strategy, value, anchor, r)
    requires nodes == [] || strategy !in {"resourceId", "text", "contentDesc", "class"}
    ensures r == XPath.Missing
  {
  }

  // ---------------------------------------------------------------- from the tree to the hierarchy

  /** The node at `p` of the hierarchy has the attribute that the locator names. */
  predicate CarriedAt(nodes: seq<XmlNode>, strategy: string, value: string, p: Path)
    requires strategy in {"resourceId", "text", "contentDesc"}
  {
    p != [] && IsXmlPath(Hierarchy(nodes), p) && Carries(strategy, value, Convert(XmlAt(Hierarchy(nodes), p)))
  }

  /** A tree node carries a locator exactly if it is in the hierarchy and carries it there. */
  lemma TreeToHierarchy(nodes: seq<XmlNode>, strategy: string, value: string, q: Path)
    requires nodes != [] && IsPath(ParseTree(nodes).value, q)
    requires strategy in {"resourceId", "text", "contentDesc"} && value != ""
    ensures var o := InHierarchy(nodes, q);
            Carries(strategy, value, NodeAt(ParseTree(nodes).value, q))
            <==> o.Found? && CarriedAt(nodes, strategy, value, o.path)
  {
    hide Carries, Convert;
    var top := Hierarchy(nodes);
    if |nodes| == 1 {
      ConvertAt(nodes[0], q);
      assert ([0] + q)[1..] == q;
    } else if q == [] {
      RootCarriesNothing(nodes, strategy, value);
    } else {
      ConvertAt(nodes[q[0]], q[1..]);
    }
  }

  lemma RootCarriesNothing(nodes: seq<XmlNode>, strategy: string, value: string)
    requires |nodes| > 1 && strategy in {"resourceId", "text", "contentDesc"} && value != ""
    ensures !Carries(strategy, value, NodeAt(ParseTree(nodes).value, []))
  {
  }

  /** Every node of the hierarchy is in the tree. */
  lemma HierarchyToTree(nodes: seq<XmlNode>, p: Path) returns (q: Path)
    requires p != [] && IsXmlPath(Hierarchy(nodes), p)
    ensures nodes != [] && IsPath(ParseTree(nodes).value, q) && InHierarchy(nodes, q) == XPath.Found(p)
  {
    hide Convert;
    ConvertAt(nodes[p[0]], p[1..]);
    if |nodes| == 1 {
      q := p[1..];
      assert p == [0] + q;
    } else {
      q := p;
    }
  }

  ghost predicate SomeCarrier(nodes: seq<XmlNode>, strategy: string, value: string)
    requires strategy in {"resourceId", "text", "contentDesc"}
  {
    exists p: Path :: CarriedAt(nodes, strategy, value, p)
  }

  lemma SomeCarrierInTree(nodes: seq<XmlNode>, strategy: string, value: string)
    requires strategy in {"resourceId", "text", "contentDesc"} && value != "" && nodes != []
    ensures var live := ParseTree(nodes).value;
            SomeCarrier(nodes, strategy, value)
            <==> exists q: Path :: IsPath(live, q) && Carries(strategy, value, NodeAt(live, q))
  {
    hide CarriedAt, Carries, Convert, InHierarchy, NodeAt;
    var live := ParseTree(nodes).value;
    if p: Path :| CarriedAt(nodes, strategy, value, p) {
      var q := TreeNodeOf(nodes, strategy, value, p);
      TreeToHierarchy(nodes, strategy, value, q);
    }
    if q: Path :| IsPath(live, q) && Carries(strategy, value, NodeAt(live, q)) {
      TreeToHierarchy(nodes, strategy, value, q);
    }
  }

  lemma TreeNodeOf(nodes: seq<XmlNode>, strategy: string, value: string, p: Path) returns (q: Path)
    requires strategy in {"resourceId", "text", "contentDesc"} && CarriedAt(nodes, strategy, value, p)
    ensures nodes != [] && IsPath(ParseTree(nodes).value, q) && InHierarchy(nodes, q) == XPath.Found(p)
  {
    q := HierarchyToTree(nodes, p);
  }

  // ---------------------------------------------------------------- without an anchor

  lemma UnanchoredResolves(live: Element, strategy: string, value: string, r: Option<Match>)
    requires strategy in {"resourceId", "text", "contentDesc"} && value != ""
    requires Resolves(live, Target(strategy, value), None, r)
    ensures r.Some? <==> exists p: Path :: IsPath(live, p) && Carries(strategy, value, NodeAt(live, p))
    ensures r.Some? ==> Carries(strategy, value, NodeAt(live, r.value.path))
  {
    hide MatchScore, Carries, NodeAt, AreaDiff;
    forall p: Path | IsPath(live, p)
      ensures MatchScore(Target(strategy, value), Node(live, p), None) >= 20
              <==> Carries(strategy, value, NodeAt(live, p))
    {
      LocatorScore(strategy, value, Node(live, p), None);
    }
    if r.Some? {
      assert Carries(strategy, value, NodeAt(live, r.value.path));
    }
  }

  /** Without an anchor a locator finds a node exactly when one carries it, and only such a node. */
  lemma UnanchoredExact(nodes: seq<XmlNode>, strategy: string, value: string, r: XPath.Outcome)
    requires strategy in {"resourceId", "text", "contentDesc"} && value != ""
    requires Locates(nodes, strategy, value, None, r)
    ensures r.Found? <==> SomeCarrier(nodes, strategy, value)
    ensures r.Found? ==> CarriedAt(nodes, strategy, value, r.path)
  {
    if nodes == [] {
      assert forall p: Path :: p != [] ==> !IsXmlPath(Hierarchy(nodes), p);
    } else {
      hide Resolves, CarriedAt, Carries, ParseTree, InHierarchy, SomeCarrier, NodeAt;
      var live := ParseTree(nodes).value;
      var m :| Resolves(live, Target(strategy, value), None, m) && r == Located(nodes, m);
      UnanchoredResolves(live, strategy, value, m);
      SomeCarrierInTree(nodes, strategy, value);
      if m.Some? {
        ResolvedIsNode(live, Target(strategy, value), None, m);
        TreeToHierarchy(nodes, strategy, value, m.value.path);
      }
    }
  }

  lemma ResolvedIsNode(live: Element, target: Node, anchor: Option<Anchor>, m: Option<Match>)
    requires IsPath(target.root, target.path) && Resolves(live, target, anchor, m) && m.Some?
    ensures IsPath(live, m.value.path)
  {
  }

  // ---------------------------------------------------------------- with an anchor

  /** With any anchor a node carrying the resource id beats every node that does not. */
  lemma AnchoredIdBeats(live: Element, value: string, anchor: Anchor, p: Path, q: Path)
    requires value != "" && IsPath(live, p) && IsPath(live, q)
    requires Carries("resourceId", value, NodeAt(live, p)) && !Carries("resourceId", value, NodeAt(live, q))
    ensures MatchScore(Target("resourceId", value), Node(live, p), Some(anchor))
            > MatchScore(Target("resourceId", value), Node(live, q), Some(anchor))
  {
    hide MatchScore, Carries, AnchorScore, AnchorLimit;
    LocatorScore("resourceId", value, Node(live, p), Some(anchor));
    LocatorScore("resourceId", value, Node(live, q), Some(anchor));
    AnchorBounds(Node(live, p), anchor);
    AnchorBounds(Node(live, q), anchor);
  }

  /** Every tree node that does not carry the locator is outscored by some node. */
  ghost predicate OthersBeaten(live: Element, strategy: string, value: string, anchor: Anchor)
    requires strategy in {"resourceId", "text", "contentDesc"}
  {
    forall q: Path ::
      IsPath(live, q) && !Carries(strategy, value, NodeAt(live, q)) ==> Beaten(live, strategy, value, anchor, q)
  }

  ghost predicate Beaten(live: Element, strategy: string, value: string, anchor: Anchor, q: Path)
    requires strategy in {"resourceId", "text", "contentDesc"} && IsPath(live, q)
  {
    exists p: Path :: IsPath(live, p)
      && MatchScore(Target(strategy, value), Node(live, p), Some(anchor))
         > MatchScore(Target(strategy, value), Node(live, q), Some(anchor))
  }

  /** If some node carries the locator and the others are beaten, a carrier is found. */
  lemma CarrierFound(nodes: seq<XmlNode>, strategy: string, value: string, a: Anchor, r: XPath.Outcome)
    requires strategy in {"resourceId", "text", "contentDesc"} && value != "" && nodes != []
    requires Locates(nodes, strategy, value, Some(a), r) && SomeCarrier(nodes, strategy, value)
    requires OthersBeaten(ParseTree(nodes).value, strategy, value, a)
    ensures r.Found? && CarriedAt(nodes, strategy, value, r.path)
  {
    hide MatchScore, CarriedAt, Carries, Convert, InHierarchy, SomeCarrier, NodeAt, AreaDiff, AnchorScore;
    var live := ParseTree(nodes).value;
    var t := Target(strategy, value);
    var m :| Resolves(live, t, Some(a), m) && r == Located(nodes, m);
    SomeCarrierInTree(nodes, strategy, value);
    var c: Path :| IsPath(live, c) && Carries(strategy, value, NodeAt(live, c));
    CarrierScore(live, strategy, value, a, c);
    assert m.Some?;
    var q := m.value.path;
    assert !Beaten(live, strategy, value, a, q);
    TreeToHierarchy(nodes, strategy, value, q);
  }

  lemma CarrierScore(live: Element, strategy: string, value: string, a: Anchor, p: Path)
    requires strategy in {"resourceId", "text", "contentDesc"} && value != "" && IsPath(live, p)
    ensures Carries(strategy, value, NodeAt(live, p)) ==>
              MatchScore(Target(strategy, value), Node(live, p), Some(a)) >= 80
  {
    hide MatchScore, Carries, AnchorScore, AnchorLimit, NodeAt;
    LocatorScore(strategy, value, Node(live, p), Some(a));
    AnchorBounds(Node(live, p), a);
  }

  /** With any anchor, a resource id that some node carries is found on a node that carries it. */
  lemma AnchoredIdFound(nodes: seq<XmlNode>, value: string, anchor: Anchor, r: XPath.Outcome)
    requires value != "" && nodes != [] && SomeCarrier(nodes, "resourceId", value)
    requires Locates(nodes, "resourceId", value, Some(anchor), r)
    ensures r.Found? && CarriedAt(nodes, "resourceId", value, r.path)
  {
    hide MatchScore, Carries, CarriedAt, Convert, SomeCarrier, Locates, NodeAt;
    var live := ParseTree(nodes).value;
    SomeCarrierInTree(nodes, "resourceId", value);
    var c: Path :| IsPath(live, c) && Carries("resourceId", value, NodeAt(live, c));
    forall q: Path | IsPath(live, q) && !Carries("resourceId", value, NodeAt(live, q))
      ensures Beaten(live, "resourceId", value, anchor, q)
    {
      AnchoredIdBeats(live, value, anchor, c, q);
    }
    CarrierFound(nodes, "resourceId", value, anchor, r);
  }

  // ---------------------------------------------------------------- texts and descriptions under an anchor

  /** In every parsed tree, nodes carrying the locator score above nodes that do not. */
  ghost predicate MatchAlwaysBeats(strategy: string, value: string, anchor: Anchor)
    requires strategy in {"text", "contentDesc"}
  {
    forall nodes: seq<XmlNode>, p: Path, q: Path ::
      nodes != [] && IsPath(ParseTree(nodes).value, p) && IsPath(ParseTree(nodes).value, q)
      && Carries(strategy, value, NodeAt(ParseTree(nodes).value, p))
      && !Carries(strategy, value, NodeAt(ParseTree(nodes).value, q))
      ==> MatchScore(Target(strategy, value), Node(ParseTree(nodes).value, p), Some(anchor))
          > MatchScore(Target(strategy, value), Node(ParseTree(nodes).value, q), Some(anchor))
  }

  /** In every hierarchy with a node that carries the locator, such a node is found. */
  ghost predicate CarrierAlwaysFound(strategy: string, value: string, anchor: Anchor)
    requires strategy in {"text", "contentDesc"}
  {
    forall nodes: seq<XmlNode>, r: XPath.Outcome ::
      Locates(nodes, strategy, value, Some(anchor), r) && SomeCarrier(nodes, strategy, value)
      ==> r.Found? && CarriedAt(nodes, strategy, value, r.path)
  }

  /** In every hierarchy what is found, if anything, carries the locator. */
  ghost predicate OnlyCarriers(strategy: string, value: string, anchor: Anchor)
    requires strategy in {"text", "contentDesc"}
  {
    forall nodes: seq<XmlNode>, r: XPath.Outcome ::
      Locates(nodes, strategy, value, Some(anchor), r) && r.Found? ==> CarriedAt(nodes, strategy, value, r.path)
  }

  predicate LacksPart(a: Anchor) {
    a.siblingText == "" || a.parentClass == "" || a.parentId == ""
  }

  const EMPTY_NODE: XmlNode := XmlNode("", "", "", "", "", NO_BOUNDS, "", "", "", "", [])

  /** A node with a locator's attribute, and bounds that match no target. */
  function Holding(strategy: string, value: string): XmlNode {
    var n := EMPTY_NODE.(bounds := Rect(0, 0, 1, 1));
    if strategy == "text" then n.(text := value) else n.(contentDesc := value)
  }

  /** Beside the empty node: the anchor's sibling text, over the only other node with the locator. */
  function Beside(strategy: string, value: string, a: Anchor): XmlNode {
    EMPTY_NODE.(text := a.siblingText, resourceId := a.parentId + "x", bounds := Rect(0, 0, 1, 1),
                nodes := [Holding(strategy, value)])
  }

  /** A root with the anchor's id and class over an empty node without bounds. */
  function Misleading(strategy: string, value: string, a: Anchor): XmlNode {
    EMPTY_NODE.(resourceId := a.parentId, cls := a.parentClass, bounds := Rect(0, 0, 1, 1),
                nodes := [EMPTY_NODE, Beside(strategy, value, a)])
  }

  lemma MisleadingPaths(strategy: string, value: string, a: Anchor)
    ensures var e := Convert(Misleading(strategy, value, a));
            && IsPath(e, [0]) && NodeAt(e, [0]) == Convert(EMPTY_NODE)
            && IsPath(e, [1]) && NodeAt(e, [1]) == Convert(Beside(strategy, value, a))
            && IsPath(e, [1, 0]) && NodeAt(e, [1, 0]) == Convert(Holding(strategy, value))
            && e.children == [Convert(EMPTY_NODE), Convert(Beside(strategy, value, a))]
  {
    var n := Misleading(strategy, value, a);
    var below: Path := [1, 0];
    ChildAt(n, 0);
    ChildAt(n, 1);
    ChildAt(Beside(strategy, value, a), 0);
    assert below[1..] == [0];
    ConvertAt(n, [0]);
    ConvertAt(n, [1]);
    ConvertAt(n, [1, 0]);
  }

  lemma MisleadingScores(strategy: string, value: string, a: Anchor)
    requires strategy in {"text", "contentDesc"} && value != "" && !LacksPart(a)
    ensures var e := Convert(Misleading(strategy, value, a));
            && IsPath(e, [0]) && AnchorScore(Node(e, [0]), a) == 110
            && IsPath(e, [1, 0]) && AnchorScore(Node(e, [1, 0]), a) == 0
  {
    hide Convert, IsPath, NodeAt;
    var e := Convert(Misleading(strategy, value, a));
    MisleadingPaths(strategy, value, a);
    ConvertedRoot(strategy, value, a);
    var n, m := Node(e, [0]), Node(e, [1, 0]);
    assert [0][..0] == [] && [1, 0][..1] == [1];
    assert n.Parent() == Some(e) && m.Parent() == Some(e.children[1]);
    assert SiblingHas(n, a.siblingText);
    assert !SiblingHas(m, a.siblingText);
    assert |":id/" + a.parentId| == |a.parentId| + 4;
    assert |":id/" + (a.parentId + "x")| == |a.parentId| + 5;
    assert !SameId(a.parentId + "x", a.parentId);
  }

  lemma ConvertedRoot(strategy: string, value: string, a: Anchor)
    ensures var e, b := Convert(Misleading(strategy, value, a)), Convert(Beside(strategy, value, a));
            && NodeAt(e, []) == e && e.resourceId == a.parentId && e.cls == a.parentClass
            && b.text == a.siblingText && b.resourceId == a.parentId + "x" && b.cls == "" && |b.children| == 1
  {
  }

  lemma MisleadingMatch(strategy: string, value: string, a: Anchor)
    requires strategy in {"text", "contentDesc"} && value != "" && !LacksPart(a)
    ensures var e := Convert(Misleading(strategy, value, a));
            && IsPath(e, [0]) && !Carries(strategy, value, NodeAt(e, [0]))
            && MatchScore(Target(strategy, value), Node(e, [0]), Some(a)) == 90
            && IsPath(e, [1, 0]) && Carries(strategy, value, NodeAt(e, [1, 0]))
            && MatchScore(Target(strategy, value), Node(e, [1, 0]), Some(a)) == 80
  {
    hide MatchScore, AnchorScore, IsPath, NodeAt;
    var e := Convert(Misleading(strategy, value, a));
    MisleadingPaths(strategy, value, a);
    MisleadingScores(strategy, value, a);
    LocatorScore(strategy, value, Node(e, [0]), Some(a));
    LocatorScore(strategy, value, Node(e, [1, 0]), Some(a));
  }

  /** A text or description match beats every other node exactly unless the anchor has all three parts. */
  lemma MatchBeatsExact(strategy: string, value: string, a: Anchor)
    requires strategy in {"text", "contentDesc"} && value != ""
    ensures MatchAlwaysBeats(strategy, value, a) <==> LacksPart(a)
  {
    hide MatchScore, Carries, Convert, NodeAt;
    if LacksPart(a) {
      forall nodes: seq<XmlNode>, p: Path, q: Path |
        nodes != [] && IsPath(ParseTree(nodes).value, p) && IsPath(ParseTree(nodes).value, q)
        && Carries(strategy, value, NodeAt(ParseTree(nodes).value, p))
        && !Carries(strategy, value, NodeAt(ParseTree(nodes).value, q))
        ensures MatchScore(Target(strategy, value), Node(ParseTree(nodes).value, p), Some(a))
                > MatchScore(Target(strategy, value), Node(ParseTree(nodes).value, q), Some(a))
      {
        MatchBeats(ParseTree(nodes).value, strategy, value, a, p, q);
      }
    } else {
      var nodes := [Misleading(strategy, value, a)];
      assert ParseTree(nodes).value == Convert(Misleading(strategy, value, a));
      MisleadingMatch(strategy, value, a);
    }
  }

  lemma MatchBeats(live: Element, strategy: string, value: string, a: Anchor, p: Path, q: Path)
    requires strategy in {"text", "contentDesc"} && value != "" && LacksPart(a) && IsPath(live, p) && IsPath(live, q)
    requires Carries(strategy, value, NodeAt(live, p)) && !Carries(strategy, value, NodeAt(live, q))
    ensures MatchScore(Target(strategy, value), Node(live, p), Some(a))
            > MatchScore(Target(strategy, value), Node(live, q), Some(a))
  {
    hide MatchScore, AnchorScore, Carries, NodeAt, IsPath;
    LocatorScore(strategy, value, Node(live, p), Some(a));
    LocatorScore(strategy, value, Node(live, q), Some(a));
    AnchorBounds(Node(live, p), a);
    AnchorBounds(Node(live, q), a);
  }

  // ---------------------------------------------------------------- siblings that carry the text

  /** A sibling with the text sought carries the locator and scores higher. */
  lemma SiblingScoresMore(live: Element, value: string, a: Anchor, p: Path)
    requires value != "" && IsPath(live, p) && NodeAt(live, p).text != value
    requires a.siblingText == value && SiblingHas(Node(live, p), value)
    ensures Beaten(live, "text", value, a, p)
  {
    hide MatchScore, AnchorScore, NodeAt, IsPath;
    var last := |p| - 1;
    PrefixPath(live, p, last);
    var up := p[..last];
    assert p == up + [p[last]];
    var parent := NodeAt(live, up);
    var i :| 0 <= i < |parent.children| && i != p[last] && parent.children[i].text == value;
    ExtendPath(live, up, i);
    var q := up + [i];
    LocatorScore("text", value, Node(live, p), Some(a));
    LocatorScore("text", value, Node(live, q), Some(a));
    SameParentAnchor(live, up, p[last], i, a);
  }

  /** Siblings get the same points for their parent. */
  lemma SameParentAnchor(live: Element, up: Path, i: nat, j: nat, a: Anchor)
    requires IsPath(live, up + [i]) && IsPath(live, up + [j])
    ensures AnchorScore(Node(live, up + [i]), a) - AnchorScore(Node(live, up + [j]), a) <= 50
  {
    assert (up + [i])[..|up|] == up && (up + [j])[..|up|] == up;
  }

  /** The sibling text is the text looked for. */
  predicate SiblingIsSought(strategy: string, value: string, a: Anchor) {
    strategy == "text" && a.siblingText == value
  }

  lemma SoughtSiblingBeats(live: Element, value: string, a: Anchor, c: Path, q: Path)
    requires value != "" && a.siblingText == value && IsPath(live, c) && IsPath(live, q)
    requires Carries("text", value, NodeAt(live, c)) && !Carries("text", value, NodeAt(live, q))
    ensures Beaten(live, "text", value, a, q)
  {
    hide MatchScore, NodeAt, IsPath, SiblingHas;
    if SiblingHas(Node(live, q), value) {
      SiblingScoresMore(live, value, a, q);
    } else {
      CarrierScore(live, "text", value, a, c);
      LocatorScore("text", value, Node(live, q), Some(a));
    }
  }

  /** Only one node of the misleading tree carries the locator, unless the sibling text is sought. */
  lemma MisleadingCarrier(strategy: string, value: string, a: Anchor, p: Path)
    requires strategy in {"text", "contentDesc"} && value != "" && !SiblingIsSought(strategy, value, a)
    requires IsPath(Convert(Misleading(strategy, value, a)), p)
    requires Carries(strategy, value, NodeAt(Convert(Misleading(strategy, value, a)), p))
    ensures p == [1, 0]
  {
    var n := Misleading(strategy, value, a);
    ConvertAt(n, p);
    if p != [] {
      var q := p[1..];
      assert XmlAt(n, p) == XmlAt(n.nodes[p[0]], q);
      if p[0] == 0 {
        LeafPath(n.nodes[0], q);
      } else if q != [] {
        assert n.nodes[1].nodes[q[0]] == Holding(strategy, value);
        LeafPath(Holding(strategy, value), q[1..]);
        assert p == [1] + ([q[0]] + q[1..]);
      }
    }
  }

  /**
    With a text or description locator that some node carries, such a node is found in
    every hierarchy exactly if the anchor lacks a part or its sibling text is the text sought.
   */
  lemma CarrierFoundExact(strategy: string, value: string, a: Anchor)
    requires strategy in {"text", "contentDesc"} && value != ""
    ensures CarrierAlwaysFound(strategy, value, a) <==> LacksPart(a) || SiblingIsSought(strategy, value, a)
  {
    hide Locates, SomeCarrier, CarriedAt, LacksPart, SiblingIsSought;
    if LacksPart(a) || SiblingIsSought(strategy, value, a) {
      forall nodes: seq<XmlNode>, r: XPath.Outcome |
        Locates(nodes, strategy, value, Some(a), r) && SomeCarrier(nodes, strategy, value)
        ensures r.Found? && CarriedAt(nodes, strategy, value, r.path)
      {
        OthersAreBeaten(nodes, strategy, value, a);
        CarrierFound(nodes, strategy, value, a, r);
      }
    } else {
      MisleadingFails(strategy, value, a);
    }
  }

  lemma OthersAreBeaten(nodes: seq<XmlNode>, strategy: string, value: string, a: Anchor)
    requires strategy in {"text", "contentDesc"} && value != "" && SomeCarrier(nodes, strategy, value)
    requires LacksPart(a) || SiblingIsSought(strategy, value, a)
    ensures nodes != [] && OthersBeaten(ParseTree(nodes).value, strategy, value, a)
  {
    var p: Path :| CarriedAt(nodes, strategy, value, p);
    hide MatchScore, Carries, Convert, SomeCarrier, NodeAt, IsPath, CarriedAt, LacksPart;
    var c := TreeNodeOf(nodes, strategy, value, p);
    TreeToHierarchy(nodes, strategy, value, c);
    var live := ParseTree(nodes).value;
    forall q: Path | IsPath(live, q) && !Carries(strategy, value, NodeAt(live, q))
      ensures Beaten(live, strategy, value, a, q)
    {
      if LacksPart(a) {
        MatchBeats(live, strategy, value, a, c, q);
      } else {
        SoughtSiblingBeats(live, value, a, c, q);
      }
    }
  }

  lemma MisleadingFails(strategy: string, value: string, a: Anchor)
    requires strategy in {"text", "contentDesc"} && value != "" && !LacksPart(a) && !SiblingIsSought(strategy, value, a)
    ensures !CarrierAlwaysFound(strategy, value, a)
  {
    hide MatchScore, Carries, NodeAt, AreaDiff, Misleading, LacksPart, SiblingIsSought, CarriedAt;
    var nodes := [Misleading(strategy, value, a)];
    var live := Convert(nodes[0]);
    assert ParseTree(nodes) == Some(live);
    hide Convert;
    MisleadingMatch(strategy, value, a);
    SomeCarrierInTree(nodes, strategy, value);
    var t := Target(strategy, value);
    var m := ResolvesExists(live, t, Some(a));
    var r := Located(nodes, m);
    assert Locates(nodes, strategy, value, Some(a), r);
    if m.Some? && Carries(strategy, value, NodeAt(live, m.value.path)) {
      MisleadingCarrier(strategy, value, a, m.value.path);
      assert false;
    }
    if m.Some? {
      TreeToHierarchy(nodes, strategy, value, m.value.path);
    }
  }

  // ---------------------------------------------------------------- when a wrong node can come out

  /** No parent id, and a sibling text only if it is the text looked for itself. */
  predicate SafeAnchor(strategy: string, value: string, a: Anchor) {
    a.parentId == "" && (a.siblingText == "" || SiblingIsSought(strategy, value, a))
  }

  lemma SafeCarrier(live: Element, strategy: string, value: string, a: Anchor, m: Option<Match>)
    requires strategy in {"text", "contentDesc"} && value != "" && SafeAnchor(strategy, value, a)
    requires Resolves(live, Target(strategy, value), Some(a), m) && m.Some?
    ensures IsPath(live, m.value.path) && Carries(strategy, value, NodeAt(live, m.value.path))
  {
    hide MatchScore, AreaDiff, SiblingHas;
    var n := Node(live, m.value.path);
    LocatorScore(strategy, value, n, Some(a));
    if !Carries(strategy, value, n.Get()) && a.siblingText != "" && SiblingHas(n, a.siblingText) {
      SiblingScoresMore(live, value, a, n.path);
    }
  }

  /** An empty node below the anchor's parent id, next to a node with the given text. */
  function Bare(a: Anchor, text: string): XmlNode {
    EMPTY_NODE.(resourceId := a.parentId, bounds := Rect(0, 0, 1, 1),
                nodes := [EMPTY_NODE, EMPTY_NODE.(text := text, bounds := Rect(0, 0, 1, 1))])
  }

  lemma BarePaths(a: Anchor, text: string, p: Path)
    requires IsPath(Convert(Bare(a, text)), p)
    ensures var e := NodeAt(Convert(Bare(a, text)), p);
            e.contentDesc == "" && (e.text == "" || e.text == text)
  {
    ConvertAt(Bare(a, text), p);
    if p != [] {
      assert Bare(a, text).nodes[p[0]].nodes == [];
      assert p[1..] == [];
    }
  }

  lemma BareNode(a: Anchor, text: string)
    requires a.parentId != "" || (a.siblingText != "" && text == a.siblingText)
    ensures var e := Convert(Bare(a, text));
            && IsPath(e, [0]) && NodeAt(e, [0]) == Convert(EMPTY_NODE)
            && AnchorScore(Node(e, [0]), a) >= 40
  {
    var e := Convert(Bare(a, text));
    ConvertAt(Bare(a, text), [0]);
    assert [0][1..] == [] && [0][..0] == [];
    var n := Node(e, [0]);
    assert n.Parent() == Some(e);
    if text == a.siblingText {
      assert e.children[1].text == a.siblingText;
      assert SiblingHas(n, a.siblingText);
    }
  }

  /** Without a safe anchor a hierarchy none of whose nodes carries the locator still yields a node. */
  lemma UnsafeFails(strategy: string, value: string, a: Anchor)
    requires strategy in {"text", "contentDesc"} && value != "" && !SafeAnchor(strategy, value, a)
    ensures !OnlyCarriers(strategy, value, a)
  {
    var text := if strategy == "text" && a.siblingText == value then "" else a.siblingText;
    var nodes := [Bare(a, text)];
    var e := Convert(Bare(a, text));
    BareNode(a, text);
    assert ParseTree(nodes) == Some(e);
    hide MatchScore, AreaDiff, AnchorScore, Bare, SiblingHas;
    LocatorScore(strategy, value, Node(e, [0]), Some(a));
    var m := ResolvesExists(e, Target(strategy, value), Some(a));
    assert m.Some?;
    BarePaths(a, text, m.value.path);
    assert !Carries(strategy, value, NodeAt(e, m.value.path));
    assert Locates(nodes, strategy, value, Some(a), Located(nodes, m));
    hide Convert, Carries, CarriedAt;
    TreeToHierarchy(nodes, strategy, value, m.value.path);
  }

  /** An anchored text or description locator only ever finds nodes carrying it exactly with a safe anchor. */
  lemma AnchoredExact(strategy: string, value: string, a: Anchor)
    requires strategy in {"text", "contentDesc"} && value != ""
    ensures OnlyCarriers(strategy, value, a) <==> SafeAnchor(strategy, value, a)
  {
    hide SafeAnchor, Resolves, Carries, CarriedAt, Convert, NodeAt, InHierarchy;
    if SafeAnchor(strategy, value, a) {
      forall nodes: seq<XmlNode>, r: XPath.Outcome | Locates(nodes, strategy, value, Some(a), r) && r.Found?
        ensures CarriedAt(nodes, strategy, value, r.path)
      {
        var live := ParseTree(nodes).value;
        var m :| Resolves(live, Target(strategy, value), Some(a), m) && r == Located(nodes, m);
        SafeCarrier(live, strategy, value, a, m);
        TreeToHierarchy(nodes, strategy, value, m.value.path);
      }
    } else {
      UnsafeFails(strategy, value, a);
    }
  }

  // ---------------------------------------------------------------- what carrying means, and the class strategy

  /** On the attributes: equality for texts and descriptions, the id or its part behind ":id/" for ids. */
  lemma CarriesExact(value: string, e: Element)
    requires value != ""
    ensures Carries("text", value, e) <==> e.text == value
    ensures Carries("contentDesc", value, e) <==> e.contentDesc == value
    ensures Carries("resourceId", value, e) <==>
            e.resourceId != "" &&
            (e.resourceId == value || EndsWith(e.resourceId, ":id/" + value) || EndsWith(value, ":id/" + e.resourceId))
  {
    assert |"text"| == 4 && |"contentDesc"| == 11 && |"resourceId"| == 10;
    var t := BLANK.(resourceId := value);
    assert t.resourceId == value;
    assert XPath.HasSuffix(e.resourceId, ":id/" + value) == EndsWith(e.resourceId, ":id/" + value);
    assert XPath.HasSuffix(value, ":id/" + e.resourceId) == EndsWith(value, ":id/" + e.resourceId);
  }

  predicate EndsWith(s: string, tail: string) {
    |tail| <= |s| && s[|s| - |tail|..] == tail
  }

  /** A class locator scores 20 for the class and 30 for missing bounds. */
  lemma ClassScore(value: string, live: Element, p: Path)
    requires value != "" && IsPath(live, p)
    ensures MatchScore(Target("class", value), Node(live, p), None) ==
            (if NodeAt(live, p).cls == value then 20 else 0) + (if NodeAt(live, p).bounds == NO_BOUNDS then 30 else 0)
  {
    hide NodeAt;
    NodeAtRoot(Target("class", value).root);
  }

  /**
    Without an anchor a class locator resolves to a node exactly if some node has the class or
    no bounds. The node has the class exactly if some node has the class and no bounds, or
    every node has bounds: a node without bounds outweighs the class.
   */
  lemma ClassExact(live: Element, value: string, m: Option<Match>)
    requires value != "" && Resolves(live, Target("class", value), None, m)
    ensures m.Some? <==>
            exists p: Path :: IsPath(live, p) && (NodeAt(live, p).cls == value || NodeAt(live, p).bounds == NO_BOUNDS)
    ensures m.Some? ==>
              (NodeAt(live, m.value.path).cls == value <==>
               || (exists p: Path ::
                     IsPath(live, p) && NodeAt(live, p).cls == value && NodeAt(live, p).bounds == NO_BOUNDS)
               || (forall p: Path :: IsPath(live, p) ==> NodeAt(live, p).bounds != NO_BOUNDS))
  {
    hide MatchScore, NodeAt, AreaDiff;
    forall p: Path | IsPath(live, p)
      ensures MatchScore(Target("class", value), Node(live, p), None) ==
              (if NodeAt(live, p).cls == value then 20 else 0) + (if NodeAt(live, p).bounds == NO_BOUNDS then 30 else 0)
    {
      ClassScore(value, live, p);
    }
    ResolvedIsMaximal(live, Target("class", value), None, m);
    if m.Some? {
      var best := m.value.path;
      assert IsPath(live, best) && m.value.score == MatchScore(Target("class", value), Node(live, best), None);
    }
    hide Resolves;
  }
}
