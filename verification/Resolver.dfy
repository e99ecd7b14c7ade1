/**
  Finding a recorded element again in a live tree: `MatchScore` and `ResolveElement` of
  internal/automation/locator/locator.go. A node is a tree and a path
  in it, so its parent and its siblings are at hand and identity is equality of paths.
 */
module Resolver {
  import opened Common
  import opened UiTree
  import XPath

  /** Disambiguation context; empty strings are absent. */
  datatype Anchor = Anchor(siblingText: string, parentId: string, parentClass: string)

  /** A node with its tree. */
  datatype Node = Node(root: Element, path: Path)
  {
    ghost predicate Valid() {
      IsPath(root, path)
    }

    function Get(): Element
      requires IsPath(root, path)
    {
      NodeAt(root, path)
    }

    function Parent(): (p: Option<Element>)
      requires IsPath(root, path)
      ensures p.None? <==> path == []
    {
      if path == [] then None
      else (PrefixPath(root, path, |path| - 1); Some(NodeAt(root, path[..|path| - 1])))
    }
  }

  // ---------------------------------------------------------------- scoring

  predicate SameId(a: string, b: string) {
    a == b || XPath.HasSuffix(a, ":id/" + b) || XPath.HasSuffix(b, ":id/" + a)
  }

  predicate IdMatches(target: Element, cand: Element) {
    cand.resourceId != "" && SameId(target.resourceId, cand.resourceId)
  }

  function Points(condition: bool, points: int): int {
    if condition then points else 0
  }

  /** A mismatch of a recorded attribute costs 50; an attribute not recorded counts nothing. */
  function AttributeScore(recorded: bool, same: bool, points: int): int {
    if !recorded then 0 else if same then points else -50
  }

  function OwnScore(target: Element, cand: Element): int {
    AttributeScore(target.resourceId != "", IdMatches(target, cand), 100)
    + AttributeScore(target.text != "", cand.text == target.text, 80)
    + AttributeScore(target.contentDesc != "", cand.contentDesc == target.contentDesc, 80)
    + Points(target.cls != "" && cand.cls == target.cls, 20)
    + Points(target.bounds == cand.bounds, 30)
  }

  /** Some child of the parent other than the node itself carries the text. */
  predicate SiblingHas(n: Node, text: string)
    requires IsPath(n.root, n.path)
  {
    n.Parent().Some? &&
    exists i :: 0 <= i < |n.Parent().value.children| && i != n.path[|n.path| - 1]
                && n.Parent().value.children[i].text == text
  }

  function AnchorScore(cand: Node, a: Anchor): int
    requires IsPath(cand.root, cand.path)
  {
    var parent := cand.Parent();
    Points(a.siblingText != "" && SiblingHas(cand, a.siblingText), 50)
    + Points(a.parentClass != "" && parent.Some? && parent.value.cls == a.parentClass, 20)
    + Points(a.parentId != "" && parent.Some? && SameId(parent.value.resourceId, a.parentId), 40)
  }

  /** Without an anchor: 50 for every sibling text of the target found beside the candidate. */
  function SharedTexts(target: Node, cand: Node, siblings: seq<Element>, i: nat): int
    requires IsPath(target.root, target.path) && target.path != [] && IsPath(cand.root, cand.path)
    requires i <= |siblings|
    decreases |siblings| - i
  {
    if i == |siblings| then 0
    else Points(i != target.path[|target.path| - 1] && siblings[i].text != "" && SiblingHas(cand, siblings[i].text), 50)
         + SharedTexts(target, cand, siblings, i + 1)
  }

  function ContextScore(target: Node, cand: Node): int
    requires IsPath(target.root, target.path) && IsPath(cand.root, cand.path)
  {
    if target.Parent().None? then 0
    else SharedTexts(target, cand, target.Parent().value.children, 0)
         + Points(cand.Parent().Some? && cand.Parent().value.cls == target.Parent().value.cls, 30)
  }

  function MatchScore(target: Node, cand: Node, anchor: Option<Anchor>): int
    requires IsPath(target.root, target.path) && IsPath(cand.root, cand.path)
  {
    OwnScore(target.Get(), cand.Get())
    + if anchor.Some? then AnchorScore(cand, anchor.value) else ContextScore(target, cand)
  }

  // ---------------------------------------------------------------- the whole tree

  /** `FlattenTree`: all nodes in pre-order. */
  function Flatten(e: Element): seq<Path>
    decreases e, |e.children| + 2
  {
    [[]] + FlattenBelow(e, e.children, 0)
  }

  function FlattenBelow(e: Element, children: seq<Element>, i: nat): seq<Path>
    requires children == e.children && i <= |children|
    decreases e, |children| - i + 1
  {
    if i == |children| then []
    else Prefixed(i, Flatten(children[i])) + FlattenBelow(e, children, i + 1)
  }

  /** The flattened tree holds exactly the paths of the tree. */
  lemma {:induction false} FlattenExact(e: Element, p: Path)
    ensures p in Flatten(e) <==> IsPath(e, p)
    decreases e, |e.children| + 2
  {
    FlattenBelowExact(e, 0, p);
  }

  lemma {:induction false} FlattenBelowExact(e: Element, i: nat, p: Path)
    requires i <= |e.children|
    ensures p in FlattenBelow(e, e.children, i) <==>
            p != [] && i <= p[0] < |e.children| && IsPath(e.children[p[0]], p[1..])
    decreases e, |e.children| - i + 1
  {
    if i == |e.children| {
    } else {
      InPrefixed(i, Flatten(e.children[i]), p);
      FlattenBelowExact(e, i + 1, p);
      if p != [] {
        FlattenExact(e.children[i], p[1..]);
      }
    }
  }

  // ---------------------------------------------------------------- resolving

  datatype Match = Match(path: Path, score: int)

  function Abs(n: int): int {
    if n < 0 then -n else n
  }

  function AreaDiff(target: Element, e: Element): int {
    Abs(e.bounds.Area() - target.bounds.Area())
  }

  /** The sort order: higher score first, then the area closer to the target's. */
  predicate Better(live: Element, target: Element, a: Match, b: Match)
    requires IsPath(live, a.path) && IsPath(live, b.path)
  {
    a.score > b.score
    || (a.score == b.score && AreaDiff(target, NodeAt(live, a.path)) < AreaDiff(target, NodeAt(live, b.path)))
  }

  lemma {:induction false} BestExists(live: Element, target: Element, ms: seq<Match>) returns (best: Match)
    requires ms != [] && forall m :: m in ms ==> IsPath(live, m.path)
    ensures best in ms && forall m :: m in ms ==> !Better(live, target, m, best)
  {
    hide AreaDiff, NodeAt, IsPath;
    best := ms[0];
    if |ms| == 1 {
    } else {
      assert forall m :: m in ms[1..] ==> m in ms;
      var b := BestExists(live, target, ms[1..]);
      if !Better(live, target, ms[0], b) {
        best := b;
      }
      assert forall m :: m in ms ==> m == ms[0] || m in ms[1..];
    }
  }

  /** `r` is a node of maximal score, at least 20; None means that every node scores below 20. */
  ghost predicate Resolves(live: Element, target: Node, anchor: Option<Anchor>, r: Option<Match>)
    requires IsPath(target.root, target.path)
  {
    match r
    case Some(m) =>
      && IsPath(live, m.path)
      && m.score == MatchScore(target, Node(live, m.path), anchor) >= 20
      && forall p: Path :: IsPath(live, p) ==>
           !Better(live, target.Get(), Match(p, MatchScore(target, Node(live, p), anchor)), m)
    case None =>
      forall p: Path :: IsPath(live, p) ==> MatchScore(target, Node(live, p), anchor) < 20
  }

  /** The scoring loop: the nodes with a positive score. */
  method ScoreAll(live: Element, target: Node, anchor: Option<Anchor>) returns (matches: seq<Match>)
    requires IsPath(target.root, target.path)
    ensures forall m :: m in matches <==>
              IsPath(live, m.path) && m.score == MatchScore(target, Node(live, m.path), anchor) && m.score > 0
  {
    hide IsPath, MatchScore, Flatten;
    var candidates := Flatten(live);
    forall p: Path
      ensures p in candidates <==> IsPath(live, p)
    {
      FlattenExact(live, p);
    }
    matches := [];
    for i := 0 to |candidates|
      invariant forall m :: m in matches <==>
                  m.path in candidates[..i] && IsPath(live, m.path)
                  && m.score == MatchScore(target, Node(live, m.path), anchor) && m.score > 0
    {
      assert candidates[..i + 1] == candidates[..i] + [candidates[i]];
      assert candidates[i] in candidates;
      var score := MatchScore(target, Node(live, candidates[i]), anchor);
      if score > 0 {
        matches := matches + [Match(candidates[i], score)];
      }
    }
    assert candidates[..|candidates|] == candidates;
  }

  /**
    `ResolveElement`; None stands for the error. `sort.Slice` is not stable, so the result
    is an arbitrary least element of the sort order. A nil tree or target is an error.
   */
  method ResolveElement(liveTree: Option<Element>, target: Option<Node>, anchor: Option<Anchor>)
    returns (r: Option<Match>)
    requires target.Some? ==> IsPath(target.value.root, target.value.path)
    ensures liveTree.None? || target.None? ==> r.None?
    ensures liveTree.Some? && target.Some? ==> Resolves(liveTree.value, target.value, anchor, r)
  {
    if liveTree.None? || target.None? {
      return None;
    }
    hide IsPath, MatchScore, AreaDiff;
    var live := liveTree.value;
    var matches := ScoreAll(live, target.value, anchor);
    if |matches| == 0 {
      forall p: Path | IsPath(live, p)
        ensures MatchScore(target.value, Node(live, p), anchor) < 20
      {
        assert Match(p, MatchScore(target.value, Node(live, p), anchor)) !in matches;
      }
      return None;
    }
    ghost var least := BestExists(live, target.value.Get(), matches);
    var best :| best in matches && forall m :: m in matches ==> !Better(live, target.value.Get(), m, best);
    forall p: Path | IsPath(live, p)
      ensures !Better(live, target.value.Get(), Match(p, MatchScore(target.value, Node(live, p), anchor)), best)
    {
      var m := Match(p, MatchScore(target.value, Node(live, p), anchor));
      if m.score > 0 {
        assert m in matches;
      }
    }
    if best.score < 20 {
      return None;
    }
    return Some(best);
  }

  /** A resolved node has the maximal score of the whole tree. */
  lemma ResolvedIsMaximal(live: Element, target: Node, anchor: Option<Anchor>, r: Option<Match>)
    requires IsPath(target.root, target.path) && Resolves(live, target, anchor, r)
    ensures r.None? <==> forall p: Path :: IsPath(live, p) ==> MatchScore(target, Node(live, p), anchor) < 20
    ensures r.Some? ==> forall p: Path :: IsPath(live, p) ==> MatchScore(target, Node(live, p), anchor) <= r.value.score
  {
    hide MatchScore, AreaDiff;
  }

  /** By how much the area of `e` misses that of the target. */
  function Miss(target: Element, e: Element): int {
    var a := (e.bounds.right - e.bounds.left) * (e.bounds.bottom - e.bounds.top);
    var b := (target.bounds.right - target.bounds.left) * (target.bounds.bottom - target.bounds.top);
    if a >= b then a - b else b - a
  }

  /** Among the nodes of the highest score the area of a resolved node is closest to the target's. */
  lemma ResolvedIsClosest(live: Element, target: Node, anchor: Option<Anchor>, m: Match, p: Path)
    requires IsPath(target.root, target.path) && Resolves(live, target, anchor, Some(m)) && IsPath(live, p)
    requires MatchScore(target, Node(live, p), anchor) == m.score
    ensures IsPath(live, m.path)
    ensures Miss(target.Get(), NodeAt(live, m.path)) <= Miss(target.Get(), NodeAt(live, p))
  {
    hide MatchScore, NodeAt, IsPath;
    assert !Better(live, target.Get(), Match(p, m.score), m);
  }

  // ---------------------------------------------------------------- what the surroundings decide

  /** What each recorded attribute is worth, and what a mismatch costs. */
  lemma OwnWeights(t: Element, c: Element)
    ensures OwnScore(t, c) == OwnScore(t.(resourceId := ""), c)
            + (if t.resourceId == "" then 0 else if IdMatches(t, c) then 100 else -50)
    ensures OwnScore(t, c) == OwnScore(t.(text := ""), c)
            + (if t.text == "" then 0 else if c.text == t.text then 80 else -50)
    ensures OwnScore(t, c) == OwnScore(t.(contentDesc := ""), c)
            + (if t.contentDesc == "" then 0 else if c.contentDesc == t.contentDesc then 80 else -50)
    ensures OwnScore(t, c) == OwnScore(t.(cls := ""), c) + (if t.cls != "" && c.cls == t.cls then 20 else 0)
    ensures t.resourceId == "" && t.text == "" && t.contentDesc == "" && t.cls == "" ==>
              OwnScore(t, c) == if c.bounds == t.bounds then 30 else 0
  {
  }

  /** A sibling is another child of the same parent: an only child has none. */
  lemma SiblingExact(n: Node, text: string)
    requires IsPath(n.root, n.path)
    ensures SiblingHas(n, text) <==>
            n.path != [] && IsPath(n.root, n.path[..|n.path| - 1])
            && var cs := NodeAt(n.root, n.path[..|n.path| - 1]).children;
               exists i :: 0 <= i < |cs| && i != n.path[|n.path| - 1] && cs[i].text == text
  {
    if n.path != [] {
      PrefixPath(n.root, n.path, |n.path| - 1);
      assert n.Parent() == Some(NodeAt(n.root, n.path[..|n.path| - 1]));
    }
    hide IsPath, NodeAt;
  }

  /** Siblings of the target, other than itself, whose text some sibling of the candidate has. */
  ghost function SharedFrom(target: Node, cand: Node, siblings: seq<Element>, i: nat): set<nat>
    requires IsPath(target.root, target.path) && target.path != [] && IsPath(cand.root, cand.path)
  {
    set k: nat | i <= k < |siblings| && k != target.path[|target.path| - 1] && siblings[k].text != ""
                 && SiblingHas(cand, siblings[k].text)
  }

  lemma {:induction false} SharedCount(target: Node, cand: Node, siblings: seq<Element>, i: nat)
    requires IsPath(target.root, target.path) && target.path != [] && IsPath(cand.root, cand.path)
    requires i <= |siblings|
    ensures SharedTexts(target, cand, siblings, i) == 50 * |SharedFrom(target, cand, siblings, i)|
    decreases |siblings| - i
  {
    hide IsPath, NodeAt, SiblingHas;
    var now := SharedFrom(target, cand, siblings, i);
    if i == |siblings| {
      assert now == {};
    } else {
      var later := SharedFrom(target, cand, siblings, i + 1);
      SharedCount(target, cand, siblings, i + 1);
      assert now == later || now == later + {i};
      assert i !in later;
      assert i in now <==> now == later + {i};
    }
  }

  /**
    Without an anchor the surroundings of a recorded element that is not a root are worth 50
    for each of its siblings whose text the candidate has beside it, and 30 for a parent of
    the same class; those of a root are worth nothing.
   */
  lemma ContextExact(target: Node, cand: Node)
    requires IsPath(target.root, target.path) && IsPath(cand.root, cand.path)
    ensures target.path == [] ==> ContextScore(target, cand) == 0
    ensures target.path != [] ==>
              && IsPath(target.root, target.path[..|target.path| - 1])
              && var parent := NodeAt(target.root, target.path[..|target.path| - 1]);
                 ContextScore(target, cand) ==
                 50 * |SharedFrom(target, cand, parent.children, 0)|
                 + (if cand.Parent().Some? && cand.Parent().value.cls == parent.cls then 30 else 0)
  {
    hide SharedTexts, SharedFrom, NodeAt, IsPath;
    if target.path != [] {
      PrefixPath(target.root, target.path, |target.path| - 1);
      SharedCount(target, cand, target.Parent().value.children, 0);
    }
  }

  /** With an anchor: 50 for the sibling text, 20 for the parent's class, 40 for its id. */
  lemma AnchorExact(cand: Node, a: Anchor)
    requires IsPath(cand.root, cand.path)
    ensures AnchorScore(cand, a) ==
            (if a.siblingText != "" && SiblingHas(cand, a.siblingText) then 50 else 0)
            + (if cand.Parent().None? then 0
               else
                 var parent := cand.Parent().value;
                 (if a.parentClass != "" && parent.cls == a.parentClass then 20 else 0)
                 + (if a.parentId != "" && SameId(a.parentId, parent.resourceId) then 40 else 0))
  {
    hide SiblingHas;
  }

  // ---------------------------------------------------------------- an unchanged screen

  lemma {:induction false} OwnTextsShared(target: Node, cand: Node, siblings: seq<Element>, i: nat)
    requires IsPath(target.root, target.path) && target.path != [] && IsPath(cand.root, cand.path)
    requires siblings == target.Parent().value.children && i <= |siblings|
    ensures SharedTexts(target, cand, siblings, i) <= SharedTexts(target, target, siblings, i)
    decreases |siblings| - i
  {
    hide IsPath, NodeAt;
    if i == |siblings| {
    } else {
      OwnTextsShared(target, cand, siblings, i + 1);
      if i != target.path[|target.path| - 1] {
        assert SiblingHas(target, siblings[i].text);
      }
    }
  }

  /** Nothing scores higher against a recorded element than the element itself. */
  lemma SelfIsMaximal(target: Node, cand: Node)
    requires IsPath(target.root, target.path) && IsPath(cand.root, cand.path)
    ensures MatchScore(target, cand, None) <= MatchScore(target, target, None)
    ensures MatchScore(target, target, None) >= 30
    ensures MatchScore(target, cand, None) == MatchScore(target, target, None) ==>
              && cand.Get().bounds == target.Get().bounds
              && (target.Get().text != "" ==> cand.Get().text == target.Get().text)
              && (target.Get().contentDesc != "" ==> cand.Get().contentDesc == target.Get().contentDesc)
              && (target.Get().resourceId != "" ==> IdMatches(target.Get(), cand.Get()))
              && (target.Get().cls != "" ==> cand.Get().cls == target.Get().cls)
  {
    hide IsPath, NodeAt, SharedTexts;
    if target.path != [] {
      OwnTextsShared(target, cand, target.Parent().value.children, 0);
      OwnTextsNonNegative(target, target, target.Parent().value.children, 0);
    }
  }

  lemma {:induction false} OwnTextsNonNegative(target: Node, cand: Node, siblings: seq<Element>, i: nat)
    requires IsPath(target.root, target.path) && target.path != [] && IsPath(cand.root, cand.path)
    requires i <= |siblings|
    ensures SharedTexts(target, cand, siblings, i) >= 0
    decreases |siblings| - i
  {
    hide IsPath, NodeAt, SiblingHas;
    if i == |siblings| {
    } else {
      OwnTextsNonNegative(target, cand, siblings, i + 1);
    }
  }

  /**
    Resolving a recorded element in the tree it was recorded from always succeeds, with a
    node of the same bounds that agrees with it in every recorded attribute.
   */
  lemma UnchangedTreeResolves(live: Element, p: Path, r: Option<Match>)
    requires IsPath(live, p) && Resolves(live, Node(live, p), None, r)
    ensures r.Some? && IsPath(live, r.value.path)
    ensures r.value.score == MatchScore(Node(live, p), Node(live, p), None)
    ensures var t, e := NodeAt(live, p), NodeAt(live, r.value.path);
            && e.bounds == t.bounds
            && (t.text != "" ==> e.text == t.text)
            && (t.contentDesc != "" ==> e.contentDesc == t.contentDesc)
            && (t.resourceId != "" ==> IdMatches(t, e))
            && (t.cls != "" ==> e.cls == t.cls)
  {
    hide MatchScore, AreaDiff, NodeAt, IdMatches;
    var t := Node(live, p);
    SelfIsMaximal(t, t);
    if r.Some? {
      SelfIsMaximal(t, Node(live, r.value.path));
    }
  }

  /** Some outcome of `ResolveElement` always exists. */
  lemma ResolvesExists(live: Element, target: Node, anchor: Option<Anchor>) returns (r: Option<Match>)
    requires IsPath(target.root, target.path)
    ensures Resolves(live, target, anchor, r)
  {
    hide IsPath, MatchScore, AreaDiff;
    var paths := Flatten(live);
    forall p: Path
      ensures p in paths <==> IsPath(live, p)
    {
      FlattenExact(live, p);
    }
    assert forall i :: 0 <= i < |paths| ==> paths[i] in paths;
    var ms := seq(|paths|, i requires 0 <= i < |paths| =>
      Match(paths[i], MatchScore(target, Node(live, paths[i]), anchor)));
    assert |ms| > 0;
    forall m | m in ms
      ensures IsPath(live, m.path) && m.score == MatchScore(target, Node(live, m.path), anchor)
    {
      var i :| 0 <= i < |ms| && ms[i] == m;
    }
    var best := BestExists(live, target.Get(), ms);
    forall p: Path | IsPath(live, p)
      ensures !Better(live, target.Get(), Match(p, MatchScore(target, Node(live, p), anchor)), best)
    {
      var i :| 0 <= i < |paths| && paths[i] == p;
      assert ms[i] in ms;
    }
    r := if best.score >= 20 then Some(best) else None;
  }
}
