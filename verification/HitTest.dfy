/**
  Finding the element under a tap: `FindBestElementAt` and `ScoreActionableNode` of
  internal/automation/locator/locator_scoring.go.
 */
module HitTest {
  import opened Common
  import opened UiTree
  import XPath

  // ---------------------------------------------------------------- scoring

  const SCROLL_CONTAINERS: seq<string> := [
    "androidx.recyclerview.widget.RecyclerView", "android.widget.ListView", "android.widget.GridView",
    "android.widget.ScrollView", "android.widget.HorizontalScrollView",
    "androidx.viewpager.widget.ViewPager", "androidx.viewpager2.widget.ViewPager2"]

  const CONTAINERS: seq<string> := [
    "android.widget.FrameLayout", "android.widget.LinearLayout", "android.widget.RelativeLayout",
    "android.view.ViewGroup", "android.view.View", "androidx.recyclerview.widget.RecyclerView",
    "android.widget.ScrollView", "android.widget.HorizontalScrollView", "android.widget.ListView",
    "androidx.viewpager.widget.ViewPager", "androidx.viewpager2.widget.ViewPager2",
    "androidx.constraintlayout.widget.ConstraintLayout",
    "androidx.coordinatorlayout.widget.CoordinatorLayout",
    "androidx.appcompat.widget.LinearLayoutCompat", "android.widget.GridLayout",
    "android.widget.TableLayout", "android.widget.TableRow"]

  predicate IsScrollContainerClass(cls: string) {
    exists c :: c in SCROLL_CONTAINERS && (cls == c || XPath.HasSuffix(cls, c))
  }

  predicate IsContainerClass(cls: string) {
    exists c :: c in CONTAINERS && (cls == c || XPath.HasSuffix(cls, c))
  }

  function ClassBonus(cls: string): int {
    if cls in {"android.widget.Button", "android.widget.ImageButton", "android.widget.Switch",
               "android.widget.ToggleButton"} then 30
    else if cls in {"android.widget.CheckBox", "android.widget.RadioButton", "android.widget.EditText"} then 25
    else if cls == "android.widget.TextView" then 10
    else if cls == "android.widget.ImageView" then 5
    else 0
  }

  /** The screen area is computed in Go's 32-bit arithmetic. */
  function Int32(n: int): int {
    (n + 0x8000_0000) % 0x1_0000_0000 - 0x8000_0000
  }

  /** `area / screen > num / den` for a positive area; a zero screen divides to +Inf. */
  predicate Exceeds(area: int, screen: int, num: int, den: int) {
    screen == 0 || (screen > 0 && area * den > screen * num)
  }

  function AreaPenalty(area: int, width: int, height: int): int {
    if width <= 0 || height <= 0 || area <= 0 then 0
    else
      var screen := Int32(width * height);
      if Exceeds(area, screen, 1, 2) then 150
      else if Exceeds(area, screen, 1, 5) then 80
      else if Exceeds(area, screen, 1, 20) then 30
      else 0
  }

  function Score(e: Element, width: int, height: int): int {
    (if e.clickable then 100 else 0) + (if e.enabled then 50 else 0)
    + (if e.resourceId != "" then 20 else 0) + (if e.text != "" then 15 else 0)
    + (if e.contentDesc != "" then 15 else 0) + ClassBonus(e.cls)
    - (if IsScrollContainerClass(e.cls) then 200
       else if IsContainerClass(e.cls) then 80
       else if e.cls == "android.view.View" then 120 else 0)
    - AreaPenalty(e.bounds.Area(), width, height)
  }

  /**
    An enabled, clickable element that is no container and covers at most half the screen
    outranks every scrolling container.
   */
  lemma ScrollContainersLose(a: Element, b: Element, width: int, height: int)
    requires a.clickable && a.enabled && !IsScrollContainerClass(a.cls) && !IsContainerClass(a.cls)
    requires a.cls != "android.view.View"
    requires width > 0 && height > 0 && 0 < Int32(width * height) && 2 * a.bounds.Area() <= Int32(width * height)
    requires IsScrollContainerClass(b.cls)
    ensures Score(a, width, height) > Score(b, width, height)
  {
    hide IsScrollContainerClass, IsContainerClass, Int32;
    assert ClassBonus(b.cls) <= 30 && ClassBonus(a.cls) >= 0;
    assert AreaPenalty(a.bounds.Area(), width, height) <= 80;
    assert AreaPenalty(b.bounds.Area(), width, height) >= 0;
  }

  /** A class that is, or ends in, the name. */
  predicate Named(cls: string, name: string) {
    |name| <= |cls| && cls[|cls| - |name|..] == name
  }

  lemma ScrollContainersExact(cls: string)
    ensures IsScrollContainerClass(cls)
            <==> exists k :: 0 <= k < |SCROLL_CONTAINERS| && Named(cls, SCROLL_CONTAINERS[k])
  {
    if c :| c in SCROLL_CONTAINERS && (cls == c || XPath.HasSuffix(cls, c)) {
      var k :| 0 <= k < |SCROLL_CONTAINERS| && SCROLL_CONTAINERS[k] == c;
      assert Named(cls, SCROLL_CONTAINERS[k]);
    }
    if k :| 0 <= k < |SCROLL_CONTAINERS| && Named(cls, SCROLL_CONTAINERS[k]) {
      assert SCROLL_CONTAINERS[k] in SCROLL_CONTAINERS && XPath.HasSuffix(cls, SCROLL_CONTAINERS[k]);
    }
  }

  lemma ContainersExact(cls: string)
    ensures IsContainerClass(cls) <==> exists k :: 0 <= k < |CONTAINERS| && Named(cls, CONTAINERS[k])
  {
    if c :| c in CONTAINERS && (cls == c || XPath.HasSuffix(cls, c)) {
      var k :| 0 <= k < |CONTAINERS| && CONTAINERS[k] == c;
      assert Named(cls, CONTAINERS[k]);
    }
    if k :| 0 <= k < |CONTAINERS| && Named(cls, CONTAINERS[k]) {
      assert CONTAINERS[k] in CONTAINERS && XPath.HasSuffix(cls, CONTAINERS[k]);
    }
  }

  /** The names on the two lists. */
  lemma ContainerNames()
    ensures SCROLL_CONTAINERS == [
              "androidx.recyclerview.widget.RecyclerView", "android.widget.ListView", "android.widget.GridView",
              "android.widget.ScrollView", "android.widget.HorizontalScrollView",
              "androidx.viewpager.widget.ViewPager", "androidx.viewpager2.widget.ViewPager2"]
    ensures CONTAINERS == [
              "android.widget.FrameLayout", "android.widget.LinearLayout", "android.widget.RelativeLayout",
              "android.view.ViewGroup", "android.view.View", "androidx.recyclerview.widget.RecyclerView",
              "android.widget.ScrollView", "android.widget.HorizontalScrollView", "android.widget.ListView",
              "androidx.viewpager.widget.ViewPager", "androidx.viewpager2.widget.ViewPager2",
              "androidx.constraintlayout.widget.ConstraintLayout",
              "androidx.coordinatorlayout.widget.CoordinatorLayout",
              "androidx.appcompat.widget.LinearLayoutCompat", "android.widget.GridLayout",
              "android.widget.TableLayout", "android.widget.TableRow"]
  {
  }

  function AttributePoints(e: Element): int {
    (if e.clickable then 100 else 0) + (if e.enabled then 50 else 0)
    + (if e.resourceId != "" then 20 else 0) + (if e.text != "" then 15 else 0)
    + (if e.contentDesc != "" then 15 else 0)
  }

  /** The part of the score that the class decides. */
  function ClassPoints(cls: string): int {
    ClassBonus(cls)
    - (if IsScrollContainerClass(cls) then 200
       else if IsContainerClass(cls) then 80
       else if cls == "android.view.View" then 120 else 0)
  }

  lemma ScoreParts(e: Element, width: int, height: int)
    ensures Score(e, width, height) ==
            AttributePoints(e) + ClassPoints(e.cls) - AreaPenalty(e.bounds.Area(), width, height)
  {
    hide IsScrollContainerClass, IsContainerClass, ClassBonus, AreaPenalty;
  }

  /** What a flag is worth, whatever the rest of the element is. */
  lemma FlagWeights(e: Element, width: int, height: int)
    ensures Score(e.(clickable := true), width, height) == Score(e.(clickable := false), width, height) + 100
    ensures Score(e.(enabled := true), width, height) == Score(e.(enabled := false), width, height) + 50
    ensures Score(e.(focusable := true), width, height) == Score(e.(focusable := false), width, height)
  {
    hide Score, ClassPoints, AreaPenalty;
    ScoreParts(e.(clickable := true), width, height);
    ScoreParts(e.(clickable := false), width, height);
    ScoreParts(e.(enabled := true), width, height);
    ScoreParts(e.(enabled := false), width, height);
    ScoreParts(e.(focusable := true), width, height);
    ScoreParts(e.(focusable := false), width, height);
  }

  /** What an id, a text and a description are worth. */
  lemma TextWeights(e: Element, width: int, height: int, some: string)
    requires some != ""
    ensures Score(e.(resourceId := some), width, height) == Score(e.(resourceId := ""), width, height) + 20
    ensures Score(e.(text := some), width, height) == Score(e.(text := ""), width, height) + 15
    ensures Score(e.(contentDesc := some), width, height) == Score(e.(contentDesc := ""), width, height) + 15
  {
    hide Score, ClassPoints, AreaPenalty;
    ScoreParts(e.(resourceId := some), width, height);
    ScoreParts(e.(resourceId := ""), width, height);
    ScoreParts(e.(text := some), width, height);
    ScoreParts(e.(text := ""), width, height);
    ScoreParts(e.(contentDesc := some), width, height);
    ScoreParts(e.(contentDesc := ""), width, height);
  }

  /** What the class is worth, compared with another class: its bonus, or its penalty as a container. */
  lemma ClassWeights(e: Element, other: string, width: int, height: int)
    ensures Score(e, width, height) - Score(e.(cls := other), width, height) == ClassPoints(e.cls) - ClassPoints(other)
  {
    hide Score, ClassPoints, AreaPenalty;
    ScoreParts(e, width, height);
    ScoreParts(e.(cls := other), width, height);
  }

  const BUTTONS: set<string> :=
    {"android.widget.Button", "android.widget.ImageButton", "android.widget.Switch", "android.widget.ToggleButton"}
  const BOXES: set<string> :=
    {"android.widget.CheckBox", "android.widget.RadioButton", "android.widget.EditText"}
  const VIEWS: set<string> := {"android.widget.TextView", "android.widget.ImageView"}

  function ContainerPenalty(cls: string): int {
    if IsScrollContainerClass(cls) then 200 else if IsContainerClass(cls) then 80 else 0
  }

  /** The points of each class; the container list names the plain view, whose own penalty is never charged. */
  lemma ClassPointsExact(cls: string)
    ensures var bonus := ClassPoints(cls) + ContainerPenalty(cls);
            && (cls in BUTTONS ==> bonus == 30)
            && (cls in BOXES ==> bonus == 25)
            && (cls == "android.widget.TextView" ==> bonus == 10)
            && (cls == "android.widget.ImageView" ==> bonus == 5)
            && (cls !in BUTTONS + BOXES + VIEWS ==> bonus == 0)
  {
    hide IsScrollContainerClass, IsContainerClass;
    ViewIsContainer();
  }

  lemma ViewIsContainer()
    ensures IsContainerClass("android.view.View")
  {
    assert CONTAINERS[4] in CONTAINERS;
  }

  /** A covered part of the screen costs 150 above a half, 80 above a fifth, 30 above a twentieth. */
  lemma PenaltyExact(area: int, width: int, height: int)
    requires width * height < 0x8000_0000
    ensures width <= 0 || height <= 0 || area <= 0 ==> AreaPenalty(area, width, height) == 0
    ensures width > 0 && height > 0 && area > 0 ==>
              AreaPenalty(area, width, height) ==
              if 2 * area > width * height then 150
              else if 5 * area > width * height then 80
              else if 20 * area > width * height then 30 else 0
  {
    if width > 0 && height > 0 {
      var screen := width * height;
      assert screen > 0;
      assert Int32(screen) == screen;
    }
  }

  /** The screen area wraps around at 32 bits; a screen area of 0 counts as all covered, a negative one as none. */
  lemma WrappedPenalty(area: int, width: int, height: int)
    requires width > 0 && height > 0 && area > 0
    ensures -0x8000_0000 <= Int32(width * height) < 0x8000_0000
    ensures (width * height - Int32(width * height)) % 0x1_0000_0000 == 0
    ensures Int32(width * height) == 0 ==> AreaPenalty(area, width, height) == 150
    ensures Int32(width * height) < 0 ==> AreaPenalty(area, width, height) == 0
  {
  }

  /** What the size of an element is worth, against one without bounds. */
  lemma SizeWeights(e: Element, width: int, height: int)
    ensures var area := (e.bounds.right - e.bounds.left) * (e.bounds.bottom - e.bounds.top);
            Score(e, width, height) == Score(e.(bounds := NO_BOUNDS), width, height) - AreaPenalty(area, width, height)
  {
    hide Score, ClassPoints;
    ScoreParts(e, width, height);
    ScoreParts(e.(bounds := NO_BOUNDS), width, height);
    assert NO_BOUNDS.Area() == 0 && AreaPenalty(0, width, height) == 0;
    hide AreaPenalty;
  }

  // ---------------------------------------------------------------- hits

  /** The point lies in the node at `p` and in every node above it. */
  predicate PathHit(e: Element, p: Path, x: int, y: int)
    requires IsPath(e, p)
  {
    e.bounds.Contains(x, y) && (p == [] || PathHit(e.children[p[0]], p[1..], x, y))
  }

  /** The pre-order walk that turns back at nodes missing the point. */
  function Hits(e: Element, x: int, y: int): seq<Path>
    decreases e, |e.children| + 2
  {
    if e.bounds.Contains(x, y) then [[]] + HitsBelow(e, e.children, 0, x, y) else []
  }

  function HitsBelow(e: Element, children: seq<Element>, i: nat, x: int, y: int): seq<Path>
    requires children == e.children && i <= |children|
    decreases e, |children| - i + 1
  {
    if i == |children| then []
    else Prefixed(i, Hits(children[i], x, y)) + HitsBelow(e, children, i + 1, x, y)
  }

  lemma {:induction false} HitsExact(e: Element, x: int, y: int, p: Path)
    ensures p in Hits(e, x, y) <==> IsPath(e, p) && PathHit(e, p, x, y)
    decreases e, |e.children| + 2
  {
    if e.bounds.Contains(x, y) {
      HitsBelowExact(e, 0, x, y, p);
    }
  }

  lemma {:induction false} HitsBelowExact(e: Element, i: nat, x: int, y: int, p: Path)
    requires i <= |e.children|
    ensures p in HitsBelow(e, e.children, i, x, y)
            <==> p != [] && i <= p[0] < |e.children| && IsPath(e.children[p[0]], p[1..])
                 && PathHit(e.children[p[0]], p[1..], x, y)
    decreases e, |e.children| - i + 1
  {
    if i == |e.children| {
    } else {
      InPrefixed(i, Hits(e.children[i], x, y), p);
      HitsBelowExact(e, i + 1, x, y, p);
      if p != [] {
        HitsExact(e.children[i], x, y, p[1..]);
      }
    }
  }

  lemma {:induction false} PrefixHit(e: Element, p: Path, k: nat, x: int, y: int)
    requires IsPath(e, p) && PathHit(e, p, x, y) && k <= |p|
    ensures IsPath(e, p[..k]) && PathHit(e, p[..k], x, y)
  {
    if k == 0 {
    } else {
      PrefixHit(e.children[p[0]], p[1..], k - 1, x, y);
      assert p[..k][1..] == p[1..][..k - 1];
    }
  }

  lemma {:induction false} HitContains(e: Element, p: Path, x: int, y: int)
    requires IsPath(e, p) && PathHit(e, p, x, y)
    ensures NodeAt(e, p).bounds.Contains(x, y)
  {
    if p == [] {
    } else {
      HitContains(e.children[p[0]], p[1..], x, y);
    }
  }

  // ---------------------------------------------------------------- actionable nodes

  function ParentOf(p: Path): Path
    requires p != []
  {
    p[..|p| - 1]
  }

  /** Clickable, focusable, long-clickable, or a direct child of a scrolling container. */
  predicate Actionable(root: Element, p: Path)
    requires IsPath(root, p)
  {
    var e := NodeAt(root, p);
    e.clickable || e.focusable || e.longClickable || ListItem(root, p)
  }

  predicate ListItem(root: Element, p: Path)
    requires IsPath(root, p)
  {
    p != [] && (PrefixPath(root, p, |p| - 1); IsScrollContainerClass(NodeAt(root, ParentOf(p)).cls))
  }

  /** The nearest actionable node at or above `p`. */
  function Nearest(root: Element, p: Path): Option<Path>
    requires IsPath(root, p)
    decreases |p|
  {
    if Actionable(root, p) then Some(p)
    else if p == [] then None
    else (PrefixPath(root, p, |p| - 1); Nearest(root, ParentOf(p)))
  }

  lemma {:induction false} NearestIsAbove(root: Element, p: Path, x: int, y: int)
    requires IsPath(root, p) && PathHit(root, p, x, y)
    ensures Nearest(root, p).Some? ==>
              var q := Nearest(root, p).value;
              IsPath(root, q) && PathHit(root, q, x, y) && Actionable(root, q)
    decreases |p|
  {
    hide PathHit;
    if Actionable(root, p) || p == [] {
    } else {
      PrefixHit(root, p, |p| - 1, x, y);
      NearestIsAbove(root, ParentOf(p), x, y);
    }
  }

  /** The nearest actionable node is at or above `p`, with none between it and `p`, if there is one at all. */
  lemma {:induction false} NearestExact(root: Element, p: Path)
    requires IsPath(root, p)
    ensures forall k :: 0 <= k <= |p| ==> IsPath(root, p[..k])
    ensures match Nearest(root, p)
            case Some(q) =>
              q <= p && IsPath(root, q) && Actionable(root, q)
              && forall k :: |q| < k <= |p| ==> !Actionable(root, p[..k])
            case None => forall k :: 0 <= k <= |p| ==> !Actionable(root, p[..k])
    decreases |p|
  {
    hide Actionable, IsPath;
    assert p[..|p|] == p;
    if p == [] {
    } else {
      var up := ParentOf(p);
      PrefixPath(root, p, |p| - 1);
      NearestExact(root, up);
      assert forall k :: 0 <= k < |p| ==> up[..k] == p[..k];
    }
  }

  /** The upward walk from one candidate. */
  method WalkUp(root: Element, cand: Path) returns (r: Option<Path>)
    requires IsPath(root, cand)
    ensures r == Nearest(root, cand)
  {
    hide Actionable;
    var curr := cand;
    while true
      invariant IsPath(root, curr) && Nearest(root, curr) == Nearest(root, cand)
      decreases |curr|
    {
      if Actionable(root, curr) {
        return Some(curr);
      }
      if curr == [] {
        return None;
      }
      PrefixPath(root, curr, |curr| - 1);
      curr := ParentOf(curr);
    }
  }

  /** The node is the nearest actionable one of some candidate. */
  ghost predicate NearestOfSome(root: Element, candidates: seq<Path>, q: Path)
    requires forall c :: c in candidates ==> IsPath(root, c)
  {
    exists c :: c in candidates && Nearest(root, c) == Some(q)
  }

  /** The loop over the candidates: the nearest actionable node of each, once. */
  method CollectActionable(root: Element, candidates: seq<Path>) returns (found: seq<Path>)
    requires forall c :: c in candidates ==> IsPath(root, c)
    ensures forall q :: q in found <==> NearestOfSome(root, candidates, q)
    ensures forall i, j :: 0 <= i < j < |found| ==> found[i] != found[j]
  {
    hide Nearest, IsPath;
    found := [];
    var seen: set<Path> := {};
    for i := 0 to |candidates|
      invariant seen == set q | q in found
      invariant forall q :: q in found <==> exists c :: c in candidates[..i] && Nearest(root, c) == Some(q)
      invariant forall j, k :: 0 <= j < k < |found| ==> found[j] != found[k]
    {
      var c := candidates[i];
      assert c in candidates;
      assert candidates[..i + 1] == candidates[..i] + [c];
      var r := WalkUp(root, c);
      if r.Some? && r.value !in seen {
        seen := seen + {r.value};
        found := found + [r.value];
      }
    }
    assert candidates[..|candidates|] == candidates;
  }

  /** On the XML: a node is actionable by one of three attributes, or as child of a scroll container. */
  lemma ActionableExact(root: XmlNode, p: Path)
    requires IsXmlPath(root, p)
    ensures IsPath(Convert(root), p)
    ensures Actionable(Convert(root), p) <==>
            var n := XmlAt(root, p);
            || n.clickable == "true" || n.focusable == "true" || n.longClickable == "true"
            || (p != [] && IsXmlPath(root, p[..|p| - 1]) && IsScrollContainerClass(XmlAt(root, p[..|p| - 1]).cls))
  {
    hide IsScrollContainerClass;
    ConvertAt(root, p);
    ConvertFields(XmlAt(root, p));
    if p != [] {
      PrefixPath(Convert(root), p, |p| - 1);
      ConvertAt(root, p[..|p| - 1]);
      ConvertFields(XmlAt(root, p[..|p| - 1]));
    }
  }

  /** The nodes under the point, on the XML: it and all nodes above it contain the point, edges included. */
  lemma {:induction false} HitExact(root: XmlNode, p: Path, x: int, y: int)
    requires IsXmlPath(root, p)
    ensures IsPath(Convert(root), p)
    ensures PathHit(Convert(root), p, x, y) <==>
            && root.bounds.left <= x <= root.bounds.right && root.bounds.top <= y <= root.bounds.bottom
            && (p == [] ||
                (IsPath(Convert(root.nodes[p[0]]), p[1..]) && PathHit(Convert(root.nodes[p[0]]), p[1..], x, y)))
  {
    ConvertAt(root, p);
    ConvertFields(root);
    if p != [] {
      ConvertAt(root.nodes[p[0]], p[1..]);
    }
  }

  // ---------------------------------------------------------------- the best element

  /** The sort order: higher score first, then smaller area. */
  predicate Better(a: Element, b: Element, width: int, height: int) {
    Score(a, width, height) > Score(b, width, height)
    || (Score(a, width, height) == Score(b, width, height) && a.bounds.Area() < b.bounds.Area())
  }

  lemma NotBetter(b: Element, a: Element, width: int, height: int)
    requires !Better(b, a, width, height)
    ensures Score(a, width, height) > Score(b, width, height)
            || (Score(a, width, height) == Score(b, width, height) && AreaOf(a) <= AreaOf(b))
  {
    hide Score;
  }

  /** Go truncates toward zero. */
  function Trunc(r: real): int {
    if r >= 0.0 then r.Floor else -(-r).Floor
  }

  function AreaOf(e: Element): int {
    (e.bounds.right - e.bounds.left) * (e.bounds.bottom - e.bounds.top)
  }

  /** The pixel is the scaled position cut off toward zero. */
  lemma TruncExact(r: real)
    ensures r >= 0.0 ==> 0 <= Trunc(r) && Trunc(r) as real <= r < (Trunc(r) + 1) as real
    ensures r < 0.0 ==> Trunc(r) <= 0 && (Trunc(r) - 1) as real < r <= Trunc(r) as real
  {
  }

  /** The nodes `FindBestElementAt` chooses from: the actionable hits, or all hits if there are none. */
  ghost predicate InPool(root: Element, p: Path, x: int, y: int) {
    && IsPath(root, p) && PathHit(root, p, x, y)
    && (Actionable(root, p) || forall q :: IsPath(root, q) && PathHit(root, q, x, y) ==> !Actionable(root, q))
  }

  lemma {:induction false} BestExists(root: Element, ps: seq<Path>, width: int, height: int) returns (best: Path)
    requires ps != [] && forall p :: p in ps ==> IsPath(root, p)
    ensures best in ps && forall q :: q in ps ==> !Better(NodeAt(root, q), NodeAt(root, best), width, height)
  {
    hide Score, NodeAt, IsPath;
    best := ps[0];
    if |ps| == 1 {
    } else {
      assert forall p :: p in ps[1..] ==> p in ps;
      var b := BestExists(root, ps[1..], width, height);
      if !Better(NodeAt(root, ps[0]), NodeAt(root, b), width, height) {
        best := b;
      }
      assert forall q :: q in ps ==> q == ps[0] || q in ps[1..];
    }
  }

  /** The candidates after the upward walks are exactly the pool. */
  lemma PoolExact(root: Element, x: int, y: int, found: seq<Path>, pool: seq<Path>)
    requires forall c :: c in Hits(root, x, y) ==> IsPath(root, c)
    requires forall q :: q in found <==> NearestOfSome(root, Hits(root, x, y), q)
    requires pool == if found == [] then Hits(root, x, y) else found
    ensures forall q :: q in pool <==> InPool(root, q, x, y)
  {
    hide Hits, PathHit, Actionable, IsPath;
    forall q: Path
      ensures q in Hits(root, x, y) <==> IsPath(root, q) && PathHit(root, q, x, y)
    {
      HitsExact(root, x, y, q);
    }
    forall q: Path
      ensures q in found <==> IsPath(root, q) && PathHit(root, q, x, y) && Actionable(root, q)
    {
      if q in found {
        var c :| c in Hits(root, x, y) && Nearest(root, c) == Some(q);
        NearestIsAbove(root, c, x, y);
      }
      if IsPath(root, q) && PathHit(root, q, x, y) && Actionable(root, q) {
        assert Nearest(root, q) == Some(q);
      }
    }
    if found == [] {
      assert forall q: Path :: IsPath(root, q) && PathHit(root, q, x, y) ==> !Actionable(root, q);
    } else {
      assert found[0] in found;
    }
  }

  /**
    `FindBestElementAt`. `sort.Slice` is not stable, so among equals any element may come
    first: the result is an arbitrary least element of the sort order.
   */
  method FindBestElementAt(root: Element, x: real, y: real, width: int, height: int) returns (best: Option<Path>)
    ensures var px, py := Trunc(x * width as real), Trunc(y * height as real);
            && (best.None? <==>
                  px < root.bounds.left || px > root.bounds.right || py < root.bounds.top || py > root.bounds.bottom)
            && (best.Some? ==>
                  && InPool(root, best.value, px, py)
                  && NodeAt(root, best.value).bounds.Contains(px, py)
                  && forall q :: InPool(root, q, px, py) ==>
                       var a, b := NodeAt(root, best.value), NodeAt(root, q);
                       || Score(a, width, height) > Score(b, width, height)
                       || (Score(a, width, height) == Score(b, width, height) && AreaOf(a) <= AreaOf(b)))
  {
    var px, py := Trunc(x * width as real), Trunc(y * height as real);
    var candidates := Hits(root, px, py);
    assert candidates == [] <==> !root.bounds.Contains(px, py);
    if |candidates| == 0 {
      return None;
    }
    hide Hits, PathHit, Actionable, IsPath, Better, NearestOfSome;
    forall c | c in candidates
      ensures IsPath(root, c)
    {
      HitsExact(root, px, py, c);
    }
    var pool := CollectActionable(root, candidates);
    ghost var found := pool;
    if |pool| == 0 {
      pool := candidates;
    }
    PoolExact(root, px, py, found, pool);
    assert forall q :: q in pool ==> InPool(root, q, px, py);
    assert |pool| > 0;
    ghost var least := BestExists(root, pool, width, height);
    var b :| b in pool && forall q :: q in pool ==> !Better(NodeAt(root, q), NodeAt(root, b), width, height);
    assert InPool(root, b, px, py);
    HitContains(root, b, px, py);
    forall q | InPool(root, q, px, py)
      ensures Score(NodeAt(root, b), width, height) > Score(NodeAt(root, q), width, height)
              || (Score(NodeAt(root, b), width, height) == Score(NodeAt(root, q), width, height)
                  && AreaOf(NodeAt(root, b)) <= AreaOf(NodeAt(root, q)))
    {
      NotBetter(NodeAt(root, q), NodeAt(root, b), width, height);
    }
    return Some(b);
  }
}
