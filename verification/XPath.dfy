/**
  XPaths: `buildXPathForElement` of internal/automation/locator/locator_scoring.go prints
  the indexed path of an element, and `EvaluateXPath` in
  internal/automation/locator/locator_xpath.go walks it back to a node, or searches the
  whole hierarchy for the nodes of a class with an attribute.
 */
module XPath {
  import opened Common
  import opened UiTree

  const BEFORE: string := "node[@index='"
  const AFTER: string := "']"
  const ROOT: string := "/hierarchy/"

  // ---------------------------------------------------------------- strings

  predicate HasPrefix(s: string, p: string) {
    |p| <= |s| && s[..|p|] == p
  }

  predicate HasSuffix(s: string, p: string) {
    |p| <= |s| && s[|s| - |p|..] == p
  }

  /** What `unicode.IsSpace` accepts. */
  const SPACES: set<char> :=
    {'\t', '\n', '\U{0b}', '\U{0c}', '\r', ' ', '\U{85}', '\U{a0}', '\U{1680}', '\U{2028}', '\U{2029}', '\U{202f}',
     '\U{205f}', '\U{3000}', '\U{2000}', '\U{2001}', '\U{2002}', '\U{2003}', '\U{2004}', '\U{2005}', '\U{2006}',
     '\U{2007}', '\U{2008}', '\U{2009}', '\U{200a}'}

  function TrimLeft(s: string, cutset: set<char>): string {
    if s != "" && s[0] in cutset then TrimLeft(s[1..], cutset) else s
  }

  function TrimRight(s: string, cutset: set<char>): string {
    if s != "" && s[|s| - 1] in cutset then TrimRight(s[..|s| - 1], cutset) else s
  }

  /** `strings.Trim`. */
  function Trim(s: string, cutset: set<char>): string {
    TrimRight(TrimLeft(s, cutset), cutset)
  }

  function TrimSpace(s: string): string {
    Trim(s, SPACES)
  }

  /** `strings.Index` for one character. */
  function First(s: string, c: char): (r: Option<nat>)
    ensures r.None? <==> c !in s
    ensures r.Some? ==> r.value < |s| && s[r.value] == c && c !in s[..r.value]
  {
    if s == "" then None
    else if s[0] == c then Some(0)
    else
      var k :- First(s[1..], c);
      assert s[..k + 1] == [s[0]] + s[1..][..k];
      Some(k + 1)
  }

  /** `strings.LastIndex` for one character. */
  function Last(s: string, c: char): (r: Option<nat>)
    ensures r.None? <==> c !in s
    ensures r.Some? ==> r.value < |s| && s[r.value] == c && c !in s[r.value + 1..]
  {
    if s == "" then None
    else if s[|s| - 1] == c then Some(|s| - 1)
    else
      var k :- Last(s[..|s| - 1], c);
      assert s[k + 1..] == s[..|s| - 1][k + 1..] + [s[|s| - 1]];
      Some(k)
  }

  /** `strings.Contains`. */
  predicate Contains(s: string, part: string) {
    HasPrefix(s, part) || (s != "" && Contains(s[1..], part))
  }

  /** `strings.Split(s, "/")`. */
  function Split(s: string): (parts: seq<string>)
    ensures parts != []
  {
    if s == "" then [""]
    else
      var rest := Split(s[1..]);
      if s[0] == '/' then [""] + rest else [[s[0]] + rest[0]] + rest[1..]
  }

  /** `strings.Join(parts, "/")`. */
  function Join(parts: seq<string>): string {
    if parts == [] then "" else if |parts| == 1 then parts[0] else parts[0] + ("/" + Join(parts[1..]))
  }

  lemma {:induction false} SplitAtSlash(a: string, b: string)
    ensures Split(a + ("/" + b)) == Split(a) + Split(b)
  {
    if a == "" {
      assert a + ("/" + b) == "/" + b;
      assert ("/" + b)[1..] == b;
    } else {
      assert (a + ("/" + b))[1..] == a[1..] + ("/" + b);
      SplitAtSlash(a[1..], b);
    }
  }

  lemma {:induction false} SplitPlain(s: string)
    ensures Split(s) == [s] <==> '/' !in s
    ensures |Split(s)| == 1 <==> '/' !in s
  {
    if s == "" {
    } else {
      SplitPlain(s[1..]);
      assert s == [s[0]] + s[1..];
    }
  }

  /** Splitting a joined list gives it back exactly when no part holds a slash. */
  lemma {:induction false} SplitJoin(parts: seq<string>)
    requires parts != []
    ensures |Split(Join(parts))| >= |parts|
    ensures |Split(Join(parts))| == |parts| <==> forall k :: 0 <= k < |parts| ==> '/' !in parts[k]
    ensures (forall k :: 0 <= k < |parts| ==> '/' !in parts[k]) ==> Split(Join(parts)) == parts
  {
    hide Split;
    SplitPlain(parts[0]);
    if |parts| == 1 {
    } else {
      SplitAtSlash(parts[0], Join(parts[1..]));
      SplitJoin(parts[1..]);
      assert parts == [parts[0]] + parts[1..];
    }
  }

  // ---------------------------------------------------------------- printing

  function PartOf(e: Element): string {
    if e.index.Some? then BEFORE + (e.index.value + AFTER) else "node"
  }

  /** The parts from the root of `e` down to the node at `p`. */
  function Parts(e: Element, p: Path): seq<string>
    requires IsPath(e, p)
  {
    [PartOf(e)] + if p == [] then [] else Parts(e.children[p[0]], p[1..])
  }

  function XPathOf(e: Element, p: Path): string
    requires IsPath(e, p)
  {
    ROOT + Join(Parts(e, p))
  }

  lemma {:induction false} PartsSnoc(e: Element, p: Path)
    requires IsPath(e, p) && p != []
    ensures IsPath(e, p[..|p| - 1])
    ensures Parts(e, p) == Parts(e, p[..|p| - 1]) + [PartOf(NodeAt(e, p))]
  {
    if |p| == 1 {
      assert p[1..] == [] && p[..0] == [];
    } else {
      PartsSnoc(e.children[p[0]], p[1..]);
      assert p[..|p| - 1][1..] == p[1..][..|p| - 2];
    }
  }

  /** The parts of the first `k` nodes on the path, the root being the first. */
  function PartsAbove(e: Element, p: Path, k: nat): seq<string>
    requires IsPath(e, p) && k <= |p| + 1
  {
    if k == 0 then [] else
    PrefixPath(e, p, k - 1);
    Parts(e, p[..k - 1])
  }

  lemma PartsAboveStep(e: Element, p: Path, k: nat)
    requires IsPath(e, p) && 0 < k <= |p| + 1
    ensures IsPath(e, p[..k - 1])
    ensures PartsAbove(e, p, k) == PartsAbove(e, p, k - 1) + [PartOf(NodeAt(e, p[..k - 1]))]
  {
    PrefixPath(e, p, k - 1);
    if k > 1 {
      PartsSnoc(e, p[..k - 1]);
      assert p[..k - 1][..k - 2] == p[..k - 2];
    }
  }

  /** `buildXPathForElement`: up the parents, each part put in front. */
  method BuildXPath(root: Element, path: Path) returns (xpath: string)
    requires IsPath(root, path)
    ensures xpath == XPathOf(root, path)
  {
    hide Parts, PartOf, NodeAt, IsPath, PartsAbove, Join;
    var parts: seq<string> := [];
    var k := |path| + 1;
    PartsAboveAll(root, path);
    while k > 0
      invariant 0 <= k <= |path| + 1
      invariant Parts(root, path) == PartsAbove(root, path, k) + parts
    {
      PartsAboveStep(root, path, k);
      parts := [PartOf(NodeAt(root, path[..k - 1]))] + parts;
      k := k - 1;
    }
    assert parts == Parts(root, path);
    xpath := ROOT + Join(parts);
  }

  lemma PartsAboveAll(e: Element, p: Path)
    requires IsPath(e, p)
    ensures PartsAbove(e, p, |p| + 1) == Parts(e, p)
    ensures PartsAbove(e, p, 0) == []
  {
    assert p[..|p|] == p;
  }

  // ---------------------------------------------------------------- evaluating

  /** A node of the hierarchy by its path from the top level; a slice error in the source panics. */
  datatype Outcome = Found(path: Path) | Missing | Panics

  /** The first node with the index. */
  function FirstWith(nodes: seq<XmlNode>, index: string): (r: Option<nat>)
    ensures r.None? <==> forall k :: 0 <= k < |nodes| ==> nodes[k].index != index
    ensures r.Some? ==> r.value < |nodes| && nodes[r.value].index == index
                        && forall k :: 0 <= k < r.value ==> nodes[k].index != index
  {
    if nodes == [] then None
    else if nodes[0].index == index then Some(0)
    else
      var r :- FirstWith(nodes[1..], index);
      Some(r + 1)
  }

  method FindFirst(nodes: seq<XmlNode>, index: string) returns (r: Option<nat>)
    ensures r == FirstWith(nodes, index)
  {
    for i := 0 to |nodes|
      invariant forall k :: 0 <= k < i ==> nodes[k].index != index
    {
      if nodes[i].index == index {
        return Some(i);
      }
    }
    return None;
  }

  /** The index between the prefix and the suffix of a part; they may overlap. */
  datatype PartIndex = Index(index: string) | NotAnIndex | Overlap

  function IndexOf(part: string): PartIndex {
    if !HasPrefix(part, BEFORE) || !HasSuffix(part, AFTER) then NotAnIndex
    else if |part| < |BEFORE| + |AFTER| then Overlap
    else Index(part[|BEFORE|..|part| - |AFTER|])
  }

  function Walk(nodes: seq<XmlNode>, parts: seq<string>): Outcome
    requires parts != []
    decreases |parts|
  {
    match IndexOf(parts[0])
    case NotAnIndex => Missing
    case Overlap => Panics
    case Index(index) =>
      match FirstWith(nodes, index)
      case None => Missing
      case Some(i) =>
        if |parts| == 1 then Found([i])
        else match Walk(nodes[i].nodes, parts[1..])
             case Found(q) => Found([i] + q)
             case Missing => Missing
             case Panics => Panics
  }

  function Under(path: Path, o: Outcome): Outcome {
    if o.Found? then Found(path + o.path) else o
  }

  /** The loop over the parts of an indexed path. */
  method WalkParts(hierarchy: seq<XmlNode>, parts: seq<string>) returns (r: Outcome)
    requires parts != []
    ensures r == Walk(hierarchy, parts)
  {
    hide FirstWith, IndexOf;
    var currentNodes := hierarchy;
    var path: Path := [];
    var pIdx := 0;
    assert parts[0..] == parts;
    assert Under([], Walk(hierarchy, parts)) == Walk(hierarchy, parts);
    while pIdx < |parts|
      invariant 0 <= pIdx <= |parts|
      invariant pIdx < |parts| ==> Walk(hierarchy, parts) == Under(path, Walk(currentNodes, parts[pIdx..]))
      invariant pIdx == |parts| ==> Walk(hierarchy, parts) == Found(path)
    {
      var part := IndexOf(parts[pIdx]);
      if part.NotAnIndex? {
        return Missing;
      }
      if part.Overlap? {
        return Panics;
      }
      var found := FindFirst(currentNodes, part.index);
      if found.None? {
        return Missing;
      }
      assert parts[pIdx..][1..] == parts[pIdx + 1..];
      assert forall q: Path :: path + ([found.value] + q) == (path + [found.value]) + q;
      path := path + [found.value];
      if pIdx < |parts| - 1 {
        currentNodes := currentNodes[found.value].nodes;
      }
      pIdx := pIdx + 1;
    }
    return Found(path);
  }

  // ---------------------------------------------------------------- searching

  /** `//class[@name='value']`; a name no case knows accepts nothing. */
  datatype Selector = Selector(cls: string, attribute: Option<(string, string)>)

  function AttributeOf(expr: string): Option<(string, string)> {
    if !HasPrefix(expr, "@") then None
    else
      var k :- First(expr[1..], '=');
      Some((TrimSpace(expr[1..][..k]), Trim(TrimSpace(expr[1..][k + 1..]), {'\'', '\"'})))
  }

  /** None where the slice between the brackets is out of range. */
  function SelectorOf(suffix: string): Option<Selector> {
    match First(suffix, '[')
    case None => Some(Selector(suffix, None))
    case Some(b) =>
      if b + 1 > |suffix| - 1 then None
      else Some(Selector(suffix[..b], AttributeOf(suffix[b + 1..|suffix| - 1])))
  }

  predicate Accepts(sel: Selector, n: XmlNode) {
    && (sel.cls in {"", "*", "node"} || n.cls == sel.cls)
    && (sel.attribute.Some? ==>
          var value := sel.attribute.value.1;
          match sel.attribute.value.0
          case "resource-id" => n.resourceId == value || HasSuffix(n.resourceId, ":id/" + value)
          case "content-desc" => n.contentDesc == value
          case "text" => n.text == value || Contains(n.text, value)
          case "class" => n.cls == value
          case "index" => n.index == value
          case _ => false)
  }

  /** The accepted nodes below `n` in document order, from child `i` on. */
  function Matching(n: XmlNode, sel: Selector, i: nat): seq<Path>
    requires i <= |n.nodes|
    decreases n, |n.nodes| - i
  {
    if i == |n.nodes| then []
    else
      var child := n.nodes[i];
      Prefixed(i, (if Accepts(sel, child) then [[]] else []) + Matching(child, sel, 0)) + Matching(n, sel, i + 1)
  }

  /** Document order: a node comes before what is below it and before later siblings. */
  predicate Before(p: Path, q: Path) {
    q != [] && (p == [] || p[0] < q[0] || (p[0] == q[0] && Before(p[1..], q[1..])))
  }

  /** The matches are exactly the accepted nodes. */
  lemma {:induction false} MatchingExact(n: XmlNode, sel: Selector, i: nat, p: Path)
    requires i <= |n.nodes|
    ensures p in Matching(n, sel, i) <==> p != [] && i <= p[0] && IsXmlPath(n, p) && Accepts(sel, XmlAt(n, p))
    decreases n, |n.nodes| - i
  {
    hide Accepts, Matching, Prefixed;
    MatchingAt(n, sel, i);
    if i == |n.nodes| {
    } else {
      var child := n.nodes[i];
      var own: seq<Path> := if Accepts(sel, child) then [[]] else [];
      var below := Matching(child, sel, 0);
      InPrefixed(i, own + below, p);
      MatchingExact(n, sel, i + 1, p);
      if p != [] && p[0] == i {
        var q := p[1..];
        MatchingExact(child, sel, 0, q);
        assert q in own <==> q == [] && Accepts(sel, child);
        assert q in own + below <==> q in own || q in below;
        assert IsXmlPath(n, p) <==> IsXmlPath(child, q);
        assert IsXmlPath(child, q) ==> XmlAt(n, p) == XmlAt(child, q);
        assert q == [] ==> XmlAt(child, q) == child;
      }
    }
  }

  ghost predicate Ordered(ps: seq<Path>) {
    forall i, j :: 0 <= i < j < |ps| ==> Before(ps[i], ps[j])
  }

  lemma {:induction false} PrefixedAt(i: nat, ps: seq<Path>, k: nat)
    requires k < |ps|
    ensures |Prefixed(i, ps)| == |ps| && Prefixed(i, ps)[k] == [i] + ps[k]
  {
    if |ps| == 1 {
      assert ps[1..] == [];
    } else {
      PrefixedAt(i, ps[1..], if k == 0 then 0 else k - 1);
    }
  }

  lemma OrderedPrefixed(i: nat, ps: seq<Path>)
    requires Ordered(ps)
    ensures Ordered(Prefixed(i, ps))
  {
    hide Prefixed;
    var r := Prefixed(i, ps);
    forall a, b | 0 <= a < b < |r|
      ensures Before(r[a], r[b])
    {
      if ps == [] {
        PrefixedNone(i, ps);
      } else {
        PrefixedAt(i, ps, 0);
        PrefixedAt(i, ps, a);
        PrefixedAt(i, ps, b);
        assert r[a][1..] == ps[a] && r[b][1..] == ps[b];
      }
    }
  }

  lemma PrefixedNone(i: nat, ps: seq<Path>)
    requires ps == []
    ensures Prefixed(i, ps) == []
  {
  }

  lemma OrderedConcat(ps: seq<Path>, qs: seq<Path>)
    requires Ordered(ps) && Ordered(qs) && forall p, q :: p in ps && q in qs ==> Before(p, q)
    ensures Ordered(ps + qs)
  {
    hide Before;
    var r := ps + qs;
    forall i, j | 0 <= i < j < |r|
      ensures Before(r[i], r[j])
    {
      if i < |ps| <= j {
        assert r[i] in ps && r[j] in qs;
      }
    }
  }

  /** The matches come in document order, so the k-th match is the k-th accepted node. */
  lemma {:induction false} MatchingOrdered(n: XmlNode, sel: Selector, i: nat)
    requires i <= |n.nodes|
    ensures Ordered(Matching(n, sel, i))
    decreases n, |n.nodes| - i
  {
    hide Accepts, Ordered, Prefixed;
    if i == |n.nodes| {
      NoneOrdered();
    } else {
      var child := n.nodes[i];
      var self := if Accepts(sel, child) then [[]] else [];
      var below := Matching(child, sel, 0);
      MatchingOrdered(child, sel, 0);
      MatchingOrdered(n, sel, i + 1);
      NoneOrdered();
      forall p, q | p in self && q in below
        ensures Before(p, q)
      {
        MatchingExact(child, sel, 0, q);
      }
      OrderedConcat(self, below);
      OrderedPrefixed(i, self + below);
      forall p, q | p in Prefixed(i, self + below) && q in Matching(n, sel, i + 1)
        ensures Before(p, q)
      {
        InPrefixed(i, self + below, p);
        MatchingExact(n, sel, i + 1, q);
      }
      OrderedConcat(Prefixed(i, self + below), Matching(n, sel, i + 1));
    }
  }

  lemma NoneOrdered()
    ensures Ordered([]) && Ordered([[]])
  {
  }

  function Search(hierarchy: seq<XmlNode>, suffix: string, target: int): Outcome {
    match SelectorOf(suffix)
    case None => Panics
    case Some(sel) =>
      var matches := Matching(Hierarchy(hierarchy), sel, 0);
      if 1 <= target <= |matches| then Found(matches[target - 1]) else Missing
  }

  lemma {:induction false} NotBothBefore(p: Path, q: Path)
    ensures !(Before(p, q) && Before(q, p))
    decreases |p|
  {
    if p == [] || q == [] {
    } else {
      NotBothBefore(p[1..], q[1..]);
    }
  }

  ghost function Elements(ps: seq<Path>): set<Path> {
    set p | p in ps
  }

  lemma {:induction false} OrderedSize(ps: seq<Path>)
    requires Ordered(ps)
    ensures |Elements(ps)| == |ps|
  {
    if ps == [] {
    } else {
      var n := |ps| - 1;
      OrderedSize(ps[..n]);
      forall k | 0 <= k < n
        ensures ps[k] != ps[n]
      {
        NotBothBefore(ps[k], ps[n]);
      }
      assert Elements(ps) == Elements(ps[..n]) + {ps[n]};
    }
  }

  ghost function Earlier(ps: seq<Path>, p: Path): set<Path> {
    set q | q in ps && Before(q, p)
  }

  lemma EarlierSize(ps: seq<Path>, k: nat)
    requires Ordered(ps) && k < |ps|
    ensures |Earlier(ps, ps[k])| == k
  {
    hide Before;
    OrderedSize(ps[..k]);
    forall j | k <= j < |ps|
      ensures !Before(ps[j], ps[k])
    {
      NotBothBefore(ps[k], ps[j]);
    }
    assert forall j :: 0 <= j < k ==> ps[..k][j] == ps[j];
    assert Earlier(ps, ps[k]) == Elements(ps[..k]);
  }

  /** A search finds the accepted node before which, in document order, `target` - 1 others come. */
  lemma SearchExact(hierarchy: seq<XmlNode>, suffix: string, target: int, sel: Selector)
    requires SelectorOf(suffix) == Some(sel)
    ensures var top := Hierarchy(hierarchy);
            var ps := Matching(top, sel, 0);
            var r := Search(hierarchy, suffix, target);
            && (forall p :: p in Elements(ps) <==> p != [] && IsXmlPath(top, p) && Accepts(sel, XmlAt(top, p)))
            && (r.Found? <==> 1 <= target <= |Elements(ps)|)
            && (r.Found? ==> r.path in Elements(ps) && |Earlier(ps, r.path)| == target - 1)
  {
    hide SelectorOf, Matching, Accepts, Before;
    var top := Hierarchy(hierarchy);
    var ps := Matching(top, sel, 0);
    MatchingOrdered(top, sel, 0);
    OrderedSize(ps);
    forall p
      ensures p in Elements(ps) <==> p != [] && IsXmlPath(top, p) && Accepts(sel, XmlAt(top, p))
    {
      MatchingExact(top, sel, 0, p);
    }
    if 1 <= target <= |ps| {
      EarlierSize(ps, target - 1);
    }
  }

  /** `collectAll` and `collectAllInNode`: the children one after the other, each before what is below it. */
  method CollectAll(n: XmlNode, sel: Selector) returns (result: seq<Path>)
    ensures result == Matching(n, sel, 0)
    decreases n
  {
    hide Accepts, Prefixed, Matching;
    result := [];
    for i := 0 to |n.nodes|
      invariant Matching(n, sel, 0) == result + Matching(n, sel, i)
    {
      var found: seq<Path> := [];
      if Accepts(sel, n.nodes[i]) {
        found := [[]];
      }
      var below := CollectAll(n.nodes[i], sel);
      MatchingAt(n, sel, i);
      result := result + Prefixed(i, found + below);
    }
    MatchingAt(n, sel, |n.nodes|);
  }

  lemma MatchingAt(n: XmlNode, sel: Selector, i: nat)
    requires i <= |n.nodes|
    ensures i == |n.nodes| ==> Matching(n, sel, i) == []
    ensures i < |n.nodes| ==>
              Matching(n, sel, i) ==
              Prefixed(i, (if Accepts(sel, n.nodes[i]) then [[]] else []) + Matching(n.nodes[i], sel, 0))
              + Matching(n, sel, i + 1)
  {
    hide Accepts, Prefixed;
  }

  // ---------------------------------------------------------------- the whole evaluation

  /** The path inside `(...)[k]` and the number of the match wanted, 1 by default. */
  datatype Query = Query(path: string, target: int)

  /** `scan` is what `fmt.Sscanf` reads as a number. */
  function Unwrap(xpath: string, scan: string -> Option<int>): Query {
    if !HasPrefix(xpath, "(") then Query(xpath, 1)
    else match Last(xpath, ')')
         case None => Query(xpath, 1)
         case Some(k) =>
           var suffix := xpath[k + 1..];
           if |suffix| < 2 || suffix[0] != '[' || suffix[|suffix| - 1] != ']' then Query(xpath, 1)
           else match scan(suffix[1..|suffix| - 1])
                case None => Query(xpath, 1)
                case Some(target) => Query(xpath[1..k], target)
  }

  function Evaluate(hierarchy: seq<XmlNode>, xpath: string, scan: string -> Option<int>): Outcome {
    if xpath == "" then Missing
    else
      var q := Unwrap(TrimSpace(xpath), scan);
      if HasPrefix(q.path, ROOT) then Walk(hierarchy, Split(q.path[|ROOT|..]))
      else if HasPrefix(q.path, "//") then Search(hierarchy, q.path[2..], q.target)
      else Missing
  }

  /** `EvaluateXPath`. */
  method EvaluateXPath(hierarchy: seq<XmlNode>, xpath: string, scan: string -> Option<int>) returns (r: Outcome)
    ensures r == Evaluate(hierarchy, xpath, scan)
  {
    hide Split, Walk, Matching, Unwrap, TrimSpace, SelectorOf;
    if xpath == "" {
      return Missing;
    }
    var q := Unwrap(TrimSpace(xpath), scan);
    if HasPrefix(q.path, ROOT) {
      r := WalkParts(hierarchy, Split(q.path[|ROOT|..]));
    } else if HasPrefix(q.path, "//") {
      var sel := SelectorOf(q.path[2..]);
      if sel.None? {
        return Panics;
      }
      var matches := CollectAll(Hierarchy(hierarchy), sel.value);
      r := if 1 <= q.target <= |matches| then Found(matches[q.target - 1]) else Missing;
    } else {
      r := Missing;
    }
  }

  // ---------------------------------------------------------------- the round trip

  /** The node at `p` below `nodes[i]`, and all nodes above it, come first among their siblings. */
  predicate FirstOnPath(nodes: seq<XmlNode>, i: nat, p: Path)
    requires i < |nodes| && IsPath(Convert(nodes[i]), p)
    decreases |p|
  {
    && FirstWith(nodes, nodes[i].index) == Some(i)
    && (p == [] || FirstOnPath(nodes[i].nodes, p[0], p[1..]))
  }

  lemma IndexOfPart(n: XmlNode)
    ensures IndexOf(PartOf(Convert(n))) == Index(n.index)
  {
    var part := BEFORE + (n.index + AFTER);
    assert part[..|BEFORE|] == BEFORE;
    assert part[|part| - |AFTER|..] == AFTER;
    assert part[|BEFORE|..|part| - |AFTER|] == n.index;
  }

  /** Walking the parts of a node finds it exactly when it is first on its path. */
  lemma {:induction false} WalkOfParts(nodes: seq<XmlNode>, i: nat, p: Path)
    requires i < |nodes| && IsPath(Convert(nodes[i]), p)
    ensures Walk(nodes, Parts(Convert(nodes[i]), p)) == Found([i] + p) <==> FirstOnPath(nodes, i, p)
    decreases |p|
  {
    hide IndexOf, PartOf;
    IndexOfPart(nodes[i]);
    var parts := Parts(Convert(nodes[i]), p);
    var first := FirstWith(nodes, nodes[i].index).value;
    if p == [] {
      assert [i] + p == [i];
    } else {
      assert parts[1..] == Parts(Convert(nodes[i].nodes[p[0]]), p[1..]);
      assert p == [p[0]] + p[1..];
      WalkOfParts(nodes[i].nodes, p[0], p[1..]);
      var r, below := Walk(nodes, parts), Walk(nodes[first].nodes, parts[1..]);
      assert r == Under([first], below);
      if below.Found? {
        assert r.path[0] == first && r.path[1..] == below.path;
        assert ([i] + p)[0] == i && ([i] + p)[1..] == p;
      }
    }
  }

  lemma {:induction false} WalkDepth(nodes: seq<XmlNode>, parts: seq<string>)
    requires parts != []
    ensures Walk(nodes, parts).Found? ==> |Walk(nodes, parts).path| == |parts|
    decreases |parts|
  {
    hide IndexOf;
    if !IndexOf(parts[0]).Index? || FirstWith(nodes, IndexOf(parts[0]).index).None? || |parts| == 1 {
    } else {
      WalkDepth(nodes[FirstWith(nodes, IndexOf(parts[0]).index).value].nodes, parts[1..]);
    }
  }

  /** No index on the path holds a slash. */
  predicate SlashFree(n: XmlNode, p: Path)
    requires IsPath(Convert(n), p)
    decreases |p|
  {
    '/' !in n.index && (p == [] || SlashFree(n.nodes[p[0]], p[1..]))
  }

  lemma {:induction false} SlashFreeParts(n: XmlNode, p: Path)
    requires IsPath(Convert(n), p)
    ensures |Parts(Convert(n), p)| == |p| + 1
    ensures SlashFree(n, p) <==> forall k :: 0 <= k <= |p| ==> '/' !in Parts(Convert(n), p)[k]
    decreases |p|
  {
    hide PartOf;
    SlashInPart(n);
    var parts := Parts(Convert(n), p);
    if p == [] {
      assert parts == [PartOf(Convert(n))];
    } else {
      var tail := Parts(Convert(n.nodes[p[0]]), p[1..]);
      SlashFreeParts(n.nodes[p[0]], p[1..]);
      assert parts == [parts[0]] + tail;
      assert forall k :: 0 <= k < |tail| ==> parts[k + 1] == tail[k];
      assert forall k :: 1 <= k < |parts| ==> parts[k] == tail[k - 1];
    }
  }

  lemma SlashInPart(n: XmlNode)
    ensures '/' in PartOf(Convert(n)) <==> '/' in n.index
  {
  }

  // ---------------------------------------------------------------- printed paths need no trimming

  lemma {:induction false} JoinEnd(parts: seq<string>)
    requires parts != [] && parts[|parts| - 1] != ""
    ensures Join(parts) != ""
    ensures var last := parts[|parts| - 1];
            Join(parts)[|Join(parts)| - 1] == last[|last| - 1]
  {
    if |parts| == 1 {
    } else {
      assert parts[1..][|parts| - 2] == parts[|parts| - 1];
      JoinEnd(parts[1..]);
      var tail := Join(parts[1..]);
      assert Join(parts) == parts[0] + ("/" + tail);
      hide Join;
    }
  }

  lemma {:induction false} LastPart(e: Element, p: Path)
    requires IsPath(e, p)
    ensures Parts(e, p) != []
    ensures var parts := Parts(e, p);
            var last := parts[|parts| - 1];
             last != "" && last[|last| - 1] in {']', 'e'}
    decreases |p|
  {
    if p == [] {
    } else {
      LastPart(e.children[p[0]], p[1..]);
    }
  }

  /** Trimming and unwrapping leave a printed path as it is. */
  lemma PrintedQuery(e: Element, p: Path, scan: string -> Option<int>)
    requires IsPath(e, p)
    ensures XPathOf(e, p) != "" && Unwrap(TrimSpace(XPathOf(e, p)), scan) == Query(XPathOf(e, p), 1)
    ensures HasPrefix(XPathOf(e, p), ROOT) && XPathOf(e, p)[|ROOT|..] == Join(Parts(e, p))
  {
    hide Parts, Join, SPACES, Trim;
    var parts := Parts(e, p);
    var x := XPathOf(e, p);
    LastPart(e, p);
    JoinEnd(parts);
    assert x[0] == '/';
    assert x[|x| - 1] == Join(parts)[|Join(parts)| - 1];
    NoSpaces();
    TrimNothing(x, SPACES);
    assert x[|ROOT|..] == Join(parts);
    assert x[..1] != "(";
  }

  lemma TrimNothing(s: string, cutset: set<char>)
    requires s != "" && s[0] !in cutset && s[|s| - 1] !in cutset
    ensures Trim(s, cutset) == s
  {
  }

  lemma NoSpaces()
    ensures '/' !in SPACES && ']' !in SPACES && 'e' !in SPACES
  {
  }

  /**
    In a single-rooted hierarchy the path printed for a node evaluates to that node
    exactly when no index on it holds a slash and each node on it is the first of its
    siblings with its index. Quotes in an index make no difference.
   */
  lemma RoundTrip(root: XmlNode, p: Path, scan: string -> Option<int>)
    requires IsPath(Convert(root), p)
    ensures Evaluate([root], XPathOf(Convert(root), p), scan) == Found([0] + p)
            <==> SlashFree(root, p) && FirstOnPath([root], 0, p)
  {
    hide Split, Join, IndexOf, PartOf, Walk, Convert, FirstOnPath, SlashFree, XPathOf, Unwrap, TrimSpace;
    var e := Convert(root);
    var parts := Parts(e, p);
    PrintedQuery(e, p, scan);
    SplitJoin(parts);
    SlashFreeParts(root, p);
    if SlashFree(root, p) {
      WalkOfParts([root], 0, p);
    } else {
      WalkDepth([root], Split(Join(parts)));
    }
  }

  /** With several roots every printed path starts at the virtual root and finds nothing. */
  lemma ManyRootsMissing(nodes: seq<XmlNode>, p: Path, scan: string -> Option<int>)
    requires |nodes| > 1 && IsPath(ParseTree(nodes).value, p)
    ensures Evaluate(nodes, XPathOf(ParseTree(nodes).value, p), scan) == Missing
  {
    var e := ParseTree(nodes).value;
    var parts := Parts(e, p);
    assert parts[0] == "node";
    assert IndexOf("node").NotAnIndex?;
    hide Split, IndexOf, Parts, XPathOf, Unwrap, TrimSpace;
    PrintedQuery(e, p, scan);
    SplitPlain("node");
    if |parts| > 1 {
      SplitAtSlash("node", Join(parts[1..]));
    }
  }

  // ---------------------------------------------------------------- where the source panics

  const HALF_OPEN: string := "node[@index=']"

  /** Prefix and suffix of a part overlap exactly in the part that stops inside its quotes. */
  lemma OverlapExact(part: string)
    ensures IndexOf(part) == Overlap <==> part == HALF_OPEN
  {
    assert HALF_OPEN[..13] == BEFORE && HALF_OPEN[12..] == AFTER;
    assert BEFORE[11..][0] == '=' && AFTER[0] == '\'';
    assert !HasSuffix(BEFORE, AFTER);
    assert |part| == 13 ==> part == part[..13];
    if IndexOf(part) == Overlap {
      assert part == part[..13] + part[12..][1..];
      assert HALF_OPEN == HALF_OPEN[..13] + HALF_OPEN[12..][1..];
    }
  }

  /** An indexed walk panics exactly if it gets as far as such a part. */
  lemma {:induction false} WalkPanics(nodes: seq<XmlNode>, parts: seq<string>)
    requires parts != []
    ensures Walk(nodes, parts) == Panics <==> ReachesHalfOpen(nodes, parts)
    decreases |parts|
  {
    hide IndexOf;
    OverlapExact(parts[0]);
    var index := IndexOf(parts[0]);
    assert forall k :: 0 < k <= |parts| ==> parts[..k][0] == parts[0];
    if index.Index? && FirstWith(nodes, index.index).Some? && |parts| > 1 {
      var i := FirstWith(nodes, index.index).value;
      var below, rest := nodes[i].nodes, parts[1..];
      WalkPanics(below, rest);
      if k: nat :| ReachesAt(below, rest, k) {
        assert parts[..k + 1][1..] == rest[..k];
        assert parts[..k + 1][0] == parts[0];
        assert ReachesAt(nodes, parts, k + 1);
      }
      if k: nat :| ReachesAt(nodes, parts, k) && k > 0 {
        assert parts[..k][1..] == rest[..k - 1];
        assert ReachesAt(below, rest, k - 1);
      }
    } else {
      assert index.Overlap? ==> ReachesAt(nodes, parts, 0);
    }
  }

  ghost predicate ReachesAt(nodes: seq<XmlNode>, parts: seq<string>, k: nat) {
    k < |parts| && parts[k] == HALF_OPEN && (k == 0 || Walk(nodes, parts[..k]).Found?)
  }

  /** Some part is half open, and the parts in front of it lead to a node. */
  ghost predicate ReachesHalfOpen(nodes: seq<XmlNode>, parts: seq<string>) {
    exists k: nat :: ReachesAt(nodes, parts, k)
  }

  /**
    `EvaluateXPath` panics exactly on an indexed path whose walk reaches a half-open part,
    and on a search whose first bracket is its last character.
   */
  lemma PanicsExact(nodes: seq<XmlNode>, xpath: string, scan: string -> Option<int>)
    ensures var q := Unwrap(TrimSpace(xpath), scan).path;
            Evaluate(nodes, xpath, scan) == Panics <==>
            && xpath != ""
            && if HasPrefix(q, ROOT) then ReachesHalfOpen(nodes, Split(q[|ROOT|..]))
               else HasPrefix(q, "//") && |q| > 2 && q[|q| - 1] == '[' && '[' !in q[2..|q| - 1]
  {
    hide Walk, Split, Unwrap, TrimSpace, ReachesHalfOpen, Matching, AttributeOf;
    var q := Unwrap(TrimSpace(xpath), scan).path;
    if HasPrefix(q, ROOT) {
      WalkPanics(nodes, Split(q[|ROOT|..]));
    } else if HasPrefix(q, "//") {
      var suffix := q[2..];
      SelectorFails(suffix);
      assert suffix != "" ==> suffix[..|suffix| - 1] == q[2..|q| - 1];
    }
  }

  lemma SelectorFails(suffix: string)
    ensures SelectorOf(suffix).None? <==> suffix != "" && suffix[|suffix| - 1] == '[' && '[' !in suffix[..|suffix| - 1]
  {
    hide AttributeOf;
    var b := First(suffix, '[');
    assert b.Some? && b.value < |suffix| - 1 ==> suffix[..|suffix| - 1][b.value] == '[';
    assert b.Some? && b.value == |suffix| - 1 ==> suffix[..b.value] == suffix[..|suffix| - 1];
  }
}
