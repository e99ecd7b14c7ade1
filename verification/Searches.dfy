/**
  What the searches of `EvaluateXPath` find, said on the attributes of the nodes: the printed
  form `//class[@name='value']`, its wildcards, and `(...)[k]`.
 */
module Searches {
  import opened Common
  import opened UiTree
  import opened XPath

  // ---------------------------------------------------------------- printed searches

  /** Nothing in class or value is mistaken for the syntax around it. */
  predicate Unambiguous(cls: string, value: string) {
    && '[' !in cls
    && (value != "" ==> value[0] !in {'\'', '\"'} && value[|value| - 1] !in {'\'', '\"'})
  }

  function Printed(cls: string, name: string, value: string): string {
    "//" + cls + "[@" + name + "='" + value + "']"
  }

  /** A name as it stands in front of the equals sign. */
  predicate PlainName(name: string) {
    name != "" && '=' !in name && name[0] !in SPACES && name[|name| - 1] !in SPACES
  }

  lemma {:induction false} FirstAt(s: string, c: char, t: string)
    requires c !in s
    ensures First(s + [c] + t, c) == Some(|s|)
  {
    if s == "" {
    } else {
      assert (s + [c] + t)[1..] == s[1..] + [c] + t;
      FirstAt(s[1..], c, t);
    }
  }

  lemma QuotesTrimmed(value: string)
    requires value != "" ==> value[0] !in {'\'', '\"'} && value[|value| - 1] !in {'\'', '\"'}
    ensures Trim(TrimSpace("'" + value + "'"), {'\'', '\"'}) == value
  {
    var quoted := "'" + value + "'";
    assert '\'' !in SPACES;
    hide SPACES;
    TrimNothing(quoted, SPACES);
    var cut := {'\'', '\"'};
    assert quoted[1..] == value + "'";
    if value == "" {
      assert TrimLeft("'", cut) == TrimLeft("", cut);
      assert quoted == "''";
    } else {
      assert (value + "'")[0] == value[0];
      assert TrimLeft(quoted, cut) == value + "'";
      assert (value + "'")[..|value|] == value;
      assert TrimRight(value + "'", cut) == TrimRight(value, cut);
    }
  }

  lemma AttributeRead(name: string, value: string)
    requires PlainName(name)
    requires value != "" ==> value[0] !in {'\'', '\"'} && value[|value| - 1] !in {'\'', '\"'}
    ensures AttributeOf("@" + name + "='" + value + "'") == Some((name, value))
  {
    var quoted := "'" + value + "'";
    var expr := "@" + name + "='" + value + "'";
    assert expr[1..] == name + ['='] + quoted;
    FirstAt(name, '=', quoted);
    assert (name + ['='] + quoted)[..|name|] == name;
    assert (name + ['='] + quoted)[|name| + 1..] == quoted;
    QuotesTrimmed(value);
    hide Trim, SPACES;
    TrimNothing(name, SPACES);
  }

  function Inner(name: string, value: string): string {
    "@" + name + "='" + value + "'"
  }

  lemma PrintedParts(cls: string, name: string, value: string)
    ensures Printed(cls, name, value)[2..] == cls + ['['] + (Inner(name, value) + "]")
  {
  }

  lemma BracketParts(cls: string, inner: string)
    ensures var suffix := cls + ['['] + (inner + "]");
            suffix[..|cls|] == cls && suffix[|cls| + 1..|suffix| - 1] == inner
  {
  }

  lemma SelectorRead(cls: string, name: string, value: string)
    requires Unambiguous(cls, value) && PlainName(name)
    ensures SelectorOf(Printed(cls, name, value)[2..]) == Some(Selector(cls, Some((name, value))))
  {
    hide Printed, SelectorOf, AttributeOf, First;
    PrintedParts(cls, name, value);
    AttributeRead(name, value);
    var inner := Inner(name, value);
    assert inner == "@" + name + "='" + value + "'";
    hide Inner;
    FirstAt(cls, '[', inner + "]");
    BracketParts(cls, inner);
    SelectorAt(cls + ['['] + (inner + "]"), cls, inner);
  }

  lemma SelectorAt(suffix: string, cls: string, inner: string)
    requires First(suffix, '[') == Some(|cls|) && |suffix| == |cls| + |inner| + 2
    requires suffix[..|cls|] == cls && suffix[|cls| + 1..|suffix| - 1] == inner
    ensures SelectorOf(suffix) == Some(Selector(cls, AttributeOf(inner)))
  {
    hide First, AttributeOf;
  }

  /** The second character tells a search from an indexed path. */
  lemma NotRooted(x: string)
    requires |x| >= 2 && x[1] == '/'
    ensures !HasPrefix(x, ROOT)
  {
    assert |ROOT| <= |x| ==> x[..|ROOT|][1] == x[1];
    assert ROOT[1] == 'h';
  }

  lemma PrintedEvaluates(nodes: seq<XmlNode>, cls: string, name: string, value: string, scan: string -> Option<int>)
    requires Unambiguous(cls, value) && PlainName(name)
    ensures Evaluate(nodes, Printed(cls, name, value), scan)
            == Search(nodes, Printed(cls, name, value)[2..], 1)
  {
    hide Search, Walk, Split, SPACES, Trim;
    var x := Printed(cls, name, value);
    NoSpaces();
    TrimNothing(x, SPACES);
    assert x[..2] == "//" && x[..1] == "/";
    NotRooted(x);
  }

  // ---------------------------------------------------------------- the first in document order

  /** A path that leads to a node below the top. */
  predicate InDocument(nodes: seq<XmlNode>, p: Path) {
    p != [] && IsXmlPath(Hierarchy(nodes), p)
  }

  /** The outcome is the first node in document order that is `good`, and Missing if there is none. */
  ghost predicate IsFirst(nodes: seq<XmlNode>, r: Outcome, good: XmlNode -> bool) {
    match r
    case Found(p) =>
      && InDocument(nodes, p) && good(XmlAt(Hierarchy(nodes), p))
      && forall q: Path :: InDocument(nodes, q) && good(XmlAt(Hierarchy(nodes), q)) && q != p ==> Before(p, q)
    case Missing => forall q: Path :: InDocument(nodes, q) ==> !good(XmlAt(Hierarchy(nodes), q))
    case Panics => false
  }

  lemma SearchFirst(nodes: seq<XmlNode>, suffix: string, sel: Selector)
    requires SelectorOf(suffix) == Some(sel)
    ensures IsFirst(nodes, Search(nodes, suffix, 1), n => Accepts(sel, n))
  {
    hide SelectorOf, Accepts, Matching, Before;
    var top := Hierarchy(nodes);
    var ps := Matching(top, sel, 0);
    forall q: Path
      ensures q in ps <==> InDocument(nodes, q) && Accepts(sel, XmlAt(top, q))
    {
      MatchingExact(top, sel, 0, q);
    }
    MatchingOrdered(top, sel, 0);
    if ps != [] {
      assert ps[0] in ps;
      forall q: Path | q in ps && q != ps[0]
        ensures Before(ps[0], q)
      {
        var k :| 0 <= k < |ps| && ps[k] == q;
      }
    }
  }

  lemma IsFirstSame(nodes: seq<XmlNode>, r: Outcome, good: XmlNode -> bool, same: XmlNode -> bool)
    requires IsFirst(nodes, r, good) && forall n: XmlNode :: good(n) <==> same(n)
    ensures IsFirst(nodes, r, same)
  {
    hide Before, IsXmlPath, XmlAt;
  }

  /** The class asked for, or any for the three wildcards. */
  predicate ClassFits(cls: string, n: XmlNode) {
    cls == "" || cls == "*" || cls == "node" || n.cls == cls
  }

  lemma PrintedFirst(nodes: seq<XmlNode>, cls: string, name: string, value: string, scan: string -> Option<int>,
                     good: XmlNode -> bool)
    requires Unambiguous(cls, value) && PlainName(name)
    requires forall n: XmlNode :: Accepts(Selector(cls, Some((name, value))), n) <==> good(n)
    ensures IsFirst(nodes, Evaluate(nodes, Printed(cls, name, value), scan), good)
  {
    hide IsFirst, Evaluate, Search, Accepts, SelectorOf;
    var sel := Selector(cls, Some((name, value)));
    PrintedEvaluates(nodes, cls, name, value, scan);
    SelectorRead(cls, name, value);
    SearchFirst(nodes, Printed(cls, name, value)[2..], sel);
    IsFirstSame(nodes, Search(nodes, Printed(cls, name, value)[2..], 1), n => Accepts(sel, n), good);
  }

  // ---------------------------------------------------------------- attribute by attribute

  lemma FindByContentDesc(nodes: seq<XmlNode>, cls: string, value: string, scan: string -> Option<int>)
    requires Unambiguous(cls, value)
    ensures IsFirst(nodes, Evaluate(nodes, "//" + cls + "[@content-desc='" + value + "']", scan),
                    n => ClassFits(cls, n) && n.contentDesc == value)
  {
    Named(cls, "content-desc", value);
    assert "//" + cls + "[@content-desc='" + value + "']" == Printed(cls, "content-desc", value);
    hide Evaluate, IsFirst, Printed;
    PrintedFirst(nodes, cls, "content-desc", value, scan, n => ClassFits(cls, n) && n.contentDesc == value);
  }

  lemma FindByClass(nodes: seq<XmlNode>, cls: string, value: string, scan: string -> Option<int>)
    requires Unambiguous(cls, value)
    ensures IsFirst(nodes, Evaluate(nodes, "//" + cls + "[@class='" + value + "']", scan),
                    n => ClassFits(cls, n) && n.cls == value)
  {
    Named(cls, "class", value);
    assert "//" + cls + "[@class='" + value + "']" == Printed(cls, "class", value);
    hide Evaluate, IsFirst, Printed;
    PrintedFirst(nodes, cls, "class", value, scan, n => ClassFits(cls, n) && n.cls == value);
  }

  lemma FindByIndex(nodes: seq<XmlNode>, cls: string, value: string, scan: string -> Option<int>)
    requires Unambiguous(cls, value)
    ensures IsFirst(nodes, Evaluate(nodes, "//" + cls + "[@index='" + value + "']", scan),
                    n => ClassFits(cls, n) && n.index == value)
  {
    Named(cls, "index", value);
    assert "//" + cls + "[@index='" + value + "']" == Printed(cls, "index", value);
    hide Evaluate, IsFirst, Printed;
    PrintedFirst(nodes, cls, "index", value, scan, n => ClassFits(cls, n) && n.index == value);
  }

  /** The value is a part of the text. */
  predicate PartOfText(text: string, value: string) {
    exists k :: 0 <= k <= |text| - |value| && Slice(text, k, |value|) == value
  }

  function Slice(s: string, k: nat, length: nat): string
    requires k + length <= |s|
  {
    s[k..k + length]
  }

  lemma SliceTail(s: string, k: nat, length: nat)
    requires k + 1 + length <= |s|
    ensures Slice(s, k + 1, length) == Slice(s[1..], k, length)
  {
  }

  lemma {:induction false} ContainsExact(s: string, part: string)
    ensures Contains(s, part) <==> PartOfText(s, part)
  {
    if HasPrefix(s, part) {
      assert Slice(s, 0, |part|) == part;
    } else if s == "" {
    } else {
      ContainsExact(s[1..], part);
      if k :| 0 <= k <= |s[1..]| - |part| && Slice(s[1..], k, |part|) == part {
        SliceTail(s, k, |part|);
      }
      if k :| 0 <= k <= |s| - |part| && Slice(s, k, |part|) == part {
        assert k > 0;
        SliceTail(s, k - 1, |part|);
      }
    }
  }

  lemma FindByText(nodes: seq<XmlNode>, cls: string, value: string, scan: string -> Option<int>)
    requires Unambiguous(cls, value)
    ensures IsFirst(nodes, Evaluate(nodes, "//" + cls + "[@text='" + value + "']", scan),
                    n => ClassFits(cls, n) && PartOfText(n.text, value))
  {
    NamedText(cls, value);
    assert "//" + cls + "[@text='" + value + "']" == Printed(cls, "text", value);
    hide Evaluate, IsFirst, Printed, PartOfText;
    PrintedFirst(nodes, cls, "text", value, scan, n => ClassFits(cls, n) && PartOfText(n.text, value));
  }

  lemma NamedText(cls: string, value: string)
    ensures PlainName("text")
    ensures forall n: XmlNode ::
              Accepts(Selector(cls, Some(("text", value))), n) <==> ClassFits(cls, n) && PartOfText(n.text, value)
  {
    Named(cls, "text", value);
    hide PartOfText, Contains;
    forall n: XmlNode
      ensures n.text == value || Contains(n.text, value) <==> PartOfText(n.text, value)
    {
      ContainsExact(n.text, value);
      WholePart(value);
    }
  }

  lemma WholePart(value: string)
    ensures PartOfText(value, value)
  {
    assert Slice(value, 0, |value|) == value;
  }

  /** The resource id is the value, or ends in it behind ":id/". */
  predicate IdFits(id: string, value: string) {
    id == value || exists k :: 0 <= k < |id| && id == id[..k] + ":id/" + value
  }

  lemma IdExact(id: string, value: string)
    ensures id == value || HasSuffix(id, ":id/" + value) <==> IdFits(id, value)
  {
    var tail := ":id/" + value;
    if HasSuffix(id, tail) {
      var k := |id| - |tail|;
      assert id == id[..k] + ":id/" + value;
    }
    if k :| 0 <= k < |id| && id == id[..k] + ":id/" + value {
      assert |id| == k + |tail|;
      assert id[|id| - |tail|..] == tail;
    }
  }

  lemma FindByResourceId(nodes: seq<XmlNode>, cls: string, value: string, scan: string -> Option<int>)
    requires Unambiguous(cls, value)
    ensures IsFirst(nodes, Evaluate(nodes, "//" + cls + "[@resource-id='" + value + "']", scan),
                    n => ClassFits(cls, n) && IdFits(n.resourceId, value))
  {
    NamedId(cls, value);
    assert "//" + cls + "[@resource-id='" + value + "']" == Printed(cls, "resource-id", value);
    hide Evaluate, IsFirst, Printed, IdFits;
    PrintedFirst(nodes, cls, "resource-id", value, scan, n => ClassFits(cls, n) && IdFits(n.resourceId, value));
  }

  lemma NamedId(cls: string, value: string)
    ensures PlainName("resource-id")
    ensures forall n: XmlNode ::
              Accepts(Selector(cls, Some(("resource-id", value))), n)
              <==> ClassFits(cls, n) && IdFits(n.resourceId, value)
  {
    Named(cls, "resource-id", value);
    hide IdFits, HasSuffix;
    forall n: XmlNode
      ensures n.resourceId == value || HasSuffix(n.resourceId, ":id/" + value) <==> IdFits(n.resourceId, value)
    {
      IdExact(n.resourceId, value);
    }
  }

  /** The names of the attributes are plain; for three of them a node is accepted on equality. */
  lemma Named(cls: string, name: string, value: string)
    ensures name in {"resource-id", "content-desc", "text", "class", "index"} ==> PlainName(name)
    ensures forall n: XmlNode ::
              Accepts(Selector(cls, Some(("content-desc", value))), n) <==> ClassFits(cls, n) && n.contentDesc == value
    ensures forall n: XmlNode ::
              Accepts(Selector(cls, Some(("class", value))), n) <==> ClassFits(cls, n) && n.cls == value
    ensures forall n: XmlNode ::
              Accepts(Selector(cls, Some(("index", value))), n) <==> ClassFits(cls, n) && n.index == value
  {
    hide HasSuffix, Contains;
  }

  /** A search by an attribute no case knows finds nothing. */
  lemma UnknownAttributeMissing(nodes: seq<XmlNode>, cls: string, name: string, value: string,
                                scan: string -> Option<int>)
    requires Unambiguous(cls, value) && PlainName(name)
    requires name !in {"resource-id", "content-desc", "text", "class", "index"}
    ensures Evaluate(nodes, Printed(cls, name, value), scan) == Missing
  {
    assert forall n: XmlNode :: !Accepts(Selector(cls, Some((name, value))), n);
    hide Evaluate;
    PrintedFirst(nodes, cls, name, value, scan, n => false);
  }

  // ---------------------------------------------------------------- no attribute, and the k-th match

  /** A search by class alone; the class may not end in a space, which trimming would take away. */
  lemma FindByClassAlone(nodes: seq<XmlNode>, cls: string, scan: string -> Option<int>)
    requires '[' !in cls && (cls != "" ==> cls[|cls| - 1] !in SPACES)
    ensures IsFirst(nodes, Evaluate(nodes, "//" + cls, scan), n => ClassFits(cls, n))
  {
    hide SPACES, Trim, Accepts, Matching, Walk, Split, IsFirst, Search;
    var x := "//" + cls;
    NoSpaces();
    TrimNothing(x, SPACES);
    assert x[..2] == "//" && x[..1] == "/" && x[2..] == cls;
    NotRooted(x);
    var sel := Selector(cls, None);
    SearchFirst(nodes, cls, sel);
    ClassAlone(cls);
    IsFirstSame(nodes, Search(nodes, cls, 1), n => Accepts(sel, n), n => ClassFits(cls, n));
  }

  lemma ClassAlone(cls: string)
    ensures forall n: XmlNode :: Accepts(Selector(cls, None), n) <==> ClassFits(cls, n)
  {
  }

  /** `(...)[k]` asks for the k-th match instead of the first. */
  lemma KthMatch(nodes: seq<XmlNode>, search: string, digits: string, k: int, scan: string -> Option<int>)
    requires HasPrefix(search, "//") && ')' !in digits && scan(digits) == Some(k)
    ensures Evaluate(nodes, "(" + search + ")[" + digits + "]", scan) == Search(nodes, search[2..], k)
  {
    hide SPACES, Trim, Search, Walk, Split, Last;
    var tail := "[" + digits + "]";
    var x := "(" + search + [')'] + tail;
    assert x == "(" + search + ")[" + digits + "]";
    NoBrackets();
    TrimNothing(x, SPACES);
    LastAt("(" + search, ')', tail);
    WrappedParts(search, digits);
    assert search[1] == search[..2][1];
    NotRooted(search);
  }

  lemma WrappedParts(search: string, digits: string)
    ensures var tail := "[" + digits + "]";
            var x := "(" + search + [')'] + tail;
            var n := |search| + 1;
            && |"(" + search| == n && x[n + 1..] == tail && x[1..n] == search && x[..1] == "("
            && tail[1..|tail| - 1] == digits
  {
  }

  /** Only `(...)[k]` with a readable k is unwrapped; everything else stands as it is, for its first match. */
  lemma UnwrapOnly(x: string, scan: string -> Option<int>)
    ensures var q := Unwrap(x, scan);
            || q == Query(x, 1)
            || exists digits: string :: x == "(" + q.path + ")[" + digits + "]" && scan(digits) == Some(q.target)
  {
    hide Last;
    if HasPrefix(x, "(") && Last(x, ')').Some? {
      var k := Last(x, ')').value;
      var suffix := x[k + 1..];
      assert x[..1] == "(" && x[0] == '(' && x[k] == ')';
      if |suffix| >= 2 && suffix[0] == '[' && suffix[|suffix| - 1] == ']' {
        WrappedForm(x, k);
      }
    }
  }

  lemma WrappedForm(x: string, k: nat)
    requires 0 < k < |x| - 2 && x[0] == '(' && x[k] == ')' && x[k + 1] == '[' && x[|x| - 1] == ']'
    ensures var suffix := x[k + 1..];
            x == "(" + x[1..k] + ")[" + suffix[1..|suffix| - 1] + "]"
  {
    var suffix := x[k + 1..];
    var inner, digits := x[1..k], suffix[1..|suffix| - 1];
    var y := "(" + inner + ")[" + digits + "]";
    assert digits == x[k + 2..|x| - 1];
    assert |y| == |x|;
    forall i | 0 <= i < |x|
      ensures x[i] == y[i]
    {
      if 0 < i < k {
        assert y[i] == inner[i - 1];
      } else if k + 1 < i < |x| - 1 {
        assert y[i] == digits[i - k - 2];
      }
    }
  }

  lemma NoBrackets()
    ensures '(' !in SPACES && ']' !in SPACES
  {
  }

  lemma {:induction false} LastIn(whole: string, n: nat, c: char)
    requires n < |whole| && whole[n] == c && c !in whole[n + 1..]
    ensures Last(whole, c) == Some(n)
    decreases |whole|
  {
    if n == |whole| - 1 {
    } else {
      var init := whole[..|whole| - 1];
      assert whole[n + 1..] == init[n + 1..] + [whole[|whole| - 1]];
      LastIn(init, n, c);
    }
  }

  lemma LastAt(s: string, c: char, t: string)
    requires c !in t
    ensures Last(s + [c] + t, c) == Some(|s|)
  {
    hide Last;
    assert (s + [c] + t)[|s| + 1..] == t;
    LastIn(s + [c] + t, |s|, c);
  }

  // ---------------------------------------------------------------- surrounding space

  lemma {:induction false} LeftTrimmed(pad: string, s: string)
    requires forall k :: 0 <= k < |pad| ==> pad[k] in SPACES
    ensures TrimLeft(pad + s, SPACES) == TrimLeft(s, SPACES)
  {
    hide SPACES;
    if pad == "" {
      assert pad + s == s;
    } else {
      assert (pad + s)[1..] == pad[1..] + s;
      LeftTrimmed(pad[1..], s);
    }
  }

  lemma {:induction false} RightTrimmed(s: string, pad: string)
    requires forall k :: 0 <= k < |pad| ==> pad[k] in SPACES
    ensures TrimRight(s + pad, SPACES) == TrimRight(s, SPACES)
    decreases |pad|
  {
    hide SPACES;
    if pad == "" {
      assert s + pad == s;
    } else {
      var n := |pad| - 1;
      assert (s + pad)[..|s + pad| - 1] == s + pad[..n];
      RightTrimmed(s, pad[..n]);
    }
  }

  /** Blanks, tabs and line ends around an XPath that starts and ends otherwise make no difference. */
  lemma SurroundingSpaceIgnored(nodes: seq<XmlNode>, x: string, left: string, right: string,
                                scan: string -> Option<int>)
    requires x != "" && x[0] !in SPACES && x[|x| - 1] !in SPACES
    requires forall k :: 0 <= k < |left| ==> left[k] in {' ', '\t', '\n', '\r'}
    requires forall k :: 0 <= k < |right| ==> right[k] in {' ', '\t', '\n', '\r'}
    ensures Evaluate(nodes, left + x + right, scan) == Evaluate(nodes, x, scan)
  {
    Blanks();
    hide SPACES, Search, Walk, Split, Unwrap, TrimLeft, TrimRight;
    TrimNothing(x, SPACES);
    assert left + x + right == left + (x + right);
    LeftTrimmed(left, x + right);
    NothingLeft(x, right);
    RightTrimmed(x, right);
    NothingRight(x);
  }

  lemma Blanks()
    ensures {' ', '\t', '\n', '\r'} <= SPACES
  {
  }

  lemma NothingLeft(x: string, right: string)
    requires x != "" && x[0] !in SPACES
    ensures TrimLeft(x + right, SPACES) == x + right
  {
    hide SPACES;
  }

  lemma NothingRight(x: string)
    requires x != "" && x[|x| - 1] !in SPACES
    ensures TrimRight(x, SPACES) == x
  {
    hide SPACES;
  }

  // ---------------------------------------------------------------- indexed paths

  /** An indexed path of one part finds the first top-level node with that index. */
  lemma FindAtTop(nodes: seq<XmlNode>, index: string, scan: string -> Option<int>)
    requires '/' !in index
    ensures var r := Evaluate(nodes, "/hierarchy/node[@index='" + index + "']", scan);
            match r
            case Found(p) =>
              |p| == 1 && p[0] < |nodes| && nodes[p[0]].index == index
              && forall k :: 0 <= k < p[0] ==> nodes[k].index != index
            case Missing => forall k :: 0 <= k < |nodes| ==> nodes[k].index != index
            case Panics => false
  {
    var part := "node[@index='" + index + "']";
    var x := "/hierarchy/node[@index='" + index + "']";
    assert x == ROOT + part && x[|ROOT|..] == part;
    IndexPart(index);
    NoSpaces();
    hide SPACES, Split, IndexOf, Search, FirstWith;
    TrimNothing(x, SPACES);
    assert x[..1] == "/";
    SplitPlain(part);
  }

  lemma IndexPart(index: string)
    requires '/' !in index
    ensures var part := "node[@index='" + index + "']";
            IndexOf(part) == Index(index) && '/' !in part
  {
    var part := BEFORE + (index + AFTER);
    assert part == "node[@index='" + index + "']";
    assert part[..|BEFORE|] == BEFORE;
    assert part[|part| - |AFTER|..] == AFTER;
    assert part[|BEFORE|..|part| - |AFTER|] == index;
  }
}
