/**
 * html.go: finding the nodes of a parsed document that match an element
 * selector (Element.GetElementNodes), and reading the text of a node
 * (GetTextOfNode).  The parsed tree is an input; fetching and parsing are
 * not part of this model.
 */
module Html {
  import opened Results

  /** The node kinds of golang.org/x/net/html. */
  datatype NodeType = ErrorNode | TextNode | DocumentNode | ElementNode | CommentNode | DoctypeNode | RawNode

  /** One attribute of an element node, in document order. */
  datatype Attribute = Attribute(key: string, val: string)

  /**
   * A parsed node.  `data` is the tag name of an element node and the text of
   * a text node; `children` lists FirstChild, its NextSibling, and so on.
   */
  datatype Node = Node(nodeType: NodeType, data: string, attr: seq<Attribute>, children: seq<Node>)

  /** A required attribute of a selector: name `typ` with value `value`. */
  datatype Tag = Tag(typ: string, value: string)

  /** A selector: a tag name and the attributes a node must carry. */
  datatype Element = Element(typ: string, tags: seq<Tag>)

  predicate Satisfies(a: Attribute, tag: Tag)
  {
    a.key == tag.typ && a.val == tag.value
  }

  /** Some attribute has the tag's name and value. */
  predicate HasAttribute(attrs: seq<Attribute>, tag: Tag)
  {
    exists k :: 0 <= k < |attrs| && Satisfies(attrs[k], tag)
  }

  /** The meaning of a selector: an element node with that tag name carrying every required attribute. */
  predicate Matches(e: Element, n: Node)
  {
    n.nodeType == ElementNode && n.data == e.typ
    && forall i :: 0 <= i < |e.tags| ==> HasAttribute(n.attr, e.tags[i])
  }

  // ---------------------------------------------------------------------------
  // The attribute count of the crawler

  /** The number of tags that some attribute satisfies: the final value of `foundTags`. */
  function CountFound(tags: seq<Tag>, attrs: seq<Attribute>): (n: nat)
    ensures n <= |tags|
  {
    if tags == [] then 0
    else CountFound(tags[..|tags| - 1], attrs) + (if HasAttribute(attrs, tags[|tags| - 1]) then 1 else 0)
  }

  /** The count reaches the number of tags exactly when every tag is satisfied. */
  lemma {:induction false} CountFoundAll(tags: seq<Tag>, attrs: seq<Attribute>)
    ensures CountFound(tags, attrs) == |tags| <==> forall i :: 0 <= i < |tags| ==> HasAttribute(attrs, tags[i])
  {
    if tags != [] {
      var front := tags[..|tags| - 1];
      CountFoundAll(front, attrs);
      assert forall i :: 0 <= i < |front| ==> front[i] == tags[i];
    }
  }

  /**
   * The counting loop of the crawler: for each tag, scan the attributes and
   * count the tag once, at its first satisfying attribute.
   */
  method CountFoundTags(tags: seq<Tag>, attrs: seq<Attribute>) returns (found: nat)
    ensures found == CountFound(tags, attrs)
  {
    found := 0;
    for i := 0 to |tags|
      invariant found == CountFound(tags[..i], attrs)
    {
      var tag := tags[i];
      ghost var before := found;
      var j := 0;
      while j < |attrs|
        invariant 0 <= j <= |attrs|
        invariant found == before
        invariant forall k :: 0 <= k < j ==> !Satisfies(attrs[k], tag)
      {
        if attrs[j].key == tag.typ && attrs[j].val == tag.value {
          found := found + 1;
          break;
        }
        j := j + 1;
      }
      assert tags[..i + 1][..i] == tags[..i];
    }
    assert tags[..|tags|] == tags;
  }

  /** The crawler's test at one node: element node, same tag name, every tag counted. */
  predicate Selects(e: Element, n: Node)
  {
    n.nodeType == ElementNode && n.data == e.typ && CountFound(e.tags, n.attr) == |e.tags|
  }

  /**
   * The crawler's test is the selector's meaning: tags form a conjunction,
   * extra attributes and attribute order do not matter, and with no tags
   * every element with the tag name qualifies.
   */
  lemma SelectsIffMatches(e: Element, n: Node)
    ensures Selects(e, n) <==> Matches(e, n)
    ensures e.tags == [] ==> (Selects(e, n) <==> n.nodeType == ElementNode && n.data == e.typ)
  {
    CountFoundAll(e.tags, n.attr);
  }

  // ---------------------------------------------------------------------------
  // The crawler

  /**
   * What the crawler returns for node `n`: the node alone when it is selected;
   * otherwise the matches under the first child, and then the matches under
   * every child, the first one included again.
   */
  function Crawl(e: Element, n: Node): seq<Node>
    decreases n
  {
    if Selects(e, n) then [n]
    else (if |n.children| > 0 then Crawl(e, n.children[0]) else []) + CrawlChildren(e, n.children)
  }

  /** The crawler applied to each of `cs`, results concatenated in sibling order. */
  function CrawlChildren(e: Element, cs: seq<Node>): seq<Node>
    decreases cs
  {
    if cs == [] then [] else CrawlChildren(e, cs[..|cs| - 1]) + Crawl(e, cs[|cs| - 1])
  }

  lemma {:induction false} CrawlChildrenCons(e: Element, c: Node, cs: seq<Node>)
    ensures CrawlChildren(e, [c] + cs) == Crawl(e, c) + CrawlChildren(e, cs)
    decreases |cs|
  {
    if cs == [] {
      assert ([c] + cs)[..0] == [];
    } else {
      var front := cs[..|cs| - 1];
      assert ([c] + cs)[..|cs|] == [c] + front;
      CrawlChildrenCons(e, c, front);
    }
  }

  /**
   * The walk's shape: a selected node is returned alone and its descendants
   * are not searched; an unselected node with children yields the matches of
   * its first child twice, followed by those of the remaining children.
   */
  lemma CrawlShape(e: Element, n: Node)
    ensures Selects(e, n) ==> Crawl(e, n) == [n]
    ensures !Selects(e, n) && n.children == [] ==> Crawl(e, n) == []
    ensures !Selects(e, n) && n.children != [] ==>
              Crawl(e, n) == Crawl(e, n.children[0]) + Crawl(e, n.children[0]) + CrawlChildren(e, n.children[1..])
  {
    if n.children != [] {
      assert n.children == [n.children[0]] + n.children[1..];
      CrawlChildrenCons(e, n.children[0], n.children[1..]);
    }
  }

  /** A match directly under a non-matching node is returned twice. */
  lemma CrawlDuplicatesFirstChild(e: Element, leaf: Node, parent: Node)
    requires Selects(e, leaf) && !Selects(e, parent) && parent.children == [leaf]
    ensures Crawl(e, parent) == [leaf, leaf]
  {
    CrawlShape(e, parent);
    assert parent.children[1..] == [];
  }

  /** `x` is `n` or one of its descendants. */
  predicate InTree(x: Node, n: Node)
    decreases n
  {
    x == n || exists i :: 0 <= i < |n.children| && InTree(x, n.children[i])
  }

  /** Every node the crawler returns lies in the searched tree and matches the selector. */
  lemma {:induction false} CrawlSound(e: Element, n: Node)
    ensures forall x :: x in Crawl(e, n) ==> InTree(x, n) && Matches(e, x)
    decreases n, 1
  {
    if Selects(e, n) {
      SelectsIffMatches(e, n);
    } else {
      CrawlChildrenSound(e, n, |n.children|);
      assert n.children[..|n.children|] == n.children;
      if |n.children| > 0 {
        CrawlSound(e, n.children[0]);
        forall x | x in Crawl(e, n.children[0]) ensures InTree(x, n) {
          assert InTree(x, n.children[0]);
        }
      }
    }
  }

  lemma {:induction false} CrawlChildrenSound(e: Element, n: Node, m: nat)
    requires m <= |n.children|
    ensures forall x :: x in CrawlChildren(e, n.children[..m]) ==> InTree(x, n) && Matches(e, x)
    decreases n, 0, m
  {
    if m > 0 {
      var cs := n.children[..m];
      assert cs[..m - 1] == n.children[..m - 1];
      CrawlChildrenSound(e, n, m - 1);
      CrawlSound(e, n.children[m - 1]);
    }
  }

  /** `x` is a selected node of the tree that has no selected proper ancestor. */
  predicate TopMatch(e: Element, x: Node, n: Node)
    decreases n
  {
    if Selects(e, n) then x == n
    else exists i :: 0 <= i < |n.children| && TopMatch(e, x, n.children[i])
  }

  /** A matching node anywhere in the tree means some top-most match exists. */
  lemma {:induction false} MatchHasTopMatch(e: Element, y: Node, n: Node)
    requires InTree(y, n) && Matches(e, y)
    ensures exists x :: TopMatch(e, x, n)
    decreases n
  {
    if !Selects(e, n) {
      if y == n {
        SelectsIffMatches(e, n);
      } else {
        var i :| 0 <= i < |n.children| && InTree(y, n.children[i]);
        MatchHasTopMatch(e, y, n.children[i]);
        var x :| TopMatch(e, x, n.children[i]);
        assert TopMatch(e, x, n);
      }
    } else {
      assert TopMatch(e, n, n);
    }
  }

  lemma {:induction false} InCrawlChildren(e: Element, cs: seq<Node>, x: Node)
    ensures x in CrawlChildren(e, cs) <==> exists i :: 0 <= i < |cs| && x in Crawl(e, cs[i])
    decreases |cs|
  {
    if cs != [] {
      var front := cs[..|cs| - 1];
      InCrawlChildren(e, front, x);
      if exists i :: 0 <= i < |cs| && x in Crawl(e, cs[i]) {
        var i :| 0 <= i < |cs| && x in Crawl(e, cs[i]);
        if i < |front| {
          assert front[i] == cs[i];
        }
      }
      if exists i :: 0 <= i < |front| && x in Crawl(e, front[i]) {
        var i :| 0 <= i < |front| && x in Crawl(e, front[i]);
        assert cs[i] == front[i];
      }
    }
  }

  /**
   * Ignoring repetitions, the crawler returns exactly the selected nodes that
   * have no selected ancestor: a match hides its own descendants.
   */
  lemma {:induction false} CrawlFindsTopMatches(e: Element, n: Node, x: Node)
    ensures x in Crawl(e, n) <==> TopMatch(e, x, n)
    decreases n
  {
    if !Selects(e, n) {
      InCrawlChildren(e, n.children, x);
      forall i | 0 <= i < |n.children|
        ensures x in Crawl(e, n.children[i]) <==> TopMatch(e, x, n.children[i])
      {
        CrawlFindsTopMatches(e, n.children[i], x);
      }
    }
  }

  lemma CrawlChildrenSnoc(e: Element, cs: seq<Node>, i: nat)
    requires i < |cs|
    ensures CrawlChildren(e, cs[..i + 1]) == CrawlChildren(e, cs[..i]) + Crawl(e, cs[i])
  {
    assert cs[..i + 1][..i] == cs[..i];
  }

  /** The crawler: the test at the node, the first child, then the loop over all children. */
  method Crawler(e: Element, n: Node) returns (elements: seq<Node>)
    ensures elements == Crawl(e, n)
    decreases n, 1
  {
    if n.nodeType == ElementNode && n.data == e.typ {
      var foundTags := CountFoundTags(e.tags, n.attr);
      if |e.tags| == foundTags {
        return [n];
      }
    }
    elements := [];
    if |n.children| > 0 {
      var first := Crawler(e, n.children[0]);
      elements := elements + first;
    }
    elements := AppendCrawls(e, n, elements);
  }

  /** The loop of the crawler: the matches under each child appended in sibling order. */
  method AppendCrawls(e: Element, n: Node, head: seq<Node>) returns (elements: seq<Node>)
    ensures elements == head + CrawlChildren(e, n.children)
    decreases n, 0
  {
    elements := head;
    for i := 0 to |n.children|
      invariant elements == head + CrawlChildren(e, n.children[..i])
    {
      var found := Crawler(e, n.children[i]);
      CrawlChildrenSnoc(e, n.children, i);
      elements := elements + found;
    }
    assert n.children[..|n.children|] == n.children;
  }

  /** The diagnostic GetElementNodes returns when nothing matches. */
  function MissingMessage(e: Element): string
  {
    "missing " + e.typ + " in the node tree"
  }

  /**
   * Element.GetElementNodes: the crawler's result when it is non-empty,
   * otherwise the error "missing <typ> in the node tree".
   */
  method GetElementNodes(e: Element, doc: Node) returns (r: Result<seq<Node>, string>)
    ensures r.Success? <==> Crawl(e, doc) != []
    ensures r.Success? ==> r.value == Crawl(e, doc)
    ensures r.Success? ==> forall k :: 0 <= k < |r.value| ==> InTree(r.value[k], doc) && Matches(e, r.value[k])
    ensures r.Success? ==> forall x :: x in r.value <==> TopMatch(e, x, doc)
    ensures r.Failure? ==> r.error == MissingMessage(e) && forall y :: InTree(y, doc) ==> !Matches(e, y)
  {
    var el := Crawler(e, doc);
    CrawlSound(e, doc);
    forall x ensures x in el <==> TopMatch(e, x, doc) {
      CrawlFindsTopMatches(e, doc, x);
    }
    if |el| > 0 {
      return Success(el);
    }
    forall y | InTree(y, doc) ensures !Matches(e, y) {
      if Matches(e, y) {
        MatchHasTopMatch(e, y, doc);
      }
    }
    return Failure("missing " + e.typ + " in the node tree");
  }

  // ---------------------------------------------------------------------------
  // Text of a node

  /** The node's own text: its data for a text node, "" for any other node. */
  function OwnText(n: Node): string
  {
    if n.nodeType == TextNode then n.data else ""
  }

  /** GetTextOfNode's result. */
  function Text(n: Node, notRecursive: bool): string
    decreases n
  {
    OwnText(n) + (if notRecursive then "" else ChildrenText(n.children))
  }

  /** The recursive text of each of `cs`, concatenated in sibling order. */
  function ChildrenText(cs: seq<Node>): string
    decreases cs
  {
    if cs == [] then "" else ChildrenText(cs[..|cs| - 1]) + Text(cs[|cs| - 1], false)
  }

  lemma ChildrenTextSnoc(cs: seq<Node>, i: nat)
    requires i < |cs|
    ensures ChildrenText(cs[..i + 1]) == ChildrenText(cs[..i]) + Text(cs[i], false)
  {
    assert cs[..i + 1][..i] == cs[..i];
  }

  /** GetTextOfNode: the own text, then (unless `notRecursive`) each child's text in order. */
  method GetTextOfNode(node: Node, notRecursive: bool) returns (finished: string)
    ensures finished == Text(node, notRecursive)
    decreases node, 1
  {
    finished := "";
    if node.nodeType == TextNode {
      finished := finished + node.data;
    }
    if !notRecursive {
      finished := AppendChildrenText(node, finished);
    }
  }

  /** The loop of GetTextOfNode: the recursive text of each child appended in order. */
  method AppendChildrenText(node: Node, own: string) returns (finished: string)
    ensures finished == own + ChildrenText(node.children)
    decreases node, 0
  {
    finished := own;
    for i := 0 to |node.children|
      invariant finished == own + ChildrenText(node.children[..i])
    {
      var t := GetTextOfNode(node.children[i], false);
      ChildrenTextSnoc(node.children, i);
      finished := finished + t;
    }
    assert node.children[..|node.children|] == node.children;
  }

  /** All nodes of the subtree in document (pre-)order. */
  function PreOrder(n: Node): seq<Node>
    decreases n
  {
    [n] + PreOrderAll(n.children)
  }

  function PreOrderAll(cs: seq<Node>): seq<Node>
    decreases cs
  {
    if cs == [] then [] else PreOrderAll(cs[..|cs| - 1]) + PreOrder(cs[|cs| - 1])
  }

  /** The own text of each node of `ns`, concatenated. */
  function TextsOf(ns: seq<Node>): string
  {
    if ns == [] then "" else OwnText(ns[0]) + TextsOf(ns[1..])
  }

  lemma {:induction false} TextsOfAppend(a: seq<Node>, b: seq<Node>)
    ensures TextsOf(a + b) == TextsOf(a) + TextsOf(b)
  {
    if a == [] {
      assert a + b == b;
    } else {
      assert (a + b)[1..] == a[1..] + b;
      TextsOfAppend(a[1..], b);
    }
  }

  /**
   * Recursive extraction is the data of every text node of the subtree,
   * concatenated in document order with nothing in between.
   */
  lemma {:induction false} TextIsDocumentOrderText(n: Node)
    ensures Text(n, false) == TextsOf(PreOrder(n))
    decreases n, 1
  {
    ChildrenTextIsDocumentOrderText(n, |n.children|);
    assert n.children[..|n.children|] == n.children;
    TextsOfAppend([n], PreOrderAll(n.children));
  }

  lemma {:induction false} ChildrenTextIsDocumentOrderText(n: Node, m: nat)
    requires m <= |n.children|
    ensures ChildrenText(n.children[..m]) == TextsOf(PreOrderAll(n.children[..m]))
    decreases n, 0, m
  {
    if m > 0 {
      var cs := n.children[..m];
      assert cs[..m - 1] == n.children[..m - 1];
      ChildrenTextIsDocumentOrderText(n, m - 1);
      TextIsDocumentOrderText(n.children[m - 1]);
      TextsOfAppend(PreOrderAll(n.children[..m - 1]), PreOrder(n.children[m - 1]));
    }
  }

  /**
   * Non-recursive extraction reads only the node itself, and it is always a
   * prefix of the recursive text.
   */
  lemma ShallowTextIsOwnText(n: Node)
    ensures Text(n, true) == OwnText(n)
    ensures Text(n, true) <= Text(n, false)
    ensures n.nodeType != TextNode ==> Text(n, true) == ""
  {
  }

  /**
   * The nested-text paragraph of the package's tests: recursive extraction
   * gives "This is some nested text"; non-recursive extraction of the
   * paragraph, an element node, gives "".
   */
  lemma NestedParagraphText()
    ensures var inner := Node(TextNode, "nested text", [], []);
            var span := Node(ElementNode, "span", [Attribute("id", "insideOfNestedElement")], [inner]);
            var p := Node(ElementNode, "p", [Attribute("id", "nestedElement")],
                          [Node(TextNode, "This is some ", [], []), span]);
            Text(p, false) == "This is some " + "nested text" && Text(p, true) == ""
  {
    var inner := Node(TextNode, "nested text", [], []);
    var span := Node(ElementNode, "span", [Attribute("id", "insideOfNestedElement")], [inner]);
    var first := Node(TextNode, "This is some ", [], []);
    var p := Node(ElementNode, "p", [Attribute("id", "nestedElement")], [first, span]);
    assert ChildrenText(span.children) == "nested text" by {
      assert span.children[..0] == [];
    }
    assert Text(span, false) == "nested text";
    assert ChildrenText(p.children[..1]) == "This is some " by {
      assert p.children[..1][..0] == [];
    }
    assert p.children[..2][..1] == p.children[..1];
    assert p.children[..2] == p.children;
  }
}
