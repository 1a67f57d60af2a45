/**
 * scrape.go, the tree-based revision: one lookup selects a node of the parsed
 * document, formats its text and possibly follows it as the URL of a nested
 * website (LookUpElement.ScrapeTreeForElement); a website runs its lookups in
 * order and joins their results with its separator (Website.Scrape).
 *
 * Fetching and parsing are one abstract function `fetch` from URL to tree or
 * error message.  Follow recursion is bounded by `fuel`.
 */
module Scrape {
  import opened Results
  import opened GoStrings
  import opened Helpers
  import opened Html

  /** One replacement rule: every occurrence of `toBeReplaced` becomes `replacement`. */
  datatype ReplaceObj = ReplaceObj(toBeReplaced: string, replacement: string)

  datatype FormatSettings = FormatSettings(replacements: seq<ReplaceObj>, trim: seq<string>, addBefore: string, addAfter: string)

  datatype Settings = Settings(formatSettings: FormatSettings, disallowRecursiveContent: bool)

  /** A lookup; `contentIsFollowURL` is Go's `*Website`, null for nil. */
  datatype LookUpElement = LookUpElement(element: Element, settings: Settings, contentIsFollowURL: Website?, index: int)

  /**
   * A website.  The scraper writes only `url` (of a follow target, through the
   * lookup's pointer); it never writes the other fields of a caller's website.
   */
  class Website {
    var url: string
    const lookUpElements: seq<LookUpElement>
    const separator: string

    constructor (url: string, lookUpElements: seq<LookUpElement>, separator: string)
      ensures this.url == url && this.lookUpElements == lookUpElements && this.separator == separator
    {
      this.url := url;
      this.lookUpElements := lookUpElements;
      this.separator := separator;
    }
  }

  datatype ScrapeError =
    | ElementMissing(message: string)   // GetElementNodes' error, passed on unchanged
    | IndexOutOfRange
    | FetchFailed(message: string)      // the fetch-and-parse collaborator's error
    | FollowDepthExceeded               // the fuel bound of this model

  function Message(err: ScrapeError): string
  {
    match err
    case ElementMissing(m) => m
    case IndexOutOfRange => "element index out of range"
    case FetchFailed(m) => m
    case FollowDepthExceeded => "follow depth exceeded"
  }

  // ---------------------------------------------------------------------------
  // Well-formedness and frames, up to a follow depth

  /** Go indexes the match slice with `index`, so it must not be negative, here or in followed websites. */
  predicate LookUpValid(e: LookUpElement, fuel: nat)
    decreases fuel, 0
  {
    e.index >= 0
    && (e.contentIsFollowURL != null && fuel > 0 ==> IndicesValid(e.contentIsFollowURL.lookUpElements, fuel - 1))
  }

  predicate IndicesValid(lookUps: seq<LookUpElement>, fuel: nat)
    decreases fuel, 1
  {
    forall i :: 0 <= i < |lookUps| ==> LookUpValid(lookUps[i], fuel)
  }

  /** The websites whose URL a lookup may overwrite: its follow target, and theirs within `fuel` levels. */
  function ReachOne(e: LookUpElement, fuel: nat): set<Website>
    decreases fuel, 0
  {
    if e.contentIsFollowURL == null then {}
    else {e.contentIsFollowURL}
         + (if fuel > 0 then ReachAll(e.contentIsFollowURL.lookUpElements, fuel - 1) else {})
  }

  function ReachAll(lookUps: seq<LookUpElement>, fuel: nat): set<Website>
    decreases fuel, 1, |lookUps|
  {
    if lookUps == [] then {}
    else ReachAll(lookUps[..|lookUps| - 1], fuel) + ReachOne(lookUps[|lookUps| - 1], fuel)
  }

  lemma {:induction false} ReachOneInAll(lookUps: seq<LookUpElement>, i: nat, fuel: nat)
    requires i < |lookUps|
    ensures ReachOne(lookUps[i], fuel) <= ReachAll(lookUps, fuel)
    decreases |lookUps|
  {
    if i < |lookUps| - 1 {
      var front := lookUps[..|lookUps| - 1];
      assert front[i] == lookUps[i];
      ReachOneInAll(front, i, fuel);
    }
  }

  // ---------------------------------------------------------------------------
  // The format chain

  /** Each replacement rule applied with ReplaceAll, in list order, to the previous output. */
  function ApplyReplacements(s: string, rs: seq<ReplaceObj>): string
  {
    if rs == [] then s
    else ReplaceAll(ApplyReplacements(s, rs[..|rs| - 1]), rs[|rs| - 1].toBeReplaced, rs[|rs| - 1].replacement)
  }

  /** Rules listed in two parts apply as the first part followed by the second. */
  lemma {:induction false} ApplyReplacementsAppend(s: string, a: seq<ReplaceObj>, b: seq<ReplaceObj>)
    ensures ApplyReplacements(s, a + b) == ApplyReplacements(ApplyReplacements(s, a), b)
  {
    if b == [] {
      assert a + b == a;
    } else {
      assert (a + b)[..|a + b| - 1] == a + b[..|b| - 1];
      ApplyReplacementsAppend(s, a, b[..|b| - 1]);
    }
  }

  /** Text in which no (non-empty) target occurs is left alone by every rule. */
  lemma {:induction false} ApplyReplacementsAbsent(s: string, rs: seq<ReplaceObj>)
    requires forall i :: 0 <= i < |rs| ==> rs[i].toBeReplaced != [] && !Contains(s, rs[i].toBeReplaced)
    ensures ApplyReplacements(s, rs) == s
  {
    if rs != [] {
      ApplyReplacementsAbsent(s, rs[..|rs| - 1]);
    }
  }

  /**
   * The format chain: replacements, then trims, then the suffix, then the
   * prefix.  The decoration is neither replaced nor trimmed.
   */
  function FormatContent(text: string, fs: FormatSettings): (r: string)
    ensures var mid := TrimEach(ApplyReplacements(text, fs.replacements), fs.trim);
            r == fs.addBefore + (mid + fs.addAfter)
            && |mid| <= |ApplyReplacements(text, fs.replacements)|
            && (fs.trim != [] && mid != [] ==> mid[0] !in fs.trim[|fs.trim| - 1] && mid[|mid| - 1] !in fs.trim[|fs.trim| - 1])
  {
    fs.addBefore + (TrimEach(ApplyReplacements(text, fs.replacements), fs.trim) + fs.addAfter)
  }

  /** With no rules, the chain is the identity, so applying it twice is too. */
  lemma EmptyFormatIsIdentity(text: string)
    ensures FormatContent(text, FormatSettings([], [], "", "")) == text
    ensures FormatContent(FormatContent(text, FormatSettings([], [], "", "")), FormatSettings([], [], "", "")) == text
  {
  }

  // ---------------------------------------------------------------------------
  // Specification of a lookup and of a website

  /** A lookup's formatted content, before any follow: node search, index check, text, format chain. */
  function LookUpContent(e: LookUpElement, tree: Node): Result<string, ScrapeError>
    requires e.index >= 0
  {
    var nodes := Crawl(e.element, tree);
    if nodes == [] then Failure(ElementMissing(MissingMessage(e.element)))
    else if |nodes| - 1 < e.index then Failure(IndexOutOfRange)
    else Success(FormatContent(Text(nodes[e.index], e.settings.disallowRecursiveContent), e.settings.formatSettings))
  }

  /** A lookup's contribution: its content, or the nested website's result when it has a follow target. */
  function ScrapeLookUp(e: LookUpElement, tree: Node, fetch: string -> Result<Node, string>, fuel: nat): Result<string, ScrapeError>
    requires LookUpValid(e, fuel)
    decreases fuel, 0
  {
    match LookUpContent(e, tree)
    case Failure(err) => Failure(err)
    case Success(content) =>
      if e.contentIsFollowURL == null then Success(content)
      else if fuel == 0 then Failure(FollowDepthExceeded)
      else ScrapeSite(content, e.contentIsFollowURL.separator, e.contentIsFollowURL.lookUpElements, fetch, fuel - 1)
  }

  /** The lookups of a website in order; the first failure is the result. */
  function ScrapeAll(lookUps: seq<LookUpElement>, tree: Node, fetch: string -> Result<Node, string>, fuel: nat): Result<seq<string>, ScrapeError>
    requires IndicesValid(lookUps, fuel)
    decreases fuel, 1, |lookUps|
  {
    if lookUps == [] then Success([])
    else
      var front := lookUps[..|lookUps| - 1];
      assert IndicesValid(front, fuel) by {
        forall i | 0 <= i < |front| ensures LookUpValid(front[i], fuel) {
          assert front[i] == lookUps[i];
        }
      }
      match ScrapeAll(front, tree, fetch, fuel)
      case Failure(err) => Failure(err)
      case Success(fragments) =>
        match ScrapeLookUp(lookUps[|lookUps| - 1], tree, fetch, fuel)
        case Failure(err) => Failure(err)
        case Success(f) => Success(fragments + [f])
  }

  /** A website scraped at `url` with separator `separator`. */
  function ScrapeSite(url: string, separator: string, lookUps: seq<LookUpElement>,
                      fetch: string -> Result<Node, string>, fuel: nat): Result<string, ScrapeError>
    requires IndicesValid(lookUps, fuel)
    decreases fuel, 2
  {
    match fetch(url)
    case Failure(msg) => Failure(FetchFailed(msg))
    case Success(tree) =>
      match ScrapeAll(lookUps, tree, fetch, fuel)
      case Failure(err) => Failure(err)
      case Success(fragments) => Success(Join(fragments, separator))
  }

  /** The URL and separator a website is fetched with: rewritten only when a registry is given. */
  function Prepare<C>(s: string, funcs: Option<Registry<C>>, vars: seq<C>): string
  {
    if funcs.Some? then Substitute(s, funcs.value, vars) else s
  }

  // ---------------------------------------------------------------------------
  // Properties of the specification

  /**
   * The index check: the error "element index out of range" is raised exactly
   * when some node matches and `index` exceeds the last position; the last
   * position itself succeeds.  A search without matches reports
   * GetElementNodes' error unchanged.
   */
  lemma LookUpContentErrors(e: LookUpElement, tree: Node)
    requires e.index >= 0
    ensures LookUpContent(e, tree) == Failure(ElementMissing(MissingMessage(e.element))) <==> Crawl(e.element, tree) == []
    ensures LookUpContent(e, tree) == Failure(IndexOutOfRange)
            <==> Crawl(e.element, tree) != [] && e.index > |Crawl(e.element, tree)| - 1
    ensures e.index == |Crawl(e.element, tree)| - 1 ==> LookUpContent(e, tree).Success?
    ensures LookUpContent(e, tree).Success? ==>
              var node := Crawl(e.element, tree)[e.index];
              Matches(e.element, node) && InTree(node, tree)
              && LookUpContent(e, tree).value
                 == FormatContent(Text(node, e.settings.disallowRecursiveContent), e.settings.formatSettings)
  {
    CrawlSound(e.element, tree);
  }

  /**
   * With a follow target, the content becomes the nested website's URL and the
   * nested website's own result, joined with its own separator and without
   * placeholder substitution, replaces the content entirely.
   */
  lemma FollowReplacesContent(e: LookUpElement, tree: Node, fetch: string -> Result<Node, string>, fuel: nat)
    requires LookUpValid(e, fuel) && fuel > 0 && e.contentIsFollowURL != null
    requires LookUpContent(e, tree).Success?
    ensures ScrapeLookUp(e, tree, fetch, fuel)
            == ScrapeSite(Prepare<int>(LookUpContent(e, tree).value, None, []),
                          e.contentIsFollowURL.separator, e.contentIsFollowURL.lookUpElements, fetch, fuel - 1)
  {
  }

  /** A prefix of well-formed lookups is well-formed. */
  lemma IndicesValidPrefix(lookUps: seq<LookUpElement>, k: nat, fuel: nat)
    requires IndicesValid(lookUps, fuel) && k <= |lookUps|
    ensures IndicesValid(lookUps[..k], fuel)
  {
    forall i | 0 <= i < k ensures LookUpValid(lookUps[..k][i], fuel) {
      assert lookUps[..k][i] == lookUps[i];
    }
  }

  /** One step of ScrapeAll: the lookups before the last one, then the last one. */
  lemma ScrapeAllSnoc(lookUps: seq<LookUpElement>, tree: Node, fetch: string -> Result<Node, string>, fuel: nat)
    requires IndicesValid(lookUps, fuel) && lookUps != []
    ensures IndicesValid(lookUps[..|lookUps| - 1], fuel)
    ensures var front := ScrapeAll(lookUps[..|lookUps| - 1], tree, fetch, fuel);
            var last := ScrapeLookUp(lookUps[|lookUps| - 1], tree, fetch, fuel);
            ScrapeAll(lookUps, tree, fetch, fuel)
            == if front.Failure? then front
               else if last.Failure? then Failure(last.error)
               else Success(front.value + [last.value])
  {
    IndicesValidPrefix(lookUps, |lookUps| - 1, fuel);
  }

  /** A successful website scrape holds one fragment per lookup, each that lookup's contribution. */
  lemma {:induction false} ScrapeAllFragments(lookUps: seq<LookUpElement>, tree: Node, fetch: string -> Result<Node, string>, fuel: nat)
    requires IndicesValid(lookUps, fuel)
    requires ScrapeAll(lookUps, tree, fetch, fuel).Success?
    ensures var fragments := ScrapeAll(lookUps, tree, fetch, fuel).value;
            |fragments| == |lookUps|
            && forall i :: 0 <= i < |lookUps| ==> ScrapeLookUp(lookUps[i], tree, fetch, fuel) == Success(fragments[i])
    decreases |lookUps|
  {
    if lookUps != [] {
      var n := |lookUps|;
      var front := lookUps[..n - 1];
      var fragments := ScrapeAll(lookUps, tree, fetch, fuel).value;
      var rf := ScrapeAll(front, tree, fetch, fuel);
      var rl := ScrapeLookUp(lookUps[n - 1], tree, fetch, fuel);
      assert IndicesValid(front, fuel) && rf.Success? && rl.Success? && fragments == rf.value + [rl.value] by {
        ScrapeAllSnoc(lookUps, tree, fetch, fuel);
      }
      ScrapeAllFragments(front, tree, fetch, fuel);
      forall i | 0 <= i < n
        ensures ScrapeLookUp(lookUps[i], tree, fetch, fuel) == Success(fragments[i])
      {
        if i < n - 1 {
          assert front[i] == lookUps[i] && fragments[i] == rf.value[i];
        }
      }
    }
  }

  /** When every lookup succeeds on its own, the website scrape succeeds. */
  lemma {:induction false} ScrapeAllSucceedsIfEach(lookUps: seq<LookUpElement>, tree: Node, fetch: string -> Result<Node, string>, fuel: nat)
    requires IndicesValid(lookUps, fuel)
    requires forall i :: 0 <= i < |lookUps| ==> ScrapeLookUp(lookUps[i], tree, fetch, fuel).Success?
    ensures ScrapeAll(lookUps, tree, fetch, fuel).Success?
    decreases |lookUps|
  {
    if lookUps != [] {
      var n := |lookUps|;
      var front := lookUps[..n - 1];
      ScrapeAllSnoc(lookUps, tree, fetch, fuel);
      forall i | 0 <= i < n - 1
        ensures ScrapeLookUp(front[i], tree, fetch, fuel).Success?
      {
        assert front[i] == lookUps[i];
      }
      ScrapeAllSucceedsIfEach(front, tree, fetch, fuel);
    }
  }

  /**
   * All lookups succeed exactly when each one does, and then the fragments are
   * their contributions in order, one per lookup.
   */
  lemma ScrapeAllSuccess(lookUps: seq<LookUpElement>, tree: Node, fetch: string -> Result<Node, string>, fuel: nat)
    requires IndicesValid(lookUps, fuel)
    ensures ScrapeAll(lookUps, tree, fetch, fuel).Success?
            <==> forall i :: 0 <= i < |lookUps| ==> ScrapeLookUp(lookUps[i], tree, fetch, fuel).Success?
    ensures ScrapeAll(lookUps, tree, fetch, fuel).Success? ==>
              var fragments := ScrapeAll(lookUps, tree, fetch, fuel).value;
              |fragments| == |lookUps|
              && forall i :: 0 <= i < |lookUps| ==> ScrapeLookUp(lookUps[i], tree, fetch, fuel) == Success(fragments[i])
  {
    if ScrapeAll(lookUps, tree, fetch, fuel).Success? {
      ScrapeAllFragments(lookUps, tree, fetch, fuel);
    } else if forall i :: 0 <= i < |lookUps| ==> ScrapeLookUp(lookUps[i], tree, fetch, fuel).Success? {
      ScrapeAllSucceedsIfEach(lookUps, tree, fetch, fuel);
    }
  }

  /**
   * A failing website scrape reports the error of its first failing lookup;
   * all lookups before it succeeded, and no partial result is returned.
   */
  lemma {:induction false} ScrapeAllFirstFailure(lookUps: seq<LookUpElement>, tree: Node, fetch: string -> Result<Node, string>, fuel: nat)
      returns (k: nat)
    requires IndicesValid(lookUps, fuel)
    requires ScrapeAll(lookUps, tree, fetch, fuel).Failure?
    ensures k < |lookUps|
    ensures forall i :: 0 <= i < k ==> ScrapeLookUp(lookUps[i], tree, fetch, fuel).Success?
    ensures ScrapeLookUp(lookUps[k], tree, fetch, fuel) == Failure(ScrapeAll(lookUps, tree, fetch, fuel).error)
    decreases |lookUps|
  {
    var n := |lookUps|;
    var front := lookUps[..n - 1];
    var whole := ScrapeAll(lookUps, tree, fetch, fuel);
    var rf := ScrapeAll(front, tree, fetch, fuel);
    assert IndicesValid(front, fuel) && (rf.Failure? ==> whole == rf)
           && (rf.Success? ==> whole == Failure(ScrapeLookUp(lookUps[n - 1], tree, fetch, fuel).error)
                               && ScrapeLookUp(lookUps[n - 1], tree, fetch, fuel).Failure?) by {
      ScrapeAllSnoc(lookUps, tree, fetch, fuel);
    }
    if rf.Failure? {
      k := ScrapeAllFirstFailure(front, tree, fetch, fuel);
      forall i | 0 <= i <= k ensures lookUps[i] == front[i] {
      }
    } else {
      forall i | 0 <= i < n - 1 ensures ScrapeLookUp(lookUps[i], tree, fetch, fuel).Success? {
        assert front[i] == lookUps[i];
        ScrapeAllSuccess(front, tree, fetch, fuel);
      }
      k := n - 1;
    }
  }

  /** Once a prefix of the lookups fails, the whole list fails with the same error. */
  lemma {:induction false} ScrapeAllPrefixFailure(lookUps: seq<LookUpElement>, k: nat, tree: Node,
                                                  fetch: string -> Result<Node, string>, fuel: nat)
    requires IndicesValid(lookUps, fuel) && k <= |lookUps|
    requires IndicesValid(lookUps[..k], fuel)
    requires ScrapeAll(lookUps[..k], tree, fetch, fuel).Failure?
    ensures ScrapeAll(lookUps, tree, fetch, fuel) == ScrapeAll(lookUps[..k], tree, fetch, fuel)
    decreases |lookUps|
  {
    if k < |lookUps| {
      var front := lookUps[..|lookUps| - 1];
      assert forall i :: 0 <= i < |front| ==> front[i] == lookUps[i];
      assert front[..k] == lookUps[..k];
      ScrapeAllPrefixFailure(front, k, tree, fetch, fuel);
    } else {
      assert lookUps[..k] == lookUps;
    }
  }

  /** A failure within the first `m` lookups is still the result of any longer prefix. */
  lemma ScrapeAllFailureStays(lookUps: seq<LookUpElement>, m: nat, k: nat, tree: Node,
                              fetch: string -> Result<Node, string>, fuel: nat)
    requires IndicesValid(lookUps, fuel) && m <= k <= |lookUps|
    requires IndicesValid(lookUps[..m], fuel)
    requires ScrapeAll(lookUps[..m], tree, fetch, fuel).Failure?
    ensures IndicesValid(lookUps[..k], fuel)
    ensures ScrapeAll(lookUps[..k], tree, fetch, fuel) == ScrapeAll(lookUps[..m], tree, fetch, fuel)
  {
    IndicesValidPrefix(lookUps, k, fuel);
    assert lookUps[..k][..m] == lookUps[..m];
    ScrapeAllPrefixFailure(lookUps[..k], m, tree, fetch, fuel);
  }

  /**
   * Lookup `k` is the only writer of its follow target: no other lookup of the
   * list, and no website its own follow reaches, can overwrite that URL.
   */
  predicate SoleWriter(lookUps: seq<LookUpElement>, k: nat, fuel: nat)
    requires k < |lookUps|
  {
    var t := lookUps[k].contentIsFollowURL;
    t != null
    && (fuel == 0 || t !in ReachAll(t.lookUpElements, fuel - 1))
    && forall j :: 0 <= j < |lookUps| && j != k ==> t !in ReachOne(lookUps[j], fuel)
  }

  /**
   * Lookup `j` ran, because every earlier lookup succeeded, and found its
   * content: only such a lookup hands its content to its follow target.
   */
  predicate Ran(lookUps: seq<LookUpElement>, j: nat, tree: Node,
                fetch: string -> Result<Node, string>, fuel: nat): (b: bool)
    requires IndicesValid(lookUps, fuel) && j < |lookUps|
    ensures b ==> lookUps[j].index >= 0
  {
    IndicesValidPrefix(lookUps, j, fuel);
    assert LookUpValid(lookUps[j], fuel);
    ScrapeAll(lookUps[..j], tree, fetch, fuel).Success?
    && LookUpContent(lookUps[j], tree).Success?
  }

  /** Lookup `k` ran, found its content, and is the sole writer of its follow target. */
  predicate FollowWritten(lookUps: seq<LookUpElement>, k: nat, tree: Node,
                          fetch: string -> Result<Node, string>, fuel: nat): (b: bool)
    requires IndicesValid(lookUps, fuel) && k < |lookUps|
    ensures b ==> lookUps[k].index >= 0 && lookUps[k].contentIsFollowURL != null
  {
    SoleWriter(lookUps, k, fuel) && Ran(lookUps, k, tree, fetch, fuel)
  }

  /** No lookup among the first `n` that ran can have written website `o`. */
  predicate UntouchedBy(o: Website, lookUps: seq<LookUpElement>, n: nat, tree: Node,
                        fetch: string -> Result<Node, string>, fuel: nat)
    requires IndicesValid(lookUps, fuel) && n <= |lookUps|
  {
    forall j :: 0 <= j < n && Ran(lookUps, j, tree, fetch, fuel) ==> o !in ReachOne(lookUps[j], fuel)
  }

  // ---------------------------------------------------------------------------
  // The operations

  /** The join loop of Website.Scrape: each fragment, followed by the separator unless it is the last. */
  method JoinFragments(elements: seq<string>, separator: string) returns (elementString: string)
    ensures elementString == Join(elements, separator)
  {
    elementString := "";
    for k := 0 to |elements|
      invariant elementString == Join(elements[..k], separator) + (if 0 < k < |elements| then separator else "")
    {
      if k > 0 {
        JoinSnoc(elements[..k], elements[k], separator);
      }
      assert elements[..k + 1] == elements[..k] + [elements[k]];
      elementString := elementString + elements[k];
      if k != |elements| - 1 {
        elementString := elementString + separator;
      }
    }
    assert elements[..|elements|] == elements;
  }

  /**
   * The format steps of ScrapeTreeForElement: every replacement, then every
   * trim, then the suffix and the prefix, each appended only when non-empty.
   */
  method FormatText(text: string, fs: FormatSettings) returns (content: string)
    ensures content == FormatContent(text, fs)
  {
    content := text;
    for i := 0 to |fs.replacements|
      invariant content == ApplyReplacements(text, fs.replacements[..i])
    {
      content := ReplaceAll(content, fs.replacements[i].toBeReplaced, fs.replacements[i].replacement);
      assert fs.replacements[..i + 1][..i] == fs.replacements[..i];
    }
    assert fs.replacements[..|fs.replacements|] == fs.replacements;
    ghost var replaced := content;
    for i := 0 to |fs.trim|
      invariant content == TrimEach(replaced, fs.trim[..i])
    {
      content := Trim(content, fs.trim[i]);
      assert fs.trim[..i + 1][..i] == fs.trim[..i];
    }
    assert fs.trim[..|fs.trim|] == fs.trim;
    ghost var trimmed := content;
    if |fs.addAfter| > 0 {
      content := content + fs.addAfter;
    } else {
      assert fs.addAfter == [];
    }
    assert content == trimmed + fs.addAfter;
    ghost var suffixed := content;
    if |fs.addBefore| > 0 {
      content := fs.addBefore + content;
    } else {
      assert fs.addBefore == [];
    }
    assert content == fs.addBefore + suffixed;
  }

  /**
   * LookUpElement.ScrapeTreeForElement.  With a follow target, the target's URL
   * is overwritten with the content before the nested website is scraped.
   */
  method ScrapeTreeForElement(e: LookUpElement, nodeTree: Node, fetch: string -> Result<Node, string>, fuel: nat)
      returns (r: Result<string, ScrapeError>)
    requires LookUpValid(e, fuel)
    modifies ReachOne(e, fuel)
    ensures r == ScrapeLookUp(e, nodeTree, fetch, fuel)
    ensures e.contentIsFollowURL != null && LookUpContent(e, nodeTree).Success?
            && (fuel == 0 || e.contentIsFollowURL !in ReachAll(e.contentIsFollowURL.lookUpElements, fuel - 1))
            ==> e.contentIsFollowURL.url == LookUpContent(e, nodeTree).value
    ensures LookUpContent(e, nodeTree).Failure? ==>
              forall x :: x in ReachOne(e, fuel) && old(allocated(x)) ==> x.url == old(x.url)
    decreases fuel, 0
  {
    var nodes := GetElementNodes(e.element, nodeTree);
    if nodes.Failure? {
      return Failure(ElementMissing(nodes.error));
    }
    if |nodes.value| - 1 < e.index {
      return Failure(IndexOutOfRange);
    }
    var content := GetTextOfNode(nodes.value[e.index], e.settings.disallowRecursiveContent);
    content := FormatText(content, e.settings.formatSettings);
    assert nodes.value == Crawl(e.element, nodeTree);
    assert LookUpContent(e, nodeTree) == Success(content);
    if e.contentIsFollowURL != null {
      e.contentIsFollowURL.url := content;
      if fuel == 0 {
        return Failure(FollowDepthExceeded);
      }
      r := Scrape<int>(e.contentIsFollowURL, None, [], fetch, fuel - 1);
      return;
    }
    return Success(content);
  }

  /**
   * One pass of the lookup loop: ScrapeTreeForElement on lookup `i`, once
   * every earlier lookup succeeded.  It writes only within the lookup's reach,
   * and only once the content was found: the URLs that earlier lookups wrote
   * as sole writers survive it, and so does every follow target that no
   * lookup up to `i` that ran can reach.
   */
  method ScrapeNextLookUp(lookUps: seq<LookUpElement>, i: nat, node: Node,
                          fetch: string -> Result<Node, string>, fuel: nat) returns (r: Result<string, ScrapeError>)
    requires IndicesValid(lookUps, fuel) && i < |lookUps|
    requires IndicesValid(lookUps[..i], fuel) && ScrapeAll(lookUps[..i], node, fetch, fuel).Success?
    modifies ReachOne(lookUps[i], fuel)
    ensures r == ScrapeLookUp(lookUps[i], node, fetch, fuel)
    ensures forall k :: 0 <= k <= i && FollowWritten(lookUps, k, node, fetch, fuel)
              ==> lookUps[k].contentIsFollowURL.url
                  == if k == i then LookUpContent(lookUps[k], node).value else old(lookUps[k].contentIsFollowURL.url)
    ensures forall k :: 0 <= k < |lookUps| && lookUps[k].contentIsFollowURL != null
              && UntouchedBy(lookUps[k].contentIsFollowURL, lookUps, i + 1, node, fetch, fuel)
              ==> lookUps[k].contentIsFollowURL.url == old(lookUps[k].contentIsFollowURL.url)
                  && UntouchedBy(lookUps[k].contentIsFollowURL, lookUps, i, node, fetch, fuel)
    decreases fuel, 1
  {
    assert LookUpValid(lookUps[i], fuel);
    r := ScrapeTreeForElement(lookUps[i], node, fetch, fuel);
    forall k | 0 <= k < i && FollowWritten(lookUps, k, node, fetch, fuel)
      ensures lookUps[k].contentIsFollowURL.url == old(lookUps[k].contentIsFollowURL.url)
    {
      assert lookUps[k].contentIsFollowURL !in ReachOne(lookUps[i], fuel);
    }
    forall k | 0 <= k < |lookUps| && lookUps[k].contentIsFollowURL != null
               && UntouchedBy(lookUps[k].contentIsFollowURL, lookUps, i + 1, node, fetch, fuel)
      ensures lookUps[k].contentIsFollowURL.url == old(lookUps[k].contentIsFollowURL.url)
      ensures UntouchedBy(lookUps[k].contentIsFollowURL, lookUps, i, node, fetch, fuel)
    {
      if LookUpContent(lookUps[i], node).Success? {
        assert Ran(lookUps, i, node, fetch, fuel);
      }
    }
  }

  /**
   * The lookup loop of Website.Scrape: every lookup on the same tree, stopping
   * at the first error.  Each lookup that ran and is the sole writer of its
   * follow target leaves its content there.
   */
  method ScrapeLookUps(lookUps: seq<LookUpElement>, node: Node, fetch: string -> Result<Node, string>, fuel: nat)
      returns (r: Result<seq<string>, ScrapeError>)
    requires IndicesValid(lookUps, fuel)
    modifies ReachAll(lookUps, fuel)
    ensures r == ScrapeAll(lookUps, node, fetch, fuel)
    ensures forall k :: 0 <= k < |lookUps| && FollowWritten(lookUps, k, node, fetch, fuel)
              ==> lookUps[k].contentIsFollowURL.url == LookUpContent(lookUps[k], node).value
    ensures forall k :: 0 <= k < |lookUps| && lookUps[k].contentIsFollowURL != null
              && UntouchedBy(lookUps[k].contentIsFollowURL, lookUps, |lookUps|, node, fetch, fuel)
              ==> lookUps[k].contentIsFollowURL.url == old(lookUps[k].contentIsFollowURL.url)
    decreases fuel, 2
  {
    var elements: seq<string> := [];
    for i := 0 to |lookUps|
      invariant IndicesValid(lookUps[..i], fuel)
      invariant ScrapeAll(lookUps[..i], node, fetch, fuel) == Success(elements)
      invariant forall k :: 0 <= k < i && FollowWritten(lookUps, k, node, fetch, fuel)
                  ==> lookUps[k].contentIsFollowURL.url == LookUpContent(lookUps[k], node).value
      invariant forall k :: 0 <= k < |lookUps| && lookUps[k].contentIsFollowURL != null
                  && UntouchedBy(lookUps[k].contentIsFollowURL, lookUps, i, node, fetch, fuel)
                  ==> lookUps[k].contentIsFollowURL.url == old(lookUps[k].contentIsFollowURL.url)
    {
      ReachOneInAll(lookUps, i, fuel);
      var content := ScrapeNextLookUp(lookUps, i, node, fetch, fuel);
      assert lookUps[..i + 1][..i] == lookUps[..i];
      IndicesValidPrefix(lookUps, i + 1, fuel);
      if content.Failure? {
        ScrapeAllPrefixFailure(lookUps, i + 1, node, fetch, fuel);
        forall k | i < k < |lookUps|
          ensures !FollowWritten(lookUps, k, node, fetch, fuel)
        {
          ScrapeAllFailureStays(lookUps, i + 1, k, node, fetch, fuel);
        }
        forall k | 0 <= k < |lookUps| && lookUps[k].contentIsFollowURL != null
                   && UntouchedBy(lookUps[k].contentIsFollowURL, lookUps, |lookUps|, node, fetch, fuel)
          ensures UntouchedBy(lookUps[k].contentIsFollowURL, lookUps, i + 1, node, fetch, fuel)
        {
        }
        return Failure(content.error);
      }
      elements := elements + [content.value];
    }
    assert lookUps[..|lookUps|] == lookUps;
    return Success(elements);
  }

  /**
   * Website.Scrape: rewrite URL and separator with the registry (on a copy:
   * the website's own fields are not written), fetch the tree, run every
   * lookup in order, stop at the first error, and join the results.
   */
  method Scrape<C>(w: Website, funcs: Option<Registry<C>>, vars: seq<C>, fetch: string -> Result<Node, string>, fuel: nat)
      returns (r: Result<string, ScrapeError>)
    requires IndicesValid(w.lookUpElements, fuel)
    modifies ReachAll(w.lookUpElements, fuel)
    ensures r == ScrapeSite(Prepare(old(w.url), funcs, vars), Prepare(w.separator, funcs, vars), w.lookUpElements, fetch, fuel)
    ensures w !in ReachAll(w.lookUpElements, fuel) ==> w.url == old(w.url)
    ensures fetch(Prepare(old(w.url), funcs, vars)).Success? ==>
              var tree := fetch(Prepare(old(w.url), funcs, vars)).value;
              forall k :: 0 <= k < |w.lookUpElements| && FollowWritten(w.lookUpElements, k, tree, fetch, fuel)
                ==> w.lookUpElements[k].contentIsFollowURL.url == LookUpContent(w.lookUpElements[k], tree).value
    ensures fetch(Prepare(old(w.url), funcs, vars)).Failure? ==>
              forall k :: 0 <= k < |w.lookUpElements| && w.lookUpElements[k].contentIsFollowURL != null
                ==> w.lookUpElements[k].contentIsFollowURL.url == old(w.lookUpElements[k].contentIsFollowURL.url)
    ensures fetch(Prepare(old(w.url), funcs, vars)).Success? ==>
              var tree := fetch(Prepare(old(w.url), funcs, vars)).value;
              forall k :: 0 <= k < |w.lookUpElements| && w.lookUpElements[k].contentIsFollowURL != null
                && UntouchedBy(w.lookUpElements[k].contentIsFollowURL, w.lookUpElements, |w.lookUpElements|, tree, fetch, fuel)
                ==> w.lookUpElements[k].contentIsFollowURL.url == old(w.lookUpElements[k].contentIsFollowURL.url)
    decreases fuel, 3
  {
    var url, separator := w.url, w.separator;
    if funcs.Some? {
      url := FormatString(url, funcs.value, vars);
      separator := FormatString(separator, funcs.value, vars);
    }
    var fetched := fetch(url);
    if fetched.Failure? {
      return Failure(FetchFailed(fetched.error));
    }
    var node := fetched.value;
    var elements := ScrapeLookUps(w.lookUpElements, node, fetch, fuel);
    if elements.Failure? {
      return Failure(elements.error);
    }
    var joined := JoinFragments(elements.value, separator);
    return Success(joined);
  }
}
