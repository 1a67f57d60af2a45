/**
 * website.go: the older, string-splitting revision of the scraper.  A lookup
 * cuts the raw HTML body with Split-and-select steps, optionally hands it to an
 * element extractor, checks two guards, reformats the text and either returns
 * it or follows it as the URL of a nested website.  A website joins its
 * fragments by appending the separator to each and trimming the result with
 * the separator as a cutset.
 *
 * Fetching the body, the element extractor and the error outcome of the
 * two-result checkKey are code this model does not see; they are fields of
 * `Env`.  Follow recursion is bounded by `fuel`.
 */
module Legacy {
  import opened Results
  import opened GoStrings
  import opened Helpers

  /** Go's `Split`: cut the body at `phrase` and keep the piece at `key`. */
  datatype SplitAtRule = SplitAtRule(phrase: string, key: int)

  /** Go's `SplitAfter`: cut at `phrase`, keep the pieces at `keys`, rejoined with `seperator`. */
  datatype SplitAfterRule = SplitAfterRule(phrase: string, keys: seq<int>, seperator: string)

  /** Every occurrence of `toReplace` becomes `withText`. */
  datatype ReplaceObj = ReplaceObj(toReplace: string, withText: string)

  datatype Tag = Tag(name: string, value: string)

  datatype Element = Element(typ: string, tag: Tag)

  /** A lookup; `followURL` is Go's `*Website`, null for nil. */
  datatype LookUpElement = LookUpElement(
    splitAt: seq<SplitAtRule>,
    splitAfter: seq<SplitAfterRule>,
    replacements: seq<ReplaceObj>,
    elements: seq<Element>,
    notFound: string,
    hasToContain: string,
    trim: seq<string>,
    lastIsURL: bool,
    followURL: Website?,
    addBefore: string,
    addAfter: string)

  /**
   * A website.  The scraper writes only `url` (of a follow target, through the
   * lookup's pointer); the placeholder rewriting works on a copy.
   */
  class Website {
    const name: string
    const seperator: string
    var url: string
    const lookUpElements: seq<LookUpElement>
    const cache: string

    constructor (name: string, seperator: string, url: string, lookUpElements: seq<LookUpElement>, cache: string)
      ensures this.name == name && this.seperator == seperator && this.url == url
      ensures this.lookUpElements == lookUpElements && this.cache == cache
    {
      this.name := name;
      this.seperator := seperator;
      this.url := url;
      this.lookUpElements := lookUpElements;
      this.cache := cache;
    }
  }

  /** GetNestedHTMLElement's two results: the element text, and whether its error was non-nil. */
  datatype NestedAnswer = NestedAnswer(finalEl: string, errNonNil: bool)

  /** The code a scrape calls but this model does not see. */
  datatype Env = Env(
    getHTMLData: string -> string,                                   // GetHTMLdata: URL to body, "" when none
    getNestedHTMLElement: (string, seq<Element>) -> NestedAnswer,    // GetNestedHTMLElement
    checkKeyError: (seq<string>, int) -> Option<string>)             // the error outcome of the two-result checkKey

  datatype LegacyError =
    | BodyMissing(url: string)
    | NotFoundPresent(notFound: string)
    | KeyRejected(message: string)       // checkKey's own error
    | KeyOutOfDomain                     // a key on which helpers.go's checkKey would index out of range
    | HasToContainMissing(hasToContain: string)
    | ElementNotFound
    | FollowDepthExceeded                // the fuel bound of this model

  function Message(err: LegacyError): string
  {
    match err
    case BodyMissing(u) => "error while finding body of " + u
    case NotFoundPresent(n) => "website contains NotFound (" + n + ")"
    case KeyRejected(m) => m
    case KeyOutOfDomain => "key out of range"
    case HasToContainMissing(h) => "website does not contain HasToContain (" + h + ")"
    case ElementNotFound => "could not find element in body"
    case FollowDepthExceeded => "follow depth exceeded"
  }

  predicate IsKeyError(err: LegacyError)
  {
    err.KeyRejected? || err.KeyOutOfDomain?
  }

  // ---------------------------------------------------------------------------
  // Well-formedness and frames, up to a follow depth

  /** Go dereferences `FollowURL` whenever `LastIsURL` is set, here and in followed websites. */
  predicate LookUpValid(e: LookUpElement, fuel: nat)
    decreases fuel, 0
  {
    e.lastIsURL ==> e.followURL != null && (fuel > 0 ==> IndicesValid(e.followURL.lookUpElements, fuel - 1))
  }

  predicate IndicesValid(lookUps: seq<LookUpElement>, fuel: nat)
    decreases fuel, 1
  {
    forall i :: 0 <= i < |lookUps| ==> LookUpValid(lookUps[i], fuel)
  }

  lemma IndicesValidPrefix(lookUps: seq<LookUpElement>, k: nat, fuel: nat)
    requires IndicesValid(lookUps, fuel) && k <= |lookUps|
    ensures IndicesValid(lookUps[..k], fuel)
  {
    forall i | 0 <= i < k ensures LookUpValid(lookUps[..k][i], fuel) {
      assert lookUps[..k][i] == lookUps[i];
    }
  }

  /** The websites whose URL a lookup may overwrite: its follow target, and theirs within `fuel` levels. */
  function ReachOne(e: LookUpElement, fuel: nat): set<Website>
    decreases fuel, 0
  {
    if !e.lastIsURL || e.followURL == null then {}
    else {e.followURL} + (if fuel > 0 then ReachAll(e.followURL.lookUpElements, fuel - 1) else {})
  }

  function ReachAll(lookUps: seq<LookUpElement>, fuel: nat): set<Website>
    decreases fuel, 1, |lookUps|
  {
    if lookUps == [] then {}
    else ReachAll(lookUps[..|lookUps| - 1], fuel) + ReachOne(lookUps[|lookUps| - 1], fuel)
  }

  lemma {:induction false} ReachOneInAll(lookUps: seq<LookUpElement>, i: nat, fuel: nat)
    requires i < |lookUps|
    ensures ReachOne(lookUps[i], fuel) <= ReachAll(lookUps, fuel)
    decreases |lookUps|
  {
    if i < |lookUps| - 1 {
      var front := lookUps[..|lookUps| - 1];
      assert front[i] == lookUps[i];
      ReachOneInAll(front, i, fuel);
    }
  }

  // ---------------------------------------------------------------------------
  // Step chains

  /** Steps applied in order, each to the previous output; the first failing step ends the chain. */
  function Chain<S, T>(init: S, xs: seq<T>, step: (S, T) -> Result<S, LegacyError>): Result<S, LegacyError>
  {
    if xs == [] then Success(init)
    else
      match Chain(init, xs[..|xs| - 1], step)
      case Failure(err) => Failure(err)
      case Success(s) => step(s, xs[|xs| - 1])
  }

  /** Once a prefix of the steps fails, the whole chain fails with the same error. */
  lemma {:induction false} ChainPrefixFailure<S, T>(init: S, xs: seq<T>, k: nat, step: (S, T) -> Result<S, LegacyError>)
    requires k <= |xs| && Chain(init, xs[..k], step).Failure?
    ensures Chain(init, xs, step) == Chain(init, xs[..k], step)
    decreases |xs|
  {
    if k < |xs| {
      var front := xs[..|xs| - 1];
      assert front[..k] == xs[..k];
      ChainPrefixFailure(init, front, k, step);
    } else {
      assert xs[..k] == xs;
    }
  }

  /** A chain of one step is that step. */
  lemma ChainSingle<S, T>(init: S, x: T, step: (S, T) -> Result<S, LegacyError>)
    ensures Chain(init, [x], step) == step(init, x)
  {
    assert [x][..0] == [];
  }

  /** A failing chain fails with the error of one of its steps, applied to some intermediate value. */
  lemma {:induction false} ChainFailingStep<S, T>(init: S, xs: seq<T>, step: (S, T) -> Result<S, LegacyError>)
      returns (s: S, k: nat)
    requires Chain(init, xs, step).Failure?
    ensures k < |xs| && step(s, xs[k]) == Failure(Chain(init, xs, step).error)
  {
    var front := Chain(init, xs[..|xs| - 1], step);
    if front.Failure? {
      s, k := ChainFailingStep(init, xs[..|xs| - 1], step);
      assert xs[..|xs| - 1][k] == xs[k];
    } else {
      s, k := front.value, |xs| - 1;
    }
  }

  // ---------------------------------------------------------------------------
  // Specification of ScrapeElement

  /**
   * The two-result checkKey: its error when it reports one, otherwise
   * helpers.go's selection rule; keys on which that rule would index out of
   * range are an error.
   */
  function SelectKey(env: Env, pieces: seq<string>, key: int): Result<string, LegacyError>
  {
    match env.checkKeyError(pieces, key)
    case Some(m) => Failure(KeyRejected(m))
    case None =>
      if key >= 0 || (key == -1 && |pieces| > 0) then Success(CheckKey(pieces, key))
      else Failure(KeyOutOfDomain)
  }

  /** One SplitAt step: the body becomes the selected piece of its split. */
  function SplitAtStep(env: Env): (string, SplitAtRule) -> Result<string, LegacyError>
  {
    (body: string, rule: SplitAtRule) => SelectKey(env, Split(body, rule.phrase), rule.key)
  }

  function SplitAtAll(body: string, rules: seq<SplitAtRule>, env: Env): Result<string, LegacyError>
  {
    Chain(body, rules, SplitAtStep(env))
  }

  /** Every fragment followed by `sep`, the whole trimmed with `sep` as a cutset. */
  function TrimJoin(fs: seq<string>, sep: string): (r: string)
    ensures r == [] || (r[0] !in sep && r[|r| - 1] !in sep)
  {
    Trim(Concat(Terminated(fs, sep)), sep)
  }

  /** The inner loop of a SplitAfter step: the selected pieces, in key order. */
  function KeyStep(env: Env, pieces: seq<string>): (seq<string>, int) -> Result<seq<string>, LegacyError>
  {
    (selected: seq<string>, key: int) =>
      match SelectKey(env, pieces, key)
      case Failure(err) => Failure(err)
      case Success(p) => Success(selected + [p])
  }

  function SplitAfterOne(final: string, rule: SplitAfterRule, env: Env): Result<string, LegacyError>
  {
    match Chain([], rule.keys, KeyStep(env, Split(final, rule.phrase)))
    case Failure(err) => Failure(err)
    case Success(selected) => Success(TrimJoin(selected, rule.seperator))
  }

  function SplitAfterStep(env: Env): (string, SplitAfterRule) -> Result<string, LegacyError>
  {
    (final: string, rule: SplitAfterRule) => SplitAfterOne(final, rule, env)
  }

  function SplitAfterAll(final: string, rules: seq<SplitAfterRule>, env: Env): Result<string, LegacyError>
  {
    Chain(final, rules, SplitAfterStep(env))
  }

  /** Each replacement applied with ReplaceAll, in list order, to the previous output. */
  function ReplaceEach(s: string, rs: seq<ReplaceObj>): string
  {
    if rs == [] then s
    else ReplaceAll(ReplaceEach(s, rs[..|rs| - 1]), rs[|rs| - 1].toReplace, rs[|rs| - 1].withText)
  }

  /** The element extractor's text is used only when it is non-empty and its error is non-nil. */
  function Nested(body: string, elements: seq<Element>, env: Env): string
  {
    if |elements| > 0 && env.getNestedHTMLElement(body, elements).errNonNil
       && env.getNestedHTMLElement(body, elements).finalEl != ""
    then env.getNestedHTMLElement(body, elements).finalEl
    else body
  }

  /** Trims, SplitAfter steps, replacements, suffix, prefix, and a final trim of spaces, in that order. */
  function Reformat(text: string, lookEl: LookUpElement, env: Env): (r: Result<string, LegacyError>)
    ensures r.Success? ==> r.value == [] || (r.value[0] != ' ' && r.value[|r.value| - 1] != ' ')
  {
    match SplitAfterAll(TrimEach(text, lookEl.trim), lookEl.splitAfter, env)
    case Failure(err) => Failure(err)
    case Success(t) =>
      var decorated := lookEl.addBefore + (ReplaceEach(t, lookEl.replacements) + lookEl.addAfter);
      SpaceTrimmedEnds(decorated);
      Success(Trim(decorated, " "))
  }

  lemma SpaceTrimmedEnds(s: string)
    ensures var r := Trim(s, " "); r == [] || (r[0] != ' ' && r[|r| - 1] != ' ')
  {
    assert ' ' in " ";
  }

  /** ScrapeElement up to the follow hand-off and the emptiness check. */
  function ElementContent(body: string, lookEl: LookUpElement, env: Env): Result<string, LegacyError>
  {
    if lookEl.notFound != "" && Contains(body, lookEl.notFound) then Failure(NotFoundPresent(lookEl.notFound))
    else
      match SplitAtAll(body, lookEl.splitAt, env)
      case Failure(err) => Failure(err)
      case Success(b) =>
        var final := Nested(b, lookEl.elements, env);
        if lookEl.hasToContain != "" && !Contains(final, lookEl.hasToContain) then
          Failure(HasToContainMissing(lookEl.hasToContain))
        else Reformat(final, lookEl, env)
  }

  /** The end of ScrapeElement: the content is followed as a URL, or returned when it is not empty or a bare decoration. */
  function Finish(final: string, lookEl: LookUpElement, env: Env, fuel: nat): Result<string, LegacyError>
    requires LookUpValid(lookEl, fuel)
    decreases fuel, 0
  {
    if lookEl.lastIsURL then
      if fuel == 0 then Failure(FollowDepthExceeded)
      else ScrapeSite(final, lookEl.followURL.seperator, lookEl.followURL.lookUpElements, env, fuel - 1)
    else if |final| > 0 && final != lookEl.addBefore && final != lookEl.addAfter then Success(final)
    else Failure(ElementNotFound)
  }

  /** ScrapeElement. */
  function ElementResult(body: string, lookEl: LookUpElement, env: Env, fuel: nat): Result<string, LegacyError>
    requires LookUpValid(lookEl, fuel)
    decreases fuel, 1
  {
    match ElementContent(body, lookEl, env)
    case Failure(err) => Failure(err)
    case Success(final) => Finish(final, lookEl, env, fuel)
  }

  /** The lookups of a website in order, on one body; the first failure is the result. */
  function ScrapeAll(body: string, lookUps: seq<LookUpElement>, env: Env, fuel: nat): Result<seq<string>, LegacyError>
    requires IndicesValid(lookUps, fuel)
    decreases fuel, 2, |lookUps|
  {
    if lookUps == [] then Success([])
    else
      IndicesValidPrefix(lookUps, |lookUps| - 1, fuel);
      match ScrapeAll(body, lookUps[..|lookUps| - 1], env, fuel)
      case Failure(err) => Failure(err)
      case Success(fragments) =>
        match ElementResult(body, lookUps[|lookUps| - 1], env, fuel)
        case Failure(err) => Failure(err)
        case Success(f) => Success(fragments + [f])
  }

  /** Website.Scrape at `url` with separator `seperator`. */
  function ScrapeSite(url: string, seperator: string, lookUps: seq<LookUpElement>, env: Env, fuel: nat): Result<string, LegacyError>
    requires IndicesValid(lookUps, fuel)
    decreases fuel, 3
  {
    var body := env.getHTMLData(url);
    if |body| == 0 then Failure(BodyMissing(url))
    else
      match ScrapeAll(body, lookUps, env, fuel)
      case Failure(err) => Failure(err)
      case Success(fragments) => Success(TrimJoin(fragments, seperator))
  }

  /** A string field of the copy: rewritten by the registry only when the registry is not empty. */
  function Rewrite<C>(s: string, funcs: Registry<C>, cons: seq<C>): string
  {
    if |funcs| > 0 then Substitute(s, funcs, cons) else s
  }

  // ---------------------------------------------------------------------------
  // Properties of the specification

  /** A NotFound phrase present in the body is reported before anything else is looked at. */
  lemma NotFoundFirst(body: string, lookEl: LookUpElement, env: Env, fuel: nat)
    requires LookUpValid(lookEl, fuel)
    requires lookEl.notFound != "" && Contains(body, lookEl.notFound)
    ensures ElementResult(body, lookEl, env, fuel) == Failure(NotFoundPresent(lookEl.notFound))
  {
  }

  /** SplitAt steps fail only through checkKey. */
  lemma SplitAtKeyErrors(body: string, rules: seq<SplitAtRule>, env: Env)
    ensures SplitAtAll(body, rules, env).Failure? ==> IsKeyError(SplitAtAll(body, rules, env).error)
  {
    if SplitAtAll(body, rules, env).Failure? {
      var s, k := ChainFailingStep(body, rules, SplitAtStep(env));
      assert SplitAtStep(env)(s, rules[k]) == SelectKey(env, Split(s, rules[k].phrase), rules[k].key);
    }
  }

  /** SplitAfter steps fail only through checkKey. */
  lemma SplitAfterKeyErrors(final: string, rules: seq<SplitAfterRule>, env: Env)
    ensures SplitAfterAll(final, rules, env).Failure? ==> IsKeyError(SplitAfterAll(final, rules, env).error)
  {
    if SplitAfterAll(final, rules, env).Failure? {
      var s, k := ChainFailingStep(final, rules, SplitAfterStep(env));
      var pieces := Split(s, rules[k].phrase);
      assert SplitAfterStep(env)(s, rules[k]) == SplitAfterOne(s, rules[k], env);
      var selected, j := ChainFailingStep([], rules[k].keys, KeyStep(env, pieces));
      assert KeyStep(env, pieces)(selected, rules[k].keys[j]).Failure?;
    }
  }

  /**
   * The HasToContain error is raised exactly when NotFound did not fire, the
   * SplitAt steps succeeded, and the phrase is non-empty and absent from the
   * text that reached the guard.
   */
  lemma HasToContainGuard(body: string, lookEl: LookUpElement, env: Env)
    ensures ElementContent(body, lookEl, env).Failure? && ElementContent(body, lookEl, env).error.HasToContainMissing?
            <==> !(lookEl.notFound != "" && Contains(body, lookEl.notFound))
                 && SplitAtAll(body, lookEl.splitAt, env).Success?
                 && lookEl.hasToContain != ""
                 && !Contains(Nested(SplitAtAll(body, lookEl.splitAt, env).value, lookEl.elements, env), lookEl.hasToContain)
    ensures ElementContent(body, lookEl, env).Failure? && ElementContent(body, lookEl, env).error.HasToContainMissing?
            ==> ElementContent(body, lookEl, env).error.hasToContain == lookEl.hasToContain
  {
    SplitAtKeyErrors(body, lookEl.splitAt, env);
    var b := SplitAtAll(body, lookEl.splitAt, env);
    if b.Success? {
      var final := Nested(b.value, lookEl.elements, env);
      SplitAfterKeyErrors(TrimEach(final, lookEl.trim), lookEl.splitAfter, env);
    }
  }

  /** A SplitAt step with key 0 keeps the text before the first occurrence of a non-empty phrase. */
  lemma SplitAtFirstPiece(body: string, phrase: string, env: Env)
    requires |phrase| > 0 && env.checkKeyError(Split(body, phrase), 0).None?
    ensures Contains(body, phrase) ==> SplitAtAll(body, [SplitAtRule(phrase, 0)], env) == Success(body[..Index(body, phrase)])
    ensures !Contains(body, phrase) ==> SplitAtAll(body, [SplitAtRule(phrase, 0)], env) == Success(body)
  {
    ChainSingle(body, SplitAtRule(phrase, 0), SplitAtStep(env));
    CheckKeyFirstPiece(body, phrase);
  }

  /** A SplitAt step with key -1 keeps a suffix of the body that holds no occurrence of a non-empty phrase. */
  lemma SplitAtLastPiece(body: string, phrase: string, env: Env)
    requires |phrase| > 0 && env.checkKeyError(Split(body, phrase), -1).None?
    ensures var r := SplitAtAll(body, [SplitAtRule(phrase, -1)], env);
            r.Success? && !Contains(r.value, phrase)
            && |r.value| <= |body| && body[|body| - |r.value|..] == r.value
  {
    ChainSingle(body, SplitAtRule(phrase, -1), SplitAtStep(env));
    assert |Split(body, phrase)| > 0;
    CheckKeyLastPiece(body, phrase);
  }

  /**
   * Without a follow target a success is the content itself, non-empty and
   * different from both decorations.
   */
  lemma ElementResultChecks(body: string, lookEl: LookUpElement, env: Env, fuel: nat)
    requires LookUpValid(lookEl, fuel) && !lookEl.lastIsURL
    ensures var r := ElementResult(body, lookEl, env, fuel);
            r.Success? ==> ElementContent(body, lookEl, env) == r
                           && |r.value| > 0 && r.value != lookEl.addBefore && r.value != lookEl.addAfter
  {
    var c := ElementContent(body, lookEl, env);
    if c.Success? {
      assert ElementResult(body, lookEl, env, fuel) == Finish(c.value, lookEl, env, fuel);
    }
  }

  /**
   * Without a follow target "could not find element in body" is reported
   * exactly when the content is empty or a bare decoration.
   */
  lemma ElementNotFoundExactly(body: string, lookEl: LookUpElement, env: Env, fuel: nat)
    requires LookUpValid(lookEl, fuel) && !lookEl.lastIsURL
    ensures ElementResult(body, lookEl, env, fuel) == Failure(ElementNotFound)
            <==> ElementContent(body, lookEl, env).Success?
                 && var c := ElementContent(body, lookEl, env).value;
                    |c| == 0 || c == lookEl.addBefore || c == lookEl.addAfter
  {
    var c := ElementContent(body, lookEl, env);
    ElementContentErrors(body, lookEl, env);
    if c.Success? {
      assert ElementResult(body, lookEl, env, fuel) == Finish(c.value, lookEl, env, fuel);
    }
  }

  /** The content of a lookup fails only through NotFound, checkKey or HasToContain. */
  lemma ElementContentErrors(body: string, lookEl: LookUpElement, env: Env)
    ensures var c := ElementContent(body, lookEl, env);
            c.Failure? ==> c.error.NotFoundPresent? || IsKeyError(c.error) || c.error.HasToContainMissing?
  {
    SplitAtKeyErrors(body, lookEl.splitAt, env);
    var b := SplitAtAll(body, lookEl.splitAt, env);
    if b.Success? {
      SplitAfterKeyErrors(TrimEach(Nested(b.value, lookEl.elements, env), lookEl.trim), lookEl.splitAfter, env);
    }
  }

  /** With an empty separator the website's join is plain concatenation. */
  lemma {:induction false} TrimJoinEmptySeparator(fs: seq<string>)
    ensures TrimJoin(fs, "") == Concat(fs)
  {
    forall i | 0 <= i < |fs| ensures Terminated(fs, "")[i] == fs[i] {
      assert fs[i] + "" == fs[i];
    }
    assert Terminated(fs, "") == fs;
  }

  /**
   * The join of this revision agrees with strings.Join whenever the joined
   * text neither starts nor ends with a separator character.
   */
  lemma TrimJoinIsJoin(fs: seq<string>, sep: string)
    requires Join(fs, sep) != []
    requires Join(fs, sep)[0] !in sep && Join(fs, sep)[|Join(fs, sep)| - 1] !in sep
    ensures TrimJoin(fs, sep) == Join(fs, sep)
  {
    var joined := Join(fs, sep);
    assert Concat(Terminated(fs, sep)) == joined + sep by {
      JoinSeparatesStrictly(fs, sep);
    }
    assert Trim(joined + sep, sep) == joined by {
      assert [] + joined + sep == joined + sep;
      TrimDropsEnds([], joined, sep, sep);
    }
  }

  /**
   * It does not agree in general: a fragment that begins with a separator
   * character loses it.
   */
  lemma TrimJoinDropsFragmentText()
    ensures TrimJoin(["-a", "b"], "-") == "a-b"
    ensures Join(["-a", "b"], "-") == "-a-b"
  {
    DashFragmentsTerminated();
    DashFragmentsTrimmed();
    DashFragmentsJoined();
  }

  lemma DashFragmentsJoined()
    ensures Join(["-a", "b"], "-") == "-a-b"
  {
    var fs := ["-a", "b"];
    assert fs[1..] == ["b"];
    assert Join(fs, "-") == "-a" + "-" + "b";
  }

  lemma DashFragmentsTerminated()
    ensures Concat(Terminated(["-a", "b"], "-")) == "-a-b-"
  {
    var t := Terminated(["-a", "b"], "-");
    assert t[0] == "-a" + "-" == "-a-";
    assert t[1] == "b" + "-" == "b-";
    assert t == ["-a-"] + ["b-"];
    assert Concat(["-a-"]) == "-a-" by {
      assert ["-a-"][1..] == [];
    }
    ConcatSnoc(["-a-"], "b-");
  }

  lemma DashFragmentsTrimmed()
    ensures Trim("-a-b-", "-") == "a-b"
  {
    assert "-a-b-" == "-" + "a-b" + "-";
    TrimDropsEnds("-", "a-b", "-", "-");
  }

  /** A failing website scrape reports the error of its first failing lookup. */
  lemma {:induction false} ScrapeAllPrefixFailure(body: string, lookUps: seq<LookUpElement>, k: nat, env: Env, fuel: nat)
    requires IndicesValid(lookUps, fuel) && k <= |lookUps|
    requires IndicesValid(lookUps[..k], fuel)
    requires ScrapeAll(body, lookUps[..k], env, fuel).Failure?
    ensures ScrapeAll(body, lookUps, env, fuel) == ScrapeAll(body, lookUps[..k], env, fuel)
    decreases |lookUps|
  {
    if k < |lookUps| {
      var front := lookUps[..|lookUps| - 1];
      IndicesValidPrefix(lookUps, |lookUps| - 1, fuel);
      assert front[..k] == lookUps[..k];
      ScrapeAllPrefixFailure(body, front, k, env, fuel);
    } else {
      assert lookUps[..k] == lookUps;
    }
  }

  /** A failure within the first `m` lookups is still the result of any longer prefix. */
  lemma ScrapeAllFailureStays(body: string, lookUps: seq<LookUpElement>, m: nat, k: nat, env: Env, fuel: nat)
    requires IndicesValid(lookUps, fuel) && m <= k <= |lookUps|
    requires IndicesValid(lookUps[..m], fuel)
    requires ScrapeAll(body, lookUps[..m], env, fuel).Failure?
    ensures IndicesValid(lookUps[..k], fuel)
    ensures ScrapeAll(body, lookUps[..k], env, fuel) == ScrapeAll(body, lookUps[..m], env, fuel)
  {
    IndicesValidPrefix(lookUps, k, fuel);
    assert lookUps[..k][..m] == lookUps[..m];
    ScrapeAllPrefixFailure(body, lookUps[..k], m, env, fuel);
  }

  /**
   * Lookup `k` is the only writer of its follow target: no other lookup of the
   * list, and no website its own follow reaches, can overwrite that URL.
   */
  predicate SoleWriter(lookUps: seq<LookUpElement>, k: nat, fuel: nat)
    requires k < |lookUps|
  {
    var t := lookUps[k].followURL;
    lookUps[k].lastIsURL && t != null
    && (fuel == 0 || t !in ReachAll(t.lookUpElements, fuel - 1))
    && forall j :: 0 <= j < |lookUps| && j != k ==> t !in ReachOne(lookUps[j], fuel)
  }

  /**
   * Lookup `k` ran because every earlier lookup succeeded, its content was
   * found, and it is the sole writer of its follow target.
   */
  predicate FollowWritten(body: string, lookUps: seq<LookUpElement>, k: nat, env: Env, fuel: nat): (b: bool)
    requires IndicesValid(lookUps, fuel) && k < |lookUps|
    ensures b ==> lookUps[k].followURL != null
  {
    SoleWriter(lookUps, k, fuel) && Ran(body, lookUps, k, env, fuel)
  }

  /** Lookup `j` ran, because every earlier lookup succeeded, and its content was found. */
  predicate Ran(body: string, lookUps: seq<LookUpElement>, j: nat, env: Env, fuel: nat)
    requires IndicesValid(lookUps, fuel) && j < |lookUps|
  {
    IndicesValidPrefix(lookUps, j, fuel);
    ScrapeAll(body, lookUps[..j], env, fuel).Success?
    && ElementContent(body, lookUps[j], env).Success?
  }

  /** No lookup among the first `n` that ran can have written website `o`. */
  predicate UntouchedBy(o: Website, body: string, lookUps: seq<LookUpElement>, n: nat, env: Env, fuel: nat)
    requires IndicesValid(lookUps, fuel) && n <= |lookUps|
  {
    forall j :: 0 <= j < n && Ran(body, lookUps, j, env, fuel) ==> o !in ReachOne(lookUps[j], fuel)
  }

  /** One step of ScrapeAll: the lookups before the last one, then the last one. */
  lemma ScrapeAllSnoc(body: string, lookUps: seq<LookUpElement>, env: Env, fuel: nat)
    requires IndicesValid(lookUps, fuel) && lookUps != []
    ensures IndicesValid(lookUps[..|lookUps| - 1], fuel)
    ensures var front := ScrapeAll(body, lookUps[..|lookUps| - 1], env, fuel);
            var last := ElementResult(body, lookUps[|lookUps| - 1], env, fuel);
            ScrapeAll(body, lookUps, env, fuel)
            == if front.Failure? then front
               else if last.Failure? then Failure(last.error)
               else Success(front.value + [last.value])
  {
    IndicesValidPrefix(lookUps, |lookUps| - 1, fuel);
  }

  /** A successful website scrape holds one fragment per lookup, each that lookup's result. */
  lemma {:induction false} ScrapeAllFragments(body: string, lookUps: seq<LookUpElement>, env: Env, fuel: nat)
    requires IndicesValid(lookUps, fuel)
    requires ScrapeAll(body, lookUps, env, fuel).Success?
    ensures var fragments := ScrapeAll(body, lookUps, env, fuel).value;
            |fragments| == |lookUps|
            && forall i :: 0 <= i < |lookUps| ==> ElementResult(body, lookUps[i], env, fuel) == Success(fragments[i])
    decreases |lookUps|
  {
    if lookUps != [] {
      var n := |lookUps|;
      var front := lookUps[..n - 1];
      var fragments := ScrapeAll(body, lookUps, env, fuel).value;
      var rf := ScrapeAll(body, front, env, fuel);
      var rl := ElementResult(body, lookUps[n - 1], env, fuel);
      assert IndicesValid(front, fuel) && rf.Success? && rl.Success? && fragments == rf.value + [rl.value] by {
        ScrapeAllSnoc(body, lookUps, env, fuel);
      }
      ScrapeAllFragments(body, front, env, fuel);
      forall i | 0 <= i < n
        ensures ElementResult(body, lookUps[i], env, fuel) == Success(fragments[i])
      {
        if i < n - 1 {
          assert front[i] == lookUps[i] && fragments[i] == rf.value[i];
        }
      }
    }
  }

  /** When every lookup succeeds on its own, the website scrape succeeds. */
  lemma {:induction false} ScrapeAllSucceedsIfEach(body: string, lookUps: seq<LookUpElement>, env: Env, fuel: nat)
    requires IndicesValid(lookUps, fuel)
    requires forall i :: 0 <= i < |lookUps| ==> ElementResult(body, lookUps[i], env, fuel).Success?
    ensures ScrapeAll(body, lookUps, env, fuel).Success?
    decreases |lookUps|
  {
    if lookUps != [] {
      var n := |lookUps|;
      var front := lookUps[..n - 1];
      ScrapeAllSnoc(body, lookUps, env, fuel);
      forall i | 0 <= i < n - 1
        ensures ElementResult(body, front[i], env, fuel).Success?
      {
        assert front[i] == lookUps[i];
      }
      ScrapeAllSucceedsIfEach(body, front, env, fuel);
    }
  }

  /**
   * All lookups succeed exactly when each one does, and then the fragments are
   * their results in order, one per lookup.
   */
  lemma ScrapeAllSuccess(body: string, lookUps: seq<LookUpElement>, env: Env, fuel: nat)
    requires IndicesValid(lookUps, fuel)
    ensures ScrapeAll(body, lookUps, env, fuel).Success?
            <==> forall i :: 0 <= i < |lookUps| ==> ElementResult(body, lookUps[i], env, fuel).Success?
    ensures ScrapeAll(body, lookUps, env, fuel).Success? ==>
              var fragments := ScrapeAll(body, lookUps, env, fuel).value;
              |fragments| == |lookUps|
              && forall i :: 0 <= i < |lookUps| ==> ElementResult(body, lookUps[i], env, fuel) == Success(fragments[i])
  {
    if ScrapeAll(body, lookUps, env, fuel).Success? {
      ScrapeAllFragments(body, lookUps, env, fuel);
    } else if forall i :: 0 <= i < |lookUps| ==> ElementResult(body, lookUps[i], env, fuel).Success? {
      ScrapeAllSucceedsIfEach(body, lookUps, env, fuel);
    }
  }

  // ---------------------------------------------------------------------------
  // The operations

  /** The SplitAt loop of ScrapeElement. */
  method SplitAtSteps(body0: string, rules: seq<SplitAtRule>, env: Env) returns (r: Result<string, LegacyError>)
    ensures r == SplitAtAll(body0, rules, env)
  {
    var body := body0;
    for i := 0 to |rules|
      invariant Chain(body0, rules[..i], SplitAtStep(env)) == Success(body)
    {
      var split := Split(body, rules[i].phrase);
      var selected := SelectKey(env, split, rules[i].key);
      assert rules[..i + 1][..i] == rules[..i];
      if selected.Failure? {
        ChainPrefixFailure(body0, rules, i + 1, SplitAtStep(env));
        return Failure(selected.error);
      }
      body := selected.value;
    }
    assert rules[..|rules|] == rules;
    return Success(body);
  }

  /** The key loop of one SplitAfter step: each selected piece followed by the separator, then trimmed. */
  method SplitAfterKeys(final0: string, rule: SplitAfterRule, env: Env) returns (r: Result<string, LegacyError>)
    ensures r == SplitAfterOne(final0, rule, env)
  {
    var split := Split(final0, rule.phrase);
    var final := "";
    ghost var selected: seq<string> := [];
    for j := 0 to |rule.keys|
      invariant Chain([], rule.keys[..j], KeyStep(env, split)) == Success(selected)
      invariant final == Concat(Terminated(selected, rule.seperator))
    {
      var finall := SelectKey(env, split, rule.keys[j]);
      assert rule.keys[..j + 1][..j] == rule.keys[..j];
      if finall.Failure? {
        ChainPrefixFailure([], rule.keys, j + 1, KeyStep(env, split));
        return Failure(finall.error);
      }
      ConcatTerminatedSnoc(selected, finall.value, rule.seperator);
      final := final + (finall.value + rule.seperator);
      selected := selected + [finall.value];
    }
    assert rule.keys[..|rule.keys|] == rule.keys;
    return Success(Trim(final, rule.seperator));
  }

  /** The SplitAfter loop of ScrapeElement. */
  method SplitAfterSteps(final0: string, rules: seq<SplitAfterRule>, env: Env) returns (r: Result<string, LegacyError>)
    ensures r == SplitAfterAll(final0, rules, env)
  {
    var final := final0;
    for i := 0 to |rules|
      invariant Chain(final0, rules[..i], SplitAfterStep(env)) == Success(final)
    {
      var step := SplitAfterKeys(final, rules[i], env);
      assert rules[..i + 1][..i] == rules[..i];
      if step.Failure? {
        ChainPrefixFailure(final0, rules, i + 1, SplitAfterStep(env));
        return Failure(step.error);
      }
      final := step.value;
    }
    assert rules[..|rules|] == rules;
    return Success(final);
  }

  /** The Trim loop of ScrapeElement: each cutset in list order. */
  method TrimSteps(text: string, cutsets: seq<string>) returns (final: string)
    ensures final == TrimEach(text, cutsets)
  {
    final := text;
    for i := 0 to |cutsets|
      invariant final == TrimEach(text, cutsets[..i])
    {
      final := Trim(final, cutsets[i]);
      assert cutsets[..i + 1][..i] == cutsets[..i];
    }
    assert cutsets[..|cutsets|] == cutsets;
  }

  /** The reformatting stages of ScrapeElement, from the trims to the final trim of spaces. */
  method ReformatFinal(text: string, lookEl: LookUpElement, env: Env) returns (r: Result<string, LegacyError>)
    ensures r == Reformat(text, lookEl, env)
  {
    var trimmed := TrimSteps(text, lookEl.trim);
    var split := SplitAfterSteps(trimmed, lookEl.splitAfter, env);
    if split.Failure? {
      return Failure(split.error);
    }
    var final := ReplaceAndDecorate(split.value, lookEl);
    return Success(final);
  }

  /** The replacement loop, the suffix and prefix, and the final trim of spaces. */
  method ReplaceAndDecorate(cut: string, lookEl: LookUpElement) returns (final: string)
    ensures final == Trim(lookEl.addBefore + (ReplaceEach(cut, lookEl.replacements) + lookEl.addAfter), " ")
  {
    final := cut;
    for i := 0 to |lookEl.replacements|
      invariant final == ReplaceEach(cut, lookEl.replacements[..i])
    {
      final := ReplaceAll(final, lookEl.replacements[i].toReplace, lookEl.replacements[i].withText);
      assert lookEl.replacements[..i + 1][..i] == lookEl.replacements[..i];
    }
    assert lookEl.replacements[..|lookEl.replacements|] == lookEl.replacements;
    ghost var replaced := final;
    if |lookEl.addAfter| > 0 {
      final := final + lookEl.addAfter;
    } else {
      assert lookEl.addAfter == [];
    }
    assert final == replaced + lookEl.addAfter;
    ghost var suffixed := final;
    if |lookEl.addBefore| > 0 {
      final := lookEl.addBefore + final;
    } else {
      assert lookEl.addBefore == [];
    }
    assert final == lookEl.addBefore + suffixed;
    final := Trim(final, " ");
  }

  /** ScrapeElement up to the follow hand-off: the NotFound guard, SplitAt, the element extractor, HasToContain and the reformatting. */
  method ScrapeContent(body0: string, lookEl: LookUpElement, env: Env) returns (r: Result<string, LegacyError>)
    ensures r == ElementContent(body0, lookEl, env)
  {
    if lookEl.notFound != "" {
      if Contains(body0, lookEl.notFound) {
        return Failure(NotFoundPresent(lookEl.notFound));
      }
    }
    var split := SplitAtSteps(body0, lookEl.splitAt, env);
    if split.Failure? {
      return Failure(split.error);
    }
    var body := split.value;
    var final := body;
    if |lookEl.elements| > 0 {
      var answer := env.getNestedHTMLElement(body, lookEl.elements);
      if answer.errNonNil && answer.finalEl != "" {
        final := answer.finalEl;
      }
    }
    assert final == Nested(body, lookEl.elements, env);
    if lookEl.hasToContain != "" {
      if !Contains(final, lookEl.hasToContain) {
        return Failure(HasToContainMissing(lookEl.hasToContain));
      }
    }
    r := ReformatFinal(final, lookEl, env);
  }

  /**
   * The end of ScrapeElement.  With LastIsURL, the follow target's URL is
   * overwritten with the content before the nested website is scraped with an
   * empty registry.
   */
  method FinishElement(final: string, lookEl: LookUpElement, env: Env, fuel: nat) returns (r: Result<string, LegacyError>)
    requires LookUpValid(lookEl, fuel)
    modifies ReachOne(lookEl, fuel)
    ensures r == Finish(final, lookEl, env, fuel)
    ensures lookEl.lastIsURL && (fuel == 0 || lookEl.followURL !in ReachAll(lookEl.followURL.lookUpElements, fuel - 1))
            ==> lookEl.followURL.url == final
    decreases fuel, 0
  {
    if lookEl.lastIsURL {
      lookEl.followURL.url := final;
      if fuel == 0 {
        return Failure(FollowDepthExceeded);
      }
      r := Scrape<int>(lookEl.followURL, [], [], env, fuel - 1);
      return;
    }
    if |final| > 0 && final != lookEl.addBefore && final != lookEl.addAfter {
      return Success(final);
    }
    return Failure(ElementNotFound);
  }

  /** ScrapeElement: the content of the lookup, then its follow hand-off or emptiness check. */
  method ScrapeElement(body: string, lookEl: LookUpElement, env: Env, fuel: nat) returns (r: Result<string, LegacyError>)
    requires LookUpValid(lookEl, fuel)
    modifies ReachOne(lookEl, fuel)
    ensures r == ElementResult(body, lookEl, env, fuel)
    ensures lookEl.lastIsURL && ElementContent(body, lookEl, env).Success?
            && (fuel == 0 || lookEl.followURL !in ReachAll(lookEl.followURL.lookUpElements, fuel - 1))
            ==> lookEl.followURL.url == ElementContent(body, lookEl, env).value
    ensures ElementContent(body, lookEl, env).Failure? ==>
              forall x :: x in ReachOne(lookEl, fuel) && old(allocated(x)) ==> x.url == old(x.url)
    decreases fuel, 1
  {
    var content := ScrapeContent(body, lookEl, env);
    if content.Failure? {
      return Failure(content.error);
    }
    r := FinishElement(content.value, lookEl, env, fuel);
  }

  /**
   * One pass of the lookup loop: ScrapeElement on lookup `i`, once every
   * earlier lookup succeeded.  It writes only within the lookup's reach, and
   * only once the content was found: the URLs that earlier lookups wrote as
   * sole writers survive it, and so does every follow target that no lookup
   * up to `i` that ran can reach.
   */
  method ScrapeNextElement(body: string, lookUps: seq<LookUpElement>, i: nat, env: Env, fuel: nat)
      returns (r: Result<string, LegacyError>)
    requires IndicesValid(lookUps, fuel) && i < |lookUps|
    requires IndicesValid(lookUps[..i], fuel) && ScrapeAll(body, lookUps[..i], env, fuel).Success?
    modifies ReachOne(lookUps[i], fuel)
    ensures r == ElementResult(body, lookUps[i], env, fuel)
    ensures forall k :: 0 <= k <= i && FollowWritten(body, lookUps, k, env, fuel)
              ==> lookUps[k].followURL.url
                  == if k == i then ElementContent(body, lookUps[k], env).value else old(lookUps[k].followURL.url)
    ensures forall k :: 0 <= k < |lookUps| && lookUps[k].followURL != null
              && UntouchedBy(lookUps[k].followURL, body, lookUps, i + 1, env, fuel)
              ==> lookUps[k].followURL.url == old(lookUps[k].followURL.url)
                  && UntouchedBy(lookUps[k].followURL, body, lookUps, i, env, fuel)
    decreases fuel, 2
  {
    assert LookUpValid(lookUps[i], fuel);
    r := ScrapeElement(body, lookUps[i], env, fuel);
    forall k | 0 <= k < i && FollowWritten(body, lookUps, k, env, fuel)
      ensures lookUps[k].followURL.url == old(lookUps[k].followURL.url)
    {
      assert lookUps[k].followURL !in ReachOne(lookUps[i], fuel);
    }
    forall k | 0 <= k < |lookUps| && lookUps[k].followURL != null
               && UntouchedBy(lookUps[k].followURL, body, lookUps, i + 1, env, fuel)
      ensures lookUps[k].followURL.url == old(lookUps[k].followURL.url)
      ensures UntouchedBy(lookUps[k].followURL, body, lookUps, i, env, fuel)
    {
      if ElementContent(body, lookUps[i], env).Success? {
        assert Ran(body, lookUps, i, env, fuel);
      }
    }
  }

  /**
   * The lookup loop of Website.Scrape: every lookup on the same body, stopping
   * at the first error.  Each lookup that ran and is the sole writer of its
   * follow target leaves its content there; a follow target that no lookup
   * that ran can reach keeps its URL.
   */
  method ScrapeLookUps(body: string, lookUps: seq<LookUpElement>, env: Env, fuel: nat) returns (r: Result<seq<string>, LegacyError>)
    requires IndicesValid(lookUps, fuel)
    modifies ReachAll(lookUps, fuel)
    ensures r == ScrapeAll(body, lookUps, env, fuel)
    ensures forall k :: 0 <= k < |lookUps| && FollowWritten(body, lookUps, k, env, fuel)
              ==> lookUps[k].followURL.url == ElementContent(body, lookUps[k], env).value
    ensures forall k :: 0 <= k < |lookUps| && lookUps[k].followURL != null
              && UntouchedBy(lookUps[k].followURL, body, lookUps, |lookUps|, env, fuel)
              ==> lookUps[k].followURL.url == old(lookUps[k].followURL.url)
    decreases fuel, 3
  {
    var finishedElements: seq<string> := [];
    for i := 0 to |lookUps|
      invariant IndicesValid(lookUps[..i], fuel)
      invariant ScrapeAll(body, lookUps[..i], env, fuel) == Success(finishedElements)
      invariant forall k :: 0 <= k < i && FollowWritten(body, lookUps, k, env, fuel)
                  ==> lookUps[k].followURL.url == ElementContent(body, lookUps[k], env).value
      invariant forall k :: 0 <= k < |lookUps| && lookUps[k].followURL != null
                  && UntouchedBy(lookUps[k].followURL, body, lookUps, i, env, fuel)
                  ==> lookUps[k].followURL.url == old(lookUps[k].followURL.url)
    {
      ReachOneInAll(lookUps, i, fuel);
      var contains := ScrapeNextElement(body, lookUps, i, env, fuel);
      assert lookUps[..i + 1][..i] == lookUps[..i];
      IndicesValidPrefix(lookUps, i + 1, fuel);
      if contains.Failure? {
        ScrapeAllPrefixFailure(body, lookUps, i + 1, env, fuel);
        forall k | i < k < |lookUps|
          ensures !FollowWritten(body, lookUps, k, env, fuel)
        {
          ScrapeAllFailureStays(body, lookUps, i + 1, k, env, fuel);
        }
        forall k | 0 <= k < |lookUps| && lookUps[k].followURL != null
                   && UntouchedBy(lookUps[k].followURL, body, lookUps, |lookUps|, env, fuel)
          ensures UntouchedBy(lookUps[k].followURL, body, lookUps, i + 1, env, fuel)
        {
        }
        return Failure(contains.error);
      }
      finishedElements := finishedElements + [contains.value];
    }
    assert lookUps[..|lookUps|] == lookUps;
    return Success(finishedElements);
  }

  /** The join loop of Website.Scrape: every fragment followed by the separator. */
  method JoinTerminated(finishedElements: seq<string>, seperator: string) returns (entireString: string)
    ensures entireString == Concat(Terminated(finishedElements, seperator))
  {
    entireString := "";
    for k := 0 to |finishedElements|
      invariant entireString == Concat(Terminated(finishedElements[..k], seperator))
    {
      ConcatTerminatedSnoc(finishedElements[..k], finishedElements[k], seperator);
      assert finishedElements[..k + 1] == finishedElements[..k] + [finishedElements[k]];
      entireString := entireString + (finishedElements[k] + seperator);
    }
    assert finishedElements[..|finishedElements|] == finishedElements;
  }

  /**
   * Website.Scrape: rewrite the string fields of a copy with the registry when
   * it is not empty, fetch the body, run every lookup on it in order, stop at
   * the first error, append the separator to every fragment and trim the
   * result with the separator as a cutset.
   */
  method Scrape<C>(w: Website, funcs: Registry<C>, cons: seq<C>, env: Env, fuel: nat) returns (r: Result<string, LegacyError>)
    requires IndicesValid(w.lookUpElements, fuel)
    modifies ReachAll(w.lookUpElements, fuel)
    ensures r == ScrapeSite(Rewrite(old(w.url), funcs, cons), Rewrite(w.seperator, funcs, cons), w.lookUpElements, env, fuel)
    ensures w !in ReachAll(w.lookUpElements, fuel) ==> w.url == old(w.url)
    ensures var body := env.getHTMLData(Rewrite(old(w.url), funcs, cons));
            |body| > 0 ==>
              forall k :: 0 <= k < |w.lookUpElements| && FollowWritten(body, w.lookUpElements, k, env, fuel)
                ==> w.lookUpElements[k].followURL.url == ElementContent(body, w.lookUpElements[k], env).value
    ensures var body := env.getHTMLData(Rewrite(old(w.url), funcs, cons));
            |body| == 0 ==>
              forall k :: 0 <= k < |w.lookUpElements| && w.lookUpElements[k].followURL != null
                ==> w.lookUpElements[k].followURL.url == old(w.lookUpElements[k].followURL.url)
    ensures var body := env.getHTMLData(Rewrite(old(w.url), funcs, cons));
            |body| > 0 ==>
              forall k :: 0 <= k < |w.lookUpElements| && w.lookUpElements[k].followURL != null
                && UntouchedBy(w.lookUpElements[k].followURL, body, w.lookUpElements, |w.lookUpElements|, env, fuel)
                ==> w.lookUpElements[k].followURL.url == old(w.lookUpElements[k].followURL.url)
    decreases fuel, 4
  {
    // the copy pW: Name and Cache are rewritten too, and never read afterwards
    var name, seperator, url, cache := w.name, w.seperator, w.url, w.cache;
    if |funcs| > 0 {
      name := FormatString(name, funcs, cons);
      seperator := FormatString(seperator, funcs, cons);
      url := FormatString(url, funcs, cons);
      cache := FormatString(cache, funcs, cons);
    }
    var body := env.getHTMLData(url);
    if |body| == 0 {
      return Failure(BodyMissing(url));
    }
    var finishedElements := ScrapeLookUps(body, w.lookUpElements, env, fuel);
    if finishedElements.Failure? {
      return Failure(finishedElements.error);
    }
    var entireString := JoinTerminated(finishedElements.value, seperator);
    return Success(Trim(entireString, seperator));
  }
}
