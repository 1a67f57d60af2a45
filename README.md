# goScraper in Dafny

goScraper pulls text out of HTML pages. A *website* has a URL, a list of
*lookups* and a separator. Each lookup finds a piece of text in the page and
reformats it. The website joins the lookups' results with its separator. A
lookup can also *follow* its text: the text becomes the URL of a nested
website, and the nested website's result replaces the text. Placeholders such
as `{{PATH}}` in a website's strings can be rewritten by a registry of
functions before the page is fetched.

The repository holds two revisions of the package that declare the same type
names. Each gets its own module:

- `Scrape` (scrape.go, with html.go and helpers.go) is the tree-based
  revision.
  - A lookup selects a node of the parsed document by tag name and required
    attributes, and picks one match by index.
  - It reads the node's text and runs the format chain: replace-all, then
    trim by cutset, then append, then prepend.
  - It then follows the text as a URL or returns it.
  - A website joins its fragments with `strings.Join` semantics.
- `Legacy` (website.go) is the older string-splitting revision. A lookup runs
  these steps in order:
  - a NotFound guard;
  - a chain of split-and-select steps on the raw body;
  - an optional element extractor and a HasToContain guard;
  - trims, SplitAfter re-joins, replacements, suffix, prefix and a final trim
    of spaces;
  - the follow hand-off, or an emptiness check.

  A website appends the separator to every fragment and then trims the whole
  text with the separator as a cutset.

The supporting modules:

- `Html` (html.go): the crawler, which matches a selector, and the text
  extractor.
- `Helpers` (helpers.go): `formatString`, which substitutes placeholders, and
  `checkKey`, which selects one piece of a split.
- `GoStrings`: the parts of Go's `strings` package that the code calls:
  - `Index` and `Contains`;
  - `ReplaceAll`, including the empty-pattern rule;
  - `Trim` with a cutset;
  - `Split`, including the empty-separator rule;
  - `Join`.
- `Results`: `Option` for nil pointers and a `Result` for Go's
  `(value, error)` pairs.

Each operation that works step by step in Go is a Dafny method with the same
loops. Its result is proved equal to a specification function. The
properties the code promises are proved about those functions as lemmas.
Both `Website` types are classes whose `url` field is overwritten in place
through a lookup's follow pointer.

Some behaviours of the code differ from what the package's tests or
comments suggest. The model follows the code in every case:

- Non-recursive `GetTextOfNode` returns a node's own data only when the node
  is a text node. For an element node it returns "". A test in html_test.go
  expects "This is some " for a paragraph; this code cannot produce that
  (`Html.ShallowTextIsOwnText`, `Html.NestedParagraphText`).
- A matched node stops the crawler's descent. The first child of an
  unmatched node is crawled twice, so a match under a first child is
  returned more than once (`Html.CrawlShape`, `Html.CrawlDuplicatesFirstChild`).
- The legacy join trims with the separator as a cutset. It therefore eats
  separator characters at either end of the joined text, including the
  separators next to an empty first or last fragment: `["a", ""]` joined
  with `"-"` gives `"a"` where `strings.Join` gives `"a-"`
  (`Legacy.TrimJoinDropsFragmentText`).
- The legacy code uses the element extractor's text only when its error is
  *non-nil* and its text is non-empty. The condition is kept as written
  (`Legacy.Nested`).
- Following a URL writes into the Website value the follow pointer refers to.
  That object is shared with the caller, so the overwrite is visible after
  the scrape (`Scrape.ScrapeTreeForElement`, `Legacy.ScrapeElement`). At the
  website level, each lookup that ran and is the only writer of its target
  leaves its content there (`Scrape.ScrapeLookUps`, `Legacy.ScrapeLookUps`
  and both `Scrape` methods). Nothing else is written: a lookup whose content
  is not found, a lookup that never runs because an earlier one failed, and
  a fetch that fails or returns an empty body leave every URL as it was.

`Legacy` mirrors a few helpers of `Scrape` on purpose, because the two
revisions declare separate types: the reach sets and their lemmas, the
prefix lemmas about the lookup loop, and `Legacy.ReplaceEach`, which is
`Scrape.ApplyReplacements` over the older field names.

## Model

| member | source | states |
|---|---|---|
| GoStrings.Index | helpers.go:25 | the result is -1 exactly when the pattern occurs nowhere; otherwise it is the first position where it occurs |
| GoStrings.ContainsIff | helpers.go:25 | `strings.Contains` holds exactly when the pattern occurs at some position (the empty pattern occurs everywhere) |
| GoStrings.SplitJoin | website.go:109 | splitting at a non-empty separator and joining with it again gives back the original string |
| GoStrings.ExplodeJoin | website.go:109 | splitting at the empty separator and joining with it again gives back the original string |
| GoStrings.SplitPiecesAvoidSeparator | website.go:109 | no piece of a split at a non-empty separator contains that separator |
| GoStrings.Explode | website.go:109 | with an empty separator, Split yields one single-character string per character of the input |
| GoStrings.JoinSeparatesStrictly | scrape.go:87-93 | the separator goes only between fragments: the join plus one separator equals every fragment followed by a separator, and no fragments give "" |
| GoStrings.JoinLength | scrape.go:87-93 | N fragments joined contain the fragments' text plus exactly N-1 separators |
| GoStrings.ReplaceAll | scrape.go:113 | a non-empty target that does not occur leaves the text unchanged |
| GoStrings.ReplaceIsSplitJoin | scrape.go:113 | replacing a non-empty target equals splitting at it and joining with the replacement |
| GoStrings.ReplaceBySelf | website.go:148 | replacing any pattern by itself, including the empty one, changes nothing |
| GoStrings.InterleaveContents | website.go:148 | an empty target inserts the replacement before every character and once more at the end |
| GoStrings.InterleaveLength | website.go:148 | with an empty target the result has the text's length plus one copy of the replacement per character and one more |
| GoStrings.TrimLeft | scrape.go:117 | the result is a suffix of the input; every character dropped is in the cutset; the first character kept is not |
| GoStrings.TrimRight | scrape.go:117 | the result is a prefix of the input; every character dropped is in the cutset; the last character kept is not |
| GoStrings.Trim | scrape.go:117 | the result is an infix of the input, everything outside it is in the cutset, and neither end of the result is; an empty cutset changes nothing |
| GoStrings.TrimIdempotent | scrape.go:116-118 | trimming twice with the same cutset is the same as trimming once |
| GoStrings.TrimDropsEnds | website.go:96 | trimming a text whose two ends are outside the cutset, surrounded by cutset characters, gives back exactly that text |
| GoStrings.TrimEach | scrape.go:116-118 | applying the trims in list order never lengthens the text, and the result neither starts nor ends with a character of the last cutset |
| GoStrings.ConcatTerminatedSnoc | website.go:92-94 | adding one more fragment adds exactly that fragment and one separator at the end |
| Helpers.ApplyEntry | helpers.go:25-31 | a registry function runs only when its key occurs in the current string; a two-argument function gets the string and the constants; a one-argument function gets only the string; any other value leaves the string unchanged |
| Helpers.FormatString | helpers.go:23-34 | the loop's result is the entries applied in visiting order, each to the output of the previous ones |
| Helpers.SubstituteAppend | helpers.go:24-32 | visiting one part of the registry and then the rest is the same as visiting the whole registry |
| Helpers.SubstituteNoKey | helpers.go:24-33 | a string in which no registry key occurs is returned unchanged, in every visiting order |
| Helpers.SubstituteSingleKey | helpers.go:24-33 | when exactly one key occurs and its function's output contains no key, the result is that function's output, whatever the visiting order |
| Helpers.PathPlaceholderExample | helpers_test.go:36-38 | the `{{PATH}}` function turns "{{PATH}} should be replaced" into "path/to/somewhere should be replaced" |
| Helpers.PathExample | helpers_test.go:13-55 | with the `{{PATH}}` and `{{DATE}}` entries in either visiting order, the example input yields the expected output |
| Helpers.CheckKey | helpers.go:38-45 | returns "" past the end, the last piece for -1, and the piece at the key otherwise |
| Helpers.CheckKeyFirstPiece | helpers.go:38-45 | key 0 of a split at a non-empty phrase is the text before the phrase's first occurrence, or the whole text if it does not occur |
| Helpers.CheckKeyLastPiece | helpers.go:41-42 | key -1 of a split at a non-empty phrase is a suffix of the text that does not contain the phrase; when the phrase occurs, the phrase comes right before that suffix |
| Html.CountFound | html.go:44-53 | the number of tags counted never exceeds the number of tags |
| Html.CountFoundAll | html.go:44-54 | the count equals the number of tags exactly when every tag is satisfied by some attribute |
| Html.CountFoundTags | html.go:44-53 | the nested loop with its labelled break counts each tag once exactly when some attribute has the tag's name and value |
| Html.SelectsIffMatches | html.go:43-54 | the crawler's test holds exactly when the node is an element node with the tag name that carries every required attribute; extra attributes and order do not matter; with no tags every element with the name qualifies |
| Html.CrawlChildrenCons | html.go:61-63 | crawling a list of siblings is crawling the first sibling and then the rest |
| Html.CrawlShape | html.go:54-63 | a selected node is returned alone; an unselected leaf gives nothing; otherwise the first child's matches come twice, followed by those of the other children |
| Html.CrawlDuplicatesFirstChild | html.go:58-63 | a match that is the only child of an unmatched node is returned twice |
| Html.CrawlSound | html.go:42-65 | every node the crawler returns lies in the searched tree and matches the selector |
| Html.InCrawlChildren | html.go:61-63 | a node is among the siblings' matches exactly when it is among the matches of one of them |
| Html.MatchHasTopMatch | html.go:42-65 | a matching node anywhere in the tree means the crawler has some top-most match to find |
| Html.CrawlFindsTopMatches | html.go:42-65 | ignoring repetitions, the crawler returns exactly the selected nodes that have no selected ancestor |
| Html.Crawler | html.go:42-65 | the recursive crawler with its loop over the children returns the specified walk |
| Html.AppendCrawls | html.go:61-63 | the loop over the children appends their matches in sibling order |
| Html.GetElementNodes | html.go:40-70 | succeeds exactly when something matches; then every returned node is in the tree and matches, and the returned nodes are exactly the top-most matches; otherwise the error is "missing <typ> in the node tree" and no node matches |
| Html.GetTextOfNode | html.go:81-92 | the result is the node's own text (data of a text node, otherwise "") followed, unless non-recursive, by each child's text in order |
| Html.AppendChildrenText | html.go:87-89 | the sibling loop appends each child's recursive text in order |
| Html.TextsOfAppend | html.go:81-92 | the text of two runs of nodes is the text of the first run followed by that of the second |
| Html.TextIsDocumentOrderText | html.go:81-92 | recursive extraction is the data of every text node of the subtree, in document order, with nothing in between |
| Html.ShallowTextIsOwnText | html.go:83-90 | non-recursive extraction reads only the node itself, is "" for a non-text node, and is a prefix of the recursive text |
| Html.NestedParagraphText | html_test.go:189-227 | for the test's nested paragraph, recursive extraction gives "This is some nested text" and non-recursive extraction gives "" |
| Scrape.Website.constructor | scrape.go:51-55 | a website holds the given URL, lookups and separator |
| Scrape.ApplyReplacementsAppend | scrape.go:112-114 | the replacement rules apply in list order: a first part of the list and then the rest give the same result as the whole list |
| Scrape.ApplyReplacementsAbsent | scrape.go:112-114 | a text in which no non-empty target occurs is unchanged by all the rules |
| Scrape.FormatContent | scrape.go:112-128 | the result is the prefix, then the replaced and trimmed text, then the suffix; the decoration is neither replaced nor trimmed; the trimmed text is no longer than the replaced text and has no end in the last cutset |
| Scrape.EmptyFormatIsIdentity | scrape.go:112-128 | with no rules the format chain is the identity, so applying it twice is too |
| Scrape.LookUpContentErrors | scrape.go:100-110 | GetElementNodes' error is passed on unchanged exactly when nothing matches; "element index out of range" is raised exactly when the index is past the last match; the last index succeeds; a success is the formatted text of a matching node of the tree |
| Scrape.FollowReplacesContent | scrape.go:130-133 | with a follow target, the result is the nested website scraped at the content, with its own separator and no placeholder substitution |
| Scrape.ScrapeAllFragments | scrape.go:78-85 | a successful scrape holds one fragment per lookup, each that lookup's own result |
| Scrape.ScrapeAllSucceedsIfEach | scrape.go:78-85 | when every lookup succeeds on its own, the scrape succeeds |
| Scrape.ScrapeAllSuccess | scrape.go:78-85 | all lookups succeed exactly when each one does; then there is one fragment per lookup, in order |
| Scrape.ScrapeAllFirstFailure | scrape.go:78-85 | a failing website reports the error of its first failing lookup; every earlier lookup succeeded; no partial result is returned |
| Scrape.ScrapeAllPrefixFailure | scrape.go:79-82 | once a prefix of the lookups fails, later lookups do not change the error |
| Scrape.ScrapeAllFailureStays | scrape.go:79-82 | a failure within the first lookups is the result of every longer prefix |
| Scrape.ScrapeLookUps | scrape.go:78-85 | the lookup loop computes every lookup on the same tree and stops at the first error; each lookup that ran, found its content and is the sole writer of its follow target leaves that content in the target's URL; a follow target that no lookup that ran and found its content can reach keeps its URL |
| Scrape.ScrapeNextLookUp | scrape.go:79-84 | one pass of the loop, after every earlier lookup succeeded: the result is the lookup's specified result; URLs written by earlier sole writers survive; a follow target the lookup cannot reach, or any target when its content is not found, keeps its URL |
| Scrape.JoinFragments | scrape.go:87-93 | the join loop, which adds the separator after every fragment except the last, computes strings.Join |
| Scrape.FormatText | scrape.go:112-128 | the replacement and trim loops and the conditional suffix and prefix compute the format chain |
| Scrape.ScrapeTreeForElement | scrape.go:99-136 | the result is the lookup's specified result; with a follow target the target's URL now holds the formatted content (unless a deeper follow overwrote it again); when the content is not found (missing element, index out of range), no website within the lookup's reach, its follow target included, changes its URL |
| Scrape.Scrape | scrape.go:58-96 | the result is the website scraped at the URL and separator rewritten by the registry when one is given; the website's own URL changes only if it is itself a follow target; when the page was fetched, each lookup that ran, found its content and is the sole writer of its follow target leaves that content in the target's URL, and a follow target that no lookup that ran and found its content can reach keeps its URL; when the fetch fails, every follow target of its lookups keeps its URL |
| Legacy.Website.constructor | website.go:57-63 | a website holds the given name, separator, URL, lookups and cache |
| Legacy.ChainPrefixFailure | website.go:108-114 | once a prefix of a step chain fails, the whole chain fails with that error |
| Legacy.ChainFailingStep | website.go:108-114 | a failing chain fails with the error of one of its steps |
| Legacy.NotFoundFirst | website.go:101-105 | a non-empty NotFound phrase present in the body gives "website contains NotFound (...)" before anything else is looked at |
| Legacy.SplitAtKeyErrors | website.go:108-114 | SplitAt steps fail only with checkKey's errors |
| Legacy.SplitAtFirstPiece | website.go:108-114 | a SplitAt step with key 0 keeps the text before the first occurrence of the phrase, or the whole body if it does not occur |
| Legacy.SplitAtLastPiece | website.go:108-114 | a SplitAt step with key -1 keeps a suffix of the body that no longer contains the phrase |
| Legacy.SplitAfterKeyErrors | website.go:134-145 | SplitAfter steps fail only with checkKey's errors |
| Legacy.HasToContainGuard | website.go:125-129 | "website does not contain HasToContain (...)" is raised exactly when NotFound did not fire, the SplitAt steps succeeded, and the non-empty phrase is absent from the text that reached the guard |
| Legacy.ElementContentErrors | website.go:100-161 | before the follow hand-off, a lookup fails only through NotFound, checkKey or HasToContain |
| Legacy.Reformat | website.go:161 | the content after the final trim of spaces neither starts nor ends with a space |
| Legacy.ElementResultChecks | website.go:168-170 | without a follow target a success is the content itself, non-empty and different from both decorations |
| Legacy.ElementNotFoundExactly | website.go:168-172 | without a follow target, "could not find element in body" is reported exactly when the content is empty or equals one of the decorations |
| Legacy.TrimJoin | website.go:91-96 | the website's joined text neither starts nor ends with a separator character |
| Legacy.TrimJoinEmptySeparator | website.go:91-96 | with an empty separator the join is plain concatenation |
| Legacy.TrimJoinIsJoin | website.go:91-96 | the join equals strings.Join whenever the joined text neither starts nor ends with a separator character |
| Legacy.TrimJoinDropsFragmentText | website.go:91-96 | the join is not strings.Join in general: fragments "-a" and "b" with separator "-" give "a-b", not "-a-b" |
| Legacy.ScrapeAllPrefixFailure | website.go:83-89 | a failing lookup ends the website's loop with its error |
| Legacy.ScrapeAllFailureStays | website.go:83-89 | a failure within the first lookups is the result of every longer prefix |
| Legacy.ScrapeAllFragments | website.go:83-89 | a successful scrape holds one fragment per lookup, each that lookup's own result |
| Legacy.ScrapeAllSucceedsIfEach | website.go:83-89 | when every lookup succeeds on its own, the scrape succeeds |
| Legacy.ScrapeAllSuccess | website.go:83-89 | all lookups succeed exactly when each one does; then there is one fragment per lookup, in order |
| Legacy.SplitAtSteps | website.go:108-114 | the SplitAt loop computes the step chain and stops at the first checkKey error |
| Legacy.SplitAfterKeys | website.go:135-144 | the key loop puts each selected piece followed by the separator, then trims with the separator as a cutset; it stops at the first checkKey error |
| Legacy.SplitAfterSteps | website.go:134-145 | the SplitAfter loop applies the rules in order, each to the previous output |
| Legacy.TrimSteps | website.go:131-133 | the Trim loop applies the cutsets in list order |
| Legacy.ReformatFinal | website.go:131-161 | the stages run in this order: trims, SplitAfter, replacements, suffix, prefix, final trim of spaces |
| Legacy.ReplaceAndDecorate | website.go:147-161 | the replacements run in list order; then the suffix and the prefix are added, each only when non-empty; then spaces are trimmed from both ends |
| Legacy.ScrapeContent | website.go:100-161 | the guards, the SplitAt chain, the extractor and the reformatting compute the lookup's content |
| Legacy.FinishElement | website.go:163-172 | with LastIsURL, the follow target's URL holds the content (unless a deeper follow can overwrite it again) and the result is the nested website scraped with an empty registry; otherwise the emptiness check decides |
| Legacy.ScrapeElement | website.go:100-173 | the result is the lookup's specified result; with LastIsURL the follow target's URL holds the content (unless a deeper follow can overwrite it again); when the content is not found, no website within the lookup's reach, its follow target included, changes its URL |
| Legacy.ScrapeLookUps | website.go:82-89 | the lookup loop computes every lookup on the same body and stops at the first error; each lookup that ran, found its content and is the sole writer of its follow target leaves that content in the target's URL; a follow target that no lookup that ran and found its content can reach keeps its URL |
| Legacy.ScrapeNextElement | website.go:83-88 | one pass of the loop, after every earlier lookup succeeded: the result is the lookup's specified result; URLs written by earlier sole writers survive; a follow target the lookup cannot reach, or any target when its content is not found, keeps its URL |
| Legacy.JoinTerminated | website.go:91-94 | the join loop puts every fragment followed by the separator |
| Legacy.Scrape | website.go:66-97 | the result is the website scraped at its URL and separator, rewritten only when the registry is not empty; an empty body gives "error while finding body of <url>"; the website's own URL changes only if it is itself a follow target; with a non-empty body, each lookup that ran, found its content and is the sole writer of its follow target leaves that content in the target's URL, and a follow target that no lookup that ran and found its content can reach keeps its URL; with an empty body every follow target of its lookups keeps its URL |

## Left out

- HTTP and HTML parsing (`GetHTMLBody`, `GetHTMLNode`, `GetHTML`, `GetHTMLdata`) are parameters:
  - `fetch` in `Scrape` maps a URL to a tree or an error message;
  - `Env.getHTMLData` in `Legacy` maps a URL to a body, "" when none.
- `RenderNode` is left out. It only renders a node with the HTML library into a buffer.
- `GetNestedHTMLElement` is not part of this model. It is the uninterpreted field `Env.getNestedHTMLElement`.
- website.go calls a two-result `checkKey` that is not part of this model.
  - Its error outcome is the uninterpreted field `Env.checkKeyError`.
  - Without an error it is helpers.go's selection rule.
  - Keys on which that rule would index out of range become `KeyOutOfDomain` instead of a panic.
- The reflection loop over string fields becomes an explicit rewrite of the copied fields.
  - scrape.go: URL and Separator.
  - website.go: Name, Seperator, URL and Cache. Name and Cache are never read afterwards.
- Registry functions are opaque Dafny functions. Go's map order is an arbitrary sequence, and the lemmas hold for every order.
- Scrape.Scrape: one registry order serves every rewritten field of a call, while Go draws a fresh map order for each field's `formatString`; the URL and the separator can therefore be rewritten in different orders in Go.
- Legacy.Scrape: the same single registry order is used for Name, Seperator, URL and Cache.
- `logError` and the `fmt.Println` diagnostics are left out: console output only.
- website_test.go is left out. It tests fields that no modelled file declares.
- Follow recursion carries a `fuel` bound. Running out gives `FollowDepthExceeded`, which the Go code does not have. Go recurses without limit and may not terminate on a cyclic chain of follow targets.
- Go strings are byte strings; here a string is a sequence of characters.
- Scrape.LookUpValid and Legacy.LookUpValid are preconditions for the cases where Go panics:
  - a negative lookup index in scrape.go;
  - `LastIsURL` with a nil follow pointer in website.go.
- Scrape.ScrapeTreeForElement: the URL written into the follow target is stated only when no deeper follow can overwrite the same website again.
- Legacy.ScrapeElement: the same limit on the stated URL applies.
- Legacy.FinishElement: the same limit applies; this is where the write happens.
- Scrape.ScrapeLookUps: a follow target's new URL is stated per lookup, and only for a lookup that is the sole writer of that target (`SoleWriter`). When two lookups, or a lookup and a website its follow reaches, share a target, the last write wins in Go; the model does not state which value remains.
- Legacy.ScrapeLookUps: the same sole-writer limit applies.
- Scrape.Scrape: the same sole-writer limit applies to the follow targets of the website's lookups.
- Legacy.Scrape: the same sole-writer limit applies.
- The lookup loop of scrape.go's `Scrape` is a separate method (`Scrape.ScrapeLookUps`), called where the Go loop runs, as in the legacy module.
- The body of each lookup loop is a separate method too (`Scrape.ScrapeNextLookUp`, `Legacy.ScrapeNextElement`), called once per pass.
- Both `Website` classes keep every field except `url` constant, because the scraper never writes them.
- Scrape.ScrapeTreeForElement: GetElementNodes' error is wrapped as `ElementMissing(message)`, which carries the same message.
- The loops of `GetElementNodes`' crawler and of `GetTextOfNode` are separate methods (`Html.AppendCrawls`, `Html.AppendChildrenText`), each called at the point where the Go loop runs.
- The trim loop and the replacement tail of website.go's `ScrapeElement` are separate methods too (`Legacy.TrimSteps`, `Legacy.ReplaceAndDecorate`), called in Go's order.
