# wikiGraph, modelled in Dafny

wikiGraph plays the "Getting to Philosophy" game. From a start article it
follows the first valid in-body link of each page, again and again, and
draws the chain of pages on a Graphviz graph until one of these happens:

- the chain reaches "Philosophy";
- a page has no valid link;
- it loops;
- it runs into a page an earlier chain already drew;
- it passes a step ceiling.

This project models two parts of the program in Dafny 4 and proves
properties about them:

- the decision logic of `WikiPage.py`: the first-link filter, the
  parenthesis test, name and URL normalisation, and response
  classification;
- the drawing loop of `main.py`: one chain, a batch of start pages, a batch
  of searched names, and the name of the output copy.

Modules, one per file:

- `Wrappers` — `Option`.
- `Text` — the Python `str` operations the source relies on:
  - `startswith`;
  - `in`;
  - `replace`;
  - `'+'.join` (the output copy's name) and `'_'.join` (class lists, WikiPage.py:97, 128);
  - `str` of a non-negative int.
  - It also has `split`, which the source does not call on this path. It is
    there only to state that the joined names in the output copy's name
    split back (`Text.SplitJoin`).
- `Brackets` — `is_substring_enclosed_in_brackets`.
  - Each of its three regular expressions (one, two and three nested
    levels of `(…)`) is given as a ghost predicate `Span(k, s, i, e)`.
  - A hand-written matcher `MatchAt` is proved sound and complete against
    that predicate.
  - `FindAll` scans like `re.findall`: leftmost match first, resuming
    after its end.
- `LinkFilter` — `is_href_valid` as an ordered cascade of rejection rules
  over a `Link` record, and the first-link scan of `get_first_link`.
  - The record holds what the filter reads of a parsed `<a>` tag:
    - the href;
    - the class list;
    - the parent tag;
    - the link and grandparent text;
    - the contents;
    - the classes and ids of the ancestors.
- `WikiPages` — name and URL conversions, `clean_url`, `name_to_show`, and
  the classification of a parse response.
  - It also holds the class `WikiPage` with its mutable fields and methods:
    - constructor;
    - `set_url`;
    - `fix_redirect`;
    - one round of `get_page_html`;
    - `get_first_link`;
    - `first_page_init`.
- `ChainWalk` — the function `WalkPath`, which states what
  `draw_page_path` computes, and the lemmas about it.
  - Its inputs are:
    - the start name;
    - the names drawn by earlier walks;
    - a first-link oracle from page name to href.
  - It returns the road of names, the hrefs followed and why the walk
    stopped.
- `Drawing` — the imperative part of `main.py`.
  - The graph is a class `Digraph` that records every `node` and `edge`
    call.
  - `pages_drawn` is a class `NameList` that the walk extends in place.
  - `DrawPagePath`, `DrawListOfPages` and `DrawListOfPageNames` are
    methods with loops, each proved against `WalkPath` and `BatchRoads`.
  - The name of the output copy is a function with lemmas about its
    layout.

Fetching is not modelled. These are parameters instead:

- the page's first link (`firstLink: string -> Option<string>`);
- the autocompletion of a searched name (`autocomplete`);
- the text of the parse response for a title (`respond`);
- for one round of `get_page_html`, the response text, its HTML body and
  the redirect href the parser finds.

### Quirks of the code the model follows

- **Step ceiling.** The docstring of `draw_page_path` says it draws "until reaching Philosophy or a loop" (main.py:67). The loop also stops once `count_pages > 100` (main.py:87), so 101 steps are possible and a road holds at most 102 names (`ChainWalk.RoadLength`).
- **Cycle detection.** The duplicate test runs at the top of the next round, on the road that already holds the repeat (main.py:87, 91). So:
  - a repeat is appended first, drawn as an edge, and its first link is fetched again;
  - if that page has no first link, the walk ends as a dead end rather than a cycle;
  - all entries but the last are distinct (`ChainWalk.RoadDistinctButLast`), and a road stopped by a cycle has one fewer distinct name than entries (`ChainWalk.CycleRoadCount`).
- **Extra stop reason.** Besides reaching the target, a dead end, the ceiling and a cycle, a walk also stops on a page drawn by an earlier walk (main.py:95-98). The docstring at main.py:67 names only "Philosophy" and a loop.
  - The test is on the page just left, after the next page was appended.
  - So a start page that was already drawn still takes one step (`ChainWalk.DrawnStartTakesOneStep`).
- **Redirects.** `fix_redirect` calls `get_page_html` again with no bound on the number of hops (WikiPage.py:259, 276). The model states one round (`WikiPages.WikiPage.GetPageHtml`); see "Left out".
- **Parenthesis test input.** The test receives `str(link)` and `str(link.parent.parent)` (WikiPage.py:114), that is, HTML serialisations, not the text content. The model takes both as plain strings.
- **Parenthesis test coverage.** `findall` resumes after the end of each match, and a depth-2 or depth-3 match can end inside a later bracketed aside. The text of that aside after its inner pair can then lie in no match, so a link there passes the bracket rule.
  - `Brackets.DepthTwoAsideMissed` shows it on `(x(a)b(c(d)e)`. The depth-2 match `(x(a)b(c(d)` ends inside the aside `(c(d)e)`. Its `c` and `d` are still in the depth-1 match `(c(d)`, but its `e` is in no match and is not reported enclosed.
  - So the converse of `Brackets.EnclosedSound` can fail. It is proved only for an innermost pair (`Brackets.InnermostEnclosed`) and for a string that is one bracketed span as a whole (`Brackets.WholeSpanEnclosed`). It also holds in other cases (the first span of a given depth in a string is always a match of that depth), which the model does not enumerate.
- **Copy name.** The copy's name shows at most the first three start pages (main.py:123), although the docstring example at main.py:114 lists four.

## Model

| member | source | states |
|---|---|---|
| `Brackets.Span` | WikiPage.py:64-68 | the strings pattern k matches: k nested levels of `(…)`, with no `)` between the brackets of a level (a definition; it has no contract of its own) |
| `Brackets.MatchAt` | WikiPage.py:64-68 | a match of pattern k starting at i is at least `()` long and ends within the string |
| `Brackets.MatchAtSound` | WikiPage.py:64-68 | whatever the matcher returns is a match of pattern k (one to three nested `(…)` with no `)` between the brackets of a level) |
| `Brackets.MatchAtComplete` | WikiPage.py:64-68 | every match of pattern k starting at i is the one the matcher returns |
| `Brackets.SpanEndUnique` | WikiPage.py:64-68 | each pattern has at most one match starting at a position, so the matcher's choice is the regex's |
| `Brackets.FindAll` | WikiPage.py:71-73 | `findall` returns at most one match per two characters scanned |
| `Brackets.FindAllNoOpen` | WikiPage.py:71-73 | `findall` returns nothing on a part of the string with no `(` |
| `Brackets.FindAllSound` | WikiPage.py:71-73 | every string `findall` returns is a match of the pattern lying in the scanned part |
| `Brackets.FindAllEmptyIff` | WikiPage.py:71-73 | `findall` returns nothing exactly when no position of the scanned part starts a match |
| `Brackets.IsSubstringEnclosedInBrackets` | WikiPage.py:54-78 | text is enclosed exactly when it occurs in one of the matches of the three patterns (a definition; its properties are the rows below) |
| `Brackets.EnclosedSound` | WikiPage.py:75-78 | text reported enclosed occurs inside a match of depth 1, 2 or 3 |
| `Brackets.EnclosedNeedsOpen` | WikiPage.py:75-78 | nothing is enclosed in a string that has no `(` |
| `Brackets.InnermostEnclosed` | WikiPage.py:71-78 | text inside any innermost `(…)` pair of the string is reported enclosed |
| `Brackets.WholeSpanEnclosed` | WikiPage.py:63-78 | when the whole string is bracketed one to three levels deep (as in `(a (b (c) d) e)`), all of its text is enclosed |
| `Brackets.OverlapDepthOne` | WikiPage.py:64-73 | on a string shaped like `(x(a)b(c(d)e)`, the depth-1 matches are `(x(a)` and `(c(d)` |
| `Brackets.OverlapDepthTwo` | WikiPage.py:64-73 | on that shape, the one depth-2 match is `(x(a)b(c(d)`, which ends inside the aside `(c(d)e)` |
| `Brackets.OverlapDepthThree` | WikiPage.py:64-73 | on that shape there is no depth-3 match |
| `Brackets.OverlapNotEnclosed` | WikiPage.py:71-78 | on that shape, `e` is not reported enclosed |
| `Brackets.DepthTwoAsideMissed` | WikiPage.py:64-78 | in `(x(a)b(c(d)e)`, the `e` lies in a depth-2 span `(c(d)e)` yet is not reported enclosed, so the converse of `EnclosedSound` can fail outside the cases `InnermostEnclosed` and `WholeSpanEnclosed` prove |
| `LinkFilter.IsHrefValid` | WikiPage.py:80-167 | the filter as the source's ordered cascade of rejection rules (a definition; its meaning is stated by the four rows below) |
| `LinkFilter.HrefRulesReject` | WikiPage.py:89-111 | a link is rejected whatever its classes and ancestors when its href does not start with `/wiki/`, contains `wikimedia` or `wiktionary`, a reserved namespace followed by `:`, a `#`, or ends with `.` and 3 or 4 ASCII letters |
| `LinkFilter.MarkupRulesReject` | WikiPage.py:94-125 | a link is rejected when its `_`-joined classes contain `external_text`, `mw-disambig` or `infobox-data`, it is bracket-enclosed in its grandparent, its parent is `small`, `sup` or `i`, or its contents are exactly `["or"]` |
| `LinkFilter.AncestorRulesReject` | WikiPage.py:127-145 | a link is rejected when some ancestor's `_`-joined classes contain one of the nine ignored classes, or some ancestor id is `coordinates` |
| `LinkFilter.ValidIffNoRuleFires` | WikiPage.py:89-167 | a link is valid if and only if none of the eleven rejection rules fires |
| `LinkFilter.BracketedLinkRejected` | WikiPage.py:113-115 | a link whose text lies inside an innermost `(…)` of its grandparent's text is rejected |
| `LinkFilter.BracketRuleNeedsSpan` | WikiPage.py:113-115 | a link rejected by the bracket rule lies inside a bracketed span, one to three levels deep, of its grandparent's text |
| `LinkFilter.FirstValidLink` | WikiPage.py:28-37 | the result is None exactly when no link is valid; otherwise it is the href of a valid link with every earlier link invalid |
| `WikiPages.NameToUrl` | WikiPage.py:213-215 | a name's article path (a definition; see the next row and `WikiPages.NameUrlRoundTrip`) |
| `WikiPages.NameToUrlIsArticlePath` | WikiPage.py:213-215 | a name's article path starts with `/wiki/` and holds no space |
| `WikiPages.UrlToName` | WikiPage.py:217-223 | the name read from a URL (a definition; see `WikiPages.UrlToNameShorter` and `WikiPages.NameUrlRoundTrip`) |
| `WikiPages.FullUrlToUrl` | WikiPage.py:225-228 | a URL with the site address stripped (a definition; see `WikiPages.UrlToNameShorter` and `WikiPages.FullUrlRoundTrip`) |
| `WikiPages.UrlToNameShorter` | WikiPage.py:217-228 | neither stripping the site address nor reading the name from a URL lengthens it |
| `WikiPages.UrlToFullUrl` | WikiPage.py:230-233 | prefixing the site address (a definition; its round trip is `WikiPages.FullUrlRoundTrip`) |
| `WikiPages.Unquote` | WikiPage.py:221-222 | percent-decoding leaves a string without `%` unchanged |
| `WikiPages.UnquoteShorter` | WikiPage.py:221-222 | percent-decoding never lengthens a string |
| `WikiPages.NameToShow` | WikiPage.py:18 | the label shown on the graph never contains `:` |
| `Text.StartsWith` | WikiPage.py:91 | `str.startswith`: the string begins with the prefix (a definition) |
| `Text.Contains` | WikiPage.py:102 | the `in` operator on strings: some position starts an occurrence (a definition; see the next two rows) |
| `Text.ContainsAt` | WikiPage.py:102 | an occurrence at any position makes `sub in s` true |
| `Text.ContainsWitness` | WikiPage.py:102 | when `sub in s`, some position of `s` starts an occurrence |
| `Text.ContainsAny` | WikiPage.py:242 | `any(w in s for w in words)`: some word occurs in the string (a definition) |
| `Text.ReplaceAll` | WikiPage.py:220 | `str.replace`, left to right without overlaps (a definition; see the next rows) |
| `Text.ReplaceLength` | WikiPage.py:220 | `str.replace` with a replacement no longer than the pattern never lengthens the string, and with one no shorter never shortens it |
| `Text.ReplaceAbsent` | WikiPage.py:220 | replacing a pattern that does not occur changes nothing |
| `Text.Join` | main.py:123 | a `join` of at least one part starts with the first part |
| `Text.ReplaceRemovesChar` | WikiPage.py:18 | replacing a character by a string that lacks it removes every occurrence |
| `WikiPages.CleanUrl` | WikiPage.py:264-266 | the cleaned URL holds no `#` and is no longer than the input |
| `WikiPages.CleanUrlWithoutFragment` | WikiPage.py:264-266 | a URL without `#` is left unchanged |
| `WikiPages.CleanUrlIdempotent` | WikiPage.py:264-266 | cleaning twice is cleaning once |
| `WikiPages.CleanUrlSingleLine` | WikiPage.py:264-266 | on one line the result is the prefix of the URL up to its first `#` |
| `WikiPages.FullUrlRoundTrip` | WikiPage.py:225-233 | prefixing the site address and stripping it gives back a path that does not contain it |
| `WikiPages.FullUrlOfNameUrl` | WikiPage.py:213-228 | stripping the site address from a name's article path changes nothing when the name does not contain the address |
| `WikiPages.WikiPathOfNameUrl` | WikiPage.py:213-220 | dropping `/wiki/` from a name's article path leaves the name with spaces turned into `_` |
| `WikiPages.NameUrlRoundTrip` | WikiPage.py:213-223 | `__url_to_name(__name_to_url(n)) == n` for every name without `_` or `%` that contains neither `/wiki/` nor the site address |
| `WikiPages.IsPageOk` | WikiPage.py:237-244 | a start page is accepted when its response holds none of the three bad messages (a definition; see `WikiPages.PageOkIff`) |
| `WikiPages.PageOkIff` | WikiPage.py:237-244 | a start page is refused exactly when its response contains one of the three bad messages |
| `WikiPages.ClassifyResponse` | WikiPage.py:274-282 | a response is a redirect exactly when it contains `Redirect to:`; it is a missing title exactly when it does not and contains `missingtitle`; otherwise it is an article |
| `WikiPages.WikiPage.constructor` | WikiPage.py:12-21 | a new page has the cleaned full URL, the name decoded from the URL, the label of that name, and no HTML or next URL |
| `WikiPages.WikiPage.SetUrl` | WikiPage.py:261-262 | the page's URL becomes the site address plus the cleaned path, whose path part holds no `#` |
| `WikiPages.WikiPage.FixRedirect` | WikiPage.py:246-258 | the page takes the name and the cleaned full URL of the redirect target |
| `WikiPages.WikiPage.GetPageHtml` | WikiPage.py:268-282 | on a redirect response the page moves to the target, on a missing title nothing is found, otherwise the body is returned; name and URL change only on a redirect |
| `WikiPages.WikiPage.GetFirstLink` | WikiPage.py:23-37 | the page keeps the fetched HTML; with no HTML the outcome is the parser's `TypeError`, otherwise the scan returns the first valid link's href, as `FirstValidLink` |
| `WikiPages.WikiPage.FirstPageInit` | WikiPage.py:204-211 | no page exactly when the response is a bad one; otherwise a new page whose name, label and URL are those of the name's article path |
| `ChainWalk.WalkFrom` | main.py:84-103 | the rest of a walk only lengthens the road, up to 102 entries, with one href per step |
| `ChainWalk.WalkFromStops` | main.py:84-88 | a round that meets the target, no link, the ceiling or a repeat ends the walk with the road as it is |
| `ChainWalk.WalkFromSteps` | main.py:89-98 | a round that goes on appends the linked page's name, and ends the walk when the page just left was drawn earlier |
| `ChainWalk.WalkPath` | main.py:80-105 | the road of a walk starts at the start page and has 1 to 102 entries |
| `ChainWalk.RoadFollowsFirstLinks` | main.py:80-91 | each road entry after the first is the name of the first link of the entry before it |
| `ChainWalk.RoadLength` | main.py:81-94 | a road has 1 to 102 entries, exactly 102 when the ceiling stopped it |
| `ChainWalk.RoadDistinctButLast` | main.py:87-91 | all road entries but the last are pairwise distinct; a walk stopped by a cycle ends on a name that occurs earlier |
| `ChainWalk.HasDuplicate` | main.py:87 | some name occurs twice in the road (a definition of the loop's test `len(road) != len(set(road))`; see the next rows) |
| `ChainWalk.DuplicateIffSetShorter` | main.py:87 | for every sequence, it has a repeat exactly when its set is smaller than it, so `HasDuplicate` is the source's set-length test |
| `ChainWalk.SetSizeAtMost` | main.py:87 | `len(set(road)) <= len(road)` for every road |
| `ChainWalk.DuplicateCount` | main.py:87 | a road with a repeat has fewer distinct names than entries |
| `ChainWalk.DistinctCount` | main.py:87 | a sequence without repeats has as many distinct names as entries (`len(set(road)) == len(road)`) |
| `ChainWalk.CycleRoadCount` | main.py:87-91 | a road stopped by a cycle has exactly one fewer distinct name than entries |
| `ChainWalk.StopReasons` | main.py:84-98 | the walk reaches the target exactly when it ends on "Philosophy" (and not after a drawn page), ends in a dead end exactly when its last page has no link, no page it left is "Philosophy", and a stop on a drawn page means the next-to-last entry was drawn before |
| `ChainWalk.EarlierPagesNotDrawn` | main.py:95-98 | no page the walk stepped away from was drawn before, except the one it stopped after |
| `ChainWalk.WalkFromTarget` | main.py:84 | a walk from "Philosophy" is just `[Philosophy]`, reached at once |
| `ChainWalk.DrawnStartTakesOneStep` | main.py:95-98 | a start page drawn earlier that has a first link gives a road of exactly two entries |
| `Drawing.Digraph.Node` | main.py:83 | a `node` call is recorded after the earlier ones; edges are unchanged |
| `Drawing.Digraph.Edge` | main.py:92 | an `edge` call is recorded after the earlier ones; nodes are unchanged |
| `Drawing.NameList.constructor` | main.py:152 | the drawn-names list starts empty |
| `Drawing.NameList.Extend` | main.py:104 | `pages_drawn += road` appends exactly the road and changes nothing before it |
| `Drawing.EdgeCallsSnoc` | main.py:91-92 | each appended page adds one edge, from the label of the page left to the label of the new page |
| `Drawing.EdgeCallsAt` | main.py:92 | a walk draws one edge per step, edge i joins the labels of road entries i and i + 1, and consecutive edges form a chain |
| `Drawing.DrawnNodesFollowRoad` | main.py:83-103 | after the start page's node, the walk draws one uncoloured node per page it reached, with that page's label and cleaned address, except the page reached from a drawn page |
| `Drawing.DrawPagePath` | main.py:65-105 | the returned road is `WalkPath` of the page's name with the names drawn before; `pages_drawn` is extended by exactly the road; the edges are `EdgeCalls` of the road; the nodes are the coloured start node followed by the nodes of the hrefs followed |
| `Drawing.BatchRoads` | main.py:159-162 | a batch draws one road per start page |
| `Drawing.BatchRoadsSnoc` | main.py:159-162 | one more start page appends its walk, taken with every name the batch drew so far as the drawn names |
| `Drawing.BatchRoadsStart` | main.py:159-162 | each road of a batch begins with its own start page |
| `Drawing.BatchLength` | main.py:159-172 | a batch draws at least one name per start page |
| `Drawing.BatchWalksStopAtDrawn` | main.py:152-162 | walk i of a batch is the walk with the names of walks 0..i-1 as drawn names, and none of the pages it steps away from was drawn by an earlier walk |
| `Drawing.DrawListOfPages` | main.py:136-172 | the start names are returned in input order, the total is the number of names the batch drew, and the number of edges grows by that total minus one per page |
| `Drawing.InitName` | main.py:48-62 | a start name is found exactly when autocompletion gives a title whose response is a good one |
| `Drawing.InitializedNames` | main.py:193-199 | no more start names are found than names searched |
| `Drawing.InitializedNamesFound` | main.py:193-199 | every start name found comes from one of the searched names |
| `Drawing.InitializedNamesConcat` | main.py:193-199 | searching two lists one after the other finds the start names of each, in order |
| `Drawing.InitFirstPageAutomatically` | main.py:48-62 | no page exactly when no start name is found; otherwise a new page named by it |
| `Drawing.DrawListOfPageNames` | main.py:175-201 | the start names drawn are exactly those found, in search order; the total and the edge count are as for that batch |
| `Text.Decimal` | main.py:123 | `str(n)` is a non-empty string of decimal digits |
| `Text.ParseDecimalOfDecimal` | main.py:123 | reading `str(n)` back as a decimal number gives n |
| `Text.SplitJoin` | main.py:123 | for at least one part, none of which contains `+`, splitting the `'+'.join` on `+` gives back the parts (with no parts the split gives `[""]`) |
| `Drawing.CopyFileName` | main.py:123 | the copy's name (a definition; its layout is stated by the three rows below) |
| `Drawing.CopyFileNameCount` | main.py:123 | the copy's name starts with the number of start pages in decimal, then a space |
| `Drawing.CopyFileNameFormat` | main.py:123 | the copy's name ends with a dot and the file format |
| `Drawing.CopyFileNamePages` | main.py:123 | for at least one start page, none of whose names contains `+`, the part of the copy's name between the count and the format splits on `+` into the first three start pages (fewer if there are fewer) |
| `Drawing.ShownPagesSplit` | main.py:123 | for at least one start page, none of whose names contains `+`, the first three start names joined by `+` split back into themselves |

## Left out

- Network access:
  - `requests.get` in `get_page_html`, `__is_page_ok` and `get_random_page`;
  - `wikipedia.search` in `autocomplete_search` and `choose_first_page_manually`.
  These become parameters: response texts, the first-link oracle, the autocompletion oracle. `get_random_page` and `autocomplete_search` are therefore not modelled as operations.
- BeautifulSoup parsing. The links a page holds, with their attributes, parents and ancestors, are given as a sequence of `Link` records. The DOM walk of `fix_redirect` (WikiPage.py:247-255) is replaced by the href it finds.
- `WikiPages.WikiPage.GetPageHtml`: models one round. The source then calls `get_page_html` again through `fix_redirect` (WikiPage.py:259), with no bound on the number of redirects; that re-fetch is not modelled. The response is taken to be one of three kinds: a redirect, a missing title, or a parse result that has a body. On any other response (an API error such as `invalidtitle`, or a body that is not JSON), `GET_request.json()["parse"]["text"]["*"]` (WikiPage.py:282) raises `KeyError` or `ValueError`; the model returns `Fetched` instead. `fix_redirect` raises `AttributeError` (WikiPage.py:251, 254) when `Redirect to:` appears without the `redirectMsg` div or its `<p>`; the model assumes that markup is present. No handler catches these errors, so in the source each aborts `draw_page_path` and the whole batch (main.py:85, 161).
- `ChainWalk.WalkFrom`: the first-link oracle is keyed by the name a page had when it was built, so a redirect that renames the current page inside `get_first_link` is not modelled. In the source that rename has two effects, and the model has neither:
  - the drawn-page test (main.py:95) looks up the new name, not the name on the road;
  - for a start page, `first_pages_drawn.append(page.name)` (main.py:162) records the new name, since `draw_page_path` rebinds only its local `page`.
  The `while` test (main.py:84) is not affected: the page it tests has not fetched anything yet.
- `Drawing.DrawListOfPages`: records each start page's name as it was before its walk (`firstPagesDrawn[i] == pages[i].name`); the source records it after the walk, which differs when the start page was a redirect (main.py:162).
- `WikiPages.WikiPage.GetFirstLink`, and the first-link oracle of `ChainWalk.WalkFrom` and `Drawing.DrawPagePath`: in the source a page whose HTML is missing (a missing title, WikiPage.py:278-280) makes `BeautifulSoup(None)` raise `TypeError` in `get_first_link` (WikiPage.py:24-26). No handler catches it, so it aborts `draw_page_path` and the whole batch (main.py:85, 161). `GetFirstLink` returns that outcome as `ParserTypeError`. The walk's oracle is `Option`-valued and cannot express an abort, so a walk that reaches a missing page is not modelled: the oracle's `None` stands only for a page without a valid link. The fetch that starts `get_first_link` (WikiPage.py:24) is a parameter here: `GetFirstLink` takes the HTML it produced. On a redirect that fetch also renames the page through `fix_redirect` (WikiPage.py:257-258, 275-276). That rename is stated by `WikiPages.WikiPage.GetPageHtml` and `WikiPages.WikiPage.FixRedirect`, outside this member, so the frame of `GetFirstLink` keeps `name` and `url` as they are.
- `WikiPages.Unquote`: decodes only `%XX` escapes of ASCII characters, because UTF-8 decoding is not modelled. The escapes of a multi-byte UTF-8 character are kept as they are. Python's `unquote` (with `errors='replace'`) also turns an escape of 0x80 or above that is not part of valid UTF-8 into U+FFFD; the model keeps that escape as it is.
- `LinkFilter.IsHrefValid`: the regex `$` of the file-extension rule is read as the end of the string; Python's `$` also matches before a final newline.
- Python's `re` beyond the three fixed bracket patterns.
- The `set` the three match lists are put into (WikiPage.py:75) is a concatenation here. Only membership is used, so the result is the same.
- `debug` printing. The flag is taken to be off, as at every call site shown; with it on, a page with no valid link makes `WikiPage.__url_to_full_url(None)` raise `TypeError` (WikiPage.py:35-36). Also the "Working on" and progress printing of `draw_list_of_pages` with its float percentages, `index_in_names`, and the unused `not_found_names` list and "Didn't find" message of `draw_list_of_page_names`.
- Graphviz drawing itself: only the `node` and `edge` calls, with their label, URL and colour arguments, are recorded. Rendering, `view()` and formats are not modelled.
- `create_corresponding_copy` apart from its file-name expression. The working directory, directory creation and `shutil.copy` are file-system I/O.
- `create_label_for_output_file` (date and time formatting), timing, and the interactive `input` loop of `choose_first_page_manually`.
- The command-line scripts (`draw_pages.py`, `draw_random.py` and the script for a hand-picked list of pages), which delegate to a helper module; that module is not part of this model. The random-words source is left out as well.
- `Drawing.DrawListOfPages` and `Drawing.DrawListOfPageNames`: they state the number of edges the batch draws, not the edges themselves. The edges and nodes of each walk are stated by `Drawing.DrawPagePath`.
- `Drawing.CopyFileNamePages`: states the split-back property only when no start name contains `+`. With a `+` in a name the file name cannot be split back, and the source does not try.
