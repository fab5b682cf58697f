# A verified model of the arXiv digest's query core

The application searches arXiv and keeps a digest of the papers it finds.
Besides its GUI and database, it has three small cores. This project models them in Dafny and proves what they guarantee.

- **The boolean query parser** (`boolean_parser.py`).
  - `parse_boolean_expression` scans a query such as `(a | b) & -"c d"` once, left to right, and builds a tree of `Node`s linked by `child`, `next` and `parent`. `process_tree` renders such a tree back to text.
  - The model keeps the nodes in an arena: the class `BooleanTree.Arena` has one method per `Node` mutator.
  - The scan is written twice:
    - as the source's loop over the arena (`BooleanParser.Parse`);
    - as a function, one loop pass at a time (`BooleanParser.Step`, `ParseFrom`, `ParseSpec`).
  - The method is proved to compute the function. The parser's behaviour is then proved about the function: the loop invariant, each of the five cases, the error cases, and the shape and rendering of every tree it returns.
- **The arXiv query layer** (`arxiv_query.py`).
  - Building the search expression and the paged URL.
  - Splitting an entry's `<id>` into identifier and version.
  - Reading the user's date bounds and Atom timestamps.
  - The paging loop of `queryArXiv` and its published-date filter. The filter is a `Feed` class whose entries are removed in place.
- **Keyword extraction** (`gui_utils.py`, `extract_keywords`). It finds the words of an abstract, counts them in insertion order, stable-sorts them by falling count and takes the first `top_n`.

## Behaviour of the code that the model keeps

The model does what the code does in each of these cases, including where the result may be surprising.

- **A text token becomes `current`** (line 211). The next token therefore nests under it, although the comment at line 202 speaks only of a delimiter node as `current`.
  - `a & b` gives root `a`, with conjunction AND and `b` as its child, not two siblings (`BooleanParserRules.ExampleAndMakesChild`).
  - That tree renders as `ab AND ` (`BooleanRender.ExampleAndRenders`), not `a AND b`.
- **NOT is tested before AND and OR, by literal prefix** (lines 161-185).
  - NOT wins even when AND is a longer token that starts with NOT.
  - With NOT `-` and AND `-&`, the input `-&b` is NOT followed by the text `&b` (`BooleanParserRules.ExampleNotBeforeAnd`).
- **Unclosed delimiters are accepted** (lines 224-228). Nothing checks the stack once the input ends, so no error is raised. `(a` parses to a `(` node with child `a` (`BooleanParserRules.ExampleUnclosed`).
- **The opening test comes before the closing test** (lines 109 and 144). A `"` therefore always opens a node and never closes one.
  - `"a"` parses to two nested quote nodes (`BooleanParserRules.ExampleQuoteNeverCloses`).
  - That tree renders as `"a"""` (`BooleanRender.ExampleQuoteRenders`).
- **Rendering and parsing again is not stable** (lines 191-211 and 249-271). Text nodes nest, and the data of a node and of its child are rendered with nothing between them. The rendered operator name is text to the parser.
  - `a & b` renders as `ab AND `, which parses to root `ab` with the text `AND` as its child (`BooleanRender.ExampleSpacedOperatorIsText`).
  - That tree renders as `abAND`, which parses to a single node (`BooleanRender.ExampleReparseUnstable`).
- **An empty operator token loops forever.** One that matches advances `i` by zero, so the loop never ends. The model reports `Diverges(i)` instead (`BooleanParserRules.ExampleEmptyToken`). With non-empty tokens this never happens (`BooleanParserRules.NeverDiverges`).

## Model

| member | source | states |
|---|---|---|
| BooleanTree.WithChild | boolean_parser.py:50-52 | `set_child` sets the owner's child and the child's parent to the owner; every other node and field is unchanged |
| BooleanTree.WithNext | boolean_parser.py:54-56 | `set_next` sets `next` and gives the sibling the owner's parent (not the owner); nothing else changes |
| BooleanTree.WithConjunctionKeepsLinks | boolean_parser.py:167-183 | setting a conjunction keeps the arena well formed and the parent links consistent |
| BooleanTree.AttachUnder | boolean_parser.py:117-126 | a new node becomes `current`'s child when it has none, and otherwise goes after the last node of its child row; stated by `AttachUnderExtendsRow` |
| BooleanTree.Arena.constructor | boolean_parser.py:86-96 | the scan starts with no nodes |
| BooleanTree.Arena.NewNode | boolean_parser.py:36-44 | `Node(data, delimiter)` appends a node with no links and conjunction MISSING, at the next index |
| BooleanTree.Arena.SetChild | boolean_parser.py:50-52 | the arena afterwards is `WithChild` of the arena before |
| BooleanTree.Arena.SetNext | boolean_parser.py:54-56 | the arena afterwards is `WithNext` of the arena before |
| BooleanTree.Arena.SetConjunction | boolean_parser.py:167-183 | the arena afterwards is `WithConjunction` of the arena before |
| BooleanTree.Arena.LastSibling | boolean_parser.py:122-125 | the walk along `next` ends at the last node of the row, the one without a `next` |
| BooleanTree.AttachUnderExtendsRow | boolean_parser.py:117-126 | attaching a new node under `current` (as its child, or after its last child) appends it to `current`'s child row, makes `current` its parent and keeps all links consistent |
| BooleanParser.Parse | boolean_parser.py:59-228 | the loop over the mutable arena returns exactly the specified result `ParseSpec` |
| BooleanParser.ParseSpec | boolean_parser.py:59-228 | `parse_boolean_expression` as a function of the input and the configuration; `Parse` computes it, and `BlankInput`, `ParseResult`, `SingleOperand` and `ParseFromSound` state what it returns |
| BooleanParser.ParseFrom | boolean_parser.py:98-228 | the loop from index `i` with the scanner's variables `s`: a syntax error, or the tree `Finish` makes at the end of the input; `ParseFromSound` and `ParseFromCoherent` state its results |
| BooleanParser.Step | boolean_parser.py:98-222 | one pass of the loop body, its five cases in the source's order; `StepFails`, `OpenWins`, `CloseRule`, `OperatorRule` and `TextRule` state each case and `StepCoherent` the invariant it keeps |
| BooleanParser.TextRun | boolean_parser.py:191-193 | the match of `[^\s()"]+`: every character it covers is a text character and the one after it, if any, is not |
| BooleanParser.MatchOperator | boolean_parser.py:161-185 | NOT, then AND, then OR, by literal prefix; stated by `BooleanParserRules.OperatorRule` and `ExampleNotBeforeAnd` |
| BooleanParser.ClosesTop | boolean_parser.py:144 | `stack and ch == delimiters.get(stack[-1].delimiter, None)`; stated by `BooleanParserRules.CloseRule` |
| BooleanParser.Place | boolean_parser.py:110-134 | a new node gets the next index and becomes the root of an empty tree; otherwise the root stays; its placement is stated by `BooleanParserRules.PlaceRule` |
| BooleanParser.Link | boolean_parser.py:116-134 | a new node goes under `current`, or after the last node of the root's row when nothing is current; stated by `BooleanParserRules.PlaceRule` |
| BooleanParser.Open | boolean_parser.py:109-139 | a left delimiter builds a node with that delimiter, places it, pushes it and makes it current; stated by `BooleanParserRules.OpenRule` |
| BooleanParser.Close | boolean_parser.py:144-155 | the matching right delimiter pops the stack and makes the new top current, or the closed node when the stack is empty; stated by `BooleanParserRules.CloseRule` |
| BooleanParser.SetConjunction | boolean_parser.py:161-185 | an operator sets the conjunction of `current`, first creating a bare node, made the root when there is none, if nothing is current; stated by `BooleanParserRules.OperatorRule` |
| BooleanParser.AddText | boolean_parser.py:191-219 | a text token becomes a data node that is placed and made current; stated by `BooleanParserRules.AddTextRule` |
| BooleanParser.PlaceNode | boolean_parser.py:110-134 | the node is built at the next index of the arena, and the arena and root afterwards are those `Place` gives |
| BooleanParser.OpenDelimiter | boolean_parser.py:109-139 | the arena and the scanner's variables afterwards are `Open` of those before |
| BooleanParser.MarkConjunction | boolean_parser.py:161-185 | the arena and the scanner's variables afterwards are `SetConjunction` of those before |
| BooleanParser.AddTextNode | boolean_parser.py:193-219 | the arena and the scanner's variables afterwards are `AddText` of those before |
| BooleanParser.CloseDelimiter | boolean_parser.py:144-155 | the stack loses its top, and `current` becomes the new top, or the popped node when the stack is now empty |
| BooleanParser.ScanOne | boolean_parser.py:98-222 | one pass of the loop body ends as `Step` says: a syntax error, or the new index, nodes, root, current node and stack |
| BooleanParser.ScanWord | boolean_parser.py:157-222 | the operator and text cases of the loop body end as `Step` says |
| BooleanParser.Finish | boolean_parser.py:224-228 | the end of the scan gives a well-formed tree, and adds `Node(data="")` when nothing was built |
| BooleanParser.ParseFromSound | boolean_parser.py:98-222 | a successful parse gives a well-formed tree; a `SyntaxError` names the character at its position, always `(`, `)` or `"` |
| BooleanParserProperties.StepCoherent | boolean_parser.py:98-222 | every pass of the loop body keeps the loop invariant |
| BooleanParserProperties.RunCoherent | boolean_parser.py:96-222 | the invariant holds in every state the loop reaches: `root` is unset exactly when `current` is, and every stack entry has a delimiter the table knows, so the branches at lines 127-134 and 212-218 never run |
| BooleanParserProperties.RunAgrees | boolean_parser.py:98-222 | the states visited by the loop are the states of the parse |
| BooleanParserProperties.ParseFromCoherent | boolean_parser.py:98-228 | from an invariant state the parse returns the blank tree or a tree that fits the configuration |
| BooleanParserRules.PlaceRule | boolean_parser.py:112-134 | a new node becomes the root when there is none; otherwise it goes at the end of `current`'s child row, with `current` as its parent; the payloads stay as they were |
| BooleanParserRules.OpenRule | boolean_parser.py:109-139 | an opening delimiter adds one delimiter node, pushes it and makes it current |
| BooleanParserRules.OpenWins | boolean_parser.py:109-144 | a character that is an opening key always opens, even when it would close the top delimiter |
| BooleanParserRules.CloseRule | boolean_parser.py:144-155 | a character is consumed as a close exactly when the stack is non-empty and it equals `delimiters[top.delimiter]`; then the stack is popped and current becomes the new top, or the closed node when the stack is empty |
| BooleanParserRules.OperatorRule | boolean_parser.py:161-185 | the first of NOT, AND, OR that prefixes the rest sets current's conjunction and advances by its length; without a current node a placeholder root is made; an empty token makes no progress |
| BooleanParserRules.TextRule | boolean_parser.py:191-219 | a text token is the longest run of characters other than white space, `(`, `)` and `"`; it is added under current, becomes current, and the scan moves past it |
| BooleanParserRules.AddTextRule | boolean_parser.py:194-218 | a text node is added with its data and becomes current; the stack is unchanged |
| BooleanParserRules.StepFails | boolean_parser.py:220-222 | a pass fails with `UnexpectedCharacter(ch, i)` exactly when no case applies, and with `Diverges(i)` exactly when an empty operator token matches |
| BooleanParserRules.NeverDiverges | boolean_parser.py:161-185 | with three non-empty operator tokens every error is a `SyntaxError` |
| BooleanParserRules.SkipBlank | boolean_parser.py:101-104 | leading white space changes nothing |
| BooleanParserRules.FirstTokenBuilds | boolean_parser.py:109-199 | the first token the scan accepts always creates a root |
| BooleanParserRules.ParseResult | boolean_parser.py:224-228 | every parsed tree is the blank tree or has root 0, consistent links and only nodes that fit the configuration |
| BooleanParserRules.BlankInput | boolean_parser.py:224-226 | the parse returns the single blank node exactly when the input is empty or all white space |
| BooleanParserRules.SingleOperand | boolean_parser.py:191-228 | a single operand, a run of text characters not starting with a default operator token, parses to one data node holding the whole input, which is the root |
| BooleanParserRules.ExampleAndMakesChild | boolean_parser.py:196-211 | `a & b` gives root `a`, conjunction AND, with `b` as its child |
| BooleanParserRules.ExampleStrayClose | boolean_parser.py:144-222 | a stray `)` raises a syntax error at position 0 |
| BooleanParserRules.ExampleUnconfiguredOpen | boolean_parser.py:109-222 | `(` when it is not a configured delimiter raises a syntax error at position 0 |
| BooleanParserRules.ExampleEmptyToken | boolean_parser.py:161-169 | an empty NOT token matches and makes no progress |
| BooleanParserRules.ExampleUnclosed | boolean_parser.py:224-228 | `(a` is accepted with the delimiter left open |
| BooleanParserRules.ExampleNotBeforeAnd | boolean_parser.py:161-177 | NOT is tested before AND even when AND is the longer token |
| BooleanParserRules.ExampleQuoteNeverCloses | boolean_parser.py:109-155 | the second `"` of `"a"` opens a node instead of closing one |
| BooleanRender.ExampleSpacedOperatorIsText | boolean_parser.py:161-211 | `ab AND ` with the default tokens gives root `ab` with the text `AND` as its child: the word AND is not the `&` token |
| BooleanRender.Reach | boolean_parser.py:240-273 | the nodes the walk visits lie in the arena |
| BooleanRender.ProcessTree | boolean_parser.py:231-273 | `process_tree`: the delimiter, the data when it is a non-blank string, the child, the closing delimiter, the operator name and the sibling, in that order; `RenderDefinedIff` states when it raises `KeyError` and `RenderBalanced` what it gives under the default table |
| BooleanRender.Render | boolean_parser.py:231-273 | the rendering of a parsed tree from its root; `ParsedTreesRender` and `ParsedRenderBalanced` state it for every parsed tree |
| BooleanRender.RenderDefinedIff | boolean_parser.py:259-261 | `process_tree` raises `KeyError` exactly when it visits a node whose delimiter is not a key of the table |
| BooleanRender.ParsedTreesRender | boolean_parser.py:231-273 | every parsed tree renders with the parser's own table |
| BooleanRender.RenderBalanced | boolean_parser.py:240-273 | a tree of plain nodes under the default table renders with as many `(` as `)` and an even number of `"` |
| BooleanRender.ParsedRenderBalanced | boolean_parser.py:231-273 | the rendering of any tree parsed with the defaults has balanced parentheses and an even number of quotes |
| BooleanRender.ExampleBlankRendersEmpty | boolean_parser.py:249-252 | the blank tree renders as the empty string, because blank data is not printed |
| BooleanRender.ExampleAndRenders | boolean_parser.py:263-271 | the tree of `a & b` renders as `ab AND ` |
| BooleanRender.ExampleQuoteRenders | boolean_parser.py:245-261 | the tree of `"a"` renders as `"a"""` |
| BooleanRender.ExampleSpacedRenders | boolean_parser.py:249-271 | the tree of `ab AND ` renders as `abAND`, with nothing between a node's data and its child's |
| BooleanRender.ExampleJoinedWord | boolean_parser.py:191-228 | `abAND` parses to a single data node |
| BooleanRender.ExampleReparseUnstable | boolean_parser.py:191-271 | parsing a rendering again is not stable: `a & b` renders as `ab AND `, that parses to a different tree rendered `abAND`, and that parses to one node |
| Text.Strip | arxiv_query.py:275 | `strip` removes exactly the leading and trailing white space |
| Text.Join | arxiv_query.py:79 | `sep.join(parts)`; `SplitJoin` and `ArxivQuery.CombinedLayout` state where each piece and separator lands |
| Text.Split | arxiv_query.py:186 | `split` gives one piece when the separator is absent and at least two otherwise, and the pieces joined with the separator give the string back |
| Text.SplitPiecesFree | arxiv_query.py:186 | no piece holds the separator |
| Text.SplitJoin | arxiv_query.py:186 | a string glued from separator-free pieces splits back into them |
| Text.JoinLength | arxiv_query.py:79 | the join ends right after its last piece |
| Text.BeforeFirst | arxiv_query.py:186-187 | the text before the first occurrence of the character: it holds none, it is all of the string when there is none, and otherwise the string is it, the character and the rest |
| Text.SplitHead | arxiv_query.py:186-187 | the first piece of `split` is the text before the first separator |
| ArxivQuery.SearchExpressionSplits | arxiv_query.py:45-57 | the expression is the field's prefix (`au:`, `ti:`, `abs:`, `all:`, and `all:` for an unknown field) followed by the keyword, split back at the first `:` |
| ArxivQuery.FieldPrefix | arxiv_query.py:50-56 | `prefix_map.get(field, "all:")`; `SearchExpressionSplits` states that it is one of the four prefixes and `all:` for an unknown field |
| ArxivQuery.SearchExpression | arxiv_query.py:45-57 | `build_arxiv_search_expression`; `SearchExpressionSplits` states that it is the prefix followed by the keyword |
| ArxivQuery.Expressions | arxiv_query.py:75-76 | one expression per part, in input order |
| ArxivQuery.Terms | arxiv_query.py:74-78 | the parts' expressions, or the single `all:*` when there are none; stated by `CombinedLayout` |
| ArxivQuery.CombineParts | arxiv_query.py:227-232 | the loop computes the combined expression |
| ArxivQuery.CombinedExpression | arxiv_query.py:74-79 | the parts' expressions, or `all:*` when there are none, joined with `+AND+`; stated by `CombinedLayout` |
| ArxivQuery.CombinedLayout | arxiv_query.py:74-79 | no parts give exactly `all:*`; otherwise each part's expression sits at its offset, with exactly `+AND+` between neighbours, stated with `CombinedEnds`, which shows that the last expression ends the string |
| ArxivQuery.CombinedEnds | arxiv_query.py:74-79 | the last part's expression ends the combined expression, so nothing follows it |
| ArxivQuery.DecimalString | arxiv_query.py:236-238 | a number is written as decimal digits without a leading zero |
| ArxivQuery.DecimalRoundTrip | arxiv_query.py:236-238 | the start index and page size written into the URL read back as the same numbers |
| ArxivQuery.FirstPageUrl | arxiv_query.py:71-88 | `getArXivQuery`'s URL for one page; `PagedUrlExtendsFirstPage` relates it to the paged URL and `DecimalRoundTrip` states that the page size reads back |
| ArxivQuery.PagedUrl | arxiv_query.py:222-241 | `_build_paged_url`; `PagedUrlExtendsFirstPage` and `DecimalRoundTrip` state its layout and numbers |
| ArxivQuery.PagedUrlExtendsFirstPage | arxiv_query.py:236-240 | the paged URL of the first page is `getArXivQuery`'s one-page URL (line 88) followed by `&sortBy=submittedDate&sortOrder=descending` |
| ArxivQuery.SplitIdParts | arxiv_query.py:184-189 | the identifier is the last segment up to its first `v`; a version is read exactly when the segment has a `v`, and it is the text after that `v` up to the next `v` or the end; neither part holds a `/` or a `v`; without a `v` the identifier is the whole segment |
| ArxivQuery.LastSegment | arxiv_query.py:186 | `url.split('/')[-1]`; `SplitIdParts` states that it holds no `/` and `LastSegmentAfter` that it is the text after the last `/` |
| ArxivQuery.SplitId | arxiv_query.py:184-189 | the identifier and version of an `<id>`; stated by `SplitIdParts`, `SplitIdRoundTrip` and `SplitIdExtraVersions` |
| ArxivQuery.LastSegmentAfter | arxiv_query.py:186 | the last segment of a URL is the text after its last `/` |
| ArxivQuery.SplitIdRoundTrip | arxiv_query.py:184-189 | `.../<id>v<version>` gives back the identifier and the version |
| ArxivQuery.SplitIdExtraVersions | arxiv_query.py:184-189 | with more `v`s after the version, as in `2301.0001v2v3`, the identifier and the text up to the second `v` are read |
| ArxivDates.BeforeOrder | arxiv_query.py:158 | the `datetime` comparison is a strict total order |
| ArxivDates.NormalizeUserDateLayout | arxiv_query.py:276-278 | an 8-digit date gains `-` at positions 4 and 7 and keeps its digits in order; any other string is unchanged |
| ArxivDates.NormalizeUserDate | arxiv_query.py:276-278 | the 8-digit rewriting; stated by `NormalizeUserDateLayout` |
| ArxivDates.ParseUserDate | arxiv_query.py:268-286 | an empty or missing string gives `None`; otherwise a bound exists exactly when `strptime` reads the stripped, rewritten string, and it is on the day `strptime` read; a start bound is at 00:00:00 and an end bound at 23:59:59 |
| ArxivDates.UserDateExample | arxiv_query.py:268-272 | the docstring's example: `20230101` gives 2023-01-01 00:00:00 as a start bound and 2023-01-01 23:59:59 as an end bound, once `strptime` reads `2023-01-01` as that day |
| ArxivDates.UserDatesCoverDay | arxiv_query.py:279-284 | both bounds come from the same string or neither does; the start bound is on the same day as the end bound; every clock time of that day lies between them |
| ArxivDates.EightDigitsAsDashed | arxiv_query.py:275-280 | `YYYYMMDD` is read as the same day as `YYYY-MM-DD` |
| ArxivDates.RemoveAll | arxiv_query.py:296 | `replace("Z", "")` leaves no `Z` and removes exactly as many characters as there were `Z`s |
| ArxivDates.RemoveAllConcat | arxiv_query.py:296 | `replace("Z", "")` works character by character: it distributes over concatenation, so the survivors keep their order |
| ArxivDates.RemoveAllOne | arxiv_query.py:296 | a single `Z` is removed and any other character kept |
| ArxivDates.ParseAtomDate | arxiv_query.py:289-303 | an empty or missing string gives `None`; the date-and-time format is tried first and wins when it parses |
| ArxivDates.AtomDateText | arxiv_query.py:296 | `strip().replace("Z", "")`; `AtomDateIgnoresZone` states that a trailing `Z` does not change it |
| ArxivDates.AtomDateIgnoresZone | arxiv_query.py:296-300 | a timestamp reads the same with or without its trailing `Z` |
| ArxivFeed.FirstTextAt | arxiv_query.py:152-156 | the text found is that of the first child with the tag |
| ArxivFeed.FirstTextAbsent | arxiv_query.py:152-156 | with no child of the tag the text stays `None` |
| ArxivFeed.FindPublished | arxiv_query.py:152-156 | the loop with `break` returns the text of the first `<published>` child, or `None` |
| ArxivFeed.PublishedText | arxiv_query.py:152-156 | the text of the first `<published>` child, or `None`; stated by `FirstTextAt`, `FirstTextAbsent` and `FindPublished` |
| ArxivFeed.PublishedDate | arxiv_query.py:152-157 | `_parse_atom_date` of the `<published>` text; `FilteredMembers` and `OutOfRange` state its role in the filter |
| ArxivFeed.StartBound | arxiv_query.py:148 | `sdt`: the start bound of a non-empty date string, `None` otherwise; `PrunedBounds` and `RangeInclusive` state its effect |
| ArxivFeed.EndBound | arxiv_query.py:149 | `edt`: the end bound of a non-empty date string, `None` otherwise; `PrunedBounds` and `RangeInclusive` state its effect |
| ArxivFeed.Keep | arxiv_query.py:157-158 | the complement of the removal test; `OutOfRange` states it and `FilteredMembers` unfolds it into bounds |
| ArxivFeed.Filtered | arxiv_query.py:151-159 | the entries that pass the test, in order; stated by `FilteredMembers`, `FilteredAppend` and `FilteredAllKept` |
| ArxivFeed.Pruned | arxiv_query.py:146-159 | the filtering block, run only when a date string is given; stated by `PrunedBounds` and `RangeInclusive` |
| ArxivFeed.FilteredMembers | arxiv_query.py:157-159 | an entry survives exactly when it was there and its published date parses and lies within the bounds, both inclusive |
| ArxivFeed.FilteredAppend | arxiv_query.py:151-159 | filtering distributes over concatenation, so survivors keep their order |
| ArxivFeed.FilteredAllKept | arxiv_query.py:151-159 | filtering never adds entries, and changes nothing when every entry passes |
| ArxivFeed.PrunedBounds | arxiv_query.py:146-159 | with no date string nothing is removed; a bound that does not parse is ignored, but the published date must still parse |
| ArxivFeed.RangeInclusive | arxiv_query.py:146-159 | an entry published at any time of the day the user names passes both bounds of that day |
| ArxivFeed.Feed.constructor | arxiv_query.py:142 | the combined feed starts with no entries |
| ArxivFeed.Feed.Append | arxiv_query.py:143-144 | `append` adds the entry at the end |
| ArxivFeed.Feed.Remove | arxiv_query.py:159 | `remove` takes out exactly that entry |
| ArxivFeed.OutOfRange | arxiv_query.py:151-158 | an entry is dropped exactly when its published date is missing or does not parse, or lies before the start bound or after the end bound |
| ArxivFeed.Feed.RemoveIfOutOfRange | arxiv_query.py:151-159 | one pass of the removal loop: the entry is removed or kept as the range test says, and the feed is the entries kept so far followed by those not yet visited |
| ArxivFeed.Feed.RemoveOutOfRange | arxiv_query.py:151-159 | the removal loop over a snapshot leaves exactly the filtered entries, in order |
| ArxivFeed.Feed.Prune | arxiv_query.py:146-159 | the filtering block leaves exactly the entries `Pruned` describes |
| ArxivFeed.Requests | arxiv_query.py:109-136 | the first request is at the start index |
| ArxivFeed.RequestsStarts | arxiv_query.py:109-136 | requests start at 0 and advance by 2000 |
| ArxivFeed.RequestsFullPages | arxiv_query.py:125-134 | every page but the last held at least 2000 entries; the last one stopped the loop because it was empty, short, or reached 30000 |
| ArxivFeed.CollectIsFetched | arxiv_query.py:113-129 | what the loop collects is the entries of the requested pages, in request order |
| ArxivFeed.Collect | arxiv_query.py:113-136 | the entries the paging loop collects; stated by `CollectIsFetched`, `CollectBound` and `CollectWithinLimit` |
| ArxivFeed.RequestsCount | arxiv_query.py:129-136 | each further request follows a page of at least 2000 entries, with fewer than 30000 collected |
| ArxivFeed.AtMostFifteenRequests | arxiv_query.py:109-136 | one query makes at most 15 requests |
| ArxivFeed.CollectBound | arxiv_query.py:129-138 | with pages of at most `m` entries, fewer than `30000 + m` are collected |
| ArxivFeed.CollectWithinLimit | arxiv_query.py:133-138 | with pages of at most 2000 entries, at most 30000 are collected, as the comment at line 138 says |
| ArxivFeed.OversizedPagesExceedLimit | arxiv_query.py:129-138 | pages of 2001 entries make the loop collect 30015, so the 30000 bound depends on the page cap |
| ArxivFeed.FetchAll | arxiv_query.py:109-136 | the `while True` loop collects exactly `Collect` of the pages |
| ArxivFeed.FetchPage | arxiv_query.py:114-124 | one page is what `fetch` gives for the paged URL of its start index |
| ArxivFeed.QueryArXiv | arxiv_query.py:94-163 | the returned feed holds the collected entries after the date filter |
| Keywords.WordRun | gui_utils.py:12 | the run of word characters is maximal |
| Keywords.FindWords | gui_utils.py:12 | `re.findall` from a position; stated by `FindWordsTokens` |
| Keywords.Lower | gui_utils.py:12 | `lower()` keeps the length, maps each character through the ASCII case mapping and leaves no upper-case letter |
| Keywords.FindWordsTokens | gui_utils.py:12 | every match of `[A-Za-z]\w{3,}` is a letter followed by at least three word characters, lower case when the text is |
| Keywords.WordsLowerTokens | gui_utils.py:12 | the words of the lower-cased abstract are lower-case tokens |
| Keywords.FirstOccurrences | gui_utils.py:13-15 | the dictionary keys are exactly the words |
| Keywords.FirstOccurrencesDistinct | gui_utils.py:13-15 | the dictionary keys are distinct and no more than the words |
| Keywords.CountWords | gui_utils.py:13-15 | the loop gives keys in first-occurrence order and maps each word to its number of occurrences |
| Keywords.Items | gui_utils.py:16 | `freq.items()` pairs each key, in order, with its count |
| Keywords.InsertRanked | gui_utils.py:16 | one insertion of the stable sort, behind every item of at least its count; stated by `InsertRankedPermutes`, `InsertRankedOrdered` and `InsertRankedStable` |
| Keywords.Ranked | gui_utils.py:16 | `sorted(..., key=count, reverse=True)`; stated by `RankedPermutes`, `RankedStable` and `RankedDistinct` |
| Keywords.RankedPermutes | gui_utils.py:16 | the sort is a permutation and orders by non-increasing count |
| Keywords.RankedStable | gui_utils.py:16 | the sort is stable: for each count, items keep their order |
| Keywords.RankedDistinct | gui_utils.py:16 | sorting keeps names distinct |
| Keywords.Take | gui_utils.py:17 | `[:top_n]` has Python's slice length for every integer `top_n`, negative ones included, and is a prefix |
| Keywords.Names | gui_utils.py:17 | `[w[0] for w in ...]`: as many names as items, name `i` being that of item `i`; `KeywordsPrefix` states what it gives for the keywords |
| Keywords.KeywordsOf | gui_utils.py:10-11 | an empty or missing abstract gives `[]` |
| Keywords.ExtractKeywords | gui_utils.py:5-17 | the method returns the specified keyword list |
| Keywords.RankingItems | gui_utils.py:13-16 | every ranked item is a word of the abstract with its true count, and every word is ranked |
| Keywords.KeywordsBounds | gui_utils.py:16-17 | the keywords are a prefix of the ranking, at most `top_n` of them, and no more than the distinct words; their number is exactly Python's slice length of the ranking for every integer `top_n` |
| Keywords.KeywordsPrefix | gui_utils.py:16-17 | keyword `i` is the word of the `i`-th ranked item |
| Keywords.KeywordsDistinctTokens | gui_utils.py:12-17 | the keywords are distinct lower-case tokens of the abstract |
| Keywords.KeywordsOrdered | gui_utils.py:16-17 | the keywords come in order of non-increasing count |
| Keywords.KeywordsDominate | gui_utils.py:16-17 | no word left out occurs more often than any keyword |
| Keywords.KeywordsStable | gui_utils.py:13-16 | among words of equal count the ranking keeps first-occurrence order |

## Left out

- **Parser data and tokens:**
  - Node data is a `str` or nothing. `Node(data=<int>)` is allowed by the constructor's type but never built by the parser.
  - `Node.__repr__` is not modelled.
  - The escaped operator tokens of lines 82-84 are computed but never used, so they are not modelled.
- **Delimiter table:** it is a map from one character to a string. A longer Python key can never equal the one-character `ch` of line 109.
- **White space:**
  - `str.isspace()` and the `\s` of the text pattern use Python's full white-space set.
  - Letters, digits, `\w`, `isdigit()` and `lower()` are ASCII in the keyword scanner and the date rewriting. Unicode letters and digits and non-ASCII case mappings are not modelled.
- **BooleanParser.Parse:** an empty operator token gives `Err(Diverges(i))`, where the Python loop never ends.
- BooleanRender.ParsedRenderBalanced: it proves only that the rendering balances its own parentheses and pairs its own quotes. It does not prove that it has as many `)` as the input has `(`, or twice as many `"` as the input. That would need a proof that the walk visits every node of the arena exactly once, and the model does not have one.
- **process_tree recursion depth:** each text token nests under the one before it (line 211), so a query of about 1000 words goes deeper than Python's default recursion limit, and `process_tree` raises `RecursionError`. `BooleanRender.ProcessTree` recurses without a bound and never fails this way.
- **parse_arxiv_response with an empty `<id>`:** when `<id>` has no text, `child.text` is `None` and `url.split` raises `AttributeError` (lines 185-186). `ArxivQuery.SplitId` takes the text as a string, so this case is not modelled.
- **Network:** `urllib.request.urlopen` is not modelled. A page is what the `fetch` parameter gives for its URL.
- **Encoding:** `urllib.parse.quote_plus` is the `encode` parameter.
- **XML:**
  - `ET.fromstring`, `findall`, `ET.ElementTree` and `_create_empty_feed` are not modelled, so the feed has only its entries. The non-entry children copied from the last page are not kept.
  - An entry is the list of its children's tags and texts.
- **ArxivFeed.QueryArXiv:**
  - The namespace is an input. The model does not read it from the first page's root tag (line 121) with `re.match(r'{.*}', ...)`.
  - The result is the entry list, not an `ElementTree`.
- **ArxivFeed.Feed.Remove:**
  - `Element.remove` finds the element by identity; here it removes by position, at the position of the entry the loop is visiting.
  - The arXiv entries are distinct objects, so the two agree.
- **Date parsing:** `datetime.strptime` is the `strptime` parameter, with the two formats as values of `Format`. Calendar validation and the `ValueError` path are its `None`.
- **parse_arxiv_response:** only the id/version split is modelled. `version` is `None` where the code keeps its default integer 1. Titles, authors, summaries and the `Entry` class are not modelled.
- **getArXivQuery:** the date arguments are ignored, as the code ignores them.
- **Rest of the repository:** `database.py`, the tkinter GUI modules, the checkbox helpers of `gui_utils.py` and the embedding modules are not part of this model. They are SQLite I/O, widgets and floating-point numerics.
