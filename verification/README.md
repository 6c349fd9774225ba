# Verified models of six algorithms from a Drupal site

The repository is a Drupal site. Six of its contributed modules hold algorithms that can be separated from the
framework around them. This project models each of them in Dafny, with the services around them replaced by small
stores and functions, and proves what they are there for.

* **Keyset pagination** (`EntityQuery`, `PageSpec`, `EntityConnection`, `ConnectionWalk`). A connection turns
  first/after/last/before/reverse into a direction, a comparison with the cursor, a fetch of one element too many, a
  slice and a flip. `PageSpec` says what a page is without speaking of queries (GraphQL Cursor Connections
  Specification, sections 4.3, 4.4 and 5.1); the class `EntityConnection` is proved to deliver it, and whole walks of a
  client, with records coming and going between requests, are proved to lose and repeat nothing.
* **Template expansion of subrequests** (`TokenText`, `Substitution`, `FlatText`, `JsonPathReplacer`,
  `TokenExtraction`, `ReplacementPoints`, `SubrequestExpansion`, `ExpansionResults`, `ExpansionIds`, `ExpansionCount`,
  `SubrequestsManager`). Tokens in a URI or body are replaced by values from earlier responses; several values lead to
  several subrequests, through mutual recursion, level by level.
* **Tree table** (`Forest`, `ForestChange`, `RowLayout`, `RowBlocks`, `RowMoves`, `RowPreorder`, `LoadOrder`,
  `Visibility`, `ExpandOrder`, `TreeTable`). `TreeTable` holds the classes `Node` and `Tree`; the other modules are the
  theory of forests, row orders and visible rows that their methods are proved against. The document is the sequence of
  rows of the tree together with the sets of rows that are expanded, collapsed and not hidden.
* **Typed data paths** (`DelimitedText`, `TypedData`, `DataFetcher`, `PathCompletion`). An evaluator of paths over data,
  one over definitions, and a completer of partly typed paths. Data and definitions may refer to each other in circles,
  so both are tables by number, and conformance is the largest relation that is consistent all the way around.
* **Alias generation** (`Decimals`, `AliasCleaner`, `AliasStorage`, `AliasUniquifier`, `PathautoGenerator`). Cleaning of
  separators, the search for a free variant, and the table of aliases over any sequence of generations and deletions.
* **Token tree and validator** (`TokenTree`, `TokenValidator`, `FlatTokenTree`) and **redirect chasing**
  (`RedirectChain`). A generator bounded by depth over types that may be cyclic, the validator it has to agree with, and
  a loop with detection of circles.

`Wrappers` holds the option and result types.

## Findings

* Replacing tokens one after the other is not always replacing them at once. In `{{a.{{b.c@$.x}}@$.y}}{{a.V@$.y}}` the
  value V of the inner token completes a second copy of the token at the end, which is then replaced too.
  `Substitution.EveryOrderIsSimultaneousIff` says exactly when the order does not matter; where no token is nested it
  never does (`FlatText.FlatTextInAnyOrder`).
* Expansion need not end when a value contains a token (`SubrequestExpansion.SelfReferenceNeverEnds`); it does end if
  no value found in the responses at hand holds a brace, and then a run over all levels ends as well.
* A token need not read only the responses of the request that it names, because the pattern is not anchored: `uri` is
  part of every id generated for a URI (`ExpansionIds.UriReadsOthers`). `ExpansionIds.SubjectsAreNamedIff` says exactly
  when it reads those and no others.
* A defined path through conforming data may be reported as an invalid argument although the data is merely missing, as
  for an empty list (`DataFetcher.EmptyListIsInvalid`). `DataFetcher.DefinedPathFails` says exactly when: if a name is
  asked of complex data without that property, or of a list that is empty, begins with a list, or begins with complex
  data without that property.
* One pass of separator cleaning can leave a separator behind a slash; two passes cannot (`AliasCleaner.CleanedTwice`).
  `cleanAlias` makes one pass with the separator, `cleanString` two.
* After slash cleaning an alias is never empty, so the test for an empty alias only fires if the truncation leaves
  nothing. Text that holds nothing but separators and slashes, and no other, gives the alias `/`
  (`AliasCleaner.OnlySlashIff`).
* With existing aliases left in place, every update whose alias has not changed stores the same pair again
  (`PathautoGenerator.LeaveStoresAgain`), and replacing can do so too (`PathautoGenerator.ReplacingStoresAgain`).
  `PathautoGenerator.StoredAgainIff` says exactly when a generation stores a pair again.
* In the tree table `move` puts the row of the node first among its new siblings but the node last among the children
  (`RowPreorder.MoveGoesInFront`), so rows in preorder stay in preorder exactly if there were no siblings
  (`RowPreorder.MoveKeepsPreorderIff`); the next sort of the branch brings both in line.
* `expandAll` need not leave every row visible: a row that is expanded before it is first shown collapses when it is
  shown (`ExpandOrder.MovedRowStaysClosed`). `ExpandOrder.ExpandAllShowsIff` says exactly when all rows end up visible;
  they do whenever parents are listed before their children, which `loadRows` and `removeNode` keep and `move` may not.
* A row whose parent is loaded after it is hung under the roots but goes on naming that parent, which does not list it.
  `TreeTable.Tree.LoadRows` says exactly when parent ids and lists of children agree after loading; the other operations
  are proved for tables in which they do.
* `hasPreviousPage` in a forward walk, and `hasNextPage` in a backward one, say that a cursor was given and the page is
  not empty, rather than that there are elements on that side (`PageSpec.NothingBehindLast`,
  `PageSpec.SomethingBeforeFirst`). `PageSpec.FlagsRightIff` says exactly when the flag is right.

## Assumptions

* Pagination: the base directions of `ConnectionQueryHelperBase` (ascending forwards, descending backwards), a sort that
  is not an aggregate, and distinct ids among the records of one moment. Sort values are integers. A promise is the
  value it resolves to.
* Subrequests: JSONPath evaluation and the kernel are function parameters; the body is its serialized text; replacing is
  literal, for tokens without slashes and values without `$` and backslashes. A response is a subject if its id contains
  the id asked for, as the unanchored pattern has it.
* Tree table: rows to be loaded have ids that are new and distinct, and no row names itself as its parent; a parent may
  be unknown. A node that names an unknown parent is not moved, removed or revealed, which in the original are errors,
  and neither is a node below it revealed. The result of a sort of children is a parameter. The table itself is visible.
* Typed data: reading a property that complex data does not have, or a list under a name that is not all digits, is an
  invalid argument; a missing list item is missing data. A conforming complex datum has no property that its definition
  lacks. Completions are compared before they are sorted.
* Aliases: one language and no alter hooks; a separator of at most one character in cleaning, as the settings form
  allows; truncation is a function parameter of which only the length and that it yields a prefix are assumed; of
  several records for one source or alias the newest counts; sources begin with a slash.
* Tokens: the names of the tokens of one type are distinct and free of colons. Redirects: one target per path, no base
  path and no language prefix.

## Model

| member | source | states |
|---|---|---|
| `EntityConnections.EntityConnection.SetPagination` | web/modules/contrib/graphql_compose/src/GraphQL/EntityConnection.php:71-85 | either the whole request is replaced or nothing changes; it is refused exactly if a result was fetched before or the request is not `first` (1 to 100) with an optional `after`, or `last` (1 to 100) with an optional `before` |
| `EntityConnections.ErrorsReported` | web/modules/contrib/graphql_compose/src/GraphQL/EntityConnection.php:323-352 | which request is refused with which error, and that exactly `first` or `last` between 1 and 100, without the cursor of the other, is accepted |
| `EntityConnections.CursorsOfListing` | web/modules/contrib/graphql_compose/src/GraphQL/EntityConnection.php:242-247 | the cursor a listing has given to an element makes a page start at the key of that element; cursors of another type or sort key, and texts that are no cursors, are refused |
| `EntityConnections.CursorCondition` | web/modules/contrib/graphql_compose/src/GraphQL/EntityConnection.php:248-265 | the condition built from operator, sort value and id holds of exactly the records strictly beyond the cursor in the lexicographic (sort value, id) order of the query |
| `EntityConnections.EntityConnection.PaginationCondition` | web/modules/contrib/graphql_compose/src/GraphQL/EntityConnection.php:242-266 | the operator, worked out apart from the query direction, always selects the side of the cursor that the direction reads towards |
| `EntityQueries.SortRowsOrdered` | web/modules/contrib/graphql_compose/src/GraphQL/EntityConnection.php:282-297 | the query delivers a sorted rearrangement of the selected records |
| `EntityConnections.QueryFetchesCandidates` | web/modules/contrib/graphql_compose/src/GraphQL/EntityConnection.php:237-301 | filter, two-column sort and range together fetch the records nearest to the cursor first, one more than asked for, in all four combinations of first/last and reverse |
| `EntityConnections.EntityConnection.Execute` | web/modules/contrib/graphql_compose/src/GraphQL/EntityConnection.php:221-304 | the fetched edges are that over-fetch; the only error is a cursor made for another listing or not decodable |
| `EntityConnections.EntityConnection.GetResult` | web/modules/contrib/graphql_compose/src/GraphQL/EntityConnection.php:208-213 | the first result is kept: a later call returns it whatever has happened to the records |
| `EntityConnections.SliceAndFlip` | web/modules/contrib/graphql_compose/src/GraphQL/EntityConnection.php:158-170 | dropping the extra element, and flipping a backward fetch, yields the first n after or the last n before the cursor in display order; the extra element tells whether there are more |
| `EntityConnections.EntityConnection.Edges` | web/modules/contrib/graphql_compose/src/GraphQL/EntityConnection.php:130-170 | the edges are the page defined independently of the query: the first n elements strictly after, or the last n strictly before, the cursor in the (sort value, id) order of the display (GraphQL Cursor Connections Specification, sections 4.3 and 4.4) |
| `EntityConnections.EntityConnection.Nodes` | web/modules/contrib/graphql_compose/src/GraphQL/EntityConnection.php:137-148 | the nodes are those of the same page in the same order |
| `EntityConnections.EntityConnection.GetPageInfo` | web/modules/contrib/graphql_compose/src/GraphQL/EntityConnection.php:90-125 | in the direction of paging the flag says exactly whether there are more elements; in the other it says whether a cursor was given; the cursors are those of the first and last element of the page |
| `PageSpec.FlagsRightIff` | web/modules/contrib/graphql_compose/src/GraphQL/EntityConnection.php:104-119 | the flag for the side the page is not read towards says whether elements stand at or beyond the cursor there exactly if no cursor was given, nothing is listed, or there are elements on both sides; the flag for the other side is always right |
| `PageSpec.NothingBehindLast` | web/modules/contrib/graphql_compose/src/GraphQL/EntityConnection.php:93-119 | a cursor on the last element gives an empty page that says nothing comes before it |
| `PageSpec.SomethingBeforeFirst` | web/modules/contrib/graphql_compose/src/GraphQL/EntityConnection.php:112-119 | a cursor in front of everything left gives a page that says something comes before it |
| `ConnectionWalks.ForwardWalkSorted` | web/modules/contrib/graphql_compose/src/GraphQL/EntityConnection.php:90-304 | over a completed forward walk, with records inserted and deleted between the pages, everything arrives in strictly increasing display order, so that no (sort value, id) key comes twice |
| `ConnectionWalks.ForwardWalkComplete` | web/modules/contrib/graphql_compose/src/GraphQL/EntityConnection.php:90-304 | every record present under the same key at each request of a completed forward walk is returned |
| `ConnectionWalks.ForwardWalkIsDisplay` | web/modules/contrib/graphql_compose/src/GraphQL/EntityConnection.php:90-304 | on records that do not change, the pages put together are the whole sorted list |
| `ConnectionWalks.BackwardPageMirrorsForward` | web/modules/contrib/graphql_compose/src/GraphQL/EntityConnection.php:158-188 | the page and the page information for `last` are those for `first` on the reversed list, read backwards |
| `ConnectionWalks.BackwardWalkSorted` | web/modules/contrib/graphql_compose/src/GraphQL/EntityConnection.php:90-304 | a completed backward walk returns no key twice and keeps display order |
| `ConnectionWalks.BackwardWalkComplete` | web/modules/contrib/graphql_compose/src/GraphQL/EntityConnection.php:90-304 | a completed backward walk returns every record that was present throughout |
| `ConnectionWalks.BackwardWalkIsDisplay` | web/modules/contrib/graphql_compose/src/GraphQL/EntityConnection.php:90-304 | on records that do not change, a completed backward walk returns the same list, in the same order, as a forward one |
| `TokenText.TokenAtFront` | web/modules/contrib/subrequests/src/JsonPathReplacer.php:329-347 | a token stands at the front of a text exactly if the scan finds that token there |
| `TokenText.TokenItself` | web/modules/contrib/subrequests/src/JsonPathReplacer.php:329-347 | what the scan cuts out of a text is a token: a body without braces between double braces, with a dot and an `@` in their places |
| `TokenText.NoTokenInside` | web/modules/contrib/subrequests/src/JsonPathReplacer.php:331-332 | no token starts strictly inside another one |
| `TokenText.ReplaceAllBraces` | web/modules/contrib/subrequests/src/JsonPathReplacer.php:152-153 | replacing a token by text without braces takes away four braces for each of its occurrences |
| `TokenText.ReplaceAllKeepsOthers` | web/modules/contrib/subrequests/src/JsonPathReplacer.php:152-153 | replacing one token destroys no occurrence of another |
| `TokenText.QuotedKeeps` | web/modules/contrib/subrequests/src/JsonPathReplacer.php:145-151 | replacing a token together with its quotes destroys no occurrence of another token, and of its own only those it replaces |
| `Substitution.SequentialIsSimultaneousIff` | web/modules/contrib/subrequests/src/JsonPathReplacer.php:115-123 | replacing the tokens one after the other gives the simultaneous substitution exactly if no step meets a copy of its token that earlier steps have created |
| `Substitution.EveryOrderIsSimultaneousIff` | web/modules/contrib/subrequests/src/JsonPathReplacer.php:115-123 | every order gives the simultaneous substitution exactly if, for each token, substituting the others creates no new copy of it |
| `Substitution.OrderIrrelevantOnceTokenFree` | web/modules/contrib/subrequests/src/JsonPathReplacer.php:115-123 | in particular the order does not matter where substituting all tokens at once leaves no token |
| `FlatText.FlatTextInAnyOrder` | web/modules/contrib/subrequests/src/JsonPathReplacer.php:115-123 | nor where no token is nested: where no double braces enclose a token and otherwise brace-free text; other braces, as those of JSON objects, may stand anywhere, and so may double braces that are no token and hold none |
| `FlatText.RewritingRemains` | web/modules/contrib/subrequests/src/JsonPathReplacer.php:115-155 | putting brace-free values for tokens of such a text, with or without the quotes around them, completes no new token and nests none |
| `FlatText.NoDoubleBraces` | web/modules/contrib/subrequests/src/JsonPathReplacer.php:329-333 | no token is nested where outside the tokens no two opening braces stand side by side |
| `FlatText.TokenFreeIsFlat` | web/modules/contrib/subrequests/src/JsonPathReplacer.php:329-333 | nor in a text without tokens, whatever double braces it holds |
| `Substitution.SequentialCanDiffer` | web/modules/contrib/subrequests/src/JsonPathReplacer.php:115-123 | a concrete text on which the order matters: a nested token completes a second copy of another token |
| `JsonPathReplacer.AddSubjectsSpec` | web/modules/contrib/subrequests/src/JsonPathReplacer.php:294-296 | the values that one token finds are added behind those it has, response by response, and nothing else changes |
| `JsonPathReplacer.TokenParts` | web/modules/contrib/subrequests/src/JsonPathReplacer.php:329-346 | a token is split at its last `@`: what is asked of a response stands behind it |
| `JsonPathReplacer.BodyTokenNames` | web/modules/contrib/subrequests/src/JsonPathReplacer.php:267-271 | a token `{{id.body@path}}` names the request `id` and asks for `path` |
| `JsonPathReplacer.OtherTokenNames` | web/modules/contrib/subrequests/src/JsonPathReplacer.php:267-271 | a subject that does not end in `.body` is the id itself |
| `JsonPathReplacer.SubjectsExactly` | web/modules/contrib/subrequests/src/JsonPathReplacer.php:272-279 | the responses read are those whose id contains the id asked for, each once for every time it is in the pool, in order |
| `JsonPathReplacer.ContainsIff` | web/modules/contrib/subrequests/src/JsonPathReplacer.php:276-278 | the pattern, which is not anchored, matches exactly if the id stands somewhere in the other |
| `JsonPathReplacer.FoundInParts` | web/modules/contrib/subrequests/src/JsonPathReplacer.php:294-296 | the values found in several responses are those of the first, followed by those of the others |
| `JsonPathReplacer.FoundInOne` | web/modules/contrib/subrequests/src/JsonPathReplacer.php:294-296 | in one response a token has the values that its query delivers, in order |
| `TokenExtraction.GroupsHold` | web/modules/contrib/subrequests/src/JsonPathReplacer.php:253-301 | an extraction has one group for every token of the text, which holds all values of that token, and no others |
| `TokenExtraction.BodyTokenValues` | web/modules/contrib/subrequests/src/JsonPathReplacer.php:267-296 | a token `{{id.body@path}}` has what `path` finds in the responses whose id contains `id`, response by response |
| `TokenExtraction.ExtractionFails` | web/modules/contrib/subrequests/src/JsonPathReplacer.php:260-301 | an extraction succeeds exactly if every token of the text reads some response and no value that is neither string nor scalar; otherwise the first token in the text that does not decides the error |
| `TokenExtraction.DedupeKeepsFirst` | web/modules/contrib/subrequests/src/JsonPathReplacer.php:261-266 | repeated tokens count where they stand first |
| `TokenExtraction.GroupsInOrder` | web/modules/contrib/subrequests/src/JsonPathReplacer.php:87-100 | the groups come request by request, as requests are first met in the text, and for each request in the order in which its tokens first stand there |
| `JsonPathReplacer.ExtractedGroups` | web/modules/contrib/subrequests/src/JsonPathReplacer.php:253-301 | extraction lists each token of the text exactly once, with all values it finds in the responses of the request it names |
| `JsonPathReplacer.PointTokens` | web/modules/contrib/subrequests/src/JsonPathReplacer.php:168-186 | each point gives every token, in order, one of its own values |
| `JsonPathReplacer.StringReplaced` | web/modules/contrib/subrequests/src/JsonPathReplacer.php:152-153 | where a token stands once, its value takes its place and nothing else changes |
| `JsonPathReplacer.ScalarLosesQuotes` | web/modules/contrib/subrequests/src/JsonPathReplacer.php:145-153 | a number or boolean takes the place of its token together with the quotes around it; a string leaves the quotes |
| `ReplacementPoints.PointsAreTheProduct` | web/modules/contrib/subrequests/src/JsonPathReplacer.php:168-186 | the points are the Cartesian product in mixed-radix order: as many as the product of the group sizes, and number k is the combination with the digits of k |
| `ReplacementPoints.EveryChoiceIsAPoint` | web/modules/contrib/subrequests/src/JsonPathReplacer.php:168-186 | every combination of values is one of the points |
| `ExpansionResults.PlacesInOrder` | web/modules/contrib/subrequests/src/JsonPathReplacer.php:168-186 | the combinations come in lexicographic order: the value of the first token changes slowest |
| `ExpansionResults.CloneOfChoice` | web/modules/contrib/subrequests/src/JsonPathReplacer.php:86-128 | there is a clone for every combination, and the one at the place of a combination is made with exactly its values |
| `ReplacementPoints.ApplyPointInOrder` | web/modules/contrib/subrequests/src/JsonPathReplacer.php:115-123 | applying a point of string values is replacing its tokens one after the other |
| `ReplacementPoints.ApplyPointErases` | web/modules/contrib/subrequests/src/JsonPathReplacer.php:115-123 | applying a point leaves at most the braces that blanking its tokens would leave, and so, for all tokens of the text, at most those outside them |
| `ReplacementPoints.PointOnFlatText` | web/modules/contrib/subrequests/src/JsonPathReplacer.php:115-123 | applying a point to a text without nested tokens leaves such a text, with exactly those tokens that the point does not replace |
| `JsonPathReplacer.ReplaceEachToken` | web/modules/contrib/subrequests/src/JsonPathReplacer.php:115-123 | the loop over a point applies its replacements first to last to the same text |
| `JsonPathReplacer.CloneSubrequest` | web/modules/contrib/subrequests/src/JsonPathReplacer.php:105-124 | a clone differs from its subrequest in the id and in the member being replaced only |
| `JsonPathReplacer.DoReplaceTokensInLocation` | web/modules/contrib/subrequests/src/JsonPathReplacer.php:86-128 | the loop builds one clone for each point, numbered from 0, in the order of the points |
| `SubrequestExpansion.ExpansionIsResolved` | web/modules/contrib/subrequests/src/JsonPathReplacer.php:25-69 | every subrequest that a finished expansion returns is marked as resolved and has no token in its URI or body |
| `ExpansionResults.TokenFreeComesBack` | web/modules/contrib/subrequests/src/JsonPathReplacer.php:65-68 | a subrequest without tokens comes back with id, URI, body and action as they were |
| `ExpansionResults.ExpansionKeepsAction` | web/modules/contrib/subrequests/src/JsonPathReplacer.php:48-69 | every subrequest that an expansion returns, nested tokens included, has the action of the one expanded |
| `ExpansionResults.BatchInTwoParts` | web/modules/contrib/subrequests/src/JsonPathReplacer.php:25-32 | a batch is expanded piece by piece: the results for a first part come before those for the second, and the first failure decides |
| `ExpansionResults.BatchOfOne` | web/modules/contrib/subrequests/src/JsonPathReplacer.php:25-32 | a batch of one subrequest is expanded as that subrequest |
| `ExpansionResults.FlatExpansionResult` | web/modules/contrib/subrequests/src/JsonPathReplacer.php:48-128 | where no token is nested, the results come in the order of the combinations of URI values and, within each, of body values; each has the URI and the body with the values of its two combinations put in, the action unchanged, and an id that numbers the two |
| `ExpansionResults.FlatStringsResult` | web/modules/contrib/subrequests/src/JsonPathReplacer.php:48-128 | with strings for values, the URI and the body of each result are those of the subrequest with all tokens replaced by their values at once |
| `SubrequestExpansion.ClonesAreLighter` | web/modules/contrib/subrequests/src/JsonPathReplacer.php:48-128 | if no value found in the responses of the pool holds a brace, each clone has fewer braces in URI and body than the subrequest it replaces |
| `SubrequestExpansion.ExpansionTerminates` | web/modules/contrib/subrequests/src/JsonPathReplacer.php:25-69 | so the mutual recursion ends, nested tokens included, within as many steps as there are braces |
| `SubrequestExpansion.BatchDepthIrrelevant` | web/modules/contrib/subrequests/src/JsonPathReplacer.php:25-69 | a finished expansion is the same whatever larger depth is allowed |
| `SubrequestExpansion.SelfReferenceNeverEnds` | web/modules/contrib/subrequests/src/JsonPathReplacer.php:48-69 | without the restriction on values it need not end: a token whose value is the token itself is expanded for ever |
| `ExpansionIds.ExpansionKeepsIdsDistinct` | web/modules/contrib/subrequests/src/JsonPathReplacer.php:86-128 | distinct request ids without `#` lead to pairwise distinct ids across all generated subrequests |
| `ExpansionIds.GeneratedIdNamesItsOrigin` | web/modules/contrib/subrequests/src/JsonPathReplacer.php:105-113 | a generated id, cut at its first `#`, is the id of the request it came from |
| `ExpansionIds.SubjectsAreNamedIff` | web/modules/contrib/subrequests/src/JsonPathReplacer.php:271-279 | a token reads exactly the responses of the request that it names, those generated from it included, if and only if the id of that request is part of the id of no other response |
| `ExpansionIds.UriReadsOthers` | web/modules/contrib/subrequests/src/JsonPathReplacer.php:271-279 | a token that names a request `uri` also reads the responses generated for the URI of any other request, though neither id is part of the other |
| `ExpansionCount.FlatExpansionSize` | web/modules/contrib/subrequests/src/JsonPathReplacer.php:48-128 | where no token is nested in other double braces, a subrequest yields the product of the numbers of values of its URI tokens and of its body tokens, whatever other braces stand there |
| `SubrequestsManager.RequestRunsLevels` | web/modules/contrib/subrequests/src/SubrequestsManager.php:57-86 | the accumulating recursion computes the run level by level, each level after the ones before it |
| `SubrequestsManager.LaterLevelsOnlyAppend` | web/modules/contrib/subrequests/src/SubrequestsManager.php:78-85 | responses of earlier levels stay in place; later levels only add behind them |
| `SubrequestsManager.LevelReadsEarlierLevels` | web/modules/contrib/subrequests/src/SubrequestsManager.php:57-86 | level k is expanded against the responses of the levels below it and nothing else, sends only resolved subrequests to the kernel, and its responses come next in order |
| `SubrequestsManager.RunEnds` | web/modules/contrib/subrequests/src/SubrequestsManager.php:57-86 | a run over all levels ends if no value found in the responses that the levels leave holds a brace |
| `SubrequestsManager.RunKeepsIdsDistinct` | web/modules/contrib/subrequests/src/SubrequestsManager.php:57-86 | if the ids of the requests of all levels differ and are free of `#`, all responses of a run have different ids, and each, cut at its first `#`, names a request of the run |
| `TreeTable.Node.constructor` | web/modules/contrib/token/js/jquery.treetable.js:12-34 | a node takes id and parent id from its row, an empty parent id being none, and starts without children |
| `TreeTable.Node.AddChild` | web/modules/contrib/token/js/jquery.treetable.js:36-38 | the child goes to the end of the list |
| `TreeTable.Node.RemoveChild` | web/modules/contrib/token/js/jquery.treetable.js:129-132 | the child leaves the list; for a node that is not in the list, the last entry goes instead, as a splice at -1 does |
| `TreeTable.Tree.ParentNode` | web/modules/contrib/token/js/jquery.treetable.js:121-127 | the lookup by parent id finds the parent in the forest, and nothing exactly for nodes without one |
| `TreeTable.Tree.Ancestors` | web/modules/contrib/token/js/jquery.treetable.js:40-48 | the loop ends, and collects exactly the proper ancestors |
| `TreeTable.Tree.Detach` | web/modules/contrib/token/js/jquery.treetable.js:129-171 | a node with a parent is always in the list of that parent, and only that list loses it |
| `TreeTable.Tree.SetParent` | web/modules/contrib/token/js/jquery.treetable.js:168-175 | children lists and parent ids become those of the moved forest, and stay those of a forest |
| `ForestChange.MoveKeepsForest` | web/modules/contrib/token/js/jquery.treetable.js:309-319 | hanging a branch below a node outside it leaves a forest: parent links and children lists agree and no chain of parents is cyclic |
| `ForestChange.MoveBranch` | web/modules/contrib/token/js/jquery.treetable.js:309-319 | after a move a branch is what it was, with the moved branch added where the destination lies inside it and taken away elsewhere |
| `TreeTable.Tree.MoveRows` | web/modules/contrib/token/js/jquery.treetable.js:400-411 | the recursion that puts one row after another puts the whole branch, in preorder of the children lists, behind the destination row |
| `RowMoves.MovedSoFarStep` | web/modules/contrib/token/js/jquery.treetable.js:406-410 | each step of the backward loop over the children puts one more branch directly behind the row of the node, in front of those already there |
| `TreeTable.Tree.Move` | web/modules/contrib/token/js/jquery.treetable.js:309-337 | links and rows change exactly if the destination is neither the node, nor its parent, nor inside its branch; every branch whose rows stood together still does, and the rows are a permutation of the old ones; rows in preorder stay so exactly if the destination had no children |
| `RowBlocks.MovedBehind` | web/modules/contrib/token/js/jquery.treetable.js:400-411 | after a move the branch stands directly behind the row of the destination, in preorder, and all other rows are in the order they had |
| `RowBlocks.MoveKeepsBlocks` | web/modules/contrib/token/js/jquery.treetable.js:309-411 | with every branch one contiguous block headed by its root row, moving a branch leaves every branch such a block and permutes the rows |
| `RowPreorder.MoveKeepsPreorderIff` | web/modules/contrib/token/js/jquery.treetable.js:309-411 | if the rows of every root were its preorder, they still are after a move exactly if the destination had no children |
| `RowPreorder.MovedInPreorder` | web/modules/contrib/token/js/jquery.treetable.js:400-411 | moving to a node without children changes the preorder of every other branch as it changes the rows |
| `RowPreorder.MoveGoesInFront` | web/modules/contrib/token/js/jquery.treetable.js:400-411 | a table in which the moved row goes in front of its sibling but behind it in the list of children |
| `TreeTable.Tree.SortBranch` | web/modules/contrib/token/js/jquery.treetable.js:371-379 | in a block layout the rows of the branch become the preorder of the sorted children lists, in the same place, and the rows before and behind them stay where they were |
| `RowBlocks.SortGivesPreorder` | web/modules/contrib/token/js/jquery.treetable.js:371-416 | moving a node behind itself brings the rows of its branch into preorder without touching the rows in front of it and behind it |
| `TreeTable.Tree.LoadRows` | web/modules/contrib/token/js/jquery.treetable.js:281-307 | one node for every row with an id, in order; every node goes to the end of the children of its parent, or to the roots if that is not known; the roots are then the nodes without a parent if they were before, and parents stand before their children; afterwards every node that names a known parent is listed by it exactly if that was so before and no row had been named as a parent before its turn |
| `TreeTable.NodeRowsInParts` | web/modules/contrib/token/js/jquery.treetable.js:284-288 | rows without an id are passed over, and all others loaded in order |
| `TreeTable.Tree.LoadRow` | web/modules/contrib/token/js/jquery.treetable.js:287-299 | one row: the node is registered, listed, and hung under the node that its parent id names if that is known, and under the roots otherwise; every node that names a known parent is then listed by it exactly if that was so before and no node had named the new one |
| `ForestChange.AddKeepsForest` | web/modules/contrib/token/js/jquery.treetable.js:289-297 | adding a leaf leaves a forest |
| `TreeTable.Tree.RemoveNode` | web/modules/contrib/token/js/jquery.treetable.js:339-356 | exactly the branch leaves the list of nodes, the rows and the row classes, and a forest stays; `roots` is not touched |
| `TreeTable.Tree.UnloadBranch` | web/modules/contrib/token/js/jquery.treetable.js:381-398 | removing the copied list of children one by one removes the branch except its root |
| `TreeTable.RemovalKeeps` | web/modules/contrib/token/js/jquery.treetable.js:339-398 | exactly the ids of the branch leave the table by id; block layout, parents before children, and visibility by ancestors hold as before |
| `ForestChange.RemoveKeepsForest` | web/modules/contrib/token/js/jquery.treetable.js:339-356 | taking a branch out leaves a forest |
| `ForestChange.UnloadStep` | web/modules/contrib/token/js/jquery.treetable.js:387-389 | while the children are removed one after the other the rest stays a forest, and each branch loses exactly what has been removed |
| `ForestChange.UnloadEnd` | web/modules/contrib/token/js/jquery.treetable.js:381-398 | with all children gone, removing the node completes the removal of its branch |
| `RowBlocks.RemoveKeepsBlocks` | web/modules/contrib/token/js/jquery.treetable.js:339-356 | taking the rows of a branch out leaves every other branch a block |
| `LoadOrder.ParentsFirstRemove` | web/modules/contrib/token/js/jquery.treetable.js:352-353 | taking a branch out of the list of nodes leaves parents before their children |
| `TreeTable.Tree.Hide` | web/modules/contrib/token/js/jquery.treetable.js:97-101 | the rows of the whole branch are hidden, and no others |
| `TreeTable.Tree.HideChildren` | web/modules/contrib/token/js/jquery.treetable.js:197-206 | the rows below the node are hidden, and no others |
| `TreeTable.Tree.Collapse` | web/modules/contrib/token/js/jquery.treetable.js:50-65 | the new state of all rows; a table whose rows are visible exactly below expanded ancestors stays one |
| `TreeTable.Tree.Expand` | web/modules/contrib/token/js/jquery.treetable.js:73-91 | children are shown only if the row is visible itself; a table whose rows are visible exactly below expanded ancestors stays one |
| `TreeTable.Tree.ShowChildren` | web/modules/contrib/token/js/jquery.treetable.js:226-235 | the branch of each child is displayed in turn, and nothing else changes |
| `TreeTable.Tree.Show` | web/modules/contrib/token/js/jquery.treetable.js:177-186 | afterwards a row of the branch is visible exactly if all its ancestors in the branch are expanded; initialized rows keep their state, others start as the settings say, and nothing outside changes |
| `TreeTable.Tree.Initialize` | web/modules/contrib/token/js/jquery.treetable.js:208-224 | the first state follows the settings and leaves the branch ready to be shown |
| `TreeTable.Tree.Render` | web/modules/contrib/token/js/jquery.treetable.js:358-369 | after showing the roots, a row of the table is visible exactly if all its proper ancestors are expanded |
| `TreeTable.Tree.Toggle` | web/modules/contrib/token/js/jquery.treetable.js:188-195 | an expanded row is collapsed and any other expanded, and visibility still follows the ancestors |
| `TreeTable.Tree.Reveal` | web/modules/contrib/token/js/jquery.treetable.js:161-166 | the row is visible, it and all its ancestors are expanded, all other initialized rows keep their state, and visibility still follows the ancestors |
| `TreeTable.Tree.ExpandAll` | web/modules/contrib/token/js/jquery.treetable.js:262-271 | every row is visible afterwards exactly if rows do not start collapsed, or every uninitialized node with children is listed after each of its proper ancestors that is not both initialized and expanded; with parents listed before their children every row is visible and expanded |
| `ExpandOrder.ExpandAllShowsIff` | web/modules/contrib/token/js/jquery.treetable.js:262-271 | the same for every sequence of views that expanding the nodes in turn can produce |
| `ExpandOrder.HiddenAtTheEnd` | web/modules/contrib/token/js/jquery.treetable.js:208-224 | a node expanded before it is first shown collapses when it is shown, and the rows below it are hidden in the end |
| `ExpandOrder.MovedRowStaysClosed` | web/modules/contrib/token/js/jquery.treetable.js:262-337 | a table, rendered collapsed, in which a row moved below a later one stays closed when all rows are expanded |
| `TreeTable.Tree.CollapseAll` | web/modules/contrib/token/js/jquery.treetable.js:251-260 | exactly the rows without a parent are visible |
| `Visibility.OpenBranchDisplayed` | web/modules/contrib/token/js/jquery.treetable.js:177-186 | showing all children of a visible expanded row displays its branch |
| `Visibility.ExpandKeepsDisplayed` | web/modules/contrib/token/js/jquery.treetable.js:73-91 | expanding any row, visible or hidden, keeps visibility and expanded ancestors in step |
| `Visibility.CollapseKeepsDisplayed` | web/modules/contrib/token/js/jquery.treetable.js:50-65 | collapsing any row keeps visibility and expanded ancestors in step |
| `Visibility.RootsShownEnd` | web/modules/contrib/token/js/jquery.treetable.js:358-369 | the branches of the roots make up the table |
| `Visibility.RemoveKeepsDisplayed` | web/modules/contrib/token/js/jquery.treetable.js:339-356 | taking a branch away leaves the rest displayed |
| `DataFetcher.FetchDataBySubPaths` | web/modules/contrib/typed_data/src/DataFetcher.php:38-102 | the loop over the names follows references, translations, lists and properties as the recursive evaluator does, with the same error at the same name |
| `DataFetcher.ItemOnPath` | web/modules/contrib/typed_data/src/DataFetcher.php:38-90 | the number `k`, in decimal, leads from a list, and from a reference to a list, to its item `k` |
| `DataFetcher.ItemIsFound` | web/modules/contrib/typed_data/src/DataFetcher.php:65-87 | a number beyond the end of a list is missing data |
| `DataFetcher.PropertyIsFound` | web/modules/contrib/typed_data/src/DataFetcher.php:65-76 | a name leads to the property of that name, of complex data and of the first item of a list |
| `DataFetcher.OtherNames` | web/modules/contrib/typed_data/src/DataFetcher.php:67-87 | which other names are refused and which are missing |
| `DataFetcher.ReferenceIsFollowed` | web/modules/contrib/typed_data/src/DataFetcher.php:46-54 | a reference is followed to its target before the name is looked up; without a target the data is missing |
| `DataFetcher.TranslationIsChosen` | web/modules/contrib/typed_data/src/DataFetcher.php:56-63 | data with a translation into the language asked for go on from that translation, and other data from themselves |
| `DataFetcher.FetchedStepwise` | web/modules/contrib/typed_data/src/DataFetcher.php:38-102 | a path finds its first name and goes on from there; an error carries the names up to the one that failed |
| `TypedData.NumberedItem` | web/modules/contrib/typed_data/src/DataFetcher.php:73-76 | the item that a number stands for is the one with that index, and there is none beyond the end |
| `TypedData.ZerosNameNothing` | web/modules/contrib/typed_data/src/DataFetcher.php:73-76 | a number with zeros in front names no item |
| `TypedData.NamesOfDigits` | web/modules/contrib/typed_data/src/DataFetcher.php:67-67 | the names taken for numbers are those of one or more digits 0 to 9 |
| `TypedData.FirstNumbers` | web/modules/contrib/typed_data/src/DataFetcher.php:244-245 | the decimal names of some small numbers |
| `DataFetcher.FetchDefinitionBySubPaths` | web/modules/contrib/typed_data/src/DataFetcher.php:115-161 | the loop over the names computes the recursive evaluator of definitions |
| `DataFetcher.DefinitionIsFound` | web/modules/contrib/typed_data/src/DataFetcher.php:121-158 | what a name finds in each kind of definition, behind a reference and behind a list |
| `DataFetcher.DefinedStepwise` | web/modules/contrib/typed_data/src/DataFetcher.php:115-161 | a path finds its first definition and goes on from there; an error carries the names up to the one that failed |
| `DataFetcher.FetchDataByPropertyPath` | web/modules/contrib/typed_data/src/DataFetcher.php:30-33 | the dotted path is taken apart and followed |
| `DataFetcher.FetchDefinitionByPropertyPath` | web/modules/contrib/typed_data/src/DataFetcher.php:107-110 | the dotted path is taken apart and followed |
| `DataFetcher.PathTypesAreSound` | web/modules/contrib/typed_data/src/DataFetcher.php:38-161 | type soundness: on data conforming to a definition every path that finds data is defined, and what it finds conforms to the definition it finds, for any nesting of references, lists and complex data, in circles too |
| `DataFetcher.DefinedPathFails` | web/modules/contrib/typed_data/src/DataFetcher.php:38-102 | on conforming data a defined path ends in an invalid argument exactly if some name meets complex data without that property, or a list asked for a property that is empty or begins with a list or with complex data without it; it ends in missing data exactly at a reference to nothing, complex data without anything behind it, or a list too short; and the error names the part of the path up to there |
| `DataFetcher.EmptyListIsInvalid` | web/modules/contrib/typed_data/src/DataFetcher.php:65-79 | a defined path through an empty list that ends in an invalid argument, not in missing data |
| `DataFetcher.DefinedInTwoParts` | web/modules/contrib/typed_data/src/DataFetcher.php:115-161 | the second half of a path starts where the first half led |
| `DelimitedText.ImplodeExplode` | web/modules/contrib/typed_data/src/DataFetcher.php:31-31 | taking a path apart and putting it together gives the path back |
| `DelimitedText.ExplodeImplode` | web/modules/contrib/typed_data/src/DataFetcher.php:209-219 | names without dots survive being put together and taken apart |
| `DelimitedText.ImplodeTexts` | web/modules/contrib/typed_data/src/DataFetcher.php:209-209 | what up to three names look like put together |
| `PathCompletion.GetAutocompleteSuggestion` | web/modules/contrib/typed_data/src/DataFetcher.php:293-317 | a definition is offered under its name, and with a trailing dot exactly if some name leads further from it, or it is complex without any property |
| `PathCompletion.MatchingSuggestions` | web/modules/contrib/typed_data/src/DataFetcher.php:255-270 | the loop offers the matching entries of a table in order |
| `PathCompletion.SuggestLast` | web/modules/contrib/typed_data/src/DataFetcher.php:228-271 | what is offered for the last name: example indices, and properties after following a reference and a list |
| `PathCompletion.AutocompletePropertyPath` | web/modules/contrib/typed_data/src/DataFetcher.php:166-277 | the four stages of completion: all names, matching variables, a variable before the first dot or behind the first colon, and the last name |
| `PathCompletion.CompletionsSensible` | web/modules/contrib/typed_data/src/DataFetcher.php:166-317 | every completion without a trailing dot leads to a definition that the fetcher finds; every completion with one leads to a list or complex definition, possibly by reference |
| `PathCompletion.CompletionsComplete` | web/modules/contrib/typed_data/src/DataFetcher.php:186-271 | beyond the top level every property of the definition reached that begins with the last name, ignoring case, is offered, with a global context in front or without |
| `PathCompletion.MatchingOnly` | web/modules/contrib/typed_data/src/DataFetcher.php:255-270 | and only matching entries are offered |
| `PathCompletion.CaseIgnored` | web/modules/contrib/typed_data/src/DataFetcher.php:176-176 | each of the 26 letters agrees with its other case, and no other two characters agree |
| `PathCompletion.BeginsIgnoresCase` | web/modules/contrib/typed_data/src/DataFetcher.php:260-260 | a name begins with a text exactly if its first characters agree with it one by one, ignoring case |
| `PathCompletion.EmptyPathOffersAll` | web/modules/contrib/typed_data/src/DataFetcher.php:167-170 | the empty path is completed by the names of all variables, in order |
| `PathCompletion.IndicesOffered` | web/modules/contrib/typed_data/src/DataFetcher.php:230-247 | the indices 0, 1 and 2 of a list are offered for an empty last name unless the list is for a single value |
| `AliasCleaner.SeparatorsCleaned` | web/modules/contrib/pathauto/src/AliasCleaner.php:125-156 | for a one-character separator other than a slash: no separator at the edges, none next to another, and all characters but separators and slashes kept in order |
| `AliasCleaner.SlashesCleaned` | web/modules/contrib/pathauto/src/AliasCleaner.php:125-156 | for the slash: one leading slash, no doubled one, none at the end of anything longer, all other characters kept in order, and cleaning again changes nothing |
| `AliasCleaner.SeparatorBesideSlashIff` | web/modules/contrib/pathauto/src/AliasCleaner.php:141-148 | a separator is left beside a slash exactly if, after trimming and collapsing, slashes stand between two separators of which the second is not followed by a slash |
| `AliasCleaner.SeparatorStaysBehindSlash` | web/modules/contrib/pathauto/src/AliasCleaner.php:141-148 | the family of texts like `a/-/-b` on which that happens |
| `AliasCleaner.CleanedTwice` | web/modules/contrib/pathauto/src/AliasCleaner.php:267-267 | cleaning twice, as token values are, leaves no separator beside a slash for any text |
| `AliasCleaner.AliasCleaned` | web/modules/contrib/pathauto/src/AliasCleaner.php:101-120 | a cleaned alias has at most the maximal length, starts with a slash and has no doubled slash; before the truncation it is never empty |
| `AliasCleaner.OnlySlashIff` | web/modules/contrib/pathauto/src/AliasCleaner.php:105-115 | the two cleanings give `/`, and so no empty alias, exactly if the text holds nothing but separators and slashes |
| `AliasCleaner.AliasCleaner.CleanString` | web/modules/contrib/pathauto/src/AliasCleaner.php:161-281 | the remembered results are always those that would be computed, for every sequence of values and languages, and what is computed comes from a text without separators at the edges, next to each other or beside a slash |
| `AliasCleaner.HandedOver` | web/modules/contrib/pathauto/src/AliasCleaner.php:161-281 | what is handed on to the last steps has no separator beside a slash, at an edge or next to another, and all other characters of the value in order |
| `AliasUniquifier.IsReserved` | web/modules/contrib/pathauto/src/AliasUniquifier.php:101-147 | in a table where every alias text has one source, an alias in use is reserved exactly for the sources that do not have it, and any other text exactly if a route, a file or a module takes it |
| `AliasUniquifier.NewestDecides` | web/modules/contrib/pathauto/src/AliasUniquifier.php:101-112 | in any table the newest record of an alias decides: the alias is reserved for all sources but that of the record, unless the record leads to nothing, to `0` or to the alias itself |
| `AliasUniquifier.Uniquify` | web/modules/contrib/pathauto/src/AliasUniquifier.php:77-96 | the search ends for every separator and every finite table, and yields the alias itself if it is free and otherwise the variant with the least number that is free |
| `AliasUniquifier.CandidatesDiffer` | web/modules/contrib/pathauto/src/AliasUniquifier.php:90-95 | with a separator that ends in no digit, variants with different numbers differ, however they are truncated |
| `AliasUniquifier.SearchIsShort` | web/modules/contrib/pathauto/src/AliasUniquifier.php:90-95 | then no more variants are rejected than there are texts in use |
| `AliasUniquifier.CandidateLength` | web/modules/contrib/pathauto/src/AliasUniquifier.php:92-93 | a variant keeps the maximal length exactly if its suffix does |
| `AliasUniquifier.CandidateOfShort` | web/modules/contrib/pathauto/src/AliasUniquifier.php:90-95 | where nothing needs to be truncated a variant is the alias, the separator and the number |
| `AliasUniquifier.FirstCandidate` | web/modules/contrib/pathauto/src/AliasUniquifier.php:83-95 | for example `/a-0` and `/a-10` |
| `AliasUniquifier.UniqueFits` | web/modules/contrib/pathauto/src/AliasUniquifier.php:77-96 | with room for the separator and a number as large as the table, the alias found keeps the maximal length |
| `AliasUniquifier.CandidatesMayCoincide` | web/modules/contrib/pathauto/src/AliasUniquifier.php:90-95 | without a separator truncation can make two variants the same |
| `AliasStorage.AliasStorageHelper.Save` | web/modules/contrib/pathauto/src/AliasStorageHelper.php:98-159 | the three outcomes of saving: nothing for an alias equal to its source or to the one replaced, a replaced record, or a new one |
| `AliasStorage.AliasStorageHelper.LoadBySource` | web/modules/contrib/pathauto/src/AliasStorageHelper.php:164-174 | a record is found exactly if the source has one, and it is the one with the highest id |
| `AliasStorage.AliasStorageHelper.DeleteMultiple` | web/modules/contrib/pathauto/src/AliasStorageHelper.php:244-246 | exactly the records with the given ids go, and the table keeps one source for each alias text |
| `AliasStorage.SavedKeepsOneSource` | web/modules/contrib/pathauto/src/AliasStorageHelper.php:98-159 | saving an alias that is not reserved for its source keeps every alias text with one source |
| `PathautoGenerator.PathautoGenerator.CreateEntityAlias` | web/modules/contrib/pathauto/src/PathautoGenerator.php:156-281 | for every operation and update action: no alias text belongs to two sources afterwards; the alias chosen is free for the source; an update that is to store no new alias and finds a record of the source leaves the table as it was and ends without an alias, as does a pattern of which no token was replaced; a return leaves the table as it was and gives the chosen alias; what is stored is the chosen alias for the source |
| `PathautoGenerator.WhenNothingIsGenerated` | web/modules/contrib/pathauto/src/PathautoGenerator.php:156-248 | exactly when there is an alias to be made unique: not without a pattern or a path, not if no token was replaced, not if the update action forbids a new alias and the source has a record, and not if the cleaned text is empty |
| `PathautoGenerator.StoredFits` | web/modules/contrib/pathauto/src/PathautoGenerator.php:238-273 | the alias chosen fits the maximal length if there is room for a separator and a number as large as the table |
| `PathautoGenerator.OwnAliasIsKept` | web/modules/contrib/pathauto/src/PathautoGenerator.php:250-253 | generating the same alias again for the same source finds it free |
| `PathautoGenerator.GeneratedCopies` | web/modules/contrib/pathauto/src/PathautoGenerator.php:156-281 | for every operation and action, how often each pair of source and alias is stored afterwards: once more for the alias chosen if it is written, once less for the alias it is written over, and as often as before for all others |
| `PathautoGenerator.StoredAgainIff` | web/modules/contrib/pathauto/src/PathautoGenerator.php:205-273 | a generation stores a pair once more although it is there already exactly if it chooses an alias that the source has, other than the source, and neither only returns it nor finds it in the newest record of the source, which it is to replace |
| `PathautoGenerator.LeaveStoresAgain` | web/modules/contrib/pathauto/src/PathautoGenerator.php:205-273 | with existing aliases left in place, every update whose alias has not changed stores the same pair again |
| `PathautoGenerator.ReplacingStoresAgain` | web/modules/contrib/pathauto/src/AliasStorageHelper.php:122-147 | replacing can store a pair twice too, when an older alias of the source is written over the newest |
| `PathautoGenerator.ReplacingKeepsOneAlias` | web/modules/contrib/pathauto/src/AliasStorageHelper.php:122-147 | as long as no source has two records, updates that replace keep it so |
| `TokenTree.GetTokenData` | web/modules/contrib/token/src/TreeBuilder.php:212-266 | the loop over the tokens of a type builds the recursively defined tree |
| `TokenTree.TopEntryTexts` | web/modules/contrib/token/src/TreeBuilder.php:223-254 | how a node at the top of the tree is written: `[type:name]`, with `:?` behind the name of a dynamic token, and without a parent |
| `TokenTree.ChildTexts` | web/modules/contrib/token/src/TreeBuilder.php:240-262 | every child is written as its parent with its own name added, again with `:?` if dynamic, and names its parent by the text of that |
| `TokenTree.NodesAreListed` | web/modules/contrib/token/src/TreeBuilder.php:212-266 | every node of the tree stands for a chain of declared tokens within the depth that repeats no name but `entity` |
| `TokenTree.ListedHasNode` | web/modules/contrib/token/src/TreeBuilder.php:212-266 | every such chain has a node |
| `TokenValidator.GetInvalidTokens` | web/modules/contrib/token/src/Token.php:137-172 | the list holds the full tokens at exactly the places, in increasing order, of the tokens that are not valid |
| `TokenValidator.PrefixFound` | web/modules/contrib/token/src/Token.php:146-165 | a chained token is checked further under the name before its first colon, with what stands behind that colon |
| `TokenValidator.AcceptsIffValid` | web/modules/contrib/token/src/Token.php:137-172 | the validator, which works on text, accepts a chain exactly if each name is a token of the type the one before leads to, as far as the first dynamic token |
| `TokenValidator.TreeIsAccepted` | web/modules/contrib/token/src/TreeBuilder.php:212-266 | the validator accepts every token in the tree |
| `TokenValidator.TreeListsExactly` | web/modules/contrib/token/src/TreeBuilder.php:212-266 | a valid chain without dynamic tokens stands in the tree exactly if it is no longer than the depth and repeats no name but `entity`, however cyclic the types are |
| `FlatTokenTree.FlattenTree` | web/modules/contrib/token/src/TreeBuilder.php:187-196 | the loop merges each node and its flattened children into a table by raw token |
| `FlatTokenTree.PutAgain` | web/modules/contrib/token/src/TreeBuilder.php:190-190 | an entry under a key that is there takes the place of the old one |
| `FlatTokenTree.UnionKeeps` | web/modules/contrib/token/src/TreeBuilder.php:192-192 | merging changes no entry that is there and adds those under new keys |
| `FlatTokenTree.TreeDistinct` | web/modules/contrib/token/src/TreeBuilder.php:220-247 | no two nodes of a generated tree have the same raw token |
| `FlatTokenTree.FlatTreeKeepsNodes` | web/modules/contrib/token/src/TreeBuilder.php:187-266 | flattening a generated tree keeps every node, in the order of the tree read from top to bottom |
| `RedirectChain.FollowRedirects` | web/modules/contrib/decoupled_router/src/EventSubscriber/RedirectPathTranslatorSubscriber.php:49-102 | at most one lookup more than there are redirects; if the path asked for, without the slashes in front, has a redirect, the trace begins with it, and otherwise nothing is followed; the trace follows the redirects; the loop stops for a repeated target exactly if following the redirects never ends, and otherwise at a path without a redirect |
| `RedirectChain.NextIgnoresSlashes` | web/modules/contrib/decoupled_router/src/EventSubscriber/RedirectPathTranslatorSubscriber.php:66-78 | a path has the redirect of the key that is left when all slashes in front of it are taken away |
| `RedirectChain.TraceEntries` | web/modules/contrib/decoupled_router/src/EventSubscriber/RedirectPathTranslatorSubscriber.php:85-90 | entry number `i` of the trace leads from the target before it, or the start, to target number `i` |
| `RedirectChain.QueryPassedOn` | web/modules/contrib/decoupled_router/src/EventSubscriber/RedirectPathTranslatorSubscriber.php:140-145 | the query stands behind a question mark in the trace if it is to be passed through and is neither empty nor `0`, and is left out otherwise |
| `RedirectChain.TraceIsChain` | web/modules/contrib/decoupled_router/src/EventSubscriber/RedirectPathTranslatorSubscriber.php:85-90 | each entry of the trace starts where the one before led |
| `RedirectChain.TargetsAreValues` | web/modules/contrib/decoupled_router/src/EventSubscriber/RedirectPathTranslatorSubscriber.php:49-102 | there are no more different targets than redirects |

## Left out

- SubrequestExpansion.ExpansionTerminates: the recursion is modelled with a depth parameter; a depth of the number of braces is shown to be enough, and no larger depth changes the result.
- RowBlocks.SortGivesPreorder: the comparison function of the sort is not modelled; the sorted list of children is any permutation.
- TreeTable.Tree.Move: visibility is not recomputed by a move, and nothing is claimed about it until the rows are shown again; `roots` is not updated, so nothing is claimed about it after a move or a removal.
- TreeTable.Tree.LoadRows: a row that names itself as its parent, which the original makes its own child, is excluded, and so are ids used twice.
- TreeTable.Tree.LoadRow: the same holds for a single row.
- AliasCleaner.SeparatorsCleaned: separators of two or more characters, which the settings form does not allow, are not modelled.
- DataFetcher.PathTypesAreSound: names that are numeric without being all digits are treated like other names of lists.
- The aggregate sort of connections, which has no tie-break by id.
- Cache metadata, access results, messages, logging and events.
- Language fallback between aliases with and without a language, and alter hooks of other modules.
- Markup, punctuation, transliteration, ignored words and letter case in the cleaning of token values: one uninterpreted function before the separators are cleaned and one after.
- The caches of token information, of built trees and of patterns.
- The sorting of completions, their labels, and the example indices beyond the first three.
- Language prefixes, base paths and query conditions in redirect lookups.
- Rendering of expanders, indentation and branch classes in the tree table, and loading of branches below the last row of a node.
- Query helpers of single entity types, resolver registries, forms, controllers and list builders: no hard property.
