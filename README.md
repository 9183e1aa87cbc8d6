# Pokemonster list views, in Dafny

Pokemonster is a Next.js viewer for the PokeAPI. This project models the logic
inside its list pages and shared widgets, and proves properties about that logic.
The markup and styling are not modelled.

- **Pokemon list page** (`PokemonPage`). The whole collection is loaded once. An
  empty search shows one page of 24. A search shows every Pokemon whose
  lower-cased name contains the lower-cased query. Next/previous handlers move
  the offset, and a window of at most seven page-jump buttons follows the
  current page.
- **Locations and berries pages** (`ServerList`, `Locations`, `Berries`). The
  server returns one page of 20 at a time. Next/previous follow the server's
  `next`/`previous` links. The search narrows only the current page. A row's id
  comes from the URL regular expression `/\/(\d+)\//`; it is shown zero-padded
  to three characters, with hyphens in the name turned into spaces.
- **Older list component** (`PokemonList`). Previous/next buttons move the
  offset by 20. The id is read from the last non-empty path segment of the URL
  with `parseInt`, and shown as `padStart(4, '0')`.
- **`FieldError`** (`FieldError`). It de-duplicates form errors by message
  through a `Map`, then decides whether to show the children, one message, a
  list, or nothing.
- **Navigation bar** (`Navigation`). A link is highlighted on its own path and
  on every path beneath it.
- **GraphQL detail and species hooks** (`GraphqlHooks`). The `idOrName`
  argument becomes the `id` or the `name` variable, which makes up the cache
  key. The query runs only when enabled and when an id or a name is present.

Some modules model the JavaScript built-ins these rely on, restricted to the
inputs the application gives them:

- `Js`: `undefined`, and truthiness.
- `Text`: `toLowerCase`, `includes`, `startsWith`, `replaceAll`, `padStart`,
  `split`, `parseInt` and `toString`.
- `Paging`: `Math.ceil`/`Math.floor` page arithmetic, and `slice`.
- `Search`: the name filter.

State that React keeps in `useState` becomes a class whose handler methods
update its fields:

- `PokemonPage.PokemonListPage`;
- `ServerList.ServerListPage`;
- `PokemonList.PokemonListView`.

In the two page classes, `PokemonListPage` and `ServerListPage`, a query
result enters the model through a `ReceiveData` method that stores it in the
`data` field. `PokemonListView` keeps no response: the list response it
renders is a parameter of its `ClickPrevious` and `ClickNext` methods, which
may run only while the corresponding button is enabled. Everything computed
from expressions is a function, and the properties are lemmas about those
functions.

## Model

| member | source | states |
|---|---|---|
| Text.LowerChar | src/app/pokemon/page.tsx:43 | lower-casing a character leaves no upper-case letter, keeps every other character, and shifts A-Z onto a-z |
| Text.LowerProperties | src/app/pokemon/page.tsx:43 | `toLowerCase` keeps the length, leaves no upper-case letter and is idempotent |
| Text.IncludesIff | src/app/pokemon/page.tsx:43 | `includes` holds exactly when the query occurs at some index of the name (both directions) |
| Text.IncludesEmpty | src/app/pokemon/page.tsx:43 | every string includes the empty query |
| Text.IncludesBounds | src/app/pokemon/page.tsx:43 | a string includes only strings no longer than itself |
| Text.AbsentFirstChar | src/app/pokemon/page.tsx:43 | a string lacking the first character of the query does not include it |
| Text.JoinExtendLast | src/components/pokemon/pokemon-list.tsx:65 | extending the last piece by one character extends the joined string by that character |
| Text.ReplaceChar | src/app/locations/page.tsx:144 | replacing a character keeps the length, substitutes exactly at the positions of that character, and leaves none of it |
| Text.PadStart | src/app/pokemon/page.tsx:191 | `padStart(n, c)` has length max(n, len), ends with the original string and is pad characters before it |
| Text.NatToString | src/app/pokemon/page.tsx:56 | `String(id)` is a non-empty digit string without a leading zero |
| Text.NatToStringRoundTrip | src/app/pokemon/page.tsx:56 | reading back the numeral that `String(id)` writes gives the id |
| Text.DigitRun | src/components/pokemon/pokemon-list.tsx:64-67 | the leading digit run is all digits and is followed by a non-digit or the end |
| Text.ParseInt | src/components/pokemon/pokemon-list.tsx:64-67 | `parseInt` gives NaN exactly when the string is empty or does not start with a digit |
| Text.ParseIntDigits | src/components/pokemon/pokemon-list.tsx:64-67 | on a numeral, `parseInt` gives its value |
| Text.Split | src/components/pokemon/pokemon-list.tsx:65 | `split('/')` yields at least one piece and no piece contains the separator |
| Text.SplitJoin | src/components/pokemon/pokemon-list.tsx:65 | joining the pieces of a split with the separator restores the string |
| Text.SplitAppendWord | src/components/pokemon/pokemon-list.tsx:65 | appending separator + separator-free word appends exactly that piece |
| Text.SplitTrailingSeparator | src/components/pokemon/pokemon-list.tsx:65 | a trailing slash adds exactly one empty piece |
| Paging.TotalPages | src/app/pokemon/page.tsx:47 | `Math.ceil(count / size)` pages hold all items, one page fewer would not, and it is 0 exactly for an empty collection |
| Paging.TotalPagesIsLeast | src/app/pokemon/page.tsx:47 | no smaller page count holds all items |
| Paging.CurrentPage | src/app/pokemon/page.tsx:48 | `Math.floor(offset / size) + 1` is the page whose item range contains the offset, at least 1 for a non-negative offset |
| Paging.CurrentPageOfMultiple | src/app/pokemon/page.tsx:48 | an offset of k whole pages is page k + 1 |
| Paging.CurrentPageWithinTotal | src/app/locations/page.tsx:34-35 | for an in-range whole-page offset "page X of Y" has 1 <= X <= Y, and X = 1, Y = 0 for an empty collection |
| Paging.PageStartInRange | src/app/pokemon/page.tsx:230 | page n starts before the end of the collection exactly when n <= totalPages, for every n |
| Paging.Slice | src/app/pokemon/page.tsx:39 | `slice(start, end)` has length max(0, min(end, len) - start) and is the items from `start` on |
| Paging.ShownRange | src/app/pokemon/page.tsx:244 | the "shown a - b" bounds are offset + 1 and whichever of the total and offset + size is smaller, so they span less than a page and are ordered for an in-range offset |
| Paging.ThirtyFourItemsExample | src/app/locations/page.tsx:34-35 | 34 items in pages of 20 at offset 0 is page 1 of 2 |
| Search.NameMatches | src/app/pokemon/page.tsx:42-44 | the empty query matches every name, and a query longer than the name never matches |
| Search.NameMatchesIff | src/app/pokemon/page.tsx:42-44 | a name matches exactly when its lower-cased form contains the lower-cased query somewhere |
| Search.Keep | src/app/locations/page.tsx:40-42 | `Array.prototype.filter` keeps no more items than it is given, and only accepted ones |
| Search.KeepPositions | src/app/locations/page.tsx:40-42 | the kept items sit at increasing positions, and a position is kept exactly when its item is accepted |
| Search.ShiftPositions | src/app/locations/page.tsx:40-42 | positions in the tail of a list move up by one, increasing, with the same membership |
| Search.PrependSorted | src/app/locations/page.tsx:40-42 | position 0 in front of increasing positive positions keeps them increasing |
| Search.ConsKeepValues | src/app/locations/page.tsx:40-42 | the kept items of a list sit at the positions built from those of its tail |
| Search.ConsKeepMembers | src/app/locations/page.tsx:40-42 | a position of a list is kept exactly when its item is accepted, given the same for its tail |
| Search.KeepAll | src/app/locations/page.tsx:40-42 | a filter accepting every item returns the list unchanged |
| Search.KeepAppend | src/app/locations/page.tsx:40-42 | filtering a concatenation concatenates the filtered parts |
| Search.Filter | src/app/locations/page.tsx:40-42 | the name filter keeps no more items than it is given, and only matching ones |
| Search.FilterPositions | src/app/locations/page.tsx:40-42 | the kept items sit at increasing positions, and a position is kept exactly when its item matches |
| Search.FilterKeepsMatches | src/app/locations/page.tsx:40-42 | every matching item is kept |
| Search.FilterEmptyQuery | src/app/locations/page.tsx:40-42 | with an empty query the list is unchanged |
| Search.FilterAppend | src/app/locations/page.tsx:40-42 | filtering a concatenation concatenates the filtered parts |
| PokemonPage.VisiblePokemon | src/app/pokemon/page.tsx:36-45 | without a query, the page of at most 24 items from the offset; with one, every matching Pokemon and only those |
| PokemonPage.BrowsingShowsAtMostOnePage | src/app/pokemon/page.tsx:37-40 | browsing never shows more than 24, and shows the collection's slice from the offset |
| PokemonPage.SearchShowsAllMatches | src/app/pokemon/page.tsx:41-44 | a search ignores the offset and shows every match of the whole collection, in order, and nothing else |
| PokemonPage.PageButtons | src/app/pokemon/page.tsx:212-222 | min(totalPages, 7) consecutive buttons, all real pages, including the current page when it is one |
| PokemonPage.PageButtonsClampedWindow | src/app/pokemon/page.tsx:214-222 | beyond seven pages the window starts at max(1, min(current - 3, total - 6)) and centres the current page away from the ends |
| PokemonPage.PageButtonsExamples | src/app/pokemon/page.tsx:212-222 | 20 pages: page 10 shows 7..13 and page 19 shows 14..20; 5 pages show 1..5 |
| PokemonPage.CharMatches | src/app/pokemon/page.tsx:42-44 | "char" matches charmander and charizard but not squirtle |
| PokemonPage.SearchExample | src/app/pokemon/page.tsx:41-44 | searching "char" among charmander, squirtle and charizard shows charmander and charizard, in order |
| PokemonPage.KeepFirstAndLast | src/app/pokemon/page.tsx:42-44 | a filter that accepts the outer two of three items keeps exactly those, in order |
| PokemonPage.IdBadge | src/app/pokemon/page.tsx:191 | the badge is the id's numeral left-padded with zeros to at least three characters |
| PokemonPage.PokemonListPage.constructor | src/app/pokemon/page.tsx:24-25 | the page starts with an empty search at offset 0 and no data |
| PokemonPage.PokemonListPage.TotalPages | src/app/pokemon/page.tsx:47 | the fewest pages of 24 that hold the whole collection |
| PokemonPage.PokemonListPage.CurrentPage | src/app/pokemon/page.tsx:48 | the page whose range holds the offset; in a valid state it is at least 1 and starts exactly at the offset |
| PokemonPage.PokemonListPage.HasNext | src/app/pokemon/page.tsx:49 | in a valid state, true exactly when the current page is before the last one |
| PokemonPage.PokemonListPage.HasPrevious | src/app/pokemon/page.tsx:50 | in a valid state, true exactly when the current page is after the first |
| PokemonPage.PokemonListPage.FilteredPokemon | src/app/pokemon/page.tsx:36-45 | browsing shows exactly min(24, collection size - offset) Pokemon (none past the end), those from the offset on; a search shows every matching Pokemon and only those |
| PokemonPage.PokemonListPage.PageNumbers | src/app/pokemon/page.tsx:212-222 | min(totalPages, 7) real pages, with the current page among them in every reachable state |
| PokemonPage.PokemonListPage.PaginationShown | src/app/pokemon/page.tsx:139-201 | in every reachable state, shown exactly when the grid is not empty, no search is active and there is more than one page; when shown, the offset lies inside the collection |
| PokemonPage.PokemonListPage.ReceiveData | src/app/pokemon/page.tsx:28-31 | a response replaces the data and leaves search and offset alone |
| PokemonPage.PokemonListPage.HandleSearchChange | src/app/pokemon/page.tsx:69-72 | a new query resets to the first page, which is always in range |
| PokemonPage.PokemonListPage.HandleNextPage | src/app/pokemon/page.tsx:77-81 | moves one page forward only when there is a next page, keeping the offset whole and in range |
| PokemonPage.PokemonListPage.HandlePreviousPage | src/app/pokemon/page.tsx:86-90 | moves one page back, floored at 0, only when there is a previous page, keeping the offset whole and in range |
| PokemonPage.PokemonListPage.HandlePageClick | src/app/pokemon/page.tsx:230 | a page-jump button sets the offset to that page's start, which becomes the current page and is in range |
| PokemonPage.CurrentPageButtonShown | src/app/pokemon/page.tsx:212-224 | in every reachable state the current page is a real page and has a button, and an empty collection is page 1 of 0 at offset 0 |
| ServerList.MatchIsDigitRun | src/app/locations/page.tsx:48 | a match's capture is the whole digit run after its slash |
| ServerList.MatchesAtIff | src/app/locations/page.tsx:48 | the executable match test at a position holds exactly when the pattern "/digits/" starts there |
| ServerList.MatchFromHere | src/app/locations/page.tsx:48 | at a matching position the capture is the non-empty digit run after the slash |
| ServerList.MatchFrom | src/app/locations/page.tsx:48 | the scan from a position returns a digit string |
| ServerList.MatchFromIsLeftmost | src/app/locations/page.tsx:48 | the scan returns the capture of a match at or after the position with no match between the two, and returns "" only when no match is left |
| ServerList.ResourceId | src/app/locations/page.tsx:47-50 | the extracted id is all digits |
| ServerList.ResourceIdIsFirstMatch | src/app/locations/page.tsx:47-50 | the id is "" exactly when no "/digits/" segment occurs, and otherwise is the capture of the leftmost one |
| ServerList.ResourceIdOfDetailUrl | src/app/locations/page.tsx:47-50 | a URL ending in "/n/" with no earlier "/digits/" segment yields n's numeral |
| ServerList.DisplayName | src/app/locations/page.tsx:144 | hyphens become spaces, every other character is kept, and no hyphen remains |
| ServerList.IdBadge | src/app/locations/page.tsx:141 | the id left-padded with zeros to at least three characters, ending with the id |
| ServerList.ServerListPage.constructor | src/app/locations/page.tsx:21-22 | a page starts with an empty search at offset 0 and no data |
| ServerList.ServerListPage.TotalPages | src/app/locations/page.tsx:30-34 | the fewest pages that hold the server's total (`count || 0`), and 0 before the first response |
| ServerList.ServerListPage.CurrentPage | src/app/locations/page.tsx:35 | the page that starts at the offset, at least 1 |
| ServerList.ServerListPage.FilteredResults | src/app/locations/page.tsx:29-42 | nothing before the first response (`results || []`); without a query the current page unchanged; with one, exactly the matching entries of the current page |
| ServerList.ServerListPage.PaginationShown | src/app/locations/page.tsx:113-154 | shown exactly when no search is active, the server page is not empty and the server sent a non-empty next or previous link; when shown, the table is the whole server page |
| ServerList.ServerListPage.ReceiveData | src/app/locations/page.tsx:24-32 | a response replaces the data and leaves search and offset alone |
| ServerList.ServerListPage.HandleSearchChange | src/app/locations/page.tsx:55-58 | a new query resets to offset 0 |
| ServerList.ServerListPage.HandleNextPage | src/app/locations/page.tsx:31-67 | moves one page forward exactly when the server sent a non-empty next link (`!!next`), keeping the offset whole |
| ServerList.ServerListPage.HandlePreviousPage | src/app/locations/page.tsx:32-76 | moves one page back, floored at 0, exactly when the server sent a non-empty previous link (`!!previous`), keeping the offset whole |
| ServerList.SearchIsPageLocal | src/app/locations/page.tsx:40-42 | the search shows the current server page unchanged when empty and otherwise only matching entries of that page |
| Locations.NewLocationsPage | src/app/locations/page.tsx:14-22 | the page starts empty at offset 0 with pages of 20 |
| Locations.GetLocationId | src/app/locations/page.tsx:47-50 | the id is "" exactly when no "/digits/" segment occurs, otherwise the digits of the leftmost one |
| Locations.LocationName | src/app/locations/page.tsx:144 | `replaceAll('-', ' ')`: hyphens become spaces and nothing else changes |
| Locations.LocationBadge | src/app/locations/page.tsx:141 | `padStart(3, '0')` of the id |
| Berries.NewBerriesPage | src/app/berries/page.tsx:16-24 | the page starts empty at offset 0 with pages of 20 |
| Berries.GetBerryId | src/app/berries/page.tsx:49-52 | the id is "" exactly when no "/digits/" segment occurs, otherwise the digits of the leftmost one |
| Berries.BerryName | src/app/berries/page.tsx:146 | `replace(/-/g, ' ')`: hyphens become spaces and nothing else changes |
| Berries.BerryBadge | src/app/berries/page.tsx:143 | `padStart(3, '0')` of the id |
| PokemonList.NonEmpty | src/components/pokemon/pokemon-list.tsx:65 | `filter(Boolean)` keeps exactly the non-empty pieces of the input |
| PokemonList.NonEmptyAppend | src/components/pokemon/pokemon-list.tsx:65 | filtering a concatenation concatenates the filtered parts, so order is kept |
| PokemonList.Segments | src/components/pokemon/pokemon-list.tsx:65 | the URL's segments are non-empty and slash-free, and every non-empty piece of the split is among them |
| PokemonList.ExtractId | src/components/pokemon/pokemon-list.tsx:64-67 | 0 when there is no segment, and NaN exactly when the last segment does not start with a digit |
| PokemonList.ParseIntOfZero | src/components/pokemon/pokemon-list.tsx:66 | the fallback "0" parses as 0 |
| PokemonList.ExtractIdLastSegment | src/components/pokemon/pokemon-list.tsx:64-67 | the id is `parseInt` of the last path piece, whatever precedes it |
| PokemonList.ExtractIdLeadingZeros | src/components/pokemon/pokemon-list.tsx:64-67 | ".../025/" gives 25 |
| PokemonList.ExtractIdOfName | src/components/pokemon/pokemon-list.tsx:64-67 | ".../pikachu/" gives NaN |
| PokemonList.ExtractIdDigitPrefix | src/components/pokemon/pokemon-list.tsx:64-67 | ".../12abc" gives 12, as `parseInt` stops at the first non-digit |
| PokemonList.ParseIntOf025 | src/components/pokemon/pokemon-list.tsx:66 | `parseInt("025")` is 25 |
| PokemonList.ParseIntOf12abc | src/components/pokemon/pokemon-list.tsx:66 | `parseInt("12abc")` is 12 |
| PokemonList.ExtractIdTrailingSlash | src/components/pokemon/pokemon-list.tsx:64-67 | a trailing slash does not change the id |
| PokemonList.ExtractIdWithoutSegments | src/components/pokemon/pokemon-list.tsx:64-67 | a URL of slashes only falls back to `'0'` and gives id 0 |
| PokemonList.ExtractIdOfDetailUrl | src/components/pokemon/pokemon-list.tsx:64-67 | the id read from ".../n/" is n |
| PokemonList.IdLabel | src/components/pokemon/pokemon-list.tsx:78 | the label is the id's numeral left-padded with zeros to at least four characters, and "0NaN" for NaN |
| PokemonList.ShownRange | src/components/pokemon/pokemon-list.tsx:93 | "Showing a - b of n" starts at offset + 1 and ends at whichever of n and offset + 20 is smaller, so it spans less than 20 |
| PokemonList.PokemonListView.constructor | src/components/pokemon/pokemon-list.tsx:23 | the offset starts at 0 |
| PokemonList.PokemonListView.ClickPrevious | src/components/pokemon/pokemon-list.tsx:87-88 | Previous can be clicked only with a non-empty previous link and while not loading; it moves back 20, floored at 0, keeping the offset whole |
| PokemonList.PokemonListView.ClickNext | src/components/pokemon/pokemon-list.tsx:98-99 | Next can be clicked only with a non-empty next link and while not loading; it moves forward 20, keeping the offset whole |
| FieldError.MapSet | src/components/ui/field.tsx:184 | `Map.set` appends a new key, keeps an existing key's place, and stores the value |
| FieldError.MessageMap | src/components/ui/field.tsx:184 | the map built from `[message, error]` pairs is well formed (distinct keys, matching domain) |
| FieldError.MapValues | src/components/ui/field.tsx:184 | `map.values()` lists the value stored under each key, in key order |
| FieldError.UniqueErrors | src/components/ui/field.tsx:184 | one error per key, in key order, each taken from the list and carrying its key's message, with pairwise distinct messages |
| FieldError.UniqueErrorsCover | src/components/ui/field.tsx:184 | every message of the list is represented among the unique errors |
| FieldError.MapValuesCarryKeys | src/components/ui/field.tsx:184 | the value under each key is an error of the list carrying that message |
| FieldError.MessageMapKeys | src/components/ui/field.tsx:184 | the keys are exactly the messages that occur, with `undefined` as one key |
| FieldError.OccursStep | src/components/ui/field.tsx:184 | a message occurs in a list exactly when it occurs before the last error or is the last error's message |
| FieldError.MessageMapKeysStep | src/components/ui/field.tsx:184 | one more error adds its message to the keys and nothing else |
| FieldError.MessageMapLastWins | src/components/ui/field.tsx:184 | each key holds the last error carrying that message |
| FieldError.LastWinsStep | src/components/ui/field.tsx:184 | after one more error each key still holds the last error carrying its message |
| FieldError.LastWithKept | src/components/ui/field.tsx:184 | appending an error with another message keeps the last holder of a message |
| FieldError.MessageMapFirstOccurrenceOrder | src/components/ui/field.tsx:184 | keys are ordered by the first occurrence of their message |
| FieldError.FirstOccurrenceStep | src/components/ui/field.tsx:184 | after one more error, an earlier key's message still occurs before any occurrence of a later key's message |
| FieldError.SameMessageOneKey | src/components/ui/field.tsx:184 | errors that all share one message leave exactly one key |
| FieldError.DuplicateMessagesUnique | src/components/ui/field.tsx:184 | "Required", "Too short", "Required" leave two unique errors in first-occurrence order |
| FieldError.ListItems | src/components/ui/field.tsx:192 | list items are non-empty, each is the message of some unique error, and every present message is listed |
| FieldError.ListItemsDistinct | src/components/ui/field.tsx:192 | items from distinct messages are distinct |
| FieldError.ListItemsAppend | src/components/ui/field.tsx:192 | the list keeps the order of the entries: items of a concatenation are the concatenated items |
| FieldError.ErrorContent | src/components/ui/field.tsx:175-195 | children win; no errors give nothing; one message means every error carries it; a list means two errors differ, and its items are distinct |
| FieldError.FalsyContentIff | src/components/ui/field.tsx:175-199 | the content is falsy exactly without children and with errors absent or all carrying one missing or empty message |
| FieldError.Rendered | src/components/ui/field.tsx:197-199 | renders the truthy content, and renders nothing exactly without children and with errors absent or all carrying one missing or empty message |
| FieldError.ChildrenWin | src/components/ui/field.tsx:176-178 | truthy children are shown whatever the errors |
| FieldError.NoErrorsRenderNothing | src/components/ui/field.tsx:180-182 | without children, a missing or empty error list renders nothing |
| FieldError.OneMessageShown | src/components/ui/field.tsx:186-188 | errors that share one message show that message, or nothing when it is missing or empty |
| FieldError.SeveralMessagesListed | src/components/ui/field.tsx:190-194 | two or more unique errors show a list of their present messages, each once |
| FieldError.DuplicateMessagesExample | src/components/ui/field.tsx:184-194 | duplicate messages are listed once each, in first-occurrence order |
| FieldError.MissingAndEmptyUnique | src/components/ui/field.tsx:184 | a missing and an empty message are two keys, so both errors stay |
| FieldError.EmptyListStillShown | src/components/ui/field.tsx:190-199 | with a missing and an empty message the list branch is taken, and the empty list is still rendered |
| Navigation.IsActive | src/components/navigation.tsx:66 | an active link's path is a prefix of the current path |
| Navigation.ActiveFlags | src/components/navigation.tsx:65-66 | one flag per link, lit exactly on the link's own path or beneath it, and never two at once |
| Navigation.ActiveIffOwnOrBeneath | src/components/navigation.tsx:66 | a link is active exactly on its own path or on `href + "/" + rest` |
| Navigation.EveryItemOwnOrBeneath | src/components/navigation.tsx:65-66 | every link is active exactly on its own path or beneath it |
| Navigation.NoMatchWithoutBoundary | src/components/navigation.tsx:66 | a path extending a link's path without a `/` does not activate it |
| Navigation.AtMostOneActive | src/components/navigation.tsx:18-22 | at most one of the three links is active on any path |
| Navigation.ActiveExamples | src/components/navigation.tsx:66 | "/pokemon" and "/berries/12" activate their own link only; "/" and "/pokemonx" activate none |
| GraphqlHooks.JsNumber | src/services/graphql/hooks.ts:37 | `Number` is defined exactly on digit strings, gives 0 for "", and agrees with `parseInt` otherwise |
| GraphqlHooks.IsNumeric | src/services/graphql/hooks.ts:37 | numbers and digit strings, the empty string among them, are numeric |
| GraphqlHooks.Classify | src/services/graphql/hooks.ts:37-39 | `id` is defined exactly for numeric arguments, and exactly one of `id` and `name` is defined |
| GraphqlHooks.MakeQuery | src/services/graphql/hooks.ts:37-50 | the key carries the request's variables; exactly one of `id` and `name` is set; numbers and digit strings go to `id`, other strings to `name`; the query runs exactly when the flag is set and the argument is not zero |
| GraphqlHooks.PokemonDetailQuery | src/services/graphql/hooks.ts:36-50 | the detail hook's key kind is `pokemon-detail-graphql` |
| GraphqlHooks.PokemonSpeciesQuery | src/services/graphql/hooks.ts:60-74 | the species hook's key kind is `pokemon-species-graphql` |
| GraphqlHooks.NumberGoesToId | src/services/graphql/hooks.ts:37-38 | a number argument becomes `id` unchanged |
| GraphqlHooks.DigitStringGoesToId | src/services/graphql/hooks.ts:37-38 | a digit string becomes the `id` it spells |
| GraphqlHooks.OtherStringGoesToName | src/services/graphql/hooks.ts:39 | any other string becomes `name` unchanged, and is non-empty |
| GraphqlHooks.EnabledIff | src/services/graphql/hooks.ts:49 | the query is enabled exactly when the flag is set and the argument is not zero-valued |
| GraphqlHooks.ZeroAndEmptyDisabled | src/services/graphql/hooks.ts:73 | "0", "" and 0 disable the query; "25" enables it |
| GraphqlHooks.NumeralSharesKey | src/services/graphql/hooks.ts:42 | a number and its numeral give the same key, variables and enabled flag |
| GraphqlHooks.KeyDeterminesVariables | src/services/graphql/hooks.ts:42-47 | equal cache keys mean equal request variables |
| GraphqlHooks.DetailAndSpeciesKeysDiffer | src/services/graphql/hooks.ts:66 | a detail query and a species query never share a key |

## Left out

- Rendering, styling, icons, images and the marquee are not modelled; only the values the markup displays are.
- Fetching is not modelled: `useQuery`, the GraphQL client, the generated REST hooks, loading flags and error screens. A resolved query enters through `ReceiveData` (or, in `PokemonListView`, as a parameter of the click handlers), and stale or out-of-order responses are not modelled.
- `usePokemonListGraphQL` in hooks.ts is not modelled. It only forwards `limit` and `offset` into its key and request.
- Text.Lower: lower-cases ASCII letters only, because full Unicode case mapping is not available here. Other characters are kept unchanged.
- Text.ParseInt: covers only strings that start with their digits. Leading whitespace, signs and other radixes are not modelled. The URLs involved never contain them.
- GraphqlHooks.JsNumber: takes only digit strings (and "") as numeric and treats every other string as NaN. JavaScript's `Number` also accepts whitespace, signs, decimals, exponents and hex. Such arguments become `name` here, where JavaScript would give an `id`.
- GraphqlHooks.Classify: number arguments are integers. Floating-point ids and `NaN` numbers are not modelled.
- FieldError: `children` is modelled as an optional string, truthy when present and non-empty. Other React nodes are not modelled.
- PokemonPage.PokemonListPage.ReceiveData: the in-range invariant (offset 0 or before the end) is preserved only when the new total does not shrink. A response with a smaller count can leave the offset past the end, as in the source.
- PokemonPage.PokemonListPage.HandlePageClick: the page number must be one of the rendered buttons, since only those can be clicked. The code does not clamp out-of-range page numbers, and the model follows the code.
- PokemonList.PokemonListView.ClickNext: no upper bound on the offset is stated. The button is enabled by the server's `next` link, not by the count.
