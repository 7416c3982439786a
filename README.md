# Game catalogue page: a verified model of its core

The page shows a catalogue of games read from a JSON file. It is a
single-page application driven by the URL fragment (the "hash"):

- `#about` (or no hash) shows the about section.
- `#games` shows the list. The list is filtered by a search box and sorted
  by a select box with five keys: original, price-asc, price-desc,
  alpha-asc and alpha-desc.
- `#game/<id>` shows one game's details, or a message when the catalogue
  is empty or the id is unknown. An unknown id also schedules a redirect
  back to `#games`.
- Any other hash is rewritten to `#about`.

Every game gets a deterministic id when the data is loaded: the slug of
its name (or `unnamed-game`), a hyphen, and its position in the file.
Clicking a list item writes `#game/` followed by the percent-encoded id.

The model follows `js/script.js` file section by file section:

| file | module | what it holds |
|---|---|---|
| wrappers.dfy | `Wrappers` | `Option` |
| text.dfy | `Text` | ASCII `toLowerCase`, the `\w` and `\s` classes, decimal numerals, `String.prototype.includes` |
| slug.dfy | `Slug` | `slugify`, pass by pass |
| uri.dfy | `UriComponent` | `encodeURIComponent` / `decodeURIComponent` over UTF-8, with `None` for the `URIError` |
| catalogue.dfy | `Catalogue` | games, entries with ids, id assignment, `Array.prototype.find` by id |
| steam.dfy | `SteamLink` | `getSteamAppId` |
| price.dfy | `Price` | `parsePrice`, with exact reals and `Infinite` for `Infinity` |
| stablesort.dfy | `StableSort` | a stable sort under any consistent comparator, as `Array.prototype.sort` must be (section 23.1.3.30 of ECMA-262), plus its in-place array version |
| sorting.dfy | `Sorting` | the five sort keys and their comparators |
| gamelist.dfy | `GameList` | filter, sort and message selection of `filterAndPopulateGameList` |
| router.dfy | `Router` | hash classification, the detail outcome, the click hash |
| app.dfy | `App` | the page state, its event transitions, and the class `Page` whose methods update it step by step; `LoadFailed`, `FilterAndPopulateGameList` and `NavGamesClick` carry the corrections of the two findings below, and the source's own behaviour is kept in `GameList.ListOutcomeAsWritten` and `App.AfterNavGamesAsWritten` |

The pure transitions in `App` (`RouteChange`, `AfterLoad`, …) specify
the methods of `App.Page`. The invariant `App.Coherent` says that what is
on screen agrees with the state: the list section shows the list for the
current controls, the detail section shows the outcome for the hash's id,
and the active button matches the section.

## Model

| member | source | states |
|---|---|---|
| Text.Lower | js/script.js:23 | the result has the input's length and no upper-case letter; each upper-case letter becomes its lower-case partner in place, every other character is kept, and `\w` and `\s` membership is unchanged |
| Text.LowerIdempotent | js/script.js:23 | lower-casing twice is lower-casing once |
| Text.LowerAppend | js/script.js:23 | lower-casing distributes over concatenation |
| Text.LowerCharWord | js/script.js:23-25 | lower-casing keeps a character in or out of `\w`, and leaves no upper-case letter |
| Text.Decimal | js/script.js:52 | the numeral written for an index is non-empty, all digits, and has no leading zero unless the index is 0 |
| Text.DecimalRoundTrip | js/script.js:52 | the decimal numeral written for an index reads back as that index |
| Text.DecimalInjective | js/script.js:52 | distinct indices get distinct numerals |
| Text.IncludesIff | js/script.js:150 | `includes` holds exactly when the needle occurs at some position |
| Text.IncludesTransitive | js/script.js:150 | a haystack that includes a string includes everything that string includes |
| Text.IncludesEmpty | js/script.js:150 | every string includes the empty string |
| Slug.Slugify | js/script.js:21-29 | the result uses only `[a-z0-9_-]`, has no `--`, and neither starts nor ends with `-` |
| Slug.SkipRun | js/script.js:24-28 | skipping a run leaves a suffix that does not start with the run's character class, and everything skipped belonged to it |
| Slug.TrimEnd | js/script.js:28 | trimming trailing hyphens leaves a prefix that does not end with `-`, and everything removed is a hyphen |
| Slug.ReplaceRunsChars | js/script.js:24-26 | each character after run replacement is `-` or a character of the input outside the run class |
| Slug.StripNonWordChars | js/script.js:25 | after stripping, every character is a word character or `-` taken from the input |
| Slug.ReplaceRunsHead | js/script.js:24-26 | the first character after run replacement is `-` exactly when the input starts with a run |
| Slug.ReplaceHyphensNoDouble | js/script.js:26 | collapsing hyphen runs leaves no `--` |
| Slug.TrimmedIsSlug | js/script.js:27-28 | trimming both ends of a string over the slug alphabet without `--` yields a slug |
| Slug.ReplaceRunsNoRun | js/script.js:24-26 | run replacement leaves a string with no run character unchanged |
| Slug.ReplaceHyphensSingle | js/script.js:26 | collapsing hyphen runs leaves a string without `--` unchanged |
| Slug.StripNonWordKept | js/script.js:25 | stripping leaves a string of word characters and hyphens unchanged |
| Slug.SlugFixpoint | js/script.js:21-29 | `slugify` leaves every slug unchanged |
| Slug.SlugifyIdempotent | js/script.js:21-29 | `slugify(slugify(x)) == slugify(x)` |
| Slug.WordsAppend | js/script.js:21-29 | the word characters of a concatenation are those of its parts, in order |
| Slug.WordsEmptyIff | js/script.js:21-29 | a string has no word characters exactly when none of its characters is in `\w` |
| Slug.RunCharNotWord | js/script.js:24-26 | whitespace and hyphens are not word characters |
| Slug.WordsSkipRun | js/script.js:27-28 | skipping a run of whitespace or hyphens loses no word character |
| Slug.WordsReplaceRuns | js/script.js:24-26 | replacing runs by `-` loses no word character and adds none |
| Slug.WordsStripNonWord | js/script.js:25 | stripping non-word characters keeps every word character |
| Slug.WordsTrimEnd | js/script.js:28 | trimming trailing hyphens keeps every word character |
| Slug.SlugifyWords | js/script.js:21-29 | the word characters of the slug are exactly those of the lower-cased text, in order |
| Slug.SlugifyEmptyIff | js/script.js:21-29 | the slug is empty exactly when the text has no word character, which is when the `unnamed-game` fallback applies |
| Slug.SlugHyphenDigits | js/script.js:52 | a non-empty slug, a hyphen and a numeral form a slug |
| UriComponent.HexValue | js/script.js:248 | a hexadecimal digit's value lies in 0..15 |
| UriComponent.EscapeAll | js/script.js:224 | each byte is written as three characters |
| UriComponent.ReadEscape | js/script.js:248 | an escape is read only from a `%` followed by two more characters |
| UriComponent.ReadContinuations | js/script.js:248 | the continuation bytes read are as many as asked for, all of the form `10xxxxxx` |
| UriComponent.HexRoundTrip | js/script.js:248 | a hexadecimal digit written for a value reads back as that value |
| UriComponent.ReadEscapeOf | js/script.js:248 | an escape written for a byte reads back as that byte |
| UriComponent.ReadContinuationsOf | js/script.js:248 | written continuation bytes read back unchanged |
| UriComponent.Utf8Decodes | js/script.js:248 | the UTF-8 form of a non-ASCII character has a well-formed lead byte and continuations, and decodes to a scalar of minimal length |
| UriComponent.DecodeEncodedChar | js/script.js:248 | decoding an encoded character yields that character followed by the decoding of the rest |
| UriComponent.DecodeEncode | js/script.js:248 | `decodeURIComponent(encodeURIComponent(s)) == s` for every string |
| UriComponent.EncodeUnreserved | js/script.js:224 | the encoder leaves a string of unreserved characters unchanged |
| UriComponent.DecodeNoEscape | js/script.js:248 | the decoder leaves a string without `%` unchanged |
| UriComponent.MalformedEscapes | js/script.js:248 | a truncated escape, a non-hex escape, an overlong form and a surrogate are rejected |
| Catalogue.BaseSlug | js/script.js:46-50 | the base of an id is always a non-empty slug |
| Catalogue.AssignIds | js/script.js:44-57 | each entry keeps its record; its id is a slug that starts with the record's base and `-`, reads back as its position, and differs from every other entry's id |
| Catalogue.AfterLastHyphenOf | js/script.js:52 | the text after the last hyphen of base-tail is the tail when the tail has no hyphen |
| Catalogue.IndexOfEntryId | js/script.js:52 | the position can be read back from the end of an id |
| Catalogue.EntryIdIsSlug | js/script.js:46-52 | every id is a slug that starts with its base and a hyphen |
| Catalogue.BaseSlugCases | js/script.js:46-50 | the base is the slug of the name when the name has a word character, and `unnamed-game` otherwise |
| Catalogue.FindFrom | js/script.js:266 | the search from a position finds the first entry with the id at or after it, or reports that there is none |
| Catalogue.FindById | js/script.js:266 | `find` returns the first entry whose id matches, and nothing exactly when no entry matches |
| Catalogue.FindAssignedId | js/script.js:266 | looking up a loaded entry's id finds that entry's own position |
| SteamLink.DigitRun | js/script.js:113 | the digit run ends at the end of the link or at a non-digit |
| SteamLink.DigitRunExact | js/script.js:113 | a run of digits followed by a non-digit is the whole digit run |
| SteamLink.MatchAt | js/script.js:113 | a match tried at one position is the pattern there, and a failure means no match there |
| SteamLink.PatternShape | js/script.js:113 | a match is `/app/`, the whole digit run, then `/` |
| SteamLink.MatchesAtShape | js/script.js:113 | the pattern matches at a position exactly when `/app/`, a non-empty digit run and `/` follow it |
| SteamLink.Search | js/script.js:113 | the search returns the digits of the leftmost match at or after a position, or there is none |
| SteamLink.SteamAppId | js/script.js:111-115 | a missing or empty link gives null, and any result is a non-empty string of digits |
| SteamLink.OutsideNoMatch | js/script.js:113 | no match starts outside the link |
| SteamLink.SteamAppIdSpec | js/script.js:111-115 | null exactly when no position matches; otherwise the digits of the leftmost match |
| SteamLink.PatternDigitsUnique | js/script.js:113 | at one position at most one digit string matches |
| Price.KeepPriceChars | js/script.js:159 | the first replace keeps only digits, `$` and `.`, and never lengthens the text |
| Price.KeepPriceCharsAppend | js/script.js:159 | the first replace works character by character: it distributes over concatenation and keeps a single character exactly when it is a price character, so its result is the input's price characters in order |
| Price.KeepPriceCharsNone | js/script.js:159 | text without price characters is removed entirely |
| Price.NoiseIgnored | js/script.js:156-161 | text without price characters before or after a price (such as a currency code) does not change its parsed value |
| Price.LeadingDigits | js/script.js:159 | the leading digits are the longest all-digit prefix |
| Price.FractionDigits | js/script.js:159 | after a leading `.` the fraction part is the whole run of digits that follows it; without a leading `.` it is empty |
| Price.ParsePrice | js/script.js:156-161 | a price that is not a string is Infinity, "free" in any case is 0, and a finite price is never negative |
| Price.ParsePriceFiniteIff | js/script.js:156-161 | a string price is finite exactly when it is "free" in any case or its cleaned text starts a number |
| Price.KeepPriceCharsAll | js/script.js:159 | the first replace leaves a string of price characters unchanged |
| Price.LeadingDigitsOf | js/script.js:159 | the leading digits of digits followed by a non-digit are those digits |
| Price.CleanDollar | js/script.js:159 | cleaning `$` followed by digits and dots drops only the `$` |
| Price.ParseDecimalText | js/script.js:159 | `parseFloat` of digits, a dot and digits is that decimal's exact value |
| Price.NotFree | js/script.js:158 | a price starting with `$` is never "free" |
| Price.TwoDigits | js/script.js:159 | two written cent digits read back as the cents |
| Price.DollarsAndCents | js/script.js:156-161 | `$<dollars>.<cc>` parses to exactly dollars plus cents |
| Price.WholeDollars | js/script.js:156-161 | `$<dollars>` parses to exactly the dollars |
| Price.TenDollars | js/script.js:156-161 | "$10" parses to 10 |
| Price.NineteenNinetyNine | js/script.js:156-161 | "$19.99" parses to 19.99 |
| Price.WordExamples | js/script.js:157-160 | "Free" parses to 0 and "N/A" to Infinity |
| StableSort.Antisymmetric | js/script.js:165-174 | a consistent comparator is antisymmetric |
| StableSort.Transitive | js/script.js:165-174 | a consistent comparator's order is transitive |
| StableSort.TieTransitive | js/script.js:165-174 | ties under a consistent comparator are transitive |
| StableSort.InsertPermutes | js/script.js:165-174 | inserting adds exactly the inserted element |
| StableSort.SortByPermutes | js/script.js:165-174 | sorting is a permutation |
| StableSort.InsertNotAfter | js/script.js:165-174 | inserting an element not after a bound keeps every element not after it |
| StableSort.InsertSorted | js/script.js:165-174 | inserting into a sorted sequence keeps it sorted |
| StableSort.SortBySorted | js/script.js:165-174 | the sort's result is sorted |
| StableSort.TiesSnoc | js/script.js:165-174 | the elements tying with a value in `t + [x]` are those in `t`, then `x` if it ties |
| StableSort.NotBothTie | js/script.js:165-174 | an element strictly above `x` cannot tie with a value `x` ties with |
| StableSort.InsertTies | js/script.js:165-174 | inserting appends the element to its own tie class and leaves the others alone |
| StableSort.SortByStable | js/script.js:154-174 | elements that compare equal keep their relative order |
| StableSort.SortByAllTies | js/script.js:176-178 | under a comparator that ties everything, sorting changes nothing |
| StableSort.CompareSelf | js/script.js:165-174 | every element ties with itself |
| StableSort.TiesMembers | js/script.js:165-174 | the tie class of a value holds exactly the elements that tie with it |
| StableSort.DropCommonSuffix | js/script.js:165-174 | equal sequences with a common suffix have equal prefixes |
| StableSort.LastIsMaximal | js/script.js:165-174 | the last element of a sorted sequence is not below any element |
| StableSort.SameTiesSameElements | js/script.js:165-174 | sequences with the same tie classes have the same elements |
| StableSort.LastsTie | js/script.js:165-174 | two sorted sequences holding each other's last elements end in tying elements |
| StableSort.SameLast | js/script.js:165-174 | two sorted sequences with the same tie classes end in the same element |
| StableSort.SameTiesOfInit | js/script.js:165-174 | dropping a common last element keeps the tie classes equal |
| StableSort.SortedInit | js/script.js:165-174 | a prefix of a sorted sequence is sorted |
| StableSort.SortedTiesUnique | js/script.js:165-174 | two sorted sequences with the same tie classes are equal |
| StableSort.StableSortUnique | js/script.js:165-174 | any sorted, order-preserving rearrangement is the sort's result: a stable sort is unique |
| StableSort.InsertShift | js/script.js:165-174 | moving past a larger element does not change where the element is inserted |
| StableSort.InsertStop | js/script.js:165-174 | the element is inserted right after the first element from the right that is not larger |
| StableSort.SwapLeft | js/script.js:165-174 | one swap moves the inserted element one place left |
| StableSort.InsertInPlace | js/script.js:165-174 | the array becomes its sorted prefix with the next element inserted, then the untouched rest |
| StableSort.SortInPlace | js/script.js:165-174 | the array is sorted in place to exactly the stable sort of its old contents |
| Sorting.LexCompareAntisymmetric | js/script.js:171-174 | comparing names the other way round negates the result |
| Sorting.LexCompareZero | js/script.js:171-174 | names compare equal exactly when they are equal |
| Sorting.LexCompareTransitive | js/script.js:171-174 | the name order is transitive |
| Sorting.CompareAntisymmetric | js/script.js:163-179 | every key's comparator is antisymmetric, including Infinity against Infinity |
| Sorting.CompareTransitive | js/script.js:163-179 | every key's comparator is transitive |
| Sorting.ComparatorConsistent | js/script.js:163-179 | every key gives a consistent comparator |
| Sorting.SortEntries | js/script.js:153-179 | the sorted list is a permutation of the filtered list, ordered by the key |
| Sorting.SortEntriesStable | js/script.js:153-179 | entries that compare equal under the key keep their filtered order |
| Sorting.SortOriginalKeepsOrder | js/script.js:176-178 | 'original' leaves the filtered order unchanged |
| Sorting.PriceSortsPlaceInfinity | js/script.js:156-168 | price-asc puts unparseable prices last, and price-desc puts them first |
| Sorting.AlphaSortOrdersNames | js/script.js:170-175 | alpha-asc orders names upwards and alpha-desc downwards |
| Sorting.SortEntriesUnique | js/script.js:153-179 | any order-respecting, stable arrangement of the list is the one the sort gives |
| Sorting.SortEntriesInPlace | js/script.js:154-179 | the copied array is sorted in place to exactly the specified order |
| GameList.Filter | js/script.js:147-151 | an entry is kept exactly when it is in the catalogue, has a name and its lower-cased name includes the term |
| GameList.FilterAppend | js/script.js:149-151 | filtering distributes over concatenation, so catalogue order is kept |
| GameList.FilterCounts | js/script.js:149-151 | a matching entry is kept as many times as it occurs, and a non-matching one never |
| GameList.EmptySearchKeepsNamed | js/script.js:147-151 | the empty search matches exactly the named entries |
| GameList.FilterNarrows | js/script.js:147-151 | a longer search that contains a shorter one keeps only entries the shorter one keeps |
| GameList.ListOutcomeCases | js/script.js:184-203 | the four messages and the item list are chosen exactly in their cases, and the items are the filtered entries |
| GameList.ListOutcomeAgrees | js/script.js:184-203 | when the data loaded, the corrected outcome is the one the source computes |
| GameList.LoadFailureMessageReplaced | js/script.js:184-191 | as written, a failed load shows the empty-data-source message; the corrected outcome shows the failure message |
| GameList.FilterAndPopulate | js/script.js:145-203 | the method copies the filtered entries, sorts the copy in place and yields exactly the specified outcome |
| Router.ClassifyCases | js/script.js:247-312 | the hash classes are disjoint and total: `#games` is the list, `#about` or `''` the about page, `#game/` a detail or a decoding error, everything else unknown |
| Router.RewriteSettles | js/script.js:296-312 | a rewritten hash routes to about and is not rewritten again |
| Router.PageHashIsUnknown | js/script.js:289-312 | `#games/page/2` is an unknown hash and is rewritten to `#about` |
| Router.DetailOutcomeCases | js/script.js:256-288 | an empty catalogue gives the unavailable message, a found id shows that entry, an unknown id gives not-found |
| Router.ClickRoutes | js/script.js:223-225 | the hash written on a click routes to a detail of exactly that id |
| Router.ClickHashOfLoadedId | js/script.js:224 | for a loaded entry the encoder leaves the id unchanged |
| Router.ClickShowsEntry | js/script.js:247-268 | clicking a loaded entry shows that same entry |
| App.RouteCoherent | js/script.js:230-313 | routing makes any state coherent |
| App.NavigateCoherent | js/script.js:316-337 | setting the hash keeps a coherent page coherent |
| App.InitialCoherent | js/script.js:31-34 | the loading page is coherent |
| App.LoadKeepsCoherent | js/script.js:37-69 | both load outcomes, including a load whose routing throws, leave a coherent page |
| App.ControlsKeepCoherent | js/script.js:339-345 | search and sort events keep the page coherent |
| App.NavGamesKeepsCoherent | js/script.js:323-330 | the corrected Games button keeps the page coherent |
| App.RedirectKeepsCoherent | js/script.js:281-287 | the redirect timer keeps the page coherent |
| App.RouteSettles | js/script.js:230-313 | a route adds at most one pending redirect, and routing again without one changes nothing |
| App.RedirectScheduledIff | js/script.js:256-288 | a redirect is scheduled exactly for a detail hash whose id is not in a non-empty catalogue |
| App.NavigateKeepsRedirects | js/script.js:281-287 | setting the hash never cancels a pending redirect |
| App.RedirectShowsList | js/script.js:281-287 | the redirect shows the list at `#games`, redrawn for the current controls |
| App.ClickShowsItem | js/script.js:247-268 | clicking a listed item shows that item's details |
| App.LoadErrorOnList | js/script.js:60-67 | a failed load while on `#games` shows the failure message |
| App.LoadWithBadEscape | js/script.js:37-67 | when the hash at load time holds an undecodable id, the routing throws inside the load and its failure path empties the catalogue, shows the failure message and shows no section |
| App.NavGamesStaleList | js/script.js:323-330 | as written, the Games button on `#games` leaves a stale list; the corrected button redraws it |
| App.Page.constructor | js/script.js:31-34 | the page starts empty, loading, with no section chosen |
| App.Page.FilterAndPopulateGameList | js/script.js:145-204 | the list container is redrawn from the current controls; it reads the `loadFailed` flag, the correction of the first finding (the source's own outcome is `GameList.ListOutcomeAsWritten`) |
| App.Page.HandleRouteChange | js/script.js:230-313 | the method performs exactly the specified route change, and reports a thrown `URIError` exactly when the hash is a `#game/` hash that cannot be decoded |
| App.Page.SetHash | js/script.js:349 | assigning a different hash routes once; assigning the same hash does nothing |
| App.Page.LoadSucceeded | js/script.js:44-67 | ids are assigned and the hash is routed; if that routing throws, the failure path of the load runs |
| App.Page.LoadFailed | js/script.js:60-67 | the failure message is shown, the catalogue emptied and the hash routed; it also sets the `loadFailed` flag, the correction of the first finding |
| App.Page.SearchInput | js/script.js:339-341 | a search input redraws the list |
| App.Page.SortChange | js/script.js:343-345 | a sort change redraws the list |
| App.Page.NavAboutClick | js/script.js:316-321 | the About button sets `#about` |
| App.Page.NavGamesClick | js/script.js:323-330 | the Games button clears the controls and shows the list; it routes even when the hash is already `#games`, the correction of the second finding (the source's own behaviour is `App.AfterNavGamesAsWritten`) |
| App.Page.BackToListClick | js/script.js:332-337 | the back button sets `#games` |
| App.Page.ItemClick | js/script.js:223-225 | a list item click sets `#game/` and the encoded id |
| App.Page.RedirectTimerFires | js/script.js:281-287 | a pending redirect goes to `#games`, or re-routes when already there |

## Left out

- DOM rendering is not modelled: `innerHTML` markup, `classList` and `aria-pressed`, item creation, the detail view's fields and image URL, and scrolling. Rendered outcomes are datatypes (`ListView`, `DetailContent`, `Section`, `Nav`).
- Guards for missing DOM elements are not modelled. The model assumes every element exists.
- Reading the data file (`fetch` and JSON parsing) is a parameter: the raw games on success, or a failure event.
- Dark mode, `localStorage` and `matchMedia` are browser preference I/O and are left out.
- Console output is left out.
- The 2-second delay of the redirect timer is not modelled. Pending timers are a counter, `redirects`, and `RedirectTimerFires` may fire whenever it is positive.
- Event ordering is left out: any event may follow any other, and concurrency between the data load and user events is not modelled.
- `toLowerCase`, `\w` and `\s` are modelled for ASCII letters and the exact JavaScript whitespace set. Case mapping beyond ASCII is not modelled.
- `localeCompare` is modelled as code-point lexicographic order. Locale collation is left out.
- `parseFloat` is modelled with exact decimal values. IEEE double rounding, exponents and signs are left out, because the cleaning step keeps only digits, `$` and `.`.
- Strings are sequences of Unicode scalar values, so UTF-16 lone surrogates, which make `encodeURIComponent` throw, cannot occur in the model.
- Fields that are only displayed (description, developer and the like) are left out; a game has a name, a price and a store link, each possibly missing.
- A name or price of another JSON type is modelled as missing. A non-string truthy name is not modelled: `slugify` would `toString()` it (js/script.js:22), but the list filter calls `game.name.toLowerCase()` on it (js/script.js:150), which throws. During the load with the hash `#games` that error reaches the load's failure path (js/script.js:60-67), which empties the catalogue; during a search, sort or navigation event the list is simply not redrawn.
- The hashchange that follows a rewrite to `#about` is not run as a second event. `Router.RewriteSettles` shows that routing the rewritten hash would change nothing.
- A decoding error in a `#game/` hash stops routing after the sections and buttons are cleared, as the thrown `URIError` does. During an event it is uncaught and nothing else happens. During the load it is caught by the load's failure path, which empties the catalogue (`App.LoadWithBadEscape`).
- A store link that is present but not a string makes `steamLink.match` throw inside `getSteamAppId` when the detail view is drawn (js/script.js:111-119). During the load that error would reach the load's failure path and empty the catalogue. The model types every link as a string or missing, so this path is not modelled.

## Findings

| source | as written | input that shows it | evidently intended | confidence | as-written member | corrected member |
|---|---|---|---|---|---|---|
| js/script.js:60-67, 184-191 | the list container is cleared before `querySelector('p')` looks for the load-failure message, so an empty catalogue always shows "No games found in the data source" | the data file fails to load while the hash is `#games` | the "Could not load game data" message stays | not executed | GameList.LoadFailureMessageReplaced | App.LoadErrorOnList |
| js/script.js:323-330 | the Games button clears the search and sort controls and sets the hash, but when the hash is already `#games` no hashchange fires and the list is not redrawn | on `#games` with search "zz" over a catalogue of one game "a", click Games | the list is redrawn with the cleared controls and shows "a" | not executed | App.NavGamesStaleList | App.NavGamesKeepsCoherent |
