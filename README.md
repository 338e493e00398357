# dexc live-update core in Dafny

This project models the core of dexc, a live market-data dashboard. A dashboard
table fetches a page of token pairs (rows). It subscribes over one WebSocket to
the page's filter and to every visible pair, then patches its rows as `tick`,
`pair-stats` and `scanner-pairs` messages arrive. The model covers these parts:

- **SocketUpdates**: the subscription multiplexer and the inbound demultiplexer.
  - The multiplexer is a class. It holds a reference-count map and an append-only
    log of the frames sent.
  - The demultiplexer is a pure function from a decoded message to a dispatch key
    and a payload.
- **CanonicalKey**: the canonical key encoder `serializeObj`. It sorts the keys,
  stringifies the values and writes JSON. Objects are modelled with their insertion
  order, so order-independence is a theorem rather than a given.
- **Json**: `JSON.stringify` of a flat string record, together with a decoder for
  that format. The decoder proves the encoding injective.
- **JsValues**: JavaScript scalars, `String()`, and plain objects as ordered lists
  of entries with distinct keys, with get, set and delete.
- **PairWatcher**: the row watcher.
  - The subscription payload and the listener key.
  - The tick merge, a method with a loop, proved against a reference function.
  - The info merge.
  - A class `PairAtom` for the row cell.
- **ScannerWatcher**: the table watcher. It keeps the page subscription's lifecycle
  and replaces the table's rows with each snapshot.
- **AtomTable**: the table itself.
  - The sort toggle.
  - The sorted view, a stable insertion sort.
  - The initial sort and the query key.
  - A class `Table` for the filters, sort, rows and row total.
- **Filters** and **Pagination**: the filter updaters and the page arithmetic.
- **Socket**: the connection guard and the reconnect state machine, as a pure step
  function and a class `Connection`.
- **Small helpers**:
  - **MarketCap**: `calcMarketCap`.
  - **ChainNames**: `chainIdToName`.
  - **ShortenAddress**: `shortenAddress`.
  - **Constants**: `rankByToScannerKey` and the two preset filters.
  - **LocaleString**: `toLocaleString`, over exact decimals.
- **Records** and **Numeric**: the record types of the rows, swaps and pair details,
  and numbers read out of numeric strings, `Dec(real)` or `NaN`.

Three behaviours of the code that are easy to miss. The model follows the code in each:

- `serializeObj` keeps a key whose value is `undefined` and writes the string
  `"undefined"`; it does not omit the key. See `CanonicalKey.UndefinedCollision`.
- `serializeObj` is not collision-free: `{a: 1}` and `{a: "1"}` get the same key.
  See `CanonicalKey.NumberCollision` and `CanonicalKey.NullCollision`.
  - It is injective on string-valued objects. See `CanonicalKey.InjectiveOnStrings`.
- A tick batch with no non-outlier swap leaves the row entirely unchanged,
  buy/sell/volume accounting included. See `PairWatcher.OutliersOnlyUnchanged`.

## Model

| member | source | states |
|---|---|---|
| JsValues.NatToString | src/helpers/serializeObj.ts:6 | `String(n)` of a count is a non-empty digit string with no leading zero |
| JsValues.Get | src/compositions/AtomTable/components/Filters/Filters.tsx:42 | reading a property gives a value exactly when the key is present, and the value is that key's entry |
| JsValues.Set | src/compositions/AtomTable/components/Filters/Filters.tsx:52 | assignment makes the key present with the new value and leaves every other key's value as it was |
| JsValues.SetKeepsOrder | src/compositions/AtomTable/components/Filters/Filters.tsx:46-52 | assigning an existing key keeps the key order; a new key is appended last |
| JsValues.SetIdempotent | src/compositions/AtomTable/components/Filters/Filters.tsx:52 | assigning the same value twice equals assigning it once |
| JsValues.Delete | src/compositions/AtomTable/components/Filters/Filters.tsx:49 | `delete` removes exactly that key, keeps every other value, and adds no entry |
| JsValues.DeleteAbsent | src/compositions/AtomTable/components/Filters/Filters.tsx:64 | deleting an absent key leaves the object unchanged |
| JsValues.DeleteIdempotent | src/compositions/AtomTable/components/Filters/Filters.tsx:64 | deleting twice equals deleting once |
| JsValues.Stringify | src/contexts/SocketUpdates/SocketUpdates.tsx:235-239 | the stringifying reduce keeps the keys in order and replaces each value by its `String()` form |
| Json.ReadEscaped | src/helpers/serializeObj.ts:2 | the escaped body of any string, followed by a closing quote, reads back as that string and the rest |
| Json.ReadQuoted | src/helpers/serializeObj.ts:2 | a quoted JSON string reads back as the original string, leaving the rest untouched |
| Json.ReadMemberBack | src/helpers/serializeObj.ts:2 | a `"key":"value"` member reads back as that key and value |
| Json.ReadMembersBack | src/helpers/serializeObj.ts:2 | a non-empty comma-separated member list reads back as the same list of members |
| Json.ParseStringify | src/helpers/serializeObj.ts:2-10 | decoding `JSON.stringify` of a flat string record gives back the record |
| Json.StringifyInjective | src/helpers/serializeObj.ts:2-10 | two records with the same JSON text are equal |
| CanonicalKey.LessIrreflexive | src/helpers/serializeObj.ts:4 | the key order of the default sort is irreflexive |
| CanonicalKey.LessTransitive | src/helpers/serializeObj.ts:4 | the key order is transitive |
| CanonicalKey.LessTotal | src/helpers/serializeObj.ts:4 | any two distinct keys are ordered one way or the other |
| CanonicalKey.LessAsymmetric | src/helpers/serializeObj.ts:4 | the key order is asymmetric |
| CanonicalKey.InsertSorted | src/helpers/serializeObj.ts:4 | inserting a new key into a strictly ascending list keeps it strictly ascending and adds exactly that key |
| CanonicalKey.SortSorted | src/helpers/serializeObj.ts:4 | sorting distinct keys gives a strictly ascending permutation of them |
| CanonicalKey.SortedUnique | src/helpers/serializeObj.ts:4 | two strictly ascending lists with the same members are equal |
| CanonicalKey.SortedKeys | src/helpers/serializeObj.ts:3-4 | the sorted keys are strictly ascending and are exactly the object's keys, each once |
| CanonicalKey.Canonical | src/helpers/serializeObj.ts:3-9 | the record holds every key of the object exactly once, in ascending order, each with its value's `String()` form |
| CanonicalKey.SerializeObjDecodes | src/helpers/serializeObj.ts:1-11 | the key decodes to the ascending, stringified record of the object |
| CanonicalKey.SameKeysSameOrder | src/helpers/serializeObj.ts:3-4 | objects with the same key set give the same key order |
| CanonicalKey.SameKeyIff | src/helpers/serializeObj.ts:1-11 | two objects get the same key exactly when they have the same keys and the same stringified values |
| CanonicalKey.OrderIndependent | src/helpers/serializeObj.ts:3-5 | objects with the same key/value pairs, in any insertion order, get the same key |
| CanonicalKey.InjectiveOnStrings | src/helpers/serializeObj.ts:2-10 | for string-valued objects, the same key means the same key/value pairs |
| CanonicalKey.KeysVisible | src/helpers/serializeObj.ts:3-9 | a key present in one object and absent from the other makes their keys differ |
| CanonicalKey.StringifyKeepsKey | src/helpers/serializeObj.ts:6 | stringifying the values first does not change the key |
| CanonicalKey.SingleCollision | src/helpers/serializeObj.ts:6 | values with the same `String()` form give the same key |
| CanonicalKey.NumberCollision | src/helpers/serializeObj.ts:6 | `{k: 1}` and `{k: "1"}` collide |
| CanonicalKey.NullCollision | src/helpers/serializeObj.ts:6 | `{k: null}` and `{k: "null"}` collide |
| CanonicalKey.UndefinedCollision | src/helpers/serializeObj.ts:6 | `{k: undefined}` and `{k: "undefined"}` collide, so an undefined value is kept rather than omitted |
| ChainNames.ChainIdToName | src/helpers/chainIdToName.ts:1-9 | the mapping is total, and its result is always one of ETH, BSC, BASE and SOL |
| ChainNames.NameRoundTrip | src/helpers/chainIdToName.ts:2-6 | each of the four names is reached from its own chain id |
| ChainNames.NonDefaultPreimage | src/helpers/chainIdToName.ts:4-6 | BSC, BASE and SOL each come from exactly one id |
| ChainNames.EthPreimage | src/helpers/chainIdToName.ts:2-8 | ETH comes from every id except 56, 8453 and 900 |
| ChainNames.NotInjective | src/helpers/chainIdToName.ts:3-7 | ids 11155111 and 1 both give ETH |
| Constants.ParseRankBy | global.d.ts:7-20 | a parsed rank option names the option it was parsed from |
| Constants.RankByNameRoundTrip | global.d.ts:7-20 | every rank option parses back from its name |
| Constants.RankByToScannerKey | src/helpers/constants.ts:18-32 | the table is defined for every option; only `trending` maps to null, and every key is a sortable row field |
| Constants.ScannerKeyInjective | src/helpers/constants.ts:18-32 | distinct options never share a non-null row field |
| Constants.TrendingKeys | src/helpers/constants.ts:1-8 | the trending preset has exactly page, rankBy, orderBy, minVol24H, isNotHP and maxAge, with no timeFrame or userId |
| Constants.TrendingValues | src/helpers/constants.ts:1-8 | the trending preset's values are page 1, volume, desc, 1000, true and 168 |
| Constants.NewKeys | src/helpers/constants.ts:10-16 | the new-tokens preset has exactly page, rankBy, orderBy, maxAge and isNotHP |
| Constants.NewValues | src/helpers/constants.ts:10-16 | the new-tokens preset's values are page 1, age, desc, 24 and true |
| MarketCap.FirstPositive | src/helpers/calcMarketCap.ts:2-18 | the result is the first positive candidate, or 0 when no candidate is positive |
| MarketCap.CalcMarketCap | src/helpers/calcMarketCap.ts:1-19 | the result is one of the four fields or 0, and never negative |
| MarketCap.MatchesFirstPositive | src/helpers/calcMarketCap.ts:2-18 | the chain of guarded returns equals "first positive of currentMcap, initialMcap, pairMcapUsd, pairMcapUsdInitial, else 0" |
| MarketCap.CurrentWins | src/helpers/calcMarketCap.ts:2-4 | a positive `currentMcap` is returned whatever the other fields hold |
| MarketCap.NaNSkipped | src/helpers/calcMarketCap.ts:2-16 | NaN is never returned |
| MarketCap.ZeroIff | src/helpers/calcMarketCap.ts:18 | the result is 0 exactly when none of the four fields is positive |
| ShortenAddress.Substr | src/helpers/shortenAddress.ts:2 | `substr` returns a slice of its string no longer than the requested length |
| ShortenAddress.ShortenAddress | src/helpers/shortenAddress.ts:1-2 | the output is the first `countBefore` characters (none when negative, all when too many), `...`, and the address from where `substr(-countAfter)` starts |
| ShortenAddress.ShortenAddressDefault | src/helpers/shortenAddress.ts:1-2 | with the default counts of 6, an address of 12 or more characters becomes its first 6, `...` and its last 6, 15 characters in all |
| ShortenAddress.PrefixEllipsisSuffix | src/helpers/shortenAddress.ts:2 | the output is always a prefix of the address, `...`, and a suffix of the address |
| ShortenAddress.LengthBound | src/helpers/shortenAddress.ts:2 | for `countBefore >= 0` and `countAfter >= 1`, the output is at most `countBefore + 3 + countAfter` characters long (with `countAfter = 0` the tail is the whole address, see `ZeroTailIsWhole`) |
| ShortenAddress.ZeroTailIsWhole | src/helpers/shortenAddress.ts:2 | `countAfter = 0` makes the whole address the tail, since `substr(-0)` starts at 0 |
| ShortenAddress.ShortAddressTail | src/helpers/shortenAddress.ts:2 | an address shorter than `countAfter` is its own tail |
| LocaleString.Normalize | src/helpers/toLocaleString.ts:17 | the normal form has no trailing fraction zero and denotes the same value |
| LocaleString.FloorTo | src/helpers/toLocaleString.ts:32-33 | flooring to k decimals gives the greatest k-decimal value not above the input |
| LocaleString.FractionText | src/helpers/toLocaleString.ts:27 | the fraction text has one digit per decimal place |
| LocaleString.FirstNonZeroFinds | src/helpers/toLocaleString.ts:29 | `search(/[1-9]/)` gives the index of the first digit from 1 to 9, with none before it, and -1 exactly when there is none |
| LocaleString.PreFormat | src/helpers/toLocaleString.ts:23-34 | the pre-formatted value never exceeds the input and is within one unit of its last place; without floor rounding it is the input |
| LocaleString.FixedParts | src/helpers/toLocaleString.ts:38 | `toFixed(k)` has a non-empty integer part and exactly k fraction digits |
| LocaleString.FixedPartsDenote | src/helpers/toLocaleString.ts:38 | the digits of `toFixed` read back as the scaled value |
| LocaleString.IndexOfDot | src/helpers/toLocaleString.ts:40 | the split happens at the first `.`, or nowhere when there is none |
| LocaleString.SplitParts | src/helpers/toLocaleString.ts:40 | splitting a formatted number gives its signed integer part and its fraction |
| LocaleString.Group3 | src/helpers/toLocaleString.ts:42 | grouping adds one separator per full group of three digits after the first |
| LocaleString.SepAtDigits | src/helpers/toLocaleString.ts:42 | the regular expression matches exactly inside the digits, at a multiple of three from the end, never after the minus sign |
| LocaleString.GroupTextSigned | src/helpers/toLocaleString.ts:42 | grouping a signed digit string keeps the minus sign and groups the digits in threes from the right |
| LocaleString.Group3RoundTrip | src/helpers/toLocaleString.ts:42 | removing a digit-free separator from the grouped text gives back the digits |
| LocaleString.TrailingZeros | src/helpers/toLocaleString.ts:45 | counts exactly the run of `0` at the end |
| LocaleString.CutTrailingZeros | src/helpers/toLocaleString.ts:45 | `/\.?0+$/` only shortens the text |
| LocaleString.CutAfterPoint | src/helpers/toLocaleString.ts:44-46 | cutting after a point removes the fraction's trailing zeros, and the point too when nothing is left |
| LocaleString.StripZeros | src/helpers/toLocaleString.ts:44-46 | the stripped fraction plus a run of zeros is the fraction, and it does not end in `0` |
| LocaleString.LayoutRenders | src/helpers/toLocaleString.ts:40-46 | split, group and cut equal the reference rendering: sign, grouped digits and the trimmed fraction after a point |
| LocaleString.LayoutAfterGrouping | src/helpers/toLocaleString.ts:42-46 | once the integer part is grouped, the result is that head followed by the fraction, cut when cutting is on |
| LocaleString.SmallStaysSmall | src/helpers/toLocaleString.ts:24-34 | the floor truncation keeps a value below 1 within 1 in magnitude, skipping the leading fraction zeros |
| LocaleString.FloorToBelowOne | src/helpers/toLocaleString.ts:32-33 | flooring a value below 1 in magnitude keeps it within 1 |
| LocaleString.PrecisionFixedUpToOne | src/helpers/toLocaleString.ts:12-37 | `toPrecision` on a value within 1 never switches to exponential notation |
| LocaleString.NeverExponential | src/helpers/toLocaleString.ts:12-38 | the output is never in exponential notation |
| LocaleString.ThrowsIff | src/helpers/toLocaleString.ts:24-37 | the call throws BigNumber's out-of-range error exactly for a finite value below 1 in small-value mode with `digits = 0`, from `toPrecision(0)` |
| LocaleString.NotFiniteIsEmpty | src/helpers/toLocaleString.ts:19-21 | a non-finite input gives `''` |
| LocaleString.RenderPoint | src/helpers/toLocaleString.ts:42-46 | the text after a point is at most the fraction; when cutting, a text with a point ends in a digit 1-9 |
| LocaleString.FiniteRenders | src/helpers/toLocaleString.ts:14-49 | a finite value renders as sign, grouped integer digits and trimmed fraction of its printed digits |
| LocaleString.FractionDigitsBound | src/helpers/toLocaleString.ts:36-46 | outside small-value mode the call returns text with at most `digits` fraction digits |
| LocaleString.TextHasParts | src/helpers/toLocaleString.ts:36-38 | every text result comes from a printed integer part and fraction |
| LocaleString.CutEndsSignificant | src/helpers/toLocaleString.ts:44-46 | with `cutFractionalZero`, a result containing `.` never ends in `0` or `.` |
| LocaleString.FloorPrintsFloored | src/helpers/toLocaleString.ts:26-38 | outside small-value mode, with floor rounding, the printed digits are the truncated value exactly, so the output never exceeds the input |
| LocaleString.HalfUpRounds | src/helpers/toLocaleString.ts:38 | `toFixed(k)`'s rounding of `m / 10^s`: with `k >= s` the value scaled exactly (`v * 10^s == m * 10^k`), otherwise within half a unit of the k-th place with ties upwards (`(2v - 1) * 10^(s-k) <= 2m < (2v + 1) * 10^(s-k)`) |
| LocaleString.FixedRounds | src/helpers/toLocaleString.ts:38 | the digits `toFixed(k)` prints read back as that half-up rounding of the value |
| LocaleString.FixedPrinted | src/helpers/toLocaleString.ts:36-38 | outside small-value mode the output keeps the pre-formatted value's sign, has exactly `digits` fraction digits, and its digits are the pre-formatted value exactly when it has at most `digits` places and otherwise that value rounded half up (the case `floorRounding` false, where the pre-formatted value is the input) |
| LocaleString.FractionZerosBound | src/helpers/toLocaleString.ts:27-29 | below 1, the index `z` of the first non-zero fraction digit bounds the magnitude: fewer than `10^(scale - z)` units |
| LocaleString.PrecisionOfFew | src/helpers/toLocaleString.ts:37 | `toPrecision(sd)` of at most `sd` significant digits, or of exactly `10^sd` units of a fraction place, prints the value exactly with `sd` significant digits |
| LocaleString.SmallFloorPrintsFloored | src/helpers/toLocaleString.ts:24-37 | in small-value mode with floor rounding and `digits >= 1`, the output is `toPrecision(digits)` of the floored value, which prints it exactly with `digits` significant digits at `digits - 1 - exponent` places and never exceeds the input |
| LocaleString.PrecisionRoundsHalfUp | src/helpers/toLocaleString.ts:37 | `toPrecision(sd)` of a value below 1 prints fixed notation holding `sd` significant digits, exactly the value when no digit is dropped and within half a unit of the last printed place otherwise |
| LocaleString.SmallPrintsRounded | src/helpers/toLocaleString.ts:24-37 | in small-value mode without floor rounding, the output is `toPrecision(digits)` of the value, rounded half up to `digits` significant digits |
| Records.PayloadObject | src/compositions/AtomTable/utils/usePairWathcer.ts:21-25 | the payload object has exactly the keys pair, token and chain, holding the row's values |
| AtomTable.ToggleSort | src/compositions/AtomTable/AtomTable.tsx:69-83 | clicking the sorted column flips its direction; any other column is selected descending |
| AtomTable.ToggleTwice | src/compositions/AtomTable/AtomTable.tsx:69-83 | two more clicks on a column restore the sort the first click gave |
| AtomTable.ToggleInvolution | src/compositions/AtomTable/AtomTable.tsx:71-75 | two clicks on the sorted column restore the original direction |
| AtomTable.PrecedesDistinct | src/compositions/AtomTable/AtomTable.tsx:167-174 | the comparator moves a row forward only when both values are numbers and they differ |
| AtomTable.ViewPermutes | src/compositions/AtomTable/AtomTable.tsx:158-175 | the view is a permutation of the stored rows, and with no criteria it is the stored list itself |
| AtomTable.ViewKeepsTies | src/compositions/AtomTable/AtomTable.tsx:167-174 | rows whose comparator result is a tie, NaN included, keep their relative order |
| AtomTable.AllTiedKeepsOrder | src/compositions/AtomTable/AtomTable.tsx:167-174 | when every row ties on the key, the view is the stored order |
| AtomTable.AgeSortKeepsOrder | src/compositions/AtomTable/AtomTable.tsx:167-174 | sorting by the date-time `age` string compares NaN everywhere, so the view keeps the stored order |
| AtomTable.ViewOrdered | src/compositions/AtomTable/AtomTable.tsx:165-174 | with numeric values, the view is descending or ascending by the key as the direction says |
| AtomTable.RankSort | src/compositions/AtomTable/AtomTable.tsx:320-324 | a rank option gives `{key, desc}` for its row field, and no sort for `trending` |
| AtomTable.InitialSortIsRankSort | src/compositions/AtomTable/AtomTable.tsx:300-306 | the initial sort is the sort of the initial filters' rank option |
| AtomTable.NewTableStartsUnsorted | src/compositions/AtomTable/AtomTable.tsx:300-306 | the new-tokens table starts sorted by age descending, which shows the rows in stored order |
| AtomTable.QueryKeyOrderIndependent | src/compositions/AtomTable/AtomTable.tsx:226 | filters differing only in insertion order share a query key |
| AtomTable.Table.constructor | src/compositions/AtomTable/AtomTable.tsx:243-310 | a table starts with its initial filters, the initial sort and the empty placeholder data |
| AtomTable.Table.Load | src/compositions/AtomTable/AtomTable.tsx:152-154 | a fetched response becomes the rows and the total; filters and sort stay |
| AtomTable.Table.WritePairs | src/compositions/AtomTable/AtomTable.tsx:176-181 | the writer replaces the rows and keeps `totalRows`, filters and sort |
| AtomTable.Table.ChangeSort | src/compositions/AtomTable/AtomTable.tsx:69-83 | a header click applies the toggle to the sort and changes nothing else |
| AtomTable.Table.RankByChange | src/compositions/AtomTable/AtomTable.tsx:320-324 | a rank change sets the rank sort and changes nothing else |
| AtomTable.Table.SetFilters | src/compositions/AtomTable/AtomTable.tsx:308-313 | a filter update replaces the filters and changes nothing else |
| AtomTable.Table.ResetFilters | src/compositions/AtomTable/AtomTable.tsx:316-318 | reset restores the initial filters exactly |
| Filters.ChainClick | src/compositions/AtomTable/components/Filters/Filters.tsx:44-57 | `all` removes `chain`, any other id sets it; every other key keeps its value |
| Filters.ChangeFilter | src/compositions/AtomTable/components/Filters/Filters.tsx:59-72 | `any` removes the key, any other value sets it; every other key, `page` included, keeps its value |
| Filters.ChangeFilterOrder | src/compositions/AtomTable/components/Filters/Filters.tsx:61-67 | the copy keeps the key order, appending a new key last; removing an absent key changes nothing |
| Filters.ChangeFilterIdempotent | src/compositions/AtomTable/components/Filters/Filters.tsx:59-72 | applying the same change twice equals applying it once |
| Filters.ChainClickIsChange | src/compositions/AtomTable/components/Filters/Filters.tsx:44-72 | a chain click is the generic change of `chain`, with `all` in the role of `any` |
| Filters.RankByChange | src/compositions/AtomTable/components/Filters/Filters.tsx:74-77 | a rank change sets `rankBy`, keeps every other filter, and passes the same option on |
| Filters.RankByChangeAgrees | src/compositions/AtomTable/components/Filters/Filters.tsx:74-77 | the sort set by the rank change is the initial sort that the new filters would give |
| Filters.ActiveAfterClick | src/compositions/AtomTable/components/Filters/Filters.tsx:44-84 | after clicking a chain button, that chain is shown active, `all` included |
| Filters.RankChoiceShown | src/compositions/AtomTable/components/Filters/Filters.tsx:126-127 | a rank chosen in the select shows there as its name only while `maxAge` is set; without `maxAge` the select stays blank although `rankBy` holds the choice |
| Filters.RankSelectNeedsMaxAge | src/compositions/AtomTable/components/Filters/Filters.tsx:126 | without `maxAge` the select is empty; with it and no `rankBy` it shows `undefined` |
| Filters.SelectShowsChoice | src/compositions/AtomTable/components/Filters/Filters.tsx:59-89 | after choosing an option, its select shows it, or nothing after `any` |
| Pagination.Pages | src/compositions/AtomTable/components/Pagination/Pagination.tsx:13 | the page count is the least number of 100-row pages holding every row |
| Pagination.NextPage | src/compositions/AtomTable/components/Pagination/Pagination.tsx:15-20 | Next adds 1 to `page` and keeps every other filter and the key order |
| Pagination.PrevPage | src/compositions/AtomTable/components/Pagination/Pagination.tsx:22-27 | Back subtracts 1 from `page` and keeps every other filter and the key order |
| Pagination.NextThenBack | src/compositions/AtomTable/components/Pagination/Pagination.tsx:15-27 | Back undoes Next exactly |
| Pagination.ShownRange | src/compositions/AtomTable/components/Pagination/Pagination.tsx:36 | the caption always spans 100 rows |
| Pagination.ShownRangeBounds | src/compositions/AtomTable/components/Pagination/Pagination.tsx:13-36 | on a valid page the first row shown exists; the last overshoots `totalRows` exactly on a partial last page |
| Pagination.PressKeepsRange | src/compositions/AtomTable/components/Pagination/Pagination.tsx:32-38 | pressing an offered button keeps the page within 1 and `max(1, pages)` |
| Pagination.BrowseKeepsRange | src/compositions/AtomTable/components/Pagination/Pagination.tsx:13-38 | any run of offered presses keeps the page within range |
| Pagination.FromFirstPage | src/compositions/AtomTable/components/Pagination/Pagination.tsx:13-38 | starting at page 1 and using only offered buttons keeps `1 <= page <= max(1, pages)` |
| Socket.ConnectGuarded | src/contexts/Socket/Socket.tsx:25-32 | connect does nothing while the flag is set; otherwise it sets the flag and creates exactly one socket |
| Socket.OpenPublishes | src/contexts/Socket/Socket.tsx:21-36 | the open event publishes its socket, and the connection is then ready |
| Socket.CloseEffect | src/contexts/Socket/Socket.tsx:38-49 | close clears the socket and the flag, detaches the handlers, and schedules one reconnect exactly when the code is not 3000 |
| Socket.DetachedIgnored | src/contexts/Socket/Socket.tsx:42-44 | events of a detached socket change nothing |
| Socket.ErrorOnlyClearsGuard | src/contexts/Socket/Socket.tsx:51-53 | error clears the flag only: the socket stays and no reconnect is scheduled |
| Socket.ConnectAfterError | src/contexts/Socket/Socket.tsx:26-53 | the guard alone does not exclude a second socket: a connect between an error and its close would create one; that connect would need a caller outside the provider, which the source does not have |
| Socket.UnmountKeepsSocket | src/contexts/Socket/Socket.tsx:60-66 | the unmount cleanup closes the undefined socket captured at first render, so the live socket stays open |
| Socket.StepKeepsOneLive | src/contexts/Socket/Socket.tsx:25-58 | every event except an error keeps at most one live socket |
| Socket.InitialOneLive | src/contexts/Socket/Socket.tsx:20-23 | the provider starts with no live socket |
| Socket.ErrorFreeRunKeepsOneLive | src/contexts/Socket/Socket.tsx:25-58 | a run without errors never has two live sockets |
| Socket.ErrorThenConnectTwoLive | src/contexts/Socket/Socket.tsx:26-53 | what the guard alone allows: connect, open, error and a second bare connect leave two live sockets; the source never issues that second connect (connect runs at mount and from the close's timer only) |
| Socket.SettledStep | src/contexts/Socket/Socket.tsx:25-58 | every event except a bare connect, errors included, keeps the settled invariant: earlier sockets closed, guard up only while the newest is live, only a live socket published, at most one reconnect scheduled and only while none is live |
| Socket.SettledRun | src/contexts/Socket/Socket.tsx:25-58 | a run whose connects all come from timers keeps the settled invariant |
| Socket.MountedRunKeepsOneLive | src/contexts/Socket/Socket.tsx:25-66 | after the mount's connect (line 61), any run of opens, closes, errors, timers and the unmount cleanup has at most one live socket and at most one scheduled reconnect |
| Socket.Connection.constructor | src/contexts/Socket/Socket.tsx:20-23 | no socket, flag clear, nothing scheduled |
| Socket.Connection.Ready | src/contexts/Socket/Socket.tsx:21 | `isSocketReady` holds exactly when the published socket is OPEN |
| Socket.Connection.Connect | src/contexts/Socket/Socket.tsx:25-32 | the new state is the guarded connect step |
| Socket.Connection.HandleOpen | src/contexts/Socket/Socket.tsx:34-36 | the new state is the open step |
| Socket.Connection.HandleClose | src/contexts/Socket/Socket.tsx:38-50 | the new state is the close step for the given code |
| Socket.Connection.HandleError | src/contexts/Socket/Socket.tsx:51-53 | the new state is the error step |
| Socket.Connection.FireTimer | src/contexts/Socket/Socket.tsx:48 | a scheduled reconnect runs connect |
| Socket.Connection.Unmount | src/contexts/Socket/Socket.tsx:63-65 | the cleanup leaves the state unchanged |
| SocketUpdates.PayloadKeysSorted | src/helpers/serializeObj.ts:4 | a pair payload's keys sort as chain, pair, token |
| SocketUpdates.PairKeyIsSerializeObj | src/contexts/SocketUpdates/SocketUpdates.tsx:263 | the subscription key is `serializeObj` of the payload |
| SocketUpdates.PairKeyInjective | src/contexts/SocketUpdates/SocketUpdates.tsx:263 | two payloads share a subscription key exactly when they are equal |
| SocketUpdates.SubscribePageStep | src/contexts/SocketUpdates/SocketUpdates.tsx:235-244 | a page subscription sends one `scanner-filter` frame with the stringified filter and leaves the counts alone |
| SocketUpdates.SubscribeTokenStep | src/contexts/SocketUpdates/SocketUpdates.tsx:263-277 | the key's count rises by exactly one; `subscribe-pair` is sent exactly when it was 0 or absent; other keys are untouched |
| SocketUpdates.ReleaseTokenStep | src/contexts/SocketUpdates/SocketUpdates.tsx:279-299 | release is a no-op on an absent key, decrements silently above 1, and otherwise deletes the key and sends one `unsubscribe-pair` |
| SocketUpdates.NetAppend | src/contexts/SocketUpdates/SocketUpdates.tsx:241-298 | the per-payload net frame count is additive over the log |
| SocketUpdates.SubscribePagePreserves | src/contexts/SocketUpdates/SocketUpdates.tsx:235-244 | a page subscription keeps the balance invariant |
| SocketUpdates.SubscribeTokenPreserves | src/contexts/SocketUpdates/SocketUpdates.tsx:263-277 | a token subscription keeps the balance invariant |
| SocketUpdates.ReleaseTokenPreserves | src/contexts/SocketUpdates/SocketUpdates.tsx:279-299 | a token release keeps the balance invariant |
| SocketUpdates.ReleasePreserves | src/contexts/SocketUpdates/SocketUpdates.tsx:246-299 | any release, page or pair, keeps the balance invariant |
| SocketUpdates.InitiallyBalanced | src/contexts/SocketUpdates/SocketUpdates.tsx:228 | the empty map and empty log are balanced |
| SocketUpdates.BalancedAlways | src/contexts/SocketUpdates/SocketUpdates.tsx:230-300 | after any call sequence, every count is at least 1, and each payload's subscribes minus unsubscribes is 1 if its key is held and 0 otherwise |
| SocketUpdates.SubscribeSendsIffAbsent | src/contexts/SocketUpdates/SocketUpdates.tsx:265-272 | a token subscription sends a frame exactly when the key is absent |
| SocketUpdates.RepeatedReleaseUnsubscribes | src/contexts/SocketUpdates/SocketUpdates.tsx:279-299 | one handle released n times on a count of n removes the key and sends `unsubscribe-pair`, whatever other holders remain |
| SocketUpdates.SubscriptionManager.constructor | src/contexts/SocketUpdates/SocketUpdates.tsx:226-228 | an empty count map, an empty log, and the given readiness |
| SocketUpdates.SubscriptionManager.SocketChanged | src/contexts/SocketUpdates/SocketUpdates.tsx:226-228 | a new socket changes the readiness and keeps the count map and log |
| SocketUpdates.SubscriptionManager.SubscribePage | src/contexts/SocketUpdates/SocketUpdates.tsx:230-256 | not ready: no change and a no-op release; ready: the page step and a release carrying the stringified filter |
| SocketUpdates.SubscriptionManager.SubscribeToken | src/contexts/SocketUpdates/SocketUpdates.tsx:258-300 | not ready: no change and a no-op release; ready: the token step and a release keyed by the payload's key |
| SocketUpdates.SubscriptionManager.Hold | src/contexts/SocketUpdates/SocketUpdates.tsx:265-277 | the map update and send of a token subscription, in place |
| SocketUpdates.SubscriptionManager.Run | src/contexts/SocketUpdates/SocketUpdates.tsx:246-299 | running a release applies its step and keeps the balance invariant |
| SocketUpdates.SubscriptionManager.ReleasePair | src/contexts/SocketUpdates/SocketUpdates.tsx:279-299 | the unsubscribe closure's map update and send, in place |
| SocketUpdates.SnapshotFilter | src/contexts/SocketUpdates/SocketUpdates.tsx:313-314 | the snapshot filter loses `timeFrame` and `userId` and keeps everything else |
| SocketUpdates.Demux | src/contexts/SocketUpdates/SocketUpdates.tsx:307-342 | `scanner-pairs` goes to the table registry under the trimmed filter's key; `tick` goes to the pair registry under the pair's key with only swaps; `pair-stats` goes there under the `{pair, token, chain}` key with only info; other events go nowhere |
| SocketUpdates.SnapshotKeyHidesTimeFrame | src/contexts/SocketUpdates/SocketUpdates.tsx:313-316 | a snapshot key never equals the key of filters holding `timeFrame` or `userId` |
| SocketUpdates.TickAndStatsShareKey | src/contexts/SocketUpdates/SocketUpdates.tsx:319-341 | a tick and a pair-stats message for the same identity reach the same key |
| SocketUpdates.StatsKeyIdentifies | src/contexts/SocketUpdates/SocketUpdates.tsx:325-341 | two pair-stats messages share a key exactly when their pair, token and chain agree; `callCount` plays no part |
| PairWatcher.RowPayload | src/compositions/AtomTable/utils/usePairWathcer.ts:21-25 | the payload is the row's pair address, quote-token address and chain name |
| PairWatcher.ListenerKeyIsPairKey | src/compositions/AtomTable/utils/usePairWathcer.ts:27-41 | the listener key equals the wire subscription's key |
| PairWatcher.StatsReachesRow | src/compositions/AtomTable/utils/usePairWathcer.ts:41 | a pair-stats message reaches a row exactly when its identity is the row's payload |
| PairWatcher.TickReachesRow | src/compositions/AtomTable/utils/usePairWathcer.ts:41 | a tick reaches a row exactly when its pair object stringifies to the row's payload |
| PairWatcher.NonOutliers | src/compositions/AtomTable/utils/usePairWathcer.ts:43 | the filter keeps only swaps without a true `isOutlier` |
| PairWatcher.LatestIsLastCounted | src/compositions/AtomTable/utils/usePairWathcer.ts:43 | the latest swap is the last non-outlier, and there is none exactly when every swap is an outlier |
| PairWatcher.ToLower | src/compositions/AtomTable/utils/usePairWathcer.ts:54 | lower-casing maps each character and keeps the length |
| PairWatcher.ApplyTick | src/compositions/AtomTable/utils/usePairWathcer.ts:45-68 | the copy-then-forEach loop computes exactly the reference tick merge |
| PairWatcher.AccountAllEffect | src/compositions/AtomTable/utils/usePairWathcer.ts:53-64 | the loop adds the buy count to buys, the rest to sells and the batch volume to volume, and changes no other field |
| PairWatcher.TickChangesOnlyFive | src/compositions/AtomTable/utils/usePairWathcer.ts:46-64 | the tick merge changes only price, currentMcap, buys, sells and volume |
| PairWatcher.NoPricedLatestUnchanged | src/compositions/AtomTable/utils/usePairWathcer.ts:45 | with no latest swap, or one without a price, the row is unchanged |
| PairWatcher.OutliersOnlyUnchanged | src/compositions/AtomTable/utils/usePairWathcer.ts:43-45 | a batch of outliers alone leaves the row unchanged, accounting included |
| PairWatcher.TickApplied | src/compositions/AtomTable/utils/usePairWathcer.ts:47-64 | price is the latest swap's price, currentMcap is that times the supply, buys + sells grows by the number of swaps, and volume grows by the batch volume |
| PairWatcher.TickTwiceDoubleCounts | src/compositions/AtomTable/utils/usePairWathcer.ts:53-64 | applying the same tick twice counts its swaps and volume twice |
| PairWatcher.InfoMergeEffect | src/compositions/AtomTable/utils/usePairWathcer.ts:74-94 | the merged row shows the 14 fields of the info and equals the old row elsewhere |
| PairWatcher.InfoMergeUnique | src/compositions/AtomTable/utils/usePairWathcer.ts:74-94 | any row showing the info and otherwise equal to the old row is the merge |
| PairWatcher.InfoMergeIdempotent | src/compositions/AtomTable/utils/usePairWathcer.ts:74-94 | merging the same info twice equals merging it once |
| PairWatcher.UpdateKeepsIdentity | src/compositions/AtomTable/utils/usePairWathcer.ts:41-95 | no update changes the row's pair, token or chain, so its subscription key stays |
| PairWatcher.PairAtom.constructor | src/compositions/AtomTable/utils/usePairWathcer.ts:15 | the cell holds the given row |
| PairWatcher.PairAtom.Receive | src/compositions/AtomTable/utils/usePairWathcer.ts:41-96 | a delivered update replaces the row by the tick merge, then the info merge |
| ScannerWatcher.HiddenNeverReached | src/compositions/AtomTable/utils/useScannerWatcher.ts:28 | a table whose filters hold `timeFrame` or `userId` is never reached by any message |
| ScannerWatcher.EchoReaches | src/compositions/AtomTable/utils/useScannerWatcher.ts:28-29 | a snapshot echoing the table's stringified filters reaches it with the pairs |
| ScannerWatcher.PresetsReachable | src/helpers/constants.ts:1-16 | neither preset holds `timeFrame` or `userId` |
| ScannerWatcher.Watcher.constructor | src/compositions/AtomTable/utils/useScannerWatcher.ts:19-35 | mounting makes one page subscription when ready and registers the listener under the filters' key |
| ScannerWatcher.Watcher.FiltersChanged | src/compositions/AtomTable/utils/useScannerWatcher.ts:19-35 | a filter change runs the old release, then exactly one page subscription, re-keys the listener, and keeps the balance invariant |
| ScannerWatcher.Watcher.PageCallbackChanged | src/compositions/AtomTable/utils/useScannerWatcher.ts:19-25 | a new `subscribePage` re-runs the page effect alone; the listener stays |
| ScannerWatcher.Watcher.Deliver | src/compositions/AtomTable/utils/useScannerWatcher.ts:28-29 | a snapshot reaching the listener replaces the rows wholesale and keeps `totalRows`, filters and sort; any other message changes nothing |
| ScannerWatcher.Watcher.Unmount | src/compositions/AtomTable/utils/useScannerWatcher.ts:22-34 | unmounting runs the page release and removes the listener |

## Left out

- IEEE-754 doubles.
  - Numeric strings are exact reals or NaN (`Numeric.Num`).
  - `String()` of a computed volume or market cap is not modelled; they stay numbers.
  - Filter numbers are integers. Fractional filter values are not modelled.
- `serializeObj` on integer-like keys. JavaScript enumerates such keys first, in numeric
  order; every caller uses non-numeric key names.
- Key order by UTF-16 code units. The sort compares characters as Unicode scalar values,
  which differs only for characters outside the Basic Multilingual Plane.
- The `JSON.parse` of each inbound message (src/contexts/SocketUpdates/SocketUpdates.tsx:308).
  It is unguarded, so malformed text throws inside the handler. Inbound messages are an
  already-decoded datatype.
- The network, `setTimeout` delays and the browser's WebSocket.
  - A socket's CLOSING state is folded into Closed.
  - Browser event order is stated as the steps' behaviour on detached or non-live sockets.
  - A scheduled reconnect is a counter that `FireTimer` consumes.
- Cross-socket delivery. Release closures send on the socket captured at subscribe time.
  One abstract frame log stands for all sockets, and the count map surviving a socket
  change is kept but not checked against a per-socket log.
- The broadcast registries (`createWatcher`, `scannerWatcher`, src/modules/pairWatcher.ts).
  The scanner and pair watchers are not part of this model beyond their dispatch keys:
  a listener is reached exactly when its key equals the dispatch key.
- `PairWatcher.ToLower`: lower-cases ASCII letters only; other characters are left as they are.
- BigNumber's global configuration and its `DECIMAL_PLACES` limit on division.
  - `LocaleString` works on exact decimals and models `EXPONENTIAL_AT: 1e9` only as
    "never exponential".
  - The theorems about `toLocaleString` that look at the output's points assume
    `replaceSymbol` contains no `.`.
  - `$` patterns in `replaceSymbol` are not interpreted.
  - `digits` is a non-negative integer (`LocaleString.Options.digits: nat`). A negative or
    fractional `digits` makes BigNumber's `toFixed`/`toPrecision` throw; such calls are not modelled.
- The sort order when NaN and numeric comparator results mix. Engines may differ there.
  The view is a stable insertion sort that treats NaN as a tie; it is proved to permute,
  to keep ties in order and to order all-numeric keys.
- UI and presentation: JSX, the Switch and RadioGroup components, AnimatedValue, Providers
  and the page.
- The REST fetch (src/helpers/api/restApi.ts and the query function). A response is an
  input to `AtomTable.Table.Load`.
- react-query caching beyond the query key, and jotai and React scheduling. Each handler
  is one atomic method call.
