# FarmLink marketplace page: catalog and lookup logic in Dafny

This project models the logic of the FarmLink produce-marketplace page script
(`script.js`) that can be stated apart from the DOM:

- **Marketplace query** (`filterAndSortMarketplace`). The script keeps the catalog products
  whose lower-cased name or location includes the lower-cased search text and
  whose category matches the active filter button ("all" matches every
  category). It copies them into a fresh array and sorts that array in place
  by name (the default), ascending price, descending price or location.
  `Marketplace.FilterAndSortMarketplace` copies the selection into a new
  array and sorts it with `Sorting.SortInPlace`, an in-place insertion sort
  proved equal to the stable sort `Sorting.StableSort`. The page's
  controls are a parameter (`Marketplace.Controls`).
- **Category-only render** (`renderMarketplace`). This is what the filter buttons run. It applies no
  search and no sort, and it keeps catalog order (`Marketplace.RenderMarketplace`).
- **Tracking lookup** (`handleTracking`). It does an exact, case-sensitive lookup of a tracking
  id in the fixed shipment table. The result panel is modelled by the data it
  shows (`Tracking.Panel`): either "not found", or the shipment's summary and
  its timeline rows in stored order with their reached flags. The typed path
  trims the id first; the sample-id buttons do not.
- **Navigation mapping** (`setActiveNavigation`). The last `/`-separated segment of the path
  names the page, and an empty segment means `index.html`. A four-entry table maps the page to the id of
  the navigation link to highlight, with the home link as the fallback.
- The fixed catalog (`Catalog.MarketplaceData`) and shipment table
  (`Tracking.TrackingDatabase`), with facts about them.

The JavaScript runtime functions the script relies on are modelled in
`Text`: `toLowerCase` (ASCII letters), `includes`, `trim` (the
ECMA-262 WhiteSpace and LineTerminator characters) and `localeCompare`
(lexicographic code-point order). `Seqs` models `Array.prototype.filter`.
`JsObject` models property lookup on a plain object literal, including
the properties every object inherits from Object.prototype.

Where the code and the page's documented behaviour differ, the model follows the code:
- The filter buttons re-render with `renderMarketplace`, which drops the current search text and sort order
  (script.js:295-302).
- The filter buttons pass their `data-filter` to `renderMarketplace` as it is (script.js:299-300), with no `|| 'all'` default. A button whose `data-filter` is empty shows no product on that path, while the search-and-sort query treats the same button as "all" (script.js:233). `Marketplace.RenderMatchesQuery` therefore holds for non-empty filters only.
- Ids and page names that are Object.prototype property names fall outside the
  documented fallbacks (see Findings).

## Model

| member | source | states |
|---|---|---|
| `Text.LowerChar` | script.js:231-237 | an upper-case ASCII letter becomes its lower-case letter (32 code points on), every other character is kept, and no upper-case letter comes out |
| `Text.Lower` | script.js:231-237 | lower-casing keeps the length, lower-cases each character in place, and leaves no upper-case ASCII letter |
| `Text.LowerIgnoresCase` | script.js:231-237 | two strings that differ only in ASCII letter case lower-case to the same string |
| `Text.LowerIdempotent` | script.js:231-237 | lower-casing an already lower-cased search text changes nothing |
| `Text.Contains` | script.js:236-237 | `includes` never finds a text longer than the string searched |
| `Text.ContainsPiece` | script.js:236-237 | `includes` finds every contiguous piece of the string searched |
| `Text.ContainsEmpty` | script.js:231-238 | every string includes the empty search text, so an empty search matches every product |
| `Text.ContainsLower` | script.js:236-237 | an occurrence of the text survives lower-casing both sides (case-insensitive matching finds at least the exact matches) |
| `Text.ContainsLowerIgnoringCase` | script.js:236-237 | text that occurs in a string in any mix of letter case is included once both are lower-cased |
| `Text.TrimStart` | script.js:306 | the result is a suffix, what was dropped is all whitespace, and the result does not start with whitespace |
| `Text.TrimEnd` | script.js:306 | the result is a prefix, what was dropped is all whitespace, and the result does not end with whitespace |
| `Text.Trim` | script.js:306 | `trim()` leaves no whitespace at either end and never lengthens the text |
| `Text.TrimDecomposition` | script.js:306 | the input is whitespace, then the trimmed result, then whitespace |
| `Text.TrimPadded` | script.js:306 | trimming whitespace-padded non-empty trimmed text gives that text back |
| `Text.TrimIdempotent` | script.js:306 | trimming twice is trimming once |
| `Text.LocaleCompare` | script.js:251 | the comparison is -1, 0 or 1, and 0 exactly for equal strings |
| `Text.LocaleCompareAntisymmetric` | script.js:251 | swapping the operands flips the sign of the comparison |
| `Text.LocaleCompareTransitive` | script.js:254 | "sorts no later than" is transitive |
| `Seqs.Filter` | script.js:235-240 | the filter result is no longer than its input, and every kept element passes the predicate |
| `Seqs.FilterCount` | script.js:235-240 | each element is kept exactly as often as it occurs in the input when it passes, and never otherwise (no additions, no duplicates) |
| `Seqs.FilterMembers` | script.js:235-240 | an element is in the result iff it is in the input and passes (soundness and completeness) |
| `Seqs.FilterSubsequence` | script.js:287-289 | the filter result keeps the input's order |
| `Seqs.FilterAllPass` | script.js:287-289 | a filter every element passes returns the input unchanged |
| `Catalog.MarketplaceData` | script.js:41-132 | the catalog holds nine products |
| `Catalog.MarketplaceDataWellFormed` | script.js:41-132 | product ids are unique, every category is vegetables, grains, dairy or fruits, and every price is positive |
| `Sorting.ParseSortKey` | script.js:243-255 | "price-low", "price-high" and "location" select their orders, and every other value selects the default order by name |
| `Sorting.Compare` | script.js:244-254 | for the price keys a product goes first iff its price is lower (price-low) or higher (price-high) and ties iff the prices are equal; for location and name the comparison is `localeCompare` of those fields |
| `Sorting.StringOrderLaws` | script.js:251-254 | `localeCompare` flips sign with its operands and both "no later than" and "tied" are transitive, derived from antisymmetry and transitivity alone |
| `Sorting.CompareLaws` | script.js:244-254 | each of the four comparators is consistent: its sign flips with its operands, and both "no later than" and "tied" are transitive |
| `Sorting.KeyOrder` | script.js:243-255 | the comparator handed to `sort` for a key is consistent (sign flips with its operands; "no later than" and "tied" are transitive), so every generic sorting lemma applies to it, and it agrees with `Compare` |
| `Sorting.Insert` | script.js:243-255 | inserting lengthens the sorted prefix by exactly one; InsertCount, InsertAt, InsertSorted and InsertTies state what it holds and where the element goes |
| `Sorting.InsertCount` | script.js:243-255 | inserting adds exactly the inserted element |
| `Sorting.InsertSorted` | script.js:243-255 | inserting into an ascending sequence keeps it ascending |
| `Sorting.InsertTies` | script.js:243-255 | inserting appends the element to its own tie class and leaves every other tie class as it was |
| `Sorting.InsertAt` | script.js:243-255 | insertion puts the element after the last element it does not strictly precede |
| `Sorting.StableSort` | script.js:243-255 | sorting keeps the length; StableSortPermutation, StableSortSorted and StableSortStable state that it is a permutation, ascending and stable |
| `Sorting.StableSortPermutation` | script.js:243-255 | the sorted result is a permutation of its input |
| `Sorting.StableSortSorted` | script.js:243-255 | under a consistent comparator, the sorted result is ascending |
| `Sorting.StableSortStable` | script.js:243-255 | under a consistent comparator, elements that tie keep their input order (a stable sort) |
| `Sorting.ShiftRight` | script.js:243-255 | one insertion pass shifts right exactly the run of prefix elements the new element strictly precedes, and leaves the rest of the array alone |
| `Sorting.InsertInPlace` | script.js:243-255 | one in-place pass leaves the first i+1 cells equal to the insertion of a[i] into the sorted prefix |
| `Sorting.SortInPlace` | script.js:243-255 | sorting the array in place leaves it holding the stable sort of its old contents |
| `Marketplace.Controls.Search` | script.js:231 | the search text is the lower-cased box value, or "" when there is no search box |
| `Marketplace.Controls.Key` | script.js:232 | a missing or empty sort value means sort by name; otherwise the value selects the order |
| `Marketplace.Controls.Filter` | script.js:233 | no active button, or an empty `data-filter`, means "all"; otherwise the button's filter is used; the filter is never empty |
| `Marketplace.Selection` | script.js:235-240 | a product is selected iff it is in the catalog, its lower-cased name or location includes the search text, and the filter is "all" or its category |
| `Marketplace.ExactMatchIsFound` | script.js:236-237 | a product whose name or location includes the typed text verbatim matches the lower-cased search |
| `Marketplace.MatchIgnoresCase` | script.js:231-237 | a product whose name or location holds the typed text in any mix of letter case matches the search |
| `Marketplace.SelectionCount` | script.js:235-240 | the selection keeps exactly the products matching both search and filter, each as often as in the catalog |
| `Marketplace.QueryResult` | script.js:235-257 | the grid shows a product iff it is in the catalog and matches search and filter, once per catalog entry, in ascending key order |
| `Marketplace.SortedMeaning` | script.js:244-254 | ascending order means non-decreasing prices for price-low, non-increasing for price-high, and `localeCompare` order of locations or names otherwise |
| `Marketplace.FilterAndSortMarketplace` | script.js:230-258 | the shown products are the stable sort of the selection; they are exactly the matching catalog products, in ascending key order with monotone prices for the price keys |
| `Marketplace.EmptySearchSelectsAll` | script.js:231-240 | an empty search with filter "all" selects the whole catalog in catalog order |
| `Marketplace.EmptySearchShowsCatalog` | script.js:230-258 | with an empty search and filter "all", the grid shows every catalog product once, reordered by the sort key |
| `Marketplace.RenderMarketplace` | script.js:286-292 | the filter-button render shows only products of the filter's category (all of them for "all") and never more than the catalog |
| `Marketplace.RenderMarketplaceKeeps` | script.js:286-292 | the render keeps catalog order, keeps each product of the category as often as the catalog has it, and returns the catalog unchanged for "all" |
| `Marketplace.RenderMatchesQuery` | script.js:286-302 | a filter button and the search-and-sort query with an empty search and that filter show the same products, differing only in order |
| `Navigation.LastSegment` | script.js:25 | the segment contains no slash, is a suffix of the path, and is either the whole path or preceded by a slash |
| `Navigation.LastSegmentOfFile` | script.js:25 | the segment of `dir/name` is `name` |
| `Navigation.CurrentPage` | script.js:25 | the page is the last segment, or `index.html` when that is empty |
| `Navigation.NavIdFor` | script.js:26-33 | a page in the table gets its entry; any other page gets `nav-home` |
| `Navigation.NavIdForTable` | script.js:26-33 | each of the three non-home links belongs to exactly its page name, and `nav-home` to every other name |
| `Navigation.PageMapInjective` | script.js:26-31 | the four page names map to four distinct links, and the empty name is not in the table |
| `Navigation.ActiveNavId` | script.js:24-33 | a path whose last segment is in the table lights that entry's link; any other last segment, the empty one included, lights the home link |
| `Navigation.SegmentLookup` | script.js:25-33 | falling back from an empty segment to `index.html` and then looking up gives the same link as looking up the segment with the home fallback |
| `Navigation.ActiveNavIdTable` | script.js:24-33 | a path lights the marketplace, tracking or about link iff its last segment names that page, and the home link otherwise |
| `Navigation.MarketplacePage` | script.js:24-33 | `dir/marketplace.html` lights `nav-marketplace` for any directory |
| `Navigation.PageNamesNotInherited` | script.js:26-31 | no page name of the table is an Object.prototype property name |
| `Navigation.HighlightAsWritten` | script.js:33-37 | the lookup as written: page names that are Object.prototype properties highlight no link; all other paths highlight the corrected link |
| `Navigation.ToStringPageHighlightsNothing` | script.js:33-37 | the path `/toString` highlights nothing where `nav-home` was intended |
| `JsObject.Get` | script.js:318 | object lookup finds an own value exactly for own keys; it is undefined exactly when the key is neither own nor inherited |
| `Tracking.TrackingDatabase` | script.js:134-177 | the shipment table's keys are exactly FL-2024-8523, FL-2024-7621 and FL-2024-9142 |
| `Tracking.TimelineRows` | script.js:345-353 | there is one row per stage, in stored order, carrying the stage's status, time and `active` flag unchanged |
| `Tracking.HandleTracking` | script.js:317-356 | the panel is "not found" iff the id is not a key; otherwise it shows that shipment's status, product, from, to, estimate and every timeline stage in order with its flag |
| `Tracking.TrackTypedId` | script.js:305-315 | the button and Enter key show "not found" iff the trimmed text is not a key, and otherwise that shipment's status |
| `Tracking.TrackSampleId` | script.js:201-207 | a sample-id button shows "not found" iff its untrimmed id is not a key, and otherwise that shipment's status |
| `Tracking.TypedIdIgnoresPadding` | script.js:305-315 | for the button and Enter key, whitespace around a stored id does not stop it from being found |
| `Tracking.TypedIdWithSpaceFound` | script.js:305-315 | " FL-2024-8523" typed into the box finds the shipment |
| `Tracking.SampleIdWithSpaceNotFound` | script.js:201-207 | the same text on the sample-id path is not trimmed and is not found |
| `Tracking.LookupIsCaseSensitive` | script.js:318 | "fl-2024-8523" is not found: the lookup does not fold case |
| `Tracking.ShipmentInTransit` | script.js:135-148 | FL-2024-8523 shows "In Transit" with 3 of 5 stages reached |
| `Tracking.ShipmentDelivered` | script.js:149-162 | FL-2024-7621 shows "Delivered" with all 5 stages reached |
| `Tracking.ShipmentProcessing` | script.js:163-176 | FL-2024-9142 shows "Processing" with 2 of 5 stages reached |
| `Tracking.SampleTimelinesReachedFirst` | script.js:134-177 | in every stored timeline no stage is reached after one that is not |
| `Tracking.HandleTrackingAsWritten` | script.js:317-356 | the lookup as written: ids that are Object.prototype property names throw a TypeError; every other id gives the corrected panel |
| `Tracking.ToStringIdThrows` | script.js:318-345 | the id "toString" throws where the not-found panel was intended |

## Findings

| source | as written | input that shows it | evidently intended | confidence | as-written member | corrected member |
|---|---|---|---|---|---|---|
| script.js:318-345 | `trackingDatabase[trackingId]` also finds properties inherited from Object.prototype; the "shipment" found has no `timeline`, so `shipment.timeline.map` throws a TypeError and no panel is written | the tracking id `toString` (also `constructor`, `__proto__`, `valueOf`, ...) | every id that is not a key shows the not-found panel | high on ECMA-262 lookup semantics; not executed | `Tracking.ToStringIdThrows` | `Tracking.HandleTracking` |
| script.js:33-37 | `pageMap[currentPage]` finds an inherited function for such page names; it is truthy, so the `nav-home` fallback is skipped, and no element has the id it converts to | the path `/toString` | every page name outside the table highlights `nav-home` | high on ECMA-262 lookup semantics; not executed | `Navigation.ToStringPageHighlightsNothing` | `Navigation.NavIdFor` |

## Left out

- `loadComponent` / `loadComponents` (script.js:2-22): these fetch the header and footer over the network and inject them. This is I/O.
- The markup built by `renderMarketplaceData` (script.js:260-283) and by `handleTracking`'s templates (script.js:321-355). The model returns the products and the panel data that are rendered, not the HTML.
- Reading the page: the search box, sort control and active filter button become the parameter `Marketplace.Controls`. Highlighting the link with `classList.add` (script.js:34-37), the filter buttons' `active` class switching (script.js:297-298) and the result panel's `display` style are DOM writes and are not modelled.
- `showModal`, `handleContact`, `setupEventListeners`, `setupSmoothScroll`, `setupSampleIdButtons`, `setupMarketplaceSearch` (script.js:197-228, 391-518): these are DOM construction and event wiring. The two tracking entry paths are modelled as `Tracking.TrackTypedId` and `Tracking.TrackSampleId`.
- `animateStats` / `animateValue` (script.js:359-389): these use floating-point steps, interval timers and an IntersectionObserver.
- The scroll-reveal observer and the navbar shadow (script.js:529-565): these are browser callbacks.
- Console logging (script.js:8, 567-568).
- `Text.Lower`: lower-cases only the ASCII letters A-Z. Full Unicode `toLowerCase` is not modelled.
- `Text.LocaleCompare`: compares code points lexicographically instead of using the ECMA-402 locale collation. The sorting proofs use only its order laws (`Text.LocaleCompareAntisymmetric`, `Text.LocaleCompareTransitive`, combined in `Sorting.StringOrderLaws`), which a real collation also has; they do not use the fact that ties are equal strings. The model also makes ties equal strings, which a real collation need not do.
- `Sorting.SortInPlace`: the engine's actual sort algorithm is implementation-defined. It is modelled by a stable insertion sort. For a consistent comparator, any stable sort gives the same order. That uniqueness is not proved here.
- The catalog is a sequence value, so the model cannot express the script's in-place changes to it. The script never changes the catalog: `filter` copies it before the in-place sort.
