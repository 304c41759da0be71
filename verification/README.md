# Food-delivery search, cart and address helpers in Dafny

This project models the pure core of a React Native food-delivery client
and proves properties of it. The core has four parts:

- **The search and ranking library** (`searchUtils.js`):
  - text normalisation;
  - the relevance score for products and restaurants;
  - the relevance sort;
  - the quality filter;
  - grouping by type;
  - search suggestions;
  - the fuzzy subsequence search;
  - term highlighting;
  - the bounded `SearchCache`;
  - search-term validation.
- **The older search helpers** (`searchConfig.js`):
  - a relevance score with weights 100/50/25/10;
  - a stable sort by that score;
  - `normalizeSearchQuery`;
  - an eight-name suggestion list.
- **The shopping cart** (`CartContext.js`): add, remove, update quantity, clear, and the two totals. Each is a pure function over the item sequence.
- **The address builder** (`buildDetailedAddress` of `RealLocationService.js`): turns a reverse-geocoding result into a display address.

Files:

| file | module | contents |
|---|---|---|
| `wrappers.dfy` | `Wrappers` | `Option` |
| `text.dfy` | `Text` | character classes, lower-casing, diacritic stripping, `\w`/`\s` filtering, `trim`, `startsWith`/`includes`/`indexOf`, the name order |
| `seqs.dfy` | `Seqs` | subsequence, filter, first-seen dedup (`Set` then `Array.from`), take, map |
| `stable_sort.dfy` | `StableSort` | a stable insertion sort on integer-and-name keys (`Array.prototype.sort` is stable) |
| `catalog.dfy` | `Catalog` | the `Item` record shared by the search code |
| `search_utils.dfy` | `SearchUtils` | searchUtils.js without the cache |
| `search_cache.dfy` | `SearchCache` | the `SearchCache` class |
| `search_config.dfy` | `SearchConfig` | searchConfig.js |
| `cart.dfy` | `Cart` | CartContext.js |
| `address.dfy` | `Address` | `buildDetailedAddress` |

**Modelling conventions:**

- A text field that the code tests for truthiness (`x || ''`, `if (x)`) is a `string`, with "" for a missing value. At every use in this code, null, undefined and "" behave alike.
- Numeric fields tested for truthiness are `Option<real>`.
- `available` is compared with `!== false`, so it is an `Option<bool>`.
- An item's `type` is `Product | Restaurant`.
- **Character functions:**
  - `toLowerCase` maps ASCII and Latin-1 capitals, preserving length.
  - `normalize('NFD')` followed by removing U+0300..U+036F becomes a Latin-1 base-letter table.
  - `\w` is `[A-Za-z0-9_]`.
  - `\s` and `trim` use the JavaScript WhiteSpace and LineTerminator set.
  - `localeCompare` is code-point lexicographic order, which is a strict total order.
- `SearchCache` is its `Map` as a sequence of entries in insertion order, plus `maxSize`.
- Cart prices are exact reals.

## Model

| member | source | states |
|---|---|---|
| SearchUtils.NormalizeText | src/utils/searchUtils.js:6-15 | empty input gives ""; the output contains only lower-case `[a-z0-9_]` and whitespace and has no whitespace at either end |
| SearchUtils.NormalizeTextTwoWords | src/utils/searchUtils.js:9-14 | two words without whitespace, each normalising to something non-empty, joined by a whitespace run: the result is the two normalised words with that same run between them ("Açaí  Bowl" gives "acai  bowl"), so inner whitespace is neither dropped nor moved |
| SearchUtils.NormalizedIsFixedPoint | src/utils/searchUtils.js:6-15 | a string already in normal form is returned unchanged |
| SearchUtils.NormalizeTextIdempotent | src/utils/searchUtils.js:6-15 | normalising twice equals normalising once |
| SearchUtils.NormalizeTextKeepsWords | src/utils/searchUtils.js:6-15 | the output's non-whitespace characters are exactly the `\w` characters of the lower-cased, accent-stripped input, in order: nothing is invented or reordered |
| SearchUtils.NormalizeTextOfPlainText | src/utils/searchUtils.js:6-15 | on text made only of ASCII letters, digits, `_` and whitespace, the result is the lower-cased text, trimmed |
| SearchUtils.WordCharSurvivesNormalization | src/utils/searchUtils.js:6-15 | a text containing any `[A-Za-z0-9_]` character never normalises to "" |
| SearchUtils.NameTier | src/utils/searchUtils.js:31-37 | the name contributes exactly one of 100 (equal), 80 (starts with but not equal), 60 (contains but does not start with), 0 (does not contain), each as an if-and-only-if |
| SearchUtils.RelevanceScore | src/utils/searchUtils.js:20-73 | a restaurant scores in [0,170] and a product in [0,180]; the score is the name tier plus at most 70 (restaurant) or 80 (product) from the other fields; each field's weight is tied to that field by the `…Signal` lemmas below |
| SearchUtils.ExactNameScoresAtLeast100 | src/utils/searchUtils.js:20-73 | if the normalised name equals the normalised query, the score is at least 100 |
| SearchUtils.EmptyQueryScoresHigh | src/utils/searchUtils.js:20-73 | a query that normalises to "" still matches every text field: at least 140 for a restaurant and 150 for a product |
| SearchUtils.NameSignalIsAdditive | src/utils/searchUtils.js:20-73 | renaming an item changes its score by exactly the change in name tier; the other signals are independent of the name |
| SearchUtils.DescriptionSignal | src/utils/searchUtils.js:28-57 | changing only the description changes the score by exactly 20 (restaurant) or 30 (product) times ([normalised description now contains the normalised term] − [it did before]) |
| SearchUtils.CategorySignal | src/utils/searchUtils.js:27-60 | changing only the category changes a product's score by exactly 25·(now − before) on whether the normalised category contains the term, and a restaurant's by 40·(now − before) on `category \|\| cuisine_type` |
| SearchUtils.CuisineSignal | src/utils/searchUtils.js:27-36 | changing only the cuisine type changes a restaurant's score by 40·(now − before) when its category is empty and leaves it unchanged otherwise; a product's score never changes |
| SearchUtils.RestaurantNameSignal | src/utils/searchUtils.js:49-63 | changing only the restaurant name changes a product's score by exactly 15·(now − before) and a restaurant's not at all |
| SearchUtils.RatingSignal | src/utils/searchUtils.js:42 | changing only the rating changes a restaurant's score by exactly 10·([rating truthy and ≥ 4.5 now] − [before]) and a product's not at all |
| SearchUtils.DiscountSignal | src/utils/searchUtils.js:66 | changing only the discount changes a product's score by exactly 5·([discount truthy and > 0 now] − [before]) and a restaurant's not at all |
| SearchUtils.AvailableSignal | src/utils/searchUtils.js:69 | changing only `available` changes a product's score by exactly 5·([`available !== false` now] − [before]) and a restaurant's not at all |
| SearchUtils.RestaurantExtrasFrame | src/utils/searchUtils.js:26-42 | a restaurant's non-name bonus depends only on its category, cuisine type, description and rating |
| SearchUtils.ProductExtrasFrame | src/utils/searchUtils.js:46-69 | a product's non-name bonus depends only on its description, category, restaurant name, discount and availability |
| SearchUtils.SortByRelevance | src/utils/searchUtils.js:78-98 | the output is a permutation of the scored input; scores do not increase; on equal scores no restaurant comes before a product; on equal score and type, names are in order |
| SearchUtils.SortByRelevanceIsStable | src/utils/searchUtils.js:84-97 | entries the comparator cannot tell apart (same score, type and name) keep their input order, as the stable `Array.prototype.sort` keeps them |
| SearchUtils.SortedCarriesScores | src/utils/searchUtils.js:80-83 | every output element carries the relevance score of its own item, computed with `isRestaurant` set from its type |
| SearchUtils.SortByRelevancePermutes | src/utils/searchUtils.js:78-98 | after dropping the scores, the output items are a permutation of the input items |
| SearchUtils.FilterQualityResults | src/utils/searchUtils.js:103-119 | no kept restaurant is 'closed' or blank-named; no kept product is unavailable, blank-named or without a positive price |
| SearchUtils.FilterQualityIsOrderedSubsetAndIdempotent | src/utils/searchUtils.js:103-119 | the output is an order-preserving subsequence; an element is kept if and only if it is in the input and passes the quality test; a passing element keeps every copy the input has, and a failing one none; filtering twice equals filtering once |
| SearchUtils.GroupResultsByType | src/utils/searchUtils.js:124-145 | products and restaurants together have the input's length; each group holds only its type; every featured result scores at least 80 |
| SearchUtils.GroupsAreFilters | src/utils/searchUtils.js:124-145 | each of the three groups is exactly the order-preserving filter of the input by its predicate |
| SearchUtils.GroupPartitions | src/utils/searchUtils.js:124-145 | products and restaurants together are a permutation of the input |
| SearchUtils.GenerateSearchSuggestions | src/utils/searchUtils.js:150-173 | [] when the normalised query is shorter than 2; at most 5 names; no duplicates; which five and in what order is stated by SuggestionsOrder |
| SearchUtils.SuggestionsMatch | src/utils/searchUtils.js:157-170 | every suggestion's normalised name contains the normalised query and differs from it |
| SearchUtils.SuggestionsOrder | src/utils/searchUtils.js:150-173 | suggestions are the first distinct candidate names (products, then restaurants) in first-seen order: every suggestion is a candidate, suggestions follow first-seen order, no candidate first seen before a suggestion is left out, and no restaurant-only name precedes a product name |
| SearchUtils.SuggestionsComplete | src/utils/searchUtils.js:150-173 | when fewer than 5 names come back, every matching product and restaurant name is among them |
| SearchUtils.GreedyMatchCount | src/utils/searchUtils.js:186-192 | the count m is at most the query length; the first m query characters are a subsequence of the text; the first m+1 are not |
| SearchUtils.CountGreedyMatches | src/utils/searchUtils.js:187-192 | the loop computes that count: the longest query prefix that is a subsequence of the text |
| SearchUtils.FuzzySearch | src/utils/searchUtils.js:178-197 | [] when the normalised query is shorter than 3; every kept item passes the 70% test |
| SearchUtils.FuzzySearchKeepsExactly | src/utils/searchUtils.js:178-197 | the output is an order-preserving subsequence; an item is kept if and only if the query has at least 3 characters and 10·m ≥ 7·\|q\|, and a kept item keeps every copy the input has |
| SearchUtils.FuzzySearchKeepsSubstringMatches | src/utils/searchUtils.js:178-197 | an item whose normalised field contains the normalised query is always kept |
| SearchUtils.SubstringMatchedInFull | src/utils/searchUtils.js:187-192 | when the text contains the query, the greedy count is the full query length |
| SearchUtils.HighlightSearchTerm | src/utils/searchUtils.js:202-216 | the text comes back unchanged if and only if the text or term is empty or there is no case-insensitive occurrence; otherwise before + highlight + after is the text, the highlight has the term's length and equals it ignoring case, and no occurrence starts inside `before` |
| SearchUtils.ValidateSearchTerm | src/utils/searchUtils.js:269-284 | a term is valid if and only if it is a string whose trimmed length is at most 100 and that contains a letter in `[a-zA-ZÀ-ÿ]` |
| SearchUtils.LettersSurviveTrim | src/utils/searchUtils.js:272-281 | trimming never removes a letter, so testing the letter on the trimmed or the raw term agrees |
| SearchUtils.ValidationIgnoresPadding | src/utils/searchUtils.js:269-284 | surrounding a term with whitespace does not change its validity |
| SearchUtils.ValidTermCanNormalizeToEmpty | src/utils/searchUtils.js:269-284 | "×" is a valid term (it lies in À-ÿ) yet normalises to "" |
| SearchCache.NewCache | src/utils/searchUtils.js:222-225 | a new cache is empty with the given capacity |
| SearchCache.Get | src/utils/searchUtils.js:227-236 | the result is the stored value or null; a miss leaves the cache unchanged; a hit removes the key and re-inserts it at the most-recent end, the other entries keeping their order |
| SearchCache.GetPreservesContents | src/utils/searchUtils.js:227-236 | `get` changes no key's stored value |
| SearchCache.GetKeepsValid | src/utils/searchUtils.js:227-236 | `get` keeps keys unique and the size unchanged |
| SearchCache.Set | src/utils/searchUtils.js:238-245 | after `set(k, v)`, `get(k)` returns v |
| SearchCache.SetKeepsValid | src/utils/searchUtils.js:238-245 | keys stay unique; for a capacity of at least 1 the size never exceeds the capacity |
| SearchCache.SetFrame | src/utils/searchUtils.js:238-245 | any other key keeps its value unless it is the first key and the cache was at capacity, in which case it is evicted |
| SearchCache.SetOrder | src/utils/searchUtils.js:238-245 | after the eviction, if any, a new key is appended after the other entries in their order; an existing key keeps its position with the new value (as `Map.set` does) and every other entry stays where it was |
| SearchCache.Clear | src/utils/searchUtils.js:247-249 | clearing empties the cache and keeps its capacity |
| SearchCache.LookupPut | src/utils/searchUtils.js:244 | `Map.set` makes k map to v and leaves every other key alone |
| SearchCache.LookupRemove | src/utils/searchUtils.js:242 | `Map.delete` unmaps k and leaves every other key alone |
| SearchCache.SetEvictsOnOverwrite | src/utils/searchUtils.js:238-245 | a full cache {1:10, 2:20} with capacity 2 loses key 1 on `set(2, 30)` and shrinks to one entry |
| SearchCache.SetFixed | src/utils/searchUtils.js:238-245 | the corrected `set`: after it, k maps to v |
| SearchCache.SetFixedFrame | src/utils/searchUtils.js:238-245 | the corrected `set` evicts the first key only when inserting a new key at capacity; it keeps keys unique and the size within capacity |
| SearchCache.SetFixedOverwriteKeepsOthers | src/utils/searchUtils.js:238-245 | with the correction, overwriting a present key changes no other key and keeps the size |
| SearchConfig.NameWeight | src/utils/searchConfig.js:122-131 | the name contributes exactly one of 100, 50, 25, 0 by equal / starts with / contains / neither, each as an if-and-only-if, with a missing name giving 0 |
| SearchConfig.SearchRelevance | src/utils/searchConfig.js:117-150 | the score lies in [0,135]; it is at least 100 if and only if the name is non-empty and the lower-cased name equals the lower-cased query; each field's weight is tied to that field by the three `…Signal` lemmas below |
| SearchConfig.NameSignal | src/utils/searchConfig.js:122-131 | renaming an item changes its score by exactly the change in name weight |
| SearchConfig.DescriptionSignal | src/utils/searchConfig.js:134-139 | changing only the description changes the score by exactly 10·([non-empty description contains the query, ignoring case, now] − [before]) |
| SearchConfig.CategorySignal | src/utils/searchConfig.js:142-147 | changing only the category changes the score by exactly 25·([non-empty category contains the query, ignoring case, now] − [before]) |
| SearchConfig.RelevancePositiveIffSomeFieldMatches | src/utils/searchConfig.js:117-150 | the score is positive if and only if the name, description or category contains the query |
| SearchConfig.RelevanceValues | src/utils/searchConfig.js:34-39 | the score is one of the twelve sums of the weights |
| SearchConfig.SortByRelevance | src/utils/searchConfig.js:153-161 | the output is a permutation of the input items with no score attached; scores do not increase |
| SearchConfig.SortByRelevanceIsStable | src/utils/searchConfig.js:153-161 | items with equal scores keep their input order |
| SearchConfig.CollapseSpaces | src/utils/searchConfig.js:204 | no two adjacent spaces remain; the output is no longer than the input; it starts with a space if and only if the input starts with whitespace |
| SearchConfig.NormalizeSearchQuery | src/utils/searchConfig.js:197-205 | "" gives ""; the output holds only lower-case `[a-z0-9_]` and single spaces, with no two adjacent |
| SearchConfig.CollapseWordBreak | src/utils/searchConfig.js:204 | a whitespace run after an empty prefix or a non-space character, and before a non-space character or the end, becomes exactly one space, and the text on either side is collapsed on its own |
| SearchConfig.CollapseKeepsNonSpace | src/utils/searchConfig.js:204 | collapsing changes only whitespace: the non-whitespace characters of output and input are the same, in order |
| SearchConfig.NormalizeSearchQueryKeepsWords | src/utils/searchConfig.js:197-205 | the output's non-space characters are exactly the `\w` characters of the trimmed, lower-cased query, in order |
| SearchConfig.NormalizeSearchQueryTwoWords | src/utils/searchConfig.js:197-205 | two `\w` words separated by any whitespace run normalise to the lower-cased words joined by one space, so the word boundary is kept |
| SearchConfig.NormalizeSearchQueryNotIdempotent | src/utils/searchConfig.js:197-205 | "a !" normalises to "a ", which normalises to "a" |
| SearchConfig.NormalizeSearchQueryFixed | src/utils/searchConfig.js:197-205 | the corrected order (trim last) keeps the character guarantees and leaves no space at either end |
| SearchConfig.NormalizeSearchQueryFixedIdempotent | src/utils/searchConfig.js:197-205 | the corrected normalisation is idempotent |
| SearchConfig.GenerateSuggestions | src/utils/searchConfig.js:208-238 | [] for a query shorter than 2; at most 8 names; no duplicates; which eight and in what order is stated by SuggestionsOrder |
| SearchConfig.SuggestionsMatch | src/utils/searchConfig.js:217-235 | every suggestion's lower-cased name contains the lower-cased query |
| SearchConfig.SuggestionsOrder | src/utils/searchConfig.js:208-238 | suggestions are the first distinct candidate names (products, restaurants, categories) in first-seen order: every suggestion is a candidate, suggestions follow first-seen order, no candidate first seen before a suggestion is left out, and product names come first |
| SearchConfig.SuggestionsCategoriesLast | src/utils/searchConfig.js:208-238 | no category-only name precedes a product or restaurant name |
| SearchConfig.SuggestionsComplete | src/utils/searchConfig.js:208-238 | when fewer than 8 names come back, every matching product, restaurant and category name is among them |
| Cart.AddItem | src/contexts/CartContext.js:8-22 | an existing id has its quantity raised, and the length and every other item are unchanged; a new id appends the product with the quantity |
| Cart.AddItemTotals | src/contexts/CartContext.js:8-22 | with unique ids, adding raises the item count by the quantity and the price total by unit price × quantity |
| Cart.AddItemKeepsUniqueIds | src/contexts/CartContext.js:8-22 | adding keeps ids unique |
| Cart.RemoveItem | src/contexts/CartContext.js:24-26 | no item with the id remains and the cart does not grow |
| Cart.RemoveItemKeepsOthers | src/contexts/CartContext.js:24-26 | the result is an order-preserving subsequence holding exactly the items with other ids, each with as many copies as the input has |
| Cart.RemoveItemTotals | src/contexts/CartContext.js:24-26 | the totals drop by exactly the totals of the removed items |
| Cart.UpdateQuantity | src/contexts/CartContext.js:28-39 | a quantity ≤ 0 is exactly `removeItem`; a positive one sets the matching items' quantity and changes nothing else |
| Cart.RemoveItemKeepsUniqueIds | src/contexts/CartContext.js:24-26 | removing keeps ids unique |
| Cart.UpdateQuantityKeepsUniqueIds | src/contexts/CartContext.js:28-39 | updating a quantity, including removal by a quantity ≤ 0, keeps ids unique |
| Cart.UpdateQuantityTotals | src/contexts/CartContext.js:28-39 | with unique ids, the item count changes by new − old quantity and the price total by the cost difference of that line |
| Cart.ClearCart | src/contexts/CartContext.js:41-43 | the cart becomes empty |
| Cart.ClearedCartTotals | src/contexts/CartContext.js:45-49 | an empty cart has 0 items and price 0 |
| Cart.TotalItems | src/contexts/CartContext.js:49 | the sum of the line quantities: 0 for an empty cart, the one quantity for a one-line cart; with Cart.TotalsAppend this fixes it for every cart |
| Cart.TotalPrice | src/contexts/CartContext.js:45-47 | the sum of price × quantity over the lines: 0 for an empty cart, the one line's price × quantity for a one-line cart; with Cart.TotalsAppend this fixes it for every cart |
| Cart.TotalsAppend | src/contexts/CartContext.js:45-49 | both totals are additive over concatenation |
| Cart.TotalItemsBounds | src/contexts/CartContext.js:49 | with non-negative quantities the item count is non-negative; with positive ones it is at least the number of lines |
| Cart.TotalPriceBounds | src/contexts/CartContext.js:45-47 | with non-negative prices and quantities the price total is non-negative, and 0 when every quantity is 0 |
| Cart.ReachableCartsHaveUniqueIds | src/contexts/CartContext.js:5-43 | the cart starts empty, and any sequence of add, remove, update and clear calls leaves each id in it at most once |
| Address.Join | src/services/RealLocationService.js:177 | no parts give ""; the length is the parts' lengths plus one separator between each pair; the result starts with the first part |
| Address.JoinSnoc | src/services/RealLocationService.js:177 | joining one more part appends ", " and that part |
| Address.BuildDetailedAddress | src/services/RealLocationService.js:154-184 | `full` is "" if and only if no field is shown; `street` is "street, number" when both are present, the present one alone when only one is, and null when neither is; `neighborhood` is district, else subregion, else null; city/state/country map to city/region/country or null |
| Address.StreetLine | src/services/RealLocationService.js:159-160 | with street and number present, the street line is "street, number" |
| Address.SubregionShownIff | src/services/RealLocationService.js:165-167 | the subregion adds nothing to the parts if and only if it is absent or equals the district |
| Address.RegionShownIff | src/services/RealLocationService.js:169-171 | the region adds nothing to the parts if and only if it is absent or equals the city |
| Address.CountryShownIff | src/services/RealLocationService.js:172-174 | the country adds nothing to the parts if and only if it is absent or exactly "Mozambique" |
| Address.FullListsShownFields | src/services/RealLocationService.js:159-177 | for every input, `full` is the ", "-join of the street line (if any), the district, a subregion differing from the district, the city, a region differing from the city and a country other than "Mozambique", each only when present, in that order |
| Address.FullWhenAllShown | src/services/RealLocationService.js:163-177 | with every field shown, `full` lists street, number, district, subregion, city, region and country in that order, separated by ", " |

## Left out

- `createSearchDebounce` (searchUtils.js:257-264): its behaviour is host timers.
- The module-level `searchCache` singleton (searchUtils.js:252): the class is modelled, the global instance is not.
- The network diagnostics in searchConfig.js (`testAPIConnection`, `detectAvailableEndpoints`, `debugSearch`, `runSearchDiagnostic`) and the `SEARCH_CONFIG` fields only they use: these are network I/O.
- `RealLocationService` apart from `buildDetailedAddress`: permission, GPS and geocoding calls are device I/O, and the distance is floating-point trigonometry.
- The API client (`api.js`): network I/O.
- React state: each cart operation is the pure updater passed to `setItems`; rendering and context plumbing are left out.
- **Unicode:**
  - lower-casing and NFD decomposition cover ASCII and Latin-1 only;
  - lengths count code points where JavaScript counts UTF-16 units;
  - `localeCompare` is a code-point order rather than a locale collation.
- **Non-string inputs:** `typeof term !== 'string'` is modelled as `None`, and a non-string field of an item is not modelled.
- SearchCache.Get: a stored value is assumed truthy (the cache holds result arrays), so a falsy stored value reading as a miss is not modelled.
- SearchUtils.FuzzySearchKeepsExactly: the floating-point test `m / n >= 0.7` is stated as `10·m ≥ 7·n`. The two agree for every query shorter than 10^15 characters.
- Cart.TotalPrice: floating-point addition and multiplication are exact real arithmetic, so rounding in the totals is not modelled.
- Cart.AddItemTotals, Cart.UpdateQuantityTotals: the totals are stated for carts with unique ids. Every cart reached from the initial empty cart has them (Cart.ReachableCartsHaveUniqueIds). A cart with duplicate ids could only come from outside these operations and is not covered.
- SearchConfig.GenerateSuggestions: `allData.categories` is taken as its list of `name`s; a category without a name is not modelled.
- Untyped items (no `type` field): the score treats them as products, but the sort's tie-break is not antisymmetric for them, so `type` is restricted to product and restaurant.
- `normalizeText` (searchUtils.js:6-15) does not collapse inner whitespace, so neither does the model.
- SearchUtils.RelevanceScore: the function's own contract gives the bounds and the name tier only; the weight of each other field is stated by the per-field `…Signal` lemmas.
- SearchConfig.SearchRelevance: the function's own contract gives the bounds and the exact-match tier only; the description and category weights are stated by `DescriptionSignal` and `CategorySignal`.
- SearchUtils.GenerateSearchSuggestions: the function's own contract gives length, emptiness and uniqueness only; which candidates are kept and in what order is stated by `SuggestionsOrder` and `SuggestionsComplete`.
- SearchConfig.GenerateSuggestions: the function's own contract gives length, emptiness and uniqueness only; which candidates are kept and in what order is stated by `SuggestionsOrder` and `SuggestionsComplete`.

## Findings

| source | as written | input that shows it | evidently intended | confidence | as-written member | corrected member |
|---|---|---|---|---|---|---|
| src/utils/searchUtils.js:238-245 | `set` evicts the oldest entry whenever the cache is at capacity, even when the key being set is already present | capacity 2 holding {1:10, 2:20}; `set(2, 30)` drops key 1 and leaves one entry | evict only when inserting a new key into a full cache | not executed | SearchCache.SetEvictsOnOverwrite | SearchCache.SetFixedOverwriteKeepsOthers |
| src/utils/searchConfig.js:197-205 | `normalizeSearchQuery` trims before removing special characters, so a removed trailing character leaves a trailing space | "a !" gives "a ", and normalising that gives "a" | trim after the clean-up, making the normalisation idempotent | not executed | SearchConfig.NormalizeSearchQueryNotIdempotent | SearchConfig.NormalizeSearchQueryFixedIdempotent |
