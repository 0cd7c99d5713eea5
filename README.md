# Restaurant dashboard: filter pipeline and modal manager

This project models the two pieces of the restaurant dashboard that carry
logic of their own and proves properties of them in Dafny.

- **The record pipeline of `Public/Res/app.js`** (module `Dashboard`):
  - `getFilteredRestaurants`: a conjunctive filter over the record list. It
    matches category, city and status exactly, checks the tri-state awards
    fields, and does a case-insensitive substring search over a space-joined
    text. A comparator sort on the current sort key follows.
  - The category option list built by `populateCategoryFilter`.
  - The top-of-category selection of `renderTopRestaurants`.
  - The award-winner and closed lists.
  - The glyph sequence of `createStarRating`.
- **The dialog controller of `Public/Res/js/modal-fixes.js`** (module
  `ModalFixes`):
  - The `ModalManager` class. It keeps an ordered list of open modal ids and
    drives the page's modal elements and the body's scroll lock.
  - The body of the periodic sweep.
  - The card search `performSearch`.

Two supporting modules state the JavaScript built-ins the code relies on.

- `Builtins` holds:
  - `Array.prototype.filter`;
  - `String.prototype.includes`;
  - `toLowerCase`, restricted to ASCII;
  - code-unit string comparison.
- `Sorting` holds `Array.prototype.sort`. Since ECMAScript 2019 this sort is
  stable. It is modelled as a stable insertion sort `SortBy` over a "may
  precede" relation. With a consistent comparator, its result is proved to be:
  - sorted;
  - a permutation of its input;
  - stable;
  - the only sequence with those three properties (`SortByIsTheStableSort`).

  So any stable sort with the same comparator returns the same list.

Modelling choices:

- Records are values (`Dashboard.Restaurant`). Absent optional strings are
  `""`.
- Award fields are `NoAward | Yes | Tier(tier)`. `false` and the empty tier
  are falsy.
- Ratings are whole tenths: 4.5 is 45.
- Statuses are raw strings, compared exactly as the code writes them:
  - the status filter compares them verbatim;
  - top-of-category requires `"Open"`;
  - the closed list requires `"CLOSED"`.

  The code tests the literal `'CLOSED'` both for the closed badge
  (`Public/Res/app.js:210`) and for the closed list
  (`Public/Res/app.js:374`). A record whose status reads `"Closed"` therefore
  gets no closed badge and is not in the closed list (`SushiClosedExample`).
- The page of `modal-fixes.js` is a `Page` object with three parts:
  - its elements keyed by id, each with the classes and inline `display`
    the code reads and writes, and a count of click listeners on its close
    buttons;
  - the body lock, which stands for `overflow: hidden` together with class
    `modal-open`;
  - the restaurant cards.
- `ModalManager.Valid()` is the class invariant: the id list is duplicate
  free, and a non-empty list implies a locked body. `Consistent()`
  strengthens `Valid()`'s lock clause: the body is locked exactly while the
  list is non-empty.
  - Closing a modal, force-closing and the sweep establish `Consistent()`.
  - Opening, Escape and backdrop clicks preserve it.
- The sweep removes every `.modal` or `.modal-backdrop` whose inline
  `display` is not `'none'`, including modals whose inline display was never
  set. The model keeps that behaviour.

## Model

| member | source | states |
|---|---|---|
| Builtins.Filter | Public/Res/app.js:98-141 | the result is no longer than the input and holds exactly the input elements the predicate accepts |
| Builtins.FilterMultiplicity | Public/Res/app.js:98-141 | filtering keeps every occurrence of an accepted value and none of a rejected one, so it only removes elements |
| Builtins.FilterSubsequence | Public/Res/app.js:327-330 | filtering keeps the accepted elements in their original order |
| Builtins.FilterConcat | Public/Res/app.js:98-141 | filtering a concatenation filters each part |
| Builtins.DistinctMultiplicity | Public/Res/js/modal-fixes.js:47 | a list is duplicate free iff every value occurs at most once |
| Builtins.DistinctPermutation | Public/Res/app.js:88 | reordering a duplicate-free list keeps it duplicate free |
| Builtins.Includes | Public/Res/app.js:135 | the definition of `String.prototype.includes`, also used at modal-fixes.js:182; IncludesIffOccurs proves it holds iff the needle occurs at some index |
| Builtins.LowerChar | Public/Res/app.js:126 | the definition of `toLowerCase` on one character, ASCII letters only (see "## Left out") |
| Builtins.Lower | Public/Res/app.js:126-133 | the definition of `toLowerCase` on a string, also used at modal-fixes.js:176 and 179-180; SearchFilterExact and CardVisibility state the searches built on it |
| Builtins.CompareStrings | Public/Res/app.js:88 | the definition of the default `sort()` order by code units, also standing in for `localeCompare` at app.js:155 and 157; CompareStringsZero, CompareStringsFlip and CompareStringsTransitive prove it a consistent total order |
| Builtins.IncludesIffOccurs | Public/Res/app.js:135 | `includes` holds iff the needle occurs at some index of the text |
| Builtins.IncludesEmpty | Public/Res/js/modal-fixes.js:182 | the empty needle is included in every text |
| Builtins.CompareStringsZero | Public/Res/app.js:154-157 | two strings compare as 0 iff they are equal |
| Builtins.CompareStringsFlip | Public/Res/app.js:154-157 | swapping the arguments negates the comparison |
| Builtins.CompareStringsTransitive | Public/Res/app.js:154-157 | "sorts no later than" on strings is transitive |
| Sorting.Insert | Public/Res/app.js:144 | inserting adds exactly one occurrence of the element |
| Sorting.SortBy | Public/Res/app.js:144-161 | the sorted list is a permutation of its input |
| Sorting.InsertSorted | Public/Res/app.js:144 | inserting into a sorted list keeps it sorted |
| Sorting.SortBySorted | Public/Res/app.js:144-161 | with a consistent comparator the result is sorted |
| Sorting.InsertStable | Public/Res/app.js:144 | within every class of equivalent elements, the inserted element comes first, as if put at the front |
| Sorting.SortByStable | Public/Res/app.js:144-161 | within each class of equivalent elements the input order is kept (stability) |
| Sorting.SortByAllEqual | Public/Res/app.js:158-159 | a comparator that finds every pair equal leaves the list unchanged |
| Sorting.SortedStableUnique | Public/Res/app.js:144-161 | two sorted lists that keep the same order in every equivalence class are equal |
| Sorting.SortByIsTheStableSort | Public/Res/app.js:144-161 | every sorted, stable arrangement of the input is SortBy's result |
| Dashboard.InOrderIsTotalPreorder | Public/Res/app.js:144-161 | each sort key's comparator is total and transitive, so the sort is well defined |
| Dashboard.Truthy | Public/Res/app.js:116-121 | the definition of JavaScript truthiness of an award field, also used at app.js:328-329; AwardsFilterExact and AwardWinners state the selections built on it |
| Dashboard.SearchableText | Public/Res/app.js:127-133 | the definition of the space-joined text the search scans (name, category, city, location, notes); its meaning is proved in SearchFilterExact |
| Dashboard.AwardsMatch | Public/Res/app.js:115-122 | the definition of the awards test; proved exact by AwardsFilterExact |
| Dashboard.SearchMatch | Public/Res/app.js:125-138 | the definition of the search test; proved exact by SearchFilterExact |
| Dashboard.Matches | Public/Res/app.js:98-141 | the definition of the filter callback, the conjunction of the five field tests; FilteredRestaurants states that the view holds exactly the records it accepts |
| Dashboard.Compare | Public/Res/app.js:144-161 | the definition of the comparator for each sort key; proved consistent by InOrderIsTotalPreorder and characterised per key by RankViewOrder, RatingViewOrder, NameViewOrder, CityViewOrder and UnknownSortKeepsStoreOrder |
| Dashboard.FilteredRestaurants | Public/Res/app.js:97-164 | the view is no larger than the store, holds exactly the store records passing every non-empty filter, and each as often as the store does |
| Dashboard.ViewSorted | Public/Res/app.js:144-161 | the view is ordered by the comparator of its sort key |
| Dashboard.ViewIsStableSort | Public/Res/app.js:144-161 | records the comparator finds equal keep their store order, and the view is the only sorted arrangement with that property |
| Dashboard.RankViewOrder | Public/Res/app.js:146-151 | under "rank" every rank-0 record follows every ranked one, and ranks ascend |
| Dashboard.RatingViewOrder | Public/Res/app.js:152-153 | under "rating" ratings never increase |
| Dashboard.NameViewOrder | Public/Res/app.js:154-155 | under "name" names never decrease |
| Dashboard.CityViewOrder | Public/Res/app.js:156-157 | under "city" cities never decrease |
| Dashboard.UnknownSortKeepsStoreOrder | Public/Res/app.js:158-159 | any other sort key leaves the filtered records in store order |
| Dashboard.AwardsFilterExact | Public/Res/app.js:115-122 | "michelin" keeps exactly the truthy-michelin records, "james_beard" the truthy-james_beard ones, anything else keeps all |
| Dashboard.SearchFilterExact | Public/Res/app.js:125-138 | a non-empty search keeps a record iff the lowered query occurs in the lowered space-joined text; the empty search keeps all |
| Dashboard.SearchByCategoryExample | Public/Res/app.js:125-138 | "SUSHI" finds a record named "B" through its category "Sushi" |
| Dashboard.IsAwardWinner | Public/Res/app.js:327-330 | the definition of the award-winner test: a truthy michelin or james_beard field; AwardWinners states the list it selects |
| Dashboard.IsClosed | Public/Res/app.js:373-375 | the definition of the closed test: status exactly "CLOSED"; ClosedRestaurants states the list it selects |
| Dashboard.IsTopCandidate | Public/Res/app.js:292 | the definition of the top-of-category test: status "Open" and rank 1; LastTopCandidateIsLast and TopByCategory state the selection it drives |
| Dashboard.AwardWinners | Public/Res/app.js:327-330 | exactly the store records with a truthy michelin or james_beard field, each as often as in the store, in store order |
| Dashboard.ClosedRestaurants | Public/Res/app.js:373-375 | exactly the store records whose status is "CLOSED", each as often as in the store, in store order |
| Dashboard.LastTopCandidate | Public/Res/app.js:291-295 | the definition of the record the overwrite at app.js:293 leaves for a category; LastTopCandidateIsLast states that it is the last open rank-1 record of that category |
| Dashboard.TopCategoryOrder | Public/Res/app.js:290-298 | the definition of the key order `Object.values` follows; TopCategoryOrderExact states that it lists each category with a candidate exactly once |
| Dashboard.LastTopCandidateIsLast | Public/Res/app.js:291-295 | the chosen record is an open rank-1 record of its category with no such record after it; none is chosen iff the category has none |
| Dashboard.TopCategoryOrderExact | Public/Res/app.js:290-298 | the category order lists each category that has a candidate exactly once |
| Dashboard.TopByCategory | Public/Res/app.js:290-295 | the map holds a category iff it has an open rank-1 record, mapped to its last one; its keys come in first-insertion order |
| Dashboard.TopRestaurants | Public/Res/app.js:298 | at most six cards, each the last open rank-1 record of its category, in key order, no category twice |
| Dashboard.SushiFilterExample | Public/Res/app.js:97-164 | of an open michelin record and an unranked one of the same category, the michelin filter keeps the first alone |
| Dashboard.SushiTopExample | Public/Res/app.js:290-295 | the open rank-1 record heads its category |
| Dashboard.SushiClosedExample | Public/Res/app.js:373-375 | status "Closed" is not in the closed list; "CLOSED" is |
| Dashboard.DistinctCategories | Public/Res/app.js:81-86 | the set of categories holds each non-empty store category once, and nothing else |
| Dashboard.StringOrderIsTotalPreorder | Public/Res/app.js:88 | the default string sort order is total and transitive |
| Dashboard.CategoryOptions | Public/Res/app.js:75-94 | "All Categories" with value "" first, then every non-empty store category once, in strictly ascending order, label equal to value |
| Dashboard.FullStars | Public/Res/app.js:260 | the definition of `Math.floor(rating)` on tenths; StarRating and StarsForValidRating state the glyphs it yields |
| Dashboard.HalfStar | Public/Res/app.js:261 | the definition of the half-star test (fraction at least .5); StarRating and StarsForValidRating state the glyphs it yields |
| Dashboard.FilledCount | Public/Res/app.js:264-271 | the definition of the number of filled glyphs the first loop and the half-star test draw; StarRating and StarsForValidRating state its value |
| Dashboard.HollowCount | Public/Res/app.js:273-277 | the definition of the number of empty glyphs, `emptyStars` clamped at zero as the loop runs; StarRating and StarsForValidRating state its value |
| Dashboard.StarRating | Public/Res/app.js:258-280 | the filled glyphs come first (floor of the rating, plus one for a half of at least .5), then the empty ones up to five |
| Dashboard.StarsForValidRating | Public/Res/app.js:258-280 | for ratings 0 to 5 there are exactly five glyphs, and the filled ones are the rating rounded half up |
| ModalFixes.Without | Public/Res/js/modal-fixes.js:57 | the definition of the page after `el.remove()` of every selected element, also at modal-fixes.js:110 and 232-233; Page.RemoveAll is proved to produce it |
| ModalFixes.IsBackdrop | Public/Res/js/modal-fixes.js:57 | the definition of the `.modal-backdrop` selector; CloseModal states what its removal leaves |
| ModalFixes.IsDialogSurface | Public/Res/js/modal-fixes.js:110 | the definition of the `.modal, .modal-backdrop, [data-modal]` selector; ForceCloseAllModals and ForceCloseThenOpen state what its removal leaves |
| ModalFixes.IsStuck | Public/Res/js/modal-fixes.js:232-233 | the definition of the sweep's selector and inline-display test; Sweep states what its removal leaves |
| ModalFixes.Opened | Public/Res/js/modal-fixes.js:25-39 | the definition of a modal after a successful open: shown, active, one listener per close button; OpenModal states that it is the new element |
| ModalFixes.Closed | Public/Res/js/modal-fixes.js:50-54 | the definition of a modal after close: hidden, inactive, no close listeners; CloseModal and HandleEscapeKey state that it is the new element |
| ModalFixes.Page.RemoveAll | Public/Res/js/modal-fixes.js:57 | exactly the selected elements are removed, and nothing else changes |
| ModalFixes.RemoveId | Public/Res/js/modal-fixes.js:47 | every occurrence of the id goes, the other ids keep their order, a duplicate-free list stays duplicate free, and an untracked id changes nothing |
| ModalFixes.RemovingLastEntry | Public/Res/js/modal-fixes.js:88-91 | removing the last id of a duplicate-free list drops just the last entry |
| ModalFixes.KeepAllDifferent | Public/Res/js/modal-fixes.js:47 | filtering out an id that is absent keeps the list as it is |
| ModalFixes.ModalManager.constructor | Public/Res/js/modal-fixes.js:7-10 | a new manager tracks no modal and is valid |
| ModalFixes.ModalManager.IsModalOpen | Public/Res/js/modal-fixes.js:103-105 | true iff the id is tracked; in a valid manager that implies a locked body |
| ModalFixes.ModalManager.RemoveModalEventListeners | Public/Res/js/modal-fixes.js:76-85 | the modal's close buttons lose all their listeners, nothing else changes |
| ModalFixes.ModalManager.AddModalEventListeners | Public/Res/js/modal-fixes.js:66-74 | each close button of the modal gains one listener, nothing else changes |
| ModalFixes.ModalManager.OpenModal | Public/Res/js/modal-fixes.js:20-40 | a missing or already tracked id changes nothing; otherwise the id is appended, the modal shown and active with one listener per close button, and the body locked; validity and consistency are kept |
| ModalFixes.ModalManager.CloseModal | Public/Res/js/modal-fixes.js:42-64 | a missing element changes nothing; otherwise every occurrence of the id goes, the modal is hidden, inactive and without close listeners, all backdrops are removed, and the body is locked exactly while modals remain |
| ModalFixes.ModalManager.HandleEscapeKey | Public/Res/js/modal-fixes.js:87-93 | Escape with a non-empty list closes exactly the last-opened modal and keeps the earlier ids; otherwise nothing changes |
| ModalFixes.ModalManager.HandleBackdropClick | Public/Res/js/modal-fixes.js:95-101 | a click on a tracked element with class `modal` closes it; any other click changes nothing |
| ModalFixes.ModalManager.ForceCloseAllModals | Public/Res/js/modal-fixes.js:108-118 | every `.modal`, `.modal-backdrop` or `[data-modal]` element is removed, the list emptied and the body unlocked |
| ModalFixes.OpenTwice | Public/Res/js/modal-fixes.js:20-28 | opening the same modal twice tracks it once |
| ModalFixes.OpenThenClose | Public/Res/js/modal-fixes.js:42-64 | opening then closing a modal leaves nothing tracked and the body unlocked |
| ModalFixes.EscapeClosesLatest | Public/Res/js/modal-fixes.js:87-93 | after opening A then B, Escape closes B and leaves A open with the body locked |
| ModalFixes.ForceCloseThenOpen | Public/Res/js/modal-fixes.js:108-118 | after a force-close, opening a modal that was removed does nothing |
| ModalFixes.Sweep | Public/Res/js/modal-fixes.js:230-238 | with no modal tracked, every modal or backdrop not hidden inline is removed and the body unlocked; otherwise nothing changes |
| ModalFixes.CardMatches | Public/Res/js/modal-fixes.js:179-182 | the definition of the card test; CardVisibility proves it equivalent to an occurrence of the lowered query in the lowered name or category |
| ModalFixes.PerformSearch | Public/Res/js/modal-fixes.js:174-188 | each card is shown iff it matches the query, hidden otherwise; nothing else changes |
| ModalFixes.CardVisibility | Public/Res/js/modal-fixes.js:179-182 | a card matches iff the lowered query occurs in its lowered name or category (missing counts as ""), and the empty query matches every card |

## Left out

- The JSON fetch and its error logging (`Public/Res/app.js:6-17`). This is
  network I/O.
- DOM construction and HTML strings: cards, badges, rank display, the
  results count, and the detail markup of app.js's own `openModal`. This is
  presentation only.
- Event wiring, `initDashboard`, the load fallbacks, and the change handlers
  that write `currentFilters` and `currentSort`. These only route values into
  the filter and sort keys, which the model takes as parameters.
- The global error handler and the Ctrl+Shift+M shortcut. They only call
  `ForceCloseAllModals`.
- The search debounce and the `setInterval` timing. Only the body of the
  sweep is modelled, as an operation that can run at any time.
- app.js's separate `openModal`/`closeModalFunc`. They are a show/hide toggle
  of one element and are not coordinated with `ModalManager`. A body lock
  changed by them is outside the model.
- `Public/Res/script.py`. It writes a CSS file and has no logic.
- `toLowerCase` is modelled on ASCII letters only, and `localeCompare` as
  code-unit order. Unicode case mapping and locale collation are not
  modelled. Strings are sequences of Dafny characters rather than UTF-16
  code units.
- Ratings are whole tenths. Floating-point ratings with finer fractions are
  not modelled.
- Sorting.SortBy: models `Array.prototype.sort`, a built-in that reorders the
  array in place, as a function returning the sorted sequence. Sorting in
  place and aliasing of the array are not captured.
- Dashboard.TopByCategory: the map and its key order model a plain object
  and `Object.values` for ordinary keys only. Two kinds of category name
  are not modelled:
  - names that look like array indices, which JavaScript enumerates first,
    in ascending numeric order;
  - the name `"__proto__"`, whose assignment runs the prototype setter and
    creates no own key. `Object.values` never yields that record, but
    `TopCategoryOrder` and the model's map list it.
- Elements are keyed by id, as `getElementById` finds them. Several things
  about the page are not modelled:
  - several elements sharing an id, and elements without an id;
  - nesting of elements. `el.remove()` also removes everything inside the
    removed element, so a modal placed inside a `.modal-backdrop` is gone
    from the page after `closeModal`, but `Page.RemoveAll` removes only the
    selected entries and keeps it;
  - the DOM tree below a modal, other than its close-button count.
- Dashboard.StarRating: a rating that is not a number is not modelled. For
  such a rating the code draws no glyphs at all: both the full-star count
  and the empty-star count are NaN, so neither loop runs. Ratings in the
  model are integers.
