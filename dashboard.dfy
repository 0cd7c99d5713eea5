/**
 * The restaurant dashboard's data pipeline (Public/Res/app.js): the
 * conjunctive filter and comparator sort behind the card list, the category
 * options, the top-of-category, award-winner and closed projections, and the
 * star glyphs drawn for a rating.
 *
 * Ratings are whole tenths (4.5 is 45). Statuses are kept as the raw strings
 * of the data file: the filter compares them verbatim, the top-of-category
 * selection tests "Open" and the closed list tests "CLOSED".
 */
module Dashboard {
  import opened Builtins
  import opened Sorting

  /** An award field: `false`, `true`, or a string naming the tier. */
  datatype Award = NoAward | Yes | Tier(tier: string)

  /** JavaScript truthiness of an award field: `false` and "" are falsy. */
  predicate Truthy(a: Award) {
    a.Yes? || (a.Tier? && a.tier != "")
  }

  /** One record of the data file; absent optional strings are "". */
  datatype Restaurant = Restaurant(
    name: string,
    category: string,
    city: string,
    location: string,
    hours: string,
    status: string,
    rank: int,
    rating: int,
    michelin: Award,
    jamesBeard: Award,
    notes: string)

  /** The filter fields of the query; "" means the field does not filter. */
  datatype Filters = Filters(category: string, city: string, status: string, awards: string, search: string)

  const NoFilters := Filters("", "", "", "", "")
  const DefaultSort := "rank"

  // ---------------------------------------------------------------------------
  // Filtering

  predicate AwardsMatch(awards: string, r: Restaurant) {
    awards != "" ==>
      && (awards == "michelin" ==> Truthy(r.michelin))
      && (awards == "james_beard" ==> Truthy(r.jamesBeard))
  }

  /** Name, category, city, location and notes, joined with single spaces. */
  function SearchableText(r: Restaurant): string {
    r.name + " " + r.category + " " + r.city + " " + r.location + " " + r.notes
  }

  predicate SearchMatch(search: string, r: Restaurant) {
    search != "" ==> Includes(Lower(SearchableText(r)), Lower(search))
  }

  /** The predicate passed to `filter`: every non-empty filter field must hold. */
  predicate Matches(f: Filters, r: Restaurant) {
    && (f.category == "" || r.category == f.category)
    && (f.city == "" || r.city == f.city)
    && (f.status == "" || r.status == f.status)
    && AwardsMatch(f.awards, r)
    && SearchMatch(f.search, r)
  }

  function MatchesFilters(f: Filters): Restaurant -> bool {
    r => Matches(f, r)
  }

  // ---------------------------------------------------------------------------
  // Sorting

  /** The comparator handed to `sort` for each sort key; negative means `a` first. */
  function Compare(sortKey: string, a: Restaurant, b: Restaurant): int {
    if sortKey == "rank" then
      if a.rank == 0 && b.rank == 0 then 0
      else if a.rank == 0 then 1
      else if b.rank == 0 then -1
      else a.rank - b.rank
    else if sortKey == "rating" then b.rating - a.rating
    else if sortKey == "name" then CompareStrings(a.name, b.name)
    else if sortKey == "city" then CompareStrings(a.city, b.city)
    else 0
  }

  /** `a` may precede `b` in the sorted list. */
  function InOrder(sortKey: string): (Restaurant, Restaurant) -> bool {
    (a, b) => Compare(sortKey, a, b) <= 0
  }

  /** Every sort key's comparator is consistent, so the stable sort is well defined. */
  lemma InOrderIsTotalPreorder(sortKey: string)
    ensures TotalPreorder(InOrder(sortKey))
  {
    var le := InOrder(sortKey);
    forall a, b ensures le(a, b) || le(b, a) {
      CompareStringsFlip(a.name, b.name);
      CompareStringsFlip(a.city, b.city);
    }
    forall a, b, c | le(a, b) && le(b, c) ensures le(a, c) {
      if sortKey == "name" {
        CompareStringsTransitive(a.name, b.name, c.name);
      } else if sortKey == "city" {
        CompareStringsTransitive(a.city, b.city, c.city);
      }
    }
  }

  /**
   * getFilteredRestaurants: the records passing every filter, in comparator
   * order, equal keys in store order.
   */
  function FilteredRestaurants(store: seq<Restaurant>, f: Filters, sortKey: string): (view: seq<Restaurant>)
    ensures |view| <= |store|
    ensures forall r :: r in view <==> r in store && Matches(f, r)
    ensures forall r :: multiset(view)[r] == if Matches(f, r) then multiset(store)[r] else 0
  {
    FilterMultiplicity(store, MatchesFilters(f));
    SortBy(InOrder(sortKey), Filter(store, MatchesFilters(f)))
  }

  /** The view is ordered by the comparator of its sort key. */
  lemma ViewSorted(store: seq<Restaurant>, f: Filters, sortKey: string)
    ensures Sorted(InOrder(sortKey), FilteredRestaurants(store, f, sortKey))
  {
    InOrderIsTotalPreorder(sortKey);
    SortBySorted(InOrder(sortKey), Filter(store, MatchesFilters(f)));
  }

  /**
   * Records the comparator finds equal keep their store order, and the view
   * is the only sorted arrangement of the filtered records that does so:
   * any stable sort returns it.
   */
  lemma ViewIsStableSort(store: seq<Restaurant>, f: Filters, sortKey: string)
    ensures SameClasses(InOrder(sortKey), FilteredRestaurants(store, f, sortKey), Filter(store, MatchesFilters(f)))
    ensures forall other ::
      (Sorted(InOrder(sortKey), other) && SameClasses(InOrder(sortKey), other, Filter(store, MatchesFilters(f))))
      ==> other == FilteredRestaurants(store, f, sortKey)
  {
    var le := InOrder(sortKey);
    var kept := Filter(store, MatchesFilters(f));
    InOrderIsTotalPreorder(sortKey);
    forall k ensures Filter(SortBy(le, kept), Equivalent(le, k)) == Filter(kept, Equivalent(le, k)) {
      SortByStable(le, kept, k);
    }
    forall other | Sorted(le, other) && SameClasses(le, other, kept) ensures other == SortBy(le, kept) {
      SortByIsTheStableSort(le, kept, other);
    }
  }

  /** Under "rank", unranked (rank 0) records come last and the rest ascend by rank. */
  lemma RankViewOrder(store: seq<Restaurant>, f: Filters)
    ensures var view := FilteredRestaurants(store, f, "rank");
      forall i, j :: 0 <= i < j < |view| ==>
        && (view[i].rank == 0 ==> view[j].rank == 0)
        && (view[i].rank != 0 && view[j].rank != 0 ==> view[i].rank <= view[j].rank)
  {
    var view := FilteredRestaurants(store, f, "rank");
    ViewSorted(store, f, "rank");
    forall i, j | 0 <= i < j < |view| ensures Compare("rank", view[i], view[j]) <= 0 {
      assert InOrder("rank")(view[i], view[j]);
    }
  }

  /** Under "rating", ratings never increase along the view. */
  lemma RatingViewOrder(store: seq<Restaurant>, f: Filters)
    ensures var view := FilteredRestaurants(store, f, "rating");
      forall i, j :: 0 <= i < j < |view| ==> view[i].rating >= view[j].rating
  {
    var view := FilteredRestaurants(store, f, "rating");
    ViewSorted(store, f, "rating");
    forall i, j | 0 <= i < j < |view| ensures Compare("rating", view[i], view[j]) <= 0 {
      assert InOrder("rating")(view[i], view[j]);
    }
  }

  /** Under "name", names never decrease along the view. */
  lemma NameViewOrder(store: seq<Restaurant>, f: Filters)
    ensures var view := FilteredRestaurants(store, f, "name");
      forall i, j :: 0 <= i < j < |view| ==> CompareStrings(view[i].name, view[j].name) <= 0
  {
    var view := FilteredRestaurants(store, f, "name");
    ViewSorted(store, f, "name");
    forall i, j | 0 <= i < j < |view| ensures Compare("name", view[i], view[j]) <= 0 {
      assert InOrder("name")(view[i], view[j]);
    }
  }

  /** Under "city", cities never decrease along the view. */
  lemma CityViewOrder(store: seq<Restaurant>, f: Filters)
    ensures var view := FilteredRestaurants(store, f, "city");
      forall i, j :: 0 <= i < j < |view| ==> CompareStrings(view[i].city, view[j].city) <= 0
  {
    var view := FilteredRestaurants(store, f, "city");
    ViewSorted(store, f, "city");
    forall i, j | 0 <= i < j < |view| ensures Compare("city", view[i], view[j]) <= 0 {
      assert InOrder("city")(view[i], view[j]);
    }
  }

  /** An unrecognised sort key leaves the filtered records in store order. */
  lemma UnknownSortKeepsStoreOrder(store: seq<Restaurant>, f: Filters, sortKey: string)
    requires sortKey !in {"rank", "rating", "name", "city"}
    ensures FilteredRestaurants(store, f, sortKey) == Filter(store, MatchesFilters(f))
  {
    SortByAllEqual(InOrder(sortKey), Filter(store, MatchesFilters(f)));
  }

  const NoRecord := Restaurant("", "", "", "", "", "", 0, 0, NoAward, NoAward, "")

  // ---------------------------------------------------------------------------
  // Properties of the individual filters

  /**
   * "michelin" keeps exactly the records with a truthy michelin field,
   * "james_beard" likewise, and any other awards value removes nothing.
   */
  lemma AwardsFilterExact(awards: string, r: Restaurant)
    ensures awards == "michelin" ==> (AwardsMatch(awards, r) <==> Truthy(r.michelin))
    ensures awards == "james_beard" ==> (AwardsMatch(awards, r) <==> Truthy(r.jamesBeard))
    ensures awards !in {"michelin", "james_beard"} ==> AwardsMatch(awards, r)
  {
  }

  /**
   * A non-empty search keeps a record exactly when the lowered query occurs
   * somewhere in the lowered searchable text; an empty search keeps all.
   */
  lemma SearchFilterExact(search: string, r: Restaurant)
    ensures search == "" ==> SearchMatch(search, r)
    ensures search != "" ==>
      (SearchMatch(search, r) <==> exists i :: OccursAt(Lower(SearchableText(r)), Lower(search), i))
  {
    IncludesIffOccurs(Lower(SearchableText(r)), Lower(search));
  }

  // ---------------------------------------------------------------------------
  // Aggregate views

  predicate IsAwardWinner(r: Restaurant) {
    Truthy(r.michelin) || Truthy(r.jamesBeard)
  }

  /** The award-winners section: records with either award, in store order. */
  function AwardWinners(store: seq<Restaurant>): (winners: seq<Restaurant>)
    ensures forall r :: r in winners <==> r in store && (Truthy(r.michelin) || Truthy(r.jamesBeard))
    ensures Subsequence(winners, store)
    ensures forall r :: multiset(winners)[r] == if IsAwardWinner(r) then multiset(store)[r] else 0
  {
    FilterSubsequence(store, IsAwardWinner);
    FilterMultiplicity(store, IsAwardWinner);
    Filter(store, IsAwardWinner)
  }

  predicate IsClosed(r: Restaurant) {
    r.status == "CLOSED"
  }

  /** The closed section: records whose status is exactly "CLOSED", in store order. */
  function ClosedRestaurants(store: seq<Restaurant>): (closed: seq<Restaurant>)
    ensures forall r :: r in closed <==> r in store && r.status == "CLOSED"
    ensures Subsequence(closed, store)
    ensures forall r :: multiset(closed)[r] == if IsClosed(r) then multiset(store)[r] else 0
  {
    FilterSubsequence(store, IsClosed);
    FilterMultiplicity(store, IsClosed);
    Filter(store, IsClosed)
  }

  /** A record may head its category: open and ranked first. */
  predicate IsTopCandidate(r: Restaurant) {
    r.status == "Open" && r.rank == 1
  }

  /** The last top candidate of category `c` in `s`, if any. */
  function LastTopCandidate(s: seq<Restaurant>, c: string): Option<Restaurant> {
    if s == [] then None
    else if IsTopCandidate(s[|s| - 1]) && s[|s| - 1].category == c then Some(s[|s| - 1])
    else LastTopCandidate(s[..|s| - 1], c)
  }

  /** The categories holding a top candidate, in order of their first candidate. */
  function TopCategoryOrder(s: seq<Restaurant>): seq<string> {
    if s == [] then []
    else
      var prior := TopCategoryOrder(s[..|s| - 1]);
      var r := s[|s| - 1];
      if IsTopCandidate(r) && r.category !in prior then prior + [r.category] else prior
  }

  /**
   * The last-wins selection: the chosen record is a candidate of its category
   * and no candidate of that category follows it; there is none exactly when
   * the category has no candidate.
   */
  lemma {:induction false} LastTopCandidateIsLast(s: seq<Restaurant>, c: string)
    ensures LastTopCandidate(s, c).None? <==>
      forall i :: 0 <= i < |s| ==> !(IsTopCandidate(s[i]) && s[i].category == c)
    ensures LastTopCandidate(s, c).Some? ==>
      exists i :: (0 <= i < |s| && s[i] == LastTopCandidate(s, c).value
        && IsTopCandidate(s[i]) && s[i].category == c
        && forall j :: i < j < |s| ==> !(IsTopCandidate(s[j]) && s[j].category == c))
  {
    if s != [] {
      var n := |s| - 1;
      LastTopCandidateIsLast(s[..n], c);
      if !(IsTopCandidate(s[n]) && s[n].category == c) {
        assert forall i :: 0 <= i < n ==> s[..n][i] == s[i];
        if LastTopCandidate(s, c).Some? {
          var i :| 0 <= i < n && s[..n][i] == LastTopCandidate(s, c).value
            && IsTopCandidate(s[..n][i]) && s[..n][i].category == c
            && forall j :: i < j < n ==> !(IsTopCandidate(s[..n][j]) && s[..n][j].category == c);
          assert s[i] == LastTopCandidate(s, c).value;
        }
      }
    }
  }

  /** The category order lists each category with a candidate exactly once. */
  lemma {:induction false} TopCategoryOrderExact(s: seq<Restaurant>)
    ensures Distinct(TopCategoryOrder(s))
    ensures forall c :: c in TopCategoryOrder(s) <==> LastTopCandidate(s, c).Some?
  {
    if s != [] {
      var n := |s| - 1;
      TopCategoryOrderExact(s[..n]);
    }
  }

  /**
   * renderTopRestaurants' `topByCategory`: scanning the store, every open
   * rank-1 record overwrites its category's entry. Also returns the keys in
   * the order they were first set, which is the order Object.values yields.
   */
  method TopByCategory(store: seq<Restaurant>) returns (top: map<string, Restaurant>, keys: seq<string>)
    ensures forall c :: c in top <==> LastTopCandidate(store, c).Some?
    ensures forall c :: c in top ==> Some(top[c]) == LastTopCandidate(store, c)
    ensures keys == TopCategoryOrder(store)
    ensures Distinct(keys) && forall c :: c in keys <==> c in top
  {
    top, keys := map[], [];
    for i := 0 to |store|
      invariant forall c :: c in top <==> LastTopCandidate(store[..i], c).Some?
      invariant forall c :: c in top ==> Some(top[c]) == LastTopCandidate(store[..i], c)
      invariant keys == TopCategoryOrder(store[..i])
    {
      assert store[..i + 1][..i] == store[..i];
      TopCategoryOrderExact(store[..i]);
      var r := store[i];
      if IsTopCandidate(r) {
        if r.category !in top {
          keys := keys + [r.category];
        }
        top := top[r.category := r];
      }
    }
    assert store[..|store|] == store;
    TopCategoryOrderExact(store);
  }

  /**
   * The top-restaurant cards: the first six entries of `topByCategory`, each
   * an open rank-1 record that is the last such record of its category, no
   * two of the same category.
   */
  method TopRestaurants(store: seq<Restaurant>) returns (cards: seq<Restaurant>)
    ensures |cards| == if |TopCategoryOrder(store)| < 6 then |TopCategoryOrder(store)| else 6
    ensures forall i :: 0 <= i < |cards| ==>
      && cards[i].category == TopCategoryOrder(store)[i]
      && IsTopCandidate(cards[i]) && cards[i] in store
      && LastTopCandidate(store, cards[i].category) == Some(cards[i])
    ensures forall i, j :: 0 <= i < j < |cards| ==> cards[i].category != cards[j].category
  {
    var top, keys := TopByCategory(store);
    var n := if |keys| < 6 then |keys| else 6;
    cards := [];
    for i := 0 to n
      invariant |cards| == i
      invariant forall k :: 0 <= k < i ==> cards[k] == top[keys[k]]
    {
      cards := cards + [top[keys[i]]];
    }
    forall i | 0 <= i < |cards|
      ensures cards[i].category == keys[i] && IsTopCandidate(cards[i]) && cards[i] in store
    {
      LastTopCandidateIsLast(store, keys[i]);
    }
  }

  /** A worked example: A is open, ranked first and michelin-starred. */
  const SushiA := NoRecord.(name := "A", category := "Sushi", rank := 1, status := "Open", rating := 45, michelin := Yes)
  /** B shares A's category, is unranked, and its status reads "Closed". */
  const SushiB := NoRecord.(name := "B", category := "Sushi", rank := 0, status := "Closed", rating := 30)

  /** The michelin filter keeps A alone. */
  lemma SushiFilterExample()
    ensures FilteredRestaurants([SushiA, SushiB], NoFilters.(awards := "michelin"), DefaultSort) == [SushiA]
  {
    var michelin := MatchesFilters(NoFilters.(awards := "michelin"));
    FilterCons(SushiA, [SushiB], michelin);
    FilterCons(SushiB, [], michelin);
    assert Filter([SushiA, SushiB], michelin) == [SushiA];
  }

  /** A heads the Sushi category. */
  lemma SushiTopExample()
    ensures TopCategoryOrder([SushiA, SushiB]) == ["Sushi"]
    ensures LastTopCandidate([SushiA, SushiB], "Sushi") == Some(SushiA)
  {
    assert [SushiA, SushiB][..1] == [SushiA];
    assert [SushiA][..0] == [];
    assert TopCategoryOrder([SushiA]) == [] + ["Sushi"];
  }

  /**
   * The closed list tests for "CLOSED" verbatim: B, whose status reads
   * "Closed", is not in it, and would be with the upper-case spelling.
   */
  lemma SushiClosedExample()
    ensures ClosedRestaurants([SushiA, SushiB]) == []
    ensures ClosedRestaurants([SushiA, SushiB.(status := "CLOSED")]) == [SushiB.(status := "CLOSED")]
  {
    assert "Closed"[1] != "CLOSED"[1];
    FilterCons(SushiA, [SushiB], IsClosed);
    FilterCons(SushiB, [], IsClosed);
    var c := SushiB.(status := "CLOSED");
    FilterCons(SushiA, [c], IsClosed);
    FilterCons(c, [], IsClosed);
  }

  /** The search lowers both sides, so "SUSHI" finds a record by its category "Sushi". */
  lemma SearchByCategoryExample(r: Restaurant)
    requires r == NoRecord.(name := "B", category := "Sushi")
    ensures Matches(NoFilters.(search := "SUSHI"), r)
  {
    var text := Lower(SearchableText(r));
    assert text[2..7] == Lower("SUSHI");
    IncludesIffOccurs(text, Lower("SUSHI"));
    assert OccursAt(text, Lower("SUSHI"), 2);
  }

  // ---------------------------------------------------------------------------
  // Category options

  datatype CategoryOption = CategoryOption(value: string, text: string)

  /** The distinct non-empty categories of the store. */
  function Categories(store: seq<Restaurant>): set<string> {
    set r | r in store && r.category != "" :: r.category
  }

  const StringOrder: (string, string) -> bool := (a, b) => CompareStrings(a, b) <= 0

  /**
   * populateCategoryFilter: "All Categories" with value "", then each distinct
   * non-empty category once, in ascending code-unit order.
   */
  method CategoryOptions(store: seq<Restaurant>) returns (options: seq<CategoryOption>)
    ensures |options| >= 1 && options[0] == CategoryOption("", "All Categories")
    ensures forall i :: 1 <= i < |options| ==> options[i].text == options[i].value
    ensures forall i, j :: 1 <= i < j < |options| ==> CompareStrings(options[i].value, options[j].value) < 0
    ensures forall c :: c in Categories(store) <==> exists i :: 1 <= i < |options| && options[i].value == c
  {
    var seen := DistinctCategories(store);
    var sorted := SortBy(StringOrder, seen);
    StringOrderIsTotalPreorder();
    SortBySorted(StringOrder, seen);
    DistinctPermutation(seen, sorted);
    assert forall c :: c in sorted <==> c in seen by {
      forall c ensures c in sorted <==> c in seen {
        assert c in multiset(sorted) <==> c in multiset(seen);
      }
    }
    options := [CategoryOption("", "All Categories")];
    for i := 0 to |sorted|
      invariant |options| == i + 1 && options[0] == CategoryOption("", "All Categories")
      invariant forall k :: 1 <= k <= i ==> options[k] == CategoryOption(sorted[k - 1], sorted[k - 1])
    {
      options := options + [CategoryOption(sorted[i], sorted[i])];
    }
    forall i, j | 1 <= i < j < |options| ensures CompareStrings(options[i].value, options[j].value) < 0 {
      assert StringOrder(sorted[i - 1], sorted[j - 1]);
      CompareStringsZero(sorted[i - 1], sorted[j - 1]);
    }
    forall c | c in sorted ensures exists i :: 1 <= i < |options| && options[i].value == c {
      var k :| 0 <= k < |sorted| && sorted[k] == c;
      assert options[k + 1].value == c;
    }
  }

  /**
   * The `Set` of categories built by `forEach`: each non-empty category once,
   * in order of first appearance.
   */
  method DistinctCategories(store: seq<Restaurant>) returns (seen: seq<string>)
    ensures Distinct(seen)
    ensures forall c :: c in seen <==> c in Categories(store)
  {
    seen := [];
    for i := 0 to |store|
      invariant Distinct(seen)
      invariant forall c :: c in seen <==> c in Categories(store[..i])
    {
      assert store[..i + 1] == store[..i] + [store[i]];
      var c := store[i].category;
      if c != "" && c !in seen {
        seen := seen + [c];
      }
    }
    assert store[..|store|] == store;
  }

  lemma StringOrderIsTotalPreorder()
    ensures TotalPreorder(StringOrder)
  {
    forall a, b ensures StringOrder(a, b) || StringOrder(b, a) {
      CompareStringsFlip(a, b);
    }
    forall a, b, c | StringOrder(a, b) && StringOrder(b, c) ensures StringOrder(a, c) {
      CompareStringsTransitive(a, b, c);
    }
  }

  // ---------------------------------------------------------------------------
  // Star rating

  /** A glyph of the rating: "★" (whole or half star) or "☆". */
  datatype Star = Filled | Hollow

  /** Math.floor(rating) for a rating in tenths. */
  function FullStars(rating: int): int {
    rating / 10
  }

  /** The fractional part is at least one half. */
  predicate HalfStar(rating: int) {
    rating - 10 * FullStars(rating) >= 5
  }

  function FilledCount(rating: int): nat {
    (if FullStars(rating) > 0 then FullStars(rating) else 0) + (if HalfStar(rating) then 1 else 0)
  }

  function HollowCount(rating: int): nat {
    var n := 5 - FullStars(rating) - (if HalfStar(rating) then 1 else 0);
    if n > 0 then n else 0
  }

  /**
   * createStarRating: the filled glyphs (whole stars, then the half star,
   * drawn with the same glyph), followed by the empty ones.
   */
  method StarRating(rating: int) returns (stars: seq<Star>)
    ensures |stars| == FilledCount(rating) + HollowCount(rating)
    ensures forall i :: 0 <= i < |stars| ==> (stars[i] == Filled <==> i < FilledCount(rating))
  {
    stars := [];
    var fullStars := FullStars(rating);
    var halfStar := HalfStar(rating);
    var i := 0;
    while i < fullStars
      invariant 0 <= i <= (if fullStars > 0 then fullStars else 0)
      invariant |stars| == i && forall k :: 0 <= k < i ==> stars[k] == Filled
    {
      stars := stars + [Filled];
      i := i + 1;
    }
    if halfStar {
      stars := stars + [Filled];
    }
    var emptyStars := 5 - fullStars - (if halfStar then 1 else 0);
    var filled := |stars|;
    assert filled == FilledCount(rating);
    i := 0;
    while i < emptyStars
      invariant 0 <= i <= (if emptyStars > 0 then emptyStars else 0)
      invariant |stars| == filled + i
      invariant forall k :: 0 <= k < |stars| ==> (stars[k] == Filled <==> k < filled)
    {
      stars := stars + [Hollow];
      i := i + 1;
    }
  }

  /**
   * For a rating between 0 and 5 stars there are always five glyphs, and the
   * filled ones are the rating rounded half up.
   */
  lemma StarsForValidRating(rating: int)
    requires 0 <= rating <= 50
    ensures FilledCount(rating) + HollowCount(rating) == 5
    ensures FilledCount(rating) == (rating + 5) / 10
  {
  }
}
