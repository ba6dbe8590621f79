/** The restaurant catalogue page: recommendation levels, the search and
    level filter, and client-side pagination of 20 rows per page. */
module Restaurants {
  import opened Strings
  import opened Sequences
  import opened Integers

  const ItemsPerPage: nat := 20
  /** The level-filter value that keeps every level. */
  const AllLevels := "all"

  datatype Restaurant = Restaurant(id: int, name: string, area: string, category: string,
                                   isTop5: bool, isBest: bool, isGood: bool)

  datatype Level = Top5 | Best | Good | Unrated {
    /** The string `getRecommendLevel` returns for this level. */
    function Code(): string {
      match this
      case Top5 => "top5"
      case Best => "best"
      case Good => "good"
      case Unrated => "none"
    }
  }

  /** `getRecommendLevel`: the first flag set, in the order top5, best, good. */
  function RecommendLevel(r: Restaurant): (level: Level)
    ensures level == Top5 <==> r.isTop5
    ensures level == Best <==> !r.isTop5 && r.isBest
    ensures level == Good <==> !r.isTop5 && !r.isBest && r.isGood
    ensures level == Unrated <==> !r.isTop5 && !r.isBest && !r.isGood
  {
    if r.isTop5 then Top5
    else if r.isBest then Best
    else if r.isGood then Good
    else Unrated
  }

  /** `getRecommendLabel`: the badge text. */
  function RecommendLabel(r: Restaurant): (badge: string)
    ensures RecommendLevel(r) == Top5 ==> badge == "서울 5대 돈가스"
    ensures RecommendLevel(r) == Best ==> badge == "강추"
    ensures RecommendLevel(r) == Good ==> badge == "꽤 괜찮"
    ensures RecommendLevel(r) == Unrated ==> badge == "-"
  {
    if r.isTop5 then "서울 5대 돈가스"
    else if r.isBest then "강추"
    else if r.isGood then "꽤 괜찮"
    else "-"
  }

  /** `getRecommendClass`: the badge's CSS class, the level's code except
      that an unrated restaurant gets no class. */
  function RecommendClass(r: Restaurant): (c: string)
    ensures RecommendLevel(r) == Unrated ==> c == ""
    ensures RecommendLevel(r) != Unrated ==> c == RecommendLevel(r).Code()
  {
    if r.isTop5 then "top5"
    else if r.isBest then "best"
    else if r.isGood then "good"
    else ""
  }

  /** The label is a function of the level, and tells the levels apart. */
  lemma LabelMatchesLevel(a: Restaurant, b: Restaurant)
    ensures RecommendLabel(a) == RecommendLabel(b) <==> RecommendLevel(a) == RecommendLevel(b)
  {
  }

  /** The name or the area contains the search term, ignoring case. */
  predicate MatchesSearch(r: Restaurant, term: string, fold: char -> char) {
    var t := Lower(term, fold);
    Contains(Lower(r.name, fold), t) || Contains(Lower(r.area, fold), t)
  }

  predicate MatchesLevel(r: Restaurant, filterLevel: string) {
    filterLevel == AllLevels || RecommendLevel(r).Code() == filterLevel
  }

  /** `filteredRestaurants`: every matching row, as often as it occurs, in order. */
  function FilterRestaurants(restaurants: seq<Restaurant>, term: string, filterLevel: string,
                             fold: char -> char): (r: seq<Restaurant>)
    ensures IsSubsequence(r, restaurants)
    ensures forall i :: 0 <= i < |r| ==> MatchesSearch(r[i], term, fold) && MatchesLevel(r[i], filterLevel)
    ensures forall x :: x in restaurants && MatchesSearch(x, term, fold) && MatchesLevel(x, filterLevel) ==> x in r
    ensures forall x :: multiset(r)[x] == (if MatchesSearch(x, term, fold) && MatchesLevel(x, filterLevel)
                                           then multiset(restaurants)[x] else 0)
  {
    var keep := x => MatchesSearch(x, term, fold) && MatchesLevel(x, filterLevel);
    FilterIsSubsequence(restaurants, keep);
    FilterCounts(restaurants, keep);
    Filter(restaurants, keep)
  }

  /** With no search term and every level, the whole catalogue is listed. */
  lemma FilterNothing(restaurants: seq<Restaurant>, fold: char -> char)
    ensures FilterRestaurants(restaurants, "", AllLevels, fold) == restaurants
  {
    var keep := x => MatchesSearch(x, "", fold) && MatchesLevel(x, AllLevels);
    forall i | 0 <= i < |restaurants|
      ensures keep(restaurants[i])
    {
      ContainsEmpty(Lower(restaurants[i].name, fold));
    }
    FilterAllKept(restaurants, keep);
  }

  /** `Math.ceil(n / itemsPerPage)`. */
  function TotalPages(n: nat): (pages: nat)
    ensures n <= pages * ItemsPerPage
    ensures n > 0 ==> (pages - 1) * ItemsPerPage < n
    ensures pages == 0 <==> n == 0
  {
    (n + ItemsPerPage - 1) / ItemsPerPage
  }

  /** `filtered.slice((page - 1) * 20, page * 20)`: the rows shown on `page`. */
  function Page<T>(s: seq<T>, page: int): (r: seq<T>)
    ensures |r| <= ItemsPerPage
    ensures page >= 1 ==> r == s[Min((page - 1) * ItemsPerPage, |s|)..Min(page * ItemsPerPage, |s|)]
  {
    Slice(s, (page - 1) * ItemsPerPage, page * ItemsPerPage)
  }

  /** Page 0, reached by "next" when there are no pages, shows nothing. */
  lemma PageZeroIsEmpty<T>(s: seq<T>)
    ensures Page(s, 0) == []
  {
  }

  /** Pages 1 through `k`, one after another. */
  function Pages<T>(s: seq<T>, k: nat): seq<T> {
    if k == 0 then [] else Pages(s, k - 1) + Page(s, k)
  }

  lemma {:induction false} PagesArePrefix<T>(s: seq<T>, k: nat)
    ensures Pages(s, k) == s[..Min(k * ItemsPerPage, |s|)]
  {
    if k > 0 {
      PagesArePrefix(s, k - 1);
      var a, b := Min((k - 1) * ItemsPerPage, |s|), Min(k * ItemsPerPage, |s|);
      assert s[..a] + s[a..b] == s[..b];
    }
  }

  /** Reading pages 1 to `totalPages` in order shows every filtered row once, in order. */
  lemma PagesReassemble<T>(s: seq<T>)
    ensures Pages(s, TotalPages(|s|)) == s
  {
    PagesArePrefix(s, TotalPages(|s|));
  }

  /** The "previous" button: `Math.max(1, currentPage - 1)`. */
  function PreviousPage(page: int): (p: int)
    ensures p >= 1 && p >= page - 1
    ensures p == page - 1 || p == 1
  {
    if page - 1 > 1 then page - 1 else 1
  }

  /** The "next" button: `Math.min(totalPages, currentPage + 1)`. */
  function NextPage(page: int, totalPages: nat): (p: int)
    ensures p <= totalPages && p <= page + 1
    ensures p == page + 1 || p == totalPages
  {
    if totalPages < page + 1 then totalPages else page + 1
  }

  /** From a page in range, both buttons lead to a page in range. */
  lemma NavigationStaysInRange(page: int, totalPages: nat)
    requires 1 <= page <= totalPages
    ensures 1 <= PreviousPage(page) <= totalPages
    ensures 1 <= NextPage(page, totalPages) <= totalPages
  {
  }

  /** With nothing to list, "next" from page 1 goes to page 0, which is empty. */
  lemma NextWithoutPages<T>(s: seq<T>)
    requires s == []
    ensures NextPage(1, TotalPages(|s|)) == 0
    ensures Page(s, NextPage(1, TotalPages(|s|))) == []
  {
  }
}
