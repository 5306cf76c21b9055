/** The framework paginator the blog hands its listings to: `Paginator(items,
    per_page)` with no orphans and an allowed empty first page, and its
    `get_page`, which turns an untrusted page parameter into a page that
    always exists. */
module Paginator {
  import opened Tables
  import PyInt

  /** One page: its items, its 1-based number and the number of pages. */
  datatype Page<T> = Page(items: seq<T>, number: nat, numPages: nat)
  {
    predicate HasNext() { number < numPages }
    predicate HasPrevious() { number > 1 }
  }

  function Min(a: int, b: int): int { if a <= b then a else b }

  /** Where page `k` starts: `(k - 1) * per_page`, built up one page at a time. */
  function Offset(k: nat, perPage: nat): nat
    requires k >= 1
  {
    if k == 1 then 0 else Offset(k - 1, perPage) + perPage
  }

  lemma {:induction false} OffsetIsProduct(k: nat, perPage: nat)
    requires k >= 1
    ensures Offset(k, perPage) == (k - 1) * perPage
  {
    if k > 1 {
      OffsetIsProduct(k - 1, perPage);
      assert (k - 1) * perPage == (k - 2) * perPage + perPage;
    }
  }

  lemma {:induction false} OffsetMonotone(j: nat, k: nat, perPage: nat)
    requires 1 <= j <= k
    ensures Offset(j, perPage) <= Offset(k, perPage)
    decreases k - j
  {
    if j < k {
      OffsetMonotone(j + 1, k, perPage);
    }
  }

  /** `num_pages`: `ceil(max(1, count) / per_page)`, so an empty listing still
      has one (empty) page. Counted off one page at a time: the last page
      starts inside the listing and reaches its end. */
  function NumPages(count: nat, perPage: nat): (n: nat)
    requires perPage > 0
    ensures n >= 1
    ensures count <= Offset(n, perPage) + perPage
    ensures Offset(n, perPage) < count || (count == 0 && n == 1)
    decreases count
  {
    if count <= perPage then 1
    else NumPages(count - perPage, perPage) + 1
  }

  /** The page count is the least `n >= 1` with `count <= n * per_page`. */
  lemma NumPagesBounds(count: nat, perPage: nat)
    requires perPage > 0
    ensures count <= NumPages(count, perPage) * perPage
    ensures (NumPages(count, perPage) - 1) * perPage < count || (count == 0 && NumPages(count, perPage) == 1)
  {
    var n := NumPages(count, perPage);
    OffsetIsProduct(n, perPage);
    assert n * perPage == (n - 1) * perPage + perPage;
  }

  /** What `validate_number` makes of the page parameter. */
  datatype Validated = Valid(number: nat) | NotAnInteger | EmptyPage

  /** `validate_number`: `int()` of the parameter (a missing parameter is a
      `TypeError`), then a range check against `num_pages`. */
  function ValidateNumber(param: Option<string>, numPages: nat): (v: Validated)
    ensures v.NotAnInteger? <==> param.None? || PyInt.ParseInt(param.value).None?
    ensures v.Valid? <==>
              param.Some? && PyInt.ParseInt(param.value).Some?
              && 1 <= PyInt.ParseInt(param.value).value <= numPages
    ensures v.Valid? ==> 1 <= v.number <= numPages && PyInt.ParseInt(param.value) == Some(v.number as int)
  {
    if param.None? then NotAnInteger
    else match PyInt.ParseInt(param.value)
      case None => NotAnInteger
      case Some(k) => if k < 1 || k > numPages then EmptyPage else Valid(k)
  }

  /** The page number `get_page` settles on: page 1 for a missing or
      non-integer parameter, the LAST page for an integer out of range. */
  function PageNumber(param: Option<string>, numPages: nat): (k: nat)
    requires numPages >= 1
    ensures 1 <= k <= numPages
    ensures param.None? ==> k == 1
    ensures param.Some? && PyInt.ParseInt(param.value).None? ==> k == 1
    ensures param.Some? && PyInt.ParseInt(param.value).Some? ==>
              var m := PyInt.ParseInt(param.value).value;
              k == if 1 <= m <= numPages then m else numPages
  {
    match ValidateNumber(param, numPages)
    case Valid(k) => k
    case NotAnInteger => 1
    case EmptyPage => numPages
  }

  /** `page(k).object_list`: the items from the page's offset up to, not
      including, one page further or the end of the listing. */
  function PageItems<T>(items: seq<T>, k: nat, perPage: nat): (r: seq<T>)
    requires perPage > 0 && 1 <= k <= NumPages(|items|, perPage)
    ensures |r| <= perPage
    ensures |r| == Min(perPage, |items| - Offset(k, perPage))
    ensures forall i :: 0 <= i < |r| ==> r[i] == items[Offset(k, perPage) + i]
    ensures k < NumPages(|items|, perPage) ==> |r| == perPage
    ensures r == [] <==> items == []
  {
    PageBounds(|items|, k, perPage);
    var bottom := Offset(k, perPage);
    items[bottom..Min(bottom + perPage, |items|)]
  }

  /** A page holds only items of the listing it was cut from. */
  lemma PageItemsFromListing<T>(items: seq<T>, k: nat, perPage: nat)
    requires perPage > 0 && 1 <= k <= NumPages(|items|, perPage)
    ensures forall x :: x in PageItems(items, k, perPage) ==> x in items
  {
    var r := PageItems(items, k, perPage);
    forall x | x in r ensures x in items {
      var i :| 0 <= i < |r| && r[i] == x;
      assert x == items[Offset(k, perPage) + i];
    }
  }

  /** Every page but the last is full; the last starts inside the listing
      and reaches its end. */
  lemma PageBounds(count: nat, k: nat, perPage: nat)
    requires perPage > 0 && 1 <= k <= NumPages(count, perPage)
    ensures Offset(k, perPage) <= count
    ensures Offset(k, perPage) < count || count == 0
    ensures k < NumPages(count, perPage) ==> Offset(k, perPage) + perPage <= count
    ensures k == NumPages(count, perPage) ==> count <= Offset(k, perPage) + perPage
  {
    var n := NumPages(count, perPage);
    OffsetMonotone(k, n, perPage);
    if k < n {
      OffsetMonotone(k + 1, n, perPage);
    }
  }

  /** Page `k` is the slice `[(k-1)*per_page, min(k*per_page, count))`. */
  lemma PageItemsSlice<T>(items: seq<T>, k: nat, perPage: nat)
    requires perPage > 0 && 1 <= k <= NumPages(|items|, perPage)
    ensures var lo, hi := (k - 1) * perPage, Min(k * perPage, |items|);
            0 <= lo <= hi <= |items| && PageItems(items, k, perPage) == items[lo..hi]
  {
    PageBounds(|items|, k, perPage);
    OffsetIsProduct(k, perPage);
    assert k * perPage == (k - 1) * perPage + perPage;
  }

  /** `get_page(param)`. */
  function GetPage<T>(items: seq<T>, param: Option<string>, perPage: nat): (p: Page<T>)
    requires perPage > 0
    ensures p.numPages == NumPages(|items|, perPage)
    ensures 1 <= p.number <= p.numPages
    ensures p.number == PageNumber(param, p.numPages)
    ensures p.items == PageItems(items, p.number, perPage)
  {
    var n := NumPages(|items|, perPage);
    var k := PageNumber(param, n);
    Page(PageItems(items, k, perPage), k, n)
  }

  /** The pages from the `k`-th to the last, concatenated in order. */
  function PagesFrom<T>(items: seq<T>, k: nat, perPage: nat): seq<T>
    requires perPage > 0 && 1 <= k
    decreases NumPages(|items|, perPage) + 1 - k
  {
    if k > NumPages(|items|, perPage) then []
    else PageItems(items, k, perPage) + PagesFrom(items, k + 1, perPage)
  }

  /** The pages from the `k`-th onwards: page `k`, then the pages after it. */
  lemma PagesFromUnfold<T>(items: seq<T>, k: nat, perPage: nat)
    requires perPage > 0 && 1 <= k <= NumPages(|items|, perPage)
    ensures PagesFrom(items, k, perPage) == PageItems(items, k, perPage) + PagesFrom(items, k + 1, perPage)
    ensures k == NumPages(|items|, perPage) ==> PagesFrom(items, k + 1, perPage) == []
  {
  }

  lemma {:induction false} PagesFromSuffix<T>(items: seq<T>, k: nat, perPage: nat)
    requires perPage > 0 && 1 <= k <= NumPages(|items|, perPage)
    ensures Offset(k, perPage) <= |items|
    ensures PagesFrom(items, k, perPage) == items[Offset(k, perPage)..]
    decreases NumPages(|items|, perPage) + 1 - k
  {
    PagesFromUnfold(items, k, perPage);
    if k < NumPages(|items|, perPage) {
      PagesFromSuffix(items, k + 1, perPage);
      PageThenRest(items, k, perPage);
    } else {
      LastPage(items, k, perPage);
    }
  }

  lemma LastPage<T>(items: seq<T>, k: nat, perPage: nat)
    requires perPage > 0 && 1 <= k == NumPages(|items|, perPage)
    ensures Offset(k, perPage) <= |items|
    ensures PageItems(items, k, perPage) == items[Offset(k, perPage)..]
  {
    PageBounds(|items|, k, perPage);
  }

  /** A full page followed by the listing after it is the listing from the page on. */
  lemma PageThenRest<T>(items: seq<T>, k: nat, perPage: nat)
    requires perPage > 0 && 1 <= k < NumPages(|items|, perPage)
    ensures Offset(k + 1, perPage) <= |items|
    ensures items[Offset(k, perPage)..] == PageItems(items, k, perPage) + items[Offset(k + 1, perPage)..]
  {
    PageBounds(|items|, k, perPage);
    var lo := Offset(k, perPage);
    assert Offset(k + 1, perPage) == lo + perPage;
    assert PageItems(items, k, perPage) == items[lo..lo + perPage];
    assert items[lo..] == items[lo..lo + perPage] + items[lo + perPage..];
  }

  /** The pages, concatenated in order, reproduce the listing exactly. */
  lemma PagesCoverItems<T>(items: seq<T>, perPage: nat)
    requires perPage > 0
    ensures PagesFrom(items, 1, perPage) == items
  {
    PagesFromSuffix(items, 1, perPage);
  }

  /** An out-of-range page number, below 1 as well as past the end, gives the
      last page. */
  lemma OutOfRangeGivesLastPage<T>(items: seq<T>, k: int, perPage: nat)
    requires perPage > 0
    requires k < 1 || k > NumPages(|items|, perPage)
    ensures GetPage(items, Some(PyInt.Show(k)), perPage).number == NumPages(|items|, perPage)
  {
    PyInt.ParseShow(k);
  }

  /** A page parameter that is not an integer, or no parameter at all, gives page 1. */
  lemma NonNumericGivesFirstPage<T>(items: seq<T>, param: Option<string>, perPage: nat)
    requires perPage > 0
    requires param.None? || PyInt.ParseInt(param.value).None?
    ensures GetPage(items, param, perPage).number == 1
    ensures !GetPage(items, param, perPage).HasPrevious()
  {
  }

  /** An empty listing has exactly one page, and it is empty. */
  lemma EmptyListingOnePage<T>(items: seq<T>, param: Option<string>, perPage: nat)
    requires perPage > 0 && items == []
    ensures GetPage(items, param, perPage) == Page([], 1, 1)
  {
    assert NumPages(0, perPage) == 1;
    assert PageNumber(param, 1) == 1;
    assert PageItems(items, 1, perPage) == [];
  }

  /** An integer page number within range gives exactly that page. */
  lemma InRangeGivesThatPage<T>(items: seq<T>, k: int, perPage: nat)
    requires perPage > 0 && 1 <= k <= NumPages(|items|, perPage)
    ensures GetPage(items, Some(PyInt.Show(k)), perPage)
            == Page(PageItems(items, k, perPage), k, NumPages(|items|, perPage))
  {
    PyInt.ParseShow(k);
  }

  /** Twenty-five items at ten per page: three pages; the first full, the
      last holding five and without a next page; page 0 resolves to the last. */
  lemma TwentyFiveItems<T>(items: seq<T>)
    requires |items| == 25
    ensures NumPages(25, 10) == 3
    ensures |GetPage(items, Some(PyInt.Show(1)), 10).items| == 10
    ensures var last := GetPage(items, Some(PyInt.Show(3)), 10);
            |last.items| == 5 && !last.HasNext() && last.HasPrevious()
    ensures GetPage(items, Some(PyInt.Show(0)), 10).number == 3
  {
    assert NumPages(25, 10) == 3;
    InRangeGivesThatPage(items, 1, 10);
    InRangeGivesThatPage(items, 3, 10);
    OutOfRangeGivesLastPage(items, 0, 10);
  }
}
