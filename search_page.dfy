/** The pagination of the search results: ten results a page, pages numbered from 1, and the
    page reset to the first whenever a new query arrives. */
module SearchPage {
  /** Results on one page. */
  const ItemsPerPage := 10

  /** A bound of JavaScript's `slice`: a negative one counts from the end, and both are clamped
      to the sequence. */
  function SliceBound(n: nat, i: int): (b: nat)
    ensures b <= n
    ensures 0 <= i <= n ==> b == i
    ensures i > n ==> b == n
    ensures i < 0 ==> b == if n + i < 0 then 0 else n + i
  {
    if i < 0 then (if n + i < 0 then 0 else n + i)
    else if i > n then n
    else i
  }

  /** JavaScript's `s.slice(start, end)`: empty when `end` falls before `start`. */
  function JsSlice<T>(s: seq<T>, start: int, end: int): (r: seq<T>)
    ensures |r| <= |s|
    ensures 0 <= start <= end ==>
              && |r| == (if end <= |s| then end else |s|) - (if start <= |s| then start else |s|)
              && forall i | 0 <= i < |r| :: r[i] == s[start + i]
  {
    var from := SliceBound(|s|, start);
    var to := SliceBound(|s|, end);
    if to <= from then [] else s[from..to]
  }

  /** `paginatedResults`: the results of page `page`. */
  function Paginate<T>(results: seq<T>, page: int): (r: seq<T>)
    ensures page >= 1 ==>
              && |r| <= ItemsPerPage
              && |r| == (if page * ItemsPerPage <= |results| then ItemsPerPage
                         else if (page - 1) * ItemsPerPage < |results| then |results| - (page - 1) * ItemsPerPage
                         else 0)
              && forall i | 0 <= i < |r| :: r[i] == results[(page - 1) * ItemsPerPage + i]
  {
    JsSlice(results, (page - 1) * ItemsPerPage, page * ItemsPerPage)
  }

  /** The number of pages the pagination offers: `ceil(n / 10)`. */
  function PageCount(n: nat): (count: nat)
    ensures n == 0 <==> count == 0
    ensures (count - 1) * ItemsPerPage < n <= count * ItemsPerPage || n == 0
  {
    (n + ItemsPerPage - 1) / ItemsPerPage
  }

  /** The pagination is shown only when there are results. */
  function ShowsPagination<T>(results: seq<T>): (shown: bool)
    ensures shown <==> PageCount(|results|) > 0
  {
    |results| > 0
  }

  /** The page after a change of the query: the first one when there is a query, else the
      page as it was. */
  function PageAfterQuery(query: string, page: int): (p: int)
    ensures query != "" ==> p == 1
    ensures query == "" ==> p == page
  {
    if query != "" then 1 else page
  }

  /** The pages `1..k` one after another. */
  function Pages<T>(results: seq<T>, k: nat): seq<T> {
    if k == 0 then [] else Pages(results, k - 1) + Paginate(results, k)
  }

  /** The first `k` pages hold the first `10 k` results, or all of them. */
  lemma {:induction false} PagesArePrefix<T>(results: seq<T>, k: nat)
    ensures Pages(results, k) == results[..if k * ItemsPerPage <= |results| then k * ItemsPerPage else |results|]
  {
    if k > 0 {
      PagesArePrefix(results, k - 1);
      var lo := if (k - 1) * ItemsPerPage <= |results| then (k - 1) * ItemsPerPage else |results|;
      var hi := if k * ItemsPerPage <= |results| then k * ItemsPerPage else |results|;
      assert Paginate(results, k) == results[lo..hi];
      assert results[..lo] + results[lo..hi] == results[..hi];
    }
  }

  /** Paging through every page the pagination offers shows each result once, in order, and no
      offered page is empty. */
  lemma PagesCoverResults<T>(results: seq<T>)
    ensures Pages(results, PageCount(|results|)) == results
    ensures forall p | 1 <= p <= PageCount(|results|) :: Paginate(results, p) != []
  {
    PagesArePrefix(results, PageCount(|results|));
  }

  /** A new query shows the first ten results, whatever page was open before. */
  lemma NewQueryShowsFirstPage<T>(query: string, page: int, results: seq<T>)
    requires query != ""
    ensures Paginate(results, PageAfterQuery(query, page)) == results[..if |results| < ItemsPerPage then |results| else ItemsPerPage]
  {
  }
}
