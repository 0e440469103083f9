/** `paginate`: one page of at most ten records, with the page number
    clamped into the range of pages that exist. */
module Paging {

  const PageSize: nat := 10

  /** The response body of `paginate`. */
  datatype Page<T> = Page(items: seq<T>, page: int, pageSize: nat, total: nat, totalPages: nat)

  /** `max(1, (total + PAGE_SIZE - 1) // PAGE_SIZE)`: the number of pages,
      one at least, and just enough pages of ten to hold every record. */
  function TotalPages(total: nat): (pages: nat)
    ensures pages >= 1
    ensures total == 0 ==> pages == 1
    ensures total > 0 ==> (pages - 1) * PageSize < total <= pages * PageSize
  {
    var ceiling := (total + PageSize - 1) / PageSize;
    if ceiling < 1 then 1 else ceiling
  }

  /** `max(1, min(page, total_pages))`. */
  function ClampPage(page: int, totalPages: nat): (p: int)
    requires totalPages >= 1
    ensures 1 <= p <= totalPages
    ensures 1 <= page <= totalPages ==> p == page
    ensures page < 1 ==> p == 1
    ensures page > totalPages ==> p == totalPages
  {
    var atMost := if page < totalPages then page else totalPages;
    if atMost < 1 then 1 else atMost
  }

  /** Python's `s[start:end]` for `0 <= start <= end`: bounds past the end
      are cut back to the length. */
  function Slice<T>(s: seq<T>, start: nat, end: nat): (r: seq<T>)
    requires start <= end
    ensures |r| <= end - start
    ensures start <= |s| ==> r == s[start..if end <= |s| then end else |s|]
    ensures start >= |s| ==> r == []
  {
    var hi := if end <= |s| then end else |s|;
    var lo := if start <= hi then start else hi;
    s[lo..hi]
  }

  /** Where page `from` starts, and whether the list reaches past its end. */
  lemma PageBounds(n: nat, from: int)
    requires 1 <= from <= TotalPages(n)
    ensures (from - 1) * PageSize <= n
    ensures n > 0 ==> (from - 1) * PageSize < n
    ensures from * PageSize == (from - 1) * PageSize + PageSize
    ensures from < TotalPages(n) ==> from * PageSize < n
    ensures from == TotalPages(n) ==> n <= from * PageSize
  {
  }

  /** `paginate(items, page)`: the page size, the unchanged total, the page
      count, the requested page clamped into 1 .. totalPages whatever was
      asked (zero and negative pages included), and exactly the window of
      at most ten records that starts at that page's first record. A page
      that exists is never empty unless there are no records, and every
      page before the last is full. */
  function Paginate<T>(items: seq<T>, page: int): (r: Page<T>)
    ensures r.pageSize == 10 && r.total == |items|
    ensures r.totalPages >= 1
    ensures |items| == 0 ==> r.totalPages == 1
    ensures |items| > 0 ==> (r.totalPages - 1) * PageSize < |items| <= r.totalPages * PageSize
    ensures 1 <= r.page <= r.totalPages
    ensures 1 <= page <= r.totalPages ==> r.page == page
    ensures page < 1 ==> r.page == 1
    ensures page > r.totalPages ==> r.page == r.totalPages
    ensures (r.page - 1) * PageSize <= |items|
    ensures r.items == items[(r.page - 1) * PageSize..if r.page * PageSize <= |items| then r.page * PageSize else |items|]
    ensures |r.items| <= PageSize
    ensures |items| > 0 ==> |r.items| >= 1
    ensures r.page < r.totalPages ==> |r.items| == PageSize
  {
    var totalPages := TotalPages(|items|);
    var p := ClampPage(page, totalPages);
    PageBounds(|items|, p);
    var start := (p - 1) * PageSize;
    Page(Slice(items, start, start + PageSize), p, PageSize, |items|, totalPages)
  }

  /** The records of pages `from` .. `totalPages`, concatenated in page
      order. */
  function PagesFrom<T>(items: seq<T>, from: int): seq<T>
    requires from >= 1
    decreases TotalPages(|items|) + 1 - from
  {
    if from > TotalPages(|items|) then []
    else Paginate(items, from).items + PagesFrom(items, from + 1)
  }

  /** The records of page `from`: ten from its first record on, or the
      rest of the list on the last page. */
  lemma PageWindow<T>(items: seq<T>, from: int)
    requires 1 <= from <= TotalPages(|items|)
    ensures var start := (from - 1) * PageSize;
      && start <= |items|
      && (from < TotalPages(|items|) ==>
            start + PageSize <= |items| && Paginate(items, from).items == items[start..start + PageSize])
      && (from == TotalPages(|items|) ==> Paginate(items, from).items == items[start..])
  {
    PageBounds(|items|, from);
  }

  lemma {:induction false} PagesFromIsSuffix<T>(items: seq<T>, from: int)
    requires 1 <= from <= TotalPages(|items|)
    ensures (from - 1) * PageSize <= |items|
    ensures PagesFrom(items, from) == items[(from - 1) * PageSize..]
    decreases TotalPages(|items|) + 1 - from
  {
    var start := (from - 1) * PageSize;
    PageWindow(items, from);
    if from == TotalPages(|items|) {
      assert PagesFrom(items, from + 1) == [];
    } else {
      PagesFromIsSuffix(items, from + 1);
      assert from * PageSize == start + PageSize;
      assert items[start..] == items[start..start + PageSize] + items[start + PageSize..];
    }
  }

  /** Walking pages 1 .. totalPages and concatenating their records gives
      back the whole list, in order: the pages partition it. */
  lemma AllPagesReproduceInput<T>(items: seq<T>)
    ensures PagesFrom(items, 1) == items
  {
    PagesFromIsSuffix(items, 1);
  }
}
