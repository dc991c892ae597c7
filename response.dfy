/** `PagedResponse<T>`: one page of results with the figures a client needs
    to navigate (total, page count, whether a next and a previous page
    exist). */
module Response {
  import opened Text
  import opened Values
  import opened Paging
  import opened Pagination

  datatype PagedResponse<T> = PagedResponse(
    Data: seq<T>,
    TotalCount: Int32,
    CurrentCount: Int32,
    PageSize: Int32,
    CurrentPage: Int32,
    TotalPages: Int32,
    HasNextPage: bool,
    HasPreviousPage: bool)

  /** `(int)Math.Ceiling(count / (double)size)` is defined: the size is not
      zero (the quotient would be infinite or NaN) and the page count fits
      an `int`. For 32-bit operands the rounded double quotient has the same
      ceiling as the exact one. */
  predicate ResponseDefined(count: Int32, size: Int32) {
    size != 0 && MinInt32 <= CeilDiv(count, size) <= MaxInt32
  }

  /** The `PagedResponse` constructor. */
  function NewPagedResponse<T>(data: seq<T>, count: Int32, page: Int32, size: Int32): (r: PagedResponse<T>)
    requires |data| <= MaxInt32
    requires ResponseDefined(count, size)
    ensures r.Data == data && r.TotalCount == count && r.CurrentCount == |data|
    ensures r.PageSize == size && r.CurrentPage == page
    ensures size > 0 ==> (r.TotalPages - 1) * size < count <= r.TotalPages * size
    ensures size < 0 ==> r.TotalPages * size <= count < (r.TotalPages - 1) * size
    ensures r.HasNextPage <==> page < r.TotalPages
    ensures r.HasPreviousPage <==> page > 1
  {
    var totalPages := CeilDiv(count, size);
    PagedResponse(data, count, |data|, size, page, totalPages, page < totalPages, page > 1)
  }

  /** The ceiling characterisation pins the page count down: no other
      integer satisfies it. */
  lemma TotalPagesUnique(count: int, size: int, t: int)
    requires size > 0 && (t - 1) * size < count <= t * size
    ensures t == CeilDiv(count, size)
  {
    var r := CeilDiv(count, size);
    if t < r { MulMono(t, r - 1, size); }
    if r < t { MulMono(r, t - 1, size); }
  }

  /** With no records there are no pages and so no next page. */
  lemma EmptyResponse<T>(page: Int32, size: Int32)
    requires size > 0 && page >= 0
    ensures NewPagedResponse<T>([], 0, page, size).TotalPages == 0
    ensures !NewPagedResponse<T>([], 0, page, size).HasNextPage
  {
    TotalPagesUnique(0, size, 0);
  }

  /** The response agrees with the pager's own `GetTotalPages`,
      `HasNextPage` and `HasPreviousPage` when it is built from `GetPage`
      and `GetTotalCount`. */
  lemma ResponseAgreesWithPager(e: Engine, db: seq<Record>, page: Int32, size: Int32)
    requires ValidEngine(e) && |db| <= MaxInt32 && size > 0
    ensures ResponseDefined(GetTotalCount(db), size)
    ensures var r := NewPagedResponse(GetPage(e, db, page, size), GetTotalCount(db), page, size);
            && r.TotalPages == GetTotalPages(db, size)
            && r.HasNextPage == Pagination.HasNextPage(db, page, size)
            && r.HasPreviousPage == Pagination.HasPreviousPage(page)
            && r.CurrentCount <= size
  {
    CeilDivBounds(|db|, size);
  }

  /** For any search, the response announces a next page exactly when the
      next page of the same search holds records. */
  lemma ResponseNextPage(e: Engine, db: seq<Record>, page: Int32, size: Int32, criteria: Option<seq<Criterion>>)
    requires ValidEngine(e) && |db| <= MaxInt32
    requires criteria.Some? ==> AllAdmissible(e, criteria.value)
    requires 1 <= size && 1 <= page < MaxInt32 && page * size <= MaxInt32
    ensures ResponseDefined(Search(e, db, page, size, criteria).1, size)
    ensures NewPagedResponse(Search(e, db, page, size, criteria).0, Search(e, db, page, size, criteria).1, page, size).HasNextPage
        <==> |Search(e, db, page + 1, size, criteria).0| > 0
  {
    var l := Listing(e, db, criteria);
    SearchPagesListing(e, db, page, size, criteria);
    SearchPagesListing(e, db, page + 1, size, criteria);
    CeilDivBounds(|l|, size);
    NextPageNonEmpty(l, page, size);
  }

  /** For any search, pages `1 .. TotalPages` of the response list every
      matching record once, in descending sort order. */
  lemma ResponsePagesCoverListing(e: Engine, db: seq<Record>, page: Int32, size: Int32, criteria: Option<seq<Criterion>>)
    requires ValidEngine(e) && |db| <= MaxInt32
    requires criteria.Some? ==> AllAdmissible(e, criteria.value)
    requires 1 <= size
    ensures ResponseDefined(Search(e, db, page, size, criteria).1, size)
    ensures var r := NewPagedResponse(Search(e, db, page, size, criteria).0, Search(e, db, page, size, criteria).1, page, size);
            0 <= r.TotalPages && Pages(Listing(e, db, criteria), size, r.TotalPages) == Listing(e, db, criteria)
  {
    var l := Listing(e, db, criteria);
    SearchPagesListing(e, db, page, size, criteria);
    CeilDivBounds(|l|, size);
    PagesCoverAll(l, size);
  }
  /** The number of records on a page of any search: a full page, or what
      is left of the listing on the last page, and nothing past it. */
  lemma ResponseCurrentCount(e: Engine, db: seq<Record>, page: Int32, size: Int32, criteria: Option<seq<Criterion>>)
    requires ValidEngine(e) && |db| <= MaxInt32
    requires criteria.Some? ==> AllAdmissible(e, criteria.value)
    requires 1 <= size && 1 <= page && (page - 1) * size <= MaxInt32
    ensures ResponseDefined(Search(e, db, page, size, criteria).1, size)
    ensures var (data, count) := Search(e, db, page, size, criteria);
            var r := NewPagedResponse(data, count, page, size);
            r.CurrentCount == if page <= r.TotalPages then Min(size, count - (page - 1) * size) else 0
  {
    var l := Listing(e, db, criteria);
    SearchPagesListing(e, db, page, size, criteria);
    CeilDivBounds(|l|, size);
    PageLength(l, page, size);
  }
}
