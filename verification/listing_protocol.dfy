/** The list page and the repository together: the request the page sends is
    the repository's filter request, and what the page's paging rules promise
    about the page the repository returns. The API controller and the
    application service between the two are taken to pass the five request
    fields down and the paged result back unchanged. */
module ListingProtocol {
  import opened Wrappers
  import opened Domain
  import opened BookRepository
  import BookList

  /** A client string field as the server receives it: the book service only
      adds a non-empty field to the query string, so an empty one arrives as
      `null`. */
  function QueryField(value: string): (field: Option<string>)
    ensures IsNullOrEmpty(field) <==> value == ""
    ensures field.Some? ==> field.value == value
  {
    if value == "" then None else Some(value)
  }

  /** The filter request the server receives for a page request. */
  function ServerRequest(r: BookList.ListRequest): (q: BooksPagedFilterRequest)
    ensures IsNullOrEmpty(q.name) <==> r.name == ""
    ensures IsNullOrEmpty(q.startDate) <==> r.startDate == ""
    ensures IsNullOrEmpty(q.endDate) <==> r.endDate == ""
    ensures r.name != "" ==> q.name == Some(r.name)
    ensures r.startDate != "" ==> q.startDate == Some(r.startDate)
    ensures r.endDate != "" ==> q.endDate == Some(r.endDate)
    ensures q.pageNumber == r.pageNumber && q.pageSize == r.pageSize
  {
    BooksPagedFilterRequest(
      QueryField(r.name), QueryField(r.startDate), QueryField(r.endDate), r.pageNumber, r.pageSize)
  }

  /** The conditions the repository builds from the page's request: a
      non-empty search text filters titles by itself, and a non-empty date
      bounds the listing when it parses; an empty field imposes nothing. */
  lemma ServerConditionsFollowPage(ctx: QueryContext, r: BookList.ListRequest)
    ensures BuildConditions(ctx, ServerRequest(r))
            == Conditions(
                 if r.name == "" then None else Some(r.name),
                 if r.startDate == "" then None else ctx.tryParse(r.startDate),
                 if r.endDate == "" then None else ctx.tryParse(r.endDate))
  {
  }

  /** The smaller of two integers. */
  function Min(a: int, b: int): int
  {
    if a <= b then a else b
  }

  /** From a consistent page, no request the page sends is refused for its
      paging fields: the repository always answers with a page. */
  lemma RequestsAreAccepted(
    env: BookList.Browser, ctx: QueryContext, store: seq<Book>, s: BookList.ListState, e: BookList.Event)
    requires BookList.Consistent(env, s)
    requires BookList.Handle(env, s, e).request.Some?
    ensures GetAllBooks(ctx, store, ServerRequest(BookList.Handle(env, s, e).request.value)).Some?
  {
    BookList.HandleKeepsConsistent(env, s, e);
  }

  /** A new search or a new date range reloads from the first page: the
      server answers with the first (up to ten) books matching the new
      criteria, in store order. */
  lemma RestartShowsFirstMatches(
    env: BookList.Browser, ctx: QueryContext, store: seq<Book>, s: BookList.ListState, e: BookList.Event)
    requires e.Search? || e.FilterDates?
    ensures var step := BookList.Handle(env, s, e);
            && step.request.Some?
            && var req := ServerRequest(step.request.value);
               && req.pageNumber == 1 && req.pageSize == BookList.PageSize
               && var matching := Matching(ctx, BuildConditions(ctx, req), store);
                  GetAllBooks(ctx, store, req)
                  == Some(PagedResult(matching[..Min(BookList.PageSize, |matching|)], |matching|))
  {
    var req := ServerRequest(BookList.Handle(env, s, e).request.value);
    assert req.pageNumber == 1 && req.pageSize == BookList.PageSize;
    assert Offset(req) == 0;
    var matching := Matching(ctx, BuildConditions(ctx, req), store);
    PageIsContiguousSlice(ctx, store, req);
    PageLength(ctx, store, req);
    var r := GetAllBooks(ctx, store, req).value;
    assert |r.items| == Min(BookList.PageSize, |matching|);
    assert forall i :: 0 <= i < |r.items| ==> r.items[i] == matching[i];
    assert r.items == matching[..Min(BookList.PageSize, |matching|)];
    assert r == PagedResult(matching[..Min(BookList.PageSize, |matching|)], |matching|);
  }

  /** A page change accepted in a consistent state asks for a page that is
      not empty, provided the store and the criteria are those of the last
      response (so that its total is the server's current total). */
  lemma AcceptedPageIsNotEmpty(
    env: BookList.Browser, ctx: QueryContext, store: seq<Book>, s: BookList.ListState, p: int)
    requires BookList.Consistent(env, s)
    requires BookList.OnPageChange(s, p).request.Some?
    requires s.totalCount == |Matching(ctx, BuildConditions(ctx, ServerRequest(BookList.OnPageChange(s, p).request.value)), store)|
    ensures var r := GetAllBooks(ctx, store, ServerRequest(BookList.OnPageChange(s, p).request.value));
            r.Some? && |r.value.items| >= 1
  {
    var req := ServerRequest(BookList.OnPageChange(s, p).request.value);
    BookList.PageChangeTargetsExistingPage(env, s, p);
    assert Offset(req) == (p - 1) * BookList.PageSize;
    PageLength(ctx, store, req);
  }
}
