/** The book list page of the web client: its pagination state, the request it
    sends when the page must be reloaded, and the local filtering and sorting
    it applies to the page of books the server returns. */
module BookList {
  import opened Wrappers
  import opened Seqs
  import opened Strings
  import opened StableSort

  /** A book as the client receives it; the publication date is the JSON string. */
  datatype Book = Book(
    id: int,
    title: string,
    publicationDate: string,
    description: string,
    numberOfPages: int)

  /** The browser facilities the page uses, left abstract: `toLowerCase`,
      `localeCompare`, `new Date(d).getTime()` and the day part of
      `new Date(d).toISOString()`. */
  datatype Browser = Browser(
    toLowerCase: string -> string,
    localeCompare: (string, string) -> int,
    getTime: string -> int,
    isoDay: string -> string)

  /** The client-side date window; an empty string is an absent bound. */
  datatype DateWindow = DateWindow(startDate: string, endDate: string)

  /** The list request the page sends to the server. */
  datatype ListRequest = ListRequest(
    pageNumber: int,
    pageSize: int,
    startDate: string,
    endDate: string,
    name: string)

  /** The server's paged response; either field may be missing. */
  datatype PagedResponse = PagedResponse(items: Option<seq<Book>>, totalCount: Option<int>)

  /** The page size; the component never changes it. */
  const PageSize: int := 10

  /** The component's fields that the list logic reads or writes. */
  datatype ListState = ListState(
    books: seq<Book>,
    filteredBooks: seq<Book>,
    searchQuery: string,
    sortCriteria: string,
    filterDateRange: DateWindow,
    pageNumber: int,
    totalCount: int,
    totalPages: int,
    searchText: string,
    startDate: string,
    endDate: string)

  /** The fields as the component initialises them. */
  function Initial(): ListState
  {
    ListState([], [], "", "", DateWindow("", ""), 1, 0, 0, "", "", "")
  }

  /** What an event handler leaves behind: the new state and the list request
      it sends, if it reloads. */
  datatype Step = Step(state: ListState, request: Option<ListRequest>)

  /** `Math.ceil(totalCount / pageSize)`: the fewest pages of `pageSize` books
      that hold `totalCount` books. */
  function TotalPages(totalCount: int, pageSize: int): (pages: int)
    requires pageSize >= 1
    ensures (pages - 1) * pageSize < totalCount <= pages * pageSize
  {
    var q := (-totalCount) / pageSize;
    assert q * pageSize <= -totalCount < (q + 1) * pageSize;
    -q
  }

  /** The request `loadBooks` builds from the current state. */
  function LoadRequest(s: ListState): (r: ListRequest)
    ensures r.pageNumber == s.pageNumber && r.pageSize == PageSize
    ensures r.startDate == s.startDate && r.endDate == s.endDate
    ensures r.name == s.searchText
  {
    ListRequest(s.pageNumber, PageSize, s.startDate, s.endDate, s.searchText)
  }

  /** `onPageChange(p)`: moves to page `p` and reloads only when `p` is one of
      the known pages; otherwise nothing happens. */
  function OnPageChange(s: ListState, p: int): (r: Step)
    ensures r.request.Some? <==> 1 <= p <= s.totalPages
    ensures r.request.Some? ==> r.state == s.(pageNumber := p) && r.request.value == LoadRequest(r.state)
    ensures r.request.None? ==> r.state == s
  {
    if p > 0 && p <= s.totalPages then
      var s' := s.(pageNumber := p);
      Step(s', Some(LoadRequest(s')))
    else
      Step(s, None)
  }

  /** `onSearch(q)`: a new server-side name filter starts again from page 1. */
  function OnSearch(s: ListState, query: string): (r: Step)
    ensures r.state == s.(searchText := query, pageNumber := 1)
    ensures r.request == Some(ListRequest(1, PageSize, s.startDate, s.endDate, query))
  {
    var s' := s.(searchText := query, pageNumber := 1);
    Step(s', Some(LoadRequest(s')))
  }

  /** `onFilterDateRange(range)`: a new server-side date range starts again
      from page 1. */
  function OnFilterDateRange(s: ListState, range: DateWindow): (r: Step)
    ensures r.state == s.(startDate := range.startDate, endDate := range.endDate, pageNumber := 1)
    ensures r.request == Some(ListRequest(1, PageSize, range.startDate, range.endDate, s.searchText))
  {
    var s' := s.(startDate := range.startDate, endDate := range.endDate, pageNumber := 1);
    Step(s', Some(LoadRequest(s')))
  }

  /** `sortBooks(a, b)`: the comparator for the chosen criterion; an empty or
      unknown criterion calls every pair equal. */
  function SortBooks(env: Browser, criteria: string, a: Book, b: Book): (r: int)
    ensures criteria == "title" ==> r == env.localeCompare(a.title, b.title)
    ensures criteria == "publicationDate" ==> r == env.getTime(a.publicationDate) - env.getTime(b.publicationDate)
    ensures criteria == "numberOfPages" ==> r == a.numberOfPages - b.numberOfPages
    ensures criteria != "title" && criteria != "publicationDate" && criteria != "numberOfPages" ==> r == 0
  {
    if criteria == "" then 0
    else if criteria == "title" then env.localeCompare(a.title, b.title)
    else if criteria == "publicationDate" then env.getTime(a.publicationDate) - env.getTime(b.publicationDate)
    else if criteria == "numberOfPages" then a.numberOfPages - b.numberOfPages
    else 0
  }

  /** Apart from `"title"`, whose order is the browser's `localeCompare`,
      every criterion compares consistently: swapping the books negates the
      result, and a book ties with itself. */
  lemma SortBooksAntisymmetric(env: Browser, criteria: string, a: Book, b: Book)
    requires criteria != "title"
    ensures SortBooks(env, criteria, a, b) == -SortBooks(env, criteria, b, a)
    ensures SortBooks(env, criteria, a, a) == 0
  {
  }

  /** `SortBooks` as the comparator value handed to the sort. */
  function Comparator(env: Browser, criteria: string): (Book, Book) -> int
  {
    (a: Book, b: Book) => SortBooks(env, criteria, a, b)
  }

  /** The title test of `applyFilters`: the title contains the search query,
      both lowered. */
  function TitleMatches(env: Browser, query: string): Book -> bool
  {
    (b: Book) => Contains(env.toLowerCase(b.title), env.toLowerCase(query))
  }

  /** `filterByDateRange(book)`: the book's ISO day lies within the window,
      by string comparison, each empty bound being no bound. */
  function FilterByDateRange(env: Browser, window: DateWindow, b: Book): (pass: bool)
    ensures window.startDate == "" && window.endDate == "" ==> pass
    ensures pass <==> && (window.startDate == "" || LexLe(window.startDate, env.isoDay(b.publicationDate)))
                      && (window.endDate == "" || LexLe(env.isoDay(b.publicationDate), window.endDate))
  {
    var day := env.isoDay(b.publicationDate);
    (window.startDate == "" || LexLe(window.startDate, day))
    && (window.endDate == "" || LexLe(day, window.endDate))
  }

  /** `FilterByDateRange` as a value. */
  function InDateRange(env: Browser, window: DateWindow): Book -> bool
  {
    (b: Book) => FilterByDateRange(env, window, b)
  }

  /** `applyFilters`: the title filter, then the stable sort, then the date filter. */
  function ApplyFilters(env: Browser, books: seq<Book>, query: string, criteria: string, window: DateWindow)
    : (r: seq<Book>)
    ensures forall b :: b in r ==> b in books
    ensures forall b :: b in r ==> TitleMatches(env, query)(b) && FilterByDateRange(env, window, b)
  {
    var titled := Filter(TitleMatches(env, query), books);
    var sorted := Sort(Comparator(env, criteria), titled);
    FilterMembers(TitleMatches(env, query), books);
    SortPermutes(Comparator(env, criteria), titled);
    assert forall b :: b in sorted ==> b in titled by {
      forall b | b in sorted ensures b in titled {
        assert b in multiset(sorted);
      }
    }
    FilterMembers(InDateRange(env, window), sorted);
    Filter(InDateRange(env, window), sorted)
  }

  /** The response callback of `loadBooks`: store the page and its total,
      recompute the page count and the filtered view. */
  function OnBooksLoaded(env: Browser, s: ListState, response: Option<PagedResponse>): (r: ListState)
    ensures r.books == (if response.Some? then response.value.items.GetOr([]) else [])
    ensures r.totalCount == (if response.Some? then response.value.totalCount.GetOr(0) else 0)
    ensures (r.totalPages - 1) * PageSize < r.totalCount <= r.totalPages * PageSize
    ensures r.filteredBooks == ApplyFilters(env, r.books, s.searchQuery, s.sortCriteria, s.filterDateRange)
    ensures r == s.(books := r.books, totalCount := r.totalCount, totalPages := r.totalPages,
                    filteredBooks := r.filteredBooks)
  {
    var books := if response.Some? then response.value.items.GetOr([]) else [];
    var totalCount := if response.Some? then response.value.totalCount.GetOr(0) else 0;
    s.(books := books,
       totalCount := totalCount,
       totalPages := TotalPages(totalCount, PageSize),
       filteredBooks := ApplyFilters(env, books, s.searchQuery, s.sortCriteria, s.filterDateRange))
  }

  /** `onSort(criteria)`: re-sort the current page locally, without reloading. */
  function OnSort(env: Browser, s: ListState, criteria: string): (r: ListState)
    ensures r == s.(sortCriteria := criteria, filteredBooks := r.filteredBooks)
    ensures r.filteredBooks == ApplyFilters(env, s.books, s.searchQuery, criteria, s.filterDateRange)
    ensures multiset(r.filteredBooks)
            == multiset(ApplyFilters(env, s.books, s.searchQuery, s.sortCriteria, s.filterDateRange))
    ensures s.filteredBooks == ApplyFilters(env, s.books, s.searchQuery, s.sortCriteria, s.filterDateRange)
            ==> multiset(r.filteredBooks) == multiset(s.filteredBooks)
  {
    ApplyFiltersExact(env, s.books, s.searchQuery, criteria, s.filterDateRange);
    ApplyFiltersExact(env, s.books, s.searchQuery, s.sortCriteria, s.filterDateRange);
    s.(sortCriteria := criteria,
       filteredBooks := ApplyFilters(env, s.books, s.searchQuery, criteria, s.filterDateRange))
  }

  /** Every path through `applyFilters` keeps exactly the books that pass both
      tests, each with its multiplicity in `books`: a sub-multiset, and no
      passing book is lost. */
  lemma ApplyFiltersExact(env: Browser, books: seq<Book>, query: string, criteria: string, window: DateWindow)
    ensures var r := ApplyFilters(env, books, query, criteria, window);
            forall b :: multiset(r)[b] ==
              if TitleMatches(env, query)(b) && FilterByDateRange(env, window, b)
              then multiset(books)[b] else 0
    ensures multiset(ApplyFilters(env, books, query, criteria, window)) <= multiset(books)
  {
    var titled := Filter(TitleMatches(env, query), books);
    var sorted := Sort(Comparator(env, criteria), titled);
    FilterMultiplicity(TitleMatches(env, query), books);
    SortPermutes(Comparator(env, criteria), titled);
    FilterMultiplicity(InDateRange(env, window), sorted);
  }

  /** With an empty or unrecognised criterion the comparator calls every pair
      equal, so the stable sort keeps the order the books arrived in. */
  lemma UnsortedKeepsOrder(env: Browser, books: seq<Book>, query: string, criteria: string, window: DateWindow)
    requires criteria != "title" && criteria != "publicationDate" && criteria != "numberOfPages"
    ensures ApplyFilters(env, books, query, criteria, window)
            == Filter(InDateRange(env, window), Filter(TitleMatches(env, query), books))
    ensures IsSubsequence(ApplyFilters(env, books, query, criteria, window), books)
  {
    var titled := Filter(TitleMatches(env, query), books);
    SortNeutral(Comparator(env, criteria), titled);
    FilterIsSubsequence(TitleMatches(env, query), books);
    FilterIsSubsequence(InDateRange(env, window), titled);
    SubsequenceTransitive(Filter(InDateRange(env, window), titled), titled, books);
  }

  /** `"numberOfPages"` lists the books by ascending page count, books with
      equal counts in arrival order. */
  lemma SortByPagesAscends(env: Browser, books: seq<Book>, query: string, window: DateWindow, n: int)
    ensures SortedBy(Pages, ApplyFilters(env, books, query, "numberOfPages", window))
    ensures Filter(HasKey(Pages, n), Sort(Comparator(env, "numberOfPages"), books))
            == Filter(HasKey(Pages, n), books)
  {
    var cmp := Comparator(env, "numberOfPages");
    assert ComparesByKey(cmp, Pages);
    var titled := Filter(TitleMatches(env, query), books);
    SortSorted(cmp, Pages, titled);
    FilterKeepsSorted(Pages, InDateRange(env, window), Sort(cmp, titled));
    SortStable(cmp, Pages, books, n);
  }

  /** In the view itself, the books with any one page count appear in the
      order they arrived in, among those passing both filters. */
  lemma ViewKeepsPageTiesInOrder(env: Browser, books: seq<Book>, query: string, window: DateWindow, n: int)
    ensures Filter(HasKey(Pages, n), ApplyFilters(env, books, query, "numberOfPages", window))
            == Filter(HasKey(Pages, n), Filter(InDateRange(env, window), Filter(TitleMatches(env, query), books)))
  {
    var cmp := Comparator(env, "numberOfPages");
    assert ComparesByKey(cmp, Pages);
    var key, dates := HasKey(Pages, n), InDateRange(env, window);
    var titled := Filter(TitleMatches(env, query), books);
    SortStable(cmp, Pages, titled, n);
    FilterCommute(key, dates, Sort(cmp, titled));
    FilterCommute(key, dates, titled);
  }

  /** `"publicationDate"` lists the books by ascending time value. */
  lemma SortByDateAscends(env: Browser, books: seq<Book>, query: string, window: DateWindow)
    ensures SortedBy(TimeOf(env), ApplyFilters(env, books, query, "publicationDate", window))
  {
    var cmp := Comparator(env, "publicationDate");
    assert ComparesByKey(cmp, TimeOf(env));
    var titled := Filter(TitleMatches(env, query), books);
    SortSorted(cmp, TimeOf(env), titled);
    FilterKeepsSorted(TimeOf(env), InDateRange(env, window), Sort(cmp, titled));
  }

  /** The page count of a book, as a sort key. */
  function Pages(b: Book): int
  {
    b.numberOfPages
  }

  /** The time value of a book's publication date, as a sort key. */
  function TimeOf(env: Browser): Book -> int
  {
    (b: Book) => env.getTime(b.publicationDate)
  }

  /** The events the list page reacts to. */
  datatype Event =
    | PageChange(page: int)
    | Search(query: string)
    | FilterDates(range: DateWindow)
    | SortChange(criteria: string)
    | BooksLoaded(response: Option<PagedResponse>)

  /** The handler for one event. */
  function Handle(env: Browser, s: ListState, e: Event): Step
  {
    match e
    case PageChange(p) => OnPageChange(s, p)
    case Search(q) => OnSearch(s, q)
    case FilterDates(range) => OnFilterDateRange(s, range)
    case SortChange(c) => Step(OnSort(env, s, c), None)
    case BooksLoaded(response) => Step(OnBooksLoaded(env, s, response), None)
  }

  /** The state after handling `events` in order. */
  function Run(env: Browser, s: ListState, events: seq<Event>): ListState
    decreases |events|
  {
    if events == [] then s else Run(env, Handle(env, s, events[0]).state, events[1..])
  }

  /** What holds of the page in every state the component can reach: the page
      number is at least 1, the page count matches the total, the client
      search query and date window are still the empty ones they started as
      (the component class never assigns either), and the list shown is the
      filtered view of the loaded books under the current criterion. */
  predicate Consistent(env: Browser, s: ListState)
  {
    && s.pageNumber >= 1
    && s.totalPages == TotalPages(s.totalCount, PageSize)
    && s.searchQuery == ""
    && s.filterDateRange == DateWindow("", "")
    && s.filteredBooks == ApplyFilters(env, s.books, s.searchQuery, s.sortCriteria, s.filterDateRange)
  }

  /** Each handler keeps the page consistent, and every request it sends asks
      for a page number and a page size of at least 1. */
  lemma HandleKeepsConsistent(env: Browser, s: ListState, e: Event)
    requires Consistent(env, s)
    ensures Consistent(env, Handle(env, s, e).state)
    ensures var r := Handle(env, s, e).request;
            r.Some? ==> r.value.pageNumber >= 1 && r.value.pageSize >= 1
  {
  }

  /** Every state reached from the initial one is consistent. */
  lemma {:induction false} RunKeepsConsistent(env: Browser, s: ListState, events: seq<Event>)
    requires Consistent(env, s)
    ensures Consistent(env, Run(env, s, events))
    decreases |events|
  {
    if events != [] {
      HandleKeepsConsistent(env, s, events[0]);
      RunKeepsConsistent(env, Handle(env, s, events[0]).state, events[1..]);
    }
  }

  /** The initial state is consistent, hence so is every reachable one. */
  lemma ReachableIsConsistent(env: Browser, events: seq<Event>)
    ensures Consistent(env, Run(env, Initial(), events))
  {
    assert TotalPages(0, PageSize) == 0;
    RunKeepsConsistent(env, Initial(), events);
  }

  /** In a consistent state a page change only ever asks for a page that
      starts inside the known total. */
  lemma PageChangeTargetsExistingPage(env: Browser, s: ListState, p: int)
    requires Consistent(env, s)
    requires OnPageChange(s, p).request.Some?
    ensures 0 <= (p - 1) * PageSize < s.totalCount
  {
    assert (s.totalPages - 1) * PageSize < s.totalCount;
    assert (p - 1) * PageSize <= (s.totalPages - 1) * PageSize;
  }

  /** In a consistent state the client date filter lets every book through:
      the filtered view is the title filter followed by the stable sort. */
  lemma ClientDateFilterIsInert(env: Browser, s: ListState)
    requires Consistent(env, s)
    ensures ApplyFilters(env, s.books, s.searchQuery, s.sortCriteria, s.filterDateRange)
            == Sort(Comparator(env, s.sortCriteria), Filter(TitleMatches(env, s.searchQuery), s.books))
  {
    var sorted := Sort(Comparator(env, s.sortCriteria), Filter(TitleMatches(env, s.searchQuery), s.books));
    forall i | 0 <= i < |sorted|
      ensures InDateRange(env, s.filterDateRange)(sorted[i])
    {
    }
    AllSatisfy(InDateRange(env, s.filterDateRange), sorted);
  }

  /** In a consistent state both client filters let every book through, given
      that lowering the empty string leaves it empty: the view is the loaded
      page, sorted. */
  lemma ClientFiltersAreInert(env: Browser, s: ListState)
    requires Consistent(env, s)
    requires env.toLowerCase("") == ""
    ensures ApplyFilters(env, s.books, s.searchQuery, s.sortCriteria, s.filterDateRange)
            == Sort(Comparator(env, s.sortCriteria), s.books)
  {
    forall i | 0 <= i < |s.books|
      ensures TitleMatches(env, s.searchQuery)(s.books[i])
    {
      assert IsPrefix("", env.toLowerCase(s.books[i].title));
    }
    AllSatisfy(TitleMatches(env, s.searchQuery), s.books);
    ClientDateFilterIsInert(env, s);
  }

  /** A client window whose bounds are both given and out of order admits no
      book, so the view is empty whatever the books and the criterion. */
  lemma ClientInvertedWindow(
    env: Browser, books: seq<Book>, query: string, criteria: string, window: DateWindow)
    requires window.endDate != "" && !LexLe(window.startDate, window.endDate)
    ensures forall b :: !FilterByDateRange(env, window, b)
    ensures ApplyFilters(env, books, query, criteria, window) == []
  {
    forall b
      ensures !FilterByDateRange(env, window, b)
    {
      var day := env.isoDay(b.publicationDate);
      if window.startDate != "" && LexLe(window.startDate, day) && LexLe(day, window.endDate) {
        LexLeTransitive(window.startDate, day, window.endDate);
      }
    }
    var r := ApplyFilters(env, books, query, criteria, window);
    ApplyFiltersExact(env, books, query, criteria, window);
    assert multiset(r) == multiset{};
  }

  /** A window whose two bounds are the same day admits exactly the books
      published on that day. */
  lemma SingleDayWindow(env: Browser, day: string, b: Book)
    requires day != ""
    ensures FilterByDateRange(env, DateWindow(day, day), b) <==> env.isoDay(b.publicationDate) == day
  {
    var d := env.isoDay(b.publicationDate);
    if LexLe(day, d) && LexLe(d, day) {
      LexLeAntisymmetric(day, d);
    }
    if d == day {
      LexLeReflexive(day);
    }
  }
}
