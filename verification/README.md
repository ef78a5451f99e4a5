# BookStore query engine and list page, in Dafny

This project models the query engine of the BookStore back end and the two client-side filters that sit on top of it.

The back end is the repository `BookRepository`. It offers:

- the filtered, paged listing `GetAllBooksAsync`;
- lookup, insert, replace-in-place update and delete by identifier;
- the year histogram `GetBooksPublicationDataAsync`.

The database is modelled as an in-memory store, a `seq<Book>` in its natural order. The primary-key invariant `UniqueIds` holds that no identifier occurs twice. Dates are a lexicographically ordered `DateTime`. Two things stay abstract, bundled in a `QueryContext`:

- `DateTime.TryParse`, as a partial function;
- title containment.

On the client, the model covers the book list page (`BookListComponent`):

- its paging state;
- the request `loadBooks` sends;
- the response handler that computes `totalPages`;
- the local `applyFilters` pipeline, which is a title filter, then `Array.prototype.sort` with `sortBooks`, then `filterByDateRange`.

It also covers the `dateRange` pipe. The browser's `toLowerCase`, `localeCompare`, `getTime` and ISO day formatting are abstract functions in a `Browser` record. The JavaScript sort is modelled as a stable insertion sort, because `Array.prototype.sort` has been stable since ECMAScript 2019.

Files and modules:

- `wrappers.dfy` (`Wrappers`): `Option`.
- `seqs.dfy` (`Seqs`):
  - `Filter`, with its reference count `CountWhere`;
  - LINQ `Skip`/`Take` and the page `Window`;
  - subsequences.
- `strings.dfy` (`Strings`): JavaScript `includes` and string `<=`.
- `dates.dfy` (`Dates`): the date order.
- `domain.dfy` (`Domain`): `Book`, `BooksPagedFilterRequest`, `PagedResult`, identifiers.
- `book_repository.dfy` (`BookRepository`): the listing and the CRUD operations.
- `publication_data.dfy` (`PublicationData`): the year histogram.
- `stable_sort.dfy` (`StableSort`): the stable sort and its order, permutation and stability facts.
- `book_list.dfy` (`BookList`): the list page, its events and its reachable-state invariant.
- `date_range_pipe.dfy` (`DateRangePipe`): the pipe.
- `listing_protocol.dfy` (`ListingProtocol`): the page's request as seen by the repository, assuming the API layer passes it through unchanged (see "## Left out").

Points where the code's behaviour is easy to misread:

- The listing does not check `PageNumber` or `PageSize` itself. It hands `Skip((PageNumber - 1) * PageSize)` and `Take(PageSize)` to SQL Server, which refuses a negative `OFFSET` and a `FETCH` below 1. The repository logs that exception and rethrows it. So a page number or page size below 1 gets no page at all, and the model's `GetAllBooks` returns `None` exactly then.
- Every stored book has a non-nullable `PublicationDate`, so the histogram counts every book. No book is "without a usable date".
- Title matching is whatever the database collation makes of `Contains`. It is not specifically case-insensitive.

## Model

| member | source | states |
|---|---|---|
| BookRepository.BuildConditions | BookStore.Infrastructure/Repositories/BookRepository.cs:35-54 | The title condition is active exactly when `Name` is non-null and non-empty, and it then carries `Name`. Each date bound is active exactly when its field is non-empty and parses. |
| BookRepository.GetAllBooks | BookStore.Infrastructure/Repositories/BookRepository.cs:29-70 | The call fails (`None`, the rethrown database error) exactly when `PageNumber < 1` or `PageSize < 1`. Otherwise `TotalCount` is the size of the whole matching set, and the page holds at most `PageSize` books. The page is empty when the offset is at least `TotalCount`. Every listed book is a stored book meeting every active condition. |
| BookRepository.PageIsContiguousSlice | BookStore.Infrastructure/Repositories/BookRepository.cs:58-61 | For valid paging, item `i` of the page is matching book number `(PageNumber - 1) * PageSize + i`. The page is therefore a contiguous run in store order. |
| BookRepository.PageLength | BookStore.Infrastructure/Repositories/BookRepository.cs:58-61 | For valid paging, a page starting inside the matching set is full. The last such page holds exactly the remainder. |
| BookRepository.TotalCountCountsMatches | BookStore.Infrastructure/Repositories/BookRepository.cs:56 | `TotalCount` equals an independent count of the stored books that meet every active condition. |
| BookRepository.TotalCountIgnoresPaging | BookStore.Infrastructure/Repositories/BookRepository.cs:56-61 | Changing the page number or page size to other valid values never changes `TotalCount`. |
| BookRepository.ItemsMeetActiveConditions | BookStore.Infrastructure/Repositories/BookRepository.cs:35-54 | Every listed book's title contains a non-empty `Name`. Its date is at or after a parsed `StartDate` and at or before a parsed `EndDate`. |
| BookRepository.UnusableFieldsAreIgnored | BookStore.Infrastructure/Repositories/BookRepository.cs:35-54 | A null or empty name, and a null, empty or unparseable date, give exactly the result of the field being absent. |
| BookRepository.SameConditionsSameResult | BookStore.Infrastructure/Repositories/BookRepository.cs:33-61 | Two requests with the same conditions and the same page fields get the same result. |
| BookRepository.InvertedRangeIsEmpty | BookStore.Infrastructure/Repositories/BookRepository.cs:44-52 | A parsed start bound later than a parsed end bound gives `TotalCount` 0 and no items for valid paging. It raises no error of its own. |
| BookRepository.NoConditionsListsEverything | BookStore.Infrastructure/Repositories/BookRepository.cs:33-56 | With no usable condition (each field null, empty or, for a date, unparseable), every stored book matches and `TotalCount` is the store size. |
| BookRepository.BookAppearsOnItsPage | BookStore.Infrastructure/Repositories/BookRepository.cs:58-61 | Matching book `k` is at position `k % PageSize` of page `k / PageSize + 1`. Consecutive pages tile the matching set. |
| BookRepository.SecondPageOfFifteen | BookStore.Infrastructure/Repositories/BookRepository.cs:29-64 | Fifteen unfiltered books read as page 2 of size 10 give the last five books with a total of 15. |
| BookRepository.FindIndex | BookStore.Infrastructure/Repositories/BookRepository.cs:77 | The key search finds a position exactly when the identifier is stored. It finds the first such position. |
| BookRepository.GetBookById | BookStore.Infrastructure/Repositories/BookRepository.cs:73-77 | Lookup yields a book exactly when the identifier is stored. The book it yields is stored and has that identifier. |
| BookRepository.LookupFindsStoredBook | BookStore.Infrastructure/Repositories/BookRepository.cs:73-77 | With unique identifiers, looking up a stored book's identifier yields that very book. |
| BookRepository.AddBook | BookStore.Infrastructure/Repositories/BookRepository.cs:86-92 | Insert returns the book under a fresh identifier with all other fields unchanged. The identifiers grow by exactly that one, and the old store is a prefix of the new one. Unique identifiers are kept. |
| BookRepository.AddThenLookup | BookStore.Infrastructure/Repositories/BookRepository.cs:86-92 | The inserted book is found under its new identifier. |
| BookRepository.AddThenDelete | BookStore.Infrastructure/Repositories/BookRepository.cs:86-138 | Deleting the book just inserted succeeds and restores the original store. |
| BookRepository.UpdateBook | BookStore.Infrastructure/Repositories/BookRepository.cs:101-117 | A missing identifier returns null and leaves the store alone. Otherwise the call returns the book with the new title, date, description and page count under the same identifier. It keeps the store's size and identifiers and touches no book with another identifier. |
| BookRepository.UpdateReplacesOnlyTarget | BookStore.Infrastructure/Repositories/BookRepository.cs:105-117 | With unique identifiers, update rewrites exactly the one book with that identifier, pointwise. Identifiers stay unique, and a later lookup returns the new state. |
| BookRepository.DeleteBook | BookStore.Infrastructure/Repositories/BookRepository.cs:126-138 | Delete returns true exactly when the identifier is stored. On false the store is unchanged. On true the store loses exactly the looked-up book, as a multiset, and keeps the order of the rest. |
| BookRepository.DeleteRemovesExactly | BookStore.Infrastructure/Repositories/BookRepository.cs:130-137 | With unique identifiers, delete leaves exactly the books with other identifiers. The identifier is gone, and a later lookup yields null. |
| PublicationData.YearHistogram | BookStore.Infrastructure/Repositories/BookRepository.cs:147-154 | The keys are exactly the publication years in the store. Each value is an independent count of the books of that year, so no key has a zero count. |
| PublicationData.HistogramTotal | BookStore.Infrastructure/Repositories/BookRepository.cs:151-154 | The histogram's values sum to the number of stored books. |
| PublicationData.ThreeBookExample | BookStore.Infrastructure/Repositories/BookRepository.cs:151-154 | Books of 2020, 2020 and 2021 give `{2020: 2, 2021: 1}`. |
| BookList.LoadRequest | bookstore-client/src/app/features/book-management/book-list/book-list.component.ts:50-57 | The request carries the current page number, the fixed page size 10, the current server-side date bounds and the search text as the name. |
| BookList.SortBooks | bookstore-client/src/app/features/book-management/book-list/book-list.component.ts:77-83 | `"title"` compares by `localeCompare` of the titles, `"publicationDate"` by the difference of the time values, and `"numberOfPages"` by the difference of the page counts. An empty or unknown criterion calls every pair equal. |
| BookList.SortBooksAntisymmetric | bookstore-client/src/app/features/book-management/book-list/book-list.component.ts:77-83 | For every criterion but `"title"`, swapping the two books negates the result, and a book ties with itself. |
| BookList.TotalPages | bookstore-client/src/app/features/book-management/book-list/book-list.component.ts:63 | The page count is the ceiling of `totalCount / pageSize`: `(pages - 1) * pageSize < totalCount <= pages * pageSize`. |
| BookList.OnPageChange | bookstore-client/src/app/features/book-management/book-list/book-list.component.ts:43-48 | A reload happens exactly when `1 <= p <= totalPages`. It then moves to page `p` and requests it. Otherwise the state is unchanged and nothing is sent. |
| BookList.OnSearch | bookstore-client/src/app/features/book-management/book-list/book-list.component.ts:126-130 | A search resets the page number to 1 and requests page 1 with the new name. |
| BookList.OnFilterDateRange | bookstore-client/src/app/features/book-management/book-list/book-list.component.ts:96-101 | A new date range resets the page number to 1 and requests page 1 with the new bounds. |
| BookList.FilterByDateRange | bookstore-client/src/app/features/book-management/book-list/book-list.component.ts:85-89 | The window with both bounds empty passes every book. Otherwise the book passes exactly when its ISO day is within the non-empty bounds, inclusive, by string order. |
| BookList.ApplyFilters | bookstore-client/src/app/features/book-management/book-list/book-list.component.ts:70-75 | Every shown book is one of the loaded books, its title contains the query (both lowered), and it passes the date window. |
| BookList.ApplyFiltersExact | bookstore-client/src/app/features/book-management/book-list/book-list.component.ts:70-75 | Each book passing both tests is shown as often as it was loaded, and every other book not at all. The view is a sub-multiset of the loaded books. |
| BookList.UnsortedKeepsOrder | bookstore-client/src/app/features/book-management/book-list/book-list.component.ts:77-83 | With an empty or unknown criterion, the view is the two filters applied in arrival order. It is an order-preserving subsequence of the loaded books. |
| BookList.SortByPagesAscends | bookstore-client/src/app/features/book-management/book-list/book-list.component.ts:81 | `"numberOfPages"` shows books by ascending page count, and the sort itself keeps books with equal counts in arrival order. |
| BookList.ViewKeepsPageTiesInOrder | bookstore-client/src/app/features/book-management/book-list/book-list.component.ts:70-81 | In the view sorted by `"numberOfPages"`, the books with any one page count appear in their arrival order among the books passing both filters. |
| BookList.SortByDateAscends | bookstore-client/src/app/features/book-management/book-list/book-list.component.ts:80 | `"publicationDate"` shows books by ascending time value. |
| BookList.OnBooksLoaded | bookstore-client/src/app/features/book-management/book-list/book-list.component.ts:60-65 | A missing response or field reads as no books and a total of 0. The page count is the ceiling of the total over the page size. The view is recomputed from the new books, and nothing else changes. |
| BookList.OnSort | bookstore-client/src/app/features/book-management/book-list/book-list.component.ts:91-94 | Only the criterion and the view change, with no reload. The new view holds the same books, with the same multiplicities, as the view under the old criterion, and so as the list shown before whenever that list was the view: sorting reorders and never adds or drops a book. |
| BookList.HandleKeepsConsistent | bookstore-client/src/app/features/book-management/book-list/book-list.component.ts:43-101 | Every event handler keeps the page number at least 1, the page count equal to the ceiling of the total, the client search query and date window empty, and the list shown equal to the filtered view of the loaded books. Every request it sends asks for a page number and size of at least 1. |
| BookList.RunKeepsConsistent | bookstore-client/src/app/features/book-management/book-list/book-list.component.ts:43-130 | Any sequence of events keeps a consistent state consistent. |
| BookList.ReachableIsConsistent | bookstore-client/src/app/features/book-management/book-list/book-list.component.ts:16-32 | The initial field values are consistent, so every reachable state is. |
| BookList.PageChangeTargetsExistingPage | bookstore-client/src/app/features/book-management/book-list/book-list.component.ts:44 | In a consistent state, an accepted page change asks for a page whose offset lies inside the known total. |
| BookList.ClientDateFilterIsInert | bookstore-client/src/app/features/book-management/book-list/book-list.component.ts:85-89 | In every consistent state the date filter passes everything. The view is just the title filter followed by the sort, because the component class never assigns `filterDateRange`. |
| BookList.ClientFiltersAreInert | bookstore-client/src/app/features/book-management/book-list/book-list.component.ts:70-75 | In every consistent state, given that lowering `""` gives `""`, the view is the loaded page sorted. The component class never assigns `searchQuery` either, and every title contains the empty query. |
| BookList.ClientInvertedWindow | bookstore-client/src/app/features/book-management/book-list/book-list.component.ts:85-89 | A client window with a non-empty end that sorts before its start passes no book, so the view is empty. |
| BookList.SingleDayWindow | bookstore-client/src/app/features/book-management/book-list/book-list.component.ts:85-89 | A client window whose bounds are the same non-empty day passes exactly the books whose ISO day is that day. |
| ListingProtocol.ServerRequest | bookstore-client/src/app/core/services/book.service.ts:19-36 | The request the page builds, taken as the repository's request, has the same page fields. The service leaves out an empty name or date, so each filter field reaches the server as null exactly when it is empty, and a non-empty one arrives with its value. |
| ListingProtocol.ServerConditionsFollowPage | bookstore-client/src/app/core/services/book.service.ts:25-33 | The repository's conditions for a page request: a non-empty search text filters titles by that text, a non-empty date bounds the listing when it parses, and an empty field imposes nothing. |
| ListingProtocol.RequestsAreAccepted | bookstore-client/src/app/features/book-management/book-list/book-list.component.ts:43-57 | From a consistent state, every request an event sends has valid paging, so the repository answers it with a page. |
| ListingProtocol.RestartShowsFirstMatches | bookstore-client/src/app/features/book-management/book-list/book-list.component.ts:126-130 | After a search or a new date range, the repository answers with the first `min(10, matches)` matching books in store order, and the full match count. |
| ListingProtocol.AcceptedPageIsNotEmpty | bookstore-client/src/app/features/book-management/book-list/book-list.component.ts:43-48 | When the store and criteria are those of the last response, an accepted page change asks for valid paging and gets a non-empty page. |
| StableSort.SortPermutes | bookstore-client/src/app/features/book-management/book-list/book-list.component.ts:73 | The sort returns a permutation of its input. |
| StableSort.SortNeutral | bookstore-client/src/app/features/book-management/book-list/book-list.component.ts:78 | A comparator that calls every pair equal leaves the order unchanged. |
| StableSort.SortSorted | bookstore-client/src/app/features/book-management/book-list/book-list.component.ts:81 | A comparator that is a difference of keys yields ascending keys. |
| StableSort.SortStable | bookstore-client/src/app/features/book-management/book-list/book-list.component.ts:73 | For such a comparator, the books of any one key appear in the sorted result in their input order. |
| DateRangePipe.Transform | bookstore-client/src/app/shared/pipes/date-range.pipe.ts:8-20 | Missing items or a missing bound return the items unchanged. Otherwise every kept item is an input item with a valid date between the two valid bounds, inclusive. |
| DateRangePipe.TransformKeepsExactly | bookstore-client/src/app/shared/pipes/date-range.pipe.ts:16-19 | Every in-window item is kept as often as it occurs, and every other item is dropped. Order is preserved. |
| DateRangePipe.InvertedWindowIsEmpty | bookstore-client/src/app/shared/pipes/date-range.pipe.ts:18 | A start later than the end gives an empty list. |
| DateRangePipe.InvalidBoundIsEmpty | bookstore-client/src/app/shared/pipes/date-range.pipe.ts:13-19 | An invalid bound date makes every comparison false, giving an empty list. |
| DateRangePipe.TransformIdempotent | bookstore-client/src/app/shared/pipes/date-range.pipe.ts:8-20 | Applying the pipe twice with the same window is applying it once. |
| DateRangePipe.NarrowerWindowRefines | bookstore-client/src/app/shared/pipes/date-range.pipe.ts:16-19 | An inner window's result is the outer window's result filtered again, and so is a subsequence of it. |

## Left out

- The HTTP controllers, dependency wiring, logging, AutoMapper services, Angular modules, routing, modals, forms, chart rendering and Excel/PDF export are not modelled.
- The `try`/`catch`-log-rethrow blocks, cancellation tokens and `async`/`await` are not modelled. Each operation is one atomic step on the store.
- `DateTime.TryParse` is culture-dependent and stays an abstract partial function. So does database title containment, whose case sensitivity depends on the collation.
- Identifier generation on insert is a parameter: any identifier not yet in the store.
- The request class `BooksPagedFilterRequest` (BookStore.Infrastructure/Requests/BooksPagedFilterRequest.cs:9-13) declares only `Date` and `Name`. The repository reads `Name`, `StartDate`, `EndDate`, `PageNumber` and `PageSize`, and the model's request record has exactly those five fields. `Date` is not modelled, because the repository never reads it.
- ListingProtocol.ServerRequest: assumes the API layer passes the listing through unchanged, and the code does not. `BookController.GetAllBooks` (BookStore.Api/Controllers/BookController.cs:53) binds `[FromQuery] BooksPagedFilterRequest`, whose class has no field for `pageNumber`, `pageSize`, `startDate` or `endDate`. `BookService.GetAllBooksAsync` (BookStore.Application/Services/BookService.cs:24-28) maps the repository's `PagedResult<BookEntity>` to `IEnumerable<BookDto>`, which drops `TotalCount` and does not match `IBookService` (BookStore.Application/Services/Interfaces/IBookService.cs:12). `ServerRequest`, `ServerConditionsFollowPage`, `RequestsAreAccepted`, `RestartShowsFirstMatches` and `AcceptedPageIsNotEmpty` describe the listing as if the five fields reached the repository and its result reached the page.
- BookRepository.GetAllBooks: does not model the 32-bit wrap-around of `(PageNumber - 1) * PageSize` and treats the product as an unbounded integer.
- BookRepository.GetAllBooks: a rejected page number or page size is `None`. The exception's type and message, and the HTTP 400 the controller turns it into, are not modelled.
- BookRepository.GetAllBooks: assumes one fixed store order shared by the count query and every page query. The query has no `OrderBy`, so SQL Server promises no such order, and a real page may differ from the modelled one. `PageIsContiguousSlice`, `BookAppearsOnItsPage` and `ListingProtocol.RestartShowsFirstMatches` rest on this assumption. The set of matching books and `TotalCount` do not.
- BookList.TotalPages: is the exact integer ceiling. `Math.ceil` over floating-point division is not modelled.
- BookList.SortBooks: `getTime` is an integer function, so the NaN of an unparseable date is not modelled in the comparator. `localeCompare` stays abstract.
- BookList.FilterByDateRange: `toISOString()` is an abstract function to a day string. The exception it throws for an invalid date is not modelled.
- The events that only navigate or toggle modals (`onSelectBook`, `openAddModal`, `openEditModal`, `onSave`, `onCancel`, `onDeleteBook`) are not modelled. They do not touch the list logic except by calling `loadBooks`, which `LoadRequest` covers.
- `console.log` calls are not modelled, and neither is the asynchronous gap between sending a request and receiving its response. A response is a separate `BooksLoaded` event.
