/** The server-side records: the book entity, the paged filter request the
    repository reads and the paged result envelope it returns. */
module Domain {
  import opened Wrappers
  import opened Dates

  /** A stored book. `id` is assigned by the store on insert and never changes. */
  datatype Book = Book(
    id: int,
    title: string,
    publicationDate: DateTime,
    description: string,
    numberOfPages: int)

  /** The list request as the repository reads it. The three filter fields are
      nullable strings; the page fields are supplied by the caller unchecked. */
  datatype BooksPagedFilterRequest = BooksPagedFilterRequest(
    name: Option<string>,
    startDate: Option<string>,
    endDate: Option<string>,
    pageNumber: int,
    pageSize: int)

  /** One page of results together with the size of the whole matching set. */
  datatype PagedResult<T> = PagedResult(items: seq<T>, totalCount: int)

  /** C# `string.IsNullOrEmpty`. */
  predicate IsNullOrEmpty(s: Option<string>)
  {
    s.None? || s.value == ""
  }

  /** The identifiers present in a store. */
  function Ids(store: seq<Book>): set<int>
  {
    set b | b in store :: b.id
  }

  /** The primary-key invariant of the store: no identifier occurs twice. */
  predicate UniqueIds(store: seq<Book>)
  {
    forall i, j :: 0 <= i < j < |store| ==> store[i].id != store[j].id
  }
}
