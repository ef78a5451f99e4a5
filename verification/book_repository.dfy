/** The book repository over an in-memory store: the filtered, paged listing
    and the lookup, insert, update and delete operations. The store is a
    sequence of books in its natural order. */
module BookRepository {
  import opened Wrappers
  import opened Dates
  import opened Seqs
  import opened Domain

  /** What the query delegates to code outside the model: title containment
      (whose case sensitivity is the database collation's) and the
      culture-dependent `DateTime.TryParse`, which either fails or yields a date. */
  datatype QueryContext = QueryContext(
    titleContains: (string, string) -> bool,
    tryParse: string -> Option<DateTime>)

  /** The active conditions of a request; `None` is an absent condition. */
  datatype Conditions = Conditions(
    title: Option<string>,
    from: Option<DateTime>,
    to: Option<DateTime>)

  /** A date field becomes a bound only when it is non-empty and parses. */
  function DateBound(ctx: QueryContext, field: Option<string>): Option<DateTime>
  {
    if IsNullOrEmpty(field) then None else ctx.tryParse(field.value)
  }

  /** The filter predicate builder: one condition per usable request field. */
  function BuildConditions(ctx: QueryContext, req: BooksPagedFilterRequest): (c: Conditions)
    ensures c.title.Some? <==> !IsNullOrEmpty(req.name)
    ensures c.title.Some? ==> c.title.value == req.name.value
    ensures c.from.Some? <==> !IsNullOrEmpty(req.startDate) && ctx.tryParse(req.startDate.value).Some?
    ensures c.to.Some? <==> !IsNullOrEmpty(req.endDate) && ctx.tryParse(req.endDate.value).Some?
  {
    Conditions(
      if IsNullOrEmpty(req.name) then None else req.name,
      DateBound(ctx, req.startDate),
      DateBound(ctx, req.endDate))
  }

  /** The conjunction of the active conditions; with none active every book holds. */
  predicate Holds(ctx: QueryContext, c: Conditions, b: Book)
  {
    && (c.title.None? || ctx.titleContains(b.title, c.title.value))
    && (c.from.None? || Le(c.from.value, b.publicationDate))
    && (c.to.None? || Le(b.publicationDate, c.to.value))
  }

  /** `Holds` as a value, so that every use filters by the same function. */
  function Matcher(ctx: QueryContext, c: Conditions): Book -> bool
  {
    b => Holds(ctx, c, b)
  }

  /** The books of the store that the conditions select, in store order. */
  function Matching(ctx: QueryContext, c: Conditions, store: seq<Book>): seq<Book>
  {
    Filter(Matcher(ctx, c), store)
  }

  /** Paging the database accepts: SQL Server's `OFFSET` must not be negative
      and its `FETCH NEXT` count must be at least 1. */
  predicate ValidPaging(req: BooksPagedFilterRequest)
  {
    req.pageNumber >= 1 && req.pageSize >= 1
  }

  /** The number of books skipped before the requested page. */
  function Offset(req: BooksPagedFilterRequest): nat
    requires ValidPaging(req)
  {
    NonNegativeProduct(req.pageNumber - 1, req.pageSize);
    (req.pageNumber - 1) * req.pageSize
  }

  /** The filtered, paged listing: the total is counted over the whole matching
      set, then the page is cut out of it with Skip/Take. `None` is the
      database error for a page number or page size below 1, which the
      repository logs and rethrows. */
  function GetAllBooks(ctx: QueryContext, store: seq<Book>, req: BooksPagedFilterRequest)
    : (r: Option<PagedResult<Book>>)
    ensures r.Some? <==> ValidPaging(req)
    ensures r.Some? ==> r.value.totalCount == |Matching(ctx, BuildConditions(ctx, req), store)|
    ensures r.Some? ==> |r.value.items| <= req.pageSize
    ensures r.Some? && Offset(req) >= r.value.totalCount ==> r.value.items == []
    ensures r.Some? ==> forall b :: b in r.value.items ==> b in store && Holds(ctx, BuildConditions(ctx, req), b)
  {
    if !ValidPaging(req) then None
    else
      var matching := Matching(ctx, BuildConditions(ctx, req), store);
      FilterMembers(Matcher(ctx, BuildConditions(ctx, req)), store);
      WindowIsSkipTake(matching, Offset(req), req.pageSize);
      Some(PagedResult(Take(Skip(matching, Offset(req)), req.pageSize), |matching|))
  }

  /** The page is the contiguous run of the matching books that starts at the
      offset `(PageNumber - 1) * PageSize`, in store order. */
  lemma PageIsContiguousSlice(ctx: QueryContext, store: seq<Book>, req: BooksPagedFilterRequest)
    requires ValidPaging(req)
    ensures var r := GetAllBooks(ctx, store, req).value;
            var matching := Matching(ctx, BuildConditions(ctx, req), store);
            forall i :: 0 <= i < |r.items| ==>
              Offset(req) + i < |matching| && r.items[i] == matching[Offset(req) + i]
  {
    var matching := Matching(ctx, BuildConditions(ctx, req), store);
    WindowIsSkipTake(matching, Offset(req), req.pageSize);
  }

  /** A page that starts inside the matching set is full, unless it is the
      last one, which holds the remainder. */
  lemma PageLength(ctx: QueryContext, store: seq<Book>, req: BooksPagedFilterRequest)
    requires ValidPaging(req)
    ensures var r := GetAllBooks(ctx, store, req).value;
            Offset(req) < r.totalCount ==>
              |r.items| == if r.totalCount - Offset(req) < req.pageSize
                           then r.totalCount - Offset(req) else req.pageSize
  {
    var matching := Matching(ctx, BuildConditions(ctx, req), store);
    WindowIsSkipTake(matching, Offset(req), req.pageSize);
  }

  /** The total is the number of stored books that satisfy every active
      condition, counted independently of the filter. */
  lemma {:induction false} TotalCountCountsMatches(ctx: QueryContext, store: seq<Book>, req: BooksPagedFilterRequest)
    requires ValidPaging(req)
    ensures GetAllBooks(ctx, store, req).value.totalCount == CountWhere(Matcher(ctx, BuildConditions(ctx, req)), store)
  {
    FilterLength(Matcher(ctx, BuildConditions(ctx, req)), store);
  }

  /** The total is taken before Skip/Take: another valid page number or page
      size for the same filter reports the same total. */
  lemma TotalCountIgnoresPaging(
    ctx: QueryContext, store: seq<Book>, req: BooksPagedFilterRequest, pageNumber: int, pageSize: int)
    requires ValidPaging(req)
    requires pageNumber >= 1 && pageSize >= 1
    ensures GetAllBooks(ctx, store, req.(pageNumber := pageNumber, pageSize := pageSize)).value.totalCount
            == GetAllBooks(ctx, store, req).value.totalCount
  {
    assert BuildConditions(ctx, req.(pageNumber := pageNumber, pageSize := pageSize))
           == BuildConditions(ctx, req);
  }

  /** Every listed book contains the name in its title and lies within each
      date bound that was supplied and parsed, bounds included. */
  lemma ItemsMeetActiveConditions(ctx: QueryContext, store: seq<Book>, req: BooksPagedFilterRequest)
    requires ValidPaging(req)
    ensures forall b :: b in GetAllBooks(ctx, store, req).value.items ==>
              && (!IsNullOrEmpty(req.name) ==> ctx.titleContains(b.title, req.name.value))
              && (!IsNullOrEmpty(req.startDate) && ctx.tryParse(req.startDate.value).Some? ==>
                    Le(ctx.tryParse(req.startDate.value).value, b.publicationDate))
              && (!IsNullOrEmpty(req.endDate) && ctx.tryParse(req.endDate.value).Some? ==>
                    Le(b.publicationDate, ctx.tryParse(req.endDate.value).value))
  {
  }

  /** Lenient filtering: a null or empty name, and a null, empty or
      unparseable date, give the same result as the field being absent. */
  lemma UnusableFieldsAreIgnored(ctx: QueryContext, store: seq<Book>, req: BooksPagedFilterRequest)
    ensures IsNullOrEmpty(req.name) ==>
              GetAllBooks(ctx, store, req) == GetAllBooks(ctx, store, req.(name := None))
    ensures IsNullOrEmpty(req.startDate) || ctx.tryParse(req.startDate.value).None? ==>
              GetAllBooks(ctx, store, req) == GetAllBooks(ctx, store, req.(startDate := None))
    ensures IsNullOrEmpty(req.endDate) || ctx.tryParse(req.endDate.value).None? ==>
              GetAllBooks(ctx, store, req) == GetAllBooks(ctx, store, req.(endDate := None))
  {
    if IsNullOrEmpty(req.name) {
      SameConditionsSameResult(ctx, store, req, req.(name := None));
    }
    if IsNullOrEmpty(req.startDate) || ctx.tryParse(req.startDate.value).None? {
      SameConditionsSameResult(ctx, store, req, req.(startDate := None));
    }
    if IsNullOrEmpty(req.endDate) || ctx.tryParse(req.endDate.value).None? {
      SameConditionsSameResult(ctx, store, req, req.(endDate := None));
    }
  }

  /** The listing depends on the request only through its conditions and its
      page fields. */
  lemma SameConditionsSameResult(
    ctx: QueryContext, store: seq<Book>, req: BooksPagedFilterRequest, req': BooksPagedFilterRequest)
    requires req'.pageNumber == req.pageNumber && req'.pageSize == req.pageSize
    requires BuildConditions(ctx, req') == BuildConditions(ctx, req)
    ensures GetAllBooks(ctx, store, req') == GetAllBooks(ctx, store, req)
  {
  }

  /** A start bound later than the end bound matches nothing: with valid
      paging the total is 0 and the page is empty, which is not an error. */
  lemma InvertedRangeIsEmpty(
    ctx: QueryContext, store: seq<Book>, req: BooksPagedFilterRequest, lo: DateTime, hi: DateTime)
    requires !IsNullOrEmpty(req.startDate) && ctx.tryParse(req.startDate.value) == Some(lo)
    requires !IsNullOrEmpty(req.endDate) && ctx.tryParse(req.endDate.value) == Some(hi)
    requires Lt(hi, lo)
    ensures GetAllBooks(ctx, store, req) == if ValidPaging(req) then Some(PagedResult([], 0)) else None
  {
    var c := BuildConditions(ctx, req);
    forall i | 0 <= i < |store|
      ensures !Matcher(ctx, c)(store[i])
    {
      EmptyWindow(lo, hi, store[i].publicationDate);
    }
    NoneSatisfies(Matcher(ctx, c), store);
  }

  /** With no usable condition every stored book matches: the total is the
      store size and the page is the store's own slice. */
  lemma NoConditionsListsEverything(ctx: QueryContext, store: seq<Book>, req: BooksPagedFilterRequest)
    requires ValidPaging(req)
    requires BuildConditions(ctx, req) == Conditions(None, None, None)
    ensures GetAllBooks(ctx, store, req).value.totalCount == |store|
    ensures Matching(ctx, BuildConditions(ctx, req), store) == store
  {
    AllSatisfy(Matcher(ctx, BuildConditions(ctx, req)), store);
  }

  /** The matching book at position `k` appears on page `k / PageSize + 1`,
      at position `k % PageSize`: consecutive pages tile the matching set. */
  lemma BookAppearsOnItsPage(
    ctx: QueryContext, store: seq<Book>, req: BooksPagedFilterRequest, k: nat)
    requires req.pageSize >= 1 && req.pageNumber == k / req.pageSize + 1
    requires k < |Matching(ctx, BuildConditions(ctx, req), store)|
    ensures k % req.pageSize < |GetAllBooks(ctx, store, req).value.items|
    ensures GetAllBooks(ctx, store, req).value.items[k % req.pageSize]
            == Matching(ctx, BuildConditions(ctx, req), store)[k]
  {
    var q, m := k / req.pageSize, k % req.pageSize;
    assert Offset(req) == q * req.pageSize;
    assert Offset(req) + m == k;
    PageLength(ctx, store, req);
    PageIsContiguousSlice(ctx, store, req);
  }

  /** Fifteen unfiltered books read with page 2 of size 10: the last five
      books, with a total of 15. */
  lemma SecondPageOfFifteen(ctx: QueryContext, store: seq<Book>, req: BooksPagedFilterRequest)
    requires |store| == 15
    requires req.name.None? && req.startDate.None? && req.endDate.None?
    requires req.pageNumber == 2 && req.pageSize == 10
    ensures GetAllBooks(ctx, store, req) == Some(PagedResult(store[10..], 15))
  {
    NoConditionsListsEverything(ctx, store, req);
    PageLength(ctx, store, req);
    PageIsContiguousSlice(ctx, store, req);
    var items := GetAllBooks(ctx, store, req).value.items;
    assert |items| == 5;
    assert forall i :: 0 <= i < 5 ==> items[i] == store[10 + i];
  }

  /** The product of two non-negative integers is non-negative, so the offset
      of valid paging is a `nat`. */
  lemma NonNegativeProduct(a: int, b: int)
    requires a >= 0 && b >= 0
    ensures a * b >= 0
  {
  }

  /** The position of the first book with identifier `id`, if any. */
  function FindIndex(store: seq<Book>, id: int): (r: Option<nat>)
    ensures r.None? <==> id !in Ids(store)
    ensures r.Some? ==> r.value < |store| && store[r.value].id == id
    ensures r.Some? ==> forall j :: 0 <= j < r.value ==> store[j].id != id
  {
    if store == [] then None
    else if store[0].id == id then Some(0)
    else
      match FindIndex(store[1..], id)
      case None => assert store == [store[0]] + store[1..]; None
      case Some(k) => Some(k + 1)
  }

  /** Lookup by primary key: the book with that identifier, or `null`. */
  function GetBookById(store: seq<Book>, id: int): (r: Option<Book>)
    ensures r.Some? <==> id in Ids(store)
    ensures r.Some? ==> r.value in store && r.value.id == id
  {
    match FindIndex(store, id)
    case None => None
    case Some(k) => Some(store[k])
  }

  /** A store after a mutation, with the operation's return value. */
  datatype Mutation<T> = Mutation(store: seq<Book>, value: T)

  /** Insert: the store assigns `newId`, an identifier it does not yet hold,
      and the stored book is returned. */
  function AddBook(store: seq<Book>, book: Book, newId: int): (r: Mutation<Book>)
    requires newId !in Ids(store)
    ensures r.value.id == newId
    ensures r.value.(id := book.id) == book
    ensures Ids(r.store) == Ids(store) + {newId}
    ensures |r.store| == |store| + 1 && r.store[..|store|] == store
    ensures UniqueIds(store) ==> UniqueIds(r.store)
  {
    var added := book.(id := newId);
    assert (store + [added])[..|store|] == store;
    Mutation(store + [added], added)
  }

  /** Replace-in-place update: a missing identifier yields `null` and leaves the
      store alone; otherwise the stored book takes the new title, date,
      description and page count, keeps its identifier, and is returned. */
  function UpdateBook(store: seq<Book>, book: Book): (r: Mutation<Option<Book>>)
    ensures book.id !in Ids(store) ==> r.value.None? && r.store == store
    ensures book.id in Ids(store) ==> r.value == Some(book)
    ensures |r.store| == |store| && Ids(r.store) == Ids(store)
    ensures forall j :: 0 <= j < |store| && store[j].id != book.id ==> r.store[j] == store[j]
  {
    match FindIndex(store, book.id)
    case None => Mutation(store, None)
    case Some(k) =>
      var existing := store[k];
      var updated := existing.(
        title := book.title,
        publicationDate := book.publicationDate,
        description := book.description,
        numberOfPages := book.numberOfPages);
      var store' := store[k := updated];
      assert Ids(store') == Ids(store) by {
        forall x | x in Ids(store) ensures x in Ids(store') {
          var b :| b in store && b.id == x;
          var j :| 0 <= j < |store| && store[j] == b;
          assert store'[j].id == x;
        }
      }
      Mutation(store', Some(updated))
  }

  /** Delete: `false` and no change for a missing identifier; otherwise the
      book is removed, the rest keep their order, and the result is `true`. */
  function DeleteBook(store: seq<Book>, id: int): (r: Mutation<bool>)
    ensures r.value <==> id in Ids(store)
    ensures !r.value ==> r.store == store
    ensures r.value ==> |r.store| == |store| - 1
    ensures r.value ==> multiset(r.store) + multiset{GetBookById(store, id).value} == multiset(store)
    ensures IsSubsequence(r.store, store)
  {
    match FindIndex(store, id)
    case None => SubsequenceRefl(store); Mutation(store, false)
    case Some(k) =>
      assert store == store[..k] + [store[k]] + store[k + 1..];
      SubsequenceDropOne(store, k);
      Mutation(store[..k] + store[k + 1..], true)
  }

  /** With unique identifiers, lookup returns exactly the stored book. */
  lemma LookupFindsStoredBook(store: seq<Book>, b: Book)
    requires UniqueIds(store)
    requires b in store
    ensures GetBookById(store, b.id) == Some(b)
  {
    var j :| 0 <= j < |store| && store[j] == b;
  }

  /** The book just inserted is found under its new identifier. */
  lemma AddThenLookup(store: seq<Book>, book: Book, newId: int)
    requires newId !in Ids(store)
    ensures var r := AddBook(store, book, newId);
            GetBookById(r.store, newId) == Some(r.value)
  {
  }

  /** Deleting the book just inserted restores the store. */
  lemma AddThenDelete(store: seq<Book>, book: Book, newId: int)
    requires newId !in Ids(store)
    ensures DeleteBook(AddBook(store, book, newId).store, newId) == Mutation(store, true)
  {
    var s' := AddBook(store, book, newId).store;
    var k := FindIndex(s', newId).value;
    assert s'[..k] + s'[k + 1..] == store;
  }

  /** Update of an existing book rewrites that book alone: every other
      position keeps its book, the identifiers stay unique, and lookup then
      returns the new state. */
  lemma UpdateReplacesOnlyTarget(store: seq<Book>, book: Book)
    requires UniqueIds(store)
    ensures var r := UpdateBook(store, book);
            && |r.store| == |store|
            && (forall j :: 0 <= j < |store| ==>
                  r.store[j] == if store[j].id == book.id then book else store[j])
            && UniqueIds(r.store)
            && GetBookById(r.store, book.id) == r.value
  {
    var r := UpdateBook(store, book);
    if book.id in Ids(store) {
      var k := FindIndex(store, book.id).value;
      forall j | 0 <= j < |store| && store[j].id == book.id
        ensures r.store[j] == book
      {
      }
      assert r.store == store[k := book];
      LookupFindsStoredBook(r.store, book);
    }
  }

  /** `b.id != id` as a value, the predicate delete keeps. */
  function IdIsNot(id: int): Book -> bool
  {
    (b: Book) => b.id != id
  }

  /** With unique identifiers, delete removes every trace of the identifier and
      nothing else: the new store is the old one with that book filtered out. */
  lemma DeleteRemovesExactly(store: seq<Book>, id: int)
    requires UniqueIds(store)
    ensures var r := DeleteBook(store, id);
            && r.store == Filter(IdIsNot(id), store)
            && id !in Ids(r.store)
            && UniqueIds(r.store)
            && GetBookById(r.store, id).None?
  {
    match FindIndex(store, id)
    case None =>
      forall i | 0 <= i < |store|
        ensures IdIsNot(id)(store[i])
      {
        assert store[i] in store;
      }
      AllSatisfy(IdIsNot(id), store);
    case Some(k) =>
      forall i | 0 <= i < |store| && i != k
        ensures IdIsNot(id)(store[i])
      {
      }
      FilterDropsOne(IdIsNot(id), store, k);
      UniqueIdsDropOne(store, k);
  }

  lemma UniqueIdsDropOne(store: seq<Book>, k: nat)
    requires UniqueIds(store) && k < |store|
    ensures UniqueIds(store[..k] + store[k + 1..])
  {
    var s' := store[..k] + store[k + 1..];
    forall i, j | 0 <= i < j < |s'|
      ensures s'[i].id != s'[j].id
    {
      var i' := if i < k then i else i + 1;
      var j' := if j < k then j else j + 1;
      assert s'[i] == store[i'] && s'[j] == store[j'];
    }
  }
}
