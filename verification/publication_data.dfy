/** The publication report: every stored book grouped by the year of its
    publication date, with the size of each group. */
module PublicationData {
  import opened Dates
  import opened Seqs
  import opened Domain

  /** `b.PublicationDate.Year == year` as a value. */
  function InYear(year: int): Book -> bool
  {
    (b: Book) => b.publicationDate.year == year
  }

  /** The years in which at least one stored book was published. */
  function Years(store: seq<Book>): set<int>
  {
    set b | b in store :: b.publicationDate.year
  }

  /** One more item under key `y`: a new key starts at 1. */
  function Tally(h: map<int, int>, y: int): map<int, int>
  {
    h[y := if y in h then h[y] + 1 else 1]
  }

  /** Group by year and count: the keys are exactly the years that occur, and
      each value is the number of books of that year, so no key counts zero. */
  function YearHistogram(store: seq<Book>): (h: map<int, int>)
    ensures h.Keys == Years(store)
    ensures forall y :: y in h ==> h[y] == CountWhere(InYear(y), store)
    ensures forall y :: y in h ==> h[y] >= 1
  {
    if store == [] then map[]
    else
      var rest := YearHistogram(store[1..]);
      var y := store[0].publicationDate.year;
      var h := Tally(rest, y);
      HistogramStep(store, rest, h);
      h
  }

  /** Adding the first book's year to the histogram of the other books counts
      that book once and leaves the other years alone. */
  lemma HistogramStep(store: seq<Book>, rest: map<int, int>, h: map<int, int>)
    requires store != []
    requires rest.Keys == Years(store[1..])
    requires forall y :: y in rest ==> rest[y] == CountWhere(InYear(y), store[1..])
    requires forall y :: y in rest ==> rest[y] >= 1
    requires h == Tally(rest, store[0].publicationDate.year)
    ensures h.Keys == Years(store)
    ensures forall y :: y in h ==> h[y] == CountWhere(InYear(y), store)
    ensures forall y :: y in h ==> h[y] >= 1
  {
    YearsCons(store);
    forall y | y in h
      ensures h[y] == CountWhere(InYear(y), store)
    {
      StepCount(store, rest, h, y);
    }
  }

  lemma StepCount(store: seq<Book>, rest: map<int, int>, h: map<int, int>, y: int)
    requires store != []
    requires rest.Keys == Years(store[1..])
    requires forall y :: y in rest ==> rest[y] == CountWhere(InYear(y), store[1..])
    requires h == Tally(rest, store[0].publicationDate.year)
    requires y in h
    ensures h[y] == CountWhere(InYear(y), store)
  {
    var y0 := store[0].publicationDate.year;
    assert CountWhere(InYear(y), store)
           == (if InYear(y)(store[0]) then 1 else 0) + CountWhere(InYear(y), store[1..]);
    if y == y0 && y0 !in rest {
      forall i | 0 <= i < |store[1..]|
        ensures !InYear(y0)(store[1..][i])
      {
        assert store[1..][i] in store[1..];
      }
      NoneSatisfies(InYear(y0), store[1..]);
    }
  }

  lemma YearsCons(store: seq<Book>)
    requires store != []
    ensures Years(store) == {store[0].publicationDate.year} + Years(store[1..])
  {
    forall x | x in Years(store)
      ensures x in {store[0].publicationDate.year} + Years(store[1..])
    {
      var b :| b in store && b.publicationDate.year == x;
      var i :| 0 <= i < |store| && store[i] == b;
      if i > 0 {
        assert store[1..][i - 1] == b;
      }
    }
  }

  /** The sum of the values of a histogram. */
  ghost function MapTotal(h: map<int, int>): int
    decreases |h|
  {
    if h == map[] then 0
    else
      NonEmptyMapHasKey(h);
      var k :| k in h;
      h[k] + MapTotal(h - {k})
  }

  lemma NonEmptyMapHasKey(h: map<int, int>)
    requires h != map[]
    ensures exists k :: k in h
  {
    if forall k :: k !in h {
      assert false;
    }
  }

  /** The sum does not depend on which key is taken first. */
  lemma {:induction false} MapTotalRemove(h: map<int, int>, k: int)
    requires k in h
    ensures MapTotal(h) == h[k] + MapTotal(h - {k})
    decreases |h|
  {
    var k' :| k' in h && MapTotal(h) == h[k'] + MapTotal(h - {k'});
    if k' != k {
      assert |h - {k'}| == |h| - 1;
      assert |h - {k}| == |h| - 1;
      MapTotalRemove(h - {k'}, k);
      MapTotalRemove(h - {k}, k');
      assert h - {k'} - {k} == h - {k} - {k'};
    }
  }

  /** Counting one more item under key `y` raises the sum by one. */
  lemma MapTotalIncrement(m: map<int, int>, y: int)
    ensures MapTotal(Tally(m, y)) == MapTotal(m) + 1
  {
    var m' := Tally(m, y);
    MapTotalRemove(m', y);
    if y in m {
      MapTotalRemove(m, y);
      assert m' - {y} == m - {y};
    } else {
      assert m' - {y} == m;
    }
  }

  /** Every stored book is counted exactly once: the values sum to the store size. */
  lemma {:induction false} HistogramTotal(store: seq<Book>)
    ensures MapTotal(YearHistogram(store)) == |store|
  {
    if store != [] {
      var rest := YearHistogram(store[1..]);
      var y := store[0].publicationDate.year;
      HistogramTotal(store[1..]);
      assert YearHistogram(store) == Tally(rest, y);
      MapTotalIncrement(rest, y);
    }
  }

  /** Books dated 2020-01-01, 2020-12-31 and 2021-06-15 give {2020: 2, 2021: 1}. */
  lemma ThreeBookExample(a: Book, b: Book, c: Book)
    requires a.publicationDate == DateTime(2020, 1, 1, 0)
    requires b.publicationDate == DateTime(2020, 12, 31, 0)
    requires c.publicationDate == DateTime(2021, 6, 15, 0)
    ensures YearHistogram([a, b, c]) == map[2020 := 2, 2021 := 1]
  {
    assert [c][1..] == [];
    assert YearHistogram([c]) == Tally(map[], 2021);
    assert Tally(map[], 2021) == map[2021 := 1];
    assert [b, c][1..] == [c];
    assert YearHistogram([b, c]) == Tally(map[2021 := 1], 2020);
    assert Tally(map[2021 := 1], 2020) == map[2020 := 1, 2021 := 1];
    assert [a, b, c][1..] == [b, c];
    assert YearHistogram([a, b, c]) == Tally(map[2020 := 1, 2021 := 1], 2020);
  }
}
