/** The `dateRange` display filter: keeps the items whose publication date
    lies in an inclusive window, and passes the input through untouched when
    the items or either bound is missing. */
module DateRangePipe {
  import opened Wrappers
  import opened Seqs

  /** The time value of a JavaScript `Date`: milliseconds, or NaN when the
      date is invalid. Every comparison involving NaN is false. */
  datatype TimeValue = Time(ms: int) | InvalidDate

  /** A bound as the pipe receives it: `Missing` stands for every falsy value
      (`null`, `undefined`), `Given` for anything turned into a `Date`. */
  datatype DateArg = Missing | Given(time: TimeValue)

  /** JavaScript's `a >= b` on two dates. */
  predicate AtOrAfter(a: TimeValue, b: TimeValue)
  {
    a.Time? && b.Time? && a.ms >= b.ms
  }

  /** The per-item test: the item's date is at or after `start` and at or
      before `end`. */
  function InWindow<T>(dateOf: T -> TimeValue, start: TimeValue, end: TimeValue): T -> bool
  {
    (item: T) => AtOrAfter(dateOf(item), start) && AtOrAfter(end, dateOf(item))
  }

  /** `transform(items, startDate, endDate)`; `None` for `items` is a null or
      undefined list. */
  function Transform<T(==)>(dateOf: T -> TimeValue, items: Option<seq<T>>, startDate: DateArg, endDate: DateArg)
    : (r: Option<seq<T>>)
    ensures items.None? || startDate.Missing? || endDate.Missing? ==> r == items
    ensures items.Some? && startDate.Given? && endDate.Given? ==>
              && r.Some?
              && |r.value| <= |items.value|
              && (forall i :: 0 <= i < |r.value| ==>
                    && r.value[i] in items.value && dateOf(r.value[i]).Time?
                    && startDate.time.Time? && endDate.time.Time?
                    && startDate.time.ms <= dateOf(r.value[i]).ms <= endDate.time.ms)
  {
    if items.None? || startDate.Missing? || endDate.Missing? then items
    else
      var kept := Filter(InWindow(dateOf, startDate.time, endDate.time), items.value);
      FilterMembers(InWindow(dateOf, startDate.time, endDate.time), items.value);
      assert forall i :: 0 <= i < |kept| ==> kept[i] in kept;
      Some(kept)
  }

  /** When all three arguments are present the pipe keeps each in-window item
      with its multiplicity, drops every other item, and keeps the order. */
  lemma TransformKeepsExactly<T>(dateOf: T -> TimeValue, items: seq<T>, start: TimeValue, end: TimeValue)
    ensures var r := Transform(dateOf, Some(items), Given(start), Given(end)).value;
            && (forall x :: multiset(r)[x] ==
                  if InWindow(dateOf, start, end)(x) then multiset(items)[x] else 0)
            && IsSubsequence(r, items)
  {
    FilterMultiplicity(InWindow(dateOf, start, end), items);
    FilterIsSubsequence(InWindow(dateOf, start, end), items);
  }

  /** A start after the end admits no item. */
  lemma InvertedWindowIsEmpty<T>(dateOf: T -> TimeValue, items: seq<T>, start: int, end: int)
    requires end < start
    ensures Transform(dateOf, Some(items), Given(Time(start)), Given(Time(end))) == Some([])
  {
    var p := InWindow(dateOf, Time(start), Time(end));
    forall i | 0 <= i < |items|
      ensures !p(items[i])
    {
    }
    NoneSatisfies(p, items);
  }

  /** An invalid bound makes every comparison false, so nothing is kept. */
  lemma InvalidBoundIsEmpty<T>(dateOf: T -> TimeValue, items: seq<T>, start: DateArg, end: DateArg)
    requires start.Given? && end.Given?
    requires start.time.InvalidDate? || end.time.InvalidDate?
    ensures Transform(dateOf, Some(items), start, end) == Some([])
  {
    var p := InWindow(dateOf, start.time, end.time);
    forall i | 0 <= i < |items|
      ensures !p(items[i])
    {
    }
    NoneSatisfies(p, items);
  }

  /** Applying the pipe twice with the same window is applying it once. */
  lemma TransformIdempotent<T>(dateOf: T -> TimeValue, items: Option<seq<T>>, start: DateArg, end: DateArg)
    ensures Transform(dateOf, Transform(dateOf, items, start, end), start, end)
            == Transform(dateOf, items, start, end)
  {
    if items.Some? && start.Given? && end.Given? {
      var p := InWindow(dateOf, start.time, end.time);
      var once := Filter(p, items.value);
      FilterMembers(p, items.value);
      forall i | 0 <= i < |once|
        ensures p(once[i])
      {
        assert once[i] in once;
      }
      AllSatisfy(p, once);
    }
  }

  /** Narrowing the window narrows the result: filtering with the inner
      window is filtering the outer window's result again. */
  lemma NarrowerWindowRefines<T>(
    dateOf: T -> TimeValue, items: seq<T>, outerStart: int, outerEnd: int, innerStart: int, innerEnd: int)
    requires outerStart <= innerStart && innerEnd <= outerEnd
    ensures var outer := Transform(dateOf, Some(items), Given(Time(outerStart)), Given(Time(outerEnd))).value;
            var inner := Transform(dateOf, Some(items), Given(Time(innerStart)), Given(Time(innerEnd))).value;
            && inner == Filter(InWindow(dateOf, Time(innerStart), Time(innerEnd)), outer)
            && IsSubsequence(inner, outer)
  {
    var pOuter := InWindow(dateOf, Time(outerStart), Time(outerEnd));
    var pInner := InWindow(dateOf, Time(innerStart), Time(innerEnd));
    FilterNested(pOuter, pInner, items);
    FilterIsSubsequence(pInner, Filter(pOuter, items));
  }
}
