/** The server's `DateTime` as an ordered calendar value. Its calendar
    validity (month and day ranges) plays no part in the query logic, which
    only compares dates and reads their year. */
module Dates {

  /** A calendar date with a time of day (in ticks since midnight). */
  datatype DateTime = DateTime(year: int, month: int, day: int, tickOfDay: int)

  /** Chronological order: `a` is not later than `b` (C# `a <= b`). */
  predicate Le(a: DateTime, b: DateTime)
  {
    || a.year < b.year
    || (a.year == b.year && a.month < b.month)
    || (a.year == b.year && a.month == b.month && a.day < b.day)
    || (a.year == b.year && a.month == b.month && a.day == b.day && a.tickOfDay <= b.tickOfDay)
  }

  /** Strictly earlier (C# `a < b`). */
  predicate Lt(a: DateTime, b: DateTime)
  {
    !Le(b, a)
  }

  lemma LeTransitive(a: DateTime, b: DateTime, c: DateTime)
    requires Le(a, b) && Le(b, c)
    ensures Le(a, c)
  {
  }

  /** No date lies between a later lower bound and an earlier upper bound. */
  lemma EmptyWindow(lo: DateTime, hi: DateTime, d: DateTime)
    requires Lt(hi, lo)
    ensures !(Le(lo, d) && Le(d, hi))
  {
    if Le(lo, d) && Le(d, hi) {
      LeTransitive(lo, d, hi);
    }
  }
}
