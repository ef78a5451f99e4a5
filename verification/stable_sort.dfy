/** A stable sort driven by a three-way comparator, as `Array.prototype.sort`
    behaves since ECMAScript 2019. It is written as insertion sort: for a
    comparator that orders by a key, every stable sort gives this same result. */
module StableSort {
  import opened Seqs

  /** Places `x` after the last element of `t` that does not compare greater
      than it, so equal elements keep their arrival order. */
  function Insert<T(==)>(cmp: (T, T) -> int, t: seq<T>, x: T): (r: seq<T>)
    ensures |r| == |t| + 1
  {
    if t == [] then [x]
    else if cmp(t[|t| - 1], x) <= 0 then t + [x]
    else Insert(cmp, t[..|t| - 1], x) + [t[|t| - 1]]
  }

  /** The stably sorted permutation of `s`. */
  function Sort<T(==)>(cmp: (T, T) -> int, s: seq<T>): (r: seq<T>)
    ensures |r| == |s|
  {
    if s == [] then []
    else Insert(cmp, Sort(cmp, s[..|s| - 1]), s[|s| - 1])
  }

  /** Insertion adds exactly the one element. */
  lemma {:induction false} InsertPermutes<T>(cmp: (T, T) -> int, t: seq<T>, x: T)
    ensures multiset(Insert(cmp, t, x)) == multiset(t) + multiset{x}
  {
    if t != [] && cmp(t[|t| - 1], x) > 0 {
      assert t == t[..|t| - 1] + [t[|t| - 1]];
      InsertPermutes(cmp, t[..|t| - 1], x);
    }
  }

  /** Sorting is a permutation: every element keeps its multiplicity. */
  lemma {:induction false} SortPermutes<T>(cmp: (T, T) -> int, s: seq<T>)
    ensures multiset(Sort(cmp, s)) == multiset(s)
  {
    if s != [] {
      assert s == s[..|s| - 1] + [s[|s| - 1]];
      SortPermutes(cmp, s[..|s| - 1]);
      InsertPermutes(cmp, Sort(cmp, s[..|s| - 1]), s[|s| - 1]);
    }
  }

  /** Ascending by `key`. */
  predicate SortedBy<T>(key: T -> int, s: seq<T>)
  {
    forall i, j :: 0 <= i < j < |s| ==> key(s[i]) <= key(s[j])
  }

  /** `cmp` is the difference of two keys, `key(a) - key(b)`. */
  ghost predicate ComparesByKey<T(!new)>(cmp: (T, T) -> int, key: T -> int)
  {
    forall a, b :: cmp(a, b) == key(a) - key(b)
  }

  /** `key(a) == k` as a value. */
  function HasKey<T>(key: T -> int, k: int): T -> bool
  {
    (a: T) => key(a) == k
  }

  /** A comparator that calls every pair equal leaves the order untouched. */
  lemma {:induction false} SortNeutral<T(!new)>(cmp: (T, T) -> int, s: seq<T>)
    requires forall a, b :: cmp(a, b) == 0
    ensures Sort(cmp, s) == s
  {
    if s != [] {
      SortNeutral(cmp, s[..|s| - 1]);
      var t := s[..|s| - 1];
      assert Insert(cmp, t, s[|s| - 1]) == t + [s[|s| - 1]] by {
        if t != [] {
          assert cmp(t[|t| - 1], s[|s| - 1]) == 0;
        }
      }
    }
  }

  lemma {:induction false} InsertSorted<T(!new)>(cmp: (T, T) -> int, key: T -> int, t: seq<T>, x: T)
    requires ComparesByKey(cmp, key)
    requires SortedBy(key, t)
    ensures SortedBy(key, Insert(cmp, t, x))
  {
    if t != [] {
      var last := t[|t| - 1];
      var init := t[..|t| - 1];
      if cmp(last, x) > 0 {
        assert SortedBy(key, init);
        InsertSorted(cmp, key, init, x);
        var u := Insert(cmp, init, x);
        InsertPermutes(cmp, init, x);
        assert forall i :: 0 <= i < |init| ==> key(init[i]) <= key(last) by {
          forall i | 0 <= i < |init|
            ensures key(init[i]) <= key(last)
          {
            assert init[i] == t[i];
          }
        }
        BoundSurvivesPermutation(key, init, x, u, key(last));
        AppendMaximum(key, u, last);
      }
    }
  }

  /** A rearrangement of `init` plus `x` stays below any bound on both. */
  lemma BoundSurvivesPermutation<T>(key: T -> int, init: seq<T>, x: T, u: seq<T>, bound: int)
    requires multiset(u) == multiset(init) + multiset{x}
    requires forall i :: 0 <= i < |init| ==> key(init[i]) <= bound
    requires key(x) <= bound
    ensures forall i :: 0 <= i < |u| ==> key(u[i]) <= bound
  {
    forall i | 0 <= i < |u|
      ensures key(u[i]) <= bound
    {
      assert u[i] in multiset(u);
      if u[i] != x {
        assert u[i] in multiset(init);
        var j :| 0 <= j < |init| && init[j] == u[i];
      }
    }
  }

  /** Appending an element no smaller than every key keeps ascending order. */
  lemma AppendMaximum<T>(key: T -> int, u: seq<T>, last: T)
    requires SortedBy(key, u)
    requires forall i :: 0 <= i < |u| ==> key(u[i]) <= key(last)
    ensures SortedBy(key, u + [last])
  {
    var r := u + [last];
    forall i, j | 0 <= i < j < |r|
      ensures key(r[i]) <= key(r[j])
    {
      assert r[i] == u[i];
      if j < |u| {
        assert r[j] == u[j];
      }
    }
  }

  /** Sorting by a key comparator yields ascending keys. */
  lemma {:induction false} SortSorted<T(!new)>(cmp: (T, T) -> int, key: T -> int, s: seq<T>)
    requires ComparesByKey(cmp, key)
    ensures SortedBy(key, Sort(cmp, s))
  {
    if s != [] {
      SortSorted(cmp, key, s[..|s| - 1]);
      InsertSorted(cmp, key, Sort(cmp, s[..|s| - 1]), s[|s| - 1]);
    }
  }

  lemma {:induction false} InsertStable<T(!new)>(cmp: (T, T) -> int, key: T -> int, t: seq<T>, x: T, k: int)
    requires ComparesByKey(cmp, key)
    requires SortedBy(key, t)
    ensures Filter(HasKey(key, k), Insert(cmp, t, x)) == Filter(HasKey(key, k), t) + Filter(HasKey(key, k), [x])
  {
    if t == [] {
    } else if cmp(t[|t| - 1], x) <= 0 {
      FilterAppend(HasKey(key, k), t, [x]);
    } else {
      var init := t[..|t| - 1];
      assert SortedBy(key, init);
      InsertStable(cmp, key, init, x, k);
      InsertStableStep(cmp, key, t, x, k);
    }
  }

  /** The step of `InsertStable` where `x` moves in front of the last element:
      the two cannot share a key, so filtering by one key sees no swap. */
  lemma InsertStableStep<T>(cmp: (T, T) -> int, key: T -> int, t: seq<T>, x: T, k: int)
    requires t != [] && cmp(t[|t| - 1], x) > 0
    requires key(x) < key(t[|t| - 1])
    requires var q := HasKey(key, k);
             Filter(q, Insert(cmp, t[..|t| - 1], x)) == Filter(q, t[..|t| - 1]) + Filter(q, [x])
    ensures Filter(HasKey(key, k), Insert(cmp, t, x)) == Filter(HasKey(key, k), t) + Filter(HasKey(key, k), [x])
  {
    var q := HasKey(key, k);
    var last := t[|t| - 1];
    var init := t[..|t| - 1];
    assert t == init + [last];
    assert Insert(cmp, t, x) == Insert(cmp, init, x) + [last];
    FilterPastDifferent(q, init, Insert(cmp, init, x), x, last);
  }

  /** Appending `last` after a filtered run that ends with `x`'s contribution:
      when at most one of `x` and `last` passes, their order is invisible. */
  lemma FilterPastDifferent<T>(q: T -> bool, init: seq<T>, u: seq<T>, x: T, last: T)
    requires Filter(q, u) == Filter(q, init) + Filter(q, [x])
    requires !(q(x) && q(last))
    ensures Filter(q, u + [last]) == Filter(q, init + [last]) + Filter(q, [x])
  {
    FilterAppend(q, u, [last]);
    FilterAppend(q, init, [last]);
    FilterSingleton(q, x);
    FilterSingleton(q, last);
    SwapAroundEmpty(Filter(q, init), Filter(q, [x]), Filter(q, [last]));
  }

  lemma SwapAroundEmpty<T>(a: seq<T>, b: seq<T>, c: seq<T>)
    requires b == [] || c == []
    ensures a + b + c == a + c + b
  {
  }

  /** Stability: the elements sharing any one key appear in the sorted output
      in the same relative order as in the input. */
  lemma {:induction false} SortStable<T(!new)>(cmp: (T, T) -> int, key: T -> int, s: seq<T>, k: int)
    requires ComparesByKey(cmp, key)
    ensures Filter(HasKey(key, k), Sort(cmp, s)) == Filter(HasKey(key, k), s)
  {
    if s != [] {
      var init := s[..|s| - 1];
      var x := s[|s| - 1];
      var q := HasKey(key, k);
      assert s == init + [x];
      assert Sort(cmp, s) == Insert(cmp, Sort(cmp, init), x);
      SortStable(cmp, key, init, k);
      SortSorted(cmp, key, init);
      InsertStable(cmp, key, Sort(cmp, init), x, k);
      FilterAppend(q, init, [x]);
    }
  }

  /** Dropping elements keeps ascending order. */
  lemma {:induction false} FilterKeepsSorted<T>(key: T -> int, p: T -> bool, s: seq<T>)
    requires SortedBy(key, s)
    ensures SortedBy(key, Filter(p, s))
  {
    if s != [] {
      var tail := s[1..];
      assert SortedBy(key, tail);
      FilterKeepsSorted(key, p, tail);
      var rest := Filter(p, tail);
      assert forall i :: 0 <= i < |tail| ==> key(s[0]) <= key(tail[i]) by {
        forall i | 0 <= i < |tail|
          ensures key(s[0]) <= key(tail[i])
        {
          assert tail[i] == s[i + 1];
        }
      }
      FilterKeepsLowerBound(key, p, tail, key(s[0]));
      if p(s[0]) {
        var r := [s[0]] + rest;
        assert Filter(p, s) == r;
        forall i, j | 0 <= i < j < |r|
          ensures key(r[i]) <= key(r[j])
        {
          assert r[j] == rest[j - 1];
          if i > 0 {
            assert r[i] == rest[i - 1];
          }
        }
      } else {
        assert Filter(p, s) == rest;
      }
    }
  }

  /** A lower bound on every key survives filtering. */
  lemma {:induction false} FilterKeepsLowerBound<T>(key: T -> int, p: T -> bool, s: seq<T>, lo: int)
    requires forall i :: 0 <= i < |s| ==> lo <= key(s[i])
    ensures forall i :: 0 <= i < |Filter(p, s)| ==> lo <= key(Filter(p, s)[i])
  {
    if s != [] {
      var tail := s[1..];
      assert forall i :: 0 <= i < |tail| ==> tail[i] == s[i + 1];
      FilterKeepsLowerBound(key, p, tail, lo);
      var rest := Filter(p, tail);
      if p(s[0]) {
        var r := [s[0]] + rest;
        assert Filter(p, s) == r;
        assert forall i :: 0 < i < |r| ==> r[i] == rest[i - 1];
      } else {
        assert Filter(p, s) == rest;
      }
    }
  }
}
