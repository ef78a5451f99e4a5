/** Order-preserving sequence operations shared by the server query, the client
    list page and the date-range pipe: filtering, counting, and LINQ's Skip/Take. */
module Seqs {

  /** `a` can be obtained from `b` by deleting elements, keeping the order of the rest. */
  predicate IsSubsequence<T(==)>(a: seq<T>, b: seq<T>)
    decreases |b|
  {
    || a == []
    || (&& b != []
        && ((a[0] == b[0] && IsSubsequence(a[1..], b[1..])) || IsSubsequence(a, b[1..])))
  }

  lemma {:induction false} SubsequenceTransitive<T>(a: seq<T>, b: seq<T>, c: seq<T>)
    requires IsSubsequence(a, b) && IsSubsequence(b, c)
    ensures IsSubsequence(a, c)
    decreases |c|
  {
    if a != [] && c != [] {
      if b[0] == c[0] && IsSubsequence(b[1..], c[1..]) {
        if a[0] == b[0] && IsSubsequence(a[1..], b[1..]) {
          SubsequenceTransitive(a[1..], b[1..], c[1..]);
        } else {
          SubsequenceTransitive(a, b[1..], c[1..]);
        }
      } else {
        SubsequenceTransitive(a, b, c[1..]);
      }
    }
  }

  /** Every sequence is a subsequence of itself. */
  lemma {:induction false} SubsequenceRefl<T>(s: seq<T>)
    ensures IsSubsequence(s, s)
  {
    if s != [] {
      SubsequenceRefl(s[1..]);
    }
  }

  /** Deleting one position leaves a subsequence. */
  lemma {:induction false} SubsequenceDropOne<T>(s: seq<T>, k: nat)
    requires k < |s|
    ensures IsSubsequence(s[..k] + s[k + 1..], s)
  {
    if k == 0 {
      assert s[..k] + s[k + 1..] == s[1..];
      SubsequenceRefl(s[1..]);
    } else {
      SubsequenceDropOne(s[1..], k - 1);
      var a := s[..k] + s[k + 1..];
      assert a[0] == s[0];
      assert a[1..] == s[1..][..k - 1] + s[1..][k..];
    }
  }

  /** The number of elements of `s` that satisfy `p`: the reference count that
      `Filter` and the repository's total count are measured against. */
  function CountWhere<T>(p: T -> bool, s: seq<T>): nat
  {
    if s == [] then 0 else (if p(s[0]) then 1 else 0) + CountWhere(p, s[1..])
  }

  /** The elements of `s` that satisfy `p`, in their original order
      (LINQ `Where`, JavaScript `Array.prototype.filter`). */
  function Filter<T(==)>(p: T -> bool, s: seq<T>): (r: seq<T>)
    ensures |r| <= |s|
  {
    if s == [] then []
    else
      assert s == [s[0]] + s[1..];
      (if p(s[0]) then [s[0]] else []) + Filter(p, s[1..])
  }

  /** The filter keeps an element exactly when it is in `s` and passes `p`. */
  lemma {:induction false} FilterMembers<T>(p: T -> bool, s: seq<T>)
    ensures forall x :: x in Filter(p, s) ==> x in s && p(x)
    ensures forall x :: x in s && p(x) ==> x in Filter(p, s)
  {
    if s != [] {
      FilterMembers(p, s[1..]);
      assert s == [s[0]] + s[1..];
    }
  }

  /** Filtering a one-element sequence keeps it exactly when it passes. */
  lemma FilterSingleton<T>(p: T -> bool, x: T)
    ensures Filter(p, [x]) == if p(x) then [x] else []
  {
    assert [x][1..] == [];
  }

  /** Filtering is exact in both directions: every element that satisfies `p`
      keeps all its occurrences, every other element loses all of them. */
  lemma {:induction false} FilterMultiplicity<T>(p: T -> bool, s: seq<T>)
    ensures forall x :: multiset(Filter(p, s))[x] == if p(x) then multiset(s)[x] else 0
    ensures multiset(Filter(p, s)) <= multiset(s)
  {
    if s != [] {
      assert s == [s[0]] + s[1..];
      FilterMultiplicity(p, s[1..]);
    }
  }

  /** Filtering keeps exactly `CountWhere` elements. */
  lemma {:induction false} FilterLength<T>(p: T -> bool, s: seq<T>)
    ensures |Filter(p, s)| == CountWhere(p, s)
  {
    if s != [] {
      FilterLength(p, s[1..]);
    }
  }

  /** Filtering distributes over concatenation: the filter never reorders
      elements across a split point. */
  lemma {:induction false} FilterAppend<T>(p: T -> bool, a: seq<T>, b: seq<T>)
    ensures Filter(p, a + b) == Filter(p, a) + Filter(p, b)
  {
    if a == [] {
      assert a + b == b;
    } else {
      var head := if p(a[0]) then [a[0]] else [];
      assert (a + b)[0] == a[0];
      assert (a + b)[1..] == a[1..] + b;
      FilterAppend(p, a[1..], b);
      assert Filter(p, a + b) == head + Filter(p, a[1..] + b);
      assert Filter(p, a) == head + Filter(p, a[1..]);
    }
  }

  /** The filtered sequence is an order-preserving subsequence of its input. */
  lemma {:induction false} FilterIsSubsequence<T>(p: T -> bool, s: seq<T>)
    ensures IsSubsequence(Filter(p, s), s)
  {
    if s != [] {
      var rest := Filter(p, s[1..]);
      FilterIsSubsequence(p, s[1..]);
      if p(s[0]) {
        assert Filter(p, s) == [s[0]] + rest;
        assert ([s[0]] + rest)[1..] == rest;
      } else {
        assert Filter(p, s) == rest;
      }
    }
  }

  /** A filter whose predicate nothing in `s` satisfies yields nothing, and the
      count is zero. */
  lemma NoneSatisfies<T>(p: T -> bool, s: seq<T>)
    requires forall i :: 0 <= i < |s| ==> !p(s[i])
    ensures Filter(p, s) == []
    ensures CountWhere(p, s) == 0
  {
    FilterLength(p, s);
  }

  /** A filter whose predicate every element satisfies is the identity. */
  lemma {:induction false} AllSatisfy<T>(p: T -> bool, s: seq<T>)
    requires forall i :: 0 <= i < |s| ==> p(s[i])
    ensures Filter(p, s) == s
    ensures CountWhere(p, s) == |s|
  {
    if s != [] {
      AllSatisfy(p, s[1..]);
    }
  }

  /** When `inner` implies `outer`, filtering by `inner` directly is filtering
      the `outer` result again. */
  lemma {:induction false} FilterNested<T>(outer: T -> bool, inner: T -> bool, s: seq<T>)
    requires forall x :: inner(x) ==> outer(x)
    ensures Filter(inner, s) == Filter(inner, Filter(outer, s))
  {
    if s != [] {
      FilterNested(outer, inner, s[1..]);
      if outer(s[0]) {
        var t := Filter(outer, s);
        assert t == [s[0]] + Filter(outer, s[1..]);
        assert t[0] == s[0] && t[1..] == Filter(outer, s[1..]);
        assert Filter(inner, t) == (if inner(t[0]) then [t[0]] else []) + Filter(inner, t[1..]);
      } else {
        assert !inner(s[0]);
        assert Filter(outer, s) == Filter(outer, s[1..]);
        assert Filter(inner, s) == Filter(inner, s[1..]);
      }
    }
  }

  /** Two filters can be applied in either order. */
  lemma {:induction false} FilterCommute<T>(p: T -> bool, q: T -> bool, s: seq<T>)
    ensures Filter(p, Filter(q, s)) == Filter(q, Filter(p, s))
  {
    if s != [] {
      var x, rest := s[0], s[1..];
      FilterCommute(p, q, rest);
      var fq := if q(x) then [x] else [];
      var fp := if p(x) then [x] else [];
      assert Filter(q, s) == fq + Filter(q, rest);
      assert Filter(p, s) == fp + Filter(p, rest);
      FilterAppend(p, fq, Filter(q, rest));
      FilterAppend(q, fp, Filter(p, rest));
      FilterSingleton(p, x);
      FilterSingleton(q, x);
      assert Filter(p, fq) == Filter(q, fp);
    }
  }

  /** When `s[k]` is the only element failing `p`, filtering removes exactly
      that position. */
  lemma {:induction false} FilterDropsOne<T>(p: T -> bool, s: seq<T>, k: nat)
    requires k < |s| && !p(s[k])
    requires forall i :: 0 <= i < |s| && i != k ==> p(s[i])
    ensures Filter(p, s) == s[..k] + s[k + 1..]
  {
    if k == 0 {
      AllSatisfy(p, s[1..]);
    } else {
      var t := s[1..];
      assert forall i :: 0 <= i < |t| && i != k - 1 ==> p(t[i]) by {
        forall i | 0 <= i < |t| && i != k - 1
          ensures p(t[i])
        {
          assert t[i] == s[i + 1];
        }
      }
      FilterDropsOne(p, t, k - 1);
      assert p(s[0]);
      assert Filter(p, s) == [s[0]] + Filter(p, t);
      assert s[..k] == [s[0]] + t[..k - 1];
      assert s[k + 1..] == t[k..];
    }
  }

  /** LINQ `Skip(n)`: drops the first `n` elements; a non-positive `n` drops
      nothing and an `n` past the end leaves nothing. */
  function Skip<T>(s: seq<T>, n: int): (r: seq<T>)
    ensures n <= 0 ==> r == s
    ensures |r| == if n <= 0 then |s| else if n >= |s| then 0 else |s| - n
    ensures forall i :: 0 <= i < |r| ==> r[i] == s[i + (if n <= 0 then 0 else n)]
  {
    if n <= 0 then s else if n >= |s| then [] else s[n..]
  }

  /** LINQ `Take(n)`: the first `n` elements, all of them when there are fewer,
      none when `n` is non-positive. */
  function Take<T>(s: seq<T>, n: int): (r: seq<T>)
    ensures |r| == if n <= 0 then 0 else if n >= |s| then |s| else n
    ensures forall i :: 0 <= i < |r| ==> r[i] == s[i]
  {
    if n <= 0 then [] else if n >= |s| then s else s[..n]
  }

  /** The contiguous window of at most `size` elements starting at `offset`. */
  function Window<T>(s: seq<T>, offset: nat, size: nat): (r: seq<T>)
    ensures |r| <= size
    ensures offset >= |s| ==> r == []
    ensures offset < |s| ==> |r| == if |s| - offset < size then |s| - offset else size
    ensures forall i :: 0 <= i < |r| ==> offset + i < |s| && r[i] == s[offset + i]
    ensures forall x :: x in r ==> x in s
  {
    if offset >= |s| then []
    else
      var b := if |s| - offset < size then |s| else offset + size;
      assert forall x :: x in s[offset..b] ==> x in s by {
        forall x | x in s[offset..b] ensures x in s {
          var i :| 0 <= i < b - offset && s[offset..b][i] == x;
          assert s[offset + i] == x;
        }
      }
      s[offset..b]
  }

  /** `Window` is LINQ's `Take(Skip(s, offset), size)`. */
  lemma WindowIsSkipTake<T>(s: seq<T>, offset: nat, size: nat)
    ensures Take(Skip(s, offset), size) == Window(s, offset, size)
  {
    var w, t := Window(s, offset, size), Take(Skip(s, offset), size);
    assert |w| == |t|;
    forall i | 0 <= i < |w|
      ensures w[i] == t[i]
    {
    }
  }
}
