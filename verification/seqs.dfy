/**
 * List comprehensions and sums, and the fact that their outcome depends only
 * on the multiset of the input, not on its order.
 */
module Seqs {
  import opened Wrappers

  /** `[g(x) for x in s if f(x)]`, with the test and the image folded into one `Option`. */
  function FilterMap<T, U>(s: seq<T>, f: T -> Option<U>): (r: seq<U>)
    ensures |r| <= |s|
  {
    if |s| == 0 then []
    else
      var rest := FilterMap(s[1..], f);
      match f(s[0])
      case None => rest
      case Some(y) => [y] + rest
  }

  lemma {:induction false} FilterMapConcat<T, U>(a: seq<T>, b: seq<T>, f: T -> Option<U>)
    ensures FilterMap(a + b, f) == FilterMap(a, f) + FilterMap(b, f)
    decreases |a|
  {
    if |a| > 0 {
      assert (a + b)[1..] == a[1..] + b;
      FilterMapConcat(a[1..], b, f);
    } else {
      assert a + b == b;
    }
  }

  /** Everything in the output is the image of an input element, and every kept input element shows up. */
  lemma {:induction false} FilterMapMembers<T, U>(s: seq<T>, f: T -> Option<U>)
    ensures forall y :: y in FilterMap(s, f) <==> exists i :: 0 <= i < |s| && f(s[i]) == Some(y)
    decreases |s|
  {
    if |s| > 0 {
      FilterMapMembers(s[1..], f);
      forall y ensures y in FilterMap(s, f) <==> exists i :: 0 <= i < |s| && f(s[i]) == Some(y) {
        if i :| 1 <= i < |s| && f(s[i]) == Some(y) {
          assert f(s[1..][i - 1]) == Some(y);
        }
        if y in FilterMap(s[1..], f) {
          var i :| 0 <= i < |s[1..]| && f(s[1..][i]) == Some(y);
          assert f(s[i + 1]) == Some(y);
        }
      }
    }
  }

  /** Splitting a sequence around the position of one of its elements. */
  lemma RemoveAt<T>(s: seq<T>, j: nat)
    requires j < |s|
    ensures s == s[..j] + [s[j]] + s[j + 1..]
    ensures multiset(s[..j] + s[j + 1..]) == multiset(s) - multiset{s[j]}
  {
    assert s == s[..j] + [s[j]] + s[j + 1..];
  }

  /** The output of `s` is the outputs of the part before `j`, of `s[j]` and of the part after. */
  lemma FilterMapSplit<T, U>(s: seq<T>, j: nat, f: T -> Option<U>)
    requires j < |s|
    ensures FilterMap(s, f) == FilterMap(s[..j], f) + (FilterMap([s[j]], f) + FilterMap(s[j + 1..], f))
  {
    SplitAt(s, j);
    FilterMapThree(s[..j], [s[j]], s[j + 1..], f);
  }

  lemma SplitAt<T>(s: seq<T>, j: nat)
    requires j < |s|
    ensures s == s[..j] + ([s[j]] + s[j + 1..])
  {
    assert s[j..] == [s[j]] + s[j + 1..];
    assert s == s[..j] + s[j..];
  }

  lemma FilterMapThree<T, U>(l: seq<T>, m: seq<T>, r: seq<T>, f: T -> Option<U>)
    ensures FilterMap(l + (m + r), f) == FilterMap(l, f) + (FilterMap(m, f) + FilterMap(r, f))
  {
    FilterMapConcat(l, m + r, f);
    FilterMapConcat(m, r, f);
  }

  lemma MultisetMiddle<U>(l: seq<U>, x: seq<U>, r: seq<U>)
    ensures multiset(l + (x + r)) == multiset(x) + multiset(l + r)
  {
  }

  /** The output of `s`, taken apart at position `j`. */
  lemma FilterMapAround<T, U>(s: seq<T>, j: nat, f: T -> Option<U>)
    requires j < |s|
    ensures multiset(FilterMap(s, f)) == multiset(FilterMap([s[j]], f)) + multiset(FilterMap(s[..j] + s[j + 1..], f))
  {
    FilterMapSplit(s, j, f);
    FilterMapConcat(s[..j], s[j + 1..], f);
    MultisetMiddle(FilterMap(s[..j], f), FilterMap([s[j]], f), FilterMap(s[j + 1..], f));
  }

  /** Reordering the input reorders the output and nothing more. */
  lemma {:induction false} FilterMapPermutation<T, U>(a: seq<T>, b: seq<T>, f: T -> Option<U>)
    requires multiset(a) == multiset(b)
    ensures multiset(FilterMap(a, f)) == multiset(FilterMap(b, f))
    decreases |a|
  {
    if |a| == 0 {
      assert |b| == |multiset(b)| == 0;
    } else {
      assert a[0] in multiset(b);
      var j :| 0 <= j < |b| && b[j] == a[0];
      RemoveAt(b, j);
      assert a == [a[0]] + a[1..];
      assert multiset(a[1..]) == multiset(a) - multiset{a[0]};
      FilterMapPermutation(a[1..], b[..j] + b[j + 1..], f);
      FilterMapAround(b, j, f);
      FilterMapConcat([a[0]], a[1..], f);
    }
  }

  /** `[g(x) for x in s]`. */
  function Map<T, U>(s: seq<T>, g: T -> U): (r: seq<U>)
    ensures |r| == |s|
    ensures forall i :: 0 <= i < |s| ==> r[i] == g(s[i])
  {
    seq(|s|, i requires 0 <= i < |s| => g(s[i]))
  }

  /** `Map` is the filter-map that keeps everything. */
  lemma {:induction false} MapIsFilterMap<T, U>(s: seq<T>, g: T -> U)
    ensures Map(s, g) == FilterMap(s, x => Some(g(x)))
    decreases |s|
  {
    if |s| > 0 {
      MapIsFilterMap(s[1..], g);
      assert Map(s, g) == [g(s[0])] + Map(s[1..], g);
    }
  }

  lemma MapPermutation<T, U>(a: seq<T>, b: seq<T>, g: T -> U)
    requires multiset(a) == multiset(b)
    ensures multiset(Map(a, g)) == multiset(Map(b, g))
  {
    MapIsFilterMap(a, g);
    MapIsFilterMap(b, g);
    FilterMapPermutation(a, b, x => Some(g(x)));
  }

  /** `sum(w(x) for x in s)`, adding from the left. */
  function Sum<T>(s: seq<T>, w: T -> real): real
  {
    if |s| == 0 then 0.0 else Sum(s[..|s| - 1], w) + w(s[|s| - 1])
  }

  lemma {:induction false} SumConcat<T>(a: seq<T>, b: seq<T>, w: T -> real)
    ensures Sum(a + b, w) == Sum(a, w) + Sum(b, w)
    decreases |b|
  {
    if |b| > 0 {
      assert (a + b)[..|a + b| - 1] == a + b[..|b| - 1];
      SumConcat(a, b[..|b| - 1], w);
    } else {
      assert a + b == a;
    }
  }

  lemma {:induction false} SumPermutation<T>(a: seq<T>, b: seq<T>, w: T -> real)
    requires multiset(a) == multiset(b)
    ensures Sum(a, w) == Sum(b, w)
    decreases |a|
  {
    if |a| == 0 {
      assert |b| == |multiset(b)| == 0;
    } else {
      var x := a[|a| - 1];
      assert x in multiset(b);
      var j :| 0 <= j < |b| && b[j] == x;
      RemoveAt(b, j);
      assert a == a[..|a| - 1] + [x];
      assert multiset(a[..|a| - 1]) == multiset(a) - multiset{x};
      SumPermutation(a[..|a| - 1], b[..j] + b[j + 1..], w);
      SumConcat(b[..j], b[j + 1..], w);
      SumConcat(b[..j] + [x], b[j + 1..], w);
      SumConcat(b[..j], [x], w);
      assert Sum([x], w) == w(x) by {
        assert [x][..0] == [];
      }
    }
  }

  /** `any(p(x) for x in s)`. */
  ghost predicate Any<T>(s: seq<T>, p: T -> bool) {
    exists i :: 0 <= i < |s| && p(s[i])
  }

  /** Whether some element qualifies, split at the first element. */
  lemma AnyCons<T>(s: seq<T>, p: T -> bool)
    requires |s| > 0
    ensures Any(s, p) <==> p(s[0]) || Any(s[1..], p)
  {
    if Any(s[1..], p) {
      var i :| 0 <= i < |s[1..]| && p(s[1..][i]);
      assert s[i + 1] == s[1..][i];
    }
    if Any(s, p) {
      var i :| 0 <= i < |s| && p(s[i]);
      if i > 0 {
        assert s[1..][i - 1] == s[i];
      }
    }
  }

  /** Whether some element qualifies, for two sequences glued together. */
  lemma AnyConcat<T>(a: seq<T>, b: seq<T>, p: T -> bool)
    ensures Any(a + b, p) <==> Any(a, p) || Any(b, p)
  {
    if Any(a + b, p) {
      var i :| 0 <= i < |a + b| && p((a + b)[i]);
      if i >= |a| {
        assert (a + b)[i] == b[i - |a|];
      }
    }
    if Any(a, p) {
      var i :| 0 <= i < |a| && p(a[i]);
      assert (a + b)[i] == a[i];
    }
    if Any(b, p) {
      var i :| 0 <= i < |b| && p(b[i]);
      assert (a + b)[|a| + i] == b[i];
    }
  }

  /** Whether some element qualifies does not depend on the order. */
  lemma AnyPermutation<T>(a: seq<T>, b: seq<T>, p: T -> bool)
    requires multiset(a) == multiset(b)
    ensures Any(a, p) <==> Any(b, p)
  {
    if Any(a, p) {
      var i :| 0 <= i < |a| && p(a[i]);
      assert a[i] in multiset(b);
    }
    if Any(b, p) {
      var i :| 0 <= i < |b| && p(b[i]);
      assert b[i] in multiset(a);
    }
  }
}
