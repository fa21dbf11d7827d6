/** The two list transforms the component applies to its state: `Array.prototype.filter`
    (deleting events, expiring toasts, the filtered view) and `Array.prototype.map`
    (replacing an edited event in place). Both are pure and order-preserving. */
module Lists {

  /** `s.filter(p)`: the elements of `s` that satisfy `p`, in their original order. */
  function Filter<T>(s: seq<T>, p: T -> bool): (r: seq<T>)
    ensures |r| <= |s|
    ensures forall i :: 0 <= i < |r| ==> r[i] in s && p(r[i])
    ensures forall i :: 0 <= i < |s| && p(s[i]) ==> s[i] in r
    decreases |s|
  {
    if s == [] then []
    else if p(s[0]) then [s[0]] + Filter(s[1..], p)
    else Filter(s[1..], p)
  }

  /** `s.map(f)`: the same length, element `i` replaced by `f(s[i])`. */
  function Map<T, U>(s: seq<T>, f: T -> U): (r: seq<U>)
    ensures |r| == |s|
    ensures forall i :: 0 <= i < |s| ==> r[i] == f(s[i])
    decreases |s|
  {
    if s == [] then [] else [f(s[0])] + Map(s[1..], f)
  }

  /** `r` can be obtained from `s` by deleting elements, without reordering the rest. */
  predicate IsSubsequence<T(==)>(r: seq<T>, s: seq<T>)
    decreases |s|
  {
    r == [] ||
    (s != [] &&
     ((r[0] == s[0] && IsSubsequence(r[1..], s[1..])) || IsSubsequence(r, s[1..])))
  }

  /** Filtering keeps the relative order of the survivors. */
  lemma {:induction false} FilterIsSubsequence<T>(s: seq<T>, p: T -> bool)
    ensures IsSubsequence(Filter(s, p), s)
    decreases |s|
  {
    if s != [] {
      FilterIsSubsequence(s[1..], p);
      if p(s[0]) {
        assert Filter(s, p)[1..] == Filter(s[1..], p);
      }
    }
  }

  /** Filtering keeps every occurrence of a passing element and no occurrence of a failing one. */
  lemma {:induction false} FilterCounts<T>(s: seq<T>, p: T -> bool, x: T)
    ensures multiset(Filter(s, p))[x] == if p(x) then multiset(s)[x] else 0
    decreases |s|
  {
    if s != [] {
      FilterCounts(s[1..], p, x);
      assert s == [s[0]] + s[1..];
      assert multiset(s) == multiset([s[0]]) + multiset(s[1..]);
      if p(s[0]) {
        assert multiset(Filter(s, p)) == multiset([s[0]]) + multiset(Filter(s[1..], p));
      }
    }
  }

  /** When every element passes, filtering is the identity. */
  lemma {:induction false} FilterAllPass<T>(s: seq<T>, p: T -> bool)
    requires forall i :: 0 <= i < |s| ==> p(s[i])
    ensures Filter(s, p) == s
    decreases |s|
  {
    if s != [] {
      FilterAllPass(s[1..], p);
      assert [s[0]] + s[1..] == s;
    }
  }

  /** Filtering a second time with the same predicate changes nothing. */
  lemma {:induction false} FilterIdempotent<T>(s: seq<T>, p: T -> bool)
    ensures Filter(Filter(s, p), p) == Filter(s, p)
  {
    var r := Filter(s, p);
    FilterAllPass(r, p);
  }

  /** Filtering distributes over appending one element at the end. */
  lemma {:induction false} FilterAppend<T>(s: seq<T>, x: T, p: T -> bool)
    ensures Filter(s + [x], p) == Filter(s, p) + (if p(x) then [x] else [])
    decreases |s|
  {
    if s == [] {
      assert s + [x] == [x];
      assert [x][1..] == [];
    } else {
      assert (s + [x])[0] == s[0];
      assert (s + [x])[1..] == s[1..] + [x];
      FilterAppend(s[1..], x, p);
    }
  }
}
