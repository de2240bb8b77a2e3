/** Sequence operations shared by the prize analysis: the behaviour of
    JavaScript's `Array.prototype.filter`, and the first-seen de-duplication
    that a `Set` or `Map` performs on the keys it is given. */
module Sequences {

  /** The elements of `s` that satisfy `f`, in their original order. */
  function Filter<T(==)>(f: T -> bool, s: seq<T>): (r: seq<T>)
    ensures |r| <= |s|
    ensures forall k :: 0 <= k < |r| ==> f(r[k]) && r[k] in s
  {
    if s == [] then []
    else
      assert s == s[..|s| - 1] + [s[|s| - 1]];
      Filter(f, s[..|s| - 1]) + (if f(s[|s| - 1]) then [s[|s| - 1]] else [])
  }

  /** Filtering keeps every occurrence of an element that passes and no
      occurrence of one that fails. */
  lemma {:induction false} FilterMultiplicity<T>(f: T -> bool, s: seq<T>, x: T)
    ensures multiset(Filter(f, s))[x] == if f(x) then multiset(s)[x] else 0
  {
    if s != [] {
      FilterMultiplicity(f, s[..|s| - 1], x);
      assert s == s[..|s| - 1] + [s[|s| - 1]];
    }
  }

  /** Filtering one more element at the end. */
  lemma FilterSnoc<T>(f: T -> bool, s: seq<T>, x: T)
    ensures Filter(f, s + [x]) == Filter(f, s) + if f(x) then [x] else []
  {
    assert (s + [x])[..|s|] == s;
  }

  /** `FilterMultiplicity` for every element at once. */
  lemma FilterCounts<T>(f: T -> bool, s: seq<T>)
    ensures forall x :: multiset(Filter(f, s))[x] == if f(x) then multiset(s)[x] else 0
  {
    forall x
      ensures multiset(Filter(f, s))[x] == if f(x) then multiset(s)[x] else 0
    {
      FilterMultiplicity(f, s, x);
    }
  }

  /** Filtering distributes over concatenation. */
  lemma {:induction false} FilterAppend<T>(f: T -> bool, a: seq<T>, b: seq<T>)
    ensures Filter(f, a + b) == Filter(f, a) + Filter(f, b)
  {
    if b == [] {
      assert a + b == a;
    } else {
      FilterAppend(f, a, b[..|b| - 1]);
      assert (a + b)[..|a + b| - 1] == a + b[..|b| - 1];
    }
  }

  /** Filters by two tests that agree everywhere give the same result. */
  lemma {:induction false} FilterCongruent<T>(f: T -> bool, g: T -> bool, s: seq<T>)
    requires forall x :: f(x) == g(x)
    ensures Filter(f, s) == Filter(g, s)
  {
    if s != [] {
      FilterCongruent(f, g, s[..|s| - 1]);
    }
  }

  /** A filter that every element passes returns its input unchanged. */
  lemma {:induction false} FilterAll<T>(f: T -> bool, s: seq<T>)
    requires forall k :: 0 <= k < |s| ==> f(s[k])
    ensures Filter(f, s) == s
  {
    if s != [] {
      FilterAll(f, s[..|s| - 1]);
      assert s == s[..|s| - 1] + [s[|s| - 1]];
    }
  }

  /** A filter that no element passes returns the empty sequence. */
  lemma FilterNone<T>(f: T -> bool, s: seq<T>)
    requires forall k :: 0 <= k < |s| ==> !f(s[k])
    ensures Filter(f, s) == []
  {
  }

  /** Filtering by `f` and then by `g` is filtering by their conjunction. */
  lemma {:induction false} FilterFilter<T>(f: T -> bool, g: T -> bool, h: T -> bool, s: seq<T>)
    requires forall x :: h(x) == (f(x) && g(x))
    ensures Filter(g, Filter(f, s)) == Filter(h, s)
  {
    if s != [] {
      var t, x := s[..|s| - 1], s[|s| - 1];
      FilterFilter(f, g, h, t);
      assert s[..|s| - 1] == t;
      assert h(x) == (f(x) && g(x));
      var ft := Filter(f, t);
      if f(x) {
        assert Filter(f, s) == ft + [x];
        assert (ft + [x])[..|ft + [x]| - 1] == ft;
      } else {
        assert Filter(f, s) == ft;
      }
    }
  }

  /** `r` can be obtained from `s` by deleting elements: `r` is the result of
      keeping some of the positions of `s`, in order. */
  ghost predicate IsSubsequence<T>(r: seq<T>, s: seq<T>)
    decreases |s|
  {
    if r == [] then true
    else if s == [] then false
    else if r[|r| - 1] == s[|s| - 1] then IsSubsequence(r[..|r| - 1], s[..|s| - 1])
    else IsSubsequence(r, s[..|s| - 1])
  }

  /** A subsequence of `s` stays one when `s` grows at the end. */
  lemma {:induction false} SubsequenceExtend<T>(r: seq<T>, s: seq<T>, x: T)
    requires IsSubsequence(r, s)
    ensures IsSubsequence(r, s + [x])
    decreases |s|, 1
  {
    if r != [] && r[|r| - 1] == x {
      assert (s + [x])[..|s|] == s;
      SubsequenceDropLast(r, s);
    } else {
      assert (s + [x])[..|s|] == s;
    }
  }

  /** Dropping the last element of a subsequence keeps it a subsequence. */
  lemma {:induction false} SubsequenceDropLast<T>(r: seq<T>, s: seq<T>)
    requires r != [] && IsSubsequence(r, s)
    ensures IsSubsequence(r[..|r| - 1], s)
    decreases |s|, 0
  {
    var t := s[..|s| - 1];
    if r[|r| - 1] == s[|s| - 1] {
      SubsequenceExtend(r[..|r| - 1], t, s[|s| - 1]);
      assert t + [s[|s| - 1]] == s;
    } else {
      SubsequenceDropLast(r, t);
      SubsequenceExtend(r[..|r| - 1], t, s[|s| - 1]);
      assert t + [s[|s| - 1]] == s;
    }
  }

  /** The result of a filter is a subsequence of its input. */
  lemma {:induction false} FilterIsSubsequence<T>(f: T -> bool, s: seq<T>)
    ensures IsSubsequence(Filter(f, s), s)
  {
    if s != [] {
      var t, x := s[..|s| - 1], s[|s| - 1];
      FilterIsSubsequence(f, t);
      assert s == t + [x] && s[..|s| - 1] == t;
      var ft := Filter(f, t);
      if f(x) {
        assert Filter(f, s) == ft + [x];
        assert (ft + [x])[..|ft + [x]| - 1] == ft;
      } else {
        assert Filter(f, s) == ft;
        SubsequenceExtend(ft, t, x);
      }
    }
  }

  /** No element occurs twice. */
  ghost predicate Distinct<T>(s: seq<T>) {
    forall i, j :: 0 <= i < j < |s| ==> s[i] != s[j]
  }

  /** `s` with every repetition removed, each element where it is first seen:
      the iteration order of a `Set` or `Map` filled from `s` in order. */
  function Dedup<T(==, !new)>(s: seq<T>): (r: seq<T>)
    ensures forall x :: x in r <==> x in s
    ensures Distinct(r)
  {
    if s == [] then []
    else
      assert s == s[..|s| - 1] + [s[|s| - 1]];
      var d := Dedup(s[..|s| - 1]);
      if s[|s| - 1] in d then d else d + [s[|s| - 1]]
  }

  /** De-duplicating one more element at the end: it is kept only when new. */
  lemma DedupSnoc<T(!new)>(s: seq<T>, x: T)
    ensures Dedup(s + [x]) == if x in s then Dedup(s) else Dedup(s) + [x]
  {
    assert (s + [x])[..|s|] == s;
  }

  /** The position of the first occurrence of `x` in `s`. */
  function IndexOf<T(==)>(s: seq<T>, x: T): (i: nat)
    requires x in s
    ensures i < |s| && s[i] == x
    ensures forall k :: 0 <= k < i ==> s[k] != x
  {
    if s[0] == x then 0 else 1 + IndexOf(s[1..], x)
  }

  /** Appending at the end does not move a first occurrence. */
  lemma IndexOfAppend<T>(s: seq<T>, x: T, y: T)
    requires y in s
    ensures y in s + [x] && IndexOf(s + [x], y) == IndexOf(s, y)
  {
    var j := IndexOf(s, y);
    assert (s + [x])[j] == y;
  }

  /** An element new to `s` is first seen at the end. */
  lemma IndexOfNew<T>(s: seq<T>, x: T)
    requires x !in s
    ensures IndexOf(s + [x], x) == |s|
  {
  }

  /** Every element of `r` occurs in `s`, and `r` lists them in the order in
      which `s` first shows them. */
  ghost predicate FirstSeenOrdered<T(!new)>(r: seq<T>, s: seq<T>) {
    && (forall k :: 0 <= k < |r| ==> r[k] in s)
    && (forall i, j :: 0 <= i < j < |r| ==> IndexOf(s, r[i]) < IndexOf(s, r[j]))
  }

  lemma FirstSeenOrderedExtend<T(!new)>(r: seq<T>, s: seq<T>, x: T)
    requires FirstSeenOrdered(r, s)
    ensures FirstSeenOrdered(r, s + [x])
  {
    forall k | 0 <= k < |r|
      ensures r[k] in s + [x] && IndexOf(s + [x], r[k]) == IndexOf(s, r[k])
    {
      IndexOfAppend(s, x, r[k]);
    }
  }

  lemma FirstSeenOrderedAppendNew<T(!new)>(r: seq<T>, s: seq<T>, x: T)
    requires FirstSeenOrdered(r, s) && x !in s
    ensures FirstSeenOrdered(r + [x], s + [x])
  {
    FirstSeenOrderedExtend(r, s, x);
    IndexOfNew(s, x);
    var r' := r + [x];
    forall i, j | 0 <= i < j < |r'|
      ensures IndexOf(s + [x], r'[i]) < IndexOf(s + [x], r'[j])
    {
      assert r'[i] == r[i];
      if j < |r| {
        assert r'[j] == r[j];
      } else {
        assert r[i] in s;
      }
    }
  }

  /** Whatever a filter keeps of `Dedup(s)` comes in the order in which `s`
      first shows each element. */
  lemma {:induction false} FilterDedupFirstSeenOrder<T(!new)>(f: T -> bool, s: seq<T>)
    ensures FirstSeenOrdered(Filter(f, Dedup(s)), s)
  {
    if s != [] {
      var t, x := s[..|s| - 1], s[|s| - 1];
      assert s == t + [x];
      FilterDedupFirstSeenOrder(f, t);
      var r := Filter(f, Dedup(t));
      if x in t {
        assert Dedup(s) == Dedup(t);
        FirstSeenOrderedExtend(r, t, x);
      } else {
        var d := Dedup(t);
        assert Dedup(s) == d + [x];
        assert (d + [x])[..|d + [x]| - 1] == d;
        if f(x) {
          assert Filter(f, Dedup(s)) == r + [x];
          FirstSeenOrderedAppendNew(r, t, x);
        } else {
          assert Filter(f, Dedup(s)) == r;
          FirstSeenOrderedExtend(r, t, x);
        }
      }
    }
  }

  /** `Dedup(s)` lists the elements of `s` in the order of their first
      occurrence. */
  lemma DedupFirstSeenOrder<T(!new)>(s: seq<T>)
    ensures FirstSeenOrdered(Dedup(s), s)
  {
    var all := (x: T) => true;
    FilterAll(all, Dedup(s));
    FilterDedupFirstSeenOrder(all, s);
  }

  /** A filter of a sequence without repetitions has none either. */
  lemma {:induction false} FilterDistinct<T>(f: T -> bool, s: seq<T>)
    requires Distinct(s)
    ensures Distinct(Filter(f, s))
  {
    if s != [] {
      var t, x := s[..|s| - 1], s[|s| - 1];
      assert s == t + [x];
      FilterDistinct(f, t);
      assert x !in t;
    }
  }
}
