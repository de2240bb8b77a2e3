/** Pure data behind two of the page's lists: the options of the year
    selector, and the multi-time winners ordered by year. */
module Presentation {
  import opened Sequences
  import opened MultiTimeWinners

  const FirstYear: int := 1900
  const LastYear: int := 2019

  /** `Array.from({ length: 2019 - 1900 + 1 }, (_, index) => 1900 + index)`:
      every year from 1900 to 2019, ascending. */
  function YearOptions(): (r: seq<int>)
    ensures |r| == 120 && r[0] == FirstYear && r[|r| - 1] == LastYear
    ensures forall i, j :: 0 <= i < j < |r| ==> r[i] < r[j]
    ensures forall y :: y in r <==> FirstYear <= y <= LastYear
  {
    var r := seq(LastYear - FirstYear + 1, index requires 0 <= index => FirstYear + index);
    forall y | FirstYear <= y <= LastYear
      ensures y in r
    {
      assert r[y - FirstYear] == y;
    }
    r
  }

  /** The sort key of `(a, b) => a.winner.year - b.winner.year`. */
  function Year(w: WinCount): int
  {
    w.winner.year
  }

  /** The comparator `(a, b) => a.winner.year - b.winner.year`: negative
      when `a` goes first, zero when the two keep their order, positive
      when `b` goes first. */
  function CompareByYear(a: WinCount, b: WinCount): (c: int)
    ensures c < 0 <==> Year(a) < Year(b)
    ensures c == 0 <==> Year(a) == Year(b)
    ensures c > 0 <==> Year(b) < Year(a)
  {
    a.winner.year - b.winner.year
  }

  ghost predicate SortedByYear(s: seq<WinCount>) {
    forall i, j :: 0 <= i < j < |s| ==> Year(s[i]) <= Year(s[j])
  }

  /** The entries of `s` whose winner is of year `y`, in order. */
  function OfYear(s: seq<WinCount>, y: int): seq<WinCount> {
    Filter(InYear(y), s)
  }

  function InYear(y: int): WinCount -> bool {
    w => Year(w) == y
  }

  /** Places `x` into the sorted `t` after every entry of the same or an
      earlier year. */
  function Insert(t: seq<WinCount>, x: WinCount): (r: seq<WinCount>)
    ensures multiset(r) == multiset(t) + multiset{x}
  {
    if t == [] then [x]
    else if Year(x) < Year(t[0]) then [x] + t
    else
      assert t == [t[0]] + t[1..];
      [t[0]] + Insert(t[1..], x)
  }

  lemma {:induction false} InsertSorted(t: seq<WinCount>, x: WinCount)
    requires SortedByYear(t)
    ensures SortedByYear(Insert(t, x))
  {
    if t != [] && Year(x) >= Year(t[0]) {
      InsertSorted(t[1..], x);
      var rest := Insert(t[1..], x);
      forall k | 0 <= k < |rest|
        ensures Year(t[0]) <= Year(rest[k])
      {
        assert rest[k] in multiset(rest);
        if rest[k] != x {
          assert rest[k] in t[1..];
        }
      }
    }
  }

  lemma OfYearSingle(x: WinCount, y: int)
    ensures OfYear([x], y) == if Year(x) == y then [x] else []
  {
    assert [x][..0] == [];
  }

  /** An entry placed before a sorted run of later years comes first among
      the entries of its own year. */
  lemma InsertStableFront(t: seq<WinCount>, x: WinCount, y: int)
    requires SortedByYear(t) && t != [] && Year(x) < Year(t[0])
    ensures OfYear([x] + t, y) == OfYear(t, y) + OfYear([x], y)
  {
    OfYearSingle(x, y);
    FilterAppend(InYear(y), [x], t);
    if Year(x) == y {
      FilterNone(InYear(y), t);
    }
  }

  /** Insertion keeps the entries of each year in their order: `x` goes
      after every entry of its own year. */
  lemma {:induction false} InsertStable(t: seq<WinCount>, x: WinCount, y: int)
    requires SortedByYear(t)
    ensures OfYear(Insert(t, x), y) == OfYear(t, y) + OfYear([x], y)
  {
    if t == [] {
      assert OfYear(t, y) == [];
    } else if Year(x) < Year(t[0]) {
      InsertStableFront(t, x, y);
    } else {
      var h, rest := [t[0]], t[1..];
      assert h + rest == t;
      InsertStable(rest, x, y);
      FilterAppend(InYear(y), h, Insert(rest, x));
      FilterAppend(InYear(y), h, rest);
    }
  }

  /** `multiTimeWinners.sort((a, b) => a.winner.year - b.winner.year)`, a
      stable sort: the result is ordered by year, holds the same entries,
      and keeps the entries of each year in their input order. */
  function SortByYear(s: seq<WinCount>): (r: seq<WinCount>)
    ensures SortedByYear(r)
    ensures multiset(r) == multiset(s)
    ensures forall y :: OfYear(r, y) == OfYear(s, y)
    ensures forall i, j :: 0 <= i < j < |r| ==> CompareByYear(r[i], r[j]) <= 0
  {
    if s == [] then []
    else
      var t, x := SortByYear(s[..|s| - 1]), s[|s| - 1];
      assert s == s[..|s| - 1] + [x];
      InsertSorted(t, x);
      forall y
        ensures OfYear(Insert(t, x), y) == OfYear(s, y)
      {
        InsertStable(t, x, y);
        FilterAppend(InYear(y), s[..|s| - 1], [x]);
      }
      var r := Insert(t, x);
      SortedCompares(r);
      r
  }

  /** In a list ordered by year, the comparator is never positive for an
      entry and a later one. */
  lemma SortedCompares(r: seq<WinCount>)
    requires SortedByYear(r)
    ensures forall i, j :: 0 <= i < j < |r| ==> CompareByYear(r[i], r[j]) <= 0
  {
    forall i, j | 0 <= i < j < |r|
      ensures CompareByYear(r[i], r[j]) <= 0
    {
      assert Year(r[i]) <= Year(r[j]);
    }
  }

  /** The entries of year `y` in a sequence with `x` at its front. */
  lemma OfYearCons(x: WinCount, t: seq<WinCount>, y: int)
    ensures OfYear([x] + t, y) == if Year(x) == y then [x] + OfYear(t, y) else OfYear(t, y)
  {
    FilterAppend(InYear(y), [x], t);
    OfYearSingle(x, y);
  }

  lemma InOfYear(x: WinCount, r: seq<WinCount>, y: int)
    requires x in OfYear(r, y)
    ensures x in r
  {
  }

  /** The front of a sequence ordered by year has the earliest year. */
  lemma FrontIsEarliest(r: seq<WinCount>, x: WinCount)
    requires SortedByYear(r) && x in r
    ensures Year(r[0]) <= Year(x)
  {
    var k :| 0 <= k < |r| && r[k] == x;
    assert k == 0 || Year(r[0]) <= Year(r[k]);
  }

  /** Two sequences ordered by year, with the same entries in each year,
      start with the same entry. */
  lemma SameFront(a: WinCount, t1: seq<WinCount>, b: WinCount, t2: seq<WinCount>)
    requires SortedByYear([a] + t1) && SortedByYear([b] + t2)
    requires OfYear([a] + t1, Year(a)) == OfYear([b] + t2, Year(a))
    requires OfYear([a] + t1, Year(b)) == OfYear([b] + t2, Year(b))
    ensures a == b
  {
    var r1, r2 := [a] + t1, [b] + t2;
    OfYearCons(a, t1, Year(a));
    OfYearCons(b, t2, Year(b));
    assert a in OfYear(r2, Year(a));
    InOfYear(a, r2, Year(a));
    FrontIsEarliest(r2, a);
    assert b in OfYear(r1, Year(b));
    InOfYear(b, r1, Year(b));
    FrontIsEarliest(r1, b);
    assert Year(a) == Year(b);
    var x1, x2 := OfYear(t1, Year(a)), OfYear(t2, Year(a));
    assert [a] + x1 == [b] + x2;
    assert ([a] + x1)[0] == a && ([b] + x2)[0] == b;
  }

  /** A non-empty sequence has entries in the year of its front. */
  lemma FrontYearOccupied(r: seq<WinCount>)
    requires r != []
    ensures OfYear(r, Year(r[0])) != []
  {
    var x, t := r[0], r[1..];
    assert [x] + t == r;
    OfYearCons(x, t, Year(x));
  }

  /** Removing the common front entry of two sequences with the same
      entries in each year leaves sequences with the same entries in each
      year. */
  lemma SameTails(a: WinCount, t1: seq<WinCount>, t2: seq<WinCount>)
    requires forall y :: OfYear([a] + t1, y) == OfYear([a] + t2, y)
    ensures forall y :: OfYear(t1, y) == OfYear(t2, y)
  {
    forall y
      ensures OfYear(t1, y) == OfYear(t2, y)
    {
      assert OfYear([a] + t1, y) == OfYear([a] + t2, y);
      OfYearCons(a, t1, y);
      OfYearCons(a, t2, y);
      var x1, x2 := OfYear(t1, y), OfYear(t2, y);
      if Year(a) == y {
        assert [a] + x1 == [a] + x2;
        assert ([a] + x1)[1..] == x1 && ([a] + x2)[1..] == x2;
      }
    }
  }

  /** A sequence ordered by year is determined by its entries of each year. */
  lemma {:induction false} SortedByYearUnique(r1: seq<WinCount>, r2: seq<WinCount>)
    requires SortedByYear(r1) && SortedByYear(r2)
    requires forall y :: OfYear(r1, y) == OfYear(r2, y)
    ensures r1 == r2
    decreases |r1| + |r2|
  {
    if r1 == [] && r2 != [] {
      assert OfYear(r1, Year(r2[0])) == [];
      FrontYearOccupied(r2);
    } else if r1 != [] && r2 == [] {
      assert OfYear(r2, Year(r1[0])) == [];
      FrontYearOccupied(r1);
    } else if r1 != [] {
      var a, t1, b, t2 := r1[0], r1[1..], r2[0], r2[1..];
      assert [a] + t1 == r1 && [b] + t2 == r2;
      assert OfYear(r1, Year(a)) == OfYear(r2, Year(a));
      assert OfYear(r1, Year(b)) == OfYear(r2, Year(b));
      SameFront(a, t1, b, t2);
      SameTails(a, t1, t2);
      SortedByYearUnique(t1, t2);
    }
  }

  /** `SortByYear` is the only ordering by year that keeps the entries of
      each year in their input order, so any stable sort by year, whatever
      its algorithm, returns it. */
  lemma SortByYearIsStableSort(s: seq<WinCount>, r: seq<WinCount>)
    requires SortedByYear(r)
    requires forall y :: OfYear(r, y) == OfYear(s, y)
    ensures r == SortByYear(s)
  {
    SortedByYearUnique(r, SortByYear(s));
  }
}
