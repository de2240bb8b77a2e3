/** Worked cases of the prize analysis: the report for a laureate credited
    on two Peace prizes, the Peace filter and the category vocabulary of that
    input, a laureate listed twice on one prize, a prize with an empty
    laureate list, and the empty list and empty document. */
module Scenarios {
  import opened Prizes
  import opened Sequences
  import opened MultiTimeWinners
  import opened PrizeFilter
  import opened Categories

  /** A laureate entry that carries only an id. */
  function Credited(id: string): Laureate {
    Laureate(Some(id), None, None)
  }

  const A: Prize := Prize(1905, "Peace", None, Some([Credited("x1")]))
  const B: Prize := Prize(1910, "Peace", None, Some([Credited("x1")]))
  const C: Prize := Prize(1905, "Physics", None, Some([Credited("x2")]))
  /** A prize with an empty list of laureates. */
  const E: Prize := Prize(1972, "Peace", None, Some([]))
  /** A prize whose list names the same laureate twice. */
  const D: Prize := Prize(1911, "Chemistry", None, Some([Credited("x3"), Credited("x3")]))

  lemma SingleCredit(id: string)
    requires id != ""
    ensures LaureateIds([Credited(id)]) == [id]
  {
    assert [Credited(id)][..0] == [];
  }

  lemma ScenarioIds()
    ensures Ids([A, B, C]) == ["x1", "x1", "x2"]
  {
    SingleCredit("x1");
    SingleCredit("x2");
    assert [A][..0] == [];
    assert Ids([A]) == ["x1"];
    assert [A, B][..1] == [A];
    assert Ids([A, B]) == ["x1", "x1"];
    assert [A, B, C][..2] == [A, B];
  }

  lemma DedupRepeat(a: string)
    ensures Dedup([a, a]) == [a]
  {
    DedupSnoc([], a);
    assert [] + [a] == [a];
    DedupSnoc([a], a);
    assert [a] + [a] == [a, a];
  }

  /** Both scenario id lists and category lists have the shape `[a, a, b]`. */
  lemma DedupRepeatThenNew(a: string, b: string)
    requires a != b
    ensures Dedup([a, a, b]) == [a, b]
  {
    DedupRepeat(a);
    DedupSnoc([a, a], b);
    assert [a, a] + [b] == [a, a, b];
    assert b !in [a, a];
  }

  lemma ScenarioOccurrences()
    ensures Occurrences([A, B, C], "x1") == 2 && Occurrences([A, B, C], "x2") == 1
  {
    ScenarioIds();
    assert "x2"[1] != "x1"[1];
    assert multiset(Ids([A, B, C])) == multiset{"x1", "x1", "x2"};
  }

  /** Of two distinct ids, only the one met more than once is reported. */
  lemma RepeatedFirstOfTwo(ps: seq<Prize>, a: string, b: string)
    requires Dedup(Ids(ps)) == [a, b]
    requires Occurrences(ps, a) > 1 && Occurrences(ps, b) <= 1
    ensures Repeated(ps) == [a]
  {
    var f := IsRepeatedIn(ps);
    assert f(a) && !f(b);
    FilterSnoc(f, [], a);
    FilterSnoc(f, [a], b);
    assert [] + [a] == [a] && [a] + [b] == [a, b];
  }

  lemma ScenarioRepeated()
    ensures Repeated([A, B, C]) == ["x1"]
  {
    ScenarioIds();
    assert "x2"[1] != "x1"[1];
    DedupRepeatThenNew("x1", "x2");
    ScenarioOccurrences();
    RepeatedFirstOfTwo([A, B, C], "x1", "x2");
  }

  lemma ScenarioFind()
    ensures Find([A, B, C], "x1") == Some(A)
  {
    assert A.laureates.value[0].id == Some("x1");
  }

  /** When a single id is repeated, the report is its one entry. */
  lemma OnlyReport(ps: seq<Prize>, id: string, w: WinCount, r: seq<WinCount>)
    requires Repeated(ps) == [id] && IsWinCountFor(ps, id, w)
    requires IsReport(ps, r)
    ensures r == [w]
  {
    assert IsReport(ps, [w]);
    ReportUnique(ps, r, [w]);
  }

  /** Laureate `x1`, credited on the Peace prizes of 1905 and 1910, is the
      one multi-time winner, reported with the earlier prize. */
  lemma ScenarioReport(r: seq<WinCount>)
    requires IsReport([A, B, C], r)
    ensures r == [WinCount(2, A)]
  {
    var ps := [A, B, C];
    ScenarioOccurrences();
    ScenarioRepeated();
    ScenarioFind();
    assert IsWinCountFor(ps, "x1", WinCount(2, A));
    OnlyReport(ps, "x1", WinCount(2, A), r);
  }

  /** Selecting the Peace category keeps the two Peace prizes, in order. */
  lemma ScenarioFilter()
    ensures FilterPrizes([A, B, C], "Peace", None) == [A, B]
  {
    var f := Selects("Peace", None);
    assert C.category[1] != "Peace"[1];
    KeepFirstTwo(f, A, B, C);
  }

  /** A filter of three elements that passes the first two. */
  lemma KeepFirstTwo<T>(f: T -> bool, a: T, b: T, c: T)
    requires f(a) && f(b) && !f(c)
    ensures Filter(f, [a, b, c]) == [a, b]
  {
    FilterSnoc(f, [], a);
    FilterSnoc(f, [a], b);
    FilterSnoc(f, [a, b], c);
    assert [] + [a] == [a] && [a] + [b] == [a, b] && [a, b] + [c] == [a, b, c];
  }

  /** The category selector offers Peace and then Physics. */
  lemma ScenarioCategories()
    ensures UniqueCategories([A, B, C]) == ["Peace", "Physics"]
  {
    assert CategoryList([A, B, C]) == ["Peace", "Peace", "Physics"];
    assert "Physics"[1] != "Peace"[1];
    DedupRepeatThenNew("Peace", "Physics");
  }

  lemma SamePrizeTwiceIds()
    ensures Ids([D]) == ["x3", "x3"]
  {
    var ls := [Credited("x3"), Credited("x3")];
    SingleCredit("x3");
    assert ls[..1] == [Credited("x3")];
    assert LaureateIds(ls) == ["x3", "x3"];
    assert [D][..0] == [];
  }

  /** An id taken twice and nothing else is the one repeated id. */
  lemma RepeatedOnlyTwice(ps: seq<Prize>, id: string)
    requires Ids(ps) == [id, id]
    ensures Occurrences(ps, id) == 2 && Repeated(ps) == [id]
  {
    DedupRepeat(id);
    assert multiset([id, id])[id] == 2;
    FilterSnoc(IsRepeatedIn(ps), [], id);
    assert [] + [id] == [id];
  }

  lemma SamePrizeTwiceRepeated()
    ensures Occurrences([D], "x3") == 2 && Repeated([D]) == ["x3"]
  {
    SamePrizeTwiceIds();
    RepeatedOnlyTwice([D], "x3");
  }

  /** The counting pass counts entries, not prizes: a laureate listed twice
      on a single prize is reported as a two-time winner. */
  lemma ScenarioSamePrizeTwice(r: seq<WinCount>)
    requires IsReport([D], r)
    ensures r == [WinCount(2, D)]
  {
    SamePrizeTwiceRepeated();
    assert D.laureates.value[0].id == Some("x3");
    assert Find([D], "x3") == Some(D);
    assert IsWinCountFor([D], "x3", WinCount(2, D));
    OnlyReport([D], "x3", WinCount(2, D), r);
  }

  /** A prize with an empty list of laureates is shown by a matching
      selection ... */
  lemma ScenarioNoLaureatesShown()
    ensures E in FilterPrizes([A, B, C, E], "Peace", None)
  {
    var ps := [A, B, C, E];
    assert ps[3] == E;
    assert multiset(ps)[E] > 0;
  }

  /** ... but changes nothing in the report. */
  lemma ScenarioNoLaureatesIgnored(r: seq<WinCount>)
    ensures IsReport([A, B, C, E], r) <==> IsReport([A, B, C], r)
  {
    AnonymousPrizeIgnored([A, B, C], E, [], r);
    assert [A, B, C] + [E] + [] == [A, B, C, E] && [A, B, C] + [] == [A, B, C];
  }

  /** An empty document has no multi-time winner and no category, and every
      selection shows nothing. */
  lemma EmptyDocument(r: seq<WinCount>, category: string, year: Option<int>)
    requires IsReport([], r)
    ensures r == [] && FilterPrizes([], category, year) == [] && UniqueCategories([]) == []
  {
    assert Repeated([]) == [];
  }
}
