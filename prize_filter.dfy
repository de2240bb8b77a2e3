/** The list view's filter (`filterPrizes`): keep the prizes of the selected
    category and year, where an empty category selects every category and
    no year selects every year. */
module PrizeFilter {
  import opened Prizes
  import opened Sequences

  /** The test applied to each prize: `(!selectedCategory || prize.category
      === selectedCategory) && (selectedYear === null || prize.year ===
      selectedYear)`. The empty string is the only falsy category. */
  predicate Matches(p: Prize, category: string, year: Option<int>)
  {
    && (category == "" || p.category == category)
    && (year.None? || p.year == year.value)
  }

  /** `Matches` for one selection, as a test to filter by. */
  function Selects(category: string, year: Option<int>): Prize -> bool {
    p => Matches(p, category, year)
  }

  /** `prizes.filter(...)`: the prizes that match the selection, each one as
      often as in the input and in the input's order. */
  function FilterPrizes(prizes: seq<Prize>, category: string, year: Option<int>): (r: seq<Prize>)
    ensures forall k :: 0 <= k < |r| ==> Matches(r[k], category, year)
    ensures forall p :: multiset(r)[p] == if Matches(p, category, year) then multiset(prizes)[p] else 0
    ensures IsSubsequence(r, prizes)
  {
    var f := Selects(category, year);
    FilterCounts(f, prizes);
    FilterIsSubsequence(f, prizes);
    Filter(f, prizes)
  }

  /** With no category and no year selected, every prize is kept, in order. */
  lemma FilterUnset(prizes: seq<Prize>)
    ensures FilterPrizes(prizes, "", None) == prizes
  {
    FilterAll(Selects("", None), prizes);
  }

  /** Filtering an already filtered list again changes nothing. */
  lemma FilterIdempotent(prizes: seq<Prize>, category: string, year: Option<int>)
    ensures FilterPrizes(FilterPrizes(prizes, category, year), category, year) == FilterPrizes(prizes, category, year)
  {
    var f := Selects(category, year);
    FilterFilter(f, f, f, prizes);
  }

  /** The two selections are independent conjuncts: filtering by both is
      filtering by the category alone and then by the year alone. */
  lemma FilterSeparates(prizes: seq<Prize>, category: string, year: Option<int>)
    ensures FilterPrizes(prizes, category, year) == FilterPrizes(FilterPrizes(prizes, category, None), "", year)
  {
    FilterFilter(Selects(category, None), Selects("", year), Selects(category, year), prizes);
  }
}
