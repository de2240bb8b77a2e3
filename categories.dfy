/** The category vocabulary offered by the category selector:
    `[...new Set(prizes.map((prize) => prize.category))]`. */
module Categories {
  import opened Prizes
  import opened Sequences

  /** `prizes.map((prize) => prize.category)`. */
  function CategoryList(prizes: seq<Prize>): seq<string>
  {
    seq(|prizes|, k requires 0 <= k < |prizes| => prizes[k].category)
  }

  /** Every category that occurs, each exactly once, in the order of the
      first prize that has it. */
  function UniqueCategories(prizes: seq<Prize>): (r: seq<string>)
    ensures forall c :: c in r <==> exists k :: 0 <= k < |prizes| && prizes[k].category == c
    ensures Distinct(r)
    ensures FirstSeenOrdered(r, CategoryList(prizes))
  {
    var cs := CategoryList(prizes);
    DedupFirstSeenOrder(cs);
    assert forall k :: 0 <= k < |prizes| ==> cs[k] == prizes[k].category;
    Dedup(cs)
  }
}
