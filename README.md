# Nobel prize analysis — a Dafny model

The application loads the Nobel prize document (a list of prizes, each with
a year, a category, an optional motivation and an optional list of
laureates) and derives four things from it:

- the laureates who won more than once (`findMultiTimeWinners`);
- the prizes matching the selected category and year (`filterPrizes`);
- the distinct categories offered by the category selector;
- the years offered by the year selector, plus the multi-time winners
  ordered by the year of the first prize in the list that credits them.

This project models those computations and proves what they return.

- `prizes.dfy` (`Prizes`): the prize and laureate records. Every field the
  document may omit is an `Option`. It also holds the JavaScript truthiness
  tests the code relies on.
- `sequences.dfy` (`Sequences`): `Array.prototype.filter` as `Filter`, and
  first-seen de-duplication as `Dedup`. `Dedup` gives the iteration order of
  a `Set` or `Map` filled in order. Also their laws: multiplicities,
  subsequence, distinctness, first-seen order.
- `multi_time_winners.dfy` (`MultiTimeWinners`): `findMultiTimeWinners`,
  written imperatively like the source.
  - The counting pass has two loop levels. `CountIds` is the loop over the
    prizes and `CountLaureates` the loop over one prize's laureates.
    `CountId` is the body of the inner loop: the `has`/`set` branch.
  - The JavaScript `Map` is represented by a `map` of counts and a `seq`
    holding its key insertion order.
  - The reporting pass is `ReportAll`/`ReportId`. It walks the keys in that
    order and looks up each winner with `Find`, the model of
    `prizes.find`.
  - Both passes are proved against specification functions (`Ids`,
    `Occurrences`, `Repeated`, `IsReport`). Lemmas about those functions
    state what the report means.
- `prize_filter.dfy` (`PrizeFilter`): the filter predicate and its laws.
- `categories.dfy` (`Categories`): `[...new Set(prizes.map(p => p.category))]`.
- `presentation.dfy` (`Presentation`): the year range 1900–2019, and the
  stable sort of the winners by year. The sort is proved to be the only
  stable ordering by year.
- `scenarios.dfy` (`Scenarios`): worked cases.
  - Laureate `x1` credited on the 1905 and 1910 Peace prizes.
  - A laureate listed twice on one prize.
  - A prize with an empty list.
  - An empty document.

Three behaviours of the code that the model keeps:

- **How wins are counted.** The count is the number of laureate entries
  carrying the id, not the number of distinct prizes.
  - `OccurrencesArePositions` states this.
  - `ScenarioSamePrizeTwice` shows a two-time "winner" built from one prize.
  - `OccurrencesCountPrizes` proves the two readings agree when no prize
    lists an id twice.
- **Category order.** The vocabulary is a list in first-seen order.
- **Report order.** The report follows the insertion order of the `Map`.

## Model

| member | source | states |
|---|---|---|
| Prizes.Mentions | src/App.js:77 | the `find` callback's test holds only for a prize whose laureate list is present and non-empty |
| MultiTimeWinners.FindMultiTimeWinners | src/App.js:56-85 | the result is the report of the prizes: one entry per id counted more than once, in the order the counting pass first meets the ids; each entry's count is the number of laureate entries carrying the id, and its winner is the first prize in input order that credits it; every count exceeds one |
| MultiTimeWinners.CountIds | src/App.js:57-72 | after the counting pass an id is a key exactly when some laureate entry carries it as a non-empty id; its count is the number of such entries; the keys are listed in first-insertion order |
| MultiTimeWinners.CountLaureates | src/App.js:61-70 | the inner loop over one laureate list extends the tally by the ids of the laureates whose id is truthy, in list order |
| MultiTimeWinners.CountId | src/App.js:63-68 | one `set` on the map keeps the tally: a known key's count goes up by one and its position stays; a new key gets count 1 and joins the end of the key order |
| MultiTimeWinners.ReportAll | src/App.js:74-82 | walking the keys in map order produces one entry per key counted more than once, in that order, each with its count and first crediting prize |
| MultiTimeWinners.ReportId | src/App.js:76-81 | for one key, an entry is appended exactly when its count exceeds one, and it carries that count and the first prize that credits the id |
| MultiTimeWinners.Find | src/App.js:77 | `find` returns nothing exactly when no prize has a laureate list containing the id; otherwise it returns a prize of the input that credits the id, with no earlier prize crediting it |
| MultiTimeWinners.WinnerExists | src/App.js:76-80 | an id that was counted always has a crediting prize, so the `if (winner)` guard never drops an entry |
| MultiTimeWinners.LaureateIdsIff | src/App.js:61-62 | an id is taken from a laureate list exactly when it is non-empty and some laureate of the list carries it |
| MultiTimeWinners.IdsNonEmpty | src/App.js:62 | the empty id, which is falsy, is never counted |
| MultiTimeWinners.MentionsIffCounted | src/App.js:60-77 | for a non-empty id, the `find` test on a prize holds exactly when the counting pass takes that id from the prize |
| MultiTimeWinners.OccursIffMentioned | src/App.js:59-77 | a non-empty id is counted at least once exactly when some prize credits it |
| MultiTimeWinners.RepeatedIff | src/App.js:75-76 | an id is reported exactly when it is counted more than once; an id counted once is not reported |
| MultiTimeWinners.RepeatedDistinct | src/App.js:57-76 | no id is reported twice, since map keys are unique |
| MultiTimeWinners.RepeatedFirstSeenOrder | src/App.js:57-75 | reported ids come in the order of their first occurrence in the prize-by-prize, laureate-by-laureate scan |
| MultiTimeWinners.ReportEntries | src/App.js:76-79 | every report entry has a count above one, its winner is one of the input prizes, and that prize credits the entry's id |
| MultiTimeWinners.ReportUnique | src/App.js:56-85 | the report is determined by the prizes: two results for the same input are equal |
| MultiTimeWinners.FindSkipsAnonymous | src/App.js:77 | a prize none of whose laureates has an id never changes what `find` returns for a real id |
| MultiTimeWinners.AnonymousPrizeIgnored | src/App.js:59-82 | inserting a prize with no list, an empty list, or only id-less laureates anywhere in the input leaves the report unchanged |
| MultiTimeWinners.IdlessLaureateIgnored | src/App.js:59-82 | adding an id-less laureate anywhere in a prize's list changes no count and no reported id; the prize credits the same real ids as before; and `find` returns the changed prize exactly where it returned the original one, and the same prize everywhere else |
| MultiTimeWinners.FindReplace | src/App.js:77 | replacing a prize by one that credits the same id changes `find`'s answer only when it stopped at that prize: then it returns the replacement |
| MultiTimeWinners.OccurrencesArePositions | src/App.js:59-72 | the count of a non-empty id is the number of (prize, laureate) positions that carry it, so two entries on one prize both count |
| MultiTimeWinners.OccurrencesCountPrizes | src/App.js:59-72 | when no prize lists an id twice, its count is the number of prizes that credit it |
| PrizeFilter.FilterPrizes | src/App.js:89-93 | every kept prize matches the selection (an empty category or no year matches anything); each matching prize is kept as often as it occurs, each other one not at all; the result is a subsequence of the input |
| PrizeFilter.FilterUnset | src/App.js:91-92 | with no category and no year selected, the filter returns its input unchanged and in order |
| PrizeFilter.FilterIdempotent | src/App.js:90-93 | filtering a filtered list by the same selection changes nothing |
| PrizeFilter.FilterSeparates | src/App.js:91-92 | filtering by category and year is filtering by the category and then by the year |
| Categories.UniqueCategories | src/App.js:38 | the vocabulary holds exactly the categories some prize has, each once, in the order of the first prize having each |
| Presentation.YearOptions | src/App.js:121 | 120 years, strictly ascending from 1900 to 2019, containing exactly the years in that range |
| Presentation.CompareByYear | src/App.js:161 | the comparator is negative exactly when the first entry's year is earlier, zero exactly when the years are equal, and positive exactly when the second's is earlier |
| Presentation.SortByYear | src/App.js:160-161 | the sorted winners are in non-decreasing year order, so the comparator never ranks an entry above a later one, are a permutation of the input, and keep the input order among winners of the same year |
| Presentation.SortedByYearUnique | src/App.js:161 | two year-ordered lists with the same entries, in the same order, in every year are equal |
| Presentation.SortByYearIsStableSort | src/App.js:161 | any list ordered by year that keeps each year's entries in input order is `SortByYear` of the input, whatever sorting algorithm produced it |
| Sequences.Filter | src/App.js:90 | the result is no longer than the input, and every kept element passes the test and comes from the input |
| Sequences.FilterIsSubsequence | src/App.js:90 | a filter keeps elements in their original relative order |
| Sequences.Dedup | src/App.js:38 | the result has the same elements as the input and no element twice |
| Sequences.DedupFirstSeenOrder | src/App.js:38 | the result lists the elements in the order of their first occurrence in the input |
| Scenarios.ScenarioReport | src/App.js:56-85 | for Peace 1905 and 1910 crediting `x1` and Physics 1905 crediting `x2`, the report is a single entry with count 2 and the 1905 Peace prize |
| Scenarios.ScenarioFilter | src/App.js:89-93 | selecting Peace with no year keeps exactly the two Peace prizes, in order |
| Scenarios.ScenarioCategories | src/App.js:38 | the vocabulary of that input is Peace, then Physics |
| Scenarios.ScenarioSamePrizeTwice | src/App.js:59-72 | a laureate listed twice on a single prize is reported with count 2 |
| Scenarios.ScenarioNoLaureatesShown | src/App.js:89-93 | a prize with an empty laureate list is still returned by a matching selection |
| Scenarios.ScenarioNoLaureatesIgnored | src/App.js:60-72 | a prize with an empty laureate list does not change the report |
| Scenarios.EmptyDocument | src/App.js:56-93 | an empty document yields an empty report, an empty filter result and no categories |

## Left out

- Loading the document: the HTTP request, `response.text()`, `JSON.parse`, the "Invalid data format" check, the error message and the loading flag (src/App.js:14-54). This is I/O. The model starts from the parsed list of prizes.
- React state (`useState` and the setters) and the whole rendered page (src/App.js:5-12, 94, 97-190). The model returns the values the setters would store.
- The display fallback at src/App.js:138, which shows every prize when the filtered list is empty. It is presentation logic on React state.
- Reading the selectors: `e.target.value` and `parseInt(..., 10)` at src/App.js:105 and 118, and the `value={null}` "All" option at 120. These are DOM behaviour. The model takes the selection as a string and an optional integer year.
- The laureate names and the `JSON.stringify` diagnostics shown for each prize and winner (src/App.js:144-152, 167-181). This is rendering only.
- The console output at src/App.js:21 and 45.
- Presentation.SortByYear: models the order of the result. It does not model that `.sort` rearranges the stored state array in place. Its stability rests on `Array.prototype.sort` being stable, as the ECMAScript 2019 edition requires.
- Prizes.Prize: `year` is an integer. In the published document the year is a string, and a string never equals the number `parseInt` returns. That type mismatch is not modelled.
- Prizes.Laureate: ids are strings. An id of another JSON type, and a truthy `laureates` field that is not an array, are not modelled.
