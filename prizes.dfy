/** The records of the prize document: a prize per year and category, each
    crediting zero or more laureates. Every field the document may omit is
    an `Option`. */
module Prizes {

  datatype Option<T> = None | Some(value: T)

  /** A laureate credited on a prize. The id is the join key across prizes;
      organisations have no surname, and some entries have no id. */
  datatype Laureate = Laureate(id: Option<string>, firstname: Option<string>, surname: Option<string>)

  /** One prize; `laureates` is `None` when the document has no such field. */
  datatype Prize = Prize(year: int, category: string, motivation: Option<string>, laureates: Option<seq<Laureate>>)

  /** The test `if (laureate.id)`: JavaScript truthiness, so a missing id and
      the empty string are both treated as "no id". */
  predicate HasId(l: Laureate)
  {
    l.id.Some? && l.id.value != ""
  }

  /** The test `prize.laureates && prize.laureates.some((l) => l.id === id)`. */
  predicate Mentions(p: Prize, id: string): (b: bool)
    ensures b ==> p.laureates.Some? && |p.laureates.value| > 0
  {
    p.laureates.Some? && exists j :: 0 <= j < |p.laureates.value| && p.laureates.value[j].id == Some(id)
  }
}
