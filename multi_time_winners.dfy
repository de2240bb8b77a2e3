/** Detection of laureates credited on more than one prize
    (`findMultiTimeWinners`). A counting pass maps every laureate id to the
    number of times it occurs; a second pass reports each id counted more
    than once, together with the first prize that credits it. */
module MultiTimeWinners {
  import opened Prizes
  import opened Sequences

  /** One reported laureate: how often its id occurs, and the first prize in
      input order that credits it. */
  datatype WinCount = WinCount(count: int, winner: Prize)

  /** The ids the counting pass takes from `ls`, in order. */
  function LaureateIds(ls: seq<Laureate>): seq<string> {
    if ls == [] then []
    else
      var l := ls[|ls| - 1];
      LaureateIds(ls[..|ls| - 1]) + (if HasId(l) then [l.id.value] else [])
  }

  /** The counting pass takes exactly the real ids of the laureates. */
  lemma {:induction false} LaureateIdsIff(ls: seq<Laureate>, x: string)
    ensures x in LaureateIds(ls) <==> x != "" && exists j :: 0 <= j < |ls| && ls[j].id == Some(x)
  {
    if ls != [] {
      var t := ls[..|ls| - 1];
      LaureateIdsIff(t, x);
      if x in LaureateIds(t) {
        var j :| 0 <= j < |t| && t[j].id == Some(x);
        assert ls[j] == t[j];
      }
      if x != "" && (exists j :: 0 <= j < |ls| && ls[j].id == Some(x)) {
        var j :| 0 <= j < |ls| && ls[j].id == Some(x);
        if j < |t| {
          assert t[j] == ls[j];
        }
      }
    }
  }

  /** The ids the counting pass takes from one prize: none when the prize
      has no list of laureates. */
  function PrizeIds(p: Prize): seq<string> {
    match p.laureates
    case None => []
    case Some(ls) => LaureateIds(ls)
  }

  /** Every id the counting pass takes, prize by prize and laureate by
      laureate. */
  function Ids(prizes: seq<Prize>): seq<string> {
    if prizes == [] then []
    else Ids(prizes[..|prizes| - 1]) + PrizeIds(prizes[|prizes| - 1])
  }

  /** The counting pass never takes an empty id. */
  lemma {:induction false} IdsNonEmpty(prizes: seq<Prize>)
    ensures "" !in Ids(prizes)
  {
    if prizes != [] {
      IdsNonEmpty(prizes[..|prizes| - 1]);
      var p := prizes[|prizes| - 1];
      if p.laureates.Some? {
        LaureateIdsIff(p.laureates.value, "");
      }
    }
  }

  /** How many laureate entries across all prizes carry `id`; two entries of
      one prize both count. */
  function Occurrences(prizes: seq<Prize>, id: string): nat {
    multiset(Ids(prizes))[id]
  }

  /** The test `count > 1` of the reporting pass. */
  function IsRepeatedIn(prizes: seq<Prize>): string -> bool {
    id => Occurrences(prizes, id) > 1
  }

  /** The ids of `ids` that occur more than once in `prizes`. */
  function RepeatedAmong(prizes: seq<Prize>, ids: seq<string>): seq<string> {
    Filter(IsRepeatedIn(prizes), ids)
  }

  /** The ids that occur more than once, in the order in which the counting
      pass first meets them (the key order of the JavaScript `Map`). */
  function Repeated(prizes: seq<Prize>): seq<string> {
    RepeatedAmong(prizes, Dedup(Ids(prizes)))
  }

  /** `prizes.find(...)`: the first prize that credits `id`. */
  function Find(prizes: seq<Prize>, id: string): (r: Option<Prize>)
    ensures r.None? <==> forall k :: 0 <= k < |prizes| ==> !Mentions(prizes[k], id)
    ensures r.Some? ==> exists k :: 0 <= k < |prizes| && prizes[k] == r.value && Mentions(r.value, id)
                                    && forall q :: 0 <= q < k ==> !Mentions(prizes[q], id)
  {
    if prizes == [] then None
    else if Mentions(prizes[0], id) then Some(prizes[0])
    else
      var r := Find(prizes[1..], id);
      assert forall k :: 0 < k < |prizes| ==> prizes[k] == prizes[1..][k - 1];
      r
  }

  /** `w` is the entry reported for `id`. */
  predicate IsWinCountFor(prizes: seq<Prize>, id: string, w: WinCount) {
    w.count == Occurrences(prizes, id) && Find(prizes, id) == Some(w.winner)
  }

  /** `r` holds the entries reported for the ids `ids`: one for each of them
      that occurs more than once, in the order of `ids`. */
  ghost predicate ReportsFor(prizes: seq<Prize>, ids: seq<string>, r: seq<WinCount>) {
    && |r| == |RepeatedAmong(prizes, ids)|
    && forall m :: 0 <= m < |r| ==> IsWinCountFor(prizes, RepeatedAmong(prizes, ids)[m], r[m])
  }

  /** `r` reports, in first-seen order, one entry for each id that occurs
      more than once: the entries for all the ids the counting pass meets. */
  ghost predicate IsReport(prizes: seq<Prize>, r: seq<WinCount>) {
    ReportsFor(prizes, Dedup(Ids(prizes)), r)
  }

  /** The map `laureatesMap` after the counting pass has taken the ids
      `seen`: its keys, their counts and their insertion order. */
  ghost predicate Tally(counts: map<string, int>, order: seq<string>, seen: seq<string>) {
    && (forall id :: id in counts <==> id in seen)
    && (forall id :: id in counts ==> counts[id] == multiset(seen)[id])
    && order == Dedup(seen)
  }

  lemma IdsPrefix(prizes: seq<Prize>, i: nat)
    requires i < |prizes|
    ensures Ids(prizes[..i + 1]) == Ids(prizes[..i]) + PrizeIds(prizes[i])
  {
    assert prizes[..i + 1][..i] == prizes[..i];
  }

  lemma LaureateIdsPrefix(ls: seq<Laureate>, j: nat)
    requires j < |ls|
    ensures LaureateIds(ls[..j + 1]) == LaureateIds(ls[..j]) + (if HasId(ls[j]) then [ls[j].id.value] else [])
  {
    assert ls[..j + 1][..j] == ls[..j];
  }

  /** Taking one more id keeps the tally: an existing key is incremented in
      place, a new key is set to one and goes to the end of the key order. */
  lemma TallyAdd(counts: map<string, int>, order: seq<string>, seen: seq<string>, id: string)
    requires Tally(counts, order, seen)
    ensures id in counts ==> Tally(counts[id := counts[id] + 1], order, seen + [id])
    ensures id !in counts ==> Tally(counts[id := 1], order + [id], seen + [id])
  {
    assert (seen + [id])[..|seen + [id]| - 1] == seen;
  }

  /** `laureatesMap.set(id, count + 1)` on a key the map has, and
      `laureatesMap.set(id, 1)` on a new key, which goes to the end of the
      key order. */
  method CountId(counts0: map<string, int>, order0: seq<string>, id: string, ghost seen: seq<string>)
    returns (counts: map<string, int>, order: seq<string>)
    requires Tally(counts0, order0, seen)
    ensures Tally(counts, order, seen + [id])
  {
    TallyAdd(counts0, order0, seen, id);
    if id in counts0 {
      counts, order := counts0[id := counts0[id] + 1], order0;
    } else {
      counts, order := counts0[id := 1], order0 + [id];
    }
  }

  /** The inner `forEach` of the counting pass: the laureates of one prize,
      skipping those without an id. */
  method CountLaureates(counts0: map<string, int>, order0: seq<string>, ls: seq<Laureate>, ghost seen: seq<string>)
    returns (counts: map<string, int>, order: seq<string>)
    requires Tally(counts0, order0, seen)
    ensures Tally(counts, order, seen + LaureateIds(ls))
  {
    counts, order := counts0, order0;
    assert ls[..0] == [];
    assert seen + LaureateIds(ls[..0]) == seen;
    for j := 0 to |ls|
      invariant Tally(counts, order, seen + LaureateIds(ls[..j]))
    {
      ghost var here, next := seen + LaureateIds(ls[..j]), seen + LaureateIds(ls[..j + 1]);
      LaureateIdsPrefix(ls, j);
      var l := ls[j];
      if HasId(l) {
        var id := l.id.value;
        assert next == here + [id];
        counts, order := CountId(counts, order, id, here);
        assert Tally(counts, order, next);
      } else {
        assert next == here;
        assert Tally(counts, order, next);
      }
    }
    assert ls[..|ls|] == ls;
  }

  /** The counting pass of `findMultiTimeWinners` (its first loop): every
      prize that has a list of laureates adds its laureates' ids. `counts`
      and `order` together are the JavaScript `Map`: its entries and the
      order in which its keys were inserted. */
  method CountIds(prizes: seq<Prize>) returns (counts: map<string, int>, order: seq<string>)
    ensures forall id :: id in counts <==> Occurrences(prizes, id) > 0
    ensures forall id :: id in counts ==> counts[id] == Occurrences(prizes, id)
    ensures order == Dedup(Ids(prizes))
  {
    counts, order := map[], [];
    for i := 0 to |prizes|
      invariant Tally(counts, order, Ids(prizes[..i]))
    {
      IdsPrefix(prizes, i);
      if prizes[i].laureates.Some? {
        ghost var seen := Ids(prizes[..i]);
        var ls := prizes[i].laureates.value;
        assert Ids(prizes[..i + 1]) == seen + LaureateIds(ls);
        counts, order := CountLaureates(counts, order, ls, seen);
        assert Tally(counts, order, Ids(prizes[..i + 1]));
      } else {
        assert Ids(prizes[..i + 1]) == Ids(prizes[..i]);
        assert Tally(counts, order, Ids(prizes[..i + 1]));
      }
    }
    assert prizes[..|prizes|] == prizes;
  }

  lemma RepeatedAmongPrefix(prizes: seq<Prize>, ids: seq<string>, k: nat)
    requires k < |ids|
    ensures RepeatedAmong(prizes, ids[..k + 1]) ==
      RepeatedAmong(prizes, ids[..k]) + (if Occurrences(prizes, ids[k]) > 1 then [ids[k]] else [])
  {
    assert ids[..k + 1][..k] == ids[..k];
  }

  /** One step of the reporting pass: an id counted more than once adds its
      entry, any other id adds nothing. */
  lemma ReportsForStep(prizes: seq<Prize>, ids: seq<string>, r: seq<WinCount>, id: string, r': seq<WinCount>)
    requires ReportsFor(prizes, ids, r)
    requires Occurrences(prizes, id) > 1 ==> exists w :: r' == r + [w] && IsWinCountFor(prizes, id, w)
    requires Occurrences(prizes, id) <= 1 ==> r' == r
    ensures ReportsFor(prizes, ids + [id], r')
  {
    assert (ids + [id])[..|ids|] == ids;
    RepeatedAmongPrefix(prizes, ids + [id], |ids|);
    if Occurrences(prizes, id) > 1 {
      var w :| r' == r + [w] && IsWinCountFor(prizes, id, w);
      assert RepeatedAmong(prizes, ids + [id]) == RepeatedAmong(prizes, ids) + [id];
      forall m | 0 <= m < |r'|
        ensures IsWinCountFor(prizes, RepeatedAmong(prizes, ids + [id])[m], r'[m])
      {
        if m < |r| {
          assert r'[m] == r[m];
        }
      }
    } else {
      assert RepeatedAmong(prizes, ids + [id]) == RepeatedAmong(prizes, ids);
    }
  }

  /** The body of `laureatesMap.forEach`: the entry for `id`, counted
      `count` times, is appended to `r` when the count exceeds one. */
  method ReportId(prizes: seq<Prize>, count: int, id: string, ghost ids: seq<string>, r: seq<WinCount>)
    returns (r': seq<WinCount>)
    requires count == Occurrences(prizes, id) && count > 0
    requires ReportsFor(prizes, ids, r)
    requires forall m :: 0 <= m < |r| ==> r[m].count > 1
    ensures ReportsFor(prizes, ids + [id], r')
    ensures forall m :: 0 <= m < |r'| ==> r'[m].count > 1
  {
    r' := r;
    if count > 1 {
      WinnerExists(prizes, id);
      var winner := Find(prizes, id);
      if winner.Some? {
        r' := r + [WinCount(count, winner.value)];
        assert IsWinCountFor(prizes, id, r'[|r'| - 1]);
      }
    }
    ReportsForStep(prizes, ids, r, id, r');
  }

  /** `laureatesMap.forEach(...)`: visits the ids of `order` with their
      counts and reports each one counted more than once. */
  method ReportAll(prizes: seq<Prize>, counts: map<string, int>, order: seq<string>) returns (r: seq<WinCount>)
    requires forall k :: 0 <= k < |order| ==> order[k] in counts && counts[order[k]] == Occurrences(prizes, order[k]) > 0
    ensures ReportsFor(prizes, order, r)
    ensures forall m :: 0 <= m < |r| ==> r[m].count > 1
  {
    r := [];
    assert order[..0] == [];
    for k := 0 to |order|
      invariant ReportsFor(prizes, order[..k], r)
      invariant forall m :: 0 <= m < |r| ==> r[m].count > 1
    {
      var id := order[k];
      assert order[..k + 1] == order[..k] + [id];
      r := ReportId(prizes, counts[id], id, order[..k], r);
    }
    assert order[..|order|] == order;
  }

  /** `findMultiTimeWinners`: the counting pass, then, in the key order of
      the map, one entry for every id counted more than once, paired with
      the first prize that credits it. */
  method FindMultiTimeWinners(prizes: seq<Prize>) returns (r: seq<WinCount>)
    ensures IsReport(prizes, r)
    ensures forall k :: 0 <= k < |r| ==> r[k].count > 1
  {
    var counts, order := CountIds(prizes);
    forall k | 0 <= k < |order|
      ensures order[k] in counts && counts[order[k]] == Occurrences(prizes, order[k]) > 0
    {
      assert order[k] in Ids(prizes);
    }
    r := ReportAll(prizes, counts, order);
  }

  // ---- Properties of the specification ----

  /** The ids of a concatenation are the ids of its parts. */
  lemma IdsSnoc(t: seq<Prize>, p: Prize)
    ensures Ids(t + [p]) == Ids(t) + PrizeIds(p)
  {
    assert (t + [p])[..|t|] == t;
  }

  lemma {:induction false} IdsAppend(a: seq<Prize>, b: seq<Prize>)
    ensures Ids(a + b) == Ids(a) + Ids(b)
  {
    if b == [] {
      assert a + b == a;
    } else {
      var c, x := b[..|b| - 1], b[|b| - 1];
      assert b == c + [x] && a + b == (a + c) + [x];
      IdsAppend(a, c);
      IdsSnoc(a + c, x);
      IdsSnoc(c, x);
    }
  }

  /** For a real id, `Mentions` is exactly "the counting pass takes `id` from
      this prize". */
  lemma MentionsIffCounted(p: Prize, id: string)
    requires id != ""
    ensures Mentions(p, id) <==> id in PrizeIds(p)
  {
    if p.laureates.Some? {
      LaureateIdsIff(p.laureates.value, id);
    }
  }

  /** Some prize of `t + [p]` credits `id` when some prize of `t` or `p`
      itself does. */
  lemma MentionedSnoc(t: seq<Prize>, p: Prize, id: string)
    ensures (exists k :: 0 <= k < |t + [p]| && Mentions((t + [p])[k], id))
        <==> (exists k :: 0 <= k < |t| && Mentions(t[k], id)) || Mentions(p, id)
  {
    var prizes := t + [p];
    if exists k :: 0 <= k < |prizes| && Mentions(prizes[k], id) {
      var k :| 0 <= k < |prizes| && Mentions(prizes[k], id);
      if k < |t| {
        assert t[k] == prizes[k];
      }
    }
    if exists k :: 0 <= k < |t| && Mentions(t[k], id) {
      var k :| 0 <= k < |t| && Mentions(t[k], id);
      assert prizes[k] == t[k];
    }
    assert prizes[|t|] == p;
  }

  /** An id is counted at least once exactly when some prize credits it. */
  lemma {:induction false} OccursIffMentioned(prizes: seq<Prize>, id: string)
    requires id != ""
    ensures Occurrences(prizes, id) > 0 <==> exists k :: 0 <= k < |prizes| && Mentions(prizes[k], id)
  {
    if prizes != [] {
      var t, p := prizes[..|prizes| - 1], prizes[|prizes| - 1];
      assert prizes == t + [p];
      OccursIffMentioned(t, id);
      MentionsIffCounted(p, id);
      MentionedSnoc(t, p, id);
      assert Occurrences(prizes, id) == Occurrences(t, id) + multiset(PrizeIds(p))[id];
    }
  }

  /** The guard `if (winner)` always holds: an id the counting pass has seen
      is credited by some prize, so `find` succeeds. */
  lemma WinnerExists(prizes: seq<Prize>, id: string)
    requires Occurrences(prizes, id) > 0
    ensures Find(prizes, id).Some?
  {
    IdsNonEmpty(prizes);
    assert id in Ids(prizes);
    OccursIffMentioned(prizes, id);
  }

  /** An id is reported exactly when it occurs more than once. */
  lemma RepeatedIff(prizes: seq<Prize>, id: string)
    ensures id in Repeated(prizes) <==> Occurrences(prizes, id) > 1
  {
    var d := Dedup(Ids(prizes));
    FilterMultiplicity(IsRepeatedIn(prizes), d, id);
    assert id in d <==> id in Ids(prizes);
  }

  /** No id is reported twice. */
  lemma RepeatedDistinct(prizes: seq<Prize>)
    ensures Distinct(Repeated(prizes))
  {
    FilterDistinct(IsRepeatedIn(prizes), Dedup(Ids(prizes)));
  }

  /** Reported ids come in the order in which the counting pass first meets
      them. */
  lemma RepeatedFirstSeenOrder(prizes: seq<Prize>)
    ensures FirstSeenOrdered(Repeated(prizes), Ids(prizes))
  {
    FilterDedupFirstSeenOrder(IsRepeatedIn(prizes), Ids(prizes));
  }

  /** Every reported count exceeds one, and the winner credits the id. */
  lemma ReportEntries(prizes: seq<Prize>, r: seq<WinCount>, k: nat)
    requires IsReport(prizes, r) && k < |r|
    ensures r[k].count > 1 && Mentions(r[k].winner, Repeated(prizes)[k])
    ensures r[k].winner in prizes
  {
    RepeatedIff(prizes, Repeated(prizes)[k]);
  }

  /** The report is determined by its input: two runs on the same prizes
      give equal results. */
  lemma ReportUnique(prizes: seq<Prize>, r1: seq<WinCount>, r2: seq<WinCount>)
    requires IsReport(prizes, r1) && IsReport(prizes, r2)
    ensures r1 == r2
  {
    forall k | 0 <= k < |r1|
      ensures r1[k] == r2[k]
    {
      var id := Repeated(prizes)[k];
      assert IsWinCountFor(prizes, id, r1[k]) && IsWinCountFor(prizes, id, r2[k]);
    }
  }

  /** A prize none of whose laureates has an id. */
  predicate Anonymous(p: Prize) {
    match p.laureates
    case None => true
    case Some(ls) => forall j :: 0 <= j < |ls| ==> !HasId(ls[j])
  }

  /** One step of `find`: the first prize is returned when it credits
      `id`, and the search goes on with the rest otherwise. */
  lemma FindCons(x: Prize, t: seq<Prize>, id: string)
    ensures Find([x] + t, id) == if Mentions(x, id) then Some(x) else Find(t, id)
  {
    assert ([x] + t)[0] == x && ([x] + t)[1..] == t;
  }

  /** `find` skips a prize that credits no id. */
  lemma {:induction false} FindSkipsAnonymous(a: seq<Prize>, p: Prize, b: seq<Prize>, id: string)
    requires Anonymous(p) && id != ""
    ensures Find(a + [p] + b, id) == Find(a + b, id)
  {
    if a == [] {
      assert a + [p] + b == [p] + b && a + b == b;
      assert !Mentions(p, id);
      FindCons(p, b, id);
    } else {
      var x, t := a[0], a[1..];
      assert a + [p] + b == [x] + (t + [p] + b) && a + b == [x] + (t + b);
      FindSkipsAnonymous(t, p, b, id);
      FindCons(x, t + [p] + b, id);
      FindCons(x, t + b, id);
    }
  }

  /** An anonymous prize gives the counting pass no id. */
  lemma AnonymousHasNoIds(p: Prize)
    requires Anonymous(p)
    ensures PrizeIds(p) == []
  {
    if p.laureates.Some? && PrizeIds(p) != [] {
      LaureateIdsIff(p.laureates.value, PrizeIds(p)[0]);
    }
  }

  /** The ids of `a + [p] + b` are those of `a`, then of `p`, then of `b`. */
  lemma IdsSplit(a: seq<Prize>, p: Prize, b: seq<Prize>)
    ensures Ids(a + [p] + b) == Ids(a) + PrizeIds(p) + Ids(b)
  {
    IdsAppend(a + [p], b);
    IdsAppend(a, [p]);
    assert [p][..0] == [];
    assert Ids([p]) == PrizeIds(p);
  }

  /** Inserting a prize that gives no id leaves the ids of the counting pass
      as they are. */
  lemma IdsInsertSilent(a: seq<Prize>, p: Prize, b: seq<Prize>)
    requires PrizeIds(p) == []
    ensures Ids(a + [p] + b) == Ids(a + b)
  {
    IdsSplit(a, p, b);
    IdsAppend(a, b);
  }

  /** Prizes without laureates, and prizes whose laureates have no id, never
      change the report: inserting one anywhere leaves the output as it is. */
  lemma AnonymousPrizeIgnored(a: seq<Prize>, p: Prize, b: seq<Prize>, r: seq<WinCount>)
    requires Anonymous(p)
    ensures IsReport(a + [p] + b, r) <==> IsReport(a + b, r)
  {
    var q, prizes := a + [p] + b, a + b;
    AnonymousHasNoIds(p);
    IdsInsertSilent(a, p, b);
    assert forall x :: Occurrences(q, x) == Occurrences(prizes, x);
    FilterCongruent(IsRepeatedIn(q), IsRepeatedIn(prizes), Dedup(Ids(prizes)));
    var rep := Repeated(prizes);
    assert Repeated(q) == rep;
    IdsNonEmpty(prizes);
    forall k | 0 <= k < |rep|
      ensures Find(q, rep[k]) == Find(prizes, rep[k])
    {
      assert rep[k] in Dedup(Ids(prizes));
      FindSkipsAnonymous(a, p, b, rep[k]);
    }
    assert IsReport(q, r) == IsReport(prizes, r);
  }

  /** The ids of a concatenation of laureate lists are the ids of its parts. */
  lemma {:induction false} LaureateIdsAppend(a: seq<Laureate>, b: seq<Laureate>)
    ensures LaureateIds(a + b) == LaureateIds(a) + LaureateIds(b)
  {
    if b == [] {
      assert a + b == a;
    } else {
      var c, l := b[..|b| - 1], b[|b| - 1];
      LaureateIdsAppend(a, c);
      assert (a + b)[..|a + b| - 1] == a + c;
      assert (a + b)[|a + b| - 1] == l;
    }
  }

  /** Replacing a prize by one that credits the same ids changes what
      `find` returns only where it returned that very prize. */
  lemma {:induction false} FindReplace(a: seq<Prize>, p: Prize, p': Prize, b: seq<Prize>, id: string)
    requires Mentions(p', id) == Mentions(p, id)
    ensures Find(a + [p'] + b, id) == if Find(a, id).None? && Mentions(p, id) then Some(p') else Find(a + [p] + b, id)
  {
    if a == [] {
      assert a + [p'] + b == [p'] + b && a + [p] + b == [p] + b;
      FindCons(p', b, id);
      FindCons(p, b, id);
    } else {
      var x, t := a[0], a[1..];
      assert a + [p'] + b == [x] + (t + [p'] + b) && a + [p] + b == [x] + (t + [p] + b) && a == [x] + t;
      FindReplace(t, p, p', b, id);
      FindCons(x, t + [p'] + b, id);
      FindCons(x, t + [p] + b, id);
      FindCons(x, t, id);
    }
  }

  /** A laureate without an id never affects the report: adding one to any
      prize's list changes no count and no reported id, the prize credits
      the same ids as before, and so `find` stops at the same position. */
  lemma IdlessLaureateIgnored(a: seq<Prize>, p: Prize, b: seq<Prize>, la: seq<Laureate>, l: Laureate, lb: seq<Laureate>)
    requires p.laureates == Some(la + lb) && !HasId(l)
    ensures var p' := p.(laureates := Some(la + [l] + lb));
      && (forall id :: Occurrences(a + [p'] + b, id) == Occurrences(a + [p] + b, id))
      && Repeated(a + [p'] + b) == Repeated(a + [p] + b)
      && (forall id :: id != "" ==> Mentions(p', id) == Mentions(p, id))
      && (forall id :: id != "" ==>
            Find(a + [p'] + b, id) == if Find(a, id).None? && Mentions(p, id) then Some(p') else Find(a + [p] + b, id))
  {
    var p' := p.(laureates := Some(la + [l] + lb));
    LaureateIdsAppend(la + [l], lb);
    LaureateIdsAppend(la, [l]);
    LaureateIdsAppend(la, lb);
    assert [l][..0] == [];
    assert LaureateIds([l]) == [];
    assert PrizeIds(p') == PrizeIds(p);
    IdsSplit(a, p', b);
    IdsSplit(a, p, b);
    var q, prizes := a + [p'] + b, a + [p] + b;
    assert Ids(q) == Ids(prizes);
    FilterCongruent(IsRepeatedIn(q), IsRepeatedIn(prizes), Dedup(Ids(prizes)));
    forall id | id != ""
      ensures Mentions(p', id) == Mentions(p, id)
      ensures Find(q, id) == if Find(a, id).None? && Mentions(p, id) then Some(p') else Find(prizes, id)
    {
      MentionsIffCounted(p', id);
      MentionsIffCounted(p, id);
      FindReplace(a, p, p', b, id);
    }
  }

  /** The positions `(k, j)` of prize `k`'s laureate `j` for the laureates of
      `ls` that carry `id`, when `ls` is the list of prize `k`. */
  ghost function Row(k: int, ls: seq<Laureate>, id: string): set<(int, int)> {
    set j | 0 <= j < |ls| && ls[j].id == Some(id) :: (k, j)
  }

  /** Every position `(k, j)` such that laureate `j` of prize `k` carries
      `id`: an independent statement of what the counting pass counts. */
  ghost function Positions(prizes: seq<Prize>, id: string): set<(int, int)> {
    set k, j | 0 <= k < |prizes| && prizes[k].laureates.Some? && 0 <= j < |prizes[k].laureates.value|
                 && prizes[k].laureates.value[j].id == Some(id) :: (k, j)
  }

  /** Appending a laureate adds its position to the row when it carries
      `id`, and nothing otherwise. */
  lemma RowSnoc(k: int, t: seq<Laureate>, l: Laureate, id: string)
    ensures Row(k, t + [l], id) == Row(k, t, id) + (if l.id == Some(id) then {(k, |t|)} else {})
    ensures (k, |t|) !in Row(k, t, id)
  {
    var ls := t + [l];
    var extra: set<(int, int)> := if l.id == Some(id) then {(k, |t|)} else {};
    forall x | x in Row(k, ls, id)
      ensures x in Row(k, t, id) + extra
    {
      var j :| 0 <= j < |ls| && ls[j].id == Some(id) && x == (k, j);
      if j < |t| {
        assert t[j] == ls[j];
      }
    }
    forall x | x in Row(k, t, id)
      ensures x in Row(k, ls, id)
    {
      var j :| 0 <= j < |t| && t[j].id == Some(id) && x == (k, j);
      assert ls[j] == t[j];
    }
  }

  lemma {:induction false} RowCount(k: int, ls: seq<Laureate>, id: string)
    requires id != ""
    ensures |Row(k, ls, id)| == multiset(LaureateIds(ls))[id]
  {
    if ls == [] {
      assert Row(k, ls, id) == {};
    } else {
      var t, l := ls[..|ls| - 1], ls[|ls| - 1];
      assert ls == t + [l];
      RowCount(k, t, id);
      RowSnoc(k, t, l, id);
      assert multiset(LaureateIds(ls))[id] == multiset(LaureateIds(t))[id] + (if l.id == Some(id) then 1 else 0);
    }
  }

  /** The positions in the row of one more prize. */
  ghost function LastRow(n: int, p: Prize, id: string): set<(int, int)> {
    match p.laureates
    case None => {}
    case Some(ls) => Row(n, ls, id)
  }

  /** Appending a prize adds the positions of its row, all new. */
  lemma PositionsSnoc(t: seq<Prize>, p: Prize, id: string)
    ensures Positions(t + [p], id) == Positions(t, id) + LastRow(|t|, p, id)
    ensures Positions(t, id) * LastRow(|t|, p, id) == {}
  {
    var prizes, n := t + [p], |t|;
    var extra := LastRow(n, p, id);
    forall x | x in Positions(prizes, id)
      ensures x in Positions(t, id) + extra
    {
      var k, j :| 0 <= k < |prizes| && prizes[k].laureates.Some? && 0 <= j < |prizes[k].laureates.value|
                    && prizes[k].laureates.value[j].id == Some(id) && x == (k, j);
      if k < n {
        assert t[k] == prizes[k];
      }
    }
    forall x | x in Positions(t, id)
      ensures x in Positions(prizes, id) && x.0 < n
    {
      var k, j :| 0 <= k < |t| && t[k].laureates.Some? && 0 <= j < |t[k].laureates.value|
                    && t[k].laureates.value[j].id == Some(id) && x == (k, j);
      assert prizes[k] == t[k];
    }
    forall x | x in extra
      ensures x in Positions(prizes, id) && x.0 == n
    {
      var ls := p.laureates.value;
      var j :| 0 <= j < |ls| && ls[j].id == Some(id) && x == (n, j);
      assert prizes[n] == p;
    }
  }

  /** The count of an id is the number of (prize, laureate) positions that
      carry it. */
  lemma {:induction false} OccurrencesArePositions(prizes: seq<Prize>, id: string)
    requires id != ""
    ensures Occurrences(prizes, id) == |Positions(prizes, id)|
  {
    if prizes == [] {
      assert Positions(prizes, id) == {};
    } else {
      var t, p := prizes[..|prizes| - 1], prizes[|prizes| - 1];
      assert prizes == t + [p];
      OccurrencesArePositions(t, id);
      PositionsSnoc(t, p, id);
      match p.laureates {
        case None =>
        case Some(ls) => RowCount(|t|, ls, id);
      }
      assert Occurrences(prizes, id) == Occurrences(t, id) + multiset(PrizeIds(p))[id];
    }
  }

  /** Prize `p` lists `id` on at most one of its laureates. */
  ghost predicate CreditedAtMostOnce(p: Prize, id: string) {
    p.laureates.Some? ==>
      forall i, j :: 0 <= i < j < |p.laureates.value| ==>
        p.laureates.value[i].id != Some(id) || p.laureates.value[j].id != Some(id)
  }

  /** The indices of the prizes that credit `id`. */
  ghost function Crediting(prizes: seq<Prize>, id: string): set<int> {
    set k | 0 <= k < |prizes| && Mentions(prizes[k], id)
  }

  /** A row holds one position when `id` is listed exactly once. */
  lemma RowAtMostOnce(k: int, p: Prize, id: string)
    requires p.laureates.Some? && CreditedAtMostOnce(p, id)
    ensures |Row(k, p.laureates.value, id)| == if Mentions(p, id) then 1 else 0
  {
    var ls := p.laureates.value;
    if Mentions(p, id) {
      var j :| 0 <= j < |ls| && ls[j].id == Some(id);
      forall x | x in Row(k, ls, id)
        ensures x == (k, j)
      {
        var i :| 0 <= i < |ls| && ls[i].id == Some(id) && x == (k, i);
        assert !(i < j) && !(j < i);
      }
      assert (k, j) in Row(k, ls, id);
      assert Row(k, ls, id) == {(k, j)};
    } else {
      assert Row(k, ls, id) == {};
    }
  }

  /** Appending a prize adds its index when it credits `id`. */
  lemma CreditingSnoc(t: seq<Prize>, p: Prize, id: string)
    ensures Crediting(t + [p], id) == Crediting(t, id) + (if Mentions(p, id) then {|t|} else {})
    ensures |t| !in Crediting(t, id)
  {
    var prizes := t + [p];
    forall k | 0 <= k < |t|
      ensures prizes[k] == t[k]
    {
    }
    assert prizes[|t|] == p;
  }

  /** When no prize lists an id twice, its count is the number of prizes
      that credit it. */
  lemma {:induction false} OccurrencesCountPrizes(prizes: seq<Prize>, id: string)
    requires id != ""
    requires forall k :: 0 <= k < |prizes| ==> CreditedAtMostOnce(prizes[k], id)
    ensures Occurrences(prizes, id) == |Crediting(prizes, id)|
  {
    if prizes == [] {
      assert Crediting(prizes, id) == {};
    } else {
      var t, p := prizes[..|prizes| - 1], prizes[|prizes| - 1];
      assert prizes == t + [p];
      assert forall k :: 0 <= k < |t| ==> t[k] == prizes[k];
      OccurrencesCountPrizes(t, id);
      CreditingSnoc(t, p, id);
      match p.laureates {
        case None =>
        case Some(ls) =>
          RowCount(|t|, ls, id);
          RowAtMostOnce(|t|, p, id);
      }
      assert Occurrences(prizes, id) == Occurrences(t, id) + multiset(PrizeIds(p))[id];
    }
  }
}
