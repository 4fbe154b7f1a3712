/// One round of the tally: the totals of the active games, the game that
/// round eliminates, the shares of the total, the majority test, and the
/// podium of the final round.
module Rounds {
  import opened Ballots
  import opened TieBreak

  /// A place on the podium: 1 for the winner.
  datatype Placing = Placing(position: nat, game: Game, score: real)

  /// What a round records. The active games are listed in the order the
  /// tally enumerates them.
  datatype Round =
    | Elimination(number: nat, totals: map<Game, real>, percentages: map<Game, real>, eliminated: Game, active: seq<Game>)
    | Final(number: nat, totals: map<Game, real>, podium: seq<Placing>, active: seq<Game>)

  /// The lowest total among `gs`.
  function MinTotal(gs: seq<Game>, totals: map<Game, real>): (m: real)
    requires |gs| > 0 && forall g :: g in gs ==> g in totals
    ensures forall g :: g in gs ==> m <= totals[g]
    ensures exists g :: g in gs && totals[g] == m
  {
    if |gs| == 1 then totals[gs[0]]
    else
      var m := MinTotal(gs[..|gs| - 1], totals);
      assert forall g :: g in gs[..|gs| - 1] ==> g in gs;
      if totals[gs[|gs| - 1]] < m then totals[gs[|gs| - 1]] else m
  }

  /// The games of `gs` whose total is `m`, in the order of `gs`.
  function WithTotal(gs: seq<Game>, totals: map<Game, real>, m: real): (w: seq<Game>)
    requires forall g :: g in gs ==> g in totals
    ensures forall g :: g in w <==> g in gs && totals[g] == m
    ensures |w| <= |gs|
  {
    if gs == [] then []
    else
      var last := gs[|gs| - 1];
      WithTotal(gs[..|gs| - 1], totals, m) + (if totals[last] == m then [last] else [])
  }

  /// What decides the elimination: the only game on the lowest total, or the
  /// tie-break among all the games on it.
  function EliminationChoice(gs: seq<Game>, totals: map<Game, real>, ballots: seq<Ballot>, active: set<Game>): (ch: TieChoice)
    requires |gs| > 0 && forall g :: g in gs ==> g in totals
    ensures ch.Drawn? ==> |ch.among| > 0
  {
    var lowest := WithTotal(gs, totals, MinTotal(gs, totals));
    if |lowest| > 1 then BreakTieChoice(lowest, ballots, active) else Decided(lowest[0])
  }

  /// Each game's share of the round total, in percent.
  function Percentages(totals: map<Game, real>, total: real): (pct: map<Game, real>)
    requires total != 0.0
    ensures pct.Keys == totals.Keys
  {
    map g | g in totals :: totals[g] / total * 100.0
  }

  lemma EnumeratedNonEmpty(games: seq<Game>, active: set<Game>)
    requires active != {} && active <= set g | g in games
    ensures |Members(games, active)| > 0
  {
    var g :| g in active;
    assert g in Members(games, active);
  }

  /// A round that eliminates a game, over the pools as they stand.
  function EliminationRound(number: nat, games: seq<Game>, active: set<Game>, pools: seq<Points>, ballots: seq<Ballot>, pick: seq<Game> -> nat): (r: Round)
    requires active != {} && active <= set g | g in games
    requires SumOver(Members(games, active), TotalsOf(pools, active)) != 0.0
    ensures r.Elimination?
  {
    var order := Members(games, active);
    var totals := TotalsOf(pools, active);
    EnumeratedNonEmpty(games, active);
    Elimination(number, totals, Percentages(totals, SumOver(order, totals)),
      Resolve(EliminationChoice(order, totals, ballots, active), pick), order)
  }

  /// Inserts `x` into a list ranked by score, highest first, ahead of every
  /// entry with the same score.
  function InsertByScore(x: (Game, real), ranked: seq<(Game, real)>): (r: seq<(Game, real)>)
    ensures multiset(r) == multiset(ranked) + multiset{x}
  {
    if ranked == [] || x.1 >= ranked[0].1 then [x] + ranked
    else
      assert ranked == [ranked[0]] + ranked[1..];
      [ranked[0]] + InsertByScore(x, ranked[1..])
  }

  /// The entries by score, highest first; entries with equal scores keep
  /// their order, as a stable sort keeps them.
  function RankedByScore(items: seq<(Game, real)>): (r: seq<(Game, real)>)
    ensures multiset(r) == multiset(items)
  {
    if items == [] then []
    else
      assert items == [items[0]] + items[1..];
      InsertByScore(items[0], RankedByScore(items[1..]))
  }

  predicate HighestFirst(r: seq<(Game, real)>)
  {
    forall i, j :: 0 <= i < j < |r| ==> r[i].1 >= r[j].1
  }

  lemma {:induction false} InsertByScoreSorted(x: (Game, real), ranked: seq<(Game, real)>)
    requires HighestFirst(ranked)
    ensures HighestFirst(InsertByScore(x, ranked))
    ensures |InsertByScore(x, ranked)| > 0
    ensures InsertByScore(x, ranked)[0] == x || (ranked != [] && InsertByScore(x, ranked)[0] == ranked[0])
  {
    if ranked != [] && x.1 < ranked[0].1 {
      InsertByScoreSorted(x, ranked[1..]);
    }
  }

  /// The ranking is ordered by score, highest first.
  lemma {:induction false} RankedByScoreSorted(items: seq<(Game, real)>)
    ensures HighestFirst(RankedByScore(items))
  {
    if items != [] {
      RankedByScoreSorted(items[1..]);
      InsertByScoreSorted(items[0], RankedByScore(items[1..]));
    }
  }

  /// The entries of `r` that score `s`, in order.
  function ScoringExactly(r: seq<(Game, real)>, s: real): seq<(Game, real)>
  {
    if r == [] then [] else (if r[0].1 == s then [r[0]] else []) + ScoringExactly(r[1..], s)
  }

  lemma {:induction false} InsertByScoreStable(x: (Game, real), ranked: seq<(Game, real)>, s: real)
    ensures ScoringExactly(InsertByScore(x, ranked), s) ==
      (if x.1 == s then [x] else []) + ScoringExactly(ranked, s)
  {
    if ranked == [] || x.1 >= ranked[0].1 {
      assert ([x] + ranked)[1..] == ranked;
    } else {
      var rest := InsertByScore(x, ranked[1..]);
      InsertByScoreStable(x, ranked[1..], s);
      assert ([ranked[0]] + rest)[1..] == rest;
      assert ScoringExactly(ranked, s) == (if ranked[0].1 == s then [ranked[0]] else []) + ScoringExactly(ranked[1..], s);
      if x.1 == s {
        assert ranked[0].1 != s;
      }
    }
  }

  /// The ranking is stable: the entries on any one score come in the order
  /// they had before.
  lemma {:induction false} RankedByScoreStable(items: seq<(Game, real)>, s: real)
    ensures ScoringExactly(RankedByScore(items), s) == ScoringExactly(items, s)
  {
    if items != [] {
      RankedByScoreStable(items[1..], s);
      InsertByScoreStable(items[0], RankedByScore(items[1..]), s);
    }
  }

  /// The head of a ranking is one of the entries, with a score no entry
  /// beats.
  lemma RankedHead(items: seq<(Game, real)>)
    requires items != []
    ensures |RankedByScore(items)| > 0 && RankedByScore(items)[0] in items
    ensures forall x :: x in items ==> x.1 <= RankedByScore(items)[0].1
  {
    var ranked := RankedByScore(items);
    RankedByScoreSorted(items);
    assert items[0] in multiset(ranked);
    assert ranked[0] in multiset(items);
    forall x | x in items ensures x.1 <= ranked[0].1 {
      assert x in multiset(ranked);
    }
  }

  /// Every listed game has its entry in `TotalItems`.
  lemma TotalItemsHas(order: seq<Game>, totals: map<Game, real>, g: Game)
    requires forall h :: h in order ==> h in totals
    requires g in order
    ensures (g, totals[g]) in TotalItems(order, totals)
  {
    var k :| 0 <= k < |order| && order[k] == g;
    assert TotalItems(order, totals)[k] == (g, totals[g]);
  }

  /// The (game, total) entries of `order`.
  function TotalItems(order: seq<Game>, totals: map<Game, real>): (items: seq<(Game, real)>)
    requires forall g :: g in order ==> g in totals
    ensures |items| == |order|
  {
    seq(|order|, i requires 0 <= i < |order| => (order[i], totals[order[i]]))
  }

  /// The podium: the ranked entries with positions 1, 2, 3, ...
  function PodiumOf(ranked: seq<(Game, real)>): (podium: seq<Placing>)
    ensures |podium| == |ranked|
  {
    seq(|ranked|, i requires 0 <= i < |ranked| => Placing(i + 1, ranked[i].0, ranked[i].1))
  }

  /// The final round, with three or fewer games left.
  function FinalRound(number: nat, games: seq<Game>, active: set<Game>, pools: seq<Points>): (r: Round)
    ensures r.Final?
  {
    var order := Members(games, active);
    var totals := TotalsOf(pools, active);
    Final(number, totals, PodiumOf(RankedByScore(TotalItems(order, totals))), order)
  }

  /// The first game of `gs` with more than 51% of `total`.
  function MajorityOf(gs: seq<Game>, totals: map<Game, real>, total: real): (w: Option<Game>)
    requires forall g :: g in gs ==> g in totals
    ensures w.Some? ==> w.value in gs && totals[w.value] > total * 0.51
    ensures w.None? ==> forall g :: g in gs ==> totals[g] <= total * 0.51
  {
    if gs == [] then None
    else if totals[gs[0]] > total * 0.51 then Some(gs[0])
    else MajorityOf(gs[1..], totals, total)
  }

  /// The game eliminated in a round is active and has the lowest total.
  lemma EliminatedIsLowest(number: nat, games: seq<Game>, active: set<Game>, pools: seq<Points>, ballots: seq<Ballot>, pick: seq<Game> -> nat)
    requires active != {} && active <= set g | g in games
    requires SumOver(Members(games, active), TotalsOf(pools, active)) != 0.0
    ensures EliminationRound(number, games, active, pools, ballots, pick).eliminated in active
    ensures forall g :: g in active ==>
      TotalsOf(pools, active)[EliminationRound(number, games, active, pools, ballots, pick).eliminated]
      <= TotalsOf(pools, active)[g]
  {
    var order := Members(games, active);
    var totals := TotalsOf(pools, active);
    EnumeratedNonEmpty(games, active);
    var m := MinTotal(order, totals);
    var lowest := WithTotal(order, totals, m);
    var e := EliminationRound(number, games, active, pools, ballots, pick).eliminated;
    if |lowest| > 1 {
      BreakTieIsCandidate(lowest, ballots, active, pick);
    }
    assert e in lowest;
    forall g | g in active ensures totals[e] <= totals[g] {
      assert g in order;
    }
  }

  /// A game alone on the lowest total is eliminated, whatever the random
  /// source does.
  lemma UniqueLowestEliminated(number: nat, games: seq<Game>, active: set<Game>, pools: seq<Points>, ballots: seq<Ballot>, pick: seq<Game> -> nat, g: Game)
    requires active <= set g | g in games
    requires SumOver(Members(games, active), TotalsOf(pools, active)) != 0.0
    requires Distinct(games) && g in active
    requires forall h :: h in active && h != g ==> TotalsOf(pools, active)[g] < TotalsOf(pools, active)[h]
    ensures EliminationRound(number, games, active, pools, ballots, pick).eliminated == g
  {
    var order := Members(games, active);
    var totals := TotalsOf(pools, active);
    MembersDistinct(games, active);
    SingleLowest(order, totals, g);
  }

  /// In a list without repeats, a game alone on the lowest total is the only
  /// game with that total.
  lemma SingleLowest(gs: seq<Game>, totals: map<Game, real>, g: Game)
    requires Distinct(gs) && g in gs && forall h :: h in gs ==> h in totals
    requires forall h :: h in gs && h != g ==> totals[g] < totals[h]
    ensures WithTotal(gs, totals, MinTotal(gs, totals)) == [g]
  {
    var lowest := WithTotal(gs, totals, MinTotal(gs, totals));
    assert (set h | h in lowest) == {g};
    WithTotalDistinct(gs, totals, MinTotal(gs, totals));
    DistinctCardinality(lowest);
  }

  lemma {:induction false} WithTotalDistinct(gs: seq<Game>, totals: map<Game, real>, m: real)
    requires Distinct(gs) && forall g :: g in gs ==> g in totals
    ensures Distinct(WithTotal(gs, totals, m))
  {
    if gs != [] {
      WithTotalDistinct(gs[..|gs| - 1], totals, m);
      assert gs[|gs| - 1] !in gs[..|gs| - 1];
    }
  }

  /// Dividing every total by the round total and scaling to percent scales
  /// their sum the same way.
  lemma {:induction false} SumOverScaled(gs: seq<Game>, totals: map<Game, real>, total: real)
    requires total != 0.0 && forall g :: g in gs ==> g in totals
    ensures SumOver(gs, Percentages(totals, total)) == SumOver(gs, totals) / total * 100.0
  {
    if gs != [] {
      var k := |gs| - 1;
      SumOverScaled(gs[..k], totals, total);
      var a, b := SumOver(gs[..k], totals), totals[gs[k]];
      assert (a + b) / total * 100.0 == a / total * 100.0 + b / total * 100.0;
    }
  }

  /// The percentages of an elimination round add up to 100.
  lemma PercentagesSumTo100(number: nat, games: seq<Game>, active: set<Game>, pools: seq<Points>, ballots: seq<Ballot>, pick: seq<Game> -> nat)
    requires active != {} && active <= set g | g in games
    requires SumOver(Members(games, active), TotalsOf(pools, active)) != 0.0
    ensures SumOver(Members(games, active), EliminationRound(number, games, active, pools, ballots, pick).percentages) == 100.0
  {
    var order := Members(games, active);
    var totals := TotalsOf(pools, active);
    var r := EliminationRound(number, games, active, pools, ballots, pick);
    assert r.percentages == Percentages(totals, SumOver(order, totals));
    PercentagesOfTotal(order, totals);
  }

  lemma PercentagesOfTotal(gs: seq<Game>, totals: map<Game, real>)
    requires forall g :: g in gs ==> g in totals
    requires SumOver(gs, totals) != 0.0
    ensures SumOver(gs, Percentages(totals, SumOver(gs, totals))) == 100.0
  {
    var total := SumOver(gs, totals);
    SumOverScaled(gs, totals, total);
    assert total / total == 1.0;
  }

  /// With no negative totals, the sum over a duplicate-free list is at least
  /// any two of its entries together.
  lemma {:induction false} SumOverAtLeastPair(gs: seq<Game>, totals: map<Game, real>, i: nat, j: nat)
    requires forall g :: g in gs ==> g in totals && totals[g] >= 0.0
    requires i < j < |gs|
    ensures SumOver(gs, totals) >= totals[gs[i]] + totals[gs[j]]
  {
    var k := |gs| - 1;
    SumOverNonNegative(gs[..k], totals);
    if j < k {
      SumOverAtLeastPair(gs[..k], totals, i, j);
    } else {
      SumOverAtLeastOne(gs[..k], totals, i);
    }
  }

  lemma {:induction false} SumOverAtLeastOne(gs: seq<Game>, totals: map<Game, real>, i: nat)
    requires forall g :: g in gs ==> g in totals && totals[g] >= 0.0
    requires i < |gs|
    ensures SumOver(gs, totals) >= totals[gs[i]]
  {
    var k := |gs| - 1;
    SumOverNonNegative(gs[..k], totals);
    if i < k {
      SumOverAtLeastOne(gs[..k], totals, i);
    }
  }

  lemma {:induction false} SumOverNonNegative(gs: seq<Game>, totals: map<Game, real>)
    requires forall g :: g in gs ==> g in totals && totals[g] >= 0.0
    ensures SumOver(gs, totals) >= 0.0
  {
    if gs != [] {
      SumOverNonNegative(gs[..|gs| - 1], totals);
    }
  }

  /// With a positive round total and no negative totals, at most one game
  /// can hold more than 51% of it, so the order the games are scanned in does
  /// not change the winner found.
  lemma MajorityIsUnique(gs: seq<Game>, totals: map<Game, real>, g: Game, h: Game)
    requires Distinct(gs) && forall x :: x in gs ==> x in totals && totals[x] >= 0.0
    requires SumOver(gs, totals) > 0.0
    requires g in gs && h in gs
    requires totals[g] > SumOver(gs, totals) * 0.51 && totals[h] > SumOver(gs, totals) * 0.51
    ensures g == h
  {
    if g != h {
      var i :| 0 <= i < |gs| && gs[i] == g;
      var j :| 0 <= j < |gs| && gs[j] == h;
      if i < j {
        SumOverAtLeastPair(gs, totals, i, j);
      } else {
        SumOverAtLeastPair(gs, totals, j, i);
      }
    }
  }

  /// The games on a podium, first place first.
  function PodiumGames(podium: seq<Placing>): (gs: seq<Game>)
    ensures |gs| == |podium| && forall i :: 0 <= i < |podium| ==> gs[i] == podium[i].game
  {
    if podium == [] then [] else [podium[0].game] + PodiumGames(podium[1..])
  }

  /// The podium over any entries: positions 1, 2, 3, ..., scores highest
  /// first, and the entries themselves, each once.
  lemma {:induction false} PodiumOfRanking(items: seq<(Game, real)>)
    ensures var podium := PodiumOf(RankedByScore(items));
      && (forall i :: 0 <= i < |podium| ==> podium[i].position == i + 1)
      && (forall i, j :: 0 <= i < j < |podium| ==> podium[i].score >= podium[j].score)
      && (forall i :: 0 <= i < |podium| ==> (podium[i].game, podium[i].score) in items)
      && multiset(PodiumGames(podium)) == multiset(Firsts(items))
  {
    var ranked := RankedByScore(items);
    var podium := PodiumOf(ranked);
    RankedByScoreSorted(items);
    forall i | 0 <= i < |podium| ensures (podium[i].game, podium[i].score) in items {
      assert ranked[i] in multiset(items);
    }
    assert PodiumGames(podium) == Firsts(ranked);
    FirstsOfPermutation(ranked, items);
  }

  /// The final podium: positions 1, 2, 3, ..., scores highest first, each
  /// active game placed once, with its total.
  lemma FinalPodium(number: nat, games: seq<Game>, active: set<Game>, pools: seq<Points>)
    ensures var podium := FinalRound(number, games, active, pools).podium;
      && (forall i :: 0 <= i < |podium| ==> podium[i].position == i + 1)
      && (forall i, j :: 0 <= i < j < |podium| ==> podium[i].score >= podium[j].score)
      && (forall i :: 0 <= i < |podium| ==>
            podium[i].game in active && podium[i].score == TotalsOf(pools, active)[podium[i].game])
      && multiset(PodiumGames(podium)) == multiset(Members(games, active))
  {
    var order := Members(games, active);
    var totals := TotalsOf(pools, active);
    var items := TotalItems(order, totals);
    var podium := FinalRound(number, games, active, pools).podium;
    assert podium == PodiumOf(RankedByScore(items));
    PodiumOfRanking(items);
    forall i | 0 <= i < |podium|
      ensures podium[i].game in active && podium[i].score == totals[podium[i].game]
    {
      TotalItemsEntry(order, totals, (podium[i].game, podium[i].score));
    }
    assert order == Firsts(items);
  }

  /// An entry of `TotalItems` pairs a listed game with its total.
  lemma TotalItemsEntry(order: seq<Game>, totals: map<Game, real>, x: (Game, real))
    requires forall g :: g in order ==> g in totals
    requires x in TotalItems(order, totals)
    ensures x.0 in order && x.1 == totals[x.0]
  {
    var k :| 0 <= k < |order| && TotalItems(order, totals)[k] == x;
  }

  /// The games of a list of entries.
  function Firsts(r: seq<(Game, real)>): (gs: seq<Game>)
    ensures |gs| == |r| && forall i :: 0 <= i < |r| ==> gs[i] == r[i].0
  {
    seq(|r|, i requires 0 <= i < |r| => r[i].0)
  }

  lemma {:induction false} FirstsOfPermutation(r: seq<(Game, real)>, s: seq<(Game, real)>)
    requires multiset(r) == multiset(s)
    ensures multiset(Firsts(r)) == multiset(Firsts(s))
    decreases |r|
  {
    if r != [] {
      var x := r[0];
      assert x in multiset(s);
      var k :| 0 <= k < |s| && s[k] == x;
      RemoveOne(r, s, k);
      FirstsOfPermutation(r[1..], s[..k] + s[k + 1..]);
      FirstsWithout(s, k);
      assert Firsts(r) == [x.0] + Firsts(r[1..]);
    }
  }

  /// The games of a list are those of the list without its k-th entry, and
  /// that entry's game.
  lemma FirstsWithout(s: seq<(Game, real)>, k: nat)
    requires k < |s|
    ensures multiset(Firsts(s)) == multiset(Firsts(s[..k] + s[k + 1..])) + multiset{s[k].0}
  {
    FirstsSkip(s, k);
    WithoutOne(Firsts(s), k);
  }
  lemma FirstsSkip(s: seq<(Game, real)>, k: nat)
    requires k < |s|
    ensures Firsts(s[..k] + s[k + 1..]) == Firsts(s)[..k] + Firsts(s)[k + 1..]
  {
    var u, t := Firsts(s[..k] + s[k + 1..]), Firsts(s);
    var v := t[..k] + t[k + 1..];
    forall i | 0 <= i < |u|
      ensures u[i] == v[i]
    {
      if i < k {
        assert u[i] == s[i].0 == t[i];
      } else {
        assert u[i] == s[i + 1].0 == t[i + 1];
      }
    }
  }
  lemma RemoveOne(r: seq<(Game, real)>, s: seq<(Game, real)>, k: nat)
    requires multiset(r) == multiset(s) && r != [] && k < |s| && s[k] == r[0]
    ensures multiset(r[1..]) == multiset(s[..k] + s[k + 1..])
  {
    assert r == [r[0]] + r[1..];
    assert multiset(r[1..]) == multiset(r) - multiset{r[0]};
    WithoutOne(s, k);
  }
  /** Dropping position `k` removes exactly one copy of `t[k]`. */
  lemma WithoutOne<T>(t: seq<T>, k: nat)
    requires k < |t|
    ensures multiset(t[..k] + t[k + 1..]) == multiset(t) - multiset{t[k]}
    ensures multiset(t) == multiset(t[..k] + t[k + 1..]) + multiset{t[k]}
  {
    assert t == t[..k] + [t[k]] + t[k + 1..];
  }

  /// The totals over all ballots' pools: `game_totals`, built ballot by ballot.
  method GameTotals(active: set<Game>, pools: seq<Points>) returns (totals: map<Game, real>)
    ensures totals == TotalsOf(pools, active)
  {
    totals := map g | g in active :: 0.0;
    for i := 0 to |pools|
      invariant totals == TotalsOf(pools[..i], active)
    {
      totals := AddBallotPoints(totals, active, pools[i]);
      assert pools[..i + 1][..i] == pools[..i];
    }
    assert pools[..|pools|] == pools;
  }

  /// Adds one ballot's points for the active games to the totals, visiting
  /// the ballot's entries in an order the model leaves open.
  method AddBallotPoints(totals: map<Game, real>, active: set<Game>, ballot: Points) returns (updated: map<Game, real>)
    requires totals.Keys == active
    ensures updated == map g | g in active :: totals[g] + Get(ballot, g)
  {
    updated := totals;
    var remaining := ballot.Keys;
    while remaining != {}
      invariant remaining <= ballot.Keys
      invariant updated.Keys == active
      invariant forall g :: g in active ==>
        updated[g] == totals[g] + (if g in ballot && g !in remaining then ballot[g] else 0.0)
      decreases remaining
    {
      var game :| game in remaining;
      if game in active {
        updated := updated[game := updated[game] + ballot[game]];
      }
      remaining := remaining - {game};
    }
  }

  /// `_process_round`: totals, the game to eliminate, the percentages.
  method ProcessRound(number: nat, games: seq<Game>, active: set<Game>, pools: seq<Points>, ballots: seq<Ballot>, pick: seq<Game> -> nat)
    returns (r: Round)
    requires active != {} && active <= set g | g in games
    requires SumOver(Members(games, active), TotalsOf(pools, active)) != 0.0
    ensures r == EliminationRound(number, games, active, pools, ballots, pick)
  {
    var totals := GameTotals(active, pools);
    var order := Members(games, active);
    EnumeratedNonEmpty(games, active);
    var minScore := MinTotal(order, totals);
    var eliminatedCandidates := WithTotal(order, totals, minScore);
    var eliminated;
    if |eliminatedCandidates| > 1 {
      eliminated := BreakTie(eliminatedCandidates, ballots, active, pick);
    } else {
      eliminated := eliminatedCandidates[0];
    }
    var totalPoints := SumOver(order, totals);
    var percentages := map g | g in totals :: totals[g] / totalPoints * 100.0;
    r := Elimination(number, totals, percentages, eliminated, order);
  }

  /// `_process_final_round`: totals, then the podium from the ranking.
  method ProcessFinalRound(number: nat, games: seq<Game>, active: set<Game>, pools: seq<Points>) returns (r: Round)
    ensures r == FinalRound(number, games, active, pools)
  {
    var totals := GameTotals(active, pools);
    var order := Members(games, active);
    var sortedGames := RankedByScore(TotalItems(order, totals));
    var podium: seq<Placing> := [];
    for i := 0 to |sortedGames|
      invariant podium == PodiumOf(sortedGames[..i])
    {
      podium := podium + [Placing(i + 1, sortedGames[i].0, sortedGames[i].1)];
    }
    assert sortedGames[..|sortedGames|] == sortedGames;
    r := Final(number, totals, podium, order);
  }

  /// The majority test of a round: the first game, in enumeration order,
  /// whose total exceeds 51% of the round total.
  method FindMajority(gs: seq<Game>, totals: map<Game, real>) returns (winner: Option<Game>)
    requires forall g :: g in gs ==> g in totals
    ensures winner == MajorityOf(gs, totals, SumOver(gs, totals))
  {
    var totalPoints := SumOver(gs, totals);
    for i := 0 to |gs|
      invariant MajorityOf(gs[i..], totals, totalPoints) == MajorityOf(gs, totals, totalPoints)
    {
      if totals[gs[i]] > totalPoints * 0.51 {
        return Some(gs[i]);
      }
      assert gs[i..][1..] == gs[i + 1..];
    }
    return None;
  }
}
