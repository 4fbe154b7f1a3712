/// The whole Jax Method tally: the error cases, the initial points, rounds of
/// elimination and redistribution while more than three games are left, an
/// early end when one game holds more than 51% of a round's points, and the
/// final podium.
module Tally {
  import opened Ballots
  import opened Redistribution
  import opened Rounds

  datatype TallyError = NoGames | NoVotes(totalGames: nat)

  /// The rounds from some point of the tally on, and how they end.
  datatype Run = Run(rounds: seq<Round>, winner: Game, podium: seq<Placing>)

  /// What the tally returns: an error, or the metadata, the initial points of
  /// every ballot, the rounds, the winner and the podium.
  datatype Outcome =
    | Failed(error: TallyError)
    | Tallied(totalGames: nat, totalVotes: nat, initialPoints: seq<Points>, rounds: seq<Round>, winner: Game, podium: seq<Placing>)

  /// What holds of the tally's state before every round: a pool per ballot,
  /// each holding every active game with at least one point, and some active
  /// game, all of them from the game list.
  ghost predicate RunState(games: seq<Game>, ballots: seq<Ballot>, pools: seq<Points>, active: set<Game>)
  {
    Distinct(games) && |pools| == |ballots| && |pools| > 0 && PoolsOk(pools, active)
    && active != {} && active <= set g | g in games
  }

  /// After an elimination round that finds no majority, the eliminated game
  /// was active, and the state the next round starts from satisfies the
  /// invariant again, with one game fewer.
  lemma EliminationStep(games: seq<Game>, ballots: seq<Ballot>, pools: seq<Points>, active: set<Game>, number: nat, pick: seq<Game> -> nat)
    requires RunState(games, ballots, pools, active) && |active| > 3
    ensures SumOver(Members(games, active), TotalsOf(pools, active)) > 0.0
    ensures var r := EliminationRound(number, games, active, pools, ballots, pick);
      && r.active == Members(games, active) && r.totals == TotalsOf(pools, active)
      && r.eliminated in active && |active - {r.eliminated}| == |active| - 1
      && RunState(games, ballots, Redistributed(pools, r.eliminated, active - {r.eliminated}, ballots), active - {r.eliminated})
  {
    RoundTotalNonZero(games, ballots, pools, active);
    EliminatedIsLowest(number, games, active, pools, ballots, pick);
    var e := EliminationRound(number, games, active, pools, ballots, pick).eliminated;
    RedistributedPoolsOk(pools, e, active, ballots);
    assert |active - {e}| == |active| - 1;
    assert active - {e} != {} by {
      assert |active - {e}| > 0;
    }
  }

  /// The games a list names.
  function Listed(gs: seq<Game>): set<Game>
  {
    set g | g in gs
  }

  lemma RoundTotalNonZero(games: seq<Game>, ballots: seq<Ballot>, pools: seq<Points>, active: set<Game>)
    requires RunState(games, ballots, pools, active)
    ensures SumOver(Members(games, active), TotalsOf(pools, active)) > 0.0
  {
    EnumeratedNonEmpty(games, active);
    RoundTotalPositive(Members(games, active), pools, active);
  }

  /// The rounds from round `number` on, with `active` left and `pools` as
  /// they stand.
  function RunFrom(games: seq<Game>, ballots: seq<Ballot>, pools: seq<Points>, active: set<Game>, number: nat, pick: seq<Game> -> nat): (run: Run)
    requires RunState(games, ballots, pools, active)
    ensures |run.rounds| >= 1 && run.rounds[0].number == number
    decreases |active|
  {
    if |active| > 3 then
      EliminationStep(games, ballots, pools, active, number, pick);
      var r := EliminationRound(number, games, active, pools, ballots, pick);
      match MajorityOf(r.active, r.totals, SumOver(r.active, r.totals))
      case Some(w) => Run([r], w, [Placing(1, w, r.totals[w])])
      case None =>
        var e := r.eliminated;
        var rest := RunFrom(games, ballots, Redistributed(pools, e, active - {e}, ballots), active - {e}, number + 1, pick);
        Run([r] + rest.rounds, rest.winner, rest.podium)
    else
      EnumeratedNonEmpty(games, active);
      var f := FinalRound(number, games, active, pools);
      Run([f], f.podium[0].game, f.podium)
  }

  /// The tally of `votes` over `games`, with `pick` standing for the random
  /// source of the last-resort tie-break.
  function Tally(games: seq<Game>, votes: seq<seq<nat>>, pick: seq<Game> -> nat): (o: Outcome)
    requires Distinct(games)
    requires forall i :: 0 <= i < |votes| ==> IsIndexRanking(votes[i], |games|)
    ensures o.Failed? <==> games == [] || votes == []
  {
    if games == [] then Failed(NoGames)
    else if votes == [] then Failed(NoVotes(|games|))
    else
      var ballots := VoteBallots(games, votes);
      var pools := InitialPools(ballots);
      VoteBallotsAreRankings(games, votes);
      InitialPoolsOk(games, ballots);
      var active := set g | g in games;
      assert games[0] in active;
      var run := RunFrom(games, ballots, pools, active, 1, pick);
      Tallied(|games|, |votes|, pools, run.rounds, run.winner, run.podium)
  }

  /// A run has at least one round, and at most |active| - 3 eliminations
  /// before its last round.
  lemma {:induction false} RunLength(games: seq<Game>, ballots: seq<Ballot>, pools: seq<Points>, active: set<Game>, number: nat, pick: seq<Game> -> nat)
    requires RunState(games, ballots, pools, active)
    ensures var run := RunFrom(games, ballots, pools, active, number, pick);
      1 <= |run.rounds| <= (if |active| > 3 then |active| - 2 else 1)
    decreases |active|
  {
    if |active| > 3 {
      RoundTotalNonZero(games, ballots, pools, active);
      var r := EliminationRound(number, games, active, pools, ballots, pick);
      match MajorityOf(r.active, r.totals, SumOver(r.active, r.totals))
      case Some(w) =>
        RunFromMajority(games, ballots, pools, active, number, pick, r, w);
      case None =>
        var e, pools', next := RunFromElimination(games, ballots, pools, active, number, pick, r);
        RunLength(games, ballots, pools', active - {e}, number + 1, pick);
    } else {
      var f := FinalRound(number, games, active, pools);
      RunFromFinal(games, ballots, pools, active, number, pick, f);
    }
  }

  /// Rounds numbered on from `number`, all but the last of them elimination
  /// rounds.
  predicate NumberedFrom(rounds: seq<Round>, number: nat)
  {
    forall i :: 0 <= i < |rounds| ==> rounds[i].number == number + i && (i < |rounds| - 1 ==> rounds[i].Elimination?)
  }

  lemma NumberedCons(r: Round, rest: seq<Round>, number: nat)
    requires r.Elimination? && r.number == number && NumberedFrom(rest, number + 1)
    ensures NumberedFrom([r] + rest, number)
  {
    forall i | 0 <= i < |[r] + rest|
      ensures ([r] + rest)[i].number == number + i
      ensures i < |[r] + rest| - 1 ==> ([r] + rest)[i].Elimination?
    {
      if i > 0 {
        assert ([r] + rest)[i] == rest[i - 1];
      }
    }
  }

  /// The rounds of a run are numbered on from `number`, and every round but
  /// the last is an elimination round.
  lemma {:induction false} RunNumbered(games: seq<Game>, ballots: seq<Ballot>, pools: seq<Points>, active: set<Game>, number: nat, pick: seq<Game> -> nat)
    requires RunState(games, ballots, pools, active)
    ensures NumberedFrom(RunFrom(games, ballots, pools, active, number, pick).rounds, number)
    decreases |active|
  {
    if |active| > 3 {
      RoundTotalNonZero(games, ballots, pools, active);
      var r := EliminationRound(number, games, active, pools, ballots, pick);
      match MajorityOf(r.active, r.totals, SumOver(r.active, r.totals))
      case Some(w) =>
        RunFromMajority(games, ballots, pools, active, number, pick, r, w);
      case None =>
        var e, pools', next := RunFromElimination(games, ballots, pools, active, number, pick, r);
        RunNumbered(games, ballots, pools', active - {e}, number + 1, pick);
        NumberedCons(r, next.rounds, number);
    } else {
      var f := FinalRound(number, games, active, pools);
      RunFromFinal(games, ballots, pools, active, number, pick, f);
    }
  }

  /// The podium of a run is not empty, its first place is the winner, and
  /// the winner is one of the active games.
  lemma {:induction false} RunWinner(games: seq<Game>, ballots: seq<Ballot>, pools: seq<Points>, active: set<Game>, number: nat, pick: seq<Game> -> nat)
    requires RunState(games, ballots, pools, active)
    ensures var run := RunFrom(games, ballots, pools, active, number, pick);
      |run.podium| > 0 && run.podium[0].position == 1 && run.winner == run.podium[0].game && run.winner in active
    decreases |active|
  {
    if |active| > 3 {
      RoundTotalNonZero(games, ballots, pools, active);
      var r := EliminationRound(number, games, active, pools, ballots, pick);
      match MajorityOf(r.active, r.totals, SumOver(r.active, r.totals))
      case Some(w) =>
        RunFromMajority(games, ballots, pools, active, number, pick, r, w);
      case None =>
        var e, pools', next := RunFromElimination(games, ballots, pools, active, number, pick, r);
        RunWinner(games, ballots, pools', active - {e}, number + 1, pick);
    } else {
      var f := FinalRound(number, games, active, pools);
      RunFromFinal(games, ballots, pools, active, number, pick, f);
      FinalPodium(number, games, active, pools);
    }
  }

  /// Each round but the last eliminates a game it lists, and the next round
  /// lists the same games but that one.
  predicate EliminatesInTurn(rounds: seq<Round>)
  {
    forall i :: 0 <= i < |rounds| - 1 ==>
      rounds[i].Elimination? && rounds[i].eliminated in rounds[i].active
      && Listed(rounds[i + 1].active) == Listed(rounds[i].active) - {rounds[i].eliminated}
  }

  lemma EliminatesCons(r: Round, rest: seq<Round>)
    requires r.Elimination? && r.eliminated in r.active
    requires |rest| > 0 && Listed(rest[0].active) == Listed(r.active) - {r.eliminated}
    requires EliminatesInTurn(rest)
    ensures EliminatesInTurn([r] + rest)
  {
    var rounds := [r] + rest;
    forall i | 0 <= i < |rounds| - 1
      ensures rounds[i].Elimination? && rounds[i].eliminated in rounds[i].active
      ensures Listed(rounds[i + 1].active) == Listed(rounds[i].active) - {rounds[i].eliminated}
    {
      if i > 0 {
        assert rounds[i] == rest[i - 1] && rounds[i + 1] == rest[i];
      } else {
        assert rounds[1] == rest[0];
      }
    }
  }

  /// Each elimination takes its game out: the first round lists the active
  /// games, and each next round lists the games of the one before but the
  /// game it eliminated, which it listed.
  lemma {:induction false} RunEliminates(games: seq<Game>, ballots: seq<Ballot>, pools: seq<Points>, active: set<Game>, number: nat, pick: seq<Game> -> nat)
    requires RunState(games, ballots, pools, active)
    ensures var rounds := RunFrom(games, ballots, pools, active, number, pick).rounds;
      |rounds| > 0 && Listed(rounds[0].active) == active && EliminatesInTurn(rounds)
    decreases |active|
  {
    if |active| > 3 {
      RoundTotalNonZero(games, ballots, pools, active);
      var r := EliminationRound(number, games, active, pools, ballots, pick);
      match MajorityOf(r.active, r.totals, SumOver(r.active, r.totals))
      case Some(w) =>
        RunFromMajority(games, ballots, pools, active, number, pick, r, w);
        ListedMembers(games, active);
      case None =>
        var e, pools', next := RunFromElimination(games, ballots, pools, active, number, pick, r);
        RunEliminates(games, ballots, pools', active - {e}, number + 1, pick);
        EliminatedInTurn(games, active, r, next.rounds);
    } else {
      var f := FinalRound(number, games, active, pools);
      RunFromFinal(games, ballots, pools, active, number, pick, f);
      ListedMembers(games, active);
    }
  }

  /// Enumerating a set of listed games lists exactly that set.
  lemma ListedMembers(games: seq<Game>, active: set<Game>)
    requires active <= set g | g in games
    ensures Listed(Members(games, active)) == active
  {
  }

  /// An elimination round over the active games, followed by rounds that
  /// start from the others and eliminate in turn, eliminates in turn.
  lemma EliminatedInTurn(games: seq<Game>, active: set<Game>, r: Round, rest: seq<Round>)
    requires active <= set g | g in games
    requires r.Elimination? && r.active == Members(games, active) && r.eliminated in active
    requires |rest| > 0 && Listed(rest[0].active) == active - {r.eliminated} && EliminatesInTurn(rest)
    ensures var rounds := [r] + rest;
      |rounds| > 0 && Listed(rounds[0].active) == active && EliminatesInTurn(rounds)
  {
    ListedMembers(games, active);
    EliminatesCons(r, rest);
  }

  /// A run whose last round is the final round held that round with at most
  /// three games, and its podium is that round's, headed by the game with the
  /// highest total of the round.
  predicate EndsInFinal(run: Run)
  {
    |run.rounds| > 0 &&
    var last := run.rounds[|run.rounds| - 1];
    last.Final? ==>
      |last.active| <= 3 && last.podium == run.podium
      && run.winner in last.totals
      && forall g :: g in last.totals ==> last.totals[g] <= last.totals[run.winner]
  }

  /// A run whose last round is an elimination round stopped there because
  /// the winner holds more than 51% of that round's points; its podium is
  /// the winner alone, with its total.
  predicate EndsInMajority(run: Run)
  {
    |run.rounds| > 0 &&
    var last := run.rounds[|run.rounds| - 1];
    last.Elimination? ==>
      (forall g :: g in last.active ==> g in last.totals)
      && run.winner in last.totals
      && last.totals[run.winner] > SumOver(last.active, last.totals) * 0.51
      && run.podium == [Placing(1, run.winner, last.totals[run.winner])]
  }

  lemma EndingCons(r: Round, rest: Run)
    ensures var run := Run([r] + rest.rounds, rest.winner, rest.podium);
      (EndsInFinal(rest) ==> EndsInFinal(run)) && (EndsInMajority(rest) ==> EndsInMajority(run))
  {
    if |rest.rounds| > 0 {
      assert ([r] + rest.rounds)[|rest.rounds|] == rest.rounds[|rest.rounds| - 1];
    }
  }

  /// How a run ends: at the final round or at a majority, as the two
  /// predicates above describe.
  lemma {:induction false} RunEnds(games: seq<Game>, ballots: seq<Ballot>, pools: seq<Points>, active: set<Game>, number: nat, pick: seq<Game> -> nat)
    requires RunState(games, ballots, pools, active)
    ensures EndsInFinal(RunFrom(games, ballots, pools, active, number, pick))
    ensures EndsInMajority(RunFrom(games, ballots, pools, active, number, pick))
    decreases |active|
  {
    if |active| > 3 {
      EliminationStep(games, ballots, pools, active, number, pick);
      var r := EliminationRound(number, games, active, pools, ballots, pick);
      if MajorityOf(r.active, r.totals, SumOver(r.active, r.totals)).None? {
        var e := r.eliminated;
        var pools' := Redistributed(pools, e, active - {e}, ballots);
        RunEnds(games, ballots, pools', active - {e}, number + 1, pick);
        EndingCons(r, RunFrom(games, ballots, pools', active - {e}, number + 1, pick));
      }
    } else {
      EnumeratedNonEmpty(games, active);
      MembersEnumerates(games, active);
      FinalWinnerHighest(number, games, active, pools);
    }
  }

  /// The first place of the final podium has the highest total of the round.
  lemma FinalWinnerHighest(number: nat, games: seq<Game>, active: set<Game>, pools: seq<Points>)
    requires active != {} && active <= set g | g in games
    ensures var f := FinalRound(number, games, active, pools);
      && |f.podium| > 0 && f.podium[0].game in f.totals
      && forall g :: g in f.totals ==> f.totals[g] <= f.totals[f.podium[0].game]
  {
    var order := Members(games, active);
    var totals := TotalsOf(pools, active);
    var items := TotalItems(order, totals);
    EnumeratedNonEmpty(games, active);
    RankedHead(items);
    var head := RankedByScore(items)[0];
    TotalItemsEntry(order, totals, head);
    forall g | g in totals ensures totals[g] <= totals[head.0] {
      assert g in order;
      TotalItemsHas(order, totals, g);
    }
  }

  /// A tally with games and votes ends with the winner first on the podium,
  /// a game of the game list.
  lemma TallyWinner(games: seq<Game>, votes: seq<seq<nat>>, pick: seq<Game> -> nat)
    requires Distinct(games)
    requires forall i :: 0 <= i < |votes| ==> IsIndexRanking(votes[i], |games|)
    ensures Tally(games, votes, pick).Failed? <==> games == [] || votes == []
    ensures var t := Tally(games, votes, pick);
      t.Tallied? ==>
        && t.totalGames == |games| && t.totalVotes == |votes|
        && |t.podium| > 0 && t.winner == t.podium[0].game && t.winner in games
        && 1 <= |t.rounds| <= (if |games| > 3 then |games| - 2 else 1)
        && NumberedFrom(t.rounds, 1)
  {
    if games != [] && votes != [] {
      var ballots := VoteBallots(games, votes);
      var pools := InitialPools(ballots);
      VoteBallotsAreRankings(games, votes);
      InitialPoolsOk(games, ballots);
      var active := set g | g in games;
      assert games[0] in active;
      DistinctCardinality(games);
      RunLength(games, ballots, pools, active, 1, pick);
      RunNumbered(games, ballots, pools, active, 1, pick);
      RunWinner(games, ballots, pools, active, 1, pick);
    }
  }

  /// One step of a run that finds a majority: the run ends with that round.
  lemma RunFromMajority(games: seq<Game>, ballots: seq<Ballot>, pools: seq<Points>, active: set<Game>, number: nat, pick: seq<Game> -> nat, r: Round, w: Game)
    requires RunState(games, ballots, pools, active) && |active| > 3
    requires SumOver(Members(games, active), TotalsOf(pools, active)) != 0.0
    requires r == EliminationRound(number, games, active, pools, ballots, pick)
    requires MajorityOf(r.active, r.totals, SumOver(r.active, r.totals)) == Some(w)
    ensures w in r.totals
    ensures RunFrom(games, ballots, pools, active, number, pick) == Run([r], w, [Placing(1, w, r.totals[w])])
  {
  }

  /// One step of a run that finds no majority: the round, then the run from
  /// the redistributed pools without the eliminated game.
  lemma RunFromElimination(games: seq<Game>, ballots: seq<Ballot>, pools: seq<Points>, active: set<Game>, number: nat, pick: seq<Game> -> nat, r: Round)
    returns (e: Game, pools': seq<Points>, next: Run)
    requires RunState(games, ballots, pools, active) && |active| > 3
    requires SumOver(Members(games, active), TotalsOf(pools, active)) != 0.0
    requires r == EliminationRound(number, games, active, pools, ballots, pick)
    requires MajorityOf(r.active, r.totals, SumOver(r.active, r.totals)).None?
    ensures r.Elimination? && e == r.eliminated && e in active && |active - {e}| < |active|
    ensures pools' == Redistributed(pools, e, active - {e}, ballots)
    ensures RunState(games, ballots, pools', active - {e})
    ensures next == RunFrom(games, ballots, pools', active - {e}, number + 1, pick)
    ensures RunFrom(games, ballots, pools, active, number, pick) == Run([r] + next.rounds, next.winner, next.podium)
  {
    EliminationStep(games, ballots, pools, active, number, pick);
    e := r.eliminated;
    pools' := Redistributed(pools, e, active - {e}, ballots);
    next := RunFrom(games, ballots, pools', active - {e}, number + 1, pick);
    EliminationUnfolds(games, ballots, pools, active, number, pick, r, pools');
  }

  /// The run from a round that finds no majority is that round followed by
  /// the run from the state after the elimination.
  lemma EliminationUnfolds(games: seq<Game>, ballots: seq<Ballot>, pools: seq<Points>, active: set<Game>, number: nat, pick: seq<Game> -> nat, r: Round, pools': seq<Points>)
    requires RunState(games, ballots, pools, active) && |active| > 3
    requires SumOver(Members(games, active), TotalsOf(pools, active)) != 0.0
    requires r == EliminationRound(number, games, active, pools, ballots, pick)
    requires MajorityOf(r.active, r.totals, SumOver(r.active, r.totals)).None?
    requires r.Elimination? && pools' == Redistributed(pools, r.eliminated, active - {r.eliminated}, ballots)
    requires RunState(games, ballots, pools', active - {r.eliminated})
    ensures var next := RunFrom(games, ballots, pools', active - {r.eliminated}, number + 1, pick);
      RunFrom(games, ballots, pools, active, number, pick) == Run([r] + next.rounds, next.winner, next.podium)
  {
  }

  /// The last step of a run: the final round and its podium.
  lemma RunFromFinal(games: seq<Game>, ballots: seq<Ballot>, pools: seq<Points>, active: set<Game>, number: nat, pick: seq<Game> -> nat, f: Round)
    requires RunState(games, ballots, pools, active) && |active| <= 3
    requires f == FinalRound(number, games, active, pools)
    ensures |f.podium| > 0
    ensures RunFrom(games, ballots, pools, active, number, pick) == Run([f], f.podium[0].game, f.podium)
  {
    EnumeratedNonEmpty(games, active);
  }

  /// The initial points of every ballot, in a fresh array.
  method InitialPoints(ballots: seq<Ballot>) returns (points: array<Points>)
    ensures fresh(points)
    ensures points[..] == InitialPools(ballots)
  {
    points := new Points[|ballots|];
    for i := 0 to |ballots|
      invariant forall k :: 0 <= k < i ==> points[k] == InitialPool(ballots[k])
    {
      points[i] := InitialBallotPoints(ballots[i]);
    }
  }

  /// `calculate_jax_method_voting`, as a computation: the errors, the initial
  /// points, then the rounds.
  method TallyVotes(games: seq<Game>, votes: seq<seq<nat>>, pick: seq<Game> -> nat) returns (winner: Option<Game>, results: Outcome)
    requires Distinct(games)
    requires forall i :: 0 <= i < |votes| ==> IsIndexRanking(votes[i], |games|)
    ensures results == Tally(games, votes, pick)
    ensures winner == if results.Tallied? then Some(results.winner) else None
  {
    if |games| == 0 {
      return None, Failed(NoGames);
    }
    if |votes| == 0 {
      return None, Failed(NoVotes(|games|));
    }
    var voteBallots := VoteBallots(games, votes);
    var ballotPoints := InitialPoints(voteBallots);
    var initialPoints := ballotPoints[..];
    var activeGames := set g | g in games;
    assert RunState(games, voteBallots, initialPoints, activeGames) by {
      VoteBallotsAreRankings(games, votes);
      InitialPoolsOk(games, voteBallots);
      assert games[0] in activeGames;
    }
    var run := PlayRounds(games, voteBallots, ballotPoints, activeGames, pick);
    return Some(run.winner), Tallied(|games|, |votes|, initialPoints, run.rounds, run.winner, run.podium);
  }

  /// Appending a round to the rounds played so far regroups the whole list.
  lemma AppendRound(done: seq<Round>, r: Round, rest: seq<Round>)
    ensures (done + [r]) + rest == done + ([r] + rest)
  {
  }

  /// One round of the `while` loop of `calculate_jax_method_voting`: the
  /// round is tallied, and unless a game has a majority the eliminated game's
  /// points are handed on; `rest` is the run from the next round on.
  method PlayRound(number: nat, games: seq<Game>, active: set<Game>, ballotPoints: array<Points>, ballots: seq<Ballot>, pick: seq<Game> -> nat)
    returns (r: Round, majority: Option<Game>, ghost rest: Run)
    requires ballotPoints.Length == |ballots|
    requires RunState(games, ballots, ballotPoints[..], active) && |active| > 3
    modifies ballotPoints
    ensures r.Elimination?
    ensures majority.None? ==>
      ballotPoints[..] == Redistributed(old(ballotPoints[..]), r.eliminated, active - {r.eliminated}, ballots)
    ensures majority.Some? ==> majority.value in r.totals && unchanged(ballotPoints)
    ensures majority.Some? ==>
      RunFrom(games, ballots, old(ballotPoints[..]), active, number, pick) == Run([r], majority.value, [Placing(1, majority.value, r.totals[majority.value])])
    ensures majority.None? ==> r.eliminated in active && |active - {r.eliminated}| < |active|
    ensures majority.None? ==> RunState(games, ballots, ballotPoints[..], active - {r.eliminated})
    ensures majority.None? ==> rest == RunFrom(games, ballots, ballotPoints[..], active - {r.eliminated}, number + 1, pick)
    ensures majority.None? ==>
      RunFrom(games, ballots, old(ballotPoints[..]), active, number, pick) == Run([r] + rest.rounds, rest.winner, rest.podium)
  {
    RoundTotalNonZero(games, ballots, ballotPoints[..], active);
    r := ProcessRound(number, games, active, ballotPoints[..], ballots, pick);
    majority := FindMajority(r.active, r.totals);
    if majority.Some? {
      RunFromMajority(games, ballots, ballotPoints[..], active, number, pick, r, majority.value);
      rest := Run([], majority.value, []);
      return;
    }
    ghost var e, pools';
    e, pools', rest := RunFromElimination(games, ballots, ballotPoints[..], active, number, pick, r);
    RedistributePoints(r.eliminated, active - {r.eliminated}, ballotPoints, ballots);
  }

  /// The round after the loop of `calculate_jax_method_voting`, with three or
  /// fewer games left: it ends the run, and its first place is the winner.
  method PlayFinalRound(number: nat, games: seq<Game>, ballots: seq<Ballot>, pools: seq<Points>, active: set<Game>, pick: seq<Game> -> nat)
    returns (f: Round)
    requires RunState(games, ballots, pools, active) && |active| <= 3
    ensures f.Final? && |f.podium| > 0
    ensures RunFrom(games, ballots, pools, active, number, pick) == Run([f], f.podium[0].game, f.podium)
  {
    f := ProcessFinalRound(number, games, active, pools);
    RunFromFinal(games, ballots, pools, active, number, pick, f);
  }

  /// The loop of `calculate_jax_method_voting`: rounds while more than three
  /// games are left, each ending the tally at a majority or eliminating a game
  /// and redistributing its points in the pools array; then the final round.
  method PlayRounds(games: seq<Game>, ballots: seq<Ballot>, ballotPoints: array<Points>, active: set<Game>, pick: seq<Game> -> nat)
    returns (run: Run)
    requires ballotPoints.Length == |ballots|
    requires RunState(games, ballots, ballotPoints[..], active)
    modifies ballotPoints
    ensures run == RunFrom(games, ballots, old(ballotPoints[..]), active, 1, pick)
  {
    ghost var full := RunFrom(games, ballots, ballotPoints[..], active, 1, pick);
    var activeGames := active;
    var roundNum := 1;
    var rounds: seq<Round> := [];
    while |activeGames| > 3
      invariant RunState(games, ballots, ballotPoints[..], activeGames)
      invariant var rest := RunFrom(games, ballots, ballotPoints[..], activeGames, roundNum, pick);
        rounds + rest.rounds == full.rounds && rest.winner == full.winner && rest.podium == full.podium
      decreases |activeGames|
    {
      ghost var next;
      var roundInfo, majority;
      roundInfo, majority, next := PlayRound(roundNum, games, activeGames, ballotPoints, ballots, pick);
      if majority.Some? {
        var game := majority.value;
        return Run(rounds + [roundInfo], game, [Placing(1, game, roundInfo.totals[game])]);
      }
      AppendRound(rounds, roundInfo, next.rounds);
      rounds := rounds + [roundInfo];
      activeGames := activeGames - {roundInfo.eliminated};
      roundNum := roundNum + 1;
    }
    var finalRound := PlayFinalRound(roundNum, games, ballots, ballotPoints[..], activeGames, pick);
    return Run(rounds + [finalRound], finalRound.podium[0].game, finalRound.podium);
  }
}
