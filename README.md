# Jax Method vote tally

A Dafny model of the tally engine of *Boys Night Vote* (`boys_night_vote_Jax.py`).
The model covers:

- the game list that `JaxVotingSystem.add_game` and `remove_game` keep;
- the Jax Method tally, `calculate_jax_method_voting`;
- the layout helper `ResultsView._wrap_text`, which breaks round explanations into lines.

The tally works like this:

- Each vote is a ranking of indices into the game list. The vote is turned into a ballot of game names.
- The ballot gives the game at rank index `j` exactly `N - j` points, where `N` is the ballot's length.
- While more than three games are active, a round totals the active games' points over all ballots.
- The round stops the tally if one game holds more than 51% of the round's points.
- Otherwise the round eliminates the lowest game. A tie on the lowest total goes to the tie-break:
  - first the count of last places;
  - then, level by level, the count of the places above them;
  - only when the levels run out, a random draw.
- The eliminated game's points on each ballot cascade down that ballot's remaining games:
  - each game takes half of what is left;
  - the cascade stops once the rest falls below 0.001.
- With three or fewer games left, a final round ranks the games by total, highest first. The ranking is the podium; its first place is the winner.

Modules:

- `Ballots` (`ballots.dfy`): games, ballots, point pools, initial points, totals, and set enumeration.
- `TieBreak` (`tiebreak.dfy`): `_break_tie` and `_break_tie_deep`.
- `Redistribution` (`redistribution.dfy`): `_redistribute_points` and the 50% cascade.
- `Rounds` (`rounds.dfy`): `_process_round`, `_process_final_round`, the majority test and the podium ranking.
- `Tally` (`tally.dfy`): the whole run of `calculate_jax_method_voting`.
- `Jax` (`jax.dfy`): the `JaxVotingSystem` class with its game list, votes, winner and round results.
- `ResultsView` (`wrap_text.dfy`): `_wrap_text`.

The source works in two styles, and the model follows each:

- Loops, and pools mutated in place, are methods:
  - the ballot pools are an `array<Points>` that the redistribution modifies;
  - the totals, tie-break counts, cascade and line layout are `while`/`for` loops.
- Each such method is proved equal to a specification function, and the properties are lemmas about those functions:
  - `Tally` and `RunFrom` for the whole tally;
  - `EliminationRound` and `FinalRound` for one round;
  - `BreakTieChoice` and `DeepChoice` for the tie-break;
  - `Shares` and `RedistributeBallot` for the cascade.
- `JaxVotingSystem` is a class whose methods update its fields.

Points are exact `real`s. The random source of the tie-break is a parameter `pick`: a draw among `cs` takes `cs[pick(cs) % |cs|]`.

Four details of the code the model keeps as written:

- The random fallback of `_break_tie_deep` draws from the candidates that level was called with (`random.choice(candidates)`, line 370), rather than from `worst_candidates`, the games still tied at that level.
- The round that finds a majority still records the game it would have eliminated (`_process_round` computes it before the majority test).
- The final round never tests for a majority.
- A tally that ends at a majority returns before `self.winner` and `self.round_results` are set (lines 204-210 against 227-228). So `CalculateJaxMethodVoting` keeps the old winner and results in that case.

## Model

| member | source | states |
|---|---|---|
| Ballots.VoteBallot | boys_night_vote_Jax.py:178 | a vote's ballot names, place by place, the game at the vote's index, so it has one entry per place and only listed games |
| Ballots.VoteBallotIsRanking | boys_night_vote_Jax.py:178 | a complete vote over a game list without repeats converts to a ballot that ranks every game exactly once |
| Ballots.VoteBallotsAreRankings | boys_night_vote_Jax.py:178 | every converted ballot is a full ranking of the games |
| Ballots.IndexRankingCovers | boys_night_vote_Jax.py:178 | a complete vote of n distinct indices below n names every index below n (pigeonhole) |
| Ballots.InitialPoolRanks | boys_night_vote_Jax.py:184-191 | a ballot's initial pool holds exactly its games; the game at rank index j has N - j points, the top game N, the last game 1, every game between 1 and N |
| Ballots.InitialPool | boys_night_vote_Jax.py:184-191 | defines a ballot's starting pool, place by place; `InitialPoolRanks` states its contents |
| Ballots.InitialBallotPoints | boys_night_vote_Jax.py:185-191 | the place-by-place loop builds exactly the initial pool of the ballot |
| Ballots.InitialPoolsOk | boys_night_vote_Jax.py:184-197 | the initial pools hold every game of the list, each with at least one point, which is the invariant the rounds keep |
| Ballots.TotalsOf | boys_night_vote_Jax.py:235-239 | the round totals hold exactly the active games, each with its points summed over all pools |
| Ballots.GameTotalAtLeast | boys_night_vote_Jax.py:235-239 | under that invariant an active game totals at least one point per ballot |
| Ballots.RoundTotalPositive | boys_night_vote_Jax.py:252-253 | the round total over the active games is at least their number, so the percentage division is defined |
| Ballots.MembersInOrder | boys_night_vote_Jax.py:296 | enumerating the games of a list that lie in a set keeps the list's order: a game enumerated earlier stands earlier in the list |
| Ballots.MembersEnumerates | boys_night_vote_Jax.py:260 | enumerating a set of listed games visits each of them exactly once |
| TieBreak.TiedOn | boys_night_vote_Jax.py:316-317 | the tied games on a ballot are exactly its games that are candidates and still active |
| TieBreak.TiedInBallotOrder | boys_night_vote_Jax.py:316-317 | the tied games are listed in the ballot's order, best placed first |
| TieBreak.NthWorst | boys_night_vote_Jax.py:313-320 | the game a ballot places `depth` places above its worst tied active game, when there is one, is a candidate, active and on the ballot |
| TieBreak.PlaceCount | boys_night_vote_Jax.py:311-323 | a candidate's count of ballots placing it at the given depth is at most the number of ballots |
| TieBreak.PlaceCounts | boys_night_vote_Jax.py:309 | the counts hold exactly one entry per candidate |
| TieBreak.Resolve | boys_night_vote_Jax.py:370 | a decided tie-break gives its game; a draw gives one of the games drawn among, whatever the random source returns |
| TieBreak.MaxCount | boys_night_vote_Jax.py:326 | the maximum is the count of some candidate and no candidate's count exceeds it |
| TieBreak.WithCount | boys_night_vote_Jax.py:327 | a candidate is kept exactly when its count equals the given count |
| TieBreak.MostPlaced | boys_night_vote_Jax.py:326-327 | the candidates with the most counts form a non-empty sub-list of the candidates |
| TieBreak.MostPlacedUnique | boys_night_vote_Jax.py:326-330 | a candidate with strictly the most counts is the only one kept |
| TieBreak.BreakTieChoice | boys_night_vote_Jax.py:307-333 | the tie-break settles on one of the tied games, or on a draw among at least two of them once the depth reaches their number |
| TieBreak.DeepChoice | boys_night_vote_Jax.py:335-370 | each deeper level settles on a candidate, or draws among two or more candidates only when the depth is at least their number |
| TieBreak.BreakTieIsCandidate | boys_night_vote_Jax.py:307-370 | whatever the random source returns, the game the tie-break eliminates is one of the tied games |
| TieBreak.MostLastPlacesDecides | boys_night_vote_Jax.py:309-330 | a tied game with strictly the most last places is eliminated without going deeper |
| TieBreak.MostPlacesAtDepthDecides | boys_night_vote_Jax.py:341-363 | at a deeper level, strictly the most counts at that depth decides the tie-break |
| TieBreak.BreakTie | boys_night_vote_Jax.py:307-333 | `_break_tie` returns the tie-break's choice, resolved by the random source when it is a draw |
| TieBreak.BreakTieDeep | boys_night_vote_Jax.py:335-370 | `_break_tie_deep`, with its recursion run as a loop, returns the deep choice from the given depth, resolved by the random source |
| TieBreak.LastPlaceCounts | boys_night_vote_Jax.py:309-323 | the loop over ballots counts, for each candidate, the ballots whose worst-placed tied active game it is, skipping an empty-named game |
| TieBreak.WorstTied | boys_night_vote_Jax.py:313-320 | the highest-rank scan finds the tied active game the ballot places worst, or none |
| TieBreak.PlaceCountsAt | boys_night_vote_Jax.py:341-356 | the loop counts, for each candidate, the ballots on which it is `depth` places above the worst-placed tied game |
| TieBreak.CountBallotAt | boys_night_vote_Jax.py:343-356 | one ballot adds one to the count of the game it places `depth` places above its worst tied game, and leaves every other count as it was |
| TieBreak.TiedPositions | boys_night_vote_Jax.py:345-348 | the collected (rank, game) pairs are the tied active games of the ballot, best first, each with its rank on the ballot, in strictly increasing rank |
| Redistribution.Survivors | boys_night_vote_Jax.py:296 | the survivors are exactly the ballot's games that are active and not the eliminated game |
| Redistribution.SurvivorsInBallotOrder | boys_night_vote_Jax.py:294-296 | the survivors are listed in the ballot's order, best placed first |
| Redistribution.Shares | boys_night_vote_Jax.py:299-305 | the cascade makes at most one allocation per survivor |
| Redistribution.CascadeShape | boys_night_vote_Jax.py:299-305 | at least one allocation when there is a survivor; the allocations plus the abandoned rest equal the pool exactly; the cascade ends with the survivors served or with less than 0.001 left |
| Redistribution.CascadeHalves | boys_night_vote_Jax.py:299-305 | every allocation is half of what the earlier allocations left of the pool, and the cascade goes on to the next survivor only while at least 0.001 is left |
| Redistribution.CascadeNonNegative | boys_night_vote_Jax.py:299-305 | a non-negative pool is never allocated or abandoned in negative amounts |
| Redistribution.SharesStep | boys_night_vote_Jax.py:299-305 | the first survivor takes half the pool, and the cascade stops or goes on with the other half |
| Redistribution.RedistributeBallot | boys_night_vote_Jax.py:286-305 | defines one ballot's pool after an elimination; `RedistributionSkips`, `RedistributionTargets` and `RedistributionConserves` state what it does |
| Redistribution.Abandoned | boys_night_vote_Jax.py:299-305 | defines the part of the eliminated game's points the cascade leaves unallocated; `RedistributionConserves` states that it closes the balance |
| Redistribution.Redistributed | boys_night_vote_Jax.py:284-305 | every ballot's pool after an elimination, one pool per ballot |
| Redistribution.RedistributionConserves | boys_night_vote_Jax.py:286-305 | on a ballot that ranks the eliminated game, the points after redistribution plus the abandoned rest equal the points before |
| Redistribution.RedistributionSkips | boys_night_vote_Jax.py:287-288 | a pool without the eliminated game is left as it is |
| Redistribution.RedistributionTargets | boys_night_vote_Jax.py:290-305 | the eliminated game's entry is deleted; the i-th survivor gains the i-th allocation; every other game keeps its points; no other entry disappears |
| Redistribution.RedistributedPoolsOk | boys_night_vote_Jax.py:284-305 | after the redistribution every pool holds exactly the remaining active games, each with at least one point |
| Redistribution.RedistributePoints | boys_night_vote_Jax.py:284-305 | the in-place loop over the pools array leaves every pool redistributed and nothing else changed |
| Redistribution.CascadeBallot | boys_night_vote_Jax.py:290-305 | deleting the entry and cascading down the survivors gives the redistributed pool of that ballot |
| Redistribution.CascadeStep | boys_night_vote_Jax.py:299-305 | one turn of the cascade loop takes the next allocation of the cascade and either ends it or leaves the cascade of the rest |
| Redistribution.CascadeKeys | boys_night_vote_Jax.py:291-301 | after the entry is deleted and the cascade has run, the pool holds the other games it held plus the survivors served, and never the eliminated game |
| Redistribution.CascadeValues | boys_night_vote_Jax.py:299-301 | the k-th survivor gains exactly the k-th allocation when the cascade reached it and nothing otherwise; every other game except the eliminated one keeps its points |
| Redistribution.CascadeTurn | boys_night_vote_Jax.py:299-305 | one turn of the cascade loop adds the next allocation to the next survivor; when less than 0.001 is left that was the cascade's last allocation, otherwise what is left cascades exactly as the rest of the cascade |
| Redistribution.CascadeDown | boys_night_vote_Jax.py:299-305 | the cascade loop adds exactly the cascade's allocations to the survivors in ballot order |
| Rounds.EliminationRound | boys_night_vote_Jax.py:232-261 | an elimination round, recording the totals, percentages, the game to eliminate and the active games; `EliminatedIsLowest` and `PercentagesSumTo100` state its properties |
| Rounds.FinalRound | boys_night_vote_Jax.py:263-282 | a final round, recording the totals and the podium; `FinalPodium` states its properties |
| Rounds.Percentages | boys_night_vote_Jax.py:252-253 | each game with a total gets a percentage, and no other game does |
| Rounds.MinTotal | boys_night_vote_Jax.py:242 | the minimum is some game's total and no game's total is below it |
| Rounds.WithTotal | boys_night_vote_Jax.py:243 | a game is a candidate for elimination exactly when its total equals the minimum |
| Rounds.EliminatedIsLowest | boys_night_vote_Jax.py:241-249 | the eliminated game is active and no active game has a lower total |
| Rounds.UniqueLowestEliminated | boys_night_vote_Jax.py:242-249 | a game alone on the lowest total is eliminated, whatever the random source returns |
| Rounds.SingleLowest | boys_night_vote_Jax.py:242-243 | a game alone on the lowest total is the only candidate for elimination |
| Rounds.SumOverScaled | boys_night_vote_Jax.py:253 | scaling every total to percent of the round total scales their sum the same way |
| Rounds.PercentagesOfTotal | boys_night_vote_Jax.py:251-253 | percentages of a non-zero total add up to 100 |
| Rounds.PercentagesSumTo100 | boys_night_vote_Jax.py:251-253 | the percentages of a round add up to 100 over the active games |
| Rounds.MajorityOf | boys_night_vote_Jax.py:205-210 | a game is found only when its total exceeds 51% of the round total; none is found only when no total does |
| Rounds.MajorityIsUnique | boys_night_vote_Jax.py:205-210 | with no negative totals at most one game can exceed 51%, so the order of the scan does not change the result |
| Rounds.FindMajority | boys_night_vote_Jax.py:205-210 | the scan returns the first game in enumeration order above 51% of the round total |
| Rounds.InsertByScore | boys_night_vote_Jax.py:272 | inserting into the ranking adds exactly that entry |
| Rounds.RankedByScore | boys_night_vote_Jax.py:272 | the ranking is a permutation of the entries |
| Rounds.InsertByScoreSorted | boys_night_vote_Jax.py:272 | inserting keeps a ranking highest first, and the new head is the entry or the old head |
| Rounds.RankedByScoreSorted | boys_night_vote_Jax.py:272 | the ranking is ordered by score, highest first |
| Rounds.InsertByScoreStable | boys_night_vote_Jax.py:272 | inserting puts the entry ahead of the entries with its own score and leaves their order as it was |
| Rounds.RankedByScoreStable | boys_night_vote_Jax.py:272 | the ranking is stable: entries with equal scores keep their order |
| Rounds.RankedHead | boys_night_vote_Jax.py:272-275 | the head of a ranking is one of the entries and no entry scores more |
| Rounds.PodiumOfRanking | boys_night_vote_Jax.py:271-275 | the podium has positions 1, 2, 3, ..., scores highest first, and each entry once |
| Rounds.FinalPodium | boys_night_vote_Jax.py:263-282 | the final podium places each active game once with its round total, positions 1, 2, 3, ..., highest first |
| Rounds.GameTotals | boys_night_vote_Jax.py:235-239 | the loop over the ballots adds up each active game's points over all pools |
| Rounds.AddBallotPoints | boys_night_vote_Jax.py:236-239 | adding one ballot adds its points for each active game, whatever order its entries are visited in |
| Rounds.ProcessRound | boys_night_vote_Jax.py:232-261 | `_process_round` records the totals, the percentages, the game to eliminate and the active games of the elimination round |
| Rounds.ProcessFinalRound | boys_night_vote_Jax.py:263-282 | `_process_final_round` records the totals and the podium of the final round |
| Tally.RunFrom | boys_night_vote_Jax.py:196-225 | the rounds from a given round on hold at least one round, and the first of them carries that round's number |
| Tally.Tally | boys_night_vote_Jax.py:160-230 | the tally fails exactly when there are no games or no votes |
| Tally.EliminationStep | boys_night_vote_Jax.py:200-219 | a round without a majority eliminates an active game, and the redistributed pools satisfy the invariant with one game fewer |
| Tally.RoundTotalNonZero | boys_night_vote_Jax.py:205 | under the invariant every round total is positive |
| Tally.RunLength | boys_night_vote_Jax.py:200-225 | a tally plays at least one round and at most games - 2 rounds (one when three or fewer games remain), so the loop ends |
| Tally.RunNumbered | boys_night_vote_Jax.py:198-219 | the rounds are numbered 1, 2, 3, ... and every round but the last is an elimination round |
| Tally.RunWinner | boys_night_vote_Jax.py:222-225 | the podium is not empty, its first place has position 1 and is the winner, and the winner is an active game |
| Tally.RunEliminates | boys_night_vote_Jax.py:212-217 | the first round lists the active games, each round but the last eliminates a game it lists, and the next round lists the same games without it |
| Tally.RunEnds | boys_night_vote_Jax.py:204-225 | a tally ends either with the final round over at most three games, headed by the highest total, or with a round in which the winner holds more than 51% and is alone on the podium |
| Tally.FinalWinnerHighest | boys_night_vote_Jax.py:222-225 | the winner of the final round has the highest total of that round |
| Tally.RunFromMajority | boys_night_vote_Jax.py:204-210 | a round that finds a majority ends the tally, with that game alone on the podium with its total |
| Tally.RunFromElimination | boys_night_vote_Jax.py:212-219 | a round without a majority is followed by the tally of the redistributed pools without the eliminated game |
| Tally.RunFromFinal | boys_night_vote_Jax.py:221-225 | the final round ends the tally, and its first place is the winner |
| Tally.TallyWinner | boys_night_vote_Jax.py:160-230 | the tally fails exactly when there are no games or no votes; otherwise it records the numbers of games and votes, has one to games - 2 rounds numbered from 1, and its winner heads the podium and is one of the games |
| Tally.InitialPoints | boys_night_vote_Jax.py:181-191 | the new pools array holds every ballot's initial pool |
| Tally.TallyVotes | boys_night_vote_Jax.py:160-230 | the method computes the tally, and returns its winner exactly when the tally does not fail |
| Tally.PlayRound | boys_night_vote_Jax.py:200-219 | one pass of the loop either finds a majority and ends the tally, or eliminates an active game and leaves in the array exactly the pools redistributed away from it, keeping the invariant |
| Tally.PlayFinalRound | boys_night_vote_Jax.py:221-225 | the round after the loop ends the tally with a non-empty podium headed by the winner |
| Tally.PlayRounds | boys_night_vote_Jax.py:196-225 | the loop plus the final round produce exactly the tally's rounds, winner and podium |
| Jax.GameList | boys_night_vote_Jax.py:38-50 | defines the lists `add_game` and `remove_game` keep: no game twice, no empty name, at most 15 games; `AdmittedKeepsGameList` and `RemoveKeepsGameList` state that both keep them |
| Jax.Admits | boys_night_vote_Jax.py:39 | defines the guard of `add_game`; `AddGame` states that a name is appended exactly when it holds |
| Jax.AdmittedKeepsGameList | boys_night_vote_Jax.py:38-42 | appending an admitted name keeps the list without repeats, without empty names and within 15 games |
| Jax.RemoveFirst | boys_night_vote_Jax.py:46 | removing a listed name shortens the list by one; an unlisted name leaves it as it is |
| Jax.RemoveFirstAt | boys_night_vote_Jax.py:46 | `list.remove` deletes the first occurrence and keeps the games before and after it in order |
| Jax.RemoveFirstMultiset | boys_night_vote_Jax.py:46 | removing drops exactly one copy of the name, when there is one, and keeps every other game |
| Jax.RemoveKeepsGameList | boys_night_vote_Jax.py:44-50 | removing from a valid game list leaves a valid game list without that name |
| Jax.JaxVotingSystem.constructor | boys_night_vote_Jax.py:19-36 | a new system has no games, no votes, no winner and no results |
| Jax.JaxVotingSystem.AddGame | boys_night_vote_Jax.py:38-42 | the name is appended exactly when it is non-empty, not yet listed and the list has fewer than 15 games; the result says whether it was; validity is kept; nothing else changes |
| Jax.JaxVotingSystem.RemoveGame | boys_night_vote_Jax.py:44-50 | the first occurrence is removed; the result says whether the name was listed; a valid list stays valid and loses the name; nothing else changes |
| Jax.JaxVotingSystem.CalculateJaxMethodVoting | boys_night_vote_Jax.py:160-230 | returns the tally and its winner; the winner and results are stored only when the tally reached its final round; games and votes are unchanged |
| ResultsView.WordLength | boys_night_vote_Jax.py:1132 | the length of the leading word: no whitespace before it, and whitespace or the end of the text after it |
| ResultsView.Words | boys_night_vote_Jax.py:1132 | `str.split()` yields only non-empty words without whitespace |
| ResultsView.SplitJoin | boys_night_vote_Jax.py:1132 | splitting words joined by single spaces gives the words back |
| ResultsView.WidthIsProduct | boys_night_vote_Jax.py:1139 | the estimated width is characters times character width |
| ResultsView.LastLine | boys_night_vote_Jax.py:1146-1147 | closing the open line, when it is not empty, completes a layout of all the words |
| ResultsView.FinishedLayout | boys_night_vote_Jax.py:1130-1149 | a completed layout has non-empty lines that split back into the words; a line of two or more words has length times character width at most the maximum width; each line's successor starts with a word that would have pushed it past the maximum width |
| ResultsView.ProductForm | boys_night_vote_Jax.py:1139 | the fit and greediness of the layout, stated with the width as length times character width |
| ResultsView.StartLine | boys_night_vote_Jax.py:1139-1142 | a word that does not fit closes the open line, when there is one, and starts the next, keeping the layout invariant |
| ResultsView.ExtendLine | boys_night_vote_Jax.py:1143-1144 | a word that fits joins the open line after one space, keeping the layout invariant |
| ResultsView.PlaceWord | boys_night_vote_Jax.py:1137-1144 | one pass of the loop places the next word and keeps the layout invariant |
| ResultsView.LayWords | boys_night_vote_Jax.py:1136-1144 | the loop places every word, with the last line still open |
| ResultsView.WrapText | boys_night_vote_Jax.py:1130-1149 | the lines are the words of the text in order, each line a non-empty group of words joined by single spaces, so the lines split back into the words; a line of two or more words, at its length times the character width, is at most the maximum width; each line is as long as it can be: adding a space and the next line's first word would take it past the maximum width |

## Left out

- The Tkinter interface is not modelled: the views, the controller, drag and drop, animations, message boxes and fullscreen handling. It is presentation only.
- The PIL icon rendering is not modelled (`create_game_icon`, `_wrap_text` of the drawing helper at line 107, `_draw_*`). It draws images.
- `save_results` and the CSV writer are not modelled. They write files.
- The `random.shuffle` of the voting screen is not modelled. `random.choice` is the parameter `pick`.
- Floating point is not modelled: points are exact reals, so rounding in the cascade and in the 51% test is not captured.
- Dictionary and set order is a choice of the model. Python leaves the order of `set(self.games)` unspecified. Where the source iterates the active set or the totals, the model enumerates the active games in game-list order. Three things depend on it:
  - the order of equal scores on the podium;
  - the list a random draw is taken from;
  - the order of each round's `active_games` list (`list(active_games)`, lines 260 and 281): the model records `Round.active` in game-list order.
- The debug strings and the metadata "method" text are not modelled: `initial_points_distribution` and the per-ballot descriptions.
- `submit_vote` is not modelled. It records only complete rankings (lines 1770-1775). The model requires each stored vote to be a complete index ranking, and `CalculateJaxMethodVoting` requires a game list without repeats, which `add_game` guarantees.
- The other `JaxVotingSystem` fields are not modelled: voter names, current voter, ranked games, game images, colours, `eliminated_points`, `original_game_order`, `num_voters`. The core never reads them. `remove_game` deleting the game's image is left out for the same reason.
- `show_results` storing the winner again is not modelled (lines 1785-1790). It is controller code.
- Text encoding and Unicode properties are not modelled. Whitespace for `str.split()` is the fixed set of characters Python treats as whitespace, listed in `ResultsView.IsSpace`.
