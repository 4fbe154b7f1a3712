/// `JaxVotingSystem`: the list of games up for the vote, the votes as index
/// rankings into that list, and the outcome of the last tally that reached
/// its final round.
module Jax {
  import opened Ballots
  import opened Rounds
  import opened Tally

  /// The game list holds at most this many games.
  const MaxGames := 15

  /// The game lists `add_game` and `remove_game` keep: no game twice, no
  /// empty name, at most `MaxGames` games.
  ghost predicate GameList(games: seq<Game>)
  {
    Distinct(games) && |games| <= MaxGames && forall i :: 0 <= i < |games| ==> games[i] != ""
  }

  /// The guard of `add_game`: a non-empty name, not on the list yet, and
  /// room for one more.
  predicate Admits(games: seq<Game>, name: Game)
  {
    name != "" && name !in games && |games| < MaxGames
  }

  /// Appending an admitted name keeps a game list a game list, and makes
  /// one of a list that was not only for having been too long before.
  lemma AdmittedKeepsGameList(games: seq<Game>, name: Game)
    requires Admits(games, name)
    ensures GameList(games + [name]) <==> GameList(games)
  {
    var grown := games + [name];
    if GameList(games) {
      forall i, j | 0 <= i < j < |grown| ensures grown[i] != grown[j] {
        if j == |games| {
          assert grown[i] == games[i];
        }
      }
    }
    if GameList(grown) {
      forall i, j | 0 <= i < j < |games| ensures games[i] != games[j] {
        assert games[i] == grown[i] && games[j] == grown[j];
      }
      forall i | 0 <= i < |games| ensures games[i] != "" {
        assert games[i] == grown[i];
      }
    }
  }

  /// `list.remove`: the list without the first occurrence of `name`, and the
  /// list itself when `name` is not on it.
  function RemoveFirst(games: seq<Game>, name: Game): (rest: seq<Game>)
    ensures name in games ==> |rest| == |games| - 1
    ensures name !in games ==> rest == games
  {
    if games == [] then []
    else if games[0] == name then games[1..]
    else [games[0]] + RemoveFirst(games[1..], name)
  }

  /// Removing `name` at its first place `k` leaves the games before and after
  /// it, in order.
  lemma {:induction false} RemoveFirstAt(games: seq<Game>, name: Game, k: nat)
    requires k < |games| && games[k] == name && name !in games[..k]
    ensures RemoveFirst(games, name) == games[..k] + games[k + 1..]
  {
    if k > 0 {
      assert games[0] in games[..k];
      assert name !in games[1..][..k - 1] by {
        assert games[1..][..k - 1] == games[1..k];
      }
      RemoveFirstAt(games[1..], name, k - 1);
      assert games[1..][..k - 1] + games[1..][k..] == games[1..k] + games[k + 1..];
      assert games[..k] == [games[0]] + games[1..k];
    }
  }

  /// Removing drops exactly one copy of `name`, when there is one, and keeps
  /// every other game.
  lemma {:induction false} RemoveFirstMultiset(games: seq<Game>, name: Game)
    ensures multiset(RemoveFirst(games, name)) == multiset(games) - multiset{name}
  {
    if games != [] {
      assert games == [games[0]] + games[1..];
      if games[0] != name {
        RemoveFirstMultiset(games[1..], name);
      }
    }
  }

  /// Removing from a game list leaves a game list without `name`.
  lemma RemoveKeepsGameList(games: seq<Game>, name: Game)
    requires GameList(games)
    ensures GameList(RemoveFirst(games, name)) && name !in RemoveFirst(games, name)
  {
    if name in games {
      var k :| 0 <= k < |games| && games[k] == name;
      assert name !in games[..k] by {
        forall i | 0 <= i < k ensures games[i] != name {
          assert games[i] != games[k];
        }
      }
      RemoveFirstAt(games, name, k);
      DropAt(games, k);
    }
  }

  /// Dropping position `k` of a list without repeats leaves the other
  /// entries, in order, without repeats, and without the dropped one.
  lemma DropAt<T>(s: seq<T>, k: nat)
    requires k < |s| && Distinct(s)
    ensures var r := s[..k] + s[k + 1..];
      && |r| == |s| - 1
      && (forall i :: 0 <= i < |r| ==> r[i] == s[if i < k then i else i + 1])
      && Distinct(r) && s[k] !in r
  {
    var r := s[..k] + s[k + 1..];
    forall i | 0 <= i < |r| ensures r[i] == s[if i < k then i else i + 1] {
    }
    forall i, j | 0 <= i < j < |r| ensures r[i] != r[j] {
      assert r[i] == s[if i < k then i else i + 1] && r[j] == s[if j < k then j else j + 1];
    }
    forall i | 0 <= i < |r| ensures r[i] != s[k] {
      assert r[i] == s[if i < k then i else i + 1];
    }
  }

  class JaxVotingSystem {
    /// The games up for the vote, in the order they were added.
    var games: seq<Game>
    /// One ranking per voter, best first, as indices into `games`.
    var votes: seq<seq<nat>>
    /// The winner of the last tally that reached its final round.
    var winner: Option<Game>
    /// The results of the last tally that reached its final round.
    var roundResults: Option<Outcome>

    /// The game list is one `add_game` and `remove_game` keep.
    ghost predicate Valid()
      reads this
    {
      GameList(games)
    }

    /// A new system: no games, no votes, no results.
    constructor()
      ensures Valid()
      ensures games == [] && votes == [] && winner == None && roundResults == None
    {
      games := [];
      votes := [];
      winner := None;
      roundResults := None;
    }

    /// `add_game`: appends the name when the guard admits it, and reports
    /// whether it did; nothing else changes.
    method AddGame(name: Game) returns (added: bool)
      modifies this
      ensures added <==> Admits(old(games), name)
      ensures games == if added then old(games) + [name] else old(games)
      ensures Valid() <==> old(Valid())
      ensures votes == old(votes) && winner == old(winner) && roundResults == old(roundResults)
    {
      if name != "" && name !in games && |games| < MaxGames {
        AdmittedKeepsGameList(games, name);
        games := games + [name];
        return true;
      }
      return false;
    }

    /// `remove_game`: removes the first occurrence of the name, and reports
    /// whether the name was on the list; nothing else changes.
    method RemoveGame(name: Game) returns (removed: bool)
      modifies this
      ensures removed <==> name in old(games)
      ensures games == RemoveFirst(old(games), name)
      ensures old(Valid()) ==> Valid() && name !in games
      ensures votes == old(votes) && winner == old(winner) && roundResults == old(roundResults)
    {
      if Valid() {
        RemoveKeepsGameList(games, name);
      }
      if name in games {
        games := RemoveFirst(games, name);
        return true;
      }
      return false;
    }

    /// `calculate_jax_method_voting`: the tally of the votes over the games.
    /// A tally that reaches its final round is also kept as the latest
    /// winner and results; an error or an early majority leaves them as they
    /// were.
    method CalculateJaxMethodVoting(pick: seq<Game> -> nat) returns (result: Option<Game>, results: Outcome)
      requires Distinct(games)
      requires forall i :: 0 <= i < |votes| ==> IsIndexRanking(votes[i], |games|)
      modifies this
      ensures games == old(games) && votes == old(votes)
      ensures results == Tally.Tally(games, votes, pick)
      ensures result == if results.Tallied? then Some(results.winner) else None
      ensures if results.Tallied? && |results.rounds| > 0 && results.rounds[|results.rounds| - 1].Final?
        then winner == Some(results.winner) && roundResults == Some(results)
        else winner == old(winner) && roundResults == old(roundResults)
    {
      result, results := TallyVotes(games, votes, pick);
      if results.Tallied? && |results.rounds| > 0 && results.rounds[|results.rounds| - 1].Final? {
        winner := result;
        roundResults := Some(results);
      }
    }
  }
}
