/// Games, ballots and point pools of the Jax Method tally, with the sums the
/// tally takes over them.
module Ballots {

  /// A game is known by its name.
  type Game = string

  /// One voter's ranking, best first.
  type Ballot = seq<Game>

  /// One ballot's point pool: the points the ballot currently gives each game.
  type Points = map<Game, real>

  datatype Option<T> = None | Some(value: T)

  predicate Distinct<T(==)>(s: seq<T>)
  {
    forall i, j :: 0 <= i < j < |s| ==> s[i] != s[j]
  }

  /// `b` ranks every game of `games` exactly once.
  predicate IsRanking(b: Ballot, games: seq<Game>)
  {
    |b| == |games| && Distinct(b) && (forall g :: g in b ==> g in games) && (forall g :: g in games ==> g in b)
  }

  /// A vote as the voting screen records it: for each place, best first, the
  /// index of the game in the game list. A complete vote names each of the
  /// `n` indices once.
  predicate IsIndexRanking(v: seq<nat>, n: nat)
  {
    |v| == n && Distinct(v) && forall k :: 0 <= k < |v| ==> v[k] < n
  }

  /// The ballot a vote stands for: its indices turned into game names.
  function VoteBallot(games: seq<Game>, v: seq<nat>): (b: Ballot)
    requires forall k :: 0 <= k < |v| ==> v[k] < |games|
    ensures |b| == |v| && forall g :: g in b ==> g in games
  {
    seq(|v|, k requires 0 <= k < |v| => games[v[k]])
  }

  function VoteBallots(games: seq<Game>, votes: seq<seq<nat>>): (ballots: seq<Ballot>)
    requires forall i :: 0 <= i < |votes| ==> IsIndexRanking(votes[i], |games|)
    ensures |ballots| == |votes|
  {
    seq(|votes|, i requires 0 <= i < |votes| && IsIndexRanking(votes[i], |games|) => VoteBallot(games, votes[i]))
  }

  /// The indices below `n`.
  function Below(n: nat): (s: set<nat>)
    ensures |s| == n
    ensures forall i: nat :: i in s <==> i < n
  {
    if n == 0 then {} else Below(n - 1) + {n - 1}
  }

  lemma {:induction false} DistinctCardinality<T>(s: seq<T>)
    requires Distinct(s)
    ensures |set x | x in s| == |s|
  {
    if s != [] {
      var t := s[..|s| - 1];
      DistinctCardinality(t);
      assert (set x | x in s) == (set x | x in t) + {s[|s| - 1]};
      assert s[|s| - 1] !in t;
    }
  }

  lemma SubsetCardinality<T>(a: set<T>, b: set<T>)
    requires a <= b
    ensures a != b ==> |a| < |b|
  {
    if a != b {
      assert exists x :: x in b && x !in a;
      var x :| x in b && x !in a;
      if a != b - {x} {
        SubsetCardinality(a, b - {x});
      }
    }
  }

  /// Pigeonhole: `n` distinct indices below `n` name every index below `n`.
  lemma IndexRankingCovers(v: seq<nat>, n: nat)
    requires IsIndexRanking(v, n)
    ensures forall i: nat :: i < n ==> i in v
  {
    var named := set x | x in v;
    DistinctCardinality(v);
    assert named <= Below(n);
    SubsetCardinality(named, Below(n));
    assert named == Below(n);
    forall i: nat | i < n ensures i in v {
      assert i in Below(n);
    }
  }

  /// A complete vote over a duplicate-free game list converts to a ranking of
  /// all the games.
  lemma VoteBallotIsRanking(games: seq<Game>, v: seq<nat>)
    requires Distinct(games) && IsIndexRanking(v, |games|)
    ensures IsRanking(VoteBallot(games, v), games)
  {
    var b := VoteBallot(games, v);
    IndexRankingCovers(v, |games|);
    forall g | g in games ensures g in b {
      var i :| 0 <= i < |games| && games[i] == g;
      assert i in v;
      var k :| 0 <= k < |v| && v[k] == i;
      assert b[k] == g;
    }
  }

  lemma VoteBallotsAreRankings(games: seq<Game>, votes: seq<seq<nat>>)
    requires Distinct(games)
    requires forall i :: 0 <= i < |votes| ==> IsIndexRanking(votes[i], |games|)
    ensures forall i :: 0 <= i < |votes| ==> IsRanking(VoteBallots(games, votes)[i], games)
  {
    forall i | 0 <= i < |votes| ensures IsRanking(VoteBallots(games, votes)[i], games) {
      VoteBallotIsRanking(games, votes[i]);
    }
  }

  /// The pool after the first `k` places of `b` have been scored: the game at
  /// rank index j gets |b| - j points (a later place overwrites an earlier one).
  function PoolUpTo(b: Ballot, k: nat): Points
    requires k <= |b|
  {
    if k == 0 then map[] else PoolUpTo(b, k - 1)[b[k - 1] := (|b| - (k - 1)) as real]
  }

  /// The pool a ballot starts the tally with.
  function InitialPool(b: Ballot): Points
  {
    PoolUpTo(b, |b|)
  }

  function InitialPools(ballots: seq<Ballot>): (pools: seq<Points>)
    ensures |pools| == |ballots|
  {
    seq(|ballots|, i requires 0 <= i < |ballots| => InitialPool(ballots[i]))
  }

  lemma {:induction false} PoolUpToRanks(b: Ballot, k: nat)
    requires Distinct(b) && k <= |b|
    ensures PoolUpTo(b, k).Keys == set g | g in b[..k]
    ensures forall j :: 0 <= j < k ==> PoolUpTo(b, k)[b[j]] == (|b| - j) as real
  {
    if k > 0 {
      PoolUpToRanks(b, k - 1);
      assert b[..k] == b[..k - 1] + [b[k - 1]];
    }
  }

  /// On a ballot of length N the game at rank index j starts with N - j
  /// points: the top game N, the last game 1, every game between 1 and N.
  lemma InitialPoolRanks(b: Ballot)
    requires Distinct(b)
    ensures InitialPool(b).Keys == set g | g in b
    ensures forall j :: 0 <= j < |b| ==> InitialPool(b)[b[j]] == (|b| - j) as real
    ensures |b| > 0 ==> InitialPool(b)[b[0]] == |b| as real && InitialPool(b)[b[|b| - 1]] == 1.0
    ensures forall g :: g in InitialPool(b) ==> 1.0 <= InitialPool(b)[g] <= |b| as real
  {
    PoolUpToRanks(b, |b|);
    assert b[..|b|] == b;
    forall g | g in InitialPool(b) ensures 1.0 <= InitialPool(b)[g] <= |b| as real {
      var j :| 0 <= j < |b| && b[j] == g;
    }
  }

  /// Scores one ballot: the loop that fills its pool place by place.
  method InitialBallotPoints(b: Ballot) returns (p: Points)
    ensures p == InitialPool(b)
  {
    p := map[];
    for j := 0 to |b|
      invariant p == PoolUpTo(b, j)
    {
      p := p[b[j] := (|b| - j) as real];
    }
  }

  /// Points pool `p` gives game `g`; none counts as 0.
  function Get(p: Points, g: Game): real
  {
    if g in p then p[g] else 0.0
  }

  /// A game's points summed over the pools of all ballots.
  function GameTotal(pools: seq<Points>, g: Game): real
  {
    if pools == [] then 0.0 else GameTotal(pools[..|pools| - 1], g) + Get(pools[|pools| - 1], g)
  }

  /// The round totals: each active game's points over all ballots.
  function TotalsOf(pools: seq<Points>, active: set<Game>): (totals: map<Game, real>)
    ensures totals.Keys == active
  {
    map g | g in active :: GameTotal(pools, g)
  }

  /// The sum of `m` over the games of `order`.
  function SumOver(order: seq<Game>, m: map<Game, real>): real
    requires forall g :: g in order ==> g in m
  {
    if order == [] then 0.0 else SumOver(order[..|order| - 1], m) + m[order[|order| - 1]]
  }

  /// The games of `order` that are in `s`, in the order of `order`. The model
  /// enumerates a set of games this way, with the game list as `order`.
  function Members(order: seq<Game>, s: set<Game>): (m: seq<Game>)
    ensures forall g :: g in m <==> g in order && g in s
    ensures |m| <= |order|
  {
    if order == [] then []
    else Members(order[..|order| - 1], s) + (if order[|order| - 1] in s then [order[|order| - 1]] else [])
  }

  /// `x` comes before `y` in `order`.
  predicate Before(order: seq<Game>, x: Game, y: Game)
  {
    exists a, z :: 0 <= a < z < |order| && order[a] == x && order[z] == y
  }

  /// Enumeration keeps the order of `order`: a game listed earlier comes
  /// earlier in `order` too.
  lemma {:induction false} MembersInOrder(order: seq<Game>, s: set<Game>)
    ensures forall i, j :: 0 <= i < j < |Members(order, s)| ==> Before(order, Members(order, s)[i], Members(order, s)[j])
  {
    if order != [] {
      var t, last := order[..|order| - 1], order[|order| - 1];
      MembersInOrder(t, s);
      var m, mt := Members(order, s), Members(t, s);
      forall i, j | 0 <= i < j < |m| ensures Before(order, m[i], m[j]) {
        assert m[i] == mt[i];
        if j < |mt| {
          assert m[j] == mt[j];
          var a, z :| 0 <= a < z < |t| && t[a] == mt[i] && t[z] == mt[j];
          assert order[a] == t[a] && order[z] == t[z];
        } else {
          assert m[j] == last;
          assert mt[i] in t;
          var a :| 0 <= a < |t| && t[a] == mt[i];
          assert order[a] == t[a];
        }
      }
    }
  }

  lemma {:induction false} MembersDistinct(order: seq<Game>, s: set<Game>)
    requires Distinct(order)
    ensures Distinct(Members(order, s))
  {
    if order != [] {
      var t := order[..|order| - 1];
      MembersDistinct(t, s);
      assert order[|order| - 1] !in t;
    }
  }

  /// Enumerating a set that lies inside a duplicate-free list visits each of
  /// its games exactly once.
  lemma MembersEnumerates(order: seq<Game>, s: set<Game>)
    requires Distinct(order) && s <= set g | g in order
    ensures Distinct(Members(order, s)) && |Members(order, s)| == |s|
  {
    MembersDistinct(order, s);
    DistinctCardinality(Members(order, s));
    assert (set g | g in Members(order, s)) == s;
  }

  /// The tally's invariant on the pools: each pool holds exactly the active
  /// games, and each of them with at least one point.
  ghost predicate PoolsOk(pools: seq<Points>, active: set<Game>)
  {
    forall i :: 0 <= i < |pools| ==> pools[i].Keys == active && forall g :: g in active ==> pools[i][g] >= 1.0
  }

  lemma {:induction false} GameTotalAtLeast(pools: seq<Points>, active: set<Game>, g: Game)
    requires PoolsOk(pools, active) && g in active
    ensures GameTotal(pools, g) >= |pools| as real
  {
    if pools != [] {
      GameTotalAtLeast(pools[..|pools| - 1], active, g);
    }
  }

  /// The scores are at least one point per ballot, so the round total over
  /// any non-empty list of active games is positive.
  lemma {:induction false} RoundTotalPositive(order: seq<Game>, pools: seq<Points>, active: set<Game>)
    requires PoolsOk(pools, active) && |pools| > 0
    requires forall g :: g in order ==> g in active
    ensures SumOver(order, TotalsOf(pools, active)) >= |order| as real
  {
    if order != [] {
      RoundTotalPositive(order[..|order| - 1], pools, active);
      GameTotalAtLeast(pools, active, order[|order| - 1]);
    }
  }

  /// The pools a run starts with satisfy the tally's invariant.
  lemma InitialPoolsOk(games: seq<Game>, ballots: seq<Ballot>)
    requires forall i :: 0 <= i < |ballots| ==> IsRanking(ballots[i], games)
    ensures PoolsOk(InitialPools(ballots), set g | g in games)
  {
    forall i | 0 <= i < |ballots|
      ensures InitialPools(ballots)[i].Keys == (set g | g in games)
      ensures forall g :: g in games ==> InitialPools(ballots)[i][g] >= 1.0
    {
      InitialPoolRanks(ballots[i]);
    }
  }
}
