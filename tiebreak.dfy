/// The tie-break for the elimination: among games tied on the lowest total,
/// the one the ballots place last most often goes; if that ties too, the
/// count moves up one place at a time, and only when the places run out is the
/// tie drawn at random.
module TieBreak {
  import opened Ballots

  /// The tied games still active, as ballot `b` ranks them, best first.
  function TiedOn(b: Ballot, cs: seq<Game>, active: set<Game>): (t: seq<Game>)
    ensures forall g :: g in t <==> g in b && g in cs && g in active
  {
    Members(b, (set c | c in cs) * active)
  }

  /// The tied games come in the ballot's order, best first, so the last of
  /// them is the worst-placed.
  lemma TiedInBallotOrder(b: Ballot, cs: seq<Game>, active: set<Game>)
    ensures forall i, j :: 0 <= i < j < |TiedOn(b, cs, active)| ==> Before(b, TiedOn(b, cs, active)[i], TiedOn(b, cs, active)[j])
  {
    MembersInOrder(b, (set c | c in cs) * active);
  }

  /// The tied game `depth` places above the worst-placed one on `b` (depth 0
  /// is the worst-placed), when `b` ranks that many of them.
  function NthWorst(b: Ballot, cs: seq<Game>, active: set<Game>, depth: nat): (w: Option<Game>)
    ensures w.Some? ==> w.value in b && w.value in cs && w.value in active
  {
    var t := TiedOn(b, cs, active);
    if depth < |t| then Some(t[|t| - 1 - depth]) else None
  }

  /// Whether ballot `b` counts one against `c` at this depth. At the
  /// last-place level a game with an empty name is not counted, since the
  /// source tests the name it found for truth.
  predicate CountsAgainst(b: Ballot, cs: seq<Game>, active: set<Game>, depth: nat, lastPlace: bool, c: Game)
  {
    NthWorst(b, cs, active, depth) == Some(c) && (!lastPlace || c != "")
  }

  /// How many ballots count against `c` at this depth.
  function PlaceCount(ballots: seq<Ballot>, cs: seq<Game>, active: set<Game>, depth: nat, lastPlace: bool, c: Game): (n: nat)
    ensures n <= |ballots|
  {
    if ballots == [] then 0
    else
      PlaceCount(ballots[..|ballots| - 1], cs, active, depth, lastPlace, c)
      + (if CountsAgainst(ballots[|ballots| - 1], cs, active, depth, lastPlace, c) then 1 else 0)
  }

  /// The count of every candidate at this depth.
  function PlaceCounts(ballots: seq<Ballot>, cs: seq<Game>, active: set<Game>, depth: nat, lastPlace: bool): (counts: map<Game, nat>)
    ensures counts.Keys == set c | c in cs
  {
    map c | c in cs :: PlaceCount(ballots, cs, active, depth, lastPlace, c)
  }

  /// The highest count any candidate has.
  function MaxCount(cs: seq<Game>, counts: map<Game, nat>): (m: nat)
    requires |cs| > 0 && forall c :: c in cs ==> c in counts
    ensures forall c :: c in cs ==> counts[c] <= m
    ensures exists c :: c in cs && counts[c] == m
  {
    if |cs| == 1 then counts[cs[0]]
    else
      var m := MaxCount(cs[..|cs| - 1], counts);
      assert forall c :: c in cs[..|cs| - 1] ==> c in cs;
      if counts[cs[|cs| - 1]] > m then counts[cs[|cs| - 1]] else m
  }

  /// The candidates whose count is `m`, in candidate order.
  function WithCount(cs: seq<Game>, counts: map<Game, nat>, m: nat): (w: seq<Game>)
    requires forall c :: c in cs ==> c in counts
    ensures forall c :: c in w <==> c in cs && counts[c] == m
    ensures |w| <= |cs|
  {
    if cs == [] then []
    else
      var last := cs[|cs| - 1];
      WithCount(cs[..|cs| - 1], counts, m) + (if counts[last] == m then [last] else [])
  }

  /// The candidates with the highest count at this depth.
  function MostPlaced(ballots: seq<Ballot>, cs: seq<Game>, active: set<Game>, depth: nat, lastPlace: bool): (w: seq<Game>)
    requires |cs| > 0
    ensures 0 < |w| <= |cs|
    ensures forall c :: c in w ==> c in cs
  {
    var counts := PlaceCounts(ballots, cs, active, depth, lastPlace);
    WithCount(cs, counts, MaxCount(cs, counts))
  }

  /// What a tie-break settles on before any randomness: a game, or a draw
  /// among the candidates left at the depth where the places ran out.
  datatype TieChoice = Decided(game: Game) | Drawn(among: seq<Game>, depth: nat)

  /// The tie-break among `cs`: most last places first, then the deeper levels.
  function BreakTieChoice(cs: seq<Game>, ballots: seq<Ballot>, active: set<Game>): (ch: TieChoice)
    requires |cs| > 0
    ensures ch.Decided? ==> ch.game in cs
    ensures ch.Drawn? ==> 2 <= |ch.among| <= ch.depth && forall g :: g in ch.among ==> g in cs
  {
    var w := MostPlaced(ballots, cs, active, 0, true);
    if |w| == 1 then Decided(w[0]) else DeepChoice(w, ballots, active, 1)
  }

  /// The deeper levels: at `depth` the count is of the game that many places
  /// above the worst-placed. A candidate list that is not cut down to one goes
  /// one level deeper while `depth` is below its length, and is drawn from
  /// once it is not; `|cs| - depth` shrinks at every level, so the levels end.
  function DeepChoice(cs: seq<Game>, ballots: seq<Ballot>, active: set<Game>, depth: nat): (ch: TieChoice)
    requires |cs| > 0
    ensures ch.Decided? ==> ch.game in cs
    ensures ch.Drawn? ==> 2 <= |ch.among| <= ch.depth && forall g :: g in ch.among ==> g in cs
    decreases |cs| - depth
  {
    if |cs| == 1 then Decided(cs[0])
    else
      var w := MostPlaced(ballots, cs, active, depth, false);
      if |w| == 1 then Decided(w[0])
      else if depth < |cs| then DeepChoice(w, ballots, active, depth + 1)
      else Drawn(cs, depth)
  }

  /// Settles a tie-break with the random source `pick`: a draw takes the
  /// candidate at the index `pick` names, as `random.choice` does.
  function Resolve(ch: TieChoice, pick: seq<Game> -> nat): (g: Game)
    requires ch.Drawn? ==> |ch.among| > 0
    ensures ch.Decided? ==> g == ch.game
    ensures ch.Drawn? ==> g in ch.among
  {
    match ch
    case Decided(g) => g
    case Drawn(among, _) => among[pick(among) % |among|]
  }

  /// Whatever the random source does, the tie-break eliminates one of the
  /// tied games.
  lemma BreakTieIsCandidate(cs: seq<Game>, ballots: seq<Ballot>, active: set<Game>, pick: seq<Game> -> nat)
    requires |cs| > 0
    ensures Resolve(BreakTieChoice(cs, ballots, active), pick) in cs
  {
    var ch := BreakTieChoice(cs, ballots, active);
    if ch.Drawn? {
      assert ch.among[pick(ch.among) % |ch.among|] in ch.among;
    }
  }

  /// A candidate with strictly the highest count is the only one placed most.
  lemma MostPlacedUnique(ballots: seq<Ballot>, cs: seq<Game>, active: set<Game>, depth: nat, lastPlace: bool, c: Game)
    requires Distinct(cs) && c in cs
    requires forall d :: d in cs && d != c ==>
      PlaceCount(ballots, cs, active, depth, lastPlace, d) < PlaceCount(ballots, cs, active, depth, lastPlace, c)
    ensures MostPlaced(ballots, cs, active, depth, lastPlace) == [c]
  {
    var counts := PlaceCounts(ballots, cs, active, depth, lastPlace);
    var m := MaxCount(cs, counts);
    var w := WithCount(cs, counts, m);
    assert counts[c] == m;
    assert (set g | g in w) == {c};
    WithCountDistinct(cs, counts, m);
    DistinctCardinality(w);
    assert w == [w[0]];
  }

  lemma {:induction false} WithCountDistinct(cs: seq<Game>, counts: map<Game, nat>, m: nat)
    requires Distinct(cs) && forall c :: c in cs ==> c in counts
    ensures Distinct(WithCount(cs, counts, m))
  {
    if cs != [] {
      WithCountDistinct(cs[..|cs| - 1], counts, m);
      assert cs[|cs| - 1] !in cs[..|cs| - 1];
    }
  }

  /// If one tied game has strictly the most last places, it is the one
  /// eliminated, without going deeper.
  lemma MostLastPlacesDecides(cs: seq<Game>, ballots: seq<Ballot>, active: set<Game>, c: Game)
    requires Distinct(cs) && c in cs
    requires forall d :: d in cs && d != c ==>
      PlaceCount(ballots, cs, active, 0, true, d) < PlaceCount(ballots, cs, active, 0, true, c)
    ensures BreakTieChoice(cs, ballots, active) == Decided(c)
  {
    MostPlacedUnique(ballots, cs, active, 0, true, c);
  }

  /// Likewise at a deeper level: strictly the most counts there decides.
  lemma MostPlacesAtDepthDecides(cs: seq<Game>, ballots: seq<Ballot>, active: set<Game>, depth: nat, c: Game)
    requires Distinct(cs) && c in cs
    requires forall d :: d in cs && d != c ==>
      PlaceCount(ballots, cs, active, depth, false, d) < PlaceCount(ballots, cs, active, depth, false, c)
    ensures DeepChoice(cs, ballots, active, depth) == Decided(c)
  {
    if |cs| > 1 {
      MostPlacedUnique(ballots, cs, active, depth, false, c);
    } else {
      assert cs[0] == c;
    }
  }

  /// `_break_tie`: count each ballot's worst-placed tied game, keep the games
  /// with the most such last places, and go deeper if more than one is left.
  method BreakTie(cs: seq<Game>, ballots: seq<Ballot>, active: set<Game>, pick: seq<Game> -> nat) returns (r: Game)
    requires |cs| > 0
    ensures r == Resolve(BreakTieChoice(cs, ballots, active), pick)
  {
    var lastPlaceCounts := LastPlaceCounts(cs, ballots, active);
    var maxLastPlace := MaxCount(cs, lastPlaceCounts);
    var worstCandidates := WithCount(cs, lastPlaceCounts, maxLastPlace);
    if |worstCandidates| == 1 {
      return worstCandidates[0];
    }
    r := BreakTieDeep(worstCandidates, ballots, active, 1, pick);
  }

  /// `_break_tie_deep`, its recursion on `depth` run as a loop.
  method BreakTieDeep(cs: seq<Game>, ballots: seq<Ballot>, active: set<Game>, depth: nat, pick: seq<Game> -> nat)
    returns (r: Game)
    requires |cs| > 0
    ensures r == Resolve(DeepChoice(cs, ballots, active, depth), pick)
  {
    var candidates: seq<Game>, level: nat := cs, depth;
    while true
      invariant |candidates| > 0
      invariant DeepChoice(candidates, ballots, active, level) == DeepChoice(cs, ballots, active, depth)
      decreases |candidates| - level
    {
      if |candidates| == 1 {
        return candidates[0];
      }
      var placeCounts := PlaceCountsAt(candidates, ballots, active, level);
      var maxCount := MaxCount(candidates, placeCounts);
      var worstCandidates := WithCount(candidates, placeCounts, maxCount);
      if |worstCandidates| == 1 {
        return worstCandidates[0];
      }
      if level < |candidates| {
        candidates, level := worstCandidates, level + 1;
      } else {
        return candidates[pick(candidates) % |candidates|];
      }
    }
  }

  /// The last-place counts: for each ballot, the tied active game it ranks
  /// worst; a game found with an empty name is not counted.
  method LastPlaceCounts(cs: seq<Game>, ballots: seq<Ballot>, active: set<Game>) returns (counts: map<Game, nat>)
    ensures counts == PlaceCounts(ballots, cs, active, 0, true)
  {
    counts := map c | c in cs :: 0;
    for i := 0 to |ballots|
      invariant counts.Keys == set c | c in cs
      invariant forall c :: c in cs ==> counts[c] == PlaceCount(ballots[..i], cs, active, 0, true, c)
    {
      var worstGame := WorstTied(ballots[i], cs, active);
      assert ballots[..i + 1][..i] == ballots[..i];
      if worstGame.Some? && worstGame.value != "" {
        counts := counts[worstGame.value := counts[worstGame.value] + 1];
      }
    }
    assert ballots[..|ballots|] == ballots;
  }

  /// The tied active game ballot `b` ranks worst, found by a scan for the
  /// highest rank.
  method WorstTied(b: Ballot, cs: seq<Game>, active: set<Game>) returns (worstGame: Option<Game>)
    ensures worstGame == NthWorst(b, cs, active, 0)
  {
    var worstRank := -1;
    worstGame := None;
    for rank := 0 to |b|
      invariant worstRank < rank
      invariant worstGame == NthWorst(b[..rank], cs, active, 0)
    {
      assert b[..rank + 1][..rank] == b[..rank];
      if b[rank] in cs && b[rank] in active {
        if rank > worstRank {
          worstRank := rank;
          worstGame := Some(b[rank]);
        }
      }
    }
    assert b[..|b|] == b;
  }

  /// The counts at a deeper level: for each ballot, the game `depth` places
  /// from the worst-placed of its tied active games.
  method PlaceCountsAt(cs: seq<Game>, ballots: seq<Ballot>, active: set<Game>, depth: nat) returns (counts: map<Game, nat>)
    ensures counts == PlaceCounts(ballots, cs, active, depth, false)
  {
    counts := map c | c in cs :: 0;
    for i := 0 to |ballots|
      invariant counts.Keys == set c | c in cs
      invariant forall c :: c in cs ==> counts[c] == PlaceCount(ballots[..i], cs, active, depth, false, c)
    {
      assert ballots[..i + 1][..i] == ballots[..i];
      counts := CountBallotAt(counts, ballots[i], cs, active, depth);
    }
    assert ballots[..|ballots|] == ballots;
  }

  /// One ballot's turn in `_break_tie_deep`'s count: the tied game `depth`
  /// places from the worst-placed one, if there is one, gets one more.
  method CountBallotAt(counts: map<Game, nat>, b: Ballot, cs: seq<Game>, active: set<Game>, depth: nat) returns (counts': map<Game, nat>)
    requires counts.Keys == set c | c in cs
    ensures counts'.Keys == counts.Keys
    ensures forall c :: c in cs ==> counts'[c] == counts[c] + (if CountsAgainst(b, cs, active, depth, false, c) then 1 else 0)
  {
    counts' := counts;
    var positions := TiedPositions(b, cs, active);
    // The positions were gathered best first; sorted worst first they are
    // reversed, so the depth-th worst is `depth` places from the end.
    if |positions| > depth {
      var worstGame := positions[|positions| - 1 - depth].1;
      counts' := counts[worstGame := counts[worstGame] + 1];
    }
  }

  /// The (rank, game) positions of the tied active games on ballot `b`, best
  /// first.
  method TiedPositions(b: Ballot, cs: seq<Game>, active: set<Game>) returns (positions: seq<(nat, Game)>)
    ensures |positions| == |TiedOn(b, cs, active)|
    ensures forall k :: 0 <= k < |positions| ==>
      positions[k].0 < |b| && b[positions[k].0] == positions[k].1 == TiedOn(b, cs, active)[k]
    ensures forall k, l :: 0 <= k < l < |positions| ==> positions[k].0 < positions[l].0
  {
    positions := [];
    for rank := 0 to |b|
      invariant |positions| == |TiedOn(b[..rank], cs, active)|
      invariant forall k :: 0 <= k < |positions| ==>
        positions[k].0 < rank && b[positions[k].0] == positions[k].1 == TiedOn(b[..rank], cs, active)[k]
      invariant forall k, l :: 0 <= k < l < |positions| ==> positions[k].0 < positions[l].0
    {
      assert b[..rank + 1][..rank] == b[..rank];
      if b[rank] in cs && b[rank] in active {
        positions := positions + [(rank, b[rank])];
      }
    }
    assert b[..|b|] == b;
  }
}
