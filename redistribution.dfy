/// The 50% cascade that hands an eliminated game's points down each ballot.
module Redistribution {
  import opened Ballots

  /// Below this the cascade's remainder is abandoned.
  const Negligible: real := 0.001

  /// The games still standing on ballot `b` once `e` is out, best first.
  function Survivors(b: Ballot, active: set<Game>, e: Game): (rs: seq<Game>)
    ensures forall g :: g in rs <==> g in b && g in active && g != e
  {
    Members(b, active - {e})
  }

  /// The survivors come in the ballot's order, best first, which is the
  /// order the cascade serves them in.
  lemma SurvivorsInBallotOrder(b: Ballot, active: set<Game>, e: Game)
    ensures forall i, j :: 0 <= i < j < |Survivors(b, active, e)| ==> Before(b, Survivors(b, active, e)[i], Survivors(b, active, e)[j])
  {
    MembersInOrder(b, active - {e});
  }

  /// The allocations a cascade makes and the remainder it abandons.
  datatype Cascade = Cascade(shares: seq<real>, abandoned: real)

  /// The cascade of `pool` down `n` survivors: each survivor in turn takes half
  /// of what is left; it stops after a survivor once what is left is below
  /// `Negligible`, or when the survivors run out.
  function Shares(pool: real, n: nat): (c: Cascade)
    ensures |c.shares| <= n
    decreases n
  {
    if n == 0 then Cascade([], pool)
    else
      var allocation := pool * 0.5;
      var rest := pool - allocation;
      if rest < Negligible then Cascade([allocation], rest)
      else
        var c := Shares(rest, n - 1);
        Cascade([allocation] + c.shares, c.abandoned)
  }

  function SumReals(s: seq<real>): real
  {
    if s == [] then 0.0 else s[0] + SumReals(s[1..])
  }

  lemma {:induction false} SumRealsAppend(s: seq<real>, t: seq<real>)
    ensures SumReals(s + t) == SumReals(s) + SumReals(t)
  {
    if s != [] {
      SumRealsAppend(s[1..], t);
      assert (s + t)[0] == s[0];
      assert (s + t)[1..] == s[1..] + t;
    } else {
      assert s + t == t;
    }
  }

  /// How much the cascade hands out: at most one allocation per survivor and
  /// at least one when there is a survivor; the allocations and the abandoned
  /// remainder add up to the pool exactly; and the cascade ends with what is
  /// left below `Negligible` or with every survivor served.
  lemma {:induction false} CascadeShape(pool: real, n: nat)
    ensures |Shares(pool, n).shares| <= n
    ensures n > 0 ==> |Shares(pool, n).shares| > 0
    ensures SumReals(Shares(pool, n).shares) + Shares(pool, n).abandoned == pool
    ensures |Shares(pool, n).shares| == n || Shares(pool, n).abandoned < Negligible
    decreases n
  {
    if n > 0 {
      var rest := pool - pool * 0.5;
      if rest >= Negligible {
        CascadeShape(rest, n - 1);
      }
    }
  }

  /// What the cascade does, allocation by allocation: each allocation is half
  /// of the pool still left, and the cascade only goes on to the next
  /// survivor while what is left is at least `Negligible`.
  lemma {:induction false} CascadeHalves(pool: real, n: nat)
    ensures forall i :: 0 <= i < |Shares(pool, n).shares| ==>
      Shares(pool, n).shares[i] == (pool - SumReals(Shares(pool, n).shares[..i])) * 0.5
    ensures forall i :: 1 <= i < |Shares(pool, n).shares| ==>
      pool - SumReals(Shares(pool, n).shares[..i]) >= Negligible
    decreases n
  {
    if n > 0 {
      var allocation := pool * 0.5;
      var rest := pool - allocation;
      if rest >= Negligible {
        CascadeHalves(rest, n - 1);
        var c := Shares(rest, n - 1);
        var s := [allocation] + c.shares;
        assert Shares(pool, n).shares == s;
        forall i | 0 <= i < |s| ensures s[i] == (pool - SumReals(s[..i])) * 0.5 {
          if i > 0 {
            assert s[..i] == [allocation] + c.shares[..i - 1];
          }
        }
        forall i | 1 <= i < |s| ensures pool - SumReals(s[..i]) >= Negligible {
          assert s[..i] == [allocation] + c.shares[..i - 1];
        }
      }
    }
  }

  /// A cascade of a non-negative pool allocates and abandons non-negative
  /// amounts.
  lemma {:induction false} CascadeNonNegative(pool: real, n: nat)
    requires pool >= 0.0
    ensures forall i :: 0 <= i < |Shares(pool, n).shares| ==> Shares(pool, n).shares[i] >= 0.0
    ensures Shares(pool, n).abandoned >= 0.0
    decreases n
  {
    if n > 0 && pool - pool * 0.5 >= Negligible {
      CascadeNonNegative(pool - pool * 0.5, n - 1);
    }
  }

  /// One step of the cascade: the first survivor takes half the pool, and
  /// the cascade stops there or goes on with the other half.
  lemma SharesStep(pool: real, n: nat)
    requires n > 0
    ensures pool - pool * 0.5 < Negligible ==> Shares(pool, n) == Cascade([pool * 0.5], pool - pool * 0.5)
    ensures pool - pool * 0.5 >= Negligible ==>
      Shares(pool, n) == Cascade([pool * 0.5] + Shares(pool - pool * 0.5, n - 1).shares, Shares(pool - pool * 0.5, n - 1).abandoned)
  {
  }

  /// `p` with each of the first `k` shares added to the points of the
  /// survivor in the same place: the i-th share goes to `rs[i]`.
  function AddShares(p: Points, rs: seq<Game>, shares: seq<real>, k: nat): Points
    requires k <= |shares| && k <= |rs|
  {
    if k == 0 then p
    else
      var q := AddShares(p, rs, shares, k - 1);
      q[rs[k - 1] := Get(q, rs[k - 1]) + shares[k - 1]]
  }

  /// One ballot's pool after `e` is eliminated: a pool without `e` is left as
  /// it is; otherwise `e`'s entry is deleted and its points cascade down the
  /// ballot's survivors.
  function RedistributeBallot(p: Points, e: Game, active: set<Game>, b: Ballot): Points
  {
    if e !in p then p
    else
      var rs := Survivors(b, active, e);
      var c := Shares(p[e], |rs|);
      AddShares(p - {e}, rs, c.shares, |c.shares|)
  }

  /// The part of `e`'s points on this ballot that the cascade abandons.
  function Abandoned(p: Points, e: Game, active: set<Game>, b: Ballot): real
  {
    if e !in p then 0.0 else Shares(p[e], |Survivors(b, active, e)|).abandoned
  }

  /// Every ballot's pool after `e` is eliminated.
  function Redistributed(pools: seq<Points>, e: Game, active: set<Game>, ballots: seq<Ballot>): (r: seq<Points>)
    requires |pools| == |ballots|
    ensures |r| == |pools|
  {
    seq(|pools|, i requires 0 <= i < |pools| => RedistributeBallot(pools[i], e, active, ballots[i]))
  }

  lemma {:induction false} AddSharesAt(p: Points, rs: seq<Game>, shares: seq<real>, k: nat)
    requires k <= |shares| && k <= |rs| && Distinct(rs)
    ensures AddShares(p, rs, shares, k).Keys == p.Keys + set g | g in rs[..k]
    ensures forall i :: 0 <= i < |rs| ==>
      Get(AddShares(p, rs, shares, k), rs[i]) == Get(p, rs[i]) + (if i < k then shares[i] else 0.0)
    ensures forall g :: g !in rs ==> Get(AddShares(p, rs, shares, k), g) == Get(p, g)
  {
    if k > 0 {
      AddSharesAt(p, rs, shares, k - 1);
      assert rs[..k] == rs[..k - 1] + [rs[k - 1]];
      forall i | 0 <= i < |rs| && i != k - 1
        ensures Get(AddShares(p, rs, shares, k), rs[i]) == Get(p, rs[i]) + (if i < k then shares[i] else 0.0)
      {
        assert rs[i] != rs[k - 1];
      }
    }
  }

  lemma {:induction false} AddSharesGrows(p: Points, rs: seq<Game>, shares: seq<real>, k: nat)
    requires k <= |shares| && k <= |rs|
    requires forall i :: 0 <= i < k ==> shares[i] >= 0.0
    ensures AddShares(p, rs, shares, k).Keys == p.Keys + set g | g in rs[..k]
    ensures forall g :: g in p ==> AddShares(p, rs, shares, k)[g] >= p[g]
  {
    if k > 0 {
      AddSharesGrows(p, rs, shares, k - 1);
      assert rs[..k] == rs[..k - 1] + [rs[k - 1]];
    }
  }

  /// The points of `p` on the games of `b`, each game counted once per place.
  function BallotSum(b: Ballot, p: Points): real
  {
    if b == [] then 0.0 else BallotSum(b[..|b| - 1], p) + Get(p, b[|b| - 1])
  }

  lemma {:induction false} BallotSumUpdate(b: Ballot, p: Points, g: Game, x: real)
    requires Distinct(b)
    ensures BallotSum(b, p[g := Get(p, g) + x]) == BallotSum(b, p) + (if g in b then x else 0.0)
  {
    if b != [] {
      var t := b[..|b| - 1];
      BallotSumUpdate(t, p, g, x);
      assert b[|b| - 1] !in t;
    }
  }

  lemma {:induction false} BallotSumRemove(b: Ballot, p: Points, e: Game)
    requires Distinct(b)
    ensures BallotSum(b, p - {e}) == BallotSum(b, p) - (if e in b then Get(p, e) else 0.0)
  {
    if b != [] {
      var t := b[..|b| - 1];
      BallotSumRemove(t, p, e);
      assert b[|b| - 1] !in t;
    }
  }

  lemma {:induction false} BallotSumAddShares(b: Ballot, p: Points, rs: seq<Game>, shares: seq<real>, k: nat)
    requires Distinct(b) && k <= |shares| && k <= |rs|
    requires forall g :: g in rs ==> g in b
    ensures BallotSum(b, AddShares(p, rs, shares, k)) == BallotSum(b, p) + SumReals(shares[..k])
  {
    if k > 0 {
      BallotSumAddShares(b, p, rs, shares, k - 1);
      BallotSumUpdate(b, AddShares(p, rs, shares, k - 1), rs[k - 1], shares[k - 1]);
      SumRealsAppend(shares[..k - 1], [shares[k - 1]]);
      assert shares[..k - 1] + [shares[k - 1]] == shares[..k];
    }
  }

  /// Conservation: on a ballot that ranks `e`, the points after the
  /// redistribution plus the abandoned remainder are the points before.
  lemma RedistributionConserves(p: Points, e: Game, active: set<Game>, b: Ballot)
    requires Distinct(b) && e in b
    ensures BallotSum(b, RedistributeBallot(p, e, active, b)) + Abandoned(p, e, active, b) == BallotSum(b, p)
  {
    if e in p {
      var rs := Survivors(b, active, e);
      var c := Shares(p[e], |rs|);
      CascadeShape(p[e], |rs|);
      BallotSumRemove(b, p, e);
      BallotSumAddShares(b, p - {e}, rs, c.shares, |c.shares|);
      assert c.shares[..|c.shares|] == c.shares;
    }
  }

  /// A ballot without `e` is left unchanged by the redistribution.
  lemma RedistributionSkips(p: Points, e: Game, active: set<Game>, b: Ballot)
    requires e !in p
    ensures RedistributeBallot(p, e, active, b) == p
  {
  }

  /// Where the points go on a ballot with `e`: `e`'s entry is deleted and no
  /// other disappears; the i-th survivor in the ballot's order receives the
  /// i-th allocation of the cascade (if the cascade reached it); every other
  /// game keeps its points.
  lemma RedistributionTargets(p: Points, e: Game, active: set<Game>, b: Ballot, rs: seq<Game>, c: Cascade)
    requires Distinct(b) && e in p
    requires rs == Survivors(b, active, e) && c == Shares(p[e], |rs|)
    ensures |c.shares| <= |rs|
    ensures RedistributeBallot(p, e, active, b).Keys == (p.Keys - {e}) + set g | g in rs[..|c.shares|]
    ensures e !in RedistributeBallot(p, e, active, b)
    ensures forall i :: 0 <= i < |rs| ==>
      Get(RedistributeBallot(p, e, active, b), rs[i]) == Get(p, rs[i]) + (if i < |c.shares| then c.shares[i] else 0.0)
    ensures forall g :: g != e && g !in rs ==> Get(RedistributeBallot(p, e, active, b), g) == Get(p, g)
  {
    MembersDistinct(b, active - {e});
    assert RedistributeBallot(p, e, active, b) == AddShares(p - {e}, rs, c.shares, |c.shares|);
    CascadeKeys(p, e, rs, c.shares);
    CascadeValues(p, e, rs, c.shares);
  }

  /// The allocations added to a pool without `e`, for survivors other than
  /// `e`: the entries are those of the pool but `e`, and those of the
  /// survivors served.
  lemma CascadeKeys(p: Points, e: Game, rs: seq<Game>, shares: seq<real>)
    requires Distinct(rs) && e !in rs && |shares| <= |rs|
    ensures AddShares(p - {e}, rs, shares, |shares|).Keys == (p.Keys - {e}) + set g | g in rs[..|shares|]
    ensures e !in AddShares(p - {e}, rs, shares, |shares|)
  {
    var q := p - {e};
    assert q.Keys == p.Keys - {e};
    AddSharesAt(q, rs, shares, |shares|);
    assert e !in set g | g in rs[..|shares|];
  }

  /// The allocations added to a pool without `e`, for survivors other than
  /// `e`: the survivors gain their allocations and every other game but `e`
  /// keeps its points.
  lemma CascadeValues(p: Points, e: Game, rs: seq<Game>, shares: seq<real>)
    requires Distinct(rs) && e !in rs && |shares| <= |rs|
    ensures forall i :: 0 <= i < |rs| ==>
      Get(AddShares(p - {e}, rs, shares, |shares|), rs[i]) == Get(p, rs[i]) + (if i < |shares| then shares[i] else 0.0)
    ensures forall g :: g != e && g !in rs ==> Get(AddShares(p - {e}, rs, shares, |shares|), g) == Get(p, g)
  {
    var q := p - {e};
    AddSharesAt(q, rs, shares, |shares|);
    var r := AddShares(q, rs, shares, |shares|);
    forall i | 0 <= i < |rs| ensures Get(r, rs[i]) == Get(p, rs[i]) + (if i < |shares| then shares[i] else 0.0) {
      assert rs[i] != e;
      GetWithout(p, e, rs[i]);
    }
    forall g | g != e && g !in rs ensures Get(r, g) == Get(p, g) {
      GetWithout(p, e, g);
    }
  }

  /// Deleting `e` from a pool leaves every other game's points as they were.
  lemma GetWithout(p: Points, e: Game, g: Game)
    requires g != e
    ensures Get(p - {e}, g) == Get(p, g)
  {
  }

  /// Redistribution keeps the tally's invariant: once `e` leaves the active
  /// set, every pool holds exactly the remaining games, each with at least a
  /// point.
  lemma RedistributedPoolsOk(pools: seq<Points>, e: Game, active: set<Game>, ballots: seq<Ballot>)
    requires |pools| == |ballots| && PoolsOk(pools, active) && e in active
    ensures PoolsOk(Redistributed(pools, e, active - {e}, ballots), active - {e})
  {
    var rest := active - {e};
    forall i | 0 <= i < |pools|
      ensures Redistributed(pools, e, rest, ballots)[i].Keys == rest
      ensures forall g :: g in rest ==> Redistributed(pools, e, rest, ballots)[i][g] >= 1.0
    {
      var p := pools[i];
      var rs := Survivors(ballots[i], rest, e);
      var c := Shares(p[e], |rs|);
      CascadeShape(p[e], |rs|);
      CascadeNonNegative(p[e], |rs|);
      AddSharesGrows(p - {e}, rs, c.shares, |c.shares|);
      assert (set g | g in rs[..|c.shares|]) <= rest by {
        forall g | g in rs[..|c.shares|] ensures g in rest {
          assert g in rs;
        }
      }
    }
  }

  /// Hands the eliminated game's points down every ballot, in place: the
  /// pools array is the source's list of per-ballot dictionaries.
  method RedistributePoints(e: Game, active: set<Game>, points: array<Points>, ballots: seq<Ballot>)
    requires points.Length == |ballots|
    modifies points
    ensures points[..] == Redistributed(old(points[..]), e, active, ballots)
  {
    for i := 0 to points.Length
      invariant forall k :: 0 <= k < i ==> points[k] == RedistributeBallot(old(points[k]), e, active, ballots[k])
      invariant forall k :: i <= k < points.Length ==> points[k] == old(points[k])
    {
      if e !in points[i] {
        continue;
      }
      points[i] := CascadeBallot(points[i], e, active, ballots[i]);
    }
  }

  /// The body of the redistribution loop for one ballot that holds `e`:
  /// delete `e`'s entry and cascade its points down the survivors.
  method CascadeBallot(ballot: Points, e: Game, active: set<Game>, b: Ballot) returns (updated: Points)
    requires e in ballot
    ensures updated == RedistributeBallot(ballot, e, active, b)
  {
    var remaining := Survivors(b, active, e);
    updated := CascadeDown(ballot - {e}, remaining, ballot[e]);
  }

  /// One turn of the cascade loop keeps its invariant: the next survivor
  /// takes half of what is left, which is the next allocation of the
  /// cascade, and the cascade either ends there or goes on with the rest.
  lemma CascadeStep(remaining: seq<Game>, shares: seq<real>, abandoned: real, j: nat, pool: real)
    requires j < |remaining| && |shares| <= |remaining| && j <= |shares|
    requires Shares(pool, |remaining| - j) == Cascade(shares[j..], abandoned)
    ensures j < |shares| && shares[j] == pool * 0.5
    ensures pool - pool * 0.5 < Negligible ==> j + 1 == |shares|
    ensures pool - pool * 0.5 >= Negligible ==> Shares(pool - pool * 0.5, |remaining| - (j + 1)) == Cascade(shares[j + 1..], abandoned)
  {
    SharesStep(pool, |remaining| - j);
    assert shares[j..] == [shares[j]] + shares[j + 1..];
  }

  /// The cascade loop: survivor after survivor takes half of the pool left,
  /// until the survivors run out or what is left is below `Negligible`.
  method CascadeDown(base: Points, remaining: seq<Game>, pool: real) returns (updated: Points)
    ensures var c := Shares(pool, |remaining|); updated == AddShares(base, remaining, c.shares, |c.shares|)
  {
    var pointsPool := pool;
    updated := base;
    ghost var cascade := Shares(pool, |remaining|);
    var j := 0;
    while j < |remaining|
      invariant j <= |cascade.shares| <= |remaining|
      invariant updated == AddShares(base, remaining, cascade.shares, j)
      invariant Shares(pointsPool, |remaining| - j) == Cascade(cascade.shares[j..], cascade.abandoned)
    {
      updated, pointsPool := CascadeTurn(base, remaining, cascade, j, updated, pointsPool);
      j := j + 1;
      if pointsPool < Negligible {
        break;
      }
    }
  }

  /// One turn of the cascade loop: the next survivor takes half of the pool
  /// left, which is the next allocation of the cascade.
  method CascadeTurn(base: Points, remaining: seq<Game>, ghost cascade: Cascade, j: nat, updated: Points, pointsPool: real)
    returns (updated': Points, pointsPool': real)
    requires j < |remaining| && j <= |cascade.shares| <= |remaining|
    requires updated == AddShares(base, remaining, cascade.shares, j)
    requires Shares(pointsPool, |remaining| - j) == Cascade(cascade.shares[j..], cascade.abandoned)
    ensures j + 1 <= |cascade.shares|
    ensures updated' == AddShares(base, remaining, cascade.shares, j + 1)
    ensures pointsPool' < Negligible ==> j + 1 == |cascade.shares|
    ensures pointsPool' >= Negligible ==>
      Shares(pointsPool', |remaining| - (j + 1)) == Cascade(cascade.shares[j + 1..], cascade.abandoned)
  {
    var allocation := pointsPool * 0.5;
    CascadeStep(remaining, cascade.shares, cascade.abandoned, j, pointsPool);
    updated' := updated[remaining[j] := Get(updated, remaining[j]) + allocation];
    pointsPool' := pointsPool - allocation;
  }
}
