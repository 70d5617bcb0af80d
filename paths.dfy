/**
  What a search result means: a path from the map's start along 4-neighbour
  steps over passable cells, a route when it ends at the goal, and a shortest
  route when no route has fewer cells.
*/
module Paths {
  import opened Coords
  import opened Map

  function Last<T>(s: seq<T>): T
    requires |s| > 0
  {
    s[|s| - 1]
  }

  /** Every two consecutive coordinates are 4-neighbours. */
  ghost predicate IsWalk(s: seq<Coord>) {
    forall i | 1 <= i < |s| :: Adjacent(s[i - 1], s[i])
  }

  /** Starts at the map's start; every later cell is passable and next to the one before. The start's own type is not looked at. */
  ghost predicate IsPath(G: ValidGrid, p: seq<Coord>) {
    && |p| >= 1
    && p[0] == G.start
    && IsWalk(p)
    && forall i | 1 <= i < |p| :: G.Passable(p[i])
  }

  ghost predicate IsRoute(G: ValidGrid, p: seq<Coord>) {
    IsPath(G, p) && Last(p) == G.goal
  }

  ghost predicate IsShortestRoute(G: ValidGrid, p: seq<Coord>) {
    IsRoute(G, p) && forall q | IsRoute(G, q) :: |p| <= |q|
  }

  ghost predicate NoRoute(G: ValidGrid) {
    forall q :: !IsRoute(G, q)
  }

  /** The sequence back to front (std::reverse). */
  function Reversed<T>(s: seq<T>): seq<T> {
    seq(|s|, i requires 0 <= i < |s| => s[|s| - 1 - i])
  }

  lemma AdjacentSymmetric(a: Coord, b: Coord)
    ensures Adjacent(a, b) <==> Adjacent(b, a)
  {
  }

  /** A walk extended by a neighbour of its last cell is a walk. */
  lemma WalkExtend(s: seq<Coord>, c: Coord)
    requires IsWalk(s) && |s| > 0 && Adjacent(Last(s), c)
    ensures IsWalk(s + [c])
  {
    var t := s + [c];
    forall i | 1 <= i < |t|
      ensures Adjacent(t[i - 1], t[i])
    {
      if i < |s| {
        assert t[i - 1] == s[i - 1] && t[i] == s[i];
      }
    }
  }

  /** A prefix of a path is a path. */
  lemma PathPrefix(G: ValidGrid, p: seq<Coord>, k: int)
    requires IsPath(G, p) && 1 <= k <= |p|
    ensures IsPath(G, p[..k]) && Last(p[..k]) == p[k - 1]
  {
    var q := p[..k];
    forall i | 1 <= i < |q|
      ensures Adjacent(q[i - 1], q[i]) && G.Passable(q[i])
    {
      assert q[i - 1] == p[i - 1] && q[i] == p[i];
    }
  }

  /**
    A chain read from the goal back to the start, whose cells other than the
    start are passable and which moves between neighbours, becomes a route when
    reversed.
  */
  lemma ReversedChainIsRoute(G: ValidGrid, s: seq<Coord>)
    requires |s| >= 1 && s[0] == G.goal && Last(s) == G.start && IsWalk(s)
    requires forall i | 0 <= i < |s| - 1 :: G.Passable(s[i])
    ensures IsRoute(G, Reversed(s)) && |Reversed(s)| == |s|
  {
    var r := Reversed(s);
    var n := |s|;
    forall i | 1 <= i < n
      ensures Adjacent(r[i - 1], r[i]) && G.Passable(r[i])
    {
      assert r[i - 1] == s[n - i] && r[i] == s[n - 1 - i];
      assert Adjacent(s[n - i - 1], s[n - i]);
      AdjacentSymmetric(s[n - i - 1], s[n - i]);
    }
    assert r[0] == G.start;
    assert Last(r) == s[0];
  }

  /** When start and goal coincide, the one-cell sequence is the only shortest route. */
  lemma TrivialRoute(G: ValidGrid, p: seq<Coord>)
    requires G.start == G.goal && IsShortestRoute(G, p)
    ensures p == [G.start]
  {
    assert IsRoute(G, [G.start]);
  }

  /** Two shortest routes have the same number of cells, whatever route each follows. */
  lemma ShortestRoutesAgree(G: ValidGrid, p: seq<Coord>, q: seq<Coord>)
    requires IsShortestRoute(G, p) && IsShortestRoute(G, q)
    ensures |p| == |q|
  {
  }
}
