/**
  A* search over a GridMap: 4-directional unit steps, Manhattan heuristic, a
  min-f priority queue with lazy deletion (duplicates pushed, stale entries
  skipped when popped), closed and gScore tables of height rows by width
  columns, and a parent map keyed by y * width + x from which the route is
  read back from the goal and reversed.
*/
module AStar {
  import opened Coords
  import opened Map
  import opened Paths
  import opened Search

  /**
    The search. Which of several equally short routes comes back is left open,
    as the queue's tie-breaking is; the result is always a shortest route, or
    empty exactly when the goal cannot be reached.
  */
  method FindPath(m: GridMap) returns (path: seq<Coord>)
    requires m.Valid()
    requires m.InBounds(m.start.0, m.start.1)
    ensures path != [] ==> IsShortestRoute(m.Snapshot(), path)
    ensures path == [] <==> NoRoute(m.Snapshot())
    ensures m.start == m.goal ==> path == [m.start]
  {
    var w := m.GetWidth();
    var h := m.GetHeight();
    var (sx, sy) := m.GetStart();
    var (gx, gy) := m.GetGoal();
    ghost var G := m.Snapshot();

    var open: multiset<Node> := multiset{};
    var closed := new bool[h, w]((_, _) => false);
    var gScore := new Cost[h, w]((_, _) => Infinity);
    var parent: map<int, Coord> := map[];

    gScore[sy, sx] := Finite(0);
    open := open + multiset{Node(sx, sy, 0, Heuristic((gx, gy), (sx, sy)))};

    ghost var C: set<Coord> := {};
    ghost var D: map<Coord, nat> := map[(sx, sy) := 0];
    assert MirrorsClosed(closed, C);
    assert MirrorsScores(gScore, D);
    InitInv(G);

    while open != multiset{}
      invariant closed as object != m.grid && gScore as object != m.grid
      invariant closed as object != m && gScore as object != m
      invariant m.Snapshot() == G
      invariant closed.Length0 == h && closed.Length1 == w && gScore.Length0 == h && gScore.Length1 == w
      invariant MirrorsClosed(closed, C)
      invariant MirrorsScores(gScore, D)
      invariant Inv(G, C, D, parent, open, {}) && G.goal !in C
      invariant h == G.height && w == G.width
      decreases AllCells(G) - C, |open|
    {
      TopExists(open);
      var cur :| cur in open && IsTop(cur, open);
      ghost var queued := open;
      open := open - multiset{cur};

      if closed[cur.y, cur.x] {
        StaleInv(G, C, D, parent, queued, cur);
        continue;
      }
      var reached;
      reached, parent, open, C, D := Visit(m, closed, gScore, cur, parent, open, G, C, D, queued);
      if reached {
        path := ReconstructPath(parent, w, sx, sy, gx, gy, G, C, D);
        return;
      }
    }

    NoRouteLeft(G, C, D, parent);
    return [];
  }

  /** The closed table is true exactly at the cells of C. */
  ghost predicate MirrorsClosed(closed: array2<bool>, C: set<Coord>)
    reads closed
  {
    forall y, x | 0 <= y < closed.Length0 && 0 <= x < closed.Length1 :: closed[y, x] == ((x, y) in C)
  }

  /** The gScore table holds D's score at each scored cell and +infinity elsewhere. */
  ghost predicate MirrorsScores(gScore: array2<Cost>, D: map<Coord, nat>)
    reads gScore
  {
    forall y, x | 0 <= y < gScore.Length0 && 0 <= x < gScore.Length1 :: gScore[y, x] == CostOf(D, (x, y))
  }

  /**
    The rest of a pass of the main loop once the popped top entry cur has
    turned out not to be stale: its cell is closed, and unless it is the goal
    (reached) its neighbours are relaxed.
  */
  method Visit(m: GridMap, closed: array2<bool>, gScore: array2<Cost>, cur: Node,
               parent0: map<int, Coord>, open0: multiset<Node>,
               ghost G: ValidGrid, ghost C0: set<Coord>, ghost D0: map<Coord, nat>, ghost queued: multiset<Node>)
    returns (reached: bool, parent: map<int, Coord>, open: multiset<Node>, ghost C: set<Coord>, ghost D: map<Coord, nat>)
    requires m.Valid() && m.Snapshot() == G
    requires closed as object != m.grid && gScore as object != m.grid
    requires closed.Length0 == G.height && closed.Length1 == G.width
    requires gScore.Length0 == G.height && gScore.Length1 == G.width
    requires MirrorsClosed(closed, C0) && MirrorsScores(gScore, D0)
    requires Inv(G, C0, D0, parent0, queued, {}) && G.goal !in C0
    requires IsTop(cur, queued) && open0 == queued - multiset{cur} && cur.Cell() !in C0
    modifies closed, gScore
    ensures m.Snapshot() == G
    ensures MirrorsClosed(closed, C) && MirrorsScores(gScore, D)
    ensures reached <==> G.goal in C
    ensures reached ==> ScoresSound(G, C, D) && ParentsSound(G, C, D, parent) && ClosedOptimal(G, C, D)
    ensures reached ==> D == D0 && parent == parent0 && open == open0
    ensures !reached ==> Tables(D, parent, open) == RelaxFirst(G, C, Tables(D0, parent0, open0), cur, |Dirs|)
    ensures !reached ==> Inv(G, C, D, parent, open, {})
    ensures cur.Cell() in AllCells(G) && C == C0 + {cur.Cell()}
  {
    reached, parent, open, C, D := false, parent0, open0, C0, D0;
    CloseInv(G, C, D, parent, queued, cur);
    assert cur.Cell() in AllCells(G);
    C := MarkClosed(closed, cur.x, cur.y, C);

    var goal := m.GetGoal();
    if cur.x == goal.0 && cur.y == goal.1 {
      return true, parent, open, C, D;
    }

    parent, open, D := RelaxNeighbours(m, closed, gScore, cur, parent, open, G, C, D);
  }

  /** Marks (x, y) closed; the table still mirrors the closed set, now with (x, y) added. */
  method MarkClosed(closed: array2<bool>, x: int, y: int, ghost C: set<Coord>) returns (ghost C': set<Coord>)
    requires 0 <= y < closed.Length0 && 0 <= x < closed.Length1
    requires MirrorsClosed(closed, C)
    modifies closed
    ensures C' == C + {(x, y)}
    ensures MirrorsClosed(closed, C')
  {
    closed[y, x] := true;
    C' := C + {(x, y)};
  }

  /**
    Reading the route back once the goal is closed: follow the parent entries
    from the goal to the start, append the start, and reverse. Every lookup
    finds its key, the walk ends because each parent scores one less, and the
    route found is a shortest one.
  */
  method ReconstructPath(parent: map<int, Coord>, w: int, sx: int, sy: int, gx: int, gy: int,
                         ghost G: ValidGrid, ghost C: set<Coord>, ghost D: map<Coord, nat>)
    returns (path: seq<Coord>)
    requires G.width == w && G.start == (sx, sy) && G.goal == (gx, gy)
    requires G.goal in C && ScoresSound(G, C, D) && ParentsSound(G, C, D, parent) && ClosedOptimal(G, C, D)
    ensures IsShortestRoute(G, path)
    ensures G.start == G.goal ==> path == [G.start]
  {
    path := [];
    var cx, cy := gx, gy;
    while !(cx == sx && cy == sy)
      invariant (cx, cy) in D
      invariant |path| + D[(cx, cy)] == D[G.goal]
      invariant IsWalk(path + [(cx, cy)]) && (path + [(cx, cy)])[0] == G.goal
      invariant forall i | 0 <= i < |path| :: G.Passable(path[i])
      decreases D[(cx, cy)]
    {
      assert HasParent(G, C, D, parent, (cx, cy));
      var p := parent[Encode(cx, cy, w)];
      AdjacentSymmetric(p, (cx, cy));
      WalkExtend(path + [(cx, cy)], p);
      path := path + [(cx, cy)];
      cx, cy := p.0, p.1;
    }
    path := path + [(sx, sy)];
    ReversedChainIsRoute(G, path);
    path := Reversed(path);
    if G.start == G.goal {
      TrivialRoute(G, path);
    }
  }

  /**
    The loop over the four directions after cur is closed, proved to do what
    RelaxFirst describes.
  */
  method RelaxNeighbours(m: GridMap, closed: array2<bool>, gScore: array2<Cost>, cur: Node,
                         parent0: map<int, Coord>, open0: multiset<Node>,
                         ghost G: ValidGrid, ghost C: set<Coord>, ghost D0: map<Coord, nat>)
    returns (parent: map<int, Coord>, open: multiset<Node>, ghost D: map<Coord, nat>)
    requires m.Valid() && m.Snapshot() == G
    requires closed.Length0 == G.height && closed.Length1 == G.width
    requires gScore.Length0 == G.height && gScore.Length1 == G.width
    requires MirrorsClosed(closed, C)
    requires MirrorsScores(gScore, D0)
    requires Inv(G, C, D0, parent0, open0, {cur.Cell()})
    requires cur.Cell() in C && cur.Cell() in D0 && D0[cur.Cell()] == cur.g
    modifies gScore
    ensures MirrorsScores(gScore, D)
    ensures MirrorsClosed(closed, C)
    ensures Tables(D, parent, open) == RelaxFirst(G, C, Tables(D0, parent0, open0), cur, |Dirs|)
    ensures Inv(G, C, D, parent, open, {})
  {
    parent, open, D := parent0, open0, D0;
    for i := 0 to |Dirs|
      invariant m.Snapshot() == G
      invariant MirrorsClosed(closed, C)
      invariant MirrorsScores(gScore, D)
      invariant Tables(D, parent, open) == RelaxFirst(G, C, Tables(D0, parent0, open0), cur, i)
    {
      parent, open, D := RelaxEdge(m, closed, gScore, cur, i, parent, open, G, C, D);
    }
    ExpandInv(G, C, Tables(D0, parent0, open0), cur);
  }

  /**
    The loop body for the neighbour (nx, ny): skipped when out of bounds, an
    obstacle or closed; otherwise, when cur.g + 1 beats its gScore, the
    neighbour gets that score, parent cur and a new queue entry.
  */
  method RelaxEdge(m: GridMap, closed: array2<bool>, gScore: array2<Cost>, cur: Node, i: nat,
                   parent0: map<int, Coord>, open0: multiset<Node>,
                   ghost G: ValidGrid, ghost C: set<Coord>, ghost D0: map<Coord, nat>)
    returns (parent: map<int, Coord>, open: multiset<Node>, ghost D: map<Coord, nat>)
    requires m.Valid() && m.Snapshot() == G
    requires closed.Length0 == G.height && closed.Length1 == G.width
    requires gScore.Length0 == G.height && gScore.Length1 == G.width
    requires MirrorsClosed(closed, C)
    requires MirrorsScores(gScore, D0)
    modifies gScore
    ensures m.Snapshot() == G
    ensures MirrorsClosed(closed, C)
    ensures MirrorsScores(gScore, D)
    requires i < |Dirs|
    ensures Tables(D, parent, open) == Relax(G, C, Tables(D0, parent0, open0), cur, Step(cur.Cell(), Dirs[i]))
  {
    parent, open, D := parent0, open0, D0;
    var (dx, dy) := Dirs[i];
    var nx, ny := cur.x + dx, cur.y + dy;
    assert (nx, ny) == Step(cur.Cell(), Dirs[i]);
    var w, h := m.GetWidth(), m.GetHeight();
    ghost var n := (nx, ny);
    if nx < 0 || ny < 0 || nx >= w || ny >= h {
      assert !G.Passable(n);
      return;
    }
    if m.GetCell(nx, ny) == Ok(Obstacle) {
      assert !G.Passable(n);
      return;
    }
    if closed[ny, nx] {
      assert n in C;
      return;
    }
    assert G.Passable(n) && n !in C;

    var tentative := cur.g + 1;

    if gScore[ny, nx].Exceeds(tentative) {
      gScore[ny, nx] := Finite(tentative);
      parent := parent[Encode(nx, ny, w) := (cur.x, cur.y)];
      open := open + multiset{Node(nx, ny, tentative, Heuristic(m.GetGoal(), (nx, ny)))};
      D := D[(nx, ny) := tentative];
    }
  }
}
