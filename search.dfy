/**
  The pieces of the A* search other than its loops: the frontier node and its
  ordering, the Manhattan heuristic, the four step directions, the g-score
  table's entries, and the invariants the main loop keeps, each transition of
  the loop proved to preserve them.

  The invariants speak of ghost mirrors of the search's tables:
    C  the closed cells,
    D  the finite gScore entries (a cell outside D has score +infinity),
    P  the parent map, keyed by Encode(x, y, width),
    open  the priority queue, as a multiset of nodes.
*/
module Search {
  import opened Coords
  import opened Map
  import opened Paths

  /** A frontier entry: a cell, its cost so far g and its heuristic h. Many entries may share a cell. */
  datatype Node = Node(x: int, y: int, g: nat, h: nat) {
    /** The estimated total cost f = g + h: never below the cost so far, and equal to it exactly when h is zero. */
    function F(): (f: nat)
      ensures f >= g && (f == g <==> h == 0)
    {
      g + h
    }

    function Cell(): Coord {
      (x, y)
    }
  }

  /** The node order given to std::priority_queue: reversed, so that the lowest f comes out first. */
  predicate Less(a: Node, b: Node) {
    a.F() > b.F()
  }

  /**
    The reversed order is a strict weak ordering, as std::priority_queue
    requires: irreflexive, transitive, and with "neither ranks above the
    other" (equal f) transitive too.
  */
  lemma LessIsStrictWeakOrder(a: Node, b: Node, c: Node)
    ensures !Less(a, a)
    ensures Less(a, b) && Less(b, c) ==> Less(a, c)
    ensures !Less(a, b) && !Less(b, a) && !Less(b, c) && !Less(c, b) ==> !Less(a, c) && !Less(c, a)
  {
  }

  /** n is an entry top() may return: no entry of the queue ranks above it. Ties are not resolved. */
  predicate IsTop(n: Node, open: multiset<Node>) {
    n in open && forall k | k in open :: !Less(n, k)
  }

  /** A non-empty queue has a top entry, and it has the lowest f in the queue. */
  lemma {:induction false} TopExists(open: multiset<Node>)
    requires open != multiset{}
    ensures exists n :: IsTop(n, open)
    ensures forall n, k | IsTop(n, open) && k in open :: n.F() <= k.F()
    decreases |open|
  {
    var a :| a in open;
    var rest := open - multiset{a};
    if rest == multiset{} {
      forall k | k in open
        ensures k == a
      {
        assert k == a || k in rest;
      }
      assert IsTop(a, open);
    } else {
      TopExists(rest);
      var b :| IsTop(b, rest);
      if Less(b, a) {
        assert IsTop(a, open);
      } else {
        assert IsTop(b, open);
      }
    }
  }

  /** Manhattan distance to the goal; zero exactly at the goal. */
  function Heuristic(goal: Coord, c: Coord): (r: nat)
    ensures r == 0 <==> c == goal
  {
    Abs(c.0 - goal.0) + Abs(c.1 - goal.1)
  }

  /** One unit step changes the heuristic by at most one: it is consistent. */
  lemma HeuristicConsistent(goal: Coord, a: Coord, b: Coord)
    requires Adjacent(a, b)
    ensures Heuristic(goal, a) <= Heuristic(goal, b) + 1
  {
  }

  /**
    The entry pushed for a neighbour n of cur, with g one more and n's own
    heuristic, never has a lower f than cur's: f does not fall along an edge.
  */
  lemma FNeverFallsAlongEdge(goal: Coord, cur: Node, n: Coord)
    requires cur.h == Heuristic(goal, cur.Cell()) && Adjacent(cur.Cell(), n)
    ensures Node(n.0, n.1, cur.g + 1, Heuristic(goal, n)).F() >= cur.F()
  {
    HeuristicConsistent(goal, cur.Cell(), n);
  }

  /** Along a walk, the heuristic at a cell is at most the steps left plus the heuristic at the end. */
  lemma {:induction false} HeuristicAlongWalk(goal: Coord, s: seq<Coord>, i: nat)
    requires IsWalk(s) && i < |s|
    ensures Heuristic(goal, s[i]) <= |s| - 1 - i + Heuristic(goal, Last(s))
    decreases |s| - i
  {
    if i < |s| - 1 {
      HeuristicAlongWalk(goal, s, i + 1);
      HeuristicConsistent(goal, s[i], s[i + 1]);
    }
  }

  /** The heuristic never overestimates: every route has at least the Manhattan distance in steps. */
  lemma RouteAtLeastHeuristic(G: ValidGrid, p: seq<Coord>)
    requires IsRoute(G, p)
    ensures |p| - 1 >= Heuristic(G.goal, G.start)
  {
    HeuristicAlongWalk(G.goal, p, 0);
  }

  /** A staircase walk from a to b: along x first, then along y. */
  ghost function Staircase(a: Coord, b: Coord): seq<Coord>
    decreases Abs(a.0 - b.0) + Abs(a.1 - b.1)
  {
    if a == b then [a]
    else if a.0 != b.0 then [a] + Staircase((if a.0 < b.0 then a.0 + 1 else a.0 - 1, a.1), b)
    else [a] + Staircase((a.0, if a.1 < b.1 then a.1 + 1 else a.1 - 1), b)
  }

  /** c lies in the rectangle spanned by a and b. */
  predicate Between(c: Coord, a: Coord, b: Coord) {
    && (a.0 <= c.0 <= b.0 || b.0 <= c.0 <= a.0)
    && (a.1 <= c.1 <= b.1 || b.1 <= c.1 <= a.1)
  }

  /** The staircase is a walk from a to b with exactly the Manhattan distance in steps, inside their rectangle. */
  lemma StaircaseWalk(a: Coord, b: Coord)
    ensures |Staircase(a, b)| == Heuristic(b, a) + 1
    ensures Staircase(a, b)[0] == a && Last(Staircase(a, b)) == b
    ensures IsWalk(Staircase(a, b))
    ensures forall i | 0 <= i < |Staircase(a, b)| :: Between(Staircase(a, b)[i], a, b)
  {
    StaircaseIsWalk(a, b);
    StaircaseInRectangle(a, b);
  }

  /** The first cell the staircase from a towards b moves to. */
  function StairStep(a: Coord, b: Coord): Coord {
    if a.0 != b.0 then (if a.0 < b.0 then a.0 + 1 else a.0 - 1, a.1)
    else (a.0, if a.1 < b.1 then a.1 + 1 else a.1 - 1)
  }

  lemma {:induction false} StaircaseIsWalk(a: Coord, b: Coord)
    ensures |Staircase(a, b)| == Heuristic(b, a) + 1
    ensures Staircase(a, b)[0] == a && Last(Staircase(a, b)) == b
    ensures IsWalk(Staircase(a, b))
    decreases Abs(a.0 - b.0) + Abs(a.1 - b.1)
  {
    if a != b {
      var a' := StairStep(a, b);
      StaircaseIsWalk(a', b);
      var t := Staircase(a', b);
      assert Staircase(a, b) == [a] + t;
      forall i | 1 <= i < |[a] + t|
        ensures Adjacent(([a] + t)[i - 1], ([a] + t)[i])
      {
        if i > 1 {
          assert ([a] + t)[i - 1] == t[i - 2] && ([a] + t)[i] == t[i - 1];
        }
      }
    }
  }

  lemma {:induction false} StaircaseInRectangle(a: Coord, b: Coord)
    ensures forall i | 0 <= i < |Staircase(a, b)| :: Between(Staircase(a, b)[i], a, b)
    decreases Abs(a.0 - b.0) + Abs(a.1 - b.1)
  {
    if a != b {
      var a' := StairStep(a, b);
      StaircaseInRectangle(a', b);
      var t := Staircase(a', b);
      assert Staircase(a, b) == [a] + t;
      forall i | 0 <= i < |[a] + t|
        ensures Between(([a] + t)[i], a, b)
      {
        if i > 0 {
          assert ([a] + t)[i] == t[i - 1] && Between(t[i - 1], a', b);
        }
      }
    }
  }

  /**
    On a map without obstacles, with start and goal inside it, a shortest
    route has exactly the Manhattan distance in steps.
  */
  lemma OpenGridRouteLength(G: ValidGrid, p: seq<Coord>)
    requires G.InBounds(G.start.0, G.start.1) && G.InBounds(G.goal.0, G.goal.1)
    requires forall x, y | G.InBounds(x, y) :: G.At(x, y) != Obstacle
    requires IsShortestRoute(G, p)
    ensures |p| == Heuristic(G.goal, G.start) + 1
  {
    var s := Staircase(G.start, G.goal);
    StaircaseWalk(G.start, G.goal);
    forall i | 1 <= i < |s|
      ensures G.Passable(s[i])
    {
      assert Between(s[i], G.start, G.goal);
    }
    assert IsRoute(G, s);
    RouteAtLeastHeuristic(G, p);
  }

  /** With the goal a passable neighbour of the start, the only shortest route is the two-cell one. */
  lemma NeighbourGoalRoute(G: ValidGrid, p: seq<Coord>)
    requires Adjacent(G.start, G.goal) && G.Passable(G.goal)
    requires IsShortestRoute(G, p)
    ensures p == [G.start, G.goal]
  {
    assert IsRoute(G, [G.start, G.goal]);
    assert |p| != 1;
  }

  /** A column k of obstacles, with the start left of it and the goal right of it, leaves no route. */
  lemma WallBlocks(G: ValidGrid, k: int)
    requires forall y | 0 <= y < G.height :: G.InBounds(k, y) && G.At(k, y) == Obstacle
    requires G.start.0 < k < G.goal.0
    ensures NoRoute(G)
  {
    forall q | IsRoute(G, q)
      ensures false
    {
      var i := CrossColumn(G, q, k);
    }
  }

  /** A path that starts left of column k and ends right of it steps onto a passable cell of the column. */
  lemma CrossColumn(G: ValidGrid, p: seq<Coord>, k: int) returns (i: nat)
    requires IsPath(G, p) && p[0].0 < k < Last(p).0
    ensures 0 < i < |p| && p[i].0 == k && G.Passable(p[i])
  {
    i := 0;
    while p[i].0 < k
      invariant i < |p| && (i == 0 || p[i - 1].0 < k)
      decreases |p| - i
    {
      i := i + 1;
    }
    assert Adjacent(p[i - 1], p[i]);
  }

  /** East, west, south, north. */
  const Dirs: seq<Coord> := [(1, 0), (-1, 0), (0, 1), (0, -1)]

  /** The four directions reach exactly the 4-neighbours of a cell. */
  lemma DirsAreNeighbours(c: Coord, n: Coord)
    ensures Adjacent(c, n) <==> exists j | 0 <= j < |Dirs| :: n == Step(c, Dirs[j])
  {
    if Adjacent(c, n) {
      if n.0 == c.0 + 1 {
        assert n == Step(c, Dirs[0]);
      } else if n.0 == c.0 - 1 {
        assert n == Step(c, Dirs[1]);
      } else if n.1 == c.1 + 1 {
        assert n == Step(c, Dirs[2]);
      } else {
        assert n == Step(c, Dirs[3]);
      }
    }
  }

  /** A gScore entry: a step count, or +infinity for a cell not reached yet. */
  datatype Cost = Infinity | Finite(value: nat) {
    /** t < this, +infinity being above every count. */
    predicate Exceeds(t: nat) {
      Infinity? || t < value
    }
  }

  /** The gScore entry of v that the finite scores D stand for. */
  function CostOf(D: map<Coord, nat>, v: Coord): Cost {
    if v in D then Finite(D[v]) else Infinity
  }

  ghost function AllCells(G: ValidGrid): set<Coord> {
    set x, y | 0 <= x < G.width && 0 <= y < G.height :: (x, y)
  }

  // ---------------------------------------------------------------------------
  // Invariants of the main loop.

  /** Every queue entry sits on a scored cell, carries a g no better than the cell's score, and the cell's heuristic. */
  ghost predicate FrontierSound(G: ValidGrid, D: map<Coord, nat>, open: multiset<Node>) {
    forall n | n in open :: n.Cell() in D && D[n.Cell()] <= n.g && n.h == Heuristic(G.goal, n.Cell())
  }

  /** The queue entry that carries the scored cell v's score. */
  ghost function Entry(G: ValidGrid, D: map<Coord, nat>, v: Coord): Node
    requires v in D
  {
    Node(v.0, v.1, D[v], Heuristic(G.goal, v))
  }

  /** Every scored cell that is not closed has an entry carrying exactly its score. */
  ghost predicate FrontierComplete(G: ValidGrid, C: set<Coord>, D: map<Coord, nat>, open: multiset<Node>) {
    forall v {:trigger Entry(G, D, v)} | v in D && v !in C :: Entry(G, D, v) in open
  }

  /** The start scores 0, scored cells are in bounds, closed cells are scored. */
  ghost predicate ScoresSound(G: ValidGrid, C: set<Coord>, D: map<Coord, nat>) {
    && G.start in D && D[G.start] == 0
    && (forall v | v in D :: G.InBounds(v.0, v.1))
    && (forall v | v in C :: v in D)
  }

  /** p is a closed neighbour of v one step cheaper than v. */
  ghost predicate ParentOf(C: set<Coord>, D: map<Coord, nat>, p: Coord, v: Coord) {
    p in C && p in D && v in D && Adjacent(p, v) && D[v] == D[p] + 1
  }

  /** The start has no parent; every other scored cell is passable and has a parent as above. */
  ghost predicate ParentsSound(G: ValidGrid, C: set<Coord>, D: map<Coord, nat>, P: map<int, Coord>) {
    && Encode(G.start.0, G.start.1, G.width) !in P
    && forall v {:trigger HasParent(G, C, D, P, v)} | v in D && v != G.start :: HasParent(G, C, D, P, v)
  }

  /** v is passable and its parent entry is a closed neighbour one step cheaper. */
  ghost predicate HasParent(G: ValidGrid, C: set<Coord>, D: map<Coord, nat>, P: map<int, Coord>, v: Coord) {
    && G.Passable(v)
    && Encode(v.0, v.1, G.width) in P
    && ParentOf(C, D, P[Encode(v.0, v.1, G.width)], v)
  }

  /** A closed cell's score is no more than the steps of any path to it. */
  ghost predicate ClosedOptimal(G: ValidGrid, C: set<Coord>, D: map<Coord, nat>) {
    forall p | IsPath(G, p) && Last(p) in C :: Last(p) in D && D[Last(p)] <= |p| - 1
  }

  /** The edge c -> n has been relaxed: a passable open n scores at most one more than c. */
  ghost predicate EdgeRelaxed(G: ValidGrid, C: set<Coord>, D: map<Coord, nat>, c: Coord, n: Coord) {
    G.Passable(n) && n !in C ==> c in D && n in D && D[n] <= D[c] + 1
  }

  /** All edges out of closed cells, except those out of the cells X, are relaxed. */
  ghost predicate Settled(G: ValidGrid, C: set<Coord>, D: map<Coord, nat>, X: set<Coord>) {
    forall c, n | c in C && c !in X && Adjacent(c, n) :: EdgeRelaxed(G, C, D, c, n)
  }

  ghost predicate Inv(G: ValidGrid, C: set<Coord>, D: map<Coord, nat>, P: map<int, Coord>, open: multiset<Node>, X: set<Coord>) {
    && FrontierSound(G, D, open)
    && FrontierComplete(G, C, D, open)
    && ScoresSound(G, C, D)
    && ParentsSound(G, C, D, P)
    && ClosedOptimal(G, C, D)
    && Settled(G, C, D, X)
  }

  /** The start is scored 0 and queued with h = Manhattan distance; nothing is closed. */
  lemma InitInv(G: ValidGrid)
    requires G.InBounds(G.start.0, G.start.1)
    ensures Inv(G, {}, map[G.start := 0], map[], multiset{Node(G.start.0, G.start.1, 0, Heuristic(G.goal, G.start))}, {})
  {
  }

  /** The first cell of s outside C. */
  lemma FirstOutside(s: seq<Coord>, C: set<Coord>) returns (i: nat)
    requires |s| > 0 && Last(s) !in C
    ensures i < |s| && s[i] !in C && forall j | 0 <= j < i :: s[j] in C
  {
    i := 0;
    while s[i] in C
      invariant i < |s|
      invariant forall j | 0 <= j < i :: s[j] in C
      decreases |s| - i
    {
      i := i + 1;
    }
  }

  /**
    The A* argument: any path to a cell not yet closed is matched by a queue
    entry whose f is at most the path's steps plus the heuristic at its end.
  */
  lemma FrontierBound(G: ValidGrid, C: set<Coord>, D: map<Coord, nat>, P: map<int, Coord>, open: multiset<Node>, p: seq<Coord>)
    requires Inv(G, C, D, P, open, {})
    requires IsPath(G, p) && Last(p) !in C
    ensures exists n :: n in open && n.F() <= |p| - 1 + Heuristic(G.goal, Last(p))
  {
    var i := FirstOutside(p, C);
    var u := p[i];
    if i > 0 {
      var c := p[i - 1];
      PathPrefix(G, p, i);
      assert D[c] <= i - 1;
      assert Adjacent(c, u) && G.Passable(u);
      assert EdgeRelaxed(G, C, D, c, u);
    }
    assert u in D && D[u] <= i;
    var n := Entry(G, D, u);
    assert n in open;
    HeuristicAlongWalk(G.goal, p, i);
  }

  /** Popping an entry of an already closed cell (a stale duplicate) keeps the invariant. */
  lemma StaleInv(G: ValidGrid, C: set<Coord>, D: map<Coord, nat>, P: map<int, Coord>, open: multiset<Node>, cur: Node)
    requires Inv(G, C, D, P, open, {}) && cur in open && cur.Cell() in C
    ensures Inv(G, C, D, P, open - multiset{cur}, {})
  {
    var rest := open - multiset{cur};
    forall v | v in D && v !in C
      ensures Entry(G, D, v) in rest
    {
      assert Entry(G, D, v) != cur;
    }
  }

  /**
    Closing the top entry's cell: its g is the cell's score and no path to it
    is shorter, so the cell's score is final.
  */
  lemma CloseInv(G: ValidGrid, C: set<Coord>, D: map<Coord, nat>, P: map<int, Coord>, open: multiset<Node>, cur: Node)
    requires Inv(G, C, D, P, open, {}) && IsTop(cur, open) && cur.Cell() !in C
    ensures cur.Cell() in D && D[cur.Cell()] == cur.g
    ensures G.InBounds(cur.x, cur.y)
    ensures Inv(G, C + {cur.Cell()}, D, P, open - multiset{cur}, {cur.Cell()})
  {
    var c := cur.Cell();
    var best := Entry(G, D, c);
    assert best in open;
    assert !Less(cur, best);
    var C' := C + {c};
    var rest := open - multiset{cur};
    forall p | IsPath(G, p) && Last(p) == c
      ensures D[c] <= |p| - 1
    {
      FrontierBound(G, C, D, P, open, p);
      var n :| n in open && n.F() <= |p| - 1 + Heuristic(G.goal, c);
      assert !Less(cur, n);
    }
    assert ClosedOptimal(G, C', D);
    forall v | v in D && v !in C'
      ensures Entry(G, D, v) in rest
    {
      assert Entry(G, D, v) != cur;
    }
    forall v | v in D && v != G.start
      ensures HasParent(G, C', D, P, v)
    {
      assert HasParent(G, C, D, P, v);
    }
  }

  /**
    Relaxing the edge cur -> n with a strictly better score t = g(cur) + 1:
    n gets score t and parent cur, and a new entry; the invariant holds, and
    the edges already relaxed out of cur stay relaxed.
  */
  lemma RelaxInv(G: ValidGrid, C: set<Coord>, D: map<Coord, nat>, P: map<int, Coord>, open: multiset<Node>, cur: Node, n: Coord)
    requires Inv(G, C, D, P, open, {cur.Cell()})
    requires cur.Cell() in C && cur.Cell() in D && D[cur.Cell()] == cur.g
    requires Adjacent(cur.Cell(), n) && G.Passable(n) && n !in C
    requires n !in D || cur.g + 1 < D[n]
    ensures n != G.start
    ensures Inv(G, C, D[n := cur.g + 1], P[Encode(n.0, n.1, G.width) := cur.Cell()],
                open + multiset{Node(n.0, n.1, cur.g + 1, Heuristic(G.goal, n))}, {cur.Cell()})
    ensures forall j | 0 <= j < |Dirs| && EdgeRelaxed(G, C, D, cur.Cell(), Step(cur.Cell(), Dirs[j])) ::
              EdgeRelaxed(G, C, D[n := cur.g + 1], cur.Cell(), Step(cur.Cell(), Dirs[j]))
    ensures EdgeRelaxed(G, C, D[n := cur.g + 1], cur.Cell(), n)
  {
    var t := cur.g + 1;
    var D' := D[n := t];
    RelaxFrontier(G, C, D, open, n, t);
    RelaxParents(G, C, D, P, cur, n);
    assert ScoresSound(G, C, D');
    assert ClosedOptimal(G, C, D');
    RelaxSettled(G, C, D, cur.Cell(), n, t);
  }

  lemma RelaxFrontier(G: ValidGrid, C: set<Coord>, D: map<Coord, nat>, open: multiset<Node>, n: Coord, t: nat)
    requires FrontierSound(G, D, open) && FrontierComplete(G, C, D, open)
    requires n !in D || t < D[n]
    ensures FrontierSound(G, D[n := t], open + multiset{Node(n.0, n.1, t, Heuristic(G.goal, n))})
    ensures FrontierComplete(G, C, D[n := t], open + multiset{Node(n.0, n.1, t, Heuristic(G.goal, n))})
  {
    var D' := D[n := t];
    forall v | v in D' && v !in C
      ensures Entry(G, D', v) in open + multiset{Node(n.0, n.1, t, Heuristic(G.goal, n))}
    {
      if v != n {
        assert Entry(G, D', v) == Entry(G, D, v);
      }
    }
  }

  lemma RelaxParents(G: ValidGrid, C: set<Coord>, D: map<Coord, nat>, P: map<int, Coord>, cur: Node, n: Coord)
    requires ScoresSound(G, C, D) && ParentsSound(G, C, D, P)
    requires cur.Cell() in C && D[cur.Cell()] == cur.g
    requires Adjacent(cur.Cell(), n) && G.Passable(n) && n !in C
    requires n !in D || cur.g + 1 < D[n]
    ensures n != G.start
    ensures ParentsSound(G, C, D[n := cur.g + 1], P[Encode(n.0, n.1, G.width) := cur.Cell()])
    ensures forall v | v in D && v != n :: Encode(v.0, v.1, G.width) != Encode(n.0, n.1, G.width)
  {
    var D' := D[n := cur.g + 1];
    var k := Encode(n.0, n.1, G.width);
    var P' := P[k := cur.Cell()];
    forall v | v in D && v != n
      ensures Encode(v.0, v.1, G.width) != k
    {
      EncodeInjective(v.0, v.1, n.0, n.1, G.width);
    }
    forall v | v in D' && v != G.start
      ensures HasParent(G, C, D', P', v)
    {
      if v != n {
        assert HasParent(G, C, D, P, v);
        var p := P[Encode(v.0, v.1, G.width)];
        assert ParentOf(C, D, p, v);
        assert p != n;
      }
    }
  }

  lemma RelaxSettled(G: ValidGrid, C: set<Coord>, D: map<Coord, nat>, c: Coord, n: Coord, t: nat)
    requires Settled(G, C, D, {c}) && (forall v | v in C :: v in D)
    requires n !in C && (n !in D || t < D[n])
    ensures Settled(G, C, D[n := t], {c})
  {
  }

  /** Once all four directions out of c are relaxed, every edge out of a closed cell is. */
  lemma FinishExpand(G: ValidGrid, C: set<Coord>, D: map<Coord, nat>, P: map<int, Coord>, open: multiset<Node>, c: Coord)
    requires Inv(G, C, D, P, open, {c})
    requires forall j | 0 <= j < |Dirs| :: EdgeRelaxed(G, C, D, c, Step(c, Dirs[j]))
    ensures Inv(G, C, D, P, open, {})
  {
    forall n | Adjacent(c, n)
      ensures EdgeRelaxed(G, C, D, c, n)
    {
      DirsAreNeighbours(c, n);
    }
  }

  /** The tables one pass over the neighbours of a closed cell updates: finite scores, parents, queue. */
  datatype Tables = Tables(D: map<Coord, nat>, P: map<int, Coord>, open: multiset<Node>)

  /**
    The loop body for the neighbour n of the closed cell cur: a passable,
    unclosed n whose score cur.g + 1 beats gets that score, parent cur and a
    new queue entry; otherwise nothing changes.
  */
  ghost function Relax(G: ValidGrid, C: set<Coord>, T: Tables, cur: Node, n: Coord): Tables {
    var t := cur.g + 1;
    if G.Passable(n) && n !in C && CostOf(T.D, n).Exceeds(t) then
      Tables(T.D[n := t], T.P[Encode(n.0, n.1, G.width) := cur.Cell()], T.open + multiset{Node(n.0, n.1, t, Heuristic(G.goal, n))})
    else
      T
  }

  /** The tables once the loop body has run for the first k directions. */
  ghost function RelaxFirst(G: ValidGrid, C: set<Coord>, T: Tables, cur: Node, k: nat): Tables
    requires k <= |Dirs|
  {
    if k == 0 then T else Relax(G, C, RelaxFirst(G, C, T, cur, k - 1), cur, Step(cur.Cell(), Dirs[k - 1]))
  }

  /**
    Running the loop body over the first k directions keeps the invariant,
    keeps cur's score, and relaxes those k edges.
  */
  lemma {:induction false} RelaxFirstInv(G: ValidGrid, C: set<Coord>, T: Tables, cur: Node, k: nat)
    requires k <= |Dirs|
    requires Inv(G, C, T.D, T.P, T.open, {cur.Cell()})
    requires cur.Cell() in C && cur.Cell() in T.D && T.D[cur.Cell()] == cur.g
    ensures Inv(G, C, RelaxFirst(G, C, T, cur, k).D, RelaxFirst(G, C, T, cur, k).P, RelaxFirst(G, C, T, cur, k).open, {cur.Cell()})
    ensures cur.Cell() in RelaxFirst(G, C, T, cur, k).D && RelaxFirst(G, C, T, cur, k).D[cur.Cell()] == cur.g
    ensures forall j | 0 <= j < k :: EdgeRelaxed(G, C, RelaxFirst(G, C, T, cur, k).D, cur.Cell(), Step(cur.Cell(), Dirs[j]))
  {
    if k > 0 {
      RelaxFirstInv(G, C, T, cur, k - 1);
      RelaxStepInv(G, C, RelaxFirst(G, C, T, cur, k - 1), cur, k - 1);
    }
  }

  /** One run of the loop body, for direction k, keeps what RelaxFirstInv promises. */
  lemma RelaxStepInv(G: ValidGrid, C: set<Coord>, R: Tables, cur: Node, k: nat)
    requires k < |Dirs|
    requires Inv(G, C, R.D, R.P, R.open, {cur.Cell()})
    requires cur.Cell() in C && cur.Cell() in R.D && R.D[cur.Cell()] == cur.g
    requires forall j | 0 <= j < k :: EdgeRelaxed(G, C, R.D, cur.Cell(), Step(cur.Cell(), Dirs[j]))
    ensures var R' := Relax(G, C, R, cur, Step(cur.Cell(), Dirs[k]));
      && Inv(G, C, R'.D, R'.P, R'.open, {cur.Cell()})
      && cur.Cell() in R'.D && R'.D[cur.Cell()] == cur.g
      && forall j | 0 <= j < k + 1 :: EdgeRelaxed(G, C, R'.D, cur.Cell(), Step(cur.Cell(), Dirs[j]))
  {
    var n := Step(cur.Cell(), Dirs[k]);
    if G.Passable(n) && n !in C && CostOf(R.D, n).Exceeds(cur.g + 1) {
      DirsAreNeighbours(cur.Cell(), n);
      RelaxInv(G, C, R.D, R.P, R.open, cur, n);
    }
  }

  /**
    Over the first k directions scores only fall, and a closed cell keeps its
    score and its parent.
  */
  lemma {:induction false} RelaxFirstKeepsClosed(G: ValidGrid, C: set<Coord>, T: Tables, cur: Node, k: nat)
    requires k <= |Dirs|
    requires forall v | v in C :: G.InBounds(v.0, v.1)
    ensures forall v | v in T.D :: v in RelaxFirst(G, C, T, cur, k).D && RelaxFirst(G, C, T, cur, k).D[v] <= T.D[v]
    ensures forall v | v in C && v in T.D :: RelaxFirst(G, C, T, cur, k).D[v] == T.D[v]
    ensures forall v | v in C && Encode(v.0, v.1, G.width) in T.P ::
              Encode(v.0, v.1, G.width) in RelaxFirst(G, C, T, cur, k).P
              && RelaxFirst(G, C, T, cur, k).P[Encode(v.0, v.1, G.width)] == T.P[Encode(v.0, v.1, G.width)]
  {
    if k > 0 {
      RelaxFirstKeepsClosed(G, C, T, cur, k - 1);
      var R := RelaxFirst(G, C, T, cur, k - 1);
      var n := Step(cur.Cell(), Dirs[k - 1]);
      if G.Passable(n) && n !in C {
        forall v | v in C
          ensures Encode(v.0, v.1, G.width) != Encode(n.0, n.1, G.width)
        {
          EncodeInjective(v.0, v.1, n.0, n.1, G.width);
        }
      }
    }
  }

  /** Expanding the just-closed cur over all four directions restores the full invariant. */
  lemma ExpandInv(G: ValidGrid, C: set<Coord>, T: Tables, cur: Node)
    requires Inv(G, C, T.D, T.P, T.open, {cur.Cell()})
    requires cur.Cell() in C && cur.Cell() in T.D && T.D[cur.Cell()] == cur.g
    ensures Inv(G, C, RelaxFirst(G, C, T, cur, |Dirs|).D, RelaxFirst(G, C, T, cur, |Dirs|).P, RelaxFirst(G, C, T, cur, |Dirs|).open, {})
  {
    RelaxFirstInv(G, C, T, cur, |Dirs|);
    var R := RelaxFirst(G, C, T, cur, |Dirs|);
    FinishExpand(G, C, R.D, R.P, R.open, cur.Cell());
  }

  /** If the queue runs dry before the goal is closed, no route to the goal exists. */
  lemma NoRouteLeft(G: ValidGrid, C: set<Coord>, D: map<Coord, nat>, P: map<int, Coord>)
    requires Inv(G, C, D, P, multiset{}, {}) && G.goal !in C
    ensures NoRoute(G) && G.start != G.goal
  {
    forall q | IsRoute(G, q)
      ensures false
    {
      FrontierBound(G, C, D, P, multiset{}, q);
    }
    assert !IsRoute(G, [G.start]);
  }
}
