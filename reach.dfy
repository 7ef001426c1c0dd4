/** Reachability from the start corner: the graph the three searches explore.
    A walk starts at (0,0), whatever that cell holds, and each further step goes
    to a 4-connected neighbour that passes the neighbour filter. */
module Reachability {
  import opened MazeCells

  /** Step k of walk w moves to an adjacent passable cell. */
  ghost predicate Step(g: Grid, w: seq<Pos>, k: int)
    requires 0 <= k < |w| - 1
  {
    Adjacent(w[k], w[k + 1]) && Passable(g, w[k + 1])
  }

  ghost predicate IsWalk(g: Grid, w: seq<Pos>)
  {
    |w| > 0 && w[0] == Origin && forall k :: 0 <= k < |w| - 1 ==> Step(g, w, k)
  }

  ghost predicate Reachable(g: Grid, x: Pos)
  {
    exists w :: IsWalk(g, w) && w[|w| - 1] == x
  }

  /** Some END cell can be reached from the start corner. */
  ghost predicate GoalReachable(g: Grid)
  {
    exists x :: Reachable(g, x) && x in g && g[x] == End
  }

  /** A set of positions that holds the start corner and every passable
      neighbour of each of its members. */
  ghost predicate Closed(g: Grid, s: set<Pos>)
  {
    Origin in s &&
    forall p, i :: p in s && 0 <= i < 4 && Passable(g, Neighbour(p, i)) ==> Neighbour(p, i) in s
  }

  lemma ReachOrigin(g: Grid)
    ensures Reachable(g, Origin)
  {
    assert IsWalk(g, [Origin]);
  }

  /** Reachability extends along one step to a passable neighbour. */
  lemma ReachStep(g: Grid, p: Pos, x: Pos)
    requires Reachable(g, p) && Adjacent(p, x) && Passable(g, x)
    ensures Reachable(g, x)
  {
    var w: seq<Pos> :| IsWalk(g, w) && w[|w| - 1] == p;
    var w' := w + [x];
    forall k | 0 <= k < |w'| - 1
      ensures Step(g, w', k)
    {
      if k < |w| - 1 {
        assert Step(g, w, k);
      }
    }
    assert IsWalk(g, w');
  }

  lemma {:induction false} WalkStaysInClosed(g: Grid, s: set<Pos>, w: seq<Pos>)
    requires Closed(g, s) && IsWalk(g, w)
    ensures w[|w| - 1] in s
    decreases |w|
  {
    if |w| > 1 {
      var w' := w[..|w| - 1];
      forall k | 0 <= k < |w'| - 1
        ensures Step(g, w', k)
      {
        assert Step(g, w, k);
      }
      WalkStaysInClosed(g, s, w');
      var p := w[|w| - 2];
      assert Step(g, w, |w| - 2);
      AdjacentIsNeighbour(p, w[|w| - 1]);
    }
  }

  /** Every reachable cell belongs to every closed set. */
  lemma ReachableInClosed(g: Grid, s: set<Pos>, x: Pos)
    requires Closed(g, s) && Reachable(g, x)
    ensures x in s
  {
    var w: seq<Pos> :| IsWalk(g, w) && w[|w| - 1] == x;
    WalkStaysInClosed(g, s, w);
  }

  /** On a grid whose every cell except the start corner is PATH or END and whose
      far corner is END, the goal is reachable: walk right along row 0, then down
      the last column. */
  lemma OpenGridGoalReachable(g: Grid, rows: int, cols: int)
    requires rows > 0 && cols > 0 && Shaped(g, rows, cols)
    requires forall x :: x in g && x != Origin ==> g[x] == Path || g[x] == End
    requires g[Pos(rows - 1, cols - 1)] == End
    ensures GoalReachable(g)
  {
    ReachOrigin(g);
    var j := 0;
    while j < cols - 1
      invariant 0 <= j <= cols - 1
      invariant Reachable(g, Pos(0, j))
    {
      ReachStep(g, Pos(0, j), Pos(0, j + 1));
      j := j + 1;
    }
    var i := 0;
    while i < rows - 1
      invariant 0 <= i <= rows - 1
      invariant Reachable(g, Pos(i, cols - 1))
    {
      ReachStep(g, Pos(i, cols - 1), Pos(i + 1, cols - 1));
      i := i + 1;
    }
    assert Reachable(g, Pos(rows - 1, cols - 1));
  }

  /** When the start corner is not a wall and every END cell other than it is
      surrounded by walls and the border, no END cell is reachable. */
  lemma EnclosedGoalUnreachable(g: Grid)
    requires Origin in g && g[Origin] != Wall && g[Origin] != End
    requires forall x, i :: x in g && g[x] == End && 0 <= i < 4 && Neighbour(x, i) in g ==>
               g[Neighbour(x, i)] == Wall
    ensures !GoalReachable(g)
  {
    forall x | Reachable(g, x) && x in g
      ensures g[x] != End
    {
      var w: seq<Pos> :| IsWalk(g, w) && w[|w| - 1] == x;
      if |w| > 1 {
        var p: Pos := w[|w| - 2];
        assert Step(g, w, |w| - 2);
        ManhattanSymmetric(p.row, p.col, x.row, x.col);
        AdjacentIsNeighbour(x, p);
        if |w| > 2 {
          assert Step(g, w, |w| - 3);
        }
        assert p in g && g[p] != Wall && p == Neighbour(x, Direction(x, p));
      }
    }
  }
}
