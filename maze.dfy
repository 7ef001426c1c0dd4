/** The maze engine: one rows-by-cols grid of cells, updated in place by
    generation, the step marking, the three searches and the reset. */
module MazeEngine {
  import opened MazeCells
  import opened Reachability
  import opened Frontier
  import opened SearchProof

  class Maze {
    /** The grid, indexed [row, column]. */
    const grid: array2<CellType>
    /** The same grid as a map from positions to cells. */
    ghost var cells: Grid

    ghost predicate Valid()
      reads this, grid
    {
      grid.Length0 > 0 && grid.Length1 > 0 &&
      Shaped(cells, grid.Length0, grid.Length1) &&
      forall i, j :: 0 <= i < grid.Length0 && 0 <= j < grid.Length1 ==> cells[Pos(i, j)] == grid[i, j]
    }

    /** The far corner, where generation places END and towards which the
        priority queue orders its entries. */
    function Goal(): (p: Pos)
    {
      Pos(grid.Length0 - 1, grid.Length1 - 1)
    }

    /** A fresh grid is filled with WALL, the zero value of the enumeration. */
    constructor (rows: int, cols: int)
      requires rows > 0 && cols > 0
      ensures Valid() && fresh(grid)
      ensures grid.Length0 == rows && grid.Length1 == cols
      ensures forall x :: x in cells ==> cells[x] == Wall
    {
      grid := new CellType[rows, cols]((i, j) => Wall);
      cells := map x | x in Box(rows, cols) :: Wall;
    }

    /** One cell assignment, on the array and its map view. */
    method SetCell(row: int, col: int, v: CellType)
      requires Valid() && 0 <= row < grid.Length0 && 0 <= col < grid.Length1
      modifies this, grid
      ensures Valid() && cells == old(cells)[Pos(row, col) := v]
    {
      grid[row, col] := v;
      cells := cells[Pos(row, col) := v];
    }

    /** One pass of the inner loop of the fill: row i takes its draws. */
    method FillRow(i: int, draws: seq<nat>)
      requires Valid() && 0 <= i < grid.Length0 && |draws| >= grid.Length0 * grid.Length1
      modifies this, grid
      ensures Valid()
      ensures forall a, b :: 0 <= a < grid.Length0 && 0 <= b < grid.Length1 ==>
                cells[Pos(a, b)] == if a == i then Drawn(draws[DrawIndex(a, b, grid.Length0, grid.Length1)])
                                    else old(cells)[Pos(a, b)]
    {
      ghost var g := cells;
      var rows, cols := grid.Length0, grid.Length1;
      for j := 0 to cols
        invariant Valid()
        invariant forall a, b :: 0 <= a < rows && 0 <= b < cols ==>
                    cells[Pos(a, b)] == if a == i && b < j then Drawn(draws[DrawIndex(a, b, rows, cols)]) else g[Pos(a, b)]
      {
        SetCell(i, j, Drawn(draws[DrawIndex(i, j, rows, cols)]));
      }
    }

    /** Fills the grid from the stream of `rand()` results, one draw per cell in
        row-major order: WALL when the draw is divisible by 3, PATH otherwise.
        Then (0,0) becomes START and the far corner END, whatever was drawn. */
    method Initialize(draws: seq<nat>)
      requires Valid() && |draws| >= grid.Length0 * grid.Length1
      modifies this, grid
      ensures Valid()
      ensures cells[Goal()] == End
      ensures Goal() != Origin ==> cells[Origin] == Start
      ensures forall i, j ::
                (0 <= i < grid.Length0 && 0 <= j < grid.Length1 && Pos(i, j) != Origin && Pos(i, j) != Goal()) ==>
                cells[Pos(i, j)] == Drawn(draws[DrawIndex(i, j, grid.Length0, grid.Length1)])
    {
      var rows, cols := grid.Length0, grid.Length1;
      for i := 0 to rows
        invariant Valid()
        invariant forall a, b :: 0 <= a < i && 0 <= b < cols ==>
                    cells[Pos(a, b)] == Drawn(draws[DrawIndex(a, b, rows, cols)])
      {
        FillRow(i, draws);
      }
      SetCell(0, 0, Start);
      SetCell(rows - 1, cols - 1, End);
    }

    /** The step marking: the cell becomes CURRENT, is drawn, and becomes VISITED. */
    method AnimateStep(row: int, col: int)
      requires Valid() && 0 <= row < grid.Length0 && 0 <= col < grid.Length1
      modifies this, grid
      ensures Valid() && cells == old(cells)[Pos(row, col) := Visited]
    {
      SetCell(row, col, Current);
      SetCell(row, col, Visited);
    }

    /** The neighbour filter on the grid. */
    function IsValid(row: int, col: int): (ok: bool)
      reads this, grid
      requires Valid()
      ensures ok ==> 0 <= row < grid.Length0 && 0 <= col < grid.Length1
      ensures ok <==> Passable(cells, Pos(row, col))
    {
      0 <= row < grid.Length0 && 0 <= col < grid.Length1 &&
      (grid[row, col] == Path || grid[row, col] == End)
    }

    /** Iteration i of the push loop over the neighbours of p = (row, col), where
        g is the grid before the loop and q0 the container before it: looks at the
        i-th neighbour and, when it passes the filter, pushes it and marks it
        VISITED unless it is END. */
    method PushNeighbour(row: int, col: int, i: int, ghost g: Grid, ghost q0: seq<Pos>, q: seq<Pos>)
      returns (q': seq<Pos>)
      requires Valid() && 0 <= i < 4
      requires q == q0 + Pushed(g, Pos(row, col), i)
      requires cells == MarkPushed(g, Pushed(g, Pos(row, col), i))
      modifies this, grid
      ensures Valid()
      ensures q' == q0 + Pushed(g, Pos(row, col), i + 1)
      ensures cells == MarkPushed(g, Pushed(g, Pos(row, col), i + 1))
    {
      ghost var p := Pos(row, col);
      ghost var n := Neighbour(p, i);
      PushStep(g, p, i);
      var newRow := row + DR[i];
      var newCol := col + DC[i];
      assert Pos(newRow, newCol) == n;
      q' := q;
      if IsValid(newRow, newCol) {
        q' := q' + [Pos(newRow, newCol)];
        if grid[newRow, newCol] != End {
          SetCell(newRow, newCol, Visited);
        }
      }
    }

    /** Pushes every neighbour of (row, col) that passes the filter, in the order
        up, down, left, right, and marks each pushed non-END one VISITED. */
    method PushNeighbours(row: int, col: int, q: seq<Pos>) returns (q': seq<Pos>)
      requires Valid()
      modifies this, grid
      ensures Valid()
      ensures q' == q + Pushed(old(cells), Pos(row, col), 4)
      ensures cells == MarkPushed(old(cells), Pushed(old(cells), Pos(row, col), 4))
    {
      ghost var g := cells;
      q' := q;
      assert cells == MarkPushed(g, Pushed(g, Pos(row, col), 0));
      for i := 0 to 4
        invariant Valid()
        invariant q' == q + Pushed(g, Pos(row, col), i)
        invariant cells == MarkPushed(g, Pushed(g, Pos(row, col), i))
      {
        q' := PushNeighbour(row, col, i, g, q, q');
      }
    }

    /** The worklist loop shared by bfs, dfs and astar, with container discipline d. */
    method Search(d: Discipline) returns (found: bool)
      requires Valid()
      modifies this, grid
      ensures Valid()
      ensures SearchOutcome(old(cells), cells, found)
    {
      ghost var g0 := cells;
      ghost var e: set<Pos> := {};
      var q := [Origin];
      InvInit(g0);
      while q != []
        invariant Valid() && SearchInv(g0, cells, q, e)
        decreases g0.Keys - e
      {
        var k := Pop(d, q, Goal());
        var p := q[k];
        assert p in q;
        ghost var q0, g := q, cells;
        q := Remove(q, k);
        if grid[p.row, p.col] == End {
          InvFound(g0, g, q0, e, k);
          return true;
        }
        InvStep(g0, g, q0, e, k);
        AnimateStep(p.row, p.col);
        q := PushNeighbours(p.row, p.col, q);
        e := e + {p};
      }
      InvExhausted(g0, cells, e);
      return false;
    }

    /** Breadth-first search: a FIFO queue. */
    method Bfs() returns (found: bool)
      requires Valid()
      modifies this, grid
      ensures Valid()
      ensures SearchOutcome(old(cells), cells, found)
    {
      found := Search(Fifo);
    }

    /** Depth-first search: a LIFO stack. */
    method Dfs() returns (found: bool)
      requires Valid()
      modifies this, grid
      ensures Valid()
      ensures SearchOutcome(old(cells), cells, found)
    {
      found := Search(Lifo);
    }

    /** Greedy best-first search: a min-priority queue keyed only on the Manhattan
        distance to the far corner, with no path cost. */
    method AStar() returns (found: bool)
      requires Valid()
      modifies this, grid
      ensures Valid()
      ensures SearchOutcome(old(cells), cells, found)
    {
      found := Search(MinKey);
    }

    /** One pass of the inner loop of `resetMaze`: row i is cleared. */
    method ClearRow(i: int)
      requires Valid() && 0 <= i < grid.Length0
      modifies this, grid
      ensures Valid()
      ensures forall a, b :: 0 <= a < grid.Length0 && 0 <= b < grid.Length1 ==>
                cells[Pos(a, b)] == if a == i then Cleared(old(cells)[Pos(a, b)]) else old(cells)[Pos(a, b)]
    {
      ghost var g := cells;
      var rows, cols := grid.Length0, grid.Length1;
      for j := 0 to cols
        invariant Valid()
        invariant forall a, b :: 0 <= a < rows && 0 <= b < cols ==>
                    cells[Pos(a, b)] == if a == i && b < j then Cleared(g[Pos(a, b)]) else g[Pos(a, b)]
      {
        if grid[i, j] == Visited || grid[i, j] == Current {
          SetCell(i, j, Path);
        }
      }
    }

    /** Turns every VISITED and CURRENT cell back into PATH. */
    method Reset()
      requires Valid()
      modifies this, grid
      ensures Valid() && cells == ResetGrid(old(cells))
    {
      ghost var g := cells;
      var rows, cols := grid.Length0, grid.Length1;
      for i := 0 to rows
        invariant Valid()
        invariant forall a, b :: 0 <= a < rows && 0 <= b < cols ==>
                    cells[Pos(a, b)] == if a < i then Cleared(g[Pos(a, b)]) else g[Pos(a, b)]
      {
        ClearRow(i);
      }
      assert cells.Keys == ResetGrid(g).Keys;
      forall x | x in cells
        ensures cells[x] == ResetGrid(g)[x]
      {
        assert x == Pos(x.row, x.col);
      }
    }

    /** A search key press: reset the grid, then search it. */
    method ResetAndSearch(d: Discipline) returns (found: bool)
      requires Valid()
      modifies this, grid
      ensures Valid()
      ensures SearchOutcome(ResetGrid(old(cells)), cells, found)
    {
      Reset();
      found := Search(d);
    }
  }
}
