/** Cell states, positions and the pure neighbour policy of the maze.
    A grid is modelled as a finite map from in-bounds positions to cell states;
    a position outside the map is out of bounds. */
module MazeCells {

  /** The six cell states, in the order of the source's enum (WALL is 0). */
  datatype CellType = Wall | Path | Start | End | Visited | Current

  datatype Pos = Pos(row: int, col: int)

  type Grid = map<Pos, CellType>

  /** The start corner, where every search begins. */
  const Origin: Pos := Pos(0, 0)

  /** Row and column offsets of the four neighbours, in the order up, down, left, right. */
  const DR: seq<int> := [-1, 1, 0, 0]
  const DC: seq<int> := [0, 0, -1, 1]

  function Abs(x: int): (a: int)
    ensures a >= 0 && (a == x || a == -x)
  {
    if x < 0 then -x else x
  }

  /** Manhattan distance between (r1, c1) and (r2, c2). */
  function Manhattan(r1: int, c1: int, r2: int, c2: int): (d: int)
    ensures d >= 0
    ensures d == 0 <==> r1 == r2 && c1 == c2
    ensures d >= Abs(r1 - r2) && d >= Abs(c1 - c2)
  {
    Abs(r1 - r2) + Abs(c1 - c2)
  }

  lemma ManhattanSymmetric(r1: int, c1: int, r2: int, c2: int)
    ensures Manhattan(r1, c1, r2, c2) == Manhattan(r2, c2, r1, c1)
  {
  }

  /** The positions of the grid with `rows` rows and `cols` columns. */
  predicate InBounds(p: Pos, rows: int, cols: int)
  {
    0 <= p.row < rows && 0 <= p.col < cols
  }

  /** All positions of a rows-by-cols grid. */
  ghost function Box(rows: int, cols: int): (b: set<Pos>)
    ensures forall p :: p in b <==> InBounds(p, rows, cols)
  {
    var b := set i, j | 0 <= i < rows && 0 <= j < cols :: Pos(i, j);
    assert forall p :: InBounds(p, rows, cols) ==> p in b by {
      forall p | InBounds(p, rows, cols)
        ensures p in b
      {
        assert p == Pos(p.row, p.col);
      }
    }
    b
  }

  /** The grid's domain is exactly the in-bounds positions. */
  ghost predicate Shaped(g: Grid, rows: int, cols: int)
  {
    forall p :: p in g <==> InBounds(p, rows, cols)
  }

  /** Two positions are 4-connected neighbours. */
  predicate Adjacent(p: Pos, q: Pos)
  {
    Manhattan(p.row, p.col, q.row, q.col) == 1
  }

  /** The i-th neighbour of p: up, down, left, right for i = 0, 1, 2, 3. */
  function Neighbour(p: Pos, i: int): (n: Pos)
    requires 0 <= i < 4
    ensures Adjacent(p, n) && n != p
  {
    Pos(p.row + DR[i], p.col + DC[i])
  }

  /** The index of x among the neighbours of p, or 4 when x is not a neighbour. */
  function Direction(p: Pos, x: Pos): (i: int)
    ensures 0 <= i <= 4
    ensures i < 4 ==> x == Neighbour(p, i)
  {
    if x == Neighbour(p, 0) then 0
    else if x == Neighbour(p, 1) then 1
    else if x == Neighbour(p, 2) then 2
    else if x == Neighbour(p, 3) then 3
    else 4
  }

  /** The four neighbours are distinct, so each has its own direction. */
  lemma DirectionOfNeighbour(p: Pos, i: int)
    requires 0 <= i < 4
    ensures Direction(p, Neighbour(p, i)) == i
  {
  }

  /** Every 4-connected neighbour is one of the four generated neighbours. */
  lemma AdjacentIsNeighbour(p: Pos, x: Pos)
    requires Adjacent(p, x)
    ensures Direction(p, x) < 4
  {
    var dr, dc := x.row - p.row, x.col - p.col;
    assert Abs(dr) + Abs(dc) == 1;
    if dr == -1 {
      assert dc == 0 && x == Neighbour(p, 0);
    } else if dr == 1 {
      assert dc == 0 && x == Neighbour(p, 1);
    } else if dc == -1 {
      assert x == Neighbour(p, 2);
    } else {
      assert dr == 0 && dc == 1 && x == Neighbour(p, 3);
    }
  }

  /** The neighbour filter: in bounds, and the cell is PATH or END. */
  predicate Passable(g: Grid, p: Pos)
  {
    p in g && (g[p] == Path || g[p] == End)
  }

  /** The neighbours of p among the first n directions that pass the filter on g,
      in the order they are generated. */
  function Pushed(g: Grid, p: Pos, n: int): (ns: seq<Pos>)
    requires 0 <= n <= 4
    decreases n
  {
    if n == 0 then []
    else Pushed(g, p, n - 1) + (if Passable(g, Neighbour(p, n - 1)) then [Neighbour(p, n - 1)] else [])
  }

  /** Only neighbours among the first n directions that pass the filter are pushed. */
  lemma {:induction false} PushedSound(g: Grid, p: Pos, n: int)
    requires 0 <= n <= 4
    ensures forall x :: x in Pushed(g, p, n) ==> Passable(g, x) && Direction(p, x) < n
    decreases n
  {
    if n > 0 {
      PushedSound(g, p, n - 1);
      DirectionOfNeighbour(p, n - 1);
    }
  }

  /** Every neighbour among the first n directions that passes the filter is pushed. */
  lemma {:induction false} PushedComplete(g: Grid, p: Pos, n: int)
    requires 0 <= n <= 4
    ensures forall i :: 0 <= i < n && Passable(g, Neighbour(p, i)) ==> Neighbour(p, i) in Pushed(g, p, n)
    decreases n
  {
    if n > 0 {
      PushedComplete(g, p, n - 1);
    }
  }

  /** The pushed neighbours come in the order up, down, left, right. */
  lemma {:induction false} PushedOrdered(g: Grid, p: Pos, n: int)
    requires 0 <= n <= 4
    ensures forall a, b :: 0 <= a < b < |Pushed(g, p, n)| ==>
              Direction(p, Pushed(g, p, n)[a]) < Direction(p, Pushed(g, p, n)[b])
    decreases n
  {
    if n > 0 {
      PushedOrdered(g, p, n - 1);
      PushedSound(g, p, n - 1);
      DirectionOfNeighbour(p, n - 1);
      var prefix, ns := Pushed(g, p, n - 1), Pushed(g, p, n);
      forall a, b | 0 <= a < b < |ns|
        ensures Direction(p, ns[a]) < Direction(p, ns[b])
      {
        if b >= |prefix| {
          assert ns[a] == prefix[a] && prefix[a] in prefix;
        } else {
          assert ns[a] == prefix[a] && ns[b] == prefix[b];
        }
      }
    }
  }

  /** No neighbour is pushed twice by one expansion. */
  lemma {:induction false} PushedDistinct(g: Grid, p: Pos, n: int)
    requires 0 <= n <= 4
    ensures forall x :: multiset(Pushed(g, p, n))[x] <= 1
    decreases n
  {
    if n > 0 {
      PushedDistinct(g, p, n - 1);
      PushedSound(g, p, n - 1);
      DirectionOfNeighbour(p, n - 1);
      assert Neighbour(p, n - 1) !in Pushed(g, p, n - 1);
    }
  }

  /** The grid after each pushed neighbour that is not END has been marked VISITED. */
  function MarkPushed(g: Grid, ns: seq<Pos>): (r: Grid)
    ensures r.Keys == g.Keys
    ensures forall x :: x in g && x in ns && g[x] != End ==> r[x] == Visited
    ensures forall x :: x in g && (x !in ns || g[x] == End) ==> r[x] == g[x]
  {
    map x | x in g :: if x in ns && g[x] != End then Visited else g[x]
  }

  /** Marking the i-th pushed neighbour, as the push loop does after appending it. */
  lemma MarkPushedSnoc(g: Grid, ns: seq<Pos>, x: Pos)
    requires x in g
    ensures MarkPushed(g, ns + [x]) ==
            if g[x] != End then MarkPushed(g, ns)[x := Visited] else MarkPushed(g, ns)
  {
    var lhs := MarkPushed(g, ns + [x]);
    var rhs := if g[x] != End then MarkPushed(g, ns)[x := Visited] else MarkPushed(g, ns);
    assert lhs.Keys == rhs.Keys;
    forall y | y in lhs
      ensures lhs[y] == rhs[y]
    {
      assert y in ns + [x] <==> y in ns || y == x;
    }
  }

  /** The i-th iteration of the push loop: the i-th neighbour has not been
      marked by the earlier iterations, so the filter sees it as it was, and
      pushing and marking it gives the state after i + 1 iterations. */
  lemma PushStep(g: Grid, p: Pos, i: int)
    requires 0 <= i < 4
    ensures Neighbour(p, i) !in Pushed(g, p, i)
    ensures Passable(MarkPushed(g, Pushed(g, p, i)), Neighbour(p, i)) == Passable(g, Neighbour(p, i))
    ensures Neighbour(p, i) in g ==> MarkPushed(g, Pushed(g, p, i))[Neighbour(p, i)] == g[Neighbour(p, i)]
    ensures !Passable(g, Neighbour(p, i)) ==> Pushed(g, p, i + 1) == Pushed(g, p, i)
    ensures Passable(g, Neighbour(p, i)) ==> Pushed(g, p, i + 1) == Pushed(g, p, i) + [Neighbour(p, i)]
    ensures Passable(g, Neighbour(p, i)) ==>
              MarkPushed(g, Pushed(g, p, i + 1)) ==
              if g[Neighbour(p, i)] != End then MarkPushed(g, Pushed(g, p, i))[Neighbour(p, i) := Visited]
              else MarkPushed(g, Pushed(g, p, i))
  {
    DirectionOfNeighbour(p, i);
    PushedSound(g, p, i);
    assert Pushed(g, p, i + 1) == Pushed(g, p, i) + (if Passable(g, Neighbour(p, i)) then [Neighbour(p, i)] else []);
    if Passable(g, Neighbour(p, i)) {
      MarkPushedSnoc(g, Pushed(g, p, i), Neighbour(p, i));
    }
  }

  /** The cell drawn by `rand() % 3 == 0 ? WALL : PATH` for a non-negative draw. */
  function Drawn(v: nat): (c: CellType)
    ensures c == Wall || c == Path
    ensures c == Wall <==> v % 3 == 0
  {
    if v % 3 == 0 then Wall else Path
  }

  /** Where the draw for cell (i, j) sits in the row-major stream of draws. */
  function DrawIndex(i: int, j: int, rows: int, cols: int): (k: nat)
    requires 0 <= i < rows && 0 <= j < cols
    ensures k < rows * cols
  {
    assert i * cols + j < rows * cols by {
      assert (i + 1) * cols <= rows * cols;
    }
    i * cols + j
  }

  /** What `resetMaze` does to one cell. */
  function Cleared(c: CellType): (r: CellType)
    ensures r != Visited && r != Current
    ensures c == Visited || c == Current ==> r == Path
    ensures c != Visited && c != Current ==> r == c
  {
    if c == Visited || c == Current then Path else c
  }

  /** The whole grid after `resetMaze`. */
  function ResetGrid(g: Grid): (r: Grid)
    ensures r.Keys == g.Keys
    ensures forall x :: x in r ==> r[x] == Cleared(g[x])
  {
    map x | x in g :: Cleared(g[x])
  }

  /** Resetting twice is the same as resetting once. */
  lemma ResetIdempotent(g: Grid)
    ensures ResetGrid(ResetGrid(g)) == ResetGrid(g)
  {
  }
}
