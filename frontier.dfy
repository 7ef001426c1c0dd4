/** The three worklist disciplines. Every container is a sequence of positions
    that grows at the back; the disciplines differ only in which entry they pop. */
module Frontier {
  import opened MazeCells

  /** `std::queue` (bfs), `std::stack` (dfs) and the min-first `std::priority_queue` (astar). */
  datatype Discipline = Fifo | Lifo | MinKey

  /** The priority-queue key of a position: its Manhattan distance to the goal corner. */
  function Key(p: Pos, goal: Pos): (k: int)
    ensures k >= 0
    ensures k == 0 <==> p == goal
  {
    Manhattan(p.row, p.col, goal.row, goal.col)
  }

  /** Index k holds a key no larger than any other queued key. */
  predicate MinimalAt(q: seq<Pos>, goal: Pos, k: int)
    requires 0 <= k < |q|
  {
    forall j :: 0 <= j < |q| ==> Key(q[k], goal) <= Key(q[j], goal)
  }

  /** A non-empty sequence has an entry of minimal key. */
  lemma {:induction false} MinimalExists(q: seq<Pos>, goal: Pos)
    requires |q| > 0
    ensures exists k :: 0 <= k < |q| && MinimalAt(q, goal, k)
    decreases |q|
  {
    if |q| == 1 {
      assert MinimalAt(q, goal, 0);
    } else {
      var init := q[..|q| - 1];
      MinimalExists(init, goal);
      var k :| 0 <= k < |init| && MinimalAt(init, goal, k);
      if Key(q[|q| - 1], goal) < Key(q[k], goal) {
        assert MinimalAt(q, goal, |q| - 1);
      } else {
        assert MinimalAt(q, goal, k) by {
          forall j | 0 <= j < |q|
            ensures Key(q[k], goal) <= Key(q[j], goal)
          {
            if j < |q| - 1 {
              assert q[j] == init[j];
            }
          }
        }
      }
    }
  }

  /** The index of the entry the container pops next: the front of the queue,
      the top of the stack (the most recent push), or some entry whose key is
      minimal, the tie left open as `std::priority_queue` leaves it. */
  method Pop(d: Discipline, q: seq<Pos>, goal: Pos) returns (k: int)
    requires |q| > 0
    ensures 0 <= k < |q|
    ensures d == Fifo ==> k == 0
    ensures d == Lifo ==> k == |q| - 1
    ensures d == MinKey ==> forall j :: 0 <= j < |q| ==> Key(q[k], goal) <= Key(q[j], goal)
  {
    match d
    case Fifo =>
      k := 0;
    case Lifo =>
      k := |q| - 1;
    case MinKey =>
      MinimalExists(q, goal);
      k :| 0 <= k < |q| && MinimalAt(q, goal, k);
  }

  /** The container without its entry at index k. */
  function Remove(q: seq<Pos>, k: int): (r: seq<Pos>)
    requires 0 <= k < |q|
    ensures |r| == |q| - 1
    ensures multiset(q) == multiset(r) + multiset{q[k]}
    ensures forall x :: x in r ==> x in q
    ensures forall x :: x in q && x != q[k] ==> x in r
  {
    assert q == q[..k] + [q[k]] + q[k + 1..];
    q[..k] + q[k + 1..]
  }
}
