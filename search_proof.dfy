/** The worklist loop shared by bfs, dfs and astar, stated over grid values:
    what the loop keeps true between iterations, what one iteration does, and
    what holds when the loop stops. The loop pops an entry, stops if its cell
    is END, and otherwise marks the cell VISITED and pushes its passable
    neighbours, marking each non-END one VISITED at push time. */
module SearchProof {
  import opened MazeCells
  import opened Reachability
  import opened Frontier

  /** The grid after one expansion of p: the step marking leaves p VISITED, then
      the neighbours that pass the filter on that grid are pushed and marked. */
  function AfterStep(g: Grid, p: Pos): (g': Grid)
  {
    MarkPushed(g[p := Visited], Pushed(g[p := Visited], p, 4))
  }

  /** Only the start corner and PATH cells change, each to VISITED, and each
      changed cell has been expanded or is waiting in the container. */
  ghost predicate InvChanges(g0: Grid, g: Grid, q: seq<Pos>, e: set<Pos>)
  {
    g.Keys == g0.Keys &&
    forall x :: x in g0 && g[x] != g0[x] ==>
      g[x] == Visited && g0[x] != End && (g0[x] == Path || x == Origin) && (x in e || x in q)
  }

  /** Expanded cells are reachable, were not END, and are now VISITED; the
      start corner is the first one. */
  ghost predicate InvExpanded(g0: Grid, g: Grid, q: seq<Pos>, e: set<Pos>)
  {
    (forall x :: x in e ==> x in g0 && x in g && g0[x] != End && g[x] == Visited && Reachable(g0, x)) &&
    (e == {} ==> q == [Origin] && g == g0) &&
    (e != {} ==> Origin in e)
  }

  /** Every queued entry is reachable; a non-END one is not yet expanded and,
      after the first pop, is already marked VISITED. */
  ghost predicate InvQueued(g0: Grid, g: Grid, q: seq<Pos>, e: set<Pos>)
  {
    (forall x :: x in q ==> x in g0 && x in g && Reachable(g0, x)) &&
    (forall x :: x in q && g0[x] != End ==>
       x !in e && (g0[x] == Path || x == Origin) && (e != {} ==> g[x] == Visited))
  }

  /** No non-END position is queued twice. */
  ghost predicate InvDistinct(g0: Grid, q: seq<Pos>)
  {
    forall x :: x in g0 && g0[x] != End ==> multiset(q)[x] <= 1
  }

  /** Every passable neighbour of an expanded cell has been pushed. */
  ghost predicate InvClosed(g0: Grid, q: seq<Pos>, e: set<Pos>)
  {
    forall p, i :: p in e && 0 <= i < 4 && Passable(g0, Neighbour(p, i)) ==>
      Neighbour(p, i) in e || Neighbour(p, i) in q
  }

  /** What the grid may hold between iterations. g0 is the grid the search
      started on, g the current grid, q the container and e the cells expanded
      so far (popped, found not END and passed to the step marking). */
  ghost predicate SearchInv(g0: Grid, g: Grid, q: seq<Pos>, e: set<Pos>)
  {
    Origin in g0 &&
    InvChanges(g0, g, q, e) && InvExpanded(g0, g, q, e) && InvQueued(g0, g, q, e) &&
    InvDistinct(g0, q) && InvClosed(g0, q, e)
  }

  /** What a finished search guarantees about the grid it ran on. */
  ghost predicate SearchOutcome(g0: Grid, g: Grid, found: bool)
  {
    Origin in g0 && g.Keys == g0.Keys &&
    // found exactly when some END cell is reachable from the start corner
    (found <==> GoalReachable(g0)) &&
    // the only changes are reachable PATH cells, and the start corner, becoming VISITED
    (forall x :: x in g0 && g[x] != g0[x] ==>
       g[x] == Visited && Reachable(g0, x) && (g0[x] == Path || x == Origin)) &&
    // WALL and END cells away from the start corner are never modified
    (forall x :: x in g0 && x != Origin && (g0[x] == Wall || g0[x] == End) ==> g[x] == g0[x]) &&
    // the start corner is popped and marked first, unless it is END
    g[Origin] == (if g0[Origin] == End then End else Visited) &&
    (g0[Origin] == End ==> found && g == g0) &&
    // an exhausted search has marked every reachable cell
    (!found ==> forall x :: x in g0 && Reachable(g0, x) ==> g[x] == Visited)
  }

  /** The container starts with the start corner alone. */
  lemma InvInit(g0: Grid)
    requires Origin in g0
    ensures SearchInv(g0, g0, [Origin], {})
  {
    ReachOrigin(g0);
  }

  /** Popping an END cell ends the search with "found". */
  lemma InvFound(g0: Grid, g: Grid, q: seq<Pos>, e: set<Pos>, k: int)
    requires SearchInv(g0, g, q, e) && 0 <= k < |q|
    requires q[k] in g && g[q[k]] == End
    ensures SearchOutcome(g0, g, true)
  {
    var p := q[k];
    assert p in q;
    assert g0[p] == End;
    assert GoalReachable(g0);
  }

  /** An empty container ends the search with "not found": the expanded cells
      form a closed set, so every reachable cell was expanded, and none was END. */
  lemma InvExhausted(g0: Grid, g: Grid, e: set<Pos>)
    requires SearchInv(g0, g, [], e)
    ensures SearchOutcome(g0, g, false)
  {
    assert Closed(g0, e);
    forall x | Reachable(g0, x)
      ensures x in e
    {
      ReachableInClosed(g0, e, x);
    }
    assert !GoalReachable(g0);
  }

  /** The popped entry at index k is an unexpanded reachable cell. */
  lemma PoppedFacts(g0: Grid, g: Grid, q: seq<Pos>, e: set<Pos>, k: int)
    requires SearchInv(g0, g, q, e) && 0 <= k < |q|
    requires q[k] in g && g[q[k]] != End
    ensures q[k] in g0 && g0[q[k]] != End && q[k] !in e && Reachable(g0, q[k])
    ensures q[k] == Origin || g0[q[k]] == Path
    ensures q[k] !in Remove(q, k)
  {
    assert q[k] in q;
  }

  /** Each pushed neighbour of the popped cell p is an unexpanded reachable
      cell, still as it was at the start of the search. */
  lemma PushedFacts(g0: Grid, g: Grid, q: seq<Pos>, e: set<Pos>, p: Pos)
    requires SearchInv(g0, g, q, e) && p in q && p in g && g[p] != End
    ensures forall x :: x in Pushed(g[p := Visited], p, 4) ==>
              x != p && x in g0 && g[x] == g0[x] && (g0[x] == Path || g0[x] == End) &&
              Reachable(g0, x) && x !in e
  {
    PushedSound(g[p := Visited], p, 4);
    forall x | x in Pushed(g[p := Visited], p, 4)
      ensures x != p && x in g0 && g[x] == g0[x] && (g0[x] == Path || g0[x] == End)
      ensures Reachable(g0, x) && x !in e
    {
      assert x == Neighbour(p, Direction(p, x));
      ReachStep(g0, p, x);
    }
  }

  /** The facts the parts of one expansion share: p is the popped entry, qr the
      container after the pop and ns the neighbours pushed. */
  ghost predicate Expansion(g0: Grid, g: Grid, q: seq<Pos>, e: set<Pos>, p: Pos, qr: seq<Pos>, ns: seq<Pos>)
  {
    g.Keys == g0.Keys &&
    p in g0 && g0[p] != End && p !in e && Reachable(g0, p) && (p == Origin || g0[p] == Path) &&
    (e == {} ==> p == Origin && qr == []) &&
    p !in qr &&
    (forall x :: x in qr ==> x in q) &&
    (forall x :: x in q && x != p ==> x in qr) &&
    (forall x :: multiset(qr)[x] <= multiset(q)[x]) &&
    (forall x :: multiset(ns)[x] <= 1) &&
    (forall x :: x in ns ==>
       x != p && x in g0 && g[x] == g0[x] && (g0[x] == Path || g0[x] == End) &&
       Reachable(g0, x) && x !in e) &&
    (forall i :: 0 <= i < 4 && Passable(g[p := Visited], Neighbour(p, i)) ==> Neighbour(p, i) in ns)
  }

  lemma StepChanges(g0: Grid, g: Grid, q: seq<Pos>, e: set<Pos>, p: Pos, qr: seq<Pos>, ns: seq<Pos>)
    requires InvChanges(g0, g, q, e) && Expansion(g0, g, q, e, p, qr, ns)
    ensures InvChanges(g0, MarkPushed(g[p := Visited], ns), qr + ns, e + {p})
  {
    var ga := g[p := Visited];
    var g' := MarkPushed(ga, ns);
    forall x | x in g0 && g'[x] != g0[x]
      ensures g'[x] == Visited && g0[x] != End && (g0[x] == Path || x == Origin)
      ensures x in e + {p} || x in qr + ns
    {
      if x == p {
      } else if x in ns && ga[x] != End {
        assert g[x] == g0[x];
      } else {
        assert g'[x] == g[x];
      }
    }
  }

  lemma StepExpanded(g0: Grid, g: Grid, q: seq<Pos>, e: set<Pos>, p: Pos, qr: seq<Pos>, ns: seq<Pos>)
    requires InvExpanded(g0, g, q, e) && Expansion(g0, g, q, e, p, qr, ns)
    ensures InvExpanded(g0, MarkPushed(g[p := Visited], ns), qr + ns, e + {p})
  {
  }

  lemma StepQueued(g0: Grid, g: Grid, q: seq<Pos>, e: set<Pos>, p: Pos, qr: seq<Pos>, ns: seq<Pos>)
    requires InvQueued(g0, g, q, e) && Expansion(g0, g, q, e, p, qr, ns)
    ensures InvQueued(g0, MarkPushed(g[p := Visited], ns), qr + ns, e + {p})
  {
    var g' := MarkPushed(g[p := Visited], ns);
    forall x | x in qr && g0[x] != End
      ensures x !in e + {p} && (g0[x] == Path || x == Origin) && g'[x] == Visited
    {
      assert x in q;
    }
  }

  lemma StepDistinct(g0: Grid, g: Grid, q: seq<Pos>, e: set<Pos>, p: Pos, qr: seq<Pos>, ns: seq<Pos>)
    requires InvDistinct(g0, q) && InvQueued(g0, g, q, e) && Expansion(g0, g, q, e, p, qr, ns)
    ensures InvDistinct(g0, qr + ns)
  {
    forall x | x in g0 && g0[x] != End
      ensures multiset(qr + ns)[x] <= 1
    {
      assert multiset(qr + ns)[x] == multiset(qr)[x] + multiset(ns)[x];
      if x in ns {
        assert x !in qr;
      }
    }
  }

  lemma StepClosed(g0: Grid, g: Grid, q: seq<Pos>, e: set<Pos>, p: Pos, qr: seq<Pos>, ns: seq<Pos>)
    requires InvClosed(g0, q, e) && InvChanges(g0, g, q, e) && Expansion(g0, g, q, e, p, qr, ns)
    ensures InvClosed(g0, qr + ns, e + {p})
  {
    forall y, i | y in e + {p} && 0 <= i < 4 && Passable(g0, Neighbour(y, i))
      ensures Neighbour(y, i) in e + {p} || Neighbour(y, i) in qr + ns
    {
      var n := Neighbour(y, i);
      if y == p && g[n] == g0[n] {
        assert Passable(g[p := Visited], n);
      }
    }
  }

  /** One iteration that pops a non-END entry keeps the invariant, and the
      popped cell joins the expanded set for the first time. */
  lemma InvStep(g0: Grid, g: Grid, q: seq<Pos>, e: set<Pos>, k: int)
    requires SearchInv(g0, g, q, e) && 0 <= k < |q|
    requires q[k] in g && g[q[k]] != End
    ensures q[k] in g0 && q[k] !in e
    ensures SearchInv(g0, AfterStep(g, q[k]), Remove(q, k) + Pushed(g[q[k] := Visited], q[k], 4), e + {q[k]})
  {
    var p := q[k];
    var qr := Remove(q, k);
    var ns := Pushed(g[p := Visited], p, 4);
    PoppedFacts(g0, g, q, e, k);
    assert p in q;
    PushedFacts(g0, g, q, e, p);
    PushedComplete(g[p := Visited], p, 4);
    PushedDistinct(g[p := Visited], p, 4);
    assert Expansion(g0, g, q, e, p, qr, ns);
    StepChanges(g0, g, q, e, p, qr, ns);
    StepExpanded(g0, g, q, e, p, qr, ns);
    StepQueued(g0, g, q, e, p, qr, ns);
    StepDistinct(g0, g, q, e, p, qr, ns);
    StepClosed(g0, g, q, e, p, qr, ns);
  }
}
