/** main.py: the first version of the search, a single `dijkstra(grid)` that finds the
    endpoints itself and charges every step what its target cell costs, run on a fixed
    5 x 5 test map. */
module MainScript {
  import opened Options
  import opened Grids
  import opened Walks
  import opened Pathfinder

  /** `warehouse_map`, the basic test case. */
  const SampleMap: Grid := [
    ['S', '.', '.', '.', '.'],
    ['X', 'X', '.', 'X', '.'],
    ['.', 'P', 'P', '.', '.'],
    ['.', 'X', '.', '.', 'D'],
    ['.', '.', '.', 'X', '.']
  ]

  /** `dijkstra(grid)`: `(None, inf)` without both endpoints or without a route, otherwise
      a cheapest walk from the start to the destination and its cost. */
  method MainDijkstra(g: Grid) returns (path: Option<seq<Pos>>, cost: Cost)
    requires |g| > 0 && Rectangular(g)
    ensures path.None? <==> cost.None?
    ensures path.Some? <==> Solvable(g)
    ensures path.Some? ==>
              var s, d := LastOf(g, 'S').value, LastOf(g, 'D').value;
              IsWalk(g, path.value, s, d) && cost == Some(WalkCost(CellOnly, g, path.value)) &&
              Cheapest(CellOnly, g, s, d, cost.value)
  {
    var start, end := FindStartEnd(g);
    if start.None? || end.None? {
      return None, None;
    }
    var walk;
    cost, walk := Dijkstra(CellOnly, g, start.value, end.value);
    path := if walk == [] then None else Some(walk);
  }

  /** The distance from the start to each cell of the sample map, in half units
      (0 on walls). */
  const SampleDistances: seq<seq<int>> := [
    [0, 2, 4, 6, 8],
    [0, 0, 6, 0, 10],
    [10, 8, 7, 9, 11],
    [12, 0, 9, 11, 13],
    [14, 13, 11, 0, 15]
  ]

  /** The distances never drop by more than a step costs. */
  lemma SampleDistancesFeasible()
    ensures Feasible(CellOnly, SampleMap, SampleDistances)
  {
    var g := SampleMap;
    forall p, q | Passable(g, p) && Passable(g, q) && Adjacent(p, q)
      ensures TableAt(SampleDistances, q) <= TableAt(SampleDistances, p) + StepCost(CellOnly, g, p, q)
    {
      assert InBounds(g, p) && InBounds(g, q);
      assert 0 <= p.0 < 5 && 0 <= p.1 < 5;
    }
  }

  /** A route of cost 6.5 through the slow cells. */
  const SampleRoute: seq<Pos> := [(0, 0), (0, 1), (0, 2), (1, 2), (2, 2), (3, 2), (3, 3), (3, 4)]

  lemma SampleRouteWalk()
    ensures IsWalk(SampleMap, SampleRoute, (0, 0), (3, 4))
  {
    var w := SampleRoute;
    forall i | 0 <= i < |w| ensures Passable(SampleMap, w[i]) {
    }
    forall i | 0 <= i < |w| - 1 ensures Adjacent(w[i], w[i + 1]) {
    }
  }

  lemma SampleRouteCost()
    ensures WalkCost(CellOnly, SampleMap, SampleRoute) == 13
  {
    var g := SampleMap;
    var w: seq<Pos> := [(3, 4)];
    WalkCostCons(CellOnly, g, (3, 3), w);
    w := [(3, 3)] + w;
    WalkCostCons(CellOnly, g, (3, 2), w);
    w := [(3, 2)] + w;
    WalkCostCons(CellOnly, g, (2, 2), w);
    w := [(2, 2)] + w;
    WalkCostCons(CellOnly, g, (1, 2), w);
    w := [(1, 2)] + w;
    WalkCostCons(CellOnly, g, (0, 2), w);
    w := [(0, 2)] + w;
    WalkCostCons(CellOnly, g, (0, 1), w);
    w := [(0, 1)] + w;
    WalkCostCons(CellOnly, g, (0, 0), w);
    w := [(0, 0)] + w;
    assert w == SampleRoute;
  }

  /** The sample map has its start at (0, 0) and its destination at (3, 4). */
  lemma SampleEndpoints()
    ensures LastOf(SampleMap, 'S') == Some((0, 0)) && LastOf(SampleMap, 'D') == Some((3, 4))
  {
    var g := SampleMap;
    forall q | InBounds(g, q) && CellAt(g, q) == 'S' ensures q == (0, 0) {
      assert 0 <= q.0 < 5 && 0 <= q.1 < 5;
    }
    forall q | InBounds(g, q) && CellAt(g, q) == 'D' ensures q == (3, 4) {
      assert 0 <= q.0 < 5 && 0 <= q.1 < 5;
    }
    LastOfUnique(g, 'S', (0, 0));
    LastOfUnique(g, 'D', (3, 4));
  }

  /** No walk from the start to the destination of the sample map costs less than 6.5. */
  lemma SampleCheapest()
    ensures Cheapest(CellOnly, SampleMap, (0, 0), (3, 4), 13)
  {
    SampleDistancesFeasible();
    forall w | IsWalk(SampleMap, w, (0, 0), (3, 4)) ensures 13 <= WalkCost(CellOnly, SampleMap, w) {
      WalkAbovePotential(CellOnly, SampleMap, SampleDistances, w, (0, 0), (3, 4));
    }
  }

  /** The test case: the start is (0, 0), the destination (3, 4), and the search finds
      a path of cost 6.5. */
  method SampleRun() returns (start: Option<Pos>, end: Option<Pos>, path: Option<seq<Pos>>, cost: Cost)
    ensures start == Some((0, 0)) && end == Some((3, 4))
    ensures path.Some? && cost == Some(13)
  {
    var g := SampleMap;
    assert |g| > 0 && Rectangular(g);
    SampleEndpoints();
    start, end := FindStartEnd(g);
    SampleRouteWalk();
    SampleRouteCost();
    SampleCheapest();
    path, cost := MainDijkstra(g);
    assert cost.value <= 13 by {
      assert IsWalk(g, SampleRoute, (0, 0), (3, 4));
    }
    assert 13 <= cost.value by {
      assert IsWalk(g, path.value, (0, 0), (3, 4));
    }
  }
}
