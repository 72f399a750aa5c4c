/** `DijkstraPathfinder.dijkstra` (warehouseminigame.py and, identically, mapbuildingsim.py)
    and the search loop of `dijkstra` in main.py, which differs only in its cost rule.
    Tentative costs are `Option<nat>` half units, `None` standing for `float('inf')`. */
module Pathfinder {
  import opened Options
  import opened Grids
  import opened Walks

  type Cost = Option<nat>

  /** a <= b, with None above every number. */
  predicate Le(a: Cost, b: Cost) {
    b.None? || (a.Some? && a.value <= b.value)
  }

  /** a < b, with None above every number and not below itself. */
  predicate Lt(a: Cost, b: Cost) {
    a.Some? && (b.None? || a.value < b.value)
  }

  /** a + h, where inf + h is inf. */
  function Plus(a: Cost, h: nat): Cost {
    if a.None? then None else Some(a.value + h)
  }

  /** The choice of the cheapest unvisited cell: a linear scan that replaces the
      candidate only by a strictly cheaper cell. Which of several cheapest cells the
      scan meets first (Python's set order) is left open. */
  method SelectMin(unvisited: set<Pos>, costs: map<Pos, Cost>) returns (current: Pos)
    requires unvisited != {} && unvisited <= costs.Keys
    ensures current in unvisited
    ensures forall p :: p in unvisited ==> Le(costs[current], costs[p])
  {
    var rest := unvisited;
    current :| current in rest;
    rest := rest - {current};
    while rest != {}
      invariant rest <= unvisited && current in unvisited
      invariant forall p :: p in unvisited - rest ==> Le(costs[current], costs[p])
      decreases |rest|
    {
      var p :| p in rest;
      if Lt(costs[p], costs[current]) {
        current := p;
      }
      rest := rest - {p};
    }
  }

  /** Relaxing the edge from `current` lowers the cost of n. */
  predicate Improves(rule: CostRule, g: Grid, current: Pos, unvisited: set<Pos>, costs: map<Pos, Cost>, n: Pos)
    requires current in costs && n in costs
  {
    n in unvisited && Adjacent(current, n) &&
    Lt(Plus(costs[current], StepCost(rule, g, current, n)), costs[n])
  }

  /** The exact effect of relaxing every edge out of `current`. */
  ghost predicate RelaxedFrom(rule: CostRule, g: Grid, current: Pos, unvisited: set<Pos>,
                              costs: map<Pos, Cost>, parents: map<Pos, Pos>,
                              costs': map<Pos, Cost>, parents': map<Pos, Pos>)
    requires current in costs
  {
    && costs'.Keys == costs.Keys
    && (forall n {:trigger costs'[n]} :: n in costs ==>
          costs'[n] == if Improves(rule, g, current, unvisited, costs, n)
                       then Plus(costs[current], StepCost(rule, g, current, n)) else costs[n])
    && (forall n {:trigger n in parents'} :: n in parents' <==> n in parents || (n in costs && Improves(rule, g, current, unvisited, costs, n)))
    && (forall n {:trigger parents'[n]} :: n in parents' ==>
          parents'[n] == if n in costs && Improves(rule, g, current, unvisited, costs, n) then current else parents[n])
  }

  /** Relaxing towards a cell outside `unvisited` changes nothing. */
  lemma RelaxSkip(rule: CostRule, g: Grid, current: Pos, unvisited: set<Pos>, done: set<Pos>,
                  costs: map<Pos, Cost>, parents: map<Pos, Pos>, c: map<Pos, Cost>, p: map<Pos, Pos>, nb: Pos)
    requires current in costs && nb !in unvisited
    requires RelaxedFrom(rule, g, current, unvisited * done, costs, parents, c, p)
    ensures RelaxedFrom(rule, g, current, unvisited * (done + {nb}), costs, parents, c, p)
  {
    assert unvisited * (done + {nb}) == unvisited * done;
  }

  /** One pass of the loop body towards an unvisited neighbour. */
  lemma RelaxVisit(rule: CostRule, g: Grid, current: Pos, unvisited: set<Pos>, done: set<Pos>,
                   costs: map<Pos, Cost>, parents: map<Pos, Pos>, c: map<Pos, Cost>, p: map<Pos, Pos>, nb: Pos)
    requires current in costs && current !in unvisited
    requires RelaxedFrom(rule, g, current, unvisited * done, costs, parents, c, p)
    requires nb in unvisited && nb in costs && Adjacent(current, nb)
    ensures current in c && nb in c
    ensures var newCost := Plus(c[current], StepCost(rule, g, current, nb));
            RelaxedFrom(rule, g, current, unvisited * (done + {nb}), costs, parents,
                        if Lt(newCost, c[nb]) then c[nb := newCost] else c,
                        if Lt(newCost, c[nb]) then p[nb := current] else p)
  {
    var u0, u1 := unvisited * done, unvisited * (done + {nb});
    assert c[current] == costs[current] by {
      assert !Improves(rule, g, current, u0, costs, current);
    }
    var newCost := Plus(c[current], StepCost(rule, g, current, nb));
    assert c[nb] == if Improves(rule, g, current, u0, costs, nb) then newCost else costs[nb];
    if nb in done {
      assert u1 == u0;
      assert !Lt(newCost, c[nb]);
    } else {
      forall n | n in costs && n != nb
        ensures Improves(rule, g, current, u1, costs, n) == Improves(rule, g, current, u0, costs, n)
      {
      }
      assert Improves(rule, g, current, u1, costs, nb) == Lt(newCost, costs[nb]);
    }
  }

  /** The inner loop over the neighbours of the current cell. */
  method Relax(rule: CostRule, g: Grid, current: Pos, unvisited: set<Pos>,
               costs: map<Pos, Cost>, parents: map<Pos, Pos>)
    returns (costs': map<Pos, Cost>, parents': map<Pos, Pos>)
    requires current in costs && current !in unvisited && unvisited <= costs.Keys
    requires forall n :: n in unvisited ==> Passable(g, n)
    ensures RelaxedFrom(rule, g, current, unvisited, costs, parents, costs', parents')
  {
    var nbrs := Neighbors(g, current);
    costs', parents' := costs, parents;
    ghost var done: set<Pos> := {};
    assert unvisited * done == {};
    for i := 0 to |nbrs|
      invariant forall k :: 0 <= k < i ==> nbrs[k].0 in done
      invariant RelaxedFrom(rule, g, current, unvisited * done, costs, parents, costs', parents')
    {
      var (neighbor, direction) := nbrs[i];
      assert nbrs[i] in nbrs;
      if neighbor !in unvisited {
        RelaxSkip(rule, g, current, unvisited, done, costs, parents, costs', parents', neighbor);
        done := done + {neighbor};
        continue;
      }
      RelaxVisit(rule, g, current, unvisited, done, costs, parents, costs', parents', neighbor);
      assert direction == Offset(current, neighbor);
      var newCost := Plus(costs'[current], GetCost(rule, g, neighbor, direction));
      if Lt(newCost, costs'[neighbor]) {
        costs' := costs'[neighbor := newCost];
        parents' := parents'[neighbor := current];
      }
      done := done + {neighbor};
    }
    forall n | n in costs && Improves(rule, g, current, unvisited, costs, n) ensures n in done {
      assert (n, Offset(current, n)) in nbrs;
    }
    assert forall n :: n in costs ==>
      Improves(rule, g, current, unvisited * done, costs, n) == Improves(rule, g, current, unvisited, costs, n);
  }

  /** Every walk from start to s costs at least c, and c is finite when there is one. */
  ghost predicate Settles(rule: CostRule, g: Grid, start: Pos, s: Pos, c: Cost) {
    forall w {:trigger IsWalk(g, w, start, s)} :: IsWalk(g, w, start, s) ==> c.Some? && c.value <= WalkCost(rule, g, w)
  }

  /** n's recorded parent is an open, settled, adjacent cell, settled before n, that accounts for n's cost. */
  ghost predicate ParentOk(rule: CostRule, g: Grid, costs: map<Pos, Cost>, parents: map<Pos, Pos>,
                           rank: map<Pos, nat>, n: Pos)
    requires n in parents
  {
    var p := parents[n];
    && n in costs && p in costs && p in rank
    && Passable(g, n) && Passable(g, p) && Adjacent(p, n)
    && (n in rank ==> rank[p] < rank[n])
    && costs[p].Some?
    && costs[n] == Some(costs[p].value + StepCost(rule, g, p, n))
  }

  /** Which cells each map covers: `costs` every open cell and the start, `rank` the settled ones. */
  ghost predicate Domains(g: Grid, start: Pos, unvisited: set<Pos>, costs: map<Pos, Cost>, rank: map<Pos, nat>) {
    && unvisited <= OpenCells(g)
    && costs.Keys == OpenCells(g) + {start}
    && costs[start] == Some(0)
    && rank.Keys == OpenCells(g) - unvisited
  }

  ghost predicate RankedBelow(rank: map<Pos, nat>, t: nat) {
    forall n :: n in rank ==> rank[n] < t
  }

  /** Every cell with a finite cost other than the start has a parent. */
  ghost predicate Tracked(start: Pos, costs: map<Pos, Cost>, parents: map<Pos, Pos>) {
    forall n :: n in costs && costs[n].Some? ==> n == start || n in parents
  }

  ghost predicate ParentsOk(rule: CostRule, g: Grid, costs: map<Pos, Cost>, parents: map<Pos, Pos>, rank: map<Pos, nat>) {
    forall n {:trigger parents[n]} :: n in parents ==> ParentOk(rule, g, costs, parents, rank, n)
  }

  /** Settled cells carry their final cost. */
  ghost predicate SettledOk(rule: CostRule, g: Grid, start: Pos, costs: map<Pos, Cost>, rank: map<Pos, nat>) {
    forall s {:trigger s in rank} :: s in rank ==> s in costs && Settles(rule, g, start, s, costs[s])
  }

  /** Every edge from a settled cell into an unvisited one has been relaxed. */
  ghost predicate Frontier(rule: CostRule, g: Grid, unvisited: set<Pos>, costs: map<Pos, Cost>, rank: map<Pos, nat>) {
    forall p, q {:trigger Adjacent(p, q)} :: p in rank && q in unvisited && Adjacent(p, q) ==>
      p in costs && q in costs && Le(costs[q], Plus(costs[p], StepCost(rule, g, p, q)))
  }

  /** What the `while unvisited` loop keeps. `rank` numbers the settled cells in the
      order they left `unvisited`; t is the next number. */
  ghost predicate SearchInv(rule: CostRule, g: Grid, start: Pos, dest: Pos, unvisited: set<Pos>,
                            costs: map<Pos, Cost>, parents: map<Pos, Pos>, rank: map<Pos, nat>, t: nat)
  {
    && Domains(g, start, unvisited, costs, rank)
    && RankedBelow(rank, t)
    && (Passable(g, dest) ==> dest in unvisited)
    && (!Passable(g, start) ==> parents == map[])
    && Tracked(start, costs, parents)
    && ParentsOk(rule, g, costs, parents, rank)
    && SettledOk(rule, g, start, costs, rank)
    && Frontier(rule, g, unvisited, costs, rank)
  }

  /** The index of the first entry of w in u. */
  lemma FirstIn(w: seq<Pos>, u: set<Pos>) returns (k: nat)
    requires |w| > 0 && w[|w| - 1] in u
    ensures k < |w| && w[k] in u && forall j :: 0 <= j < k ==> w[j] !in u
  {
    k := 0;
    while w[k] !in u
      invariant k < |w| && forall j :: 0 <= j < k ==> w[j] !in u
      decreases |w| - k
    {
      k := k + 1;
    }
  }

  /** A walk from the settled start to the cheapest unvisited cell leaves the settled
      region somewhere, over a relaxed edge, so it costs at least that cell's cost. */
  lemma CrossingCheaper(rule: CostRule, g: Grid, start: Pos, unvisited: set<Pos>,
                        costs: map<Pos, Cost>, rank: map<Pos, nat>, current: Pos, w: seq<Pos>)
    requires Domains(g, start, unvisited, costs, rank)
    requires SettledOk(rule, g, start, costs, rank) && Frontier(rule, g, unvisited, costs, rank)
    requires current in unvisited && start !in unvisited
    requires forall p :: p in unvisited ==> Le(costs[current], costs[p])
    requires IsWalk(g, w, start, current)
    ensures costs[current].Some? && costs[current].value <= WalkCost(rule, g, w)
  {
    var k := FirstIn(w, unvisited);
    assert k > 0;
    var p, q := w[k - 1], w[k];
    assert Passable(g, p) && p in OpenCells(g);
    assert p in rank;
    PrefixCheaper(rule, g, w, start, current, k - 1);
    PrefixCheaper(rule, g, w, start, current, k);
    WalkCostSplit(rule, g, w[..k + 1], k - 1);
    assert w[..k + 1][..k] == w[..k];
    assert w[..k + 1][k - 1..] == [p, q];
    assert Adjacent(p, q);
    assert Le(costs[q], Plus(costs[p], StepCost(rule, g, p, q)));
  }

  /** The unvisited cell of least tentative cost has its final cost: no walk reaches it more cheaply. */
  lemma SelectedSettles(rule: CostRule, g: Grid, start: Pos, unvisited: set<Pos>,
                        costs: map<Pos, Cost>, rank: map<Pos, nat>, current: Pos)
    requires Domains(g, start, unvisited, costs, rank)
    requires SettledOk(rule, g, start, costs, rank) && Frontier(rule, g, unvisited, costs, rank)
    requires current in unvisited
    requires forall p :: p in unvisited ==> Le(costs[current], costs[p])
    ensures Settles(rule, g, start, current, costs[current])
  {
    forall w | IsWalk(g, w, start, current)
      ensures costs[current].Some? && costs[current].value <= WalkCost(rule, g, w)
    {
      if costs[current] != Some(0) {
        assert start !in unvisited;
        CrossingCheaper(rule, g, start, unvisited, costs, rank, current, w);
      }
    }
  }

  /** Relaxing never raises a cost and leaves cells outside `unvisited` alone. */
  lemma RelaxedMonotone(rule: CostRule, g: Grid, current: Pos, unvisited: set<Pos>,
                        costs: map<Pos, Cost>, parents: map<Pos, Pos>,
                        costs': map<Pos, Cost>, parents': map<Pos, Pos>)
    requires current in costs
    requires RelaxedFrom(rule, g, current, unvisited, costs, parents, costs', parents')
    ensures forall n :: n in costs ==> n in costs' && Le(costs'[n], costs[n])
    ensures forall n :: n in costs && n !in unvisited ==> costs'[n] == costs[n]
  {
    forall n | n in costs ensures n in costs' && Le(costs'[n], costs[n]) {
      assert costs'[n] == if Improves(rule, g, current, unvisited, costs, n)
                          then Plus(costs[current], StepCost(rule, g, current, n)) else costs[n];
    }
    forall n | n in costs && n !in unvisited ensures costs'[n] == costs[n] {
      assert !Improves(rule, g, current, unvisited, costs, n);
    }
  }

  lemma TrackedStep(rule: CostRule, g: Grid, start: Pos, current: Pos, u': set<Pos>,
                    costs: map<Pos, Cost>, parents: map<Pos, Pos>,
                    costs': map<Pos, Cost>, parents': map<Pos, Pos>)
    requires current in costs && Tracked(start, costs, parents)
    requires RelaxedFrom(rule, g, current, u', costs, parents, costs', parents')
    ensures Tracked(start, costs', parents')
  {
    forall n | n in costs' && costs'[n].Some? ensures n == start || n in parents' {
      assert n in costs;
      assert n in parents' <==> n in parents || (n in costs && Improves(rule, g, current, u', costs, n));
      assert costs'[n] == if Improves(rule, g, current, u', costs, n)
                          then Plus(costs[current], StepCost(rule, g, current, n)) else costs[n];
    }
  }

  /** A cell whose edge from `current` improved gets `current` as its parent. */
  lemma ParentImproved(rule: CostRule, g: Grid, unvisited: set<Pos>,
                       costs: map<Pos, Cost>, parents: map<Pos, Pos>, rank: map<Pos, nat>, t: nat,
                       current: Pos, costs': map<Pos, Cost>, parents': map<Pos, Pos>, n: Pos)
    requires current in costs && current in unvisited && n in costs
    requires forall m :: m in unvisited ==> Passable(g, m) && m !in rank
    requires RelaxedFrom(rule, g, current, unvisited - {current}, costs, parents, costs', parents')
    requires Improves(rule, g, current, unvisited - {current}, costs, n)
    ensures n in parents' && ParentOk(rule, g, costs', parents', rank[current := t], n)
  {
    var u' := unvisited - {current};
    assert n in parents' <==> n in parents || (n in costs && Improves(rule, g, current, u', costs, n));
    assert parents'[n] == current;
    assert costs'[n] == Plus(costs[current], StepCost(rule, g, current, n));
    assert costs'[current] == costs[current] by {
      assert !Improves(rule, g, current, u', costs, current);
    }
  }

  /** A cell whose parent did not change keeps a valid parent. */
  lemma ParentKept(rule: CostRule, g: Grid, unvisited: set<Pos>,
                   costs: map<Pos, Cost>, parents: map<Pos, Pos>, rank: map<Pos, nat>, t: nat,
                   current: Pos, costs': map<Pos, Cost>, parents': map<Pos, Pos>, n: Pos)
    requires current in costs && current in unvisited && current !in rank && RankedBelow(rank, t)
    requires forall m :: m in rank ==> m !in unvisited
    requires n in parents && ParentOk(rule, g, costs, parents, rank, n)
    requires RelaxedFrom(rule, g, current, unvisited - {current}, costs, parents, costs', parents')
    requires !Improves(rule, g, current, unvisited - {current}, costs, n)
    ensures n in parents' && ParentOk(rule, g, costs', parents', rank[current := t], n)
  {
    var u', p := unvisited - {current}, parents[n];
    assert n in parents';
    assert parents'[n] == p;
    assert costs'[n] == costs[n];
    assert costs'[p] == costs[p] by {
      assert p !in u';
      assert !Improves(rule, g, current, u', costs, p);
    }
  }

  /** One entry of the new parent map. */
  lemma ParentStep(rule: CostRule, g: Grid, start: Pos, unvisited: set<Pos>,
                   costs: map<Pos, Cost>, parents: map<Pos, Pos>, rank: map<Pos, nat>, t: nat,
                   current: Pos, costs': map<Pos, Cost>, parents': map<Pos, Pos>, n: Pos)
    requires Domains(g, start, unvisited, costs, rank) && RankedBelow(rank, t)
    requires ParentsOk(rule, g, costs, parents, rank)
    requires current in unvisited
    requires RelaxedFrom(rule, g, current, unvisited - {current}, costs, parents, costs', parents')
    requires n in parents'
    ensures ParentOk(rule, g, costs', parents', rank[current := t], n)
  {
    var u' := unvisited - {current};
    assert forall m :: m in unvisited ==> Passable(g, m) && m !in rank;
    assert n in parents' <==> n in parents || (n in costs && Improves(rule, g, current, u', costs, n));
    if n in costs && Improves(rule, g, current, u', costs, n) {
      ParentImproved(rule, g, unvisited, costs, parents, rank, t, current, costs', parents', n);
    } else {
      assert ParentOk(rule, g, costs, parents, rank, n);
      ParentKept(rule, g, unvisited, costs, parents, rank, t, current, costs', parents', n);
    }
  }

  lemma ParentsStep(rule: CostRule, g: Grid, start: Pos, unvisited: set<Pos>,
                    costs: map<Pos, Cost>, parents: map<Pos, Pos>, rank: map<Pos, nat>, t: nat,
                    current: Pos, costs': map<Pos, Cost>, parents': map<Pos, Pos>)
    requires Domains(g, start, unvisited, costs, rank) && RankedBelow(rank, t)
    requires ParentsOk(rule, g, costs, parents, rank)
    requires current in unvisited
    requires RelaxedFrom(rule, g, current, unvisited - {current}, costs, parents, costs', parents')
    ensures ParentsOk(rule, g, costs', parents', rank[current := t])
  {
    forall n | n in parents' ensures ParentOk(rule, g, costs', parents', rank[current := t], n) {
      ParentStep(rule, g, start, unvisited, costs, parents, rank, t, current, costs', parents', n);
    }
  }

  lemma SettledStep(rule: CostRule, g: Grid, start: Pos, unvisited: set<Pos>,
                    costs: map<Pos, Cost>, parents: map<Pos, Pos>, rank: map<Pos, nat>, t: nat,
                    current: Pos, costs': map<Pos, Cost>, parents': map<Pos, Pos>)
    requires Domains(g, start, unvisited, costs, rank)
    requires SettledOk(rule, g, start, costs, rank)
    requires current in unvisited && Settles(rule, g, start, current, costs[current])
    requires RelaxedFrom(rule, g, current, unvisited - {current}, costs, parents, costs', parents')
    ensures SettledOk(rule, g, start, costs', rank[current := t])
  {
    var u', rank' := unvisited - {current}, rank[current := t];
    RelaxedMonotone(rule, g, current, u', costs, parents, costs', parents');
    forall s | s in rank' ensures s in costs' && Settles(rule, g, start, s, costs'[s]) {
      if s != current {
        assert s in rank;
      }
    }
  }

  lemma FrontierStep(rule: CostRule, g: Grid, start: Pos, unvisited: set<Pos>,
                     costs: map<Pos, Cost>, parents: map<Pos, Pos>, rank: map<Pos, nat>, t: nat,
                     current: Pos, costs': map<Pos, Cost>, parents': map<Pos, Pos>)
    requires Domains(g, start, unvisited, costs, rank)
    requires Frontier(rule, g, unvisited, costs, rank)
    requires current in unvisited
    requires RelaxedFrom(rule, g, current, unvisited - {current}, costs, parents, costs', parents')
    ensures Frontier(rule, g, unvisited - {current}, costs', rank[current := t])
  {
    var u', rank' := unvisited - {current}, rank[current := t];
    RelaxedMonotone(rule, g, current, u', costs, parents, costs', parents');
    forall p, q | p in rank' && q in u' && Adjacent(p, q)
      ensures p in costs' && q in costs' && Le(costs'[q], Plus(costs'[p], StepCost(rule, g, p, q)))
    {
      assert q in costs;
      if p == current {
        assert costs'[q] == if Improves(rule, g, current, u', costs, q)
                            then Plus(costs[current], StepCost(rule, g, current, q)) else costs[q];
      } else {
        assert p in rank && p in costs && q in unvisited;
        assert Le(costs[q], Plus(costs[p], StepCost(rule, g, p, q)));
      }
    }
  }

  /** One round of the main loop (settle `current`, relax its edges) keeps SearchInv. */
  lemma SettlePreserves(rule: CostRule, g: Grid, start: Pos, dest: Pos, unvisited: set<Pos>,
                        costs: map<Pos, Cost>, parents: map<Pos, Pos>, rank: map<Pos, nat>, t: nat,
                        current: Pos, costs': map<Pos, Cost>, parents': map<Pos, Pos>)
    requires SearchInv(rule, g, start, dest, unvisited, costs, parents, rank, t)
    requires current in unvisited && current != dest
    requires Settles(rule, g, start, current, costs[current])
    requires RelaxedFrom(rule, g, current, unvisited - {current}, costs, parents, costs', parents')
    ensures SearchInv(rule, g, start, dest, unvisited - {current}, costs', parents', rank[current := t], t + 1)
  {
    var u', rank' := unvisited - {current}, rank[current := t];
    RelaxedMonotone(rule, g, current, u', costs, parents, costs', parents');
    assert Domains(g, start, u', costs', rank') by {
      assert current in OpenCells(g);
      assert costs'[start] == costs[start];
    }
    if !Passable(g, start) {
      assert costs[current].None?;
      forall n ensures n !in parents' {
        assert n in parents' <==> n in parents || (n in costs && Improves(rule, g, current, u', costs, n));
      }
    }
    TrackedStep(rule, g, start, current, u', costs, parents, costs', parents');
    ParentsStep(rule, g, start, unvisited, costs, parents, rank, t, current, costs', parents');
    SettledStep(rule, g, start, unvisited, costs, parents, rank, t, current, costs', parents');
    FrontierStep(rule, g, start, unvisited, costs, parents, rank, t, current, costs', parents');
  }

  /** The walk back along `parents` from the destination: [cur] + path is a walk
      to the destination that accounts for its cost. */
  ghost predicate ChainInv(rule: CostRule, g: Grid, dest: Pos, costs: map<Pos, Cost>,
                           rank: map<Pos, nat>, cur: Pos, path: seq<Pos>)
  {
    && (path == [] ==> cur == dest)
    && (path != [] ==>
          && cur in costs && costs[cur].Some? && cur in rank && dest in costs
          && IsWalk(g, [cur] + path, cur, dest)
          && costs[dest] == Some(costs[cur].value + WalkCost(rule, g, [cur] + path)))
  }

  lemma ChainStep(rule: CostRule, g: Grid, dest: Pos, costs: map<Pos, Cost>, parents: map<Pos, Pos>,
                  rank: map<Pos, nat>, cur: Pos, path: seq<Pos>)
    requires cur in parents && ParentOk(rule, g, costs, parents, rank, cur)
    requires ChainInv(rule, g, dest, costs, rank, cur, path)
    ensures ChainInv(rule, g, dest, costs, rank, parents[cur], [cur] + path)
  {
    var p := parents[cur];
    if path == [] {
      assert IsWalk(g, [cur] + path, cur, dest);
    }
    WalkCons(g, p, [cur] + path, dest);
    WalkCostCons(rule, g, p, [cur] + path);
    assert [p] + ([cur] + path) == [p] + [cur] + path;
  }

  /** The `while unvisited` loop. It stops early when it settles the destination. */
  method Search(rule: CostRule, g: Grid, start: Pos, destination: Pos)
    returns (costs: map<Pos, Cost>, parents: map<Pos, Pos>,
             ghost unvisited: set<Pos>, ghost rank: map<Pos, nat>, ghost t: nat, ghost reached: bool)
    ensures SearchInv(rule, g, start, destination, unvisited, costs, parents, rank, t)
    ensures reached ==> destination in costs && Settles(rule, g, start, destination, costs[destination])
    ensures !reached ==> unvisited == {}
    ensures start == destination && Passable(g, start) ==> parents == map[]
  {
    var open := OpenCells(g);
    costs := map pos | pos in open :: None;
    parents := map[];
    costs := costs[start := Some(0)];
    rank, t, reached := map[], 0, false;
    unvisited := open;

    while open != {}
      invariant open == unvisited
      invariant SearchInv(rule, g, start, destination, unvisited, costs, parents, rank, t)
      invariant start == destination && Passable(g, start) ==>
                  start in open && parents == map[] && forall p :: p in costs && p != start ==> costs[p].None?
      decreases |open|
    {
      var current := SelectMin(open, costs);
      SelectedSettles(rule, g, start, unvisited, costs, rank, current);
      if start == destination && Passable(g, start) {
        assert Le(costs[current], costs[start]);
      }
      if current == destination {
        reached := true;
        return;
      }
      open := open - {current};
      var costs', parents' := Relax(rule, g, current, open, costs, parents);
      SettlePreserves(rule, g, start, destination, unvisited, costs, parents, rank, t,
                      current, costs', parents');
      costs, parents := costs', parents';
      unvisited, rank, t := open, rank[current := t], t + 1;
    }
  }

  /** The walk back `while current in parents`, gathering the path front to back. */
  method WalkBack(ghost rule: CostRule, ghost g: Grid, destination: Pos, ghost costs: map<Pos, Cost>,
                  parents: map<Pos, Pos>, ghost rank: map<Pos, nat>, ghost t: nat)
    returns (cur: Pos, path: seq<Pos>)
    requires ParentsOk(rule, g, costs, parents, rank) && RankedBelow(rank, t)
    ensures ChainInv(rule, g, destination, costs, rank, cur, path) && cur !in parents
    ensures destination !in parents ==> cur == destination && path == []
  {
    path := [];
    cur := destination;
    while cur in parents
      invariant ChainInv(rule, g, destination, costs, rank, cur, path)
      invariant destination !in parents ==> cur == destination && path == []
      decreases if cur in rank then rank[cur] else t
    {
      assert ParentOk(rule, g, costs, parents, rank, cur);
      ChainStep(rule, g, destination, costs, parents, rank, cur, path);
      path := [cur] + path;
      cur := parents[cur];
    }
  }

  /** When the walk back from the destination does not reach the start, no walk connects them. */
  lemma Unreached(rule: CostRule, g: Grid, start: Pos, dest: Pos, unvisited: set<Pos>,
                  costs: map<Pos, Cost>, parents: map<Pos, Pos>, reached: bool)
    requires Tracked(start, costs, parents) && (Passable(g, dest) ==> dest in unvisited)
    requires reached ==> dest in costs && Settles(rule, g, start, dest, costs[dest])
    requires !reached ==> unvisited == {}
    requires dest !in parents && dest != start
    ensures !Reachable(g, start, dest)
  {
  }

  /** The result when the walk back from the destination ends at the start. */
  lemma ConcludeFound(rule: CostRule, g: Grid, start: Pos, dest: Pos, unvisited: set<Pos>,
                      costs: map<Pos, Cost>, rank: map<Pos, nat>, reached: bool,
                      chain: seq<Pos>, cost: Cost, path: seq<Pos>)
    requires start in costs && costs[start] == Some(0) && (Passable(g, dest) ==> dest in unvisited)
    requires reached ==> dest in costs && Settles(rule, g, start, dest, costs[dest])
    requires !reached ==> unvisited == {}
    requires ChainInv(rule, g, dest, costs, rank, start, chain)
    requires dest in costs && cost == costs[dest] && path == [start] + chain
    ensures path == [] <==> cost == None
    ensures !Passable(g, start) ==>
              cost == (if start == dest then Some(0) else None) &&
              path == (if start == dest then [start] else [])
    ensures Passable(g, start) ==> (path != [] <==> Reachable(g, start, dest))
    ensures path != [] ==> path[0] == start && path[|path| - 1] == dest && cost == Some(WalkCost(rule, g, path))
    ensures Passable(g, start) && path != [] ==>
              IsWalk(g, path, start, dest) && Cheapest(rule, g, start, dest, cost.value)
  {
    if chain != [] {
      assert Passable(g, dest);
      assert reached;
      assert IsWalk(g, path, start, dest);
    } else if Passable(g, start) {
      assert IsWalk(g, path, start, dest);
    }
  }

  /** The result when the walk back stops short of the start. */
  lemma ConcludeMissing(rule: CostRule, g: Grid, start: Pos, dest: Pos, unvisited: set<Pos>,
                        costs: map<Pos, Cost>, parents: map<Pos, Pos>, rank: map<Pos, nat>, reached: bool,
                        cur: Pos, chain: seq<Pos>, cost: Cost, path: seq<Pos>)
    requires Tracked(start, costs, parents) && (Passable(g, dest) ==> dest in unvisited)
    requires reached ==> dest in costs && Settles(rule, g, start, dest, costs[dest])
    requires !reached ==> unvisited == {}
    requires ChainInv(rule, g, dest, costs, rank, cur, chain) && cur !in parents
    requires cur != start && cost == None && path == []
    ensures dest != start && !Reachable(g, start, dest)
  {
    assert chain == [];
    Unreached(rule, g, start, dest, unvisited, costs, parents, reached);
  }

  /** `dijkstra(start, destination)`. Returns the cost and the path, or (None, [])
      for `(float('inf'), [])`. */
  method Dijkstra(rule: CostRule, g: Grid, start: Pos, destination: Pos) returns (cost: Cost, path: seq<Pos>)
    ensures path == [] <==> cost == None
    ensures start == destination ==> cost == Some(0) && path == [start]
    ensures !Passable(g, start) ==>
              cost == (if start == destination then Some(0) else None) &&
              path == (if start == destination then [start] else [])
    ensures Passable(g, start) ==> (path != [] <==> Reachable(g, start, destination))
    ensures path != [] ==>
              path[0] == start && path[|path| - 1] == destination && cost == Some(WalkCost(rule, g, path))
    ensures Passable(g, start) && path != [] ==>
              IsWalk(g, path, start, destination) && Cheapest(rule, g, start, destination, cost.value)
  {
    var costs, parents, unvisited, rank, t, reached := Search(rule, g, start, destination);
    var cur, chain := WalkBack(rule, g, destination, costs, parents, rank, t);
    if cur == start {
      path := [start] + chain;
      cost := costs[destination];
      ConcludeFound(rule, g, start, destination, unvisited, costs, rank, reached, chain, cost, path);
    } else {
      cost, path := None, [];
      ConcludeMissing(rule, g, start, destination, unvisited, costs, parents, rank, reached, cur, chain, cost, path);
    }
  }

  /** Searching again after a cell became a wall finds no cheaper route: when the walled
      grid still has a path, so does the original one, and its cost is no higher. */
  method WalledSearch(rule: CostRule, g: Grid, p: Pos, start: Pos, destination: Pos)
    returns (before: Cost, after: Cost)
    requires InBounds(g, p)
    ensures after.Some? ==> before.Some? && before.value <= after.value
  {
    var pathBefore, pathAfter;
    before, pathBefore := Dijkstra(rule, g, start, destination);
    after, pathAfter := Dijkstra(rule, Put(g, p, 'X'), start, destination);
    if after.Some? && start != destination {
      var h := Put(g, p, 'X');
      assert Passable(h, start);
      WallNeverCheaper(rule, g, p, start, destination, if before.Some? then before.value else 0);
      assert Reachable(h, start, destination);
    }
  }

  /** The direction rule on the grid `S D`: stepping East into the destination costs
      what the destination costs, 1 (two half units). */
  method EastIntoDestination() returns (cost: Cost)
    ensures cost == Some(2)
  {
    var g: Grid := [['S', 'D']];
    var path;
    cost, path := Dijkstra(Directional, g, (0, 0), (0, 1));
    assert IsWalk(g, [(0, 0), (0, 1)], (0, 0), (0, 1));
    assert WalkCost(Directional, g, [(0, 0), (0, 1)]) == 2;
    StepIntoDestination(Directional, g, path, (0, 0), (0, 1));
  }

  /** The direction rule on the grid with `D` above `S`: stepping North into the
      destination costs 0.5 (one half unit), whatever the destination costs. */
  method NorthIntoDestination() returns (cost: Cost)
    ensures cost == Some(1)
  {
    var g: Grid := [['D'], ['S']];
    var path;
    cost, path := Dijkstra(Directional, g, (1, 0), (0, 0));
    assert IsWalk(g, [(1, 0), (0, 0)], (1, 0), (0, 0));
    assert WalkCost(Directional, g, [(1, 0), (0, 0)]) == 1;
    StepIntoDestination(Directional, g, path, (1, 0), (0, 0));
  }

  /** A walk to a different cell costs at least its last step. */
  lemma StepIntoDestination(rule: CostRule, g: Grid, w: seq<Pos>, s: Pos, t: Pos)
    requires IsWalk(g, w, s, t) && s != t
    ensures WalkCost(rule, g, w) >= StepCost(rule, g, w[|w| - 2], t)
  {
    WalkCostSplit(rule, g, w, |w| - 2);
    assert w[|w| - 2..] == [w[|w| - 2], t];
  }
}
