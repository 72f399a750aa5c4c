/** Moves, step costs and walks over a grid: the cost model of `DijkstraPathfinder`
    (`get_cost`, `get_neighbors`) and of the older search in main.py.
    Costs are in half units, so 0.5 is 1 and the arithmetic is exact. */
module Walks {
  import opened Options
  import opened Grids

  /** The DijkstraPathfinder rule (North and West steps always cost 0.5) or the
      rule of main.py (a step costs what the entered cell costs). */
  datatype CostRule = Directional | CellOnly

  /** `directions`: up, down, left, right. */
  const Directions: seq<Pos> := [(-1, 0), (1, 0), (0, -1), (0, 1)]

  function Shift(p: Pos, d: Pos): Pos {
    (p.0 + d.0, p.1 + d.1)
  }

  function Offset(p: Pos, q: Pos): Pos {
    (q.0 - p.0, q.1 - p.1)
  }

  /** q is one of the four axis neighbours of p. */
  predicate Adjacent(p: Pos, q: Pos) {
    Offset(p, q) in Directions
  }

  /** The cost of a cell from `cost_map`, 1 for a cell type the table lacks, in half units. */
  function BaseCost(cell: char): (h: nat)
    ensures h <= 2
    ensures h == 0 <==> cell == 'S'
    ensures h == 1 <==> cell == 'P'
  {
    match cell
    case '.' => 2
    case 'P' => 1
    case 'S' => 0
    case 'D' => 2
    case _ => 2
  }

  /** `get_cost`: the cost of entering `neighbor` by the offset d. */
  function GetCost(rule: CostRule, g: Grid, neighbor: Pos, d: Pos): (h: nat)
    ensures h <= 2
    ensures rule == Directional && (d == (-1, 0) || d == (0, -1)) ==> h == 1
    ensures rule == CellOnly || (d != (-1, 0) && d != (0, -1)) ==>
              h == BaseCost(CellAt(g, neighbor))
    ensures CellAt(g, neighbor) == 'P' ==> h == 1
    ensures h == 0 ==> CellAt(g, neighbor) == 'S'
  {
    var moveCost := BaseCost(CellAt(g, neighbor));
    if rule == Directional && d in [(-1, 0), (0, -1)] then 1 else moveCost
  }

  /** The cost of the step from p to the adjacent q. */
  function StepCost(rule: CostRule, g: Grid, p: Pos, q: Pos): nat {
    GetCost(rule, g, q, Offset(p, q))
  }

  /** The neighbours of p reached by the offsets in ds, in that order, each with its offset. */
  function NeighborsBy(g: Grid, p: Pos, ds: seq<Pos>): (r: seq<(Pos, Pos)>)
    ensures forall e :: e in r <==> e.1 in ds && e.0 == Shift(p, e.1) && Passable(g, e.0)
    ensures |r| <= |ds|
  {
    if ds == [] then []
    else
      var n := Shift(p, ds[0]);
      (if Passable(g, n) then [(n, ds[0])] else []) + NeighborsBy(g, p, ds[1..])
  }

  /** `get_neighbors`: the in-bounds, non-wall neighbours of p with their offsets. */
  function Neighbors(g: Grid, p: Pos): (r: seq<(Pos, Pos)>)
    ensures forall e :: e in r <==> e.0 == Shift(p, e.1) && Adjacent(p, e.0) && Passable(g, e.0)
    ensures |r| <= 4
  {
    NeighborsBy(g, p, Directions)
  }

  /** A walk lists positions of open cells, each adjacent to the next. */
  predicate IsWalk(g: Grid, w: seq<Pos>, s: Pos, t: Pos) {
    && |w| > 0 && w[0] == s && w[|w| - 1] == t
    && (forall i :: 0 <= i < |w| ==> Passable(g, w[i]))
    && (forall i :: 0 <= i < |w| - 1 ==> Adjacent(w[i], w[i + 1]))
  }

  /** The sum of the step costs along w. */
  function WalkCost(rule: CostRule, g: Grid, w: seq<Pos>): nat
    decreases |w|
  {
    if |w| < 2 then 0 else StepCost(rule, g, w[0], w[1]) + WalkCost(rule, g, w[1..])
  }

  ghost predicate Reachable(g: Grid, s: Pos, t: Pos) {
    exists w :: IsWalk(g, w, s, t)
  }

  /** There is a start, a destination and a walk between them. */
  ghost predicate Solvable(g: Grid)
    requires Rectangular(g)
  {
    LastOf(g, 'S').Some? && LastOf(g, 'D').Some? &&
    Reachable(g, LastOf(g, 'S').value, LastOf(g, 'D').value)
  }

  /** c is at most the cost of every walk from s to t. */
  ghost predicate Cheapest(rule: CostRule, g: Grid, s: Pos, t: Pos, c: nat) {
    forall w {:trigger IsWalk(g, w, s, t)} :: IsWalk(g, w, s, t) ==> c <= WalkCost(rule, g, w)
  }

  /** Splitting a walk at index k splits its cost. */
  lemma {:induction false} WalkCostSplit(rule: CostRule, g: Grid, w: seq<Pos>, k: nat)
    requires k < |w|
    ensures WalkCost(rule, g, w) == WalkCost(rule, g, w[..k + 1]) + WalkCost(rule, g, w[k..])
  {
    if k > 0 {
      WalkCostSplit(rule, g, w[1..], k - 1);
      assert w[1..][..k] == w[..k + 1][1..];
      assert w[1..][k - 1..] == w[k..];
    }
  }

  /** Prepending a step adds its cost. */
  lemma WalkCostCons(rule: CostRule, g: Grid, p: Pos, w: seq<Pos>)
    requires |w| > 0
    ensures WalkCost(rule, g, [p] + w) == StepCost(rule, g, p, w[0]) + WalkCost(rule, g, w)
  {
    assert ([p] + w)[1..] == w;
  }

  /** A walk extended backwards by one adjacent open cell is still a walk. */
  lemma WalkCons(g: Grid, p: Pos, w: seq<Pos>, t: Pos)
    requires |w| > 0 && IsWalk(g, w, w[0], t) && Passable(g, p) && Adjacent(p, w[0])
    ensures IsWalk(g, [p] + w, p, t)
  {
    var v := [p] + w;
    forall i | 0 <= i < |v| ensures Passable(g, v[i]) {
      if i > 0 { assert v[i] == w[i - 1]; }
    }
    forall i | 0 <= i < |v| - 1 ensures Adjacent(v[i], v[i + 1]) {
      if i > 0 { assert v[i] == w[i - 1] && v[i + 1] == w[i]; }
    }
  }

  /** Every walk from s to t costs at least the cost of its prefix up to index k. */
  lemma PrefixCheaper(rule: CostRule, g: Grid, w: seq<Pos>, s: Pos, t: Pos, k: nat)
    requires IsWalk(g, w, s, t) && k < |w|
    ensures IsWalk(g, w[..k + 1], s, w[k])
    ensures WalkCost(rule, g, w[..k + 1]) <= WalkCost(rule, g, w)
  {
    WalkCostSplit(rule, g, w, k);
  }

  /** The value of a table of potentials at p; 0 outside the table. */
  function TableAt(t: seq<seq<int>>, p: Pos): int {
    if 0 <= p.0 < |t| && 0 <= p.1 < |t[p.0]| then t[p.0][p.1] else 0
  }

  /** No step between open cells lowers the potential by more than it costs. */
  ghost predicate Feasible(rule: CostRule, g: Grid, t: seq<seq<int>>) {
    forall p, q :: Passable(g, p) && Passable(g, q) && Adjacent(p, q) ==>
      TableAt(t, q) <= TableAt(t, p) + StepCost(rule, g, p, q)
  }

  /** A feasible potential bounds the cost of every walk from below. */
  lemma {:induction false} WalkAbovePotential(rule: CostRule, g: Grid, t: seq<seq<int>>, w: seq<Pos>, s: Pos, e: Pos)
    requires Feasible(rule, g, t) && IsWalk(g, w, s, e)
    ensures TableAt(t, e) - TableAt(t, s) <= WalkCost(rule, g, w)
    decreases |w|
  {
    if |w| > 1 {
      assert IsWalk(g, w[1..], w[1], e) by {
        forall i | 0 <= i < |w[1..]| - 1 ensures Adjacent(w[1..][i], w[1..][i + 1]) {
          assert w[1..][i] == w[i + 1] && w[1..][i + 1] == w[i + 2];
        }
      }
      WalkAbovePotential(rule, g, t, w[1..], w[1], e);
      assert Adjacent(w[0], w[1]);
    }
  }

  /** Walling off a cell never opens a walk: every walk of the walled grid is a walk of
      the original grid, with the same cost, because it never enters the new wall and
      every other cell is unchanged. */
  lemma {:induction false} WalledWalk(rule: CostRule, g: Grid, p: Pos, w: seq<Pos>, s: Pos, t: Pos)
    requires InBounds(g, p) && IsWalk(Put(g, p, 'X'), w, s, t)
    ensures IsWalk(g, w, s, t)
    ensures WalkCost(rule, Put(g, p, 'X'), w) == WalkCost(rule, g, w)
    decreases |w|
  {
    var h := Put(g, p, 'X');
    forall i | 0 <= i < |w| ensures Passable(g, w[i]) {
      assert Passable(h, w[i]);
    }
    if |w| > 1 {
      assert IsWalk(h, w[1..], w[1], t) by {
        forall i | 0 <= i < |w[1..]| - 1 ensures Adjacent(w[1..][i], w[1..][i + 1]) {
          assert w[1..][i] == w[i + 1] && w[1..][i + 1] == w[i + 2];
        }
      }
      WalledWalk(rule, g, p, w[1..], w[1], t);
      assert Passable(h, w[1]);
      assert CellAt(h, w[1]) == CellAt(g, w[1]);
    }
  }

  /** Turning a cell into a wall never makes a route cheaper: a cost no walk of the
      original grid beats is not beaten by any walk of the walled grid either, and a
      destination the original grid cannot reach stays out of reach. */
  lemma WallNeverCheaper(rule: CostRule, g: Grid, p: Pos, s: Pos, t: Pos, c: nat)
    requires InBounds(g, p)
    ensures Cheapest(rule, g, s, t, c) ==> Cheapest(rule, Put(g, p, 'X'), s, t, c)
    ensures Reachable(Put(g, p, 'X'), s, t) ==> Reachable(g, s, t)
  {
    var h := Put(g, p, 'X');
    forall w | IsWalk(h, w, s, t) ensures IsWalk(g, w, s, t) && WalkCost(rule, h, w) == WalkCost(rule, g, w) {
      WalledWalk(rule, g, p, w, s, t);
    }
  }
}
