/** The warehouse grid shared by the three programs: one character per cell,
    '.' open floor, 'X' wall, 'P' slow zone, 'S' start, 'D' destination.
    Also the row-major scan `find_start_end` (`start_end` in main.py). */
module Grids {
  import opened Options

  /** A (row, column) pair. */
  type Pos = (int, int)

  /** A list of rows of cell characters. */
  type Grid = seq<seq<char>>

  /** All rows have the length of the first one. */
  predicate Rectangular(g: Grid) {
    forall r :: 0 <= r < |g| ==> |g[r]| == |g[0]|
  }

  predicate InBounds(g: Grid, p: Pos) {
    0 <= p.0 < |g| && 0 <= p.1 < |g[p.0]|
  }

  /** The cell at p. A position outside the grid reads as a wall: the programs
      never index outside the grid, and for them such a position is never a
      neighbour. */
  function CellAt(g: Grid, p: Pos): (ch: char)
    ensures InBounds(g, p) ==> ch == g[p.0][p.1]
    ensures !InBounds(g, p) ==> ch == 'X'
  {
    if InBounds(g, p) then g[p.0][p.1] else 'X'
  }

  /** In the grid and not a wall. */
  predicate Passable(g: Grid, p: Pos) {
    CellAt(g, p) != 'X'
  }

  /** A copy of the grid g in which the one cell at p holds ch. */
  function Put(g: Grid, p: Pos, ch: char): (h: Grid)
    requires InBounds(g, p)
    ensures |h| == |g| && forall r :: 0 <= r < |g| ==> |h[r]| == |g[r]|
    ensures forall q :: InBounds(g, q) ==> CellAt(h, q) == if q == p then ch else CellAt(g, q)
  {
    g[p.0 := g[p.0][p.1 := ch]]
  }

  /** The set comprehension that initialises `unvisited` in `dijkstra`. */
  function OpenCells(g: Grid): (s: set<Pos>)
    ensures forall p :: p in s <==> Passable(g, p)
  {
    var s := set r, c | 0 <= r < |g| && 0 <= c < |g[r]| && g[r][c] != 'X' :: (r, c);
    assert forall p :: Passable(g, p) ==> p in s by {
      forall p | Passable(g, p) ensures p in s {
        var (r, c) := p;
        assert 0 <= r < |g| && 0 <= c < |g[r]| && g[r][c] != 'X';
      }
    }
    s
  }

  /** p comes strictly before q in row-major order. */
  predicate Before(p: Pos, q: Pos) {
    p.0 < q.0 || (p.0 == q.0 && p.1 < q.1)
  }

  /** The last column below n of `row` that holds ch. */
  function LastInRow(row: seq<char>, ch: char, n: nat): (k: Option<nat>)
    requires n <= |row|
    ensures k.Some? ==> k.value < n && row[k.value] == ch
    ensures k.Some? ==> forall j :: k.value < j < n ==> row[j] != ch
    ensures k.None? ==> forall j :: 0 <= j < n ==> row[j] != ch
  {
    if n == 0 then None
    else if row[n - 1] == ch then Some(n - 1)
    else LastInRow(row, ch, n - 1)
  }

  /** The last cell holding ch, in row-major order, among the first k rows. */
  function LastInRows(g: Grid, ch: char, k: nat): (p: Option<Pos>)
    requires Rectangular(g) && k <= |g|
    ensures p.Some? ==> p.value.0 < k && InBounds(g, p.value) && CellAt(g, p.value) == ch
    ensures p.Some? ==> forall q :: InBounds(g, q) && q.0 < k && Before(p.value, q) ==> CellAt(g, q) != ch
    ensures p.None? ==> forall q :: InBounds(g, q) && q.0 < k ==> CellAt(g, q) != ch
  {
    if k == 0 then None
    else
      match LastInRow(g[k - 1], ch, |g[0]|)
      case Some(c) => Some((k - 1, c))
      case None => LastInRows(g, ch, k - 1)
  }

  /** The last cell of the whole grid holding ch, in row-major order. */
  function LastOf(g: Grid, ch: char): (p: Option<Pos>)
    requires Rectangular(g)
    ensures p.Some? ==> InBounds(g, p.value) && CellAt(g, p.value) == ch
    ensures p.Some? ==> forall q :: InBounds(g, q) && Before(p.value, q) ==> CellAt(g, q) != ch
    ensures p.None? <==> forall q :: InBounds(g, q) ==> CellAt(g, q) != ch
  {
    LastInRows(g, ch, |g|)
  }

  /** When exactly one cell holds ch, the scan reports that cell. */
  lemma LastOfUnique(g: Grid, ch: char, p: Pos)
    requires Rectangular(g) && InBounds(g, p) && CellAt(g, p) == ch
    requires forall q :: InBounds(g, q) && CellAt(g, q) == ch ==> q == p
    ensures LastOf(g, ch) == Some(p)
  {
  }

  /** `find_start_end`: a row-major scan that keeps the last 'S' and the last 'D' seen. */
  method FindStartEnd(g: Grid) returns (start: Option<Pos>, end: Option<Pos>)
    requires Rectangular(g)
    ensures start == LastOf(g, 'S') && end == LastOf(g, 'D')
  {
    start, end := None, None;
    for r := 0 to |g|
      invariant start == LastInRows(g, 'S', r) && end == LastInRows(g, 'D', r)
    {
      ghost var before := (start, end);
      for c := 0 to |g[0]|
        invariant start == match LastInRow(g[r], 'S', c) case Some(k) => Some((r, k)) case None => before.0
        invariant end == match LastInRow(g[r], 'D', c) case Some(k) => Some((r, k)) case None => before.1
      {
        if g[r][c] == 'S' {
          start := Some((r, c));
        } else if g[r][c] == 'D' {
          end := Some((r, c));
        }
      }
    }
  }
}
