/** The editing state of mapbuildingsim.py: a 10 x 10 warehouse the user paints with
    the mouse, the two flags that allow at most one start and one destination, the
    selected cell type, the log line, and the SPACE key that runs the search. Drawing,
    fonts and the event queue are left out; a mouse click or key press is a method call
    with the cursor position in pixels. */
module MapEditor {
  import opened Options
  import opened Grids
  import opened Walks
  import opened Pathfinder
  import opened WarehouseGame

  const Rows: nat := 10
  const Cols: nat := 10
  const Width: int := 1000
  /** The instructions panel left of the grid. */
  const GridOffsetX: int := 200
  const CellSize: int := (Width - GridOffsetX) / Cols
  /** The grid area ends where the legend starts. */
  const GridBottom: int := 800

  /** `cell_types`. */
  function CellType(k: nat): (ch: char)
    requires k <= 4
    ensures ch in ['.', 'X', 'P', 'S', 'D']
  {
    match k
    case 0 => '.'
    case 1 => 'X'
    case 2 => 'P'
    case 3 => 'S'
    case 4 => 'D'
  }

  /** The grid cell under the cursor, if any: the guard and the floor divisions of both
      click handlers. (Python's `//` and Dafny's `/` agree for a positive divisor.) */
  function CellUnder(x: int, y: int): (p: Option<Pos>) {
    if GridOffsetX <= x < Width && y < GridBottom then
      var c, r := (x - GridOffsetX) / CellSize, y / CellSize;
      if 0 <= r < Rows && 0 <= c < Cols then Some((r, c)) else None
    else None
  }

  /** A click lands on cell (r, c) exactly when the cursor is inside that cell's square. */
  lemma CellUnderSquare(x: int, y: int, r: int, c: int)
    ensures CellUnder(x, y) == Some((r, c)) <==>
              0 <= r < Rows && 0 <= c < Cols &&
              GridOffsetX + c * CellSize <= x < GridOffsetX + (c + 1) * CellSize &&
              r * CellSize <= y < (r + 1) * CellSize
  {
    assert CellSize == 80;
  }

  /** Where the path arrows start and end: the centre of a cell on screen. */
  function CellCentre(p: Pos): (int, int) {
    (GridOffsetX + p.1 * CellSize + CellSize / 2, p.0 * CellSize + CellSize / 2)
  }

  /** Clicking the centre of a cell selects that cell. */
  lemma CentreSelectsCell(p: Pos)
    requires 0 <= p.0 < Rows && 0 <= p.1 < Cols
    ensures CellUnder(CellCentre(p).0, CellCentre(p).1) == Some(p)
  {
    CellUnderSquare(CellCentre(p).0, CellCentre(p).1, p.0, p.1);
  }

  /** The legend boxes left to right: Start, End, Wall, Low Cost, Eraser. */
  const LegendTypes: seq<nat> := [3, 4, 1, 2, 0]

  /** The cursor is strictly inside the k-th 50 x 50 legend box. */
  predicate InLegendBox(k: int, x: int, y: int) {
    var left := GridOffsetX + 20 + 80 * k;
    left < x < left + 50 && 810 < y < 810 + 50
  }

  /** No point lies in two legend boxes. */
  lemma LegendBoxesDisjoint(j: int, k: int, x: int, y: int)
    requires InLegendBox(j, x, y) && InLegendBox(k, x, y)
    ensures j == k
  {
  }

  /** Log lines shown under the instructions. Costs are in half units. */
  datatype Log =
    | Blank
    | StartPlaced | StartAlreadyPlaced
    | DestPlaced | DestAlreadyPlaced
    | PathFound(cost: nat) | NoPathFound | EndpointsNotSet
    | GridCleared

  /** The grid has the editor's 10 x 10 shape. */
  predicate Shaped(g: Grid) {
    |g| == Rows && forall r :: 0 <= r < Rows ==> |g[r]| == Cols
  }

  /** At most one cell holds ch. */
  ghost predicate AtMostOne(g: Grid, ch: char) {
    forall p, q :: InBounds(g, p) && InBounds(g, q) && CellAt(g, p) == ch && CellAt(g, q) == ch ==> p == q
  }

  /** No cell holds ch. */
  ghost predicate Without(g: Grid, ch: char) {
    forall p :: InBounds(g, p) ==> CellAt(g, p) != ch
  }

  /** The editor's starting floor: Rows rows of Cols open cells. */
  function EmptyWarehouse(): (g: Grid)
    ensures Shaped(g) && forall p :: InBounds(g, p) ==> CellAt(g, p) == '.'
  {
    seq(Rows, _ => seq(Cols, _ => '.'))
  }

  /** Writing over one cell keeps "at most one ch" and, unless ch itself is written, "no ch". */
  lemma PutKeeps(g: Grid, p: Pos, ch: char, written: char)
    requires InBounds(g, p)
    ensures AtMostOne(g, ch) && written != ch ==> AtMostOne(Put(g, p, written), ch)
    ensures Without(g, ch) && written != ch ==> Without(Put(g, p, written), ch)
    ensures Without(g, ch) ==> AtMostOne(Put(g, p, written), ch)
  {
    var h := Put(g, p, written);
    if AtMostOne(g, ch) && written != ch {
      forall a, b | InBounds(h, a) && InBounds(h, b) && CellAt(h, a) == ch && CellAt(h, b) == ch ensures a == b {
        assert CellAt(g, a) == ch && CellAt(g, b) == ch;
      }
    }
    if Without(g, ch) {
      forall a, b | InBounds(h, a) && InBounds(h, b) && CellAt(h, a) == ch && CellAt(h, b) == ch ensures a == b {
        assert a == p && b == p;
      }
    }
  }

  /** Erasing the only ch cell leaves none. */
  lemma EraseOnly(g: Grid, p: Pos, ch: char)
    requires InBounds(g, p) && AtMostOne(g, ch) && CellAt(g, p) == ch && ch != '.'
    ensures Without(Put(g, p, '.'), ch)
  {
    var h := Put(g, p, '.');
    forall q | InBounds(h, q) ensures CellAt(h, q) != ch {
      if q != p {
        assert CellAt(h, q) == CellAt(g, q);
      }
    }
  }

  class Editor {
    var warehouse: Grid
    var startPlaced: bool
    var endPlaced: bool
    var log: Log
    /** `current_cell_type`, a key of `cell_types`. */
    var current: nat

    /** A start is on the grid only while `start_placed` is set, and never more than one;
        the same for the destination. */
    ghost predicate Valid()
      reads this
      ensures Valid() ==> Rectangular(warehouse)
      ensures Valid() && !startPlaced ==> LastOf(warehouse, 'S').None?
      ensures Valid() && !endPlaced ==> LastOf(warehouse, 'D').None?
    {
      && Shaped(warehouse)
      && current <= 4
      && AtMostOne(warehouse, 'S') && AtMostOne(warehouse, 'D')
      && (!startPlaced ==> Without(warehouse, 'S'))
      && (!endPlaced ==> Without(warehouse, 'D'))
    }

    /** The module-level initial state: an empty floor, no endpoints, Start selected. */
    constructor ()
      ensures Valid()
      ensures warehouse == EmptyWarehouse() && !startPlaced && !endPlaced && log == Blank && current == 3
    {
      warehouse := EmptyWarehouse();
      startPlaced, endPlaced := false, false;
      log := Blank;
      current := 3;
    }

    /** The selection loop of `draw_legend` while the left button is down: every box the
        cursor is in selects its cell type. */
    method ClickLegend(x: int, y: int)
      requires Valid()
      modifies this`current
      ensures Valid()
      ensures forall k :: 0 <= k < |LegendTypes| && InLegendBox(k, x, y) ==> current == LegendTypes[k]
      ensures (forall k :: 0 <= k < |LegendTypes| ==> !InLegendBox(k, x, y)) ==> current == old(current)
    {
      for k := 0 to |LegendTypes|
        invariant current <= 4
        invariant forall j :: 0 <= j < k && InLegendBox(j, x, y) ==> current == LegendTypes[j]
        invariant (forall j :: 0 <= j < k ==> !InLegendBox(j, x, y)) ==> current == old(current)
      {
        if InLegendBox(k, x, y) {
          current := LegendTypes[k];
          forall j | 0 <= j < k && InLegendBox(j, x, y) ensures false {
            LegendBoxesDisjoint(j, k, x, y);
          }
        }
      }
    }

    /** The left-click handler: the eraser clears the cell; Start and End place their
        endpoint only while none is placed and log the outcome; Wall and Low Cost overwrite
        the cell. Nothing happens outside the grid. */
    method LeftClick(x: int, y: int)
      requires Valid()
      modifies this
      ensures Valid() && current == old(current)
      ensures CellUnder(x, y).None? ==>
                warehouse == old(warehouse) && startPlaced == old(startPlaced) &&
                endPlaced == old(endPlaced) && log == old(log)
      ensures var p := CellUnder(x, y);
              p.Some? && current != 3 && current != 4 ==>
                warehouse == Put(old(warehouse), p.value, CellType(current)) &&
                startPlaced == old(startPlaced) && endPlaced == old(endPlaced) && log == old(log)
      ensures var p := CellUnder(x, y);
              p.Some? && current == 3 ==>
                endPlaced == old(endPlaced) && startPlaced &&
                if old(startPlaced) then warehouse == old(warehouse) && log == StartAlreadyPlaced
                else warehouse == Put(old(warehouse), p.value, 'S') && log == StartPlaced
      ensures var p := CellUnder(x, y);
              p.Some? && current == 4 ==>
                startPlaced == old(startPlaced) && endPlaced &&
                if old(endPlaced) then warehouse == old(warehouse) && log == DestAlreadyPlaced
                else warehouse == Put(old(warehouse), p.value, 'D') && log == DestPlaced
    {
      var cell := CellUnder(x, y);
      if cell.None? {
        return;
      }
      var p := cell.value;
      if current == 0 {
        PutKeeps(warehouse, p, 'S', '.');
        PutKeeps(warehouse, p, 'D', '.');
        warehouse := Put(warehouse, p, '.');
      } else if current == 3 {
        if !startPlaced {
          PutKeeps(warehouse, p, 'S', 'S');
          PutKeeps(warehouse, p, 'D', 'S');
          warehouse := Put(warehouse, p, 'S');
          startPlaced := true;
          log := StartPlaced;
        } else {
          log := StartAlreadyPlaced;
        }
      } else if current == 4 {
        if !endPlaced {
          PutKeeps(warehouse, p, 'S', 'D');
          PutKeeps(warehouse, p, 'D', 'D');
          warehouse := Put(warehouse, p, 'D');
          endPlaced := true;
          log := DestPlaced;
        } else {
          log := DestAlreadyPlaced;
        }
      } else {
        PutKeeps(warehouse, p, 'S', CellType(current));
        PutKeeps(warehouse, p, 'D', CellType(current));
        warehouse := Put(warehouse, p, CellType(current));
      }
    }

    /** The right-click handler: the cell becomes floor, and erasing the start or the
        destination clears its flag. */
    method RightClick(x: int, y: int)
      requires Valid()
      modifies this`warehouse, this`startPlaced, this`endPlaced
      ensures Valid()
      ensures CellUnder(x, y).None? ==>
                warehouse == old(warehouse) && startPlaced == old(startPlaced) && endPlaced == old(endPlaced)
      ensures var p := CellUnder(x, y);
              p.Some? ==>
                warehouse == Put(old(warehouse), p.value, '.') &&
                startPlaced == (old(startPlaced) && CellAt(old(warehouse), p.value) != 'S') &&
                endPlaced == (old(endPlaced) && CellAt(old(warehouse), p.value) != 'D')
    {
      var cell := CellUnder(x, y);
      if cell.None? {
        return;
      }
      var p := cell.value;
      if warehouse[p.0][p.1] == 'S' {
        EraseOnly(warehouse, p, 'S');
        startPlaced := false;
      } else if warehouse[p.0][p.1] == 'D' {
        EraseOnly(warehouse, p, 'D');
        endPlaced := false;
      }
      PutKeeps(warehouse, p, 'S', '.');
      PutKeeps(warehouse, p, 'D', '.');
      warehouse := Put(warehouse, p, '.');
    }

    /** The C key: an empty warehouse, both flags cleared. */
    method Clear()
      requires Valid()
      modifies this`warehouse, this`startPlaced, this`endPlaced, this`log
      ensures Valid()
      ensures warehouse == EmptyWarehouse() && !startPlaced && !endPlaced && log == GridCleared
    {
      warehouse := EmptyWarehouse();
      startPlaced, endPlaced := false, false;
      log := GridCleared;
    }

    /** The SPACE key: with both endpoints on the grid, run the search and log its cost
        or its failure; otherwise log that the endpoints are missing. The path returned
        is the one the arrows are drawn along. */
    method FindPath() returns (path: seq<Pos>)
      requires Valid()
      modifies this`log
      ensures log == EndpointsNotSet <==> LastOf(warehouse, 'S').None? || LastOf(warehouse, 'D').None?
      ensures log.PathFound? <==> Solvable(warehouse)
      ensures log == NoPathFound <==>
                LastOf(warehouse, 'S').Some? && LastOf(warehouse, 'D').Some? && !Solvable(warehouse)
      ensures log.PathFound? || log == NoPathFound || log == EndpointsNotSet
      ensures !log.PathFound? ==> path == []
      ensures log.PathFound? ==>
                var s, d := LastOf(warehouse, 'S').value, LastOf(warehouse, 'D').value;
                IsWalk(warehouse, path, s, d) && log.cost == WalkCost(Directional, warehouse, path) &&
                Cheapest(Directional, warehouse, s, d, log.cost)
    {
      var start, end := FindStartEnd(warehouse);
      if start.Some? && end.Some? {
        var cost;
        cost, path := Dijkstra(Directional, warehouse, start.value, end.value);
        if path != [] {
          log := PathFound(cost.value);
        } else {
          log := NoPathFound;
        }
      } else {
        path := [];
        log := EndpointsNotSet;
      }
    }
  }

  /** The grid after placing a start at (0, 0) and a destination at (0, 2) on an empty
      floor and erasing (0, 0) again: no start is left, and the destination is found. */
  lemma ErasedStartGrid()
    ensures var g := Put(Put(Put(EmptyWarehouse(), (0, 0), 'S'), (0, 2), 'D'), (0, 0), '.');
            Shaped(g) && Without(g, 'S') && LastOf(g, 'S').None? && LastOf(g, 'D') == Some((0, 2))
  {
    var g := Put(Put(Put(EmptyWarehouse(), (0, 0), 'S'), (0, 2), 'D'), (0, 0), '.');
    assert Shaped(g);
    assert forall q :: InBounds(g, q) ==> CellAt(g, q) == if q == (0, 2) then 'D' else '.';
    LastOfUnique(g, 'D', (0, 2));
  }

  /** Places a start at (0, 0) and a destination at (0, 2) on a fresh editor, then erases
      (0, 0) with the left-click eraser: both flags stay set, the grid holds only the destination. */
  method PlaceAndErase() returns (e: Editor)
    ensures fresh(e) && e.Valid()
    ensures e.startPlaced && e.endPlaced
    ensures e.warehouse == Put(Put(Put(EmptyWarehouse(), (0, 0), 'S'), (0, 2), 'D'), (0, 0), '.')
  {
    e := new Editor();
    CentreSelectsCell((0, 0));
    CentreSelectsCell((0, 2));
    var (x0, y0) := CellCentre((0, 0));
    var (x2, y2) := CellCentre((0, 2));
    e.LeftClick(x0, y0);
    assert InLegendBox(1, GridOffsetX + 20 + 80 * 1 + 1, 811);
    e.ClickLegend(GridOffsetX + 20 + 80 * 1 + 1, 811);
    e.LeftClick(x2, y2);
    assert InLegendBox(4, GridOffsetX + 20 + 80 * 4 + 1, 811);
    e.ClickLegend(GridOffsetX + 20 + 80 * 4 + 1, 811);
    e.LeftClick(x0, y0);
  }

  /** Erasing the start with the left-click eraser leaves `start_placed` set. With a
      destination on the grid, the editor then refuses a new start although the grid has
      none, and SPACE reports missing endpoints although both flags are set. */
  method EraserKeepsStartFlag() returns (second: Log, startOnGrid: bool, destOnGrid: bool, solved: Log)
    ensures second == StartAlreadyPlaced && !startOnGrid && destOnGrid && solved == EndpointsNotSet
  {
    var e := PlaceAndErase();
    ErasedStartGrid();
    CentreSelectsCell((0, 1));
    var (x1, y1) := CellCentre((0, 1));
    assert InLegendBox(0, GridOffsetX + 20 + 1, 811);
    e.ClickLegend(GridOffsetX + 20 + 1, 811);
    e.LeftClick(x1, y1);
    second := e.log;
    startOnGrid := LastOf(e.warehouse, 'S').Some?;
    destOnGrid := LastOf(e.warehouse, 'D').Some?;
    var path := e.FindPath();
    solved := e.log;
  }

  /** Erasing the start with a right click clears the flag, so a new start is accepted. */
  method RightClickFreesStart() returns (second: Log, start: Option<Pos>)
    ensures second == StartPlaced && start == Some((0, 1))
  {
    var e := new Editor();
    CentreSelectsCell((0, 0));
    CentreSelectsCell((0, 1));
    var (x0, y0) := CellCentre((0, 0));
    var (x1, y1) := CellCentre((0, 1));
    e.LeftClick(x0, y0);
    e.RightClick(x0, y0);
    assert !e.startPlaced;
    e.LeftClick(x1, y1);
    second := e.log;
    var g := e.warehouse;
    assert CellAt(g, (0, 1)) == 'S';
    LastOfUnique(g, 'S', (0, 1));
    start := LastOf(g, 'S');
  }
}
