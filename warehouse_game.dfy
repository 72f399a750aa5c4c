/** The terminal mini-game of warehouseminigame.py: random grid generation, the
    solvability check with regeneration, the move loop and the closing report of the
    optimal route. Randomness and keyboard input are parameters: a grid is generated
    from a table of draws (one `random.random()` value per cell, in [0, 1)), and the
    player's answers and moves are sequences of already stripped, upper-cased lines. */
module WarehouseGame {
  import opened Options
  import opened Grids
  import opened Walks
  import opened Pathfinder

  /** The default `obstacle_prob` and `slow_prob` of `generate_game_grid`. */
  const ObstacleProb: real := 0.2
  const SlowProb: real := 0.1

  /** The default board of `play_game`: 10 x 10 with 30 moves. */
  const DefaultRows: nat := 10
  const DefaultCols: nat := 10
  const DefaultMoveLimit: int := 30

  /** What one draw turns an ordinary cell into. */
  function Classify(rnd: real, obstacleProb: real, slowProb: real): char {
    if rnd < obstacleProb then 'X' else if rnd < obstacleProb + slowProb then 'P' else '.'
  }

  /** (r, c) is the start corner or the destination corner. */
  predicate IsCorner(rows: nat, cols: nat, r: int, c: int) {
    (r, c) == (0, 0) || (r, c) == (rows - 1, cols - 1)
  }

  /** A table with one draw per cell. */
  predicate DrawsFit(draws: seq<seq<real>>, rows: nat, cols: nat) {
    |draws| == rows && forall r :: 0 <= r < rows ==> |draws[r]| == cols
  }

  /** The cell the generator leaves at (r, c): the destination is written last, so it
      wins over the start on a 1 x 1 board. */
  function GameCell(rows: nat, cols: nat, draws: seq<seq<real>>, obstacleProb: real, slowProb: real,
                    r: nat, c: nat): char
    requires DrawsFit(draws, rows, cols) && r < rows && c < cols
  {
    if (r, c) == (rows - 1, cols - 1) then 'D'
    else if (r, c) == (0, 0) then 'S'
    else Classify(draws[r][c], obstacleProb, slowProb)
  }

  /** The grid `generate_game_grid` builds from the given draws. */
  function GameGrid(rows: nat, cols: nat, draws: seq<seq<real>>, obstacleProb: real, slowProb: real): (g: Grid)
    requires DrawsFit(draws, rows, cols)
    ensures |g| == rows && forall r :: 0 <= r < rows ==> |g[r]| == cols
  {
    seq(rows, r requires 0 <= r < rows => seq(cols, c requires 0 <= c < cols =>
      GameCell(rows, cols, draws, obstacleProb, slowProb, r, c)))
  }

  /** `generate_game_grid(rows, cols, obstacle_prob, slow_prob)`: a grid of floor, then
      a wall or slow zone wherever the cell's draw says so (the corners are skipped), then
      the start and the destination in opposite corners. */
  method GenerateGameGrid(rows: nat, cols: nat, draws: seq<seq<real>>, obstacleProb: real, slowProb: real)
    returns (grid: Grid)
    requires rows > 0 && cols > 0 && DrawsFit(draws, rows, cols)
    ensures grid == GameGrid(rows, cols, draws, obstacleProb, slowProb)
  {
    grid := seq(rows, _ => seq(cols, _ => '.'));
    for r := 0 to rows
      invariant |grid| == rows && forall i :: 0 <= i < rows ==> |grid[i]| == cols
      invariant forall i, c :: 0 <= i < r && 0 <= c < cols ==>
                  grid[i][c] == if IsCorner(rows, cols, i, c) then '.' else Classify(draws[i][c], obstacleProb, slowProb)
      invariant forall i, c :: r <= i < rows && 0 <= c < cols ==> grid[i][c] == '.'
    {
      for c := 0 to cols
        invariant |grid| == rows && forall i :: 0 <= i < rows ==> |grid[i]| == cols
        invariant forall i, j :: 0 <= i < r && 0 <= j < cols ==>
                    grid[i][j] == if IsCorner(rows, cols, i, j) then '.' else Classify(draws[i][j], obstacleProb, slowProb)
        invariant forall j :: 0 <= j < c ==>
                    grid[r][j] == if IsCorner(rows, cols, r, j) then '.' else Classify(draws[r][j], obstacleProb, slowProb)
        invariant forall j :: c <= j < cols ==> grid[r][j] == '.'
        invariant forall i, j :: r < i < rows && 0 <= j < cols ==> grid[i][j] == '.'
      {
        if IsCorner(rows, cols, r, c) {
          continue;
        }
        var rnd := draws[r][c];
        if rnd < obstacleProb {
          grid := grid[r := grid[r][c := 'X']];
        } else if rnd < obstacleProb + slowProb {
          grid := grid[r := grid[r][c := 'P']];
        }
      }
    }
    grid := grid[0 := grid[0][0 := 'S']];
    grid := grid[rows - 1 := grid[rows - 1][cols - 1 := 'D']];
    ghost var want := GameGrid(rows, cols, draws, obstacleProb, slowProb);
    forall r | 0 <= r < rows ensures grid[r] == want[r] {
      assert forall c :: 0 <= c < cols ==> grid[r][c] == want[r][c];
    }
  }

  /** On any board larger than 1 x 1 the generated grid has exactly one start, at (0, 0),
      and exactly one destination, at the far corner, so `find_start_end` reports those. */
  lemma GameGridEndpoints(rows: nat, cols: nat, draws: seq<seq<real>>, obstacleProb: real, slowProb: real)
    requires rows > 0 && cols > 0 && (rows, cols) != (1, 1) && DrawsFit(draws, rows, cols)
    ensures var g := GameGrid(rows, cols, draws, obstacleProb, slowProb);
            Rectangular(g) && LastOf(g, 'S') == Some((0, 0)) && LastOf(g, 'D') == Some((rows - 1, cols - 1))
  {
    var g := GameGrid(rows, cols, draws, obstacleProb, slowProb);
    LastOfUnique(g, 'S', (0, 0));
    LastOfUnique(g, 'D', (rows - 1, cols - 1));
  }

  /** On a 1 x 1 board the destination overwrites the start, so there is no start. */
  lemma SingleCellHasNoStart(draws: seq<seq<real>>, obstacleProb: real, slowProb: real)
    requires DrawsFit(draws, 1, 1)
    ensures var g := GameGrid(1, 1, draws, obstacleProb, slowProb);
            g == [['D']] && LastOf(g, 'S') == None
  {
    var g := GameGrid(1, 1, draws, obstacleProb, slowProb);
    assert g[0] == ['D'];
  }

  /** Every interior draw below the obstacle probability walls off everything but the corners;
      unless the corners touch (a 1 x 2 or 2 x 1 board) the destination is then out of reach. */
  lemma AllWallsUnreachable(rows: nat, cols: nat, draws: seq<seq<real>>, obstacleProb: real, slowProb: real)
    requires rows > 0 && cols > 0 && rows + cols > 3 && DrawsFit(draws, rows, cols)
    requires forall r, c :: 0 <= r < rows && 0 <= c < cols ==> draws[r][c] < obstacleProb
    ensures !Reachable(GameGrid(rows, cols, draws, obstacleProb, slowProb), (0, 0), (rows - 1, cols - 1))
  {
    var g := GameGrid(rows, cols, draws, obstacleProb, slowProb);
    if Reachable(g, (0, 0), (rows - 1, cols - 1)) {
      var w :| IsWalk(g, w, (0, 0), (rows - 1, cols - 1));
      FirstStepToCorner(rows, cols, draws, obstacleProb, slowProb, w, (rows - 1, cols - 1));
      assert false;
    }
  }

  /** On such an all-wall grid a walk from the start can only step straight onto the destination. */
  lemma FirstStepToCorner(rows: nat, cols: nat, draws: seq<seq<real>>, obstacleProb: real, slowProb: real,
                          w: seq<Pos>, t: Pos)
    requires rows > 0 && cols > 0 && DrawsFit(draws, rows, cols)
    requires forall r, c :: 0 <= r < rows && 0 <= c < cols ==> draws[r][c] < obstacleProb
    requires IsWalk(GameGrid(rows, cols, draws, obstacleProb, slowProb), w, (0, 0), t) && |w| > 1
    ensures w[1] == (rows - 1, cols - 1) && Adjacent((0, 0), w[1])
  {
    var g := GameGrid(rows, cols, draws, obstacleProb, slowProb);
    assert Adjacent(w[0], w[1]) && Passable(g, w[1]);
  }

  /** Every position on the path is on the grid. */
  predicate OnGrid(g: Grid, path: seq<Pos>) {
    forall p :: p in path ==> InBounds(g, p)
  }

  /** The grid `print_grid_with_path` shows: cells on the path become '*', except the
      start and the destination; every other cell is unchanged. */
  function Marked(g: Grid, path: seq<Pos>): (m: Grid)
    ensures |m| == |g| && forall r :: 0 <= r < |g| ==> |m[r]| == |g[r]|
  {
    seq(|g|, r requires 0 <= r < |g| => seq(|g[r]|, c requires 0 <= c < |g[r]| =>
      if (r, c) in path && g[r][c] != 'S' && g[r][c] != 'D' then '*' else g[r][c]))
  }

  /** The marking loop of `print_grid_with_path` on a copy of the grid (the printing is left out). */
  method Overlay(grid: Grid, path: seq<Pos>) returns (marked: Grid)
    requires OnGrid(grid, path)
    ensures marked == Marked(grid, path)
  {
    marked := grid;
    for i := 0 to |path|
      invariant |marked| == |grid| && forall r :: 0 <= r < |grid| ==> |marked[r]| == |grid[r]|
      invariant forall r, c :: 0 <= r < |grid| && 0 <= c < |grid[r]| ==>
                  marked[r][c] == if (r, c) in path[..i] && grid[r][c] != 'S' && grid[r][c] != 'D' then '*' else grid[r][c]
    {
      var (r, c) := path[i];
      assert path[i] in path;
      assert path[..i + 1] == path[..i] + [(r, c)];
      if marked[r][c] != 'S' && marked[r][c] != 'D' {
        marked := marked[r := marked[r][c := '*']];
      }
    }
    assert path[..|path|] == path;
    ghost var want := Marked(grid, path);
    forall r | 0 <= r < |grid| ensures marked[r] == want[r] {
      assert forall c :: 0 <= c < |grid[r]| ==> marked[r][c] == want[r][c];
    }
  }

  /** Marking a path keeps walls as walls and leaves the start and destination where they
      were, so searching the marked grid finds the same endpoints. */
  lemma MarkedKeepsLayout(g: Grid, path: seq<Pos>)
    requires Rectangular(g)
    ensures var m := Marked(g, path);
            Rectangular(m) &&
            (forall p :: Passable(m, p) <==> Passable(g, p) || (InBounds(g, p) && p in path && CellAt(g, p) == 'X')) &&
            LastOf(m, 'S') == LastOf(g, 'S') && LastOf(m, 'D') == LastOf(g, 'D')
  {
    var m := Marked(g, path);
    forall q | InBounds(g, q) ensures CellAt(m, q) == 'S' <==> CellAt(g, q) == 'S' {
    }
    forall q | InBounds(g, q) ensures CellAt(m, q) == 'D' <==> CellAt(g, q) == 'D' {
    }
    MatchingScans(g, m, 'S');
    MatchingScans(g, m, 'D');
  }

  /** Two grids of the same shape holding ch in the same cells give the same scan result. */
  lemma MatchingScans(g: Grid, m: Grid, ch: char)
    requires Rectangular(g) && |m| == |g| && forall r :: 0 <= r < |g| ==> |m[r]| == |g[r]|
    requires forall q :: InBounds(g, q) ==> (CellAt(m, q) == ch <==> CellAt(g, q) == ch)
    ensures Rectangular(m) && LastOf(m, ch) == LastOf(g, ch)
  {
    assert Rectangular(m);
    var a, b := LastOf(m, ch), LastOf(g, ch);
    if a.Some? && b.Some? {
      assert !Before(a.value, b.value) && !Before(b.value, a.value);
    }
  }

  /** `find_start_end(grid)` followed by `DijkstraPathfinder(grid).dijkstra(start, dest)`
      on a grid with a destination, as every generated grid has one. With no start the
      search answers `(inf, [])`. (With neither endpoint it would trace a path through
      `None`; the game never asks for that.) */
    method Solve(g: Grid) returns (start: Option<Pos>, dest: Option<Pos>, cost: Cost, path: seq<Pos>)
    requires |g| > 0 && Rectangular(g) && LastOf(g, 'D').Some?
    ensures start == LastOf(g, 'S') && dest == LastOf(g, 'D')
    ensures path == [] <==> cost == None
    ensures path != [] <==> Solvable(g)
    ensures path != [] ==>
              IsWalk(g, path, start.value, dest.value) && cost == Some(WalkCost(Directional, g, path)) &&
              Cheapest(Directional, g, start.value, dest.value, cost.value)
  {
    start, dest := FindStartEnd(g);
    if start.Some? && dest.Some? {
      cost, path := Dijkstra(Directional, g, start.value, dest.value);
    } else {
      cost, path := None, [];
    }
  }

  /** The draws give a grid with a route from its start to its destination. */
  ghost predicate PlayableDraws(rows: nat, cols: nat, draws: seq<seq<real>>)
    requires DrawsFit(draws, rows, cols)
  {
    var g := GameGrid(rows, cols, draws, ObstacleProb, SlowProb);
    Rectangular(g) && Solvable(g)
  }

  /** One round of the regeneration loop: generate a grid and check it with the search. */
  method TryGrid(rows: nat, cols: nat, draws: seq<seq<real>>) returns (grid: Grid, solvable: bool)
    requires rows > 0 && cols > 0 && DrawsFit(draws, rows, cols)
    ensures grid == GameGrid(rows, cols, draws, ObstacleProb, SlowProb)
    ensures solvable == PlayableDraws(rows, cols, draws)
  {
    grid := GenerateGameGrid(rows, cols, draws, ObstacleProb, SlowProb);
    GameGridEndpointsOrNone(rows, cols, draws);
    var start, dest, cost, path := Solve(grid);
    solvable := path != [];
  }

  /** Draw table j gave an unsolvable grid and the answer to the prompt after it was "R". */
  ghost predicate Retried(rows: nat, cols: nat, tables: seq<seq<seq<real>>>, answers: seq<string>, j: nat)
    requires j < |tables| && DrawsFit(tables[j], rows, cols)
  {
    !PlayableDraws(rows, cols, tables[j]) && j < |answers| && answers[j] == "R"
  }

  /** The `while True` loop at the top of `play_game`: generate a grid from each draw
      table in turn until one is solvable; after an unsolvable one, go on only if the
      answer is "R". Running out of draw tables ends the loop as a refusal would. */
  method FindPlayableGrid(rows: nat, cols: nat, tables: seq<seq<seq<real>>>, answers: seq<string>)
    returns (found: Option<Grid>, attempt: nat)
    requires rows > 0 && cols > 0
    requires forall i :: 0 <= i < |tables| ==> DrawsFit(tables[i], rows, cols)
    ensures attempt <= |tables|
    ensures forall j :: 0 <= j < attempt ==> Retried(rows, cols, tables, answers, j)
    ensures found.Some? ==>
              attempt < |tables| && found.value == GameGrid(rows, cols, tables[attempt], ObstacleProb, SlowProb) &&
              PlayableDraws(rows, cols, tables[attempt])
    ensures found.None? && attempt < |tables| ==>
              !PlayableDraws(rows, cols, tables[attempt]) &&
              (attempt >= |answers| || answers[attempt] != "R")
  {
    attempt := 0;
    while attempt < |tables|
      invariant attempt <= |tables|
      invariant forall j :: 0 <= j < attempt ==> Retried(rows, cols, tables, answers, j)
    {
      var grid, solvable := TryGrid(rows, cols, tables[attempt]);
      if solvable {
        return Some(grid), attempt;
      }
      if attempt < |answers| && answers[attempt] == "R" {
        ghost var refused := attempt;
        attempt := attempt + 1;
        forall j | 0 <= j < attempt ensures Retried(rows, cols, tables, answers, j) {
          if j == refused {
            assert !solvable;
          }
        }
      } else {
        return None, attempt;
      }
    }
    found := None;
  }

  /** `dirs` of the move loop. */
  const Moves: map<string, Pos> := map["W" := (-1, 0), "S" := (1, 0), "A" := (0, -1), "D" := (0, 1)]

  /** Where one input line moves the player: the neighbour in that direction when it is
      on the board and not a wall; nowhere for an illegal move or a line that is no move. */
  function MoveTarget(g: Grid, player: Pos, key: string): (n: Option<Pos>)
    requires Rectangular(g)
    ensures n.Some? <==> key in Moves && Passable(g, Shift(player, Moves[key]))
    ensures n.Some? ==> n.value == Shift(player, Moves[key]) && Adjacent(player, n.value)
  {
    if key in Moves && Passable(g, Shift(player, Moves[key])) then Some(Shift(player, Moves[key])) else None
  }

  /** The cells the player stands on after the given input lines, from the start:
      legal moves extend the trail, anything else leaves it as it is. */
  function Replay(g: Grid, start: Pos, keys: seq<string>): (trail: seq<Pos>)
    requires Rectangular(g)
    ensures |trail| > 0 && trail[0] == start
  {
    if keys == [] then [start]
    else
      var before := Replay(g, start, keys[..|keys| - 1]);
      match MoveTarget(g, before[|before| - 1], keys[|keys| - 1])
      case None => before
      case Some(n) => before + [n]
  }

  /** From an open start, replaying any input gives a walk. */
  lemma {:induction false} ReplayIsWalk(g: Grid, start: Pos, keys: seq<string>)
    requires Rectangular(g) && Passable(g, start)
    ensures var t := Replay(g, start, keys); IsWalk(g, t, start, t[|t| - 1])
  {
    if keys != [] {
      var before := Replay(g, start, keys[..|keys| - 1]);
      ReplayIsWalk(g, start, keys[..|keys| - 1]);
      var m := MoveTarget(g, before[|before| - 1], keys[|keys| - 1]);
      if m.Some? {
        WalkSnoc(g, before, start, before[|before| - 1], m.value);
      }
    }
  }

  /** The line is "Q" or "R", which end the loop. */
  predicate Leaves(key: string) {
    key == "Q" || key == "R"
  }

  /** How the move loop ends. `Restart` stands for the recursive `play_game` call, and
      `OutOfKeys` for the point where the supplied input runs out. */
  datatype Outcome = Reached | OutOfMoves | Quit | Restart | OutOfKeys

  /** After `used` input lines the player has walked `trail`, the replay of those lines,
      stands at its end and has made one counted move per step; no earlier cell of the
      trail is the destination and no line before the last was "Q" or "R". */
  ghost predicate Turns(g: Grid, start: Pos, keys: seq<string>, used: nat, player: Pos, moves: nat, trail: seq<Pos>)
    requires Rectangular(g)
  {
    && used <= |keys| && trail == Replay(g, start, keys[..used])
    && player == trail[|trail| - 1] && moves == |trail| - 1
    && IsWalk(g, trail, start, player)
    && (forall k :: 0 <= k < |trail| - 1 ==> CellAt(g, trail[k]) != 'D')
    && (forall k :: 0 <= k < used - 1 ==> !Leaves(keys[k]))
  }

  /** Reading one more line keeps `Turns`: the player moves exactly when the line is a
      legal move. */
  lemma TurnsStep(g: Grid, start: Pos, keys: seq<string>, used: nat, player: Pos, moves: nat, trail: seq<Pos>)
    requires Rectangular(g) && Turns(g, start, keys, used, player, moves, trail) && used < |keys|
    requires CellAt(g, player) != 'D' && (used > 0 ==> !Leaves(keys[used - 1]))
    ensures var m := MoveTarget(g, player, keys[used]);
            && (m.None? ==> Turns(g, start, keys, used + 1, player, moves, trail))
            && (m.Some? ==> Turns(g, start, keys, used + 1, m.value, moves + 1, trail + [m.value]))
  {
    assert keys[..used + 1][..used] == keys[..used];
    var m := MoveTarget(g, player, keys[used]);
    if m.Some? {
      WalkSnoc(g, trail, start, player, m.value);
      var t' := trail + [m.value];
      assert forall k :: 0 <= k < |t'| - 1 ==> t'[k] == trail[k];
    }
  }

  /** How the move loop can end: the lines read were replayed into the trail, at most
      `move_limit` moves were counted, the player stands on the destination exactly on
      success, and each other outcome has its cause. */
  ghost predicate Played(g: Grid, start: Pos, moveLimit: int, keys: seq<string>,
                         outcome: Outcome, player: Pos, moves: nat, used: nat, trail: seq<Pos>)
    requires Rectangular(g)
  {
    && Turns(g, start, keys, used, player, moves, trail)
    && (moves == 0 || moves <= moveLimit)
    && (outcome == Reached <==> CellAt(g, player) == 'D')
    && (outcome == OutOfMoves ==> moves >= moveLimit && (used > 0 ==> !Leaves(keys[used - 1])))
    && (outcome == Quit ==> used > 0 && keys[used - 1] == "Q" && moves < moveLimit)
    && (outcome == Restart ==> used > 0 && keys[used - 1] == "R" && moves < moveLimit)
    && (outcome == OutOfKeys ==> used == |keys| && moves < moveLimit && (used > 0 ==> !Leaves(keys[used - 1])))
  }

  /** The `while moves < move_limit` loop. `used` is the number of input lines read and
      `trail` the cells the player stood on, in order. */
  method PlayTurns(g: Grid, start: Pos, moveLimit: int, keys: seq<string>)
    returns (outcome: Outcome, player: Pos, moves: nat, used: nat, ghost trail: seq<Pos>)
    requires Rectangular(g) && Passable(g, start) && CellAt(g, start) != 'D'
    ensures Played(g, start, moveLimit, keys, outcome, player, moves, used, trail)
  {
    player, moves, used, trail := start, 0, 0, [start];
    while moves < moveLimit
      invariant Turns(g, start, keys, used, player, moves, trail)
      invariant moves == 0 || moves <= moveLimit
      invariant CellAt(g, player) != 'D' && (used > 0 ==> !Leaves(keys[used - 1]))
      decreases |keys| - used
    {
      if used == |keys| {
        return OutOfKeys, player, moves, used, trail;
      }
      var move := keys[used];
      TurnsStep(g, start, keys, used, player, moves, trail);
      used := used + 1;
      if move == "Q" {
        return Quit, player, moves, used, trail;
      }
      if move == "R" {
        return Restart, player, moves, used, trail;
      }
      var next := TryMove(g, player, move);
      if next.None? {
        continue;
      }
      var (nr, nc) := next.value;
      trail := trail + [(nr, nc)];
      player := (nr, nc);
      moves := moves + 1;
      if g[nr][nc] == 'D' {
        return Reached, player, moves, used, trail;
      }
    }
    outcome := OutOfMoves;
  }

  /** One move line of the loop: look the line up in `dirs`, then reject a target off
      the board or on a wall. */
  method TryMove(g: Grid, player: Pos, move: string) returns (next: Option<Pos>)
    requires Rectangular(g)
    ensures next == MoveTarget(g, player, move)
  {
    if move !in Moves {
      return None;
    }
    var (dr, dc) := Moves[move];
    var (nr, nc) := (player.0 + dr, player.1 + dc);
    if !(0 <= nr < |g| && 0 <= nc < |g[0]|) {
      return None;
    }
    if g[nr][nc] == 'X' {
      return None;
    }
    return Some((nr, nc));
  }

  /** A walk extended by one adjacent open cell is still a walk. */
  lemma WalkSnoc(g: Grid, w: seq<Pos>, s: Pos, t: Pos, n: Pos)
    requires IsWalk(g, w, s, t) && Adjacent(t, n) && Passable(g, n)
    ensures IsWalk(g, w + [n], s, n)
  {
    var v := w + [n];
    forall i | 0 <= i < |v| - 1 ensures Adjacent(v[i], v[i + 1]) {
      if i < |w| - 1 { assert v[i] == w[i] && v[i + 1] == w[i + 1]; }
    }
  }

  /** The closing lines of `play_game`: the optimal cost, the path and the marked grid,
      or the message that there is no path. */
  datatype Report = OptimalPath(cost: nat, path: seq<Pos>, shown: Grid) | NoPathExists

  /** The report shows a cheapest walk from the grid's start to its destination, with
      its cost and the grid marked along it. */
  ghost predicate ShowsOptimal(g: Grid, report: Report)
    requires Rectangular(g)
  {
    && report.OptimalPath?
    && LastOf(g, 'S').Some? && LastOf(g, 'D').Some?
    && var s, d := LastOf(g, 'S').value, LastOf(g, 'D').value;
       && IsWalk(g, report.path, s, d) && report.cost == WalkCost(Directional, g, report.path)
       && Cheapest(Directional, g, s, d, report.cost) && report.shown == Marked(g, report.path)
  }

  method ShowOptimal(g: Grid) returns (report: Report)
    requires |g| > 0 && Rectangular(g) && LastOf(g, 'D').Some?
    ensures report.OptimalPath? <==> Solvable(g)
    ensures report.OptimalPath? ==> ShowsOptimal(g, report)
  {
    var start, dest, cost, path := Solve(g);
    if path != [] {
      var shown := Overlay(g, path);
      report := OptimalPath(cost.value, path, shown);
    } else {
      report := NoPathExists;
    }
  }

  /** `play_game(rows, cols, move_limit)` up to its first restart: find a playable grid,
      run the move loop from its start, and report the optimal route unless the player
      quit, restarted or ran out of input. */
  method PlayGame(rows: nat, cols: nat, moveLimit: int, tables: seq<seq<seq<real>>>,
                  answers: seq<string>, keys: seq<string>)
    returns (grid: Option<Grid>, attempt: nat, outcome: Option<Outcome>,
             player: Pos, moves: nat, used: nat, ghost trail: seq<Pos>, report: Option<Report>)
    requires rows > 0 && cols > 0
    requires forall i :: 0 <= i < |tables| ==> DrawsFit(tables[i], rows, cols)
    ensures attempt <= |tables|
    ensures forall j :: 0 <= j < attempt ==> Retried(rows, cols, tables, answers, j)
    ensures grid.None? ==> outcome.None? && report.None?
    ensures grid.None? && attempt < |tables| ==>
              !PlayableDraws(rows, cols, tables[attempt]) && (attempt >= |answers| || answers[attempt] != "R")
    ensures grid.Some? ==>
              && attempt < |tables| && grid.value == GameGrid(rows, cols, tables[attempt], ObstacleProb, SlowProb)
              && Rectangular(grid.value) && Solvable(grid.value) && outcome.Some?
              && Played(grid.value, LastOf(grid.value, 'S').value, moveLimit, keys, outcome.value, player, moves, used, trail)
    ensures report.Some? <==> outcome == Some(Reached) || outcome == Some(OutOfMoves)
    ensures report.Some? ==> grid.Some? && Rectangular(grid.value) && ShowsOptimal(grid.value, report.value)
  {
    var found;
    found, attempt := FindPlayableGrid(rows, cols, tables, answers);
    player, moves, used, trail := (0, 0), 0, 0, [];
    if found.None? {
      return None, attempt, None, player, moves, used, trail, None;
    }
    grid := found;
    var g := found.value;
    GameGridEndpointsOrNone(rows, cols, tables[attempt]);
    var start := LastOf(g, 'S').value;
    var result;
    result, player, moves, used, trail := PlayTurns(g, start, moveLimit, keys);
    outcome := Some(result);
    if result == Reached || result == OutOfMoves {
      var shown := ShowOptimal(g);
      report := Some(shown);
    } else {
      report := None;
    }
  }

  /** A generated grid has a destination, and the start found on it is an open cell
      that is not the destination. */
  lemma GameGridEndpointsOrNone(rows: nat, cols: nat, draws: seq<seq<real>>)
    requires rows > 0 && cols > 0 && DrawsFit(draws, rows, cols)
    ensures var g := GameGrid(rows, cols, draws, ObstacleProb, SlowProb);
            Rectangular(g) && |g| > 0 && LastOf(g, 'D').Some? &&
            (LastOf(g, 'S').Some? ==> Passable(g, LastOf(g, 'S').value) && CellAt(g, LastOf(g, 'S').value) != 'D')
  {
    var g := GameGrid(rows, cols, draws, ObstacleProb, SlowProb);
    assert CellAt(g, (rows - 1, cols - 1)) == 'D';
  }
}
