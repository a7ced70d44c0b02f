/**
 The `GameOfLife` component as a state machine: the fields the engine reads and
 writes, start-up, the per-frame `Update` (Space, left mouse, Escape), and one
 iteration of the `Simulate` coroutine. Unity's tilemap is the set `tiles`.
 */
module GameOfLife {
  import opened Grid
  import Life
  import Engine
  import Patterns

  /** The component's fields: `tiles` is the tilemap `currentState`, `alive` is
      `aliveCells`, `elapsed` is `time`, `interval` is `updateInterval` and
      `running` is `isCoroutineRunning`. */
  datatype State = State(
    tiles: set<Cell>,
    alive: set<Cell>,
    cellsToCheck: set<Cell>,
    pattern: seq<Cell>,
    generation: int,
    population: int,
    elapsed: real,
    interval: real,
    running: bool)

  /** The inputs one frame of `Update` reads: Space pressed, left mouse held
      (over grid cell `pointer`), Escape pressed. */
  datatype Input = Input(space: bool, leftHeld: bool, pointer: Cell, escape: bool)

  /** The tilemap shows exactly the alive set, and before the simulation starts
      that set is the pattern. The corrected `Update` keeps this between frames;
      as written, a frame in which Space is pressed while the left mouse is
      held breaks it (`UpdateAsWrittenBreaksValid`). */
  predicate Valid(s: State) {
    && s.tiles == s.alive
    && (!s.running ==> s.alive == Cells(s.pattern))
  }

  /** `SetPattern`: the tilemap is cleared and shows exactly the pattern cells,
      which are also added to the alive set; that set is not cleared first. */
  function SetPattern(s: State): (r: State)
    ensures forall i :: 0 <= i < |s.pattern| ==> s.pattern[i] in r.tiles
    ensures forall c :: c in r.tiles ==> c in s.pattern
    ensures r.alive == s.alive + r.tiles
    ensures |r.tiles| <= |s.pattern|
    ensures r.population == s.population && r.generation == s.generation
    ensures r == s.(tiles := r.tiles, alive := r.alive)
  {
    CellsSize(s.pattern);
    var shown := Cells(s.pattern);
    s.(tiles := shown, alive := s.alive + shown)
  }

  /** `Awake` then `Start`: empty sets and counters, then `SetPattern` over
      whatever tiles were painted in the editor. */
  function Init(pattern: seq<Cell>, painted: set<Cell>, interval: real): (r: State)
    ensures Valid(r) && !r.running
    ensures r.alive == Cells(pattern) && r.pattern == pattern
    ensures r.generation == 0 && r.population == 0 && r.elapsed == 0.0 && r.interval == interval
  {
    SetPattern(State(painted, {}, {}, pattern, 0, 0, 0.0, interval, false))
  }

  /** A left click: append the cell under the pointer and re-run `SetPattern`. */
  function Click(s: State, cell: Cell): (r: State)
    ensures r.pattern == s.pattern + [cell]
    ensures r.tiles == Cells(s.pattern) + {cell}
    ensures r.alive == s.alive + r.tiles
    ensures r.generation == s.generation && r.population == s.population && r.running == s.running
  {
    assert Cells(s.pattern + [cell]) == Cells(s.pattern) + {cell};
    SetPattern(s.(pattern := s.pattern + [cell]))
  }

  /** One iteration of the `Simulate` loop: `UpdateState`, then the population,
      generation and time counters. */
  function Tick(s: State): (r: State)
    ensures Valid(s) ==> r.alive == Life.Step(s.alive)
    ensures r.tiles == r.alive && r.population == |r.alive|
    ensures r.cellsToCheck == Life.Candidates(s.alive)
    ensures r.generation == s.generation + 1 && r.elapsed == s.elapsed + s.interval
    ensures r.running == s.running && r.pattern == s.pattern && r.interval == s.interval
    ensures Valid(s) && s.running ==> Valid(r)
  {
    var next := Life.SparsePass(s.tiles, s.alive);
    s.(cellsToCheck := Life.Candidates(s.alive), alive := next, tiles := next,
       population := |next|, generation := s.generation + 1, elapsed := s.elapsed + s.interval)
  }

  /** Space: `StartCoroutine(Simulate())` runs the coroutine up to its first
      `yield`, so the flag is set and the first generation is computed at once. */
  function Start(s: State): (r: State)
    ensures r.running && r.generation == s.generation + 1
    ensures Valid(s) ==> Valid(r) && r.alive == Life.Step(s.alive)
  {
    Tick(s.(running := true))
  }

  /** Escape: stop the coroutine, clear the tilemap, the pattern, the alive and
      candidate sets, and zero both counters; `time` is left alone. */
  function Reset(s: State): (r: State)
    ensures Valid(r) && !r.running
    ensures r.alive == {} && r.tiles == {} && r.cellsToCheck == {} && r.pattern == []
    ensures r.generation == 0 && r.population == 0
    ensures r.elapsed == s.elapsed && r.interval == s.interval
  {
    s.(tiles := {}, generation := 0, population := 0, running := false,
       pattern := [], alive := {}, cellsToCheck := {})
  }

  /** One frame of `Update` as written: the `!isCoroutineRunning` test is read
      once, before Space may start the coroutine, and still guards the click. */
  function UpdateAsWritten(s: State, input: Input): (r: State)
    ensures s.running && !input.escape ==> r == s
    ensures input.escape ==> Valid(r) && !r.running && r.alive == {}
    ensures !s.running && !input.space && !input.escape && input.leftHeld ==> r == Click(s, input.pointer)
  {
    var started := if !s.running && input.space then Start(s) else s;
    var placed := if !s.running && input.leftHeld then Click(started, input.pointer) else started;
    if input.escape then Reset(placed) else placed
  }

  /** One frame of `Update` with the click also refused once Space has started
      the coroutine in the same frame. */
  function Update(s: State, input: Input): (r: State)
    ensures s.running && !input.escape ==> r == s
    ensures input.escape ==> Valid(r) && !r.running && r.alive == {}
    ensures !(!s.running && input.space && input.leftHeld) ==> r == UpdateAsWritten(s, input)
    ensures !s.running && input.space && !input.escape ==> r == Start(s)
  {
    var started := if !s.running && input.space then Start(s) else s;
    var placed := if !started.running && input.leftHeld then Click(started, input.pointer) else started;
    if input.escape then Reset(placed) else placed
  }

  /** Before the simulation runs, a click adds exactly the clicked cell to the
      board and keeps it valid; clicking a cell already on the board changes
      nothing but the pattern. */
  lemma ClickAddsCell(s: State, cell: Cell)
    requires Valid(s) && !s.running
    ensures Valid(Click(s, cell))
    ensures Click(s, cell).alive == s.alive + {cell}
    ensures cell in s.alive ==> Click(s, cell).alive == s.alive
    ensures Click(s, cell).population == s.population
  {
    assert Cells(s.pattern + [cell]) == Cells(s.pattern) + {cell};
  }

  /** One iteration of the `Simulate` loop run by the imperative engine:
      `UpdateState`, then the population, generation and time counters. It
      computes exactly `Tick`. */
  method SimulateIteration(s: State) returns (r: State)
    ensures r == Tick(s)
  {
    var cellsToCheck, alive', tiles' := Engine.UpdateState(s.tiles, s.alive);
    r := s.(cellsToCheck := cellsToCheck, alive := alive', tiles := tiles');
    r := r.(population := |r.alive|);
    r := r.(generation := r.generation + 1);
    r := r.(elapsed := r.elapsed + r.interval);
  }

  /** The `Simulate` coroutine started on a valid board and resumed until it
      has completed `n` iterations: it computes `n` generations, the counter
      grows by `n` and the population is the size of the last generation. */
  method Simulate(s: State, n: nat) returns (r: State)
    requires Valid(s)
    ensures Valid(r) && r.running
    ensures r.alive == Life.Generations(s.alive, n)
    ensures r.generation == s.generation + n
    ensures n > 0 ==> r.population == |r.alive|
  {
    r := s.(running := true);
    for i := 0 to n
      invariant Valid(r) && r.running
      invariant r.alive == Life.Generations(s.alive, i)
      invariant r.generation == s.generation + i
      invariant i > 0 ==> r.population == |r.alive|
    {
      r := SimulateIteration(r);
    }
  }

  /** A board reset by Escape and started again stays empty, at generation 1. */
  lemma ResetClears(s: State)
    ensures Start(Reset(s)).alive == {} && Start(Reset(s)).population == 0
    ensures Start(Reset(s)).generation == 1
    ensures Start(Reset(s)).elapsed == s.elapsed + s.interval
  {
    Life.StepEmpty();
  }

  /** The corrected frame keeps the board valid under every input. */
  lemma UpdateKeepsValid(s: State, input: Input)
    requires Valid(s)
    ensures Valid(Update(s, input))
  {
    var started := if !s.running && input.space then Start(s) else s;
    if !started.running && input.leftHeld {
      ClickAddsCell(started, input.pointer);
    }
  }

  /** The L-tromino gives birth to the cell that completes its 2x2 square. */
  lemma TrominoBirth()
    ensures (1, 1) in Life.Step({(0, 0), (1, 0), (0, 1)})
  {
    var p: set<Cell> := {(0, 0), (1, 0), (0, 1)};
    var born := (1, 1);
    assert (0, 0) in p && (1, 1) in Square && Shift((0, 0), (1, 1)) == born;
    assert born in Life.Candidates(p);
    Life.CountNeighborsUnrolled(p, born);
    assert Life.CountNeighbors(p, born) == 3;
    Life.StepIsPlaneRule(p, born);
  }

  /** As written, holding the left mouse while pressing Space seeds an
      L-tromino, computes its first generation (which gives birth to (1, 1)),
      then re-runs `SetPattern`: the tilemap shows the pattern again, but the
      alive set also holds the born cell, which is not drawn. */
  lemma UpdateAsWrittenBreaksValid()
    ensures var s := Init([(0, 0), (1, 0), (0, 1)], {}, 0.5);
      var input := Input(true, true, (10, 10), false);
      && Valid(s)
      && !Valid(UpdateAsWritten(s, input))
      && (1, 1) in UpdateAsWritten(s, input).alive
      && (1, 1) !in UpdateAsWritten(s, input).tiles
  {
    var pattern: seq<Cell> := [(0, 0), (1, 0), (0, 1)];
    var s := Init(pattern, {}, 0.5);
    var input := Input(true, true, (10, 10), false);
    assert Cells(pattern) == {(0, 0), (1, 0), (0, 1)};
    TrominoBirth();
    var started := Start(s);
    assert (1, 1) in started.alive;
    var placed := Click(started, (10, 10));
    assert placed == UpdateAsWritten(s, input);
    var shown: seq<Cell> := pattern + [(10, 10)];
    assert Cells(shown) == {(0, 0), (1, 0), (0, 1), (10, 10)};
    assert placed.tiles == Cells(shown);
    assert (1, 1) in placed.alive;
  }

  /** The pass after the as-written frame on the vertical blinker: the
      tilemap shows the vertical blinker and the clicked cell, the alive set
      also holds the horizontal phase. (0, 1) is alive but undrawn, so it
      survives; (1, 0) is drawn with one drawn neighbour, so it dies. */
  lemma ReshownBlinkerPass(tiles: set<Cell>, alive: set<Cell>)
    requires tiles == Patterns.BlinkerV + {(10, 10)}
    requires alive == Patterns.BlinkerH + tiles
    ensures (0, 1) in Life.SparsePass(tiles, alive)
    ensures (1, 0) !in Life.SparsePass(tiles, alive)
  {
    Life.UndrawnCellSurvives(tiles, alive, (0, 1));
    Life.CountNeighborsUnrolled(tiles, (1, 0));
    assert Life.CountNeighbors(tiles, (1, 0)) == 1;
  }

  /** Space with the left mouse held on the vertical blinker: the corrected
      frame starts the run on the horizontal phase; the frame as written also
      shows the pattern again and keeps the horizontal phase in the alive set. */
  lemma BlinkerFrame(s: State, input: Input)
    requires s == Init([(1, 0), (1, 1), (1, 2)], {}, 0.5)
    requires input == Input(true, true, (10, 10), false)
    ensures Valid(Update(s, input)) && Update(s, input).alive == Patterns.BlinkerH
    ensures UpdateAsWritten(s, input).tiles == Patterns.BlinkerV + {(10, 10)}
    ensures UpdateAsWritten(s, input).alive == Patterns.BlinkerH + UpdateAsWritten(s, input).tiles
  {
    var pattern: seq<Cell> := [(1, 0), (1, 1), (1, 2)];
    assert Cells(pattern) == Patterns.BlinkerV;
    Patterns.VerticalTurns();
    assert Start(s).alive == Patterns.BlinkerH;
  }

  /** As written, the same frame on the vertical blinker also corrupts the next
      generation. The pattern cells shown again by the click are read as alive,
      so the blinker turns horizontal a second time instead of back to vertical;
      the corrected frame returns to the vertical phase. */
  lemma UpdateAsWrittenCorruptsBlinker()
    ensures var s := Init([(1, 0), (1, 1), (1, 2)], {}, 0.5);
      var input := Input(true, true, (10, 10), false);
      && Tick(Update(s, input)).alive == Patterns.BlinkerV
      && (0, 1) in Tick(UpdateAsWritten(s, input)).alive
      && (1, 0) !in Tick(UpdateAsWritten(s, input)).alive
  {
    var s := Init([(1, 0), (1, 1), (1, 2)], {}, 0.5);
    var input := Input(true, true, (10, 10), false);
    BlinkerFrame(s, input);
    Patterns.HorizontalTurns();
    var placed := UpdateAsWritten(s, input);
    ReshownBlinkerPass(placed.tiles, placed.alive);
  }
}
