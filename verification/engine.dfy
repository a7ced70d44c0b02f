/**
 The imperative passes of `GameOfLife`, loop for loop: seeding the tilemap from
 the pattern, counting neighbours, collecting the candidates, the in-place rule
 pass over `aliveCells`, and rebuilding the tilemap. The tilemap is a set of
 cells (`HasTile` is membership); iteration over a hash set is an arbitrary
 choice `:|`, so each result below holds for every iteration order.
 */
module Engine {
  import opened Grid
  import Life

  /** `SetPattern`: clear the tilemap, then set a tile for every pattern entry
      and add it to `aliveCells` (which is not cleared first). */
  method SetPattern(pattern: seq<Cell>, alive: set<Cell>) returns (tiles': set<Cell>, alive': set<Cell>)
    ensures tiles' == Cells(pattern)
    ensures alive' == alive + tiles'
    ensures |tiles'| <= |pattern|
  {
    tiles' := {};
    alive' := alive;
    for i := 0 to |pattern|
      invariant tiles' == Cells(pattern[..i])
      invariant alive' == alive + tiles'
    {
      var cell := pattern[i];
      assert pattern[..i + 1] == pattern[..i] + [cell];
      tiles' := tiles' + {cell};
      alive' := alive' + {cell};
    }
    assert pattern[..|pattern|] == pattern;
    CellsSize(pattern);
  }

  /** `CountNeighbors`: the nested loops over x and y in -1..1 that skip the
      centre and test `IsAlive` (tilemap membership) for the other eight cells. */
  method CountNeighbors(tiles: set<Cell>, cell: Cell) returns (count: int)
    ensures count == Life.CountNeighbors(tiles, cell)
    ensures count == |NeighborSet(cell) * tiles|
    ensures 0 <= count <= 8
  {
    count := 0;
    ghost var k: nat := 0;
    for x := -1 to 2
      invariant k == 3 * (x + 1) - (if x > 0 then 1 else 0)
      invariant count == Life.CountOver(tiles, cell, Offsets[..k])
    {
      for y := -1 to 2
        invariant k == 3 * (x + 1) + (y + 1) - (if x > 0 || (x == 0 && y > 0) then 1 else 0)
        invariant count == Life.CountOver(tiles, cell, Offsets[..k])
      {
        var neighbor := (cell.0 + x, cell.1 + y);
        if x == 0 && y == 0 {
          continue;
        } else if neighbor in tiles {
          count := count + 1;
        }
        assert Offsets[k] == (x, y);
        assert Offsets[..k + 1][..k] == Offsets[..k];
        k := k + 1;
      }
    }
    assert Offsets[..k] == Offsets;
    Life.CountNeighborsExact(tiles, cell);
  }

  /** The inner loops of the candidate pass: add the 3x3 block around `cell`,
      offset by offset in the source's loop order. */
  method AddBlock(cellsToCheck: set<Cell>, cell: Cell) returns (r: set<Cell>)
    ensures r == cellsToCheck + Block(cell)
  {
    r := cellsToCheck;
    for x := -1 to 2
      invariant r == cellsToCheck + Image(cell, Square[..3 * (x + 1)])
    {
      for y := -1 to 2
        invariant r == cellsToCheck + Image(cell, Square[..3 * (x + 1) + (y + 1)])
      {
        assert Square[3 * (x + 1) + (y + 1)] == (x, y);
        ImagePrefix(cell, Square, 3 * (x + 1) + (y + 1));
        r := r + {(cell.0 + x, cell.1 + y)};
      }
    }
    assert Square[..9] == Square;
  }

  /** The first half of `UpdateState`: every alive cell and its 8 neighbours. */
  method CollectCandidates(alive: set<Cell>) returns (cellsToCheck: set<Cell>)
    ensures cellsToCheck == Life.Candidates(alive)
  {
    cellsToCheck := {};
    var rest := alive;
    while rest != {}
      invariant rest <= alive
      invariant cellsToCheck == Life.Candidates(alive - rest)
      decreases rest
    {
      var cell :| cell in rest;
      cellsToCheck := AddBlock(cellsToCheck, cell);
      Life.CandidatesInsert(alive - rest, cell);
      assert (alive - rest) + {cell} == alive - (rest - {cell});
      rest := rest - {cell};
    }
  }

  /** The second half of `UpdateState`: for each candidate, read its state and
      neighbour count from the tilemap and add it to or remove it from the
      alive set. Cells outside `cellsToCheck` keep their membership. */
  method RulePass(tiles: set<Cell>, alive: set<Cell>, cellsToCheck: set<Cell>) returns (alive': set<Cell>)
    ensures forall c :: c in alive' <==>
      if c in cellsToCheck then Life.Apply(c in tiles, Life.CountNeighbors(tiles, c), c in alive)
      else c in alive
  {
    alive' := alive;
    var rest := cellsToCheck;
    while rest != {}
      invariant rest <= cellsToCheck
      invariant forall c :: c in alive' <==>
        if c in cellsToCheck - rest then Life.Apply(c in tiles, Life.CountNeighbors(tiles, c), c in alive)
        else c in alive
      decreases rest
    {
      var cell :| cell in rest;
      var neighbors := CountNeighbors(tiles, cell);
      var isAlive := cell in tiles;
      if !isAlive && neighbors == 3 {
        alive' := alive' + {cell};
      } else if isAlive && (neighbors < 2 || neighbors > 3) {
        alive' := alive' - {cell};
      }
      rest := rest - {cell};
    }
  }

  /** The end of `UpdateState`: clear the tilemap and set a tile for every alive cell. */
  method RebuildTiles(alive: set<Cell>) returns (tiles': set<Cell>)
    ensures tiles' == alive
  {
    tiles' := {};
    var rest := alive;
    while rest != {}
      invariant rest <= alive
      invariant tiles' == alive - rest
      decreases rest
    {
      var cell :| cell in rest;
      tiles' := tiles' + {cell};
      rest := rest - {cell};
    }
  }

  /** `UpdateState`: one generation. The rule pass edits the alive set in place
      but reads only the tilemap, which still shows the previous generation;
      when that tilemap equals the alive set, the result is `Step`. */
  method UpdateState(tiles: set<Cell>, alive: set<Cell>)
    returns (cellsToCheck: set<Cell>, alive': set<Cell>, tiles': set<Cell>)
    ensures cellsToCheck == Life.Candidates(alive)
    ensures alive' == Life.SparsePass(tiles, alive)
    ensures tiles' == alive'
    ensures tiles == alive ==> alive' == Life.Step(alive)
  {
    cellsToCheck := CollectCandidates(alive);
    alive' := RulePass(tiles, alive, cellsToCheck);
    forall a | a in alive
      ensures a in cellsToCheck
    {
      Life.CandidatesCover(alive, a);
    }
    assert alive' == Life.SparsePass(tiles, alive);
    tiles' := RebuildTiles(alive');
  }
}
