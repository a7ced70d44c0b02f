/**
 The functional specification of one generation of Conway's Game of Life
 (rule B3/S23) over a sparse set of alive cells: neighbour counting, the
 candidate set of the sparse evaluation, the per-cell rule, and `Step`.
 */
module Life {
  import opened Grid

  /** How many of the cells reached from `c` by the offsets of `ds` are shown
      alive in `tiles`, one membership test per offset, summed in order. */
  function CountOver(tiles: set<Cell>, c: Cell, ds: seq<Offset>): (n: nat)
    ensures n <= |ds|
    decreases |ds|
  {
    if ds == [] then 0
    else CountOver(tiles, c, ds[..|ds| - 1]) + (if Shift(c, ds[|ds| - 1]) in tiles then 1 else 0)
  }

  /** The number of alive cells among the 8 cells around `c`, read from `tiles`. */
  function CountNeighbors(tiles: set<Cell>, c: Cell): (n: nat)
    ensures n <= 8
  {
    CountOver(tiles, c, Offsets)
  }

  function Indicator(b: bool): nat {
    if b then 1 else 0
  }

  /** The neighbour count written out as the source's eight membership tests,
      in loop order. */
  lemma CountNeighborsUnrolled(tiles: set<Cell>, c: Cell)
    ensures CountNeighbors(tiles, c) ==
      Indicator((c.0 - 1, c.1 - 1) in tiles) + Indicator((c.0 - 1, c.1) in tiles) +
      Indicator((c.0 - 1, c.1 + 1) in tiles) + Indicator((c.0, c.1 - 1) in tiles) +
      Indicator((c.0, c.1 + 1) in tiles) + Indicator((c.0 + 1, c.1 - 1) in tiles) +
      Indicator((c.0 + 1, c.1) in tiles) + Indicator((c.0 + 1, c.1 + 1) in tiles)
  {
    assert Offsets[..0] == [];
    CountOverPrefix(tiles, c, Offsets, 0);
    assert Shift(c, Offsets[0]) == (c.0 - 1, c.1 - 1);
    CountOverPrefix(tiles, c, Offsets, 1);
    assert Shift(c, Offsets[1]) == (c.0 - 1, c.1);
    CountOverPrefix(tiles, c, Offsets, 2);
    assert Shift(c, Offsets[2]) == (c.0 - 1, c.1 + 1);
    CountOverPrefix(tiles, c, Offsets, 3);
    assert Shift(c, Offsets[3]) == (c.0, c.1 - 1);
    CountOverPrefix(tiles, c, Offsets, 4);
    assert Shift(c, Offsets[4]) == (c.0, c.1 + 1);
    CountOverPrefix(tiles, c, Offsets, 5);
    assert Shift(c, Offsets[5]) == (c.0 + 1, c.1 - 1);
    CountOverPrefix(tiles, c, Offsets, 6);
    assert Shift(c, Offsets[6]) == (c.0 + 1, c.1);
    CountOverPrefix(tiles, c, Offsets, 7);
    assert Shift(c, Offsets[7]) == (c.0 + 1, c.1 + 1);
    assert Offsets[..8] == Offsets;
  }

  /** Counting one more offset adds that offset's membership test. */
  lemma CountOverPrefix(tiles: set<Cell>, c: Cell, ds: seq<Offset>, k: nat)
    requires k < |ds|
    ensures CountOver(tiles, c, ds[..k + 1]) ==
      CountOver(tiles, c, ds[..k]) + Indicator(Shift(c, ds[k]) in tiles)
  {
    assert ds[..k + 1][..k] == ds[..k];
  }

  /** The sum over distinct offsets is the size of the set of alive cells they reach. */
  lemma {:induction false} CountOverIsCardinality(tiles: set<Cell>, c: Cell, ds: seq<Offset>)
    requires Distinct(ds)
    ensures CountOver(tiles, c, ds) == |Image(c, ds) * tiles|
    decreases |ds|
  {
    if ds != [] {
      var k := |ds| - 1;
      var p := Shift(c, ds[k]);
      var before := Image(c, ds[..k]) * tiles;
      ImagePrefix(c, ds, k);
      assert ds[..k + 1] == ds;
      ImageFresh(c, ds, k);
      assert Distinct(ds[..k]);
      CountOverIsCardinality(tiles, c, ds[..k]);
      if p in tiles {
        assert Image(c, ds) * tiles == before + {p};
        assert p !in before;
      } else {
        assert Image(c, ds) * tiles == before;
      }
    }
  }

  /** The neighbour count is the number of alive cells at Chebyshev distance 1;
      whether `c` itself is alive never changes its own count. */
  lemma CountNeighborsExact(tiles: set<Cell>, c: Cell)
    ensures CountNeighbors(tiles, c) == |NeighborSet(c) * tiles|
    ensures CountNeighbors(tiles + {c}, c) == CountNeighbors(tiles - {c}, c)
  {
    OffsetsExact((0, 0));
    CountOverIsCardinality(tiles, c, Offsets);
    CountOverIsCardinality(tiles + {c}, c, Offsets);
    CountOverIsCardinality(tiles - {c}, c, Offsets);
    NeighborSetExact(c, c);
    assert NeighborSet(c) * (tiles + {c}) == NeighborSet(c) * (tiles - {c});
  }

  /** Every alive cell together with its 8 neighbours: the cells the sparse
      evaluation examines. */
  function Candidates(alive: set<Cell>): set<Cell> {
    set a, d | a in alive && d in Square :: Shift(a, d)
  }

  /** A cell is a candidate exactly when some alive cell is within Chebyshev distance 1 of it. */
  lemma CandidatesExact(alive: set<Cell>, p: Cell)
    ensures p in Candidates(alive) <==> exists a :: a in alive && Chebyshev(a, p) <= 1
  {
    if p in Candidates(alive) {
      var a, d :| a in alive && d in Square && Shift(a, d) == p;
      BlockExact(a, p);
    }
    if a :| a in alive && Chebyshev(a, p) <= 1 {
      BlockExact(a, p);
      var d :| d in Square && Shift(a, d) == p;
      assert p in Candidates(alive);
    }
  }

  /** The candidates hold every alive cell and all 8 of its neighbours. */
  lemma CandidatesCover(alive: set<Cell>, a: Cell)
    requires a in alive
    ensures Block(a) <= Candidates(alive)
    ensures a in Candidates(alive) && NeighborSet(a) <= Candidates(alive)
  {
    assert Shift(a, (0, 0)) == a;
    forall p | p in NeighborSet(a)
      ensures p in Block(a)
    {
      NeighborSetExact(a, p);
      BlockExact(a, p);
    }
  }

  /** Adding one alive cell adds exactly its 3x3 block to the candidates. */
  lemma CandidatesInsert(alive: set<Cell>, a: Cell)
    ensures Candidates(alive + {a}) == Candidates(alive) + Block(a)
  {
    forall p | p in Candidates(alive + {a})
      ensures p in Candidates(alive) + Block(a)
    {
      var b, d :| b in alive + {a} && d in Square && Shift(b, d) == p;
    }
  }

  /** A cell outside the candidates is dead and has no alive neighbour. */
  lemma FarCellIsDeadAndAlone(alive: set<Cell>, p: Cell)
    requires p !in Candidates(alive)
    ensures p !in alive
    ensures CountNeighbors(alive, p) == 0
  {
    assert Shift(p, (0, 0)) == p;
    forall q | q in NeighborSet(p) * alive
      ensures false
    {
      NeighborSetExact(p, q);
      assert Chebyshev(q, p) <= 1;
      CandidatesExact(alive, p);
    }
    assert NeighborSet(p) * alive == {};
    CountNeighborsExact(alive, p);
  }

  /** Conway's rule B3/S23: born with exactly 3 alive neighbours, survives with 2 or 3. */
  predicate B3S23(alive: bool, n: int) {
    n == 3 || (alive && n == 2)
  }

  /** The decision the rule pass takes for one candidate: `alive` and `n` are read
      from the tilemap, `member` is the candidate's current membership in the
      alive set, and the result is its membership after the decision. A dead
      cell with 3 neighbours is added, an alive cell with fewer than 2 or more
      than 3 is removed, and anything else is left as it is. */
  function Apply(alive: bool, n: int, member: bool): (r: bool)
    ensures alive == member ==> (r <==> B3S23(alive, n))
    ensures r != member ==> r == B3S23(alive, n)
  {
    if !alive && n == 3 then true
    else if alive && (n < 2 || n > 3) then false
    else member
  }

  /** One generation, evaluated sparsely: the candidates that satisfy B3/S23. */
  function Step(alive: set<Cell>): set<Cell> {
    set c | c in Candidates(alive) && B3S23(c in alive, CountNeighbors(alive, c))
  }

  /** Sparse evaluation equals the rule applied to every cell of the unbounded plane. */
  lemma StepIsPlaneRule(alive: set<Cell>, c: Cell)
    ensures c in Step(alive) <==> B3S23(c in alive, CountNeighbors(alive, c))
  {
    if c !in Candidates(alive) {
      FarCellIsDeadAndAlone(alive, c);
    }
  }

  /** The empty board has no candidates and stays empty. */
  lemma StepEmpty()
    ensures Candidates({}) == {}
    ensures Step({}) == {}
  {
  }

  /** What the rule pass leaves in the alive set when it reads cell state and
      neighbour counts from `tiles` and edits `alive` in place: every candidate
      of `alive` decided by `Apply`. When the tilemap shows exactly the alive
      set this is `Step`. */
  function SparsePass(tiles: set<Cell>, alive: set<Cell>): (r: set<Cell>)
    ensures tiles == alive ==> r == Step(alive)
  {
    set c | c in Candidates(alive) && Apply(c in tiles, CountNeighbors(tiles, c), c in alive)
  }

  /** A cell that is alive but not shown on the tilemap survives the pass,
      whatever its neighbours: the pass reads it as dead and, unless it has
      exactly 3 neighbours, leaves its membership alone. */
  lemma UndrawnCellSurvives(tiles: set<Cell>, alive: set<Cell>, c: Cell)
    requires c in alive && c !in tiles
    ensures c in SparsePass(tiles, alive)
  {
    CandidatesCover(alive, c);
  }

  /** The alive set after `n` generations. */
  function Generations(alive: set<Cell>, n: nat): set<Cell> {
    if n == 0 then alive else Step(Generations(alive, n - 1))
  }
}
