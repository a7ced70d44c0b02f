/**
 Small boards whose next generations are known under rule B3/S23: the block
 (a still life), the blinker (period 2) and the glider (moved by (1, 1) after
 four generations). Each step is proved on the box one cell wider than the
 board, cell by cell, with the neighbour count written out.
 */
module Patterns {
  import opened Grid
  import Life

  /** The 2x2 block. */
  const Block2: set<Cell> := {(0, 0), (1, 0), (0, 1), (1, 1)}

  /** Every cell of `alive` lies in the box `lo`..`hi`. */
  predicate Bounded(alive: set<Cell>, lo: Cell, hi: Cell) {
    forall a :: a in alive ==> lo.0 <= a.0 <= hi.0 && lo.1 <= a.1 <= hi.1
  }

  /** `c` lies in the box one cell wider than `lo`..`hi` on every side. */
  predicate Around(c: Cell, lo: Cell, hi: Cell) {
    lo.0 - 1 <= c.0 <= hi.0 + 1 && lo.1 - 1 <= c.1 <= hi.1 + 1
  }

  /** The rule takes `alive` to `next` on every cell of the box one cell wider
      than `lo`..`hi`. */
  ghost predicate RuleOnBox(alive: set<Cell>, next: set<Cell>, lo: Cell, hi: Cell) {
    forall c :: Around(c, lo, hi) ==>
      (c in next <==> Life.B3S23(c in alive, Life.CountNeighbors(alive, c)))
  }

  /** Every candidate of a board lies within one cell of the board's bounding box. */
  lemma CandidateInBox(alive: set<Cell>, c: Cell, lo: Cell, hi: Cell)
    requires Bounded(alive, lo, hi)
    requires c in Life.Candidates(alive)
    ensures Around(c, lo, hi)
  {
    Life.CandidatesExact(alive, c);
    var a :| a in alive && Chebyshev(a, c) <= 1;
  }

  lemma BlockOutsideNotBorn(c: Cell)
    requires -1 <= c.0 <= 2 && -1 <= c.1 <= 2 && c !in Block2
    ensures Life.CountNeighbors(Block2, c) != 3
  {
    Life.CountNeighborsUnrolled(Block2, c);
  }

  lemma BlockInsideSurvives(c: Cell)
    requires c in Block2
    ensures Life.CountNeighbors(Block2, c) == 3
  {
    Life.CountNeighborsUnrolled(Block2, c);
  }

  /** The block is a still life. */
  lemma BlockIsStill()
    ensures Life.Step(Block2) == Block2
  {
    forall c
      ensures c in Life.Step(Block2) <==> c in Block2
    {
      Life.StepIsPlaneRule(Block2, c);
      if c in Block2 {
        BlockInsideSurvives(c);
      } else if c in Life.Candidates(Block2) {
        CandidateInBox(Block2, c, (0, 0), (1, 1));
        BlockOutsideNotBorn(c);
      }
    }
  }

  /** A board's next generation is `next` when the rule agrees with `next` on
      the box one cell wider than `alive`'s bounding box `lo`..`hi`. */
  lemma StepByBox(alive: set<Cell>, next: set<Cell>, lo: Cell, hi: Cell)
    requires Bounded(alive, lo, hi)
    requires forall c :: c in next ==> Around(c, lo, hi)
    requires RuleOnBox(alive, next, lo, hi)
    ensures Life.Step(alive) == next
  {
    forall c
      ensures c in Life.Step(alive) <==> c in next
    {
      Life.StepIsPlaneRule(alive, c);
      if c in Life.Candidates(alive) {
        CandidateInBox(alive, c, lo, hi);
      }
    }
  }

  /** The blinker, vertical and horizontal. */
  const BlinkerV: set<Cell> := {(1, 0), (1, 1), (1, 2)}
  const BlinkerH: set<Cell> := {(0, 1), (1, 1), (2, 1)}

  lemma VerticalRule()
    ensures RuleOnBox(BlinkerV, BlinkerH, (1, 0), (1, 2))
  {
    forall c | Around(c, (1, 0), (1, 2))
      ensures c in BlinkerH <==> Life.B3S23(c in BlinkerV, Life.CountNeighbors(BlinkerV, c))
    {
      VerticalCell(c);
    }
  }

  lemma VerticalCell(c: Cell)
    requires Around(c, (1, 0), (1, 2))
    ensures c in BlinkerH <==> Life.B3S23(c in BlinkerV, Life.CountNeighbors(BlinkerV, c))
  {
    Life.CountNeighborsUnrolled(BlinkerV, c);
  }

  lemma HorizontalRule()
    ensures RuleOnBox(BlinkerH, BlinkerV, (0, 1), (2, 1))
  {
    forall c | Around(c, (0, 1), (2, 1))
      ensures c in BlinkerV <==> Life.B3S23(c in BlinkerH, Life.CountNeighbors(BlinkerH, c))
    {
      HorizontalCell(c);
    }
  }

  lemma HorizontalCell(c: Cell)
    requires Around(c, (0, 1), (2, 1))
    ensures c in BlinkerV <==> Life.B3S23(c in BlinkerH, Life.CountNeighbors(BlinkerH, c))
  {
    Life.CountNeighborsUnrolled(BlinkerH, c);
  }

  /** The vertical blinker turns horizontal. */
  lemma VerticalTurns()
    ensures Life.Step(BlinkerV) == BlinkerH
  {
    assert Bounded(BlinkerV, (1, 0), (1, 2)) && forall c :: c in BlinkerH ==> Around(c, (1, 0), (1, 2));
    VerticalRule();
    StepByBox(BlinkerV, BlinkerH, (1, 0), (1, 2));
  }

  /** The horizontal blinker turns vertical. */
  lemma HorizontalTurns()
    ensures Life.Step(BlinkerH) == BlinkerV
  {
    assert Bounded(BlinkerH, (0, 1), (2, 1)) && forall c :: c in BlinkerV ==> Around(c, (0, 1), (2, 1));
    HorizontalRule();
    StepByBox(BlinkerH, BlinkerV, (0, 1), (2, 1));
  }

  /** The blinker has period 2. */
  lemma BlinkerPeriodTwo()
    ensures Life.Generations(BlinkerV, 1) == BlinkerH
    ensures Life.Generations(BlinkerV, 2) == BlinkerV
  {
    VerticalTurns();
    HorizontalTurns();
  }

  /** The glider, its next three phases, and the glider moved by (1, 1). */
  const Glider0: set<Cell> := {(1, 0), (2, 1), (0, 2), (1, 2), (2, 2)}
  const Glider1: set<Cell> := {(0, 1), (1, 2), (1, 3), (2, 1), (2, 2)}
  const Glider2: set<Cell> := {(0, 2), (1, 3), (2, 1), (2, 2), (2, 3)}
  const Glider3: set<Cell> := {(1, 1), (1, 3), (2, 2), (2, 3), (3, 2)}
  const Glider4: set<Cell> := {(1, 3), (2, 1), (2, 3), (3, 2), (3, 3)}

  /** `alive` moved by `d`. */
  function Translate(alive: set<Cell>, d: Offset): set<Cell> {
    set a | a in alive :: Shift(a, d)
  }

  /** Each phase: the rule on every cell of the widened box, the bounds, and
      the resulting `Step`. */
  lemma Glider0Cell(c: Cell)
    requires Around(c, (0, 0), (2, 2))
    ensures c in Glider1 <==> Life.B3S23(c in Glider0, Life.CountNeighbors(Glider0, c))
  {
    Life.CountNeighborsUnrolled(Glider0, c);
  }

  lemma Glider0Bounds()
    ensures Bounded(Glider0, (0, 0), (2, 2))
    ensures forall c :: c in Glider1 ==> Around(c, (0, 0), (2, 2))
  {
  }

  lemma Glider0Rule()
    ensures RuleOnBox(Glider0, Glider1, (0, 0), (2, 2))
  {
    forall c | Around(c, (0, 0), (2, 2))
      ensures c in Glider1 <==> Life.B3S23(c in Glider0, Life.CountNeighbors(Glider0, c))
    {
      Glider0Cell(c);
    }
  }

  lemma Glider0Turns()
    ensures Life.Step(Glider0) == Glider1
  {
    Glider0Bounds();
    Glider0Rule();
    StepByBox(Glider0, Glider1, (0, 0), (2, 2));
  }

  lemma Glider1Cell(c: Cell)
    requires Around(c, (0, 1), (2, 3))
    ensures c in Glider2 <==> Life.B3S23(c in Glider1, Life.CountNeighbors(Glider1, c))
  {
    Life.CountNeighborsUnrolled(Glider1, c);
  }

  lemma Glider1Bounds()
    ensures Bounded(Glider1, (0, 1), (2, 3))
    ensures forall c :: c in Glider2 ==> Around(c, (0, 1), (2, 3))
  {
  }

  lemma Glider1Rule()
    ensures RuleOnBox(Glider1, Glider2, (0, 1), (2, 3))
  {
    forall c | Around(c, (0, 1), (2, 3))
      ensures c in Glider2 <==> Life.B3S23(c in Glider1, Life.CountNeighbors(Glider1, c))
    {
      Glider1Cell(c);
    }
  }

  lemma Glider1Turns()
    ensures Life.Step(Glider1) == Glider2
  {
    Glider1Bounds();
    Glider1Rule();
    StepByBox(Glider1, Glider2, (0, 1), (2, 3));
  }

  lemma Glider2Cell(c: Cell)
    requires Around(c, (0, 1), (2, 3))
    ensures c in Glider3 <==> Life.B3S23(c in Glider2, Life.CountNeighbors(Glider2, c))
  {
    Life.CountNeighborsUnrolled(Glider2, c);
  }

  lemma Glider2Bounds()
    ensures Bounded(Glider2, (0, 1), (2, 3))
    ensures forall c :: c in Glider3 ==> Around(c, (0, 1), (2, 3))
  {
  }

  lemma Glider2Rule()
    ensures RuleOnBox(Glider2, Glider3, (0, 1), (2, 3))
  {
    forall c | Around(c, (0, 1), (2, 3))
      ensures c in Glider3 <==> Life.B3S23(c in Glider2, Life.CountNeighbors(Glider2, c))
    {
      Glider2Cell(c);
    }
  }

  lemma Glider2Turns()
    ensures Life.Step(Glider2) == Glider3
  {
    Glider2Bounds();
    Glider2Rule();
    StepByBox(Glider2, Glider3, (0, 1), (2, 3));
  }

  lemma Glider3Cell(c: Cell)
    requires Around(c, (1, 1), (3, 3))
    ensures c in Glider4 <==> Life.B3S23(c in Glider3, Life.CountNeighbors(Glider3, c))
  {
    Life.CountNeighborsUnrolled(Glider3, c);
  }

  lemma Glider3Bounds()
    ensures Bounded(Glider3, (1, 1), (3, 3))
    ensures forall c :: c in Glider4 ==> Around(c, (1, 1), (3, 3))
  {
  }

  lemma Glider3Rule()
    ensures RuleOnBox(Glider3, Glider4, (1, 1), (3, 3))
  {
    forall c | Around(c, (1, 1), (3, 3))
      ensures c in Glider4 <==> Life.B3S23(c in Glider3, Life.CountNeighbors(Glider3, c))
    {
      Glider3Cell(c);
    }
  }

  lemma Glider3Turns()
    ensures Life.Step(Glider3) == Glider4
  {
    Glider3Bounds();
    Glider3Rule();
    StepByBox(Glider3, Glider4, (1, 1), (3, 3));
  }

  lemma GliderMoved()
    ensures Translate(Glider0, (1, 1)) == Glider4
  {
    assert Shift((1, 0), (1, 1)) == (2, 1);
    assert Shift((2, 1), (1, 1)) == (3, 2);
    assert Shift((0, 2), (1, 1)) == (1, 3);
    assert Shift((1, 2), (1, 1)) == (2, 3);
    assert Shift((2, 2), (1, 1)) == (3, 3);
  }

  /** Four generations move the glider one cell along each axis. */
  lemma GliderTranslates()
    ensures Life.Generations(Glider0, 4) == Translate(Glider0, (1, 1))
  {
    calc {
      Life.Generations(Glider0, 4);
      Life.Step(Life.Step(Life.Step(Life.Step(Glider0))));
      { Glider0Turns(); }
      Life.Step(Life.Step(Life.Step(Glider1)));
      { Glider1Turns(); }
      Life.Step(Life.Step(Glider2));
      { Glider2Turns(); }
      Life.Step(Glider3);
      { Glider3Turns(); }
      Glider4;
      { GliderMoved(); }
      Translate(Glider0, (1, 1));
    }
  }
}
