/**
 The unbounded integer grid of the simulation. A cell is the pair (x, y) of a
 `Vector3Int` whose z component is always 0, so the third coordinate is dropped.
 Coordinates are mathematical integers: 32-bit wrap-around is not modelled.
 */
module Grid {

  type Cell = (int, int)

  /** An offset (dx, dy) added to a cell. */
  type Offset = (int, int)

  /** The nine offsets of the 3x3 block, in the order the source's nested loops
      visit them: x outer from -1 to 1, y inner from -1 to 1. */
  const Square: seq<Offset> :=
    [(-1, -1), (-1, 0), (-1, 1), (0, -1), (0, 0), (0, 1), (1, -1), (1, 0), (1, 1)]

  /** The eight Moore-neighbourhood offsets: `Square` without its centre, in the same order. */
  const Offsets: seq<Offset> :=
    [(-1, -1), (-1, 0), (-1, 1), (0, -1), (0, 1), (1, -1), (1, 0), (1, 1)]

  function Shift(c: Cell, d: Offset): Cell {
    (c.0 + d.0, c.1 + d.1)
  }

  function Abs(n: int): nat {
    if n < 0 then -n else n
  }

  /** Chebyshev (king-move) distance between two cells. */
  function Chebyshev(a: Cell, b: Cell): (r: nat)
    ensures r == 0 <==> a == b
  {
    var dx := Abs(a.0 - b.0);
    var dy := Abs(a.1 - b.1);
    if dx < dy then dy else dx
  }

  /** The cells reached from `c` by the offsets of `ds`. */
  function Image(c: Cell, ds: seq<Offset>): set<Cell> {
    set d | d in ds :: Shift(c, d)
  }

  /** The 8 cells around `c`. */
  function NeighborSet(c: Cell): set<Cell> {
    Image(c, Offsets)
  }

  /** The 3x3 block centred on `c`. */
  function Block(c: Cell): set<Cell> {
    Image(c, Square)
  }

  predicate Distinct<T(==)>(s: seq<T>) {
    forall i, j :: 0 <= i < j < |s| ==> s[i] != s[j]
  }

  /** `Offsets` lists exactly the offsets of Chebyshev length 1, each once. */
  lemma OffsetsExact(d: Offset)
    ensures d in Offsets <==> Chebyshev((0, 0), d) == 1
    ensures Distinct(Offsets)
  {
  }

  /** `Square` lists exactly the offsets of Chebyshev length at most 1, each once. */
  lemma SquareExact(d: Offset)
    ensures d in Square <==> Chebyshev((0, 0), d) <= 1
    ensures Distinct(Square)
  {
  }

  /** A cell's neighbours are exactly the cells at Chebyshev distance 1;
      in particular a cell is never its own neighbour. */
  lemma NeighborSetExact(c: Cell, p: Cell)
    ensures p in NeighborSet(c) <==> Chebyshev(c, p) == 1
    ensures c !in NeighborSet(c)
  {
    var d := (p.0 - c.0, p.1 - c.1);
    assert Shift(c, d) == p;
    OffsetsExact(d);
    if p in NeighborSet(c) {
      var e :| e in Offsets && Shift(c, e) == p;
      assert e == d;
    } else {
      assert d !in Offsets;
    }
    OffsetsExact((0, 0));
  }

  /** The 3x3 block of `c` is exactly the cells at Chebyshev distance at most 1. */
  lemma BlockExact(c: Cell, p: Cell)
    ensures p in Block(c) <==> Chebyshev(c, p) <= 1
  {
    var d := (p.0 - c.0, p.1 - c.1);
    assert Shift(c, d) == p;
    SquareExact(d);
    if p in Block(c) {
      var e :| e in Square && Shift(c, e) == p;
      assert e == d;
    }
  }

  /** Extending the offset prefix by one offset adds exactly one cell to the image. */
  lemma ImagePrefix(c: Cell, ds: seq<Offset>, k: nat)
    requires k < |ds|
    ensures Image(c, ds[..k + 1]) == Image(c, ds[..k]) + {Shift(c, ds[k])}
  {
    assert ds[..k + 1] == ds[..k] + [ds[k]];
  }

  /** With distinct offsets, the cell of offset `k` is not reached by any earlier offset. */
  lemma ImageFresh(c: Cell, ds: seq<Offset>, k: nat)
    requires Distinct(ds) && k < |ds|
    ensures Shift(c, ds[k]) !in Image(c, ds[..k])
  {
    if Shift(c, ds[k]) in Image(c, ds[..k]) {
      var e :| e in ds[..k] && Shift(c, e) == Shift(c, ds[k]);
      assert false;
    }
  }

  /** The cells listed in a pattern; repeated entries collapse. */
  function Cells(pattern: seq<Cell>): set<Cell> {
    set c | c in pattern
  }

  /** A pattern lists at least as many entries as it has distinct cells. */
  lemma {:induction false} CellsSize(pattern: seq<Cell>)
    ensures |Cells(pattern)| <= |pattern|
    decreases |pattern|
  {
    if pattern != [] {
      var k := |pattern| - 1;
      assert pattern == pattern[..k] + [pattern[k]];
      assert Cells(pattern) == Cells(pattern[..k]) + {pattern[k]};
      CellsSize(pattern[..k]);
    }
  }
}
