/** Cells and ships of the 6x6 battle map: the value classes `Dot` and `Ship`
    of sea_battle.py, the bounds test `Board.out` and the neighbourhood
    relation that the one-cell contour around a ship is built from. */
module Grid {

  /** Side of the battle map; `Board.out` hard-codes it. */
  const SIZE: int := 6

  /** A cell: `x` indexes the rows of the battle map, `y` the columns. */
  datatype Dot = Dot(x: int, y: int)

  /** `Dot.__eq__`: two dots are equal when both coordinates agree. The
      model compares dots with `==` and tests `in` on lists of dots; the
      contract shows that this is the comparison the source makes. */
  function SameDot(a: Dot, b: Dot): (r: bool)
    ensures r <==> a == b
  {
    a.x == b.x && a.y == b.y
  }

  /** The 36 cells of the battle map. */
  ghost function MapCells(): set<Dot>
  {
    set x, y | 0 <= x < SIZE && 0 <= y < SIZE :: Dot(x, y)
  }

  /** `Board.out`: true when the dot lies off the map. */
  predicate Out(d: Dot)
  {
    !(0 <= d.x < 6) || !(0 <= d.y < 6)
  }

  /** `Board.out` is false exactly for the 36 cells of the map. */
  lemma OutIsOffMap(d: Dot)
    ensures !Out(d) <==> d in MapCells()
  {
    assert 0 <= d.x < SIZE && 0 <= d.y < SIZE ==> d == Dot(d.x, d.y);
  }

  /** Chebyshev distance at most 1: `a` is `b` itself or one of its eight
      neighbours, diagonals included. */
  predicate Near(a: Dot, b: Dot)
  {
    -1 <= a.x - b.x <= 1 && -1 <= a.y - b.y <= 1
  }

  /** A ship. `lives` is the number of hits it can still take; the source
      sets it to the length at construction and `Board.shot` decrements it. */
  datatype Ship = Ship(length: int, bow: Dot, orientation: int, lives: int)

  /** A ship as the source constructs it: `lives` starts at the length. */
  function NewShip(length: int, bow: Dot, orientation: int): Ship
  {
    Ship(length, bow, orientation, length)
  }

  /** How many cells `ship_dots` yields: the bow, then one more per round of
      `range(length - 1)`, which is empty for a length below 2. */
  function CellCount(length: int): nat
  {
    if length <= 1 then 1 else length
  }

  /** The cell after `d` along an orientation: orientation 0 steps `x`,
      every other value steps `y`. */
  function Next(d: Dot, orientation: int): Dot
  {
    if orientation == 0 then Dot(d.x + 1, d.y) else Dot(d.x, d.y + 1)
  }

  /** The `i`-th cell of a ship, counting the bow as cell 0. */
  function CellAt(s: Ship, i: int): Dot
  {
    if s.orientation == 0 then Dot(s.bow.x + i, s.bow.y) else Dot(s.bow.x, s.bow.y + i)
  }

  /** The cells of a ship, bow first. */
  function ShipCells(s: Ship): seq<Dot>
  {
    seq(CellCount(s.length), i => CellAt(s, i))
  }

  /** A ship of length `n >= 1` has `n` cells; the bow comes first and each
      further cell is the one after its predecessor along the orientation.
      A length below 1 still yields the bow. */
  lemma ShipCellsShape(s: Ship)
    ensures |ShipCells(s)| == CellCount(s.length)
    ensures s.length >= 1 ==> |ShipCells(s)| == s.length
    ensures ShipCells(s)[0] == s.bow
    ensures forall i :: 0 < i < |ShipCells(s)| ==> ShipCells(s)[i] == Next(ShipCells(s)[i - 1], s.orientation)
  {
  }

  /** `Ship.ship_dots`: starts from the bow and steps once per round of
      `range(ship_lenght - 1)`. */
  method ShipDots(ship: Ship) returns (dots: seq<Dot>)
    ensures dots == ShipCells(ship)
  {
    dots := [ship.bow];
    var nextX, nextY := ship.bow.x, ship.bow.y;
    var i := 0;
    while i < ship.length - 1
      invariant 0 <= i < CellCount(ship.length) && |dots| == i + 1
      invariant Dot(nextX, nextY) == CellAt(ship, i)
      invariant forall j :: 0 <= j < |dots| ==> dots[j] == CellAt(ship, j)
    {
      if ship.orientation == 0 {
        nextX := nextX + 1;
      } else {
        nextY := nextY + 1;
      }
      dots := dots + [Dot(nextX, nextY)];
      i := i + 1;
    }
  }

  /** Every cell of the ship lies on the map. */
  predicate OnMap(s: Ship)
  {
    forall c :: c in ShipCells(s) ==> !Out(c)
  }

  /** No cell of `a` is a cell of `b` or a neighbour of one. */
  predicate Apart(a: Ship, b: Ship)
  {
    forall c, e :: c in ShipCells(a) && e in ShipCells(b) ==> !Near(c, e)
  }

  /** The set of a ship's cells. */
  ghost function CellSet(s: Ship): set<Dot>
  {
    set c | c in ShipCells(s)
  }

  /** A sequence without repetitions has as many distinct elements as entries. */
  lemma {:induction false} DistinctCard(q: seq<Dot>)
    requires forall i, j :: 0 <= i < j < |q| ==> q[i] != q[j]
    ensures |set c | c in q| == |q|
  {
    if q != [] {
      var p := q[..|q| - 1];
      DistinctCard(p);
      assert (set c | c in q) == (set c | c in p) + {q[|q| - 1]};
      assert q[|q| - 1] !in p;
    }
  }

  /** A ship covers exactly `CellCount(length)` distinct cells, so the
      source's `lives == ship_lenght` equals the number of its cells. */
  lemma CellSetSize(s: Ship)
    ensures |CellSet(s)| == CellCount(s.length)
  {
    var q := ShipCells(s);
    forall i, j | 0 <= i < j < |q| ensures q[i] != q[j] {
      assert q[i] == CellAt(s, i) && q[j] == CellAt(s, j);
    }
    DistinctCard(q);
  }
}
