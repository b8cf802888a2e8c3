/** The solvers' predecessor table: for every grid cell, the cell it was reached from. */
module Predecessors {
  import opened Cells
  import opened GeneratorUtils
  import opened Mazes

  const MissingX: int := -1
  const MissingY: int := -1

  /** The "no predecessor recorded" value. */
  const Missing: Coordinates := Coordinates(MissingX, MissingY)

  type Table = map<Coordinates, Coordinates>

  /** A lookup in a Go map: a key that is absent reads as the zero coordinates. */
  function Lookup(ps: Table, c: Coordinates): Coordinates
  {
    if c in ps then ps[c] else Coordinates(0, 0)
  }

  /** The sentinel is never a grid coordinate. */
  lemma MissingIsOutside(height: int, width: int)
    ensures MissingX == -1 && MissingY == -1
    ensures !IsInside(Missing, height, width)
  {
  }

  /** A table with an entry for every cell of the height x width grid, each the sentinel. */
  method NewPredecessors(height: int, width: int) returns (ps: Table)
    ensures forall c :: c in ps <==> IsInside(c, height, width)
    ensures forall c :: c in ps ==> ps[c] == Missing
    ensures height >= 0 && width >= 0 ==> |ps| == height * width
  {
    ps := map[];
    var y := 0;
    while y < height
      invariant y <= height || y == 0
      invariant forall c :: c in ps <==> 0 <= c.x < width && 0 <= c.y < y
      invariant forall c :: c in ps ==> ps[c] == Missing
    {
      var x := 0;
      while x < width
        invariant x <= width || x == 0
        invariant forall c :: c in ps <==> (0 <= c.y < y && 0 <= c.x < width) || (c.y == y && 0 <= c.x < x)
        invariant forall c :: c in ps ==> ps[c] == Missing
      {
        ps := ps[Coordinates(x, y) := Missing];
        x := x + 1;
      }
      y := y + 1;
    }
    if height >= 0 && width >= 0 {
      assert ps.Keys == Grid(height, width);
      GridSize(height, width);
    }
  }
}
