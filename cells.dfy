/** Cell types, coordinates and cells of the maze grid. */
module Cells {

  /** A cell type is an unrestricted signed integer that doubles as the cost of entering the cell. */
  type CellType = int

  const Wall: CellType := 0
  const LightedPass: CellType := 1
  const Pass: CellType := 2

  /** Every type a generated maze cell can have, in declaration order. */
  const Types: seq<CellType> := [Wall, LightedPass, Pass]

  /** A grid position; compared field by field and used as a map key. */
  datatype Coordinates = Coordinates(x: int, y: int)

  /** A cell: its type and the cells reachable from it through one maze edge. */
  datatype Cell = Cell(kind: CellType, transitions: seq<Coordinates>)

  /** The zero value of a cell. */
  const ZeroCell: Cell := Cell(Wall, [])

  /** A passable ("significant") type: one whose value is above zero. */
  predicate IsSignificant(t: CellType)
  {
    t > 0
  }

  /** The types a maze cell may hold, as opposed to the renderer's negative markers. */
  predicate IsMazeType(t: CellType)
  {
    Wall <= t <= Pass
  }

  lemma TypeValues()
    ensures Wall == 0 && LightedPass == 1 && Pass == 2
    ensures !IsSignificant(Wall) && IsSignificant(LightedPass) && IsSignificant(Pass)
    ensures forall t :: IsMazeType(t) ==> (IsSignificant(t) <==> t == LightedPass || t == Pass)
    ensures LightedPass < Pass
  {
  }

  lemma TypesAscending()
    ensures Types == [Wall, LightedPass, Pass]
    ensures forall i, j :: 0 <= i < j < |Types| ==> Types[i] < Types[j]
    ensures forall t :: t in Types <==> IsMazeType(t)
  {
  }

  lemma ZeroCellIsWall()
    ensures ZeroCell.kind == Wall && ZeroCell.transitions == []
    ensures !IsSignificant(ZeroCell.kind)
  {
  }
}
