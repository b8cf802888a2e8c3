/**
 * The expanding renderer. It doubles the grid so that a wall cell appears between every two
 * neighbouring cells. It then cuts a passage into every wall that a transition crosses,
 * optionally marks a path, and prints the grid row by row through a palette.
 */
module Expander {
  import opened Cells
  import opened GeneratorUtils
  import opened Mazes

  /** Marker type of a cell on the path. */
  const Path: CellType := -1
  /** Marker type of a passage cut between two cells of the expanded grid. */
  const Transition: CellType := -2

  /** Marker types of the first and the last cell of a path; their values are not part of this model. */
  const Start: CellType
  const End: CellType
  /** The types whose cells count as part of a path; their values are not part of this model. */
  const PathParts: set<CellType>

  // ---------------------------------------------------------------------------------------
  // Coordinates in the expanded grid
  // ---------------------------------------------------------------------------------------

  /** Cells with two even coordinates are the images of the original cells. */
  predicate IsEven(c: Coordinates)
  {
    c.x % 2 == 0 && c.y % 2 == 0
  }

  /** Where cell (x, y) of the original grid lands in the expanded one. */
  function Double(c: Coordinates): Coordinates
  {
    Coordinates(2 * c.x, 2 * c.y)
  }

  /** The original cell an even cell of the expanded grid comes from. */
  function Half(c: Coordinates): Coordinates
  {
    Coordinates(c.x / 2, c.y / 2)
  }

  /**
   * The cell halfway between `c` and `t`, each coordinate rounded down. Both cells lie in the
   * grid, so no coordinate is negative and rounding down agrees with Go's truncating division.
   */
  function Mid(c: Coordinates, t: Coordinates): Coordinates
  {
    Coordinates((c.x + t.x) / 2, (c.y + t.y) / 2)
  }

  /** The cell of the expanded grid between the images of `c` and `t`. */
  function Sum(c: Coordinates, t: Coordinates): Coordinates
  {
    Coordinates(c.x + t.x, c.y + t.y)
  }

  function DoubleAll(ts: seq<Coordinates>): (r: seq<Coordinates>)
    ensures |r| == |ts| && forall i :: 0 <= i < |ts| ==> r[i] == Double(ts[i])
  {
    seq(|ts|, i requires 0 <= i < |ts| => Double(ts[i]))
  }

  function Mids(c: Coordinates, ts: seq<Coordinates>): (r: seq<Coordinates>)
    ensures |r| == |ts| && forall i :: 0 <= i < |ts| ==> r[i] == Mid(c, ts[i])
  {
    seq(|ts|, i requires 0 <= i < |ts| => Mid(c, ts[i]))
  }

  function Sums(c: Coordinates, ts: seq<Coordinates>): (r: seq<Coordinates>)
    ensures |r| == |ts| && forall i :: 0 <= i < |ts| ==> r[i] == Sum(c, ts[i])
  {
    seq(|ts|, i requires 0 <= i < |ts| => Sum(c, ts[i]))
  }

  function Repeat(c: Coordinates, n: nat): (r: seq<Coordinates>)
    ensures |r| == n && forall i :: 0 <= i < n ==> r[i] == c
  {
    seq(n, i => c)
  }

  // ---------------------------------------------------------------------------------------
  // Doubling
  // ---------------------------------------------------------------------------------------

  /** The grid of a maze of the given height and width once doubled. */
  function ExpandedGrid(m: Maze): set<Coordinates>
  {
    Grid(2 * m.height - 1, 2 * m.width - 1)
  }

  /**
   * What a cell of the expanded grid holds before the edges are cut. The image of an original
   * cell holds its type and its doubled transitions. Every other cell is a zero cell, a Wall.
   */
  function DoubledCell(m: Maze, c: Coordinates): Cell
    requires IsGrid(m) && c in ExpandedGrid(m)
  {
    if IsEven(c) then
      assert Half(c) in m.cells;
      Cell(m.cells[Half(c)].kind, DoubleAll(m.cells[Half(c)].transitions))
    else ZeroCell
  }

  function Doubled(m: Maze): (d: Maze)
    requires IsGrid(m)
  {
    Maze(map c | c in ExpandedGrid(m) :: DoubledCell(m, c), 2 * m.height - 1, 2 * m.width - 1)
  }

  // ---------------------------------------------------------------------------------------
  // Cutting the edges
  // ---------------------------------------------------------------------------------------

  function KindAt(m: Maze, c: Coordinates): CellType
  {
    if c in m.cells then m.cells[c].kind else Wall
  }

  function TransitionsAt(m: Maze, c: Coordinates): seq<Coordinates>
  {
    if c in m.cells then m.cells[c].transitions else []
  }

  /** The type cut into the wall between cells of types `a` and `b`. */
  function Mark(a: CellType, b: CellType): CellType
  {
    if a in PathParts && b in PathParts then Path else Transition
  }

  /** The cell before a wall cell: to its left when its x is odd, above it otherwise. */
  function EndA(e: Coordinates): Coordinates
  {
    if e.x % 2 == 1 then Coordinates(e.x - 1, e.y) else Coordinates(e.x, e.y - 1)
  }

  /** The cell after a wall cell: to its right when its x is odd, below it otherwise. */
  function EndB(e: Coordinates): Coordinates
  {
    if e.x % 2 == 1 then Coordinates(e.x + 1, e.y) else Coordinates(e.x, e.y + 1)
  }

  /** `t` lies two cells away from `c` along one axis. */
  predicate TwoApart(c: Coordinates, t: Coordinates)
  {
    (c.x == t.x && (t.y == c.y + 2 || t.y == c.y - 2)) || (c.y == t.y && (t.x == c.x + 2 || t.x == c.x - 2))
  }

  /** Every transition of an even cell leads into the grid. */
  ghost predicate EvenInside(cells: map<Coordinates, Cell>)
  {
    forall c, t {:trigger t in cells[c].transitions} :: c in cells && IsEven(c) && t in cells[c].transitions ==> t in cells
  }

  /** Every transition of an even cell leads to an even cell of the grid two steps away along one axis. */
  ghost predicate Spaced(m: Maze)
  {
    forall c, t {:trigger t in m.cells[c].transitions} ::
      c in m.cells && IsEven(c) && t in m.cells[c].transitions ==> t in m.cells && IsEven(t) && TwoApart(c, t)
  }

  /** The scan over rows, standing at (x, y), has passed `c`. */
  predicate Before(c: Coordinates, y: int, x: int)
  {
    c.y < y || (c.y == y && c.x < x)
  }

  /** How many transitions of `c` the scan has cut when it stands at transition `j` of (x, y). */
  function Done(m: Maze, y: int, x: int, j: nat, c: Coordinates): nat
  {
    var n := |TransitionsAt(m, c)|;
    if !IsEven(c) then 0
    else if Before(c, y, x) then n
    else if c == Coordinates(x, y) then (if j <= n then j else n)
    else 0
  }

  /** How many cuts the scan has made from `a` towards `b`. */
  function Cuts(m: Maze, y: int, x: int, j: nat, a: Coordinates, b: Coordinates): nat
  {
    multiset(TransitionsAt(m, a)[..Done(m, y, x, j, a)])[b]
  }

  /**
   * Cell `c` of a maze whose every even cell `a` has cut its first Done(a) transitions. An even
   * cell has gained one transition to the wall it cut through per transition cut. A wall cell
   * has gained one transition back to each side per cut towards the other side, and has the
   * cut's mark for its type once anything was cut through it.
   */
  function CutCell(m: Maze, y: int, x: int, j: nat, c: Coordinates): Cell
    requires c in m.cells
  {
    var cell := m.cells[c];
    if IsEven(c) then
      Cell(cell.kind, cell.transitions + Mids(c, cell.transitions[..Done(m, y, x, j, c)]))
    else
      var a, b := EndA(c), EndB(c);
      var na, nb := Cuts(m, y, x, j, a, b), Cuts(m, y, x, j, b, a);
      Cell(if na + nb > 0 then Mark(KindAt(m, a), KindAt(m, b)) else cell.kind,
           cell.transitions + Repeat(a, na) + Repeat(b, nb))
  }

  function CutState(m: Maze, y: int, x: int, j: nat): map<Coordinates, Cell>
  {
    map c | c in m.cells :: CutCell(m, y, x, j, c)
  }

  /** The maze with every edge cut: the scan has passed every row. */
  function Cut(m: Maze): Maze
  {
    Maze(CutState(m, m.height, 0, 0), m.height, m.width)
  }

  lemma {:induction false} TwoApartMid(c: Coordinates, t: Coordinates)
    requires IsEven(c) && TwoApart(c, t)
    ensures !IsEven(Mid(c, t)) && Mid(c, t) != c && Mid(c, t) != t
    ensures Before(c, t.y, t.x) ==> EndA(Mid(c, t)) == c && EndB(Mid(c, t)) == t
    ensures !Before(c, t.y, t.x) ==> EndA(Mid(c, t)) == t && EndB(Mid(c, t)) == c
  {
    if c.x == t.x {
      assert Mid(c, t).x == c.x;
    } else {
      assert Mid(c, t).y == c.y;
    }
  }

  /** The scan stands at transition `i` of the even cell (x, y) of a maze whose edges can be cut. */
  ghost predicate AtTransition(m: Maze, y: int, x: int, i: nat)
  {
    && Spaced(m)
    && Coordinates(x, y) in m.cells && IsEven(Coordinates(x, y))
    && i < |m.cells[Coordinates(x, y)].transitions|
    && Mid(Coordinates(x, y), m.cells[Coordinates(x, y)].transitions[i]) in m.cells
  }

  /** Cutting transition `i` of (x, y) adds one cut from (x, y) towards that transition's cell. */
  lemma CutsStep(m: Maze, y: int, x: int, i: nat, a: Coordinates, b: Coordinates)
    requires AtTransition(m, y, x, i)
    ensures var c := Coordinates(x, y); var t := m.cells[c].transitions[i];
      Cuts(m, y, x, i + 1, a, b) == Cuts(m, y, x, i, a, b) + (if a == c && b == t then 1 else 0)
  {
    var c := Coordinates(x, y);
    var ts := m.cells[c].transitions;
    if a == c {
      assert ts[..i + 1] == ts[..i] + [ts[i]];
    } else {
      assert Done(m, y, x, i + 1, a) == Done(m, y, x, i, a);
    }
  }

  lemma StepEvenCell(m: Maze, y: int, x: int, i: nat)
    requires AtTransition(m, y, x, i)
    ensures var c := Coordinates(x, y); var e := Mid(c, m.cells[c].transitions[i]);
      CutCell(m, y, x, i + 1, c) == CutCell(m, y, x, i, c).(transitions := CutCell(m, y, x, i, c).transitions + [e])
  {
    var c := Coordinates(x, y);
    var ts := m.cells[c].transitions;
    assert ts[..i + 1] == ts[..i] + [ts[i]];
    assert Mids(c, ts[..i + 1]) == Mids(c, ts[..i]) + [Mid(c, ts[i])];
  }

  lemma StepWallCell(m: Maze, y: int, x: int, i: nat)
    requires AtTransition(m, y, x, i)
    ensures var c := Coordinates(x, y); var t := m.cells[c].transitions[i]; var e := Mid(c, t);
      && t in m.cells && e in m.cells && !IsEven(e) && e != c
      && CutCell(m, y, x, i + 1, e) == Cell(Mark(m.cells[c].kind, m.cells[t].kind), CutCell(m, y, x, i, e).transitions + [c])
  {
    var c := Coordinates(x, y);
    var t := m.cells[c].transitions[i];
    var e := Mid(c, t);
    assert t in m.cells[c].transitions;
    TwoApartMid(c, t);
    CutsStep(m, y, x, i, c, t);
    CutsStep(m, y, x, i, t, c);
    if EndA(e) == c {
      assert !Before(t, y, x);
      assert Cuts(m, y, x, i, t, c) == 0;
    }
    assert Repeat(c, Cuts(m, y, x, i, c, t)) + [c] == Repeat(c, Cuts(m, y, x, i + 1, c, t));
  }

  lemma StepOtherCell(m: Maze, y: int, x: int, i: nat, d: Coordinates)
    requires AtTransition(m, y, x, i) && d in m.cells
    requires var c := Coordinates(x, y); d != c && d != Mid(c, m.cells[c].transitions[i])
    ensures CutCell(m, y, x, i + 1, d) == CutCell(m, y, x, i, d)
  {
    var c := Coordinates(x, y);
    var t := m.cells[c].transitions[i];
    if !IsEven(d) {
      var a, b := EndA(d), EndB(d);
      assert t in m.cells[c].transitions;
      TwoApartMid(c, t);
      CutsStep(m, y, x, i, a, b);
      CutsStep(m, y, x, i, b, a);
      assert a == c ==> b != t;
      assert b == c ==> a != t;
    } else {
      assert Done(m, y, x, i + 1, d) == Done(m, y, x, i, d);
    }
  }

  lemma CutStepCells(m: Maze, y: int, x: int, i: nat, c: Coordinates, t: Coordinates, e: Coordinates,
                     before: map<Coordinates, Cell>, marked: map<Coordinates, Cell>,
                     linked: map<Coordinates, Cell>, after: map<Coordinates, Cell>, k: CellType)
    requires AtTransition(m, y, x, i)
    requires c == Coordinates(x, y) && t == m.cells[c].transitions[i] && e == Mid(c, t) && t in m.cells
    requires before == CutState(m, y, x, i)
    requires k == Mark(before[c].kind, before[t].kind)
    requires marked == before[e := before[e].(kind := k)]
    requires linked == marked[e := marked[e].(transitions := marked[e].transitions + [c])]
    requires after == linked[c := linked[c].(transitions := linked[c].transitions + [e])]
    ensures forall d :: d in m.cells ==> d in after && after[d] == CutCell(m, y, x, i + 1, d)
  {
    StepWallCell(m, y, x, i);
    assert t in m.cells[c].transitions;
    assert IsEven(t);
    forall d | d in m.cells ensures d in after && after[d] == CutCell(m, y, x, i + 1, d) {
      if d == c {
        StepEvenCell(m, y, x, i);
      } else if d != e {
        StepOtherCell(m, y, x, i, d);
      }
    }
  }

  /** Cutting transition `i` of even cell (x, y) moves the scan on by one transition. */
  lemma CutStep(m: Maze, y: int, x: int, i: nat, c: Coordinates, t: Coordinates, e: Coordinates,
                before: map<Coordinates, Cell>, marked: map<Coordinates, Cell>,
                linked: map<Coordinates, Cell>, after: map<Coordinates, Cell>, k: CellType)
    requires AtTransition(m, y, x, i)
    requires c == Coordinates(x, y) && t == m.cells[c].transitions[i] && e == Mid(c, t) && t in m.cells
    requires before == CutState(m, y, x, i)
    requires k == Mark(before[c].kind, before[t].kind)
    requires marked == before[e := before[e].(kind := k)]
    requires linked == marked[e := marked[e].(transitions := marked[e].transitions + [c])]
    requires after == linked[c := linked[c].(transitions := linked[c].transitions + [e])]
    ensures after == CutState(m, y, x, i + 1)
  {
    CutStepCells(m, y, x, i, c, t, e, before, marked, linked, after, k);
    assert after.Keys == m.cells.Keys;
    SameMaps(after, CutState(m, y, x, i + 1));
  }

  lemma SameMaps(a: map<Coordinates, Cell>, b: map<Coordinates, Cell>)
    requires a.Keys == b.Keys && forall d :: d in a ==> a[d] == b[d]
    ensures a == b
  {
  }

  lemma NextCellDone(m: Maze, y: int, x: int, j: nat, a: Coordinates)
    requires Coordinates(x, y) in m.cells
    requires j == (if IsEven(Coordinates(x, y)) then |m.cells[Coordinates(x, y)].transitions| else 0)
    ensures Done(m, y, x, j, a) == Done(m, y, x + 1, 0, a)
  {
  }

  /** Once (x, y) has cut all its transitions, or has none to cut, the scan moves to the next cell of the row. */
  lemma NextCell(m: Maze, y: int, x: int, j: nat)
    requires Coordinates(x, y) in m.cells
    requires j == (if IsEven(Coordinates(x, y)) then |m.cells[Coordinates(x, y)].transitions| else 0)
    ensures CutState(m, y, x, j) == CutState(m, y, x + 1, 0)
  {
    forall d | d in m.cells ensures CutCell(m, y, x, j, d) == CutCell(m, y, x + 1, 0, d) {
      NextCellDone(m, y, x, j, d);
      NextCellDone(m, y, x, j, EndA(d));
      NextCellDone(m, y, x, j, EndB(d));
    }
  }

  /** Before the scan starts nothing has been cut. */
  lemma CutNothing(m: Maze)
    requires IsGrid(m)
    ensures CutState(m, 0, 0, 0) == m.cells
  {
    forall d | d in m.cells ensures CutCell(m, 0, 0, 0, d) == m.cells[d] {
      assert forall a :: Done(m, 0, 0, 0, a) == 0;
    }
  }

  /** Past the last cell of row y, the scan moves to the first cell of row y + 1. */
  lemma NextRow(m: Maze, y: int)
    requires IsGrid(m)
    ensures CutState(m, y, m.width, 0) == CutState(m, y + 1, 0, 0)
  {
    forall d | d in m.cells ensures CutCell(m, y, m.width, 0, d) == CutCell(m, y + 1, 0, 0, d) {
      forall a ensures Done(m, y, m.width, 0, a) == Done(m, y + 1, 0, 0, a) {
        if a in m.cells {
          assert a.x < m.width;
        }
      }
    }
  }

  /**
   * Cuts every edge of the expanded grid: each transition of an even cell to a neighbour
   * marks the cell between them, which becomes a Path when both ends are path parts and a
   * Transition otherwise, and links the two both ways.
   */
  method CutEdges(m: Maze) returns (r: Maze)
    requires IsGrid(m) && EvenInside(m.cells) && m.height >= 0 && m.width >= 0
    ensures r.height == m.height && r.width == m.width && r.cells.Keys == m.cells.Keys
    ensures Spaced(m) ==> r == Cut(m)
  {
    var cells := m.cells;
    CutNothing(m);
    for y := 0 to m.height
      invariant cells.Keys == m.cells.Keys && EvenInside(cells)
      invariant Spaced(m) ==> cells == CutState(m, y, 0, 0)
    {
      for x := 0 to m.width
        invariant cells.Keys == m.cells.Keys && EvenInside(cells)
        invariant Spaced(m) ==> cells == CutState(m, y, x, 0)
      {
        if x % 2 == 0 && y % 2 == 0 {
          cells := CutFrom(m, cells, y, x);
        } else if Spaced(m) {
          NextCell(m, y, x, 0);
        }
      }
      if Spaced(m) {
        NextRow(m, y);
      }
    }
    r := Maze(cells, m.height, m.width);
  }

  /** Linking two cells of the grid keeps every transition of an even cell inside the grid. */
  lemma Linked(before: map<Coordinates, Cell>, marked: map<Coordinates, Cell>, linked: map<Coordinates, Cell>,
               after: map<Coordinates, Cell>, c: Coordinates, e: Coordinates)
    requires EvenInside(before) && c in before && e in before
    requires marked.Keys == before.Keys && forall d :: d in before ==> marked[d].transitions == before[d].transitions
    requires linked == marked[e := marked[e].(transitions := marked[e].transitions + [c])]
    requires after == linked[c := linked[c].(transitions := linked[c].transitions + [e])]
    ensures after.Keys == before.Keys && EvenInside(after)
  {
  }

  /** One turn of the loop over the transitions of (x, y), as written, is one step of the scan. */
  lemma CutTurn(m: Maze, y: int, x: int, i: nat, cell: Cell, t: Coordinates, e: Coordinates, before: map<Coordinates, Cell>,
                marked: map<Coordinates, Cell>, linked: map<Coordinates, Cell>, after: map<Coordinates, Cell>, k: CellType)
    requires Spaced(m) && Coordinates(x, y) in m.cells && x % 2 == 0 && y % 2 == 0
    requires cell == m.cells[Coordinates(x, y)] && i < |cell.transitions| && before == CutState(m, y, x, i)
    requires t == cell.transitions[i] && e == Coordinates((x + t.x) / 2, (y + t.y) / 2) && t in before && e in before
    requires k == (if cell.kind in PathParts && before[t].kind in PathParts then Path else Transition)
    requires marked == before[e := before[e].(kind := k)]
    requires linked == marked[e := marked[e].(transitions := marked[e].transitions + [Coordinates(x, y)])]
    requires after == linked[Coordinates(x, y) := linked[Coordinates(x, y)].(transitions := linked[Coordinates(x, y)].transitions + [e])]
    ensures after == CutState(m, y, x, i + 1)
  {
    var c := Coordinates(x, y);
    assert t in m.cells && e in m.cells;
    assert AtTransition(m, y, x, i);
    assert before[c] == CutCell(m, y, x, i, c);
    assert before[c].kind == cell.kind;
    assert k == Mark(before[c].kind, before[t].kind);
    assert t == m.cells[c].transitions[i] && e == Mid(c, t) && t in m.cells;
    assert marked == before[e := before[e].(kind := k)];
    assert linked == marked[e := marked[e].(transitions := marked[e].transitions + [c])];
    assert after == linked[c := linked[c].(transitions := linked[c].transitions + [e])];
    CutStep(m, y, x, i, c, t, e, before, marked, linked, after, k);
  }

  /** Cuts every transition of the even cell (x, y): one turn of the scan over the row. */
  method CutFrom(m: Maze, cells0: map<Coordinates, Cell>, y: int, x: int) returns (cells: map<Coordinates, Cell>)
    requires IsGrid(m) && 0 <= x < m.width && 0 <= y < m.height && x % 2 == 0 && y % 2 == 0
    requires cells0.Keys == m.cells.Keys && EvenInside(cells0)
    ensures cells.Keys == m.cells.Keys && EvenInside(cells)
    ensures Spaced(m) && cells0 == CutState(m, y, x, 0) ==> cells == CutState(m, y, x + 1, 0)
  {
    cells := cells0;
    var c := Coordinates(x, y);
    var cell := cells[c];
    ghost var tracked := Spaced(m) && cells0 == CutState(m, y, x, 0);
    for i := 0 to |cell.transitions|
      invariant cells.Keys == m.cells.Keys && EvenInside(cells)
      invariant forall t :: t in cell.transitions ==> t in cells
      invariant tracked ==> cells == CutState(m, y, x, i) && cell == m.cells[c]
    {
      var t := cell.transitions[i];
      var e := Coordinates((x + t.x) / 2, (y + t.y) / 2);
      assert t in cell.transitions;
      MidInside(m, c, t, e);
      ghost var before := cells;
      if cell.kind in PathParts && cells[t].kind in PathParts {
        cells := cells[e := cells[e].(kind := Path)];
      } else {
        cells := cells[e := cells[e].(kind := Transition)];
      }
      ghost var marked := cells;
      cells := cells[e := cells[e].(transitions := cells[e].transitions + [c])];
      ghost var linked := cells;
      cells := cells[c := cells[c].(transitions := cells[c].transitions + [e])];
      Linked(before, marked, linked, cells, c, e);
      if tracked {
        CutTurn(m, y, x, i, cell, t, e, before, marked, linked, cells, marked[e].kind);
      }
    }
    if tracked {
      NextCell(m, y, x, |cell.transitions|);
    }
  }

  // ---------------------------------------------------------------------------------------
  // What the cut maze holds
  // ---------------------------------------------------------------------------------------

  /** After the scan every even cell keeps its type and gains, per transition, one to the cell halfway to it. */
  lemma CutEven(m: Maze, c: Coordinates)
    requires IsGrid(m) && c in m.cells && IsEven(c)
    ensures Cut(m).cells[c] == Cell(m.cells[c].kind, m.cells[c].transitions + Mids(c, m.cells[c].transitions))
  {
    assert Before(c, m.height, 0);
    assert m.cells[c].transitions[..|m.cells[c].transitions|] == m.cells[c].transitions;
  }

  /**
   * A transition of an even cell to a cell two steps away marks the cell halfway between them,
   * a Path when both ends are path parts and a Transition otherwise, and links it to the even cell both ways.
   */
  lemma CutPassage(m: Maze, c: Coordinates, t: Coordinates, e: Coordinates)
    requires IsGrid(m) && Spaced(m) && c in m.cells && IsEven(c) && t in m.cells[c].transitions && e == Mid(c, t)
    ensures t in m.cells && e in m.cells && e in Cut(m).cells
    ensures Cut(m).cells[e].kind == Mark(m.cells[c].kind, m.cells[t].kind)
    ensures c in Cut(m).cells[e].transitions && e in Cut(m).cells[c].transitions
  {
    MidInside(m, c, t, e);
    CutLinksEven(m, c, t, e);
    CutMarksWall(m, c, t, e);
  }

  lemma MidInside(m: Maze, c: Coordinates, t: Coordinates, e: Coordinates)
    requires IsGrid(m) && c in m.cells && t in m.cells && e == Mid(c, t)
    ensures e in m.cells
  {
    assert IsInside(c, m.height, m.width) && IsInside(t, m.height, m.width);
    assert IsInside(e, m.height, m.width);
  }

  lemma CutLinksEven(m: Maze, c: Coordinates, t: Coordinates, e: Coordinates)
    requires IsGrid(m) && c in m.cells && IsEven(c) && t in m.cells[c].transitions && e == Mid(c, t)
    ensures e in Cut(m).cells[c].transitions
  {
    var ts := m.cells[c].transitions;
    var i :| 0 <= i < |ts| && ts[i] == t;
    CutEven(m, c);
    assert Cut(m).cells[c].transitions[|ts| + i] == e;
  }

  lemma CutMarksWall(m: Maze, c: Coordinates, t: Coordinates, e: Coordinates)
    requires IsGrid(m) && Spaced(m) && c in m.cells && IsEven(c) && t in m.cells[c].transitions && e == Mid(c, t)
    requires e in m.cells
    ensures Cut(m).cells[e].kind == Mark(m.cells[c].kind, m.cells[t].kind)
    ensures c in Cut(m).cells[e].transitions
  {
    TwoApartMid(c, t);
    var a, b := EndA(e), EndB(e);
    var ts := m.cells[c].transitions;
    assert Done(m, m.height, 0, 0, c) == |ts| by { assert Before(c, m.height, 0); }
    assert ts[..|ts|] == ts;
    var na, nb := Cuts(m, m.height, 0, 0, a, b), Cuts(m, m.height, 0, 0, b, a);
    var cell := Cut(m).cells[e];
    assert cell == CutCell(m, m.height, 0, 0, e);
    assert cell.transitions == m.cells[e].transitions + Repeat(a, na) + Repeat(b, nb);
    if a == c {
      assert na > 0;
      assert cell.transitions[|m.cells[e].transitions|] == c;
    } else {
      assert nb > 0;
      assert cell.transitions[|m.cells[e].transitions| + na] == c;
    }
  }

  /** A wall cell that no transition crosses keeps what it held. */
  lemma CutUncrossed(m: Maze, e: Coordinates)
    requires IsGrid(m) && e in m.cells && !IsEven(e)
    requires forall c, t {:trigger t in m.cells[c].transitions} ::
      c in m.cells && IsEven(c) && t in m.cells[c].transitions ==> Mid(c, t) != e
    ensures Cut(m).cells[e] == m.cells[e]
  {
    var a, b := EndA(e), EndB(e);
    assert Mid(a, b) == e && Mid(b, a) == e;
    Uncut(m, a, b, e);
    Uncut(m, b, a, e);
  }

  /** No cut from `a` towards `b` is made when `b` is not among the transitions of `a` that cross `e`. */
  lemma Uncut(m: Maze, a: Coordinates, b: Coordinates, e: Coordinates)
    requires Mid(a, b) == e
    requires forall c, t {:trigger t in m.cells[c].transitions} ::
      c in m.cells && IsEven(c) && t in m.cells[c].transitions ==> Mid(c, t) != e
    ensures Cuts(m, m.height, 0, 0, a, b) == 0
  {
    var s := TransitionsAt(m, a)[..Done(m, m.height, 0, 0, a)];
    if a in m.cells && IsEven(a) {
      forall k | 0 <= k < |s| ensures s[k] != b {
        assert s[k] in m.cells[a].transitions;
      }
    } else {
      assert s == [];
    }
    assert b !in s;
  }

  // ---------------------------------------------------------------------------------------
  // Expanding a maze
  // ---------------------------------------------------------------------------------------

  /** Every transition joins two side-adjacent cells of the grid, as in every generated maze. */
  ghost predicate Sides(m: Maze)
  {
    forall c, t {:trigger t in m.cells[c].transitions} :: c in m.cells && t in m.cells[c].transitions ==> t in m.cells && Adjacent(c, t)
  }

  /** The expanded maze: the grid doubled and every edge cut. */
  function Expanded(m: Maze): Maze
    requires IsGrid(m)
  {
    Cut(Doubled(m))
  }

  lemma DoubledInside(m: Maze)
    requires IsGrid(m) && TransitionsInside(m)
    ensures EvenInside(Doubled(m).cells)
  {
    var d := Doubled(m);
    forall c, t | c in d.cells && IsEven(c) && t in d.cells[c].transitions ensures t in d.cells {
      var ts := m.cells[Half(c)].transitions;
      var i :| 0 <= i < |ts| && t == Double(ts[i]);
      assert ts[i] in ts;
    }
  }

  /** The transitions of a generated maze, doubled, can be cut. */
  lemma DoubledSpaced(m: Maze)
    requires IsGrid(m) && Sides(m)
    ensures Spaced(Doubled(m))
  {
    var d := Doubled(m);
    forall c, t | c in d.cells && IsEven(c) && t in d.cells[c].transitions
      ensures t in d.cells && IsEven(t) && TwoApart(c, t)
    {
      var h := Half(c);
      var ts := m.cells[h].transitions;
      var i :| 0 <= i < |ts| && t == Double(ts[i]);
      assert ts[i] in m.cells[h].transitions;
      DoubleHalf(c);
      AdjacentDoubled(h, ts[i]);
    }
  }

  lemma DoubleHalf(c: Coordinates)
    requires IsEven(c)
    ensures Double(Half(c)) == c
  {
  }

  lemma AdjacentDoubled(a: Coordinates, b: Coordinates)
    requires Adjacent(a, b)
    ensures IsEven(Double(b)) && TwoApart(Double(a), Double(b))
  {
  }

  /**
   * Doubles the grid and cuts its edges. Cell (x, y) moves to (2x, 2y) with its type and its
   * transitions doubled, and the new cells in between start as zero cells, that is Walls.
   */
  method ExpandMaze(m: Maze) returns (r: Maze)
    requires IsGrid(m) && m.height >= 1 && m.width >= 1 && TransitionsInside(m)
    ensures r.height == 2 * m.height - 1 && r.width == 2 * m.width - 1 && IsGrid(r)
    ensures Sides(m) ==> r == Expanded(m)
  {
    var expanded := New(2 * m.height - 1, 2 * m.width - 1);
    var cells := expanded.cells;
    for y := 0 to m.height
      invariant cells.Keys == ExpandedGrid(m)
      invariant forall c :: c in cells ==> cells[c] == if Before(c, 2 * y, 0) then DoubledCell(m, c) else ZeroCell
    {
      for x := 0 to m.width
        invariant cells.Keys == ExpandedGrid(m)
        invariant forall c :: c in cells ==> cells[c] == if Before(c, 2 * y, 2 * x) then DoubledCell(m, c) else ZeroCell
      {
        cells := DoubleCell(m, cells, y, x);
      }
      DoubledRow(m, cells, y);
    }
    var doubled := Maze(cells, expanded.height, expanded.width);
    DoubledAll(m, cells);
    assert doubled == Doubled(m);
    DoubledInside(m);
    if Sides(m) {
      DoubledSpaced(m);
    }
    r := CutEdges(doubled);
  }

  /** Past the last cell of row 2y, the odd row 2y + 1 below it is all Walls already. */
  lemma DoubledRow(m: Maze, cells: map<Coordinates, Cell>, y: int)
    requires IsGrid(m) && cells.Keys == ExpandedGrid(m)
    requires forall c :: c in cells ==> cells[c] == if Before(c, 2 * y, 2 * m.width) then DoubledCell(m, c) else ZeroCell
    ensures forall c :: c in cells ==> cells[c] == if Before(c, 2 * (y + 1), 0) then DoubledCell(m, c) else ZeroCell
  {
    forall c | c in cells ensures cells[c] == if Before(c, 2 * (y + 1), 0) then DoubledCell(m, c) else ZeroCell {
      if c.y == 2 * y + 1 {
        assert !IsEven(c);
      }
    }
  }

  lemma DoubledAll(m: Maze, cells: map<Coordinates, Cell>)
    requires IsGrid(m) && cells.Keys == ExpandedGrid(m)
    requires forall c :: c in cells ==> cells[c] == if Before(c, 2 * m.height, 0) then DoubledCell(m, c) else ZeroCell
    ensures cells == Doubled(m).cells
  {
    forall c | c in cells ensures cells[c] == DoubledCell(m, c) {
      assert Before(c, 2 * m.height, 0);
    }
  }

  /** Copies cell (x, y) to (2x, 2y): its type, then its transitions doubled one by one. */
  method DoubleCell(m: Maze, cells0: map<Coordinates, Cell>, y: int, x: int) returns (cells: map<Coordinates, Cell>)
    requires IsGrid(m) && 0 <= x < m.width && 0 <= y < m.height
    requires cells0.Keys == ExpandedGrid(m)
    requires forall c :: c in cells0 ==> cells0[c] == if Before(c, 2 * y, 2 * x) then DoubledCell(m, c) else ZeroCell
    ensures cells.Keys == ExpandedGrid(m)
    ensures forall c :: c in cells ==> cells[c] == if Before(c, 2 * y, 2 * x + 2) then DoubledCell(m, c) else ZeroCell
  {
    var cell := m.cells[Coordinates(x, y)];
    var e := Coordinates(2 * x, 2 * y);
    cells := cells0[e := cells0[e].(kind := cell.kind)];
    for i := 0 to |cell.transitions|
      invariant cells.Keys == ExpandedGrid(m)
      invariant cells[e] == Cell(cell.kind, DoubleAll(cell.transitions[..i]))
      invariant forall c :: c in cells && c != e ==> cells[c] == cells0[c]
    {
      var t := cell.transitions[i];
      assert cell.transitions[..i + 1] == cell.transitions[..i] + [t];
      cells := cells[e := cells[e].(transitions := cells[e].transitions + [Coordinates(2 * t.x, 2 * t.y)])];
    }
    assert cell.transitions[..|cell.transitions|] == cell.transitions;
    forall c | c in cells ensures cells[c] == if Before(c, 2 * y, 2 * x + 2) then DoubledCell(m, c) else ZeroCell {
      if c != e && c.y == 2 * y && c.x == 2 * x + 1 {
        assert !IsEven(c);
      }
    }
  }

  // ---------------------------------------------------------------------------------------
  // What the expanded maze holds
  // ---------------------------------------------------------------------------------------

  /**
   * Cell (x, y) lands at (2x, 2y) with its type. Its transitions are doubled, followed by one
   * transition per original transition to the cell between the two images.
   */
  lemma ExpandedCell(m: Maze, c: Coordinates)
    requires IsGrid(m) && c in m.cells
    ensures Double(c) in Expanded(m).cells
    ensures Expanded(m).cells[Double(c)] ==
      Cell(m.cells[c].kind, DoubleAll(m.cells[c].transitions) + Sums(c, m.cells[c].transitions))
  {
    var d := Doubled(m);
    var ts := m.cells[c].transitions;
    assert IsInside(c, m.height, m.width);
    assert Double(c) in ExpandedGrid(m);
    assert Half(Double(c)) == c;
    assert d.cells[Double(c)] == Cell(m.cells[c].kind, DoubleAll(ts));
    CutEven(d, Double(c));
    forall i | 0 <= i < |ts| ensures Mids(Double(c), DoubleAll(ts))[i] == Sums(c, ts)[i] {
      MidOfDoubles(c, ts[i]);
    }
    assert Mids(Double(c), DoubleAll(ts)) == Sums(c, ts);
  }

  /** The cell halfway between two images is the sum of the original cells. */
  lemma MidOfDoubles(c: Coordinates, t: Coordinates)
    ensures Mid(Double(c), Double(t)) == Sum(c, t)
  {
    assert (2 * c.x + 2 * t.x) / 2 == c.x + t.x;
    assert (2 * c.y + 2 * t.y) / 2 == c.y + t.y;
  }

  /**
   * Between the images of two cells joined by a transition lies a passage: a Path when both
   * cells are path parts and a Transition otherwise, linked both ways to the first cell's image.
   */
  lemma ExpandedPassage(m: Maze, c: Coordinates, t: Coordinates)
    requires IsGrid(m) && Sides(m) && c in m.cells && t in m.cells[c].transitions
    ensures Sum(c, t) in Expanded(m).cells && Double(c) in Expanded(m).cells
    ensures Expanded(m).cells[Sum(c, t)].kind == Mark(m.cells[c].kind, m.cells[t].kind)
    ensures Double(c) in Expanded(m).cells[Sum(c, t)].transitions
    ensures Sum(c, t) in Expanded(m).cells[Double(c)].transitions
  {
    var d := Doubled(m);
    var ts := m.cells[c].transitions;
    var i :| 0 <= i < |ts| && ts[i] == t;
    assert t in m.cells && IsInside(c, m.height, m.width) && IsInside(t, m.height, m.width);
    assert Double(c) in ExpandedGrid(m) && Double(t) in ExpandedGrid(m);
    assert Half(Double(c)) == c && Half(Double(t)) == t;
    assert d.cells[Double(c)].transitions[i] == Double(t);
    assert d.cells[Double(t)].kind == m.cells[t].kind;
    DoubledSpaced(m);
    CutPassage(d, Double(c), Double(t), Sum(c, t));
  }

  /**
   * Between the images of two side-adjacent cells that no transition joins, in either
   * direction, the wall stays a zero cell.
   */
  lemma ExpandedWall(m: Maze, c: Coordinates, t: Coordinates)
    requires IsGrid(m) && Sides(m) && c in m.cells && t in m.cells && Adjacent(c, t)
    requires t !in m.cells[c].transitions && c !in m.cells[t].transitions
    ensures Sum(c, t) in Expanded(m).cells && Expanded(m).cells[Sum(c, t)] == ZeroCell
  {
    var d, e := Doubled(m), Sum(c, t);
    assert IsInside(c, m.height, m.width) && IsInside(t, m.height, m.width);
    assert e in ExpandedGrid(m) && !IsEven(e);
    forall a, b {:trigger b in d.cells[a].transitions} | a in d.cells && IsEven(a) && b in d.cells[a].transitions
      ensures Mid(a, b) != e
    {
      var h := Half(a);
      var hs := m.cells[h].transitions;
      var i :| 0 <= i < |hs| && b == Double(hs[i]);
      var u := hs[i];
      assert u in m.cells[h].transitions;
      DoubleHalf(a);
      MidOfDoubles(h, u);
      if Mid(a, b) == e {
        SumsApart(h, u, c, t);
      }
    }
    CutUncrossed(d, e);
  }

  /** Two side-adjacent pairs with the same sum are the same pair. */
  lemma SumsApart(h: Coordinates, u: Coordinates, c: Coordinates, t: Coordinates)
    requires Adjacent(h, u) && Adjacent(c, t) && Sum(h, u) == Sum(c, t)
    ensures (h == c && u == t) || (h == t && u == c)
  {
  }

  /** A cell of the expanded grid with two odd coordinates lies between no two images: it stays a zero cell. */
  lemma ExpandedCorner(m: Maze, e: Coordinates)
    requires IsGrid(m) && Sides(m) && e in ExpandedGrid(m) && e.x % 2 == 1 && e.y % 2 == 1
    ensures e in Expanded(m).cells && Expanded(m).cells[e] == ZeroCell
  {
    var d := Doubled(m);
    DoubledSpaced(m);
    forall a, b {:trigger b in d.cells[a].transitions} | a in d.cells && IsEven(a) && b in d.cells[a].transitions
      ensures Mid(a, b) != e
    {
      assert TwoApart(a, b);
      assert Mid(a, b).x == a.x || Mid(a, b).y == a.y;
    }
    CutUncrossed(d, e);
  }

  /** A generated maze joins only side-adjacent cells, so it expands as described above. */
  lemma SpanningSides(m: Maze, height: int, width: int)
    requires Spanning(m, height, width)
    ensures IsGrid(m) && TransitionsInside(m) && Sides(m)
  {
  }

  // ---------------------------------------------------------------------------------------
  // Marking a path
  // ---------------------------------------------------------------------------------------

  /** The marker of element `i` of a path of `n` cells: Start for the first, End for the last, Path between. */
  function Role(n: int, i: int): CellType
  {
    if i == 0 then Start else if i == n - 1 then End else Path
  }

  /** The position of the last occurrence of `c` in `p`: the write there is the one that survives. */
  function LastIndex(p: seq<Coordinates>, c: Coordinates): (k: nat)
    requires c in p
    ensures k < |p| && p[k] == c && forall j :: k < j < |p| ==> p[j] != c
  {
    if p[|p| - 1] == c then |p| - 1
    else
      assert c in p[..|p| - 1] by {
        var i :| 0 <= i < |p| && p[i] == c;
        assert p[..|p| - 1][i] == c;
      }
      LastIndex(p[..|p| - 1], c)
  }

  /** The cells of `m` once the cells of `p` carry their markers, as elements of a path of `n` cells. */
  function OverlayCells(m: Maze, p: seq<Coordinates>, n: int): map<Coordinates, Cell>
  {
    map c | c in m.cells :: if c in p then m.cells[c].(kind := Role(n, LastIndex(p, c))) else m.cells[c]
  }

  /** The maze with `path` marked on it. */
  function Overlaid(m: Maze, path: seq<Coordinates>): Maze
  {
    Maze(OverlayCells(m, path, |path|), m.height, m.width)
  }

  /**
   * Marks the cells of `path` in the maze: the first Start, the last End and every other one Path.
   * A one-cell path is marked Start. A cell met twice keeps the marker of its last occurrence.
   */
  method OverlayPath(m: Maze, path: seq<Coordinates>) returns (r: Maze)
    requires forall i :: 0 <= i < |path| ==> path[i] in m.cells
    ensures r == Overlaid(m, path)
  {
    var cells := m.cells;
    for i := 0 to |path|
      invariant cells == OverlayCells(m, path[..i], |path|)
    {
      var c := path[i];
      ghost var before := cells;
      if i == 0 {
        cells := cells[c := cells[c].(kind := Start)];
      } else if i == |path| - 1 {
        cells := cells[c := cells[c].(kind := End)];
      } else {
        cells := cells[c := cells[c].(kind := Path)];
      }
      OverlayStep(m, path, i, before, cells);
    }
    assert path[..|path|] == path;
    r := Maze(cells, m.height, m.width);
  }

  /** Marking element `i` of the path extends the marked prefix by one. */
  lemma OverlayStep(m: Maze, path: seq<Coordinates>, i: nat, before: map<Coordinates, Cell>, after: map<Coordinates, Cell>)
    requires i < |path| && path[i] in m.cells && before == OverlayCells(m, path[..i], |path|)
    requires after == before[path[i] := before[path[i]].(kind := Role(|path|, i))]
    ensures after == OverlayCells(m, path[..i + 1], |path|)
  {
    var p, q, c := path[..i], path[..i + 1], path[i];
    assert q == p + [c];
    assert q[..i] == p;
    forall d | d in m.cells ensures after[d] == OverlayCells(m, q, |path|)[d] {
      if d != c && d in q {
        assert d in p;
        assert LastIndex(q, d) == LastIndex(p, d);
      }
    }
    assert after.Keys == OverlayCells(m, q, |path|).Keys;
  }

  /** Marking a path changes only types, and only on the path: the grid and every transition stay as they were. */
  lemma OverlaidShape(m: Maze, path: seq<Coordinates>)
    ensures Overlaid(m, path).cells.Keys == m.cells.Keys
    ensures forall c :: c in m.cells ==> Overlaid(m, path).cells[c].transitions == m.cells[c].transitions
    ensures forall c :: c in m.cells && c !in path ==> Overlaid(m, path).cells[c] == m.cells[c]
  {
  }

  /** A marked maze is as well formed as the maze it was marked on. */
  lemma OverlaidKeeps(m: Maze, path: seq<Coordinates>)
    ensures Overlaid(m, path).height == m.height && Overlaid(m, path).width == m.width
    ensures IsGrid(m) ==> IsGrid(Overlaid(m, path))
    ensures TransitionsInside(m) ==> TransitionsInside(Overlaid(m, path))
    ensures Sides(m) ==> Sides(Overlaid(m, path))
  {
    OverlaidShape(m, path);
  }

  /**
   * On a path without repeated cells, the first cell is Start, the last one End when the path
   * has two cells or more, and every cell in between is Path.
   */
  lemma {:induction false} OverlaidRoles(m: Maze, path: seq<Coordinates>)
    requires NoRepeats(path) && forall i :: 0 <= i < |path| ==> path[i] in m.cells
    ensures |path| > 0 ==> Overlaid(m, path).cells[path[0]].kind == Start
    ensures |path| > 1 ==> Overlaid(m, path).cells[path[|path| - 1]].kind == End
    ensures forall i :: 0 < i < |path| - 1 ==> Overlaid(m, path).cells[path[i]].kind == Path
  {
    forall i | 0 <= i < |path| ensures Overlaid(m, path).cells[path[i]].kind == Role(|path|, i) {
      assert path[i] in path;
      assert LastIndex(path, path[i]) == i;
    }
  }

  /**
   * Where `Start`, `End` and `Path` count as path parts, every passage between two successive
   * cells of a marked walk is drawn as Path in the expanded maze.
   */
  lemma PathDrawn(m: Maze, path: seq<Coordinates>, i: nat)
    requires IsGrid(m) && Sides(m) && IsWalk(m, path) && NoRepeats(path) && i + 1 < |path|
    requires Start in PathParts && End in PathParts && Path in PathParts
    ensures Sum(path[i], path[i + 1]) in Expanded(Overlaid(m, path)).cells
    ensures Expanded(Overlaid(m, path)).cells[Sum(path[i], path[i + 1])].kind == Path
  {
    var o := Overlaid(m, path);
    OverlaidShape(m, path);
    OverlaidKeeps(m, path);
    OverlaidRoles(m, path);
    assert o.cells[path[i]].kind in PathParts && o.cells[path[i + 1]].kind in PathParts;
    assert path[i + 1] in o.cells[path[i]].transitions;
    ExpandedPassage(o, path[i], path[i + 1]);
  }

  // ---------------------------------------------------------------------------------------
  // Printing
  // ---------------------------------------------------------------------------------------

  /** What to print for each cell type. */
  type Palette = map<CellType, string>

  /** The text of a cell type: its palette entry, or nothing when the palette has none. */
  function Glyph(palette: Palette, k: CellType): string
  {
    if k in palette then palette[k] else ""
  }

  /** The texts of the first `n` cells of row `y`. */
  function Line(m: Maze, palette: Palette, y: int, n: int): string
    decreases n
  {
    if n <= 0 then "" else Line(m, palette, y, n - 1) + Glyph(palette, KindAt(m, Coordinates(n - 1, y)))
  }

  /** The first `h` rows, each the texts of its cells followed by a line break. */
  function Picture(m: Maze, palette: Palette, h: int): string
    decreases h
  {
    if h <= 0 then "" else Picture(m, palette, h - 1) + Line(m, palette, h - 1, m.width) + "\n"
  }

  /** Prints the maze row by row: the palette text of every cell, then a line break. */
  method ConvertToString(m: Maze, palette: Palette) returns (s: string)
    requires IsGrid(m)
    ensures s == Picture(m, palette, m.height)
  {
    s := "";
    var y := 0;
    while y < m.height
      invariant 0 <= y && (m.height >= 0 ==> y <= m.height) && (m.height < 0 ==> y == 0)
      invariant s == Picture(m, palette, y)
    {
      var x := 0;
      while x < m.width
        invariant 0 <= x && (m.width >= 0 ==> x <= m.width) && (m.width < 0 ==> x == 0)
        invariant s == Picture(m, palette, y) + Line(m, palette, y, x)
      {
        assert Coordinates(x, y) in m.cells by { assert IsInside(Coordinates(x, y), m.height, m.width); }
        s := s + Glyph(palette, m.cells[Coordinates(x, y)].kind);
        x := x + 1;
      }
      s := s + "\n";
      y := y + 1;
    }
  }

  /** Every cell of `m` prints as a single character. */
  ghost predicate OneCharGlyphs(m: Maze, palette: Palette)
  {
    forall c :: c in m.cells ==> |Glyph(palette, m.cells[c].kind)| == 1
  }

  lemma {:induction false} LineLayout(m: Maze, palette: Palette, y: int, n: nat)
    requires IsGrid(m) && OneCharGlyphs(m, palette) && 0 <= y < m.height && n <= m.width
    ensures |Line(m, palette, y, n)| == n
    ensures forall x :: 0 <= x < n ==> Line(m, palette, y, n)[x..x + 1] == Glyph(palette, KindAt(m, Coordinates(x, y)))
  {
    if n > 0 {
      var shorter, last := Line(m, palette, y, n - 1), Glyph(palette, KindAt(m, Coordinates(n - 1, y)));
      LineLayout(m, palette, y, n - 1);
      assert IsInside(Coordinates(n - 1, y), m.height, m.width);
      assert |last| == 1;
      forall x | 0 <= x < n ensures Line(m, palette, y, n)[x..x + 1] == Glyph(palette, KindAt(m, Coordinates(x, y))) {
        if x < n - 1 {
          assert Line(m, palette, y, n)[x..x + 1] == shorter[x..x + 1];
        }
      }
    }
  }

  /** Where row `y` starts when every row takes `w` characters. */
  function RowStart(w: nat, y: int): nat
    decreases y
  {
    if y <= 0 then 0 else RowStart(w, y - 1) + w
  }

  lemma {:induction false} RowStartProduct(w: nat, y: nat)
    ensures RowStart(w, y) == y * w
  {
    if y > 0 {
      RowStartProduct(w, y - 1);
      assert (y - 1) * w + w == y * w;
    }
  }

  /**
   * Where cell (x, y) prints when every cell prints as one character: position y * (width + 1) + x,
   * by RowStartProduct. Position x == width of a row is its line break.
   */
  function Pos(m: Maze, y: int, x: int): int
    requires m.width >= 0
  {
    RowStart(m.width + 1, y) + x
  }

  /** When every cell prints as one character, the picture of `h` rows takes h * (width + 1) characters. */
  lemma PictureSize(m: Maze, palette: Palette, h: nat)
    requires IsGrid(m) && OneCharGlyphs(m, palette) && h <= m.height && m.width >= 0
    ensures |Picture(m, palette, h)| == h * (m.width + 1)
  {
    PictureLength(m, palette, h);
    RowStartProduct(m.width + 1, h);
  }

  /**
   * When every cell prints as one character, position Pos(m, y, x) of the picture of `h` rows holds
   * the text of cell (x, y) for x < width, and the line break that ends row `y` for x == width.
   */
  lemma PictureAt(m: Maze, palette: Palette, y: nat, x: nat, h: nat)
    requires IsGrid(m) && OneCharGlyphs(m, palette) && y < h <= m.height && x <= m.width
    ensures && Pos(m, y, x) < |Picture(m, palette, h)|
            && (x < m.width ==> Picture(m, palette, h)[Pos(m, y, x)..Pos(m, y, x) + 1] == Glyph(palette, KindAt(m, Coordinates(x, y))))
            && (x == m.width ==> Picture(m, palette, h)[Pos(m, y, x)] == '\n')
  {
    RowEndAt(m, palette, y, x);
    PicturePrefix(m, palette, y + 1, h);
    PrefixAt(Picture(m, palette, y + 1), Picture(m, palette, h), Pos(m, y, x));
  }

  /** The same, in the picture that ends with row `y`. */
  lemma RowEndAt(m: Maze, palette: Palette, y: nat, x: nat)
    requires IsGrid(m) && OneCharGlyphs(m, palette) && y < m.height && x <= m.width
    ensures && Pos(m, y, x) < |Picture(m, palette, y + 1)|
            && (x < m.width ==> Picture(m, palette, y + 1)[Pos(m, y, x)..Pos(m, y, x) + 1] == Glyph(palette, KindAt(m, Coordinates(x, y))))
            && (x == m.width ==> Picture(m, palette, y + 1)[Pos(m, y, x)] == '\n')
  {
    var above, line := Picture(m, palette, y), Line(m, palette, y, m.width);
    assert Picture(m, palette, y + 1) == above + line + "\n";
    PictureLength(m, palette, y);
    LineAt(m, palette, y, x);
    assert Pos(m, y, x) == |above| + x;
    RowAt(above, line, x);
  }

  /** A prefix and the sequence it starts agree on the prefix's positions. */
  lemma PrefixAt(a: string, b: string, i: int)
    requires a <= b && 0 <= i < |a|
    ensures i < |b| && b[i] == a[i] && b[i..i + 1] == a[i..i + 1]
  {
    assert b[..|a|] == a;
  }

  lemma LineAt(m: Maze, palette: Palette, y: int, x: nat)
    requires IsGrid(m) && OneCharGlyphs(m, palette) && 0 <= y < m.height && x <= m.width
    ensures |Line(m, palette, y, m.width)| == m.width
    ensures x < m.width ==> Line(m, palette, y, m.width)[x..x + 1] == Glyph(palette, KindAt(m, Coordinates(x, y)))
  {
    LineLayout(m, palette, y, m.width);
  }

  /** Position `x` past `above` in `above + line + "\n"`. */
  lemma RowAt(above: string, line: string, x: nat)
    requires x <= |line|
    ensures |above| + x < |above + line + "\n"|
    ensures x < |line| ==> (above + line + "\n")[|above| + x..|above| + x + 1] == line[x..x + 1]
    ensures x == |line| ==> (above + line + "\n")[|above| + x] == '\n'
  {
    var all := above + line + "\n";
    if x < |line| {
      assert all[|above| + x] == line[x];
    }
  }

  /** Each row adds one character per cell and a line break. */
  lemma {:induction false} PictureLength(m: Maze, palette: Palette, h: nat)
    requires IsGrid(m) && OneCharGlyphs(m, palette) && h <= m.height && m.width >= 0
    ensures |Picture(m, palette, h)| == RowStart(m.width + 1, h)
  {
    if h > 0 {
      PictureLength(m, palette, h - 1);
      LineLayout(m, palette, h - 1, m.width);
    }
  }

  /** The picture of the first rows is a prefix of the picture of more rows. */
  lemma {:induction false} PicturePrefix(m: Maze, palette: Palette, y: int, h: int)
    requires y <= h
    ensures Picture(m, palette, y) <= Picture(m, palette, h)
    decreases h - y
  {
    if y < h {
      PicturePrefix(m, palette, y, h - 1);
      if h > 0 {
        assert Picture(m, palette, h - 1) <= Picture(m, palette, h);
      }
    }
  }

  // ---------------------------------------------------------------------------------------
  // The renderer
  // ---------------------------------------------------------------------------------------

  const TransitionGlyph: string := "\U{1F532}"
  const StartGlyph: string := "\U{2B50}"
  const EndGlyph: string := "\U{1F6A9}"
  const PathGlyph: string := "\U{1F7E9}"

  /**
   * The palette with texts for the renderer's own markers. Each marker is written in turn, so
   * when two of them share a type the later one's text is the one kept.
   */
  function ExpandPalette(palette: Palette): (r: Palette)
    ensures r.Keys == palette.Keys + {Transition, Start, End, Path}
    ensures r[Path] == PathGlyph
    ensures End != Path ==> r[End] == EndGlyph
    ensures Start != End && Start != Path ==> r[Start] == StartGlyph
    ensures Transition != Start && Transition != End ==> r[Transition] == TransitionGlyph
    ensures forall k :: k in palette && k != Transition && k != Start && k != End && k != Path ==> r[k] == palette[k]
  {
    palette[Transition := TransitionGlyph][Start := StartGlyph][End := EndGlyph][Path := PathGlyph]
  }

  /** Every marker of the renderer prints as a single character. */
  lemma MarkerGlyphs(palette: Palette)
    ensures forall k :: k in {Transition, Start, End, Path} ==> |ExpandPalette(palette)[k]| == 1
  {
    var r := ExpandPalette(palette);
    assert |TransitionGlyph| == 1 && |StartGlyph| == 1 && |EndGlyph| == 1 && |PathGlyph| == 1;
  }

  /** What the renderer prints for a maze with a path marked on it. */
  lemma PathPicture(m: Maze, path: seq<Coordinates>, overlaid: Maze, expanded: Maze, palette: Palette, s: string)
    requires overlaid == Overlaid(m, path) && IsGrid(overlaid)
    requires Sides(m) ==> Sides(overlaid)
    requires expanded.height == 2 * overlaid.height - 1
    requires Sides(overlaid) ==> expanded == Expanded(overlaid)
    requires s == Picture(expanded, palette, expanded.height)
    ensures Sides(m) ==> s == Picture(Expanded(Overlaid(m, path)), palette, 2 * m.height - 1)
  {
    assert overlaid.height == m.height;
  }

  /** The expanding renderer. */
  class Renderer {
    var palette: Palette

    constructor (palette: Palette)
      ensures this.palette == ExpandPalette(palette)
    {
      this.palette := ExpandPalette(palette);
    }

    /** Prints the maze expanded. */
    method Render(m: Maze) returns (s: string)
      requires IsGrid(m) && m.height >= 1 && m.width >= 1 && TransitionsInside(m)
      ensures Sides(m) ==> s == Picture(Expanded(m), palette, 2 * m.height - 1)
    {
      var expanded := ExpandMaze(m);
      s := ConvertToString(expanded, palette);
    }

    /** Prints the maze expanded, with `path` marked on it. */
    method RenderPath(m: Maze, path: seq<Coordinates>) returns (s: string)
      requires IsGrid(m) && m.height >= 1 && m.width >= 1 && TransitionsInside(m)
      requires forall i :: 0 <= i < |path| ==> path[i] in m.cells
      ensures Sides(m) ==> s == Picture(Expanded(Overlaid(m, path)), palette, 2 * m.height - 1)
    {
      var glyphs := palette;
      var overlaid := OverlayPath(m, path);
      OverlaidKeeps(m, path);
      var expanded := ExpandMaze(overlaid);
      s := ConvertToString(expanded, glyphs);
      PathPicture(m, path, overlaid, expanded, glyphs, s);
    }
  }
}
