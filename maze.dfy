/** The maze grid, its constructor, and walks along its transitions. */
module Mazes {
  import opened Cells
  import opened GeneratorUtils

  /** A maze: one cell per coordinate of the height x width grid. */
  datatype Maze = Maze(cells: map<Coordinates, Cell>, height: int, width: int)

  /** The zero value of a maze, returned by the generators on failure. */
  const EmptyMaze: Maze := Maze(map[], 0, 0)

  /** The coordinates of a height x width grid. */
  function Grid(height: int, width: int): (g: set<Coordinates>)
    ensures forall c :: c in g <==> IsInside(c, height, width)
  {
    set x, y | 0 <= x < width && 0 <= y < height :: Coordinates(x, y)
  }

  /** Row `y` of a grid of the given width. */
  function Row(y: int, width: int): (r: set<Coordinates>)
    ensures forall c :: c in r <==> c.y == y && 0 <= c.x < width
  {
    set x | 0 <= x < width :: Coordinates(x, y)
  }

  lemma {:induction false} RowSize(y: int, width: nat)
    ensures |Row(y, width)| == width
  {
    if width > 0 {
      var shorter, c := Row(y, width - 1), Coordinates(width - 1, y);
      RowSize(y, width - 1);
      assert Row(y, width) == shorter + {c} by {
        forall d | d in Row(y, width) ensures d in shorter + {c} {
          assert d.x < width - 1 || d == c;
        }
      }
      assert c !in shorter;
    } else {
      assert forall d :: d !in Row(y, width);
    }
  }

  lemma {:induction false} GridSize(height: nat, width: nat)
    ensures |Grid(height, width)| == height * width
  {
    if height > 0 {
      var lower, top := Grid(height - 1, width), Row(height - 1, width);
      GridSize(height - 1, width);
      RowSize(height - 1, width);
      assert Grid(height, width) == lower + top by {
        forall c | c in Grid(height, width) ensures c in lower + top {
          assert c.y < height - 1 || c.y == height - 1;
        }
      }
      assert lower !! top;
      assert |lower + top| == |lower| + |top|;
      RowsProduct(height, width);
    } else {
      assert Grid(height, width) == {};
    }
  }

  /** One more row of `width` cells. */
  lemma RowsProduct(height: nat, width: nat)
    requires height > 0
    ensures (height - 1) * width + width == height * width
  {
  }

  /** The cells are exactly the grid's coordinates. */
  ghost predicate IsGrid(m: Maze)
  {
    m.cells.Keys == Grid(m.height, m.width)
  }

  /** Allocates `height` rows of `width` zero cells: every cell a Wall without transitions. */
  method New(height: int, width: int) returns (m: Maze)
    requires height >= 0 && width >= 0
    ensures m.height == height && m.width == width
    ensures forall c :: c in m.cells <==> IsInside(c, height, width)
    ensures forall c :: c in m.cells ==> m.cells[c] == ZeroCell
    ensures |m.cells| == height * width
  {
    var cells: map<Coordinates, Cell> := map[];
    for y := 0 to height
      invariant forall c :: c in cells <==> 0 <= c.x < width && 0 <= c.y < y
      invariant forall c :: c in cells ==> cells[c] == ZeroCell
    {
      cells := cells + map x | 0 <= x < width :: Coordinates(x, y) := ZeroCell;
    }
    m := Maze(cells, height, width);
    assert m.cells.Keys == Grid(height, width);
    GridSize(height, width);
  }

  /** A non-empty sequence of cells, each entered from the previous one through a transition. */
  predicate IsWalk(m: Maze, p: seq<Coordinates>)
  {
    && |p| > 0
    && (forall i :: 0 <= i < |p| ==> p[i] in m.cells)
    && (forall i :: 0 <= i < |p| - 1 ==> p[i + 1] in m.cells[p[i]].transitions)
  }

  predicate IsWalkBetween(m: Maze, p: seq<Coordinates>, a: Coordinates, b: Coordinates)
  {
    IsWalk(m, p) && p[0] == a && p[|p| - 1] == b
  }

  ghost predicate Reachable(m: Maze, a: Coordinates, b: Coordinates)
  {
    exists p :: IsWalkBetween(m, p, a, b)
  }

  /** `p` walks from `a` to `b` and weighs no more than any other walk from `a` to `b`. */
  ghost predicate IsShortestWalk(m: Maze, p: seq<Coordinates>, a: Coordinates, b: Coordinates)
  {
    IsWalkBetween(m, p, a, b) && forall q :: IsWalkBetween(m, q, a, b) ==> WalkWeight(m, p) <= WalkWeight(m, q)
  }

  /** The sum of the types of the cells of `p`: the cost of following it. */
  function WalkWeight(m: Maze, p: seq<Coordinates>): int
    requires forall i :: 0 <= i < |p| ==> p[i] in m.cells
  {
    if p == [] then 0 else WalkWeight(m, p[..|p| - 1]) + m.cells[p[|p| - 1]].kind
  }

  /** No coordinate occurs twice. */
  predicate NoRepeats(p: seq<Coordinates>)
  {
    forall i, j :: 0 <= i < j < |p| ==> p[i] != p[j]
  }

  /** Every cell holds one of the types Wall, LightedPass, Pass. */
  ghost predicate HasMazeTypes(m: Maze)
  {
    forall c :: c in m.cells ==> IsMazeType(m.cells[c].kind)
  }

  /** Every transition leads to a cell of the grid. */
  ghost predicate TransitionsInside(m: Maze)
  {
    forall c, t {:trigger t in m.cells[c].transitions} :: c in m.cells && t in m.cells[c].transitions ==> t in m.cells
  }

  /** A walk that only enters cells of non-negative type weighs at least each of its prefixes. */
  lemma {:induction false} WalkWeightMonotone(m: Maze, p: seq<Coordinates>, k: nat)
    requires forall i :: 0 <= i < |p| ==> p[i] in m.cells && m.cells[p[i]].kind >= 0
    requires k <= |p|
    ensures WalkWeight(m, p[..k]) <= WalkWeight(m, p)
    ensures WalkWeight(m, p) >= 0
    decreases |p|
  {
    if p != [] {
      var q := p[..|p| - 1];
      if k == |p| {
        assert p[..k] == p;
        WalkWeightMonotone(m, q, 0);
      } else {
        assert p[..k] == q[..k];
        WalkWeightMonotone(m, q, k);
      }
    } else {
      assert p[..k] == [];
    }
  }

  /** Every transition is recorded at both of its ends. */
  ghost predicate Symmetric(m: Maze)
  {
    forall c, d :: c in m.cells && d in m.cells[c].transitions ==> d in m.cells && c in m.cells[d].transitions
  }

  /** The transitions are exactly the edges of `edges`, each edge stored in one orientation only. */
  ghost predicate Undirected(m: Maze, edges: set<(Coordinates, Coordinates)>)
  {
    && (forall e :: e in edges ==> (e.1, e.0) !in edges)
    && (forall c, d :: c in m.cells ==> (d in m.cells[c].transitions <==> (c, d) in edges || (d, c) in edges))
  }

  /** The cells of `p` in the opposite order. */
  function Reversed(p: seq<Coordinates>): (r: seq<Coordinates>)
    ensures |r| == |p| && forall i :: 0 <= i < |p| ==> r[i] == p[|p| - 1 - i]
  {
    seq(|p|, i requires 0 <= i < |p| => p[|p| - 1 - i])
  }

  /** Where every transition is recorded at both ends, a walk can be followed backwards. */
  lemma WalkReversed(m: Maze, p: seq<Coordinates>)
    requires Symmetric(m) && IsWalk(m, p)
    ensures IsWalk(m, Reversed(p))
  {
    var r := Reversed(p);
    forall i | 0 <= i < |r| - 1 ensures r[i + 1] in m.cells[r[i]].transitions {
      var j := |p| - 2 - i;
      assert r[i] == p[j + 1] && r[i + 1] == p[j];
    }
  }

  /** A walk from a to s followed by a walk from s to b is a walk from a to b. */
  lemma WalkJoin(m: Maze, p: seq<Coordinates>, q: seq<Coordinates>, a: Coordinates, s: Coordinates, b: Coordinates)
    requires IsWalkBetween(m, p, a, s) && IsWalkBetween(m, q, s, b)
    ensures IsWalkBetween(m, p + q[1..], a, b)
  {
    var r := p + q[1..];
    forall i | 0 <= i < |r| - 1 ensures r[i + 1] in m.cells[r[i]].transitions {
      if i < |p| - 1 {
        assert r[i] == p[i] && r[i + 1] == p[i + 1];
      } else {
        assert r[i] == q[i - |p| + 1] && r[i + 1] == q[i - |p| + 2];
      }
    }
    if |q| == 1 {
      assert r == p;
    } else {
      assert r[|r| - 1] == q[|q| - 1];
    }
  }

  /** Transitions recorded in `m` are still recorded in `m2`, so every walk of `m` is a walk of `m2`. */
  lemma WalkGrows(m: Maze, m2: Maze, p: seq<Coordinates>)
    requires m2.cells.Keys == m.cells.Keys
    requires forall c, d :: c in m.cells && d in m.cells[c].transitions ==> d in m2.cells[c].transitions
    requires IsWalk(m, p)
    ensures IsWalk(m2, p)
  {
  }

  /**
   * A generated maze: every cell passable, every transition between side-adjacent cells and
   * recorded at both ends, and every cell reachable from every other.
   */
  ghost predicate Spanning(m: Maze, height: int, width: int)
  {
    && m.height == height && m.width == width && IsGrid(m)
    && (forall c :: c in m.cells ==> m.cells[c].kind == LightedPass || m.cells[c].kind == Pass)
    && Symmetric(m)
    && (forall c, d :: c in m.cells && d in m.cells[c].transitions ==> Adjacent(c, d))
    && (forall a, b :: a in m.cells && b in m.cells ==> Reachable(m, a, b))
  }

  /** A walk extended by one cell is a walk. */
  lemma WalkExtend(m: Maze, p: seq<Coordinates>, c: Coordinates)
    requires IsWalk(m, p) && c in m.cells && c in m.cells[p[|p| - 1]].transitions
    ensures IsWalk(m, p + [c])
  {
  }

  /** A walk that starts in a set closed under transitions stays in it. */
  lemma WalkStaysIn(mz: Maze, s: set<Coordinates>, p: seq<Coordinates>)
    requires IsWalk(mz, p) && p[0] in s
    requires forall e, t :: e in s && e in mz.cells && t in mz.cells[e].transitions && t in mz.cells ==> t in s
    ensures forall i :: 0 <= i < |p| ==> p[i] in s
  {
    var i := 0;
    while i < |p| - 1
      invariant 0 <= i < |p|
      invariant forall j :: 0 <= j <= i ==> p[j] in s
    {
      assert p[i + 1] in mz.cells[p[i]].transitions;
      i := i + 1;
    }
  }

  /** Nothing outside a set closed under transitions can be reached from inside it. */
  lemma ClosedSetUnreachable(mz: Maze, s: set<Coordinates>, start: Coordinates, end: Coordinates)
    requires start in s && end !in s
    requires forall e, t :: e in s && e in mz.cells && t in mz.cells[e].transitions && t in mz.cells ==> t in s
    ensures !Reachable(mz, start, end)
  {
    forall p | IsWalk(mz, p) && p[0] == start ensures p[|p| - 1] in s {
      WalkStaysIn(mz, s, p);
    }
  }
}
