/**
 * The randomized Prim generator. Starting from one random cell, it repeatedly takes a random
 * cell of the border (Walls next to the passages carved so far), gives it a passable type,
 * joins it to one random neighbouring passage and adds its Wall neighbours to the border.
 * The result is a spanning tree of passages over the whole grid.
 */
module Prim {
  import opened Cells
  import opened Random
  import opened GeneratorUtils
  import opened Mazes

  /** What the neighbour search returns when no side neighbour is a passage. */
  const NoPassage: Coordinates := Coordinates(-1, -1)

  /** The cells already turned into passages. */
  ghost function Carved(m: Maze): set<Coordinates>
  {
    set c | c in m.cells && m.cells[c].kind != Wall
  }

  /** `m` with the type of `c` replaced by `t`. */
  function SetKind(m: Maze, c: Coordinates, t: CellType): Maze
    requires c in m.cells
  {
    m.(cells := m.cells[c := m.cells[c].(kind := t)])
  }

  /** `m` with `b` appended to the transitions of `a`, then `a` appended to those of `b`. */
  function Link(m: Maze, a: Coordinates, b: Coordinates): Maze
    requires a in m.cells && b in m.cells
  {
    var m1 := m.(cells := m.cells[a := m.cells[a].(transitions := m.cells[a].transitions + [b])]);
    m1.(cells := m1.cells[b := m1.cells[b].(transitions := m1.cells[b].transitions + [a])])
  }

  /** The in-grid neighbours of `c` under the first `k` offsets whose type is not Wall, in offset order. */
  function PassagesAround(m: Maze, c: Coordinates, k: nat): seq<Coordinates>
    requires IsGrid(m) && k <= 4
  {
    if k == 0 then []
    else
      var d := Shift(c, k - 1);
      PassagesAround(m, c, k - 1) + (if IsInside(d, m.height, m.width) && m.cells[d].kind != Wall then [d] else [])
  }

  /** The in-grid neighbours of `c` under the first `k` offsets that are still Walls. */
  function WallsAround(m: Maze, c: Coordinates, k: nat): set<Coordinates>
    requires IsGrid(m) && k <= 4
  {
    if k == 0 then {}
    else
      var d := Shift(c, k - 1);
      WallsAround(m, c, k - 1) + (if IsInside(d, m.height, m.width) && m.cells[d].kind == Wall then {d} else {})
  }

  lemma {:induction false} PassagesAroundMembers(m: Maze, c: Coordinates, k: nat)
    requires IsGrid(m) && k <= 4
    ensures forall d :: d in PassagesAround(m, c, k) ==>
      d in m.cells && m.cells[d].kind != Wall && exists i :: 0 <= i < k && d == Shift(c, i)
    ensures forall i :: 0 <= i < k && Shift(c, i) in m.cells && m.cells[Shift(c, i)].kind != Wall ==>
      Shift(c, i) in PassagesAround(m, c, k)
  {
    if k > 0 {
      PassagesAroundMembers(m, c, k - 1);
    }
  }

  lemma {:induction false} WallsAroundMembers(m: Maze, c: Coordinates, k: nat)
    requires IsGrid(m) && k <= 4
    ensures forall d :: d in WallsAround(m, c, k) ==>
      d in m.cells && m.cells[d].kind == Wall && exists i :: 0 <= i < k && d == Shift(c, i)
    ensures forall i :: 0 <= i < k && Shift(c, i) in m.cells && m.cells[Shift(c, i)].kind == Wall ==>
      Shift(c, i) in WallsAround(m, c, k)
  {
    if k > 0 {
      WallsAroundMembers(m, c, k - 1);
    }
  }

  /** The neighbour search's candidates are exactly the side-adjacent cells that are not Walls. */
  lemma PassagesNearby(m: Maze, c: Coordinates)
    requires IsGrid(m)
    ensures forall d :: d in PassagesAround(m, c, 4) <==> d in m.cells && Adjacent(c, d) && m.cells[d].kind != Wall
  {
    PassagesAroundMembers(m, c, 4);
    forall d | d in m.cells && Adjacent(c, d) && m.cells[d].kind != Wall
      ensures d in PassagesAround(m, c, 4)
    {
      OffsetsAreSides(c, d);
    }
    forall i | 0 <= i < 4 {
      ShiftIsAdjacent(c, i);
    }
  }

  /** The cells the border update adds are exactly the side-adjacent Walls. */
  lemma WallsNearby(m: Maze, c: Coordinates)
    requires IsGrid(m)
    ensures forall d :: d in WallsAround(m, c, 4) <==> d in m.cells && Adjacent(c, d) && m.cells[d].kind == Wall
  {
    WallsAroundMembers(m, c, 4);
    forall d | d in m.cells && Adjacent(c, d) && m.cells[d].kind == Wall
      ensures d in WallsAround(m, c, 4)
    {
      OffsetsAreSides(c, d);
    }
    forall i | 0 <= i < 4 {
      ShiftIsAdjacent(c, i);
    }
  }

  /** `prev` is what the neighbour search may return for `n` in `m`, and `m2` is `m` after linking to it. */
  ghost predicate Linked(m: Maze, n: Coordinates, prev: Coordinates, m2: Maze)
    requires IsGrid(m)
  {
    && (if PassagesAround(m, n, 4) == [] then prev == NoPassage else prev in PassagesAround(m, n, 4))
    && (prev.x != -1 ==> prev in m.cells && n in m.cells && m2 == Link(m, n, prev))
    && (prev.x == -1 ==> m2 == m)
  }

  /** The transitions form the graph `edges` of adjacent passages, and no transition list repeats a cell. */
  ghost predicate EdgesMatch(m: Maze, edges: set<(Coordinates, Coordinates)>)
  {
    && Undirected(m, edges)
    && (forall e :: e in edges ==> e.0 in Carved(m) && e.1 in Carved(m) && Adjacent(e.0, e.1))
    && (forall c :: c in m.cells ==> NoRepeats(m.cells[c].transitions))
  }

  /** Every border cell is a Wall of the grid. */
  ghost predicate BorderWalls(m: Maze, border: set<Coordinates>)
  {
    forall b :: b in border ==> b in m.cells && m.cells[b].kind == Wall
  }

  /** Every border cell is next to a passage. */
  ghost predicate Supported(m: Maze, border: set<Coordinates>)
  {
    forall b :: b in border ==> exists c :: c in Carved(m) && Adjacent(b, c)
  }

  /** Every in-grid neighbour of a passage is a passage or on the border. */
  ghost predicate Closed(m: Maze, border: set<Coordinates>)
  {
    forall c, i :: c in Carved(m) && 0 <= i < 4 && IsInside(Shift(c, i), m.height, m.width) ==>
      Shift(c, i) in Carved(m) || Shift(c, i) in border
  }

  /** `walks` leads from `seed` to every passage. */
  ghost predicate Connected(m: Maze, walks: map<Coordinates, seq<Coordinates>>, seed: Coordinates)
  {
    forall c :: c in Carved(m) ==> c in walks && IsWalkBetween(m, walks[c], seed, c)
  }

  /**
   * The state at the top of the carving loop: before the first step only `seed` is on the
   * border; afterwards the passages form a tree holding `seed`, with one edge fewer than cells.
   */
  ghost predicate Growing(m: Maze, border: set<Coordinates>, edges: set<(Coordinates, Coordinates)>,
                          walks: map<Coordinates, seq<Coordinates>>, seed: Coordinates, height: int, width: int)
  {
    && m.height == height && m.width == width && IsGrid(m) && HasMazeTypes(m)
    && IsInside(seed, height, width)
    && BorderWalls(m, border)
    && EdgesMatch(m, edges)
    && Connected(m, walks, seed)
    && Closed(m, border)
    && (Carved(m) == {} ==> border == {seed} && edges == {})
    && (Carved(m) != {} ==> seed in Carved(m) && |edges| + 1 == |Carved(m)| && Supported(m, border))
  }

  /** A spanning maze whose transition lists hold no repeats and whose edges number height * width - 1: a tree. */
  ghost predicate Perfect(m: Maze, height: int, width: int)
  {
    && Spanning(m, height, width)
    && (forall c :: c in m.cells ==> NoRepeats(m.cells[c].transitions))
    && exists edges :: |edges| + 1 == height * width && Undirected(m, edges)
  }

  /** A fresh all-Wall grid with `seed` alone on the border is the loop's starting state. */
  lemma StartGrowing(m: Maze, seed: Coordinates)
    requires IsGrid(m) && IsInside(seed, m.height, m.width)
    requires forall c :: c in m.cells ==> m.cells[c] == ZeroCell
    ensures Carved(m) == {}
    ensures Growing(m, {seed}, {}, map[], seed, m.height, m.width)
  {
    assert forall c :: c !in Carved(m);
  }

  /** The passages are a subset of the grid, so there are at most height * width of them. */
  lemma CarvedBound(m: Maze)
    requires IsGrid(m) && m.height >= 0 && m.width >= 0
    ensures |Carved(m)| <= m.height * m.width
  {
    GridSize(m.height, m.width);
    var g := Grid(m.height, m.width);
    assert g == Carved(m) + (g - Carved(m));
  }

  /** How one step changes the grid: only `n`'s type and the two ends of the new edge. */
  lemma StepShape(m: Maze, n: Coordinates, t: CellType, prev: Coordinates, m1: Maze, m2: Maze)
    requires IsGrid(m) && n in m.cells && m1 == SetKind(m, n, t) && Linked(m1, n, prev, m2)
    ensures m2.height == m.height && m2.width == m.width && m2.cells.Keys == m.cells.Keys && IsGrid(m2)
    ensures m2.cells[n].kind == t
    ensures forall c :: c in m.cells && c != n ==> m2.cells[c].kind == m.cells[c].kind
    ensures prev.x != -1 ==> prev in m.cells
    ensures m2.cells[n].transitions == m.cells[n].transitions + (if prev.x != -1 then [prev] else [])
    ensures prev.x != -1 ==> m2.cells[prev].transitions == m.cells[prev].transitions + [n]
    ensures forall c :: c in m.cells && c != n && (prev.x == -1 || c != prev) ==>
      m2.cells[c].transitions == m.cells[c].transitions
  {
    LinkedPassage(m, n, t, prev, m1, m2);
  }

  /** The passage a step links to is a side neighbour of `n` that was already a passage. */
  lemma LinkedPassage(m: Maze, n: Coordinates, t: CellType, prev: Coordinates, m1: Maze, m2: Maze)
    requires IsGrid(m) && n in m.cells && m1 == SetKind(m, n, t) && Linked(m1, n, prev, m2)
    ensures prev.x != -1 ==> prev in m.cells && prev != n && Adjacent(n, prev) && m.cells[prev].kind != Wall
  {
    if prev.x != -1 {
      PassagesNearby(m1, n);
      AdjacentSymmetric(n, prev);
    }
  }

  /** Walls have no transitions, since every edge joins two passages. */
  lemma WallIsolated(m: Maze, edges: set<(Coordinates, Coordinates)>, n: Coordinates)
    requires EdgesMatch(m, edges) && n in m.cells && m.cells[n].kind == Wall
    ensures forall d :: d !in m.cells[n].transitions
    ensures forall e :: e in edges ==> e.0 != n && e.1 != n
  {
    assert forall d :: d !in m.cells[n].transitions;
  }

  /** The border stays made of Walls, and every in-grid neighbour of a passage stays a passage or on the border. */
  lemma BorderStep(m: Maze, border: set<Coordinates>, n: Coordinates, t: CellType, prev: Coordinates,
                   m1: Maze, m2: Maze, border2: set<Coordinates>)
    requires IsGrid(m) && BorderWalls(m, border) && Closed(m, border) && n in border && t != Wall
    requires m1 == SetKind(m, n, t) && Linked(m1, n, prev, m2)
    requires border2 == (border + WallsAround(m2, n, 4)) - {n}
    ensures m2.height == m.height && m2.width == m.width && IsGrid(m2)
    ensures Carved(m2) == Carved(m) + {n} && n !in Carved(m) && |Carved(m2)| == |Carved(m)| + 1
    ensures BorderWalls(m2, border2) && Closed(m2, border2)
  {
    StepShape(m, n, t, prev, m1, m2);
    WallsNearby(m2, n);
    assert Carved(m2) == Carved(m) + {n};
    forall c, i | c in Carved(m2) && 0 <= i < 4 && IsInside(Shift(c, i), m2.height, m2.width)
      ensures Shift(c, i) in Carved(m2) || Shift(c, i) in border2
    {
      var d := Shift(c, i);
      ShiftIsAdjacent(c, i);
      if c == n {
        if m2.cells[d].kind == Wall {
          assert d in WallsAround(m2, n, 4);
        }
      } else {
        assert d in Carved(m) || d in border;
      }
    }
  }

  /** A step adds the edge between `n` and `prev`, except on the very first step, which has no passage to join. */
  lemma EdgesStep(m: Maze, edges: set<(Coordinates, Coordinates)>, n: Coordinates, t: CellType, prev: Coordinates,
                  m1: Maze, m2: Maze) returns (edges2: set<(Coordinates, Coordinates)>)
    requires IsGrid(m) && EdgesMatch(m, edges) && n in m.cells && m.cells[n].kind == Wall
    requires m1 == SetKind(m, n, t) && Linked(m1, n, prev, m2)
    requires Carved(m2) == Carved(m) + {n} && n !in Carved(m)
    ensures EdgesMatch(m2, edges2)
    ensures edges2 == if prev.x != -1 then edges + {(n, prev)} else edges
    ensures prev.x != -1 ==> |edges2| == |edges| + 1
  {
    LinkedPassage(m, n, t, prev, m1, m2);
    edges2 := if prev.x != -1 then edges + {(n, prev)} else edges;
    UndirectedStep(m, edges, n, t, prev, m1, m2, edges2);
    RepeatsStep(m, edges, n, t, prev, m1, m2);
    if prev.x != -1 {
      assert (n, prev) !in edges;
    }
  }

  /** The new edge is stored once, as (n, prev), and the transitions still match the edges. */
  lemma UndirectedStep(m: Maze, edges: set<(Coordinates, Coordinates)>, n: Coordinates, t: CellType, prev: Coordinates,
                       m1: Maze, m2: Maze, edges2: set<(Coordinates, Coordinates)>)
    requires IsGrid(m) && EdgesMatch(m, edges) && n in m.cells && m.cells[n].kind == Wall
    requires m1 == SetKind(m, n, t) && Linked(m1, n, prev, m2)
    requires edges2 == if prev.x != -1 then edges + {(n, prev)} else edges
    ensures Undirected(m2, edges2)
  {
    StepShape(m, n, t, prev, m1, m2);
    LinkedPassage(m, n, t, prev, m1, m2);
    WallIsolated(m, edges, n);
    if prev.x != -1 {
      assert (prev, n) !in edges2;
      forall c, d | c in m2.cells
        ensures d in m2.cells[c].transitions <==> (c, d) in edges2 || (d, c) in edges2
      {
        if c == n {
          assert d in m2.cells[c].transitions <==> d == prev;
        } else if c == prev {
          assert d in m2.cells[c].transitions <==> d in m.cells[c].transitions || d == n;
        } else {
          assert m2.cells[c].transitions == m.cells[c].transitions;
        }
      }
    }
  }

  /** Neither end of the new edge held the other already, so no transition list gains a repeat. */
  lemma RepeatsStep(m: Maze, edges: set<(Coordinates, Coordinates)>, n: Coordinates, t: CellType, prev: Coordinates,
                    m1: Maze, m2: Maze)
    requires IsGrid(m) && EdgesMatch(m, edges) && n in m.cells && m.cells[n].kind == Wall
    requires m1 == SetKind(m, n, t) && Linked(m1, n, prev, m2)
    ensures forall c :: c in m2.cells ==> NoRepeats(m2.cells[c].transitions)
  {
    StepShape(m, n, t, prev, m1, m2);
    LinkedPassage(m, n, t, prev, m1, m2);
    WallIsolated(m, edges, n);
    if prev.x != -1 {
      assert n !in m.cells[prev].transitions;
      forall c | c in m2.cells ensures NoRepeats(m2.cells[c].transitions) {
        assert NoRepeats(m.cells[c].transitions);
      }
    }
  }

  /** The walk to `prev` extended by `n` reaches `n`, and the earlier walks survive the new edge. */
  lemma ConnectedStep(m: Maze, edges: set<(Coordinates, Coordinates)>, walks: map<Coordinates, seq<Coordinates>>,
                      seed: Coordinates, n: Coordinates, t: CellType, prev: Coordinates, m1: Maze, m2: Maze)
    returns (walks2: map<Coordinates, seq<Coordinates>>)
    requires IsGrid(m) && EdgesMatch(m, edges) && Connected(m, walks, seed)
    requires n in m.cells && m.cells[n].kind == Wall && t != Wall
    requires prev.x == -1 ==> n == seed
    requires m1 == SetKind(m, n, t) && Linked(m1, n, prev, m2)
    ensures Connected(m2, walks2, seed)
  {
    StepShape(m, n, t, prev, m1, m2);
    LinkedPassage(m, n, t, prev, m1, m2);
    WallIsolated(m, edges, n);
    assert Carved(m2) == Carved(m) + {n};
    forall c | c in Carved(m) ensures IsWalkBetween(m2, walks[c], seed, c) {
      WalkGrows(m, m2, walks[c]);
    }
    if prev.x == -1 {
      walks2 := walks[n := [n]];
    } else {
      assert prev in Carved(m);
      WalkGrows(m, m2, walks[prev]);
      WalkExtend(m2, walks[prev], n);
      walks2 := walks[n := walks[prev] + [n]];
    }
  }

  /** Before the first step no cell is a passage, so the first cell finds no neighbour to join. */
  lemma FirstStep(m: Maze, border: set<Coordinates>, seed: Coordinates, n: Coordinates, t: CellType,
                  prev: Coordinates, m1: Maze, m2: Maze)
    requires IsGrid(m) && Carved(m) == {} && border == {seed} && n in border && n in m.cells
    requires m1 == SetKind(m, n, t) && Linked(m1, n, prev, m2)
    ensures n == seed && prev == NoPassage
  {
    PassagesNearby(m1, n);
    forall d | d in m1.cells && Adjacent(n, d) ensures m1.cells[d].kind == Wall {
      AdjacentSymmetric(n, d);
      assert d !in Carved(m);
    }
    assert forall d :: d !in PassagesAround(m1, n, 4);
  }

  /** Every later cell is next to a passage, so it is always joined to one. */
  lemma LaterStep(m: Maze, border: set<Coordinates>, n: Coordinates, t: CellType,
                  prev: Coordinates, m1: Maze, m2: Maze)
    requires IsGrid(m) && Supported(m, border) && n in border && n in m.cells
    requires m1 == SetKind(m, n, t) && Linked(m1, n, prev, m2)
    ensures PassagesAround(m1, n, 4) != [] && prev.x != -1
  {
    var c :| c in Carved(m) && Adjacent(n, c);
    AdjacentSymmetric(n, c);
    PassagesNearby(m1, n);
    assert c in PassagesAround(m1, n, 4);
    assert prev in m1.cells;
  }

  /** Only `n`'s type changes, and it becomes a passable type. */
  lemma TypesStep(m: Maze, n: Coordinates, t: CellType, prev: Coordinates, m1: Maze, m2: Maze)
    requires IsGrid(m) && HasMazeTypes(m) && n in m.cells && IsMazeType(t)
    requires m1 == SetKind(m, n, t) && Linked(m1, n, prev, m2)
    ensures HasMazeTypes(m2)
  {
    StepShape(m, n, t, prev, m1, m2);
    forall c | c in m2.cells ensures IsMazeType(m2.cells[c].kind) {
      if c != n {
        assert m2.cells[c].kind == m.cells[c].kind;
      }
    }
  }

  /** After the step every border cell is still next to a passage: old ones keep theirs, new ones touch `n`. */
  lemma SupportStep(m: Maze, border: set<Coordinates>, n: Coordinates, m2: Maze, border2: set<Coordinates>)
    requires IsGrid(m2) && Carved(m2) == Carved(m) + {n}
    requires Carved(m) != {} ==> Supported(m, border)
    requires Carved(m) == {} ==> border == {n}
    requires border2 == (border + WallsAround(m2, n, 4)) - {n}
    ensures Supported(m2, border2)
  {
    WallsNearby(m2, n);
    forall b | b in border2 ensures exists c :: c in Carved(m2) && Adjacent(b, c) {
      if b in WallsAround(m2, n, 4) {
        AdjacentSymmetric(n, b);
        assert n in Carved(m2) && Adjacent(b, n);
      } else {
        var c :| c in Carved(m) && Adjacent(b, c);
        assert c in Carved(m2);
      }
    }
  }

  /**
   * One loop iteration keeps the invariant: the chosen border cell `n` becomes a passage joined
   * to one earlier passage (none on the first step), and the border moves past it.
   */
  lemma CarveStep(m: Maze, border: set<Coordinates>, edges: set<(Coordinates, Coordinates)>,
                  walks: map<Coordinates, seq<Coordinates>>, seed: Coordinates, height: int, width: int,
                  n: Coordinates, t: CellType, prev: Coordinates, m1: Maze, m2: Maze, border2: set<Coordinates>)
    returns (edges2: set<(Coordinates, Coordinates)>, walks2: map<Coordinates, seq<Coordinates>>)
    requires Growing(m, border, edges, walks, seed, height, width)
    requires n in border && (t == LightedPass || t == Pass)
    requires m1 == SetKind(m, n, t) && Linked(m1, n, prev, m2)
    requires border2 == (border + WallsAround(m2, n, 4)) - {n}
    ensures Growing(m2, border2, edges2, walks2, seed, height, width)
    ensures Carved(m2) == Carved(m) + {n} && n !in Carved(m)
    ensures |Carved(m2)| == |Carved(m)| + 1
  {
    assert IsGrid(m) && BorderWalls(m, border) && Closed(m, border) && EdgesMatch(m, edges) && Connected(m, walks, seed);
    assert n in m.cells && m.cells[n].kind == Wall;
    BorderStep(m, border, n, t, prev, m1, m2, border2);
    var first := Carved(m) == {};
    if first {
      FirstStep(m, border, seed, n, t, prev, m1, m2);
    } else {
      LaterStep(m, border, n, t, prev, m1, m2);
    }
    edges2 := EdgesStep(m, edges, n, t, prev, m1, m2);
    walks2 := ConnectedStep(m, edges, walks, seed, n, t, prev, m1, m2);
    SupportStep(m, border, n, m2, border2);
    TypesStep(m, n, t, prev, m1, m2);
    assert n in Carved(m2);
  }

  /** Passages closed under side-adjacency that contain one cell of the grid cover the whole grid. */
  lemma {:induction false} ClosedRow(m: Maze, c: Coordinates, x: int)
    requires IsGrid(m) && Closed(m, {}) && c in Carved(m) && 0 <= x < m.width
    ensures Coordinates(x, c.y) in Carved(m)
    decreases if x < c.x then c.x - x else x - c.x
  {
    if x < c.x {
      assert Shift(c, 0) == Coordinates(c.x - 1, c.y);
      ClosedRow(m, Shift(c, 0), x);
    } else if x > c.x {
      assert Shift(c, 3) == Coordinates(c.x + 1, c.y);
      ClosedRow(m, Shift(c, 3), x);
    }
  }

  lemma {:induction false} ClosedColumn(m: Maze, c: Coordinates, y: int)
    requires IsGrid(m) && Closed(m, {}) && c in Carved(m) && 0 <= y < m.height
    ensures Coordinates(c.x, y) in Carved(m)
    decreases if y < c.y then c.y - y else y - c.y
  {
    if y < c.y {
      assert Shift(c, 1) == Coordinates(c.x, c.y - 1);
      ClosedColumn(m, Shift(c, 1), y);
    } else if y > c.y {
      assert Shift(c, 2) == Coordinates(c.x, c.y + 1);
      ClosedColumn(m, Shift(c, 2), y);
    }
  }

  /** With the border empty, the passages are closed under side-adjacency and so cover the grid. */
  lemma AllCarved(m: Maze, seed: Coordinates)
    requires IsGrid(m) && Closed(m, {}) && seed in Carved(m)
    ensures Carved(m) == m.cells.Keys
  {
    forall c | c in m.cells ensures c in Carved(m) {
      ClosedRow(m, seed, c.x);
      ClosedColumn(m, Coordinates(c.x, seed.y), c.y);
    }
  }

  /** Edges stored once each, between adjacent cells, make symmetric transitions between adjacent cells. */
  lemma EdgesDone(m: Maze, edges: set<(Coordinates, Coordinates)>)
    requires EdgesMatch(m, edges)
    ensures Symmetric(m)
    ensures forall c, d :: c in m.cells && d in m.cells[c].transitions ==> Adjacent(c, d)
  {
    forall c, d | c in m.cells && d in m.cells[c].transitions
      ensures d in m.cells && c in m.cells[d].transitions && Adjacent(c, d)
    {
      if (c, d) !in edges {
        assert (d, c) in edges;
        AdjacentSymmetric(d, c);
      }
    }
  }

  /** With walks from `seed` to every cell and symmetric transitions, every cell reaches every other. */
  lemma ReachDone(m: Maze, walks: map<Coordinates, seq<Coordinates>>, seed: Coordinates)
    requires Symmetric(m) && Connected(m, walks, seed) && Carved(m) == m.cells.Keys
    ensures forall a, b :: a in m.cells && b in m.cells ==> Reachable(m, a, b)
  {
    forall a, b | a in m.cells && b in m.cells ensures Reachable(m, a, b) {
      assert a in Carved(m) && b in Carved(m);
      WalkReversed(m, walks[a]);
      WalkJoin(m, Reversed(walks[a]), walks[b], a, seed, b);
    }
  }

  /** With the border empty the loop stops, and the invariant then says the maze is a spanning tree. */
  lemma GrowingDone(m: Maze, edges: set<(Coordinates, Coordinates)>, walks: map<Coordinates, seq<Coordinates>>,
                    seed: Coordinates, height: int, width: int)
    requires Growing(m, {}, edges, walks, seed, height, width)
    ensures Perfect(m, height, width)
  {
    AllCarved(m, seed);
    GridSize(height, width);
    EdgesDone(m, edges);
    ReachDone(m, walks, seed);
    assert forall c :: c in m.cells ==> c in Carved(m);
  }

  class Generator {
    var border: set<Coordinates>
    var mz: Maze

    constructor ()
      ensures border == {} && mz == EmptyMaze
    {
      border := {};
      mz := EmptyMaze;
    }

    /**
     * Builds a height x width maze. On success it is a spanning tree of passages; when the
     * random source fails, the result is the empty maze and an error.
     */
    method Generate(rng: Source, height: int, width: int) returns (m: Maze, r: Result<()>)
      requires height > 0 && width > 0
      requires border == {}
      modifies this, rng
      ensures r.Err? ==> m == EmptyMaze
      ensures r.Ok? ==> m == mz && border == {} && Perfect(m, height, width)
    {
      Prepare(height, width);
      r := Prim(rng);
      if r.Err? {
        return EmptyMaze, Err;
      }
      m := mz;
    }

    /** Replaces the maze with a fresh all-Wall grid. */
    method Prepare(height: int, width: int)
      requires height >= 0 && width >= 0
      modifies this
      ensures border == old(border)
      ensures mz.height == height && mz.width == width && IsGrid(mz)
      ensures forall c :: c in mz.cells ==> mz.cells[c] == ZeroCell
    {
      mz := New(height, width);
    }

    /** The carving loop, run on a fresh grid with an empty border. */
    method Prim(rng: Source) returns (r: Result<()>)
      requires IsGrid(mz) && mz.height > 0 && mz.width > 0 && border == {}
      requires forall c :: c in mz.cells ==> mz.cells[c] == ZeroCell
      modifies this, rng
      ensures mz.height == old(mz.height) && mz.width == old(mz.width)
      ensures r.Ok? ==> border == {} && Perfect(mz, mz.height, mz.width)
    {
      ghost var height, width := mz.height, mz.width;
      var start := GetRandomCoords(rng, mz.height, mz.width);
      if start.Err? {
        return Err;
      }
      border := border + {start.value};
      ghost var seed, edges, walks, steps := start.value, {}, map[], 0;
      StartGrowing(mz, seed);
      while |border| != 0
        invariant Growing(mz, border, edges, walks, seed, height, width)
        invariant steps == |Carved(mz)| <= height * width
        decreases height * width - steps
      {
        r, edges, walks := CarveNext(rng, edges, walks, seed, height, width);
        if r.Err? {
          return;
        }
        CarvedBound(mz);
        steps := steps + 1;
      }
      GrowingDone(mz, edges, walks, seed, height, width);
      r := Ok(());
    }

    /**
     * One iteration of the carving loop: a random border cell gets a random passable type, is
     * joined to a neighbouring passage and replaced on the border by its Wall neighbours.
     */
    method CarveNext(rng: Source, ghost edges: set<(Coordinates, Coordinates)>,
                     ghost walks: map<Coordinates, seq<Coordinates>>, ghost seed: Coordinates,
                     ghost height: int, ghost width: int)
      returns (r: Result<()>, ghost edges2: set<(Coordinates, Coordinates)>,
               ghost walks2: map<Coordinates, seq<Coordinates>>)
      requires Growing(mz, border, edges, walks, seed, height, width) && border != {}
      modifies this, rng
      ensures mz.height == old(mz.height) && mz.width == old(mz.width)
      ensures r.Ok? ==> Growing(mz, border, edges2, walks2, seed, height, width)
      ensures r.Ok? ==> |Carved(mz)| == |Carved(old(mz))| + 1
    {
      edges2, walks2 := edges, walks;
      var current := GetRandomCoordsFrom(rng, border);
      if current.Err? {
        return Err, edges2, walks2;
      }
      var n := current.value;
      ghost var m0, border0 := mz, border;
      var kind := GetRandomSignificantType(rng);
      // On failure the source still stores Pass, the type the helper returns beside its error.
      var t := if kind.Ok? then kind.value else Pass;
      mz := SetKind(mz, n, t);
      if kind.Err? {
        return Err, edges2, walks2;
      }
      ghost var m1 := mz;
      var linked := LinkToPassage(rng, n);
      if linked.Err? {
        return Err, edges2, walks2;
      }
      ghost var prev :| Linked(m1, n, prev, mz);
      UpdateBorder(n);
      edges2, walks2 := CarveStep(m0, border0, edges, walks, seed, height, width, n, t, prev, m1, mz, border);
      r := Ok(());
    }

    /** Joins `n` to a random neighbouring passage, recording the edge at both ends; with none, changes nothing. */
    method LinkToPassage(rng: Source, n: Coordinates) returns (r: Result<()>)
      requires IsGrid(mz) && n in mz.cells
      modifies this, rng
      ensures border == old(border)
      ensures IsGrid(mz) && mz.height == old(mz.height) && mz.width == old(mz.width)
      ensures r.Err? ==> mz == old(mz) && PassagesAround(mz, n, 4) != []
      ensures r.Ok? ==> exists prev :: Linked(old(mz), n, prev, mz)
    {
      var previous := RandomAdjacentPassage(rng, n);
      if previous.Err? {
        return Err;
      }
      var p := previous.value;
      ghost var m := mz;
      if p.x != -1 {
        PassagesNearby(mz, n);
        mz := mz.(cells := mz.cells[n := mz.cells[n].(transitions := mz.cells[n].transitions + [p])]);
        mz := mz.(cells := mz.cells[p := mz.cells[p].(transitions := mz.cells[p].transitions + [n])]);
      }
      assert Linked(m, n, p, mz);
      r := Ok(());
    }

    /** Adds the in-grid Wall neighbours of `c` to the border, then removes `c` from it. */
    method UpdateBorder(c: Coordinates)
      requires IsGrid(mz)
      modifies this
      ensures mz == old(mz)
      ensures border == (old(border) + WallsAround(mz, c, 4)) - {c}
    {
      for i := 0 to |Dx|
        invariant mz == old(mz)
        invariant border == old(border) + WallsAround(mz, c, i)
      {
        var d := Coordinates(c.x + Dx[i], c.y + Dy[i]);
        if IsInside(d, mz.height, mz.width) && mz.cells[d].kind == Wall {
          border := border + {d};
        }
      }
      border := border - {c};
    }

    /** A random in-grid side neighbour of `c` that is not a Wall, or NoPassage when there is none. */
    method RandomAdjacentPassage(rng: Source, c: Coordinates) returns (r: Result<Coordinates>)
      requires IsGrid(mz)
      modifies rng
      ensures r.Ok? ==> if PassagesAround(mz, c, 4) == [] then r.value == NoPassage
                        else r.value in PassagesAround(mz, c, 4)
      ensures r.Err? ==> PassagesAround(mz, c, 4) != [] && old(rng.stream) == [] && rng.stream == []
    {
      var adjacent: seq<Coordinates> := [];
      for i := 0 to |Dx|
        invariant adjacent == PassagesAround(mz, c, i)
      {
        var d := Coordinates(c.x + Dx[i], c.y + Dy[i]);
        if IsInside(d, mz.height, mz.width) && mz.cells[d].kind != Wall {
          adjacent := adjacent + [d];
        }
      }
      if |adjacent| != 0 {
        var number := GetRandomInt(rng, |adjacent|);
        if number.Err? {
          return Err;
        }
        return Ok(adjacent[number.value]);
      }
      r := Ok(NoPassage);
    }
  }
}
