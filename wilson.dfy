/**
 * Wilson's generator. One random cell becomes a passage; then, while unvisited cells remain, a
 * random walk starts at a random unvisited cell and goes on until it steps onto the maze. A step
 * onto a cell the walk has already recorded clears the record and restarts the walk from its
 * first cell. The recorded walk is then committed to the maze.
 *
 * The record (`wandering`) is cleared only on such a restart, never after a commit, so cells of
 * an earlier walk stay in it: a later walk that steps onto one of them restarts and leaves with an
 * empty record, and a later commit gives them a new type and appends their transitions again.
 * Those appended links are transitions the cells already have, so read as a set of undirected
 * edges the maze still grows by one edge per new cell and ends as a spanning tree.
 */
module Wilson {
  import opened Cells
  import opened Random
  import opened GeneratorUtils
  import opened Mazes

  /** The walk record: every recorded cell with the cells it was stepped to or from. */
  type Wandering = map<Coordinates, seq<Coordinates>>

  /** A read of a Go map of slices: an absent key reads as the empty slice. */
  function Get(w: Wandering, c: Coordinates): seq<Coordinates>
  {
    if c in w then w[c] else []
  }

  /** `w` after the step from `previous` to `current` is recorded at both ends; a step in place records nothing. */
  function AddLink(w: Wandering, current: Coordinates, previous: Coordinates): Wandering
  {
    if current != previous then
      var w1 := w[current := Get(w, current) + [previous]];
      w1[previous := Get(w1, previous) + [current]]
    else w
  }

  /** Recording a step onto an unrecorded cell gives that cell exactly the cell stepped from. */
  lemma AddLinkFresh(w: Wandering, current: Coordinates, previous: Coordinates)
    requires current != previous && current !in w
    ensures AddLink(w, current, previous) == w[current := [previous]][previous := Get(w, previous) + [current]]
  {
    assert Get(w, current) + [previous] == [previous];
    assert Get(w[current := [previous]], previous) == Get(w, previous);
  }

  /** Every link of the record is recorded at both ends, between side-adjacent cells. */
  ghost predicate SideLinks(w: Wandering)
  {
    forall c, d :: c in w && d in w[c] ==> d in w && c in w[d] && Adjacent(c, d)
  }

  /** No cell is recorded as its own neighbour. */
  ghost predicate NoSelfLinks(w: Wandering)
  {
    forall c :: c in w ==> c !in w[c]
  }

  /** Every recorded link is recorded at both of its ends. */
  ghost predicate LinksSymmetric(w: Wandering)
  {
    forall c, d :: c in w && d in w[c] ==> d in w && c in w[d]
  }

  /** Recording a step never records a self-link and keeps every link recorded at both ends. */
  lemma AddLinkKeeps(w: Wandering, current: Coordinates, previous: Coordinates)
    requires NoSelfLinks(w) && LinksSymmetric(w)
    ensures NoSelfLinks(AddLink(w, current, previous)) && LinksSymmetric(AddLink(w, current, previous))
    ensures current != previous ==>
      current in AddLink(w, current, previous) && previous in AddLink(w, current, previous)[current] &&
      previous in AddLink(w, current, previous) && current in AddLink(w, current, previous)[previous]
    ensures current == previous ==> AddLink(w, current, previous) == w
  {
    var r := AddLink(w, current, previous);
    if current != previous {
      forall c | c in r ensures c !in r[c] {
        if c == current {
          assert r[c] == Get(w, current) + [previous];
        } else if c == previous {
          assert r[c] == Get(w, previous) + [current];
        } else {
          assert r[c] == w[c];
        }
      }
      forall c, d | c in r && d in r[c] ensures d in r && c in r[d] {
        if c != current && c != previous {
          assert r[c] == w[c];
        }
      }
    }
  }

  /** The record of walk cell `i`: the cell it was entered from, then the cell it was left for. */
  function TrailLinks(trail: seq<Coordinates>, i: nat): seq<Coordinates>
    requires i < |trail|
  {
    (if i > 0 then [trail[i - 1]] else []) + (if i < |trail| - 1 then [trail[i + 1]] else [])
  }

  /** `w` holds the links of every cell of `trail`. */
  ghost predicate Recorded(w: Wandering, trail: seq<Coordinates>)
  {
    && (forall i :: 0 <= i < |trail| ==> trail[i] in w)
    && (forall i {:trigger TrailLinks(trail, i)} :: 0 <= i < |trail| && trail[i] in w ==> w[trail[i]] == TrailLinks(trail, i))
  }

  /** Each cell of `trail` is recorded with the next among its links. */
  ghost predicate LinksFollow(w: Wandering, trail: seq<Coordinates>)
  {
    forall i, j {:trigger trail[i], trail[j]} :: 0 <= i && j == i + 1 && j < |trail| ==> trail[i] in w && trail[j] in w[trail[i]]
  }

  /** Each cell of `trail` is side-adjacent to the next. */
  ghost predicate SideSteps(trail: seq<Coordinates>)
  {
    forall i, j {:trigger trail[i], trail[j]} :: 0 <= i && j == i + 1 && j < |trail| ==> Adjacent(trail[i], trail[j])
  }

  /** The record left by earlier walks: committed cells whose links are symmetric, side-adjacent and in the maze. */
  ghost predicate StaleOk(m: Maze, unvisited: set<Coordinates>, stale: Wandering)
  {
    && (forall c :: c in stale ==> c in m.cells && c !in unvisited)
    && (forall c, d :: c in stale && d in stale[c] ==>
          d in stale && c in stale[d] && Adjacent(c, d) && d in m.cells[c].transitions)
  }

  /**
   * The state of a walk from `start`: `trail` is the walk since its last restart, all of it
   * unvisited but perhaps its last cell, without repeats and moving between side-adjacent cells.
   * The record holds the stale part `stale` unchanged and, once the walk has moved, exactly the
   * links of `trail`.
   */
  ghost predicate WalkState(m: Maze, unvisited: set<Coordinates>, stale: Wandering, w: Wandering,
                            trail: seq<Coordinates>, start: Coordinates)
  {
    && |trail| >= 1 && trail[0] == start && start in unvisited
    && TrailCells(m, unvisited, stale, trail) && SideSteps(trail) && NoRepeats(trail)
    && RecordKeys(w, stale, trail) && (forall c :: c in stale ==> w[c] == stale[c])
    && (|trail| > 1 ==> Recorded(w, trail))
    && StaleOk(m, unvisited, stale)
  }

  /** The walk stays on grid cells outside the stale record, and is unvisited up to its last cell. */
  ghost predicate TrailCells(m: Maze, unvisited: set<Coordinates>, stale: Wandering, trail: seq<Coordinates>)
  {
    && (forall i :: 0 <= i < |trail| ==> trail[i] in m.cells && trail[i] !in stale)
    && (forall i :: 0 <= i < |trail| - 1 ==> trail[i] in unvisited)
  }

  /** The record's cells: the stale ones and, once the walk has moved, those of the walk. */
  ghost predicate RecordKeys(w: Wandering, stale: Wandering, trail: seq<Coordinates>)
  {
    forall c :: c in w <==> c in stale || (|trail| > 1 && c in trail)
  }

  /** The walk has ended: on the maze after at least one step, or after a restart caused by a maze cell. */
  ghost predicate Arrived(unvisited: set<Coordinates>, w: Wandering, trail: seq<Coordinates>)
  {
    w == map[] || (|trail| >= 2 && trail[|trail| - 1] !in unvisited)
  }

  /**
   * The state between walks: the passages are exactly the cells no longer unvisited, every
   * transition joins two side-adjacent passages and is recorded at both ends, the record holds
   * only committed links, and every passage is reachable from `seed`.
   */
  ghost predicate Settled(m: Maze, unvisited: set<Coordinates>, w: Wandering, seed: Coordinates)
  {
    && SettledCells(m, unvisited, seed)
    && SettledEdges(m, unvisited)
    && StaleOk(m, unvisited, w)
    && SettledReach(m, unvisited, seed)
  }

  /** The passages are exactly the cells no longer unvisited, the seed among them. */
  ghost predicate SettledCells(m: Maze, unvisited: set<Coordinates>, seed: Coordinates)
  {
    && HasMazeTypes(m)
    && unvisited <= m.cells.Keys
    && WallsUnvisited(m, unvisited)
    && seed in m.cells && seed !in unvisited
  }

  /** A cell is unvisited exactly when it is a Wall. */
  ghost predicate WallsUnvisited(m: Maze, unvisited: set<Coordinates>)
  {
    forall c :: c in m.cells ==> (c in unvisited <==> m.cells[c].kind == Wall)
  }

  /** Every transition joins two side-adjacent passages and is recorded at both ends. */
  ghost predicate SettledEdges(m: Maze, unvisited: set<Coordinates>)
  {
    && Symmetric(m)
    && EdgesJoinPassages(m, unvisited)
  }

  /** Every transition leaves a passage for a side-adjacent cell. */
  ghost predicate EdgesJoinPassages(m: Maze, unvisited: set<Coordinates>)
  {
    forall c, d :: c in m.cells && d in m.cells[c].transitions ==> Adjacent(c, d) && c !in unvisited
  }

  /** Every passage is reachable from the seed. */
  ghost predicate SettledReach(m: Maze, unvisited: set<Coordinates>, seed: Coordinates)
  {
    forall c :: c in m.cells && c !in unvisited ==> Reachable(m, seed, c)
  }

  /** What committing `w` does: its cells get passable types and their links appended, and leave `unvisited`. */
  ghost predicate Committed(m0: Maze, unvisited0: set<Coordinates>, w: Wandering, m: Maze, unvisited: set<Coordinates>)
  {
    && m.height == m0.height && m.width == m0.width && m.cells.Keys == m0.cells.Keys
    && CommittedCells(m0, w, m)
    && unvisited == unvisited0 - w.Keys
  }

  /** Recorded cells become passages with their links appended; every other cell is unchanged. */
  ghost predicate CommittedCells(m0: Maze, w: Wandering, m: Maze)
  {
    && (forall c :: c in m0.cells && c in w ==>
          c in m.cells && (m.cells[c].kind == LightedPass || m.cells[c].kind == Pass) &&
          m.cells[c].transitions == m0.cells[c].transitions + w[c])
    && (forall c :: c in m0.cells && c !in w ==> c in m.cells && m.cells[c] == m0.cells[c])
  }

  /** Once the seed is a passage of a fresh grid and every other cell is unvisited, the walks can begin. */
  lemma SeedSettled(m0: Maze, m: Maze, unvisited: set<Coordinates>, seed: Coordinates)
    requires IsGrid(m0) && forall c :: c in m0.cells ==> m0.cells[c] == ZeroCell
    requires seed in m0.cells && m.height == m0.height && m.width == m0.width && m.cells.Keys == m0.cells.Keys
    requires m.cells[seed].transitions == [] && (m.cells[seed].kind == LightedPass || m.cells[seed].kind == Pass)
    requires forall c :: c in m0.cells && c != seed ==> m.cells[c] == m0.cells[c]
    requires unvisited == m0.cells.Keys - {seed}
    ensures Settled(m, unvisited, map[], seed)
  {
    assert IsWalkBetween(m, [seed], seed, seed);
    forall c | c in m.cells && c !in unvisited ensures Reachable(m, seed, c) {
      assert c == seed;
    }
  }

  /** A walk begins at an unvisited cell with only the stale record. */
  lemma WalkBegins(m: Maze, unvisited: set<Coordinates>, w: Wandering, start: Coordinates)
    requires StaleOk(m, unvisited, w) && start in unvisited && start in m.cells
    ensures WalkState(m, unvisited, w, w, [start], start)
  {
  }

  /** A step onto an unrecorded side neighbour `c` extends the walk by `c`. */
  lemma WalkSteps(m: Maze, unvisited: set<Coordinates>, stale: Wandering, w: Wandering,
                  trail: seq<Coordinates>, start: Coordinates, c: Coordinates)
    requires WalkState(m, unvisited, stale, w, trail, start)
    requires trail[|trail| - 1] in unvisited
    requires c in m.cells && Adjacent(trail[|trail| - 1], c) && c !in w
    ensures WalkState(m, unvisited, stale, AddLink(w, c, trail[|trail| - 1]), trail + [c], start)
  {
    var p := trail[|trail| - 1];
    var t2 := trail + [c];
    AdjacentSymmetric(p, c);
    assert c !in trail by {
      if |trail| == 1 {
        assert trail == [p];
      }
    }
    AddLinkFresh(w, c, p);
    RecordStep(w, trail, c);
    assert forall i :: 0 <= i < |t2| ==> t2[i] in m.cells && t2[i] !in stale;
  }

  /** Recording a step onto a new cell `c` records the extended walk link by link. */
  lemma RecordStep(w: Wandering, trail: seq<Coordinates>, c: Coordinates)
    requires |trail| >= 1 && c !in w && c !in trail && NoRepeats(trail)
    requires |trail| == 1 ==> trail[0] !in w
    requires |trail| > 1 ==> Recorded(w, trail)
    ensures Recorded(AddLink(w, c, trail[|trail| - 1]), trail + [c])
  {
    var p, k := trail[|trail| - 1], |trail| - 1;
    var t2, w2 := trail + [c], AddLink(w, c, p);
    AddLinkFresh(w, c, p);
    assert w2[c] == TrailLinks(t2, k + 1);
    if |trail| == 1 {
      assert w2[p] == TrailLinks(t2, 0);
    } else {
      assert w[p] == TrailLinks(trail, k);
      assert w2[p] == TrailLinks(t2, k);
    }
    forall i | 0 <= i < |t2| ensures t2[i] in w2 && w2[t2[i]] == TrailLinks(t2, i) {
      if i < k {
        assert t2[i] != p && t2[i] != c;
        assert TrailLinks(t2, i) == TrailLinks(trail, i);
      }
    }
  }

  /** The links recorded for a walk of side-adjacent steps are recorded at both ends, between side-adjacent cells. */
  lemma TrailLinked(w: Wandering, trail: seq<Coordinates>)
    requires |trail| > 1
    requires Recorded(w, trail) && SideSteps(trail)
    ensures forall i, d :: 0 <= i < |trail| && d in w[trail[i]] ==> d in w && trail[i] in w[d] && Adjacent(trail[i], d)
  {
    forall i, d | 0 <= i < |trail| && d in w[trail[i]] ensures d in w && trail[i] in w[d] && Adjacent(trail[i], d) {
      assert d in TrailLinks(trail, i);
      if i > 0 && d == trail[i - 1] {
        assert w[d] == TrailLinks(trail, i - 1);
        AdjacentSymmetric(d, trail[i]);
      } else {
        assert d == trail[i + 1];
        assert w[d] == TrailLinks(trail, i + 1);
      }
    }
  }

  /** Every link of a walk record is recorded at both ends, between side-adjacent cells. */
  lemma WalkLinks(m: Maze, unvisited: set<Coordinates>, stale: Wandering, w: Wandering,
                  trail: seq<Coordinates>, start: Coordinates)
    requires WalkState(m, unvisited, stale, w, trail, start)
    ensures SideLinks(w)
  {
    if |trail| > 1 {
      TrailLinked(w, trail);
    }
    forall c, d | c in w && d in w[c] ensures d in w && c in w[d] && Adjacent(c, d) {
      if c !in stale {
        var i :| 0 <= i < |trail| && trail[i] == c;
      }
    }
  }

  /**
   * What a finished walk leaves to commit: a record of grid cells whose links are symmetric and
   * side-adjacent, whose unvisited cells all lie on `trail`, and, unless it holds no unvisited
   * cell, a trail recorded link by link whose last cell is already a passage.
   */
  ghost predicate Walked(m: Maze, unvisited: set<Coordinates>, w: Wandering, trail: seq<Coordinates>)
  {
    && w.Keys <= m.cells.Keys
    && SideLinks(w)
    && OnTrail(w, unvisited, trail)
    && TrailArrived(m, unvisited, w, trail)
  }

  /** Every unvisited cell of the record lies on `trail`. */
  ghost predicate OnTrail(w: Wandering, unvisited: set<Coordinates>, trail: seq<Coordinates>)
  {
    forall c :: c in w && c in unvisited ==> c in trail
  }

  /** Either the record holds no unvisited cell, or `trail` is recorded link by link and ends on a passage. */
  ghost predicate TrailArrived(m: Maze, unvisited: set<Coordinates>, w: Wandering, trail: seq<Coordinates>)
  {
    || (&& |trail| > 1 && LinksFollow(w, trail)
        && (forall i :: 0 <= i < |trail| ==> trail[i] in m.cells)
        && trail[|trail| - 1] !in unvisited)
    || (forall c :: c in w ==> c !in unvisited)
  }

  /** A walk that has arrived leaves a record ready to commit. */
  lemma WalkFinished(m: Maze, unvisited: set<Coordinates>, stale: Wandering, w: Wandering,
                     trail: seq<Coordinates>, start: Coordinates)
    requires WalkState(m, unvisited, stale, w, trail, start) && Arrived(unvisited, w, trail)
    ensures Walked(m, unvisited, w, trail)
  {
    WalkKeys(m, unvisited, stale, w, trail, start);
    WalkLinks(m, unvisited, stale, w, trail, start);
    if |trail| > 1 {
      forall i, j | 0 <= i && j == i + 1 && j < |trail| ensures trail[i] in w && trail[j] in w[trail[i]] {
        assert trail[j] in TrailLinks(trail, i);
      }
    }
  }

  /** Committing a finished walk keeps the state between walks, with the walk's record as the new stale part. */
  lemma CommitKeeps(m0: Maze, unvisited0: set<Coordinates>, w: Wandering, trail: seq<Coordinates>,
                    seed: Coordinates, m: Maze, unvisited: set<Coordinates>)
    requires SettledCells(m0, unvisited0, seed) && SettledEdges(m0, unvisited0)
    requires SettledReach(m0, unvisited0, seed)
    requires Walked(m0, unvisited0, w, trail)
    requires Committed(m0, unvisited0, w, m, unvisited)
    ensures Settled(m, unvisited, w, seed)
    ensures unvisited <= unvisited0
  {
    CommitTypes(m0, unvisited0, w, seed, m, unvisited);
    CommitEdges(m0, unvisited0, w, m, unvisited);
    CommitStale(m0, unvisited0, w, m, unvisited);
    CommitReach(m0, unvisited0, w, trail, seed, m, unvisited);
  }

  /** Committed cells become passages and leave `unvisited`; nothing else changes type. */
  lemma CommitTypes(m0: Maze, unvisited0: set<Coordinates>, w: Wandering, seed: Coordinates,
                    m: Maze, unvisited: set<Coordinates>)
    requires SettledCells(m0, unvisited0, seed)
    requires w.Keys <= m0.cells.Keys
    requires Committed(m0, unvisited0, w, m, unvisited)
    ensures SettledCells(m, unvisited, seed) && unvisited <= unvisited0
  {
  }

  /** Every cell of a walk record is a cell of the grid. */
  lemma WalkKeys(m: Maze, unvisited: set<Coordinates>, stale: Wandering, w: Wandering,
                 trail: seq<Coordinates>, start: Coordinates)
    requires WalkState(m, unvisited, stale, w, trail, start)
    ensures w.Keys <= m.cells.Keys
  {
    assert forall c :: c in w ==> c in m.cells;
  }

  /** Committed links are appended at both ends, so the transitions stay symmetric and between adjacent passages. */
  lemma CommitEdges(m0: Maze, unvisited0: set<Coordinates>, w: Wandering, m: Maze, unvisited: set<Coordinates>)
    requires SettledEdges(m0, unvisited0) && w.Keys <= m0.cells.Keys
    requires SideLinks(w)
    requires Committed(m0, unvisited0, w, m, unvisited)
    ensures SettledEdges(m, unvisited)
  {
    forall c, d | c in m.cells && d in m.cells[c].transitions
      ensures d in m.cells && c in m.cells[d].transitions && Adjacent(c, d) && c !in unvisited
    {
      CommitEdge(m0, unvisited0, w, m, unvisited, c, d);
    }
  }

  /** After a commit the record holds only committed links, which are now transitions. */
  lemma CommitStale(m0: Maze, unvisited0: set<Coordinates>, w: Wandering, m: Maze, unvisited: set<Coordinates>)
    requires w.Keys <= m0.cells.Keys
    requires SideLinks(w)
    requires Committed(m0, unvisited0, w, m, unvisited)
    ensures StaleOk(m, unvisited, w)
  {
  }

  /** One transition after a commit: either an old one or a committed link, recorded at both ends either way. */
  lemma CommitEdge(m0: Maze, unvisited0: set<Coordinates>, w: Wandering, m: Maze, unvisited: set<Coordinates>,
                   c: Coordinates, d: Coordinates)
    requires SettledEdges(m0, unvisited0) && w.Keys <= m0.cells.Keys
    requires SideLinks(w)
    requires Committed(m0, unvisited0, w, m, unvisited)
    requires c in m.cells && d in m.cells[c].transitions
    ensures d in m.cells && c in m.cells[d].transitions && Adjacent(c, d) && c !in unvisited
  {
    if c in w && d !in m0.cells[c].transitions {
      assert d in w[c];
      assert m.cells[d].transitions == m0.cells[d].transitions + w[d];
    } else {
      assert d in m0.cells[c].transitions;
      assert c in m0.cells[d].transitions;
    }
  }

  /** A cell reachable before a commit is reachable after it: commits only append transitions. */
  lemma CommitReachKept(m0: Maze, w: Wandering, m: Maze, seed: Coordinates, c: Coordinates)
    requires m.cells.Keys == m0.cells.Keys
    requires forall c :: c in m0.cells && c !in w ==> m.cells[c] == m0.cells[c]
    requires forall c :: c in m0.cells && c in w ==> m.cells[c].transitions == m0.cells[c].transitions + w[c]
    requires Reachable(m0, seed, c)
    ensures Reachable(m, seed, c)
  {
    forall x, d | x in m0.cells && d in m0.cells[x].transitions ensures d in m.cells[x].transitions {
      if x in w {
        assert m.cells[x].transitions == m0.cells[x].transitions + w[x];
      }
    }
    var p :| IsWalkBetween(m0, p, seed, c);
    WalkGrows(m0, m, p);
    assert IsWalkBetween(m, p, seed, c);
  }

  /** Every cell of a committed walk is reachable once its last cell is: the walk leads back to it. */
  lemma TrailReach(m: Maze, w: Wandering, trail: seq<Coordinates>, seed: Coordinates, i: nat)
    requires Symmetric(m) && |trail| > 1 && i < |trail|
    requires (forall i :: 0 <= i < |trail| ==> trail[i] in m.cells) && LinksFollow(w, trail)
    requires forall c :: c in m.cells && c in w ==> forall d :: d in w[c] ==> d in m.cells[c].transitions
    requires Reachable(m, seed, trail[|trail| - 1])
    ensures Reachable(m, seed, trail[i])
  {
    var last := trail[|trail| - 1];
    var p :| IsWalkBetween(m, p, seed, last);
    TrailWalk(m, w, trail);
    var q := trail[i..];
    WalkReversed(m, q);
    var r := Reversed(q);
    assert IsWalkBetween(m, r, last, trail[i]);
    WalkJoin(m, p, r, seed, last, trail[i]);
    assert IsWalkBetween(m, p + r[1..], seed, trail[i]);
  }

  /** Every newly committed cell is reachable: the walk joins it to its last cell, which was already a passage. */
  lemma CommitReach(m0: Maze, unvisited0: set<Coordinates>, w: Wandering, trail: seq<Coordinates>,
                    seed: Coordinates, m: Maze, unvisited: set<Coordinates>)
    requires SettledReach(m0, unvisited0, seed)
    requires Walked(m0, unvisited0, w, trail)
    requires Committed(m0, unvisited0, w, m, unvisited)
    requires Symmetric(m)
    ensures SettledReach(m, unvisited, seed)
  {
    forall c | c in m.cells && c !in unvisited0 ensures Reachable(m, seed, c) {
      CommitReachKept(m0, w, m, seed, c);
    }
    if && |trail| > 1 && LinksFollow(w, trail)
       && (forall i :: 0 <= i < |trail| ==> trail[i] in m0.cells)
       && trail[|trail| - 1] !in unvisited0
    {
      forall i | 0 <= i < |trail| ensures Reachable(m, seed, trail[i]) {
        TrailReach(m, w, trail, seed, i);
      }
    }
    forall c | c in m.cells && c !in unvisited ensures Reachable(m, seed, c) {
      if c in unvisited0 {
        assert c in w && c in trail;
      }
    }
  }

  /** The links of the walk are appended to the committed maze, so the walk is a walk of it. */
  lemma TrailWalk(m: Maze, w: Wandering, trail: seq<Coordinates>)
    requires |trail| > 1
    requires (forall i :: 0 <= i < |trail| ==> trail[i] in m.cells) && LinksFollow(w, trail)
    requires forall c :: c in m.cells && c in w ==> forall d :: d in w[c] ==> d in m.cells[c].transitions
    ensures IsWalk(m, trail)
    ensures forall i :: 0 <= i < |trail| ==> IsWalk(m, trail[i..])
  {
    forall i | 0 <= i < |trail| - 1 ensures trail[i + 1] in m.cells[trail[i]].transitions {
      var j := i + 1;
      var next := trail[j];
      assert trail[i] in w && next in w[trail[i]];
    }
    forall i | 0 <= i < |trail| ensures IsWalk(m, trail[i..]) {
      var q := trail[i..];
      assert forall j :: 0 <= j < |q| ==> q[j] == trail[i + j];
    }
  }

  /** With no unvisited cell left, the state between walks says the maze is spanning. */
  lemma SettledDone(m: Maze, w: Wandering, seed: Coordinates, height: int, width: int)
    requires Settled(m, {}, w, seed) && m.height == height && m.width == width && IsGrid(m)
    ensures Spanning(m, height, width)
  {
    forall a, b | a in m.cells && b in m.cells ensures Reachable(m, a, b) {
      var p :| IsWalkBetween(m, p, seed, a);
      var q :| IsWalkBetween(m, q, seed, b);
      WalkReversed(m, p);
      WalkJoin(m, Reversed(p), q, a, seed, b);
    }
  }

  /** The steps of `trail`, each stored once, as (from, to). */
  function TrailEdges(trail: seq<Coordinates>): set<(Coordinates, Coordinates)>
  {
    if |trail| < 2 then {} else {(trail[0], trail[1])} + TrailEdges(trail[1..])
  }

  /** The cells of `trail`. */
  function TrailSet(trail: seq<Coordinates>): set<Coordinates>
  {
    if trail == [] then {} else {trail[0]} + TrailSet(trail[1..])
  }

  /** Every step of `trail` is one of its edges. */
  lemma {:induction false} TrailEdgeAt(trail: seq<Coordinates>, i: nat)
    requires i + 1 < |trail|
    ensures (trail[i], trail[i + 1]) in TrailEdges(trail)
  {
    if i > 0 {
      TrailEdgeAt(trail[1..], i - 1);
    }
  }

  /** Every edge of `trail` is one of its steps. */
  lemma {:induction false} TrailEdgeIndex(trail: seq<Coordinates>, e: (Coordinates, Coordinates)) returns (i: nat)
    requires e in TrailEdges(trail)
    ensures i + 1 < |trail| && e == (trail[i], trail[i + 1])
  {
    if e == (trail[0], trail[1]) {
      i := 0;
    } else {
      var j := TrailEdgeIndex(trail[1..], e);
      i := j + 1;
    }
  }

  /** A walk without repeats has one edge fewer than it has cells. */
  lemma {:induction false} TrailEdgesCount(trail: seq<Coordinates>)
    requires |trail| >= 1 && NoRepeats(trail)
    ensures |TrailEdges(trail)| == |trail| - 1
  {
    if |trail| >= 2 {
      var rest := trail[1..];
      assert NoRepeats(rest) by {
        forall i, j | 0 <= i < j < |rest| ensures rest[i] != rest[j] {
          assert rest[i] == trail[i + 1] && rest[j] == trail[j + 1];
        }
      }
      TrailEdgesCount(rest);
      forall e | e in TrailEdges(rest) ensures e.0 != trail[0] {
        var j := TrailEdgeIndex(rest, e);
        assert e.0 == trail[j + 1];
      }
    }
  }

  /** The cells of `trail` are its members. */
  lemma {:induction false} TrailSetMembers(trail: seq<Coordinates>)
    ensures forall c :: c in TrailSet(trail) <==> c in trail
  {
    if trail != [] {
      TrailSetMembers(trail[1..]);
      assert trail == [trail[0]] + trail[1..];
    }
  }

  /** The cells of a walk without repeats number its length. */
  lemma {:induction false} TrailSetCount(trail: seq<Coordinates>)
    requires NoRepeats(trail)
    ensures |TrailSet(trail)| == |trail|
  {
    if trail != [] {
      var rest := trail[1..];
      assert NoRepeats(rest) by {
        forall i, j | 0 <= i < j < |rest| ensures rest[i] != rest[j] {
          assert rest[i] == trail[i + 1] && rest[j] == trail[j + 1];
        }
      }
      TrailSetCount(rest);
      TrailSetMembers(rest);
      assert trail[0] !in rest by {
        forall j | 0 <= j < |rest| ensures rest[j] != trail[0] {
          assert rest[j] == trail[j + 1];
        }
      }
    }
  }

  /** The links recorded for cell `i` of a walk are exactly the cells its edges join it to. */
  lemma TrailLinksEdges(trail: seq<Coordinates>, i: nat, d: Coordinates)
    requires i < |trail| && NoRepeats(trail)
    ensures d in TrailLinks(trail, i) <==> (trail[i], d) in TrailEdges(trail) || (d, trail[i]) in TrailEdges(trail)
  {
    if i > 0 {
      TrailEdgeAt(trail, i - 1);
    }
    if i < |trail| - 1 {
      TrailEdgeAt(trail, i);
    }
    if (trail[i], d) in TrailEdges(trail) {
      var j := TrailEdgeIndex(trail, (trail[i], d));
      assert trail[j] == trail[i];
    }
    if (d, trail[i]) in TrailEdges(trail) {
      var j := TrailEdgeIndex(trail, (d, trail[i]));
      assert trail[j + 1] == trail[i];
    }
  }

  /** Both ends of every edge of `trail` lie on it, so a cell off the walk is on none of its edges. */
  lemma TrailEdgesOff(trail: seq<Coordinates>, c: Coordinates, d: Coordinates)
    requires c !in trail
    ensures (c, d) !in TrailEdges(trail) && (d, c) !in TrailEdges(trail)
  {
    forall e | e in TrailEdges(trail) ensures e.0 in trail && e.1 in trail {
      var j := TrailEdgeIndex(trail, e);
    }
  }

  /**
   * The edge count between walks: `edges` describes the transitions, one edge per pair of
   * joined cells, and has one edge fewer than there are cells no longer unvisited.
   */
  ghost predicate Counted(m: Maze, unvisited: set<Coordinates>, edges: set<(Coordinates, Coordinates)>)
  {
    && Undirected(m, edges)
    && (forall e :: e in edges ==> e.0 in m.cells)
    && |edges| + 1 == |m.cells.Keys - unvisited|
  }

  /** A fresh grid with only the seed a passage has no edges and one passage. */
  lemma SeedCounted(m0: Maze, m: Maze, unvisited: set<Coordinates>, seed: Coordinates)
    requires forall c :: c in m0.cells ==> m0.cells[c] == ZeroCell
    requires seed in m0.cells && m.cells.Keys == m0.cells.Keys && m.cells[seed].transitions == []
    requires forall c :: c in m0.cells && c != seed ==> m.cells[c] == m0.cells[c]
    requires unvisited == m0.cells.Keys - {seed}
    ensures Counted(m, unvisited, {})
  {
    assert m.cells.Keys - unvisited == {seed};
  }

  /** An empty record commits nothing, so the edge count stays. */
  lemma CommitNothingCounted(m0: Maze, unvisited0: set<Coordinates>, w: Wandering, m: Maze, unvisited: set<Coordinates>,
                             edges: set<(Coordinates, Coordinates)>)
    requires Counted(m0, unvisited0, edges) && w == map[]
    requires Committed(m0, unvisited0, w, m, unvisited)
    ensures Counted(m, unvisited, edges)
  {
    assert forall c :: c in m0.cells ==> m.cells[c] == m0.cells[c];
  }

  /**
   * Committing a finished walk adds its steps to the edges: a cell of the walk gains exactly the
   * links of its steps, and a stale cell only gains links it already had.
   */
  lemma CommitUndirected(m0: Maze, unvisited0: set<Coordinates>, stale: Wandering, w: Wandering, trail: seq<Coordinates>,
                         m: Maze, unvisited: set<Coordinates>, edges: set<(Coordinates, Coordinates)>)
    requires Undirected(m0, edges) && StaleOk(m0, unvisited0, stale)
    requires |trail| > 1 && NoRepeats(trail) && Recorded(w, trail)
    requires RecordKeys(w, stale, trail) && forall c :: c in stale ==> w[c] == stale[c]
    requires Committed(m0, unvisited0, w, m, unvisited)
    ensures forall c, d :: c in m.cells ==>
      (d in m.cells[c].transitions <==> (c, d) in edges + TrailEdges(trail) || (d, c) in edges + TrailEdges(trail))
  {
    forall c, d | c in m.cells
      ensures d in m.cells[c].transitions <==> (c, d) in edges + TrailEdges(trail) || (d, c) in edges + TrailEdges(trail)
    {
      CommitCellShape(m0, unvisited0, stale, w, trail, m, unvisited, c);
      CommitCellEdges(m0, w, trail, m, edges, c, d);
    }
  }

  /** What a commit does to one cell: its record is appended, and off the walk that record holds only old transitions. */
  lemma CommitCellShape(m0: Maze, unvisited0: set<Coordinates>, stale: Wandering, w: Wandering, trail: seq<Coordinates>,
                        m: Maze, unvisited: set<Coordinates>, c: Coordinates)
    requires StaleOk(m0, unvisited0, stale)
    requires |trail| > 1 && RecordKeys(w, stale, trail) && forall c :: c in stale ==> w[c] == stale[c]
    requires Committed(m0, unvisited0, w, m, unvisited)
    requires c in m.cells
    ensures c in m0.cells && m.cells[c].transitions == m0.cells[c].transitions + Get(w, c)
    ensures c in trail ==> c in w
    ensures c !in trail ==> forall x :: x in Get(w, c) ==> x in m0.cells[c].transitions
  {
    if c !in trail && c in w {
      assert c in stale && w[c] == stale[c];
      forall x | x in Get(w, c) ensures x in m0.cells[c].transitions {
        assert x in stale[c];
        assert x in stale && c in stale[x] && Adjacent(c, x) && x in m0.cells[c].transitions;
      }
    }
  }

  /** The transitions of one cell after a commit: its old edges and the steps of the walk through it. */
  lemma CommitCellEdges(m0: Maze, w: Wandering, trail: seq<Coordinates>, m: Maze, edges: set<(Coordinates, Coordinates)>,
                        c: Coordinates, d: Coordinates)
    requires Undirected(m0, edges) && NoRepeats(trail) && Recorded(w, trail)
    requires c in m0.cells && c in m.cells && m.cells[c].transitions == m0.cells[c].transitions + Get(w, c)
    requires c in trail ==> c in w
    requires c !in trail ==> forall x :: x in Get(w, c) ==> x in m0.cells[c].transitions
    ensures d in m.cells[c].transitions <==> (c, d) in edges + TrailEdges(trail) || (d, c) in edges + TrailEdges(trail)
  {
    if c in trail {
      var i :| 0 <= i < |trail| && trail[i] == c;
      assert w[c] == TrailLinks(trail, i);
      TrailCellEdges(m0, m, edges, trail, i, d);
    } else {
      OffTrailCellEdges(m0, m, edges, trail, c, d, Get(w, c));
    }
  }

  /** Cell `i` of a committed walk keeps its old edges and gains the steps of the walk through it. */
  lemma TrailCellEdges(m0: Maze, m: Maze, edges: set<(Coordinates, Coordinates)>, trail: seq<Coordinates>, i: nat, d: Coordinates)
    requires Undirected(m0, edges) && i < |trail| && NoRepeats(trail)
    requires trail[i] in m0.cells && trail[i] in m.cells
    requires m.cells[trail[i]].transitions == m0.cells[trail[i]].transitions + TrailLinks(trail, i)
    ensures d in m.cells[trail[i]].transitions <==>
      (trail[i], d) in edges + TrailEdges(trail) || (d, trail[i]) in edges + TrailEdges(trail)
  {
    var c := trail[i];
    assert d in m0.cells[c].transitions <==> (c, d) in edges || (d, c) in edges;
    assert d in m.cells[c].transitions <==> d in m0.cells[c].transitions || d in TrailLinks(trail, i);
    TrailLinksEdges(trail, i, d);
  }

  /** A cell off a committed walk gains only links it already had, so its edges stay the old ones. */
  lemma OffTrailCellEdges(m0: Maze, m: Maze, edges: set<(Coordinates, Coordinates)>, trail: seq<Coordinates>,
                          c: Coordinates, d: Coordinates, appended: seq<Coordinates>)
    requires Undirected(m0, edges) && c !in trail
    requires c in m0.cells && c in m.cells
    requires m.cells[c].transitions == m0.cells[c].transitions + appended
    requires forall x :: x in appended ==> x in m0.cells[c].transitions
    ensures d in m.cells[c].transitions <==> (c, d) in edges + TrailEdges(trail) || (d, c) in edges + TrailEdges(trail)
  {
    assert d in m0.cells[c].transitions <==> (c, d) in edges || (d, c) in edges;
    assert d in m.cells[c].transitions <==> d in m0.cells[c].transitions;
    TrailEdgesOff(trail, c, d);
  }

  /** The old edges join passages: both ends of every transition are no longer unvisited. */
  lemma EdgesVisited(m0: Maze, unvisited0: set<Coordinates>, edges: set<(Coordinates, Coordinates)>)
    requires SettledEdges(m0, unvisited0) && Counted(m0, unvisited0, edges)
    ensures forall e :: e in edges ==> e.0 !in unvisited0 && e.1 !in unvisited0
  {
    forall e | e in edges ensures e.0 !in unvisited0 && e.1 !in unvisited0 {
      assert e.1 in m0.cells[e.0].transitions;
      assert e.0 in m0.cells[e.1].transitions;
    }
  }

  /** A walk's steps all leave unvisited cells, and none is a step back along another. */
  lemma TrailEdgesFresh(unvisited0: set<Coordinates>, trail: seq<Coordinates>)
    requires NoRepeats(trail) && forall i :: 0 <= i < |trail| - 1 ==> trail[i] in unvisited0
    ensures forall e :: e in TrailEdges(trail) ==> e.0 in unvisited0 && e.1 in trail && (e.1, e.0) !in TrailEdges(trail)
  {
    forall e | e in TrailEdges(trail) ensures e.0 in unvisited0 && e.1 in trail && (e.1, e.0) !in TrailEdges(trail) {
      var i := TrailEdgeIndex(trail, e);
      forall f | f in TrailEdges(trail) ensures f != (e.1, e.0) {
        var j := TrailEdgeIndex(trail, f);
        assert f.0 == trail[i + 1] ==> j == i + 1;
      }
    }
  }

  /** Old edges avoid unvisited cells and new ones leave them, so no edge of the union is stored both ways. */
  lemma EdgesOneWay(unvisited0: set<Coordinates>, edges: set<(Coordinates, Coordinates)>, added: set<(Coordinates, Coordinates)>)
    requires forall e :: e in edges ==> (e.1, e.0) !in edges && e.0 !in unvisited0 && e.1 !in unvisited0
    requires forall e :: e in added ==> e.0 in unvisited0 && (e.1, e.0) !in added
    ensures forall e :: e in edges + added ==> (e.1, e.0) !in edges + added
  {
    forall e | e in edges + added ensures (e.1, e.0) !in edges + added {
      if e in edges {
        assert (e.1, e.0).0 !in unvisited0;
      } else {
        assert (e.1, e.0).1 in unvisited0;
      }
    }
  }

  /** The cells a finished walk commits for the first time are the walk without its last cell. */
  lemma CommitNewCells(keys: set<Coordinates>, unvisited0: set<Coordinates>, recorded: set<Coordinates>,
                       trail: seq<Coordinates>, unvisited: set<Coordinates>)
    requires unvisited0 <= keys && unvisited == unvisited0 - recorded
    requires |trail| > 1 && NoRepeats(trail) && trail[|trail| - 1] !in unvisited0
    requires forall i :: 0 <= i < |trail| - 1 ==> trail[i] in unvisited0
    requires forall c :: c in trail ==> c in recorded
    requires forall c :: c in recorded && c in unvisited0 ==> c in trail
    ensures keys - unvisited == (keys - unvisited0) + TrailSet(trail[..|trail| - 1])
    ensures (keys - unvisited0) !! TrailSet(trail[..|trail| - 1])
    ensures |TrailSet(trail[..|trail| - 1])| == |trail| - 1
  {
    var k := |trail| - 1;
    var front := trail[..k];
    assert NoRepeats(front);
    TrailSetCount(front);
    TrailSetMembers(front);
    forall c | c in front ensures c in unvisited0 && c in recorded {
      var i :| 0 <= i < k && front[i] == c;
      assert trail[i] == c;
    }
    forall c | c in recorded && c in unvisited0 ensures c in front {
      var i :| 0 <= i < |trail| && trail[i] == c;
      assert i < k;
      assert front[i] == c;
    }
  }

  /** The record of a walk holds the walk, and its only unvisited cells lie on the walk. */
  lemma WalkRecordCells(m0: Maze, unvisited0: set<Coordinates>, stale: Wandering, w: Wandering, trail: seq<Coordinates>)
    requires StaleOk(m0, unvisited0, stale) && |trail| > 1 && RecordKeys(w, stale, trail)
    ensures forall c :: c in trail ==> c in w.Keys
    ensures forall c :: c in w.Keys && c in unvisited0 ==> c in trail
  {
  }

  /** Committing a finished walk of k steps adds k cells and k edges, so the edge count stays one below the cells. */
  lemma CommitCounted(m0: Maze, unvisited0: set<Coordinates>, stale: Wandering, w: Wandering, trail: seq<Coordinates>,
                      seed: Coordinates, m: Maze, unvisited: set<Coordinates>, edges: set<(Coordinates, Coordinates)>)
    returns (edges2: set<(Coordinates, Coordinates)>)
    requires SettledCells(m0, unvisited0, seed) && SettledEdges(m0, unvisited0) && Counted(m0, unvisited0, edges)
    requires |trail| >= 1 && WalkState(m0, unvisited0, stale, w, trail, trail[0]) && Arrived(unvisited0, w, trail)
    requires Committed(m0, unvisited0, w, m, unvisited)
    ensures Counted(m, unvisited, edges2)
  {
    if w == map[] {
      CommitNothingCounted(m0, unvisited0, w, m, unvisited, edges);
      edges2 := edges;
      assert Counted(m, unvisited, edges2);
    } else {
      edges2 := edges + TrailEdges(trail);
      var k, p0, added := |trail| - 1, m0.cells.Keys - unvisited0, TrailSet(trail[..|trail| - 1]);
      assert |m.cells.Keys - unvisited| == |p0| + k by {
        WalkRecordCells(m0, unvisited0, stale, w, trail);
        CommitNewCells(m0.cells.Keys, unvisited0, w.Keys, trail, unvisited);
        assert |p0 + added| == |p0| + |added|;
      }
      EdgesVisited(m0, unvisited0, edges);
      TrailEdgesFresh(unvisited0, trail);
      assert |edges2| == |edges| + k by {
        TrailEdgesCount(trail);
        assert edges !! TrailEdges(trail);
      }
      CommitUndirected(m0, unvisited0, stale, w, trail, m, unvisited, edges);
      forall e | e in edges2 ensures e.0 in m.cells {
        if e in TrailEdges(trail) {
          var i := TrailEdgeIndex(trail, e);
        }
      }
      EdgesOneWay(unvisited0, edges, TrailEdges(trail));
      assert Undirected(m, edges2);
      assert |edges2| + 1 == |m.cells.Keys - unvisited|;
    }
  }

  /** A finished walk, once committed, keeps both the state between walks and the edge count. */
  lemma WalkCommitted(m0: Maze, unvisited0: set<Coordinates>, stale: Wandering, w: Wandering, trail: seq<Coordinates>,
                      seed: Coordinates, m: Maze, unvisited: set<Coordinates>, edges: set<(Coordinates, Coordinates)>)
    returns (edges2: set<(Coordinates, Coordinates)>)
    requires SettledCells(m0, unvisited0, seed) && SettledEdges(m0, unvisited0) && SettledReach(m0, unvisited0, seed)
    requires Counted(m0, unvisited0, edges)
    requires |trail| >= 1 && WalkState(m0, unvisited0, stale, w, trail, trail[0]) && Arrived(unvisited0, w, trail)
    requires Committed(m0, unvisited0, w, m, unvisited)
    ensures Settled(m, unvisited, w, seed) && Counted(m, unvisited, edges2)
  {
    WalkFinished(m0, unvisited0, stale, w, trail, trail[0]);
    CommitKeeps(m0, unvisited0, w, trail, seed, m, unvisited);
    edges2 := CommitCounted(m0, unvisited0, stale, w, trail, seed, m, unvisited, edges);
  }

  /** With no unvisited cell left, the edges number one fewer than the cells of the grid. */
  lemma CountedDone(m: Maze, edges: set<(Coordinates, Coordinates)>)
    requires Counted(m, {}, edges) && IsGrid(m) && m.height >= 0 && m.width >= 0
    ensures |edges| + 1 == m.height * m.width && Undirected(m, edges)
  {
    GridSize(m.height, m.width);
    assert m.cells.Keys - {} == Grid(m.height, m.width);
  }

  /** The generator: its unvisited cells, its walk record and the maze it builds. */
  class Generator {
    var unvisited: set<Coordinates>
    var wandering: Wandering
    var mz: Maze

    /** A fresh generator: nothing unvisited, nothing recorded. */
    constructor ()
      ensures unvisited == {} && wandering == map[] && mz == EmptyMaze
    {
      unvisited, wandering, mz := {}, map[], EmptyMaze;
    }

    /**
     * Generates a maze of the given size on a fresh generator. On failure the result is the
     * empty maze; on success every cell is a passage, transitions are symmetric and between
     * side-adjacent cells, every cell is reachable from every other, and the transitions form
     * height * width - 1 undirected edges.
     */
    method Generate(rng: Source, height: int, width: int) returns (m: Maze, r: Result<()>)
      requires height > 0 && width > 0
      requires unvisited == {} && wandering == map[]
      modifies this, rng
      ensures r.Err? ==> m == EmptyMaze
      ensures r.Ok? ==> m == mz && unvisited == {} && Spanning(m, height, width)
      ensures r.Ok? ==> exists edges :: |edges| + 1 == height * width && Undirected(m, edges)
    {
      Prepare(height, width);
      r := Wilson(rng);
      if r.Err? {
        return EmptyMaze, r;
      }
      m := mz;
    }

    /** Allocates the grid and marks every one of its cells unvisited. */
    method Prepare(height: int, width: int)
      requires height >= 0 && width >= 0 && unvisited == {}
      modifies this
      ensures mz.height == height && mz.width == width && IsGrid(mz)
      ensures forall c :: c in mz.cells ==> mz.cells[c] == ZeroCell
      ensures unvisited == mz.cells.Keys && wandering == old(wandering)
    {
      mz := New(height, width);
      var rest := mz.cells.Keys;
      while rest != {}
        invariant mz.height == height && mz.width == width && IsGrid(mz)
        invariant forall c :: c in mz.cells ==> mz.cells[c] == ZeroCell
        invariant rest <= mz.cells.Keys && unvisited == mz.cells.Keys - rest
        invariant wandering == old(wandering)
        decreases rest
      {
        var coords :| coords in rest;
        unvisited := unvisited + {coords};
        rest := rest - {coords};
      }
    }

    /** Makes a random cell the first passage, then walks and commits until no cell is unvisited. */
    method Wilson(rng: Source) returns (r: Result<()>)
      requires mz.height > 0 && mz.width > 0 && IsGrid(mz)
      requires forall c :: c in mz.cells ==> mz.cells[c] == ZeroCell
      requires unvisited == mz.cells.Keys && wandering == map[]
      modifies this, rng
      ensures mz.height == old(mz.height) && mz.width == old(mz.width)
      ensures r.Ok? ==> unvisited == {} && Spanning(mz, mz.height, mz.width)
      ensures r.Ok? ==> exists edges :: |edges| + 1 == mz.height * mz.width && Undirected(mz, edges)
    {
      ghost var m0 := mz;
      ghost var seed;
      r, seed := ProcessRandomStartingCoords(rng);
      if r.Err? {
        return;
      }
      SeedSettled(m0, mz, unvisited, seed);
      SeedCounted(m0, mz, unvisited, seed);
      ghost var edges;
      r, edges := WanderAll(rng, seed);
      if r.Err? {
        return;
      }
      SettledDone(mz, wandering, seed, m0.height, m0.width);
      CountedDone(mz, edges);
    }

    /**
     * The outer loop: while a cell is unvisited, walks from one and commits the walk. On success
     * nothing is unvisited, and the state between walks and the edge count still hold.
     */
    method WanderAll(rng: Source, ghost seed: Coordinates) returns (r: Result<()>, ghost edges: set<(Coordinates, Coordinates)>)
      requires Settled(mz, unvisited, wandering, seed) && Counted(mz, unvisited, {}) && IsGrid(mz)
      modifies this, rng
      ensures mz.height == old(mz.height) && mz.width == old(mz.width) && IsGrid(mz)
      ensures r.Ok? ==> unvisited == {} && Settled(mz, unvisited, wandering, seed) && Counted(mz, unvisited, edges)
    {
      ghost var m0 := mz;
      edges := {};
      r := Ok(());
      while |unvisited| > 0
        invariant Settled(mz, unvisited, wandering, seed)
        invariant Counted(mz, unvisited, edges)
        invariant mz.height == m0.height && mz.width == m0.width && mz.cells.Keys == m0.cells.Keys && IsGrid(mz)
        decreases |rng.stream|
      {
        ghost var stale, trail;
        r, stale, trail := RandomlyWander(rng);
        if r.Err? {
          return;
        }
        ghost var m1, u1 := mz, unvisited;
        WalkKeys(m1, u1, stale, wandering, trail, trail[0]);
        r := AddWanderingToMaze(rng);
        if r.Err? {
          return;
        }
        edges := WalkCommitted(m1, u1, stale, wandering, trail, seed, mz, unvisited, edges);
      }
    }

    /** Gives a random cell a passable type and removes it from the unvisited cells. */
    method ProcessRandomStartingCoords(rng: Source) returns (r: Result<()>, ghost seed: Coordinates)
      requires mz.height > 0 && mz.width > 0 && IsGrid(mz)
      modifies this, rng
      ensures wandering == old(wandering)
      ensures mz.height == old(mz.height) && mz.width == old(mz.width) && mz.cells.Keys == old(mz.cells.Keys)
      ensures r.Ok? ==> seed in old(mz.cells) && (mz.cells[seed].kind == LightedPass || mz.cells[seed].kind == Pass)
      ensures r.Ok? ==> mz.cells[seed].transitions == old(mz.cells[seed].transitions)
      ensures r.Ok? ==> forall c :: c in old(mz.cells) && c != seed ==> mz.cells[c] == old(mz.cells[c])
      ensures r.Ok? ==> unvisited == old(unvisited) - {seed}
    {
      var coords := GetRandomCoords(rng, mz.height, mz.width);
      if coords.Err? {
        return Err, Coordinates(0, 0);
      }
      var c := coords.value;
      seed := c;
      var kind := GetRandomSignificantType(rng);
      var t := if kind.Ok? then kind.value else Pass;
      mz := mz.(cells := mz.cells[c := mz.cells[c].(kind := t)]);
      if kind.Err? {
        return Err, seed;
      }
      unvisited := unvisited - {c};
      r := Ok(());
    }

    /**
     * Walks at random from a random unvisited cell until it steps onto the maze. A step onto an
     * unrecorded cell records it; a step onto a recorded cell clears the record and goes back to
     * the first cell. On success `trail` is the walk since its last restart and `stale` the part of
     * the record it started with that is still there.
     */
    method RandomlyWander(rng: Source) returns (r: Result<()>, ghost stale: Wandering, ghost trail: seq<Coordinates>)
      requires IsGrid(mz) && unvisited <= mz.cells.Keys && unvisited != {}
      requires StaleOk(mz, unvisited, wandering)
      modifies this, rng
      ensures mz == old(mz) && unvisited == old(unvisited)
      ensures |rng.stream| <= old(|rng.stream|)
      ensures r.Ok? ==> |rng.stream| < old(|rng.stream|)
      ensures r.Ok? ==> |trail| >= 1 && WalkState(mz, unvisited, stale, wandering, trail, trail[0])
      ensures r.Ok? ==> Arrived(unvisited, wandering, trail)
      ensures r.Ok? ==> stale == old(wandering) || stale == map[]
    {
      stale, trail := wandering, [];
      var start := GetRandomCoordsFrom(rng, unvisited);
      if start.Err? {
        return Err, stale, trail;
      }
      var previous := start.value;
      var notMaze := previous in unvisited;
      trail := [previous];
      WalkBegins(mz, unvisited, wandering, previous);
      while notMaze
        invariant mz == old(mz) && unvisited == old(unvisited)
        invariant WalkState(mz, unvisited, stale, wandering, trail, start.value)
        invariant previous == trail[|trail| - 1]
        invariant notMaze ==> previous in unvisited
        invariant !notMaze ==> Arrived(unvisited, wandering, trail)
        invariant stale == old(wandering) || stale == map[]
        invariant |rng.stream| < old(|rng.stream|)
        decreases |rng.stream|
      {
        var current := GetRandomAdjacentCoords(rng, previous, mz.height, mz.width);
        if current.Err? {
          return Err, stale, trail;
        }
        if current.value !in wandering {
          WalkSteps(mz, unvisited, stale, wandering, trail, start.value, current.value);
          AddCoordsToWandering(current.value, previous);
          trail := trail + [current.value];
          previous := current.value;
        } else {
          previous := ResetWandering(start.value);
          stale, trail := map[], [start.value];
          WalkBegins(mz, unvisited, map[], start.value);
        }
        notMaze := current.value in unvisited;
      }
      r := Ok(());
    }

    /** Records the step from `previous` to `current` at both ends. */
    method AddCoordsToWandering(current: Coordinates, previous: Coordinates)
      modifies this
      ensures wandering == AddLink(old(wandering), current, previous)
      ensures mz == old(mz) && unvisited == old(unvisited)
    {
      if current != previous {
        wandering := wandering[current := Get(wandering, current) + [previous]];
        wandering := wandering[previous := Get(wandering, previous) + [current]];
      }
    }

    /** Clears the record and returns the cell the walk goes back to. */
    method ResetWandering(start: Coordinates) returns (previous: Coordinates)
      modifies this
      ensures wandering == map[] && previous == start
      ensures mz == old(mz) && unvisited == old(unvisited)
    {
      wandering := map[];
      previous := start;
    }

    /**
     * Commits the record: each recorded cell, in any order, gets a random passable type, has its
     * recorded links appended to its transitions and stops being unvisited.
     */
    method AddWanderingToMaze(rng: Source) returns (r: Result<()>)
      requires wandering.Keys <= mz.cells.Keys
      modifies this, rng
      ensures wandering == old(wandering)
      ensures mz.height == old(mz.height) && mz.width == old(mz.width) && mz.cells.Keys == old(mz.cells.Keys)
      ensures |rng.stream| <= old(|rng.stream|)
      ensures r.Ok? ==> Committed(old(mz), old(unvisited), wandering, mz, unvisited)
    {
      var rest := wandering.Keys;
      while rest != {}
        invariant rest <= wandering.Keys && wandering == old(wandering)
        invariant mz.height == old(mz.height) && mz.width == old(mz.width) && mz.cells.Keys == old(mz.cells.Keys)
        invariant forall c :: c in old(mz.cells) && c in wandering && c !in rest ==>
          (mz.cells[c].kind == LightedPass || mz.cells[c].kind == Pass) &&
          mz.cells[c].transitions == old(mz.cells[c].transitions) + wandering[c]
        invariant forall c :: c in old(mz.cells) && (c !in wandering || c in rest) ==> mz.cells[c] == old(mz.cells[c])
        invariant unvisited == old(unvisited) - (wandering.Keys - rest)
        invariant |rng.stream| <= old(|rng.stream|)
        decreases rest
      {
        var coords :| coords in rest;
        var cell := mz.cells[coords];
        assert cell == old(mz.cells[coords]);
        var kind := GetRandomSignificantType(rng);
        var t := if kind.Ok? then kind.value else Pass;
        mz := mz.(cells := mz.cells[coords := cell.(kind := t)]);
        if kind.Err? {
          return Err;
        }
        mz := mz.(cells := mz.cells[coords := Cell(t, cell.transitions + wandering[coords])]);
        unvisited := unvisited - {coords};
        rest := rest - {coords};
      }
      r := Ok(());
    }
  }
}
