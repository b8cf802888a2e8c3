/**
 * The Dijkstra solver: every cell weighs its type, the search pops the cheapest reached
 * cell from a min-heap and gives each neighbour still at INF a distance, a heap item and
 * a predecessor; the path is then read back from the predecessor table.
 */
module DijkstraSearch {
  import opened Cells
  import opened GeneratorUtils
  import opened Mazes
  import opened Heaps
  import opened Predecessors
  import opened PathRestore

  /** The distance of a cell not reached yet: the largest signed 64-bit integer. */
  const INF: int := 0x7fff_ffff_ffff_ffff

  /** No walk from `start` to `c` weighs less than `d`. */
  ghost predicate Optimal(mz: Maze, start: Coordinates, c: Coordinates, d: int)
  {
    forall p :: IsWalkBetween(mz, p, start, c) ==> d <= WalkWeight(mz, p)
  }

  /** Which cells the tables cover and how the cell sets nest. */
  ghost predicate Domains(mz: Maze, end: Coordinates, dist: map<Coordinates, int>, ps: Table,
                          reached: map<Coordinates, nat>, settled: set<Coordinates>, hand: set<Coordinates>)
  {
    && dist.Keys == mz.cells.Keys && ps.Keys == mz.cells.Keys
    && reached.Keys <= mz.cells.Keys
    && settled <= reached.Keys && hand <= reached.Keys && settled !! hand
    && end !in settled
  }

  /** Distances are INF exactly off the reached cells, and otherwise bounded by the discovery number. */
  ghost predicate Distances(mz: Maze, dist: map<Coordinates, int>, reached: map<Coordinates, nat>)
    requires reached.Keys <= dist.Keys
  {
    && (forall v :: v in dist ==> (dist[v] != INF <==> v in reached))
    && (forall v :: v in reached ==> 0 <= dist[v] <= 2 * (reached[v] + 1) && reached[v] < |reached.Keys|)
  }

  /** The predecessors form a tree of transitions rooted at start, each step adding the cell's type. */
  ghost predicate Tree(mz: Maze, start: Coordinates, dist: map<Coordinates, int>, ps: Table,
                       reached: map<Coordinates, nat>, settled: set<Coordinates>, hand: set<Coordinates>)
    requires dist.Keys == mz.cells.Keys && ps.Keys == mz.cells.Keys && reached.Keys <= mz.cells.Keys
    requires settled <= reached.Keys && hand <= reached.Keys
  {
    && start in reached && dist[start] == mz.cells[start].kind && ps[start] == Missing
    && (forall v {:trigger ps[v]} :: v in reached && v != start ==>
          && (ps[v] in settled || ps[v] in hand)
          && v in mz.cells[ps[v]].transitions
          && dist[v] == dist[ps[v]] + mz.cells[v].kind
          && reached[ps[v]] < reached[v])
    && (forall v {:trigger ps[v]} :: v in ps && v !in reached ==> ps[v] == Missing)
  }

  /** The heap holds one item per reached cell not yet popped, carrying its distance. */
  ghost predicate Queue(dist: map<Coordinates, int>, items: multiset<Item>, reached: map<Coordinates, nat>,
                        settled: set<Coordinates>, hand: set<Coordinates>, last: int)
    requires reached.Keys <= dist.Keys
  {
    && (forall it :: it in items ==>
          && it.vertex in reached && it.vertex !in settled && it.vertex !in hand
          && it.weight == dist[it.vertex] && last <= it.weight && items[it] == 1)
    && (forall v :: v in reached && v !in settled && v !in hand ==> Item(v, dist[v]) in items)
  }

  /** Popped cells weigh no more than the latest pop and their neighbours are reached and relaxed. */
  ghost predicate Frontier(mz: Maze, start: Coordinates, dist: map<Coordinates, int>, reached: map<Coordinates, nat>,
                           settled: set<Coordinates>, hand: set<Coordinates>, last: int)
    requires dist.Keys == mz.cells.Keys && reached.Keys <= mz.cells.Keys
    requires settled <= reached.Keys && hand <= reached.Keys
  {
    && (forall e :: e in settled ==> dist[e] <= last)
    && (forall h :: h in hand ==> dist[h] == last)
    && (forall e {:trigger Relaxed(mz, dist, reached, dist[e], mz.cells[e].transitions, |mz.cells[e].transitions|)} ::
          e in settled ==> Relaxed(mz, dist, reached, dist[e], mz.cells[e].transitions, |mz.cells[e].transitions|))
  }

  /**
   * The state of the search between steps. `reached` holds the cells whose distance is no
   * longer INF, numbered in the order they were reached; `settled` the cells popped and
   * expanded; `hand` the cell popped and being expanded, if any; `last` the weight of the
   * latest pop; `items` the contents of the heap.
   */
  ghost predicate Search(mz: Maze, start: Coordinates, end: Coordinates, dist: map<Coordinates, int>,
                         ps: Table, items: multiset<Item>, reached: map<Coordinates, nat>,
                         settled: set<Coordinates>, hand: set<Coordinates>, last: int)
  {
    && Domains(mz, end, dist, ps, reached, settled, hand)
    && Distances(mz, dist, reached)
    && Tree(mz, start, dist, ps, reached, settled, hand)
    && Queue(dist, items, reached, settled, hand, last)
    && Frontier(mz, start, dist, reached, settled, hand, last)
  }

  /** The first `i` transitions of the cell in hand have been looked at. */
  ghost predicate Relaxed(mz: Maze, dist: map<Coordinates, int>, reached: map<Coordinates, nat>,
                          du: int, ts: seq<Coordinates>, i: nat)
    requires i <= |ts| && reached.Keys <= dist.Keys && reached.Keys <= mz.cells.Keys
  {
    forall m :: 0 <= m < i && ts[m] in mz.cells ==> ts[m] in reached && dist[ts[m]] <= du + mz.cells[ts[m]].kind
  }

  /** Once the heap is empty, every reached cell has been settled. */
  lemma Drained(mz: Maze, start: Coordinates, end: Coordinates, dist: map<Coordinates, int>, ps: Table,
                reached: map<Coordinates, nat>, settled: set<Coordinates>, last: int)
    requires Search(mz, start, end, dist, ps, multiset{}, reached, settled, {}, last)
    ensures reached.Keys == settled
  {
    forall v | v in reached
      ensures v in settled
    {
      assert Item(v, dist[v]) !in multiset{};
    }
  }

  /** The first cell of `p` outside `s`, when its last one is. */
  lemma FirstOutside(p: seq<Coordinates>, s: set<Coordinates>) returns (i: nat)
    requires |p| > 0 && p[|p| - 1] !in s
    ensures i < |p| && p[i] !in s && forall j :: 0 <= j < i ==> p[j] in s
  {
    i := 0;
    while p[i] in s
      invariant i < |p| && forall j :: 0 <= j < i ==> p[j] in s
      decreases |p| - i
    {
      i := i + 1;
    }
  }

  /** The state right after the search seeds the heap with the start cell. */
  lemma InitSearch(mz: Maze, start: Coordinates, end: Coordinates, dist0: map<Coordinates, int>, ps: Table, w: int)
    requires HasMazeTypes(mz) && start in mz.cells && w == mz.cells[start].kind
    requires dist0.Keys == mz.cells.Keys && forall v :: v in dist0 ==> dist0[v] == INF
    requires ps.Keys == mz.cells.Keys && forall v :: v in ps ==> ps[v] == Missing
    ensures Search(mz, start, end, dist0[start := w], ps, multiset{Item(start, w)}, map[start := 0], {}, {}, 0)
  {
    var reached := map[start := 0];
    assert reached.Keys == {start};
  }

  /** Every neighbour of a settled cell is reached, at most the settled cell's distance plus its type away. */
  lemma SettledClosure(mz: Maze, start: Coordinates, dist: map<Coordinates, int>, reached: map<Coordinates, nat>,
                       settled: set<Coordinates>, hand: set<Coordinates>, last: int)
    requires dist.Keys == mz.cells.Keys && reached.Keys <= mz.cells.Keys
    requires settled <= reached.Keys && hand <= reached.Keys
    requires Frontier(mz, start, dist, reached, settled, hand, last)
    ensures forall e, t :: e in settled && t in mz.cells[e].transitions && t in mz.cells ==>
              t in reached && dist[t] <= dist[e] + mz.cells[t].kind
  {
    forall e, t | e in settled && t in mz.cells[e].transitions && t in mz.cells
      ensures t in reached && dist[t] <= dist[e] + mz.cells[t].kind
    {
      var ts := mz.cells[e].transitions;
      var m :| 0 <= m < |ts| && ts[m] == t;
      assert Relaxed(mz, dist, reached, dist[e], ts, |ts|);
    }
  }

  /**
   * A walk from start that stays among the settled cells until its last step weighs at least
   * the distance of its last cell: each settled cell has relaxed its neighbours.
   */
  lemma {:induction false} SettledWalk(mz: Maze, start: Coordinates, dist: map<Coordinates, int>,
                                       reached: set<Coordinates>, settled: set<Coordinates>, p: seq<Coordinates>)
    requires dist.Keys == mz.cells.Keys && settled <= mz.cells.Keys
    requires start in reached && start in dist && dist[start] == mz.cells[start].kind
    requires forall e, t :: e in settled && t in mz.cells[e].transitions && t in mz.cells ==>
               t in reached && dist[t] <= dist[e] + mz.cells[t].kind
    requires IsWalk(mz, p) && p[0] == start
    requires forall j :: 0 <= j < |p| - 1 ==> p[j] in settled
    ensures p[|p| - 1] in reached && dist[p[|p| - 1]] <= WalkWeight(mz, p)
    decreases |p|
  {
    if |p| == 1 {
      assert p[..0] == [];
    } else {
      var q := p[..|p| - 1];
      assert IsWalk(mz, q);
      SettledWalk(mz, start, dist, reached, settled, q);
      assert p[|p| - 1] in mz.cells[q[|q| - 1]].transitions;
    }
  }

  /**
   * The distance of a cell outside the settled ones, no heavier than any reached cell outside
   * them, is optimal: every walk to it leaves the settled cells through some reached cell.
   */
  lemma PopOptimal(mz: Maze, start: Coordinates, dist: map<Coordinates, int>, reached: set<Coordinates>,
                   settled: set<Coordinates>, u: Coordinates, du: int)
    requires HasMazeTypes(mz) && dist.Keys == mz.cells.Keys && settled <= mz.cells.Keys
    requires start in reached && start in dist && dist[start] == mz.cells[start].kind
    requires forall v :: v in reached && v !in settled && v in dist ==> du <= dist[v]
    requires forall e, t :: e in settled && t in mz.cells[e].transitions && t in mz.cells ==>
               t in reached && dist[t] <= dist[e] + mz.cells[t].kind
    requires u !in settled
    ensures Optimal(mz, start, u, du)
  {
    forall p | IsWalkBetween(mz, p, start, u) ensures du <= WalkWeight(mz, p) {
      var i := FirstOutside(p, settled);
      var q := p[..i + 1];
      assert IsWalk(mz, q);
      SettledWalk(mz, start, dist, reached, settled, q);
      WalkWeightMonotone(mz, p, i + 1);
    }
  }

  /** Popping the lightest item leaves one item for every other reached cell not yet popped. */
  lemma PopQueue(dist: map<Coordinates, int>, items: multiset<Item>, reached: map<Coordinates, nat>,
                 settled: set<Coordinates>, last: int, item: Item)
    requires reached.Keys <= dist.Keys && Queue(dist, items, reached, settled, {}, last)
    requires item in items && forall x :: x in items ==> item.weight <= x.weight
    ensures Queue(dist, items - multiset{item}, reached, settled, {item.vertex}, item.weight)
  {
    var rest := items - multiset{item};
    forall it | it in rest
      ensures it.vertex != item.vertex && item.weight <= it.weight && rest[it] == 1
    {
      assert it in items;
    }
  }

  /**
   * Popping the lightest item: its cell goes in hand and its distance is optimal, because
   * every walk to it leaves the settled cells through some reached cell no lighter than it.
   */
  lemma PopStep(mz: Maze, start: Coordinates, end: Coordinates, dist: map<Coordinates, int>, ps: Table,
                items: multiset<Item>, reached: map<Coordinates, nat>, settled: set<Coordinates>, last: int,
                item: Item)
    requires HasMazeTypes(mz)
    requires Search(mz, start, end, dist, ps, items, reached, settled, {}, last)
    requires item in items && forall x :: x in items ==> item.weight <= x.weight
    ensures item.vertex in reached && item.vertex !in settled && dist[item.vertex] == item.weight
    ensures Search(mz, start, end, dist, ps, items - multiset{item}, reached, settled, {item.vertex}, item.weight)
    ensures Optimal(mz, start, item.vertex, item.weight)
  {
    forall v | v in reached && v !in settled && v in dist ensures item.weight <= dist[v] {
      assert Item(v, dist[v]) in items;
    }
    SettledClosure(mz, start, dist, reached, settled, {}, last);
    PopOptimal(mz, start, dist, reached.Keys, settled, item.vertex, item.weight);
    PopQueue(dist, items, reached, settled, last, item);
  }

  /** Reaching a cell of the grid keeps the tables over the grid. */
  lemma DiscoverDomains(mz: Maze, end: Coordinates, dist: map<Coordinates, int>, ps: Table,
                        reached: map<Coordinates, nat>, settled: set<Coordinates>, u: Coordinates, v: Coordinates, d: int)
    requires Domains(mz, end, dist, ps, reached, settled, {u}) && v in dist
    ensures Domains(mz, end, dist[v := d], ps[v := u], reached[v := |reached.Keys|], settled, {u})
  {
  }

  /** Reaching a neighbour keeps distances INF exactly off the reached cells, and bounded. */
  lemma DiscoverDistances(mz: Maze, dist: map<Coordinates, int>, reached: map<Coordinates, nat>,
                          u: Coordinates, v: Coordinates, d: int)
    requires HasMazeTypes(mz) && 2 * |mz.cells.Keys| < INF
    requires dist.Keys == mz.cells.Keys && reached.Keys <= mz.cells.Keys && Distances(mz, dist, reached)
    requires u in reached && v in dist && dist[v] == INF && d == dist[u] + mz.cells[v].kind
    ensures Distances(mz, dist[v := d], reached[v := |reached.Keys|])
  {
    var reached' := reached[v := |reached.Keys|];
    assert reached'.Keys == reached.Keys + {v};
    assert |reached'.Keys| == |reached.Keys| + 1;
    SubsetSize(reached'.Keys, mz.cells.Keys);
  }

  /** Reaching a neighbour of the cell in hand hangs it below that cell in the tree. */
  lemma DiscoverTree(mz: Maze, start: Coordinates, end: Coordinates, dist: map<Coordinates, int>, ps: Table,
                     reached: map<Coordinates, nat>, settled: set<Coordinates>, u: Coordinates, v: Coordinates, d: int)
    requires Domains(mz, end, dist, ps, reached, settled, {u})
    requires Distances(mz, dist, reached) && Tree(mz, start, dist, ps, reached, settled, {u})
    requires v in dist && dist[v] == INF && v in mz.cells[u].transitions && d == dist[u] + mz.cells[v].kind
    ensures Tree(mz, start, dist[v := d], ps[v := u], reached[v := |reached.Keys|], settled, {u})
  {
  }

  /** Reaching a neighbour adds its only item to the heap. */
  lemma DiscoverQueue(dist: map<Coordinates, int>, items: multiset<Item>, reached: map<Coordinates, nat>,
                      settled: set<Coordinates>, u: Coordinates, last: int, v: Coordinates, d: int)
    requires reached.Keys <= dist.Keys && Queue(dist, items, reached, settled, {u}, last)
    requires v in dist && v !in reached && v != u && v !in settled && last <= d
    ensures Queue(dist[v := d], items + multiset{Item(v, d)}, reached[v := |reached.Keys|], settled, {u}, last)
  {
    var items' := items + multiset{Item(v, d)};
    forall it | it in items' ensures items'[it] == 1 {
      if it != Item(v, d) {
        assert it.vertex in reached;
      }
    }
  }

  /** Reaching a cell changes no distance of a reached cell. */
  lemma DiscoverFrontier(mz: Maze, start: Coordinates, dist: map<Coordinates, int>, reached: map<Coordinates, nat>,
                         settled: set<Coordinates>, u: Coordinates, last: int, v: Coordinates, d: int,
                         ts: seq<Coordinates>, i: nat)
    requires dist.Keys == mz.cells.Keys && reached.Keys <= mz.cells.Keys && settled <= reached.Keys && u in reached
    requires Frontier(mz, start, dist, reached, settled, {u}, last)
    requires i < |ts| && Relaxed(mz, dist, reached, last, ts, i)
    requires v == ts[i] && v in dist && v !in reached && d == last + mz.cells[v].kind
    ensures Frontier(mz, start, dist[v := d], reached[v := |reached.Keys|], settled, {u}, last)
    ensures Relaxed(mz, dist[v := d], reached[v := |reached.Keys|], last, ts, i + 1)
  {
    var dist', reached' := dist[v := d], reached[v := |reached.Keys|];
    forall e | e in settled
      ensures Relaxed(mz, dist', reached', dist'[e], mz.cells[e].transitions, |mz.cells[e].transitions|)
    {
      var es := mz.cells[e].transitions;
      assert Relaxed(mz, dist, reached, dist[e], es, |es|);
      assert dist'[e] == dist[e];
    }
  }

  /** Looking at a neighbour of the cell in hand whose distance is INF reaches it. */
  lemma Discover(mz: Maze, start: Coordinates, end: Coordinates, dist: map<Coordinates, int>, ps: Table,
                 items: multiset<Item>, reached: map<Coordinates, nat>, settled: set<Coordinates>,
                 u: Coordinates, last: int, ts: seq<Coordinates>, i: nat, v: Coordinates, d: int)
    requires HasMazeTypes(mz) && 2 * |mz.cells.Keys| < INF
    requires Search(mz, start, end, dist, ps, items, reached, settled, {u}, last)
    requires ts == mz.cells[u].transitions && i < |ts| && Relaxed(mz, dist, reached, last, ts, i)
    requires v == ts[i] && v in dist && dist[v] == INF && d == dist[u] + mz.cells[v].kind
    ensures Search(mz, start, end, dist[v := d], ps[v := u], items + multiset{Item(v, d)},
                   reached[v := |reached.Keys|], settled, {u}, last)
    ensures Relaxed(mz, dist[v := d], reached[v := |reached.Keys|], last, ts, i + 1)
  {
    DiscoverDomains(mz, end, dist, ps, reached, settled, u, v, d);
    DiscoverDistances(mz, dist, reached, u, v, d);
    DiscoverTree(mz, start, end, dist, ps, reached, settled, u, v, d);
    DiscoverQueue(dist, items, reached, settled, u, last, v, d);
    DiscoverFrontier(mz, start, dist, reached, settled, u, last, v, d, ts, i);
  }

  /** Looking at a neighbour that is already reached (or outside the grid) changes nothing. */
  lemma SkipReached(mz: Maze, start: Coordinates, end: Coordinates, dist: map<Coordinates, int>, ps: Table,
             items: multiset<Item>, reached: map<Coordinates, nat>, settled: set<Coordinates>,
             u: Coordinates, last: int, ts: seq<Coordinates>, i: nat)
    requires HasMazeTypes(mz)
    requires Search(mz, start, end, dist, ps, items, reached, settled, {u}, last)
    requires ts == mz.cells[u].transitions && i < |ts| && Relaxed(mz, dist, reached, last, ts, i)
    requires ts[i] !in dist || dist[ts[i]] != INF
    ensures Relaxed(mz, dist, reached, last, ts, i + 1)
  {
    var v := ts[i];
    if v in mz.cells {
      ReachedWithin(mz, start, end, dist, ps, items, reached, settled, u, last, v);
    }
  }

  /** A reached neighbour of the cell in hand is no further than one step beyond it. */
  lemma ReachedWithin(mz: Maze, start: Coordinates, end: Coordinates, dist: map<Coordinates, int>, ps: Table,
                      items: multiset<Item>, reached: map<Coordinates, nat>, settled: set<Coordinates>,
                      u: Coordinates, last: int, v: Coordinates)
    requires HasMazeTypes(mz)
    requires Search(mz, start, end, dist, ps, items, reached, settled, {u}, last)
    requires v in mz.cells && v in mz.cells[u].transitions && dist[v] != INF
    ensures v in reached && dist[v] <= last + mz.cells[v].kind
  {
    assert v in reached;
    if v != start {
      var p := ps[v];
      assert p in settled || p == u;
      assert dist[p] <= last;
    } else {
      assert u in reached && dist[u] == last;
    }
  }

  /** Once all its neighbours are looked at, the cell in hand joins the settled cells. */
  lemma Settle(mz: Maze, start: Coordinates, end: Coordinates, dist: map<Coordinates, int>, ps: Table,
               items: multiset<Item>, reached: map<Coordinates, nat>, settled: set<Coordinates>,
               u: Coordinates, last: int)
    requires Search(mz, start, end, dist, ps, items, reached, settled, {u}, last) && u != end
    requires Relaxed(mz, dist, reached, last, mz.cells[u].transitions, |mz.cells[u].transitions|)
    ensures Search(mz, start, end, dist, ps, items, reached, settled + {u}, {}, last)
    ensures mz.cells.Keys - (settled + {u}) < mz.cells.Keys - settled
  {
    assert dist[u] == last;
  }

  /** A subset is no larger than its superset. */
  lemma {:induction false} SubsetSize<T>(a: set<T>, b: set<T>)
    requires a <= b
    ensures |a| <= |b|
    decreases |a|
  {
    if a != {} {
      var x :| x in a;
      SubsetSize(a - {x}, b - {x});
    }
  }

  /** Following tree steps from start, each adding the entered cell's type, is a walk weighing the distance of its end. */
  lemma TreeWalk(mz: Maze, dist: map<Coordinates, int>, start: Coordinates, path: seq<Coordinates>)
    requires |path| > 0
    requires forall i :: 0 <= i < |path| ==> path[i] in mz.cells && path[i] in dist
    requires path[0] == start && dist[start] == mz.cells[start].kind
    requires forall i :: 0 < i < |path| ==>
               path[i] in mz.cells[path[i - 1]].transitions && dist[path[i]] == dist[path[i - 1]] + mz.cells[path[i]].kind
    ensures IsWalk(mz, path) && WalkWeight(mz, path) == dist[path[|path| - 1]]
  {
    TreeWeight(mz, dist, path);
    forall i | 0 <= i < |path| - 1 ensures path[i + 1] in mz.cells[path[i]].transitions {
      assert path[(i + 1) - 1] == path[i];
    }
  }

  /** The weight part of TreeWalk, by induction on the length of the path. */
  lemma {:induction false} TreeWeight(mz: Maze, dist: map<Coordinates, int>, path: seq<Coordinates>)
    requires |path| > 0
    requires forall i :: 0 <= i < |path| ==> path[i] in mz.cells && path[i] in dist
    requires dist[path[0]] == mz.cells[path[0]].kind
    requires forall i :: 0 < i < |path| ==> dist[path[i]] == dist[path[i - 1]] + mz.cells[path[i]].kind
    ensures WalkWeight(mz, path) == dist[path[|path| - 1]]
    decreases |path|
  {
    if |path| == 1 {
      assert path[..0] == [];
    } else {
      var q := path[..|path| - 1];
      assert forall i :: 0 <= i < |q| ==> q[i] == path[i];
      TreeWeight(mz, dist, q);
    }
  }

  /** A reached cell other than start is entered from its predecessor, adding its type. */
  lemma TreeStep(mz: Maze, start: Coordinates, dist: map<Coordinates, int>, ps: Table,
                 reached: map<Coordinates, nat>, settled: set<Coordinates>, hand: set<Coordinates>,
                 v: Coordinates, u: Coordinates)
    requires dist.Keys == mz.cells.Keys && ps.Keys == mz.cells.Keys && reached.Keys <= mz.cells.Keys
    requires settled <= reached.Keys && hand <= reached.Keys && Tree(mz, start, dist, ps, reached, settled, hand)
    requires v in reached && v != start && Lookup(ps, v) == u
    ensures u in mz.cells && v in mz.cells[u].transitions && dist[v] == dist[u] + mz.cells[v].kind
  {
    assert ps[v] == u;
  }

  /** A path of reached cells from start, each entered from its predecessor, is a walk weighing the distance of its end. */
  lemma TreePath(mz: Maze, start: Coordinates, dist: map<Coordinates, int>, ps: Table,
                 reached: map<Coordinates, nat>, settled: set<Coordinates>, hand: set<Coordinates>,
                 path: seq<Coordinates>)
    requires dist.Keys == mz.cells.Keys && ps.Keys == mz.cells.Keys && reached.Keys <= mz.cells.Keys
    requires settled <= reached.Keys && hand <= reached.Keys && Tree(mz, start, dist, ps, reached, settled, hand)
    requires |path| > 0 && path[0] == start && forall i :: 0 < i < |path| ==> path[i] != start
    requires forall i :: 0 <= i < |path| ==> path[i] in reached
    requires forall i :: 0 <= i < |path| - 1 ==> Lookup(ps, path[i + 1]) == path[i]
    ensures IsWalk(mz, path) && WalkWeight(mz, path) == dist[path[|path| - 1]]
  {
    forall i | 0 < i < |path|
      ensures path[i] in mz.cells[path[i - 1]].transitions && dist[path[i]] == dist[path[i - 1]] + mz.cells[path[i]].kind
    {
      TreeStep(mz, start, dist, ps, reached, settled, hand, path[i], path[i - 1]);
    }
    TreeWalk(mz, dist, start, path);
  }

  /** Walking back from a reached cell through the predecessors ends, past start, on the sentinel. */
  lemma ReachedChain(mz: Maze, start: Coordinates, end: Coordinates, dist: map<Coordinates, int>, ps: Table,
                     items: multiset<Item>, reached: map<Coordinates, nat>, settled: set<Coordinates>,
                     hand: set<Coordinates>, last: int) returns (k: nat)
    requires IsGrid(mz) && Search(mz, start, end, dist, ps, items, reached, settled, hand, last)
    requires end in reached
    ensures k > 0 && FirstHit(ps, end, Missing, k)
    ensures forall j :: 0 <= j < k ==> Back(ps, end, j) in reached
    ensures start != end ==> PassesThrough(ps, start, end, k)
  {
    MissingIsOutside(mz.height, mz.width);
    forall v | v in reached.Keys
      ensures Lookup(ps, v) == Missing || (Lookup(ps, v) in reached.Keys && reached[Lookup(ps, v)] < reached[v])
      ensures v != start ==> Lookup(ps, v) != Missing
    {
      if v != start {
        assert ps[v] in settled || ps[v] in hand;
      }
    }
    k := ChainToMissing(ps, reached.Keys, reached, end);
    assert Lookup(ps, Back(ps, end, k - 1)) == Missing;
  }

  /**
   * Where the walk back from end along the predecessors stops: at the sentinel, after `k`
   * steps. If end was popped and is not start, that walk passes through start and spells a
   * shortest walk from start to end; if the heap ran dry, end cannot be reached at all.
   */
  lemma Finish(mz: Maze, start: Coordinates, end: Coordinates, dist: map<Coordinates, int>, ps: Table,
               items: multiset<Item>, reached: map<Coordinates, nat>, settled: set<Coordinates>, last: int,
               found: bool) returns (k: nat)
    requires IsGrid(mz) && end in mz.cells
    requires Search(mz, start, end, dist, ps, items, reached, settled, if found then {end} else {}, last)
    requires found ==> Optimal(mz, start, end, last)
    requires !found ==> reached.Keys == settled
    ensures Lookup(ps, start) == Missing != start && FirstHit(ps, end, Missing, k)
    ensures found && start != end ==> PassesThrough(ps, start, end, k)
    ensures found && start != end ==> IsShortestWalk(mz, ReadBack(ps, end, k), start, end)
    ensures !found ==> !PassesThrough(ps, start, end, k) && !Reachable(mz, start, end)
  {
    MissingIsOutside(mz.height, mz.width);
    if found {
      k := ReachedChain(mz, start, end, dist, ps, items, reached, settled, {end}, last);
      if start != end {
        ReadBackShape(ps, start, end, k);
        PoppedPath(mz, start, end, dist, ps, reached, settled, last, k, ReadBack(ps, end, k));
      }
    } else {
      k := 1;
      assert Lookup(ps, end) == ps[end] == Missing;
      DrainedChain(mz, start, end, dist, ps, reached, settled, last);
    }
  }

  /** The case of Finish where the heap ran dry: a one-step walk back to the sentinel. */
  lemma DrainedChain(mz: Maze, start: Coordinates, end: Coordinates, dist: map<Coordinates, int>, ps: Table,
                     reached: map<Coordinates, nat>, settled: set<Coordinates>, last: int)
    requires IsGrid(mz) && end in mz.cells
    requires dist.Keys == mz.cells.Keys && reached.Keys == settled <= mz.cells.Keys
    requires start in settled && end !in settled && Lookup(ps, start) == Missing && Lookup(ps, end) == Missing
    requires Frontier(mz, start, dist, reached, settled, {}, last)
    ensures FirstHit(ps, end, Lookup(ps, start), 1) && !PassesThrough(ps, start, end, 1)
    ensures !Reachable(mz, start, end)
  {
    MissingIsOutside(mz.height, mz.width);
    assert Back(ps, end, 1) == Lookup(ps, end) == Missing;
    SettledClosure(mz, start, dist, reached, settled, {}, last);
    ClosedSetUnreachable(mz, settled, start, end);
  }

  /**
   * When end was popped, the path read back from the predecessors is a walk from start to end
   * no heavier than any other.
   */
  lemma PoppedPath(mz: Maze, start: Coordinates, end: Coordinates, dist: map<Coordinates, int>, ps: Table,
                   reached: map<Coordinates, nat>, settled: set<Coordinates>, last: int,
                   k: nat, path: seq<Coordinates>)
    requires dist.Keys == mz.cells.Keys && ps.Keys == mz.cells.Keys && reached.Keys <= mz.cells.Keys
    requires settled <= reached.Keys && end in reached && Tree(mz, start, dist, ps, reached, settled, {end})
    requires dist[end] == last && Optimal(mz, start, end, last)
    requires forall j :: 0 <= j < k ==> Back(ps, end, j) in reached
    requires |path| == k && forall i :: 0 <= i < k ==> path[i] == Back(ps, end, k - 1 - i)
    requires |path| >= 2 && path[0] == start && path[|path| - 1] == end && NoRepeats(path)
    requires forall i :: 0 <= i < |path| - 1 ==> Lookup(ps, path[i + 1]) == path[i]
    ensures IsShortestWalk(mz, path, start, end)
  {
    forall i | 0 <= i < |path|
      ensures path[i] in reached
    {
      assert path[i] == Back(ps, end, k - 1 - i);
    }
    TreePath(mz, start, dist, ps, reached, settled, {end}, path);
  }
}

/** The solver object: the distances, the heap and the predecessor table it fills in. */
module Dijkstra {
  import opened Cells
  import opened GeneratorUtils
  import opened Mazes
  import opened Heaps
  import opened Predecessors
  import opened PathRestore
  import opened DijkstraSearch

  class Solver {
    var dist: map<Coordinates, int>
    var heap: Heap
    var predecessors: Table

    /** A solver with no distances and an empty heap. */
    constructor ()
      ensures dist == map[] && fresh(heap) && heap.items == []
    {
      dist := map[];
      heap := new Heap();
      predecessors := map[];
    }

    /**
     * The shortest path from start to end: empty when start is end or end cannot be reached,
     * otherwise a walk from start to end that visits no cell twice and whose weight (the sum
     * of its cells' types) is no more than that of any other walk from start to end.
     */
    method Solve(mz: Maze, start: Coordinates, end: Coordinates) returns (path: seq<Coordinates>)
      requires dist == map[] && heap.items == []
      requires IsGrid(mz) && HasMazeTypes(mz) && start in mz.cells && end in mz.cells
      requires 2 * |mz.cells.Keys| < INF
      modifies this, heap
      ensures path == [] <==> start == end || !Reachable(mz, start, end)
      ensures path != [] ==> IsShortestWalk(mz, path, start, end) && NoRepeats(path)
    {
      Prepare(mz.height, mz.width);
      assert dist.Keys == mz.cells.Keys;
      assert predecessors.Keys == mz.cells.Keys;
      ghost var found, k := Run(mz, start, end);
      path := RestorePath(start, end, predecessors, k);
      if found && start == end {
        assert IsWalkBetween(mz, [start], start, end);
      }
    }

    /** Sets the distance of every cell of the grid to INF and gives it the sentinel predecessor. */
    method Prepare(height: int, width: int)
      modifies this
      ensures heap == old(heap)
      ensures forall c :: c in dist <==> c in old(dist) || IsInside(c, height, width)
      ensures forall c :: c in dist ==> dist[c] == if IsInside(c, height, width) then INF else old(dist)[c]
      ensures forall c :: c in predecessors <==> IsInside(c, height, width)
      ensures forall c :: c in predecessors ==> predecessors[c] == Missing
    {
      var y := 0;
      while y < height
        invariant y <= height || y == 0
        invariant heap == old(heap)
        invariant forall c :: c in dist <==> c in old(dist) || (0 <= c.x < width && 0 <= c.y < y)
        invariant forall c :: c in dist ==> dist[c] == if 0 <= c.x < width && 0 <= c.y < y then INF else old(dist)[c]
      {
        var x := 0;
        while x < width
          invariant x <= width || x == 0
          invariant heap == old(heap)
          invariant forall c :: c in dist <==> c in old(dist) || (0 <= c.x < width && 0 <= c.y < y) || (c.y == y && 0 <= c.x < x)
          invariant forall c :: c in dist ==>
                      dist[c] == if (0 <= c.x < width && 0 <= c.y < y) || (c.y == y && 0 <= c.x < x) then INF else old(dist)[c]
        {
          dist := dist[Coordinates(x, y) := INF];
          x := x + 1;
        }
        y := y + 1;
      }
      predecessors := NewPredecessors(height, width);
    }

    /**
     * The search: seed the heap with start at its own type, then pop the lightest cell until
     * the heap runs dry or end is popped, giving every neighbour still at INF the popped
     * cell's distance plus its own type, a heap item and the popped cell as predecessor.
     * `found` tells whether end was popped.
     */
    method Run(mz: Maze, start: Coordinates, end: Coordinates) returns (ghost found: bool, ghost k: nat)
      requires IsGrid(mz) && HasMazeTypes(mz) && start in mz.cells && end in mz.cells && 2 * |mz.cells.Keys| < INF
      requires dist.Keys == mz.cells.Keys && forall v :: v in dist ==> dist[v] == INF
      requires predecessors.Keys == mz.cells.Keys && forall v :: v in predecessors ==> predecessors[v] == Missing
      requires heap.items == []
      modifies this, heap
      ensures heap == old(heap)
      ensures Lookup(predecessors, start) == Missing != start && FirstHit(predecessors, end, Missing, k)
      ensures found && start != end ==> PassesThrough(predecessors, start, end, k)
      ensures found && start != end ==> IsShortestWalk(mz, ReadBack(predecessors, end, k), start, end)
      ensures !found ==> !PassesThrough(predecessors, start, end, k) && !Reachable(mz, start, end)
    {
      var ds, ps;
      ds, ps, found, k := Explore(mz, start, end, heap, dist, predecessors);
      dist, predecessors := ds, ps;
    }

    /** The loop of Run, on the distance and predecessor maps as values and on the heap object `h`. */
    method Explore(mz: Maze, start: Coordinates, end: Coordinates, h: Heap, ds0: map<Coordinates, int>, ps0: Table)
        returns (ds: map<Coordinates, int>, ps: Table, ghost found: bool, ghost k: nat)
      requires IsGrid(mz) && HasMazeTypes(mz) && start in mz.cells && end in mz.cells && 2 * |mz.cells.Keys| < INF
      requires ds0.Keys == mz.cells.Keys && forall v :: v in ds0 ==> ds0[v] == INF
      requires ps0.Keys == mz.cells.Keys && forall v :: v in ps0 ==> ps0[v] == Missing
      requires h.items == []
      modifies h
      ensures Lookup(ps, start) == Missing != start && FirstHit(ps, end, Missing, k)
      ensures found && start != end ==> PassesThrough(ps, start, end, k)
      ensures found && start != end ==> IsShortestWalk(mz, ReadBack(ps, end, k), start, end)
      ensures !found ==> !PassesThrough(ps, start, end, k) && !Reachable(mz, start, end)
    {
      ds, ps := ds0, ps0;
      var weight := mz.cells[start].kind;
      InitSearch(mz, start, end, ds, ps, weight);
      ds := ds[start := weight];
      h.Push(Item(start, weight));
      ghost var items := multiset{Item(start, weight)};
      ghost var reached, settled, last := map[start := 0], {}, 0;
      var popped := false;
      while h.Len() != 0
        invariant !popped && h.Valid() && multiset(h.items) == items
        invariant Search(mz, start, end, ds, ps, items, reached, settled, {}, last)
        decreases mz.cells.Keys - settled
      {
        ds, ps, items, reached, settled, last, popped := Step(mz, start, end, h, ds, ps, items, reached, settled, last);
        if popped {
          break;
        }
      }
      if !popped {
        Drained(mz, start, end, ds, ps, reached, settled, last);
      }
      found := popped;
      k := Finish(mz, start, end, ds, ps, items, reached, settled, last, found);
    }

    /**
     * One turn of the loop of Run: pop the lightest item; stop if it is end, otherwise expand it.
     * `found` tells whether end was popped.
     */
    method Step(mz: Maze, start: Coordinates, end: Coordinates, h: Heap, ds0: map<Coordinates, int>, ps0: Table,
                ghost items0: multiset<Item>, ghost reached0: map<Coordinates, nat>, ghost settled0: set<Coordinates>,
                ghost last0: int)
        returns (ds: map<Coordinates, int>, ps: Table, ghost items: multiset<Item>, ghost reached: map<Coordinates, nat>,
                 ghost settled: set<Coordinates>, ghost last: int, found: bool)
      requires HasMazeTypes(mz) && 2 * |mz.cells.Keys| < INF
      requires h.Valid() && multiset(h.items) == items0 && |h.items| > 0
      requires Search(mz, start, end, ds0, ps0, items0, reached0, settled0, {}, last0)
      modifies h
      ensures h.Valid() && multiset(h.items) == items
      ensures Search(mz, start, end, ds, ps, items, reached, settled, if found then {end} else {}, last)
      ensures found ==> Optimal(mz, start, end, last)
      ensures !found ==> mz.cells.Keys - settled < mz.cells.Keys - settled0
    {
      var item := h.Pop();
      PopStep(mz, start, end, ds0, ps0, items0, reached0, settled0, last0, item);
      ds, ps, items, reached, settled := ds0, ps0, multiset(h.items), reached0, settled0;
      var vertex1 := item.vertex;
      last := item.weight;
      found := vertex1 == end;
      if !found {
        ds, ps, items, reached := Expand(mz, start, end, vertex1, h, ds, ps, items, reached, settled, last);
        Settle(mz, start, end, ds, ps, items, reached, settled, vertex1, last);
        settled := settled + {vertex1};
      }
    }

    /**
     * Looks at every transition of the popped cell `vertex1`: a neighbour whose distance is
     * still INF gets `vertex1`'s distance plus its own type, a heap item, and `vertex1` as
     * predecessor.
     */
    method Expand(mz: Maze, start: Coordinates, end: Coordinates, vertex1: Coordinates, h: Heap,
                  ds0: map<Coordinates, int>, ps0: Table, ghost items0: multiset<Item>, ghost rs0: map<Coordinates, nat>,
                  ghost settled0: set<Coordinates>, ghost last0: int)
        returns (ds: map<Coordinates, int>, ps: Table, ghost items: multiset<Item>, ghost rs: map<Coordinates, nat>)
      requires HasMazeTypes(mz) && 2 * |mz.cells.Keys| < INF && h.Valid() && multiset(h.items) == items0
      requires Search(mz, start, end, ds0, ps0, items0, rs0, settled0, {vertex1}, last0)
      modifies h
      ensures h.Valid() && multiset(h.items) == items
      ensures Search(mz, start, end, ds, ps, items, rs, settled0, {vertex1}, last0)
      ensures Relaxed(mz, ds, rs, last0, mz.cells[vertex1].transitions, |mz.cells[vertex1].transitions|)
    {
      var ts := mz.cells[vertex1].transitions;
      ds, ps := ds0, ps0;
      items, rs := items0, rs0;
      for i := 0 to |ts|
        invariant h.Valid() && multiset(h.items) == items
        invariant Search(mz, start, end, ds, ps, items, rs, settled0, {vertex1}, last0)
        invariant Relaxed(mz, ds, rs, last0, ts, i)
      {
        var vertex2 := ts[i];
        if (if vertex2 in ds then ds[vertex2] else 0) == INF {
          var d := ds[vertex1] + mz.cells[vertex2].kind;
          Discover(mz, start, end, ds, ps, items, rs, settled0, vertex1, last0, ts, i, vertex2, d);
          ds := ds[vertex2 := d];
          h.Push(Item(vertex2, d));
          ps := ps[vertex2 := vertex1];
          items, rs := items + multiset{Item(vertex2, d)}, rs[vertex2 := |rs.Keys|];
        } else {
          SkipReached(mz, start, end, ds, ps, items, rs, settled0, vertex1, last0, ts, i);
        }
      }
    }
  }
}
