/**
 * The invariants of the heap-guided depth-first search and the lemmas that keep them: the
 * visited set, the predecessor table and the stack of frames still running.
 */
module DfsSearch {
  import opened Cells
  import opened Mazes
  import opened Predecessors
  import opened PathRestore
  import opened Heaps

  /** The table covers the grid; a cell never entered still holds the sentinel. */
  ghost predicate Grounded(mz: Maze, vis: set<Coordinates>, ps: Table)
  {
    && ps.Keys == mz.cells.Keys && vis <= mz.cells.Keys && Missing !in mz.cells
    && (forall v :: v in ps && v !in vis ==> ps[v] == Missing)
  }

  /** Every entered cell other than start was entered through a transition of its entered predecessor. */
  ghost predicate TreeEdges(mz: Maze, start: Coordinates, vis: set<Coordinates>, ps: Table)
  {
    forall v :: v in vis && v != start && v in ps ==> ps[v] in vis && ps[v] in mz.cells && v in mz.cells[ps[v]].transitions
  }

  /** Walking back from `v` through `ps` reaches the sentinel after `k` steps, on entered cells only. */
  ghost predicate ReachesMissing(ps: Table, vis: set<Coordinates>, v: Coordinates, k: nat)
  {
    k > 0 && FirstHit(ps, v, Missing, k) && forall j :: 0 <= j < k ==> Back(ps, v, j) in vis
  }

  /** The table holds no cycle among the entered cells. */
  ghost predicate Chains(ps: Table, vis: set<Coordinates>)
  {
    forall v :: v in vis ==> exists k :: ReachesMissing(ps, vis, v, k)
  }

  /**
   * The frames still running, outermost first: they start at start, each was entered from
   * the one below it, and all have been entered.
   */
  ghost predicate StackLinks(ps: Table, start: Coordinates, vis: set<Coordinates>, stack: seq<Coordinates>)
  {
    && (stack != [] ==> stack[0] == start && Lookup(ps, start) == Missing)
    && (forall i :: 0 <= i < |stack| ==> stack[i] in vis)
    && (forall i, j {:trigger stack[i], stack[j]} :: 0 <= i && j == i + 1 && j < |stack| ==> Lookup(ps, stack[j]) == stack[i])
  }

  /** Every finished frame other than the one on end has seen all its neighbours entered. */
  ghost predicate Closed(mz: Maze, end: Coordinates, vis: set<Coordinates>, stack: seq<Coordinates>)
  {
    forall v, t {:trigger t in mz.cells[v].transitions} ::
      v in vis && v !in stack && v != end && v in mz.cells && t in mz.cells[v].transitions ==> t in vis
  }

  /** Every invariant of the search at once. */
  ghost predicate Search(mz: Maze, start: Coordinates, end: Coordinates, vis: set<Coordinates>, ps: Table,
                         stack: seq<Coordinates>)
  {
    && Grounded(mz, vis, ps) && TreeEdges(mz, start, vis, ps) && Chains(ps, vis)
    && StackLinks(ps, start, vis, stack) && Closed(mz, end, vis, stack)
  }

  /** `a + t` steps back from `c` is `t` steps back from where `a` steps lead. */
  lemma {:induction false} BackCompose(ps: Table, c: Coordinates, a: nat, t: nat)
    ensures Back(ps, c, a + t) == Back(ps, Back(ps, c, a), t)
  {
    if t > 0 {
      BackCompose(ps, c, a, t - 1);
    }
  }

  /** Redirecting `x` does not change a walk back that has not yet met `x`. */
  lemma {:induction false} BackAvoids(ps: Table, x: Coordinates, a: Coordinates, c: Coordinates, n: nat)
    requires forall j :: 0 <= j < n ==> Back(ps, c, j) != x
    ensures forall j :: 0 <= j <= n ==> Back(ps[x := a], c, j) == Back(ps, c, j)
  {
    if n > 0 {
      BackAvoids(ps, x, a, c, n - 1);
      assert Back(ps[x := a], c, n) == Lookup(ps[x := a], Back(ps, c, n - 1));
    }
  }

  /** The first of the first `n` steps back from `c` that lands on `x`, or `n` when none does. */
  lemma {:induction false} FirstMeet(ps: Table, c: Coordinates, x: Coordinates, n: nat) returns (j0: nat)
    ensures j0 <= n && forall j :: 0 <= j < j0 ==> Back(ps, c, j) != x
    ensures j0 < n ==> Back(ps, c, j0) == x
  {
    if n == 0 {
      j0 := 0;
    } else {
      j0 := FirstMeet(ps, c, x, n - 1);
      if j0 == n - 1 && Back(ps, c, n - 1) != x {
        j0 := n;
      }
    }
  }

  /** The walk back from the top of the stack runs down the stack to the sentinel. */
  lemma {:induction false} StackBack(ps: Table, start: Coordinates, vis: set<Coordinates>, stack: seq<Coordinates>, j: nat)
    requires StackLinks(ps, start, vis, stack) && j <= |stack| && stack != []
    ensures j < |stack| ==> Back(ps, stack[|stack| - 1], j) == stack[|stack| - 1 - j]
    ensures j == |stack| ==> Back(ps, stack[|stack| - 1], j) == Missing
  {
    if j > 0 {
      StackBack(ps, start, vis, stack, j - 1);
      var i, k := |stack| - 1 - j, |stack| - j;
      if j < |stack| {
        var below, above := stack[i], stack[k];
        assert Lookup(ps, above) == below;
      }
    }
  }

  /**
   * Entering `x` from an entered cell `a` whose walk back avoids `x` keeps every walk back
   * finite: a walk that met `x` now continues along the walk back from `a`.
   */
  lemma Redirect(ps: Table, vis: set<Coordinates>, x: Coordinates, a: Coordinates, ka: nat, ps': Table)
    requires Chains(ps, vis) && Missing !in vis && x != Missing
    requires ReachesMissing(ps, vis, a, ka) && forall j :: 0 <= j < ka ==> Back(ps, a, j) != x
    requires ps' == ps[x := a]
    ensures Chains(ps', vis + {x})
  {
    var vis' := vis + {x};
    BackAvoids(ps, x, a, a, ka);
    assert ReachesMissing(ps', vis', x, ka + 1) by {
      forall j | 0 <= j <= ka ensures Back(ps', x, j + 1) == Back(ps, a, j) {
        BackFromNext(ps', x, j);
      }
      forall j | 0 <= j < ka + 1 ensures Back(ps', x, j) != Missing && Back(ps', x, j) in vis' {
        if j > 0 {
          assert Back(ps', x, (j - 1) + 1) == Back(ps, a, j - 1);
        }
      }
    }
    forall v | v in vis' ensures exists k :: ReachesMissing(ps', vis', v, k) {
      if v != x {
        var kv :| ReachesMissing(ps, vis, v, kv);
        var j0 := FirstMeet(ps, v, x, kv);
        BackAvoids(ps, x, a, v, j0);
        if j0 == kv {
          forall j | 0 <= j <= kv ensures Back(ps', v, j) == Back(ps, v, j) {
          }
          assert ReachesMissing(ps', vis', v, kv);
        } else {
          forall t | 0 <= t <= ka + 1 ensures Back(ps', v, j0 + t) == Back(ps', x, t) {
            BackCompose(ps', v, j0, t);
          }
          forall j | 0 <= j < j0 + ka + 1 ensures Back(ps', v, j) != Missing && Back(ps', v, j) in vis' {
            if j >= j0 {
              assert Back(ps', v, j0 + (j - j0)) == Back(ps', x, j - j0);
            } else {
              assert Back(ps', v, j) == Back(ps, v, j);
            }
          }
          assert Back(ps', v, j0 + (ka + 1)) == Missing;
          assert ReachesMissing(ps', vis', v, j0 + ka + 1);
        }
      }
    }
  }

  /** The table after entering the first cell, start, from the sentinel. */
  lemma EnterStart(mz: Maze, start: Coordinates, end: Coordinates, ps: Table, ps': Table, vis': set<Coordinates>,
                   frames: seq<Coordinates>)
    requires Grounded(mz, {}, ps) && start in mz.cells && ps' == ps[start := Missing]
    requires vis' == {start} && frames == [start]
    ensures Search(mz, start, end, vis', ps', frames)
    ensures start == end ==> Search(mz, start, end, vis', ps', [])
  {
    assert Back(ps', start, 0) == start;
    assert Back(ps', start, 1) == Lookup(ps', start) == Missing;
    assert ReachesMissing(ps', vis', start, 1);
  }

  /** The table after entering `current` from the frame on top of the stack. */
  lemma EnterNext(mz: Maze, start: Coordinates, end: Coordinates, vis: set<Coordinates>, ps: Table,
                  stack: seq<Coordinates>, current: Coordinates, ps': Table, vis': set<Coordinates>,
                  frames: seq<Coordinates>)
    requires Search(mz, start, end, vis, ps, stack) && stack != [] && current !in stack && current in mz.cells
    requires current in mz.cells[stack[|stack| - 1]].transitions
    requires ps' == ps[current := stack[|stack| - 1]] && vis' == vis + {current} && frames == stack + [current]
    ensures Search(mz, start, end, vis', ps', frames)
    ensures current == end ==> Search(mz, start, end, vis', ps', stack)
  {
    EnterChains(mz, start, end, vis, ps, stack, current, ps');
    EnterLinks(ps, start, vis, stack, current, ps');
    EnterTree(mz, start, end, vis, ps, stack, current, ps', vis');
  }

  /** Entering `current` from the top of the stack keeps every walk back finite. */
  lemma EnterChains(mz: Maze, start: Coordinates, end: Coordinates, vis: set<Coordinates>, ps: Table,
                    stack: seq<Coordinates>, current: Coordinates, ps': Table)
    requires Grounded(mz, vis, ps) && Chains(ps, vis) && StackLinks(ps, start, vis, stack)
    requires stack != [] && current !in stack && current in mz.cells
    requires ps' == ps[current := stack[|stack| - 1]]
    ensures Chains(ps', vis + {current})
  {
    var previous, n := stack[|stack| - 1], |stack|;
    forall j | 0 <= j <= n ensures Back(ps, previous, j) == if j < n then stack[n - 1 - j] else Missing {
      StackBack(ps, start, vis, stack, j);
    }
    assert ReachesMissing(ps, vis, previous, n);
    Redirect(ps, vis, current, previous, n, ps');
  }

  /** Entering `current` from the top of the stack keeps the table grounded, its edges and the closure. */
  lemma EnterTree(mz: Maze, start: Coordinates, end: Coordinates, vis: set<Coordinates>, ps: Table,
                  stack: seq<Coordinates>, current: Coordinates, ps': Table, vis': set<Coordinates>)
    requires Grounded(mz, vis, ps) && TreeEdges(mz, start, vis, ps) && Closed(mz, end, vis, stack)
    requires StackLinks(ps, start, vis, stack) && stack != [] && current !in stack && current in mz.cells
    requires current in mz.cells[stack[|stack| - 1]].transitions
    requires ps' == ps[current := stack[|stack| - 1]] && vis' == vis + {current}
    ensures Grounded(mz, vis', ps') && TreeEdges(mz, start, vis', ps')
    ensures Closed(mz, end, vis', stack + [current])
    ensures current == end ==> Closed(mz, end, vis', stack)
  {
    assert stack[|stack| - 1] in vis;
  }

  /** Entering a cell off the stack keeps the stack's links, and adds the new frame on top. */
  lemma EnterLinks(ps: Table, start: Coordinates, vis: set<Coordinates>, stack: seq<Coordinates>, current: Coordinates,
                   ps': Table)
    requires StackLinks(ps, start, vis, stack) && stack != [] && current !in stack
    requires ps' == ps[current := stack[|stack| - 1]]
    ensures StackLinks(ps', start, vis + {current}, stack + [current])
    ensures StackLinks(ps', start, vis + {current}, stack)
  {
    var s := stack + [current];
    forall i, j | 0 <= i && j == i + 1 && j < |s| ensures Lookup(ps', s[j]) == s[i] {
      if j < |stack| {
        var below, above := stack[i], stack[j];
        assert Lookup(ps, above) == below;
      }
    }
  }

  /** The local heap holds neighbours of the frame's cell, unvisited when the frame began, weighted by their types. */
  ghost predicate HeapHolds(m: Maze, ts: seq<Coordinates>, entry: set<Coordinates>, items: multiset<Item>)
  {
    forall x :: x in items ==> x.vertex in ts && x.vertex in m.cells && x.vertex !in entry && x.weight == m.cells[x.vertex].kind
  }

  /** Each neighbour in `ts` is visited or waits in the local heap. */
  ghost predicate Covered(m: Maze, ts: seq<Coordinates>, vis: set<Coordinates>, items: multiset<Item>)
  {
    forall t :: t in ts && t in m.cells ==> t in vis || Item(t, m.cells[t].kind) in items
  }

  /** The neighbours a frame entered: among `ts`, unvisited when it began, weighted by their types. */
  ghost predicate Entered(m: Maze, ts: seq<Coordinates>, entry: set<Coordinates>, entered: seq<Item>)
  {
    forall i :: 0 <= i < |entered| ==>
      entered[i].vertex in ts && entered[i].vertex !in entry && entered[i].vertex in m.cells
      && entered[i].weight == m.cells[entered[i].vertex].kind
  }

  /** Weights that never decrease. */
  ghost predicate Ascending(entered: seq<Item>)
  {
    forall i, j :: 0 <= i < j < |entered| ==> entered[i].weight <= entered[j].weight
  }

  /** No item is lighter than `w`. */
  ghost predicate Lightest(w: int, items: multiset<Item>)
  {
    forall x :: x in items ==> w <= x.weight
  }

  /** The push loop, one neighbour further: an unvisited neighbour joins the heap. */
  lemma PushStep(m: Maze, ts: seq<Coordinates>, i: nat, entry: set<Coordinates>, items: multiset<Item>,
                 items': multiset<Item>)
    requires i < |ts| && ts[i] in m.cells
    requires HeapHolds(m, ts, entry, items) && Covered(m, ts[..i], entry, items)
    requires items' == if ts[i] in entry then items else items + multiset{Item(ts[i], m.cells[ts[i]].kind)}
    ensures HeapHolds(m, ts, entry, items') && Covered(m, ts[..i + 1], entry, items')
  {
    assert ts[..i + 1] == ts[..i] + [ts[i]];
  }

  /**
   * The pop loop, one turn further: the lightest item was popped and its cell entered, which
   * can only have grown the visited set.
   */
  lemma PopStep(m: Maze, ts: seq<Coordinates>, entry: set<Coordinates>, vis: set<Coordinates>, vis': set<Coordinates>,
                items: multiset<Item>, item: Item, entered: seq<Item>)
    requires HeapHolds(m, ts, entry, items) && Covered(m, ts, vis, items)
    requires Entered(m, ts, entry, entered) && Ascending(entered)
    requires entered != [] ==> Lightest(entered[|entered| - 1].weight, items)
    requires item in items && Lightest(item.weight, items)
    requires vis <= vis' && item.vertex in vis'
    ensures HeapHolds(m, ts, entry, items - multiset{item}) && Covered(m, ts, vis', items - multiset{item})
    ensures Entered(m, ts, entry, entered + [item]) && Ascending(entered + [item])
    ensures Lightest(item.weight, items - multiset{item})
  {
    var e := entered + [item];
    forall i, j | 0 <= i < j < |e| ensures e[i].weight <= e[j].weight {
      if j == |entered| && i < |entered| {
        assert entered[|entered| - 1].weight <= item.weight;
      }
    }
  }

  /**
   * A frame whose neighbours have all been entered can return: once it leaves the stack the
   * invariants hold for the frames below, and the table still records where it was entered from.
   */
  lemma LeaveFrame(mz: Maze, start: Coordinates, end: Coordinates, vis: set<Coordinates>, ps: Table,
                   stack: seq<Coordinates>, current: Coordinates, previous: Coordinates, frames: seq<Coordinates>)
    requires Search(mz, start, end, vis, ps, frames) && frames == stack + [current] && current in mz.cells
    requires stack == [] ==> previous == Missing
    requires stack != [] ==> previous == stack[|stack| - 1]
    requires forall t :: t in mz.cells[current].transitions ==> t in vis
    ensures Search(mz, start, end, vis, ps, stack)
    ensures Lookup(ps, current) == previous
  {
    if stack != [] {
      var i, j := |stack| - 1, |stack|;
      var below, above := frames[i], frames[j];
      assert stack[0] == frames[0];
    } else {
      assert frames == [current];
    }
    forall i, j {:trigger stack[i], stack[j]} | 0 <= i && j == i + 1 && j < |stack|
      ensures Lookup(ps, stack[j]) == stack[i]
    {
      var below, above := frames[i], frames[j];
    }
    forall i | 0 <= i < |stack| ensures stack[i] in vis {
      assert stack[i] == frames[i];
    }
    assert Closed(mz, end, vis, stack) by {
      forall v, t | v in vis && v !in stack && v != end && v in mz.cells && t in mz.cells[v].transitions
        ensures t in vis
      {
        if v != current {
          assert v !in frames;
        }
      }
    }
  }

  /**
   * After the search from start: the walk back from end through the table stops at the
   * sentinel after `k` steps, on entered cells; it passes through start exactly when end was
   * entered and is not start; and an end never entered cannot be reached.
   */
  lemma Conclude(mz: Maze, start: Coordinates, end: Coordinates, vis: set<Coordinates>, ps: Table) returns (k: nat)
    requires Grounded(mz, vis, ps) && TreeEdges(mz, start, vis, ps) && Chains(ps, vis) && Closed(mz, end, vis, [])
    requires start in vis && Lookup(ps, start) == Missing && end in mz.cells
    ensures FirstHit(ps, end, Lookup(ps, start), k)
    ensures end in vis ==> forall j :: 0 <= j < k ==> Back(ps, end, j) in vis
    ensures end in vis && start != end ==> PassesThrough(ps, start, end, k)
    ensures end !in vis ==> !PassesThrough(ps, start, end, k) && !Reachable(mz, start, end)
  {
    if end in vis {
      k :| ReachesMissing(ps, vis, end, k);
      if start != end {
        var last := Back(ps, end, k - 1);
        BackFromNext(ps, last, 0);
        assert Back(ps, end, k) == Lookup(ps, last) == Missing;
        assert last == start;
      }
    } else {
      k := 1;
      assert Back(ps, end, 1) == Lookup(ps, end) == Missing;
      ClosedSetUnreachable(mz, vis, start, end);
    }
  }

  /** A path of entered cells from start, each the successor of its predecessor, is a walk. */
  lemma TreePathWalk(mz: Maze, start: Coordinates, vis: set<Coordinates>, ps: Table, path: seq<Coordinates>)
    requires Grounded(mz, vis, ps) && TreeEdges(mz, start, vis, ps)
    requires |path| > 0 && path[0] == start && NoRepeats(path)
    requires forall i :: 0 <= i < |path| ==> path[i] in vis
    requires forall i :: 0 <= i < |path| - 1 ==> Lookup(ps, path[i + 1]) == path[i]
    ensures IsWalk(mz, path)
  {
    forall i | 0 <= i < |path| - 1 ensures path[i + 1] in mz.cells[path[i]].transitions {
      assert path[i + 1] != path[0];
    }
  }
}

/** The solver object: the visited set and the predecessor table its recursive search fills in. */
module Dfs {
  import opened Cells
  import opened GeneratorUtils
  import opened Mazes
  import opened Heaps
  import opened Predecessors
  import opened PathRestore
  import opened DfsSearch

  class Solver {
    var visited: set<Coordinates>
    var predecessors: Table
    var mz: Maze

    /** A solver with nothing visited. */
    constructor ()
      ensures visited == {}
    {
      visited := {};
      predecessors := map[];
      mz := EmptyMaze;
    }

    /**
     * A path from start to end: empty when start is end or end cannot be reached, otherwise a
     * walk from start to end along the maze's transitions that visits no cell twice. Every
     * entry of the predecessor table left behind is the sentinel or a cell with a transition
     * to the entry's own cell.
     */
    method Solve(mz: Maze, start: Coordinates, end: Coordinates) returns (path: seq<Coordinates>)
      requires visited == {}
      requires IsGrid(mz) && TransitionsInside(mz) && start in mz.cells && end in mz.cells
      modifies this
      ensures path == [] <==> start == end || !Reachable(mz, start, end)
      ensures path != [] ==> IsWalkBetween(mz, path, start, end) && NoRepeats(path)
      ensures forall v :: v in predecessors && predecessors[v] != Missing ==>
                predecessors[v] in mz.cells && v in mz.cells[predecessors[v]].transitions
    {
      Prepare(mz);
      MissingIsOutside(mz.height, mz.width);
      assert Grounded(mz, {}, predecessors);
      ghost var entered := Dfs(start, Missing, end, start, [], mz.cells.Keys);
      var k := Conclude(mz, start, end, visited, predecessors);
      path := RestorePath(start, end, predecessors, k);
      if path != [] {
        assert Lookup(predecessors, start) != start;
        forall i | 0 <= i < |path| ensures path[i] in visited {
          assert path[i] == Back(predecessors, end, k - 1 - i);
        }
        TreePathWalk(mz, start, visited, predecessors, path);
        assert IsWalkBetween(mz, path, start, end);
      } else if start != end {
        assert end !in visited;
      }
      forall v | v in predecessors && predecessors[v] != Missing
        ensures predecessors[v] in mz.cells && v in mz.cells[predecessors[v]].transitions
      {
        assert v in visited && v != start;
      }
    }

    /** Keeps the maze and gives every cell of its grid the sentinel predecessor. */
    method Prepare(m: Maze)
      modifies this
      ensures mz == m && visited == old(visited)
      ensures forall c :: c in predecessors <==> IsInside(c, m.height, m.width)
      ensures forall c :: c in predecessors ==> predecessors[c] == Missing
    {
      mz := m;
      predecessors := NewPredecessors(mz.height, mz.width);
    }

    /**
     * One frame of the search: records that `current` was entered from `previous`, marks it
     * visited and, unless it is end, pushes every neighbour not yet visited onto a fresh local
     * heap weighted by the neighbour's type, then enters the popped neighbours one by one,
     * lightest first, without checking again whether they were visited meanwhile. `stack`
     * holds the frames still running below this one; `entered` the neighbours this frame
     * entered, in order.
     */
    method Dfs(current: Coordinates, previous: Coordinates, end: Coordinates, ghost start: Coordinates,
               ghost stack: seq<Coordinates>, ghost unseen: set<Coordinates>) returns (ghost entered: seq<Item>)
      requires TransitionsInside(mz) && current in mz.cells && current !in stack
      requires Search(mz, start, end, visited, predecessors, stack)
      requires stack == [] ==> current == start && previous == Missing && visited == {}
      requires stack != [] ==> previous == stack[|stack| - 1] && current in mz.cells[previous].transitions
      requires forall v :: v in unseen <==> v in mz.cells && v !in stack
      modifies this
      ensures mz == old(mz) && old(visited) + {current} <= visited
      ensures Search(mz, start, end, visited, predecessors, stack)
      ensures Lookup(predecessors, current) == previous
      ensures current == end ==> visited == old(visited) + {current} && predecessors == old(predecessors)[current := previous]
      ensures current == end ==> entered == []
      ensures Entered(mz, mz.cells[current].transitions, old(visited) + {current}, entered) && Ascending(entered)
      decreases unseen, 1
    {
      var m := mz;
      ghost var frames := stack + [current];
      Visit(current, previous, end, start, stack, frames);
      entered := [];
      if current == end {
        return;
      }

      var ts := m.cells[current].transitions;
      ghost var entry := visited;
      var localHeap := Gather(m, ts, visited);
      while localHeap.Len() != 0
        invariant localHeap.Valid() && fresh(localHeap)
        invariant mz == m && entry <= visited
        invariant Search(m, start, end, visited, predecessors, frames)
        invariant HeapHolds(m, ts, entry, multiset(localHeap.items)) && Covered(m, ts, visited, multiset(localHeap.items))
        invariant Entered(m, ts, entry, entered) && Ascending(entered)
        invariant entered != [] ==> Lightest(entered[|entered| - 1].weight, multiset(localHeap.items))
        decreases |localHeap.items|
      {
        entered := EnterLightest(localHeap, current, end, start, frames, unseen, ts, entry, entered);
      }
      LeaveFrame(m, start, end, visited, predecessors, stack, current, previous, frames);
    }

    /** Records that `current` was entered from `previous`: the first two steps of a frame. */
    method Visit(current: Coordinates, previous: Coordinates, end: Coordinates, ghost start: Coordinates,
                 ghost stack: seq<Coordinates>, ghost frames: seq<Coordinates>)
      requires TransitionsInside(mz) && current in mz.cells && current !in stack && frames == stack + [current]
      requires Search(mz, start, end, visited, predecessors, stack)
      requires stack == [] ==> current == start && previous == Missing && visited == {}
      requires stack != [] ==> previous == stack[|stack| - 1] && current in mz.cells[previous].transitions
      modifies this
      ensures mz == old(mz)
      ensures predecessors == old(predecessors)[current := previous] && visited == old(visited) + {current}
      ensures Search(mz, start, end, visited, predecessors, frames)
      ensures current == end ==> Search(mz, start, end, visited, predecessors, stack)
    {
      ghost var ps0 := predecessors;
      predecessors := predecessors[current := previous];
      visited := visited + {current};
      if stack == [] {
        EnterStart(mz, start, end, ps0, predecessors, visited, frames);
      } else {
        EnterNext(mz, start, end, old(visited), ps0, stack, current, predecessors, visited, frames);
      }
    }

    /**
     * One turn of a frame's pop loop: pops the lightest neighbour from the frame's heap `h`
     * and enters it from `current`, the frame on top of `frames`.
     */
    method EnterLightest(h: Heap, current: Coordinates, end: Coordinates, ghost start: Coordinates,
                         ghost frames: seq<Coordinates>, ghost unseen: set<Coordinates>, ghost ts: seq<Coordinates>,
                         ghost entry: set<Coordinates>, ghost entered0: seq<Item>) returns (ghost entered: seq<Item>)
      requires h.Valid() && |h.items| > 0
      requires TransitionsInside(mz) && frames != [] && frames[|frames| - 1] == current && current in mz.cells
      requires ts == mz.cells[current].transitions && entry <= visited && (set v | v in frames) <= entry
      requires current in unseen && forall v :: v in unseen - {current} <==> v in mz.cells && v !in frames
      requires Search(mz, start, end, visited, predecessors, frames)
      requires HeapHolds(mz, ts, entry, multiset(h.items)) && Covered(mz, ts, visited, multiset(h.items))
      requires Entered(mz, ts, entry, entered0) && Ascending(entered0)
      requires entered0 != [] ==> Lightest(entered0[|entered0| - 1].weight, multiset(h.items))
      modifies this, h
      ensures h.Valid() && |h.items| < |old(h.items)|
      ensures mz == old(mz) && old(visited) <= visited
      ensures Search(mz, start, end, visited, predecessors, frames)
      ensures HeapHolds(mz, ts, entry, multiset(h.items)) && Covered(mz, ts, visited, multiset(h.items))
      ensures Entered(mz, ts, entry, entered) && Ascending(entered)
      ensures entered != [] ==> Lightest(entered[|entered| - 1].weight, multiset(h.items))
      decreases unseen, 0
    {
      ghost var items, vis := multiset(h.items), visited;
      var item := h.Pop();
      ghost var deeper := Dfs(item.vertex, current, end, start, frames, unseen - {current});
      PopStep(mz, ts, entry, vis, visited, items, item, entered0);
      entered := entered0 + [item];
    }

    /** The push loop of a frame: a fresh heap holding every neighbour in `ts` not yet visited, weighted by its type. */
    method Gather(m: Maze, ts: seq<Coordinates>, vis: set<Coordinates>) returns (h: Heap)
      requires forall t :: t in ts ==> t in m.cells
      ensures fresh(h) && h.Valid()
      ensures HeapHolds(m, ts, vis, multiset(h.items)) && Covered(m, ts, vis, multiset(h.items))
    {
      h := new Heap();
      for i := 0 to |ts|
        invariant h.Valid()
        invariant HeapHolds(m, ts, vis, multiset(h.items)) && Covered(m, ts[..i], vis, multiset(h.items))
      {
        var next := ts[i];
        PushStep(m, ts, i, vis, multiset(h.items),
                 if next in vis then multiset(h.items) else multiset(h.items) + multiset{Item(next, m.cells[next].kind)});
        if next !in vis {
          h.Push(Item(next, m.cells[next].kind));
        }
      }
      assert ts[..|ts|] == ts;
    }
  }
}
