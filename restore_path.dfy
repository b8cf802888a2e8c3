/** Rebuilding a path from a predecessor table by walking it backwards from the end. */
module PathRestore {
  import opened Cells
  import opened Predecessors
  import opened Mazes

  /** The cell reached from `c` after `k` steps back through `ps`. */
  function Back(ps: Table, c: Coordinates, k: nat): Coordinates
  {
    if k == 0 then c else Lookup(ps, Back(ps, c, k - 1))
  }

  /** `k` steps back from `c` is the first time the walk lands on `target`. */
  ghost predicate FirstHit(ps: Table, c: Coordinates, target: Coordinates, k: nat)
  {
    Back(ps, c, k) == target && forall j :: 0 <= j < k ==> Back(ps, c, j) != target
  }

  /** One of the first `k` steps back from `end` lands on `start`. */
  ghost predicate PassesThrough(ps: Table, start: Coordinates, end: Coordinates, k: nat)
  {
    exists j :: 1 <= j <= k && Back(ps, end, j) == start
  }

  lemma {:induction false} BackFromNext(ps: Table, c: Coordinates, j: nat)
    ensures Back(ps, c, j + 1) == Back(ps, Lookup(ps, c), j)
  {
    if j > 0 {
      BackFromNext(ps, c, j - 1);
    }
  }

  lemma {:induction false} BackShift(ps: Table, c: Coordinates, a: nat, b: nat, t: nat)
    ensures Back(ps, c, a) == Back(ps, c, b) ==> Back(ps, c, a + t) == Back(ps, c, b + t)
  {
    if t > 0 {
      BackShift(ps, c, a, b, t - 1);
    }
  }

  /** Before its first hit, the backward walk never repeats a cell. */
  lemma ChainDistinct(ps: Table, c: Coordinates, target: Coordinates, k: nat, a: nat, b: nat)
    requires FirstHit(ps, c, target, k)
    requires a < b < k
    ensures Back(ps, c, a) != Back(ps, c, b)
  {
    BackShift(ps, c, a, b, k - b);
    assert Back(ps, c, a + (k - b)) != target;
  }

  /**
   * A table in which every cell of `s` points either to the sentinel or to a cell of `s`
   * of lower rank leads, from any cell of `s`, to the sentinel; every cell on the way
   * lies in `s`.
   */
  lemma {:induction false} ChainToMissing(ps: Table, s: set<Coordinates>, rank: map<Coordinates, nat>, c: Coordinates)
    returns (k: nat)
    requires Missing !in s && s <= rank.Keys
    requires forall v :: v in s ==> (Lookup(ps, v) == Missing || (Lookup(ps, v) in s && rank[Lookup(ps, v)] < rank[v]))
    requires c in s
    ensures k > 0 && FirstHit(ps, c, Missing, k)
    ensures forall j :: 0 <= j < k ==> Back(ps, c, j) in s
    decreases rank[c]
  {
    if Lookup(ps, c) == Missing {
      k := 1;
    } else {
      var next := Lookup(ps, c);
      var k' := ChainToMissing(ps, s, rank, next);
      k := k' + 1;
      BackFromNext(ps, c, k');
      forall j | 0 <= j < k ensures Back(ps, c, j) in s && Back(ps, c, j) != Missing {
        if j > 0 {
          BackFromNext(ps, c, j - 1);
        }
      }
    }
  }

  /** The first `k` cells of the walk back from `end`, in forward order: the path that walk spells. */
  function ReadBack(ps: Table, end: Coordinates, k: nat): (p: seq<Coordinates>)
    ensures |p| == k && forall i :: 0 <= i < k ==> p[i] == Back(ps, end, k - 1 - i)
  {
    seq(k, i requires 0 <= i < k => Back(ps, end, k - 1 - i))
  }

  /**
   * When the walk back from `end` first meets the predecessor of `start` after `k` steps and
   * passes through `start` on the way, the path it spells ends at `end`, follows the table
   * forwards, never repeats a cell and, unless `start` is its own predecessor, starts at `start`.
   */
  lemma ReadBackShape(ps: Table, start: Coordinates, end: Coordinates, k: nat)
    requires FirstHit(ps, end, Lookup(ps, start), k) && PassesThrough(ps, start, end, k)
    ensures var p := ReadBack(ps, end, k);
      && p != [] && p[|p| - 1] == end
      && (forall i :: 0 <= i < |p| - 1 ==> Lookup(ps, p[i + 1]) == p[i])
      && NoRepeats(p)
      && (Lookup(ps, start) != start ==> |p| >= 2 && p[0] == start)
  {
    var p := ReadBack(ps, end, k);
    forall a, b | 0 <= a < b < |p| ensures p[a] != p[b] {
      ChainDistinct(ps, end, Lookup(ps, start), k, k - 1 - b, k - 1 - a);
    }
    if Lookup(ps, start) != start {
      var j :| 1 <= j <= k && Back(ps, end, j) == start;
      if j < k {
        assert Back(ps, end, j + 1) == Lookup(ps, start);
      }
      assert j == k - 1;
    }
  }

  /**
   * Walks back from `end` until it reaches the predecessor recorded for `start` (`k` steps),
   * then returns the walk reversed, or nothing when the walk never stepped onto `start`.
   */
  method RestorePath(start: Coordinates, end: Coordinates, ps: Table, ghost k: nat) returns (path: seq<Coordinates>)
    requires FirstHit(ps, end, Lookup(ps, start), k)
    ensures PassesThrough(ps, start, end, k) ==> path == ReadBack(ps, end, k)
    ensures !PassesThrough(ps, start, end, k) ==> path == []
    ensures path != [] ==> path[|path| - 1] == end
    ensures path != [] && Lookup(ps, start) != start ==> |path| >= 2 && path[0] == start
    ensures forall i :: 0 <= i < |path| - 1 ==> Lookup(ps, path[i + 1]) == path[i]
    ensures NoRepeats(path)
    ensures start == end ==> path == []
  {
    var inverted: seq<Coordinates> := [];
    var current := end;
    var returned := false;
    ghost var steps: nat := 0;
    while current != Lookup(ps, start)
      invariant steps <= k
      invariant current == Back(ps, end, steps)
      invariant |inverted| == steps
      invariant forall i :: 0 <= i < steps ==> inverted[i] == Back(ps, end, i)
      invariant returned <==> exists j :: 1 <= j <= steps && Back(ps, end, j) == start
      decreases k - steps
    {
      inverted := inverted + [current];
      current := Lookup(ps, current);
      steps := steps + 1;
      if current == start {
        returned := true;
      }
    }
    assert steps == k;
    path := Reverse(inverted);
    if !returned {
      return [];
    }
    assert path == ReadBack(ps, end, k);
    ReadBackShape(ps, start, end, k);
  }

  /** Appends the cells of `s` from the last to the first. */
  method Reverse(s: seq<Coordinates>) returns (r: seq<Coordinates>)
    ensures |r| == |s| && forall m :: 0 <= m < |s| ==> r[m] == s[|s| - 1 - m]
  {
    r := [];
    var i := |s| - 1;
    while i >= 0
      invariant -1 <= i < |s|
      invariant |r| == |s| - 1 - i
      invariant forall m :: 0 <= m < |r| ==> r[m] == s[|s| - 1 - m]
    {
      r := r + [s[i]];
      i := i - 1;
    }
  }
}
