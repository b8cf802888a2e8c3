/** Bounds checks, side offsets and the random helpers shared by the generators. */
module GeneratorUtils {
  import opened Cells
  import opened Random

  /** Offsets along x and y that lead to the four side-adjacent cells. */
  const Dx: seq<int> := [-1, 0, 0, 1]
  const Dy: seq<int> := [0, -1, 1, 0]

  /** The cell reached from `c` with offset number `i`. */
  function Shift(c: Coordinates, i: nat): Coordinates
    requires i < |Dx|
  {
    Coordinates(c.x + Dx[i], c.y + Dy[i])
  }

  /** `a` and `b` share a side. */
  predicate Adjacent(a: Coordinates, b: Coordinates)
  {
    (a.x == b.x && (a.y - b.y == 1 || b.y - a.y == 1)) ||
    (a.y == b.y && (a.x - b.x == 1 || b.x - a.x == 1))
  }

  predicate IsInside(c: Coordinates, height: int, width: int)
  {
    c.x >= 0 && c.x < width && c.y >= 0 && c.y < height
  }

  /** The offsets enumerate exactly the four side-adjacent cells. */
  lemma OffsetsAreSides(a: Coordinates, b: Coordinates)
    ensures |Dx| == |Dy| == 4
    ensures Adjacent(a, b) <==> exists i :: 0 <= i < 4 && b == Shift(a, i)
  {
    if Adjacent(a, b) {
      if b.x == a.x - 1 {
        assert b == Shift(a, 0);
      } else if b.y == a.y - 1 {
        assert b == Shift(a, 1);
      } else if b.y == a.y + 1 {
        assert b == Shift(a, 2);
      } else {
        assert b == Shift(a, 3);
      }
    }
  }

  lemma ShiftIsAdjacent(c: Coordinates, i: nat)
    requires i < 4
    ensures Adjacent(c, Shift(c, i)) && Shift(c, i) != c
  {
  }

  lemma AdjacentSymmetric(a: Coordinates, b: Coordinates)
    ensures Adjacent(a, b) <==> Adjacent(b, a)
    ensures Adjacent(a, b) ==> a != b
  {
  }

  /** A number in [0, limit): the next draw of the source reduced modulo `limit`. */
  method GetRandomInt(rng: Source, limit: int) returns (r: Result<int>)
    requires limit > 0
    modifies rng
    ensures r.Ok? ==> 0 <= r.value < limit
    ensures r.Ok? <==> old(rng.stream) != []
    ensures r.Ok? ==> rng.stream == old(rng.stream)[1..]
    ensures r.Err? ==> rng.stream == old(rng.stream)
  {
    var n := rng.Next();
    if n.Err? {
      return Err;
    }
    r := Ok(n.value % limit);
  }

  /** Random coordinates inside a height x width grid. */
  method GetRandomCoords(rng: Source, height: int, width: int) returns (r: Result<Coordinates>)
    requires height > 0 && width > 0
    modifies rng
    ensures r.Ok? ==> IsInside(r.value, height, width)
    ensures |rng.stream| <= old(|rng.stream|)
  {
    var x := GetRandomInt(rng, width);
    if x.Err? {
      return Err;
    }
    var y := GetRandomInt(rng, height);
    if y.Err? {
      return Err;
    }
    r := Ok(Coordinates(x.value, y.value));
  }

  /**
   * Random member of `keys`: draws a position and walks the keys in an unspecified
   * order (Go's map iteration order) until it reaches that position.
   */
  method GetRandomCoordsFrom(rng: Source, keys: set<Coordinates>) returns (r: Result<Coordinates>)
    requires keys != {}
    modifies rng
    ensures r.Ok? ==> r.value in keys
    ensures r.Ok? ==> |rng.stream| < old(|rng.stream|)
    ensures |rng.stream| <= old(|rng.stream|)
  {
    var number := GetRandomInt(rng, |keys|);
    if number.Err? {
      return Err;
    }
    var cs := Coordinates(0, 0);
    var i := 0;
    var rest := keys;
    while rest != {}
      invariant rest <= keys
      invariant i + |rest| == |keys|
      invariant i <= number.value
      decreases rest
    {
      var coords :| coords in rest;
      if i == number.value {
        cs := coords;
        break;
      }
      i := i + 1;
      rest := rest - {coords};
    }
    r := Ok(cs);
  }

  /**
   * Random side-adjacent coordinates inside the grid: redraws an offset until the shifted
   * cell differs from `coords` and lies inside. Where the source would retry forever
   * (no neighbour inside), the finite stream runs out and the call fails.
   */
  method GetRandomAdjacentCoords(rng: Source, coords: Coordinates, height: int, width: int)
    returns (r: Result<Coordinates>)
    modifies rng
    ensures r.Ok? ==> IsInside(r.value, height, width) && Adjacent(coords, r.value)
    ensures r.Ok? ==> r.value != coords
    ensures r.Ok? ==> |rng.stream| < old(|rng.stream|)
    ensures |rng.stream| <= old(|rng.stream|)
  {
    var next := coords;
    while next == coords || !IsInside(next, height, width)
      invariant next == coords || Adjacent(coords, next)
      invariant next != coords ==> |rng.stream| < old(|rng.stream|)
      invariant |rng.stream| <= old(|rng.stream|)
      decreases |rng.stream|
    {
      var offset := GetRandomInt(rng, |Dx|);
      if offset.Err? {
        return Err;
      }
      ShiftIsAdjacent(coords, offset.value);
      next := Shift(coords, offset.value);
    }
    r := Ok(next);
  }

  /** The types of `ts` above zero, in their order. */
  function SignificantOf(ts: seq<CellType>): (r: seq<CellType>)
  {
    if ts == [] then []
    else SignificantOf(ts[..|ts| - 1]) + (if ts[|ts| - 1] > 0 then [ts[|ts| - 1]] else [])
  }

  lemma {:induction false} SignificantOfMembers(ts: seq<CellType>)
    ensures forall t :: t in SignificantOf(ts) <==> t in ts && IsSignificant(t)
    ensures |SignificantOf(ts)| <= |ts|
  {
    if ts != [] {
      SignificantOfMembers(ts[..|ts| - 1]);
      assert ts == ts[..|ts| - 1] + [ts[|ts| - 1]];
    }
  }

  /** A random passable type: LightedPass or Pass. */
  method GetRandomSignificantType(rng: Source) returns (r: Result<CellType>)
    modifies rng
    ensures r.Ok? ==> r.value == LightedPass || r.value == Pass
    ensures r.Ok? ==> IsSignificant(r.value) && IsMazeType(r.value)
    ensures |rng.stream| <= old(|rng.stream|)
  {
    var significant: seq<CellType> := [];
    for i := 0 to |Types|
      invariant significant == SignificantOf(Types[..i])
    {
      assert Types[..i + 1][..i] == Types[..i];
      if Types[i] > 0 {
        significant := significant + [Types[i]];
      }
    }
    assert Types[..|Types|] == Types;
    assert SignificantOf([Wall]) == [] by {
      assert [Wall][..0] == [];
    }
    assert SignificantOf([Wall, LightedPass]) == [LightedPass] by {
      assert [Wall, LightedPass][..1] == [Wall];
    }
    assert SignificantOf(Types) == [LightedPass, Pass] by {
      assert Types[..2] == [Wall, LightedPass];
    }
    var number := GetRandomInt(rng, |significant|);
    if number.Err? {
      return Err;
    }
    r := Ok(significant[number.value]);
  }
}
