/** One game level: the tile grid and its parallel per-cell layers
    (explored, visible, cost, dist), all indexed [x, y]. */
module GameMaps {
  import opened Geom
  import opened Tiles

  /** Largest int32: the value `maxarray` fills the distance layer with. */
  const Unreached: int := 0x7fff_ffff

  /** The exceptions the core raises. */
  datatype Failure =
    | IndexOutOfRange    // a numpy index outside the grid
    | EmptySequence      // `random.choice` on an empty list
    | PopFromEmptyList   // `list.pop` on an empty list

  datatype Result<T> = Ok(value: T) | Err(error: Failure)

  /** Elements of a sequence, as a set. */
  ghost function Elems<T>(s: seq<T>): set<T> {
    set p | p in s
  }

  /** No element of s occurs twice. */
  ghost predicate Distinct<T>(s: seq<T>) {
    forall i, j :: 0 <= i < j < |s| ==> s[i] != s[j]
  }

  /** A sequence without repeats has as many elements as its set. */
  lemma {:induction false} DistinctCard<T>(s: seq<T>)
    requires Distinct(s)
    ensures |Elems(s)| == |s|
  {
    if s != [] {
      var init := s[..|s| - 1];
      assert Distinct(init);
      DistinctCard(init);
      assert Elems(s) == Elems(init) + {s[|s| - 1]};
      assert s[|s| - 1] !in Elems(init);
    }
  }

  /** numpy's reading of index i on an axis of length n: from -n to n - 1,
      a negative index counting back from the far end; anything else is an
      IndexError. */
  function NumpyIndex(i: int, n: nat): (r: Result<nat>)
    ensures r.Ok? <==> -(n as int) <= i < n
    ensures r.Err? ==> r.error == IndexOutOfRange
    ensures r.Ok? ==> r.value < n && (r.value == i || r.value == i + n)
  {
    if 0 <= i < n then Ok(i) else if -(n as int) <= i < 0 then Ok(i + n) else Err(IndexOutOfRange)
  }

  /** A non-negative index in range names its own position. */
  lemma NumpyIndexNonNegative(i: int, n: nat)
    requires 0 <= i < n
    ensures NumpyIndex(i, n) == Ok(i)
  {
  }

  /** p comes before q when the grid is listed column by column. */
  predicate ColumnMajorBefore(p: Point, q: Point) {
    p.x < q.x || (p.x == q.x && p.y < q.y)
  }

  class GameMap {
    const id: string
    const name: string
    const dark: bool
    const tiles: array2<Tile>
    const explored: array2<bool>
    var visible: array2<bool>
    var cost: array2<int>
    var dist: array2<int>

    /** `width`: the tile grid's first dimension. */
    function Width(): nat { tiles.Length0 }

    /** `height`: the tile grid's second dimension. */
    function Height(): nat { tiles.Length1 }

    /** Every layer has the tile grid's shape, the layers are separate
        arrays, and every cell holds one of the two tile kinds. */
    ghost predicate Valid()
      reads this, tiles
    {
      && explored.Length0 == Width() && explored.Length1 == Height()
      && visible.Length0 == Width() && visible.Length1 == Height()
      && cost.Length0 == Width() && cost.Length1 == Height()
      && dist.Length0 == Width() && dist.Length1 == Height()
      && explored != visible && cost != dist
      && forall x, y :: 0 <= x < Width() && 0 <= y < Height() ==>
           tiles[x, y] == Wall() || tiles[x, y] == Floor()
    }

    /** `__init__`: an all-wall map, nothing explored or visible, cost 0
        everywhere and every distance at the int32 maximum. */
    constructor (id: string, name: string, width: nat, height: nat, dark: bool := true)
      ensures Valid()
      ensures Width() == width && Height() == height
      ensures this.id == id && this.name == name && this.dark == dark
      ensures fresh(tiles) && fresh(explored) && fresh(visible) && fresh(cost) && fresh(dist)
      ensures forall x, y :: 0 <= x < width && 0 <= y < height ==> tiles[x, y] == Wall()
      ensures forall x, y :: 0 <= x < width && 0 <= y < height ==> !explored[x, y]
      ensures forall x, y :: 0 <= x < width && 0 <= y < height ==> !visible[x, y]
      ensures forall x, y :: 0 <= x < width && 0 <= y < height ==> cost[x, y] == 0
      ensures forall x, y :: 0 <= x < width && 0 <= y < height ==> dist[x, y] == Unreached
    {
      explored := new bool[width, height]((_, _) => false);
      visible := new bool[width, height]((_, _) => false);
      dist := new int[width, height]((_, _) => Unreached);
      cost := new int[width, height]((_, _) => 0);
      this.dark := dark;
      this.id := id;
      this.name := name;
      var wall := Wall();
      tiles := new Tile[width, height]((_, _) => wall);
    }

    /** `in_bounds` */
    predicate InBounds(x: int, y: int) {
      0 <= x < Width() && 0 <= y < Height()
    }

    /** A coordinate pair is in bounds exactly when numpy reads each
        coordinate as itself, with no wrap-around and no IndexError. */
    lemma InBoundsIsIdentityIndex(x: int, y: int)
      ensures InBounds(x, y) <==> NumpyIndex(x, Width()) == Ok(x) && NumpyIndex(y, Height()) == Ok(y)
    {
    }

    /** Width and height are the dimensions of every layer of a valid map. */
    lemma LayersShareShape()
      requires Valid()
      ensures Width() == tiles.Length0 == explored.Length0 == visible.Length0 == cost.Length0 == dist.Length0
      ensures Height() == tiles.Length1 == explored.Length1 == visible.Length1 == cost.Length1 == dist.Length1
    {
    }

    /** `on_edge`: x or y is at either end of its range. */
    predicate OnEdge(x: int, y: int) {
      x == 0 || x == Width() - 1 || y == 0 || y == Height() - 1
    }

    /** `walkable`: numpy indexing of the tile grid; in a valid map the
        indexed cell is walkable exactly when it is floor. */
    function Walkable(x: int, y: int): (r: Result<bool>)
      requires Valid()
      reads this, tiles
      ensures r.Ok? <==> NumpyIndex(x, Width()).Ok? && NumpyIndex(y, Height()).Ok?
      ensures r.Err? ==> r.error == IndexOutOfRange
      ensures r.Ok? ==> (r.value <==> tiles[NumpyIndex(x, Width()).value, NumpyIndex(y, Height()).value] == Floor())
    {
      var i, j := NumpyIndex(x, Width()), NumpyIndex(y, Height());
      if i.Err? || j.Err? then Err(IndexOutOfRange) else Ok(tiles[i.value, j.value].walkable)
    }

    /** `transparent`: numpy indexing of the tile grid; in a valid map the
        indexed cell is transparent exactly when it is floor. */
    function Transparent(x: int, y: int): (r: Result<bool>)
      requires Valid()
      reads this, tiles
      ensures r.Ok? <==> NumpyIndex(x, Width()).Ok? && NumpyIndex(y, Height()).Ok?
      ensures r.Err? ==> r.error == IndexOutOfRange
      ensures r.Ok? ==> (r.value <==> tiles[NumpyIndex(x, Width()).value, NumpyIndex(y, Height()).value] == Floor())
    {
      var i, j := NumpyIndex(x, Width()), NumpyIndex(y, Height());
      if i.Err? || j.Err? then Err(IndexOutOfRange) else Ok(tiles[i.value, j.value].transparent)
    }

    /** On in-bounds coordinates both queries read the cell itself. */
    lemma QueriesInBounds(x: int, y: int)
      requires Valid() && InBounds(x, y)
      ensures Walkable(x, y) == Ok(tiles[x, y].walkable)
      ensures Transparent(x, y) == Ok(tiles[x, y].transparent)
    {
    }

    /** `neighbors`: the in-bounds cells among east, west, south and north
        of (x, y), in that order. */
    function Neighbors(x: int, y: int): (ns: seq<Point>)
      ensures forall p :: p in ns <==> InBounds(p.x, p.y) && Adjacent(p, Point(x, y))
      ensures forall i, j :: 0 <= i < j < |ns| ==> Rank(Point(x, y), ns[i]) < Rank(Point(x, y), ns[j])
      ensures |ns| <= 4
    {
      (if InBounds(x + 1, y) then [Point(x + 1, y)] else []) +
      (if InBounds(x - 1, y) then [Point(x - 1, y)] else []) +
      (if InBounds(x, y + 1) then [Point(x, y + 1)] else []) +
      (if InBounds(x, y - 1) then [Point(x, y - 1)] else [])
    }

    /** A cell is on the edge exactly when one of its four neighbours is
        off the map. */
    lemma EdgeIffFewerNeighbors(x: int, y: int)
      requires InBounds(x, y)
      ensures OnEdge(x, y) <==> |Neighbors(x, y)| < 4
    {
    }

    /** The walkable cells of column x from row y down, in row order: the
        inner loop of `get_random_floor`'s comprehension. */
    function ColumnFloors(x: int, y: nat): (ps: seq<Point>)
      requires 0 <= x < Width() && y <= Height()
      reads tiles
      decreases Height() - y
      ensures forall p :: p in ps <==> p.x == x && y <= p.y < Height() && tiles[x, p.y].walkable
      ensures forall i, j :: 0 <= i < j < |ps| ==> ps[i].y < ps[j].y
    {
      if y == Height() then []
      else
        (if InBounds(x, y) && tiles[x, y].walkable then [Point(x, y)] else []) + ColumnFloors(x, y + 1)
    }

    /** The walkable cells of columns x.. in column-major order. */
    function FloorsFrom(x: nat): (ps: seq<Point>)
      requires x <= Width()
      reads tiles
      decreases Width() - x
      ensures forall p :: p in ps <==> InBounds(p.x, p.y) && x <= p.x && tiles[p.x, p.y].walkable
      ensures forall i, j :: 0 <= i < j < |ps| ==> ColumnMajorBefore(ps[i], ps[j])
    {
      if x == Width() then []
      else
        var col, rest := ColumnFloors(x, 0), FloorsFrom(x + 1);
        assert forall i, j :: 0 <= i < |col| && 0 <= j < |rest| ==> col[i].x < rest[j].x by {
          forall i, j | 0 <= i < |col| && 0 <= j < |rest| ensures col[i].x < rest[j].x {
            assert col[i] in col;
            assert rest[j] in rest;
          }
        }
        col + rest
    }

    /** `get_random_floor`'s candidate list: every walkable cell, once each,
        column by column. */
    function FloorCandidates(): (ps: seq<Point>)
      reads tiles
      ensures forall p :: p in ps <==> InBounds(p.x, p.y) && tiles[p.x, p.y].walkable
      ensures forall i, j :: 0 <= i < j < |ps| ==> ColumnMajorBefore(ps[i], ps[j])
    {
      FloorsFrom(0)
    }

    /** The set of walkable cells. */
    ghost function FloorSet(): set<Point>
      reads tiles
    {
      set x, y | 0 <= x < Width() && 0 <= y < Height() && tiles[x, y].walkable :: Point(x, y)
    }

    /** The candidate list holds as many points as the map has floor cells. */
    lemma CandidatesCountFloors()
      ensures Elems(FloorCandidates()) == FloorSet()
      ensures |FloorCandidates()| == |FloorSet()|
    {
      var ps := FloorCandidates();
      assert Elems(ps) == FloorSet() by {
        forall p | p in FloorSet() ensures p in Elems(ps) { }
      }
      DistinctCard(ps);
    }

    /** `get_random_floor`: some walkable cell, chosen by `random.choice`
        (any candidate may be chosen); `choice` fails on an all-wall map. */
    method GetRandomFloor() returns (r: Result<Point>)
      ensures r.Ok? ==> InBounds(r.value.x, r.value.y) && tiles[r.value.x, r.value.y].walkable
      ensures r.Err? <==> forall x, y :: InBounds(x, y) ==> !tiles[x, y].walkable
      ensures r.Err? ==> r.error == EmptySequence
    {
      var cands := FloorCandidates();
      if |cands| == 0 {
        forall x, y | InBounds(x, y) ensures !tiles[x, y].walkable {
          assert Point(x, y) !in cands;
        }
        return Err(EmptySequence);
      }
      var i :| 0 <= i < |cands|;
      r := Ok(cands[i]);
      assert cands[i] in cands;
    }

    /** `carve`: the numpy-indexed cell becomes floor and no other cell or
        layer changes; an index outside the grid raises instead and
        changes nothing. The result is the cell carved. */
    method Carve(x: int, y: int) returns (r: Result<Point>)
      requires Valid()
      modifies tiles
      ensures Valid()
      ensures r.Ok? <==> NumpyIndex(x, Width()).Ok? && NumpyIndex(y, Height()).Ok?
      ensures r.Ok? ==> r.value == Point(NumpyIndex(x, Width()).value, NumpyIndex(y, Height()).value)
      ensures r.Ok? ==> tiles[r.value.x, r.value.y] == Floor()
      ensures r.Ok? ==> forall i, j :: InBounds(i, j) && Point(i, j) != r.value ==> tiles[i, j] == old(tiles[i, j])
      ensures r.Err? ==> r.error == IndexOutOfRange && unchanged(tiles)
      ensures unchanged(this, explored, visible, cost, dist)
    {
      var i, j := NumpyIndex(x, Width()), NumpyIndex(y, Height());
      if i.Err? || j.Err? {
        return Err(IndexOutOfRange);
      }
      tiles[i.value, j.value] := Floor();
      r := Ok(Point(i.value, j.value));
    }

    /** The numpy slice assignment `tiles[xlo:xhi, ylo:yhi] = t` for
        non-negative bounds: stops past the grid are clipped to it, and a
        start at or beyond its stop selects nothing. */
    method AssignSlice(xlo: nat, xhi: nat, ylo: nat, yhi: nat, t: Tile)
      requires Valid() && (t == Wall() || t == Floor())
      modifies tiles
      ensures Valid()
      ensures forall i, j :: InBounds(i, j) ==>
                tiles[i, j] == if xlo <= i < xhi && ylo <= j < yhi then t else old(tiles[i, j])
      ensures unchanged(this, explored, visible, cost, dist)
    {
      var xEnd := if xhi < Width() then xhi else Width();
      var yEnd := if yhi < Height() then yhi else Height();
      var x := xlo;
      while x < xEnd
        invariant xlo <= x && (x <= xEnd || x == xlo)
        invariant forall i, j :: InBounds(i, j) ==>
                    tiles[i, j] == if xlo <= i < x && ylo <= j < yhi then t else old(tiles[i, j])
      {
        var y := ylo;
        while y < yEnd
          invariant ylo <= y && (y <= yEnd || y == ylo)
          invariant forall i, j :: InBounds(i, j) ==>
                      tiles[i, j] == if (xlo <= i < x && ylo <= j < yhi) || (i == x && ylo <= j < y)
                                     then t else old(tiles[i, j])
        {
          tiles[x, y] := t;
          y := y + 1;
        }
        x := x + 1;
      }
    }

    /** `fill_rect`: every cell of r, border included, becomes wall.
        Coordinates are non-negative (negative ones index from the far end
        in numpy, which the model leaves out). */
    method FillRect(r: Rect)
      requires Valid() && 0 <= r.x1 && 0 <= r.y1 && 0 <= r.x2 && 0 <= r.y2
      modifies tiles
      ensures Valid()
      ensures forall i, j :: InBounds(i, j) ==>
                tiles[i, j] == if InRect(r, i, j) then Wall() else old(tiles[i, j])
      ensures unchanged(this, explored, visible, cost, dist)
    {
      AssignSlice(r.x1, r.x2 + 1, r.y1, r.y2 + 1, Wall());
    }

    /** `carve_rect`: a room stamped on r. The border ring of r becomes wall,
        the strict interior floor, and nothing outside r changes. */
    method CarveRect(r: Rect)
      requires Valid() && 0 <= r.x1 && 0 <= r.y1 && 0 <= r.x2 && 0 <= r.y2
      modifies tiles
      ensures Valid()
      ensures forall i, j :: InBounds(i, j) ==>
                tiles[i, j] == if InInterior(r, i, j) then Floor()
                               else if InRect(r, i, j) then Wall()
                               else old(tiles[i, j])
      ensures unchanged(this, explored, visible, cost, dist)
    {
      AssignSlice(r.x1, r.x2 + 1, r.y1, r.y2 + 1, Wall());
      AssignSlice(r.x1 + 1, r.x2, r.y1 + 1, r.y2, Floor());
    }

    /** The cost layer agrees with the tiles: 1 on walkable cells, 0 on the rest. */
    ghost predicate CostMatchesTiles()
      reads this, tiles, cost
      requires Valid()
    {
      forall x, y :: 0 <= x < Width() && 0 <= y < Height() ==>
        cost[x, y] == if tiles[x, y].walkable then 1 else 0
    }

    /** `update_cost`: a fresh cost layer, 1 where walkable and 0 elsewhere. */
    method UpdateCost()
      requires Valid()
      modifies this
      ensures Valid() && fresh(cost)
      ensures CostMatchesTiles()
      ensures visible == old(visible) && dist == old(dist)
      ensures unchanged(tiles, explored, visible, dist)
    {
      var c := new int[Width(), Height()];
      var x := 0;
      while x < Width()
        modifies c
        invariant x <= Width()
        invariant forall i, j :: 0 <= i < x && 0 <= j < Height() ==>
                    c[i, j] == if tiles[i, j].walkable then 1 else 0
      {
        var y := 0;
        while y < Height()
          modifies c
          invariant y <= Height()
          invariant forall i, j :: ((0 <= i < x && 0 <= j < Height()) || (i == x && 0 <= j < y)) ==>
                      c[i, j] == if tiles[i, j].walkable then 1 else 0
        {
          c[x, y] := if tiles[x, y].walkable then 1 else 0;
          y := y + 1;
        }
        x := x + 1;
      }
      cost := c;
    }

    /** Every currently visible cell has been explored. */
    ghost predicate ExploredCoversVisible()
      reads this, tiles, visible, explored
      requires Valid()
    {
      forall x, y :: 0 <= x < Width() && 0 <= y < Height() && visible[x, y] ==> explored[x, y]
    }

    /** `update_fov`: `fov` is the grid `compute_fov` returned for the
        observer; it becomes the visible layer and is merged into the
        explored layer in place. */
    method UpdateFov(fov: array2<bool>)
      requires Valid()
      requires fov.Length0 == Width() && fov.Length1 == Height() && fov != explored
      modifies this, explored
      ensures Valid() && visible == fov
      ensures forall x, y :: InBounds(x, y) ==> explored[x, y] == (old(explored[x, y]) || fov[x, y])
      ensures ExploredCoversVisible()
      ensures cost == old(cost) && dist == old(dist)
      ensures unchanged(tiles, fov, cost, dist)
    {
      visible := fov;
      var x := 0;
      while x < Width()
        modifies explored
        invariant x <= Width()
        invariant forall i, j :: InBounds(i, j) ==>
                    explored[i, j] == if i < x then old(explored[i, j]) || fov[i, j] else old(explored[i, j])
      {
        var y := 0;
        while y < Height()
          modifies explored
          invariant y <= Height()
          invariant forall i, j :: InBounds(i, j) ==>
                      explored[i, j] == if i < x || (i == x && j < y) then old(explored[i, j]) || fov[i, j]
                                        else old(explored[i, j])
        {
          explored[x, y] := explored[x, y] || visible[x, y];
          y := y + 1;
        }
        x := x + 1;
      }
    }

    /** Goal g names cell (x, y) under numpy indexing. */
    predicate Targets(g: Point, x: int, y: int) {
      NumpyIndex(g.x, Width()) == Ok(x) && NumpyIndex(g.y, Height()) == Ok(y)
    }

    /** numpy accepts both coordinates of goal g. */
    predicate GoodGoal(g: Point) {
      NumpyIndex(g.x, Width()).Ok? && NumpyIndex(g.y, Height()).Ok?
    }

    /** Some goal of gs names cell (x, y). */
    ghost predicate Seeded(gs: seq<Point>, x: int, y: int) {
      exists k :: 0 <= k < |gs| && Targets(gs[k], x, y)
    }

    /** The position of the first goal numpy rejects, or |goals| when it
        accepts them all. */
    function FirstBadGoal(goals: seq<Point>): (k: nat)
      ensures k <= |goals|
      ensures forall j :: 0 <= j < k ==> GoodGoal(goals[j])
      ensures k < |goals| ==> !GoodGoal(goals[k])
    {
      if goals == [] || !GoodGoal(goals[0]) then 0
      else
        var rest := FirstBadGoal(goals[1..]);
        assert forall j :: 1 <= j < 1 + rest ==> goals[j] == goals[1..][j - 1];
        1 + rest
    }

    /** The part of `update_dmap` before the library's relaxation: the
        distance layer is replaced by a fresh one at the int32 maximum, and
        then each goal's numpy-indexed cell is set to 0 in turn. The first
        goal numpy rejects raises, leaving the earlier goals seeded. */
    method SeedDistances(goals: seq<Point>) returns (r: Result<()>)
      requires Valid()
      modifies this
      ensures Valid() && fresh(dist)
      ensures r.Err? <==> FirstBadGoal(goals) < |goals|
      ensures r.Err? ==> r.error == IndexOutOfRange
      ensures forall x, y :: InBounds(x, y) ==>
                dist[x, y] == if Seeded(goals[..FirstBadGoal(goals)], x, y) then 0 else Unreached
      ensures visible == old(visible) && cost == old(cost)
      ensures unchanged(tiles, explored, visible, cost)
    {
      var d := new int[Width(), Height()]((_, _) => Unreached);
      dist := d;
      var k := 0;
      while k < |goals|
        modifies d
        invariant k <= |goals| && forall j :: 0 <= j < k ==> GoodGoal(goals[j])
        invariant forall x, y :: InBounds(x, y) ==>
                    d[x, y] == if Seeded(goals[..k], x, y) then 0 else Unreached
      {
        var i, j := NumpyIndex(goals[k].x, Width()), NumpyIndex(goals[k].y, Height());
        if i.Err? || j.Err? {
          return Err(IndexOutOfRange);
        }
        d[i.value, j.value] := 0;
        assert goals[..k + 1] == goals[..k] + [goals[k]];
        forall x, y | InBounds(x, y)
          ensures Seeded(goals[..k + 1], x, y) <==> Seeded(goals[..k], x, y) || (x == i.value && y == j.value)
        {
          if x == i.value && y == j.value {
            assert Targets(goals[..k + 1][k], x, y);
          }
          if Seeded(goals[..k + 1], x, y) {
            var n :| 0 <= n < k + 1 && Targets(goals[..k + 1][n], x, y);
            if n < k {
              assert goals[..k + 1][n] == goals[..k][n];
            }
          }
          if Seeded(goals[..k], x, y) {
            var n :| 0 <= n < k && Targets(goals[..k][n], x, y);
            assert goals[..k + 1][n] == goals[..k][n];
          }
        }
        k := k + 1;
      }
      r := Ok(());
    }

    /** Goals inside the grid are all accepted and seed exactly their own
        cells. */
    lemma InBoundsGoalsSeedThemselves(goals: seq<Point>)
      requires forall g :: g in goals ==> InBounds(g.x, g.y)
      ensures FirstBadGoal(goals) == |goals|
      ensures forall x, y :: InBounds(x, y) ==> (Seeded(goals, x, y) <==> Point(x, y) in goals)
    {
    }

    /** A goal at -1 counts back from the far end: it seeds the last
        column and row. */
    lemma NegativeGoalWraps()
      requires Width() > 0 && Height() > 0
      ensures FirstBadGoal([Point(-1, -1)]) == 1
      ensures Seeded([Point(-1, -1)], Width() - 1, Height() - 1)
    {
    }
  }
}
