/** The map generators: `arena` (one walled room) and `drunk_walk` (a
    random walk with a backtracking stack that carves a cave). */
module Generators {
  import opened Geom
  import opened Tiles
  import opened GameMaps

  /** The cells x0 <= x < x1, y0 <= y < y1. */
  ghost function Block(x0: int, x1: int, y0: int, y1: int): set<Point> {
    set x, y | x0 <= x < x1 && y0 <= y < y1 :: Point(x, y)
  }

  /** p lies off the outer ring of a width by height map. */
  predicate Inside(p: Point, width: int, height: int) {
    1 <= p.x < width - 1 && 1 <= p.y < height - 1
  }

  /** An in-bounds cell is off the edge exactly when it is inside, that is
      in the block of interior cells. */
  lemma InsideIffOffEdge(m: GameMap, p: Point)
    ensures Inside(p, m.Width(), m.Height()) <==> m.InBounds(p.x, p.y) && !m.OnEdge(p.x, p.y)
    ensures Inside(p, m.Width(), m.Height()) <==> p in Block(1, m.Width() - 1, 1, m.Height() - 1)
  {
  }

  /** One column of a block holds one cell per row. */
  lemma {:induction false} ColumnCard(x: int, y0: int, y1: int)
    requires y0 <= y1
    ensures |Block(x, x + 1, y0, y1)| == y1 - y0
    decreases y1 - y0
  {
    if y0 == y1 {
      assert Block(x, x + 1, y0, y1) == {};
    } else {
      ColumnCard(x, y0, y1 - 1);
      assert Block(x, x + 1, y0, y1) == Block(x, x + 1, y0, y1 - 1) + {Point(x, y1 - 1)};
    }
  }

  /** A block of w columns and h rows holds w * h cells. */
  lemma {:induction false} BlockCard(x0: int, x1: int, y0: int, y1: int)
    requires x0 <= x1 && y0 <= y1
    ensures |Block(x0, x1, y0, y1)| == (x1 - x0) * (y1 - y0)
    decreases x1 - x0
  {
    if x0 == x1 {
      assert Block(x0, x1, y0, y1) == {};
    } else {
      BlockCard(x0, x1 - 1, y0, y1);
      ColumnCard(x1 - 1, y0, y1);
      var left, col := Block(x0, x1 - 1, y0, y1), Block(x1 - 1, x1, y0, y1);
      assert Block(x0, x1, y0, y1) == left + col;
      assert left * col == {};
      assert (x1 - x0) * (y1 - y0) == (x1 - 1 - x0) * (y1 - y0) + (y1 - y0);
    }
  }

  /** A subset is no larger than the set containing it. */
  lemma SubsetCard<T>(a: set<T>, b: set<T>)
    requires a <= b
    ensures |a| <= |b|
  {
    assert b == a + (b - a);
  }

  /** `arena`: a map whose whole interior is one room; on every map the
      edge cells are wall and every other cell is floor, and the cost
      layer is up to date. */
  method Arena(id: string, name: string, width: nat, height: nat, dark: bool := true) returns (m: GameMap)
    ensures fresh(m) && fresh(m.tiles) && fresh(m.explored) && fresh(m.visible) && fresh(m.cost) && fresh(m.dist)
    ensures m.Valid() && m.Width() == width && m.Height() == height
    ensures m.id == id && m.name == name && m.dark == dark
    ensures forall x, y :: m.InBounds(x, y) ==> m.tiles[x, y] == if m.OnEdge(x, y) then Wall() else Floor()
    ensures m.CostMatchesTiles()
    ensures forall x, y :: m.InBounds(x, y) ==> !m.explored[x, y] && !m.visible[x, y]
    ensures forall x, y :: m.InBounds(x, y) ==> m.dist[x, y] == Unreached
  {
    m := new GameMap(id, name, width, height, dark);
    // On a map without cells numpy's slice writes select nothing.
    if width > 0 && height > 0 {
      m.CarveRect(FromXywh(0, 0, width, height));
    }
    m.UpdateCost();
  }

  /** The filter `f` of `drunk_walk` applied to ns: the cells that are
      neither walkable nor on the edge (`CarvableKeepsOrder`: in
      their original order). */
  function Carvable(m: GameMap, ns: seq<Point>): (cs: seq<Point>)
    requires forall p :: p in ns ==> 0 <= p.x < m.tiles.Length0 && 0 <= p.y < m.tiles.Length1
    reads m.tiles
    ensures forall p :: p in cs <==> p in ns && !m.tiles[p.x, p.y].walkable && !m.OnEdge(p.x, p.y)
    ensures |cs| <= |ns|
  {
    if ns == [] then []
    else
      var p := ns[0];
      (if !(m.tiles[p.x, p.y].walkable || m.OnEdge(p.x, p.y)) then [p] else []) + Carvable(m, ns[1..])
  }

  /** Filtering keeps the enumeration order: when ns is listed in strictly
      increasing rank around c, so is the candidate list. */
  lemma {:induction false} CarvableKeepsOrder(m: GameMap, c: Point, ns: seq<Point>)
    requires forall p :: p in ns ==> 0 <= p.x < m.tiles.Length0 && 0 <= p.y < m.tiles.Length1
    requires forall i, j :: 0 <= i < j < |ns| ==> Rank(c, ns[i]) < Rank(c, ns[j])
    ensures forall i, j :: 0 <= i < j < |Carvable(m, ns)| ==>
              Rank(c, Carvable(m, ns)[i]) < Rank(c, Carvable(m, ns)[j])
  {
    if ns != [] {
      var tail := ns[1..];
      assert forall i, j :: 0 <= i < j < |tail| ==> Rank(c, tail[i]) < Rank(c, tail[j]) by {
        forall i, j | 0 <= i < j < |tail| ensures Rank(c, tail[i]) < Rank(c, tail[j]) {
          assert tail[i] == ns[i + 1] && tail[j] == ns[j + 1];
        }
      }
      CarvableKeepsOrder(m, c, tail);
      var rest := Carvable(m, tail);
      forall k | 0 <= k < |rest| ensures Rank(c, ns[0]) < Rank(c, rest[k]) {
        assert rest[k] in rest;
        var n :| 0 <= n < |tail| && tail[n] == rest[k];
        assert tail[n] == ns[n + 1];
      }
    }
  }

  /** The candidate list around pt follows the east, west, south, north
      order of `neighbors`. */
  lemma CandidatesInNeighborOrder(m: GameMap, pt: Point)
    ensures forall i, j :: 0 <= i < j < |Carvable(m, m.Neighbors(pt.x, pt.y))| ==>
              Rank(pt, Carvable(m, m.Neighbors(pt.x, pt.y))[i]) < Rank(pt, Carvable(m, m.Neighbors(pt.x, pt.y))[j])
  {
    CarvableKeepsOrder(m, pt, m.Neighbors(pt.x, pt.y));
  }

  /** The carving record of a walk: cells in the order they were carved,
      each one after the first a 4-neighbour of an earlier one, its parent
      (the walker's position when it was carved). */
  ghost predicate CarveTree(cells: seq<Point>, parent: seq<nat>) {
    && |cells| >= 1 && |parent| == |cells|
    && forall i :: 0 < i < |cells| ==> parent[i] < i && Adjacent(cells[i], cells[parent[i]])
  }

  /** path steps through 4-neighbours, from `from` to `to`, staying on floors. */
  ghost predicate IsPath(path: seq<Point>, floors: set<Point>, from: Point, to: Point) {
    && |path| >= 1 && path[0] == from && path[|path| - 1] == to
    && (forall k :: 0 <= k < |path| ==> path[k] in floors)
    && (forall k :: 0 <= k < |path| - 1 ==> Adjacent(path[k], path[k + 1]))
  }

  /** `to` can be reached from `from` through 4-connected floor cells. */
  ghost predicate Connected(floors: set<Point>, from: Point, to: Point) {
    exists path :: IsPath(path, floors, from, to)
  }

  /** The path back from cells[i] to the first cell along parents. */
  ghost function PathTo(cells: seq<Point>, parent: seq<nat>, i: nat): (path: seq<Point>)
    requires CarveTree(cells, parent) && i < |cells|
    ensures IsPath(path, Elems(cells), cells[0], cells[i])
    decreases i
  {
    if i == 0 then [cells[0]]
    else
      var prefix := PathTo(cells, parent, parent[i]);
      assert cells[i] in Elems(cells);
      prefix + [cells[i]]
  }

  /** Every cell of a carving record is connected to its first cell. */
  lemma TreeConnected(cells: seq<Point>, parent: seq<nat>)
    requires CarveTree(cells, parent)
    ensures forall p :: p in Elems(cells) ==> Connected(Elems(cells), cells[0], p)
  {
    forall p | p in Elems(cells) ensures Connected(Elems(cells), cells[0], p) {
      var i :| 0 <= i < |cells| && cells[i] == p;
      var path := PathTo(cells, parent, i);
      assert IsPath(path, Elems(cells), cells[0], p);
    }
  }

  /** A candidate the walker may pick is an in-bounds wall cell off the
      edge, next to the walker. */
  lemma CandidateIsCarvable(m: GameMap, pt: Point, next: Point)
    requires m.Valid() && next in Carvable(m, m.Neighbors(pt.x, pt.y))
    ensures m.InBounds(next.x, next.y) && Adjacent(next, pt)
    ensures !m.tiles[next.x, next.y].walkable
    ensures Inside(next, m.Width(), m.Height()) && next in Block(1, m.Width() - 1, 1, m.Height() - 1)
  {
  }

  /** Carving an uncarved interior cell shrinks the set of uncarved interior cells. */
  lemma UncarvedShrinks(interior: set<Point>, cells: seq<Point>, p: Point)
    requires p in interior && p !in cells
    ensures interior - Elems(cells + [p]) < interior - Elems(cells)
  {
    assert Elems(cells + [p]) == Elems(cells) + {p};
  }

  /** Appending a fresh cell next to an earlier one keeps a carving record. */
  lemma ExtendRecord(cells: seq<Point>, parent: seq<nat>, from: nat, p: Point)
    requires CarveTree(cells, parent) && Distinct(cells)
    requires from < |cells| && Adjacent(p, cells[from]) && p !in cells
    ensures CarveTree(cells + [p], parent + [from]) && Distinct(cells + [p])
  {
  }

  /** The cells a walk has carved are exactly the map's floor cells. */
  lemma CarvedAreFloors(m: GameMap, cells: seq<Point>)
    requires m.Valid() && |cells| >= 1 && m.InBounds(cells[0].x, cells[0].y)
    requires forall i :: 0 < i < |cells| ==> Inside(cells[i], m.Width(), m.Height())
    requires forall i, j :: m.InBounds(i, j) ==> (m.tiles[i, j].walkable <==> Point(i, j) in cells)
    ensures Elems(cells) == m.FloorSet()
  {
  }

  /** A walk that starts at the centre of a map at least 3 by 3 and only
      carves off the edge leaves the outer ring wall. */
  lemma EdgeStaysWall(m: GameMap, cells: seq<Point>)
    requires m.Valid() && m.Width() >= 3 && m.Height() >= 3
    requires |cells| >= 1 && cells[0] == Point(m.Width() / 2, m.Height() / 2)
    requires forall i :: 0 < i < |cells| ==> Inside(cells[i], m.Width(), m.Height())
    requires forall i, j :: m.InBounds(i, j) ==> (m.tiles[i, j].walkable <==> Point(i, j) in cells)
    ensures forall x, y :: m.InBounds(x, y) && m.OnEdge(x, y) ==> m.tiles[x, y] == Wall()
  {
  }

  /** Distinct cells inside the interior of a width by height map number
      at most (width - 2) * (height - 2). */
  lemma WithinCapacity(cells: seq<Point>, width: nat, height: nat)
    requires width >= 3 && height >= 3 && Distinct(cells)
    requires forall i :: 0 <= i < |cells| ==> Inside(cells[i], width, height)
    ensures |cells| <= (width - 2) * (height - 2)
  {
    DistinctCard(cells);
    assert Elems(cells) <= Block(1, width - 1, 1, height - 1) by {
      forall p | p in Elems(cells) ensures p in Block(1, width - 1, 1, height - 1) {
        var i :| 0 <= i < |cells| && cells[i] == p;
        assert Inside(cells[i], width, height);
      }
    }
    SubsetCard(Elems(cells), Block(1, width - 1, 1, height - 1));
    BlockCard(1, width - 1, 1, height - 1);
  }

  /** `m.carve` on a cell the walk has not carved yet: afterwards the
      walkable cells are the carved ones plus that cell. */
  method CarveRecorded(m: GameMap, p: Point, ghost cells: seq<Point>)
    requires m.Valid() && m.InBounds(p.x, p.y)
    requires forall i, j :: m.InBounds(i, j) ==> (m.tiles[i, j].walkable <==> Point(i, j) in cells)
    modifies m.tiles
    ensures m.Valid()
    ensures forall i, j :: m.InBounds(i, j) ==> (m.tiles[i, j].walkable <==> Point(i, j) in cells + [p])
  {
    NumpyIndexNonNegative(p.x, m.Width());
    NumpyIndexNonNegative(p.y, m.Height());
    var _ := m.Carve(p.x, p.y);
    forall i, j | m.InBounds(i, j) ensures m.tiles[i, j].walkable <==> Point(i, j) in cells + [p] {
      if i != p.x || j != p.y {
        assert Point(i, j) in cells + [p] <==> Point(i, j) in cells;
      }
    }
  }

  /** What holds of the walker between two passes of the loop: `cells`
      is the carving record (it starts at the centre, later cells lie off
      the edge, none repeats), the walkable cells are exactly the recorded
      ones, and the walker and every stack entry stand on recorded cells. */
  ghost predicate WalkState(m: GameMap, pt: Point, stack: seq<Point>, cells: seq<Point>, parent: seq<nat>)
    reads m, m.tiles
  {
    && m.Valid()
    && CarveTree(cells, parent) && Distinct(cells)
    && cells[0] == Point(m.Width() / 2, m.Height() / 2)
    && (forall i :: 0 < i < |cells| ==> Inside(cells[i], m.Width(), m.Height()))
    && (forall i, j :: m.InBounds(i, j) ==> (m.tiles[i, j].walkable <==> Point(i, j) in cells))
    && pt in cells
    && (forall k :: 0 <= k < |stack| ==> stack[k] in cells)
  }

  /** The walker at pt is boxed in: every 4-neighbour of pt off the outer
      ring has already been carved. */
  ghost predicate Boxed(pt: Point, cells: seq<Point>, width: int, height: int) {
    forall q :: Adjacent(q, pt) && Inside(q, width, height) ==> q in cells
  }

  /** With the walkable cells exactly the carved ones, an empty candidate
      list means the walker is boxed in. */
  lemma NoCandidateMeansBoxed(m: GameMap, pt: Point, cells: seq<Point>)
    requires m.Valid()
    requires forall i, j :: m.InBounds(i, j) ==> (m.tiles[i, j].walkable <==> Point(i, j) in cells)
    requires Carvable(m, m.Neighbors(pt.x, pt.y)) == []
    ensures Boxed(pt, cells, m.Width(), m.Height())
  {
  }

  /** The carving branch of the loop body: carve `next`, a carvable
      neighbour of the walker, push it and record it. */
  method Advance(m: GameMap, pt: Point, stack: seq<Point>, ghost cells: seq<Point>, ghost parent: seq<nat>, next: Point)
    returns (stack': seq<Point>, ghost cells': seq<Point>, ghost parent': seq<nat>)
    requires WalkState(m, pt, stack, cells, parent)
    requires m.InBounds(next.x, next.y) && Adjacent(next, pt) && !m.tiles[next.x, next.y].walkable
    requires Inside(next, m.Width(), m.Height())
    modifies m.tiles
    ensures WalkState(m, next, stack', cells', parent')
    ensures cells' == cells + [next] && next !in cells && stack' == stack + [next]
  {
    ghost var from :| 0 <= from < |cells| && cells[from] == pt;
    ExtendRecord(cells, parent, from, next);
    CarveRecorded(m, next, cells);
    stack', cells', parent' := stack + [next], cells + [next], parent + [from];
  }

  /** One pass of the loop body: when pt has carvable neighbours, carve a
      randomly chosen one, push it and move there; otherwise pop the stack
      and move to the popped cell, failing (ok false) on an empty stack. */
  method Step(m: GameMap, pt: Point, stack: seq<Point>, ghost cells: seq<Point>, ghost parent: seq<nat>)
    returns (ok: bool, carvedOne: bool, pt': Point, stack': seq<Point>, ghost cells': seq<Point>, ghost parent': seq<nat>)
    requires WalkState(m, pt, stack, cells, parent)
    modifies m.tiles
    ensures WalkState(m, pt', stack', cells', parent')
    // It carves exactly when some neighbour off the edge is still uncarved,
    // and fails exactly when it is boxed in on an empty stack.
    ensures ok && carvedOne <==> !Boxed(pt, cells, m.Width(), m.Height())
    ensures !ok <==> stack == [] && Boxed(pt, cells, m.Width(), m.Height())
    ensures ok && carvedOne ==> cells' == cells + [pt'] && pt' !in cells && Inside(pt', m.Width(), m.Height())
    ensures ok && carvedOne ==> Adjacent(pt', pt) && stack' == stack + [pt']
    ensures ok && !carvedOne ==> cells' == cells && |stack| > 0
                                 && pt' == stack[|stack| - 1] && stack' == stack[..|stack| - 1]
    ensures !ok ==> cells' == cells && parent' == parent && pt' == pt && stack' == stack
  {
    var cands := Carvable(m, m.Neighbors(pt.x, pt.y));
    if |cands| > 0 {
      var i :| 0 <= i < |cands|;
      assert cands[i] in cands;
      CandidateIsCarvable(m, pt, cands[i]);
      pt' := cands[i];
      stack', cells', parent' := Advance(m, pt, stack, cells, parent, pt');
      assert Adjacent(pt', pt) && Inside(pt', m.Width(), m.Height()) && pt' !in cells;
      ok, carvedOne := true, true;
    } else if |stack| == 0 {
      NoCandidateMeansBoxed(m, pt, cells);
      ok, carvedOne, pt', stack', cells', parent' := false, false, pt, stack, cells, parent;
    } else {
      NoCandidateMeansBoxed(m, pt, cells);
      pt', stack' := stack[|stack| - 1], stack[..|stack| - 1];
      ok, carvedOne, cells', parent' := true, false, cells, parent;
    }
  }

  /** The `while` loop of `drunk_walk` on a map whose centre has just been
      carved. It reports false where `stack.pop()` would fail on an empty
      stack. */
  method Walk(m: GameMap, desired: nat)
    returns (ok: bool, ghost carved: seq<Point>, ghost parent: seq<nat>, ghost last: Point, ghost rest: seq<Point>)
    requires m.Valid() && m.InBounds(m.Width() / 2, m.Height() / 2)
    requires forall i, j :: m.InBounds(i, j) ==>
               (m.tiles[i, j].walkable <==> i == m.Width() / 2 && j == m.Height() / 2)
    modifies m.tiles
    ensures m.Valid()
    ensures CarveTree(carved, parent) && Distinct(carved)
    ensures carved[0] == Point(m.Width() / 2, m.Height() / 2)
    ensures forall i :: 0 < i < |carved| ==> Inside(carved[i], m.Width(), m.Height())
    ensures forall i, j :: m.InBounds(i, j) ==> (m.tiles[i, j].walkable <==> Point(i, j) in carved)
    ensures ok ==> |carved| == desired + 1
    ensures !ok ==> |carved| <= desired
    // On failure the walker stands on a carved cell, boxed in, with an
    // empty stack left to pop.
    ensures !ok ==> last in carved && rest == [] && Boxed(last, carved, m.Width(), m.Height())
  {
    var pt := Point(m.Width() / 2, m.Height() / 2);
    var stack := [pt];
    var floors := 0;
    carved, parent := [pt], [0];
    ghost var interior := Block(1, m.Width() - 1, 1, m.Height() - 1);
    while floors < desired
      invariant WalkState(m, pt, stack, carved, parent)
      invariant |carved| == floors + 1 && floors <= desired
      decreases interior - Elems(carved), |stack|
    {
      var stepped, carvedOne;
      ghost var before := carved;
      stepped, carvedOne, pt, stack, carved, parent := Step(m, pt, stack, carved, parent);
      if !stepped {
        return false, carved, parent, pt, stack;
      }
      if carvedOne {
        floors := floors + 1;
        UncarvedShrinks(interior, before, pt);
      }
    }
    ok, last, rest := true, pt, stack;
  }

  /** `drunk_walk`, with `desired` the number of cells to carve after the
      centre. Starting from the centre, the walker carves a random carvable
      neighbour and pushes it, or, when boxed in, pops the stack and moves
      to the popped cell. A map without cells fails at the first `carve`;
      popping an empty stack fails too. */
  method DrunkWalk(id: string, name: string, width: nat, height: nat, desired: nat, dark: bool := true)
    returns (r: Result<GameMap>, ghost carved: seq<Point>, ghost parent: seq<nat>)
    ensures width == 0 || height == 0 ==> r == Err(IndexOutOfRange)
    // A walk on a non-empty map fails only at the empty-stack pop, with
    // some but fewer than desired + 1 cells carved and the walker boxed in.
    ensures r.Err? && width > 0 && height > 0 ==> r.error == PopFromEmptyList && 1 <= |carved| <= desired
    ensures r.Err? && width > 0 && height > 0 ==>
              && CarveTree(carved, parent) && Distinct(carved) && carved[0] == Point(width / 2, height / 2)
              && (forall i :: 0 < i < |carved| ==> Inside(carved[i], width, height))
              && exists last :: last in carved && Boxed(last, carved, width, height)
    ensures r.Ok? ==> fresh(r.value) && fresh(r.value.tiles) && fresh(r.value.explored)
                      && fresh(r.value.visible) && fresh(r.value.cost) && fresh(r.value.dist)
    ensures r.Ok? ==> r.value.Valid() && r.value.Width() == width && r.value.Height() == height
    ensures r.Ok? ==> r.value.id == id && r.value.name == name && r.value.dark == dark
    // The record of the walk: it starts at the centre, each later cell is
    // off the edge and a 4-neighbour of an earlier one (the walker's cell
    // when it was carved, as `Step` states), no cell is carved twice, and
    // the carved cells are exactly the map's floor.
    ensures r.Ok? ==> CarveTree(carved, parent) && carved[0] == Point(width / 2, height / 2)
    ensures r.Ok? ==> Distinct(carved) && Elems(carved) == r.value.FloorSet()
    ensures r.Ok? ==> forall i :: 0 < i < |carved| ==> !r.value.OnEdge(carved[i].x, carved[i].y)
    ensures r.Ok? ==> |r.value.FloorSet()| == desired + 1
    ensures r.Ok? && width >= 3 && height >= 3 ==>
              forall x, y :: r.value.InBounds(x, y) && r.value.OnEdge(x, y) ==> r.value.tiles[x, y] == Wall()
    ensures r.Ok? && width >= 3 && height >= 3 ==> desired + 1 <= (width - 2) * (height - 2)
    ensures r.Ok? ==> forall p :: p in r.value.FloorSet() ==>
                        Connected(r.value.FloorSet(), Point(width / 2, height / 2), p)
    ensures r.Ok? ==> r.value.CostMatchesTiles()
    ensures r.Ok? ==> forall x, y :: r.value.InBounds(x, y) ==>
                        !r.value.explored[x, y] && !r.value.visible[x, y] && r.value.dist[x, y] == Unreached
  {
    carved, parent := [], [];
    var m := new GameMap(id, name, width, height, dark);
    var x, y := m.Width() / 2, m.Height() / 2;
    var c := m.Carve(x, y);
    if c.Err? {
      return Err(c.error), carved, parent;
    }
    var ok;
    ghost var last, rest;
    ok, carved, parent, last, rest := Walk(m, desired);
    if !ok {
      assert last in carved && Boxed(last, carved, width, height);
      return Err(PopFromEmptyList), carved, parent;
    }
    m.UpdateCost();
    CarvedAreFloors(m, carved);
    DistinctCard(carved);
    TreeConnected(carved, parent);
    if width >= 3 && height >= 3 {
      EdgeStaysWall(m, carved);
      assert Inside(carved[0], width, height);
      WithinCapacity(carved, width, height);
    }
    r := Ok(m);
  }
}
