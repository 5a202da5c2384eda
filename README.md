# Grid maps and map generators of python-tcod-template-2024

This project models the dungeon-map core of the roguelike template.

- **Tiles** (`tiles.py`): a tile record has four fields: walkable, transparent, and a dark and a light render record.
- **Tile constants**: the wall tile, the floor tile, and the blank shroud glyph.
- **`GameMap`** (`gamemap.py`): a class over five parallel grids indexed `[x, y]`:
  - `tiles`, the tile grid;
  - `explored` and `visible`, the field-of-view masks;
  - `cost`, where 1 marks a walkable cell;
  - `dist`, the distance field.
- **Generators**: `arena` stamps one walled room, and `drunk_walk` carves a cave with a random walker that backtracks along a stack.

The modules follow the source:

- `Geom`: points, inclusive rectangles and 4-adjacency.
- `Tiles`: the tile record and its constants.
- `GameMaps`: the `GameMap` class. Its layers are `array2` fields. The methods write them in place, as the slice and cell assignments of the source do.
- `Generators`: `Arena` and `DrunkWalk`.
  - The `while` loop of `drunk_walk` is `Walk`.
  - Its body is `Step`, and `Advance` is the carving branch of `Step`.
  - A ghost carving record (the carved cells in order, each with the index of the cell it was carved from) lets the model prove that the cave is 4-connected.

`random.choice` is a nondeterministic choice (`:|`) of a candidate index, so every property holds for every choice. `compute_fov` is a parameter: `UpdateFov` receives the grid that `compute_fov` returned. `Rect.from_xywh` is modelled as a rectangle with inclusive bounds, `x2 = x + w - 1` and `y2 = y + h - 1`. `geom.py` is not part of this model.

Behaviour of the code worth noting:

- `carve_rect` walls the border ring of `r` itself and floors its strict interior.
- `desired` is the float product truncated with `int`. It counts the cells carved after the centre. In the model `desired` is a parameter.
- The walk always ends. The model proves this with the measure (uncarved interior cells, stack length). When the walk cannot reach `desired`, it raises at `stack.pop()` on an empty stack. `DrunkWalk` returns this as `Err(PopFromEmptyList)`.
- `__init__` accepts a zero dimension. Such a map raises at the first `carve`, which `DrunkWalk` returns as `Err(IndexOutOfRange)`.
- `update_dmap` replaces `dist` first, then seeds each goal under numpy indexing. A goal numpy rejects raises and leaves the earlier goals seeded.
- `dark` defaults to true in `__init__`, `arena` and `drunk_walk`. The Dafny parameters carry the same default.

## Model

| member | source | states |
|---|---|---|
| Geom.FromXywh | gamemap.py:111 | the rectangle starts at (x, y) and spans exactly w columns and h rows, inclusive of both ends |
| Tiles.NewTile | tiles.py:9-26 | the record's walkable, transparent, dark and light fields are the arguments, field for field |
| Tiles.Wall | tiles.py:31-36 | the wall tile blocks movement and sight, shows '#' in both lit states, and its dark and light records differ |
| Tiles.Floor | tiles.py:38-43 | the floor tile is walkable and transparent, shows '.' in both lit states, and its dark and light records differ |
| Tiles.Shroud | tiles.py:29 | the shroud glyph is ' ' in white on black and equals none of the four tile render records |
| GameMaps.NumpyIndex | gamemap.py:65-72 | numpy's index rule: an index is accepted exactly when it lies in -n..n-1; it then names a position in 0..n-1, either itself or itself plus n; otherwise it fails with IndexOutOfRange |
| GameMaps.GameMap.constructor | gamemap.py:14-45 | a width by height map with every tile wall, nothing explored or visible, cost 0 and distance at the int32 maximum in every cell; width and height are the tile grid's dimensions; the five layers are fresh, separate arrays |
| GameMaps.GameMap.LayersShareShape | gamemap.py:22-45 | `width` and `height`, the tile grid's dimensions, are the dimensions of every layer of a valid map |
| GameMaps.GameMap.InBoundsIsIdentityIndex | gamemap.py:62-63 | `in_bounds(x, y)` holds exactly when numpy reads both coordinates as themselves, with no wrap-around and no IndexError |
| GameMaps.GameMap.Walkable | gamemap.py:65-66 | fails exactly when numpy would reject an index; otherwise true exactly when the indexed cell is floor |
| GameMaps.GameMap.Transparent | gamemap.py:68-69 | fails exactly when numpy would reject an index; otherwise true exactly when the indexed cell is floor |
| GameMaps.GameMap.QueriesInBounds | gamemap.py:62-69 | on in-bounds coordinates, both queries read the cell itself |
| GameMaps.GameMap.Neighbors | gamemap.py:81-86 | a point is listed exactly when it is in bounds and 4-adjacent to (x, y); the order is east, west, south, north; there are at most four |
| GameMaps.GameMap.EdgeIffFewerNeighbors | gamemap.py:81-89 | an in-bounds cell is on the edge exactly when it has fewer than four neighbours |
| GameMaps.GameMap.ColumnFloors | gamemap.py:95-97 | lists exactly the walkable cells of one column from a given row on, in increasing row order |
| GameMaps.GameMap.FloorsFrom | gamemap.py:94-97 | lists exactly the walkable cells of the columns from x on, in column-major order |
| GameMaps.GameMap.FloorCandidates | gamemap.py:92-98 | the candidate list holds exactly the in-bounds walkable cells, strictly in column-major order, so none repeats |
| GameMaps.GameMap.CandidatesCountFloors | gamemap.py:92-98 | the candidate list has exactly the map's floor cells as its elements, and as many entries as there are floor cells |
| GameMaps.GameMap.GetRandomFloor | gamemap.py:91-100 | a returned point is in bounds and walkable; the call fails, with the empty-sequence error of `choice`, exactly when no cell is walkable |
| GameMaps.GameMap.Carve | gamemap.py:71-72 | an accepted index makes that one cell floor; every other cell and every other layer is unchanged; a rejected index fails and changes nothing |
| GameMaps.GameMap.AssignSlice | gamemap.py:75-79 | the numpy slice write sets every in-grid cell of the half-open block to the tile, with stops past the grid clipped, and leaves every other cell and layer as it was |
| GameMaps.GameMap.FillRect | gamemap.py:78-79 | every cell of r, border included, becomes wall; nothing outside r and no other layer changes |
| GameMaps.GameMap.CarveRect | gamemap.py:74-76 | the strict interior of r becomes floor, its border ring wall, and cells outside r and the other layers are untouched |
| GameMaps.GameMap.UpdateCost | gamemap.py:51-54 | the new cost layer is 1 on every walkable cell and 0 on every other cell; tiles, masks and distances are unchanged |
| GameMaps.GameMap.UpdateFov | gamemap.py:102-106 | the FOV grid becomes the visible layer; each cell is explored afterwards exactly when it was explored before or is now visible, so every visible cell is explored; tiles, cost and distances are unchanged |
| GameMaps.GameMap.SeedDistances | gamemap.py:56-59 | the distance layer is replaced by a fresh one. Each cell is 0 exactly when a goal before the first rejected one names it under numpy indexing, and the int32 maximum otherwise. The call fails with IndexOutOfRange exactly when numpy rejects some goal. Tiles, masks and cost are unchanged |
| GameMaps.GameMap.FirstBadGoal | gamemap.py:58-59 | the position of the first goal that numpy rejects: every goal before it is accepted, and the goal there, if any, is rejected |
| GameMaps.GameMap.InBoundsGoalsSeedThemselves | gamemap.py:56-59 | when every goal is in bounds, numpy accepts all of them, and the seeded cells are exactly the goals |
| GameMaps.GameMap.NegativeGoalWraps | gamemap.py:59 | a goal at (-1, -1) is accepted and seeds the cell in the last column and last row |
| Generators.Arena | gamemap.py:109-113 | on a fresh map of the given size, every edge cell is wall and every other cell is floor, the cost layer matches the tiles, nothing is explored or visible, and every distance is the int32 maximum |
| Generators.InsideIffOffEdge | gamemap.py:88-89 | a cell lies inside the outer ring exactly when it is in bounds and `on_edge` is false, and exactly when it lies in the block of interior cells |
| Generators.Carvable | gamemap.py:133-137 | keeps exactly the listed neighbours that are neither walkable nor on the edge |
| Generators.CarvableKeepsOrder | gamemap.py:137 | filtering a list ordered by rank around a cell keeps that order |
| Generators.CandidatesInNeighborOrder | gamemap.py:137 | the walker's candidate list follows the east, west, south, north order of `neighbors` |
| Generators.NoCandidateMeansBoxed | gamemap.py:137-138 | when the walkable cells are exactly the carved ones, an empty candidate list means every neighbour of the walker that is off the edge is already carved |
| Generators.PathTo | gamemap.py:136-144 | following the carving record back from any carved cell gives a 4-connected path over carved cells from the centre to that cell |
| Generators.TreeConnected | gamemap.py:136-144 | every carved cell is 4-connected to the first carved cell through carved cells |
| Generators.WithinCapacity | gamemap.py:133-134 | distinct cells that all lie off the outer ring number at most (width - 2) * (height - 2) |
| Generators.CarvedAreFloors | gamemap.py:131-144 | when the walkable cells are exactly the recorded ones, the recorded cells are the map's floor set |
| Generators.EdgeStaysWall | gamemap.py:131-134 | a walk that starts at the centre of a map at least 3 by 3 and carves only off the edge leaves the whole outer ring wall |
| Generators.CarveRecorded | gamemap.py:140 | after carving a further cell, the walkable cells are exactly the recorded cells plus that one |
| Generators.Advance | gamemap.py:138-142 | carving a chosen candidate extends the carving record by one new interior cell next to the walker, pushes the cell, and keeps the walk invariant |
| Generators.Step | gamemap.py:137-144 | one pass keeps the walk invariant: the walkable cells are exactly the carved ones, and the walker and every stack entry stand on carved cells. It carves exactly when some neighbour of the walker that is off the edge is uncarved. The carved cell is new, inside, next to the walker, and pushed. Otherwise it pops: the walker moves to the top entry, and exactly that entry is removed. It fails exactly when the walker is boxed in and the stack is empty, changing nothing |
| Generators.Walk | gamemap.py:128-144 | the loop ends. On success the map has exactly desired + 1 carved cells: the walkable cells are exactly the carved ones, all distinct, each after the centre off the edge. On failure fewer than desired + 1 cells were carved, and the walker stands on a carved cell, boxed in, with an empty stack |
| Generators.DrunkWalk | gamemap.py:116-147 | a zero dimension fails with IndexOutOfRange. Any other failure is the empty-stack pop, with at least the centre but at most desired cells carved. The failure's record is a carving tree of distinct cells off the edge, with the walker boxed in on one of them; so with desired 0 the call succeeds. On success the floor set is exactly the carved cells. It has exactly desired + 1 cells, contains the centre, and is 4-connected to the centre. On a map at least 3 by 3 the outer ring is all wall and desired + 1 fits the interior. The cost layer matches the tiles. Nothing is explored or visible, and every distance is the int32 maximum |

## Left out

- `compute_fov` (gamemap.py:103-105) is a library call. `UpdateFov` receives its result as a parameter, and how that result depends on transparency and the radius is not modelled.
- The relaxation `dijkstra2d` (gamemap.py:60) is a library call. Only the reset-and-seed step before it is modelled, as `SeedDistances`.
- The radius parameter `r` of `update_fov` (default 8) is only passed on to `compute_fov`. It has no counterpart in the model.
- The `coverage` parameter of `drunk_walk` (default 0.5) and the float computation of `desired` from it (gamemap.py:121, 130) are floating-point. `DrunkWalk` takes `desired` as a natural-number parameter, with no default.
- Generators.DrunkWalk: does not promise that the walk reaches `desired` whenever the interior has room. It promises only that a failure leaves the walker boxed in on an empty stack. After a backtrack the walker can leave cells behind that are no longer on the stack, so whether room always suffices was not established.
- The RGB values of the `swatch` colours are not in these files; the model names them symbolically.
- The numpy dtype layout, Fortran ordering and the int32 type of `cost` are representation details.
- `random.choice` draws uniformly. The model does not capture that distribution.
- GameMaps.GameMap.FillRect: accepts only rectangles with non-negative coordinates; numpy's reading of negative slice bounds is not modelled.
- GameMaps.GameMap.CarveRect: accepts only rectangles with non-negative coordinates, for the same reason. `Arena` passes non-negative ones on every non-empty map.
- GameMaps.GameMap.AssignSlice: takes only non-negative bounds, for the same reason.
- Negative widths and heights (numpy raises when allocating) are excluded by the `nat` types.
- The `id` and `name` properties are plain getters. They are constant fields here.
- Rendering of `dark` maps is outside these files.
- The rest of the repository is not modelled: the engine loop, the screens, save and load, the entity factory, components and queries.
