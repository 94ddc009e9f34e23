# bullet-echo geometry core in Dafny

This project models the geometric core of *bullet-echo*, a small top-down
shooter written in Rust, and proves properties of that model. The core has
five parts:

- **Ray tracing** (`ray-tracing` crate). `Cast` intersects a half-line ray
  with a finite wall through the determinant of the two-line system.
  `Look` scans a wall list and keeps the strictly closest hit.
- **Rectangles** (`qtree/bounds`). These are the closed-box membership test
  `Contains` and the overlap test `IntersectsR`, for boxes given by a
  centre and half-extents.
- **Point quadtree** (`qtree`). It has capacity-bounded nodes with lazy
  division into NE, NW, SE and SW children. `Insert` delegates to children
  in that order, `Query` prunes by box overlap, and `Clear` empties
  recursively.
- **Player** (`player`). This covers the accuracy clamp, one frame of
  motion, and the sight cone of `RAYS = 360` rays.
  - Each ray is cast against the walls with `Look`.
  - It is clipped to the field-of-view radius.
  - It is coloured by the cone of fire.
- **Pressed keys** (`game`). The game keeps a duplicate-free list of the
  keys held down.

The model uses these conventions:

- Coordinates are exact `real`s.
- Distances are compared squared. `sqrt(dsq) > r` is stated as
  `Geometry.ExceedsRadius(dsq, r)`, which is exact for the non-negative root.
- Rotating a vector (trigonometry from an external vector crate) is a
  parameter `rotate: (Vec2, real) -> Vec2` of the player operations.
- The quadtree is a value.
  - A node owns its boxed children exclusively, so updating a node in
    place is modelled by returning the updated node.
  - `Query` is a method with the source's loop over the node's own points.

Files:
- `wrappers.dfy`: the `Option` type.
- `geometry.dfy`: vectors.
- `config.dfy`: the crate constants.
- `ray_tracing.dfy`
- `bounds.dfy`
- `qtree.dfy`
- `player.dfy`
- `game.dfy`

## Model

| member | source | states |
|---|---|---|
| RayTracing.Cast | ray-tracing/src/lib.rs:29-54 | A zero determinant gives no hit. There is a hit exactly when the determinant is non-zero, `0 <= t <= 1` and `u >= 0`. A hit is `p1 + t*(p2 - p1)` and is also `origin + u*dir`. |
| RayTracing.CrossingOnBothLines | ray-tracing/src/lib.rs:34-45 | Over exact reals the wall's point at `t` and the ray's point at `u` coincide. |
| RayTracing.CastFindsCrossing | ray-tracing/src/lib.rs:39-53 | Completeness: when the determinant is non-zero, any common point of the segment and the half-line is the hit returned. |
| RayTracing.CastIff | ray-tracing/src/lib.rs:29-54 | `Cast` returns `p` exactly when the determinant is non-zero and `p` lies on both the closed segment and the half-line. |
| RayTracing.CastInsideWallBox | ray-tracing/src/lib.rs:47-51 | A hit lies inside the wall's closed bounding box. |
| RayTracing.Step | ray-tracing/src/lib.rs:60-66 | One step of the scan keeps the record or takes the wall's hit. It takes the hit only when the wall is hit and there is no record yet or the hit is strictly closer. |
| RayTracing.Closest | ray-tracing/src/lib.rs:56-69 | The fold of `Step` over the walls that `look`'s loop computes. A result is the hit of one of the walls. |
| RayTracing.Look | ray-tracing/src/lib.rs:56-69 | The scan with its running record returns `Closest`, the hit kept by strictly-closer replacement. |
| RayTracing.ClosestNoneIff | ray-tracing/src/lib.rs:56-69 | There is no hit exactly when no wall is hit, including an empty wall list. |
| RayTracing.ClosestIsFirstClosest | ray-tracing/src/lib.rs:59-66 | A hit is the cast of one wall. No hit is closer, and every earlier wall's hit is strictly farther, so the first wins a tie. |
| RayTracing.FirstClosestUnique | ray-tracing/src/lib.rs:62-65 | At most one wall is the first of the closest. |
| RayTracing.ClosestIff | ray-tracing/src/lib.rs:56-69 | The result is `Some(p)` exactly when `p` is the cast of the first closest wall. |
| Bounds.Rect.Contains | src/qtree/bounds.rs:21-29 | Closed-box membership, edge points inside: the point is within the half-extents of the centre on both axes. A box with a negative half-extent contains nothing. |
| Bounds.Rect.IntersectsR | src/qtree/bounds.rs:31-36 | The boxes are not strictly apart along x or along y: on each axis the centres are no farther apart than the sum of the half-extents. |
| Bounds.IntersectsIffOverlap | src/qtree/bounds.rs:31-36 | With non-negative extents, boxes intersect exactly when both closed projections overlap. Touching boxes intersect. |
| Bounds.IntersectsSymmetric | src/qtree/bounds.rs:31-36 | The overlap test does not depend on the order of its operands. |
| Bounds.CommonPointIntersects | src/qtree/bounds.rs:21-36 | A point contained in both boxes makes them intersect. |
| Bounds.OverlapCorner | src/qtree/bounds.rs:21-36 | The converse, for non-negative extents: intersecting boxes share a contained point. |
| Bounds.SelfContainment | src/qtree/bounds.rs:21-36 | A box with non-negative extents contains its centre and its corners, and it intersects itself. |
| QuadTree.New | src/qtree.rs:22-38 | A new node is valid and empty, has no children, and its boundary is centred at `center`. |
| QuadTree.ChildInsideParent | src/qtree.rs:50-81 | Each child box lies inside the parent's box. |
| QuadTree.CoveringQuadrant | src/qtree.rs:50-81 | Every point of a box lies in one of the four child boxes. The first such box in NE, NW, SE, SW order is returned. |
| QuadTree.Subdivide | src/qtree.rs:50-81 | The node becomes divided, with four new empty children. They have the quarter boxes and the parent's capacity. Stored points and validity are kept. |
| QuadTree.ContentsInBoundary | src/qtree.rs:83-88 | Every point stored anywhere in a valid tree lies inside the root's boundary. |
| QuadTree.Insert | src/qtree.rs:83-105 | An outside point is refused and the tree is unchanged. With room, an inside point is appended to the node's own points. A full node divides if needed and keeps its own points. Every inside point is accepted, and exactly one copy of it is added. Validity, boundary, centre and capacity are kept. Which child receives the point is stated by `InsertRoutes`. |
| QuadTree.InsertFrom | src/qtree.rs:92-104 | The children from a given quadrant on are tried in order, and the first that accepts the point is replaced by its updated self. The node stays valid and gains exactly that point. |
| QuadTree.InsertFromRoutes | src/qtree.rs:93-103 | The descent leaves the node equal to the node with only the covering child replaced, that child being the first in NE, NW, SE, SW order whose box holds the point. The other three children are unchanged. |
| QuadTree.Divided | src/qtree.rs:90-92 | A full node is divided first if it is not yet. An already divided node is unchanged. Stored points are kept, and every child is valid with its quarter box and the node's capacity. |
| QuadTree.InsertRoutes | src/qtree.rs:83-105 | When a full node receives a point of its boundary, the node is divided if needed. The first child in NE, NW, SE, SW order whose box holds the point receives the point. The node's own points and the other three children stay as they were. |
| QuadTree.ReplaceChild | src/qtree.rs:92-104 | Replacing one child by its updated self, which holds one more point, keeps the node valid and adds exactly that point. |
| QuadTree.Query | src/qtree.rs:107-124 | The result is the stored points that the rectangle contains. They come in order: own points, then NE, NW, SE, SW. The result is empty when the boundary misses the rectangle. |
| QuadTree.QueryCounts | src/qtree.rs:107-124 | A query reports each point the rectangle contains exactly as many times as it is stored, and no other point. |
| QuadTree.MatchingConcat | src/qtree.rs:112-122 | Filtering a concatenation is the concatenation of the filtered parts, which is how the children's results are appended. |
| QuadTree.Clear | src/qtree.rs:126-135 | The node is left empty and undivided. Boundary, centre and capacity are kept, and the emptied children stay attached. |
| QuadTree.ClearIdempotent | src/qtree.rs:126-135 | Clearing twice is clearing once. |
| QuadTree.QueryAfterClear | src/qtree.rs:107-135 | After a clear every query is empty. |
| QuadTree.InsertThenQuery | src/qtree.rs:83-124 | A point inserted inside the boundary is accepted, and any query whose box holds it returns it. |
| QuadTree.InsertThenClear | src/qtree.rs:83-135 | Inserting into a node with room, then clearing, equals clearing. |
| QuadTree.MapTree | src/map.rs:20-28 | The map's tree is valid and empty. It is centred at the origin with half-extents 400 by 300 and capacity 4. |
| QuadTree.FirstFour | src/qtree.rs:83-88 | On the map's tree, inserting (0,0) to (3,0) fills the root without dividing it. |
| QuadTree.FifthDivides | src/qtree.rs:89-124 | Inserting (4,0) next divides the root. A query over the root's box then returns each of the five points exactly once. |
| PlayerState.Tightened | src/player.rs:82-87 | Tightening never goes below `minAcc`, and it is the plain decrement when that stays in range. |
| PlayerState.Loosened | src/player.rs:75-80 | Loosening never goes above `maxAcc`, and it is the plain increment when that stays in range. |
| PlayerState.AccuracyStaysInRange | src/player.rs:75-87 | With a non-negative step, an accuracy in `[minAcc, maxAcc]` stays there under both steps. Tightening does not loosen, and loosening does not tighten. |
| PlayerState.Player.constructor | src/player.rs:41-73 | The player starts at rest at the origin, heading `(0,-1)`, with the source's accuracy, field-of-view and turn constants and empty cones. |
| PlayerState.Player.DecreaseAccuracy | src/player.rs:75-80 | The accuracy becomes `Loosened` of the old one, and the range invariant is kept. |
| PlayerState.Player.IncreaseAccuracy | src/player.rs:82-87 | The accuracy becomes `Tightened` of the old one, and the range invariant is kept. |
| PlayerState.Player.StopPlayer | src/player.rs:89-92 | The velocity becomes zero and the turn becomes zero. |
| PlayerState.Player.UpdatePlayer | src/player.rs:94-105 | The position advances by the velocity and the heading turns by `rot`. The accuracy tightens exactly when the squared speed and the turn are below `1e-8`, and loosens otherwise. Then velocity and turn are zero. |
| PlayerState.Player.TurnPlayer | src/player.rs:115-117 | The turn is overwritten with `dir * rotVel`, not accumulated. |
| PlayerState.RayAngle | src/player.rs:129-130 | Ray `i` is at `-fov/2 + i*(fov/RAYS)`: the sweep starts at `-fov/2` and moves in steps of `fov/RAYS`. |
| PlayerState.MiddleRayAlongHeading | src/player.rs:129-130 | The middle ray, number `RAYS/2`, is at angle 0, along the heading. |
| PlayerState.RayAnglesIncrease | src/player.rs:128-131 | For a positive field of view, the ray angles strictly increase with the ray index. |
| PlayerState.RayAnglesInRange | src/player.rs:128-131 | The ray angles lie in `[-fov/2, fov/2 - fov/RAYS]`. |
| PlayerState.RayColour | src/player.rs:133-137 | The aim colour is used exactly when `abs(angle) < 2*accuracy`, and the plain colour otherwise. |
| PlayerState.Clip | src/player.rs:145-164 | A ray is a hit exactly when `Look` found a point within the radius, and it stores that point minus the position. Any other ray stores `dir * radius`. |
| PlayerState.ViewOfUnique | src/player.rs:145-164 | The recorded end point and hit flag are determined by the closest hit. |
| PlayerState.ViewWithinRadius | src/player.rs:152-158 | For a unit direction and a non-negative radius, every recorded end point lies within the radius. |
| PlayerState.RecordedHitIsClosestWall | src/player.rs:139-164 | A ray records a hit exactly when it lands on the first closest wall it crosses within the radius. |
| PlayerState.Player.ComputeView | src/player.rs:120-166 | The three cones are rebuilt with exactly `RAYS` entries each, discarding the old ones. Entry `i` holds the colour of angle `i` and the clipped end point and hit flag of the closest hit of ray `i`. |
| PressedKeys.Without | src/game.rs:49-53 | The key no longer occurs, and every other key of the list remains. |
| PressedKeys.WithoutAbsent | src/game.rs:49-53 | Removing an absent key leaves the list unchanged. |
| PressedKeys.WithoutConcat | src/game.rs:51 | Removal distributes over concatenation, so the kept keys keep their relative order. |
| PressedKeys.WithoutMultiset | src/game.rs:51 | Every occurrence of the key goes, and every other key keeps its count. |
| PressedKeys.WithoutNoDuplicates | src/game.rs:49-53 | Removal keeps a duplicate-free list duplicate-free. |
| PressedKeys.Game.constructor | src/game.rs:23-36 | A new game holds no pressed key. |
| PressedKeys.Game.AddKeyPressed | src/game.rs:43-47 | An absent key is appended at the end, and a present key leaves the list unchanged. The list stays duplicate-free. |
| PressedKeys.Game.RemoveKeyPressed | src/game.rs:49-53 | The list becomes `Without` of the old list, so the key is gone, and it stays duplicate-free. |

## Left out

- Rendering is not modelled: every `draw` method only issues graphics calls.
- The event loop, window and font handling are not modelled, nor is the key dispatch of `Game::update`. They are glue around the modelled operations.
- `Game::load_map` is file reading and JSON parsing, and `Game::spawn_enemy` and the enemy's clipping are rendering support. The wall list is an input sequence.
- `move_player`, `slide_player` and `Ray::point_at` are not modelled: they normalise vectors, which needs a square root.
- Rotation is a parameter of `UpdatePlayer` and `ComputeView` instead of the trigonometric rotation.
- `f64` behaviour is not modelled.
  - Rounding is not modelled, nor the exact `d == 0.0` test under rounding.
  - The gaps that rounding could leave between child boxes are not modelled.
  - The source starts `look`'s record at `f64::MAX`; the model starts with no record, so it also keeps a hit at the largest distances.
- The colour channels are `f32` in the source and exact reals here.
- The quadtree is modelled as a value, not as boxes updated in place. Each operation returns the new tree, so sharing between nodes cannot arise; the exclusive ownership of the boxed children rules it out in the source too.
- QuadTree.Insert: requires a capacity of at least 1. With capacity 0 every new child is full at once and the source's descent never ends.
- QuadTree.Clear: requires a valid tree, because the source unwraps the children of every divided node.
- QuadTree.Query: requires a valid tree, because the source unwraps the children of every divided node. `New`, `Insert` and `Clear` all keep a tree valid.
- `Ray` is an immutable value, so `Cast` and `Look` cannot change its origin or direction. The source takes `&mut self` but never writes it.
- Player fields that the modelled operations do not use are not modelled: health, ammo, magazine, fire rate, reload time, radius, linear velocity and the health bar. The game's other fields are left out too: player, enemies, map, score, level, game over and the random generator.
- The tuning parameters of the player are `const`, because no modelled operation changes them.
- `compute_view` converts the map's walls to ray-tracing walls with the same two end points; `ComputeView` takes the ray-tracing walls directly.
- The key type is a type parameter with equality, not the windowing library's key enum.
