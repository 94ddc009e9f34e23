/**
 * The ray/segment intersection engine of the `ray-tracing` crate: a ray is
 * a half-line from an origin along a direction, a wall a finite segment;
 * `Cast` intersects one wall, `Look` finds the closest hit over a list.
 */
module RayTracing {
  import opened Wrappers
  import opened Geometry

  /** The half-line `origin + u * dir`, `u >= 0`. */
  datatype Ray = Ray(origin: Vec2, dir: Vec2)

  /** The closed segment from `p1` to `p2`. */
  datatype Wall = Wall(p1: Vec2, p2: Vec2)

  /**
   * The determinant `d` of the two-line system: the wall through p1, p2
   * and the ray's line through origin and origin + dir.
   */
  function Det(ray: Ray, wall: Wall): real
  {
    var x1, y1, x2, y2 := wall.p1.x, wall.p1.y, wall.p2.x, wall.p2.y;
    var x3, y3 := ray.origin.x, ray.origin.y;
    var x4, y4 := ray.origin.x + ray.dir.x, ray.origin.y + ray.dir.y;
    (x1 - x2) * (y3 - y4) - (y1 - y2) * (x3 - x4)
  }

  /** The parameter `t` of the crossing along the wall (0 at p1, 1 at p2). */
  function WallParam(ray: Ray, wall: Wall): real
    requires Det(ray, wall) != 0.0
  {
    var x1, y1 := wall.p1.x, wall.p1.y;
    var x3, y3 := ray.origin.x, ray.origin.y;
    var x4, y4 := ray.origin.x + ray.dir.x, ray.origin.y + ray.dir.y;
    ((x1 - x3) * (y3 - y4) - (y1 - y3) * (x3 - x4)) / Det(ray, wall)
  }

  /** The parameter `u` of the crossing along the ray (0 at the origin). */
  function RayParam(ray: Ray, wall: Wall): real
    requires Det(ray, wall) != 0.0
  {
    var x1, y1, x2, y2 := wall.p1.x, wall.p1.y, wall.p2.x, wall.p2.y;
    var x3, y3 := ray.origin.x, ray.origin.y;
    -((x1 - x2) * (y1 - y3) - (y1 - y2) * (x1 - x3)) / Det(ray, wall)
  }

  /** The point `p1 + t * (p2 - p1)` of the wall's parametrisation. */
  function PointOnWall(wall: Wall, t: real): Vec2
  {
    Vec2(wall.p1.x + t * (wall.p2.x - wall.p1.x), wall.p1.y + t * (wall.p2.y - wall.p1.y))
  }

  /** The point `origin + u * dir` of the ray's parametrisation. */
  function PointOnRay(ray: Ray, u: real): Vec2
  {
    Vec2(ray.origin.x + u * ray.dir.x, ray.origin.y + u * ray.dir.y)
  }

  /** `p` lies on the closed segment of `wall`. */
  ghost predicate OnSegment(p: Vec2, wall: Wall)
  {
    exists t :: 0.0 <= t <= 1.0 && p == PointOnWall(wall, t)
  }

  /** `p` lies on the half-line of `ray`, at or in front of its origin. */
  ghost predicate OnRay(p: Vec2, ray: Ray)
  {
    exists u :: 0.0 <= u && p == PointOnRay(ray, u)
  }

  /**
   * Intersects the half-line with the finite wall. A zero determinant
   * (parallel or collinear lines, a zero direction, a degenerate wall)
   * gives no hit; otherwise the hit is accepted when `0 <= t <= 1` and
   * `u >= 0`, and it is computed from the wall's parametrisation.
   */
  function Cast(ray: Ray, wall: Wall): (r: Option<Vec2>)
    ensures Det(ray, wall) == 0.0 ==> r == None
    ensures r.Some? <==>
      Det(ray, wall) != 0.0 && 0.0 <= WallParam(ray, wall) <= 1.0 && RayParam(ray, wall) >= 0.0
    ensures r.Some? ==> r.value == PointOnWall(wall, WallParam(ray, wall))
    ensures r.Some? ==> r.value == PointOnRay(ray, RayParam(ray, wall))
  {
    if Det(ray, wall) == 0.0 then None
    else
      var t := WallParam(ray, wall);
      var u := RayParam(ray, wall);
      if t >= 0.0 && t <= 1.0 && u >= 0.0 then
        CrossingOnBothLines(ray, wall);
        Some(PointOnWall(wall, t))
      else None
  }

  /** Over exact reals the wall's point at `t` is the ray's point at `u`. */
  lemma CrossingOnBothLines(ray: Ray, wall: Wall)
    requires Det(ray, wall) != 0.0
    ensures PointOnWall(wall, WallParam(ray, wall)) == PointOnRay(ray, RayParam(ray, wall))
  {
    var ex, ey := wall.p2.x - wall.p1.x, wall.p2.y - wall.p1.y;
    var wx, wy := ray.origin.x - wall.p1.x, ray.origin.y - wall.p1.y;
    var dx, dy := ray.dir.x, ray.dir.y;
    var d := Det(ray, wall);
    var t, u := WallParam(ray, wall), RayParam(ray, wall);
    assert d == ex * dy - ey * dx;
    assert t * d == wx * dy - wy * dx;
    assert u * d == wx * ey - wy * ex;
    assert d * (t * ex - u * dx - wx) == 0.0 by {
      calc {
        d * (t * ex - u * dx - wx);
        (t * d) * ex - (u * d) * dx - d * wx;
        (wx * dy - wy * dx) * ex - (wx * ey - wy * ex) * dx - (ex * dy - ey * dx) * wx;
        0.0;
      }
    }
    assert d * (t * ey - u * dy - wy) == 0.0 by {
      calc {
        d * (t * ey - u * dy - wy);
        (t * d) * ey - (u * d) * dy - d * wy;
        (wx * dy - wy * dx) * ey - (wx * ey - wy * ex) * dy - (ex * dy - ey * dx) * wy;
        0.0;
      }
    }
    ZeroFactor(d, t * ex - u * dx - wx);
    ZeroFactor(d, t * ey - u * dy - wy);
    assert wall.p1.x + t * ex == ray.origin.x + u * dx;
    assert wall.p1.y + t * ey == ray.origin.y + u * dy;
  }

  /** A product with a non-zero factor vanishes only when the other factor does. */
  lemma ZeroFactor(d: real, x: real)
    requires d != 0.0 && d * x == 0.0
    ensures x == 0.0
  {
  }

  /**
   * Completeness of `Cast`: a common point of the segment and the
   * half-line is found whenever the determinant is non-zero.
   */
  lemma CastFindsCrossing(ray: Ray, wall: Wall, t: real, u: real)
    requires Det(ray, wall) != 0.0
    requires 0.0 <= t <= 1.0 && 0.0 <= u
    requires PointOnWall(wall, t) == PointOnRay(ray, u)
    ensures Cast(ray, wall) == Some(PointOnWall(wall, t))
  {
    var ex, ey := wall.p2.x - wall.p1.x, wall.p2.y - wall.p1.y;
    var wx, wy := ray.origin.x - wall.p1.x, ray.origin.y - wall.p1.y;
    var dx, dy := ray.dir.x, ray.dir.y;
    var d := Det(ray, wall);
    assert d == ex * dy - ey * dx;
    assert wx == t * ex - u * dx;
    assert wy == t * ey - u * dy;
    assert WallParam(ray, wall) * d == t * d by {
      calc {
        WallParam(ray, wall) * d;
        wx * dy - wy * dx;
        (t * ex - u * dx) * dy - (t * ey - u * dy) * dx;
        t * (ex * dy - ey * dx);
      }
    }
    assert RayParam(ray, wall) * d == u * d by {
      calc {
        RayParam(ray, wall) * d;
        wx * ey - wy * ex;
        (t * ex - u * dx) * ey - (t * ey - u * dy) * ex;
        u * (ex * dy - ey * dx);
      }
    }
  }

  /** `Cast` hits exactly the common points of the segment and the half-line. */
  lemma CastIff(ray: Ray, wall: Wall, p: Vec2)
    ensures Cast(ray, wall) == Some(p) <==> Det(ray, wall) != 0.0 && OnSegment(p, wall) && OnRay(p, ray)
  {
    if Cast(ray, wall) == Some(p) {
      assert p == PointOnWall(wall, WallParam(ray, wall));
      assert p == PointOnRay(ray, RayParam(ray, wall));
    }
    if Det(ray, wall) != 0.0 && OnSegment(p, wall) && OnRay(p, ray) {
      var t :| 0.0 <= t <= 1.0 && p == PointOnWall(wall, t);
      var u :| 0.0 <= u && p == PointOnRay(ray, u);
      CastFindsCrossing(ray, wall, t, u);
    }
  }

  /** A point at parameter `t` in [0, 1] lies between the endpoints' coordinates. */
  lemma Between(a: real, b: real, t: real)
    requires 0.0 <= t <= 1.0
    ensures Min(a, b) <= a + t * (b - a) <= Max(a, b)
  {
    if a <= b {
      ProductNonNegative(t, b - a);
      ProductNonNegative(1.0 - t, b - a);
    } else {
      ProductNonNegative(t, a - b);
      ProductNonNegative(1.0 - t, a - b);
    }
  }

  /** A hit of `Cast` lies inside the wall's closed bounding box. */
  lemma CastInsideWallBox(ray: Ray, wall: Wall)
    requires Cast(ray, wall).Some?
    ensures Min(wall.p1.x, wall.p2.x) <= Cast(ray, wall).value.x <= Max(wall.p1.x, wall.p2.x)
    ensures Min(wall.p1.y, wall.p2.y) <= Cast(ray, wall).value.y <= Max(wall.p1.y, wall.p2.y)
  {
    var t := WallParam(ray, wall);
    Between(wall.p1.x, wall.p2.x, t);
    Between(wall.p1.y, wall.p2.y, t);
  }

  // ---------------------------------------------------------------------
  // Closest hit over a list of walls

  /**
   * One step of `look`'s scan: the hit of `wall` replaces the record only
   * when it is strictly closer to the origin (squared distances give the
   * same order as distances).
   */
  function Step(ray: Ray, record: Option<Vec2>, wall: Wall): (r: Option<Vec2>)
    ensures r == record || r == Cast(ray, wall)
    ensures r.Some? <==> record.Some? || Cast(ray, wall).Some?
    ensures r != record ==>
      Cast(ray, wall).Some? &&
      (record.None? || DistSq(ray.origin, Cast(ray, wall).value) < DistSq(ray.origin, record.value))
  {
    var hit := Cast(ray, wall);
    if hit.Some? && (record.None? || DistSq(ray.origin, hit.value) < DistSq(ray.origin, record.value))
    then hit
    else record
  }

  /** What `look` returns for `walls`: the scan of `Step` from "no record". */
  function Closest(ray: Ray, walls: seq<Wall>): (r: Option<Vec2>)
    ensures r.Some? ==> exists i :: 0 <= i < |walls| && Cast(ray, walls[i]) == r
  {
    if walls == [] then None
    else Step(ray, Closest(ray, walls[..|walls| - 1]), walls[|walls| - 1])
  }

  /**
   * Wall `i` is hit, no hit is closer than its hit, and every earlier hit
   * is strictly farther: the hit `look` is meant to return.
   */
  ghost predicate IsFirstClosest(ray: Ray, walls: seq<Wall>, i: int)
  {
    0 <= i < |walls| && Cast(ray, walls[i]).Some? &&
    (forall j :: 0 <= j < |walls| && Cast(ray, walls[j]).Some? ==>
      DistSq(ray.origin, Cast(ray, walls[i]).value) <= DistSq(ray.origin, Cast(ray, walls[j]).value)) &&
    (forall j :: 0 <= j < i && Cast(ray, walls[j]).Some? ==>
      DistSq(ray.origin, Cast(ray, walls[i]).value) < DistSq(ray.origin, Cast(ray, walls[j]).value))
  }

  /** `look` finds nothing exactly when no wall is hit (the empty list included). */
  lemma {:induction false} ClosestNoneIff(ray: Ray, walls: seq<Wall>)
    ensures Closest(ray, walls).None? <==> forall i :: 0 <= i < |walls| ==> Cast(ray, walls[i]).None?
  {
    if walls != [] {
      var n := |walls|;
      var prefix := walls[..n - 1];
      ClosestNoneIff(ray, prefix);
      assert forall i :: 0 <= i < n - 1 ==> prefix[i] == walls[i];
    }
  }

  /** Wall `i` of a prefix stays first-closest when the next wall is not closer. */
  lemma KeepRecord(ray: Ray, walls: seq<Wall>, i: int)
    requires |walls| > 0
    requires IsFirstClosest(ray, walls[..|walls| - 1], i)
    requires Cast(ray, walls[|walls| - 1]).Some? ==>
      DistSq(ray.origin, Cast(ray, walls[i]).value) <= DistSq(ray.origin, Cast(ray, walls[|walls| - 1]).value)
    ensures IsFirstClosest(ray, walls, i)
  {
    var prefix := walls[..|walls| - 1];
    assert forall j :: 0 <= j < |walls| - 1 ==> prefix[j] == walls[j];
  }

  /** The last wall becomes first-closest when it beats the prefix's record. */
  lemma NewRecord(ray: Ray, walls: seq<Wall>)
    requires |walls| > 0
    requires Cast(ray, walls[|walls| - 1]).Some?
    requires forall j :: 0 <= j < |walls| - 1 && Cast(ray, walls[j]).Some? ==>
      DistSq(ray.origin, Cast(ray, walls[|walls| - 1]).value) < DistSq(ray.origin, Cast(ray, walls[j]).value)
    ensures IsFirstClosest(ray, walls, |walls| - 1)
  {
  }

  /** A hit of `look` is the hit of the first of the closest walls. */
  lemma {:induction false} ClosestIsFirstClosest(ray: Ray, walls: seq<Wall>)
    requires Closest(ray, walls).Some?
    ensures exists i :: IsFirstClosest(ray, walls, i) && Cast(ray, walls[i]) == Closest(ray, walls)
  {
    var n := |walls|;
    var prefix := walls[..n - 1];
    assert forall j :: 0 <= j < n - 1 ==> prefix[j] == walls[j];
    var record := Closest(ray, prefix);
    var hit := Cast(ray, walls[n - 1]);
    var o := ray.origin;
    if hit.Some? && (record.None? || DistSq(o, hit.value) < DistSq(o, record.value)) {
      if record.None? {
        ClosestNoneIff(ray, prefix);
      } else {
        ClosestIsFirstClosest(ray, prefix);
        var i :| IsFirstClosest(ray, prefix, i) && Cast(ray, prefix[i]) == record;
        assert forall j :: 0 <= j < n - 1 && Cast(ray, walls[j]).Some? ==>
          DistSq(o, record.value) <= DistSq(o, Cast(ray, walls[j]).value);
      }
      NewRecord(ray, walls);
      assert IsFirstClosest(ray, walls, n - 1);
    } else {
      ClosestIsFirstClosest(ray, prefix);
      var i :| IsFirstClosest(ray, prefix, i) && Cast(ray, prefix[i]) == record;
      KeepRecord(ray, walls, i);
    }
  }

  /** At most one wall is the first of the closest. */
  lemma FirstClosestUnique(ray: Ray, walls: seq<Wall>, i: int, j: int)
    requires IsFirstClosest(ray, walls, i) && IsFirstClosest(ray, walls, j)
    ensures i == j
  {
  }

  /** `look` returns `p` exactly when `p` is the hit of the first closest wall. */
  lemma ClosestIff(ray: Ray, walls: seq<Wall>, p: Vec2)
    ensures Closest(ray, walls) == Some(p) <==>
      exists i :: IsFirstClosest(ray, walls, i) && Cast(ray, walls[i]) == Some(p)
  {
    if Closest(ray, walls) == Some(p) {
      ClosestIsFirstClosest(ray, walls);
    }
    if exists i :: IsFirstClosest(ray, walls, i) && Cast(ray, walls[i]) == Some(p) {
      var i :| IsFirstClosest(ray, walls, i) && Cast(ray, walls[i]) == Some(p);
      ClosestNoneIff(ray, walls);
      assert Closest(ray, walls).Some?;
      ClosestIsFirstClosest(ray, walls);
      var k :| IsFirstClosest(ray, walls, k) && Cast(ray, walls[k]) == Closest(ray, walls);
      FirstClosestUnique(ray, walls, i, k);
    }
  }

  /**
   * Scans every wall and keeps the strictly closest hit; `record` holds the
   * squared distance of the hit kept so far, `None` before the first hit.
   * The result is `Closest`, so `ClosestNoneIff` and `ClosestIff` say what
   * it means.
   */
  method Look(ray: Ray, walls: seq<Wall>) returns (closest: Option<Vec2>)
    ensures closest == Closest(ray, walls)
  {
    var record: Option<real> := None;
    closest := None;
    var i := 0;
    while i < |walls|
      invariant 0 <= i <= |walls|
      invariant closest == Closest(ray, walls[..i])
      invariant record.None? <==> closest.None?
      invariant closest.Some? ==> record.value == DistSq(ray.origin, closest.value)
    {
      assert walls[..i + 1][..i] == walls[..i];
      var pt := Cast(ray, walls[i]);
      if pt.Some? {
        var d := DistSq(ray.origin, pt.value);
        if record.None? || d < record.value {
          record := Some(d);
          closest := pt;
        }
      }
      i := i + 1;
    }
    assert walls[..i] == walls;
  }
}
