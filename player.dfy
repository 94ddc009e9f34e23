/**
 * The player: position, velocity and heading, the accuracy that tightens
 * while the player stands still and loosens while it moves, and the sight
 * cone of `RAYS` rays cast against the map's walls.
 *
 * Rotating a vector by an angle is trigonometry done by an external vector
 * crate; it is a parameter `rotate` of the operations that use it.
 */
module PlayerState {
  import opened Wrappers
  import opened Geometry
  import opened Config
  import RayTracing

  /** An RGBA colour of the cone, channels as reals. */
  datatype Rgba = Rgba(r: real, g: real, b: real, a: real)

  /** The colour of a ray inside the cone of fire. */
  const AimColour := Rgba(0.3, 0.2, 0.2, 1.0)

  /** The colour of every other ray of the sight cone. */
  const PlainColour := Rgba(0.3, 0.3, 0.3, 1.0)

  /** The threshold below which a squared speed or a turn counts as zero. */
  const Epsilon: real := 0.00000001

  /**
   * The accuracy after one step of standing still: `rec` tighter, but
   * never below `minAcc`.
   */
  function Tightened(accuracy: real, rec: real, minAcc: real): (a: real)
    ensures a >= minAcc
    ensures a == accuracy - rec || a == minAcc
    ensures accuracy - rec >= minAcc ==> a == accuracy - rec
  {
    var a := accuracy - rec;
    if a < minAcc then minAcc else a
  }

  /**
   * The accuracy after one step of moving: `rec` looser, but never above
   * `maxAcc`.
   */
  function Loosened(accuracy: real, rec: real, maxAcc: real): (a: real)
    ensures a <= maxAcc
    ensures a == accuracy + rec || a == maxAcc
    ensures accuracy + rec <= maxAcc ==> a == accuracy + rec
  {
    var a := accuracy + rec;
    if a > maxAcc then maxAcc else a
  }

  /**
   * With a non-negative step and an accuracy inside `[minAcc, maxAcc]`,
   * both steps stay inside the range; tightening never loosens and
   * loosening never tightens.
   */
  lemma AccuracyStaysInRange(accuracy: real, rec: real, minAcc: real, maxAcc: real)
    requires rec >= 0.0 && minAcc <= accuracy <= maxAcc
    ensures minAcc <= Tightened(accuracy, rec, minAcc) <= accuracy
    ensures accuracy <= Loosened(accuracy, rec, maxAcc) <= maxAcc
  {
  }

  /** The player counts as standing still: no speed and no turn to speak of. */
  predicate IsStill(vel: Vec2, rot: real)
  {
    LengthSq(vel) < Epsilon && Abs(rot) < Epsilon
  }

  /**
   * The angle of ray `i` from the heading: the rays sweep the field of view
   * from `-fov/2` in steps of `fov/RAYS`, and the middle ray points along
   * the heading.
   */
  function RayAngle(i: nat, fov: real): (a: real)
    ensures a == -fov / 2.0 + (i as real) * (fov / (RAYS as real))
    ensures i == 0 ==> a == -fov / 2.0
  {
    (i as real) * fov / (RAYS as real) - fov / 2.0
  }

  /** For a positive field of view the rays sweep it in increasing order of angle. */
  lemma RayAnglesIncrease(i: nat, j: nat, fov: real)
    requires i < j && fov > 0.0
    ensures RayAngle(i, fov) < RayAngle(j, fov)
  {
    var di, dj, step := i as real, j as real, fov / (RAYS as real);
    assert step > 0.0;
    assert RayAngle(j, fov) - RayAngle(i, fov) == (dj - di) * step;
    assert (dj - di) * step > 0.0;
  }

  /** The middle ray of the cone points along the heading. */
  lemma MiddleRayAlongHeading(fov: real)
    ensures RayAngle(RAYS / 2, fov) == 0.0
  {
    assert (RAYS / 2) as real == 180.0;
  }

  /** The rays start at `-fov/2` and stop one step short of `fov/2`. */
  lemma RayAnglesInRange(i: nat, fov: real)
    requires i < RAYS && fov >= 0.0
    ensures -fov / 2.0 <= RayAngle(i, fov) <= fov / 2.0 - fov / (RAYS as real)
  {
    var di, n := i as real, RAYS as real;
    ProductNonNegative(di, fov);
    ProductNonNegative(n - 1.0 - di, fov);
    assert (n - 1.0) * fov / n - di * fov / n == (n - 1.0 - di) * fov / n;
    assert (n - 1.0) * fov / n == fov - fov / n;
  }

  /** The colour of a ray: the aim colour within twice the accuracy of the heading. */
  function RayColour(angle: real, accuracy: real): (c: Rgba)
    ensures c == AimColour <==> Abs(angle) < accuracy * 2.0
    ensures c == PlainColour <==> !(Abs(angle) < accuracy * 2.0)
  {
    if Abs(angle) < accuracy * 2.0 then AimColour else PlainColour
  }

  /**
   * What one ray of the sight cone records, given the closest hit `found`
   * of the ray from `pos` along `dir`: the ray hits exactly when there is
   * a hit within `radius` of `pos`; a hit stores the hit point, and
   * anything else the point at `radius` along `dir`; both relative to `pos`.
   */
  ghost predicate ViewOf(pos: Vec2, dir: Vec2, radius: real, found: Option<Vec2>, offset: Vec2, hit: bool)
  {
    (hit <==> found.Some? && !ExceedsRadius(DistSq(pos, found.value), radius)) &&
    (hit ==> Add(pos, offset) == found.value) &&
    (!hit ==> offset == Scale(dir, radius))
  }

  /** The recorded end point and hit flag are determined by the closest hit. */
  lemma ViewOfUnique(pos: Vec2, dir: Vec2, radius: real, found: Option<Vec2>,
                     o1: Vec2, h1: bool, o2: Vec2, h2: bool)
    requires ViewOf(pos, dir, radius, found, o1, h1) && ViewOf(pos, dir, radius, found, o2, h2)
    ensures o1 == o2 && h1 == h2
  {
    if h1 {
      assert o1 == Sub(found.value, pos);
      assert o2 == Sub(found.value, pos);
    }
  }

  /**
   * With a unit direction and a non-negative radius, every end point lies
   * within the radius of the player.
   */
  lemma ViewWithinRadius(pos: Vec2, dir: Vec2, radius: real, found: Option<Vec2>, offset: Vec2, hit: bool)
    requires ViewOf(pos, dir, radius, found, offset, hit)
    requires LengthSq(dir) == 1.0 && radius >= 0.0
    ensures LengthSq(offset) <= radius * radius
  {
    if hit {
      assert offset == Sub(found.value, pos);
    } else {
      ScaledLengthSq(dir, radius);
    }
  }

  /**
   * The clipping of one ray: the hit point if there is one, else the
   * point at `radius` along `dir`, pulled back to that point when it lies
   * beyond the radius; relative to `pos`, with the hit flag.
   */
  function Clip(pos: Vec2, dir: Vec2, radius: real, found: Option<Vec2>): (r: (Vec2, bool))
    ensures ViewOf(pos, dir, radius, found, r.0, r.1)
  {
    var p := if found.Some? then found.value else Add(pos, Scale(dir, radius));
    var d := DistSq(pos, p);
    var q := if ExceedsRadius(d, radius) then Add(pos, Scale(dir, radius)) else p;
    (Sub(q, pos), found.Some? && !ExceedsRadius(d, radius))
  }

  /** The direction of ray `i` of the cone around `heading`. */
  function RayDir(rotate: (Vec2, real) -> Vec2, heading: Vec2, fov: real, i: nat): Vec2
  {
    rotate(heading, RayAngle(i, fov))
  }

  /** The closest wall hit of ray `i` from `pos`. */
  function RayHit(rotate: (Vec2, real) -> Vec2, pos: Vec2, heading: Vec2, fov: real,
                  walls: seq<RayTracing.Wall>, i: nat): Option<Vec2>
  {
    RayTracing.Closest(RayTracing.Ray(pos, RayDir(rotate, heading, fov, i)), walls)
  }

  /**
   * A ray that records a hit ends on the first of the closest walls it
   * crosses, and a ray that records none crosses no wall within the radius.
   */
  lemma RecordedHitIsClosestWall(rotate: (Vec2, real) -> Vec2, pos: Vec2, heading: Vec2, fov: real,
                                 radius: real, walls: seq<RayTracing.Wall>, i: nat, offset: Vec2, hit: bool)
    requires ViewOf(pos, RayDir(rotate, heading, fov, i), radius, RayHit(rotate, pos, heading, fov, walls, i), offset, hit)
    ensures var ray := RayTracing.Ray(pos, RayDir(rotate, heading, fov, i));
      hit <==> (exists k :: RayTracing.IsFirstClosest(ray, walls, k) &&
                  RayTracing.Cast(ray, walls[k]) == Some(Add(pos, offset)) &&
                  !ExceedsRadius(DistSq(pos, Add(pos, offset)), radius))
  {
    var ray := RayTracing.Ray(pos, RayDir(rotate, heading, fov, i));
    var found := RayHit(rotate, pos, heading, fov, walls, i);
    if hit {
      RayTracing.ClosestIff(ray, walls, found.value);
    } else if found.Some? {
      RayTracing.ClosestIff(ray, walls, found.value);
      forall k | RayTracing.IsFirstClosest(ray, walls, k) && RayTracing.Cast(ray, walls[k]) == Some(Add(pos, offset))
        ensures ExceedsRadius(DistSq(pos, Add(pos, offset)), radius)
      {
        RayTracing.ClosestIff(ray, walls, Add(pos, offset));
      }
    } else {
      forall k | RayTracing.IsFirstClosest(ray, walls, k) && RayTracing.Cast(ray, walls[k]) == Some(Add(pos, offset))
        ensures false
      {
        RayTracing.ClosestIff(ray, walls, Add(pos, offset));
      }
    }
  }

  class Player {
    var pos: Vec2
    var vel: Vec2
    var rot: real
    var heading: Vec2
    var accuracy: real
    var sightCone: seq<Vec2>
    var colorCone: seq<Rgba>
    var hitCone: seq<bool>

    const rotVel: real
    const accuracyRec: real
    const minAcc: real
    const maxAcc: real
    const fov: real
    const fovRadius: real

    /** The accuracy lies in its range, and the range and the step are well formed. */
    ghost predicate Valid()
      reads this
    {
      0.0 <= accuracyRec && minAcc <= accuracy <= maxAcc
    }

    /** `Player::new`: at rest at the origin, heading up the screen, with an empty cone. */
    constructor ()
      ensures Valid()
      ensures pos == Zero && vel == Zero && rot == 0.0 && heading == Vec2(0.0, -1.0)
      ensures accuracy == PI / 32.0 && accuracyRec == 0.0005
      ensures minAcc == PI / 64.0 && maxAcc == PI / 4.0
      ensures fov == PI / 4.0 && fovRadius == 200.0 && rotVel == 2.0 * PI / 360.0
      ensures sightCone == [] && colorCone == [] && hitCone == []
    {
      pos, vel, rot := Zero, Zero, 0.0;
      rotVel := 2.0 * PI / 360.0;
      heading := Vec2(0.0, -1.0);
      accuracy := PI / 32.0;
      accuracyRec := 0.0005;
      minAcc := PI / 64.0;
      maxAcc := PI / 4.0;
      fov := PI / 4.0;
      fovRadius := 200.0;
      sightCone, colorCone, hitCone := [], [], [];
    }

    /** `decrease_accuracy`: loosens the accuracy by one step, up to `maxAcc`. */
    method DecreaseAccuracy()
      requires Valid()
      modifies this`accuracy
      ensures Valid()
      ensures accuracy == Loosened(old(accuracy), accuracyRec, maxAcc)
    {
      accuracy := accuracy + accuracyRec;
      if accuracy > maxAcc {
        accuracy := maxAcc;
      }
      AccuracyStaysInRange(old(accuracy), accuracyRec, minAcc, maxAcc);
    }

    /** `increase_accuracy`: tightens the accuracy by one step, down to `minAcc`. */
    method IncreaseAccuracy()
      requires Valid()
      modifies this`accuracy
      ensures Valid()
      ensures accuracy == Tightened(old(accuracy), accuracyRec, minAcc)
    {
      accuracy := accuracy - accuracyRec;
      if accuracy < minAcc {
        accuracy := minAcc;
      }
      AccuracyStaysInRange(old(accuracy), accuracyRec, minAcc, maxAcc);
    }

    /** `stop_player`: the velocity and the turn are zeroed. */
    method StopPlayer()
      modifies this`vel, this`rot
      ensures vel == Zero && rot == 0.0
    {
      vel := Scale(vel, 0.0);
      rot := 0.0;
    }

    /**
     * `update_player`: one frame of motion. The position advances by the
     * velocity and the heading turns by `rot`; the accuracy tightens when
     * the player stood still and loosens otherwise; then the player stops.
     */
    method UpdatePlayer(rotate: (Vec2, real) -> Vec2)
      requires Valid()
      modifies this`pos, this`heading, this`accuracy, this`vel, this`rot
      ensures Valid()
      ensures pos == Add(old(pos), old(vel)) && heading == rotate(old(heading), old(rot))
      ensures IsStill(old(vel), old(rot)) ==> accuracy == Tightened(old(accuracy), accuracyRec, minAcc)
      ensures !IsStill(old(vel), old(rot)) ==> accuracy == Loosened(old(accuracy), accuracyRec, maxAcc)
      ensures vel == Zero && rot == 0.0
    {
      pos := Add(pos, vel);
      heading := rotate(heading, rot);
      if LengthSq(vel) < Epsilon && Abs(rot) < Epsilon {
        IncreaseAccuracy();
      } else {
        DecreaseAccuracy();
      }
      StopPlayer();
    }

    /** `turn_player`: the turn of the next frame is set, not added to. */
    method TurnPlayer(dir: real)
      modifies this`rot
      ensures rot == dir * rotVel
    {
      rot := dir * rotVel;
    }

    /**
     * `compute_view`: rebuilds the sight cone from scratch. Ray `i` leaves
     * the player at `RayAngle(i, fov)` from the heading; the cone records
     * its end point relative to the player, its colour and whether it hit
     * a wall within the field-of-view radius.
     */
    method ComputeView(walls: seq<RayTracing.Wall>, rotate: (Vec2, real) -> Vec2)
      modifies this`sightCone, this`colorCone, this`hitCone
      ensures |sightCone| == RAYS && |colorCone| == RAYS && |hitCone| == RAYS
      ensures forall i :: 0 <= i < RAYS ==> colorCone[i] == RayColour(RayAngle(i, fov), accuracy)
      ensures forall i :: 0 <= i < RAYS ==>
        ViewOf(pos, RayDir(rotate, heading, fov, i), fovRadius,
               RayHit(rotate, pos, heading, fov, walls, i), sightCone[i], hitCone[i])
    {
      var sight: seq<Vec2>, colours: seq<Rgba>, hits: seq<bool> := [], [], [];
      var i := 0;
      while i < RAYS
        invariant 0 <= i <= RAYS
        invariant |sight| == i && |colours| == i && |hits| == i
        invariant forall j :: 0 <= j < i ==> colours[j] == RayColour(RayAngle(j, fov), accuracy)
        invariant forall j :: 0 <= j < i ==>
          (sight[j], hits[j]) == Clip(pos, RayDir(rotate, heading, fov, j), fovRadius,
                                      RayHit(rotate, pos, heading, fov, walls, j))
      {
        var angle := RayAngle(i, fov);
        var dir := rotate(heading, angle);
        var col := if Abs(angle) < accuracy * 2.0 then AimColour else PlainColour;
        assert col == RayColour(RayAngle(i, fov), accuracy);
        var pt := RayTracing.Look(RayTracing.Ray(pos, dir), walls);
        var hit := false;
        var p := Add(pos, Scale(dir, fovRadius));
        if pt.Some? {
          hit := true;
          p := pt.value;
        }
        var d := DistSq(pos, p);
        if ExceedsRadius(d, fovRadius) {
          p := Add(pos, Scale(dir, fovRadius));
        }
        var offset := Vec2(p.x - pos.x, p.y - pos.y);
        assert (offset, hit && !ExceedsRadius(d, fovRadius)) == Clip(pos, dir, fovRadius, pt);
        sight := sight + [offset];
        colours := colours + [col];
        hits := hits + [hit && !ExceedsRadius(d, fovRadius)];
        i := i + 1;
      }
      sightCone, colorCone, hitCone := sight, colours, hits;
      forall j | 0 <= j < RAYS
        ensures ViewOf(pos, RayDir(rotate, heading, fov, j), fovRadius,
                       RayHit(rotate, pos, heading, fov, walls, j), sightCone[j], hitCone[j])
      {
        var c := Clip(pos, RayDir(rotate, heading, fov, j), fovRadius, RayHit(rotate, pos, heading, fov, walls, j));
        assert (sightCone[j], hitCone[j]) == c;
      }
    }
  }
}
