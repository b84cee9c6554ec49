/** Helpers shared by the dash-using actions: whether a dash can close a
    range gap, and the straight-line approach direction. */
module DashUtils {
  import opened Numeric
  import opened Geometry
  import opened Blackboard
  import Mecha
  import Sensor

  /** Share of the dash distance below which a gap is too small to dash. */
  const MinGapFactor: real := 0.3
  /** Share of the dash distance above which a gap is too large to dash. */
  const MaxGapFactor: real := 1.5

  /** A dash helps when the excess of the current distance over the
      wanted one is more than 30% and at most 150% of the dash distance.
      It is only ever advised to close a gap, and only with a positive
      dash distance: no negative or zero dash distance and no target that
      is already as close as wanted passes the window. */
  function CanReachWithDash(currentDistance: real, targetDistance: real, dashDistance: real): (r: bool)
    ensures r ==> 0.0 < dashDistance && targetDistance < currentDistance
    ensures dashDistance == 0.0 ==> !r
    ensures 0.0 <= dashDistance && currentDistance <= targetDistance ==> !r
  {
    var gap := currentDistance - targetDistance;
    gap > Mul(dashDistance, MinGapFactor) && gap <= Mul(dashDistance, MaxGapFactor)
  }

  /** The dash direction toward a target: the normalised flat offset,
      lifted back to three dimensions with z = 0. The mecha, its sensor
      and the blackboard are accepted but play no part. */
  function ApproachDirection(sqrt: real -> real, selfPos: Vec3, targetPos: Vec3,
                             mecha: Option<Mecha.Mecha>, sensor: Option<Sensor.SensorState>,
                             board: Board): (r: Vec3)
    requires IsSqrt(sqrt)
    ensures r.z == 0.0
  {
    var d := Normalize(sqrt, Sub(XY(targetPos), XY(selfPos)));
    Vec3(d.x, d.y, 0.0)
  }

  /** The approach direction is a unit vector pointing at the target when
      the two are more than 1e-5 apart in the plane, and zero otherwise;
      it depends on the two positions alone. */
  lemma ApproachPointsAtTarget(sqrt: real -> real, selfPos: Vec3, targetPos: Vec3,
                               mecha: Option<Mecha.Mecha>, sensor: Option<Sensor.SensorState>,
                               board: Board,
                               mecha': Option<Mecha.Mecha>, sensor': Option<Sensor.SensorState>,
                               board': Board)
    requires IsSqrt(sqrt)
    ensures var offset := Sub(XY(targetPos), XY(selfPos));
      var r := XY(ApproachDirection(sqrt, selfPos, targetPos, mecha, sensor, board));
      (Mag(sqrt, offset) > NormalizeEpsilon ==> SqrMag(r) == 1.0 && Dot(r, offset) > 0.0)
      && (Mag(sqrt, offset) <= NormalizeEpsilon ==> r == Zero2)
    ensures ApproachDirection(sqrt, selfPos, targetPos, mecha, sensor, board)
      == ApproachDirection(sqrt, selfPos, targetPos, mecha', sensor', board')
  {
    var offset := Sub(XY(targetPos), XY(selfPos));
    var r := XY(ApproachDirection(sqrt, selfPos, targetPos, mecha, sensor, board));
    NormalizeIsUnit(sqrt, offset);
    var m := Mag(sqrt, offset);
    if m > NormalizeEpsilon {
      var k := 1.0 / m;
      SquarePos(m);
      assert r == Scale(offset, k);
      AlongPositive(offset, k);
    }
  }

  /** Scaling a non-zero vector by a positive factor keeps it pointing the
      same way. */
  lemma AlongPositive(a: Vec2, k: real)
    requires 0.0 < k && SqrMag(a) > 0.0
    ensures Dot(Scale(a, k), a) > 0.0
  {
    assert Dot(Scale(a, k), a) == Mul(k, SqrMag(a));
    MulPos(k, SqrMag(a));
  }
}
