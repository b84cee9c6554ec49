/** Motion prediction for two bodies moving at constant velocity in the
    plane: the time of closest approach, the distance at a time, the
    clamped path-crossing test and the first-order intercept of a moving
    target by a projectile of fixed speed. Magnitudes use a caller-supplied
    square root (see Geometry.IsSqrt). */
module Prediction {
  import opened Numeric
  import opened Geometry

  /** Below this squared relative speed the bodies are treated as not
      moving relative to each other. */
  const RelativeSpeedEpsilon: real := 1.0e-8

  /** B's position relative to A's at time t. */
  function Gap(posA: Vec2, velA: Vec2, posB: Vec2, velB: Vec2, t: real): Vec2 {
    Sub(Add(posB, Scale(velB, t)), Add(posA, Scale(velA, t)))
  }

  /** The relative position moves along a line: r0 + vRel t. */
  lemma GapIsLinear(posA: Vec2, velA: Vec2, posB: Vec2, velB: Vec2, t: real)
    ensures Gap(posA, velA, posB, velB, t) == Add(Sub(posB, posA), Scale(Sub(velB, velA), t))
  {
  }

  /** |r + v t|^2 = |r|^2 + 2 t (r.v) + t^2 |v|^2. */
  lemma ExpandSqrMag(r: Vec2, v: Vec2, t: real)
    ensures SqrMag(Add(r, Scale(v, t))) == SqrMag(r) + 2.0 * t * Dot(r, v) + Sq(t) * SqrMag(v)
  {
  }

  lemma DotSelf(v: Vec2)
    ensures Dot(v, v) == SqrMag(v)
  {
  }

  /** Completing the square: with ts = -(r.v)/|v|^2, the squared length at
      any t exceeds the one at ts by |v|^2 (t - ts)^2. */
  lemma QuadGap(r: Vec2, v: Vec2, t: real)
    requires SqrMag(v) > 0.0
    ensures var ts := -Dot(r, v) / SqrMag(v);
      SqrMag(Add(r, Scale(v, t))) == SqrMag(Add(r, Scale(v, ts))) + SqrMag(v) * Sq(t - ts)
  {
    var a := SqrMag(v);
    var b := Dot(r, v);
    var ts := -b / a;
    assert ts * a == -b;
    ExpandSqrMag(r, v, t);
    ExpandSqrMag(r, v, ts);
    assert Sq(t) * a - Sq(ts) * a == a * Sq(t - ts) + 2.0 * ts * a * (t - ts);
  }

  /** ComputeClosestApproachTime: 0 for (nearly) equal velocities, else the
      time at which the relative velocity is orthogonal to the relative
      position, i.e. where the squared distance stops decreasing. */
  function ClosestApproachTime(posA: Vec2, velA: Vec2, posB: Vec2, velB: Vec2): (t: real)
    ensures SqrMag(Sub(velB, velA)) <= RelativeSpeedEpsilon ==> t == 0.0
    ensures SqrMag(Sub(velB, velA)) > RelativeSpeedEpsilon ==>
      Dot(Sub(posB, posA), Sub(velB, velA)) + t * SqrMag(Sub(velB, velA)) == 0.0
  {
    var r0 := Sub(posB, posA);
    var vRel := Sub(velB, velA);
    var vRel2 := SqrMag(vRel);
    if vRel2 <= RelativeSpeedEpsilon then 0.0 else -Dot(r0, vRel) / vRel2
  }

  /** The squared distance between the bodies at time t. */
  function SqDistanceAt(posA: Vec2, velA: Vec2, posB: Vec2, velB: Vec2, t: real): real {
    SqrMag(Gap(posA, velA, posB, velB, t))
  }

  /** When the bodies do move relative to each other, or do not move
      relative to each other at all, the closest-approach time minimises
      their distance over all times, past and future. */
  lemma ClosestApproachMinimises(posA: Vec2, velA: Vec2, posB: Vec2, velB: Vec2, t: real)
    requires SqrMag(Sub(velB, velA)) > RelativeSpeedEpsilon || velA == velB
    ensures SqDistanceAt(posA, velA, posB, velB, ClosestApproachTime(posA, velA, posB, velB))
         <= SqDistanceAt(posA, velA, posB, velB, t)
  {
    var r0 := Sub(posB, posA);
    var vRel := Sub(velB, velA);
    var ts := ClosestApproachTime(posA, velA, posB, velB);
    GapIsLinear(posA, velA, posB, velB, t);
    GapIsLinear(posA, velA, posB, velB, ts);
    if velA == velB {
      assert vRel == Zero2;
      ExpandSqrMag(r0, vRel, t);
      ExpandSqrMag(r0, vRel, ts);
    } else {
      QuadGap(r0, vRel, t);
      SquareNonNeg(t - ts);
      MulNonNeg(SqrMag(vRel), Sq(t - ts));
    }
  }

  /** The closest-approach time does not depend on which body is A. */
  lemma ClosestApproachSymmetric(posA: Vec2, velA: Vec2, posB: Vec2, velB: Vec2)
    ensures ClosestApproachTime(posA, velA, posB, velB) == ClosestApproachTime(posB, velB, posA, velA)
  {
    MulNegNeg(velB.x - velA.x, velB.x - velA.x);
    MulNegNeg(velB.y - velA.y, velB.y - velA.y);
    assert SqrMag(Sub(velB, velA)) == SqrMag(Sub(velA, velB));
  }

  /** ComputeDistanceAtTime: the magnitude of the gap at time t. */
  function DistanceAtTime(sqrt: real -> real, posA: Vec2, velA: Vec2, posB: Vec2, velB: Vec2, t: real): (d: real)
    requires IsSqrt(sqrt)
    ensures 0.0 <= d && Sq(d) == SqDistanceAt(posA, velA, posB, velB, t)
  {
    Mag(sqrt, Gap(posA, velA, posB, velB, t))
  }

  /** The distance is the same measured from either body. */
  lemma DistanceSymmetric(sqrt: real -> real, posA: Vec2, velA: Vec2, posB: Vec2, velB: Vec2, t: real)
    requires IsSqrt(sqrt)
    ensures DistanceAtTime(sqrt, posA, velA, posB, velB, t) == DistanceAtTime(sqrt, posB, velB, posA, velA, t)
  {
    var g := Gap(posA, velA, posB, velB, t);
    var h := Gap(posB, velB, posA, velA, t);
    assert h == Neg(g);
    MulNegNeg(g.x, g.x);
    MulNegNeg(g.y, g.y);
    assert SqrMag(g) == SqrMag(h);
  }

  /** The time the crossing test evaluates: the closest-approach time
      clamped into [0, horizon]. */
  function EvaluatedTime(posA: Vec2, velA: Vec2, posB: Vec2, velB: Vec2, horizon: real): (t: real)
    requires horizon > 0.0
    ensures 0.0 <= t <= horizon
  {
    Clamp(ClosestApproachTime(posA, velA, posB, velB), 0.0, horizon)
  }

  /** Clamping the unconstrained minimiser of a convex quadratic into an
      interval gives the minimiser over that interval. */
  lemma ClampedMinimises(r: Vec2, v: Vec2, horizon: real, t: real)
    requires SqrMag(v) > 0.0 && 0.0 <= t <= horizon
    ensures var ts := -Dot(r, v) / SqrMag(v);
      SqrMag(Add(r, Scale(v, Clamp(ts, 0.0, horizon)))) <= SqrMag(Add(r, Scale(v, t)))
  {
    var ts := -Dot(r, v) / SqrMag(v);
    var c := Clamp(ts, 0.0, horizon);
    QuadGap(r, v, t);
    QuadGap(r, v, c);
    if ts < 0.0 {
      SquareLeIff(c - ts, t - ts);
    } else if ts > horizon {
      SquareLeIff(ts - c, ts - t);
      MulNegNeg(c - ts, c - ts);
      MulNegNeg(t - ts, t - ts);
    } else {
      SquareNonNeg(t - ts);
    }
    assert Sq(c - ts) <= Sq(t - ts);
    MulNonNeg(SqrMag(v), Sq(t - ts) - Sq(c - ts));
    assert SqrMag(v) * Sq(t - ts) - SqrMag(v) * Sq(c - ts) == Mul(SqrMag(v), Sq(t - ts) - Sq(c - ts));
  }

  /** The evaluated time is where the bodies come closest within the
      horizon, whenever they move relative to each other (or not at all). */
  lemma EvaluatedTimeMinimises(posA: Vec2, velA: Vec2, posB: Vec2, velB: Vec2, horizon: real, t: real)
    requires horizon > 0.0 && 0.0 <= t <= horizon
    requires SqrMag(Sub(velB, velA)) > RelativeSpeedEpsilon || velA == velB
    ensures SqDistanceAt(posA, velA, posB, velB, EvaluatedTime(posA, velA, posB, velB, horizon))
         <= SqDistanceAt(posA, velA, posB, velB, t)
  {
    var te := EvaluatedTime(posA, velA, posB, velB, horizon);
    GapIsLinear(posA, velA, posB, velB, t);
    GapIsLinear(posA, velA, posB, velB, te);
    if velA == velB {
      SameVelocityConstantGap(posA, velA, posB, velB, t, te);
    } else {
      MovingEvaluatedTime(posA, velA, posB, velB, horizon, te);
      ClampedMinimises(Sub(posB, posA), Sub(velB, velA), horizon, t);
    }
  }

  /** With equal velocities the gap never changes. */
  lemma SameVelocityConstantGap(posA: Vec2, velA: Vec2, posB: Vec2, velB: Vec2, t: real, u: real)
    requires velA == velB
    ensures SqDistanceAt(posA, velA, posB, velB, t) == SqDistanceAt(posA, velA, posB, velB, u)
  {
    GapIsLinear(posA, velA, posB, velB, t);
    GapIsLinear(posA, velA, posB, velB, u);
    assert Sub(velB, velA) == Zero2;
  }

  /** With a real relative speed the evaluated time is the clamped
      vertex of the squared-distance parabola. */
  lemma MovingEvaluatedTime(posA: Vec2, velA: Vec2, posB: Vec2, velB: Vec2, horizon: real, te: real)
    requires horizon > 0.0 && SqrMag(Sub(velB, velA)) > RelativeSpeedEpsilon
    requires te == EvaluatedTime(posA, velA, posB, velB, horizon)
    ensures te == Clamp(-Dot(Sub(posB, posA), Sub(velB, velA)) / SqrMag(Sub(velB, velA)), 0.0, horizon)
  {
  }

  /** The outcome of WillPathsCrossWithin: the verdict and its two out
      parameters. dMin stays +infinity when nothing is evaluated. */
  datatype Crossing = Crossing(cross: bool, crossTime: real, dMin: Extended)

  /** WillPathsCrossWithin. */
  function WillPathsCrossWithin(sqrt: real -> real, posA: Vec2, velA: Vec2, posB: Vec2, velB: Vec2,
                                horizon: real, clearance: real): (r: Crossing)
    requires IsSqrt(sqrt)
    ensures horizon <= 0.0 ==> r == Crossing(false, 0.0, PosInf)
    ensures horizon > 0.0 ==>
      r.dMin == Finite(DistanceAtTime(sqrt, posA, velA, posB, velB, EvaluatedTime(posA, velA, posB, velB, horizon)))
    ensures r.cross <==> r.dMin.Finite? && r.dMin.r <= Max(0.0, clearance)
    ensures r.cross ==> (0.0 <= r.crossTime <= horizon
      && r.dMin.Finite? && r.dMin.r == DistanceAtTime(sqrt, posA, velA, posB, velB, r.crossTime))
    ensures !r.cross ==> r.crossTime == 0.0
  {
    if horizon <= 0.0 then Crossing(false, 0.0, PosInf)
    else
      var t := EvaluatedTime(posA, velA, posB, velB, horizon);
      var d := DistanceAtTime(sqrt, posA, velA, posB, velB, t);
      var cross := d <= Max(0.0, clearance);
      Crossing(cross, if cross then t else 0.0, Finite(d))
  }

  /** The crossing test is exact over a positive horizon: when the bodies
      move relative to each other (or not at all), it answers false only
      if they stay farther apart than the clearance at every time in
      [0, horizon]; it answers true only if they come within it at
      crossTime (see WillPathsCrossWithin). */
  lemma CrossingIsExact(sqrt: real -> real, posA: Vec2, velA: Vec2, posB: Vec2, velB: Vec2,
                        horizon: real, clearance: real, t: real, r: Crossing)
    requires IsSqrt(sqrt)
    requires SqrMag(Sub(velB, velA)) > RelativeSpeedEpsilon || velA == velB
    requires 0.0 < horizon && 0.0 <= t <= horizon
    requires r == WillPathsCrossWithin(sqrt, posA, velA, posB, velB, horizon, clearance)
    ensures !r.cross ==> DistanceAtTime(sqrt, posA, velA, posB, velB, t) > Max(0.0, clearance)
  {
    var te := EvaluatedTime(posA, velA, posB, velB, horizon);
    var dt := DistanceAtTime(sqrt, posA, velA, posB, velB, t);
    var de := DistanceAtTime(sqrt, posA, velA, posB, velB, te);
    assert r.dMin == Finite(de);
    EvaluatedTimeMinimises(posA, velA, posB, velB, horizon, t);
    SquareLeIff(dt, de);
  }

  // -----------------------------------------------------------------------
  // First-order intercept

  /** The projectile speed is raised to at least this. */
  const MinProjectileSpeed: real := 1.0e-3

  /** Below this |a| the intercept quadratic is treated as linear. */
  const LinearEpsilon: real := 1.0e-6

  /** The intercept's verdict, aim direction and time. */
  datatype Intercept = Intercept(ok: bool, aim: Vec2, time: real)

  const NoIntercept: Intercept := Intercept(false, Zero2, 0.0)

  /** The coefficients of a t^2 + b t + c = 0, whose positive roots are the
      times at which a projectile of speed s from the shooter can meet the
      target: |r + v t|^2 = (s t)^2 with r = target - shooter. */
  function CoefA(s: real, vel: Vec2): real { Dot(vel, vel) - Sq(s) }
  function CoefB(r: Vec2, vel: Vec2): real { 2.0 * Dot(r, vel) }
  function CoefC(r: Vec2): real { Dot(r, r) }

  /** b^2 - 4ac. */
  function Discriminant(a: real, b: real, c: real): real { Sq(b) - 4.0 * Mul(a, c) }

  /** The quadratic measures how far the target at time t is from the
      sphere the projectile reaches by then. */
  lemma InterceptQuadratic(r: Vec2, vel: Vec2, s: real, t: real)
    ensures SqrMag(Add(r, Scale(vel, t))) - Sq(s * t)
         == CoefA(s, vel) * Sq(t) + CoefB(r, vel) * t + CoefC(r)
  {
    ExpandSqrMag(r, vel, t);
    DotSelf(vel);
    DotSelf(r);
    assert Sq(s * t) == Sq(s) * Sq(t);
  }

  /** A root from the quadratic formula satisfies the quadratic. */
  lemma QuadraticRoot(a: real, b: real, c: real, root: real, t: real)
    requires a != 0.0 && Sq(root) == Discriminant(a, b, c)
    requires t == (-b - root) / (2.0 * a) || t == (-b + root) / (2.0 * a)
    ensures a * Sq(t) + b * t + c == 0.0
  {
    FormulaLinear(a, b, root, t);
    MulNegNeg(root, root);
    assert Sq(2.0 * a * t + b) == Sq(root);
    CompleteSquare(a, b, c, t);
    NonZeroFactor(a, a * Sq(t) + b * t + c);
  }

  /** A time from the quadratic formula makes 2 a t + b equal to one of
      the square roots of the discriminant. */
  lemma FormulaLinear(a: real, b: real, root: real, t: real)
    requires a != 0.0
    requires t == (-b - root) / (2.0 * a) || t == (-b + root) / (2.0 * a)
    ensures 2.0 * a * t + b == root || 2.0 * a * t + b == -root
  {
  }

  /** Completing the square: 4 a (a t^2 + b t + c) = (2 a t + b)^2 - (b^2 - 4 a c). */
  lemma CompleteSquare(a: real, b: real, c: real, t: real)
    ensures 4.0 * a * (a * Sq(t) + b * t + c) == Sq(2.0 * a * t + b) - Discriminant(a, b, c)
  {
  }

  lemma NonZeroFactor(a: real, x: real)
    requires a != 0.0 && 4.0 * a * x == 0.0
    ensures x == 0.0
  {
  }

  /** Conversely, every root of a t^2 + b t + c = 0 with a != 0 is one of
      the two the quadratic formula gives. */
  lemma EveryRootFromFormula(a: real, b: real, c: real, root: real, t: real)
    requires a != 0.0 && 0.0 <= root && Sq(root) == Discriminant(a, b, c)
    requires a * Sq(t) + b * t + c == 0.0
    ensures t == (-b - root) / (2.0 * a) || t == (-b + root) / (2.0 * a)
  {
    var u := 2.0 * a * t + b;
    assert 4.0 * a * (a * Sq(t) + b * t + c) == Sq(u) - Discriminant(a, b, c);
    if u >= 0.0 {
      RootUnique(u, root);
      assert (2.0 * a) * t == -b + root;
    } else {
      MulNegNeg(u, u);
      RootUnique(-u, root);
      assert (2.0 * a) * t == -b - root;
    }
  }

  /** A quadratic with a real root has a non-negative discriminant. */
  lemma RootNeedsDiscriminant(a: real, b: real, c: real, t: real)
    requires a * Sq(t) + b * t + c == 0.0
    ensures Discriminant(a, b, c) >= 0.0
  {
    var u := 2.0 * a * t + b;
    assert 4.0 * a * (a * Sq(t) + b * t + c) == Sq(u) - Discriminant(a, b, c);
    SquareNonNeg(u);
  }

  /** The point the shooter aims at: where the target will be at time t. */
  function AimPoint(target: Vec2, vel: Vec2, t: real): Vec2 { Add(target, Scale(vel, t)) }

  function Hit(sqrt: real -> real, shooter: Vec2, target: Vec2, vel: Vec2, t: real): (r: Intercept)
    requires IsSqrt(sqrt)
    ensures r.ok && r.time == t
  {
    Intercept(true, Normalize(sqrt, Sub(AimPoint(target, vel, t), shooter)), t)
  }

  /** The root the quadratic branch settles on: the smaller root when both
      are positive, the larger otherwise. */
  function PickRoot(t0: real, t1: real): (t: real)
    ensures t == t0 || t == t1
    ensures t0 > 0.0 && t1 > 0.0 ==> t <= t0 && t <= t1
    ensures !(t0 > 0.0 && t1 > 0.0) ==> t >= t0 && t >= t1
  {
    if t0 > 0.0 && t1 > 0.0 then Min(t0, t1) else Max(t0, t1)
  }

  /** The picked root is positive exactly when some root is, and it is
      then the least positive root. */
  lemma PickRootIsLeastPositive(t0: real, t1: real)
    ensures PickRoot(t0, t1) > 0.0 <==> (t0 > 0.0 || t1 > 0.0)
    ensures PickRoot(t0, t1) > 0.0 ==>
      (t0 > 0.0 ==> PickRoot(t0, t1) <= t0) && (t1 > 0.0 ==> PickRoot(t0, t1) <= t1)
  {
  }

  /** The quadratic branch, shared by the code as written and the
      corrected form: it is taken when |a| >= 1e-6. */
  function QuadraticIntercept(sqrt: real -> real, shooter: Vec2, s: real, target: Vec2, vel: Vec2): (r: Intercept)
    requires IsSqrt(sqrt)
    requires Abs(CoefA(s, vel)) >= LinearEpsilon
    ensures !r.ok ==> r == NoIntercept
    ensures r.ok ==> (r.time > 0.0
      && r.aim == Normalize(sqrt, Sub(AimPoint(target, vel, r.time), shooter))
      && Meets(shooter, s, target, vel, r.time))
  {
    var rel := Sub(target, shooter);
    var a := CoefA(s, vel);
    var b := CoefB(rel, vel);
    var c := CoefC(rel);
    var disc := Discriminant(a, b, c);
    if disc < 0.0 then NoIntercept
    else
      var root := sqrt(disc);
      var t0 := (-b - root) / (2.0 * a);
      var t1 := (-b + root) / (2.0 * a);
      var tBest := PickRoot(t0, t1);
      if tBest <= 0.0 then NoIntercept
      else
        RootMeets(shooter, s, target, vel, root, tBest);
        var h := Hit(sqrt, shooter, target, vel, tBest);
        assert h.time == tBest;
        h
  }

  /** A root of the intercept quadratic is a time at which the target is
      exactly as far from the shooter as the projectile has flown. */
  lemma RootMeets(shooter: Vec2, s: real, target: Vec2, vel: Vec2, root: real, t: real)
    requires CoefA(s, vel) != 0.0
    requires Sq(root) == Discriminant(CoefA(s, vel), CoefB(Sub(target, shooter), vel), CoefC(Sub(target, shooter)))
    requires t == (-CoefB(Sub(target, shooter), vel) - root) / (2.0 * CoefA(s, vel))
          || t == (-CoefB(Sub(target, shooter), vel) + root) / (2.0 * CoefA(s, vel))
    ensures Meets(shooter, s, target, vel, t)
  {
    var rel := Sub(target, shooter);
    QuadraticRoot(CoefA(s, vel), CoefB(rel, vel), CoefC(rel), root, t);
    InterceptQuadratic(rel, vel, s, t);
    assert Sub(AimPoint(target, vel, t), shooter) == Add(rel, Scale(vel, t));
  }

  /** A non-negative numerator over a positive divisor, negated, is never
      positive. */
  lemma NegQuotientNonPos(c: real, d: real)
    requires 0.0 <= c && 0.0 < d
    ensures -c / d <= 0.0
  {
  }

  /** The linear branch as written, taken when |a| < 1e-6: it solves
      b t + c = 0 as t = -c / Max(1e-6, b) and succeeds when t > 0. */
  function LinearIntercept(sqrt: real -> real, shooter: Vec2, target: Vec2, vel: Vec2, b: real, c: real): (r: Intercept)
    requires IsSqrt(sqrt)
    ensures !r.ok ==> r == NoIntercept
    ensures r.ok ==> (r.time > 0.0 && r.time == -c / Max(LinearEpsilon, b)
      && r.aim == Normalize(sqrt, Sub(AimPoint(target, vel, r.time), shooter)))
  {
    var t := -c / Max(LinearEpsilon, b);
    if t <= 0.0 then NoIntercept else Hit(sqrt, shooter, target, vel, t)
  }

  /** TryFirstOrderIntercept as written: the speed is raised to 1e-3, then
      the linear or the quadratic branch decides. In the linear branch the
      divisor Max(1e-6, b) is positive and c = |r|^2 is not negative, so
      the time is never positive and that branch always fails. */
  function TryFirstOrderIntercept(sqrt: real -> real, shooter: Vec2, speed: real, target: Vec2, vel: Vec2): (r: Intercept)
    requires IsSqrt(sqrt)
    ensures !r.ok ==> r == NoIntercept
    ensures r.ok ==> (r.time > 0.0
      && r.aim == Normalize(sqrt, Sub(AimPoint(target, vel, r.time), shooter)))
    ensures r.ok ==> (Abs(CoefA(Max(MinProjectileSpeed, speed), vel)) >= LinearEpsilon
      && Meets(shooter, Max(MinProjectileSpeed, speed), target, vel, r.time))
  {
    var s := Max(MinProjectileSpeed, speed);
    var rel := Sub(target, shooter);
    if Abs(CoefA(s, vel)) < LinearEpsilon then
      LinearInterceptFails(sqrt, shooter, target, vel);
      LinearIntercept(sqrt, shooter, target, vel, CoefB(rel, vel), CoefC(rel))
    else QuadraticIntercept(sqrt, shooter, s, target, vel)
  }

  /** With c = |r|^2 never negative and a positive divisor, the linear
      branch as written never reports an intercept. */
  lemma LinearInterceptFails(sqrt: real -> real, shooter: Vec2, target: Vec2, vel: Vec2)
    requires IsSqrt(sqrt)
    ensures var rel := Sub(target, shooter);
      LinearIntercept(sqrt, shooter, target, vel, CoefB(rel, vel), CoefC(rel)) == NoIntercept
  {
    var rel := Sub(target, shooter);
    DotSelf(rel);
    SqrMagNonNeg(rel);
    NegQuotientNonPos(CoefC(rel), Max(LinearEpsilon, CoefB(rel, vel)));
  }

  /** The linear branch as written: whenever |a| < 1e-6 the intercept
      fails, even for a target closing in on the shooter (b < 0), which
      the linear equation b t + c = 0 meets at t = -c/b > 0. */
  lemma LinearBranchAlwaysFails(sqrt: real -> real, shooter: Vec2, speed: real, target: Vec2, vel: Vec2)
    requires IsSqrt(sqrt)
    requires Abs(CoefA(Max(MinProjectileSpeed, speed), vel)) < LinearEpsilon
    ensures !TryFirstOrderIntercept(sqrt, shooter, speed, target, vel).ok
  {
  }

  /** A concrete case: shooter at the origin, projectile speed 1, target at
      (10, 0) coming straight at the shooter with speed 1. The linear
      equation -20 t + 100 = 0 has the root t = 5, yet no intercept is
      reported. */
  lemma LinearBranchMissesApproachingTarget(sqrt: real -> real)
    requires IsSqrt(sqrt)
    ensures CoefA(1.0, Vec2(-1.0, 0.0)) == 0.0
    ensures CoefB(Vec2(10.0, 0.0), Vec2(-1.0, 0.0)) * 5.0 + CoefC(Vec2(10.0, 0.0)) == 0.0
    ensures !TryFirstOrderIntercept(sqrt, Zero2, 1.0, Vec2(10.0, 0.0), Vec2(-1.0, 0.0)).ok
  {
    LinearBranchAlwaysFails(sqrt, Zero2, 1.0, Vec2(10.0, 0.0), Vec2(-1.0, 0.0));
  }

  /** The linear branch as meant: b t + c = 0 has the positive root
      t = -c/b exactly when b < 0 < c (the target closes in from a
      distance); otherwise there is no intercept. */
  function CorrectedLinearIntercept(sqrt: real -> real, shooter: Vec2, target: Vec2, vel: Vec2, b: real, c: real): (r: Intercept)
    requires IsSqrt(sqrt)
    ensures !r.ok ==> r == NoIntercept
    ensures r.ok <==> b < 0.0 && c > 0.0
    ensures r.ok ==> (r.time > 0.0 && b * r.time + c == 0.0
      && r.aim == Normalize(sqrt, Sub(AimPoint(target, vel, r.time), shooter)))
  {
    if b < 0.0 && c > 0.0 then
      var t := -c / b;
      assert b * t == -c;
      Hit(sqrt, shooter, target, vel, t)
    else NoIntercept
  }

  /** The intercept with the corrected linear branch; the quadratic branch
      is unchanged. */
  function InterceptCorrected(sqrt: real -> real, shooter: Vec2, speed: real, target: Vec2, vel: Vec2): (r: Intercept)
    requires IsSqrt(sqrt)
    ensures !r.ok ==> r == NoIntercept
    ensures r.ok ==> (r.time > 0.0
      && r.aim == Normalize(sqrt, Sub(AimPoint(target, vel, r.time), shooter)))
  {
    var s := Max(MinProjectileSpeed, speed);
    var rel := Sub(target, shooter);
    if Abs(CoefA(s, vel)) < LinearEpsilon then
      CorrectedLinearIntercept(sqrt, shooter, target, vel, CoefB(rel, vel), CoefC(rel))
    else QuadraticIntercept(sqrt, shooter, s, target, vel)
  }

  /** With a = 0, a root of b t + c = 0 is a meeting time. */
  lemma LinearRootMeets(shooter: Vec2, s: real, target: Vec2, vel: Vec2, t: real)
    requires CoefA(s, vel) == 0.0
    requires CoefB(Sub(target, shooter), vel) * t + CoefC(Sub(target, shooter)) == 0.0
    ensures Meets(shooter, s, target, vel, t)
  {
    var rel := Sub(target, shooter);
    InterceptQuadratic(rel, vel, s, t);
    assert Sub(AimPoint(target, vel, t), shooter) == Add(rel, Scale(vel, t));
  }

  /** c = |r|^2 is positive exactly when shooter and target are apart. */
  lemma DistanceTermPositive(shooter: Vec2, target: Vec2)
    ensures CoefC(Sub(target, shooter)) > 0.0 <==> target != shooter
  {
    var rel := Sub(target, shooter);
    DotSelf(rel);
    assert CoefC(rel) == SqrMag(rel);
    SqrMagZero(rel);
    SqrMagNonNeg(rel);
    SubZero(target, shooter);
  }

  lemma SubZero(a: Vec2, b: Vec2)
    ensures Sub(a, b) == Zero2 <==> a == b
  {
  }

  /** When the quadratic degenerates (a = 0) the corrected intercept
      succeeds exactly for a target closing in from a distance, and then
      meets it: |target + v t - shooter| = s t. */
  lemma CorrectedLinearBranchMeets(sqrt: real -> real, shooter: Vec2, speed: real, target: Vec2, vel: Vec2)
    requires IsSqrt(sqrt)
    requires CoefA(Max(MinProjectileSpeed, speed), vel) == 0.0
    ensures var r := InterceptCorrected(sqrt, shooter, speed, target, vel);
      (r.ok <==> CoefB(Sub(target, shooter), vel) < 0.0 && target != shooter)
      && (r.ok ==> Meets(shooter, Max(MinProjectileSpeed, speed), target, vel, r.time))
  {
    var s := Max(MinProjectileSpeed, speed);
    var rel := Sub(target, shooter);
    var r := InterceptCorrected(sqrt, shooter, speed, target, vel);
    assert r == CorrectedLinearIntercept(sqrt, shooter, target, vel, CoefB(rel, vel), CoefC(rel));
    DistanceTermPositive(shooter, target);
    if r.ok {
      LinearRootMeets(shooter, s, target, vel, r.time);
    }
  }

  /** The target at time t is exactly as far from the shooter as a
      projectile of speed s flies in time t. */
  predicate Meets(shooter: Vec2, s: real, target: Vec2, vel: Vec2, t: real) {
    SqrMag(Sub(AimPoint(target, vel, t), shooter)) == Sq(s * t)
  }

  /** The quadratic branch misses no intercept: whenever the target can be
      met at some positive time, it succeeds, with a time no later. */
  lemma QuadraticFindsEarliest(sqrt: real -> real, shooter: Vec2, s: real, target: Vec2, vel: Vec2, t: real)
    requires IsSqrt(sqrt) && Abs(CoefA(s, vel)) >= LinearEpsilon
    requires t > 0.0 && Meets(shooter, s, target, vel, t)
    ensures var r := QuadraticIntercept(sqrt, shooter, s, target, vel);
      r.ok && r.time <= t
  {
    var rel := Sub(target, shooter);
    var a, b, c := CoefA(s, vel), CoefB(rel, vel), CoefC(rel);
    MeetsIsRoot(shooter, s, target, vel, t);
    RootNeedsDiscriminant(a, b, c, t);
    var root := sqrt(Discriminant(a, b, c));
    PickedRootIsEarliest(a, b, c, root, t);
    QuadraticTakesPick(sqrt, shooter, s, target, vel, PickRoot((-b - root) / (2.0 * a), (-b + root) / (2.0 * a)));
  }

  /** A positive root t makes the picked root positive and no later. */
  lemma PickedRootIsEarliest(a: real, b: real, c: real, root: real, t: real)
    requires a != 0.0 && 0.0 <= root && Sq(root) == Discriminant(a, b, c)
    requires a * Sq(t) + b * t + c == 0.0 && 0.0 < t
    ensures var pick := PickRoot((-b - root) / (2.0 * a), (-b + root) / (2.0 * a));
      0.0 < pick <= t
  {
    EveryRootFromFormula(a, b, c, root, t);
    PickRootIsLeastPositive((-b - root) / (2.0 * a), (-b + root) / (2.0 * a));
  }

  /** A meeting time is a root of the intercept quadratic. */
  lemma MeetsIsRoot(shooter: Vec2, s: real, target: Vec2, vel: Vec2, t: real)
    requires Meets(shooter, s, target, vel, t)
    ensures var rel := Sub(target, shooter);
      CoefA(s, vel) * Sq(t) + CoefB(rel, vel) * t + CoefC(rel) == 0.0
  {
    var rel := Sub(target, shooter);
    InterceptQuadratic(rel, vel, s, t);
    assert Sub(AimPoint(target, vel, t), shooter) == Add(rel, Scale(vel, t));
  }

  /** With a real root and a positive picked root, the quadratic branch
      succeeds at the picked root. */
  lemma QuadraticTakesPick(sqrt: real -> real, shooter: Vec2, s: real, target: Vec2, vel: Vec2, pick: real)
    requires IsSqrt(sqrt) && Abs(CoefA(s, vel)) >= LinearEpsilon
    requires var rel := Sub(target, shooter);
      var a, b, c := CoefA(s, vel), CoefB(rel, vel), CoefC(rel);
      var root := sqrt(Discriminant(a, b, c));
      Discriminant(a, b, c) >= 0.0
      && pick == PickRoot((-b - root) / (2.0 * a), (-b + root) / (2.0 * a)) && pick > 0.0
    ensures QuadraticIntercept(sqrt, shooter, s, target, vel).ok
    ensures QuadraticIntercept(sqrt, shooter, s, target, vel).time == pick
  {
  }

  /** A time the quadratic branch reports is a meeting time. */
  lemma QuadraticMeets(sqrt: real -> real, shooter: Vec2, s: real, target: Vec2, vel: Vec2, r: Intercept)
    requires IsSqrt(sqrt) && Abs(CoefA(s, vel)) >= LinearEpsilon
    requires r == QuadraticIntercept(sqrt, shooter, s, target, vel)
    ensures r.ok ==> Meets(shooter, s, target, vel, r.time)
  {
  }

  /** TryFirstOrderIntercept, outside the near-linear case, reports the
      earliest time at which the target can be met: any positive meeting
      time is no earlier than the reported one, which is itself one. */
  lemma InterceptIsEarliest(sqrt: real -> real, shooter: Vec2, speed: real, target: Vec2, vel: Vec2, t: real)
    requires IsSqrt(sqrt)
    requires Abs(CoefA(Max(MinProjectileSpeed, speed), vel)) >= LinearEpsilon
    requires t > 0.0 && Meets(shooter, Max(MinProjectileSpeed, speed), target, vel, t)
    ensures var r := TryFirstOrderIntercept(sqrt, shooter, speed, target, vel);
      r.ok && r.time <= t && Meets(shooter, Max(MinProjectileSpeed, speed), target, vel, r.time)
  {
    var s := Max(MinProjectileSpeed, speed);
    TakesQuadraticBranch(sqrt, shooter, speed, target, vel);
    QuadraticFindsEarliest(sqrt, shooter, s, target, vel, t);
    var q := QuadraticIntercept(sqrt, shooter, s, target, vel);
    QuadraticMeets(sqrt, shooter, s, target, vel, q);
  }

  /** Against a target standing still at a distance, the projectile flies
      exactly the distance to the target (s t = |r|, so t = |r|/s) and the
      aim points straight at the target. */
  lemma StationaryTarget(sqrt: real -> real, shooter: Vec2, speed: real, target: Vec2, r: Intercept)
    requires IsSqrt(sqrt) && target != shooter
    requires r == TryFirstOrderIntercept(sqrt, shooter, speed, target, Zero2)
    ensures r.ok
    ensures Mul(Max(MinProjectileSpeed, speed), r.time) == Mag(sqrt, Sub(target, shooter))
    ensures r.aim == Normalize(sqrt, Sub(target, shooter))
  {
    var s := Max(MinProjectileSpeed, speed);
    var m := Mag(sqrt, Sub(target, shooter));
    MagPositive(sqrt, shooter, target);
    StationaryA(s);
    TakesQuadraticBranch(sqrt, shooter, speed, target, Zero2);
    assert r == QuadraticIntercept(sqrt, shooter, s, target, Zero2);
    StationaryTime(sqrt, shooter, s, target, m, r);
    StationaryAim(sqrt, shooter, s, target, r);
  }

  /** Distinct points are a positive distance apart. */
  lemma MagPositive(sqrt: real -> real, shooter: Vec2, target: Vec2)
    requires IsSqrt(sqrt) && target != shooter
    ensures Mag(sqrt, Sub(target, shooter)) > 0.0
  {
    var rel := Sub(target, shooter);
    SqrMagZero(rel);
    SubZero(target, shooter);
    RootNonZero(Mag(sqrt, rel), rel);
  }

  /** A successful intercept of a target at rest aims straight at it. */
  lemma StationaryAim(sqrt: real -> real, shooter: Vec2, s: real, target: Vec2, r: Intercept)
    requires IsSqrt(sqrt) && Abs(CoefA(s, Zero2)) >= LinearEpsilon
    requires r == QuadraticIntercept(sqrt, shooter, s, target, Zero2) && r.ok
    ensures r.aim == Normalize(sqrt, Sub(target, shooter))
  {
    AimAtRest(target, r.time);
  }

  /** Away from the near-linear case the intercept is the quadratic
      branch's. */
  lemma TakesQuadraticBranch(sqrt: real -> real, shooter: Vec2, speed: real, target: Vec2, vel: Vec2)
    requires IsSqrt(sqrt) && Abs(CoefA(Max(MinProjectileSpeed, speed), vel)) >= LinearEpsilon
    ensures TryFirstOrderIntercept(sqrt, shooter, speed, target, vel)
         == QuadraticIntercept(sqrt, shooter, Max(MinProjectileSpeed, speed), target, vel)
  {
  }

  /** Against a target at rest at distance m > 0 the quadratic branch
      succeeds at the time t with s t = m. */
  lemma StationaryTime(sqrt: real -> real, shooter: Vec2, s: real, target: Vec2, m: real, r: Intercept)
    requires IsSqrt(sqrt) && MinProjectileSpeed <= s && 0.0 < m && Sq(m) == SqrMag(Sub(target, shooter))
    requires Abs(CoefA(s, Zero2)) >= LinearEpsilon
    requires r == QuadraticIntercept(sqrt, shooter, s, target, Zero2)
    ensures r.ok
    ensures Mul(s, r.time) == m
  {
    StationaryMeets(shooter, s, target, m);
    DivPos(m, s);
    QuadraticFindsEarliest(sqrt, shooter, s, target, Zero2, m / s);
    MeetsAtRestOnce(shooter, s, target, m, r.time);
  }

  /** A target at rest at distance m is met only when s t = m. */
  lemma MeetsAtRestOnce(shooter: Vec2, s: real, target: Vec2, m: real, t: real)
    requires 0.0 < s && 0.0 < m && 0.0 < t && Sq(m) == SqrMag(Sub(target, shooter))
    requires Meets(shooter, s, target, Zero2, t)
    ensures Mul(s, t) == m
  {
    AimAtRest(target, t);
    UniqueTime(s, m, t);
  }

  /** A target at rest at distance m is met at time m/s. */
  lemma StationaryMeets(shooter: Vec2, s: real, target: Vec2, m: real)
    requires 0.0 < s && Sq(m) == SqrMag(Sub(target, shooter))
    ensures Meets(shooter, s, target, Zero2, m / s)
  {
    AimAtRest(target, m / s);
    assert s * (m / s) == m;
  }

  /** ... and at no other positive time. */
  lemma UniqueTime(s: real, m: real, t: real)
    requires 0.0 < s && 0.0 < m && 0.0 < t && Sq(m) == Sq(s * t)
    ensures Mul(s, t) == m
  {
    MulPos(s, t);
    RootUnique(m, s * t);
  }

  lemma DivPos(a: real, b: real)
    requires 0.0 < a && 0.0 < b
    ensures 0.0 < a / b
  {
  }

  /** A target at rest stays where it is. */
  lemma AimAtRest(target: Vec2, t: real)
    ensures AimPoint(target, Zero2, t) == target
  {
  }

  /** Against a target at rest, a = -s^2, which is far from 0. */
  lemma StationaryA(s: real)
    requires MinProjectileSpeed <= s
    ensures CoefA(s, Zero2) == -Sq(s) && Sq(s) >= LinearEpsilon
    ensures Abs(CoefA(s, Zero2)) >= LinearEpsilon
  {
    CoefAAtRest(s);
    SpeedFloorSquared(s);
    AbsNeg(Sq(s));
  }

  lemma CoefAAtRest(s: real)
    ensures CoefA(s, Zero2) == -Sq(s)
  {
  }

  /** s >= 1e-3 gives s^2 >= 1e-6. */
  lemma SpeedFloorSquared(s: real)
    requires MinProjectileSpeed <= s
    ensures Sq(s) >= LinearEpsilon
  {
    SquareLeIff(MinProjectileSpeed, s);
    assert Sq(MinProjectileSpeed) == LinearEpsilon;
  }

  lemma AbsNeg(x: real)
    requires 0.0 <= x
    ensures Abs(-x) == x
  {
  }

  /** A non-zero vector has a positive magnitude. */
  lemma RootNonZero(m: real, v: Vec2)
    requires 0.0 <= m && Sq(m) == SqrMag(v) && SqrMag(v) != 0.0
    ensures m > 0.0
  {
  }
}
