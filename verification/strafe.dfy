/** The range-keeping strafe: the mecha orbits its target at weapon range,
    blending a tangential direction with a radial correction whose weight
    grows with the range error, and flips the orbit side periodically or
    when an evade leaf asks for it. Random.Range draws for the toggle wait
    are parameters. */
module Strafe {
  import opened Numeric
  import opened Geometry
  import opened Blackboard
  import opened BehaviorTree
  import opened World
  import Mecha

  /** The range kept when no weapon has a positive range. */
  const FallbackRange: real := 1.5
  /** The least time between two honoured evade toggles. */
  const EvadeMinInterval: real := 0.4
  /** The time since the last evade at construction: long ago. */
  const LongAgo: real := 999.0
  /** Mathf.Epsilon, the least positive single-precision value. */
  const FloatEpsilon: real := 1.401298e-45
  /** Blends shorter than this (squared) fall back to the pure tangent. */
  const MinBlendSqr: real := 1.0e-6

  datatype Strafer = Strafer(
    selfKey: string,
    targetKey: string,
    orbitWeight: real,
    margin: real,
    sign: real,
    toggleTimer: real,
    waitTime: real,
    minToggleTime: real,
    maxToggleTime: real,
    forceToggle: bool,
    sinceLastEvade: real)

  /** What the constructor establishes and every step keeps. */
  predicate Valid(s: Strafer) {
    0.0 <= s.orbitWeight <= 1.0 && 0.0 <= s.margin && (s.sign == 1.0 || s.sign == -1.0)
  }

  /** The constructor: the orbit weight is clamped to [0,1], the margin at
      0; the first wait is drawn between the toggle times. */
  function NewStrafer(selfKey: string, targetKey: string, orbitWeight: real, margin: real,
                      minToggleTime: real, maxToggleTime: real, draw: real): (s: Strafer)
    ensures Valid(s) && s.sign == 1.0 && !s.forceToggle
    ensures 0.0 <= orbitWeight <= 1.0 ==> s.orbitWeight == orbitWeight
    ensures 0.0 <= margin ==> s.margin == margin
    ensures s.toggleTimer == 0.0 && s.waitTime == draw && s.sinceLastEvade >= EvadeMinInterval
  {
    Strafer(selfKey, targetKey, Clamp01(orbitWeight), Max(0.0, margin), 1.0, 0.0, draw,
            minToggleTime, maxToggleTime, false, LongAgo)
  }

  /** TriggerEvadeToggle: honoured only once the minimum interval since the
      last evade toggle has passed. */
  function TriggerEvadeToggle(s: Strafer): (r: Strafer)
    ensures r.forceToggle <==> s.forceToggle || EvadeMinInterval <= s.sinceLastEvade
    ensures r.(forceToggle := s.forceToggle) == s
  {
    if s.sinceLastEvade >= EvadeMinInterval then s.(forceToggle := true) else s
  }

  // ---------------------------------------------------------------------
  // The blend

  /** The range kept: the longest positive weapon range, else 1.5. */
  function DesiredRange(m: Mecha.Mecha): (range: real)
    ensures 0.0 < range
  {
    LongestRangeIsMax(m.weapons);
    var longest := LongestRange(m.weapons);
    if longest > 0.0 then longest else FallbackRange
  }

  /** How far inside the range the mecha may drift before backing off. */
  function InsideDeadzone(range: real, margin: real): real {
    Max(margin, Mul(range, 0.1))
  }

  /** The radial error: the distance beyond the range when outside it;
      inside it, only what lies beyond the dead zone. */
  function RadialError(dist: real, range: real, margin: real): (err: real)
    ensures 0.0 <= err
  {
    if dist >= range then dist - range
    else
      var inside := Max(0.0, range - dist);
      var dz := InsideDeadzone(range, margin);
      if inside > dz then inside - dz else 0.0
  }

  /** The radial weight: the error relative to the margin, clamped. */
  function RadialWeight(err: real, margin: real): real {
    Clamp01(err / Max(0.001, margin))
  }

  /** The tangential weight: from 1 down to 1 - orbitWeight as the radial
      weight rises. */
  function TangentWeight(orbitWeight: real, wRadial: real): real {
    Lerp(1.0, 1.0 - orbitWeight, wRadial)
  }

  /** The weights stay in range: the radial weight in [0,1], the tangential
      between 1 - orbitWeight and 1; inside the range by no more than the
      dead zone the radial weight is 0 and the orbit is pure. */
  lemma WeightsInRange(dist: real, range: real, margin: real, orbitWeight: real)
    requires 0.0 <= orbitWeight <= 1.0
    ensures var wR := RadialWeight(RadialError(dist, range, margin), margin);
      var wT := TangentWeight(orbitWeight, wR);
      0.0 <= wR <= 1.0 && 1.0 - orbitWeight <= wT <= 1.0
      && (range - InsideDeadzone(range, margin) <= dist <= range ==> wR == 0.0 && wT == 1.0)
  {
  }

  /** The unit direction to the target, turned a quarter left or right. */
  function Tangent(sqrt: real -> real, toTarget: Vec2, dist: real, sign: real): Vec2
    requires IsSqrt(sqrt) && dist != 0.0
  {
    var t := Scale(Perp(Scale(toTarget, 1.0 / dist)), sign);
    if SqrMag(t) > 0.0 then Normalize(sqrt, t) else t
  }

  /** The tangent never points towards or away from the target. */
  lemma TangentIsPerpendicular(sqrt: real -> real, toTarget: Vec2, dist: real, sign: real)
    requires IsSqrt(sqrt) && dist != 0.0
    ensures Dot(Tangent(sqrt, toTarget, dist, sign), toTarget) == 0.0
  {
    var k := 1.0 / dist;
    var t := Scale(Perp(Scale(toTarget, k)), sign);
    PerpScaled(toTarget, k, sign);
    if SqrMag(t) > 0.0 {
      var m := Mag(sqrt, t);
      if m > NormalizeEpsilon {
        ScaledDotZero(t, 1.0 / m, toTarget);
      }
    }
  }

  lemma PerpScaled(a: Vec2, k: real, sign: real)
    ensures Dot(Scale(Perp(Scale(a, k)), sign), a) == 0.0
  {
    assert Scale(Perp(Scale(a, k)), sign) == Vec2(-(a.y * k) * sign, (a.x * k) * sign);
  }

  lemma ScaledDotZero(t: Vec2, c: real, a: Vec2)
    requires Dot(t, a) == 0.0
    ensures Dot(Scale(t, c), a) == 0.0
  {
    assert Dot(Scale(t, c), a) == c * Dot(t, a);
  }

  /** The pre-normalisation blend of tangent and radial correction. */
  function RawBlend(tangent: Vec2, radial: Vec2, wT: real, wR: real): Vec2 {
    Add(Scale(tangent, wT), Scale(radial, wR))
  }

  /** The blend of tangent and radial correction before normalising, with
      the pure tangent standing in for a blend too short to normalise. */
  function Steer(sqrt: real -> real, toTarget: Vec2, dist: real, range: real, s: Strafer): Vec2
    requires IsSqrt(sqrt) && dist != 0.0
  {
    var dir := Scale(toTarget, 1.0 / dist);
    var tangentN := Tangent(sqrt, toTarget, dist, s.sign);
    var radial := if dist >= range then dir else Neg(dir);
    var wR := RadialWeight(RadialError(dist, range, s.margin), s.margin);
    var wT := TangentWeight(s.orbitWeight, wR);
    var desired := RawBlend(tangentN, radial, wT, wR);
    if SqrMag(desired) <= MinBlendSqr then tangentN else desired
  }

  /** The desired direction at distance `dist` from the target, for a
      range, orbit weight, margin and orbit side. */
  function Blend(sqrt: real -> real, toTarget: Vec2, dist: real, range: real, s: Strafer): Vec2
    requires IsSqrt(sqrt) && dist != 0.0
  {
    Normalize(sqrt, Steer(sqrt, toTarget, dist, range, s))
  }

  /** Within the dead zone the strafe is a pure orbit: the desired
      direction is the normalised tangent. */
  lemma DeadzoneIsPureOrbit(sqrt: real -> real, toTarget: Vec2, dist: real, range: real, s: Strafer)
    requires IsSqrt(sqrt) && dist != 0.0 && Valid(s)
    requires range - InsideDeadzone(range, s.margin) <= dist <= range
    ensures Blend(sqrt, toTarget, dist, range, s) == Normalize(sqrt, Tangent(sqrt, toTarget, dist, s.sign))
  {
    WeightsInRange(dist, range, s.margin, s.orbitWeight);
    var tangentN := Tangent(sqrt, toTarget, dist, s.sign);
    var dir := Scale(toTarget, 1.0 / dist);
    var radial := if dist >= range then dir else Neg(dir);
    assert RawBlend(tangentN, radial, 1.0, 0.0) == tangentN;
    assert Steer(sqrt, toTarget, dist, range, s) == tangentN;
  }

  /** The blend closes on a target beyond the range and backs away from
      one inside it: its component along the line to the target is never
      negative outside the range and never positive inside. */
  lemma BlendRadialSense(sqrt: real -> real, toTarget: Vec2, dist: real, range: real, s: Strafer)
    requires IsSqrt(sqrt) && 0.0 < dist && Valid(s)
    ensures dist >= range ==> Dot(Blend(sqrt, toTarget, dist, range, s), toTarget) >= 0.0
    ensures dist < range ==> Dot(Blend(sqrt, toTarget, dist, range, s), toTarget) <= 0.0
  {
    SteerRadialSense(sqrt, toTarget, dist, range, s);
    NormalizeKeepsSense(sqrt, Steer(sqrt, toTarget, dist, range, s), toTarget);
  }

  lemma SteerRadialSense(sqrt: real -> real, toTarget: Vec2, dist: real, range: real, s: Strafer)
    requires IsSqrt(sqrt) && 0.0 < dist && Valid(s)
    ensures dist >= range ==> Dot(Steer(sqrt, toTarget, dist, range, s), toTarget) >= 0.0
    ensures dist < range ==> Dot(Steer(sqrt, toTarget, dist, range, s), toTarget) <= 0.0
  {
    var dir := Scale(toTarget, 1.0 / dist);
    var tangentN := Tangent(sqrt, toTarget, dist, s.sign);
    var radial := if dist >= range then dir else Neg(dir);
    var wR := RadialWeight(RadialError(dist, range, s.margin), s.margin);
    var wT := TangentWeight(s.orbitWeight, wR);
    TangentIsPerpendicular(sqrt, toTarget, dist, s.sign);
    DirAlong(toTarget, 1.0 / dist);
    WeightsInRange(dist, range, s.margin, s.orbitWeight);
    if dist < range { NegAlong(dir, toTarget); }
    RawSense(tangentN, radial, wT, wR, toTarget);
  }

  lemma DirAlong(a: Vec2, k: real)
    requires 0.0 < k
    ensures Dot(Scale(a, k), a) >= 0.0
  {
    assert Dot(Scale(a, k), a) == Mul(k, SqrMag(a));
    SqrMagNonNeg(a);
    MulNonNeg(k, SqrMag(a));
  }

  lemma NegAlong(d: Vec2, a: Vec2)
    ensures Dot(Neg(d), a) == -Dot(d, a)
  {
  }

  lemma RawSense(t: Vec2, r: Vec2, wT: real, wR: real, a: Vec2)
    requires Dot(t, a) == 0.0 && 0.0 <= wR
    ensures Dot(r, a) >= 0.0 ==> Dot(RawBlend(t, r, wT, wR), a) >= 0.0
    ensures Dot(r, a) <= 0.0 ==> Dot(RawBlend(t, r, wT, wR), a) <= 0.0
  {
    assert Dot(RawBlend(t, r, wT, wR), a) == Mul(wT, Dot(t, a)) + Mul(wR, Dot(r, a));
    if Dot(r, a) >= 0.0 { MulNonNeg(wR, Dot(r, a)); }
    if Dot(r, a) <= 0.0 { MulNonNeg(wR, -Dot(r, a)); assert Mul(wR, -Dot(r, a)) == -Mul(wR, Dot(r, a)); }
  }

  /** Normalising scales by a positive factor or yields zero, so the sign
      of a component is kept. */
  lemma NormalizeKeepsSense(sqrt: real -> real, v: Vec2, a: Vec2)
    requires IsSqrt(sqrt)
    ensures Dot(v, a) >= 0.0 ==> Dot(Normalize(sqrt, v), a) >= 0.0
    ensures Dot(v, a) <= 0.0 ==> Dot(Normalize(sqrt, v), a) <= 0.0
  {
    var m := Mag(sqrt, v);
    if m > NormalizeEpsilon {
      var c := 1.0 / m;
      assert Dot(Scale(v, c), a) == Mul(c, Dot(v, a));
      if Dot(v, a) >= 0.0 { MulNonNeg(c, Dot(v, a)); }
      if Dot(v, a) <= 0.0 { MulNonNeg(c, -Dot(v, a)); assert Mul(c, -Dot(v, a)) == -Mul(c, Dot(v, a)); }
    }
  }

  // ---------------------------------------------------------------------
  // The leaf

  /** The direction the leaf would move this frame for a given range, or
      None when self or target is missing or they coincide. */
  function DirectionFor(sqrt: real -> real, s: Strafer, b: Board, scene: Scene, range: real): Option<Vec2>
    requires IsSqrt(sqrt)
  {
    var self := ResolveTransform(b, s.selfKey, scene);
    var target := ResolveGameObject(b, s.targetKey, scene);
    if self.None? || target.None? then None
    else
      var toTarget := FlatOffset(scene, self.value, target.value);
      var dist := Mag(sqrt, toTarget);
      if dist <= FloatEpsilon then None
      else Some(Blend(sqrt, toTarget, dist, range, s))
  }

  /** The end-of-frame toggles: a pending forced toggle flips the side at
      once and restarts both timers; then the timers advance and a wait
      that has run out flips the side again. */
  function Toggles(s: Strafer, dt: real, forceDraw: real, periodicDraw: real): (r: Strafer)
  {
    var s1 := if s.forceToggle
      then s.(forceToggle := false, sign := -s.sign, toggleTimer := 0.0,
              waitTime := forceDraw, sinceLastEvade := 0.0)
      else s;
    var s2 := s1.(toggleTimer := s1.toggleTimer + dt, sinceLastEvade := s1.sinceLastEvade + dt);
    if s2.toggleTimer > s2.waitTime
    then s2.(toggleTimer := 0.0, sign := -s2.sign, waitTime := periodicDraw)
    else s2
  }

  /** The side flips once for a forced toggle and once for an expired wait,
      and stays ±1; the forced request is consumed; only the timers, wait
      and side change. */
  lemma TogglesFlipSide(s: Strafer, dt: real, forceDraw: real, periodicDraw: real)
    requires Valid(s)
    ensures var r := Toggles(s, dt, forceDraw, periodicDraw);
      var timer := (if s.forceToggle then 0.0 else s.toggleTimer) + dt;
      var wait := if s.forceToggle then forceDraw else s.waitTime;
      var periodic := timer > wait;
      Valid(r) && !r.forceToggle
      && r.sign == (if s.forceToggle != periodic then -s.sign else s.sign)
      && r.toggleTimer == (if periodic then 0.0 else timer)
      && r.sinceLastEvade == (if s.forceToggle then dt else s.sinceLastEvade + dt)
      && r.(sign := s.sign, toggleTimer := s.toggleTimer, waitTime := s.waitTime,
            forceToggle := s.forceToggle, sinceLastEvade := s.sinceLastEvade) == s
  {
  }

  /** MaintainRangeStrafeAction.Execute. A missing self, target or mecha
      fails and a coincident target runs in place, both without touching
      the timers; otherwise the mecha moves along the blend for its weapon
      range and the toggles run. */
  function StrafeTick(sqrt: real -> real, s: Strafer, b: Board, scene: Scene, dt: real,
                      forceDraw: real, periodicDraw: real): (r: (Status, Strafer, Scene))
    requires IsSqrt(sqrt)
  {
    var self := ResolveTransform(b, s.selfKey, scene);
    var target := ResolveGameObject(b, s.targetKey, scene);
    if self.None? || target.None? || MechaOf(scene, self.value).None? then (Failure, s, scene)
    else
      var m := MechaOf(scene, self.value).value;
      var dir := DirectionFor(sqrt, s, b, scene, DesiredRange(m));
      if dir.None? then (Running, s, scene)
      else
        var moved := Mecha.MoveInDirection(sqrt, m, Vec3(dir.value.x, dir.value.y, 0.0), dt).1;
        (Running, Toggles(s, dt, forceDraw, periodicDraw), Replace(scene, self.value, moved))
  }

  /** The leaf fails exactly when self, target or self's mecha is missing,
      and otherwise runs; it keeps the strafer valid, and leaves strafer
      and scene alone unless it moved. */
  lemma StrafeTickOutcome(sqrt: real -> real, s: Strafer, b: Board, scene: Scene, dt: real,
                          forceDraw: real, periodicDraw: real)
    requires IsSqrt(sqrt) && Valid(s)
    ensures var r := StrafeTick(sqrt, s, b, scene, dt, forceDraw, periodicDraw);
      var self := ResolveTransform(b, s.selfKey, scene);
      var target := ResolveGameObject(b, s.targetKey, scene);
      r.0 != Success && Valid(r.1)
      && (r.0 == Failure <==> self.None? || target.None? || MechaOf(scene, self.value).None?)
      && (r.0 == Failure || SqrMag(FlatOffset(scene, self.value, target.value)) == 0.0 ==>
            r.1 == s && r.2 == scene)
  {
    var self := ResolveTransform(b, s.selfKey, scene);
    var target := ResolveGameObject(b, s.targetKey, scene);
    TogglesFlipSide(s, dt, forceDraw, periodicDraw);
    if self.Some? && target.Some? {
      var off := FlatOffset(scene, self.value, target.value);
      if SqrMag(off) == 0.0 {
        RootUnique(Mag(sqrt, off), 0.0);
      }
    }
  }

  /** TryPredictDesiredDirection: the same blend, but always for the
      fallback range of 1.5 and without needing a mecha. */
  function TryPredictDesiredDirection(sqrt: real -> real, s: Strafer, b: Board, scene: Scene): (r: Option<Vec2>)
    requires IsSqrt(sqrt)
  {
    DirectionFor(sqrt, s, b, scene, FallbackRange)
  }

  /** The prediction is what the leaf does for a mecha without a ranged
      weapon: both move along the same direction. For a mecha with a
      positive weapon range, it differs from the executed blend whenever
      the range matters. */
  lemma PredictionMatchesUnarmed(sqrt: real -> real, s: Strafer, b: Board, scene: Scene)
    requires IsSqrt(sqrt)
    requires var self := ResolveTransform(b, s.selfKey, scene);
      self.Some? && MechaOf(scene, self.value).Some?
      && LongestRange(MechaOf(scene, self.value).value.weapons) <= 0.0
    ensures TryPredictDesiredDirection(sqrt, s, b, scene)
      == DirectionFor(sqrt, s, b, scene, DesiredRange(MechaOf(scene, ResolveTransform(b, s.selfKey, scene).value).value))
  {
  }

  /** The prediction exists exactly when both ends resolve and do not
      coincide in the plane. */
  lemma PredictionExists(sqrt: real -> real, s: Strafer, b: Board, scene: Scene)
    requires IsSqrt(sqrt)
    ensures var self := ResolveTransform(b, s.selfKey, scene);
      var target := ResolveGameObject(b, s.targetKey, scene);
      TryPredictDesiredDirection(sqrt, s, b, scene).Some? <==>
        self.Some? && target.Some? && Mag(sqrt, FlatOffset(scene, self.value, target.value)) > FloatEpsilon
  {
  }
}
