/** The two evasion leaves. The toggle leaf watches whether the strafe's
    predicted path crosses the tracked projectile soon and, with enter/exit
    hysteresis and a re-trigger cooldown, asks the strafe to switch orbit
    side. The dash leaf dashes sideways from a high-threat projectile about
    to arrive, choosing the side by a fixed cascade of tie-breaking tiers.
    The sensor's homing and high-threat classifications and the dash
    safety score are inputs. */
module Evade {
  import opened Numeric
  import opened Geometry
  import opened Blackboard
  import opened BehaviorTree
  import opened World
  import Mecha
  import Sensor
  import Prediction
  import Strafe

  // ---------------------------------------------------------------------
  // The evade toggle

  const DefaultTtiEnter: real := 0.35
  const MinTtiEnter: real := 0.05
  /** Exit threshold above enter for the simple constructor. */
  const SimpleExitGap: real := 0.2
  /** Least exit threshold above enter for the advanced constructor. */
  const MinExitGap: real := 0.05
  const DefaultRetrigger: real := 0.6
  const MinHorizon: real := 0.1
  /** A rough margin for the summed mecha and projectile radii. */
  const CrossClearance: real := 0.6

  datatype Toggle = Toggle(selfKey: string, ttiEnter: real, ttiExit: real,
                           retrigger: real, cooldown: real, active: bool)

  /** What both constructors establish and every tick keeps. */
  predicate ValidToggle(e: Toggle) {
    MinTtiEnter <= e.ttiEnter && e.ttiEnter + MinExitGap <= e.ttiExit
    && 0.0 <= e.retrigger && 0.0 <= e.cooldown
  }

  /** The simple constructor: exit is enter + 0.2, cooldown 0.6. */
  function NewToggle(selfKey: string, ttiThreshold: real): (e: Toggle)
    ensures ValidToggle(e) && !e.active && e.cooldown == 0.0
    ensures e.ttiEnter == Max(MinTtiEnter, ttiThreshold)
    ensures e.ttiExit == e.ttiEnter + SimpleExitGap && e.retrigger == DefaultRetrigger
  {
    var enter := Max(MinTtiEnter, ttiThreshold);
    Toggle(selfKey, enter, Max(enter + SimpleExitGap, enter + SimpleExitGap), DefaultRetrigger, 0.0, false)
  }

  /** The advanced constructor: exit is at least enter + 0.05 and the
      cooldown at least 0; each keeps a larger given value. */
  function NewToggleAdvanced(selfKey: string, ttiEnter: real, ttiExit: real, retrigger: real): (e: Toggle)
    ensures ValidToggle(e) && !e.active && e.cooldown == 0.0
    ensures MinTtiEnter <= ttiEnter ==> e.ttiEnter == ttiEnter
    ensures ttiExit >= e.ttiEnter + MinExitGap ==> e.ttiExit == ttiExit
    ensures 0.0 <= retrigger ==> e.retrigger == retrigger
  {
    var enter := Max(MinTtiEnter, ttiEnter);
    Toggle(selfKey, enter, Max(enter + MinExitGap, ttiExit), Max(0.0, retrigger), 0.0, false)
  }

  /** The path-crossing check against the tracked projectile: run only with
      a predicted direction and a moving projectile, over a horizon of the
      exit threshold (at least 0.1). */
  function PathCheck(sqrt: real -> real, e: Toggle, sensor: Sensor.SensorState, position: Vec2,
                     desired: Option<Vec2>, moveSpeed: real): (r: (bool, real))
    requires IsSqrt(sqrt)
    ensures desired.None? || SqrMag(sensor.incoming.velocity) <= 0.0 ==> r == (false, 0.0)
    ensures desired.Some? && SqrMag(sensor.incoming.velocity) > 0.0 ==>
      var c := Sensor.WillPathCross(sqrt, sensor, position, desired.value, moveSpeed,
                                    Max(MinHorizon, e.ttiExit), CrossClearance);
      r == (c.cross, c.crossTime)
  {
    if desired.Some? && SqrMag(sensor.incoming.velocity) > 0.0 then
      var c := Sensor.WillPathCross(sqrt, sensor, position, desired.value, moveSpeed,
                                    Max(MinHorizon, e.ttiExit), CrossClearance);
      (c.cross, c.crossTime)
    else (false, 0.0)
  }

  /** The hysteresis step after the cooldown has decayed: an inactive
      threat turns active on a crossing sooner than the enter threshold and
      fires the strafe toggle if the cooldown has run out, re-arming it; an
      active threat clears once the crossing is gone or later than the exit
      threshold. The boolean says whether the toggle fired. */
  function Hysteresis(e: Toggle, willCross: bool, crossTime: real): (r: (Toggle, bool))
  {
    if !e.active then
      if willCross && crossTime < e.ttiEnter then
        if e.cooldown <= 0.0 then (e.(cooldown := e.retrigger, active := true), true)
        else (e.(active := true), false)
      else (e, false)
    else if !willCross || crossTime > e.ttiExit then (e.(active := false), false)
    else (e, false)
  }

  /** The transitions: activation needs a crossing sooner than enter,
      clearing needs no crossing or one later than exit, and the toggle
      fires only on activation with the cooldown run out, re-arming it. */
  lemma HysteresisTransitions(e: Toggle, willCross: bool, crossTime: real)
    requires ValidToggle(e)
    ensures var (n, fired) := Hysteresis(e, willCross, crossTime);
      ValidToggle(n)
      && (!e.active && n.active ==> willCross && crossTime < e.ttiEnter)
      && (e.active && !n.active ==> !willCross || crossTime > e.ttiExit)
      && (fired <==> !e.active && n.active && e.cooldown <= 0.0)
      && (fired ==> n.cooldown == e.retrigger)
      && (!fired ==> n.cooldown == e.cooldown)
  {
  }

  /** Between the thresholds nothing changes: a crossing no sooner than
      enter and no later than exit keeps the threat in whatever state it
      is in, which is what makes the thresholds a hysteresis band. */
  lemma HysteresisBand(e: Toggle, crossTime: real)
    requires ValidToggle(e) && e.ttiEnter <= crossTime <= e.ttiExit
    ensures Hysteresis(e, true, crossTime) == (e, false)
  {
  }

  /** The cooldown decays by the frame time and stops at 0. */
  function Decay(cooldown: real, dt: real): (c: real)
    ensures 0.0 <= cooldown && 0.0 <= dt ==> 0.0 <= c <= cooldown
    ensures cooldown > 0.0 && cooldown - dt >= 0.0 ==> c == cooldown - dt
  {
    if cooldown > 0.0 then Max(0.0, cooldown - dt) else cooldown
  }

  /** EvadeToggleAction.Execute. The strafe leaf is shared: a fired toggle
      comes back as the strafe's updated state. */
  function ToggleTick(sqrt: real -> real, e: Toggle, strafe: Option<Strafe.Strafer>, b: Board,
                      scene: Scene, dt: real): (r: (Status, Toggle, Option<Strafe.Strafer>))
    requires IsSqrt(sqrt)
  {
    var self := ResolveTransform(b, e.selfKey, scene);
    if self.None? || strafe.None? then (Failure, e, strafe)
    else if SensorOf(scene, self.value).None? then (Failure, e, strafe)
    else
      var sensor := SensorOf(scene, self.value).value;
      var e1 := e.(cooldown := Decay(e.cooldown, dt));
      var desired := Strafe.TryPredictDesiredDirection(sqrt, strafe.value, b, scene);
      var m := MechaOf(scene, self.value);
      var moveSpeed := if m.Some? then m.value.moveSpeed else 0.0;
      var (willCross, crossTime) :=
        PathCheck(sqrt, e1, sensor, XY(Position(scene.objects[self.value])), desired, moveSpeed);
      var (e2, fired) := Hysteresis(e1, willCross, crossTime);
      (Running, e2, if fired then Some(Strafe.TriggerEvadeToggle(strafe.value)) else strafe)
  }

  /** The leaf fails, changing nothing, exactly when self, the strafe leaf
      or the sensor is missing, and otherwise runs; the thresholds are
      kept and the cooldown never goes negative; the strafe is asked to
      toggle only on the tick the threat turns active, and only when the
      cooldown has run out. */
  lemma ToggleTickOutcome(sqrt: real -> real, e: Toggle, strafe: Option<Strafe.Strafer>, b: Board,
                          scene: Scene, dt: real)
    requires IsSqrt(sqrt) && ValidToggle(e) && 0.0 <= dt
    ensures var r := ToggleTick(sqrt, e, strafe, b, scene, dt);
      var self := ResolveTransform(b, e.selfKey, scene);
      var missing := self.None? || strafe.None? || SensorOf(scene, self.value).None?;
      (r.0 == Failure <==> missing) && (r.0 != Success)
      && (missing ==> r.1 == e && r.2 == strafe)
      && ValidToggle(r.1)
      && r.1.(cooldown := e.cooldown, active := e.active) == e
      && (r.2 != strafe ==>
            (!missing && !e.active && r.1.active
             && Decay(e.cooldown, dt) <= 0.0 && r.1.cooldown == e.retrigger
             && r.2 == Some(Strafe.TriggerEvadeToggle(strafe.value))))
  {
    var self := ResolveTransform(b, e.selfKey, scene);
    if self.Some? && strafe.Some? && SensorOf(scene, self.value).Some? {
      var e1 := e.(cooldown := Decay(e.cooldown, dt));
      var sensor := SensorOf(scene, self.value).value;
      var desired := Strafe.TryPredictDesiredDirection(sqrt, strafe.value, b, scene);
      var m := MechaOf(scene, self.value);
      var moveSpeed := if m.Some? then m.value.moveSpeed else 0.0;
      var (willCross, crossTime) :=
        PathCheck(sqrt, e1, sensor, XY(Position(scene.objects[self.value])), desired, moveSpeed);
      HysteresisTransitions(e1, willCross, crossTime);
    }
  }

  // ---------------------------------------------------------------------
  // The evade dash: side selection

  datatype Side = Right | Left

  /** One tier of the cascade: a score for each side, the difference that
      makes the tier decisive, and whether the lower score wins. */
  datatype Tier = Tier(right: real, left: real, threshold: real, preferLower: bool)

  predicate Decisive(t: Tier) {
    Abs(t.right - t.left) > t.threshold
  }

  function Preferred(t: Tier): Side {
    if t.preferLower then (if t.right < t.left then Right else Left)
    else (if t.right > t.left then Right else Left)
  }

  /** The cascade: the first decisive tier picks its preferred side; with
      none decisive the fallback does. */
  function Decide(tiers: seq<Tier>, fallback: Side): Side
  {
    if |tiers| == 0 then fallback
    else if Decisive(tiers[0]) then Preferred(tiers[0])
    else Decide(tiers[1..], fallback)
  }

  /** Tiers are consulted in order: the side is that of the first decisive
      tier, and the fallback only when none is decisive. */
  lemma {:induction false} DecideIsFirstDecisive(tiers: seq<Tier>, fallback: Side, k: nat)
    requires k <= |tiers|
    requires forall j :: 0 <= j < k ==> !Decisive(tiers[j])
    ensures k < |tiers| && Decisive(tiers[k]) ==> Decide(tiers, fallback) == Preferred(tiers[k])
    ensures k == |tiers| ==> Decide(tiers, fallback) == fallback
  {
    if k > 0 {
      assert !Decisive(tiers[0]);
      DecideIsFirstDecisive(tiers[1..], fallback, k - 1);
    }
  }

  /** A decisive tier's preferred side really scores better there. */
  lemma PreferredIsBetter(t: Tier)
    requires Decisive(t) && 0.0 <= t.threshold
    ensures Preferred(t) == Right <==> (if t.preferLower then t.right < t.left else t.right > t.left)
    ensures Preferred(t) == Left <==> (if t.preferLower then t.left < t.right else t.left > t.right)
  {
  }

  const DefaultOptimalRange: real := 8.0

  /** GetOptimalWeaponRange: the longest weapon range when positive,
      otherwise 8. */
  function OptimalWeaponRange(weapons: seq<Option<Mecha.Weapon>>): (r: real)
    ensures 0.0 < r
    ensures r == DefaultOptimalRange ||
      (exists i :: 0 <= i < |weapons| && weapons[i].Some? && weapons[i].value.attackRange == r)
    ensures (exists i :: 0 <= i < |weapons| && weapons[i].Some? && weapons[i].value.attackRange > 0.0) ==>
      forall i :: 0 <= i < |weapons| && weapons[i].Some? ==> weapons[i].value.attackRange <= r
    ensures (forall i :: 0 <= i < |weapons| && weapons[i].Some? ==> weapons[i].value.attackRange <= 0.0) ==>
      r == DefaultOptimalRange
  {
    LongestRangeIsMax(weapons);
    var longest := LongestRange(weapons);
    if longest > 0.0 then longest else DefaultOptimalRange
  }

  /** What the cascade looks at, besides the incoming direction. */
  datatype Situation = Situation(
    selfPos: Vec2,
    homing: bool,
    origin: Vec2,
    target: Option<Vec2>,
    optimalRange: real,
    dashDistance: real,
    strafeDir: Option<Vec2>)

  function PerpRight(d: Vec2): Vec2 { Vec2(-d.y, d.x) }

  /** The direction from the projectile's origin to self. */
  function EscapeReference(sqrt: real -> real, s: Situation): Vec2
    requires IsSqrt(sqrt)
  {
    Normalize(sqrt, Sub(s.selfPos, s.origin))
  }

  /** The tiers in their fixed order: predicted safety (threshold 0.8 for
      homing, 1.5 otherwise), moving away from the origin (0.2 / 0.3), the
      weapon-range error at the dash end point (1, lower wins, only against
      a target and a non-homing threat), and agreement with the strafe's
      predicted direction (0.2, only when it has one). */
  function Tiers(sqrt: real -> real, d: Vec2, s: Situation, safety: Vec2 -> real): seq<Tier>
    requires IsSqrt(sqrt)
  {
    var right := PerpRight(d);
    var left := Neg(right);
    var reference := EscapeReference(sqrt, s);
    var safetyTier := Tier(safety(right), safety(left), if s.homing then 0.8 else 1.5, false);
    var escapeTier := Tier(Dot(right, reference), Dot(left, reference), if s.homing then 0.2 else 0.3, false);
    var rangeTiers :=
      if s.target.Some? && !s.homing then
        var rightEnd := Add(s.selfPos, Scale(right, s.dashDistance));
        var leftEnd := Add(s.selfPos, Scale(left, s.dashDistance));
        [Tier(Abs(Mag(sqrt, Sub(rightEnd, s.target.value)) - s.optimalRange),
              Abs(Mag(sqrt, Sub(leftEnd, s.target.value)) - s.optimalRange), 1.0, true)]
      else [];
    var consistencyTiers :=
      if s.strafeDir.Some? then [Tier(Dot(right, s.strafeDir.value), Dot(left, s.strafeDir.value), 0.2, false)]
      else [];
    [safetyTier, escapeTier] + rangeTiers + consistencyTiers
  }

  /** The last resort: the side pointing further from the origin. For a
      homing threat the source recomputes the same normalised offset under
      another name, so both kinds of threat compare the same two values. */
  function Fallback(sqrt: real -> real, d: Vec2, s: Situation): Side
    requires IsSqrt(sqrt)
  {
    var reference := EscapeReference(sqrt, s);
    if Dot(PerpRight(d), reference) > Dot(Neg(PerpRight(d)), reference) then Right else Left
  }

  /** The unit-free vector for a side: right is d turned a quarter
      counter-clockwise, left its opposite. */
  function SideVector(d: Vec2, side: Side): Vec2 {
    if side == Right then PerpRight(d) else Neg(PerpRight(d))
  }

  /** CalculateSmartEvadeDirection. */
  function SmartEvadeDirection(sqrt: real -> real, d: Vec2, s: Situation, safety: Vec2 -> real): Vec2
    requires IsSqrt(sqrt)
  {
    SideVector(d, Decide(Tiers(sqrt, d, s, safety), Fallback(sqrt, d, s)))
  }

  /** Either side is perpendicular to d and as long as it. */
  lemma SideIsPerpendicular(d: Vec2, side: Side)
    ensures var r := SideVector(d, side);
      (r == Vec2(-d.y, d.x) || r == Vec2(d.y, -d.x))
      && Dot(r, d) == 0.0 && SqrMag(r) == SqrMag(d)
  {
    PerpRightFacts(d);
    if side == Left { NegPreserves(PerpRight(d), d); }
  }

  lemma PerpRightFacts(d: Vec2)
    ensures Dot(PerpRight(d), d) == 0.0
    ensures SqrMag(PerpRight(d)) == SqrMag(d)
  {
    MulNegNeg(d.y, d.y);
  }

  lemma NegPreserves(v: Vec2, d: Vec2)
    ensures Dot(Neg(v), d) == -Dot(v, d)
    ensures SqrMag(Neg(v)) == SqrMag(v)
  {
    MulNegNeg(v.x, v.x);
    MulNegNeg(v.y, v.y);
  }

  /** The evade direction is always one of the two perpendiculars of the
      incoming direction, as long as it. */
  lemma EvadeIsPerpendicular(sqrt: real -> real, d: Vec2, s: Situation, safety: Vec2 -> real)
    requires IsSqrt(sqrt)
    ensures var r := SmartEvadeDirection(sqrt, d, s, safety);
      (r == Vec2(-d.y, d.x) || r == Vec2(d.y, -d.x))
      && Dot(r, d) == 0.0 && SqrMag(r) == SqrMag(d)
  {
    SideIsPerpendicular(d, Decide(Tiers(sqrt, d, s, safety), Fallback(sqrt, d, s)));
  }

  /** A clear safety difference decides before anything else: the dash
      goes to the side with the higher predicted safety. */
  lemma SafetyDecidesFirst(sqrt: real -> real, d: Vec2, s: Situation, safety: Vec2 -> real)
    requires IsSqrt(sqrt)
    requires Abs(safety(PerpRight(d)) - safety(Neg(PerpRight(d)))) > (if s.homing then 0.8 else 1.5)
    ensures SmartEvadeDirection(sqrt, d, s, safety) ==
      SideVector(d, if safety(PerpRight(d)) > safety(Neg(PerpRight(d))) then Right else Left)
  {
    DecideIsFirstDecisive(Tiers(sqrt, d, s, safety), Fallback(sqrt, d, s), 0);
  }

  /** With no tier decisive the side is the one pointing away from the
      origin. */
  lemma FallbackLast(sqrt: real -> real, d: Vec2, s: Situation, safety: Vec2 -> real)
    requires IsSqrt(sqrt)
    requires forall j :: 0 <= j < |Tiers(sqrt, d, s, safety)| ==> !Decisive(Tiers(sqrt, d, s, safety)[j])
    ensures SmartEvadeDirection(sqrt, d, s, safety) == SideVector(d, Fallback(sqrt, d, s))
  {
    var ts := Tiers(sqrt, d, s, safety);
    DecideIsFirstDecisive(ts, Fallback(sqrt, d, s), |ts|);
  }

  /** For a homing threat the target and the weapon range play no part:
      the range tier is skipped. */
  lemma HomingIgnoresRange(sqrt: real -> real, d: Vec2, s: Situation, safety: Vec2 -> real,
                           target: Option<Vec2>, optimalRange: real)
    requires IsSqrt(sqrt) && s.homing
    ensures SmartEvadeDirection(sqrt, d, s.(target := target, optimalRange := optimalRange), safety)
         == SmartEvadeDirection(sqrt, d, s, safety)
  {
    assert Tiers(sqrt, d, s.(target := target, optimalRange := optimalRange), safety) == Tiers(sqrt, d, s, safety);
  }

  // ---------------------------------------------------------------------
  // The evade dash: trigger

  const DefaultTtiThreshold: real := 0.25
  const MinTtiThreshold: real := 0.05
  const HomingWindowFactor: real := 1.5

  datatype Dasher = Dasher(selfKey: string, ttiThreshold: real)

  function NewDasher(selfKey: string, ttiThreshold: real): (a: Dasher)
    ensures MinTtiThreshold <= a.ttiThreshold
    ensures MinTtiThreshold <= ttiThreshold ==> a.ttiThreshold == ttiThreshold
  {
    Dasher(selfKey, Max(MinTtiThreshold, ttiThreshold))
  }

  /** The time-to-impact window: widened by half for homing threats. */
  function Window(a: Dasher, homing: bool): real {
    if homing then Mul(a.ttiThreshold, HomingWindowFactor) else a.ttiThreshold
  }

  /** A homing threat triggers whenever a straight one at the same time to
      impact would, and earlier. */
  lemma HomingWindowWider(a: Dasher)
    requires 0.0 < a.ttiThreshold
    ensures Window(a, false) < Window(a, true)
  {
  }

  predicate Triggers(a: Dasher, homing: bool, highThreat: bool, tti: Extended, m: Mecha.Mecha) {
    highThreat && LessThanReal(tti, Window(a, homing)) && Mecha.CanDash(m)
  }

  /** What the dash leaf did: its status, the scene after it, and the
      direction handed to the strafe after a successful dash. */
  datatype DashOutcome = DashOutcome(status: Status, scene: Scene, notified: Option<Vec2>)

  /** The cascade's inputs as the leaf gathers them: the hard-wired
      "target" key, the optimal weapon range and the strafe's prediction. */
  function SituationOf(sqrt: real -> real, self: nat, m: Mecha.Mecha, sensor: Sensor.SensorState,
                       homing: bool, strafe: Option<Strafe.Strafer>, b: Board, scene: Scene): Situation
    requires IsSqrt(sqrt) && self in scene.objects
  {
    var target := ResolveGameObject(b, "target", scene);
    Situation(XY(Position(scene.objects[self])), homing, sensor.incoming.origin,
              if target.Some? then Some(XY(Position(scene.objects[target.value]))) else None,
              OptimalWeaponRange(m.weapons), m.dashDistance,
              if strafe.Some? then Strafe.TryPredictDesiredDirection(sqrt, strafe.value, b, scene) else None)
  }

  /** EvadeDashAction.Execute. */
  function DashTick(sqrt: real -> real, a: Dasher, strafe: Option<Strafe.Strafer>, b: Board, scene: Scene,
                    homing: bool, highThreat: bool, safety: Vec2 -> real): (r: DashOutcome)
    requires IsSqrt(sqrt)
  {
    var self := ResolveTransform(b, a.selfKey, scene);
    if self.None? then DashOutcome(Failure, scene, None)
    else if MechaOf(scene, self.value).None? || SensorOf(scene, self.value).None? then DashOutcome(Failure, scene, None)
    else
      var m := MechaOf(scene, self.value).value;
      var sensor := SensorOf(scene, self.value).value;
      if !Triggers(a, homing, highThreat, sensor.incoming.tti, m) then DashOutcome(Failure, scene, None)
      else
        var d := sensor.incoming.dir;
        if SqrMag(d) <= 0.0 then DashOutcome(Running, scene, None)
        else
          var s := SituationOf(sqrt, self.value, m, sensor, homing, strafe, b, scene);
          var dir := SmartEvadeDirection(sqrt, d, s, safety);
          var (ok, m1) := Mecha.TryDash(sqrt, m, Vec3(dir.x, dir.y, 0.0));
          if !ok then DashOutcome(Running, scene, None)
          else DashOutcome(Running, Replace(scene, self.value, m1), if strafe.Some? then Some(dir) else None)
  }

  /** The leaf runs exactly when self has a mecha and a sensor and the
      trigger holds, even if the dash then fails; otherwise it fails. The
      scene changes only by a dash that started, sideways to the incoming
      direction, and the strafe hears of a dash only when one started. */
  lemma DashTickOutcome(sqrt: real -> real, a: Dasher, strafe: Option<Strafe.Strafer>, b: Board, scene: Scene,
                        homing: bool, highThreat: bool, safety: Vec2 -> real)
    requires IsSqrt(sqrt)
    ensures var r := DashTick(sqrt, a, strafe, b, scene, homing, highThreat, safety);
      var self := ResolveTransform(b, a.selfKey, scene);
      var ready := self.Some? && MechaOf(scene, self.value).Some? && SensorOf(scene, self.value).Some?;
      r.status != Success
      && (r.status == Running <==>
            ready && Triggers(a, homing, highThreat, SensorOf(scene, self.value).value.incoming.tti,
                              MechaOf(scene, self.value).value))
      && (r.scene != scene || r.notified.Some? ==>
            ready && r.status == Running
            && var m := MechaOf(scene, self.value).value;
            var m1 := MechaOf(r.scene, self.value).value;
            !m.isDashing && m1.isDashing
            && Dot(m1.dashDir, SensorOf(scene, self.value).value.incoming.dir) == 0.0)
      && (r.notified.Some? ==> strafe.Some?)
  {
    var self := ResolveTransform(b, a.selfKey, scene);
    if self.Some? && MechaOf(scene, self.value).Some? && SensorOf(scene, self.value).Some? {
      var m := MechaOf(scene, self.value).value;
      var sensor := SensorOf(scene, self.value).value;
      var d := sensor.incoming.dir;
      if Triggers(a, homing, highThreat, sensor.incoming.tti, m) && SqrMag(d) > 0.0 {
        var s := SituationOf(sqrt, self.value, m, sensor, homing, strafe, b, scene);
        var dir := SmartEvadeDirection(sqrt, d, s, safety);
        EvadeIsPerpendicular(sqrt, d, s, safety);
        var (ok, m1) := Mecha.TryDash(sqrt, m, Vec3(dir.x, dir.y, 0.0));
        if ok {
          DashDirAlongEvade(sqrt, dir, d);
        }
      }
    }
  }

  /** Normalising a direction perpendicular to d keeps it perpendicular. */
  lemma DashDirAlongEvade(sqrt: real -> real, dir: Vec2, d: Vec2)
    requires IsSqrt(sqrt) && Dot(dir, d) == 0.0
    ensures Dot(Normalize(sqrt, XY(Vec3(dir.x, dir.y, 0.0))), d) == 0.0
  {
    assert XY(Vec3(dir.x, dir.y, 0.0)) == dir;
    var m := Mag(sqrt, dir);
    if m > NormalizeEpsilon {
      assert Dot(Scale(dir, 1.0 / m), d) == (1.0 / m) * Dot(dir, d);
    }
  }
}
