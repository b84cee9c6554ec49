/** A projectile: its three initialisers, the per-frame flight update
    (expiry, the homing time window, the tracking-cone gate, straight
    flight) and the hit filter. Flight happens in the XY plane, so
    directions are planar. The turn itself (RotateTowards followed by a
    Lerp by the homing strength) and Vector3.Angle are caller-supplied
    functions; the model fixes only when they are consulted and what is
    done with their result. */
module Projectile {
  import opened Numeric
  import opened Geometry

  /** The prefab settings. */
  datatype Config = Config(speed: real, lifeTime: real, isHoming: bool, isHighThreat: bool,
                           homingSpeed: real, homingDelay: real, homingStrength: real,
                           maxTurnRateDeg: real, homingDuration: real, maxTrackingAngleDeg: real)

  /** The serialized defaults. */
  const DefaultConfig: Config := Config(12.0, 3.0, true, false, 10.0, 0.2, 1.0, 180.0, 5.0, 150.0)

  /** Below this squared distance the target is considered reached and is
      not tracked. */
  const MinTrackSqrDistance: real := 1.0e-6

  /** A projectile in flight. `target` is the identity of the tracked
      transform (None for a null reference); `alive` turns false when the
      game object is destroyed. */
  datatype Projectile = Projectile(
    cfg: Config,
    isHoming: bool,
    target: Option<nat>,
    shooterTeam: int,
    damage: int,
    impact: int,
    timeLeft: real,
    elapsed: real,
    isHomingActive: bool,
    initialDir: Vec2,
    currentDir: Vec2,
    position: Vec3,
    alive: bool)

  /** A projectile as spawned, before any initialiser: the prefab's homing
      flag, no target, full lifetime, homing inactive. */
  function Spawned(cfg: Config, position: Vec3): Projectile {
    Projectile(cfg, cfg.isHoming, None, 0, 0, 0, cfg.lifeTime, 0.0, false, Zero2, Zero2, position, true)
  }

  /** What every initialiser sets: team, damage and impact clamped to at
      least 0, a full lifetime, no elapsed time, and the current heading
      equal to the initial one. */
  predicate Launched(p: Projectile, shooterTeam: int, damage: int, impact: int, dir: Vec2) {
    && p.shooterTeam == shooterTeam
    && p.damage == MaxInt(0, damage) && p.impact == MaxInt(0, impact)
    && p.damage >= 0 && p.impact >= 0
    && p.timeLeft == p.cfg.lifeTime && p.elapsed == 0.0
    && p.initialDir == dir && p.currentDir == dir
  }

  /** Initialize: aim at the target's XY from the projectile's XY. The
      target must be non-null (its position is read). A target at the
      projectile's own position gives a zero heading: this initialiser has
      no fallback. */
  function Initialize(sqrt: real -> real, p: Projectile, target: nat, targetPos: Vec3,
                      shooterTeam: int, damage: int, impact: int): (r: Projectile)
    requires IsSqrt(sqrt)
    ensures Launched(r, shooterTeam, damage, impact, Normalize(sqrt, Sub(XY(targetPos), XY(p.position))))
    ensures r.target == Some(target) && r.isHoming == p.isHoming
    ensures r.position == p.position && r.cfg == p.cfg && r.alive == p.alive
  {
    var dir := Normalize(sqrt, Sub(XY(targetPos), XY(p.position)));
    p.(target := Some(target), shooterTeam := shooterTeam,
       damage := MaxInt(0, damage), impact := MaxInt(0, impact),
       timeLeft := p.cfg.lifeTime, elapsed := 0.0,
       initialDir := dir, currentDir := dir)
  }

  /** The heading of the direction-given initialisers: the normalised
      direction, or the transform's up vector when the direction is zero. */
  function LaunchDir(sqrt: real -> real, dir: Vec2, up: Vec2): (d: Vec2)
    requires IsSqrt(sqrt)
    ensures dir != Zero2 ==> d == Normalize(sqrt, dir)
    ensures dir == Zero2 ==> d == Normalize(sqrt, up)
  {
    SqrMagZero(dir);
    if SqrMag(dir) <= 0.0 then Normalize(sqrt, up) else Normalize(sqrt, dir)
  }

  /** InitializeWithDirection: straight flight, no target, whatever the
      prefab says. */
  function InitializeWithDirection(sqrt: real -> real, p: Projectile, dir: Vec2, up: Vec2,
                                   shooterTeam: int, damage: int, impact: int): (r: Projectile)
    requires IsSqrt(sqrt)
    ensures Launched(r, shooterTeam, damage, impact, LaunchDir(sqrt, dir, up))
    ensures r.target.None? && !r.isHoming
    ensures r.position == p.position && r.cfg == p.cfg && r.alive == p.alive
  {
    var d := LaunchDir(sqrt, dir, up);
    p.(target := None, isHoming := false, shooterTeam := shooterTeam,
       damage := MaxInt(0, damage), impact := MaxInt(0, impact),
       timeLeft := p.cfg.lifeTime, elapsed := 0.0,
       initialDir := d, currentDir := d)
  }

  /** InitializeWithDirectionAndTarget: the given heading with a target to
      track; the homing flag keeps its prefab value. */
  function InitializeWithDirectionAndTarget(sqrt: real -> real, p: Projectile, dir: Vec2, up: Vec2,
                                            target: Option<nat>, shooterTeam: int, damage: int,
                                            impact: int): (r: Projectile)
    requires IsSqrt(sqrt)
    ensures Launched(r, shooterTeam, damage, impact, LaunchDir(sqrt, dir, up))
    ensures r.target == target && r.isHoming == p.isHoming
    ensures r.position == p.position && r.cfg == p.cfg && r.alive == p.alive
  {
    var d := LaunchDir(sqrt, dir, up);
    p.(target := target, shooterTeam := shooterTeam,
       damage := MaxInt(0, damage), impact := MaxInt(0, impact),
       timeLeft := p.cfg.lifeTime, elapsed := 0.0,
       initialDir := d, currentDir := d)
  }

  /** A zero launch direction falls back to the up vector, for both
      direction-given initialisers; a non-zero one is used as given. */
  lemma ZeroDirectionUsesUp(sqrt: real -> real, p: Projectile, dir: Vec2, up: Vec2, team: int,
                            damage: int, impact: int, target: Option<nat>, r1: Projectile, r2: Projectile)
    requires IsSqrt(sqrt)
    requires r1 == InitializeWithDirection(sqrt, p, dir, up, team, damage, impact)
    requires r2 == InitializeWithDirectionAndTarget(sqrt, p, dir, up, target, team, damage, impact)
    ensures dir == Zero2 ==> r1.currentDir == Normalize(sqrt, up) && r2.currentDir == Normalize(sqrt, up)
    ensures dir != Zero2 ==> r1.currentDir == Normalize(sqrt, dir) && r2.currentDir == Normalize(sqrt, dir)
  {
    assert r1.currentDir == LaunchDir(sqrt, dir, up);
    assert r2.currentDir == LaunchDir(sqrt, dir, up);
  }

  // ---------------------------------------------------------------------
  // Flight

  /** The environment of one frame: the frame time, the tracked target's
      position (None when the referenced object no longer exists), the
      turn function standing for RotateTowards(current, toward, maxTurn)
      followed by Lerp(current, turned, strength), and Vector3.Angle. */
  datatype Frame = Frame(dt: real, targetPos: Option<Vec3>,
                         steer: (Vec2, Vec2, real, real) -> Vec2,
                         angle: (Vec2, Vec2) -> real)

  /** Is the homing window open at this elapsed time? */
  predicate InWindow(cfg: Config, elapsed: real) {
    cfg.homingDelay <= elapsed <= cfg.homingDelay + cfg.homingDuration
  }

  /** The homing branch runs only for a homing projectile whose target
      still exists. */
  predicate Tracking(p: Projectile, f: Frame) {
    p.isHoming && p.target.Some? && f.targetPos.Some?
  }

  /** The turn happens: window open, positive strength, target not reached
      and within the tracking cone. */
  predicate Turns(sqrt: real -> real, p: Projectile, f: Frame, active: bool, selfPos: Vec2)
    requires IsSqrt(sqrt) && f.targetPos.Some?
  {
    var toTarget := Sub(XY(f.targetPos.value), selfPos);
    && active && p.cfg.homingStrength > 0.0 && SqrMag(toTarget) > MinTrackSqrDistance
    && f.angle(p.currentDir, Normalize(sqrt, toTarget)) <= p.cfg.maxTrackingAngleDeg
  }

  /** The heading after the homing branch, given the window flag. */
  function HomingDir(sqrt: real -> real, p: Projectile, f: Frame, active: bool, selfPos: Vec2): (d: Vec2)
    requires IsSqrt(sqrt) && f.targetPos.Some?
    ensures d != p.currentDir ==> Turns(sqrt, p, f, active, selfPos)
  {
    if active && p.cfg.homingStrength > 0.0 then
      var toTarget := Sub(XY(f.targetPos.value), selfPos);
      if SqrMag(toTarget) > MinTrackSqrDistance then
        var targetDir := Normalize(sqrt, toTarget);
        if f.angle(p.currentDir, targetDir) <= p.cfg.maxTrackingAngleDeg then
          Normalize(sqrt, f.steer(p.currentDir, targetDir, p.cfg.maxTurnRateDeg * f.dt, p.cfg.homingStrength))
        else p.currentDir
      else p.currentDir
    else p.currentDir
  }

  /** Update. A destroyed projectile receives no more frames. The lifetime
      is checked first, so an expired projectile is destroyed before it
      moves. A homing projectile with an existing target records whether
      the window is open and may turn; any other projectile flies along its
      initial heading and leaves the window flag as it was. The speed is
      the homing speed while that flag is set. Moving flattens the
      position onto z = 0. */
  function Update(sqrt: real -> real, p: Projectile, f: Frame): (r: Projectile)
    requires IsSqrt(sqrt)
  {
    if !p.alive then p
    else
      var timeLeft := p.timeLeft - f.dt;
      var elapsed := p.elapsed + f.dt;
      if timeLeft <= 0.0 then p.(timeLeft := timeLeft, elapsed := elapsed, alive := false)
      else
        var selfPos := XY(p.position);
        var active := if Tracking(p, f) then InWindow(p.cfg, elapsed) else p.isHomingActive;
        var dir := if Tracking(p, f) then HomingDir(sqrt, p.(elapsed := elapsed), f, active, selfPos)
                   else p.initialDir;
        var position := if SqrMag(dir) > 0.0 then
                          var speed := if active then p.cfg.homingSpeed else p.cfg.speed;
                          Vec3(selfPos.x + dir.x * speed * f.dt, selfPos.y + dir.y * speed * f.dt, 0.0)
                        else p.position;
        p.(timeLeft := timeLeft, elapsed := elapsed, isHomingActive := active,
           currentDir := dir, position := position)
  }

  /** Expiry comes first: once the remaining lifetime reaches 0 the
      projectile is destroyed where it stands, with its heading unchanged. */
  lemma ExpiryBeforeMovement(sqrt: real -> real, p: Projectile, f: Frame)
    requires IsSqrt(sqrt) && p.alive && p.timeLeft - f.dt <= 0.0
    ensures var r := Update(sqrt, p, f);
      !r.alive && r.position == p.position && r.currentDir == p.currentDir
  {
  }

  /** For a homing projectile with an existing target, the window flag is
      exactly "delay <= elapsed <= delay + duration" after the frame. */
  lemma WindowFlag(sqrt: real -> real, p: Projectile, f: Frame)
    requires IsSqrt(sqrt) && p.alive && p.timeLeft - f.dt > 0.0 && Tracking(p, f)
    ensures Update(sqrt, p, f).isHomingActive <==> InWindow(p.cfg, p.elapsed + f.dt)
  {
  }

  /** The heading of a tracking projectile changes only on a frame where it
      actually turns (window open, positive strength, target not reached
      and within the tracking cone). */
  lemma HeadingChangesOnlyWhenTurning(sqrt: real -> real, p: Projectile, f: Frame)
    requires IsSqrt(sqrt) && p.alive && p.timeLeft - f.dt > 0.0 && Tracking(p, f)
    ensures Update(sqrt, p, f).currentDir != p.currentDir ==>
      Turns(sqrt, p, f, InWindow(p.cfg, p.elapsed + f.dt), XY(p.position))
  {
    assert p.(elapsed := p.elapsed + f.dt).currentDir == p.currentDir;
  }

  /** Runs a series of frames. */
  function Fly(sqrt: real -> real, p: Projectile, frames: seq<Frame>): Projectile
    requires IsSqrt(sqrt)
    decreases |frames|
  {
    if |frames| == 0 then p else Fly(sqrt, Update(sqrt, p, frames[0]), frames[1..])
  }

  predicate NonNegativeTimes(frames: seq<Frame>) {
    forall i :: 0 <= i < |frames| ==> frames[i].dt >= 0.0
  }

  /** Elapsed time never decreases over frames with non-negative times, and
      nothing but flight state changes: the settings, team, damage, impact,
      target and initial heading are fixed. */
  lemma {:induction false} FlightKeepsLaunchData(sqrt: real -> real, p: Projectile, frames: seq<Frame>)
    requires IsSqrt(sqrt) && NonNegativeTimes(frames)
    ensures var r := Fly(sqrt, p, frames);
      && r.elapsed >= p.elapsed
      && r.cfg == p.cfg && r.isHoming == p.isHoming && r.target == p.target
      && r.shooterTeam == p.shooterTeam && r.damage == p.damage && r.impact == p.impact
      && r.initialDir == p.initialDir
      && (!p.alive ==> r == p)
    decreases |frames|
  {
    if |frames| > 0 {
      FlightKeepsLaunchData(sqrt, Update(sqrt, p, frames[0]), frames[1..]);
    }
  }

  /** A projectile that does not home flies its initial heading on every
      frame: after any run of frames its heading is the initial one (for a
      projectile launched that way). */
  lemma {:induction false} StraightFlight(sqrt: real -> real, p: Projectile, frames: seq<Frame>)
    requires IsSqrt(sqrt) && !p.isHoming && p.currentDir == p.initialDir
    ensures Fly(sqrt, p, frames).currentDir == p.initialDir
    ensures !Fly(sqrt, p, frames).isHomingActive || p.isHomingActive
    decreases |frames|
  {
    if |frames| > 0 {
      StraightFlight(sqrt, Update(sqrt, p, frames[0]), frames[1..]);
    }
  }

  /** Past the end of the window homing never re-engages: with non-negative
      frame times, a projectile whose elapsed time is beyond
      delay + duration and whose window flag is clear keeps the flag clear
      and never turns again while it tracks. */
  lemma {:induction false} HomingNeverReengages(sqrt: real -> real, p: Projectile, frames: seq<Frame>)
    requires IsSqrt(sqrt) && NonNegativeTimes(frames)
    requires p.elapsed > p.cfg.homingDelay + p.cfg.homingDuration && !p.isHomingActive
    ensures !Fly(sqrt, p, frames).isHomingActive
    decreases |frames|
  {
    if |frames| > 0 {
      var q := Update(sqrt, p, frames[0]);
      assert q.elapsed >= p.elapsed;
      HomingNeverReengages(sqrt, q, frames[1..]);
    }
  }

  /** After the window, a tracking frame leaves the heading unchanged. */
  lemma NoTurnAfterWindow(sqrt: real -> real, p: Projectile, f: Frame)
    requires IsSqrt(sqrt) && f.dt >= 0.0 && Tracking(p, f)
    requires p.elapsed > p.cfg.homingDelay + p.cfg.homingDuration
    ensures Update(sqrt, p, f).currentDir == p.currentDir
  {
  }

  /** A homing projectile whose target no longer exists takes the straight
      branch: it snaps back to its initial heading, and keeps the speed its
      window flag last selected. */
  lemma LostTargetSnapsBack(sqrt: real -> real, p: Projectile, f: Frame)
    requires IsSqrt(sqrt) && p.alive && p.timeLeft - f.dt > 0.0
    requires p.isHoming && p.target.Some? && f.targetPos.None?
    ensures Update(sqrt, p, f).currentDir == p.initialDir
    ensures Update(sqrt, p, f).isHomingActive == p.isHomingActive
  {
  }

  // ---------------------------------------------------------------------
  // Hits

  /** What the trigger sees of the collider: a mecha's identity, liveness
      and team, or None when the collider has no Mecha. */
  datatype Contact = Contact(mecha: nat, isAlive: bool, team: int)

  /** The TakeDamage call a hit makes. */
  datatype DamageCall = DamageCall(mecha: nat, damage: int, impact: int)

  /** OnTriggerEnter2D: non-mechas, dead mechas and same-team mechas are
      ignored; otherwise the projectile deals its damage and impact once
      and is destroyed. */
  function OnTrigger(p: Projectile, other: Option<Contact>): (r: (Option<DamageCall>, Projectile))
    ensures r.0.None? <==> (other.None? || !other.value.isAlive || other.value.team == p.shooterTeam)
    ensures r.0.None? ==> r.1 == p
    ensures r.0.Some? ==> r.0.value == DamageCall(other.value.mecha, p.damage, p.impact)
                          && r.1 == p.(alive := false)
  {
    match other
    case None => (None, p)
    case Some(c) =>
      if !c.isAlive || c.team == p.shooterTeam then (None, p)
      else (Some(DamageCall(c.mecha, p.damage, p.impact)), p.(alive := false))
  }

  /** The damage a projectile deals is never negative, whatever the
      initialiser was given. */
  lemma HitDamageNonNegative(sqrt: real -> real, p: Projectile, dir: Vec2, up: Vec2, team: int,
                             damage: int, impact: int, other: Option<Contact>)
    requires IsSqrt(sqrt)
    ensures var q := InitializeWithDirection(sqrt, p, dir, up, team, damage, impact);
      var call := OnTrigger(q, other).0;
      call.Some? ==> call.value.damage >= 0 && call.value.impact >= 0
                     && call.value.damage == MaxInt(0, damage)
  {
  }
}
