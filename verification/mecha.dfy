/** The mecha actor: hit points, energy with delayed regeneration, dash
    start and per-frame dash progress, speed-ramped movement that a dash
    overrides, and the registry's nearest-enemy query. Every operation is a
    pure transition from one mecha record to the next. */
module Mecha {
  import opened Numeric
  import opened Geometry

  /** A weapon as the actor and the AI see it: only its attack range. */
  datatype Weapon = Weapon(attackRange: real)

  datatype Mecha = Mecha(
    team: int,
    maxHp: int,
    hp: int,
    moveSpeed: real,
    acceleration: real,
    deceleration: real,
    maxEnergy: real,
    energy: real,
    regenPerSec: real,
    regenDelay: real,
    regenCooldown: real,
    dashDistance: real,
    dashSpeed: real,
    dashCooldown: real,
    dashCost: real,
    dashCooldownTimer: real,
    isDashing: bool,
    dashDir: Vec2,
    dashRemaining: real,
    currentSpeed: real,
    position: Vec3,
    lastPosition: Vec3,
    velocity: Vec2,
    active: bool,
    weapons: seq<Option<Weapon>>)
  {
    predicate IsAlive() { hp > 0 }
  }

  /** The serialized defaults of a freshly placed mecha. */
  function Spawn(team: int, position: Vec3, weapons: seq<Option<Weapon>>): (m: Mecha)
    ensures m.IsAlive() && m.energy == m.maxEnergy && !m.isDashing
  {
    Mecha(team, 100, 100, 3.5, 12.0, 16.0, 100.0, 100.0, 10.0, 1.0, 0.0,
          3.0, 20.0, 1.0, 20.0, 0.0, false, Zero2, 0.0, 0.0, position, position,
          Zero2, true, weapons)
  }

  // ---------------------------------------------------------------------
  // Stats and damage

  /** InitializeStats: at least 1 max HP, full health, non-negative speed. */
  function InitializeStats(m: Mecha, maxHp: int, moveSpeed: real): (r: Mecha)
    ensures r.maxHp >= 1 && r.hp == r.maxHp && r.IsAlive()
    ensures r.moveSpeed >= 0.0
    ensures maxHp >= 1 ==> r.maxHp == maxHp
    ensures moveSpeed >= 0.0 ==> r.moveSpeed == moveSpeed
    ensures r.(maxHp := m.maxHp, hp := m.hp, moveSpeed := m.moveSpeed) == m
  {
    var mh := MaxInt(1, maxHp);
    m.(maxHp := mh, hp := mh, moveSpeed := Max(0.0, moveSpeed))
  }

  /** TakeDamage(int): ignored when dead; otherwise a non-negative amount is
      taken off and the result clamped to [0, maxHp]; reaching 0 disables
      the object. */
  function TakeDamage(m: Mecha, amount: int): (r: Mecha)
    ensures !m.IsAlive() ==> r == m
    ensures r.hp <= m.hp
    ensures m.IsAlive() && m.maxHp >= 0 ==> 0 <= r.hp <= m.maxHp
    ensures m.IsAlive() && amount >= 0 && m.hp - amount >= 0 && m.hp <= m.maxHp ==> r.hp == m.hp - amount
    ensures m.IsAlive() && !r.IsAlive() ==> !r.active
    ensures r.(hp := m.hp, active := m.active) == m
  {
    if !m.IsAlive() then m
    else
      var hp := ClampInt(m.hp - MaxInt(0, amount), 0, m.maxHp);
      if hp <= 0 then m.(hp := hp, active := false) else m.(hp := hp)
  }

  /** Damage never heals, and a dead mecha stays dead. */
  lemma {:induction false} DamageMonotone(m: Mecha, amounts: seq<int>)
    ensures DamageAll(m, amounts).hp <= m.hp
    ensures !m.IsAlive() ==> DamageAll(m, amounts) == m
    decreases |amounts|
  {
    if |amounts| > 0 {
      DamageMonotone(TakeDamage(m, amounts[0]), amounts[1..]);
    }
  }

  function DamageAll(m: Mecha, amounts: seq<int>): Mecha
    decreases |amounts|
  {
    if |amounts| == 0 then m else DamageAll(TakeDamage(m, amounts[0]), amounts[1..])
  }

  // ---------------------------------------------------------------------
  // Energy

  /** SpendEnergy: fails without any change when the energy is below the
      (non-negative) amount; otherwise deducts it and restarts the regen
      delay. */
  function SpendEnergy(m: Mecha, amount: real): (r: (bool, Mecha))
    ensures var a := Max(0.0, amount);
      (r.0 <==> m.energy >= a)
      && (!r.0 ==> r.1 == m)
      && (r.0 ==> r.1 == m.(energy := m.energy - a, regenCooldown := m.regenDelay))
  {
    var a := Max(0.0, amount);
    if m.energy < a then (false, m)
    else (true, m.(energy := m.energy - a, regenCooldown := m.regenDelay))
  }

  /** AddEnergy: adds a non-negative amount and clamps to [0, maxEnergy]. */
  function AddEnergy(m: Mecha, amount: real): (r: Mecha)
    ensures m.maxEnergy >= 0.0 ==> 0.0 <= r.energy <= m.maxEnergy
    ensures 0.0 <= m.energy && m.energy + Max(0.0, amount) <= m.maxEnergy ==>
      r.energy == m.energy + Max(0.0, amount)
    ensures r.(energy := m.energy) == m
  {
    m.(energy := Clamp(m.energy + Max(0.0, amount), 0.0, m.maxEnergy))
  }

  /** Spending then refunding the same amount restores the energy when the
      refund stays within the maximum. */
  lemma SpendThenAdd(m: Mecha, amount: real)
    requires 0.0 <= amount && 0.0 <= m.energy <= m.maxEnergy
    requires SpendEnergy(m, amount).0
    ensures AddEnergy(SpendEnergy(m, amount).1, amount).energy == m.energy
  {
  }

  // ---------------------------------------------------------------------
  // Dash

  /** CanDash. */
  predicate CanDash(m: Mecha) {
    !m.isDashing && m.dashCooldownTimer <= 0.0 && m.energy >= m.dashCost
  }

  /** TryDash: the direction is flattened to XY; a zero direction or a mecha
      that cannot dash fails with no change. Otherwise the cost is spent and
      the dash starts. Spending can still fail for a negative cost against
      negative energy, which is also a failure with no change. */
  function TryDash(sqrt: real -> real, m: Mecha, direction: Vec3): (r: (bool, Mecha))
    requires IsSqrt(sqrt)
    ensures !r.0 ==> r.1 == m
    ensures r.0 ==> SqrMag(XY(direction)) > 0.0 && CanDash(m)
    ensures r.0 ==>
      r.1.isDashing && r.1.dashRemaining == Max(0.0, m.dashDistance)
      && r.1.dashCooldownTimer == m.dashCooldown
      && r.1.energy == m.energy - Max(0.0, m.dashCost)
      && r.1.regenCooldown == m.regenDelay
      && r.1.dashDir == Normalize(sqrt, XY(direction))
    ensures SqrMag(XY(direction)) > 0.0 && CanDash(m) && m.energy >= 0.0 ==> r.0
  {
    var dir := XY(direction);
    if SqrMag(dir) <= 0.0 then (false, m)
    else if !CanDash(m) then (false, m)
    else
      var u := Normalize(sqrt, dir);
      var (spent, m1) := SpendEnergy(m, m.dashCost);
      if !spent then (false, m)
      else (true, m1.(isDashing := true, dashDir := u,
                      dashRemaining := Max(0.0, m.dashDistance),
                      dashCooldownTimer := m.dashCooldown))
  }

  // ---------------------------------------------------------------------
  // Per-frame update

  /** Dash progression: move by min(speed*dt, remaining) while distance
      remains; the dash ends on the first frame that finds none left. The
      remaining distance drops by the frame's dash travel, floored at zero,
      and the mecha moves along the dash direction by exactly the distance
      deducted, keeping its height; nothing else changes. */
  function DashStep(m: Mecha, dt: real): (r: Mecha)
    ensures !m.isDashing ==> r == m
    ensures m.isDashing && m.dashRemaining > 0.0 ==>
      r.isDashing && 0.0 <= r.dashRemaining
      && r.dashRemaining == Max(0.0, m.dashRemaining - Mul(m.dashSpeed, dt))
      && XY(r.position) == Add(XY(m.position), Scale(m.dashDir, m.dashRemaining - r.dashRemaining))
      && r.position.z == m.position.z
      && r == m.(position := r.position, dashRemaining := r.dashRemaining)
    ensures m.isDashing && m.dashRemaining <= 0.0 ==> r == m.(isDashing := false)
  {
    if !m.isDashing then m
    else if m.dashRemaining > 0.0 then
      var step := Min(Mul(m.dashSpeed, dt), m.dashRemaining);
      var next := Add(XY(m.position), Scale(m.dashDir, step));
      m.(position := WithXY(m.position, next), dashRemaining := m.dashRemaining - step)
    else m.(isDashing := false)
  }

  /** Timers and regeneration: the dash cooldown counts down while
      positive; the regen delay counts down, and only once it has run out
      does energy below the maximum regenerate, capped at the maximum. */
  function Cooldowns(m: Mecha, dt: real): (r: Mecha)
    ensures m.regenCooldown > 0.0 ==> r.energy == m.energy
    ensures r.energy <= Max(m.energy, m.maxEnergy)
    ensures m.regenPerSec * dt >= 0.0 ==> r.energy >= m.energy
  {
    var dashTimer := if m.dashCooldownTimer > 0.0 then m.dashCooldownTimer - dt else m.dashCooldownTimer;
    if m.regenCooldown > 0.0 then
      m.(dashCooldownTimer := dashTimer, regenCooldown := m.regenCooldown - dt)
    else if m.energy < m.maxEnergy then
      m.(dashCooldownTimer := dashTimer, energy := Min(m.maxEnergy, m.energy + m.regenPerSec * dt))
    else
      m.(dashCooldownTimer := dashTimer)
  }

  /** Update: dash, cooldowns, regeneration, then the death check (which
      disables the object and skips the rest), then the XY velocity from
      the last frame's position. */
  function Update(m: Mecha, dt: real): (r: Mecha)
  {
    var m1 := Cooldowns(DashStep(m, dt), dt);
    if m1.hp <= 0 then m1.(active := false)
    else
      var vel := if dt > 0.0
        then Scale(Sub(XY(m1.position), XY(m1.lastPosition)), 1.0 / dt)
        else m1.velocity;
      m1.(velocity := vel, lastPosition := m1.position)
  }

  /** A frame never makes the remaining dash distance negative, and with a
      non-negative dash speed and frame time it never grows. */
  lemma UpdateDashRemaining(m: Mecha, dt: real)
    requires m.dashRemaining >= 0.0
    ensures Update(m, dt).dashRemaining >= 0.0
    ensures m.dashSpeed >= 0.0 && dt >= 0.0 ==> Update(m, dt).dashRemaining <= m.dashRemaining
  {
    if m.dashSpeed >= 0.0 && dt >= 0.0 {
      MulNonNeg(m.dashSpeed, dt);
      assert Mul(m.dashSpeed, dt) == m.dashSpeed * dt;
    }
  }

  /** A dash ends only on a frame that starts with no distance left. */
  lemma DashEndsOnlyWhenSpent(m: Mecha, dt: real)
    requires m.isDashing && !Update(m, dt).isDashing
    ensures m.dashRemaining <= 0.0
  {
  }

  /** Energy rises only when the regen delay has run out, and a frame never
      pushes it above the maximum. */
  lemma UpdateEnergy(m: Mecha, dt: real)
    ensures Update(m, dt).energy > m.energy ==> m.regenCooldown <= 0.0 && m.energy < m.maxEnergy
    ensures m.energy <= m.maxEnergy ==> Update(m, dt).energy <= m.maxEnergy
  {
  }

  /** A dead mecha is disabled by its next frame. */
  lemma UpdateDisablesDead(m: Mecha, dt: real)
    requires !m.IsAlive()
    ensures !Update(m, dt).active
  {
  }

  // ---------------------------------------------------------------------
  // Movement

  /** The speed ramp: Mathf.MoveTowards towards max(0, moveSpeed) at the
      acceleration when below it and the deceleration otherwise. A negative
      rate (nothing keeps the serialized rates non-negative) moves the speed
      by its full size, and at an equal speed it moves it down. */
  function RampSpeed(m: Mecha, dt: real): (s: real)
    ensures var target := Max(0.0, m.moveSpeed);
      var rate := if m.currentSpeed < target then m.acceleration else m.deceleration;
      0.0 <= rate * dt ==>
        (m.currentSpeed <= target ==> m.currentSpeed <= s <= target)
        && (target <= m.currentSpeed ==> target <= s <= m.currentSpeed)
    ensures var target := Max(0.0, m.moveSpeed);
      var rate := if m.currentSpeed < target then m.acceleration else m.deceleration;
      rate * dt < 0.0 ==>
        Abs(s - m.currentSpeed) == Abs(rate * dt)
        && (m.currentSpeed == target ==> s < target)
  {
    var target := Max(0.0, m.moveSpeed);
    var rate := if m.currentSpeed < target then m.acceleration else m.deceleration;
    MoveTowards(m.currentSpeed, target, rate * dt)
  }

  /** Steps the XY position along a unit direction at the ramped speed. */
  function Advance(m: Mecha, dir: Vec2, dt: real): (r: Mecha)
  {
    var s := RampSpeed(m, dt);
    var next := Add(XY(m.position), Scale(dir, s * dt));
    m.(currentSpeed := s, position := WithXY(m.position, next))
  }

  /** MoveTowards(target): while dashing it reports success without moving;
      a target within normalisation distance fails without moving;
      otherwise it ramps the speed and steps towards the target. */
  function MoveTowardsPoint(sqrt: real -> real, m: Mecha, target: Vec3, dt: real): (r: (bool, Mecha))
    requires IsSqrt(sqrt)
    ensures m.isDashing ==> r == (true, m)
    ensures !r.0 ==> r.1 == m
    ensures !m.isDashing && r.0 ==> r.1 == Advance(m, Normalize(sqrt, Sub(XY(target), XY(m.position))), dt)
  {
    if m.isDashing then (true, m)
    else
      var dir := Normalize(sqrt, Sub(XY(target), XY(m.position)));
      if SqrMag(dir) <= 0.0 then (false, m)
      else (true, Advance(m, dir, dt))
  }

  /** MoveInDirection: as MoveTowards, but only an exactly zero direction
      fails; a direction too short to normalise still ramps the speed and
      reports success while staying in place. */
  function MoveInDirection(sqrt: real -> real, m: Mecha, direction: Vec3, dt: real): (r: (bool, Mecha))
    requires IsSqrt(sqrt)
    ensures m.isDashing ==> r == (true, m)
    ensures !r.0 ==> r.1 == m && XY(direction) == Zero2
    ensures !m.isDashing && XY(direction) != Zero2 ==> r.0
  {
    SqrMagZero(XY(direction));
    if m.isDashing then (true, m)
    else
      var dir := XY(direction);
      if SqrMag(dir) <= 0.0 then (false, m)
      else (true, Advance(m, Normalize(sqrt, dir), dt))
  }

  /** Dashing blocks both voluntary moves: they leave the mecha unchanged. */
  lemma DashOverridesMovement(sqrt: real -> real, m: Mecha, p: Vec3, dt: real)
    requires IsSqrt(sqrt) && m.isDashing
    ensures MoveTowardsPoint(sqrt, m, p, dt).1 == m
    ensures MoveInDirection(sqrt, m, p, dt).1 == m
  {
  }

  // ---------------------------------------------------------------------
  // Attacks and the registry

  /** TryAttack: every non-null weapon is tried once, in list order; the
      result is true when any of them fired. `outcomes[i]` is None for a
      null weapon slot and otherwise what that weapon's TryAttack returns. */
  method TryAttack(outcomes: seq<Option<bool>>) returns (any: bool, tried: seq<nat>)
    ensures any <==> exists i :: 0 <= i < |outcomes| && outcomes[i] == Some(true)
    ensures forall j :: 0 <= j < |tried| ==> tried[j] < |outcomes| && outcomes[tried[j]].Some?
    ensures forall i :: 0 <= i < |outcomes| && outcomes[i].Some? ==> i in tried
    ensures forall j, k :: 0 <= j < k < |tried| ==> tried[j] < tried[k]
  {
    any := false;
    tried := [];
    var i := 0;
    while i < |outcomes|
      invariant 0 <= i <= |outcomes|
      invariant any <==> exists j :: 0 <= j < i && outcomes[j] == Some(true)
      invariant forall j :: 0 <= j < |tried| ==> tried[j] < i && outcomes[tried[j]].Some?
      invariant forall j :: 0 <= j < i && outcomes[j].Some? ==> j in tried
      invariant forall j, k :: 0 <= j < k < |tried| ==> tried[j] < tried[k]
    {
      if outcomes[i].Some? {
        any := any || outcomes[i].value;
        tried := tried + [i];
      }
      i := i + 1;
    }
  }

  /** A registry entry the search may pick: present, alive, another team. */
  predicate Eligible(all: seq<Option<Mecha>>, i: int, team: int)
    requires 0 <= i < |all|
  {
    all[i].Some? && all[i].value.IsAlive() && all[i].value.team != team
  }

  function DistSq(all: seq<Option<Mecha>>, i: int, position: Vec3): real
    requires 0 <= i < |all| && all[i].Some?
  {
    SqrMag3(Sub3(all[i].value.position, position))
  }

  /** FindClosestEnemy over the registry in its iteration order: null, dead
      and same-team entries are skipped and a strictly smaller squared
      distance replaces the best, so the first of equally close enemies
      wins. */
  method FindClosestEnemy(all: seq<Option<Mecha>>, position: Vec3, team: int) returns (best: Option<nat>)
    ensures best.None? <==> forall i :: 0 <= i < |all| ==> !Eligible(all, i, team)
    ensures best.Some? ==> best.value < |all| && Eligible(all, best.value, team)
    ensures best.Some? ==> forall i :: 0 <= i < |all| && Eligible(all, i, team) ==>
      DistSq(all, best.value, position) <= DistSq(all, i, position)
    ensures best.Some? ==> forall i :: 0 <= i < best.value && Eligible(all, i, team) ==>
      DistSq(all, best.value, position) < DistSq(all, i, position)
  {
    best := None;
    var bestD2 := PosInf;
    var i := 0;
    while i < |all|
      invariant 0 <= i <= |all|
      invariant best.None? <==> bestD2 == PosInf
      invariant best.None? <==> forall j :: 0 <= j < i ==> !Eligible(all, j, team)
      invariant best.Some? ==>
        (best.value < i && Eligible(all, best.value, team)
         && bestD2 == Finite(DistSq(all, best.value, position)))
      invariant best.Some? ==> forall j :: 0 <= j < i && Eligible(all, j, team) ==>
        DistSq(all, best.value, position) <= DistSq(all, j, position)
      invariant best.Some? ==> forall j :: 0 <= j < best.value && Eligible(all, j, team) ==>
        DistSq(all, best.value, position) < DistSq(all, j, position)
    {
      if Eligible(all, i, team) {
        var d2 := DistSq(all, i, position);
        if Finite(d2).Less(bestD2) {
          best := Some(i);
          bestD2 := Finite(d2);
        }
      }
      i := i + 1;
    }
  }
}
