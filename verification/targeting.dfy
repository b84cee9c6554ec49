/** The pilot's target-handling leaves: choosing a target with distance
    hysteresis, closing to weapon range, and firing within range. Each
    reads `self` and `target` handles from the blackboard and resolves them
    against the scene. */
module Targeting {
  import opened Numeric
  import opened Geometry
  import opened Blackboard
  import opened BehaviorTree
  import opened World
  import Mecha

  // ---------------------------------------------------------------------
  // Target selection

  datatype Retargeter = Retargeter(selfKey: string, targetKey: string, teamKey: string,
                                   hysteresis: real)

  /** The constructor: the hysteresis distance is clamped at 0. */
  function NewRetargeter(selfKey: string, targetKey: string, teamKey: string,
                         hysteresis: real): (a: Retargeter)
    ensures 0.0 <= a.hysteresis && (0.0 <= hysteresis ==> a.hysteresis == hysteresis)
    ensures a.selfKey == selfKey && a.targetKey == targetKey && a.teamKey == teamKey
  {
    Retargeter(selfKey, targetKey, teamKey, Max(0.0, hysteresis))
  }

  /** The hysteresis rule: a current target is kept unless the best
      candidate is closer by more than the hysteresis distance, measured on
      squared distances as bestD2 + h*h < currentD2. */
  function Retarget(current: Option<nat>, currentD2: real, best: nat, bestD2: real,
                    h: real): (t: nat)
  {
    if current.Some? && bestD2 + Sq(h) >= currentD2 then current.value else best
  }

  /** Which of the two the rule picks, and why. */
  lemma RetargetHysteresis(current: Option<nat>, currentD2: real, best: nat, bestD2: real,
                           h: real)
    ensures var t := Retarget(current, currentD2, best, bestD2, h);
      (t == best || (current.Some? && t == current.value))
      && (current.None? ==> t == best)
      && (current.Some? && t != current.value ==> bestD2 + Sq(h) < currentD2)
      && (t != best ==> current.Some? && currentD2 <= bestD2 + Sq(h))
  {
  }

  /** Retargeting is stable: once a target is chosen, a second pass over
      the same distances keeps it. */
  lemma RetargetStable(current: Option<nat>, currentD2: real, best: nat, bestD2: real,
                       h: real, t: nat, tD2: real)
    requires t == Retarget(current, currentD2, best, bestD2, h)
    requires t == best ==> tD2 == bestD2
    requires t != best ==> tD2 == currentD2
    ensures Retarget(Some(t), tD2, best, bestD2, h) == t
  {
    SquareNonNeg(h);
  }

  /** The team the action acts for: the blackboard's value, or when that is
      0 the self mecha's team; None when self is missing or a team of 0
      cannot be resolved for want of a mecha. */
  function TeamOf(a: Retargeter, b: Board, scene: Scene): Option<int>
  {
    var self := ResolveTransform(b, a.selfKey, scene);
    if self.None? then None
    else
      var team := GetValue(b, a.teamKey, TInt).i;
      if team != 0 then Some(team)
      else if MechaOf(scene, self.value).Some? then Some(MechaOf(scene, self.value).value.team)
      else None
  }

  /** A target that is present, a mecha and alive. */
  predicate LiveTarget(scene: Scene, h: nat) {
    MechaOf(scene, h).Some? && MechaOf(scene, h).value.IsAlive()
  }

  /** The registry entry the nearest-enemy query returns: an enemy with no
      enemy strictly closer, and strictly closer than every earlier one. */
  predicate Closest(all: seq<Option<Mecha.Mecha>>, i: int, position: Vec3, team: int) {
    0 <= i < |all| && Mecha.Eligible(all, i, team)
    && (forall j :: 0 <= j < |all| && Mecha.Eligible(all, j, team) ==>
          Mecha.DistSq(all, i, position) <= Mecha.DistSq(all, j, position))
    && (forall j :: 0 <= j < i && Mecha.Eligible(all, j, team) ==>
          Mecha.DistSq(all, i, position) < Mecha.DistSq(all, j, position))
  }

  /** The first of the nearest enemies is unique. */
  lemma ClosestUnique(all: seq<Option<Mecha.Mecha>>, i: int, j: int, position: Vec3, team: int)
    requires Closest(all, i, position, team) && Closest(all, j, position, team)
    ensures i == j
  {
  }

  function SqDistTo(scene: Scene, h: nat, position: Vec3): real
    requires h in scene.objects
  {
    SqrMag3(Sub3(Position(scene.objects[h]), position))
  }

  /** UpdateTargetAction.Execute. The team and target keys must differ:
      the action writes the team under one and a game object under the
      other. */
  method UpdateTarget(a: Retargeter, b: Board, scene: Scene) returns (st: Status, r: Board)
    requires a.teamKey != a.targetKey
    ensures st != Running
    ensures st == Failure <==> TeamOf(a, b, scene).None?
    ensures st == Failure ==> r == b
    ensures st == Success ==> GetValue(r, a.teamKey, TInt) == IntV(TeamOf(a, b, scene).value)
    ensures forall k :: k != a.teamKey && k != a.targetKey ==>
      (k in r <==> k in b) && (k in b ==> r[k] == b[k])
    ensures st == Success ==>
      var self := ResolveTransform(b, a.selfKey, scene).value;
      Chosen(a, b, r, scene, Position(scene.objects[self]), TeamOf(a, b, scene).value)
  {
    var selfH := ResolveTransform(b, a.selfKey, scene);
    if selfH.None? {
      return Failure, b;
    }
    var self := selfH.value;
    var pos := Position(scene.objects[self]);
    var team := GetValue(b, a.teamKey, TInt).i;
    var mid := b;
    if team == 0 {
      var m := MechaOf(scene, self);
      if m.None? {
        return Failure, b;
      }
      team := m.value.team;
      mid := SetValue(b, a.teamKey, IntV(team));
    }
    assert team == TeamOf(a, b, scene).value;
    assert GetValue(mid, a.teamKey, TInt) == IntV(team);
    assert a.targetKey in mid <==> a.targetKey in b;
    assert a.targetKey in b ==> mid[a.targetKey] == b[a.targetKey];
    r := ChooseTarget(a, mid, scene, pos, team);
    ChosenFrame(a, b, mid, r, scene, pos, team);
    return Success, r;
  }

  /** The target UpdateTarget leaves under the target key of `r`, given the
      board `b` it started from: none when no enemy is eligible, otherwise
      the hysteresis rule between the current live target and the first
      nearest enemy, with the key untouched when the current one is kept. */
  ghost predicate Chosen(a: Retargeter, b: Board, r: Board, scene: Scene, pos: Vec3, team: int) {
    var cur := ResolveGameObject(b, a.targetKey, scene);
    var live := if cur.Some? && LiveTarget(scene, cur.value) then cur else None;
    ((forall i :: 0 <= i < |Roster(scene)| ==> !Mecha.Eligible(Roster(scene), i, team)) ==>
       ResolveGameObject(r, a.targetKey, scene).None?)
    && (forall i :: Closest(Roster(scene), i, pos, team) ==>
          var best := scene.registry[i];
          var t := Retarget(live, if live.Some? then SqDistTo(scene, live.value, pos) else 0.0,
                            best, Mecha.DistSq(Roster(scene), i, pos), a.hysteresis);
          ResolveGameObject(r, a.targetKey, scene) == Some(t)
          && (t != best ==> a.targetKey in r && a.targetKey in b && r[a.targetKey] == b[a.targetKey]))
  }

  /** Writing the team does not disturb what the target step decides. */
  lemma ChosenFrame(a: Retargeter, b: Board, mid: Board, r: Board, scene: Scene, pos: Vec3, team: int)
    requires a.targetKey in mid <==> a.targetKey in b
    requires a.targetKey in b ==> mid[a.targetKey] == b[a.targetKey]
    requires Chosen(a, mid, r, scene, pos, team)
    ensures Chosen(a, b, r, scene, pos, team)
  {
    assert ResolveGameObject(mid, a.targetKey, scene) == ResolveGameObject(b, a.targetKey, scene);
  }

  /** The target half of UpdateTarget, once the team is known. */
  method ChooseTarget(a: Retargeter, b: Board, scene: Scene, pos: Vec3, team: int) returns (r: Board)
    ensures forall k :: k != a.targetKey ==> (k in r <==> k in b) && (k in b ==> r[k] == b[k])
    ensures Chosen(a, b, r, scene, pos, team)
  {
    r := b;
    var cur := ResolveGameObject(b, a.targetKey, scene);
    if cur.Some? && !LiveTarget(scene, cur.value) {
      r := SetGameObject(r, a.targetKey, NullV);
      cur := None;
    }
    var roster := Roster(scene);
    var best := Mecha.FindClosestEnemy(roster, pos, team);
    if best.None? {
      if cur.Some? {
        r := SetGameObject(r, a.targetKey, NullV);
      }
      return r;
    }
    var i := best.value;
    assert Closest(roster, i, pos, team);
    forall j | Closest(roster, j, pos, team) ensures j == i {
      ClosestUnique(roster, i, j, pos, team);
    }
    var bh := scene.registry[i];
    var bestD2 := Mecha.DistSq(roster, i, pos);
    if cur.Some? {
      var curD2 := SqDistTo(scene, cur.value, pos);
      if bestD2 + Sq(a.hysteresis) >= curD2 {
        return r;
      }
    }
    assert MechaOf(scene, bh).Some?;
    r := SetGameObject(r, a.targetKey, GameObjectV(bh));
  }

  // ---------------------------------------------------------------------
  // Closing to range

  datatype Approach = Approach(selfKey: string, targetKey: string, stopDistance: real)

  /** The constructor: the stop distance is clamped at 0. */
  function NewApproach(selfKey: string, targetKey: string, stopDistance: real): (a: Approach)
    ensures 0.0 <= a.stopDistance && (0.0 <= stopDistance ==> a.stopDistance == stopDistance)
    ensures a.selfKey == selfKey && a.targetKey == targetKey
  {
    Approach(selfKey, targetKey, Max(0.0, stopDistance))
  }

  /** The distance to keep: the configured stop distance, raised to the
      longest weapon range when self is a mecha with a ranged weapon. */
  function StopDistance(a: Approach, m: Option<Mecha.Mecha>): (stop: real)
  {
    var longest := if m.Some? then LongestRange(m.value.weapons) else 0.0;
    if longest > 0.0 then Max(a.stopDistance, longest) else a.stopDistance
  }

  /** The stop distance covers the configured distance and every weapon
      of a mecha self, and is one of them. */
  lemma StopDistanceCoversWeapons(a: Approach, m: Option<Mecha.Mecha>)
    requires 0.0 <= a.stopDistance
    ensures var stop := StopDistance(a, m);
      a.stopDistance <= stop
      && (m.Some? ==> forall i :: 0 <= i < |m.value.weapons| && m.value.weapons[i].Some? ==>
            m.value.weapons[i].value.attackRange <= stop)
      && (stop == a.stopDistance ||
          (m.Some? && (exists i :: 0 <= i < |m.value.weapons| && m.value.weapons[i].Some? &&
                         m.value.weapons[i].value.attackRange == stop)))
  {
    if m.Some? { LongestRangeIsMax(m.value.weapons); }
  }

  /** The small margin inside the stop distance that counts as arrived. */
  function MaintainEps(stop: real): (eps: real)
    ensures 0.1 <= eps && Mul(0.05, stop) <= eps
    ensures eps == 0.1 || eps == Mul(0.05, stop)
  {
    Max(0.1, Mul(0.05, stop))
  }

  /** MoveToTargetAction.Execute: arrival within the stop distance less the
      margin succeeds without moving; otherwise a mecha self moves towards
      the flattened target and the action is running, and a self without a
      mecha fails. */
  function MoveToTarget(sqrt: real -> real, a: Approach, b: Board, scene: Scene, dt: real): (r: (Status, Scene))
    requires IsSqrt(sqrt)
  {
    var self := ResolveTransform(b, a.selfKey, scene);
    var target := ResolveGameObject(b, a.targetKey, scene);
    if self.None? || target.None? then (Failure, scene)
    else
      var distance := Mag(sqrt, FlatOffset(scene, self.value, target.value));
      var m := MechaOf(scene, self.value);
      var stop := StopDistance(a, m);
      if distance <= stop - MaintainEps(stop) then (Success, scene)
      else if m.None? then (Failure, scene)
      else
        var tgt := Position(scene.objects[target.value]);
        var moved := Mecha.MoveTowardsPoint(sqrt, m.value, Vec3(tgt.x, tgt.y, 0.0), dt).1;
        (Running, Replace(scene, self.value, moved))
  }

  /** The action's outcome, decided on squared distances: it succeeds
      exactly when both ends resolve and the squared flat distance is
      within the square of the arrival bound, which must be non-negative;
      it moves only the self mecha, and fails without changing anything. */
  lemma MoveToTargetOutcome(sqrt: real -> real, a: Approach, b: Board, scene: Scene, dt: real)
    requires IsSqrt(sqrt)
    ensures var r := MoveToTarget(sqrt, a, b, scene, dt);
      var self := ResolveTransform(b, a.selfKey, scene);
      var target := ResolveGameObject(b, a.targetKey, scene);
      (r.0 != Running ==> r.1 == scene)
      && (self.None? || target.None? ==> r.0 == Failure)
      && (self.Some? && target.Some? ==>
            var stop := StopDistance(a, MechaOf(scene, self.value));
            var bound := stop - MaintainEps(stop);
            var d2 := SqrMag(FlatOffset(scene, self.value, target.value));
            (r.0 == Success <==> 0.0 <= bound && d2 <= Sq(bound))
            && (r.0 == Running <==> MechaOf(scene, self.value).Some? && !(0.0 <= bound && d2 <= Sq(bound)))
            && (r.0 == Running ==>
                  r.1 == Replace(scene, self.value,
                    Mecha.MoveTowardsPoint(sqrt, MechaOf(scene, self.value).value,
                      Vec3(Position(scene.objects[target.value]).x,
                           Position(scene.objects[target.value]).y, 0.0), dt).1)))
  {
    var self := ResolveTransform(b, a.selfKey, scene);
    var target := ResolveGameObject(b, a.targetKey, scene);
    if self.Some? && target.Some? {
      var off := FlatOffset(scene, self.value, target.value);
      var stop := StopDistance(a, MechaOf(scene, self.value));
      WithinIff(Mag(sqrt, off), SqrMag(off), stop - MaintainEps(stop));
    }
  }

  /** With a non-negative stop distance and no weapon range, a target
      closer than the stop distance by the margin is never approached. */
  lemma ArrivedStaysPut(sqrt: real -> real, a: Approach, b: Board, scene: Scene, dt: real)
    requires IsSqrt(sqrt) && 0.0 <= a.stopDistance
    requires ResolveTransform(b, a.selfKey, scene).Some? && ResolveGameObject(b, a.targetKey, scene).Some?
    requires Mag(sqrt, FlatOffset(scene, ResolveTransform(b, a.selfKey, scene).value,
                                  ResolveGameObject(b, a.targetKey, scene).value))
             + MaintainEps(a.stopDistance) <= a.stopDistance
    ensures MoveToTarget(sqrt, a, b, scene, dt) == (Success, scene)
  {
    var self := ResolveTransform(b, a.selfKey, scene).value;
    StopDistanceCoversWeapons(a, MechaOf(scene, self));
    var stop := StopDistance(a, MechaOf(scene, self));
    assert MaintainEps(stop) <= MaintainEps(a.stopDistance) + Mul(0.05, stop - a.stopDistance) by {
      assert Mul(0.05, stop) == Mul(0.05, a.stopDistance) + Mul(0.05, stop - a.stopDistance);
    }
  }

  // ---------------------------------------------------------------------
  // Attacking

  datatype Attacker = Attacker(selfKey: string, targetKey: string, maxConsideredRange: real)

  /** The default considered range and the slack allowed beyond it. */
  const DefaultConsideredRange: real := 10.0
  const RangeTolerance: real := 0.25

  /** The constructor: the considered range is clamped at 0. */
  function NewAttacker(selfKey: string, targetKey: string, maxConsideredRange: real): (a: Attacker)
    ensures 0.0 <= a.maxConsideredRange
    ensures 0.0 <= maxConsideredRange ==> a.maxConsideredRange == maxConsideredRange
    ensures a.selfKey == selfKey && a.targetKey == targetKey
  {
    Attacker(selfKey, targetKey, Max(0.0, maxConsideredRange))
  }

  /** The range gate's limit: the configured range when positive,
      otherwise the longest weapon range (0 means no gate). */
  function MaxRange(a: Attacker, m: Mecha.Mecha): real {
    if a.maxConsideredRange <= 0.0 then LongestRange(m.weapons) else a.maxConsideredRange
  }

  /** Out of range: only when there is a limit, and the full 3D distance
      exceeds it by more than the tolerance. */
  predicate OutOfRange(sqrt: real -> real, limit: real, offset: Vec3)
    requires IsSqrt(sqrt)
  {
    limit > 0.0 && Mag3(sqrt, offset) > limit + RangeTolerance
  }

  /** The aim: the unit flat direction to the target, when it is long
      enough to normalise; the mecha is then turned to face it. */
  function Aim(sqrt: real -> real, selfPos: Vec3, tgtPos: Vec3): (r: Option<Vec2>)
    requires IsSqrt(sqrt)
  {
    var d := Sub(XY(tgtPos), XY(selfPos));
    if SqrMag(d) > 1.0e-6 then Some(Normalize(sqrt, d)) else None
  }

  /** The aim leads nothing: it is the unit vector towards the target's
      current flat position. */
  lemma AimIsCurrentDirection(sqrt: real -> real, selfPos: Vec3, tgtPos: Vec3)
    requires IsSqrt(sqrt)
    ensures var d := Sub(XY(tgtPos), XY(selfPos));
      var r := Aim(sqrt, selfPos, tgtPos);
      (r.Some? <==> SqrMag(d) > 1.0e-6)
      && (r.Some? ==> SqrMag(r.value) == 1.0 && r.value == Scale(d, 1.0 / Mag(sqrt, d)))
  {
    var d := Sub(XY(tgtPos), XY(selfPos));
    if SqrMag(d) > 1.0e-6 {
      var m := Mag(sqrt, d);
      SquareLeIff(m, NormalizeEpsilon);
      NormalizeIsUnit(sqrt, d);
    }
  }

  /** What the attack leaf did this frame. */
  datatype Volley = Volley(status: Status, aim: Option<Vec2>, tried: seq<nat>, fired: bool)

  /** The slots of a weapon list as TryAttack sees them: None for an empty
      slot, otherwise what that weapon's own TryAttack returns. */
  function Outcomes(weapons: seq<Option<Mecha.Weapon>>, fire: nat -> bool): (o: seq<Option<bool>>)
    ensures |o| == |weapons|
    ensures forall i :: 0 <= i < |o| ==> (o[i].Some? <==> weapons[i].Some?)
    ensures forall i :: 0 <= i < |o| && o[i].Some? ==> o[i].value == fire(i)
  {
    seq(|weapons|, i requires 0 <= i < |weapons| => if weapons[i].Some? then Some(fire(i)) else None)
  }

  /** AttackAction.Execute. `fire(i)` is what the weapon in slot i
      reports when it is tried. */
  method Attack(sqrt: real -> real, a: Attacker, b: Board, scene: Scene,
                fire: nat -> bool) returns (v: Volley)
    requires IsSqrt(sqrt)
    ensures v.status != Success
    ensures v.status == Failure ==> v.aim.None? && v.tried == [] && !v.fired
    ensures var self := ResolveTransform(b, a.selfKey, scene);
      var target := ResolveGameObject(b, a.targetKey, scene);
      v.status == Failure <==>
        (self.None? || target.None? || MechaOf(scene, self.value).None? || !LiveTarget(scene, target.value)
         || OutOfRange(sqrt, MaxRange(a, MechaOf(scene, self.value).value),
                       Sub3(Position(scene.objects[target.value]), Position(scene.objects[self.value]))))
    ensures v.status == Running ==>
      var self := ResolveTransform(b, a.selfKey, scene).value;
      var target := ResolveGameObject(b, a.targetKey, scene).value;
      var weapons := MechaOf(scene, self).value.weapons;
      v.aim == Aim(sqrt, Position(scene.objects[self]), Position(scene.objects[target]))
      && (forall i :: 0 <= i < |weapons| && weapons[i].Some? ==> i in v.tried)
      && (forall j :: 0 <= j < |v.tried| ==> v.tried[j] < |weapons| && weapons[v.tried[j]].Some?)
      && (forall j, k :: 0 <= j < k < |v.tried| ==> v.tried[j] < v.tried[k])
      && (v.fired <==> exists i :: 0 <= i < |weapons| && weapons[i].Some? && fire(i))
  {
    var selfH := ResolveTransform(b, a.selfKey, scene);
    var targetH := ResolveGameObject(b, a.targetKey, scene);
    if selfH.None? || targetH.None? {
      return Volley(Failure, None, [], false);
    }
    var self := selfH.value;
    var target := targetH.value;
    var m := MechaOf(scene, self);
    if m.None? || !LiveTarget(scene, target) {
      return Volley(Failure, None, [], false);
    }
    var selfPos := Position(scene.objects[self]);
    var tgtPos := Position(scene.objects[target]);
    if OutOfRange(sqrt, MaxRange(a, m.value), Sub3(tgtPos, selfPos)) {
      return Volley(Failure, None, [], false);
    }
    var aim := Aim(sqrt, selfPos, tgtPos);
    var outcomes := Outcomes(m.value.weapons, fire);
    var fired, tried := Mecha.TryAttack(outcomes);
    if fired {
      var i :| 0 <= i < |outcomes| && outcomes[i] == Some(true);
      assert m.value.weapons[i].Some? && fire(i);
    }
    return Volley(Running, aim, tried, fired);
  }

  /** Within the limit plus the tolerance, decided on squared distances,
      a positive limit lets the attack through. */
  lemma InRangeIff(sqrt: real -> real, limit: real, offset: Vec3)
    requires IsSqrt(sqrt) && limit > 0.0
    ensures !OutOfRange(sqrt, limit, offset) <==> SqrMag3(offset) <= Sq(limit + RangeTolerance)
  {
    WithinIff(Mag3(sqrt, offset), SqrMag3(offset), limit + RangeTolerance);
  }
}
