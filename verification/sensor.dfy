/** The projectile sensor of a mecha: a periodic scan that tracks the
    incoming projectile with the least time to impact, and the path-crossing
    query run against the tracked projectile. The physics overlap query is
    an input: the scan receives the colliders found within the sense radius,
    in the order the query returned them. */
module Sensor {
  import opened Numeric
  import opened Geometry
  import Prediction

  /** The serialized settings the scan reads: the time between scans and
      the radii whose sum is the contact distance. None of them is clamped,
      so any real is allowed. */
  datatype Config = Config(updateInterval: real, projectileRadius: real, mechaRadius: real)

  /** The serialized defaults. */
  const DefaultConfig: Config := Config(0.05, 0.1, 0.5)

  /** The contact radius between a projectile and a mecha. */
  function HitRadius(cfg: Config): real { cfg.mechaRadius + cfg.projectileRadius }

  /** Projectiles whose squared speed is at most this are ignored. */
  const MinSqrSpeed: real := 1.0e-6

  /** A collider returned by the overlap query that carries a projectile:
      the shooter's team, the projectile's position, its XY heading and
      its speed. */
  datatype Sighting = Sighting(shooterTeam: int, pos: Vec2, dir: Vec2, speed: real)

  /** A projectile the scan accepts: its time to impact and the readings
      the sensor publishes for it. */
  datatype Threat = Threat(tti: real, dir: Vec2, origin: Vec2, velocity: Vec2)

  /** The published readings: IncomingTTI, IncomingDir, IncomingOrigin and
      IncomingVelocity. */
  datatype Incoming = Incoming(tti: Extended, dir: Vec2, origin: Vec2, velocity: Vec2)

  /** The readings every scan starts from. */
  const NoIncoming: Incoming := Incoming(PosInf, Zero2, Zero2, Zero2)

  /** The sensor's state: its settings, the scan timer and the current
      readings. */
  datatype SensorState = SensorState(cfg: Config, timer: real, incoming: Incoming)

  /** A fresh sensor: the timer at 0 and TTI at +infinity. */
  function InitialSensor(cfg: Config): SensorState { SensorState(cfg, 0.0, NoIncoming) }

  function Velocity(p: Sighting): Vec2 { Scale(p.dir, p.speed) }
  function Offset(center: Vec2, p: Sighting): Vec2 { Sub(p.pos, center) }

  /** A projectile of the mecha's own team; a sensor without a mecha
      filters nothing. */
  predicate Friendly(team: Option<int>, p: Sighting) {
    team.Some? && p.shooterTeam == team.value
  }

  /** Moving, and moving towards the sensor. */
  predicate Closing(center: Vec2, p: Sighting) {
    SqrMag(Velocity(p)) > MinSqrSpeed && Dot(Offset(center, p), Velocity(p)) < 0.0
  }

  /** t* = -(r.v)/|v|^2, the time at which the projectile passes closest. */
  function ApproachTime(center: Vec2, p: Sighting): real
    requires SqrMag(Velocity(p)) > 0.0
  {
    -Dot(Offset(center, p), Velocity(p)) / SqrMag(Velocity(p))
  }

  /** The projectile's position relative to the sensor at t*. */
  function ClosestOffset(center: Vec2, p: Sighting): Vec2
    requires SqrMag(Velocity(p)) > 0.0
  {
    Add(Offset(center, p), Scale(Velocity(p), ApproachTime(center, p)))
  }

  /** One iteration of the scan loop: the threat a collider yields, if any.
      Non-projectiles, friendly, (nearly) still and receding projectiles are
      skipped, and so is one whose closest approach misses the hit radius. */
  function Consider(sqrt: real -> real, cfg: Config, center: Vec2, team: Option<int>, h: Option<Sighting>): (r: Option<Threat>)
    requires IsSqrt(sqrt)
    ensures r.Some? ==> h.Some? && !Friendly(team, h.value) && Closing(center, h.value)
    ensures r.Some? ==> r.value == Threat(ApproachTime(center, h.value), Normalize(sqrt, Velocity(h.value)),
                                          h.value.pos, Velocity(h.value))
    ensures r.Some? ==> Mag(sqrt, ClosestOffset(center, h.value)) <= HitRadius(cfg)
  {
    if h.None? then None
    else
      var p := h.value;
      if Friendly(team, p) then None
      else
        var v := Velocity(p);
        var r := Offset(center, p);
        if SqrMag(v) <= MinSqrSpeed then None
        else if Dot(r, v) >= 0.0 then None
        else
          var tStar := -Dot(r, v) / SqrMag(v);
          if tStar < 0.0 then None
          else
            var dMin := Mag(sqrt, Add(r, Scale(v, tStar)));
            if dMin <= HitRadius(cfg) then Some(Threat(tStar, Normalize(sqrt, v), p.pos, v)) else None
  }

  /** A closing projectile passes closest at a positive time, which is where
      the offset stops shrinking: r.v + t* |v|^2 = 0. */
  lemma ApproachTimePositive(center: Vec2, p: Sighting)
    requires Closing(center, p)
    ensures ApproachTime(center, p) > 0.0
    ensures Dot(Offset(center, p), Velocity(p)) + Mul(ApproachTime(center, p), SqrMag(Velocity(p))) == 0.0
  {
    var n := -Dot(Offset(center, p), Velocity(p));
    var d := SqrMag(Velocity(p));
    assert Mul(n / d, d) == n;
  }

  /** The scan accepts exactly the non-friendly closing projectiles that
      pass within the hit radius, which can be decided on squared lengths. */
  lemma ConsiderIff(sqrt: real -> real, cfg: Config, center: Vec2, team: Option<int>, h: Option<Sighting>)
    requires IsSqrt(sqrt)
    ensures Consider(sqrt, cfg, center, team, h).Some? <==>
      (h.Some? && !Friendly(team, h.value) && Closing(center, h.value)
       && 0.0 <= HitRadius(cfg) && SqrMag(ClosestOffset(center, h.value)) <= Sq(HitRadius(cfg)))
  {
    if h.Some? && !Friendly(team, h.value) && Closing(center, h.value) {
      var p := h.value;
      ApproachTimePositive(center, p);
      var c := ClosestOffset(center, p);
      WithinIff(Mag(sqrt, c), SqrMag(c), HitRadius(cfg));
    }
  }

  /** The time to impact of an accepted threat is positive and is the
      closest-approach time of Prediction for a sensor at rest. */
  lemma ThreatTime(sqrt: real -> real, cfg: Config, center: Vec2, team: Option<int>, h: Option<Sighting>)
    requires IsSqrt(sqrt) && Consider(sqrt, cfg, center, team, h).Some?
    ensures Consider(sqrt, cfg, center, team, h).value.tti > 0.0
    ensures Consider(sqrt, cfg, center, team, h).value.tti
         == Prediction.ClosestApproachTime(center, Zero2, h.value.pos, Velocity(h.value))
  {
    var p := h.value;
    ApproachTimePositive(center, p);
    assert Sub(Velocity(p), Zero2) == Velocity(p);
  }

  lemma AcceptedIsAhead(sqrt: real -> real, cfg: Config, center: Vec2, team: Option<int>, h: Option<Sighting>)
    requires IsSqrt(sqrt)
    ensures Consider(sqrt, cfg, center, team, h).Some? ==> Consider(sqrt, cfg, center, team, h).value.tti > 0.0
  {
    if Consider(sqrt, cfg, center, team, h).Some? {
      ThreatTime(sqrt, cfg, center, team, h);
    }
  }

  // ---------------------------------------------------------------------
  // Selecting the earliest threat

  /** One strict-less-than update of the loop: a threat replaces the
      readings only when its time to impact is strictly smaller. */
  function Keep(acc: Incoming, c: Option<Threat>): (r: Incoming)
    ensures c.None? ==> r == acc
    ensures c.Some? && acc.tti.Finite? && acc.tti.r <= c.value.tti ==> r == acc
    ensures c.Some? && Finite(c.value.tti).Less(acc.tti) ==> r == Published(c.value)
  {
    if c.Some? && Finite(c.value.tti).Less(acc.tti) then Published(c.value) else acc
  }

  /** The readings published for a threat. */
  function Published(t: Threat): Incoming {
    Incoming(Finite(t.tti), t.dir, t.origin, t.velocity)
  }

  /** The loop over the candidates, starting from the reset readings. */
  function Select(cands: seq<Option<Threat>>): Incoming
  {
    if |cands| == 0 then NoIncoming else Keep(Select(cands[..|cands| - 1]), cands[|cands| - 1])
  }

  /** The readings are those of candidate i, and every earlier candidate is
      strictly later to impact: i is the first candidate of least TTI. */
  predicate FirstEarliest(cands: seq<Option<Threat>>, i: int, r: Incoming) {
    && 0 <= i < |cands|
    && cands[i].Some?
    && r == Published(cands[i].value)
    && (forall j :: 0 <= j < |cands| && cands[j].Some? ==> cands[i].value.tti <= cands[j].value.tti)
    && (forall j :: 0 <= j < i && cands[j].Some? ==> cands[i].value.tti < cands[j].value.tti)
  }

  /** With no candidate the readings stay reset; otherwise they are those
      of the first candidate of least time to impact. */
  lemma {:induction false} SelectIsFirstEarliest(cands: seq<Option<Threat>>)
    ensures (forall j :: 0 <= j < |cands| ==> cands[j].None?) ==> Select(cands) == NoIncoming
    ensures (exists j :: 0 <= j < |cands| && cands[j].Some?) ==>
      exists i :: FirstEarliest(cands, i, Select(cands))
  {
    if |cands| > 0 {
      var n := |cands| - 1;
      var pre := cands[..n];
      SelectIsFirstEarliest(pre);
      var acc := Select(pre);
      if forall j :: 0 <= j < n ==> pre[j].None? {
        assert acc == NoIncoming;
        if cands[n].Some? {
          assert FirstEarliest(cands, n, Select(cands));
        }
      } else {
        var i :| FirstEarliest(pre, i, acc);
        if cands[n].Some? && cands[n].value.tti < cands[i].value.tti {
          assert FirstEarliest(cands, n, Select(cands));
        } else {
          assert FirstEarliest(cands, i, Select(cands));
        }
      }
    }
  }

  /** The scan: reset, then consider every collider in order. */
  function Scan(sqrt: real -> real, cfg: Config, center: Vec2, team: Option<int>, hits: seq<Option<Sighting>>): (r: Incoming)
    requires IsSqrt(sqrt)
    ensures r.tti.Finite? ==> r.tti.r > 0.0
    decreases |hits|
  {
    if |hits| == 0 then NoIncoming
    else
      var c := Consider(sqrt, cfg, center, team, hits[|hits| - 1]);
      AcceptedIsAhead(sqrt, cfg, center, team, hits[|hits| - 1]);
      Keep(Scan(sqrt, cfg, center, team, hits[..|hits| - 1]), c)
  }

  /** The candidates of a collider list. */
  function Candidates(sqrt: real -> real, cfg: Config, center: Vec2, team: Option<int>, hits: seq<Option<Sighting>>): (cs: seq<Option<Threat>>)
    requires IsSqrt(sqrt)
    ensures |cs| == |hits|
    ensures forall i :: 0 <= i < |hits| ==> cs[i] == Consider(sqrt, cfg, center, team, hits[i])
  {
    seq(|hits|, i requires 0 <= i < |hits| => Consider(sqrt, cfg, center, team, hits[i]))
  }

  /** The scan is the selection over its candidates. */
  lemma {:induction false} ScanSelects(sqrt: real -> real, cfg: Config, center: Vec2, team: Option<int>, hits: seq<Option<Sighting>>)
    requires IsSqrt(sqrt)
    ensures Scan(sqrt, cfg, center, team, hits) == Select(Candidates(sqrt, cfg, center, team, hits))
  {
    if |hits| > 0 {
      var n := |hits| - 1;
      ScanSelects(sqrt, cfg, center, team, hits[..n]);
      assert Candidates(sqrt, cfg, center, team, hits)[..n] == Candidates(sqrt, cfg, center, team, hits[..n]);
    }
  }

  /** What a scan reports: nothing (TTI +infinity, zero vectors) when no
      collider is an accepted threat; otherwise the readings of the first
      accepted threat whose time to impact is least, which is positive. In
      particular a friendly, still or receding projectile is never reported. */
  lemma ScanReportsEarliest(sqrt: real -> real, cfg: Config, center: Vec2, team: Option<int>, hits: seq<Option<Sighting>>)
    requires IsSqrt(sqrt)
    ensures var cs := Candidates(sqrt, cfg, center, team, hits);
      var r := Scan(sqrt, cfg, center, team, hits);
      && ((forall j :: 0 <= j < |cs| ==> cs[j].None?) ==> r == NoIncoming)
      && ((exists j :: 0 <= j < |cs| && cs[j].Some?) ==> exists i :: FirstEarliest(cs, i, r))
      && (r.tti.Finite? ==> r.tti.r > 0.0)
  {
    ScanSelects(sqrt, cfg, center, team, hits);
    SelectIsFirstEarliest(Candidates(sqrt, cfg, center, team, hits));
  }

  // ---------------------------------------------------------------------
  // The scan timer

  /** One frame: the timer counts down by dt, and when it reaches 0 or
      below it is reset to the configured interval and a scan replaces the
      readings. */
  function Update(s: SensorState, dt: real, sqrt: real -> real, center: Vec2, team: Option<int>,
                  hits: seq<Option<Sighting>>): (r: SensorState)
    requires IsSqrt(sqrt)
    ensures r.cfg == s.cfg
    ensures s.timer - dt <= 0.0 ==> r.timer == s.cfg.updateInterval && r.incoming == Scan(sqrt, s.cfg, center, team, hits)
    ensures s.timer - dt > 0.0 ==> r.timer == s.timer - dt && r.incoming == s.incoming
  {
    var timer := s.timer - dt;
    if timer <= 0.0 then s.(timer := s.cfg.updateInterval, incoming := Scan(sqrt, s.cfg, center, team, hits))
    else s.(timer := timer)
  }

  /** With a positive interval the timer stays in (0, interval] between
      frames, so with non-negative frame times the sensor scans at most once
      per interval of elapsed time; the readings change only on a frame
      that scans. */
  lemma UpdateKeepsTimerInRange(s: SensorState, dt: real, sqrt: real -> real, center: Vec2,
                                team: Option<int>, hits: seq<Option<Sighting>>)
    requires IsSqrt(sqrt) && 0.0 < s.cfg.updateInterval
    requires 0.0 <= dt && s.timer <= s.cfg.updateInterval
    ensures var r := Update(s, dt, sqrt, center, team, hits);
      && 0.0 < r.timer <= s.cfg.updateInterval
      && (r.incoming != s.incoming ==> r.timer == s.cfg.updateInterval)
  {
  }

  /** With an interval of 0 or below nothing holds the scan back: a timer
      at or under the interval stays there, and every frame with a
      non-negative time step rescans. */
  lemma NonPositiveIntervalScansEveryFrame(s: SensorState, dt: real, sqrt: real -> real, center: Vec2,
                                           team: Option<int>, hits: seq<Option<Sighting>>)
    requires IsSqrt(sqrt) && s.cfg.updateInterval <= 0.0
    requires 0.0 <= dt && s.timer <= s.cfg.updateInterval
    ensures var r := Update(s, dt, sqrt, center, team, hits);
      && r.timer == s.cfg.updateInterval <= 0.0
      && r.incoming == Scan(sqrt, s.cfg, center, team, hits)
  {
  }

  // ---------------------------------------------------------------------
  // WillPathCross

  /** WillPathCross: would a body leaving `position` along desiredDir at
      pathSpeed come within the clearance of the tracked projectile within
      the horizon? A non-positive speed answers false with crossTime 0 and
      minDistance +infinity, without evaluating anything. */
  function WillPathCross(sqrt: real -> real, s: SensorState, position: Vec2, desiredDir: Vec2,
                         pathSpeed: real, horizon: real, clearance: real): (r: Prediction.Crossing)
    requires IsSqrt(sqrt)
    ensures pathSpeed <= 0.0 ==> r == Prediction.Crossing(false, 0.0, PosInf)
    ensures pathSpeed > 0.0 ==> r == Prediction.WillPathsCrossWithin(
      sqrt, position, Scale(Normalize(sqrt, desiredDir), pathSpeed),
      s.incoming.origin, s.incoming.velocity, horizon, clearance)
  {
    if pathSpeed <= 0.0 then Prediction.Crossing(false, 0.0, PosInf)
    else
      Prediction.WillPathsCrossWithin(sqrt, position, Scale(Normalize(sqrt, desiredDir), pathSpeed),
                                      s.incoming.origin, s.incoming.velocity, horizon, clearance)
  }

  /** A positive answer names a time in [0, horizon] at which the body and
      the tracked projectile are within the clearance (or touch, for a
      negative clearance). */
  lemma PathCrossWitness(sqrt: real -> real, s: SensorState, position: Vec2, desiredDir: Vec2,
                         pathSpeed: real, horizon: real, clearance: real, r: Prediction.Crossing)
    requires IsSqrt(sqrt)
    requires r == WillPathCross(sqrt, s, position, desiredDir, pathSpeed, horizon, clearance)
    ensures r.cross ==> (pathSpeed > 0.0 && 0.0 <= r.crossTime <= horizon
      && Prediction.DistanceAtTime(sqrt, position, Scale(Normalize(sqrt, desiredDir), pathSpeed),
                                   s.incoming.origin, s.incoming.velocity, r.crossTime) <= Max(0.0, clearance))
  {
  }
}
