/** The body-assist decision of the mecha's animation rig: when the head or
    an armed hand would have to turn close to its yaw limit to face the
    desired direction, the body turns to help. Entering the assist needs
    the angle to stay above an enter threshold for a short delay; leaving
    it needs the angle to drop below a lower exit threshold. */
module BodyAssist {
  import opened Numeric
  import opened Geometry

  /** Desired directions with a squared length at or below this are
      ignored and the body's own facing is used. */
  const MinDesiredSqr: real := 0.0001
  /** When the configured exit fraction would put the exit threshold above
      the enter threshold, exit is put at this share of enter instead. */
  const ExitFallbackShare: real := 0.8

  /** The rig's configuration: which aiming parts exist, their yaw limits
      in degrees, the weapon gating of the hands, and the assist tuning. */
  datatype Rig = Rig(
    enabled: bool,
    hasHead: bool, hasLeftHand: bool, hasRightHand: bool,
    maxHeadYaw: real, maxLeftHandYaw: real, maxRightHandYaw: real,
    rotateLeftIfWeaponOnly: bool, rotateRightIfWeaponOnly: bool,
    leftHasWeapon: bool, rightHasWeapon: bool,
    enterFrac: real, exitFrac: real, delaySec: real)

  /** The rig with its serialised defaults: 70 degrees for the head, 95
      for either hand, hands gated on carrying a weapon, enter at 85% and
      exit at 65% of the tightest limit, 0.05 s delay. */
  function DefaultRig(hasHead: bool, hasLeftHand: bool, hasRightHand: bool,
                      leftHasWeapon: bool, rightHasWeapon: bool): (rig: Rig)
    ensures rig.enabled && rig.exitFrac <= rig.enterFrac && 0.0 < rig.delaySec
  {
    Rig(true, hasHead, hasLeftHand, hasRightHand, 70.0, 95.0, 95.0,
        true, true, leftHasWeapon, rightHasWeapon, 0.85, 0.65, 0.05)
  }

  /** The latch the rig keeps between frames. Both fields start at their
      defaults: inactive, timer 0. */
  datatype Latch = Latch(active: bool, timer: real)

  const InitialLatch: Latch := Latch(false, 0.0)

  predicate HeadAllowed(rig: Rig) { rig.hasHead && rig.maxHeadYaw > 0.0 }

  predicate LeftAllowed(rig: Rig) {
    rig.hasLeftHand && rig.maxLeftHandYaw > 0.0 && (!rig.rotateLeftIfWeaponOnly || rig.leftHasWeapon)
  }

  predicate RightAllowed(rig: Rig) {
    rig.hasRightHand && rig.maxRightHandYaw > 0.0 && (!rig.rotateRightIfWeaponOnly || rig.rightHasWeapon)
  }

  /** One step of the running minimum, where a non-positive running value
      means "no limit yet". */
  function Tighten(current: real, limit: real): real {
    if current <= 0.0 then limit else Min(current, limit)
  }

  /** The tightest yaw limit over the parts allowed to aim, folded head,
      left hand, right hand, starting from 0. */
  function MinLimit(rig: Rig): (m: real)
    ensures 0.0 < m <==> HeadAllowed(rig) || LeftAllowed(rig) || RightAllowed(rig)
    ensures m <= 0.0 ==> m == 0.0
    ensures HeadAllowed(rig) ==> m <= rig.maxHeadYaw
    ensures LeftAllowed(rig) ==> m <= rig.maxLeftHandYaw
    ensures RightAllowed(rig) ==> m <= rig.maxRightHandYaw
    ensures m == 0.0 || (HeadAllowed(rig) && m == rig.maxHeadYaw)
      || (LeftAllowed(rig) && m == rig.maxLeftHandYaw)
      || (RightAllowed(rig) && m == rig.maxRightHandYaw)
  {
    var afterHead := if HeadAllowed(rig) then Tighten(0.0, rig.maxHeadYaw) else 0.0;
    var afterLeft := if LeftAllowed(rig) then Tighten(afterHead, rig.maxLeftHandYaw) else afterHead;
    if RightAllowed(rig) then Tighten(afterLeft, rig.maxRightHandYaw) else afterLeft
  }

  /** The enter and exit thresholds, in degrees of |delta|. */
  datatype Band = Band(enter: real, exit: real)

  /** Both thresholds are the clamped fractions of the tightest limit, the
      exit one pulled down to 80% of enter when it would exceed it. */
  function Thresholds(rig: Rig, minLimit: real): (band: Band)
    requires 0.0 < minLimit
    ensures 0.0 <= band.exit <= band.enter <= minLimit
    ensures band.enter == Mul(Clamp01(rig.enterFrac), minLimit)
    ensures Clamp01(rig.exitFrac) <= Clamp01(rig.enterFrac) ==>
      band.exit == Mul(Clamp01(rig.exitFrac), minLimit)
  {
    var enter := Mul(Clamp01(rig.enterFrac), minLimit);
    var exit := Mul(Clamp01(rig.exitFrac), minLimit);
    FractionsOf(Clamp01(rig.enterFrac), Clamp01(rig.exitFrac), minLimit);
    Band(enter, if exit > enter then Mul(enter, ExitFallbackShare) else exit)
  }

  lemma FractionsOf(enterFrac: real, exitFrac: real, limit: real)
    requires 0.0 <= enterFrac <= 1.0 && 0.0 <= exitFrac <= 1.0 && 0.0 < limit
    ensures 0.0 <= Mul(enterFrac, limit) <= limit && 0.0 <= Mul(exitFrac, limit)
    ensures exitFrac <= enterFrac ==> Mul(exitFrac, limit) <= Mul(enterFrac, limit)
  {
    MulNonNeg(enterFrac, limit);
    MulNonNeg(exitFrac, limit);
    MulNonNeg(1.0 - enterFrac, limit);
    if exitFrac <= enterFrac {
      MulNonNeg(enterFrac - exitFrac, limit);
    }
  }

  /** One frame of the enter/exit hysteresis. While inactive and above the
      enter threshold the timer runs down by dt and the assist engages once
      it is at or below 0; at or below the threshold the timer re-arms to
      the delay. While active, dropping below the exit threshold disengages
      and re-arms the timer. */
  function Step(l: Latch, absDelta: real, band: Band, delay: real, dt: real): Latch {
    if !l.active then
      if absDelta > band.enter then Latch(l.timer - dt <= 0.0, l.timer - dt)
      else Latch(false, delay)
    else if absDelta < band.exit then Latch(false, delay)
    else l
  }

  /** The transitions of one frame, both directions: the assist engages
      exactly when it was off, the angle is above enter and the timer has
      run out; it disengages exactly when it was on and the angle is below
      exit; a frame that leaves it (or puts it) off at or below the enter
      threshold, or that turns it off, re-arms the timer. */
  lemma StepTransitions(l: Latch, absDelta: real, band: Band, delay: real, dt: real)
    ensures var r := Step(l, absDelta, band, delay, dt);
      (!l.active && r.active <==> !l.active && absDelta > band.enter && l.timer - dt <= 0.0)
      && (l.active && !r.active <==> l.active && absDelta < band.exit)
      && (l.active && r.active ==> r == l)
      && (!r.active && (l.active || absDelta <= band.enter) ==> r.timer == delay)
      && (!l.active && absDelta > band.enter ==> r.timer == l.timer - dt)
  {
  }

  /** Inside the band the flag does not move: an angle between the two
      thresholds neither engages nor disengages the assist. */
  lemma DeadBandHolds(l: Latch, absDelta: real, band: Band, delay: real, dt: real)
    requires band.exit <= absDelta <= band.enter
    ensures Step(l, absDelta, band, delay, dt).active == l.active
  {
  }

  /** One frame of input to the latch: the angle magnitude and the frame
      time. */
  datatype Frame = Frame(absDelta: real, dt: real)

  /** The latch after a run of frames, in order. */
  function Run(l: Latch, band: Band, delay: real, frames: seq<Frame>): Latch
    decreases |frames|
  {
    if |frames| == 0 then l
    else Run(Step(l, frames[0].absDelta, band, delay, frames[0].dt), band, delay, frames[1..])
  }

  /** The time a run of frames covers. */
  function Elapsed(frames: seq<Frame>): real
    decreases |frames|
  {
    if |frames| == 0 then 0.0 else frames[0].dt + Elapsed(frames[1..])
  }

  /** The delay must elapse: an inactive latch kept above the enter
      threshold for less time than its timer holds stays inactive, its
      timer run down by exactly the time that passed. */
  lemma {:induction false} HeldUntilTimerRunsOut(l: Latch, band: Band, delay: real, frames: seq<Frame>)
    requires !l.active
    requires forall i :: 0 <= i < |frames| ==> frames[i].absDelta > band.enter
    requires forall i :: 0 <= i < |frames| ==> 0.0 <= frames[i].dt
    requires Elapsed(frames) < l.timer
    ensures Run(l, band, delay, frames) == Latch(false, l.timer - Elapsed(frames))
    decreases |frames|
  {
    if |frames| > 0 {
      var f := frames[0];
      var next := Step(l, f.absDelta, band, delay, f.dt);
      ElapsedNonNeg(frames[1..]);
      assert next == Latch(false, l.timer - f.dt);
      HeldUntilTimerRunsOut(next, band, delay, frames[1..]);
    }
  }

  /** ... and it is enough: once the angle has stayed above the enter
      threshold for at least the time on the timer, the assist is on at
      the end of the run, since an angle above enter is never below exit. */
  lemma {:induction false} EngagesOnceTimerRunsOut(l: Latch, band: Band, delay: real, frames: seq<Frame>)
    requires band.exit <= band.enter
    requires !l.active && 0 < |frames|
    requires forall i :: 0 <= i < |frames| ==> frames[i].absDelta > band.enter
    requires l.timer <= Elapsed(frames)
    ensures Run(l, band, delay, frames).active
    decreases |frames|
  {
    var f := frames[0];
    var next := Step(l, f.absDelta, band, delay, f.dt);
    if next.active {
      StaysEngaged(next, band, delay, frames[1..]);
    } else {
      assert next.timer == l.timer - f.dt;
      EngagesOnceTimerRunsOut(next, band, delay, frames[1..]);
    }
  }

  /** An engaged latch stays engaged while the angle stays at or above the
      exit threshold. */
  lemma {:induction false} StaysEngaged(l: Latch, band: Band, delay: real, frames: seq<Frame>)
    requires l.active
    requires forall i :: 0 <= i < |frames| ==> frames[i].absDelta >= band.exit
    ensures Run(l, band, delay, frames) == l
    decreases |frames|
  {
    if |frames| > 0 {
      assert Step(l, frames[0].absDelta, band, delay, frames[0].dt) == l;
      StaysEngaged(l, band, delay, frames[1..]);
    }
  }

  lemma {:induction false} ElapsedNonNeg(frames: seq<Frame>)
    requires forall i :: 0 <= i < |frames| ==> 0.0 <= frames[i].dt
    ensures 0.0 <= Elapsed(frames)
    decreases |frames|
  {
    if |frames| > 0 {
      ElapsedNonNeg(frames[1..]);
    }
  }

  /** The timer starts at 0, so the very first frame above the enter
      threshold engages the assist with no delay; the delay only applies
      after the timer has been re-armed. */
  lemma FirstExcursionIsImmediate(absDelta: real, band: Band, delay: real, dt: real)
    requires absDelta > band.enter && 0.0 <= dt
    ensures Step(InitialLatch, absDelta, band, delay, dt).active
  {
  }

  /** The direction the aim parts want: the desired one normalised, unless
      it is too short, in which case the body's own facing. */
  function TargetDir(sqrt: real -> real, bodyDir: Vec2, desired: Vec2): Vec2
    requires IsSqrt(sqrt)
  {
    if SqrMag(desired) > MinDesiredSqr then Normalize(sqrt, desired) else bodyDir
  }

  /** What one evaluation reports: whether the body assists, the residual
      yaw the body should take over, the turn's sign, and the new latch. */
  datatype Assist = Assist(engaged: bool, residual: real, sign: int, latch: Latch)

  /** MechaAnimation.EvaluateBodyAssist. The signed angle from the body's
      facing to the target direction is an input function. */
  function Evaluate(sqrt: real -> real, signedAngle: (Vec2, Vec2) -> real, rig: Rig, latch: Latch,
                    bodyDir: Vec2, desired: Vec2, dt: real): (r: Assist)
    requires IsSqrt(sqrt)
    ensures !rig.enabled ==> r == Assist(false, 0.0, 0, latch)
    ensures rig.enabled && 0.0 < MinLimit(rig) ==> r.engaged == r.latch.active
    ensures 0.0 <= r.residual && (!r.engaged ==> r.residual == 0.0)
    ensures rig.enabled ==>
      ((r.sign == 1 || r.sign == -1) &&
       (r.sign == 1 <==> signedAngle(bodyDir, TargetDir(sqrt, bodyDir, desired)) >= 0.0))
    ensures MinLimit(rig) <= 0.0 ==> !r.engaged && r.latch == latch
  {
    if !rig.enabled then Assist(false, 0.0, 0, latch)
    else
      var delta := signedAngle(bodyDir, TargetDir(sqrt, bodyDir, desired));
      var sign := if delta >= 0.0 then 1 else -1;
      var minLimit := MinLimit(rig);
      if minLimit <= 0.0 then Assist(false, 0.0, sign, latch)
      else
        var band := Thresholds(rig, minLimit);
        var next := Step(latch, Abs(delta), band, rig.delaySec, dt);
        Assist(next.active, if next.active then Max(0.0, Abs(delta) - band.exit) else 0.0, sign, next)
  }

  /** With a part to aim, the latch takes one hysteresis step on |delta|,
      and the residual is what brings |delta| down to the exit threshold:
      never more than |delta|, and zero once |delta| is within it. */
  lemma EvaluateOutcome(sqrt: real -> real, signedAngle: (Vec2, Vec2) -> real, rig: Rig, latch: Latch,
                        bodyDir: Vec2, desired: Vec2, dt: real)
    requires IsSqrt(sqrt) && rig.enabled && 0.0 < MinLimit(rig)
    ensures var delta := signedAngle(bodyDir, TargetDir(sqrt, bodyDir, desired));
      var band := Thresholds(rig, MinLimit(rig));
      var r := Evaluate(sqrt, signedAngle, rig, latch, bodyDir, desired, dt);
      r.latch == Step(latch, Abs(delta), band, rig.delaySec, dt)
      && (r.engaged ==> r.residual <= Abs(delta) && Abs(delta) - r.residual == Min(Abs(delta), band.exit))
  {
  }
}
