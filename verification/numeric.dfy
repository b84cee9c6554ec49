/** Scalar helpers shared by every component: the nullable wrapper, Unity's
    Mathf clamps and interpolation, and an extended real for the +infinity
    sentinels the game code uses for "no threat" and "no distance". Floats are
    modelled as unbounded reals without rounding. */
module Numeric {

  /** A value that may be absent (a null reference in the game code). */
  datatype Option<+T> = None | Some(value: T)

  /** A real or positive infinity (float.PositiveInfinity). */
  datatype Extended = Finite(r: real) | PosInf {
    /** Strict comparison with the usual meaning of +infinity. */
    predicate Less(other: Extended) {
      match (this, other)
      case (Finite(a), Finite(b)) => a < b
      case (Finite(_), PosInf) => true
      case (PosInf, _) => false
    }
  }

  /** Extended comparison against a plain real. */
  predicate LessThanReal(e: Extended, x: real) {
    e.Finite? && e.r < x
  }

  function Max(a: real, b: real): real { if a >= b then a else b }
  function Min(a: real, b: real): real { if a <= b then a else b }
  function Abs(a: real): real { if a < 0.0 then -a else a }

  /** Mathf.Clamp: the lower bound is compared first, so when hi < lo a value
      below lo yields lo and any other value above hi yields hi. */
  function Clamp(v: real, lo: real, hi: real): (r: real)
    ensures lo <= hi ==> lo <= r <= hi
    ensures lo <= v <= hi ==> r == v
    ensures r == v || r == lo || r == hi
  {
    if v < lo then lo else if v > hi then hi else v
  }

  /** Mathf.Clamp for ints: the real clamp of the same three values, which
      is always one of them and so a whole number. */
  function ClampInt(v: int, lo: int, hi: int): (r: int)
    ensures lo <= hi ==> lo <= r <= hi
    ensures lo <= v <= hi ==> r == v
    ensures r == v || r == lo || r == hi
  {
    Clamp(v as real, lo as real, hi as real).Floor
  }

  function MaxInt(a: int, b: int): int { if a >= b then a else b }

  /** Mathf.Clamp01. */
  function Clamp01(v: real): (r: real)
    ensures 0.0 <= r <= 1.0
    ensures 0.0 <= v <= 1.0 ==> r == v
  {
    Clamp(v, 0.0, 1.0)
  }

  /** Mathf.LerpUnclamped. */
  function LerpUnclamped(a: real, b: real, u: real): real { a + Mul(b - a, u) }

  /** Mathf.Lerp clamps its parameter to [0,1], so the result lies between
      the end points whichever way round they are. */
  function Lerp(a: real, b: real, t: real): (r: real)
    ensures a <= b ==> a <= r <= b
    ensures b <= a ==> b <= r <= a
    ensures t <= 0.0 ==> r == a
    ensures 1.0 <= t ==> r == b
  {
    var u := Clamp01(t);
    FractionBetween(a, b, u);
    LerpUnclamped(a, b, u)
  }

  /** Mathf.Sign: +1 for zero as well as for positive values. */
  function Sign(v: real): real { if v >= 0.0 then 1.0 else -1.0 }

  /** Mathf.MoveTowards: step from current towards target by at most
      maxDelta. Otherwise the step is maxDelta times the sign of the gap,
      and Mathf.Sign(0) is +1, so a negative maxDelta at an equal target
      moves down by its size. */
  function MoveTowards(current: real, target: real, maxDelta: real): (r: real)
    ensures Abs(target - current) <= maxDelta ==> r == target
    ensures 0.0 <= maxDelta ==> Abs(r - current) <= maxDelta
    ensures 0.0 <= maxDelta && current <= target ==> current <= r <= target
    ensures 0.0 <= maxDelta && target <= current ==> target <= r <= current
    ensures Abs(target - current) > maxDelta ==> Abs(r - current) == Abs(maxDelta)
    ensures maxDelta < 0.0 && target == current ==> r == current + maxDelta
  {
    if Abs(target - current) <= maxDelta then target
    else current + Sign(target - current) * maxDelta
  }

  /** Products and squares are kept behind names: the solver then reuses
      sign facts about them as facts about single terms. */
  function Mul(a: real, b: real): real { a * b }
  function Sq(a: real): real { Mul(a, a) }

  lemma MulPos(a: real, b: real)
    requires 0.0 < a && 0.0 < b
    ensures 0.0 < Mul(a, b)
  {}

  lemma MulNonNeg(a: real, b: real)
    requires 0.0 <= a && 0.0 <= b
    ensures 0.0 <= Mul(a, b)
  {}

  lemma MulNegNeg(a: real, b: real)
    ensures Mul(-a, -b) == Mul(a, b)
  {}

  lemma SquareNonNeg(a: real)
    ensures 0.0 <= Sq(a)
  {
    if a < 0.0 { MulPos(-a, -a); MulNegNeg(a, a); } else { MulNonNeg(a, a); }
  }

  lemma SquarePos(a: real)
    requires a != 0.0
    ensures 0.0 < Sq(a)
  {
    if a < 0.0 { MulPos(-a, -a); MulNegNeg(a, a); } else { MulPos(a, a); }
  }

  /** A fraction u in [0,1] of the way from a to b stays between them. */
  lemma FractionBetween(a: real, b: real, u: real)
    requires 0.0 <= u <= 1.0
    ensures a <= b ==> a <= LerpUnclamped(a, b, u) <= b
    ensures b <= a ==> b <= LerpUnclamped(a, b, u) <= a
  {
    assert Mul(b - a, u) + Mul(b - a, 1.0 - u) == b - a;
    if a <= b {
      MulNonNeg(b - a, u);
      MulNonNeg(b - a, 1.0 - u);
    } else {
      MulNonNeg(a - b, u);
      MulNonNeg(a - b, 1.0 - u);
      assert Mul(b - a, u) == -Mul(a - b, u);
      assert Mul(b - a, 1.0 - u) == -Mul(a - b, 1.0 - u);
    }
  }

  /** For non-negative reals, order agrees with the order of their squares. */
  lemma SquareLeIff(p: real, q: real)
    requires 0.0 <= p && 0.0 <= q
    ensures p <= q <==> Sq(p) <= Sq(q)
  {
    assert Sq(q) - Sq(p) == Mul(q - p, q + p);
    if p <= q {
      MulNonNeg(q - p, q + p);
    } else {
      MulPos(p - q, p + q);
      assert Sq(p) - Sq(q) == Mul(p - q, p + q);
    }
  }
}
