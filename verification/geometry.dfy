/** Planar and spatial vectors over the reals, with the square root supplied
    by the caller: a `sqrt` argument is admissible when it returns the
    non-negative root of every non-negative real (`IsSqrt`). Unity's
    `normalized` returns the zero vector below a magnitude of 1e-5. */
module Geometry {
  import opened Numeric

  datatype Vec2 = Vec2(x: real, y: real)
  datatype Vec3 = Vec3(x: real, y: real, z: real)

  const Zero2: Vec2 := Vec2(0.0, 0.0)

  function Add(a: Vec2, b: Vec2): Vec2 { Vec2(a.x + b.x, a.y + b.y) }
  function Sub(a: Vec2, b: Vec2): Vec2 { Vec2(a.x - b.x, a.y - b.y) }
  function Scale(a: Vec2, k: real): Vec2 { Vec2(a.x * k, a.y * k) }
  function Neg(a: Vec2): Vec2 { Vec2(-a.x, -a.y) }
  function Dot(a: Vec2, b: Vec2): real { a.x * b.x + a.y * b.y }
  function SqrMag(a: Vec2): real { Sq(a.x) + Sq(a.y) }

  /** The left-hand perpendicular (-y, x). */
  function Perp(a: Vec2): Vec2 { Vec2(-a.y, a.x) }

  /** The XY projection of a spatial position (the game plays on z = 0). */
  function XY(p: Vec3): Vec2 { Vec2(p.x, p.y) }

  /** A position with its XY replaced and its z kept. */
  function WithXY(p: Vec3, xy: Vec2): Vec3 { Vec3(xy.x, xy.y, p.z) }

  function Sub3(a: Vec3, b: Vec3): Vec3 { Vec3(a.x - b.x, a.y - b.y, a.z - b.z) }
  function SqrMag3(a: Vec3): real { Sq(a.x) + Sq(a.y) + Sq(a.z) }

  lemma SqrMagNonNeg(a: Vec2)
    ensures SqrMag(a) >= 0.0
  {
    SquareNonNeg(a.x);
    SquareNonNeg(a.y);
  }

  lemma SqrMagZero(a: Vec2)
    ensures SqrMag(a) == 0.0 <==> a == Zero2
  {
    SquareNonNeg(a.x);
    SquareNonNeg(a.y);
    if a.x != 0.0 { SquarePos(a.x); }
    if a.y != 0.0 { SquarePos(a.y); }
  }

  /** An admissible square-root oracle. */
  ghost predicate IsSqrt(sqrt: real -> real) {
    forall x :: 0.0 <= x ==> 0.0 <= sqrt(x) && Sq(sqrt(x)) == x
  }

  function Mag(sqrt: real -> real, a: Vec2): (m: real)
    requires IsSqrt(sqrt)
    ensures 0.0 <= m && Sq(m) == SqrMag(a)
  {
    sqrt(SqrMag(a))
  }

  function Mag3(sqrt: real -> real, a: Vec3): (m: real)
    requires IsSqrt(sqrt)
    ensures 0.0 <= m && Sq(m) == SqrMag3(a)
  {
    sqrt(SqrMag3(a))
  }

  /** Unity's normalisation threshold on the magnitude. */
  const NormalizeEpsilon: real := 1.0e-5

  /** Vector2.normalized: v / |v| when |v| > 1e-5, else zero. */
  function Normalize(sqrt: real -> real, a: Vec2): (u: Vec2)
    requires IsSqrt(sqrt)
  {
    var m := Mag(sqrt, a);
    if m > NormalizeEpsilon then Scale(a, 1.0 / m) else Zero2
  }

  /** Two non-negative roots of the same square are equal. */
  lemma RootUnique(p: real, q: real)
    requires 0.0 <= p && 0.0 <= q && Sq(p) == Sq(q)
    ensures p == q
  {
    SquareLeIff(p, q);
    SquareLeIff(q, p);
  }

  /** A magnitude m of a squared length d2 is within a bound L exactly when
      L is non-negative and d2 <= L*L, which lets comparisons of distances
      be decided on squared lengths. */
  lemma WithinIff(m: real, d2: real, bound: real)
    requires 0.0 <= m && Sq(m) == d2
    ensures m <= bound <==> (0.0 <= bound && d2 <= Sq(bound))
  {
    if 0.0 <= bound { SquareLeIff(m, bound); }
  }

  /** A normalised vector is a unit vector pointing the same way, or zero. */
  lemma NormalizeIsUnit(sqrt: real -> real, a: Vec2)
    requires IsSqrt(sqrt)
    ensures var u := Normalize(sqrt, a);
      (Mag(sqrt, a) > NormalizeEpsilon ==>
        SqrMag(u) == 1.0 && u == Scale(a, 1.0 / Mag(sqrt, a)))
      && (Mag(sqrt, a) <= NormalizeEpsilon ==> u == Zero2)
  {
    var m := Mag(sqrt, a);
    if m > NormalizeEpsilon {
      var k := 1.0 / m;
      assert k * m == 1.0;
      calc {
        SqrMag(Scale(a, k));
        (a.x * k) * (a.x * k) + (a.y * k) * (a.y * k);
        k * k * SqrMag(a);
        k * k * (m * m);
        (k * m) * (k * m);
      }
    }
  }
}
