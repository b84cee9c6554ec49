/** Two's-complement words as the codec sees them. A 32-bit C# int (and a
    64-bit long) is represented by its bit pattern read as an unsigned
    number, so wrapping addition is addition modulo 2^32 and the bitwise
    operators are defined bit by bit from the least significant end. */
module Bits {
  const Two32: int := 0x1_0000_0000
  const Two64: int := 0x1_0000_0000_0000_0000

  /** The bit pattern of a C# int. */
  type Word32 = x: int | 0 <= x < Two32
  /** The bit pattern of a C# long. */
  type Word64 = x: int | 0 <= x < Two64

  function Pow2(n: nat): (p: nat)
    ensures 1 <= p
  {
    if n == 0 then 1 else 2 * Pow2(n - 1)
  }

  lemma Pow2Widths()
    ensures Pow2(32) == Two32 && Pow2(64) == Two64
  {
    Pow2Double(1, 2);
    Pow2Double(2, 4);
    Pow2Double(4, 16);
    Pow2Double(8, 256);
    Pow2Double(16, 0x1_0000);
    Pow2Double(32, Two32);
  }

  lemma Pow2Double(k: nat, v: nat)
    requires Pow2(k) == v
    ensures Pow2(k + k) == v * v
  {
    Pow2Add(k, k);
  }

  lemma {:induction false} Pow2Add(m: nat, n: nat)
    ensures Pow2(m + n) == Pow2(m) * Pow2(n)
    decreases m
  {
    if m > 0 {
      Pow2Add(m - 1, n);
      assert Pow2(m + n) == 2 * Pow2(m - 1 + n);
    }
  }

  /** The value of a bit. */
  function Bit(b: bool): nat { if b then 1 else 0 }

  /** a ^ b on non-negative patterns. */
  function Xor(a: nat, b: nat): nat
    decreases a + b
  {
    if a == 0 && b == 0 then 0 else 2 * Xor(a / 2, b / 2) + Bit(a % 2 != b % 2)
  }

  /** a | b on non-negative patterns. */
  function Or(a: nat, b: nat): nat
    decreases a + b
  {
    if a == 0 && b == 0 then 0 else 2 * Or(a / 2, b / 2) + Bit(a % 2 == 1 || b % 2 == 1)
  }

  /** a & b on non-negative patterns. */
  function And(a: nat, b: nat): nat
    decreases a + b
  {
    if a == 0 && b == 0 then 0 else 2 * And(a / 2, b / 2) + Bit(a % 2 == 1 && b % 2 == 1)
  }

  lemma AndStep(a: nat, b: nat)
    ensures And(a, b) == 2 * And(a / 2, b / 2) + Bit(a % 2 == 1 && b % 2 == 1)
  {
  }

  /** Halving, reducing and putting the low bit back is reducing modulo
      twice the bound. */
  lemma ModDouble(x: nat, p: nat)
    requires 0 < p
    ensures 2 * ((x / 2) % p) + x % 2 == x % (2 * p)
  {
    var q := x / 2;
    var t := q / p;
    var u := q % p;
    assert q == p * t + u;
    assert x == (2 * p) * t + (2 * u + x % 2);
    ModUnique(x, 2 * p, t, 2 * u + x % 2);
  }

  lemma ModDoubleAt(x: nat, n: nat)
    requires 0 < n
    ensures 2 * ((x / 2) % Pow2(n - 1)) + x % 2 == x % Pow2(n)
  {
    LowOnesHalve(n);
    ModDouble(x, Pow2(n - 1));
  }

  /** The remainder is the only w in [0, d) with x = d * t + w. */
  lemma ModUnique(x: int, d: int, t: int, w: int)
    requires 0 < d && x == d * t + w && 0 <= w < d
    ensures x % d == w
  {
    var t' := x / d;
    assert x == d * t' + x % d;
    if t < t' {
      MulMonotone(d, t, t');
    } else if t' < t {
      MulMonotone(d, t', t);
    }
  }

  lemma MulMonotone(d: int, a: int, b: int)
    requires 0 < d && a < b
    ensures d * a + d <= d * b
  {
    var k := b - a;
    assert d * b == d * a + d * k;
    MulAtLeast(d, k);
  }

  lemma {:induction false} MulAtLeast(d: int, k: int)
    requires 0 < d && 1 <= k
    ensures d <= d * k
    decreases k
  {
    if k > 1 {
      MulAtLeast(d, k - 1);
      assert d * k == d * (k - 1) + d;
    }
  }

  /** Masking with n one-bits keeps the low n bits. */
  lemma {:induction false} AndLowOnes(x: nat, n: nat)
    ensures And(x, Pow2(n) - 1) == x % Pow2(n)
    decreases n
  {
    if n == 0 {
      AndZero(x);
    } else {
      LowOnesHalve(n);
      AndStep(x, Pow2(n) - 1);
      AndLowOnes(x / 2, n - 1);
      ModDoubleAt(x, n);
    }
  }

  /** n one-bits are n - 1 one-bits shifted up with a one below. */
  lemma LowOnesHalve(n: nat)
    requires 0 < n
    ensures Pow2(n) == 2 * Pow2(n - 1)
    ensures (Pow2(n) - 1) / 2 == Pow2(n - 1) - 1 && (Pow2(n) - 1) % 2 == 1
  {
    var q := Pow2(n - 1) - 1;
    assert Pow2(n) - 1 == 2 * q + 1;
    HalveOdd(q);
  }

  lemma HalveOdd(q: nat)
    ensures (2 * q + 1) / 2 == q && (2 * q + 1) % 2 == 1
  {
  }

  lemma {:induction false} AndZero(a: nat)
    ensures And(a, 0) == 0
    decreases a
  {
    if a > 0 {
      AndStep(a, 0);
      AndZero(a / 2);
    }
  }

  /** The recursion step of Xor holds at zero as well. */
  lemma XorStep(a: nat, b: nat)
    ensures Xor(a, b) == 2 * Xor(a / 2, b / 2) + Bit(a % 2 != b % 2)
  {
  }

  lemma OrStep(a: nat, b: nat)
    ensures Or(a, b) == 2 * Or(a / 2, b / 2) + Bit(a % 2 == 1 || b % 2 == 1)
  {
  }

  /** XOR with the same key twice gives the pattern back. */
  lemma {:induction false} XorSelfInverse(a: nat, k: nat)
    ensures Xor(Xor(a, k), k) == a
    decreases a + k
  {
    if a + k > 0 {
      var c := Xor(a, k);
      XorStep(a, k);
      XorStep(c, k);
      assert c / 2 == Xor(a / 2, k / 2) && c % 2 == Bit(a % 2 != k % 2);
      XorSelfInverse(a / 2, k / 2);
    }
  }

  /** XOR of two n-bit patterns is an n-bit pattern. */
  lemma {:induction false} XorBelow(a: nat, b: nat, n: nat)
    requires a < Pow2(n) && b < Pow2(n)
    ensures Xor(a, b) < Pow2(n)
    decreases n
  {
    if n > 0 {
      XorStep(a, b);
      XorBelow(a / 2, b / 2, n - 1);
    }
  }

  lemma {:induction false} OrZero(a: nat)
    ensures Or(a, 0) == a
    decreases a
  {
    if a > 0 {
      OrStep(a, 0);
      OrZero(a / 2);
    }
  }

  lemma {:induction false} OrZeroLeft(a: nat)
    ensures Or(0, a) == a
    decreases a
  {
    if a > 0 {
      OrStep(0, a);
      OrZeroLeft(a / 2);
    }
  }

  /** OR of two n-bit patterns is an n-bit pattern. */
  lemma {:induction false} OrBelow(a: nat, b: nat, n: nat)
    requires a < Pow2(n) && b < Pow2(n)
    ensures Or(a, b) < Pow2(n)
    decreases n
  {
    if n > 0 {
      OrStep(a, b);
      OrBelow(a / 2, b / 2, n - 1);
    }
  }

  /** OR of a value shifted up by n bits with an n-bit value is their sum:
      the two occupy disjoint bits. */
  lemma {:induction false} OrDisjoint(h: nat, l: nat, n: nat)
    requires l < Pow2(n)
    ensures Or(h * Pow2(n), l) == h * Pow2(n) + l
    decreases n
  {
    if n == 0 {
      OrZero(h);
    } else {
      var p := Pow2(n - 1);
      var high := h * Pow2(n);
      assert high == 2 * (h * p);
      OrStep(high, l);
      assert high / 2 == h * p && high % 2 == 0;
      OrDisjoint(h, l / 2, n - 1);
    }
  }

  /** a ^ b on 32-bit patterns. */
  function Xor32(a: Word32, b: Word32): (r: Word32)
    ensures r == Xor(a, b)
  {
    Pow2Widths();
    XorBelow(a, b, 32);
    Xor(a, b)
  }

  /** Wrapping 32-bit addition, as unchecked C# int arithmetic does it. */
  function Add32(a: Word32, b: Word32): Word32 {
    (a + b) % Two32
  }

  /** Adding the same word cancels under wrap-around. */
  lemma Add32Cancel(a: Word32, b: Word32, s: Word32)
    requires Add32(a, s) == Add32(b, s)
    ensures a == b
  {
  }

  /** Different words XOR-ed with the same key stay different. */
  lemma XorInjective(a: nat, b: nat, k: nat)
    requires Xor(a, k) == Xor(b, k)
    ensures a == b
  {
    XorSelfInverse(a, k);
    XorSelfInverse(b, k);
  }
}
