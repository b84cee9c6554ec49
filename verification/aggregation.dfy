/** The four score-aggregation strategies of the utility AI: average,
    minimum, maximum and product of a list of consideration scores. Every
    strategy maps the empty list to 0. */
module Aggregation {
  import opened Numeric

  /** Left-to-right sum, the value LINQ's Sum and Average accumulate. */
  function Sum(s: seq<real>): real
  {
    if |s| == 0 then 0.0 else Sum(s[..|s| - 1]) + s[|s| - 1]
  }

  /** The fold `Aggregate(1f, (acc, x) => acc * x)`: ((1 * s0) * s1) * ... */
  function Product(s: seq<real>): real
  {
    if |s| == 0 then 1.0 else Mul(Product(s[..|s| - 1]), s[|s| - 1])
  }

  /** LINQ Min of a non-empty list: a member that no member is below. */
  function SeqMin(s: seq<real>): (m: real)
    requires |s| > 0
    ensures m in s
    ensures forall i :: 0 <= i < |s| ==> m <= s[i]
  {
    if |s| == 1 then s[0] else Min(SeqMin(s[..|s| - 1]), s[|s| - 1])
  }

  /** LINQ Max of a non-empty list: a member that no member is above. */
  function SeqMax(s: seq<real>): (m: real)
    requires |s| > 0
    ensures m in s
    ensures forall i :: 0 <= i < |s| ==> s[i] <= m
  {
    if |s| == 1 then s[0] else Max(SeqMax(s[..|s| - 1]), s[|s| - 1])
  }

  /** Every score lies in the unit interval, the range the scoring interfaces
      document. */
  predicate AllUnit(s: seq<real>) {
    forall i :: 0 <= i < |s| ==> 0.0 <= s[i] <= 1.0
  }

  /** AverageAggregationStrategy.Aggregate. */
  function AggregateAverage(s: seq<real>): real {
    if |s| == 0 then 0.0 else Sum(s) / (|s| as real)
  }

  /** MinAggregationStrategy.Aggregate. */
  function AggregateMin(s: seq<real>): real {
    if |s| == 0 then 0.0 else SeqMin(s)
  }

  /** MaxAggregationStrategy.Aggregate. */
  function AggregateMax(s: seq<real>): real {
    if |s| == 0 then 0.0 else SeqMax(s)
  }

  /** MultiplyAggregationStrategy.Aggregate: the empty list gives 0, not
      the fold's identity 1. */
  function AggregateMultiply(s: seq<real>): real {
    if |s| == 0 then 0.0 else Product(s)
  }

  // ---------------------------------------------------------------------
  // Sums

  /** n scores between lo and hi sum to between n*lo and n*hi. */
  lemma {:induction false} SumBounds(s: seq<real>, lo: real, hi: real)
    requires forall i :: 0 <= i < |s| ==> lo <= s[i] <= hi
    ensures Mul(|s| as real, lo) <= Sum(s) <= Mul(|s| as real, hi)
  {
    if |s| > 0 {
      var n := |s| as real;
      SumBounds(s[..|s| - 1], lo, hi);
      assert Mul(n, lo) == Mul(n - 1.0, lo) + lo;
      assert Mul(n, hi) == Mul(n - 1.0, hi) + hi;
    }
  }

  /** Sum of a concatenation. */
  lemma {:induction false} SumConcat(a: seq<real>, b: seq<real>)
    ensures Sum(a + b) == Sum(a) + Sum(b)
  {
    if |b| == 0 {
      assert a + b == a;
    } else {
      assert (a + b)[..|a + b| - 1] == a + b[..|b| - 1];
      SumConcat(a, b[..|b| - 1]);
    }
  }

  /** Removing the element at i takes exactly that element off the sum. */
  lemma SumRemove(s: seq<real>, i: int)
    requires 0 <= i < |s|
    ensures Sum(s) == s[i] + Sum(s[..i] + s[i + 1..])
  {
    var a, x, b := s[..i], s[i], s[i + 1..];
    assert s == (a + [x]) + b;
    SumConcat(a + [x], b);
    assert (a + [x])[..|a + [x]| - 1] == a;
    assert Sum(a + [x]) == Sum(a) + x;
    SumConcat(a, b);
  }

  /** The sum does not depend on the order of the scores. */
  lemma {:induction false} SumPermutation(s: seq<real>, t: seq<real>)
    requires multiset(s) == multiset(t)
    ensures Sum(s) == Sum(t)
  {
    if |s| == 0 {
      assert |t| == |multiset(t)| == 0;
    } else {
      var x := s[|s| - 1];
      assert x in multiset(t);
      var j :| 0 <= j < |t| && t[j] == x;
      var s' := s[..|s| - 1];
      var t' := t[..j] + t[j + 1..];
      assert s == s' + [x];
      assert t == t[..j] + [x] + t[j + 1..];
      assert multiset(s') == multiset(s) - multiset{x};
      assert multiset(t') == multiset(t) - multiset{x};
      SumPermutation(s', t');
      SumRemove(t, j);
    }
  }

  /** A quotient of a total that lies between n*lo and n*hi. */
  lemma DivBetween(total: real, n: real, lo: real, hi: real)
    requires 0.0 < n
    requires Mul(n, lo) <= total <= Mul(n, hi)
    ensures lo <= total / n <= hi
  {
    var q := total / n;
    assert total == Mul(n, q);
    assert Mul(n, q) - Mul(n, lo) == Mul(n, q - lo);
    assert Mul(n, hi) - Mul(n, q) == Mul(n, hi - q);
    if q < lo {
      MulPos(n, lo - q);
    }
    if q > hi {
      MulPos(n, q - hi);
    }
  }

  // ---------------------------------------------------------------------
  // Strategy properties

  /** The average lies between the least and the greatest score. */
  lemma AverageBetweenMinMax(s: seq<real>)
    requires |s| > 0
    ensures SeqMin(s) <= AggregateAverage(s) <= SeqMax(s)
  {
    SumBounds(s, SeqMin(s), SeqMax(s));
    DivBetween(Sum(s), |s| as real, SeqMin(s), SeqMax(s));
  }

  /** The average of scores in [0,1] is in [0,1]. */
  lemma AverageUnit(s: seq<real>)
    requires AllUnit(s)
    ensures 0.0 <= AggregateAverage(s) <= 1.0
  {
    if |s| > 0 {
      SumBounds(s, 0.0, 1.0);
      DivBetween(Sum(s), |s| as real, 0.0, 1.0);
    }
  }

  /** The average does not depend on the order of the scores. */
  lemma AverageOrderFree(s: seq<real>, t: seq<real>)
    requires multiset(s) == multiset(t)
    ensures AggregateAverage(s) == AggregateAverage(t)
  {
    assert |s| == |multiset(s)| == |multiset(t)| == |t|;
    SumPermutation(s, t);
  }

  /** Min and Max are members of a non-empty input and bound it; on unit
      scores they stay in the unit interval. */
  lemma MinMaxUnit(s: seq<real>)
    requires AllUnit(s)
    ensures 0.0 <= AggregateMin(s) <= 1.0
    ensures 0.0 <= AggregateMax(s) <= 1.0
  {
    if |s| > 0 {
      var i :| 0 <= i < |s| && s[i] == SeqMin(s);
      var j :| 0 <= j < |s| && s[j] == SeqMax(s);
    }
  }

  /** A product of unit scores is in [0,1] and no larger than any of them. */
  lemma {:induction false} ProductUnit(s: seq<real>)
    requires AllUnit(s)
    ensures 0.0 <= Product(s) <= 1.0
    ensures forall i :: 0 <= i < |s| ==> Product(s) <= s[i]
  {
    if |s| > 0 {
      var p := Product(s[..|s| - 1]);
      var x := s[|s| - 1];
      ProductUnit(s[..|s| - 1]);
      MulNonNeg(p, x);
      MulNonNeg(p, 1.0 - x);
      MulNonNeg(1.0 - p, x);
      assert Mul(p, x) == p - Mul(p, 1.0 - x);
      assert Mul(p, x) == x - Mul(1.0 - p, x);
      forall i | 0 <= i < |s|
        ensures Product(s) <= s[i]
      {
        if i < |s| - 1 {
          assert s[i] == s[..|s| - 1][i];
        }
      }
    }
  }

  /** Any zero score makes the product zero. */
  lemma {:induction false} ProductZero(s: seq<real>, i: int)
    requires 0 <= i < |s| && s[i] == 0.0
    ensures Product(s) == 0.0
  {
    if i < |s| - 1 {
      assert s[..|s| - 1][i] == 0.0;
      ProductZero(s[..|s| - 1], i);
    }
  }

  /** The product strategy on a single score returns that score. */
  lemma MultiplySingle(x: real)
    ensures AggregateMultiply([x]) == x
  {
    assert [x][..0] == [];
    assert Product([x]) == Mul(1.0, x);
  }

  /** The product strategy maps unit scores into [0,1], below each score,
      and is zero as soon as one score is. */
  lemma MultiplyProperties(s: seq<real>)
    requires AllUnit(s)
    ensures 0.0 <= AggregateMultiply(s) <= 1.0
    ensures forall i :: 0 <= i < |s| ==> AggregateMultiply(s) <= s[i]
    ensures (exists i :: 0 <= i < |s| && s[i] == 0.0) ==> AggregateMultiply(s) == 0.0
  {
    if |s| > 0 {
      ProductUnit(s);
      if exists i :: 0 <= i < |s| && s[i] == 0.0 {
        var i :| 0 <= i < |s| && s[i] == 0.0;
        ProductZero(s, i);
      }
    }
  }
}
