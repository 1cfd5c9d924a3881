/** The statistics of an experiment: a confidence interval and the comparison of two variants
    (internal/store/experiments.go). Reals stand for floating-point numbers. */
module Significance {

  /** The two functions taken from Go's library: the square root, and the cumulative distribution
      function of the normal distribution as the source builds it from the error function. */
  datatype Maths = Maths(sqrt: real -> real, cdf: real -> real)

  /** What the results below rest on. */
  ghost predicate Lawful(m: Maths) {
    && (forall x :: x >= 0.0 ==> m.sqrt(x) >= 0.0 && m.sqrt(x) * m.sqrt(x) == x)
    && (forall x :: m.cdf(x) + m.cdf(-x) == 1.0)
    && (forall x, y :: x < y ==> m.cdf(x) < m.cdf(y))
    && (forall x :: 0.0 <= m.cdf(x) <= 1.0)
  }

  function Abs(x: real): real {
    if x < 0.0 then -x else x
  }

  function Min(x: real, y: real): real {
    if x < y then x else y
  }

  function Max(x: real, y: real): real {
    if x < y then y else x
  }

  function Rate(c: nat, n: nat): real {
    if n > 0 then c as real / n as real else 0.0
  }

  function ConfidenceInterval(p: real, n: nat, m: Maths): (real, real) {
    if n == 0 || p <= 0.0 || p >= 1.0 then (p, p) else
      var margin := 1.96 * m.sqrt(p * (1.0 - p) / n as real);
      (Max(0.0, p - margin), Min(1.0, p + margin))
  }

  /** What is under the root for the rates' difference when they are taken for one rate p. */
  function PooledVariance(p: real, n1: nat, n2: nat): real
    requires n1 > 0 && n2 > 0
  {
    p * (1.0 - p) * (1.0 / n1 as real + 1.0 / n2 as real)
  }

  function Variance(p: real, n: nat): real
    requires n > 0
  {
    p * (1.0 - p) / n as real
  }

  function TwoTailed(z: real, m: Maths): real {
    var pValue := 2.0 * (1.0 - m.cdf(Abs(z)));
    if pValue < 0.0001 then 0.0001 else if pValue > 1.0 then 1.0 else pValue
  }

  function ChanceToWin(p1: real, n1: nat, p2: real, n2: nat, m: Maths): real
    requires n1 > 0 && n2 > 0
  {
    var seDiff := m.sqrt(Variance(p1, n1) + Variance(p2, n2));
    if seDiff > 0.0 then m.cdf((p2 - p1) / seDiff) else 0.5
  }

  /** The p-value and the chance to win of c2 out of n2 against c1 out of n1. */
  function CalculateSignificance(c1: nat, n1: nat, c2: nat, n2: nat, m: Maths): (real, real) {
    if n1 == 0 || n2 == 0 then (1.0, 0.5) else
      var p := Rate(c1 + c2, n1 + n2);
      if p <= 0.0 || p >= 1.0 then (1.0, 0.5) else
        var se := m.sqrt(PooledVariance(p, n1, n2));
        if se == 0.0 then (1.0, 0.5) else
          (TwoTailed((Rate(c2, n2) - Rate(c1, n1)) / se, m), ChanceToWin(Rate(c1, n1), n1, Rate(c2, n2), n2, m))
  }

  // ----- Signs -----

  lemma TimesKeepsSign(x: real, y: real)
    requires y > 0.0
    ensures (x * y > 0.0 <==> x > 0.0) && (x * y < 0.0 <==> x < 0.0)
  {
    if x > 0.0 {
      assert x * y > 0.0;
    } else if x < 0.0 {
      assert (-x) * y > 0.0;
    }
  }

  lemma OverKeepsSign(x: real, y: real)
    requires y > 0.0
    ensures (x / y > 0.0 <==> x > 0.0) && (x / y < 0.0 <==> x < 0.0)
  {
    var q := x / y;
    assert q * y == x;
    TimesKeepsSign(q, y);
  }

  /** What is compared when rates are: c2 * n1 against c1 * n2. */
  lemma RatesCompare(c1: nat, n1: nat, c2: nat, n2: nat)
    requires n1 > 0 && n2 > 0
    ensures Rate(c2, n2) > Rate(c1, n1) <==> c2 * n1 > c1 * n2
    ensures Rate(c2, n2) < Rate(c1, n1) <==> c2 * n1 < c1 * n2
  {
    var r1, r2 := Rate(c1, n1), Rate(c2, n2);
    var a, b := n1 as real, n2 as real;
    assert r1 * a == c1 as real && r2 * b == c2 as real;
    var d := r2 - r1;
    CrossMultiplied(r1, a, r2, b);
    TimesKeepsSign(d, a * b);
    assert (c2 * n1) as real == c2 as real * a && (c1 * n2) as real == c1 as real * b;
  }

  lemma CrossMultiplied(r1: real, a: real, r2: real, b: real)
    requires a > 0.0 && b > 0.0
    ensures (r2 - r1) * (a * b) == (r2 * b) * a - (r1 * a) * b && a * b > 0.0
  {
  }

  lemma RateBounds(c: nat, n: nat)
    requires c <= n
    ensures 0.0 <= Rate(c, n) <= 1.0
    ensures n > 0 ==> (Rate(c, n) == 0.0 <==> c == 0) && (Rate(c, n) == 1.0 <==> c == n)
  {
    if n > 0 {
      ShareBounds(Rate(c, n), n as real, c as real);
    }
  }

  lemma ShareBounds(r: real, y: real, p: real)
    requires r * y == p && 0.0 <= p <= y && y > 0.0
    ensures 0.0 <= r <= 1.0 && (r == 0.0 <==> p == 0.0) && (r == 1.0 <==> p == y)
  {
    TimesKeepsSign(r, y);
    TimesKeepsSign(1.0 - r, y);
    Complement(r, y);
  }

  lemma Complement(r: real, y: real)
    ensures (1.0 - r) * y == y - r * y
  {
  }

  lemma VarianceSign(c: nat, n: nat)
    requires c <= n && n > 0
    ensures Variance(Rate(c, n), n) >= 0.0
    ensures Variance(Rate(c, n), n) > 0.0 <==> 0 < c < n
  {
    var r := Rate(c, n);
    RateBounds(c, n);
    if 0 < c < n {
      TimesKeepsSign(r, 1.0 - r);
    } else {
      assert r * (1.0 - r) == 0.0;
    }
    OverKeepsSign(r * (1.0 - r), n as real);
  }

  lemma RootKeepsSign(x: real, m: Maths)
    requires Lawful(m) && x >= 0.0
    ensures m.sqrt(x) >= 0.0 && (m.sqrt(x) > 0.0 <==> x > 0.0)
  {
    SquareSign(m.sqrt(x), x);
  }

  lemma SquareSign(r: real, x: real)
    requires r >= 0.0 && r * r == x
    ensures r > 0.0 <==> x > 0.0
  {
    if r > 0.0 {
      Positive(r, r, x);
    } else {
      assert r == 0.0;
    }
  }

  lemma Positive(x: real, y: real, p: real)
    requires x > 0.0 && y > 0.0 && x * y == p
    ensures p > 0.0
  {
  }

  lemma PooledSign(p: real, n1: nat, n2: nat)
    requires 0.0 < p < 1.0 && n1 > 0 && n2 > 0
    ensures PooledVariance(p, n1, n2) > 0.0
  {
    OverKeepsSign(1.0, n1 as real);
    OverKeepsSign(1.0, n2 as real);
    TimesKeepsSign(p, 1.0 - p);
    TimesKeepsSign(p * (1.0 - p), 1.0 / n1 as real + 1.0 / n2 as real);
  }

  // ----- What the numbers mean -----

  /** The interval lies between 0 and 1 and holds the rate it is drawn around. */
  lemma IntervalHoldsTheRate(c: nat, n: nat, m: Maths)
    requires Lawful(m) && c <= n
    ensures var i := ConfidenceInterval(Rate(c, n), n, m); 0.0 <= i.0 <= Rate(c, n) <= i.1 <= 1.0
  {
    RateBounds(c, n);
    if n > 0 {
      VarianceSign(c, n);
      RootKeepsSign(Variance(Rate(c, n), n), m);
    }
  }

  /** The comparison is even exactly in the cases the source answers at once. */
  lemma PoolIsInner(c1: nat, n1: nat, c2: nat, n2: nat, m: Maths)
    requires Lawful(m) && c1 <= n1 && c2 <= n2 && n1 > 0 && n2 > 0
    ensures var p := Rate(c1 + c2, n1 + n2);
      (p <= 0.0 || p >= 1.0 <==> (c1 == 0 && c2 == 0) || (c1 == n1 && c2 == n2))
      && (0.0 < p < 1.0 ==> m.sqrt(PooledVariance(p, n1, n2)) > 0.0)
  {
    var p := Rate(c1 + c2, n1 + n2);
    RateBounds(c1 + c2, n1 + n2);
    if 0.0 < p < 1.0 {
      PooledSign(p, n1, n2);
      RootKeepsSign(PooledVariance(p, n1, n2), m);
    }
  }

  lemma TwoTailedMeans(z: real, m: Maths)
    requires Lawful(m)
    ensures 0.0001 <= TwoTailed(z, m) <= 1.0 && (TwoTailed(z, m) == 1.0 <==> z == 0.0)
  {
    assert m.cdf(0.0) + m.cdf(-0.0) == 1.0;
    if z != 0.0 {
      assert m.cdf(0.0) < m.cdf(Abs(z));
    }
  }

  /** A p-value lies between 0.0001 and 1, and is 1 exactly when the two rates are the same. */
  lemma OnlyEqualRatesSayNothing(c1: nat, n1: nat, c2: nat, n2: nat, m: Maths)
    requires Lawful(m) && c1 <= n1 && c2 <= n2
    ensures var pValue := CalculateSignificance(c1, n1, c2, n2, m).0;
      0.0001 <= pValue <= 1.0 && (pValue == 1.0 <==> c1 * n2 == c2 * n1)
  {
    if n1 > 0 && n2 > 0 {
      var p := Rate(c1 + c2, n1 + n2);
      PoolIsInner(c1, n1, c2, n2, m);
      RatesCompare(c1, n1, c2, n2);
      if 0.0 < p < 1.0 {
        var se := m.sqrt(PooledVariance(p, n1, n2));
        OverKeepsSign(Rate(c2, n2) - Rate(c1, n1), se);
        TwoTailedMeans((Rate(c2, n2) - Rate(c1, n1)) / se, m);
      }
    }
  }

  /** One variant converted everybody and the other nobody. */
  predicate AllAgainstNone(c1: nat, n1: nat, c2: nat, n2: nat) {
    n1 > 0 && n2 > 0 && ((c1 == 0 && c2 == n2) || (c1 == n1 && c2 == 0))
  }

  /** The chance to win tells which rate is higher, unless all stand against none: there the
      source divides by no spread and says 0.5, however clear the p-value. */
  lemma ChanceIsExact(c1: nat, n1: nat, c2: nat, n2: nat, m: Maths)
    requires Lawful(m) && c1 <= n1 && c2 <= n2
    ensures var chance := CalculateSignificance(c1, n1, c2, n2, m).1;
      && (((chance > 0.5 <==> c2 * n1 > c1 * n2) && (chance < 0.5 <==> c2 * n1 < c1 * n2))
          <==> !AllAgainstNone(c1, n1, c2, n2))
      && (AllAgainstNone(c1, n1, c2, n2) ==> chance == 0.5)
  {
    hide PooledVariance, Variance, TwoTailed;
    if n1 > 0 && n2 > 0 {
      PoolIsInner(c1, n1, c2, n2, m);
      RatesCompare(c1, n1, c2, n2);
      VarianceSign(c1, n1);
      VarianceSign(c2, n2);
      var r1, r2 := Rate(c1, n1), Rate(c2, n2);
      var spread := Variance(r1, n1) + Variance(r2, n2);
      RootKeepsSign(spread, m);
      if spread > 0.0 {
        var z := (r2 - r1) / m.sqrt(spread);
        OverKeepsSign(r2 - r1, m.sqrt(spread));
        CdfSign(z, m);
      }
      if AllAgainstNone(c1, n1, c2, n2) {
        RateBounds(c1, n1);
        RateBounds(c2, n2);
      }
    }
  }

  lemma CdfSign(z: real, m: Maths)
    requires Lawful(m)
    ensures (m.cdf(z) > 0.5 <==> z > 0.0) && (m.cdf(z) < 0.5 <==> z < 0.0)
  {
    assert m.cdf(0.0) + m.cdf(-0.0) == 1.0;
  }

  /** The p-value is that of the two-tailed test: the difference of the rates in units of its
      standard deviation, were both samples drawn at the rate p of the two together. */
  lemma PValueIsTheTwoTailedTest(c1: nat, n1: nat, c2: nat, n2: nat, m: Maths) returns (z: real, se: real, p: real)
    requires Lawful(m) && c1 <= n1 && c2 <= n2 && n1 > 0 && n2 > 0 && 0 < c1 + c2 < n1 + n2
    ensures p * (n1 + n2) as real == (c1 + c2) as real
    ensures se > 0.0 && se * se == p * (1.0 - p) * (1.0 / n1 as real + 1.0 / n2 as real)
    ensures z * se == Rate(c2, n2) - Rate(c1, n1)
    ensures var tails, pValue := 2.0 * (1.0 - m.cdf(Abs(z))), CalculateSignificance(c1, n1, c2, n2, m).0;
      pValue == if tails < 0.0001 then 0.0001 else tails
  {
    p := Rate(c1 + c2, n1 + n2);
    PoolIsInner(c1, n1, c2, n2, m);
    RateBounds(c1 + c2, n1 + n2);
    PooledSign(p, n1, n2);
    se := m.sqrt(PooledVariance(p, n1, n2));
    var d := Rate(c2, n2) - Rate(c1, n1);
    hide Rate, ChanceToWin;
    z := d / se;
    BackTimes(d, se, z);
    Halves(z, m);
  }

  lemma BackTimes(d: real, se: real, z: real)
    requires se > 0.0 && z == d / se
    ensures z * se == d
  {
  }

  lemma Halves(z: real, m: Maths)
    requires Lawful(m)
    ensures 2.0 * (1.0 - m.cdf(Abs(z))) <= 1.0
  {
    CdfSign(z, m);
    CdfSign(-z, m);
  }

  /** The margin of the interval is 1.96 standard deviations of the rate, cut at 0 and 1. */
  lemma MarginIsExact(c: nat, n: nat, m: Maths) returns (margin: real)
    requires Lawful(m) && 0 < c < n
    ensures margin >= 0.0 && margin * margin * n as real == 1.96 * 1.96 * (Rate(c, n) * (1.0 - Rate(c, n)))
    ensures var r, i := Rate(c, n), ConfidenceInterval(Rate(c, n), n, m);
      && i.0 == (if margin < r then r - margin else 0.0)
      && i.1 == if r + margin < 1.0 then r + margin else 1.0
  {
    RateBounds(c, n);
    VarianceSign(c, n);
    var v := Variance(Rate(c, n), n);
    var root := m.sqrt(v);
    RootKeepsSign(v, m);
    margin := 1.96 * root;
    SquareOfScaled(root, v, n as real, Rate(c, n) * (1.0 - Rate(c, n)));
  }

  lemma SquareOfScaled(root: real, v: real, y: real, p: real)
    requires root * root == v && v * y == p
    ensures (1.96 * root) * (1.96 * root) * y == 1.96 * 1.96 * p
  {
    assert (1.96 * root) * (1.96 * root) == 1.96 * 1.96 * v;
    assert 1.96 * 1.96 * v * y == 1.96 * 1.96 * (v * y);
  }

  /** Exchanging the two sides leaves the p-value alone and turns the chance round. */
  lemma SidesAreSymmetric(c1: nat, n1: nat, c2: nat, n2: nat, m: Maths)
    requires Lawful(m)
    ensures var r, s := CalculateSignificance(c1, n1, c2, n2, m), CalculateSignificance(c2, n2, c1, n1, m);
      r.0 == s.0 && r.1 + s.1 == 1.0
  {
    if n1 > 0 && n2 > 0 {
      var r1, r2 := Rate(c1, n1), Rate(c2, n2);
      assert c1 + c2 == c2 + c1 && n1 + n2 == n2 + n1;
      var p := Rate(c1 + c2, n1 + n2);
      assert PooledVariance(p, n1, n2) == PooledVariance(p, n2, n1);
      var se := m.sqrt(PooledVariance(p, n1, n2));
      if se != 0.0 {
        OppositeQuotient(r2, r1, se);
      }
      var seDiff := m.sqrt(Variance(r1, n1) + Variance(r2, n2));
      assert seDiff == m.sqrt(Variance(r2, n2) + Variance(r1, n1));
      if seDiff > 0.0 {
        OppositeQuotient(r2, r1, seDiff);
      }
    }
  }

  lemma OppositeQuotient(x: real, y: real, d: real)
    requires d != 0.0
    ensures (y - x) / d == -((x - y) / d)
  {
    var q := (x - y) / d;
    assert q * d == x - y;
    assert (-q) * d == y - x;
  }
}
