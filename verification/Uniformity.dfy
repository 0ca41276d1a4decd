/** The uniformity test of the hard zone's waiver (scripts/bench_hardzone.py): the relative spread of
    the shifted ratios. */
module Uniformity {

  const UNIFORM_MAX_CV: real := 0.15

  function Sum(xs: seq<real>): real { if xs == [] then 0.0 else xs[0] + Sum(xs[1..]) }

  function Square(x: real): real { x * x }

  /** Sum of squared distances from `m`. */
  function Spread(xs: seq<real>, m: real): real {
    if xs == [] then 0.0 else Square(xs[0] - m) + Spread(xs[1..], m)
  }

  function Mean(xs: seq<real>): real
    requires xs != []
  {
    Sum(xs) / |xs| as real
  }

  /** Sample variance, the square of Python's `statistics.stdev`. */
  function Variance(xs: seq<real>): real
    requires |xs| >= 2
  {
    Spread(xs, Mean(xs)) / (|xs| - 1) as real
  }

  /** Sample standard deviation at most 0.15 of the mean, with both sides squared. */
  predicate IsUniform(xs: seq<real>) { |xs| >= 2 && Variance(xs) <= Square(UNIFORM_MAX_CV * Mean(xs)) }

  function Scale(c: real, xs: seq<real>): (r: seq<real>)
    ensures |r| == |xs|
  {
    if xs == [] then [] else [c * xs[0]] + Scale(c, xs[1..])
  }

  lemma {:induction false} ScaleSum(c: real, xs: seq<real>)
    ensures Sum(Scale(c, xs)) == c * Sum(xs)
  {
    if xs != [] {
      ScaleSum(c, xs[1..]);
      assert Scale(c, xs)[1..] == Scale(c, xs[1..]);
      Distribute(c, xs[0], Sum(xs[1..]));
    }
  }

  lemma Distribute(c: real, x: real, y: real)
    ensures c * (x + y) == c * x + c * y && c * (x - y) == c * x - c * y
  {
  }

  lemma ScaleSquare(c: real, x: real, y: real)
    requires y == c * x
    ensures Square(y) == Square(c) * Square(x)
  {
  }

  lemma {:induction false} ScaleSpread(c: real, xs: seq<real>, m: real, k: real)
    requires k == c * m
    ensures Spread(Scale(c, xs), k) == Square(c) * Spread(xs, m)
  {
    if xs != [] {
      ScaleSpread(c, xs[1..], m, k);
      assert Scale(c, xs)[1..] == Scale(c, xs[1..]);
      Distribute(c, xs[0], m);
      ScaleSquare(c, xs[0] - m, c * xs[0] - k);
      Distribute(Square(c), Square(xs[0] - m), Spread(xs[1..], m));
    }
  }

  lemma DivideScaled(c: real, x: real, y: real, n: real, u: real, v: real)
    requires n > 0.0 && y == c * x && u == x / n && v == y / n
    ensures v == c * u
  {
    assert x == u * n && y == v * n;
    assert (v - c * u) * n == 0.0;
  }

  lemma CompareScaled(k: real, x: real, y: real, u: real, v: real)
    requires k > 0.0 && u == k * x && v == k * y
    ensures u <= v <==> x <= y
  {
    assert v - u == k * (y - x);
  }

  lemma ScaleMean(c: real, xs: seq<real>)
    requires xs != []
    ensures Mean(Scale(c, xs)) == c * Mean(xs)
  {
    var ys := Scale(c, xs);
    ScaleSum(c, xs);
    hide Sum, Scale;
    DivideScaled(c, Sum(xs), Sum(ys), |xs| as real, Mean(xs), Mean(ys));
  }

  lemma ScaleVariance(c: real, xs: seq<real>)
    requires |xs| >= 2
    ensures Variance(Scale(c, xs)) == Square(c) * Variance(xs)
  {
    hide Sum, Scale, Spread, Mean, Square;
    var ys := Scale(c, xs);
    var m, k := Mean(xs), Mean(ys);
    ScaleMean(c, xs);
    ScaleSpread(c, xs, m, k);
    DivideScaled(Square(c), Spread(xs, m), Spread(ys, k), (|xs| - 1) as real, Variance(xs), Variance(ys));
  }

  lemma ProductPositive(a: real, b: real, p: real)
    requires a > 0.0 && b > 0.0 && p == a * b
    ensures p > 0.0
  {
  }

  lemma SquareNonNegative(x: real)
    ensures Square(x) >= 0.0 && (x != 0.0 ==> Square(x) > 0.0)
  {
    if x > 0.0 {
      ProductPositive(x, x, Square(x));
    } else if x < 0.0 {
      ProductPositive(-x, -x, Square(x));
    }
  }

  /** Uniformity looks only at the proportions of the ratios: a run slowed down further by one common
      factor is exactly as uniform. */
  lemma UniformityIsScaleFree(c: real, xs: seq<real>)
    requires c > 0.0
    ensures IsUniform(Scale(c, xs)) <==> IsUniform(xs)
  {
    if |xs| >= 2 {
      var ys := Scale(c, xs);
      ScaleMean(c, xs);
      ScaleVariance(c, xs);
      SquareNonNegative(c);
      var limit, scaled := UNIFORM_MAX_CV * Mean(xs), UNIFORM_MAX_CV * Mean(ys);
      ScaleSquare(c, limit, scaled);
      hide Variance, Mean, Square, Scale;
      CompareScaled(Square(c), Variance(xs), Square(limit), Variance(ys), Square(scaled));
    }
  }

  /** A shift by the same ratio everywhere is uniform, unless it is a single metric. */
  lemma EqualShiftIsUniform(xs: seq<real>, x: real)
    requires forall i | 0 <= i < |xs| :: xs[i] == x
    ensures IsUniform(xs) <==> |xs| >= 2
  {
    if |xs| >= 2 {
      EqualSums(xs, x);
      var n: real := |xs| as real;
      assert Mean(xs) == x by { DivideScaled(x, n, Sum(xs), n, 1.0, Mean(xs)); }
      SquareNonNegative(UNIFORM_MAX_CV * Mean(xs));
    }
  }

  lemma {:induction false} EqualSums(xs: seq<real>, x: real)
    requires forall i | 0 <= i < |xs| :: xs[i] == x
    ensures Sum(xs) == |xs| as real * x && Spread(xs, x) == 0.0
  {
    if xs != [] {
      EqualSums(xs[1..], x);
      assert |xs| as real * x == x + (|xs| - 1) as real * x by { assert |xs| as real == 1.0 + (|xs| - 1) as real; }
    }
  }

  lemma SpreadStep(x: real, m: real)
    ensures Square(x - m) == Square(x) - 2.0 * (m * x) + Square(m)
  {
  }

  lemma {:induction false} SpreadIs(xs: seq<real>, m: real)
    ensures Spread(xs, m) == Spread(xs, 0.0) - 2.0 * (m * Sum(xs)) + |xs| as real * Square(m)
  {
    if xs != [] {
      SpreadIs(xs[1..], m);
      hide Square;
      var n: real, s, mm := (|xs| - 1) as real, Sum(xs[1..]), Square(m);
      SpreadStep(xs[0], m);
      Distribute(m, xs[0], s);
      assert |xs| as real == 1.0 + n;
      assert |xs| as real * mm == mm + n * mm;
      assert xs[0] - 0.0 == xs[0];
    }
  }

  lemma SumIsMean(xs: seq<real>)
    requires xs != []
    ensures Sum(xs) == |xs| as real * Mean(xs)
  {
  }

  lemma SpreadOfMean(n: real, s: real, q: real, m: real, d: real)
    requires n > 0.0 && s == n * m && d == q - 2.0 * (m * s) + n * Square(m)
    ensures n * d == n * q - Square(s)
  {
    ScaleSquare(n, m, s);
    assert n * (m * s) == s * s;
    assert n * (n * Square(m)) == Square(s);
    assert n * d == n * q - 2.0 * (n * (m * s)) + n * (n * Square(m));
  }

  lemma TestScaled(n: real, k: real, s: real, q: real, m: real, d: real, v: real)
    requires n > 0.0 && k > 0.0 && s == n * m && n * d == n * q - Square(s) && d == v * k
    ensures v <= Square(UNIFORM_MAX_CV * m) <==> n * (n * q - Square(s)) <= 0.0225 * (k * Square(s))
  {
    var limit, factor := Square(UNIFORM_MAX_CV * m), Square(n) * k;
    ScaleSquare(n, m, s);
    ScaleSquare(UNIFORM_MAX_CV, m, UNIFORM_MAX_CV * m);
    SquareNonNegative(n);
    ProductPositive(Square(n), k, factor);
    assert factor * v == n * (n * d);
    assert factor * limit == 0.0225 * (k * Square(s));
    CompareScaled(factor, v, limit, factor * v, factor * limit);
  }

  /** The test in terms of the sum `s` of the ratios and the sum `q` of their squares. */
  lemma UniformIff(xs: seq<real>)
    requires |xs| >= 2
    ensures var n: real, s, q := |xs| as real, Sum(xs), Spread(xs, 0.0);
            IsUniform(xs) <==> n * (n * q - Square(s)) <= 0.0225 * ((n - 1.0) * Square(s))
  {
    hide Square, Spread, Sum, Variance, Mean;
    var n: real, s, q, m := |xs| as real, Sum(xs), Spread(xs, 0.0), Mean(xs);
    SumIsMean(xs);
    SpreadIs(xs, m);
    SpreadOfMean(n, s, q, m, Spread(xs, m));
    VarianceTimes(xs);
    assert n - 1.0 == (|xs| - 1) as real;
    SameProduct(n - 1.0, (|xs| - 1) as real, Variance(xs), Variance(xs));
    TestScaled(n, n - 1.0, s, q, m, Spread(xs, m), Variance(xs));
  }

  /** Sum of distances from `m`. */
  function Drift(xs: seq<real>, m: real): real { if xs == [] then 0.0 else xs[0] - m + Drift(xs[1..], m) }

  lemma {:induction false} DriftIs(xs: seq<real>, m: real)
    ensures Drift(xs, m) == Sum(xs) - |xs| as real * m
  {
    if xs != [] {
      DriftIs(xs[1..], m);
      assert |xs| as real * m == m + (|xs| - 1) as real * m by { assert |xs| as real == 1.0 + (|xs| - 1) as real; }
    }
  }

  lemma {:induction false} LeaveOut(xs: seq<real>, m: real, i: nat)
    requires i < |xs|
    ensures var rest := xs[..i] + xs[i + 1..];
            && Drift(xs, m) == xs[i] - m + Drift(rest, m)
            && Spread(xs, m) == Square(xs[i] - m) + Spread(rest, m)
  {
    hide Square;
    var rest := xs[..i] + xs[i + 1..];
    if i == 0 {
      assert rest == xs[1..];
    } else {
      LeaveOut(xs[1..], m, i - 1);
      assert rest[0] == xs[0] && rest[1..] == xs[1..][..i - 1] + xs[1..][i..];
    }
  }

  lemma SquareOfSum(a: real, b: real)
    ensures Square(a + b) == Square(a) + 2.0 * (a * b) + Square(b)
    ensures Square(a - b) == Square(a) - 2.0 * (a * b) + Square(b)
  {
  }

  lemma FactorNonNegative(n: real, x: real, p: real)
    requires n > 0.0 && p == n * x && p >= 0.0
    ensures x >= 0.0
  {
    if x < 0.0 { ProductPositive(n, -x, -p); }
  }

  lemma CauchyStep(n: real, a: real, s: real, q: real)
    requires n > 0.0 && Square(s) <= n * q
    ensures Square(a + s) <= (n + 1.0) * (Square(a) + q)
  {
    var aa, cross := Square(a), a * s;
    SquareOfSum(a, s);
    SquareOfSum(n * a, s);
    SquareNonNegative(n * a - s);
    ScaleSquare(n, a, n * a);
    assert Square(n * a - s) == n * n * aa - 2.0 * (n * cross) + Square(s) by { assert n * a * s == n * cross; }
    var gap := n * aa + q - 2.0 * cross;
    assert n * gap == n * n * aa + n * q - 2.0 * (n * cross);
    FactorNonNegative(n, gap, n * gap);
    assert (n + 1.0) * (aa + q) == n * aa + n * q + aa + q;
  }

  /** The square of a sum is at most the number of terms times the sum of their squares. */
  lemma {:induction false} CauchySchwarz(xs: seq<real>, m: real)
    ensures Square(Drift(xs, m)) <= |xs| as real * Spread(xs, m)
  {
    hide Square;
    if |xs| == 1 {
      assert xs[1..] == [];
    } else if |xs| > 1 {
      CauchySchwarz(xs[1..], m);
      var n: real, a, s, q := (|xs| - 1) as real, xs[0] - m, Drift(xs[1..], m), Spread(xs[1..], m);
      CauchyStep(n, a, s, q);
      SameProduct(|xs| as real, n + 1.0, Spread(xs, m), Square(a) + q);
    } else {
      SquareZero();
    }
  }

  lemma SquareZero()
    ensures Square(0.0) == 0.0
  {
  }

  lemma SameProduct(a: real, b: real, x: real, y: real)
    requires a == b && x == y
    ensures a * x == b * y
  {
  }

  lemma DistanceWithin(n: real, d: real, rest: real, v: real, limit: real)
    requires n >= 1.0 && Square(d) <= n * rest && Square(d) + rest == v * n && v <= limit
    ensures (n + 1.0) * Square(d) <= Square(n) * limit
  {
    assert (n + 1.0) * Square(d) == n * Square(d) + Square(d);
    assert n * Square(d) + n * rest == n * (v * n) == Square(n) * v;
    SquareNonNegative(n);
    assert Square(n) * (limit - v) >= 0.0;
  }

  /** The distance of one ratio against the spread of the others, which balances it. */
  lemma OneAgainstRest(xs: seq<real>, i: nat)
    requires |xs| >= 2 && i < |xs|
    ensures var m, n: real := Mean(xs), (|xs| - 1) as real;
            var d, rest := xs[i] - m, Spread(xs[..i] + xs[i + 1..], m);
            Square(d) <= n * rest && Square(d) + rest == Variance(xs) * n
  {
    var m := Mean(xs);
    LeaveOut(xs, m, i);
    NoDrift(xs);
    CauchySchwarz(xs[..i] + xs[i + 1..], m);
    NegatedSquare(xs[i] - m);
    VarianceTimes(xs);
    hide Square, Drift, Spread, Variance, Mean;
    assert Drift(xs[..i] + xs[i + 1..], m) == -(xs[i] - m);
  }

  /** No ratio of a uniform shift of `n` metrics strays far: `n` times its squared distance from the mean
      is within `(n - 1)^2` times the squared allowance. */
  lemma UniformBoundsEachRatio(xs: seq<real>, i: nat)
    requires IsUniform(xs) && i < |xs|
    ensures |xs| as real * Square(xs[i] - Mean(xs)) <= Square((|xs| - 1) as real) * Square(UNIFORM_MAX_CV * Mean(xs))
  {
    hide Square, Spread, Variance, Mean;
    OneAgainstRest(xs, i);
    var m: real, n: real := Mean(xs), (|xs| - 1) as real;
    DistanceWithin(n, xs[i] - m, Spread(xs[..i] + xs[i + 1..], m), Variance(xs), Square(UNIFORM_MAX_CV * m));
    SameProduct(|xs| as real, n + 1.0, Square(xs[i] - m), Square(xs[i] - m));
  }

  lemma NoDrift(xs: seq<real>)
    requires xs != []
    ensures Drift(xs, Mean(xs)) == 0.0
  {
    DriftIs(xs, Mean(xs));
  }

  lemma VarianceTimes(xs: seq<real>)
    requires |xs| >= 2
    ensures Spread(xs, Mean(xs)) == Variance(xs) * (|xs| - 1) as real
  {
  }

  lemma NegatedSquare(d: real)
    ensures Square(-d) == Square(d)
  {
  }
}
