/** Noise quantiles and the soft and hard alert thresholds derived from them
    (scripts/bench-thresholds.py). */
module NoiseThresholds {
  import opened Basics
  import opened OrderStatistics
  import opened Sums

  // ----- quantiles ---------------------------------------------------------------------

  function Ceil(x: real): int { -((-x).Floor) }

  lemma ScaleMonotone(p: real, q: real, m: real)
    requires p <= q && m >= 0.0
    ensures p * m <= q * m
  {
    var d := q - p;
    assert d * m >= 0.0;
    assert q * m == p * m + d * m;
  }

  lemma Fraction(q: real, m: real)
    requires 0.0 <= q <= 1.0 && m >= 0.0
    ensures 0.0 <= q * m <= m
  {
    var rest := (1.0 - q) * m;
    assert rest >= 0.0 && q * m + rest == m;
  }

  function Mix(a: real, b: real, f: real): real { a * (1.0 - f) + b * f }

  lemma MixIsStep(a: real, b: real, f: real)
    ensures Mix(a, b, f) == a + f * (b - a)
  {
  }

  lemma MixMonotone(a: real, b: real, f: real, g: real)
    requires a <= b && f <= g
    ensures Mix(a, b, f) <= Mix(a, b, g)
  {
    MixIsStep(a, b, f);
    MixIsStep(a, b, g);
    ScaleMonotone(f, g, b - a);
  }

  lemma MixBetween(a: real, b: real, f: real)
    requires a <= b && 0.0 <= f <= 1.0
    ensures a <= Mix(a, b, f) <= b
  {
    MixMonotone(a, b, 0.0, f);
    MixMonotone(a, b, f, 1.0);
  }

  /** The value at fractional index `pos`, interpolated between its neighbours. */
  function Interpolate(s: seq<real>, pos: real): real
    requires s != [] && 0.0 <= pos <= (|s| - 1) as real
  {
    var lo, hi := pos.Floor, Ceil(pos);
    if lo == hi then s[lo] else Mix(s[lo], s[hi], pos - lo as real)
  }

  /** The fractional index of the `q`-quantile among `n` samples. */
  function Position(n: nat, q: real): (pos: real)
    requires n >= 1 && 0.0 <= q <= 1.0
    ensures 0.0 <= pos <= (n - 1) as real
  {
    var m: real := (n - 1) as real;
    Fraction(q, m);
    q * m
  }

  function Quantile(s: seq<real>, q: real): real
    requires 0.0 <= q <= 1.0
  {
    if s == [] then 0.0
    else if |s| == 1 then s[0]
    else Interpolate(s, Position(|s|, q))
  }

  lemma InterpolateBetween(s: seq<real>, pos: real)
    requires Ascending(s) && s != [] && 0.0 <= pos <= (|s| - 1) as real
    ensures s[pos.Floor] <= Interpolate(s, pos) <= s[Ceil(pos)]
    ensures Ceil(pos) <= pos.Floor + 1
  {
    var lo, hi := pos.Floor, Ceil(pos);
    if lo != hi { MixBetween(s[lo], s[hi], pos - lo as real); }
  }

  lemma InterpolateMonotone(s: seq<real>, p: real, q: real)
    requires Ascending(s) && s != [] && 0.0 <= p <= q <= (|s| - 1) as real
    ensures Interpolate(s, p) <= Interpolate(s, q)
  {
    InterpolateBetween(s, p);
    InterpolateBetween(s, q);
    var lo := p.Floor;
    if Ceil(p) <= q.Floor {
      assert s[Ceil(p)] <= s[q.Floor];
    } else {
      assert q.Floor == lo && Ceil(p) == Ceil(q) == lo + 1;
      MixMonotone(s[lo], s[lo + 1], p - lo as real, q - lo as real);
    }
  }

  lemma PositionMonotone(n: nat, p: real, q: real)
    requires n >= 1 && 0.0 <= p <= q <= 1.0
    ensures Position(n, p) <= Position(n, q)
  {
    ScaleMonotone(p, q, (n - 1) as real);
  }

  /** At index `q * (n - 1)`, between the two samples around it. */
  lemma QuantileIs(s: seq<real>, q: real, k: nat)
    requires s != [] && 0.0 <= q <= 1.0 && k < |s| && k as real <= q * (|s| - 1) as real < k as real + 1.0
    ensures Quantile(s, q)
         == if k == |s| - 1 then s[k] else s[k] + (q * (|s| - 1) as real - k as real) * (s[k + 1] - s[k])
  {
    if |s| > 1 {
      var pos := Position(|s|, q);
      assert pos.Floor == k;
      if pos == k as real {
        assert Ceil(pos) == k;
      } else {
        assert Ceil(pos) == k + 1;
        MixIsStep(s[k], s[k + 1], pos - k as real);
      }
    }
  }

  /** Quantiles of sorted samples grow with `q` and stay among the samples. */
  lemma QuantileMonotone(s: seq<real>, p: real, q: real)
    requires Ascending(s) && s != [] && 0.0 <= p <= q <= 1.0
    ensures Quantile(s, p) <= Quantile(s, q) <= s[|s| - 1]
  {
    if |s| > 1 {
      PositionMonotone(|s|, p, q);
      InterpolateMonotone(s, Position(|s|, p), Position(|s|, q));
      InterpolateBetween(s, Position(|s|, q));
    }
  }

  function CountAtMost(s: seq<real>, x: real): nat {
    if s == [] then 0 else CountAtMost(s[..|s| - 1], x) + if s[|s| - 1] <= x then 1 else 0
  }

  lemma {:induction false} CountPrefix(s: seq<real>, x: real, k: nat)
    requires k <= |s| && forall i | 0 <= i < k :: s[i] <= x
    ensures CountAtMost(s, x) >= k
  {
    if s != [] { CountPrefix(s[..|s| - 1], x, if k == |s| then k - 1 else k); }
  }

  /** At least `floor(q * (n - 1)) + 1` samples lie at or below the quantile. */
  lemma QuantileCoversSamples(s: seq<real>, q: real)
    requires Ascending(s) && s != [] && 0.0 <= q <= 1.0
    ensures CountAtMost(s, Quantile(s, q)) >= Position(|s|, q).Floor + 1
  {
    var pos := Position(|s|, q);
    if |s| == 1 {
      CountPrefix(s, s[0], 1);
    } else {
      InterpolateBetween(s, pos);
      CountPrefix(s, Quantile(s, q), pos.Floor + 1);
    }
  }

  lemma {:induction false} SortedIsIdentity(s: seq<real>)
    requires Ascending(s)
    ensures Sorted(s) == s
  {
    if s != [] {
      SortedIsIdentity(s[1..]);
      assert s == [s[0]] + s[1..];
    }
  }

  /** The quantile at one half is the median. */
  lemma HalfQuantileIsMedian(s: seq<real>)
    requires Ascending(s) && s != []
    ensures Quantile(s, 0.5) == Median(s)
  {
    SortedIsIdentity(s);
    var n := |s|;
    if n > 1 {
      var pos := Position(n, 0.5);
      if n % 2 == 1 {
        assert pos == (n / 2) as real;
      } else {
        assert pos == (n / 2 - 1) as real + 0.5;
        assert pos.Floor == n / 2 - 1 && Ceil(pos) == n / 2;
      }
    }
  }

  // ----- the summary -------------------------------------------------------------------

  /** A fraction as a percentage with two decimals. */
  function Percent(x: real): real { RoundEven(x * 100.0 * 100.0) as real / 100.0 }

  lemma PercentMonotone(x: real, y: real)
    requires x <= y
    ensures Percent(x) <= Percent(y)
  {
    assert RoundEven(x * 100.0 * 100.0) <= RoundEven(y * 100.0 * 100.0);
  }

  lemma HundredthIs(y: real, n: int)
    requires n as real - 0.5 <= y <= n as real + 0.5
    ensures y / 100.0 - 0.005 <= n as real / 100.0 <= y / 100.0 + 0.005
    ensures (100.0 * (n as real / 100.0)).Floor == n
  {
  }

  /** Within half a hundredth of the percentage, and a multiple of a hundredth. */
  lemma PercentIs(x: real)
    ensures 100.0 * x - 0.005 <= Percent(x) <= 100.0 * x + 0.005
    ensures (100.0 * Percent(x)).Floor as real == 100.0 * Percent(x)
  {
    var y := x * 100.0 * 100.0;
    var n := RoundEven(y);
    RoundEvenIs(y, n);
    HundredthIs(y, n);
    hide RoundEven;
  }

  datatype Summary = NoPairs
                   | Summary(metrics: nat, pairs: nat, median: real, p90: real, p95: real, p99: real, max: real)

  /** The number of metrics in the category. */
  function MetricsIn(changes: seq<(string, seq<real>)>, inCategory: string -> bool): nat {
    if changes == [] then 0 else
    MetricsIn(changes[..|changes| - 1], inCategory) + if inCategory(changes[|changes| - 1].0) then 1 else 0
  }

  function PoolOf(changes: seq<(string, seq<real>)>, inCategory: string -> bool): seq<real> {
    if changes == [] then [] else
    PoolOf(changes[..|changes| - 1], inCategory) +
    if inCategory(changes[|changes| - 1].0) then changes[|changes| - 1].1 else []
  }

  /** The changes of the category's metrics, in order, and no others. */
  lemma {:induction false} PoolIs(a: seq<(string, seq<real>)>, b: seq<(string, seq<real>)>, inCategory: string -> bool)
    ensures PoolOf(a + b, inCategory) == PoolOf(a, inCategory) + PoolOf(b, inCategory)
    ensures MetricsIn(a + b, inCategory) == MetricsIn(a, inCategory) + MetricsIn(b, inCategory)
    ensures |a| == 1 ==> PoolOf(a, inCategory) == (if inCategory(a[0].0) then a[0].1 else [])
    ensures |a| == 1 ==> MetricsIn(a, inCategory) == (if inCategory(a[0].0) then 1 else 0)
    decreases |b|
  {
    if b == [] {
      assert a + b == a;
    } else {
      var init := b[..|b| - 1];
      assert (a + b)[..|a + b| - 1] == a + init && (a + b)[|a + b| - 1] == b[|b| - 1];
      PoolIs(a, init, inCategory);
    }
  }

  function SummaryOf(pool: seq<real>, metrics: nat): Summary {
    if pool == [] then NoPairs else
    var s := Sorted(pool);
    Summary(metrics, |s|, Percent(Median(s)), Percent(Quantile(s, 0.90)), Percent(Quantile(s, 0.95)),
            Percent(Quantile(s, 0.99)), Percent(s[|s| - 1]))
  }

  /** Pools the changes of one category's metrics, sorts and summarises them. */
  method Summarize(changes: seq<(string, seq<real>)>, inCategory: string -> bool) returns (r: Summary)
    ensures r == SummaryOf(PoolOf(changes, inCategory), MetricsIn(changes, inCategory))
  {
    var pool, metrics := [], 0;
    for i := 0 to |changes|
      invariant pool == PoolOf(changes[..i], inCategory) && metrics == MetricsIn(changes[..i], inCategory)
    {
      assert changes[..i + 1][..i] == changes[..i];
      if inCategory(changes[i].0) { pool, metrics := pool + changes[i].1, metrics + 1; }
    }
    assert changes[..|changes|] == changes;
    r := SummaryOf(pool, metrics);
  }

  lemma QuantilesOrdered(s: seq<real>)
    requires Ascending(s) && s != []
    ensures Median(s) <= Quantile(s, 0.90) <= Quantile(s, 0.95) <= Quantile(s, 0.99) <= s[|s| - 1]
  {
    HalfQuantileIsMedian(s);
    QuantileMonotone(s, 0.5, 0.90);
    QuantileMonotone(s, 0.90, 0.95);
    QuantileMonotone(s, 0.95, 0.99);
  }

  lemma LargestChange(pool: seq<real>, x: real)
    requires x in pool
    ensures var s := Sorted(pool); x <= s[|s| - 1] && s[|s| - 1] in pool
  {
    var s := Sorted(pool);
    SortedAscends(pool);
    SameMembers(pool, s, x);
    var i :| 0 <= i < |s| && s[i] == x;
    SameMembers(s, pool, s[|s| - 1]);
  }

  /** What is published of a pool: how many metrics and changes, and as percentages the quantiles at 0.5, 0.9,
      0.95 and 0.99 and the largest of the changes in order. */
  lemma SummaryIs(pool: seq<real>, metrics: nat)
    ensures SummaryOf([], metrics) == NoPairs
    ensures pool != [] ==>
              var s := Sorted(pool);
              SummaryOf(pool, metrics) ==
                Summary(metrics, |pool|, Percent(Quantile(s, 0.5)), Percent(Quantile(s, 0.9)),
                        Percent(Quantile(s, 0.95)), Percent(Quantile(s, 0.99)), Percent(Quantile(s, 1.0)))
  {
    if pool != [] {
      var s := Sorted(pool);
      SortedAscends(pool);
      HalfQuantileIsMedian(s);
      QuantileIs(s, 1.0, |s| - 1);
      hide Quantile, Median, Percent, Sorted;
    }
  }

  /** The published percentages are ordered, rounding included, and the last is the largest change. */
  lemma SummaryIsOrdered(pool: seq<real>, metrics: nat)
    requires pool != []
    ensures var r := SummaryOf(pool, metrics);
            && r.Summary? && r.metrics == metrics && r.pairs == |pool|
            && r.median <= r.p90 <= r.p95 <= r.p99 <= r.max
            && (forall x | x in pool :: Percent(x) <= r.max) && exists x | x in pool :: Percent(x) == r.max
  {
    var s := Sorted(pool);
    SortedAscends(pool);
    QuantilesOrdered(s);
    PercentMonotone(Median(s), Quantile(s, 0.90));
    PercentMonotone(Quantile(s, 0.90), Quantile(s, 0.95));
    PercentMonotone(Quantile(s, 0.95), Quantile(s, 0.99));
    PercentMonotone(Quantile(s, 0.99), s[|s| - 1]);
    forall x | x in pool ensures Percent(x) <= Percent(s[|s| - 1]) {
      LargestChange(pool, x);
      PercentMonotone(x, s[|s| - 1]);
    }
    LargestChange(pool, pool[0]);
  }

  // ----- thresholds --------------------------------------------------------------------

  function CeilToFive(x: real): int { Ceil(x / 5.0) * 5 }

  function Min(a: int, b: int): int { if a <= b then a else b }
  function Max(a: int, b: int): int { if a >= b then a else b }

  /** Too little history to derive thresholds from. */
  predicate TooLittle(timing: Summary, runs: nat) { timing.NoPairs? || timing.pairs == 0 || runs < 5 }

  /** Soft and hard alert percentages; fixed ones when there is too little history. Otherwise soft is the
      least multiple of five, from 125 on, with 30 points of headroom over the p95 swing; and hard the
      least one, from 150 to 200, over the worst swing, moved 25 points past soft when it is not above it.
      The cap can keep hard from exceeding soft: it does exactly when the p95 swing is over 65%. */
  method DeriveThresholds(timing: Summary, runs: nat) returns (soft: int, hard: int)
    ensures 150 <= hard <= 200 && hard % 5 == 0 && soft % 5 == 0
    ensures hard > soft <==> TooLittle(timing, runs) || timing.p95 <= 65.0
    ensures TooLittle(timing, runs) ==> soft == 130 && hard == 200
    ensures !TooLittle(timing, runs) ==>
              && soft >= 125 && soft as real >= 130.0 + timing.p95
              && (soft == 125 || soft as real < 135.0 + timing.p95)
    ensures !TooLittle(timing, runs) ==>
              && hard as real >= (if timing.max <= 100.0 then 100.0 + timing.max else 200.0)
              && (|| hard == 150 || (hard as real) < 105.0 + timing.max
                  || (hard == Min(soft + 25, 200) && (100.0 + timing.max <= soft as real || soft >= 200)))
  {
    if timing.NoPairs? || timing.pairs == 0 || runs < 5 { return 130, 200; }
    soft := CeilToFive(100.0 + timing.p95 + 30.0);
    soft := Max(soft, 125);
    hard := CeilToFive(100.0 + timing.max);
    hard := Max(hard, 150);
    hard := Min(hard, 200);
    if hard <= soft { hard := Min(Max(soft + 25, 150), 200); }
  }
}
