/** Measurement resolution of a published metric (scripts/bench_hardzone.py): the decimal step its
    values demonstrate, and the smallest ratio two values rounded to that step can stand for. */
module Resolution {

  const TOLERANCE: real := 0.000000000001
  const DECADES: nat := 10
  const HARD_RATIO: real := 2.0

  function Pow10(e: int): (r: real)
    ensures r > 0.0
    decreases if e < 0 then -e else e
  {
    if e == 0 then 1.0 else if e > 0 then 10.0 * Pow10(e - 1) else Pow10(e + 1) / 10.0
  }

  lemma {:induction false} Pow10Falls(e: int, k: nat)
    ensures Pow10(e - k) <= Pow10(e)
  {
    if k > 0 {
      Pow10Falls(e, k - 1);
      assert Pow10(e - k) * 10.0 == Pow10(e - k + 1);
    }
  }

  /** Powers of ten, negative exponents included. */
  lemma Pow10Steps(e: int)
    ensures Pow10(0) == 1.0 && Pow10(e + 1) == 10.0 * Pow10(e)
  {
    if e < 0 { assert Pow10(e) == Pow10(e + 1) / 10.0; }
  }

  function Abs(x: real): real { if x < 0.0 then -x else x }

  /** Distance from `x` to the nearest integer. */
  function Gap(x: real): real {
    var f := x - x.Floor as real;
    if f <= 0.5 then f else 1.0 - f
  }

  /** `v` is a multiple of `q`, up to the tolerance the script allows. */
  predicate OnGrid(v: real, q: real)
    requires q > 0.0
  {
    Gap(Abs(v) / q) * q <= TOLERANCE * (1.0 + Abs(v))
  }

  lemma GapNearest(x: real, k: int)
    ensures Gap(x) <= Abs(x - k as real)
  {
    var n, d: real := x.Floor, k as real;
    if k <= n { assert d <= n as real; } else { assert d >= (n + 1) as real; }
  }

  lemma GapAttained(x: real) returns (k: int)
    ensures Gap(x) == Abs(x - k as real)
  {
    var n := x.Floor;
    k := if x - n as real <= 0.5 then n else n + 1;
  }

  /** Distances from the multiples of `q` are `q` times those from the integers. */
  lemma ScaledDistance(w: real, q: real, k: int)
    requires q > 0.0
    ensures Abs(w / q - k as real) * q == Abs(w - k as real * q)
  {
    var x: real, n: real := w / q, k as real;
    assert w == x * q;
    var d, p := x - n, n * q;
    assert w - p == d * q;
    if d >= 0.0 { assert d * q >= 0.0; } else { assert -d * q > 0.0; }
  }

  /** `v` lies within the tolerance of the `k`th multiple of `q`. */
  ghost predicate IsNear(v: real, q: real, k: int) {
    Abs(Abs(v) - k as real * q) <= 0.000000000001 * (1.0 + Abs(v))
  }

  lemma ScaledLess(a: real, b: real, q: real)
    requires a <= b && q > 0.0
    ensures a * q <= b * q
  {
    assert (b - a) * q >= 0.0;
  }

  /** A value is on the grid exactly when it is within 1e-12, absolute and relative, of some multiple. */
  lemma OnGridIff(v: real, q: real)
    requires q > 0.0
    ensures OnGrid(v, q) <==> exists k :: IsNear(v, q, k)
  {
    hide Gap, Abs;
    var w := Abs(v);
    var n := GapAttained(w / q);
    ScaledDistance(w, q, n);
    ScaledLess(Abs(w / q - n as real), Gap(w / q), q);
    if OnGrid(v, q) { assert IsNear(v, q, n); }
    if k :| IsNear(v, q, k) {
      ScaledDistance(w, q, k);
      GapNearest(w / q, k);
      ScaledLess(Gap(w / q), Abs(w / q - k as real), q);
    }
  }

  /** Every non-zero observation is a multiple of the step `10^e`. */
  predicate AllOnGrid(values: seq<real>, e: int) {
    forall v | v in values :: v != 0.0 ==> OnGrid(v, Pow10(e))
  }

  predicate AllZero(values: seq<real>) { forall v | v in values :: v == 0.0 }

  /** The first step from the ceiling `10^exponent` down, starting `k` decades below it, that every
      observation is a multiple of; the tenth when none is. */
  function QuantumFrom(values: seq<real>, exponent: int, k: nat): real
    requires k < DECADES
    decreases DECADES - k
  {
    if AllOnGrid(values, exponent - k) || k == DECADES - 1 then Pow10(exponent - k)
    else QuantumFrom(values, exponent, k + 1)
  }

  function Quantum(values: seq<real>, exponent: int): real {
    if AllZero(values) then Pow10(exponent) else QuantumFrom(values, exponent, 0)
  }

  method ObservedQuantum(values: seq<real>, exponent: int) returns (q: real)
    ensures q == Quantum(values, exponent)
  {
    var nz := [];
    for i := 0 to |values|
      invariant forall v :: v in nz <==> v in values[..i] && v != 0.0
    {
      if values[i] != 0.0 { nz := nz + [values[i]]; }
    }
    assert values[..|values|] == values;
    if nz == [] { return Pow10(exponent); }
    assert nz[0] in nz;
    q := Pow10(exponent);
    for k := 0 to DECADES
      invariant k < DECADES ==> Quantum(values, exponent) == QuantumFrom(values, exponent, k)
      invariant k == DECADES ==> Quantum(values, exponent) == q
    {
      q := Pow10(exponent - k);
      if forall v | v in nz :: OnGrid(v, q) { return; }
      assert !AllOnGrid(values, exponent - k);
    }
  }

  /** `10^e` is the coarsest of the ten decades from `10^exponent` down that divides every non-zero
      observation, or the finest of them when none does. */
  ghost predicate IsCoarsest(values: seq<real>, exponent: int, e: int) {
    && exponent - 9 <= e <= exponent
    && (AllOnGrid(values, e) || e == exponent - 9)
    && forall f | e < f <= exponent :: !AllOnGrid(values, f)
  }

  lemma {:induction false} QuantumFromIsCoarsest(values: seq<real>, exponent: int, k: nat) returns (e: int)
    requires k < DECADES
    requires forall f | exponent - k < f <= exponent :: !AllOnGrid(values, f)
    ensures IsCoarsest(values, exponent, e) && QuantumFrom(values, exponent, k) == Pow10(e)
    decreases DECADES - k
  {
    if AllOnGrid(values, exponent - k) || k == DECADES - 1 {
      e := exponent - k;
    } else {
      e := QuantumFromIsCoarsest(values, exponent, k + 1);
    }
  }

  lemma QuantumIsCoarsest(values: seq<real>, exponent: int) returns (e: int)
    ensures IsCoarsest(values, exponent, e) && Quantum(values, exponent) == Pow10(e)
  {
    if AllZero(values) {
      e := exponent;
    } else {
      e := QuantumFromIsCoarsest(values, exponent, 0);
    }
  }

  lemma CoarsestIsUnique(values: seq<real>, exponent: int, e: int)
    requires IsCoarsest(values, exponent, e)
    ensures Quantum(values, exponent) == Pow10(e)
  {
    var d := QuantumIsCoarsest(values, exponent);
  }

  lemma FewerOnGrid(values: seq<real>, more: seq<real>, e: int)
    requires forall v | v in values :: v in more
    ensures AllOnGrid(more, e) ==> AllOnGrid(values, e)
  {
  }

  lemma CoarsestFalls(values: seq<real>, more: seq<real>, exponent: int, e: int, d: int)
    requires forall v | v in values :: v in more
    requires IsCoarsest(values, exponent, e) && IsCoarsest(more, exponent, d)
    ensures d <= e
  {
    FewerOnGrid(values, more, d);
  }

  /** More observations never make the inferred step coarser. */
  lemma QuantumNeverCoarsens(values: seq<real>, more: seq<real>, exponent: int)
    requires forall v | v in values :: v in more
    ensures Quantum(more, exponent) <= Quantum(values, exponent)
  {
    hide IsCoarsest, Quantum, Pow10;
    var e := QuantumIsCoarsest(values, exponent);
    var d := QuantumIsCoarsest(more, exponent);
    CoarsestFalls(values, more, exponent, e, d);
    Pow10Falls(e, e - d);
  }

  lemma QuantumPositive(values: seq<real>, exponent: int)
    ensures 0.0 < Quantum(values, exponent) <= Pow10(exponent)
  {
    hide AllOnGrid, Quantum, Pow10;
    var e := QuantumIsCoarsest(values, exponent);
    Pow10Falls(exponent, exponent - e);
  }

  function Max(x: real, y: real): real { if x >= y then x else y }

  /** Least direction-adjusted ratio consistent with both values being rounded to `quantum`. */
  function RatioLowerBound(val: real, med: real, largerBetter: bool, quantum: real): real
    requires quantum > 0.0 && val >= 0.0 && med >= 0.0
  {
    var half := quantum / 2.0;
    if largerBetter then Max(med - half, 0.0) / (val + half) else Max(val - half, 0.0) / (med + half)
  }

  /** Reaches the hard ratio on the point estimate, but the resolution does not prove it. */
  predicate ResolutionExempts(val: real, med: real, largerBetter: bool, quantum: real, ratio: real)
    requires val >= 0.0 && med >= 0.0
  {
    quantum > 0.0 && ratio >= HARD_RATIO && RatioLowerBound(val, med, largerBetter, quantum) < HARD_RATIO
  }

  lemma DivideAtLeast(x: real, y: real, b: real)
    requires y > 0.0
    ensures x / y >= b <==> x >= b * y
  {
    assert (x / y) * y == x;
    if x / y >= b {
      assert (x / y - b) * y >= 0.0;
    } else {
      assert (b - x / y) * y > 0.0;
    }
  }

  /** The bound reaches any positive ratio exactly when the numerator, half a quantum lower, is that many
      times the denominator, half a quantum higher. */
  lemma LowerBoundReaches(val: real, med: real, largerBetter: bool, quantum: real, b: real)
    requires quantum > 0.0 && val >= 0.0 && med >= 0.0 && b > 0.0
    ensures RatioLowerBound(val, med, largerBetter, quantum) >= b
       <==> if largerBetter then med - quantum / 2.0 >= b * (val + quantum / 2.0)
            else val - quantum / 2.0 >= b * (med + quantum / 2.0)
  {
    var half := quantum / 2.0;
    var low, high := if largerBetter then med else val, if largerBetter then val else med;
    DivideAtLeast(Max(low - half, 0.0), high + half, b);
    assert b * (high + half) > 0.0;
  }

  /** The lower bound reaches the hard ratio exactly when the plain test holds with an absolute
      allowance of one and a half quanta. */
  lemma LowerBoundIsAllowance(val: real, med: real, largerBetter: bool, quantum: real)
    requires quantum > 0.0 && val >= 0.0 && med >= 0.0
    ensures RatioLowerBound(val, med, largerBetter, quantum) >= HARD_RATIO
       <==> if largerBetter then med >= 2.0 * val + 1.5 * quantum else val >= 2.0 * med + 1.5 * quantum
  {
    LowerBoundReaches(val, med, largerBetter, quantum, HARD_RATIO);
  }
}
