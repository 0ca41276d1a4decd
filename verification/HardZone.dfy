/** How the benchmark hard zone judges one metric against the median of its published history
    (scripts/bench_hardzone.py), and what a hard verdict proves about the true readings. */
module HardZone {
  import opened Basics
  import opened OrderStatistics
  import opened Resolution

  /** A JSON value as the gate sees it: a finite number, or anything else. */
  datatype Num = Num(v: real) | Junk

  datatype Bench = Bench(name: Option<string>, value: Num, unit: string)

  datatype Row = Row(name: string, cur: real, med: real, n: nat, ratio: real, det: bool,
                     largerBetter: bool, floorExempt: bool, resolutionExempt: bool,
                     unit: string, quantum: real)

  datatype Zero = Ordinary | StableZero | ImprovedToZero | ZeroCrossing

  datatype Reason = CurrentNotFinite | CurrentNegative | CorruptHistory | UnboundedZeroCrossing

  datatype Verdict = Invalid(reason: Reason) | NoHistory | Ungated(n: nat) | Compared(row: Row, zero: Zero)

  const MIN_HISTORY: nat := 3
  const FLOOR_EXEMPT_UNITS: map<string, real> := map["us" := 40.0, "milli" := 20.0]
  /** Decimal exponents of the resolution ceilings: 0.001 for seconds, 1 for milli. */
  const RESOLUTION_EXPONENTS: map<string, int> := map["s" := -3, "milli" := 0]
  const DETERMINISTIC_UNITS: set<string> := {"bytes", "count", "chars", "fixtures", "gates", "rows", "triples"}
  const DETERMINISTIC_SUFFIXES: seq<string> :=
    ["_bytes", "_count", "_chars", "_deficit", "_gates", "_rows", "_triples"]

  /** A regular-expression search for `suffix$`, which also matches before a final newline. */
  predicate EndsWith(s: string, suffix: string) {
    || (|s| >= |suffix| && s[|s| - |suffix|..] == suffix)
    || (|s| >= |suffix| + 1 && s[|s| - |suffix| - 1..] == suffix + "\n")
  }

  predicate LargerIsBetter(name: string) { EndsWith(name, "_per_s") }

  predicate IsDeterministic(name: string, unit: string) {
    if unit != "" then unit in DETERMINISTIC_UNITS
    else exists s | s in DETERMINISTIC_SUFFIXES :: EndsWith(name, s)
  }

  function ResolutionQuantum(unit: string, det: bool, values: seq<real>): (q: real)
    ensures q >= 0.0
    ensures q > 0.0 <==> !det && unit in RESOLUTION_EXPONENTS
  {
    if det || unit !in RESOLUTION_EXPONENTS then 0.0
    else QuantumPositive(values, RESOLUTION_EXPONENTS[unit]); Quantum(values, RESOLUTION_EXPONENTS[unit])
  }

  predicate FloorExempt(unit: string, det: bool, med: real) {
    !det && unit in FLOOR_EXEMPT_UNITS && med < FLOOR_EXEMPT_UNITS[unit]
  }

  predicate BadPoint(p: Num) { p.Junk? || p.v < 0.0 }

  predicate AllGood(pts: seq<Num>) { forall i | 0 <= i < |pts| :: !BadPoint(pts[i]) }

  function Reals(pts: seq<Num>): (r: seq<real>)
    requires AllGood(pts)
    ensures |r| == |pts| && forall i | 0 <= i < |r| :: r[i] == pts[i].v && r[i] >= 0.0
  {
    seq(|pts|, i requires 0 <= i < |pts| => pts[i].v)
  }

  predicate Window(hist: seq<real>) { hist != [] && forall x | x in hist :: x >= 0.0 }

  /** The direction-adjusted ratio and the zero boundary it crosses; none when the ratio is
      unbounded and no resolution bounds it. */
  function Ratio(val: real, med: real, largerBetter: bool, q: real): Option<(real, Zero)>
    requires val >= 0.0 && med >= 0.0
  {
    var denom := if largerBetter then val else med;
    if val == 0.0 && med == 0.0 then Some((1.0, StableZero))
    else if denom == 0.0 then
      if q <= 0.0 then None else Some((RatioLowerBound(val, med, largerBetter, q), ZeroCrossing))
    else
      Some((if largerBetter then med / val else val / med,
            if val == 0.0 || med == 0.0 then ImprovedToZero else Ordinary))
  }

  /** The comparison of a valid reading with a valid window. */
  function Compare(name: string, val: real, unit: string, hist: seq<real>): Verdict
    requires val >= 0.0 && Window(hist)
  {
    MedianNonNegative(hist);
    var med := Median(hist);
    var larger := LargerIsBetter(name);
    var det := IsDeterministic(name, unit);
    var q := ResolutionQuantum(unit, det, [val] + hist);
    match Ratio(val, med, larger, q)
    case None => Invalid(UnboundedZeroCrossing)
    case Some((ratio, zero)) =>
      Compared(Row(name, val, med, |hist|, ratio, det, larger, FloorExempt(unit, det, med),
                   ResolutionExempts(val, med, larger, q, ratio), unit, q), zero)
  }

  /** One pass of the evaluation loop. */
  function Judge(name: string, value: Num, unit: string, pts: seq<Num>): Verdict {
    if value.Junk? then Invalid(CurrentNotFinite)
    else if value.v < 0.0 then Invalid(CurrentNegative)
    else if pts == [] then NoHistory
    else if |pts| < MIN_HISTORY then Ungated(|pts|)
    else if !AllGood(pts) then Invalid(CorruptHistory)
    else Compare(name, value.v, unit, Reals(pts))
  }

  predicate IsHard(r: Row) { !r.floorExempt && r.ratio >= HARD_RATIO && !r.resolutionExempt }

  /** The metric moved off zero on its pessimal side. */
  predicate PessimalZero(val: real, med: real, largerBetter: bool) {
    if largerBetter then val == 0.0 && med > 0.0 else med == 0.0 && val > 0.0
  }

  /** What holds of every compared row. */
  ghost predicate Consistent(r: Row) {
    && r.cur >= 0.0 && r.med >= 0.0 && r.quantum >= 0.0
    && r.resolutionExempt == ResolutionExempts(r.cur, r.med, r.largerBetter, r.quantum, r.ratio)
    && (r.largerBetter && r.cur > 0.0 ==> r.ratio == r.med / r.cur)
    && (!r.largerBetter && r.med > 0.0 ==> r.ratio == r.cur / r.med)
    && (r.cur == 0.0 && r.med == 0.0 ==> r.ratio == 1.0)
    && (PessimalZero(r.cur, r.med, r.largerBetter) ==>
          r.quantum > 0.0 && r.ratio == RatioLowerBound(r.cur, r.med, r.largerBetter, r.quantum))
  }

  lemma JudgeIsConsistent(name: string, value: Num, unit: string, pts: seq<Num>)
    ensures var v := Judge(name, value, unit, pts);
            v.Compared? ==> Consistent(v.row) && v.row.name == name
  {
    if !value.Junk? && value.v >= 0.0 && |pts| >= MIN_HISTORY && AllGood(pts) {
      MedianNonNegative(Reals(pts));
    }
  }

  // ----- one inequality for every branch -----------------------------------------------

  predicate PastAllowance(val: real, med: real, largerBetter: bool, q: real) {
    if largerBetter then med >= 2.0 * val + 1.5 * q else val >= 2.0 * med + 1.5 * q
  }

  lemma RatioPastAllowance(val: real, med: real, largerBetter: bool, q: real)
    requires val >= 0.0 && med >= 0.0 && q > 0.0
    ensures Ratio(val, med, largerBetter, q).Some?
    ensures var ratio := Ratio(val, med, largerBetter, q).value.0;
            ratio >= HARD_RATIO && !ResolutionExempts(val, med, largerBetter, q, ratio)
            <==> PastAllowance(val, med, largerBetter, q)
  {
    LowerBoundIsAllowance(val, med, largerBetter, q);
    if largerBetter && val > 0.0 { DivideAtLeast(med, val, HARD_RATIO); }
    if !largerBetter && med > 0.0 { DivideAtLeast(val, med, HARD_RATIO); }
  }

  /** The noise floors: 40 microseconds and 20 milli. */
  predicate ReachesFloor(unit: string, med: real) {
    (unit == "us" ==> med >= 40.0) && (unit == "milli" ==> med >= 20.0)
  }

  /** With a known resolution, a row whose median reaches its unit's floor is hard exactly when it passes
      twice its median by one and a half quanta: stable zeros, moves to the optimum and moves off zero on
      the pessimal side included. Under the floor no row is hard. */
  lemma HardIsOneInequality(name: string, val: real, unit: string, hist: seq<real>)
    requires val >= 0.0 && Window(hist) && (unit == "s" || unit == "milli")
    ensures var v := Compare(name, val, unit, hist);
            && v.Compared?
            && v.row.quantum == Quantum([val] + hist, if unit == "s" then -3 else 0) > 0.0
            && (IsHard(v.row) <==>
                && ReachesFloor(unit, Median(hist))
                && PastAllowance(val, Median(hist), LargerIsBetter(name), v.row.quantum))
  {
    MedianNonNegative(hist);
    var q := ResolutionQuantum(unit, IsDeterministic(name, unit), [val] + hist);
    RatioPastAllowance(val, Median(hist), LargerIsBetter(name), q);
  }

  lemma ExactRatio(val: real, med: real, largerBetter: bool)
    requires val >= 0.0 && med >= 0.0
    ensures var r := Ratio(val, med, largerBetter, 0.0);
            && (r.None? <==> PessimalZero(val, med, largerBetter))
            && (r.Some? ==> (r.value.0 >= HARD_RATIO <==>
                  !(val == 0.0 && med == 0.0) && PastAllowance(val, med, largerBetter, 0.0)))
  {
    if largerBetter && val > 0.0 { DivideAtLeast(med, val, HARD_RATIO); }
    if !largerBetter && med > 0.0 { DivideAtLeast(val, med, HARD_RATIO); }
  }

  /** Without a resolution the allowance is zero: the row fails closed exactly on a pessimal zero
      crossing, and otherwise is hard exactly at twice its median, unless both are zero or the median of a
      microsecond metric is under the floor. */
  lemma ExactRowVerdict(name: string, val: real, unit: string, hist: seq<real>)
    requires val >= 0.0 && Window(hist) && unit != "s" && unit != "milli"
    ensures var v, med, larger := Compare(name, val, unit, hist), Median(hist), LargerIsBetter(name);
            && (v.Invalid? <==> PessimalZero(val, med, larger))
            && (v.Invalid? ==> v.reason == UnboundedZeroCrossing)
            && (v.Invalid? || v.Compared?)
            && (v.Compared? ==> v.row.quantum == 0.0 && (IsHard(v.row) <==>
                  ReachesFloor(unit, med) && !(val == 0.0 && med == 0.0) && PastAllowance(val, med, larger, 0.0)))
  {
    hide Median, LargerIsBetter;
    MedianNonNegative(hist);
    ExactRatio(val, Median(hist), LargerIsBetter(name));
    hide Ratio;
  }

  // ----- names -------------------------------------------------------------------------

  /** `s` is a stem with this suffix, perhaps with a newline after it. */
  ghost predicate HasSuffix(s: string, suffix: string) {
    exists stem: string :: s == stem + suffix || s == stem + suffix + "\n"
  }

  lemma EndsWithIff(s: string, suffix: string)
    ensures EndsWith(s, suffix) <==> HasSuffix(s, suffix)
  {
    var n, m := |s|, |suffix|;
    if n >= m && s[n - m..] == suffix { assert s == s[..n - m] + suffix; }
    if n >= m + 1 && s[n - m - 1..] == suffix + "\n" { assert s == s[..n - m - 1] + suffix + "\n"; }
    forall stem: string | s == stem + suffix || s == stem + suffix + "\n" ensures EndsWith(s, suffix) {
      if s == stem + suffix {
        assert s[n - m..] == suffix;
      } else {
        assert s[n - m - 1..] == suffix + "\n";
      }
    }
  }

  /** Throughputs are told by their name alone. */
  lemma DirectionIff(name: string)
    ensures LargerIsBetter(name) <==> HasSuffix(name, "_per_s")
  {
    EndsWithIff(name, "_per_s");
  }

  /** A metric is deterministic by its unit, or by its name when it has none. */
  lemma DeterministicIff(name: string, unit: string)
    ensures IsDeterministic(name, unit) <==>
            || unit == "bytes" || unit == "count" || unit == "chars" || unit == "fixtures" || unit == "gates"
            || unit == "rows" || unit == "triples"
            || (unit == "" && (|| HasSuffix(name, "_bytes") || HasSuffix(name, "_count") || HasSuffix(name, "_chars")
                               || HasSuffix(name, "_deficit") || HasSuffix(name, "_gates") || HasSuffix(name, "_rows")
                               || HasSuffix(name, "_triples")))
  {
    hide EndsWith, HasSuffix;
    EndsWithIff(name, "_bytes");
    EndsWithIff(name, "_count");
    EndsWithIff(name, "_chars");
    EndsWithIff(name, "_deficit");
    EndsWithIff(name, "_gates");
    EndsWithIff(name, "_rows");
    EndsWithIff(name, "_triples");
    var s := DETERMINISTIC_SUFFIXES;
    assert s[0] in s && s[1] in s && s[2] in s && s[3] in s && s[4] in s && s[5] in s && s[6] in s;
  }

  // ----- one metric, over all inputs ---------------------------------------------------

  /** A metric fails closed exactly on a reading that is not a non-negative number, whatever its history,
      and, once it has the three values to be gated, on a corrupt window or on a pessimal zero crossing
      that no resolution bounds. It is compared exactly when it is gated and does not fail closed. */
  lemma FailsClosedIff(name: string, value: Num, unit: string, pts: seq<Num>)
    ensures var v := Judge(name, value, unit, pts);
            && (v.Invalid? <==>
                || BadPoint(value)
                || (|pts| >= 3 && exists p | p in pts :: p.Junk? || p.v < 0.0)
                || (|pts| >= 3 && AllGood(pts) && PessimalZero(value.v, Median(Reals(pts)), LargerIsBetter(name))
                    && unit != "s" && unit != "milli"))
            && (v.Compared? <==> |pts| >= 3 && !v.Invalid?)
            && (v.NoHistory? <==> pts == [] && !v.Invalid?)
            && (v.Ungated? <==> 0 < |pts| < 3 && !v.Invalid?)
            && (v.Ungated? ==> v.n == |pts|)
  {
    if |pts| >= 3 { assert AllGood(pts) <==> forall p | p in pts :: !BadPoint(p); }
    if !BadPoint(value) && |pts| >= 3 && AllGood(pts) {
      var hist := Reals(pts);
      MedianNonNegative(hist);
      if unit == "s" || unit == "milli" {
        HardIsOneInequality(name, value.v, unit, hist);
      } else {
        ExactRowVerdict(name, value.v, unit, hist);
      }
    }
  }

  /** Why a metric fails closed: an unusable reading before anything else, then a corrupt window. */
  lemma FailureReason(name: string, value: Num, unit: string, pts: seq<Num>)
    ensures var v := Judge(name, value, unit, pts);
            v.Invalid? ==>
              && (v.reason == CurrentNotFinite <==> value.Junk?)
              && (v.reason == CurrentNegative <==> value.Num? && value.v < 0.0)
              && (v.reason == CorruptHistory <==> !BadPoint(value) && !AllGood(pts))
  {
  }

  /** What a compared row records of its inputs. */
  lemma RowRecords(name: string, value: Num, unit: string, pts: seq<Num>)
    ensures var v := Judge(name, value, unit, pts);
            v.Compared? ==>
              && !BadPoint(value) && AllGood(pts) && v.row.name == name && v.row.unit == unit
              && v.row.cur == value.v && v.row.med == Median(Reals(pts)) && v.row.n == |pts|
              && v.row.det == IsDeterministic(name, unit) && v.row.largerBetter == LargerIsBetter(name)
              && v.row.floorExempt == !ReachesFloor(unit, v.row.med)
              && v.row.quantum == (if unit == "s" then Quantum([v.row.cur] + Reals(pts), -3)
                                   else if unit == "milli" then Quantum([v.row.cur] + Reals(pts), 0) else 0.0)
              && (v.zero == StableZero <==> v.row.cur == 0.0 && v.row.med == 0.0)
              && (v.zero == ZeroCrossing <==> PessimalZero(v.row.cur, v.row.med, v.row.largerBetter))
              && (v.zero == ImprovedToZero <==> PessimalZero(v.row.med, v.row.cur, v.row.largerBetter))
  {
    hide Quantum;
    if !BadPoint(value) && |pts| >= MIN_HISTORY && AllGood(pts) { MedianNonNegative(Reals(pts)); }
  }

  /** When a compared metric is hard, from its readings, its unit and the direction of its name. */
  lemma HardVerdict(name: string, value: Num, unit: string, pts: seq<Num>)
    ensures var v := Judge(name, value, unit, pts);
            v.Compared? ==>
              !BadPoint(value) && AllGood(pts) &&
              var cur, med, larger := value.v, Median(Reals(pts)), LargerIsBetter(name);
              IsHard(v.row) <==>
                && ReachesFloor(unit, med) && !(cur == 0.0 && med == 0.0)
                && PastAllowance(cur, med, larger, v.row.quantum)
  {
    if !BadPoint(value) && |pts| >= MIN_HISTORY && AllGood(pts) {
      if unit == "s" || unit == "milli" {
        HardIsOneInequality(name, value.v, unit, Reals(pts));
      } else {
        ExactRowVerdict(name, value.v, unit, Reals(pts));
      }
    }
  }

  /** The row reads at twice its median or worse, both not being zero; off a zero on the pessimal side,
      where twice zero says nothing, by more than the resolution allows for. */
  predicate ReadsTwice(r: Row) {
    && (if r.largerBetter then r.med >= 2.0 * r.cur else r.cur >= 2.0 * r.med)
    && !(r.cur == 0.0 && r.med == 0.0)
    && (PessimalZero(r.cur, r.med, r.largerBetter) ==> PastAllowance(r.cur, r.med, r.largerBetter, r.quantum))
  }

  lemma RatioIsReading(r: Row)
    requires Consistent(r)
    ensures r.ratio >= HARD_RATIO <==> ReadsTwice(r)
  {
    if PessimalZero(r.cur, r.med, r.largerBetter) {
      LowerBoundIsAllowance(r.cur, r.med, r.largerBetter, r.quantum);
    } else if r.largerBetter && r.cur > 0.0 {
      DivideAtLeast(r.med, r.cur, HARD_RATIO);
    } else if !r.largerBetter && r.med > 0.0 {
      DivideAtLeast(r.cur, r.med, HARD_RATIO);
    }
  }

  /** A millisecond up from a history of zeros, resolved to one millisecond: over twice its median, but
      the recorded ratio is the resolution's lower bound, here 1. */
  lemma SmallZeroCrossingExists(hist: seq<real>)
    requires hist == [0.0, 0.0, 0.0]
    ensures var v := Compare("x_s", 0.001, "s", hist);
            && v.Compared? && v.row.cur > 0.0 && v.row.cur >= 2.0 * v.row.med
            && v.row.ratio == 1.0 && !ReadsTwice(v.row)
  {
    SortedZeros();
    var seen := [0.001] + hist;
    assert seen[0] == 0.001 && Pow10(-3) == 0.001;
    assert IsCoarsest(seen, -3, -3);
    CoarsestIsUnique(seen, -3, -3);
    assert !LargerIsBetter("x_s");
    HardIsOneInequality("x_s", 0.001, "s", hist);
  }

  lemma SortedZeros()
    ensures Sorted([0.0, 0.0, 0.0]) == [0.0, 0.0, 0.0]
  {
    assert [0.0, 0.0, 0.0][1..] == [0.0, 0.0] && [0.0, 0.0][1..] == [0.0] && [0.0][1..] == [];
    assert Sorted([0.0]) == [0.0];
    assert Sorted([0.0, 0.0]) == [0.0, 0.0];
  }

  // ----- what a hard verdict proves ----------------------------------------------------

  /** The readings a value printed at resolution `q` can stand for. */
  predicate Rounds(truth: real, printed: real, q: real) { printed - q / 2.0 <= truth < printed + q / 2.0 }

  predicate AllRound(truth: seq<real>, printed: seq<real>, q: real) {
    |truth| == |printed| && forall i | 0 <= i < |truth| :: Rounds(truth[i], printed[i], q)
  }

  predicate TwiceMedian(cur: real, hist: seq<real>, largerBetter: bool)
    requires hist != []
  {
    if largerBetter then Median(hist) >= 2.0 * cur else cur >= 2.0 * Median(hist)
  }

  /** Whatever the true readings behind the printed ones, the true ratio is at least two. */
  ghost predicate Proven(val: real, hist: seq<real>, largerBetter: bool, q: real)
    requires hist != []
  {
    forall c, h | Rounds(c, val, q) && AllRound(h, hist, q) :: TwiceMedian(c, h, largerBetter)
  }

  lemma AllowanceProves(val: real, hist: seq<real>, largerBetter: bool, q: real)
    requires hist != [] && q > 0.0 && PastAllowance(val, Median(hist), largerBetter, q)
    ensures Proven(val, hist, largerBetter, q)
  {
    forall c, h | Rounds(c, val, q) && AllRound(h, hist, q) ensures TwiceMedian(c, h, largerBetter) {
      MedianStable(hist, h, q / 2.0);
    }
  }

  /** Readings that refute a ratio of two when the allowance is not passed. */
  lemma NoAllowanceRefutes(val: real, hist: seq<real>, largerBetter: bool, q: real)
      returns (c: real, h: seq<real>)
    requires hist != [] && q > 0.0 && !PastAllowance(val, Median(hist), largerBetter, q)
    ensures Rounds(c, val, q) && AllRound(h, hist, q) && !TwiceMedian(c, h, largerBetter)
  {
    var med := Median(hist);
    if largerBetter {
      // the history as low, and the current as nearly high, as rounding allows
      var slack := 2.0 * val + 1.5 * q - med;
      var d := if slack < q then slack / 4.0 else q / 4.0;
      c, h := val + q / 2.0 - d, Image(hist, Shift(-q / 2.0));
      MedianShift(hist, -q / 2.0);
    } else {
      var slack := 2.0 * med + 1.5 * q - val;
      var d := if slack < q then slack / 4.0 else q / 4.0;
      c, h := val - q / 2.0, Image(hist, Shift(q / 2.0 - d));
      MedianShift(hist, q / 2.0 - d);
    }
  }

  /** A row whose median reaches the floor is hard exactly when its printed readings prove the true ratio
      to be at least two. */
  lemma HardIffProven(name: string, val: real, unit: string, hist: seq<real>)
    requires val >= 0.0 && Window(hist) && (unit == "s" || unit == "milli")
    ensures var v := Compare(name, val, unit, hist);
            v.Compared? && (IsHard(v.row) <==>
              ReachesFloor(unit, Median(hist)) && Proven(val, hist, LargerIsBetter(name), v.row.quantum))
  {
    HardIsOneInequality(name, val, unit, hist);
    var larger, q := LargerIsBetter(name), Compare(name, val, unit, hist).row.quantum;
    if PastAllowance(val, Median(hist), larger, q) {
      AllowanceProves(val, hist, larger, q);
    } else {
      var c, h := NoAllowanceRefutes(val, hist, larger, q);
    }
  }

  // ----- the same, when true readings cannot be negative -------------------------------

  /** As `Proven`, but over non-negative true readings only. */
  ghost predicate ProvenNonNegative(val: real, hist: seq<real>, largerBetter: bool, q: real)
    requires hist != []
  {
    forall c, h | Rounds(c, val, q) && c >= 0.0 && AllRound(h, hist, q) && (forall x | x in h :: x >= 0.0) ::
      TwiceMedian(c, h, largerBetter)
  }

  /** The readings for which non-negativity alone pushes the median of an even window up: its lower
      middle reading is under half a quantum, so the true one cannot be half a quantum below it. */
  predicate ClampedWindow(val: real, hist: seq<real>, q: real)
    requires hist != []
  {
    |hist| % 2 == 0 &&
    var lo, hi := Sorted(hist)[|hist| / 2 - 1], Sorted(hist)[|hist| / 2];
    2.0 * lo < q && hi >= 4.0 * val + 2.5 * q && lo + hi < 4.0 * val + 3.0 * q
  }

  function Floor0(d: real): real -> real { (x: real) => if x >= d then x - d else 0.0 }

  lemma ClampedMedian(hist: seq<real>, d: real)
    requires hist != []
    ensures var t, n, m := Sorted(hist), |hist|, Median(Image(hist, Floor0(d)));
            if n % 2 == 1 then m == Max(Median(hist) - d, 0.0)
            else m == (Max(t[n / 2 - 1] - d, 0.0) + Max(t[n / 2] - d, 0.0)) / 2.0
  {
    assert Increasing(Floor0(d));
    SortedMap(hist, Floor0(d));
  }

  lemma ClampIsLowest(hist: seq<real>, h: seq<real>, q: real)
    requires hist != [] && q > 0.0 && AllRound(h, hist, q) && forall x | x in h :: x >= 0.0
    ensures Median(h) >= Median(Image(hist, Floor0(q / 2.0)))
  {
    var low := Image(hist, Floor0(q / 2.0));
    forall i | 0 <= i < |h| ensures low[i] <= h[i] { assert h[i] in h; }
    MedianMonotone(low, h);
  }

  /** For throughputs: proven over non-negative readings exactly when the clamped median, which can
      be attained, is at least twice the (unattained) highest current reading. */
  lemma ProvenThroughput(val: real, hist: seq<real>, q: real)
    requires val >= 0.0 && Window(hist) && q > 0.0
    ensures ProvenNonNegative(val, hist, true, q) <==> Median(Image(hist, Floor0(q / 2.0))) >= 2.0 * val + q
  {
    var low := Image(hist, Floor0(q / 2.0));
    var m := Median(low);
    if m >= 2.0 * val + q {
      forall c, h | Rounds(c, val, q) && c >= 0.0 && AllRound(h, hist, q) && (forall x | x in h :: x >= 0.0)
        ensures TwiceMedian(c, h, true)
      {
        ClampIsLowest(hist, h, q);
      }
    } else {
      var slack := 2.0 * val + q - m;
      var d := if slack < q then slack / 4.0 else q / 4.0;
      var c := val + q / 2.0 - d;
      assert forall i | 0 <= i < |hist| :: hist[i] in hist;
      assert AllRound(low, hist, q);
      assert Rounds(c, val, q) && !TwiceMedian(c, low, true);
    }
  }

  /** For smaller-is-better metrics non-negativity changes nothing. */
  lemma ProvenTiming(val: real, hist: seq<real>, q: real)
    requires val >= 0.0 && Window(hist) && q > 0.0
    ensures ProvenNonNegative(val, hist, false, q) <==> PastAllowance(val, Median(hist), false, q)
  {
    MedianNonNegative(hist);
    if PastAllowance(val, Median(hist), false, q) {
      AllowanceProves(val, hist, false, q);
    } else {
      var med := Median(hist);
      var slack := 2.0 * med + 1.5 * q - val;
      var d := if slack < q then slack / 4.0 else q / 4.0;
      var c, h := Max(val - q / 2.0, 0.0), Image(hist, Shift(q / 2.0 - d));
      MedianShift(hist, q / 2.0 - d);
      forall x | x in h ensures x >= 0.0 {
        var i :| 0 <= i < |h| && h[i] == x;
        assert hist[i] in hist;
      }
      assert Rounds(c, val, q) && AllRound(h, hist, q) && !TwiceMedian(c, h, false);
    }
  }

  /** Over non-negative true readings a hard verdict is still a proof, and the converse fails only
      for a throughput on a clamped even window. */
  lemma HardIffProvenNonNegative(val: real, hist: seq<real>, largerBetter: bool, q: real)
    requires val >= 0.0 && Window(hist) && q > 0.0
    ensures PastAllowance(val, Median(hist), largerBetter, q) ==> ProvenNonNegative(val, hist, largerBetter, q)
    ensures (PastAllowance(val, Median(hist), largerBetter, q) <==> ProvenNonNegative(val, hist, largerBetter, q))
       <==> !(largerBetter && ClampedWindow(val, hist, q))
  {
    if largerBetter {
      ProvenThroughput(val, hist, q);
      ClampedMedian(hist, q / 2.0);
      SortedAscends(hist);
    } else {
      ProvenTiming(val, hist, q);
    }
  }

  /** The same of a row of the gate whose median reaches the floor. */
  lemma HardRowIffProvenNonNegative(name: string, val: real, unit: string, hist: seq<real>)
    requires val >= 0.0 && Window(hist) && (unit == "s" || unit == "milli") && ReachesFloor(unit, Median(hist))
    ensures var v := Compare(name, val, unit, hist);
            && v.Compared?
            && (IsHard(v.row) ==> ProvenNonNegative(val, hist, LargerIsBetter(name), v.row.quantum))
            && ((IsHard(v.row) <==> ProvenNonNegative(val, hist, LargerIsBetter(name), v.row.quantum))
                <==> !(LargerIsBetter(name) && ClampedWindow(val, hist, v.row.quantum)))
  {
    HardIsOneInequality(name, val, unit, hist);
    HardIffProvenNonNegative(val, hist, LargerIsBetter(name), Compare(name, val, unit, hist).row.quantum);
  }

  function Ticks(k: int, q: real): real { k as real * q }

  ghost predicate IsMultiple(x: real, q: real) { exists k: int :: x == Ticks(k, q) }

  lemma MultiplesNotClamped(v: int, lo: int, hi: int, q: real)
    requires q > 0.0 && Ticks(lo, q) >= 0.0
    ensures !(2.0 * Ticks(lo, q) < q && Ticks(hi, q) >= 4.0 * Ticks(v, q) + 2.5 * q
              && Ticks(lo, q) + Ticks(hi, q) < 4.0 * Ticks(v, q) + 3.0 * q)
  {
    var slack := (hi - 4 * v) as real;
    assert Ticks(hi, q) - 4.0 * Ticks(v, q) == slack * q;
    if lo >= 1 {
      assert (lo as real - 1.0) * q >= 0.0;
    } else if hi - 4 * v >= 3 {
      assert (slack - 3.0) * q >= 0.0;
    } else {
      assert (2.5 - slack) * q > 0.0;
    }
  }

  lemma SortedMember(s: seq<real>, k: nat)
    requires k < |s|
    ensures Sorted(s)[k] in s
  {
    SortedAscends(s);
    assert Sorted(s)[k] in multiset(s);
  }

  /** Readings that are exact multiples of the resolution never form a clamped window, so for them a
      hard verdict and a proof over non-negative true readings coincide in both directions. */
  lemma GridIsNeverClamped(val: real, hist: seq<real>, q: real)
    requires val >= 0.0 && Window(hist) && q > 0.0
    requires IsMultiple(val, q) && forall x | x in hist :: IsMultiple(x, q)
    ensures !ClampedWindow(val, hist, q)
  {
    if |hist| % 2 == 0 {
      SortedMember(hist, |hist| / 2 - 1);
      SortedMember(hist, |hist| / 2);
      var lo, hi := Sorted(hist)[|hist| / 2 - 1], Sorted(hist)[|hist| / 2];
      var v :| val == Ticks(v, q);
      var a :| lo == Ticks(a, q);
      var b :| hi == Ticks(b, q);
      MultiplesNotClamped(v, a, b, q);
    }
  }

  lemma PicoSecond()
    ensures Pow10(-12) == TOLERANCE && Pow10(-11) == 10.0 * TOLERANCE
  {
    assert Pow10(-3) == 0.001;
    assert Pow10(-6) == 0.000001;
    assert Pow10(-9) == 0.000000001;
    assert Pow10(-11) == 0.00000000001;
  }

  lemma TooFineForDecade(v: real, e: int)
    requires v == 2.8 * TOLERANCE && e >= -11
    ensures !OnGrid(v, Pow10(e))
  {
    PicoSecond();
    var q := Pow10(e);
    Pow10Falls(e, e + 11);
    DivideAtLeast(v, q, 0.5);
    assert (v / q) * q == v;
  }

  lemma SortedPairs(x: real, y: real)
    requires x <= y
    ensures Sorted([x, x, y, y]) == [x, x, y, y]
  {
    var s := [x, x, y, y];
    assert s[1..] == [x, y, y] && [x, y, y][1..] == [y, y] && [y, y][1..] == [y] && [y][1..] == [];
    assert Sorted([y]) == [y];
    assert Sorted([y, y]) == [y, y];
    assert Sorted([x, y, y]) == [x, y, y];
  }

  lemma PicoQuantum(seen: seq<real>)
    requires 2.8 * TOLERANCE in seen
    ensures Quantum(seen, -3) == TOLERANCE
  {
    forall f | -12 < f <= -3 ensures !AllOnGrid(seen, f) { TooFineForDecade(2.8 * TOLERANCE, f); }
    assert IsCoarsest(seen, -3, -12);
    CoarsestIsUnique(seen, -3, -12);
    PicoSecond();
  }

  lemma ClampedPairs(q: real)
    requires q > 0.0
    ensures ClampedWindow(0.0, [0.0, 0.0, 2.8 * q, 2.8 * q], q)
    ensures !PastAllowance(0.0, Median([0.0, 0.0, 2.8 * q, 2.8 * q]), true, q)
  {
    SortedPairs(0.0, 2.8 * q);
  }

  /** Off that grid the converse does fail, on a gated throughput row: four readings 0, 0, 2.8 and 2.8
      picoseconds, resolved to one picosecond, and a current reading of 0. */
  lemma ClampedRowExists(hist: seq<real>)
    requires hist == [0.0, 0.0, 2.8 * TOLERANCE, 2.8 * TOLERANCE]
    ensures var v := Compare("x_per_s", 0.0, "s", hist);
            && v.Compared? && !IsHard(v.row)
            && ProvenNonNegative(0.0, hist, true, v.row.quantum)
  {
    hide Median, Quantum, ProvenNonNegative;
    assert "x_per_s"[1..] == "_per_s" && LargerIsBetter("x_per_s");
    assert ([0.0] + hist)[3] == 2.8 * TOLERANCE;
    PicoQuantum([0.0] + hist);
    ClampedPairs(TOLERANCE);
    HardIsOneInequality("x_per_s", 0.0, "s", hist);
    HardIffProvenNonNegative(0.0, hist, true, TOLERANCE);
  }
}
