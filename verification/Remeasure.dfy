/** Confirmation by re-measurement, the final exit code, and what the two passes of the hard zone
    keep together (scripts/bench_hardzone.py). */
module Remeasure {
  import opened Basics
  import opened Sums
  import opened OrderStatistics
  import opened Resolution
  import opened HardZone
  import opened Gate

  /** One call of the re-measure function. */
  datatype Attempt = Raised | Returned(rows: seq<Bench>)

  /** The last usable reading of `name` in a result file. */
  function Reading(rows: seq<Bench>, name: string): Option<real> {
    if rows == [] then None else
    var b := rows[|rows| - 1];
    if b.name == Some(name) && b.value.Num? && b.value.v >= 0.0 then Some(b.value.v)
    else Reading(rows[..|rows| - 1], name)
  }

  /** The fresh readings of `name`, one per attempt that has one. */
  function Fresh(name: string, attempts: seq<Attempt>): seq<real> {
    if attempts == [] then [] else
    var a := attempts[|attempts| - 1];
    Fresh(name, attempts[..|attempts| - 1]) +
    if a.Returned? && Reading(a.rows, name).Some? then [Reading(a.rows, name).value] else []
  }

  /** All readings of a row, seeded with the one that put it in the hard set. */
  function Pool(r: Row, attempts: seq<Attempt>): seq<real> { [r.cur] + Fresh(r.name, attempts) }

  /** The least-regressed reading. */
  function Best(values: seq<real>, largerBetter: bool): (b: real)
    requires values != []
    ensures b in values
    ensures forall v | v in values :: if largerBetter then v <= b else b <= v
  {
    if |values| == 1 then values[0] else
    var rest := Best(values[1..], largerBetter);
    assert values == [values[0]] + values[1..];
    if (if largerBetter then values[0] > rest else values[0] < rest) then values[0] else rest
  }

  /** The ratio of a reading; 0 at a zero boundary, where it is not used. */
  function NewRatio(r: Row, reading: real): real {
    if r.med <= 0.0 || reading <= 0.0 then 0.0
    else if r.largerBetter then r.med / reading else reading / r.med
  }

  predicate Relieves(r: Row, pool: seq<real>)
    requires pool != []
  {
    var best := Best(pool, r.largerBetter);
    r.med > 0.0 && best > 0.0 && NewRatio(r, best) < HARD_RATIO
  }

  /** The conditions under which the pass runs at all. */
  predicate Runs(hard: seq<Row>, fn: Option<seq<Attempt>>, uniform: bool) {
    hard != [] && fn.Some? && fn.value != [] && !uniform && forall r | r in hard :: !r.det
  }

  function IsRelieved(attempts: seq<Attempt>): Row -> bool { (r: Row) => Relieves(r, Pool(r, attempts)) }
  function IsKept(attempts: seq<Attempt>): Row -> bool { (r: Row) => !Relieves(r, Pool(r, attempts)) }

  function Kept(hard: seq<Row>, fn: Option<seq<Attempt>>, uniform: bool): seq<Row> {
    if Runs(hard, fn, uniform) then Filter(hard, IsKept(fn.value)) else hard
  }

  /** A relieved row as the report keeps it. */
  function ToRelief(attempts: seq<Attempt>): Row -> Relief {
    (r: Row) =>
      var best := Best(Pool(r, attempts), r.largerBetter);
      Relief(r, best, NewRatio(r, best), |Fresh(r.name, attempts)|)
  }

  function Reliefs(relieved: seq<Row>, attempts: seq<Attempt>): seq<Relief> { Image(relieved, ToRelief(attempts)) }

  function Relieved(hard: seq<Row>, fn: Option<seq<Attempt>>, uniform: bool): seq<Row> {
    if Runs(hard, fn, uniform) then Filter(hard, IsRelieved(fn.value)) else []
  }

  // ----- the pass over the shared report -----------------------------------------------

  /** The last bench of this name with a usable reading. */
  ghost predicate IsLastUsable(rows: seq<Bench>, i: nat, n: string) {
    && i < |rows| && IsUsable(rows[i], n) && forall j | i < j < |rows| :: !IsUsable(rows[j], n)
  }

  predicate IsUsable(b: Bench, n: string) { b.name == Some(n) && b.value.Num? && b.value.v >= 0.0 }

  ghost predicate ReadsAt(rows: seq<Bench>, i: nat, n: string, v: real) {
    IsLastUsable(rows, i, n) && rows[i].value == Num(v)
  }

  /** The last usable reading of this name is `v`. */
  ghost predicate ReadsLast(rows: seq<Bench>, n: string, v: real) { exists i: nat :: ReadsAt(rows, i, n, v) }

  predicate MapsTo(m: map<string, real>, n: string, v: real) { n in m && m[n] == v }

  lemma {:induction false} ReadingIff(rows: seq<Bench>, n: string, v: real)
    ensures Reading(rows, n) == Some(v) <==> ReadsLast(rows, n, v)
  {
    if rows != [] {
      var last := |rows| - 1;
      var init := rows[..last];
      if IsUsable(rows[last], n) {
        assert ReadsAt(rows, last, n, rows[last].value.v);
        assert forall i: nat | i < last :: !IsLastUsable(rows, i, n);
      } else {
        ReadingIff(init, n, v);
        assert forall k | 0 <= k < last :: init[k] == rows[k];
        forall i: nat ensures ReadsAt(init, i, n, v) <==> ReadsAt(rows, i, n, v) { LastUsableInit(rows, i, n); }
      }
    }
  }

  lemma LastUsableInit(rows: seq<Bench>, i: nat, n: string)
    requires rows != [] && !IsUsable(rows[|rows| - 1], n)
    ensures IsLastUsable(rows[..|rows| - 1], i, n) <==> IsLastUsable(rows, i, n)
  {
    var init := rows[..|rows| - 1];
    assert forall k | 0 <= k < |init| :: init[k] == rows[k];
  }

  /** Each name goes with the value of its last usable reading, and with no other. */
  method RowsByName(rows: seq<Bench>) returns (out: map<string, real>)
    ensures forall n, v :: MapsTo(out, n, v) <==> ReadsLast(rows, n, v)
    ensures forall n :: n in out <==> Reading(rows, n).Some?
    ensures forall n | n in out :: out[n] == Reading(rows, n).value
  {
    out := map[];
    for i := 0 to |rows|
      invariant forall n :: n in out <==> Reading(rows[..i], n).Some?
      invariant forall n | n in out :: out[n] == Reading(rows[..i], n).value
    {
      assert rows[..i + 1][..i] == rows[..i];
      var b := rows[i];
      if b.name.Some? && b.value.Num? && b.value.v >= 0.0 { out := out[b.name.value := b.value.v]; }
    }
    assert rows[..|rows|] == rows;
    forall n, v ensures MapsTo(out, n, v) <==> ReadsLast(rows, n, v) { ReadingIff(rows, n, v); }
  }

  /** The rows `hard[lo..hi]` have the readings of these attempts. */
  ghost predicate Pooled(readings: map<string, seq<real>>, hard: seq<Row>, lo: nat, hi: nat, attempts: seq<Attempt>)
    requires hi <= |hard|
  {
    forall j | lo <= j < hi :: hard[j].name in readings && readings[hard[j].name] == Pool(hard[j], attempts)
  }

  lemma PoolStep(r: Row, done: seq<Attempt>, a: Attempt)
    ensures Pool(r, done + [a]) == Pool(r, done)
            + if a.Returned? && Reading(a.rows, r.name).Some? then [Reading(a.rows, r.name).value] else []
  {
    assert (done + [a])[..|done + [a]| - 1] == done;
  }

  method SeedReadings(hard: seq<Row>) returns (readings: map<string, seq<real>>)
    requires WellFormed(hard)
    ensures Pooled(readings, hard, 0, |hard|, [])
  {
    readings := map[];
    for i := 0 to |hard|
      invariant Pooled(readings, hard, 0, i, [])
    {
      readings := readings[hard[i].name := [hard[i].cur]];
    }
  }

  method AddReadings(hard: seq<Row>, rerun: seq<Bench>, before: map<string, seq<real>>, ghost done: seq<Attempt>)
      returns (readings: map<string, seq<real>>)
    requires WellFormed(hard) && Pooled(before, hard, 0, |hard|, done)
    ensures Pooled(readings, hard, 0, |hard|, done + [Returned(rerun)])
  {
    var byName := RowsByName(rerun);
    readings := before;
    for i := 0 to |hard|
      invariant Pooled(readings, hard, 0, i, done + [Returned(rerun)])
      invariant Pooled(readings, hard, i, |hard|, done)
    {
      var r := hard[i];
      PoolStep(r, done, Returned(rerun));
      if r.name in byName { readings := readings[r.name := readings[r.name] + [byName[r.name]]]; }
    }
  }

  predicate IsReturned(a: Attempt) { a.Returned? }

  method CollectReadings(hard: seq<Row>, attempts: seq<Attempt>)
      returns (readings: map<string, seq<real>>, answered: nat)
    requires WellFormed(hard)
    ensures Pooled(readings, hard, 0, |hard|, attempts)
    ensures answered == |Filter(attempts, IsReturned)|
  {
    readings := SeedReadings(hard);
    answered := 0;
    for k := 0 to |attempts|
      invariant Pooled(readings, hard, 0, |hard|, attempts[..k])
      invariant answered + |Filter(attempts[k..], IsReturned)| == |Filter(attempts, IsReturned)|
    {
      var a := attempts[k];
      assert attempts[..k + 1] == attempts[..k] + [a] && attempts[k..][1..] == attempts[k + 1..];
      if a.Returned? {
        readings := AddReadings(hard, a.rows, readings, attempts[..k]);
        answered := answered + 1;
      } else {
        forall r: Row ensures Pool(r, attempts[..k + 1]) == Pool(r, attempts[..k]) { PoolStep(r, attempts[..k], a); }
      }
    }
    assert attempts[..|attempts|] == attempts;
  }

  /** Whether a row stays fatal; a row at a zero boundary always does. */
  method StaysHard(r: Row, pool: seq<real>) returns (stays: bool)
    requires pool != []
    ensures stays == !Relieves(r, pool)
  {
    var best := Best(pool, r.largerBetter);
    if r.med <= 0.0 || best <= 0.0 { return true; }
    stays := NewRatio(r, best) >= HARD_RATIO;
  }

  method Sift(hard: seq<Row>, readings: map<string, seq<real>>, ghost attempts: seq<Attempt>)
      returns (stillHard: seq<Row>, relieved: seq<Relief>)
    requires Pooled(readings, hard, 0, |hard|, attempts)
    ensures stillHard == Filter(hard, IsKept(attempts))
    ensures relieved == Reliefs(Filter(hard, IsRelieved(attempts)), attempts)
  {
    stillHard, relieved := [], [];
    for i := 0 to |hard|
      invariant stillHard == Filter(hard[..i], IsKept(attempts))
      invariant relieved == Reliefs(Filter(hard[..i], IsRelieved(attempts)), attempts)
    {
      var r := hard[i];
      FilterPush(hard, i, IsKept(attempts));
      FilterPush(hard, i, IsRelieved(attempts));
      var stays := StaysHard(r, readings[r.name]);
      if stays {
        stillHard := stillHard + [r];
      } else {
        var vals := readings[r.name];
        var best := Best(vals, r.largerBetter);
        relieved := relieved + [Relief(r, best, NewRatio(r, best), |vals| - 1)];
      }
    }
    assert hard[..|hard|] == hard;
  }

  /** The rows of the relieved entries go on the trail. */
  function RelievedTrail(reliefs: seq<Relief>): seq<TrailRow> {
    ToTrail(Image(reliefs, (x: Relief) => x.row), NotReproduced)
  }

  lemma RelievedTrailIs(rows: seq<Row>, attempts: seq<Attempt>)
    ensures RelievedTrail(Reliefs(rows, attempts)) == ToTrail(rows, NotReproduced)
  {
    assert Image(Reliefs(rows, attempts), (x: Relief) => x.row) == rows;
  }

  /** The one reason recorded for not running: a deterministic row fails the run whatever is re-measured. */
  predicate SkipsForDeterministic(hard: seq<Row>, fn: Option<seq<Attempt>>, uniform: bool) {
    hard != [] && fn.Some? && fn.value != [] && !uniform && exists r | r in hard :: r.det
  }

  /** Whether to run at all, and whether a deterministic row is why not. */
  method Decide(hard: seq<Row>, fn: Option<seq<Attempt>>, uniform: bool) returns (run: bool, skip: bool)
    ensures run == Runs(hard, fn, uniform) && skip == SkipsForDeterministic(hard, fn, uniform)
  {
    if hard == [] || fn.None? || fn.value == [] || uniform { return false, false; }
    if exists r | r in hard :: r.det { return false, true; }
    return true, false;
  }

  /** Re-measures the rows about to fail and keeps the ones that reproduce. */
  method ApplyRemeasurement(report: Report, fn: Option<seq<Attempt>>)
    requires WellFormed(report.hard)
    modifies report
    ensures report.hard == Kept(old(report.hard), fn, report.uniformShift)
    ensures Runs(old(report.hard), fn, report.uniformShift) ==>
              && report.relieved == Reliefs(Relieved(old(report.hard), fn, report.uniformShift), fn.value)
              && Pooled(report.readings, old(report.hard), 0, |old(report.hard)|, fn.value)
              && report.attempts == |Filter(fn.value, IsReturned)|
    ensures !Runs(old(report.hard), fn, report.uniformShift) ==>
              unchanged(report`relieved) && unchanged(report`readings) && unchanged(report`attempts)
    ensures report.trail == old(report.trail)
                            + ToTrail(Relieved(old(report.hard), fn, report.uniformShift), NotReproduced)
    ensures report.skipped == (old(report.skipped) || SkipsForDeterministic(old(report.hard), fn, report.uniformShift))
    ensures unchanged(report`tally) && unchanged(report`disappeared) && unchanged(report`disappearedFrac)
    ensures unchanged(report`uniformShift) && unchanged(report`failedConditions)
    ensures unchanged(report`watch) && unchanged(report`floorExempt) && unchanged(report`resolutionExempt)
    ensures unchanged(report`gatedCompared) && unchanged(report`gatedWatch)
  {
    hide Filter, Image, ToTrail, RelievedTrail, Pooled, WellFormed;
    hide IsKept, IsRelieved, Reliefs, Runs, SkipsForDeterministic;
    var hard := report.hard;
    var run, skip := Decide(hard, fn, report.uniformShift);
    NoTrail();
    if skip { report.skipped := true; }
    if !run { return; }
    RunsNeedsAttempts(hard, fn, report.uniformShift);
    var readings, answered := CollectReadings(hard, fn.value);
    var stillHard, relieved := Sift(hard, readings, fn.value);
    RelievedTrailIs(Relieved(hard, fn, report.uniformShift), fn.value);
    report.hard, report.relieved := stillHard, relieved;
    report.attempts, report.readings := answered, readings;
    report.trail := report.trail + RelievedTrail(relieved);
  }

  lemma NoTrail()
    ensures ToTrail([], NotReproduced) == []
  {
  }

  lemma RunsNeedsAttempts(hard: seq<Row>, fn: Option<seq<Attempt>>, uniform: bool)
    requires Runs(hard, fn, uniform)
    ensures fn.Some? && !SkipsForDeterministic(hard, fn, uniform)
  {
  }

  /** The order of calls in the gate: evaluate, confirm only when failing, re-derive the code. */
  function GateCode(current: seq<Bench>, hist: History, fn: Option<seq<Attempt>>): int {
    if EvaluateCode(current, hist) == 0 then 0
    else ExitCode(InvalidRows(current, hist), DisappearedFrac(current, hist),
                  Kept(Hard(current, hist), fn, Waived(current, hist)), Waived(current, hist))
  }

  method RunGate(current: seq<Bench>, hist: History, fn: Option<seq<Attempt>>) returns (code: int, report: Report)
    ensures code == GateCode(current, hist, fn)
    ensures code == report.Code()
    ensures report.tally == TallyAll(current, hist)
    ensures report.hard == FinalHard(current, hist, fn)
    ensures report.trail == FinalTrail(current, hist, fn)
  {
    code, report := Evaluate(current, hist);
    if code != 0 {
      RowsWellFormed(current, hist);
      FilterWellFormed(Rows(current, hist), IsHard);
      ApplyRemeasurement(report, fn);
      code := report.Code();
    } else {
      assert ToTrail([], NotReproduced) == [];
    }
  }

  function FinalHard(current: seq<Bench>, hist: History, fn: Option<seq<Attempt>>): seq<Row> {
    if EvaluateCode(current, hist) == 0 then Hard(current, hist)
    else Kept(Hard(current, hist), fn, Waived(current, hist))
  }

  function FinalTrail(current: seq<Bench>, hist: History, fn: Option<seq<Attempt>>): seq<TrailRow> {
    Trail(Rows(current, hist)) +
    if EvaluateCode(current, hist) == 0 then []
    else ToTrail(Relieved(Hard(current, hist), fn, Waived(current, hist)), NotReproduced)
  }

  // ----- what re-measurement can and cannot do -----------------------------------------

  /** Kept and relieved rows are the hard rows again: none added, none lost. */
  lemma RemeasurementSplits(hard: seq<Row>, fn: Option<seq<Attempt>>, uniform: bool)
    ensures multiset(Kept(hard, fn, uniform)) + multiset(Relieved(hard, fn, uniform)) == multiset(hard)
  {
    if Runs(hard, fn, uniform) { FilterSplits(hard, IsKept(fn.value), IsRelieved(fn.value)); }
  }

  lemma HardReading(r: Row)
    requires Consistent(r) && IsHard(r) && r.med > 0.0
    ensures if r.largerBetter then r.med >= 2.0 * r.cur else r.cur >= 2.0 * r.med
  {
    if !r.largerBetter {
      DivideAtLeast(r.cur, r.med, HARD_RATIO);
    } else if r.cur > 0.0 {
      DivideAtLeast(r.med, r.cur, HARD_RATIO);
    }
  }

  lemma RelievesByBest(r: Row, pool: seq<real>)
    requires pool != []
    ensures Relieves(r, pool) <==>
            var best := Best(pool, r.largerBetter);
            r.med > 0.0 && best > 0.0 && if r.largerBetter then r.med < 2.0 * best else best < 2.0 * r.med
  {
    var best := Best(pool, r.largerBetter);
    if r.med > 0.0 && best > 0.0 {
      if r.largerBetter { DivideAtLeast(r.med, best, HARD_RATIO); } else { DivideAtLeast(best, r.med, HARD_RATIO); }
    }
  }

  /** A reading that is under twice the median, or over half of it for a throughput. */
  predicate IsBetter(r: Row, v: real) { if r.largerBetter then 2.0 * v > r.med else v < 2.0 * r.med }

  /** Relief in terms of the readings alone. A time is relieved by one fresh reading under twice the
      median, provided no reading is zero; a throughput by one fresh reading over half of it. */
  lemma RelievedIff(r: Row, attempts: seq<Attempt>)
    requires Consistent(r) && IsHard(r)
    ensures Relieves(r, Pool(r, attempts)) <==>
            && r.med > 0.0
            && (r.largerBetter || forall v | v in Pool(r, attempts) :: v > 0.0)
            && exists v | v in Fresh(r.name, attempts) :: IsBetter(r, v)
  {
    var pool := Pool(r, attempts);
    RelievesByBest(r, pool);
    if r.med > 0.0 { HardReading(r); }
    ReadingsNonNegative(r.name, attempts);
    assert forall v :: v in pool <==> v == r.cur || v in Fresh(r.name, attempts);
  }

  lemma {:induction false} ReadingNonNegative(rows: seq<Bench>, name: string)
    ensures Reading(rows, name).Some? ==> Reading(rows, name).value >= 0.0
  {
    if rows != [] { ReadingNonNegative(rows[..|rows| - 1], name); }
  }

  lemma {:induction false} ReadingsNonNegative(name: string, attempts: seq<Attempt>)
    ensures forall v | v in Fresh(name, attempts) :: v >= 0.0
  {
    if attempts != [] {
      ReadingsNonNegative(name, attempts[..|attempts| - 1]);
      var a := attempts[|attempts| - 1];
      if a.Returned? { ReadingNonNegative(a.rows, name); }
    }
  }

  /** Attempts that fail, return nothing, or omit the metric never relieve it. */
  lemma NoFreshNoRelief(r: Row, attempts: seq<Attempt>)
    requires Consistent(r) && IsHard(r)
    requires forall i | 0 <= i < |attempts| :: attempts[i].Raised? || Reading(attempts[i].rows, r.name).None?
    ensures !Relieves(r, Pool(r, attempts))
  {
    FreshEmpty(r.name, attempts);
    RelievedIff(r, attempts);
  }

  lemma {:induction false} FreshEmpty(name: string, attempts: seq<Attempt>)
    requires forall i | 0 <= i < |attempts| :: attempts[i].Raised? || Reading(attempts[i].rows, name).None?
    ensures Fresh(name, attempts) == []
  {
    if attempts != [] { FreshEmpty(name, attempts[..|attempts| - 1]); }
  }

  /** The gate passes exactly when nothing failed closed, the suite is whole, and the hard set is
      empty, waived, or free of deterministic rows and relieved row by row. */
  lemma PassesIff(current: seq<Bench>, hist: History, fn: Option<seq<Attempt>>)
    ensures GateCode(current, hist, fn) == 0 <==>
            && InvalidRows(current, hist) == []
            && 10 * |Disappeared(current, hist)| <= 3 * |Gateable(hist)|
            && (|| Waived(current, hist)
                || Hard(current, hist) == []
                || (fn.Some? && fn.value != []
                    && forall r | r in Hard(current, hist) :: !r.det && Relieves(r, Pool(r, fn.value))))
  {
    var hard := Hard(current, hist);
    WholeIff(current, hist);
    if Runs(hard, fn, Waived(current, hist)) { FilterNone(hard, IsKept(fn.value)); }
  }

  // ----- no 2x reading goes quiet ------------------------------------------------------

  function TrailNames(t: seq<TrailRow>): seq<string> { Image(t, (r: TrailRow) => r.name) }

  lemma {:induction false} TwiceSplits(rows: seq<Row>)
    requires forall i | 0 <= i < |rows| :: Consistent(rows[i])
    ensures multiset(Filter(rows, AtLeastTwice))
         == multiset(Filter(rows, IsHard)) + multiset(Filter(rows, IsFloorTrail))
            + multiset(Filter(rows, IsResolutionTrail))
  {
    if rows != [] {
      assert Consistent(rows[0]);
      TwiceSplits(rows[1..]);
    }
  }

  lemma {:induction false} NamesPermutation(a: seq<Row>, b: seq<Row>)
    requires multiset(a) == multiset(b)
    ensures multiset(Names(a)) == multiset(Names(b))
  {
    hide Image;
    if a == [] {
      assert |multiset(b)| == 0;
      assert b == [];
    } else {
      var k := MatchHead(a, b);
      var head, tail, before, behind := [a[0]], a[1..], b[..k], b[k + 1..];
      NamesPermutation(tail, before + behind);
      assert a == head + tail;
      ImageGrows(head, tail, RowName);
      ImageGrows(before, head + behind, RowName);
      ImageGrows(head, behind, RowName);
      ImageGrows(before, behind, RowName);
    }
  }

  lemma TrailNamesOf(a: seq<Row>, b: seq<Row>, c: seq<Row>, x: Note, y: Note, z: Note)
    ensures TrailNames(ToTrail(a, x) + ToTrail(b, y) + ToTrail(c, z)) == Names(a) + Names(b) + Names(c)
  {
  }

  lemma NamesAppend(a: seq<Row>, b: seq<Row>)
    ensures Names(a + b) == Names(a) + Names(b)
  {
  }

  lemma ListedOnce(rows: seq<Row>, kept: seq<Row>, relieved: seq<Row>)
    requires WellFormed(rows)
    requires multiset(kept) + multiset(relieved) == multiset(Filter(rows, IsHard))
    ensures multiset(Names(kept)) + multiset(TrailNames(Trail(rows) + ToTrail(relieved, NotReproduced)))
         == multiset(Names(Filter(rows, AtLeastTwice)))
    ensures Distinct(Names(Filter(rows, AtLeastTwice)))
  {
    var floor, resolution := Filter(rows, IsFloorTrail), Filter(rows, IsResolutionTrail);
    FilterWellFormed(rows, AtLeastTwice);
    TwiceSplits(rows);
    var all := kept + (floor + resolution + relieved);
    assert multiset(all) == multiset(Filter(rows, AtLeastTwice));
    NamesPermutation(all, Filter(rows, AtLeastTwice));
    NamesAppend(kept, floor + resolution + relieved);
    NamesAppend(floor + resolution, relieved);
    NamesAppend(floor, resolution);
    TrailNamesOf(floor, resolution, relieved, FloorExemptHard, ResolutionExemptHard, NotReproduced);
  }

  lemma TwiceIsReading(rows: seq<Row>)
    requires WellFormed(rows)
    ensures Filter(rows, AtLeastTwice) == Filter(rows, ReadsTwice)
  {
    forall r | r in rows ensures AtLeastTwice(r) <==> ReadsTwice(r) { RatioIsReading(r); }
    FilterSame(rows, AtLeastTwice, ReadsTwice);
  }

  /** After both passes, the final hard list and the durable trail together name, each once, exactly the
      compared rows that read at twice their median or worse: both zero never counts, and a move off zero
      on the pessimal side counts when it exceeds what the resolution allows for. */
  lemma NothingGoesQuiet(current: seq<Bench>, hist: History, fn: Option<seq<Attempt>>)
    ensures multiset(Names(FinalHard(current, hist, fn))) + multiset(TrailNames(FinalTrail(current, hist, fn)))
         == multiset(Names(Filter(Rows(current, hist), ReadsTwice)))
    ensures Distinct(Names(Filter(Rows(current, hist), ReadsTwice)))
  {
    var rows, hard := Rows(current, hist), Hard(current, hist);
    RowsWellFormed(current, hist);
    TwiceIsReading(rows);
    if EvaluateCode(current, hist) == 0 {
      ListedOnce(rows, hard, []);
      assert ToTrail([], NotReproduced) == [];
    } else {
      RemeasurementSplits(hard, fn, Waived(current, hist));
      ListedOnce(rows, FinalHard(current, hist, fn), Relieved(hard, fn, Waived(current, hist)));
    }
  }

  // ----- floor-exempt metrics do not interfere -----------------------------------------

  /** The two runs differ only in readings of the metrics in `exempt`. */
  ghost predicate SameBut(a: seq<Bench>, b: seq<Bench>, exempt: set<string>) {
    && |a| == |b|
    && forall i | 0 <= i < |a| ::
         && a[i].name == b[i].name && a[i].unit == b[i].unit
         && (a[i] == b[i] || (a[i].name.Some? && a[i].name.value in exempt))
  }

  lemma {:induction false} SameIndex(a: seq<Bench>, b: seq<Bench>, exempt: set<string>)
    requires SameBut(a, b, exempt)
    ensures NameList(a) == NameList(b) && ByName(a).Keys == ByName(b).Keys
    ensures forall n | n in ByName(a) :: ByName(a)[n].unit == ByName(b)[n].unit
    ensures forall n | n in ByName(a) :: ByName(a)[n] == ByName(b)[n] || n in exempt
  {
    if a != [] { SameIndex(a[..|a| - 1], b[..|b| - 1], exempt); }
  }

  ghost predicate ExemptRow(v: Verdict) { v.Compared? && v.row.floorExempt }

  /** The floor depends on name, unit and history alone. */
  lemma FloorIgnoresReading(name: string, v: Num, w: Num, unit: string, pts: seq<Num>)
    requires Judge(name, v, unit, pts).Compared? && Judge(name, w, unit, pts).Compared?
    ensures Judge(name, v, unit, pts).row.floorExempt == Judge(name, w, unit, pts).row.floorExempt
  {
  }

  lemma {:induction false} SameLists(names: seq<string>, a: map<string, Bench>, b: map<string, Bench>, hist: History)
    requires forall n | n in names :: n in a && n in b
    requires forall n | n in names ::
               VerdictOf(a, hist, n) == VerdictOf(b, hist, n)
               || (ExemptRow(VerdictOf(a, hist, n)) && ExemptRow(VerdictOf(b, hist, n)))
    ensures InvalidOf(names, a, hist) == InvalidOf(names, b, hist)
    ensures Filter(RowsOf(names, a, hist), IsGated) == Filter(RowsOf(names, b, hist), IsGated)
  {
    if names != [] {
      var init, n := names[..|names| - 1], names[|names| - 1];
      assert n in names;
      SameLists(init, a, b, hist);
      var va, vb := VerdictOf(a, hist, n), VerdictOf(b, hist, n);
      FilterAppend(RowsOf(init, a, hist), if va.Compared? then [va.row] else [], IsGated);
      FilterAppend(RowsOf(init, b, hist), if vb.Compared? then [vb.row] else [], IsGated);
    }
  }

  lemma {:induction false} HardIsGated(rows: seq<Row>)
    ensures Filter(Filter(rows, IsGated), IsHard) == Filter(rows, IsHard)
  {
    if rows != [] {
      HardIsGated(rows[1..]);
      FilterAppend(if IsGated(rows[0]) then [rows[0]] else [], Filter(rows[1..], IsGated), IsHard);
    }
  }

  /** Changing the readings of floor-exempt metrics, as long as they stay comparable, changes neither
      the verdict of the run nor anything a re-measurement of it would decide. */
  lemma ExemptReadingsDoNotInterfere(a: seq<Bench>, b: seq<Bench>, exempt: set<string>, hist: History,
                                     fn: Option<seq<Attempt>>)
    requires SameBut(a, b, exempt)
    requires forall n | n in exempt && n in ByName(a) && n in ByName(b) ::
               ExemptRow(VerdictOf(ByName(a), hist, n)) && VerdictOf(ByName(b), hist, n).Compared?
    ensures EvaluateCode(a, hist) == EvaluateCode(b, hist)
    ensures Hard(a, hist) == Hard(b, hist) && Waived(a, hist) == Waived(b, hist)
    ensures GateCode(a, hist, fn) == GateCode(b, hist, fn)
  {
    SameIndex(a, b, exempt);
    SortedNamesMatch(a);
    SortedNamesMatch(b);
    var ma, mb := ByName(a), ByName(b);
    forall n | n in SortedNames(a)
      ensures VerdictOf(ma, hist, n) == VerdictOf(mb, hist, n)
           || (ExemptRow(VerdictOf(ma, hist, n)) && ExemptRow(VerdictOf(mb, hist, n)))
    {
      assert n in ma && n in mb;
      if n in exempt { FloorIgnoresReading(n, ma[n].value, mb[n].value, ma[n].unit, Points(hist, n)); }
    }
    SameLists(SortedNames(a), ma, mb, hist);
    HardIsGated(Rows(a, hist));
    HardIsGated(Rows(b, hist));
    assert Disappeared(a, hist) == Disappeared(b, hist);
  }

  // ----- readings by attempt and row ---------------------------------------------------

  lemma {:induction false} FreshSplits(name: string, a: seq<Attempt>, b: seq<Attempt>)
    ensures Fresh(name, a + b) == Fresh(name, a) + Fresh(name, b)
  {
    if b == [] {
      assert a + b == a;
    } else {
      var last := b[|b| - 1];
      assert (a + b)[..|a + b| - 1] == a + b[..|b| - 1];
      FreshSplits(name, a, b[..|b| - 1]);
    }
  }

  /** An attempt has this reading of the metric: it returned rows, and the last usable one says so. */
  ghost predicate AttemptReads(a: Attempt, name: string, v: real) {
    a.Returned? && ReadsLast(a.rows, name, v)
  }

  /** One attempt adds its reading, if it has one. */
  lemma FreshOne(name: string, a: Attempt, v: real)
    ensures |Fresh(name, [a])| <= 1
    ensures v in Fresh(name, [a]) <==> AttemptReads(a, name, v)
  {
    hide ReadsLast;
    assert [a][..0] == [] && Fresh(name, []) == [];
    if a.Returned? { ReadingIff(a.rows, name, v); }
  }

  lemma {:induction false} FreshIff(name: string, attempts: seq<Attempt>, v: real)
    ensures v in Fresh(name, attempts) <==> exists a | a in attempts :: AttemptReads(a, name, v)
  {
    if attempts != [] {
      var init, last := attempts[..|attempts| - 1], attempts[|attempts| - 1];
      assert attempts == init + [last];
      FreshIff(name, init, v);
      FreshSplits(name, init, [last]);
      FreshOne(name, last, v);
    }
  }

  lemma SomeFreshIff(r: Row, attempts: seq<Attempt>)
    ensures (exists v | v in Fresh(r.name, attempts) :: IsBetter(r, v)) <==>
            exists a, v :: a in attempts && AttemptReads(a, r.name, v) && IsBetter(r, v)
  {
    hide AttemptReads, Fresh, IsBetter;
    if v :| v in Fresh(r.name, attempts) && IsBetter(r, v) {
      FreshIff(r.name, attempts, v);
      var a :| a in attempts && AttemptReads(a, r.name, v);
    }
    if a, v :| a in attempts && AttemptReads(a, r.name, v) && IsBetter(r, v) { FreshIff(r.name, attempts, v); }
  }

  lemma AllPositiveIff(r: Row, attempts: seq<Attempt>)
    requires r.cur >= 0.0
    ensures (forall v | v in Pool(r, attempts) :: v > 0.0) <==>
            r.cur > 0.0 && !exists a | a in attempts :: AttemptReads(a, r.name, 0.0)
  {
    hide AttemptReads, Fresh;
    ReadingsNonNegative(r.name, attempts);
    FreshIff(r.name, attempts, 0.0);
    assert forall v :: v in Pool(r, attempts) <==> v == r.cur || v in Fresh(r.name, attempts);
  }

  /** Relief by rows: some attempt's reading of the metric is under twice the median, or over half of it
      for a throughput, and no reading of a time is zero. */
  lemma RelievedByRows(r: Row, attempts: seq<Attempt>)
    requires Consistent(r) && IsHard(r)
    ensures Relieves(r, Pool(r, attempts)) <==>
            && r.med > 0.0
            && (r.largerBetter || (r.cur > 0.0 && !exists a | a in attempts :: AttemptReads(a, r.name, 0.0)))
            && exists a, v :: a in attempts && AttemptReads(a, r.name, v) && IsBetter(r, v)
  {
    hide AttemptReads, Fresh, Relieves, IsBetter, Pool, IsHard;
    RelievedIff(r, attempts);
    SomeFreshIff(r, attempts);
    AllPositiveIff(r, attempts);
  }

  /** A regression that reads the same again is never relieved. */
  lemma SameReadingNeverRelieves(r: Row, attempts: seq<Attempt>)
    requires Consistent(r) && IsHard(r)
    requires forall a, v | a in attempts && AttemptReads(a, r.name, v) :: v == r.cur
    ensures !Relieves(r, Pool(r, attempts))
  {
    RelievedByRows(r, attempts);
    if r.med > 0.0 { HardReading(r); }
  }

  /** What happens to a hard row: it is kept when the pass does not run, because there is nothing to run,
      the shift is waived or some hard row is deterministic, and else exactly when it is not relieved. */
  lemma KeptIff(hard: seq<Row>, fn: Option<seq<Attempt>>, uniform: bool, r: Row)
    ensures r in Kept(hard, fn, uniform) <==>
            && r in hard
            && (|| fn.None? || fn.value == [] || uniform || (exists d | d in hard :: d.det)
                || !Relieves(r, Pool(r, fn.value)))
    ensures r in Relieved(hard, fn, uniform) <==> r in hard && r !in Kept(hard, fn, uniform)
  {
    if Runs(hard, fn, uniform) {
      FilterMembers(hard, IsKept(fn.value));
      FilterMembers(hard, IsRelieved(fn.value));
    }
  }

  /** What the report keeps of a relieved row: the least regressed of all its readings, its ratio, and how
      many were fresh. */
  lemma ReliefRecords(r: Row, attempts: seq<Attempt>)
    requires Relieves(r, Pool(r, attempts))
    ensures var x := ToRelief(attempts)(r);
            && x.row == r && x.best in Pool(r, attempts) && x.rerun == |Fresh(r.name, attempts)|
            && (forall v | v in Pool(r, attempts) :: if r.largerBetter then v <= x.best else v >= x.best)
            && x.best > 0.0 && r.med > 0.0
            && x.ratio == if r.largerBetter then r.med / x.best else x.best / r.med
  {
  }

  // ----- the gate over its inputs ------------------------------------------------------

  lemma GateCodeIsBit(current: seq<Bench>, hist: History, fn: Option<seq<Attempt>>)
    ensures GateCode(current, hist, fn) == 0 || GateCode(current, hist, fn) == 1
  {
    hide Rows, InvalidRows, DisappearedFrac, Kept, Waived;
  }

  /** A metric whose last reading is past the allowance over its own history's median, with the median at
      its floor, fails the gate unless the run is waived or a re-measurement relieves the row. */
  lemma RegressionFails(current: seq<Bench>, hist: History, fn: Option<seq<Attempt>>, i: nat, n: string)
    requires IsLast(current, i, n) && n in hist && |hist[n]| >= 3 && AllGood(hist[n]) && !BadPoint(current[i].value)
    requires var cur, med, unit := current[i].value.v, Median(Reals(hist[n])), current[i].unit;
             && ReachesFloor(unit, med) && !(cur == 0.0 && med == 0.0)
             && PastAllowance(cur, med, LargerIsBetter(n),
                              if unit == "s" then Quantum([cur] + Reals(hist[n]), -3)
                              else if unit == "milli" then Quantum([cur] + Reals(hist[n]), 0) else 0.0)
    ensures || GateCode(current, hist, fn) == 1
            || Waived(current, hist)
            || (fn.Some?
                && exists r | r in Hard(current, hist) :: r.name == n && !r.det && Relieves(r, Pool(r, fn.value)))
  {
    var value, unit := current[i].value, current[i].unit;
    var v := Judge(n, value, unit, hist[n]);
    FailsClosedIff(n, value, unit, hist[n]);
    RowRecords(n, value, unit, hist[n]);
    HardVerdict(n, value, unit, hist[n]);
    hide Judge, Median, Quantum, ReachesFloor, PastAllowance, LargerIsBetter, Rows, Waived, InvalidRows;
    PassesIff(current, hist, fn);
    GateCodeIsBit(current, hist, fn);
    if v.Compared? {
      assert Gives(current, hist, i, v.row);
      RowIff(current, hist, v.row);
      FilterMembers(Rows(current, hist), IsHard);
      assert v.row in Hard(current, hist);
    } else {
      assert Judged(current, hist, i, n, Invalid(v.reason));
      ListsIff(current, hist, n, v.reason, 0);
      TallyIsPicked(current, hist);
      assert (n, v.reason) in InvalidRows(current, hist);
    }
  }
}
