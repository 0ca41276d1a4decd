/** The whole benchmark hard zone (scripts/bench_hardzone.py): evaluation of every metric, the
    uniform-shift waiver, the durable trail, confirmation by re-measurement and the exit code. */
module Gate {
  import opened Basics
  import opened Sorting
  import opened Sums
  import opened Resolution
  import opened HardZone
  import opened Uniformity

  const WATCH_RATIO: real := 1.75
  const UNIFORM_FRACTION: real := 0.5
  const UNIFORM_CAP_RATIO: real := 4.0
  const DET_TOLERANCE: real := 0.01
  const DISAPPEAR_FAIL_FRACTION: real := 0.30

  type History = map<string, seq<Num>>

  // ----- every metric of a run ---------------------------------------------------------

  /** The last row of each name. */
  function ByName(current: seq<Bench>): map<string, Bench> {
    if current == [] then map[] else
    var before, b := ByName(current[..|current| - 1]), current[|current| - 1];
    if b.name.Some? then before[b.name.value := b] else before
  }

  /** The names of a run, each once. */
  function NameList(current: seq<Bench>): seq<string> {
    if current == [] then [] else
    var before, b := NameList(current[..|current| - 1]), current[|current| - 1];
    if b.name.Some? && b.name.value !in before then before + [b.name.value] else before
  }

  function SortedNames(current: seq<Bench>): seq<string> { Sort(NameList(current), StringLe) }

  function Points(hist: History, name: string): seq<Num> { if name in hist then hist[name] else [] }

  function VerdictOf(byName: map<string, Bench>, hist: History, name: string): Verdict
    requires name in byName
  {
    Judge(name, byName[name].value, byName[name].unit, Points(hist, name))
  }

  /** What `pick` takes from the verdicts of `names`, in order. */
  function Collect<T>(names: seq<string>, byName: map<string, Bench>, hist: History,
                      pick: (string, Verdict) -> seq<T>): seq<T>
    requires forall n | n in names :: n in byName
  {
    if names == [] then [] else
    var init, name := names[..|names| - 1], names[|names| - 1];
    Collect(init, byName, hist, pick) + pick(name, VerdictOf(byName, hist, name))
  }

  function PickRow(name: string, v: Verdict): seq<Row> { if v.Compared? then [v.row] else [] }

  function PickInvalid(name: string, v: Verdict): seq<(string, Reason)> {
    if v.Invalid? then [(name, v.reason)] else []
  }

  function PickNew(name: string, v: Verdict): seq<string> { if v.NoHistory? then [name] else [] }

  function PickUngated(name: string, v: Verdict): seq<(string, nat)> { if v.Ungated? then [(name, v.n)] else [] }

  function PickZero(zero: Zero): (string, Verdict) -> seq<Row> {
    (name: string, v: Verdict) => if v.Compared? && v.zero == zero then [v.row] else []
  }

  /** The compared rows among `names`, in order. */
  function RowsOf(names: seq<string>, byName: map<string, Bench>, hist: History): seq<Row>
    requires forall n | n in names :: n in byName
  {
    Collect(names, byName, hist, PickRow)
  }

  /** The metrics among `names` that fail closed, in order. */
  function InvalidOf(names: seq<string>, byName: map<string, Bench>, hist: History): seq<(string, Reason)>
    requires forall n | n in names :: n in byName
  {
    Collect(names, byName, hist, PickInvalid)
  }

  /** The lists one pass over the metrics fills. */
  datatype Tally = Tally(rows: seq<Row>, invalid: seq<(string, Reason)>, unseen: seq<string>,
                         ungated: seq<(string, nat)>, stableZero: seq<Row>, improvedToZero: seq<Row>,
                         zeroCrossing: seq<Row>)

  function TallyOf(names: seq<string>, byName: map<string, Bench>, hist: History): Tally
    requires forall n | n in names :: n in byName
  {
    Tally(RowsOf(names, byName, hist), InvalidOf(names, byName, hist),
          Collect(names, byName, hist, PickNew), Collect(names, byName, hist, PickUngated),
          Collect(names, byName, hist, PickZero(StableZero)), Collect(names, byName, hist, PickZero(ImprovedToZero)),
          Collect(names, byName, hist, PickZero(ZeroCrossing)))
  }

  lemma {:induction false} NameListMatches(current: seq<Bench>)
    ensures forall n :: n in NameList(current) <==> n in ByName(current)
    ensures Distinct(NameList(current))
  {
    if current != [] { NameListMatches(current[..|current| - 1]); }
  }

  lemma SortedNamesMatch(current: seq<Bench>)
    ensures multiset(SortedNames(current)) == multiset(NameList(current))
    ensures forall n :: n in SortedNames(current) <==> n in ByName(current)
  {
    StringLeIsTotalPreorder();
    SortSorts(NameList(current), StringLe);
    NameListMatches(current);
    forall n ensures n in SortedNames(current) <==> n in ByName(current) {
      if n in SortedNames(current) { SameMembers(SortedNames(current), NameList(current), n); }
      if n in NameList(current) { SameMembers(NameList(current), SortedNames(current), n); }
    }
  }

  function Rows(current: seq<Bench>, hist: History): seq<Row> {
    SortedNamesMatch(current);
    RowsOf(SortedNames(current), ByName(current), hist)
  }

  function InvalidRows(current: seq<Bench>, hist: History): seq<(string, Reason)> {
    SortedNamesMatch(current);
    InvalidOf(SortedNames(current), ByName(current), hist)
  }

  function TallyAll(current: seq<Bench>, hist: History): Tally {
    SortedNamesMatch(current);
    TallyOf(SortedNames(current), ByName(current), hist)
  }

  // ----- the derived lists -------------------------------------------------------------

  datatype Note = FloorExemptHard | ResolutionExemptHard | NotReproduced

  datatype TrailRow = TrailRow(name: string, current: real, previous: real, ratio: real, unit: string, note: Note)

  predicate IsGated(r: Row) { !r.floorExempt }
  predicate IsFloorExempt(r: Row) { r.floorExempt }
  predicate IsWatched(r: Row) { r.ratio >= WATCH_RATIO }
  predicate AtLeastTwice(r: Row) { r.ratio >= HARD_RATIO }
  predicate IsFloorTrail(r: Row) { r.floorExempt && r.ratio >= HARD_RATIO }
  predicate IsResolutionTrail(r: Row) { !r.floorExempt && r.resolutionExempt }

  function ToTrail(rows: seq<Row>, note: Note): seq<TrailRow> {
    Image(rows, (r: Row) => TrailRow(r.name, r.cur, r.med, r.ratio, r.unit, note))
  }

  function Trail(rows: seq<Row>): seq<TrailRow> {
    ToTrail(Filter(rows, IsFloorTrail), FloorExemptHard)
    + ToTrail(Filter(rows, IsResolutionTrail), ResolutionExemptHard)
  }

  function Ratios(rows: seq<Row>): seq<real> { Image(rows, (r: Row) => r.ratio) }

  predicate DetMoved(r: Row) { r.det && Abs(r.ratio - 1.0) > DET_TOLERANCE }

  /** The uniform-shift waiver: breadth, uniformity, cap and deterministic stillness. */
  predicate UniformShift(gated: seq<Row>) {
    var watch := Filter(gated, IsWatched);
    && gated != [] && watch != []
    && |watch| as real / |gated| as real >= UNIFORM_FRACTION
    && IsUniform(Ratios(watch))
    && (forall r | r in gated :: r.ratio < UNIFORM_CAP_RATIO)
    && (forall r | r in gated :: !DetMoved(r))
  }

  /** The conditions of the waiver that a run fails. */
  datatype Condition = Breadth | Evenness | Cap | DeterministicDrift

  function FailedConditions(gated: seq<Row>): seq<Condition> {
    var watch := Filter(gated, IsWatched);
    if gated == [] || watch == [] then [] else
    (if |watch| as real / |gated| as real >= UNIFORM_FRACTION then [] else [Breadth])
    + (if IsUniform(Ratios(watch)) then [] else [Evenness])
    + (if forall r | r in gated :: r.ratio < UNIFORM_CAP_RATIO then [] else [Cap])
    + (if forall r | r in gated :: !DetMoved(r) then [] else [DeterministicDrift])
  }

  /** A run with a watched row is waived exactly when no condition is reported as failed. */
  lemma WaivedIffNoReason(gated: seq<Row>)
    ensures UniformShift(gated) <==> Filter(gated, IsWatched) != [] && FailedConditions(gated) == []
  {
  }

  function Gateable(hist: History): set<string> { set n | n in hist && |hist[n]| >= MIN_HISTORY }

  function Disappeared(current: seq<Bench>, hist: History): set<string> {
    set n | n in Gateable(hist) && n !in ByName(current)
  }

  function DisappearedFrac(current: seq<Bench>, hist: History): real {
    if Gateable(hist) == {} then 0.0 else |Disappeared(current, hist)| as real / |Gateable(hist)| as real
  }

  function ExitCode(invalid: seq<(string, Reason)>, disappearedFrac: real, hard: seq<Row>, uniform: bool): int {
    if invalid != [] then 1
    else if disappearedFrac > DISAPPEAR_FAIL_FRACTION then 1
    else if hard != [] && !uniform then 1
    else 0
  }

  function Hard(current: seq<Bench>, hist: History): seq<Row> { Filter(Rows(current, hist), IsHard) }

  predicate Waived(current: seq<Bench>, hist: History) { UniformShift(Filter(Rows(current, hist), IsGated)) }

  function EvaluateCode(current: seq<Bench>, hist: History): int {
    ExitCode(InvalidRows(current, hist), DisappearedFrac(current, hist), Hard(current, hist), Waived(current, hist))
  }

  // ----- the shared report -------------------------------------------------------------

  /** `list` holds exactly these names, each once and in order. */
  ghost predicate IsListing(list: seq<string>, names: set<string>) {
    SortedBy(StringLe, list) && Distinct(list) && forall n :: n in list <==> n in names
  }

  class Report {
    var tally: Tally
    var watch: seq<Row>
    var floorExempt: seq<Row>
    var resolutionExempt: seq<Row>
    var gatedCompared: nat
    var gatedWatch: nat
    var hard: seq<Row>
    var trail: seq<TrailRow>
    var disappeared: seq<string>
    var disappearedFrac: real
    var uniformShift: bool
    var failedConditions: seq<Condition>
    var relieved: seq<Relief>
    var readings: map<string, seq<real>>
    var attempts: nat
    var skipped: bool

    constructor (tally: Tally, disappeared: seq<string>, disappearedFrac: real)
      ensures this.tally == tally && this.disappeared == disappeared && this.disappearedFrac == disappearedFrac
      ensures hard == Filter(tally.rows, IsHard) && trail == Trail(tally.rows)
      ensures watch == Filter(tally.rows, IsWatched) && floorExempt == Filter(tally.rows, IsFloorExempt)
      ensures resolutionExempt == Filter(tally.rows, IsResolutionTrail)
      ensures gatedCompared == |Filter(tally.rows, IsGated)|
      ensures gatedWatch == |Filter(Filter(tally.rows, IsGated), IsWatched)|
      ensures uniformShift == UniformShift(Filter(tally.rows, IsGated))
      ensures failedConditions == FailedConditions(Filter(tally.rows, IsGated))
      ensures relieved == [] && readings == map[] && attempts == 0 && !skipped
    {
      this.tally, this.disappeared, this.disappearedFrac := tally, disappeared, disappearedFrac;
      hard, trail := Filter(tally.rows, IsHard), Trail(tally.rows);
      var gated := Filter(tally.rows, IsGated);
      watch, floorExempt := Filter(tally.rows, IsWatched), Filter(tally.rows, IsFloorExempt);
      resolutionExempt := Filter(tally.rows, IsResolutionTrail);
      gatedCompared, gatedWatch := |gated|, |Filter(gated, IsWatched)|;
      uniformShift := UniformShift(gated);
      failedConditions := FailedConditions(gated);
      relieved, readings, attempts, skipped := [], map[], 0, false;
    }

    function Code(): int
      reads this
    {
      ExitCode(tally.invalid, disappearedFrac, hard, uniformShift)
    }
  }

  /** A relieved row, its best reading, the ratio of that, and the number of fresh readings. */
  datatype Relief = Relief(row: Row, best: real, ratio: real, rerun: nat)

  method IndexRows(current: seq<Bench>) returns (names: seq<string>, byName: map<string, Bench>)
    ensures names == NameList(current) && byName == ByName(current)
  {
    names, byName := [], map[];
    for i := 0 to |current|
      invariant names == NameList(current[..i]) && byName == ByName(current[..i])
    {
      assert current[..i + 1][..i] == current[..i];
      NameListMatches(current[..i]);
      var b := current[i];
      if b.name.Some? {
        if b.name.value !in byName { names := names + [b.name.value]; }
        byName := byName[b.name.value := b];
      }
    }
    assert current[..|current|] == current;
  }

  /** A verdict added to the lists. */
  function Add(t: Tally, name: string, v: Verdict): Tally {
    Tally(t.rows + PickRow(name, v), t.invalid + PickInvalid(name, v), t.unseen + PickNew(name, v),
          t.ungated + PickUngated(name, v), t.stableZero + PickZero(StableZero)(name, v),
          t.improvedToZero + PickZero(ImprovedToZero)(name, v), t.zeroCrossing + PickZero(ZeroCrossing)(name, v))
  }

  lemma TallyStep(names: seq<string>, i: nat, byName: map<string, Bench>, hist: History)
    requires i < |names| && forall n | n in names :: n in byName
    ensures TallyOf(names[..i + 1], byName, hist)
         == Add(TallyOf(names[..i], byName, hist), names[i], VerdictOf(byName, hist, names[i]))
  {
    hide Judge, PickRow, PickInvalid, PickNew, PickUngated, PickZero;
    assert names[..i + 1][..i] == names[..i];
  }

  method Record(before: Tally, name: string, v: Verdict) returns (out: Tally)
    ensures out == Add(before, name, v)
  {
    out := before;
    match v {
      case Invalid(reason) => out := out.(invalid := out.invalid + [(name, reason)]);
      case NoHistory => out := out.(unseen := out.unseen + [name]);
      case Ungated(n) => out := out.(ungated := out.ungated + [(name, n)]);
      case Compared(row, zero) =>
        out := out.(rows := out.rows + [row]);
        match zero {
          case StableZero => out := out.(stableZero := out.stableZero + [row]);
          case ImprovedToZero => out := out.(improvedToZero := out.improvedToZero + [row]);
          case ZeroCrossing => out := out.(zeroCrossing := out.zeroCrossing + [row]);
          case Ordinary =>
        }
    }
  }

  /** The loop over the sorted names. */
  method JudgeAll(names: seq<string>, byName: map<string, Bench>, hist: History) returns (out: Tally)
    requires forall n | n in names :: n in byName
    ensures out == TallyOf(names, byName, hist)
  {
    out := Tally([], [], [], [], [], [], []);
    for i := 0 to |names|
      invariant out == TallyOf(names[..i], byName, hist)
    {
      hide Judge, TallyOf, Add;
      var name := names[i];
      assert name in names;
      TallyStep(names, i, byName, hist);
      out := Record(out, name, Judge(name, byName[name].value, byName[name].unit, Points(hist, name)));
    }
    assert names[..|names|] == names;
  }

  method ListNames(names: set<string>) returns (list: seq<string>)
    ensures IsListing(list, names)
  {
    var todo, found: seq<string> := names, [];
    while todo != {}
      invariant todo <= names && Distinct(found)
      invariant forall n :: n in found <==> n in names - todo
      decreases todo
    {
      var n :| n in todo;
      assert forall k | 0 <= k < |found| :: found[k] in found;
      todo, found := todo - {n}, found + [n];
    }
    list := Sort(found, StringLe);
    StringLeIsTotalPreorder();
    SortSorts(found, StringLe);
    DistinctPermutation(found, list);
    forall n ensures n in list <==> n in names {
      if n in list { SameMembers(list, found, n); }
      if n in found { SameMembers(found, list, n); }
    }
  }

  method Evaluate(current: seq<Bench>, hist: History) returns (code: int, report: Report)
    ensures fresh(report)
    ensures report.tally == TallyAll(current, hist)
    ensures report.hard == Hard(current, hist) && report.trail == Trail(Rows(current, hist))
    ensures report.watch == Filter(Rows(current, hist), IsWatched)
    ensures report.floorExempt == Filter(Rows(current, hist), IsFloorExempt)
    ensures report.resolutionExempt == Filter(Rows(current, hist), IsResolutionTrail)
    ensures report.gatedCompared == |Filter(Rows(current, hist), IsGated)|
    ensures report.gatedWatch == |Filter(Filter(Rows(current, hist), IsGated), IsWatched)|
    ensures IsListing(report.disappeared, Disappeared(current, hist))
    ensures forall n :: n in report.disappeared <==> n in hist && |hist[n]| >= 3 && !IsNamed(current, n)
    ensures report.disappearedFrac == DisappearedFrac(current, hist)
    ensures report.uniformShift == Waived(current, hist)
    ensures report.failedConditions == FailedConditions(Filter(Rows(current, hist), IsGated))
    ensures report.relieved == [] && report.readings == map[] && report.attempts == 0 && !report.skipped
    ensures code == report.Code() == EvaluateCode(current, hist)
  {
    hide RowsOf, InvalidOf, Collect, Filter, Trail, UniformShift, DisappearedFrac, FailedConditions;
    var names, byName := IndexRows(current);
    SortedNamesMatch(current);
    var out := JudgeAll(Sort(names, StringLe), byName, hist);
    var gone := ListNames(Disappeared(current, hist));
    report := new Report(out, gone, DisappearedFrac(current, hist));
    code := report.Code();
    forall n ensures n in report.disappeared <==> n in hist && |hist[n]| >= 3 && !IsNamed(current, n) {
      DisappearedIff(current, hist, n);
    }
  }

  // ----- facts about the rows ----------------------------------------------------------

  function RowName(r: Row): string { r.name }

  function Names(rows: seq<Row>): seq<string> { Image(rows, RowName) }

  ghost predicate WellFormed(rows: seq<Row>) {
    && (forall i | 0 <= i < |rows| :: Consistent(rows[i]))
    && (forall i, j | 0 <= i < j < |rows| :: rows[i].name != rows[j].name)
  }

  lemma {:induction false} RowsOfWellFormed(names: seq<string>, byName: map<string, Bench>, hist: History)
    requires forall n | n in names :: n in byName
    requires Distinct(names)
    ensures WellFormed(RowsOf(names, byName, hist))
    ensures forall r | r in RowsOf(names, byName, hist) :: r.name in names
  {
    if names != [] {
      var init, name := names[..|names| - 1], names[|names| - 1];
      assert names == init + [name];
      RowsOfWellFormed(init, byName, hist);
      JudgeIsConsistent(name, byName[name].value, byName[name].unit, Points(hist, name));
    }
  }

  /** Rows carry distinct names and the data their verdicts were drawn from. */
  lemma RowsWellFormed(current: seq<Bench>, hist: History)
    ensures WellFormed(Rows(current, hist))
  {
    SortedNamesMatch(current);
    NameListMatches(current);
    DistinctPermutation(NameList(current), SortedNames(current));
    RowsOfWellFormed(SortedNames(current), ByName(current), hist);
  }

  lemma {:induction false} FilterWellFormed(rows: seq<Row>, p: Row -> bool)
    requires WellFormed(rows)
    ensures WellFormed(Filter(rows, p))
  {
    if rows != [] {
      FilterWellFormed(rows[1..], p);
      FilterMembers(rows[1..], p);
      var rest := Filter(rows[1..], p);
      forall k | 0 <= k < |rest| ensures rest[k].name != rows[0].name {
        assert rest[k] in rest;
        var i :| 0 <= i < |rows[1..]| && rows[1..][i] == rest[k];
        assert rows[i + 1] == rest[k];
      }
    }
  }

  // ----- every metric of the run is accounted for --------------------------------------

  function FailedName(x: (string, Reason)): string { x.0 }

  function YoungName(x: (string, nat)): string { x.0 }

  function FailedNames(invalid: seq<(string, Reason)>): seq<string> { Image(invalid, FailedName) }

  function YoungNames(ungated: seq<(string, nat)>): seq<string> { Image(ungated, YoungName) }

  ghost function ListedNames(t: Tally): multiset<string> {
    multiset(Names(t.rows)) + multiset(FailedNames(t.invalid)) + multiset(t.unseen) + multiset(YoungNames(t.ungated))
  }

  lemma ImageGrows<T, U>(s: seq<T>, t: seq<T>, f: T -> U)
    ensures multiset(Image(s + t, f)) == multiset(Image(s, f)) + multiset(Image(t, f))
  {
    assert Image(s + t, f) == Image(s, f) + Image(t, f);
  }

  lemma EachVerdictListsOnce(name: string, v: Verdict)
    requires v.Compared? ==> v.row.name == name
    ensures multiset(Names(PickRow(name, v))) + multiset(FailedNames(PickInvalid(name, v)))
            + multiset(PickNew(name, v)) + multiset(YoungNames(PickUngated(name, v))) == multiset{name}
  {
    assert Names([]) == [] && FailedNames([]) == [] && YoungNames([]) == [];
    match v {
      case Compared(row, _) => assert Names([row]) == [name];
      case Invalid(reason) => assert FailedNames([(name, reason)]) == [name];
      case NoHistory =>
      case Ungated(n) => assert YoungNames([(name, n)]) == [name];
    }
  }

  lemma ListedNamesGrow(a: Tally, name: string, v: Verdict)
    requires v.Compared? ==> v.row.name == name
    ensures ListedNames(Add(a, name, v)) == ListedNames(a) + multiset{name}
  {
    hide PickRow, PickInvalid, PickNew, PickUngated, Image;
    ImageGrows(a.rows, PickRow(name, v), RowName);
    ImageGrows(a.invalid, PickInvalid(name, v), FailedName);
    ImageGrows(a.ungated, PickUngated(name, v), YoungName);
    EachVerdictListsOnce(name, v);
  }

  lemma {:induction false} TallyListsEach(names: seq<string>, byName: map<string, Bench>, hist: History)
    requires forall n | n in names :: n in byName
    ensures ListedNames(TallyOf(names, byName, hist)) == multiset(names)
  {
    if names != [] {
      hide Judge, ListedNames, TallyOf;
      var init, name := names[..|names| - 1], names[|names| - 1];
      TallyListsEach(init, byName, hist);
      JudgeIsConsistent(name, byName[name].value, byName[name].unit, Points(hist, name));
      TallyStep(names, |init|, byName, hist);
      assert names[..|init| + 1] == names == init + [name];
      ListedNamesGrow(TallyOf(init, byName, hist), name, VerdictOf(byName, hist, name));
    }
  }

  /** Every metric of the run is in exactly one of the compared, failed, new and ungated lists, once. */
  lemma EveryMetricIsListedOnce(current: seq<Bench>, hist: History)
    ensures ListedNames(TallyAll(current, hist)) == multiset(SortedNames(current))
    ensures Distinct(SortedNames(current)) && forall n :: n in SortedNames(current) <==> n in ByName(current)
  {
    SortedNamesMatch(current);
    NameListMatches(current);
    DistinctPermutation(NameList(current), SortedNames(current));
    TallyListsEach(SortedNames(current), ByName(current), hist);
  }

  // ----- the lists in terms of the run and its history ---------------------------------

  /** The last bench of a run with this name. */
  ghost predicate IsLast(current: seq<Bench>, i: nat, n: string) {
    && i < |current| && current[i].name == Some(n)
    && forall j | i < j < |current| :: current[j].name != Some(n)
  }

  lemma {:induction false} LastExists(current: seq<Bench>, n: string) returns (i: nat)
    requires n in ByName(current)
    ensures IsLast(current, i, n) && ByName(current)[n] == current[i]
  {
    var last := |current| - 1;
    if current[last].name == Some(n) {
      i := last;
    } else {
      i := LastExists(current[..last], n);
      assert current[..last][i] == current[i];
      assert forall j | i < j < last :: current[..last][j] == current[j];
    }
  }

  lemma {:induction false} NamedIsIndexed(current: seq<Bench>, i: nat)
    requires i < |current| && current[i].name.Some?
    ensures current[i].name.value in ByName(current)
  {
    var last := |current| - 1;
    if i < last {
      NamedIsIndexed(current[..last], i);
      assert current[..last][i] == current[i];
    }
  }

  lemma LastIsUnique(current: seq<Bench>, n: string, i: nat, j: nat)
    requires IsLast(current, i, n) && IsLast(current, j, n)
    ensures i == j
  {
  }

  /** The verdict of a metric: its last reading, judged against its own history. */
  ghost function VerdictAt(current: seq<Bench>, hist: History, i: nat, n: string): Verdict
    requires i < |current|
  {
    Judge(n, current[i].value, current[i].unit, if n in hist then hist[n] else [])
  }

  lemma VerdictIs(current: seq<Bench>, hist: History, i: nat, n: string)
    requires IsLast(current, i, n)
    ensures n in ByName(current) && VerdictOf(ByName(current), hist, n) == VerdictAt(current, hist, i, n)
  {
    hide Judge;
    NamedIsIndexed(current, i);
    var j := LastExists(current, n);
    LastIsUnique(current, n, i, j);
  }

  lemma {:induction false} CollectMembers<T>(names: seq<string>, byName: map<string, Bench>, hist: History,
                                             pick: (string, Verdict) -> seq<T>, x: T)
    requires forall n | n in names :: n in byName
    ensures x in Collect(names, byName, hist, pick)
       <==> exists n | n in names :: x in pick(n, VerdictOf(byName, hist, n))
  {
    hide Judge;
    if names != [] {
      var init, name := names[..|names| - 1], names[|names| - 1];
      assert names == init + [name];
      CollectMembers(init, byName, hist, pick, x);
    }
  }

  /** What `pick` takes from the verdicts of a run. */
  function Picked<T>(current: seq<Bench>, hist: History, pick: (string, Verdict) -> seq<T>): seq<T> {
    SortedNamesMatch(current);
    Collect(SortedNames(current), ByName(current), hist, pick)
  }

  ghost predicate IsPicked<T>(current: seq<Bench>, hist: History, pick: (string, Verdict) -> seq<T>, x: T, i: nat,
                              n: string)
  {
    IsLast(current, i, n) && x in pick(n, VerdictAt(current, hist, i, n))
  }

  lemma PickedIff<T>(current: seq<Bench>, hist: History, pick: (string, Verdict) -> seq<T>, x: T)
    ensures x in Picked(current, hist, pick) <==> exists i: nat, n :: IsPicked(current, hist, pick, x, i, n)
  {
    hide Judge, VerdictAt, VerdictOf, Collect, SortedNames, ByName, IsLast;
    SortedNamesMatch(current);
    CollectMembers(SortedNames(current), ByName(current), hist, pick, x);
    if x in Picked(current, hist, pick) {
      var n :| n in SortedNames(current) && x in pick(n, VerdictOf(ByName(current), hist, n));
      var i := LastExists(current, n);
      VerdictIs(current, hist, i, n);
      assert IsPicked(current, hist, pick, x, i, n);
    }
    if i: nat, n :| IsPicked(current, hist, pick, x, i, n) { VerdictIs(current, hist, i, n); }
  }

  /** The bench at `i` is the last of its name and, with that metric's own history, gives this row. */
  ghost predicate Gives(current: seq<Bench>, hist: History, i: nat, r: Row) {
    && IsLast(current, i, r.name) && r.name in hist
    && var v := Judge(r.name, current[i].value, current[i].unit, hist[r.name]);
       v.Compared? && v.row == r
  }

  /** A row is compared exactly when it is what its name's last reading and own history come to. */
  lemma RowIff(current: seq<Bench>, hist: History, r: Row)
    ensures r in Rows(current, hist) <==> exists i: nat :: Gives(current, hist, i, r)
  {
    hide Judge, IsLast, ByName, SortedNames, Collect;
    PickedIff(current, hist, PickRow, r);
    if i: nat, n :| IsPicked(current, hist, PickRow, r, i, n) {
      LastInside(current, i, n);
      var pts := if n in hist then hist[n] else [];
      JudgeIsConsistent(n, current[i].value, current[i].unit, pts);
      FailsClosedIff(n, current[i].value, current[i].unit, pts);
      assert Gives(current, hist, i, r);
    }
    if i: nat :| Gives(current, hist, i, r) {
      LastInside(current, i, r.name);
      assert IsPicked(current, hist, PickRow, r, i, r.name);
    }
    assert Rows(current, hist) == Picked(current, hist, PickRow);
  }

  lemma LastInside(current: seq<Bench>, i: nat, n: string)
    requires IsLast(current, i, n)
    ensures i < |current|
  {
  }

  /** The last bench of this name, with that metric's own history, is judged so. */
  ghost predicate Judged(current: seq<Bench>, hist: History, i: nat, n: string, v: Verdict) {
    IsLast(current, i, n) && Judge(n, current[i].value, current[i].unit, if n in hist then hist[n] else []) == v
  }

  /** Whether a pick that looks for one kind of verdict finds `x`, and under which name and verdict. */
  lemma PickedJudged<T>(current: seq<Bench>, hist: History, pick: (string, Verdict) -> seq<T>, x: T, n: string,
                        v: Verdict)
    requires forall m, w :: x in pick(m, w) <==> m == n && w == v
    ensures x in Picked(current, hist, pick) <==> exists i: nat :: Judged(current, hist, i, n, v)
  {
    hide Judge, ByName, SortedNames, Collect;
    PickedIff(current, hist, pick, x);
    if i: nat, m :| IsPicked(current, hist, pick, x, i, m) { assert Judged(current, hist, i, n, v); }
    if i: nat :| Judged(current, hist, i, n, v) { assert IsPicked(current, hist, pick, x, i, n); }
  }

  /** So of the metrics that fail closed, are new or have too little history, and of the rows at a zero
      boundary. */
  lemma ListsIff(current: seq<Bench>, hist: History, n: string, reason: Reason, k: nat)
    ensures var t := TallyAll(current, hist);
            && ((n, reason) in t.invalid <==> exists i: nat :: Judged(current, hist, i, n, Invalid(reason)))
            && (n in t.unseen <==> exists i: nat :: Judged(current, hist, i, n, NoHistory))
            && ((n, k) in t.ungated <==> exists i: nat :: Judged(current, hist, i, n, Ungated(k)))
  {
    hide Judge, ByName, SortedNames, Collect, Judged;
    PickedJudged(current, hist, PickInvalid, (n, reason), n, Invalid(reason));
    PickedJudged(current, hist, PickNew, n, n, NoHistory);
    PickedJudged(current, hist, PickUngated, (n, k), n, Ungated(k));
    TallyIsPicked(current, hist);
  }

  lemma TallyIsPicked(current: seq<Bench>, hist: History)
    ensures var t := TallyAll(current, hist);
            && t.rows == Rows(current, hist) == Picked(current, hist, PickRow)
            && t.invalid == InvalidRows(current, hist) == Picked(current, hist, PickInvalid)
            && t.unseen == Picked(current, hist, PickNew) && t.ungated == Picked(current, hist, PickUngated)
            && t.stableZero == Picked(current, hist, PickZero(StableZero))
            && t.improvedToZero == Picked(current, hist, PickZero(ImprovedToZero))
            && t.zeroCrossing == Picked(current, hist, PickZero(ZeroCrossing))
  {
    hide ByName, SortedNames, Collect;
  }

  lemma ZeroPickedIff(current: seq<Bench>, hist: History, zero: Zero, r: Row)
    ensures r in Picked(current, hist, PickZero(zero)) <==>
            exists i: nat :: Judged(current, hist, i, r.name, Compared(r, zero))
  {
    hide Judge, ByName, SortedNames, Collect;
    PickedIff(current, hist, PickZero(zero), r);
    if i: nat, n :| IsPicked(current, hist, PickZero(zero), r, i, n) {
      JudgeIsConsistent(n, current[i].value, current[i].unit, if n in hist then hist[n] else []);
      assert Judged(current, hist, i, r.name, Compared(r, zero));
    }
    if i: nat :| Judged(current, hist, i, r.name, Compared(r, zero)) {
      assert IsPicked(current, hist, PickZero(zero), r, i, r.name);
    }
  }

  lemma ZeroListsIff(current: seq<Bench>, hist: History, r: Row)
    ensures var t := TallyAll(current, hist);
            && (r in t.stableZero <==> exists i: nat :: Judged(current, hist, i, r.name, Compared(r, StableZero)))
            && (r in t.improvedToZero <==>
                  exists i: nat :: Judged(current, hist, i, r.name, Compared(r, ImprovedToZero)))
            && (r in t.zeroCrossing <==> exists i: nat :: Judged(current, hist, i, r.name, Compared(r, ZeroCrossing)))
  {
    hide Judged, Picked;
    TallyIsPicked(current, hist);
    ZeroPickedIff(current, hist, StableZero, r);
    ZeroPickedIff(current, hist, ImprovedToZero, r);
    ZeroPickedIff(current, hist, ZeroCrossing, r);
  }

  // ----- order -------------------------------------------------------------------------

  lemma {:induction false} RowsFollowNames(names: seq<string>, byName: map<string, Bench>, hist: History)
    requires (forall n | n in names :: n in byName) && SortedBy(StringLe, names)
    ensures SortedBy(StringLe, Names(RowsOf(names, byName, hist)))
    ensures forall r | r in RowsOf(names, byName, hist) :: r.name in names
  {
    hide Judge;
    if names != [] {
      var init, name := names[..|names| - 1], names[|names| - 1];
      assert names == init + [name];
      RowsFollowNames(init, byName, hist);
      JudgeIsConsistent(name, byName[name].value, byName[name].unit, Points(hist, name));
      var rows := RowsOf(init, byName, hist);
      forall r | r in rows ensures StringLe(r.name, name) {
        var k :| 0 <= k < |init| && init[k] == r.name;
        assert names[k] == r.name && names[|init|] == name;
      }
      assert forall k | 0 <= k < |rows| :: rows[k] in rows;
    }
  }

  /** Rows come in the order of their names. */
  lemma RowsInOrder(current: seq<Bench>, hist: History)
    ensures SortedBy(StringLe, Names(Rows(current, hist)))
  {
    StringLeIsTotalPreorder();
    SortSorts(NameList(current), StringLe);
    SortedNamesMatch(current);
    RowsFollowNames(SortedNames(current), ByName(current), hist);
  }

  // ----- a broken suite ----------------------------------------------------------------

  ghost predicate IsNamed(current: seq<Bench>, n: string) {
    exists i | 0 <= i < |current| :: current[i].name == Some(n)
  }

  lemma NamedIff(current: seq<Bench>, n: string)
    ensures n in ByName(current) <==> IsNamed(current, n)
  {
    if n in ByName(current) { var i := LastExists(current, n); }
    if i :| 0 <= i < |current| && current[i].name == Some(n) { NamedIsIndexed(current, i); }
  }

  /** A metric has disappeared exactly when it has three published values or more and the run has no
      bench of its name. */
  lemma DisappearedIff(current: seq<Bench>, hist: History, n: string)
    ensures n in Gateable(hist) <==> n in hist && |hist[n]| >= 3
    ensures n in Disappeared(current, hist) <==> n in hist && |hist[n]| >= 3 && !IsNamed(current, n)
  {
    hide ByName;
    NamedIff(current, n);
  }

  lemma RatioWithin(a: nat, b: nat)
    requires b > 0
    ensures a as real / b as real <= 0.30 <==> 10 * a <= 3 * b
  {
    var x: real := a as real / b as real;
    assert x * b as real == a as real;
    if x <= 0.30 { assert (0.30 - x) * b as real >= 0.0; } else { assert (x - 0.30) * b as real > 0.0; }
  }

  /** The suite counts as whole exactly when at most three in ten of the gateable metrics have disappeared. */
  lemma WholeIff(current: seq<Bench>, hist: History)
    ensures DisappearedFrac(current, hist) <= DISAPPEAR_FAIL_FRACTION
       <==> 10 * |Disappeared(current, hist)| <= 3 * |Gateable(hist)|
  {
    var missing, all := Disappeared(current, hist), Gateable(hist);
    if all == {} {
      assert missing == {};
    } else {
      assert |all| > 0;
      RatioWithin(|missing|, |all|);
    }
  }

  lemma SmallerSet(a: set<string>, b: set<string>)
    requires a <= b
    ensures |a| <= |b|
  {
    assert |b| == |a| + |b - a| by { assert b == a + (b - a); }
  }

  /** A run that names every metric another names has no more disappeared. */
  lemma NamingMoreNeverBreaks(a: seq<Bench>, b: seq<Bench>, hist: History)
    requires forall n | IsNamed(a, n) :: IsNamed(b, n)
    ensures Disappeared(b, hist) <= Disappeared(a, hist) && DisappearedFrac(b, hist) <= DisappearedFrac(a, hist)
  {
    forall n ensures n in Disappeared(b, hist) ==> n in Disappeared(a, hist) {
      DisappearedIff(a, hist, n);
      DisappearedIff(b, hist, n);
    }
    hide Disappeared;
    SmallerSet(Disappeared(b, hist), Disappeared(a, hist));
    if Gateable(hist) != {} {
      QuotientMonotone(|Disappeared(b, hist)| as real, |Disappeared(a, hist)| as real, |Gateable(hist)| as real);
    }
  }

  /** When the run names every gateable metric the fraction is zero. */
  lemma NothingMissing(current: seq<Bench>, hist: History)
    requires forall n | n in hist && |hist[n]| >= 3 :: IsNamed(current, n)
    ensures Disappeared(current, hist) == {} && DisappearedFrac(current, hist) == 0.0
  {
    forall n ensures n !in Disappeared(current, hist) { DisappearedIff(current, hist, n); }
    hide Disappeared;
    assert Disappeared(current, hist) == {};
  }

  /** Taking a bench out of a run never lowers it. */
  lemma RemovingNeverHelps(current: seq<Bench>, i: nat, hist: History)
    requires i < |current|
    ensures DisappearedFrac(current, hist) <= DisappearedFrac(current[..i] + current[i + 1..], hist)
  {
    var less := current[..i] + current[i + 1..];
    forall n | IsNamed(less, n) ensures IsNamed(current, n) {
      var k :| 0 <= k < |less| && less[k].name == Some(n);
      assert less[k] == if k < i then current[k] else current[k + 1];
    }
    NamingMoreNeverBreaks(less, current, hist);
  }

  lemma QuotientMonotone(x: real, y: real, g: real)
    requires x <= y && g > 0.0
    ensures x / g <= y / g
  {
    DivideAtLeast(y, g, x / g);
    assert x / g * g == x;
  }

  // ----- the waiver and the trail over the rows ----------------------------------------

  function AtLeastRatio(c: real): Row -> bool { (r: Row) => r.ratio >= c }

  lemma HalfWithin(a: nat, b: nat)
    requires b > 0
    ensures a as real / b as real >= 0.5 <==> 2 * a >= b
  {
    var x: real := a as real / b as real;
    assert x * b as real == a as real;
    if x >= 0.5 { assert (x - 0.5) * b as real >= 0.0; } else { assert (0.5 - x) * b as real > 0.0; }
  }

  /** A run is waived exactly when at least two and at least half of the gated rows are at 1.75 or more,
      those are uniform, no gated row is at 4 or more, and no deterministic one is off by more than 1%. */
  lemma WaivedIff(gated: seq<Row>)
    ensures var shifted := Filter(gated, AtLeastRatio(1.75));
            UniformShift(gated) <==>
              && |shifted| >= 2 && 2 * |shifted| >= |gated| && IsUniform(Ratios(shifted))
              && forall r | r in gated :: r.ratio < 4.0 && (r.det ==> 0.99 <= r.ratio <= 1.01)
  {
    var shifted := Filter(gated, AtLeastRatio(1.75));
    FilterSame(gated, IsWatched, AtLeastRatio(1.75));
    hide Filter, IsUniform;
    if gated != [] { HalfWithin(|shifted|, |gated|); }
    assert IsUniform(Ratios(shifted)) ==> |shifted| >= 2 by { UniformHasTwo(Ratios(shifted)); }
    if gated == [] { FilterNone(gated, AtLeastRatio(1.75)); }
  }

  lemma UniformHasTwo(xs: seq<real>)
    ensures IsUniform(xs) ==> |xs| >= 2
  {
  }

  /** And each condition is reported as failed exactly when it does. */
  lemma FailedConditionsIff(gated: seq<Row>)
    requires Filter(gated, AtLeastRatio(1.75)) != []
    ensures var shifted, failed := Filter(gated, AtLeastRatio(1.75)), FailedConditions(gated);
            && (Breadth in failed <==> 2 * |shifted| < |gated|)
            && (Evenness in failed <==> !IsUniform(Ratios(shifted)))
            && (Cap in failed <==> exists r | r in gated :: r.ratio >= 4.0)
            && (DeterministicDrift in failed <==> exists r | r in gated :: r.det && !(0.99 <= r.ratio <= 1.01))
  {
    var shifted := Filter(gated, AtLeastRatio(1.75));
    FilterSame(gated, IsWatched, AtLeastRatio(1.75));
    assert gated != [] by { if gated == [] { FilterNone(gated, AtLeastRatio(1.75)); } }
    hide Filter, IsUniform;
    HalfWithin(|shifted|, |gated|);
  }

  /** A trail entry is a compared row at twice its median or more that is under the noise floor, or whose
      resolution does not prove it; it carries the row's readings. */
  lemma TrailIff(rows: seq<Row>, t: TrailRow)
    ensures t in Trail(rows) <==>
            exists r | r in rows ::
              && t == TrailRow(r.name, r.cur, r.med, r.ratio, r.unit, t.note)
              && ((t.note == FloorExemptHard && r.floorExempt && r.ratio >= 2.0)
                  || (t.note == ResolutionExemptHard && !r.floorExempt && r.resolutionExempt))
  {
    var floor, resolution := Filter(rows, IsFloorTrail), Filter(rows, IsResolutionTrail);
    FilterMembers(rows, IsFloorTrail);
    FilterMembers(rows, IsResolutionTrail);
    ToTrailMembers(floor, FloorExemptHard, t);
    ToTrailMembers(resolution, ResolutionExemptHard, t);
  }

  lemma ToTrailMembers(rows: seq<Row>, note: Note, t: TrailRow)
    ensures t in ToTrail(rows, note) <==>
            t.note == note && exists r | r in rows :: t == TrailRow(r.name, r.cur, r.med, r.ratio, r.unit, note)
  {
    var ts := ToTrail(rows, note);
    if t in ts {
      var k :| 0 <= k < |ts| && ts[k] == t;
      assert rows[k] in rows;
    }
    if r :| r in rows && t == TrailRow(r.name, r.cur, r.med, r.ratio, r.unit, note) {
      var k :| 0 <= k < |rows| && rows[k] == r;
      assert ts[k] == t;
    }
  }

  /** The rows of the derived lists. */
  lemma DerivedLists(rows: seq<Row>, r: Row)
    ensures r in Filter(rows, IsWatched) <==> r in rows && r.ratio >= 1.75
    ensures r in Filter(rows, IsGated) <==> r in rows && !r.floorExempt
    ensures r in Filter(rows, IsFloorExempt) <==> r in rows && r.floorExempt
    ensures r in Filter(rows, IsResolutionTrail) <==> r in rows && !r.floorExempt && r.resolutionExempt
    ensures r in Filter(rows, IsHard) <==> r in rows && r.ratio >= 2.0 && !r.floorExempt && !r.resolutionExempt
  {
    FilterMembers(rows, IsWatched);
    FilterMembers(rows, IsGated);
    FilterMembers(rows, IsFloorExempt);
    FilterMembers(rows, IsResolutionTrail);
    FilterMembers(rows, IsHard);
  }
}
