/** Feature closure and coverage of feature-gated tests (scripts/check-feature-test-execution.py). */
module FeatureClosure {

  /** The `[features]` table of a crate: what each feature implies. */
  type Table = map<string, seq<string>>

  /** A reference to a dependency (`dep:x`) or to another crate's feature (`x/y`). */
  predicate IsExternal(f: string) { "dep:" <= f || '/' in f }

  function Implied(table: Table, f: string): seq<string> { if f in table then table[f] else [] }

  predicate Implies(table: Table, f: string, g: string) { g in Implied(table, f) && !IsExternal(g) }

  // ----- reachability ------------------------------------------------------------------

  /** `path` leads from a feature of `seed` to `f` along intra-crate implications. */
  ghost predicate IsPath(table: Table, seed: set<string>, path: seq<string>, f: string) {
    && path != [] && path[0] in seed && path[|path| - 1] == f
    && forall i | 0 <= i < |path| - 1 :: Implies(table, path[i], path[i + 1])
  }

  ghost predicate Reachable(table: Table, seed: set<string>, f: string) {
    exists path :: IsPath(table, seed, path, f)
  }

  ghost predicate Closed(table: Table, s: set<string>) {
    forall f, g | f in s && Implies(table, f, g) :: g in s
  }

  lemma {:induction false} ClosedHoldsPath(table: Table, seed: set<string>, path: seq<string>, f: string,
                                           s: set<string>)
    requires IsPath(table, seed, path, f) && seed <= s && Closed(table, s)
    ensures f in s
    decreases |path|
  {
    if |path| > 1 {
      var init := path[..|path| - 1];
      ClosedHoldsPath(table, seed, init, init[|init| - 1], s);
      assert Implies(table, path[|path| - 2], path[|path| - 1]);
    }
  }

  lemma ReachableStep(table: Table, seed: set<string>, f: string, g: string)
    requires Reachable(table, seed, f) && Implies(table, f, g)
    ensures Reachable(table, seed, g)
  {
    var path :| IsPath(table, seed, path, f);
    assert IsPath(table, seed, path + [g], g);
  }

  /** `s` is the closure of `seed`: exactly the features reachable from it. */
  ghost predicate IsClosure(table: Table, seed: set<string>, s: set<string>) {
    forall f :: f in s <==> Reachable(table, seed, f)
  }

  lemma SeedReachable(table: Table, seed: set<string>)
    ensures forall f | f in seed :: Reachable(table, seed, f)
  {
    forall f | f in seed ensures Reachable(table, seed, f) { assert IsPath(table, seed, [f], f); }
  }

  /** A closed superset of the seed holding only reachable features is the closure. */
  lemma ClosedReachableIsClosure(table: Table, seed: set<string>, s: set<string>)
    requires seed <= s && Closed(table, s) && forall f | f in s :: Reachable(table, seed, f)
    ensures IsClosure(table, seed, s)
  {
    forall f | Reachable(table, seed, f) ensures f in s {
      var path :| IsPath(table, seed, path, f);
      ClosedHoldsPath(table, seed, path, f, s);
    }
  }

  // ----- the loop ----------------------------------------------------------------------

  /** Every name the loop can ever add. */
  function Mentioned(table: Table): set<string> { set f, g | f in table && g in table[f] :: g }

  /** One inner pass: the implications of one feature. */
  method AddImplied(table: Table, f: string, before: set<string>) returns (closure: set<string>, changed: bool)
    ensures closure == before + (set g | g in Implied(table, f) && !IsExternal(g))
    ensures changed <==> closure != before
  {
    closure, changed := before, false;
    var implied := Implied(table, f);
    for i := 0 to |implied|
      invariant closure == before + (set g | g in implied[..i] && !IsExternal(g))
      invariant changed <==> closure != before
    {
      var g := implied[i];
      assert implied[..i + 1] == implied[..i] + [g];
      if !IsExternal(g) && g !in closure {
        closure, changed := closure + {g}, true;
        assert g in closure && g !in before;
      }
    }
    assert implied[..|implied|] == implied;
  }

  /** One sweep over a snapshot of the closure. */
  method Sweep(table: Table, before: set<string>, ghost seed: set<string>) returns (closure: set<string>, changed: bool)
    requires forall f | f in before :: Reachable(table, seed, f)
    ensures before <= closure <= before + Mentioned(table)
    ensures forall f | f in closure :: Reachable(table, seed, f)
    ensures changed <==> closure != before
    ensures !changed ==> Closed(table, closure)
  {
    closure, changed := before, false;
    var todo := before;
    while todo != {}
      invariant todo <= before <= closure <= before + Mentioned(table)
      invariant forall f | f in closure :: Reachable(table, seed, f)
      invariant changed <==> closure != before
      invariant forall f, g | f in before - todo && Implies(table, f, g) :: g in closure
      decreases todo
    {
      var f :| f in todo;
      forall g | Implies(table, f, g) ensures Reachable(table, seed, g) { ReachableStep(table, seed, f, g); }
      var grown, more := AddImplied(table, f, closure);
      todo, closure, changed := todo - {f}, grown, changed || more;
    }
  }

  /** Sweeps until nothing changes; terminates because every round adds a name of the table. */
  method ComputeClosure(enabled: set<string>, table: Table) returns (closure: set<string>)
    ensures IsClosure(table, enabled, closure)
    ensures closure <= enabled + Mentioned(table)
  {
    closure := enabled;
    SeedReachable(table, enabled);
    var changed := true;
    while changed
      invariant enabled <= closure <= enabled + Mentioned(table)
      invariant forall f | f in closure :: Reachable(table, enabled, f)
      invariant !changed ==> Closed(table, closure)
      decreases (enabled + Mentioned(table)) - closure, changed
    {
      closure, changed := Sweep(table, closure, enabled);
    }
    ClosedReachableIsClosure(table, enabled, closure);
  }

  // ----- laws of the closure -----------------------------------------------------------

  /** The closure is the least closed superset of the seed. */
  lemma ClosureIsLeast(table: Table, seed: set<string>, s: set<string>, t: set<string>)
    requires IsClosure(table, seed, s) && seed <= t && Closed(table, t)
    ensures seed <= s <= t && Closed(table, s)
  {
    SeedReachable(table, seed);
    forall f, g | f in s && Implies(table, f, g) ensures g in s { ReachableStep(table, seed, f, g); }
    forall f | f in s ensures f in t {
      var path :| IsPath(table, seed, path, f);
      ClosedHoldsPath(table, seed, path, f, t);
    }
  }

  lemma ClosureIsMonotone(table: Table, seed: set<string>, more: set<string>, s: set<string>, t: set<string>)
    requires seed <= more && IsClosure(table, seed, s) && IsClosure(table, more, t)
    ensures s <= t
  {
    forall f | f in s ensures f in t {
      var path :| IsPath(table, seed, path, f);
      assert IsPath(table, more, path, f);
    }
  }

  lemma ClosureIsIdempotent(table: Table, seed: set<string>, s: set<string>, t: set<string>)
    requires IsClosure(table, seed, s) && IsClosure(table, s, t)
    ensures s == t
  {
    SeedReachable(table, seed);
    forall f, g | f in s && Implies(table, f, g) ensures g in s { ReachableStep(table, seed, f, g); }
    ClosureIsLeast(table, s, t, s);
  }

  // ----- which tests run ---------------------------------------------------------------

  datatype GatedTest = GatedTest(crate: string, id: string, required: set<string>)
  datatype Allowance = Allowance(crate: string, features: set<string>)

  /** Per crate, the features each executor activates. */
  type Executors = map<string, seq<set<string>>>

  function Defaults(table: Table): set<string> { set f | f in Implied(table, "default") && !IsExternal(f) }

  /** The table lists `g` under `f`, and `g` is neither `dep:..` nor a path with a slash. */
  ghost predicate LeadsTo(table: Table, f: string, g: string) {
    f in table && g in table[f] && '/' !in g && !(|g| >= 4 && g[..4] == "dep:")
  }

  /** `path` leads to `f` from one of `extra` or of the crate's defaults. */
  ghost predicate IsChain(table: Table, extra: set<string>, path: seq<string>, f: string) {
    && path != [] && path[|path| - 1] == f && (path[0] in extra || LeadsTo(table, "default", path[0]))
    && forall i | 0 <= i < |path| - 1 :: LeadsTo(table, path[i], path[i + 1])
  }

  ghost predicate Activates(table: Table, extra: set<string>, f: string) {
    exists path :: IsChain(table, extra, path, f)
  }

  lemma LeadsToIff(table: Table, f: string, g: string)
    ensures Implies(table, f, g) <==> LeadsTo(table, f, g)
  {
    if |g| >= 4 { assert "dep:" <= g <==> g[..4] == "dep:"; }
  }

  lemma ChainIff(table: Table, extra: set<string>, path: seq<string>, f: string)
    ensures IsPath(table, Defaults(table) + extra, path, f) <==> IsChain(table, extra, path, f)
  {
    if path != [] {
      LeadsToIff(table, "default", path[0]);
      forall i | 0 <= i < |path| - 1
        ensures Implies(table, path[i], path[i + 1]) <==> LeadsTo(table, path[i], path[i + 1])
      {
        LeadsToIff(table, path[i], path[i + 1]);
      }
    }
    hide LeadsTo, Implies;
  }

  lemma ActivatesIff(table: Table, extra: set<string>, activated: set<string>, f: string)
    requires IsClosure(table, Defaults(table) + extra, activated)
    ensures f in activated <==> Activates(table, extra, f)
  {
    hide IsPath, IsChain;
    if f in activated {
      var path :| IsPath(table, Defaults(table) + extra, path, f);
      ChainIff(table, extra, path, f);
    }
    if Activates(table, extra, f) {
      var path :| IsChain(table, extra, path, f);
      ChainIff(table, extra, path, f);
    }
  }

  /** An executor adds its own features to the crate's defaults and closes the result. */
  method ExecutorFeatureSet(table: Table, extra: set<string>) returns (activated: set<string>)
    ensures IsClosure(table, Defaults(table) + extra, activated)
    ensures forall f :: f in activated <==> Activates(table, extra, f)
  {
    activated := ComputeClosure(Defaults(table) + extra, table);
    forall f ensures f in activated <==> Activates(table, extra, f) { ActivatesIff(table, extra, activated, f); }
  }

  /** A run of a crate's tests with some features added to the defaults. */
  datatype Leg = Leg(crate: string, extra: set<string>)

  function TableOf(tables: map<string, Table>, crate: string): Table {
    if crate in tables then tables[crate] else map[]
  }

  /** The features a leg activates are those of `activated`. */
  ghost predicate GivesExactly(tables: map<string, Table>, leg: Leg, activated: set<string>) {
    forall f :: f in activated <==> Activates(TableOf(tables, leg.crate), leg.extra, f)
  }

  /** Some leg of the crate activates exactly the features of `activated`. */
  ghost predicate IsActivated(tables: map<string, Table>, legs: seq<Leg>, crate: string, activated: set<string>) {
    exists leg | leg in legs && leg.crate == crate :: GivesExactly(tables, leg, activated)
  }

  /** The executors are the legs: every executor a leg's features, and every leg an executor. */
  ghost predicate AreLegs(tables: map<string, Table>, legs: seq<Leg>, executors: Executors) {
    && (forall c, i | c in executors && 0 <= i < |executors[c]| :: IsActivated(tables, legs, c, executors[c][i]))
    && (forall leg | leg in legs :: HasLeg(tables, leg, executors))
  }

  ghost predicate HasLeg(tables: map<string, Table>, leg: Leg, executors: Executors) {
    && leg.crate in executors
    && exists i | 0 <= i < |executors[leg.crate]| :: GivesExactly(tables, leg, executors[leg.crate][i])
  }

  method LoadExecutors(tables: map<string, Table>, legs: seq<Leg>) returns (executors: Executors)
    ensures AreLegs(tables, legs, executors)
  {
    executors := map[];
    for n := 0 to |legs|
      invariant AreLegs(tables, legs[..n], executors)
    {
      var leg := legs[n];
      assert legs[..n + 1] == legs[..n] + [leg];
      var activated := ExecutorFeatureSet(TableOf(tables, leg.crate), leg.extra);
      var listed := if leg.crate in executors then executors[leg.crate] else [];
      assert GivesExactly(tables, leg, activated);
      LegAdded(tables, legs[..n], leg, executors, listed, activated);
      executors := executors[leg.crate := listed + [activated]];
    }
    assert legs[..|legs|] == legs;
  }

  lemma ActivatedByMore(tables: map<string, Table>, legs: seq<Leg>, leg: Leg, crate: string, activated: set<string>)
    requires IsActivated(tables, legs, crate, activated)
    ensures IsActivated(tables, legs + [leg], crate, activated)
  {
    var l :| l in legs && l.crate == crate && GivesExactly(tables, l, activated);
    assert l in legs + [leg];
  }

  lemma HasLegStill(tables: map<string, Table>, l: Leg, executors: Executors, crate: string, activated: set<string>)
    requires HasLeg(tables, l, executors)
    ensures var listed := if crate in executors then executors[crate] else [];
            HasLeg(tables, l, executors[crate := listed + [activated]])
  {
    var listed := if crate in executors then executors[crate] else [];
    var after := executors[crate := listed + [activated]];
    var i :| 0 <= i < |executors[l.crate]| && GivesExactly(tables, l, executors[l.crate][i]);
    assert after[l.crate][i] == executors[l.crate][i];
  }

  lemma LegAdded(tables: map<string, Table>, legs: seq<Leg>, leg: Leg, executors: Executors, listed: seq<set<string>>,
                 activated: set<string>)
    requires AreLegs(tables, legs, executors) && listed == (if leg.crate in executors then executors[leg.crate] else [])
    requires GivesExactly(tables, leg, activated)
    ensures AreLegs(tables, legs + [leg], executors[leg.crate := listed + [activated]])
  {
    hide GivesExactly;
    var after := executors[leg.crate := listed + [activated]];
    assert leg in legs + [leg];
    forall c, i | c in after && 0 <= i < |after[c]| ensures IsActivated(tables, legs + [leg], c, after[c][i]) {
      if c == leg.crate && i == |listed| {
        assert after[c][i] == activated;
      } else {
        assert after[c][i] == executors[c][i];
        ActivatedByMore(tables, legs, leg, c, after[c][i]);
      }
    }
    forall l | l in legs + [leg] ensures HasLeg(tables, l, after) {
      if l in legs {
        HasLegStill(tables, l, executors, leg.crate, activated);
      } else {
        assert l == leg && after[leg.crate][|listed|] == activated;
      }
    }
  }

  predicate IsCovered(test: GatedTest, executors: Executors) {
    test.crate in executors && exists i | 0 <= i < |executors[test.crate]| :: test.required <= executors[test.crate][i]
  }

  /** Some leg of the test's crate activates every feature the test requires. */
  ghost predicate SomeLegCovers(tables: map<string, Table>, legs: seq<Leg>, test: GatedTest) {
    exists leg | leg in legs && leg.crate == test.crate :: Covers(tables, leg, test.required)
  }

  ghost predicate Covers(tables: map<string, Table>, leg: Leg, required: set<string>) {
    forall f | f in required :: Activates(TableOf(tables, leg.crate), leg.extra, f)
  }

  lemma CoversIff(tables: map<string, Table>, leg: Leg, required: set<string>, activated: set<string>)
    requires GivesExactly(tables, leg, activated)
    ensures Covers(tables, leg, required) <==> required <= activated
  {
    hide Activates;
  }

  lemma CoveredIff(tables: map<string, Table>, legs: seq<Leg>, executors: Executors, test: GatedTest)
    requires AreLegs(tables, legs, executors)
    ensures IsCovered(test, executors) <==> SomeLegCovers(tables, legs, test)
  {
    hide Covers, GivesExactly, AreLegs, IsCovered;
    var c := test.crate;
    if IsCovered(test, executors) { ExecutorHasLeg(tables, legs, executors, test); }
    if SomeLegCovers(tables, legs, test) {
      var leg :| leg in legs && leg.crate == c && Covers(tables, leg, test.required);
      LegHasExecutor(tables, legs, executors, leg, test);
    }
  }

  lemma ExecutorHasLeg(tables: map<string, Table>, legs: seq<Leg>, executors: Executors, test: GatedTest)
    requires AreLegs(tables, legs, executors) && IsCovered(test, executors)
    ensures SomeLegCovers(tables, legs, test)
  {
    hide Covers, GivesExactly, HasLeg;
    var c := test.crate;
    var i :| 0 <= i < |executors[c]| && test.required <= executors[c][i];
    assert IsActivated(tables, legs, c, executors[c][i]);
    hide AreLegs, IsCovered;
    var leg :| leg in legs && leg.crate == c && GivesExactly(tables, leg, executors[c][i]);
    CoversIff(tables, leg, test.required, executors[c][i]);
  }

  lemma LegHasExecutor(tables: map<string, Table>, legs: seq<Leg>, executors: Executors, leg: Leg, test: GatedTest)
    requires AreLegs(tables, legs, executors) && leg in legs && leg.crate == test.crate
    requires Covers(tables, leg, test.required)
    ensures IsCovered(test, executors)
  {
    hide Covers, GivesExactly, IsActivated;
    assert HasLeg(tables, leg, executors);
    hide AreLegs;
    var c := test.crate;
    var i :| 0 <= i < |executors[c]| && GivesExactly(tables, leg, executors[c][i]);
    CoversIff(tables, leg, test.required, executors[c][i]);
  }

  predicate Allowed(test: GatedTest, allowlist: seq<Allowance>) {
    exists i | 0 <= i < |allowlist| :: allowlist[i].crate == test.crate && test.required == allowlist[i].features
  }

  predicate IsUnmapped(test: GatedTest, executors: Executors, allowlist: seq<Allowance>) {
    !IsCovered(test, executors) && !Allowed(test, allowlist)
  }

  function Unmapped(tests: seq<GatedTest>, executors: Executors, allowlist: seq<Allowance>): seq<GatedTest> {
    if tests == [] then [] else
    Unmapped(tests[..|tests| - 1], executors, allowlist) +
    if IsUnmapped(tests[|tests| - 1], executors, allowlist) then [tests[|tests| - 1]] else []
  }

  method Check(tests: seq<GatedTest>, executors: Executors, allowlist: seq<Allowance>)
      returns (ok: bool, findings: seq<GatedTest>)
    ensures findings == Unmapped(tests, executors, allowlist)
    ensures ok <==> forall t | t in tests :: IsCovered(t, executors) || Allowed(t, allowlist)
  {
    findings := [];
    for i := 0 to |tests|
      invariant findings == Unmapped(tests[..i], executors, allowlist)
      invariant findings == [] <==> forall t | t in tests[..i] :: !IsUnmapped(t, executors, allowlist)
    {
      var t := tests[i];
      assert tests[..i + 1] == tests[..i] + [t] && tests[..i + 1][..i] == tests[..i];
      if !IsCovered(t, executors) && !Allowed(t, allowlist) { findings := findings + [t]; }
    }
    assert tests[..|tests|] == tests;
    ok := findings == [];
  }

  lemma {:induction false} UnmappedMembers(tests: seq<GatedTest>, executors: Executors, allowlist: seq<Allowance>,
                                           t: GatedTest)
    ensures multiset(Unmapped(tests, executors, allowlist))[t]
         == if IsUnmapped(t, executors, allowlist) then multiset(tests)[t] else 0
  {
    if tests != [] {
      var init, last := tests[..|tests| - 1], tests[|tests| - 1];
      UnmappedMembers(init, executors, allowlist, t);
      assert tests == init + [last];
    }
  }

  /** From the tables, legs and allow-list on: a test is a finding, as often as it is listed, exactly when no
      leg of its crate activates all it requires and no entry for its crate lists exactly its features. */
  lemma FindingIff(tables: map<string, Table>, legs: seq<Leg>, executors: Executors, tests: seq<GatedTest>,
                   allowlist: seq<Allowance>, t: GatedTest)
    requires AreLegs(tables, legs, executors)
    ensures multiset(Unmapped(tests, executors, allowlist))[t]
         == if SomeLegCovers(tables, legs, t) || Allowance(t.crate, t.required) in allowlist then 0
            else multiset(tests)[t]
  {
    hide AreLegs, SomeLegCovers, IsCovered, Unmapped;
    UnmappedMembers(tests, executors, allowlist, t);
    CoveredIff(tables, legs, executors, t);
    if Allowance(t.crate, t.required) in allowlist {
      var i :| 0 <= i < |allowlist| && allowlist[i] == Allowance(t.crate, t.required);
    }
  }

  /** `b` activates, executor by executor, what results from giving the executors of `a` more features. */
  ghost predicate GivenMore(tables: map<string, Table>, a: Executors, b: Executors) {
    forall c, i | c in a && 0 <= i < |a[c]| ::
      && c in tables && c in b && i < |b[c]|
      && exists extra, more | extra <= more ::
           && IsClosure(tables[c], Defaults(tables[c]) + extra, a[c][i])
           && IsClosure(tables[c], Defaults(tables[c]) + more, b[c][i])
  }

  /** Adding features to executors, or adding executors, never uncovers a test. */
  lemma MoreFeaturesNeverUncover(tables: map<string, Table>, a: Executors, b: Executors, test: GatedTest)
    requires GivenMore(tables, a, b) && IsCovered(test, a)
    ensures IsCovered(test, b)
  {
    var c := test.crate;
    var i :| 0 <= i < |a[c]| && test.required <= a[c][i];
    var extra, more :| extra <= more && IsClosure(tables[c], Defaults(tables[c]) + extra, a[c][i])
                                     && IsClosure(tables[c], Defaults(tables[c]) + more, b[c][i]);
    ClosureIsMonotone(tables[c], Defaults(tables[c]) + extra, Defaults(tables[c]) + more, a[c][i], b[c][i]);
  }

  /** Nor does it produce a finding that was not there. */
  lemma {:induction false} MoreFeaturesNeverAddFindings(tables: map<string, Table>, a: Executors, b: Executors,
                                                        tests: seq<GatedTest>, allowlist: seq<Allowance>)
    requires GivenMore(tables, a, b)
    ensures multiset(Unmapped(tests, b, allowlist)) <= multiset(Unmapped(tests, a, allowlist))
  {
    if tests != [] {
      MoreFeaturesNeverAddFindings(tables, a, b, tests[..|tests| - 1], allowlist);
      var t := tests[|tests| - 1];
      if IsCovered(t, a) { MoreFeaturesNeverUncover(tables, a, b, t); }
    }
  }
}
