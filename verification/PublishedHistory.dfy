/** The per-metric history windows the hard zone compares against (scripts/bench_hardzone.py). */
module PublishedHistory {
  import opened Basics
  import opened Sorting
  import opened Sums
  import opened HardZone

  datatype Entry = Entry(date: real, benches: seq<Bench>)

  predicate DateLe(a: Entry, b: Entry) { a.date <= b.date }

  function ValuesIn(benches: seq<Bench>, name: string): seq<Num> {
    if benches == [] then [] else
    ValuesIn(benches[..|benches| - 1], name) +
    if benches[|benches| - 1].name == Some(name) then [benches[|benches| - 1].value] else []
  }

  /** Every value published for `name`, entry by entry. */
  function AllValues(entries: seq<Entry>, name: string): seq<Num> {
    if entries == [] then [] else
    AllValues(entries[..|entries| - 1], name) + ValuesIn(entries[|entries| - 1].benches, name)
  }

  /** Python's `v[-window:]`, which keeps everything when the window is zero. */
  function LastUpTo(v: seq<Num>, window: nat): seq<Num> {
    if window == 0 || |v| <= window then v else v[|v| - window..]
  }

  function Oldest(series: seq<Entry>): seq<Entry> { Sort(series, DateLe) }

  function Got(vals: map<string, seq<Num>>, n: string): seq<Num> { if n in vals then vals[n] else [] }

  /** `vals` holds the values of the entries `seen` and then of `benches`. */
  ghost predicate Collected(vals: map<string, seq<Num>>, seen: seq<Entry>, benches: seq<Bench>) {
    && (forall n :: Got(vals, n) == AllValues(seen, n) + ValuesIn(benches, n))
    && (forall n | n in vals :: vals[n] != [])
  }

  lemma ValuesInAppend(benches: seq<Bench>, b: Bench, n: string)
    ensures ValuesIn(benches + [b], n) == ValuesIn(benches, n) + if b.name == Some(n) then [b.value] else []
  {
    assert (benches + [b])[..|benches + [b]| - 1] == benches;
  }

  function Push(vals: map<string, seq<Num>>, b: Bench): map<string, seq<Num>> {
    if b.name.Some? then vals[b.name.value := Got(vals, b.name.value) + [b.value]] else vals
  }

  lemma PushGot(vals: map<string, seq<Num>>, b: Bench, n: string)
    ensures Got(Push(vals, b), n) == Got(vals, n) + if b.name == Some(n) then [b.value] else []
  {
  }

  lemma CollectedStep(vals: map<string, seq<Num>>, seen: seq<Entry>, benches: seq<Bench>, b: Bench, n: string)
    requires Got(vals, n) == AllValues(seen, n) + ValuesIn(benches, n)
    ensures Got(Push(vals, b), n) == AllValues(seen, n) + ValuesIn(benches + [b], n)
  {
    PushGot(vals, b, n);
    ValuesInAppend(benches, b, n);
  }

  lemma CollectStep(vals: map<string, seq<Num>>, seen: seq<Entry>, benches: seq<Bench>, b: Bench)
    requires Collected(vals, seen, benches)
    ensures Collected(Push(vals, b), seen, benches + [b])
  {
    forall n ensures Got(Push(vals, b), n) == AllValues(seen, n) + ValuesIn(benches + [b], n) {
      CollectedStep(vals, seen, benches, b, n);
    }
  }

  lemma CollectNext(vals: map<string, seq<Num>>, seen: seq<Entry>, e: Entry)
    requires Collected(vals, seen, e.benches)
    ensures Collected(vals, seen + [e], [])
  {
    assert (seen + [e])[..|seen + [e]| - 1] == seen;
    forall n ensures Got(vals, n) == AllValues(seen + [e], n) + ValuesIn([], n) {}
  }

  method CollectEntry(before: map<string, seq<Num>>, benches: seq<Bench>, ghost seen: seq<Entry>)
      returns (vals: map<string, seq<Num>>)
    requires Collected(before, seen, [])
    ensures Collected(vals, seen, benches)
  {
    vals := before;
    for i := 0 to |benches|
      invariant Collected(vals, seen, benches[..i])
    {
      var b := benches[i];
      assert benches[..i + 1] == benches[..i] + [b];
      CollectStep(vals, seen, benches[..i], b);
      vals := Push(vals, b);
    }
    assert benches[..|benches|] == benches;
  }

  method HistoryValues(series: seq<Entry>, window: nat) returns (hist: map<string, seq<Num>>)
    ensures forall n :: HoldsLatest(series, window, hist, n)
    ensures forall n :: n in hist <==> AllValues(Oldest(series), n) != []
    ensures forall n | n in hist :: hist[n] == LastUpTo(AllValues(Oldest(series), n), window)
  {
    var ordered := Sort(series, DateLe);
    var vals: map<string, seq<Num>> := map[];
    for i := 0 to |ordered|
      invariant Collected(vals, ordered[..i], [])
    {
      vals := CollectEntry(vals, ordered[i].benches, ordered[..i]);
      CollectNext(vals, ordered[..i], ordered[i]);
      assert ordered[..i + 1] == ordered[..i] + [ordered[i]];
    }
    assert ordered[..|ordered|] == ordered;
    forall n ensures Got(vals, n) == AllValues(Oldest(series), n) {}
    hist := map n | n in vals :: LastUpTo(vals[n], window);
    forall n ensures HoldsLatest(series, window, hist, n) {
      WindowOf(series, n, window, hist);
    }
  }

  // ----- which published values a window holds -----------------------------------------

  /** Where a value was published: an entry of the series and a bench of it. */
  datatype Spot = Spot(entry: nat, bench: nat)

  predicate IsSpot(series: seq<Entry>, n: string, p: Spot) {
    && p.entry < |series| && p.bench < |series[p.entry].benches|
    && series[p.entry].benches[p.bench].name == Some(n)
  }

  /** Published before: an earlier date, or the same date and an earlier place in the series. */
  predicate IsBefore(series: seq<Entry>, p: Spot, q: Spot)
    requires p.entry < |series| && q.entry < |series|
  {
    var d, e := series[p.entry].date, series[q.entry].date;
    d < e || (d == e && (p.entry < q.entry || (p.entry == q.entry && p.bench < q.bench)))
  }

  ghost predicate InOrder(series: seq<Entry>, n: string, pubs: seq<Spot>) {
    && (forall k | 0 <= k < |pubs| :: IsSpot(series, n, pubs[k]))
    && (forall i, j | 0 <= i < j < |pubs| :: IsBefore(series, pubs[i], pubs[j]))
  }

  /** `pubs` are all the places where values of `n` were published, in order of publication. */
  ghost predicate Lists(series: seq<Entry>, n: string, pubs: seq<Spot>) {
    (forall p :: p in pubs <==> IsSpot(series, n, p)) && InOrder(series, n, pubs)
  }

  function ValueAt(series: seq<Entry>, p: Spot): Num {
    if p.entry < |series| && p.bench < |series[p.entry].benches| then series[p.entry].benches[p.bench].value else Junk
  }

  function ValueOf(series: seq<Entry>): Spot -> Num { (p: Spot) => ValueAt(series, p) }

  /** `hist` holds the last values published for `n`, as many as there are up to the window; a window of
      zero holds them all. */
  ghost predicate IsWindow(series: seq<Entry>, pubs: seq<Spot>, window: nat, hist: map<string, seq<Num>>, n: string) {
    && (n in hist <==> pubs != [])
    && (n in hist ==>
          var m := if window == 0 || |pubs| < window then |pubs| else window;
          hist[n] == Image(pubs[|pubs| - m..], ValueOf(series)))
  }

  ghost predicate HoldsLatest(series: seq<Entry>, window: nat, hist: map<string, seq<Num>>, n: string) {
    exists pubs :: Lists(series, n, pubs) && IsWindow(series, pubs, window, hist, n)
  }

  /** An entry with its place in the series. */
  datatype Placed = Placed(at: nat, entry: Entry)

  function EntryOf(p: Placed): Entry { p.entry }

  function Places(series: seq<Entry>): seq<Placed> {
    seq(|series|, i requires 0 <= i < |series| => Placed(i, series[i]))
  }

  predicate PlacedDateLe(p: Placed, q: Placed) { p.entry.date <= q.entry.date }

  /** By date, and by place for equal dates. */
  predicate PlacedLe(p: Placed, q: Placed) {
    p.entry.date < q.entry.date || (p.entry.date == q.entry.date && p.at <= q.at)
  }

  lemma ByDateAndPlace(series: seq<Entry>)
    ensures var ps := Sort(Places(series), PlacedDateLe);
            && Image(ps, EntryOf) == Oldest(series) && SortedBy(PlacedLe, ps)
            && multiset(ps) == multiset(Places(series))
  {
    var all := Places(series);
    assert Image(all, EntryOf) == series;
    SortImage(all, EntryOf, PlacedDateLe, DateLe);
    SortSame(all, PlacedDateLe, PlacedLe);
    assert TotalPreorder(PlacedLe);
    SortSorts(all, PlacedLe);
  }

  /** The places of `n` among the benches of the entry at `at`. */
  function SpotsIn(at: nat, benches: seq<Bench>, n: string): seq<Spot> {
    if benches == [] then [] else
    var m := |benches| - 1;
    SpotsIn(at, benches[..m], n) + if benches[m].name == Some(n) then [Spot(at, m)] else []
  }

  function AllSpots(ps: seq<Placed>, n: string): seq<Spot> {
    if ps == [] then [] else
    AllSpots(ps[..|ps| - 1], n) + SpotsIn(ps[|ps| - 1].at, ps[|ps| - 1].entry.benches, n)
  }

  lemma {:induction false} SpotsInAre(at: nat, benches: seq<Bench>, n: string, p: Spot)
    ensures p in SpotsIn(at, benches, n) <==> p.entry == at && p.bench < |benches| && benches[p.bench].name == Some(n)
  {
    if benches != [] {
      var m := |benches| - 1;
      SpotsInAre(at, benches[..m], n, p);
      assert p.bench < m ==> benches[..m][p.bench] == benches[p.bench];
    }
  }

  /** Spots of one entry, in the order of their benches. */
  ghost predicate OfEntry(s: seq<Spot>, at: nat, m: nat) {
    && (forall k | 0 <= k < |s| :: s[k].entry == at && s[k].bench < m)
    && (forall i, j | 0 <= i < j < |s| :: s[i].bench < s[j].bench)
  }

  lemma OfEntryPush(s: seq<Spot>, at: nat, m: nat)
    requires OfEntry(s, at, m)
    ensures OfEntry(s, at, m + 1) && OfEntry(s + [Spot(at, m)], at, m + 1)
  {
  }

  lemma {:induction false} SpotsInAscend(at: nat, benches: seq<Bench>, n: string)
    ensures OfEntry(SpotsIn(at, benches, n), at, |benches|)
  {
    if benches != [] {
      var m := |benches| - 1;
      SpotsInAscend(at, benches[..m], n);
      OfEntryPush(SpotsIn(at, benches[..m], n), at, m);
      assert SpotsIn(at, benches[..m], n) + [] == SpotsIn(at, benches[..m], n);
    }
  }

  ghost predicate HasPlace(ps: seq<Placed>, e: nat) { exists k | 0 <= k < |ps| :: ps[k].at == e }

  ghost predicate AreOf(series: seq<Entry>, ps: seq<Placed>) {
    forall k | 0 <= k < |ps| :: ps[k].at < |series| && series[ps[k].at] == ps[k].entry
  }

  lemma {:induction false} SpotsInValues(series: seq<Entry>, p: Placed, m: nat, n: string)
    requires p.at < |series| && series[p.at] == p.entry && m <= |p.entry.benches|
    ensures Image(SpotsIn(p.at, p.entry.benches[..m], n), ValueOf(series)) == ValuesIn(p.entry.benches[..m], n)
  {
    if m > 0 {
      SpotsInValues(series, p, m - 1, n);
      assert p.entry.benches[..m][..m - 1] == p.entry.benches[..m - 1];
    }
  }

  lemma {:induction false} SpotValues(series: seq<Entry>, ps: seq<Placed>, n: string)
    requires AreOf(series, ps)
    ensures Image(AllSpots(ps, n), ValueOf(series)) == AllValues(Image(ps, EntryOf), n)
  {
    if ps != [] {
      var init, p := ps[..|ps| - 1], ps[|ps| - 1];
      SpotValues(series, init, n);
      assert Image(ps, EntryOf)[..|ps| - 1] == Image(init, EntryOf);
      assert p.entry.benches[..|p.entry.benches|] == p.entry.benches;
      SpotsInValues(series, p, |p.entry.benches|, n);
    } else {
      assert Image(ps, EntryOf) == [];
    }
  }

  lemma {:induction false} SpotsAre(series: seq<Entry>, ps: seq<Placed>, n: string, s: Spot)
    requires AreOf(series, ps)
    ensures s in AllSpots(ps, n) <==> IsSpot(series, n, s) && HasPlace(ps, s.entry)
  {
    if ps != [] {
      var init, p := ps[..|ps| - 1], ps[|ps| - 1];
      SpotsAre(series, init, n, s);
      SpotsInAre(p.at, p.entry.benches, n, s);
      assert ps == init + [p];
    }
  }

  lemma InOrderJoin(series: seq<Entry>, n: string, a: seq<Spot>, b: seq<Spot>, at: nat, m: nat)
    requires InOrder(series, n, a) && OfEntry(b, at, m) && forall k | 0 <= k < |b| :: IsSpot(series, n, b[k])
    requires forall i | 0 <= i < |a| :: at < |series| && IsBefore(series, a[i], Spot(at, 0)) && a[i].entry != at
    ensures InOrder(series, n, a + b)
  {
    var s := a + b;
    forall i, j | 0 <= i < j < |s| ensures IsBefore(series, s[i], s[j]) {
      if i < |a| <= j {
        assert s[j] == b[j - |a|] && IsBefore(series, a[i], Spot(at, 0));
      } else if i >= |a| {
        assert s[i] == b[i - |a|] && s[j] == b[j - |a|];
      }
    }
  }

  /** Distinct places in order give spots in order. */
  lemma {:induction false} SpotsAscend(series: seq<Entry>, ps: seq<Placed>, n: string)
    requires AreOf(series, ps) && SortedBy(PlacedLe, ps)
    requires forall i, j | 0 <= i < j < |ps| :: ps[i].at != ps[j].at
    ensures InOrder(series, n, AllSpots(ps, n))
  {
    if ps != [] {
      var last := |ps| - 1;
      var init, p := ps[..last], ps[last];
      SpotsAscend(series, init, n);
      SpotsInAscend(p.at, p.entry.benches, n);
      var a, b := AllSpots(init, n), SpotsIn(p.at, p.entry.benches, n);
      forall k | 0 <= k < |b| ensures IsSpot(series, n, b[k]) {
        assert b[k] in b;
        SpotsInAre(p.at, p.entry.benches, n, b[k]);
      }
      forall i | 0 <= i < |a| ensures IsBefore(series, a[i], Spot(p.at, 0)) && a[i].entry != p.at {
        assert a[i] in a;
        SpotsAre(series, init, n, a[i]);
        var k :| 0 <= k < |init| && init[k].at == a[i].entry;
        assert init[k] == ps[k] && PlacedLe(ps[k], ps[last]) && ps[k].at != p.at;
      }
      InOrderJoin(series, n, a, b, p.at, |p.entry.benches|);
    }
  }

  /** Every value published for a metric, in order of publication. */
  lemma LatestValues(series: seq<Entry>, n: string)
    ensures exists pubs :: Lists(series, n, pubs) && Image(pubs, ValueOf(series)) == AllValues(Oldest(series), n)
  {
    var all, ps := Places(series), Sort(Places(series), PlacedDateLe);
    ByDateAndPlace(series);
    PlacesSpread(series, ps);
    SpotValues(series, ps, n);
    SpotsAscend(series, ps, n);
    var pubs := AllSpots(ps, n);
    forall s ensures s in pubs <==> IsSpot(series, n, s) { SpotsAre(series, ps, n, s); }
    assert Lists(series, n, pubs);
  }

  lemma PlacesSpread(series: seq<Entry>, ps: seq<Placed>)
    requires multiset(ps) == multiset(Places(series))
    ensures AreOf(series, ps) && (forall i, j | 0 <= i < j < |ps| :: ps[i].at != ps[j].at)
    ensures forall e: nat | e < |series| :: HasPlace(ps, e)
  {
    var all := Places(series);
    assert Distinct(all);
    DistinctPermutation(all, ps);
    forall k | 0 <= k < |ps| ensures ps[k].at < |series| && series[ps[k].at] == ps[k].entry {
      SameMembers(ps, all, ps[k]);
    }
    forall i, j | 0 <= i < j < |ps| ensures ps[i].at != ps[j].at {
      assert ps[i] != ps[j];
    }
    forall e: nat | e < |series| ensures HasPlace(ps, e) {
      assert all[e] in all;
      SameMembers(all, ps, all[e]);
      var k :| 0 <= k < |ps| && ps[k] == all[e];
    }
  }

  lemma WindowIs(series: seq<Entry>, pubs: seq<Spot>, window: nat, hist: map<string, seq<Num>>, n: string)
    requires n in hist <==> pubs != []
    requires n in hist ==> hist[n] == LastUpTo(Image(pubs, ValueOf(series)), window)
    ensures IsWindow(series, pubs, window, hist, n)
  {
    var m := if window == 0 || |pubs| < window then |pubs| else window;
    ImageDrop(pubs, |pubs| - m, ValueOf(series));
    hide Image;
  }

  lemma ImageDrop<T, U>(s: seq<T>, k: nat, f: T -> U)
    requires k <= |s|
    ensures Image(s, f)[k..] == Image(s[k..], f)
  {
  }

  lemma WindowOf(series: seq<Entry>, n: string, window: nat, hist: map<string, seq<Num>>)
    requires n in hist <==> AllValues(Oldest(series), n) != []
    requires n in hist ==> hist[n] == LastUpTo(AllValues(Oldest(series), n), window)
    ensures HoldsLatest(series, window, hist, n)
  {
    hide Lists, IsWindow, AllValues, Oldest, LastUpTo;
    LatestValues(series, n);
    var pubs :| Lists(series, n, pubs) && Image(pubs, ValueOf(series)) == AllValues(Oldest(series), n);
    WindowIs(series, pubs, window, hist, n);
  }

  /** As many values are kept as were published, up to the window, and none was published on an earlier date
      than one that was dropped. */
  lemma DroppedAreNotLater(series: seq<Entry>, pubs: seq<Spot>, window: nat, hist: map<string, seq<Num>>, n: string,
                           i: nat, j: nat)
    requires Lists(series, n, pubs) && IsWindow(series, pubs, window, hist, n) && n in hist && window > 0
    ensures |hist[n]| == if |pubs| < window then |pubs| else window
    ensures i < |pubs| - |hist[n]| <= j < |pubs| ==>
              && pubs[i].entry < |series| && pubs[j].entry < |series|
              && series[pubs[i].entry].date <= series[pubs[j].entry].date
  {
    if i < j < |pubs| { assert IsSpot(series, n, pubs[i]) && IsSpot(series, n, pubs[j]); }
  }

  predicate PublishesIn(e: Entry, name: string) { ValuesIn(e.benches, name) != [] }

  function Publishes(name: string): Entry -> bool { (e: Entry) => PublishesIn(e, name) }

  lemma {:induction false} AllValuesFilter(entries: seq<Entry>, name: string)
    ensures AllValues(Filter(entries, Publishes(name)), name) == AllValues(entries, name)
  {
    if entries != [] {
      var init, e := entries[..|entries| - 1], entries[|entries| - 1];
      AllValuesFilter(init, name);
      assert entries == init + [e];
      FilterAppend(init, [e], Publishes(name));
      assert [e][1..] == [];
      var kept := Filter(init, Publishes(name));
      if PublishesIn(e, name) {
        assert Filter(entries, Publishes(name)) == kept + [e];
        assert (kept + [e])[..|kept + [e]| - 1] == kept;
      } else {
        assert Filter(entries, Publishes(name)) == kept;
      }
    }
  }

  /** A metric's window is drawn from the entries that publish it, however many entries without it
      lie between them: the others can be dropped from the series. */
  lemma WindowIsPerMetric(series: seq<Entry>, name: string)
    ensures AllValues(Oldest(series), name) == AllValues(Oldest(Filter(series, Publishes(name))), name)
  {
    assert TotalPreorder(DateLe);
    SortFilter(series, DateLe, Publishes(name));
    AllValuesFilter(Oldest(series), name);
  }
}
