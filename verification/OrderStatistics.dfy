/** The median of a window of readings, and how far it can move when the readings do. */
module OrderStatistics {
  import opened Basics
  import opened Sorting
  import opened Sums

  predicate RealLe(x: real, y: real) { x <= y }

  function Sorted(s: seq<real>): (r: seq<real>)
    ensures |r| == |s|
  {
    Sort(s, RealLe)
  }

  /** Python's `statistics.median`. */
  function Median(s: seq<real>): real
    requires s != []
  {
    var t, n := Sorted(s), |s|;
    if n % 2 == 1 then t[n / 2] else (t[n / 2 - 1] + t[n / 2]) / 2.0
  }

  ghost predicate AllLe(a: seq<real>, b: seq<real>) {
    |a| == |b| && forall i | 0 <= i < |a| :: a[i] <= b[i]
  }

  ghost predicate Ascending(s: seq<real>) { forall i, j | 0 <= i < j < |s| :: s[i] <= s[j] }

  lemma SortedAscends(s: seq<real>)
    ensures Ascending(Sorted(s)) && multiset(Sorted(s)) == multiset(s)
  {
    assert TotalPreorder(RealLe);
    SortSorts(s, RealLe);
    var t := Sorted(s);
    forall i, j | 0 <= i < j < |t| ensures t[i] <= t[j] { assert RealLe(t[i], t[j]); }
  }

  lemma InsertFront(s: seq<real>)
    requires s != [] && Ascending(s)
    ensures Insert(s[0], s[1..], RealLe) == s && Ascending(s[1..])
  {
    assert s == [s[0]] + s[1..];
  }

  lemma AllLeCons(x: real, s: seq<real>, y: real, t: seq<real>)
    requires x <= y && AllLe(s, t)
    ensures AllLe([x] + s, [y] + t)
  {
  }

  lemma {:induction false} InsertMonotone(x: real, s: seq<real>, y: real, t: seq<real>)
    requires x <= y && AllLe(s, t) && Ascending(s) && Ascending(t)
    ensures AllLe(Insert(x, s, RealLe), Insert(y, t, RealLe))
    decreases |s|
  {
    if s == [] {
    } else if x <= s[0] && y <= t[0] {
      AllLeCons(x, s, y, t);
    } else {
      var s', t' := s[1..], t[1..];
      InsertFront(s);
      InsertFront(t);
      if x <= s[0] {
        InsertMonotone(s[0], s', y, t');
        AllLeCons(x, s, t[0], Insert(y, t', RealLe));
      } else if y <= t[0] {
        InsertMonotone(x, s', t[0], t');
        AllLeCons(s[0], Insert(x, s', RealLe), y, t);
      } else {
        InsertMonotone(x, s', y, t');
        AllLeCons(s[0], Insert(x, s', RealLe), t[0], Insert(y, t', RealLe));
      }
    }
  }

  lemma {:induction false} SortedMonotone(a: seq<real>, b: seq<real>)
    requires AllLe(a, b)
    ensures AllLe(Sorted(a), Sorted(b))
  {
    if a != [] {
      SortedMonotone(a[1..], b[1..]);
      SortedAscends(a[1..]);
      SortedAscends(b[1..]);
      InsertMonotone(a[0], Sorted(a[1..]), b[0], Sorted(b[1..]));
    }
  }

  lemma MedianMonotone(a: seq<real>, b: seq<real>)
    requires AllLe(a, b) && a != []
    ensures Median(a) <= Median(b)
  {
    SortedMonotone(a, b);
  }

  ghost predicate Increasing(f: real -> real) { forall x, y :: x <= y ==> f(x) <= f(y) }

  lemma MapCons(x: real, s: seq<real>, f: real -> real)
    ensures Image([x] + s, f) == [f(x)] + Image(s, f)
  {
  }

  lemma {:induction false} InsertMap(x: real, s: seq<real>, f: real -> real)
    requires Increasing(f) && Ascending(s)
    ensures Insert(f(x), Image(s, f), RealLe) == Image(Insert(x, s, RealLe), f)
  {
    if s == [] {
      assert Image(s, f) == [];
    } else if x <= s[0] {
      MapCons(x, s, f);
    } else {
      var rest := s[1..];
      InsertMap(x, rest, f);
      assert s == [s[0]] + rest;
      MapCons(s[0], rest, f);
      MapCons(s[0], Insert(x, rest, RealLe), f);
      assert ([f(s[0])] + Image(rest, f))[1..] == Image(rest, f);
      if f(x) <= f(s[0]) {
        assert f(x) == f(s[0]);
        if rest != [] { assert f(s[0]) <= f(rest[0]); }
      }
    }
  }

  /** Sorting commutes with a non-decreasing function of the readings. */
  lemma {:induction false} SortedMap(s: seq<real>, f: real -> real)
    requires Increasing(f)
    ensures Sorted(Image(s, f)) == Image(Sorted(s), f)
  {
    if s != [] {
      SortedMap(s[1..], f);
      SortedAscends(s[1..]);
      InsertMap(s[0], Sorted(s[1..]), f);
      assert Image(s, f)[1..] == Image(s[1..], f);
    }
  }

  function Shift(d: real): real -> real { (x: real) => x + d }

  lemma MedianShift(s: seq<real>, d: real)
    requires s != []
    ensures Median(Image(s, Shift(d))) == Median(s) + d
  {
    SortedMap(s, Shift(d));
  }

  /** The median moves at most `d` when every reading moves at most `d`. */
  lemma MedianStable(a: seq<real>, b: seq<real>, d: real)
    requires |a| == |b| && a != []
    requires forall i | 0 <= i < |a| :: a[i] - d <= b[i] <= a[i] + d
    ensures Median(a) - d <= Median(b) <= Median(a) + d
  {
    MedianMonotone(b, Image(a, Shift(d)));
    MedianMonotone(Image(a, Shift(-d)), b);
    MedianShift(a, d);
    MedianShift(a, -d);
  }

  function AtMost(m: real): real -> bool { (x: real) => x <= m }

  function AtLeast(m: real): real -> bool { (x: real) => x >= m }

  lemma {:induction false} FilterPrefix(s: seq<real>, p: real -> bool, k: nat)
    requires k <= |s| && forall i | 0 <= i < k :: p(s[i])
    ensures |Filter(s, p)| >= k
  {
    if k > 0 { FilterPrefix(s[1..], p, k - 1); }
  }

  lemma {:induction false} FilterPermutation(a: seq<real>, b: seq<real>, p: real -> bool)
    requires multiset(a) == multiset(b)
    ensures |Filter(a, p)| == |Filter(b, p)|
  {
    if a == [] {
      assert |multiset(b)| == 0;
      assert b == [];
    } else {
      var k := MatchHead(a, b);
      var head, before, behind := [a[0]], b[..k], b[k + 1..];
      FilterPermutation(a[1..], before + behind, p);
      assert a == head + a[1..];
      FilterAppend(head, a[1..], p);
      FilterAppend(before, head + behind, p);
      FilterAppend(head, behind, p);
      FilterAppend(before, behind, p);
    }
  }

  /** At least half of the readings are at or below the median, and at least half at or above it. */
  lemma MedianSplits(s: seq<real>)
    requires s != []
    ensures 2 * |Filter(s, AtMost(Median(s)))| >= |s| && 2 * |Filter(s, AtLeast(Median(s)))| >= |s|
  {
    var t, m, n := Sorted(s), Median(s), |s|;
    SortedAscends(s);
    FilterPermutation(t, s, AtMost(m));
    FilterPermutation(t, s, AtLeast(m));
    FilterPrefix(t, AtMost(m), if n % 2 == 1 then n / 2 + 1 else n / 2);
    var upper := t[n / 2..];
    assert t == t[..n / 2] + upper;
    FilterAppend(t[..n / 2], upper, AtLeast(m));
    FilterPrefix(upper, AtLeast(m), |upper|);
  }

  lemma MedianNonNegative(s: seq<real>)
    requires s != [] && forall x | x in s :: x >= 0.0
    ensures Median(s) >= 0.0
  {
    SortedAscends(s);
    var t := Sorted(s);
    forall i | 0 <= i < |t| ensures t[i] >= 0.0 {
      assert t[i] in multiset(t);
      assert t[i] in s;
    }
  }
}
