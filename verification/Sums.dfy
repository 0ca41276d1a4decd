/** Concatenation and weighted sums of sequences. */
module Sums {

  function Flatten<T>(ss: seq<seq<T>>): seq<T> {
    if ss == [] then [] else ss[0] + Flatten(ss[1..])
  }

  function Total<T>(s: seq<T>, w: T -> real): real {
    if s == [] then 0.0 else w(s[0]) + Total(s[1..], w)
  }

  lemma {:induction false} FlattenAppend<T>(a: seq<seq<T>>, b: seq<seq<T>>)
    ensures Flatten(a + b) == Flatten(a) + Flatten(b)
  {
    if a == [] {
      assert a + b == b;
    } else {
      assert (a + b)[1..] == a[1..] + b;
      FlattenAppend(a[1..], b);
    }
  }

  /** Appending to one inner sequence adds just that element. */
  lemma {:induction false} FlattenUpdate<T>(ss: seq<seq<T>>, k: nat, x: T)
    requires k < |ss|
    ensures multiset(Flatten(ss[k := ss[k] + [x]])) == multiset(Flatten(ss)) + multiset{x}
  {
    var tt := ss[k := ss[k] + [x]];
    if k == 0 {
      assert tt[1..] == ss[1..];
    } else {
      assert tt[1..] == ss[1..][k - 1 := ss[1..][k - 1] + [x]];
      FlattenUpdate(ss[1..], k - 1, x);
    }
  }

  lemma {:induction false} FlattenLonger<T>(ss: seq<seq<T>>, k: nat)
    requires k < |ss|
    ensures |Flatten(ss)| >= |ss[k]|
    ensures forall x :: x in ss[k] ==> x in Flatten(ss)
  {
    if k > 0 { FlattenLonger(ss[1..], k - 1); }
  }

  lemma {:induction false} InFlatten<T>(ss: seq<seq<T>>, x: T) returns (k: nat)
    requires x in Flatten(ss)
    ensures k < |ss| && x in ss[k]
  {
    if x in ss[0] {
      k := 0;
    } else {
      k := InFlatten(ss[1..], x);
      k := k + 1;
    }
  }

  lemma SameMembers<T>(a: seq<T>, b: seq<T>, x: T)
    requires multiset(a) == multiset(b) && x in a
    ensures x in b
  {
    assert x in multiset(a);
    assert x in multiset(b);
  }

  ghost predicate Distinct<T>(s: seq<T>) { forall i, j | 0 <= i < j < |s| :: s[i] != s[j] }

  lemma DistinctPermutation<T>(a: seq<T>, b: seq<T>)
    requires multiset(a) == multiset(b) && Distinct(a)
    ensures Distinct(b)
  {
    forall i, j | 0 <= i < j < |b| ensures b[i] != b[j] {
      if b[i] == b[j] {
        assert b == b[..i] + [b[i]] + b[i + 1..j] + [b[j]] + b[j + 1..];
        assert multiset(b)[b[i]] >= 2;
        DistinctCount(a, b[i]);
        assert false;
      }
    }
  }

  lemma {:induction false} DistinctCount<T>(a: seq<T>, x: T)
    requires Distinct(a)
    ensures multiset(a)[x] <= 1
  {
    if a != [] {
      DistinctCount(a[1..], x);
      assert a == [a[0]] + a[1..];
      if x == a[0] { assert x !in a[1..]; }
    }
  }

  lemma TotalSingle<T>(x: T, w: T -> real)
    ensures Total([x], w) == w(x)
  {
    assert [x][1..] == [];
  }

  lemma {:induction false} TotalAppend<T>(a: seq<T>, b: seq<T>, w: T -> real)
    ensures Total(a + b, w) == Total(a, w) + Total(b, w)
  {
    if a == [] {
      assert a + b == b;
    } else {
      assert (a + b)[1..] == a[1..] + b;
      TotalAppend(a[1..], b, w);
    }
  }

  lemma RemoveAt<T>(b: seq<T>, k: nat)
    requires k < |b|
    ensures b == b[..k] + ([b[k]] + b[k + 1..])
    ensures multiset(b[..k] + b[k + 1..]) == multiset(b) - multiset{b[k]}
  {
    assert b == b[..k] + ([b[k]] + b[k + 1..]);
  }

  /** Where a permutation holds the head of the other sequence. */
  lemma MatchHead<T>(a: seq<T>, b: seq<T>) returns (k: nat)
    requires multiset(a) == multiset(b) && a != []
    ensures k < |b| && b == b[..k] + ([a[0]] + b[k + 1..])
    ensures multiset(a[1..]) == multiset(b[..k] + b[k + 1..])
  {
    SameMembers(a, b, a[0]);
    k :| 0 <= k < |b| && b[k] == a[0];
    RemoveAt(b, k);
    RemoveAt(a, 0);
    assert a[..0] + a[1..] == a[1..];
  }

  lemma {:induction false} TotalPermutation<T>(a: seq<T>, b: seq<T>, w: T -> real)
    requires multiset(a) == multiset(b)
    ensures Total(a, w) == Total(b, w)
  {
    if a == [] {
      assert |multiset(b)| == 0;
      assert b == [];
    } else {
      var k := MatchHead(a, b);
      TotalPermutation(a[1..], b[..k] + b[k + 1..], w);
      TotalAppend(b[..k], [a[0]] + b[k + 1..], w);
      TotalAppend(b[..k], b[k + 1..], w);
      assert ([a[0]] + b[k + 1..])[1..] == b[k + 1..];
    }
  }

  lemma {:induction false} TotalNonNegative<T>(s: seq<T>, w: T -> real)
    requires forall x | x in s :: w(x) >= 0.0
    ensures Total(s, w) >= 0.0
    ensures forall x | x in s :: Total(s, w) >= w(x)
  {
    if s != [] {
      TotalNonNegative(s[1..], w);
      forall x | x in s ensures Total(s, w) >= w(x) {
        if x != s[0] { assert x in s[1..]; }
      }
    }
  }

  /** `x` added up `n` times. */
  function Times(n: nat, x: real): real {
    if n == 0 then 0.0 else x + Times(n - 1, x)
  }

  lemma {:induction false} TimesIsProduct(n: nat, x: real)
    ensures Times(n, x) == n as real * x
  {
    if n > 0 {
      TimesIsProduct(n - 1, x);
      assert n as real * x == (n - 1) as real * x + x by { assert n as real == (n - 1) as real + 1.0; }
    }
  }

  lemma {:induction false} TimesOne(n: nat)
    ensures Times(n, 1.0) == n as real
  {
    if n > 0 { TimesOne(n - 1); }
  }

  lemma {:induction false} TimesMonotone(m: nat, n: nat, x: real)
    requires m <= n && x >= 0.0
    ensures Times(m, x) <= Times(n, x)
  {
    if m < n { TimesMonotone(m, n - 1, x); }
  }

  lemma {:induction false} TotalFlattenAtMost<T>(ss: seq<seq<T>>, w: T -> real, bound: real)
    requires forall i | 0 <= i < |ss| :: Total(ss[i], w) <= bound
    ensures Total(Flatten(ss), w) <= Times(|ss|, bound)
  {
    if ss != [] {
      TotalFlattenAtMost(ss[1..], w, bound);
      TotalAppend(ss[0], Flatten(ss[1..]), w);
    }
  }
}
