/** Small things several models share: options, images and filters of sequences, and what stands at a
    position. */
module Basics {

  datatype Option<T> = None | Some(value: T)

  /** `f` of every element. */
  function Image<T, U>(s: seq<T>, f: T -> U): (r: seq<U>)
    ensures |r| == |s| && forall i | 0 <= i < |s| :: r[i] == f(s[i])
  {
    seq(|s|, i requires 0 <= i < |s| => f(s[i]))
  }

  /** The characters `a` and `b` stand at `i`. */
  predicate Two(s: string, i: nat, a: char, b: char) { i + 1 < |s| && s[i] == a && s[i + 1] == b }

  /** `word` stands in `s` at `i`. */
  predicate HasAt<T(==)>(s: seq<T>, i: nat, word: seq<T>) { i + |word| <= |s| && s[i..i + |word|] == word }

  lemma SliceOfRest<T>(s: seq<T>, i: nat, k: nat, e: nat)
    requires i + k <= e <= |s|
    ensures s[i + k..e] == s[i..][k..e - i]
  {
    var a, b := s[i + k..e], s[i..][k..e - i];
    assert |a| == |b|;
    forall j | 0 <= j < |a| ensures a[j] == b[j] {}
  }

  lemma HasAtSplit<T>(s: seq<T>, i: nat, a: seq<T>, b: seq<T>)
    requires HasAt(s, i, a + b)
    ensures HasAt(s, i, a) && HasAt(s, i + |a|, b)
  {
    var c := a + b;
    assert s[i..i + |a|] == c[..|a|] == a;
    assert s[i + |a|..i + |c|] == c[|a|..] == b;
  }

  /** Two texts cut at their first space are equal exactly when both parts are. */
  lemma SpaceSplits(a: string, b: string, c: string, d: string)
    requires ' ' !in a && ' ' !in b
    ensures a + (" " + c) == b + (" " + d) <==> a == b && c == d
  {
    var s, t := a + (" " + c), b + (" " + d);
    if s == t {
      assert s[|a|] == ' ' && forall k | 0 <= k < |b| :: s[k] == b[k] && b[k] in b;
      assert t[|b|] == ' ' && forall k | 0 <= k < |a| :: t[k] == a[k] && a[k] in a;
      assert a == s[..|a|] && b == t[..|b|] && c == s[|a| + 1..] && d == t[|b| + 1..];
    }
  }

  /** Round half to even. */
  function RoundEven(y: real): int {
    var f := y.Floor;
    var d := y - f as real;
    if d < 0.5 then f else if d > 0.5 then f + 1 else if f % 2 == 0 then f else f + 1
  }

  /** The nearest integer, and of two equally near ones the even one. */
  lemma RoundEvenIs(y: real, n: int)
    ensures RoundEven(y) == n <==>
            n as real - 0.5 <= y <= n as real + 0.5 && (y == n as real - 0.5 || y == n as real + 0.5 ==> n % 2 == 0)
  {
    var d := y - y.Floor as real;
    if y == n as real + 0.5 { assert y.Floor == n; }
    if y == n as real - 0.5 { assert y.Floor == n - 1; }
  }

  // ----- filtering ---------------------------------------------------------------------

  function Filter<T>(s: seq<T>, p: T -> bool): seq<T> {
    if s == [] then [] else if p(s[0]) then [s[0]] + Filter(s[1..], p) else Filter(s[1..], p)
  }

  lemma {:induction false} FilterMembers<T>(s: seq<T>, p: T -> bool)
    ensures forall x :: x in Filter(s, p) <==> x in s && p(x)
  {
    if s != [] {
      FilterMembers(s[1..], p);
      assert s == [s[0]] + s[1..];
    }
  }

  lemma {:induction false} FilterAppend<T>(s: seq<T>, t: seq<T>, p: T -> bool)
    ensures Filter(s + t, p) == Filter(s, p) + Filter(t, p)
  {
    if s == [] {
      assert s + t == t;
    } else {
      assert (s + t)[1..] == s[1..] + t;
      FilterAppend(s[1..], t, p);
    }
  }

  lemma FilterPush<T>(s: seq<T>, i: nat, p: T -> bool)
    requires i < |s|
    ensures Filter(s[..i + 1], p) == Filter(s[..i], p) + if p(s[i]) then [s[i]] else []
  {
    assert s[..i + 1] == s[..i] + [s[i]];
    FilterAppend(s[..i], [s[i]], p);
    assert [s[i]][1..] == [];
  }

  lemma {:induction false} FilterSplits<T>(s: seq<T>, p: T -> bool, q: T -> bool)
    requires forall x | x in s :: p(x) <==> !q(x)
    ensures multiset(Filter(s, p)) + multiset(Filter(s, q)) == multiset(s)
  {
    if s != [] {
      FilterSplits(s[1..], p, q);
      assert s == [s[0]] + s[1..];
    }
  }

  lemma {:induction false} FilterNone<T>(s: seq<T>, p: T -> bool)
    ensures Filter(s, p) == [] <==> forall x | x in s :: !p(x)
  {
    if s != [] {
      FilterNone(s[1..], p);
      assert s == [s[0]] + s[1..];
    }
  }

  lemma {:induction false} FilterSame<T>(s: seq<T>, p: T -> bool, q: T -> bool)
    requires forall x | x in s :: p(x) <==> q(x)
    ensures Filter(s, p) == Filter(s, q)
  {
    if s != [] {
      assert s == [s[0]] + s[1..];
      FilterSame(s[1..], p, q);
    }
  }
}
