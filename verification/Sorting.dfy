/** Stable sorting by a total preorder, and the code-point order on strings: the two
    things the scripts take from Python's `sorted`. */
module Sorting {
  import opened Basics

  ghost predicate TotalPreorder<T(!new)>(le: (T, T) -> bool) {
    && (forall x, y :: le(x, y) || le(y, x))
    && (forall x, y, z :: le(x, y) && le(y, z) ==> le(x, z))
  }

  ghost predicate SortedBy<T>(le: (T, T) -> bool, s: seq<T>) {
    forall i, j | 0 <= i < j < |s| :: le(s[i], s[j])
  }

  /** Puts `x` in front of the first element that is not strictly below it. */
  function Insert<T>(x: T, s: seq<T>, le: (T, T) -> bool): (r: seq<T>)
    ensures |r| == |s| + 1
  {
    if s == [] || le(x, s[0]) then [x] + s else [s[0]] + Insert(x, s[1..], le)
  }

  function Sort<T>(s: seq<T>, le: (T, T) -> bool): (r: seq<T>)
    ensures |r| == |s|
  {
    if s == [] then [] else Insert(s[0], Sort(s[1..], le), le)
  }

  lemma {:induction false} InsertMembers<T>(x: T, s: seq<T>, le: (T, T) -> bool)
    ensures multiset(Insert(x, s, le)) == multiset(s) + multiset{x}
    ensures forall y | y in Insert(x, s, le) :: y == x || y in s
  {
    if s != [] && !le(x, s[0]) {
      InsertMembers(x, s[1..], le);
      assert s == [s[0]] + s[1..];
    }
  }

  lemma SortedCons<T>(x: T, s: seq<T>, le: (T, T) -> bool)
    requires SortedBy(le, s) && forall y | y in s :: le(x, y)
    ensures SortedBy(le, [x] + s)
  {
    var t := [x] + s;
    forall i, j | 0 <= i < j < |t| ensures le(t[i], t[j]) {
      assert t[j] == s[j - 1];
      if i > 0 { assert t[i] == s[i - 1]; }
    }
  }

  lemma {:induction false} InsertKeepsOrder<T(!new)>(x: T, s: seq<T>, le: (T, T) -> bool)
    requires TotalPreorder(le) && SortedBy(le, s)
    ensures SortedBy(le, Insert(x, s, le))
  {
    if s == [] {
    } else if le(x, s[0]) {
      forall y | y in s ensures le(x, y) {
        var k :| 0 <= k < |s| && s[k] == y;
        assert k == 0 || le(s[0], s[k]);
      }
      SortedCons(x, s, le);
    } else {
      InsertKeepsOrder(x, s[1..], le);
      InsertMembers(x, s[1..], le);
      forall y | y in Insert(x, s[1..], le) ensures le(s[0], y) {
        if y in s[1..] {
          var k :| 1 <= k < |s| && s[k] == y;
          assert le(s[0], s[k]);
        }
      }
      SortedCons(s[0], Insert(x, s[1..], le), le);
    }
  }

  lemma {:induction false} SortSorts<T(!new)>(s: seq<T>, le: (T, T) -> bool)
    requires TotalPreorder(le)
    ensures SortedBy(le, Sort(s, le))
    ensures multiset(Sort(s, le)) == multiset(s)
  {
    if s != [] {
      SortSorts(s[1..], le);
      InsertKeepsOrder(s[0], Sort(s[1..], le), le);
      InsertMembers(s[0], Sort(s[1..], le), le);
      assert s == [s[0]] + s[1..];
    }
  }

  lemma {:induction false} InsertFilter<T(!new)>(x: T, s: seq<T>, le: (T, T) -> bool, p: T -> bool)
    requires TotalPreorder(le) && SortedBy(le, s)
    ensures Filter(Insert(x, s, le), p) == if p(x) then Insert(x, Filter(s, p), le) else Filter(s, p)
  {
    if s == [] {
      assert [x][1..] == [];
    } else if le(x, s[0]) {
      assert ([x] + s)[1..] == s;
      FilterMembers(s, p);
      var f := Filter(s, p);
      if f != [] {
        assert f[0] in f;
        var k :| 0 <= k < |s| && s[k] == f[0];
        assert k == 0 || le(s[0], s[k]);
        assert le(x, f[0]);
      }
    } else {
      InsertFilter(x, s[1..], le, p);
      var t := [s[0]] + Insert(x, s[1..], le);
      assert t[1..] == Insert(x, s[1..], le);
      var f := Filter(s, p);
      if p(s[0]) { assert f[1..] == Filter(s[1..], p); }
    }
  }

  /** Stable sorting commutes with leaving elements out. */
  lemma {:induction false} SortFilter<T(!new)>(s: seq<T>, le: (T, T) -> bool, p: T -> bool)
    requires TotalPreorder(le)
    ensures Filter(Sort(s, le), p) == Sort(Filter(s, p), le)
  {
    if s != [] {
      SortFilter(s[1..], le, p);
      SortSorts(s[1..], le);
      InsertFilter(s[0], Sort(s[1..], le), le, p);
      if p(s[0]) { assert Filter(s, p)[1..] == Filter(s[1..], p); }
    }
  }

  lemma {:induction false} InsertSame<T>(x: T, s: seq<T>, le: (T, T) -> bool, le': (T, T) -> bool)
    requires forall y | y in s :: le(x, y) == le'(x, y)
    ensures Insert(x, s, le) == Insert(x, s, le')
  {
    if s != [] { InsertSame(x, s[1..], le, le'); }
  }

  /** Only how an element compares with later ones matters. */
  lemma {:induction false} SortSame<T>(s: seq<T>, le: (T, T) -> bool, le': (T, T) -> bool)
    requires forall i, j | 0 <= i < j < |s| :: le(s[i], s[j]) == le'(s[i], s[j])
    ensures Sort(s, le) == Sort(s, le')
  {
    if s != [] {
      SortSame(s[1..], le, le');
      forall y | y in Sort(s[1..], le) ensures le(s[0], y) == le'(s[0], y) {
        SortMembers(s[1..], le);
        var k :| 0 <= k < |s[1..]| && s[1..][k] == y;
        assert s[k + 1] == y;
      }
      InsertSame(s[0], Sort(s[1..], le), le, le');
    }
  }

  lemma {:induction false} SortMembers<T>(s: seq<T>, le: (T, T) -> bool)
    ensures multiset(Sort(s, le)) == multiset(s) && forall y | y in Sort(s, le) :: y in s
  {
    if s != [] {
      SortMembers(s[1..], le);
      InsertMembers(s[0], Sort(s[1..], le), le);
      assert s == [s[0]] + s[1..];
    }
  }

  lemma ImageCons<T, U>(x: T, s: seq<T>, f: T -> U)
    ensures Image([x] + s, f) == [f(x)] + Image(s, f)
  {
  }

  lemma ImageRest<T, U>(s: seq<T>, f: T -> U)
    requires s != []
    ensures Image(s, f) != [] && Image(s, f)[0] == f(s[0]) && Image(s, f)[1..] == Image(s[1..], f)
  {
  }

  lemma {:induction false} InsertImage<T, U>(x: T, s: seq<T>, f: T -> U, le: (T, T) -> bool, le': (U, U) -> bool)
    requires forall y | y in s :: le(x, y) == le'(f(x), f(y))
    ensures Image(Insert(x, s, le), f) == Insert(f(x), Image(s, f), le')
  {
    hide Image;
    if s == [] {
      ImageCons(x, s, f);
      assert [x] + s == [x] && Image(s, f) == [];
    } else {
      ImageRest(s, f);
      assert s[0] in s;
      if le(x, s[0]) {
        ImageCons(x, s, f);
      } else {
        InsertImage(x, s[1..], f, le, le');
        ImageCons(s[0], Insert(x, s[1..], le), f);
      }
    }
  }

  /** Sorting by what an image shows is sorting the image. */
  lemma {:induction false} SortImage<T(!new), U>(s: seq<T>, f: T -> U, le: (T, T) -> bool, le': (U, U) -> bool)
    requires forall x, y :: le(x, y) == le'(f(x), f(y))
    ensures Image(Sort(s, le), f) == Sort(Image(s, f), le')
  {
    if s != [] {
      SortImage(s[1..], f, le, le');
      InsertImage(s[0], Sort(s[1..], le), f, le, le');
      assert Image(s, f)[1..] == Image(s[1..], f);
    } else {
      assert Image(s, f) == [];
    }
  }

  lemma {:induction false} SortOfEquals<T>(s: seq<T>, le: (T, T) -> bool)
    requires forall x, y | x in s && y in s :: le(x, y)
    ensures Sort(s, le) == s
  {
    if s != [] {
      SortOfEquals(s[1..], le);
      assert s == [s[0]] + s[1..];
    }
  }

  function EquivalentTo<T>(x: T, le: (T, T) -> bool): T -> bool { (y: T) => le(x, y) && le(y, x) }

  /** Elements the order does not tell apart keep their places relative to each other. */
  lemma SortIsStable<T(!new)>(s: seq<T>, le: (T, T) -> bool, x: T)
    requires TotalPreorder(le)
    ensures Filter(Sort(s, le), EquivalentTo(x, le)) == Filter(s, EquivalentTo(x, le))
  {
    SortFilter(s, le, EquivalentTo(x, le));
    var same := Filter(s, EquivalentTo(x, le));
    FilterMembers(s, EquivalentTo(x, le));
    forall y, z | y in same && z in same ensures le(y, z) { assert le(y, x) && le(x, z); }
    SortOfEquals(same, le);
  }

  /** Lexicographic order by code point, as Python compares `str`. */
  predicate StringLe(a: string, b: string) {
    a == [] || (b != [] && (a[0] < b[0] || (a[0] == b[0] && StringLe(a[1..], b[1..]))))
  }

  lemma {:induction false} StringLeTotal(a: string, b: string)
    ensures StringLe(a, b) || StringLe(b, a)
  {
    if a != [] && b != [] && a[0] == b[0] { StringLeTotal(a[1..], b[1..]); }
  }

  lemma {:induction false} StringLeTransitive(a: string, b: string, c: string)
    requires StringLe(a, b) && StringLe(b, c)
    ensures StringLe(a, c)
  {
    if a != [] && a[0] == b[0] && b[0] == c[0] { StringLeTransitive(a[1..], b[1..], c[1..]); }
  }

  lemma {:induction false} StringLeAntisymmetric(a: string, b: string)
    requires StringLe(a, b) && StringLe(b, a)
    ensures a == b
  {
    if a != [] {
      StringLeAntisymmetric(a[1..], b[1..]);
      assert a == [a[0]] + a[1..] && b == [b[0]] + b[1..];
    }
  }

  lemma StringLeIsTotalPreorder()
    ensures TotalPreorder(StringLe)
  {
    forall x, y ensures StringLe(x, y) || StringLe(y, x) { StringLeTotal(x, y); }
    forall x, y, z | StringLe(x, y) && StringLe(y, z) ensures StringLe(x, z) { StringLeTransitive(x, y, z); }
  }

  /** The texts agree up to `k`, where `a` has the smaller character. */
  ghost predicate SmallerAt(a: string, b: string, k: nat) { k < |a| && k < |b| && a[..k] == b[..k] && a[k] < b[k] }

  lemma SmallerBehind(c: char, s: string, t: string, k: nat)
    ensures SmallerAt([c] + s, [c] + t, k + 1) <==> SmallerAt(s, t, k)
  {
    var a, b := [c] + s, [c] + t;
    if k < |s| && k < |t| {
      assert a[..k + 1] == [c] + s[..k] && b[..k + 1] == [c] + t[..k];
      assert a[..k + 1][1..] == s[..k] && b[..k + 1][1..] == t[..k];
    }
  }

  /** A text comes before its extensions and before every text that is larger where they first differ. */
  lemma {:induction false} StringLeIff(a: string, b: string)
    ensures StringLe(a, b) <==> a <= b || exists k: nat :: SmallerAt(a, b, k)
  {
    if a != [] && b != [] {
      var s, t := a[1..], b[1..];
      StringLeIff(s, t);
      assert a == [a[0]] + s && b == [b[0]] + t;
      if a[0] < b[0] { assert SmallerAt(a, b, 0); }
      if a[0] == b[0] && StringLe(s, t) && !(s <= t) {
        var k: nat :| SmallerAt(s, t, k);
        SmallerBehind(a[0], s, t, k);
        assert SmallerAt(a, b, k + 1);
      }
      forall k: nat | SmallerAt(a, b, k) ensures StringLe(a, b) {
        if k > 0 {
          assert a[0] == a[..k][0] == b[..k][0] == b[0];
          SmallerBehind(a[0], s, t, k - 1);
        }
      }
    }
  }
}
