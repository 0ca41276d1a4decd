/** Grouping of feature-matrix legs into runner jobs (scripts/assemble-feature-matrix.py):
    legs are clustered by crate, cut into chunks, and the chunks packed first-fit-decreasing. */
module Grouping {
  import opened Basics
  import opened Sums
  import opened Sorting
  import opened Packing

  datatype Group = Group(group: string, cacheCrate: string, count: nat, legs: seq<Leg>, weight: real)

  function LegWeight(l: Leg): real { l.weight }

  ghost predicate PositiveLegs(legs: seq<Leg>) { forall l | l in legs :: l.weight > 0.0 }

  // ----- cutting one crate's legs into chunks ------------------------------------------

  /** The chunks cut from `legs` when the chunk being filled already holds `cur`. */
  function Cut(cur: seq<Leg>, legs: seq<Leg>, capacity: real): seq<seq<Leg>>
    decreases |legs|
  {
    if legs == [] then (if cur == [] then [] else [cur])
    else if cur != [] && Total(cur, LegWeight) + legs[0].weight > capacity
    then [cur] + Cut([legs[0]], legs[1..], capacity)
    else Cut(cur + [legs[0]], legs[1..], capacity)
  }

  method CutCrate(legs: seq<Leg>, capacity: real) returns (chunks: seq<seq<Leg>>)
    ensures chunks == Cut([], legs, capacity)
  {
    chunks := [];
    var cur: seq<Leg>, curW := [], 0.0;
    for i := 0 to |legs|
      invariant curW == Total(cur, LegWeight)
      invariant chunks + Cut(cur, legs[i..], capacity) == Cut([], legs, capacity)
    {
      var leg := legs[i];
      assert legs[i..][1..] == legs[i + 1..];
      if cur != [] && curW + leg.weight > capacity {
        chunks := chunks + [cur];
        cur, curW := [], 0.0;
        assert [] + [leg] == [leg];
      }
      TotalAppend(cur, [leg], LegWeight);
      TotalSingle(leg, LegWeight);
      cur, curW := cur + [leg], curW + leg.weight;
    }
    if cur != [] { chunks := chunks + [cur]; }
  }

  ghost predicate FitsOrAlone(ls: seq<Leg>, capacity: real) {
    ls != [] && (Total(ls, LegWeight) <= capacity || |ls| == 1)
  }

  /** Cutting keeps every leg in order, fills no chunk of two or more beyond the capacity, and
      closes a chunk only when the next leg does not fit. */
  lemma {:induction false} CutIsMaximal(cur: seq<Leg>, legs: seq<Leg>, capacity: real)
    requires cur != [] ==> FitsOrAlone(cur, capacity)
    ensures var r := Cut(cur, legs, capacity);
            && Flatten(r) == cur + legs
            && (forall i | 0 <= i < |r| :: FitsOrAlone(r[i], capacity))
            && (cur != [] ==> r != [] && cur <= r[0])
            && (forall i | 0 <= i < |r| - 1 :: Total(r[i], LegWeight) + r[i + 1][0].weight > capacity)
    decreases |legs|
  {
    if legs != [] {
      if cur != [] && Total(cur, LegWeight) + legs[0].weight > capacity {
        CutIsMaximal([legs[0]], legs[1..], capacity);
        assert cur + legs == cur + ([legs[0]] + legs[1..]);
      } else {
        TotalAppend(cur, [legs[0]], LegWeight);
        TotalSingle(legs[0], LegWeight);
        CutIsMaximal(cur + [legs[0]], legs[1..], capacity);
        assert cur + legs == (cur + [legs[0]]) + legs[1..];
      }
    } else if cur != [] {
      assert [cur][1..] == [];
    }
  }

  // ----- clustering by crate -----------------------------------------------------------

  function LegsOf(legs: seq<Leg>, crate: string): seq<Leg> {
    if legs == [] then [] else (if legs[0].crate == crate then [legs[0]] else []) + LegsOf(legs[1..], crate)
  }

  /** Crate names, in order of first appearance. */
  function CratesOf(legs: seq<Leg>): seq<string> {
    if legs == [] then [] else
    var before := CratesOf(legs[..|legs| - 1]);
    var c := legs[|legs| - 1].crate;
    if c in before then before else before + [c]
  }

  lemma {:induction false} LegsOfAppend(a: seq<Leg>, b: seq<Leg>, crate: string)
    ensures LegsOf(a + b, crate) == LegsOf(a, crate) + LegsOf(b, crate)
  {
    if a == [] {
      assert a + b == b;
    } else {
      var head := if a[0].crate == crate then [a[0]] else [];
      assert (a + b)[0] == a[0] && (a + b)[1..] == a[1..] + b;
      LegsOfAppend(a[1..], b, crate);
      assert head + (LegsOf(a[1..], crate) + LegsOf(b, crate)) == head + LegsOf(a[1..], crate) + LegsOf(b, crate);
    }
  }

  function Lookup(byCrate: map<string, seq<Leg>>, c: string): seq<Leg> {
    if c in byCrate then byCrate[c] else []
  }

  ghost predicate Clustered(legs: seq<Leg>, crates: seq<string>, byCrate: map<string, seq<Leg>>) {
    && crates == CratesOf(legs)
    && (forall c :: c in byCrate <==> c in crates)
    && forall c :: Lookup(byCrate, c) == LegsOf(legs, c)
  }

  lemma CratesOfAppend(legs: seq<Leg>, leg: Leg)
    ensures CratesOf(legs + [leg])
         == if leg.crate in CratesOf(legs) then CratesOf(legs) else CratesOf(legs) + [leg.crate]
  {
    assert (legs + [leg])[..|legs + [leg]| - 1] == legs;
  }

  lemma LookupStep(legs: seq<Leg>, leg: Leg, byCrate: map<string, seq<Leg>>, c: string)
    requires forall d :: Lookup(byCrate, d) == LegsOf(legs, d)
    ensures Lookup(byCrate[leg.crate := Lookup(byCrate, leg.crate) + [leg]], c) == LegsOf(legs + [leg], c)
  {
    LegsOfAppend(legs, [leg], c);
    assert Lookup(byCrate, c) == LegsOf(legs, c);
    assert [leg][1..] == [];
  }

  lemma ClusterStep(legs: seq<Leg>, leg: Leg, crates: seq<string>, byCrate: map<string, seq<Leg>>)
    requires Clustered(legs, crates, byCrate)
    ensures Clustered(legs + [leg],
                      if leg.crate in crates then crates else crates + [leg.crate],
                      byCrate[leg.crate := Lookup(byCrate, leg.crate) + [leg]])
  {
    CratesOfAppend(legs, leg);
    var after := byCrate[leg.crate := Lookup(byCrate, leg.crate) + [leg]];
    forall c ensures Lookup(after, c) == LegsOf(legs + [leg], c) { LookupStep(legs, leg, byCrate, c); }
  }

  /** The dictionary of legs by crate, built leg by leg. */
  method Cluster(legs: seq<Leg>) returns (crates: seq<string>, byCrate: map<string, seq<Leg>>)
    ensures Clustered(legs, crates, byCrate)
  {
    crates, byCrate := [], map[];
    for i := 0 to |legs|
      invariant Clustered(legs[..i], crates, byCrate)
    {
      var leg := legs[i];
      assert legs[..i + 1] == legs[..i] + [leg];
      ClusterStep(legs[..i], leg, crates, byCrate);
      if leg.crate !in byCrate { crates := crates + [leg.crate]; }
      byCrate := byCrate[leg.crate := Lookup(byCrate, leg.crate) + [leg]];
    }
    assert legs[..|legs|] == legs;
  }

  /** Heavier crates first, then by name. */
  function CrateBefore(legs: seq<Leg>): (string, string) -> bool {
    (a: string, b: string) =>
      var wa, wb := Total(LegsOf(legs, a), LegWeight), Total(LegsOf(legs, b), LegWeight);
      wa > wb || (wa == wb && StringLe(a, b))
  }

  function CrateOrder(legs: seq<Leg>): seq<string> { Sort(CratesOf(legs), CrateBefore(legs)) }

  lemma CrateBeforeIsTotalPreorder(legs: seq<Leg>)
    ensures TotalPreorder(CrateBefore(legs))
  {
    forall x, y ensures CrateBefore(legs)(x, y) || CrateBefore(legs)(y, x) { StringLeTotal(x, y); }
    forall x, y, z | CrateBefore(legs)(x, y) && CrateBefore(legs)(y, z) ensures CrateBefore(legs)(x, z) {
      if StringLe(x, y) && StringLe(y, z) { StringLeTransitive(x, y, z); }
    }
  }

  // ----- all chunks --------------------------------------------------------------------

  function Tag(pieces: seq<seq<Leg>>, crate: string, pos: nat): seq<Chunk> {
    if pieces == [] then []
    else [Chunk(Total(pieces[0], LegWeight), crate, pos, pieces[0])] + Tag(pieces[1..], crate, pos + 1)
  }

  function ChunksOf(crates: seq<string>, legs: seq<Leg>, capacity: real): seq<Chunk> {
    if crates == [] then [] else
    var before := ChunksOf(crates[..|crates| - 1], legs, capacity);
    var crate := crates[|crates| - 1];
    before + Tag(Cut([], LegsOf(legs, crate), capacity), crate, |before|)
  }

  function LegsIn(cs: seq<Chunk>): seq<Leg> {
    if cs == [] then [] else cs[0].legs + LegsIn(cs[1..])
  }

  ghost predicate Faithful(c: Chunk, capacity: real) {
    && FitsOrAlone(c.legs, capacity)
    && c.weight == Total(c.legs, LegWeight)
    && forall l | l in c.legs :: l.crate == c.crate
  }

  ghost predicate AllFaithful(cs: seq<Chunk>, capacity: real) { forall c | c in cs :: Faithful(c, capacity) }

  lemma {:induction false} LegsInAppend(a: seq<Chunk>, b: seq<Chunk>)
    ensures LegsIn(a + b) == LegsIn(a) + LegsIn(b)
  {
    if a == [] {
      assert a + b == b;
    } else {
      assert (a + b)[1..] == a[1..] + b;
      LegsInAppend(a[1..], b);
    }
  }

  lemma {:induction false} LegsInPermutation(a: seq<Chunk>, b: seq<Chunk>)
    requires multiset(a) == multiset(b)
    ensures multiset(LegsIn(a)) == multiset(LegsIn(b))
  {
    if a == [] {
      assert |multiset(b)| == 0;
      assert b == [];
    } else {
      var k := MatchHead(a, b);
      LegsInPermutation(a[1..], b[..k] + b[k + 1..]);
      LegsInAppend(b[..k], [a[0]] + b[k + 1..]);
      LegsInAppend(b[..k], b[k + 1..]);
      assert ([a[0]] + b[k + 1..])[1..] == b[k + 1..];
    }
  }

  lemma {:induction false} LegsInWeight(cs: seq<Chunk>, capacity: real)
    requires AllFaithful(cs, capacity)
    ensures Total(LegsIn(cs), LegWeight) == Total(cs, ChunkWeight)
  {
    if cs != [] {
      assert cs[0] in cs;
      LegsInWeight(cs[1..], capacity);
      TotalAppend(cs[0].legs, LegsIn(cs[1..]), LegWeight);
    }
  }

  lemma {:induction false} TagIsFaithful(pieces: seq<seq<Leg>>, crate: string, pos: nat, capacity: real)
    requires forall i | 0 <= i < |pieces| :: FitsOrAlone(pieces[i], capacity)
    requires forall l | l in Flatten(pieces) :: l.crate == crate
    ensures AllFaithful(Tag(pieces, crate, pos), capacity)
    ensures LegsIn(Tag(pieces, crate, pos)) == Flatten(pieces)
  {
    if pieces != [] {
      TagIsFaithful(pieces[1..], crate, pos + 1, capacity);
    }
  }

  lemma {:induction false} LegsOfCount(legs: seq<Leg>, crate: string, l: Leg)
    ensures multiset(LegsOf(legs, crate))[l] == if l.crate == crate then multiset(legs)[l] else 0
  {
    if legs != [] {
      LegsOfCount(legs[1..], crate, l);
      assert legs == [legs[0]] + legs[1..];
    }
  }

  lemma LegsOfCrate(legs: seq<Leg>, crate: string)
    ensures forall l | l in LegsOf(legs, crate) :: l.crate == crate
  {
    forall l | l in LegsOf(legs, crate) ensures l.crate == crate {
      LegsOfCount(legs, crate, l);
      assert l in multiset(LegsOf(legs, crate));
    }
  }

  /** Over distinct crates, the chunks hold each leg of those crates exactly as often as the input. */
  lemma {:induction false} ChunksConserve(crates: seq<string>, legs: seq<Leg>, capacity: real)
    requires Distinct(crates)
    ensures AllFaithful(ChunksOf(crates, legs, capacity), capacity)
    ensures forall l :: multiset(LegsIn(ChunksOf(crates, legs, capacity)))[l]
                     == if l.crate in crates then multiset(legs)[l] else 0
  {
    if crates != [] {
      var init, crate := crates[..|crates| - 1], crates[|crates| - 1];
      assert crates == init + [crate];
      ChunksConserve(init, legs, capacity);
      var before := ChunksOf(init, legs, capacity);
      var pieces := Cut([], LegsOf(legs, crate), capacity);
      CutIsMaximal([], LegsOf(legs, crate), capacity);
      assert [] + LegsOf(legs, crate) == LegsOf(legs, crate);
      LegsOfCrate(legs, crate);
      TagIsFaithful(pieces, crate, |before|, capacity);
      LegsInAppend(before, Tag(pieces, crate, |before|));
      forall l ensures multiset(LegsIn(ChunksOf(crates, legs, capacity)))[l]
                    == if l.crate in crates then multiset(legs)[l] else 0
      {
        LegsOfCount(legs, crate, l);
      }
    }
  }

  lemma {:induction false} CratesOfDistinct(legs: seq<Leg>)
    ensures Distinct(CratesOf(legs))
    ensures forall l | l in legs :: l.crate in CratesOf(legs)
  {
    if legs != [] {
      var init := legs[..|legs| - 1];
      CratesOfDistinct(init);
      assert legs == init + [legs[|legs| - 1]];
    }
  }

  // ----- the groups --------------------------------------------------------------------

  function AllChunks(legs: seq<Leg>, capacity: real): seq<Chunk> { ChunksOf(CrateOrder(legs), legs, capacity) }

  function GroupBins(legs: seq<Leg>, capacity: real): seq<Bin> {
    Pack(Sort(AllChunks(legs, capacity), ChunkBefore), capacity)
  }

  function Digit(d: nat): char
    requires d < 10
  {
    '0' + d as char
  }

  function Digits(n: nat): string { if n < 10 then [Digit(n)] else Digits(n / 10) + [Digit(n % 10)] }

  /** A number in at least two digits. */
  function TwoDigits(n: nat): string { if n < 10 then "0" + Digits(n) else Digits(n) }

  function Label(n: nat, crate: string): string { "g" + (TwoDigits(n) + (" " + crate)) }

  /** The `n`th group, counting from 1; its weight is rounded to three decimals. */
  function ToGroup(b: Bin, n: nat): Group
    requires b.chunks != []
  {
    var dominant := b.chunks[0].crate;
    Group(Label(n, dominant), dominant, |LegsIn(b.chunks)|, LegsIn(b.chunks),
          RoundEven(b.weight * 1000.0) as real / 1000.0)
  }

  lemma AllChunksConserve(legs: seq<Leg>, capacity: real)
    ensures AllFaithful(AllChunks(legs, capacity), capacity)
    ensures multiset(LegsIn(AllChunks(legs, capacity))) == multiset(legs)
  {
    CratesOfDistinct(legs);
    CrateOrderIsHeaviestFirst(legs);
    ChunksConserve(CrateOrder(legs), legs, capacity);
    var held := LegsIn(AllChunks(legs, capacity));
    forall l ensures multiset(held)[l] == multiset(legs)[l] {
      if l in legs { SameMembers(CratesOf(legs), CrateOrder(legs), l.crate); }
    }
  }

  lemma {:induction false} LegsInContents(bins: seq<Bin>)
    ensures LegsIn(Flatten(Contents(bins)))
         == Flatten(seq(|bins|, i requires 0 <= i < |bins| => LegsIn(bins[i].chunks)))
  {
    var lists := seq(|bins|, i requires 0 <= i < |bins| => LegsIn(bins[i].chunks));
    if bins != [] {
      var tail := bins[1..];
      LegsInContents(tail);
      assert Contents(bins)[1..] == Contents(tail);
      assert lists[1..] == seq(|tail|, i requires 0 <= i < |tail| => LegsIn(tail[i].chunks));
      LegsInAppend(bins[0].chunks, Flatten(Contents(tail)));
    }
  }

  /** A positive faithful chunk: some leg, and every leg positive. */
  lemma FaithfulIsPositive(cs: seq<Chunk>, legs: seq<Leg>, capacity: real)
    requires AllFaithful(cs, capacity) && PositiveLegs(legs) && multiset(LegsIn(cs)) == multiset(legs)
    ensures forall c | c in cs :: c.weight > 0.0
  {
    forall c | c in cs ensures c.weight > 0.0 {
      forall l | l in c.legs ensures l.weight > 0.0 {
        LegsInHolds(cs, c, l);
        SameMembers(LegsIn(cs), legs, l);
      }
      TotalNonNegative(c.legs, LegWeight);
      assert c.legs[0] in c.legs;
    }
  }

  lemma {:induction false} LegsInHolds(cs: seq<Chunk>, c: Chunk, l: Leg)
    requires c in cs && l in c.legs
    ensures l in LegsIn(cs)
  {
    if c != cs[0] { LegsInHolds(cs[1..], c, l); }
  }

  /** Everything the packed bins satisfy. */
  lemma BinsAreSound(legs: seq<Leg>, capacity: real)
    requires PositiveLegs(legs)
    ensures var bins := GroupBins(legs, capacity); var cs := Flatten(Contents(bins));
            && Decreasing(bins, capacity)
            && multiset(cs) == multiset(AllChunks(legs, capacity))
            && AllFaithful(cs, capacity)
            && multiset(LegsIn(cs)) == multiset(legs)
  {
    var cs := AllChunks(legs, capacity);
    var ordered := Sort(cs, ChunkBefore);
    AllChunksConserve(legs, capacity);
    FaithfulIsPositive(cs, legs, capacity);
    ChunkBeforeIsTotalPreorder();
    SortSorts(cs, ChunkBefore);
    forall c | c in ordered ensures c.weight > 0.0 { SameMembers(ordered, cs, c); }
    PackIsDecreasing(ordered, capacity);
    var packed := Flatten(Contents(GroupBins(legs, capacity)));
    forall c | c in packed ensures Faithful(c, capacity) { SameMembers(packed, cs, c); }
    LegsInPermutation(packed, cs);
  }

  /** The groups of `legs`: one per packed bin. */
  ghost predicate AreGroups(groups: seq<Group>, legs: seq<Leg>, capacity: real) {
    && |groups| == |GroupBins(legs, capacity)|
    && forall i | 0 <= i < |groups| ::
         GroupBins(legs, capacity)[i].chunks != [] && groups[i] == ToGroup(GroupBins(legs, capacity)[i], i + 1)
  }

  /** Heaviest crate first, equal weights by name, no crate left out or repeated. */
  lemma CrateOrderIsHeaviestFirst(legs: seq<Leg>)
    ensures multiset(CrateOrder(legs)) == multiset(CratesOf(legs)) && Distinct(CrateOrder(legs))
    ensures SortedBy(CrateBefore(legs), CrateOrder(legs))
  {
    CrateBeforeIsTotalPreorder(legs);
    SortSorts(CratesOf(legs), CrateBefore(legs));
    CratesOfDistinct(legs);
    DistinctPermutation(CratesOf(legs), CrateOrder(legs));
  }

  // ----- the orders, over the legs -----------------------------------------------------

  function InCrate(crate: string): Leg -> bool { (l: Leg) => l.crate == crate }

  /** A crate's legs, in input order. */
  lemma {:induction false} LegsOfIs(legs: seq<Leg>, crate: string)
    ensures LegsOf(legs, crate) == Filter(legs, InCrate(crate))
  {
    if legs != [] { LegsOfIs(legs[1..], crate); }
  }

  /** `a` is an other name than `b` and comes before it: a prefix of it, or smaller where they first differ. */
  ghost predicate ComesBefore(a: string, b: string) { a != b && (a <= b || exists k: nat :: SmallerAt(a, b, k)) }

  function CrateWeight(legs: seq<Leg>, crate: string): real { Total(Filter(legs, InCrate(crate)), LegWeight) }

  /** Crates are taken by total weight, heaviest first, and by name where the weights are equal. */
  lemma CrateOrderIs(legs: seq<Leg>, i: nat, j: nat)
    requires i < j < |CrateOrder(legs)|
    ensures var a, b := CrateOrder(legs)[i], CrateOrder(legs)[j];
            || CrateWeight(legs, a) > CrateWeight(legs, b)
            || (CrateWeight(legs, a) == CrateWeight(legs, b) && ComesBefore(a, b))
  {
    var a, b := CrateOrder(legs)[i], CrateOrder(legs)[j];
    CrateOrderIsHeaviestFirst(legs);
    assert a != b && CrateBefore(legs)(a, b);
    hide CrateOrder;
    LegsOfIs(legs, a);
    LegsOfIs(legs, b);
    StringLeIff(a, b);
  }

  lemma {:induction false} TagPositions(pieces: seq<seq<Leg>>, crate: string, pos: nat)
    ensures |Tag(pieces, crate, pos)| == |pieces|
    ensures forall k | 0 <= k < |pieces| :: Tag(pieces, crate, pos)[k].pos == pos + k
  {
    if pieces != [] { TagPositions(pieces[1..], crate, pos + 1); }
  }

  /** A chunk's position is its place in the list. */
  lemma {:induction false} PositionsAre(crates: seq<string>, legs: seq<Leg>, capacity: real)
    ensures forall k | 0 <= k < |ChunksOf(crates, legs, capacity)| :: ChunksOf(crates, legs, capacity)[k].pos == k
  {
    if crates != [] {
      var init, crate := crates[..|crates| - 1], crates[|crates| - 1];
      PositionsAre(init, legs, capacity);
      TagPositions(Cut([], LegsOf(legs, crate), capacity), crate, |ChunksOf(init, legs, capacity)|);
    }
  }

  function LegsOfEach(crates: seq<string>, legs: seq<Leg>): seq<seq<Leg>> {
    seq(|crates|, k requires 0 <= k < |crates| => LegsOf(legs, crates[k]))
  }

  /** The chunks, end to end, are the crates' legs in the order of the crates. */
  lemma {:induction false} ChunksInOrder(crates: seq<string>, legs: seq<Leg>, capacity: real)
    ensures LegsIn(ChunksOf(crates, legs, capacity)) == Flatten(LegsOfEach(crates, legs))
  {
    if crates != [] {
      var init, crate := crates[..|crates| - 1], crates[|crates| - 1];
      ChunksInOrder(init, legs, capacity);
      var before, ls := ChunksOf(init, legs, capacity), LegsOf(legs, crate);
      var pieces := Cut([], ls, capacity);
      CutIsMaximal([], ls, capacity);
      assert [] + ls == ls;
      LegsOfCrate(legs, crate);
      TagIsFaithful(pieces, crate, |before|, capacity);
      LegsInAppend(before, Tag(pieces, crate, |before|));
      assert LegsOfEach(crates, legs) == LegsOfEach(init, legs) + [ls];
      FlattenAppend(LegsOfEach(init, legs), [ls]);
      assert Flatten([ls]) == ls + Flatten([ls][1..]) == ls;
    }
  }

  /** Chunks are packed by weight, heaviest first, by crate where the weights are equal, and in the order
      they were cut where the crates are. */
  lemma ChunkOrderIs(legs: seq<Leg>, capacity: real, i: nat, j: nat)
    requires i < j < |Sort(AllChunks(legs, capacity), ChunkBefore)|
    ensures var s := Sort(AllChunks(legs, capacity), ChunkBefore);
            || s[i].weight > s[j].weight
            || (s[i].weight == s[j].weight && ComesBefore(s[i].crate, s[j].crate))
            || (s[i].weight == s[j].weight && s[i].crate == s[j].crate && s[i].pos < s[j].pos)
  {
    var cs := AllChunks(legs, capacity);
    var s := Sort(cs, ChunkBefore);
    PositionsAre(CrateOrder(legs), legs, capacity);
    assert forall k | 0 <= k < |cs| :: cs[k].pos == k;
    hide AllChunks, Sort, ComesBefore;
    ChunkBeforeIsTotalPreorder();
    SortSorts(cs, ChunkBefore);
    DistinctPermutation(cs, s);
    SameMembers(s, cs, s[i]);
    SameMembers(s, cs, s[j]);
    assert s[i] != s[j] && s[i].pos != s[j].pos;
    assert ChunkBefore(s[i], s[j]);
    ComesBeforeIff(s[i].crate, s[j].crate);
  }

  lemma ComesBeforeIff(a: string, b: string)
    ensures StringLe(a, b) <==> a == b || ComesBefore(a, b)
  {
    StringLeIff(a, b);
  }

  method CutInOrder(order: seq<string>, legs: seq<Leg>, byCrate: map<string, seq<Leg>>, capacity: real)
      returns (chunks: seq<Chunk>)
    requires forall c | c in order :: c in byCrate && byCrate[c] == LegsOf(legs, c)
    ensures chunks == ChunksOf(order, legs, capacity)
  {
    chunks := [];
    for k := 0 to |order|
      invariant chunks == ChunksOf(order[..k], legs, capacity)
    {
      assert order[..k + 1][..k] == order[..k] && order[k] in order;
      var pieces := CutCrate(byCrate[order[k]], capacity);
      chunks := chunks + Tag(pieces, order[k], |chunks|);
    }
    assert order[..|order|] == order;
  }

  method CutAll(legs: seq<Leg>, capacity: real) returns (chunks: seq<Chunk>)
    ensures chunks == AllChunks(legs, capacity)
  {
    var names, byCrate := Cluster(legs);
    var order := CrateOrder(legs);
    CrateOrderIsHeaviestFirst(legs);
    forall c | c in order ensures c in byCrate && byCrate[c] == LegsOf(legs, c) {
      SameMembers(order, names, c);
      assert Lookup(byCrate, c) == LegsOf(legs, c);
    }
    chunks := CutInOrder(order, legs, byCrate, capacity);
  }

  method EmitGroups(bins: seq<Bin>) returns (groups: seq<Group>)
    requires forall i | 0 <= i < |bins| :: bins[i].chunks != []
    ensures |groups| == |bins| && forall i | 0 <= i < |groups| :: groups[i] == ToGroup(bins[i], i + 1)
  {
    groups := [];
    for k := 0 to |bins|
      invariant |groups| == k
      invariant forall i | 0 <= i < k :: groups[i] == ToGroup(bins[i], i + 1)
    {
      groups := groups + [ToGroup(bins[k], k + 1)];
    }
  }

  lemma BinsHoldChunks(legs: seq<Leg>, capacity: real)
    requires PositiveLegs(legs)
    ensures forall i | 0 <= i < |GroupBins(legs, capacity)| :: GroupBins(legs, capacity)[i].chunks != []
  {
    BinsAreSound(legs, capacity);
  }

  method GroupLegs(legs: seq<Leg>, capacity: real) returns (groups: seq<Group>)
    requires PositiveLegs(legs)
    ensures AreGroups(groups, legs, capacity)
  {
    hide ToGroup, Pack, Sort, AllChunks, Insert;
    var chunks := CutAll(legs, capacity);
    var bins := FirstFit(Sort(chunks, ChunkBefore), capacity);
    BinsHoldChunks(legs, capacity);
    assert bins == GroupBins(legs, capacity);
    groups := EmitGroups(bins);
  }

  ghost function LegLists(groups: seq<Group>): seq<seq<Leg>> {
    seq(|groups|, i requires 0 <= i < |groups| => groups[i].legs)
  }

  /** No leg is dropped, duplicated or split. */
  lemma GroupsConserveLegs(legs: seq<Leg>, capacity: real, groups: seq<Group>)
    requires PositiveLegs(legs) && AreGroups(groups, legs, capacity)
    ensures multiset(Flatten(LegLists(groups))) == multiset(legs)
    ensures forall g | g in groups :: g.count == |g.legs|
  {
    hide Pack, Sort, Insert, AllChunks, Decreasing, AllFaithful, Flatten;
    var bins := GroupBins(legs, capacity);
    BinsAreSound(legs, capacity);
    LegsInContents(bins);
    assert LegLists(groups) == seq(|bins|, i requires 0 <= i < |bins| => LegsIn(bins[i].chunks));
  }

  lemma GroupWeight(legs: seq<Leg>, capacity: real, i: nat)
    requires PositiveLegs(legs) && i < |GroupBins(legs, capacity)|
    ensures var b := GroupBins(legs, capacity)[i];
            AllFaithful(b.chunks, capacity) && Total(LegsIn(b.chunks), LegWeight) == b.weight
  {
    var bins := GroupBins(legs, capacity);
    BinsAreSound(legs, capacity);
    FlattenLonger(Contents(bins), i);
    LegsInWeight(bins[i].chunks, capacity);
  }

  /** A group stays within the capacity or is one leg that alone exceeds it; and any two groups
      together exceed it. */
  lemma GroupsFitAndFill(legs: seq<Leg>, capacity: real, groups: seq<Group>)
    requires PositiveLegs(legs) && AreGroups(groups, legs, capacity)
    ensures forall i | 0 <= i < |groups| ::
              Total(groups[i].legs, LegWeight) <= capacity || |groups[i].legs| == 1
    ensures forall i, j | 0 <= i < j < |groups| ::
              Total(groups[i].legs, LegWeight) + Total(groups[j].legs, LegWeight) > capacity
  {
    var bins := GroupBins(legs, capacity);
    BinsAreSound(legs, capacity);
    forall i | 0 <= i < |groups|
      ensures Total(groups[i].legs, LegWeight) <= capacity || |groups[i].legs| == 1
    {
      GroupWeight(legs, capacity, i);
      if bins[i].weight > capacity { OverweightIsOneLeg(legs, capacity, i); }
    }
    forall i, j | 0 <= i < j < |groups|
      ensures Total(groups[i].legs, LegWeight) + Total(groups[j].legs, LegWeight) > capacity
    {
      GroupWeight(legs, capacity, i);
      GroupWeight(legs, capacity, j);
      AnyTwoOverflow(bins, capacity, i, j);
    }
  }

  lemma {:induction false} ListsTotal(bins: seq<Bin>, w: Leg -> real, b: Bin -> real)
    requires forall i | 0 <= i < |bins| :: Total(LegsIn(bins[i].chunks), w) == b(bins[i])
    ensures Total(LegsIn(Flatten(Contents(bins))), w) == Total(bins, b)
  {
    if bins != [] {
      ListsTotal(bins[1..], w, b);
      assert Contents(bins)[1..] == Contents(bins[1..]);
      LegsInAppend(bins[0].chunks, Flatten(Contents(bins[1..])));
      TotalAppend(LegsIn(bins[0].chunks), LegsIn(Flatten(Contents(bins[1..]))), w);
    }
  }

  lemma BinsTotalTheLegs(legs: seq<Leg>, capacity: real, w: Leg -> real, b: Bin -> real)
    requires PositiveLegs(legs)
    requires forall i | 0 <= i < |GroupBins(legs, capacity)| ::
               Total(LegsIn(GroupBins(legs, capacity)[i].chunks), w) == b(GroupBins(legs, capacity)[i])
    ensures Total(GroupBins(legs, capacity), b) == Total(legs, w)
  {
    hide GroupBins;
    var bins := GroupBins(legs, capacity);
    BinsAreSound(legs, capacity);
    ListsTotal(bins, w, b);
    TotalPermutation(LegsIn(Flatten(Contents(bins))), legs, w);
  }

  lemma FewGroupsTimes(legs: seq<Leg>, capacity: real)
    requires PositiveLegs(legs) && |GroupBins(legs, capacity)| >= 2
    ensures Times(|GroupBins(legs, capacity)|, capacity) < 2.0 * Total(legs, LegWeight)
  {
    hide GroupBins;
    var bins := GroupBins(legs, capacity);
    BinsAreSound(legs, capacity);
    forall i, j | 0 <= i < j < |bins| ensures BinWeight(bins[i]) + BinWeight(bins[j]) > capacity {
      AnyTwoOverflow(bins, capacity, i, j);
    }
    MoreThanHalfFull(bins, BinWeight, capacity);
    forall i | 0 <= i < |bins| ensures Total(LegsIn(bins[i].chunks), LegWeight) == BinWeight(bins[i]) {
      GroupWeight(legs, capacity, i);
    }
    BinsTotalTheLegs(legs, capacity, LegWeight, BinWeight);
  }

  /** With two groups or more, the groups are on average over half full: their number times the
      capacity is under twice the legs' total weight. */
  lemma FewGroups(legs: seq<Leg>, capacity: real)
    requires PositiveLegs(legs) && |GroupBins(legs, capacity)| >= 2
    ensures |GroupBins(legs, capacity)| as real * capacity < 2.0 * Total(legs, LegWeight)
  {
    hide GroupBins, Total, Times;
    FewGroupsTimes(legs, capacity);
    TimesIsProduct(|GroupBins(legs, capacity)|, capacity);
  }

  lemma {:induction false} TimesDouble(n: nat, x: real)
    ensures Times(2 * n, x) == 2.0 * Times(n, x)
  {
    if n > 0 { TimesDouble(n - 1, x); }
  }

  /** Weights clipped at the capacity: those of the legs in a group, and of the group. */
  lemma ClippedGroup(legs: seq<Leg>, capacity: real, i: nat)
    requires PositiveLegs(legs) && i < |GroupBins(legs, capacity)|
    ensures var b := GroupBins(legs, capacity)[i];
            Total(LegsIn(b.chunks), Clip(LegWeight, capacity)) == Clip(BinWeight, capacity)(b)
  {
    var b := GroupBins(legs, capacity)[i];
    var ls := LegsIn(b.chunks);
    GroupWeight(legs, capacity, i);
    LegsArePositive(legs, capacity, i);
    TotalNonNegative(ls, LegWeight);
    assert BinWeight(b) == Total(ls, LegWeight);
    if b.weight <= capacity {
      ClipIsSame(ls, LegWeight, capacity);
    } else {
      OverweightIsOneLeg(legs, capacity, i);
      TotalSingle(ls[0], LegWeight);
      TotalSingle(ls[0], Clip(LegWeight, capacity));
    }
  }

  lemma OverweightIsOneLeg(legs: seq<Leg>, capacity: real, i: nat)
    requires PositiveLegs(legs) && i < |GroupBins(legs, capacity)| && GroupBins(legs, capacity)[i].weight > capacity
    ensures var ls := LegsIn(GroupBins(legs, capacity)[i].chunks); |ls| == 1 && ls == [ls[0]]
  {
    var bins := GroupBins(legs, capacity);
    BinsAreSound(legs, capacity);
    GroupWeight(legs, capacity, i);
    var c := bins[i].chunks[0];
    assert bins[i].chunks == [c] && c in bins[i].chunks;
    TotalSingle(c, ChunkWeight);
    assert LegsIn([c]) == c.legs + LegsIn([c][1..]) == c.legs;
  }

  lemma LegsArePositive(legs: seq<Leg>, capacity: real, i: nat)
    requires PositiveLegs(legs) && i < |GroupBins(legs, capacity)|
    ensures PositiveLegs(LegsIn(GroupBins(legs, capacity)[i].chunks))
  {
    var bins := GroupBins(legs, capacity);
    BinsAreSound(legs, capacity);
    LegsInContents(bins);
    var lists := seq(|bins|, k requires 0 <= k < |bins| => LegsIn(bins[k].chunks));
    FlattenLonger(lists, i);
    forall l | l in LegsIn(bins[i].chunks) ensures l.weight > 0.0 {
      assert l in lists[i];
      SameMembers(LegsIn(Flatten(Contents(bins))), legs, l);
    }
  }

  lemma FewClippedGroups(legs: seq<Leg>, capacity: real)
    requires PositiveLegs(legs) && |GroupBins(legs, capacity)| >= 2 && capacity > 0.0
    ensures Times(|GroupBins(legs, capacity)|, capacity) < 2.0 * Total(legs, Clip(LegWeight, capacity))
  {
    hide GroupBins;
    var bins, clip := GroupBins(legs, capacity), Clip(BinWeight, capacity);
    BinsAreSound(legs, capacity);
    forall i, j | 0 <= i < j < |bins| ensures clip(bins[i]) + clip(bins[j]) > capacity {
      ClippedTwoOverflow(bins, capacity, i, j);
    }
    MoreThanHalfFull(bins, clip, capacity);
    forall i | 0 <= i < |bins| ensures Total(LegsIn(bins[i].chunks), Clip(LegWeight, capacity)) == clip(bins[i]) {
      ClippedGroup(legs, capacity, i);
    }
    BinsTotalTheLegs(legs, capacity, Clip(LegWeight, capacity), clip);
  }

  lemma ClippedTwoOverflow(bins: seq<Bin>, capacity: real, i: nat, j: nat)
    requires Decreasing(bins, capacity) && i < j < |bins| && capacity > 0.0
    ensures var clip := Clip(BinWeight, capacity); clip(bins[i]) + clip(bins[j]) > capacity
  {
    AnyTwoOverflow(bins, capacity, i, j);
    forall b | b == bins[i] || b == bins[j] ensures b.weight > 0.0 {
      assert b.chunks[0] in b.chunks;
      TotalNonNegative(b.chunks, ChunkWeight);
    }
    assert BinWeight(bins[i]) == bins[i].weight && BinWeight(bins[j]) == bins[j].weight;
  }

  function One(l: Leg): real { 1.0 }

  lemma {:induction false} CountLegs(ls: seq<Leg>)
    ensures Total(ls, One) == |ls| as real
  {
    if ls != [] { CountLegs(ls[1..]); }
  }

  /** No more groups than legs; and with no capacity at all every leg needs a bin of its own. */
  lemma GroupsAtMostLegs(legs: seq<Leg>, capacity: real)
    requires PositiveLegs(legs)
    ensures |GroupBins(legs, capacity)| <= |legs|
  {
    hide GroupBins;
    var bins := GroupBins(legs, capacity);
    BinsAreSound(legs, capacity);
    forall i | 0 <= i < |bins| ensures LegsIn(bins[i].chunks) != [] {
      GroupWeight(legs, capacity, i);
      assert bins[i].chunks[0] in bins[i].chunks;
    }
    ManyLegs(bins);
    assert |LegsIn(Flatten(Contents(bins)))| == |multiset(legs)|;
  }

  lemma {:induction false} ManyLegs(bins: seq<Bin>)
    requires forall i | 0 <= i < |bins| :: LegsIn(bins[i].chunks) != []
    ensures |LegsIn(Flatten(Contents(bins)))| >= |bins|
  {
    if bins != [] {
      ManyLegs(bins[1..]);
      assert Contents(bins)[1..] == Contents(bins[1..]);
      LegsInAppend(bins[0].chunks, Flatten(Contents(bins[1..])));
    }
  }

  lemma LegsNeedBins(legs: seq<Leg>, capacity: real, p: seq<seq<Leg>>)
    requires PositiveLegs(legs) && IsPacking(p, legs, LegWeight, capacity) && capacity <= 0.0
    ensures |legs| <= |p|
  {
    forall i | 0 <= i < |p| ensures Total(p[i], One) <= 1.0 {
      CountLegs(p[i]);
      forall l | l in p[i] ensures l.weight > 0.0 {
        FlattenLonger(p, i);
        SameMembers(Flatten(p), legs, l);
      }
      TotalNonNegative(p[i], LegWeight);
      if p[i] != [] { assert p[i][0] in p[i]; }
    }
    TotalPermutation(Flatten(p), legs, One);
    TotalFlattenAtMost(p, One, 1.0);
    TimesOne(|p|);
    CountLegs(legs);
  }

  /** Keeping crates together costs less than a factor of two: ANY packing of the individual legs,
      free to mix crates, uses more than half as many groups. */
  lemma UnderTwiceAnyLegPacking(legs: seq<Leg>, capacity: real, p: seq<seq<Leg>>)
    requires PositiveLegs(legs) && legs != []
    requires IsPacking(p, legs, LegWeight, capacity)
    ensures |GroupBins(legs, capacity)| < 2 * |p|
  {
    hide GroupBins;
    var bins := GroupBins(legs, capacity);
    SameMembers(legs, Flatten(p), legs[0]);
    if capacity <= 0.0 {
      GroupsAtMostLegs(legs, capacity);
      LegsNeedBins(legs, capacity, p);
    } else if |bins| >= 2 {
      FewClippedGroups(legs, capacity);
      PackingTotal(p, legs, LegWeight, capacity);
      TimesDouble(|p|, capacity);
      FewerByWeight(|bins|, 2 * |p|, capacity, 2.0 * Total(legs, Clip(LegWeight, capacity)));
    }
  }

  /** Against ANY packing of the same chunks, at most 3/2 as many groups. */
  lemma ThreeHalvesOfAnyChunkPacking(legs: seq<Leg>, capacity: real, p: seq<seq<Chunk>>)
    requires PositiveLegs(legs)
    requires IsPacking(p, AllChunks(legs, capacity), ChunkWeight, capacity)
    ensures 2 * |GroupBins(legs, capacity)| <= 3 * |p|
  {
    BinsAreSound(legs, capacity);
    ThreeHalves(GroupBins(legs, capacity), p, capacity);
  }

  function Value(s: string): int {
    if s == "" then 0 else 10 * Value(s[..|s| - 1]) + (s[|s| - 1] as int - '0' as int)
  }

  lemma {:induction false} DigitsValue(n: nat)
    ensures Value(Digits(n)) == n && ' ' !in Digits(n)
  {
    if n < 10 {
      assert [Digit(n)][..0] == "";
    } else {
      DigitsValue(n / 10);
      assert Digits(n)[..|Digits(n)| - 1] == Digits(n / 10);
    }
  }

  lemma TwoDigitsValue(n: nat)
    ensures Value(TwoDigits(n)) == n && ' ' !in TwoDigits(n)
  {
    DigitsValue(n);
    if n < 10 {
      var s := TwoDigits(n);
      assert s == ['0', Digit(n)] && s[..1] == "0" && s[..1][..0] == "";
    }
  }

  /** Group labels are distinct: number and crate can be read off. */
  lemma LabelsAreDistinct(m: nat, n: nat, c: string, d: string)
    ensures Label(m, c) == Label(n, d) <==> m == n && c == d
  {
    TwoDigitsValue(m);
    TwoDigitsValue(n);
    var a, b := TwoDigits(m), TwoDigits(n);
    assert Label(m, c)[1..] == a + (" " + c) && Label(n, d)[1..] == b + (" " + d);
    SpaceSplits(a, b, c, d);
  }

  /** The crate that keys a group's cache owns the group's heaviest chunk. */
  lemma CacheCrateIsDominant(legs: seq<Leg>, capacity: real, groups: seq<Group>, i: nat)
    requires PositiveLegs(legs) && AreGroups(groups, legs, capacity) && i < |groups|
    ensures var cs := GroupBins(legs, capacity)[i].chunks;
            exists d | d in cs :: d.crate == groups[i].cacheCrate && forall c | c in cs :: c.weight <= d.weight
  {
    BinsAreSound(legs, capacity);
    var cs := GroupBins(legs, capacity)[i].chunks;
    assert cs[0] in cs;
  }

  // ----- a group's fields --------------------------------------------------------------

  function ChunkLegs(c: Chunk): seq<Leg> { c.legs }

  lemma {:induction false} LegsInIs(cs: seq<Chunk>)
    ensures LegsIn(cs) == Flatten(Image(cs, ChunkLegs))
  {
    if cs != [] {
      LegsInIs(cs[1..]);
      assert Image(cs, ChunkLegs)[1..] == Image(cs[1..], ChunkLegs);
    }
  }

  /** A number's decimal digits, padded to two. */
  lemma TwoDigitsIs(n: nat)
    ensures var d := TwoDigits(n);
            Value(d) == n && |d| >= 2 && (|d| > 2 ==> d[0] != '0') && forall k | 0 <= k < |d| :: '0' <= d[k] <= '9'
  {
    TwoDigitsValue(n);
    DigitsLead(n);
  }

  lemma {:induction false} DigitsLead(n: nat)
    ensures var d := Digits(n);
            && d != "" && (n >= 10 ==> |d| >= 2) && (n > 0 ==> d[0] != '0')
            && forall k | 0 <= k < |d| :: '0' <= d[k] <= '9'
  {
    if n >= 10 { DigitsLead(n / 10); }
  }

  /** A group holds its chunks' legs in order, is cached under the crate of its first leg, counts its legs,
      and is labelled with its number and that crate; its weight is theirs to within half a thousandth. */
  lemma GroupIs(legs: seq<Leg>, capacity: real, groups: seq<Group>, i: nat)
    requires PositiveLegs(legs) && AreGroups(groups, legs, capacity) && i < |groups|
    ensures var g := groups[i];
            && g.legs == Flatten(Image(GroupBins(legs, capacity)[i].chunks, ChunkLegs)) && g.count == |g.legs|
            && g.legs != [] && g.cacheCrate == g.legs[0].crate
            && g.group == "g" + (TwoDigits(i + 1) + (" " + g.cacheCrate))
            && Total(g.legs, LegWeight) - 0.0005 <= g.weight <= Total(g.legs, LegWeight) + 0.0005
  {
    var bins, g := GroupBins(legs, capacity), groups[i];
    BinsHoldChunks(legs, capacity);
    GroupWeight(legs, capacity, i);
    var cs := bins[i].chunks;
    LegsInIs(cs);
    hide GroupBins, Flatten, TwoDigits;
    assert cs[0] in cs;
    assert Faithful(cs[0], capacity);
    assert LegsIn(cs)[0] == cs[0].legs[0] && cs[0].legs[0] in cs[0].legs;
    RoundEvenIs(bins[i].weight * 1000.0, RoundEven(bins[i].weight * 1000.0));
  }
}
