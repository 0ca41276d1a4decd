/** First-fit-decreasing packing of chunks (scripts/assemble-feature-matrix.py), and how
    many bins it can open compared with any other packing. */
module Packing {
  import opened Sums
  import opened Sorting

  datatype Leg = Leg(name: string, crate: string, features: string, test: bool, tier: string, weight: real)

  /** A run of legs of one crate; `pos` is its place in the chunk list. */
  datatype Chunk = Chunk(weight: real, crate: string, pos: nat, legs: seq<Leg>)

  datatype Bin = Bin(weight: real, chunks: seq<Chunk>)

  function ChunkWeight(c: Chunk): real { c.weight }

  /** Heavier first, then crate name, then position. */
  predicate ChunkBefore(a: Chunk, b: Chunk) {
    || a.weight > b.weight
    || (a.weight == b.weight
        && StringLe(a.crate, b.crate) && (a.crate == b.crate ==> a.pos <= b.pos))
  }

  lemma ChunkBeforeIsTotalPreorder()
    ensures TotalPreorder(ChunkBefore)
  {
    forall x, y ensures ChunkBefore(x, y) || ChunkBefore(y, x) { StringLeTotal(x.crate, y.crate); }
    forall x, y, z | ChunkBefore(x, y) && ChunkBefore(y, z) ensures ChunkBefore(x, z) {
      if x.weight == z.weight {
        StringLeTransitive(x.crate, y.crate, z.crate);
        if x.crate == z.crate { StringLeAntisymmetric(x.crate, y.crate); }
      }
    }
  }

  // ----- the algorithm as a function ---------------------------------------------------

  function AddTo(b: Bin, c: Chunk): Bin { Bin(b.weight + c.weight, b.chunks + [c]) }

  /** Adds `c` to the first bin with room for it, or to a new last bin. */
  function Place(bins: seq<Bin>, c: Chunk, capacity: real): seq<Bin> {
    if bins == [] then [Bin(c.weight, [c])]
    else if bins[0].weight + c.weight <= capacity then [AddTo(bins[0], c)] + bins[1..]
    else [bins[0]] + Place(bins[1..], c, capacity)
  }

  function Pack(cs: seq<Chunk>, capacity: real): seq<Bin> {
    if cs == [] then [] else Place(Pack(cs[..|cs| - 1], capacity), cs[|cs| - 1], capacity)
  }

  function Contents(bins: seq<Bin>): (r: seq<seq<Chunk>>)
    ensures |r| == |bins|
    ensures forall i | 0 <= i < |r| :: r[i] == bins[i].chunks
  {
    seq(|bins|, i requires 0 <= i < |bins| => bins[i].chunks)
  }

  /** The search for a bin with room: the inner loop of the script. */
  method PlaceChunk(bins: seq<Bin>, c: Chunk, capacity: real) returns (after: seq<Bin>)
    ensures after == Place(bins, c, capacity)
  {
    for i := 0 to |bins|
      invariant Place(bins, c, capacity) == bins[..i] + Place(bins[i..], c, capacity)
    {
      if bins[i].weight + c.weight <= capacity {
        after := bins[i := AddTo(bins[i], c)];
        assert after == bins[..i] + ([AddTo(bins[i], c)] + bins[i..][1..]);
        return;
      }
      assert bins[i..][1..] == bins[i + 1..];
      assert bins[..i] + ([bins[i]] + Place(bins[i + 1..], c, capacity))
          == bins[..i + 1] + Place(bins[i + 1..], c, capacity);
    }
    after := bins + [Bin(c.weight, [c])];
  }

  /** The outer loop, over a list of bins updated chunk by chunk. */
  method FirstFit(ordered: seq<Chunk>, capacity: real) returns (bins: seq<Bin>)
    ensures bins == Pack(ordered, capacity)
  {
    bins := [];
    for n := 0 to |ordered|
      invariant bins == Pack(ordered[..n], capacity)
    {
      assert ordered[..n + 1][..n] == ordered[..n];
      bins := PlaceChunk(bins, ordered[n], capacity);
    }
    assert ordered[..|ordered|] == ordered;
  }

  // ----- what first-fit-decreasing establishes -----------------------------------------

  /** Each bin's recorded weight is that of its chunks; it is over capacity only with one chunk. */
  ghost predicate Accounted(bins: seq<Bin>, capacity: real) {
    forall i | 0 <= i < |bins| ::
      && bins[i].chunks != []
      && bins[i].weight == Total(bins[i].chunks, ChunkWeight)
      && (bins[i].weight <= capacity || |bins[i].chunks| == 1)
  }

  ghost predicate PositiveBins(bins: seq<Bin>) {
    forall i, c | 0 <= i < |bins| && c in bins[i].chunks :: c.weight > 0.0
  }

  /** A bin's first chunk is at least as heavy as every chunk in it and in later bins. */
  ghost predicate LedByHeaviest(bins: seq<Bin>) {
    forall i, j, c | 0 <= i <= j < |bins| && c in bins[j].chunks ::
      bins[i].chunks != [] && bins[i].chunks[0].weight >= c.weight
  }

  /** No chunk would have fitted in an earlier bin. */
  ghost predicate FirstFitted(bins: seq<Bin>, capacity: real) {
    forall i, j, c | 0 <= i < j < |bins| && c in bins[j].chunks :: bins[i].weight + c.weight > capacity
  }

  /** What a first-fit-decreasing run keeps after every chunk. */
  ghost predicate Decreasing(bins: seq<Bin>, capacity: real) {
    Accounted(bins, capacity) && PositiveBins(bins) && LedByHeaviest(bins) && FirstFitted(bins, capacity)
  }

  lemma {:induction false} PlaceAt(bins: seq<Bin>, c: Chunk, capacity: real) returns (k: nat)
    ensures k <= |bins|
    ensures forall i | 0 <= i < k :: bins[i].weight + c.weight > capacity
    ensures k == |bins| ==> Place(bins, c, capacity) == bins + [Bin(c.weight, [c])]
    ensures k < |bins| ==> bins[k].weight + c.weight <= capacity
                           && Place(bins, c, capacity) == bins[k := AddTo(bins[k], c)]
  {
    if bins == [] || bins[0].weight + c.weight <= capacity {
      k := 0;
    } else {
      k := PlaceAt(bins[1..], c, capacity);
      k := k + 1;
    }
  }

  lemma PlaceConserves(bins: seq<Bin>, c: Chunk, capacity: real)
    ensures multiset(Flatten(Contents(Place(bins, c, capacity)))) == multiset(Flatten(Contents(bins))) + multiset{c}
  {
    var k := PlaceAt(bins, c, capacity);
    var after := Place(bins, c, capacity);
    if k == |bins| {
      assert Contents(after) == Contents(bins) + [[c]];
      FlattenAppend(Contents(bins), [[c]]);
      assert Flatten([[c]]) == [c];
    } else {
      assert Contents(after) == Contents(bins)[k := Contents(bins)[k] + [c]];
      FlattenUpdate(Contents(bins), k, c);
    }
  }

  lemma PlaceKeepsAccounts(bins: seq<Bin>, c: Chunk, capacity: real)
    requires Accounted(bins, capacity) && PositiveBins(bins) && c.weight > 0.0
    ensures Accounted(Place(bins, c, capacity), capacity) && PositiveBins(Place(bins, c, capacity))
  {
    var k := PlaceAt(bins, c, capacity);
    if k < |bins| { TotalAppend(bins[k].chunks, [c], ChunkWeight); }
  }

  lemma PlaceKeepsFit(bins: seq<Bin>, c: Chunk, capacity: real)
    requires FirstFitted(bins, capacity) && c.weight > 0.0
    ensures FirstFitted(Place(bins, c, capacity), capacity)
  {
    var k := PlaceAt(bins, c, capacity);
  }

  lemma PlaceKeepsLeaders(bins: seq<Bin>, c: Chunk, capacity: real)
    requires LedByHeaviest(bins)
    requires forall i | 0 <= i < |bins| :: bins[i].chunks != []
    requires forall i, d | 0 <= i < |bins| && d in bins[i].chunks :: d.weight >= c.weight
    ensures LedByHeaviest(Place(bins, c, capacity))
  {
    var k := PlaceAt(bins, c, capacity);
    var after := Place(bins, c, capacity);
    forall i, j, d | 0 <= i <= j < |after| && d in after[j].chunks
      ensures after[i].chunks != [] && after[i].chunks[0].weight >= d.weight
    {
      if i < |bins| {
        assert after[i].chunks[0] == bins[i].chunks[0] && bins[i].chunks[0] in bins[i].chunks;
        assert d != c ==> d in bins[j].chunks;
      }
    }
  }

  lemma LastIsLightest(init: seq<Chunk>, bins: seq<Bin>, c: Chunk, i: nat, d: Chunk)
    requires SortedBy(ChunkBefore, init + [c])
    requires multiset(Flatten(Contents(bins))) == multiset(init)
    requires i < |bins| && d in bins[i].chunks
    ensures d.weight >= c.weight
  {
    FlattenLonger(Contents(bins), i);
    SameMembers(Flatten(Contents(bins)), init, d);
    var k :| 0 <= k < |init| && init[k] == d;
    assert (init + [c])[k] == d && (init + [c])[|init|] == c;
  }

  lemma {:induction false} PackIsDecreasing(cs: seq<Chunk>, capacity: real)
    requires SortedBy(ChunkBefore, cs)
    requires forall c | c in cs :: c.weight > 0.0
    ensures Decreasing(Pack(cs, capacity), capacity)
    ensures multiset(Flatten(Contents(Pack(cs, capacity)))) == multiset(cs)
  {
    if cs != [] {
      var init, c := cs[..|cs| - 1], cs[|cs| - 1];
      PackIsDecreasing(init, capacity);
      var bins := Pack(init, capacity);
      assert cs == init + [c];
      forall i, d | 0 <= i < |bins| && d in bins[i].chunks ensures d.weight >= c.weight {
        LastIsLightest(init, bins, c, i, d);
      }
      PlaceConserves(bins, c, capacity);
      PlaceKeepsAccounts(bins, c, capacity);
      PlaceKeepsFit(bins, c, capacity);
      PlaceKeepsLeaders(bins, c, capacity);
    }
  }

  // ----- the number of bins ------------------------------------------------------------

  /** `p` packs exactly the items `xs`, each bin within the capacity or one item alone: an item heavier
      than the capacity has to go somewhere. */
  ghost predicate IsPacking<T>(p: seq<seq<T>>, xs: seq<T>, w: T -> real, capacity: real) {
    && multiset(Flatten(p)) == multiset(xs)
    && forall i | 0 <= i < |p| :: Total(p[i], w) <= capacity || |p[i]| == 1
  }

  /** Weight up to the capacity. */
  function Clip<T>(w: T -> real, capacity: real): T -> real { (x: T) => if w(x) <= capacity then w(x) else capacity }

  lemma {:induction false} ClipIsLess<T>(s: seq<T>, w: T -> real, capacity: real)
    ensures Total(s, Clip(w, capacity)) <= Total(s, w)
  {
    if s != [] { ClipIsLess(s[1..], w, capacity); }
  }

  /** Where no single item is over the capacity, clipping changes nothing. */
  lemma {:induction false} ClipIsSame<T>(s: seq<T>, w: T -> real, capacity: real)
    requires forall x | x in s :: w(x) <= capacity
    ensures Total(s, Clip(w, capacity)) == Total(s, w)
  {
    if s != [] { ClipIsSame(s[1..], w, capacity); }
  }

  lemma PackingTotal<T>(p: seq<seq<T>>, xs: seq<T>, w: T -> real, capacity: real)
    requires IsPacking(p, xs, w, capacity)
    ensures Total(xs, Clip(w, capacity)) <= Times(|p|, capacity)
  {
    var clip := Clip(w, capacity);
    forall i | 0 <= i < |p| ensures Total(p[i], clip) <= capacity {
      ClipIsLess(p[i], w, capacity);
      if |p[i]| == 1 {
        assert p[i] == [p[i][0]];
        TotalSingle(p[i][0], clip);
      }
    }
    TotalPermutation(Flatten(p), xs, clip);
    TotalFlattenAtMost(p, clip, capacity);
  }

  /** 1 for a chunk heavier than half the capacity, else 0. */
  function Heavy(capacity: real): Chunk -> real {
    (c: Chunk) => if 2.0 * c.weight > capacity then 1.0 else 0.0
  }

  lemma {:induction false} AtMostOneHeavy(s: seq<Chunk>, capacity: real)
    requires forall c | c in s :: c.weight > 0.0
    ensures var n := Total(s, Heavy(capacity)); var w := Total(s, ChunkWeight);
            (n == 0.0 || (n >= 1.0 && 2.0 * w > capacity)) && (n <= 1.0 || w > capacity) && w >= 0.0
  {
    if s != [] { AtMostOneHeavy(s[1..], capacity); }
  }

  lemma PackedBinHoldsOneHeavy(p: seq<seq<Chunk>>, xs: seq<Chunk>, capacity: real, i: nat)
    requires IsPacking(p, xs, ChunkWeight, capacity) && i < |p|
    requires forall c | c in xs :: c.weight > 0.0
    ensures Total(p[i], Heavy(capacity)) <= 1.0
  {
    if |p[i]| == 1 {
      assert p[i] == [p[i][0]];
      TotalSingle(p[i][0], Heavy(capacity));
    } else {
      forall c | c in p[i] ensures c.weight > 0.0 {
        FlattenLonger(p, i);
        SameMembers(Flatten(p), xs, c);
      }
      AtMostOneHeavy(p[i], capacity);
    }
  }

  /** Every packing needs a bin for each heavy chunk. */
  lemma HeavyChunksNeedBins(p: seq<seq<Chunk>>, xs: seq<Chunk>, capacity: real)
    requires IsPacking(p, xs, ChunkWeight, capacity)
    requires forall c | c in xs :: c.weight > 0.0
    ensures Total(xs, Heavy(capacity)) <= |p| as real
  {
    forall i | 0 <= i < |p| ensures Total(p[i], Heavy(capacity)) <= 1.0 {
      PackedBinHoldsOneHeavy(p, xs, capacity, i);
    }
    TotalPermutation(Flatten(p), xs, Heavy(capacity));
    TotalFlattenAtMost(p, Heavy(capacity), 1.0);
    TimesOne(|p|);
  }

  lemma {:induction false} HeavyLeaders(bins: seq<Bin>, capacity: real, j: nat)
    requires j <= |bins|
    requires forall i | 0 <= i < |bins| :: bins[i].chunks != []
    requires forall i | 0 <= i < j :: 2.0 * bins[i].chunks[0].weight > capacity
    ensures Total(Flatten(Contents(bins)), Heavy(capacity)) >= j as real
  {
    var all := Contents(bins);
    if j == 0 {
      TotalNonNegative(Flatten(all), Heavy(capacity));
    } else {
      HeavyLeaders(bins[1..], capacity, j - 1);
      assert all[1..] == Contents(bins[1..]);
      TotalAppend(all[0], Flatten(all[1..]), Heavy(capacity));
      TotalNonNegative(all[0], Heavy(capacity));
      assert all[0][0] in all[0];
    }
  }

  function BinWeight(b: Bin): real { b.weight }

  lemma {:induction false} ContentsWeight(bins: seq<Bin>, w: Chunk -> real, b: Bin -> real)
    requires forall i | 0 <= i < |bins| :: b(bins[i]) == Total(bins[i].chunks, w)
    ensures Total(Flatten(Contents(bins)), w) == Total(bins, b)
  {
    if bins != [] {
      ContentsWeight(bins[1..], w, b);
      assert Contents(bins)[1..] == Contents(bins[1..]);
      TotalAppend(Contents(bins)[0], Flatten(Contents(bins)[1..]), w);
    }
  }

  /** A bin within the capacity weighs what it weighs; one over it holds one chunk and weighs the capacity. */
  lemma ClippedBin(bins: seq<Bin>, capacity: real, i: nat)
    requires Accounted(bins, capacity) && PositiveBins(bins) && i < |bins|
    ensures Clip(BinWeight, capacity)(bins[i]) == Total(bins[i].chunks, Clip(ChunkWeight, capacity))
  {
    var cs := bins[i].chunks;
    assert BinWeight(bins[i]) == bins[i].weight;
    assert forall c | c in cs :: ChunkWeight(c) > 0.0;
    TotalNonNegative(cs, ChunkWeight);
    if bins[i].weight <= capacity {
      ClipIsSame(cs, ChunkWeight, capacity);
    } else {
      assert cs == [cs[0]];
      TotalSingle(cs[0], ChunkWeight);
      TotalSingle(cs[0], Clip(ChunkWeight, capacity));
      assert ChunkWeight(cs[0]) == BinWeight(bins[i]) > capacity;
    }
  }

  /** Bins `front` that cannot take any of `extras`, paired off one to one. */
  lemma {:induction false} PairedWeight(front: seq<Bin>, extras: seq<Chunk>, capacity: real)
    requires 0 < |front| <= |extras|
    requires forall c | c in extras :: c.weight > 0.0
    requires forall b, c | b in front && c in extras :: b.weight + c.weight > capacity
    ensures Total(front, Clip(BinWeight, capacity)) + Total(extras, ChunkWeight) > Times(|front|, capacity)
  {
    var clip := Clip(BinWeight, capacity);
    assert front[0].weight + extras[0].weight > capacity && extras[0] in extras;
    assert clip(front[0]) + extras[0].weight > capacity by { assert BinWeight(front[0]) == front[0].weight; }
    if |front| == 1 {
      assert front == [front[0]];
      TotalSingle(front[0], clip);
      TotalNonNegative(extras[1..], ChunkWeight);
    } else {
      PairedWeight(front[1..], extras[1..], capacity);
    }
  }

  lemma SuffixDecreasing(bins: seq<Bin>, capacity: real, m: nat)
    requires Decreasing(bins, capacity) && m <= |bins|
    ensures Decreasing(bins[m..], capacity)
  {
    var t := bins[m..];
    assert forall i | 0 <= i < |t| :: t[i] == bins[m + i];
  }

  lemma LightBinHoldsPair(bins: seq<Bin>, capacity: real)
    requires Decreasing(bins, capacity)
    requires |bins| > 1 && bins[0].chunks != [] && 2.0 * bins[0].chunks[0].weight <= capacity
    ensures |bins[0].chunks| >= 2
    ensures bins[1].chunks != [] && 2.0 * bins[1].chunks[0].weight <= capacity
  {
    var c := bins[1].chunks[0];
    assert c in bins[1].chunks && bins[0].chunks[0].weight >= c.weight;
    if |bins[0].chunks| == 1 {
      assert bins[0].chunks == [bins[0].chunks[0]];
      TotalSingle(bins[0].chunks[0], ChunkWeight);
      assert false;
    }
  }

  /** From a bin led by a light chunk on, every bin but the last holds two chunks or more. */
  lemma {:induction false} LightBinsHoldPairs(bins: seq<Bin>, capacity: real)
    requires Decreasing(bins, capacity)
    requires bins != [] && bins[0].chunks != [] && 2.0 * bins[0].chunks[0].weight <= capacity
    ensures |Flatten(Contents(bins))| >= 2 * |bins| - 1
  {
    assert Contents(bins)[1..] == Contents(bins[1..]);
    if |bins| > 1 {
      LightBinHoldsPair(bins, capacity);
      SuffixDecreasing(bins, capacity, 1);
      LightBinsHoldPairs(bins[1..], capacity);
    }
  }

  lemma NoneFitsInFront(bins: seq<Bin>, capacity: real, m: nat, c: Chunk)
    requires Decreasing(bins, capacity) && m < |bins| && bins[m].chunks != [] && c in Flatten(Contents(bins[m..]))
    ensures 0.0 < c.weight <= bins[m].chunks[0].weight
    ensures forall b | b in bins[..m] :: b.weight + c.weight > capacity
  {
    var k := InFlatten(Contents(bins[m..]), c);
    assert bins[m..][k] == bins[m + k];
    forall b | b in bins[..m] ensures b.weight + c.weight > capacity {
      var i :| 0 <= i < m && bins[i] == b;
    }
  }

  lemma SplitWeight(bins: seq<Bin>, capacity: real, m: nat)
    requires Accounted(bins, capacity) && PositiveBins(bins) && m <= |bins|
    ensures var clip := Clip(ChunkWeight, capacity);
            Total(Flatten(Contents(bins)), clip)
            == Total(bins[..m], Clip(BinWeight, capacity)) + Total(Flatten(Contents(bins[m..])), clip)
  {
    var clip := Clip(ChunkWeight, capacity);
    assert Contents(bins) == Contents(bins[..m]) + Contents(bins[m..]);
    FlattenAppend(Contents(bins[..m]), Contents(bins[m..]));
    TotalAppend(Flatten(Contents(bins[..m])), Flatten(Contents(bins[m..])), clip);
    forall i | 0 <= i < m ensures Clip(BinWeight, capacity)(bins[..m][i]) == Total(bins[..m][i].chunks, clip) {
      ClippedBin(bins, capacity, i);
    }
    ContentsWeight(bins[..m], clip, Clip(BinWeight, capacity));
  }

  /** The case of a light bin `m` in the ratio proof: each of the `m` bins before it is paired with
      a chunk that did not fit there. */
  lemma LightTailOutweighs(bins: seq<Bin>, capacity: real, m: nat)
    requires Decreasing(bins, capacity)
    requires m < |bins| && m <= 2 * (|bins| - m) - 1
    requires bins[m].chunks != [] && 2.0 * bins[m].chunks[0].weight <= capacity
    ensures Total(Flatten(Contents(bins)), Clip(ChunkWeight, capacity)) > Times(m, capacity)
    ensures capacity > 0.0
  {
    var front, extras := bins[..m], Flatten(Contents(bins[m..]));
    SuffixDecreasing(bins, capacity, m);
    LightBinsHoldPairs(bins[m..], capacity);
    forall c | c in extras
      ensures 0.0 < c.weight <= capacity && forall b | b in front :: b.weight + c.weight > capacity
    {
      NoneFitsInFront(bins, capacity, m, c);
    }
    SplitWeight(bins, capacity, m);
    ClipIsSame(extras, ChunkWeight, capacity);
    assert extras[0] in extras;
    if m > 0 {
      PairedWeight(front, extras, capacity);
    } else {
      TotalNonNegative(extras, ChunkWeight);
      assert front == [];
    }
  }

  lemma FewerByWeight(a: nat, b: nat, capacity: real, total: real)
    requires Times(a, capacity) < total <= Times(b, capacity) && capacity >= 0.0
    ensures a < b
  {
    if b <= a { TimesMonotone(b, a, capacity); }
  }

  /** First-fit-decreasing opens at most 3/2 as many bins as ANY packing of the same chunks, overweight
      chunks standing alone in both. */
  lemma ThreeHalves(bins: seq<Bin>, p: seq<seq<Chunk>>, capacity: real)
    requires Decreasing(bins, capacity)
    requires IsPacking(p, Flatten(Contents(bins)), ChunkWeight, capacity)
    ensures 2 * |bins| <= 3 * |p|
  {
    if bins != [] {
      var xs := Flatten(Contents(bins));
      var j := (2 * |bins| + 2) / 3;
      assert bins[j - 1].chunks[0] in bins[j - 1].chunks;
      if 2.0 * bins[j - 1].chunks[0].weight > capacity {
        forall c | c in xs ensures c.weight > 0.0 {
          var k := InFlatten(Contents(bins), c);
        }
        HeavyLeaders(bins, capacity, j);
        HeavyChunksNeedBins(p, xs, capacity);
      } else {
        LightTailOutweighs(bins, capacity, j - 1);
        PackingTotal(p, xs, ChunkWeight, capacity);
        FewerByWeight(j - 1, |p|, capacity, Total(xs, Clip(ChunkWeight, capacity)));
      }
    }
  }

  // ----- how full the bins are ---------------------------------------------------------

  lemma AnyTwoOverflow(bins: seq<Bin>, capacity: real, i: nat, j: nat)
    requires Decreasing(bins, capacity) && i < j < |bins|
    ensures bins[i].weight + bins[j].weight > capacity
  {
    var c := bins[j].chunks[0];
    assert c in bins[j].chunks;
    TotalNonNegative(bins[j].chunks, ChunkWeight);
  }

  lemma {:induction false} MoreThanHalfFull(bins: seq<Bin>, w: Bin -> real, capacity: real)
    requires |bins| >= 2
    requires forall i, j | 0 <= i < j < |bins| :: w(bins[i]) + w(bins[j]) > capacity
    ensures 2.0 * Total(bins, w) > Times(|bins|, capacity)
  {
    assert w(bins[0]) + w(bins[1]) > capacity;
    var rest := bins[2..];
    assert bins[1..][1..] == rest && Total(bins, w) == w(bins[0]) + w(bins[1]) + Total(rest, w);
    if |bins| == 3 {
      assert w(bins[1]) + w(bins[2]) > capacity && w(bins[0]) + w(bins[2]) > capacity;
      assert rest == [bins[2]];
      TotalSingle(bins[2], w);
    } else if |bins| > 3 {
      MoreThanHalfFull(rest, w, capacity);
    } else {
      assert rest == [];
    }
    assert Times(|bins|, capacity) == capacity + (capacity + Times(|rest|, capacity));
  }
}
