/** Counts for which a code with longer words than the finished table takes fewer bits: among equal
    weights the merging loop does not look for the deepest tree. */
module HuffmanTie {
  import opened HuffmanCost
  import opened HuffmanForest
  import opened HuffmanMerge
  import opened HuffmanDepth
  import opened HuffmanDeep
  import opened HuffmanTable
  import opened HuffmanTables
  import opened HuffmanLeast

  // ----- Counts of four symbols and the reserved one

  /** The symbols 0 to 3 and the reserved symbol; n is the number of the latter. */
  function Five(n: nat, a: nat, b: nat, c: nat, d: nat, e: nat): (f: seq<nat>)
    requires n > 3
    ensures |f| == n + 1
  {
    seq(n + 1, i requires 0 <= i <= n => if i == 0 then a else if i == 1 then b else if i == 2 then c else if i == 3 then d else if i == n then e else 0)
  }

  lemma FiveSum(n: nat, a: nat, b: nat, c: nat, d: nat, e: nat)
    requires n > 3
    ensures Sum(Five(n, a, b, c, d, e)) == a + b + c + d + e
  {
    hide Sum;
    var z: seq<nat> := seq(n + 1, _ => 0);
    SumZero(z);
    SumUpdate(z, 0, a);
    SumUpdate(z[0 := a], 1, b);
    SumUpdate(z[0 := a][1 := b], 2, c);
    SumUpdate(z[0 := a][1 := b][2 := c], 3, d);
    SumUpdate(z[0 := a][1 := b][2 := c][3 := d], n, e);
    assert z[0 := a][1 := b][2 := c][3 := d][n := e] == Five(n, a, b, c, d, e);
  }

  /** The forest after m joins: its weights, who owns the five symbols, and their depths. */
  ghost predicate Stands(F: Forest, n: nat, m: nat, w: seq<nat>, owner: seq<int>, size: seq<nat>)
    requires n > 3 && |w| == n + 1
  {
    && Grown(F, Five(n, 1, 1, 2, 3, 1), m) && Shaped(F, n + 1) && F.weight == w && |owner| == |size| == 5
    && F.owner[0] == owner[0] && F.owner[1] == owner[1] && F.owner[2] == owner[2] && F.owner[3] == owner[3] && F.owner[n] == owner[4]
    && F.size[0] == size[0] && F.size[1] == size[1] && F.size[2] == size[2] && F.size[3] == size[3] && F.size[n] == size[4]
  }

  function BumpedFive(owner: seq<int>, size: seq<nat>, c1: int, c2: int): (r: seq<nat>)
    requires |owner| == |size| == 5
    ensures |r| == 5
  {
    seq(5, k requires 0 <= k < 5 => if owner[k] == c1 || owner[k] == c2 then size[k] + 1 else size[k])
  }

  /** The two lightest are joined. */
  lemma Joins(F: Forest, n: nat, m: nat, w: seq<nat>, owner: seq<int>, size: seq<nat>, c1: nat, c2: nat)
    requires n > 3 && |w| == n + 1 && Stands(F, n, m, w, owner, size) && |owner| == |size| == 5
    requires c1 <= n && c2 <= n && First(w) == c1 && Second(w) == c2
    ensures TwoLeft(F) && Stands(JoinLightest(F), n, m + 1, Merge(w, c1, c2), Reowned(owner, c1, c2), BumpedFive(owner, size, c1, c2))
  {
    hide *;
    FiveSum(n, 1, 1, 2, 3, 1);
    Eight();
    StandsIs(F, n, m, w, owner, size);
    MayJoin(F, Five(n, 1, 1, 2, 3, 1), m, c1, c2);
    BothLeft(F);
    JoinGrown(F, Five(n, 1, 1, 2, 3, 1), m, c1, c2);
    JoinedFive(F, n, m, w, owner, size, c1, c2);
  }

  lemma Eight()
    ensures 8 <= SENTINEL
  {
  }

  lemma StandsIs(F: Forest, n: nat, m: nat, w: seq<nat>, owner: seq<int>, size: seq<nat>)
    requires n > 3 && |w| == n + 1 && Stands(F, n, m, w, owner, size)
    ensures Grown(F, Five(n, 1, 1, 2, 3, 1), m) && F.weight == w && |Five(n, 1, 1, 2, 3, 1)| == n + 1
  {
    hide Grown, Five;
  }

  lemma JoinedFive(F: Forest, n: nat, m: nat, w: seq<nat>, owner: seq<int>, size: seq<nat>, c1: nat, c2: nat)
    requires n > 3 && |w| == n + 1 && Stands(F, n, m, w, owner, size) && |owner| == |size| == 5 && c1 <= n && c2 <= n
    requires F.chain[c1] != [] && F.chain[c1][|F.chain[c1]| - 1] < |F.next| && Grown(Join(F, c1, c2), Five(n, 1, 1, 2, 3, 1), m + 1)
    ensures Stands(Join(F, c1, c2), n, m + 1, Merge(w, c1, c2), Reowned(owner, c1, c2), BumpedFive(owner, size, c1, c2))
  {
    hide Grown, Five, Merge;
  }

  lemma Begins(n: nat)
    requires n > 3
    ensures Stands(Seedlings(Five(n, 1, 1, 2, 3, 1)), n, 0, Five(n, 1, 1, 2, 3, 1), [0, 1, 2, 3, n], [0, 0, 0, 0, 0])
  {
    SeedlingsGrown(Five(n, 1, 1, 2, 3, 1));
    hide Grown;
  }

  // ----- The four joins

  lemma FirstJoin(n: nat)
    requires n > 3
    ensures var w := Five(n, 1, 1, 2, 3, 1);
      First(w) == n && Second(w) == 1 && Merge(w, n, 1) == Five(n, 1, 0, 2, 3, 2)
  {
    hide First, Second;
    PairTaken(Five(n, 1, 1, 2, 3, 1), n, 1);
    assert Merge(Five(n, 1, 1, 2, 3, 1), n, 1) == Five(n, 1, 0, 2, 3, 2);
  }

  lemma SecondJoin(n: nat)
    requires n > 3
    ensures var w := Five(n, 1, 0, 2, 3, 2);
      First(w) == 0 && Second(w) == n && Merge(w, 0, n) == Five(n, 3, 0, 2, 3, 0)
  {
    hide First, Second;
    PairTaken(Five(n, 1, 0, 2, 3, 2), 0, n);
    assert Merge(Five(n, 1, 0, 2, 3, 2), 0, n) == Five(n, 3, 0, 2, 3, 0);
  }

  lemma ThirdJoin(n: nat)
    requires n > 3
    ensures var w := Five(n, 3, 0, 2, 3, 0);
      First(w) == 2 && Second(w) == 3 && Merge(w, 2, 3) == Five(n, 3, 0, 5, 0, 0)
  {
    hide First, Second;
    PairTaken(Five(n, 3, 0, 2, 3, 0), 2, 3);
    assert Merge(Five(n, 3, 0, 2, 3, 0), 2, 3) == Five(n, 3, 0, 5, 0, 0);
  }

  lemma FourthJoin(n: nat)
    requires n > 3
    ensures var w := Five(n, 3, 0, 5, 0, 0);
      First(w) == 0 && Second(w) == 2 && Merge(w, 0, 2) == Five(n, 8, 0, 0, 0, 0)
  {
    hide First, Second;
    PairTaken(Five(n, 3, 0, 5, 0, 0), 0, 2);
    assert Merge(Five(n, 3, 0, 5, 0, 0), 0, 2) == Five(n, 8, 0, 0, 0, 0);
  }

  lemma OneTree(F: Forest, n: nat, owner: seq<int>, size: seq<nat>)
    requires n > 3 && Stands(F, n, 4, Five(n, 8, 0, 0, 0, 0), owner, size)
    ensures !TwoLeft(F) && Used(Five(n, 1, 1, 2, 3, 1)) == 5
  {
    hide ChainOk, TreeOk, OwnersOk, SumsOk, Sum;
    var w := F.weight;
    assert Ones(w) == Five(n, 1, 0, 0, 0, 0);
    FiveSum(n, 1, 0, 0, 0, 0);
    assert First(w) >= 0 ==> First(w) == 0;
    assert Second(w) >= 0 ==> Second(w) == 0;
  }

  /** The depths that merging comes to. */
  lemma FiveSizes(n: nat)
    requires n > 3
    ensures var f := Five(n, 1, 1, 2, 3, 1); |MergedSizes(f)| == n + 1 && Used(f) == 5 && Sum(f) == 8
    ensures MergedSizes(Five(n, 1, 1, 2, 3, 1)) == Five(n, 2, 3, 2, 2, 3)
  {
    hide *;
    var f := Five(n, 1, 1, 2, 3, 1);
    var F0 := Seedlings(f);
    Begins(n);
    FirstJoin(n);
    Joins(F0, n, 0, f, [0, 1, 2, 3, n], [0, 0, 0, 0, 0], n, 1);
    var F1 := JoinLightest(F0);
    AfterFirst(n);
    SecondJoin(n);
    Joins(F1, n, 1, Five(n, 1, 0, 2, 3, 2), [0, n, 2, 3, n], [0, 1, 0, 0, 1], 0, n);
    var F2 := JoinLightest(F1);
    AfterSecond(n);
    ThirdJoin(n);
    Joins(F2, n, 2, Five(n, 3, 0, 2, 3, 0), [0, 0, 2, 3, 0], [1, 2, 0, 0, 2], 2, 3);
    var F3 := JoinLightest(F2);
    AfterThird();
    FourthJoin(n);
    Joins(F3, n, 3, Five(n, 3, 0, 5, 0, 0), [0, 0, 2, 2, 0], [1, 2, 1, 1, 2], 0, 2);
    var F4 := JoinLightest(F3);
    AfterFourth();
    OneTree(F4, n, [0, 0, 0, 0, 0], [2, 3, 2, 2, 3]);
    NextJoin(F0, 5);
    NextJoin(F1, 4);
    NextJoin(F2, 3);
    NextJoin(F3, 2);
    NextJoin(F4, 1);
    MergedSizesAre(f);
    FiveSum(n, 1, 1, 2, 3, 1);
    SizesAre(F4, n, [0, 0, 0, 0, 0], [2, 3, 2, 2, 3]);
  }

  lemma AfterFirst(n: nat)
    requires n > 3
    ensures Reowned([0, 1, 2, 3, n], n, 1) == [0, n, 2, 3, n] && BumpedFive([0, 1, 2, 3, n], [0, 0, 0, 0, 0], n, 1) == [0, 1, 0, 0, 1]
  {
  }

  lemma AfterSecond(n: nat)
    requires n > 3
    ensures Reowned([0, n, 2, 3, n], 0, n) == [0, 0, 2, 3, 0] && BumpedFive([0, n, 2, 3, n], [0, 1, 0, 0, 1], 0, n) == [1, 2, 0, 0, 2]
  {
  }

  lemma AfterThird()
    ensures Reowned([0, 0, 2, 3, 0], 2, 3) == [0, 0, 2, 2, 0] && BumpedFive([0, 0, 2, 3, 0], [1, 2, 0, 0, 2], 2, 3) == [1, 2, 1, 1, 2]
  {
  }

  lemma AfterFourth()
    ensures Reowned([0, 0, 2, 2, 0], 0, 2) == [0, 0, 0, 0, 0] && BumpedFive([0, 0, 2, 2, 0], [1, 2, 1, 1, 2], 0, 2) == [2, 3, 2, 2, 3]
  {
  }

  lemma SizesAre(F: Forest, n: nat, owner: seq<int>, size: seq<nat>)
    requires n > 3 && Stands(F, n, 4, Five(n, 8, 0, 0, 0, 0), owner, size) && |size| == 5
    ensures F.size == Five(n, size[0], size[1], size[2], size[3], size[4])
  {
    hide ChainOk, TreeOk, SumsOk, TotalsOk;
    var f := Five(n, 1, 1, 2, 3, 1);
    assert forall k :: 3 < k < n ==> f[k] == 0;
  }

  // ----- What the table costs

  /** A prefix code for the four symbols, without a word of ones only. */
  function Staircase(): (w: seq<Word>)
    ensures |w| == 256
  {
    seq(256, i requires 0 <= i < 256 =>
      if i == 0 then [true, true, true, false] else if i == 1 then [true, true, false] else if i == 2 then [true, false] else [false])
  }

  lemma StaircaseApart(i: nat, j: nat)
    requires i <= 3 && j <= 3 && i != j
    ensures !(Staircase()[i] <= Staircase()[j])
  {
    var v, w := Staircase()[i], Staircase()[j];
    assert |v| == 4 - i && |w| == 4 - j && !v[3 - i] && (i > j ==> w[3 - i]);
  }

  lemma StaircaseIsCode(f: seq<nat>)
    requires f == Five(PSEUDO_SYMBOL, 1, 1, 2, 3, 1)
    ensures OtherCode(f, Staircase(), 4) && |f[..PSEUDO_SYMBOL]| == |Lengths(Staircase())|
    ensures Cost(f[..PSEUDO_SYMBOL], Lengths(Staircase())) == 14
  {
    var g := f[..PSEUDO_SYMBOL];
    Numbers();
    hide *;
    StaircaseFits(f, PSEUDO_SYMBOL);
    StaircaseCost(f, PSEUDO_SYMBOL);
  }

  lemma StaircaseFits(f: seq<nat>, n: nat)
    requires n == PSEUDO_SYMBOL == 256 && f == Five(n, 1, 1, 2, 3, 1)
    ensures OtherCode(f, Staircase(), 4)
  {
    var w, g := Staircase(), f[..n];
    forall i, j | 0 <= i < |g| && 0 <= j < |g| && i != j && g[i] > 0 && g[j] > 0 ensures !(w[i] <= w[j]) {
      StaircaseApart(i, j);
    }
    forall v | 0 <= v < n && f[v] > 0 ensures |w[v]| <= 4 && !AllOnes(w[v]) {
      assert !w[v][|w[v]| - 1];
    }
  }

  lemma StaircaseCost(f: seq<nat>, n: nat)
    requires n == 256 && f == Five(n, 1, 1, 2, 3, 1)
    ensures |f[..n]| == |Lengths(Staircase())| && Cost(f[..n], Lengths(Staircase())) == 14
  {
    hide Sum;
    var costs := Costs(f[..n], Lengths(Staircase()));
    assert costs + [0] == Five(n, 4, 3, 4, 3, 0);
    FiveSum(n, 4, 3, 4, 3, 0);
    LastOfSum(costs, 0);
  }

  lemma FiveGood(f: seq<nat>)
    requires f == Five(PSEUDO_SYMBOL, 1, 1, 2, 3, 1)
    ensures GoodCounts(f) && SizesShort(f) && |f| == PSEUDO_SYMBOL + 1 && |MergedSizes(f)| == |f|
    ensures Cost(f, MergedSizes(f)) == 18 && forall v :: 0 <= v <= PSEUDO_SYMBOL ==> MergedSizes(f)[v] <= 3
  {
    hide *;
    var n := PSEUDO_SYMBOL;
    Numbers();
    FiveSizes(n);
    FiveUsed(f, n);
    FiveCost(n);
    FiveShort(f, n);
  }

  lemma Numbers()
    ensures PSEUDO_SYMBOL == 256 && NUM_SYMBOLS == 257 && 8 <= SENTINEL
  {
  }

  lemma FiveUsed(f: seq<nat>, n: nat)
    requires n == PSEUDO_SYMBOL == 256 && NUM_SYMBOLS == 257 && f == Five(n, 1, 1, 2, 3, 1)
    requires Used(f) == 5 && Sum(f) == 8 <= SENTINEL
    ensures GoodCounts(f)
  {
    hide Sum, Used;
    assert f[0] > 0;
  }

  lemma FiveShort(f: seq<nat>, n: nat)
    requires n > 3 && MergedSizes(f) == Five(n, 2, 3, 2, 2, 3)
    ensures SizesShort(f) && forall v :: 0 <= v < |MergedSizes(f)| ==> MergedSizes(f)[v] <= 3
  {
    hide MergedSizes;
  }

  lemma FiveCost(n: nat)
    requires n > 3
    ensures Cost(Five(n, 1, 1, 2, 3, 1), Five(n, 2, 3, 2, 2, 3)) == 18
  {
    hide Sum;
    assert Costs(Five(n, 1, 1, 2, 3, 1), Five(n, 2, 3, 2, 2, 3)) == Five(n, 2, 3, 4, 6, 3);
    FiveSum(n, 2, 3, 4, 6, 3);
  }

  /** Counts 1, 1, 2 and 3: the table takes at least 15 bits, a code with a word of four bits 14. */
  lemma LongerWordsLess(f: seq<nat>, p: Pair, isDC: bool)
    requires f == Five(PSEUDO_SYMBOL, 1, 1, 2, 3, 1) && PairFor(f, p, isDC)
    ensures GoodCounts(f) && SizesShort(f) && OtherCode(f, Staircase(), 4)
    ensures |p.c.ehufsi| == |f[..PSEUDO_SYMBOL]| == |Lengths(Staircase())|
    ensures Cost(f[..PSEUDO_SYMBOL], p.c.ehufsi) >= 15 && Cost(f[..PSEUDO_SYMBOL], Lengths(Staircase())) == 14
  {
    hide *;
    FiveGood(f);
    StaircaseIsCode(f);
    CostExact(f, p, isDC);
    LongestSize(f, p, isDC, 3);
  }

  lemma LongestSize(f: seq<nat>, p: Pair, isDC: bool, m: nat)
    requires GoodCounts(f) && PairFor(f, p, isDC) && SizesShort(f) && forall v :: 0 <= v < |MergedSizes(f)| ==> MergedSizes(f)[v] <= m
    ensures Longest(p.c.ehufsi) <= m
  {
    hide *;
    var longest := TableFacts(f, p, isDC);
    EntriesAre(p);
    forall v: nat | v < PSEUDO_SYMBOL ensures p.c.ehufsi[v] <= m {
      EnteredSize(f, MergedSizes(f), p.x.t, p.c, longest, v);
    }
    LongestBelow(p.c.ehufsi, m);
  }

  lemma LongestBelow(l: seq<nat>, m: nat)
    requires forall i :: 0 <= i < |l| ==> l[i] <= m
    ensures Longest(l) <= m
  {
    if l != [] {
      var i :| 0 <= i < |l| && l[i] == Longest(l);
    }
  }
}
