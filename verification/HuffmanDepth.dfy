/** How long codes can become before they are limited: the sizes that merging comes to, and a
    bound on them by Fibonacci numbers. */
module HuffmanDepth {
  import opened HuffmanCost
  import opened HuffmanForest

  // ----- The merging loop on values

  /** Two roots are left, and the first one's chain can be extended. */
  ghost predicate TwoLeft(F: Forest) {
    && |F.weight| == |F.size| == |F.next| == |F.owner| == |F.chain| == |F.tree|
    && First(F.weight) >= 0 && Second(F.weight) >= 0
    && var chain := F.chain[First(F.weight)]; chain != [] && chain[|chain| - 1] < |F.next|
  }

  /** The two lightest trees joined. */
  ghost function JoinLightest(F: Forest): Forest
    requires TwoLeft(F)
  {
    Join(F, First(F.weight), Second(F.weight))
  }

  /** The forest after n joins, or fewer if only one tree is left before. */
  ghost function AfterJoins(F: Forest, n: nat): Forest
    decreases n
  {
    if n == 0 || !TwoLeft(F) then F else AfterJoins(JoinLightest(F), n - 1)
  }

  /** The code sizes that merging comes to. */
  ghost function MergedSizes(f: seq<nat>): seq<nat> {
    AfterJoins(Seedlings(f), Used(f)).size
  }

  lemma NextJoin(F: Forest, n: nat)
    ensures TwoLeft(F) && n > 0 ==> AfterJoins(F, n) == AfterJoins(JoinLightest(F), n - 1)
    ensures !TwoLeft(F) ==> AfterJoins(F, n) == F
  {
    hide TwoLeft, JoinLightest;
  }

  lemma MayJoin(F: Forest, f0: seq<nat>, m: nat, c1: int, c2: int)
    requires Grown(F, f0, m) && Sum(f0) <= SENTINEL && c1 == First(F.weight) && c2 == Second(F.weight) && c2 >= 0
    ensures Joinable(F, f0, m, c1, c2) && TwoLeft(F) && JoinLightest(F) == Join(F, c1, c2)
  {
    hide First, Second, TreeOk, SumsOk, Sum, Used, MergeCost, Cost, OwnersOk, Linked, OwnedBy, Distinct;
    FoundLightest(F.weight);
    assert ChainOk(F, |f0|, c1) && ChainOk(F, |f0|, c2);
    LastLinked(F, |f0|, c1);
  }

  lemma LastLinked(F: Forest, n: nat, r: nat)
    requires Shaped(F, n) && r < n && ChainOk(F, n, r) && F.weight[r] > 0
    ensures F.chain[r] != [] && F.chain[r][|F.chain[r]| - 1] < |F.next|
  {
    hide Distinct, OwnedBy;
  }

  // ----- Deep trees are heavy

  function Fib(n: nat): nat {
    if n < 2 then n else Fib(n - 1) + Fib(n - 2)
  }

  lemma {:induction false} FibGrows(m: nat, n: nat)
    requires 0 < m <= n
    ensures Fib(m) <= Fib(n)
    decreases n
  {
    if m < n {
      FibGrows(m, n - 1);
    }
  }

  /** The tree of symbol k is heavy enough for its depth, and so was the heavier of the last two
      trees joined, which no tree is lighter than. */
  ghost predicate HeavyAt(F: Forest, k: nat, light: nat)
    requires k < |F.owner| == |F.size|
  {
    var r := F.owner[k];
    0 <= r < |F.weight| && F.weight[r] >= Fib(F.size[k] + 2) && (F.size[k] > 0 ==> light >= Fib(F.size[k] + 1))
  }

  ghost predicate Heavy(F: Forest, f0: seq<nat>, light: nat) {
    && Shaped(F, |f0|) && (forall r :: 0 <= r < |f0| && F.weight[r] > 0 ==> F.weight[r] >= light)
    && forall k :: 0 <= k < |f0| && f0[k] > 0 ==> HeavyAt(F, k, light)
  }

  lemma SeedlingsHeavy(f0: seq<nat>)
    ensures Heavy(Seedlings(f0), f0, 0)
  {
    assert Fib(2) == 1;
  }

  /** What is known of the two trees to be joined. */
  ghost predicate NextPair(F: Forest, f0: seq<nat>, c1: int, c2: int) {
    && Shaped(F, |f0|) && 0 <= c1 < |f0| && 0 <= c2 < |f0| && c1 != c2 && 0 < F.weight[c1] <= F.weight[c2]
    && forall r :: 0 <= r < |f0| && r != c1 && F.weight[r] > 0 ==> F.weight[c2] <= F.weight[r]
  }

  lemma LightestPair(F: Forest, f0: seq<nat>, m: nat)
    requires Grown(F, f0, m) && Sum(f0) <= SENTINEL && Second(F.weight) >= 0
    ensures NextPair(F, f0, First(F.weight), Second(F.weight))
  {
    hide First, Second, TreeOk, SumsOk, Sum, Used, MergeCost, Cost, OwnersOk, ChainOk;
    FoundLightest(F.weight);
  }

  lemma HeavyJoinAt(F: Forest, f0: seq<nat>, c1: nat, c2: nat, light: nat, k: nat)
    requires NextPair(F, f0, c1, c2) && Heavy(F, f0, light) && k < |f0| && f0[k] > 0
    requires F.chain[c1] != [] && F.chain[c1][|F.chain[c1]| - 1] < |F.next|
    ensures HeavyAt(Join(F, c1, c2), k, F.weight[c2])
  {
    assert HeavyAt(F, k, light);
    var s := F.size[k];
    assert Fib(s + 3) == Fib(s + 2) + Fib(s + 1) && Fib(1) == 1;
    hide Fib;
  }

  /** Joining the two lightest trees keeps all trees heavy. */
  lemma HeavyJoin(F: Forest, f0: seq<nat>, c1: nat, c2: nat, light: nat)
    requires NextPair(F, f0, c1, c2) && Heavy(F, f0, light)
    requires F.chain[c1] != [] && F.chain[c1][|F.chain[c1]| - 1] < |F.next|
    ensures Heavy(Join(F, c1, c2), f0, F.weight[c2])
  {
    hide HeavyAt;
    forall k | 0 <= k < |f0| && f0[k] > 0 ensures HeavyAt(Join(F, c1, c2), k, F.weight[c2]) {
      HeavyJoinAt(F, f0, c1, c2, light, k);
    }
  }

  lemma {:induction false} JoinsHeavy(F: Forest, f0: seq<nat>, m: nat, light: nat, n: nat) returns (m2: nat, light2: nat)
    requires Grown(F, f0, m) && Sum(f0) <= SENTINEL && Heavy(F, f0, light)
    ensures Grown(AfterJoins(F, n), f0, m2) && Heavy(AfterJoins(F, n), f0, light2)
    decreases n
  {
    hide *;
    NextJoin(F, n);
    if n == 0 || !TwoLeft(F) {
      NoJoin(F, n);
      m2, light2 := m, light;
    } else {
      BothLeft(F);
      var c1, c2 := First(F.weight), Second(F.weight);
      MayJoin(F, f0, m, c1, c2);
      LightestPair(F, f0, m);
      HeavyJoin(F, f0, c1, c2, light);
      JoinGrown(F, f0, m, c1, c2);
      m2, light2 := JoinsHeavy(JoinLightest(F), f0, m + 1, F.weight[c2], n - 1);
    }
  }

  lemma NoJoin(F: Forest, n: nat)
    requires n == 0 || !TwoLeft(F)
    ensures AfterJoins(F, n) == F
  {
    hide TwoLeft;
  }

  lemma BothLeft(F: Forest)
    requires TwoLeft(F)
    ensures 0 <= First(F.weight) < |F.weight| && 0 <= Second(F.weight) < |F.weight|
    ensures |F.weight| == |F.size| == |F.next| == |F.owner| == |F.chain| == |F.tree|
    ensures var chain := F.chain[First(F.weight)]; chain != [] && chain[|chain| - 1] < |F.next|
  {
  }

  /** A code of s bits takes counts of at least the Fibonacci number s + 2 in all. */
  lemma DepthBound(f: seq<nat>, k: nat)
    requires Sum(f) <= SENTINEL && k < |f| && f[k] > 0
    ensures |MergedSizes(f)| == |f| && Fib(MergedSizes(f)[k] + 2) <= Sum(f)
  {
    hide *;
    SeedlingsGrown(f);
    SeedlingsHeavy(f);
    var m, light := JoinsHeavy(Seedlings(f), f, 0, 0, Used(f));
    MergedSizesAre(f);
    HeaviestIs(AfterJoins(Seedlings(f), Used(f)), f, m, light, k);
  }

  lemma MergedSizesAre(f: seq<nat>)
    ensures MergedSizes(f) == AfterJoins(Seedlings(f), Used(f)).size
  {
  }

  lemma HeaviestIs(F: Forest, f: seq<nat>, m: nat, light: nat, k: nat)
    requires Grown(F, f, m) && Heavy(F, f, light) && k < |f| && f[k] > 0
    ensures |F.size| == |f| && Fib(F.size[k] + 2) <= Sum(f)
  {
    hide Fib, Sum, Used, MergeCost, Cost, ChainOk, TreeOk, OwnersOk, SumsOk;
    assert HeavyAt(F, k, light);
    SumAtLeast(F.weight, F.owner[k]);
  }

  lemma UnusedFlat(f: seq<nat>, k: nat)
    requires Sum(f) <= SENTINEL && k < |f| && f[k] == 0
    ensures |MergedSizes(f)| == |f| && MergedSizes(f)[k] == 0
  {
    hide *;
    SeedlingsGrown(f);
    SeedlingsHeavy(f);
    var m, light := JoinsHeavy(Seedlings(f), f, 0, 0, Used(f));
    MergedSizesAre(f);
    OwnerlessFlat(AfterJoins(Seedlings(f), Used(f)), f, m, k);
  }

  lemma OwnerlessFlat(F: Forest, f: seq<nat>, m: nat, k: nat)
    requires Grown(F, f, m) && k < |f| && f[k] == 0
    ensures |F.size| == |f| && F.size[k] == 0
  {
    hide Sum, Used, MergeCost, Cost, ChainOk, TreeOk, SumsOk;
  }

  /** The 35th Fibonacci number. */
  const DEEP_TOTAL: nat := 9227465

  lemma DeepTotal()
    ensures Fib(35) == DEEP_TOTAL
  {
    assert Fib(5) == 5 && Fib(6) == 8;
    assert Fib(7) == 13 && Fib(8) == 21 && Fib(9) == 34 && Fib(10) == 55;
    assert Fib(11) == 89 && Fib(12) == 144 && Fib(13) == 233 && Fib(14) == 377;
    assert Fib(15) == 610 && Fib(16) == 987 && Fib(17) == 1597 && Fib(18) == 2584;
    assert Fib(19) == 4181 && Fib(20) == 6765 && Fib(21) == 10946 && Fib(22) == 17711;
    assert Fib(23) == 28657 && Fib(24) == 46368 && Fib(25) == 75025 && Fib(26) == 121393;
    assert Fib(27) == 196418 && Fib(28) == 317811 && Fib(29) == 514229 && Fib(30) == 832040;
    assert Fib(31) == 1346269 && Fib(32) == 2178309 && Fib(33) == 3524578 && Fib(34) == 5702887;
  }

  /** Counts below the 35th Fibonacci number in all never lead to a code of more than 32 bits. */
  lemma ShallowBelow(f: seq<nat>)
    requires Sum(f) < DEEP_TOTAL
    ensures |MergedSizes(f)| == |f| && forall k :: 0 <= k < |f| ==> MergedSizes(f)[k] <= 32
  {
    hide *;
    DeepTotal();
    BelowSentinel(Sum(f));
    SizesCount(f);
    forall k | 0 <= k < |f| ensures MergedSizes(f)[k] <= 32 {
      if f[k] > 0 {
        DepthBound(f, k);
        if MergedSizes(f)[k] > 32 {
          FibGrows(35, MergedSizes(f)[k] + 2);
        }
      } else {
        UnusedFlat(f, k);
      }
    }
  }

  lemma BelowSentinel(n: nat)
    requires n < DEEP_TOTAL
    ensures n <= SENTINEL
  {
  }

  lemma SizesCount(f: seq<nat>)
    requires Sum(f) <= SENTINEL
    ensures |MergedSizes(f)| == |f|
  {
    hide *;
    SeedlingsGrown(f);
    SeedlingsHeavy(f);
    var m, light := JoinsHeavy(Seedlings(f), f, 0, 0, Used(f));
    MergedSizesAre(f);
    GrownShape(AfterJoins(Seedlings(f), Used(f)), f, m);
  }

  lemma GrownShape(F: Forest, f: seq<nat>, m: nat)
    requires Grown(F, f, m)
    ensures |F.size| == |f|
  {
    hide ChainOk, TreeOk, OwnersOk, SumsOk, TotalsOk;
  }
}
