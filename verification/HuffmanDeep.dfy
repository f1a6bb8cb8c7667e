/** SymbolNumbers that reach the bound on the depth of a tree: the Fibonacci numbers themselves. */
module HuffmanDeep {
  import opened HuffmanCost
  import opened HuffmanForest
  import opened HuffmanMerge
  import opened HuffmanDepth
  import opened HuffmanTables

  /** From the last symbol down: 1, then the first s Fibonacci numbers. */
  function Deep(n: nat, s: nat): (f: seq<nat>)
    requires s < n
    ensures |f| == n
  {
    seq(n, i requires 0 <= i < n => if i == n - 1 then 1 else if i >= n - 1 - s then Fib(n - 1 - i) else 0)
  }

  lemma {:induction false} DeepSum(n: nat, s: nat)
    requires s < n
    ensures Sum(Deep(n, s)) == Fib(s + 2)
  {
    hide Sum;
    if s == 0 {
      SumSingle(Deep(n, 0), n - 1);
      assert Fib(2) == 1;
    } else {
      DeepSum(n, s - 1);
      SumUpdate(Deep(n, s - 1), n - 1 - s, Fib(s));
      assert Deep(n, s) == Deep(n, s - 1)[n - 1 - s := Fib(s)];
      assert Fib(s + 2) == Fib(s + 1) + Fib(s);
    }
  }

  // ----- Of equal weights the last is taken

  lemma {:induction false} ScanTakes(f: seq<nat>, except: int, k: nat, c: nat)
    requires c < k <= |f| && c != except && 0 < f[c] <= SENTINEL
    requires forall i :: 0 <= i < k && i != c && i != except && f[i] > 0 ==> f[c] < f[i] || (f[c] == f[i] && i < c)
    ensures Scan(f, except, SENTINEL, k) == (c, f[c])
  {
    if k - 1 > c {
      ScanTakes(f, except, k - 1, c);
    }
  }

  /** The two lightest, of equal ones the last first. */
  lemma PairTaken(f: seq<nat>, c1: nat, c2: nat)
    requires c1 < |f| && c2 < |f| && c1 != c2 && 0 < f[c1] <= f[c2] <= SENTINEL && (f[c1] == f[c2] ==> c2 < c1)
    requires forall i :: 0 <= i < |f| && i != c1 && i != c2 && f[i] > 0 ==> f[c2] < f[i] || (f[c2] == f[i] && i < c2)
    ensures First(f) == c1 && Second(f) == c2
  {
    hide Scan;
    ScanTakes(f, -1, |f|, c1);
    ScanTakes(f, c1, |f|, c2);
  }

  // ----- Join after join

  /** Where the tree of the last symbol has its root after j joins. */
  function RootAfter(n: nat, j: nat): int {
    if j <= 1 then n - 1 else n - 1 - j
  }

  /** The weights then. */
  function WeightsAfter(n: nat, s: nat, j: nat): (f: seq<nat>)
    requires j <= s < n
    ensures |f| == n
  {
    seq(n, i requires 0 <= i < n =>
      if i == RootAfter(n, j) then Fib(j + 2) else if n - 1 - s <= i < n - 1 - j then Fib(n - 1 - i) else 0)
  }

  ghost predicate DeepAfter(F: Forest, n: nat, s: nat, j: nat)
    requires j <= s < n
  {
    && Grown(F, Deep(n, s), j) && Shaped(F, n) && F.weight == WeightsAfter(n, s, j)
    && F.owner[n - 1] == RootAfter(n, j) && F.size[n - 1] == j
  }

  lemma FibAfter(j: nat)
    ensures Fib(j + 1) > 0 && Fib(j + 2) == Fib(j + 1) + Fib(j) && Fib(j + 3) == Fib(j + 2) + Fib(j + 1)
    ensures j > 0 ==> Fib(j) > 0
  {
    FibGrows(1, j + 1);
    if j > 0 {
      FibGrows(1, j);
    }
  }

  /** The weights of the tree, of the next leaf, and of the other leaves. */
  lemma WeightsThen(n: nat, s: nat, j: nat)
    requires j < s < n && Fib(s + 2) <= SENTINEL
    ensures var w, r, leaf := WeightsAfter(n, s, j), RootAfter(n, j), n - 2 - j;
      && 0 <= r < n && 0 <= leaf < r && 0 < w[leaf] <= w[r] <= SENTINEL && (w[leaf] == w[r] <==> j == 0)
      && forall i :: 0 <= i < n && i != r && i != leaf && w[i] > 0 ==> w[i] >= w[r] && i < leaf
  {
    var w, r, leaf := WeightsAfter(n, s, j), RootAfter(n, j), n - 2 - j;
    FibAfter(j);
    FibGrows(j + 2, s + 2);
    assert j == 0 ==> Fib(j) == 0;
    hide Fib;
    assert w[r] == Fib(j + 2) && w[leaf] == Fib(j + 1);
    forall i | 0 <= i < n && i != r && i != leaf && w[i] > 0 ensures w[i] >= w[r] && i < leaf {
      FibGrows(j + 2, n - 1 - i);
    }
  }

  lemma WeightsNext(n: nat, s: nat, j: nat)
    requires j < s < n
    ensures var w, r, leaf := WeightsAfter(n, s, j), RootAfter(n, j), n - 2 - j;
      && 0 <= r < n && 0 <= leaf < n
      && WeightsAfter(n, s, j + 1) == if j == 0 then Merge(w, r, leaf) else Merge(w, leaf, r)
  {
    FibAfter(j);
    var w, r, leaf := WeightsAfter(n, s, j), RootAfter(n, j), n - 2 - j;
    assert w[r] == Fib(j + 2) && w[leaf] == Fib(j + 1);
    var next, merged := WeightsAfter(n, s, j + 1), if j == 0 then Merge(w, r, leaf) else Merge(w, leaf, r);
    assert next[RootAfter(n, j + 1)] == Fib(j + 3);
    hide Fib;
    forall i | 0 <= i < n ensures next[i] == merged[i] {
    }
    assert next == merged;
  }

  /** The next leaf joins the tree, which is taken before leaves of its weight. */
  lemma NextPairDeep(n: nat, s: nat, j: nat)
    requires j < s < n && Fib(s + 2) <= SENTINEL
    ensures var w, r, leaf := WeightsAfter(n, s, j), RootAfter(n, j), n - 2 - j;
      && 0 <= r < n && 0 <= leaf < n && r != leaf
      && (First(w), Second(w)) == (if j == 0 then (r, leaf) else (leaf, r))
      && Merge(w, First(w), Second(w)) == WeightsAfter(n, s, j + 1)
      && w[leaf] > 0 && w[r] > 0
  {
    hide *;
    WeightsThen(n, s, j);
    WeightsNext(n, s, j);
    var w, r, leaf := WeightsAfter(n, s, j), RootAfter(n, j), n - 2 - j;
    if j == 0 {
      PairTaken(w, r, leaf);
    } else {
      PairTaken(w, leaf, r);
    }
  }

  lemma StartsWithOne(n: nat, s: nat, j: nat)
    requires j == 0 && s < n
    ensures Deep(n, s)[n - 1] == 1 && WeightsAfter(n, s, j) == Deep(n, s)
  {
    assert Fib(j + 2) == 1;
    assert WeightsAfter(n, s, j)[RootAfter(n, j)] == Fib(j + 2);
    hide Fib;
    assert WeightsAfter(n, s, j) == Deep(n, s);
  }

  lemma DeepBegins(n: nat, s: nat)
    requires s < n
    ensures DeepAfter(Seedlings(Deep(n, s)), n, s, 0)
  {
    var f := Deep(n, s);
    assert f[n - 1] == 1 && WeightsAfter(n, s, 0) == f by { StartsWithOne(n, s, 0); }
    SeedlingsGrown(f);
    hide Grown, Deep, WeightsAfter, Fib;
    assert f[n - 1] > 0;
    assert Seedlings(f).weight == f && Seedlings(f).owner[n - 1] == n - 1 && Seedlings(f).size[n - 1] == 0;
  }

  lemma DeepJoins(F: Forest, n: nat, s: nat, j: nat)
    requires j < s < n && DeepAfter(F, n, s, j) && Fib(s + 2) <= SENTINEL
    ensures TwoLeft(F) && DeepAfter(JoinLightest(F), n, s, j + 1)
  {
    hide *;
    DeepIs(F, n, s, j);
    DeepSum(n, s);
    NextPairDeep(n, s, j);
    var c1, c2 := First(F.weight), Second(F.weight);
    MayJoin(F, Deep(n, s), j, c1, c2);
    BothLeft(F);
    JoinGrown(F, Deep(n, s), j, c1, c2);
    LastJoined(F, n, s, j, c1, c2);
  }

  lemma DeepIs(F: Forest, n: nat, s: nat, j: nat)
    requires j <= s < n && DeepAfter(F, n, s, j)
    ensures |Deep(n, s)| == |F.weight| == n && Grown(F, Deep(n, s), j) && F.weight == WeightsAfter(n, s, j)
  {
    hide Grown;
  }

  lemma LastJoined(F: Forest, n: nat, s: nat, j: nat, c1: nat, c2: nat)
    requires j < s < n && DeepAfter(F, n, s, j) && c1 < n && c2 < n
    requires F.chain[c1] != [] && F.chain[c1][|F.chain[c1]| - 1] < |F.next| && Grown(Join(F, c1, c2), Deep(n, s), j + 1)
    requires (c1, c2) == (if j == 0 then (RootAfter(n, j), n - 2 - j) else (n - 2 - j, RootAfter(n, j)))
    requires Merge(F.weight, c1, c2) == WeightsAfter(n, s, j + 1)
    ensures DeepAfter(Join(F, c1, c2), n, s, j + 1)
  {
    hide Grown, Deep, WeightsAfter, Fib, Merge;
  }

  /** Joins are left to do. */
  lemma JoinsLeft(F: Forest, n: nat, s: nat, j: nat)
    requires j < s < n && DeepAfter(F, n, s, j)
    ensures Used(Deep(n, s)) > j
  {
    var w := F.weight;
    FibGrows(1, j + 2);
    assert w[RootAfter(n, j)] > 0;
    hide ChainOk, TreeOk, OwnersOk, SumsOk, Sum, Fib;
    SumAtLeast(Ones(w), RootAfter(n, j));
  }

  lemma {:induction false} DeepEnds(F: Forest, n: nat, s: nat, j: nat, m: nat)
    requires j <= s < n && DeepAfter(F, n, s, j) && Fib(s + 2) <= SENTINEL && m + j == Used(Deep(n, s))
    ensures |AfterJoins(F, m).size| == n && AfterJoins(F, m).size[n - 1] == s
    decreases m
  {
    hide *;
    if j == s {
      OneLeft(F, n, s);
      NextJoin(F, m);
    } else {
      DeepJoins(F, n, s, j);
      JoinsLeft(F, n, s, j);
      NextJoin(F, m);
      DeepEnds(JoinLightest(F), n, s, j + 1, m - 1);
    }
  }

  /** One tree is left. */
  lemma OneLeft(F: Forest, n: nat, s: nat)
    requires s < n && DeepAfter(F, n, s, s)
    ensures !TwoLeft(F) && |F.size| == n && F.size[n - 1] == s
  {
    hide Grown, Fib;
    var w := F.weight;
    assert forall i :: 0 <= i < n && i != RootAfter(n, s) ==> w[i] == 0;
    assert First(w) >= 0 ==> First(w) == RootAfter(n, s);
    assert Second(w) >= 0 ==> Second(w) == RootAfter(n, s);
  }

  /** The bound on depth is reached: the least total that leads to a size of s is the Fibonacci
      number s + 2. */
  lemma BoundReached(n: nat, s: nat)
    requires s < n && Fib(s + 2) <= SENTINEL
    ensures Sum(Deep(n, s)) == Fib(s + 2) && |MergedSizes(Deep(n, s))| == n && MergedSizes(Deep(n, s))[n - 1] == s
  {
    hide *;
    DeepSum(n, s);
    DeepBegins(n, s);
    MergedSizesAre(Deep(n, s));
    DeepEnds(Seedlings(Deep(n, s)), n, s, 0, Used(Deep(n, s)));
  }

  /** So counts that total the 35th Fibonacci number can lead to a code too long to be limited. */
  lemma TooDeepAt(n: nat, s: nat)
    requires n == NUM_SYMBOLS && s == 33
    ensures var f := Deep(n, s);
      PSEUDO_SYMBOL < |f| && f == f[PSEUDO_SYMBOL := 1] && Sum(f) == DEEP_TOTAL && TooDeep(f)
  {
    hide *;
    DeepTotal();
    SymbolNumbers();
    StartsWithOne(n, s, 0);
    BoundReached(n, s);
    DeepAt(Deep(n, s), PSEUDO_SYMBOL);
  }

  lemma SymbolNumbers()
    ensures NUM_SYMBOLS == 257 && PSEUDO_SYMBOL == 256 && DEEP_TOTAL <= SENTINEL
  {
  }

  lemma DeepAt(f: seq<nat>, k: nat)
    requires k < |MergedSizes(f)| && MergedSizes(f)[k] == 33
    ensures TooDeep(f)
  {
    hide MergedSizes;
  }
}
