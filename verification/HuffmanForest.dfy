/** The forest of partial Huffman trees as jpeg_gen_optimal_table holds it: a weight per
    root, a depth per symbol, and the leaves of each tree chained through `next`. */
module HuffmanForest {
  import opened Powers
  import opened HuffmanCost

  datatype Tree = Leaf(sym: nat) | Node(left: Tree, right: Tree)

  function Leaves(t: Tree): seq<nat> {
    match t
    case Leaf(s) => [s]
    case Node(a, b) => Leaves(a) + Leaves(b)
  }

  /** Depths of the leaves, in the same order, when the root is at depth d. */
  function Depths(t: Tree, d: nat): (r: seq<nat>)
    ensures |r| == |Leaves(t)|
  {
    match t
    case Leaf(_) => [d]
    case Node(a, b) => Depths(a, d + 1) + Depths(b, d + 1)
  }

  lemma {:induction false} DeeperBy(t: Tree, d: nat)
    ensures forall i :: 0 <= i < |Leaves(t)| ==> Depths(t, d + 1)[i] == Depths(t, d)[i] + 1
  {
    if t.Node? {
      DeeperBy(t.left, d + 1);
      DeeperBy(t.right, d + 1);
    }
  }

  /** weight, size and next are the program's arrays freq, codesize and others; owner, chain
      and tree say whose tree each symbol is in, its leaves in order, and the tree. */
  datatype Forest = Forest(weight: seq<nat>, size: seq<nat>, next: seq<int>,
                           owner: seq<int>, chain: seq<seq<nat>>, tree: seq<Tree>)

  ghost predicate Shaped(F: Forest, n: nat) {
    |F.weight| == |F.size| == |F.next| == |F.owner| == |F.chain| == |F.tree| == n
  }

  /** The links lead along the chain and end with -1. */
  ghost predicate Linked(chain: seq<nat>, next: seq<int>) {
    forall i :: 0 <= i < |chain| ==>
      chain[i] < |next| && next[chain[i]] == if i + 1 < |chain| then chain[i + 1] else -1
  }

  ghost predicate OwnedBy(chain: seq<nat>, owner: seq<int>, r: int) {
    forall i :: 0 <= i < |chain| ==> chain[i] < |owner| && owner[chain[i]] == r
  }

  ghost predicate Distinct(chain: seq<nat>) {
    forall i, j :: 0 <= i < j < |chain| ==> chain[i] != chain[j]
  }

  ghost predicate ChainOk(F: Forest, n: nat, r: nat)
    requires Shaped(F, n) && r < n
  {
    && (F.weight[r] > 0 <==> F.chain[r] != [])
    && (F.chain[r] != [] ==> F.chain[r][0] == r)
    && Linked(F.chain[r], F.next) && OwnedBy(F.chain[r], F.owner, r) && Distinct(F.chain[r])
  }

  /** The chain from root r lists the leaves of its tree, and sizes are their depths. */
  ghost predicate TreeOk(F: Forest, n: nat, r: nat)
    requires Shaped(F, n) && r < n
  {
    F.weight[r] > 0 ==>
      && Leaves(F.tree[r]) == F.chain[r]
      && forall i :: 0 <= i < |F.chain[r]| && F.chain[r][i] < n ==> F.size[F.chain[r][i]] == Depths(F.tree[r], 0)[i]
  }

  /** Every symbol of the original weights is in the chain of its owner; the others in none. */
  ghost predicate OwnersOk(F: Forest, f0: seq<nat>)
    requires Shaped(F, |f0|)
  {
    forall k :: 0 <= k < |f0| ==>
      if f0[k] == 0 then F.owner[k] == -1 && F.size[k] == 0
      else 0 <= F.owner[k] < |f0| && F.weight[F.owner[k]] > 0 && k in F.chain[F.owner[k]]
  }

  /** The original weights in the tree of r. */
  function Part(owner: seq<int>, f0: seq<nat>, r: int): (s: seq<nat>)
    requires |owner| == |f0|
    ensures |s| == |f0|
  {
    seq(|f0|, k requires 0 <= k < |f0| => if owner[k] == r then f0[k] else 0)
  }

  /** The shares of the code space, in units of 2^-m, of the symbols in the tree of r. */
  function Shares(owner: seq<int>, size: seq<nat>, r: int, m: nat): (s: seq<nat>)
    requires |owner| == |size|
    ensures |s| == |size|
  {
    seq(|size|, k requires 0 <= k < |size| => if owner[k] == r && size[k] <= m then Pow2(m - size[k]) else 0)
  }

  /** Each root weighs what its leaves weigh together, and they fill the code space. */
  ghost predicate SumsOk(F: Forest, f0: seq<nat>, m: nat)
    requires Shaped(F, |f0|)
  {
    && (forall k :: 0 <= k < |f0| ==> F.size[k] <= m)
    && forall r :: 0 <= r < |f0| && F.weight[r] > 0 ==>
         Sum(Part(F.owner, f0, r)) == F.weight[r] && Sum(Shares(F.owner, F.size, r, m)) == Pow2(m)
  }

  /** The totals the merging loop keeps. */
  ghost predicate TotalsOk(f0: seq<nat>, weight: seq<nat>, size: seq<nat>, m: nat)
    requires |weight| == |size| == |f0|
  {
    && Sum(weight) == Sum(f0)
    && Used(weight) + m == Used(f0)
    && (Sum(f0) <= SENTINEL ==> Cost(f0, size) + MergeCost(weight) == MergeCost(f0))
  }

  /** Everything the merging loop keeps. */
  ghost predicate Grown(F: Forest, f0: seq<nat>, m: nat) {
    && Shaped(F, |f0|)
    && (forall r :: 0 <= r < |f0| ==> ChainOk(F, |f0|, r) && TreeOk(F, |f0|, r))
    && OwnersOk(F, f0)
    && SumsOk(F, f0, m)
    && TotalsOk(f0, F.weight, F.size, m)
  }

  // ----- Joining two trees

  function Bumped(F: Forest, c1: int, c2: int): (r: seq<nat>)
    requires |F.owner| == |F.size|
    ensures |r| == |F.size|
  {
    seq(|F.size|, k requires 0 <= k < |F.size| => if F.owner[k] == c1 || F.owner[k] == c2 then F.size[k] + 1 else F.size[k])
  }

  function Reowned(owner: seq<int>, c1: int, c2: int): (r: seq<int>)
    ensures |r| == |owner|
  {
    seq(|owner|, k requires 0 <= k < |owner| => if owner[k] == c2 then c1 else owner[k])
  }

  function Join(F: Forest, c1: nat, c2: nat): Forest
    requires c1 < |F.weight| && c2 < |F.weight| && F.chain != []
    requires |F.weight| == |F.size| == |F.next| == |F.owner| == |F.chain| == |F.tree|
    requires F.chain[c1] != [] && F.chain[c1][|F.chain[c1]| - 1] < |F.next|
  {
    Forest(Merge(F.weight, c1, c2), Bumped(F, c1, c2), F.next[F.chain[c1][|F.chain[c1]| - 1] := c2],
           Reowned(F.owner, c1, c2), F.chain[c1 := F.chain[c1] + F.chain[c2]][c2 := []],
           F.tree[c1 := Node(F.tree[c1], F.tree[c2])])
  }

  ghost predicate Joinable(F: Forest, f0: seq<nat>, m: nat, c1: int, c2: int) {
    && Grown(F, f0, m) && 0 <= c1 < |f0| && 0 <= c2 < |f0| && c1 != c2 && F.weight[c1] > 0 && F.weight[c2] > 0
    && ChainOk(F, |f0|, c1) && ChainOk(F, |f0|, c2)
  }

  lemma LinkedConcat(a: seq<nat>, b: seq<nat>, next: seq<int>)
    requires Linked(a, next) && Linked(b, next) && Distinct(a) && a != [] && b != []
    requires forall i, j :: 0 <= i < |a| && 0 <= j < |b| ==> a[i] != b[j]
    ensures Linked(a + b, next[a[|a| - 1] := b[0]])
  {
    var c: seq<nat>, joined: seq<int> := a + b, next[a[|a| - 1] := b[0]];
    forall i | 0 <= i < |c|
      ensures c[i] < |joined| && joined[c[i]] == if i + 1 < |c| then c[i + 1] else -1
    {
      if i < |a| - 1 {
        assert c[i] == a[i] && c[i + 1] == a[i + 1] && a[i] != a[|a| - 1];
        assert joined[c[i]] == next[a[i]];
      } else if i == |a| - 1 {
        assert c[i] == a[i] && c[i + 1] == b[0] && joined[c[i]] == b[0];
      } else {
        var j := i - |a|;
        assert c[i] == b[j] && a[|a| - 1] != b[j];
        assert i + 1 < |c| ==> c[i + 1] == b[j + 1];
        assert joined[c[i]] == next[b[j]];
      }
    }
    assert Linked(c, joined);
  }

  lemma JoinRoot(F: Forest, f0: seq<nat>, m: nat, c1: nat, c2: nat)
    requires Joinable(F, f0, m, c1, c2)
    ensures Shaped(Join(F, c1, c2), |f0|) && ChainOk(Join(F, c1, c2), |f0|, c1)
  {
    hide OwnersOk, SumsOk, TotalsOk, Sum, TreeOk, Grown;
    ShapeOf(F, f0, m);
    var a, b := F.chain[c1], F.chain[c2];
    forall i, j | 0 <= i < |a| && 0 <= j < |b| ensures a[i] != b[j] {
      assert F.owner[a[i]] == c1 && F.owner[b[j]] == c2;
    }
    LinkedConcat(a, b, F.next);
    hide Linked;
  }

  lemma ShapeOf(F: Forest, f0: seq<nat>, m: nat)
    requires Grown(F, f0, m)
    ensures Shaped(F, |f0|)
  {
  }

  lemma JoinOther(F: Forest, f0: seq<nat>, m: nat, c1: nat, c2: nat, r: nat)
    requires Joinable(F, f0, m, c1, c2) && r < |f0| && r != c1
    ensures Shaped(Join(F, c1, c2), |f0|) && ChainOk(Join(F, c1, c2), |f0|, r)
  {
    hide OwnersOk, SumsOk, TotalsOk, Sum, TreeOk;
    assert ChainOk(F, |f0|, r);
    var last := F.chain[c1][|F.chain[c1]| - 1];
    assert F.owner[last] == c1;
    if r != c2 {
      assert forall i :: 0 <= i < |F.chain[r]| ==> F.chain[r][i] != last;
    }
  }

  lemma JoinTreeRoot(F: Forest, f0: seq<nat>, m: nat, c1: nat, c2: nat)
    requires Joinable(F, f0, m, c1, c2)
    ensures Shaped(Join(F, c1, c2), |f0|) && TreeOk(Join(F, c1, c2), |f0|, c1)
  {
    hide OwnersOk, SumsOk, TotalsOk, Sum, Linked, Distinct, Leaves, Depths;
    assert TreeOk(F, |f0|, c1) && TreeOk(F, |f0|, c2);
    hide Grown;
    var G := Join(F, c1, c2);
    NodeOf(F.tree[c1], F.tree[c2]);
    DeeperBy(F.tree[c1], 0);
    DeeperBy(F.tree[c2], 0);
    hide TreeOk, Join;
    forall i | 0 <= i < |G.chain[c1]| && G.chain[c1][i] < |f0|
      ensures G.size[G.chain[c1][i]] == Depths(G.tree[c1], 0)[i]
    {
      JoinDepth(F, f0, m, c1, c2, i);
    }
    TreeIs(G, |f0|, c1);
  }

  lemma TreeIs(G: Forest, n: nat, r: nat)
    requires Shaped(G, n) && r < n && Leaves(G.tree[r]) == G.chain[r]
    requires forall i :: 0 <= i < |G.chain[r]| && G.chain[r][i] < n ==> G.size[G.chain[r][i]] == Depths(G.tree[r], 0)[i]
    ensures TreeOk(G, n, r)
  {
    hide Leaves, Depths;
  }

  /** Every leaf of the joined tree is one deeper than before. */
  lemma JoinDepth(F: Forest, f0: seq<nat>, m: nat, c1: nat, c2: nat, i: nat)
    requires Joinable(F, f0, m, c1, c2) && Shaped(Join(F, c1, c2), |f0|)
    requires i < |Join(F, c1, c2).chain[c1]| && Join(F, c1, c2).chain[c1][i] < |f0|
    ensures Join(F, c1, c2).size[Join(F, c1, c2).chain[c1][i]] == Depths(Join(F, c1, c2).tree[c1], 0)[i]
  {
    hide OwnersOk, SumsOk, TotalsOk, Sum, Linked, Distinct, Leaves, Depths;
    assert TreeOk(F, |f0|, c1) && TreeOk(F, |f0|, c2);
    hide Grown;
    NodeOf(F.tree[c1], F.tree[c2]);
    DeeperBy(F.tree[c1], 0);
    DeeperBy(F.tree[c2], 0);
    var a, b := F.chain[c1], F.chain[c2];
    if i < |a| {
      assert F.owner[a[i]] == c1;
    } else {
      assert F.owner[b[i - |a|]] == c2;
    }
  }

  lemma NodeOf(a: Tree, b: Tree)
    ensures Leaves(Node(a, b)) == Leaves(a) + Leaves(b) && Depths(Node(a, b), 0) == Depths(a, 1) + Depths(b, 1)
  {
  }

  lemma JoinTreeOther(F: Forest, f0: seq<nat>, m: nat, c1: nat, c2: nat, r: nat)
    requires Joinable(F, f0, m, c1, c2) && r < |f0| && r != c1
    ensures Shaped(Join(F, c1, c2), |f0|) && TreeOk(Join(F, c1, c2), |f0|, r)
  {
    hide OwnersOk, SumsOk, TotalsOk, Sum, Linked, Distinct, Leaves, Depths;
    assert ChainOk(F, |f0|, r) && TreeOk(F, |f0|, r);
    hide Grown;
  }

  lemma JoinOwners(F: Forest, f0: seq<nat>, m: nat, c1: nat, c2: nat)
    requires Joinable(F, f0, m, c1, c2)
    ensures Shaped(Join(F, c1, c2), |f0|) && OwnersOk(Join(F, c1, c2), f0)
  {
    hide SumsOk, TotalsOk, Sum, TreeOk, Linked, Distinct;
    var G := Join(F, c1, c2);
    forall k | 0 <= k < |f0|
      ensures if f0[k] == 0 then G.owner[k] == -1 && G.size[k] == 0
              else 0 <= G.owner[k] < |f0| && G.weight[G.owner[k]] > 0 && k in G.chain[G.owner[k]]
    {
      assert f0[k] > 0 ==> k in F.chain[F.owner[k]];
      assert G.chain[c1] == F.chain[c1] + F.chain[c2];
    }
  }

  lemma JoinParts(F: Forest, f0: seq<nat>, m: nat, c1: nat, c2: nat, r: nat)
    requires Shaped(F, |f0|) && c1 < |f0| && c2 < |f0| && c1 != c2 && r < |f0| && r != c2
    ensures Sum(Part(Reowned(F.owner, c1, c2), f0, r))
         == if r == c1 then Sum(Part(F.owner, f0, c1)) + Sum(Part(F.owner, f0, c2)) else Sum(Part(F.owner, f0, r))
  {
    hide Sum;
    if r == c1 {
      SumAdd(Part(Reowned(F.owner, c1, c2), f0, c1), Part(F.owner, f0, c1), Part(F.owner, f0, c2));
    } else {
      assert Part(Reowned(F.owner, c1, c2), f0, r) == Part(F.owner, f0, r);
    }
  }

  /** The code space one unit finer. */
  lemma SharesFiner(owner: seq<int>, size: seq<nat>, r: int, m: nat)
    requires |owner| == |size| && forall k :: 0 <= k < |size| ==> size[k] <= m
    ensures Sum(Shares(owner, size, r, m + 1)) == 2 * Sum(Shares(owner, size, r, m))
  {
    SumTwice(Shares(owner, size, r, m + 1), Shares(owner, size, r, m));
  }

  lemma JoinShares(F: Forest, f0: seq<nat>, m: nat, c1: nat, c2: nat, r: nat)
    requires Shaped(F, |f0|) && c1 < |f0| && c2 < |f0| && c1 != c2 && r < |f0| && r != c2
    requires forall k :: 0 <= k < |f0| ==> F.size[k] <= m
    ensures var s := Shares(Reowned(F.owner, c1, c2), Bumped(F, c1, c2), r, m + 1);
      Sum(s) == if r == c1 then Sum(Shares(F.owner, F.size, c1, m)) + Sum(Shares(F.owner, F.size, c2, m))
                else 2 * Sum(Shares(F.owner, F.size, r, m))
  {
    var s := Shares(Reowned(F.owner, c1, c2), Bumped(F, c1, c2), r, m + 1);
    SharesFiner(F.owner, F.size, r, m);
    hide Sum, Pow2;
    if r == c1 {
      SumAdd(s, Shares(F.owner, F.size, c1, m), Shares(F.owner, F.size, c2, m));
    } else {
      assert s == Shares(F.owner, F.size, r, m + 1);
    }
  }

  lemma JoinSums(F: Forest, f0: seq<nat>, m: nat, c1: nat, c2: nat)
    requires Joinable(F, f0, m, c1, c2)
    ensures Shaped(Join(F, c1, c2), |f0|) && SumsOk(Join(F, c1, c2), f0, m + 1)
  {
    hide Sum, Pow2, Part, Shares, OwnersOk, SumsOk, TotalsOk, TreeOk, Linked, Distinct;
    JoinShape(F, f0, m, c1, c2);
    var G := Join(F, c1, c2);
    forall r | 0 <= r < |f0| && G.weight[r] > 0
      ensures Sum(Part(G.owner, f0, r)) == G.weight[r] && Sum(Shares(G.owner, G.size, r, m + 1)) == Pow2(m + 1)
    {
      JoinSum(F, f0, m, c1, c2, r);
    }
    SumsAre(G, f0, m + 1);
  }

  lemma SumsAre(G: Forest, f0: seq<nat>, m: nat)
    requires Shaped(G, |f0|) && (forall k :: 0 <= k < |f0| ==> G.size[k] <= m)
    requires forall r :: 0 <= r < |f0| && G.weight[r] > 0 ==>
      Sum(Part(G.owner, f0, r)) == G.weight[r] && Sum(Shares(G.owner, G.size, r, m)) == Pow2(m)
    ensures SumsOk(G, f0, m)
  {
    hide Sum, Part, Shares, Pow2;
  }

  lemma JoinShape(F: Forest, f0: seq<nat>, m: nat, c1: nat, c2: nat)
    requires Joinable(F, f0, m, c1, c2)
    ensures Shaped(Join(F, c1, c2), |f0|) && forall k :: 0 <= k < |f0| ==> Join(F, c1, c2).size[k] <= m + 1
  {
    hide OwnersOk, TotalsOk, Sum, TreeOk, Part, Shares, Pow2;
    assert SumsOk(F, f0, m) && Shaped(F, |f0|);
    hide Grown;
  }

  /** What the two lemmas above say of one tree. */
  lemma JoinSum(F: Forest, f0: seq<nat>, m: nat, c1: nat, c2: nat, r: nat)
    requires Joinable(F, f0, m, c1, c2) && r < |f0| && Shaped(Join(F, c1, c2), |f0|) && Join(F, c1, c2).weight[r] > 0
    ensures Sum(Part(Join(F, c1, c2).owner, f0, r)) == Join(F, c1, c2).weight[r]
    ensures Sum(Shares(Join(F, c1, c2).owner, Join(F, c1, c2).size, r, m + 1)) == Pow2(m + 1)
  {
    assert SumsOk(F, f0, m) && Shaped(F, |f0|) && Pow2(m + 1) == 2 * Pow2(m);
    hide Sum, Pow2, Part, Shares, OwnersOk, ChainOk, TreeOk, Used, Cost, MergeCost, Grown, TotalsOk;
    JoinParts(F, f0, m, c1, c2, r);
    JoinShares(F, f0, m, c1, c2, r);
  }

  lemma OneMore(x: nat, y: nat)
    ensures x * (y + 1) == x * y + x
  {
  }

  lemma JoinCost(F: Forest, f0: seq<nat>, m: nat, c1: nat, c2: nat)
    requires Shaped(F, |f0|) && c1 != c2
    ensures Cost(f0, Bumped(F, c1, c2)) == Cost(f0, F.size) + Sum(Part(F.owner, f0, c1)) + Sum(Part(F.owner, f0, c2))
  {
    hide Sum;
    var s, p, q := Costs(f0, F.size), Part(F.owner, f0, c1), Part(F.owner, f0, c2);
    var sp := seq(|f0|, k requires 0 <= k < |f0| => s[k] + p[k]);
    var t := Costs(f0, Bumped(F, c1, c2));
    forall k | 0 <= k < |f0| ensures t[k] == sp[k] + q[k] {
      OneMore(f0[k], F.size[k]);
    }
    SumAdd(sp, s, p);
    SumAdd(t, sp, q);
  }

  lemma MergeCostStep(f: seq<nat>)
    requires Sum(f) <= SENTINEL && Second(f) >= 0
    ensures 0 <= First(f) && Sum(Merge(f, First(f), Second(f))) <= SENTINEL
    ensures MergeCost(f) == f[First(f)] + f[Second(f)] + MergeCost(Merge(f, First(f), Second(f)))
  {
    FoundLightest(f);
    MergeTotal(f, First(f), Second(f));
    hide First, Second, Merge, Sum;
  }

  lemma JoinTotals(F: Forest, f0: seq<nat>, m: nat, c1: nat, c2: nat)
    requires Shaped(F, |f0|) && TotalsOk(f0, F.weight, F.size, m) && Sum(f0) <= SENTINEL
    requires c1 == First(F.weight) && c2 == Second(F.weight) && c1 < |f0| && c2 < |f0| && c1 != c2
    requires Sum(Part(F.owner, f0, c1)) == F.weight[c1] > 0 && Sum(Part(F.owner, f0, c2)) == F.weight[c2] > 0
    ensures TotalsOk(f0, Merge(F.weight, c1, c2), Bumped(F, c1, c2), m + 1)
  {
    hide Cost, Used, MergeCost, Sum, First, Second, Part, Merge, Bumped;
    JoinCost(F, f0, m, c1, c2);
    MergeTotal(F.weight, c1, c2);
    MergeUses(F.weight, c1, c2);
    MergeCostStep(F.weight);
  }

  lemma JoinRoots(F: Forest, f0: seq<nat>, m: nat, c1: nat, c2: nat)
    requires Joinable(F, f0, m, c1, c2)
    ensures var G := Join(F, c1, c2);
      Shaped(G, |f0|) && forall r :: 0 <= r < |f0| ==> ChainOk(G, |f0|, r) && TreeOk(G, |f0|, r)
  {
    JoinRoot(F, f0, m, c1, c2);
    JoinTreeRoot(F, f0, m, c1, c2);
    hide ChainOk, TreeOk, OwnersOk, TotalsOk, Sum, SumsOk, Grown, Merge, Bumped, Reowned;
    forall r | 0 <= r < |f0| ensures ChainOk(Join(F, c1, c2), |f0|, r) && TreeOk(Join(F, c1, c2), |f0|, r) {
      if r != c1 {
        JoinOther(F, f0, m, c1, c2, r);
        JoinTreeOther(F, f0, m, c1, c2, r);
      }
    }
  }

  /** Joining the trees of the two lightest roots keeps everything. */
  lemma JoinGrown(F: Forest, f0: seq<nat>, m: nat, c1: nat, c2: nat)
    requires Joinable(F, f0, m, c1, c2) && Sum(f0) <= SENTINEL
    requires c1 == First(F.weight) && c2 == Second(F.weight)
    ensures Grown(Join(F, c1, c2), f0, m + 1)
  {
    hide *;
    JoinRoots(F, f0, m, c1, c2);
    JoinOwners(F, f0, m, c1, c2);
    JoinSums(F, f0, m, c1, c2);
    JoinableSums(F, f0, m, c1, c2);
    JoinTotals(F, f0, m, c1, c2);
    GrownAgain(F, f0, m, c1, c2);
  }

  lemma JoinableSums(F: Forest, f0: seq<nat>, m: nat, c1: nat, c2: nat)
    requires Joinable(F, f0, m, c1, c2)
    ensures Shaped(F, |f0|) && |F.weight| == |F.owner| == |F.size| == |f0| && c1 < |f0| && c2 < |f0| && c1 != c2
    ensures TotalsOk(f0, F.weight, F.size, m)
    ensures Sum(Part(F.owner, f0, c1)) == F.weight[c1] > 0 && Sum(Part(F.owner, f0, c2)) == F.weight[c2] > 0
  {
    hide ChainOk, TreeOk, OwnersOk, TotalsOk, Sum, Part, Shares, Pow2;
  }

  lemma GrownAgain(F: Forest, f0: seq<nat>, m: nat, c1: nat, c2: nat)
    requires Joinable(F, f0, m, c1, c2)
    requires var G := Join(F, c1, c2);
      && Shaped(G, |f0|) && (forall r :: 0 <= r < |f0| ==> ChainOk(G, |f0|, r) && TreeOk(G, |f0|, r))
      && OwnersOk(G, f0) && SumsOk(G, f0, m + 1)
    requires TotalsOk(f0, Merge(F.weight, c1, c2), Bumped(F, c1, c2), m + 1)
    ensures Grown(Join(F, c1, c2), f0, m + 1)
  {
    hide ChainOk, TreeOk, OwnersOk, TotalsOk, SumsOk, Merge, Bumped, Reowned;
  }

  /** Every symbol in use a tree of its own. */
  function Seedlings(f0: seq<nat>): (F: Forest)
    ensures Shaped(F, |f0|)
  {
    var n := |f0|;
    Forest(f0, seq(n, _ => 0), seq(n, _ => -1), seq(n, k requires 0 <= k < n => if f0[k] > 0 then k else -1),
           seq(n, k requires 0 <= k < n => if f0[k] > 0 then [k] else []), seq(n, k requires 0 <= k < n => Leaf(k)))
  }

  lemma SeedlingSums(f0: seq<nat>)
    ensures SumsOk(Seedlings(f0), f0, 0)
  {
    var F := Seedlings(f0);
    forall r | 0 <= r < |f0| && F.weight[r] > 0
      ensures Sum(Part(F.owner, f0, r)) == F.weight[r] && Sum(Shares(F.owner, F.size, r, 0)) == Pow2(0)
    {
      SumSingle(Part(F.owner, f0, r), r);
      SumSingle(Shares(F.owner, F.size, r, 0), r);
    }
  }

  lemma SumSingle(s: seq<nat>, r: nat)
    requires r < |s| && forall i :: 0 <= i < |s| && i != r ==> s[i] == 0
    ensures Sum(s) == s[r]
  {
    SumUpdate(s, r, 0);
    SumZero(s[r := 0]);
  }

  lemma SeedlingChain(f0: seq<nat>, r: nat)
    requires r < |f0|
    ensures ChainOk(Seedlings(f0), |f0|, r) && TreeOk(Seedlings(f0), |f0|, r)
  {
  }

  lemma SeedlingTotals(f0: seq<nat>)
    ensures TotalsOk(f0, f0, Seedlings(f0).size, 0)
  {
    SumZero(Costs(f0, Seedlings(f0).size));
    hide MergeCost, Used, Sum;
  }

  lemma SeedlingsGrown(f0: seq<nat>)
    ensures Grown(Seedlings(f0), f0, 0)
  {
    SeedlingSums(f0);
    SeedlingTotals(f0);
    hide SumsOk, ChainOk, TreeOk, TotalsOk;
    forall r | 0 <= r < |f0| ensures ChainOk(Seedlings(f0), |f0|, r) && TreeOk(Seedlings(f0), |f0|, r) {
      SeedlingChain(f0, r);
    }
  }

  // ----- The finished tree

  /** When only one root is left, its tree holds every symbol; the depths fill the code space
      exactly and no prefix code costs less. */
  ghost predicate OptimalSizes(f0: seq<nat>, size: seq<nat>) {
    && |size| == |f0|
    && (forall k :: 0 <= k < |f0| && f0[k] == 0 ==> size[k] == 0)
    && (exists m :: Fits(f0, size, m) && Kraft(f0, size, m) == Pow2(m))
    && forall l, m :: Fits(f0, l, m) ==> Cost(f0, size) <= Cost(f0, l)
  }

  lemma FinishedOwner(F: Forest, f0: seq<nat>, m: nat, r: nat, k: nat)
    requires Grown(F, f0, m) && r < |f0| && k < |f0| && (forall i :: 0 <= i < |f0| && i != r ==> F.weight[i] == 0)
    ensures F.owner[k] == r <==> f0[k] > 0
  {
    hide ChainOk, TreeOk, SumsOk, Sum, Cost, MergeCost, Used;
  }

  lemma FinishedFills(F: Forest, f0: seq<nat>, m: nat, r: nat)
    requires Grown(F, f0, m) && r < |f0| && F.weight[r] > 0 && forall i :: 0 <= i < |f0| && i != r ==> F.weight[i] == 0
    ensures Fits(f0, F.size, m) && Kraft(f0, F.size, m) == Pow2(m)
  {
    forall k | 0 <= k < |f0| ensures F.owner[k] == r <==> f0[k] > 0 {
      FinishedOwner(F, f0, m, r, k);
    }
    hide ChainOk, TreeOk, OwnersOk, Sum, MergeCost, Used, Pow2;
    assert SumsOk(F, f0, m);
    assert Terms(f0, F.size, m) == Shares(F.owner, F.size, r, m);
  }

  /** The sizes are optimal once the search finds no second root. */
  lemma FinishedOptimal(F: Forest, f0: seq<nat>, m: nat)
    requires Grown(F, f0, m) && Sum(f0) <= SENTINEL && First(F.weight) >= 0 && Second(F.weight) < 0
    ensures OptimalSizes(f0, F.size)
  {
    FoundLightest(F.weight);
    FinishedFills(F, f0, m, First(F.weight));
    forall l, n | Fits(f0, l, n) ensures Cost(f0, F.size) <= Cost(f0, l) {
      MergeCostIsLeast(f0, l, n);
      hide Fits, Cost, ChainOk, TreeOk, OwnersOk, SumsOk;
    }
    hide Fits, Cost, Kraft, ChainOk, TreeOk, SumsOk, MergeCost;
  }

  /** In particular, no prefix code for the symbols in use costs less. */
  lemma OptimalOverPrefixCodes(f0: seq<nat>, size: seq<nat>, code: seq<Word>, m: nat)
    requires OptimalSizes(f0, size) && PrefixFree(f0, code)
    requires forall i :: 0 <= i < |f0| && f0[i] > 0 ==> |code[i]| <= m
    ensures Cost(f0, size) <= Cost(f0, Lengths(code))
  {
    PrefixFreeFits(f0, code, m);
  }
}
