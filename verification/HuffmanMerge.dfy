/** The merging loop of jpeg_gen_optimal_table, on the arrays freq, codesize and others. */
module HuffmanMerge {
  import opened HuffmanCost
  import opened HuffmanForest
  import opened HuffmanDepth

  const NUM_SYMBOLS: nat := 257
  const PSEUDO_SYMBOL: nat := 256

  /** The search for the smallest nonzero count; of ties, the larger symbol number. */
  method FindSmallest(freq: array<nat>, except: int) returns (c: int)
    ensures c == Scan(freq[..], except, SENTINEL, freq.Length).0
  {
    c := -1;
    var v := SENTINEL;
    for i := 0 to freq.Length
      invariant (c, v) == Scan(freq[..], except, SENTINEL, i)
    {
      if freq[i] != 0 && freq[i] <= v && i != except {
        v := freq[i];
        c := i;
      }
    }
  }

  /** The two smallest nonzero counts, or c2 < 0 if there is only one. */
  method FindTwo(freq: array<nat>) returns (c1: int, c2: int)
    ensures c1 == First(freq[..]) && c2 == Second(freq[..])
  {
    hide Scan;
    c1 := FindSmallest(freq, -1);
    c2 := FindSmallest(freq, c1);
  }

  function BumpedUpTo(size: seq<nat>, chain: seq<nat>, n: nat): (r: seq<nat>)
    requires n <= |chain|
    ensures |r| == |size|
  {
    seq(|size|, k requires 0 <= k < |size| => if k in chain[..n] then size[k] + 1 else size[k])
  }

  lemma BumpNext(size: seq<nat>, chain: seq<nat>, n: nat)
    requires n < |chain| && Distinct(chain) && chain[n] < |size|
    ensures BumpedUpTo(size, chain, n)[chain[n]] == size[chain[n]]
    ensures BumpedUpTo(size, chain, n + 1) == BumpedUpTo(size, chain, n)[chain[n] := size[chain[n]] + 1]
  {
    assert chain[..n + 1] == chain[..n] + [chain[n]];
    assert forall j :: 0 <= j < n ==> chain[..n][j] != chain[n];
  }

  /** Increments the codesize of everything in a branch; its last symbol. */
  method BumpBranch(codesize: array<nat>, others: array<int>, root: nat, ghost chain: seq<nat>) returns (c: nat)
    requires others.Length == codesize.Length && Linked(chain, others[..]) && Distinct(chain)
    requires chain != [] && chain[0] == root
    modifies codesize
    ensures c == chain[|chain| - 1]
    ensures codesize[..] == BumpedUpTo(old(codesize[..]), chain, |chain|)
  {
    c := root;
    BumpNext(codesize[..], chain, 0);
    assert BumpedUpTo(codesize[..], chain, 0) == codesize[..];
    codesize[c] := codesize[c] + 1;
    ghost var n := 1;
    assert forall i :: 0 <= i < |chain| ==> others[..][chain[i]] == others[chain[i]];
    while others[c] >= 0
      invariant 1 <= n <= |chain| && c == chain[n - 1] && c < codesize.Length
      invariant others[c] == if n < |chain| then chain[n] else -1
      invariant codesize[..] == BumpedUpTo(old(codesize[..]), chain, n)
      decreases |chain| - n
    {
      BumpNext(old(codesize[..]), chain, n);
      c := others[c];
      codesize[c] := codesize[c] + 1;
      n := n + 1;
    }
  }

  lemma OwnedIffInChain(F: Forest, f0: seq<nat>, m: nat, c: nat, k: nat)
    requires Grown(F, f0, m) && c < |f0| && k < |f0|
    ensures k in F.chain[c] <==> F.owner[k] == c
  {
    assert ChainOk(F, |f0|, c);
    hide TreeOk, SumsOk, TotalsOk, Linked, Distinct;
  }

  lemma BothBumped(F: Forest, f0: seq<nat>, m: nat, c1: nat, c2: nat)
    requires Joinable(F, f0, m, c1, c2)
    ensures var a := BumpedUpTo(F.size, F.chain[c1], |F.chain[c1]|);
      BumpedUpTo(a, F.chain[c2], |F.chain[c2]|) == Bumped(F, c1, c2)
  {
    hide Grown, ChainOk;
    ShapeOf(F, f0, m);
    var a, b := F.chain[c1], F.chain[c2];
    forall k | 0 <= k < |f0| ensures (k in a <==> F.owner[k] == c1) && (k in b <==> F.owner[k] == c2) {
      OwnedIffInChain(F, f0, m, c1, k);
      OwnedIffInChain(F, f0, m, c2, k);
    }
    assert a[..|a|] == a && b[..|b|] == b;
  }

  /** The arrays hold the forest F. */
  ghost predicate Holds(freq: array<nat>, codesize: array<nat>, others: array<int>, F: Forest)
    reads freq, codesize, others
  {
    freq[..] == F.weight && codesize[..] == F.size && others[..] == F.next
  }

  /** Both chains can be walked, the second one also after it has been linked to the first. */
  lemma Walkable(F: Forest, f0: seq<nat>, m: nat, c1: nat, c2: nat)
    requires Joinable(F, f0, m, c1, c2)
    ensures Linked(F.chain[c1], F.next) && Distinct(F.chain[c1]) && Distinct(F.chain[c2])
    ensures F.chain[c1] != [] && F.chain[c1][0] == c1 && F.chain[c2] != [] && F.chain[c2][0] == c2
    ensures F.chain[c1][|F.chain[c1]| - 1] < |f0|
    ensures Linked(F.chain[c2], F.next[F.chain[c1][|F.chain[c1]| - 1] := c2])
  {
    hide Grown;
    ShapeOf(F, f0, m);
    var last := F.chain[c1][|F.chain[c1]| - 1];
    assert F.owner[last] == c1;
    assert forall i :: 0 <= i < |F.chain[c2]| ==> F.chain[c2][i] != last;
  }

  /** Merges the two branches: the counts, the depths and the chain. */
  method MergeBranches(freq: array<nat>, codesize: array<nat>, others: array<int>, c1: nat, c2: nat,
      ghost F: Forest, ghost f0: seq<nat>, ghost m: nat) returns (ghost G: Forest)
    requires Holds(freq, codesize, others, F) && freq != codesize
    requires Joinable(F, f0, m, c1, c2) && Sum(f0) <= SENTINEL
    requires c1 == First(F.weight) && c2 == Second(F.weight)
    modifies freq, codesize, others
    ensures Holds(freq, codesize, others, G) && Grown(G, f0, m + 1) && F.chain != [] && G == Join(F, c1, c2)
  {
    hide Grown, ChainOk, First, Second, Sum, Linked, Distinct, Bumped, BumpedUpTo, Reowned;
    ShapeOf(F, f0, m);
    Walkable(F, f0, m, c1, c2);
    BothBumped(F, f0, m, c1, c2);
    JoinGrown(F, f0, m, c1, c2);
    G := Join(F, c1, c2);
    freq[c1] := freq[c1] + freq[c2];
    freq[c2] := 0;
    assert freq[..] == G.weight;
    hide Merge;
    var last := BumpBranch(codesize, others, c1, F.chain[c1]);
    others[last] := c2;
    assert others[..] == G.next;
    last := BumpBranch(codesize, others, c2, F.chain[c2]);
  }

  lemma SomeRootLeft(F: Forest, f0: seq<nat>, m: nat)
    requires Grown(F, f0, m) && 0 < Sum(f0) <= SENTINEL
    ensures First(F.weight) >= 0
  {
    FoundLightest(F.weight);
    if First(F.weight) < 0 {
      SumZero(F.weight);
    }
  }

  lemma MergesLeft(F: Forest, f0: seq<nat>, m: nat)
    requires Grown(F, f0, m)
    ensures m <= Used(f0)
  {
    hide Used, ChainOk, TreeOk, OwnersOk, SumsOk;
  }

  /** One turn of the loop; more is false if there was only one root. */
  method MergeOnce(freq: array<nat>, codesize: array<nat>, others: array<int>, ghost F: Forest, ghost f0: seq<nat>, ghost m: nat)
      returns (more: bool, ghost G: Forest)
    requires Holds(freq, codesize, others, F) && freq != codesize && Grown(F, f0, m) && 0 < Sum(f0) <= SENTINEL
    modifies freq, codesize, others
    ensures Holds(freq, codesize, others, G) && Grown(G, f0, if more then m + 1 else m)
    ensures more ==> TwoLeft(F) && G == JoinLightest(F)
    ensures !more ==> G == F && First(F.weight) >= 0 && Second(F.weight) < 0 && !TwoLeft(F)
  {
    hide Grown, Sum, First, Second;
    ShapeOf(F, f0, m);
    var c1, c2 := FindTwo(freq);
    if c2 < 0 {
      SomeRootLeft(F, f0, m);
      return false, F;
    }
    MayJoin(F, f0, m, c1, c2);
    hide ChainOk;
    G := MergeBranches(freq, codesize, others, c1, c2, F, f0, m);
    more := true;
  }

  /** How far the merging has got. */
  ghost predicate Merging(F: Forest, f0: seq<nat>, m: nat, more: bool) {
    && Grown(F, f0, m) && m <= Used(f0) && 0 < Sum(f0) <= SENTINEL
    && AfterJoins(F, Used(f0) - m) == AfterJoins(Seedlings(f0), Used(f0))
    && (!more ==> First(F.weight) >= 0 && Second(F.weight) < 0 && !TwoLeft(F))
  }

  lemma MergingStarts(f0: seq<nat>)
    requires 0 < Sum(f0) <= SENTINEL
    ensures Merging(Seedlings(f0), f0, 0, true)
  {
    SeedlingsGrown(f0);
    hide Grown, Seedlings, Sum, Used, AfterJoins;
  }

  lemma MergingNext(F: Forest, f0: seq<nat>, m: nat, more: bool, G: Forest)
    requires Merging(F, f0, m, true) && Grown(G, f0, if more then m + 1 else m)
    requires more ==> TwoLeft(F) && G == JoinLightest(F)
    requires !more ==> G == F && First(F.weight) >= 0 && Second(F.weight) < 0 && !TwoLeft(F)
    ensures Merging(G, f0, if more then m + 1 else m, more)
  {
    hide Grown, Seedlings, Sum, Used, AfterJoins, First, Second, TwoLeft, JoinLightest;
    if more {
      MergesLeft(G, f0, m + 1);
      NextJoin(F, Used(f0) - m);
    }
  }

  lemma MergingEnds(F: Forest, f0: seq<nat>, m: nat)
    requires Merging(F, f0, m, false)
    ensures Grown(F, f0, m) && First(F.weight) >= 0 && Second(F.weight) < 0 && OptimalSizes(f0, F.size) && F.size == MergedSizes(f0)
  {
    NextJoin(F, Used(f0) - m);
    hide Grown, Seedlings, Sum, Used, AfterJoins, First, Second, TwoLeft, OptimalSizes;
    FinishedOptimal(F, f0, m);
  }

  lemma MergingFacts(F: Forest, f0: seq<nat>, m: nat, more: bool)
    requires Merging(F, f0, m, more)
    ensures Grown(F, f0, m) && m <= Used(f0) && 0 < Sum(f0) <= SENTINEL
  {
  }

  lemma Seeds(freq: array<nat>, codesize: array<nat>, others: array<int>)
    requires freq.Length == codesize.Length == others.Length && Sum(freq[..]) <= SENTINEL
    requires exists i :: 0 <= i < freq.Length && freq[i] > 0
    requires forall i :: 0 <= i < freq.Length ==> codesize[i] == 0 && others[i] == -1
    ensures Holds(freq, codesize, others, Seedlings(freq[..])) && 0 < Sum(freq[..]) <= SENTINEL
  {
    var f0 := freq[..];
    var i: nat :| i < |f0| && f0[i] > 0;
    hide Sum;
    SumAtLeast(f0, i);
  }

  lemma HeldSizes(freq: array<nat>, codesize: array<nat>, others: array<int>, F: Forest)
    requires Holds(freq, codesize, others, F)
    ensures codesize[..] == F.size
  {
  }

  /** Huffman's procedure: the depths are optimal lengths, and others chains the leaves of
      the one tree that is left. */
  method BuildTree(freq: array<nat>, codesize: array<nat>, others: array<int>) returns (ghost F: Forest, ghost m: nat)
    requires freq.Length == codesize.Length == others.Length && freq != codesize && Sum(freq[..]) <= SENTINEL
    requires exists i :: 0 <= i < freq.Length && freq[i] > 0
    requires forall i :: 0 <= i < freq.Length ==> codesize[i] == 0 && others[i] == -1
    modifies freq, codesize, others
    ensures Holds(freq, codesize, others, F) && Grown(F, old(freq[..]), m)
    ensures First(F.weight) >= 0 && Second(F.weight) < 0
    ensures OptimalSizes(old(freq[..]), codesize[..]) && codesize[..] == MergedSizes(old(freq[..]))
  {
    hide *;
    ghost var f0 := freq[..];
    Seeds(freq, codesize, others);
    F, m := Seedlings(f0), 0;
    MergingStarts(f0);
    var more := true;
    while more
      invariant Holds(freq, codesize, others, F) && Merging(F, f0, m, more)
      decreases Used(f0) - m, more
    {
      ghost var E := F;
      MergingFacts(F, f0, m, more);
      more, F := MergeOnce(freq, codesize, others, F, f0, m);
      MergingNext(E, f0, m, more, F);
      m := if more then m + 1 else m;
      MergingFacts(F, f0, m, more);
    }
    MergingEnds(F, f0, m);
    HeldSizes(freq, codesize, others, F);
  }
}
