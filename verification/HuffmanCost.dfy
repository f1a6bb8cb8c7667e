/** Optimality of Huffman's merging, for weights in a table where zero means unused.
    Code lengths are judged by the Kraft sum, and every prefix code obeys it. */
module HuffmanCost {
  import opened Powers

  // ----- Sums

  function Sum(s: seq<nat>): nat {
    if s == [] then 0 else Sum(s[..|s| - 1]) + s[|s| - 1]
  }

  lemma SumOfPrefix(s: seq<nat>, n: nat)
    requires 0 < n <= |s|
    ensures Sum(s[..n]) == Sum(s[..n - 1]) + s[n - 1]
  {
    assert s[..n][..n - 1] == s[..n - 1];
  }

  lemma {:induction false} SumUpdate(s: seq<nat>, i: nat, v: nat)
    requires i < |s|
    ensures Sum(s[i := v]) + s[i] == Sum(s) + v
  {
    var n := |s| - 1;
    if i == n {
      assert s[i := v][..n] == s[..n];
    } else {
      SumUpdate(s[..n], i, v);
      assert s[i := v][..n] == s[..n][i := v];
    }
  }

  lemma {:induction false} SumAdd(s: seq<nat>, a: seq<nat>, b: seq<nat>)
    requires |s| == |a| == |b| && forall i :: 0 <= i < |s| ==> s[i] == a[i] + b[i]
    ensures Sum(s) == Sum(a) + Sum(b)
  {
    if s != [] {
      SumAdd(s[..|s| - 1], a[..|s| - 1], b[..|s| - 1]);
    }
  }

  lemma {:induction false} SumTwice(s: seq<nat>, h: seq<nat>)
    requires |s| == |h| && forall i :: 0 <= i < |s| ==> s[i] == 2 * h[i]
    ensures Sum(s) == 2 * Sum(h)
  {
    if s != [] {
      SumTwice(s[..|s| - 1], h[..|s| - 1]);
    }
  }

  lemma {:induction false} SumZero(s: seq<nat>)
    requires forall i :: 0 <= i < |s| ==> s[i] == 0
    ensures Sum(s) == 0
  {
    if s != [] {
      SumZero(s[..|s| - 1]);
    }
  }

  lemma {:induction false} SumAtLeast(s: seq<nat>, i: nat)
    requires i < |s|
    ensures s[i] <= Sum(s)
  {
    if i < |s| - 1 {
      SumAtLeast(s[..|s| - 1], i);
    }
  }

  lemma SumAtLeastTwo(s: seq<nat>, i: nat, j: nat)
    requires i < |s| && j < |s| && i != j
    ensures s[i] + s[j] <= Sum(s)
  {
    SumUpdate(s, i, 0);
    SumAtLeast(s[i := 0], j);
  }

  // ----- Cost and Kraft sum of code lengths; only symbols with a positive weight count

  function Costs(f: seq<nat>, l: seq<nat>): (r: seq<nat>)
    requires |l| == |f|
    ensures |r| == |f|
  {
    seq(|f|, i requires 0 <= i < |f| => f[i] * l[i])
  }

  /** Bits used when symbol i is coded f[i] times with l[i] bits. */
  function Cost(f: seq<nat>, l: seq<nat>): nat
    requires |l| == |f|
  {
    Sum(Costs(f, l))
  }

  function Terms(f: seq<nat>, l: seq<nat>, m: nat): (r: seq<nat>)
    requires |l| == |f|
    ensures |r| == |f|
  {
    seq(|f|, i requires 0 <= i < |f| => if f[i] > 0 && l[i] <= m then Pow2(m - l[i]) else 0)
  }

  /** The Kraft sum in units of 2^-m. */
  function Kraft(f: seq<nat>, l: seq<nat>, m: nat): nat
    requires |l| == |f|
  {
    Sum(Terms(f, l, m))
  }

  /** The lengths are at most m, and some prefix code could have them. */
  ghost predicate Fits(f: seq<nat>, l: seq<nat>, m: nat) {
    && |l| == |f|
    && (forall i :: 0 <= i < |f| && f[i] > 0 ==> l[i] <= m)
    && Kraft(f, l, m) <= Pow2(m)
  }

  /** Nothing else in use weighs less than c, leaving `except` aside. */
  ghost predicate Lightest(f: seq<nat>, c: int, except: int) {
    && 0 <= c < |f| && f[c] > 0 && c != except
    && forall i :: 0 <= i < |f| && f[i] > 0 && i != except ==> f[c] <= f[i]
  }

  // ----- The exchange argument

  lemma SetLength(f: seq<nat>, l: seq<nat>, m: nat, i: nat, v: nat)
    requires |l| == |f| && i < |f| && f[i] > 0 && l[i] <= m && v <= m
    ensures Cost(f, l[i := v]) + f[i] * l[i] == Cost(f, l) + f[i] * v
    ensures Kraft(f, l[i := v], m) + Pow2(m - l[i]) == Kraft(f, l, m) + Pow2(m - v)
  {
    SumUpdate(Costs(f, l), i, f[i] * v);
    assert Costs(f, l[i := v]) == Costs(f, l)[i := f[i] * v];
    SumUpdate(Terms(f, l, m), i, Pow2(m - v));
    assert Terms(f, l[i := v], m) == Terms(f, l, m)[i := Pow2(m - v)];
  }

  lemma CrossLess(a: nat, b: nat, x: nat, y: nat)
    requires a <= b && x <= y
    ensures a * y + b * x <= a * x + b * y
  {
    Distribute(a, b - a, y);
    Distribute(a, b - a, x);
    MulGrows(x, y, b - a);
  }

  lemma MulGrows(x: nat, y: nat, m: nat)
    requires x <= y
    ensures m * x <= m * y
  {
    assert m * (y - x) >= 0;
    Distribute(x, y - x, m);
  }

  /** Giving the longer of two codes to the lighter symbol costs nothing. */
  lemma Swap(f: seq<nat>, l: seq<nat>, m: nat, c: nat, x: nat) returns (l2: seq<nat>)
    requires Fits(f, l, m) && c < |f| && x < |f| && 0 < f[c] <= f[x] && l[c] <= l[x]
    ensures Fits(f, l2, m) && Cost(f, l2) <= Cost(f, l) && l2 == l[c := l[x]][x := l[c]]
  {
    l2 := l[c := l[x]][x := l[c]];
    if c == x {
      assert l2 == l;
    } else {
      var l1 := l[c := l[x]];
      SetLength(f, l, m, c, l[x]);
      SetLength(f, l1, m, x, l[c]);
      CrossLess(f[c], f[x], l[c], l[x]);
    }
  }

  /** With all lengths below m the Kraft sum can be counted in larger units. */
  lemma CoarserUnits(f: seq<nat>, l: seq<nat>, m: nat)
    requires Fits(f, l, m) && m > 0 && forall i :: 0 <= i < |f| && f[i] > 0 ==> l[i] < m
    ensures Fits(f, l, m - 1)
  {
    SumTwice(Terms(f, l, m), Terms(f, l, m - 1));
  }

  lemma TwoSymbolsNeedABit(f: seq<nat>, l: seq<nat>, m: nat, c1: nat, c2: nat)
    requires Fits(f, l, m) && c1 < |f| && c2 < |f| && c1 != c2 && f[c1] > 0 && f[c2] > 0
    ensures m > 0
  {
    if m == 0 {
      SumAtLeastTwo(Terms(f, l, 0), c1, c2);
    }
  }

  lemma {:induction false} SumEven(s: seq<nat>)
    requires forall i :: 0 <= i < |s| ==> s[i] % 2 == 0
    ensures Sum(s) % 2 == 0
  {
    if s != [] {
      SumEven(s[..|s| - 1]);
    }
  }

  /** A longest code without a partner can lose its last bit. */
  lemma Shorten(f: seq<nat>, l: seq<nat>, m: nat, c: nat)
    requires Fits(f, l, m) && m > 0 && c < |f| && f[c] > 0 && l[c] == m
    requires forall i :: 0 <= i < |f| && f[i] > 0 && i != c ==> l[i] < m
    ensures Fits(f, l[c := m - 1], m - 1) && Cost(f, l[c := m - 1]) <= Cost(f, l)
  {
    var even := Terms(f, l, m)[c := 0];
    SetLength(f, l, m, c, m - 1);
    MulGrows(m - 1, m, f[c]);
    OthersEven(f, l, m, c, even);
    SumUpdate(Terms(f, l, m), c, 0);
    SumEven(even);
    assert Terms(f, l, m)[c] == Pow2(0) == 1 && Pow2(1) == 2 && Pow2(m) == 2 * Pow2(m - 1);
    assert Fits(f, l[c := m - 1], m) by { hide Terms, Sum, Pow2, Cost; }
    hide Fits, Kraft, Terms, Sum, Pow2, Cost;
    CoarserUnits(f, l[c := m - 1], m);
  }

  lemma OthersEven(f: seq<nat>, l: seq<nat>, m: nat, c: nat, even: seq<nat>)
    requires |l| == |f| && m > 0 && c < |f| && forall i :: 0 <= i < |f| && f[i] > 0 && i != c ==> l[i] < m
    requires even == Terms(f, l, m)[c := 0]
    ensures forall i :: 0 <= i < |even| ==> even[i] % 2 == 0
  {
    hide Pow2;
    forall i | 0 <= i < |f| ensures even[i] % 2 == 0 {
      if f[i] > 0 && i != c {
        EvenPower(m - l[i]);
      }
    }
  }

  lemma EvenPower(k: nat)
    requires k > 0
    ensures Pow2(k) % 2 == 0
  {
    assert Pow2(k) == 2 * Pow2(k - 1);
  }

  /** Some lengths no dearer than l give the two lightest symbols the greatest length. */
  lemma {:induction false} Exchange(f: seq<nat>, l: seq<nat>, m: nat, c1: nat, c2: nat) returns (l2: seq<nat>, m2: nat)
    requires Fits(f, l, m) && Lightest(f, c1, -1) && Lightest(f, c2, c1)
    ensures Fits(f, l2, m2) && m2 > 0 && l2[c1] == l2[c2] == m2 && Cost(f, l2) <= Cost(f, l)
    decreases m
  {
    TwoSymbolsNeedABit(f, l, m, c1, c2);
    if x: nat :| x < |f| && f[x] > 0 && l[x] == m {
      var l1 := Swap(f, l, m, c1, x);
      if y: nat :| y < |f| && f[y] > 0 && y != c1 && l1[y] == m {
        l2 := Swap(f, l1, m, c2, y);
        m2 := m;
      } else {
        Shorten(f, l1, m, c1);
        l2, m2 := Exchange(f, l1[c1 := m - 1], m - 1, c1, c2);
      }
    } else {
      CoarserUnits(f, l, m);
      l2, m2 := Exchange(f, l, m - 1, c1, c2);
    }
  }

  // ----- Merging

  function Merge(f: seq<nat>, c1: nat, c2: nat): (r: seq<nat>)
    requires c1 < |f| && c2 < |f|
    ensures |r| == |f|
  {
    f[c1 := f[c1] + f[c2]][c2 := 0]
  }

  lemma MergedKraft(f: seq<nat>, l: seq<nat>, m: nat, c1: nat, c2: nat)
    requires |l| == |f| && c1 < |f| && c2 < |f| && c1 != c2 && f[c1] > 0 && f[c2] > 0
    requires m > 0 && l[c1] == l[c2] == m
    ensures Kraft(Merge(f, c1, c2), l[c1 := m - 1], m) == Kraft(f, l, m)
  {
    assert Pow2(0) == 1 && Pow2(1) == 2;
    var t := Terms(f, l, m);
    SumUpdate(t, c1, 2);
    SumUpdate(t[c1 := 2], c2, 0);
    assert Terms(Merge(f, c1, c2), l[c1 := m - 1], m) == t[c1 := 2][c2 := 0];
  }

  lemma MergedCost(f: seq<nat>, l: seq<nat>, m: nat, c1: nat, c2: nat)
    requires |l| == |f| && c1 < |f| && c2 < |f| && c1 != c2 && m > 0 && l[c1] == l[c2] == m
    ensures Cost(f, l) == Cost(Merge(f, c1, c2), l[c1 := m - 1]) + f[c1] + f[c2]
  {
    var s, v := Costs(f, l), (f[c1] + f[c2]) * (m - 1);
    SumUpdate(s, c1, v);
    SumUpdate(s[c1 := v], c2, 0);
    assert Costs(Merge(f, c1, c2), l[c1 := m - 1]) == s[c1 := v][c2 := 0];
    OneLess(f[c1], f[c2], m);
  }

  lemma OneLess(x: nat, y: nat, m: nat)
    requires m > 0
    ensures x * m + y * m == (x + y) * (m - 1) + x + y
  {
    Distribute(x, y, m);
    Distribute(m - 1, 1, x + y);
  }

  /** A code for the merged weights from one in which the two symbols are longest. */
  lemma MergedFits(f: seq<nat>, l: seq<nat>, m: nat, c1: nat, c2: nat)
    requires Fits(f, l, m) && c1 < |f| && c2 < |f| && c1 != c2 && f[c1] > 0 && f[c2] > 0
    requires m > 0 && l[c1] == l[c2] == m
    ensures Fits(Merge(f, c1, c2), l[c1 := m - 1], m)
    ensures Cost(f, l) == Cost(Merge(f, c1, c2), l[c1 := m - 1]) + f[c1] + f[c2]
  {
    MergedKraft(f, l, m, c1, c2);
    MergedCost(f, l, m, c1, c2);
    hide Kraft, Cost;
  }

  function Ones(f: seq<nat>): (r: seq<nat>)
    ensures |r| == |f|
  {
    seq(|f|, i requires 0 <= i < |f| => if f[i] > 0 then 1 else 0)
  }

  /** Number of weights in use. */
  function Used(f: seq<nat>): nat {
    Sum(Ones(f))
  }

  lemma MergeUses(f: seq<nat>, c1: nat, c2: nat)
    requires c1 < |f| && c2 < |f| && c1 != c2 && f[c1] > 0 && f[c2] > 0
    ensures Used(Merge(f, c1, c2)) + 1 == Used(f)
  {
    SumUpdate(Ones(f), c2, 0);
    assert Ones(Merge(f, c1, c2)) == Ones(f)[c2 := 0];
  }

  // ----- Which symbols are merged

  /** Scanning the first k weights for the smallest positive one at most `sentinel`, leaving
      `except` aside; of equals the last wins. */
  function Scan(f: seq<nat>, except: int, sentinel: nat, k: nat): (r: (int, nat))
    requires k <= |f|
    ensures -1 <= r.0 < k && (r.0 == -1 ==> r.1 == sentinel)
    ensures r.0 >= 0 ==> r.0 != except && r.1 == f[r.0] > 0
    ensures r.1 <= sentinel && forall i :: 0 <= i < k && f[i] > 0 && i != except ==> r.1 <= f[i] || f[i] > sentinel
    ensures r.0 == -1 ==> forall i :: 0 <= i < k && f[i] > 0 && i != except ==> f[i] > sentinel
  {
    if k == 0 then (-1, sentinel) else
    var (c, v) := Scan(f, except, sentinel, k - 1);
    if f[k - 1] > 0 && f[k - 1] <= v && k - 1 != except then (k - 1, f[k - 1]) else (c, v)
  }

  const SENTINEL: nat := 1000000000

  function First(f: seq<nat>): int {
    Scan(f, -1, SENTINEL, |f|).0
  }

  function Second(f: seq<nat>): int {
    Scan(f, First(f), SENTINEL, |f|).0
  }

  /** As long as the total stays below the sentinel, the two symbols found are the lightest. */
  lemma FoundLightest(f: seq<nat>)
    requires Sum(f) <= SENTINEL
    ensures First(f) >= 0 ==> Lightest(f, First(f), -1)
    ensures First(f) < 0 ==> forall i :: 0 <= i < |f| ==> f[i] == 0
    ensures Second(f) >= 0 ==> First(f) >= 0 && Lightest(f, Second(f), First(f))
    ensures Second(f) < 0 ==> forall i :: 0 <= i < |f| && i != First(f) ==> f[i] == 0
  {
    forall i | 0 <= i < |f| ensures f[i] <= SENTINEL {
      SumAtLeast(f, i);
    }
  }

  lemma {:induction false} MergeTotal(f: seq<nat>, c1: nat, c2: nat)
    requires c1 < |f| && c2 < |f| && c1 != c2
    ensures Sum(Merge(f, c1, c2)) == Sum(f)
  {
    hide Sum;
    var g: seq<nat> := f[c1 := f[c1] + f[c2]];
    SumUpdate(f, c1, f[c1] + f[c2]);
    SumUpdate(g, c2, 0);
    assert Merge(f, c1, c2) == g[c2 := 0];
  }

  /** What Huffman's procedure pays: every merge costs one bit for each use of either part. */
  function MergeCost(f: seq<nat>): nat
    requires Sum(f) <= SENTINEL
    decreases Used(f)
  {
    if Second(f) < 0 then 0 else
    FoundLightest(f);
    MergeUses(f, First(f), Second(f));
    MergeTotal(f, First(f), Second(f));
    f[First(f)] + f[Second(f)] + MergeCost(Merge(f, First(f), Second(f)))
  }

  /** No code lengths that obey the Kraft inequality cost less. */
  lemma {:induction false} MergeCostIsLeast(f: seq<nat>, l: seq<nat>, m: nat)
    requires Sum(f) <= SENTINEL && Fits(f, l, m)
    ensures MergeCost(f) <= Cost(f, l)
    decreases Used(f)
  {
    if Second(f) >= 0 {
      var c1, c2 := First(f), Second(f);
      FoundLightest(f);
      hide Cost, First, Second, Kraft;
      var l2, m2 := Exchange(f, l, m, c1, c2);
      MergedFits(f, l2, m2, c1, c2);
      MergeUses(f, c1, c2);
      MergeTotal(f, c1, c2);
      MergeCostIsLeast(Merge(f, c1, c2), l2[c1 := m2 - 1], m2);
    }
  }

  // ----- Prefix codes

  type Word = seq<bool>

  /** No code word of a symbol in use begins with another's. */
  ghost predicate PrefixFree(f: seq<nat>, code: seq<Word>) {
    |code| == |f| && forall i, j :: 0 <= i < |f| && 0 <= j < |f| && i != j && f[i] > 0 && f[j] > 0 ==> !(code[i] <= code[j])
  }

  function Lengths(code: seq<Word>): (l: seq<nat>)
    ensures |l| == |code| && forall i :: 0 <= i < |l| ==> l[i] == |code[i]|
  {
    seq(|code|, i requires 0 <= i < |code| => |code[i]|)
  }

  /** The symbols whose code begins with this bit, and the rest of their codes. */
  function Half(f: seq<nat>, code: seq<Word>, bit: bool): (g: seq<nat>)
    requires |code| == |f|
    ensures |g| == |f|
  {
    seq(|f|, i requires 0 <= i < |f| => if code[i] != [] && code[i][0] == bit then f[i] else 0)
  }

  function Tails(code: seq<Word>): (r: seq<Word>)
    ensures |r| == |code|
  {
    seq(|code|, i requires 0 <= i < |code| => if code[i] == [] then [] else code[i][1..])
  }

  lemma HalfPrefixFree(f: seq<nat>, code: seq<Word>, bit: bool)
    requires PrefixFree(f, code)
    ensures PrefixFree(Half(f, code, bit), Tails(code))
  {
    var g, t := Half(f, code, bit), Tails(code);
    forall i, j | 0 <= i < |f| && 0 <= j < |f| && i != j && g[i] > 0 && g[j] > 0 ensures !(t[i] <= t[j]) {
      assert code[i] == [bit] + t[i] && code[j] == [bit] + t[j];
    }
  }

  lemma SingleTerm(f: seq<nat>, code: seq<Word>, m: nat, x: nat)
    requires PrefixFree(f, code) && x < |f| && f[x] > 0 && code[x] == []
    ensures Kraft(f, Lengths(code), m) == Pow2(m)
  {
    var t := Terms(f, Lengths(code), m);
    forall i | 0 <= i < |f| && i != x ensures t[i] == 0 {
      assert code[x] <= code[i];
    }
    SumUpdate(t, x, 0);
    SumZero(t[x := 0]);
  }

  lemma TermsSplit(f: seq<nat>, code: seq<Word>, m: nat)
    requires |code| == |f| && m > 0 && forall i :: 0 <= i < |f| && f[i] > 0 ==> 0 < |code[i]| <= m
    ensures var t := Lengths(Tails(code));
      Kraft(f, Lengths(code), m) == Kraft(Half(f, code, false), t, m - 1) + Kraft(Half(f, code, true), t, m - 1)
  {
    hide Pow2, Sum;
    var t := Lengths(Tails(code));
    SumAdd(Terms(f, Lengths(code), m), Terms(Half(f, code, false), t, m - 1), Terms(Half(f, code, true), t, m - 1));
  }

  /** The Kraft inequality: prefix codes fit. */
  lemma {:induction false} PrefixFreeFits(f: seq<nat>, code: seq<Word>, m: nat)
    requires PrefixFree(f, code) && forall i :: 0 <= i < |f| && f[i] > 0 ==> |code[i]| <= m
    ensures Fits(f, Lengths(code), m)
    decreases m
  {
    if x: nat :| x < |f| && f[x] > 0 && code[x] == [] {
      SingleTerm(f, code, m, x);
    } else if m == 0 {
      SumZero(Terms(f, Lengths(code), m));
    } else {
      var a, b, t := Half(f, code, false), Half(f, code, true), Tails(code);
      HalfPrefixFree(f, code, false);
      HalfPrefixFree(f, code, true);
      TermsSplit(f, code, m);
      hide Kraft, PrefixFree;
      PrefixFreeFits(a, t, m - 1);
      PrefixFreeFits(b, t, m - 1);
    }
  }
}
