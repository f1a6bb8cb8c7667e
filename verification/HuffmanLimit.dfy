/** Counting the code lengths and limiting them to 16 bits (section K.2 of Rec. ITU-T T.81). */
module HuffmanLimit {
  import opened Powers
  import opened HuffmanCost

  const MAX_CLEN: nat := 32

  // ----- Counts of code lengths

  /** Number of the first n symbols with size k. */
  function Count(size: seq<nat>, k: nat, n: nat): (r: nat)
    requires n <= |size|
    ensures r <= n
  {
    if n == 0 then 0 else Count(size, k, n - 1) + if size[n - 1] == k then 1 else 0
  }

  /** How many of the first n symbols have each size; size 0 means no code. */
  function Tally(size: seq<nat>, n: nat): (r: seq<nat>)
    requires n <= |size|
    ensures |r| == MAX_CLEN + 1 && r[0] == 0
  {
    seq(MAX_CLEN + 1, k requires 0 <= k <= MAX_CLEN => if k == 0 then 0 else Count(size, k, n))
  }

  lemma TallyNext(size: seq<nat>, n: nat)
    requires n < |size| && size[n] <= MAX_CLEN
    ensures Tally(size, n + 1) == if size[n] == 0 then Tally(size, n) else Tally(size, n)[size[n] := Tally(size, n)[size[n]] + 1]
  {
  }

  function Weighed(bits: seq<nat>): (r: seq<nat>)
    requires |bits| == MAX_CLEN + 1
    ensures |r| == |bits|
  {
    seq(|bits|, k requires 0 <= k <= MAX_CLEN => bits[k] * Pow2(MAX_CLEN - k))
  }

  /** The Kraft sum of a list of counts, in units of 2^-32. */
  function KraftOf(bits: seq<nat>): nat
    requires |bits| == MAX_CLEN + 1
  {
    Sum(Weighed(bits))
  }

  lemma KraftSet(bits: seq<nat>, k: nat, v: nat)
    requires |bits| == MAX_CLEN + 1 && k <= MAX_CLEN
    ensures KraftOf(bits[k := v]) + bits[k] * Pow2(MAX_CLEN - k) == KraftOf(bits) + v * Pow2(MAX_CLEN - k)
  {
    hide Pow2;
    SumUpdate(Weighed(bits), k, v * Pow2(MAX_CLEN - k));
    assert Weighed(bits[k := v]) == Weighed(bits)[k := v * Pow2(MAX_CLEN - k)];
  }

  lemma TallyKraftStep(f: seq<nat>, size: seq<nat>, n: nat)
    requires |f| == |size| && n < |size| && size[n] <= MAX_CLEN && (size[n] > 0 <==> f[n] > 0)
    ensures KraftOf(Tally(size, n + 1)) == KraftOf(Tally(size, n)) + Terms(f, size, MAX_CLEN)[n]
  {
    TallyNext(size, n);
    hide Pow2, KraftOf, Tally;
    var t, k := Tally(size, n), size[n];
    KraftSet(t, k, t[k] + 1);
    Distribute(t[k], 1, Pow2(MAX_CLEN - k));
  }

  /** Counting symbols by length keeps the Kraft sum. */
  lemma {:induction false} TallyKraft(f: seq<nat>, size: seq<nat>, n: nat)
    requires |f| == |size| && n <= |size|
    requires forall k :: 0 <= k < |f| ==> size[k] <= MAX_CLEN && (size[k] > 0 <==> f[k] > 0)
    ensures KraftOf(Tally(size, n)) == Sum(Terms(f, size, MAX_CLEN)[..n])
  {
    hide *;
    if n == 0 {
      NothingTallied(f, size);
    } else {
      TallyKraft(f, size, n - 1);
      TallyKraftStep(f, size, n - 1);
      SumOfPrefix(Terms(f, size, MAX_CLEN), n);
    }
  }

  lemma NothingTallied(f: seq<nat>, size: seq<nat>)
    requires |f| == |size|
    ensures KraftOf(Tally(size, 0)) == 0 == Sum(Terms(f, size, MAX_CLEN)[..0])
  {
    SumZero(Weighed(Tally(size, 0)));
  }

  /** Changing the unit of the Kraft sum of lengths that are small enough for both. */
  lemma {:induction false} KraftUnits(f: seq<nat>, l: seq<nat>, m: nat, n: nat)
    requires |l| == |f| && (forall i :: 0 <= i < |f| && f[i] > 0 ==> l[i] <= m && l[i] <= n) && Kraft(f, l, m) == Pow2(m)
    ensures Kraft(f, l, n) == Pow2(n)
    decreases if m > n then m - n else n - m
  {
    if m < n {
      SumTwice(Terms(f, l, m + 1), Terms(f, l, m));
      KraftUnits(f, l, m + 1, n);
    } else if m > n {
      SumTwice(Terms(f, l, m), Terms(f, l, m - 1));
      KraftUnits(f, l, m - 1, n);
    }
  }

  /** With two symbols in use, no code is empty. */
  lemma NoEmptyCode(f: seq<nat>, l: seq<nat>, m: nat, i: nat, j: nat)
    requires Fits(f, l, m) && i < |f| && j < |f| && i != j && f[i] > 0 && f[j] > 0
    ensures l[i] > 0
  {
    SumAtLeastTwo(Terms(f, l, m), i, j);
  }

  // ----- The longest codes come in pairs, and there is a shorter code to split

  lemma {:induction false} SumMultiple(s: seq<nat>, d: nat)
    requires d > 0 && forall i :: 0 <= i < |s| ==> s[i] % d == 0
    ensures Sum(s) % d == 0
  {
    if s != [] {
      SumMultiple(s[..|s| - 1], d);
      AddMultiple(Sum(s[..|s| - 1]), s[|s| - 1], d);
    }
  }

  lemma AddMultiple(x: int, y: int, d: nat)
    requires d > 0 && x % d == 0 && y % d == 0
    ensures (x + y) % d == 0 && (x - y) % d == 0
  {
    FloorBounds(x, d);
    FloorBounds(y, d);
    Distribute(x / d, y / d, d);
    Distribute(x / d, 0 - y / d, d);
    DivUnique(x + y, d, x / d + y / d, 0);
    DivUnique(x - y, d, x / d - y / d, 0);
  }

  lemma ProductMultiple(x: nat, q: nat, d: nat)
    requires d > 0
    ensures x * (q * d) % d == 0
  {
    assert x * (q * d) == x * q * d;
    DivUnique(x * (q * d), d, x * q, 0);
  }

  /** Counts that fill the code space, and use no length above i. */
  ghost predicate Full(bits: seq<nat>, i: nat) {
    && |bits| == MAX_CLEN + 1 && i <= MAX_CLEN && bits[0] == 0
    && KraftOf(bits) == Pow2(MAX_CLEN)
    && forall k :: i < k <= MAX_CLEN ==> bits[k] == 0
  }

  lemma TermMultiple(bits: seq<nat>, i: nat, k: nat)
    requires |bits| == MAX_CLEN + 1 && k < i <= MAX_CLEN
    ensures Weighed(bits)[k] % Pow2(MAX_CLEN + 1 - i) == 0
  {
    Pow2Add(i - k - 1, MAX_CLEN + 1 - i);
    hide Pow2;
    ProductMultiple(bits[k], Pow2(i - k - 1), Pow2(MAX_CLEN + 1 - i));
  }

  lemma OthersMultiple(bits: seq<nat>, i: nat)
    requires Full(bits, i) && 0 < i
    ensures Sum(Weighed(bits)[i := 0]) % Pow2(MAX_CLEN + 1 - i) == 0
  {
    hide *;
    FullParts(bits, i);
    NoneLonger(bits, i);
    var d := Pow2(MAX_CLEN + 1 - i);
    var w: seq<nat> := Weighed(bits)[i := 0];
    forall k | 0 <= k < |w| ensures w[k] % d == 0 {
      if k < i {
        TermMultiple(bits, i, k);
      } else {
        DivUnique(0, d, 0, 0);
      }
    }
    SumMultiple(w, d);
  }

  lemma NoneLonger(bits: seq<nat>, i: nat)
    requires Full(bits, i)
    ensures |bits| == |Weighed(bits)| == MAX_CLEN + 1 && forall k :: i < k < |bits| ==> Weighed(bits)[k] == 0
  {
    hide Sum, Pow2;
    forall k | i < k < |bits| ensures Weighed(bits)[k] == 0 {
      assert bits[k] == 0;
    }
  }

  /** The longest codes are even in number. */
  lemma LongestPaired(bits: seq<nat>, i: nat)
    requires Full(bits, i) && 0 < i
    ensures bits[i] % 2 == 0
  {
    hide *;
    FullParts(bits, i);
    OthersMultiple(bits, i);
    Pow2Add(i - 1, MAX_CLEN + 1 - i);
    SumUpdate(Weighed(bits), i, 0);
    EvenRest(Pow2(i - 1), Sum(Weighed(bits)[i := 0]), bits[i], Pow2(MAX_CLEN - i));
  }

  lemma FullParts(bits: seq<nat>, i: nat)
    requires Full(bits, i) && 0 < i
    ensures |bits| == |Weighed(bits)| == MAX_CLEN + 1 && i <= MAX_CLEN && Weighed(bits)[i] == bits[i] * Pow2(MAX_CLEN - i)
    ensures Sum(Weighed(bits)) == Pow2(MAX_CLEN) && Pow2(MAX_CLEN + 1 - i) == 2 * Pow2(MAX_CLEN - i)
    ensures i - 1 + (MAX_CLEN + 1 - i) == MAX_CLEN
  {
    hide Sum;
  }

  lemma EvenRest(q: nat, rest: nat, x: nat, d: nat)
    requires d > 0 && rest % (2 * d) == 0 && rest + x * d == q * (2 * d)
    ensures x % 2 == 0
  {
    ProductMultiple(1, q, 2 * d);
    AddMultiple(q * (2 * d), rest, 2 * d);
    EvenFactor(x, d);
  }

  lemma EvenFactor(x: nat, d: nat)
    requires d > 0 && x * d % (2 * d) == 0
    ensures x % 2 == 0
  {
    var q := x * d / (2 * d);
    FloorBounds(x * d, 2 * d);
    assert q * (2 * d) == 2 * q * d;
    DivUnique(x * d, d, x, 0);
    DivUnique(x * d, d, 2 * q, 0);
  }

  lemma {:induction false} SumTwoOnly(s: seq<nat>, i: nat, j: nat)
    requires i < |s| && j < |s| && i != j && forall k :: 0 <= k < |s| && k != i && k != j ==> s[k] == 0
    ensures Sum(s) == s[i] + s[j]
  {
    SumUpdate(s, i, 0);
    SumUpdate(s[i := 0], j, 0);
    SumZero(s[i := 0][j := 0]);
  }

  /** Fewer than 2^16 symbols cannot fill the code space with their codes in two lengths only. */
  lemma TwoLengthsTooFew(bits: seq<nat>, i: nat)
    requires |bits| == MAX_CLEN + 1 && 16 < i <= MAX_CLEN && Sum(bits) <= 257
    requires forall k :: 0 <= k <= MAX_CLEN && k != i && k != i - 1 ==> bits[k] == 0
    ensures KraftOf(bits) < Pow2(MAX_CLEN)
  {
    hide *;
    WeighedTwo(bits, i);
    SumTwoOnly(Weighed(bits), i, i - 1);
    SumAtLeastTwo(bits, i, i - 1);
    AtMost(bits[i], Pow2(MAX_CLEN - i));
    AtMost(bits[i - 1], Pow2(MAX_CLEN + 1 - i));
  }

  lemma WeighedTwo(bits: seq<nat>, i: nat)
    requires |bits| == MAX_CLEN + 1 && 16 < i <= MAX_CLEN && forall k :: 0 <= k <= MAX_CLEN && k != i && k != i - 1 ==> bits[k] == 0
    ensures |Weighed(bits)| == |bits| && forall k :: 0 <= k < |bits| && k != i && k != i - 1 ==> Weighed(bits)[k] == 0
    ensures Weighed(bits)[i] == bits[i] * Pow2(MAX_CLEN - i) && Weighed(bits)[i - 1] == bits[i - 1] * Pow2(MAX_CLEN + 1 - i)
    ensures KraftOf(bits) == Sum(Weighed(bits)) && Pow2(MAX_CLEN - i) <= 0x10000 && Pow2(MAX_CLEN + 1 - i) <= 0x10000
    ensures Pow2(MAX_CLEN) == 0x100000000
  {
    hide Pow2, Sum;
    WordPowers(MAX_CLEN - i);
    WordPowers(MAX_CLEN + 1 - i);
    forall k | 0 <= k < |bits| && k != i && k != i - 1 ensures Weighed(bits)[k] == 0 {
      assert bits[k] == 0;
    }
  }

  lemma WordPowers(j: nat)
    requires j <= 16
    ensures Pow2(j) <= 0x10000 && Pow2(32) == 0x100000000
  {
    Pow2Mono(j, 16);
    Pow2Table();
    Pow2Add(16, 16);
  }

  lemma ShorterExists(bits: seq<nat>, i: nat)
    requires Full(bits, i) && i > 16 && Sum(bits) <= 257
    ensures exists j :: 0 < j <= i - 2 && bits[j] > 0
  {
    hide KraftOf, Pow2, Sum;
    if forall j :: 0 < j <= i - 2 ==> bits[j] == 0 {
      TwoLengthsTooFew(bits, i);
    }
  }

  lemma AtMost(x: nat, p: nat)
    requires x <= 257 && p <= 0x10000
    ensures x * p <= 257 * 0x10000
  {
    MulGrows(p, 0x10000, x);
  }

  /** Two longest codes go; their common prefix becomes a code, and a shorter code is split. */
  function Split(bits: seq<nat>, i: nat, j: nat): (r: seq<nat>)
    requires 0 < j <= i - 2 && i < |bits| && bits[i] >= 2 && bits[j] > 0
    ensures |r| == |bits|
  {
    var a := bits[i := bits[i] - 2];
    var b := a[i - 1 := a[i - 1] + 1];
    var c := b[j + 1 := b[j + 1] + 2];
    c[j := c[j] - 1]
  }

  lemma SplitKraft(bits: seq<nat>, i: nat, j: nat)
    requires |bits| == MAX_CLEN + 1 && i <= MAX_CLEN && 0 < j <= i - 2 && bits[i] >= 2 && bits[j] > 0
    ensures KraftOf(Split(bits, i, j)) == KraftOf(bits)
  {
    var a: seq<nat> := bits[i := bits[i] - 2];
    var b: seq<nat> := a[i - 1 := a[i - 1] + 1];
    var c: seq<nat> := b[j + 1 := b[j + 1] + 2];
    var p, q := Pow2(MAX_CLEN - i), Pow2(MAX_CLEN - (j + 1));
    assert Pow2(MAX_CLEN - (i - 1)) == 2 * p && Pow2(MAX_CLEN - j) == 2 * q;
    hide Pow2, KraftOf;
    KraftMoves(bits, i, bits[i] - 2, -2, p);
    KraftMoves(a, i - 1, a[i - 1] + 1, 1, 2 * p);
    KraftMoves(b, j + 1, b[j + 1] + 2, 2, q);
    KraftMoves(c, j, c[j] - 1, -1, 2 * q);
  }

  lemma KraftMoves(bits: seq<nat>, k: nat, v: nat, step: int, p: nat)
    requires |bits| == MAX_CLEN + 1 && k <= MAX_CLEN && v == bits[k] + step && p == Pow2(MAX_CLEN - k)
    ensures KraftOf(bits[k := v]) == KraftOf(bits) + step * p
  {
    hide Pow2, KraftOf;
    KraftSet(bits, k, v);
    Distribute(bits[k], step, p);
  }

  lemma {:induction false} SplitSum(bits: seq<nat>, i: nat, j: nat)
    requires 0 < j <= i - 2 && i < |bits| && bits[i] >= 2 && bits[j] > 0
    ensures Sum(Split(bits, i, j)) == Sum(bits)
  {
    var a: seq<nat> := bits[i := bits[i] - 2];
    var b: seq<nat> := a[i - 1 := a[i - 1] + 1];
    var c: seq<nat> := b[j + 1 := b[j + 1] + 2];
    hide Sum;
    SumUpdate(bits, i, bits[i] - 2);
    SumUpdate(a, i - 1, a[i - 1] + 1);
    SumUpdate(b, j + 1, b[j + 1] + 2);
    SumUpdate(c, j, c[j] - 1);
  }

  lemma SplitKeeps(bits: seq<nat>, i: nat, j: nat)
    requires Full(bits, i) && 0 < j <= i - 2 && bits[i] >= 2 && bits[j] > 0
    ensures Full(Split(bits, i, j), i) && Sum(Split(bits, i, j)) == Sum(bits) && Split(bits, i, j)[i] == bits[i] - 2
  {
    hide Pow2, KraftOf, Sum;
    SplitKraft(bits, i, j);
    SplitSum(bits, i, j);
  }

  // ----- Which codes are shortened

  /** What a step adds to the number of codes of length k: two codes of length i go, their prefix
      becomes one, and of the codes of length j one becomes two. */
  function Change(i: nat, j: nat, k: nat): int {
    (if k == i then -2 else 0) + (if k == i - 1 then 1 else 0) + (if k == j + 1 then 2 else 0) + (if k == j then -1 else 0)
  }

  /** One step: the longest codes have length i, and the code split is the longest that is shorter
      than their prefix. */
  ghost predicate StepAt(was: seq<nat>, now: seq<nat>, i: nat, j: nat) {
    && |was| == |now| == MAX_CLEN + 1 && 16 < i <= MAX_CLEN && 0 < j <= i - 2
    && was[i] > 0 && (forall k :: i < k <= MAX_CLEN ==> was[k] == 0)
    && was[j] > 0 && (forall k :: j < k <= i - 2 ==> was[k] == 0)
    && forall k :: 0 <= k <= MAX_CLEN ==> now[k] == was[k] + Change(i, j, k)
  }

  ghost predicate Stepped(was: seq<nat>, now: seq<nat>) {
    exists i, j :: StepAt(was, now, i, j)
  }

  ghost predicate Steps(chain: seq<seq<nat>>) {
    forall n :: 0 <= n < |chain| - 1 ==> Stepped(chain[n], chain[n + 1])
  }

  /** now is what steps lead to from was, when no code is longer than 16 bits. */
  ghost predicate Limited(was: seq<nat>, now: seq<nat>) {
    && (exists chain :: chain != [] && Steps(chain) && chain[0] == was && chain[|chain| - 1] == now)
    && |now| == MAX_CLEN + 1 && forall k :: 16 < k <= MAX_CLEN ==> now[k] == 0
  }

  lemma StepUnique(was: seq<nat>, a: seq<nat>, b: seq<nat>)
    requires Stepped(was, a) && Stepped(was, b)
    ensures a == b
  {
    var i, j :| StepAt(was, a, i, j);
    var i2, j2 :| StepAt(was, b, i2, j2);
    assert i == i2 && j == j2;
    hide Change;
  }

  lemma {:induction false} ChainsAgree(a: seq<seq<nat>>, b: seq<seq<nat>>)
    requires a != [] && b != [] && Steps(a) && Steps(b) && a[0] == b[0] && Short(a[|a| - 1]) && Short(b[|b| - 1])
    ensures a[|a| - 1] == b[|b| - 1]
    decreases |a|
  {
    if |a| == 1 || |b| == 1 {
      if |a| > 1 {
        NoStepFrom(a[0], a[1]);
      } else if |b| > 1 {
        NoStepFrom(b[0], b[1]);
      }
    } else {
      StepUnique(a[0], a[1], b[1]);
      hide Stepped, Short;
      ChainsAgree(a[1..], b[1..]);
    }
  }

  ghost predicate Short(bits: seq<nat>) {
    |bits| == MAX_CLEN + 1 && forall k :: 16 < k <= MAX_CLEN ==> bits[k] == 0
  }

  lemma NoStepFrom(was: seq<nat>, now: seq<nat>)
    requires Stepped(was, now)
    ensures !Short(was)
  {
  }

  /** The counts that limiting ends with are determined. */
  lemma LimitedUnique(was: seq<nat>, a: seq<nat>, b: seq<nat>)
    requires Limited(was, a) && Limited(was, b)
    ensures a == b
  {
    hide Steps;
    var p :| p != [] && Steps(p) && p[0] == was && p[|p| - 1] == a;
    var q :| q != [] && Steps(q) && q[0] == was && q[|q| - 1] == b;
    ChainsAgree(p, q);
  }

  lemma OneState(was: seq<nat>)
    ensures Steps([was])
  {
  }

  lemma NextState(chain: seq<seq<nat>>, now: seq<nat>)
    requires chain != [] && Steps(chain) && Stepped(chain[|chain| - 1], now)
    ensures Steps(chain + [now])
  {
    hide Stepped;
  }

  /** Lengths of at most 16 bits stay. */
  lemma LimitedShort(was: seq<nat>, now: seq<nat>)
    requires Limited(was, now) && Short(was)
    ensures now == was
  {
    hide Steps;
    var p :| p != [] && Steps(p) && p[0] == was && p[|p| - 1] == now;
    OneState(was);
    ChainsAgree(p, [was]);
  }

  /** One code of each length from 1 to 16 and two of 17: the codes of 15 and 16 bits change, and
      none that is shorter. */
  lemma SeventeenBits(was: seq<nat>, now: seq<nat>)
    requires |was| == MAX_CLEN + 1 && forall k :: 0 <= k <= MAX_CLEN ==> was[k] == if 1 <= k <= 16 then 1 else if k == 17 then 2 else 0
    requires Limited(was, now)
    ensures forall k :: 0 <= k <= MAX_CLEN ==> now[k] == if 1 <= k <= 14 then 1 else if k == 16 then 4 else 0
  {
    var end: seq<nat> := was[15 := 0][16 := 4][17 := 0];
    assert StepAt(was, end, 17, 15);
    OneState(was);
    NextState([was], end);
    var chain := [was] + [end];
    assert chain[0] == was && chain[|chain| - 1] == end;
    hide Steps, Stepped;
    LimitedUnique(was, now, end);
  }

  // ----- The loops

  /** Limits the lengths to 16, a pair of the longest codes at a time: the code space stays full
      and no symbol is lost. */
  method LimitLengths(bits: array<nat>)
    requires bits.Length == MAX_CLEN + 1 && Full(bits[..], MAX_CLEN) && Sum(bits[..]) <= 255
    modifies bits
    ensures Full(bits[..], 16) && Sum(bits[..]) == old(Sum(bits[..]))
    ensures Limited(old(bits[..]), bits[..])
  {
    hide KraftOf, Sum, Steps, Stepped;
    ghost var chain: seq<seq<nat>> := [bits[..]];
    OneState(bits[..]);
    var i := MAX_CLEN;
    while i > 16
      invariant 16 <= i <= MAX_CLEN && Full(bits[..], i) && Sum(bits[..]) == old(Sum(bits[..]))
      invariant chain != [] && Steps(chain) && chain[0] == old(bits[..]) && chain[|chain| - 1] == bits[..]
    {
      while bits[i] > 0
        invariant Full(bits[..], i) && Sum(bits[..]) == old(Sum(bits[..]))
        invariant chain != [] && Steps(chain) && chain[0] == old(bits[..]) && chain[|chain| - 1] == bits[..]
        decreases bits[i]
      {
        SplitPair(bits, i);
        NextState(chain, bits[..]);
        chain := chain + [bits[..]];
      }
      i := i - 1;
    }
  }

  lemma SplitIs(was: seq<nat>, now: seq<nat>, i: nat, j: nat)
    requires 0 < j <= i - 2 && i < |was| == |now| && was[i] >= 2 && was[j] > 0
    requires now == was[i := was[i] - 2][i - 1 := was[i - 1] + 1][j + 1 := now[j + 1]][j := was[j] - 1]
    requires now[j + 1] == (if j + 1 == i - 1 then was[i - 1] + 1 else was[j + 1]) + 2
    ensures now == Split(was, i, j)
  {
  }

  lemma MaxClen()
    ensures MAX_CLEN == 32
  {
  }

  /** One pair of codes of length i is shortened. */
  method SplitPair(bits: array<nat>, i: nat)
    requires bits.Length == MAX_CLEN + 1 && 16 < i <= MAX_CLEN && Full(bits[..], i) && Sum(bits[..]) <= 255 && bits[i] > 0
    modifies bits
    ensures Full(bits[..], i) && Sum(bits[..]) == old(Sum(bits[..])) && bits[i] < old(bits[i])
    ensures Stepped(old(bits[..]), bits[..])
  {
    hide *;
    LongestPaired(bits[..], i);
    ShorterExists(bits[..], i);
    MaxClen();
    var j := i - 2;
    while bits[j] == 0
      invariant 0 < j <= i - 2
      invariant exists k :: 0 < k <= j && bits[k] > 0
      invariant forall k :: j < k <= i - 2 ==> bits[k] == 0
      decreases j
    {
      j := j - 1;
    }
    SplitKeeps(bits[..], i, j);
    bits[i] := bits[i] - 2;
    bits[i - 1] := bits[i - 1] + 1;
    bits[j + 1] := bits[j + 1] + 2;
    bits[j] := bits[j] - 1;
    SplitIs(old(bits[..]), bits[..], i, j);
    SplitSteps(old(bits[..]), i, j);
  }

  lemma SplitSteps(was: seq<nat>, i: nat, j: nat)
    requires Full(was, i) && 16 < i && 0 < j <= i - 2 && was[i] >= 2 && was[j] > 0 && forall k :: j < k <= i - 2 ==> was[k] == 0
    ensures Stepped(was, Split(was, i, j))
  {
    hide KraftOf;
    assert StepAt(was, Split(was, i, j), i, j);
  }
}
