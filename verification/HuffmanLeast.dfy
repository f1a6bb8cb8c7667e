/** How good the finished tables are: with lengths that need no limiting, the symbols and one use of
    the code that is kept free take no more bits than under any other code that keeps one free. */
module HuffmanLeast {
  import opened Powers
  import opened HuffmanCost
  import opened HuffmanForest
  import opened HuffmanDepth
  import opened HuffmanMerge
  import opened HuffmanLimit
  import opened HuffmanCodes
  import opened HuffmanTable
  import opened HuffmanTables

  // ----- Sums

  lemma {:induction false} SumLess(a: seq<nat>, b: seq<nat>)
    requires |a| == |b| && forall i :: 0 <= i < |a| ==> a[i] <= b[i]
    ensures Sum(a) <= Sum(b)
  {
    if a != [] {
      SumLess(a[..|a| - 1], b[..|a| - 1]);
    }
  }

  function Added(a: seq<nat>, b: seq<nat>): (r: seq<nat>)
    requires |a| == |b|
    ensures |r| == |a| && forall i :: 0 <= i < |a| ==> r[i] == a[i] + b[i]
  {
    seq(|a|, i requires 0 <= i < |a| => a[i] + b[i])
  }

  lemma GainAtLeast(x: nat, a: nat, b: nat)
    requires x > 0 && b <= a
    ensures x * b + a <= x * a + b
  {
    Distribute(x - 1, 1, a);
    Distribute(x - 1, 1, b);
    MulMono(b, a, x - 1);
  }

  /** Lengths l are no dearer than size, if only a symbol that is used once has a longer one. */
  lemma NoDearer(f: seq<nat>, size: seq<nat>, l: seq<nat>, c: nat)
    requires |f| == |size| == |l| && c < |f| && f[c] == 1 && Sum(l) == Sum(size)
    requires forall i :: 0 <= i < |f| && i != c ==> l[i] <= size[i] && (f[i] == 0 ==> l[i] == size[i])
    ensures Cost(f, l) <= Cost(f, size)
  {
    var a, b := Added(Costs(f, l), size), Added(Costs(f, size), l);
    forall i | 0 <= i < |f| ensures a[i] <= b[i] {
      if i != c && f[i] > 0 {
        GainAtLeast(f[i], size[i], l[i]);
      }
    }
    hide Sum;
    SumLess(a, b);
    SumAdd(a, Costs(f, l), size);
    SumAdd(b, Costs(f, size), l);
  }

  // ----- Lengths by counts

  /** The lengths of all codes together, up to length l. */
  function Moment(bits: seq<nat>, l: nat): nat
    requires l < |bits|
  {
    if l == 0 then 0 else Moment(bits, l - 1) + bits[l] * l
  }

  lemma {:induction false} SumConcat(a: seq<nat>, b: seq<nat>)
    ensures Sum(a + b) == Sum(a) + Sum(b)
  {
    if b == [] {
      assert a + b == a;
    } else {
      SumConcat(a, b[..|b| - 1]);
      assert (a + b)[..|a + b| - 1] == a + b[..|b| - 1];
    }
  }

  lemma {:induction false} SumRepeated(x: nat, n: nat)
    ensures Sum(Repeated(x, n)) == n * x
  {
    if n > 0 {
      SumRepeated(x, n - 1);
      assert Repeated(x, n)[..n - 1] == Repeated(x, n - 1);
      Distribute(n - 1, 1, x);
    }
  }

  lemma {:induction false} SumOfSizes(bits: seq<nat>, l: nat)
    requires l < |bits|
    ensures Sum(Sizes(bits, l)) == Moment(bits, l)
  {
    if l > 0 {
      SumOfSizes(bits, l - 1);
      hide Sum;
      SumConcat(Sizes(bits, l - 1), Repeated(l, bits[l]));
      SumRepeated(l, bits[l]);
    }
  }

  lemma {:induction false} MomentSet(bits: seq<nat>, k: nat, v: nat, l: nat)
    requires l < |bits| && 1 <= k < |bits|
    ensures Moment(bits[k := v], l) + (if k <= l then bits[k] * k else 0) == Moment(bits, l) + if k <= l then v * k else 0
  {
    if l > 0 {
      MomentSet(bits, k, v, l - 1);
    }
  }

  lemma {:induction false} MomentPrefix(a: seq<nat>, b: seq<nat>, l: nat)
    requires l < |a| && l < |b| && a[..l + 1] == b[..l + 1]
    ensures Moment(a, l) == Moment(b, l)
  {
    if l > 0 {
      assert a[l] == a[..l + 1][l] && b[l] == b[..l + 1][l];
      assert a[..l] == a[..l + 1][..l] && b[..l] == b[..l + 1][..l];
      MomentPrefix(a, b, l - 1);
    }
  }

  lemma {:induction false} MomentTail(bits: seq<nat>, k: nat, l: nat)
    requires k <= l < |bits| && forall i :: k < i <= l ==> bits[i] == 0
    ensures Moment(bits, l) == Moment(bits, k)
  {
    if k < l {
      MomentTail(bits, k, l - 1);
    }
  }

  /** The sizes of all symbols together. */
  lemma {:induction false} TallyMoment(size: seq<nat>, n: nat)
    requires n <= |size| && forall k :: 0 <= k < |size| ==> size[k] <= MAX_CLEN
    ensures Moment(Tally(size, n), MAX_CLEN) == Sum(size[..n])
  {
    hide *;
    if n == 0 {
      EmptyTally(size);
    } else {
      TallyMoment(size, n - 1);
      TallyNext(size, n - 1);
      SumOfPrefix(size, n);
      TallyIs(size, n - 1);
      if size[n - 1] > 0 {
        var t, k := Tally(size, n - 1), size[n - 1];
        MomentSet(t, k, t[k] + 1, MAX_CLEN);
        Distribute(t[k], 1, k);
      }
    }
  }

  lemma TallyIs(size: seq<nat>, n: nat)
    requires n <= |size|
    ensures |Tally(size, n)| == MAX_CLEN + 1
  {
  }

  lemma EmptyTally(size: seq<nat>)
    ensures Moment(Tally(size, 0), MAX_CLEN) == Sum(size[..0]) == 0
  {
    MomentTail(Tally(size, 0), 0, MAX_CLEN);
  }

  // ----- The lengths that symbols get

  /** Lengths entered for distinct symbols sum up to the sum of the sizes. */
  lemma {:induction false} ListedSum(vals: seq<nat>, sizes: seq<nat>, si: seq<nat>, n: nat)
    requires n <= |sizes| && n <= |vals| && (forall p :: 0 <= p < n ==> vals[p] < |si| && si[vals[p]] == sizes[p])
    requires (forall p, q :: 0 <= p < q < n ==> vals[p] != vals[q]) && forall v :: 0 <= v < |si| && v !in vals[..n] ==> si[v] == 0
    ensures Sum(si) == Sum(sizes[..n])
    decreases n
  {
    hide Sum;
    if n == 0 {
      SumZero(si);
      SumZero(sizes[..0]);
    } else {
      var v := vals[n - 1];
      var less: seq<nat> := si[v := 0];
      assert vals[..n] == vals[..n - 1] + [v];
      ListedSum(vals, sizes, less, n - 1);
      SumUpdate(si, v, 0);
      SumOfPrefix(sizes, n);
    }
  }

  lemma {:induction false} SizesBegin(bits: seq<nat>, k: nat, l: nat)
    requires k <= l < |bits|
    ensures Sizes(bits, k) <= Sizes(bits, l)
  {
    if k < l {
      SizesBegin(bits, k, l - 1);
    }
  }

  lemma {:induction false} BySizeBegins(size: seq<nat>, k: nat, l: nat, n: nat)
    requires k <= l && n <= |size|
    ensures BySize(size, k, n) <= BySize(size, l, n)
  {
    hide WithSize;
    if k < l {
      BySizeBegins(size, k, l - 1, n);
    }
  }

  /** The symbols of at most k bits come before that many codes of at most k bits. */
  lemma EnoughCodes(size: seq<nat>, bits: seq<nat>, longest: nat, k: nat)
    requires |size| == NUM_SYMBOLS == PSEUDO_SYMBOL + 1 && 1 <= k <= 16 && size[PSEUDO_SYMBOL] <= MAX_CLEN
    requires |bits| == 17 && OneDropped(bits, Tally(size, |size|), longest) && k < longest
    ensures |BySize(size, k, PSEUDO_SYMBOL)| <= |Sizes(bits, k)|
  {
    var t, u := Tally(size, PSEUDO_SYMBOL), Tally(size, |size|);
    TallyNext(size, PSEUDO_SYMBOL);
    assert bits[0] == 0;
    BySizeCount(size, k, PSEUDO_SYMBOL);
    HuffmanTable.SizesCount(bits, k);
    assert bits[..k + 1] == u[..k + 1];
    hide Sum, Tally;
    SumLess(t[..k + 1], u[..k + 1]);
  }

  /** No symbol gets a longer code than its size. */
  lemma NoLonger(size: seq<nat>, t: HuffTbl, longest: nat, v: nat, p: nat)
    requires |size| == NUM_SYMBOLS == PSEUDO_SYMBOL + 1 && (forall k :: 0 <= k < |size| ==> size[k] <= 16) && v < PSEUDO_SYMBOL && size[v] > 0
    requires |t.bits| == 17 && OneDropped(t.bits, Tally(size, |size|), longest)
    requires p < |Sizes(t.bits, 16)| && p < |BySize(size, size[v], PSEUDO_SYMBOL)|
    ensures Sizes(t.bits, 16)[p] <= size[v]
  {
    var k := size[v];
    if k < longest {
      EnoughCodes(size, t.bits, longest, k);
      SizesBegin(t.bits, k, 16);
    } else {
      SizesUpTo(t.bits, longest, 16);
    }
  }

  lemma {:induction false} SizesUpTo(bits: seq<nat>, longest: nat, l: nat)
    requires longest <= l < |bits| && forall k :: longest < k <= l ==> bits[k] == 0
    ensures Sizes(bits, l) == Sizes(bits, longest)
  {
    if longest < l {
      SizesUpTo(bits, longest, l - 1);
      assert Sizes(bits, l - 1) + [] == Sizes(bits, l - 1);
    }
  }

  // ----- The finished table

  /** The symbol's size in the table. */
  lemma EnteredSize(f: seq<nat>, size: seq<nat>, t: HuffTbl, c: CTable, longest: nat, v: nat)
    requires |f| == |size| == NUM_SYMBOLS == PSEUDO_SYMBOL + 1 && (forall k :: 0 <= k < |size| ==> size[k] <= 16) && v < PSEUDO_SYMBOL
    requires size[v] > 0 <==> f[v] > 0
    requires TblOk(t) && OneDropped(t.bits, Tally(size, |size|), longest)
    requires Entered(t, c.ehufco, c.ehufsi, |Sizes(t.bits, 16)|)
    requires |Sizes(t.bits, 16)| <= 256 && t.huffval[..|Sizes(t.bits, 16)|] == BySize(size, MAX_CLEN, PSEUDO_SYMBOL)
    ensures |c.ehufsi| == 256 && c.ehufsi[v] <= size[v] && c.ehufsi[v] <= longest
  {
    assert |t.bits| == 17 && |Tally(size, |size|)| == MAX_CLEN + 1;
    hide *;
    var k := size[v];
    EntryAt(t, c, v);
    NoCodeLonger(Tally(size, |size|), t, longest);
    BySizeIs(size, MAX_CLEN, PSEUDO_SYMBOL);
    SizesLow(size);
    if k > 0 {
      BySizeIs(size, k, PSEUDO_SYMBOL);
      BySizeBegins(size, k, MAX_CLEN, PSEUDO_SYMBOL);
      var p := PlaceIn(BySize(size, k, PSEUDO_SYMBOL), BySize(size, MAX_CLEN, PSEUDO_SYMBOL), v);
      PlaceIs(t, c, p, v);
      NoLonger(size, t, longest, v, p);
    }
  }

  lemma PlaceIn(a: seq<nat>, b: seq<nat>, v: nat) returns (p: nat)
    requires v in a && a <= b
    ensures p < |a| && p < |b| && b[p] == v
  {
    p :| 0 <= p < |a| && a[p] == v;
  }

  lemma PlaceIs(t: HuffTbl, c: CTable, p: nat, v: nat)
    requires TblOk(t) && Entered(t, c.ehufco, c.ehufsi, |Sizes(t.bits, 16)|)
    requires p < |Sizes(t.bits, 16)| <= 256 && t.huffval[..|Sizes(t.bits, 16)|][p] == v
    ensures v < 256 == |c.ehufsi| && c.ehufsi[v] == Sizes(t.bits, 16)[p]
  {
    hide Sizes, Codes;
    assert t.huffval[p] == v;
  }

  lemma EntryAt(t: HuffTbl, c: CTable, v: nat)
    requires TblOk(t) && Entered(t, c.ehufco, c.ehufsi, |Sizes(t.bits, 16)|) && v < PSEUDO_SYMBOL
    ensures |c.ehufsi| == 256 == PSEUDO_SYMBOL
    ensures v in t.huffval[..|Sizes(t.bits, 16)|] || c.ehufsi[v] == 0
    ensures c.ehufsi[v] == 0 || exists p :: 0 <= p < |Sizes(t.bits, 16)| && c.ehufsi[v] == Sizes(t.bits, 16)[p]
  {
    hide Sizes, Codes;
    var n := |Sizes(t.bits, 16)|;
    if v in t.huffval[..n] {
      var p :| 0 <= p < n && t.huffval[..n][p] == v;
      assert t.huffval[p] == v;
    }
  }

  lemma NoCodeLonger(full: seq<nat>, t: HuffTbl, longest: nat)
    requires |full| == MAX_CLEN + 1 && TblOk(t) && OneDropped(t.bits, full, longest)
    ensures forall p :: 0 <= p < |Sizes(t.bits, 16)| ==> Sizes(t.bits, 16)[p] <= longest
  {
    SizesUpTo(t.bits, longest, 16);
  }

  /** All lengths together, and the one that is kept free, are the sizes together. */
  lemma LengthsSum(size: seq<nat>, t: HuffTbl, c: CTable, longest: nat)
    requires (forall k :: 0 <= k < |size| ==> size[k] <= 16)
    requires TblOk(t) && OneDropped(t.bits, Tally(size, |size|), longest)
    requires Entered(t, c.ehufco, c.ehufsi, |Sizes(t.bits, 16)|)
    ensures Sum(c.ehufsi) + longest == Sum(size)
  {
    assert |t.bits| == 17;
    hide *;
    TableMoment(size, t.bits, longest);
    SumOfSizes(t.bits, 16);
    EnteredSum(t, c);
  }

  lemma EnteredSum(t: HuffTbl, c: CTable)
    requires TblOk(t) && Entered(t, c.ehufco, c.ehufsi, |Sizes(t.bits, 16)|)
    ensures Sum(c.ehufsi) == Sum(Sizes(t.bits, 16))
  {
    var s := Sizes(t.bits, 16);
    hide Sum, Sizes, Codes;
    assert s[..|s|] == s;
    ListedSum(t.huffval, s, c.ehufsi, |s|);
  }

  lemma TableMoment(size: seq<nat>, bits: seq<nat>, longest: nat)
    requires (forall k :: 0 <= k < |size| ==> size[k] <= 16)
    requires |bits| == 17 && OneDropped(bits, Tally(size, |size|), longest)
    ensures Moment(bits, 16) + longest == Sum(size)
  {
    assert size[..|size|] == size && |Tally(size, |size|)| == MAX_CLEN + 1;
    hide *;
    MomentDropped(bits, Tally(size, |size|), longest);
    SizesLow(size);
    TallyMoment(size, |size|);
  }

  lemma MomentDropped(bits: seq<nat>, u: seq<nat>, longest: nat)
    requires |bits| == 17 && |u| == MAX_CLEN + 1 && OneDropped(bits, u, longest)
    ensures Moment(bits, 16) + longest == Moment(u, MAX_CLEN)
  {
    hide *;
    DroppedIs(bits, u, longest);
    var less: seq<nat> := u[longest := u[longest] - 1];
    MomentPrefix(bits, less, 16);
    MomentSet(u, longest, u[longest] - 1, 16);
    Distribute(u[longest], -1, longest);
    MomentTail(u, 16, MAX_CLEN);
  }

  lemma DroppedIs(bits: seq<nat>, u: seq<nat>, longest: nat)
    requires |bits| == 17 && |u| == MAX_CLEN + 1 && OneDropped(bits, u, longest)
    ensures 1 <= longest <= 16 < MAX_CLEN < |u| && u[longest] > 0
    ensures bits[..17] == u[longest := u[longest] - 1][..17] && forall i :: 16 < i <= MAX_CLEN ==> u[i] == 0
  {
  }

  lemma SizesLow(size: seq<nat>)
    requires forall k :: 0 <= k < |size| ==> size[k] <= 16
    ensures forall k :: 0 <= k < |size| ==> size[k] <= MAX_CLEN
  {
  }

  function Longest(l: seq<nat>): (r: nat)
    ensures forall i :: 0 <= i < |l| ==> l[i] <= r
    ensures l != [] ==> exists i :: 0 <= i < |l| && l[i] == r
  {
    if l == [] then 0 else
    var k := |l| - 1;
    var m := Longest(l[..k]);
    if m > l[k] then
      assert exists i :: 0 <= i < k && l[..k][i] == l[i] == m;
      m
    else
      l[k]
  }

  /** No size needs limiting. */
  ghost predicate SizesShort(f: seq<nat>) {
    forall k :: 0 <= k < |MergedSizes(f)| ==> MergedSizes(f)[k] <= 16
  }

  lemma TableFacts(f: seq<nat>, p: Pair, isDC: bool) returns (longest: nat)
    requires GoodCounts(f) && PairFor(f, p, isDC) && SizesShort(f)
    ensures var size, t := MergedSizes(f), p.x.t;
      && |f| == |size| == NUM_SYMBOLS == PSEUDO_SYMBOL + 1 && f[PSEUDO_SYMBOL] == 1
      && (forall k :: 0 <= k < |size| ==> size[k] <= 16 && (size[k] > 0 <==> f[k] > 0))
      && TblOk(t) && OneDropped(t.bits, Tally(size, |size|), longest)
      && Entered(t, p.c.ehufco, p.c.ehufsi, |Sizes(t.bits, 16)|)
      && |Sizes(t.bits, 16)| <= 256 && t.huffval[..|Sizes(t.bits, 16)|] == BySize(size, MAX_CLEN, PSEUDO_SYMBOL)
  {
    hide *;
    PairTable(f, p, isDC);
    SizesPositive(f, MergedSizes(f));
    SizesShortAt(f);
    CountsShape(f, MergedSizes(f));
    PseudoOnce(f);
    ListIs(f, MergedSizes(f), p.x.t);
    GeneratedRoom(f, MergedSizes(f), p.x.t);
    longest := ShortSizesStay(f, MergedSizes(f), p.x.t);
  }

  lemma SizesShortAt(f: seq<nat>)
    requires SizesShort(f)
    ensures forall k :: 0 <= k < |MergedSizes(f)| ==> MergedSizes(f)[k] <= 16
  {
  }

  lemma PseudoOnce(f: seq<nat>)
    requires GoodCounts(f)
    ensures |f| == NUM_SYMBOLS == PSEUDO_SYMBOL + 1 && f[PSEUDO_SYMBOL] == 1 && Used(f) <= 257
  {
  }

  /** The symbols as often as they were counted, and the free code once, cost no more than the optimal sizes. */
  lemma TableCost(f: seq<nat>, p: Pair, isDC: bool)
    requires GoodCounts(f) && PairFor(f, p, isDC) && SizesShort(f)
    ensures |p.c.ehufsi| == |f[..PSEUDO_SYMBOL]| == 256 && |MergedSizes(f)| == |f|
    ensures Cost(f[..PSEUDO_SYMBOL], p.c.ehufsi) + Longest(p.c.ehufsi) <= Cost(f, MergedSizes(f))
  {
    hide *;
    var longest := TableFacts(f, p, isDC);
    EntriesAre(p);
    var size, l := MergedSizes(f), p.c.ehufsi + [longest];
    forall v: nat | v < PSEUDO_SYMBOL ensures p.c.ehufsi[v] <= size[v] && p.c.ehufsi[v] <= longest {
      EnteredSize(f, size, p.x.t, p.c, longest, v);
    }
    LengthsSum(size, p.x.t, p.c, longest);
    LastOfSum(p.c.ehufsi, longest);
    NoDearer(f, size, l, PSEUDO_SYMBOL);
    CostOfLast(f, p.c.ehufsi, longest);
  }

  lemma EntriesAre(p: Pair)
    requires TblOk(p.x.t) && Entered(p.x.t, p.c.ehufco, p.c.ehufsi, |Sizes(p.x.t.bits, 16)|)
    ensures |p.c.ehufsi| == 256 == PSEUDO_SYMBOL
  {
  }

  lemma LastOfSum(l: seq<nat>, x: nat)
    ensures Sum(l + [x]) == Sum(l) + x
  {
    assert (l + [x])[..|l|] == l;
  }

  lemma CostOfLast(f: seq<nat>, l: seq<nat>, x: nat)
    requires |f| == |l| + 1 && f[|l|] == 1 && forall i :: 0 <= i < |l| ==> l[i] <= x
    ensures Cost(f, l + [x]) == Cost(f[..|l|], l) + x && Longest(l) <= x
  {
    hide Sum;
    assert Costs(f, l + [x]) == Costs(f[..|l|], l) + [x];
    LastOfSum(Costs(f[..|l|], l), x);
  }

  // ----- Against every other code

  /** A code word that the table keeps free, or that is the beginning of one. */
  ghost predicate AllOnes(w: Word) {
    forall i :: 0 <= i < |w| ==> w[i]
  }

  /** A prefix code for the symbols that were counted, with words of at most m bits and none of ones only. */
  ghost predicate OtherCode(f: seq<nat>, w: seq<Word>, m: nat) {
    |f| >= PSEUDO_SYMBOL && PrefixFree(f[..PSEUDO_SYMBOL], w)
    && forall v :: 0 <= v < PSEUDO_SYMBOL && f[v] > 0 ==> |w[v]| <= m && !AllOnes(w[v])
  }

  lemma OnesApart(w: Word, m: nat)
    requires |w| <= m && !AllOnes(w)
    ensures !(w <= seq(m, _ => true)) && !(seq(m, _ => true) <= w)
  {
    var i :| 0 <= i < |w| && !w[i];
    var ones: Word := seq(m, _ => true);
    assert ones[i];
  }

  lemma WithOnes(f: seq<nat>, w: seq<Word>, m: nat)
    requires |f| == PSEUDO_SYMBOL + 1 && OtherCode(f, w, m)
    ensures PrefixFree(f, w + [seq(m, _ => true)])
  {
    hide AllOnes;
    var code := w + [seq(m, _ => true)];
    forall i, j | 0 <= i < |f| && 0 <= j < |f| && i != j && f[i] > 0 && f[j] > 0 ensures !(code[i] <= code[j]) {
      if i == PSEUDO_SYMBOL {
        OnesApart(w[j], m);
      } else if j == PSEUDO_SYMBOL {
        OnesApart(w[i], m);
      } else {
        assert f[..PSEUDO_SYMBOL][i] > 0 && f[..PSEUDO_SYMBOL][j] > 0;
      }
    }
  }

  lemma WordsFor(f: seq<nat>, w: seq<Word>, m: nat)
    requires |f| == PSEUDO_SYMBOL + 1 && OtherCode(f, w, m)
    ensures |f[..PSEUDO_SYMBOL]| == |w|
  {
  }

  lemma WordsWithin(f: seq<nat>, w: seq<Word>, m: nat)
    requires |f| == PSEUDO_SYMBOL + 1 && OtherCode(f, w, m)
    ensures forall i :: 0 <= i < |f| && f[i] > 0 ==> |(w + [seq(m, _ => true)])[i]| <= m
  {
  }

  lemma OnesCost(f: seq<nat>, w: seq<Word>, m: nat)
    requires |f| == |w| + 1 && |w| == PSEUDO_SYMBOL && f[PSEUDO_SYMBOL] == 1
    ensures Cost(f, Lengths(w + [seq(m, _ => true)])) == Cost(f[..PSEUDO_SYMBOL], Lengths(w)) + m
  {
    hide Sum;
    var ones: Word := seq(m, _ => true);
    assert Costs(f, Lengths(w + [ones])) == Costs(f[..PSEUDO_SYMBOL], Lengths(w)) + [m];
    LastOfSum(Costs(f[..PSEUDO_SYMBOL], Lengths(w)), m);
  }

  /** Under the table the counted symbols and its longest code take no more bits than under any
      other prefix code without a word of ones only, with the longest word of that. */
  lemma LeastBits(f: seq<nat>, p: Pair, isDC: bool, w: seq<Word>, m: nat)
    requires GoodCounts(f) && PairFor(f, p, isDC) && SizesShort(f) && OtherCode(f, w, m)
    ensures |p.c.ehufsi| == |f[..PSEUDO_SYMBOL]| == |w|
    ensures Cost(f[..PSEUDO_SYMBOL], p.c.ehufsi) + Longest(p.c.ehufsi) <= Cost(f[..PSEUDO_SYMBOL], Lengths(w)) + m
    ensures m <= Longest(p.c.ehufsi) ==> Cost(f[..PSEUDO_SYMBOL], p.c.ehufsi) <= Cost(f[..PSEUDO_SYMBOL], Lengths(w))
  {
    hide *;
    PseudoOnce(f);
    WordsFor(f, w, m);
    TableCost(f, p, isDC);
    PairTable(f, p, isDC);
    WithOnes(f, w, m);
    var code := w + [seq(m, _ => true)];
    WordsWithin(f, w, m);
    OptimalOverPrefixCodes(f, MergedSizes(f), code, m);
    OnesCost(f, w, m);
  }

  // ----- What keeping a code free costs

  function Spaces(s: seq<nat>): (r: seq<nat>)
    ensures |r| == |s|
  {
    seq(|s|, i requires 0 <= i < |s| => if s[i] <= 16 then Pow2(16 - s[i]) else 0)
  }

  lemma {:induction false} SpacesStart(s: seq<nat>, n: nat)
    requires n <= |s| && forall i :: 0 <= i < |s| ==> s[i] <= 16
    ensures Sum(Spaces(s)[..n]) == Start(s, n)
  {
    if n > 0 {
      SpacesStart(s, n - 1);
      hide Sum, Pow2;
      SumOfPrefix(Spaces(s), n);
    }
  }

  /** The Kraft sum of the symbols' lengths is the code space used. */
  lemma EnteredKraft(f: seq<nat>, t: HuffTbl, c: CTable)
    requires TblOk(t) && Entered(t, c.ehufco, c.ehufsi, |Sizes(t.bits, 16)|) && |f| == 256 && |c.ehufsi| == 256
    requires |Sizes(t.bits, 16)| <= 256 && forall v: nat :: v in t.huffval[..|Sizes(t.bits, 16)|] <==> v < 256 && f[v] > 0
    ensures Kraft(f, c.ehufsi, 16) == Start(Sizes(t.bits, 16), |Sizes(t.bits, 16)|)
  {
    assert |t.bits| == 17;
    hide *;
    var s := Sizes(t.bits, 16);
    TermsListed(f, t, c);
    AllOf(Spaces(s));
    ListedSum(t.huffval, Spaces(s), Terms(f, c.ehufsi, 16), |s|);
    SpacesStart(s, |s|);
    KraftIs(f, c.ehufsi);
  }

  lemma KraftIs(f: seq<nat>, l: seq<nat>)
    requires |f| == |l|
    ensures Kraft(f, l, 16) == Sum(Terms(f, l, 16))
  {
    hide Sum, Terms;
  }

  lemma AllOf(s: seq<nat>)
    ensures s[..|s|] == s
  {
  }

  /** The symbols' shares of the code space are those of the sizes in turn. */
  lemma TermsListed(f: seq<nat>, t: HuffTbl, c: CTable)
    requires TblOk(t) && Entered(t, c.ehufco, c.ehufsi, |Sizes(t.bits, 16)|) && |f| == 256 && |c.ehufsi| == 256
    requires |Sizes(t.bits, 16)| <= 256 && forall v: nat :: v in t.huffval[..|Sizes(t.bits, 16)|] <==> v < 256 && f[v] > 0
    ensures var s, terms := Sizes(t.bits, 16), Terms(f, c.ehufsi, 16);
      && |Spaces(s)| == |s| <= |t.huffval| == 256 == |terms| && (forall i :: 0 <= i < |s| ==> s[i] <= 16)
      && (forall p :: 0 <= p < |s| ==> t.huffval[p] < 256 && terms[t.huffval[p]] == Spaces(s)[p])
      && (forall p, q :: 0 <= p < q < |s| ==> t.huffval[p] != t.huffval[q])
      && forall v :: 0 <= v < 256 && v !in t.huffval[..|s|] ==> terms[v] == 0
  {
    var s, terms := Sizes(t.bits, 16), Terms(f, c.ehufsi, 16);
    assert |Spaces(s)| == |s| <= |t.huffval| == 256 == |terms| && forall i :: 0 <= i < |s| ==> s[i] <= 16;
    assert Listed(t.huffval, Codes(s), s, c.ehufco, c.ehufsi, |s|);
    hide Sizes, Codes, Terms, Spaces, Listed, Entered;
    ListedDistinct(t.huffval, Codes(s), s, c, |s|);
    forall p | 0 <= p < |s| ensures t.huffval[p] < 256 && terms[t.huffval[p]] == Spaces(s)[p] {
      ListedAt(t, p);
      PlaceIs(t, c, p, t.huffval[p]);
      TermIs(f, c.ehufsi, s, t.huffval[p], p);
    }
    forall v | 0 <= v < 256 && v !in t.huffval[..|s|] ensures terms[v] == 0 {
      TermNone(f, c.ehufsi, v);
    }
  }

  lemma ListedDistinct(vals: seq<nat>, codes: seq<nat>, sizes: seq<nat>, c: CTable, n: nat)
    requires Listed(vals, codes, sizes, c.ehufco, c.ehufsi, n)
    ensures forall p, q :: 0 <= p < q < n ==> vals[p] != vals[q]
  {
  }

  lemma TermIs(f: seq<nat>, si: seq<nat>, s: seq<nat>, v: nat, p: nat)
    requires |f| == |si| && v < |f| && f[v] > 0 && p < |s| && si[v] == s[p] <= 16
    ensures Terms(f, si, 16)[v] == Spaces(s)[p]
  {
    hide Pow2;
  }

  lemma TermNone(f: seq<nat>, si: seq<nat>, v: nat)
    requires |f| == |si| && v < |f| && f[v] == 0
    ensures Terms(f, si, 16)[v] == 0
  {
    hide Pow2;
  }

  /** Whatever was counted, a prefix code that keeps no word free takes fewer bits than the table. */
  lemma FreeCodeCosts(f: seq<nat>, p: Pair, isDC: bool) returns (l: seq<nat>)
    requires GoodCounts(f) && PairFor(f, p, isDC) && !TooDeep(f)
    ensures |p.c.ehufsi| == |f[..PSEUDO_SYMBOL]|
    ensures Fits(f[..PSEUDO_SYMBOL], l, 16) && Cost(f[..PSEUDO_SYMBOL], l) < Cost(f[..PSEUDO_SYMBOL], p.c.ehufsi)
  {
    hide *;
    PseudoOnce(f);
    var longest, v := LongestInTable(f, p, isDC);
    l := p.c.ehufsi[v := longest - 1];
    Shortened(f[..PSEUDO_SYMBOL], p.c.ehufsi, longest, v);
  }

  /** The table leaves room for one of its longest codes. */
  lemma LongestInTable(f: seq<nat>, p: Pair, isDC: bool) returns (longest: nat, v: nat)
    requires GoodCounts(f) && PairFor(f, p, isDC) && !TooDeep(f)
    ensures |p.c.ehufsi| == |f[..PSEUDO_SYMBOL]| == 256 && v < 256 && f[v] > 0 && 0 < longest <= 16 && p.c.ehufsi[v] == longest
    ensures (forall i :: 0 <= i < 256 ==> p.c.ehufsi[i] <= longest) && Kraft(f[..PSEUDO_SYMBOL], p.c.ehufsi, 16) + Pow2(16 - longest) <= 0x10000
  {
    hide *;
    PairTable(f, p, isDC);
    PseudoOnce(f);
    EntriesAre(p);
    NotDeep(f);
    var t := p.x.t;
    GeneratedSymbols(f, MergedSizes(f), t);
    longest, v := RoomLeft(f, MergedSizes(f), t, p.c);
    CountedBelow(f, t);
    EnteredKraft(f[..PSEUDO_SYMBOL], t, p.c);
    forall i: nat | i < 256 ensures p.c.ehufsi[i] <= longest {
      EntryAt(t, p.c, i);
    }
  }

  lemma RoomLeft(f: seq<nat>, size: seq<nat>, t: HuffTbl, c: CTable) returns (longest: nat, v: nat)
    requires FromSizes(f, size, t) && |f| == PSEUDO_SYMBOL + 1 && TblOk(t) && Entered(t, c.ehufco, c.ehufsi, |Sizes(t.bits, 16)|)
    requires |Sizes(t.bits, 16)| <= 256 && forall v: nat :: v in t.huffval[..|Sizes(t.bits, 16)|] <==> v < PSEUDO_SYMBOL && f[v] > 0
    ensures 0 < longest <= 16 && v < PSEUDO_SYMBOL && f[v] > 0 && |c.ehufsi| == 256 && v < 256 && c.ehufsi[v] == longest
    ensures Start(Sizes(t.bits, 16), |Sizes(t.bits, 16)|) + Pow2(16 - longest) == 0x10000
    ensures forall p :: 0 <= p < |Sizes(t.bits, 16)| ==> Sizes(t.bits, 16)[p] <= longest
  {
    var full;
    full, longest := FullOf(f, size, t);
    hide *;
    DroppedSpace(t.bits, full, longest);
    NoCodeLonger(full, t, longest);
    StartIsSpace(t.bits, 16);
    var p := LongestAt(full, t, longest);
    v := t.huffval[p];
    ListedAt(t, p);
    PlaceIs(t, c, p, v);
  }

  lemma ListedAt(t: HuffTbl, p: nat)
    requires TblOk(t) && p < |Sizes(t.bits, 16)| <= 256
    ensures t.huffval[..|Sizes(t.bits, 16)|][p] == t.huffval[p] && t.huffval[p] in t.huffval[..|Sizes(t.bits, 16)|]
  {
    hide Sizes;
    assert t.huffval[..|Sizes(t.bits, 16)|][p] == t.huffval[p];
  }

  lemma FullOf(f: seq<nat>, size: seq<nat>, t: HuffTbl) returns (full: seq<nat>, longest: nat)
    requires FromSizes(f, size, t)
    ensures |t.bits| == 17 && |t.huffval| == 256 && |full| == MAX_CLEN + 1 && Full(full, 16) && OneDropped(t.bits, full, longest)
    ensures 1 <= longest <= 16
  {
    hide KraftOf, Sum, Used, BySize, Limited, Tally;
    full, longest :| Full(full, 16) && Sum(full) == Used(f) && OneDropped(t.bits, full, longest);
  }

  /** The longest codes were two at least, so one of them is left. */
  lemma LongestAt(full: seq<nat>, t: HuffTbl, longest: nat) returns (p: nat)
    requires |t.bits| == 17 && |full| == MAX_CLEN + 1 && Full(full, 16) && OneDropped(t.bits, full, longest)
    ensures p < |Sizes(t.bits, 16)| && Sizes(t.bits, 16)[p] == longest
  {
    assert Full(full, longest) by { hide KraftOf; }
    assert full[longest] > 0 && t.bits[longest] == full[..17][longest := full[longest] - 1][longest];
    hide Full, OneDropped;
    LongestPaired(full, longest);
    SizesBegin(t.bits, longest, 16);
    p := |Sizes(t.bits, longest - 1)|;
    assert Sizes(t.bits, longest)[p] == longest;
  }

  lemma NotDeep(f: seq<nat>)
    requires !TooDeep(f)
    ensures forall k :: 0 <= k < |MergedSizes(f)| ==> MergedSizes(f)[k] <= MAX_CLEN
  {
    hide MergedSizes;
  }

  lemma CountedBelow(f: seq<nat>, t: HuffTbl)
    requires |f| == PSEUDO_SYMBOL + 1 == 257 && TblOk(t) && |Sizes(t.bits, 16)| <= 256
    requires forall v: nat :: v in t.huffval[..|Sizes(t.bits, 16)|] <==> v < PSEUDO_SYMBOL && f[v] > 0
    ensures |f[..PSEUDO_SYMBOL]| == 256
    ensures forall v: nat :: v in t.huffval[..|Sizes(t.bits, 16)|] <==> v < 256 && f[..PSEUDO_SYMBOL][v] > 0
  {
    hide Sizes;
  }

  lemma Shortened(f: seq<nat>, si: seq<nat>, longest: nat, v: nat)
    requires |f| == |si| && v < |f| && f[v] > 0 && 0 < longest <= 16 && si[v] == longest
    requires (forall i :: 0 <= i < |si| ==> si[i] <= 16) && Kraft(f, si, 16) + Pow2(16 - longest) <= 0x10000
    ensures Fits(f, si[v := longest - 1], 16) && Cost(f, si[v := longest - 1]) < Cost(f, si)
  {
    hide *;
    Halve(longest);
    OneShorter(f, si, longest, v, Pow2(16 - longest));
  }

  lemma Halve(longest: nat)
    requires 0 < longest <= 16
    ensures Pow2(16 - (longest - 1)) == 2 * Pow2(16 - longest) && Pow2(16) == 0x10000
  {
    Pow2Table();
  }

  lemma OneShorter(f: seq<nat>, si: seq<nat>, longest: nat, v: nat, d: nat)
    requires |f| == |si| && v < |f| && f[v] > 0 && 0 < longest <= 16 && si[v] == longest
    requires d == Pow2(16 - longest) && 2 * d == Pow2(16 - (longest - 1)) && Pow2(16) == 0x10000
    requires (forall i :: 0 <= i < |si| ==> si[i] <= 16) && Kraft(f, si, 16) + d <= 0x10000
    ensures Fits(f, si[v := longest - 1], 16) && Cost(f, si[v := longest - 1]) < Cost(f, si)
  {
    hide *;
    KraftIs(f, si);
    KraftIs(f, si[v := longest - 1]);
    TermsSet(f, si, v, longest - 1);
    SumUpdate(Terms(f, si, 16), v, 2 * d);
    FitsIs(f, si[v := longest - 1]);
    CostsSet(f, si, v, longest - 1);
    SumUpdate(Costs(f, si), v, f[v] * (longest - 1));
    Lower(f[v], longest);
    CostIs(f, si);
    CostIs(f, si[v := longest - 1]);
  }

  lemma FitsIs(f: seq<nat>, l: seq<nat>)
    requires |l| == |f| && (forall i :: 0 <= i < |l| ==> l[i] <= 16) && Kraft(f, l, 16) <= Pow2(16)
    ensures Fits(f, l, 16)
  {
    hide Kraft, Pow2;
  }

  lemma CostIs(f: seq<nat>, l: seq<nat>)
    requires |f| == |l|
    ensures Cost(f, l) == Sum(Costs(f, l))
  {
    hide Sum, Costs;
  }

  lemma TermsSet(f: seq<nat>, si: seq<nat>, v: nat, x: nat)
    requires |f| == |si| && v < |f| && f[v] > 0 && x <= 16 && si[v] <= 16
    ensures Terms(f, si[v := x], 16) == Terms(f, si, 16)[v := Pow2(16 - x)] && Terms(f, si, 16)[v] == Pow2(16 - si[v])
  {
    hide Pow2;
  }

  lemma CostsSet(f: seq<nat>, si: seq<nat>, v: nat, x: nat)
    requires |f| == |si| && v < |f|
    ensures Costs(f, si[v := x]) == Costs(f, si)[v := f[v] * x] && Costs(f, si)[v] == f[v] * si[v]
  {
  }

  lemma Lower(x: nat, y: nat)
    requires x > 0 && y > 0
    ensures x * (y - 1) < x * y
  {
  }

  /** The bits of the counted symbols, and one longest code, are exactly the optimum for the counts with
      the reserved symbol. */
  lemma CostExact(f: seq<nat>, p: Pair, isDC: bool)
    requires GoodCounts(f) && PairFor(f, p, isDC) && SizesShort(f)
    ensures |p.c.ehufsi| == |f[..PSEUDO_SYMBOL]| == 256 && |MergedSizes(f)| == |f|
    ensures Cost(f[..PSEUDO_SYMBOL], p.c.ehufsi) + Longest(p.c.ehufsi) == Cost(f, MergedSizes(f))
  {
    hide *;
    PseudoOnce(f);
    TableCost(f, p, isDC);
    ShortNotDeep(f);
    var longest, v := LongestInTable(f, p, isDC);
    LongestIs(p.c.ehufsi, longest, v);
    PairTable(f, p, isDC);
    RoomForOnes(f, p.c.ehufsi, longest);
    LeastIs(f, MergedSizes(f), p.c.ehufsi + [longest]);
    CostOfLast(f, p.c.ehufsi, longest);
  }

  lemma ShortNotDeep(f: seq<nat>)
    requires SizesShort(f)
    ensures !TooDeep(f)
  {
    hide MergedSizes;
  }

  lemma LongestIs(l: seq<nat>, longest: nat, v: nat)
    requires v < |l| && l[v] == longest && forall i :: 0 <= i < |l| ==> l[i] <= longest
    ensures Longest(l) == longest
  {
  }

  lemma LeastIs(f: seq<nat>, size: seq<nat>, l: seq<nat>)
    requires OptimalSizes(f, size) && Fits(f, l, 16)
    ensures Cost(f, size) <= Cost(f, l)
  {
    hide Cost, Fits, Kraft, Pow2;
  }

  lemma RoomForOnes(f: seq<nat>, si: seq<nat>, longest: nat)
    requires |f| == PSEUDO_SYMBOL + 1 == |si| + 1 && f[PSEUDO_SYMBOL] == 1 && longest <= 16
    requires (forall i :: 0 <= i < |si| ==> si[i] <= longest) && |f[..PSEUDO_SYMBOL]| == |si|
    requires Kraft(f[..PSEUDO_SYMBOL], si, 16) + Pow2(16 - longest) <= 0x10000
    ensures Fits(f, si + [longest], 16)
  {
    Pow2Table();
    hide Sum, Pow2;
    var l := si + [longest];
    assert Terms(f, l, 16) == Terms(f[..PSEUDO_SYMBOL], si, 16) + [Pow2(16 - longest)];
    LastOfSum(Terms(f[..PSEUDO_SYMBOL], si, 16), Pow2(16 - longest));
  }
}
