/** From symbol counts to a matched pair of coding and decoding tables. */
module HuffmanTables {
  import opened Powers
  import opened HuffmanCost
  import opened HuffmanForest
  import opened HuffmanDepth
  import opened HuffmanMerge
  import opened HuffmanLimit
  import opened HuffmanCodes
  import opened HuffmanTable
  import opened HuffmanDecode
  import opened HuffmanBlock
  import opened HuffmanMcu
  import opened HuffmanEncoder

  datatype Pair = Pair(c: CTable, x: DecTbl)

  /** The table that these counts lead to: its lengths are their optimal sizes, limited. */
  ghost predicate FromCounts(f: seq<nat>, t: HuffTbl) {
    OptimalSizes(f, MergedSizes(f)) && FromSizes(f, MergedSizes(f), t)
  }

  /** The pair is made from the counts, codes every counted symbol, and the decoder reads back what
      the encoder writes. */
  ghost predicate PairFor(f: seq<nat>, p: Pair, isDC: bool) {
    && FromCounts(f, p.x.t) && Paired(p.c, p.x) && CodesFit(p.c) && DecTblOk(p.x) && (isDC ==> DcTbl(p.x))
    && forall s :: 0 <= s < 256 && s < |f| && f[s] > 0 ==> HasCode(p.c, s)
  }

  /** Counts of in-range coefficients: categories up to 11 for DC, up to 10 for AC. */
  ghost predicate Plausible(f: seq<nat>, isDC: bool) {
    && |f| == NUM_SYMBOLS
    && forall s :: 0 <= s < PSEUDO_SYMBOL && f[s] > 0 ==> if isDC then s <= MAX_COEF_BITS + 1 else s % 16 <= MAX_COEF_BITS
  }

  /** Symbols below n whose low four bits are below 12. */
  function TwelveOfSixteen(n: nat): nat {
    if n == 0 then 0 else TwelveOfSixteen(n - 1) + if (n - 1) % 16 < 12 then 1 else 0
  }

  lemma {:induction false} TwelveOfSixteenIs(n: nat)
    ensures TwelveOfSixteen(n) == n / 16 * 12 + if n % 16 <= 12 then n % 16 else 12
  {
    if n > 0 {
      TwelveOfSixteenIs(n - 1);
      LastOfSixteen(n);
    }
  }

  lemma LastOfSixteen(n: nat)
    requires n > 0
    ensures n % 16 == 0 ==> (n - 1) / 16 == n / 16 - 1 && (n - 1) % 16 == 15
    ensures n % 16 > 0 ==> (n - 1) / 16 == n / 16 && (n - 1) % 16 == n % 16 - 1
  {
  }

  lemma {:induction false} FewUsed(f: seq<nat>, isDC: bool, n: nat)
    requires Plausible(f, isDC) && n <= PSEUDO_SYMBOL
    ensures Sum(Ones(f)[..n]) <= TwelveOfSixteen(n)
  {
    if n > 0 {
      FewUsed(f, isDC, n - 1);
      SumOfPrefix(Ones(f), n);
    }
  }

  /** In-range coefficients cannot use more than 192 symbols. */
  lemma PlausibleFew(f: seq<nat>, isDC: bool)
    requires Plausible(f, isDC)
    ensures Used(f) <= 193
  {
    FewUsed(f, isDC, PSEUDO_SYMBOL);
    TwelveOfSixteenIs(PSEUDO_SYMBOL);
    hide TwelveOfSixteen;
    assert Ones(f) == Ones(f)[..PSEUDO_SYMBOL] + [Ones(f)[PSEUDO_SYMBOL]];
    assert Ones(f)[..NUM_SYMBOLS - 1] == Ones(f)[..PSEUDO_SYMBOL];
  }

  lemma CodesOfEntered(t: HuffTbl, x: DecTbl, c: CTable)
    requires x.t == t && TblOk(t) && Paired(c, x)
    ensures CodesFit(c)
  {
    assert LeavesRoom(Sizes(t.bits, 16)) && |c.ehufco| == |c.ehufsi| == 256;
    forall s | 0 <= s < 256 ensures Entry(c.ehufsi, s) <= 16 && Entry(c.ehufco, s) < Pow2(Entry(c.ehufsi, s)) {
      if c.ehufsi[s] > 0 {
        HasCodeFits(c, x, s);
      } else {
        Codeless(c, x, s);
      }
    }
  }

  lemma HasCodeFits(c: CTable, x: DecTbl, s: nat)
    requires Paired(c, x) && HasCode(c, s)
    ensures Entry(c.ehufsi, s) <= 16 && Entry(c.ehufco, s) < Pow2(Entry(c.ehufsi, s))
  {
    assert LeavesRoom(Sizes(x.t.bits, 16));
    var p := CodeOfSymbol(c, x, s);
    hide Paired, Sizes, Code, Pow2, LeavesRoom;
    CodeFits(Sizes(x.t.bits, 16), p);
  }

  lemma Codeless(c: CTable, x: DecTbl, s: nat)
    requires Paired(c, x) && s < 256 && |c.ehufco| == |c.ehufsi| == 256 && c.ehufsi[s] == 0
    ensures c.ehufco[s] == 0 && Pow2(0) == 1
  {
    hide Sizes, Code, Derived;
    assert s !in x.t.huffval[..|Sizes(x.t.bits, 16)|];
  }

  datatype Made = Made(p: Pair) | TooLong

  /** Counts that lead to a code of more than 32 bits, before limiting. */
  ghost predicate TooDeep(f: seq<nat>) {
    exists k :: 0 <= k < |MergedSizes(f)| && MergedSizes(f)[k] > MAX_CLEN
  }

  /** That takes many of them: with a total below the 35th Fibonacci number it does not happen. */
  lemma NotTooDeep(f: seq<nat>)
    requires Sum(f) < DEEP_TOTAL
    ensures !TooDeep(f)
  {
    hide Sum, MergedSizes;
    ShallowBelow(f);
  }

  lemma PairMade(f: seq<nat>, size: seq<nat>, t: HuffTbl, c: CTable, d: DTable, isDC: bool)
    requires GoodCounts(f) && Plausible(f[PSEUDO_SYMBOL := 0], isDC) && OptimalSizes(f, size) && FromSizes(f, size, t)
    requires size == MergedSizes(f) && forall k :: 0 <= k < |size| ==> size[k] <= MAX_CLEN
    requires TblOk(t) && Derived(t, d) && Entered(t, c.ehufco, c.ehufsi, |Sizes(t.bits, 16)|)
    requires Decodable(t, isDC)
    ensures PairFor(f, Pair(c, DecTbl(t, d)), isDC)
  {
    hide *;
    CountsShape(f, size);
    GeneratedSymbols(f, size, t);
    ReadsBack(t, c, d, isDC);
    CodesOfEntered(t, DecTbl(t, d), c);
    AllHaveCodes(f, t, c);
    PairIs(f, Pair(c, DecTbl(t, d)), isDC);
  }

  lemma ReadsBack(t: HuffTbl, c: CTable, d: DTable, isDC: bool)
    requires TblOk(t) && Derived(t, d) && Entered(t, c.ehufco, c.ehufsi, |Sizes(t.bits, 16)|) && Decodable(t, isDC)
    ensures Paired(c, DecTbl(t, d)) && DecTblOk(DecTbl(t, d)) && (isDC ==> DcTbl(DecTbl(t, d)))
  {
    hide Derived, Sizes, Entered;
  }

  lemma AllHaveCodes(f: seq<nat>, t: HuffTbl, c: CTable)
    requires TblOk(t) && Entered(t, c.ehufco, c.ehufsi, |Sizes(t.bits, 16)|) && |Sizes(t.bits, 16)| <= 256
    requires |f| == NUM_SYMBOLS == PSEUDO_SYMBOL + 1
    requires forall v: nat :: v in t.huffval[..|Sizes(t.bits, 16)|] <==> v < PSEUDO_SYMBOL && f[v] > 0
    ensures forall s :: 0 <= s < 256 && s < |f| && f[s] > 0 ==> HasCode(c, s)
  {
    hide Entered, Sizes, HasCode;
    forall s: nat | s < 256 && s < |f| && f[s] > 0 ensures HasCode(c, s) {
      assert s in t.huffval[..|Sizes(t.bits, 16)|];
      ListedHasCode(t, c, s);
    }
  }

  lemma PairIs(f: seq<nat>, p: Pair, isDC: bool)
    requires OptimalSizes(f, MergedSizes(f)) && FromSizes(f, MergedSizes(f), p.x.t)
    requires Paired(p.c, p.x) && CodesFit(p.c) && DecTblOk(p.x) && (isDC ==> DcTbl(p.x))
    requires forall s :: 0 <= s < 256 && s < |f| && f[s] > 0 ==> HasCode(p.c, s)
    ensures PairFor(f, p, isDC)
  {
    hide OptimalSizes, FromSizes, MergedSizes, Paired, CodesFit, DecTblOk, DcTbl, HasCode;
  }

  /** The same counts lead to the same codes. */
  lemma PairUnique(f: seq<nat>, p: Pair, q: Pair, isDC: bool)
    requires PairFor(f, p, isDC) && PairFor(f, q, isDC)
    ensures p.c == q.c
  {
    hide OptimalSizes, FromSizes, MergedSizes, Derived, Codes, Sizes, DcTbl, HasCode, CodesFit, Used, Listed;
    TableUnique(f, MergedSizes(f), p.x.t, q.x.t);
    TableCodes(f, p.x.t);
    var s := Sizes(p.x.t.bits, 16);
    ListedUnique(p.x.t.huffval, q.x.t.huffval, Codes(s), s, p.c, q.c, |s|);
  }

  lemma ListedUnique(vals: seq<nat>, others: seq<nat>, codes: seq<nat>, sizes: seq<nat>, c: CTable, d: CTable, n: nat)
    requires Listed(vals, codes, sizes, c.ehufco, c.ehufsi, n) && Listed(others, codes, sizes, d.ehufco, d.ehufsi, n)
    requires vals[..n] == others[..n]
    ensures c == d
  {
    forall v: nat | v < 256 ensures c.ehufco[v] == d.ehufco[v] && c.ehufsi[v] == d.ehufsi[v] {
      if v in vals[..n] {
        var p :| 0 <= p < n && vals[..n][p] == v;
        assert vals[p] == v && others[p] == others[..n][p];
      }
    }
    assert c.ehufco == d.ehufco && c.ehufsi == d.ehufsi;
  }

  /** What a pair made from counts is, as a table. */
  lemma PairTable(f: seq<nat>, p: Pair, isDC: bool)
    requires PairFor(f, p, isDC)
    ensures OptimalSizes(f, MergedSizes(f)) && FromSizes(f, MergedSizes(f), p.x.t)
    ensures TblOk(p.x.t) && Entered(p.x.t, p.c.ehufco, p.c.ehufsi, |Sizes(p.x.t.bits, 16)|)
  {
    hide OptimalSizes, FromSizes, MergedSizes, Derived, Entered, Sizes, DcTbl, HasCode, CodesFit;
  }

  lemma TableCodes(f: seq<nat>, t: HuffTbl)
    requires FromCounts(f, t)
    ensures |Sizes(t.bits, 16)| == Used(f) - 1
  {
    hide OptimalSizes, FromSizes, MergedSizes, Sizes, Used;
    GeneratedRoom(f, MergedSizes(f), t);
  }

  lemma ListedHasCode(t: HuffTbl, c: CTable, s: nat)
    requires TblOk(t) && Entered(t, c.ehufco, c.ehufsi, |Sizes(t.bits, 16)|) && s < 256 && s in t.huffval[..|Sizes(t.bits, 16)|]
    ensures HasCode(c, s)
  {
    hide Code;
    var n := |Sizes(t.bits, 16)|;
    var p :| 0 <= p < n && t.huffval[..n][p] == s;
    assert t.huffval[p] == s && c.ehufsi[s] == Sizes(t.bits, 16)[p];
  }

  /** The symbols admissible for the table are those counted. */
  lemma PlausibleUsable(f: seq<nat>, size: seq<nat>, t: HuffTbl, isDC: bool)
    requires GoodCounts(f) && Plausible(f[PSEUDO_SYMBOL := 0], isDC) && OptimalSizes(f, size) && FromSizes(f, size, t)
    requires forall k :: 0 <= k < |size| ==> size[k] <= MAX_CLEN
    ensures TblOk(t) && Usable(t, isDC) && Decodable(t, isDC)
  {
    var g := f[PSEUDO_SYMBOL := 0];
    assert forall k :: 0 <= k < PSEUDO_SYMBOL ==> g[k] == f[k];
    hide OptimalSizes, FromSizes, Sum, Used, Usable, Decodable;
    GeneratedUsable(f, size, t, isDC);
    UsableIsDecodable(t, isDC);
  }

  /** finish_pass_gather and the derived tables on both sides.  The tables always fit the
      counts; only a code of more than 32 bits before limiting is an error. */
  method MakePair(counts: array<nat>, isDC: bool) returns (r: Made)
    requires counts.Length == NUM_SYMBOLS && Plausible(counts[..][PSEUDO_SYMBOL := 0], isDC)
    requires (exists s :: 0 <= s < PSEUDO_SYMBOL && counts[s] > 0) && Sum(counts[..][PSEUDO_SYMBOL := 1]) <= SENTINEL
    modifies counts
    ensures r.Made? ==> PairFor(old(counts[..])[PSEUDO_SYMBOL := 1], r.p, isDC)
    ensures r.TooLong? <==> TooDeep(old(counts[..])[PSEUDO_SYMBOL := 1])
  {
    ghost var f := counts[..][PSEUDO_SYMBOL := 1];
    CountsGood(counts[..], isDC);
    hide Sum, OptimalSizes, FromSizes, GoodCounts, Plausible, Usable, Decodable, Derived, Entered, PairFor, TblOk, MergedSizes;
    var g;
    ghost var size;
    g, size := GenOptimalTable(counts);
    if g.ClenOverflow? {
      return TooLong;
    }
    PlausibleUsable(f, size, g.t, isDC);
    var c := MakeCDerived(g.t, isDC);
    var d := MakeDDerived(g.t, isDC);
    PairMade(f, size, g.t, c.value, d.value, isDC);
    r := Made(Pair(c.value, DecTbl(g.t, d.value)));
  }

  lemma CountsGood(f: seq<nat>, isDC: bool)
    requires |f| == NUM_SYMBOLS && Plausible(f[PSEUDO_SYMBOL := 0], isDC)
    requires (exists s :: 0 <= s < PSEUDO_SYMBOL && f[s] > 0) && Sum(f[PSEUDO_SYMBOL := 1]) <= SENTINEL
    ensures GoodCounts(f[PSEUDO_SYMBOL := 1]) && f[PSEUDO_SYMBOL := 1][PSEUDO_SYMBOL := 0] == f[PSEUDO_SYMBOL := 0]
  {
    var g := f[PSEUDO_SYMBOL := 1];
    var h := f[PSEUDO_SYMBOL := 0];
    forall s | 0 <= s < PSEUDO_SYMBOL && g[s] > 0 ensures if isDC then s <= MAX_COEF_BITS + 1 else s % 16 <= MAX_COEF_BITS {
      assert h[s] == g[s];
    }
    PlausibleFew(g, isDC);
    hide Sum, Used;
    var s :| 0 <= s < PSEUDO_SYMBOL && f[s] > 0;
    assert g[s] > 0;
  }
}
