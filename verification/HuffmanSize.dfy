/** How many bits a progressive AC scan takes under its own tables. */
module HuffmanSize {
  import opened BitString
  import opened HuffmanCost
  import opened HuffmanMerge
  import opened HuffmanCodes
  import opened HuffmanTable
  import opened HuffmanEncoder
  import opened HuffmanTables
  import opened HuffmanLeast
  import opened HuffmanBands
  import opened HuffmanBandGather

  /** Bits that are no symbols. */
  function RawBits(items: seq<Item>): nat {
    if items == [] then 0 else (match items[0] case Symbol(_) => 0 case Raw(_, n) => n) + RawBits(items[1..])
  }

  ghost predicate AllBytes(items: seq<Item>) {
    forall i :: 0 <= i < |items| && items[i].Symbol? ==> items[i].s < 256
  }

  /** One symbol more. */
  lemma CostOfOne(f: seq<nat>, l: seq<nat>, s: nat)
    requires |l| == 256 <= |f| && s < 256
    ensures Cost(f[s := f[s] + 1][..256], l) == Cost(f[..256], l) + l[s]
  {
    var g := f[..256];
    assert f[s := f[s] + 1][..256] == g[s := g[s] + 1];
    hide Sum;
    assert Costs(g[s := g[s] + 1], l) == Costs(g, l)[s := (g[s] + 1) * l[s]];
    SumUpdate(Costs(g, l), s, (g[s] + 1) * l[s]);
    OneMore(g[s], l[s]);
  }

  lemma OneMore(x: nat, y: nat)
    ensures (x + 1) * y == x * y + y
  {
  }

  /** The bits of the items: each symbol's as often as it is counted, and the others. */
  lemma {:induction false} ItemsSize(c: CTable, items: seq<Item>, f: seq<nat>)
    requires |c.ehufsi| == 256 <= |f| && AllBytes(items)
    ensures |ItemsBits(c, items)| + Cost(f[..256], c.ehufsi) == Cost(Tallied(f, SymsOf(items))[..256], c.ehufsi) + RawBits(items)
    decreases |items|
  {
    hide *;
    if items == [] {
      NoSize(c, items, f);
    } else {
      FirstSize(c, items, f);
      ItemsSize(c, items[1..], CountedOnce(f, items[0]));
      if items[0].Symbol? {
        CostOfOne(f, c.ehufsi, items[0].s);
      }
    }
  }

  lemma NoSize(c: CTable, items: seq<Item>, f: seq<nat>)
    requires items == []
    ensures |ItemsBits(c, items)| == 0 == RawBits(items) && Tallied(f, SymsOf(items)) == f
  {
  }

  lemma FirstSize(c: CTable, items: seq<Item>, f: seq<nat>)
    requires |c.ehufsi| == 256 <= |f| && AllBytes(items) && items != []
    ensures AllBytes(items[1..]) && |CountedOnce(f, items[0])| == |f|
    ensures Tallied(f, SymsOf(items)) == Tallied(CountedOnce(f, items[0]), SymsOf(items[1..]))
    ensures items[0].Symbol? ==>
      && items[0].s < 256 && CountedOnce(f, items[0]) == f[items[0].s := f[items[0].s] + 1]
      && |ItemsBits(c, items)| == c.ehufsi[items[0].s] + |ItemsBits(c, items[1..])| && RawBits(items) == RawBits(items[1..])
    ensures items[0].Raw? ==>
      && CountedOnce(f, items[0]) == f
      && |ItemsBits(c, items)| - RawBits(items) == |ItemsBits(c, items[1..])| - RawBits(items[1..])
  {
    CountFirst(f, items, items[0], items[1..]);
    hide Tallied, SymsOf, BitsOf;
  }

  /** What an optimised scan takes is the least possible: no prefix code for its symbols, as long as it has no
      longer words than the table and none of ones only, gives fewer bits. */
  lemma ScanIsSmallest(f: seq<nat>, p: Pair, items: seq<Item>, w: seq<Word>, m: nat)
    requires |f| == NUM_SYMBOLS && f == Tallied(seq(NUM_SYMBOLS, _ => 0), SymsOf(items)) && AllBytes(items)
    requires var g := f[PSEUDO_SYMBOL := 1];
      GoodCounts(g) && PairFor(g, p, false) && SizesShort(g) && OtherCode(g, w, m)
    ensures var g := f[PSEUDO_SYMBOL := 1];
      && |g[..PSEUDO_SYMBOL]| == |w|
      && |ItemsBits(p.c, items)| + Longest(p.c.ehufsi) <= Cost(g[..PSEUDO_SYMBOL], Lengths(w)) + RawBits(items) + m
      && (m <= Longest(p.c.ehufsi) ==> |ItemsBits(p.c, items)| <= Cost(g[..PSEUDO_SYMBOL], Lengths(w)) + RawBits(items))
  {
    var g, zeros := f[PSEUDO_SYMBOL := 1], seq(NUM_SYMBOLS, _ => 0);
    assert g[..256] == f[..256] && PSEUDO_SYMBOL == 256;
    hide *;
    LeastBits(g, p, false, w, m);
    ZeroCost(zeros, p.c.ehufsi);
    ItemsSize(p.c, items, zeros);
  }

  lemma ZeroCost(f: seq<nat>, l: seq<nat>)
    requires f == seq(NUM_SYMBOLS, _ => 0) && |l| == 256
    ensures 256 <= |f| && Cost(f[..256], l) == 0
  {
    SumZero(Costs(f[..256], l));
  }
}
