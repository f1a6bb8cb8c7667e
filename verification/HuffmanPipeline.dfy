/** The optimised baseline pipeline: gather counts, build tables, encode, decode. */
module HuffmanPipeline {
  import opened Digits
  import opened BitString
  import opened HuffmanBits
  import opened HuffmanCost
  import opened HuffmanDepth
  import opened HuffmanMerge
  import opened HuffmanCodes
  import opened HuffmanDecode
  import opened HuffmanBlock
  import opened HuffmanEncoder
  import opened HuffmanReader
  import opened HuffmanMcu
  import opened HuffmanTables
  import opened HuffmanScan
  import opened HuffmanGather
  import opened NaturalOrder

  // ----- Tables for the counts

  /** The tables used by the blocks of an MCU have pairs for their counts. */
  ghost predicate PairsFor(f: seq<seq<nat>>, uses: seq<nat>, pairs: seq<Pair>, isDC: bool) {
    |pairs| == |f| && forall n :: 0 <= n < |uses| && uses[n] < |f| ==> PairFor(WithPseudo(f[uses[n]]), pairs[uses[n]], isDC)
  }

  /** The counts with the reserved symbol of clause K.2. */
  function WithPseudo(f: seq<nat>): (r: seq<nat>)
    ensures |r| == |f|
  {
    if |f| == NUM_SYMBOLS then f[PSEUDO_SYMBOL := 1] else f
  }

  /** Counts that a table can be made for. */
  ghost predicate Ready(f: seq<nat>, isDC: bool) {
    Plausible(f, isDC) && Sum(f) < SENTINEL && exists s :: 0 <= s < PSEUDO_SYMBOL && f[s] > 0
  }

  lemma ReadyForPair(f: seq<nat>, isDC: bool)
    requires Ready(f, isDC)
    ensures |f| == NUM_SYMBOLS && Plausible(f[PSEUDO_SYMBOL := 0], isDC) && Sum(WithPseudo(f)) <= SENTINEL
    ensures exists s :: 0 <= s < PSEUDO_SYMBOL && f[s] > 0
  {
    SumUpdate(f, PSEUDO_SYMBOL, 1);
    hide Sum;
    forall s | 0 <= s < PSEUDO_SYMBOL && f[PSEUDO_SYMBOL := 0][s] > 0
      ensures if isDC then s <= MAX_COEF_BITS + 1 else s % 16 <= MAX_COEF_BITS
    {
      assert f[s] > 0;
    }
  }

  method MakeOne(counts: array<nat>, isDC: bool) returns (r: Made)
    requires counts.Length == NUM_SYMBOLS && Ready(counts[..], isDC)
    modifies counts
    ensures r.Made? ==> PairFor(WithPseudo(old(counts[..])), r.p, isDC)
    ensures r.TooLong? <==> TooDeep(WithPseudo(old(counts[..])))
  {
    ReadyForPair(counts[..], isDC);
    hide Sum, Plausible, PairFor, TooDeep;
    r := MakePair(counts, isDC);
  }

  /** finish_pass_gather: each table the scan uses is made once. */
  method MakePairs(counts: seq<array<nat>>, uses: seq<nat>, isDC: bool, nothing: Pair) returns (ok: bool, pairs: seq<Pair>)
    requires forall t :: 0 <= t < |counts| ==> counts[t].Length == NUM_SYMBOLS
    requires forall t, u :: 0 <= t < u < |counts| ==> counts[t] != counts[u]
    requires forall n :: 0 <= n < |uses| ==> uses[n] < |counts| && Ready(Counts(counts)[uses[n]], isDC)
    modifies counts
    ensures ok ==> PairsFor(old(Counts(counts)), uses, pairs, isDC)
    ensures !ok <==> exists n :: 0 <= n < |uses| && uses[n] < |counts| && TooDeep(WithPseudo(old(Counts(counts))[uses[n]]))
  {
    hide Ready, PairFor, TooDeep, WithPseudo;
    ghost var f := Counts(counts);
    var did: seq<bool> := seq(|counts|, _ => false);
    pairs := seq(|counts|, _ => nothing);
    for n := 0 to |uses|
      invariant |did| == |pairs| == |counts|
      invariant forall t :: 0 <= t < |counts| && !did[t] ==> counts[t][..] == f[t]
      invariant forall t :: 0 <= t < |counts| && did[t] ==> PairFor(WithPseudo(f[t]), pairs[t], isDC)
      invariant forall m :: 0 <= m < n ==> did[uses[m]]
      invariant forall t :: 0 <= t < |counts| && did[t] ==> !TooDeep(WithPseudo(f[t]))
    {
      var t := uses[n];
      if !did[t] {
        assert counts[t][..] == f[t];
        var made := MakeOne(counts[t], isDC);
        if made.TooLong? {
          return false, [];
        }
        pairs := pairs[t := made.p];
        did := did[t := true];
      }
    }
    ok := true;
  }

  function DcUses(cfg: seq<BlockPlan>): (r: seq<nat>)
    ensures |r| == |cfg| && forall n :: 0 <= n < |cfg| ==> r[n] == cfg[n].dcTbl
  {
    seq(|cfg|, n requires 0 <= n < |cfg| => cfg[n].dcTbl)
  }

  function AcUses(cfg: seq<BlockPlan>): (r: seq<nat>)
    ensures |r| == |cfg| && forall n :: 0 <= n < |cfg| ==> r[n] == cfg[n].acTbl
  {
    seq(|cfg|, n requires 0 <= n < |cfg| => cfg[n].acTbl)
  }

  // ----- The tables code the scan

  ghost predicate TablesFor(st: Stats, cfg: seq<BlockPlan>, t: Tables) {
    |st.dc| == |st.ac| && PairsFor(st.dc, DcUses(cfg), t.dc, true) && PairsFor(st.ac, AcUses(cfg), t.ac, false)
  }

  lemma CountedCoded(f: seq<nat>, p: Pair, isDC: bool, ys: seq<Sym>)
    requires |f| == NUM_SYMBOLS && PairFor(WithPseudo(f), p, isDC) && CountedIn(f, ys)
    ensures Coded(p.c, ys)
  {
    hide HasCode, Paired, CodesFit;
    var g := WithPseudo(f);
    forall i | 0 <= i < |ys| ensures HasCode(p.c, ys[i].s) {
      assert g[ys[i].s] > 0;
    }
  }

  lemma PairUsed(f: seq<seq<nat>>, uses: seq<nat>, pairs: seq<Pair>, isDC: bool, n: nat)
    requires PairsFor(f, uses, pairs, isDC) && n < |uses| && uses[n] < |f|
    ensures |pairs| == |f| && PairFor(WithPseudo(f[uses[n]]), pairs[uses[n]], isDC)
  {
    hide PairFor;
  }

  /** Coefficients are 16-bit integers. */
  ghost predicate SixteenBit(mcu: seq<seq<int>>) {
    forall n, k :: 0 <= n < |mcu| && 0 <= k < |mcu[n]| ==> -0x8000 <= mcu[n][k] < 0x8000
  }

  lemma CodedMcu(st: Stats, cfg: seq<BlockPlan>, t: Tables, zs: Mcu, last: seq<int>, total: nat)
    requires |cfg| == |zs| && PlanOk(cfg, |last|, |st.dc|) && TablesFor(st, cfg, t) && StatsOk(st, total)
    requires McuInRange(cfg, zs, last) && McuCounted(cfg, zs, last, st, |cfg|)
    requires forall n :: 0 <= n < |zs| ==> -0x8000 <= zs[n][0] < 0x8000
    ensures |t.dc| == |t.ac| == |st.dc| && McuCoded(t, cfg, zs, last)
  {
    assert |t.dc| == |t.ac| == |st.dc| by { hide PairFor; }
    assert forall i :: 0 <= i < |st.dc| ==> |st.dc[i]| == |st.ac[i]| == NUM_SYMBOLS;
    hide PairsFor, PairFor, StatsOk, AcInRange, DiffInRange, DiffAt, CountedIn, Coded, BlockSyms, DcSym;
    forall n | 0 <= n < |cfg|
      ensures AcInRange(zs[n]) && DiffInRange(DiffAt(cfg, zs, last, n))
      ensures Coded(t.dc[cfg[n].dcTbl].c, [DcSym(DiffAt(cfg, zs, last, n))]) && Coded(t.ac[cfg[n].acTbl].c, BlockSyms(zs[n]))
    {
      var d, a := cfg[n].dcTbl, cfg[n].acTbl;
      assert BlockInRange(cfg, zs, last, n);
      assert BlockCounted(st.dc[d], st.ac[a], zs[n], DiffAt(cfg, zs, last, n));
      PairUsed(st.dc, DcUses(cfg), t.dc, true, n);
      PairUsed(st.ac, AcUses(cfg), t.ac, false, n);
      CountedCoded(st.dc[d], t.dc[d], true, [DcSym(DiffAt(cfg, zs, last, n))]);
      CountedCoded(st.ac[a], t.ac[a], false, BlockSyms(zs[n]));
    }
  }

  /** Every symbol the encoder emits was counted and so has a code. */
  lemma GatheredCodes(st0: Stats, cfg: seq<BlockPlan>, t: Tables, mcus: seq<Mcu>, last: seq<int>, total: nat)
    requires PlanOk(cfg, |last|, |st0.dc|) && |st0.dc| == |st0.ac| && forall i :: 0 <= i < |mcus| ==> |mcus[i]| == |cfg|
    requires StatsOk(st0, total) && ScanInRange(cfg, mcus, last)
    requires forall i, n :: 0 <= i < |mcus| && 0 <= n < |cfg| ==> -0x8000 <= mcus[i][n][0] < 0x8000
    requires TablesFor(CountScan(cfg, mcus, last, st0, |mcus|), cfg, t)
    ensures ScanCoded(t, cfg, mcus, last) && TablesOk(t, cfg)
  {
    hide *;
    CountedFacts(cfg, mcus, last, st0, total);
    var st := CountScan(cfg, mcus, last, st0, |mcus|);
    TablesForOk(st, cfg, t, |last|);
    McusCoded(st, cfg, t, mcus, last, total + 64 * (|cfg| * |mcus|));
  }

  lemma CountedFacts(cfg: seq<BlockPlan>, mcus: seq<Mcu>, last: seq<int>, st0: Stats, total: nat)
    requires PlanOk(cfg, |last|, |st0.dc|) && |st0.dc| == |st0.ac| && forall i :: 0 <= i < |mcus| ==> |mcus[i]| == |cfg|
    requires StatsOk(st0, total) && ScanInRange(cfg, mcus, last)
    ensures forall i :: 0 <= i < |cfg| ==> cfg[i].ci < |last|
    ensures var st := CountScan(cfg, mcus, last, st0, |mcus|);
      && |st.dc| == |st.ac| == |st0.dc| && StatsOk(st, total + 64 * (|cfg| * |mcus|))
      && ScanCounted(cfg, mcus, last, st, |mcus|)
  {
    hide CountScan, StatsOk, ScanCounted, ScanInRange, AllGrew;
    CountScanFacts(cfg, mcus, last, st0, |mcus|, total);
  }

  lemma McusCoded(st: Stats, cfg: seq<BlockPlan>, t: Tables, mcus: seq<Mcu>, last: seq<int>, all: nat)
    requires PlanOk(cfg, |last|, |st.dc|) && |st.dc| == |st.ac| && forall i :: 0 <= i < |mcus| ==> |mcus[i]| == |cfg|
    requires StatsOk(st, all) && ScanInRange(cfg, mcus, last) && ScanCounted(cfg, mcus, last, st, |mcus|)
    requires forall i, n :: 0 <= i < |mcus| && 0 <= n < |cfg| ==> -0x8000 <= mcus[i][n][0] < 0x8000
    requires TablesFor(st, cfg, t) && |t.dc| == |t.ac| == |st.dc|
    ensures ScanCoded(t, cfg, mcus, last)
  {
    hide StatsOk, TablesFor, McuInRange, McuCounted, McuCoded, ScanLast;
    forall i | 0 <= i < |mcus| ensures McuCoded(t, cfg, mcus[i], ScanLast(cfg, mcus, last, i)) {
      CodedMcu(st, cfg, t, mcus[i], ScanLast(cfg, mcus, last, i), all);
    }
  }

  lemma TablesForOk(st: Stats, cfg: seq<BlockPlan>, t: Tables, ncomps: nat)
    requires PlanOk(cfg, ncomps, |st.dc|) && TablesFor(st, cfg, t)
    ensures TablesOk(t, cfg) && |t.dc| == |t.ac| == |st.dc|
    ensures forall n :: 0 <= n < |cfg| ==> CodesFit(t.dc[cfg[n].dcTbl].c) && CodesFit(t.ac[cfg[n].acTbl].c)
  {
    hide Paired, CodesFit, DcTbl, DecTblOk, HasCode;
    forall n | 0 <= n < |cfg|
      ensures PairFor(WithPseudo(st.dc[cfg[n].dcTbl]), t.dc[cfg[n].dcTbl], true)
      ensures PairFor(WithPseudo(st.ac[cfg[n].acTbl]), t.ac[cfg[n].acTbl], false)
    {
      PairUsed(st.dc, DcUses(cfg), t.dc, true, n);
      PairUsed(st.ac, AcUses(cfg), t.ac, false, n);
    }
  }

  // ----- Encoding

  /** The tables of each block can be written with. */
  ghost predicate AllFit(t: Tables, cfg: seq<BlockPlan>) {
    |t.dc| == |t.ac| && forall n :: 0 <= n < |cfg| ==>
      && cfg[n].dcTbl < |t.dc| && CodesFit(t.dc[cfg[n].dcTbl].c)
      && cfg[n].acTbl < |t.ac| && CodesFit(t.ac[cfg[n].acTbl].c)
  }

  /** The turn of block n. */
  method EncodeTurn(w: WordWriter, t: Tables, cfg: seq<BlockPlan>, mcu: seq<seq<int>>, ghost last0: seq<int>, n: nat,
                    last1: seq<int>, ghost sent: Bits)
      returns (last: seq<int>)
    requires w.Valid() && AllFit(t, cfg) && PlanOk(cfg, |last0|, |t.dc|) && |mcu| == |cfg| && StoredMcu(mcu) && n < |cfg|
    requires McuInRange(cfg, ZigMcu(mcu), last0) && last1 == LastAfter(cfg, ZigMcu(mcu), last0, n)
    requires w.sent == sent + McuBits(t, cfg, ZigMcu(mcu), last0, n)
    modifies w
    ensures w.Valid() && w.start == old(w.start) && last == LastAfter(cfg, ZigMcu(mcu), last0, n + 1)
    ensures w.sent == sent + McuBits(t, cfg, ZigMcu(mcu), last0, n + 1)
  {
    hide *;
    TurnFacts(t, cfg, mcu, last0, n);
    DiffOfBlock(cfg, mcu, last0, n);
    NextBits(t, cfg, ZigMcu(mcu), last0, n, sent);
    EncodeOneBlock(w, mcu[n], last1[cfg[n].ci], t.dc[cfg[n].dcTbl].c, t.ac[cfg[n].acTbl].c);
    last := last1[cfg[n].ci := mcu[n][0]];
  }

  lemma TurnFacts(t: Tables, cfg: seq<BlockPlan>, mcu: seq<seq<int>>, last0: seq<int>, n: nat)
    requires AllFit(t, cfg) && PlanOk(cfg, |last0|, |t.dc|) && |mcu| == |cfg| && StoredMcu(mcu) && n < |cfg|
    requires McuInRange(cfg, ZigMcu(mcu), last0)
    ensures |mcu[n]| == 64 && ZigMcu(mcu)[n] == Zig(mcu[n]) && cfg[n].ci < |last0| && forall k :: 0 <= k < |mcu| ==> |mcu[k]| == 64
    ensures forall i :: 0 <= i < |cfg| ==> cfg[i].ci < |last0|
    ensures AcInRange(Zig(mcu[n])) && DiffInRange(DiffAt(cfg, ZigMcu(mcu), last0, n))
    ensures |t.dc| == |t.ac| && cfg[n].dcTbl < |t.dc| && cfg[n].acTbl < |t.ac|
    ensures CodesFit(t.dc[cfg[n].dcTbl].c) && CodesFit(t.ac[cfg[n].acTbl].c)
  {
    assert BlockInRange(cfg, ZigMcu(mcu), last0, n);
    hide AcInRange, DiffInRange, Zig, DiffAt, CodesFit;
  }

  lemma NextBits(t: Tables, cfg: seq<BlockPlan>, zs: Mcu, last: seq<int>, n: nat, sent: Bits)
    requires n < |cfg| == |zs| && PlanOk(cfg, |last|, |t.dc|) && |t.dc| == |t.ac|
    ensures sent + McuBits(t, cfg, zs, last, n + 1)
      == sent + McuBits(t, cfg, zs, last, n)
         + BlockBits(t.dc[cfg[n].dcTbl].c, t.ac[cfg[n].acTbl].c, zs[n], DiffAt(cfg, zs, last, n))
  {
    hide BlockBits, DiffAt, LastAfter;
    BitsAssoc(sent, McuBits(t, cfg, zs, last, n),
              BlockBits(t.dc[cfg[n].dcTbl].c, t.ac[cfg[n].acTbl].c, zs[n], DiffAt(cfg, zs, last, n)));
  }

  lemma NoBits(t: Tables, cfg: seq<BlockPlan>, zs: Mcu, last: seq<int>, sent: Bits)
    requires |cfg| == |zs| && PlanOk(cfg, |last|, |t.dc|) && |t.dc| == |t.ac|
    ensures sent + McuBits(t, cfg, zs, last, 0) == sent && LastAfter(cfg, zs, last, 0) == last
  {
  }

  /** How far the encoder has got with an MCU. */
  ghost predicate AtBlock(w: WordWriter, t: Tables, cfg: seq<BlockPlan>, mcu: seq<seq<int>>, last0: seq<int>, n: nat, last: seq<int>, sent: Bits)
    reads w
  {
    && w.Valid() && |mcu| == |cfg| && StoredMcu(mcu) && n <= |cfg| && AllFit(t, cfg) && PlanOk(cfg, |last0|, |t.dc|)
    && McuInRange(cfg, ZigMcu(mcu), last0)
    && last == LastAfter(cfg, ZigMcu(mcu), last0, n) && w.sent == sent + McuBits(t, cfg, ZigMcu(mcu), last0, n)
  }

  method EncodeNextBlock(w: WordWriter, t: Tables, cfg: seq<BlockPlan>, mcu: seq<seq<int>>, ghost last0: seq<int>, n: nat,
                         last1: seq<int>, ghost sent: Bits) returns (last: seq<int>)
    requires n < |cfg| && AtBlock(w, t, cfg, mcu, last0, n, last1, sent)
    modifies w
    ensures AtBlock(w, t, cfg, mcu, last0, n + 1, last, sent) && w.start == old(w.start)
  {
    hide AllFit, McuInRange, LastAfter, McuBits, ZigMcu, WordWriter.Valid, StoredMcu, PlanOk;
    last := EncodeTurn(w, t, cfg, mcu, last0, n, last1, sent);
  }

  lemma AtFirstBlock(w: WordWriter, t: Tables, cfg: seq<BlockPlan>, mcu: seq<seq<int>>, last0: seq<int>)
    requires w.Valid() && AllFit(t, cfg) && PlanOk(cfg, |last0|, |t.dc|) && |mcu| == |cfg| && StoredMcu(mcu)
    requires McuInRange(cfg, ZigMcu(mcu), last0)
    ensures AtBlock(w, t, cfg, mcu, last0, 0, last0, w.sent)
  {
    NoBits(t, cfg, ZigMcu(mcu), last0, w.sent);
    hide McuInRange, LastAfter, McuBits, ZigMcu, WordWriter.Valid, CodesFit;
  }

  /** encode_mcu_huff, without the restart bookkeeping. */
  method EncodeMcu(w: WordWriter, t: Tables, cfg: seq<BlockPlan>, mcu: seq<seq<int>>, last0: seq<int>) returns (last: seq<int>)
    requires w.Valid() && AllFit(t, cfg) && PlanOk(cfg, |last0|, |t.dc|) && |mcu| == |cfg| && StoredMcu(mcu)
    requires McuInRange(cfg, ZigMcu(mcu), last0)
    modifies w
    ensures w.Valid() && w.start == old(w.start) && last == LastAfter(cfg, ZigMcu(mcu), last0, |cfg|)
    ensures w.sent == old(w.sent) + McuBits(t, cfg, ZigMcu(mcu), last0, |cfg|)
  {
    hide *;
    ghost var sent := w.sent;
    AtFirstBlock(w, t, cfg, mcu, last0);
    last := last0;
    for n := 0 to |cfg|
      invariant AtBlock(w, t, cfg, mcu, last0, n, last, sent) && w.start == old(w.start)
    {
      last := EncodeNextBlock(w, t, cfg, mcu, last0, n, last, sent);
    }
    AtLastBlock(w, t, cfg, mcu, last0, last, sent);
  }

  lemma AtLastBlock(w: WordWriter, t: Tables, cfg: seq<BlockPlan>, mcu: seq<seq<int>>, last0: seq<int>, last: seq<int>, sent: Bits)
    requires AtBlock(w, t, cfg, mcu, last0, |cfg|, last, sent) && |mcu| == |cfg| && StoredMcu(mcu) && PlanOk(cfg, |last0|, |t.dc|)
    requires AllFit(t, cfg)
    ensures w.Valid() && last == LastAfter(cfg, ZigMcu(mcu), last0, |cfg|) && w.sent == sent + McuBits(t, cfg, ZigMcu(mcu), last0, |cfg|)
  {
    hide LastAfter, McuBits, ZigMcu, WordWriter.Valid;
  }

  lemma NextMcuBits(t: Tables, cfg: seq<BlockPlan>, mcus: seq<Mcu>, last: seq<int>, k: nat)
    requires k < |mcus| && PlanOk(cfg, |last|, |t.dc|) && |t.dc| == |t.ac| && forall i :: 0 <= i < |mcus| ==> |mcus[i]| == |cfg|
    ensures ScanBits(t, cfg, mcus, last, k + 1)
      == ScanBits(t, cfg, mcus, last, k) + McuBits(t, cfg, mcus[k], ScanLast(cfg, mcus, last, k), |cfg|)
    ensures ScanLast(cfg, mcus, last, k + 1) == LastAfter(cfg, mcus[k], ScanLast(cfg, mcus, last, k), |cfg|)
  {
    hide McuBits, LastAfter;
  }

  lemma NoScanBits(t: Tables, cfg: seq<BlockPlan>, mcus: seq<Mcu>, last: seq<int>)
    requires PlanOk(cfg, |last|, |t.dc|) && |t.dc| == |t.ac| && forall i :: 0 <= i < |mcus| ==> |mcus[i]| == |cfg|
    ensures ScanBits(t, cfg, mcus, last, 0) == [] && ScanLast(cfg, mcus, last, 0) == last
  {
  }

  method EncodeNextMcu(w: WordWriter, t: Tables, cfg: seq<BlockPlan>, mcus: seq<seq<seq<int>>>, ghost last0: seq<int>, k: nat,
                       last1: seq<int>)
      returns (last: seq<int>)
    requires w.Valid() && AllFit(t, cfg) && PlanOk(cfg, |last0|, |t.dc|) && StoredMcus(cfg, mcus) && k < |mcus|
    requires ScanInRange(cfg, ZigMcus(mcus), last0) && last1 == ScanLast(cfg, ZigMcus(mcus), last0, k)
    requires w.sent == ScanBits(t, cfg, ZigMcus(mcus), last0, k)
    modifies w
    ensures w.Valid() && w.start == old(w.start) && last == ScanLast(cfg, ZigMcus(mcus), last0, k + 1)
    ensures w.sent == ScanBits(t, cfg, ZigMcus(mcus), last0, k + 1)
  {
    assert ZigMcus(mcus)[k] == ZigMcu(mcus[k]);
    hide McuInRange, ZigMcu, McuBits, ScanBits, LastAfter, ScanLast, WordWriter.Valid, CodesFit;
    NextMcuBits(t, cfg, ZigMcus(mcus), last0, k);
    last := EncodeMcu(w, t, cfg, mcus[k], last1);
  }

  /** The second pass: the scan's bits, packed, padded and stuffed. */
  method EncodeScan(t: Tables, cfg: seq<BlockPlan>, mcus: seq<seq<seq<int>>>, last0: seq<int>, out0: seq<byte>) returns (out: seq<byte>)
    requires AllFit(t, cfg) && PlanOk(cfg, |last0|, |t.dc|) && StoredMcus(cfg, mcus) && ScanInRange(cfg, ZigMcus(mcus), last0)
    ensures out == out0 + Finished(ScanBits(t, cfg, ZigMcus(mcus), last0, |mcus|))
  {
    hide *;
    var w := new WordWriter(out0);
    AtFirstMcu(w, t, cfg, mcus, last0);
    var last := last0;
    for k := 0 to |mcus|
      invariant AtMcu(w, t, cfg, mcus, last0, k, last) && w.start == out0
    {
      last := EncodeFromHere(w, t, cfg, mcus, last0, k, last);
    }
    AtEnd(w, t, cfg, mcus, last0, last);
    w.FlushBits();
    out := w.out;
  }

  /** How far the encoder has got with a scan. */
  ghost predicate AtMcu(w: WordWriter, t: Tables, cfg: seq<BlockPlan>, mcus: seq<seq<seq<int>>>, last0: seq<int>, k: nat, last: seq<int>)
    reads w
  {
    && w.Valid() && AllFit(t, cfg) && PlanOk(cfg, |last0|, |t.dc|) && StoredMcus(cfg, mcus) && k <= |mcus|
    && ScanInRange(cfg, ZigMcus(mcus), last0)
    && last == ScanLast(cfg, ZigMcus(mcus), last0, k) && w.sent == ScanBits(t, cfg, ZigMcus(mcus), last0, k)
  }

  lemma AtFirstMcu(w: WordWriter, t: Tables, cfg: seq<BlockPlan>, mcus: seq<seq<seq<int>>>, last0: seq<int>)
    requires w.Valid() && w.sent == [] && AllFit(t, cfg) && PlanOk(cfg, |last0|, |t.dc|) && StoredMcus(cfg, mcus)
    requires ScanInRange(cfg, ZigMcus(mcus), last0)
    ensures AtMcu(w, t, cfg, mcus, last0, 0, last0)
  {
    NoScanBits(t, cfg, ZigMcus(mcus), last0);
    hide ScanInRange, ZigMcus, ScanBits, ScanLast, WordWriter.Valid, CodesFit, StoredMcus, PlanOk;
  }

  method EncodeFromHere(w: WordWriter, t: Tables, cfg: seq<BlockPlan>, mcus: seq<seq<seq<int>>>, ghost last0: seq<int>, k: nat, last1: seq<int>)
      returns (last: seq<int>)
    requires k < |mcus| && AtMcu(w, t, cfg, mcus, last0, k, last1)
    modifies w
    ensures AtMcu(w, t, cfg, mcus, last0, k + 1, last) && w.start == old(w.start)
  {
    hide AllFit, ScanInRange, ScanLast, ScanBits, ZigMcus, WordWriter.Valid, StoredMcus, PlanOk;
    last := EncodeNextMcu(w, t, cfg, mcus, last0, k, last1);
  }

  lemma AtEnd(w: WordWriter, t: Tables, cfg: seq<BlockPlan>, mcus: seq<seq<seq<int>>>, last0: seq<int>, last: seq<int>)
    requires AtMcu(w, t, cfg, mcus, last0, |mcus|, last) && StoredMcus(cfg, mcus) && PlanOk(cfg, |last0|, |t.dc|) && AllFit(t, cfg)
    ensures w.Valid() && w.sent == ScanBits(t, cfg, ZigMcus(mcus), last0, |mcus|)
  {
    hide ScanLast, ScanBits, ZigMcus, WordWriter.Valid;
  }

  // ----- The whole pipeline

  lemma DecCfgOk(t: Tables, cfg: seq<BlockPlan>, ncomps: nat)
    requires TablesOk(t, cfg) && PlanOk(cfg, ncomps, |t.dc|)
    ensures CfgOk(DecCfg(t, cfg), ncomps)
  {
    hide Paired, DcTbl, DecTblOk;
  }

  /** Decoding what EncodeScan wrote, in deliveries of any sizes. */
  method DecodeScan(t: Tables, cfg: seq<BlockPlan>, ncomps: nat, code: seq<byte>, sizes: seq<nat>, ghost mcus: seq<Mcu>, k: nat, ghost tail: seq<byte>)
      returns (got: seq<Mcu>)
    requires TablesOk(t, cfg) && |cfg| > 0 && ScanCoded(t, cfg, mcus, seq(ncomps, _ => 0)) && k == |mcus|
    requires |tail| >= 2 && tail[0] == 0xFF && 0 < tail[1] < 0xFF
    requires code == Finished(ScanBits(t, cfg, mcus, seq(ncomps, _ => 0), k)) + tail
    ensures got == mcus
  {
    ghost var last0: seq<int> := seq(ncomps, _ => 0);
    ghost var b := ScanBits(t, cfg, mcus, last0, k);
    FinishedRead(b, tail);
    DecCfgOk(t, cfg, ncomps);
    hide TablesOk, Finished, Padding, Stream, Ends, Plain, CfgOk, DecodeMcus, ScanBits, McuCoded;
    ScanInverts(t, cfg, mcus, last0, k, Padding(|b|) + [false]);
    assert mcus[..k] == mcus;
    got := DecodeInPieces(DecCfg(t, cfg), ncomps, code, sizes, k);
  }

  datatype Outcome = OutOfRange | TooLong | Rebuilt(t: Tables, code: seq<byte>, mcus: seq<Mcu>)

  method NewCounts(n: nat) returns (dc: seq<array<nat>>, ac: seq<array<nat>>)
    ensures |dc| == n && Arrays(dc, ac) && StatsOk(StatsOf(dc, ac), 0)
    ensures StatsOf(dc, ac) == NoStats(n)
    ensures forall t :: 0 <= t < n ==> fresh(dc[t]) && fresh(ac[t])
  {
    dc, ac := [], [];
    for i := 0 to n
      invariant |dc| == |ac| == i && Arrays(dc, ac)
      invariant forall t :: 0 <= t < i ==> fresh(dc[t]) && fresh(ac[t]) && dc[t][..] == seq(NUM_SYMBOLS, _ => 0) == ac[t][..]
    {
      var d := new nat[NUM_SYMBOLS](_ => 0);
      var a := new nat[NUM_SYMBOLS](_ => 0);
      assert d[..] == seq(NUM_SYMBOLS, _ => 0) == a[..];
      dc, ac := dc + [d], ac + [a];
    }
    NoStatsOk(n);
    assert Counts(dc) == NoStats(n).dc && Counts(ac) == NoStats(n).ac;
  }

  function NoStats(n: nat): Stats {
    Stats(seq(n, _ => seq(NUM_SYMBOLS, _ => 0)), seq(n, _ => seq(NUM_SYMBOLS, _ => 0)))
  }

  lemma NoStatsOk(n: nat)
    ensures StatsOk(NoStats(n), 0)
  {
    SumZero(seq(NUM_SYMBOLS, _ => 0));
    hide Sum;
  }

  /** The counts of a whole scan. */
  function ScanStats(cfg: seq<BlockPlan>, mcus: seq<seq<seq<int>>>, ncomps: nat, ntbls: nat): (r: Stats)
    requires PlanOk(cfg, ncomps, ntbls) && StoredMcus(cfg, mcus)
    ensures |r.dc| == |r.ac| == ntbls
  {
    CountScan(cfg, ZigMcus(mcus), seq(ncomps, _ => 0), NoStats(ntbls), |mcus|)
  }

  /** A table that has counted something, and not too much. */
  lemma CountedReady(st: Stats, d: nat, a: nat, z: Block, diff: int, total: nat)
    requires StatsOk(st, total) && total < SENTINEL && d < |st.dc| && a < |st.ac|
    requires AcInRange(z) && BlockCounted(st.dc[d], st.ac[a], z, diff)
    ensures Ready(st.dc[d], true) && Ready(st.ac[a], false)
  {
    BlockSymsFacts(z, 1);
    hide Sum, BlockSyms, DcSym, AcInRange, CountedIn;
    assert |st.dc[d]| == |st.ac[a]| == NUM_SYMBOLS;
    SomeCounted(st.dc[d], [DcSym(diff)]);
    SomeCounted(st.ac[a], BlockSyms(z));
  }

  /** So are all tables used. */
  lemma StatsReady(cfg: seq<BlockPlan>, mcus: seq<Mcu>, last: seq<int>, st: Stats, n: nat, total: nat)
    requires mcus != [] && PlanOk(cfg, |last|, |st.dc|) && |st.dc| == |st.ac| && forall i :: 0 <= i < |mcus| ==> |mcus[i]| == |cfg|
    requires StatsOk(st, total) && total < SENTINEL && n < |cfg|
    requires ScanInRange(cfg, mcus, last) && ScanCounted(cfg, mcus, last, st, |mcus|)
    ensures Ready(st.dc[cfg[n].dcTbl], true) && Ready(st.ac[cfg[n].acTbl], false)
  {
    var l := ScanLast(cfg, mcus, last, 0);
    assert McuCounted(cfg, mcus[0], l, st, |cfg|) && McuInRange(cfg, mcus[0], l);
    hide StatsOk, Ready, DiffAt, ScanLast, AcInRange, DiffInRange, CountedIn, ScanInRange, ScanCounted;
    assert BlockInRange(cfg, mcus[0], l, n);
    CountedReady(st, cfg[n].dcTbl, cfg[n].acTbl, mcus[0][n], DiffAt(cfg, mcus[0], l, n), total);
  }

  lemma SomeCounted(f: seq<nat>, ys: seq<Sym>)
    requires CountedIn(f, ys) && ys != [] && |f| == NUM_SYMBOLS
    ensures exists s :: 0 <= s < PSEUDO_SYMBOL && f[s] > 0
  {
    assert f[ys[0].s] > 0;
  }

  /** Some table of the scan has no code of at most 32 bits before limiting. */
  ghost predicate SomeTooDeep(cfg: seq<BlockPlan>, st: Stats, ntbls: nat) {
    && |st.dc| == |st.ac| == ntbls
    && exists n :: 0 <= n < |cfg| && cfg[n].dcTbl < ntbls && cfg[n].acTbl < ntbls
         && (TooDeep(WithPseudo(st.dc[cfg[n].dcTbl])) || TooDeep(WithPseudo(st.ac[cfg[n].acTbl])))
  }

  /** Both sides' tables, from the arrays that the first pass has filled. */
  method MakeTables(cfg: seq<BlockPlan>, ncomps: nat, dc: seq<array<nat>>, ac: seq<array<nat>>) returns (ok: bool, t: Tables)
    requires Arrays(dc, ac) && PlanOk(cfg, ncomps, |dc|)
    requires forall n :: 0 <= n < |cfg| ==> Ready(Counts(dc)[cfg[n].dcTbl], true) && Ready(Counts(ac)[cfg[n].acTbl], false)
    modifies dc, ac
    ensures ok ==> TablesFor(old(StatsOf(dc, ac)), cfg, t)
    ensures !ok <==> SomeTooDeep(cfg, old(StatsOf(dc, ac)), |dc|)
  {
    ghost var st := StatsOf(dc, ac);
    hide Ready, PairsFor, TooDeep, WithPseudo;
    var nothing := Pair(CTable([], []), DecTbl(HuffTbl([], []), DTable([], [], [])));
    t := Tables([], []);
    var dcPairs, acPairs;
    ok, dcPairs := MakePairs(dc, DcUses(cfg), true, nothing);
    if !ok {
      return;
    }
    assert Counts(ac) == st.ac;
    ok, acPairs := MakePairs(ac, AcUses(cfg), false, nothing);
    t := Tables(dcPairs, acPairs);
  }

  /** After gathering, all tables used can be made. */
  lemma ScanReady(cfg: seq<BlockPlan>, mcus: seq<seq<seq<int>>>, ncomps: nat, ntbls: nat)
    requires PlanOk(cfg, ncomps, ntbls) && StoredMcus(cfg, mcus) && mcus != [] && 64 * (|cfg| * |mcus|) < SENTINEL
    requires ScanInRange(cfg, ZigMcus(mcus), seq(ncomps, _ => 0))
    ensures forall n :: 0 <= n < |cfg| ==>
      Ready(ScanStats(cfg, mcus, ncomps, ntbls).dc[cfg[n].dcTbl], true) && Ready(ScanStats(cfg, mcus, ncomps, ntbls).ac[cfg[n].acTbl], false)
  {
    hide ScanInRange, StatsOk, Ready, ScanCounted, CountScan, AllGrew, ZigMcu, NoStats;
    var zss, last, st: Stats, total := ZigMcus(mcus), seq(ncomps, _ => 0), ScanStats(cfg, mcus, ncomps, ntbls), 64 * (|cfg| * |mcus|);
    NoStatsOk(ntbls);
    NoStatsShape(ntbls);
    CountScanFacts(cfg, zss, last, NoStats(ntbls), |mcus|, 0);
    forall n | 0 <= n < |cfg| ensures Ready(st.dc[cfg[n].dcTbl], true) && Ready(st.ac[cfg[n].acTbl], false) {
      StatsReady(cfg, zss, last, st, n, total);
    }
  }

  lemma NoStatsShape(n: nat)
    ensures |NoStats(n).dc| == |NoStats(n).ac| == n
  {
  }

  datatype Analysed = Bad | Deep | Complete(t: Tables)

  /** The first pass and the tables it leads to. */
  method FirstPass(cfg: seq<BlockPlan>, ncomps: nat, ntbls: nat, mcus: seq<seq<seq<int>>>) returns (r: Analysed)
    requires PlanOk(cfg, ncomps, ntbls) && mcus != [] && StoredMcus(cfg, mcus) && 64 * (|cfg| * |mcus|) < SENTINEL
    ensures r.Bad? <==> !ScanInRange(cfg, ZigMcus(mcus), seq(ncomps, _ => 0))
    ensures r.Deep? <==> !r.Bad? && SomeTooDeep(cfg, ScanStats(cfg, mcus, ncomps, ntbls), ntbls)
    ensures r.Complete? ==> TablesFor(ScanStats(cfg, mcus, ncomps, ntbls), cfg, r.t)
  {
    var last0: seq<int> := seq(ncomps, _ => 0);
    hide ScanInRange, ZigMcus, Counts, CountScan, Ready, TablesFor, SomeTooDeep, StatsOk;
    var dc, ac := NewCounts(ntbls);
    var ok := Gather(cfg, mcus, last0, dc, ac);
    if !ok {
      return Bad;
    }
    assert StatsOf(dc, ac) == ScanStats(cfg, mcus, ncomps, ntbls);
    ScanReady(cfg, mcus, ncomps, ntbls);
    var t;
    ok, t := MakeTables(cfg, ncomps, dc, ac);
    if !ok {
      return Deep;
    }
    r := Complete(t);
  }

  /** The bytes are those of the scan under the tables that its own counts lead to. */
  ghost predicate ScanSent(cfg: seq<BlockPlan>, mcus: seq<seq<seq<int>>>, ncomps: nat, ntbls: nat, t: Tables, code: seq<byte>)
    requires PlanOk(cfg, ncomps, ntbls) && StoredMcus(cfg, mcus)
  {
    && TablesFor(ScanStats(cfg, mcus, ncomps, ntbls), cfg, t) && |t.dc| == |t.ac| == ntbls
    && code == Finished(ScanBits(t, cfg, ZigMcus(mcus), seq(ncomps, _ => 0), |mcus|))
  }

  lemma StatsAre(cfg: seq<BlockPlan>, mcus: seq<seq<seq<int>>>, ncomps: nat, ntbls: nat)
    requires PlanOk(cfg, ncomps, ntbls) && StoredMcus(cfg, mcus)
    ensures forall i, n :: 0 <= i < |mcus| && 0 <= n < |mcus[i]| ==> |mcus[i][n]| == 64
    ensures |ZigMcus(mcus)| == |mcus| && (forall i :: 0 <= i < |mcus| ==> |ZigMcus(mcus)[i]| == |cfg|)
    ensures |NoStats(ntbls).dc| == |NoStats(ntbls).ac| == ntbls && PlanOk(cfg, |seq(ncomps, _ => 0)|, |NoStats(ntbls).dc|)
    ensures ScanStats(cfg, mcus, ncomps, ntbls) == CountScan(cfg, ZigMcus(mcus), seq(ncomps, _ => 0), NoStats(ntbls), |ZigMcus(mcus)|)
  {
    hide CountScan;
  }

  lemma FitAll(t: Tables, cfg: seq<BlockPlan>, ncomps: nat, ntbls: nat)
    requires PlanOk(cfg, ncomps, ntbls) && |t.dc| == |t.ac| == ntbls
    requires forall n :: 0 <= n < |cfg| ==> CodesFit(t.dc[cfg[n].dcTbl].c) && CodesFit(t.ac[cfg[n].acTbl].c)
    ensures AllFit(t, cfg)
  {
    hide CodesFit;
  }

  /** With those tables the scan can be sent. */
  lemma ScanCodes(cfg: seq<BlockPlan>, mcus: seq<seq<seq<int>>>, ncomps: nat, ntbls: nat, t: Tables)
    requires PlanOk(cfg, ncomps, ntbls) && StoredMcus(cfg, mcus) && forall i :: 0 <= i < |mcus| ==> SixteenBit(mcus[i])
    requires TablesFor(ScanStats(cfg, mcus, ncomps, ntbls), cfg, t) && ScanInRange(cfg, ZigMcus(mcus), seq(ncomps, _ => 0))
    ensures ScanCoded(t, cfg, ZigMcus(mcus), seq(ncomps, _ => 0)) && TablesOk(t, cfg) && AllFit(t, cfg) && |t.dc| == ntbls
  {
    hide *;
    DcSixteen(cfg, mcus);
    TablesForOk(ScanStats(cfg, mcus, ncomps, ntbls), cfg, t, ncomps);
    NoStatsOk(ntbls);
    NoStatsShape(ntbls);
    StatsAre(cfg, mcus, ncomps, ntbls);
    assert forall i :: 0 <= i < |mcus| ==> forall n :: 0 <= n < |mcus[i]| ==> |mcus[i][n]| == 64;
    FitAll(t, cfg, ncomps, ntbls);
    GatheredCodes(NoStats(ntbls), cfg, t, ZigMcus(mcus), seq(ncomps, _ => 0), 0);
  }

  /** The second pass, and decoding what it wrote. */
  method SecondPass(cfg: seq<BlockPlan>, ncomps: nat, ntbls: nat, t: Tables, mcus: seq<seq<seq<int>>>, sizes: seq<nat>, tail: seq<byte>)
      returns (code: seq<byte>, got: seq<Mcu>)
    requires cfg != [] && PlanOk(cfg, ncomps, ntbls) && StoredMcus(cfg, mcus) && forall i :: 0 <= i < |mcus| ==> SixteenBit(mcus[i])
    requires TablesFor(ScanStats(cfg, mcus, ncomps, ntbls), cfg, t)
    requires |tail| >= 2 && tail[0] == 0xFF && 0 < tail[1] < 0xFF
    requires ScanInRange(cfg, ZigMcus(mcus), seq(ncomps, _ => 0))
    ensures got == ZigMcus(mcus) && ScanSent(cfg, mcus, ncomps, ntbls, t, code)
  {
    var last0: seq<int> := seq(ncomps, _ => 0);
    ghost var zss := ZigMcus(mcus);
    ScanCodes(cfg, mcus, ncomps, ntbls, t);
    hide ScanInRange, ZigMcus, SixteenBit, ScanStats, TablesFor, TablesOk, ScanBits, Finished, AllFit, ScanCoded;
    code := EncodeScan(t, cfg, mcus, last0, []);
    assert code == Finished(ScanBits(t, cfg, zss, last0, |mcus|));
    got := DecodeScan(t, cfg, ncomps, code + tail, sizes, zss, |mcus|, tail);
  }

  /** A scan of fewer than some 144000 blocks cannot have a table that is too deep. */
  lemma SmallScan(cfg: seq<BlockPlan>, mcus: seq<seq<seq<int>>>, ncomps: nat, ntbls: nat)
    requires PlanOk(cfg, ncomps, ntbls) && StoredMcus(cfg, mcus) && 64 * (|cfg| * |mcus|) + 1 < DEEP_TOTAL
    ensures ScanInRange(cfg, ZigMcus(mcus), seq(ncomps, _ => 0)) ==> !SomeTooDeep(cfg, ScanStats(cfg, mcus, ncomps, ntbls), ntbls)
  {
    if ScanInRange(cfg, ZigMcus(mcus), seq(ncomps, _ => 0)) {
      SmallScanInRange(cfg, mcus, ncomps, ntbls);
    }
  }

  lemma SmallScanInRange(cfg: seq<BlockPlan>, mcus: seq<seq<seq<int>>>, ncomps: nat, ntbls: nat)
    requires PlanOk(cfg, ncomps, ntbls) && StoredMcus(cfg, mcus) && 64 * (|cfg| * |mcus|) + 1 < DEEP_TOTAL
    requires ScanInRange(cfg, ZigMcus(mcus), seq(ncomps, _ => 0))
    ensures !SomeTooDeep(cfg, ScanStats(cfg, mcus, ncomps, ntbls), ntbls)
  {
    var total, st: Stats := 64 * (|cfg| * |mcus|), ScanStats(cfg, mcus, ncomps, ntbls);
    NoStatsOk(ntbls);
    NoStatsShape(ntbls);
    hide ScanInRange, StatsOk, ScanCounted, CountScan, AllGrew, ZigMcu, NoStats, TooDeep;
    CountScanFacts(cfg, ZigMcus(mcus), seq(ncomps, _ => 0), NoStats(ntbls), |mcus|, 0);
    assert StatsOk(st, total);
    hide *;
    SmallTables(cfg, st, total, ntbls);
  }

  lemma SmallTables(cfg: seq<BlockPlan>, st: Stats, total: nat, ntbls: nat)
    requires StatsOk(st, total) && total + 1 < DEEP_TOTAL && |st.dc| == |st.ac| == ntbls
    ensures !SomeTooDeep(cfg, st, ntbls)
  {
    hide StatsOk, TooDeep;
    forall t | 0 <= t < ntbls ensures !TooDeep(WithPseudo(st.dc[t])) && !TooDeep(WithPseudo(st.ac[t])) {
      SmallTable(st, total, t);
    }
  }

  lemma SmallTable(st: Stats, total: nat, t: nat)
    requires StatsOk(st, total) && total + 1 < DEEP_TOTAL && t < |st.dc| == |st.ac|
    ensures !TooDeep(WithPseudo(st.dc[t])) && !TooDeep(WithPseudo(st.ac[t]))
  {
    hide Sum, TooDeep;
    SumUpdate(st.dc[t], PSEUDO_SYMBOL, 1);
    SumUpdate(st.ac[t], PSEUDO_SYMBOL, 1);
    NotTooDeep(WithPseudo(st.dc[t]));
    NotTooDeep(WithPseudo(st.ac[t]));
  }

  /** Two-pass Huffman coding and decoding give back every scan whose values are in range. */
  method OptimisedPipeline(cfg: seq<BlockPlan>, ncomps: nat, ntbls: nat, mcus: seq<seq<seq<int>>>, sizes: seq<nat>, tail: seq<byte>)
      returns (r: Outcome)
    requires cfg != [] && PlanOk(cfg, ncomps, ntbls) && mcus != [] && StoredMcus(cfg, mcus)
    requires forall i :: 0 <= i < |mcus| ==> SixteenBit(mcus[i])
    requires 64 * (|cfg| * |mcus|) < SENTINEL
    requires |tail| >= 2 && tail[0] == 0xFF && 0 < tail[1] < 0xFF
    ensures r.OutOfRange? <==> !ScanInRange(cfg, ZigMcus(mcus), seq(ncomps, _ => 0))
    ensures r.TooLong? <==> !r.OutOfRange? && SomeTooDeep(cfg, ScanStats(cfg, mcus, ncomps, ntbls), ntbls)
    ensures 64 * (|cfg| * |mcus|) + 1 < DEEP_TOTAL ==> !r.TooLong?
    ensures r.Rebuilt? ==> r.mcus == ZigMcus(mcus) && ScanSent(cfg, mcus, ncomps, ntbls, r.t, r.code)
  {
    hide ScanInRange, ZigMcus, SixteenBit, TablesFor, SomeTooDeep, ScanStats, ScanSent;
    if 64 * (|cfg| * |mcus|) + 1 < DEEP_TOTAL {
      SmallScan(cfg, mcus, ncomps, ntbls);
    }
    var a := FirstPass(cfg, ncomps, ntbls, mcus);
    match a
    case Bad => r := OutOfRange;
    case Deep => r := Outcome.TooLong;
    case Complete(t) =>
      var code, got := SecondPass(cfg, ncomps, ntbls, t, mcus, sizes, tail);
      r := Rebuilt(t, code, got);
  }

  lemma DcSixteen(cfg: seq<BlockPlan>, mcus: seq<seq<seq<int>>>)
    requires StoredMcus(cfg, mcus) && forall i :: 0 <= i < |mcus| ==> SixteenBit(mcus[i])
    ensures forall i, n :: 0 <= i < |mcus| && 0 <= n < |cfg| ==> -0x8000 <= ZigMcus(mcus)[i][n][0] < 0x8000
  {
    OrderZero();
  }
}
