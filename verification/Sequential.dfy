/** Sequential arithmetic-coded scans: encode_mcu and decode_mcu. */
module Sequential {
  import opened Coefficients
  import opened Powers
  import opened Interval
  import opened Binarize
  import opened NaturalOrder
  import opened Scans

  function AcBlock(g: Config, c: nat, b: Block): seq<Decision>
    requires ConfigOk(g) && c < |g.comps|
  {
    var tbl := g.comps[c].acTbl;
    AcDecisions(AcStats(tbl), g.acK[tbl], b, 1, LastNonzero(b, 63), 63)
  }

  function DcBlock(g: Config, c: nat, b: Block, d: DcState): seq<Decision>
    requires ConfigOk(g) && DcStateOk(g, d) && c < |g.comps|
  {
    DcDecisions(DcStats(g.comps[c].dcTbl), d.ctx[c], b[0] - d.last[c])
  }

  /** encode_mcu for one block. */
  function BlockDecisions(g: Config, c: nat, b: Block, d: DcState): seq<Decision>
    requires ConfigOk(g) && DcStateOk(g, d) && c < |g.comps|
  {
    DcBlock(g, c, b, d) + AcBlock(g, c, b)
  }

  /** The decisions of encode_mcu, block after block. */
  function SeqScan(g: Config, m: Image, visits: seq<nat>, d: DcState): seq<Decision>
    requires ConfigOk(g) && ImageOk(g, m) && VisitsOk(m, visits) && DcStateOk(g, d)
  {
    if visits == [] then [] else
    var b, c := m.blocks[visits[0]], m.comp[visits[0]];
    BlockDecisions(g, c, b, d) + SeqScan(g, m, visits[1..], DcNext(g, d, c, b[0]))
  }

  /** Every DC difference can be coded. */
  ghost predicate SeqFits(g: Config, m: Image, visits: seq<nat>, d: DcState)
    requires ConfigOk(g) && ImageOk(g, m) && VisitsOk(m, visits) && DcStateOk(g, d)
  {
    visits == [] || (
      var b, c := m.blocks[visits[0]], m.comp[visits[0]];
      -0x8000 <= b[0] - d.last[c] <= 0x8000 && SeqFits(g, m, visits[1..], DcNext(g, d, c, b[0])))
  }

  datatype BlockRead<S> = BlockRead(z: Block, d: DcState, s: S) | BlockBad(z: Block, s: S)

  /** decode_mcu for one block of component c, whose memory holds z. */
  function ReadBlock<S>(step: Step<S>, s: S, g: Config, c: nat, d: DcState, z: Block): (r: BlockRead<S>)
    requires ConfigOk(g) && DcStateOk(g, d) && c < |g.comps|
    ensures r.BlockRead? ==> DcStateOk(g, r.d)
  {
    var dt, at := g.comps[c].dcTbl, g.comps[c].acTbl;
    match ReadDc(step, s, DcStats(dt), d.ctx[c], g.dcL[dt], g.dcU[dt])
    case DcBad(n) => BlockBad(z, n)
    case DcRead(diff, ctx, n) =>
      var last := NextLast(d.last[c], diff);
      match ReadAc(step, n, AcStats(at), g.acK[at], 1, 63, 0, z[0 := ToCoef(last)])
      case AcBad(z2, n2) => BlockBad(z2, n2)
      case AcRead(z2, n2) => BlockRead(z2, DcState(d.last[c := last], d.ctx[c := ctx]), n2)
  }

  /** decode_mcu, block after block; after an error nothing more is decoded. */
  function ReadSeq<S>(step: Step<S>, s: S, g: Config, comp: seq<nat>, visits: seq<nat>, d: DcState, acc: seq<Block>):
      (r: ScanRead<S>)
    requires ConfigOk(g) && DcStateOk(g, d) && |comp| == |acc|
    requires forall i :: 0 <= i < |visits| ==> visits[i] < |acc| && comp[visits[i]] < |g.comps|
    ensures |r.acc| == |acc|
  {
    if visits == [] then ScanRead(acc, s) else
    var p := visits[0];
    match ReadBlock(step, s, g, comp[p], d, acc[p])
    case BlockBad(z, n) => ScanBad(acc[p := z], n)
    case BlockRead(z, d2, n) => ReadSeq(step, n, g, comp, visits[1..], d2, acc[p := z])
  }

  /** The caller has zeroed the blocks. */
  ghost predicate Zeroed(acc: seq<Block>, visits: seq<nat>) {
    forall i, k :: 0 <= i < |visits| && visits[i] < |acc| && 0 < k < 64 ==> acc[visits[i]][k] == 0
  }

  lemma FillIsBlock(z: Block, b: Block)
    requires z[0] == b[0] && forall k :: 0 < k < 64 ==> z[k] == 0
    requires forall k :: 0 <= k < 64 ==> -0x8000 <= b[k] < 0x8000
    ensures Fill(z, b, 1, 63, 0) == b
  {
    assert Pow2(0) == 1;
    assert forall k :: 0 <= k < 64 ==> b[k] * 1 == b[k];
  }

  lemma ReadDcBlock<S(!new)>(step: Step<S>, s: S, g: Config, c: nat, b: Block, e: DcState, d: DcState)
    requires ConfigOk(g) && DcStateOk(g, e) && DcStateOk(g, d) && c < |g.comps| && Mirrors(d, e)
    requires -0x8000 <= b[0] - e.last[c] <= 0x8000 && -0x8000 <= b[0] < 0x8000
    requires Answers(step, s, DcBlock(g, c, b, e))
    ensures var dt := g.comps[c].dcTbl;
      && ReadDc(step, s, DcStats(dt), d.ctx[c], g.dcL[dt], g.dcU[dt])
         == DcRead(b[0] - e.last[c], DcNext(g, e, c, b[0]).ctx[c], After(step, s, DcBlock(g, c, b, e)))
      && ToCoef(NextLast(d.last[c], b[0] - e.last[c])) == b[0]
  {
    hide *;
    var dt := g.comps[c].dcTbl;
    BlockParts(g, c, b, e, e);
    BlockParts(g, c, b, d, d);
    DcBlockIs(g, c, b, e);
    MirrorsAt(d, e, c);
    ReadDcInverts(step, s, DcStats(dt), e.ctx[c], g.dcL[dt], g.dcU[dt], b[0] - e.last[c]);
    NextLastCongruent(d.last[c], e.last[c], b[0]);
    ToCoefCongruent(NextLast(d.last[c], b[0] - e.last[c]), b[0]);
    IsCoef(b[0]);
  }

  lemma DcBlockIs(g: Config, c: nat, b: Block, e: DcState)
    requires ConfigOk(g) && DcStateOk(g, e) && c < |g.comps|
    ensures DcBlock(g, c, b, e) == DcDecisions(DcStats(g.comps[c].dcTbl), e.ctx[c], b[0] - e.last[c])
    ensures var dt := g.comps[c].dcTbl; DcNext(g, e, c, b[0]).ctx[c] == NextDcContext(b[0] - e.last[c], g.dcL[dt], g.dcU[dt])
  {
    hide DcDecisions, NextDcContext;
  }

  lemma MirrorsAt(d: DcState, e: DcState, c: nat)
    requires Mirrors(d, e) && c < |e.last|
    ensures c < |d.last| && d.ctx == e.ctx && Congruent(d.last[c], e.last[c])
  {
  }

  lemma IsCoef(v: int)
    requires -0x8000 <= v < 0x8000
    ensures ToCoef(v) == v
  {
  }

  lemma ReadAcBlock<S(!new)>(step: Step<S>, s: S, g: Config, c: nat, b: Block, z: Block)
    requires ConfigOk(g) && c < |g.comps| && Answers(step, s, AcBlock(g, c, b))
    requires z[0] == b[0] && forall k :: 0 < k < 64 ==> z[k] == 0
    requires forall k :: 0 <= k < 64 ==> -0x8000 <= b[k] < 0x8000
    ensures var at := g.comps[c].acTbl;
      ReadAc(step, s, AcStats(at), g.acK[at], 1, 63, 0, z) == AcRead(b, After(step, s, AcBlock(g, c, b)))
  {
    var at := g.comps[c].acTbl;
    FillIsBlock(z, b);
    ReadAcInverts(step, s, AcStats(at), g.acK[at], 1, LastNonzero(b, 63), 63, 0, b, z);
  }

  /** One block: the decoder reads the encoder's coefficients. */
  lemma ReadBlockInverts<S(!new)>(step: Step<S>, s: S, g: Config, c: nat, b: Block, e: DcState, d: DcState, z: Block)
    requires ConfigOk(g) && DcStateOk(g, e) && DcStateOk(g, d) && c < |g.comps| && Mirrors(d, e)
    requires -0x8000 <= b[0] - e.last[c] <= 0x8000 && forall k :: 0 <= k < 64 ==> -0x8000 <= b[k] < 0x8000
    requires forall k :: 0 < k < 64 ==> z[k] == 0
    requires Answers(step, s, BlockDecisions(g, c, b, e))
    ensures ReadBlock(step, s, g, c, d, z)
         == BlockRead(b, DcFollow(g, e, d, c, b[0]), After(step, s, BlockDecisions(g, c, b, e)))
  {
    hide *;
    BlockParts(g, c, b, e, d);
    BlockZero(z, b);
    AnswersConcat(step, s, DcBlock(g, c, b, e), AcBlock(g, c, b));
    ReadDcBlock(step, s, g, c, b, e, d);
    var n := After(step, s, DcBlock(g, c, b, e));
    ReadAcBlock(step, n, g, c, b, z[0 := b[0]]);
    ReadBlockUnfolds(step, s, g, c, d, z, b[0] - e.last[c], DcNext(g, e, c, b[0]).ctx[c], n, b, After(step, n, AcBlock(g, c, b)));
    FollowIs(g, e, d, c, b[0]);
  }

  lemma BlockParts(g: Config, c: nat, b: Block, e: DcState, d: DcState)
    requires ConfigOk(g) && DcStateOk(g, e) && DcStateOk(g, d) && c < |g.comps|
    ensures |e.last| == |e.ctx| == |d.last| == |d.ctx| == |g.comps| && d.ctx[c] <= 16
    ensures BlockDecisions(g, c, b, e) == DcBlock(g, c, b, e) + AcBlock(g, c, b)
    ensures var (dt, at) := (g.comps[c].dcTbl, g.comps[c].acTbl);
      dt < NUM_TBLS && at < NUM_TBLS && |g.dcL| == |g.dcU| == |g.acK| == NUM_TBLS
      && DcStats(dt) + 49 <= NUM_BINS && AcStats(at) + AC_STAT_BINS <= NUM_BINS && |DcNext(g, e, c, b[0]).ctx| == |g.comps|
  {
    hide DcBlock, AcBlock, NextDcContext;
  }

  lemma BlockZero(z: Block, b: Block)
    requires forall k :: 0 < k < 64 ==> z[k] == 0
    ensures var y: Block := z[0 := b[0]]; y[0] == b[0] && forall k :: 0 < k < 64 ==> y[k] == 0
  {
  }

  lemma ReadBlockUnfolds<S(!new)>(step: Step<S>, s: S, g: Config, c: nat, d: DcState, z: Block, diff: int, ctx: nat, n: S, b: Block, n2: S)
    requires ConfigOk(g) && DcStateOk(g, d) && c < |g.comps| && |b| == 64
    requires var dt := g.comps[c].dcTbl; ReadDc(step, s, DcStats(dt), d.ctx[c], g.dcL[dt], g.dcU[dt]) == DcRead(diff, ctx, n)
    requires ToCoef(NextLast(d.last[c], diff)) == b[0]
    requires var at := g.comps[c].acTbl; ReadAc(step, n, AcStats(at), g.acK[at], 1, 63, 0, z[0 := b[0]]) == AcRead(b, n2)
    ensures ReadBlock(step, s, g, c, d, z) == BlockRead(b, DcState(d.last[c := NextLast(d.last[c], diff)], d.ctx[c := ctx]), n2)
  {
    hide ReadDc, ReadAc, NextLast, ToCoef;
  }

  lemma FollowIs(g: Config, e: DcState, d: DcState, c: nat, v: int)
    requires ConfigOk(g) && DcStateOk(g, e) && DcStateOk(g, d) && c < |g.comps| && |d.last| == |d.ctx| == |e.last| == |g.comps|
    requires c < |DcNext(g, e, c, v).ctx|
    ensures DcFollow(g, e, d, c, v) == DcState(d.last[c := NextLast(d.last[c], v - e.last[c])], d.ctx[c := DcNext(g, e, c, v).ctx[c]])
  {
    hide NextLast, DcNext;
  }

  function OriginalBlock(m: Image, p: nat, z: Block): Block {
    if p < |m.blocks| then m.blocks[p] else z
  }

  ghost function Original(m: Image): (nat, Block) -> Block {
    (p: nat, z: Block) => OriginalBlock(m, p, z)
  }

  /** Sequential arithmetic coding round trips: the visited blocks come back, whatever the
      source of answers, as long as it answers the encoder's bins with the encoder's bits. */
  lemma {:induction false} ReadSeqInverts<S(!new)>(step: Step<S>, s: S, g: Config, m: Image, visits: seq<nat>,
      e: DcState, d: DcState, acc: seq<Block>)
    requires ConfigOk(g) && ImageOk(g, m) && VisitsOk(m, visits) && DcStateOk(g, e) && DcStateOk(g, d)
    requires |acc| == |m.blocks| && SeqFits(g, m, visits, e) && Mirrors(d, e) && Zeroed(acc, visits)
    requires Answers(step, s, SeqScan(g, m, visits, e))
    ensures var r := ReadSeq(step, s, g, m.comp, visits, d, acc);
      && r.ScanRead? && r.s == After(step, s, SeqScan(g, m, visits, e))
      && Painted(acc, r.acc, Original(m), visits)
    decreases |visits|
  {
    hide *;
    FirstVisit(g, m, visits);
    if visits == [] {
      NothingVisited(step, s, g, m, e, d, acc);
    } else {
      var p, b, c := visits[0], m.blocks[visits[0]], m.comp[visits[0]];
      var xs, e2, d2 := BlockDecisions(g, c, b, e), DcNext(g, e, c, b[0]), DcFollow(g, e, d, c, b[0]);
      SeqUnfolds(g, m, visits, e);
      ZeroedNext(acc, m, visits, b);
      AnswersConcat(step, s, xs, SeqScan(g, m, visits[1..], e2));
      ReadBlockInverts(step, s, g, c, b, e, d, acc[p]);
      ReadSeqUnfolds(step, s, g, m, visits, d, acc, b, d2, After(step, s, xs));
      DcFollowMirrors(g, e, d, c, b[0]);
      ReadSeqInverts(step, After(step, s, xs), g, m, visits[1..], e2, d2, acc[p := b]);
      OriginalIs(m, p, acc[p]);
      PaintedStep(acc, ReadSeq(step, s, g, m.comp, visits, d, acc).acc, Original(m), m, visits);
    }
  }

  lemma FirstVisit(g: Config, m: Image, visits: seq<nat>)
    requires ImageOk(g, m) && VisitsOk(m, visits)
    ensures |m.comp| == |m.blocks| && forall i :: 0 <= i < |visits| ==> visits[i] < |m.blocks| && m.comp[visits[i]] < |g.comps|
    ensures visits != [] ==> VisitsOk(m, visits[1..]) && forall k :: 0 <= k < 64 ==> -0x8000 <= m.blocks[visits[0]][k] < 0x8000
  {
  }

  lemma SeqUnfolds(g: Config, m: Image, visits: seq<nat>, e: DcState)
    requires ConfigOk(g) && ImageOk(g, m) && VisitsOk(m, visits) && DcStateOk(g, e) && visits != []
    ensures VisitsOk(m, visits[1..]) && visits[0] < |m.blocks| == |m.comp| && m.comp[visits[0]] < |g.comps|
    ensures var (b, c) := (m.blocks[visits[0]], m.comp[visits[0]]);
      && SeqScan(g, m, visits, e) == BlockDecisions(g, c, b, e) + SeqScan(g, m, visits[1..], DcNext(g, e, c, b[0]))
      && c < |e.last|
      && (SeqFits(g, m, visits, e) <==>
          -0x8000 <= b[0] - e.last[c] <= 0x8000 && SeqFits(g, m, visits[1..], DcNext(g, e, c, b[0])))
  {
    hide BlockDecisions, DcNext;
  }

  lemma ReadSeqUnfolds<S(!new)>(step: Step<S>, s: S, g: Config, m: Image, visits: seq<nat>, d: DcState, acc: seq<Block>,
      z: Block, d2: DcState, n: S)
    requires ConfigOk(g) && DcStateOk(g, d) && |m.comp| == |acc| && visits != []
    requires forall i :: 0 <= i < |visits| ==> visits[i] < |acc| && m.comp[visits[i]] < |g.comps|
    requires DcStateOk(g, d2) && ReadBlock(step, s, g, m.comp[visits[0]], d, acc[visits[0]]) == BlockRead(z, d2, n)
    ensures ReadSeq(step, s, g, m.comp, visits, d, acc) == ReadSeq(step, n, g, m.comp, visits[1..], d2, acc[visits[0] := z])
  {
    hide ReadBlock, DcStateOk, ConfigOk;
  }

  lemma ZeroedNext(acc: seq<Block>, m: Image, visits: seq<nat>, b: Block)
    requires Zeroed(acc, visits) && visits != [] && VisitsOk(m, visits) && |acc| == |m.blocks|
    ensures visits[0] < |acc| && forall k :: 0 < k < 64 ==> acc[visits[0]][k] == 0
    ensures Zeroed(acc[visits[0] := b], visits[1..])
  {
  }

  lemma OriginalIs(m: Image, p: nat, z: Block)
    requires p < |m.blocks|
    ensures Original(m)(p, z) == m.blocks[p]
  {
  }

  lemma NothingVisited<S(!new)>(step: Step<S>, s: S, g: Config, m: Image, e: DcState, d: DcState, acc: seq<Block>)
    requires ConfigOk(g) && ImageOk(g, m) && VisitsOk(m, []) && DcStateOk(g, e) && DcStateOk(g, d) && |acc| == |m.blocks| == |m.comp|
    ensures SeqScan(g, m, [], e) == [] && Answers(step, s, []) && After(step, s, []) == s
    ensures ReadSeq(step, s, g, m.comp, [], d, acc) == ScanRead(acc, s) && Painted(acc, acc, Original(m), [])
  {
  }

  // ----- Which bins are asked for

  ghost predicate BinsWithin(ds: seq<Decision>, lo: nat, hi: nat) {
    forall i :: 0 <= i < |ds| ==> lo <= ds[i].bin < hi
  }

  /** DC coding stays within 49 bins, as section F.1.4.4.1.3 requires. */
  lemma DcBinsWithin49(base: nat, ctx: nat, diff: int)
    requires ctx <= 16 && -0x8000 <= diff <= 0x8000
    ensures BinsWithin(DcDecisions(base, ctx, diff), base, base + 49)
  {
    var v := Abs(diff) - 1;
    if v > 0 {
      LongMagnitudeWithin(base + 20, 0, v);
    }
  }

  lemma LongMagnitudeWithin(start: nat, j: nat, v: nat)
    requires 0 < v < 0x8000 && j <= Log2(v)
    ensures Log2(v) <= 14 && BinsWithin(LongMagnitude(start, j, v), start + j, start + 29)
  {
    assert Log2(v) <= 14 by {
      Pow2Table();
      assert Pow2(16) == 2 * Pow2(15);
      Log2Below(v, 15);
    }
    CategoryWithin(start, j, Log2(v));
    BitPatternWithin(start + Log2(v) + 14, Log2(v), v);
  }

  lemma {:induction false} CategoryWithin(start: nat, j: nat, t: nat)
    requires j <= t
    ensures BinsWithin(Category(start, j, t), start + j, start + t + 1)
    decreases t - j
  {
    if j < t {
      CategoryWithin(start, j + 1, t);
    }
  }

  lemma {:induction false} BitPatternWithin(st: nat, j: nat, v: nat)
    ensures BinsWithin(BitPattern(st, j, v), st, st + 1)
  {
    if j > 0 {
      BitPatternWithin(st, j - 1, v);
    }
  }

  /** AC coding uses the fixed bin and 245 others, as section F.1.4.4.2 requires. */
  ghost predicate AcBinsOk(ds: seq<Decision>, base: nat) {
    forall i :: 0 <= i < |ds| ==> base <= ds[i].bin < base + 245 || ds[i].bin == FIXED_BIN
  }

  lemma AcMagnitudeWithin245(base: nat, kx: nat, k: nat, v: nat)
    requires 0 < k < 64 && v < 0x8000
    ensures AcBinsOk(AcMagnitude(EobBin(base, k) + 2, LongBin(base, kx, k), v), base)
  {
    if v > 0 && Log2(v) > 0 {
      LongMagnitudeWithin(LongBin(base, kx, k) - 1, 1, v);
    }
  }

  lemma {:induction false} AcBinsWithin245(base: nat, kx: nat, z: seq<int>, k: nat, ke: nat, se: nat)
    requires 0 < k && ke <= se < |z| <= 64 && (ke > 0 ==> z[ke] != 0)
    requires forall i :: 0 <= i < |z| ==> -0x8000 <= z[i] <= 0x8000
    ensures AcBinsOk(AcDecisions(base, kx, z, k, ke, se), base)
    decreases if k <= ke then ke + 1 - k else 0, 1
  {
    if k <= ke {
      AcRunWithin245(base, kx, z, k, ke, se);
    }
  }

  lemma {:induction false} AcRunWithin245(base: nat, kx: nat, z: seq<int>, k: nat, ke: nat, se: nat)
    requires 0 < k <= ke <= se < |z| <= 64 && z[ke] != 0
    requires forall i :: 0 <= i < |z| ==> -0x8000 <= z[i] <= 0x8000
    ensures AcBinsOk(AcRun(base, kx, z, k, ke, se), base)
    decreases ke + 1 - k, 0
  {
    if z[k] == 0 {
      AcRunWithin245(base, kx, z, k + 1, ke, se);
    } else {
      AcMagnitudeWithin245(base, kx, k, Abs(z[k]) - 1);
      AcBinsWithin245(base, kx, z, k + 1, ke, se);
    }
  }

  /** DC coding of 16-bit values stays within the area of its table in any case. */
  lemma DcBinsWithin50(base: nat, ctx: nat, diff: int)
    requires ctx <= 16 && -0xFFFF <= diff <= 0xFFFF
    ensures BinsWithin(DcDecisions(base, ctx, diff), base, base + 50)
  {
    hide *;
    DcParts(base, ctx, diff);
    if DcLong(diff) > 0 {
      LongWithin(base + 20, DcLong(diff));
      WithinBoth(DcShort(base, ctx, diff), LongMagnitude(base + 20, 0, DcLong(diff)), base, base + 20, base + 20, base + 50);
    } else {
      WithinBoth(DcShort(base, ctx, diff), [], base, base + 20, base + 20, base + 20);
      NothingMore(DcShort(base, ctx, diff));
    }
  }

  /** The magnitude less one, if that takes a category. */
  function DcLong(diff: int): (v: nat)
    ensures -0xFFFF <= diff <= 0xFFFF ==> v < 0xFFFF
  {
    if Abs(diff) > 1 then Abs(diff) - 1 else 0
  }

  /** The decisions before the category. */
  function DcShort(base: nat, ctx: nat, diff: int): (ds: seq<Decision>)
    ensures ctx <= 16 ==> BinsWithin(ds, base, base + 20)
  {
    if diff == 0 then [Decision(base + ctx, false)] else
    [Decision(base + ctx, true), Decision(base + ctx + 1, diff < 0),
     Decision(base + ctx + (if diff < 0 then 3 else 2), DcLong(diff) > 0)]
  }

  lemma DcParts(base: nat, ctx: nat, diff: int)
    ensures DcDecisions(base, ctx, diff)
         == DcShort(base, ctx, diff) + if DcLong(diff) > 0 then LongMagnitude(base + 20, 0, DcLong(diff)) else []
    ensures BinsWithin([], base + 20, base + 20)
  {
    hide LongMagnitude, Log2;
  }

  lemma NothingMore(ds: seq<Decision>)
    ensures ds + [] == ds
  {
  }

  lemma LongWithin(start: nat, v: nat)
    requires 0 < v < 0xFFFF
    ensures BinsWithin(LongMagnitude(start, 0, v), start, start + 30)
  {
    hide *;
    var t := Log2(v);
    LongParts(start, v);
    CategoryWithin(start, 0, t);
    BitPatternWithin(start + t + 14, t, v);
    WithinBoth(Category(start, 0, t), BitPattern(start + t + 14, t, v), start, start + t + 1, start + t + 14, start + t + 15);
  }

  lemma LongParts(start: nat, v: nat)
    requires 0 < v < 0xFFFF
    ensures Log2(v) <= 15 && LongMagnitude(start, 0, v) == Category(start, 0, Log2(v)) + BitPattern(start + Log2(v) + 14, Log2(v), v)
  {
    Pow2Table();
    hide Log2, Pow2;
    Log2Below(v, 16);
  }

  lemma WithinBoth(xs: seq<Decision>, ys: seq<Decision>, lo: nat, mid: nat, high: nat, hi: nat)
    requires BinsWithin(xs, lo, mid) && BinsWithin(ys, high, hi) && lo <= high && mid <= hi
    ensures forall top: nat :: hi <= top ==> BinsWithin(xs + ys, lo, top)
  {
  }
}
