/** Which DC differences survive: the exact range in which the arithmetic codec is lossless,
    and files that are always inside it. */
module DcRange {
  import opened Coefficients
  import opened Powers
  import opened Digits
  import opened ProbTable
  import opened Interval
  import opened ArithEncoding
  import opened ArithDecoding
  import opened Binarize
  import opened Refine
  import opened NaturalOrder
  import opened Scans
  import opened Sequential
  import opened Script
  import opened SimpleProgression
  import opened Progressive
  import opened ArithFile

  // ----- One difference

  lemma {:induction false} ReadCategoryOverflows<S(!new)>(step: Step<S>, s: S, start: nat, j: nat, t: nat)
    requires j <= 14 < t && start + 14 < NUM_BINS && Answers(step, s, Category(start, j, t))
    ensures ReadCategory(step, s, start, j).TooLong?
    decreases t - j
  {
    assert Category(start, j, t)[1..] == Category(start, j + 1, t);
    if j < 14 {
      ReadCategoryOverflows(step, step(s, start + j).1, start, j + 1, t);
    }
  }

  lemma LongCategory(v: nat)
    requires v >= 0x8000
    ensures Log2(v) > 14
  {
    Log2Bounds(v);
    Pow2Table();
    assert Pow2(16) == 2 * Pow2(15);
    if Log2(v) <= 14 {
      Pow2Mono(Log2(v) + 1, 15);
    }
  }

  lemma ReadDcMagnitudeOverflows<S(!new)>(step: Step<S>, s: S, base: nat, st: Bin, v: nat)
    requires base + 49 <= NUM_BINS && v >= 0x8000 && Answers(step, s, DcMagnitude(base, st, v))
    ensures ReadDcMagnitude(step, s, base, st).Overflow?
  {
    var n := step(s, st).1;
    assert DcMagnitude(base, st, v)[1..] == LongMagnitude(base + 20, 0, v);
    LongCategory(v);
    hide Log2, Category, BitPattern, ReadCategory;
    AnswersConcat(step, n, Category(base + 20, 0, Log2(v)), BitPattern(base + 20 + Log2(v) + 14, Log2(v), v));
    ReadCategoryOverflows(step, n, base + 20, 0, Log2(v));
  }

  /** A difference is read back if and only if its magnitude is at most 2^15; the decoder
      reports any larger one as a magnitude overflow. */
  lemma ReadDcIff<S(!new)>(step: Step<S>, s: S, base: nat, ctx: nat, lower: nat, upper: nat, diff: int)
    requires base + 49 <= NUM_BINS && ctx <= 16 && Answers(step, s, DcDecisions(base, ctx, diff))
    ensures ReadDc(step, s, base, ctx, lower, upper).DcRead? <==> -0x8000 <= diff <= 0x8000
  {
    if -0x8000 <= diff <= 0x8000 {
      ReadDcInverts(step, s, base, ctx, lower, upper, diff);
    } else {
      ReadDcLarge(step, s, base, ctx, lower, upper, diff);
    }
  }

  lemma ReadDcLarge<S(!new)>(step: Step<S>, s: S, base: nat, ctx: nat, lower: nat, upper: nat, diff: int)
    requires base + 49 <= NUM_BINS && ctx <= 16 && Answers(step, s, DcDecisions(base, ctx, diff))
    requires !(-0x8000 <= diff <= 0x8000)
    ensures ReadDc(step, s, base, ctx, lower, upper).DcBad?
  {
    var v: nat, st := Abs(diff) - 1, base + ctx + (if diff < 0 then 3 else 2);
    var a, b := Decision(base + ctx, true), Decision(base + ctx + 1, diff < 0);
    assert DcDecisions(base, ctx, diff) == [a, b] + DcMagnitude(base, st, v) by { hide DcMagnitude, Answers, ReadDc; }
    hide DcMagnitude, ReadDcMagnitude, Answers, After, DcDecisions, DcContext, Signed, TopBit;
    TwoAnswers(step, s, a, b, DcMagnitude(base, st, v));
    ReadDcMagnitudeOverflows(step, step(step(s, base + ctx).1, base + ctx + 1).1, base, st, v);
  }

  // ----- A sequential scan

  lemma ReadDcBlockOverflows<S(!new)>(step: Step<S>, s: S, g: Config, c: nat, b: Block, e: DcState)
    requires ConfigOk(g) && DcStateOk(g, e) && c < |g.comps|
    requires !(-0x8000 <= b[0] - e.last[c] <= 0x8000) && Answers(step, s, DcBlock(g, c, b, e))
    ensures var dt := g.comps[c].dcTbl;
      ReadDc(step, s, DcStats(dt), e.ctx[c], g.dcL[dt], g.dcU[dt]).DcBad?
  {
    hide *;
    var dt := g.comps[c].dcTbl;
    BlockParts(g, c, b, e, e);
    DcBlockIs(g, c, b, e);
    ReadDcIff(step, s, DcStats(dt), e.ctx[c], g.dcL[dt], g.dcU[dt], b[0] - e.last[c]);
  }

  lemma ReadBlockOverflows<S(!new)>(step: Step<S>, s: S, g: Config, c: nat, b: Block, e: DcState, d: DcState, z: Block)
    requires ConfigOk(g) && DcStateOk(g, e) && DcStateOk(g, d) && c < |g.comps| && d.ctx == e.ctx
    requires !(-0x8000 <= b[0] - e.last[c] <= 0x8000) && Answers(step, s, BlockDecisions(g, c, b, e))
    ensures ReadBlock(step, s, g, c, d, z).BlockBad?
  {
    hide ReadDc, AcBlock, Answers, ReadAc, DcBlock;
    AnswersConcat(step, s, DcBlock(g, c, b, e), AcBlock(g, c, b));
    ReadDcBlockOverflows(step, s, g, c, b, e);
  }

  lemma ReadSeqOverflowsHere<S(!new)>(step: Step<S>, s: S, g: Config, m: Image, visits: seq<nat>,
      e: DcState, d: DcState, acc: seq<Block>)
    requires ConfigOk(g) && ImageOk(g, m) && VisitsOk(m, visits) && DcStateOk(g, e) && DcStateOk(g, d)
    requires |acc| == |m.blocks| && visits != [] && d.ctx == e.ctx
    requires !(-0x8000 <= m.blocks[visits[0]][0] - e.last[m.comp[visits[0]]] <= 0x8000)
    requires Answers(step, s, SeqScan(g, m, visits, e))
    ensures ReadSeq(step, s, g, m.comp, visits, d, acc).ScanBad?
  {
    hide BlockDecisions, DcNext, ReadBlock, Answers;
    var p, b, c := visits[0], m.blocks[visits[0]], m.comp[visits[0]];
    AnswersConcat(step, s, BlockDecisions(g, c, b, e), SeqScan(g, m, visits[1..], DcNext(g, e, c, b[0])));
    ReadBlockOverflows(step, s, g, c, b, e, d, acc[p]);
  }

  /** A scan whose differences do not all fit ends in an error. */
  lemma {:induction false} ReadSeqOverflows<S(!new)>(step: Step<S>, s: S, g: Config, m: Image, visits: seq<nat>,
      e: DcState, d: DcState, acc: seq<Block>)
    requires ConfigOk(g) && ImageOk(g, m) && VisitsOk(m, visits) && DcStateOk(g, e) && DcStateOk(g, d)
    requires |acc| == |m.blocks| && !SeqFits(g, m, visits, e) && Mirrors(d, e) && Zeroed(acc, visits)
    requires Answers(step, s, SeqScan(g, m, visits, e))
    ensures ReadSeq(step, s, g, m.comp, visits, d, acc).ScanBad?
    decreases |visits|
  {
    hide *;
    FirstVisit(g, m, visits);
    NothingOverflows(g, m, visits, e);
    SeqUnfolds(g, m, visits, e);
    var p, b, c := visits[0], m.blocks[visits[0]], m.comp[visits[0]];
    if -0x8000 <= b[0] - e.last[c] <= 0x8000 {
      var xs, e2, d2 := BlockDecisions(g, c, b, e), DcNext(g, e, c, b[0]), DcFollow(g, e, d, c, b[0]);
      ZeroedNext(acc, m, visits, b);
      AnswersConcat(step, s, xs, SeqScan(g, m, visits[1..], e2));
      ReadBlockInverts(step, s, g, c, b, e, d, acc[p]);
      ReadSeqUnfolds(step, s, g, m, visits, d, acc, b, d2, After(step, s, xs));
      DcFollowMirrors(g, e, d, c, b[0]);
      ReadSeqOverflows(step, After(step, s, xs), g, m, visits[1..], e2, d2, acc[p := b]);
    } else {
      SameContexts(d, e);
      ReadSeqOverflowsHere(step, s, g, m, visits, e, d, acc);
    }
  }

  lemma NothingOverflows(g: Config, m: Image, visits: seq<nat>, e: DcState)
    requires ConfigOk(g) && ImageOk(g, m) && VisitsOk(m, visits) && DcStateOk(g, e) && !SeqFits(g, m, visits, e)
    ensures visits != []
  {
  }

  lemma SameContexts(d: DcState, e: DcState)
    requires Mirrors(d, e)
    ensures d.ctx == e.ctx
  {
  }

  lemma {:induction false} AnySeqScanInRange(g: Config, m: Image, visits: seq<nat>, d: DcState)
    requires ConfigOk(g) && ImageOk(g, m) && VisitsOk(m, visits) && DcStateOk(g, d) && Short(d)
    ensures InRange(SeqScan(g, m, visits, d), NUM_BINS)
    decreases |visits|
  {
    if visits != [] {
      var b, c := m.blocks[visits[0]], m.comp[visits[0]];
      AnyBlockInRange(g, c, b, d);
      hide BlockDecisions, NextDcContext;
      AnySeqScanInRange(g, m, visits[1..], DcNext(g, d, c, b[0]));
    }
  }

  lemma ReadSeqIff(t: LiveTap, g: Config, m: Image, visits: seq<nat>, acc: seq<Block>)
    requires ConfigOk(g) && ImageOk(g, m) && VisitsOk(m, visits) && |acc| == |m.blocks| && Zeroed(acc, visits)
    requires Answers(Ask, t, SeqScan(g, m, visits, DcStart(g)))
    ensures ReadSeq(Ask, t, g, m.comp, visits, DcStart(g), acc).ScanRead? <==> SeqFits(g, m, visits, DcStart(g))
  {
    if SeqFits(g, m, visits, DcStart(g)) {
      ReadSeqInverts(Ask, t, g, m, visits, DcStart(g), DcStart(g), acc);
    } else {
      ReadSeqOverflows(Ask, t, g, m, visits, DcStart(g), DcStart(g), acc);
    }
  }

  /** For every image of 16-bit coefficients: the decoder accepts the encoder's scan if and
      only if no DC difference exceeds 2^15 (and then rebuilds it, by SequentialRoundTrip). */
  lemma SequentialSucceedsIff(T: Table, g: Config, m: Image, visits: seq<nat>, acc: seq<Block>, tail: seq<byte>)
    requires |T| >= 114 && ConfigOk(g) && ImageOk(g, m) && VisitsOk(m, visits) && |acc| == |m.blocks|
    requires Zeroed(acc, visits) && MarkerFirst(tail)
    ensures InRange(SeqScan(g, m, visits, DcStart(g)), NUM_BINS)
    ensures var code := ScanCode(T, SeqScan(g, m, visits, DcStart(g)));
      ReadSeq(Ask, ScanTap(T, code + tail), g, m.comp, visits, DcStart(g), acc).ScanRead? <==> SeqFits(g, m, visits, DcStart(g))
  {
    var ds := SeqScan(g, m, visits, DcStart(g));
    AnySeqScanInRange(g, m, visits, DcStart(g));
    hide SeqScan, ReadSeq, SeqFits, EncodeAll, ScanCode, DcStart;
    ScanCodeAnswers(T, ds, tail);
    hide Answers, After, ScanTap;
    ReadSeqIff(ScanTap(T, ScanCode(T, ds) + tail), g, m, visits, acc);
  }

  /** Two blocks of one component, with the smallest and the largest DC value. */
  ghost predicate FarApart(g: Config, m: Image) {
    |g.comps| > 0 && ImageOk(g, m) && m.comp == [0, 0] && m.blocks[0][0] == -0x8000 && m.blocks[1][0] == 0x7FFF
  }

  function FlatBlock(dc: int): Block {
    [dc] + seq(63, _ => 0)
  }

  lemma FlatFarApart(g: Config)
    requires ConfigOk(g) && |g.comps| > 0
    ensures FarApart(g, Image([FlatBlock(-0x8000), FlatBlock(0x7FFF)], [0, 0]))
  {
  }

  lemma FarApartUnfit(g: Config, m: Image, visits: seq<nat>)
    requires ConfigOk(g) && FarApart(g, m) && visits == [0, 1]
    ensures VisitsOk(m, visits) && !SeqFits(g, m, visits, DcStart(g))
  {
    var d := DcStart(g);
    assert visits[1..] == [1] && VisitsOk(m, [1]);
    var e := DcNext(g, d, 0, -0x8000);
    assert e.last[0] == -0x8000;
    assert !SeqFits(g, m, [1], e);
  }

  /** The encoder codes a scan of these without a word, and the decoder stops at it. */
  lemma FarApartLost(T: Table, g: Config, m: Image, visits: seq<nat>, acc: seq<Block>, tail: seq<byte>)
    requires |T| >= 114 && ConfigOk(g) && FarApart(g, m) && visits == [0, 1] && MarkerFirst(tail)
    requires |acc| == 2 && Zeroed(acc, visits)
    ensures VisitsOk(m, visits) && |m.comp| == 2 && InRange(SeqScan(g, m, visits, DcStart(g)), NUM_BINS)
    ensures var code := ScanCode(T, SeqScan(g, m, visits, DcStart(g)));
      ReadSeq(Ask, ScanTap(T, code + tail), g, m.comp, visits, DcStart(g), acc).ScanBad?
  {
    hide *;
    FarApartIs(g, m);
    FarApartUnfit(g, m, visits);
    SequentialSucceedsIff(T, g, m, visits, acc, tail);
  }

  lemma FarApartIs(g: Config, m: Image)
    requires FarApart(g, m)
    ensures ImageOk(g, m) && |m.blocks| == |m.comp| == 2
  {
  }

  /** DC coefficients of at most 15 bits always fit. */
  lemma {:induction false} SmallSeqFits(g: Config, m: Image, visits: seq<nat>, d: DcState)
    requires ConfigOk(g) && ImageOk(g, m) && VisitsOk(m, visits) && DcStateOk(g, d)
    requires forall p :: 0 <= p < |m.blocks| ==> -0x4000 <= m.blocks[p][0] <= 0x4000
    requires forall c :: 0 <= c < |d.last| ==> -0x4000 <= d.last[c] <= 0x4000
    ensures SeqFits(g, m, visits, d)
    decreases |visits|
  {
    if visits != [] {
      var b, c := m.blocks[visits[0]], m.comp[visits[0]];
      hide NextDcContext;
      SmallSeqFits(g, m, visits[1..], DcNext(g, d, c, b[0]));
    }
  }

  // ----- Progressive files

  lemma DcFirstBad<S(!new)>(step: Step<S>, s: S, g: Config, comp: seq<nat>, al: nat, visits: seq<nat>, d: DcState, acc: seq<Block>)
    requires ConfigOk(g) && DcStateOk(g, d) && |comp| == |acc| && visits != []
    requires forall i :: 0 <= i < |visits| ==> visits[i] < |acc| && comp[visits[i]] < |g.comps|
    requires var tbl := g.comps[comp[visits[0]]].dcTbl;
      !ReadDc(step, s, DcStats(tbl), d.ctx[comp[visits[0]]], g.dcL[tbl], g.dcU[tbl]).DcRead?
    ensures ReadDcFirst(step, s, g, comp, al, visits, d, acc).ScanBad?
  {
    hide ReadDc;
  }

  lemma NoVisitsFit(g: Config, m: Image, al: nat, visits: seq<nat>, e: DcState)
    requires ConfigOk(g) && ImageOk(g, m) && VisitsOk(m, visits) && DcStateOk(g, e) && !DcFits(g, m, al, visits, e)
    ensures visits != []
  {
  }

  /** A first DC scan whose differences do not all fit ends in an error. */
  lemma {:induction false} ReadDcFirstOverflows<S(!new)>(step: Step<S>, s: S, g: Config, m: Image, al: nat, visits: seq<nat>,
      e: DcState, d: DcState, acc: seq<Block>)
    requires ConfigOk(g) && ImageOk(g, m) && VisitsOk(m, visits) && DcStateOk(g, e) && DcStateOk(g, d)
    requires |acc| == |m.blocks| && al <= 15 && !DcFits(g, m, al, visits, e) && Mirrors(d, e)
    requires Answers(step, s, DcFirst(g, m, al, visits, e))
    ensures ReadDcFirst(step, s, g, m.comp, al, visits, d, acc).ScanBad?
    decreases |visits|
  {
    hide *;
    NoVisitsFit(g, m, al, visits, e);
    DcHead(g, m, al, visits, e, d);
    DcUnfolds(g, m, al, visits, e);
    var p, c := visits[0], m.comp[visits[0]];
    var tbl, v := g.comps[c].dcTbl, Floor(m.blocks[p][0], al);
    var e2 := DcNext(g, e, c, v);
    var xs := DcDecisions(DcStats(tbl), e.ctx[c], v - e.last[c]);
    AnswersConcat(step, s, xs, DcFirst(g, m, al, visits[1..], e2));
    if -0x8000 <= v - e.last[c] <= 0x8000 {
      ReadDcFirstStep(step, s, g, m, al, visits, e, d, acc);
      DcFollowMirrors(g, e, d, c, v);
      var acc2 := acc[p := acc[p][0 := Approx(m.blocks[p][0], 0, al)]];
      ReadDcFirstOverflows(step, After(step, s, xs), g, m, al, visits[1..], e2, DcFollow(g, e, d, c, v), acc2);
    } else {
      ReadDcIff(step, s, DcStats(tbl), e.ctx[c], g.dcL[tbl], g.dcU[tbl], v - e.last[c]);
      DcFirstBad(step, s, g, m.comp, al, visits, d, acc);
    }
  }

  lemma StartMirrors(g: Config)
    ensures Mirrors(DcStart(g), DcStart(g))
  {
  }

  /** A scan of the file whose differences do not all fit stops the decoder, whatever it holds. */
  lemma NthOverflows(T: Table, g: Config, m: Image, scans: seq<Scan>, visits: seq<seq<nat>>, tails: seq<seq<byte>>,
      tracked: set<nat>, n: nat, acc: seq<Block>)
    requires |T| >= 114 && FileLegal(g, m, scans, visits, tails, tracked) && n < |scans| && |acc| == |m.blocks|
    requires VisitsOk(m, visits[n]) && scans[n].ss == 0 && scans[n].ah == 0 && 0 <= scans[n].al <= 15
    requires !DcFits(g, m, scans[n].al, visits[n], DcStart(g))
    ensures ReadNth(T, g, m, scans, visits, tails, tracked, n, acc).ScanBad?
  {
    hide *;
    FileShape(g, m, scans, visits, tails, tracked);
    NthTapAnswers(T, g, m, scans, visits, tails, tracked, n);
    NthReads(T, g, m, scans, visits, tails, tracked, n, acc);
    StartMirrors(g);
    ImageShape(g, m, visits[n]);
    DcScanIs(NthTap(T, g, m, scans, visits, tails, tracked, n), g, m, scans[n], visits[n], acc);
    ReadDcFirstOverflows(Ask, NthTap(T, g, m, scans, visits, tails, tracked, n), g, m, scans[n].al, visits[n], DcStart(g), DcStart(g), acc);
  }

  lemma ImageShape(g: Config, m: Image, visits: seq<nat>)
    requires ImageOk(g, m) && VisitsOk(m, visits)
    ensures |m.comp| == |m.blocks| && forall i :: 0 <= i < |visits| ==> visits[i] < |m.blocks| && m.comp[visits[i]] < |g.comps|
  {
  }

  lemma DcScanIs(t: LiveTap, g: Config, m: Image, x: Scan, visits: seq<nat>, acc: seq<Block>)
    requires ConfigOk(g) && ImageOk(g, m) && VisitsOk(m, visits) && |acc| == |m.blocks| == |m.comp|
    requires RangesLegal(x) && CompsLegal(x.comps, |g.comps|) && x.ss == 0 && x.ah == 0 && 0 <= x.al
    requires forall i :: 0 <= i < |visits| ==> visits[i] < |m.blocks| && m.comp[visits[i]] < |g.comps|
    ensures ScanDecisions(g, m, x, visits) == DcFirst(g, m, x.al, visits, DcStart(g))
    ensures ReadScan(Ask, t, g, m.comp, x, visits, acc) == ReadDcFirst(Ask, t, g, m.comp, x.al, visits, DcStart(g), acc)
  {
    hide DcFirst, ReadDcFirst, ConfigOk, ImageOk, VisitsOk, Ask;
  }

  /** Once a scan has failed the file has. */
  lemma {:induction false} StaysBad(T: Table, g: Config, m: Image, scans: seq<Scan>, visits: seq<seq<nat>>, tails: seq<seq<byte>>,
      tracked: set<nat>, i: nat, n: nat)
    requires |T| >= 114 && FileLegal(g, m, scans, visits, tails, tracked) && i < n <= |scans|
    requires forall acc: seq<Block> :: |acc| == |m.blocks| ==> ReadNth(T, g, m, scans, visits, tails, tracked, i, acc).ScanBad?
    ensures !Decoded(T, g, m, scans, visits, tails, tracked, n).1
    decreases n
  {
    hide *;
    DecodedStep(T, g, m, scans, visits, tails, tracked, n);
    if i + 1 < n {
      StaysBad(T, g, m, scans, visits, tails, tracked, i, n - 1);
    }
  }

  /** The i-th scan sends no DC difference, or none beyond 2^15. */
  ghost predicate NthFits(g: Config, m: Image, scans: seq<Scan>, visits: seq<seq<nat>>, i: nat) {
    && i < |scans| == |visits| && ConfigOk(g) && ImageOk(g, m) && VisitsOk(m, visits[i])
    && (scans[i].ss == 0 && scans[i].ah == 0 ==> scans[i].al >= 0 && DcFits(g, m, scans[i].al, visits[i], DcStart(g)))
  }

  lemma FitsIsOk(g: Config, m: Image, scans: seq<Scan>, visits: seq<seq<nat>>, tails: seq<seq<byte>>, tracked: set<nat>)
    requires FileLegal(g, m, scans, visits, tails, tracked) && forall i :: 0 <= i < |scans| ==> NthFits(g, m, scans, visits, i)
    ensures FileOk(g, m, scans, visits, tails, tracked)
  {
    hide DcFits, ProgressivePrefixLegal, ConfigOk, ImageOk, Covers;
    forall i | 0 <= i < |scans| && scans[i].ss == 0 && scans[i].ah == 0
      ensures VisitsOk(m, visits[i]) && scans[i].al >= 0 && DcFits(g, m, scans[i].al, visits[i], DcStart(g))
    {
      assert NthFits(g, m, scans, visits, i);
    }
  }

  lemma NotFitting(g: Config, m: Image, scans: seq<Scan>, visits: seq<seq<nat>>, tails: seq<seq<byte>>, tracked: set<nat>, i: nat)
    requires FileLegal(g, m, scans, visits, tails, tracked) && i < |scans| && !NthFits(g, m, scans, visits, i)
    ensures |visits| == |scans| && VisitsOk(m, visits[i]) && ConfigOk(g) && ImageOk(g, m)
    ensures scans[i].ss == 0 && scans[i].ah == 0 && 0 <= scans[i].al <= 15 && !DcFits(g, m, scans[i].al, visits[i], DcStart(g))
  {
    ScanOk(g, m, scans, visits, tails, tracked, i);
    hide DcFits, ConfigOk, ImageOk, ProgressivePrefixLegal, ScanDecisions;
  }

  /** Every coefficient of every component is sent down to bit 0. */
  ghost predicate SendsAll(g: Config, scans: seq<Scan>) {
    forall c, k :: 0 <= c < |g.comps| && 0 <= k < 64 ==> BitPos(scans, c, k) == 0
  }

  lemma AllSent(g: Config, scans: seq<Scan>)
    requires SendsAll(g, scans)
    ensures forall c, k :: 0 <= c < |g.comps| && 0 <= k < 64 ==> BitPos(scans, c, k) == 0
  {
  }

  /** For every image of 16-bit coefficients and every legal script: all scans are read without an
      error if and only if no DC difference of a first DC scan exceeds 2^15; and then, if the
      script sends everything, the image is rebuilt. */
  lemma ProgressiveSucceedsIff(T: Table, g: Config, m: Image, scans: seq<Scan>, visits: seq<seq<nat>>,
      tails: seq<seq<byte>>, tracked: set<nat>)
    requires |T| >= 114 && FileLegal(g, m, scans, visits, tails, tracked)
    ensures Decoded(T, g, m, scans, visits, tails, tracked, |scans|).1 <==>
      forall i :: 0 <= i < |scans| ==> NthFits(g, m, scans, visits, i)
    ensures SendsAll(g, scans) && Decoded(T, g, m, scans, visits, tails, tracked, |scans|).1 ==>
      forall p :: p in tracked && p < |m.blocks| ==> Decoded(T, g, m, scans, visits, tails, tracked, |scans|).0[p] == m.blocks[p]
  {
    hide *;
    if forall i :: 0 <= i < |scans| ==> NthFits(g, m, scans, visits, i) {
      FitsIsOk(g, m, scans, visits, tails, tracked);
      DecodedInSync(T, g, m, scans, visits, tails, tracked, |scans|);
      if SendsAll(g, scans) {
        AllSent(g, scans);
        ProgressiveRoundTrip(T, g, m, scans, visits, tails, tracked);
      }
    } else {
      var i: nat :| i < |scans| && !NthFits(g, m, scans, visits, i);
      NotFitting(g, m, scans, visits, tails, tracked, i);
      forall acc: seq<Block> | |acc| == |m.blocks| ensures ReadNth(T, g, m, scans, visits, tails, tracked, i, acc).ScanBad? {
        NthOverflows(T, g, m, scans, visits, tails, tracked, i, acc);
      }
      StaysBad(T, g, m, scans, visits, tails, tracked, i, |scans|);
    }
  }

  lemma {:induction false} HalfFits(x: int, al: nat)
    requires -0x8000 <= x < 0x8000 && al >= 1
    ensures -0x4000 <= Floor(x, al) < 0x4000
  {
    if al == 1 {
      assert Pow2(1) == 2;
    } else {
      HalfFits(x, al - 1);
      FloorFiner(x, al - 1);
    }
  }

  /** A first DC scan that leaves out a bit plane codes any 16-bit image. */
  lemma {:induction false} CoarseDcFits(g: Config, m: Image, al: nat, visits: seq<nat>, d: DcState)
    requires ConfigOk(g) && ImageOk(g, m) && VisitsOk(m, visits) && DcStateOk(g, d) && al >= 1
    requires forall c :: 0 <= c < |d.last| ==> -0x4000 <= d.last[c] <= 0x4000
    ensures DcFits(g, m, al, visits, d)
    decreases |visits|
  {
    if visits != [] {
      var p, c := visits[0], m.comp[visits[0]];
      HalfFits(m.blocks[p][0], al);
      hide NextDcContext, Floor;
      CoarseDcFits(g, m, al, visits[1..], DcNext(g, d, c, Floor(m.blocks[p][0], al)));
    }
  }

  ghost predicate StartsCoarse(scans: seq<Scan>) {
    forall i :: 0 <= i < |scans| && scans[i].ss == 0 && scans[i].ah == 0 ==> scans[i].al == 1
  }

  lemma EachScanCoarse(n: nat, ss: int, se: int, ah: int, al: int)
    requires ss == 0 && ah == 0 ==> al == 1
    ensures StartsCoarse(EachScan(n, ss, se, ah, al)) && (ss == 0 ==> StartsCoarse(DcScans(n, ah, al)))
  {
  }

  lemma JoinCoarse(a: seq<Scan>, b: seq<Scan>)
    requires StartsCoarse(a) && StartsCoarse(b)
    ensures StartsCoarse(a + b)
  {
  }

  lemma SimpleScriptCoarse(n: nat, ycc: bool)
    ensures StartsCoarse(SimpleScript(n, ycc))
  {
    EachScanCoarse(n, 0, 0, 0, 1);
    EachScanCoarse(n, 0, 0, 1, 0);
    EachScanCoarse(n, 1, 5, 0, 2);
    EachScanCoarse(n, 6, 63, 0, 2);
    EachScanCoarse(n, 1, 63, 2, 1);
    EachScanCoarse(n, 1, 63, 1, 0);
    hide EachScan, DcScans, StartsCoarse;
    JoinCoarse(DcScans(n, 0, 1), EachScan(n, 1, 5, 0, 2));
    JoinCoarse(DcScans(n, 0, 1) + EachScan(n, 1, 5, 0, 2), EachScan(n, 6, 63, 0, 2));
    JoinCoarse(EachScan(n, 1, 63, 2, 1), DcScans(n, 1, 0));
    JoinCoarse(EachScan(n, 1, 63, 2, 1) + DcScans(n, 1, 0), EachScan(n, 1, 63, 1, 0));
    JoinCoarse(FirstPass(n), LaterPasses(n));
    YCbCrCoarse();
  }

  lemma YCbCrCoarse()
    ensures StartsCoarse(ForYCbCr())
  {
  }

  /** The recommended script rebuilds every 16-bit image exactly, whatever its components. */
  lemma SimpleProgressionRoundTrip(T: Table, g: Config, m: Image, ycc: bool, visits: seq<seq<nat>>,
      tails: seq<seq<byte>>, tracked: set<nat>)
    requires |T| >= 114 && ConfigOk(g) && ImageOk(g, m) && |g.comps| > 0
    requires |visits| == |tails| == ScanCount(|g.comps|, ycc)
    requires |visits| == |SimpleScript(|g.comps|, ycc)| ==> forall i :: 0 <= i < |visits| ==>
      Covers(m, SimpleScript(|g.comps|, ycc)[i], visits[i], tracked) && MarkerFirst(tails[i])
    ensures var scans := SimpleScript(|g.comps|, ycc);
      && FileOk(g, m, scans, visits, tails, tracked)
      && Decoded(T, g, m, scans, visits, tails, tracked, |scans|).1
      && forall p :: p in tracked && p < |m.blocks| ==>
           Decoded(T, g, m, scans, visits, tails, tracked, |scans|).0[p] == m.blocks[p]
  {
    var scans := SimpleScript(|g.comps|, ycc);
    SimpleScriptIsLegal(|g.comps|, ycc);
    SimpleScriptCoarse(|g.comps|, ycc);
    hide SimpleScript, ScanCount, Decoded;
    forall i | 0 <= i < |scans| && scans[i].ss == 0 && scans[i].ah == 0
      ensures VisitsOk(m, visits[i]) && DcFits(g, m, scans[i].al, visits[i], DcStart(g))
    {
      CoarseDcFits(g, m, scans[i].al, visits[i], DcStart(g));
    }
    assert FileOk(g, m, scans, visits, tails, tracked);
    ProgressiveRoundTrip(T, g, m, scans, visits, tails, tracked);
  }
}
