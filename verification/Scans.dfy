/** The scans of an arithmetic-coded file: which decisions each of the five MCU routines
    makes for the blocks it visits, and how the decoder's blocks follow. */
module Scans {
  import opened Coefficients
  import opened Powers
  import opened Interval
  import opened Binarize
  import opened Refine
  import opened NaturalOrder

  /** Table numbers of a component. */
  datatype Comp = Comp(dcTbl: nat, acTbl: nat)

  /** Components, and the conditioning bounds of each table. */
  datatype Config = Config(comps: seq<Comp>, dcL: seq<nat>, dcU: seq<nat>, acK: seq<nat>)

  ghost predicate ConfigOk(g: Config) {
    && |g.dcL| == |g.dcU| == |g.acK| == NUM_TBLS
    && forall c :: 0 <= c < |g.comps| ==> g.comps[c].dcTbl < NUM_TBLS && g.comps[c].acTbl < NUM_TBLS
  }

  /** All the blocks of an image, and the component each belongs to. */
  datatype Image = Image(blocks: seq<Block>, comp: seq<nat>)

  ghost predicate ImageOk(g: Config, m: Image) {
    && |m.comp| == |m.blocks|
    && (forall p :: 0 <= p < |m.blocks| ==> m.comp[p] < |g.comps|)
    && forall p, k :: 0 <= p < |m.blocks| && 0 <= k < 64 ==> -0x8000 <= m.blocks[p][k] < 0x8000
  }

  ghost predicate VisitsOk(m: Image, visits: seq<nat>) {
    && (forall i :: 0 <= i < |visits| ==> visits[i] < |m.blocks|)
    && forall i, j :: 0 <= i < j < |visits| ==> visits[i] != visits[j]
  }

  datatype ScanRead<S> = ScanRead(acc: seq<Block>, s: S) | ScanBad(acc: seq<Block>, s: S)

  // ----- DC, first pass: prediction and context per component

  datatype DcState = DcState(last: seq<int>, ctx: seq<nat>)

  ghost predicate DcStateOk(g: Config, d: DcState) {
    |d.last| == |d.ctx| == |g.comps| && forall c :: 0 <= c < |d.ctx| ==> d.ctx[c] <= 16
  }

  function DcStart(g: Config): (d: DcState)
    ensures DcStateOk(g, d)
  {
    DcState(seq(|g.comps|, _ => 0), seq(|g.comps|, _ => 0))
  }

  /** The encoder's prediction state after value m of component c. */
  function DcNext(g: Config, d: DcState, c: nat, m: int): (r: DcState)
    requires ConfigOk(g) && DcStateOk(g, d) && c < |g.comps|
    ensures DcStateOk(g, r)
  {
    var tbl := g.comps[c].dcTbl;
    DcState(d.last[c := m], d.ctx[c := NextDcContext(m - d.last[c], g.dcL[tbl], g.dcU[tbl])])
  }

  function DcFirst(g: Config, m: Image, al: nat, visits: seq<nat>, d: DcState): seq<Decision>
    requires ConfigOk(g) && ImageOk(g, m) && VisitsOk(m, visits) && DcStateOk(g, d)
  {
    if visits == [] then [] else
    var p, c := visits[0], m.comp[visits[0]];
    var v := Floor(m.blocks[p][0], al);
    DcDecisions(DcStats(g.comps[c].dcTbl), d.ctx[c], v - d.last[c]) + DcFirst(g, m, al, visits[1..], DcNext(g, d, c, v))
  }

  /** Every difference the scan meets can be coded: magnitude at most 2^15. */
  ghost predicate DcFits(g: Config, m: Image, al: nat, visits: seq<nat>, d: DcState)
    requires ConfigOk(g) && ImageOk(g, m) && VisitsOk(m, visits) && DcStateOk(g, d)
  {
    visits == [] || (
      var p, c := visits[0], m.comp[visits[0]];
      var v := Floor(m.blocks[p][0], al);
      -0x8000 <= v - d.last[c] <= 0x8000 && DcFits(g, m, al, visits[1..], DcNext(g, d, c, v)))
  }

  /** The decoder keeps its prediction modulo 2^16. */
  function ReadDcFirst<S>(step: Step<S>, s: S, g: Config, comp: seq<nat>, al: nat, visits: seq<nat>, d: DcState,
      acc: seq<Block>): (r: ScanRead<S>)
    requires ConfigOk(g) && DcStateOk(g, d) && |comp| == |acc|
    requires forall i :: 0 <= i < |visits| ==> visits[i] < |acc| && comp[visits[i]] < |g.comps|
    ensures |r.acc| == |acc|
  {
    if visits == [] then ScanRead(acc, s) else
    var p, c := visits[0], comp[visits[0]];
    var tbl := g.comps[c].dcTbl;
    match ReadDc(step, s, DcStats(tbl), d.ctx[c], g.dcL[tbl], g.dcU[tbl])
    case DcBad(n) => ScanBad(acc, n)
    case DcRead(diff, ctx, n) =>
      var last := NextLast(d.last[c], diff);
      ReadDcFirst(step, n, g, comp, al, visits[1..], DcState(d.last[c := last], d.ctx[c := ctx]),
                  acc[p := acc[p][0 := ToCoef(Scale(last, al))]])
  }

  ghost predicate Congruent(x: int, y: int) {
    (x - y) % 0x10000 == 0
  }

  /** The decoder's predictions are the encoder's, modulo 2^16. */
  ghost predicate Mirrors(d: DcState, e: DcState) {
    && |d.last| == |e.last| && d.ctx == e.ctx
    && forall c :: 0 <= c < |d.last| ==> Congruent(d.last[c], e.last[c])
  }

  lemma ToCoefCongruent(x: int, y: int)
    requires Congruent(x, y)
    ensures ToCoef(x) == ToCoef(y)
  {
  }

  lemma ScaleCongruent(x: int, y: int, al: nat)
    requires Congruent(x, y)
    ensures Congruent(Scale(x, al), Scale(y, al))
  {
    var q, p := (x - y) / 0x10000, Pow2(al);
    Distribute(y, 0x10000 * q, p);
    assert 0x10000 * q * p == 0x10000 * (q * p);
  }

  function NextLast(last: int, diff: int): int {
    if diff == 0 then last else (last + diff) % 0x10000
  }

  lemma NextLastCongruent(last: int, pred: int, v: int)
    requires Congruent(last, pred)
    ensures Congruent(NextLast(last, v - pred), v)
  {
  }

  /** acc with the DC value of every visited block known to plane al. */
  ghost predicate DcPainted(acc: seq<Block>, r: seq<Block>, m: Image, al: nat, visits: seq<nat>)
    requires |acc| == |m.blocks|
  {
    && |r| == |acc|
    && forall p :: 0 <= p < |r| ==> r[p] == if p in visits then acc[p][0 := Approx(m.blocks[p][0], 0, al)] else acc[p]
  }

  lemma DcPaintedStep(acc: seq<Block>, r: seq<Block>, m: Image, al: nat, visits: seq<nat>)
    requires |acc| == |m.blocks| && visits != [] && VisitsOk(m, visits)
    requires var p := visits[0];
      DcPainted(acc[p := acc[p][0 := Approx(m.blocks[p][0], 0, al)]], r, m, al, visits[1..])
    ensures DcPainted(acc, r, m, al, visits)
  {
    hide Approx;
    assert visits == [visits[0]] + visits[1..];
  }

  /** The decoder's prediction after one block, and the coefficient it stores. */
  lemma DcValueInverts(last: int, pred: int, x: int, al: nat)
    requires Congruent(last, pred) && -0x8000 <= x < 0x8000 && al <= 15
    ensures var v := NextLast(last, Floor(x, al) - pred);
      Congruent(v, Floor(x, al)) && ToCoef(Scale(v, al)) == Approx(x, 0, al)
  {
    var v := NextLast(last, Floor(x, al) - pred);
    FloorFits(x, al);
    NextLastCongruent(last, pred, Floor(x, al));
    ScaleCongruent(v, Floor(x, al), al);
    ToCoefCongruent(Scale(v, al), Scale(Floor(x, al), al));
  }

  /** The decoder's prediction state when the encoder moves on from d. */
  function DcFollow(g: Config, e: DcState, d: DcState, c: nat, v: int): (r: DcState)
    requires ConfigOk(g) && DcStateOk(g, e) && DcStateOk(g, d) && c < |g.comps|
    ensures DcStateOk(g, r)
  {
    DcState(d.last[c := NextLast(d.last[c], v - e.last[c])], d.ctx[c := DcNext(g, e, c, v).ctx[c]])
  }

  lemma DcFollowMirrors(g: Config, e: DcState, d: DcState, c: nat, v: int)
    requires ConfigOk(g) && DcStateOk(g, e) && DcStateOk(g, d) && c < |g.comps| && Mirrors(d, e)
    ensures Mirrors(DcFollow(g, e, d, c, v), DcNext(g, e, c, v))
  {
    NextLastCongruent(d.last[c], e.last[c], v);
    hide NextDcContext, Congruent, NextLast;
  }

  /** What is known of the first block of a scan. */
  lemma DcHead(g: Config, m: Image, al: nat, visits: seq<nat>, e: DcState, d: DcState)
    requires ConfigOk(g) && ImageOk(g, m) && VisitsOk(m, visits) && DcStateOk(g, e) && DcStateOk(g, d)
    requires visits != [] && Mirrors(d, e)
    ensures var p, c := visits[0], m.comp[visits[0]];
      && p < |m.blocks| == |m.comp| && c < |g.comps| == |d.last| == |d.ctx| == |e.last| == |e.ctx|
      && -0x8000 <= m.blocks[p][0] < 0x8000 && e.ctx[c] <= 16 && d.ctx[c] == e.ctx[c] && Congruent(d.last[c], e.last[c])
    ensures var c := m.comp[visits[0]];
      var v, tbl := Floor(m.blocks[visits[0]][0], al), g.comps[c].dcTbl;
      && tbl < |g.dcL| == |g.dcU| && DcStats(tbl) + 49 <= NUM_BINS
      && DcFollow(g, e, d, c, v)
         == DcState(d.last[c := NextLast(d.last[c], v - e.last[c])], d.ctx[c := NextDcContext(v - e.last[c], g.dcL[tbl], g.dcU[tbl])])
      && DcStateOk(g, DcFollow(g, e, d, c, v))
    ensures forall i :: 0 <= i < |visits| ==> visits[i] < |m.blocks| && m.comp[visits[i]] < |g.comps|
    ensures VisitsOk(m, visits[1..])
  {
    hide Congruent, Floor, NextDcContext, NextLast;
  }

  /** One block of a first DC scan. */
  lemma ReadDcFirstStep<S(!new)>(step: Step<S>, s: S, g: Config, m: Image, al: nat, visits: seq<nat>,
      e: DcState, d: DcState, acc: seq<Block>)
    requires ConfigOk(g) && ImageOk(g, m) && VisitsOk(m, visits) && DcStateOk(g, e) && DcStateOk(g, d)
    requires |acc| == |m.blocks| && al <= 15 && visits != [] && Mirrors(d, e)
    requires var c := m.comp[visits[0]];
      -0x8000 <= Floor(m.blocks[visits[0]][0], al) - e.last[c] <= 0x8000 &&
      Answers(step, s, DcDecisions(DcStats(g.comps[c].dcTbl), e.ctx[c], Floor(m.blocks[visits[0]][0], al) - e.last[c]))
    ensures var p, c := visits[0], m.comp[visits[0]];
      var v := Floor(m.blocks[p][0], al);
      var ds := DcDecisions(DcStats(g.comps[c].dcTbl), e.ctx[c], v - e.last[c]);
      ReadDcFirst(step, s, g, m.comp, al, visits, d, acc)
      == ReadDcFirst(step, After(step, s, ds), g, m.comp, al, visits[1..], DcFollow(g, e, d, c, v),
                     acc[p := acc[p][0 := Approx(m.blocks[p][0], 0, al)]])
  {
    hide *;
    DcHead(g, m, al, visits, e, d);
    var p, c := visits[0], m.comp[visits[0]];
    var tbl := g.comps[c].dcTbl;
    var v := Floor(m.blocks[p][0], al);
    ReadDcInverts(step, s, DcStats(tbl), e.ctx[c], g.dcL[tbl], g.dcU[tbl], v - e.last[c]);
    DcValueInverts(d.last[c], e.last[c], m.blocks[p][0], al);
    DcTurn(step, s, g, m.comp, al, visits, d, acc, v - e.last[c], NextDcContext(v - e.last[c], g.dcL[tbl], g.dcU[tbl]),
           After(step, s, DcDecisions(DcStats(tbl), e.ctx[c], v - e.last[c])));
  }

  /** The first block of a scan, once its difference has been read. */
  lemma DcTurn<S(!new)>(step: Step<S>, s: S, g: Config, comp: seq<nat>, al: nat, visits: seq<nat>, d: DcState, acc: seq<Block>,
      diff: int, ctx: nat, n: S)
    requires ConfigOk(g) && DcStateOk(g, d) && |comp| == |acc| && visits != []
    requires forall i :: 0 <= i < |visits| ==> visits[i] < |acc| && comp[visits[i]] < |g.comps|
    requires var c := comp[visits[0]];
      && ReadDc(step, s, DcStats(g.comps[c].dcTbl), d.ctx[c], g.dcL[g.comps[c].dcTbl], g.dcU[g.comps[c].dcTbl]) == DcRead(diff, ctx, n)
      && DcStateOk(g, DcState(d.last[c := NextLast(d.last[c], diff)], d.ctx[c := ctx]))
    ensures var p, c := visits[0], comp[visits[0]];
      ReadDcFirst(step, s, g, comp, al, visits, d, acc)
      == ReadDcFirst(step, n, g, comp, al, visits[1..], DcState(d.last[c := NextLast(d.last[c], diff)], d.ctx[c := ctx]),
                     acc[p := acc[p][0 := ToCoef(Scale(NextLast(d.last[c], diff), al))]])
  {
    hide ReadDc, ToCoef, Scale, NextLast;
  }

  lemma {:induction false} ReadDcFirstInverts<S(!new)>(step: Step<S>, s: S, g: Config, m: Image, al: nat, visits: seq<nat>,
      e: DcState, d: DcState, acc: seq<Block>)
    requires ConfigOk(g) && ImageOk(g, m) && VisitsOk(m, visits) && DcStateOk(g, e) && DcStateOk(g, d)
    requires |acc| == |m.blocks| && al <= 15 && DcFits(g, m, al, visits, e) && Mirrors(d, e)
    requires Answers(step, s, DcFirst(g, m, al, visits, e))
    ensures var r := ReadDcFirst(step, s, g, m.comp, al, visits, d, acc);
      && r.ScanRead? && r.s == After(step, s, DcFirst(g, m, al, visits, e))
      && DcPainted(acc, r.acc, m, al, visits)
    decreases |visits|
  {
    hide *;
    if visits == [] {
      NoDcVisits(step, s, g, m, al, visits, e, d, acc);
    } else {
      DcHead(g, m, al, visits, e, d);
      DcUnfolds(g, m, al, visits, e);
      var p, c := visits[0], m.comp[visits[0]];
      var v := Floor(m.blocks[p][0], al);
      var e2 := DcNext(g, e, c, v);
      var xs := DcDecisions(DcStats(g.comps[c].dcTbl), e.ctx[c], v - e.last[c]);
      AnswersConcat(step, s, xs, DcFirst(g, m, al, visits[1..], e2));
      ReadDcFirstStep(step, s, g, m, al, visits, e, d, acc);
      DcFollowMirrors(g, e, d, c, v);
      var acc2 := acc[p := acc[p][0 := Approx(m.blocks[p][0], 0, al)]];
      ReadDcFirstInverts(step, After(step, s, xs), g, m, al, visits[1..], e2, DcFollow(g, e, d, c, v), acc2);
      DcPaintedStep(acc, ReadDcFirst(step, s, g, m.comp, al, visits, d, acc).acc, m, al, visits);
    }
  }

  lemma NoDcVisits<S(!new)>(step: Step<S>, s: S, g: Config, m: Image, al: nat, visits: seq<nat>, e: DcState, d: DcState, acc: seq<Block>)
    requires ConfigOk(g) && ImageOk(g, m) && VisitsOk(m, visits) && DcStateOk(g, e) && DcStateOk(g, d) && |acc| == |m.blocks|
    requires visits == []
    ensures var r := ReadDcFirst(step, s, g, m.comp, al, visits, d, acc);
      && r.ScanRead? && r.s == After(step, s, DcFirst(g, m, al, visits, e))
      && DcPainted(acc, r.acc, m, al, visits)
  {
  }

  lemma DcUnfolds(g: Config, m: Image, al: nat, visits: seq<nat>, e: DcState)
    requires ConfigOk(g) && ImageOk(g, m) && VisitsOk(m, visits) && DcStateOk(g, e) && visits != []
    requires m.comp[visits[0]] < |g.comps| == |e.last| == |e.ctx| && VisitsOk(m, visits[1..])
    ensures var c := m.comp[visits[0]];
      var v := Floor(m.blocks[visits[0]][0], al);
      && DcFirst(g, m, al, visits, e)
         == DcDecisions(DcStats(g.comps[c].dcTbl), e.ctx[c], v - e.last[c]) + DcFirst(g, m, al, visits[1..], DcNext(g, e, c, v))
      && DcStateOk(g, DcNext(g, e, c, v))
      && (DcFits(g, m, al, visits, e) <==> -0x8000 <= v - e.last[c] <= 0x8000 && DcFits(g, m, al, visits[1..], DcNext(g, e, c, v)))
  {
    hide DcDecisions, Floor, NextDcContext;
  }

  // ----- AC, first pass

  /** A block under the AC point transform. */
  function Transform(b: Block, al: nat): Block {
    seq(64, k requires 0 <= k < 64 => Truncate(b[k], al))
  }

  function AcFirstBlock(g: Config, c: nat, b: Block, ss: nat, se: nat, al: nat): seq<Decision>
    requires ConfigOk(g) && c < |g.comps| && 0 < ss <= se < 64
  {
    var y := Transform(b, al);
    var tbl := g.comps[c].acTbl;
    AcDecisions(AcStats(tbl), g.acK[tbl], y, ss, LastNonzero(y, se), se)
  }

  function AcFirst(g: Config, m: Image, c: nat, ss: nat, se: nat, al: nat, visits: seq<nat>): seq<Decision>
    requires ConfigOk(g) && ImageOk(g, m) && VisitsOk(m, visits) && c < |g.comps| && 0 < ss <= se < 64
  {
    if visits == [] then [] else
    AcFirstBlock(g, c, m.blocks[visits[0]], ss, se, al) + AcFirst(g, m, c, ss, se, al, visits[1..])
  }

  function ReadAcFirst<S>(step: Step<S>, s: S, g: Config, c: nat, ss: nat, se: nat, al: nat, visits: seq<nat>,
      acc: seq<Block>): (r: ScanRead<S>)
    requires ConfigOk(g) && c < |g.comps| && 0 < ss <= se < 64
    requires forall i :: 0 <= i < |visits| ==> visits[i] < |acc|
    ensures |r.acc| == |acc|
  {
    if visits == [] then ScanRead(acc, s) else
    var tbl := g.comps[c].acTbl;
    match ReadAc(step, s, AcStats(tbl), g.acK[tbl], ss, se, al, acc[visits[0]])
    case AcBad(z, n) => ScanBad(acc[visits[0] := z], n)
    case AcRead(z, n) => ReadAcFirst(step, n, g, c, ss, se, al, visits[1..], acc[visits[0] := z])
  }

  /** Visited blocks of acc replaced by what F makes of them. */
  ghost predicate Painted(acc: seq<Block>, r: seq<Block>, F: (nat, Block) -> Block, visits: seq<nat>) {
    && |r| == |acc|
    && forall p :: 0 <= p < |r| ==> r[p] == if p in visits then F(p, acc[p]) else acc[p]
  }

  lemma PaintedStep(acc: seq<Block>, r: seq<Block>, F: (nat, Block) -> Block, m: Image, visits: seq<nat>)
    requires |acc| == |m.blocks| && visits != [] && VisitsOk(m, visits)
    requires Painted(acc[visits[0] := F(visits[0], acc[visits[0]])], r, F, visits[1..])
    ensures Painted(acc, r, F, visits)
  {
    assert visits == [visits[0]] + visits[1..];
  }

  /** What a first AC scan writes over block p. */
  ghost function AcFill(m: Image, ss: nat, se: nat, al: nat): (nat, Block) -> Block {
    (p: nat, z: Block) => if p < |m.blocks| then Fill(z, Transform(m.blocks[p], al), ss, se, al) else z
  }

  lemma TransformFits(b: Block, al: nat)
    requires forall k :: 0 <= k < 64 ==> -0x8000 <= b[k] < 0x8000
    ensures var y := Transform(b, al);
      && (forall k :: 0 <= k < 64 ==> -0x8000 <= y[k] <= 0x8000)
      && BandFits(y, al)
  {
    var y := Transform(b, al);
    forall k | 0 <= k < 64
      ensures -0x8000 <= y[k] <= 0x8000 && -0x8000 <= Scale(y[k], al) < 0x8000
    {
      TruncateSmaller(b[k], al);
      ScaleSigned(Abs(y[k]), y[k] < 0, al);
    }
  }

  lemma {:induction false} ReadAcFirstInverts<S(!new)>(step: Step<S>, s: S, g: Config, m: Image, c: nat, ss: nat, se: nat,
      al: nat, visits: seq<nat>, acc: seq<Block>)
    requires ConfigOk(g) && ImageOk(g, m) && VisitsOk(m, visits) && c < |g.comps| && 0 < ss <= se < 64
    requires |acc| == |m.blocks| && Answers(step, s, AcFirst(g, m, c, ss, se, al, visits))
    ensures var r := ReadAcFirst(step, s, g, c, ss, se, al, visits, acc);
      && r.ScanRead? && r.s == After(step, s, AcFirst(g, m, c, ss, se, al, visits))
      && Painted(acc, r.acc, AcFill(m, ss, se, al), visits)
    decreases |visits|
  {
    if visits != [] {
      var p := visits[0];
      var y := Transform(m.blocks[p], al);
      var tbl := g.comps[c].acTbl;
      var xs := AcFirstBlock(g, c, m.blocks[p], ss, se, al);
      AnswersConcat(step, s, xs, AcFirst(g, m, c, ss, se, al, visits[1..]));
      TransformFits(m.blocks[p], al);
      ReadAcInverts(step, s, AcStats(tbl), g.acK[tbl], ss, LastNonzero(y, se), se, al, y, acc[p]);
      var z := Fill(acc[p], y, ss, se, al);
      assert z == AcFill(m, ss, se, al)(p, acc[p]);
      hide Fill, Transform, AcFirstBlock, ReadAc, Painted, AcFill;
      ReadAcFirstInverts(step, After(step, s, xs), g, m, c, ss, se, al, visits[1..], acc[p := z]);
      PaintedStep(acc, ReadAcFirst(step, s, g, c, ss, se, al, visits, acc).acc, AcFill(m, ss, se, al), m, visits);
    }
  }

  // ----- DC, refinement

  function DcRefine(m: Image, al: nat, visits: seq<nat>): seq<Decision>
    requires VisitsOk(m, visits)
  {
    if visits == [] then [] else [DcBit(m.blocks[visits[0]][0], al)] + DcRefine(m, al, visits[1..])
  }

  function ReadDcRefine<S>(step: Step<S>, s: S, al: nat, visits: seq<nat>, acc: seq<Block>): (r: ScanRead<S>)
    requires forall i :: 0 <= i < |visits| ==> visits[i] < |acc|
    ensures |r.acc| == |acc| && r.ScanRead?
  {
    if visits == [] then ScanRead(acc, s) else
    var p := visits[0];
    var (x, n) := ReadDcBit(step, s, al, acc[p][0]);
    ReadDcRefine(step, n, al, visits[1..], acc[p := acc[p][0 := x]])
  }

  /** The refined DC value where the coarser one was held; other blocks' values do not matter. */
  ghost function DcRefined(m: Image, al: nat): (nat, Block) -> Block {
    (p: nat, z: Block) =>
      if p < |m.blocks| then
        z[0 := if z[0] == Approx(m.blocks[p][0], 0, al + 1) then Approx(m.blocks[p][0], 0, al)
               else if DcBit(m.blocks[p][0], al).bit then ToCoef(OrBit(z[0], al)) else z[0]]
      else z
  }

  lemma {:induction false} ReadDcRefineInverts<S(!new)>(step: Step<S>, s: S, g: Config, m: Image, al: nat,
      visits: seq<nat>, acc: seq<Block>)
    requires ImageOk(g, m) && VisitsOk(m, visits) && |acc| == |m.blocks| && al <= 15
    requires Answers(step, s, DcRefine(m, al, visits))
    ensures var r := ReadDcRefine(step, s, al, visits, acc);
      r.s == After(step, s, DcRefine(m, al, visits)) && Painted(acc, r.acc, DcRefined(m, al), visits)
    decreases |visits|
  {
    if visits != [] {
      var p := visits[0];
      var xs := [DcBit(m.blocks[p][0], al)];
      AnswersConcat(step, s, xs, DcRefine(m, al, visits[1..]));
      var (x, n) := ReadDcBit(step, s, al, acc[p][0]);
      assert n == After(step, s, xs) by { assert xs[1..] == []; }
      assert acc[p][0 := x] == DcRefined(m, al)(p, acc[p]) by {
        if acc[p][0] == Approx(m.blocks[p][0], 0, al + 1) {
          ReadDcBitInverts(step, s, al, m.blocks[p][0]);
        }
      }
      hide DcRefined, ReadDcBit, DcBit, Painted;
      ReadDcRefineInverts(step, n, g, m, al, visits[1..], acc[p := acc[p][0 := x]]);
      PaintedStep(acc, ReadDcRefine(step, s, al, visits, acc).acc, DcRefined(m, al), m, visits);
    }
  }

  // ----- AC, refinement

  function AcRefineBlock(g: Config, c: nat, b: Block, ss: nat, se: nat, ah: nat, al: nat): seq<Decision>
    requires ConfigOk(g) && c < |g.comps| && 0 < ss <= se < 64
  {
    var y := Transform(b, al);
    var ke := LastNonzero(y, se);
    RefineDecisions(AcStats(g.comps[c].acTbl), y, ss, LastNonzero(Transform(b, ah), ke), ke, se)
  }

  function AcRefine(g: Config, m: Image, c: nat, ss: nat, se: nat, ah: nat, al: nat, visits: seq<nat>): seq<Decision>
    requires ConfigOk(g) && ImageOk(g, m) && VisitsOk(m, visits) && c < |g.comps| && 0 < ss <= se < 64
  {
    if visits == [] then [] else
    AcRefineBlock(g, c, m.blocks[visits[0]], ss, se, ah, al) + AcRefine(g, m, c, ss, se, ah, al, visits[1..])
  }

  function ReadAcRefine<S>(step: Step<S>, s: S, g: Config, c: nat, ss: nat, se: nat, al: nat, visits: seq<nat>,
      acc: seq<Block>): (r: ScanRead<S>)
    requires ConfigOk(g) && c < |g.comps| && 0 < ss <= se < 64
    requires forall i :: 0 <= i < |visits| ==> visits[i] < |acc|
    ensures |r.acc| == |acc|
  {
    if visits == [] then ScanRead(acc, s) else
    var z := acc[visits[0]];
    match ReadRefine(step, s, AcStats(g.comps[c].acTbl), ss, LastNonzero(z, se), se, al, z)
    case AcBad(z2, n) => ScanBad(acc[visits[0] := z2], n)
    case AcRead(z2, n) => ReadAcRefine(step, n, g, c, ss, se, al, visits[1..], acc[visits[0] := z2])
  }

  ghost function AcRefined(m: Image, ss: nat, se: nat, al: nat): (nat, Block) -> Block {
    (p: nat, z: Block) => if p < |m.blocks| then Scaled(z, Transform(m.blocks[p], al), ss, se, al) else z
  }

  /** An end-of-block index below the band is as good as any other. */
  lemma {:induction false} RefineBelow(base: nat, y: seq<int>, k: nat, kex1: nat, kex2: nat, ke: nat, se: nat)
    requires k > 0 && ke <= se < |y| && (ke > 0 ==> y[ke] != 0) && kex1 < k && kex2 < k
    ensures RefineDecisions(base, y, k, kex1, ke, se) == RefineDecisions(base, y, k, kex2, ke, se)
    decreases if k <= ke then ke + 1 - k else 0, 1
  {
    if k <= ke {
      RefineRunBelow(base, y, k, kex1, kex2, ke, se);
    }
  }

  lemma {:induction false} RefineRunBelow(base: nat, y: seq<int>, k: nat, kex1: nat, kex2: nat, ke: nat, se: nat)
    requires 0 < k <= ke <= se < |y| && y[ke] != 0 && kex1 < k && kex2 < k
    ensures RefineRun(base, y, k, kex1, ke, se) == RefineRun(base, y, k, kex2, ke, se)
    decreases ke + 1 - k, 0
  {
    if Known(y[k]) || y[k] != 0 {
      RefineBelow(base, y, k + 1, kex1, kex2, ke, se);
    } else {
      RefineRunBelow(base, y, k + 1, kex1, kex2, ke, se);
    }
  }

  lemma KnownIsCoarser(x: int, al: nat)
    ensures Known(Truncate(x, al)) <==> Truncate(x, al + 1) != 0
    ensures Truncate(x, al + 1) == Signed(Abs(Truncate(x, al)) / 2, Truncate(x, al) < 0)
  {
    FloorFiner(Abs(x), al);
    FloorAtLeast(Abs(x), Pow2(al), 0);
    FloorAtLeast(Abs(x), Pow2(al + 1), 0);
  }

  /** Band ss..se of z is the block at plane al. */
  ghost predicate HoldsPlane(z: Block, b: Block, ss: nat, se: nat, al: nat) {
    forall k :: 0 < ss <= k <= se < 64 ==> z[k] == Approx(b[k], k, al)
  }

  lemma BehindByOne(z: Block, b: Block, ss: nat, se: nat, al: nat)
    requires 0 < ss <= se < 64 && HoldsPlane(z, b, ss, se, al + 1)
    ensures var y := Transform(b, al);
      && OnePlaneBehind(z, y, ss, se, al)
      && forall k :: ss <= k <= se ==> (z[k] != 0 <==> Transform(b, al + 1)[k] != 0) && (z[k] != 0 ==> y[k] != 0)
  {
    forall k | ss <= k <= se
      ensures z[k] == Scale(Signed(Abs(Transform(b, al)[k]) / 2, Transform(b, al)[k] < 0), al + 1)
      ensures z[k] != 0 <==> Transform(b, al + 1)[k] != 0
    {
      KnownIsCoarser(b[k], al);
      var t := Truncate(b[k], al + 1);
      if t >= 1 {
        MulAtLeast(t, Pow2(al + 1));
      } else if t <= -1 {
        NegMul(t, Pow2(al + 1));
        MulAtLeast(-t, Pow2(al + 1));
      }
    }
  }

  /** Encoder and decoder agree on the previous end of block, as far as it matters. */
  lemma SameEndOfBlock(z: Block, b: Block, ss: nat, se: nat, al: nat)
    requires 0 < ss <= se < 64 && HoldsPlane(z, b, ss, se, al + 1)
    ensures var ke := LastNonzero(Transform(b, al), se);
      var kexE, kexD := LastNonzero(Transform(b, al + 1), ke), LastNonzero(z, se);
      kexE == kexD <= ke || (kexE < ss && kexD < ss)
  {
    BehindByOne(z, b, ss, se, al);
    hide Transform;
    var y, x := Transform(b, al), Transform(b, al + 1);
    var ke := LastNonzero(y, se);
    var kexE, kexD := LastNonzero(x, ke), LastNonzero(z, se);
    hide LastNonzero;
    if kexD >= ss {
      assert z[kexD] != 0 && x[kexD] != 0 && y[kexD] != 0;
    }
    if kexE >= ss {
      assert x[kexE] != 0 && z[kexE] != 0;
    }
  }

  lemma ReadAcRefineBlock<S(!new)>(step: Step<S>, s: S, g: Config, c: nat, b: Block, ss: nat, se: nat, al: nat, z: Block)
    requires ConfigOk(g) && c < |g.comps| && 0 < ss <= se < 64 && HoldsPlane(z, b, ss, se, al + 1)
    requires forall k :: 0 <= k < 64 ==> -0x8000 <= b[k] < 0x8000
    requires Answers(step, s, AcRefineBlock(g, c, b, ss, se, al + 1, al))
    ensures ReadRefine(step, s, AcStats(g.comps[c].acTbl), ss, LastNonzero(z, se), se, al, z)
         == AcRead(Scaled(z, Transform(b, al), ss, se, al), After(step, s, AcRefineBlock(g, c, b, ss, se, al + 1, al)))
  {
    var y := Transform(b, al);
    var base, ke := AcStats(g.comps[c].acTbl), LastNonzero(y, se);
    var kexE, kexD := LastNonzero(Transform(b, al + 1), ke), LastNonzero(z, se);
    SameEndOfBlock(z, b, ss, se, al);
    BehindByOne(z, b, ss, se, al);
    TransformFits(b, al);
    hide Transform;
    if kexE < ss && kexD < ss {
      RefineBelow(base, y, ss, kexE, kexD, ke, se);
    }
    ReadRefineInverts(step, s, base, ss, kexD, ke, se, al, y, z);
  }

  lemma {:induction false} ReadAcRefineInverts<S(!new)>(step: Step<S>, s: S, g: Config, m: Image, c: nat, ss: nat, se: nat,
      al: nat, visits: seq<nat>, acc: seq<Block>)
    requires ConfigOk(g) && ImageOk(g, m) && VisitsOk(m, visits) && c < |g.comps| && 0 < ss <= se < 64
    requires |acc| == |m.blocks| && Answers(step, s, AcRefine(g, m, c, ss, se, al + 1, al, visits))
    requires forall i :: 0 <= i < |visits| ==> HoldsPlane(acc[visits[i]], m.blocks[visits[i]], ss, se, al + 1)
    ensures var r := ReadAcRefine(step, s, g, c, ss, se, al, visits, acc);
      && r.ScanRead? && r.s == After(step, s, AcRefine(g, m, c, ss, se, al + 1, al, visits))
      && Painted(acc, r.acc, AcRefined(m, ss, se, al), visits)
    decreases |visits|
  {
    hide *;
    RefineShape(g, m, visits, acc);
    if visits == [] {
      NothingRefined(step, s, g, m, c, ss, se, al, acc);
    } else {
      var p := visits[0];
      var xs := AcRefineBlock(g, c, m.blocks[p], ss, se, al + 1, al);
      var z := Scaled(acc[p], Transform(m.blocks[p], al), ss, se, al);
      RefineUnfolds(g, m, c, ss, se, al, visits);
      AnswersConcat(step, s, xs, AcRefine(g, m, c, ss, se, al + 1, al, visits[1..]));
      ReadAcRefineBlock(step, s, g, c, m.blocks[p], ss, se, al, acc[p]);
      ReadRefineUnfolds(step, s, g, c, ss, se, al, visits, acc, z, After(step, s, xs));
      OthersHold(m, visits, acc, ss, se, al + 1, z);
      ReadAcRefineInverts(step, After(step, s, xs), g, m, c, ss, se, al, visits[1..], acc[p := z]);
      RefinedIs(m, ss, se, al, p, acc[p]);
      PaintedStep(acc, ReadAcRefine(step, s, g, c, ss, se, al, visits, acc).acc, AcRefined(m, ss, se, al), m, visits);
    }
  }

  lemma RefineShape(g: Config, m: Image, visits: seq<nat>, acc: seq<Block>)
    requires ImageOk(g, m) && VisitsOk(m, visits) && |acc| == |m.blocks|
    ensures forall i :: 0 <= i < |visits| ==> visits[i] < |acc|
    ensures visits != [] ==> VisitsOk(m, visits[1..]) && forall k :: 0 <= k < 64 ==> -0x8000 <= m.blocks[visits[0]][k] < 0x8000
  {
  }

  lemma RefineUnfolds(g: Config, m: Image, c: nat, ss: nat, se: nat, al: nat, visits: seq<nat>)
    requires ConfigOk(g) && ImageOk(g, m) && VisitsOk(m, visits) && c < |g.comps| && 0 < ss <= se < 64 && visits != []
    requires VisitsOk(m, visits[1..]) && visits[0] < |m.blocks|
    ensures AcRefine(g, m, c, ss, se, al + 1, al, visits)
         == AcRefineBlock(g, c, m.blocks[visits[0]], ss, se, al + 1, al) + AcRefine(g, m, c, ss, se, al + 1, al, visits[1..])
  {
    hide AcRefineBlock;
  }

  lemma ReadRefineUnfolds<S(!new)>(step: Step<S>, s: S, g: Config, c: nat, ss: nat, se: nat, al: nat, visits: seq<nat>, acc: seq<Block>,
      z: Block, n: S)
    requires ConfigOk(g) && c < |g.comps| && 0 < ss <= se < 64 && visits != [] && forall i :: 0 <= i < |visits| ==> visits[i] < |acc|
    requires var y := acc[visits[0]];
      ReadRefine(step, s, AcStats(g.comps[c].acTbl), ss, LastNonzero(y, se), se, al, y) == AcRead(z, n)
    ensures ReadAcRefine(step, s, g, c, ss, se, al, visits, acc)
         == ReadAcRefine(step, n, g, c, ss, se, al, visits[1..], acc[visits[0] := z])
  {
    hide ReadRefine, LastNonzero;
  }

  lemma OthersHold(m: Image, visits: seq<nat>, acc: seq<Block>, ss: nat, se: nat, al: nat, z: Block)
    requires VisitsOk(m, visits) && visits != [] && |acc| == |m.blocks| && forall i :: 0 <= i < |visits| ==> visits[i] < |acc|
    requires forall i :: 0 <= i < |visits| ==> HoldsPlane(acc[visits[i]], m.blocks[visits[i]], ss, se, al)
    ensures forall i :: 0 <= i < |visits[1..]| ==>
      visits[1..][i] < |acc| && HoldsPlane(acc[visits[0] := z][visits[1..][i]], m.blocks[visits[1..][i]], ss, se, al)
  {
    hide HoldsPlane;
  }

  lemma RefinedIs(m: Image, ss: nat, se: nat, al: nat, p: nat, z: Block)
    requires p < |m.blocks|
    ensures AcRefined(m, ss, se, al)(p, z) == Scaled(z, Transform(m.blocks[p], al), ss, se, al)
  {
  }

  lemma NothingRefined<S(!new)>(step: Step<S>, s: S, g: Config, m: Image, c: nat, ss: nat, se: nat, al: nat, acc: seq<Block>)
    requires ConfigOk(g) && ImageOk(g, m) && VisitsOk(m, []) && c < |g.comps| && 0 < ss <= se < 64
    ensures AcRefine(g, m, c, ss, se, al + 1, al, []) == [] && Answers(step, s, []) && After(step, s, []) == s
    ensures ReadAcRefine(step, s, g, c, ss, se, al, [], acc) == ScanRead(acc, s) && Painted(acc, acc, AcRefined(m, ss, se, al), [])
  {
  }
}
