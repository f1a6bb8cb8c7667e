/** Whole scans of the arithmetic decoder: the MCU routines of jdarith.c over the blocks of
    an image in memory. */
module ArithScanDecoder {
  import opened Coefficients
  import opened Digits
  import opened ProbTable
  import opened ArithMachine
  import opened Binarize
  import opened Refine
  import opened NaturalOrder
  import opened BlockMemory
  import opened Scans
  import opened Sequential
  import opened Script
  import opened Progressive
  import opened ArithFile
  import opened ArithMcuEncoder
  import opened ArithMcuDecoder

  /** The DC part of decode_mcu and decode_mcu_DC_first: the next prediction of component c. */
  method DecodeDc(d: Decoder, g: Config, p: Predictors, c: nat) returns (ok: bool)
    requires Ready(d) && ConfigOk(g) && DcStateOk(g, p.State()) && c < |g.comps|
    modifies d, d.stats, p
    ensures Ready(d)
    ensures var tbl := g.comps[c].dcTbl;
      var r := ReadDc(Ask, old(Now(d)), DcStats(tbl), old(p.ctx[c]), g.dcL[tbl], g.dcU[tbl]);
      && ok == r.DcRead? && r.s == Now(d)
      && p.State() == if ok then DcState(old(p.last)[c := NextLast(old(p.last[c]), r.diff)], old(p.ctx)[c := r.ctx])
                      else old(p.State())
  {
    hide Ready, Ask, Now, ReadDc;
    var tbl := g.comps[c].dcTbl;
    var diff, next;
    ok, diff, next := DecodeDcDiff(d, DcStats(tbl), p.ctx[c], g.dcL[tbl], g.dcU[tbl]);
    if ok {
      p.ctx := p.ctx[c := next];
      if diff != 0 {
        p.last := p.last[c := (p.last[c] + diff) % 0x10000];
      }
    }
  }

  /** One block of decode_mcu. */
  method DecodeBlock(d: Decoder, g: Config, p: Predictors, c: nat, block: array<int>) returns (ok: bool)
    requires Ready(d) && ConfigOk(g) && DcStateOk(g, p.State()) && c < |g.comps| && block.Length == 64
    modifies d, d.stats, p, block
    ensures Ready(d) && DcStateOk(g, p.State())
    ensures ReadBlock(Ask, old(Now(d)), g, c, old(p.State()), Zig(old(block[..])))
         == if ok then BlockRead(Zig(block[..]), p.State(), Now(d)) else BlockBad(Zig(block[..]), Now(d))
  {
    OrderZero();
    hide Ready, Ask, Now, ReadDc, ReadAc, Order, ToCoef, Zig;
    var at := g.comps[c].acTbl;
    ok := DecodeDc(d, g, p, c);
    if ok {
      Store(block, 0, ToCoef(p.last[c]));
      ok := DecodeAcBand(d, AcStats(at), g.acK[at], block, 1, 63, 0);
    }
  }

  /** How far a scan has got: what remains to be read, or the error that ended it. */
  ghost predicate SeqRemains(goal: ScanRead<LiveTap>, ok: bool, now: LiveTap, g: Config, comp: seq<nat>, visits: seq<nat>,
      d: DcState, acc: seq<Block>)
  {
    if !ok then goal == ScanBad(acc, now) else
    && ConfigOk(g) && DcStateOk(g, d) && VisitsInside(g, comp, visits, acc)
    && goal == ReadSeq(Ask, now, g, comp, visits, d, acc)
  }

  ghost predicate VisitsInside(g: Config, comp: seq<nat>, visits: seq<nat>, acc: seq<Block>) {
    |comp| == |acc| && forall i :: 0 <= i < |visits| ==> visits[i] < |acc| && comp[visits[i]] < |g.comps|
  }

  lemma SeqBegins(now: LiveTap, g: Config, comp: seq<nat>, visits: seq<nat>, d: DcState, acc: seq<Block>)
    requires ConfigOk(g) && DcStateOk(g, d) && VisitsInside(g, comp, visits, acc)
    ensures SeqRemains(ReadSeq(Ask, now, g, comp, visits, d, acc), true, now, g, comp, visits, d, acc)
  {
    hide ReadSeq;
  }

  lemma SeqEnds(goal: ScanRead<LiveTap>, ok: bool, now: LiveTap, g: Config, comp: seq<nat>, visits: seq<nat>, d: DcState, acc: seq<Block>)
    requires SeqRemains(goal, ok, now, g, comp, visits, d, acc) && (ok ==> visits == [])
    ensures goal == if ok then ScanRead(acc, now) else ScanBad(acc, now)
  {
    hide Ask, ReadBlock;
  }

  lemma SeqVisit(goal: ScanRead<LiveTap>, now: LiveTap, g: Config, comp: seq<nat>, visits: seq<nat>, d: DcState, acc: seq<Block>)
    requires SeqRemains(goal, true, now, g, comp, visits, d, acc) && visits != []
    ensures visits[0] < |acc| == |comp| && comp[visits[0]] < |g.comps|
  {
    hide ReadSeq;
  }

  lemma SeqStep(goal: ScanRead<LiveTap>, now: LiveTap, g: Config, comp: seq<nat>, visits: seq<nat>, d: DcState, acc: seq<Block>,
      ok: bool, n: LiveTap, d2: DcState, z: Block)
    requires SeqRemains(goal, true, now, g, comp, visits, d, acc)
    requires visits != [] && ConfigOk(g) && DcStateOk(g, d) && visits[0] < |acc| == |comp| && comp[visits[0]] < |g.comps|
    requires ReadBlock(Ask, now, g, comp[visits[0]], d, acc[visits[0]]) == if ok then BlockRead(z, d2, n) else BlockBad(z, n)
    ensures SeqRemains(goal, ok, n, g, comp, visits[1..], d2, acc[visits[0] := z])
  {
    hide ReadBlock, Ask;
  }

  /** decode_mcu on the blocks visited, MCU after MCU; after an error nothing more is done. */
  method DecodeVisits(d: Decoder, g: Config, p: Predictors, mem: seq<array<int>>, comp: seq<nat>, visits: seq<nat>)
      returns (ok: bool)
    requires Ready(d) && Memory(mem) && ConfigOk(g) && DcStateOk(g, p.State()) && VisitsInside(g, comp, visits, Held(mem))
    modifies d, d.stats, p, mem
    ensures Ready(d)
    ensures ReadSeq(Ask, old(Now(d)), g, comp, visits, old(p.State()), old(Held(mem)))
         == if ok then ScanRead(Held(mem), Now(d)) else ScanBad(Held(mem), Now(d))
  {
    hide Ready, Ask, Now, ReadBlock, ReadSeq, SeqRemains, Held;
    ghost var goal := ReadSeq(Ask, Now(d), g, comp, visits, p.State(), Held(mem));
    SeqBegins(Now(d), g, comp, visits, p.State(), Held(mem));
    var i := 0;
    ok := true;
    assert visits[0..] == visits;
    while i < |visits| && ok
      invariant Ready(d) && DcStateOk(g, p.State()) && i <= |visits|
      invariant SeqRemains(goal, ok, Now(d), g, comp, visits[i..], p.State(), Held(mem))
    {
      assert visits[i..][0] == visits[i] && visits[i..][1..] == visits[i + 1..];
      SeqVisit(goal, Now(d), g, comp, visits[i..], p.State(), Held(mem));
      ok := DecodeNext(goal, d, g, p, mem, comp, visits[i..]);
      i := i + 1;
    }
    SeqEnds(goal, ok, Now(d), g, comp, visits[i..], p.State(), Held(mem));
  }

  method DecodeNext(ghost goal: ScanRead<LiveTap>, d: Decoder, g: Config, p: Predictors, mem: seq<array<int>>, comp: seq<nat>,
      visits: seq<nat>) returns (ok: bool)
    requires Ready(d) && Memory(mem) && ConfigOk(g) && DcStateOk(g, p.State())
    requires visits != [] && visits[0] < |mem| == |comp| && comp[visits[0]] < |g.comps|
    requires SeqRemains(goal, true, Now(d), g, comp, visits, p.State(), Held(mem))
    modifies d, d.stats, p, mem
    ensures Ready(d) && DcStateOk(g, p.State())
    ensures SeqRemains(goal, ok, Now(d), g, comp, visits[1..], p.State(), Held(mem))
  {
    hide Ready, Ask, Now, ReadBlock, ReadSeq, SeqRemains, Zig;
    var block := mem[visits[0]];
    ghost var n, s, acc := Now(d), p.State(), Held(mem);
    assert forall i :: 0 <= i < |mem| ==> acc[i] == Zig(mem[i][..]);
    hide Held;
    ok := DecodeBlock(d, g, p, comp[visits[0]], block);
    forall i | 0 <= i < |mem| && i != visits[0] ensures Zig(mem[i][..]) == acc[i] {
      assert mem[i][..] == old(mem[i][..]);
    }
    HeldUpdate(mem, acc, visits[0]);
    SeqStep(goal, n, g, comp, visits, s, acc, ok, Now(d), p.State(), Zig(block[..]));
  }

  // ----- Progressive scans

  ghost predicate ScanLegal(g: Config, x: Scan) {
    ConfigOk(g) && RangesLegal(x) && CompsLegal(x.comps, |g.comps|)
  }

  /** One block of whichever routine start_pass chose for scan x. */
  ghost function ReadBlockOf(now: LiveTap, g: Config, x: Scan, c: nat, d: DcState, z: Block): (r: BlockRead<LiveTap>)
    requires ScanLegal(g, x) && DcStateOk(g, d) && c < |g.comps|
    ensures r.BlockRead? ==> DcStateOk(g, r.d)
  {
    if x.ss == 0 then
      if x.ah == 0 then
        var tbl := g.comps[c].dcTbl;
        match ReadDc(Ask, now, DcStats(tbl), d.ctx[c], g.dcL[tbl], g.dcU[tbl])
        case DcBad(n) => BlockBad(z, n)
        case DcRead(diff, ctx, n) =>
          var last := NextLast(d.last[c], diff);
          BlockRead(z[0 := ToCoef(Scale(last, x.al))], DcState(d.last[c := last], d.ctx[c := ctx]), n)
      else
        var (v, n) := ReadDcBit(Ask, now, x.al, z[0]);
        BlockRead(z[0 := v], d, n)
    else
      var tbl := g.comps[x.comps[0]].acTbl;
      var r := if x.ah == 0 then ReadAc(Ask, now, AcStats(tbl), g.acK[tbl], x.ss, x.se, x.al, z)
               else ReadRefine(Ask, now, AcStats(tbl), x.ss, LastNonzero(z, x.se), x.se, x.al, z);
      match r
      case AcBad(z2, n) => BlockBad(z2, n)
      case AcRead(z2, n) => BlockRead(z2, d, n)
  }

  /** The rest of scan x. */
  ghost function Rest(now: LiveTap, g: Config, comp: seq<nat>, x: Scan, visits: seq<nat>, d: DcState, acc: seq<Block>):
      (r: ScanRead<LiveTap>)
    requires ScanLegal(g, x) && DcStateOk(g, d) && VisitsInside(g, comp, visits, acc)
  {
    if x.ss == 0 then
      if x.ah == 0 then ReadDcFirst(Ask, now, g, comp, x.al, visits, d, acc) else ReadDcRefine(Ask, now, x.al, visits, acc)
    else
      if x.ah == 0 then ReadAcFirst(Ask, now, g, x.comps[0], x.ss, x.se, x.al, visits, acc)
      else ReadAcRefine(Ask, now, g, x.comps[0], x.ss, x.se, x.al, visits, acc)
  }

  lemma RestStep(now: LiveTap, g: Config, comp: seq<nat>, x: Scan, visits: seq<nat>, d: DcState, acc: seq<Block>)
    requires ScanLegal(g, x) && DcStateOk(g, d) && VisitsInside(g, comp, visits, acc)
    ensures visits == [] ==> Rest(now, g, comp, x, visits, d, acc) == ScanRead(acc, now)
    ensures visits != [] ==>
      Rest(now, g, comp, x, visits, d, acc)
      == match ReadBlockOf(now, g, x, comp[visits[0]], d, acc[visits[0]])
         case BlockBad(z, n) => ScanBad(acc[visits[0] := z], n)
         case BlockRead(z, d2, n) => Rest(n, g, comp, x, visits[1..], d2, acc[visits[0] := z])
  {
    hide Ask, ReadDc, ReadDcBit, ReadAc, ReadRefine, NextLast, ToCoef, Scale, LastNonzero;
    if visits != [] {
      assert acc[visits[0] := acc[visits[0]]] == acc;
    }
  }

  ghost predicate ScanRemains(goal: ScanRead<LiveTap>, ok: bool, now: LiveTap, g: Config, comp: seq<nat>, x: Scan,
      visits: seq<nat>, d: DcState, acc: seq<Block>)
  {
    if !ok then goal == ScanBad(acc, now) else
    && ScanLegal(g, x) && DcStateOk(g, d) && VisitsInside(g, comp, visits, acc)
    && goal == Rest(now, g, comp, x, visits, d, acc)
  }

  lemma ScanBegins(now: LiveTap, g: Config, comp: seq<nat>, x: Scan, visits: seq<nat>, acc: seq<Block>)
    requires ScanLegal(g, x) && VisitsInside(g, comp, visits, acc)
    ensures ScanRemains(ReadScan(Ask, now, g, comp, x, visits, acc), true, now, g, comp, x, visits, DcStart(g), acc)
  {
    hide ReadDcFirst, ReadDcRefine, ReadAcFirst, ReadAcRefine;
  }

  lemma ScanEnds(goal: ScanRead<LiveTap>, ok: bool, now: LiveTap, g: Config, comp: seq<nat>, x: Scan, visits: seq<nat>,
      d: DcState, acc: seq<Block>)
    requires ScanRemains(goal, ok, now, g, comp, x, visits, d, acc) && (ok ==> visits == [])
    ensures goal == if ok then ScanRead(acc, now) else ScanBad(acc, now)
  {
    if ok {
      RestStep(now, g, comp, x, visits, d, acc);
    }
    hide Rest;
  }

  lemma ScanVisit(goal: ScanRead<LiveTap>, now: LiveTap, g: Config, comp: seq<nat>, x: Scan, visits: seq<nat>, d: DcState,
      acc: seq<Block>)
    requires ScanRemains(goal, true, now, g, comp, x, visits, d, acc) && visits != []
    ensures visits[0] < |acc| == |comp| && comp[visits[0]] < |g.comps|
  {
    hide Rest;
  }

  lemma ScanStep(goal: ScanRead<LiveTap>, now: LiveTap, g: Config, comp: seq<nat>, x: Scan, visits: seq<nat>, d: DcState,
      acc: seq<Block>, ok: bool, n: LiveTap, d2: DcState, z: Block)
    requires ScanRemains(goal, true, now, g, comp, x, visits, d, acc)
    requires visits != [] && ScanLegal(g, x) && DcStateOk(g, d)
    requires visits[0] < |acc| == |comp| && comp[visits[0]] < |g.comps|
    requires ReadBlockOf(now, g, x, comp[visits[0]], d, acc[visits[0]]) == if ok then BlockRead(z, d2, n) else BlockBad(z, n)
    ensures ScanRemains(goal, ok, n, g, comp, x, visits[1..], d2, acc[visits[0] := z])
  {
    RestStep(now, g, comp, x, visits, d, acc);
    hide ReadBlockOf, Rest, ScanLegal;
  }

  /** decode_mcu_DC_first, decode_mcu_DC_refine and the AC routines, on one block. */
  method DecodeBlockOf(d: Decoder, g: Config, x: Scan, p: Predictors, c: nat, block: array<int>) returns (ok: bool)
    requires Ready(d) && ScanLegal(g, x) && DcStateOk(g, p.State()) && c < |g.comps| && block.Length == 64
    modifies d, d.stats, p, block
    ensures Ready(d) && DcStateOk(g, p.State())
    ensures ReadBlockOf(old(Now(d)), g, x, c, old(p.State()), Zig(old(block[..])))
         == if ok then BlockRead(Zig(block[..]), p.State(), Now(d)) else BlockBad(Zig(block[..]), Now(d))
  {
    OrderZero();
    hide Ready, Ask, Now, ReadDc, ReadAc, ReadRefine, LastNonzero, Order, ToCoef, Scale, OrBit, Zig;
    if x.ss == 0 {
      if x.ah == 0 {
        ok := DecodeDc(d, g, p, c);
        if ok {
          Store(block, 0, ToCoef(Scale(p.last[c], x.al)));
        }
      } else {
        ok := true;
        DecodeDcBit(d, x.al, block);
      }
    } else {
      var tbl := g.comps[x.comps[0]].acTbl;
      if x.ah == 0 {
        ok := DecodeAcBand(d, AcStats(tbl), g.acK[tbl], block, x.ss, x.se, x.al);
      } else {
        ok := DecodeAcRefine(d, AcStats(tbl), block, x.ss, x.se, x.al);
      }
    }
  }

  /** decode_mcu_DC_refine on one block. */
  method DecodeDcBit(d: Decoder, al: nat, block: array<int>)
    requires Ready(d) && block.Length == 64
    modifies d, d.stats, block
    ensures Ready(d)
    ensures var z := Zig(old(block[..]));
      (Zig(block[..]), Now(d)) == (z[0 := ReadDcBit(Ask, old(Now(d)), al, z[0]).0], ReadDcBit(Ask, old(Now(d)), al, z[0]).1)
  {
    OrderZero();
    hide Ready, Ask, Now, Order, ToCoef, OrBit;
    ghost var z := Zig(block[..]);
    var bit := AskBin(d, FIXED_BIN);
    if bit {
      Store(block, 0, ToCoef(OrBit(block[0], al)));
    }
    assert z[0 := z[0]] == z;
  }

  method DecodeNextOf(ghost goal: ScanRead<LiveTap>, d: Decoder, g: Config, x: Scan, p: Predictors, mem: seq<array<int>>,
      comp: seq<nat>, visits: seq<nat>) returns (ok: bool)
    requires Ready(d) && Memory(mem) && ScanLegal(g, x) && DcStateOk(g, p.State())
    requires visits != [] && visits[0] < |mem| == |comp| && comp[visits[0]] < |g.comps|
    requires ScanRemains(goal, true, Now(d), g, comp, x, visits, p.State(), Held(mem))
    modifies d, d.stats, p, mem
    ensures Ready(d) && DcStateOk(g, p.State())
    ensures ScanRemains(goal, ok, Now(d), g, comp, x, visits[1..], p.State(), Held(mem))
  {
    hide Ready, Ask, Now, ReadBlockOf, ScanLegal, ScanRemains, Zig;
    var block := mem[visits[0]];
    ghost var n, s, acc := Now(d), p.State(), Held(mem);
    assert forall i :: 0 <= i < |mem| ==> acc[i] == Zig(mem[i][..]);
    hide Held;
    ok := DecodeBlockOf(d, g, x, p, comp[visits[0]], block);
    forall i | 0 <= i < |mem| && i != visits[0] ensures Zig(mem[i][..]) == acc[i] {
      assert mem[i][..] == old(mem[i][..]);
    }
    HeldUpdate(mem, acc, visits[0]);
    ScanStep(goal, n, g, comp, x, visits, s, acc, ok, Now(d), p.State(), Zig(block[..]));
  }

  /** The progressive routine of scan x on the blocks visited; after an error nothing more is done. */
  method DecodeProgressiveVisits(d: Decoder, g: Config, x: Scan, mem: seq<array<int>>, comp: seq<nat>, visits: seq<nat>)
      returns (ok: bool)
    requires Ready(d) && Memory(mem) && ScanLegal(g, x) && VisitsInside(g, comp, visits, Held(mem))
    modifies d, d.stats, mem
    ensures Ready(d)
    ensures ReadScan(Ask, old(Now(d)), g, comp, x, visits, old(Held(mem)))
         == if ok then ScanRead(Held(mem), Now(d)) else ScanBad(Held(mem), Now(d))
  {
    hide Ready, Ask, Now, ReadScan, ScanRemains, Held, RangesLegal, CompsLegal;
    ghost var goal := ReadScan(Ask, Now(d), g, comp, x, visits, Held(mem));
    ScanBegins(Now(d), g, comp, x, visits, Held(mem));
    var p := new Predictors(|g.comps|);
    assert p.State() == DcStart(g);
    var i := 0;
    ok := true;
    assert visits[0..] == visits;
    while i < |visits| && ok
      invariant Ready(d) && DcStateOk(g, p.State()) && i <= |visits|
      invariant ScanRemains(goal, ok, Now(d), g, comp, x, visits[i..], p.State(), Held(mem))
    {
      assert visits[i..][0] == visits[i] && visits[i..][1..] == visits[i + 1..];
      ScanVisit(goal, Now(d), g, comp, x, visits[i..], p.State(), Held(mem));
      ok := DecodeNextOf(goal, d, g, x, p, mem, comp, visits[i..]);
      i := i + 1;
    }
    ScanEnds(goal, ok, Now(d), g, comp, x, visits[i..], p.State(), Held(mem));
  }

  // ----- From start_pass on

  /** start_pass: cleared statistics, and the fixed bin on the last row. */
  method OpenScan(T: Table, src: seq<byte>) returns (d: Decoder)
    requires |T| >= 114
    ensures Ready(d) && Now(d) == ScanTap(T, src) && fresh(d) && fresh(d.stats)
  {
    var stats := new nat[NUM_BINS](i => if i == FIXED_BIN then 113 else 0);
    assert stats[..] == StartBins();
    d := new Decoder(T, stats, src);
  }

  /** A sequential scan read from src into memory. */
  method DecodeSequentialScan(T: Table, src: seq<byte>, g: Config, mem: seq<array<int>>, comp: seq<nat>, visits: seq<nat>)
      returns (ok: bool)
    requires |T| >= 114 && Memory(mem) && ConfigOk(g) && VisitsInside(g, comp, visits, Held(mem))
    modifies mem
    ensures var r := ReadSeq(Ask, ScanTap(T, src), g, comp, visits, DcStart(g), old(Held(mem)));
      ok == r.ScanRead? && Held(mem) == r.acc
  {
    hide Ready, Ask, Now, ReadSeq, Held, ScanTap;
    var d := OpenScan(T, src);
    var p := new Predictors(|g.comps|);
    assert p.State() == DcStart(g);
    ok := DecodeVisits(d, g, p, mem, comp, visits);
  }

  /** A progressive scan read from src into memory. */
  method DecodeProgressiveScan(T: Table, src: seq<byte>, g: Config, x: Scan, mem: seq<array<int>>, comp: seq<nat>,
      visits: seq<nat>) returns (ok: bool)
    requires |T| >= 114 && Memory(mem) && ScanLegal(g, x) && VisitsInside(g, comp, visits, Held(mem))
    modifies mem
    ensures var r := ReadScan(Ask, ScanTap(T, src), g, comp, x, visits, old(Held(mem)));
      ok == r.ScanRead? && Held(mem) == r.acc
  {
    hide Ready, Ask, Now, ReadScan, Held, ScanTap;
    var d := OpenScan(T, src);
    ok := DecodeProgressiveVisits(d, g, x, mem, comp, visits);
  }
}
