/** Whole scans of the arithmetic encoder: the MCU routines of jcarith.c over the blocks they
    are handed, from fresh registers to the flushed code. */
module ArithScanEncoder {
  import opened Powers
  import opened Digits
  import opened ProbTable
  import opened Interval
  import opened ArithEncoding
  import opened ArithMachine
  import opened Binarize
  import opened Refine
  import opened NaturalOrder
  import opened Scans
  import opened Sequential
  import opened Script
  import opened Progressive
  import opened ArithFile
  import opened ArithMcuEncoder

  /** The image whose blocks are stored in natural order. */
  function Stored(blocks: seq<seq<int>>, comp: seq<nat>): Image
    requires forall i :: 0 <= i < |blocks| ==> |blocks[i]| == 64
  {
    Image(seq(|blocks|, i requires 0 <= i < |blocks| => Zig(blocks[i])), comp)
  }

  ghost predicate StoredOk(g: Config, blocks: seq<seq<int>>, comp: seq<nat>, visits: seq<nat>) {
    && ConfigOk(g) && (forall i :: 0 <= i < |blocks| ==> |blocks[i]| == 64)
    && ImageOk(g, Stored(blocks, comp)) && VisitsOk(Stored(blocks, comp), visits)
  }

  lemma StoredBlock(g: Config, blocks: seq<seq<int>>, comp: seq<nat>, visits: seq<nat>, i: nat)
    requires StoredOk(g, blocks, comp, visits) && i < |visits|
    ensures visits[i] < |blocks| == |comp| && comp[visits[i]] < |g.comps|
    ensures forall q :: 0 <= q < 64 ==> -0x8000 <= blocks[visits[i]][q] < 0x8000
    ensures Stored(blocks, comp).blocks[visits[i]][0] == blocks[visits[i]][0]
    ensures StoredOk(g, blocks, comp, visits[i..])
  {
    OrderZero();
    hide Order;
    var p := visits[i];
    forall q | 0 <= q < 64 ensures -0x8000 <= blocks[p][q] < 0x8000 {
      InverseTables(q);
      assert Stored(blocks, comp).blocks[p][Index(q)] == blocks[p][q];
    }
  }

  lemma TransformNothing(b: Block)
    ensures Transform(b, 0) == b
  {
    forall k | 0 <= k < 64 ensures Truncate(b[k], 0) == b[k] {
      assert Pow2(0) == 1;
    }
  }

  /** One block of encode_mcu. */
  method EncodeBlock(e: Encoder, g: Config, p: Predictors, c: nat, block: seq<int>)
    requires e.Valid() && e.stats.Length == NUM_BINS && ConfigOk(g) && DcStateOk(g, p.State()) && c < |g.comps|
    requires |block| == 64 && forall q :: 0 <= q < 64 ==> -0x8000 <= block[q] < 0x8000
    requires -0xFFFF <= block[0] - p.last[c] <= 0xFFFF
    modifies e, e.stats, p
    ensures e.Valid() && e.start == old(e.start)
    ensures e.trace == old(e.trace) + BlockDecisions(g, c, Zig(block), old(p.State()))
    ensures p.State() == DcNext(g, old(p.State()), c, block[0])
  {
    OrderZero();
    hide Encoder.Valid, DcDecisions, AcDecisions, Order, DcNext, Transformed, LastNonzero;
    var at := g.comps[c].acTbl;
    EncodeDc(e, g, p, c, block[0]);
    EncodeAcBand(e, AcStats(at), g.acK[at], block, 1, 63, 0);
    TransformNothing(Zig(block));
    TransformedIs(block, 0);
    Assoc(old(e.trace), DcBlock(g, c, Zig(block), old(p.State())), AcBlock(g, c, Zig(block)));
  }

  lemma TransformedIs(block: seq<int>, al: nat)
    requires |block| == 64
    ensures Transformed(block, al) == Transform(Zig(block), al)
  {
  }

  lemma SeqScanStep(g: Config, m: Image, visits: seq<nat>, d: DcState, t: seq<Decision>)
    requires ConfigOk(g) && ImageOk(g, m) && VisitsOk(m, visits) && DcStateOk(g, d) && visits != []
    ensures var b, c := m.blocks[visits[0]], m.comp[visits[0]];
      VisitsOk(m, visits[1..])
      && t + BlockDecisions(g, c, b, d) + SeqScan(g, m, visits[1..], DcNext(g, d, c, b[0])) == t + SeqScan(g, m, visits, d)
  {
    hide BlockDecisions, DcNext;
    var b, c := m.blocks[visits[0]], m.comp[visits[0]];
    Assoc(t, BlockDecisions(g, c, b, d), SeqScan(g, m, visits[1..], DcNext(g, d, c, b[0])));
  }

  /** encode_mcu on the blocks visited, MCU after MCU. */
  method EncodeVisits(e: Encoder, g: Config, p: Predictors, blocks: seq<seq<int>>, comp: seq<nat>, visits: seq<nat>)
    requires e.Valid() && e.stats.Length == NUM_BINS && StoredOk(g, blocks, comp, visits) && DcStateOk(g, p.State())
    requires Short(p.State())
    modifies e, e.stats, p
    ensures e.Valid() && e.start == old(e.start)
    ensures e.trace == old(e.trace) + SeqScan(g, Stored(blocks, comp), visits, old(p.State()))
  {
    ghost var m := Stored(blocks, comp);
    hide Encoder.Valid, BlockDecisions, DcNext, Stored;
    var i := 0;
    while i < |visits|
      invariant e.Valid() && e.start == old(e.start) && i <= |visits| && DcStateOk(g, p.State())
      invariant StoredOk(g, blocks, comp, visits[i..]) && Short(p.State())
      invariant e.trace + SeqScan(g, m, visits[i..], p.State()) == old(e.trace) + SeqScan(g, m, visits, old(p.State()))
    {
      assert visits[i..][0] == visits[i] && visits[i..][1..] == visits[i + 1..];
      StoredBlock(g, blocks, comp, visits[i..], 0);
      SeqScanStep(g, m, visits[i..], p.State(), e.trace);
      ShortNext(g, p.State(), comp[visits[i]], blocks[visits[i]][0]);
      EncodeBlock(e, g, p, comp[visits[i]], blocks[visits[i]]);
      i := i + 1;
    }
  }

  lemma DcFirstStep(g: Config, m: Image, al: nat, visits: seq<nat>, d: DcState, t: seq<Decision>)
    requires ConfigOk(g) && ImageOk(g, m) && VisitsOk(m, visits) && DcStateOk(g, d) && visits != []
    ensures var c, v := m.comp[visits[0]], Floor(m.blocks[visits[0]][0], al);
      VisitsOk(m, visits[1..])
      && t + DcDecisions(DcStats(g.comps[c].dcTbl), d.ctx[c], v - d.last[c]) + DcFirst(g, m, al, visits[1..], DcNext(g, d, c, v))
         == t + DcFirst(g, m, al, visits, d)
  {
    hide DcDecisions, DcNext, Floor;
    var c, v := m.comp[visits[0]], Floor(m.blocks[visits[0]][0], al);
    Assoc(t, DcDecisions(DcStats(g.comps[c].dcTbl), d.ctx[c], v - d.last[c]), DcFirst(g, m, al, visits[1..], DcNext(g, d, c, v)));
  }

  /** Values of 16 bits differ by less than 2^16. */
  lemma ShortNext(g: Config, d: DcState, c: nat, v: int)
    requires ConfigOk(g) && DcStateOk(g, d) && c < |g.comps| && Short(d) && -0x8000 <= v < 0x8000
    ensures c < |d.last| && -0xFFFF <= v - d.last[c] <= 0xFFFF && Short(DcNext(g, d, c, v))
  {
    hide NextDcContext;
  }

  /** The first of the blocks visited. */
  method EncodeDcFirstVisit(e: Encoder, g: Config, p: Predictors, blocks: seq<seq<int>>, comp: seq<nat>, visits: seq<nat>, al: nat)
    requires e.Valid() && e.stats.Length == NUM_BINS && StoredOk(g, blocks, comp, visits) && DcStateOk(g, p.State()) && visits != []
    requires Short(p.State())
    modifies e, e.stats, p
    ensures e.Valid() && e.start == old(e.start) && DcStateOk(g, p.State())
    ensures StoredOk(g, blocks, comp, visits[1..]) && Short(p.State())
    ensures e.trace + DcFirst(g, Stored(blocks, comp), al, visits[1..], p.State())
         == old(e.trace) + DcFirst(g, Stored(blocks, comp), al, visits, old(p.State()))
  {
    hide *;
    VisitShape(g, blocks, comp, visits, p.State());
    StateShape(p);
    ghost var m := Stored(blocks, comp);
    RestStored(g, blocks, comp, visits);
    DcFirstStep(g, m, al, visits, p.State(), e.trace);
    FloorShort(blocks[visits[0]][0], al);
    ShortNext(g, p.State(), comp[visits[0]], Floor(blocks[visits[0]][0], al));
    EncodeDc(e, g, p, comp[visits[0]], Floor(blocks[visits[0]][0], al));
  }

  lemma VisitShape(g: Config, blocks: seq<seq<int>>, comp: seq<nat>, visits: seq<nat>, d: DcState)
    requires StoredOk(g, blocks, comp, visits) && visits != [] && DcStateOk(g, d)
    ensures (forall i :: 0 <= i < |blocks| ==> |blocks[i]| == 64) && |d.last| == |d.ctx| == |g.comps|
    ensures var m := Stored(blocks, comp);
      && ConfigOk(g) && ImageOk(g, m) && VisitsOk(m, visits) && VisitsOk(m, visits[1..])
      && m.comp == comp && visits[0] < |blocks| == |comp| == |m.blocks| && comp[visits[0]] < |g.comps|
      && m.blocks[visits[0]][0] == blocks[visits[0]][0] && -0x8000 <= blocks[visits[0]][0] < 0x8000
  {
    StoredBlock(g, blocks, comp, visits, 0);
    hide ConfigOk;
  }

  lemma StateShape(p: Predictors)
    ensures p.State().last == p.last && p.State().ctx == p.ctx
  {
  }

  lemma RestStored(g: Config, blocks: seq<seq<int>>, comp: seq<nat>, visits: seq<nat>)
    requires StoredOk(g, blocks, comp, visits) && visits != []
    ensures StoredOk(g, blocks, comp, visits[1..])
  {
  }

  /** encode_mcu_DC_first on the blocks visited. */
  method EncodeDcFirstVisits(e: Encoder, g: Config, p: Predictors, blocks: seq<seq<int>>, comp: seq<nat>, visits: seq<nat>, al: nat)
    requires e.Valid() && e.stats.Length == NUM_BINS && StoredOk(g, blocks, comp, visits) && DcStateOk(g, p.State())
    requires Short(p.State())
    modifies e, e.stats, p
    ensures e.Valid() && e.start == old(e.start)
    ensures e.trace == old(e.trace) + DcFirst(g, Stored(blocks, comp), al, visits, old(p.State()))
  {
    ghost var m := Stored(blocks, comp);
    hide Encoder.Valid, Stored, Short, StoredOk;
    var i := 0;
    while i < |visits|
      invariant e.Valid() && e.start == old(e.start) && i <= |visits| && DcStateOk(g, p.State())
      invariant StoredOk(g, blocks, comp, visits[i..]) && Short(p.State())
      invariant e.trace + DcFirst(g, m, al, visits[i..], p.State()) == old(e.trace) + DcFirst(g, m, al, visits, old(p.State()))
    {
      assert visits[i..][1..] == visits[i + 1..];
      EncodeDcFirstVisit(e, g, p, blocks, comp, visits[i..], al);
      i := i + 1;
    }
  }

  lemma DcRefineStep(m: Image, al: nat, visits: seq<nat>, t: seq<Decision>)
    requires VisitsOk(m, visits) && visits != []
    ensures VisitsOk(m, visits[1..])
    ensures t + [DcBit(m.blocks[visits[0]][0], al)] + DcRefine(m, al, visits[1..]) == t + DcRefine(m, al, visits)
  {
    Assoc(t, [DcBit(m.blocks[visits[0]][0], al)], DcRefine(m, al, visits[1..]));
  }

  /** encode_mcu_DC_refine on the blocks visited. */
  method EncodeDcRefineVisits(e: Encoder, ghost g: Config, blocks: seq<seq<int>>, ghost comp: seq<nat>, visits: seq<nat>, al: nat)
    requires e.Valid() && e.stats.Length == NUM_BINS && StoredOk(g, blocks, comp, visits)
    modifies e, e.stats
    ensures e.Valid() && e.start == old(e.start)
    ensures e.trace == old(e.trace) + DcRefine(Stored(blocks, comp), al, visits)
  {
    ghost var m := Stored(blocks, comp);
    hide Encoder.Valid, Stored, Floor;
    var i := 0;
    while i < |visits|
      invariant e.Valid() && e.start == old(e.start) && i <= |visits| && StoredOk(g, blocks, comp, visits[i..])
      invariant e.trace + DcRefine(m, al, visits[i..]) == old(e.trace) + DcRefine(m, al, visits)
    {
      assert visits[i..][0] == visits[i] && visits[i..][1..] == visits[i + 1..];
      StoredBlock(g, blocks, comp, visits[i..], 0);
      DcRefineStep(m, al, visits[i..], e.trace);
      e.ArithEncode(FIXED_BIN, Floor(blocks[visits[i]][0], al) % 2 == 1);
      i := i + 1;
    }
  }

  lemma AcFirstStep(g: Config, m: Image, c: nat, ss: nat, se: nat, al: nat, visits: seq<nat>, t: seq<Decision>)
    requires ConfigOk(g) && ImageOk(g, m) && VisitsOk(m, visits) && c < |g.comps| && 0 < ss <= se < 64 && visits != []
    ensures VisitsOk(m, visits[1..])
    ensures t + AcFirstBlock(g, c, m.blocks[visits[0]], ss, se, al) + AcFirst(g, m, c, ss, se, al, visits[1..])
         == t + AcFirst(g, m, c, ss, se, al, visits)
  {
    hide AcFirstBlock;
    Assoc(t, AcFirstBlock(g, c, m.blocks[visits[0]], ss, se, al), AcFirst(g, m, c, ss, se, al, visits[1..]));
  }

  /** encode_mcu_AC_first on the blocks visited. */
  method EncodeAcFirstVisits(e: Encoder, g: Config, c: nat, blocks: seq<seq<int>>, ghost comp: seq<nat>, visits: seq<nat>,
      ss: nat, se: nat, al: nat)
    requires e.Valid() && e.stats.Length == NUM_BINS && StoredOk(g, blocks, comp, visits)
    requires c < |g.comps| && 0 < ss <= se < 64
    modifies e, e.stats
    ensures e.Valid() && e.start == old(e.start)
    ensures e.trace == old(e.trace) + AcFirst(g, Stored(blocks, comp), c, ss, se, al, visits)
  {
    ghost var m := Stored(blocks, comp);
    var tbl := g.comps[c].acTbl;
    hide Encoder.Valid, AcDecisions, Transform, Transformed, LastNonzero, Order;
    var i := 0;
    while i < |visits|
      invariant e.Valid() && e.start == old(e.start) && i <= |visits| && StoredOk(g, blocks, comp, visits[i..])
      invariant e.trace + AcFirst(g, m, c, ss, se, al, visits[i..]) == old(e.trace) + AcFirst(g, m, c, ss, se, al, visits)
    {
      assert visits[i..][0] == visits[i] && visits[i..][1..] == visits[i + 1..];
      StoredBlock(g, blocks, comp, visits[i..], 0);
      AcFirstStep(g, m, c, ss, se, al, visits[i..], e.trace);
      TransformedIs(blocks[visits[i]], al);
      EncodeAcBand(e, AcStats(tbl), g.acK[tbl], blocks[visits[i]], ss, se, al);
      i := i + 1;
    }
  }

  lemma AcRefineStep(g: Config, m: Image, c: nat, ss: nat, se: nat, ah: nat, al: nat, visits: seq<nat>, t: seq<Decision>)
    requires ConfigOk(g) && ImageOk(g, m) && VisitsOk(m, visits) && c < |g.comps| && 0 < ss <= se < 64 && visits != []
    ensures VisitsOk(m, visits[1..])
    ensures t + AcRefineBlock(g, c, m.blocks[visits[0]], ss, se, ah, al) + AcRefine(g, m, c, ss, se, ah, al, visits[1..])
         == t + AcRefine(g, m, c, ss, se, ah, al, visits)
  {
    hide AcRefineBlock;
    Assoc(t, AcRefineBlock(g, c, m.blocks[visits[0]], ss, se, ah, al), AcRefine(g, m, c, ss, se, ah, al, visits[1..]));
  }

  /** encode_mcu_AC_refine on the blocks visited. */
  method EncodeAcRefineVisits(e: Encoder, g: Config, c: nat, blocks: seq<seq<int>>, ghost comp: seq<nat>, visits: seq<nat>,
      ss: nat, se: nat, ah: nat, al: nat)
    requires e.Valid() && e.stats.Length == NUM_BINS && StoredOk(g, blocks, comp, visits)
    requires c < |g.comps| && 0 < ss <= se < 64
    modifies e, e.stats
    ensures e.Valid() && e.start == old(e.start)
    ensures e.trace == old(e.trace) + AcRefine(g, Stored(blocks, comp), c, ss, se, ah, al, visits)
  {
    ghost var m := Stored(blocks, comp);
    var tbl := g.comps[c].acTbl;
    hide Encoder.Valid, RefineDecisions, Transform, Transformed, LastNonzero, Order;
    var i := 0;
    while i < |visits|
      invariant e.Valid() && e.start == old(e.start) && i <= |visits| && StoredOk(g, blocks, comp, visits[i..])
      invariant e.trace + AcRefine(g, m, c, ss, se, ah, al, visits[i..]) == old(e.trace) + AcRefine(g, m, c, ss, se, ah, al, visits)
    {
      assert visits[i..][0] == visits[i] && visits[i..][1..] == visits[i + 1..];
      StoredBlock(g, blocks, comp, visits[i..], 0);
      AcRefineStep(g, m, c, ss, se, ah, al, visits[i..], e.trace);
      TransformedIs(blocks[visits[i]], al);
      TransformedIs(blocks[visits[i]], ah);
      EncodeAcRefine(e, AcStats(tbl), blocks[visits[i]], ss, se, ah, al);
      i := i + 1;
    }
  }

  // ----- From start_pass to finish_pass

  /** start_pass: cleared statistics, and the fixed bin on the last row. */
  method StartScan(T: Table) returns (e: Encoder)
    requires |T| >= 114
    ensures e.Valid() && e.T == T && e.stats.Length == NUM_BINS && fresh(e) && fresh(e.stats)
    ensures e.start == Fresh([], StartBins()) && e.trace == []
  {
    var stats := new nat[NUM_BINS](i => if i == FIXED_BIN then 113 else 0);
    assert stats[..] == StartBins();
    hide Encoder.Valid;
    e := new Encoder(T, stats, []);
  }

  /** finish_pass. */
  method FinishScan(e: Encoder) returns (code: seq<byte>)
    requires e.Valid() && |e.T| >= 114 && e.stats.Length == NUM_BINS && e.start == Fresh([], StartBins())
    modifies e
    ensures InRange(old(e.trace), NUM_BINS) && code == ScanCode(e.T, old(e.trace))
  {
    hide EncodeAll;
    e.FinishPass();
    code := e.out;
  }

  /** A sequential scan, from fresh registers to the code of the scan. */
  method EncodeSequentialScan(T: Table, g: Config, blocks: seq<seq<int>>, comp: seq<nat>, visits: seq<nat>)
      returns (code: seq<byte>)
    requires |T| >= 114 && StoredOk(g, blocks, comp, visits)
    ensures InRange(SeqScan(g, Stored(blocks, comp), visits, DcStart(g)), NUM_BINS)
    ensures code == ScanCode(T, SeqScan(g, Stored(blocks, comp), visits, DcStart(g)))
  {
    hide Encoder.Valid, SeqScan, ScanCode, StartBins, Fresh;
    var e := StartScan(T);
    var p := new Predictors(|g.comps|);
    assert p.State() == DcStart(g);
    EncodeVisits(e, g, p, blocks, comp, visits);
    assert e.trace == SeqScan(g, Stored(blocks, comp), visits, DcStart(g));
    code := FinishScan(e);
  }

  /** The progressive routine chosen by start_pass, on the blocks visited. */
  method EncodeProgressiveVisits(e: Encoder, g: Config, blocks: seq<seq<int>>, comp: seq<nat>, x: Scan, visits: seq<nat>)
    requires e.Valid() && e.stats.Length == NUM_BINS && StoredOk(g, blocks, comp, visits)
    requires RangesLegal(x) && CompsLegal(x.comps, |g.comps|)
    modifies e, e.stats
    ensures e.Valid() && e.start == old(e.start)
    ensures e.trace == old(e.trace) + ScanDecisions(g, Stored(blocks, comp), x, visits)
  {
    hide Encoder.Valid, Stored, DcFirst, DcRefine, AcFirst, AcRefine;
    if x.ah == 0 {
      if x.ss == 0 {
        var p := new Predictors(|g.comps|);
        assert p.State() == DcStart(g);
        EncodeDcFirstVisits(e, g, p, blocks, comp, visits, x.al);
      } else {
        EncodeAcFirstVisits(e, g, x.comps[0], blocks, comp, visits, x.ss, x.se, x.al);
      }
    } else if x.ss == 0 {
      EncodeDcRefineVisits(e, g, blocks, comp, visits, x.al);
    } else {
      EncodeAcRefineVisits(e, g, x.comps[0], blocks, comp, visits, x.ss, x.se, x.ah, x.al);
    }
  }

  /** A progressive scan, from fresh registers to the code of the scan. */
  method EncodeProgressiveScan(T: Table, g: Config, blocks: seq<seq<int>>, comp: seq<nat>, x: Scan, visits: seq<nat>)
      returns (code: seq<byte>)
    requires |T| >= 114 && StoredOk(g, blocks, comp, visits)
    requires RangesLegal(x) && CompsLegal(x.comps, |g.comps|)
    ensures InRange(ScanDecisions(g, Stored(blocks, comp), x, visits), NUM_BINS)
    ensures code == ScanCode(T, ScanDecisions(g, Stored(blocks, comp), x, visits))
  {
    hide Encoder.Valid, ScanDecisions, ScanCode, StartBins, Fresh, RangesLegal, CompsLegal;
    var e := StartScan(T);
    EncodeProgressiveVisits(e, g, blocks, comp, x, visits);
    assert e.trace == ScanDecisions(g, Stored(blocks, comp), x, visits);
    code := FinishScan(e);
  }
}
