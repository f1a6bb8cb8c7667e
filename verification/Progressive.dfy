/** Progressive files: whatever legal script they follow, the decoder's blocks are after
    every scan the encoder's, cut at the bit planes sent so far. */
module Progressive {
  import opened Coefficients
  import opened Interval
  import opened Binarize
  import opened Refine
  import opened NaturalOrder
  import opened Scans
  import opened Script

  /** What the encoder's four progressive routines send in scan x. */
  function ScanDecisions(g: Config, m: Image, x: Scan, visits: seq<nat>): seq<Decision>
    requires ConfigOk(g) && ImageOk(g, m) && VisitsOk(m, visits)
    requires RangesLegal(x) && CompsLegal(x.comps, |g.comps|)
  {
    if x.ss == 0 then
      if x.ah == 0 then DcFirst(g, m, x.al, visits, DcStart(g)) else DcRefine(m, x.al, visits)
    else
      if x.ah == 0 then AcFirst(g, m, x.comps[0], x.ss, x.se, x.al, visits)
      else AcRefine(g, m, x.comps[0], x.ss, x.se, x.ah, x.al, visits)
  }

  /** The decoder's four progressive routines. */
  function ReadScan<S>(step: Step<S>, s: S, g: Config, comp: seq<nat>, x: Scan, visits: seq<nat>, acc: seq<Block>):
      (r: ScanRead<S>)
    requires ConfigOk(g) && |comp| == |acc| && RangesLegal(x) && CompsLegal(x.comps, |g.comps|)
    requires forall i :: 0 <= i < |visits| ==> visits[i] < |acc| && comp[visits[i]] < |g.comps|
    ensures |r.acc| == |acc|
  {
    if x.ss == 0 then
      if x.ah == 0 then ReadDcFirst(step, s, g, comp, x.al, visits, DcStart(g), acc) else ReadDcRefine(step, s, x.al, visits, acc)
    else
      if x.ah == 0 then ReadAcFirst(step, s, g, x.comps[0], x.ss, x.se, x.al, visits, acc)
      else ReadAcRefine(step, s, g, x.comps[0], x.ss, x.se, x.al, visits, acc)
  }

  /** The decoder's value of a coefficient whose last plane sent is bitpos. */
  function HeldValue(x: int, k: nat, bitpos: int): int {
    if bitpos < 0 then 0 else Approx(x, k, bitpos)
  }

  /** The tracked blocks of acc are those of m as far as the scans have sent them. */
  ghost predicate InSync(m: Image, acc: seq<Block>, scans: seq<Scan>, tracked: set<nat>) {
    && |acc| == |m.blocks| == |m.comp|
    && forall p, k :: p in tracked && p < |acc| && 0 <= k < 64 ==>
         acc[p][k] == HeldValue(m.blocks[p][k], k, BitPos(scans, m.comp[p], k))
  }

  /** A scan visits each tracked block of its components once.  An interleaved scan may visit
      other (padding) blocks as well; a scan of one component's AC band does not. */
  ghost predicate Covers(m: Image, x: Scan, visits: seq<nat>, tracked: set<nat>) {
    && VisitsOk(m, visits) && |m.comp| == |m.blocks|
    && (forall i :: 0 <= i < |visits| ==> m.comp[visits[i]] in x.comps)
    && (forall p :: p in tracked && p < |m.blocks| && m.comp[p] in x.comps ==> p in visits)
    && (x.ss != 0 ==> forall i :: 0 <= i < |visits| ==> visits[i] in tracked)
  }

  lemma BitPosAppend(scans: seq<Scan>, x: Scan, c: int, k: int)
    ensures BitPos(scans + [x], c, k) == if c in x.comps && x.ss <= k <= x.se then x.al else BitPos(scans, c, k)
  {
    assert (scans + [x])[..|scans|] == scans;
  }

  /** If every visited block gains the scan's band at plane al and nothing else changes,
      the decoder stays in sync. */
  lemma StaysInSync(m: Image, acc: seq<Block>, r: seq<Block>, scans: seq<Scan>, x: Scan, visits: seq<nat>, tracked: set<nat>)
    requires InSync(m, acc, scans, tracked) && Covers(m, x, visits, tracked) && |r| == |acc| && 0 <= x.ss && 0 <= x.al
    requires forall p, k :: p in tracked && p < |acc| && 0 <= k < 64 ==>
      r[p][k] == if p in visits && x.ss <= k <= x.se then Approx(m.blocks[p][k], k, x.al) else acc[p][k]
    ensures InSync(m, r, scans + [x], tracked)
  {
    hide Approx;
    forall p, k | p in tracked && p < |acc| && 0 <= k < 64
      ensures r[p][k] == HeldValue(m.blocks[p][k], k, BitPos(scans + [x], m.comp[p], k))
    {
      BitPosAppend(scans, x, m.comp[p], k);
      assert p in visits <==> m.comp[p] in x.comps;
    }
  }

  lemma DcFirstInSync<S(!new)>(step: Step<S>, s: S, g: Config, m: Image, scans: seq<Scan>, x: Scan, visits: seq<nat>,
      tracked: set<nat>, acc: seq<Block>)
    requires ConfigOk(g) && ImageOk(g, m) && InSync(m, acc, scans, tracked) && Covers(m, x, visits, tracked)
    requires ProgressiveScanLegal(scans, x, |g.comps|) && x.ss == 0 && x.ah == 0
    requires DcFits(g, m, x.al, visits, DcStart(g))
    requires Answers(step, s, ScanDecisions(g, m, x, visits))
    ensures var r := ReadScan(step, s, g, m.comp, x, visits, acc);
      r.ScanRead? && r.s == After(step, s, ScanDecisions(g, m, x, visits)) && InSync(m, r.acc, scans + [x], tracked)
  {
    ReadDcFirstInverts(step, s, g, m, x.al, visits, DcStart(g), DcStart(g), acc);
    var r := ReadScan(step, s, g, m.comp, x, visits, acc);
    hide Approx, ReadDcFirst, DcFirst;
    StaysInSync(m, acc, r.acc, scans, x, visits, tracked);
  }

  lemma DcRefineInSync<S(!new)>(step: Step<S>, s: S, g: Config, m: Image, scans: seq<Scan>, x: Scan, visits: seq<nat>,
      tracked: set<nat>, acc: seq<Block>)
    requires ConfigOk(g) && ImageOk(g, m) && InSync(m, acc, scans, tracked) && Covers(m, x, visits, tracked)
    requires ProgressiveScanLegal(scans, x, |g.comps|) && x.ss == 0 && x.ah != 0
    requires Answers(step, s, ScanDecisions(g, m, x, visits))
    ensures var r := ReadScan(step, s, g, m.comp, x, visits, acc);
      r.ScanRead? && r.s == After(step, s, ScanDecisions(g, m, x, visits)) && InSync(m, r.acc, scans + [x], tracked)
  {
    ReadDcRefineInverts(step, s, g, m, x.al, visits, acc);
    var r := ReadScan(step, s, g, m.comp, x, visits, acc);
    hide Approx, ReadDcRefine, DcRefine, OrBit, ToCoef;
    forall p | p in tracked && p < |acc| && p in visits
      ensures r.acc[p] == acc[p][0 := Approx(m.blocks[p][0], 0, x.al)]
    {
      assert CoefLegal(BitPos(scans, m.comp[p], 0), x);
      assert acc[p][0] == HeldValue(m.blocks[p][0], 0, BitPos(scans, m.comp[p], 0));
    }
    StaysInSync(m, acc, r.acc, scans, x, visits, tracked);
  }

  lemma FillApprox(z: Block, b: Block, ss: nat, se: nat, al: nat, k: nat)
    requires 0 < ss && k < 64 && -0x8000 <= b[k] < 0x8000
    requires ss <= k <= se ==> z[k] == 0
    ensures Fill(z, Transform(b, al), ss, se, al)[k] == if ss <= k <= se then Approx(b[k], k, al) else z[k]
  {
    TruncateSmaller(b[k], al);
    ScaleSigned(Abs(Truncate(b[k], al)), Truncate(b[k], al) < 0, al);
    assert Scale(0, al) == 0;
  }

  lemma AcFirstInSync<S(!new)>(step: Step<S>, s: S, g: Config, m: Image, scans: seq<Scan>, x: Scan, visits: seq<nat>,
      tracked: set<nat>, acc: seq<Block>)
    requires ConfigOk(g) && ImageOk(g, m) && InSync(m, acc, scans, tracked) && Covers(m, x, visits, tracked)
    requires ProgressiveScanLegal(scans, x, |g.comps|) && x.ss != 0 && x.ah == 0
    requires Answers(step, s, ScanDecisions(g, m, x, visits))
    ensures var r := ReadScan(step, s, g, m.comp, x, visits, acc);
      r.ScanRead? && r.s == After(step, s, ScanDecisions(g, m, x, visits)) && InSync(m, r.acc, scans + [x], tracked)
  {
    ReadAcFirstInverts(step, s, g, m, x.comps[0], x.ss, x.se, x.al, visits, acc);
    var r := ReadScan(step, s, g, m.comp, x, visits, acc);
    hide Approx, ReadAcFirst, AcFirst, Fill, Transform;
    forall p, k | p in tracked && p < |acc| && 0 <= k < 64 && p in visits
      ensures r.acc[p][k] == if x.ss <= k <= x.se then Approx(m.blocks[p][k], k, x.al) else acc[p][k]
    {
      if x.ss <= k <= x.se {
        assert CoefLegal(BitPos(scans, m.comp[p], k), x);
        assert acc[p][k] == HeldValue(m.blocks[p][k], k, BitPos(scans, m.comp[p], k)) == 0;
      }
      FillApprox(acc[p], m.blocks[p], x.ss, x.se, x.al, k);
    }
    StaysInSync(m, acc, r.acc, scans, x, visits, tracked);
  }

  /** Before a refinement scan the visited blocks hold the band one plane coarser. */
  lemma HeldOnePlaneCoarser(g: Config, m: Image, scans: seq<Scan>, x: Scan, visits: seq<nat>, tracked: set<nat>,
      acc: seq<Block>, p: nat)
    requires ConfigOk(g) && ImageOk(g, m) && InSync(m, acc, scans, tracked) && Covers(m, x, visits, tracked)
    requires ProgressiveScanLegal(scans, x, |g.comps|) && x.ss != 0 && x.ah != 0 && p in visits
    ensures x.ah == x.al + 1 && p < |acc| && HoldsPlane(acc[p], m.blocks[p], x.ss, x.se, x.al + 1)
  {
    var c := m.comp[p];
    assert c in x.comps && p in tracked;
    assert CoefLegal(BitPos(scans, c, x.ss), x);
    hide Approx;
    forall k | x.ss <= k <= x.se ensures acc[p][k] == Approx(m.blocks[p][k], k, x.al + 1) {
      assert CoefLegal(BitPos(scans, c, k), x);
      assert acc[p][k] == HeldValue(m.blocks[p][k], k, BitPos(scans, c, k));
    }
  }

  lemma AcRefineInSync<S(!new)>(step: Step<S>, s: S, g: Config, m: Image, scans: seq<Scan>, x: Scan, visits: seq<nat>,
      tracked: set<nat>, acc: seq<Block>)
    requires ConfigOk(g) && ImageOk(g, m) && InSync(m, acc, scans, tracked) && Covers(m, x, visits, tracked)
    requires ProgressiveScanLegal(scans, x, |g.comps|) && x.ss != 0 && x.ah != 0
    requires Answers(step, s, ScanDecisions(g, m, x, visits))
    ensures var r := ReadScan(step, s, g, m.comp, x, visits, acc);
      r.ScanRead? && r.s == After(step, s, ScanDecisions(g, m, x, visits)) && InSync(m, r.acc, scans + [x], tracked)
  {
    hide *;
    RefinementShape(g, m, scans, x, visits, tracked, acc);
    forall i | 0 <= i < |visits|
      ensures visits[i] < |acc| && HoldsPlane(acc[visits[i]], m.blocks[visits[i]], x.ss, x.se, x.al + 1)
    {
      HeldOnePlaneCoarser(g, m, scans, x, visits, tracked, acc, visits[i]);
    }
    AcRefineScanIs(step, s, g, m, x, visits, acc);
    ReadAcRefineInverts(step, s, g, m, x.comps[0], x.ss, x.se, x.al, visits, acc);
    RefinedInSync(g, m, scans, x, visits, tracked, acc, ReadScan(step, s, g, m.comp, x, visits, acc).acc);
  }

  lemma RefinementShape(g: Config, m: Image, scans: seq<Scan>, x: Scan, visits: seq<nat>, tracked: set<nat>, acc: seq<Block>)
    requires ConfigOk(g) && ImageOk(g, m) && InSync(m, acc, scans, tracked) && Covers(m, x, visits, tracked)
    requires ProgressiveScanLegal(scans, x, |g.comps|) && x.ss != 0 && x.ah != 0
    ensures x.comps != [] && 0 <= x.comps[0] < |g.comps| && 0 < x.ss <= x.se < 64 && 0 <= x.al <= 15 && x.ah == x.al + 1
    ensures |acc| == |m.blocks| == |m.comp| && VisitsOk(m, visits)
    ensures RangesLegal(x) && CompsLegal(x.comps, |g.comps|)
    ensures forall i :: 0 <= i < |visits| ==> visits[i] in visits && visits[i] < |m.blocks| && m.comp[visits[i]] < |g.comps|
  {
    assert x.comps[0] in x.comps;
    assert CoefLegal(BitPos(scans, x.comps[0], x.ss), x);
    hide InSync, BitPos;
  }

  lemma AcRefineScanIs<S(!new)>(step: Step<S>, s: S, g: Config, m: Image, x: Scan, visits: seq<nat>, acc: seq<Block>)
    requires ConfigOk(g) && ImageOk(g, m) && VisitsOk(m, visits) && RangesLegal(x) && CompsLegal(x.comps, |g.comps|)
    requires |acc| == |m.blocks| && x.ss != 0 && x.ah != 0 && x.ah == x.al + 1
    ensures ScanDecisions(g, m, x, visits) == AcRefine(g, m, x.comps[0], x.ss, x.se, x.al + 1, x.al, visits)
    ensures ReadScan(step, s, g, m.comp, x, visits, acc) == ReadAcRefine(step, s, g, x.comps[0], x.ss, x.se, x.al, visits, acc)
  {
    hide AcRefine, ReadAcRefine;
  }

  lemma RefinedInSync(g: Config, m: Image, scans: seq<Scan>, x: Scan, visits: seq<nat>, tracked: set<nat>, acc: seq<Block>, r: seq<Block>)
    requires InSync(m, acc, scans, tracked) && Covers(m, x, visits, tracked) && 0 < x.ss && 0 <= x.al && 0 <= x.se
    requires Painted(acc, r, AcRefined(m, x.ss, x.se, x.al), visits)
    ensures InSync(m, r, scans + [x], tracked)
  {
    assert |acc| == |m.blocks|;
    hide InSync, Approx, Scaled, Transform, Covers;
    forall p, k | p in tracked && p < |acc| && 0 <= k < 64
      ensures r[p][k] == if p in visits && x.ss <= k <= x.se then Approx(m.blocks[p][k], k, x.al) else acc[p][k]
    {
      ScaledApprox(acc[p], m.blocks[p], x.ss, x.se, x.al, k);
    }
    StaysInSync(m, acc, r, scans, x, visits, tracked);
  }

  lemma ScaledApprox(z: Block, b: Block, ss: nat, se: nat, al: nat, k: nat)
    requires 0 < ss && k < 64
    ensures Scaled(z, Transform(b, al), ss, se, al)[k] == if ss <= k <= se then Approx(b[k], k, al) else z[k]
  {
  }

  /** One scan of a legal script, whichever of the four kinds it is. */
  lemma ScanInSync<S(!new)>(step: Step<S>, s: S, g: Config, m: Image, scans: seq<Scan>, x: Scan, visits: seq<nat>,
      tracked: set<nat>, acc: seq<Block>)
    requires ConfigOk(g) && ImageOk(g, m) && InSync(m, acc, scans, tracked) && Covers(m, x, visits, tracked)
    requires ProgressiveScanLegal(scans, x, |g.comps|)
    requires x.ss == 0 && x.ah == 0 ==> DcFits(g, m, x.al, visits, DcStart(g))
    requires Answers(step, s, ScanDecisions(g, m, x, visits))
    ensures var r := ReadScan(step, s, g, m.comp, x, visits, acc);
      r.ScanRead? && r.s == After(step, s, ScanDecisions(g, m, x, visits)) && InSync(m, r.acc, scans + [x], tracked)
  {
    if x.ss == 0 {
      if x.ah == 0 {
        DcFirstInSync(step, s, g, m, scans, x, visits, tracked, acc);
      } else {
        DcRefineInSync(step, s, g, m, scans, x, visits, tracked, acc);
      }
    } else if x.ah == 0 {
      AcFirstInSync(step, s, g, m, scans, x, visits, tracked, acc);
    } else {
      AcRefineInSync(step, s, g, m, scans, x, visits, tracked, acc);
    }
  }
}
