/** Arithmetic-coded data from coefficients to bytes and back: the two layers joined. */
module ArithFile {
  import opened Powers
  import opened Digits
  import opened ProbTable
  import opened Interval
  import opened ArithEncoding
  import opened ArithDecoding
  import opened Binarize
  import opened Refine
  import opened NaturalOrder
  import opened Scans
  import opened Sequential
  import opened Script
  import opened Progressive

  // ----- The arithmetic decoder as a source of answers

  datatype Tap = Tap(T: Table, dec: Dec)

  ghost predicate TapOk(t: Tap) {
    DecOk(t.T, t.dec) && |t.dec.bins| == NUM_BINS
  }

  type LiveTap = t: Tap | TapOk(t)
    ghost witness Tap([Entry(1, 0, 0)], Opened([], seq(NUM_BINS, _ => 0)))

  function Ask(t: LiveTap, bin: Bin): (bool, LiveTap) {
    var (bit, n) := DecodeOne(t.T, t.dec, bin);
    (bit, Tap(t.T, n))
  }

  lemma {:induction false} FollowsAnswers(t: LiveTap, ds: seq<Decision>)
    requires InRange(ds, NUM_BINS) && Follows(t.T, t.dec, ds)
    ensures Answers(Ask, t, ds)
    ensures After(Ask, t, ds) == Tap(t.T, DecodeAll(t.T, t.dec, ds))
    decreases |ds|
  {
    if ds != [] {
      hide DecodeOne;
      FollowsAnswers(Ask(t, ds[0].bin).1, ds[1..]);
    }
  }

  // ----- One scan

  /** start_pass clears the statistics; the fixed bin always points at the last row. */
  function StartBins(): (r: seq<nat>)
    ensures |r| == NUM_BINS
  {
    seq(NUM_BINS, i => if i == FIXED_BIN then 113 else 0)
  }

  /** The code bytes of a scan whose decisions are ds. */
  function ScanCode(T: Table, ds: seq<Decision>): seq<byte>
    requires |T| >= 114 && InRange(ds, NUM_BINS)
  {
    FinishPass(EncodeAll(T, Fresh([], StartBins()), ds)).out
  }

  /** Decoding starts at the code; the data of the scan ends at the next marker. */
  function ScanTap(T: Table, src: seq<byte>): LiveTap
    requires |T| >= 114
  {
    Tap(T, Opened(src, StartBins()))
  }

  lemma ScanCodeAnswers(T: Table, ds: seq<Decision>, tail: seq<byte>)
    requires |T| >= 114 && InRange(ds, NUM_BINS) && MarkerFirst(tail)
    ensures Answers(Ask, ScanTap(T, ScanCode(T, ds) + tail), ds)
    ensures After(Ask, ScanTap(T, ScanCode(T, ds) + tail), ds).dec.bins == EncodeAll(T, Fresh([], StartBins()), ds).bins
  {
    var code := DecodeInvertsEncode(T, [], StartBins(), ds, tail);
    assert code == ScanCode(T, ds) && ds[..|ds|] == ds;
    hide EncodeAll, FinishPass, DecodeAll, Follows;
    FollowsAnswers(ScanTap(T, code + tail), ds);
  }

  // ----- Every decision falls in the statistics area

  ghost predicate Short(d: DcState) {
    forall c :: 0 <= c < |d.last| ==> -0x8000 <= d.last[c] < 0x8000
  }

  lemma AnyBlockInRange(g: Config, c: nat, b: Block, d: DcState)
    requires ConfigOk(g) && DcStateOk(g, d) && c < |g.comps| && Short(d)
    requires forall k :: 0 <= k < 64 ==> -0x8000 <= b[k] < 0x8000
    ensures InRange(BlockDecisions(g, c, b, d), NUM_BINS)
  {
    var at := g.comps[c].acTbl;
    hide DcDecisions, AcDecisions;
    DcBinsWithin50(DcStats(g.comps[c].dcTbl), d.ctx[c], b[0] - d.last[c]);
    AcBinsWithin245(AcStats(at), g.acK[at], b, 1, LastNonzero(b, 63), 63);
  }

  lemma BlockInRange(g: Config, c: nat, b: Block, d: DcState)
    requires ConfigOk(g) && DcStateOk(g, d) && c < |g.comps| && -0x8000 <= b[0] - d.last[c] <= 0x8000
    requires forall k :: 0 <= k < 64 ==> -0x8000 <= b[k] < 0x8000
    ensures InRange(BlockDecisions(g, c, b, d), NUM_BINS)
  {
    var at := g.comps[c].acTbl;
    hide DcDecisions, AcDecisions;
    DcBinsWithin49(DcStats(g.comps[c].dcTbl), d.ctx[c], b[0] - d.last[c]);
    AcBinsWithin245(AcStats(at), g.acK[at], b, 1, LastNonzero(b, 63), 63);
  }

  lemma {:induction false} SeqScanInRange(g: Config, m: Image, visits: seq<nat>, d: DcState)
    requires ConfigOk(g) && ImageOk(g, m) && VisitsOk(m, visits) && DcStateOk(g, d) && SeqFits(g, m, visits, d)
    ensures InRange(SeqScan(g, m, visits, d), NUM_BINS)
    decreases |visits|
  {
    if visits != [] {
      var b, c := m.blocks[visits[0]], m.comp[visits[0]];
      BlockInRange(g, c, b, d);
      SeqScanInRange(g, m, visits[1..], DcNext(g, d, c, b[0]));
    }
  }

  /** Whatever the differences of 16-bit values are. */
  lemma {:induction false} DcFirstInRange(g: Config, m: Image, al: nat, visits: seq<nat>, d: DcState)
    requires ConfigOk(g) && ImageOk(g, m) && VisitsOk(m, visits) && DcStateOk(g, d) && Short(d)
    ensures InRange(DcFirst(g, m, al, visits, d), NUM_BINS)
    decreases |visits|
  {
    if visits != [] {
      var c := m.comp[visits[0]];
      var v := Floor(m.blocks[visits[0]][0], al);
      FloorShort(m.blocks[visits[0]][0], al);
      hide Floor, NextDcContext, DcDecisions;
      DcBinsWithin50(DcStats(g.comps[c].dcTbl), d.ctx[c], v - d.last[c]);
      DcFirstInRange(g, m, al, visits[1..], DcNext(g, d, c, v));
    }
  }

  lemma {:induction false} FloorShort(x: int, al: nat)
    requires -0x8000 <= x < 0x8000
    ensures -0x8000 <= Floor(x, al) < 0x8000
  {
    if al == 0 {
      assert x / 1 == x;
    } else {
      FloorShort(x, al - 1);
      FloorFiner(x, al - 1);
    }
  }

  lemma {:induction false} DcRefineInRange(m: Image, al: nat, visits: seq<nat>)
    requires VisitsOk(m, visits)
    ensures InRange(DcRefine(m, al, visits), NUM_BINS)
  {
    if visits != [] {
      DcRefineInRange(m, al, visits[1..]);
    }
  }

  lemma {:induction false} AcFirstInRange(g: Config, m: Image, c: nat, ss: nat, se: nat, al: nat, visits: seq<nat>)
    requires ConfigOk(g) && ImageOk(g, m) && VisitsOk(m, visits) && c < |g.comps| && 0 < ss <= se < 64
    ensures InRange(AcFirst(g, m, c, ss, se, al, visits), NUM_BINS)
  {
    if visits != [] {
      var tbl := g.comps[c].acTbl;
      var y := Transform(m.blocks[visits[0]], al);
      TransformFits(m.blocks[visits[0]], al);
      AcBinsWithin245(AcStats(tbl), g.acK[tbl], y, ss, LastNonzero(y, se), se);
      AcFirstInRange(g, m, c, ss, se, al, visits[1..]);
    }
  }

  lemma {:induction false} RefineInRange(base: nat, y: seq<int>, k: nat, kex: nat, ke: nat, se: nat)
    requires 0 < k && ke <= se < |y| <= 64 && (ke > 0 ==> y[ke] != 0) && base + 245 <= NUM_BINS
    ensures InRange(RefineDecisions(base, y, k, kex, ke, se), NUM_BINS)
    decreases if k <= ke then ke + 1 - k else 0, 1
  {
    if k <= ke {
      RefineRunInRange(base, y, k, kex, ke, se);
    }
  }

  lemma {:induction false} RefineRunInRange(base: nat, y: seq<int>, k: nat, kex: nat, ke: nat, se: nat)
    requires 0 < k <= ke <= se < |y| <= 64 && y[ke] != 0 && base + 245 <= NUM_BINS
    ensures InRange(RefineRun(base, y, k, kex, ke, se), NUM_BINS)
    decreases ke + 1 - k, 0
  {
    if y[k] != 0 {
      RefineInRange(base, y, k + 1, kex, ke, se);
    } else {
      RefineRunInRange(base, y, k + 1, kex, ke, se);
    }
  }

  lemma {:induction false} AcRefineInRange(g: Config, m: Image, c: nat, ss: nat, se: nat, ah: nat, al: nat, visits: seq<nat>)
    requires ConfigOk(g) && ImageOk(g, m) && VisitsOk(m, visits) && c < |g.comps| && 0 < ss <= se < 64
    ensures InRange(AcRefine(g, m, c, ss, se, ah, al, visits), NUM_BINS)
  {
    if visits != [] {
      var y := Transform(m.blocks[visits[0]], al);
      var ke := LastNonzero(y, se);
      RefineInRange(AcStats(g.comps[c].acTbl), y, ss, LastNonzero(Transform(m.blocks[visits[0]], ah), ke), ke, se);
      AcRefineInRange(g, m, c, ss, se, ah, al, visits[1..]);
    }
  }

  lemma ScanInRange(g: Config, m: Image, x: Scan, visits: seq<nat>)
    requires ConfigOk(g) && ImageOk(g, m) && VisitsOk(m, visits)
    requires RangesLegal(x) && CompsLegal(x.comps, |g.comps|)
    ensures InRange(ScanDecisions(g, m, x, visits), NUM_BINS)
  {
    if x.ss == 0 {
      if x.ah == 0 {
        DcFirstInRange(g, m, x.al, visits, DcStart(g));
      } else {
        DcRefineInRange(m, x.al, visits);
      }
    } else if x.ah == 0 {
      AcFirstInRange(g, m, x.comps[0], x.ss, x.se, x.al, visits);
    } else {
      AcRefineInRange(g, m, x.comps[0], x.ss, x.se, x.ah, x.al, visits);
    }
  }

  // ----- Round trips

  lemma ReadSeqFromTap(t: LiveTap, g: Config, m: Image, visits: seq<nat>, acc: seq<Block>)
    requires ConfigOk(g) && ImageOk(g, m) && VisitsOk(m, visits) && |acc| == |m.blocks|
    requires SeqFits(g, m, visits, DcStart(g)) && Zeroed(acc, visits)
    requires Answers(Ask, t, SeqScan(g, m, visits, DcStart(g)))
    ensures var r := ReadSeq(Ask, t, g, m.comp, visits, DcStart(g), acc);
      r.ScanRead? && Painted(acc, r.acc, Original(m), visits)
  {
    ReadSeqInverts(Ask, t, g, m, visits, DcStart(g), DcStart(g), acc);
  }

  /** A sequential scan written by encode_mcu and finish_pass is read back by decode_mcu. */
  lemma SequentialRoundTrip(T: Table, g: Config, m: Image, visits: seq<nat>, acc: seq<Block>, tail: seq<byte>)
    requires |T| >= 114 && ConfigOk(g) && ImageOk(g, m) && VisitsOk(m, visits) && |acc| == |m.blocks|
    requires SeqFits(g, m, visits, DcStart(g)) && Zeroed(acc, visits) && MarkerFirst(tail)
    ensures InRange(SeqScan(g, m, visits, DcStart(g)), NUM_BINS)
    ensures var code := ScanCode(T, SeqScan(g, m, visits, DcStart(g)));
      var r := ReadSeq(Ask, ScanTap(T, code + tail), g, m.comp, visits, DcStart(g), acc);
      && r.ScanRead?
      && forall p :: 0 <= p < |acc| ==> r.acc[p] == if p in visits then m.blocks[p] else acc[p]
  {
    var ds := SeqScan(g, m, visits, DcStart(g));
    SeqScanInRange(g, m, visits, DcStart(g));
    hide SeqScan, ReadSeq, SeqFits, EncodeAll, ScanCode, DcStart;
    ScanCodeAnswers(T, ds, tail);
    hide Answers, After, ScanTap;
    ReadSeqFromTap(ScanTap(T, ScanCode(T, ds) + tail), g, m, visits, acc);
  }

  /** A file that follows a legal script. */
  ghost predicate FileLegal(g: Config, m: Image, scans: seq<Scan>, visits: seq<seq<nat>>, tails: seq<seq<byte>>, tracked: set<nat>) {
    && ConfigOk(g) && ImageOk(g, m) && |visits| == |tails| == |scans|
    && ProgressivePrefixLegal(scans, |scans|, |g.comps|)
    && forall i :: 0 <= i < |scans| ==> Covers(m, scans[i], visits[i], tracked) && MarkerFirst(tails[i])
  }

  /** The conditions under which the scans of a file are written and read. */
  ghost predicate FileOk(g: Config, m: Image, scans: seq<Scan>, visits: seq<seq<nat>>, tails: seq<seq<byte>>, tracked: set<nat>) {
    && FileLegal(g, m, scans, visits, tails, tracked)
    && forall i :: 0 <= i < |scans| ==>
         scans[i].ss == 0 && scans[i].ah == 0 ==> scans[i].al >= 0 && DcFits(g, m, scans[i].al, visits[i], DcStart(g))
  }

  lemma ScanOk(g: Config, m: Image, scans: seq<Scan>, visits: seq<seq<nat>>, tails: seq<seq<byte>>, tracked: set<nat>, i: nat)
    requires FileLegal(g, m, scans, visits, tails, tracked) && i < |scans|
    ensures ProgressiveScanLegal(scans[..i], scans[i], |g.comps|) && VisitsOk(m, visits[i])
    ensures InRange(ScanDecisions(g, m, scans[i], visits[i]), NUM_BINS)
    ensures Covers(m, scans[i], visits[i], tracked) && MarkerFirst(tails[i])
  {
    assert ProgressiveScanLegal(scans[..i], scans[i], |g.comps|);
    ScanInRange(g, m, scans[i], visits[i]);
  }

  /** Reading the n-th scan of the file over acc. */
  ghost function ReadNth(T: Table, g: Config, m: Image, scans: seq<Scan>, visits: seq<seq<nat>>, tails: seq<seq<byte>>,
      tracked: set<nat>, n: nat, acc: seq<Block>): (r: ScanRead<LiveTap>)
    requires |T| >= 114 && FileLegal(g, m, scans, visits, tails, tracked) && n < |scans| && |acc| == |m.blocks|
    ensures |r.acc| == |acc|
  {
    ScanOk(g, m, scans, visits, tails, tracked, n);
    var code := ScanCode(T, ScanDecisions(g, m, scans[n], visits[n]));
    ReadScan(Ask, ScanTap(T, code + tails[n]), g, m.comp, scans[n], visits[n], acc)
  }

  /** The decoder's blocks after the first n scans of the file, starting from zeroed memory,
      and whether no scan ended in an error. */
  ghost function Decoded(T: Table, g: Config, m: Image, scans: seq<Scan>, visits: seq<seq<nat>>, tails: seq<seq<byte>>,
      tracked: set<nat>, n: nat): (r: (seq<Block>, bool))
    requires |T| >= 114 && FileLegal(g, m, scans, visits, tails, tracked) && n <= |scans|
    ensures |r.0| == |m.blocks|
  {
    if n == 0 then (seq(|m.blocks|, _ => seq(64, _ => 0)), true) else
    var (acc, clean) := Decoded(T, g, m, scans, visits, tails, tracked, n - 1);
    var r := ReadNth(T, g, m, scans, visits, tails, tracked, n - 1, acc);
    (r.acc, clean && r.ScanRead?)
  }

  lemma ReadScanFromTap(t: LiveTap, g: Config, m: Image, scans: seq<Scan>, x: Scan, visits: seq<nat>,
      tracked: set<nat>, acc: seq<Block>)
    requires ConfigOk(g) && ImageOk(g, m) && InSync(m, acc, scans, tracked) && Covers(m, x, visits, tracked)
    requires ProgressiveScanLegal(scans, x, |g.comps|)
    requires x.ss == 0 && x.ah == 0 ==> DcFits(g, m, x.al, visits, DcStart(g))
    requires Answers(Ask, t, ScanDecisions(g, m, x, visits))
    ensures var r := ReadScan(Ask, t, g, m.comp, x, visits, acc);
      r.ScanRead? && InSync(m, r.acc, scans + [x], tracked)
  {
    ScanInSync(Ask, t, g, m, scans, x, visits, tracked, acc);
  }

  /** Where the n-th scan is read from. */
  ghost function NthTap(T: Table, g: Config, m: Image, scans: seq<Scan>, visits: seq<seq<nat>>, tails: seq<seq<byte>>,
      tracked: set<nat>, n: nat): LiveTap
    requires |T| >= 114 && FileLegal(g, m, scans, visits, tails, tracked) && n < |scans|
  {
    ScanOk(g, m, scans, visits, tails, tracked, n);
    ScanTap(T, ScanCode(T, ScanDecisions(g, m, scans[n], visits[n])) + tails[n])
  }

  lemma NthTapAnswers(T: Table, g: Config, m: Image, scans: seq<Scan>, visits: seq<seq<nat>>, tails: seq<seq<byte>>,
      tracked: set<nat>, n: nat)
    requires |T| >= 114 && FileLegal(g, m, scans, visits, tails, tracked) && n < |scans|
    ensures VisitsOk(m, visits[n]) && RangesLegal(scans[n]) && CompsLegal(scans[n].comps, |g.comps|)
    ensures Answers(Ask, NthTap(T, g, m, scans, visits, tails, tracked, n), ScanDecisions(g, m, scans[n], visits[n]))
  {
    ScanOk(g, m, scans, visits, tails, tracked, n);
    hide ScanDecisions, EncodeAll, ScanCode, Covers, DcFits, ScanTap, Answers, FileLegal;
    ScanCodeAnswers(T, ScanDecisions(g, m, scans[n], visits[n]), tails[n]);
  }

  lemma NthReads(T: Table, g: Config, m: Image, scans: seq<Scan>, visits: seq<seq<nat>>, tails: seq<seq<byte>>,
      tracked: set<nat>, n: nat, acc: seq<Block>)
    requires |T| >= 114 && FileLegal(g, m, scans, visits, tails, tracked) && n < |scans| && |acc| == |m.blocks|
    ensures VisitsOk(m, visits[n]) && RangesLegal(scans[n]) && CompsLegal(scans[n].comps, |g.comps|)
    ensures ReadNth(T, g, m, scans, visits, tails, tracked, n, acc)
         == ReadScan(Ask, NthTap(T, g, m, scans, visits, tails, tracked, n), g, m.comp, scans[n], visits[n], acc)
  {
    hide ScanDecisions, ReadScan, ScanCode, ScanTap, FileLegal, Covers, DcFits;
    ScanOk(g, m, scans, visits, tails, tracked, n);
  }

  lemma FileShape(g: Config, m: Image, scans: seq<Scan>, visits: seq<seq<nat>>, tails: seq<seq<byte>>, tracked: set<nat>)
    requires FileLegal(g, m, scans, visits, tails, tracked)
    ensures ConfigOk(g) && ImageOk(g, m) && |visits| == |tails| == |scans|
  {
  }

  lemma FileIsLegal(g: Config, m: Image, scans: seq<Scan>, visits: seq<seq<nat>>, tails: seq<seq<byte>>, tracked: set<nat>, n: nat)
    requires FileOk(g, m, scans, visits, tails, tracked) && n < |scans|
    ensures FileLegal(g, m, scans, visits, tails, tracked) && |visits| == |scans| && VisitsOk(m, visits[n])
    ensures ConfigOk(g) && ImageOk(g, m)
    ensures scans[n].ss == 0 && scans[n].ah == 0 ==> scans[n].al >= 0 && DcFits(g, m, scans[n].al, visits[n], DcStart(g))
  {
    hide ProgressivePrefixLegal, DcFits;
  }

  lemma ReadNthInSync(T: Table, g: Config, m: Image, scans: seq<Scan>, visits: seq<seq<nat>>, tails: seq<seq<byte>>,
      tracked: set<nat>, n: nat, acc: seq<Block>)
    requires |T| >= 114 && FileOk(g, m, scans, visits, tails, tracked) && n < |scans| && |acc| == |m.blocks|
    requires InSync(m, acc, scans[..n], tracked)
    ensures FileLegal(g, m, scans, visits, tails, tracked)
    ensures var r := ReadNth(T, g, m, scans, visits, tails, tracked, n, acc);
      r.ScanRead? && InSync(m, r.acc, scans[..n + 1], tracked)
  {
    hide *;
    FileIsLegal(g, m, scans, visits, tails, tracked, n);
    FileShape(g, m, scans, visits, tails, tracked);
    ScanOk(g, m, scans, visits, tails, tracked, n);
    NthTapAnswers(T, g, m, scans, visits, tails, tracked, n);
    NthReads(T, g, m, scans, visits, tails, tracked, n, acc);
    assert scans[..n + 1] == scans[..n] + [scans[n]];
    ReadScanFromTap(NthTap(T, g, m, scans, visits, tails, tracked, n), g, m, scans[..n], scans[n], visits[n], tracked, acc);
  }

  lemma DecodedStep(T: Table, g: Config, m: Image, scans: seq<Scan>, visits: seq<seq<nat>>, tails: seq<seq<byte>>,
      tracked: set<nat>, n: nat)
    requires |T| >= 114 && FileLegal(g, m, scans, visits, tails, tracked) && n <= |scans|
    ensures n == 0 ==> Decoded(T, g, m, scans, visits, tails, tracked, n).1
    ensures n == 0 ==> InSync(m, Decoded(T, g, m, scans, visits, tails, tracked, n).0, scans[..n], tracked)
    ensures n > 0 ==>
      var before := Decoded(T, g, m, scans, visits, tails, tracked, n - 1);
      var r := ReadNth(T, g, m, scans, visits, tails, tracked, n - 1, before.0);
      Decoded(T, g, m, scans, visits, tails, tracked, n) == (r.acc, before.1 && r.ScanRead?)
  {
    hide ReadNth, ProgressivePrefixLegal, Covers, DcFits;
    if n > 0 {
      hide InSync, FileLegal;
    }
  }

  /** After every scan the decoder holds each tracked coefficient, cut at the planes sent so far. */
  lemma {:induction false} DecodedInSync(T: Table, g: Config, m: Image, scans: seq<Scan>, visits: seq<seq<nat>>,
      tails: seq<seq<byte>>, tracked: set<nat>, n: nat)
    requires |T| >= 114 && FileOk(g, m, scans, visits, tails, tracked) && n <= |scans|
    ensures Decoded(T, g, m, scans, visits, tails, tracked, n).1
    ensures InSync(m, Decoded(T, g, m, scans, visits, tails, tracked, n).0, scans[..n], tracked)
  {
    hide FileLegal, InSync, ReadNth, Decoded, DcFits;
    DecodedStep(T, g, m, scans, visits, tails, tracked, n);
    if n > 0 {
      DecodedInSync(T, g, m, scans, visits, tails, tracked, n - 1);
      ReadNthInSync(T, g, m, scans, visits, tails, tracked, n - 1, Decoded(T, g, m, scans, visits, tails, tracked, n - 1).0);
    }
  }

  /** If the script sends every coefficient down to bit 0, every tracked block is rebuilt exactly. */
  lemma ProgressiveRoundTrip(T: Table, g: Config, m: Image, scans: seq<Scan>, visits: seq<seq<nat>>,
      tails: seq<seq<byte>>, tracked: set<nat>)
    requires |T| >= 114 && FileOk(g, m, scans, visits, tails, tracked)
    requires forall c, k :: 0 <= c < |g.comps| && 0 <= k < 64 ==> BitPos(scans, c, k) == 0
    ensures Decoded(T, g, m, scans, visits, tails, tracked, |scans|).1
    ensures forall p :: p in tracked && p < |m.blocks| ==>
      Decoded(T, g, m, scans, visits, tails, tracked, |scans|).0[p] == m.blocks[p]
  {
    DecodedInSync(T, g, m, scans, visits, tails, tracked, |scans|);
    assert scans[..|scans|] == scans;
    var acc := Decoded(T, g, m, scans, visits, tails, tracked, |scans|).0;
    hide Decoded, FileOk;
    forall p, k | p in tracked && p < |m.blocks| && 0 <= k < 64 ensures acc[p][k] == m.blocks[p][k] {
      assert BitPos(scans, m.comp[p], k) == 0;
      ApproxExact(m.blocks[p][k], k);
    }
  }
}
