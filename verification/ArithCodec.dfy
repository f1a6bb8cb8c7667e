/** The arithmetic codec run end to end on coefficient arrays in natural order. */
module ArithCodec {
  import opened Digits
  import opened ProbTable
  import opened Interval
  import opened ArithDecoding
  import opened NaturalOrder
  import opened BlockMemory
  import opened Binarize
  import opened Scans
  import opened Sequential
  import opened Script
  import opened Progressive
  import opened ArithFile
  import opened DcRange
  import opened ArithScanEncoder
  import opened ArithScanDecoder

  lemma VisitsAreInside(g: Config, blocks: seq<seq<int>>, comp: seq<nat>, visits: seq<nat>, acc: seq<Block>)
    requires StoredOk(g, blocks, comp, visits) && |acc| == |blocks|
    ensures VisitsInside(g, comp, visits, acc)
  {
  }

  lemma HeldBlock(mem: seq<array<int>>, p: nat, block: seq<int>)
    requires Memory(mem) && p < |mem| && |block| == 64
    ensures Held(mem)[p] == Zig(block) <==> mem[p][..] == block
  {
    hide Order, Zig;
    if Zig(mem[p][..]) == Zig(block) {
      ZigInjective(mem[p][..], block);
    }
  }

  lemma HeldZig(mem: seq<array<int>>)
    requires Memory(mem)
    ensures forall p :: 0 <= p < |mem| ==> Held(mem)[p] == Zig(mem[p][..])
  {
    hide Zig;
  }

  lemma SequentialBack(T: Table, g: Config, m: Image, visits: seq<nat>, acc: seq<Block>, tail: seq<byte>)
    requires |T| >= 114 && ConfigOk(g) && ImageOk(g, m) && VisitsOk(m, visits) && |acc| == |m.blocks|
    requires Zeroed(acc, visits) && MarkerFirst(tail)
    ensures InRange(SeqScan(g, m, visits, DcStart(g)), NUM_BINS)
    ensures var r := ReadSeq(Ask, ScanTap(T, ScanCode(T, SeqScan(g, m, visits, DcStart(g))) + tail), g, m.comp, visits, DcStart(g), acc);
      && (r.ScanRead? <==> SeqFits(g, m, visits, DcStart(g)))
      && (r.ScanRead? ==> forall p :: 0 <= p < |acc| ==> r.acc[p] == if p in visits then m.blocks[p] else acc[p])
  {
    hide SeqScan, ReadSeq, SeqFits, ScanTap, ScanCode, Zeroed;
    SequentialSucceedsIff(T, g, m, visits, acc, tail);
    if SeqFits(g, m, visits, DcStart(g)) {
      SequentialRoundTrip(T, g, m, visits, acc, tail);
    }
  }

  /** Encoding and then decoding into zeroed memory succeeds if and only if no DC difference
      exceeds 2^15, and then leaves what was there, block for block, whatever follows the scan's
      code as long as it starts with a marker. */
  method SendSequentialScan(T: Table, g: Config, blocks: seq<seq<int>>, comp: seq<nat>, visits: seq<nat>,
      mem: seq<array<int>>, tail: seq<byte>) returns (ok: bool)
    requires |T| >= 114 && StoredOk(g, blocks, comp, visits)
    requires Memory(mem) && |mem| == |blocks| && MarkerFirst(tail) && Zeroed(Held(mem), visits)
    modifies mem
    ensures ok <==> SeqFits(g, Stored(blocks, comp), visits, DcStart(g))
    ensures ok ==> forall p :: 0 <= p < |mem| ==> mem[p][..] == if p in visits then blocks[p] else old(mem[p][..])
  {
    ghost var m, was := Stored(blocks, comp), Held(mem);
    VisitsAreInside(g, blocks, comp, visits, was);
    HeldZig(mem);
    hide Held, Memory, SeqFits, Zeroed, SeqScan, ReadSeq, Order, ScanTap, ScanCode, StoredOk;
    SequentialBack(T, g, m, visits, was, tail);
    var code := EncodeSequentialScan(T, g, blocks, comp, visits);
    ok := DecodeSequentialScan(T, code + tail, g, mem, comp, visits);
    if ok {
      forall p | 0 <= p < |mem| ensures mem[p][..] == if p in visits then blocks[p] else old(mem[p][..]) {
        HeldBlock(mem, p, if p in visits then blocks[p] else old(mem[p][..]));
      }
    }
  }

  // ----- Whole progressive files

  /** What coding the n-th scan of a file takes. */
  lemma NthScan(T: Table, g: Config, blocks: seq<seq<int>>, comp: seq<nat>, scans: seq<Scan>, visits: seq<seq<nat>>,
      tails: seq<seq<byte>>, tracked: set<nat>, n: nat, acc: seq<Block>)
    requires |T| >= 114 && (forall i :: 0 <= i < |blocks| ==> |blocks[i]| == 64) && n < |scans| && |acc| == |blocks|
    requires FileLegal(g, Stored(blocks, comp), scans, visits, tails, tracked)
    ensures |visits| == |tails| == |scans| && StoredOk(g, blocks, comp, visits[n]) && ScanLegal(g, scans[n])
    ensures RangesLegal(scans[n]) && CompsLegal(scans[n].comps, |g.comps|) && VisitsInside(g, comp, visits[n], acc)
    ensures |acc| == |Stored(blocks, comp).blocks|
    ensures InRange(ScanDecisions(g, Stored(blocks, comp), scans[n], visits[n]), NUM_BINS)
    ensures ReadNth(T, g, Stored(blocks, comp), scans, visits, tails, tracked, n, acc)
      == ReadScan(Ask, ScanTap(T, ScanCode(T, ScanDecisions(g, Stored(blocks, comp), scans[n], visits[n])) + tails[n]), g, comp,
                  scans[n], visits[n], acc)
  {
    FileShape(g, Stored(blocks, comp), scans, visits, tails, tracked);
    ScanOk(g, Stored(blocks, comp), scans, visits, tails, tracked, n);
    assert |visits| == |scans| && StoredOk(g, blocks, comp, visits[n]);
    VisitsAreInside(g, blocks, comp, visits[n], acc);
    hide FileLegal, ScanDecisions, ReadScan, ScanTap, ScanCode, Covers, ImageOk, VisitsOk, StoredOk, VisitsInside, Zig;
  }

  /** A file, scan after scan: each is encoded, and decoded over what the scans before have left.
      All succeed if and only if no first DC scan has a difference beyond 2^15; and then, if the
      script sends everything, the memory holds the tracked blocks exactly. */
  method SendProgressiveFile(T: Table, g: Config, blocks: seq<seq<int>>, comp: seq<nat>, scans: seq<Scan>, visits: seq<seq<nat>>,
      tails: seq<seq<byte>>, mem: seq<array<int>>, ghost tracked: set<nat>) returns (ok: bool)
    requires |T| >= 114 && forall i :: 0 <= i < |blocks| ==> |blocks[i]| == 64
    requires FileLegal(g, Stored(blocks, comp), scans, visits, tails, tracked)
    requires Memory(mem) && |mem| == |blocks| && Held(mem) == seq(|blocks|, _ => seq(64, _ => 0))
    modifies mem
    ensures ok <==> forall i :: 0 <= i < |scans| ==> NthFits(g, Stored(blocks, comp), scans, visits, i)
    ensures ok && SendsAll(g, scans) ==> forall p :: 0 <= p < |mem| && p in tracked ==> mem[p][..] == blocks[p]
  {
    hide *;
    ghost var m := Stored(blocks, comp);
    FileSizes(g, blocks, comp, scans, visits, tails, tracked);
    FirstDecoded(T, g, m, scans, visits, tails, tracked);
    ok := true;
    for n := 0 to |scans|
      invariant (Held(mem), ok) == Decoded(T, g, m, scans, visits, tails, tracked, n)
    {
      NthScan(T, g, blocks, comp, scans, visits, tails, tracked, n, Held(mem));
      DecodedStep(T, g, m, scans, visits, tails, tracked, n + 1);
      var code := EncodeProgressiveScan(T, g, blocks, comp, scans[n], visits[n]);
      var good := DecodeProgressiveScan(T, code + tails[n], g, scans[n], mem, comp, visits[n]);
      ok := ok && good;
    }
    ProgressiveSucceedsIff(T, g, m, scans, visits, tails, tracked);
    if ok && SendsAll(g, scans) {
      forall p | 0 <= p < |mem| && p in tracked ensures mem[p][..] == blocks[p] {
        StoredIs(blocks, comp, p);
        HeldBlock(mem, p, blocks[p]);
      }
    }
  }

  lemma StoredIs(blocks: seq<seq<int>>, comp: seq<nat>, p: nat)
    requires (forall i :: 0 <= i < |blocks| ==> |blocks[i]| == 64) && p < |blocks|
    ensures |Stored(blocks, comp).blocks| == |blocks| && Stored(blocks, comp).blocks[p] == Zig(blocks[p])
  {
    hide Zig;
  }

  lemma FileSizes(g: Config, blocks: seq<seq<int>>, comp: seq<nat>, scans: seq<Scan>, visits: seq<seq<nat>>, tails: seq<seq<byte>>,
      tracked: set<nat>)
    requires (forall i :: 0 <= i < |blocks| ==> |blocks[i]| == 64) && FileLegal(g, Stored(blocks, comp), scans, visits, tails, tracked)
    ensures |Stored(blocks, comp).blocks| == |blocks| && |visits| == |tails| == |scans|
  {
    hide Zig, ImageOk, Covers, ProgressivePrefixLegal;
  }

  lemma FirstDecoded(T: Table, g: Config, m: Image, scans: seq<Scan>, visits: seq<seq<nat>>, tails: seq<seq<byte>>, tracked: set<nat>)
    requires |T| >= 114 && FileLegal(g, m, scans, visits, tails, tracked)
    ensures Decoded(T, g, m, scans, visits, tails, tracked, 0) == (seq(|m.blocks|, _ => seq(64, _ => 0)), true)
  {
    hide FileLegal;
  }
}
