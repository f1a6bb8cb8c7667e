/** Progressive AC scans from coefficients to bytes and back, and band by band to exact values. */
module HuffmanBandCodec {
  import opened Coefficients
  import opened Powers
  import opened Digits
  import opened BitString
  import opened HuffmanBits
  import opened HuffmanCodes
  import opened HuffmanBlock
  import opened HuffmanReader
  import opened NaturalOrder
  import opened Refine
  import opened Scans
  import opened HuffmanBands
  import opened HuffmanBandStore
  import opened HuffmanBandsInvert
  import opened HuffmanBandScan
  import opened HuffmanBandEncoder

  // ----- Encoding a scan

  /** The blocks under the scan's point transform; blocks are in zigzag order. */
  function AllTransformed(blocks: seq<Block>, al: nat): (r: seq<Block>)
    ensures |r| == |blocks|
    ensures forall i :: 0 <= i < |blocks| ==> r[i] == Transform(blocks[i], al)
  {
    seq(|blocks|, i requires 0 <= i < |blocks| => Transform(blocks[i], al))
  }

  function ZigAll(blocks: seq<seq<int>>): (r: seq<Block>)
    requires forall i :: 0 <= i < |blocks| ==> |blocks[i]| == 64
    ensures |r| == |blocks| && forall i :: 0 <= i < |blocks| ==> r[i] == Zig(blocks[i])
  {
    seq(|blocks|, i requires 0 <= i < |blocks| => Zig(blocks[i]))
  }

  /** us is one way of gathering the codes of the first n blocks into runs. */
  ghost predicate Gathers(g: Band, ys: seq<Block>, n: nat, us: seq<Group>) {
    && g.se < DCTSIZE2 && n <= |ys| && RunsFit(us) && |AllCodes(us)| == n
    && forall i :: 0 <= i < n ==> AllCodes(us)[i] == CodeOf(g, ys[i])
  }

  ghost predicate FirstInRange(g: Band, ys: seq<Block>, n: nat) {
    g.refine || forall i :: 0 <= i < n && i < |ys| ==> BandInRange(ys[i], g.ss, g.se)
  }

  /** us gathers what the program sends for the first n blocks. */
  ghost predicate GathersSent(g: Band, ys: seq<Block>, n: nat, us: seq<Group>) {
    && g.se < DCTSIZE2 && n <= |ys| && RunsFit(us) && |AllCodes(us)| == n
    && forall i :: 0 <= i < n ==> AllCodes(us)[i] == CodeSent(g, ys[i])
  }

  ghost predicate AllWords(ys: seq<Block>) {
    forall i :: 0 <= i < |ys| ==> Words(ys[i])
  }

  /** No block has a coefficient whose magnitude is too large for its word. */
  ghost predicate AllStorable(g: Band, bs: seq<Block>) {
    forall i :: 0 <= i < |bs| ==> Storable(g, bs[i])
  }

  lemma StorableGathers(g: Band, bs: seq<Block>, us: seq<Group>)
    requires GathersSent(g, AllTransformed(bs, g.al), |bs|, us) && AllWords(bs) && AllStorable(g, bs)
    ensures Gathers(g, AllTransformed(bs, g.al), |bs|, us)
  {
    hide CodeSent, CodeOf, Transform, Words, Storable, AllCodes;
    forall i | 0 <= i < |bs| ensures AllCodes(us)[i] == CodeOf(g, AllTransformed(bs, g.al)[i]) {
      StorableIff(g, bs[i]);
      SentIff(g, Transform(bs[i], g.al));
    }
  }

  /** One block of either kind of scan. */
  method EncodeBand(e: BandEncoder, g: Band, block: seq<int>) returns (o: Outcome)
    requires e.Valid() && BandOk(g) && |block| == DCTSIZE2 && Words(block)
    modifies e, e.bitBuffer
    ensures o.Coded? <==> g.refine || BandInRange(Transform(Zig(block), g.al), g.ss, g.se)
    ensures o.OutsideTable? <==> !g.refine && SmallestFirst(Transform(Zig(block), g.al), g.ss, g.se)
    ensures o.Coded? ==> e.Valid() && e.codes == old(e.codes) + [CodeSent(g, Transform(Zig(block), g.al))]
  {
    hide Zig, Transform, BandInRange, FirstFrom, RefineFrom, BandEncoder.Valid, LastNew, AllTaken, SmallestFirst, Words;
    if g.refine {
      EncodeRefine(e, block, g.ss, g.se, g.al);
      o := Coded;
    } else {
      o := EncodeFirst(e, block, g.ss, g.se, g.al);
    }
  }

  /** The codes so far, one for each block. */
  ghost predicate CodedUpTo(g: Band, ys: seq<Block>, n: nat, codes: seq<BandCode>) {
    g.se < DCTSIZE2 && n <= |ys| && |codes| == n && forall i :: 0 <= i < n ==> codes[i] == CodeSent(g, ys[i])
  }

  function BandCodes(g: Band, ys: seq<Block>): (r: seq<BandCode>)
    requires g.se < DCTSIZE2
    ensures |r| == |ys| && forall i :: 0 <= i < |ys| ==> r[i] == CodeSent(g, ys[i])
  {
    seq(|ys|, i requires 0 <= i < |ys| => CodeSent(g, ys[i]))
  }

  /** What a scan of the transformed blocks emits. */
  function BandItems(g: Band, ys: seq<Block>): seq<Item>
    requires g.se < DCTSIZE2
  {
    AllItems(RunsOf(BandCodes(g, ys)).us)
  }

  /** The bytes of that, and of its last byte's padding. */
  function BandBytes(c: CTable, g: Band, bs: seq<Block>): seq<byte>
    requires g.se < DCTSIZE2
  {
    Finished(ItemsBits(c, BandItems(g, AllTransformed(bs, g.al))))
  }

  lemma EncoderGathers(e: BandEncoder, g: Band, ys: seq<Block>)
    requires e.InBlock([]) && e.eobrun == 0 && CodedUpTo(g, ys, |ys|, e.codes)
    ensures AllItems(e.groups) == e.items == BandItems(g, ys) && GathersSent(g, ys, |ys|, e.groups)
  {
    hide CodeSent, AllItems, RunsOf;
    assert AllItems(e.groups) + [] == AllItems(e.groups);
    assert e.codes == BandCodes(g, ys);
  }

  /** The first coefficient of a first pass that is out of range is the smallest word. */
  ghost predicate SmallestStops(g: Band, ys: seq<Block>) {
    !g.refine && exists i :: 0 <= i < |ys| && FirstInRange(g, ys, i) && SmallestFirst(ys[i], g.ss, g.se)
  }

  lemma StoppedAt(g: Band, ys: seq<Block>, i: nat)
    requires BandOk(g) && i < |ys| && FirstInRange(g, ys, i) && !g.refine && !BandInRange(ys[i], g.ss, g.se)
    ensures !FirstInRange(g, ys, |ys|) && (SmallestStops(g, ys) <==> SmallestFirst(ys[i], g.ss, g.se))
  {
    hide BandInRange, SmallestFirst;
    forall j | 0 <= j < |ys| && FirstInRange(g, ys, j) && SmallestFirst(ys[j], g.ss, g.se) ensures j == i {
      if j < i {
        InRangeNoSmallest(ys[j], g.ss, g.se);
      }
    }
  }

  lemma NeverStopped(g: Band, ys: seq<Block>)
    requires BandOk(g) && FirstInRange(g, ys, |ys|)
    ensures !SmallestStops(g, ys)
  {
    hide BandInRange, SmallestFirst;
    if !g.refine {
      forall j | 0 <= j < |ys| ensures !SmallestFirst(ys[j], g.ss, g.se) {
        InRangeNoSmallest(ys[j], g.ss, g.se);
      }
    }
  }

  /** A scan: all its blocks, then what is still held back. */
  method EncodeBands(g: Band, blocks: seq<seq<int>>) returns (o: Outcome, items: seq<Item>, ghost us: seq<Group>)
    requires BandOk(g) && forall i :: 0 <= i < |blocks| ==> |blocks[i]| == 64 && Words(blocks[i])
    ensures o.Coded? <==> FirstInRange(g, AllTransformed(ZigAll(blocks), g.al), |blocks|)
    ensures o.OutsideTable? <==> SmallestStops(g, AllTransformed(ZigAll(blocks), g.al))
    ensures o.Coded? ==> AllItems(us) == items && GathersSent(g, AllTransformed(ZigAll(blocks), g.al), |blocks|, us)
    ensures o.Coded? ==> items == BandItems(g, AllTransformed(ZigAll(blocks), g.al))
  {
    hide Zig, Transform, BandInRange, CodeSent, Held, AllItems, RunsOf, BandItems, Words, SmallestFirst, SmallestStops;
    ghost var ys := AllTransformed(ZigAll(blocks), g.al);
    var e := new BandEncoder();
    items, us := [], [];
    for i := 0 to |blocks|
      invariant e.Valid() && fresh(e) && fresh(e.bitBuffer) && CodedUpTo(g, ys, i, e.codes) && FirstInRange(g, ys, i)
    {
      assert ys[i] == Transform(Zig(blocks[i]), g.al);
      o := EncodeBand(e, g, blocks[i]);
      if !o.Coded? {
        StoppedAt(g, ys, i);
        return;
      }
    }
    var sent := e.EmitEobrun([]);
    EncoderGathers(e, g, ys);
    NeverStopped(g, ys);
    o, items, us := Coded, e.items, e.groups;
  }

  // ----- To bytes

  /** Raw bits come at most sixteen at a time, and never none. */
  ghost predicate RawsFit(ys: seq<Item>) {
    forall i :: 0 <= i < |ys| && ys[i].Raw? ==> 0 < ys[i].n <= 16
  }

  lemma BitItemsFit(bits: seq<bool>)
    ensures RawsFit(BitItems(bits))
  {
  }

  lemma {:induction false} ZrlItemsFit(r: nat)
    ensures RawsFit(ZrlItems(r))
  {
    if r >= 16 {
      ZrlItemsFit(r - 16);
    }
  }

  lemma {:induction false} FirstFits(y: seq<int>, k: nat, r: nat, se: nat)
    requires se < |y| && BandInRange(y, k, se)
    ensures RawsFit(FirstFrom(y, k, r, se).head)
    decreases if k <= se then se + 1 - k else 0
  {
    hide NBits, ExtraOf;
    if k <= se {
      if y[k] == 0 {
        FirstFits(y, k + 1, r + 1, se);
      } else {
        FirstFits(y, k + 1, 0, se);
        ZrlItemsFit(r);
      }
    }
  }

  lemma {:induction false} RefineFits(y: seq<int>, k: nat, r: nat, br: seq<bool>, eob: nat, se: nat)
    requires se < |y|
    ensures RawsFit(RefineFrom(y, k, r, br, eob, se).head)
    decreases if k <= se then se + 1 - k else 0, r
  {
    if k <= se {
      BitItemsFit(br);
      if y[k] == 0 {
        RefineFits(y, k + 1, r + 1, br, eob, se);
      } else if r > 15 && k <= eob {
        RefineFits(y, k, r - 16, [], eob, se);
      } else if Known(y[k]) {
        RefineFits(y, k + 1, r, br + [CorrectionBit(y[k])], eob, se);
      } else {
        RefineFits(y, k + 1, 0, [], eob, se);
      }
    }
  }

  lemma EobFits(n: nat)
    requires 0 < n <= 0x7FFF
    ensures RawsFit(EobItems(n))
  {
    RunLength(n);
    hide Pow2;
  }

  lemma FitConcat(xs: seq<Item>, ys: seq<Item>)
    requires RawsFit(xs) && RawsFit(ys)
    ensures RawsFit(xs + ys)
  {
  }

  lemma GroupFits(u: Group)
    requires RawsFit(u.head) && |u.tails| <= 0x7FFF
    ensures RawsFit(GroupItems(u))
  {
    if u.tails != [] {
      EobFits(|u.tails|);
      BitItemsFit(Flat(u.tails));
    }
    hide RawsFit, EobItems, BitItems;
    if u.tails != [] {
      FitConcat(EobItems(|u.tails|), BitItems(Flat(u.tails)));
      FitConcat(u.head, EobItems(|u.tails|) + BitItems(Flat(u.tails)));
    } else {
      assert u.head + [] == u.head;
    }
  }

  /** The first code of the last group is that of a block. */
  lemma HeadIsCode(us: seq<Group>, vs: seq<Group>, u: Group)
    requires us != [] && vs == us[..|us| - 1] && u == us[|us| - 1]
    ensures |AllCodes(us)| > |AllCodes(vs)| && AllCodes(us)[|AllCodes(vs)|].head == u.head
    ensures forall i :: 0 <= i < |AllCodes(vs)| ==> AllCodes(us)[i] == AllCodes(vs)[i]
  {
    AllCodesLast(us, vs, u);
    GroupCodeAt(u, 0);
    hide AllCodes, GroupCodes;
  }

  lemma {:induction false} AllFit(us: seq<Group>)
    requires RunsFit(us) && forall i :: 0 <= i < |AllCodes(us)| ==> RawsFit(AllCodes(us)[i].head)
    ensures RawsFit(AllItems(us))
    decreases |us|
  {
    hide RawsFit, GroupItems, GroupCodes;
    if us == [] {
      assert RawsFit([]) by { hide *; BitItemsFit([]); assert BitItems([]) == []; }
    } else {
      var vs, u := us[..|us| - 1], us[|us| - 1];
      HeadIsCode(us, vs, u);
      assert RawsFit(AllCodes(us)[|AllCodes(vs)|].head);
      hide AllCodes;
      assert forall i :: 0 <= i < |AllCodes(vs)| ==> RawsFit(AllCodes(us)[i].head);
      AllFit(vs);
      GroupFits(u);
      FitConcat(AllItems(vs), GroupItems(u));
    }
  }

  lemma CodeFits(g: Band, y: seq<int>)
    requires BandOk(g) && |y| == DCTSIZE2 && (g.refine || BandInRange(y, g.ss, g.se))
    ensures RawsFit(CodeSent(g, y).head)
  {
    if g.refine {
      RefineFits(AllTaken(y), g.ss, 0, [], LastNew(y, g.se), g.se);
    } else {
      FirstFits(y, g.ss, 0, g.se);
    }
  }

  /** What a scan emits can be written. */
  lemma GatheredFits(g: Band, ys: seq<Block>, us: seq<Group>)
    requires BandOk(g) && GathersSent(g, ys, |ys|, us) && FirstInRange(g, ys, |ys|)
    ensures RawsFit(AllItems(us))
  {
    hide RawsFit, CodeSent, BandInRange, AllCodes, AllItems;
    forall i | 0 <= i < |AllCodes(us)| ensures RawsFit(AllCodes(us)[i].head) {
      CodeFits(g, ys[i]);
    }
    AllFit(us);
  }

  lemma {:induction false} ItemsSnoc(c: CTable, ys: seq<Item>, y: Item)
    ensures ItemsBits(c, ys + [y]) == ItemsBits(c, ys) + ItemBits(c, y)
  {
    ItemsBitsConcat(c, ys, [y]);
    assert [y][1..] == [] && ItemBits(c, y) + [] == ItemBits(c, y);
  }

  /** The sizes of a table, as emit_bits needs them. */
  ghost predicate SizesFit(c: CTable) {
    forall s: nat :: Entry(c.ehufsi, s) <= 16
  }

  /** A symbol that has a code. */
  predicate HasSize(c: CTable, y: Item) {
    y.Symbol? ==> Entry(c.ehufsi, y.s) > 0
  }

  ghost predicate AllHaveSizes(c: CTable, ys: seq<Item>) {
    forall i :: 0 <= i < |ys| ==> HasSize(c, ys[i])
  }

  /** The first symbol without a code is none that the tables have entries for. */
  ghost predicate WildFirst(c: CTable, ys: seq<Item>) {
    exists i :: 0 <= i < |ys| && ys[i].Symbol? && ys[i].s >= 256 && forall j :: 0 <= j < i ==> HasSize(c, ys[j])
  }

  datatype Written = Complete(out: seq<byte>) | NoCode | NoEntry

  /** The output run stops at a symbol that has no code, or not even an entry in the tables. */
  method WriteItems(c: CTable, items: seq<Item>, out0: seq<byte>) returns (r: Written)
    requires SizesFit(c) && RawsFit(items) && |c.ehufsi| <= 256
    ensures r.Complete? <==> AllHaveSizes(c, items)
    ensures r.NoEntry? <==> WildFirst(c, items)
    ensures r.Complete? ==> r.out == out0 + Finished(ItemsBits(c, items))
  {
    hide ItemsBits, BitsOf, Finished, NarrowWriter.Valid;
    var w := new NarrowWriter(out0);
    assert ItemsBits(c, items[..0]) == [] by { hide *; NoItemsAtAll(c, items); }
    for i := 0 to |items|
      invariant w.Valid() && fresh(w) && w.start == out0 && w.sent == ItemsBits(c, items[..i])
      invariant forall j :: 0 <= j < i ==> HasSize(c, items[j])
    {
      assert items[..i + 1] == items[..i] + [items[i]];
      ItemsSnoc(c, items[..i], items[i]);
      var ok;
      match items[i] {
        case Symbol(s) =>
          if s >= 256 {
            return NoEntry;
          }
          ok := w.EmitBits(Entry(c.ehufco, s), Entry(c.ehufsi, s));
        case Raw(v, n) => ok := w.EmitBits(v, n);
      }
      if !ok {
        return NoCode;
      }
    }
    assert items[..|items|] == items;
    w.FlushBits();
    r := Complete(w.out);
  }

  lemma NoItemsAtAll(c: CTable, items: seq<Item>)
    ensures ItemsBits(c, items[..0]) == []
  {
  }

  // ----- Bit planes

  /** What the decoder must hold before a scan of the band: nothing, or the plane above. */
  ghost predicate HoldsBefore(g: Band, b: Block, z: Block) {
    if g.refine then HoldsPlane(z, b, g.ss, g.se, g.al + 1) else BandClear(z, g.ss, g.se)
  }

  ghost predicate SixteenBits(b: Block) {
    forall k :: 0 <= k < 64 ==> -0x8000 <= b[k] < 0x8000
  }

  lemma StartsBand(g: Band, b: Block, z: Block)
    requires BandOk(g) && SixteenBits(b) && HoldsBefore(g, b, z) && (g.refine || BandInRange(Transform(b, g.al), g.ss, g.se))
    ensures BandStart(g, Transform(b, g.al), z)
  {
    hide Transform, OnePlaneBehind, BandFits, HoldsPlane, BandInRange, BandClear;
    TransformFits(b, g.al);
    if g.refine {
      BehindByOne(z, b, g.ss, g.se, g.al);
    }
  }

  /** After it: the band at the scan's plane, and nothing else changed. */
  ghost predicate Gained(g: Band, b: Block, z: Block, r: Block) {
    && HoldsPlane(r, b, g.ss, g.se, g.al)
    && forall k :: 0 <= k < 64 && !(g.ss <= k <= g.se) ==> r[k] == z[k]
  }

  lemma BandGained(g: Band, b: Block, z: Block)
    requires BandOk(g)
    ensures Gained(g, b, z, Scaled(z, Transform(b, g.al), g.ss, g.se, g.al))
  {
    hide Scale, Truncate;
  }

  // ----- Coding and decoding

  ghost predicate AllBefore(g: Band, bs: seq<Block>, zs: seq<Block>) {
    |bs| == |zs| && forall i :: 0 <= i < |bs| ==> SixteenBits(bs[i]) && HoldsBefore(g, bs[i], zs[i])
  }

  ghost predicate AllGained(g: Band, bs: seq<Block>, zs: seq<Block>, rs: seq<Block>) {
    |bs| == |zs| == |rs| && forall i :: 0 <= i < |bs| ==> Gained(g, bs[i], zs[i], rs[i])
  }

  lemma StartsScan(g: Band, bs: seq<Block>, zs: seq<Block>)
    requires BandOk(g) && AllBefore(g, bs, zs) && FirstInRange(g, AllTransformed(bs, g.al), |bs|)
    ensures ScanStart(g, AllTransformed(bs, g.al), zs) && Blocks(AllTransformed(bs, g.al), zs)
  {
    hide HoldsBefore, BandStart, BandInRange, Transform, SixteenBits;
    forall i | 0 <= i < |bs| ensures BandStart(g, AllTransformed(bs, g.al)[i], zs[i]) {
      StartsBand(g, bs[i], zs[i]);
    }
  }

  lemma GathersGrouped(g: Band, ys: seq<Block>, us: seq<Group>)
    requires Gathers(g, ys, |ys|, us)
    ensures Grouped(g, ys, us) && RunsFit(us) && |AllCodes(us)| == |ys|
  {
    hide CodeOf, AllCodes;
  }

  /** However the blocks are gathered into runs, the scan's bits give every block the scan's plane. */
  lemma ScanGains(g: Band, c: CTable, x: DecTbl, bs: seq<Block>, zs: seq<Block>, us: seq<Group>, more: Bits)
    requires BandOk(g) && Paired(c, x) && AllBefore(g, bs, zs) && FirstInRange(g, AllTransformed(bs, g.al), |bs|)
    requires Gathers(g, AllTransformed(bs, g.al), |bs|, us) && ItemsCoded(c, AllItems(us))
    ensures (forall i :: 0 <= i < |zs| ==> |zs[i]| == DCTSIZE2) && g.se < DCTSIZE2
    ensures var r := DecodeBands(g, x, ItemsBits(c, AllItems(us)) + more, zs, |zs|);
      && (forall i :: 0 <= i < |zs| ==> |r.zs[i]| == 64) && AllGained(g, bs, zs, r.zs) && r.eobrun == 0 && r.rest == more
  {
    var ys := AllTransformed(bs, g.al);
    StartsScan(g, bs, zs);
    GathersGrouped(g, ys, us);
    assert |zs| == |ys| == |bs| && g.se < DCTSIZE2;
    hide BandOk, Paired, AllBefore, FirstInRange, Gathers, ItemsCoded, AllItems, AllCodes, ScanStart, Grouped, RunsFit, ItemsBits, DecodeBands,
      Scaled, Gained, Transform;
    BandsInvert(g, c, x, ys, zs, us, more);
    forall i | 0 <= i < |zs| ensures |Completed(g, ys, zs, |zs|)[i]| == 64 && Gained(g, bs[i], zs[i], Completed(g, ys, zs, |zs|)[i]) {
      BandGained(g, bs[i], zs[i]);
    }
  }

  lemma CodedSizes(c: CTable, items: seq<Item>)
    requires AllHaveSizes(c, items) && |c.ehufsi| <= 256
    ensures ItemsCoded(c, items)
  {
  }

  datatype Sent = OutOfRange | OutsideTable | MissingCode | Code(code: seq<byte>)

  /** A scan through bytes.  Unless a magnitude is too large for its word it brings the decoder, whatever
      it holds one plane behind, to the scan's plane. */
  method SendBands(g: Band, blocks: seq<seq<int>>, c: CTable, ghost x: DecTbl, ghost tail: seq<byte>) returns (r: Sent)
    requires BandOk(g) && Paired(c, x) && SizesFit(c) && |c.ehufsi| <= 256
    requires forall i :: 0 <= i < |blocks| ==> |blocks[i]| == 64 && Words(blocks[i])
    requires |tail| >= 2 && tail[0] == 0xFF && 0 < tail[1] < 0xFF
    ensures g.se < DCTSIZE2
    ensures var ys := AllTransformed(ZigAll(blocks), g.al);
      && (r.OutOfRange? <==> !FirstInRange(g, ys, |ys|) && !SmallestStops(g, ys))
      && (r.OutsideTable? <==> SmallestStops(g, ys) || (FirstInRange(g, ys, |ys|) && WildFirst(c, BandItems(g, ys))))
      && (r.Code? <==> FirstInRange(g, ys, |ys|) && AllHaveSizes(c, BandItems(g, ys)))
      && (r.Code? ==> r.code == BandBytes(c, g, ZigAll(blocks)))
    ensures r.Code? && AllStorable(g, ZigAll(blocks)) ==> forall zs: seq<Block> :: AllBefore(g, ZigAll(blocks), zs) ==>
      ReadBack(g, x, r.code + tail, ZigAll(blocks), zs)
  {
    hide Paired, SizesFit, FirstInRange, Gathers, GathersSent, AllBefore, ItemsBits, Finished, Padding, Segment, Unpack, ReadBack, HasSize, AllItems,
      RawsFit, BandItems, SmallestStops, WildFirst, AllStorable, AllWords, AllHaveSizes, Words, ZigAll;
    ghost var bs, ys := ZigAll(blocks), AllTransformed(ZigAll(blocks), g.al);
    assert AllWords(bs) by { hide *; ZigWords(blocks); }
    assert g.se < DCTSIZE2 && |ys| == |blocks|;
    var o, items, us := EncodeBands(g, blocks);
    match o {
      case BadCoef =>
        return OutOfRange;
      case OutsideTable =>
        assert !FirstInRange(g, ys, |ys|);
        return Sent.OutsideTable;
      case Coded =>
    }
    NeverStopped(g, ys);
    GatheredFits(g, ys, us);
    var w := WriteItems(c, items, []);
    NotWild(c, items);
    match w {
      case NoEntry =>
        r := Sent.OutsideTable;
      case NoCode =>
        r := MissingCode;
      case Complete(code) =>
        CodedSizes(c, items);
        r := Code(code);
        assert code == Finished(ItemsBits(c, items));
        FinishedRead(ItemsBits(c, items), tail);
        if AllStorable(g, bs) {
          StorableGathers(g, bs, us);
          forall zs: seq<Block> | AllBefore(g, bs, zs) ensures ReadBack(g, x, r.code + tail, bs, zs) {
            ReadsBack(g, c, x, bs, zs, us, Padding(|ItemsBits(c, items)|), r.code + tail);
          }
        }
    }
  }

  lemma ZigWords(blocks: seq<seq<int>>)
    requires forall i :: 0 <= i < |blocks| ==> |blocks[i]| == 64 && Words(blocks[i])
    ensures AllWords(ZigAll(blocks))
  {
    hide Zig, Words;
    forall i | 0 <= i < |blocks| ensures Words(ZigAll(blocks)[i]) {
      BlockWords(blocks[i], 0);
    }
  }

  lemma NotWild(c: CTable, ys: seq<Item>)
    ensures AllHaveSizes(c, ys) && |c.ehufsi| <= 256 ==> !WildFirst(c, ys)
  {
    if AllHaveSizes(c, ys) && |c.ehufsi| <= 256 {
      forall i | 0 <= i < |ys| && ys[i].Symbol? ensures ys[i].s < 256 {
        assert HasSize(c, ys[i]);
      }
    }
  }

  /** Decoding the bytes brings every block to the scan's plane. */
  ghost predicate ReadBack(g: Band, x: DecTbl, whole: seq<byte>, bs: seq<Block>, zs: seq<Block>) {
    && g.se < DCTSIZE2 && (forall i :: 0 <= i < |zs| ==> |zs[i]| == DCTSIZE2)
    && var r := DecodeBands(g, x, Unpack(Segment(whole)), zs, |zs|);
       (forall i :: 0 <= i < |zs| ==> |r.zs[i]| == 64) && AllGained(g, bs, zs, r.zs)
  }

  lemma ReadsBack(g: Band, c: CTable, x: DecTbl, bs: seq<Block>, zs: seq<Block>, us: seq<Group>, more: Bits, whole: seq<byte>)
    requires BandOk(g) && Paired(c, x) && AllBefore(g, bs, zs) && FirstInRange(g, AllTransformed(bs, g.al), |bs|)
    requires Gathers(g, AllTransformed(bs, g.al), |bs|, us) && ItemsCoded(c, AllItems(us))
    requires Unpack(Segment(whole)) == ItemsBits(c, AllItems(us)) + more
    ensures ReadBack(g, x, whole, bs, zs)
  {
    hide BandOk, Paired, AllBefore, FirstInRange, Gathers, ItemsCoded, AllItems, ItemsBits, DecodeBands, Segment, Unpack, AllGained;
    ScanGains(g, c, x, bs, zs, us, more);
  }

  // ----- Successive approximation down to the last plane

  /** One scan of the band: its tables, the runs its blocks were gathered into, and the bits after it. */
  datatype Pass = Pass(c: CTable, x: DecTbl, us: seq<Group>, more: Bits)

  /** The i-th of m scans of a band; the last is that of plane 0. */
  function PassBand(ss: nat, se: nat, m: nat, i: nat): Band
    requires i < m
  {
    Band(ss, se, m - 1 - i, i > 0)
  }

  ghost predicate PassOk(g: Band, bs: seq<Block>, p: Pass) {
    && Paired(p.c, p.x) && GathersSent(g, AllTransformed(bs, g.al), |bs|, p.us) && ItemsCoded(p.c, AllItems(p.us))
    && FirstInRange(g, AllTransformed(bs, g.al), |bs|)
  }

  /** The decoder's blocks after the first n scans. */
  ghost function AfterPasses(ss: nat, se: nat, passes: seq<Pass>, zs: seq<Block>, n: nat): (r: seq<seq<int>>)
    requires n <= |passes| && se < DCTSIZE2
    ensures |r| == |zs| && forall i :: 0 <= i < |r| ==> |r[i]| == DCTSIZE2
  {
    if n == 0 then zs else
    var before := AfterPasses(ss, se, passes, zs, n - 1);
    var p := passes[n - 1];
    var r := DecodeBands(PassBand(ss, se, |passes|, n - 1), p.x, ItemsBits(p.c, AllItems(p.us)) + p.more, before, |before|);
    BandsShape(PassBand(ss, se, |passes|, n - 1), p.x, ItemsBits(p.c, AllItems(p.us)) + p.more, before, |before|);
    r.zs
  }

  lemma {:induction false} BandsShape(g: Band, x: DecTbl, b: Bits, zs: seq<seq<int>>, k: nat)
    requires g.se < DCTSIZE2 && k <= |zs| && forall i :: 0 <= i < |zs| ==> |zs[i]| == DCTSIZE2
    ensures forall i :: 0 <= i < k ==> |DecodeBands(g, x, b, zs, k).zs[i]| == DCTSIZE2
  {
    hide DecodeBand;
    if k > 0 {
      BandsShape(g, x, b, zs, k - 1);
    }
  }

  /** The n scans so far have brought the band down to their plane. */
  ghost predicate Descended(ss: nat, se: nat, m: nat, bs: seq<Block>, zs: seq<Block>, n: nat) {
    && |bs| == |zs| && n <= m
    && forall i :: 0 <= i < |bs| ==> if n == 0 then BandClear(zs[i], ss, se) else HoldsPlane(zs[i], bs[i], ss, se, m - n)
  }

  /** The scans of a band, one plane at a time, bring it down to their planes; the last one only if
      every magnitude fits its word. */
  lemma {:induction false} PlanesDescend(ss: nat, se: nat, bs: seq<Block>, passes: seq<Pass>, zs: seq<Block>, n: nat)
    requires 0 < ss <= se < DCTSIZE2 && 0 < |passes| <= 14 && n <= |passes| && Descended(ss, se, |passes|, bs, zs, 0)
    requires forall i :: 0 <= i < |bs| ==> SixteenBits(bs[i])
    requires forall i :: 0 <= i < |passes| ==> PassOk(PassBand(ss, se, |passes|, i), bs, passes[i])
    requires n == |passes| ==> AllStorable(PassBand(ss, se, |passes|, n - 1), bs)
    ensures Descended(ss, se, |passes|, bs, AfterPasses(ss, se, passes, zs, n), n)
  {
    hide PassOk, SixteenBits, HoldsPlane, BandClear, DecodeBands, ItemsBits, AllItems;
    if n > 0 {
      assert AllStorable(PassBand(ss, se, |passes|, n - 1), bs);
      hide AllStorable;
      PlanesDescend(ss, se, bs, passes, zs, n - 1);
      PassDescends(ss, se, |passes|, bs, AfterPasses(ss, se, passes, zs, n - 1), passes[n - 1], n - 1);
    }
  }

  lemma PassDescends(ss: nat, se: nat, m: nat, bs: seq<Block>, zs: seq<Block>, p: Pass, n: nat)
    requires 0 < ss <= se < DCTSIZE2 && n < m <= 14 && Descended(ss, se, m, bs, zs, n)
    requires (forall i :: 0 <= i < |bs| ==> SixteenBits(bs[i])) && PassOk(PassBand(ss, se, m, n), bs, p)
    requires AllStorable(PassBand(ss, se, m, n), bs)
    ensures (forall i :: 0 <= i < |zs| ==> |zs[i]| == DCTSIZE2)
    ensures var r := DecodeBands(PassBand(ss, se, m, n), p.x, ItemsBits(p.c, AllItems(p.us)) + p.more, zs, |zs|);
      (forall i :: 0 <= i < |r.zs| ==> |r.zs[i]| == DCTSIZE2) && Descended(ss, se, m, bs, r.zs, n + 1)
  {
    var g := PassBand(ss, se, m, n);
    hide *;
    BeforePass(ss, se, m, bs, zs, p, n);
    ScanGains(g, p.c, p.x, bs, zs, p.us, p.more);
    AfterPass(ss, se, m, bs, zs, DecodeBands(g, p.x, ItemsBits(p.c, AllItems(p.us)) + p.more, zs, |zs|).zs, n);
  }

  lemma BeforePass(ss: nat, se: nat, m: nat, bs: seq<Block>, zs: seq<Block>, p: Pass, n: nat)
    requires 0 < ss <= se < DCTSIZE2 && n < m <= 14 && Descended(ss, se, m, bs, zs, n)
    requires (forall i :: 0 <= i < |bs| ==> SixteenBits(bs[i])) && PassOk(PassBand(ss, se, m, n), bs, p)
    requires AllStorable(PassBand(ss, se, m, n), bs)
    ensures var g := PassBand(ss, se, m, n);
      && BandOk(g) && Paired(p.c, p.x) && AllBefore(g, bs, zs) && FirstInRange(g, AllTransformed(bs, g.al), |bs|)
      && Gathers(g, AllTransformed(bs, g.al), |bs|, p.us) && ItemsCoded(p.c, AllItems(p.us)) && |bs| == |zs|
  {
    assert AllWords(bs);
    hide Paired, Gathers, GathersSent, ItemsCoded, FirstInRange, SixteenBits, HoldsPlane, BandClear, AllItems, AllStorable, AllWords;
    StorableGathers(PassBand(ss, se, m, n), bs, p.us);
  }

  lemma AfterPass(ss: nat, se: nat, m: nat, bs: seq<Block>, zs: seq<Block>, rs: seq<Block>, n: nat)
    requires n < m && AllGained(PassBand(ss, se, m, n), bs, zs, rs)
    ensures Descended(ss, se, m, bs, rs, n + 1)
  {
    hide HoldsPlane;
  }

  /** At the end every coefficient of the band is exact, unless one of them is the smallest word. */
  lemma BandExact(ss: nat, se: nat, bs: seq<Block>, passes: seq<Pass>, zs: seq<Block>, i: nat, k: nat)
    requires 0 < ss <= se < DCTSIZE2 && 0 < |passes| <= 14 && Descended(ss, se, |passes|, bs, zs, 0)
    requires forall i :: 0 <= i < |bs| ==> SixteenBits(bs[i])
    requires forall i :: 0 <= i < |passes| ==> PassOk(PassBand(ss, se, |passes|, i), bs, passes[i])
    requires i < |bs| && ss <= k <= se && AllStorable(Band(ss, se, 0, true), bs)
    ensures |zs| == |bs| && AfterPasses(ss, se, passes, zs, |passes|)[i][k] == bs[i][k]
  {
    hide *;
    LastPass(ss, se, bs, |passes|);
    PlanesDescend(ss, se, bs, passes, zs, |passes|);
    AtLastPlane(ss, se, |passes|, bs, zs, AfterPasses(ss, se, passes, zs, |passes|), i, k);
  }

  lemma LastPass(ss: nat, se: nat, bs: seq<Block>, m: nat)
    requires AllStorable(Band(ss, se, 0, true), bs) && m > 0 && ss <= se < DCTSIZE2
    ensures AllStorable(PassBand(ss, se, m, m - 1), bs) && se < 64 == DCTSIZE2
  {
  }

  lemma AtLastPlane(ss: nat, se: nat, m: nat, bs: seq<Block>, zs: seq<Block>, rs: seq<Block>, i: nat, k: nat)
    requires Descended(ss, se, m, bs, zs, 0) && Descended(ss, se, m, bs, rs, m) && m > 0 && i < |bs|
    requires 0 < ss <= k <= se < 64 && SixteenBits(bs[i])
    ensures |zs| == |bs| == |rs| && rs[i][k] == bs[i][k]
  {
    hide BandClear;
    ApproxExact(bs[i][k], k);
  }
}
