/** Runs of end-of-bands over a whole progressive AC scan: however the encoder gathers blocks
    into runs, the decoder gives back every block. */
module HuffmanBandScan {
  import opened Coefficients
  import opened BitString
  import opened HuffmanCodes
  import opened HuffmanBlock
  import opened Refine
  import opened HuffmanBands
  import opened HuffmanBandsInvert

  // ----- One block

  /** What the decoder holds of a block before the scan: the band one plane behind, or still zero. */
  ghost predicate BandStart(g: Band, y: seq<int>, z: seq<int>) {
    && |y| == |z| == DCTSIZE2 && BandFits(y, g.al)
    && if g.refine then OnePlaneBehind(z, y, g.ss, g.se, g.al) else BandClear(z, g.ss, g.se) && BandInRange(y, g.ss, g.se)
  }

  lemma LastNewIs(y: seq<int>, se: nat)
    requires se < |y|
    ensures LastNew(y, se) <= se && NoneNew(y, LastNew(y, se) + 1, se + 1)
  {
  }

  /** A block with symbols of its own, and at its end a run of n blocks. */
  lemma BandInverts(g: Band, c: CTable, x: DecTbl, y: seq<int>, z: seq<int>, n: nat, more: Bits)
    requires BandOk(g) && Paired(c, x) && BandStart(g, y, z) && 0 < n <= 0x7FFF && SentCoded(c, CodeOf(g, y), n)
    ensures DecodeBand(g, x, Sent(c, CodeOf(g, y), n, more), 0, z)
         == BandRead(Scaled(z, y, g.ss, g.se, g.al), Left(CodeOf(g, y), n), more)
  {
    hide *;
    StartShape(g, y, z);
    if g.refine {
      LastNewIs(y, g.se);
      RefineBand(g, c, x, y, z, n, more);
    } else {
      FirstBand(g, c, x, y, z, n, more);
    }
  }

  lemma FirstBand(g: Band, c: CTable, x: DecTbl, y: seq<int>, z: seq<int>, n: nat, more: Bits)
    requires BandOk(g) && !g.refine && Paired(c, x) && BandStart(g, y, z) && 0 < n <= 0x7FFF && SentCoded(c, CodeOf(g, y), n)
    ensures DecodeBand(g, x, Sent(c, CodeOf(g, y), n, more), 0, z)
         == BandRead(Scaled(z, y, g.ss, g.se, g.al), Left(CodeOf(g, y), n), more)
  {
    hide *;
    StartShape(g, y, z);
    FirstBandShape(g, x, Sent(c, CodeOf(g, y), n, more), y, z);
    SentIs(c, CodeOf(g, y), n, CodeOf(g, y).head + Finish(CodeOf(g, y), n), more);
    FirstInverts(c, x, y, g.ss, 0, g.se, g.al, z, n, more);
  }

  lemma StartShape(g: Band, y: seq<int>, z: seq<int>)
    requires BandOk(g) && BandStart(g, y, z)
    ensures |y| == |z| == DCTSIZE2 && 0 < g.ss <= g.se < DCTSIZE2
  {
  }

  lemma FirstBandShape(g: Band, x: DecTbl, b: Bits, y: seq<int>, z: seq<int>)
    requires BandOk(g) && !g.refine && BandStart(g, y, z)
    ensures |y| == |z| == DCTSIZE2 && 0 < g.ss <= g.se < DCTSIZE2 && CodeOf(g, y) == FirstFrom(y, g.ss, 0, g.se)
    ensures BandInRange(y, g.ss, g.se) && BandFits(y, g.al) && BandClear(z, g.ss, g.se)
    ensures DecodeBand(g, x, b, 0, z) == DecodeFirst(x, b, g.ss, g.se, g.al, z)
  {
    hide BandInRange, BandFits, BandClear, DecodeFirst, FirstFrom;
  }

  lemma RefineBand(g: Band, c: CTable, x: DecTbl, y: seq<int>, z: seq<int>, n: nat, more: Bits)
    requires BandOk(g) && g.refine && Paired(c, x) && BandStart(g, y, z) && 0 < n <= 0x7FFF && SentCoded(c, CodeOf(g, y), n)
    requires NoneNew(y, LastNew(y, g.se) + 1, g.se + 1)
    ensures DecodeBand(g, x, Sent(c, CodeOf(g, y), n, more), 0, z)
         == BandRead(Scaled(z, y, g.ss, g.se, g.al), Left(CodeOf(g, y), n), more)
  {
    var eob := LastNew(y, g.se);
    assert Behind(z, y, g.ss, g.se, g.al) && Pending(y, g.ss, g.ss, g.ss, g.se);
    assert CodeOf(g, y) == Standing(y, g.ss, g.ss, eob, g.se);
    hide Paired, SentCoded, DecodeRefine, Scaled, Sent, Left, Behind, Pending, Standing, NoneNew, CodeOf, BandFits, OnePlaneBehind;
    RefineInverts(c, x, y, g.ss, g.ss, g.ss, eob, g.se, g.al, z, n, more);
  }

  /** A block without symbols: nothing but, perhaps, correction bits. */
  lemma {:induction false} RefineHeadless(y: seq<int>, k: nat, r: nat, br: seq<bool>, eob: nat, se: nat)
    requires se < |y| && k <= se + 1 && RefineFrom(y, k, r, br, eob, se).head == []
    ensures NoneNew(y, k, se + 1) && RefineFrom(y, k, r, br, eob, se).tail == br + KnownBits(y, k, se + 1)
    decreases se + 1 - k
  {
    hide *;
    CountStep(y, k, se + 1);
    NothingAdded(br);
    if k > se {
      RestEnds(y, k, r, br, eob, se);
      NoneNewStep(y, k, se + 1);
    } else {
      RestStep(y, k, r, br, eob, se);
      HeadlessStep(y, k, r, br, eob, se);
      NoneNewStep(y, k, se + 1);
      var later := KnownBits(y, k + 1, se + 1);
      NothingAdded(later);
      if y[k] == 0 {
        RefineHeadless(y, k + 1, r + 1, br, eob, se);
      } else {
        BitsAssoc(br, [CorrectionBit(y[k])], later);
        RefineHeadless(y, k + 1, r, br + [CorrectionBit(y[k])], eob, se);
      }
    }
  }

  lemma HeadlessStep(y: seq<int>, k: nat, r: nat, br: seq<bool>, eob: nat, se: nat)
    requires k <= se < |y| && RefineFrom(y, k, r, br, eob, se).head == []
    ensures Known(y[k]) <==> y[k] != 0
    ensures y[k] != 0 ==> RefineFrom(y, k, r, br, eob, se) == RefineFrom(y, k + 1, r, br + [CorrectionBit(y[k])], eob, se)
  {
    hide CorrectionBit, BitItems;
  }

  lemma NoneNewStep(y: seq<int>, k: nat, m: nat)
    requires m <= |y|
    ensures k >= m || ((Known(y[k]) <==> y[k] != 0) && NoneNew(y, k + 1, m)) ==> NoneNew(y, k, m)
  {
  }

  lemma {:induction false} FirstHeadless(y: seq<int>, k: nat, r: nat, se: nat)
    requires se < |y| && k <= se + 1 && FirstFrom(y, k, r, se).head == []
    ensures (forall i :: k <= i <= se ==> y[i] == 0) && FirstFrom(y, k, r, se).tail == []
    decreases se + 1 - k
  {
    if k <= se {
      FirstHeadless(y, k + 1, r + 1, se);
    }
  }

  lemma NothingScaled(z: seq<int>, y: seq<int>, k: nat, se: nat, al: nat)
    requires |z| == |y| && BandClear(z, k, se) && forall i :: k <= i <= se < |y| ==> y[i] == 0
    ensures se < |y| ==> Scaled(z, y, k, se, al) == z
  {
    assert Scale(0, al) == 0;
    hide Scale;
  }

  /** A block in the middle of a run. */
  lemma TailInverts(g: Band, x: DecTbl, y: seq<int>, z: seq<int>, e: nat, more: Bits)
    requires BandOk(g) && BandStart(g, y, z) && CodeOf(g, y).head == [] && e > 0
    ensures DecodeBand(g, x, CodeOf(g, y).tail + more, e, z) == BandRead(Scaled(z, y, g.ss, g.se, g.al), e - 1, more)
  {
    if g.refine {
      RefineHeadless(y, g.ss, 0, [], LastNew(y, g.se), g.se);
      assert [] + KnownBits(y, g.ss, g.se + 1) == KnownBits(y, g.ss, g.se + 1);
      assert Behind(z, y, g.ss, g.se, g.al);
      hide Behind, KnownBits, DecodeTail, Scaled, NoneNew, RefineFrom, LastNew;
      TailOver(y, g.ss, g.se, g.al, z, more);
    } else {
      FirstHeadless(y, g.ss, 0, g.se);
      NothingScaled(z, y, g.ss, g.se, g.al);
      assert [] + more == more;
    }
  }

  // ----- Runs

  /** A block's symbols and, if it ends early, the correction bits of it and of the blocks after
      it in its run. */
  datatype Group = Group(head: seq<Item>, tails: seq<seq<bool>>)

  function Flat(tails: seq<seq<bool>>): seq<bool> {
    if tails == [] then [] else tails[0] + Flat(tails[1..])
  }

  lemma {:induction false} FlatSnoc(tails: seq<seq<bool>>, t: seq<bool>)
    ensures Flat(tails + [t]) == Flat(tails) + t
  {
    if tails == [] {
      assert [t][1..] == [] && t + [] == t && [] + t == t;
      assert tails + [t] == [t];
    } else {
      FlatSnoc(tails[1..], t);
      assert (tails + [t])[1..] == tails[1..] + [t];
    }
  }

  function GroupItems(u: Group): seq<Item> {
    u.head + if u.tails == [] then [] else EobItems(|u.tails|) + BitItems(Flat(u.tails))
  }

  /** The blocks of a group. */
  function GroupSize(u: Group): nat {
    if u.tails == [] then 1 else |u.tails|
  }

  function GroupCode(u: Group, i: nat): BandCode
    requires i < GroupSize(u)
  {
    if u.tails == [] then BandCode(u.head, false, []) else BandCode(if i == 0 then u.head else [], true, u.tails[i])
  }

  function GroupCodes(u: Group): (r: seq<BandCode>)
    ensures |r| == GroupSize(u)
  {
    seq(GroupSize(u), i requires 0 <= i < GroupSize(u) => GroupCode(u, i))
  }

  function AllItems(us: seq<Group>): seq<Item> {
    if us == [] then [] else AllItems(us[..|us| - 1]) + GroupItems(us[|us| - 1])
  }

  function AllCodes(us: seq<Group>): seq<BandCode> {
    if us == [] then [] else AllCodes(us[..|us| - 1]) + GroupCodes(us[|us| - 1])
  }

  /** No run is longer than its symbol can say. */
  ghost predicate RunsFit(us: seq<Group>) {
    forall i :: 0 <= i < |us| ==> |us[i].tails| <= 0x7FFF
  }

  // ----- Decoding a scan

  datatype BandsRead = BandsRead(zs: seq<seq<int>>, eobrun: nat, rest: Bits)

  /** The first k blocks. */
  ghost function DecodeBands(g: Band, x: DecTbl, b: Bits, zs: seq<seq<int>>, k: nat): (r: BandsRead)
    requires g.se < DCTSIZE2 && k <= |zs| && forall i :: 0 <= i < |zs| ==> |zs[i]| == DCTSIZE2
    ensures |r.zs| == k
  {
    if k == 0 then BandsRead([], 0, b) else
    var s := DecodeBands(g, x, b, zs, k - 1);
    var r := DecodeBand(g, x, s.rest, s.eobrun, zs[k - 1]);
    BandsRead(s.zs + [r.z], r.eobrun, r.rest)
  }

  /** The first k blocks at the scan's plane. */
  function Completed(g: Band, ys: seq<seq<int>>, zs: seq<seq<int>>, k: nat): (r: seq<seq<int>>)
    requires k <= |ys| == |zs| && forall i :: 0 <= i < |ys| ==> |ys[i]| == |zs[i]|
    ensures |r| == k
  {
    seq(k, i requires 0 <= i < k => Scaled(zs[i], ys[i], g.ss, g.se, g.al))
  }

  ghost predicate ScanStart(g: Band, ys: seq<seq<int>>, zs: seq<seq<int>>) {
    |ys| == |zs| && forall i :: 0 <= i < |ys| ==> BandStart(g, ys[i], zs[i])
  }

  ghost predicate Blocks(ys: seq<seq<int>>, zs: seq<seq<int>>) {
    |ys| == |zs| && forall i :: 0 <= i < |zs| ==> |zs[i]| == |ys[i]| == DCTSIZE2
  }

  lemma NextBand(g: Band, x: DecTbl, b: Bits, ys: seq<seq<int>>, zs: seq<seq<int>>, k: nat, e: nat, rest: Bits, e2: nat, rest2: Bits)
    requires g.se < DCTSIZE2 && k < |ys| && Blocks(ys, zs)
    requires DecodeBands(g, x, b, zs, k) == BandsRead(Completed(g, ys, zs, k), e, rest)
    requires DecodeBand(g, x, rest, e, zs[k]) == BandRead(Scaled(zs[k], ys[k], g.ss, g.se, g.al), e2, rest2)
    ensures DecodeBands(g, x, b, zs, k + 1) == BandsRead(Completed(g, ys, zs, k + 1), e2, rest2)
  {
    hide DecodeBand, Scaled;
    assert Completed(g, ys, zs, k + 1) == Completed(g, ys, zs, k) + [Scaled(zs[k], ys[k], g.ss, g.se, g.al)];
  }

  /** The blocks of a run after its first. */
  lemma {:induction false} RunInverts(g: Band, x: DecTbl, b: Bits, ys: seq<seq<int>>, zs: seq<seq<int>>, k: nat, tails: seq<seq<bool>>, more: Bits)
    requires BandOk(g) && ScanStart(g, ys, zs) && k + |tails| <= |ys| && Blocks(ys, zs)
    requires forall j :: k <= j < k + |tails| ==> CodeOf(g, ys[j]) == BandCode([], true, tails[j - k])
    requires DecodeBands(g, x, b, zs, k) == BandsRead(Completed(g, ys, zs, k), |tails|, Flat(tails) + more)
    ensures DecodeBands(g, x, b, zs, k + |tails|) == BandsRead(Completed(g, ys, zs, k + |tails|), 0, more)
    decreases |tails|
  {
    hide DecodeBands, Completed, BandStart, DecodeBand, CodeOf, Scaled;
    if tails == [] {
      assert [] + more == more;
    } else {
      assert CodeOf(g, ys[k]) == BandCode([], true, tails[0]);
      BitsAssoc(tails[0], Flat(tails[1..]), more);
      TailInverts(g, x, ys[k], zs[k], |tails|, Flat(tails[1..]) + more);
      NextBand(g, x, b, ys, zs, k, |tails|, Flat(tails) + more, |tails| - 1, Flat(tails[1..]) + more);
      RunInverts(g, x, b, ys, zs, k + 1, tails[1..], more);
    }
  }

  /** The items of a group are those of its first block and its run, then the other blocks' bits. */
  lemma GroupBits(c: CTable, u: Group, more: Bits)
    requires |u.tails| <= 0x7FFF
    ensures ItemsBits(c, GroupItems(u)) + more
      == Sent(c, GroupCode(u, 0), GroupSize(u), if u.tails == [] then more else Flat(u.tails[1..]) + more)
    ensures ItemsCoded(c, GroupItems(u)) ==> SentCoded(c, GroupCode(u, 0), GroupSize(u))
  {
    if u.tails != [] {
      var first, others := BitItems(u.tails[0]), BitItems(Flat(u.tails[1..]));
      assert BitItems(Flat(u.tails)) == first + others;
      var sent := u.head + (EobItems(|u.tails|) + first);
      assert GroupItems(u) == sent + others;
      assert GroupCode(u, 0).head + Finish(GroupCode(u, 0), |u.tails|) == sent;
      hide *;
      GroupCodeFirst(u);
      CodedConcat(c, sent, others);
      ItemsBitsConcat(c, sent, others);
      BitItemsBits(c, Flat(u.tails[1..]));
      BitsAssoc(ItemsBits(c, sent), Flat(u.tails[1..]), more);
      SentIs(c, GroupCode(u, 0), |u.tails|, sent, Flat(u.tails[1..]) + more);
    }
  }

  lemma GroupCodeFirst(u: Group)
    ensures GroupSize(u) > 0 && (u.tails != [] ==> GroupSize(u) == |u.tails|)
  {
  }

  lemma SentIs(c: CTable, code: BandCode, n: nat, sent: seq<Item>, more: Bits)
    requires n > 0 && code.head + Finish(code, n) == sent
    ensures Sent(c, code, n, more) == ItemsBits(c, sent) + more && (ItemsCoded(c, sent) <==> SentCoded(c, code, n))
  {
  }

  /** What the bits of a group still hold after its first block. */
  function GroupRest(u: Group, more: Bits): Bits {
    if u.tails == [] then more else Flat(u.tails[1..]) + more
  }

  lemma GroupFacts(u: Group)
    ensures GroupSize(u) > 0 && Left(GroupCode(u, 0), GroupSize(u)) == GroupSize(u) - 1
    ensures GroupSize(u) == if u.tails == [] then 1 else |u.tails|
    ensures forall i :: 0 <= i < |u.tails| - 1 ==> GroupCode(u, i + 1) == BandCode([], true, u.tails[1..][i])
  {
  }

  /** A group's first block. */
  lemma GroupBegins(g: Band, c: CTable, x: DecTbl, b: Bits, ys: seq<seq<int>>, zs: seq<seq<int>>, k: nat, u: Group, more: Bits)
    requires BandOk(g) && Paired(c, x) && ScanStart(g, ys, zs) && Blocks(ys, zs)
    requires |u.tails| <= 0x7FFF && k < |ys| && ItemsCoded(c, GroupItems(u)) && CodeOf(g, ys[k]) == GroupCode(u, 0)
    requires DecodeBands(g, x, b, zs, k) == BandsRead(Completed(g, ys, zs, k), 0, ItemsBits(c, GroupItems(u)) + more)
    ensures DecodeBands(g, x, b, zs, k + 1) == BandsRead(Completed(g, ys, zs, k + 1), GroupSize(u) - 1, GroupRest(u, more))
  {
    assert BandStart(g, ys[k], zs[k]) && g.se < DCTSIZE2;
    hide BandStart, DecodeBands, Completed, DecodeBand, CodeOf, Scaled, Sent, SentCoded, Flat, GroupItems, ItemsBits, ItemsCoded,
      GroupCode, GroupSize, Left, Paired, ScanStart;
    GroupFacts(u);
    GroupBits(c, u, more);
    BandInverts(g, c, x, ys[k], zs[k], GroupSize(u), GroupRest(u, more));
    NextBand(g, x, b, ys, zs, k, 0, ItemsBits(c, GroupItems(u)) + more, GroupSize(u) - 1, GroupRest(u, more));
  }

  /** A group, from its first block on. */
  lemma GroupInverts(g: Band, c: CTable, x: DecTbl, b: Bits, ys: seq<seq<int>>, zs: seq<seq<int>>, k: nat, u: Group, more: Bits)
    requires BandOk(g) && Paired(c, x) && ScanStart(g, ys, zs) && Blocks(ys, zs)
    requires |u.tails| <= 0x7FFF && k + GroupSize(u) <= |ys| && ItemsCoded(c, GroupItems(u))
    requires forall j :: k <= j < k + GroupSize(u) ==> CodeOf(g, ys[j]) == GroupCode(u, j - k)
    requires DecodeBands(g, x, b, zs, k) == BandsRead(Completed(g, ys, zs, k), 0, ItemsBits(c, GroupItems(u)) + more)
    ensures DecodeBands(g, x, b, zs, k + GroupSize(u)) == BandsRead(Completed(g, ys, zs, k + GroupSize(u)), 0, more)
  {
    hide DecodeBands, Completed, DecodeBand, CodeOf, Scaled, Flat, GroupItems, ItemsBits, ItemsCoded, GroupCode, GroupSize, Left, Paired, ScanStart;
    GroupFacts(u);
    assert CodeOf(g, ys[k]) == GroupCode(u, 0);
    GroupBegins(g, c, x, b, ys, zs, k, u, more);
    if u.tails != [] {
      forall j | k + 1 <= j < k + |u.tails| ensures CodeOf(g, ys[j]) == BandCode([], true, u.tails[1..][j - (k + 1)]) {
        assert CodeOf(g, ys[j]) == GroupCode(u, j - (k + 1) + 1);
      }
      RunInverts(g, x, b, ys, zs, k + 1, u.tails[1..], more);
    }
  }

  /** The codes of the blocks are those of the groups. */
  ghost predicate Grouped(g: Band, ys: seq<seq<int>>, us: seq<Group>) {
    && |AllCodes(us)| <= |ys| && (forall i :: 0 <= i < |ys| ==> g.se < |ys[i]|)
    && forall i :: 0 <= i < |AllCodes(us)| ==> CodeOf(g, ys[i]) == AllCodes(us)[i]
  }

  /** The blocks after those of vs have the codes of u. */
  ghost predicate LastCoded(g: Band, ys: seq<seq<int>>, us: seq<Group>, vs: seq<Group>, u: Group) {
    && |AllCodes(vs)| <= |AllCodes(us)| == |AllCodes(vs)| + GroupSize(u) <= |ys| && (forall i :: 0 <= i < |ys| ==> g.se < |ys[i]|)
    && forall j :: |AllCodes(vs)| <= j < |AllCodes(us)| ==> CodeOf(g, ys[j]) == GroupCode(u, j - |AllCodes(vs)|)
  }

  lemma LastGroup(g: Band, ys: seq<seq<int>>, us: seq<Group>, vs: seq<Group>, u: Group)
    requires us != [] && vs == us[..|us| - 1] && u == us[|us| - 1] && Grouped(g, ys, us)
    ensures Grouped(g, ys, vs) && LastCoded(g, ys, us, vs, u)
  {
    hide *;
    AllCodesLast(us, vs, u);
    GroupedAs(g, ys, us, vs, u);
    GroupedEnd(g, ys, us, vs, u);
  }

  lemma AllCodesLast(us: seq<Group>, vs: seq<Group>, u: Group)
    requires us != [] && vs == us[..|us| - 1] && u == us[|us| - 1]
    ensures AllCodes(us) == AllCodes(vs) + GroupCodes(u)
  {
    hide GroupCodes;
  }

  lemma GroupCodeAt(u: Group, i: nat)
    requires i < GroupSize(u)
    ensures GroupCodes(u)[i] == GroupCode(u, i)
  {
    hide GroupCode, GroupSize;
  }

  lemma GroupedEnd(g: Band, ys: seq<seq<int>>, us: seq<Group>, vs: seq<Group>, u: Group)
    requires Grouped(g, ys, us) && AllCodes(us) == AllCodes(vs) + GroupCodes(u)
    ensures LastCoded(g, ys, us, vs, u)
  {
    hide CodeOf, AllCodes, GroupCode, GroupCodes, GroupSize;
    forall j | |AllCodes(vs)| <= j < |AllCodes(us)| ensures CodeOf(g, ys[j]) == GroupCode(u, j - |AllCodes(vs)|) {
      assert AllCodes(us)[j] == GroupCodes(u)[j - |AllCodes(vs)|];
      GroupCodeAt(u, j - |AllCodes(vs)|);
    }
  }

  lemma GroupedAs(g: Band, ys: seq<seq<int>>, us: seq<Group>, vs: seq<Group>, u: Group)
    requires Grouped(g, ys, us) && AllCodes(us) == AllCodes(vs) + GroupCodes(u)
    ensures Grouped(g, ys, vs)
  {
    hide CodeOf, AllCodes, GroupCodes;
    assert forall i :: 0 <= i < |AllCodes(vs)| ==> AllCodes(us)[i] == AllCodes(vs)[i];
  }

  lemma LastGroupItems(c: CTable, us: seq<Group>, vs: seq<Group>, u: Group, more: Bits)
    requires us != [] && vs == us[..|us| - 1] && u == us[|us| - 1] && ItemsCoded(c, AllItems(us)) && RunsFit(us)
    ensures ItemsCoded(c, AllItems(vs)) && ItemsCoded(c, GroupItems(u)) && RunsFit(vs) && |u.tails| <= 0x7FFF
    ensures ItemsBits(c, AllItems(us)) + more == ItemsBits(c, AllItems(vs)) + (ItemsBits(c, GroupItems(u)) + more)
  {
    assert AllItems(us) == AllItems(vs) + GroupItems(u);
    hide ItemsCoded, ItemsBits, GroupItems, AllItems;
    CodedConcat(c, AllItems(vs), GroupItems(u));
    ItemsBitsConcat(c, AllItems(vs), GroupItems(u));
    BitsAssoc(ItemsBits(c, AllItems(vs)), ItemsBits(c, GroupItems(u)), more);
  }

  /** Decoding the groups' items completes the groups' blocks. */
  ghost predicate ReadsAll(g: Band, c: CTable, x: DecTbl, ys: seq<seq<int>>, zs: seq<seq<int>>, us: seq<Group>, more: Bits) {
    && g.se < DCTSIZE2 && Blocks(ys, zs) && |AllCodes(us)| <= |ys|
    && DecodeBands(g, x, ItemsBits(c, AllItems(us)) + more, zs, |AllCodes(us)|) == BandsRead(Completed(g, ys, zs, |AllCodes(us)|), 0, more)
  }

  lemma ReadsNext(g: Band, c: CTable, x: DecTbl, ys: seq<seq<int>>, zs: seq<seq<int>>, us: seq<Group>, vs: seq<Group>, u: Group, more: Bits)
    requires BandOk(g) && Paired(c, x) && ScanStart(g, ys, zs)
    requires us != [] && vs == us[..|us| - 1] && u == us[|us| - 1]
    requires RunsFit(us) && ItemsCoded(c, AllItems(us)) && Grouped(g, ys, us)
    ensures RunsFit(vs) && ItemsCoded(c, AllItems(vs)) && Grouped(g, ys, vs)
    ensures ReadsAll(g, c, x, ys, zs, vs, ItemsBits(c, GroupItems(u)) + more) ==> ReadsAll(g, c, x, ys, zs, us, more)
  {
    hide *;
    GroupedShape(g, ys, us);
    LastGroup(g, ys, us, vs, u);
    LastGroupItems(c, us, vs, u, more);
    if ReadsAll(g, c, x, ys, zs, vs, ItemsBits(c, GroupItems(u)) + more) {
      GroupNext(g, c, x, ys, zs, us, vs, u, more);
    }
  }

  lemma GroupedShape(g: Band, ys: seq<seq<int>>, us: seq<Group>)
    requires Grouped(g, ys, us)
    ensures |AllCodes(us)| <= |ys|
  {
  }

  lemma GroupNext(g: Band, c: CTable, x: DecTbl, ys: seq<seq<int>>, zs: seq<seq<int>>, us: seq<Group>, vs: seq<Group>, u: Group, more: Bits)
    requires BandOk(g) && Paired(c, x) && ScanStart(g, ys, zs) && |u.tails| <= 0x7FFF && ItemsCoded(c, GroupItems(u))
    requires ReadsAll(g, c, x, ys, zs, vs, ItemsBits(c, GroupItems(u)) + more) && |AllCodes(us)| <= |ys|
    requires ItemsBits(c, AllItems(us)) + more == ItemsBits(c, AllItems(vs)) + (ItemsBits(c, GroupItems(u)) + more)
    requires LastCoded(g, ys, us, vs, u)
    ensures ReadsAll(g, c, x, ys, zs, us, more)
  {
    hide BandOk, ScanStart, DecodeBands, CodeOf, Completed, GroupItems, ItemsCoded, ItemsBits, GroupCode, GroupSize, Paired, AllCodes, AllItems;
    GroupInverts(g, c, x, ItemsBits(c, AllItems(us)) + more, ys, zs, |AllCodes(vs)|, u, more);
  }

  /** Whatever runs the encoder makes of the blocks' codes, the decoder completes every block. */
  lemma {:induction false} BandsInvert(g: Band, c: CTable, x: DecTbl, ys: seq<seq<int>>, zs: seq<seq<int>>, us: seq<Group>, more: Bits)
    requires BandOk(g) && Paired(c, x) && ScanStart(g, ys, zs) && Blocks(ys, zs)
    requires RunsFit(us) && ItemsCoded(c, AllItems(us)) && Grouped(g, ys, us)
    ensures ReadsAll(g, c, x, ys, zs, us, more)
    decreases |us|
  {
    assert g.se < DCTSIZE2;
    hide *;
    if us == [] {
      NothingYet(g, c, x, ys, zs, us, more);
    } else {
      var vs, u := us[..|us| - 1], us[|us| - 1];
      ReadsNext(g, c, x, ys, zs, us, vs, u, more);
      BandsInvert(g, c, x, ys, zs, vs, ItemsBits(c, GroupItems(u)) + more);
    }
  }

  lemma NothingYet(g: Band, c: CTable, x: DecTbl, ys: seq<seq<int>>, zs: seq<seq<int>>, us: seq<Group>, more: Bits)
    requires g.se < DCTSIZE2 && Blocks(ys, zs) && us == []
    ensures ReadsAll(g, c, x, ys, zs, us, more)
  {
    NoItems(c, more);
    assert Completed(g, ys, zs, 0) == [];
  }
}
