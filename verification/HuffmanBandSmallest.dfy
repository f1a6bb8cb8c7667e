/** The coefficient -0x8000 in progressive AC scans: exactly when a refinement sends other symbols
    than it should, and blocks at which that loses the image, or the program's tables. */
module HuffmanBandSmallest {
  import opened Coefficients
  import opened Powers
  import opened Digits
  import opened BitString
  import opened HuffmanCodes
  import opened HuffmanBlock
  import opened HuffmanReader
  import opened NaturalOrder
  import opened Refine
  import opened Scans
  import opened HuffmanBands
  import opened HuffmanBandStore
  import opened HuffmanBandScan
  import opened HuffmanBandEncoder
  import opened HuffmanBandCodec
  import opened HuffmanBandGather

  // ----- Symbols of new coefficients in a scan

  /** Symbols of new coefficients among the blocks' own. */
  function NewInHeads(codes: seq<BandCode>): nat {
    if codes == [] then 0 else NewInHeads(codes[..|codes| - 1]) + NewSymbols(codes[|codes| - 1].head)
  }

  lemma NewInRun(n: nat, bits: seq<bool>)
    requires n > 0
    ensures NewSymbols(EobItems(n)) == 0 && NewSymbols(EobItems(n) + BitItems(bits)) == 0
  {
    hide NBits;
    var s := (NBits(n) - 1) * 16;
    NBitsBounds(n);
    assert EobRaw(n) == [] || EobRaw(n) == [Raw(n - Pow2(NBits(n) - 1), NBits(n) - 1)];
    assert [Symbol(s)][1..] == [] && (|EobRaw(n)| == 1 ==> EobRaw(n)[1..] == []);
    assert NewSymbols([Symbol(s)]) == 0 && NewSymbols(EobRaw(n)) == 0;
    NewConcat([Symbol(s)], EobRaw(n));
    NoneInBits(bits);
    NewConcat(EobItems(n), BitItems(bits));
  }

  lemma NewInGroup(u: Group)
    ensures NewSymbols(GroupItems(u)) == NewSymbols(u.head)
  {
    hide NewSymbols, EobItems, BitItems, Flat;
    if u.tails == [] {
      assert u.head + [] == u.head;
    } else {
      NewInRun(|u.tails|, Flat(u.tails));
      NewConcat(u.head, EobItems(|u.tails|) + BitItems(Flat(u.tails)));
    }
  }

  lemma NewWithGroup(us: seq<Group>, u: Group)
    ensures NewSymbols(AllItems(us + [u])) == NewSymbols(AllItems(us)) + NewSymbols(u.head)
  {
    hide NewSymbols, AllItems;
    AddGroup(us, u);
    NewConcat(AllItems(us), GroupItems(u));
    NewInGroup(u);
  }

  lemma {:induction false} NewInScan(codes: seq<BandCode>)
    ensures NewSymbols(AllItems(RunsOf(codes).us)) == NewInHeads(codes)
    decreases |codes|
  {
    if codes != [] {
      NewInScan(codes[..|codes| - 1]);
      hide *;
      HeadsLast(codes);
      NewAdded(RunsOf(codes[..|codes| - 1]), codes[|codes| - 1]);
    }
  }

  lemma HeadsLast(codes: seq<BandCode>)
    requires codes != []
    ensures RunsOf(codes) == AddCode(RunsOf(codes[..|codes| - 1]), codes[|codes| - 1])
    ensures NewInHeads(codes) == NewInHeads(codes[..|codes| - 1]) + NewSymbols(codes[|codes| - 1].head)
  {
  }

  lemma NewAdded(s: Runs, c: BandCode)
    ensures NewSymbols(AllItems(AddCode(s, c).us)) == NewSymbols(AllItems(s.us)) + NewSymbols(c.head)
  {
    hide NewSymbols, AllItems, TakesMore;
    if c.ended && c.head == [] && s.open && s.us != [] {
      var ws, u := s.us[..|s.us| - 1], s.us[|s.us| - 1];
      assert s.us == ws + [u];
      NewWithGroup(ws, u);
      NewWithGroup(ws, Group(u.head, u.tails + [c.tail]));
      NoNew();
    } else {
      NewWithGroup(s.us, Group(c.head, if c.ended then [c.tail] else []));
    }
  }

  lemma NoNew()
    ensures NewSymbols([]) == 0
  {
  }

  // ----- What a scan sends and what it should send

  function CodesAsked(g: Band, ys: seq<Block>): (r: seq<BandCode>)
    requires g.se < DCTSIZE2
    ensures |r| == |ys| && forall i :: 0 <= i < |ys| ==> r[i] == CodeOf(g, ys[i])
  {
    seq(|ys|, i requires 0 <= i < |ys| => CodeOf(g, ys[i]))
  }

  /** What the scan's specification has it emit. */
  function ItemsAsked(g: Band, ys: seq<Block>): seq<Item>
    requires g.se < DCTSIZE2
  {
    AllItems(RunsOf(CodesAsked(g, ys)).us)
  }

  lemma {:induction false} MoreInAll(sent: seq<BandCode>, asked: seq<BandCode>)
    requires |sent| == |asked| && forall i :: 0 <= i < |sent| ==> NewSymbols(sent[i].head) >= NewSymbols(asked[i].head)
    ensures NewInHeads(sent) >= NewInHeads(asked)
    ensures NewInHeads(sent) == NewInHeads(asked) ==> forall i :: 0 <= i < |sent| ==> NewSymbols(sent[i].head) == NewSymbols(asked[i].head)
    decreases |sent|
  {
    if sent != [] {
      MoreInAll(sent[..|sent| - 1], asked[..|sent| - 1]);
      hide NewSymbols;
      assert forall i :: 0 <= i < |sent| - 1 ==> sent[..|sent| - 1][i] == sent[i] && asked[..|sent| - 1][i] == asked[i];
    }
  }

  /** The program sends new coefficients where there are none, if a block cannot be stored. */
  lemma MoreInBlock(g: Band, bs: seq<Block>, n: nat)
    requires BandOk(g) && g.refine && AllWords(bs) && n < |bs|
    ensures var ys := AllTransformed(bs, g.al);
      var sent, asked := NewSymbols(BandCodes(g, ys)[n].head), NewSymbols(CodesAsked(g, ys)[n].head);
      sent >= asked && (sent == asked ==> Storable(g, bs[n]))
  {
    hide CodeOf, CodeSent, NewSymbols, Storable, Transform, Words, NoSmallest;
    StorableIff(g, bs[n]);
    SentIff(g, Transform(bs[n], g.al));
  }

  lemma MoreSent(g: Band, bs: seq<Block>)
    requires BandOk(g) && g.refine && AllWords(bs) && g.se < DCTSIZE2
    requires BandItems(g, AllTransformed(bs, g.al)) == ItemsAsked(g, AllTransformed(bs, g.al))
    ensures AllStorable(g, bs)
  {
    var ys := AllTransformed(bs, g.al);
    var sent, asked := BandCodes(g, ys), CodesAsked(g, ys);
    NewInScan(sent);
    NewInScan(asked);
    hide CodeOf, CodeSent, NewSymbols, NewInHeads, Storable, Transform, RunsOf, AllItems, Words;
    forall i | 0 <= i < |bs| ensures NewSymbols(sent[i].head) >= NewSymbols(asked[i].head) {
      MoreInBlock(g, bs, i);
    }
    MoreInAll(sent, asked);
    forall i | 0 <= i < |bs| ensures Storable(g, bs[i]) {
      MoreInBlock(g, bs, i);
    }
  }

  /** A scan emits what its specification asks for if and only if every block can be stored. */
  lemma ScanSentIff(g: Band, bs: seq<Block>)
    requires BandOk(g) && AllWords(bs)
    ensures g.se < DCTSIZE2
    ensures var ys := AllTransformed(bs, g.al); BandItems(g, ys) == ItemsAsked(g, ys) <==> !g.refine || AllStorable(g, bs)
  {
    var ys := AllTransformed(bs, g.al);
    var sent, asked := BandCodes(g, ys), CodesAsked(g, ys);
    if g.refine && BandItems(g, ys) == ItemsAsked(g, ys) {
      MoreSent(g, bs);
    }
    if !g.refine || AllStorable(g, bs) {
      hide CodeOf, CodeSent, NewSymbols, NewInHeads, Storable, Transform, Words, NoSmallest, RunsOf, AllItems;
      forall i | 0 <= i < |bs| ensures sent[i] == asked[i] {
        StorableIff(g, bs[i]);
        SentIff(g, ys[i]);
      }
      assert sent == asked;
    }
    hide *;
  }

  // ----- Blocks at which it fails

  function SmallestAt(k: nat): Block {
    seq(64, i requires 0 <= i < 64 => if i == k then SMALLEST else 0)
  }

  lemma Untransformed(b: Block)
    ensures Transform(b, 0) == b && AllTransformed([b], 0) == [b]
  {
    assert Pow2(0) == 1;
    assert forall k :: 0 <= k < 64 ==> Transform(b, 0)[k] == b[k];
    assert AllTransformed([b], 0)[0] == b;
  }

  lemma {:induction false} OverZeros(y: seq<int>, k: nat, r: nat, m: nat, eob: nat, se: nat)
    requires k <= m <= se < |y| && forall i :: k <= i < m ==> y[i] == 0
    ensures RefineFrom(y, k, r, [], eob, se) == RefineFrom(y, m, r + m - k, [], eob, se)
    decreases m - k
  {
    if k < m {
      OverZeros(y, k + 1, r + 1, m, eob, se);
    }
  }

  /** A refinement of a block with the smallest word alone, at the end of its band. */
  lemma SmallestCode(k: nat)
    requires 1 <= k < 64
    ensures CodeSent(Band(1, k, 0, true), SmallestAt(k)) == BandCode([Symbol((k - 1) * 16 + 1), Raw(0, 1)], false, [])
    ensures CodeOf(Band(1, k, 0, true), SmallestAt(k)) == BandCode([], true, [false])
  {
    var b := SmallestAt(k);
    var t, eob := AllTaken(b), LastNew(b, k);
    TakenIs(SMALLEST);
    TakenIs(0);
    assert t[k] == -1 && forall i :: 1 <= i < k ==> t[i] == 0;
    assert eob == 0 by { LastNewIs(b, k); }
    OverZeros(t, 1, 0, k, eob, k);
    OverZeros(b, 1, 0, k, eob, k);
    NoBitItems();
    assert RefineFrom(t, k, k - 1, [], eob, k).head == NewItems(k - 1, true) + BitItems([]) + [];
    assert [] + [CorrectionBit(SMALLEST)] == [false];
  }

  lemma NoBitItems()
    ensures BitItems([]) == []
  {
  }

  lemma OneBlock(g: Band, b: Block, ys: seq<Item>)
    requires g.se < DCTSIZE2 && CodeSent(g, b) == BandCode(ys, false, [])
    ensures BandItems(g, [b]) == ys
  {
    hide CodeSent;
    var codes := BandCodes(g, [b]);
    assert codes == [BandCode(ys, false, [])] && codes[..0] == [];
    assert RunsOf(codes).us == [] + [Group(ys, [])];
    AddGroup([], Group(ys, []));
    assert AllItems([]) + (ys + []) == ys;
  }

  /** Decoding a refinement of coefficient 1 alone changes coefficient 2. */
  ghost predicate Beside(x: DecTbl, b: Bits) {
    DecodeBands(Band(1, 1, 0, true), x, b, [SmallestAt(1)], 1).zs[0][2] == -1
  }

  /** In a band from 1 to 1 the refinement sends a new coefficient that no decoder can place there:
      one that held the block exactly puts it beside the band. */
  lemma LostBlock(c: CTable, x: DecTbl, tail: seq<byte>)
    requires Paired(c, x) && HasCode(c, 1)
    requires |tail| >= 2 && tail[0] == 0xFF && 0 < tail[1] < 0xFF
    ensures var g, bs := Band(1, 1, 0, true), [SmallestAt(1)];
      && AllWords(bs) && AllBefore(g, bs, bs)
      && AllHaveSizes(c, BandItems(g, AllTransformed(bs, 0)))
      && Beside(x, Unpack(Segment(BandBytes(c, g, bs) + tail)))
      && !ReadBack(g, x, BandBytes(c, g, bs) + tail, bs, bs)
  {
    hide *;
    LostBefore();
    SizeOfNew(c);
    LostBytes(c);
    var bits := ItemsBits(c, [Symbol(1), Raw(0, 1)]);
    FinishedRead(bits, tail);
    LostDecoded(c, x, Padding(|bits|));
    NotGained(Band(1, 1, 0, true), x, Finished(bits) + tail);
  }

  lemma LostBytes(c: CTable)
    ensures var g, bs, ys := Band(1, 1, 0, true), [SmallestAt(1)], [Symbol(1), Raw(0, 1)];
      g.se < DCTSIZE2 && BandItems(g, AllTransformed(bs, 0)) == ys && BandBytes(c, g, bs) == Finished(ItemsBits(c, ys))
  {
    hide CodeSent, AllTransformed, BandItems, ItemsBits, Finished;
    SmallestCode(1);
    Untransformed(SmallestAt(1));
    OneBlock(Band(1, 1, 0, true), SmallestAt(1), [Symbol(1), Raw(0, 1)]);
  }

  lemma LostBefore()
    ensures var g, bs := Band(1, 1, 0, true), [SmallestAt(1)];
      g.se < DCTSIZE2 && |bs[0]| == DCTSIZE2 && AllWords(bs) && AllBefore(g, bs, bs)
  {
    var b := SmallestAt(1);
    assert Pow2(1) == 2;
    assert Approx(SMALLEST, 1, 1) == SMALLEST;
    assert HoldsPlane(b, b, 1, 1, 1);
  }

  lemma SizeOfNew(c: CTable)
    requires HasCode(c, 1)
    ensures AllHaveSizes(c, [Symbol(1), Raw(0, 1)])
  {
  }

  lemma OneNewBits(c: CTable, more: Bits)
    ensures ItemsBits(c, [Symbol(1), Raw(0, 1)]) + more == BitsOf(Entry(c.ehufco, 1), Entry(c.ehufsi, 1)) + ([false] + more)
  {
    hide Entry;
    var ys := [Symbol(1), Raw(0, 1)];
    assert ys[1..] == [Raw(0, 1)] && ys[1..][1..] == [];
    var code := BitsOf(Entry(c.ehufco, 1), Entry(c.ehufsi, 1));
    assert BitsOf(0, 1) == [false] by { assert BitsOf(0, 0) == []; }
    assert ItemsBits(c, ys) == ItemBits(c, ys[0]) + ItemsBits(c, [Raw(0, 1)]);
    assert ItemsBits(c, [Raw(0, 1)]) == BitsOf(0, 1) + ItemsBits(c, []);
    assert [false] + [] == [false];
    hide ItemsBits, BitsOf;
    assert code + [false] + more == code + ([false] + more);
  }

  lemma LostDecoded(c: CTable, x: DecTbl, more: Bits)
    requires Paired(c, x) && HasCode(c, 1)
    ensures Beside(x, ItemsBits(c, [Symbol(1), Raw(0, 1)]) + more)
  {
    hide *;
    OneNewBits(c, more);
    SymbolInverts(c, x, 1, [false] + more);
    FirstBit(false, more);
    LostRun(x, ItemsBits(c, [Symbol(1), Raw(0, 1)]) + more, more);
  }

  lemma LostRun(x: DecTbl, bits: Bits, more: Bits)
    requires NextSymbol(x, bits) == (1, [false] + more) && Window([false] + more, 1) == 0 && Drop([false] + more, 1) == more
    ensures Beside(x, bits)
  {
    var g, b := Band(1, 1, 0, true), SmallestAt(1);
    hide NextSymbol, Window, Drop, CorrectOnce;
    var a := Advance(more, 1, 0, 1, 0, b);
    assert a.k == 2 by { assert Advance(Drop(more, 1), 2, 0, 1, 0, b[1 := CorrectOnce(b[1], Window(more, 1) == 1, 0)]).k == 2; }
    Appears();
    var z := a.z[Slot(2) := Appear(true, 0)];
    assert DecodeRefine(x, bits, 1, 1, 0, b) == DecodeRefine(x, a.rest, 3, 1, 0, z);
    assert DecodeBand(g, x, bits, 0, b).z[2] == -1;
    assert DecodeBands(g, x, bits, [b], 0) == BandsRead([], 0, bits);
  }

  lemma FirstBit(bit: bool, more: Bits)
    ensures Window([bit] + more, 1) == (if bit then 1 else 0) && Drop([bit] + more, 1) == more
  {
    var b := [bit] + more;
    assert b[..1] == [bit];
    var v := if bit then 1 else 0;
    assert BitsOf(v, 1) == [bit] by { assert BitsOf(0, 0) == []; }
    assert Pow2(1) == 2;
    hide BitsOf;
    WindowExact(b, v, 1);
  }

  lemma Appears()
    ensures Appear(true, 0) == -1
  {
    assert Pow2(0) == 1;
  }

  lemma NotGained(g: Band, x: DecTbl, whole: seq<byte>)
    requires g == Band(1, 1, 0, true) && Beside(x, Unpack(Segment(whole)))
    ensures !ReadBack(g, x, whole, [SmallestAt(1)], [SmallestAt(1)])
  {
    hide DecodeBands, Unpack, Segment, HoldsPlane;
    assert SmallestAt(1)[2] == 0;
  }

  /** After sixteen zeros it sends a symbol that is no byte, for which there is neither a count nor a code. */
  lemma WildBlock()
    ensures var g, bs := Band(1, 17, 0, true), [SmallestAt(17)];
      && g.se < DCTSIZE2 && AllWords(bs) && BandItems(g, AllTransformed(bs, 0)) == [Symbol(257), Raw(0, 1)]
      && Wild(BandItems(g, AllTransformed(bs, 0)))
  {
    var g, b := Band(1, 17, 0, true), SmallestAt(17);
    hide CodeSent, AllTransformed, BandItems;
    SmallestCode(17);
    Untransformed(b);
    OneBlock(g, b, [Symbol(257), Raw(0, 1)]);
    assert BandItems(g, [b])[0].Symbol?;
  }

  /** In a first pass it stops the scan, at a table that has no entry for it. */
  lemma StoppedBlock()
    ensures var g, bs := Band(1, 1, 0, false), [SmallestAt(1)];
      AllWords(bs) && SmallestStops(g, AllTransformed(bs, 0))
  {
    var g, b := Band(1, 1, 0, false), SmallestAt(1);
    Untransformed(b);
    hide AllTransformed;
    assert b[1] == SMALLEST && RangeUpTo(b, 1, 1);
    assert SmallestFirst(b, 1, 1);
    assert FirstInRange(g, [b], 0);
  }

  /** The first bit of the code for a new coefficient after no zeros is 0. */
  ghost predicate CodeStartsLow(c: CTable) {
    var code := BitsOf(Entry(c.ehufco, 1), Entry(c.ehufsi, 1));
    code != [] && !code[0]
  }

  /** A decoder that has lost its way may still end on the block: here the correction bit it takes for
      the smallest word is the first of the next symbol's code. */
  lemma LuckyBlock(c: CTable, x: DecTbl, tail: seq<byte>)
    requires Paired(c, x) && HasCode(c, 1) && CodeStartsLow(c)
    requires |tail| >= 2 && tail[0] == 0xFF && 0 < tail[1] < 0xFF
    ensures var g, bs, zs := Band(1, 2, 0, true), [LuckyOne()], [SmallestAt(1)];
      && AllWords(bs) && AllBefore(g, bs, zs) && !AllStorable(g, bs)
      && ReadBack(g, x, BandBytes(c, g, bs) + tail, bs, zs)
  {
    hide *;
    LuckyBefore();
    LuckyBytes(c);
    var bits := ItemsBits(c, NewItems(0, true) + NewItems(0, true));
    FinishedRead(bits, tail);
    LuckyDecoded(c, x, Padding(|bits|));
    LuckyGained(x, Finished(bits) + tail);
  }

  lemma LuckyBytes(c: CTable)
    ensures var g, bs, ys := Band(1, 2, 0, true), [LuckyOne()], NewItems(0, true) + NewItems(0, true);
      g.se < DCTSIZE2 && BandBytes(c, g, bs) == Finished(ItemsBits(c, ys))
  {
    hide CodeSent, AllTransformed, BandItems, ItemsBits, Finished, NewItems;
    LuckyCode();
    Untransformed(LuckyOne());
    OneBlock(Band(1, 2, 0, true), LuckyOne(), NewItems(0, true) + NewItems(0, true));
  }

  function LuckyOne(): Block {
    SmallestAt(1)[2 := -1]
  }

  lemma LuckyBefore()
    ensures var g, bs, zs := Band(1, 2, 0, true), [LuckyOne()], [SmallestAt(1)];
      g.se < DCTSIZE2 && |zs[0]| == DCTSIZE2 && AllWords(bs) && AllBefore(g, bs, zs) && !AllStorable(g, bs)
  {
    var b, z := LuckyOne(), SmallestAt(1);
    assert Pow2(1) == 2;
    assert Approx(SMALLEST, 1, 1) == SMALLEST && Approx(-1, 2, 1) == 0;
    assert HoldsPlane(z, b, 1, 2, 1);
    assert b[1] == SMALLEST && !Storable(Band(1, 2, 0, true), b);
  }

  lemma LuckyCode()
    ensures CodeSent(Band(1, 2, 0, true), LuckyOne()) == BandCode(NewItems(0, true) + NewItems(0, true), false, [])
  {
    var b := LuckyOne();
    var t, eob := AllTaken(b), LastNew(b, 2);
    TakenIs(SMALLEST);
    TakenIs(-1);
    assert t[1] == -1 && t[2] == -1;
    NoBitItems();
    var ys := NewItems(0, true);
    hide NewItems, AllTaken;
    assert RefineFrom(t, 3, 0, [], eob, 2) == BandCode([], false, []);
    assert ys + [] + [] == ys;
    assert RefineFrom(t, 2, 0, [], eob, 2) == BandCode(ys, false, []);
    assert ys + [] + ys == ys + ys;
  }

  lemma LuckyDecoded(c: CTable, x: DecTbl, more: Bits)
    requires Paired(c, x) && HasCode(c, 1) && CodeStartsLow(c)
    ensures DecodeBands(Band(1, 2, 0, true), x, ItemsBits(c, NewItems(0, true) + NewItems(0, true)) + more, [SmallestAt(1)], 1).zs == [LuckyOne()]
  {
    hide *;
    var ys := [Symbol(1), Raw(0, 1)];
    var rest := ItemsBits(c, ys) + more;
    CodeHead(c, more);
    ItemsBitsConcat(c, ys, ys);
    BitsAssoc(ItemsBits(c, ys), ItemsBits(c, ys), more);
    OneNewBits(c, rest);
    NewIs();
    SymbolInverts(c, x, 1, [false] + rest);
    FirstBit(false, rest);
    LuckyRun(x, ItemsBits(c, ys + ys) + more, rest);
  }

  lemma NewIs()
    ensures NewItems(0, true) == [Symbol(1), Raw(0, 1)]
  {
  }

  /** The bits begin as the code does. */
  lemma CodeHead(c: CTable, more: Bits)
    requires HasCode(c, 1) && CodeStartsLow(c)
    ensures Window(ItemsBits(c, [Symbol(1), Raw(0, 1)]) + more, 1) == 0
  {
    hide ItemsBits, BitsOf, Entry, Window;
    var code, b := BitsOf(Entry(c.ehufco, 1), Entry(c.ehufsi, 1)), ItemsBits(c, [Symbol(1), Raw(0, 1)]) + more;
    OneNewBits(c, more);
    assert b == [false] + (code[1..] + ([false] + more));
    FirstBit(false, code[1..] + ([false] + more));
  }

  lemma LuckyRun(x: DecTbl, bits: Bits, rest: Bits)
    requires NextSymbol(x, bits) == (1, [false] + rest) && Window([false] + rest, 1) == 0 && Drop([false] + rest, 1) == rest
    requires Window(rest, 1) == 0
    ensures DecodeBands(Band(1, 2, 0, true), x, bits, [SmallestAt(1)], 1).zs == [LuckyOne()]
  {
    var g, b := Band(1, 2, 0, true), SmallestAt(1);
    hide NextSymbol, Window, Drop;
    var a := Advance(rest, 1, 0, 2, 0, b);
    assert b[1 := b[1]] == b;
    assert a == Advance(Drop(rest, 1), 2, 0, 2, 0, b);
    assert a.k == 2 && a.z == b;
    Appears();
    assert DecodeRefine(x, bits, 1, 2, 0, b) == DecodeRefine(x, a.rest, 3, 2, 0, LuckyOne());
    assert DecodeBand(g, x, bits, 0, b).z == LuckyOne();
    assert DecodeBands(g, x, bits, [b], 0) == BandsRead([], 0, bits);
  }

  lemma LuckyGained(x: DecTbl, whole: seq<byte>)
    requires |SmallestAt(1)| == DCTSIZE2 && Band(1, 2, 0, true).se < DCTSIZE2
    requires DecodeBands(Band(1, 2, 0, true), x, Unpack(Segment(whole)), [SmallestAt(1)], 1).zs == [LuckyOne()]
    ensures ReadBack(Band(1, 2, 0, true), x, whole, [LuckyOne()], [SmallestAt(1)])
  {
    hide DecodeBands, Unpack, Segment;
    assert Pow2(0) == 1;
    assert HoldsPlane(LuckyOne(), LuckyOne(), 1, 2, 0);
  }
}
