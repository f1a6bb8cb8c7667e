/** Progressive AC scans under Huffman coding (jcphuff.c, jdphuff.c, section G.1.2 of Rec. ITU-T
    T.81): what a block's band is coded as, end-of-band runs, and that decoding gives the band
    back at the new bit plane. */
module HuffmanBands {
  import opened Coefficients
  import opened Powers
  import opened BitString
  import opened HuffmanCodes
  import opened HuffmanBlock
  import opened Refine

  // ----- Symbols and raw bits

  /** A call of emit_symbol or of emit_bits. */
  datatype Item = Symbol(s: nat) | Raw(v: nat, n: nat)

  function ItemBits(c: CTable, y: Item): Bits {
    match y
    case Symbol(s) => BitsOf(Entry(c.ehufco, s), Entry(c.ehufsi, s))
    case Raw(v, n) => BitsOf(v, n)
  }

  function ItemsBits(c: CTable, ys: seq<Item>): Bits {
    if ys == [] then [] else ItemBits(c, ys[0]) + ItemsBits(c, ys[1..])
  }

  /** Every symbol has a code. */
  ghost predicate ItemsCoded(c: CTable, ys: seq<Item>) {
    forall i :: 0 <= i < |ys| && ys[i].Symbol? ==> HasCode(c, ys[i].s)
  }

  lemma {:induction false} ItemsBitsConcat(c: CTable, xs: seq<Item>, ys: seq<Item>)
    ensures ItemsBits(c, xs + ys) == ItemsBits(c, xs) + ItemsBits(c, ys)
  {
    if xs == [] {
      assert xs + ys == ys;
    } else {
      assert (xs + ys)[0] == xs[0] && (xs + ys)[1..] == xs[1..] + ys;
      assert ItemsBits(c, xs + ys) == ItemBits(c, xs[0]) + ItemsBits(c, xs[1..] + ys);
      assert ItemsBits(c, xs) == ItemBits(c, xs[0]) + ItemsBits(c, xs[1..]);
      hide ItemsBits, ItemBits;
      ItemsBitsConcat(c, xs[1..], ys);
      BitsAssoc(ItemBits(c, xs[0]), ItemsBits(c, xs[1..]), ItemsBits(c, ys));
    }
  }

  lemma ItemsBitsCons(c: CTable, y: Item, ys: seq<Item>)
    ensures ItemsBits(c, [y] + ys) == ItemBits(c, y) + ItemsBits(c, ys)
  {
    assert ([y] + ys)[1..] == ys;
  }

  /** One raw bit for each correction bit. */
  function BitItems(bits: seq<bool>): (r: seq<Item>)
    ensures |r| == |bits|
  {
    seq(|bits|, i requires 0 <= i < |bits| => Raw(if bits[i] then 1 else 0, 1))
  }

  lemma {:induction false} BitItemsBits(c: CTable, bits: seq<bool>)
    ensures ItemsBits(c, BitItems(bits)) == bits
  {
    if bits != [] {
      BitItemsBits(c, bits[1..]);
      assert BitItems(bits)[1..] == BitItems(bits[1..]);
      assert BitsOf(BitItems(bits)[0].v, 1) == [bits[0]];
      assert bits == [bits[0]] + bits[1..];
    }
  }

  // ----- What a band is coded as

  /** Symbols and bits up to the last coefficient that needs a symbol; then, if anything is
      left, an end of band and the correction bits of what is left. */
  datatype BandCode = BandCode(head: seq<Item>, ended: bool, tail: seq<bool>)

  function Prefixed(xs: seq<Item>, c: BandCode): BandCode {
    c.(head := xs + c.head)
  }

  function ZrlItems(r: nat): seq<Item> {
    if r < 16 then [] else [Symbol(0xF0)] + ZrlItems(r - 16)
  }

  /** First pass, from coefficient k on, after r zeros; y is the transformed block. */
  function FirstFrom(y: seq<int>, k: nat, r: nat, se: nat): BandCode
    requires se < |y|
    decreases if k <= se then se + 1 - k else 0
  {
    if k > se then BandCode([], r > 0, [])
    else if y[k] == 0 then FirstFrom(y, k + 1, r + 1, se)
    else Prefixed(ZrlItems(r) + FirstValue(r % 16, y[k]), FirstFrom(y, k + 1, 0, se))
  }

  function FirstValue(run: nat, v: int): seq<Item> {
    [Symbol(run * 16 + NBits(Abs(v))), Raw(ExtraOf(v), NBits(Abs(v)))]
  }

  /** The last coefficient up to k that becomes nonzero in this scan, or 0. */
  function LastNew(y: seq<int>, k: nat): (r: nat)
    requires k < |y|
    ensures r <= k && (forall i :: r < i <= k ==> Abs(y[i]) != 1) && (r > 0 ==> Abs(y[r]) == 1)
  {
    if k == 0 || Abs(y[k]) == 1 then k else LastNew(y, k - 1)
  }

  /** Refinement, from coefficient k on, after r zeros and the correction bits br; eob is the last
      new coefficient. */
  function RefineFrom(y: seq<int>, k: nat, r: nat, br: seq<bool>, eob: nat, se: nat): BandCode
    requires se < |y|
    decreases if k <= se then se + 1 - k else 0, r
  {
    if k > se then BandCode([], r > 0 || br != [], br)
    else if y[k] == 0 then RefineFrom(y, k + 1, r + 1, br, eob, se)
    else if r > 15 && k <= eob then Prefixed([Symbol(0xF0)] + BitItems(br), RefineFrom(y, k, r - 16, [], eob, se))
    else if Known(y[k]) then RefineFrom(y, k + 1, r, br + [CorrectionBit(y[k])], eob, se)
    else Prefixed(NewItems(r, y[k] < 0) + BitItems(br), RefineFrom(y, k + 1, 0, [], eob, se))
  }

  function CorrectionBit(v: int): bool {
    Abs(v) % 2 == 1
  }

  function NewItems(r: nat, negative: bool): seq<Item> {
    [Symbol(r * 16 + 1), Raw(if negative then 0 else 1, 1)]
  }

  // ----- Decoding (jdphuff.c)

  datatype BandRead = BandRead(z: seq<int>, eobrun: nat, rest: Bits)

  /** The coefficient loop of decode_mcu_AC_first; z is in zigzag order. */
  ghost function DecodeFirst(x: DecTbl, b: Bits, k: nat, se: nat, al: nat, z: seq<int>): (r: BandRead)
    requires |z| == DCTSIZE2
    ensures |r.z| == DCTSIZE2
    decreases if k <= se then se + 1 - k else 0
  {
    if k > se then BandRead(z, 0, b) else
    var (s, b1) := NextSymbol(x, b);
    var run, n := s / 16, s % 16;
    if n > 0 then
      DecodeFirst(x, Drop(b1, n), k + run + 1, se, al, z[Slot(k + run) := ToCoef(Scale(Extend(Window(b1, n), n), al))])
    else if run == 15 then DecodeFirst(x, b1, k + 16, se, al, z)
    else BandRead(z, Run(b1, run) - 1, Drop(b1, run))
  }

  /** The length of an end-of-band run. */
  function Run(b: Bits, n: nat): (r: nat)
    ensures r > 0
  {
    Pow2(n) + Window(b, n)
  }

  /** A held coefficient and its correction bit; nothing if the plane is already set. */
  function CorrectOnce(v: int, bit: bool, al: nat): int {
    if bit && Floor(v, al) % 2 == 0 then Correct(v, al) else v
  }

  datatype Advanced = Advanced(z: seq<int>, k: nat, rest: Bits)

  /** Over nonzero coefficients, each with its correction bit, and r zeros. */
  ghost function Advance(b: Bits, k: nat, r: nat, se: nat, al: nat, z: seq<int>): (a: Advanced)
    requires |z| == DCTSIZE2 && se < DCTSIZE2
    ensures |a.z| == DCTSIZE2 && a.k >= k
    decreases if k <= se then se + 1 - k else 0
  {
    if k > se then Advanced(z, k, b)
    else if z[k] != 0 then Advance(Drop(b, 1), k + 1, r, se, al, z[k := CorrectOnce(z[k], Window(b, 1) == 1, al)])
    else if r == 0 then Advanced(z, k, b)
    else Advance(b, k + 1, r - 1, se, al, z)
  }

  /** The rest of a band without new coefficients. */
  ghost function DecodeTail(b: Bits, k: nat, se: nat, al: nat, z: seq<int>): (r: (seq<int>, Bits))
    requires |z| == DCTSIZE2 && se < DCTSIZE2
    ensures |r.0| == DCTSIZE2
    decreases if k <= se then se + 1 - k else 0
  {
    if k > se then (z, b)
    else if z[k] != 0 then DecodeTail(Drop(b, 1), k + 1, se, al, z[k := CorrectOnce(z[k], Window(b, 1) == 1, al)])
    else DecodeTail(b, k + 1, se, al, z)
  }

  /** The coefficient loop of decode_mcu_AC_refine. */
  ghost function DecodeRefine(x: DecTbl, b: Bits, k: nat, se: nat, al: nat, z: seq<int>): (r: BandRead)
    requires |z| == DCTSIZE2 && se < DCTSIZE2
    ensures |r.z| == DCTSIZE2
    decreases if k <= se then se + 1 - k else 0
  {
    if k > se then BandRead(z, 0, b) else
    var (s, b1) := NextSymbol(x, b);
    var run := s / 16;
    if s % 16 > 0 then
      var a := Advance(Drop(b1, 1), k, run, se, al, z);
      DecodeRefine(x, a.rest, a.k + 1, se, al, a.z[Slot(a.k) := Appear(Window(b1, 1) == 0, al)])
    else if run == 15 then
      var a := Advance(b1, k, run, se, al, z);
      DecodeRefine(x, a.rest, a.k + 1, se, al, a.z)
    else
      var (z2, b2) := DecodeTail(Drop(b1, run), k, se, al, z);
      BandRead(z2, Run(b1, run) - 1, b2)
  }

  /** Which scan it is: band, bit plane, and whether it is a refinement. */
  datatype Band = Band(ss: nat, se: nat, al: nat, refine: bool)

  ghost predicate BandOk(g: Band) {
    0 < g.ss <= g.se < DCTSIZE2 && g.al <= 13
  }

  /** One block. */
  ghost function DecodeBand(g: Band, x: DecTbl, b: Bits, eobrun: nat, z: seq<int>): (r: BandRead)
    requires |z| == DCTSIZE2 && g.se < DCTSIZE2
    ensures |r.z| == DCTSIZE2
  {
    if eobrun > 0 then
      if g.refine then var (z2, b2) := DecodeTail(b, g.ss, g.se, g.al, z); BandRead(z2, eobrun - 1, b2)
      else BandRead(z, eobrun - 1, b)
    else if g.refine then DecodeRefine(x, b, g.ss, g.se, g.al, z)
    else DecodeFirst(x, b, g.ss, g.se, g.al, z)
  }

  function CodeOf(g: Band, y: seq<int>): BandCode
    requires g.se < |y|
  {
    if g.refine then RefineFrom(y, g.ss, 0, [], LastNew(y, g.se), g.se) else FirstFrom(y, g.ss, 0, g.se)
  }

  /** The low bits of a run's length, as many as its symbol says. */
  function EobRaw(n: nat): seq<Item>
    requires n > 0
  {
    NBitsBounds(n);
    if n > 1 then [Raw(n - Pow2(NBits(n) - 1), NBits(n) - 1)] else []
  }

  /** The end-of-band symbol of a run of n blocks. */
  function EobItems(n: nat): seq<Item>
    requires n > 0
  {
    [Symbol((NBits(n) - 1) * 16)] + EobRaw(n)
  }
}
