/** How a block becomes Huffman symbols and extra bits, and how bits become a block again
    (sections F.1.2 and F.2.2 of Rec. ITU-T T.81). */
module HuffmanBlock {
  import opened Coefficients
  import opened Powers
  import opened BitString
  import opened HuffmanCodes
  import opened HuffmanDecode

  const MAX_COEF_BITS: nat := 10

  /** Number of bits of a magnitude. */
  function NBits(v: nat): (n: nat)
    ensures n == 0 <==> v == 0
  {
    if v == 0 then 0 else Log2(v) + 1
  }

  lemma NBitsHalf(v: nat)
    requires v > 0
    ensures NBits(v) == 1 + NBits(v / 2)
  {
  }

  lemma NBitsBounds(v: nat)
    requires v > 0
    ensures Pow2(NBits(v) - 1) <= v < Pow2(NBits(v))
  {
    Log2Bounds(v);
  }

  lemma NBitsBelow(v: nat, n: nat)
    requires v < Pow2(n)
    ensures NBits(v) <= n
  {
    if v > 0 {
      NBitsBounds(v);
      if NBits(v) > n {
        Pow2Mono(n, NBits(v) - 1);
      }
    }
  }

  /** The extra bits of a value: itself, or the complement of its magnitude if negative. */
  function ExtraOf(v: int): (e: nat)
    ensures e < Pow2(NBits(Abs(v)))
  {
    if v == 0 then 0 else
    NBitsBounds(Abs(v));
    if v > 0 then v else Pow2(NBits(Abs(v))) - 1 + v
  }

  /** Figure F.12. */
  function Extend(x: nat, s: nat): int
    requires s > 0
  {
    if x < Pow2(s - 1) then x - Pow2(s) + 1 else x
  }

  lemma ExtendInverts(v: int)
    requires v != 0
    ensures Extend(ExtraOf(v), NBits(Abs(v))) == v
  {
    NBitsBounds(Abs(v));
    assert Pow2(NBits(Abs(v))) == 2 * Pow2(NBits(Abs(v)) - 1);
  }

  // ----- Symbols

  /** A Huffman symbol and the extra bits after it. */
  datatype Sym = Sym(s: nat, extra: nat, n: nat)

  function ValueSym(run: nat, v: int): Sym {
    Sym(run * 16 + NBits(Abs(v)), ExtraOf(v), NBits(Abs(v)))
  }

  const ZRL := Sym(0xF0, 0, 0)
  const EOB := Sym(0, 0, 0)

  function DcSym(diff: int): Sym {
    ValueSym(0, diff)
  }

  /** Codes for each sixteen zeros of a run. */
  function Zrls(r: nat): seq<Sym> {
    if r < 16 then [] else [ZRL] + Zrls(r - 16)
  }

  /** The AC symbols from coefficient k on, after a run of r zeros; z is in zigzag order. */
  function AcSyms(z: seq<int>, k: nat, r: nat): seq<Sym>
    requires k <= |z|
    decreases |z| - k
  {
    if k == |z| then (if r > 0 then [EOB] else [])
    else if z[k] == 0 then AcSyms(z, k + 1, r + 1)
    else Zrls(r) + [ValueSym(r % 16, z[k])] + AcSyms(z, k + 1, 0)
  }

  /** Values the coder accepts. */
  ghost predicate AcInRange(z: seq<int>) {
    |z| == DCTSIZE2 && forall k :: 0 < k < DCTSIZE2 ==> NBits(Abs(z[k])) <= MAX_COEF_BITS
  }

  ghost predicate DiffInRange(diff: int) {
    NBits(Abs(diff)) <= MAX_COEF_BITS + 1
  }

  // ----- Bits

  function Entry(table: seq<nat>, s: nat): nat {
    if s < |table| then table[s] else 0
  }

  predicate HasCode(c: CTable, s: nat) {
    s < 256 && Entry(c.ehufsi, s) > 0
  }

  /** Every symbol in ys has a code. */
  ghost predicate Coded(c: CTable, ys: seq<Sym>) {
    forall i :: 0 <= i < |ys| ==> HasCode(c, ys[i].s)
  }

  function SymBits(c: CTable, y: Sym): Bits {
    BitsOf(Entry(c.ehufco, y.s), Entry(c.ehufsi, y.s)) + BitsOf(y.extra, y.n)
  }

  function SymsBits(c: CTable, ys: seq<Sym>): Bits {
    if ys == [] then [] else SymBits(c, ys[0]) + SymsBits(c, ys[1..])
  }

  lemma {:induction false} SymsBitsConcat(c: CTable, xs: seq<Sym>, ys: seq<Sym>)
    ensures SymsBits(c, xs + ys) == SymsBits(c, xs) + SymsBits(c, ys)
  {
    if xs == [] {
      assert xs + ys == ys;
    } else {
      assert (xs + ys)[0] == xs[0] && (xs + ys)[1..] == xs[1..] + ys;
      assert SymsBits(c, xs + ys) == SymBits(c, xs[0]) + SymsBits(c, xs[1..] + ys);
      assert SymsBits(c, xs) == SymBits(c, xs[0]) + SymsBits(c, xs[1..]);
      hide SymsBits, SymBits;
      SymsBitsConcat(c, xs[1..], ys);
      BitsAssoc(SymBits(c, xs[0]), SymsBits(c, xs[1..]), SymsBits(c, ys));
    }
  }

  // ----- The bit stream, followed by zeros without end

  function At(b: Bits, i: nat): bool {
    i < |b| && b[i]
  }

  /** The next n bits. */
  function Ahead(b: Bits, n: nat): (r: Bits)
    ensures |r| == n
  {
    seq(n, i requires 0 <= i < n => At(b, i))
  }

  function Window(b: Bits, n: nat): (w: nat)
    ensures w < Pow2(n)
  {
    NumOf(Ahead(b, n))
  }

  function Drop(b: Bits, n: nat): Bits {
    if n <= |b| then b[n..] else []
  }

  lemma WindowExact(b: Bits, v: nat, n: nat)
    requires n <= |b| && b[..n] == BitsOf(v, n) && v < Pow2(n)
    ensures Window(b, n) == v
  {
    assert Ahead(b, n) == BitsOf(v, n);
    NumOfBits(v, n);
  }

  /** The top bits of a window. */
  lemma WindowTopBits(b: Bits, n: nat, k: nat)
    requires k <= n
    ensures 0 <= Window(b, n) / Pow2(n - k) && Window(b, n) / Pow2(n - k) == Window(b, k)
  {
    var w := Window(b, n);
    BitsOfNum(Ahead(b, n));
    BitsPrefix(w, n, n - k);
    assert Ahead(b, n)[..k] == Ahead(b, k);
    QuotientBelow(w, k, n - k);
    NumOfBits(w / Pow2(n - k), k);
  }

  // ----- Decoding

  /** The table pair of a decoder. */
  datatype DecTbl = DecTbl(t: HuffTbl, d: DTable)

  ghost predicate DecTblOk(x: DecTbl) {
    TblOk(x.t) && Derived(x.t, x.d)
  }

  /** The next symbol and the rest of the bits. */
  ghost function NextSymbol(x: DecTbl, b: Bits): (r: (nat, Bits))
    ensures r.0 < 256
  {
    if !DecTblOk(x) then (0, b) else
    var (s, len) := SlowDecode(x.t, x.d, Window(b, 17), 1);
    (s, Drop(b, len))
  }

  /** Where coefficient k is stored; a run past the end of the block ends on the last one. */
  function Slot(k: nat): (r: nat)
    ensures r < DCTSIZE2
  {
    if k < DCTSIZE2 then k else DCTSIZE2 - 1
  }

  /** The coefficient loop of decode_mcu_slow; z is in zigzag order. */
  ghost function DecodeAc(x: DecTbl, b: Bits, k: nat, z: seq<int>): (r: (seq<int>, Bits))
    requires |z| == DCTSIZE2
    ensures |r.0| == DCTSIZE2
    decreases if k < DCTSIZE2 then DCTSIZE2 - k else 0
  {
    if k >= DCTSIZE2 then (z, b) else
    var (s, b1) := NextSymbol(x, b);
    var run, n := s / 16, s % 16;
    if n > 0 then DecodeAc(x, Drop(b1, n), k + run + 1, z[Slot(k + run) := ToCoef(Extend(Window(b1, n), n))])
    else if run != 15 then (z, b1)
    else DecodeAc(x, b1, k + 16, z)
  }

  /** The DC difference. */
  ghost function DecodeDiff(x: DecTbl, b: Bits): (int, Bits) {
    var (s, b1) := NextSymbol(x, b);
    if s == 0 then (0, b1) else (Extend(Window(b1, s), s), Drop(b1, s))
  }

  datatype BlockRead = BlockRead(z: seq<int>, last: int, rest: Bits)

  /** One block: its coefficients over z, the new DC prediction, and the bits left. */
  ghost function DecodeBlock(dc: DecTbl, ac: DecTbl, b: Bits, last: int, z: seq<int>): (r: BlockRead)
    requires |z| == DCTSIZE2
    ensures |r.z| == DCTSIZE2
  {
    var (diff, b1) := DecodeDiff(dc, b);
    var (z2, b2) := DecodeAc(ac, b1, 1, z[0 := ToCoef(last + diff)]);
    BlockRead(z2, last + diff, b2)
  }

  // ----- Decoding inverts encoding

  /** The encoder's table c and the decoder's x come from the same counts and symbols. */
  ghost predicate Paired(c: CTable, x: DecTbl) {
    DecTblOk(x) && Entered(x.t, c.ehufco, c.ehufsi, |Sizes(x.t.bits, 16)|)
  }

  lemma CodeOfSymbol(c: CTable, x: DecTbl, s: nat) returns (p: nat)
    requires Paired(c, x) && HasCode(c, s)
    ensures p < |Sizes(x.t.bits, 16)| && SizesOk(Sizes(x.t.bits, 16)) && x.t.huffval[p] == s
    ensures Entry(c.ehufco, s) == Code(Sizes(x.t.bits, 16), p) && Entry(c.ehufsi, s) == Sizes(x.t.bits, 16)[p]
  {
    hide Sizes, Code, Derived, Sorted;
    var n := |Sizes(x.t.bits, 16)|;
    assert s in x.t.huffval[..n];
    p :| 0 <= p < n && x.t.huffval[..n][p] == s;
  }

  lemma CodeFits(s: seq<nat>, p: nat)
    requires LeavesRoom(s) && p < |s|
    ensures 1 <= s[p] <= 16 && Code(s, p) < Pow2(s[p])
  {
    NotAllOnes(s, p);
  }

  /** A symbol's code, whatever follows it, is read as that symbol. */
  lemma SymbolInverts(c: CTable, x: DecTbl, s: nat, more: Bits)
    requires Paired(c, x) && HasCode(c, s)
    ensures NextSymbol(x, BitsOf(Entry(c.ehufco, s), Entry(c.ehufsi, s)) + more) == (s, more)
  {
    var p := CodeOfSymbol(c, x, s);
    var z := Sizes(x.t.bits, 16);
    assert LeavesRoom(z);
    hide Sizes, Code, Derived, Pow2, BitsOf, SlowDecode, NumOf, LeavesRoom;
    CodeFits(z, p);
    var k := z[p];
    var b := BitsOf(Entry(c.ehufco, s), k) + more;
    assert b[..k] == BitsOf(Entry(c.ehufco, s), k) && Drop(b, k) == more;
    WindowExact(b, Entry(c.ehufco, s), k);
    WindowTopBits(b, 17, k);
    WindowTop(Window(b, 17), k);
    CodeDecodes(x.t, x.d, p, Window(b, 17), 1);
  }

  lemma ExtraInverts(e: nat, n: nat, more: Bits)
    requires e < Pow2(n)
    ensures Window(BitsOf(e, n) + more, n) == e && Drop(BitsOf(e, n) + more, n) == more
  {
    hide BitsOf;
    var b := BitsOf(e, n) + more;
    assert b[..n] == BitsOf(e, n);
    WindowExact(b, e, n);
  }

  lemma BitsAssoc(a: Bits, b: Bits, c: Bits)
    ensures a + b + c == a + (b + c)
  {
  }

  /** A symbol and its value. */
  lemma ValueInverts(c: CTable, x: DecTbl, run: nat, v: int, more: Bits)
    requires Paired(c, x) && run < 16 && v != 0 && NBits(Abs(v)) <= 15
    requires HasCode(c, ValueSym(run, v).s)
    ensures var y := ValueSym(run, v);
      var (s, b1) := NextSymbol(x, SymBits(c, y) + more);
      && s == y.s && s / 16 == run && s % 16 == NBits(Abs(v)) > 0
      && Extend(Window(b1, s % 16), s % 16) == v && Drop(b1, s % 16) == more
  {
    hide Paired, BitsOf, Pow2, Extend, ExtraOf, Window, Drop;
    var y := ValueSym(run, v);
    BitsAssoc(BitsOf(Entry(c.ehufco, y.s), Entry(c.ehufsi, y.s)), BitsOf(y.extra, y.n), more);
    SymbolInverts(c, x, y.s, BitsOf(y.extra, y.n) + more);
    ExtraInverts(y.extra, y.n, more);
    ExtendInverts(v);
  }

  lemma {:induction false} ZrlsCoded(r: nat)
    ensures forall i :: 0 <= i < |Zrls(r)| ==> Zrls(r)[i] == ZRL
  {
    if r >= 16 {
      ZrlsCoded(r - 16);
    }
  }

  lemma SymBitsNoExtra(c: CTable, s: nat, more: Bits)
    ensures SymBits(c, Sym(s, 0, 0)) + more == BitsOf(Entry(c.ehufco, s), Entry(c.ehufsi, s)) + more
  {
    assert BitsOf(0, 0) == [];
    assert BitsOf(Entry(c.ehufco, s), Entry(c.ehufsi, s)) + [] == BitsOf(Entry(c.ehufco, s), Entry(c.ehufsi, s));
  }

  /** acc with the nonzero coefficients of z from k on. */
  function Filled(acc: seq<int>, z: seq<int>, k: nat): (r: seq<int>)
    requires |acc| == |z|
    ensures |r| == |z|
  {
    seq(|z|, i requires 0 <= i < |z| => if i >= k && z[i] != 0 then z[i] else acc[i])
  }

  lemma CodedRest(c: CTable, y: Sym, ys: seq<Sym>)
    requires Coded(c, [y] + ys)
    ensures HasCode(c, y.s) && Coded(c, ys)
    ensures SymsBits(c, [y] + ys) == SymBits(c, y) + SymsBits(c, ys)
  {
    assert ([y] + ys)[0] == y && ([y] + ys)[1..] == ys;
    assert forall i :: 0 <= i < |ys| ==> ys[i] == ([y] + ys)[i + 1];
  }

  lemma ValueStep(x: DecTbl, b: Bits, k: nat, acc: seq<int>, run: nat, v: int, rest: Bits)
    requires |acc| == DCTSIZE2 && k + run < DCTSIZE2
    requires var (s, b1) := NextSymbol(x, b);
      s / 16 == run && s % 16 > 0 && Extend(Window(b1, s % 16), s % 16) == v && Drop(b1, s % 16) == rest
    ensures DecodeAc(x, b, k, acc) == DecodeAc(x, rest, k + run + 1, acc[k + run := ToCoef(v)])
  {
    hide NextSymbol, Extend, Window, Drop, ToCoef;
  }

  /** A run of less than sixteen zeros and the value after it. */
  lemma DecodeOne(c: CTable, x: DecTbl, run: nat, v: int, rest: seq<Sym>, k: nat, acc: seq<int>, more: Bits)
    requires Paired(c, x) && run < 16 && k + run < DCTSIZE2 == |acc| && v != 0 && NBits(Abs(v)) <= MAX_COEF_BITS
    requires Coded(c, [ValueSym(run, v)] + rest)
    ensures Coded(c, rest)
    ensures DecodeAc(x, SymsBits(c, [ValueSym(run, v)] + rest) + more, k, acc)
         == DecodeAc(x, SymsBits(c, rest) + more, k + run + 1, acc[k + run := ToCoef(v)])
  {
    var y := ValueSym(run, v);
    CodedRest(c, y, rest);
    hide *;
    BitsAssoc(SymBits(c, y), SymsBits(c, rest), more);
    ValueInverts(c, x, run, v, SymsBits(c, rest) + more);
    ValueStep(x, SymsBits(c, [y] + rest) + more, k, acc, run, v, SymsBits(c, rest) + more);
  }

  lemma DecodeSkip(c: CTable, x: DecTbl, ys: seq<Sym>, k: nat, acc: seq<int>, more: Bits)
    requires Paired(c, x) && k < DCTSIZE2 == |acc| && Coded(c, [ZRL] + ys)
    ensures Coded(c, ys)
    ensures DecodeAc(x, SymsBits(c, [ZRL] + ys) + more, k, acc) == DecodeAc(x, SymsBits(c, ys) + more, k + 16, acc)
  {
    CodedRest(c, ZRL, ys);
    hide Paired, SymsBits, NextSymbol, SymBits, Coded, Window, Drop;
    BitsAssoc(SymBits(c, ZRL), SymsBits(c, ys), more);
    SymBitsNoExtra(c, 0xF0, SymsBits(c, ys) + more);
    SymbolInverts(c, x, 0xF0, SymsBits(c, ys) + more);
  }

  /** The zeros of a run and the value after it. */
  lemma {:induction false} DecodeRun(c: CTable, x: DecTbl, run: nat, v: int, rest: seq<Sym>, k: nat, acc: seq<int>, more: Bits)
    requires Paired(c, x) && k + run < DCTSIZE2 == |acc| && v != 0 && NBits(Abs(v)) <= MAX_COEF_BITS
    requires Coded(c, Zrls(run) + [ValueSym(run % 16, v)] + rest)
    ensures Coded(c, rest)
    ensures DecodeAc(x, SymsBits(c, Zrls(run) + [ValueSym(run % 16, v)] + rest) + more, k, acc)
         == DecodeAc(x, SymsBits(c, rest) + more, k + run + 1, acc[k + run := ToCoef(v)])
    decreases run
  {
    hide Paired, SymsBits, DecodeAc, ToCoef, NBits, ValueSym, Coded;
    var y := ValueSym(run % 16, v);
    if run < 16 {
      assert Zrls(run) + [y] + rest == [y] + rest;
      DecodeOne(c, x, run, v, rest, k, acc, more);
    } else {
      var ys := Zrls(run - 16) + [y] + rest;
      assert Zrls(run) + [y] + rest == [ZRL] + ys;
      DecodeSkip(c, x, ys, k, acc, more);
      DecodeRun(c, x, run - 16, v, rest, k + 16, acc, more);
    }
  }

  lemma DecodeEnd(c: CTable, x: DecTbl, r: nat, acc: seq<int>, more: Bits)
    requires Paired(c, x) && |acc| == DCTSIZE2 && r <= DCTSIZE2
    requires Coded(c, if r > 0 then [EOB] else [])
    ensures DecodeAc(x, SymsBits(c, if r > 0 then [EOB] else []) + more, DCTSIZE2 - r, acc) == (acc, more)
  {
    hide *;
    if r > 0 {
      EobAlone(c, more);
      SymbolInverts(c, x, 0, more);
      EndOfBlock(x, SymsBits(c, [EOB]) + more, DCTSIZE2 - r, acc, more);
    } else {
      NoSyms(c, more);
      EndOfCoefs(x, more, DCTSIZE2 - r, acc);
    }
  }

  lemma EobAlone(c: CTable, more: Bits)
    requires Coded(c, [EOB])
    ensures HasCode(c, 0) && SymsBits(c, [EOB]) + more == BitsOf(Entry(c.ehufco, 0), Entry(c.ehufsi, 0)) + more
  {
    assert [EOB] == [EOB] + [];
    CodedRest(c, EOB, []);
    assert SymBits(c, EOB) + [] == SymBits(c, EOB);
    SymBitsNoExtra(c, 0, more);
  }

  lemma EndOfBlock(x: DecTbl, b: Bits, k: nat, acc: seq<int>, more: Bits)
    requires |acc| == DCTSIZE2 && k < DCTSIZE2 && NextSymbol(x, b) == (0, more)
    ensures DecodeAc(x, b, k, acc) == (acc, more)
  {
    hide NextSymbol;
  }

  lemma NoSyms(c: CTable, more: Bits)
    ensures SymsBits(c, []) + more == more
  {
    assert [] + more == more;
  }

  lemma EndOfCoefs(x: DecTbl, b: Bits, k: nat, acc: seq<int>)
    requires |acc| == DCTSIZE2 && k >= DCTSIZE2
    ensures DecodeAc(x, b, k, acc) == (acc, b)
  {
  }

  lemma ValueFits(v: int)
    requires NBits(Abs(v)) <= MAX_COEF_BITS
    ensures ToCoef(v) == v
  {
    if v != 0 {
      NBitsBounds(Abs(v));
      Pow2Mono(NBits(Abs(v)), 16);
      Pow2Table();
      Pow2Mono(NBits(Abs(v)), 15);
      assert Pow2(16) == 2 * Pow2(15);
    }
  }

  /** Every block of in-range coefficients is read back from its symbols. */
  lemma {:induction false} DecodeAcInverts(c: CTable, x: DecTbl, z: seq<int>, k: nat, r: nat, acc: seq<int>, more: Bits)
    requires Paired(c, x) && AcInRange(z) && |acc| == DCTSIZE2 && r < k <= DCTSIZE2
    requires (forall i :: k - r <= i < k ==> z[i] == 0) && Coded(c, AcSyms(z, k, r))
    ensures DecodeAc(x, SymsBits(c, AcSyms(z, k, r)) + more, k - r, acc) == (Filled(acc, z, k), more)
    decreases DCTSIZE2 - k
  {
    hide Paired, SymsBits, DecodeAc, ToCoef, NBits, ValueSym, Coded;
    if k == DCTSIZE2 {
      DecodeEnd(c, x, r, acc, more);
      assert Filled(acc, z, k) == acc;
    } else if z[k] == 0 {
      DecodeAcInverts(c, x, z, k + 1, r + 1, acc, more);
      assert Filled(acc, z, k) == Filled(acc, z, k + 1);
    } else {
      DecodeRun(c, x, r, z[k], AcSyms(z, k + 1, 0), k - r, acc, more);
      ValueFits(z[k]);
      var acc2 := acc[k := z[k]];
      DecodeAcInverts(c, x, z, k + 1, 0, acc2, more);
      assert Filled(acc, z, k) == Filled(acc2, z, k + 1);
    }
  }

  // ----- A block with its DC difference

  /** All the AC symbols of a block. */
  function BlockSyms(z: seq<int>): seq<Sym>
    requires |z| == DCTSIZE2
  {
    AcSyms(z, 1, 0)
  }

  function BlockBits(cdc: CTable, cac: CTable, z: seq<int>, diff: int): Bits
    requires |z| == DCTSIZE2
  {
    SymBits(cdc, DcSym(diff)) + SymsBits(cac, BlockSyms(z))
  }

  lemma DiffStep(x: DecTbl, b: Bits, diff: int, rest: Bits)
    requires var (s, b1) := NextSymbol(x, b);
      s / 16 == 0 && s % 16 > 0 && Extend(Window(b1, s % 16), s % 16) == diff && Drop(b1, s % 16) == rest
    ensures DecodeDiff(x, b) == (diff, rest)
  {
    hide NextSymbol, Extend, Window, Drop;
  }

  lemma ZeroStep(x: DecTbl, b: Bits, rest: Bits)
    requires NextSymbol(x, b) == (0, rest)
    ensures DecodeDiff(x, b) == (0, rest)
  {
  }

  lemma NoDiffSym(diff: int)
    requires diff == 0
    ensures DcSym(diff) == Sym(0, 0, 0)
  {
  }

  lemma FirstCoded(c: CTable, y: Sym)
    requires Coded(c, [y])
    ensures HasCode(c, y.s)
  {
    assert [y][0] == y;
  }

  lemma NoDiffInverts(c: CTable, x: DecTbl, diff: int, more: Bits)
    requires Paired(c, x) && HasCode(c, DcSym(diff).s) && diff == 0
    ensures DecodeDiff(x, SymBits(c, DcSym(diff)) + more) == (0, more)
  {
    hide *;
    var y := DcSym(diff);
    NoDiffSym(diff);
    SymBitsNoExtra(c, y.s, more);
    SymbolInverts(c, x, y.s, more);
    ZeroStep(x, SymBits(c, y) + more, more);
  }

  lemma SomeDiffInverts(c: CTable, x: DecTbl, diff: int, more: Bits)
    requires Paired(c, x) && DiffInRange(diff) && HasCode(c, DcSym(diff).s) && diff != 0
    ensures DecodeDiff(x, SymBits(c, DcSym(diff)) + more) == (diff, more)
  {
    hide Paired, NextSymbol, SymBits, Extend, ExtraOf, Window, Drop, NBits, DecodeDiff;
    ValueInverts(c, x, 0, diff, more);
    DiffStep(x, SymBits(c, DcSym(diff)) + more, diff, more);
  }

  lemma DecodeDiffInverts(c: CTable, x: DecTbl, diff: int, more: Bits)
    requires Paired(c, x) && DiffInRange(diff) && Coded(c, [DcSym(diff)])
    ensures DecodeDiff(x, SymBits(c, DcSym(diff)) + more) == (diff, more)
  {
    hide Paired, DecodeDiff, SymBits, DcSym, HasCode;
    FirstCoded(c, DcSym(diff));
    if diff == 0 {
      NoDiffInverts(c, x, diff, more);
    } else {
      SomeDiffInverts(c, x, diff, more);
    }
  }

  lemma BlockStep(dc: DecTbl, ac: DecTbl, b: Bits, last: int, acc: seq<int>, z: seq<int>, b1: Bits, more: Bits)
    requires |acc| == |z| == DCTSIZE2 && -0x8000 <= z[0] < 0x8000
    requires DecodeDiff(dc, b) == (z[0] - last, b1) && DecodeAc(ac, b1, 1, acc[0 := z[0]]) == (z, more)
    ensures DecodeBlock(dc, ac, b, last, acc) == BlockRead(z, z[0], more)
  {
    hide DecodeDiff, DecodeAc;
  }

  lemma WholeBlockInverts(c: CTable, x: DecTbl, z: seq<int>, acc: seq<int>, more: Bits, k: nat)
    requires Paired(c, x) && AcInRange(z) && |acc| == DCTSIZE2 && k == 1
    requires acc[0] == z[0] && (forall i :: 0 < i < DCTSIZE2 ==> acc[i] == 0) && Coded(c, BlockSyms(z))
    ensures DecodeAc(x, SymsBits(c, BlockSyms(z)) + more, k, acc) == (z, more)
  {
    assert Filled(acc, z, k) == z && BlockSyms(z) == AcSyms(z, k, 0);
    hide Paired, AcSyms, SymsBits, Coded, NBits, DecodeAc, BlockSyms;
    DecodeAcInverts(c, x, z, k, 0, acc, more);
  }

  /** One block: the decoder rebuilds the encoder's, over cleared coefficients. */
  lemma DecodeBlockInverts(cdc: CTable, cac: CTable, dc: DecTbl, ac: DecTbl, z: seq<int>, last: int, acc: seq<int>, more: Bits)
    requires Paired(cdc, dc) && Paired(cac, ac) && AcInRange(z) && DiffInRange(z[0] - last) && -0x8000 <= z[0] < 0x8000
    requires Coded(cdc, [DcSym(z[0] - last)]) && Coded(cac, BlockSyms(z))
    requires |acc| == DCTSIZE2 && forall k :: 0 < k < DCTSIZE2 ==> acc[k] == 0
    ensures DecodeBlock(dc, ac, BlockBits(cdc, cac, z, z[0] - last) + more, last, acc) == BlockRead(z, z[0], more)
  {
    assert |z| == DCTSIZE2;
    hide *;
    var ys, y := BlockSyms(z), DcSym(z[0] - last);
    ClearedBelow(acc, z[0], acc[0 := z[0]]);
    BlockBitsAre(cdc, cac, z, z[0] - last, more);
    DecodeDiffInverts(cdc, dc, z[0] - last, SymsBits(cac, ys) + more);
    WholeBlockInverts(cac, ac, z, acc[0 := z[0]], more, 1);
    BlockStep(dc, ac, BlockBits(cdc, cac, z, z[0] - last) + more, last, acc, z, SymsBits(cac, ys) + more, more);
  }

  lemma ClearedBelow(acc: seq<int>, v: int, y: seq<int>)
    requires |acc| == DCTSIZE2 && (forall k :: 0 < k < DCTSIZE2 ==> acc[k] == 0) && y == acc[0 := v]
    ensures |y| == DCTSIZE2 && y[0] == v && forall i :: 0 < i < DCTSIZE2 ==> y[i] == 0
  {
  }

  lemma BlockBitsAre(cdc: CTable, cac: CTable, z: seq<int>, diff: int, more: Bits)
    requires |z| == DCTSIZE2
    ensures BlockBits(cdc, cac, z, diff) + more == SymBits(cdc, DcSym(diff)) + (SymsBits(cac, BlockSyms(z)) + more)
  {
    hide SymBits, SymsBits, BlockSyms, DcSym;
    BitsAssoc(SymBits(cdc, DcSym(diff)), SymsBits(cac, BlockSyms(z)), more);
  }
}
