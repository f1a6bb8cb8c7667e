/** Decoding inverts encoding for one block of a progressive AC scan. */
module HuffmanBandsInvert {
  import opened Coefficients
  import opened Powers
  import opened BitString
  import opened HuffmanCodes
  import opened HuffmanBlock
  import opened Refine
  import opened HuffmanBands

  // ----- Reading items

  lemma CodedConcat(c: CTable, xs: seq<Item>, ys: seq<Item>)
    ensures ItemsCoded(c, xs + ys) <==> ItemsCoded(c, xs) && ItemsCoded(c, ys)
  {
    hide HasCode;
    if ItemsCoded(c, xs + ys) {
      forall i | 0 <= i < |xs| && xs[i].Symbol? ensures HasCode(c, xs[i].s) {
        assert (xs + ys)[i] == xs[i];
      }
      forall i | 0 <= i < |ys| && ys[i].Symbol? ensures HasCode(c, ys[i].s) {
        assert (xs + ys)[|xs| + i] == ys[i];
      }
    }
  }

  lemma SymbolRead(c: CTable, x: DecTbl, s: nat, ys: seq<Item>, more: Bits)
    requires Paired(c, x) && HasCode(c, s)
    ensures NextSymbol(x, ItemsBits(c, [Symbol(s)] + ys) + more) == (s, ItemsBits(c, ys) + more)
  {
    ItemsBitsCons(c, Symbol(s), ys);
    hide Paired, NextSymbol, ItemsBits, HasCode, BitsOf;
    BitsAssoc(BitsOf(Entry(c.ehufco, s), Entry(c.ehufsi, s)), ItemsBits(c, ys), more);
    SymbolInverts(c, x, s, ItemsBits(c, ys) + more);
  }

  lemma RawRead(c: CTable, v: nat, n: nat, ys: seq<Item>, more: Bits)
    ensures var b := ItemsBits(c, [Raw(v, n)] + ys) + more;
      0 <= v % Pow2(n) && Window(b, n) == v % Pow2(n) && Drop(b, n) == ItemsBits(c, ys) + more
  {
    ItemsBitsCons(c, Raw(v, n), ys);
    BitsModEq(v, n);
    FloorBounds(v, Pow2(n));
    hide ItemsBits, Pow2, Window, Drop, BitsOf;
    BitsAssoc(BitsOf(v, n), ItemsBits(c, ys), more);
    ExtraInverts(v % Pow2(n), n, ItemsBits(c, ys) + more);
  }

  lemma RunLength(n: nat)
    requires 0 < n <= 0x7FFF
    ensures var k: nat := NBits(n) - 1; k <= 14 && Pow2(k) <= n && n % Pow2(k) == (n - Pow2(k)) % Pow2(k) == n - Pow2(k)
  {
    var k: nat := NBits(n) - 1;
    NBitsBounds(n);
    Pow2Table();
    assert Pow2(16) == 2 * Pow2(15);
    NBitsBelow(n, 15);
    assert Pow2(k + 1) == 2 * Pow2(k);
    hide Pow2, NBits;
    DivUnique(n, Pow2(k), 1, n - Pow2(k));
    DivUnique(n - Pow2(k), Pow2(k), 0, n - Pow2(k));
  }

  lemma EobShape(c: CTable, n: nat, ys: seq<Item>)
    requires n > 0 && ItemsCoded(c, EobItems(n) + ys)
    ensures EobItems(n) + ys == [Symbol((NBits(n) - 1) * 16)] + (EobRaw(n) + ys) && HasCode(c, (NBits(n) - 1) * 16)
  {
    hide HasCode, NBits;
    assert (EobItems(n) + ys)[0] == Symbol((NBits(n) - 1) * 16);
  }

  /** The bits that give the length of a run. */
  lemma EobRawRead(c: CTable, n: nat, ys: seq<Item>, more: Bits)
    requires 0 < n <= 0x7FFF
    ensures var (k: nat, b) := (NBits(n) - 1, ItemsBits(c, EobRaw(n) + ys) + more);
      k <= 14 && Run(b, k) == n && Drop(b, k) == ItemsBits(c, ys) + more
  {
    hide *;
    RunLength(n);
    EobRawShape(n, ys);
    var k: nat := NBits(n) - 1;
    if n == 1 {
      NoBits(ItemsBits(c, ys) + more);
    } else {
      RawRead(c, n - Pow2(k), k, ys, more);
    }
    RunIs(ItemsBits(c, EobRaw(n) + ys) + more, k);
  }

  lemma EobRawShape(n: nat, ys: seq<Item>)
    requires n > 0
    ensures 0 < NBits(n) && Pow2(NBits(n) - 1) <= n && (n == 1 ==> NBits(n) == 1)
    ensures EobRaw(n) + ys == if n == 1 then ys else [Raw(n - Pow2(NBits(n) - 1), NBits(n) - 1)] + ys
  {
    NBitsBounds(n);
    assert n == 1 ==> NBits(n) == 1 && EobRaw(n) == [];
    hide NBits, Pow2;
  }

  lemma RunIs(b: Bits, k: nat)
    ensures Run(b, k) == Pow2(k) + Window(b, k)
  {
    hide Pow2, Window;
  }

  /** An end-of-band run of 1 to 0x7FFF blocks is read as such. */
  lemma EobRead(c: CTable, x: DecTbl, n: nat, ys: seq<Item>, more: Bits)
    requires Paired(c, x) && 0 < n <= 0x7FFF && ItemsCoded(c, EobItems(n) + ys)
    ensures var (s, b1) := NextSymbol(x, ItemsBits(c, EobItems(n) + ys) + more);
      s % 16 == 0 && s / 16 < 15 && Run(b1, s / 16) == n && Drop(b1, s / 16) == ItemsBits(c, ys) + more
  {
    hide *;
    EobShape(c, n, ys);
    EobRawRead(c, n, ys, more);
    SymbolRead(c, x, (NBits(n) - 1) * 16, EobRaw(n) + ys, more);
  }

  lemma NoBits(b: Bits)
    ensures Window(b, 0) == 0 && Drop(b, 0) == b && Pow2(0) == 1
  {
  }

  // ----- First pass

  /** What follows the head when a run of n blocks, of which this is the first, is sent at once. */
  function Finish(code: BandCode, n: nat): seq<Item>
    requires n > 0
  {
    if code.ended then EobItems(n) + BitItems(code.tail) else []
  }

  function Left(code: BandCode, n: nat): nat
    requires n > 0
  {
    if code.ended then n - 1 else 0
  }

  /** Values the coder accepts. */
  ghost predicate BandInRange(y: seq<int>, k: nat, se: nat) {
    forall i :: k <= i <= se < |y| ==> NBits(Abs(y[i])) <= MAX_COEF_BITS
  }

  lemma FirstStops(x: DecTbl, b: Bits, k: nat, se: nat, al: nat, z: seq<int>, n: nat, rest: Bits)
    requires |z| == DCTSIZE2 && k <= se && n > 0
    requires var (s, b1) := NextSymbol(x, b); s % 16 == 0 && s / 16 < 15 && Run(b1, s / 16) == n && Drop(b1, s / 16) == rest
    ensures DecodeFirst(x, b, k, se, al, z) == BandRead(z, n - 1, rest)
  {
    hide NextSymbol, Run, Drop;
  }

  lemma FinishNothing(n: nat, ended: bool)
    requires n > 0
    ensures [] + Finish(BandCode([], ended, []), n) == if ended then EobItems(n) + [] else []
  {
    hide EobItems;
  }

  lemma NoItems(c: CTable, more: Bits)
    ensures ItemsBits(c, []) + more == more
  {
  }

  lemma FirstEnds(c: CTable, x: DecTbl, r: nat, se: nat, al: nat, z: seq<int>, n: nat, more: Bits)
    requires Paired(c, x) && r <= se + 1 && |z| == DCTSIZE2 && 0 < n <= 0x7FFF
    requires ItemsCoded(c, [] + Finish(BandCode([], r > 0, []), n))
    ensures DecodeFirst(x, ItemsBits(c, [] + Finish(BandCode([], r > 0, []), n)) + more, se + 1 - r, se, al, z)
         == BandRead(z, Left(BandCode([], r > 0, []), n), more)
  {
    hide Paired, ItemsBits, ItemsCoded, EobItems, Finish, NextSymbol, Run, Drop;
    FinishNothing(n, r > 0);
    NoItems(c, more);
    if r > 0 {
      EobRead(c, x, n, [], more);
      FirstStops(x, ItemsBits(c, EobItems(n) + []) + more, se + 1 - r, se, al, z, n, more);
    }
  }

  lemma FirstStep(x: DecTbl, b: Bits, k: nat, se: nat, al: nat, z: seq<int>, run: nat, v: int, rest: Bits)
    requires |z| == DCTSIZE2 && k + run <= se < DCTSIZE2
    requires var (s, b1) := NextSymbol(x, b);
      s / 16 == run && s % 16 > 0 && Extend(Window(b1, s % 16), s % 16) == v && Drop(b1, s % 16) == rest
    ensures DecodeFirst(x, b, k, se, al, z) == DecodeFirst(x, rest, k + run + 1, se, al, z[k + run := ToCoef(Scale(v, al))])
  {
    hide NextSymbol, Extend, Window, Drop, ToCoef, Scale;
  }

  lemma ValueShape(c: CTable, run: nat, v: int, ys: seq<Item>)
    requires ItemsCoded(c, FirstValue(run, v) + ys)
    ensures FirstValue(run, v) + ys == [Symbol(run * 16 + NBits(Abs(v)))] + ([Raw(ExtraOf(v), NBits(Abs(v)))] + ys)
    ensures HasCode(c, run * 16 + NBits(Abs(v)))
  {
    hide HasCode, NBits, ExtraOf;
    assert (FirstValue(run, v) + ys)[0] == Symbol(run * 16 + NBits(Abs(v)));
  }

  lemma ExtraSmall(v: int)
    requires v != 0 && NBits(Abs(v)) <= MAX_COEF_BITS
    ensures ExtraOf(v) % Pow2(NBits(Abs(v))) == ExtraOf(v) && 0 < NBits(Abs(v)) < 16
  {
    hide NBits, Pow2, ExtraOf;
    DivUnique(ExtraOf(v), Pow2(NBits(Abs(v))), 0, ExtraOf(v));
  }

  /** One value, after a run of less than sixteen zeros. */
  lemma FirstOne(c: CTable, x: DecTbl, run: nat, v: int, ys: seq<Item>, k: nat, se: nat, al: nat, z: seq<int>, more: Bits)
    requires Paired(c, x) && run < 16 && k + run <= se < DCTSIZE2 == |z| && v != 0 && NBits(Abs(v)) <= MAX_COEF_BITS
    requires ItemsCoded(c, FirstValue(run, v) + ys)
    ensures DecodeFirst(x, ItemsBits(c, FirstValue(run, v) + ys) + more, k, se, al, z)
         == DecodeFirst(x, ItemsBits(c, ys) + more, k + run + 1, se, al, z[k + run := ToCoef(Scale(v, al))])
  {
    hide *;
    var n := NBits(Abs(v));
    ValueShape(c, run, v, ys);
    ExtraSmall(v);
    ExtendInverts(v);
    SymbolRead(c, x, run * 16 + n, [Raw(ExtraOf(v), n)] + ys, more);
    RawRead(c, ExtraOf(v), n, ys, more);
    FirstStep(x, ItemsBits(c, FirstValue(run, v) + ys) + more, k, se, al, z, run, v, ItemsBits(c, ys) + more);
  }

  lemma FirstSkip(c: CTable, x: DecTbl, ys: seq<Item>, k: nat, se: nat, al: nat, z: seq<int>, more: Bits)
    requires Paired(c, x) && k <= se < DCTSIZE2 == |z| && ItemsCoded(c, [Symbol(0xF0)] + ys)
    ensures DecodeFirst(x, ItemsBits(c, [Symbol(0xF0)] + ys) + more, k, se, al, z)
         == DecodeFirst(x, ItemsBits(c, ys) + more, k + 16, se, al, z)
  {
    assert HasCode(c, 0xF0) by { assert ([Symbol(0xF0)] + ys)[0] == Symbol(0xF0); }
    hide Paired, NextSymbol, ItemsBits, ItemsCoded, HasCode;
    SymbolRead(c, x, 0xF0, ys, more);
  }

  lemma {:induction false} FirstRun(c: CTable, x: DecTbl, run: nat, v: int, ys: seq<Item>, k: nat, se: nat, al: nat, z: seq<int>, more: Bits)
    requires Paired(c, x) && k + run <= se < DCTSIZE2 == |z| && v != 0 && NBits(Abs(v)) <= MAX_COEF_BITS
    requires ItemsCoded(c, ZrlItems(run) + FirstValue(run % 16, v) + ys)
    ensures DecodeFirst(x, ItemsBits(c, ZrlItems(run) + FirstValue(run % 16, v) + ys) + more, k, se, al, z)
         == DecodeFirst(x, ItemsBits(c, ys) + more, k + run + 1, se, al, z[k + run := ToCoef(Scale(v, al))])
    decreases run
  {
    hide Paired, ItemsBits, ItemsCoded, FirstValue, NBits, DecodeFirst, Scale, ToCoef;
    var rest := FirstValue(run % 16, v) + ys;
    if run < 16 {
      assert ZrlItems(run) + FirstValue(run % 16, v) + ys == rest;
      FirstOne(c, x, run, v, ys, k, se, al, z, more);
    } else {
      var later := ZrlItems(run - 16) + FirstValue(run % 16, v) + ys;
      assert ZrlItems(run) + FirstValue(run % 16, v) + ys == [Symbol(0xF0)] + later;
      CodedConcat(c, [Symbol(0xF0)], later);
      FirstSkip(c, x, later, k, se, al, z, more);
      FirstRun(c, x, run - 16, v, ys, k + 16, se, al, z, more);
    }
  }

  /** Band k..se of z is still zero. */
  ghost predicate BandClear(z: seq<int>, k: nat, se: nat) {
    forall i :: k <= i <= se < |z| ==> z[i] == 0
  }

  lemma ScaledClear(z: seq<int>, y: seq<int>, k: nat, se: nat, al: nat)
    requires |z| == |y| && k <= se < |y| && BandClear(z, k, se) && BandFits(y, al)
    ensures y[k] == 0 ==> Scaled(z, y, k, se, al) == Scaled(z, y, k + 1, se, al)
    ensures var z2 := z[k := ToCoef(Scale(y[k], al))];
      BandClear(z2, k + 1, se) && Scaled(z, y, k, se, al) == Scaled(z2, y, k + 1, se, al)
  {
    assert Scale(0, al) == 0;
    hide Scale;
  }

  lemma ScaledNone(z: seq<int>, y: seq<int>, k: nat, se: nat, al: nat)
    requires |z| == |y| && k > se
    ensures Scaled(z, y, k, se, al) == z
  {
  }

  /** The coefficient k that is not zero. */
  lemma FirstNonzero(c: CTable, x: DecTbl, y: seq<int>, k: nat, r: nat, se: nat, al: nat, z: seq<int>, n: nat, more: Bits)
    requires Paired(c, x) && |y| == |z| == DCTSIZE2 && r <= k <= se < DCTSIZE2 && 0 < n <= 0x7FFF
    requires y[k] != 0 && NBits(Abs(y[k])) <= MAX_COEF_BITS
    requires ItemsCoded(c, FirstFrom(y, k, r, se).head + Finish(FirstFrom(y, k, r, se), n))
    ensures var (code, rest) := (FirstFrom(y, k, r, se), FirstFrom(y, k + 1, 0, se));
      && ItemsCoded(c, rest.head + Finish(rest, n)) && code.ended == rest.ended
      && DecodeFirst(x, ItemsBits(c, code.head + Finish(code, n)) + more, k - r, se, al, z)
      == DecodeFirst(x, ItemsBits(c, rest.head + Finish(rest, n)) + more, k + 1, se, al, z[k := ToCoef(Scale(y[k], al))])
  {
    hide *;
    var rest := FirstFrom(y, k + 1, 0, se);
    var xs, ys := ZrlItems(r) + FirstValue(r % 16, y[k]), rest.head + Finish(rest, n);
    NonzeroShape(y, k, r, se, n);
    CodedConcat(c, xs, ys);
    FirstRun(c, x, r, y[k], ys, k - r, se, al, z, more);
  }

  lemma NonzeroShape(y: seq<int>, k: nat, r: nat, se: nat, n: nat)
    requires k <= se < |y| && y[k] != 0 && n > 0
    ensures var (code, rest) := (FirstFrom(y, k, r, se), FirstFrom(y, k + 1, 0, se));
      && code.ended == rest.ended
      && code.head + Finish(code, n) == ZrlItems(r) + FirstValue(r % 16, y[k]) + (rest.head + Finish(rest, n))
  {
    hide *;
    var xs, rest := ZrlItems(r) + FirstValue(r % 16, y[k]), FirstFrom(y, k + 1, 0, se);
    NonzeroStep(y, k, r, se);
    FinishSame(FirstFrom(y, k, r, se), xs, rest, n);
    ItemsAssoc(xs, rest.head, Finish(rest, n));
  }

  lemma NonzeroStep(y: seq<int>, k: nat, r: nat, se: nat)
    requires k <= se < |y| && y[k] != 0
    ensures FirstFrom(y, k, r, se) == Prefixed(ZrlItems(r) + FirstValue(r % 16, y[k]), FirstFrom(y, k + 1, 0, se))
  {
    hide ZrlItems, FirstValue, Prefixed;
  }

  lemma ItemsAssoc(xs: seq<Item>, ys: seq<Item>, zs: seq<Item>)
    ensures (xs + ys) + zs == xs + (ys + zs)
  {
  }

  /** A first pass over the band is read back at its bit plane. */
  lemma {:induction false} FirstInverts(c: CTable, x: DecTbl, y: seq<int>, k: nat, r: nat, se: nat, al: nat, z: seq<int>, n: nat, more: Bits)
    requires Paired(c, x) && |y| == |z| == DCTSIZE2 && r <= k <= se + 1 <= DCTSIZE2 && 0 < n <= 0x7FFF
    requires BandInRange(y, k, se) && BandFits(y, al) && BandClear(z, k, se)
    requires ItemsCoded(c, FirstFrom(y, k, r, se).head + Finish(FirstFrom(y, k, r, se), n))
    ensures var code := FirstFrom(y, k, r, se);
      DecodeFirst(x, ItemsBits(c, code.head + Finish(code, n)) + more, k - r, se, al, z)
      == BandRead(Scaled(z, y, k, se, al), Left(code, n), more)
    decreases se + 1 - k
  {
    hide Paired, ItemsBits, ItemsCoded, NBits, DecodeFirst, Scaled, Finish, BandFits, ToCoef, Scale;
    if k > se {
      ScaledNone(z, y, k, se, al);
      FirstEnds(c, x, r, se, al, z, n, more);
    } else {
      ScaledClear(z, y, k, se, al);
      if y[k] == 0 {
        FirstInverts(c, x, y, k + 1, r + 1, se, al, z, n, more);
      } else {
        FirstNonzero(c, x, y, k, r, se, al, z, n, more);
        FirstInverts(c, x, y, k + 1, 0, se, al, z[k := ToCoef(Scale(y[k], al))], n, more);
      }
    }
  }

  // ----- Refinement

  /** Correction bits of coefficients k to m - 1. */
  function KnownBits(y: seq<int>, k: nat, m: nat): seq<bool>
    requires m <= |y|
    decreases if k < m then m - k else 0
  {
    if k >= m then [] else (if Known(y[k]) then [CorrectionBit(y[k])] else []) + KnownBits(y, k + 1, m)
  }

  /** Zeros among them. */
  function ZeroCount(y: seq<int>, k: nat, m: nat): (n: nat)
    requires m <= |y|
    ensures n <= if k < m then m - k else 0
    decreases if k < m then m - k else 0
  {
    if k >= m then 0 else (if y[k] == 0 then 1 else 0) + ZeroCount(y, k + 1, m)
  }

  /** None of them is new. */
  ghost predicate NoneNew(y: seq<int>, k: nat, m: nat) {
    forall i :: k <= i < m && i < |y| ==> Abs(y[i]) != 1
  }

  lemma {:induction false} KnownBitsJoin(y: seq<int>, k: nat, l: nat, m: nat)
    requires k <= l <= m <= |y|
    ensures KnownBits(y, k, m) == KnownBits(y, k, l) + KnownBits(y, l, m)
    ensures ZeroCount(y, k, m) == ZeroCount(y, k, l) + ZeroCount(y, l, m)
    decreases l - k
  {
    hide Known;
    if k < l {
      KnownBitsJoin(y, k + 1, l, m);
    }
  }

  /** A coefficient that is not new is either zero or gets a correction bit. */
  lemma {:induction false} KnownOrZero(y: seq<int>, k: nat, m: nat)
    requires k <= m <= |y| && NoneNew(y, k, m)
    ensures |KnownBits(y, k, m)| + ZeroCount(y, k, m) == m - k
    decreases m - k
  {
    hide *;
    CountStep(y, k, m);
    if k < m {
      NoneNewNext(y, k, m);
      KnownOrZero(y, k + 1, m);
    }
  }

  lemma CountStep(y: seq<int>, k: nat, m: nat)
    requires k <= m <= |y|
    ensures k == m ==> KnownBits(y, k, m) == [] && ZeroCount(y, k, m) == 0
    ensures k < m ==> KnownBits(y, k, m) == (if Known(y[k]) then [CorrectionBit(y[k])] else []) + KnownBits(y, k + 1, m)
    ensures k < m ==> ZeroCount(y, k, m) == (if y[k] == 0 then 1 else 0) + ZeroCount(y, k + 1, m)
  {
    hide Known, CorrectionBit;
  }

  lemma NoneNewNext(y: seq<int>, k: nat, m: nat)
    requires k < m <= |y| && NoneNew(y, k, m)
    ensures NoneNew(y, k + 1, m) && (Known(y[k]) <==> y[k] != 0)
  {
  }

  lemma {:induction false} AllZeros(y: seq<int>, k: nat, m: nat)
    requires k <= m <= |y| && forall i :: k <= i < m ==> y[i] == 0
    ensures KnownBits(y, k, m) == [] && ZeroCount(y, k, m) == m - k
    decreases m - k
  {
    if k < m {
      AllZeros(y, k + 1, m);
    }
  }

  lemma LastBit(y: seq<int>, k: nat, m: nat)
    requires k <= m < |y|
    ensures KnownBits(y, k, m + 1) == KnownBits(y, k, m) + if Known(y[m]) then [CorrectionBit(y[m])] else []
    ensures ZeroCount(y, k, m + 1) == ZeroCount(y, k, m) + if y[m] == 0 then 1 else 0
  {
    KnownBitsJoin(y, k, m, m + 1);
    assert KnownBits(y, m + 1, m + 1) == [];
  }

  /** The correction bit completes a coefficient one plane behind. */
  lemma CorrectedOnce(v: int, al: nat)
    requires -0x8000 <= Scale(v, al) < 0x8000
    ensures var z := Scale(Signed(Abs(v) / 2, v < 0), al + 1);
      && (z != 0 <==> Known(v))
      && (Known(v) ==> CorrectOnce(z, CorrectionBit(v), al) == Scale(v, al))
      && (!Known(v) && v != 0 ==> Appear(v < 0, al) == Scale(v, al))
  {
    CorrectionCompletes(v, al);
    HeldBitClear(Signed(Abs(v) / 2, v < 0), al);
    hide Correct, Appear, Scale, Floor, Signed;
  }

  lemma BitRead(bit: bool, bits: seq<bool>, more: Bits)
    ensures (Window([bit] + bits + more, 1) == 1) == bit && Drop([bit] + bits + more, 1) == bits + more
    ensures (Window([bit] + bits + more, 1) == 0) == !bit
  {
    var b := [bit] + bits + more;
    var v: nat := if bit then 1 else 0;
    assert BitsOf(v / 2, 0) == [];
    assert BitsOf(v, 1) == [bit];
    assert b[..1] == [bit] && b[1..] == bits + more;
    assert Pow2(1) == 2;
    WindowExact(b, v, 1);
  }

  /** Band k..se of z, one plane behind y, of which k is the next coefficient. */
  ghost predicate Behind(z: seq<int>, y: seq<int>, k: nat, se: nat, al: nat) {
    |z| == |y| == DCTSIZE2 && 0 < k && se < DCTSIZE2 && BandFits(y, al) && OnePlaneBehind(z, y, k, se, al)
  }

  lemma BehindNext(z: seq<int>, y: seq<int>, k: nat, se: nat, al: nat)
    requires Behind(z, y, k, se, al) && k <= se
    ensures (z[k] != 0 <==> Known(y[k])) && (y[k] == 0 ==> z[k] == Scale(y[k], al))
    ensures Known(y[k]) ==> CorrectOnce(z[k], CorrectionBit(y[k]), al) == Scale(y[k], al)
    ensures Abs(y[k]) == 1 ==> Appear(y[k] < 0, al) == Scale(y[k], al)
    ensures Behind(z[k := Scale(y[k], al)], y, k + 1, se, al) && Behind(z, y, k + 1, se, al)
  {
    CorrectedOnce(y[k], al);
    assert Scale(0, al) == 0 == Scale(0, al + 1);
    hide Correct, CorrectOnce, Appear, Scale, CorrectionBit;
  }

  lemma ScaledNext(z: seq<int>, y: seq<int>, k: nat, m: nat, al: nat)
    requires |z| == |y| && k <= m < |y|
    ensures Scaled(z, y, k, m, al) == Scaled(z[k := Scale(y[k], al)], y, k + 1, m, al)
    ensures z[k] == Scale(y[k], al) ==> Scaled(z, y, k, m, al) == Scaled(z, y, k + 1, m, al)
  {
    hide Scale;
  }

  /** Advance passes everything up to the zero, or the new coefficient, at m. */
  lemma {:induction false} AdvanceOver(y: seq<int>, k: nat, m: nat, r: nat, se: nat, al: nat, z: seq<int>, more: Bits)
    requires Behind(z, y, k, se, al) && k <= m <= se && NoneNew(y, k, m) && !Known(y[m]) && r == ZeroCount(y, k, m)
    ensures Advance(KnownBits(y, k, m) + more, k, r, se, al, z) == Advanced(Scaled(z, y, k, m - 1, al), m, more)
    decreases m - k
  {
    BehindNext(z, y, k, se, al);
    hide Behind, Known, CorrectOnce, Scaled, Window, Drop, Scale, CorrectionBit, Appear;
    if k == m {
      ScaledNone(z, y, k, m - 1, al);
      assert [] + more == more;
    } else {
      ScaledNext(z, y, k, m - 1, al);
      if y[k] == 0 {
        assert !Known(y[k]) by { hide *; ZeroUnknown(y[k]); }
        assert [] + KnownBits(y, k + 1, m) == KnownBits(y, k + 1, m);
        AdvanceOver(y, k + 1, m, r - 1, se, al, z, more);
      } else {
        assert Known(y[k]) by { hide *; NotNewKnown(y, k, m); }
        BitRead(CorrectionBit(y[k]), KnownBits(y, k + 1, m), more);
        AdvanceOver(y, k + 1, m, r, se, al, z[k := Scale(y[k], al)], more);
      }
    }
  }

  lemma ZeroUnknown(v: int)
    requires v == 0
    ensures !Known(v)
  {
  }

  lemma NotNewKnown(y: seq<int>, k: nat, m: nat)
    requires NoneNew(y, k, m) && k < m <= |y| && y[k] != 0
    ensures Known(y[k])
  {
  }

  /** The rest of the band, when nothing in it is new. */
  lemma {:induction false} TailOver(y: seq<int>, k: nat, se: nat, al: nat, z: seq<int>, more: Bits)
    requires Behind(z, y, k, se, al) && k <= se + 1 && NoneNew(y, k, se + 1)
    ensures DecodeTail(KnownBits(y, k, se + 1) + more, k, se, al, z) == (Scaled(z, y, k, se, al), more)
    decreases se + 1 - k
  {
    if k > se {
      ScaledNone(z, y, k, se, al);
      assert [] + more == more;
    } else {
      BehindNext(z, y, k, se, al);
      ScaledNext(z, y, k, se, al);
      hide Behind, Known, CorrectOnce, Scaled, Window, Drop, Scale, CorrectionBit, Appear;
      if y[k] == 0 {
        assert !Known(y[k]) by { hide *; ZeroUnknown(y[k]); }
        assert [] + KnownBits(y, k + 1, se + 1) == KnownBits(y, k + 1, se + 1);
        TailOver(y, k + 1, se, al, z, more);
      } else {
        assert Known(y[k]) by { hide *; NotNewKnown(y, k, se + 1); }
        BitRead(CorrectionBit(y[k]), KnownBits(y, k + 1, se + 1), more);
        TailOver(y, k + 1, se, al, z[k := Scale(y[k], al)], more);
      }
    }
  }

  /** Past the last new coefficient nothing more goes into the head. */
  lemma {:induction false} RefineRest(y: seq<int>, k: nat, r: nat, br: seq<bool>, eob: nat, se: nat)
    requires se < |y| && eob < k && NoneNew(y, k, se + 1) && k <= se + 1
    ensures RefineFrom(y, k, r, br, eob, se)
      == BandCode([], r + ZeroCount(y, k, se + 1) > 0 || br + KnownBits(y, k, se + 1) != [], br + KnownBits(y, k, se + 1))
    decreases se + 1 - k
  {
    hide *;
    CountStep(y, k, se + 1);
    if k > se {
      RestEnds(y, k, r, br, eob, se);
      NothingAdded(br);
    } else {
      NoneNewNext(y, k, se + 1);
      RestStep(y, k, r, br, eob, se);
      var later := KnownBits(y, k + 1, se + 1);
      NothingAdded(later);
      if y[k] == 0 {
        RefineRest(y, k + 1, r + 1, br, eob, se);
      } else {
        BitsAssoc(br, [CorrectionBit(y[k])], later);
        RefineRest(y, k + 1, r, br + [CorrectionBit(y[k])], eob, se);
      }
    }
  }

  lemma NothingAdded(b: Bits)
    ensures b + [] == b == [] + b
  {
  }

  lemma RestEnds(y: seq<int>, k: nat, r: nat, br: seq<bool>, eob: nat, se: nat)
    requires se < k && se < |y|
    ensures RefineFrom(y, k, r, br, eob, se) == BandCode([], r > 0 || br != [], br)
  {
  }

  lemma RestStep(y: seq<int>, k: nat, r: nat, br: seq<bool>, eob: nat, se: nat)
    requires k <= se < |y|
    ensures y[k] == 0 ==> RefineFrom(y, k, r, br, eob, se) == RefineFrom(y, k + 1, r + 1, br, eob, se)
    ensures y[k] != 0 && Known(y[k]) && eob < k
        ==> RefineFrom(y, k, r, br, eob, se) == RefineFrom(y, k + 1, r, br + [CorrectionBit(y[k])], eob, se)
  {
    hide Known, CorrectionBit;
  }

  lemma RefineStops(x: DecTbl, b: Bits, k: nat, se: nat, al: nat, z: seq<int>, n: nat, tail: Bits, z2: seq<int>, more: Bits)
    requires |z| == |z2| == DCTSIZE2 && k <= se < DCTSIZE2 && n > 0
    requires var (s, b1) := NextSymbol(x, b); s % 16 == 0 && s / 16 < 15 && Run(b1, s / 16) == n && Drop(b1, s / 16) == tail
    requires DecodeTail(tail, k, se, al, z) == (z2, more)
    ensures DecodeRefine(x, b, k, se, al, z) == BandRead(z2, n - 1, more)
  {
    hide NextSymbol, Run, Drop, DecodeTail;
  }

  lemma TailBits(c: CTable, bits: seq<bool>, more: Bits)
    ensures ItemsBits(c, BitItems(bits)) + more == bits + more
  {
    BitItemsBits(c, bits);
  }

  lemma EmptyHead(xs: seq<Item>)
    ensures [] + xs == xs
  {
  }

  /** From k0 on nothing is new: an end of band, then correction bits. */
  lemma RefineEnds(c: CTable, x: DecTbl, y: seq<int>, k0: nat, se: nat, al: nat, z: seq<int>, n: nat, more: Bits)
    requires Paired(c, x) && Behind(z, y, k0, se, al) && k0 <= se + 1 && NoneNew(y, k0, se + 1) && 0 < n <= 0x7FFF
    requires ItemsCoded(c, [] + Finish(BandCode([], k0 <= se, KnownBits(y, k0, se + 1)), n))
    ensures var code := BandCode([], k0 <= se, KnownBits(y, k0, se + 1));
      DecodeRefine(x, ItemsBits(c, [] + Finish(code, n)) + more, k0, se, al, z) == BandRead(Scaled(z, y, k0, se, al), Left(code, n), more)
  {
    var bits := KnownBits(y, k0, se + 1);
    var code := BandCode([], k0 <= se, bits);
    assert |z| == |y| == DCTSIZE2;
    hide Paired, ItemsBits, ItemsCoded, EobItems, NextSymbol, Run, Drop, DecodeTail, Behind, Scaled, NoneNew, KnownBits, BitItems;
    EmptyHead(Finish(code, n));
    if k0 > se {
      ScaledNone(z, y, k0, se, al);
      NoItems(c, more);
    } else {
      EobRead(c, x, n, BitItems(bits), more);
      TailBits(c, bits, more);
      TailOver(y, k0, se, al, z, more);
      hide DecodeRefine;
      RefineStops(x, ItemsBits(c, EobItems(n) + BitItems(bits)) + more, k0, se, al, z, n, bits + more, Scaled(z, y, k0, se, al), more);
    }
  }

  /** Where the encoder stands: k0 is where the pending run began, m follows the last coefficient
      in it that is not zero. */
  ghost predicate Pending(y: seq<int>, k0: nat, m: nat, k: nat, se: nat) {
    && 0 < k0 <= m <= k <= se + 1 <= |y| && NoneNew(y, k0, k)
    && (forall i :: m <= i < k ==> y[i] == 0) && ZeroCount(y, k0, m) <= 15
  }

  function Standing(y: seq<int>, k0: nat, k: nat, eob: nat, se: nat): BandCode
    requires k <= |y| && se < |y|
  {
    RefineFrom(y, k, ZeroCount(y, k0, k), KnownBits(y, k0, k), eob, se)
  }

  lemma PendingRest(y: seq<int>, k0: nat, m: nat, k: nat, eob: nat, se: nat)
    requires Pending(y, k0, m, k, se) && eob < k && NoneNew(y, k, se + 1)
    ensures NoneNew(y, k0, se + 1) && Standing(y, k0, k, eob, se) == BandCode([], k0 <= se, KnownBits(y, k0, se + 1))
  {
    assert NoneNew(y, k0, se + 1);
    hide NoneNew;
    RefineRest(y, k, ZeroCount(y, k0, k), KnownBits(y, k0, k), eob, se);
    KnownBitsJoin(y, k0, k, se + 1);
    KnownOrZero(y, k0, se + 1);
  }

  /** One more zero, or one more coefficient that is known. */
  lemma PendingStep(y: seq<int>, k0: nat, m: nat, k: nat, eob: nat, se: nat)
    requires Pending(y, k0, m, k, se) && k <= se && Abs(y[k]) != 1 && (y[k] != 0 ==> ZeroCount(y, k0, k) <= 15)
    ensures Standing(y, k0, k, eob, se) == Standing(y, k0, k + 1, eob, se)
    ensures Pending(y, k0, if y[k] == 0 then m else k + 1, k + 1, se)
  {
    LastBit(y, k0, k);
    assert y[k] == 0 ==> KnownBits(y, k0, k) + [] == KnownBits(y, k0, k);
    hide KnownBits, ZeroCount, CorrectionBit;
  }

  /** Where a run of sixteen zeros ends. */
  lemma Sixteenth(y: seq<int>, k0: nat, m: nat, k: nat, se: nat) returns (p: nat)
    requires Pending(y, k0, m, k, se) && ZeroCount(y, k0, k) > 15
    ensures k0 <= p < k && y[p] == 0 && ZeroCount(y, k0, p) == 15 && KnownBits(y, k0, p) == KnownBits(y, k0, k)
    ensures Pending(y, p + 1, p + 1, k, se) && ZeroCount(y, p + 1, k) == ZeroCount(y, k0, k) - 16 && KnownBits(y, p + 1, k) == []
  {
    KnownBitsJoin(y, k0, m, k);
    AllZeros(y, m, k);
    p := m + (15 - ZeroCount(y, k0, m));
    KnownBitsJoin(y, k0, m, p);
    AllZeros(y, m, p);
    AllZeros(y, p + 1, k);
    assert KnownBits(y, k0, m) + [] == KnownBits(y, k0, m);
  }

  lemma ScaledJoin(z: seq<int>, y: seq<int>, k: nat, p: nat, se: nat, al: nat)
    requires Behind(z, y, k, se, al) && k <= p <= se
    ensures Scaled(Scaled(z, y, k, p, al), y, p + 1, se, al) == Scaled(z, y, k, se, al)
    ensures Behind(Scaled(z, y, k, p, al), y, p + 1, se, al)
    ensures Scaled(z, y, k, p - 1, al)[p := Scale(y[p], al)] == Scaled(z, y, k, p, al)
    ensures y[p] == 0 ==> Scaled(z, y, k, p - 1, al) == Scaled(z, y, k, p, al)
  {
    BehindAt(z, y, k, p, se, al);
    hide Scale, BandFits;
  }

  lemma BehindAt(z: seq<int>, y: seq<int>, k: nat, p: nat, se: nat, al: nat)
    requires Behind(z, y, k, se, al) && k <= p <= se
    ensures y[p] == 0 ==> z[p] == Scale(y[p], al)
  {
    assert Scale(0, al) == 0 == Scale(0, al + 1);
    hide Scale, BandFits;
  }

  lemma SkipStep(x: DecTbl, b: Bits, k: nat, se: nat, al: nat, z: seq<int>, b1: Bits, a: Advanced)
    requires |z| == |a.z| == DCTSIZE2 && k <= se < DCTSIZE2 && k <= a.k
    requires NextSymbol(x, b) == (0xF0, b1) && Advance(b1, k, 15, se, al, z) == a
    ensures DecodeRefine(x, b, k, se, al, z) == DecodeRefine(x, a.rest, a.k + 1, se, al, a.z)
  {
    hide NextSymbol, Advance;
  }

  /** A run of sixteen zeros, with the correction bits before its end. */
  lemma RefineSkip(c: CTable, x: DecTbl, y: seq<int>, k0: nat, p: nat, se: nat, al: nat, z: seq<int>, ys: seq<Item>, more: Bits)
    requires Paired(c, x) && Behind(z, y, k0, se, al) && k0 <= p <= se && NoneNew(y, k0, p) && y[p] == 0 && ZeroCount(y, k0, p) == 15
    requires HasCode(c, 0xF0)
    ensures DecodeRefine(x, ItemsBits(c, [Symbol(0xF0)] + (BitItems(KnownBits(y, k0, p)) + ys)) + more, k0, se, al, z)
         == DecodeRefine(x, ItemsBits(c, ys) + more, p + 1, se, al, Scaled(z, y, k0, p, al))
  {
    hide *;
    BehindShape(z, y, k0, se, al);
    var bits := KnownBits(y, k0, p);
    SymbolRead(c, x, 0xF0, BitItems(bits) + ys, more);
    BitsThen(c, bits, ys, more);
    SkipBits(x, y, k0, p, se, al, z, ItemsBits(c, [Symbol(0xF0)] + (BitItems(bits) + ys)) + more, ItemsBits(c, ys) + more);
  }

  lemma BehindShape(z: seq<int>, y: seq<int>, k: nat, se: nat, al: nat)
    requires Behind(z, y, k, se, al)
    ensures |z| == |y| == DCTSIZE2 && 0 < k && se < DCTSIZE2
  {
  }

  lemma SkipBits(x: DecTbl, y: seq<int>, k0: nat, p: nat, se: nat, al: nat, z: seq<int>, b: Bits, rest: Bits)
    requires Behind(z, y, k0, se, al) && k0 <= p <= se < DCTSIZE2 == |z| == |y| && NoneNew(y, k0, p) && y[p] == 0
    requires ZeroCount(y, k0, p) == 15 && NextSymbol(x, b) == (0xF0, KnownBits(y, k0, p) + rest)
    ensures DecodeRefine(x, b, k0, se, al, z) == DecodeRefine(x, rest, p + 1, se, al, Scaled(z, y, k0, p, al))
  {
    hide *;
    BehindShape(z, y, k0, se, al);
    ScaledJoin(z, y, k0, p, se, al);
    ZeroUnknown(y[p]);
    AdvanceOver(y, k0, p, 15, se, al, z, rest);
    SkipStep(x, b, k0, se, al, z, KnownBits(y, k0, p) + rest, Advanced(Scaled(z, y, k0, p - 1, al), p, rest));
  }

  lemma BitsThen(c: CTable, bits: seq<bool>, ys: seq<Item>, more: Bits)
    ensures ItemsBits(c, BitItems(bits) + ys) + more == bits + (ItemsBits(c, ys) + more)
  {
    ItemsBitsConcat(c, BitItems(bits), ys);
    BitItemsBits(c, bits);
  }

  lemma NewStep(x: DecTbl, b: Bits, k: nat, se: nat, al: nat, z: seq<int>, run: nat, b1: Bits, negative: bool, a: Advanced)
    requires |z| == |a.z| == DCTSIZE2 && k <= se < DCTSIZE2 && k <= a.k < DCTSIZE2 && run < 16
    requires NextSymbol(x, b) == (run * 16 + 1, b1) && Window(b1, 1) == (if negative then 0 else 1)
    requires Advance(Drop(b1, 1), k, run, se, al, z) == a
    ensures DecodeRefine(x, b, k, se, al, z) == DecodeRefine(x, a.rest, a.k + 1, se, al, a.z[a.k := Appear(negative, al)])
  {
    hide NextSymbol, Advance, Window, Drop, Appear;
  }

  lemma NewAt(z: seq<int>, y: seq<int>, k0: nat, k: nat, se: nat, al: nat)
    requires Behind(z, y, k0, se, al) && k0 <= k <= se && Abs(y[k]) == 1
    ensures Appear(y[k] < 0, al) == Scale(y[k], al) && !Known(y[k])
  {
    CorrectedOnce(y[k], al);
  }

  lemma SignBit(negative: bool)
    ensures (if negative then 0 else 1) % Pow2(1) == if negative then 0 else 1
  {
    assert Pow2(1) == 2;
  }

  lemma SignRead(c: CTable, negative: bool, bits: seq<bool>, ys: seq<Item>, more: Bits)
    ensures var b := ItemsBits(c, [Raw(if negative then 0 else 1, 1)] + (BitItems(bits) + ys)) + more;
      Window(b, 1) == (if negative then 0 else 1) && Drop(b, 1) == bits + (ItemsBits(c, ys) + more)
  {
    hide *;
    RawRead(c, if negative then 0 else 1, 1, BitItems(bits) + ys, more);
    SignBit(negative);
    BitsThen(c, bits, ys, more);
  }

  lemma NewBits(x: DecTbl, y: seq<int>, k0: nat, k: nat, se: nat, al: nat, z: seq<int>, b: Bits, b1: Bits, rest: Bits)
    requires Behind(z, y, k0, se, al) && k0 <= k <= se < DCTSIZE2 == |z| == |y| && NoneNew(y, k0, k) && Abs(y[k]) == 1
    requires NextSymbol(x, b) == (ZeroCount(y, k0, k) * 16 + 1, b1) && ZeroCount(y, k0, k) <= 15
    requires Window(b1, 1) == (if y[k] < 0 then 0 else 1) && Drop(b1, 1) == KnownBits(y, k0, k) + rest
    ensures DecodeRefine(x, b, k0, se, al, z) == DecodeRefine(x, rest, k + 1, se, al, Scaled(z, y, k0, k, al))
  {
    assert 0 < k0;
    hide *;
    NewAt(z, y, k0, k, se, al);
    ScaledJoin(z, y, k0, k, se, al);
    AdvanceOver(y, k0, k, ZeroCount(y, k0, k), se, al, z, rest);
    NewStep(x, b, k0, se, al, z, ZeroCount(y, k0, k), b1, y[k] < 0, Advanced(Scaled(z, y, k0, k - 1, al), k, rest));
  }

  /** A new coefficient, with the correction bits before it. */
  lemma RefineNew(c: CTable, x: DecTbl, y: seq<int>, k0: nat, k: nat, se: nat, al: nat, z: seq<int>, ys: seq<Item>, more: Bits)
    requires Paired(c, x) && Behind(z, y, k0, se, al) && k0 <= k <= se < DCTSIZE2 == |z| == |y| && NoneNew(y, k0, k) && Abs(y[k]) == 1
    requires ZeroCount(y, k0, k) <= 15 && HasCode(c, ZeroCount(y, k0, k) * 16 + 1)
    ensures var (r, bits) := (ZeroCount(y, k0, k), KnownBits(y, k0, k));
      DecodeRefine(x, ItemsBits(c, [Symbol(r * 16 + 1)] + ([Raw(if y[k] < 0 then 0 else 1, 1)] + (BitItems(bits) + ys))) + more, k0, se, al, z)
      == DecodeRefine(x, ItemsBits(c, ys) + more, k + 1, se, al, Scaled(z, y, k0, k, al))
  {
    hide *;
    var r, bits := ZeroCount(y, k0, k), KnownBits(y, k0, k);
    var later := [Raw(if y[k] < 0 then 0 else 1, 1)] + (BitItems(bits) + ys);
    SymbolRead(c, x, r * 16 + 1, later, more);
    SignRead(c, y[k] < 0, bits, ys, more);
    NewBits(x, y, k0, k, se, al, z, ItemsBits(c, [Symbol(r * 16 + 1)] + later) + more, ItemsBits(c, later) + more, ItemsBits(c, ys) + more);
  }

  lemma Regrouped(xs: seq<Item>, bits: seq<Item>, head: seq<Item>, fin: seq<Item>)
    ensures xs + bits + head + fin == xs + (bits + (head + fin))
  {
  }

  lemma FinishSame(code: BandCode, xs: seq<Item>, rest: BandCode, n: nat)
    requires n > 0 && code == Prefixed(xs, rest)
    ensures code.head == xs + rest.head && code.ended == rest.ended && Finish(code, n) == Finish(rest, n) && Left(code, n) == Left(rest, n)
  {
  }

  lemma SkipShape(y: seq<int>, k0: nat, p: nat, k: nat, eob: nat, se: nat, n: nat)
    requires k <= se < |y| && k <= eob && y[k] != 0 && n > 0 && p < k && ZeroCount(y, k0, k) > 15
    requires KnownBits(y, k0, p) == KnownBits(y, k0, k) && ZeroCount(y, p + 1, k) == ZeroCount(y, k0, k) - 16 && KnownBits(y, p + 1, k) == []
    ensures var (code, rest) := (Standing(y, k0, k, eob, se), Standing(y, p + 1, k, eob, se));
      && Left(code, n) == Left(rest, n)
      && code.head + Finish(code, n) == [Symbol(0xF0)] + (BitItems(KnownBits(y, k0, p)) + (rest.head + Finish(rest, n)))
  {
    var code, rest := Standing(y, k0, k, eob, se), Standing(y, p + 1, k, eob, se);
    assert code == Prefixed([Symbol(0xF0)] + BitItems(KnownBits(y, k0, k)), rest) by { hide KnownBits, ZeroCount, BitItems; }
    hide *;
    FinishSame(code, [Symbol(0xF0)] + BitItems(KnownBits(y, k0, k)), rest, n);
    Regrouped([Symbol(0xF0)], BitItems(KnownBits(y, k0, k)), rest.head, Finish(rest, n));
  }

  lemma NewGrouped(a: Item, b: Item, bits: seq<Item>, head: seq<Item>, fin: seq<Item>)
    ensures [a, b] + bits + head + fin == [a] + ([b] + (bits + (head + fin)))
  {
  }

  lemma NewShape(y: seq<int>, k0: nat, k: nat, eob: nat, se: nat, n: nat)
    requires k <= se < |y| && Abs(y[k]) == 1 && n > 0 && ZeroCount(y, k0, k) <= 15
    ensures var (code, rest, r) := (Standing(y, k0, k, eob, se), Standing(y, k + 1, k + 1, eob, se), ZeroCount(y, k0, k));
      && Left(code, n) == Left(rest, n)
      && code.head + Finish(code, n)
      == [Symbol(r * 16 + 1)] + ([Raw(if y[k] < 0 then 0 else 1, 1)] + (BitItems(KnownBits(y, k0, k)) + (rest.head + Finish(rest, n))))
  {
    var code, rest, r := Standing(y, k0, k, eob, se), Standing(y, k + 1, k + 1, eob, se), ZeroCount(y, k0, k);
    assert code == Prefixed(NewItems(r, y[k] < 0) + BitItems(KnownBits(y, k0, k)), rest) by { hide BitItems; }
    var v := if y[k] < 0 then 0 else 1;
    assert NewItems(r, y[k] < 0) == [Symbol(r * 16 + 1), Raw(v, 1)];
    hide *;
    FinishSame(code, NewItems(r, y[k] < 0) + BitItems(KnownBits(y, k0, k)), rest, n);
    NewGrouped(Symbol(r * 16 + 1), Raw(v, 1), BitItems(KnownBits(y, k0, k)), rest.head, Finish(rest, n));
  }

  lemma FirstIsCoded(c: CTable, s: nat, ys: seq<Item>)
    requires ItemsCoded(c, [Symbol(s)] + ys)
    ensures HasCode(c, s) && ItemsCoded(c, ys)
  {
    hide HasCode;
    assert ([Symbol(s)] + ys)[0] == Symbol(s);
    CodedConcat(c, [Symbol(s)], ys);
  }

  /** All of a code, as bits. */
  function Sent(c: CTable, code: BandCode, n: nat, more: Bits): Bits
    requires n > 0
  {
    ItemsBits(c, code.head + Finish(code, n)) + more
  }

  ghost predicate SentCoded(c: CTable, code: BandCode, n: nat)
    requires n > 0
  {
    ItemsCoded(c, code.head + Finish(code, n))
  }

  /** The decoder, at k0, reads what the encoder, at k, has yet to send, and completes the band. */
  ghost predicate Reads(c: CTable, x: DecTbl, y: seq<int>, k0: nat, k: nat, eob: nat, se: nat, al: nat, z: seq<int>, n: nat, more: Bits) {
    n > 0 && k <= |y| && se < |y| && |y| == |z| == DCTSIZE2 &&
    var code := Standing(y, k0, k, eob, se);
    DecodeRefine(x, Sent(c, code, n, more), k0, se, al, z) == BandRead(Scaled(z, y, k0, se, al), Left(code, n), more)
  }

  ghost predicate StandingCoded(c: CTable, y: seq<int>, k0: nat, k: nat, eob: nat, se: nat, n: nat) {
    n > 0 && k <= |y| && se < |y| && SentCoded(c, Standing(y, k0, k, eob, se), n)
  }

  /** The encoder meets a coefficient after a run of sixteen zeros. */
  lemma SkipCase(c: CTable, x: DecTbl, y: seq<int>, k0: nat, m: nat, k: nat, eob: nat, se: nat, al: nat, z: seq<int>, n: nat, more: Bits)
      returns (p: nat)
    requires Paired(c, x) && Behind(z, y, k0, se, al) && Pending(y, k0, m, k, se) && 0 < n <= 0x7FFF && |z| == |y| == DCTSIZE2
    requires k <= eob <= se < DCTSIZE2 && y[k] != 0 && ZeroCount(y, k0, k) > 15 && StandingCoded(c, y, k0, k, eob, se, n)
    ensures k0 <= p < k && Pending(y, p + 1, p + 1, k, se) && ZeroCount(y, p + 1, k) < ZeroCount(y, k0, k)
    ensures StandingCoded(c, y, p + 1, k, eob, se, n) && Behind(Scaled(z, y, k0, p, al), y, p + 1, se, al)
    ensures Reads(c, x, y, p + 1, k, eob, se, al, Scaled(z, y, k0, p, al), n, more) ==> Reads(c, x, y, k0, k, eob, se, al, z, n, more)
  {
    hide ItemsCoded, Behind, Pending, ZeroCount, KnownBits, Standing, BitItems, ItemsBits, DecodeRefine, Scaled, Finish, Left, Paired, HasCode;
    p := Sixteenth(y, k0, m, k, se);
    SkipShape(y, k0, p, k, eob, se, n);
    var rest := Standing(y, p + 1, k, eob, se);
    var ys := rest.head + Finish(rest, n);
    FirstIsCoded(c, 0xF0, BitItems(KnownBits(y, k0, p)) + ys);
    CodedConcat(c, BitItems(KnownBits(y, k0, p)), ys);
    SoFar(y, k0, m, p, k, se);
    RefineSkip(c, x, y, k0, p, se, al, z, ys, more);
    ScaledJoin(z, y, k0, p, se, al);
  }

  /** The encoder meets a new coefficient. */
  lemma NewCase(c: CTable, x: DecTbl, y: seq<int>, k0: nat, m: nat, k: nat, eob: nat, se: nat, al: nat, z: seq<int>, n: nat, more: Bits)
    requires Paired(c, x) && Behind(z, y, k0, se, al) && Pending(y, k0, m, k, se) && 0 < n <= 0x7FFF && |z| == |y| == DCTSIZE2
    requires k0 <= k <= se < DCTSIZE2 && Abs(y[k]) == 1 && ZeroCount(y, k0, k) <= 15 && StandingCoded(c, y, k0, k, eob, se, n)
    ensures StandingCoded(c, y, k + 1, k + 1, eob, se, n) && Behind(Scaled(z, y, k0, k, al), y, k + 1, se, al)
    ensures Reads(c, x, y, k + 1, k + 1, eob, se, al, Scaled(z, y, k0, k, al), n, more) ==> Reads(c, x, y, k0, k, eob, se, al, z, n, more)
  {
    hide ItemsCoded, Behind, Pending, ZeroCount, KnownBits, Standing, BitItems, ItemsBits, DecodeRefine, Scaled, Finish, Left, Paired, HasCode;
    NewShape(y, k0, k, eob, se, n);
    var rest, r := Standing(y, k + 1, k + 1, eob, se), ZeroCount(y, k0, k);
    var ys, sign := rest.head + Finish(rest, n), Raw(if y[k] < 0 then 0 else 1, 1);
    FirstIsCoded(c, r * 16 + 1, [sign] + (BitItems(KnownBits(y, k0, k)) + ys));
    CodedConcat(c, [sign], BitItems(KnownBits(y, k0, k)) + ys);
    CodedConcat(c, BitItems(KnownBits(y, k0, k)), ys);
    SoFar(y, k0, m, k, k, se);
    RefineNew(c, x, y, k0, k, se, al, z, ys, more);
    ScaledJoin(z, y, k0, k, se, al);
  }

  lemma PendingCase(c: CTable, x: DecTbl, y: seq<int>, k0: nat, m: nat, k: nat, eob: nat, se: nat, al: nat, z: seq<int>, n: nat, more: Bits)
    requires Pending(y, k0, m, k, se) && k <= se && Abs(y[k]) != 1 && (y[k] != 0 ==> ZeroCount(y, k0, k) <= 15)
    ensures StandingCoded(c, y, k0, k, eob, se, n) ==> StandingCoded(c, y, k0, k + 1, eob, se, n)
    ensures Reads(c, x, y, k0, k + 1, eob, se, al, z, n, more) ==> Reads(c, x, y, k0, k, eob, se, al, z, n, more)
    ensures Pending(y, k0, if y[k] == 0 then m else k + 1, k + 1, se)
  {
    assert k + 1 <= |y|;
    hide SentCoded, Pending, ZeroCount, Standing, DecodeRefine, Scaled, Sent, Left, Abs;
    PendingStep(y, k0, m, k, eob, se);
  }

  /** A refinement of the band is read back at its bit plane. */
  lemma {:induction false} RefineInverts(c: CTable, x: DecTbl, y: seq<int>, k0: nat, m: nat, k: nat, eob: nat, se: nat, al: nat,
      z: seq<int>, n: nat, more: Bits)
    requires Paired(c, x) && Behind(z, y, k0, se, al) && Pending(y, k0, m, k, se) && 0 < n <= 0x7FFF
    requires eob <= se && NoneNew(y, eob + 1, se + 1) && StandingCoded(c, y, k0, k, eob, se, n)
    ensures Reads(c, x, y, k0, k, eob, se, al, z, n, more)
    decreases if k <= se then se + 1 - k else 0, if k <= |y| then ZeroCount(y, k0, k) else 0
  {
    hide *;
    InvertsShape(y, k0, m, k, eob, se, al, z);
    if k > eob {
      RefineEndsSent(c, x, y, k0, m, k, eob, se, al, z, n, more);
    } else if y[k] != 0 && ZeroCount(y, k0, k) > 15 {
      var p := SkipCase(c, x, y, k0, m, k, eob, se, al, z, n, more);
      RefineInverts(c, x, y, p + 1, p + 1, k, eob, se, al, Scaled(z, y, k0, p, al), n, more);
    } else if Abs(y[k]) == 1 {
      NotZero(y[k]);
      NewCase(c, x, y, k0, m, k, eob, se, al, z, n, more);
      NewBegins(y, k, se);
      RefineInverts(c, x, y, k + 1, k + 1, k + 1, eob, se, al, Scaled(z, y, k0, k, al), n, more);
    } else {
      PendingCase(c, x, y, k0, m, k, eob, se, al, z, n, more);
      RefineInverts(c, x, y, k0, if y[k] == 0 then m else k + 1, k + 1, eob, se, al, z, n, more);
    }
  }

  lemma InvertsShape(y: seq<int>, k0: nat, m: nat, k: nat, eob: nat, se: nat, al: nat, z: seq<int>)
    requires Behind(z, y, k0, se, al) && Pending(y, k0, m, k, se) && NoneNew(y, eob + 1, se + 1)
    ensures |z| == |y| == DCTSIZE2 && k0 <= k <= se + 1 <= DCTSIZE2 && (eob < k ==> NoneNew(y, k, se + 1))
  {
  }

  lemma NotZero(v: int)
    requires Abs(v) == 1
    ensures v != 0
  {
  }

  lemma RefineEndsSent(c: CTable, x: DecTbl, y: seq<int>, k0: nat, m: nat, k: nat, eob: nat, se: nat, al: nat, z: seq<int>, n: nat, more: Bits)
    requires Paired(c, x) && Behind(z, y, k0, se, al) && k0 <= k <= se + 1 <= DCTSIZE2 == |z| == |y| && 0 < n <= 0x7FFF
    requires Pending(y, k0, m, k, se) && eob < k && NoneNew(y, k, se + 1) && StandingCoded(c, y, k0, k, eob, se, n)
    ensures Reads(c, x, y, k0, k, eob, se, al, z, n, more)
  {
    hide ItemsCoded, Behind, NoneNew, KnownBits, ItemsBits, DecodeRefine, Scaled, Finish, Left, Paired, Pending, Standing;
    PendingRest(y, k0, m, k, eob, se);
    RefineEnds(c, x, y, k0, se, al, z, n, more);
  }

  lemma SoFar(y: seq<int>, k0: nat, m: nat, p: nat, k: nat, se: nat)
    requires Pending(y, k0, m, k, se) && p <= k
    ensures NoneNew(y, k0, p)
  {
  }

  lemma NewBegins(y: seq<int>, k: nat, se: nat)
    requires k <= se < |y|
    ensures Pending(y, k + 1, k + 1, k + 1, se)
  {
  }
}
