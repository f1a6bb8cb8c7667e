/** The sequential Huffman encoder's loops over a block in memory (jchuff.c): the trial run
    that counts symbols, and the run that writes them. */
module HuffmanEncoder {
  import opened Coefficients
  import opened Powers
  import opened BitString
  import opened HuffmanBits
  import opened HuffmanCodes
  import opened HuffmanBlock
  import opened NaturalOrder

  // ----- Counting

  /** Counts with one more of each symbol. */
  function Tallied(f: seq<nat>, ys: seq<Sym>): (r: seq<nat>)
    ensures |r| == |f|
    decreases |ys|
  {
    if ys == [] then f else
    Tallied(if ys[0].s < |f| then f[ys[0].s := f[ys[0].s] + 1] else f, ys[1..])
  }

  lemma {:induction false} TalliedConcat(f: seq<nat>, xs: seq<Sym>, ys: seq<Sym>)
    ensures Tallied(f, xs + ys) == Tallied(Tallied(f, xs), ys)
    decreases |xs|
  {
    if xs == [] {
      assert xs + ys == ys;
    } else {
      assert (xs + ys)[1..] == xs[1..] + ys;
      TalliedConcat(if xs[0].s < |f| then f[xs[0].s := f[xs[0].s] + 1] else f, xs[1..], ys);
    }
  }

  lemma {:induction false} TalliedOne(f: seq<nat>, y: Sym)
    requires y.s < |f|
    ensures Tallied(f, [y]) == f[y.s := f[y.s] + 1]
  {
    assert [y][1..] == [];
  }

  /** Counts never go down, and every symbol met is counted. */
  lemma {:induction false} TalliedCounts(f: seq<nat>, ys: seq<Sym>)
    ensures forall s :: 0 <= s < |f| ==> f[s] <= Tallied(f, ys)[s]
    ensures forall i :: 0 <= i < |ys| && ys[i].s < |f| ==> Tallied(f, ys)[ys[i].s] > 0
    decreases |ys|
  {
    if ys != [] {
      TalliedCounts(if ys[0].s < |f| then f[ys[0].s := f[ys[0].s] + 1] else f, ys[1..]);
      assert forall i :: 0 < i < |ys| ==> ys[i] == ys[1..][i - 1];
    }
  }

  /** Number of bits by shifting. */
  method CountBits(v: nat) returns (n: nat)
    ensures n == NBits(v)
  {
    n := 0;
    var temp: nat := v;
    while temp != 0
      invariant NBits(v) == n + NBits(temp)
      decreases temp
    {
      NBitsHalf(temp);
      n := n + 1;
      temp := temp / 2;
    }
  }

  method CountSymbol(counts: array<nat>, ghost y: Sym, s: nat)
    requires s == y.s < counts.Length
    modifies counts
    ensures counts[..] == Tallied(old(counts[..]), [y])
  {
    TalliedOne(counts[..], y);
    counts[s] := counts[s] + 1;
  }

  /** The codes for each sixteen zeros of a run. */
  method CountZrls(counts: array<nat>, r0: nat) returns (r: nat)
    requires counts.Length == 257
    modifies counts
    ensures r == r0 % 16 && counts[..] == Tallied(old(counts[..]), Zrls(r0))
  {
    r := r0;
    while r > 15
      invariant r % 16 == r0 % 16
      invariant Tallied(counts[..], Zrls(r)) == Tallied(old(counts[..]), Zrls(r0))
    {
      ghost var f := counts[..];
      TalliedConcat(f, [ZRL], Zrls(r - 16));
      CountSymbol(counts, ZRL, 0xF0);
      r := r - 16;
    }
  }

  /** The value's own symbol; ok is false for a coefficient out of range. */
  method CountValue(counts: array<nat>, r: nat, v: int) returns (ok: bool)
    requires counts.Length == 257 && r < 16 && v != 0
    modifies counts
    ensures ok <==> NBits(Abs(v)) <= MAX_COEF_BITS
    ensures ok ==> counts[..] == Tallied(old(counts[..]), [ValueSym(r, v)])
  {
    hide ExtraOf;
    var temp: nat := if v < 0 then -v else v;
    var nbits := CountBits(temp);
    if nbits > MAX_COEF_BITS {
      return false;
    }
    CountSymbol(counts, ValueSym(r, v), r * 16 + nbits);
    ok := true;
  }

  lemma AcSymsStep(z: seq<int>, k: nat, r: nat)
    requires k < |z|
    ensures z[k] == 0 ==> AcSyms(z, k, r) == AcSyms(z, k + 1, r + 1)
    ensures z[k] != 0 ==> AcSyms(z, k, r) == Zrls(r) + ([ValueSym(r % 16, z[k])] + AcSyms(z, k + 1, 0))
  {
  }

  lemma AcSymsEnd(z: seq<int>, r: nat)
    ensures AcSyms(z, |z|, r) == if r > 0 then [EOB] else []
  {
  }

  lemma BlockSymsFrom(z: seq<int>, k: nat)
    requires |z| == 64 && k == 1
    ensures BlockSyms(z) == AcSyms(z, k, 0)
  {
  }

  /** One coefficient of the counting loop; the run after it. */
  method CountCoef(counts: array<nat>, ghost z: seq<int>, ghost k: nat, r0: nat, temp: int) returns (ok: bool, r: nat)
    requires counts.Length == 257 && k < |z| && temp == z[k]
    modifies counts
    ensures ok <==> NBits(Abs(temp)) <= MAX_COEF_BITS
    ensures ok ==> Tallied(counts[..], AcSyms(z, k + 1, r)) == Tallied(old(counts[..]), AcSyms(z, k, r0))
  {
    AcSymsStep(z, k, r0);
    hide AcSyms, NBits, Tallied, ValueSym;
    if temp == 0 {
      NoBits();
      return true, r0 + 1;
    }
    ghost var f, rest := counts[..], [ValueSym(r0 % 16, temp)] + AcSyms(z, k + 1, 0);
    TalliedConcat(f, Zrls(r0), rest);
    r := CountZrls(counts, r0);
    TalliedConcat(counts[..], [ValueSym(r, temp)], AcSyms(z, k + 1, 0));
    ok := CountValue(counts, r, temp);
    r := 0;
  }

  lemma NoBits()
    ensures NBits(0) == 0
  {
  }

  /** The coefficients below k are in range. */
  ghost predicate RangeTo(z: seq<int>, k: nat) {
    forall i :: 0 < i < k && i < |z| ==> NBits(Abs(z[i])) <= MAX_COEF_BITS
  }

  lemma RangeNext(z: seq<int>, k: nat)
    requires |z| == DCTSIZE2 && 0 < k < DCTSIZE2 && RangeTo(z, k)
    ensures RangeTo(z, k + 1) <==> NBits(Abs(z[k])) <= MAX_COEF_BITS
    ensures NBits(Abs(z[k])) > MAX_COEF_BITS ==> !AcInRange(z)
  {
    hide NBits;
  }

  lemma RangeEnds(z: seq<int>)
    requires |z| == DCTSIZE2
    ensures RangeTo(z, 1) && (RangeTo(z, DCTSIZE2) ==> AcInRange(z))
  {
    hide NBits;
  }

  /** The AC part of htest_one_block. */
  method CountAc(counts: array<nat>, block: seq<int>) returns (ok: bool)
    requires counts.Length == 257 && |block| == 64
    modifies counts
    ensures ok <==> AcInRange(Zig(block))
    ensures ok ==> counts[..] == Tallied(old(counts[..]), BlockSyms(Zig(block)))
  {
    ghost var z := Zig(block);
    hide Order, AcSyms, NBits, Tallied, BlockSyms, Zig, RangeTo, AcInRange;
    ghost var goal := Tallied(counts[..], BlockSyms(z));
    var k: nat, r: nat := 1, 0;
    BlockSymsFrom(z, k);
    RangeEnds(z);
    while k < 64
      invariant 1 <= k <= 64 && RangeTo(z, k) && Tallied(counts[..], AcSyms(z, k, r)) == goal
    {
      RangeNext(z, k);
      ok, r := CountCoef(counts, z, k, r, block[Order(k)]);
      if !ok {
        return;
      }
      k := k + 1;
    }
    CountEnd(counts, z, k, r);
    ok := true;
  }

  method CountEnd(counts: array<nat>, ghost z: seq<int>, ghost k: nat, r: nat)
    requires counts.Length == 257 && k == |z|
    modifies counts
    ensures counts[..] == Tallied(old(counts[..]), AcSyms(z, k, r))
  {
    hide Tallied;
    AcSymsEnd(z, r);
    NothingTallied(counts[..]);
    if r > 0 {
      CountSymbol(counts, EOB, 0);
    }
  }

  lemma NothingTallied(f: seq<nat>)
    ensures Tallied(f, []) == f
  {
  }

  /** htest_one_block: counts the symbols of a block; ok is false if a coefficient is out of range. */
  method HtestOneBlock(block: seq<int>, lastDcVal: int, dcCounts: array<nat>, acCounts: array<nat>) returns (ok: bool)
    requires dcCounts.Length == acCounts.Length == 257 && dcCounts != acCounts && |block| == 64
    modifies dcCounts, acCounts
    ensures ok <==> DiffInRange(block[0] - lastDcVal) && AcInRange(Zig(block))
    ensures ok ==> dcCounts[..] == Tallied(old(dcCounts[..]), [DcSym(block[0] - lastDcVal)])
    ensures ok ==> acCounts[..] == Tallied(old(acCounts[..]), BlockSyms(Zig(block)))
  {
    hide NBits, Tallied, BlockSyms, ExtraOf, AcInRange, Zig;
    var temp := block[0] - lastDcVal;
    var magnitude: nat := if temp < 0 then -temp else temp;
    var nbits := CountBits(magnitude);
    if nbits > MAX_COEF_BITS + 1 {
      return false;
    }
    CountSymbol(dcCounts, DcSym(temp), nbits);
    ok := CountAc(acCounts, block);
  }

  // ----- Writing

  /** Codes of at most 16 bits that fit their sizes; a symbol without a code has size 0. */
  ghost predicate CodesFit(c: CTable) {
    forall s :: 0 <= s < 256 ==> Entry(c.ehufsi, s) <= 16 && Entry(c.ehufco, s) < Pow2(Entry(c.ehufsi, s))
  }

  /** Low bits of the value, the code above them: PUT_CODE. */
  method PutCode(w: WordWriter, c: CTable, ghost y: Sym, s: nat, temp: int, nbits: nat)
    requires w.Valid() && CodesFit(c) && s == y.s < 256 && nbits == y.n <= 17 && temp % Pow2(nbits) == y.extra
    modifies w
    ensures w.Valid() && w.start == old(w.start) && w.sent == old(w.sent) + SymBits(c, y)
  {
    var code, size := Entry(c.ehufco, s), Entry(c.ehufsi, s);
    JoinedCode(code, size, y.extra, nbits);
    hide CodesFit, Pow2, BitsOf;
    w.PutBits(code * Pow2(nbits) + temp % Pow2(nbits), nbits + size);
  }

  lemma JoinedCode(code: nat, size: nat, extra: nat, n: nat)
    requires code < Pow2(size) && extra < Pow2(n)
    ensures 0 <= code * Pow2(n) && code * Pow2(n) + extra < Pow2(n + size)
    ensures BitsOf(code * Pow2(n) + extra, n + size) == BitsOf(code, size) + BitsOf(extra, n)
  {
    BitsAppend(code, size, extra, n);
    Pow2Add(size, n);
    hide Pow2, BitsOf;
    MulStep(code, Pow2(size), Pow2(n));
    MulMono(0, code, Pow2(n));
  }

  /** The branch-free form: temp is the value, or one less if it is negative. */
  lemma LowBits(v: int)
    ensures (if v < 0 then v - 1 else v) % Pow2(NBits(Abs(v))) == ExtraOf(v)
  {
    var p := Pow2(NBits(Abs(v)));
    if v == 0 {
      assert Pow2(0) == 1;
    } else {
      NBitsBounds(Abs(v));
      hide Pow2;
      if v > 0 {
        DivUnique(v, p, 0, v);
      } else {
        DivUnique(v - 1, p, -1, p + v - 1);
      }
    }
  }

  lemma SymsBitsOne(c: CTable, y: Sym)
    ensures SymsBits(c, [y]) == SymBits(c, y)
  {
    assert [y][1..] == [] && SymBits(c, y) + [] == SymBits(c, y);
  }

  lemma SymsBitsNone(c: CTable)
    ensures SymsBits(c, []) == []
  {
  }

  /** A symbol without extra bits. */
  method PutSymbol(w: WordWriter, c: CTable, ghost y: Sym, s: nat)
    requires w.Valid() && CodesFit(c) && y == Sym(s, 0, 0) && s < 256
    modifies w
    ensures w.Valid() && w.start == old(w.start) && w.sent == old(w.sent) + SymsBits(c, [y])
  {
    SymsBitsOne(c, y);
    SymBitsNoExtra(c, s, []);
    assert SymBits(c, y) + [] == SymBits(c, y);
    hide SymBits, SymsBits, Pow2, BitsOf;
    w.PutBits(Entry(c.ehufco, s), Entry(c.ehufsi, s));
    assert BitsOf(Entry(c.ehufco, s), Entry(c.ehufsi, s)) + [] == BitsOf(Entry(c.ehufco, s), Entry(c.ehufsi, s));
  }

  /** The run-length-16 codes; r counts zeros sixteen times over. */
  method PutZrls(w: WordWriter, c: CTable, r0: nat) returns (r: nat)
    requires w.Valid() && CodesFit(c) && r0 % 16 == 0
    modifies w
    ensures w.Valid() && w.start == old(w.start) && r == r0 / 16 % 16 * 16
    ensures w.sent == old(w.sent) + SymsBits(c, Zrls(r0 / 16))
  {
    hide *;
    r := r0;
    while r >= 16 * 16
      invariant w.Valid() && w.start == old(w.start) && r % 16 == 0 && r / 16 % 16 == r0 / 16 % 16
      invariant w.sent + SymsBits(c, Zrls(r / 16)) == old(w.sent) + SymsBits(c, Zrls(r0 / 16))
    {
      ZrlTurn(c, w.sent, r);
      r := r - 16 * 16;
      PutSymbol(w, c, ZRL, 0xF0);
    }
    NoMoreZrls(c, w.sent, r);
  }

  lemma ZrlTurn(c: CTable, sent: Bits, r: nat)
    requires r >= 16 * 16 && r % 16 == 0
    ensures (r - 256) % 16 == 0 && (r - 256) / 16 % 16 == r / 16 % 16 && ZRL == Sym(0xF0, 0, 0)
    ensures sent + SymsBits(c, [ZRL]) + SymsBits(c, Zrls((r - 256) / 16)) == sent + SymsBits(c, Zrls(r / 16))
  {
    assert (r - 256) / 16 == r / 16 - 16 && Zrls(r / 16) == [ZRL] + Zrls(r / 16 - 16);
    hide SymsBits, Zrls;
    SymsBitsConcat(c, [ZRL], Zrls(r / 16 - 16));
    BitsAssoc(sent, SymsBits(c, [ZRL]), SymsBits(c, Zrls(r / 16 - 16)));
  }

  lemma NoMoreZrls(c: CTable, sent: Bits, r: nat)
    requires r < 256 && r % 16 == 0
    ensures sent + SymsBits(c, Zrls(r / 16)) == sent && r == r / 16 % 16 * 16
  {
    SymsBitsNone(c);
  }

  /** A value: branch-free magnitude, number of bits, run and code. */
  method PutValue(w: WordWriter, c: CTable, run: nat, v: int)
    requires w.Valid() && CodesFit(c) && run < 16 && NBits(Abs(v)) < 16 && (v == 0 ==> run == 0)
    modifies w
    ensures w.Valid() && w.start == old(w.start) && w.sent == old(w.sent) + SymBits(c, ValueSym(run, v))
  {
    hide CodesFit, WordWriter.Valid, Pow2, ExtraOf, SymBits;
    LowBits(v);
    var temp, magnitude: nat := if v < 0 then v - 1 else v, if v < 0 then -v else v;
    var nbits := NBits(magnitude);
    PutCode(w, c, ValueSym(run, v), run * 16 + nbits, temp, nbits);
  }

  lemma CoefBits(c: CTable, t: Bits, run: seq<Sym>, y: Sym, rest: seq<Sym>)
    ensures t + SymsBits(c, run) + SymBits(c, y) + SymsBits(c, rest) == t + SymsBits(c, run + ([y] + rest))
  {
    SymsBitsConcat(c, run, [y] + rest);
    SymsBitsConcat(c, [y], rest);
    SymsBitsOne(c, y);
    hide *;
    BitsAssoc(t, SymsBits(c, run), SymsBits(c, [y] + rest));
    BitsAssoc(t + SymsBits(c, run), SymBits(c, y), SymsBits(c, rest));
  }

  method PutNonzero(w: WordWriter, c: CTable, r0: nat, temp: int, ghost rest: seq<Sym>)
    requires w.Valid() && CodesFit(c) && temp != 0 && NBits(Abs(temp)) < 16 && r0 % 16 == 0
    modifies w
    ensures w.Valid() && w.start == old(w.start)
    ensures w.sent + SymsBits(c, rest)
         == old(w.sent) + SymsBits(c, Zrls(r0 / 16) + ([ValueSym(r0 / 16 % 16, temp)] + rest))
  {
    hide CodesFit, WordWriter.Valid, NBits, ValueSym, SymsBits, SymBits, Zrls;
    CoefBits(c, w.sent, Zrls(r0 / 16), ValueSym(r0 / 16 % 16, temp), rest);
    var r := PutZrls(w, c, r0);
    PutValue(w, c, r / 16, temp);
  }

  /** One turn of the coefficient loop; r is sixteen times the run so far. */
  method PutCoef(w: WordWriter, c: CTable, ghost z: seq<int>, ghost k: nat, r0: nat, temp: int) returns (r: nat)
    requires w.Valid() && CodesFit(c) && k < |z| && temp == z[k] && NBits(Abs(temp)) < 16 && r0 % 16 == 0
    modifies w
    ensures w.Valid() && w.start == old(w.start) && r % 16 == 0
    ensures w.sent + SymsBits(c, AcSyms(z, k + 1, r / 16)) == old(w.sent) + SymsBits(c, AcSyms(z, k, r0 / 16))
  {
    hide *;
    AcSymsStep(z, k, r0 / 16);
    if temp == 0 {
      return r0 + 16;
    }
    PutNonzero(w, c, r0, temp, AcSyms(z, k + 1, 0));
    r := 0;
  }

  method PutEnd(w: WordWriter, c: CTable, ghost z: seq<int>, ghost k: nat, r: nat)
    requires w.Valid() && CodesFit(c) && k == |z| && r % 16 == 0
    modifies w
    ensures w.Valid() && w.start == old(w.start)
    ensures w.sent == old(w.sent) + SymsBits(c, AcSyms(z, k, r / 16))
  {
    hide CodesFit, WordWriter.Valid, SymsBits;
    AcSymsEnd(z, r / 16);
    SymsBitsNone(c);
    if r > 0 {
      PutSymbol(w, c, EOB, 0);
    }
  }

  /** The AC part of encode_one_block, coefficients in zigzag order. */
  method PutAc(w: WordWriter, c: CTable, block: seq<int>)
    requires w.Valid() && CodesFit(c) && |block| == 64 && AcInRange(Zig(block))
    modifies w
    ensures w.Valid() && w.start == old(w.start)
    ensures w.sent == old(w.sent) + SymsBits(c, BlockSyms(Zig(block)))
  {
    ghost var z := Zig(block);
    assert forall i :: 0 < i < 64 ==> NBits(Abs(z[i])) < 16;
    hide CodesFit, WordWriter.Valid, Order, AcSyms, NBits, SymsBits, BlockSyms, AcInRange;
    var k: nat, r: nat := 1, 0;
    BlockSymsFrom(z, k);
    while k < 64
      invariant w.Valid() && w.start == old(w.start) && 1 <= k <= 64 && r % 16 == 0
      invariant w.sent + SymsBits(c, AcSyms(z, k, r / 16)) == old(w.sent) + SymsBits(c, BlockSyms(z))
    {
      r := PutCoef(w, c, z, k, r, block[Order(k)]);
      k := k + 1;
    }
    PutEnd(w, c, z, k, r);
  }

  /** encode_one_block. */
  method EncodeOneBlock(w: WordWriter, block: seq<int>, lastDcVal: int, dctbl: CTable, actbl: CTable)
    requires w.Valid() && CodesFit(dctbl) && CodesFit(actbl) && |block| == 64
    requires AcInRange(Zig(block)) && DiffInRange(block[0] - lastDcVal)
    modifies w
    ensures w.Valid() && w.start == old(w.start)
    ensures w.sent == old(w.sent) + BlockBits(dctbl, actbl, Zig(block), block[0] - lastDcVal)
  {
    hide CodesFit, WordWriter.Valid, Zig, NBits, SymsBits, SymBits, BlockSyms, AcInRange;
    BitsAssoc(w.sent, SymBits(dctbl, DcSym(block[0] - lastDcVal)), SymsBits(actbl, BlockSyms(Zig(block))));
    PutValue(w, dctbl, 0, block[0] - lastDcVal);
    PutAc(w, actbl, block);
  }
}
