/** Reading one Huffman symbol from the bit buffer: jpeg_huff_decode and HUFF_DECODE. */
module HuffmanSymbols {
  import opened Powers
  import opened BitString
  import opened HuffmanCodes
  import opened HuffmanDecode
  import opened HuffmanBlock
  import opened HuffmanReader

  lemma DropDrop(b: Bits, m: nat, n: nat)
    ensures Drop(Drop(b, m), n) == Drop(b, m + n)
  {
  }

  lemma WindowNext(b: Bits, l: nat)
    ensures Window(b, l + 1) == 2 * Window(b, l) + Window(Drop(b, l), 1)
  {
    var a := Ahead(b, l + 1);
    assert a[..l] == Ahead(b, l);
    assert Ahead(Drop(b, l), 1) == [At(b, l)] && [At(b, l)][..0] == [];
    assert NumOf([At(b, l)]) == if At(b, l) then 1 else 0;
  }

  lemma ShortLookup(t: HuffTbl, d: DTable, w: nat, p: nat)
    requires TblOk(t) && Derived(t, d) && w < 0x20000 && p < |Sizes(t.bits, 16)|
    requires Start(Sizes(t.bits, 16), p) <= w / 2 < Start(Sizes(t.bits, 16), p + 1)
    ensures Sizes(t.bits, 16)[p] <= HUFF_LOOKAHEAD ==> d.lookup[w / 512] / 256 <= HUFF_LOOKAHEAD
  {
    var s := Sizes(t.bits, 16);
    assert w / 512 == w / 2 / 256;
    hide Sizes, Start, Uncovered, LengthOk;
    if s[p] <= HUFF_LOOKAHEAD {
      TopByte(s, p, w / 2);
      assert InLookup(t, s, d.lookup, p);
    }
  }

  /** Wherever the search stops, the offset leads into the list of symbols. */
  lemma SymbolInBounds(t: HuffTbl, d: DTable, w: nat, min: nat)
    requires TblOk(t) && Derived(t, d) && w < 0x20000 && (min == 1 || (min == 9 && d.lookup[w / 512] / 256 > HUFF_LOOKAHEAD))
    ensures var l := SlowLen(d.maxcode, w, min);
      l <= 16 ==> 0 <= w / Pow2(17 - l) + d.valoffset[l] < 256
  {
    var s := Sizes(t.bits, 16);
    hide Sizes, Start, Code, Pow2, SlowLen, Begins;
    assert LeavesRoom(s) && |s| <= 256;
    if w / 2 < Start(s, |s|) {
      var p := SomeCode(s, |s|, w / 2);
      BeginsIff(s, p, w / 2);
      ShortLookup(t, d, w, p);
      SlowFinds(t, d, p, w, min);
    } else {
      SlowMisses(t, d, w, min);
    }
  }

  lemma WindowBound(b: Bits)
    ensures Window(b, 17) < 0x20000
  {
    Pow2Table();
    assert Pow2(17) == 2 * Pow2(16);
  }

  lemma CodeInWindow(b: Bits, l: nat)
    requires l <= 17
    ensures Window(b, 17) / Pow2(17 - l) == Window(b, l)
  {
    WindowTopBits(b, 17, l);
  }

  /** One turn of the bit-by-bit search. */
  lemma SearchStep(maxcode: seq<int>, b: Bits, l: nat)
    requires |maxcode| == 18 && maxcode[17] == 0xFFFFF && 1 <= l <= 17
    ensures Window(b, l) > maxcode[l] ==> l < 17 && SlowLen(maxcode, Window(b, 17), l) == SlowLen(maxcode, Window(b, 17), l + 1)
    ensures Window(b, l) <= maxcode[l] ==> SlowLen(maxcode, Window(b, 17), l) == l
  {
    CodeInWindow(b, l);
    WindowBound(b);
    hide Window;
  }

  /** The bit-by-bit search of figure F.16, from the first l bits on: the length at which it
      stops, and the bits up to there. */
  method SearchCode(r: BitReader, maxcode: seq<int>, ghost b: Bits, min: nat, ghost stock: int) returns (ok: bool, l: nat, code: nat)
    requires r.Valid() && |maxcode| == 18 && maxcode[17] == 0xFFFFF && 1 <= min <= 17 && b == r.rest && r.Stocked(stock)
    modifies r
    ensures r.future == old(r.future) && (!ok ==> r.future != [] && !r.insufficientData)
    ensures ok ==> r.Valid() && l == SlowLen(maxcode, Window(b, 17), min) && code == Window(b, l) && r.rest == Drop(b, l)
    ensures ok ==> l <= 17 && r.Stocked(stock - l)
    ensures stock >= MIN_GET_BITS + 17 ==> ok
  {
    hide SlowLen, Window, BitReader.Asked, BitReader.Stocked, Drop;
    l, code := min, 0;
    ok := r.CheckBitBuffer(l, stock);
    if !ok {
      return;
    }
    code := r.GetBits(l, stock);
    while code > maxcode[l]
      invariant r.Valid() && r.future == old(r.future) && min <= l <= 17 && ok && r.Stocked(stock - l)
      invariant code == Window(b, l) && r.rest == Drop(b, l)
      invariant SlowLen(maxcode, Window(b, 17), l) == SlowLen(maxcode, Window(b, 17), min)
      decreases 17 - l
    {
      SearchStep(maxcode, b, l);
      WindowNext(b, l);
      DropDrop(b, l, 1);
      ok := r.CheckBitBuffer(1, stock - l);
      if !ok {
        return;
      }
      var bit := r.GetBits(1, stock - l);
      code := code * 2 + bit;
      l := l + 1;
    }
    SearchStep(maxcode, b, l);
  }

  /** jpeg_huff_decode: the code is known to be at least min bits long. */
  method HuffDecodeSlow(r: BitReader, x: DecTbl, min: nat, ghost stock: int) returns (ok: bool, s: nat)
    requires r.Valid() && DecTblOk(x) && Window(r.rest, 17) < 0x20000
    requires min == 1 || (min == 9 && x.d.lookup[Window(r.rest, 17) / 512] / 256 > HUFF_LOOKAHEAD)
    requires r.Stocked(stock)
    modifies r
    ensures r.future == old(r.future) && (!ok ==> r.future != [] && !r.insufficientData)
    ensures ok ==> r.Valid() && s == SlowDecode(x.t, x.d, Window(old(r.rest), 17), min).0
    ensures ok ==> r.rest == Drop(old(r.rest), SlowDecode(x.t, x.d, Window(old(r.rest), 17), min).1)
    ensures ok ==> r.Stocked(stock - 17) && (s != 0 ==> r.Stocked(stock - 16))
    ensures stock >= MIN_GET_BITS + 17 ==> ok
  {
    ghost var b := r.rest;
    TableShape(x);
    hide DecTblOk, SlowLen, Window, BitReader.Asked, Drop, SlowDecode;
    s := 0;
    var l, code;
    ok, l, code := SearchCode(r, x.d.maxcode, b, min, stock);
    if ok {
      SlowSymbol(x, b, min, l, code);
      if l <= 16 {
        s := x.t.huffval[code + x.d.valoffset[l]];
      }
    }
  }

  lemma TableShape(x: DecTbl)
    requires DecTblOk(x)
    ensures |x.d.maxcode| == |x.d.valoffset| == 18 && x.d.maxcode[17] == 0xFFFFF && |x.d.lookup| == |x.t.huffval| == 256
  {
  }

  lemma SlowSymbol(x: DecTbl, b: Bits, min: nat, l: nat, code: nat)
    requires DecTblOk(x) && |x.d.maxcode| == |x.d.valoffset| == 18 && |x.d.lookup| == |x.t.huffval| == 256
    requires Window(b, 17) < 0x20000 && (min == 1 || (min == 9 && x.d.lookup[Window(b, 17) / 512] / 256 > HUFF_LOOKAHEAD))
    requires l == SlowLen(x.d.maxcode, Window(b, 17), min) && code == Window(b, l)
    ensures l <= 16 ==> 0 <= code + x.d.valoffset[l] < 256
    ensures SlowDecode(x.t, x.d, Window(b, 17), min) == (if l > 16 then 0 else x.t.huffval[code + x.d.valoffset[l]], l)
  {
    hide *;
    SymbolIn(x, b, min, l);
    CodeInWindow(b, l);
    SlowDecodeAt(x, Window(b, 17), min, l, code);
  }

  lemma SymbolIn(x: DecTbl, b: Bits, min: nat, l: nat)
    requires DecTblOk(x) && |x.d.maxcode| == |x.d.valoffset| == 18 && |x.d.lookup| == 256 && Window(b, 17) < 0x20000
    requires (min == 1 || (min == 9 && x.d.lookup[Window(b, 17) / 512] / 256 > HUFF_LOOKAHEAD))
    requires l == SlowLen(x.d.maxcode, Window(b, 17), min)
    ensures TblOk(x.t) && 1 <= min <= 17 && l <= 17
    ensures l <= 16 ==> 0 <= Window(b, 17) / Pow2(17 - l) + x.d.valoffset[l] < 256
  {
    hide Derived, SlowLen, Window, Pow2, TblOk;
    SymbolInBounds(x.t, x.d, Window(b, 17), min);
  }

  lemma SlowDecodeAt(x: DecTbl, w: nat, min: nat, l: nat, code: nat)
    requires TblOk(x.t) && |x.d.maxcode| == |x.d.valoffset| == 18 && |x.t.huffval| == 256 && 1 <= min <= 17
    requires l == SlowLen(x.d.maxcode, w, min) && l <= 17 && w / Pow2(17 - l) == code
    requires l <= 16 ==> 0 <= code + x.d.valoffset[l] < 256
    ensures SlowDecode(x.t, x.d, w, min) == (if l > 16 then 0 else x.t.huffval[code + x.d.valoffset[l]], l)
  {
    hide SlowLen, Pow2, TblOk;
  }

  lemma LookWindow(b: Bits)
    ensures Window(b, 17) < 0x20000 && Window(b, 17) / 512 == Window(b, 8) < 256
  {
    WindowBound(b);
    CodeInWindow(b, 8);
    Pow2Table();
    assert Pow2(9) == 2 * Pow2(8);
  }

  /** HUFF_DECODE: lookahead if eight bits are at hand, otherwise, or for a long code, bit by bit. */
  method HuffDecode(r: BitReader, x: DecTbl, ghost stock: int) returns (ok: bool, s: nat)
    requires r.Valid() && DecTblOk(x) && r.Stocked(stock)
    modifies r
    ensures r.future == old(r.future) && (!ok ==> r.future != [] && !r.insufficientData)
    ensures ok ==> r.Valid() && (s, r.rest) == NextSymbol(x, old(r.rest))
    ensures ok ==> r.Stocked(stock - 17) && (s != 0 ==> r.Stocked(stock - 16))
    ensures stock >= MIN_GET_BITS + 17 ==> ok
  {
    ghost var b := r.rest;
    LookWindow(b);
    LookIsSlow(x.t, x.d, Window(b, 17));
    assert |x.d.maxcode| == |x.d.valoffset| == 18 && |x.d.lookup| == 256;
    hide Derived, SlowDecode, Window, BitReader.Asked, Drop;
    s := 0;
    if r.bitsLeft < HUFF_LOOKAHEAD {
      ok := r.FillBitBuffer(0, stock);
      if !ok {
        return;
      }
      if r.bitsLeft < HUFF_LOOKAHEAD {
        ok, s := HuffDecodeSlow(r, x, 1, stock);
        return;
      }
    }
    var look := r.PeekBits(HUFF_LOOKAHEAD);
    var nb := x.d.lookup[look] / 256;
    if nb <= HUFF_LOOKAHEAD {
      s := x.d.lookup[look] % 256;
      var code := r.GetBits(nb, stock);
      ok := true;
    } else {
      AtLeastNine(x.t, x.d, look);
      ok, s := HuffDecodeSlow(r, x, nb, stock);
    }
  }

  /** The "too long" entry. */
  lemma AtLeastNine(t: HuffTbl, d: DTable, look: nat)
    requires TblOk(t) && Derived(t, d) && look < 256 && d.lookup[look] / 256 > HUFF_LOOKAHEAD
    ensures d.lookup[look] / 256 == 9
  {
    var s := Sizes(t.bits, 16);
    assert SizesOk(s) && Uncovered(s, d.lookup, |s|);
    hide Start, Sizes, LengthOk;
    forall p | 0 <= p < |s| && s[p] <= HUFF_LOOKAHEAD ensures !(Start(s, p) <= look * 256 < Start(s, p + 1)) {
      assert InLookup(t, s, d.lookup, p);
    }
  }
}
