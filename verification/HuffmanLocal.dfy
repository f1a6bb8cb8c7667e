/** A decoder depends only on the bits it takes: what it makes of a stream with something left
    over, it makes of every stream that begins the same. */
module HuffmanLocal {
  import opened Coefficients
  import opened Powers
  import opened BitString
  import opened HuffmanCodes
  import opened HuffmanDecode
  import opened HuffmanBlock
  import opened HuffmanSymbols
  import opened HuffmanMcu
  import opened NaturalOrder

  // ----- Windows

  lemma WindowLocal(p: Bits, b: Bits, c: Bits, l: nat)
    requires l <= |p|
    ensures Window(p + b, l) == Window(p + c, l)
  {
    assert Ahead(p + b, l) == Ahead(p + c, l);
  }

  lemma DropLocal(p: Bits, b: Bits, n: nat)
    requires n <= |p|
    ensures Drop(p + b, n) == p[n..] + b
  {
  }

  /** With only the sentinel after them, the bits taken are those of p. */
  lemma WithinData(p: Bits, n: nat)
    requires Drop(p + [false], n) != []
    ensures n <= |p|
  {
  }

  // ----- Symbols

  /** The search stops at the same length. */
  lemma {:induction false} SearchLocal(maxcode: seq<int>, p: Bits, b: Bits, c: Bits, l: nat)
    requires |maxcode| == 18 && 1 <= l <= 17 && SlowLen(maxcode, Window(p + b, 17), l) <= |p|
    ensures SlowLen(maxcode, Window(p + c, 17), l) == SlowLen(maxcode, Window(p + b, 17), l)
    decreases 17 - l
  {
    hide Window;
    WindowLocal(p, b, c, l);
    CodeInWindow(p + b, l);
    CodeInWindow(p + c, l);
    hide Pow2;
    if Window(p + b, l) > maxcode[l] && l < 17 {
      SearchLocal(maxcode, p, b, c, l + 1);
    }
  }

  lemma SlowDecodeIs(x: DecTbl, b: Bits)
    requires DecTblOk(x)
    ensures |x.d.maxcode| == |x.d.valoffset| == 18 && |x.t.huffval| == 256
    ensures var l := SlowLen(x.d.maxcode, Window(b, 17), 1);
      && l <= 17
      && var i := Window(b, l) + x.d.valoffset[l];
         NextSymbol(x, b) == (if l > 16 || !(0 <= i < 256) then 0 else x.t.huffval[i], Drop(b, l))
  {
    hide *;
    SearchShape(x);
    CodeInWindow(b, SlowLen(x.d.maxcode, Window(b, 17), 1));
    SymbolUnfolds(x, b);
  }

  lemma SearchShape(x: DecTbl)
    requires DecTblOk(x)
    ensures |x.d.maxcode| == |x.d.valoffset| == 18 && |x.t.huffval| == 256
  {
  }

  lemma SymbolUnfolds(x: DecTbl, b: Bits)
    requires DecTblOk(x) && |x.d.maxcode| == |x.d.valoffset| == 18 && |x.t.huffval| == 256
    ensures var l := SlowLen(x.d.maxcode, Window(b, 17), 1);
      && l <= 17
      && var i := Window(b, 17) / Pow2(17 - l) + x.d.valoffset[l];
         NextSymbol(x, b) == (if l > 16 || !(0 <= i < 256) then 0 else x.t.huffval[i], Drop(b, l))
  {
    hide Derived, SlowLen, Window, Pow2, Drop, TblOk;
  }

  /** What is left of p once n bits have been taken. */
  function After(p: Bits, n: nat): Bits
    requires n <= |p|
  {
    p[n..]
  }

  lemma SymbolLocal(x: DecTbl, p: Bits, more: Bits) returns (q: Bits)
    requires NextSymbol(x, p + [false]).1 != []
    ensures NextSymbol(x, p + [false]) == (NextSymbol(x, p + [false]).0, q + [false])
    ensures NextSymbol(x, p + more) == (NextSymbol(x, p + [false]).0, q + more)
  {
    if DecTblOk(x) {
      SlowDecodeIs(x, p + [false]);
      SlowDecodeIs(x, p + more);
      var l := SlowLen(x.d.maxcode, Window(p + [false], 17), 1);
      hide NextSymbol, SlowLen, DecTblOk, Window, Drop;
      WithinData(p, l);
      SearchLocal(x.d.maxcode, p, [false], more, 1);
      WindowLocal(p, [false], more, l);
      DropLocal(p, [false], l);
      DropLocal(p, more, l);
      q := p[l..];
    } else {
      q := p;
    }
  }

  lemma ExtraLocal(p: Bits, n: nat, more: Bits) returns (q: Bits)
    requires Drop(p + [false], n) != []
    ensures Window(p + more, n) == Window(p + [false], n) && Drop(p + [false], n) == q + [false] && Drop(p + more, n) == q + more
  {
    WithinData(p, n);
    hide Window, Drop;
    WindowLocal(p, [false], more, n);
    DropLocal(p, [false], n);
    DropLocal(p, more, n);
    q := p[n..];
  }

  // ----- Past the end nothing comes back

  lemma DropNothing(n: nat)
    ensures Drop([], n) == []
  {
  }

  lemma NothingLeft(x: DecTbl)
    ensures NextSymbol(x, []).1 == [] && forall n: nat :: Drop([], n) == []
  {
    forall n: nat ensures Drop([], n) == [] {
      DropNothing(n);
    }
    if DecTblOk(x) {
      SlowDecodeIs(x, []);
    }
    hide SlowDecode, Drop;
  }

  lemma {:induction false} AcStaysEmpty(x: DecTbl, k: nat, z: seq<int>)
    requires |z| == DCTSIZE2
    ensures DecodeAc(x, [], k, z).1 == []
    decreases if k < DCTSIZE2 then DCTSIZE2 - k else 0
  {
    NothingLeft(x);
    hide NextSymbol, ToCoef, Extend, Window, Drop;
    if k < DCTSIZE2 {
      var (s, b1) := NextSymbol(x, []);
      var run, n := s / 16, s % 16;
      if n > 0 {
        AcStaysEmpty(x, k + run + 1, z[Slot(k + run) := ToCoef(Extend(Window(b1, n), n))]);
      } else if run == 15 {
        AcStaysEmpty(x, k + 16, z);
      }
    }
  }

  // ----- Blocks

  /** One turn of the coefficient loop. */
  lemma AcUnfolds(x: DecTbl, b: Bits, k: nat, z: seq<int>)
    requires |z| == DCTSIZE2
    ensures k >= DCTSIZE2 ==> DecodeAc(x, b, k, z) == (z, b)
    ensures k < DCTSIZE2 ==>
      var (s, b1) := NextSymbol(x, b);
      DecodeAc(x, b, k, z) ==
        if s % 16 > 0 then
          DecodeAc(x, Drop(b1, s % 16), k + s / 16 + 1, z[Slot(k + s / 16) := ToCoef(Extend(Window(b1, s % 16), s % 16))])
        else if s / 16 != 15 then (z, b1)
        else DecodeAc(x, b1, k + 16, z)
  {
    hide NextSymbol, ToCoef, Extend, Window, Drop;
  }

  lemma {:induction false} AcLocal(x: DecTbl, p: Bits, k: nat, z: seq<int>, more: Bits) returns (q: Bits)
    requires |z| == DCTSIZE2 && DecodeAc(x, p + [false], k, z).1 != []
    ensures DecodeAc(x, p + [false], k, z) == (DecodeAc(x, p + [false], k, z).0, q + [false])
    ensures DecodeAc(x, p + more, k, z) == (DecodeAc(x, p + [false], k, z).0, q + more)
    decreases if k < DCTSIZE2 then DCTSIZE2 - k else 0
  {
    hide *;
    AcUnfolds(x, p + [false], k, z);
    AcUnfolds(x, p + more, k, z);
    q := p;
    if k < DCTSIZE2 {
      SymbolMustRemain(x, p + [false], k, z);
      var s := NextSymbol(x, p + [false]).0;
      var q1 := SymbolLocal(x, p, more);
      q := q1;
      if s % 16 > 0 {
        var n := s % 16;
        var q2 := ExtraLocal(q1, n, more);
        q := AcLocal(x, q2, k + s / 16 + 1, z[Slot(k + s / 16) := ToCoef(Extend(Window(q1 + [false], n), n))], more);
      } else if s / 16 == 15 {
        q := AcLocal(x, q1, k + 16, z, more);
      }
    }
  }

  /** If something is left at the end, something was left all the way. */
  lemma SymbolMustRemain(x: DecTbl, b: Bits, k: nat, z: seq<int>)
    requires |z| == DCTSIZE2 && k < DCTSIZE2 && DecodeAc(x, b, k, z).1 != []
    ensures NextSymbol(x, b).1 != []
    ensures NextSymbol(x, b).0 % 16 > 0 ==> Drop(NextSymbol(x, b).1, NextSymbol(x, b).0 % 16) != []
  {
    hide *;
    AcUnfolds(x, b, k, z);
    NothingLeft(x);
    var (s, b1) := NextSymbol(x, b);
    if s % 16 > 0 {
      if b1 == [] || Drop(b1, s % 16) == [] {
        AcStaysEmpty(x, k + s / 16 + 1, z[Slot(k + s / 16) := ToCoef(Extend(Window(b1, s % 16), s % 16))]);
      }
    } else if s / 16 == 15 && b1 == [] {
      AcStaysEmpty(x, k + 16, z);
    }
  }

  lemma DiffUnfolds(x: DecTbl, b: Bits)
    ensures var (s, b1) := NextSymbol(x, b);
      DecodeDiff(x, b) == if s == 0 then (0, b1) else (Extend(Window(b1, s), s), Drop(b1, s))
  {
    hide NextSymbol, Extend, Window, Drop;
  }

  lemma DiffLocal(x: DecTbl, p: Bits, more: Bits) returns (q: Bits)
    requires DecodeDiff(x, p + [false]).1 != []
    ensures DecodeDiff(x, p + [false]) == (DecodeDiff(x, p + [false]).0, q + [false])
    ensures DecodeDiff(x, p + more) == (DecodeDiff(x, p + [false]).0, q + more)
  {
    hide *;
    DiffUnfolds(x, p + [false]);
    DiffUnfolds(x, p + more);
    NothingLeft(x);
    q := SymbolLocal(x, p, more);
    var s := NextSymbol(x, p + [false]).0;
    if s != 0 {
      q := ExtraLocal(q, s, more);
    }
  }

  lemma BlockUnfolds(dc: DecTbl, ac: DecTbl, b: Bits, last: int, z: seq<int>)
    requires |z| == DCTSIZE2
    ensures var (diff, b1) := DecodeDiff(dc, b);
      var r := DecodeAc(ac, b1, 1, z[0 := ToCoef(last + diff)]);
      DecodeBlock(dc, ac, b, last, z) == BlockRead(r.0, last + diff, r.1)
  {
    hide DecodeDiff, DecodeAc, ToCoef;
  }

  lemma BlockLocal(dc: DecTbl, ac: DecTbl, p: Bits, last: int, z: seq<int>, more: Bits) returns (q: Bits)
    requires |z| == DCTSIZE2 && DecodeBlock(dc, ac, p + [false], last, z).rest != []
    ensures DecodeBlock(dc, ac, p + [false], last, z).rest == q + [false]
    ensures DecodeBlock(dc, ac, p + more, last, z) == DecodeBlock(dc, ac, p + [false], last, z).(rest := q + more)
  {
    assert |z| > 0;
    hide *;
    BlockUnfolds(dc, ac, p + [false], last, z);
    BlockUnfolds(dc, ac, p + more, last, z);
    var (diff, b1) := DecodeDiff(dc, p + [false]);
    if b1 == [] {
      AcStaysEmpty(ac, 1, z[0 := ToCoef(last + diff)]);
    }
    q := DiffLocal(dc, p, more);
    q := AcLocal(ac, q, 1, z[0 := ToCoef(last + diff)], more);
  }

  lemma BlockStaysEmpty(dc: DecTbl, ac: DecTbl, last: int, z: seq<int>)
    requires |z| == DCTSIZE2
    ensures DecodeBlock(dc, ac, [], last, z).rest == []
  {
    assert |z| > 0;
    hide *;
    BlockUnfolds(dc, ac, [], last, z);
    DiffUnfolds(dc, []);
    NothingLeft(dc);
    AcStaysEmpty(ac, 1, z[0 := ToCoef(last + DecodeDiff(dc, []).0)]);
  }

  // ----- MCUs

  lemma McuUnfolds(cfg: seq<BlockCfg>, b: Bits, last: seq<int>, zs: seq<Block>, n: nat)
    requires McuShape(cfg, last, zs) && 0 < n <= |cfg|
    ensures var m, c := McuTo(cfg, b, last, zs, n - 1), cfg[n - 1];
      var r := DecodeBlock(c.dc, c.ac, m.rest, m.last[c.ci], zs[n - 1]);
      McuTo(cfg, b, last, zs, n) == McuRead(m.zs[n - 1 := r.z], m.last[c.ci := r.last], r.rest)
    ensures |McuTo(cfg, b, last, zs, n - 1).last| == |last| && cfg[n - 1].ci < |last| && |zs| == |cfg|
    ensures |zs[n - 1]| == DCTSIZE2
  {
    hide DecodeBlock;
  }

  lemma NoBlocksRead(cfg: seq<BlockCfg>, b: Bits, last: seq<int>, zs: seq<Block>, n: nat)
    requires McuShape(cfg, last, zs) && n == 0
    ensures McuTo(cfg, b, last, zs, n) == McuRead(zs, last, b)
  {
  }

  lemma {:induction false} McuLocal(cfg: seq<BlockCfg>, p: Bits, last: seq<int>, zs: seq<Block>, n: nat, more: Bits) returns (q: Bits)
    requires McuShape(cfg, last, zs) && n <= |cfg| && McuTo(cfg, p + [false], last, zs, n).rest != []
    ensures McuTo(cfg, p + [false], last, zs, n).rest == q + [false]
    ensures McuTo(cfg, p + more, last, zs, n) == McuTo(cfg, p + [false], last, zs, n).(rest := q + more)
  {
    hide *;
    if n == 0 {
      NoBlocksRead(cfg, p + [false], last, zs, n);
      NoBlocksRead(cfg, p + more, last, zs, n);
      q := p;
    } else {
      McuUnfolds(cfg, p + [false], last, zs, n);
      McuUnfolds(cfg, p + more, last, zs, n);
      var m, c := McuTo(cfg, p + [false], last, zs, n - 1), cfg[n - 1];
      if m.rest == [] {
        BlockStaysEmpty(c.dc, c.ac, m.last[c.ci], zs[n - 1]);
      }
      q := McuLocal(cfg, p, last, zs, n - 1, more);
      q := BlockLocal(c.dc, c.ac, q, m.last[c.ci], zs[n - 1], more);
    }
  }

  /** An MCU that leaves something of the data is the same whatever the data goes on with. */
  lemma DecodeLocal(cfg: seq<BlockCfg>, p: Bits, last: seq<int>, zs: seq<Block>, more: Bits) returns (q: Bits)
    requires McuShape(cfg, last, zs) && DecodeMcu(cfg, p + [false], last, zs).rest != []
    ensures DecodeMcu(cfg, p + [false], last, zs).rest == q + [false]
    ensures DecodeMcu(cfg, p + more, last, zs) == DecodeMcu(cfg, p + [false], last, zs).(rest := q + more)
  {
    hide McuTo;
    q := McuLocal(cfg, p, last, zs, |cfg|, more);
  }
}
