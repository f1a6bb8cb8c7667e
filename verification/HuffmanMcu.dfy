/** decode_mcu_slow: an MCU from the bit buffer into memory.  If the source runs dry the call
    fails, nothing it must keep has changed, and a retry gives what one attempt would have. */
module HuffmanMcu {
  import opened Coefficients
  import opened Powers
  import opened BitString
  import opened HuffmanCodes
  import opened HuffmanDecode
  import opened HuffmanBlock
  import opened HuffmanReader
  import opened HuffmanSymbols
  import opened NaturalOrder
  import opened BlockMemory

  /** A symbol and its extra bits. */
  const MAX_SYMBOL_BITS: nat := 31
  /** A block is a DC symbol and at most 63 others. */
  const MAX_BLOCK_BITS: nat := 1984

  /** The most that n blocks can take. */
  function BlocksBits(n: nat): nat {
    1984 * n
  }

  // ----- Which coefficients decoding writes

  /** Coefficient j is written when decoding goes on from coefficient k. */
  ghost predicate Writes(x: DecTbl, b: Bits, k: nat, j: nat)
    decreases if k < DCTSIZE2 then DCTSIZE2 - k else 0
  {
    if k >= DCTSIZE2 then false else
    var (s, b1) := NextSymbol(x, b);
    var run, n := s / 16, s % 16;
    if n > 0 then Slot(k + run) == j || Writes(x, Drop(b1, n), k + run + 1, j)
    else if run != 15 then false
    else Writes(x, b1, k + 16, j)
  }

  /** What a written coefficient held before does not matter. */
  lemma {:induction false} WrittenIrrelevant(x: DecTbl, b: Bits, k: nat, y: seq<int>, z: seq<int>)
    requires |y| == |z| == DCTSIZE2 && forall j :: 0 <= j < DCTSIZE2 ==> y[j] == z[j] || Writes(x, b, k, j)
    ensures DecodeAc(x, b, k, y) == DecodeAc(x, b, k, z)
    decreases if k < DCTSIZE2 then DCTSIZE2 - k else 0
  {
    hide NextSymbol, ToCoef, Extend, Window, Drop;
    if k >= DCTSIZE2 {
      assert y == z;
    } else {
      var (s, b1) := NextSymbol(x, b);
      var run, n := s / 16, s % 16;
      if n > 0 {
        var i, v := Slot(k + run), ToCoef(Extend(Window(b1, n), n));
        WrittenIrrelevant(x, Drop(b1, n), k + run + 1, y[i := v], z[i := v]);
      } else if run != 15 {
        assert y == z;
      } else {
        WrittenIrrelevant(x, b1, k + 16, y, z);
      }
    }
  }

  /** How far the coefficient loop has got: from here it does what it would have done from the
      start, and it has changed only coefficients it writes. */
  ghost predicate Underway(x: DecTbl, b0: Bits, k0: nat, z0: seq<int>, b: Bits, k: nat, z: seq<int>) {
    && |z0| == |z| == DCTSIZE2
    && DecodeAc(x, b, k, z) == DecodeAc(x, b0, k0, z0)
    && (forall j :: 0 <= j < DCTSIZE2 ==> z[j] == z0[j] || Writes(x, b0, k0, j))
    && forall j: nat :: Writes(x, b, k, j) ==> Writes(x, b0, k0, j)
  }

  lemma UnderwayStarts(x: DecTbl, b: Bits, k: nat, z: seq<int>)
    requires |z| == DCTSIZE2
    ensures Underway(x, b, k, z, b, k, z)
  {
  }

  /** Starting over from where it has got gives the same result. */
  lemma UnderwayRetry(x: DecTbl, b0: Bits, k0: nat, z0: seq<int>, b: Bits, k: nat, z: seq<int>)
    requires Underway(x, b0, k0, z0, b, k, z)
    ensures DecodeAc(x, b0, k0, z) == DecodeAc(x, b0, k0, z0)
    ensures k0 > 0 ==> z[0] == z0[0]
  {
    hide DecodeAc, Writes;
    WrittenIrrelevant(x, b0, k0, z, z0);
    if k0 > 0 {
      DcNotWritten(x, b0, k0);
    }
  }

  lemma {:induction false} DcNotWritten(x: DecTbl, b: Bits, k: nat)
    requires k > 0
    ensures !Writes(x, b, k, 0)
    decreases if k < DCTSIZE2 then DCTSIZE2 - k else 0
  {
    hide NextSymbol;
    if k < DCTSIZE2 {
      var (s, b1) := NextSymbol(x, b);
      if s % 16 > 0 {
        DcNotWritten(x, Drop(b1, s % 16), k + s / 16 + 1);
      } else if s / 16 == 15 {
        DcNotWritten(x, b1, k + 16);
      }
    }
  }

  lemma UnderwayValue(x: DecTbl, b0: Bits, k0: nat, z0: seq<int>, b: Bits, k: nat, z: seq<int>)
    requires Underway(x, b0, k0, z0, b, k, z) && k < DCTSIZE2
    ensures var (s, b1) := NextSymbol(x, b);
      s % 16 > 0 ==>
        Underway(x, b0, k0, z0, Drop(b1, s % 16), k + s / 16 + 1, z[Slot(k + s / 16) := ToCoef(Extend(Window(b1, s % 16), s % 16))])
  {
    hide NextSymbol, ToCoef, Extend, Window, Drop;
    var (s, b1) := NextSymbol(x, b);
    if s % 16 > 0 {
      assert Writes(x, b, k, Slot(k + s / 16));
      forall j: nat | Writes(x, Drop(b1, s % 16), k + s / 16 + 1, j) ensures Writes(x, b0, k0, j) {
        assert Writes(x, b, k, j);
      }
    }
  }

  lemma UnderwaySkip(x: DecTbl, b0: Bits, k0: nat, z0: seq<int>, b: Bits, k: nat, z: seq<int>)
    requires Underway(x, b0, k0, z0, b, k, z) && k < DCTSIZE2
    ensures var (s, b1) := NextSymbol(x, b);
      && (s % 16 == 0 && s / 16 == 15 ==> Underway(x, b0, k0, z0, b1, k + 16, z))
      && (s % 16 == 0 && s / 16 != 15 ==> DecodeAc(x, b0, k0, z0) == (z, b1))
  {
    hide NextSymbol, ToCoef, Extend, Window, Drop;
    var (s, b1) := NextSymbol(x, b);
    if s % 16 == 0 && s / 16 == 15 {
      forall j: nat | Writes(x, b1, k + 16, j) ensures Writes(x, b0, k0, j) {
        assert Writes(x, b, k, j);
      }
    }
  }

  lemma UnderwayEnds(x: DecTbl, b0: Bits, k0: nat, z0: seq<int>, b: Bits, k: nat, z: seq<int>)
    requires Underway(x, b0, k0, z0, b, k, z) && k >= DCTSIZE2
    ensures DecodeAc(x, b0, k0, z0) == (z, b)
  {
  }

  // ----- One block

  /** The value after a symbol with n extra bits. */
  method ReceiveExtend(r: BitReader, n: nat, ghost stock: int) returns (ok: bool, v: int)
    requires r.Valid() && 0 < n <= 15 && r.Stocked(stock)
    modifies r
    ensures r.future == old(r.future) && (!ok ==> r.future != [] && !r.insufficientData)
    ensures ok ==> r.Valid() && v == Extend(Window(old(r.rest), n), n) && r.rest == Drop(old(r.rest), n)
    ensures ok ==> r.Stocked(stock - 15)
    ensures stock >= MIN_GET_BITS ==> ok
  {
    hide BitReader.Asked, Window, Drop, Extend;
    v := 0;
    ok := r.CheckBitBuffer(n, stock);
    if ok {
      var x := r.GetBits(n, stock);
      v := Extend(x, n);
    }
  }

  /** The coefficient loop. */
  method DecodeAcLoop(r: BitReader, x: DecTbl, k0: nat, block: array<int>, ghost stock: int) returns (ok: bool)
    requires r.Valid() && DecTblOk(x) && block.Length == 64 && r.Stocked(stock) && 0 < k0 <= DCTSIZE2
    modifies r, block
    ensures r.future == old(r.future) && (!ok ==> r.future != [] && !r.insufficientData)
    ensures ok ==> r.Valid() && DecodeAc(x, old(r.rest), k0, Zig(old(block[..]))) == (Zig(block[..]), r.rest)
    ensures DecodeAc(x, old(r.rest), k0, Zig(block[..])) == DecodeAc(x, old(r.rest), k0, Zig(old(block[..])))
    ensures Zig(block[..])[0] == Zig(old(block[..]))[0]
    ensures ok ==> r.Stocked(stock - 63 * 31)
    ensures stock >= MIN_GET_BITS + 63 * 31 ==> ok
  {
    hide BitReader.Asked, DecTblOk, Underway, DecodeAc, NextSymbol, Window, Drop, Extend, ToCoef, Zig;
    ghost var b0, z0 := r.rest, Zig(block[..]);
    UnderwayStarts(x, b0, k0, z0);
    var k := k0;
    ghost var turns: nat := 0;
    ok := true;
    while k < DCTSIZE2
      invariant r.Valid() && r.future == old(r.future) && ok && r.Stocked(stock - 31 * turns)
      invariant turns <= 64 - k0 && (k < 64 ==> turns <= k - k0)
      invariant Underway(x, b0, k0, z0, r.rest, k, Zig(block[..]))
      decreases if k < DCTSIZE2 then DCTSIZE2 - k else 0
    {
      ghost var b, z := r.rest, Zig(block[..]);
      UnderwayRetry(x, b0, k0, z0, b, k, z);
      UnderwayValue(x, b0, k0, z0, b, k, z);
      UnderwaySkip(x, b0, k0, z0, b, k, z);
      var s;
      ok, s := HuffDecode(r, x, stock - 31 * turns);
      if !ok {
        return;
      }
      var run, n := s / 16, s % 16;
      if n != 0 {
        k := k + run;
        var v;
        ok, v := ReceiveExtend(r, n, stock - 31 * turns - 16);
        if !ok {
          return;
        }
        Store(block, Slot(k), ToCoef(v));
      } else {
        if run != 15 {
          return;
        }
        k := k + 15;
      }
      k := k + 1;
      turns := turns + 1;
    }
    UnderwayEnds(x, b0, k0, z0, r.rest, k, Zig(block[..]));
    UnderwayRetry(x, b0, k0, z0, r.rest, k, Zig(block[..]));
  }

  /** A DC table has categories up to 15 only. */
  ghost predicate DcTbl(x: DecTbl) {
    DecTblOk(x) && Decodable(x.t, true)
  }

  lemma DcSymbolSmall(x: DecTbl, b: Bits)
    requires DcTbl(x)
    ensures NextSymbol(x, b).0 <= 15
  {
    var s, w := Sizes(x.t.bits, 16), Window(b, 17);
    hide Sizes, Start, Code, SlowDecode, Window, Begins, Derived, Pow2;
    WindowBound(b);
    if w / 2 < Start(s, |s|) {
      var p := SomeCode(s, |s|, w / 2);
      BeginsIff(s, p, w / 2);
      CodeDecodes(x.t, x.d, p, w, 1);
    } else {
      MissesBoth(x.t, x.d, w);
    }
  }

  /** Section F.2.2.1: the DC difference. */
  method ReceiveDiff(r: BitReader, x: DecTbl, ghost stock: int) returns (ok: bool, diff: int)
    requires r.Valid() && DcTbl(x) && r.Stocked(stock)
    modifies r
    ensures r.future == old(r.future) && (!ok ==> r.future != [] && !r.insufficientData)
    ensures ok ==> r.Valid() && (diff, r.rest) == DecodeDiff(x, old(r.rest))
    ensures ok ==> r.Stocked(stock - MAX_SYMBOL_BITS)
    ensures stock >= MIN_GET_BITS + MAX_SYMBOL_BITS ==> ok
  {
    DcSymbolSmall(x, r.rest);
    assert DecTblOk(x);
    hide BitReader.Asked, DecTblOk, DcTbl, NextSymbol, Window, Drop, Extend;
    diff := 0;
    var s;
    ok, s := HuffDecode(r, x, stock);
    if ok && s != 0 {
      ok, diff := ReceiveExtend(r, s, stock - 16);
    }
  }

  /** The tables and the component of a block of the MCU. */
  datatype BlockCfg = BlockCfg(ci: nat, dc: DecTbl, ac: DecTbl)

  ghost predicate CfgOk(cfg: seq<BlockCfg>, ncomps: nat) {
    forall i :: 0 <= i < |cfg| ==> cfg[i].ci < ncomps && DcTbl(cfg[i].dc) && DecTblOk(cfg[i].ac)
  }

  /** One block of decode_mcu_slow. */
  method DecodeOneBlock(r: BitReader, c: BlockCfg, last: int, block: array<int>, ghost stock: int) returns (ok: bool, next: int)
    requires r.Valid() && DcTbl(c.dc) && DecTblOk(c.ac) && block.Length == 64 && r.Stocked(stock)
    modifies r, block
    ensures r.future == old(r.future) && (!ok ==> r.future != [] && !r.insufficientData)
    ensures ok ==> r.Valid() && DecodeBlock(c.dc, c.ac, old(r.rest), last, Zig(old(block[..]))) == BlockRead(Zig(block[..]), next, r.rest)
    ensures DecodeBlock(c.dc, c.ac, old(r.rest), last, Zig(block[..])) == DecodeBlock(c.dc, c.ac, old(r.rest), last, Zig(old(block[..])))
    ensures ok ==> r.Stocked(stock - MAX_BLOCK_BITS)
    ensures stock >= MIN_GET_BITS + MAX_BLOCK_BITS ==> ok
  {
    hide BitReader.Asked, DecTblOk, DcTbl, DecodeDiff, DecodeAc, ToCoef, Zig;
    ghost var z := Zig(block[..]);
    var diff;
    ok, diff := ReceiveDiff(r, c.dc, stock);
    next := last + diff;
    if ok {
      Store(block, 0, ToCoef(next));
      ghost var y, b := Zig(block[..]), r.rest;
      ok := DecodeAcLoop(r, c.ac, 1, block, stock - MAX_SYMBOL_BITS);
      assert Zig(block[..])[0 := ToCoef(next)] == Zig(block[..]);
    }
  }

  // ----- The blocks of an MCU

  datatype McuRead = McuRead(zs: seq<Block>, last: seq<int>, rest: Bits)

  ghost predicate McuShape(cfg: seq<BlockCfg>, last: seq<int>, zs: seq<Block>) {
    |zs| == |cfg| && forall i :: 0 <= i < |cfg| ==> cfg[i].ci < |last|
  }

  /** The first n blocks decoded: blocks, predictions and the bits left. */
  ghost function McuTo(cfg: seq<BlockCfg>, b: Bits, last: seq<int>, zs: seq<Block>, n: nat): (r: McuRead)
    requires McuShape(cfg, last, zs) && n <= |cfg|
    ensures |r.zs| == |zs| && |r.last| == |last|
  {
    if n == 0 then McuRead(zs, last, b) else
    var m, c := McuTo(cfg, b, last, zs, n - 1), cfg[n - 1];
    var r := DecodeBlock(c.dc, c.ac, m.rest, m.last[c.ci], zs[n - 1]);
    McuRead(m.zs[n - 1 := r.z], m.last[c.ci := r.last], r.rest)
  }

  ghost function DecodeMcu(cfg: seq<BlockCfg>, b: Bits, last: seq<int>, zs: seq<Block>): (r: McuRead)
    requires McuShape(cfg, last, zs)
    ensures |r.zs| == |zs| && |r.last| == |last|
  {
    McuTo(cfg, b, last, zs, |cfg|)
  }

  /** Block i of ys is as good a start as block i of zs. */
  ghost predicate AsGood(cfg: seq<BlockCfg>, b: Bits, last: seq<int>, zs: seq<Block>, i: nat, y: Block)
    requires McuShape(cfg, last, zs) && i < |cfg|
  {
    var m, c := McuTo(cfg, b, last, zs, i), cfg[i];
    DecodeBlock(c.dc, c.ac, m.rest, m.last[c.ci], y) == DecodeBlock(c.dc, c.ac, m.rest, m.last[c.ci], zs[i])
  }

  lemma {:induction false} RetryTo(cfg: seq<BlockCfg>, b: Bits, last: seq<int>, ys: seq<Block>, zs: seq<Block>, n: nat)
    requires McuShape(cfg, last, zs) && McuShape(cfg, last, ys) && n <= |cfg|
    requires forall i :: 0 <= i < |cfg| ==> AsGood(cfg, b, last, zs, i, ys[i])
    ensures var (p, q) := (McuTo(cfg, b, last, ys, n), McuTo(cfg, b, last, zs, n));
      p.last == q.last && p.rest == q.rest && forall i :: 0 <= i < |cfg| ==> p.zs[i] == if i < n then q.zs[i] else ys[i]
  {
    hide DecodeBlock;
    if n > 0 {
      RetryTo(cfg, b, last, ys, zs, n - 1);
      assert AsGood(cfg, b, last, zs, n - 1, ys[n - 1]);
    }
  }

  /** Decoding again over what a broken-off attempt has left gives the same MCU. */
  lemma Retry(cfg: seq<BlockCfg>, b: Bits, last: seq<int>, ys: seq<Block>, zs: seq<Block>)
    requires McuShape(cfg, last, zs) && McuShape(cfg, last, ys)
    requires forall i :: 0 <= i < |cfg| ==> AsGood(cfg, b, last, zs, i, ys[i])
    ensures DecodeMcu(cfg, b, last, ys) == DecodeMcu(cfg, b, last, zs)
  {
    hide McuTo, AsGood;
    RetryTo(cfg, b, last, ys, zs, |cfg|);
    assert DecodeMcu(cfg, b, last, ys).zs == DecodeMcu(cfg, b, last, zs).zs;
  }

  lemma {:induction false} Untaken(cfg: seq<BlockCfg>, b: Bits, last: seq<int>, zs: seq<Block>, n: nat)
    requires McuShape(cfg, last, zs) && n <= |cfg|
    ensures forall i :: n <= i < |cfg| ==> McuTo(cfg, b, last, zs, n).zs[i] == zs[i]
  {
    hide DecodeBlock;
    if n > 0 {
      Untaken(cfg, b, last, zs, n - 1);
    }
  }

  /** One block of the MCU, in memory. */
  method DecodeNthBlock(r: BitReader, cfg: seq<BlockCfg>, ghost b: Bits, ghost last0: seq<int>, ghost zs: seq<Block>,
      i: nat, last: seq<int>, mem: seq<array<int>>, ghost stock: int) returns (ok: bool, next: seq<int>)
    requires r.Stocked(stock) && r.Valid() && Memory(mem) && |mem| == |cfg| && McuShape(cfg, last0, zs) && |last| == |last0| && CfgOk(cfg, |last|)
    requires i < |cfg| && McuTo(cfg, b, last0, zs, i) == McuRead(Held(mem), last, r.rest)
    modifies r, mem
    ensures r.future == old(r.future) && (!ok ==> r.future != [] && !r.insufficientData)
    ensures ok ==> r.Valid() && McuTo(cfg, b, last0, zs, i + 1) == McuRead(Held(mem), next, r.rest)
    ensures |next| == |last| && AsGood(cfg, b, last0, zs, i, Held(mem)[i]) && Held(mem) == old(Held(mem))[i := Held(mem)[i]]
    ensures ok ==> r.Stocked(stock - MAX_BLOCK_BITS)
    ensures stock >= MIN_GET_BITS + MAX_BLOCK_BITS ==> ok
  {
    Untaken(cfg, b, last0, zs, i);
    hide BitReader.Asked, DecTblOk, DcTbl, DecodeBlock, Zig;
    var block, c := mem[i], cfg[i];
    ghost var was := Held(mem);
    assert forall j :: 0 <= j < |mem| ==> was[j] == Zig(mem[j][..]);
    hide Held;
    assert CfgOk(cfg, |last|) && DcTbl(c.dc) && DecTblOk(c.ac);
    var v;
    ok, v := DecodeOneBlock(r, c, last[c.ci], block, stock);
    next := last[c.ci := v];
    forall j | 0 <= j < |mem| && j != i ensures Zig(mem[j][..]) == was[j] {
      assert mem[j][..] == old(mem[j][..]);
    }
    HeldUpdate(mem, was, i);
  }

  /** decode_mcu_slow.  If it fails, delivered bytes have run out; the state is what it was,
      and the blocks, whatever has been put in them, are as good for the next attempt. */
  method DecodeMcuSlow(r: BitReader, cfg: seq<BlockCfg>, saved: seq<int>, mem: seq<array<int>>, ghost stock: int)
      returns (ok: bool, last: seq<int>)
    requires r.Valid() && Memory(mem) && |mem| == |cfg| && CfgOk(cfg, |saved|) && !r.insufficientData && r.Stocked(stock)
    modifies r, mem
    ensures McuShape(cfg, saved, old(Held(mem))) && r.Valid() && r.future == old(r.future)
    ensures ok ==> DecodeMcu(cfg, old(r.rest), saved, old(Held(mem))) == McuRead(Held(mem), last, r.rest)
    ensures !ok ==> r.future != [] && r.rest == old(r.rest) && last == saved
                    && r.Untouched(old(r.src), old(r.unreadMarker), old(r.getBuffer), old(r.bitsLeft))
    ensures !ok ==> DecodeMcu(cfg, r.rest, saved, Held(mem)) == DecodeMcu(cfg, r.rest, saved, old(Held(mem)))
    ensures !ok ==> !r.insufficientData
    ensures stock >= MIN_GET_BITS + BlocksBits(|cfg|) ==> ok
  {
    var src, marker, buffer, left := r.src, r.unreadMarker, r.getBuffer, r.bitsLeft;
    ghost var b := r.rest;
    CfgShape(cfg, saved, Held(mem));
    hide Reads, CfgOk, Held, DecodeMcu, BitReader.Stocked, Plain;
    ok, last := SlowBlocks(r, cfg, saved, mem, stock);
    if !ok {
      r.Restore(src, marker, buffer, left, b);
      last := saved;
    }
  }

  /** The first i blocks are decoded, and every block is as good a start as it was. */
  ghost predicate SoFar(cfg: seq<BlockCfg>, b: Bits, last0: seq<int>, zs: seq<Block>, i: nat, m: McuRead) {
    && McuShape(cfg, last0, zs) && i <= |cfg| && |m.zs| == |cfg| && McuTo(cfg, b, last0, zs, i) == m
    && forall j :: 0 <= j < |cfg| ==> AsGood(cfg, b, last0, zs, j, m.zs[j])
  }

  lemma SoFarStarts(cfg: seq<BlockCfg>, b: Bits, last0: seq<int>, zs: seq<Block>)
    requires McuShape(cfg, last0, zs)
    ensures SoFar(cfg, b, last0, zs, 0, McuRead(zs, last0, b))
  {
    BeforeBlocks(cfg, b, last0, zs);
    hide McuTo, AsGood;
  }

  lemma SoFarNext(cfg: seq<BlockCfg>, b: Bits, last0: seq<int>, zs: seq<Block>, i: nat, m: McuRead, n: McuRead)
    requires SoFar(cfg, b, last0, zs, i, m) && i < |cfg| && McuTo(cfg, b, last0, zs, i + 1) == n && |n.zs| == |cfg|
    requires AsGood(cfg, b, last0, zs, i, n.zs[i]) && n.zs == m.zs[i := n.zs[i]]
    ensures SoFar(cfg, b, last0, zs, i + 1, n)
  {
    hide McuTo, AsGood;
  }

  lemma SoFarEnds(cfg: seq<BlockCfg>, b: Bits, last0: seq<int>, zs: seq<Block>, m: McuRead)
    requires SoFar(cfg, b, last0, zs, |cfg|, m)
    ensures McuShape(cfg, last0, zs) && DecodeMcu(cfg, b, last0, zs) == m
    ensures McuShape(cfg, last0, m.zs) && DecodeMcu(cfg, b, last0, m.zs) == DecodeMcu(cfg, b, last0, zs)
  {
    hide McuTo, AsGood;
    Retry(cfg, b, last0, m.zs, zs);
  }

  /** The decoder before block i. */
  ghost predicate Progress(r: BitReader, cfg: seq<BlockCfg>, b: Bits, saved: seq<int>, zs: seq<Block>, i: nat, last: seq<int>,
      mem: seq<array<int>>, stock: int)
    reads r, mem
  {
    && Memory(mem) && |mem| == |cfg| && |last| == |saved| && r.Valid() && r.Stocked(stock)
    && SoFar(cfg, b, saved, zs, i, McuRead(Held(mem), last, r.rest))
  }

  /** One block, keeping count of how far the MCU has got. */
  method SlowNext(r: BitReader, cfg: seq<BlockCfg>, ghost b: Bits, ghost saved: seq<int>, ghost zs: seq<Block>,
      i: nat, last: seq<int>, mem: seq<array<int>>, ghost stock: int) returns (ok: bool, next: seq<int>)
    requires i < |cfg| && CfgOk(cfg, |saved|) && Progress(r, cfg, b, saved, zs, i, last, mem, stock)
    modifies r, mem
    ensures r.future == old(r.future) && (!ok ==> r.future != [] && !r.insufficientData)
    ensures ok ==> Progress(r, cfg, b, saved, zs, i + 1, next, mem, stock - 1984)
    ensures !ok ==> McuShape(cfg, saved, zs) && McuShape(cfg, saved, Held(mem))
    ensures !ok ==> DecodeMcu(cfg, b, saved, Held(mem)) == DecodeMcu(cfg, b, saved, zs)
    ensures stock >= 57 + 1984 ==> ok
  {
    ghost var m := McuRead(Held(mem), last, r.rest);
    SoFarShape(cfg, b, saved, zs, i, m);
    hide CfgOk, SoFar, AsGood, Held, BitReader.Asked, BitReader.Stocked, McuTo, DecodeMcu;
    ok, next := DecodeNthBlock(r, cfg, b, saved, zs, i, last, mem, stock);
    if ok {
      SoFarNext(cfg, b, saved, zs, i, m, McuRead(Held(mem), next, r.rest));
    } else {
      SoFarRetry(cfg, b, saved, zs, i, m, Held(mem));
    }
  }

  lemma SoFarShape(cfg: seq<BlockCfg>, b: Bits, last0: seq<int>, zs: seq<Block>, i: nat, m: McuRead)
    requires SoFar(cfg, b, last0, zs, i, m)
    ensures McuShape(cfg, last0, zs) && i <= |cfg| && |m.zs| == |cfg| && McuTo(cfg, b, last0, zs, i) == m
  {
    hide McuTo, AsGood;
  }

  /** Breaking off in block i does no harm. */
  lemma SoFarRetry(cfg: seq<BlockCfg>, b: Bits, last0: seq<int>, zs: seq<Block>, i: nat, m: McuRead, ys: seq<Block>)
    requires SoFar(cfg, b, last0, zs, i, m) && i < |cfg| == |ys| && McuShape(cfg, last0, zs)
    requires AsGood(cfg, b, last0, zs, i, ys[i]) && ys == m.zs[i := ys[i]]
    ensures McuShape(cfg, last0, ys) && DecodeMcu(cfg, b, last0, ys) == DecodeMcu(cfg, b, last0, zs)
  {
    hide McuTo, AsGood, DecodeMcu;
    Retry(cfg, b, last0, ys, zs);
  }

  /** The blocks of an MCU, on the working copy of the state. */
  method SlowBlocks(r: BitReader, cfg: seq<BlockCfg>, saved: seq<int>, mem: seq<array<int>>, ghost stock: int)
      returns (ok: bool, last: seq<int>)
    requires r.Stocked(stock) && r.Valid() && Memory(mem) && |mem| == |cfg| && CfgOk(cfg, |saved|) && McuShape(cfg, saved, Held(mem))
    modifies r, mem
    ensures r.future == old(r.future) && (!ok ==> r.future != [] && !r.insufficientData)
    ensures ok ==> r.Valid() && DecodeMcu(cfg, old(r.rest), saved, old(Held(mem))) == McuRead(Held(mem), last, r.rest)
    ensures DecodeMcu(cfg, old(r.rest), saved, Held(mem)) == DecodeMcu(cfg, old(r.rest), saved, old(Held(mem)))
    ensures stock >= MIN_GET_BITS + BlocksBits(|cfg|) ==> ok
  {
    hide *;
    ghost var b, zs := r.rest, Held(mem);
    last := saved;
    ProgressStarts(r, cfg, b, saved, zs, last, mem, stock);
    var i := 0;
    while i < |cfg|
      invariant r.future == old(r.future) && i <= |cfg|
      invariant Progress(r, cfg, b, saved, zs, i, last, mem, stock - BlocksBits(i))
    {
      BlocksNext(i, |cfg|);
      ok, last := SlowNext(r, cfg, b, saved, zs, i, last, mem, stock - BlocksBits(i));
      if !ok {
        return;
      }
      i := i + 1;
    }
    ProgressDone(r, cfg, b, saved, zs, last, mem, stock - BlocksBits(i));
    ok := true;
  }

  lemma BlocksNext(i: nat, n: nat)
    ensures BlocksBits(i + 1) == BlocksBits(i) + 1984 && (i < n ==> BlocksBits(i) + 1984 <= BlocksBits(n))
    ensures MIN_GET_BITS == 57
  {
  }

  lemma ProgressStarts(r: BitReader, cfg: seq<BlockCfg>, b: Bits, saved: seq<int>, zs: seq<Block>, last: seq<int>, mem: seq<array<int>>, stock: int)
    requires r.Stocked(stock) && r.Valid() && Memory(mem) && |mem| == |cfg| && CfgOk(cfg, |saved|)
    requires b == r.rest && zs == Held(mem) && last == saved
    ensures Progress(r, cfg, b, saved, zs, 0, last, mem, stock - BlocksBits(0))
  {
    hide SoFar, Held, BitReader.Asked, BitReader.Stocked;
    CfgShape(cfg, saved, zs);
    SoFarStarts(cfg, b, saved, zs);
  }

  lemma ProgressDone(r: BitReader, cfg: seq<BlockCfg>, b: Bits, saved: seq<int>, zs: seq<Block>, last: seq<int>, mem: seq<array<int>>, stock: int)
    requires Progress(r, cfg, b, saved, zs, |cfg|, last, mem, stock)
    ensures r.Valid() && McuShape(cfg, saved, zs) && McuShape(cfg, saved, Held(mem))
    ensures DecodeMcu(cfg, b, saved, zs) == McuRead(Held(mem), last, r.rest)
    ensures DecodeMcu(cfg, b, saved, Held(mem)) == DecodeMcu(cfg, b, saved, zs)
  {
    hide DecodeMcu, Held, SoFar, BitReader.Asked;
    SoFarEnds(cfg, b, saved, zs, McuRead(Held(mem), last, r.rest));
  }

  lemma CfgShape(cfg: seq<BlockCfg>, last: seq<int>, zs: seq<Block>)
    requires CfgOk(cfg, |last|) && |zs| == |cfg|
    ensures McuShape(cfg, last, zs)
  {
    hide DecTblOk, DcTbl;
  }

  lemma BeforeBlocks(cfg: seq<BlockCfg>, b: Bits, last: seq<int>, zs: seq<Block>)
    requires McuShape(cfg, last, zs)
    ensures McuTo(cfg, b, last, zs, 0) == McuRead(zs, last, b)
    ensures forall j :: 0 <= j < |cfg| ==> AsGood(cfg, b, last, zs, j, zs[j])
  {
  }
}
