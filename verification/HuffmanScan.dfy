/** Whole Huffman scans: which bits the encoder sends for a list of MCUs, and that decoding
    them MCU by MCU, from a source that delivers its bytes in any pieces, gives them back. */
module HuffmanScan {
  import opened Coefficients
  import opened Digits
  import opened BitString
  import opened HuffmanBlock
  import opened HuffmanReader
  import opened HuffmanMcu
  import opened HuffmanFast
  import opened HuffmanTables
  import opened NaturalOrder
  import opened BlockMemory

  /** Component and table numbers of a block of the MCU. */
  datatype BlockPlan = BlockPlan(ci: nat, dcTbl: nat, acTbl: nat)

  datatype Tables = Tables(dc: seq<Pair>, ac: seq<Pair>)

  ghost predicate PlanOk(cfg: seq<BlockPlan>, ncomps: nat, ntbls: nat) {
    forall n :: 0 <= n < |cfg| ==> cfg[n].ci < ncomps && cfg[n].dcTbl < ntbls && cfg[n].acTbl < ntbls
  }

  /** A block of an MCU in zigzag order. */
  type Mcu = seq<Block>

  // ----- What is sent

  /** Predictions after the first n blocks. */
  function LastAfter(cfg: seq<BlockPlan>, zs: Mcu, last: seq<int>, n: nat): (r: seq<int>)
    requires n <= |cfg| == |zs| && forall i :: 0 <= i < |cfg| ==> cfg[i].ci < |last|
    ensures |r| == |last|
  {
    if n == 0 then last else LastAfter(cfg, zs, last, n - 1)[cfg[n - 1].ci := zs[n - 1][0]]
  }

  function DiffAt(cfg: seq<BlockPlan>, zs: Mcu, last: seq<int>, n: nat): int
    requires n < |cfg| == |zs| && forall i :: 0 <= i < |cfg| ==> cfg[i].ci < |last|
  {
    zs[n][0] - LastAfter(cfg, zs, last, n)[cfg[n].ci]
  }

  /** The bits of the first n blocks. */
  function McuBits(t: Tables, cfg: seq<BlockPlan>, zs: Mcu, last: seq<int>, n: nat): Bits
    requires n <= |cfg| == |zs| && PlanOk(cfg, |last|, |t.dc|) && |t.dc| == |t.ac|
  {
    if n == 0 then [] else
    McuBits(t, cfg, zs, last, n - 1)
    + BlockBits(t.dc[cfg[n - 1].dcTbl].c, t.ac[cfg[n - 1].acTbl].c, zs[n - 1], DiffAt(cfg, zs, last, n - 1))
  }

  /** Every block is in range and all its symbols have codes. */
  ghost predicate McuCoded(t: Tables, cfg: seq<BlockPlan>, zs: Mcu, last: seq<int>)
    requires |cfg| == |zs| && PlanOk(cfg, |last|, |t.dc|) && |t.dc| == |t.ac|
  {
    forall n :: 0 <= n < |cfg| ==>
      && AcInRange(zs[n]) && DiffInRange(DiffAt(cfg, zs, last, n)) && -0x8000 <= zs[n][0] < 0x8000
      && Coded(t.dc[cfg[n].dcTbl].c, [DcSym(DiffAt(cfg, zs, last, n))]) && Coded(t.ac[cfg[n].acTbl].c, BlockSyms(zs[n]))
  }

  /** The tables the plan refers to are matched pairs. */
  ghost predicate TablesOk(t: Tables, cfg: seq<BlockPlan>) {
    && |t.dc| == |t.ac|
    && forall n :: 0 <= n < |cfg| ==>
         && cfg[n].dcTbl < |t.dc| && Paired(t.dc[cfg[n].dcTbl].c, t.dc[cfg[n].dcTbl].x) && DcTbl(t.dc[cfg[n].dcTbl].x)
         && cfg[n].acTbl < |t.ac| && Paired(t.ac[cfg[n].acTbl].c, t.ac[cfg[n].acTbl].x) && DecTblOk(t.ac[cfg[n].acTbl].x)
  }

  /** The decoder's side of the plan. */
  function DecCfg(t: Tables, cfg: seq<BlockPlan>): (r: seq<BlockCfg>)
    requires |t.dc| == |t.ac| && forall n :: 0 <= n < |cfg| ==> cfg[n].dcTbl < |t.dc| && cfg[n].acTbl < |t.dc|
    ensures |r| == |cfg|
    ensures forall n :: 0 <= n < |cfg| ==>
      r[n].ci == cfg[n].ci && r[n].dc == t.dc[cfg[n].dcTbl].x && r[n].ac == t.ac[cfg[n].acTbl].x
  {
    seq(|cfg|, n requires 0 <= n < |cfg| => BlockCfg(cfg[n].ci, t.dc[cfg[n].dcTbl].x, t.ac[cfg[n].acTbl].x))
  }

  ghost predicate Cleared(zs: Mcu) {
    forall n, k :: 0 <= n < |zs| && 0 < k < DCTSIZE2 ==> zs[n][k] == 0
  }

  // ----- One MCU

  /** Block n - 1, once those before it have been decoded. */
  lemma NextBlock(t: Tables, cfg: seq<BlockPlan>, zs: Mcu, last: seq<int>, n: nat, more: Bits, acc: Mcu, b: Bits)
    requires TablesOk(t, cfg) && |cfg| == |zs| == |acc| && PlanOk(cfg, |last|, |t.dc|) && McuCoded(t, cfg, zs, last)
    requires Cleared(acc) && 0 < n <= |cfg| && McuShape(DecCfg(t, cfg), last, acc)
    requires var p := cfg[n - 1];
      McuTo(DecCfg(t, cfg), b, last, acc, n - 1)
      == McuRead(zs[..n - 1] + acc[n - 1..], LastAfter(cfg, zs, last, n - 1),
                 BlockBits(t.dc[p.dcTbl].c, t.ac[p.acTbl].c, zs[n - 1], DiffAt(cfg, zs, last, n - 1)) + more)
    ensures McuTo(DecCfg(t, cfg), b, last, acc, n) == McuRead(zs[..n] + acc[n..], LastAfter(cfg, zs, last, n), more)
  {
    hide *;
    PlanAt(t, cfg, zs, last, n - 1);
    BlockReady(t, cfg, zs, last, n - 1);
    ClearedBlock(acc, n - 1, acc[n - 1]);
    Spliced(zs, acc, n);
    var c, l, z := cfg[n - 1], LastAfter(cfg, zs, last, n - 1), zs[n - 1];
    var dc, ac, bits := t.dc[c.dcTbl], t.ac[c.acTbl], BlockBits(t.dc[c.dcTbl].c, t.ac[c.acTbl].c, z, z[0] - l[c.ci]) + more;
    DecodeBlockInverts(dc.c, ac.c, dc.x, ac.x, z, l[c.ci], acc[n - 1], more);
    NextBlockRestored(DecCfg(t, cfg), b, last, acc, n, zs[..n - 1] + acc[n - 1..], l, bits, z, more);
  }

  /** The plan's n-th block on both sides. */
  lemma PlanAt(t: Tables, cfg: seq<BlockPlan>, zs: Mcu, last: seq<int>, n: nat)
    requires TablesOk(t, cfg) && |cfg| == |zs| && PlanOk(cfg, |last|, |t.dc|) && n < |cfg|
    ensures |t.dc| == |t.ac| && forall i :: 0 <= i < |cfg| ==> cfg[i].ci < |last| && cfg[i].dcTbl < |t.dc| && cfg[i].acTbl < |t.dc|
    ensures var (c, d, l) := (cfg[n], DecCfg(t, cfg), LastAfter(cfg, zs, last, n));
      && |d| == |cfg| && |l| == |last| && d[n].ci == c.ci < |l|
      && c.dcTbl < |t.dc| && d[n].dc == t.dc[c.dcTbl].x && c.acTbl < |t.ac| && d[n].ac == t.ac[c.acTbl].x
      && |zs[n]| == DCTSIZE2 > 0 && DiffAt(cfg, zs, last, n) == zs[n][0] - l[c.ci]
      && LastAfter(cfg, zs, last, n + 1) == l[c.ci := zs[n][0]]
  {
    hide Paired, DcTbl, DecTblOk;
  }

  lemma ClearedBlock(acc: Mcu, n: nat, y: Block)
    requires Cleared(acc) && n < |acc| && y == acc[n]
    ensures forall k :: 0 < k < DCTSIZE2 ==> y[k] == 0
  {
  }

  lemma Spliced(zs: Mcu, acc: Mcu, n: nat)
    requires |zs| == |acc| && 0 < n <= |zs|
    ensures (zs[..n - 1] + acc[n - 1..])[n - 1 := zs[n - 1]] == zs[..n] + acc[n..]
  {
  }

  lemma BlockReady(t: Tables, cfg: seq<BlockPlan>, zs: Mcu, last: seq<int>, n: nat)
    requires TablesOk(t, cfg) && |cfg| == |zs| && PlanOk(cfg, |last|, |t.dc|) && McuCoded(t, cfg, zs, last) && n < |cfg|
    ensures var (dc, ac, d) := (t.dc[cfg[n].dcTbl], t.ac[cfg[n].acTbl], DiffAt(cfg, zs, last, n));
      && Paired(dc.c, dc.x) && Paired(ac.c, ac.x) && AcInRange(zs[n]) && DiffInRange(d) && -0x8000 <= zs[n][0] < 0x8000
      && Coded(dc.c, [DcSym(d)]) && Coded(ac.c, BlockSyms(zs[n]))
  {
    hide Paired, DcTbl, DecTblOk, AcInRange, DiffInRange, Coded, BlockSyms, DiffAt;
  }

  lemma NextBlockRestored(cfg: seq<BlockCfg>, b: Bits, last: seq<int>, acc: Mcu, n: nat, zs: Mcu, l: seq<int>, bits: Bits, z: Block, more: Bits)
    requires McuShape(cfg, last, acc) && 0 < n <= |cfg| && |zs| == |cfg| && |l| == |last|
    requires McuTo(cfg, b, last, acc, n - 1) == McuRead(zs, l, bits)
    requires DecodeBlock(cfg[n - 1].dc, cfg[n - 1].ac, bits, l[cfg[n - 1].ci], acc[n - 1]) == BlockRead(z, z[0], more)
    ensures McuTo(cfg, b, last, acc, n) == McuRead(zs[n - 1 := z], l[cfg[n - 1].ci := z[0]], more)
  {
    hide DecodeBlock;
  }

  /** The first n blocks come back, whatever follows them. */
  lemma {:induction false} McuInverts(t: Tables, cfg: seq<BlockPlan>, zs: Mcu, last: seq<int>, n: nat, more: Bits, acc: Mcu)
    requires TablesOk(t, cfg) && |cfg| == |zs| == |acc| && PlanOk(cfg, |last|, |t.dc|) && McuCoded(t, cfg, zs, last)
    requires Cleared(acc) && n <= |cfg|
    ensures McuShape(DecCfg(t, cfg), last, acc)
    ensures McuTo(DecCfg(t, cfg), McuBits(t, cfg, zs, last, n) + more, last, acc, n)
         == McuRead(zs[..n] + acc[n..], LastAfter(cfg, zs, last, n), more)
  {
    hide *;
    PlanShape(t, cfg, zs, last, acc);
    if n == 0 {
      NothingCoded(t, cfg, zs, last, more, acc);
    } else {
      var c, d := cfg[n - 1], DiffAt(cfg, zs, last, n - 1);
      var bits := BlockBits(t.dc[c.dcTbl].c, t.ac[c.acTbl].c, zs[n - 1], d);
      McuBitsNext(t, cfg, zs, last, n, more);
      McuInverts(t, cfg, zs, last, n - 1, bits + more, acc);
      NextBlock(t, cfg, zs, last, n, more, acc, McuBits(t, cfg, zs, last, n) + more);
    }
  }

  lemma PlanShape(t: Tables, cfg: seq<BlockPlan>, zs: Mcu, last: seq<int>, acc: Mcu)
    requires TablesOk(t, cfg) && |cfg| == |zs| == |acc| && PlanOk(cfg, |last|, |t.dc|)
    ensures |t.dc| == |t.ac| && forall i :: 0 <= i < |cfg| ==> cfg[i].ci < |last| && cfg[i].dcTbl < |t.dc| && cfg[i].acTbl < |t.dc|
    ensures McuShape(DecCfg(t, cfg), last, acc) && |DecCfg(t, cfg)| == |cfg| && forall i :: 0 <= i < |cfg| ==> |zs[i]| == DCTSIZE2
  {
    hide Paired, DcTbl, DecTblOk;
  }

  lemma NothingCoded(t: Tables, cfg: seq<BlockPlan>, zs: Mcu, last: seq<int>, more: Bits, acc: Mcu)
    requires TablesOk(t, cfg) && |cfg| == |zs| == |acc| && PlanOk(cfg, |last|, |t.dc|) && McuShape(DecCfg(t, cfg), last, acc)
    ensures McuTo(DecCfg(t, cfg), McuBits(t, cfg, zs, last, 0) + more, last, acc, 0)
         == McuRead(zs[..0] + acc[0..], LastAfter(cfg, zs, last, 0), more)
  {
    hide Paired, DcTbl, DecTblOk, DecCfg;
    assert [] + more == more && zs[..0] + acc[0..] == acc;
  }

  lemma McuBitsNext(t: Tables, cfg: seq<BlockPlan>, zs: Mcu, last: seq<int>, n: nat, more: Bits)
    requires 0 < n <= |cfg| == |zs| && PlanOk(cfg, |last|, |t.dc|) && |t.dc| == |t.ac|
    ensures McuBits(t, cfg, zs, last, n) + more == McuBits(t, cfg, zs, last, n - 1)
      + (BlockBits(t.dc[cfg[n - 1].dcTbl].c, t.ac[cfg[n - 1].acTbl].c, zs[n - 1], DiffAt(cfg, zs, last, n - 1)) + more)
  {
    hide BlockBits, DiffAt;
    var c := cfg[n - 1];
    BitsAssoc(McuBits(t, cfg, zs, last, n - 1), BlockBits(t.dc[c.dcTbl].c, t.ac[c.acTbl].c, zs[n - 1], DiffAt(cfg, zs, last, n - 1)), more);
  }

  // ----- A scan

  /** Predictions after the first k MCUs. */
  function ScanLast(cfg: seq<BlockPlan>, mcus: seq<Mcu>, last: seq<int>, k: nat): (r: seq<int>)
    requires k <= |mcus| && (forall i :: 0 <= i < |cfg| ==> cfg[i].ci < |last|) && forall i :: 0 <= i < |mcus| ==> |mcus[i]| == |cfg|
    ensures |r| == |last|
  {
    if k == 0 then last else LastAfter(cfg, mcus[k - 1], ScanLast(cfg, mcus, last, k - 1), |cfg|)
  }

  /** The bits of the first k MCUs. */
  function ScanBits(t: Tables, cfg: seq<BlockPlan>, mcus: seq<Mcu>, last: seq<int>, k: nat): Bits
    requires k <= |mcus| && PlanOk(cfg, |last|, |t.dc|) && |t.dc| == |t.ac| && forall i :: 0 <= i < |mcus| ==> |mcus[i]| == |cfg|
  {
    if k == 0 then [] else
    ScanBits(t, cfg, mcus, last, k - 1) + McuBits(t, cfg, mcus[k - 1], ScanLast(cfg, mcus, last, k - 1), |cfg|)
  }

  ghost predicate ScanCoded(t: Tables, cfg: seq<BlockPlan>, mcus: seq<Mcu>, last: seq<int>) {
    && |t.dc| == |t.ac| && PlanOk(cfg, |last|, |t.dc|) && (forall i :: 0 <= i < |mcus| ==> |mcus[i]| == |cfg|)
    && forall i :: 0 <= i < |mcus| ==> McuCoded(t, cfg, mcus[i], ScanLast(cfg, mcus, last, i))
  }

  function Zeros(n: nat): (r: Mcu)
    ensures |r| == n
  {
    seq(n, _ => seq(DCTSIZE2, _ => 0))
  }

  datatype McusRead = McusRead(mcus: seq<Mcu>, last: seq<int>, rest: Bits)

  /** The first k MCUs decoded into cleared blocks; once the stream is used up the rest stay clear. */
  ghost function DecodeMcus(cfg: seq<BlockCfg>, b: Bits, last: seq<int>, k: nat): (r: McusRead)
    requires forall i :: 0 <= i < |cfg| ==> cfg[i].ci < |last|
    ensures |r.mcus| == k && |r.last| == |last|
  {
    if k == 0 then McusRead([], last, b) else
    var s := DecodeMcus(cfg, b, last, k - 1);
    var m := NextMcu(cfg, s.rest, s.last, Zeros(|cfg|));
    McusRead(s.mcus + [m.zs], m.last, m.rest)
  }

  lemma McuRestored(t: Tables, cfg: seq<BlockPlan>, zs: Mcu, last: seq<int>, more: Bits)
    requires TablesOk(t, cfg) && |cfg| == |zs| && PlanOk(cfg, |last|, |t.dc|) && McuCoded(t, cfg, zs, last)
    ensures McuShape(DecCfg(t, cfg), last, Zeros(|cfg|))
    ensures DecodeMcu(DecCfg(t, cfg), McuBits(t, cfg, zs, last, |cfg|) + more, last, Zeros(|cfg|))
         == McuRead(zs, LastAfter(cfg, zs, last, |cfg|), more)
  {
    hide McuTo, McuBits, McuCoded, TablesOk, PlanOk;
    McuInverts(t, cfg, zs, last, |cfg|, more, Zeros(|cfg|));
    assert zs[..|cfg|] + Zeros(|cfg|)[|cfg|..] == zs;
  }

  /** Decoding inverts encoding, MCU by MCU. */
  lemma {:induction false} ScanInverts(t: Tables, cfg: seq<BlockPlan>, mcus: seq<Mcu>, last: seq<int>, k: nat, more: Bits)
    requires TablesOk(t, cfg) && ScanCoded(t, cfg, mcus, last) && k <= |mcus| && more != []
    ensures forall i :: 0 <= i < |cfg| ==> DecCfg(t, cfg)[i].ci < |last|
    ensures DecodeMcus(DecCfg(t, cfg), ScanBits(t, cfg, mcus, last, k) + more, last, k)
         == McusRead(mcus[..k], ScanLast(cfg, mcus, last, k), more)
  {
    hide McuBits, McuCoded, TablesOk, DecodeMcu, LastAfter;
    if k == 0 {
      assert [] + more == more;
    } else {
      var l := ScanLast(cfg, mcus, last, k - 1);
      var bits := McuBits(t, cfg, mcus[k - 1], l, |cfg|);
      BitsAssoc(ScanBits(t, cfg, mcus, last, k - 1), bits, more);
      ScanInverts(t, cfg, mcus, last, k - 1, bits + more);
      McuRestored(t, cfg, mcus[k - 1], l, more);
      assert mcus[..k] == mcus[..k - 1] + [mcus[k - 1]];
    }
  }

  // ----- Decoding from a source that delivers its bytes in pieces

  /** Blocks for one MCU, cleared, as the coefficient controller hands them to decode_mcu. */
  method ClearBlocks(n: nat) returns (mem: seq<array<int>>)
    ensures Memory(mem) && |mem| == n && Held(mem) == Zeros(n)
    ensures forall i :: 0 <= i < n ==> fresh(mem[i])
  {
    mem := [];
    for i := 0 to n
      invariant Memory(mem) && |mem| == i
      invariant forall j :: 0 <= j < i ==> fresh(mem[j]) && forall q :: 0 <= q < 64 ==> mem[j][q] == 0
    {
      var block := new int[64](_ => 0);
      mem := mem + [block];
    }
    ClearedMemory(mem);
  }

  lemma ClearedMemory(mem: seq<array<int>>)
    requires Memory(mem) && forall j :: 0 <= j < |mem| ==> forall q :: 0 <= q < 64 ==> mem[j][q] == 0
    ensures Held(mem) == Zeros(|mem|)
  {
    hide Order;
    forall j | 0 <= j < |mem| ensures Held(mem)[j] == Zeros(|mem|)[j] {
      assert Zig(mem[j][..]) == seq(DCTSIZE2, _ => 0);
    }
  }

  /** The next delivery: of the size planned, if any is. */
  method DeliverNext(r: BitReader, whole: seq<byte>, pos0: nat, sizes0: seq<nat>) returns (pos: nat, sizes: seq<nat>)
    requires r.Valid() && pos0 < |whole| && r.future == whole[pos0..]
    modifies r`src, r`future
    ensures r.Valid() && pos0 < pos <= |whole| && r.future == whole[pos..]
  {
    var n := |whole| - pos0;
    sizes := sizes0;
    if sizes != [] {
      if 0 < sizes[0] < n {
        n := sizes[0];
      }
      sizes := sizes[1..];
    }
    pos := pos0 + n;
    assert whole[pos0..][..n] == whole[pos0..pos] && whole[pos0..][n..] == whole[pos..];
    hide BitReader.Valid;
    r.Deliver(whole[pos0..pos]);
  }

  /** After an attempt: the MCU is there, or everything is as good as before. */
  ghost predicate Standing(cfg: seq<BlockCfg>, b: Bits, saved: seq<int>, zs0: Mcu, ok: bool, now: McuRead) {
    && McuShape(cfg, saved, zs0) && McuShape(cfg, saved, now.zs)
    && if ok then NextMcu(cfg, b, saved, zs0) == now
       else now.rest == b && NextMcu(cfg, b, saved, now.zs) == NextMcu(cfg, b, saved, zs0)
  }

  /** The fast path can do no harm: the data is plain, or there is too little of it. */
  ghost predicate Safe(plain: bool, size: nat, cfg: seq<BlockCfg>) {
    plain || size < BYTES_PER_BLOCK * |cfg|
  }

  method Attempt(r: BitReader, cfg: seq<BlockCfg>, saved: seq<int>, mem: seq<array<int>>, ghost b: Bits, ghost zs0: Mcu)
      returns (ok: bool, last: seq<int>)
    requires r.Valid() && Safe(r.plain, r.size, cfg) && CfgOk(cfg, |saved|) && |cfg| > 0 && Memory(mem) && |mem| == |cfg|
    requires Standing(cfg, b, saved, zs0, false, McuRead(Held(mem), saved, r.rest))
    modifies r, mem
    ensures r.Valid() && r.future == old(r.future) && (!ok ==> r.future != [])
    ensures Standing(cfg, b, saved, zs0, ok, McuRead(Held(mem), last, r.rest))
  {
    ghost var zs := Held(mem);
    SmallEnough(r, cfg);
    AlwaysStocked(r);
    hide BitReader.Asked, BitReader.Stocked, CfgOk, DecodeMcu, Held, StartedFrom;
    StartHarmless(r, cfg, saved, zs);
    ok, last := DecodeMcuEither(r, cfg, saved, mem, 0);
  }

  lemma SmallEnough(r: BitReader, cfg: seq<BlockCfg>)
    requires r.Valid() && Safe(r.plain, r.size, cfg)
    ensures r.plain || |r.src| < BYTES_PER_BLOCK * |cfg|
  {
    hide Reads, Plain;
  }

  lemma AlwaysStocked(r: BitReader)
    ensures r.Stocked(0)
  {
  }

  /** One MCU: decode_mcu is called again after every delivery until it succeeds.  sizes are
      those of the deliveries to come; when they are used up the rest comes at once. */
  method DecodeOneInPieces(r: BitReader, cfg: seq<BlockCfg>, saved: seq<int>, whole: seq<byte>, pos0: nat, sizes0: seq<nat>)
      returns (zs: Mcu, last: seq<int>, pos: nat, sizes: seq<nat>)
    requires r.Valid() && Safe(r.plain, r.size, cfg) && CfgOk(cfg, |saved|) && |cfg| > 0 && pos0 <= |whole| && r.future == whole[pos0..]
    modifies r
    ensures r.Valid() && pos0 <= pos <= |whole| && r.future == whole[pos..]
    ensures McuShape(cfg, saved, Zeros(|cfg|)) && NextMcu(cfg, old(r.rest), saved, Zeros(|cfg|)) == McuRead(zs, last, r.rest)
  {
    hide *;
    CfgShape(cfg, saved, Zeros(|cfg|));
    ghost var b, zs0 := r.rest, Zeros(|cfg|);
    var mem := ClearBlocks(|cfg|);
    StandingAtFirst(cfg, b, saved, zs0);
    pos, sizes := pos0, sizes0;
    var ok;
    ok, last := Attempt(r, cfg, saved, mem, b, zs0);
    while !ok
      invariant r.Valid() && pos0 <= pos <= |whole| && r.future == whole[pos..] && (!ok ==> r.future != [])
      invariant Standing(cfg, b, saved, zs0, ok, McuRead(Held(mem), last, r.rest))
      decreases |whole| - pos, !ok
    {
      StillSaved(cfg, b, saved, zs0, McuRead(Held(mem), last, r.rest));
      pos, sizes := DeliverNext(r, whole, pos, sizes);
      ok, last := Attempt(r, cfg, saved, mem, b, zs0);
    }
    StandingDone(cfg, b, saved, zs0, McuRead(Held(mem), last, r.rest));
    zs := HeldBlocks(mem);
  }

  lemma StandingAtFirst(cfg: seq<BlockCfg>, b: Bits, saved: seq<int>, zs0: Mcu)
    requires McuShape(cfg, saved, zs0)
    ensures Standing(cfg, b, saved, zs0, false, McuRead(zs0, saved, b))
  {
    hide NextMcu;
  }

  lemma StillSaved(cfg: seq<BlockCfg>, b: Bits, saved: seq<int>, zs0: Mcu, now: McuRead)
    requires Standing(cfg, b, saved, zs0, false, now)
    ensures Standing(cfg, b, saved, zs0, false, McuRead(now.zs, saved, now.rest))
  {
    hide NextMcu;
  }

  lemma StandingDone(cfg: seq<BlockCfg>, b: Bits, saved: seq<int>, zs0: Mcu, now: McuRead)
    requires Standing(cfg, b, saved, zs0, true, now)
    ensures McuShape(cfg, saved, zs0) && NextMcu(cfg, b, saved, zs0) == now
  {
  }

  method HeldBlocks(mem: seq<array<int>>) returns (zs: Mcu)
    requires Memory(mem)
    ensures zs == Held(mem)
  {
    zs := [];
    for i := 0 to |mem|
      invariant zs == Held(mem)[..i]
    {
      zs := zs + [Zig(mem[i][..])];
    }
  }

  /** Suspension is invisible: however the bytes are delivered, the MCUs are those of the whole
      segment, and past its end they are zero.  This is so for plain data, and for data that
      may have fill bytes as long as it is too short for the fast path. */
  method DecodeInPieces(cfg: seq<BlockCfg>, ncomps: nat, whole: seq<byte>, sizes0: seq<nat>, k: nat) returns (mcus: seq<Mcu>)
    requires CfgOk(cfg, ncomps) && |cfg| > 0 && Ends(whole) && (Plain(whole) || |whole| < BYTES_PER_BLOCK * |cfg|)
    ensures forall i :: 0 <= i < |cfg| ==> cfg[i].ci < ncomps
    ensures mcus == DecodeMcus(cfg, Stream(whole), seq(ncomps, _ => 0), k).mcus
  {
    CfgShape(cfg, seq(ncomps, _ => 0), Zeros(|cfg|));
    assert [] + whole == whole;
    ghost var plain := Plain(whole);
    hide BitReader.Asked, CfgOk, Ends, Plain, Segment, NextMcu;
    var r := new BitReader([], whole, plain);
    ghost var b, last0: seq<int> := r.rest, seq(ncomps, _ => 0);
    var last: seq<int> := seq(ncomps, _ => 0);
    var pos: nat, sizes := 0, sizes0;
    mcus := [];
    for n := 0 to k
      invariant r.Valid() && Safe(r.plain, r.size, cfg) && pos <= |whole| && r.future == whole[pos..] && |last| == ncomps
      invariant DecodeMcus(cfg, b, last0, n) == McusRead(mcus, last, r.rest)
    {
      var zs;
      zs, last, pos, sizes := DecodeOneInPieces(r, cfg, last, whole, pos, sizes);
      mcus := mcus + [zs];
    }
  }
}
