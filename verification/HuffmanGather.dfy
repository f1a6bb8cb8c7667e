/** The statistics-gathering pass over a scan (encode_mcu_gather in jchuff.c): what is counted,
    and that every symbol sent later has been counted. */
module HuffmanGather {
  import opened HuffmanCost
  import opened HuffmanMerge
  import opened HuffmanBlock
  import opened HuffmanEncoder
  import opened HuffmanTables
  import opened HuffmanScan
  import opened NaturalOrder

  // ----- MCUs in memory

  /** Blocks in natural order. */
  ghost predicate StoredMcus(cfg: seq<BlockPlan>, mcus: seq<seq<seq<int>>>) {
    forall i :: 0 <= i < |mcus| ==> |mcus[i]| == |cfg| && forall n :: 0 <= n < |cfg| ==> |mcus[i][n]| == 64
  }

  ghost predicate StoredMcu(mcu: seq<seq<int>>) {
    forall n :: 0 <= n < |mcu| ==> |mcu[n]| == 64
  }

  function ZigMcu(mcu: seq<seq<int>>): (r: Mcu)
    requires forall n :: 0 <= n < |mcu| ==> |mcu[n]| == 64
    ensures |r| == |mcu|
  {
    seq(|mcu|, n requires 0 <= n < |mcu| => Zig(mcu[n]))
  }

  function ZigMcus(mcus: seq<seq<seq<int>>>): (r: seq<Mcu>)
    requires forall i :: 0 <= i < |mcus| ==> forall n :: 0 <= n < |mcus[i]| ==> |mcus[i][n]| == 64
    ensures |r| == |mcus|
  {
    seq(|mcus|, i requires 0 <= i < |mcus| => ZigMcu(mcus[i]))
  }

  // ----- What is gathered

  /** The counts of all tables. */
  datatype Stats = Stats(dc: seq<seq<nat>>, ac: seq<seq<nat>>)

  /** The counts once the first n blocks of an MCU have been added. */
  function CountMcu(cfg: seq<BlockPlan>, zs: Mcu, last: seq<int>, st: Stats, n: nat): (r: Stats)
    requires n <= |cfg| == |zs| && PlanOk(cfg, |last|, |st.dc|) && |st.dc| == |st.ac|
    ensures |r.dc| == |r.ac| == |st.dc|
  {
    if n == 0 then st else
    var s := CountMcu(cfg, zs, last, st, n - 1);
    var (d, a) := (cfg[n - 1].dcTbl, cfg[n - 1].acTbl);
    Stats(s.dc[d := Tallied(s.dc[d], [DcSym(DiffAt(cfg, zs, last, n - 1))])],
          s.ac[a := Tallied(s.ac[a], BlockSyms(zs[n - 1]))])
  }

  /** The counts once the first k MCUs have been added. */
  function CountScan(cfg: seq<BlockPlan>, mcus: seq<Mcu>, last: seq<int>, st: Stats, k: nat): (r: Stats)
    requires k <= |mcus| && PlanOk(cfg, |last|, |st.dc|) && |st.dc| == |st.ac| && forall i :: 0 <= i < |mcus| ==> |mcus[i]| == |cfg|
    ensures |r.dc| == |r.ac| == |st.dc|
  {
    if k == 0 then st else
    CountMcu(cfg, mcus[k - 1], ScanLast(cfg, mcus, last, k - 1), CountScan(cfg, mcus, last, st, k - 1), |cfg|)
  }

  ghost predicate BlockInRange(cfg: seq<BlockPlan>, zs: Mcu, last: seq<int>, n: nat)
    requires n < |cfg| == |zs| && forall i :: 0 <= i < |cfg| ==> cfg[i].ci < |last|
  {
    AcInRange(zs[n]) && DiffInRange(DiffAt(cfg, zs, last, n))
  }

  ghost predicate McuInRange(cfg: seq<BlockPlan>, zs: Mcu, last: seq<int>)
    requires |cfg| == |zs| && forall i :: 0 <= i < |cfg| ==> cfg[i].ci < |last|
  {
    forall n :: 0 <= n < |cfg| ==> BlockInRange(cfg, zs, last, n)
  }

  /** Every coefficient and every DC difference has a category the coder knows. */
  ghost predicate ScanInRange(cfg: seq<BlockPlan>, mcus: seq<Mcu>, last: seq<int>)
    requires (forall i :: 0 <= i < |cfg| ==> cfg[i].ci < |last|) && forall i :: 0 <= i < |mcus| ==> |mcus[i]| == |cfg|
  {
    forall i :: 0 <= i < |mcus| ==> McuInRange(cfg, mcus[i], ScanLast(cfg, mcus, last, i))
  }

  /** Every one of the symbols has been counted. */
  ghost predicate CountedIn(f: seq<nat>, ys: seq<Sym>) {
    forall i :: 0 <= i < |ys| ==> ys[i].s < 256 && ys[i].s < |f| && f[ys[i].s] > 0
  }

  ghost predicate BlockCounted(dcF: seq<nat>, acF: seq<nat>, z: Block, diff: int) {
    CountedIn(dcF, [DcSym(diff)]) && CountedIn(acF, BlockSyms(z))
  }

  /** All the symbols of the first n blocks have been counted in their tables. */
  ghost predicate McuCounted(cfg: seq<BlockPlan>, zs: Mcu, last: seq<int>, st: Stats, n: nat)
    requires n <= |cfg| == |zs| && PlanOk(cfg, |last|, |st.dc|) && |st.dc| == |st.ac|
  {
    forall m :: 0 <= m < n ==> BlockCounted(st.dc[cfg[m].dcTbl], st.ac[cfg[m].acTbl], zs[m], DiffAt(cfg, zs, last, m))
  }

  /** Counts have only grown. */
  ghost predicate Grew(f: seq<nat>, g: seq<nat>) {
    |f| == |g| && forall s :: 0 <= s < |f| ==> f[s] <= g[s]
  }

  ghost predicate AllGrew(f: seq<seq<nat>>, g: seq<seq<nat>>) {
    |f| == |g| && forall t :: 0 <= t < |f| ==> Grew(f[t], g[t])
  }

  /** Counts of in-range blocks, at most total of them in a table. */
  ghost predicate StatsOk(st: Stats, total: nat) {
    && |st.dc| == |st.ac|
    && (forall t :: 0 <= t < |st.dc| ==> Plausible(st.dc[t], true) && Sum(st.dc[t]) <= total)
    && (forall t :: 0 <= t < |st.ac| ==> Plausible(st.ac[t], false) && Sum(st.ac[t]) <= total)
  }

  lemma CountedStays(f: seq<nat>, g: seq<nat>, ys: seq<Sym>)
    requires CountedIn(f, ys) && Grew(f, g)
    ensures CountedIn(g, ys)
  {
  }

  lemma McuCountedStays(cfg: seq<BlockPlan>, zs: Mcu, last: seq<int>, s: Stats, t: Stats, n: nat)
    requires n <= |cfg| == |zs| && PlanOk(cfg, |last|, |s.dc|) && |s.dc| == |s.ac| && AllGrew(s.dc, t.dc) && AllGrew(s.ac, t.ac)
    requires McuCounted(cfg, zs, last, s, n)
    ensures McuCounted(cfg, zs, last, t, n)
  {
    hide CountedIn, Grew, BlockSyms, DcSym, DiffAt;
    forall m | 0 <= m < n
      ensures BlockCounted(t.dc[cfg[m].dcTbl], t.ac[cfg[m].acTbl], zs[m], DiffAt(cfg, zs, last, m))
    {
      CountedStays(s.dc[cfg[m].dcTbl], t.dc[cfg[m].dcTbl], [DcSym(DiffAt(cfg, zs, last, m))]);
      CountedStays(s.ac[cfg[m].acTbl], t.ac[cfg[m].acTbl], BlockSyms(zs[m]));
    }
  }

  // ----- The symbols of in-range blocks

  lemma {:induction false} ZrlsLength(r: nat)
    ensures |Zrls(r)| == r / 16
  {
    if r >= 16 {
      ZrlsLength(r - 16);
    }
  }

  /** No more symbols than coefficients. */
  lemma {:induction false} AcSymsLength(z: seq<int>, k: nat, r: nat)
    requires k <= |z|
    ensures |AcSyms(z, k, r)| <= |z| - k + r / 16 + 1
    decreases |z| - k
  {
    if k < |z| {
      if z[k] == 0 {
        AcSymsLength(z, k + 1, r + 1);
      } else {
        ZrlsLength(r);
        AcSymsLength(z, k + 1, 0);
      }
    }
  }

  ghost predicate SymsPlausible(ys: seq<Sym>, isDC: bool) {
    forall i :: 0 <= i < |ys| ==> ys[i].s < 256 && if isDC then ys[i].s <= MAX_COEF_BITS + 1 else ys[i].s % 16 <= MAX_COEF_BITS
  }

  lemma {:induction false} AcSymsPlausible(z: seq<int>, k: nat, r: nat)
    requires AcInRange(z) && 1 <= k <= |z|
    ensures SymsPlausible(AcSyms(z, k, r), false)
    decreases |z| - k
  {
    hide NBits, ExtraOf;
    if k < |z| {
      if z[k] == 0 {
        AcSymsPlausible(z, k + 1, r + 1);
      } else {
        ZrlsCoded(r);
        AcSymsPlausible(z, k + 1, 0);
      }
    }
  }

  lemma {:induction false} TalliedPlausible(f: seq<nat>, ys: seq<Sym>, isDC: bool)
    requires Plausible(f, isDC) && SymsPlausible(ys, isDC)
    ensures Plausible(Tallied(f, ys), isDC)
    decreases |ys|
  {
    if ys != [] {
      var g := f[ys[0].s := f[ys[0].s] + 1];
      assert forall i :: 0 <= i < |ys[1..]| ==> ys[1..][i] == ys[i + 1];
      TalliedPlausible(g, ys[1..], isDC);
    }
  }

  lemma {:induction false} TalliedSum(f: seq<nat>, ys: seq<Sym>)
    ensures Sum(Tallied(f, ys)) <= Sum(f) + |ys|
    decreases |ys|
  {
    if ys != [] {
      if ys[0].s < |f| {
        SumUpdate(f, ys[0].s, f[ys[0].s] + 1);
        TalliedSum(f[ys[0].s := f[ys[0].s] + 1], ys[1..]);
      } else {
        TalliedSum(f, ys[1..]);
      }
    }
  }

  /** What counting a block's symbols does to the counts of one table. */
  lemma TalliedAll(f: seq<nat>, ys: seq<Sym>, isDC: bool)
    requires Plausible(f, isDC) && SymsPlausible(ys, isDC)
    ensures Plausible(Tallied(f, ys), isDC) && CountedIn(Tallied(f, ys), ys) && Grew(f, Tallied(f, ys))
    ensures Sum(Tallied(f, ys)) <= Sum(f) + |ys|
  {
    hide Sum;
    TalliedPlausible(f, ys, isDC);
    TalliedSum(f, ys);
    TalliedCounts(f, ys);
  }

  lemma BlockSymsFacts(z: Block, k: nat)
    requires AcInRange(z) && k == 1
    ensures SymsPlausible(BlockSyms(z), false) && |BlockSyms(z)| <= 64 && BlockSyms(z) != []
  {
    BlockSymsFrom(z, k);
    hide BlockSyms;
    AcSymsPlausible(z, k, 0);
    AcSymsLength(z, k, 0);
    AcSymsSome(z, k, 0);
  }

  lemma {:induction false} AcSymsSome(z: seq<int>, k: nat, r: nat)
    requires k <= |z| && (k < |z| || r > 0)
    ensures AcSyms(z, k, r) != []
    decreases |z| - k
  {
    if k < |z| && z[k] == 0 {
      AcSymsSome(z, k + 1, r + 1);
    }
  }

  lemma DcSymFacts(diff: int)
    requires DiffInRange(diff)
    ensures SymsPlausible([DcSym(diff)], true)
  {
  }

  lemma GrewTransitive(f: seq<seq<nat>>, g: seq<seq<nat>>, h: seq<seq<nat>>)
    requires AllGrew(f, g) && AllGrew(g, h)
    ensures AllGrew(f, h)
  {
    forall t | 0 <= t < |f| ensures Grew(f[t], h[t]) {
      assert Grew(f[t], g[t]) && Grew(g[t], h[t]);
    }
  }

  lemma GrewReflexive(f: seq<seq<nat>>)
    ensures AllGrew(f, f)
  {
  }

  /** One block more. */
  lemma CountBlock(st: Stats, d: nat, a: nat, z: Block, diff: int, total: nat)
    requires StatsOk(st, total) && d < |st.dc| && a < |st.ac| && AcInRange(z) && DiffInRange(diff)
    ensures var r := Stats(st.dc[d := Tallied(st.dc[d], [DcSym(diff)])], st.ac[a := Tallied(st.ac[a], BlockSyms(z))]);
      && StatsOk(r, total + 64) && AllGrew(st.dc, r.dc) && AllGrew(st.ac, r.ac)
      && BlockCounted(r.dc[d], r.ac[a], z, diff)
  {
    DcSymFacts(diff);
    BlockSymsFacts(z, 1);
    hide AcInRange, DiffInRange, Tallied, BlockSyms, DcSym, Sum, Plausible, CountedIn, SymsPlausible, Grew;
    TalliedAll(st.dc[d], [DcSym(diff)], true);
    TalliedAll(st.ac[a], BlockSyms(z), false);
    GrewAny(st.dc);
    GrewAny(st.ac);
  }

  lemma GrewAny(f: seq<seq<nat>>)
    ensures forall t :: 0 <= t < |f| ==> Grew(f[t], f[t])
  {
  }

  /** The counts st have become r, and the first n blocks are in them. */
  ghost predicate Added(cfg: seq<BlockPlan>, zs: Mcu, last: seq<int>, st: Stats, r: Stats, n: nat, total: nat)
    requires n <= |cfg| == |zs| && PlanOk(cfg, |last|, |st.dc|)
  {
    StatsOk(r, total) && AllGrew(st.dc, r.dc) && AllGrew(st.ac, r.ac) && McuCounted(cfg, zs, last, r, n)
  }

  lemma AddBlock(cfg: seq<BlockPlan>, zs: Mcu, last: seq<int>, st: Stats, s: Stats, r: Stats, n: nat, total: nat)
    requires n < |cfg| == |zs| && PlanOk(cfg, |last|, |st.dc|) && BlockInRange(cfg, zs, last, n)
    requires |s.dc| == |s.ac| == |st.dc| == |st.ac|
    requires Added(cfg, zs, last, st, s, n, total)
    requires var (d, a) := (cfg[n].dcTbl, cfg[n].acTbl);
      r == Stats(s.dc[d := Tallied(s.dc[d], [DcSym(DiffAt(cfg, zs, last, n))])], s.ac[a := Tallied(s.ac[a], BlockSyms(zs[n]))])
    ensures Added(cfg, zs, last, st, r, n + 1, total + 64)
  {
    hide StatsOk, AcInRange, DiffInRange, DiffAt, AllGrew, BlockCounted, Tallied, BlockSyms, DcSym;
    CountBlock(s, cfg[n].dcTbl, cfg[n].acTbl, zs[n], DiffAt(cfg, zs, last, n), total);
    GrewTransitive(st.dc, s.dc, r.dc);
    GrewTransitive(st.ac, s.ac, r.ac);
    McuCountedStays(cfg, zs, last, s, r, n);
  }

  lemma NothingAdded(cfg: seq<BlockPlan>, zs: Mcu, last: seq<int>, st: Stats, n: nat, total: nat)
    requires n == 0 && |cfg| == |zs| && PlanOk(cfg, |last|, |st.dc|) && StatsOk(st, total)
    ensures Added(cfg, zs, last, st, st, n, total)
  {
    hide StatsOk;
    GrewReflexive(st.dc);
    GrewReflexive(st.ac);
  }

  lemma AddNextBlock(cfg: seq<BlockPlan>, zs: Mcu, last: seq<int>, st: Stats, n: nat, total: nat)
    requires n < |cfg| == |zs| && PlanOk(cfg, |last|, |st.dc|) && |st.dc| == |st.ac| && McuInRange(cfg, zs, last)
    requires Added(cfg, zs, last, st, CountMcu(cfg, zs, last, st, n), n, total)
    ensures Added(cfg, zs, last, st, CountMcu(cfg, zs, last, st, n + 1), n + 1, total + 64)
  {
    hide StatsOk, BlockInRange, Added, Tallied, BlockSyms, DcSym, DiffAt, LastAfter;
    assert BlockInRange(cfg, zs, last, n);
    AddBlock(cfg, zs, last, st, CountMcu(cfg, zs, last, st, n), CountMcu(cfg, zs, last, st, n + 1), n, total);
  }

  /** After an MCU in range: its symbols are counted, nothing counted before is lost. */
  lemma {:induction false} CountMcuFacts(cfg: seq<BlockPlan>, zs: Mcu, last: seq<int>, st: Stats, n: nat, total: nat)
    requires n <= |cfg| == |zs| && PlanOk(cfg, |last|, |st.dc|) && |st.dc| == |st.ac|
    requires StatsOk(st, total) && McuInRange(cfg, zs, last)
    ensures Added(cfg, zs, last, st, CountMcu(cfg, zs, last, st, n), n, total + 64 * n)
  {
    hide StatsOk, McuInRange, Added, LastAfter;
    if n == 0 {
      NothingAdded(cfg, zs, last, st, n, total);
    } else {
      hide CountMcu;
      CountMcuFacts(cfg, zs, last, st, n - 1, total);
      AddNextBlock(cfg, zs, last, st, n - 1, total + 64 * (n - 1));
    }
  }

  /** Every symbol the encoder will emit has been counted. */
  ghost predicate ScanCounted(cfg: seq<BlockPlan>, mcus: seq<Mcu>, last: seq<int>, st: Stats, k: nat)
    requires k <= |mcus| && PlanOk(cfg, |last|, |st.dc|) && |st.dc| == |st.ac| && forall i :: 0 <= i < |mcus| ==> |mcus[i]| == |cfg|
  {
    forall i :: 0 <= i < k ==> McuCounted(cfg, mcus[i], ScanLast(cfg, mcus, last, i), st, |cfg|)
  }

  ghost predicate AddedAll(cfg: seq<BlockPlan>, mcus: seq<Mcu>, last: seq<int>, st: Stats, r: Stats, k: nat, total: nat)
    requires k <= |mcus| && PlanOk(cfg, |last|, |st.dc|) && forall i :: 0 <= i < |mcus| ==> |mcus[i]| == |cfg|
  {
    StatsOk(r, total) && AllGrew(st.dc, r.dc) && AllGrew(st.ac, r.ac) && ScanCounted(cfg, mcus, last, r, k)
  }

  lemma AddMcu(cfg: seq<BlockPlan>, mcus: seq<Mcu>, last: seq<int>, st: Stats, s: Stats, r: Stats, k: nat, total: nat)
    requires k < |mcus| && PlanOk(cfg, |last|, |st.dc|) && forall i :: 0 <= i < |mcus| ==> |mcus[i]| == |cfg|
    requires |st.dc| == |s.dc| == |s.ac| == |st.ac| == |r.dc| == |r.ac|
    requires AddedAll(cfg, mcus, last, st, s, k, total)
    requires Added(cfg, mcus[k], ScanLast(cfg, mcus, last, k), s, r, |cfg|, total + 64 * |cfg|)
    ensures AddedAll(cfg, mcus, last, st, r, k + 1, total + 64 * |cfg|)
  {
    hide StatsOk, AllGrew, McuCounted, ScanLast;
    GrewTransitive(st.dc, s.dc, r.dc);
    GrewTransitive(st.ac, s.ac, r.ac);
    forall i | 0 <= i < k ensures McuCounted(cfg, mcus[i], ScanLast(cfg, mcus, last, i), r, |cfg|) {
      McuCountedStays(cfg, mcus[i], ScanLast(cfg, mcus, last, i), s, r, |cfg|);
    }
  }

  lemma AddNextMcu(cfg: seq<BlockPlan>, mcus: seq<Mcu>, last: seq<int>, st: Stats, k: nat, total: nat)
    requires k < |mcus| && PlanOk(cfg, |last|, |st.dc|) && |st.dc| == |st.ac| && forall i :: 0 <= i < |mcus| ==> |mcus[i]| == |cfg|
    requires ScanInRange(cfg, mcus, last)
    requires AddedAll(cfg, mcus, last, st, CountScan(cfg, mcus, last, st, k), k, total)
    ensures AddedAll(cfg, mcus, last, st, CountScan(cfg, mcus, last, st, k + 1), k + 1, total + 64 * |cfg|)
  {
    var s, l := CountScan(cfg, mcus, last, st, k), ScanLast(cfg, mcus, last, k);
    assert StatsOk(s, total);
    hide StatsOk, McuInRange, AllGrew, ScanCounted, CountMcu, Added, LastAfter, AddedAll;
    CountMcuFacts(cfg, mcus[k], l, s, |cfg|, total);
    AddMcu(cfg, mcus, last, st, s, CountScan(cfg, mcus, last, st, k + 1), k, total);
  }

  /** Gathering over a scan in range counts every symbol the encoder will emit. */
  lemma {:induction false} CountScanFacts(cfg: seq<BlockPlan>, mcus: seq<Mcu>, last: seq<int>, st: Stats, k: nat, total: nat)
    requires k <= |mcus| && PlanOk(cfg, |last|, |st.dc|) && |st.dc| == |st.ac| && forall i :: 0 <= i < |mcus| ==> |mcus[i]| == |cfg|
    requires ScanInRange(cfg, mcus, last) && StatsOk(st, total)
    ensures AddedAll(cfg, mcus, last, st, CountScan(cfg, mcus, last, st, k), k, total + 64 * (|cfg| * k))
  {
    hide StatsOk, McuInRange, AllGrew, CountMcu, LastAfter, ScanInRange;
    if k == 0 {
      GrewReflexive(st.dc);
      GrewReflexive(st.ac);
    } else {
      hide AddedAll, CountScan;
      assert |cfg| * k == |cfg| * (k - 1) + |cfg|;
      CountScanFacts(cfg, mcus, last, st, k - 1, total);
      AddNextMcu(cfg, mcus, last, st, k - 1, total + 64 * (|cfg| * (k - 1)));
    }
  }

  // ----- Gathering in memory

  /** The counting arrays of the DC and AC tables, all separate. */
  ghost predicate Arrays(dc: seq<array<nat>>, ac: seq<array<nat>>) {
    && |dc| == |ac|
    && (forall t :: 0 <= t < |dc| ==> dc[t].Length == NUM_SYMBOLS && ac[t].Length == NUM_SYMBOLS)
    && (forall t, u :: 0 <= t < u < |dc| ==> dc[t] != dc[u] && ac[t] != ac[u])
    && forall t, u :: 0 <= t < |dc| && 0 <= u < |ac| ==> dc[t] != ac[u]
  }

  ghost function Counts(a: seq<array<nat>>): (r: seq<seq<nat>>)
    reads a
    ensures |r| == |a|
  {
    seq(|a|, t requires 0 <= t < |a| reads a => a[t][..])
  }

  ghost function StatsOf(dc: seq<array<nat>>, ac: seq<array<nat>>): Stats
    reads dc, ac
  {
    Stats(Counts(dc), Counts(ac))
  }

  lemma CountsUpdate(a: seq<array<nat>>, was: seq<seq<nat>>, t: nat)
    requires |was| == |a| && t < |a| && forall u :: 0 <= u < |a| && u != t ==> a[u][..] == was[u]
    ensures Counts(a) == was[t := a[t][..]]
  {
  }

  /** One block into the counts of its two tables. */
  method GatherBlock(dc: seq<array<nat>>, ac: seq<array<nat>>, d: nat, a: nat, block: seq<int>, lastDcVal: int) returns (ok: bool)
    requires Arrays(dc, ac) && d < |dc| && a < |ac| && |block| == 64
    modifies dc[d], ac[a]
    ensures ok <==> DiffInRange(block[0] - lastDcVal) && AcInRange(Zig(block))
    ensures ok ==> Counts(dc) == old(Counts(dc))[d := Tallied(old(Counts(dc))[d], [DcSym(block[0] - lastDcVal)])]
    ensures ok ==> Counts(ac) == old(Counts(ac))[a := Tallied(old(Counts(ac))[a], BlockSyms(Zig(block)))]
  {
    hide AcInRange, DiffInRange, Tallied, BlockSyms, DcSym, Zig;
    ghost var f, g := Counts(dc), Counts(ac);
    ok := HtestOneBlock(block, lastDcVal, dc[d], ac[a]);
    CountsUpdate(dc, f, d);
    CountsUpdate(ac, g, a);
  }

  ghost predicate RangeUpTo(cfg: seq<BlockPlan>, zs: Mcu, last: seq<int>, n: nat)
    requires n <= |cfg| == |zs| && forall i :: 0 <= i < |cfg| ==> cfg[i].ci < |last|
  {
    forall m :: 0 <= m < n ==> BlockInRange(cfg, zs, last, m)
  }

  lemma DiffOfBlock(cfg: seq<BlockPlan>, mcu: seq<seq<int>>, last: seq<int>, n: nat)
    requires n < |cfg| == |mcu| && StoredMcu(mcu) && forall i :: 0 <= i < |cfg| ==> cfg[i].ci < |last|
    ensures DiffAt(cfg, ZigMcu(mcu), last, n) == mcu[n][0] - LastAfter(cfg, ZigMcu(mcu), last, n)[cfg[n].ci]
    ensures LastAfter(cfg, ZigMcu(mcu), last, n + 1) == LastAfter(cfg, ZigMcu(mcu), last, n)[cfg[n].ci := mcu[n][0]]
  {
    OrderZero();
    hide Order;
  }

  /** The turn of block n. */
  method GatherTurn(cfg: seq<BlockPlan>, mcu: seq<seq<int>>, ghost last0: seq<int>, ghost st: Stats, n: nat, last: seq<int>,
                    dc: seq<array<nat>>, ac: seq<array<nat>>)
      returns (ok: bool)
    requires Arrays(dc, ac) && PlanOk(cfg, |last0|, |dc|) && |mcu| == |cfg| && StoredMcu(mcu) && n < |cfg|
    requires |st.dc| == |st.ac| == |dc| && last == LastAfter(cfg, ZigMcu(mcu), last0, n)
    requires StatsOf(dc, ac) == CountMcu(cfg, ZigMcu(mcu), last0, st, n)
    modifies dc, ac
    ensures ok <==> BlockInRange(cfg, ZigMcu(mcu), last0, n)
    ensures ok ==> StatsOf(dc, ac) == CountMcu(cfg, ZigMcu(mcu), last0, st, n + 1)
  {
    DiffOfBlock(cfg, mcu, last0, n);
    hide AcInRange, DiffInRange, Tallied, BlockSyms, DcSym, Zig, Counts, DiffAt, LastAfter;
    ok := GatherBlock(dc, ac, cfg[n].dcTbl, cfg[n].acTbl, mcu[n], last[cfg[n].ci]);
  }

  /** n blocks have been gathered. */
  ghost predicate Gathered(cfg: seq<BlockPlan>, zs: Mcu, last0: seq<int>, st: Stats, n: nat, last: seq<int>, now: Stats) {
    && n <= |cfg| == |zs| && PlanOk(cfg, |last0|, |st.dc|) && |st.dc| == |st.ac| && RangeUpTo(cfg, zs, last0, n)
    && last == LastAfter(cfg, zs, last0, n) && |last| == |last0| && now == CountMcu(cfg, zs, last0, st, n)
  }

  /** encode_mcu_gather, without the restart bookkeeping. */
  method GatherMcu(cfg: seq<BlockPlan>, mcu: seq<seq<int>>, last0: seq<int>, dc: seq<array<nat>>, ac: seq<array<nat>>)
      returns (ok: bool, last: seq<int>)
    requires Arrays(dc, ac) && PlanOk(cfg, |last0|, |dc|) && |mcu| == |cfg| && StoredMcu(mcu)
    modifies dc, ac
    ensures ok <==> McuInRange(cfg, ZigMcu(mcu), last0)
    ensures ok ==> last == LastAfter(cfg, ZigMcu(mcu), last0, |cfg|)
    ensures ok ==> StatsOf(dc, ac) == CountMcu(cfg, ZigMcu(mcu), last0, old(StatsOf(dc, ac)), |cfg|)
  {
    hide *;
    GatherShape(cfg, mcu, last0, dc, ac);
    ghost var zs, st := ZigMcu(mcu), StatsOf(dc, ac);
    last := last0;
    GatheredNone(cfg, zs, last0, st);
    for n := 0 to |cfg|
      invariant Gathered(cfg, zs, last0, st, n, last, StatsOf(dc, ac))
    {
      GatheredAt(cfg, mcu, last0, st, n, last, StatsOf(dc, ac));
      ok := GatherTurn(cfg, mcu, last0, st, n, last, dc, ac);
      if !ok {
        NotAllInRange(cfg, zs, last0, n);
        return;
      }
      GatheredNext(cfg, mcu, last0, st, n, last);
      last := last[cfg[n].ci := mcu[n][0]];
    }
    GatheredAll(cfg, zs, last0, st, last, StatsOf(dc, ac));
    ok := true;
  }

  lemma GatherShape(cfg: seq<BlockPlan>, mcu: seq<seq<int>>, last: seq<int>, dc: seq<array<nat>>, ac: seq<array<nat>>)
    requires Arrays(dc, ac) && PlanOk(cfg, |last|, |dc|) && |mcu| == |cfg| && StoredMcu(mcu)
    ensures |StatsOf(dc, ac).dc| == |StatsOf(dc, ac).ac| == |dc| && forall i :: 0 <= i < |cfg| ==> cfg[i].ci < |last| && |mcu[i]| == 64
  {
  }

  lemma GatheredNone(cfg: seq<BlockPlan>, zs: Mcu, last: seq<int>, st: Stats)
    requires |cfg| == |zs| && PlanOk(cfg, |last|, |st.dc|) && |st.dc| == |st.ac|
    ensures Gathered(cfg, zs, last, st, 0, last, st)
  {
    hide BlockInRange;
  }

  lemma GatheredAt(cfg: seq<BlockPlan>, mcu: seq<seq<int>>, last0: seq<int>, st: Stats, n: nat, last: seq<int>, now: Stats)
    requires |mcu| == |cfg| && StoredMcu(mcu) && n < |cfg| && Gathered(cfg, ZigMcu(mcu), last0, st, n, last, now)
    ensures (forall i :: 0 <= i < |cfg| ==> cfg[i].ci < |last0|) && cfg[n].ci < |last|
    ensures last == LastAfter(cfg, ZigMcu(mcu), last0, n) && now == CountMcu(cfg, ZigMcu(mcu), last0, st, n)
  {
    hide LastAfter, CountMcu, ZigMcu, RangeUpTo;
  }

  lemma GatheredNext(cfg: seq<BlockPlan>, mcu: seq<seq<int>>, last0: seq<int>, st: Stats, n: nat, last: seq<int>)
    requires |mcu| == |cfg| && StoredMcu(mcu) && n < |cfg| && PlanOk(cfg, |last0|, |st.dc|) && |st.dc| == |st.ac|
    requires Gathered(cfg, ZigMcu(mcu), last0, st, n, last, CountMcu(cfg, ZigMcu(mcu), last0, st, n))
    requires BlockInRange(cfg, ZigMcu(mcu), last0, n) && cfg[n].ci < |last|
    ensures Gathered(cfg, ZigMcu(mcu), last0, st, n + 1, last[cfg[n].ci := mcu[n][0]], CountMcu(cfg, ZigMcu(mcu), last0, st, n + 1))
  {
    hide LastAfter, CountMcu, ZigMcu, BlockInRange, DiffAt;
    DiffOfBlock(cfg, mcu, last0, n);
  }

  lemma GatheredAll(cfg: seq<BlockPlan>, zs: Mcu, last0: seq<int>, st: Stats, last: seq<int>, now: Stats)
    requires |cfg| == |zs| && PlanOk(cfg, |last0|, |st.dc|) && |st.dc| == |st.ac| && Gathered(cfg, zs, last0, st, |cfg|, last, now)
    ensures McuInRange(cfg, zs, last0) && last == LastAfter(cfg, zs, last0, |cfg|) && now == CountMcu(cfg, zs, last0, st, |cfg|)
  {
    hide LastAfter, CountMcu, BlockInRange;
  }

  lemma NotAllInRange(cfg: seq<BlockPlan>, zs: Mcu, last: seq<int>, n: nat)
    requires n < |cfg| == |zs| && (forall i :: 0 <= i < |cfg| ==> cfg[i].ci < |last|) && !BlockInRange(cfg, zs, last, n)
    ensures !McuInRange(cfg, zs, last)
  {
    hide BlockInRange;
  }

  ghost predicate ScanRangeUpTo(cfg: seq<BlockPlan>, mcus: seq<Mcu>, last: seq<int>, k: nat)
    requires k <= |mcus| && (forall i :: 0 <= i < |cfg| ==> cfg[i].ci < |last|) && forall i :: 0 <= i < |mcus| ==> |mcus[i]| == |cfg|
  {
    forall i :: 0 <= i < k ==> McuInRange(cfg, mcus[i], ScanLast(cfg, mcus, last, i))
  }

  method GatherNextMcu(cfg: seq<BlockPlan>, mcus: seq<seq<seq<int>>>, ghost last0: seq<int>, ghost st: Stats, k: nat, last1: seq<int>,
                       dc: seq<array<nat>>, ac: seq<array<nat>>)
      returns (ok: bool, last: seq<int>)
    requires Arrays(dc, ac) && PlanOk(cfg, |last0|, |dc|) && StoredMcus(cfg, mcus) && k < |mcus|
    requires |st.dc| == |st.ac| == |dc| && last1 == ScanLast(cfg, ZigMcus(mcus), last0, k)
    requires StatsOf(dc, ac) == CountScan(cfg, ZigMcus(mcus), last0, st, k)
    modifies dc, ac
    ensures ok <==> McuInRange(cfg, ZigMcus(mcus)[k], ScanLast(cfg, ZigMcus(mcus), last0, k))
    ensures ok ==> last == ScanLast(cfg, ZigMcus(mcus), last0, k + 1)
    ensures ok ==> StatsOf(dc, ac) == CountScan(cfg, ZigMcus(mcus), last0, st, k + 1)
  {
    hide McuInRange, StatsOf, LastAfter, CountMcu, ZigMcu;
    assert ZigMcus(mcus)[k] == ZigMcu(mcus[k]);
    ok, last := GatherMcu(cfg, mcus[k], last1, dc, ac);
  }

  /** The whole first pass; ok is false if and only if some value is out of range. */
  method Gather(cfg: seq<BlockPlan>, mcus: seq<seq<seq<int>>>, last0: seq<int>, dc: seq<array<nat>>, ac: seq<array<nat>>)
      returns (ok: bool)
    requires Arrays(dc, ac) && PlanOk(cfg, |last0|, |dc|) && StoredMcus(cfg, mcus)
    modifies dc, ac
    ensures ok <==> ScanInRange(cfg, ZigMcus(mcus), last0)
    ensures ok ==> StatsOf(dc, ac) == CountScan(cfg, ZigMcus(mcus), last0, old(StatsOf(dc, ac)), |mcus|)
  {
    ghost var zss, st := ZigMcus(mcus), StatsOf(dc, ac);
    NoMcusYet(cfg, zss, last0, st);
    hide McuInRange, StatsOf, ScanLast, CountScan, ZigMcus;
    var last := last0;
    for k := 0 to |mcus|
      invariant |last| == |last0| && last == ScanLast(cfg, zss, last0, k) && ScanRangeUpTo(cfg, zss, last0, k)
      invariant StatsOf(dc, ac) == CountScan(cfg, zss, last0, st, k)
    {
      ok, last := GatherNextMcu(cfg, mcus, last0, st, k, last, dc, ac);
      if !ok {
        return;
      }
    }
    ok := true;
  }

  lemma NoMcusYet(cfg: seq<BlockPlan>, mcus: seq<Mcu>, last: seq<int>, st: Stats)
    requires PlanOk(cfg, |last|, |st.dc|) && |st.dc| == |st.ac| && forall i :: 0 <= i < |mcus| ==> |mcus[i]| == |cfg|
    ensures ScanLast(cfg, mcus, last, 0) == last && CountScan(cfg, mcus, last, st, 0) == st
  {
  }
}
