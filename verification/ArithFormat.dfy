/** Which statistics bin each decision is made with (tables F.4 and F.5, sections F.1.4.4 and G.1.3.3
    of Rec. ITU-T T.81), decision by decision. */
module ArithFormat {
  import opened Coefficients
  import opened Powers
  import opened ProbTable
  import opened Interval
  import opened Binarize
  import opened Refine
  import opened Scans
  import opened Sequential
  import opened ArithFile

  // ----- Magnitudes

  /** Bit k of v. */
  function BitAt(v: nat, k: nat): bool {
    v / Pow2(k) % 2 == 1
  }

  lemma {:induction false} CategoryAt(start: nat, j: nat, t: nat)
    requires j <= t
    ensures |Category(start, j, t)| == t - j + 1
    ensures forall i :: 0 <= i <= t - j ==> Category(start, j, t)[i] == Decision(start + j + i, i < t - j)
    decreases t - j
  {
    if j < t {
      CategoryAt(start, j + 1, t);
    }
  }

  lemma {:induction false} PatternAt(st: nat, j: nat, v: nat)
    ensures |BitPattern(st, j, v)| == j
    ensures forall i :: 0 <= i < j ==> BitPattern(st, j, v)[i] == Decision(st, BitAt(v, j - 1 - i))
  {
    if j > 0 {
      PatternAt(st, j - 1, v);
      hide Pow2;
    }
  }

  lemma TopIs(v: nat, t: nat)
    requires Pow2(t) <= v < Pow2(t + 1)
    ensures Log2(v) == t
  {
    Log2Bounds(v);
    if Log2(v) < t {
      Pow2Mono(Log2(v) + 1, t);
    } else if t < Log2(v) {
      Pow2Mono(t + 1, Log2(v));
    }
  }

  lemma LongAt(start: nat, j: nat, v: nat, t: nat)
    requires j <= t && Pow2(t) <= v < Pow2(t + 1)
    ensures Log2(v) == t
    ensures var ds := LongMagnitude(start, j, v);
      && |ds| == t - j + 1 + t
      && (forall q :: 0 <= q <= t - j ==> ds[q] == Decision(start + j + q, q < t - j))
      && forall q :: t - j < q < t - j + 1 + t ==> ds[q] == Decision(start + t + 14, BitAt(v, 2 * t - j - q))
  {
    TopIs(v, t);
    CategoryAt(start, j, t);
    PatternAt(start + t + 14, t, v);
    hide Category, BitPattern, Log2, Pow2;
    var ds := LongMagnitude(start, j, v);
    forall q | t - j < q < t - j + 1 + t ensures ds[q] == Decision(start + t + 14, BitAt(v, 2 * t - j - q)) {
      assert ds[q] == BitPattern(start + t + 14, t, v)[q - (t - j + 1)] && t - 1 - (q - (t - j + 1)) == 2 * t - j - q;
    }
  }

  // ----- DC differences

  /** A difference: whether it is zero, its sign, whether its magnitude is one, and else, u being the
      magnitude less one and t the place of its highest bit, bins 20 to 20 + t for the category and
      bin 34 + t for the bits below. */
  lemma DcBins(base: nat, ctx: nat, diff: int, u: nat, t: nat)
    requires diff != 0 ==> u == (if diff < 0 then -diff else diff) - 1
    requires u > 0 ==> Pow2(t) <= u < Pow2(t + 1)
    ensures var ds := DcDecisions(base, ctx, diff);
      if diff == 0 then ds == [Decision(base + ctx, false)] else
      && |ds| == 3 + (if u > 0 then t + 1 + t else 0)
      && ds[0] == Decision(base + ctx, true) && ds[1] == Decision(base + ctx + 1, diff < 0)
      && ds[2] == Decision(base + ctx + (if diff > 0 then 2 else 3), u > 0)
      && (u > 0 ==> forall q :: 3 <= q <= 3 + t ==> ds[q] == Decision(base + 20 + (q - 3), q < 3 + t))
      && (u > 0 ==> forall q :: 3 + t < q < |ds| ==> ds[q] == Decision(base + 34 + t, BitAt(u, |ds| - 1 - q)))
  {
    hide *;
    DcIs(base, ctx, diff, u);
    if diff != 0 {
      DcMagnitudeBins(base, base + ctx + (if diff > 0 then 2 else 3), u, t);
      ThreeAndMore(Decision(base + ctx, true), Decision(base + ctx + 1, diff < 0), DcMagnitude(base, base + ctx + (if diff > 0 then 2 else 3), u));
    }
  }

  lemma DcIs(base: nat, ctx: nat, diff: int, u: nat)
    requires diff != 0 ==> u == (if diff < 0 then -diff else diff) - 1
    ensures DcDecisions(base, ctx, diff) == if diff == 0 then [Decision(base + ctx, false)] else
      [Decision(base + ctx, true), Decision(base + ctx + 1, diff < 0)] + DcMagnitude(base, base + ctx + (if diff > 0 then 2 else 3), u)
  {
    hide DcMagnitude;
  }

  lemma DcMagnitudeBins(base: nat, st: nat, u: nat, t: nat)
    requires u > 0 ==> Pow2(t) <= u < Pow2(t + 1)
    ensures var ds := DcMagnitude(base, st, u);
      && |ds| == 1 + (if u > 0 then t + 1 + t else 0) && ds[0] == Decision(st, u > 0)
      && (u > 0 ==> forall q :: 1 <= q <= 1 + t ==> ds[q] == Decision(base + 20 + (q - 1), q < 1 + t))
      && (u > 0 ==> forall q :: 1 + t < q < |ds| ==> ds[q] == Decision(base + 34 + t, BitAt(u, |ds| - 1 - q)))
  {
    if u > 0 {
      hide *;
      DcLongIs(base, st, u);
      LongFromZero(base + 20, st, u, t);
    } else {
      assert DcMagnitude(base, st, u) == [Decision(st, false)];
    }
  }

  lemma LongFromZero(start: nat, st: nat, u: nat, t: nat)
    requires Pow2(t) <= u < Pow2(t + 1)
    ensures var ds := [Decision(st, true)] + LongMagnitude(start, 0, u);
      && |ds| == 2 + 2 * t && ds[0] == Decision(st, true)
      && (forall q :: 1 <= q <= 1 + t ==> ds[q] == Decision(start + (q - 1), q < 1 + t))
      && forall q :: 1 + t < q < 2 + 2 * t ==> ds[q] == Decision(start + t + 14, BitAt(u, 1 + 2 * t - q))
  {
    hide *;
    LongAt(start, 0, u, t);
    var l := LongMagnitude(start, 0, u);
    var ds := [Decision(st, true)] + l;
    OneAndMore(Decision(st, true), l);
    forall q | 1 <= q <= 1 + t ensures ds[q] == Decision(start + (q - 1), q < 1 + t) {
      assert ds[q] == l[q - 1];
    }
    forall q | 1 + t < q < 2 + 2 * t ensures ds[q] == Decision(start + t + 14, BitAt(u, 1 + 2 * t - q)) {
      assert ds[q] == l[q - 1];
    }
  }

  lemma DcLongIs(base: nat, st: nat, u: nat)
    requires u > 0
    ensures DcMagnitude(base, st, u) == [Decision(st, true)] + LongMagnitude(base + 20, 0, u)
  {
    hide LongMagnitude;
  }

  lemma OneAndMore(a: Decision, more: seq<Decision>)
    ensures var ds := [a] + more; |ds| == 1 + |more| && ds[0] == a && forall q :: 1 <= q < 1 + |more| ==> ds[q] == more[q - 1]
  {
  }

  lemma ThreeAndMore(a: Decision, b: Decision, more: seq<Decision>)
    ensures var ds := [a, b] + more;
      |ds| == 2 + |more| && ds[0] == a && ds[1] == b && forall q :: 2 <= q < 2 + |more| ==> ds[q] == more[q - 2]
  {
  }

  lemma HalfOf(l: nat)
    ensures Pow2(l) / 2 == if l == 0 then 0 else Pow2(l - 1)
  {
  }

  lemma TopAgainst(u: nat, l: nat)
    ensures TopBit(u) < Pow2(l) / 2 <==> l > 0 && u < Pow2(l - 1)
    ensures TopBit(u) > Pow2(l) / 2 <==> u >= Pow2(l)
  {
    HalfOf(l);
    if u > 0 {
      Log2Bounds(u);
      var t := Log2(u);
      assert Pow2(t + 1) == 2 * Pow2(t) && (l > 0 ==> Pow2(l) == 2 * Pow2(l - 1));
      hide Log2;
      if t >= l {
        Pow2Mono(l, t);
      } else {
        Pow2Mono(t, l - 1);
        Pow2Mono(t + 1, l);
        if t < l - 1 {
          Pow2Mono(t + 1, l - 1);
        }
      }
    }
  }

  /** The context for the next difference depends on whether this one is zero or at most 2^(L-1), and
      whether it is more than 2^U. */
  lemma DcContextIs(diff: int, lower: nat, upper: nat)
    ensures var m := if diff < 0 then -diff else diff;
      NextDcContext(diff, lower, upper) ==
        if diff == 0 || (lower > 0 && m <= Pow2(lower - 1)) then 0
        else (if diff > 0 then 4 else 8) + (if m > Pow2(upper) then 8 else 0)
  {
    if diff != 0 {
      var u: nat := Abs(diff) - 1;
      TopAgainst(u, lower);
      TopAgainst(u, upper);
      hide TopBit, Pow2;
    }
  }

  // ----- AC coefficients

  /** At the head of the loop: the end-of-block decision of coefficient k, in bin 3 (k - 1). */
  lemma AcHeads(base: nat, kx: nat, z: seq<int>, k: nat, ke: nat, se: nat)
    requires k > 0 && ke <= se < |z| && (ke > 0 ==> z[ke] != 0)
    ensures var ds := AcDecisions(base, kx, z, k, ke, se);
      && (k <= ke ==> ds == [Decision(base + 3 * (k - 1), false)] + AcRun(base, kx, z, k, ke, se))
      && (ke < k <= se ==> ds == [Decision(base + 3 * (k - 1), true)])
      && (k > ke && k > se ==> ds == [])
    ensures k <= ke && z[k] == 0 ==>
      AcRun(base, kx, z, k, ke, se) == [Decision(base + 3 * (k - 1) + 1, false)] + AcRun(base, kx, z, k + 1, ke, se)
  {
  }

  /** A coefficient that is not zero: bins 3 (k - 1) + 1 and + 2 and the fixed bin; and if its magnitude
      less one, u, has its highest bit at place t > 0, bins X to X + t - 1 for the rest of the category
      and bin X + t + 13 for the bits below, where X is 189 up to Kx and 217 above it. */
  lemma AcBins(base: nat, kx: nat, z: seq<int>, k: nat, ke: nat, se: nat, u: nat, t: nat)
    requires 0 < k <= ke <= se < |z| && z[ke] != 0 && z[k] != 0
    requires u == (if z[k] < 0 then -z[k] else z[k]) - 1 && (u > 0 ==> Pow2(t) <= u < Pow2(t + 1))
    ensures var ds, n, x := AcRun(base, kx, z, k, ke, se), if u == 0 then 3 else if u == 1 then 4 else 4 + 2 * t, if k <= kx then base + 189 else base + 217;
      && n <= |ds| && ds[n..] == AcDecisions(base, kx, z, k + 1, ke, se)
      && ds[0] == Decision(base + 3 * (k - 1) + 1, true) && ds[1] == Decision(5120, z[k] < 0)
      && ds[2] == Decision(base + 3 * (k - 1) + 2, u > 0)
      && (u > 0 ==> ds[3] == Decision(base + 3 * (k - 1) + 2, u > 1))
      && (u > 1 ==> forall q :: 4 <= q < 4 + t ==> ds[q] == Decision(x + (q - 4), q < 3 + t))
      && (u > 1 ==> forall q :: 4 + t <= q < n ==> ds[q] == Decision(x + t + 13, BitAt(u, n - 1 - q)))
  {
    hide *;
    var st, x := base + 3 * (k - 1) + 2, if k <= kx then base + 189 else base + 217;
    RunIs(base, kx, z, k, ke, se, u);
    MagnitudeBins(st, x, u, t);
    TwoAndMore(Decision(base + 3 * (k - 1) + 1, true), Decision(5120, z[k] < 0), AcMagnitude(st, x, u), AcDecisions(base, kx, z, k + 1, ke, se));
  }

  lemma RunIs(base: nat, kx: nat, z: seq<int>, k: nat, ke: nat, se: nat, u: nat)
    requires 0 < k <= ke <= se < |z| && z[ke] != 0 && z[k] != 0 && u == (if z[k] < 0 then -z[k] else z[k]) - 1
    ensures AcRun(base, kx, z, k, ke, se)
      == [Decision(base + 3 * (k - 1) + 1, true), Decision(5120, z[k] < 0)]
         + AcMagnitude(base + 3 * (k - 1) + 2, if k <= kx then base + 189 else base + 217, u) + AcDecisions(base, kx, z, k + 1, ke, se)
  {
    hide *;
    RunUnfolds(base, kx, z, k, ke, se);
    BinNumbers(base, kx, z[k], k, u);
  }

  lemma RunUnfolds(base: nat, kx: nat, z: seq<int>, k: nat, ke: nat, se: nat)
    requires 0 < k <= ke <= se < |z| && z[ke] != 0 && z[k] != 0
    ensures Abs(z[k]) > 0 && AcRun(base, kx, z, k, ke, se)
      == [Decision(EobBin(base, k) + 1, true), Decision(FIXED_BIN, z[k] < 0)]
         + AcMagnitude(EobBin(base, k) + 2, LongBin(base, kx, k), Abs(z[k]) - 1) + AcDecisions(base, kx, z, k + 1, ke, se)
  {
    hide AcMagnitude, AcDecisions, EobBin, LongBin, FIXED_BIN, NUM_TBLS;
  }

  lemma BinNumbers(base: nat, kx: nat, v: int, k: nat, u: nat)
    requires k > 0 && u == (if v < 0 then -v else v) - 1
    ensures FIXED_BIN == 5120 && EobBin(base, k) == base + 3 * (k - 1) && Abs(v) - 1 == u
    ensures LongBin(base, kx, k) == if k <= kx then base + 189 else base + 217
  {
  }

  lemma MagnitudeBins(st: nat, x: nat, u: nat, t: nat)
    requires x > 0 && (u > 0 ==> Pow2(t) <= u < Pow2(t + 1))
    ensures var ds := AcMagnitude(st, x, u);
      && |ds| == (if u == 0 then 1 else if u == 1 then 2 else 2 + 2 * t)
      && ds[0] == Decision(st, u > 0) && (u > 0 ==> ds[1] == Decision(st, u > 1))
      && (u > 1 ==> t > 0 && forall q :: 2 <= q < 2 + t ==> ds[q] == Decision(x + (q - 2), q < 1 + t))
      && (u > 1 ==> forall q :: 2 + t <= q < |ds| ==> ds[q] == Decision(x + t + 13, BitAt(u, |ds| - 1 - q)))
  {
    assert Pow2(0) == 1 && Pow2(1) == 2;
    if u == 1 {
      TopIs(1, 0);
    } else if u > 1 {
      assert t > 0;
      hide AcMagnitude, Pow2;
      LongBins(st, x, u, t);
    }
  }

  lemma LongBins(st: nat, x: nat, u: nat, t: nat)
    requires x > 0 && t > 0 && u > 1 && Pow2(t) <= u < Pow2(t + 1)
    ensures var ds := AcMagnitude(st, x, u);
      && |ds| == 2 + 2 * t && ds[0] == ds[1] == Decision(st, true)
      && (forall q :: 2 <= q < 2 + t ==> ds[q] == Decision(x + (q - 2), q < 1 + t))
      && forall q :: 2 + t <= q < |ds| ==> ds[q] == Decision(x + t + 13, BitAt(u, |ds| - 1 - q))
  {
    LongAt(x - 1, 1, u, t);
    assert AcMagnitude(st, x, u) == [Decision(st, true), Decision(st, true)] + LongMagnitude(x - 1, 1, u);
    hide *;
    TwoAndMore(Decision(st, true), Decision(st, true), LongMagnitude(x - 1, 1, u), []);
  }

  lemma TwoAndMore(a: Decision, b: Decision, more: seq<Decision>, rest: seq<Decision>)
    ensures var ds := [a, b] + more + rest;
      && |ds| == 2 + |more| + |rest| && ds[0] == a && ds[1] == b && (forall q :: 2 <= q < 2 + |more| ==> ds[q] == more[q - 2])
      && ds[2 + |more|..] == rest && (rest == [] ==> ds == [a, b] + more)
  {
  }

  // ----- Refinement

  /** A refinement: end of block in bin 3 (k - 1), asked only beyond the coefficients known before;
      bin 3 (k - 1) + 1 for whether one appears, its sign in the fixed bin; and bin 3 (k - 1) + 2 for
      the next bit of a known one. */
  lemma RefineBins(base: nat, y: seq<int>, k: nat, kex: nat, ke: nat, se: nat)
    requires k > 0 && ke <= se < |y| && (ke > 0 ==> y[ke] != 0)
    ensures var ds := RefineDecisions(base, y, k, kex, ke, se);
      && (k <= ke && k <= kex ==> ds == RefineRun(base, y, k, kex, ke, se))
      && (k <= ke && k > kex ==> ds == [Decision(base + 3 * (k - 1), false)] + RefineRun(base, y, k, kex, ke, se))
      && (ke < k <= se ==> ds == [Decision(base + 3 * (k - 1), true)])
    ensures k <= ke ==>
      var ds := RefineRun(base, y, k, kex, ke, se);
      && (y[k] == 0 ==> ds == [Decision(base + 3 * (k - 1) + 1, false)] + RefineRun(base, y, k + 1, kex, ke, se))
      && (y[k] == 1 || y[k] == -1 ==>
           ds == [Decision(base + 3 * (k - 1) + 1, true), Decision(5120, y[k] < 0)] + RefineDecisions(base, y, k + 1, kex, ke, se))
      && (y[k] > 1 ==> ds == [Decision(base + 3 * (k - 1) + 2, y[k] % 2 == 1)] + RefineDecisions(base, y, k + 1, kex, ke, se))
      && (y[k] < -1 ==> ds == [Decision(base + 3 * (k - 1) + 2, -y[k] % 2 == 1)] + RefineDecisions(base, y, k + 1, kex, ke, se))
  {
    assert FIXED_BIN == 5120;
  }

  // ----- The start of a scan

  /** Every bin starts at row 0 with the sense of a zero, but the fixed one at row 113, which has an
      LPS size of about one half and leads nowhere else. */
  lemma BinsAtStart()
    ensures |StartBins()| == 5121 && StartBins()[5120] == 113 && forall i :: 0 <= i < 5120 ==> StartBins()[i] == 0
    ensures |ROWS_76_TO_113| == 38 && ROWS_76_TO_113[37] == Row(0x5A1D, 113, 113, 0)
  {
  }

  // ----- One decision

  /** The more probable symbol has the lower part of the interval and the less probable one the upper part, of
      size qe, except that they are exchanged where the lower part is the smaller. */
  lemma HalfTaken(T: Table, iv: Iv, sv: nat, bit: bool)
    requires IvOk(iv) && BinOk(T, sv)
    ensures var qe := T[sv % 128].qe;
      var rest, probable := iv.a - qe, bit == (sv >= 128);
      Code(T, iv, sv, bit) == Renorm(
        if probable == (rest >= qe) then Iv(iv.b, rest, iv.n) else Iv(iv.b + rest, qe, iv.n))
  {
    hide Renorm;
  }

  /** The bin goes to the next row for the symbol, unless the more probable one leaves the interval normalised;
      an LPS row that says so exchanges the symbols. */
  lemma BinNext(T: Table, sv: nat, a: nat, bit: bool)
    requires BinOk(T, sv) && 0x8000 <= a
    ensures var row, probable, sense := T[sv % 128], bit == (sv >= 128), if sv >= 128 then 128 else 0;
      NextBin(T, sv, a, bit != Sense(sv)) ==
        if probable && a - row.qe >= 0x8000 then sv
        else if probable then (if row.nm < 128 then sense else 128 - sense) + row.nm % 128
        else (if row.nl < 128 then sense else 128 - sense) + row.nl % 128
  {
  }

  // ----- DC predictions and contexts

  /** The state after the visits, under point transform al. */
  function DcFrom(g: Config, m: Image, al: nat, visits: seq<nat>, d: DcState): (e: DcState)
    requires ConfigOk(g) && ImageOk(g, m) && VisitsOk(m, visits) && DcStateOk(g, d)
    ensures DcStateOk(g, e)
  {
    if visits == [] then d else
    DcFrom(g, m, al, visits[1..], DcNext(g, d, m.comp[visits[0]], Floor(m.blocks[visits[0]][0], al)))
  }

  lemma {:induction false} DcKept(g: Config, m: Image, al: nat, visits: seq<nat>, d: DcState, c: nat)
    requires ConfigOk(g) && ImageOk(g, m) && VisitsOk(m, visits) && DcStateOk(g, d) && c < |g.comps|
    requires forall i :: 0 <= i < |visits| ==> m.comp[visits[i]] != c
    ensures var e := DcFrom(g, m, al, visits, d); e.last[c] == d.last[c] && e.ctx[c] == d.ctx[c]
    decreases |visits|
  {
    hide Floor, NextDcContext;
    if visits != [] {
      DcKept(g, m, al, visits[1..], DcNext(g, d, m.comp[visits[0]], Floor(m.blocks[visits[0]][0], al)), c);
    }
  }

  /** The prediction for a component is the DC value of its last block, here that of visit j, and the context is
      that of the difference coded there; without such a block they are those of the start. */
  lemma {:induction false} DcLast(g: Config, m: Image, al: nat, visits: seq<nat>, d: DcState, j: nat)
    requires ConfigOk(g) && ImageOk(g, m) && VisitsOk(m, visits) && DcStateOk(g, d) && j < |visits|
    requires forall i :: j < i < |visits| ==> m.comp[visits[i]] != m.comp[visits[j]]
    ensures VisitsOk(m, visits[..j])
    ensures var c, v := m.comp[visits[j]], Floor(m.blocks[visits[j]][0], al);
      var e, before, tbl := DcFrom(g, m, al, visits, d), DcFrom(g, m, al, visits[..j], d), g.comps[c].dcTbl;
      e.last[c] == v && e.ctx[c] == NextDcContext(v - before.last[c], g.dcL[tbl], g.dcU[tbl])
    decreases |visits|
  {
    hide Floor, NextDcContext;
    var next := DcNext(g, d, m.comp[visits[0]], Floor(m.blocks[visits[0]][0], al));
    if j == 0 {
      DcKept(g, m, al, visits[1..], next, m.comp[visits[0]]);
    } else {
      DcLast(g, m, al, visits[1..], next, j - 1);
      assert visits[..j][1..] == visits[1..][..j - 1];
    }
  }

  /** A sequential scan codes block j with the state after the blocks visited before it. */
  lemma {:induction false} SeqScanAt(g: Config, m: Image, visits: seq<nat>, d: DcState, j: nat)
    requires ConfigOk(g) && ImageOk(g, m) && VisitsOk(m, visits) && DcStateOk(g, d) && j < |visits|
    ensures VisitsOk(m, visits[..j]) && VisitsOk(m, visits[..j + 1]) && VisitsOk(m, visits[j + 1..])
    ensures var before, c := DcFrom(g, m, 0, visits[..j], d), m.comp[visits[j]];
      SeqScan(g, m, visits, d) == SeqScan(g, m, visits[..j], d) + BlockDecisions(g, c, m.blocks[visits[j]], before)
        + SeqScan(g, m, visits[j + 1..], DcFrom(g, m, 0, visits[..j + 1], d))
    decreases |visits|
  {
    hide NextDcContext, BlockDecisions, DcNext, Floor;
    var b, c := m.blocks[visits[0]], m.comp[visits[0]];
    var next := DcNext(g, d, c, b[0]);
    Unscaled(b[0]);
    if j == 0 {
      assert visits[..1][1..] == [] && visits[..0] == [];
      assert DcFrom(g, m, 0, visits[..1], d) == next;
      NothingBefore(BlockDecisions(g, c, b, d), SeqScan(g, m, visits[1..], next));
    } else {
      SeqScanAt(g, m, visits[1..], next, j - 1);
      assert visits[..j][1..] == visits[1..][..j - 1] && visits[..j + 1][1..] == visits[1..][..j];
      assert visits[1..][j..] == visits[j + 1..];
      var p, k := visits[j], m.comp[visits[j]];
      Joined(BlockDecisions(g, c, b, d), SeqScan(g, m, visits[1..][..j - 1], next),
             BlockDecisions(g, k, m.blocks[p], DcFrom(g, m, 0, visits[1..][..j - 1], next)),
             SeqScan(g, m, visits[j + 1..], DcFrom(g, m, 0, visits[1..][..j], next)));
    }
  }

  lemma Unscaled(v: int)
    ensures Floor(v, 0) == v
  {
    assert Pow2(0) == 1;
  }

  lemma NothingBefore(xs: seq<Decision>, ys: seq<Decision>)
    ensures [] + xs + ys == xs + ys
  {
  }

  lemma Joined(a: seq<Decision>, b: seq<Decision>, c: seq<Decision>, d: seq<Decision>)
    ensures a + (b + c + d) == a + b + c + d
  {
  }
}
