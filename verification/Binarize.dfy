/** How coefficients become binary decisions and back (sections F.1.4, F.2.4 and G.1.3 of
    Rec. ITU-T T.81): magnitudes, DC differences, AC bands and refinement bits.  The
    decoding side is written against any source of answers, so that the arithmetic
    decoder is only one instance. */
module Binarize {
  import opened Coefficients
  import opened Powers
  import opened Interval

  // ----- Statistics area: 16 DC tables of 64 bins, 16 AC tables of 256, one fixed bin

  const NUM_TBLS := 16
  const DC_STAT_BINS := 64
  const AC_STAT_BINS := 256
  const FIXED_BIN: nat := NUM_TBLS * (DC_STAT_BINS + AC_STAT_BINS)
  const NUM_BINS: nat := FIXED_BIN + 1

  type Bin = b: nat | b < NUM_BINS

  function DcStats(tbl: nat): (r: nat) {
    tbl * DC_STAT_BINS
  }

  function AcStats(tbl: nat): (r: nat) {
    NUM_TBLS * DC_STAT_BINS + tbl * AC_STAT_BINS
  }

  // ----- Answering sources

  type Step<!S> = (S, Bin) -> (bool, S)

  /** Asked for the bins of ds in turn, s answers with the bits of ds. */
  ghost predicate Answers<S(!new)>(step: Step<S>, s: S, ds: seq<Decision>) {
    ds == [] || (ds[0].bin < NUM_BINS && step(s, ds[0].bin).0 == ds[0].bit && Answers(step, step(s, ds[0].bin).1, ds[1..]))
  }

  ghost function After<S(!new)>(step: Step<S>, s: S, ds: seq<Decision>): S
    requires Answers(step, s, ds)
  {
    if ds == [] then s else After(step, step(s, ds[0].bin).1, ds[1..])
  }

  lemma {:induction false} AnswersConcat<S(!new)>(step: Step<S>, s: S, xs: seq<Decision>, ys: seq<Decision>)
    requires Answers(step, s, xs + ys)
    ensures Answers(step, s, xs) && Answers(step, After(step, s, xs), ys)
    ensures After(step, s, xs + ys) == After(step, After(step, s, xs), ys)
    decreases |xs|
  {
    if xs == [] {
      assert xs + ys == ys;
    } else {
      assert (xs + ys)[1..] == xs[1..] + ys;
      AnswersConcat(step, step(s, xs[0].bin).1, xs[1..], ys);
    }
  }

  // ----- Magnitudes

  /** Magnitude category in unary, from length j up to length t. */
  function Category(start: nat, j: nat, t: nat): seq<Decision>
    requires j <= t
    decreases t - j
  {
    if j == t then [Decision(start + j, false)] else [Decision(start + j, true)] + Category(start, j + 1, t)
  }

  /** The j low bits of v, high bit first, all in one bin. */
  function BitPattern(st: nat, j: nat, v: nat): seq<Decision> {
    if j == 0 then [] else [Decision(st, v / Pow2(j - 1) % 2 == 1)] + BitPattern(st, j - 1, v)
  }

  datatype Length<S> = Length(t: nat, s: S) | TooLong(s: S)

  /** Reads a category; length 15 is a magnitude overflow. */
  function ReadCategory<S>(step: Step<S>, s: S, start: nat, j: nat): (r: Length<S>)
    requires j <= 14 && start + 14 < NUM_BINS
    ensures r.Length? ==> j <= r.t <= 14
    decreases 14 - j
  {
    var (more, n) := step(s, start + j);
    if !more then Length(j, n)
    else if j == 14 then TooLong(n)
    else ReadCategory(step, n, start, j + 1)
  }

  /** Reads j bits below those already in v. */
  function ReadPattern<S>(step: Step<S>, s: S, st: Bin, j: nat, v: nat): (nat, S) {
    if j == 0 then (v, s) else
    var (bit, n) := step(s, st);
    ReadPattern(step, n, st, j - 1, if bit then v + Pow2(j - 1) else v)
  }

  lemma {:induction false} ReadCategoryInverts<S(!new)>(step: Step<S>, s: S, start: nat, j: nat, t: nat)
    requires j <= t <= 14 && start + 14 < NUM_BINS
    requires Answers(step, s, Category(start, j, t))
    ensures ReadCategory(step, s, start, j) == Length(t, After(step, s, Category(start, j, t)))
    decreases t - j
  {
    if j < t {
      assert Category(start, j, t)[1..] == Category(start, j + 1, t);
      ReadCategoryInverts(step, step(s, start + j).1, start, j + 1, t);
    } else {
      assert Category(start, j, t)[1..] == [];
    }
  }

  /** One more bit of v below those of its upper part. */
  lemma NextBit(v: int, j: nat)
    requires j > 0
    ensures var upper := v / Pow2(j) * Pow2(j);
      v / Pow2(j - 1) * Pow2(j - 1) == if v / Pow2(j - 1) % 2 == 1 then upper + Pow2(j - 1) else upper
  {
    var p := Pow2(j - 1);
    var q, e := v / Pow2(j), v / p % 2;
    FloorFiner(v, j - 1);
    assert Pow2(j) == 2 * p;
    hide Pow2;
    Distribute(2 * q, e, p);
    assert q * (2 * p) == 2 * q * p;
  }

  /** v without its j low bits. */
  function Upper(v: nat, j: nat): nat {
    FloorAtLeast(v, Pow2(j), 0);
    UpperNotNegative(v / Pow2(j), Pow2(j));
    v / Pow2(j) * Pow2(j)
  }

  lemma UpperNotNegative(x: nat, y: nat)
    ensures 0 <= x * y
  {
  }

  lemma UpperNext(v: nat, j: nat)
    ensures Upper(v, 0) == v
    ensures j > 0 ==> Upper(v, j - 1) == if v / Pow2(j - 1) % 2 == 1 then Upper(v, j) + Pow2(j - 1) else Upper(v, j)
  {
    assert Pow2(0) == 1;
    if j > 0 {
      NextBit(v, j);
    }
  }

  lemma {:induction false} ReadPatternInverts<S(!new)>(step: Step<S>, s: S, st: Bin, j: nat, v: nat)
    requires Answers(step, s, BitPattern(st, j, v))
    ensures ReadPattern(step, s, st, j, Upper(v, j)) == (v, After(step, s, BitPattern(st, j, v)))
  {
    UpperNext(v, j);
    hide Pow2, Upper;
    if j > 0 {
      assert BitPattern(st, j, v)[1..] == BitPattern(st, j - 1, v);
      ReadPatternInverts(step, step(s, st).1, st, j - 1, v);
    }
  }

  /** A magnitude less one with a category above j: the rest of the category, then the bits. */
  function LongMagnitude(start: nat, j: nat, v: nat): seq<Decision>
    requires j <= Log2(v)
  {
    Category(start, j, Log2(v)) + BitPattern(start + Log2(v) + 14, Log2(v), v)
  }

  datatype Magnitude<S> = Magnitude(v: nat, s: S) | Overflow(s: S)

  function ReadLongMagnitude<S>(step: Step<S>, s: S, start: nat, j: nat): Magnitude<S>
    requires j <= 14 && start + 28 < NUM_BINS
  {
    match ReadCategory(step, s, start, j)
    case TooLong(n) => Overflow(n)
    case Length(t, n) =>
      var (v, n2) := ReadPattern(step, n, start + t + 14, t, Pow2(t));
      Magnitude(v, n2)
  }

  lemma ReadLongMagnitudeInverts<S(!new)>(step: Step<S>, s: S, start: nat, j: nat, v: nat)
    requires 0 < v < 0x8000 && j <= Log2(v) && start + 28 < NUM_BINS
    requires Answers(step, s, LongMagnitude(start, j, v))
    ensures Log2(v) <= 14
    ensures ReadLongMagnitude(step, s, start, j) == Magnitude(v, After(step, s, LongMagnitude(start, j, v)))
  {
    hide *;
    var t := Log2(v);
    TopOnly(v);
    var xs, ys := Category(start, j, t), BitPattern(start + t + 14, t, v);
    LongIs(start, j, v);
    AnswersConcat(step, s, xs, ys);
    BinsExist(start, t);
    ReadCategoryInverts(step, s, start, j, t);
    ReadPatternInverts(step, After(step, s, xs), start + t + 14, t, v);
    ReadLongUnfolds(step, s, start, j, v, After(step, s, xs), After(step, After(step, s, xs), ys));
  }

  lemma BinsExist(start: nat, t: nat)
    requires start + 28 < NUM_BINS && t <= 14
    ensures start + t + 14 < NUM_BINS && start + 14 < NUM_BINS
  {
  }

  /** Above its highest bit v has nothing. */
  lemma TopOnly(v: nat)
    requires 0 < v < 0x8000
    ensures Log2(v) <= 14 && Upper(v, Log2(v)) == Pow2(Log2(v))
  {
    Pow2Table();
    assert Pow2(Log2(v) + 1) == 2 * Pow2(Log2(v));
    hide Log2, Pow2;
    Log2Below(v, 15);
    Log2Bounds(v);
    DivUnique(v, Pow2(Log2(v)), 1, v - Pow2(Log2(v)));
  }

  lemma LongIs(start: nat, j: nat, v: nat)
    requires j <= Log2(v)
    ensures LongMagnitude(start, j, v) == Category(start, j, Log2(v)) + BitPattern(start + Log2(v) + 14, Log2(v), v)
  {
    hide Log2, Category, BitPattern;
  }

  lemma ReadLongUnfolds<S(!new)>(step: Step<S>, s: S, start: nat, j: nat, v: nat, n: S, n2: S)
    requires j <= Log2(v) <= 14 && start + 28 < NUM_BINS && Upper(v, Log2(v)) == Pow2(Log2(v))
    requires ReadCategory(step, s, start, j) == Length(Log2(v), n)
    requires ReadPattern(step, n, start + Log2(v) + 14, Log2(v), Upper(v, Log2(v))) == (v, n2)
    ensures ReadLongMagnitude(step, s, start, j) == Magnitude(v, n2)
  {
    hide ReadCategory, ReadPattern, Log2, Pow2, Upper;
  }

  // ----- DC differences (sections F.1.4.1 and F.1.4.4.1)

  /** v is the magnitude less one. */
  function DcMagnitude(base: nat, st: nat, v: nat): seq<Decision> {
    if v == 0 then [Decision(st, false)] else
    [Decision(st, true)] + LongMagnitude(base + 20, 0, v)
  }

  function DcDecisions(base: nat, ctx: nat, diff: int): seq<Decision> {
    if diff == 0 then [Decision(base + ctx, false)] else
    [Decision(base + ctx, true), Decision(base + ctx + 1, diff < 0)]
    + DcMagnitude(base, base + ctx + (if diff < 0 then 3 else 2), Abs(diff) - 1)
  }

  /** The conditioning category chosen by the last difference: zero, small or large, and its sign. */
  function DcContext(m: nat, negative: bool, lower: nat, upper: nat): (ctx: nat)
    ensures ctx <= 16
  {
    if m < Pow2(lower) / 2 then 0
    else if m > Pow2(upper) / 2 then (if negative then 16 else 12)
    else (if negative then 8 else 4)
  }

  function TopBit(v: nat): nat {
    if v == 0 then 0 else Pow2(Log2(v))
  }

  function NextDcContext(diff: int, lower: nat, upper: nat): (ctx: nat)
    ensures ctx <= 16
  {
    if diff == 0 then 0 else DcContext(TopBit(Abs(diff) - 1), diff < 0, lower, upper)
  }

  datatype DcRead<S> = DcRead(diff: int, ctx: nat, s: S) | DcBad(s: S)

  /** Reads a magnitude less one, and hands back its highest bit as well. */
  function ReadDcMagnitude<S>(step: Step<S>, s: S, base: nat, st: Bin): Magnitude<S>
    requires base + 49 <= NUM_BINS
  {
    var (more, n) := step(s, st);
    if !more then Magnitude(0, n) else ReadLongMagnitude(step, n, base + 20, 0)
  }

  function ReadDc<S>(step: Step<S>, s: S, base: nat, ctx: nat, lower: nat, upper: nat): (r: DcRead<S>)
    requires base + 49 <= NUM_BINS && ctx <= 16
    ensures r.DcRead? ==> r.ctx <= 16
  {
    var (nonzero, n) := step(s, base + ctx);
    if !nonzero then DcRead(0, 0, n) else
    var (negative, n2) := step(n, base + ctx + 1);
    match ReadDcMagnitude(step, n2, base, base + ctx + (if negative then 3 else 2))
    case Overflow(n3) => DcBad(n3)
    case Magnitude(v, n3) => DcRead(Signed(v + 1, negative), DcContext(TopBit(v), negative, lower, upper), n3)
  }

  lemma ReadDcMagnitudeInverts<S(!new)>(step: Step<S>, s: S, base: nat, st: Bin, v: nat)
    requires base + 49 <= NUM_BINS && v < 0x8000
    requires Answers(step, s, DcMagnitude(base, st, v))
    ensures ReadDcMagnitude(step, s, base, st) == Magnitude(v, After(step, s, DcMagnitude(base, st, v)))
  {
    if v > 0 {
      assert DcMagnitude(base, st, v)[1..] == LongMagnitude(base + 20, 0, v);
      ReadLongMagnitudeInverts(step, step(s, st).1, base + 20, 0, v);
    }
  }

  /** Every difference of magnitude up to 2^15 is read back, with the same next context. */
  lemma ReadDcInverts<S(!new)>(step: Step<S>, s: S, base: nat, ctx: nat, lower: nat, upper: nat, diff: int)
    requires base + 49 <= NUM_BINS && ctx <= 16 && -0x8000 <= diff <= 0x8000
    requires Answers(step, s, DcDecisions(base, ctx, diff))
    ensures ReadDc(step, s, base, ctx, lower, upper)
         == DcRead(diff, NextDcContext(diff, lower, upper), After(step, s, DcDecisions(base, ctx, diff)))
  {
    var ds := DcDecisions(base, ctx, diff);
    if diff == 0 {
      assert ds[1..] == [];
    } else {
      var st := base + ctx + (if diff < 0 then 3 else 2);
      var n := step(s, base + ctx).1;
      assert ds[1..][1..] == DcMagnitude(base, st, Abs(diff) - 1);
      ReadDcMagnitudeInverts(step, step(n, base + ctx + 1).1, base, st, Abs(diff) - 1);
    }
  }

  // ----- AC bands (sections F.1.4.2 and F.1.4.4.2); z is in zigzag order

  function EobBin(base: nat, k: nat): (r: nat)
    requires k > 0
  {
    base + 3 * (k - 1)
  }

  /** First bin of the longer categories, which depends on which side of Kx k lies. */
  function LongBin(base: nat, kx: nat, k: nat): nat {
    base + (if k <= kx then 189 else 217)
  }

  function AcMagnitude(st: nat, x2: nat, v: nat): seq<Decision>
    requires x2 > 0
  {
    if v == 0 then [Decision(st, false)]
    else if Log2(v) == 0 then [Decision(st, true), Decision(st, false)]
    else [Decision(st, true), Decision(st, true)] + LongMagnitude(x2 - 1, 1, v)
  }

  /** The last nonzero coefficient at or below k, or 0. */
  function LastNonzero(z: seq<int>, k: nat): (r: nat)
    requires k < |z|
    ensures r <= k && (r > 0 ==> z[r] != 0) && forall i :: r < i <= k ==> z[i] == 0
  {
    if k == 0 || z[k] != 0 then k else LastNonzero(z, k - 1)
  }

  /** From the head of the coefficient loop at k; ke is the end-of-block index. */
  function AcDecisions(base: nat, kx: nat, z: seq<int>, k: nat, ke: nat, se: nat): seq<Decision>
    requires k > 0 && ke <= se < |z| && (ke > 0 ==> z[ke] != 0)
    decreases if k <= ke then ke + 1 - k else 0, 1
  {
    if k <= ke then [Decision(EobBin(base, k), false)] + AcRun(base, kx, z, k, ke, se)
    else if k <= se then [Decision(EobBin(base, k), true)]
    else []
  }

  /** A run of zeros and the coefficient that ends it. */
  function AcRun(base: nat, kx: nat, z: seq<int>, k: nat, ke: nat, se: nat): seq<Decision>
    requires 0 < k <= ke <= se < |z| && z[ke] != 0
    decreases ke + 1 - k, 0
  {
    if z[k] == 0 then [Decision(EobBin(base, k) + 1, false)] + AcRun(base, kx, z, k + 1, ke, se)
    else [Decision(EobBin(base, k) + 1, true), Decision(FIXED_BIN, z[k] < 0)]
         + AcMagnitude(EobBin(base, k) + 2, LongBin(base, kx, k), Abs(z[k]) - 1)
         + AcDecisions(base, kx, z, k + 1, ke, se)
  }

  function ReadAcMagnitude<S>(step: Step<S>, s: S, st: Bin, x2: nat): Magnitude<S>
    requires 0 < x2 && x2 + 28 <= NUM_BINS
  {
    var (more, n) := step(s, st);
    if !more then Magnitude(0, n) else
    var (yetMore, n2) := step(n, st);
    if !yetMore then Magnitude(1, n2) else ReadLongMagnitude(step, n2, x2 - 1, 1)
  }

  /** The coefficients read; AcBad also when the band ran over its end. */
  datatype AcRead<S> = AcRead(z: seq<int>, s: S) | AcBad(z: seq<int>, s: S)

  function ReadAc<S>(step: Step<S>, s: S, base: nat, kx: nat, k: nat, se: nat, al: nat, z: seq<int>): (r: AcRead<S>)
    requires base + AC_STAT_BINS <= NUM_BINS && 0 < k && se < |z| <= 64
    ensures |r.z| == |z|
    decreases if k <= se then se + 1 - k else 0, 1
  {
    if k > se then AcRead(z, s) else
    var (eob, n) := step(s, EobBin(base, k));
    if eob then AcRead(z, n) else ReadAcRun(step, n, base, kx, k, se, al, z)
  }

  function ReadAcRun<S>(step: Step<S>, s: S, base: nat, kx: nat, k: nat, se: nat, al: nat, z: seq<int>): (r: AcRead<S>)
    requires base + AC_STAT_BINS <= NUM_BINS && 0 < k <= se < |z| <= 64
    ensures |r.z| == |z|
    decreases se + 1 - k, 0
  {
    var (nonzero, n) := step(s, EobBin(base, k) + 1);
    if !nonzero then
      if k + 1 > se then AcBad(z, n) else ReadAcRun(step, n, base, kx, k + 1, se, al, z)
    else
      var (negative, n2) := step(n, FIXED_BIN);
      match ReadAcMagnitude(step, n2, EobBin(base, k) + 2, LongBin(base, kx, k))
      case Overflow(n3) => AcBad(z, n3)
      case Magnitude(v, n3) =>
        ReadAc(step, n3, base, kx, k + 1, se, al, z[k := ToCoef(Signed(v + 1, negative) * Pow2(al))])
  }

  lemma ReadAcMagnitudeInverts<S(!new)>(step: Step<S>, s: S, st: Bin, x2: nat, v: nat)
    requires 0 < x2 && x2 + 28 <= NUM_BINS && v < 0x8000
    requires Answers(step, s, AcMagnitude(st, x2, v))
    ensures ReadAcMagnitude(step, s, st, x2) == Magnitude(v, After(step, s, AcMagnitude(st, x2, v)))
  {
    var ds := AcMagnitude(st, x2, v);
    var n := step(s, st).1;
    if v == 0 {
    } else if Log2(v) == 0 {
      Log2Bounds(v);
      assert v == 1;
      assert ds[1..] == [Decision(st, false)] && ds[1..][1..] == [];
      assert Answers(step, n, ds[1..]) && After(step, n, ds[1..]) == step(n, st).1;
    } else {
      assert ds[1..][1..] == LongMagnitude(x2 - 1, 1, v);
      ReadLongMagnitudeInverts(step, step(n, st).1, x2 - 1, 1, v);
    }
  }

  /** acc with the nonzero coefficients k..se of z scaled and written over it. */
  function Fill(acc: seq<int>, z: seq<int>, k: nat, se: nat, al: nat): (r: seq<int>)
    requires |acc| == |z|
    ensures |r| == |z|
  {
    seq(|z|, i requires 0 <= i < |z| => if k <= i <= se && z[i] != 0 then ToCoef(z[i] * Pow2(al)) else acc[i])
  }

  lemma {:induction false} ReadAcInverts<S(!new)>(step: Step<S>, s: S, base: nat, kx: nat, k: nat, ke: nat, se: nat,
      al: nat, z: seq<int>, acc: seq<int>)
    requires base + AC_STAT_BINS <= NUM_BINS && 0 < k && ke <= se < |z| <= 64 && |acc| == |z|
    requires (ke > 0 ==> z[ke] != 0) && (forall i :: ke < i <= se ==> z[i] == 0)
    requires forall i :: 0 <= i < |z| ==> -0x8000 <= z[i] <= 0x8000
    requires Answers(step, s, AcDecisions(base, kx, z, k, ke, se))
    ensures ReadAc(step, s, base, kx, k, se, al, acc)
         == AcRead(Fill(acc, z, k, se, al), After(step, s, AcDecisions(base, kx, z, k, ke, se)))
    decreases if k <= ke then ke + 1 - k else 0, 1
  {
    var ds := AcDecisions(base, kx, z, k, ke, se);
    if k <= ke {
      assert ds[1..] == AcRun(base, kx, z, k, ke, se);
      ReadAcRunInverts(step, step(s, EobBin(base, k)).1, base, kx, k, ke, se, al, z, acc);
    } else {
      assert Fill(acc, z, k, se, al) == acc;
    }
  }

  lemma {:induction false} ReadAcRunInverts<S(!new)>(step: Step<S>, s: S, base: nat, kx: nat, k: nat, ke: nat, se: nat,
      al: nat, z: seq<int>, acc: seq<int>)
    requires base + AC_STAT_BINS <= NUM_BINS && 0 < k <= ke <= se < |z| <= 64 && |acc| == |z|
    requires z[ke] != 0 && (forall i :: ke < i <= se ==> z[i] == 0)
    requires forall i :: 0 <= i < |z| ==> -0x8000 <= z[i] <= 0x8000
    requires Answers(step, s, AcRun(base, kx, z, k, ke, se))
    ensures ReadAcRun(step, s, base, kx, k, se, al, acc)
         == AcRead(Fill(acc, z, k, se, al), After(step, s, AcRun(base, kx, z, k, ke, se)))
    decreases ke + 1 - k, 0
  {
    hide *;
    RunBins(base, kx, k);
    var n := step(s, EobBin(base, k) + 1).1;
    if z[k] == 0 {
      ZeroInRun(step, s, base, kx, k, ke, se, al, z, acc);
      ReadAcRunInverts(step, n, base, kx, k + 1, ke, se, al, z, acc);
    } else {
      ValueInRun(step, s, base, kx, k, ke, se, z);
      var st, x2, v := EobBin(base, k) + 2, LongBin(base, kx, k), Abs(z[k]) - 1;
      var n2, acc2 := step(n, FIXED_BIN).1, acc[k := ToCoef(z[k] * Pow2(al))];
      var xs, ys := AcMagnitude(st, x2, v), AcDecisions(base, kx, z, k + 1, ke, se);
      AnswersConcat(step, n2, xs, ys);
      ReadAcMagnitudeInverts(step, n2, st, x2, v);
      ReadValue(step, s, base, kx, k, se, al, acc, z[k], After(step, n2, xs));
      ReadAcInverts(step, After(step, n2, xs), base, kx, k + 1, ke, se, al, z, acc2);
      FillNext(acc, z, k, se, al);
    }
  }

  lemma RunBins(base: nat, kx: nat, k: nat)
    requires base + AC_STAT_BINS <= NUM_BINS && 0 < k < 64
    ensures EobBin(base, k) + 2 < NUM_BINS && 0 < LongBin(base, kx, k) && LongBin(base, kx, k) + 28 <= NUM_BINS && FIXED_BIN < NUM_BINS
  {
  }

  lemma ZeroInRun<S(!new)>(step: Step<S>, s: S, base: nat, kx: nat, k: nat, ke: nat, se: nat, al: nat, z: seq<int>, acc: seq<int>)
    requires base + AC_STAT_BINS <= NUM_BINS && 0 < k <= ke <= se < |z| <= 64 && |acc| == |z| && z[ke] != 0
    requires z[k] == 0 && Answers(step, s, AcRun(base, kx, z, k, ke, se)) && EobBin(base, k) + 1 < NUM_BINS
    ensures k < ke && Fill(acc, z, k, se, al) == Fill(acc, z, k + 1, se, al)
    ensures var n := step(s, EobBin(base, k) + 1).1;
      && Answers(step, n, AcRun(base, kx, z, k + 1, ke, se))
      && After(step, s, AcRun(base, kx, z, k, ke, se)) == After(step, n, AcRun(base, kx, z, k + 1, ke, se))
      && ReadAcRun(step, s, base, kx, k, se, al, acc) == ReadAcRun(step, n, base, kx, k + 1, se, al, acc)
  {
    assert AcRun(base, kx, z, k, ke, se)[1..] == AcRun(base, kx, z, k + 1, ke, se);
    hide ReadAc, ReadAcMagnitude, AcDecisions, AcMagnitude;
  }

  lemma ValueInRun<S(!new)>(step: Step<S>, s: S, base: nat, kx: nat, k: nat, ke: nat, se: nat, z: seq<int>)
    requires base + AC_STAT_BINS <= NUM_BINS && 0 < k <= ke <= se < |z| <= 64 && z[ke] != 0
    requires z[k] != 0 && -0x8000 <= z[k] <= 0x8000 && Answers(step, s, AcRun(base, kx, z, k, ke, se))
    requires EobBin(base, k) + 2 < NUM_BINS && 0 < LongBin(base, kx, k) && FIXED_BIN < NUM_BINS
    ensures 0 < Abs(z[k]) <= 0x8000
    ensures var n := step(s, EobBin(base, k) + 1).1;
      var (n2, v) := (step(n, FIXED_BIN).1, Abs(z[k]) - 1);
      var ds := AcMagnitude(EobBin(base, k) + 2, LongBin(base, kx, k), v) + AcDecisions(base, kx, z, k + 1, ke, se);
      && step(s, EobBin(base, k) + 1).0 && (step(n, FIXED_BIN).0 <==> z[k] < 0)
      && Answers(step, n2, ds) && After(step, s, AcRun(base, kx, z, k, ke, se)) == After(step, n2, ds)
  {
    hide *;
    RunOf(base, kx, k, ke, se, z);
    TwoAnswers(step, s, Decision(EobBin(base, k) + 1, true), Decision(FIXED_BIN, z[k] < 0),
               AcMagnitude(EobBin(base, k) + 2, LongBin(base, kx, k), Abs(z[k]) - 1) + AcDecisions(base, kx, z, k + 1, ke, se));
  }

  lemma RunOf(base: nat, kx: nat, k: nat, ke: nat, se: nat, z: seq<int>)
    requires 0 < k <= ke <= se < |z| && z[ke] != 0 && 0 != z[k] && -0x8000 <= z[k] <= 0x8000 && 0 < LongBin(base, kx, k)
    ensures 0 < Abs(z[k]) <= 0x8000
    ensures AcRun(base, kx, z, k, ke, se) == [Decision(EobBin(base, k) + 1, true), Decision(FIXED_BIN, z[k] < 0)]
         + (AcMagnitude(EobBin(base, k) + 2, LongBin(base, kx, k), Abs(z[k]) - 1) + AcDecisions(base, kx, z, k + 1, ke, se))
  {
    hide AcMagnitude, AcDecisions, EobBin, LongBin;
  }

  lemma TwoAnswers<S(!new)>(step: Step<S>, s: S, a: Decision, b: Decision, ds: seq<Decision>)
    requires Answers(step, s, [a, b] + ds)
    ensures a.bin < NUM_BINS && b.bin < NUM_BINS && step(s, a.bin).0 == a.bit && step(step(s, a.bin).1, b.bin).0 == b.bit
    ensures var n2 := step(step(s, a.bin).1, b.bin).1;
      Answers(step, n2, ds) && After(step, s, [a, b] + ds) == After(step, n2, ds)
  {
    assert ([a, b] + ds)[1..] == [b] + ds && ([b] + ds)[1..] == ds;
  }

  lemma ReadValue<S(!new)>(step: Step<S>, s: S, base: nat, kx: nat, k: nat, se: nat, al: nat, acc: seq<int>, v: int, n3: S)
    requires base + AC_STAT_BINS <= NUM_BINS && 0 < k <= se < |acc| <= 64 && v != 0
    requires EobBin(base, k) + 2 < NUM_BINS && 0 < LongBin(base, kx, k) && LongBin(base, kx, k) + 28 <= NUM_BINS && FIXED_BIN < NUM_BINS
    requires Abs(v) > 0 && step(s, EobBin(base, k) + 1).0 && (step(step(s, EobBin(base, k) + 1).1, FIXED_BIN).0 <==> v < 0)
    requires ReadAcMagnitude(step, step(step(s, EobBin(base, k) + 1).1, FIXED_BIN).1, EobBin(base, k) + 2, LongBin(base, kx, k))
          == Magnitude(Abs(v) - 1, n3)
    ensures ReadAcRun(step, s, base, kx, k, se, al, acc)
         == ReadAc(step, n3, base, kx, k + 1, se, al, acc[k := ToCoef(v * Pow2(al))])
  {
    assert Signed(Abs(v), v < 0) == v;
    hide ReadAc, ReadAcMagnitude, EobBin, LongBin, ToCoef, Pow2, Signed, Abs;
  }

  lemma FillNext(acc: seq<int>, z: seq<int>, k: nat, se: nat, al: nat)
    requires |acc| == |z| && k <= se < |z| && z[k] != 0
    ensures Fill(acc, z, k, se, al) == Fill(acc[k := ToCoef(z[k] * Pow2(al))], z, k + 1, se, al)
  {
    hide ToCoef, Pow2;
  }
}
