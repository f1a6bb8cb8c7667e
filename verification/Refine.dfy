/** Successive approximation (section G.1.3 of Rec. ITU-T T.81): the point transforms and
    the refinement scans that add one bit plane. */
module Refine {
  import opened Coefficients
  import opened Powers
  import opened Interval
  import opened Binarize

  // ----- Point transforms

  /** AC: division rounding toward zero. */
  function Truncate(x: int, al: nat): (r: int)
    ensures r != 0 ==> (r < 0 <==> x < 0)
  {
    FloorAtLeast(Abs(x), Pow2(al), 0);
    var q: nat := Abs(x) / Pow2(al);
    Signed(q, x < 0)
  }

  /** DC: arithmetic right shift. */
  function Floor(x: int, al: nat): int {
    x / Pow2(al)
  }

  /** x << al, on any integer. */
  function Scale(x: int, al: nat): int {
    x * Pow2(al)
  }

  /** What a decoder holds of coefficient k once bit plane al has been sent. */
  function Approx(x: int, k: nat, al: nat): int {
    Scale(if k == 0 then Floor(x, al) else Truncate(x, al), al)
  }

  lemma ApproxExact(x: int, k: nat)
    ensures Approx(x, k, 0) == x
  {
    assert Pow2(0) == 1;
  }

  lemma TruncateSmaller(x: int, al: nat)
    ensures Abs(Truncate(x, al)) <= Abs(x) && Abs(Scale(Truncate(x, al), al)) <= Abs(x)
  {
    var p, q := Pow2(al), Abs(x) / Pow2(al);
    FloorBounds(Abs(x), p);
    FloorAtLeast(Abs(x), p, 0);
    hide Pow2;
    MulMono(1, p, q);
    Commute(p, q);
    NegMul(q, p);
  }

  lemma Commute(x: int, y: int)
    ensures x * y == y * x
  {
  }

  // ----- DC refinement: one bit of the two's complement value

  function DcBit(x: int, al: nat): Decision {
    Decision(FIXED_BIN, Floor(x, al) % 2 == 1)
  }

  /** x | (1 << al) */
  function OrBit(x: int, al: nat): int {
    if Floor(x, al) % 2 == 1 then x else x + Pow2(al)
  }

  function ReadDcBit<S>(step: Step<S>, s: S, al: nat, held: int): (int, S) {
    var (bit, n) := step(s, FIXED_BIN);
    (if bit then ToCoef(OrBit(held, al)) else held, n)
  }

  /** Clearing low bits of a 16-bit value leaves a 16-bit value. */
  lemma FloorFits(x: int, al: nat)
    requires -0x8000 <= x < 0x8000 && al <= 15
    ensures -0x8000 <= Scale(Floor(x, al), al) <= x
  {
    var p, m := Pow2(al), Pow2(15 - al);
    assert m * p == 0x8000 by {
      Pow2Add(15 - al, al);
      Pow2Table();
      assert Pow2(16) == 2 * Pow2(15);
    }
    FloorBounds(x, p);
    FloorKeepsMultiple(x, p, m);
  }

  lemma FloorKeepsMultiple(x: int, p: nat, m: int)
    requires p > 0 && -(m * p) <= x
    ensures -(m * p) <= x / p * p
  {
    Distribute(m, -m, p);
    FloorAtLeast(x, p, -m);
    if -m < x / p {
      MulStep(-m, x / p, p);
    }
  }

  lemma ReadDcBitInverts<S(!new)>(step: Step<S>, s: S, al: nat, x: int)
    requires -0x8000 <= x < 0x8000 && al <= 15 && Answers(step, s, [DcBit(x, al)])
    ensures ReadDcBit(step, s, al, Approx(x, 0, al + 1)) == (Approx(x, 0, al), After(step, s, [DcBit(x, al)]))
  {
    var q := x / Pow2(al + 1);
    NextBit(x, al + 1);
    FloorFits(x, al);
    HeldBitClear(q, al);
    hide Pow2, Floor;
  }

  lemma HeldBitClear(q: int, al: nat)
    ensures Floor(Scale(q, al + 1), al) % 2 == 0
  {
    var p := Pow2(al);
    assert q * (2 * p) == 2 * q * p;
    DivUnique(q * (2 * p), p, 2 * q, 0);
  }

  // ----- AC refinement; y is the band transformed at the new bit plane

  /** A coefficient whose earlier approximation was already nonzero. */
  predicate Known(y: int) {
    Abs(y) > 1
  }

  function RefineDecisions(base: nat, y: seq<int>, k: nat, kex: nat, ke: nat, se: nat): seq<Decision>
    requires k > 0 && ke <= se < |y| && (ke > 0 ==> y[ke] != 0)
    decreases if k <= ke then ke + 1 - k else 0, 1
  {
    if k <= ke then
      (if k > kex then [Decision(EobBin(base, k), false)] else []) + RefineRun(base, y, k, kex, ke, se)
    else if k <= se then [Decision(EobBin(base, k), true)]
    else []
  }

  function RefineRun(base: nat, y: seq<int>, k: nat, kex: nat, ke: nat, se: nat): seq<Decision>
    requires 0 < k <= ke <= se < |y| && y[ke] != 0
    decreases ke + 1 - k, 0
  {
    if Known(y[k]) then
      [Decision(EobBin(base, k) + 2, Abs(y[k]) % 2 == 1)] + RefineDecisions(base, y, k + 1, kex, ke, se)
    else if y[k] != 0 then
      [Decision(EobBin(base, k) + 1, true), Decision(FIXED_BIN, y[k] < 0)] + RefineDecisions(base, y, k + 1, kex, ke, se)
    else
      [Decision(EobBin(base, k) + 1, false)] + RefineRun(base, y, k + 1, kex, ke, se)
  }

  /** A held coefficient moved one plane further from zero. */
  function Correct(z: int, al: nat): int {
    ToCoef(if z < 0 then z - Pow2(al) else z + Pow2(al))
  }

  /** A coefficient that appears in this plane. */
  function Appear(negative: bool, al: nat): int {
    ToCoef(Signed(Pow2(al), negative))
  }

  /** kex is the decoder's end-of-block index: the last nonzero coefficient it holds. */
  function ReadRefine<S>(step: Step<S>, s: S, base: nat, k: nat, kex: nat, se: nat, al: nat, z: seq<int>): (r: AcRead<S>)
    requires base + AC_STAT_BINS <= NUM_BINS && 0 < k && se < |z| <= 64
    ensures |r.z| == |z|
    decreases if k <= se then se + 1 - k else 0, 1
  {
    if k > se then AcRead(z, s) else
    if k <= kex then ReadRefineRun(step, s, base, k, kex, se, al, z) else
    var (eob, n) := step(s, EobBin(base, k));
    if eob then AcRead(z, n) else ReadRefineRun(step, n, base, k, kex, se, al, z)
  }

  function ReadRefineRun<S>(step: Step<S>, s: S, base: nat, k: nat, kex: nat, se: nat, al: nat, z: seq<int>): (r: AcRead<S>)
    requires base + AC_STAT_BINS <= NUM_BINS && 0 < k <= se < |z| <= 64
    ensures |r.z| == |z|
    decreases se + 1 - k, 0
  {
    if z[k] != 0 then
      var (bit, n) := step(s, EobBin(base, k) + 2);
      ReadRefine(step, n, base, k + 1, kex, se, al, if bit then z[k := Correct(z[k], al)] else z)
    else
      var (appears, n) := step(s, EobBin(base, k) + 1);
      if appears then
        var (negative, n2) := step(n, FIXED_BIN);
        ReadRefine(step, n2, base, k + 1, kex, se, al, z[k := Appear(negative, al)])
      else if k + 1 > se then AcBad(z, n)
      else ReadRefineRun(step, n, base, k + 1, kex, se, al, z)
  }

  /** A decoder's block while band k..se gains plane al: the band from k on is still one
      plane coarser than y. */
  ghost predicate OnePlaneBehind(z: seq<int>, y: seq<int>, k: nat, se: nat, al: nat)
    requires |z| == |y|
  {
    forall i :: k <= i <= se < |z| ==> z[i] == Scale(Signed(Abs(y[i]) / 2, y[i] < 0), al + 1)
  }

  /** Band k..se of y, scaled, over z. */
  function Scaled(z: seq<int>, y: seq<int>, k: nat, se: nat, al: nat): (r: seq<int>)
    requires |z| == |y|
    ensures |r| == |z|
  {
    seq(|z|, i requires 0 <= i < |z| => if k <= i <= se then Scale(y[i], al) else z[i])
  }

  /** A magnitude at plane al is the one at plane al + 1, plus the correction. */
  lemma MagnitudeSplits(x: nat, al: nat)
    ensures Scale(x, al) == Scale(x / 2, al + 1) + (if x % 2 == 1 then Pow2(al) else 0)
    ensures x >= 2 ==> Scale(x / 2, al + 1) > 0
  {
    var p, h, e := Pow2(al), x / 2, x % 2;
    Distribute(2 * h, e, p);
    assert 2 * h * p == h * (2 * p);
    if h >= 1 {
      MulAtLeast(h, 2 * p);
    }
  }

  lemma ScaleSigned(x: nat, negative: bool, al: nat)
    ensures Scale(Signed(x, negative), al) == Signed(Scale(x, al), negative)
  {
    NegMul(x, Pow2(al));
  }

  /** The correction bit completes the magnitude. */
  lemma CorrectionCompletes(y: int, al: nat)
    requires -0x8000 <= Scale(y, al) < 0x8000
    ensures var z := Scale(Signed(Abs(y) / 2, y < 0), al + 1);
      && (z != 0 <==> Known(y))
      && (Known(y) ==> Scale(y, al) == if Abs(y) % 2 == 1 then Correct(z, al) else z)
      && (!Known(y) && y != 0 ==> Scale(y, al) == Appear(y < 0, al))
  {
    ScaleSigned(Abs(y), y < 0, al);
    ScaleSigned(Abs(y) / 2, y < 0, al + 1);
    MagnitudeSplits(Abs(y), al);
    assert Scale(0, al + 1) == 0;
    hide Pow2, Scale;
  }

  /** All the band scaled to plane al stays within 16 bits. */
  ghost predicate BandFits(y: seq<int>, al: nat) {
    forall i :: 0 <= i < |y| ==> -0x8000 <= Scale(y[i], al) < 0x8000
  }

  lemma ScaledStep(z: seq<int>, y: seq<int>, k: nat, se: nat, al: nat)
    requires |z| == |y| && k <= se < |y| && OnePlaneBehind(z, y, k, se, al)
    ensures var z2 := z[k := Scale(y[k], al)];
      OnePlaneBehind(z2, y, k + 1, se, al) && Scaled(z, y, k, se, al) == Scaled(z2, y, k + 1, se, al)
  {
  }

  lemma {:induction false} ReadRefineInverts<S(!new)>(step: Step<S>, s: S, base: nat, k: nat, kex: nat, ke: nat, se: nat,
      al: nat, y: seq<int>, z: seq<int>)
    requires base + AC_STAT_BINS <= NUM_BINS && 0 < k && ke <= se < |y| <= 64 && |z| == |y|
    requires (ke > 0 ==> y[ke] != 0) && (forall i :: ke < i <= se ==> y[i] == 0)
    requires BandFits(y, al) && OnePlaneBehind(z, y, k, se, al)
    requires Answers(step, s, RefineDecisions(base, y, k, kex, ke, se)) && (kex < k || kex <= ke)
    ensures ReadRefine(step, s, base, k, kex, se, al, z)
         == AcRead(Scaled(z, y, k, se, al), After(step, s, RefineDecisions(base, y, k, kex, ke, se)))
    decreases if k <= ke then ke + 1 - k else 0, 1
  {
    var ds := RefineDecisions(base, y, k, kex, ke, se);
    if k <= ke {
      if k > kex {
        assert ds[1..] == RefineRun(base, y, k, kex, ke, se);
        ReadRefineRunInverts(step, step(s, EobBin(base, k)).1, base, k, kex, ke, se, al, y, z);
      } else {
        assert ds == RefineRun(base, y, k, kex, ke, se);
        ReadRefineRunInverts(step, s, base, k, kex, ke, se, al, y, z);
      }
    } else {
      assert Scaled(z, y, k, se, al) == z;
    }
  }

  lemma {:induction false} ReadRefineRunInverts<S(!new)>(step: Step<S>, s: S, base: nat, k: nat, kex: nat, ke: nat, se: nat,
      al: nat, y: seq<int>, z: seq<int>)
    requires base + AC_STAT_BINS <= NUM_BINS && 0 < k <= ke <= se < |y| <= 64 && |z| == |y|
    requires y[ke] != 0 && (forall i :: ke < i <= se ==> y[i] == 0)
    requires BandFits(y, al) && OnePlaneBehind(z, y, k, se, al)
    requires Answers(step, s, RefineRun(base, y, k, kex, ke, se)) && kex <= ke
    ensures ReadRefineRun(step, s, base, k, kex, se, al, z)
         == AcRead(Scaled(z, y, k, se, al), After(step, s, RefineRun(base, y, k, kex, ke, se)))
    decreases ke + 1 - k, 0
  {
    var ds := RefineRun(base, y, k, kex, ke, se);
    var rest := RefineDecisions(base, y, k + 1, kex, ke, se);
    CorrectionCompletes(y[k], al);
    ScaledStep(z, y, k, se, al);
    var z2 := z[k := Scale(y[k], al)];
    assert z[k] == Scale(y[k], al) ==> z2 == z;
    assert z[k] == Scale(Signed(Abs(y[k]) / 2, y[k] < 0), al + 1);
    hide Pow2, Scale, ToCoef, Correct, Appear, Scaled, OnePlaneBehind, BandFits, EobBin, Known, RefineDecisions, ReadRefine, Signed, Abs;
    var n := step(s, ds[0].bin).1;
    assert Answers(step, n, ds[1..]) && After(step, s, ds) == After(step, n, ds[1..]);
    if Known(y[k]) {
      assert ds[1..] == rest;
      assert ReadRefineRun(step, s, base, k, kex, se, al, z) == ReadRefine(step, n, base, k + 1, kex, se, al, z2);
      ReadRefineInverts(step, n, base, k + 1, kex, ke, se, al, y, z2);
    } else if y[k] != 0 {
      assert ds[1..][1..] == rest;
      var n2 := step(n, FIXED_BIN).1;
      assert ReadRefineRun(step, s, base, k, kex, se, al, z) == ReadRefine(step, n2, base, k + 1, kex, se, al, z2);
      ReadRefineInverts(step, n2, base, k + 1, kex, ke, se, al, y, z2);
    } else {
      assert ds[1..] == RefineRun(base, y, k + 1, kex, ke, se);
      ReadRefineRunInverts(step, n, base, k + 1, kex, ke, se, al, y, z2);
    }
  }
}
