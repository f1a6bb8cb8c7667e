/** The MCU routines of jcarith.c as loops over a block in memory, each proved to code
    exactly the decisions of the specification. */
module ArithMcuEncoder {
  import opened Coefficients
  import opened Powers
  import opened Interval
  import opened ArithMachine
  import opened Binarize
  import opened Refine
  import opened NaturalOrder
  import opened Scans

  lemma Assoc(t: seq<Decision>, x: seq<Decision>, y: seq<Decision>)
    ensures t + x + y == t + (x + y)
  {
  }

  lemma AssocTwo(t: seq<Decision>, a: Decision, b: Decision, y: seq<Decision>)
    ensures t + [a] + [b] + y == t + ([a, b] + y)
  {
  }

  lemma CategoryStep(start: nat, i: nat, t: nat)
    requires i <= t
    ensures i < t ==> Category(start, i, t) == [Decision(start + i, true)] + Category(start, i + 1, t)
    ensures i == t ==> Category(start, i, t) == [Decision(start + i, false)]
  {
  }

  lemma LogHalf(v: nat)
    requires v > 0
    ensures if v / 2 == 0 then Log2(v) == 0 else Log2(v) == 1 + Log2(v / 2)
  {
  }

  lemma PowerNext(i: nat)
    ensures Pow2(i + 1) == Pow2(i) * 2
  {
  }

  /** The unary part of figure F.8; v2 is the magnitude not yet shifted out, m the power of
      two reached, and start the bin of category 0. */
  method SendCategory(e: Encoder, start: nat, ghost j: nat, v: nat, v2: nat, m: nat) returns (st: nat, top: nat)
    requires e.Valid() && v > 0 && v2 > 0 && m == Pow2(j) && Log2(v) == j + Log2(v2)
    requires start + Log2(v) < e.stats.Length
    modifies e, e.stats
    ensures e.Valid() && e.start == old(e.start) && st == start + Log2(v) && top == Pow2(Log2(v))
    ensures e.trace == old(e.trace) + Category(start, j, Log2(v))
  {
    hide Encoder.Valid, Category, Log2, Pow2;
    ghost var i := j;
    st := start + Log2(v) - Log2(v2);
    top := m;
    var rest: nat := v2 / 2;
    LogHalf(v2);
    while rest != 0
      invariant e.Valid() && e.start == old(e.start) && j <= i <= Log2(v) && st == start + i && top == Pow2(i)
      invariant if rest == 0 then i == Log2(v) else i < Log2(v) && Log2(v) == i + 1 + Log2(rest)
      invariant e.trace + Category(start, i, Log2(v)) == old(e.trace) + Category(start, j, Log2(v))
      decreases rest
    {
      CategoryStep(start, i, Log2(v));
      PowerNext(i);
      LogHalf(rest);
      Assoc(e.trace, [Decision(st, true)], Category(start, i + 1, Log2(v)));
      e.ArithEncode(st, true);
      st := st + 1;
      top := top * 2;
      i := i + 1;
      rest := rest / 2;
    }
    CategoryStep(start, i, Log2(v));
    e.ArithEncode(st, false);
  }

  lemma PatternStep(st: nat, i: nat, v: nat)
    ensures i > 0 ==> BitPattern(st, i, v) == [Decision(st, v / Pow2(i - 1) % 2 == 1)] + BitPattern(st, i - 1, v)
    ensures BitPattern(st, 0, v) == []
  {
  }

  /** Figure F.9: the bits of v below its highest bit m. */
  method SendBits(e: Encoder, st: nat, m: nat, ghost j: nat, v: nat)
    requires e.Valid() && st < e.stats.Length && m == Pow2(j)
    modifies e, e.stats
    ensures e.Valid() && e.start == old(e.start) && e.trace == old(e.trace) + BitPattern(st, j, v)
  {
    hide Encoder.Valid, BitPattern, Pow2;
    HalfPower(j);
    PatternStep(st, 0, v);
    ghost var i := j;
    var bit: nat := m / 2;
    while bit != 0
      invariant e.Valid() && e.start == old(e.start) && i <= j && if bit == 0 then i == 0 else i > 0 && bit == Pow2(i - 1)
      invariant e.trace + BitPattern(st, i, v) == old(e.trace) + BitPattern(st, j, v)
      decreases bit
    {
      HalfPower(i - 1);
      PatternStep(st, i, v);
      Assoc(e.trace, [Decision(st, v / bit % 2 == 1)], BitPattern(st, i - 1, v));
      e.ArithEncode(st, v / bit % 2 == 1);
      i := i - 1;
      bit := bit / 2;
    }
  }

  /** Category above j and bits of a magnitude less one. */
  method SendLongMagnitude(e: Encoder, start: nat, ghost j: nat, v: nat, v2: nat, m: nat) returns (top: nat)
    requires e.Valid() && 0 < v < 0xFFFF && v2 > 0 && m == Pow2(j) && Log2(v) == j + Log2(v2)
    requires start + (if v < 0x8000 then 29 else 30) <= e.stats.Length
    modifies e, e.stats
    ensures e.Valid() && e.start == old(e.start) && top == TopBit(v)
    ensures e.trace == old(e.trace) + LongMagnitude(start, j, v)
  {
    assert Log2(v) <= 15 && (v < 0x8000 ==> Log2(v) <= 14) by {
      Pow2Table();
      assert Pow2(16) == 2 * Pow2(15);
      Log2Below(v, 16);
      if v < 0x8000 {
        Log2Below(v, 15);
      }
    }
    hide Encoder.Valid, Pow2, Log2;
    var st;
    st, top := SendCategory(e, start, j, v, v2, m);
    SendBits(e, st + 14, top, Log2(v), v);
    Assoc(old(e.trace), Category(start, j, Log2(v)), BitPattern(st + 14, Log2(v), v));
  }

  /** A DC magnitude less one, and its highest bit. */
  method SendDcMagnitude(e: Encoder, base: nat, st: nat, v: nat) returns (m: nat)
    requires e.Valid() && base + 50 <= e.stats.Length && st < e.stats.Length && v < 0xFFFF
    modifies e, e.stats
    ensures e.Valid() && e.start == old(e.start) && m == TopBit(v)
    ensures e.trace == old(e.trace) + DcMagnitude(base, st, v)
  {
    hide Encoder.Valid;
    m := 0;
    if v != 0 {
      e.ArithEncode(st, true);
      m := SendLongMagnitude(e, base + 20, 0, v, v, 1);
      Assoc(old(e.trace), [Decision(st, true)], LongMagnitude(base + 20, 0, v));
    } else {
      e.ArithEncode(st, false);
    }
  }

  /** Encoding of one DC difference (figures F.4 to F.9) in context ctx; the next context. */
  method EncodeDcDiff(e: Encoder, base: nat, ctx: nat, diff: int, lower: nat, upper: nat) returns (next: nat)
    requires e.Valid() && base + 50 <= e.stats.Length && ctx <= 16 && -0xFFFF <= diff <= 0xFFFF
    modifies e, e.stats
    ensures e.Valid() && e.start == old(e.start) && next == NextDcContext(diff, lower, upper)
    ensures e.trace == old(e.trace) + DcDecisions(base, ctx, diff)
  {
    hide Encoder.Valid, Pow2, TopBit, DcMagnitude;
    var st := base + ctx;
    if diff == 0 {
      e.ArithEncode(st, false);
      return 0;
    }
    e.ArithEncode(st, true);
    var v: nat;
    if diff > 0 {
      v := diff;
      e.ArithEncode(st + 1, false);
      st := st + 2;
      next := 4;
    } else {
      v := -diff;
      e.ArithEncode(st + 1, true);
      st := st + 3;
      next := 8;
    }
    v := v - 1;
    var m := SendDcMagnitude(e, base, st, v);
    AssocTwo(old(e.trace), Decision(base + ctx, true), Decision(base + ctx + 1, diff < 0), DcMagnitude(base, st, v));
    if m < Pow2(lower) / 2 {
      next := 0;
    } else if m > Pow2(upper) / 2 {
      next := next + 8;
    }
  }

  // ----- AC bands

  /** An AC magnitude less one. */
  method SendAcMagnitude(e: Encoder, st: nat, x2: nat, v: nat)
    requires e.Valid() && 0 < x2 && x2 + 28 <= e.stats.Length && st < e.stats.Length && v < 0x8000
    modifies e, e.stats
    ensures e.Valid() && e.start == old(e.start) && e.trace == old(e.trace) + AcMagnitude(st, x2, v)
  {
    MagnitudeIs(st, x2, v);
    hide Encoder.Valid, Log2, LongMagnitude, AcMagnitude, Pow2;
    if v != 0 {
      LogHalf(v);
      e.ArithEncode(st, true);
      var v2: nat := v / 2;
      if v2 != 0 {
        Assoc(old(e.trace), [Decision(st, true)], [Decision(st, true)] + LongMagnitude(x2 - 1, 1, v));
        SendLargeMagnitude(e, st, x2, v);
        return;
      }
      PairAppended(old(e.trace), Decision(st, true), Decision(st, false));
    }
    e.ArithEncode(st, false);
  }

  lemma PairAppended(t: seq<Decision>, a: Decision, b: Decision)
    ensures t + [a] + [b] == t + [a, b]
  {
  }

  /** A magnitude of more than one bit, once the first decision has been sent. */
  method SendLargeMagnitude(e: Encoder, st: nat, x2: nat, v: nat)
    requires e.Valid() && 0 < x2 && x2 + 28 <= e.stats.Length && st < e.stats.Length && 2 <= v < 0x8000
    modifies e, e.stats
    ensures e.Valid() && e.start == old(e.start)
    ensures e.trace == old(e.trace) + ([Decision(st, true)] + LongMagnitude(x2 - 1, 1, v))
  {
    LogHalf(v);
    assert Pow2(1) == 2;
    hide Encoder.Valid, Log2, LongMagnitude, Pow2;
    e.ArithEncode(st, true);
    var top := SendLongMagnitude(e, x2 - 1, 1, v, v / 2, 2);
    Assoc(old(e.trace), [Decision(st, true)], LongMagnitude(x2 - 1, 1, v));
  }

  lemma MagnitudeIs(st: nat, x2: nat, v: nat)
    requires x2 > 0
    ensures v == 0 ==> AcMagnitude(st, x2, v) == [Decision(st, false)]
    ensures v > 0 && Log2(v) == 0 ==> AcMagnitude(st, x2, v) == [Decision(st, true), Decision(st, false)]
    ensures v > 0 && Log2(v) > 0 ==> AcMagnitude(st, x2, v) == [Decision(st, true)] + ([Decision(st, true)] + LongMagnitude(x2 - 1, 1, v))
  {
    hide LongMagnitude, Log2;
    assert [Decision(st, true), Decision(st, true)] == [Decision(st, true)] + [Decision(st, true)];
  }

  /** A block in memory, read in zigzag order under the point transform. */
  function Transformed(block: seq<int>, al: nat): (y: Block)
    requires |block| == 64
    ensures forall k :: 0 <= k < 64 ==> y[k] == Truncate(block[Order(k)], al)
  {
    Transform(Zig(block), al)
  }

  /** The end-of-block index: a coefficient counts if it is nonzero after the point transform. */
  method FindEob(block: seq<int>, se: nat, al: nat) returns (ke: nat)
    requires |block| == 64 && se < 64
    ensures ke == LastNonzero(Transformed(block, al), se)
  {
    hide Truncate, Order;
    ke := se;
    while ke > 0
      invariant ke <= se && LastNonzero(Transformed(block, al), se) == LastNonzero(Transformed(block, al), ke)
    {
      if Truncate(block[Order(ke)], al) != 0 {
        break;
      }
      ke := ke - 1;
    }
  }

  /** y is the block, in zigzag order and under the point transform. */
  ghost predicate Views(block: seq<int>, al: nat, y: seq<int>) {
    |block| == |y| == 64 && forall i :: 0 <= i < 64 ==> y[i] == Truncate(block[Order(i)], al) && Abs(y[i]) <= 0x8000
  }

  /** Zero coefficients up to the next nonzero one, which is returned with its index. */
  method SendZeros(e: Encoder, base: nat, ghost kx: nat, block: seq<int>, from: nat, ghost ke: nat, ghost se: nat, al: nat,
      ghost y: seq<int>)
      returns (k: nat, x: int)
    requires e.Valid() && e.stats.Length == NUM_BINS && base + AC_STAT_BINS <= FIXED_BIN
    requires Views(block, al, y) && 0 < from <= ke <= se < 64 && y[ke] != 0
    modifies e, e.stats
    ensures e.Valid() && e.start == old(e.start) && from <= k <= ke && x == y[k] != 0
    ensures e.trace + AcRun(base, kx, y, k, ke, se) == old(e.trace) + AcRun(base, kx, y, from, ke, se)
  {
    hide Encoder.Valid, Truncate, Order, AcMagnitude, AcDecisions, AcRun;
    k := from;
    var st := base + 3 * (k - 1);
    x := Truncate(block[Order(k)], al);
    while x == 0
      invariant e.Valid() && e.start == old(e.start) && from <= k <= ke && st == EobBin(base, k) && x == y[k]
      invariant e.trace + AcRun(base, kx, y, k, ke, se) == old(e.trace) + AcRun(base, kx, y, from, ke, se)
      decreases ke - k
    {
      ZeroStep(base, kx, y, k, ke, se, e.trace);
      e.ArithEncode(st + 1, false);
      st := st + 3;
      k := k + 1;
      x := Truncate(block[Order(k)], al);
    }
  }

  lemma ZeroStep(base: nat, kx: nat, y: seq<int>, k: nat, ke: nat, se: nat, t: seq<Decision>)
    requires 0 < k <= ke <= se < |y| && y[ke] != 0 && y[k] == 0
    ensures k < ke && t + AcRun(base, kx, y, k, ke, se) == t + [Decision(EobBin(base, k) + 1, false)] + AcRun(base, kx, y, k + 1, ke, se)
  {
    hide AcMagnitude, AcDecisions;
  }

  /** The decisions of SendCoef. */
  function CoefDecisions(base: nat, kx: nat, k: nat, x: int): seq<Decision>
    requires 0 < k && x != 0
  {
    [Decision(EobBin(base, k) + 1, true), Decision(FIXED_BIN, x < 0)]
    + AcMagnitude(EobBin(base, k) + 2, LongBin(base, kx, k), Abs(x) - 1)
  }

  lemma CoefSplits(t: seq<Decision>, base: nat, kx: nat, k: nat, x: int)
    requires 0 < k && x != 0
    ensures t + [Decision(EobBin(base, k) + 1, true)] + [Decision(FIXED_BIN, x < 0)]
            + AcMagnitude(EobBin(base, k) + 2, LongBin(base, kx, k), Abs(x) - 1) == t + CoefDecisions(base, kx, k, x)
  {
    hide AcMagnitude;
    AssocTwo(t, Decision(EobBin(base, k) + 1, true), Decision(FIXED_BIN, x < 0),
             AcMagnitude(EobBin(base, k) + 2, LongBin(base, kx, k), Abs(x) - 1));
  }

  /** One nonzero coefficient: that it is one, its sign and its magnitude. */
  method SendCoef(e: Encoder, base: nat, kx: nat, k: nat, x: int)
    requires e.Valid() && e.stats.Length == NUM_BINS && base + AC_STAT_BINS <= FIXED_BIN
    requires 0 < k < 64 && x != 0 && Abs(x) <= 0x8000
    modifies e, e.stats
    ensures e.Valid() && e.start == old(e.start)
    ensures e.trace == old(e.trace) + CoefDecisions(base, kx, k, x)
  {
    hide Encoder.Valid, AcMagnitude, CoefDecisions;
    var st := EobBin(base, k);
    var x2 := LongBin(base, kx, k);
    assert 0 < x2 && x2 + 28 <= NUM_BINS && st + 2 < NUM_BINS;
    hide EobBin, LongBin;
    CoefSplits(e.trace, base, kx, k, x);
    e.ArithEncode(st + 1, true);
    var v := SendSign(e, x);
    SendAcMagnitude(e, st + 2, x2, v - 1);
  }

  /** The sign of x in the fixed bin; its magnitude. */
  method SendSign(e: Encoder, x: int) returns (v: nat)
    requires e.Valid() && e.stats.Length == NUM_BINS && x != 0
    modifies e, e.stats
    ensures e.Valid() && e.start == old(e.start) && v == Abs(x)
    ensures e.trace == old(e.trace) + [Decision(FIXED_BIN, x < 0)]
  {
    hide Encoder.Valid;
    if x >= 0 {
      e.ArithEncode(FIXED_BIN, false);
      v := x;
    } else {
      e.ArithEncode(FIXED_BIN, true);
      v := -x;
    }
  }

  lemma TurnStarts(t: seq<Decision>, base: nat, kx: nat, y: seq<int>, k: nat, ke: nat, se: nat)
    requires 0 < k <= ke <= se < |y| && y[ke] != 0
    ensures t + [Decision(EobBin(base, k), false)] + AcRun(base, kx, y, k, ke, se) == t + AcDecisions(base, kx, y, k, ke, se)
  {
    hide AcRun;
    Assoc(t, [Decision(EobBin(base, k), false)], AcRun(base, kx, y, k, ke, se));
  }

  lemma RunEnds(t: seq<Decision>, base: nat, kx: nat, y: seq<int>, k: nat, ke: nat, se: nat)
    requires 0 < k <= ke <= se < |y| && y[ke] != 0 && y[k] != 0
    ensures t + CoefDecisions(base, kx, k, y[k]) + AcDecisions(base, kx, y, k + 1, ke, se) == t + AcRun(base, kx, y, k, ke, se)
  {
    hide AcDecisions, AcMagnitude;
    Assoc(t, CoefDecisions(base, kx, k, y[k]), AcDecisions(base, kx, y, k + 1, ke, se));
  }

  /** One turn of the coefficient loop from k; the index after the coefficient coded. */
  method SendTurn(e: Encoder, base: nat, kx: nat, block: seq<int>, from: nat, ghost ke: nat, ghost se: nat, al: nat,
      ghost y: seq<int>)
      returns (next: nat)
    requires e.Valid() && e.stats.Length == NUM_BINS && base + AC_STAT_BINS <= FIXED_BIN
    requires Views(block, al, y) && 0 < from <= ke <= se < 64 && y[ke] != 0
    modifies e, e.stats
    ensures e.Valid() && e.start == old(e.start) && from < next <= ke + 1
    ensures e.trace + AcDecisions(base, kx, y, next, ke, se) == old(e.trace) + AcDecisions(base, kx, y, from, ke, se)
  {
    hide Encoder.Valid, AcDecisions, AcRun, AcMagnitude, Order, Truncate;
    assert Abs(y[from]) <= 0x8000;
    e.ArithEncode(base + 3 * (from - 1), false);
    var k, x := SendZeros(e, base, kx, block, from, ke, se, al, y);
    ghost var t := e.trace;
    SendCoef(e, base, kx, k, x);
    RunEnds(t, base, kx, y, k, ke, se);
    TurnStarts(old(e.trace), base, kx, y, from, ke, se);
    next := k + 1;
  }

  /** encode_mcu_AC_first, and with the band 1..63 and al = 0 the AC part of encode_mcu. */
  method EncodeAcBand(e: Encoder, base: nat, kx: nat, block: seq<int>, ss: nat, se: nat, al: nat)
    requires e.Valid() && e.stats.Length == NUM_BINS && base + AC_STAT_BINS <= FIXED_BIN
    requires |block| == 64 && 0 < ss <= se < 64
    requires forall p :: 0 <= p < 64 ==> -0x8000 <= block[p] < 0x8000
    modifies e, e.stats
    ensures e.Valid() && e.start == old(e.start)
    ensures var y := Transformed(block, al);
      e.trace == old(e.trace) + AcDecisions(base, kx, y, ss, LastNonzero(y, se), se)
  {
    var ke := FindEob(block, se, al);
    ghost var y := Transformed(block, al);
    TransformedViews(block, al);
    hide Encoder.Valid, LastNonzero, Transformed, Views, AcDecisions;
    var k := ss;
    while k <= ke
      invariant e.Valid() && e.start == old(e.start) && ss <= k <= se + 1
      invariant e.trace + AcDecisions(base, kx, y, k, ke, se) == old(e.trace) + AcDecisions(base, kx, y, ss, ke, se)
    {
      k := SendTurn(e, base, kx, block, k, ke, se, al, y);
    }
    BandEnds(base, kx, y, k, ke, se);
    if k <= se {
      e.ArithEncode(base + 3 * (k - 1), true);
    }
  }

  lemma TransformedViews(block: seq<int>, al: nat)
    requires |block| == 64 && forall p :: 0 <= p < 64 ==> -0x8000 <= block[p] < 0x8000
    ensures Views(block, al, Transformed(block, al))
  {
    hide Transformed, Truncate, Order;
    forall k | 0 <= k < 64 ensures Abs(Transformed(block, al)[k]) <= 0x8000 {
      TruncateSmaller(block[Order(k)], al);
    }
  }

  lemma BandEnds(base: nat, kx: nat, y: seq<int>, k: nat, ke: nat, se: nat)
    requires ke < k && 0 < k && ke <= se < |y| && (ke > 0 ==> y[ke] != 0)
    ensures AcDecisions(base, kx, y, k, ke, se) == if k <= se then [Decision(EobBin(base, k), true)] else []
  {
  }

  // ----- Refinement of an AC band

  lemma RefineStarts(t: seq<Decision>, base: nat, y: seq<int>, k: nat, kex: nat, ke: nat, se: nat)
    requires 0 < k <= ke <= se < |y| && y[ke] != 0
    ensures var sent := if k > kex then t + [Decision(EobBin(base, k), false)] else t;
      sent + RefineRun(base, y, k, kex, ke, se) == t + RefineDecisions(base, y, k, kex, ke, se)
  {
    hide RefineRun;
    if k > kex {
      Assoc(t, [Decision(EobBin(base, k), false)], RefineRun(base, y, k, kex, ke, se));
    } else {
      assert [] + RefineRun(base, y, k, kex, ke, se) == RefineRun(base, y, k, kex, ke, se);
    }
  }

  /** The decisions about a coefficient that is nonzero at this plane. */
  function RefineCoef(base: nat, k: nat, x: int): seq<Decision>
    requires 0 < k
  {
    if Known(x) then [Decision(EobBin(base, k) + 2, Abs(x) % 2 == 1)]
    else [Decision(EobBin(base, k) + 1, true), Decision(FIXED_BIN, x < 0)]
  }

  lemma RefineRunEnds(t: seq<Decision>, base: nat, y: seq<int>, k: nat, kex: nat, ke: nat, se: nat)
    requires 0 < k <= ke <= se < |y| && y[ke] != 0 && y[k] != 0
    ensures t + RefineCoef(base, k, y[k]) + RefineDecisions(base, y, k + 1, kex, ke, se) == t + RefineRun(base, y, k, kex, ke, se)
  {
    hide RefineDecisions;
    Assoc(t, RefineCoef(base, k, y[k]), RefineDecisions(base, y, k + 1, kex, ke, se));
  }

  lemma RefineRunSkips(t: seq<Decision>, base: nat, y: seq<int>, k: nat, kex: nat, ke: nat, se: nat)
    requires 0 < k <= ke <= se < |y| && y[ke] != 0 && y[k] == 0
    ensures k < ke
    ensures t + [Decision(EobBin(base, k) + 1, false)] + RefineRun(base, y, k + 1, kex, ke, se) == t + RefineRun(base, y, k, kex, ke, se)
  {
    Assoc(t, [Decision(EobBin(base, k) + 1, false)], RefineRun(base, y, k + 1, kex, ke, se));
  }

  method SendRefineCoef(e: Encoder, base: nat, k: nat, x: int)
    requires e.Valid() && e.stats.Length == NUM_BINS && base + AC_STAT_BINS <= FIXED_BIN
    requires 0 < k < 64 && x != 0
    modifies e, e.stats
    ensures e.Valid() && e.start == old(e.start)
    ensures e.trace == old(e.trace) + RefineCoef(base, k, x)
  {
    hide Encoder.Valid;
    var st := base + 3 * (k - 1);
    var v := Abs(x);
    if v / 2 != 0 {
      e.ArithEncode(st + 2, v % 2 == 1);
    } else {
      e.ArithEncode(st + 1, true);
      e.ArithEncode(FIXED_BIN, x < 0);
    }
  }

  /** One turn of the refinement loop: zeros, then a coefficient that is nonzero at this plane. */
  method RefineTurn(e: Encoder, base: nat, block: seq<int>, from: nat, kex: nat, ghost ke: nat, ghost se: nat, al: nat,
      ghost y: seq<int>)
      returns (next: nat)
    requires e.Valid() && e.stats.Length == NUM_BINS && base + AC_STAT_BINS <= FIXED_BIN
    requires Views(block, al, y) && 0 < from <= ke <= se < 64 && y[ke] != 0
    modifies e, e.stats
    ensures e.Valid() && e.start == old(e.start) && from < next <= ke + 1
    ensures e.trace + RefineDecisions(base, y, next, kex, ke, se) == old(e.trace) + RefineDecisions(base, y, from, kex, ke, se)
  {
    hide Encoder.Valid, Truncate, Order, RefineRun, RefineDecisions, RefineCoef, LastNonzero;
    var k := from;
    RefineStarts(e.trace, base, y, from, kex, ke, se);
    if k > kex {
      e.ArithEncode(base + 3 * (k - 1), false);
    }
    var st := base + 3 * (k - 1);
    var x := Truncate(block[Order(k)], al);
    while x == 0
      invariant e.Valid() && e.start == old(e.start) && from <= k <= ke && st == EobBin(base, k) && x == y[k]
      invariant e.trace + RefineRun(base, y, k, kex, ke, se) == old(e.trace) + RefineDecisions(base, y, from, kex, ke, se)
      decreases ke - k
    {
      RefineRunSkips(e.trace, base, y, k, kex, ke, se);
      e.ArithEncode(st + 1, false);
      st := st + 3;
      k := k + 1;
      x := Truncate(block[Order(k)], al);
    }
    RefineRunEnds(e.trace, base, y, k, kex, ke, se);
    SendRefineCoef(e, base, k, x);
    next := k + 1;
  }

  lemma RefineEnds(base: nat, y: seq<int>, k: nat, kex: nat, ke: nat, se: nat)
    requires ke < k && 0 < k && ke <= se < |y| && (ke > 0 ==> y[ke] != 0)
    ensures RefineDecisions(base, y, k, kex, ke, se) == if k <= se then [Decision(EobBin(base, k), true)] else []
  {
  }

  /** encode_mcu_AC_refine. */
  method EncodeAcRefine(e: Encoder, base: nat, block: seq<int>, ss: nat, se: nat, ah: nat, al: nat)
    requires e.Valid() && e.stats.Length == NUM_BINS && base + AC_STAT_BINS <= FIXED_BIN
    requires |block| == 64 && 0 < ss <= se < 64
    requires forall p :: 0 <= p < 64 ==> -0x8000 <= block[p] < 0x8000
    modifies e, e.stats
    ensures e.Valid() && e.start == old(e.start)
    ensures var y := Transformed(block, al);
      var ke := LastNonzero(y, se);
      e.trace == old(e.trace) + RefineDecisions(base, y, ss, LastNonzero(Transformed(block, ah), ke), ke, se)
  {
    var ke := FindEob(block, se, al);
    var kex := FindEob(block, ke, ah);
    ghost var y := Transformed(block, al);
    TransformedViews(block, al);
    hide Encoder.Valid, LastNonzero, Transformed, Views, RefineDecisions;
    var k := ss;
    while k <= ke
      invariant e.Valid() && e.start == old(e.start) && ss <= k <= se + 1
      invariant e.trace + RefineDecisions(base, y, k, kex, ke, se) == old(e.trace) + RefineDecisions(base, y, ss, kex, ke, se)
    {
      k := RefineTurn(e, base, block, k, kex, ke, se, al, y);
    }
    RefineEnds(base, y, k, kex, ke, se);
    if k <= se {
      e.ArithEncode(base + 3 * (k - 1), true);
    }
  }

  // ----- Whole MCUs

  /** Prediction and context of each component, as the encoder's fields hold them. */
  class Predictors {
    var last: seq<int>
    var ctx: seq<nat>

    function State(): DcState
      reads this
    {
      DcState(last, ctx)
    }

    /** start_pass. */
    constructor (n: nat)
      ensures State() == DcState(seq(n, _ => 0), seq(n, _ => 0))
    {
      last, ctx := seq(n, _ => 0), seq(n, _ => 0);
    }
  }

  /** The DC part of encode_mcu and encode_mcu_DC_first: the value v of component c. */
  method EncodeDc(e: Encoder, g: Config, p: Predictors, c: nat, v: int)
    requires e.Valid() && e.stats.Length == NUM_BINS && ConfigOk(g) && DcStateOk(g, p.State()) && c < |g.comps|
    requires -0xFFFF <= v - p.last[c] <= 0xFFFF
    modifies e, e.stats, p
    ensures e.Valid() && e.start == old(e.start)
    ensures e.trace == old(e.trace) + DcDecisions(DcStats(g.comps[c].dcTbl), old(p.ctx[c]), v - old(p.last[c]))
    ensures p.State() == DcNext(g, old(p.State()), c, v)
  {
    hide Encoder.Valid, NextDcContext, DcDecisions;
    var tbl := g.comps[c].dcTbl;
    var diff := v - p.last[c];
    var next := EncodeDcDiff(e, DcStats(tbl), p.ctx[c], diff, g.dcL[tbl], g.dcU[tbl]);
    p.ctx := p.ctx[c := next];
    if diff != 0 {
      p.last := p.last[c := v];
    }
  }
}
