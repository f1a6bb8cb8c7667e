/** The MCU routines of jdarith.c as loops that fill a block in memory, each proved to ask
    for exactly the bins, and store exactly the coefficients, of the specification. */
module ArithMcuDecoder {
  import opened Coefficients
  import opened Powers
  import opened ArithDecoding
  import opened ArithMachine
  import opened Binarize
  import opened Refine
  import opened NaturalOrder
  import opened BlockMemory
  import opened ArithFile

  ghost predicate Ready(d: Decoder)
    reads d, d.stats
  {
    d.Valid() && d.stats.Length == NUM_BINS
  }

  /** The decoder as a source of answers. */
  ghost function Now(d: Decoder): LiveTap
    requires Ready(d)
    reads d, d.stats
  {
    Tap(d.T, d.dec)
  }

  method AskBin(d: Decoder, st: Bin) returns (bit: bool)
    requires Ready(d)
    modifies d, d.stats
    ensures Ready(d) && (bit, Now(d)) == Ask(old(Now(d)), st)
  {
    hide DecodeOne;
    bit := d.ArithDecode(st);
  }

  // ----- Magnitudes

  /** Figure F.23 from category j on; m is 2^j. */
  method ReceiveCategory(d: Decoder, first: nat, ghost start: nat, ghost j: nat, m: nat) returns (ok: bool, st: nat, top: nat)
    requires Ready(d) && j <= 14 && m == Pow2(j) && first == start + j && start + 28 < NUM_BINS
    modifies d, d.stats
    ensures Ready(d)
    ensures var r := ReadCategory(Ask, old(Now(d)), start, j);
      && ok == r.Length? && r.s == Now(d)
      && (ok ==> st == start + r.t && top == Pow2(r.t) && st + 14 < NUM_BINS)
  {
    hide Ready, Ask, Now, Pow2, ReadCategory;
    ghost var i := j;
    ghost var goal := ReadCategory(Ask, Now(d), start, j);
    st := first;
    top := m;
    while true
      invariant Ready(d) && i <= 14 && st == start + i && top == Pow2(i)
      invariant ReadCategory(Ask, Now(d), start, i) == goal
      decreases 15 - i
    {
      CategoryUnfolds(Now(d), start, i);
      TopDoubles(i);
      var more := AskBin(d, st);
      if !more {
        return true, st, top;
      }
      top := top * 2;
      if top == 0x8000 {
        return false, st, top;
      }
      i := i + 1;
      st := st + 1;
    }
  }

  lemma CategoryUnfolds(n: LiveTap, start: nat, i: nat)
    requires i <= 14 && start + 28 < NUM_BINS
    ensures var (more, n2) := Ask(n, start + i);
      ReadCategory(Ask, n, start, i)
      == if !more then Length(i, n2) else if i == 14 then TooLong(n2) else ReadCategory(Ask, n2, start, i + 1)
  {
    hide Ask;
  }

  /** The overflow test on the shifted bit is one on the category. */
  lemma TopDoubles(i: nat)
    requires i <= 14
    ensures Pow2(i + 1) == Pow2(i) * 2 && (Pow2(i) * 2 == 0x8000 <==> i == 14)
  {
    Pow2Table();
    assert Pow2(14) * 2 == 0x8000;
    if i < 14 {
      Pow2Mono(i + 1, 14);
    }
  }

  /** Figure F.24: the bits below m are ored into v. */
  method ReceiveBits(d: Decoder, st: Bin, m: nat, ghost j: nat) returns (v: nat)
    requires Ready(d) && m == Pow2(j)
    modifies d, d.stats
    ensures Ready(d) && (v, Now(d)) == ReadPattern(Ask, old(Now(d)), st, j, Pow2(j))
  {
    hide Ready, Ask, Now;
    ghost var goal := ReadPattern(Ask, Now(d), st, j, Pow2(j));
    ghost var i := j;
    v := m;
    HalfPower(j);
    var bit: nat := m / 2;
    while bit != 0
      invariant Ready(d) && i <= j && if bit == 0 then i == 0 else i > 0 && bit == Pow2(i - 1)
      invariant ReadPattern(Ask, Now(d), st, i, v) == goal
      decreases bit
    {
      HalfPower(i - 1);
      var one := AskBin(d, st);
      if one {
        v := v + bit;
      }
      i := i - 1;
      bit := bit / 2;
    }
  }

  /** Category and bits of a magnitude less one; top is its highest bit. */
  method ReceiveLongMagnitude(d: Decoder, first: nat, ghost start: nat, ghost j: nat, m: nat)
      returns (ok: bool, v: nat, top: nat)
    requires Ready(d) && j <= 14 && m == Pow2(j) && first == start + j && start + 28 < NUM_BINS
    modifies d, d.stats
    ensures Ready(d)
    ensures var r := ReadLongMagnitude(Ask, old(Now(d)), start, j);
      ok == r.Magnitude? && r.s == Now(d) && (ok ==> v == r.v && top == TopBit(v))
  {
    hide Ready, Ask, Now, Pow2, TopBit, ReadCategory, ReadPattern;
    ghost var t := ReadCategory(Ask, Now(d), start, j);
    var st;
    ok, st, top := ReceiveCategory(d, first, start, j, m);
    v := 0;
    if ok {
      ReadPatternTop(Ask, Now(d), st + 14, t.t);
      v := ReceiveBits(d, st + 14, top, t.t);
    }
  }

  lemma {:induction false} ReadPatternRange<S(!new)>(step: Step<S>, s: S, st: Bin, j: nat, v: nat)
    ensures v <= ReadPattern(step, s, st, j, v).0 < v + Pow2(j)
  {
    if j > 0 {
      var (bit, n) := step(s, st);
      ReadPatternRange(step, n, st, j - 1, if bit then v + Pow2(j - 1) else v);
    }
  }

  /** The bits read do not disturb the highest one. */
  lemma ReadPatternTop(step: Step<LiveTap>, s: LiveTap, st: Bin, j: nat)
    ensures TopBit(ReadPattern(step, s, st, j, Pow2(j)).0) == Pow2(j)
  {
    var v := ReadPattern(step, s, st, j, Pow2(j)).0;
    ReadPatternRange(step, s, st, j, Pow2(j));
    Log2Bounds(v);
    var i := Log2(v);
    if i < j {
      Pow2Mono(i + 1, j);
    } else if i > j {
      Pow2Mono(j + 1, i);
    }
  }

  // ----- DC differences

  /** A DC magnitude less one, and its highest bit. */
  method ReceiveDcMagnitude(d: Decoder, base: nat, st: Bin) returns (ok: bool, v: nat, m: nat)
    requires Ready(d) && base + 49 <= NUM_BINS
    modifies d, d.stats
    ensures Ready(d)
    ensures var r := ReadDcMagnitude(Ask, old(Now(d)), base, st);
      ok == r.Magnitude? && r.s == Now(d) && (ok ==> v == r.v && m == TopBit(v))
  {
    hide Ready, Ask, Now, ReadLongMagnitude;
    var more := AskBin(d, st);
    if more {
      ok, v, m := ReceiveLongMagnitude(d, base + 20, base + 20, 0, 1);
    } else {
      ok, v, m := true, 0, 0;
    }
  }

  /** Decoding of one DC difference (figures F.19 to F.24) in context ctx; the next context. */
  method DecodeDcDiff(d: Decoder, base: nat, ctx: nat, lower: nat, upper: nat) returns (ok: bool, diff: int, next: nat)
    requires Ready(d) && base + 49 <= NUM_BINS && ctx <= 16
    modifies d, d.stats
    ensures Ready(d)
    ensures var r := ReadDc(Ask, old(Now(d)), base, ctx, lower, upper);
      ok == r.DcRead? && r.s == Now(d) && (ok ==> diff == r.diff && next == r.ctx)
  {
    hide Ready, Ask, Now, ReadDcMagnitude, Pow2, TopBit;
    ok, diff, next := true, 0, 0;
    var nonzero := AskBin(d, base + ctx);
    if nonzero {
      var sign := AskBin(d, base + ctx + 1);
      var st := base + ctx + 2 + (if sign then 1 else 0);
      var v, m;
      ok, v, m := ReceiveDcMagnitude(d, base, st);
      if ok {
        if m < Pow2(lower) / 2 {
          next := 0;
        } else if m > Pow2(upper) / 2 {
          next := 12 + (if sign then 4 else 0);
        } else {
          next := 4 + (if sign then 4 else 0);
        }
        diff := v + 1;
        if sign {
          diff := -diff;
        }
      }
    }
  }

  // ----- AC bands

  method ReceiveAcMagnitude(d: Decoder, st: Bin, x2: nat) returns (ok: bool, v: nat)
    requires Ready(d) && 0 < x2 && x2 + 28 <= NUM_BINS
    modifies d, d.stats
    ensures Ready(d)
    ensures var r := ReadAcMagnitude(Ask, old(Now(d)), st, x2);
      ok == r.Magnitude? && r.s == Now(d) && (ok ==> v == r.v)
  {
    hide Ready, Ask, Now, ReadLongMagnitude;
    ok, v := true, 0;
    var more := AskBin(d, st);
    if more {
      var yetMore := AskBin(d, st);
      if yetMore {
        var top;
        ok, v, top := ReceiveLongMagnitude(d, x2, x2 - 1, 1, 2);
      } else {
        v := 1;
      }
    }
  }

  /** What a decoder makes of an AC reading: success, and the block in zigzag order. */
  ghost predicate Reads(r: AcRead<LiveTap>, ok: bool, block: array<int>, now: LiveTap)
    reads block
  {
    block.Length == 64 && ok == r.AcRead? && r.z == Zig(block[..]) && r.s == now
  }

  /** Zeros up to the next nonzero coefficient; ok is false if the band ended first. */
  method SkipZeros(d: Decoder, base: nat, ghost kx: nat, from: nat, se: nat, ghost al: nat, ghost z: seq<int>)
      returns (ok: bool, k: nat)
    requires Ready(d) && base + AC_STAT_BINS <= FIXED_BIN && 0 < from <= se < 64 && |z| == 64
    modifies d, d.stats
    ensures Ready(d) && from <= k <= se + 1 && (ok ==> k <= se)
    ensures ReadAcRun(Ask, old(Now(d)), base, kx, from, se, al, z)
         == if ok then AfterNonzero(Now(d), base, kx, k, se, al, z) else AcBad(z, Now(d))
  {
    hide *;
    RunShape(base, |z|);
    ghost var goal := ReadAcRun(Ask, Now(d), base, kx, from, se, al, z);
    k := from;
    var st := base + 3 * (k - 1);
    RunUnfolds(Now(d), base, kx, k, se, al, z);
    var nonzero := AskBin(d, st + 1);
    while !nonzero
      invariant Ready(d) && from <= k <= se && st == EobBin(base, k)
      invariant goal == RunFrom(nonzero, Now(d), base, kx, k, se, al, z)
      decreases se - k, !nonzero
    {
      RunGoesOn(Now(d), base, kx, k, se, al, z);
      st := st + 3;
      k := k + 1;
      if k > se {
        return false, k;
      }
      RunUnfolds(Now(d), base, kx, k, se, al, z);
      nonzero := AskBin(d, st + 1);
    }
    RunStops(Now(d), base, kx, k, se, al, z);
    ok := true;
  }

  lemma RunShape(base: nat, n: nat)
    requires base + AC_STAT_BINS <= FIXED_BIN
    ensures base + AC_STAT_BINS <= NUM_BINS && base + 190 <= NUM_BINS
    ensures forall k :: 0 < k < 64 ==> EobBin(base, k) == base + 3 * (k - 1) && EobBin(base, k) + 1 < NUM_BINS
  {
  }

  lemma RunGoesOn(n: LiveTap, base: nat, kx: nat, k: nat, se: nat, al: nat, z: seq<int>)
    requires base + AC_STAT_BINS <= FIXED_BIN && base + AC_STAT_BINS <= NUM_BINS && 0 < k <= se < |z| == 64
    ensures RunFrom(false, n, base, kx, k, se, al, z)
         == if k + 1 > se then AcBad(z, n) else ReadAcRun(Ask, n, base, kx, k + 1, se, al, z)
  {
    hide Ask, ReadAcRun;
  }

  lemma RunStops(n: LiveTap, base: nat, kx: nat, k: nat, se: nat, al: nat, z: seq<int>)
    requires base + AC_STAT_BINS <= FIXED_BIN && 0 < k <= se < |z| == 64
    ensures RunFrom(true, n, base, kx, k, se, al, z) == AfterNonzero(n, base, kx, k, se, al, z)
  {
    hide Ask, AfterNonzero;
  }

  /** What follows the decision that coefficient k is nonzero. */
  ghost function AfterNonzero(n: LiveTap, base: nat, kx: nat, k: nat, se: nat, al: nat, z: seq<int>): AcRead<LiveTap>
    requires base + AC_STAT_BINS <= FIXED_BIN && 0 < k <= se < |z| == 64
  {
    var (negative, n2) := Ask(n, FIXED_BIN);
    match ReadAcMagnitude(Ask, n2, EobBin(base, k) + 2, LongBin(base, kx, k))
    case Overflow(n3) => AcBad(z, n3)
    case Magnitude(v, n3) =>
      ReadAc(Ask, n3, base, kx, k + 1, se, al, z[k := ToCoef(Signed(v + 1, negative) * Pow2(al))])
  }

  /** What follows the decision whether coefficient k is nonzero. */
  ghost function RunFrom(nonzero: bool, n: LiveTap, base: nat, kx: nat, k: nat, se: nat, al: nat, z: seq<int>): AcRead<LiveTap>
    requires base + AC_STAT_BINS <= FIXED_BIN && 0 < k <= se < |z| == 64
  {
    if nonzero then AfterNonzero(n, base, kx, k, se, al, z)
    else if k + 1 > se then AcBad(z, n) else ReadAcRun(Ask, n, base, kx, k + 1, se, al, z)
  }

  lemma RunUnfolds(n: LiveTap, base: nat, kx: nat, k: nat, se: nat, al: nat, z: seq<int>)
    requires base + AC_STAT_BINS <= FIXED_BIN && 0 < k <= se < |z| == 64
    ensures var (nonzero, n2) := Ask(n, EobBin(base, k) + 1);
      ReadAcRun(Ask, n, base, kx, k, se, al, z) == RunFrom(nonzero, n2, base, kx, k, se, al, z)
  {
    hide Ask, ReadAcMagnitude, ReadAc;
  }

  /** Sign and magnitude of coefficient k, scaled; ok is false on overflow. */
  method ReceiveCoef(d: Decoder, base: nat, kx: nat, k: nat, ghost se: nat, al: nat, ghost z: seq<int>)
      returns (ok: bool, x: int)
    requires Ready(d) && base + AC_STAT_BINS <= FIXED_BIN && 0 < k <= se < 64 && |z| == 64
    modifies d, d.stats
    ensures Ready(d)
    ensures AfterNonzero(old(Now(d)), base, kx, k, se, al, z)
         == if ok then ReadAc(Ask, Now(d), base, kx, k + 1, se, al, z[k := x]) else AcBad(z, Now(d))
  {
    hide Ready, Ask, Now, ReadAc, ReadAcMagnitude, ToCoef, Pow2;
    var st := base + 3 * (k - 1);
    var sign := AskBin(d, FIXED_BIN);
    var v;
    ok, v := ReceiveAcMagnitude(d, st + 2, base + (if k <= kx then 189 else 217));
    x := 0;
    if ok {
      x := ToCoef(Signed(v + 1, sign) * Pow2(al));
    }
  }

  lemma BandUnfolds(n: LiveTap, base: nat, kx: nat, k: nat, se: nat, al: nat, z: seq<int>)
    requires base + AC_STAT_BINS <= FIXED_BIN && 0 < k <= se + 1 && se < |z| == 64
    ensures k > se ==> ReadAc(Ask, n, base, kx, k, se, al, z) == AcRead(z, n)
    ensures k <= se ==>
      var (eob, n2) := Ask(n, EobBin(base, k));
      ReadAc(Ask, n, base, kx, k, se, al, z) == if eob then AcRead(z, n2) else ReadAcRun(Ask, n2, base, kx, k, se, al, z)
  {
    hide Ask, ReadAcRun;
  }

  /** decode_mcu_AC_first, and with the band 1..63 and al = 0 the AC part of decode_mcu. */
  method DecodeAcBand(d: Decoder, base: nat, kx: nat, block: array<int>, ss: nat, se: nat, al: nat) returns (ok: bool)
    requires Ready(d) && base + AC_STAT_BINS <= FIXED_BIN && 0 < ss <= se < 64 && block.Length == 64
    modifies d, d.stats, block
    ensures Ready(d)
    ensures Reads(ReadAc(Ask, old(Now(d)), base, kx, ss, se, al, Zig(old(block[..]))), ok, block, Now(d))
  {
    hide Ready, Ask, Now, AfterNonzero, ReadAc, ReadAcRun, Zig;
    ghost var goal := ReadAc(Ask, Now(d), base, kx, ss, se, al, Zig(block[..]));
    var k := ss;
    while k <= se
      invariant Ready(d) && ss <= k <= se + 1
      invariant goal == ReadAc(Ask, Now(d), base, kx, k, se, al, Zig(block[..]))
    {
      ghost var z := Zig(block[..]);
      BandUnfolds(Now(d), base, kx, k, se, al, z);
      var eob := AskBin(d, base + 3 * (k - 1));
      if eob {
        return true;
      }
      ok, k := SkipZeros(d, base, kx, k, se, al, z);
      if !ok {
        return;
      }
      var x;
      ok, x := ReceiveCoef(d, base, kx, k, se, al, z);
      if !ok {
        return;
      }
      Store(block, k, x);
      k := k + 1;
    }
    BandUnfolds(Now(d), base, kx, k, se, al, Zig(block[..]));
    ok := true;
  }

  // ----- Refinement of an AC band

  /** The last nonzero coefficient held. */
  method FindHeldEob(block: array<int>, se: nat) returns (kex: nat)
    requires block.Length == 64 && se < 64
    ensures kex == LastNonzero(Zig(block[..]), se)
  {
    hide Order;
    kex := se;
    while kex > 0
      invariant kex <= se && LastNonzero(Zig(block[..]), se) == LastNonzero(Zig(block[..]), kex)
    {
      if block[Order(kex)] != 0 {
        break;
      }
      kex := kex - 1;
    }
  }

  /** What follows coefficient k once it is known whether it changes and to what. */
  ghost function RefineNext(n: LiveTap, base: nat, k: nat, kex: nat, se: nat, al: nat, z: seq<int>, x: int): AcRead<LiveTap>
    requires base + AC_STAT_BINS <= FIXED_BIN && 0 < k <= se < |z| == 64
  {
    ReadRefine(Ask, n, base, k + 1, kex, se, al, z[k := x])
  }

  lemma RefineHeldUnfolds(n: LiveTap, base: nat, k: nat, kex: nat, se: nat, al: nat, z: seq<int>)
    requires base + AC_STAT_BINS <= FIXED_BIN && 0 < k <= se < |z| == 64 && z[k] != 0
    ensures var (bit, n2) := Ask(n, EobBin(base, k) + 2);
      ReadRefineRun(Ask, n, base, k, kex, se, al, z)
      == RefineNext(n2, base, k, kex, se, al, z, if bit then Correct(z[k], al) else z[k])
  {
    hide Ask, Correct, ReadRefine;
    assert z[k := z[k]] == z;
  }

  lemma RefineZeroUnfolds(n: LiveTap, base: nat, k: nat, kex: nat, se: nat, al: nat, z: seq<int>)
    requires base + AC_STAT_BINS <= FIXED_BIN && 0 < k <= se < |z| == 64 && z[k] == 0
    ensures var (appears, n2) := Ask(n, EobBin(base, k) + 1);
      var (negative, n3) := Ask(n2, FIXED_BIN);
      ReadRefineRun(Ask, n, base, k, kex, se, al, z)
      == if appears then RefineNext(n3, base, k, kex, se, al, z, Appear(negative, al))
         else if k + 1 > se then AcBad(z, n2) else ReadRefineRun(Ask, n2, base, k + 1, kex, se, al, z)
  {
    hide Ask, Appear, ReadRefine;
  }

  /** Coefficients of the band from k on, up to one that is or becomes nonzero: its index
      and new value; ok is false if the band ended first. */
  method ReceiveRefinement(d: Decoder, base: nat, from: nat, ghost kex: nat, block: array<int>, se: nat, al: nat)
      returns (ok: bool, k: nat, x: int)
    requires Ready(d) && base + AC_STAT_BINS <= FIXED_BIN && 0 < from <= se < 64 && block.Length == 64
    modifies d, d.stats
    ensures Ready(d) && from <= k <= se + 1 && (ok ==> k <= se)
    ensures ReadRefineRun(Ask, old(Now(d)), base, from, kex, se, al, Zig(block[..]))
         == if ok then RefineNext(Now(d), base, k, kex, se, al, Zig(block[..]), x) else AcBad(Zig(block[..]), Now(d))
  {
    ghost var z := Zig(block[..]);
    hide Ready, Ask, Now, RefineNext, ReadRefineRun, Correct, Appear, Order;
    ghost var goal := ReadRefineRun(Ask, Now(d), base, from, kex, se, al, z);
    k := from;
    var st := base + 3 * (k - 1);
    while block[Order(k)] == 0
      invariant Ready(d) && from <= k <= se && st == EobBin(base, k)
      invariant goal == ReadRefineRun(Ask, Now(d), base, k, kex, se, al, z)
      decreases se - k
    {
      RefineZeroUnfolds(Now(d), base, k, kex, se, al, z);
      var appears := AskBin(d, st + 1);
      if appears {
        var sign := AskBin(d, FIXED_BIN);
        return true, k, Appear(sign, al);
      }
      st := st + 3;
      k := k + 1;
      if k > se {
        return false, k, 0;
      }
    }
    RefineHeldUnfolds(Now(d), base, k, kex, se, al, z);
    var bit := AskBin(d, st + 2);
    ok, x := true, if bit then Correct(block[Order(k)], al) else block[Order(k)];
  }

  lemma RefineUnfolds(n: LiveTap, base: nat, k: nat, kex: nat, se: nat, al: nat, z: seq<int>)
    requires base + AC_STAT_BINS <= FIXED_BIN && 0 < k <= se + 1 && se < |z| == 64
    ensures k > se ==> ReadRefine(Ask, n, base, k, kex, se, al, z) == AcRead(z, n)
    ensures k <= se && k <= kex ==> ReadRefine(Ask, n, base, k, kex, se, al, z) == ReadRefineRun(Ask, n, base, k, kex, se, al, z)
    ensures k <= se && k > kex ==>
      var (eob, n2) := Ask(n, EobBin(base, k));
      ReadRefine(Ask, n, base, k, kex, se, al, z)
      == if eob then AcRead(z, n2) else ReadRefineRun(Ask, n2, base, k, kex, se, al, z)
  {
    hide Ask, ReadRefineRun;
  }

  /** The coefficient loop of decode_mcu_AC_refine, given the end-of-block index of earlier scans. */
  method RefineBand(d: Decoder, base: nat, block: array<int>, ss: nat, kex: nat, se: nat, al: nat) returns (ok: bool)
    requires Ready(d) && base + AC_STAT_BINS <= FIXED_BIN && 0 < ss <= se < 64 && block.Length == 64
    modifies d, d.stats, block
    ensures Ready(d)
    ensures Reads(ReadRefine(Ask, old(Now(d)), base, ss, kex, se, al, Zig(old(block[..]))), ok, block, Now(d))
  {
    hide Ready, Ask, Now, ReadRefine, ReadRefineRun, Zig;
    ghost var goal := ReadRefine(Ask, Now(d), base, ss, kex, se, al, Zig(block[..]));
    var k := ss;
    while k <= se
      invariant Ready(d) && ss <= k <= se + 1
      invariant goal == ReadRefine(Ask, Now(d), base, k, kex, se, al, Zig(block[..]))
    {
      RefineUnfolds(Now(d), base, k, kex, se, al, Zig(block[..]));
      if k > kex {
        var eob := AskBin(d, base + 3 * (k - 1));
        if eob {
          return true;
        }
      }
      var x;
      ok, k, x := ReceiveRefinement(d, base, k, kex, block, se, al);
      if !ok {
        return;
      }
      Store(block, k, x);
      k := k + 1;
    }
    RefineUnfolds(Now(d), base, k, kex, se, al, Zig(block[..]));
    ok := true;
  }

  /** decode_mcu_AC_refine. */
  method DecodeAcRefine(d: Decoder, base: nat, block: array<int>, ss: nat, se: nat, al: nat) returns (ok: bool)
    requires Ready(d) && base + AC_STAT_BINS <= FIXED_BIN && 0 < ss <= se < 64 && block.Length == 64
    modifies d, d.stats, block
    ensures Ready(d)
    ensures var z := Zig(old(block[..]));
      Reads(ReadRefine(Ask, old(Now(d)), base, ss, LastNonzero(z, se), se, al, z), ok, block, Now(d))
  {
    hide Ready, Ask, Now, ReadRefine, Zig, LastNonzero, Reads;
    var kex := FindHeldEob(block, se);
    ok := RefineBand(d, base, block, ss, kex, se, al);
  }
}
