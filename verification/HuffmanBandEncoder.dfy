/** The progressive AC Huffman encoder (jcphuff.c): end-of-band runs and buffered correction
    bits held over from block to block. */
module HuffmanBandEncoder {
  import opened Coefficients
  import opened Powers
  import HuffmanEncoder
  import opened HuffmanBlock
  import opened NaturalOrder
  import opened Refine
  import opened Scans
  import opened HuffmanBands
  import opened HuffmanBandStore
  import opened HuffmanBandsInvert
  import opened HuffmanBandScan

  const MAX_CORR_BITS: nat := 1000

  // ----- Which blocks share a run

  /** The groups of the blocks coded so far, and whether the last is a run that takes another block. */
  datatype Runs = Runs(us: seq<Group>, open: bool)

  /** Another block fits the run's symbol, and its correction bits fit the buffer. */
  predicate TakesMore(tails: seq<seq<bool>>) {
    |tails| < 0x7FFF && |Flat(tails)| <= MAX_CORR_BITS - DCTSIZE2 + 1
  }

  /** A block joins the run before it if it has no symbols of its own. */
  function AddCode(s: Runs, c: BandCode): Runs {
    if !c.ended then Runs(s.us + [Group(c.head, [])], false)
    else if c.head == [] && s.open && s.us != [] then
      var u := s.us[|s.us| - 1];
      Runs(s.us[..|s.us| - 1] + [Group(u.head, u.tails + [c.tail])], TakesMore(u.tails + [c.tail]))
    else Runs(s.us + [Group(c.head, [c.tail])], TakesMore([c.tail]))
  }

  function RunsOf(codes: seq<BandCode>): Runs {
    if codes == [] then Runs([], false) else AddCode(RunsOf(codes[..|codes| - 1]), codes[|codes| - 1])
  }

  lemma RunsSnoc(codes: seq<BandCode>, c: BandCode)
    ensures RunsOf(codes + [c]) == AddCode(RunsOf(codes), c)
  {
    hide AddCode;
    assert (codes + [c])[..|codes|] == codes;
  }

  /** What has been emitted and what is held back: codes are the blocks done, us how they are
      grouped, and h the symbols of the block being coded. */
  ghost predicate Held(eobrun: nat, bits: seq<bool>, items: seq<Item>, us: seq<Group>, codes: seq<BandCode>, h: seq<Item>) {
    && RunsFit(us) && AllCodes(us) == codes && (bits != [] ==> eobrun > 0)
    && if eobrun > 0 then
         && h == [] && us != [] && |us[|us| - 1].tails| == eobrun && Flat(us[|us| - 1].tails) == bits
         && items == AllItems(us[..|us| - 1]) + us[|us| - 1].head
       else items == AllItems(us) + h
  }

  /** Sending the run. */
  lemma RunSent(eobrun: nat, bits: seq<bool>, items: seq<Item>, us: seq<Group>, codes: seq<BandCode>, h: seq<Item>)
    requires Held(eobrun, bits, items, us, codes, h)
    ensures eobrun > 0 ==> Held(0, [], items + EobItems(eobrun) + BitItems(bits), us, codes, h)
  {
    if eobrun > 0 {
      var u := us[|us| - 1];
      assert GroupItems(u) == u.head + (EobItems(eobrun) + BitItems(bits));
      assert AllItems(us) == AllItems(us[..|us| - 1]) + GroupItems(u);
      hide AllItems, GroupItems, EobItems, BitItems, Flat;
      assert items + EobItems(eobrun) + BitItems(bits) == AllItems(us) + h;
    }
  }

  lemma AddGroup(us: seq<Group>, u: Group)
    ensures AllItems(us + [u]) == AllItems(us) + GroupItems(u) && AllCodes(us + [u]) == AllCodes(us) + GroupCodes(u)
  {
    assert (us + [u])[..|us|] == us;
  }

  /** A block that needed no end of band. */
  lemma FullBlock(items: seq<Item>, us: seq<Group>, codes: seq<BandCode>, h: seq<Item>)
    requires Held(0, [], items, us, codes, h)
    ensures Held(0, [], items, us + [Group(h, [])], codes + [BandCode(h, false, [])], [])
  {
    AddGroup(us, Group(h, []));
    assert GroupItems(Group(h, [])) == h;
    assert GroupCodes(Group(h, [])) == [BandCode(h, false, [])];
    hide AllItems, AllCodes;
  }

  lemma RunBegins(items: seq<Item>, us: seq<Group>, codes: seq<BandCode>, h: seq<Item>, br: seq<bool>)
    requires Held(0, [], items, us, codes, h)
    ensures Held(1, br, items, us + [Group(h, [br])], codes + [BandCode(h, true, br)], [])
  {
    var vs := us + [Group(h, [br])];
    assert Flat([br]) == br by {
      assert [br][1..] == [] && br + [] == br;
    }
    AddGroup(us, Group(h, [br]));
    assert GroupCodes(Group(h, [br])) == [BandCode(h, true, br)];
    assert vs[..|vs| - 1] == us && vs[|vs| - 1] == Group(h, [br]);
    hide AllItems, AllCodes, Flat, GroupItems, GroupCodes;
  }

  lemma RunGoesOn(eobrun: nat, bits: seq<bool>, items: seq<Item>, us: seq<Group>, codes: seq<BandCode>, h: seq<Item>, br: seq<bool>, ws: seq<Group>, u: Group)
    requires Held(eobrun, bits, items, us, codes, h) && 0 < eobrun < 0x7FFF && ws == us[..|us| - 1] && u == us[|us| - 1]
    ensures Held(eobrun + 1, bits + br, items, ws + [Group(u.head, u.tails + [br])], codes + [BandCode(h, true, br)], [])
  {
    var v := Group(u.head, u.tails + [br]);
    LastOf(us, ws, u);
    RunCodes(us, ws, u, br);
    FlatSnoc(u.tails, br);
    LastOf(ws + [v], ws, v);
    hide AllItems, AllCodes, Flat, GroupItems, GroupCodes;
  }

  lemma LastOf(us: seq<Group>, ws: seq<Group>, u: Group)
    ensures us == ws + [u] ==> us != [] && us[..|us| - 1] == ws && us[|us| - 1] == u
    ensures us != [] && us[..|us| - 1] == ws && us[|us| - 1] == u ==> us == ws + [u]
  {
  }

  lemma RunCodes(us: seq<Group>, ws: seq<Group>, u: Group, br: seq<bool>)
    requires us == ws + [u] && u.tails != []
    ensures AllCodes(ws + [Group(u.head, u.tails + [br])]) == AllCodes(us) + [BandCode([], true, br)]
  {
    hide AllCodes, GroupCodes;
    AddGroup(ws, u);
    AddGroup(ws, Group(u.head, u.tails + [br]));
    TailCode(u, br);
    assert AllCodes(ws) + (GroupCodes(u) + [BandCode([], true, br)]) == AllCodes(ws) + GroupCodes(u) + [BandCode([], true, br)];
  }

  lemma TailCode(u: Group, br: seq<bool>)
    requires u.tails != []
    ensures GroupCodes(Group(u.head, u.tails + [br])) == GroupCodes(u) + [BandCode([], true, br)]
  {
  }

  /** A block that ends early begins a run or joins the one held. */
  lemma ShortBlock(eobrun: nat, bits: seq<bool>, items: seq<Item>, us: seq<Group>, codes: seq<BandCode>, h: seq<Item>, br: seq<bool>)
      returns (vs: seq<Group>)
    requires Held(eobrun, bits, items, us, codes, h) && eobrun < 0x7FFF
    ensures Held(eobrun + 1, bits + br, items, vs, codes + [BandCode(h, true, br)], [])
    ensures eobrun == 0 ==> vs == us + [Group(h, [br])]
    ensures eobrun > 0 ==>
      h == [] && us != [] && var u := us[|us| - 1]; vs == us[..|us| - 1] + [Group(u.head, u.tails + [br])]
  {
    if eobrun == 0 {
      vs := us + [Group(h, [br])];
      assert bits == [] && bits + br == br;
      hide *;
      RunBegins(items, us, codes, h, br);
    } else {
      var ws, u := us[..|us| - 1], us[|us| - 1];
      vs := ws + [Group(u.head, u.tails + [br])];
      hide *;
      RunGoesOn(eobrun, bits, items, us, codes, h, br, ws, u);
    }
  }

  // ----- Bit masks

  /** Bit k is set for each coefficient k that satisfies the test. */
  function Mask(v: seq<bool>): nat {
    if v == [] then 0 else (if v[0] then 1 else 0) + 2 * Mask(v[1..])
  }

  lemma {:induction false} MaskSnoc(v: seq<bool>, x: bool)
    ensures Mask(v + [x]) == Mask(v) + if x then Pow2(|v|) else 0
  {
    if v == [] {
      assert v + [x] == [x] && [x][1..] == [];
    } else {
      MaskSnoc(v[1..], x);
      assert (v + [x])[1..] == v[1..] + [x];
    }
  }

  lemma {:induction false} MaskZero(v: seq<bool>)
    requires Mask(v) == 0
    ensures forall i :: 0 <= i < |v| ==> !v[i]
  {
    if v != [] {
      MaskZero(v[1..]);
    }
  }

  /** The coefficients of a band that are not zero. */
  function NonzeroFlags(y: seq<int>, k: nat, se: nat): (r: seq<bool>)
    requires se < |y| && k <= se + 1
    ensures |r| == se + 1 - k
  {
    seq(se + 1 - k, i requires 0 <= i < se + 1 - k => y[k + i] != 0)
  }

  function PositiveFlags(y: seq<int>, k: nat, se: nat): (r: seq<bool>)
    requires se < |y| && k <= se + 1
    ensures |r| == se + 1 - k
  {
    seq(se + 1 - k, i requires 0 <= i < se + 1 - k => y[k + i] > 0)
  }

  /** count_zeroes: shifts out the zeros below the lowest set bit. */
  method CountZeroes(x0: nat, ghost y: seq<int>, ghost k: nat, ghost se: nat) returns (result: nat, x: nat)
    requires se < |y| && k <= se + 1 && x0 == Mask(NonzeroFlags(y, k, se)) && x0 != 0
    ensures k + result <= se && y[k + result] != 0 && forall i :: k <= i < k + result ==> y[i] == 0
    ensures x == Mask(NonzeroFlags(y, k + result, se))
  {
    hide Mask, NonzeroFlags, PositiveFlags;
    result, x := 0, x0;
    while x % 2 == 0
      invariant k + result <= se + 1 && x != 0 && x == Mask(NonzeroFlags(y, k + result, se))
      invariant forall i :: k <= i < k + result ==> y[i] == 0
      decreases x
    {
      MaskShift(y, k + result, se);
      result := result + 1;
      x := x / 2;
    }
    MaskShift(y, k + result, se);
  }

  lemma MaskShift(y: seq<int>, k: nat, se: nat)
    requires se < |y| && k <= se + 1
    ensures Mask(NonzeroFlags(y, k, se)) != 0 ==> k <= se
    ensures k <= se ==> (Mask(NonzeroFlags(y, k, se)) % 2 == 1 <==> y[k] != 0)
    ensures k <= se ==> Mask(NonzeroFlags(y, k, se)) / 2 == Mask(NonzeroFlags(y, k + 1, se))
    ensures k <= se ==> (Mask(PositiveFlags(y, k, se)) % 2 == 1 <==> y[k] > 0)
    ensures k <= se ==> Mask(PositiveFlags(y, k, se)) / 2 == Mask(PositiveFlags(y, k + 1, se))
  {
    hide *;
    if k <= se {
      FlagsStep(y, k, se);
      MaskStep(NonzeroFlags(y, k, se));
      MaskStep(PositiveFlags(y, k, se));
    } else {
      MaskNone(NonzeroFlags(y, k, se));
    }
  }

  lemma MaskStep(v: seq<bool>)
    requires v != []
    ensures (Mask(v) % 2 == 1 <==> v[0]) && Mask(v) / 2 == Mask(v[1..])
  {
  }

  lemma MaskNone(v: seq<bool>)
    requires v == []
    ensures Mask(v) == 0
  {
  }

  lemma FlagsStep(y: seq<int>, k: nat, se: nat)
    requires k <= se < |y|
    ensures NonzeroFlags(y, k, se) != [] && PositiveFlags(y, k, se) != []
    ensures (NonzeroFlags(y, k, se)[0] <==> y[k] != 0) && NonzeroFlags(y, k, se)[1..] == NonzeroFlags(y, k + 1, se)
    ensures (PositiveFlags(y, k, se)[0] <==> y[k] > 0) && PositiveFlags(y, k, se)[1..] == PositiveFlags(y, k + 1, se)
  {
  }

  lemma NothingSet(y: seq<int>, k: nat, se: nat)
    requires se < |y| && k <= se + 1 && Mask(NonzeroFlags(y, k, se)) == 0
    ensures forall i :: k <= i <= se ==> y[i] == 0
  {
    MaskZero(NonzeroFlags(y, k, se));
    forall i | k <= i <= se ensures y[i] == 0 {
      assert !NonzeroFlags(y, k, se)[i - k];
    }
  }

  /** A run of zeros. */
  lemma {:induction false} FirstZeros(y: seq<int>, k: nat, m: nat, r: nat, se: nat)
    requires k <= m <= se + 1 <= |y| && forall i :: k <= i < m ==> y[i] == 0
    ensures FirstFrom(y, k, r, se) == FirstFrom(y, m, r + (m - k), se)
    decreases m - k
  {
    if k < m {
      FirstZeros(y, k + 1, m, r + 1, se);
    }
  }

  lemma {:induction false} RefineZeros(y: seq<int>, k: nat, m: nat, r: nat, br: seq<bool>, eob: nat, se: nat)
    requires k <= m <= se + 1 <= |y| && forall i :: k <= i < m ==> y[i] == 0
    ensures RefineFrom(y, k, r, br, eob, se) == RefineFrom(y, m, r + (m - k), br, eob, se)
    decreases m - k
  {
    if k < m {
      RefineZeros(y, k + 1, m, r + 1, br, eob, se);
    }
  }

  // ----- The encoder

  class BandEncoder {
    var eobrun: nat                   // blocks in the run held back
    var be: nat                       // correction bits held with it
    const bitBuffer: array<bool>
    var items: seq<Item>              // what has been emitted
    ghost var groups: seq<Group>
    ghost var codes: seq<BandCode>    // the blocks encoded

    ghost predicate InBlock(h: seq<Item>)
      reads this, bitBuffer
    {
      && bitBuffer.Length == MAX_CORR_BITS && eobrun <= 0x7FFF && be <= MAX_CORR_BITS
      && Held(eobrun, bitBuffer[..be], items, groups, codes, h) && groups == RunsOf(codes).us
    }

    /** The run held back, if any, is the one that takes another block. */
    ghost predicate InRun(h: seq<Item>)
      reads this
    {
      (eobrun > 0 ==> RunsOf(codes).open) && (h == [] && eobrun == 0 ==> !RunsOf(codes).open)
    }

    /** Between blocks: another run fits its symbol, another block's bits fit the buffer. */
    ghost predicate Valid()
      reads this, bitBuffer
    {
      InBlock([]) && InRun([]) && eobrun < 0x7FFF && be <= MAX_CORR_BITS - DCTSIZE2 + 1
    }

    constructor ()
      ensures Valid() && codes == [] && items == [] && fresh(bitBuffer)
    {
      bitBuffer := new bool[MAX_CORR_BITS];
      eobrun, be, items, groups, codes := 0, 0, [], [], [];
    }

    method EmitSymbol(s: nat)
      modifies this`items
      ensures items == old(items) + [Symbol(s)]
    {
      items := items + [Symbol(s)];
    }

    method EmitBits(code: int, size: nat)
      requires size > 0
      modifies this`items
      ensures 0 <= code % Pow2(size) && items == old(items) + [Raw(code % Pow2(size), size)]
    {
      ModNotNegative(code, Pow2(size));
      items := items + [Raw(code % Pow2(size), size)];
    }

    /** The correction bits in the buffer from start on. */
    method EmitBufferedBits(start: nat, nbits: nat)
      requires start + nbits <= bitBuffer.Length
      modifies this`items
      ensures items == old(items) + BitItems(bitBuffer[start..start + nbits])
    {
      assert items == old(items) + BitItems(bitBuffer[start..start + 0]);
      for i := 0 to nbits
        invariant items == old(items) + BitItems(bitBuffer[start..start + i])
      {
        OneBit(bitBuffer[start..start + i], bitBuffer[start + i]);
        assert bitBuffer[start..start + i + 1] == bitBuffer[start..start + i] + [bitBuffer[start + i]];
        EmitBits(if bitBuffer[start + i] then 1 else 0, 1);
      }
    }

    /** emit_eobrun: the run and its correction bits.  The run always fits its symbol. */
    method EmitEobrun(ghost h: seq<Item>) returns (ok: bool)
      requires InBlock(h)
      modifies this
      ensures ok && InBlock(h) && eobrun == be == 0 && codes == old(codes)
      ensures old(eobrun) == 0 ==> items == old(items)
    {
      hide Pow2, AllItems, AllCodes, RunsFit, BitItems, RunsOf;
      if eobrun > 0 {
        var nbits := NBits(eobrun) - 1;
        EobSmall(eobrun);
        if nbits > 14 {
          return false;
        }
        RunSent(eobrun, bitBuffer[..be], items, groups, codes, h);
        EmitSymbol(nbits * 16);
        if nbits > 0 {
          EmitBits(eobrun, nbits);
        }
        assert items == old(items) + EobItems(eobrun);
        eobrun := 0;
        EmitBufferedBits(0, be);
        be := 0;
        assert bitBuffer[..0] == [];
      }
      ok := true;
    }
  }

  lemma ModNotNegative(x: int, m: nat)
    requires m > 0
    ensures 0 <= x % m
  {
  }

  lemma OneBit(bits: seq<bool>, bit: bool)
    ensures (if bit then 1 else 0) % Pow2(1) == (if bit then 1 else 0)
    ensures BitItems(bits + [bit]) == BitItems(bits) + [Raw(if bit then 1 else 0, 1)]
  {
    assert Pow2(1) == 2;
  }

  /** A run of at most 0x7FFF blocks has at most 14 low bits. */
  lemma EobSmall(n: nat)
    requires 0 < n <= 0x7FFF
    ensures 0 <= NBits(n) - 1 <= 14 && (n > 1 <==> NBits(n) > 1)
    ensures Pow2(NBits(n) - 1) <= n && n % Pow2(NBits(n) - 1) == n - Pow2(NBits(n) - 1)
  {
    RunLength(n);
    if n > 1 {
      NBitsBounds(n);
      assert Pow2(1) == 2;
    }
  }

  // ----- First pass

  /** The prefix of the flags seen so far. */
  lemma FlagsNext(flags: seq<bool>, k: nat)
    requires k < |flags|
    ensures Mask(flags[..k + 1]) == Mask(flags[..k]) + if flags[k] then Pow2(k) else 0
  {
    assert flags[..k + 1] == flags[..k] + [flags[k]];
    MaskSnoc(flags[..k], flags[k]);
  }

  lemma Magnitude(x: int, al: nat)
    ensures 0 <= Abs(x) / Pow2(al) && Abs(Truncate(x, al)) == Abs(x) / Pow2(al)
    ensures Truncate(x, al) != 0 ==> (Truncate(x, al) < 0 <==> x < 0)
  {
    FloorAtLeast(Abs(x), Pow2(al), 0);
  }

  /** encode_mcu_AC_first_prepare: magnitudes and the bits to send for them, in 16-bit words, and
      where they are. */
  method FirstPrepare(block: seq<int>, ss: nat, se: nat, al: nat) returns (values: array<int>, outputs: array<int>, zerobits: nat)
    requires |block| == DCTSIZE2 && Words(block) && 0 < ss <= se < DCTSIZE2
    ensures fresh(values) && fresh(outputs) && values.Length == outputs.Length == DCTSIZE2
    ensures var y := Transform(Zig(block), al);
      && zerobits == Mask(NonzeroFlags(y, ss, se))
      && forall k :: ss <= k <= se && y[k] != 0 ==> KeptAs(values[k - ss], outputs[k - ss], y[k])
  {
    hide Order, Mask, Pow2, Truncate, KeptAs;
    values, outputs := new int[DCTSIZE2](_ => 0), new int[DCTSIZE2](_ => 0);
    ghost var y := Transform(Zig(block), al);
    ghost var flags := NonzeroFlags(y, ss, se);
    zerobits := 0;
    assert Mask(flags[..0]) == 0 by { NoFlags(flags); }
    for k := 0 to se + 1 - ss
      invariant zerobits == Mask(flags[..k])
      invariant forall j :: ss <= j < ss + k && y[j] != 0 ==> KeptAs(values[j - ss], outputs[j - ss], y[j])
    {
      FlagsNext(flags, k);
      var temp := block[Order(ss + k)];
      assert y[ss + k] == Truncate(temp, al) && flags[k] == (y[ss + k] != 0);
      Magnitude(temp, al);
      var negative, magnitude: nat := temp < 0, Abs(temp) / Pow2(al);
      if magnitude != 0 {
        KeptWords(y[ss + k]);
        values[k], outputs[k] := ToCoef(magnitude), ToCoef(if negative then -1 - magnitude else magnitude);
        zerobits := zerobits + Pow2(k);
      }
    }
    assert flags[..se + 1 - ss] == flags;
  }

  /** The stored magnitude and bits of the nonzero value v. */
  ghost predicate KeptAs(value: int, output: int, v: int) {
    value == ToCoef(Abs(v)) && output == ToCoef(if v < 0 then -1 - Abs(v) else Abs(v))
  }

  lemma KeptWords(v: int)
    ensures KeptAs(ToCoef(Abs(v)), ToCoef(if v < 0 then -1 - Abs(v) else Abs(v)), v)
  {
  }

  /** Only the smallest word does not come back as it is. */
  lemma KeptWell(value: int, output: int, v: int)
    requires KeptAs(value, output, v) && -0x8000 <= v < 0x8000 && v != 0
    ensures value < 0 <==> v == SMALLEST
    ensures v != SMALLEST ==> value == Abs(v) && output == if v < 0 then -1 - Abs(v) else Abs(v)
    ensures v == SMALLEST ==> NBits(Abs(v)) > MAX_COEF_BITS
  {
    SmallestOut();
    assert ToCoef(0x8000) == -0x8000;
    hide NBits;
  }

  lemma NoFlags(flags: seq<bool>)
    ensures Mask(flags[..0]) == 0
  {
  }

  lemma Extended(items: seq<Item>, us: seq<Group>, codes: seq<BandCode>, h: seq<Item>, ys: seq<Item>)
    requires Held(0, [], items, us, codes, h)
    ensures Held(0, [], items + ys, us, codes, h + ys)
  {
    hide AllItems, AllCodes, RunsFit;
    assert AllItems(us) + h + ys == AllItems(us) + (h + ys);
  }

  /** What the encoder has yet to do for the band, having emitted h and reached coefficient k. */
  ghost predicate FirstLeft(y: seq<int>, ss: nat, k: nat, se: nat, h: seq<Item>) {
    se < |y| && FirstFrom(y, ss, 0, se) == Prefixed(h, FirstFrom(y, k, 0, se))
  }

  lemma PrefixedTwice(xs: seq<Item>, ys: seq<Item>, c: BandCode)
    ensures Prefixed(xs, Prefixed(ys, c)) == Prefixed(xs + ys, c)
  {
    assert xs + (ys + c.head) == xs + ys + c.head;
  }

  lemma FirstLeftNext(y: seq<int>, ss: nat, k: nat, r: nat, se: nat, h: seq<Item>)
    requires FirstLeft(y, ss, k, se, h) && k + r <= se && y[k + r] != 0 && forall i :: k <= i < k + r ==> y[i] == 0
    ensures FirstLeft(y, ss, k + r + 1, se, h + ZrlItems(r) + FirstValue(r % 16, y[k + r]))
  {
    var xs := ZrlItems(r) + FirstValue(r % 16, y[k + r]);
    assert FirstFrom(y, k + r, r, se) == Prefixed(xs, FirstFrom(y, k + r + 1, 0, se));
    assert h + ZrlItems(r) + FirstValue(r % 16, y[k + r]) == h + xs;
    hide FirstFrom, ZrlItems, FirstValue, Prefixed;
    FirstZeros(y, k, k + r, 0, se);
    PrefixedTwice(h, xs, FirstFrom(y, k + r + 1, 0, se));
  }

  lemma FirstLeftEnd(y: seq<int>, ss: nat, k: nat, se: nat, h: seq<Item>)
    requires FirstLeft(y, ss, k, se, h) && k <= se + 1 && forall i :: k <= i <= se ==> y[i] == 0
    ensures FirstFrom(y, ss, 0, se) == BandCode(h, k <= se, [])
  {
    FirstZeros(y, k, se + 1, 0, se);
    assert h + [] == h;
  }

  lemma ComplementBits(v: int)
    requires v != 0
    ensures NBits(Abs(v)) > 0
    ensures (if v < 0 then -1 - Abs(v) else Abs(v)) % Pow2(NBits(Abs(v))) == ExtraOf(v)
  {
    HuffmanEncoder.LowBits(v);
  }

  /** The special codes for each sixteen zeros of a run. */
  method EmitZrls(e: BandEncoder, r0: nat, ghost h: seq<Item>) returns (r: nat)
    requires e.InBlock(h) && e.eobrun == 0
    modifies e
    ensures e.InBlock(h + ZrlItems(r0)) && e.eobrun == e.be == 0 && e.codes == old(e.codes) && r == r0 % 16
  {
    hide Held, AllItems, AllCodes, RunsFit, RunsOf;
    r := r0;
    ghost var g := h;
    NothingHeld(e.eobrun, e.bitBuffer[..e.be], e.items, e.groups, e.codes, h);
    while r > 15
      invariant e.InBlock(g) && e.eobrun == e.be == 0 && e.codes == old(e.codes)
      invariant r % 16 == r0 % 16 && g + ZrlItems(r) == h + ZrlItems(r0)
    {
      Extended(e.items, e.groups, e.codes, g, [Symbol(0xF0)]);
      assert g + ZrlItems(r) == g + [Symbol(0xF0)] + ZrlItems(r - 16);
      assert e.bitBuffer[..0] == [];
      e.EmitSymbol(0xF0);
      g := g + [Symbol(0xF0)];
      r := r - 16;
    }
    assert g + [] == g;
  }

  lemma NothingHeld(eobrun: nat, bits: seq<bool>, items: seq<Item>, us: seq<Group>, codes: seq<BandCode>, h: seq<Item>)
    requires Held(eobrun, bits, items, us, codes, h) && eobrun == 0
    ensures bits == []
  {
  }

  /** What becomes of a block: it is coded, or it has a coefficient out of range, or, where the number
      of bits is looked up, the table is asked for a negative magnitude. */
  datatype Outcome = Coded | BadCoef | OutsideTable

  /** A value's symbol and bits, if it is in range. */
  method EmitFirstValue(e: BandEncoder, r: nat, temp: int, temp2: int, ghost v: int, ghost h: seq<Item>) returns (o: Outcome)
    requires e.InBlock(h) && e.eobrun == e.be == 0
    requires r < 16 && v != 0 && -0x8000 <= v < 0x8000 && KeptAs(temp, temp2, v)
    modifies e
    ensures o.Coded? <==> NBits(Abs(v)) <= MAX_COEF_BITS
    ensures o.OutsideTable? <==> v == SMALLEST
    ensures o.Coded? ==> e.InBlock(h + FirstValue(r, v)) && e.eobrun == e.be == 0 && e.codes == old(e.codes)
  {
    KeptWell(temp, temp2, v);
    ComplementBits(v);
    hide Held, AllItems, AllCodes, RunsFit, NBits, ExtraOf, Pow2, RunsOf, KeptAs;
    assert e.bitBuffer[..0] == [];
    if temp < 0 {
      return OutsideTable;
    }
    var nbits := NBits(temp);
    if nbits > MAX_COEF_BITS {
      return BadCoef;
    }
    Extended(e.items, e.groups, e.codes, h, FirstValue(r, v));
    ghost var was := e.items;
    e.EmitSymbol(r * 16 + nbits);
    e.EmitBits(temp2, nbits);
    assert e.items == was + FirstValue(r, v);
    o := Coded;
  }

  /** Where the encoder is in a first pass: at coefficient k, having emitted h of this block. */
  ghost predicate AtFirst(e: BandEncoder, y: seq<int>, ss: nat, k: nat, se: nat, h: seq<Item>, zerobits: nat)
    reads e, e.bitBuffer
  {
    && e.InBlock(h) && e.eobrun < 0x7FFF && e.be <= MAX_CORR_BITS - DCTSIZE2 + 1
    && (h != [] || zerobits != 0 ==> e.eobrun == 0) && (k > ss ==> h != []) && (zerobits == 0 ==> e.InRun(h))
    && 0 < ss <= k <= se + 1 <= |y| && FirstLeft(y, ss, k, se, h) && zerobits == Mask(NonzeroFlags(y, k, se))
  }

  /** The arrays that the preparation fills. */
  ghost predicate Prepared(y: seq<int>, ss: nat, se: nat, values: seq<int>, outputs: seq<int>) {
    && 0 < ss <= se < |y| && |values| == |outputs| == DCTSIZE2 && se < DCTSIZE2 && Words(y)
    && forall k :: ss <= k <= se && y[k] != 0 ==> KeptAs(values[k - ss], outputs[k - ss], y[k])
  }

  lemma PreparedAt(y: seq<int>, ss: nat, se: nat, values: seq<int>, outputs: seq<int>, k: nat)
    requires Prepared(y, ss, se, values, outputs) && ss <= k <= se && y[k] != 0
    ensures KeptAs(values[k - ss], outputs[k - ss], y[k]) && -0x8000 <= y[k] < 0x8000
  {
    hide KeptAs;
  }

  lemma FirstAdvances(y: seq<int>, ss: nat, k: nat, r: nat, se: nat, h: seq<Item>)
    requires FirstLeft(y, ss, k, se, h) && k + r <= se && y[k + r] != 0 && forall i :: k <= i < k + r ==> y[i] == 0
    ensures FirstLeft(y, ss, k + r + 1, se, h + ZrlItems(r) + FirstValue(r % 16, y[k + r]))
    ensures Mask(NonzeroFlags(y, k + r, se)) / 2 == Mask(NonzeroFlags(y, k + r + 1, se))
  {
    FirstLeftNext(y, ss, k, r, se, h);
    MaskShift(y, k + r, se);
  }

  /** One turn of ENCODE_COEFS_AC_FIRST. */
  method FirstTurn(e: BandEncoder, ghost y: seq<int>, ss: nat, k0: nat, se: nat, values: array<int>, outputs: array<int>,
                   ghost h0: seq<Item>, zerobits0: nat)
      returns (o: Outcome, k: nat, zerobits: nat, ghost h: seq<Item>)
    requires AtFirst(e, y, ss, k0, se, h0, zerobits0) && zerobits0 != 0
    requires Prepared(y, ss, se, values[..], outputs[..])
    modifies e
    ensures k0 < k <= se + 1 <= |y| && y[k - 1] != 0 && forall i :: k0 <= i < k - 1 ==> y[i] == 0
    ensures o.Coded? <==> NBits(Abs(y[k - 1])) <= MAX_COEF_BITS
    ensures o.OutsideTable? <==> y[k - 1] == SMALLEST
    ensures o.Coded? ==> AtFirst(e, y, ss, k, se, h, zerobits) && e.codes == old(e.codes)
  {
    hide FirstLeft, Mask, NonzeroFlags, ZrlItems, NBits, BandEncoder.InBlock, Prepared, RunsOf, KeptAs;
    var r, x := CountZeroes(zerobits0, y, k0, se);
    k := k0 + r;
    FirstAdvances(y, ss, k0, r, se, h0);
    PreparedAt(y, ss, se, values[..], outputs[..], k);
    assert k - ss < values.Length && values.Length == outputs.Length by { hide *; PreparedShape(y, ss, se, values[..], outputs[..]); }
    var temp, temp2 := values[k - ss], outputs[k - ss];
    r := EmitZrls(e, r, h0);
    o := EmitFirstValue(e, r, temp, temp2, y[k], h0 + ZrlItems(k - k0));
    h := h0 + ZrlItems(k - k0) + FirstValue(r, y[k]);
    k, zerobits := k + 1, x / 2;
  }

  lemma PreparedShape(y: seq<int>, ss: nat, se: nat, values: seq<int>, outputs: seq<int>)
    requires Prepared(y, ss, se, values, outputs)
    ensures |values| == |outputs| == DCTSIZE2 && se < DCTSIZE2 && ss > 0
  {
  }

  /** The block ends early: it joins the run, which is sent if it could not take another block. */
  method EndEarly(e: BandEncoder, ghost h: seq<Item>, nbr: nat)
    requires e.InBlock(h) && e.InRun(h) && e.eobrun < 0x7FFF && e.be <= MAX_CORR_BITS - DCTSIZE2 + 1 && nbr < DCTSIZE2
    modifies e
    ensures e.Valid() && e.codes == old(e.codes) + [BandCode(h, true, old(e.bitBuffer[e.be..e.be + nbr]))]
  {
    hide Held, AllItems, AllCodes, RunsFit, RunsOf, TakesMore;
    ghost var br := e.bitBuffer[e.be..e.be + nbr];
    RunsSnoc(e.codes, BandCode(h, true, br));
    HeldRun(e.eobrun, e.bitBuffer[..e.be], e.items, e.groups, e.codes, h);
    e.groups := ShortBlock(e.eobrun, e.bitBuffer[..e.be], e.items, e.groups, e.codes, h, br);
    e.codes := e.codes + [BandCode(h, true, br)];
    assert e.bitBuffer[..e.be + nbr] == e.bitBuffer[..e.be] + br;
    e.eobrun, e.be := e.eobrun + 1, e.be + nbr;
    RunFull(e.eobrun, e.bitBuffer[..e.be], e.items, e.groups, e.codes);
    if e.eobrun == 0x7FFF || e.be > MAX_CORR_BITS - DCTSIZE2 + 1 {
      var ok := e.EmitEobrun([]);
    }
  }

  lemma HeldRun(eobrun: nat, bits: seq<bool>, items: seq<Item>, us: seq<Group>, codes: seq<BandCode>, h: seq<Item>)
    requires Held(eobrun, bits, items, us, codes, h)
    ensures eobrun > 0 ==> us != [] && h == []
  {
  }

  lemma RunFull(eobrun: nat, bits: seq<bool>, items: seq<Item>, us: seq<Group>, codes: seq<BandCode>)
    requires Held(eobrun, bits, items, us, codes, []) && 0 < eobrun <= 0x7FFF
    ensures us != [] && (TakesMore(us[|us| - 1].tails) <==> eobrun < 0x7FFF && |bits| <= MAX_CORR_BITS - DCTSIZE2 + 1)
  {
    hide Flat, AllItems, AllCodes;
  }

  /** The block needed no end of band. */
  lemma EndFull(e: BandEncoder, h: seq<Item>)
    requires e.InBlock(h) && e.eobrun == 0
    ensures Held(0, [], e.items, e.groups + [Group(h, [])], e.codes + [BandCode(h, false, [])], []) && e.be == 0 && e.bitBuffer[..0] == []
  {
    NothingHeld(e.eobrun, e.bitBuffer[..e.be], e.items, e.groups, e.codes, h);
    hide Held;
    FullBlock(e.items, e.groups, e.codes, h);
  }

  method FinishFull(e: BandEncoder, ghost h: seq<Item>)
    requires e.InBlock(h) && e.eobrun == 0
    modifies e
    ensures e.Valid() && e.codes == old(e.codes) + [BandCode(h, false, [])]
  {
    hide Held, RunsOf;
    EndFull(e, h);
    RunsSnoc(e.codes, BandCode(h, false, []));
    e.groups, e.codes := e.groups + [Group(h, [])], e.codes + [BandCode(h, false, [])];
  }

  ghost predicate RangeUpTo(y: seq<int>, ss: nat, k: nat) {
    forall i :: ss <= i < k && i < |y| ==> NBits(Abs(y[i])) <= MAX_COEF_BITS
  }

  lemma RangeGrows(y: seq<int>, ss: nat, k0: nat, k: nat)
    requires RangeUpTo(y, ss, k0) && k0 < k <= |y| && forall i :: k0 <= i < k - 1 ==> y[i] == 0
    ensures RangeUpTo(y, ss, k) <==> (ss <= k - 1 ==> NBits(Abs(y[k - 1])) <= MAX_COEF_BITS)
  {
    assert NBits(Abs(0)) == 0;
    hide NBits;
  }

  lemma RangeDone(y: seq<int>, ss: nat, k: nat, se: nat)
    requires se < |y| && k <= se + 1
    ensures BandInRange(y, ss, se) ==> RangeUpTo(y, ss, k)
    ensures RangeUpTo(y, ss, k) && (forall i :: k <= i <= se ==> y[i] == 0) ==> BandInRange(y, ss, se)
  {
    assert NBits(Abs(0)) == 0;
    hide NBits;
  }

  lemma FirstBegins(y: seq<int>, ss: nat, se: nat)
    requires se < |y|
    ensures FirstLeft(y, ss, ss, se, []) && RangeUpTo(y, ss, ss)
  {
    assert Prefixed([], FirstFrom(y, ss, 0, se)) == FirstFrom(y, ss, 0, se) by {
      assert [] + FirstFrom(y, ss, 0, se).head == FirstFrom(y, ss, 0, se).head;
    }
  }

  /** The first coefficient of the band that is out of range is the smallest word. */
  ghost predicate SmallestFirst(y: seq<int>, ss: nat, se: nat) {
    exists k :: ss <= k <= se && k < |y| && y[k] == SMALLEST && RangeUpTo(y, ss, k)
  }

  lemma StopsAt(y: seq<int>, ss: nat, k0: nat, k: nat, se: nat)
    requires ss <= k0 < k <= se + 1 <= |y| && RangeUpTo(y, ss, k0) && forall i :: k0 <= i < k - 1 ==> y[i] == 0
    requires NBits(Abs(y[k - 1])) > MAX_COEF_BITS
    ensures !BandInRange(y, ss, se) && (SmallestFirst(y, ss, se) <==> y[k - 1] == SMALLEST)
  {
    assert NBits(Abs(0)) == 0;
    hide NBits;
    assert RangeUpTo(y, ss, k - 1);
    SmallestOut();
    forall i: nat | ss <= i <= se && y[i] == SMALLEST && RangeUpTo(y, ss, i) ensures i == k - 1 {
      assert i <= k - 1 by { hide *; RangeStops(y, ss, i, k - 1); }
    }
  }

  lemma RangeStops(y: seq<int>, ss: nat, i: nat, j: nat)
    requires RangeUpTo(y, ss, i) && ss <= j < |y| && NBits(Abs(y[j])) > MAX_COEF_BITS
    ensures i <= j
  {
    hide NBits;
  }

  lemma SmallestOut()
    ensures NBits(Abs(SMALLEST)) > MAX_COEF_BITS
  {
    NBitsBounds(0x8000);
    Pow2Mono(if NBits(0x8000) < 10 then NBits(0x8000) else 10, 10);
    Pow2Table();
  }

  lemma InRangeNoSmallest(y: seq<int>, ss: nat, se: nat)
    requires BandInRange(y, ss, se) && se < |y|
    ensures !SmallestFirst(y, ss, se) && NoSmallest(y, ss, se)
  {
    SmallestOut();
    hide NBits;
  }

  lemma BlockWords(block: seq<int>, al: nat)
    requires |block| == DCTSIZE2 && Words(block)
    ensures Words(Zig(block)) && Words(Transform(Zig(block), al))
  {
    hide Order;
    assert forall k :: 0 <= k < 64 ==> Zig(block)[k] == block[Order(k)];
    StorableIff(Band(1, 1, al, true), Zig(block));
  }

  /** The end of a block in a first pass. */
  method FinishFirst(e: BandEncoder, ghost y: seq<int>, ss: nat, k: nat, se: nat, ghost h: seq<Item>)
    requires ss <= se && AtFirst(e, y, ss, k, se, h, 0) && RangeUpTo(y, ss, k)
    modifies e
    ensures BandInRange(y, ss, se) && !SmallestFirst(y, ss, se)
    ensures e.Valid() && e.codes == old(e.codes) + [FirstFrom(y, ss, 0, se)]
  {
    hide FirstFrom, NBits, Held, Mask, NonzeroFlags, FirstLeft, BandInRange, RangeUpTo, RunsOf, SmallestFirst;
    NothingSet(y, k, se);
    RangeDone(y, ss, k, se);
    FirstLeftEnd(y, ss, k, se, h);
    if k <= se {
      assert e.bitBuffer[e.be..e.be + 0] == [];
      EndEarly(e, h, 0);
    } else {
      FinishFull(e, h);
    }
    InRangeNoSmallest(y, ss, se);
  }

  /** encode_mcu_AC_first. */
  method EncodeFirst(e: BandEncoder, block: seq<int>, ss: nat, se: nat, al: nat) returns (o: Outcome)
    requires e.Valid() && |block| == DCTSIZE2 && Words(block) && 0 < ss <= se < DCTSIZE2
    modifies e
    ensures o.Coded? <==> BandInRange(Transform(Zig(block), al), ss, se)
    ensures o.OutsideTable? <==> SmallestFirst(Transform(Zig(block), al), ss, se)
    ensures o.Coded? ==> e.Valid() && e.codes == old(e.codes) + [FirstFrom(Transform(Zig(block), al), ss, 0, se)]
  {
    BlockWords(block, al);
    hide FirstFrom, Zig, Transform, NBits, Held, Mask, NonzeroFlags, FirstLeft, BandInRange, RangeUpTo, RunsOf, Words, SmallestFirst, KeptAs;
    ghost var y := Transform(Zig(block), al);
    assert |y| == DCTSIZE2;
    ghost var h: seq<Item> := [];
    var values, outputs, zerobits := FirstPrepare(block, ss, se, al);
    assert Prepared(y, ss, se, values[..], outputs[..]);
    FirstBegins(y, ss, se);
    hide Prepared;
    if zerobits != 0 && e.eobrun > 0 {
      var sent := e.EmitEobrun(h);
    }
    var k := ss;
    while zerobits != 0
      invariant AtFirst(e, y, ss, k, se, h, zerobits) && RangeUpTo(y, ss, k) && e.codes == old(e.codes)
      invariant Prepared(y, ss, se, values[..], outputs[..])
      decreases se + 1 - k
    {
      ghost var k0 := k;
      o, k, zerobits, h := FirstTurn(e, y, ss, k, se, values, outputs, h, zerobits);
      RangeGrows(y, ss, k0, k);
      if !o.Coded? {
        StopsAt(y, ss, k0, k, se);
        return;
      }
    }
    FinishFirst(e, y, ss, k, se, h);
    o := Coded;
  }

  // ----- Refinement

  /** eob, counted from the start of the band, is the last new coefficient below m, or 0. */
  ghost predicate EobAt(y: seq<int>, ss: nat, m: nat, eob: nat) {
    || (eob == 0 && NoneNew(y, ss, m))
    || (ss + eob < m <= |y| && Abs(y[ss + eob]) == 1 && NoneNew(y, ss + eob + 1, m))
  }

  lemma EobNext(y: seq<int>, ss: nat, m: nat, eob: nat)
    requires ss <= m < |y| && EobAt(y, ss, m, eob)
    ensures Abs(y[m]) == 1 ==> EobAt(y, ss, m + 1, m - ss)
    ensures Abs(y[m]) != 1 ==> EobAt(y, ss, m + 1, eob)
  {
  }

  /** The encoder's test for folding zeros into an end of band. */
  lemma EobTest(y: seq<int>, ss: nat, se: nat, eob: nat, k: nat, r: nat)
    requires 0 < ss <= k <= se < |y| && EobAt(y, ss, se + 1, eob) && r <= k - ss
    ensures r > 15 && k - ss <= eob <==> r > 15 && k <= LastNew(y, se)
    ensures Abs(y[k]) == 1 ==> k <= LastNew(y, se)
  {
    var p := LastNew(y, se);
    if p >= ss {
      assert Abs(y[p]) == 1;
    }
  }

  /** The magnitudes of the band, each in its 16-bit word. */
  ghost predicate StoredAll(y: seq<int>, ss: nat, se: nat, values: seq<int>) {
    |values| == DCTSIZE2 && 0 < ss && se < |y| && se < DCTSIZE2 && forall k :: ss <= k <= se ==> values[k - ss] == ToCoef(Abs(y[k]))
  }

  lemma StoredAt(y: seq<int>, ss: nat, se: nat, values: seq<int>, k: nat)
    requires StoredAll(y, ss, se, values) && ss <= k <= se
    ensures k - ss < |values| && values[k - ss] == ToCoef(Abs(y[k]))
  {
    hide ToCoef, Abs;
  }

  /** encode_mcu_AC_refine_prepare: magnitudes in 16-bit words, where they are not zero, which of them are
      positive, and the last new one. */
  method RefinePrepare(block: seq<int>, ss: nat, se: nat, al: nat)
      returns (absvalues: array<int>, zerobits: nat, signbits: nat, eob: nat)
    requires |block| == DCTSIZE2 && 0 < ss <= se < DCTSIZE2
    ensures fresh(absvalues)
    ensures var y := Transform(Zig(block), al);
      && zerobits == Mask(NonzeroFlags(y, ss, se)) && signbits == Mask(PositiveFlags(y, ss, se))
      && EobAt(y, ss, se + 1, eob) && StoredAll(y, ss, se, absvalues[..])
  {
    hide Order, Mask, Pow2, Truncate, EobAt, ToCoef;
    absvalues := new int[DCTSIZE2](_ => 0);
    ghost var y := Transform(Zig(block), al);
    ghost var flags, signs := NonzeroFlags(y, ss, se), PositiveFlags(y, ss, se);
    zerobits, signbits, eob := 0, 0, 0;
    assert Mask(flags[..0]) == Mask(signs[..0]) == 0 && EobAt(y, ss, ss, 0) by { hide *; NoFlags(flags); NoFlags(signs); EobFirst(y, ss); }
    for k := 0 to se + 1 - ss
      invariant zerobits == Mask(flags[..k]) && signbits == Mask(signs[..k]) && EobAt(y, ss, ss + k, eob)
      invariant forall j :: ss <= j < ss + k ==> absvalues[j - ss] == ToCoef(Abs(y[j]))
    {
      FlagsNext(flags, k);
      FlagsNext(signs, k);
      EobNext(y, ss, ss + k, eob);
      var temp := block[Order(ss + k)];
      assert y[ss + k] == Truncate(temp, al) && flags[k] == (y[ss + k] != 0) && signs[k] == (y[ss + k] > 0);
      Magnitude(temp, al);
      var negative, magnitude: nat := temp < 0, Abs(temp) / Pow2(al);
      if magnitude != 0 {
        zerobits := zerobits + Pow2(k);
        signbits := signbits + if negative then 0 else Pow2(k);
      }
      absvalues[k] := ToCoef(magnitude);
      if magnitude == 1 {
        eob := k;
      }
    }
    assert flags[..se + 1 - ss] == flags && signs[..se + 1 - ss] == signs;
  }

  lemma EobFirst(y: seq<int>, ss: nat)
    ensures EobAt(y, ss, ss, 0)
  {
  }

  /** Shifting the signs along. */
  lemma {:induction false} SignsShift(y: seq<int>, k: nat, n: nat, se: nat)
    requires se < |y| && k + n <= se + 1
    ensures 0 <= Mask(PositiveFlags(y, k, se)) / Pow2(n) == Mask(PositiveFlags(y, k + n, se))
    decreases n
  {
    if n == 0 {
      assert Pow2(0) == 1;
    } else {
      SignsShift(y, k + 1, n - 1, se);
      MaskShift(y, k, se);
      var v, p := Mask(PositiveFlags(y, k, se)), Pow2(n - 1);
      assert Pow2(n) == 2 * p;
      hide Mask, Pow2, PositiveFlags;
      HalvedFirst(v, p);
    }
  }

  lemma HalvedFirst(v: nat, p: nat)
    requires p > 0
    ensures v / (2 * p) == v / 2 / p
  {
    var q, r := v / 2 / p, v / 2 % p;
    FloorBounds(v / 2, p);
    assert v == 2 * (v / 2) + v % 2;
    assert v == 2 * (q * p) + (2 * r + v % 2);
    assert 2 * (q * p) == q * (2 * p);
    DivUnique(v, 2 * p, q, 2 * r + v % 2);
  }

  /** What the encoder has yet to do, having emitted h, with r zeros and the bits br pending. */
  ghost predicate RefineLeft(y: seq<int>, ss: nat, k: nat, r: nat, br: seq<bool>, eob: nat, se: nat, h: seq<Item>) {
    se < |y| && RefineFrom(y, ss, 0, [], eob, se) == Prefixed(h, RefineFrom(y, k, r, br, eob, se))
  }

  lemma LeftPrefixed(y: seq<int>, ss: nat, k: nat, r: nat, br: seq<bool>, k2: nat, r2: nat, br2: seq<bool>, eob: nat, se: nat,
                     h: seq<Item>, xs: seq<Item>)
    requires RefineLeft(y, ss, k, r, br, eob, se, h)
    requires RefineFrom(y, k, r, br, eob, se) == Prefixed(xs, RefineFrom(y, k2, r2, br2, eob, se))
    ensures RefineLeft(y, ss, k2, r2, br2, eob, se, h + xs)
  {
    hide RefineFrom, Prefixed;
    PrefixedTwice(h, xs, RefineFrom(y, k2, r2, br2, eob, se));
  }

  lemma LeftZeros(y: seq<int>, ss: nat, k: nat, n: nat, r: nat, br: seq<bool>, eob: nat, se: nat, h: seq<Item>)
    requires RefineLeft(y, ss, k, r, br, eob, se, h) && k + n <= se + 1 && forall i :: k <= i < k + n ==> y[i] == 0
    ensures RefineLeft(y, ss, k + n, r + n, br, eob, se, h)
  {
    hide RefineFrom, Prefixed;
    RefineZeros(y, k, k + n, r, br, eob, se);
  }

  lemma LeftZrl(y: seq<int>, ss: nat, k: nat, r: nat, br: seq<bool>, eob: nat, se: nat, h: seq<Item>)
    requires RefineLeft(y, ss, k, r, br, eob, se, h) && k <= se && y[k] != 0 && r > 15 && k <= eob
    ensures RefineLeft(y, ss, k, r - 16, [], eob, se, h + ([Symbol(0xF0)] + BitItems(br)))
  {
    var xs := [Symbol(0xF0)] + BitItems(br);
    assert RefineFrom(y, k, r, br, eob, se) == Prefixed(xs, RefineFrom(y, k, r - 16, [], eob, se));
    hide RefineFrom, RefineLeft;
    LeftPrefixed(y, ss, k, r, br, k, r - 16, [], eob, se, h, xs);
  }

  lemma LeftKnown(y: seq<int>, ss: nat, k: nat, r: nat, br: seq<bool>, eob: nat, se: nat, h: seq<Item>)
    requires RefineLeft(y, ss, k, r, br, eob, se, h) && k <= se && Abs(y[k]) > 1 && !(r > 15 && k <= eob)
    ensures RefineLeft(y, ss, k + 1, r, br + [CorrectionBit(y[k])], eob, se, h)
  {
    assert RefineFrom(y, k, r, br, eob, se) == RefineFrom(y, k + 1, r, br + [CorrectionBit(y[k])], eob, se);
    hide RefineFrom;
  }

  lemma LeftNew(y: seq<int>, ss: nat, k: nat, r: nat, br: seq<bool>, eob: nat, se: nat, h: seq<Item>)
    requires RefineLeft(y, ss, k, r, br, eob, se, h) && k <= se && Abs(y[k]) == 1 && !(r > 15 && k <= eob)
    ensures RefineLeft(y, ss, k + 1, 0, [], eob, se, h + (NewItems(r, y[k] < 0) + BitItems(br)))
  {
    var xs := NewItems(r, y[k] < 0) + BitItems(br);
    assert RefineFrom(y, k, r, br, eob, se) == Prefixed(xs, RefineFrom(y, k + 1, 0, [], eob, se));
    hide RefineFrom, RefineLeft;
    LeftPrefixed(y, ss, k, r, br, k + 1, 0, [], eob, se, h, xs);
  }

  lemma LeftEnd(y: seq<int>, ss: nat, k: nat, r: nat, br: seq<bool>, eob: nat, se: nat, h: seq<Item>)
    requires RefineLeft(y, ss, k, r, br, eob, se, h) && k <= se + 1 && forall i :: k <= i <= se ==> y[i] == 0
    ensures RefineFrom(y, ss, 0, [], eob, se) == BandCode(h, r + (se + 1 - k) > 0 || br != [], br)
  {
    LeftZeros(y, ss, k, se + 1 - k, r, br, eob, se, h);
    assert h + [] == h;
  }

  /** Where the encoder is in a refinement: at coefficient k, with r zeros and the bits br since
      the last symbol; eob is absolute. */
  ghost predicate AtRefine(e: BandEncoder, y: seq<int>, ss: nat, k: nat, se: nat, r: nat, br: seq<bool>, eob: nat, h: seq<Item>)
    reads e, e.bitBuffer
  {
    && e.InBlock(h) && e.InRun(h) && e.eobrun < 0x7FFF && e.be <= MAX_CORR_BITS - DCTSIZE2 + 1 && (h != [] ==> e.eobrun == 0)
    && 0 < ss <= k <= se + 1 <= |y| == DCTSIZE2 && RefineLeft(y, ss, k, r, br, eob, se, h)
    && r <= k - ss && |br| <= k - ss && (k > ss && r == 0 && br == [] ==> h != [])
    && e.bitBuffer[e.be..e.be + |br|] == br
  }

  /** The run held back, then symbols, then the bits that go with them. */
  method EmitWithBits(e: BandEncoder, ghost h: seq<Item>, symbol: nat, sign: int, nbr: nat)
    requires e.InBlock(h) && e.be + nbr <= MAX_CORR_BITS && -1 <= sign <= 1
    modifies e
    ensures e.eobrun == e.be == 0 && e.codes == old(e.codes)
    ensures e.InBlock(h + ([Symbol(symbol)] + (if sign >= 0 then [Raw(sign, 1)] else []) + BitItems(old(e.bitBuffer[e.be..e.be + nbr]))))
  {
    hide Held, AllItems, AllCodes, RunsFit, BitItems, RunsOf;
    var start := e.be;  // BR_buffer
    ghost var br := e.bitBuffer[start..start + nbr];
    ghost var xs := [Symbol(symbol)] + (if sign >= 0 then [Raw(sign, 1)] else []) + BitItems(br);
    var ok := e.EmitEobrun(h);
    assert e.bitBuffer[..0] == [];
    ghost var was := e.items;
    Extended(was, e.groups, e.codes, h, xs);
    e.EmitSymbol(symbol);
    if sign >= 0 {
      OneBit([], sign == 1);
      e.EmitBits(sign, 1);
    }
    e.EmitBufferedBits(start, nbr);
    assert e.items == was + xs;
  }

  lemma ZrlItem(bits: seq<Item>)
    ensures [Symbol(0xF0)] + [] + bits == [Symbol(0xF0)] + bits
  {
  }

  /** A run of sixteen zeros and the bits before its end. */
  method RefineZrl(e: BandEncoder, ghost y: seq<int>, ghost ss: nat, ghost k: nat, ghost se: nat, r: nat, ghost br: seq<bool>, nbr: nat,
                   ghost eob: nat, ghost h: seq<Item>)
      returns (ghost g: seq<Item>)
    requires AtRefine(e, y, ss, k, se, r, br, eob, h) && nbr == |br| && k <= se && y[k] != 0 && r > 15 && k <= eob
    modifies e
    ensures g != [] && AtRefine(e, y, ss, k, se, r - 16, [], eob, g) && e.codes == old(e.codes) && e.be == 0
  {
    hide RefineLeft, BandEncoder.InBlock, BitItems, RunsOf;
    assert e.bitBuffer.Length == MAX_CORR_BITS by { hide *; BufferSize(e, h); }
    LeftZrl(y, ss, k, r, br, eob, se, h);
    ZrlItem(BitItems(br));
    EmitWithBits(e, h, 0xF0, -1, nbr);
    g := h + ([Symbol(0xF0)] + BitItems(br));
    assert e.bitBuffer[0..0] == [];
  }

  lemma BufferSize(e: BandEncoder, h: seq<Item>)
    requires e.InBlock(h)
    ensures e.bitBuffer.Length == MAX_CORR_BITS
  {
  }

  lemma NewItem(r: nat, negative: bool, bits: seq<Item>)
    ensures [Symbol(r * 16 + 1)] + [Raw(if negative then 0 else 1, 1)] + bits == NewItems(r, negative) + bits
  {
  }

  /** A coefficient that has just become nonzero. */
  method RefineNewCoef(e: BandEncoder, ghost y: seq<int>, ghost ss: nat, ghost k: nat, ghost se: nat, r: nat, ghost br: seq<bool>, nbr: nat,
                       ghost eob: nat, ghost h: seq<Item>, sign: int)
      returns (ghost g: seq<Item>)
    requires AtRefine(e, y, ss, k, se, r, br, eob, h) && nbr == |br| && k <= se && Abs(y[k]) == 1 && !(r > 15 && k <= eob)
    requires sign == if y[k] < 0 then 0 else 1
    modifies e
    ensures AtRefine(e, y, ss, k + 1, se, 0, [], eob, g) && e.codes == old(e.codes) && e.be == 0
  {
    hide RefineLeft, BandEncoder.InBlock, BitItems, RunsOf;
    assert e.bitBuffer.Length == MAX_CORR_BITS by { hide *; BufferSize(e, h); }
    LeftNew(y, ss, k, r, br, eob, se, h);
    NewItem(r, y[k] < 0, BitItems(br));
    EmitWithBits(e, h, r * 16 + 1, sign, nbr);
    g := h + (NewItems(r, y[k] < 0) + BitItems(br));
    assert e.bitBuffer[0..0] == [];
  }

  lemma BufferGrows(buffer: seq<bool>, was: seq<bool>, be: nat, br: seq<bool>, bit: bool)
    requires be + |br| < |was| == |buffer| && was[be..be + |br|] == br && buffer == was[be + |br| := bit]
    ensures buffer[be..be + |br| + 1] == br + [bit] && buffer[..be] == was[..be]
  {
  }

  /** A coefficient that was nonzero before: its correction bit goes into the buffer. */
  method RefineKnown(e: BandEncoder, ghost y: seq<int>, ghost ss: nat, ghost k: nat, ghost se: nat, ghost r: nat, ghost br: seq<bool>, nbr: nat,
                     ghost eob: nat, ghost h: seq<Item>, temp: nat)
    requires AtRefine(e, y, ss, k, se, r, br, eob, h) && nbr == |br| && k <= se && temp == Abs(y[k]) > 1 && !(r > 15 && k <= eob)
    modifies e.bitBuffer
    ensures AtRefine(e, y, ss, k + 1, se, r, br + [CorrectionBit(y[k])], eob, h)
  {
    hide RefineLeft, Held, RunsOf;
    LeftKnown(y, ss, k, r, br, eob, se, h);
    ghost var was := e.bitBuffer[..];
    assert e.bitBuffer[..e.be] == was[..e.be];
    e.bitBuffer[e.be + nbr] := temp % 2 == 1;
    BufferGrows(e.bitBuffer[..], was, e.be, br, temp % 2 == 1);
    assert e.bitBuffer[..e.be] == e.bitBuffer[..][..e.be];
    assert e.bitBuffer[e.be..e.be + nbr + 1] == e.bitBuffer[..][e.be..e.be + nbr + 1];
  }

  lemma AfterZeros(e: BandEncoder, y: seq<int>, ss: nat, k: nat, n: nat, se: nat, r: nat, br: seq<bool>, eob: nat, h: seq<Item>)
    requires AtRefine(e, y, ss, k, se, r, br, eob, h) && k + n <= se && y[k + n] != 0 && forall i :: k <= i < k + n ==> y[i] == 0
    ensures AtRefine(e, y, ss, k + n, se, r + n, br, eob, h)
  {
    hide RefineLeft, BandEncoder.InBlock, RunsOf;
    LeftZeros(y, ss, k, n, r, br, eob, se, h);
  }

  lemma AtRefineShape(e: BandEncoder, y: seq<int>, ss: nat, k: nat, se: nat, r: nat, br: seq<bool>, eob: nat, h: seq<Item>)
    requires AtRefine(e, y, ss, k, se, r, br, eob, h)
    ensures 0 < ss <= k <= se + 1 <= |y| == DCTSIZE2 && r <= k - ss
  {
  }

  /** What the stored magnitude of a coefficient says. */
  lemma StoredSays(y: seq<int>, k: nat, temp: int)
    requires k < |y| && Words(y) && y[k] != 0 && temp == ToCoef(Abs(y[k]))
    ensures AllTaken(y)[k] != 0 && (AllTaken(y)[k] < 0 <==> y[k] < 0)
    ensures temp > 1 ==> temp == Abs(AllTaken(y)[k]) && CorrectionBit(AllTaken(y)[k]) == (temp % 2 == 1)
    ensures temp <= 1 ==> Abs(AllTaken(y)[k]) == 1
  {
    TakenIs(y[k]);
    hide ToCoef, Taken;
  }

  /** Coefficient k, which is not zero, after r zeros; t is the band as its stored magnitudes show it. */
  method RefineCoef(e: BandEncoder, ghost y: seq<int>, ghost t: seq<int>, ss: nat, k: nat, se: nat, r0: nat, ghost br0: seq<bool>, nbr0: nat,
                    eobRel: nat, ghost h0: seq<Item>, temp: int, sign: int)
      returns (r: nat, nbr: nat, ghost br: seq<bool>, ghost h: seq<Item>)
    requires se < |y| && Words(y) && t == AllTaken(y)
    requires AtRefine(e, t, ss, k, se, r0, br0, LastNew(y, se), h0) && nbr0 == |br0| && k <= se && y[k] != 0
    requires EobAt(y, ss, se + 1, eobRel) && temp == ToCoef(Abs(y[k])) && sign == if y[k] < 0 then 0 else 1
    modifies e, e.bitBuffer
    ensures AtRefine(e, t, ss, k + 1, se, r, br, LastNew(y, se), h) && nbr == |br| && e.codes == old(e.codes)
  {
    hide *;
    ghost var eob := LastNew(y, se);
    AtRefineShape(e, t, ss, k, se, r0, br0, eob, h0);
    EobTest(y, ss, se, eobRel, k, r0);
    StoredSays(y, k, temp);
    r, nbr, br, h := r0, nbr0, br0, h0;
    while r > 15 && k - ss <= eobRel
      invariant AtRefine(e, t, ss, k, se, r, br, eob, h) && nbr == |br| && e.codes == old(e.codes) && r <= r0
    {
      EobTest(y, ss, se, eobRel, k, r);
      h := RefineZrl(e, t, ss, k, se, r, br, nbr, eob, h);
      r, nbr, br := r - 16, 0, [];
    }
    EobTest(y, ss, se, eobRel, k, r);
    if temp > 1 {
      RefineKnown(e, t, ss, k, se, r, br, nbr, eob, h, temp);
      nbr, br := nbr + 1, br + [CorrectionBit(t[k])];
    } else {
      h := RefineNewCoef(e, t, ss, k, se, r, br, nbr, eob, h, sign);
      r, nbr, br := 0, 0, [];
    }
  }

  lemma TakenZeros(y: seq<int>, ss: nat, m: nat)
    requires Words(y)
    ensures forall i :: ss <= i < m && i < |y| ==> (AllTaken(y)[i] == 0 <==> y[i] == 0)
  {
    forall i | ss <= i < m && i < |y| ensures AllTaken(y)[i] == 0 <==> y[i] == 0 {
      TakenIs(y[i]);
    }
  }

  /** One turn of ENCODE_COEFS_AC_REFINE. */
  method RefineTurn(e: BandEncoder, ghost y: seq<int>, ghost t: seq<int>, ss: nat, k0: nat, se: nat, r0: nat, ghost br0: seq<bool>, nbr0: nat,
                    eobRel: nat, ghost h0: seq<Item>, absvalues: array<int>, zerobits0: nat, signbits0: nat)
      returns (k: nat, r: nat, nbr: nat, zerobits: nat, signbits: nat, ghost br: seq<bool>, ghost h: seq<Item>)
    requires se < |y| && Words(y) && t == AllTaken(y)
    requires AtRefine(e, t, ss, k0, se, r0, br0, LastNew(y, se), h0) && nbr0 == |br0| && k0 <= se + 1 && 0 < ss <= k0
    requires EobAt(y, ss, se + 1, eobRel) && zerobits0 != 0
    requires zerobits0 == Mask(NonzeroFlags(y, k0, se)) && signbits0 == Mask(PositiveFlags(y, k0, se))
    requires StoredAll(y, ss, se, absvalues[..])
    modifies e, e.bitBuffer
    ensures k0 < k <= se + 1 && zerobits == Mask(NonzeroFlags(y, k, se)) && signbits == Mask(PositiveFlags(y, k, se))
    ensures AtRefine(e, t, ss, k, se, r, br, LastNew(y, se), h) && nbr == |br| && e.codes == old(e.codes)
  {
    hide AtRefine, EobAt, LastNew, Mask, NonzeroFlags, PositiveFlags, Abs, ToCoef, AllTaken, Taken, Words, StoredAll;
    var idx, x := CountZeroes(zerobits0, y, k0, se);
    TakenZeros(y, k0, k0 + idx + 1);
    AfterZeros(e, t, ss, k0, idx, se, r0, br0, LastNew(y, se), h0);
    SignsShift(y, k0, idx, se);
    k, signbits := k0 + idx, signbits0 / Pow2(idx);
    MaskShift(y, k, se);
    StoredAt(y, ss, se, absvalues[..], k);
    var temp, sign := absvalues[k - ss], signbits % 2;
    r, nbr, br, h := RefineCoef(e, y, t, ss, k, se, r0 + idx, br0, nbr0, eobRel, h0, temp, sign);
    k, zerobits, signbits := k + 1, x / 2, signbits / 2;
  }

  lemma RefineBegins(e: BandEncoder, y: seq<int>, ss: nat, se: nat, eob: nat)
    requires e.Valid() && 0 < ss <= se < |y| == DCTSIZE2
    ensures AtRefine(e, y, ss, ss, se, 0, [], eob, [])
  {
    assert [] + RefineFrom(y, ss, 0, [], eob, se).head == RefineFrom(y, ss, 0, [], eob, se).head;
    assert e.bitBuffer[e.be..e.be + 0] == [];
    hide RefineFrom, Held, RunsOf;
  }

  /** The end of a refined block. */
  method RefineEnd(e: BandEncoder, ghost y: seq<int>, ss: nat, k: nat, se: nat, r: nat, ghost br: seq<bool>, nbr: nat, ghost eob: nat, ghost h: seq<Item>)
    requires AtRefine(e, y, ss, k, se, r, br, eob, h) && nbr == |br| && k <= se + 1 && ss <= se
    requires forall i :: k <= i <= se ==> y[i] == 0
    modifies e
    ensures e.Valid() && e.codes == old(e.codes) + [RefineFrom(y, ss, 0, [], eob, se)]
  {
    hide RefineLeft, RefineFrom, Held, RunsOf;
    LeftEnd(y, ss, k, r, br, eob, se, h);
    if r + (se + 1 - k) > 0 || nbr > 0 {
      EndEarly(e, h, nbr);
    } else {
      FinishFull(e, h);
    }
  }

  /** The end of a block in a refinement. */
  method FinishRefine(e: BandEncoder, ghost y: seq<int>, ghost t: seq<int>, ss: nat, k: nat, se: nat, r: nat, ghost br: seq<bool>, nbr: nat, ghost h: seq<Item>)
    requires se < |y| && Words(y) && t == AllTaken(y) && ss <= se && k <= se + 1 && Mask(NonzeroFlags(y, k, se)) == 0
    requires AtRefine(e, t, ss, k, se, r, br, LastNew(y, se), h) && nbr == |br|
    modifies e
    ensures e.Valid() && e.codes == old(e.codes) + [RefineFrom(t, ss, 0, [], LastNew(y, se), se)]
  {
    hide AtRefine, LastNew, Mask, NonzeroFlags, AllTaken, Taken, Words, RefineFrom;
    NothingSet(y, k, se);
    TakenZeros(y, k, se + 1);
    RefineEnd(e, t, ss, k, se, r, br, nbr, LastNew(y, se), h);
  }

  /** encode_mcu_AC_refine. */
  method EncodeRefine(e: BandEncoder, block: seq<int>, ss: nat, se: nat, al: nat)
    requires e.Valid() && |block| == DCTSIZE2 && Words(block) && 0 < ss <= se < DCTSIZE2
    modifies e, e.bitBuffer
    ensures e.Valid()
    ensures var y := Transform(Zig(block), al);
      e.codes == old(e.codes) + [RefineFrom(AllTaken(y), ss, 0, [], LastNew(y, se), se)]
  {
    assert DCTSIZE2 == 64;
    hide *;
    BlockWords(block, al);
    ghost var y := Transform(Zig(block), al);
    ghost var t := AllTaken(y);
    ghost var h: seq<Item>, br: seq<bool> := [], [];
    var absvalues, zerobits, signbits, eobRel := RefinePrepare(block, ss, se, al);
    RefineBegins(e, t, ss, se, LastNew(y, se));
    var k: nat, r: nat, nbr: nat := ss, 0, 0;
    while zerobits != 0
      invariant ss <= k <= se + 1 && AtRefine(e, t, ss, k, se, r, br, LastNew(y, se), h) && nbr == |br| && e.codes == old(e.codes)
      invariant zerobits == Mask(NonzeroFlags(y, k, se)) && signbits == Mask(PositiveFlags(y, k, se))
      invariant StoredAll(y, ss, se, absvalues[..])
      decreases se + 1 - k
    {
      k, r, nbr, zerobits, signbits, br, h := RefineTurn(e, y, t, ss, k, se, r, br, nbr, eobRel, h, absvalues, zerobits, signbits);
    }
    FinishRefine(e, y, t, ss, k, se, r, br, nbr, h);
  }
}
