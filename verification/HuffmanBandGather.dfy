/** Two passes over a progressive AC scan: the tables built from the symbols that the first pass
    counts code every symbol that the second pass emits. */
module HuffmanBandGather {
  import opened Coefficients
  import opened Digits
  import opened HuffmanCost
  import opened HuffmanDepth
  import opened HuffmanMerge
  import opened HuffmanBlock
  import opened HuffmanEncoder
  import opened HuffmanTables
  import opened HuffmanGather
  import opened NaturalOrder
  import opened Refine
  import Scans
  import opened HuffmanBands
  import opened HuffmanBandStore
  import opened HuffmanBandsInvert
  import opened HuffmanBandScan
  import opened HuffmanBandEncoder
  import opened HuffmanBandCodec

  // ----- The symbols among the items

  function SymsOf(ys: seq<Item>): seq<Sym> {
    if ys == [] then [] else (match ys[0] case Symbol(s) => [Sym(s, 0, 0)] case Raw(_, _) => []) + SymsOf(ys[1..])
  }

  lemma {:induction false} SymsConcat(xs: seq<Item>, ys: seq<Item>)
    ensures SymsOf(xs + ys) == SymsOf(xs) + SymsOf(ys)
  {
    hide *;
    if xs == [] {
      NoItemsFirst(ys);
    } else {
      SymsConcat(xs[1..], ys);
      TailOfBoth(xs, ys);
      SymsFirst(xs);
      SymsFirst(xs + ys);
      if xs[0].Symbol? {
        SymsAssoc([Sym(xs[0].s, 0, 0)], SymsOf(xs[1..]), SymsOf(ys));
      }
    }
  }

  lemma NoItemsFirst(ys: seq<Item>)
    ensures SymsOf([] + ys) == SymsOf([]) + SymsOf(ys)
  {
    assert [] + ys == ys && [] + SymsOf(ys) == SymsOf(ys);
  }

  lemma TailOfBoth(xs: seq<Item>, ys: seq<Item>)
    requires xs != []
    ensures (xs + ys)[0] == xs[0] && (xs + ys)[1..] == xs[1..] + ys
  {
  }

  lemma SymsAssoc(a: seq<Sym>, b: seq<Sym>, c: seq<Sym>)
    ensures (a + b) + c == a + (b + c)
  {
  }

  lemma {:induction false} NoSyms(bits: seq<bool>)
    ensures SymsOf(BitItems(bits)) == []
  {
    if bits != [] {
      NoSyms(bits[1..]);
      assert BitItems(bits)[1..] == BitItems(bits[1..]);
    }
  }

  lemma {:induction false} SymbolAmong(ys: seq<Item>, i: nat)
    requires i < |ys| && ys[i].Symbol?
    ensures exists j :: 0 <= j < |SymsOf(ys)| && SymsOf(ys)[j].s == ys[i].s
  {
    if i == 0 {
      assert SymsOf(ys)[0].s == ys[0].s;
    } else {
      SymbolAmong(ys[1..], i - 1);
      var j :| 0 <= j < |SymsOf(ys[1..])| && SymsOf(ys[1..])[j].s == ys[i].s;
      var n := |SymsOf(ys)| - |SymsOf(ys[1..])|;
      assert SymsOf(ys)[n + j] == SymsOf(ys[1..])[j];
    }
  }

  /** At most n symbols, of categories that an AC table may have; if tame, all are bytes. */
  ghost predicate Few(ys: seq<Item>, n: nat, tame: bool) {
    && |SymsOf(ys)| <= n
    && forall i :: 0 <= i < |SymsOf(ys)| ==> var s := SymsOf(ys)[i].s; s % 16 <= MAX_COEF_BITS && s != 256 && (tame ==> s < 256)
  }

  lemma FewBoth(xs: seq<Item>, m: nat, ys: seq<Item>, n: nat, tame: bool)
    requires Few(xs, m, tame) && Few(ys, n, tame)
    ensures Few(xs + ys, m + n, tame)
  {
    SymsConcat(xs, ys);
    hide SymsOf;
  }

  lemma FewOne(s: nat, tame: bool)
    requires s != 256 && s % 16 <= MAX_COEF_BITS && (tame ==> s < 256)
    ensures Few([Symbol(s)], 1, tame)
  {
    assert [Symbol(s)][1..] == [];
  }

  lemma FewNone(bits: seq<bool>, tame: bool)
    ensures Few(BitItems(bits), 0, tame) && Few([], 0, tame)
  {
    NoSyms(bits);
  }

  lemma FewRaw(v: nat, n: nat, tame: bool)
    ensures Few([Raw(v, n)], 0, tame)
  {
    assert [Raw(v, n)][1..] == [];
  }

  // ----- One band

  lemma {:induction false} FewZrls(r: nat, tame: bool)
    ensures Few(ZrlItems(r), r / 16, tame)
  {
    if r < 16 {
      FewNone([], tame);
    } else {
      FewZrls(r - 16, tame);
      FewOne(0xF0, tame);
      hide Few;
      FewBoth([Symbol(0xF0)], 1, ZrlItems(r - 16), (r - 16) / 16, tame);
    }
  }

  lemma FewValue(run: nat, v: int, tame: bool)
    requires run < 16 && NBits(Abs(v)) <= MAX_COEF_BITS
    ensures Few(FirstValue(run, v), 1, tame)
  {
    var n := NBits(Abs(v));
    FewOne(run * 16 + n, tame);
    FewRaw(ExtraOf(v), n, tame);
    assert FirstValue(run, v) == [Symbol(run * 16 + n)] + [Raw(ExtraOf(v), n)];
    hide Few, NBits, ExtraOf;
    FewBoth([Symbol(run * 16 + n)], 1, [Raw(ExtraOf(v), n)], 0, tame);
  }

  /** The band emits a symbol at some time: one of its own, or an end of band. */
  ghost predicate Live(c: BandCode) {
    c.ended || SymsOf(c.head) != []
  }

  lemma LiveAfter(y: Item, xs: seq<Item>, c: BandCode)
    requires y.Symbol?
    ensures Live(Prefixed([y] + xs, c))
  {
    assert ([y] + xs + c.head)[0] == y;
  }

  lemma {:induction false} FirstSyms(y: seq<int>, k: nat, r: nat, se: nat, tame: bool)
    requires k <= se + 1 <= |y| && BandInRange(y, k, se)
    ensures Few(FirstFrom(y, k, r, se).head, se + 1 - k + r, tame)
    ensures k <= se || r > 0 ==> Live(FirstFrom(y, k, r, se))
    decreases se + 1 - k
  {
    hide *;
    if k > se {
      FirstOver(y, k, r, se);
      FewNone([], tame);
      MoreAllowed([], 0, se + 1 - k + r, tame);
    } else {
      InRangeNext(y, k, se);
      FirstNext(y, k, r, se);
      if y[k] == 0 {
        FirstSyms(y, k + 1, r + 1, se, tame);
      } else {
        FirstSyms(y, k + 1, 0, se, tame);
        FewZrls(r, tame);
        FewValue(r % 16, y[k], tame);
        FewBoth(ZrlItems(r), r / 16, FirstValue(r % 16, y[k]), 1, tame);
        FewBoth(ZrlItems(r) + FirstValue(r % 16, y[k]), r / 16 + 1, FirstFrom(y, k + 1, 0, se).head, se - k, tame);
        MoreAllowed(FirstFrom(y, k, r, se).head, r / 16 + 1 + (se - k), se + 1 - k + r, tame);
      }
    }
  }

  lemma MoreAllowed(ys: seq<Item>, m: nat, n: nat, tame: bool)
    requires Few(ys, m, tame) && m <= n
    ensures Few(ys, n, tame)
  {
    hide SymsOf;
  }

  lemma FirstOver(y: seq<int>, k: nat, r: nat, se: nat)
    requires k == se + 1 <= |y|
    ensures FirstFrom(y, k, r, se) == BandCode([], r > 0, []) && (r > 0 ==> Live(FirstFrom(y, k, r, se)))
  {
  }

  lemma InRangeNext(y: seq<int>, k: nat, se: nat)
    requires k <= se < |y| && BandInRange(y, k, se)
    ensures NBits(Abs(y[k])) <= MAX_COEF_BITS && BandInRange(y, k + 1, se)
  {
    hide NBits;
  }

  lemma FirstNext(y: seq<int>, k: nat, r: nat, se: nat)
    requires k <= se < |y|
    ensures y[k] == 0 ==> FirstFrom(y, k, r, se) == FirstFrom(y, k + 1, r + 1, se)
    ensures y[k] != 0 ==>
      && FirstFrom(y, k, r, se).head == ZrlItems(r) + FirstValue(r % 16, y[k]) + FirstFrom(y, k + 1, 0, se).head
      && Live(FirstFrom(y, k, r, se))
  {
    if y[k] != 0 {
      var xs := ZrlItems(r) + FirstValue(r % 16, y[k]);
      assert xs[0].Symbol? && xs == [xs[0]] + xs[1..];
      assert FirstFrom(y, k, r, se) == Prefixed(xs, FirstFrom(y, k + 1, 0, se));
      hide FirstFrom, ZrlItems, FirstValue, Live;
      LiveAfter(xs[0], xs[1..], FirstFrom(y, k + 1, 0, se));
    }
  }

  /** No coefficient from k on and after eob is new. */
  ghost predicate NoneAfter(y: seq<int>, k: nat, eob: nat, se: nat) {
    forall i :: k <= i <= se && eob < i && i < |y| ==> Abs(y[i]) != 1
  }

  lemma NoneLater(y: seq<int>, k: nat, eob: nat, se: nat)
    requires NoneAfter(y, k, eob, se)
    ensures NoneAfter(y, k + 1, eob, se)
  {
  }

  lemma {:induction false} RefineSyms(y: seq<int>, k: nat, r: nat, br: seq<bool>, eob: nat, se: nat, tame: bool)
    requires k <= se + 1 <= |y| && (tame ==> NoneAfter(y, k, eob, se))
    ensures Few(RefineFrom(y, k, r, br, eob, se).head, se + 1 - k + r, tame)
    ensures k <= se || r > 0 || br != [] ==> Live(RefineFrom(y, k, r, br, eob, se))
    decreases se + 1 - k, r
  {
    hide *;
    if tame {
      NoneLater(y, k, eob, se);
    }
    if k > se {
      RefineOver(y, k, r, br, eob, se);
      FewNone([], tame);
      MoreAllowed([], 0, se + 1 - k + r, tame);
    } else if y[k] == 0 {
      RefineNext(y, k, r, br, eob, se);
      RefineSyms(y, k + 1, r + 1, br, eob, se, tame);
    } else if r > 15 && k <= eob {
      RefineNext(y, k, r, br, eob, se);
      RefineSyms(y, k, r - 16, [], eob, se, tame);
      FewOne(0xF0, tame);
      FewNone(br, tame);
      FewBoth([Symbol(0xF0)], 1, BitItems(br), 0, tame);
      FewBoth([Symbol(0xF0)] + BitItems(br), 1, RefineFrom(y, k, r - 16, [], eob, se).head, se + 1 - k + (r - 16), tame);
      MoreAllowed(RefineFrom(y, k, r, br, eob, se).head, 1 + (se + 1 - k + (r - 16)), se + 1 - k + r, tame);
    } else if Known(y[k]) {
      RefineNext(y, k, r, br, eob, se);
      RefineSyms(y, k + 1, r, br + [CorrectionBit(y[k])], eob, se, tame);
      MoreAllowed(RefineFrom(y, k, r, br, eob, se).head, se - k + r, se + 1 - k + r, tame);
    } else {
      RefineNext(y, k, r, br, eob, se);
      if tame {
        NewShort(y, k, r, eob, se);
      }
      RefineSyms(y, k + 1, 0, [], eob, se, tame);
      FewNew(r, y[k] < 0, tame);
      FewNone(br, tame);
      FewBoth(NewItems(r, y[k] < 0), 1, BitItems(br), 0, tame);
      FewBoth(NewItems(r, y[k] < 0) + BitItems(br), 1, RefineFrom(y, k + 1, 0, [], eob, se).head, se - k, tame);
      MoreAllowed(RefineFrom(y, k, r, br, eob, se).head, 1 + (se - k), se + 1 - k + r, tame);
    }
  }

  lemma FewNew(r: nat, negative: bool, tame: bool)
    requires tame ==> r <= 15
    ensures Few(NewItems(r, negative), 1, tame)
  {
    var v := if negative then 0 else 1;
    FewOne(r * 16 + 1, tame);
    FewRaw(v, 1, tame);
    assert NewItems(r, negative) == [Symbol(r * 16 + 1)] + [Raw(v, 1)];
    hide Few;
    FewBoth([Symbol(r * 16 + 1)], 1, [Raw(v, 1)], 0, tame);
  }

  /** A new coefficient follows at most fifteen zeros, longer runs having been sent. */
  lemma NewShort(y: seq<int>, k: nat, r: nat, eob: nat, se: nat)
    requires k <= se < |y| && NoneAfter(y, k, eob, se) && y[k] != 0 && !Known(y[k]) && !(r > 15 && k <= eob)
    ensures r <= 15
  {
    assert Abs(y[k]) == 1;
  }

  lemma RefineOver(y: seq<int>, k: nat, r: nat, br: seq<bool>, eob: nat, se: nat)
    requires k == se + 1 <= |y|
    ensures RefineFrom(y, k, r, br, eob, se) == BandCode([], r > 0 || br != [], br)
    ensures r > 0 || br != [] ==> Live(RefineFrom(y, k, r, br, eob, se))
  {
  }

  lemma RefineNext(y: seq<int>, k: nat, r: nat, br: seq<bool>, eob: nat, se: nat)
    requires k <= se < |y|
    ensures y[k] == 0 ==> RefineFrom(y, k, r, br, eob, se) == RefineFrom(y, k + 1, r + 1, br, eob, se)
    ensures y[k] != 0 && r > 15 && k <= eob ==>
      && RefineFrom(y, k, r, br, eob, se).head == [Symbol(0xF0)] + BitItems(br) + RefineFrom(y, k, r - 16, [], eob, se).head
      && Live(RefineFrom(y, k, r, br, eob, se))
    ensures y[k] != 0 && !(r > 15 && k <= eob) && Known(y[k]) ==>
      RefineFrom(y, k, r, br, eob, se) == RefineFrom(y, k + 1, r, br + [CorrectionBit(y[k])], eob, se)
      && br + [CorrectionBit(y[k])] != []
    ensures y[k] != 0 && !(r > 15 && k <= eob) && !Known(y[k]) ==>
      && RefineFrom(y, k, r, br, eob, se).head == NewItems(r, y[k] < 0) + BitItems(br) + RefineFrom(y, k + 1, 0, [], eob, se).head
      && Live(RefineFrom(y, k, r, br, eob, se))
  {
    if y[k] != 0 && r > 15 && k <= eob {
      hide Live, BitItems;
      LiveAfter(Symbol(0xF0), BitItems(br), RefineFrom(y, k, r - 16, [], eob, se));
    } else if y[k] != 0 && !Known(y[k]) {
      var xs := NewItems(r, y[k] < 0) + BitItems(br);
      assert xs[0].Symbol? && xs == [xs[0]] + xs[1..];
      hide Live, NewItems, BitItems;
      LiveAfter(xs[0], xs[1..], RefineFrom(y, k + 1, 0, [], eob, se));
    }
  }

  /** A block's own symbols, and that it has any or ends early. */
  lemma CodeSyms(g: Band, y: seq<int>, tame: bool)
    requires BandOk(g) && |y| == DCTSIZE2 && (g.refine || BandInRange(y, g.ss, g.se))
    requires tame && g.refine ==> Words(y) && NoSmallest(y, g.ss, g.se)
    ensures Few(CodeSent(g, y).head, 63, tame) && Live(CodeSent(g, y))
  {
    hide Few, Live, FirstFrom, RefineFrom, BandInRange, LastNew, AllTaken, NoneAfter, NoSmallest, Words;
    if g.refine {
      if tame {
        TakenAfter(y, g.ss, g.se);
      }
      RefineSyms(AllTaken(y), g.ss, 0, [], LastNew(y, g.se), g.se, tame);
    } else {
      FirstSyms(y, g.ss, 0, g.se, tame);
    }
    MoreAllowed(CodeSent(g, y).head, g.se + 1 - g.ss, 63, tame);
  }

  lemma TakenAfter(y: seq<int>, ss: nat, se: nat)
    requires se < |y| && Words(y) && NoSmallest(y, ss, se)
    ensures NoneAfter(AllTaken(y), ss, LastNew(y, se), se)
  {
    LastNewIs(y, se);
    hide LastNew;
    forall i | ss <= i <= se && LastNew(y, se) < i ensures Abs(AllTaken(y)[i]) != 1 {
      TakenIs(y[i]);
      assert y[i] != SMALLEST && Abs(y[i]) != 1;
    }
  }

  // ----- A scan

  lemma FewEob(n: nat, tame: bool)
    requires 0 < n <= 0x7FFF
    ensures Few(EobItems(n), 1, tame)
  {
    hide *;
    RunLength(n);
    EobIs(n);
    FewOne((NBits(n) - 1) * 16, tame);
    FewEobRaw(n, tame);
    FewBoth([Symbol((NBits(n) - 1) * 16)], 1, EobRaw(n), 0, tame);
  }

  lemma EobIs(n: nat)
    requires n > 0
    ensures NBits(n) > 0 && EobItems(n) == [Symbol((NBits(n) - 1) * 16)] + EobRaw(n)
    ensures NBits(n) - 1 <= 14 ==> (NBits(n) - 1) * 16 < 256 && (NBits(n) - 1) * 16 % 16 <= MAX_COEF_BITS
  {
    NBitsBounds(n);
    hide NBits, EobRaw;
  }

  lemma FewEobRaw(n: nat, tame: bool)
    requires n > 0
    ensures Few(EobRaw(n), 0, tame)
  {
    NBitsBounds(n);
    hide Few, NBits;
    if n > 1 {
      FewRaw(EobRaw(n)[0].v, EobRaw(n)[0].n, tame);
      assert EobRaw(n) == [Raw(EobRaw(n)[0].v, EobRaw(n)[0].n)];
    } else {
      FewNone([], tame);
    }
  }

  lemma GroupSyms(u: Group, tame: bool)
    requires Few(u.head, 63, tame) && |u.tails| <= 0x7FFF && (u.tails == [] ==> SymsOf(u.head) != [])
    ensures Few(GroupItems(u), 64, tame) && SymsOf(GroupItems(u)) != []
  {
    hide *;
    GroupItemsAre(u);
    if u.tails == [] {
      MoreAllowed(u.head, 63, 64, tame);
    } else {
      var run, bits := EobItems(|u.tails|), BitItems(Flat(u.tails));
      FewEob(|u.tails|, tame);
      FewNone(Flat(u.tails), tame);
      FewBoth(run, 1, bits, 0, tame);
      FewBoth(u.head, 63, run + bits, 1, tame);
      SymsConcat(u.head, run + bits);
      SymsConcat(run, bits);
      EobIsSymbol(|u.tails|);
    }
  }

  lemma GroupItemsAre(u: Group)
    ensures GroupItems(u) == if u.tails == [] then u.head else u.head + (EobItems(|u.tails|) + BitItems(Flat(u.tails)))
  {
    hide EobItems, BitItems, Flat;
    assert u.head + [] == u.head;
  }

  lemma EobIsSymbol(n: nat)
    requires n > 0
    ensures SymsOf(EobItems(n)) != []
  {
    hide NBits, EobRaw;
  }

  /** Every code is that of a block. */
  ghost predicate CodesLive(codes: seq<BandCode>, tame: bool) {
    forall i :: 0 <= i < |codes| ==> Few(codes[i].head, 63, tame) && Live(codes[i])
  }

  lemma {:induction false} AllSyms(us: seq<Group>, tame: bool)
    requires RunsFit(us) && CodesLive(AllCodes(us), tame)
    ensures Few(AllItems(us), 64 * |AllCodes(us)|, tame) && (AllCodes(us) != [] ==> SymsOf(AllItems(us)) != [])
    decreases |us|
  {
    hide *;
    if us == [] {
      NoGroups(us);
      FewNone([], tame);
    } else {
      var vs, u := us[..|us| - 1], us[|us| - 1];
      LastLive(us, vs, u, tame);
      AllSyms(vs, tame);
      GroupSyms(u, tame);
      ItemsLast(us, vs, u);
      FewBoth(AllItems(vs), 64 * |AllCodes(vs)|, GroupItems(u), 64, tame);
      MoreAllowed(AllItems(us), 64 * |AllCodes(vs)| + 64, 64 * |AllCodes(us)|, tame);
      SymsConcat(AllItems(vs), GroupItems(u));
    }
  }

  lemma NoGroups(us: seq<Group>)
    requires us == []
    ensures AllItems(us) == [] && AllCodes(us) == []
  {
  }

  lemma ItemsLast(us: seq<Group>, vs: seq<Group>, u: Group)
    requires us != [] && vs == us[..|us| - 1] && u == us[|us| - 1]
    ensures AllItems(us) == AllItems(vs) + GroupItems(u)
  {
    hide GroupItems;
  }

  lemma LastLive(us: seq<Group>, vs: seq<Group>, u: Group, tame: bool)
    requires us != [] && vs == us[..|us| - 1] && u == us[|us| - 1] && RunsFit(us) && CodesLive(AllCodes(us), tame)
    ensures RunsFit(vs) && CodesLive(AllCodes(vs), tame) && |u.tails| <= 0x7FFF && |AllCodes(us)| > |AllCodes(vs)|
    ensures Few(u.head, 63, tame) && (u.tails == [] ==> SymsOf(u.head) != [])
  {
    hide *;
    AllCodesLast(us, vs, u);
    LivePrefix(AllCodes(us), AllCodes(vs), GroupCodes(u), tame);
    GroupNotEmpty(u);
    GroupCodeAt(u, 0);
    LiveHead(u, tame);
    RunsFitLast(us, vs, u);
  }

  lemma LivePrefix(codes: seq<BandCode>, a: seq<BandCode>, b: seq<BandCode>, tame: bool)
    requires codes == a + b && CodesLive(codes, tame)
    ensures CodesLive(a, tame) && (b != [] ==> |codes| > |a| && Few(b[0].head, 63, tame) && Live(b[0]))
  {
    hide Few, Live;
    assert forall i :: 0 <= i < |a| ==> a[i] == codes[i];
    if b != [] {
      assert b[0] == codes[|a|];
    }
  }

  lemma GroupNotEmpty(u: Group)
    ensures GroupSize(u) > 0 && GroupCodes(u) != []
  {
  }

  lemma LiveHead(u: Group, tame: bool)
    requires GroupSize(u) > 0 && Few(GroupCode(u, 0).head, 63, tame) && Live(GroupCode(u, 0))
    ensures Few(u.head, 63, tame) && (u.tails == [] ==> SymsOf(u.head) != [])
  {
    hide Few, SymsOf;
  }

  lemma RunsFitLast(us: seq<Group>, vs: seq<Group>, u: Group)
    requires us != [] && vs == us[..|us| - 1] && u == us[|us| - 1] && RunsFit(us)
    ensures RunsFit(vs) && |u.tails| <= 0x7FFF
  {
  }

  /** The symbols of a scan: at most 64 for each block, and at least one; of AC categories, and bytes
      unless a refinement meets a magnitude too large for its word. */
  lemma BandSyms(g: Band, ys: seq<Block>, us: seq<Group>, tame: bool)
    requires BandOk(g) && GathersSent(g, ys, |ys|, us) && FirstInRange(g, ys, |ys|)
    requires tame && g.refine ==> forall i :: 0 <= i < |ys| ==> Words(ys[i]) && NoSmallest(ys[i], g.ss, g.se)
    ensures Few(AllItems(us), 64 * |ys|, tame) && (ys != [] ==> SymsOf(AllItems(us)) != [])
  {
    assert |AllCodes(us)| == |ys| && RunsFit(us);
    hide Few, Live, CodeSent, BandInRange, AllCodes, AllItems, SymsOf, RunsFit, NoSmallest, Words;
    forall i | 0 <= i < |ys| ensures Few(AllCodes(us)[i].head, 63, tame) && Live(AllCodes(us)[i]) {
      CodeSyms(g, ys[i], tame);
    }
    AllSyms(us, tame);
  }

  /** A symbol that is no byte: the tables have no entry for it. */
  ghost predicate Wild(ys: seq<Item>) {
    exists i :: 0 <= i < |ys| && ys[i].Symbol? && ys[i].s >= 256
  }

  lemma TameOrWild(ys: seq<Item>, n: nat)
    requires Few(ys, n, false)
    ensures !Wild(ys) ==> Few(ys, n, true)
    ensures Few(ys, n, true) ==> !Wild(ys)
  {
    hide SymsOf;
    if !Wild(ys) {
      forall j | 0 <= j < |SymsOf(ys)| ensures SymsOf(ys)[j].s < 256 {
        var i := ItemOf(ys, j);
      }
    }
    if Few(ys, n, true) && Wild(ys) {
      var i :| 0 <= i < |ys| && ys[i].Symbol? && ys[i].s >= 256;
      SymbolAmong(ys, i);
    }
  }

  lemma {:induction false} ItemOf(ys: seq<Item>, j: nat) returns (i: nat)
    requires j < |SymsOf(ys)|
    ensures i < |ys| && ys[i].Symbol? && ys[i].s == SymsOf(ys)[j].s
    decreases |ys|
  {
    if ys[0].Symbol? && j == 0 {
      i := 0;
    } else {
      var n := |SymsOf(ys)| - |SymsOf(ys[1..])|;
      assert SymsOf(ys)[j] == SymsOf(ys[1..])[j - n];
      i := ItemOf(ys[1..], j - n);
      i := i + 1;
    }
  }

  // ----- Counting

  /** emit_symbol while statistics are gathered; raw bits are no work then.  ok is false if a symbol
      lies outside the counts. */
  method CountItems(items: seq<Item>, counts: array<nat>) returns (ok: bool)
    requires counts.Length == NUM_SYMBOLS
    modifies counts
    ensures ok <==> forall i :: 0 <= i < |items| && items[i].Symbol? ==> items[i].s < NUM_SYMBOLS
    ensures ok ==> counts[..] == Tallied(old(counts[..]), SymsOf(items))
  {
    hide SymsOf, Tallied;
    ghost var f := counts[..];
    for i := 0 to |items|
      invariant Tallied(counts[..], SymsOf(items[i..])) == Tallied(f, SymsOf(items))
      invariant forall j :: 0 <= j < i && items[j].Symbol? ==> items[j].s < NUM_SYMBOLS
    {
      CountNext(counts[..], items, i);
      match items[i]
      case Symbol(s) =>
        if s >= counts.Length {
          return false;
        }
        counts[s] := counts[s] + 1;
      case Raw(_, _) =>
    }
    CountedAll(counts[..], items);
    ok := true;
  }

  function CountedOnce(f: seq<nat>, y: Item): seq<nat> {
    if y.Symbol? && y.s < |f| then f[y.s := f[y.s] + 1] else f
  }

  lemma CountNext(f: seq<nat>, items: seq<Item>, i: nat)
    requires i < |items|
    ensures Tallied(f, SymsOf(items[i..])) == Tallied(CountedOnce(f, items[i]), SymsOf(items[i + 1..]))
  {
    hide *;
    Suffix(items, i);
    CountFirst(f, items[i..], items[i], items[i + 1..]);
  }

  lemma Suffix(items: seq<Item>, i: nat)
    requires i < |items|
    ensures items[i..] != [] && items[i..][0] == items[i] && items[i..][1..] == items[i + 1..]
  {
  }

  lemma CountFirst(f: seq<nat>, ys: seq<Item>, y: Item, zs: seq<Item>)
    requires ys != [] && ys[0] == y && ys[1..] == zs
    ensures Tallied(f, SymsOf(ys)) == Tallied(CountedOnce(f, y), SymsOf(zs))
  {
    hide Tallied, SymsOf;
    SymsFirst(ys);
    if y.Symbol? {
      TalliedFirst(f, Sym(y.s, 0, 0), SymsOf(zs));
    }
  }

  lemma SymsFirst(ys: seq<Item>)
    requires ys != []
    ensures ys[0].Symbol? ==> SymsOf(ys) == [Sym(ys[0].s, 0, 0)] + SymsOf(ys[1..])
    ensures ys[0].Raw? ==> SymsOf(ys) == SymsOf(ys[1..])
  {
  }

  lemma TalliedFirst(f: seq<nat>, y: Sym, ys: seq<Sym>)
    ensures Tallied(f, [y] + ys) == Tallied(if y.s < |f| then f[y.s := f[y.s] + 1] else f, ys)
  {
    assert ([y] + ys)[1..] == ys;
  }

  lemma CountedAll(f: seq<nat>, items: seq<Item>)
    ensures Tallied(f, SymsOf(items[|items|..])) == f && items[0..] == items
  {
  }

  /** The counts of a scan of the transformed blocks. */
  function BandCounts(g: Band, ys: seq<Block>): (f: seq<nat>)
    requires g.se < DCTSIZE2
    ensures |f| == NUM_SYMBOLS
  {
    Tallied(seq(NUM_SYMBOLS, _ => 0), SymsOf(BandItems(g, ys)))
  }

  /** A table can be made for them, and it is not too deep if there are not too many. */
  lemma CountsReady(f: seq<nat>, items: seq<Item>, n: nat)
    requires f == Tallied(seq(NUM_SYMBOLS, _ => 0), SymsOf(items)) && Few(items, n, true) && SymsOf(items) != []
    ensures |f| == NUM_SYMBOLS && Plausible(f[PSEUDO_SYMBOL := 0], false) && (exists s :: 0 <= s < PSEUDO_SYMBOL && f[s] > 0)
    ensures Sum(f[PSEUDO_SYMBOL := 1]) <= n + 1 && CountedIn(f, SymsOf(items))
  {
    var zeros, ys := seq(NUM_SYMBOLS, _ => 0), SymsOf(items);
    SumZero(zeros);
    assert Plausible(zeros, false) && SymsPlausible(ys, false);
    hide Sum, Tallied, SymsOf;
    TalliedAll(zeros, ys, false);
    assert f[ys[0].s] > 0 && ys[0].s < 256;
    SumUpdate(f, PSEUDO_SYMBOL, 1);
  }

  /** A table for the counts has a code for everything that was counted. */
  lemma CountedSizes(f: seq<nat>, p: Pair, items: seq<Item>)
    requires |f| == NUM_SYMBOLS && PairFor(f[PSEUDO_SYMBOL := 1], p, false) && CountedIn(f, SymsOf(items))
    ensures AllHaveSizes(p.c, items)
  {
    hide Paired, CodesFit, DecTblOk, SymsOf;
    forall i | 0 <= i < |items| ensures HasSize(p.c, items[i]) {
      if items[i].Symbol? {
        SymbolAmong(items, i);
        var j :| 0 <= j < |SymsOf(items)| && SymsOf(items)[j].s == items[i].s;
        assert f[PSEUDO_SYMBOL := 1][SymsOf(items)[j].s] > 0;
      }
    }
  }

  lemma FitsSizes(p: Pair, f: seq<nat>)
    requires PairFor(f, p, false)
    ensures Paired(p.c, p.x) && |p.c.ehufsi| == 256 && SizesFit(p.c)
  {
    hide DecTblOk, HasCode;
  }

  // ----- Two passes

  datatype TwoPass = BadCoefficient | OutsideTable | TooLong | Scan(code: seq<byte>, p: Pair)

  lemma BandReady(g: Band, blocks: seq<seq<int>>, items: seq<Item>, us: seq<Group>)
    requires BandOk(g) && blocks != [] && forall i :: 0 <= i < |blocks| ==> |blocks[i]| == 64 && Words(blocks[i])
    requires FirstInRange(g, AllTransformed(ZigAll(blocks), g.al), |blocks|) && AllItems(us) == items
    requires GathersSent(g, AllTransformed(ZigAll(blocks), g.al), |blocks|, us)
    ensures Few(items, 64 * |blocks|, false) && SymsOf(items) != []
    ensures AllStorable(g, ZigAll(blocks)) ==> Few(items, 64 * |blocks|, true)
  {
    hide Few, SymsOf, GathersSent, AllItems, FirstInRange, Words, NoSmallest, Scans.Transform, Storable, Zig;
    ghost var bs, ys := ZigAll(blocks), AllTransformed(ZigAll(blocks), g.al);
    BandSyms(g, ys, us, false);
    if AllStorable(g, bs) {
      ZigWords(blocks);
      forall i | 0 <= i < |ys| ensures Words(ys[i]) && NoSmallest(ys[i], g.ss, g.se) {
        StorableIff(g, bs[i]);
      }
      BandSyms(g, ys, us, true);
    }
  }

  /** The smallest word stops a first pass only where it is not storable. */
  lemma StopsUnstorable(g: Band, blocks: seq<seq<int>>)
    requires BandOk(g) && forall i :: 0 <= i < |blocks| ==> |blocks[i]| == 64 && Words(blocks[i])
    requires SmallestStops(g, AllTransformed(ZigAll(blocks), g.al))
    ensures !AllStorable(g, ZigAll(blocks))
  {
    hide Words, NoSmallest, Scans.Transform, Storable, Zig, BandInRange, SmallestFirst;
    var bs, ys := ZigAll(blocks), AllTransformed(ZigAll(blocks), g.al);
    var i :| 0 <= i < |ys| && FirstInRange(g, ys, i) && SmallestFirst(ys[i], g.ss, g.se);
    ZigWords(blocks);
    StorableIff(g, bs[i]);
    SmallestThere(ys[i], g.ss, g.se);
    assert !Storable(g, bs[i]);
  }

  lemma SmallestThere(y: seq<int>, ss: nat, se: nat)
    requires SmallestFirst(y, ss, se)
    ensures !NoSmallest(y, ss, se)
  {
  }

  datatype Gathered = Bad | Outside | Counted(made: Made)

  /** The counts of the items, and the tables made from them. */
  method CountedTables(items: seq<Item>, ghost n: nat) returns (r: Gathered)
    requires Few(items, n, false) && SymsOf(items) != [] && n < SENTINEL
    ensures r.Outside? <==> Wild(items)
    ensures !r.Bad?
    ensures var f := Tallied(seq(NUM_SYMBOLS, _ => 0), SymsOf(items));
      r.Counted? ==>
        && (r.made.TooLong? <==> TooDeep(f[PSEUDO_SYMBOL := 1]))
        && (n + 1 < DEEP_TOTAL ==> r.made.Made?)
        && (r.made.Made? ==> PairFor(f[PSEUDO_SYMBOL := 1], r.made.p, false) && AllHaveSizes(r.made.p.c, items))
  {
    hide *;
    TameOrWild(items, n);
    SymbolCount();
    var counts := new nat[NUM_SYMBOLS](_ => 0);
    assert counts[..] == seq(NUM_SYMBOLS, _ => 0);
    WildUncounted(items, n);
    var ok := CountItems(items, counts);
    if !ok {
      return Outside;
    }
    ghost var f := counts[..];
    CountsReady(f, items, n);
    var made := MakePair(counts, false);
    if made.Made? {
      CountedSizes(f, made.p, items);
    } else if n + 1 < DEEP_TOTAL {
      NotTooDeep(f[PSEUDO_SYMBOL := 1]);
    }
    r := Counted(made);
  }

  /** The pass that gathers, and the tables for both sides. */
  method GatherBands(g: Band, blocks: seq<seq<int>>) returns (r: Gathered)
    requires BandOk(g) && blocks != [] && 64 * |blocks| < SENTINEL
    requires forall i :: 0 <= i < |blocks| ==> |blocks[i]| == 64 && Words(blocks[i])
    ensures g.se < DCTSIZE2
    ensures var ys := AllTransformed(ZigAll(blocks), g.al);
      && (r.Bad? <==> !FirstInRange(g, ys, |ys|) && !SmallestStops(g, ys))
      && (r.Outside? <==> SmallestStops(g, ys) || (FirstInRange(g, ys, |ys|) && Wild(BandItems(g, ys))))
    ensures r.Outside? ==> !AllStorable(g, ZigAll(blocks))
    ensures var ys := AllTransformed(ZigAll(blocks), g.al);
      r.Counted? ==>
        && FirstInRange(g, ys, |ys|)
        && (r.made.TooLong? <==> TooDeep(BandCounts(g, ys)[PSEUDO_SYMBOL := 1]))
        && (64 * |blocks| + 1 < DEEP_TOTAL ==> r.made.Made?)
        && (r.made.Made? ==> PairFor(BandCounts(g, ys)[PSEUDO_SYMBOL := 1], r.made.p, false) && AllHaveSizes(r.made.p.c, BandItems(g, ys)))
  {
    assert g.se < DCTSIZE2;
    hide *;
    ghost var ys := AllTransformed(ZigAll(blocks), g.al);
    var o, items, us := EncodeBands(g, blocks);
    match o {
      case BadCoef =>
        return Bad;
      case OutsideTable =>
        StopsUnstorable(g, blocks);
        return Outside;
      case Coded =>
    }
    NeverStopped(g, ys);
    BandReady(g, blocks, items, us);
    r := CountedTables(items, 64 * |blocks|);
    BandCountsAre(g, ys);
    TameOrWild(items, 64 * |blocks|);
  }

  lemma SymbolCount()
    ensures PSEUDO_SYMBOL < NUM_SYMBOLS
  {
  }

  /** No symbol is the reserved one, so those outside the counts are those that are no bytes. */
  lemma WildUncounted(items: seq<Item>, n: nat)
    requires Few(items, n, false)
    ensures Wild(items) <==> !forall i :: 0 <= i < |items| && items[i].Symbol? ==> items[i].s < NUM_SYMBOLS
  {
    hide SymsOf;
    forall i | 0 <= i < |items| && items[i].Symbol? ensures items[i].s != 256 {
      SymbolAmong(items, i);
    }
  }

  lemma BandCountsAre(g: Band, ys: seq<Block>)
    requires g.se < DCTSIZE2
    ensures BandCounts(g, ys) == Tallied(seq(NUM_SYMBOLS, _ => 0), SymsOf(BandItems(g, ys)))
  {
  }

  /** Both passes: with the tables that the first leads to the second cannot lack a code, and, unless a
      magnitude is too large for its word, what it writes brings every block one bit plane further.
      Only a coefficient out of range, such a magnitude, or counts that lead to a code of more than 32
      bits before limiting, stop it. */
  method SendOptimised(g: Band, blocks: seq<seq<int>>, ghost tail: seq<byte>) returns (r: TwoPass)
    requires BandOk(g) && blocks != [] && 64 * |blocks| < SENTINEL
    requires forall i :: 0 <= i < |blocks| ==> |blocks[i]| == 64 && Words(blocks[i])
    requires |tail| >= 2 && tail[0] == 0xFF && 0 < tail[1] < 0xFF
    ensures g.se < DCTSIZE2
    ensures var ys := AllTransformed(ZigAll(blocks), g.al);
      && (r.BadCoefficient? <==> !FirstInRange(g, ys, |ys|) && !SmallestStops(g, ys))
      && (r.OutsideTable? <==> SmallestStops(g, ys) || (FirstInRange(g, ys, |ys|) && Wild(BandItems(g, ys))))
      && (r.TooLong? <==> !r.BadCoefficient? && !r.OutsideTable? && TooDeep(BandCounts(g, ys)[PSEUDO_SYMBOL := 1]))
    ensures r.OutsideTable? ==> !AllStorable(g, ZigAll(blocks))
    ensures 64 * |blocks| + 1 < DEEP_TOTAL ==> !r.TooLong?
    ensures var ys := AllTransformed(ZigAll(blocks), g.al);
      r.Scan? ==> PairFor(BandCounts(g, ys)[PSEUDO_SYMBOL := 1], r.p, false) && r.code == BandBytes(r.p.c, g, ZigAll(blocks))
    ensures r.Scan? && AllStorable(g, ZigAll(blocks)) ==> forall zs: seq<Block> :: AllBefore(g, ZigAll(blocks), zs) ==>
      ReadBack(g, r.p.x, r.code + tail, ZigAll(blocks), zs)
  {
    assert g.se < DCTSIZE2;
    hide *;
    ghost var ys := AllTransformed(ZigAll(blocks), g.al);
    var a := GatherBands(g, blocks);
    match a {
      case Bad => r := BadCoefficient;
      case Outside => r := TwoPass.OutsideTable;
      case Counted(TooLong) => r := TwoPass.TooLong;
      case Counted(Made(p)) =>
        FitsSizes(p, BandCounts(g, ys)[PSEUDO_SYMBOL := 1]);
        NeverStopped(g, ys);
        NotWild(p.c, BandItems(g, ys));
        var sent := SendBands(g, blocks, p.c, p.x, tail);
        r := Scan(sent.code, p);
    }
  }
}
