/** The 16-bit words in which the progressive encoder (jcphuff.c) keeps magnitudes: what becomes of
    the one coefficient, -0x8000, whose magnitude does not fit. */
module HuffmanBandStore {
  import opened Coefficients
  import opened Powers
  import opened NaturalOrder
  import opened Refine
  import opened Scans
  import opened HuffmanBands

  const SMALLEST: int := -0x8000

  /** A coefficient as the refinement loop takes it: one whose stored magnitude is not above 1
      passes for a new one. */
  function Taken(v: int): int {
    if v != 0 && ToCoef(Abs(v)) <= 1 then Signed(1, v < 0) else v
  }

  function AllTaken(y: seq<int>): (t: seq<int>)
    ensures |t| == |y| && forall i :: 0 <= i < |y| ==> t[i] == Taken(y[i])
  {
    seq(|y|, i requires 0 <= i < |y| => Taken(y[i]))
  }

  /** Coefficients and their transforms are 16-bit words. */
  ghost predicate Words(y: seq<int>) {
    forall i :: 0 <= i < |y| ==> -0x8000 <= y[i] < 0x8000
  }

  lemma TakenIs(v: int)
    requires -0x8000 <= v < 0x8000
    ensures Taken(v) == if v == SMALLEST then -1 else v
    ensures (Taken(v) == 0 <==> v == 0) && (Taken(v) < 0 <==> v < 0)
    ensures ToCoef(Abs(v)) > 1 <==> Known(Taken(v))
    ensures Known(Taken(v)) ==> ToCoef(Abs(v)) == Abs(Taken(v))
  {
    assert v == SMALLEST ==> ToCoef(0x8000) == -0x8000;
  }

  /** No coefficient of the band is the smallest word. */
  ghost predicate NoSmallest(y: seq<int>, ss: nat, se: nat) {
    forall k :: ss <= k <= se && k < |y| ==> y[k] != SMALLEST
  }

  /** The same asked of the coefficients before their point transform: what a caller can check. */
  ghost predicate Storable(g: Band, b: Block) {
    g.al > 0 || forall k :: g.ss <= k <= g.se && k < 64 ==> b[k] != SMALLEST
  }

  lemma {:induction false} HalvedMagnitude(n: nat, al: nat)
    requires n <= 0x8000 && al > 0
    ensures 0 <= n / Pow2(al) <= 0x4000
    decreases al
  {
    FloorAtLeast(n, Pow2(al), 0);
    if al == 1 {
      assert Pow2(1) == 2;
    } else {
      HalvedMagnitude(n, al - 1);
      FloorFiner(n, al - 1);
    }
  }

  lemma TransformedWord(v: int, al: nat)
    requires -0x8000 <= v < 0x8000
    ensures -0x8000 <= Truncate(v, al) < 0x8000 && (Truncate(v, al) == SMALLEST <==> al == 0 && v == SMALLEST)
  {
    if al == 0 {
      assert Pow2(0) == 1;
    } else {
      HalvedMagnitude(Abs(v), al);
      hide Pow2;
    }
  }

  lemma StorableIff(g: Band, b: Block)
    requires Words(b)
    ensures Words(Transform(b, g.al)) && (Storable(g, b) <==> NoSmallest(Transform(b, g.al), g.ss, g.se))
  {
    hide Truncate;
    forall k | 0 <= k < 64
      ensures -0x8000 <= Transform(b, g.al)[k] < 0x8000 && (Transform(b, g.al)[k] == SMALLEST <==> g.al == 0 && b[k] == SMALLEST)
    {
      TransformedWord(b[k], g.al);
    }
  }

  // ----- What the program sends for a block

  function CodeSent(g: Band, y: seq<int>): BandCode
    requires g.se < |y|
  {
    if g.refine then RefineFrom(AllTaken(y), g.ss, 0, [], LastNew(y, g.se), g.se) else FirstFrom(y, g.ss, 0, g.se)
  }

  /** Symbols of coefficients that become nonzero. */
  function NewSymbols(ys: seq<Item>): nat {
    if ys == [] then 0 else (if ys[0].Symbol? && ys[0].s % 16 == 1 then 1 else 0) + NewSymbols(ys[1..])
  }

  lemma {:induction false} NewConcat(xs: seq<Item>, ys: seq<Item>)
    ensures NewSymbols(xs + ys) == NewSymbols(xs) + NewSymbols(ys)
  {
    if xs == [] {
      assert xs + ys == ys;
    } else {
      NewConcat(xs[1..], ys);
      assert (xs + ys)[0] == xs[0] && (xs + ys)[1..] == xs[1..] + ys;
    }
  }

  lemma {:induction false} NoneInBits(bits: seq<bool>)
    ensures NewSymbols(BitItems(bits)) == 0
  {
    if bits != [] {
      NoneInBits(bits[1..]);
      assert BitItems(bits)[1..] == BitItems(bits[1..]);
    }
  }

  lemma NewOnes(r: nat, negative: bool)
    ensures NewSymbols([Symbol(0xF0)]) == 0 && NewSymbols(NewItems(r, negative)) == 1
  {
    assert [Symbol(0xF0)][1..] == [];
    var v := if negative then 0 else 1;
    assert NewItems(r, negative)[1..] == [Raw(v, 1)] && [Raw(v, 1)][1..] == [];
  }

  /** Coefficients k to se that are neither zero nor known. */
  function NewAmong(y: seq<int>, k: nat, se: nat): nat
    requires se < |y|
    decreases if k <= se then se + 1 - k else 0
  {
    if k > se then 0 else (if y[k] != 0 && !Known(y[k]) then 1 else 0) + NewAmong(y, k + 1, se)
  }

  lemma {:induction false} NewInCode(y: seq<int>, k: nat, r: nat, br: seq<bool>, eob: nat, se: nat)
    requires se < |y|
    ensures NewSymbols(RefineFrom(y, k, r, br, eob, se).head) == NewAmong(y, k, se)
    decreases if k <= se then se + 1 - k else 0, r
  {
    hide *;
    CodeStep(y, k, r, br, eob, se);
    if k <= se {
      NewOnes(r, y[k] < 0);
      NoneInBits(br);
      if y[k] == 0 {
        NewInCode(y, k + 1, r + 1, br, eob, se);
      } else if r > 15 && k <= eob {
        NewInCode(y, k, r - 16, [], eob, se);
        NewConcat([Symbol(0xF0)], BitItems(br));
        NewConcat([Symbol(0xF0)] + BitItems(br), RefineFrom(y, k, r - 16, [], eob, se).head);
      } else if Known(y[k]) {
        NewInCode(y, k + 1, r, br + [CorrectionBit(y[k])], eob, se);
      } else {
        NewInCode(y, k + 1, 0, [], eob, se);
        NewConcat(NewItems(r, y[k] < 0), BitItems(br));
        NewConcat(NewItems(r, y[k] < 0) + BitItems(br), RefineFrom(y, k + 1, 0, [], eob, se).head);
      }
    }
  }

  lemma CodeStep(y: seq<int>, k: nat, r: nat, br: seq<bool>, eob: nat, se: nat)
    requires se < |y|
    ensures k > se ==> NewSymbols(RefineFrom(y, k, r, br, eob, se).head) == 0 == NewAmong(y, k, se)
    ensures k <= se ==> NewAmong(y, k, se) == (if y[k] != 0 && !Known(y[k]) then 1 else 0) + NewAmong(y, k + 1, se)
    ensures k <= se && y[k] == 0 ==>
      RefineFrom(y, k, r, br, eob, se).head == RefineFrom(y, k + 1, r + 1, br, eob, se).head && !Known(y[k])
    ensures k <= se && y[k] != 0 && r > 15 && k <= eob ==>
      RefineFrom(y, k, r, br, eob, se).head == [Symbol(0xF0)] + BitItems(br) + RefineFrom(y, k, r - 16, [], eob, se).head
    ensures k <= se && y[k] != 0 && !(r > 15 && k <= eob) && Known(y[k]) ==>
      RefineFrom(y, k, r, br, eob, se).head == RefineFrom(y, k + 1, r, br + [CorrectionBit(y[k])], eob, se).head
    ensures k <= se && y[k] != 0 && !(r > 15 && k <= eob) && !Known(y[k]) ==>
      RefineFrom(y, k, r, br, eob, se).head == NewItems(r, y[k] < 0) + BitItems(br) + RefineFrom(y, k + 1, 0, [], eob, se).head
  {
    hide BitItems, NewItems, CorrectionBit;
  }

  /** The smallest word, where there is one, counts as new. */
  lemma {:induction false} MoreNew(y: seq<int>, k: nat, se: nat)
    requires se < |y| && Words(y)
    ensures NewAmong(AllTaken(y), k, se) >= NewAmong(y, k, se)
    ensures NewAmong(AllTaken(y), k, se) == NewAmong(y, k, se) <==> NoSmallest(y, k, se)
    decreases if k <= se then se + 1 - k else 0
  {
    if k <= se {
      MoreNew(y, k + 1, se);
      TakenIs(y[k]);
      assert Known(SMALLEST);
      hide Taken, AllTaken;
    }
  }

  lemma {:induction false} SameCode(y: seq<int>, k: nat, r: nat, br: seq<bool>, eob: nat, se: nat)
    requires se < |y| && Words(y) && NoSmallest(y, k, se)
    ensures RefineFrom(AllTaken(y), k, r, br, eob, se) == RefineFrom(y, k, r, br, eob, se)
    decreases if k <= se then se + 1 - k else 0, r
  {
    if k <= se {
      TakenIs(y[k]);
      hide Taken, AllTaken, Known, CorrectionBit, BitItems, NewItems, Prefixed;
      if y[k] == 0 {
        SameCode(y, k + 1, r + 1, br, eob, se);
      } else if r > 15 && k <= eob {
        SameCode(y, k, r - 16, [], eob, se);
      } else if Known(y[k]) {
        SameCode(y, k + 1, r, br + [CorrectionBit(y[k])], eob, se);
      } else {
        SameCode(y, k + 1, 0, [], eob, se);
      }
    }
  }

  /** The program sends what a refinement should if and only if the band has no smallest word. */
  lemma SentIff(g: Band, y: seq<int>)
    requires g.se < |y| && Words(y)
    ensures CodeSent(g, y) == CodeOf(g, y) <==> !g.refine || NoSmallest(y, g.ss, g.se)
    ensures NewSymbols(CodeSent(g, y).head) >= NewSymbols(CodeOf(g, y).head)
    ensures g.refine && !NoSmallest(y, g.ss, g.se) ==> NewSymbols(CodeSent(g, y).head) > NewSymbols(CodeOf(g, y).head)
  {
    if g.refine {
      NewInCode(y, g.ss, 0, [], LastNew(y, g.se), g.se);
      NewInCode(AllTaken(y), g.ss, 0, [], LastNew(y, g.se), g.se);
      MoreNew(y, g.ss, g.se);
      if NoSmallest(y, g.ss, g.se) {
        SameCode(y, g.ss, 0, [], LastNew(y, g.se), g.se);
      }
    }
    hide RefineFrom, NoSmallest, LastNew, FirstFrom, NewSymbols, NewAmong, AllTaken;
  }
}
