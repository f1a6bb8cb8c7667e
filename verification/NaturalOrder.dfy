/** The zigzag order of coefficients (section A.3.6 of Rec. ITU-T T.81). */
module NaturalOrder {

  /** Position in a block of the k-th coefficient in zigzag order, eight to a row. */
  const NATURAL_ORDER: seq<seq<nat>> := [
    [ 0,  1,  8, 16,  9,  2,  3, 10],
    [17, 24, 32, 25, 18, 11,  4,  5],
    [12, 19, 26, 33, 40, 48, 41, 34],
    [27, 20, 13,  6,  7, 14, 21, 28],
    [35, 42, 49, 56, 57, 50, 43, 36],
    [29, 22, 15, 23, 30, 37, 44, 51],
    [58, 59, 52, 45, 38, 31, 39, 46],
    [53, 60, 61, 54, 47, 55, 62, 63]
  ]

  /** Zigzag index of each position. */
  const ZIGZAG_INDEX: seq<seq<nat>> := [
    [ 0,  1,  5,  6, 14, 15, 27, 28],
    [ 2,  4,  7, 13, 16, 26, 29, 42],
    [ 3,  8, 12, 17, 25, 30, 41, 43],
    [ 9, 11, 18, 24, 31, 40, 44, 53],
    [10, 19, 23, 32, 39, 45, 52, 54],
    [20, 22, 33, 38, 46, 51, 55, 60],
    [21, 34, 37, 47, 50, 56, 59, 61],
    [35, 36, 48, 49, 57, 58, 62, 63]
  ]

  lemma TablesRectangular()
    ensures |NATURAL_ORDER| == |ZIGZAG_INDEX| == 8
    ensures forall i :: 0 <= i < 8 ==> |NATURAL_ORDER[i]| == |ZIGZAG_INDEX[i]| == 8
    ensures forall i, j :: 0 <= i < 8 && 0 <= j < 8 ==> NATURAL_ORDER[i][j] < 64 && ZIGZAG_INDEX[i][j] < 64
  {
  }

  function Order(k: nat): (p: nat)
    requires k < 64
    ensures p < 64
  {
    TablesRectangular();
    NATURAL_ORDER[k / 8][k % 8]
  }

  function Index(p: nat): (k: nat)
    requires p < 64
    ensures k < 64
  {
    TablesRectangular();
    ZIGZAG_INDEX[p / 8][p % 8]
  }

  predicate InverseOn(lo: nat, hi: nat)
    requires hi <= 64
    decreases hi - lo
  {
    lo < hi ==> Index(Order(lo)) == lo && Order(Index(lo)) == lo && InverseOn(lo + 1, hi)
  }

  lemma {:induction false} InverseAt(lo: nat, hi: nat, k: nat)
    requires hi <= 64 && InverseOn(lo, hi) && lo <= k < hi
    ensures Index(Order(k)) == k && Order(Index(k)) == k
    decreases k - lo
  {
    hide Order, Index;
    if lo < k {
      InverseAt(lo + 1, hi, k);
    }
  }

  lemma InverseRow0() ensures InverseOn(0, 8) {}
  lemma InverseRow1() ensures InverseOn(8, 16) {}
  lemma InverseRow2() ensures InverseOn(16, 24) {}
  lemma InverseRow3() ensures InverseOn(24, 32) {}
  lemma InverseRow4() ensures InverseOn(32, 40) {}
  lemma InverseRow5() ensures InverseOn(40, 48) {}
  lemma InverseRow6() ensures InverseOn(48, 56) {}
  lemma InverseRow7() ensures InverseOn(56, 64) {}

  /** The zigzag number of row u and column v: diagonals in turn, the odd ones downwards. */
  function ZigzagNumber(u: nat, v: nat): int {
    var d := u + v;
    if d < 8 then d * (d + 1) / 2 + (if d % 2 == 1 then u else v)
    else 64 - (15 - d) * (16 - d) / 2 + (if d % 2 == 1 then 7 - v else 7 - u)
  }

  predicate ZigzagOn(lo: nat, hi: nat)
    requires hi <= 64
    decreases hi - lo
  {
    lo < hi ==> ZigzagNumber(Order(lo) / 8, Order(lo) % 8) == lo && ZigzagOn(lo + 1, hi)
  }

  lemma {:induction false} ZigzagAt(lo: nat, hi: nat, k: nat)
    requires hi <= 64 && ZigzagOn(lo, hi) && lo <= k < hi
    ensures ZigzagNumber(Order(k) / 8, Order(k) % 8) == k
    decreases k - lo
  {
    hide Order, ZigzagNumber;
    if lo < k {
      ZigzagAt(lo + 1, hi, k);
    }
  }

  lemma ZigzagRow0() ensures ZigzagOn(0, 8) {}
  lemma ZigzagRow1() ensures ZigzagOn(8, 16) {}
  lemma ZigzagRow2() ensures ZigzagOn(16, 24) {}
  lemma ZigzagRow3() ensures ZigzagOn(24, 32) {}
  lemma ZigzagRow4() ensures ZigzagOn(32, 40) {}
  lemma ZigzagRow5() ensures ZigzagOn(40, 48) {}
  lemma ZigzagRow6() ensures ZigzagOn(48, 56) {}
  lemma ZigzagRow7() ensures ZigzagOn(56, 64) {}

  /** The order is the zigzag of figure 5: along the diagonals, down and up in turn. */
  lemma OrderIsZigzag(k: nat)
    requires k < 64
    ensures ZigzagNumber(Order(k) / 8, Order(k) % 8) == k
  {
    hide *;
    ZigzagRow0();
    ZigzagRow1();
    ZigzagRow2();
    ZigzagRow3();
    ZigzagRow4();
    ZigzagRow5();
    ZigzagRow6();
    ZigzagRow7();
    ZigzagAt(k / 8 * 8, k / 8 * 8 + 8, k);
  }

  /** The two tables undo each other, so the order is a permutation of the block. */
  lemma InverseTables(k: nat)
    requires k < 64
    ensures Index(Order(k)) == k && Order(Index(k)) == k
  {
    hide Order, Index, InverseOn;
    InverseRow0();
    InverseRow1();
    InverseRow2();
    InverseRow3();
    InverseRow4();
    InverseRow5();
    InverseRow6();
    InverseRow7();
    InverseAt(k / 8 * 8, k / 8 * 8 + 8, k);
  }

  /** The DC coefficient keeps its place. */
  lemma OrderZero()
    ensures Order(0) == 0
  {
  }

  /** No two zigzag indexes share a position. */
  lemma OrderInjective(j: nat, k: nat)
    requires j < 64 && k < 64 && Order(j) == Order(k)
    ensures j == k
  {
    InverseTables(j);
    InverseTables(k);
  }

  /** 64 coefficients in zigzag order. */
  type Block = b: seq<int> | |b| == 64 ghost witness seq(64, _ => 0)

  /** A block read in zigzag order. */
  function Zig(b: seq<int>): (z: seq<int>)
    requires |b| == 64
    ensures |z| == 64 && forall k :: 0 <= k < 64 ==> z[k] == b[Order(k)]
  {
    seq(64, k requires 0 <= k < 64 => b[Order(k)])
  }

  lemma ZigUpdate(b: seq<int>, k: nat, v: int)
    requires |b| == 64 && k < 64
    ensures Zig(b[Order(k) := v]) == Zig(b)[k := v]
  {
    forall j | 0 <= j < 64 ensures Order(j) == Order(k) ==> j == k {
      if Order(j) == Order(k) {
        OrderInjective(j, k);
      }
    }
  }

  /** Nothing is lost: blocks that agree in zigzag order agree. */
  lemma ZigInjective(b: seq<int>, c: seq<int>)
    requires |b| == |c| == 64 && Zig(b) == Zig(c)
    ensures b == c
  {
    forall p | 0 <= p < 64 ensures b[p] == c[p] {
      InverseTables(p);
      assert Zig(b)[Index(p)] == Zig(c)[Index(p)];
    }
  }
}
