/** Quantisation by reciprocal multiplication (jcdctmgr.c), for words of n bits. */
module Quant {
  import opened Coefficients
  import opened Powers

  /** The value of an n-bit signed word with these low bits. */
  function SignedWord(n: nat, v: int): (r: int)
    requires n > 0
    ensures -(Pow2(n - 1) as int) <= r < Pow2(n - 1)
    ensures -(Pow2(n - 1) as int) <= v < Pow2(n - 1) ==> r == v
  {
    var h: int := Pow2(n - 1);
    WrapOnce(v + h, 2 * h);
    (v + h) % (2 * h) - h
  }

  /** The same word read as an unsigned number. */
  function UnsignedWord(n: nat, v: int): (r: nat)
    ensures r < Pow2(n)
    ensures 0 <= v < Pow2(n) ==> r == v
  {
    WrapOnce(v, Pow2(n));
    v % Pow2(n)
  }

  lemma WrapOnce(v: int, m: nat)
    requires m > 0
    ensures 0 <= v % m < m && (0 <= v < m ==> v % m == v)
  {
  }

  /** Storing in a signed word and reading back unsigned loses nothing. */
  lemma UnsignedSigned(n: nat, v: int)
    requires n > 0 && 0 <= v < Pow2(n)
    ensures UnsignedWord(n, SignedWord(n, v)) == v
  {
    var h := Pow2(n - 1);
    assert Pow2(n) == 2 * h;
    if v >= h {
      DivUnique(v + h, 2 * h, 1, v - h);
      assert SignedWord(n, v) == v - 2 * h;
      DivUnique(v - 2 * h, 2 * h, -1, v);
    }
  }

  // ----- The highest bit

  /** val is val0 shifted left by 16 - bit places, and nothing has been lost. */
  ghost predicate ShiftedUp(val0: nat, val: nat, bit: nat, m: nat) {
    0 < val < 0x10000 && bit <= 16 && val == val0 * m && m * Pow2(bit) == 0x10000
  }

  lemma Assoc(a: int, b: int, c: int)
    ensures a * b * c == a * (b * c) == a * (c * b) == a * c * b
  {
  }

  lemma ShiftUp(val0: nat, val: nat, bit: nat, m: nat, j: nat, p: nat)
    requires ShiftedUp(val0, val, bit, m) && j <= bit && p == Pow2(j) && val * p < 0x10000
    ensures ShiftedUp(val0, val * p, bit - j, m * p)
  {
    var q := Pow2(bit - j);
    Pow2Add(bit - j, j);
    MulAtLeast(val, p);
    Assoc(val0, m, p);
    Assoc(m, p, q);
    hide Pow2;
  }

  lemma TopBitFound(val0: nat, val: nat, bit: nat, m: nat)
    requires ShiftedUp(val0, val, bit, m) && val >= 0x8000
    ensures 1 <= bit && Pow2(bit - 1) <= val0 < Pow2(bit)
  {
    if bit == 0 {
      NothingLeft(val0, m);
    } else {
      var h := Pow2(bit - 1);
      assert Pow2(bit) == 2 * h;
      Assoc(m, 2, h);
      Assoc(2, m, h);
      Assoc(2, h, m);
      hide Pow2;
      if val0 < h {
        MulStep(val0, h, m);
      }
      MulMono(2 * h, val0, m);
    }
  }

  lemma NothingLeft(val0: nat, m: nat)
    requires val0 > 0 && m * Pow2(0) == 0x10000
    ensures val0 * m >= 0x10000
  {
    MulAtLeast(val0, m);
  }

  /** One halving of the search: shifts by j places if the top j bits are clear. */
  method ShiftIfClear(ghost val0: nat, val: nat, bit: nat, ghost m: nat, j: nat, p: nat, limit: nat)
      returns (val2: nat, bit2: nat, ghost m2: nat)
    requires ShiftedUp(val0, val, bit, m) && j <= bit && p == Pow2(j) && limit * p == 0x10000 && limit <= val * p
    ensures ShiftedUp(val0, val2, bit2, m2) && limit <= val2 && bit - j <= bit2 <= bit
  {
    val2, bit2, m2 := val, bit, m;
    if val < limit {
      MulLess(val, limit, p);
      ShiftUp(val0, val, bit, m, j, p);
      val2, bit2, m2 := val * p, bit - j, m * p;
    }
  }

  /** Number of significant bits of a 16-bit value, by binary search. */
  method Flss(val0: nat) returns (bit: nat)
    requires val0 < 0x10000
    ensures val0 == 0 ==> bit == 0
    ensures val0 > 0 ==> 1 <= bit <= 16 && Pow2(bit - 1) <= val0 < Pow2(bit)
  {
    if val0 == 0 {
      return 0;
    }
    FlssPowers();
    var val: nat;
    ghost var m: nat;
    assert ShiftedUp(val0, val0, 16, 1);
    val, bit, m := ShiftIfClear(val0, val0, 16, 1, 8, 0x100, 0x100);
    hide Pow2, ShiftedUp;
    val, bit, m := ShiftIfClear(val0, val, bit, m, 4, 0x10, 0x1000);
    val, bit, m := ShiftIfClear(val0, val, bit, m, 2, 4, 0x4000);
    val, bit, m := ShiftIfClear(val0, val, bit, m, 1, 2, 0x8000);
    TopBitFound(val0, val, bit, m);
  }

  lemma FlssPowers()
    ensures Pow2(1) == 2 && Pow2(2) == 4 && Pow2(4) == 16 && Pow2(8) == 0x100 && Pow2(16) == 0x10000
  {
    Pow2Table();
    assert Pow2(2) == 2 * Pow2(1) && Pow2(4) == 2 * Pow2(3);
  }

  // ----- Reciprocals

  /** Division with rounding. */
  function Rounded(x: nat, d: nat): nat
    requires d > 0
  {
    (x + d / 2) / d
  }

  function Multiplied(x: nat, recip: nat, corr: nat, shift: nat): nat {
    FloorAtLeast((x + corr) * recip, Pow2(shift), 0);
    (x + corr) * recip / Pow2(shift)
  }

  /** The multiplier stands for division by d, with rounding, of every magnitude x for which
      x + d/2 is an n-bit number; and it is itself an n-bit number. */
  ghost predicate DividesBy(n: nat, d: nat, recip: nat, corr: nat, shift: nat)
    requires d > 0
  {
    && recip < Pow2(n)
    && corr <= d / 2 + 1
    && forall x: nat :: x + d / 2 < Pow2(n) ==> Multiplied(x, recip, corr, shift) == Rounded(x, d)
  }

  /** An odd divisor of a power of two is 1. */
  lemma {:induction false} OddDivisor(q: nat, d: nat, r: nat)
    requires q * d == Pow2(r) && q % 2 == 1
    ensures q == 1
  {
    if r == 0 {
      assert d >= 1;
      MulAtLeast(d, q);
    } else {
      OddTimesOdd(q, d);
      OddDivisor(q, d / 2, r - 1);
    }
  }

  lemma OddTimesOdd(q: nat, d: nat)
    requires q % 2 == 1 && q * d % 2 == 0
    ensures d % 2 == 0 && q * d == 2 * (q * (d / 2))
  {
    var h := q / 2;
    assert q * d == 2 * (h * d) + d by {
      Distribute(2 * h, 1, d);
      assert 2 * h * d == 2 * (h * d);
    }
    assert d == 2 * (d / 2);
    assert q * (2 * (d / 2)) == 2 * (q * (d / 2));
  }

  /** Dividing by g * d after multiplying by g. */
  lemma CommonFactor(y: nat, g: nat, d: nat)
    requires g > 0 && d > 0
    ensures g * d > 0 && y * g / (g * d) == y / d
  {
    var q, s := y / d, y % d;
    MulAtLeast(g, d);
    FloorBounds(y, d);
    Distribute(q * d, s, g);
    assert q * d * g == q * (g * d);
    MulLess(s, d, g);
    assert d * g == g * d;
    DivUnique(y * g, g * d, q, s * g);
  }

  lemma QuotientEven(n: nat, d: nat, b: nat, fq: nat)
    requires 1 < d < Pow2(b + 1) && fq * d == Pow2(n + b) && n > 0
    ensures fq % 2 == 0
  {
    if fq % 2 == 1 {
      OddDivisor(fq, d, n + b);
      Pow2Mono(b + 1, n + b);
    }
  }

  /** 2^r is an exact multiple of d. */
  lemma ExactCase(n: nat, d: nat, b: nat, fq: nat)
    requires 1 < d && Pow2(b) <= d < Pow2(b + 1) && fq * d == Pow2(n + b) && n > 0
    ensures fq % 2 == 0 && DividesBy(n, d, fq / 2, d / 2, n + b - 1)
  {
    var g := fq / 2;
    QuotientEven(n, d, b, fq);
    assert Pow2(n + b) == 2 * Pow2(n + b - 1);
    Pow2Add(n, b);
    assert fq * d == 2 * (g * d) by { Assoc(2, g, d); }
    hide Pow2;
    MulMono(g, 0, d);
    if g >= Pow2(n) {
      ProductAtLeast(g, Pow2(n), d, Pow2(b));
    }
    forall x: nat | x + d / 2 < Pow2(n)
      ensures Multiplied(x, g, d / 2, n + b - 1) == Rounded(x, d)
    {
      CommonFactor(x + d / 2, g, d);
    }
  }

  lemma ProductAtLeast(a: nat, b: nat, c: nat, d: nat)
    requires a >= b && c >= d
    ensures a * c >= b * d
  {
    Distribute(b, a - b, c);
    Distribute(d, c - d, b);
    assert (a - b) * c >= 0 && (c - d) * b >= 0;
  }

  /** The quotient rounded down: it is at least half of 2^n. */
  lemma QuotientLarge(n: nat, d: nat, b: nat, fq: nat, fr: nat)
    requires n > 0 && Pow2(b) <= d < Pow2(b + 1) && fq * d + fr == Pow2(n + b) && fr < d
    ensures Pow2(n - 1) <= fq && 2 * Pow2(n - 1) == Pow2(n)
  {
    var h := Pow2(n - 1);
    Pow2Add(n - 1, b + 1);
    hide Pow2;
    if fq < h {
      MulStep(fq, h, d);
      ProductAtLeast(h, h, Pow2(b + 1), d);
    }
    HalfTwice(n);
  }

  lemma HalfTwice(n: nat)
    requires n > 0
    ensures 2 * Pow2(n - 1) == Pow2(n)
  {
  }

  /** 2^r / d rounded down, one added to the dividend. */
  lemma RoundedDown(y: nat, d: nat, half: nat, p: nat, fq: nat, fr: nat)
    requires d > 0 && fq * d + fr == p && 2 * fr <= d && fr > 0 && half <= fq && y < 2 * half
    ensures (y + 1) * fq / p == y / d
  {
    var q, s := y / d, y % d;
    FloorBounds(y, d);
    // (y + 1) * fq == q * p - q * fr + (s + 1) * fq
    Distribute(q * d, s + 1, fq);
    Assoc(q, d, fq);
    Distribute2(q, fq * d, fr);
    assert 2 * (q * fr) <= q * d by {
      MulMono(2 * fr, d, q);
      Assoc(2, fr, q);
    }
    MulMono(1, s + 1, fq);
    MulMono(s + 1, d, fq);
    DivUnique((y + 1) * fq, p, q, (s + 1) * fq - q * fr);
  }

  lemma Distribute2(x: int, y: int, z: int)
    ensures x * (y + z) == x * y + x * z
  {
  }

  /** 2^r / d rounded up. */
  lemma RoundedUp(y: nat, d: nat, half: nat, p: nat, f: nat, e: nat)
    requires d > 0 && f * d == p + e && 2 * e < d && half < f && y < 2 * half && d <= 2 * half
    ensures y * f / p == y / d
  {
    var q, s := y / d, y % d;
    FloorBounds(y, d);
    FloorAtLeast(y, d, 0);
    ProductOfParts(y, q, s, d, f, p, e);
    RemainderFits(q, s, d, half, f, e);
    RestBelow(q, s, f, e, f * d, p);
    DivUnique(y * f, p, q, q * e + s * f);
  }

  lemma ProductOfParts(y: nat, q: nat, s: nat, d: nat, f: nat, p: nat, e: nat)
    requires y == q * d + s && f * d == p + e
    ensures y * f == q * p + (q * e + s * f)
  {
    Distribute(q * d, s, f);
    Assoc(q, d, f);
    Distribute2(q, p, e);
  }

  lemma RestBelow(q: nat, s: nat, f: nat, e: nat, top: nat, p: nat)
    requires q * e + s * f + e < top && top == p + e
    ensures 0 <= q * e + s * f < p
  {
    NotNegative(q, e);
    NotNegative(s, f);
  }

  lemma NotNegative(x: nat, y: nat)
    ensures 0 <= x * y
  {
  }

  lemma RoundingErrors(q: nat, d: nat, e: nat)
    requires 2 * e < d
    ensures 2 * (q * e + e) <= q * d + d - q - 1
  {
    MulMono(2 * e, d - 1, q);
    Assoc(2, e, q);
    Distribute2(q, d, -1);
  }

  /** The rounding error does not reach the next multiple. */
  lemma RemainderFits(q: nat, s: nat, d: nat, half: nat, f: nat, e: nat)
    requires s < d && 2 * e < d && half < f && q * d + s < 2 * half && d <= 2 * half
    ensures q * e + s * f + e < f * d
  {
    RoundingErrors(q, d, e);
    if s == d - 1 {
      assert s * f == d * f - f by { Distribute(d, -1, f); }
    } else {
      assert s * f <= d * f - 2 * f by {
        MulMono(s, d - 2, f);
        Distribute(d, -2, f);
      }
    }
  }

  /** The rounded quotient stays below 2^n, because 2^r / d is at most 2^n and not a whole number. */
  lemma QuotientFits(n: nat, d: nat, b: nat, f: nat, e: int)
    requires Pow2(b) <= d < Pow2(n) && f * d == Pow2(n + b) + e && e != 0 && e < d && (e > 0 ==> Pow2(b) < d)
    ensures f < Pow2(n)
  {
    var w, p := Pow2(n), Pow2(b);
    Pow2Add(n, b);
    hide Pow2;
    MulMono(w, f, d);
    MulMono(p, d, w);
    Assoc(w, d, 1);
    Assoc(w, p, 1);
    if p < d {
      MulStep(p, d, w);
    }
  }

  lemma DownCase(n: nat, d: nat, b: nat, fq: nat, fr: nat)
    requires n > 0 && 1 < d < Pow2(n) && Pow2(b) <= d < Pow2(b + 1)
    requires fq * d + fr == Pow2(n + b) && 0 < fr <= d / 2
    ensures DividesBy(n, d, fq, d / 2 + 1, n + b)
  {
    QuotientLarge(n, d, b, fq, fr);
    QuotientFits(n, d, b, fq, 0 - fr);
    hide Pow2;
    forall x: nat | x + d / 2 < Pow2(n)
      ensures Multiplied(x, fq, d / 2 + 1, n + b) == Rounded(x, d)
    {
      RoundedDown(x + d / 2, d, Pow2(n - 1), Pow2(n + b), fq, fr);
      assert x + (d / 2 + 1) == x + d / 2 + 1;
    }
  }

  lemma UpCase(n: nat, d: nat, b: nat, fq: nat, fr: nat)
    requires n > 0 && 1 < d < Pow2(n) && Pow2(b) <= d < Pow2(b + 1)
    requires fq * d + fr == Pow2(n + b) && d / 2 < fr < d
    ensures DividesBy(n, d, fq + 1, d / 2, n + b)
  {
    QuotientLarge(n, d, b, fq, fr);
    Distribute(fq, 1, d);
    NotPower(n, d, b, fq, fr);
    QuotientFits(n, d, b, fq + 1, d - fr);
    hide Pow2;
    forall x: nat | x + d / 2 < Pow2(n)
      ensures Multiplied(x, fq + 1, d / 2, n + b) == Rounded(x, d)
    {
      RoundedUp(x + d / 2, d, Pow2(n - 1), Pow2(n + b), fq + 1, d - fr);
    }
  }

  /** A power of two leaves no remainder. */
  lemma NotPower(n: nat, d: nat, b: nat, fq: nat, fr: nat)
    requires 0 < d && fq * d + fr == Pow2(n + b) && 0 < fr < d
    ensures Pow2(b) != d
  {
    Pow2Add(n, b);
    if Pow2(b) == d {
      DivUnique(Pow2(n + b), d, Pow2(n), 0);
      DivUnique(Pow2(n + b), d, fq, fr);
    }
  }

  // ----- The multiplier of a divisor

  /** Reciprocal, correction and shift; the shift does not count the n places of the word. */
  datatype Multiplier = Multiplier(recip: nat, corr: nat, shift: int)

  function MultiplierOf(n: nat, d: nat): (m: Multiplier)
    requires d > 0
  {
    if d == 1 then Multiplier(1, 0, 0 - n) else
    var b := Log2(d);
    var p := Pow2(n + b);
    FloorAtLeast(p, d, 0);
    if p % d == 0 then Multiplier(p / d / 2, d / 2, b - 1)
    else if p % d <= d / 2 then Multiplier(p / d, d / 2 + 1, b)
    else Multiplier(p / d + 1, d / 2, b)
  }

  /** It is an n-bit multiplier for division by d. */
  lemma MultiplierDivides(n: nat, d: nat)
    requires n >= 16 && 0 < d < 0x10000
    ensures var m := MultiplierOf(n, d);
      -(n as int) <= m.shift && m.corr <= d / 2 + 1 && DividesBy(n, d, m.recip, m.corr, m.shift + n)
  {
    hide *;
    ShortDivisor(n, d);
    var b := Log2(d);
    if d == 1 {
      MultiplierOfOne(n);
      IdentityDivides(n);
    } else {
      Log2Bounds(d);
      FloorBounds(Pow2(n + b), d);
      FloorAtLeast(Pow2(n + b), d, 0);
      ReciprocalCases(n, d, b, Pow2(n + b) / d, Pow2(n + b) % d);
      MultiplierIs(n, d);
    }
  }

  lemma ShortDivisor(n: nat, d: nat)
    requires n >= 16 && 0 < d < 0x10000
    ensures d < Pow2(n) && Pow2(Log2(d) + 1) == 2 * Pow2(Log2(d)) && 0x10000 <= Pow2(n)
  {
    Pow2Table();
    assert Pow2(16) == 2 * Pow2(15);
    Pow2Mono(16, n);
  }

  lemma MultiplierOfOne(n: nat)
    ensures MultiplierOf(n, 1) == Multiplier(1, 0, 0 - n)
  {
  }

  lemma MultiplierIs(n: nat, d: nat)
    requires d > 1
    ensures var (m, b, p) := (MultiplierOf(n, d), Log2(d), Pow2(n + Log2(d)));
      if p % d == 0 then m == Multiplier(p / d / 2, d / 2, b - 1)
      else if p % d <= d / 2 then m == Multiplier(p / d, d / 2 + 1, b)
      else m == Multiplier(p / d + 1, d / 2, b)
  {
    hide Pow2, Log2;
  }

  lemma IdentityDivides(n: nat)
    requires n > 0
    ensures DividesBy(n, 1, 1, 0, 0)
  {
    assert Pow2(0) == 1 && Pow2(1) <= Pow2(n) by { Pow2Mono(1, n); }
    forall x: nat ensures Multiplied(x, 1, 0, 0) == Rounded(x, 1) {
      assert x * 1 / 1 == x;
    }
  }

  /** The three ways of rounding the reciprocal. */
  lemma ReciprocalCases(n: nat, d: nat, b: nat, fq: nat, fr: nat)
    requires n > 0 && 1 < d < Pow2(n) && Pow2(b) <= d < Pow2(b + 1)
    requires fq * d + fr == Pow2(n + b) && fr < d
    ensures b > 0
    ensures fr == 0 ==> DividesBy(n, d, fq / 2, d / 2, n + b - 1)
    ensures 0 < fr <= d / 2 ==> DividesBy(n, d, fq, d / 2 + 1, n + b)
    ensures fr > d / 2 ==> DividesBy(n, d, fq + 1, d / 2, n + b)
  {
    hide DividesBy;
    PositiveBits(b, d);
    if fr == 0 {
      ExactCase(n, d, b, fq);
    } else if fr <= d / 2 {
      DownCase(n, d, b, fq, fr);
    } else {
      UpCase(n, d, b, fq, fr);
    }
  }

  lemma PositiveBits(b: nat, d: nat)
    requires 1 < d < Pow2(b + 1)
    ensures b > 0
  {
    assert Pow2(1) == 2;
  }

  // ----- The divisor table: reciprocals, corrections, scales and shifts, 64 of each

  /** The word sizes of DCTELEM: 16 bits with SIMD extensions, 32 bits without. */
  predicate WordSize(n: nat) {
    n == 16 || n == 32
  }

  /** Slot i of a table of n-bit words holds the multiplier of d. */
  ghost predicate SlotHolds(n: nat, table: seq<int>, i: nat, d: nat)
    requires n > 0 && d > 0
  {
    var m := MultiplierOf(n, d);
    && |table| == 4 * DCTSIZE2 && i < DCTSIZE2
    && UnsignedWord(n, table[i]) == m.recip && UnsignedWord(n, table[i + DCTSIZE2]) == m.corr
    && table[i + DCTSIZE2 * 3] == m.shift
  }

  lemma SlotSet(n: nat, table: seq<int>, i: nat, d: nat)
    requires WordSize(n) && 0 < d < 0x10000 && |table| == 4 * DCTSIZE2 && i < DCTSIZE2
    requires table[i] == SignedWord(n, MultiplierOf(n, d).recip) && table[i + DCTSIZE2] == SignedWord(n, MultiplierOf(n, d).corr)
    requires table[i + DCTSIZE2 * 3] == MultiplierOf(n, d).shift
    ensures SlotHolds(n, table, i, d)
  {
    MultiplierDivides(n, d);
    ShortDivisor(n, d);
    hide MultiplierOf, Pow2, SignedWord, UnsignedWord, Log2;
    UnsignedSigned(n, MultiplierOf(n, d).recip);
    UnsignedSigned(n, MultiplierOf(n, d).corr);
  }

  lemma Slots(i: nat)
    requires i < DCTSIZE2
    ensures i + DCTSIZE2 * 3 < 4 * DCTSIZE2 && i < i + DCTSIZE2 * 1 < i + DCTSIZE2 * 2 < i + DCTSIZE2 * 3
    ensures i % DCTSIZE2 == (i + DCTSIZE2 * 1) % DCTSIZE2 == (i + DCTSIZE2 * 2) % DCTSIZE2 == (i + DCTSIZE2 * 3) % DCTSIZE2 == i
  {
  }

  /** compute_reciprocal: sets slot i up for division by the divisor; the code is 0 if the
      product is shifted by no more than 16 places, or not at all. */
  method ComputeReciprocal(n: nat, divisor: nat, dtbl: array<int>, i: nat) returns (code: int)
    requires WordSize(n) && 0 < divisor < 0x10000 && dtbl.Length == 4 * DCTSIZE2 && i < DCTSIZE2
    modifies dtbl
    ensures SlotHolds(n, dtbl[..], i, divisor)
    ensures forall j :: 0 <= j < dtbl.Length && j % DCTSIZE2 != i ==> dtbl[j] == old(dtbl[j])
    ensures code in {0, 1} && (code == 1 <==> divisor > 1 && MultiplierOf(n, divisor).shift + n > 16)
  {
    hide *;
    Slots(i);
    WordBits(n);
    var recip, corr, r := 1, 0, 0;
    if divisor == 1 {
      MultiplierOfOne(n);
      SmallWord(n);
      dtbl[i] := 1;
      dtbl[i + DCTSIZE2 * 1] := 0;
      dtbl[i + DCTSIZE2 * 2] := 1;
    } else {
      recip, corr, r := Reciprocal(n, divisor);
      dtbl[i] := SignedWord(n, recip);
      dtbl[i + DCTSIZE2 * 1] := SignedWord(n, corr);
      dtbl[i + DCTSIZE2 * 2] := if n == 16 then SignedWord(n, Pow2(32 - r)) else 1;
    }
    dtbl[i + DCTSIZE2 * 3] := r - n;
    SlotSet(n, dtbl[..], i, divisor);
    code := if divisor == 1 || r <= 16 then 0 else 1;
  }

  lemma WordBits(n: nat)
    requires WordSize(n)
    ensures n == 16 || n == 32
  {
  }

  lemma SmallWord(n: nat)
    requires n >= 16
    ensures SignedWord(n, 0) == 0 && SignedWord(n, 1) == 1
  {
    Pow2Mono(1, n - 1);
    assert Pow2(1) == 2;
  }

  /** The number of bits that flss finds. */
  lemma TopIsLog2(d: nat, top: nat)
    requires d > 1 && top >= 1 && Pow2(top - 1) <= d < Pow2(top)
    ensures top - 1 == Log2(d)
  {
    Log2Bounds(d);
    Log2Below(d, top);
    assert Pow2(Log2(d) + 1) == 2 * Pow2(Log2(d));
    hide Pow2, Log2;
    if Log2(d) + 1 < top {
      Pow2Mono(Log2(d) + 1, top - 1);
    }
  }

  /** The reciprocal of d, the correction, and the shift for their product. */
  method Reciprocal(n: nat, d: nat) returns (recip: nat, corr: nat, r: nat)
    requires n > 0 && 1 < d < 0x10000
    ensures MultiplierOf(n, d) == Multiplier(recip, corr, r - n) && (n == 16 ==> r <= 32)
  {
    hide *;
    var top := Flss(d);
    TopIsLog2(d, top);
    MultiplierIs(n, d);
    var b: nat := top - 1;
    r := n + b;
    FloorAtLeast(Pow2(r), d, 0);
    var fq, fr := Pow2(r) / d, Pow2(r) % d;
    var c := d / 2;
    if fr == 0 {
      LogPositive(d);
      fq := fq / 2;
      r := r - 1;
    } else if fr <= d / 2 {
      c := c + 1;
    } else {
      fq := fq + 1;
    }
    recip, corr := fq, c;
  }

  lemma LogPositive(d: nat)
    requires d > 1
    ensures Log2(d) > 0
  {
  }

  // ----- Quantisation

  /** Division by d of a signed value, rounded to nearest with halves away from zero. */
  function RoundedSigned(x: int, d: nat): int
    requires d > 0
  {
    if x < 0 then 0 - Rounded(-x, d) else Rounded(x, d)
  }

  function Magnitude(n: nat, temp: int): int
    requires n > 0
  {
    if temp < 0 then SignedWord(n, -temp) else temp
  }

  function WithSign(n: nat, temp: int, q: int): int
    requires n > 0
  {
    if temp < 0 then SignedWord(n, 0 - SignedWord(n, q)) else SignedWord(n, q)
  }

  /** One coefficient: sign taken off, multiplied and shifted in a double word, sign restored.
      The correction is added in 32 bits, whatever the word. */
  function Quantized(n: nat, temp: int, m: Multiplier): int
    requires n > 0 && -(n as int) <= m.shift
  {
    var product := UnsignedWord(2 * n, UnsignedWord(32, Magnitude(n, temp) + m.corr) * m.recip);
    ToCoef(WithSign(n, temp, product / Pow2(m.shift + n)))
  }

  lemma ProductFits(y: nat, recip: nat, w: nat)
    requires y <= w && recip < w && w > 1
    ensures 0 <= y * recip < w * w && y < w * w
  {
    MulMono(0, y, recip);
    MulMono(y, w, recip);
    MulLess(recip, w, w);
    Assoc(w, recip, 1);
    MulMono(2, w, w);
  }

  lemma RoundedSmaller(x: nat, d: nat)
    requires d > 0
    ensures Rounded(x, d) <= x
  {
    FloorBounds(x + d / 2, d);
    if Rounded(x, d) > x {
      MulStep(x, Rounded(x, d), d);
      MulMono(1, d, x);
      Assoc(x, d, 1);
    }
  }

  lemma WordFacts(n: nat)
    requires WordSize(n)
    ensures n >= 16 && 2 * Pow2(n - 1) == Pow2(n) <= 0x100000000 == Pow2(32) && 0x10000 <= Pow2(n) && Pow2(2 * n) == Pow2(n) * Pow2(n)
    ensures n == 16 ==> Pow2(n) == 0x10000
    ensures n == 32 ==> Pow2(n) == 0x100000000
  {
    Pow2Table();
    assert Pow2(16) == 2 * Pow2(15);
    Pow2Add(16, 16);
    Pow2Add(n, n);
  }

  /** Nothing is lost in the product, and it is the rounded quotient of the magnitude. */
  lemma ProductIs(n: nat, x: nat, d: nat, m: Multiplier)
    requires WordSize(n) && 0 < d < 0x10000 && x <= Pow2(n - 1) && (n == 16 ==> x < 0x8000)
    requires -(n as int) <= m.shift && m.corr <= d / 2 + 1 && DividesBy(n, d, m.recip, m.corr, m.shift + n)
    ensures UnsignedWord(32, x + m.corr) == x + m.corr
    ensures UnsignedWord(2 * n, (x + m.corr) * m.recip) == (x + m.corr) * m.recip >= 0
    ensures (x + m.corr) * m.recip / Pow2(m.shift + n) == Rounded(x, d) <= x
  {
    WordFacts(n);
    hide Pow2, UnsignedWord;
    assert Multiplied(x, m.recip, m.corr, m.shift + n) == Rounded(x, d);
    ProductFits(x + m.corr, m.recip, Pow2(n));
    RoundedSmaller(x, d);
  }

  /** A quotient of n bits fits the signed word, except that of the smallest word by 1, which
      comes out right all the same. */
  lemma SignRestored(n: nat, temp: int, q: nat)
    requires n > 0 && -(Pow2(n - 1) as int) <= temp < Pow2(n - 1) && q <= if temp < 0 then -temp else temp
    ensures WithSign(n, temp, q) == if temp < 0 then 0 - q else q
  {
    hide Pow2;
    if q == Pow2(n - 1) {
      assert SignedWord(n, q) == 0 - q by { DivUnique(q + q, 2 * q, 1, 0); }
      assert SignedWord(n, q) == 0 - q;
      DivUnique(q + q, 2 * q, 1, 0);
    }
  }

  /** Nothing wraps, and the result is the rounded quotient. */
  lemma QuantizedIs(n: nat, temp: int, d: nat)
    requires WordSize(n) && 0 < d < 0x10000 && -(Pow2(n - 1) as int) <= temp < Pow2(n - 1) && (n == 16 ==> temp > -0x8000)
    ensures -(n as int) <= MultiplierOf(n, d).shift && Quantized(n, temp, MultiplierOf(n, d)) == ToCoef(RoundedSigned(temp, d))
  {
    hide *;
    WordFacts(n);
    MultiplierDivides(n, d);
    var x: nat, m := if temp < 0 then -temp else temp, MultiplierOf(n, d);
    ProductIs(n, x, d, m);
    SumIs(n, temp, x, m.corr);
    QuantizedUnfolds(n, temp, m);
    SignRestored(n, temp, Rounded(x, d));
    RoundedSignedIs(temp, d);
  }

  lemma QuantizedUnfolds(n: nat, temp: int, m: Multiplier)
    requires n > 0 && -(n as int) <= m.shift
    ensures Quantized(n, temp, m)
         == ToCoef(WithSign(n, temp, UnsignedWord(2 * n, UnsignedWord(32, Magnitude(n, temp) + m.corr) * m.recip) / Pow2(m.shift + n)))
  {
    hide Pow2, UnsignedWord, ToCoef, WithSign, Magnitude;
  }

  lemma RoundedSignedIs(temp: int, d: nat)
    requires d > 0
    ensures RoundedSigned(temp, d) == if temp < 0 then 0 - Rounded(-temp, d) else Rounded(temp, d)
  {
  }

  /** The sum is taken modulo 2^32, so the negated smallest 32-bit word is its magnitude. */
  lemma SumIs(n: nat, temp: int, x: nat, corr: nat)
    requires WordSize(n) && -(Pow2(n - 1) as int) <= temp < Pow2(n - 1) && (n == 16 ==> temp > -0x8000)
    requires x == if temp < 0 then -temp else temp
    ensures UnsignedWord(32, Magnitude(n, temp) + corr) == UnsignedWord(32, x + corr)
  {
    WordFacts(n);
    hide Pow2, UnsignedWord;
    if n == 32 && temp == -0x80000000 {
      assert Magnitude(n, temp) == temp;
      SameWord(temp + corr, x + corr);
    }
  }

  lemma SameWord(a: int, b: int)
    requires b == a + 0x100000000
    ensures UnsignedWord(32, a) == UnsignedWord(32, b)
  {
    WordFacts(32);
    hide Pow2;
  }

  /** Quantisation is division with rounding by every divisor, for exactly the values a caller
      could tell beforehand: all but the smallest 16-bit word. */
  lemma QuantizesIff(n: nat, temp: int)
    requires WordSize(n) && -(Pow2(n - 1) as int) <= temp < Pow2(n - 1)
    ensures forall d :: 0 < d < 0x10000 ==> -(n as int) <= MultiplierOf(n, d).shift
    ensures (forall d :: 0 < d < 0x10000 ==> Quantized(n, temp, MultiplierOf(n, d)) == ToCoef(RoundedSigned(temp, d)))
       <==> n == 32 || temp > -0x8000
  {
    hide *;
    WordBits(n);
    WordFacts(n);
    forall d | 0 < d < 0x10000 ensures -(n as int) <= MultiplierOf(n, d).shift {
      MultiplierDivides(n, d);
    }
    if n == 32 || temp > -0x8000 {
      forall d | 0 < d < 0x10000 ensures Quantized(n, temp, MultiplierOf(n, d)) == ToCoef(RoundedSigned(temp, d)) {
        QuantizedIs(n, temp, d);
      }
    } else {
      SmallestWordFails();
      assert !(0 < 2 < 0x10000 ==> Quantized(n, temp, MultiplierOf(n, 2)) == ToCoef(RoundedSigned(temp, 2)));
    }
  }

  /** quantize: every coefficient of the workspace divided by its divisor. */
  method Quantize(n: nat, coefBlock: array<int>, divisors: array<int>, workspace: array<int>, ghost d: seq<nat>)
    requires WordSize(n) && coefBlock.Length == workspace.Length == DCTSIZE2 && divisors.Length == 4 * DCTSIZE2
    requires coefBlock != divisors && coefBlock != workspace
    requires |d| == DCTSIZE2 && forall i :: 0 <= i < DCTSIZE2 ==> 0 < d[i] < 0x10000 && SlotHolds(n, divisors[..], i, d[i])
    requires forall i :: 0 <= i < DCTSIZE2 ==> -(Pow2(n - 1) as int) <= workspace[i] < Pow2(n - 1)
    modifies coefBlock
    ensures forall i :: 0 <= i < DCTSIZE2 && (n == 16 ==> workspace[i] > -0x8000) ==>
      coefBlock[i] == ToCoef(RoundedSigned(workspace[i], d[i]))
    ensures forall i :: 0 <= i < DCTSIZE2 ==>
      -(n as int) <= MultiplierOf(n, d[i]).shift && coefBlock[i] == Quantized(n, workspace[i], MultiplierOf(n, d[i]))
  {
    hide Pow2, UnsignedWord, ToCoef, RoundedSigned, MultiplierOf, Quantized;
    var i := 0;
    while i < DCTSIZE2
      invariant i <= DCTSIZE2
      invariant forall j :: 0 <= j < i ==>
        -(n as int) <= MultiplierOf(n, d[j]).shift && coefBlock[j] == Quantized(n, workspace[j], MultiplierOf(n, d[j]))
    {
      var temp := workspace[i];
      var recip := UnsignedWord(n, divisors[i + DCTSIZE2 * 0]);
      var corr := UnsignedWord(n, divisors[i + DCTSIZE2 * 1]);
      var shift := divisors[i + DCTSIZE2 * 3];
      assert SlotHolds(n, divisors[..], i, d[i]);
      MultiplierDivides(n, d[i]);
      var out := QuantizeOne(n, temp, recip, corr, shift);
      coefBlock[i] := out;
      i := i + 1;
    }
    forall j | 0 <= j < DCTSIZE2 && (n == 16 ==> workspace[j] > -0x8000)
      ensures coefBlock[j] == ToCoef(RoundedSigned(workspace[j], d[j]))
    {
      QuantizedIs(n, workspace[j], d[j]);
    }
  }

  method QuantizeOne(n: nat, temp0: int, recip: nat, corr: nat, shift: int) returns (out: int)
    requires n > 0 && -(n as int) <= shift
    ensures out == Quantized(n, temp0, Multiplier(recip, corr, shift))
  {
    QuantizedUnfolds(n, temp0, Multiplier(recip, corr, shift));
    hide Pow2, UnsignedWord, SignedWord, ToCoef;
    var temp := temp0;
    if temp < 0 {
      temp := SignedWord(n, -temp);
      var product := UnsignedWord(2 * n, UnsignedWord(32, temp + corr) * recip);
      product := product / Pow2(shift + n);
      temp := SignedWord(n, product);
      temp := SignedWord(n, 0 - temp);
    } else {
      var product := UnsignedWord(2 * n, UnsignedWord(32, temp + corr) * recip);
      product := product / Pow2(shift + n);
      temp := SignedWord(n, product);
    }
    out := ToCoef(temp);
  }

  /** With 16-bit words the smallest workspace value has no magnitude, and comes out wrong:
      -32768 divided by 2 gives +16384. */
  lemma SmallestWordFails()
    ensures MultiplierOf(16, 2) == Multiplier(0x8000, 1, 0)
    ensures Quantized(16, -0x8000, MultiplierOf(16, 2)) == 16384 && ToCoef(RoundedSigned(-0x8000, 2)) == -16384
  {
    MultiplierOfTwo();
    WordFacts(16);
    assert Pow2(15) == 0x8000;
    hide Pow2, MultiplierOf;
    assert SignedWord(16, 0x8000) == -0x8000;
    var product := (0x100000000 - 0x8000 + 1) * 0x8000;
    assert UnsignedWord(32, -0x8000 + 1) == 0x100000000 - 0x8000 + 1;
    assert UnsignedWord(32, product) == 0xC0008000;
    assert 0xC0008000 / 0x10000 == 0xC000;
    assert SignedWord(16, 0xC000) == -0x4000;
  }

  lemma MultiplierOfTwo()
    ensures MultiplierOf(16, 2) == Multiplier(0x8000, 1, 0)
  {
    assert Log2(1) == 0 && Log2(2) == 1 + Log2(1);
    Pow2Table();
    assert Pow2(16) == 2 * Pow2(15) && Pow2(17) == 2 * Pow2(16);
    hide Pow2, Log2;
    assert 0x20000 % 2 == 0 && 0x20000 / 2 / 2 == 0x8000;
  }
}
