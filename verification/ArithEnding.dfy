/** Which code point the encoder ends on (section D.1.8 of Rec. ITU-T T.81): the one with the most
    trailing zeros, so that no shorter code would do. */
module ArithEnding {
  import opened Powers
  import opened Digits
  import opened ProbTable
  import opened Interval
  import opened ArithEncoding

  // ----- The point in the registers

  lemma ProductMultiple(q: nat, a: nat, b: nat)
    requires b > 0
    ensures q * (a * b) % b == 0
  {
    assert q * (a * b) == q * a * b;
    DivUnique(q * (a * b), b, q * a, 0);
  }

  lemma MultipleOf(t: nat, k: nat, j: nat)
    requires t % Pow2(k) == 0 && j <= k
    ensures t % Pow2(j) == 0
  {
    Pow2Add(k - j, j);
    hide Pow2;
    FloorBounds(t, Pow2(k));
    FloorAtLeast(t, Pow2(k), 0);
    ProductMultiple(t / Pow2(k), Pow2(k - j), Pow2(j));
  }

  /** The interval has room for one multiple of 2^16 at most. */
  lemma CoarseIsTarget(c: nat, a: nat, t: nat)
    requires 0x8000 <= a <= 0x10000 && c <= t < c + a && t % 0x10000 == 0
    ensures t == Target(c, a)
  {
    var q := (a - 1 + c) / 0x10000;
    FloorBounds(a - 1 + c, 0x10000);
    FloorBounds(t, 0x10000);
  }

  /** No point of the interval has more trailing zero bits. */
  lemma TargetRoundest(c: nat, a: nat, t: nat, k: nat)
    requires 0x8000 <= a <= 0x10000 && c <= t < c + a && t % Pow2(k) == 0
    ensures Target(c, a) % Pow2(k) == 0
  {
    Pow2Table();
    if k >= 16 {
      MultipleOf(t, k, 16);
      CoarseIsTarget(c, a, t);
    } else {
      MultipleOf(Target(c, a), 15, k);
    }
  }

  // ----- The fraction it writes

  lemma ScaledSum(V: nat, t: nat, q: nat, p: nat, r: nat)
    requires q * p == r
    ensures (V * q + t) * (32 * p) == 32 * (V * r + t * p)
  {
    assert V * q * p == V * (q * p);
    assert (V * q + t) * p == V * q * p + t * p;
  }

  lemma InsideScaled(V: nat, b: nat, c: nat, a: nat, t: nat, ct: nat)
    requires ct <= 11 && b == V * Pow2(27 - ct) + c && c <= t < c + a
    ensures b * Pow2(5 + ct) <= 32 * (V * 0x8000000 + t * Pow2(ct)) < (b + a) * Pow2(5 + ct)
  {
    var p, q := Pow2(ct), Pow2(27 - ct);
    assert q * p == 0x8000000 && Pow2(5 + ct) == 32 * p by {
      Pow2Table();
      Pow2Add(27 - ct, ct);
      Pow2Add(5, ct);
      assert Pow2(5) == 32;
    }
    ScaledSum(V, t, q, p, 0x8000000);
    MulLess(V * q + t, b + a, 32 * p);
    if c < t {
      MulLess(b, V * q + t, 32 * p);
    }
  }

  /** Two more digits than full has. */
  lemma TwoZeros(code: seq<byte>, full: seq<byte>)
    requires forall i: nat :: Digit(code, i) == Digit(full, i)
    ensures Prefix(code, |full| + 2) == Val(full) * 0x10000
  {
    PrefixAgrees(code, full, |full| + 2);
    assert Prefix(full, |full| + 1) == Prefix(full, |full|) * 256;
  }

  lemma HoldsScaled(code: seq<byte>, m: nat, iv: Iv, k: nat, v: nat)
    requires 8 * m == 16 + iv.n + k && Prefix(code, m) == v && iv.b * Pow2(k) <= v < (iv.b + iv.a) * Pow2(k)
    ensures Holds(code, m, iv)
  {
    hide Prefix, Pow2;
  }

  // ----- No shorter fraction lies in the interval

  lemma {:induction false} PrefixLong(s: seq<byte>, m: nat)
    requires |s| <= m
    ensures Prefix(s, m) == Val(s) * Pow2(8 * (m - |s|))
    decreases m
  {
    if |s| < m {
      PrefixLong(s, m - 1);
      Pow2Add(8 * (m - 1 - |s|), 8);
      Pow2Table();
      hide Pow2;
      assert Val(s) * Pow2(8 * (m - 1 - |s|)) * 256 == Val(s) * (Pow2(8 * (m - 1 - |s|)) * 256);
    }
  }

  lemma {:induction false} SameDigits(a: seq<byte>, b: seq<byte>, m: nat, i: nat)
    requires Prefix(a, m) == Prefix(b, m) && i < m
    ensures Digit(a, i) == Digit(b, i)
  {
    var x, y := Prefix(a, m - 1), Prefix(b, m - 1);
    assert x * 256 + Digit(a, m - 1) == y * 256 + Digit(b, m - 1);
    DivUnique(Prefix(a, m), 256, x, Digit(a, m - 1));
    DivUnique(Prefix(a, m), 256, y, Digit(b, m - 1));
    if i < m - 1 {
      SameDigits(a, b, m - 1, i);
    }
  }

  lemma CleanIsShort(code: seq<byte>, j: nat)
    requires Clean(code) && forall i: nat :: i >= j ==> Digit(code, i) == 0
    ensures |code| <= j
  {
    assert code == [] || Digit(code, |code| - 1) != 0;
  }

  lemma Cancel(x: nat, y: nat, z: nat, p: nat)
    requires p > 0 && x * p <= y * p < z * p
    ensures x <= y < z
  {
    if y < x {
      MulLess(y, x, p);
    }
    if z <= y {
      MulMono(z, y, p);
    }
  }

  /** A fraction of j digits in the interval, in units of the registers. */
  lemma InRegisters(e: Enc, d: seq<byte>, start: seq<byte>, iv: Iv, s: seq<byte>, m: nat) returns (u: nat)
    requires Pictures(e, d, start, iv) && |s| <= m && Holds(s, m, iv) && |s| <= |Decided(e, d)| + 1
    ensures e.ct <= 11 && u == Val(s) * Pow2(27 - e.ct + 8 * |Decided(e, d)| - 8 * |s|)
    ensures iv.b <= u < iv.b + iv.a
  {
    hide *;
    PictureShape(e, d, start, iv);
    HoldsIs(s, m, iv);
    var k, q := 8 * m - 16 - iv.n, 27 - e.ct + 8 * |Decided(e, d)| - 8 * |s|;
    PrefixLong(s, m);
    Pow2Add(q, k);
    u := Val(s) * Pow2(q);
    Reordered(Val(s), Pow2(q), Pow2(k));
    Cancel(iv.b, u, iv.b + iv.a, Pow2(k));
  }

  lemma HoldsIs(d: seq<byte>, m: nat, iv: Iv)
    requires Holds(d, m, iv)
    ensures 16 + iv.n <= 8 * m
    ensures iv.b * Pow2(8 * m - 16 - iv.n) <= Prefix(d, m) < (iv.b + iv.a) * Pow2(8 * m - 16 - iv.n)
  {
  }

  lemma TwoMultiples(x: nat, y: nat, d: nat)
    requires d > 0 && x % d == 0 && y % d == 0 && x >= y
    ensures (x - y) % d == 0
  {
    FloorBounds(x, d);
    FloorBounds(y, d);
    Distribute(x / d, -(y / d), d);
    DivUnique(x - y, d, x / d - y / d, 0);
  }

  lemma PowerMultiple(x: nat, q: nat, j: nat)
    requires j <= q
    ensures x * Pow2(q) % Pow2(j) == 0
  {
    Pow2Add(q - j, j);
    hide Pow2;
    ProductMultiple(x, Pow2(q - j), Pow2(j));
  }

  /** With one digit beyond those decided, the last digit written is zero. */
  lemma OneDigitMore(v: nat, t: nat, ct: nat, u: nat, q: nat, c: nat, a: nat, x: nat, f: nat)
    requires 1 <= ct <= 11 && 0x8000 <= a <= 0x10000 && q == 19 - ct && u == x * Pow2(q)
    requires v * Pow2(27 - ct) + c <= u < v * Pow2(27 - ct) + c + a
    requires t == Target(c, a) && f * 0x800 == v * 0x8000000 + t * Pow2(ct)
    ensures f % 256 == 0
  {
    var w := u - v * Pow2(27 - ct);
    PowerMultiple(x, q, q);
    PowerMultiple(v, 27 - ct, q);
    TwoMultiples(u, v * Pow2(27 - ct), Pow2(q));
    TargetRoundest(c, a, w, q);
    hide Target;
    Pow2Add(q, ct);
    Pow2Table();
    hide Pow2;
    FloorBounds(t, Pow2(q));
    FloorAtLeast(t, Pow2(q), 0);
    Reordered(t / Pow2(q), Pow2(q), Pow2(ct));
    LastDigitZero(f, v, t / Pow2(q));
  }

  lemma Reordered(x: nat, y: nat, z: nat)
    ensures x * y * z == x * (y * z)
  {
  }

  lemma LastDigitZero(f: nat, v: nat, y: nat)
    requires f * 0x800 == v * 0x8000000 + y * 0x80000
    ensures f % 256 == 0
  {
  }

  /** With no more digits than those decided the point is the very one that is written. */
  lemma SamePoint(v: nat, t: nat, ct: nat, u: nat, q: nat, c: nat, a: nat, x: nat, f: nat, r: nat)
    requires 1 <= ct <= 11 && 0x8000 <= a <= 0x10000 && q == 27 - ct + r && u == x * Pow2(q)
    requires v * Pow2(27 - ct) + c <= u < v * Pow2(27 - ct) + c + a
    requires t == Target(c, a) && f * 0x800 == v * 0x8000000 + t * Pow2(ct)
    ensures f == x * Pow2(16 + r)
  {
    var w := u - v * Pow2(27 - ct);
    PowerMultiple(x, q, 27 - ct);
    PowerMultiple(v, 27 - ct, 27 - ct);
    TwoMultiples(u, v * Pow2(27 - ct), Pow2(27 - ct));
    MultipleOf(w, 27 - ct, 16);
    Pow2Table();
    CoarseIsTarget(c, a, w);
    hide Target;
    Pow2Add(q, ct);
    Pow2Add(27 - ct, ct);
    Pow2Add(11, 16 + r);
    assert Pow2(11) == 0x800;
    hide Pow2;
    Distribute(v * Pow2(27 - ct), t, Pow2(ct));
    Reordered(v, Pow2(27 - ct), Pow2(ct));
    Reordered(x, Pow2(q), Pow2(ct));
    Reordered(x, Pow2(16 + r), 0x800);
    assert f * 0x800 == x * Pow2(16 + r) * 0x800;
  }

  /** No fraction with fewer digits than were written lies in the interval. */
  lemma NoShorter(e: Enc, d: seq<byte>, start: seq<byte>, iv: Iv, code: seq<byte>, full: seq<byte>, s: seq<byte>, m: nat)
    requires Pictures(e, d, start, iv) && 0x8000 <= e.a && Clean(code) && |full| == |Decided(e, d)| + 2
    requires Val(full) * 0x800 == Val(Decided(e, d)) * 0x8000000 + Target(e.c, e.a) * Pow2(e.ct)
    requires forall i: nat :: Digit(code, i) == Digit(full, i)
    requires |s| <= m && Holds(s, m, iv) && |s| < |full|
    ensures |code| <= |s|
  {
    hide *;
    PictureShape(e, d, start, iv);
    var u := InRegisters(e, d, start, iv, s, m);
    var v, t, j, n := Val(Decided(e, d)), Target(e.c, e.a), |s|, |full|;
    ValIs(full);
    if j == n - 1 {
      OneDigitMore(v, t, e.ct, u, 19 - e.ct, e.c, e.a, Val(s), Val(full));
      LastDigit(full);
    } else {
      var r := 8 * (n - 2 - j);
      SamePoint(v, t, e.ct, u, 27 - e.ct + r, e.c, e.a, Val(s), Val(full), r);
      PrefixLong(s, n);
      forall i: nat | j <= i < n ensures Digit(full, i) == 0 {
        SameDigits(full, s, n, i);
        NoDigit(s, i);
      }
    }
    forall i: nat | i >= j ensures Digit(code, i) == 0 {
      if i >= n {
        NoDigit(full, i);
      }
    }
    CleanIsShort(code, j);
  }

  lemma ValIs(d: seq<byte>)
    ensures Val(d) == Prefix(d, |d|)
  {
  }

  lemma NoDigit(d: seq<byte>, i: nat)
    requires i >= |d|
    ensures Digit(d, i) == 0
  {
  }

  lemma LastDigit(d: seq<byte>)
    requires d != [] && Val(d) % 256 == 0
    ensures Digit(d, |d| - 1) == 0
  {
    DivUnique(Val(d), 256, Prefix(d, |d| - 1), Digit(d, |d| - 1));
  }

  /** What finish_pass leaves in the file is a code point of the final interval.  It ends with no zero
      byte, and no shorter code has its point in the interval. */
  lemma FinishHolds(e: Enc, d: seq<byte>, start: seq<byte>, iv: Iv) returns (code: seq<byte>, m: nat)
    requires Pictures(e, d, start, iv) && 0x8000 <= e.a
    ensures FinishPass(e).out == start + Stuff(code) && (code == [] || code[|code| - 1] != 0)
    ensures Holds(code, m, iv)
    ensures forall s: seq<byte>, n: nat :: |s| <= n && Holds(s, n, iv) ==> |code| <= |s|
  {
    hide *;
    PictureShape(e, d, start, iv);
    var full;
    code, full := FinishWrites(e, d, start, iv);
    CleanIs(code);
    m := |full| + 2;
    TwoZeros(code, full);
    var t := Target(e.c, e.a);
    InsideScaled(Val(Decided(e, d)), iv.b, e.c, e.a, t, e.ct);
    HoldsScaled(code, m, iv, 5 + e.ct, 32 * (Val(Decided(e, d)) * 0x8000000 + t * Pow2(e.ct)));
    forall s: seq<byte>, n: nat | |s| <= n && Holds(s, n, iv) ensures |code| <= |s| {
      if |s| < |full| {
        NoShorter(e, d, start, iv, code, full, s, n);
      } else {
        CodeWithin(code, full);
      }
    }
  }

  lemma CleanIs(code: seq<byte>)
    requires Clean(code)
    ensures code == [] || code[|code| - 1] != 0
  {
  }

  lemma CodeWithin(code: seq<byte>, full: seq<byte>)
    requires Clean(code) && forall i: nat :: Digit(code, i) == Digit(full, i)
    ensures |code| <= |full|
  {
    CleanIsShort(code, |full|);
  }

  /** The same for whole runs: the bytes after any decisions are the shortest whose fraction lies in
      the interval that the decisions lead to. */
  lemma CodeIsShortest(T: Table, before: seq<byte>, bins: seq<nat>, ds: seq<Decision>) returns (digits: seq<byte>, m: nat)
    requires BinsOk(T, bins) && InRange(ds, |bins|)
    ensures FinishPass(EncodeAll(T, Fresh(before, bins), ds)).out == before + Stuff(digits)
    ensures Holds(digits, m, IvAfter(T, START, bins, ds)) && (digits == [] || digits[|digits| - 1] != 0)
    ensures forall s: seq<byte>, n: nat :: |s| <= n && Holds(s, n, IvAfter(T, START, bins, ds)) ==> |digits| <= |s|
  {
    var e := Fresh(before, bins);
    FreshPictures(before, bins);
    var d := EncodeAllPictures(T, e, [], before, START, ds);
    hide Holds, FinishPass, EncodeAll, IvAfter, Stuff, Pictures;
    digits, m := FinishHolds(EncodeAll(T, e, ds), d, before, IvAfter(T, START, bins, ds));
  }
}
