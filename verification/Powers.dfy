/** Powers of two, the only exponentials the coders need. */
module Powers {

  function Pow2(n: nat): (r: nat)
    ensures r >= 1
  {
    if n == 0 then 1 else 2 * Pow2(n - 1)
  }

  lemma {:induction false} Pow2Add(m: nat, n: nat)
    ensures Pow2(m + n) == Pow2(m) * Pow2(n)
  {
    if m == 0 {
    } else {
      Pow2Add(m - 1, n);
      assert Pow2(m + n) == 2 * Pow2(m - 1 + n);
    }
  }

  lemma {:induction false} Pow2Mono(m: nat, n: nat)
    requires m <= n
    ensures Pow2(m) <= Pow2(n)
    decreases n
  {
    if m < n {
      Pow2Mono(m, n - 1);
    }
  }

  lemma Doubled(x: int, n: nat)
    ensures x * Pow2(n + 1) == 2 * x * Pow2(n) == 2 * (x * Pow2(n))
  {
    var p := Pow2(n);
    assert Pow2(n + 1) == 2 * p;
    assert x * (2 * p) == 2 * x * p == 2 * (x * p);
  }

  lemma Pow2Table()
    ensures Pow2(3) == 8 && Pow2(8) == 0x100 && Pow2(16) == 0x10000
    ensures Pow2(19) == 0x80000 && Pow2(24) == 0x1000000 && Pow2(27) == 0x8000000
  {
    Pow2Add(8, 8);
    Pow2Add(16, 3);
    Pow2Add(16, 8);
    Pow2Add(24, 3);
  }

  lemma MulLess(x: nat, y: nat, p: nat)
    requires x < y && p > 0
    ensures x * p < y * p
  {
  }

  lemma ScaleUp(x: nat, m: nat, k: nat, j: nat)
    requires x < m * Pow2(k)
    ensures x * Pow2(j) < m * Pow2(k + j)
  {
    Pow2Add(k, j);
    MulLess(x, m * Pow2(k), Pow2(j));
    assert m * Pow2(k) * Pow2(j) == m * (Pow2(k) * Pow2(j));
  }

  lemma ScaleMultiple(x: nat, j: nat)
    requires x % 0x8000 == 0 && j > 0
    ensures x * Pow2(j) % 0x10000 == 0
  {
    var q, p := x / 0x8000, Pow2(j - 1);
    assert x * Pow2(j) == q * 0x8000 * (2 * p) == 0x10000 * (q * p);
  }

  lemma Distribute(x: int, y: int, p: int)
    ensures (x + y) * p == x * p + y * p
  {
  }

  lemma MulStep(x: int, y: int, m: nat)
    requires x < y
    ensures x * m + m <= y * m
  {
    Distribute(x, y - x, m);
    MulAtLeast(y - x, m);
  }

  lemma MulMono(x: int, y: int, m: nat)
    ensures x <= y ==> x * m <= y * m
  {
    if x <= y {
      Distribute(x, y - x, m);
      assert (y - x) * m >= 0;
    }
  }

  lemma MulAtLeast(x: int, m: nat)
    requires x >= 1
    ensures x * m >= m
  {
    Distribute(x - 1, 1, m);
    assert (x - 1) * m >= 0;
  }

  lemma DivUnique(v: int, m: nat, q: int, r: nat)
    requires m > 0 && r < m && v == q * m + r
    ensures v / m == q && v % m == r
  {
    FloorBounds(v, m);
    if v / m < q {
      MulStep(v / m, q, m);
    } else if q < v / m {
      MulStep(q, v / m, m);
    }
  }

  lemma FloorBounds(v: int, m: nat)
    requires m > 0
    ensures v / m * m <= v < v / m * m + m
    ensures v == v / m * m + v % m
  {
  }

  lemma FloorAtLeast(v: int, m: nat, q: int)
    requires m > 0 && q * m <= v
    ensures q <= v / m
  {
    FloorBounds(v, m);
    if v / m < q {
      MulStep(v / m, q, m);
    }
  }

  /** Shifting by one more bit. */
  lemma FloorFiner(v: int, n: nat)
    ensures v / Pow2(n) == 2 * (v / Pow2(n + 1)) + v / Pow2(n) % 2
  {
    var p := Pow2(n);
    var q, e := v / p / 2, v / p % 2;
    FloorBounds(v, p);
    Distribute(2 * q, e, p);
    assert 2 * q * p == q * (2 * p);
    assert e * p <= p;
    DivUnique(v, 2 * p, q, e * p + v % p);
  }

  lemma NegMul(x: int, p: int)
    ensures (-x) * p == -(x * p)
  {
  }

  /** The position of the highest bit. */
  function Log2(v: nat): nat {
    if v < 2 then 0 else 1 + Log2(v / 2)
  }

  lemma {:induction false} Log2Bounds(v: nat)
    requires v > 0
    ensures Pow2(Log2(v)) <= v < 2 * Pow2(Log2(v))
  {
    if v >= 2 {
      Log2Bounds(v / 2);
    }
  }

  lemma Log2Below(v: nat, n: nat)
    requires 0 < v < Pow2(n)
    ensures Log2(v) < n
  {
    Log2Bounds(v);
    if n <= Log2(v) {
      Pow2Mono(n, Log2(v));
    }
  }

  lemma HalfPower(j: nat)
    ensures if Pow2(j) / 2 == 0 then j == 0 else j > 0 && Pow2(j) / 2 == Pow2(j - 1)
  {
  }

  lemma QuotientBelow(x: nat, a: nat, b: nat)
    requires x < Pow2(a + b)
    ensures 0 <= x / Pow2(b) < Pow2(a)
  {
    Pow2Add(a, b);
    var p, q := Pow2(a), Pow2(b);
    hide Pow2;
    FloorBounds(x, q);
    FloorAtLeast(x, q, 0);
    MulMono(p, x / q, q);
  }
}
