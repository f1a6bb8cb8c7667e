/** Bit strings, numbers as bit strings, and bytes packed from bit strings with zero stuffing
    (section F.1.2.3 of Rec. ITU-T T.81). */
module BitString {
  import opened Powers
  import opened Digits

  type Bits = seq<bool>

  /** The n low bits of v, high bit first. */
  function BitsOf(v: nat, n: nat): (r: Bits)
    ensures |r| == n
  {
    if n == 0 then [] else BitsOf(v / 2, n - 1) + [v % 2 == 1]
  }

  /** The number a bit string spells. */
  function NumOf(b: Bits): (v: nat)
    ensures v < Pow2(|b|)
  {
    if b == [] then 0 else 2 * NumOf(b[..|b| - 1]) + if b[|b| - 1] then 1 else 0
  }

  lemma {:induction false} NumOfBits(v: nat, n: nat)
    requires v < Pow2(n)
    ensures NumOf(BitsOf(v, n)) == v
  {
    if n > 0 {
      NumOfBits(v / 2, n - 1);
      assert BitsOf(v, n)[..n - 1] == BitsOf(v / 2, n - 1);
    }
  }

  lemma {:induction false} BitsOfNum(b: Bits)
    ensures BitsOf(NumOf(b), |b|) == b
  {
    if b != [] {
      BitsOfNum(b[..|b| - 1]);
      assert b == b[..|b| - 1] + [b[|b| - 1]];
    }
  }

  /** Shifting left and filling in from the right. */
  lemma {:induction false} BitsAppend(v: nat, n: nat, c: nat, s: nat)
    requires c < Pow2(s)
    ensures BitsOf(v * Pow2(s) + c, n + s) == BitsOf(v, n) + BitsOf(c, s)
  {
    if s == 0 {
      assert v * 1 + 0 == v;
      assert BitsOf(v, n) + [] == BitsOf(v, n);
    } else {
      var h := Pow2(s - 1);
      assert v * (2 * h) == 2 * (v * h);
      BitsAppend(v, n, c / 2, s - 1);
      assert BitsOf(v, n) + BitsOf(c, s) == BitsOf(v, n) + BitsOf(c / 2, s - 1) + [c % 2 == 1];
    }
  }

  /** Only the low bits matter. */
  lemma {:induction false} BitsMod(v: nat, q: nat, n: nat)
    ensures BitsOf(v + q * Pow2(n), n) == BitsOf(v, n)
  {
    if n > 0 {
      var h := Pow2(n - 1);
      assert q * (2 * h) == 2 * (q * h);
      BitsMod(v / 2, q, n - 1);
    }
  }

  lemma BitsModEq(v: nat, n: nat)
    ensures 0 <= v % Pow2(n) && BitsOf(v % Pow2(n), n) == BitsOf(v, n)
  {
    FloorBounds(v, Pow2(n));
    FloorAtLeast(v, Pow2(n), 0);
    BitsMod(v % Pow2(n), v / Pow2(n), n);
  }

  /** The upper bits of a number: a shift right. */
  lemma {:induction false} BitsPrefix(v: nat, n: nat, s: nat)
    requires s <= n
    ensures 0 <= v / Pow2(s) && BitsOf(v, n)[..n - s] == BitsOf(v / Pow2(s), n - s)
    decreases s
  {
    FloorAtLeast(v, Pow2(s), 0);
    if s == 0 {
      assert v / 1 == v;
      assert BitsOf(v, n)[..n] == BitsOf(v, n);
    } else {
      BitsPrefix(v / 2, n - 1, s - 1);
      HalfAgain(v, s);
      assert BitsOf(v, n)[..n - s] == BitsOf(v / 2, n - 1)[..n - s];
    }
  }

  lemma HalfAgain(v: nat, s: nat)
    requires s > 0
    ensures v / Pow2(s) == v / 2 / Pow2(s - 1)
  {
    var p := Pow2(s - 1);
    assert Pow2(s) == 2 * p;
    FloorBounds(v / 2, p);
    var q, r := v / 2 / p, v / 2 % p;
    assert q * (2 * p) == 2 * (q * p);
    DivUnique(v, 2 * p, q, 2 * r + v % 2);
  }

  lemma {:induction false} BitsSuffix(v: nat, n: nat, s: nat)
    requires s <= n
    ensures BitsOf(v, n)[n - s..] == BitsOf(v, s)
  {
    if s > 0 {
      BitsSuffix(v / 2, n - 1, s - 1);
      assert BitsOf(v, n)[n - s..] == BitsOf(v / 2, n - 1)[n - s..] + [v % 2 == 1];
    }
  }

  // ----- Packing

  /** Whole bytes of a bit string. */
  function Pack(b: Bits): seq<byte>
    requires |b| % 8 == 0
  {
    if b == [] then [] else
    assert Pow2(8) == 256 by { Pow2Table(); }
    [NumOf(b[..8])] + Pack(b[8..])
  }

  lemma {:induction false} PackConcat(a: Bits, b: Bits)
    requires |a| % 8 == 0 && |b| % 8 == 0
    ensures Pack(a + b) == Pack(a) + Pack(b)
  {
    if a == [] {
      assert a + b == b;
    } else {
      PackConcat(a[8..], b);
      assert (a + b)[..8] == a[..8] && (a + b)[8..] == a[8..] + b;
    }
  }

  lemma PackByte(v: nat)
    requires v < 256
    ensures Pack(BitsOf(v, 8)) == [v]
  {
    Pow2Table();
    NumOfBits(v, 8);
    assert BitsOf(v, 8)[..8] == BitsOf(v, 8) && BitsOf(v, 8)[8..] == [];
  }

  /** The code bytes of a bit string: packed, every 0xFF followed by a zero. */
  function Stuffed(b: Bits): seq<byte>
    requires |b| % 8 == 0
  {
    Stuff(Pack(b))
  }

  lemma StuffedConcat(a: Bits, b: Bits)
    requires |a| % 8 == 0 && |b| % 8 == 0
    ensures Stuffed(a + b) == Stuffed(a) + Stuffed(b)
  {
    PackConcat(a, b);
    StuffConcat(Pack(a), Pack(b));
  }

  /** Unpacking. */
  function Unpack(d: seq<byte>): (b: Bits)
    ensures |b| == 8 * |d|
  {
    if d == [] then [] else BitsOf(d[0], 8) + Unpack(d[1..])
  }

  lemma {:induction false} UnpackPack(b: Bits)
    requires |b| % 8 == 0
    ensures Unpack(Pack(b)) == b
  {
    if b != [] {
      UnpackPack(b[8..]);
      Pow2Table();
      BitsOfNum(b[..8]);
      assert Pack(b)[1..] == Pack(b[8..]);
      assert b == b[..8] + b[8..];
    }
  }

  /** Ones up to the next whole byte. */
  function Padding(n: nat): (r: Bits)
    ensures |r| == (8 - n % 8) % 8 && (n + |r|) % 8 == 0
  {
    seq((8 - n % 8) % 8, _ => true)
  }

  /** The code bytes of a bit string of any length, padded with ones. */
  function Finished(b: Bits): seq<byte> {
    Stuffed(b + Padding(|b|))
  }

  lemma {:induction false} OnesBits(n: nat)
    ensures BitsOf(Pow2(n) - 1, n) == seq(n, _ => true)
  {
    if n > 0 {
      OnesBits(n - 1);
      assert (Pow2(n) - 1) / 2 == Pow2(n - 1) - 1 && (Pow2(n) - 1) % 2 == 1;
      assert seq(n, _ => true) == seq(n - 1, _ => true) + [true];
    }
  }
}
