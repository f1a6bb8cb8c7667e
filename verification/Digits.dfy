/** Byte sequences read as base-256 fractions, and the zero stuffing that keeps them
    apart from markers (section D.1.6 and figure D.15 of Rec. ITU-T T.81). */
module Digits {
  import opened Powers

  type byte = b: int | 0 <= b < 256

  function Rep(b: byte, k: nat): (s: seq<byte>)
    ensures |s| == k && forall i :: 0 <= i < k ==> s[i] == b
  {
    seq(k, _ => b)
  }

  /** The i-th code byte; the coder's convention is an endless supply of zeros after the last. */
  function Digit(d: seq<byte>, i: nat): byte {
    if i < |d| then d[i] else 0
  }

  /** The first m code bytes as one number. */
  function Prefix(d: seq<byte>, m: nat): nat {
    if m == 0 then 0 else Prefix(d, m - 1) * 256 + Digit(d, m - 1)
  }

  function Val(d: seq<byte>): nat {
    Prefix(d, |d|)
  }

  lemma {:induction false} PrefixAgrees(d: seq<byte>, e: seq<byte>, m: nat)
    requires forall i :: 0 <= i < m ==> Digit(d, i) == Digit(e, i)
    ensures Prefix(d, m) == Prefix(e, m)
  {
    if m > 0 {
      PrefixAgrees(d, e, m - 1);
    }
  }

  lemma ValSnoc(d: seq<byte>, b: byte)
    ensures Val(d + [b]) == Val(d) * 256 + b
  {
    PrefixAgrees(d + [b], d, |d|);
  }

  lemma {:induction false} CarryThroughFFs(d: seq<byte>, e: seq<byte>, k: nat)
    requires Val(d) + 1 == Val(e)
    ensures Val(d + Rep(255, k)) + 1 == Val(e + Rep(0, k))
  {
    if k == 0 {
      assert d + Rep(255, 0) == d && e + Rep(0, 0) == e;
    } else {
      CarryThroughFFs(d, e, k - 1);
      assert d + Rep(255, k) == d + Rep(255, k - 1) + [255];
      assert e + Rep(0, k) == e + Rep(0, k - 1) + [0];
      ValSnoc(d + Rep(255, k - 1), 255);
      ValSnoc(e + Rep(0, k - 1), 0);
    }
  }

  lemma {:induction false} ValOfFFs(k: nat)
    ensures Val(Rep(255, k)) + 1 == Pow2(8 * k)
  {
    if k > 0 {
      ValOfFFs(k - 1);
      assert Rep(255, k) == Rep(255, k - 1) + [255];
      ValSnoc(Rep(255, k - 1), 255);
      Pow2Add(8, 8 * (k - 1));
      assert Pow2(8) == 256;
    }
  }

  // ----- Zero stuffing

  function StuffByte(b: byte): seq<byte> {
    if b == 255 then [255, 0] else [b]
  }

  function Stuff(d: seq<byte>): seq<byte> {
    if d == [] then [] else StuffByte(d[0]) + Stuff(d[1..])
  }

  lemma {:induction false} StuffConcat(d: seq<byte>, e: seq<byte>)
    ensures Stuff(d + e) == Stuff(d) + Stuff(e)
  {
    if d == [] {
      assert d + e == e;
    } else {
      assert (d + e)[0] == d[0] && (d + e)[1..] == d[1..] + e;
      assert Stuff(d + e) == StuffByte(d[0]) + Stuff(d[1..] + e) && Stuff(d) == StuffByte(d[0]) + Stuff(d[1..]);
      hide Stuff, StuffByte;
      StuffConcat(d[1..], e);
      assert StuffByte(d[0]) + (Stuff(d[1..]) + Stuff(e)) == StuffByte(d[0]) + Stuff(d[1..]) + Stuff(e);
    }
  }

  lemma StuffOne(b: byte)
    ensures Stuff([b]) == StuffByte(b)
  {
    assert Stuff([b][1..]) == [];
  }

  lemma {:induction false} StuffZeros(k: nat)
    ensures Stuff(Rep(0, k)) == Rep(0, k)
  {
    if k > 0 {
      StuffZeros(k - 1);
      assert Rep(0, k)[1..] == Rep(0, k - 1);
      assert Rep(0, k) == [0] + Rep(0, k - 1);
    }
  }
}
