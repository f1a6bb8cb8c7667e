/** The ideal arithmetic coder: a coding interval of unbounded precision that every
    decision narrows (sections D.1.2 to D.1.5 of Rec. ITU-T T.81).  Encoder and
    decoder are both proved against it. */
module Interval {
  import opened Powers
  import opened Digits
  import opened ProbTable

  /** A binary decision together with the statistics bin that predicts it. */
  datatype Decision = Decision(bin: nat, bit: bool)

  /** The interval [b, b + a) in units of 2^-(16+n). */
  datatype Iv = Iv(b: nat, a: nat, n: nat)

  const START := Iv(0, 0x10000, 0)

  // ----- Statistics bins: one byte each, sense of the MPS in bit 7, table row below

  ghost predicate BinOk(T: Table, sv: nat) {
    sv < 256 && sv % 128 < |T|
  }

  ghost predicate BinsOk(T: Table, bins: seq<nat>) {
    forall i :: 0 <= i < |bins| ==> BinOk(T, bins[i])
  }

  function Sense(sv: nat): bool {
    sv / 128 % 2 == 1
  }

  /** (sv & 0x80) ^ next on bytes. */
  function Succ(sv: nat, next: nat): nat {
    (sv / 128 + next / 128) % 2 * 128 + next % 128
  }

  function RowOf(T: Table, sv: nat): Entry
    requires BinOk(T, sv)
  {
    T[sv % 128]
  }

  // ----- Coding one decision

  /** The MPS has the lower sub-interval unless that one is the smaller. */
  function TakesUpper(a: nat, qe: nat, lps: bool): bool {
    lps == (a - qe >= qe)
  }

  function Narrow(iv: Iv, qe: nat, upper: bool): Iv
    requires qe <= iv.a
  {
    if upper then Iv(iv.b + iv.a - qe, qe, iv.n) else Iv(iv.b, iv.a - qe, iv.n)
  }

  function Renorm(iv: Iv): (r: Iv)
    requires 0 < iv.a <= 0x10000
    ensures 0x8000 <= r.a <= 0x10000
    decreases 0x8000 - iv.a
  {
    if iv.a < 0x8000 then Renorm(Iv(2 * iv.b, 2 * iv.a, iv.n + 1)) else iv
  }

  ghost predicate IvOk(iv: Iv) {
    0x8000 <= iv.a <= 0x10000
  }

  /** The bin's successor: no change while the MPS leaves the interval normalised. */
  function NextBin(T: Table, sv: nat, a: nat, lps: bool): (r: nat)
    requires BinOk(T, sv) && 0x8000 <= a
    ensures BinOk(T, r)
  {
    var e := RowOf(T, sv);
    if lps then Succ(sv, e.nl) else if a - e.qe >= 0x8000 then sv else Succ(sv, e.nm)
  }

  function Code(T: Table, iv: Iv, sv: nat, bit: bool): (r: Iv)
    requires IvOk(iv) && BinOk(T, sv)
    ensures IvOk(r)
  {
    var lps := bit != Sense(sv);
    Renorm(Narrow(iv, RowOf(T, sv).qe, TakesUpper(iv.a, RowOf(T, sv).qe, lps)))
  }

  ghost predicate InRange(ds: seq<Decision>, count: nat) {
    forall i :: 0 <= i < |ds| ==> ds[i].bin < count
  }

  /** The bins after coding ds. */
  function BinsAfter(T: Table, iv: Iv, bins: seq<nat>, ds: seq<Decision>): (r: seq<nat>)
    requires IvOk(iv) && BinsOk(T, bins) && InRange(ds, |bins|)
    ensures |r| == |bins| && BinsOk(T, r)
    decreases |ds|
  {
    if ds == [] then bins else
    var d := ds[0];
    var sv := bins[d.bin];
    BinsAfter(T, Code(T, iv, sv, d.bit), bins[d.bin := NextBin(T, sv, iv.a, d.bit != Sense(sv))], ds[1..])
  }

  /** The interval after coding ds. */
  function IvAfter(T: Table, iv: Iv, bins: seq<nat>, ds: seq<Decision>): (r: Iv)
    requires IvOk(iv) && BinsOk(T, bins) && InRange(ds, |bins|)
    ensures IvOk(r)
    decreases |ds|
  {
    if ds == [] then iv else
    var d := ds[0];
    var sv := bins[d.bin];
    IvAfter(T, Code(T, iv, sv, d.bit), bins[d.bin := NextBin(T, sv, iv.a, d.bit != Sense(sv))], ds[1..])
  }

  // ----- Code points inside an interval

  /** The fraction written by d, cut after m bytes, lies in iv. */
  ghost predicate Holds(d: seq<byte>, m: nat, iv: Iv) {
    && 16 + iv.n <= 8 * m
    && iv.b * Pow2(8 * m - 16 - iv.n) <= Prefix(d, m) < (iv.b + iv.a) * Pow2(8 * m - 16 - iv.n)
  }

  /** Cutting the fraction earlier keeps it inside, as long as the cut is not
      coarser than the interval's own unit. */
  lemma {:induction false} HoldsCut(d: seq<byte>, m: nat, k: nat, iv: Iv)
    requires Holds(d, m, iv) && k <= m && 16 + iv.n <= 8 * k
    ensures Holds(d, k, iv)
    decreases m
  {
    if k < m {
      var e := 8 * (m - 1) - 16 - iv.n;
      TimesByte(iv.b, e);
      TimesByte(iv.b + iv.a, e);
      hide Pow2;
      assert 8 * m - 16 - iv.n == 8 + e;
      assert Prefix(d, m) == Prefix(d, m - 1) * 256 + Digit(d, m - 1);
      assert Holds(d, m - 1, iv);
      HoldsCut(d, m - 1, k, iv);
    }
  }

  lemma TimesByte(x: nat, e: nat)
    ensures x * Pow2(8 + e) == 256 * (x * Pow2(e))
  {
    Pow2Add(8, e);
    Pow2Table();
    var p := Pow2(e);
    hide Pow2;
    assert x * (256 * p) == 256 * (x * p);
  }

  lemma {:induction false} HoldsRenorm(d: seq<byte>, m: nat, iv: Iv)
    requires 0 < iv.a <= 0x10000 && Holds(d, m, Renorm(iv))
    ensures Holds(d, m, iv)
    ensures Renorm(iv).n >= iv.n
    decreases 0x8000 - iv.a
  {
    if iv.a < 0x8000 {
      var iv2 := Iv(2 * iv.b, 2 * iv.a, iv.n + 1);
      HoldsRenorm(d, m, iv2);
      var e := 8 * m - 16 - iv2.n;
      Doubled(iv.b, e);
      Doubled(iv.b + iv.a, e);
      assert 8 * m - 16 - iv.n == e + 1 && iv2.b + iv2.a == 2 * (iv.b + iv.a);
    }
  }

  lemma HoldsNarrow(d: seq<byte>, m: nat, iv: Iv, qe: nat, upper: bool)
    requires qe <= iv.a && Holds(d, m, Narrow(iv, qe, upper))
    ensures Holds(d, m, iv)
  {
    hide Pow2, Prefix;
    var p := Pow2(8 * m - 16 - iv.n);
    MulMono(iv.b, iv.b + iv.a - qe, p);
    MulMono(iv.b + iv.a - qe, iv.b + iv.a, p);
  }

  /** Intervals nest: a code point of the last interval is one of every earlier one. */
  lemma {:induction false} HoldsEarlier(T: Table, d: seq<byte>, m: nat, iv: Iv, bins: seq<nat>, ds: seq<Decision>)
    requires IvOk(iv) && BinsOk(T, bins) && InRange(ds, |bins|)
    requires Holds(d, m, IvAfter(T, iv, bins, ds))
    ensures Holds(d, m, iv)
    decreases |ds|
  {
    if ds != [] {
      var sv := bins[ds[0].bin];
      var lps := ds[0].bit != Sense(sv);
      var upper := TakesUpper(iv.a, RowOf(T, sv).qe, lps);
      HoldsEarlier(T, d, m, Code(T, iv, sv, ds[0].bit), bins[ds[0].bin := NextBin(T, sv, iv.a, lps)], ds[1..]);
      HoldsRenorm(d, m, Narrow(iv, RowOf(T, sv).qe, upper));
      HoldsNarrow(d, m, iv, RowOf(T, sv).qe, upper);
    }
  }
}
