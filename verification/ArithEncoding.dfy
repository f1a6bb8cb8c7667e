/** The adaptive binary arithmetic encoder (jcarith.c): what each decision does to the
    registers, and the invariant tying the registers to the ideal interval. */
module ArithEncoding {
  import opened Powers
  import opened Digits
  import opened ProbTable
  import opened Interval

  /** The encoder's registers and the bytes it has written.
      c: interval base, partial output bits and three spacer bits;  a: interval size;
      sc: stacked 0xFF bytes that a carry may still turn into zeros;  zc: pending zero
      bytes, dropped if nothing follows;  ct: shifts until the next byte;  buffer: the
      last byte below 0xFF, held back for a carry (-1 when there is none). */
  datatype Enc = Enc(c: nat, a: nat, sc: nat, zc: nat, ct: nat, buffer: int, out: seq<byte>, bins: seq<nat>)

  /** Every run keeps the registers in these ranges: the three spacer bits of c never
      fill up, so 32-bit registers suffice. */
  ghost predicate RegsOk(e: Enc) {
    && 0 < e.a <= 0x10000 && 1 <= e.ct <= 11
    && -1 <= e.buffer <= 254
    && e.c + e.a <= 9 * Pow2(24 - e.ct)
  }

  function Fresh(out: seq<byte>, bins: seq<nat>): (e: Enc)
    ensures RegsOk(e)
  {
    Pow2Add(8, 5);
    Enc(0, 0x10000, 0, 0, 11, -1, out, bins)
  }

  // ----- Byte output

  function WriteZeros(e: Enc): Enc {
    e.(out := e.out + Rep(0, e.zc), zc := 0)
  }

  /** A carry: it is added to the held byte, and turns the stacked 0xFF bytes to zeros. */
  function Carry(e: Enc): Enc
    requires -1 <= e.buffer <= 254
  {
    var w := if e.buffer >= 0 then
               var z := WriteZeros(e);
               z.(out := z.out + StuffByte(e.buffer + 1))
             else e;
    w.(zc := w.zc + w.sc, sc := 0)
  }

  function ReleaseHeld(e: Enc): Enc
    requires -1 <= e.buffer <= 254
  {
    if e.buffer == 0 then e.(zc := e.zc + 1)
    else if e.buffer > 0 then
      var z := WriteZeros(e);
      z.(out := z.out + StuffByte(e.buffer))
    else e
  }

  function ReleaseStacked(e: Enc): Enc {
    if e.sc == 0 then e else
    var z := WriteZeros(e);
    z.(out := z.out + Stuff(Rep(255, e.sc)), sc := 0)
  }

  /** No carry can reach the held and stacked bytes any more: release them. */
  function Release(e: Enc): Enc
    requires -1 <= e.buffer <= 254
  {
    ReleaseStacked(ReleaseHeld(e))
  }

  /** Takes the finished byte off the top of c. */
  function ByteOut(e: Enc): Enc
    requires -1 <= e.buffer <= 254
  {
    var temp := e.c / 0x80000;
    var w := if temp > 0xFF then Carry(e).(buffer := temp % 256)
             else if temp == 0xFF then e.(sc := e.sc + 1)
             else Release(e).(buffer := temp);
    w.(c := e.c % 0x80000, ct := e.ct + 8)
  }

  /** One turn of the renormalisation loop. */
  function Shift(e: Enc): (r: Enc)
    requires RegsOk(e) && e.a < 0x8000
    ensures RegsOk(r) && r.a == 2 * e.a && r.bins == e.bins
  {
    Pow2Table();
    Doubled(9, 24 - e.ct);
    var s := e.(a := 2 * e.a, c := 2 * e.c, ct := e.ct - 1);
    if s.ct == 0 then ByteOut(s) else s
  }

  // ----- The registers as a picture of the ideal interval

  /** Everything decided so far, given that d is what has been written unstuffed. */
  function Decided(e: Enc, d: seq<byte>): seq<byte>
    requires -1 <= e.buffer <= 254
  {
    d + Rep(0, e.zc) + (if e.buffer < 0 then [] else [e.buffer]) + Rep(255, e.sc)
  }

  /** No zero byte is written until another byte follows it. */
  ghost predicate Clean(d: seq<byte>) {
    d == [] || d[|d| - 1] != 0
  }

  /** The encoder's invariant.  Written, pending, held and stacked bytes followed by c
      are exactly the base of the interval; before the first byte nothing can
      overflow, and afterwards less than one ninth of a byte can. */
  ghost predicate Pictures(e: Enc, d: seq<byte>, start: seq<byte>, iv: Iv) {
    && RegsOk(e) && iv.a == e.a
    && e.out == start + Stuff(d) && Clean(d)
    && (e.buffer < 0 ==> d == [] && e.zc == 0)
    && var k := |Decided(e, d)|;
    && iv.n + e.ct == 11 + 8 * k
    && iv.b == Val(Decided(e, d)) * Pow2(27 - e.ct) + e.c
    && (k == 0 ==> e.c + e.a <= Pow2(27 - e.ct))
    && (k > 0 ==> e.ct <= 8)
    && iv.b + iv.a <= Pow2(16 + iv.n)
  }

  lemma FreshPictures(out: seq<byte>, bins: seq<nat>)
    ensures Pictures(Fresh(out, bins), [], out, START)
  {
    var e := Fresh(out, bins);
    assert Decided(e, []) == [];
    Pow2Table();
  }

  /** No carry arrives while no byte is held: the interval stays below one. */
  lemma CarryHasRoom(e: Enc, d: seq<byte>, start: seq<byte>, iv: Iv)
    requires Pictures(e, d, start, iv) && e.buffer < 0
    ensures e.c + e.a <= Pow2(27 - e.ct)
  {
    hide *;
    PictureShape(e, d, start, iv);
    OnlyStacked(e, d, start, iv);
    ValOfFFs(e.sc);
    Pow2Add(8 * e.sc, 27 - e.ct);
    RoomAbove(Val(Decided(e, d)), Pow2(27 - e.ct), e.c + e.a);
  }

  lemma OnlyStacked(e: Enc, d: seq<byte>, start: seq<byte>, iv: Iv)
    requires Pictures(e, d, start, iv) && e.buffer < 0
    ensures Decided(e, d) == Rep(255, e.sc) && iv.b + iv.a <= Pow2(16 + iv.n)
  {
    hide Val, Prefix, Pow2, Stuff;
  }

  lemma RoomAbove(v: nat, p: nat, x: nat)
    requires v * p + x <= (v + 1) * p
    ensures x <= p
  {
    Distribute(v, 1, p);
  }

  // ----- One turn of the renormalisation loop

  /** What a carry leaves decided, and how much is then written. */
  lemma CarryDecides(e: Enc, d: seq<byte>, start: seq<byte>) returns (d2: seq<byte>)
    requires 0 <= e.buffer <= 254 && e.out == start + Stuff(d)
    ensures Carry(e).out == start + Stuff(d2) && Carry(e).sc == 0 && Clean(d2)
    ensures |d2 + Rep(0, Carry(e).zc)| == |Decided(e, d)|
    ensures Val(d2 + Rep(0, Carry(e).zc)) == Val(Decided(e, d)) + 1
  {
    var b: byte := e.buffer + 1;
    d2 := d + Rep(0, e.zc) + [b];
    CarryOut(e, d, start, b);
    hide Stuff, Val, Prefix, Rep, Clean;
    ValSnoc(d + Rep(0, e.zc), b);
    ValSnoc(d + Rep(0, e.zc), e.buffer);
    CarryThroughFFs(d + Rep(0, e.zc) + [e.buffer], d2, e.sc);
  }

  lemma CarryOut(e: Enc, d: seq<byte>, start: seq<byte>, b: byte)
    requires 0 <= e.buffer <= 254 && e.out == start + Stuff(d) && b == e.buffer + 1
    ensures var d2 := d + Rep(0, e.zc) + [b];
      Carry(e).out == start + Stuff(d2) && Carry(e).sc == 0 && Carry(e).zc == e.sc && Clean(d2)
  {
    hide Stuff, Rep;
    StuffAfterZeros(d, e.zc, [b]);
    StuffOne(b);
  }

  lemma StuffAfterZeros(d: seq<byte>, zc: nat, t: seq<byte>)
    ensures Stuff(d + Rep(0, zc) + t) == Stuff(d) + Rep(0, zc) + Stuff(t)
  {
    StuffConcat(d + Rep(0, zc), t);
    StuffConcat(d, Rep(0, zc));
    StuffZeros(zc);
  }

  lemma ReleaseHeldDecides(e: Enc, d: seq<byte>, start: seq<byte>) returns (d2: seq<byte>)
    requires -1 <= e.buffer <= 254 && e.out == start + Stuff(d) && Clean(d) && (e.buffer < 0 ==> d == [] && e.zc == 0)
    ensures var w := ReleaseHeld(e);
      w.out == start + Stuff(d2) && Clean(d2) && w.sc == e.sc && d2 + Rep(0, w.zc) + Rep(255, w.sc) == Decided(e, d)
  {
    hide *;
    if e.buffer > 0 {
      d2 := d + Rep(0, e.zc) + [e.buffer];
      HeldByteGoes(e, d, start);
    } else {
      d2 := d;
      HeldZeroWaits(e, d);
    }
  }

  lemma HeldByteGoes(e: Enc, d: seq<byte>, start: seq<byte>)
    requires 0 < e.buffer <= 254 && e.out == start + Stuff(d)
    ensures var w, d2 := ReleaseHeld(e), d + Rep(0, e.zc) + [e.buffer];
      w.out == start + Stuff(d2) && Clean(d2) && w.sc == e.sc && d2 + Rep(0, w.zc) + Rep(255, w.sc) == Decided(e, d)
  {
    hide Stuff, Rep;
    StuffAfterZeros(d, e.zc, [e.buffer]);
    StuffOne(e.buffer);
    assert d + Rep(0, e.zc) + [e.buffer] + Rep(0, 0) == d + Rep(0, e.zc) + [e.buffer] by { assert Rep(0, 0) == []; }
  }

  lemma HeldZeroWaits(e: Enc, d: seq<byte>)
    requires -1 <= e.buffer <= 0 && (e.buffer < 0 ==> d == [] && e.zc == 0)
    ensures var w := ReleaseHeld(e);
      w.out == e.out && w.sc == e.sc && d + Rep(0, w.zc) + Rep(255, w.sc) == Decided(e, d)
  {
    assert Rep(0, e.zc) + [0] == Rep(0, e.zc + 1);
    hide Rep;
  }

  lemma ReleaseStackedDecides(w: Enc, d: seq<byte>, start: seq<byte>) returns (d2: seq<byte>)
    requires w.out == start + Stuff(d) && Clean(d)
    ensures var r := ReleaseStacked(w);
      r.out == start + Stuff(d2) && Clean(d2) && r.sc == 0 && d2 + Rep(0, r.zc) == d + Rep(0, w.zc) + Rep(255, w.sc)
  {
    if w.sc == 0 {
      d2 := d;
    } else {
      d2 := d + Rep(0, w.zc) + Rep(255, w.sc);
      StuffAfterZeros(d, w.zc, Rep(255, w.sc));
    }
  }

  /** Releasing changes nothing that was decided. */
  lemma ReleaseDecides(e: Enc, d: seq<byte>, start: seq<byte>) returns (d2: seq<byte>)
    requires -1 <= e.buffer <= 254 && e.out == start + Stuff(d) && Clean(d) && (e.buffer < 0 ==> d == [] && e.zc == 0)
    ensures Release(e).out == start + Stuff(d2) && Release(e).sc == 0 && Clean(d2)
    ensures d2 + Rep(0, Release(e).zc) == Decided(e, d)
  {
    var d1 := ReleaseHeldDecides(e, d, start);
    d2 := ReleaseStackedDecides(ReleaseHeld(e), d1, start);
  }

  /** From e to r the number decided so far has grown by the byte (plus carry) t. */
  ghost predicate Appends(e: Enc, d: seq<byte>, r: Enc, d2: seq<byte>, start: seq<byte>, t: nat) {
    && -1 <= e.buffer <= 254 && -1 <= r.buffer <= 254
    && (r.buffer < 0 ==> d2 == [] && r.zc == 0)
    && r.out == start + Stuff(d2) && Clean(d2)
    && |Decided(r, d2)| == |Decided(e, d)| + 1
    && Val(Decided(r, d2)) == Val(Decided(e, d)) * 256 + t
  }

  lemma HoldByte(r: Enc, d2: seq<byte>, t: byte)
    requires t <= 254 && r.sc == 0
    ensures |Decided(r.(buffer := t), d2)| == |d2 + Rep(0, r.zc)| + 1
    ensures Val(Decided(r.(buffer := t), d2)) == Val(d2 + Rep(0, r.zc)) * 256 + t
  {
    ValSnoc(d2 + Rep(0, r.zc), t);
    assert Decided(r.(buffer := t), d2) == d2 + Rep(0, r.zc) + [t];
  }

  lemma CarryAppends(e: Enc, d: seq<byte>, start: seq<byte>, t: byte) returns (d2: seq<byte>)
    requires 0 <= e.buffer <= 254 && e.out == start + Stuff(d) && t <= 254
    ensures Appends(e, d, Carry(e).(buffer := t), d2, start, 256 + t)
  {
    d2 := CarryDecides(e, d, start);
    HoldByte(Carry(e), d2, t);
  }

  lemma StackAppends(e: Enc, d: seq<byte>, start: seq<byte>)
    requires -1 <= e.buffer <= 254 && e.out == start + Stuff(d) && Clean(d) && (e.buffer < 0 ==> d == [] && e.zc == 0)
    ensures Appends(e, d, e.(sc := e.sc + 1), d, start, 255)
  {
    assert Rep(255, e.sc + 1) == Rep(255, e.sc) + [255];
    assert Decided(e.(sc := e.sc + 1), d) == Decided(e, d) + [255];
    ValSnoc(Decided(e, d), 255);
  }

  lemma ReleaseAppends(e: Enc, d: seq<byte>, start: seq<byte>, t: byte) returns (d2: seq<byte>)
    requires -1 <= e.buffer <= 254 && e.out == start + Stuff(d) && Clean(d) && (e.buffer < 0 ==> d == [] && e.zc == 0) && t <= 254
    ensures Appends(e, d, Release(e).(buffer := t), d2, start, t)
  {
    d2 := ReleaseDecides(e, d, start);
    HoldByte(Release(e), d2, t);
  }

  lemma AppendsKeeps(e: Enc, d: seq<byte>, w: Enc, d2: seq<byte>, start: seq<byte>, t: nat, c: nat, ct: nat)
    requires Appends(e, d, w, d2, start, t)
    ensures Appends(e, d, w.(c := c, ct := ct), d2, start, t)
  {
    assert Decided(w.(c := c, ct := ct), d2) == Decided(w, d2);
  }

  /** A new byte joins what is decided. */
  lemma ByteOutAppends(e: Enc, d: seq<byte>, start: seq<byte>) returns (d2: seq<byte>)
    requires -1 <= e.buffer <= 254 && e.out == start + Stuff(d) && Clean(d) && (e.buffer < 0 ==> d == [] && e.zc == 0)
    requires e.c < 0x9000000 && (e.c >= 0x8000000 ==> e.buffer >= 0)
    ensures Appends(e, d, ByteOut(e), d2, start, e.c / 0x80000)
  {
    var temp := e.c / 0x80000;
    if temp > 0xFF {
      d2 := CarryAppends(e, d, start, temp % 256);
      AppendsKeeps(e, d, Carry(e).(buffer := temp % 256), d2, start, temp, e.c % 0x80000, e.ct + 8);
    } else if temp == 0xFF {
      d2 := d;
      StackAppends(e, d, start);
      AppendsKeeps(e, d, e.(sc := e.sc + 1), d2, start, temp, e.c % 0x80000, e.ct + 8);
    } else {
      d2 := ReleaseAppends(e, d, start, temp);
      AppendsKeeps(e, d, Release(e).(buffer := temp), d2, start, temp, e.c % 0x80000, e.ct + 8);
    }
  }

  lemma DoubleQuietly(e: Enc, d: seq<byte>, start: seq<byte>, iv: Iv)
    requires Pictures(e, d, start, iv) && e.a < 0x8000 && e.ct > 1
    ensures Pictures(e.(a := 2 * e.a, c := 2 * e.c, ct := e.ct - 1), d, start, Iv(2 * iv.b, 2 * iv.a, iv.n + 1))
  {
    Doubled(Val(Decided(e, d)), 27 - e.ct);
    Doubled(1, 27 - e.ct);
    Doubled(1, 16 + iv.n);
    if e.ct <= 8 {
      Doubled(9, 24 - e.ct);
    }
    assert Decided(e.(a := 2 * e.a, c := 2 * e.c, ct := e.ct - 1), d) == Decided(e, d);
  }

  lemma DoubleIntoByte(e: Enc, d: seq<byte>, start: seq<byte>, iv: Iv) returns (d2: seq<byte>)
    requires Pictures(e, d, start, iv) && e.a < 0x8000 && e.ct == 1
    ensures Pictures(Shift(e), d2, start, Iv(2 * iv.b, 2 * iv.a, iv.n + 1))
  {
    hide *;
    PictureShape(e, d, start, iv);
    Written(e, d, start, iv);
    RoomForByte(e, d, start, iv);
    ShiftsOut(e);
    var s := e.(a := 2 * e.a, c := 2 * e.c, ct := 0);
    SameDecided(e, s, d);
    d2 := ByteOutAppends(s, d, start);
    PicturesByte(e, d, start, iv, s, d2);
  }

  lemma Written(e: Enc, d: seq<byte>, start: seq<byte>, iv: Iv)
    requires Pictures(e, d, start, iv)
    ensures e.out == start + Stuff(d) && Clean(d) && (e.buffer < 0 ==> d == [] && e.zc == 0)
  {
    hide Decided, Val, Pow2, Stuff;
  }

  lemma RoomForByte(e: Enc, d: seq<byte>, start: seq<byte>, iv: Iv)
    requires Pictures(e, d, start, iv) && e.ct == 1
    ensures e.c < 0x4800000 && (e.buffer < 0 ==> e.c < 0x4000000)
  {
    hide Decided, Val, Stuff;
    Pow2Table();
    Doubled(1, 26);
    Doubled(9, 23);
    if e.buffer < 0 {
      CarryHasRoom(e, d, start, iv);
    }
  }

  lemma SameDecided(e: Enc, s: Enc, d: seq<byte>)
    requires -1 <= e.buffer <= 254 && s.zc == e.zc && s.buffer == e.buffer && s.sc == e.sc
    ensures Decided(s, d) == Decided(e, d)
  {
  }

  lemma ShiftsOut(e: Enc)
    requires RegsOk(e) && e.a < 0x8000 && e.ct == 1
    ensures -1 <= e.buffer <= 254 && Shift(e) == ByteOut(e.(a := 2 * e.a, c := 2 * e.c, ct := 0))
    ensures Shift(e).c == 2 * e.c % 0x80000 && Shift(e).ct == 8
  {
    hide Carry, Release, Pow2;
  }

  lemma PicturesByte(e: Enc, d: seq<byte>, start: seq<byte>, iv: Iv, s: Enc, d2: seq<byte>)
    requires Pictures(e, d, start, iv) && e.a < 0x8000 && e.ct == 1 && s == e.(a := 2 * e.a, c := 2 * e.c, ct := 0)
    requires RegsOk(Shift(e)) && Shift(e).c == 2 * e.c % 0x80000 && Shift(e).ct == 8 && -1 <= e.buffer <= 254
    requires Appends(s, d, Shift(e), d2, start, s.c / 0x80000) && Decided(s, d) == Decided(e, d)
    ensures Pictures(Shift(e), d2, start, Iv(2 * iv.b, 2 * iv.a, iv.n + 1))
  {
    var r, V := Shift(e), Val(Decided(e, d));
    assert r.a == 2 * e.a;
    Doubled(V, 26);
    Doubled(1, 16 + iv.n);
    Pow2Table();
    hide Decided, Val, Shift, Stuff, RegsOk;
    assert 2 * iv.b == V * 0x8000000 + s.c;
    assert (V * 256 + s.c / 0x80000) * 0x80000 + s.c % 0x80000 == V * 0x8000000 + s.c;
  }

  /** One turn of the renormalisation loop keeps the picture. */
  lemma ShiftPictures(e: Enc, d: seq<byte>, start: seq<byte>, iv: Iv) returns (d2: seq<byte>)
    requires Pictures(e, d, start, iv) && e.a < 0x8000
    ensures Pictures(Shift(e), d2, start, Iv(2 * iv.b, 2 * iv.a, iv.n + 1))
  {
    if e.ct > 1 {
      d2 := d;
      DoubleQuietly(e, d, start, iv);
    } else {
      d2 := DoubleIntoByte(e, d, start, iv);
    }
  }

  // ----- Coding decisions

  /** do shift while (a < 0x8000) */
  function RenormEnc(e: Enc): (r: Enc)
    requires RegsOk(e) && e.a < 0x8000
    ensures RegsOk(r) && 0x8000 <= r.a && r.bins == e.bins
    decreases 0x8000 - e.a
  {
    var s := Shift(e);
    if s.a < 0x8000 then RenormEnc(s) else s
  }

  ghost predicate EncOk(T: Table, e: Enc) {
    RegsOk(e) && 0x8000 <= e.a && BinsOk(T, e.bins)
  }

  lemma StepOk(T: Table, bins: seq<nat>, i: nat)
    requires BinsOk(T, bins) && i < |bins|
    ensures BinOk(T, bins[i])
    ensures var (sv, row) := (bins[i], RowOf(T, bins[i]));
      0 < row.qe < 0x8000 && BinsOk(T, bins[i := Succ(sv, row.nl)]) && BinsOk(T, bins[i := Succ(sv, row.nm)])
  {
  }

  /** arith_encode, branch for branch. */
  function EncodeOne(T: Table, e: Enc, d: Decision): (r: Enc)
    requires EncOk(T, e) && d.bin < |e.bins|
    ensures EncOk(T, r) && |r.bins| == |e.bins|
  {
    var sv := e.bins[d.bin];
    StepOk(T, e.bins, d.bin);
    var row := RowOf(T, sv);
    var a := e.a - row.qe;
    if d.bit != Sense(sv) then
      var s := if a >= row.qe then e.(c := e.c + a, a := row.qe) else e.(a := a);
      RenormEnc(s.(bins := e.bins[d.bin := Succ(sv, row.nl)]))
    else if a >= 0x8000 then
      e.(a := a)
    else
      var s := if a < row.qe then e.(c := e.c + a, a := row.qe) else e.(a := a);
      RenormEnc(s.(bins := e.bins[d.bin := Succ(sv, row.nm)]))
  }

  function EncodeAll(T: Table, e: Enc, ds: seq<Decision>): (r: Enc)
    requires EncOk(T, e) && InRange(ds, |e.bins|)
    ensures EncOk(T, r) && |r.bins| == |e.bins|
    decreases |ds|
  {
    if ds == [] then e else EncodeAll(T, EncodeOne(T, e, ds[0]), ds[1..])
  }

  lemma {:induction false} EncodeAllSnoc(T: Table, e: Enc, ds: seq<Decision>, d: Decision)
    requires EncOk(T, e) && InRange(ds, |e.bins|) && d.bin < |e.bins|
    ensures InRange(ds + [d], |e.bins|)
    ensures EncodeAll(T, e, ds + [d]) == EncodeOne(T, EncodeAll(T, e, ds), d)
    decreases |ds|
  {
    if ds == [] {
      assert ds + [d] == [d];
    } else {
      EncodeAllSnoc(T, EncodeOne(T, e, ds[0]), ds[1..], d);
      assert (ds + [d])[1..] == ds[1..] + [d];
    }
  }

  lemma {:induction false} RenormPictures(e: Enc, d: seq<byte>, start: seq<byte>, iv: Iv) returns (d2: seq<byte>)
    requires Pictures(e, d, start, iv) && e.a < 0x8000
    ensures Pictures(RenormEnc(e), d2, start, Renorm(iv))
    decreases 0x8000 - e.a
  {
    hide *;
    PictureShape(e, d, start, iv);
    var iv2 := Iv(2 * iv.b, 2 * iv.a, iv.n + 1);
    d2 := ShiftPictures(e, d, start, iv);
    RenormUnfolds(e, iv);
    if Shift(e).a < 0x8000 {
      d2 := RenormPictures(Shift(e), d2, start, iv2);
    }
  }

  lemma PictureShape(e: Enc, d: seq<byte>, start: seq<byte>, iv: Iv)
    requires Pictures(e, d, start, iv)
    ensures RegsOk(e) && iv.a == e.a && 0 < e.a <= 0x10000 && 1 <= e.ct <= 11 && -1 <= e.buffer <= 254
    ensures iv.n + e.ct == 11 + 8 * |Decided(e, d)| && iv.b == Val(Decided(e, d)) * Pow2(27 - e.ct) + e.c
  {
    hide Decided, Val, Pow2, Stuff;
  }

  lemma RenormUnfolds(e: Enc, iv: Iv)
    requires RegsOk(e) && 0 < e.a == iv.a < 0x8000
    ensures RenormEnc(e) == if Shift(e).a < 0x8000 then RenormEnc(Shift(e)) else Shift(e)
    ensures var iv2 := Iv(2 * iv.b, 2 * iv.a, iv.n + 1);
      iv2.a <= 0x10000 && Renorm(iv) == if iv2.a < 0x8000 then Renorm(iv2) else iv2
  {
    hide RegsOk, Shift;
  }

  /** The registers after taking one of the two halves. */
  function Halve(e: Enc, qe: nat, upper: bool, bins: seq<nat>): Enc
    requires qe <= e.a
  {
    if upper then e.(c := e.c + e.a - qe, a := qe, bins := bins) else e.(a := e.a - qe, bins := bins)
  }

  lemma HalvePictures(e: Enc, d: seq<byte>, start: seq<byte>, iv: Iv, qe: nat, upper: bool, bins: seq<nat>)
    returns (d2: seq<byte>)
    requires Pictures(e, d, start, iv) && 0 < qe < 0x8000 <= e.a
    ensures var s := Halve(e, qe, upper, bins);
      && RegsOk(s)
      && Pictures(if s.a < 0x8000 then RenormEnc(s) else s, d2, start, Renorm(Narrow(iv, qe, upper)))
  {
    var s := Halve(e, qe, upper, bins);
    assert Decided(s, d) == Decided(e, d);
    d2 := d;
    if s.a < 0x8000 {
      d2 := RenormPictures(s, d, start, Narrow(iv, qe, upper));
    }
  }

  /** The four branches of arith_encode are: pick a half, step the bin, renormalise if needed. */
  lemma EncodeOneIs(T: Table, e: Enc, x: Decision)
    requires EncOk(T, e) && x.bin < |e.bins|
    ensures var sv := e.bins[x.bin];
      var qe := RowOf(T, sv).qe;
      var lps := x.bit != Sense(sv);
      var s := Halve(e, qe, TakesUpper(e.a, qe, lps), e.bins[x.bin := NextBin(T, sv, e.a, lps)]);
      RegsOk(s) && EncodeOne(T, e, x) == if s.a < 0x8000 then RenormEnc(s) else s
  {
    hide EncodeOne, RenormEnc, RowOf, Pow2, Sense, Succ, NextBin, Sound, Halve;
    RowSmall(T, e.bins[x.bin]);
    if x.bit != Sense(e.bins[x.bin]) {
      LpsIs(T, e, x);
    } else {
      MpsIs(T, e, x);
    }
  }

  lemma LpsIs(T: Table, e: Enc, x: Decision)
    requires EncOk(T, e) && x.bin < |e.bins| && x.bit != Sense(e.bins[x.bin])
    ensures var sv := e.bins[x.bin];
      var qe := RowOf(T, sv).qe;
      var s := Halve(e, qe, TakesUpper(e.a, qe, true), e.bins[x.bin := NextBin(T, sv, e.a, true)]);
      RegsOk(s) && s.a < 0x8000 && EncodeOne(T, e, x) == RenormEnc(s)
  {
    hide RenormEnc, RowOf, Pow2, Sense, Succ, BinOk, NextBin, RegsOk, Sound;
    var sv := e.bins[x.bin];
    var qe := RowOf(T, sv).qe;
    RowSmall(T, sv);
    NextBinIs(T, sv, e.a);
    HalveOk(e, qe, TakesUpper(e.a, qe, true), e.bins[x.bin := NextBin(T, sv, e.a, true)]);
  }

  lemma RowSmall(T: Table, sv: nat)
    requires BinOk(T, sv)
    ensures 0 < RowOf(T, sv).qe < 0x8000
  {
  }

  lemma NextBinIs(T: Table, sv: nat, a: nat)
    requires BinOk(T, sv) && 0x8000 <= a
    ensures NextBin(T, sv, a, true) == Succ(sv, RowOf(T, sv).nl)
    ensures NextBin(T, sv, a, false) == if a - RowOf(T, sv).qe >= 0x8000 then sv else Succ(sv, RowOf(T, sv).nm)
  {
  }

  lemma MpsIs(T: Table, e: Enc, x: Decision)
    requires EncOk(T, e) && x.bin < |e.bins| && x.bit == Sense(e.bins[x.bin])
    ensures var sv := e.bins[x.bin];
      var qe := RowOf(T, sv).qe;
      var s := Halve(e, qe, TakesUpper(e.a, qe, false), e.bins[x.bin := NextBin(T, sv, e.a, false)]);
      RegsOk(s) && EncodeOne(T, e, x) == if s.a < 0x8000 then RenormEnc(s) else s
  {
    hide RenormEnc, RowOf, Pow2, Sense, Succ, BinOk, NextBin, RegsOk, Sound;
    var sv := e.bins[x.bin];
    var qe := RowOf(T, sv).qe;
    RowSmall(T, sv);
    NextBinIs(T, sv, e.a);
    assert e.bins[x.bin := sv] == e.bins;
    HalveOk(e, qe, TakesUpper(e.a, qe, false), e.bins[x.bin := NextBin(T, sv, e.a, false)]);
  }

  lemma HalveOk(e: Enc, qe: nat, upper: bool, bins: seq<nat>)
    requires RegsOk(e) && 0 < qe < 0x8000 <= e.a
    ensures RegsOk(Halve(e, qe, upper, bins))
  {
    hide Pow2;
  }

  /** Coding one decision keeps the picture, and moves bins and interval as the ideal coder does. */
  lemma EncodeOnePictures(T: Table, e: Enc, d: seq<byte>, start: seq<byte>, iv: Iv, x: Decision) returns (d2: seq<byte>)
    requires EncOk(T, e) && x.bin < |e.bins| && Pictures(e, d, start, iv)
    ensures Pictures(EncodeOne(T, e, x), d2, start, Code(T, iv, e.bins[x.bin], x.bit))
    ensures EncodeOne(T, e, x).bins == e.bins[x.bin := NextBin(T, e.bins[x.bin], e.a, x.bit != Sense(e.bins[x.bin]))]
  {
    var sv := e.bins[x.bin];
    var qe := RowOf(T, sv).qe;
    var lps := x.bit != Sense(sv);
    hide EncodeOne, NextBin, TakesUpper, Val, Decided, Renorm, Narrow;
    EncodeOneIs(T, e, x);
    d2 := HalvePictures(e, d, start, iv, qe, TakesUpper(e.a, qe, lps), e.bins[x.bin := NextBin(T, sv, e.a, lps)]);
  }

  /** The encoder's registers picture the ideal interval after every run. */
  lemma {:induction false} EncodeAllPictures(T: Table, e: Enc, d: seq<byte>, start: seq<byte>, iv: Iv, ds: seq<Decision>)
    returns (d2: seq<byte>)
    requires EncOk(T, e) && IvOk(iv) && InRange(ds, |e.bins|) && Pictures(e, d, start, iv)
    ensures Pictures(EncodeAll(T, e, ds), d2, start, IvAfter(T, iv, e.bins, ds))
    ensures EncodeAll(T, e, ds).bins == BinsAfter(T, iv, e.bins, ds)
    decreases |ds|
  {
    if ds == [] {
      d2 := d;
    } else {
      d2 := EncodeOnePictures(T, e, d, start, iv, ds[0]);
      d2 := EncodeAllPictures(T, EncodeOne(T, e, ds[0]), d2, start, Code(T, iv, e.bins[ds[0].bin], ds[0].bit), ds[1..]);
    }
  }

  // ----- Termination (section D.1.8)

  /** The code point finish_pass settles on: inside the interval, with at least
      fifteen trailing zero bits. */
  function Target(c: nat, a: nat): (t: nat)
    requires 0x8000 <= a <= 0x10000
    ensures c <= t < c + a && t % 0x8000 == 0
  {
    var q := (a - 1 + c) / 0x10000;
    var temp := q * 0x10000;
    assert temp + 0x8000 == (2 * q + 1) * 0x8000 && temp == (2 * q) * 0x8000;
    if temp < c then temp + 0x8000 else temp
  }

  /** The final overflow, if there is one, and everything held back. */
  function Settle(e: Enc): Enc
    requires -1 <= e.buffer <= 254
  {
    if e.c / 0x8000000 % 32 != 0 then Carry(e) else Release(e)
  }

  /** The last two bytes of c, without zeros at the end. */
  function WriteTail(w: Enc): Enc {
    var c := w.c;
    if c / 0x800 % 0x10000 == 0 then w else
    var z := WriteZeros(w);
    var hi, lo := c / 0x80000 % 256, c / 0x800 % 256;
    var out := z.out + StuffByte(hi);
    z.(out := if lo == 0 then out else out + StuffByte(lo))
  }

  function FinishPass(e: Enc): Enc
    requires RegsOk(e) && 0x8000 <= e.a
  {
    var c := Target(e.c, e.a) * Pow2(e.ct);
    WriteTail(Settle(e.(c := c)))
  }

  /** The final c: a whole number of two bytes, with at most one carry above them. */
  lemma TargetFits(e: Enc, d: seq<byte>, start: seq<byte>, iv: Iv)
    requires Pictures(e, d, start, iv) && 0x8000 <= e.a
    ensures var c := Target(e.c, e.a) * Pow2(e.ct);
      c % 0x10000 == 0 && c < 0x9000000 && (c >= 0x8000000 ==> e.buffer >= 0)
  {
    hide Decided, Val;
    var t := Target(e.c, e.a);
    ScaleMultiple(t, e.ct);
    ScaleUp(t, 9, 24 - e.ct, e.ct);
    Pow2Table();
    if e.buffer < 0 {
      CarryHasRoom(e, d, start, iv);
      ScaleUp(t, 1, 27 - e.ct, e.ct);
    }
  }

  /** The settled digits followed by the two bytes of the final c. */
  lemma TargetDecides(e: Enc, d: seq<byte>, start: seq<byte>, iv: Iv) returns (d2: seq<byte>)
    requires Pictures(e, d, start, iv) && 0x8000 <= e.a
    ensures var c := Target(e.c, e.a) * Pow2(e.ct);
      var w := Settle(e.(c := c));
      var full := d2 + Rep(0, w.zc);
      && w.out == start + Stuff(d2) && Clean(d2) && w.c == c
      && |full| == |Decided(e, d)|
      && Val(full) * 0x8000000 + c % 0x8000000 == Val(Decided(e, d)) * 0x8000000 + c
  {
    TargetFits(e, d, start, iv);
    var c := Target(e.c, e.a) * Pow2(e.ct);
    var s := e.(c := c);
    assert Decided(s, d) == Decided(e, d);
    assert Carry(s).c == Release(s).c == c;
    hide Pow2, Target, Carry, Release, Decided, Val, Prefix, Stuff;
    if c / 0x8000000 % 32 != 0 {
      assert c >= 0x8000000 && c % 0x8000000 == c - 0x8000000;
      d2 := CarryDecides(s, d, start);
    } else {
      assert c < 0x8000000 && c % 0x8000000 == c;
      d2 := ReleaseDecides(s, d, start);
    }
  }

  lemma TwoBytes(c: nat)
    ensures c / 0x800 % 0x10000 == c / 0x80000 % 256 * 256 + c / 0x800 % 256
    ensures c % 0x10000 == 0 ==> c % 0x8000000 == c / 0x80000 % 256 * 0x80000 + c / 0x800 % 256 * 0x800
  {
    var q, r := c / 0x800, c % 0x800;
    var p, lo := q / 256, q % 256;
    var u, hi := p / 256, p % 256;
    Divided(c, 0x800);
    Divided(q, 256);
    Divided(p, 256);
    TwoBytesOf(c, u, hi, lo, r);
    if c % 0x10000 == 0 {
      Divided(c, 0x10000);
      DivUnique(c, 0x800, 32 * (c / 0x10000), 0);
    }
  }

  lemma Divided(c: nat, m: nat)
    requires m > 0
    ensures 0 <= c / m && 0 <= c % m < m && c == c / m * m + c % m
  {
    FloorBounds(c, m);
    FloorAtLeast(c, m, 0);
  }

  lemma TwoBytesOf(c: nat, u: nat, hi: nat, lo: nat, r: nat)
    requires hi < 256 && lo < 256 && r < 0x800 && c == ((u * 256 + hi) * 256 + lo) * 0x800 + r
    ensures c / 0x800 % 0x10000 == hi * 256 + lo && c / 0x80000 % 256 == hi && c / 0x800 % 256 == lo
    ensures c % 0x8000000 == hi * 0x80000 + lo * 0x800 + r
  {
    DivUnique(c, 0x800, (u * 256 + hi) * 256 + lo, r);
    DivUnique((u * 256 + hi) * 256 + lo, 0x10000, u, hi * 256 + lo);
    DivUnique((u * 256 + hi) * 256 + lo, 256, u * 256 + hi, lo);
    DivUnique(c, 0x80000, u * 256 + hi, lo * 0x800 + r);
    DivUnique(u * 256 + hi, 256, u, hi);
    DivUnique(c, 0x8000000, u, hi * 0x80000 + lo * 0x800 + r);
  }

  lemma WriteTailWrites(w: Enc, d: seq<byte>, start: seq<byte>) returns (code: seq<byte>, full: seq<byte>)
    requires w.out == start + Stuff(d) && Clean(d) && w.c % 0x10000 == 0
    ensures WriteTail(w).out == start + Stuff(code) && Clean(code)
    ensures |full| == |d + Rep(0, w.zc)| + 2
    ensures Val(full) * 0x800 == Val(d + Rep(0, w.zc)) * 0x8000000 + w.c % 0x8000000
    ensures forall i: nat :: Digit(code, i) == Digit(full, i)
  {
    hide Val, Prefix, Stuff;
    var base, c := d + Rep(0, w.zc), w.c;
    var hi, lo := c / 0x80000 % 256, c / 0x800 % 256;
    full := base + [hi] + [lo];
    ValSnoc(base, hi);
    ValSnoc(base + [hi], lo);
    TwoBytes(c);
    if c / 0x800 % 0x10000 == 0 {
      code := d;
    } else {
      StuffAfterZeros(d, w.zc, [hi]);
      StuffOne(hi);
      if lo == 0 {
        code := base + [hi];
      } else {
        code := full;
        StuffConcat(base + [hi], [lo]);
        StuffOne(lo);
      }
    }
  }

  /** finish_pass writes what was decided and the final c, except for zeros at the end,
      which the endless zeros after the code stand for. */
  lemma FinishWrites(e: Enc, d: seq<byte>, start: seq<byte>, iv: Iv) returns (code: seq<byte>, full: seq<byte>)
    requires Pictures(e, d, start, iv) && 0x8000 <= e.a
    ensures FinishPass(e).out == start + Stuff(code) && Clean(code)
    ensures |full| == |Decided(e, d)| + 2
    ensures Val(full) * 0x800 == Val(Decided(e, d)) * 0x8000000 + Target(e.c, e.a) * Pow2(e.ct)
    ensures forall i: nat :: Digit(code, i) == Digit(full, i)
  {
    var c := Target(e.c, e.a) * Pow2(e.ct);
    TargetFits(e, d, start, iv);
    var d2 := TargetDecides(e, d, start, iv);
    hide Pow2, Target, Settle, Decided, Val, Prefix, Stuff, WriteTail, Digit;
    code, full := WriteTailWrites(Settle(e.(c := c)), d2, start);
  }
}
