/** The adaptive binary arithmetic decoder (jdarith.c) and the theorem that it undoes
    the encoder for every sequence of decisions. */
module ArithDecoding {
  import opened Powers
  import opened Digits
  import opened ProbTable
  import opened Interval
  import opened ArithEncoding
  import opened ArithEnding

  const EOI: byte := 0xD9

  /** The decoder's registers.  c: code minus interval base, with ct bits of it not yet
      needed;  src: bytes still to be read;  marker: the marker that ended the data, or 0.
      ct is -16 until two bytes have been read. */
  datatype Dec = Dec(c: nat, a: nat, ct: int, src: seq<byte>, marker: byte, bins: seq<nat>)

  function Opened(src: seq<byte>, bins: seq<nat>): Dec {
    Dec(0, 0, -16, src, 0, bins)
  }

  /** What holds of the registers on every input, valid or not. */
  ghost predicate DecRegsOk(s: Dec) {
    if s.ct >= 0 then 0 < s.a <= 0x10000 && s.ct <= 7 && s.c < s.a * Pow2(s.ct)
    else s.a == 0 && ((s.ct == -16 && s.c == 0) || (s.ct == -8 && s.c < 256))
  }

  ghost predicate DecOk(T: Table, s: Dec) {
    DecRegsOk(s) && BinsOk(T, s.bins)
  }

  // ----- Input

  datatype Fetch = Fetch(data: byte, src: seq<byte>, marker: byte)

  /** After an 0xFF: further 0xFFs are fill, 0x00 means a stuffed 0xFF, anything else is a
      marker.  An exhausted source supplies an end-of-image marker. */
  function FetchAfterFF(src: seq<byte>): Fetch {
    if src == [] then Fetch(0, [], EOI)
    else if src[0] == 255 then FetchAfterFF(src[1..])
    else if src[0] == 0 then Fetch(255, src[1..], 0)
    else Fetch(0, src[1..], src[0])
  }

  /** The next data byte; zero once a marker has been met. */
  function FetchByte(src: seq<byte>, marker: byte): Fetch {
    if marker != 0 then Fetch(0, src, marker)
    else if src == [] then Fetch(0, [], EOI)
    else if src[0] == 255 then FetchAfterFF(src[1..])
    else Fetch(src[0], src[1..], 0)
  }

  function Pull(s: Dec): Dec {
    var f := FetchByte(s.src, s.marker);
    s.(c := s.c * 256 + f.data, src := f.src, marker := f.marker)
  }

  // ----- Decoding one decision

  /** One turn of the renormalisation loop; the first two turns only load c. */
  function Refill(s: Dec): (r: Dec)
    requires DecRegsOk(s) && s.a < 0x8000
    ensures DecRegsOk(r) && r.bins == s.bins
    ensures s.ct >= 0 ==> r.ct >= 0 && r.a == 2 * s.a
    ensures s.ct < 0 ==> (r.ct == s.ct + 8 < 0) || (r.ct == 0 && r.a == 0x10000)
  {
    if s.ct > 0 then
      Doubled(s.a, s.ct - 1);
      s.(ct := s.ct - 1, a := 2 * s.a)
    else if s.ct == 0 then
      assert Pow2(7) == 128;
      Pull(s).(ct := 7, a := 2 * s.a)
    else if s.ct == -16 then
      Pull(s).(ct := -8)
    else
      Pull(s).(ct := 0, a := 0x10000)
  }

  function RenormDec(s: Dec): (r: Dec)
    requires DecRegsOk(s)
    ensures DecRegsOk(r) && r.bins == s.bins && r.ct >= 0 && 0x8000 <= r.a
    decreases if s.ct < 0 then 0x10000 - s.ct else 0x10000 - s.a
  {
    if s.a < 0x8000 then RenormDec(Refill(s)) else s
  }

  /** Whether the code lies in the upper sub-interval, and the registers once it is chosen. */
  function Choose(e: Dec, qe: nat): (r: (bool, Dec))
    requires DecRegsOk(e) && e.ct >= 0 && 0 < qe < e.a
    ensures DecRegsOk(r.1) && r.1.ct >= 0 && r.1.bins == e.bins
  {
    var temp := (e.a - qe) * Pow2(e.ct);
    assert e.a * Pow2(e.ct) == temp + qe * Pow2(e.ct);
    if e.c >= temp then (true, e.(c := e.c - temp, a := qe)) else (false, e.(a := e.a - qe))
  }

  /** The decision and the bin's new value: the three cases of arith_decode, each with its
      exchange.  a is the size of the lower sub-interval. */
  function Answer(T: Table, sv: nat, a: nat, upper: bool): (r: (bool, nat))
    requires BinOk(T, sv)
    ensures BinOk(T, r.1)
  {
    var row := RowOf(T, sv);
    if upper then
      if a < row.qe then (Sense(sv), Succ(sv, row.nm)) else (!Sense(sv), Succ(sv, row.nl))
    else if a < 0x8000 then
      if a < row.qe then (!Sense(sv), Succ(sv, row.nl)) else (Sense(sv), Succ(sv, row.nm))
    else (Sense(sv), sv)
  }

  /** arith_decode. */
  function DecodeOne(T: Table, s: Dec, bin: nat): (r: (bool, Dec))
    requires DecOk(T, s) && bin < |s.bins|
    ensures DecOk(T, r.1) && |r.1.bins| == |s.bins|
  {
    var e := RenormDec(s);
    var sv := e.bins[bin];
    var qe := RowOf(T, sv).qe;
    var (upper, n) := Choose(e, qe);
    var (bit, next) := Answer(T, sv, e.a - qe, upper);
    (bit, n.(bins := e.bins[bin := next]))
  }

  // ----- The registers as a picture of the ideal interval

  /** A tail that starts with a marker, possibly after fill bytes, or nothing at all. */
  ghost predicate MarkerFirst(tail: seq<byte>) {
    FetchByte(tail, 0).marker != 0
  }

  /** The first m code bytes of d have been read; tail follows d in the file. */
  ghost predicate ReadSoFar(src: seq<byte>, marker: byte, d: seq<byte>, m: nat, tail: seq<byte>) {
    if m <= |d| && marker == 0 then src == Stuff(d[m..]) + tail else m >= |d| && marker != 0
  }

  lemma FetchReads(src: seq<byte>, marker: byte, d: seq<byte>, m: nat, tail: seq<byte>)
    requires ReadSoFar(src, marker, d, m, tail) && MarkerFirst(tail)
    ensures var f := FetchByte(src, marker);
      f.data == Digit(d, m) && ReadSoFar(f.src, f.marker, d, m + 1, tail)
  {
    if m < |d| && marker == 0 {
      assert d[m..][1..] == d[m + 1..];
      assert src == StuffByte(d[m]) + (Stuff(d[m + 1..]) + tail);
      if d[m] == 255 {
        assert src[1..][1..] == Stuff(d[m + 1..]) + tail;
      } else {
        assert src[1..] == Stuff(d[m + 1..]) + tail;
      }
    } else if marker == 0 {
      assert src == tail;
      FetchAfterFFMarks(tail);
    }
  }

  lemma FetchAfterFFMarks(src: seq<byte>)
    ensures FetchByte(src, 0).marker != 0 ==> FetchByte(src, 0).data == 0
    ensures FetchAfterFF(src).marker != 0 ==> FetchAfterFF(src).data == 0
  {
    if src != [] {
      FetchAfterFFMarks(src[1..]);
    }
  }

  /** c is the code read so far, less the base of the interval. */
  ghost predicate Tracks(s: Dec, d: seq<byte>, m: nat, tail: seq<byte>, iv: Iv) {
    && 0 <= s.ct <= 7 && s.a == iv.a && 8 * m == 16 + iv.n + s.ct
    && s.c + iv.b * Pow2(s.ct) == Prefix(d, m)
    && ReadSoFar(s.src, s.marker, d, m, tail)
  }

  lemma {:induction false} RenormTracks(s: Dec, d: seq<byte>, m: nat, tail: seq<byte>, iv: Iv) returns (m2: nat)
    requires DecRegsOk(s) && iv.a <= 0x10000 && Tracks(s, d, m, tail, iv) && MarkerFirst(tail)
    ensures Tracks(RenormDec(s), d, m2, tail, Renorm(iv))
    decreases 0x10000 - s.a
  {
    m2 := m;
    if s.a < 0x8000 {
      m2 := RefillTracks(s, d, m, tail, iv);
      hide Tracks, Refill;
      m2 := RenormTracks(Refill(s), d, m2, tail, Iv(2 * iv.b, 2 * iv.a, iv.n + 1));
    }
  }

  /** One turn of the loop. */
  lemma RefillTracks(s: Dec, d: seq<byte>, m: nat, tail: seq<byte>, iv: Iv) returns (m2: nat)
    requires DecRegsOk(s) && s.a < 0x8000 && Tracks(s, d, m, tail, iv) && MarkerFirst(tail)
    ensures Tracks(Refill(s), d, m2, tail, Iv(2 * iv.b, 2 * iv.a, iv.n + 1))
    ensures 2 * iv.a <= 0x10000 && DecRegsOk(Refill(s)) && Refill(s).a == 2 * s.a
  {
    if s.ct > 0 {
      m2 := m;
      Doubled(iv.b, s.ct - 1);
      hide Prefix;
    } else {
      m2 := m + 1;
      FetchReads(s.src, s.marker, d, m, tail);
      assert Pow2(7) == 128 && Pow2(0) == 1;
      hide Pow2;
    }
  }

  /** The first two bytes put the decoder at the start of the ideal interval. */
  lemma OpenedTracks(d: seq<byte>, tail: seq<byte>, bins: seq<nat>)
    requires MarkerFirst(tail)
    ensures Tracks(RenormDec(Opened(Stuff(d) + tail, bins)), d, 2, tail, START)
  {
    var s := Opened(Stuff(d) + tail, bins);
    assert d[0..] == d;
    FetchReads(s.src, 0, d, 0, tail);
    var s1 := Refill(s);
    FetchReads(s1.src, s1.marker, d, 1, tail);
    var s2 := Refill(s1);
    assert Prefix(d, 2) == Prefix(d, 1) * 256 + Digit(d, 1);
    assert RenormDec(s) == RenormDec(s1) == RenormDec(s2) == s2;
  }

  // ----- Decoding undoes encoding

  /** Asked for the bins of ds in turn, the decoder answers with the bits of ds. */
  ghost predicate Follows(T: Table, s: Dec, ds: seq<Decision>)
    requires DecOk(T, s) && InRange(ds, |s.bins|)
    decreases |ds|
  {
    ds == [] || (
      var r := DecodeOne(T, s, ds[0].bin);
      r.0 == ds[0].bit && Follows(T, r.1, ds[1..]))
  }

  /** The decoder after being asked for the bins of ds in turn. */
  ghost function DecodeAll(T: Table, s: Dec, ds: seq<Decision>): (r: Dec)
    requires DecOk(T, s) && InRange(ds, |s.bins|)
    ensures DecOk(T, r) && |r.bins| == |s.bins|
    decreases |ds|
  {
    if ds == [] then s else DecodeAll(T, DecodeOne(T, s, ds[0].bin).1, ds[1..])
  }

  /** A code point of the half that the encoder took makes the decoder take it too. */
  lemma ChooseTracks(e: Dec, d: seq<byte>, m: nat, tail: seq<byte>, iv: Iv, qe: nat, upper: bool)
    requires DecRegsOk(e) && Tracks(e, d, m, tail, iv) && 0 < qe < e.a
    requires Holds(d, m, Narrow(iv, qe, upper))
    ensures Choose(e, qe).0 == upper
    ensures Tracks(Choose(e, qe).1, d, m, tail, Narrow(iv, qe, upper))
  {
    hide Pow2, Prefix, ReadSoFar;
    var p := Pow2(e.ct);
    assert 8 * m - 16 - iv.n == e.ct;
    Distribute(iv.b, e.a - qe, p);
    Distribute(iv.b + e.a - qe, qe, p);
  }

  /** The half the encoder takes is read back as its bit, and steps the bin as it did. */
  lemma AnswerInverts(T: Table, sv: nat, a: nat, bit: bool)
    requires BinOk(T, sv) && 0x8000 <= a
    ensures var qe := RowOf(T, sv).qe;
      Answer(T, sv, a - qe, TakesUpper(a, qe, bit != Sense(sv))) == (bit, NextBin(T, sv, a, bit != Sense(sv)))
  {
  }

  /** One decision: the same bit, the same new bin, the same new interval. */
  lemma DecodeOneTracks(T: Table, s: Dec, d: seq<byte>, m: nat, tail: seq<byte>, iv: Iv, x: Decision, M: nat)
    returns (m2: nat)
    requires DecOk(T, s) && x.bin < |s.bins| && IvOk(iv) && MarkerFirst(tail)
    requires Tracks(RenormDec(s), d, m, tail, iv) && Holds(d, M, Code(T, iv, s.bins[x.bin], x.bit))
    ensures DecodeOne(T, s, x.bin).0 == x.bit
    ensures DecodeOne(T, s, x.bin).1.bins
         == s.bins[x.bin := NextBin(T, s.bins[x.bin], iv.a, x.bit != Sense(s.bins[x.bin]))]
    ensures Tracks(RenormDec(DecodeOne(T, s, x.bin).1), d, m2, tail, Code(T, iv, s.bins[x.bin], x.bit))
  {
    var e := RenormDec(s);
    var sv := e.bins[x.bin];
    var qe := RowOf(T, sv).qe;
    var upper := TakesUpper(e.a, qe, x.bit != Sense(sv));
    var half := Narrow(iv, qe, upper);
    HoldsRenorm(d, M, half);
    HoldsCut(d, M, m, half);
    ChooseTracks(e, d, m, tail, iv, qe, upper);
    AnswerInverts(T, sv, e.a, x.bit);
    var n := Choose(e, qe).1;
    hide DecodeOne, RenormDec, Choose, NextBin, Prefix, Pow2;
    var r := DecodeOne(T, s, x.bin).1;
    assert Tracks(r, d, m, tail, half);
    m2 := RenormTracks(r, d, m, tail, half);
  }

  lemma {:induction false} DecodeAllTracks(T: Table, s: Dec, d: seq<byte>, m: nat, tail: seq<byte>, iv: Iv,
      ds: seq<Decision>, M: nat)
    requires DecOk(T, s) && InRange(ds, |s.bins|) && IvOk(iv) && MarkerFirst(tail)
    requires Tracks(RenormDec(s), d, m, tail, iv) && Holds(d, M, IvAfter(T, iv, s.bins, ds))
    ensures Follows(T, s, ds)
    ensures DecodeAll(T, s, ds).bins == BinsAfter(T, iv, s.bins, ds)
    decreases |ds|
  {
    if ds != [] {
      var x := ds[0];
      var sv := s.bins[x.bin];
      var bins := s.bins[x.bin := NextBin(T, sv, iv.a, x.bit != Sense(sv))];
      HoldsEarlier(T, d, M, Code(T, iv, sv, x.bit), bins, ds[1..]);
      var m2 := DecodeOneTracks(T, s, d, m, tail, iv, x, M);
      hide DecodeOne, RenormDec, NextBin, Code, Tracks, Holds;
      DecodeAllTracks(T, DecodeOne(T, s, x.bin).1, d, m2, tail, Code(T, iv, sv, x.bit), ds[1..], M);
    }
  }

  /** A code point for all the decisions is one for the first k. */
  lemma {:induction false} PrefixHolds(T: Table, d: seq<byte>, M: nat, iv: Iv, bins: seq<nat>, ds: seq<Decision>, k: nat)
    requires IvOk(iv) && BinsOk(T, bins) && InRange(ds, |bins|) && k <= |ds|
    requires Holds(d, M, IvAfter(T, iv, bins, ds))
    ensures InRange(ds[..k], |bins|) && Holds(d, M, IvAfter(T, iv, bins, ds[..k]))
    decreases |ds|
  {
    if k == 0 {
      HoldsEarlier(T, d, M, iv, bins, ds);
    } else {
      var x, sv := ds[0], bins[ds[0].bin];
      assert ds[..k][1..] == ds[1..][..k - 1];
      hide Holds, Code, NextBin;
      PrefixHolds(T, d, M, Code(T, iv, sv, x.bit), bins[x.bin := NextBin(T, sv, iv.a, x.bit != Sense(sv))], ds[1..], k - 1);
    }
  }

  /** The statistics after the first k decisions, on both sides. */
  lemma PrefixTracks(T: Table, before: seq<byte>, bins: seq<nat>, ds: seq<Decision>, digits: seq<byte>, M: nat, tail: seq<byte>, k: nat)
    requires BinsOk(T, bins) && InRange(ds, |bins|) && MarkerFirst(tail) && k <= |ds|
    requires Holds(digits, M, IvAfter(T, START, bins, ds))
    ensures InRange(ds[..k], |bins|)
    ensures DecodeAll(T, Opened(Stuff(digits) + tail, bins), ds[..k]).bins == EncodeAll(T, Fresh(before, bins), ds[..k]).bins
  {
    hide Holds, IvAfter, BinsAfter, DecodeAll, EncodeAll, Tracks, RenormDec, Pictures;
    PrefixHolds(T, digits, M, START, bins, ds, k);
    FreshPictures(before, bins);
    var d := EncodeAllPictures(T, Fresh(before, bins), [], before, START, ds[..k]);
    OpenedTracks(digits, tail, bins);
    DecodeAllTracks(T, Opened(Stuff(digits) + tail, bins), digits, 2, tail, START, ds[..k], M);
  }

  /** The arithmetic coder's round trip, for every table, every sequence of decisions and
      whatever follows the code in the file as long as it begins with a marker: asked for
      the same bins, the decoder gives back the same bits, and after each of them it has the same
      statistics as the encoder. */
  lemma DecodeInvertsEncode(T: Table, before: seq<byte>, bins: seq<nat>, ds: seq<Decision>, tail: seq<byte>)
    returns (code: seq<byte>)
    requires BinsOk(T, bins) && InRange(ds, |bins|) && MarkerFirst(tail)
    ensures FinishPass(EncodeAll(T, Fresh(before, bins), ds)).out == before + code
    ensures Follows(T, Opened(code + tail, bins), ds)
    ensures forall k :: 0 <= k <= |ds| ==>
      DecodeAll(T, Opened(code + tail, bins), ds[..k]).bins == EncodeAll(T, Fresh(before, bins), ds[..k]).bins
  {
    var e := Fresh(before, bins);
    FreshPictures(before, bins);
    var d := EncodeAllPictures(T, e, [], before, START, ds);
    var digits, M := FinishHolds(EncodeAll(T, e, ds), d, before, IvAfter(T, START, bins, ds));
    code := Stuff(digits);
    OpenedTracks(digits, tail, bins);
    DecodeAllTracks(T, Opened(code + tail, bins), digits, 2, tail, START, ds, M);
    hide *;
    forall k | 0 <= k <= |ds|
      ensures DecodeAll(T, Opened(code + tail, bins), ds[..k]).bins == EncodeAll(T, Fresh(before, bins), ds[..k]).bins
    {
      PrefixTracks(T, before, bins, ds, digits, M, tail, k);
    }
  }
}
