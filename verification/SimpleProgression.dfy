/** The recommended progressive script (jpeg_simple_progression in jcparam.c). */
module SimpleProgression {
  import opened Coefficients
  import opened Script

  function OneScan(ci: int, ss: int, se: int, ah: int, al: int): Scan {
    Scan([ci], ss, se, ah, al)
  }

  /** One scan for each component. */
  function EachScan(n: nat, ss: int, se: int, ah: int, al: int): (r: seq<Scan>)
    ensures |r| == n && forall i :: 0 <= i < n ==> r[i] == OneScan(i, ss, se, ah, al)
  {
    seq(n, i requires 0 <= i < n => OneScan(i, ss, se, ah, al))
  }

  function AllComps(n: nat): (r: seq<int>)
    ensures |r| == n && forall i :: 0 <= i < n ==> r[i] == i
  {
    seq(n, i => i)
  }

  /** An interleaved DC scan if the components fit in one, otherwise a scan for each. */
  function DcScans(n: nat, ah: int, al: int): seq<Scan> {
    if n <= MAX_COMPS_IN_SCAN then [Scan(AllComps(n), 0, 0, ah, al)] else EachScan(n, 0, 0, ah, al)
  }

  function FirstPass(n: nat): seq<Scan> {
    DcScans(n, 0, 1) + EachScan(n, 1, 5, 0, 2) + EachScan(n, 6, 63, 0, 2)
  }

  function LaterPasses(n: nat): seq<Scan> {
    EachScan(n, 1, 63, 2, 1) + DcScans(n, 1, 0) + EachScan(n, 1, 63, 1, 0)
  }

  function AllPurpose(n: nat): seq<Scan> {
    FirstPass(n) + LaterPasses(n)
  }

  function ForYCbCr(): seq<Scan> {
    [Scan(AllComps(3), 0, 0, 0, 1), OneScan(0, 1, 5, 0, 2), OneScan(2, 1, 63, 0, 1), OneScan(1, 1, 63, 0, 1),
     OneScan(0, 6, 63, 0, 2), OneScan(0, 1, 63, 2, 1), Scan(AllComps(3), 0, 0, 1, 0), OneScan(2, 1, 63, 1, 0),
     OneScan(1, 1, 63, 1, 0), OneScan(0, 1, 63, 1, 0)]
  }

  function ScanCount(n: nat, ycc: bool): nat {
    if n == 3 && ycc then 10 else if n > MAX_COMPS_IN_SCAN then 6 * n else 2 + 4 * n
  }

  function SimpleScript(n: nat, ycc: bool): seq<Scan> {
    if n == 3 && ycc then ForYCbCr() else AllPurpose(n)
  }

  // ----- Scan by scan

  /** Up to four components: DC above its lowest bit, for each component the low band and then for each the
      high one two bits short, all AC coefficients one bit further, the last bit of DC, and of AC. */
  lemma FewComponents(n: nat, i: nat, ycc: bool)
    requires i < n <= 4 && !(n == 3 && ycc)
    ensures var x := SimpleScript(n, ycc);
      && |x| == 2 + 4 * n
      && |x[0].comps| == n && x[0].comps[i] == i && x[0] == Scan(x[0].comps, 0, 0, 0, 1)
      && x[1 + i] == Scan([i], 1, 5, 0, 2) && x[1 + n + i] == Scan([i], 6, 63, 0, 2)
      && x[1 + 2 * n + i] == Scan([i], 1, 63, 2, 1)
      && x[1 + 3 * n] == Scan(x[0].comps, 0, 0, 1, 0)
      && x[2 + 3 * n + i] == Scan([i], 1, 63, 1, 0)
  {
    assert |DcScans(n, 0, 1)| == |DcScans(n, 1, 0)| == 1 && DcScans(n, 0, 1)[0] == Scan(AllComps(n), 0, 0, 0, 1);
    assert DcScans(n, 1, 0)[0] == Scan(AllComps(n), 0, 0, 1, 0);
    var a, b, c, d := EachScan(n, 1, 5, 0, 2), EachScan(n, 6, 63, 0, 2), EachScan(n, 1, 63, 2, 1), EachScan(n, 1, 63, 1, 0);
    assert a[i] == Scan([i], 1, 5, 0, 2) && b[i] == Scan([i], 6, 63, 0, 2) && c[i] == Scan([i], 1, 63, 2, 1) && d[i] == Scan([i], 1, 63, 1, 0);
    hide EachScan, DcScans, AllComps;
    SixParts(DcScans(n, 0, 1), a, b, c, DcScans(n, 1, 0), d, n, i);
  }

  lemma SixParts(x: seq<Scan>, a: seq<Scan>, b: seq<Scan>, c: seq<Scan>, y: seq<Scan>, d: seq<Scan>, n: nat, i: nat)
    requires |x| == |y| == 1 && |a| == |b| == |c| == |d| == n > i
    ensures var s := x + a + b + (c + y + d);
      && |s| == 2 + 4 * n && s[0] == x[0] && s[1 + i] == a[i] && s[1 + n + i] == b[i] && s[1 + 2 * n + i] == c[i]
      && s[1 + 3 * n] == y[0] && s[2 + 3 * n + i] == d[i]
  {
  }

  /** More components: the same with a DC scan for each. */
  lemma ManyComponents(n: nat, i: nat, ycc: bool)
    requires i < n && n > 4
    ensures var x := SimpleScript(n, ycc);
      && |x| == 6 * n
      && x[i] == Scan([i], 0, 0, 0, 1) && x[n + i] == Scan([i], 1, 5, 0, 2) && x[2 * n + i] == Scan([i], 6, 63, 0, 2)
      && x[3 * n + i] == Scan([i], 1, 63, 2, 1) && x[4 * n + i] == Scan([i], 0, 0, 1, 0) && x[5 * n + i] == Scan([i], 1, 63, 1, 0)
  {
  }

  /** YCbCr: the low band of luminance before the chrominance, the rest after it. */
  lemma YccComponents()
    ensures SimpleScript(3, true) == [
      Scan([0, 1, 2], 0, 0, 0, 1), Scan([0], 1, 5, 0, 2), Scan([2], 1, 63, 0, 1), Scan([1], 1, 63, 0, 1), Scan([0], 6, 63, 0, 2),
      Scan([0], 1, 63, 2, 1), Scan([0, 1, 2], 0, 0, 1, 0), Scan([2], 1, 63, 1, 0), Scan([1], 1, 63, 1, 0), Scan([0], 1, 63, 1, 0)]
  {
    assert AllComps(3) == [0, 1, 2];
  }

  // ----- Filling the script through an advancing position

  method FillAScan(script: array<Scan>, pos: nat, ci: int, ss: int, se: int, ah: int, al: int) returns (next: nat)
    requires pos < script.Length
    modifies script
    ensures next == pos + 1
    ensures script[..next] == old(script[..pos]) + [OneScan(ci, ss, se, ah, al)]
  {
    script[pos] := Scan([ci], ss, se, ah, al);
    next := pos + 1;
  }

  method FillScans(script: array<Scan>, pos: nat, ncomps: nat, ss: int, se: int, ah: int, al: int) returns (next: nat)
    requires pos + ncomps <= script.Length
    modifies script
    ensures next == pos + ncomps
    ensures script[..next] == old(script[..pos]) + EachScan(ncomps, ss, se, ah, al)
  {
    next := pos;
    var ci := 0;
    while ci < ncomps
      invariant 0 <= ci <= ncomps && next == pos + ci
      invariant script[..next] == old(script[..pos]) + EachScan(ncomps, ss, se, ah, al)[..ci]
    {
      script[next] := Scan([ci], ss, se, ah, al);
      next := next + 1;
      ci := ci + 1;
    }
  }

  method FillDcScans(script: array<Scan>, pos: nat, ncomps: nat, ah: int, al: int) returns (next: nat)
    requires pos + |DcScans(ncomps, ah, al)| <= script.Length
    modifies script
    ensures next == pos + |DcScans(ncomps, ah, al)|
    ensures script[..next] == old(script[..pos]) + DcScans(ncomps, ah, al)
  {
    if ncomps <= MAX_COMPS_IN_SCAN {
      script[pos] := Scan(AllComps(ncomps), 0, 0, ah, al);
      next := pos + 1;
    } else {
      next := FillScans(script, pos, ncomps, 0, 0, ah, al);
    }
  }

  method FillYCbCrStart(script: array<Scan>) returns (p: nat)
    requires 10 <= script.Length
    modifies script
    ensures p == 5 && script[..5] == ForYCbCr()[..5]
  {
    assert script[..0] == [];
    p := FillDcScans(script, 0, 3, 0, 1);
    p := FillAScan(script, p, 0, 1, 5, 0, 2);
    p := FillAScan(script, p, 2, 1, 63, 0, 1);
    p := FillAScan(script, p, 1, 1, 63, 0, 1);
    p := FillAScan(script, p, 0, 6, 63, 0, 2);
  }

  method FillYCbCrEnd(script: array<Scan>, pos: nat) returns (p: nat)
    requires 10 <= script.Length && pos == 5
    modifies script
    ensures p == 10 && script[..10] == old(script[..5]) + ForYCbCr()[5..]
  {
    p := FillAScan(script, pos, 0, 1, 63, 2, 1);
    p := FillDcScans(script, p, 3, 1, 0);
    p := FillAScan(script, p, 2, 1, 63, 1, 0);
    p := FillAScan(script, p, 1, 1, 63, 1, 0);
    p := FillAScan(script, p, 0, 1, 63, 1, 0);
  }

  method FillFirstPass(script: array<Scan>, ncomps: nat) returns (p: nat)
    requires |FirstPass(ncomps)| <= script.Length
    modifies script
    ensures p == |FirstPass(ncomps)| && script[..p] == FirstPass(ncomps)
  {
    assert script[..0] == [];
    p := FillDcScans(script, 0, ncomps, 0, 1);
    p := FillScans(script, p, ncomps, 1, 5, 0, 2);
    p := FillScans(script, p, ncomps, 6, 63, 0, 2);
  }

  method FillLaterPasses(script: array<Scan>, pos: nat, ncomps: nat) returns (p: nat)
    requires pos + |LaterPasses(ncomps)| <= script.Length
    modifies script
    ensures p == pos + |LaterPasses(ncomps)| && script[..p] == old(script[..pos]) + LaterPasses(ncomps)
  {
    p := FillScans(script, pos, ncomps, 1, 63, 2, 1);
    p := FillDcScans(script, p, ncomps, 1, 0);
    p := FillScans(script, p, ncomps, 1, 63, 1, 0);
  }

  /** Fills exactly the number of scans computed beforehand. */
  method JpegSimpleProgression(ncomps: nat, ycc: bool) returns (script: array<Scan>, nscans: nat)
    ensures fresh(script) && nscans == ScanCount(ncomps, ycc) <= script.Length
    ensures script[..nscans] == SimpleScript(ncomps, ycc)
  {
    nscans := ScanCount(ncomps, ycc);
    script := new Scan[if nscans < 10 then 10 else nscans](_ => OneScan(0, 0, 0, 0, 0));
    if ncomps == 3 && ycc {
      var p := FillYCbCrStart(script);
      p := FillYCbCrEnd(script, p);
    } else {
      var p := FillFirstPass(script, ncomps);
      p := FillLaterPasses(script, p, ncomps);
    }
  }

  // ----- The script is legal

  /** How far a component has come: DC, coefficients 1..5 and 6..63. */
  datatype Planes = Planes(dc: int, lo: int, hi: int)

  function PlaneOf(h: Planes, k: int): int {
    if k == 0 then h.dc else if k <= 5 then h.lo else h.hi
  }

  /** All components have come equally far. */
  ghost predicate At(scans: seq<Scan>, n: nat, h: Planes) {
    forall c, k :: 0 <= c < n && 0 <= k < DCTSIZE2 ==> BitPos(scans, c, k) == PlaneOf(h, k)
  }

  ghost predicate Legal(scans: seq<Scan>, n: nat) {
    ProgressivePrefixLegal(scans, |scans|, n)
  }

  lemma LegalSnoc(scans: seq<Scan>, x: Scan, n: nat)
    requires Legal(scans, n) && ProgressiveScanLegal(scans, x, n)
    ensures Legal(scans + [x], n)
    ensures forall c, k :: BitPos(scans + [x], c, k) == if c in x.comps && x.ss <= k <= x.se then x.al else BitPos(scans, c, k)
  {
    var all := scans + [x];
    forall i | 0 <= i < |all| ensures ProgressiveScanLegal(all[..i], all[i], n) {
      if i < |scans| {
        assert all[..i] == scans[..i];
        assert ProgressiveScanLegal(scans[..i], scans[i], n);
      } else {
        assert all[..i] == scans;
      }
    }
    assert all[..|all| - 1] == scans;
  }

  /** Appending a scan for each of the first j components. */
  lemma {:induction false} LegalEach(scans: seq<Scan>, n: nat, j: nat, ss: int, se: int, ah: int, al: int)
    requires Legal(scans, n) && j <= n && RangesLegal(OneScan(0, ss, se, ah, al))
    requires forall c, k :: 0 <= c < n && ss <= k <= se ==> CoefLegal(BitPos(scans, c, k), OneScan(0, ss, se, ah, al))
    requires ss != 0 ==> forall c :: 0 <= c < n ==> BitPos(scans, c, 0) >= 0
    ensures Legal(scans + EachScan(n, ss, se, ah, al)[..j], n)
    ensures forall c, k :: BitPos(scans + EachScan(n, ss, se, ah, al)[..j], c, k)
                        == if 0 <= c < j && ss <= k <= se then al else BitPos(scans, c, k)
  {
    var each := EachScan(n, ss, se, ah, al);
    if j == 0 {
      assert scans + each[..0] == scans;
    } else {
      LegalEach(scans, n, j - 1, ss, se, ah, al);
      var before, x := scans + each[..j - 1], each[j - 1];
      assert scans + each[..j] == before + [x];
      forall c, k | c == j - 1 && ss <= k <= se ensures CoefLegal(BitPos(before, c, k), x) {
        assert CoefLegal(BitPos(scans, c, k), OneScan(0, ss, se, ah, al));
      }
      LegalSnoc(before, x, n);
    }
  }

  lemma LegalDc(scans: seq<Scan>, n: nat, ah: int, al: int)
    requires Legal(scans, n) && n > 0 && RangesLegal(OneScan(0, 0, 0, ah, al))
    requires forall c :: 0 <= c < n ==> CoefLegal(BitPos(scans, c, 0), OneScan(0, 0, 0, ah, al))
    ensures Legal(scans + DcScans(n, ah, al), n)
    ensures forall c, k :: BitPos(scans + DcScans(n, ah, al), c, k) == if 0 <= c < n && k == 0 then al else BitPos(scans, c, k)
  {
    if n <= MAX_COMPS_IN_SCAN {
      var x := Scan(AllComps(n), 0, 0, ah, al);
      forall c | 0 <= c < n ensures c in x.comps {
        assert x.comps[c] == c;
      }
      forall c, k | c in x.comps && 0 <= k <= 0 ensures CoefLegal(BitPos(scans, c, k), x) {
        assert CoefLegal(BitPos(scans, c, 0), OneScan(0, 0, 0, ah, al));
      }
      LegalSnoc(scans, x, n);
    } else {
      LegalEach(scans, n, n, 0, 0, ah, al);
      assert EachScan(n, 0, 0, ah, al)[..n] == EachScan(n, 0, 0, ah, al);
    }
  }

  predicate Continues(last: int, ah: int, al: int) {
    if last < 0 then ah == 0 else ah == last && al == ah - 1
  }

  lemma DcStage(scans: seq<Scan>, n: nat, h: Planes, ah: int, al: int)
    requires Legal(scans, n) && n > 0 && At(scans, n, h) && 0 <= ah <= 1 && 0 <= al <= 1 && Continues(h.dc, ah, al)
    ensures Legal(scans + DcScans(n, ah, al), n) && At(scans + DcScans(n, ah, al), n, h.(dc := al))
  {
    forall c | 0 <= c < n ensures CoefLegal(BitPos(scans, c, 0), OneScan(0, 0, 0, ah, al)) {
      assert BitPos(scans, c, 0) == PlaneOf(h, 0);
    }
    LegalDc(scans, n, ah, al);
  }

  /** A band of every component: 1..5, 6..63 or all of 1..63. */
  lemma BandStage(scans: seq<Scan>, n: nat, h: Planes, ss: int, se: int, ah: int, al: int, h2: Planes)
    requires Legal(scans, n) && At(scans, n, h) && h.dc >= 0 && 0 <= ah <= 2 && 0 <= al <= 2
    requires (ss == 1 && se == 5 && Continues(h.lo, ah, al) && h2 == h.(lo := al))
          || (ss == 6 && se == 63 && Continues(h.hi, ah, al) && h2 == h.(hi := al))
          || (ss == 1 && se == 63 && Continues(h.lo, ah, al) && Continues(h.hi, ah, al) && h2 == h.(lo := al, hi := al))
    ensures Legal(scans + EachScan(n, ss, se, ah, al), n) && At(scans + EachScan(n, ss, se, ah, al), n, h2)
  {
    var each := EachScan(n, ss, se, ah, al);
    forall c, k | 0 <= c < n && ss <= k <= se ensures CoefLegal(BitPos(scans, c, k), OneScan(0, ss, se, ah, al)) {
      assert BitPos(scans, c, k) == PlaneOf(h, k);
    }
    forall c | 0 <= c < n ensures BitPos(scans, c, 0) >= 0 {
      assert BitPos(scans, c, 0) == PlaneOf(h, 0);
    }
    LegalEach(scans, n, n, ss, se, ah, al);
    assert each[..n] == each;
  }

  lemma AllPurposeIsLegal(n: nat)
    requires n > 0
    ensures Legal(AllPurpose(n), n) && At(AllPurpose(n), n, Planes(0, 0, 0))
  {
    hide Legal, At, DcScans, EachScan;
    var s0: seq<Scan> := [];
    assert Legal(s0, n) && At(s0, n, Planes(-1, -1, -1)) by { EmptyIsLegal(n); }
    DcStage(s0, n, Planes(-1, -1, -1), 0, 1);
    var s1 := s0 + DcScans(n, 0, 1);
    BandStage(s1, n, Planes(1, -1, -1), 1, 5, 0, 2, Planes(1, 2, -1));
    var s2 := s1 + EachScan(n, 1, 5, 0, 2);
    BandStage(s2, n, Planes(1, 2, -1), 6, 63, 0, 2, Planes(1, 2, 2));
    var s3 := s2 + EachScan(n, 6, 63, 0, 2);
    BandStage(s3, n, Planes(1, 2, 2), 1, 63, 2, 1, Planes(1, 1, 1));
    var s4 := s3 + EachScan(n, 1, 63, 2, 1);
    DcStage(s4, n, Planes(1, 1, 1), 1, 0);
    var s5 := s4 + DcScans(n, 1, 0);
    BandStage(s5, n, Planes(0, 1, 1), 1, 63, 1, 0, Planes(0, 0, 0));
    assert s5 + EachScan(n, 1, 63, 1, 0) == AllPurpose(n);
  }

  lemma EmptyIsLegal(n: nat)
    ensures Legal([], n) && At([], n, Planes(-1, -1, -1))
  {
  }

  // ----- The YCbCr script, whose components move at different speeds

  ghost predicate AtEach(scans: seq<Scan>, h: seq<Planes>) {
    forall c, k :: 0 <= c < |h| && 0 <= k < DCTSIZE2 ==> BitPos(scans, c, k) == PlaneOf(h[c], k)
  }

  /** One component across one scan that contains it. */
  predicate Moves(x: Scan, h: Planes, h2: Planes) {
    || (x.ss == 0 && x.se == 0 && Continues(h.dc, x.ah, x.al) && h2 == h.(dc := x.al))
    || (h.dc >= 0 && x.ss == 1 && x.se == 5 && Continues(h.lo, x.ah, x.al) && h2 == h.(lo := x.al))
    || (h.dc >= 0 && x.ss == 6 && x.se == 63 && Continues(h.hi, x.ah, x.al) && h2 == h.(hi := x.al))
    || (h.dc >= 0 && x.ss == 1 && x.se == 63 && Continues(h.lo, x.ah, x.al) && Continues(h.hi, x.ah, x.al)
        && h2 == h.(lo := x.al, hi := x.al))
  }

  lemma MovesAt(x: Scan, h: Planes, h2: Planes, k: int)
    requires Moves(x, h, h2) && 0 <= k < DCTSIZE2
    ensures x.ss <= k <= x.se ==> CoefLegal(PlaneOf(h, k), x)
    ensures PlaneOf(h2, k) == if x.ss <= k <= x.se then x.al else PlaneOf(h, k)
  {
  }

  lemma AppendScan(scans: seq<Scan>, x: Scan, h: seq<Planes>, h2: seq<Planes>)
    requires Legal(scans, |h|) && AtEach(scans, h) && |h2| == |h|
    requires CompsLegal(x.comps, |h|) && RangesLegal(x)
    requires forall c :: 0 <= c < |h| ==> if c in x.comps then Moves(x, h[c], h2[c]) else h2[c] == h[c]
    ensures Legal(scans + [x], |h|) && AtEach(scans + [x], h2)
  {
    forall c, k | c in x.comps && x.ss <= k <= x.se ensures CoefLegal(BitPos(scans, c, k), x) {
      assert BitPos(scans, c, k) == PlaneOf(h[c], k);
      MovesAt(x, h[c], h2[c], k);
    }
    forall c | c in x.comps && x.ss != 0 ensures BitPos(scans, c, 0) >= 0 {
      assert BitPos(scans, c, 0) == PlaneOf(h[c], 0);
    }
    LegalSnoc(scans, x, |h|);
    forall c, k | 0 <= c < |h| && 0 <= k < DCTSIZE2 ensures BitPos(scans + [x], c, k) == PlaneOf(h2[c], k) {
      if c in x.comps {
        MovesAt(x, h[c], h2[c], k);
      }
    }
  }

  lemma YccStart(all: seq<Scan>)
    requires all == ForYCbCr()
    ensures Legal([] + [all[0]] + [all[1]], 3)
    ensures AtEach([] + [all[0]] + [all[1]], [Planes(1, 2, -1), Planes(1, -1, -1), Planes(1, -1, -1)])
  {
    assert AllComps(3) == [0, 1, 2];
    var u, a := Planes(-1, -1, -1), Planes(1, -1, -1);
    hide AllComps, ForYCbCr;
    AppendScan([], all[0], [u, u, u], [a, a, a]);
    AppendScan([] + [all[0]], all[1], [a, a, a], [Planes(1, 2, -1), a, a]);
  }

  lemma YccFirstHalf()
    ensures Legal(ForYCbCr()[..5], 3)
    ensures AtEach(ForYCbCr()[..5], [Planes(1, 2, 2), Planes(1, 1, 1), Planes(1, 1, 1)])
  {
    var all := ForYCbCr();
    YccStart(all);
    assert AllComps(3) == [0, 1, 2];
    var a, b := Planes(1, -1, -1), Planes(1, 1, 1);
    hide AllComps, ForYCbCr, Legal, AtEach;
    var s2 := [] + [all[0]] + [all[1]];
    AppendScan(s2, all[2], [Planes(1, 2, -1), a, a], [Planes(1, 2, -1), a, b]);
    AppendScan(s2 + [all[2]], all[3], [Planes(1, 2, -1), a, b], [Planes(1, 2, -1), b, b]);
    AppendScan(s2 + [all[2]] + [all[3]], all[4], [Planes(1, 2, -1), b, b], [Planes(1, 2, 2), b, b]);
    assert all[..5] == s2 + [all[2]] + [all[3]] + [all[4]];
  }

  lemma YccSecondHalf(scans: seq<Scan>)
    requires Legal(scans, 3) && AtEach(scans, [Planes(1, 2, 2), Planes(1, 1, 1), Planes(1, 1, 1)])
    ensures Legal(scans + ForYCbCr()[5..], 3)
    ensures AtEach(scans + ForYCbCr()[5..], [Planes(0, 0, 0), Planes(0, 0, 0), Planes(0, 0, 0)])
  {
    var x := ForYCbCr()[5..];
    assert AllComps(3) == [0, 1, 2];
    var b, c, z := Planes(1, 1, 1), Planes(0, 1, 1), Planes(0, 0, 0);
    hide AllComps, ForYCbCr, Legal, AtEach;
    AppendScan(scans, x[0], [Planes(1, 2, 2), b, b], [b, b, b]);
    AppendScan(scans + [x[0]], x[1], [b, b, b], [c, c, c]);
    var s2 := scans + [x[0]] + [x[1]];
    AppendScan(s2, x[2], [c, c, c], [c, c, z]);
    AppendScan(s2 + [x[2]], x[3], [c, c, z], [c, z, z]);
    AppendScan(s2 + [x[2]] + [x[3]], x[4], [c, z, z], [z, z, z]);
    assert scans + x == s2 + [x[2]] + [x[3]] + [x[4]];
  }

  lemma YCbCrIsLegal()
    ensures Legal(ForYCbCr(), 3) && At(ForYCbCr(), 3, Planes(0, 0, 0))
  {
    YccFirstHalf();
    YccSecondHalf(ForYCbCr()[..5]);
    assert ForYCbCr()[..5] + ForYCbCr()[5..] == ForYCbCr();
  }

  /** For any number of components the recommended script is one that validate_script
      accepts, and at its end every coefficient has been sent down to the last bit. */
  lemma SimpleScriptIsLegal(n: nat, ycc: bool)
    requires n > 0
    ensures |SimpleScript(n, ycc)| == ScanCount(n, ycc)
    ensures ProgressiveLegal(SimpleScript(n, ycc), n)
    ensures forall c, k :: 0 <= c < n && 0 <= k < DCTSIZE2 ==> BitPos(SimpleScript(n, ycc), c, k) == 0
  {
    if n == 3 && ycc {
      YCbCrIsLegal();
    } else {
      AllPurposeIsLegal(n);
      assert IsProgressive(AllPurpose(n)) by {
        assert AllPurpose(n)[0] == DcScans(n, 0, 1)[0];
      }
    }
  }
}
