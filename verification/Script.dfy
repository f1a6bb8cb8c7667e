/** Progressive scan scripts: validation (jcmaster.c), the decoder's own progression checks
    (jdarith.c) and the recommended script (jcparam.c). */
module Script {
  import opened Coefficients

  const MAX_COMPS_IN_SCAN := 4
  const MAX_AH_AL := 10

  datatype Scan = Scan(comps: seq<int>, ss: int, se: int, ah: int, al: int)

  /** What a script says about one coefficient: the last Al sent for it, or -1. */
  function BitPos(scans: seq<Scan>, c: int, k: int): int {
    if scans == [] then -1 else
    var last := scans[|scans| - 1];
    if c in last.comps && last.ss <= k <= last.se then last.al else BitPos(scans[..|scans| - 1], c, k)
  }

  ghost predicate CompsLegal(comps: seq<int>, ncomps: nat) {
    && 0 < |comps| <= MAX_COMPS_IN_SCAN
    && (forall i :: 0 <= i < |comps| ==> 0 <= comps[i] < ncomps)
    && forall i :: 0 < i < |comps| ==> comps[i - 1] < comps[i]
  }

  ghost predicate RangesLegal(x: Scan) {
    && 0 <= x.ss <= x.se < DCTSIZE2 && 0 <= x.ah <= MAX_AH_AL && 0 <= x.al <= MAX_AH_AL
    && (x.ss == 0 ==> x.se == 0)
    && (x.ss != 0 ==> |x.comps| == 1)
  }

  /** The coefficient's history allows this scan: a first scan has Ah = 0, a later one
      takes up the last Al and goes down one bit plane. */
  ghost predicate CoefLegal(last: int, x: Scan) {
    if last < 0 then x.ah == 0 else x.ah == last && x.al == x.ah - 1
  }

  ghost predicate ProgressiveScanLegal(before: seq<Scan>, x: Scan, ncomps: nat) {
    && CompsLegal(x.comps, ncomps) && RangesLegal(x)
    && forall c :: c in x.comps ==>
         && (x.ss != 0 ==> BitPos(before, c, 0) >= 0)
         && forall k :: x.ss <= k <= x.se ==> CoefLegal(BitPos(before, c, k), x)
  }

  ghost predicate ProgressivePrefixLegal(scans: seq<Scan>, n: nat, ncomps: nat)
    requires n <= |scans|
  {
    forall i :: 0 <= i < n ==> ProgressiveScanLegal(scans[..i], scans[i], ncomps)
  }

  ghost predicate SequentialScanLegal(before: seq<Scan>, x: Scan, ncomps: nat) {
    && CompsLegal(x.comps, ncomps)
    && x.ss == 0 && x.se == DCTSIZE2 - 1 && x.ah == 0 && x.al == 0
    && forall c, i :: c in x.comps && 0 <= i < |before| ==> c !in before[i].comps
  }

  ghost predicate SequentialPrefixLegal(scans: seq<Scan>, n: nat, ncomps: nat)
    requires n <= |scans|
  {
    forall i :: 0 <= i < n ==> SequentialScanLegal(scans[..i], scans[i], ncomps)
  }

  /** The first scan decides: anything but a full sequential band makes the script progressive. */
  predicate IsProgressive(scans: seq<Scan>) {
    scans != [] && (scans[0].ss != 0 || scans[0].se != DCTSIZE2 - 1)
  }

  ghost predicate ProgressiveLegal(scans: seq<Scan>, ncomps: nat) {
    && IsProgressive(scans) && ProgressivePrefixLegal(scans, |scans|, ncomps)
    && forall c :: 0 <= c < ncomps ==> BitPos(scans, c, 0) >= 0
  }

  /** Has any of the first n scans sent component c? */
  ghost predicate SentBy(scans: seq<Scan>, n: nat, c: int)
    requires n <= |scans|
  {
    exists i :: 0 <= i < n && c in scans[i].comps
  }

  ghost predicate SequentialLegal(scans: seq<Scan>, ncomps: nat) {
    && scans != [] && !IsProgressive(scans) && SequentialPrefixLegal(scans, |scans|, ncomps)
    && forall c :: 0 <= c < ncomps ==> SentBy(scans, |scans|, c)
  }

  datatype Error = BadScanScript | BadProgScript | ComponentCount | MissingData

  datatype Verdict = Accepted(progressive: bool) | Rejected(error: Error, scanno: nat)

  lemma BitPosSnoc(scans: seq<Scan>, n: nat, c: int, k: int)
    requires n < |scans|
    ensures BitPos(scans[..n + 1], c, k)
         == if c in scans[n].comps && scans[n].ss <= k <= scans[n].se then scans[n].al else BitPos(scans[..n], c, k)
  {
    assert scans[..n + 1][..n] == scans[..n];
  }

  // ----- validate_script

  /** The component indexes of one scan: in range and in frame order. */
  method ValidateComps(comps: seq<int>, ncomps: nat) returns (r: Verdict)
    ensures r.Accepted? <==> CompsLegal(comps, ncomps)
  {
    var n := |comps|;
    if n <= 0 || n > MAX_COMPS_IN_SCAN {
      return Rejected(ComponentCount, n);
    }
    var ci := 0;
    while ci < n
      invariant 0 <= ci <= n
      invariant forall i :: 0 <= i < ci ==> 0 <= comps[i] < ncomps
      invariant forall i :: 0 < i < ci ==> comps[i - 1] < comps[i]
    {
      var thisi := comps[ci];
      if thisi < 0 || thisi >= ncomps {
        return Rejected(BadScanScript, 0);
      }
      if ci > 0 && thisi <= comps[ci - 1] {
        return Rejected(BadScanScript, 0);
      }
      ci := ci + 1;
    }
    return Accepted(true);
  }

  /** The bit positions of one component against one scan, updated in place. */
  method ValidateCoefs(lastBitpos: array2<int>, c: nat, x: Scan) returns (ok: bool)
    requires lastBitpos.Length1 == DCTSIZE2 && c < lastBitpos.Length0
    requires RangesLegal(x)
    modifies lastBitpos
    ensures ok <==> (x.ss != 0 ==> old(lastBitpos[c, 0]) >= 0)
                    && forall k :: x.ss <= k <= x.se ==> CoefLegal(old(lastBitpos[c, k]), x)
    ensures ok ==> forall i, k :: 0 <= i < lastBitpos.Length0 && 0 <= k < DCTSIZE2 ==>
                     lastBitpos[i, k] == if i == c && x.ss <= k <= x.se then x.al else old(lastBitpos[i, k])
  {
    if x.ss != 0 && lastBitpos[c, 0] < 0 {
      return false;
    }
    var coefi := x.ss;
    while coefi <= x.se
      invariant x.ss <= coefi <= x.se + 1
      invariant forall k :: x.ss <= k < coefi ==> CoefLegal(old(lastBitpos[c, k]), x)
      invariant forall i, k :: 0 <= i < lastBitpos.Length0 && 0 <= k < DCTSIZE2 ==>
                  lastBitpos[i, k] == if i == c && x.ss <= k < coefi then x.al else old(lastBitpos[i, k])
    {
      if lastBitpos[c, coefi] < 0 {
        if x.ah != 0 {
          return false;
        }
      } else if x.ah != lastBitpos[c, coefi] || x.al != x.ah - 1 {
        return false;
      }
      lastBitpos[c, coefi] := x.al;
      coefi := coefi + 1;
    }
    return true;
  }

  /** The table after the components seen so far of scan x. */
  ghost predicate Records(lastBitpos: array2<int>, before: seq<Scan>, x: Scan, seen: int)
    requires 0 <= seen <= |x.comps| && lastBitpos.Length1 == DCTSIZE2
    reads lastBitpos
  {
    forall c, k :: 0 <= c < lastBitpos.Length0 && 0 <= k < DCTSIZE2 ==>
      lastBitpos[c, k] == if c in x.comps[..seen] && x.ss <= k <= x.se then x.al else BitPos(before, c, k)
  }

  lemma {:induction false} Increasing(comps: seq<int>, i: nat, j: nat)
    requires i < j < |comps| && forall i :: 0 < i < |comps| ==> comps[i - 1] < comps[i]
    ensures comps[i] < comps[j]
    decreases j - i
  {
    if i + 1 < j {
      Increasing(comps, i, j - 1);
    }
  }

  method ValidateProgressiveScan(lastBitpos: array2<int>, ghost before: seq<Scan>, x: Scan, ncomps: nat) returns (r: Verdict)
    requires lastBitpos.Length0 == ncomps && lastBitpos.Length1 == DCTSIZE2
    requires Records(lastBitpos, before, x, 0)
    modifies lastBitpos
    ensures r.Accepted? <==> ProgressiveScanLegal(before, x, ncomps)
    ensures r.Accepted? ==> Records(lastBitpos, before, x, |x.comps|)
  {
    r := ValidateComps(x.comps, ncomps);
    if r.Rejected? {
      return;
    }
    if x.ss < 0 || x.ss >= DCTSIZE2 || x.se < x.ss || x.se >= DCTSIZE2
       || x.ah < 0 || x.ah > MAX_AH_AL || x.al < 0 || x.al > MAX_AH_AL {
      return Rejected(BadProgScript, 0);
    }
    if x.ss == 0 {
      if x.se != 0 {
        return Rejected(BadProgScript, 0);
      }
    } else if |x.comps| != 1 {
      return Rejected(BadProgScript, 0);
    }
    var ci := 0;
    while ci < |x.comps|
      invariant 0 <= ci <= |x.comps|
      invariant Records(lastBitpos, before, x, ci)
      invariant forall j :: 0 <= j < ci ==>
                  && (x.ss != 0 ==> BitPos(before, x.comps[j], 0) >= 0)
                  && forall k :: x.ss <= k <= x.se ==> CoefLegal(BitPos(before, x.comps[j], k), x)
    {
      var c := x.comps[ci];
      assert c !in x.comps[..ci] by {
        forall i | 0 <= i < ci ensures x.comps[i] != c {
          Increasing(x.comps, i, ci);
        }
      }
      assert x.comps[..ci + 1] == x.comps[..ci] + [c];
      var ok := ValidateCoefs(lastBitpos, c, x);
      if !ok {
        return Rejected(BadProgScript, 0);
      }
      ci := ci + 1;
    }
    return Accepted(true);
  }

  method ValidateSequentialScan(componentSent: array<bool>, ghost scans: seq<Scan>, ghost n: nat, x: Scan) returns (r: Verdict)
    requires n < |scans| && x == scans[n]
    requires forall c :: 0 <= c < componentSent.Length ==> (componentSent[c] <==> SentBy(scans, n, c))
    modifies componentSent
    ensures r.Accepted? <==> SequentialScanLegal(scans[..n], x, componentSent.Length)
    ensures r.Accepted? ==> forall c :: 0 <= c < componentSent.Length ==> (componentSent[c] <==> SentBy(scans, n + 1, c))
  {
    r := ValidateComps(x.comps, componentSent.Length);
    if r.Rejected? {
      return;
    }
    if x.ss != 0 || x.se != DCTSIZE2 - 1 || x.ah != 0 || x.al != 0 {
      return Rejected(BadProgScript, 0);
    }
    var ci := 0;
    while ci < |x.comps|
      invariant 0 <= ci <= |x.comps|
      invariant forall c :: 0 <= c < componentSent.Length ==>
                  (componentSent[c] <==> SentBy(scans, n, c) || c in x.comps[..ci])
      invariant forall j :: 0 <= j < ci ==> !SentBy(scans, n, x.comps[j])
    {
      var c := x.comps[ci];
      assert c !in x.comps[..ci] by {
        forall i | 0 <= i < ci ensures x.comps[i] != c {
          Increasing(x.comps, i, ci);
        }
      }
      assert x.comps[..ci + 1] == x.comps[..ci] + [c];
      if componentSent[c] {
        ghost var i :| 0 <= i < n && c in scans[i].comps;
        assert scans[..n][i] == scans[i] && c in x.comps;
        return Rejected(BadScanScript, 0);
      }
      componentSent[c] := true;
      ci := ci + 1;
    }
    return Accepted(false);
  }

  /** validate_script: a script is accepted exactly when it is legal, and its mode is that of its first scan. */
  method ValidateScript(scans: seq<Scan>, ncomps: nat) returns (r: Verdict)
    ensures r == Accepted(true) <==> ProgressiveLegal(scans, ncomps)
    ensures r == Accepted(false) <==> SequentialLegal(scans, ncomps)
  {
    if |scans| == 0 {
      return Rejected(BadScanScript, 0);
    }
    if IsProgressive(scans) {
      r := ValidateProgressive(scans, ncomps);
    } else {
      r := ValidateSequential(scans, ncomps);
    }
  }

  method ValidateProgressive(scans: seq<Scan>, ncomps: nat) returns (r: Verdict)
    requires IsProgressive(scans)
    ensures r == Accepted(true) || r.Rejected?
    ensures r.Accepted? <==> ProgressiveLegal(scans, ncomps)
  {
    var lastBitpos := new int[ncomps, DCTSIZE2]((_, _) => -1);
    var scanno := 0;
    while scanno < |scans|
      invariant 0 <= scanno <= |scans|
      invariant ProgressivePrefixLegal(scans, scanno, ncomps)
      invariant forall c, k :: 0 <= c < ncomps && 0 <= k < DCTSIZE2 ==> lastBitpos[c, k] == BitPos(scans[..scanno], c, k)
    {
      var x := scans[scanno];
      r := ValidateProgressiveScan(lastBitpos, scans[..scanno], x, ncomps);
      if r.Rejected? {
        return Rejected(r.error, scanno + 1);
      }
      forall c, k | 0 <= c < ncomps && 0 <= k < DCTSIZE2 ensures lastBitpos[c, k] == BitPos(scans[..scanno + 1], c, k) {
        BitPosSnoc(scans, scanno, c, k);
        assert x.comps[..|x.comps|] == x.comps;
      }
      scanno := scanno + 1;
    }
    assert scans[..|scans|] == scans;
    var ci := 0;
    while ci < ncomps
      invariant 0 <= ci <= ncomps
      invariant forall c :: 0 <= c < ci ==> BitPos(scans, c, 0) >= 0
    {
      if lastBitpos[ci, 0] < 0 {
        return Rejected(MissingData, 0);
      }
      ci := ci + 1;
    }
    return Accepted(true);
  }

  method ValidateSequential(scans: seq<Scan>, ncomps: nat) returns (r: Verdict)
    requires scans != [] && !IsProgressive(scans)
    ensures r == Accepted(false) || r.Rejected?
    ensures r.Accepted? <==> SequentialLegal(scans, ncomps)
  {
    var componentSent := new bool[ncomps](_ => false);
    var scanno := 0;
    while scanno < |scans|
      invariant 0 <= scanno <= |scans|
      invariant SequentialPrefixLegal(scans, scanno, ncomps)
      invariant forall c :: 0 <= c < ncomps ==> (componentSent[c] <==> SentBy(scans, scanno, c))
    {
      r := ValidateSequentialScan(componentSent, scans, scanno, scans[scanno]);
      if r.Rejected? {
        return Rejected(r.error, scanno + 1);
      }
      scanno := scanno + 1;
    }
    var ci := 0;
    while ci < ncomps
      invariant 0 <= ci <= ncomps
      invariant forall c :: 0 <= c < ci ==> SentBy(scans, |scans|, c)
    {
      if !componentSent[ci] {
        return Rejected(MissingData, 0);
      }
      ci := ci + 1;
    }
    return Accepted(false);
  }

  // ----- The decoder's own checks when a progressive scan starts

  datatype Progression = Clean | Warned | BadProgression

  predicate DecoderRanges(x: Scan) {
    && (if x.ss == 0 then x.se == 0 else x.ss <= x.se <= DCTSIZE2 - 1 && |x.comps| == 1)
    && (x.ah != 0 ==> x.ah - 1 == x.al)
    && x.al <= 13
  }

  function Expected(bits: int): int {
    if bits < 0 then 0 else bits
  }

  /** Something about the order of scans that the decoder warns of, in component c. */
  ghost predicate Bogus(before: seq<Scan>, x: Scan, c: int) {
    (x.ss != 0 && BitPos(before, c, 0) < 0) || exists k :: x.ss <= k <= x.se && x.ah != Expected(BitPos(before, c, k))
  }

  /** The progression part of the decoder's start_pass. */
  method StartPass(coefBits: array2<int>, ghost before: seq<Scan>, x: Scan) returns (r: Progression)
    requires coefBits.Length1 == DCTSIZE2 && 0 <= x.ss && 0 <= x.se
    requires forall i :: 0 <= i < |x.comps| ==> 0 <= x.comps[i] < coefBits.Length0
    requires forall i, j :: 0 <= i < j < |x.comps| ==> x.comps[i] != x.comps[j]
    requires Records(coefBits, before, x, 0)
    modifies coefBits
    ensures r.BadProgression? <==> !DecoderRanges(x)
    ensures r.Clean? ==> forall c :: c in x.comps ==> !Bogus(before, x, c)
    ensures r.Warned? ==> exists c :: c in x.comps && Bogus(before, x, c)
    ensures !r.BadProgression? ==> Records(coefBits, before, x, |x.comps|)
  {
    if x.ss == 0 {
      if x.se != 0 {
        return BadProgression;
      }
    } else if x.se < x.ss || x.se > DCTSIZE2 - 1 || |x.comps| != 1 {
      return BadProgression;
    }
    if (x.ah != 0 && x.ah - 1 != x.al) || x.al > 13 {
      return BadProgression;
    }
    r := Clean;
    var ci := 0;
    while ci < |x.comps|
      invariant 0 <= ci <= |x.comps|
      invariant Records(coefBits, before, x, ci)
      invariant !r.BadProgression?
      invariant r.Clean? ==> forall c :: c in x.comps[..ci] ==> !Bogus(before, x, c)
      invariant r.Warned? ==> exists c :: c in x.comps && Bogus(before, x, c)
    {
      var c := x.comps[ci];
      assert c !in x.comps[..ci];
      assert x.comps[..ci + 1] == x.comps[..ci] + [c];
      if x.ss != 0 && coefBits[c, 0] < 0 {
        assert Bogus(before, x, c);
        r := Warned;
      }
      var coefi := x.ss;
      while coefi <= x.se
        invariant x.ss <= coefi <= x.se + 1
        invariant !r.BadProgression?
        invariant forall i, k :: 0 <= i < coefBits.Length0 && 0 <= k < DCTSIZE2 ==>
                    coefBits[i, k] == if (i in x.comps[..ci] && x.ss <= k <= x.se) || (i == c && x.ss <= k < coefi) then x.al
                                      else BitPos(before, i, k)
        invariant r.Clean? ==> forall e :: e in x.comps[..ci] ==> !Bogus(before, x, e)
        invariant r.Clean? ==> (x.ss != 0 ==> BitPos(before, c, 0) >= 0)
                               && forall k :: x.ss <= k < coefi ==> x.ah == Expected(BitPos(before, c, k))
        invariant r.Warned? ==> exists e :: e in x.comps && Bogus(before, x, e)
      {
        if x.ah != Expected(coefBits[c, coefi]) {
          assert Bogus(before, x, c);
          r := Warned;
        }
        coefBits[c, coefi] := x.al;
        coefi := coefi + 1;
      }
      ci := ci + 1;
    }
  }

  /** A script the encoder accepts never makes the decoder complain: at every scan the
      ranges are right and every coefficient continues where the last scan left it. */
  lemma LegalScriptIsClean(scans: seq<Scan>, ncomps: nat, n: nat)
    requires ProgressiveLegal(scans, ncomps) && n < |scans|
    ensures DecoderRanges(scans[n])
    ensures forall c :: c in scans[n].comps ==> !Bogus(scans[..n], scans[n], c)
  {
    var x := scans[n];
    assert ProgressiveScanLegal(scans[..n], x, ncomps);
    var c := x.comps[0];
    assert c in x.comps && CoefLegal(BitPos(scans[..n], c, x.ss), x);
    forall e, k | e in x.comps && x.ss <= k <= x.se ensures x.ah == Expected(BitPos(scans[..n], e, k)) {
      assert CoefLegal(BitPos(scans[..n], e, k), x);
    }
  }

  /** In a legal script the planes of a coefficient start at Ah = 0 and then descend one at a time. */
  lemma PlanesDescend(scans: seq<Scan>, ncomps: nat, n: nat, c: int, k: int)
    requires ProgressivePrefixLegal(scans, |scans|, ncomps) && n < |scans|
    requires c in scans[n].comps && scans[n].ss <= k <= scans[n].se
    ensures BitPos(scans[..n + 1], c, k) == scans[n].al >= 0
    ensures BitPos(scans[..n], c, k) < 0 ==> scans[n].ah == 0
    ensures BitPos(scans[..n], c, k) >= 0 ==>
              scans[n].ah == BitPos(scans[..n], c, k) > 0 && scans[n].al == BitPos(scans[..n], c, k) - 1
  {
    assert ProgressiveScanLegal(scans[..n], scans[n], ncomps);
    assert CoefLegal(BitPos(scans[..n], c, k), scans[n]);
    BitPosSnoc(scans, n, c, k);
  }
}
