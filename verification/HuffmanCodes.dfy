/** Canonical Huffman codes (Annex C of Rec. ITU-T T.81) from a list of counts per length, and
    the tables the encoder derives from them.  A code of size s is pictured as the interval
    of 16-bit numbers that begin with it. */
module HuffmanCodes {
  import opened Powers

  /** bits[k] codes of each length k = 1..16, and the symbols in order of code. */
  datatype HuffTbl = HuffTbl(bits: seq<nat>, huffval: seq<nat>)

  /** The shape of the arrays in memory. */
  ghost predicate TblOk(t: HuffTbl) {
    && |t.bits| == 17 && |t.huffval| == 256
    && (forall k :: 0 <= k < 17 ==> t.bits[k] < 256) && forall i :: 0 <= i < 256 ==> t.huffval[i] < 256
  }

  // ----- Code sizes in order

  function Repeated(x: nat, n: nat): (r: seq<nat>)
    ensures |r| == n && forall i :: 0 <= i < n ==> r[i] == x
  {
    seq(n, _ => x)
  }

  /** The code sizes up to l. */
  function Sizes(bits: seq<nat>, l: nat): (r: seq<nat>)
    requires l < |bits|
    ensures forall i :: 0 <= i < |r| ==> 1 <= r[i] <= l
  {
    if l == 0 then [] else Sizes(bits, l - 1) + Repeated(l, bits[l])
  }

  ghost predicate Sorted(s: seq<nat>) {
    forall i, j :: 0 <= i < j < |s| ==> s[i] <= s[j]
  }

  lemma {:induction false} SizesSorted(bits: seq<nat>, l: nat)
    requires l < |bits|
    ensures Sorted(Sizes(bits, l))
  {
    if l > 0 {
      SizesSorted(bits, l - 1);
    }
  }

  lemma {:induction false} SizesGrow(bits: seq<nat>, k: nat, l: nat)
    requires k <= l < |bits|
    ensures |Sizes(bits, k)| <= |Sizes(bits, l)| && Sizes(bits, l)[..|Sizes(bits, k)|] == Sizes(bits, k)
    decreases l - k
  {
    if k < l {
      SizesGrow(bits, k, l - 1);
      assert Sizes(bits, l)[..|Sizes(bits, l - 1)|] == Sizes(bits, l - 1);
      assert Sizes(bits, l)[..|Sizes(bits, k)|] == Sizes(bits, l)[..|Sizes(bits, l - 1)|][..|Sizes(bits, k)|];
    } else {
      assert Sizes(bits, l)[..|Sizes(bits, l)|] == Sizes(bits, l);
    }
  }

  // ----- Codes as intervals

  ghost predicate SizesOk(s: seq<nat>) {
    Sorted(s) && forall i :: 0 <= i < |s| ==> 1 <= s[i] <= 16
  }

  /** Where the interval of code p begins; Start(s, |s|) is where the last one ends. */
  function Start(s: seq<nat>, p: nat): nat
    requires p <= |s| && forall i :: 0 <= i < |s| ==> s[i] <= 16
  {
    if p == 0 then 0 else Start(s, p - 1) + Pow2(16 - s[p - 1])
  }

  lemma {:induction false} StartMono(s: seq<nat>, p: nat, q: nat)
    requires SizesOk(s) && p <= q <= |s|
    ensures Start(s, p) <= Start(s, q)
  {
    if p < q {
      StartMono(s, p, q - 1);
    }
  }

  lemma {:induction false} StartAligned(s: seq<nat>, p: nat, k: nat)
    requires SizesOk(s) && p <= |s| && k <= 16 && forall i :: 0 <= i < p ==> s[i] <= k
    ensures Start(s, p) % Pow2(16 - k) == 0
  {
    hide *;
    if p == 0 {
      StartsAtZero(s);
      DivUnique(0, Pow2(16 - k), 0, 0);
    } else {
      StartNext(s, p - 1);
      StartAligned(s, p - 1, k);
      Pow2Add(k - s[p - 1], 16 - k);
      SumAligned(Start(s, p - 1), Pow2(k - s[p - 1]), Pow2(16 - k));
    }
  }

  lemma StartsAtZero(s: seq<nat>)
    requires SizesOk(s)
    ensures (forall i :: 0 <= i < |s| ==> s[i] <= 16) && Start(s, 0) == 0
  {
  }

  lemma StartNext(s: seq<nat>, p: nat)
    requires SizesOk(s) && p < |s|
    ensures (forall i :: 0 <= i < |s| ==> 1 <= s[i] <= 16) && Start(s, p + 1) == Start(s, p) + Pow2(16 - s[p])
  {
    hide Pow2;
  }

  lemma SumAligned(x: nat, q: nat, d: nat)
    requires d > 0 && x % d == 0
    ensures (x + q * d) % d == 0
  {
    FloorBounds(x, d);
    Distribute(x / d, q, d);
    DivUnique(x + q * d, d, x / d + q, 0);
  }

  /** The code itself: the top s[p] bits common to its interval. */
  function Code(s: seq<nat>, p: nat): (c: nat)
    requires SizesOk(s) && p < |s|
    ensures c * Pow2(16 - s[p]) == Start(s, p)
  {
    StartAligned(s, p, s[p]);
    FloorBounds(Start(s, p), Pow2(16 - s[p]));
    FloorAtLeast(Start(s, p), Pow2(16 - s[p]), 0);
    Start(s, p) / Pow2(16 - s[p])
  }

  /** The codes leave the all-ones interval free. */
  ghost predicate LeavesRoom(s: seq<nat>) {
    SizesOk(s) && Start(s, |s|) < 0x10000
  }

  /** A code that leaves room is not all ones. */
  lemma NotAllOnes(s: seq<nat>, p: nat)
    requires LeavesRoom(s) && p < |s|
    ensures Code(s, p) + 1 < Pow2(s[p])
  {
    StartMono(s, p + 1, |s|);
    var c, d, w := Code(s, p), Pow2(16 - s[p]), Pow2(s[p]);
    Pow2Add(s[p], 16 - s[p]);
    Pow2Table();
    assert Start(s, p + 1) == Start(s, p) + d;
    hide Pow2, Start;
    Distribute(c, 1, d);
    MulMono(w, c + 1, d);
  }

  /** Consecutive codes of one size are consecutive numbers. */
  lemma {:induction false} CodesConsecutive(s: seq<nat>, p: nat, q: nat)
    requires SizesOk(s) && p <= q < |s| && s[p] == s[q]
    ensures Code(s, q) == Code(s, p) + (q - p)
  {
    if p < q {
      assert s[p] <= s[q - 1] <= s[q];
      CodesConsecutive(s, p, q - 1);
      var d := Pow2(16 - s[p]);
      Distribute(Code(s, q - 1), 1, d);
      hide Pow2;
      DivUnique(Code(s, q) * d, d, Code(s, q), 0);
      DivUnique((Code(s, q - 1) + 1) * d, d, Code(s, q - 1) + 1, 0);
    }
  }

  // ----- Words

  /** A 16-bit number begins with the code of size k. */
  predicate Begins(v: nat, c: nat, k: nat)
    requires k <= 16
  {
    v / Pow2(16 - k) == c
  }

  /** A number begins with code p if and only if it lies in its interval; so no code begins
      with another. */
  lemma BeginsIff(s: seq<nat>, p: nat, v: nat)
    requires SizesOk(s) && p < |s|
    ensures Begins(v, Code(s, p), s[p]) <==> Start(s, p) <= v < Start(s, p + 1)
  {
    var c, d := Code(s, p), Pow2(16 - s[p]);
    hide Pow2;
    FloorBounds(v, d);
    if Start(s, p) <= v < Start(s, p + 1) {
      DivUnique(v, d, c, v - c * d);
    }
  }

  /** At most one code begins any number. */
  lemma BeginsUnique(s: seq<nat>, p: nat, q: nat, v: nat)
    requires SizesOk(s) && p < |s| && q < |s| && Begins(v, Code(s, p), s[p]) && Begins(v, Code(s, q), s[q])
    ensures p == q
  {
    BeginsIff(s, p, v);
    BeginsIff(s, q, v);
    if p < q {
      StartMono(s, p + 1, q);
    } else if q < p {
      StartMono(s, q + 1, p);
    }
  }

  // ----- Figures C.1 and C.2

  datatype Result<T> = Ok(value: T) | BadHuffTable

  /** Figure C.1: the size of each code, ended by a zero; ok is false on table overrun. */
  method MakeSizes(bits: seq<nat>, huffsize: array<nat>) returns (ok: bool, lastp: nat)
    requires |bits| == 17 && huffsize.Length == 257
    modifies huffsize
    ensures ok <==> |Sizes(bits, 16)| <= 256
    ensures ok ==> lastp == |Sizes(bits, 16)| && huffsize[..lastp] == Sizes(bits, 16) && huffsize[lastp] == 0
  {
    var p := 0;
    for l := 1 to 17
      invariant p <= 256 && p == |Sizes(bits, l - 1)| && huffsize[..p] == Sizes(bits, l - 1)
    {
      if p + bits[l] > 256 {
        SizesGrow(bits, l, 16);
        return false, p;
      }
      var i: nat := bits[l];
      while i > 0
        invariant i <= bits[l] && p + i <= 256 && p == |Sizes(bits, l - 1)| + (bits[l] - i)
        invariant huffsize[..p] == Sizes(bits, l - 1) + Repeated(l, bits[l] - i)
      {
        huffsize[p] := l;
        p := p + 1;
        i := i - 1;
      }
    }
    huffsize[p] := 0;
    ok, lastp := true, p;
  }

  /** The codes of size si, from symbol p0 on. */
  method CodesOfSize(huffsize: array<nat>, lastp: nat, huffcode: array<nat>, si: nat, p0: nat, code0: nat) returns (p: nat, code: nat)
    requires huffsize.Length == huffcode.Length == 257 && p0 <= lastp <= 256 && huffsize != huffcode
    requires SizesOk(huffsize[..lastp]) && huffsize[lastp] == 0 && 1 <= si <= 16 && (p0 < lastp ==> si <= huffsize[p0])
    requires code0 * Pow2(16 - si) == Start(huffsize[..lastp], p0)
    requires forall q :: 0 <= q < p0 ==> huffcode[q] == Code(huffsize[..lastp], q)
    modifies huffcode
    ensures p0 <= p <= lastp && (p < lastp ==> si < huffsize[p]) && code * Pow2(16 - si) == Start(huffsize[..lastp], p)
    ensures huffsize[p0] == si ==> p0 < p
    ensures forall q :: 0 <= q < p ==> huffcode[q] == Code(huffsize[..lastp], q)
  {
    ghost var s := huffsize[..lastp];
    assert forall q :: 0 <= q < lastp ==> s[q] == huffsize[q];
    hide Pow2, Sorted, Start, Code, SizesOk;
    p, code := p0, code0;
    while huffsize[p] == si
      invariant p0 <= p <= lastp && (p < lastp ==> si <= s[p]) && code * Pow2(16 - si) == Start(s, p)
      invariant huffsize[p0] == si ==> p0 < p || p == p0
      invariant forall q :: 0 <= q < p ==> huffcode[q] == Code(s, q)
      decreases lastp - p
    {
      NextCode(s, p, si, code);
      huffcode[p] := code;
      p := p + 1;
      code := code + 1;
    }
  }

  lemma StartStarts(s: seq<nat>)
    requires SizesOk(s)
    ensures Start(s, 0) == 0 && (LeavesRoom(s) <==> Start(s, |s|) < 0x10000) && (|s| > 0 ==> 1 <= s[0])
    ensures forall p :: 0 <= p < |s| ==> 1 <= s[p] <= 16
  {
    hide Pow2;
  }

  /** Figure C.2: the codes themselves; ok is false if some length runs out of codes. */
  method MakeCodes(huffsize: array<nat>, lastp: nat, huffcode: array<nat>) returns (ok: bool)
    requires huffsize.Length == huffcode.Length == 257 && lastp <= 256 && huffsize != huffcode
    requires SizesOk(huffsize[..lastp]) && huffsize[lastp] == 0
    modifies huffcode
    ensures ok <==> LeavesRoom(huffsize[..lastp])
    ensures ok ==> forall p :: 0 <= p < lastp ==> huffcode[p] == Code(huffsize[..lastp], p)
  {
    ghost var s := huffsize[..lastp];
    assert forall q :: 0 <= q < lastp ==> s[q] == huffsize[q];
    StartStarts(s);
    hide Pow2, Sorted, Start, Code, LeavesRoom, SizesOk;
    var code: nat := 0;
    var si: nat := huffsize[0];
    var p := 0;
    while huffsize[p] != 0
      invariant p <= lastp && (p < lastp ==> 1 <= si <= s[p]) && (si <= 16 ==> code * Pow2(16 - si) == Start(s, p))
      invariant forall q :: 0 <= q < p ==> huffcode[q] == Code(s, q)
      invariant Start(s, p) < 0x10000
      decreases lastp - p, 17 - si
    {
      p, code := CodesOfSize(huffsize, lastp, huffcode, si, p, code);
      RoomLeft(s, p, si, code);
      if code >= Pow2(si) {
        return false;
      }
      code := code * 2;
      si := si + 1;
    }
    ok := true;
  }

  lemma NextCode(s: seq<nat>, p: nat, si: nat, code: nat)
    requires SizesOk(s) && p < |s| && s[p] == si && code * Pow2(16 - si) == Start(s, p)
    ensures code == Code(s, p) && (code + 1) * Pow2(16 - si) == Start(s, p + 1)
    ensures p + 1 < |s| ==> si <= s[p + 1]
  {
    var d := Pow2(16 - si);
    Distribute(code, 1, d);
    DivUnique(code * d, d, code, 0);
  }

  /** The check on the code after a length, and the shift to the next length. */
  lemma RoomLeft(s: seq<nat>, p: nat, si: nat, code: nat)
    requires SizesOk(s) && p <= |s| && 1 <= si <= 16 && code * Pow2(16 - si) == Start(s, p)
    ensures code >= Pow2(si) ==> !LeavesRoom(s)
    ensures code < Pow2(si) ==> Start(s, p) < 0x10000
    ensures si < 16 ==> code * 2 * Pow2(16 - (si + 1)) == Start(s, p)
  {
    StartMono(s, p, |s|);
    Pow2Add(si, 16 - si);
    Pow2Table();
    HalfUnit(code, si);
    hide Pow2, Start;
    MulMono(Pow2(si), code, Pow2(16 - si));
    if code < Pow2(si) {
      MulLess(code, Pow2(si), Pow2(16 - si));
    }
  }

  lemma HalfUnit(code: nat, si: nat)
    requires si <= 16
    ensures si < 16 ==> code * 2 * Pow2(16 - (si + 1)) == code * Pow2(16 - si)
  {
    if si < 16 {
      var h := Pow2(16 - (si + 1));
      assert Pow2(16 - si) == 2 * h;
      hide Pow2;
      TwiceHalf(code, h);
    }
  }

  lemma TwiceHalf(x: nat, h: nat)
    ensures x * 2 * h == x * (2 * h)
  {
  }

  // ----- Figure C.3: the encoder's table

  /** Code and size of each symbol; size 0 marks a symbol without a code. */
  datatype CTable = CTable(ehufco: seq<nat>, ehufsi: seq<nat>)

  function MaxSymbol(isDC: bool): nat {
    if isDC then 15 else 255
  }

  /** A table the encoder can use: no overrun, room for the all-ones code, and as many
      different admissible symbols as codes. */
  ghost predicate Usable(t: HuffTbl, isDC: bool)
    requires TblOk(t)
  {
    var s := Sizes(t.bits, 16);
    && |s| <= 256
    && (SizesSorted(t.bits, 16); LeavesRoom(s))
    && (forall p :: 0 <= p < |s| ==> t.huffval[p] <= MaxSymbol(isDC))
    && forall p, q :: 0 <= p < q < |s| ==> t.huffval[p] != t.huffval[q]
  }

  function Codes(s: seq<nat>): (r: seq<nat>)
    requires SizesOk(s)
    ensures |r| == |s| && forall p :: 0 <= p < |s| ==> r[p] == Code(s, p)
  {
    seq(|s|, p requires 0 <= p < |s| => Code(s, p))
  }

  /** The first n codes are in the table under their symbols, and nothing else. */
  ghost predicate Listed(vals: seq<nat>, codes: seq<nat>, sizes: seq<nat>, ehufco: seq<nat>, ehufsi: seq<nat>, n: nat) {
    && |ehufco| == |ehufsi| == 256 && n <= |codes| == |sizes| <= |vals|
    && (forall p :: 0 <= p < n ==> vals[p] < 256 && ehufco[vals[p]] == codes[p] && ehufsi[vals[p]] == sizes[p])
    && (forall p, q :: 0 <= p < q < n ==> vals[p] != vals[q])
    && forall v :: 0 <= v < 256 && v !in vals[..n] ==> ehufsi[v] == 0 && ehufco[v] == 0
  }

  /** The first n codes of t are in the encoder's table. */
  ghost predicate Entered(t: HuffTbl, ehufco: seq<nat>, ehufsi: seq<nat>, n: nat)
    requires TblOk(t)
  {
    var s := Sizes(t.bits, 16);
    SizesOk(s) && Listed(t.huffval, Codes(s), s, ehufco, ehufsi, n)
  }

  /** The duplicate check. */
  lemma TakenIff(t: HuffTbl, ehufco: seq<nat>, ehufsi: seq<nat>, n: nat)
    requires TblOk(t) && Entered(t, ehufco, ehufsi, n) && n < |Sizes(t.bits, 16)|
    ensures |ehufco| == |ehufsi| == 256
    ensures ehufsi[t.huffval[n]] == 0 <==> forall p :: 0 <= p < n ==> t.huffval[p] != t.huffval[n]
  {
    hide Sizes, Code, Sorted;
    var v := t.huffval[n];
    if ehufsi[v] != 0 {
      assert v in t.huffval[..n];
      var p :| 0 <= p < n && t.huffval[..n][p] == v;
    }
  }

  lemma ListNext(vals: seq<nat>, codes: seq<nat>, sizes: seq<nat>, ehufco: seq<nat>, ehufsi: seq<nat>, n: nat)
    requires Listed(vals, codes, sizes, ehufco, ehufsi, n) && n < |codes| && vals[n] < 256
    requires forall p :: 0 <= p < n ==> vals[p] != vals[n]
    ensures Listed(vals, codes, sizes, ehufco[vals[n] := codes[n]], ehufsi[vals[n] := sizes[n]], n + 1)
  {
    assert vals[..n + 1] == vals[..n] + [vals[n]];
    assert forall w :: 0 <= w < 256 && w !in vals[..n + 1] ==> w !in vals[..n] && w != vals[n];
  }

  lemma EnterNext(t: HuffTbl, ehufco: seq<nat>, ehufsi: seq<nat>, n: nat)
    requires TblOk(t) && Entered(t, ehufco, ehufsi, n) && n < |Sizes(t.bits, 16)|
    requires forall p :: 0 <= p < n ==> t.huffval[p] != t.huffval[n]
    ensures |ehufco| == |ehufsi| == 256
    ensures var (s, v) := (Sizes(t.bits, 16), t.huffval[n]);
      SizesOk(s) && Entered(t, ehufco[v := Code(s, n)], ehufsi[v := s[n]], n + 1)
  {
    hide Sizes, Code;
    ListNext(t.huffval, Codes(Sizes(t.bits, 16)), Sizes(t.bits, 16), ehufco, ehufsi, n);
  }

  /** jpeg_make_c_derived_tbl. */
  method MakeCDerived(t: HuffTbl, isDC: bool) returns (r: Result<CTable>)
    requires TblOk(t)
    ensures r.Ok? <==> Usable(t, isDC)
    ensures r.Ok? ==> Entered(t, r.value.ehufco, r.value.ehufsi, |Sizes(t.bits, 16)|)
  {
    var huffsize := new nat[257];
    var huffcode := new nat[257];
    SizesSorted(t.bits, 16);
    ghost var s := Sizes(t.bits, 16);
    UsableIs(t, isDC);
    hide Sizes, Code, LeavesRoom, Sorted, Usable, Entered;
    var ok, lastp := MakeSizes(t.bits, huffsize);
    if !ok {
      return BadHuffTable;
    }
    ok := MakeCodes(huffsize, lastp, huffcode);
    if !ok {
      return BadHuffTable;
    }
    var ehufco := new nat[256](_ => 0);
    var ehufsi := new nat[256](_ => 0);
    ok := EnterSymbols(t, isDC, huffsize, huffcode, lastp, ehufco, ehufsi);
    if ok {
      r := Ok(CTable(ehufco[..], ehufsi[..]));
    } else {
      r := BadHuffTable;
    }
  }

  /** As many different admissible symbols as codes. */
  ghost predicate Admissible(t: HuffTbl, isDC: bool, n: nat)
    requires TblOk(t) && n <= 256
  {
    && (forall p :: 0 <= p < n ==> t.huffval[p] <= MaxSymbol(isDC))
    && forall p, q :: 0 <= p < q < n ==> t.huffval[p] != t.huffval[q]
  }

  lemma UsableIs(t: HuffTbl, isDC: bool)
    requires TblOk(t)
    ensures Usable(t, isDC) <==>
      |Sizes(t.bits, 16)| <= 256 && LeavesRoom(Sizes(t.bits, 16)) && Admissible(t, isDC, |Sizes(t.bits, 16)|)
  {
    SizesSorted(t.bits, 16);
    hide Sizes, LeavesRoom;
  }

  lemma NothingEntered(t: HuffTbl, ehufco: seq<nat>, ehufsi: seq<nat>)
    requires TblOk(t) && SizesOk(Sizes(t.bits, 16)) && |Sizes(t.bits, 16)| <= 256 && |ehufco| == |ehufsi| == 256
    requires forall v :: 0 <= v < 256 ==> ehufsi[v] == 0 && ehufco[v] == 0
    ensures Entered(t, ehufco, ehufsi, 0)
  {
    hide Sizes, Code;
  }

  method EnterSymbols(t: HuffTbl, isDC: bool, huffsize: array<nat>, huffcode: array<nat>, lastp: nat,
      ehufco: array<nat>, ehufsi: array<nat>) returns (ok: bool)
    requires TblOk(t) && huffsize.Length == huffcode.Length == 257 && lastp == |Sizes(t.bits, 16)| <= 256
    requires huffsize[..lastp] == Sizes(t.bits, 16) && SizesOk(Sizes(t.bits, 16))
    requires forall p :: 0 <= p < lastp ==> huffcode[p] == Code(Sizes(t.bits, 16), p)
    requires ehufco.Length == ehufsi.Length == 256 && forall v :: 0 <= v < 256 ==> ehufsi[v] == 0 && ehufco[v] == 0
    requires ehufco != ehufsi && {ehufco, ehufsi} !! {huffsize, huffcode}
    modifies ehufco, ehufsi
    ensures ok <==> Admissible(t, isDC, lastp)
    ensures ok ==> Entered(t, ehufco[..], ehufsi[..], lastp)
  {
    ghost var s := Sizes(t.bits, 16);
    assert forall q :: 0 <= q < lastp ==> s[q] == huffsize[q];
    NothingEntered(t, ehufco[..], ehufsi[..]);
    hide Sizes, Code, SizesOk, Entered;
    for p := 0 to lastp
      invariant Entered(t, ehufco[..], ehufsi[..], p) && Admissible(t, isDC, p)
    {
      var ok1 := EnterSymbol(t, isDC, huffsize, huffcode, lastp, ehufco, ehufsi, p);
      if !ok1 {
        return false;
      }
    }
    ok := true;
  }

  lemma AdmissibleNext(t: HuffTbl, isDC: bool, p: nat, n: nat)
    requires TblOk(t) && p < n <= 256 && Admissible(t, isDC, p)
    ensures Admissible(t, isDC, p + 1) <==> t.huffval[p] <= MaxSymbol(isDC) && forall q :: 0 <= q < p ==> t.huffval[q] != t.huffval[p]
    ensures Admissible(t, isDC, n) ==> Admissible(t, isDC, p + 1)
    ensures t.huffval[p] < 256
  {
  }

  lemma SymbolsAre(t: HuffTbl)
    requires TblOk(t)
    ensures |t.huffval| == 256 && |t.bits| == 17
  {
    hide Sizes;
  }

  method EnterSymbol(t: HuffTbl, isDC: bool, huffsize: array<nat>, huffcode: array<nat>, ghost lastp: nat,
      ehufco: array<nat>, ehufsi: array<nat>, p: nat) returns (ok: bool)
    requires TblOk(t) && huffsize.Length == huffcode.Length == 257 && p < lastp == |Sizes(t.bits, 16)| <= 256
    requires SizesOk(Sizes(t.bits, 16)) && huffsize[p] == Sizes(t.bits, 16)[p] && huffcode[p] == Code(Sizes(t.bits, 16), p)
    requires ehufco.Length == ehufsi.Length == 256 && Entered(t, ehufco[..], ehufsi[..], p) && Admissible(t, isDC, p)
    requires ehufco != ehufsi && {ehufco, ehufsi} !! {huffsize, huffcode}
    modifies ehufco, ehufsi
    ensures ok ==> Entered(t, ehufco[..], ehufsi[..], p + 1) && Admissible(t, isDC, p + 1)
    ensures !ok ==> !Admissible(t, isDC, lastp)
  {
    hide *;
    SymbolsAre(t);
    ghost var s, co, sz := Sizes(t.bits, 16), ehufco[..], ehufsi[..];
    TakenIff(t, co, sz, p);
    AdmissibleNext(t, isDC, p, lastp);
    var i := t.huffval[p];
    if i > MaxSymbol(isDC) || ehufsi[i] != 0 {
      return false;
    }
    EnterNext(t, co, sz, p);
    ehufco[i] := huffcode[p];
    ehufsi[i] := huffsize[p];
    assert ehufco[..] == co[i := Code(s, p)] && ehufsi[..] == sz[i := s[p]];
    ok := true;
  }
}
