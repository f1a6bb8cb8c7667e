/** The format of Huffman-coded data in plain numbers: symbols and extra bits (sections F.1.2 and G.1.2
    of Rec. ITU-T T.81), codes (annex C), stuffing and padding (section F.1.2.3), and runs of end-of-bands. */
module HuffmanFormat {
  import opened Coefficients
  import opened Powers
  import opened Digits
  import opened BitString
  import opened HuffmanCodes
  import opened HuffmanTable
  import opened HuffmanBlock
  import opened HuffmanReader
  import opened HuffmanScan
  import opened HuffmanBands
  import opened HuffmanBandScan
  import opened HuffmanBandEncoder

  // ----- Symbols

  lemma SizeIs(v: nat, n: nat)
    requires n > 0 && Pow2(n - 1) <= v < Pow2(n)
    ensures NBits(v) == n
  {
    if v > 0 {
      NBitsBounds(v);
      if NBits(v) < n {
        Pow2Mono(NBits(v), n - 1);
      } else if NBits(v) > n {
        Pow2Mono(n, NBits(v) - 1);
      }
    }
  }

  /** A value of n bits after a run: the run in the symbol's high four bits and n in its low four, then n
      bits, which are the value or, if it is negative, the value less one. */
  lemma ValueSymbol(run: nat, v: int, n: nat)
    requires if v == 0 then n == 0 else n > 0 && Pow2(n - 1) <= (if v < 0 then -v else v) < Pow2(n)
    ensures ValueSym(run, v) == Sym(16 * run + n, if v >= 0 then v else v - 1 + Pow2(n), n)
    ensures DcSym(v) == Sym(n, if v >= 0 then v else v - 1 + Pow2(n), n)
    ensures v != 0 ==> FirstValue(run, v) == [Symbol(16 * run + n), Raw(if v >= 0 then v else v - 1 + Pow2(n), n)]
  {
    if v != 0 {
      SizeIs(Abs(v), n);
    }
    hide Pow2;
  }

  /** The AC coefficients: 0 for the end of the block, 0xF0 for sixteen zeros. */
  lemma AcSymbols(z: seq<int>, k: nat, r: nat)
    requires k <= |z|
    ensures k == |z| ==> AcSyms(z, k, r) == if r > 0 then [Sym(0, 0, 0)] else []
    ensures k < |z| && z[k] == 0 ==> AcSyms(z, k, r) == AcSyms(z, k + 1, r + 1)
    ensures k < |z| && z[k] != 0 && r < 16 ==> AcSyms(z, k, r) == [ValueSym(r, z[k])] + AcSyms(z, k + 1, 0)
    ensures k < |z| && z[k] != 0 && r >= 16 ==> AcSyms(z, k, r) == [Sym(0xF0, 0, 0)] + AcSyms(z, k, r - 16)
  {
    hide ValueSym;
  }

  /** The prediction is the DC value of the component's last block before, here block i, in the MCU ... */
  lemma {:induction false} PredictionIs(cfg: seq<BlockPlan>, zs: Mcu, last: seq<int>, n: nat, i: nat)
    requires i < n <= |cfg| == |zs| && forall k :: 0 <= k < |cfg| ==> cfg[k].ci < |last|
    requires forall k :: i < k < n ==> cfg[k].ci != cfg[i].ci
    ensures LastAfter(cfg, zs, last, n)[cfg[i].ci] == zs[i][0]
    decreases n
  {
    if i < n - 1 {
      PredictionIs(cfg, zs, last, n - 1, i);
    }
  }

  /** ... or what it was when the MCU began. */
  lemma {:induction false} PredictionKept(cfg: seq<BlockPlan>, zs: Mcu, last: seq<int>, n: nat, c: nat)
    requires n <= |cfg| == |zs| && (forall k :: 0 <= k < |cfg| ==> cfg[k].ci < |last|) && c < |last|
    requires forall k :: 0 <= k < n ==> cfg[k].ci != c
    ensures LastAfter(cfg, zs, last, n)[c] == last[c]
  {
    if n > 0 {
      PredictionKept(cfg, zs, last, n - 1, c);
    }
  }

  // ----- Codes

  /** Codes of increasing length count up, with zeros appended where the length grows. */
  lemma CodesCountUp(s: seq<nat>, p: nat)
    requires SizesOk(s) && p + 1 < |s|
    ensures Code(s, 0) == 0 && Code(s, p + 1) == (Code(s, p) + 1) * Pow2(s[p + 1] - s[p])
  {
    hide *;
    SizesUp(s, p);
    StartsAtZero(s);
    StartNext(s, p);
    var c, d := Code(s, p), Code(s, p + 1);
    var a, b := Pow2(16 - s[p]), Pow2(16 - s[p + 1]);
    var m := Pow2(s[p + 1] - s[p]);
    CodeIs(s, 0);
    CodeIs(s, p);
    CodeIs(s, p + 1);
    Pow2Add(s[p + 1] - s[p], 16 - s[p + 1]);
    SameProduct(Code(s, 0), 0, Pow2(16 - s[0]));
    Distribute(c, 1, a);
    Reassociate(c + 1, m, b);
    SameProduct(d, (c + 1) * m, b);
  }

  lemma SizesUp(s: seq<nat>, p: nat)
    requires SizesOk(s) && p + 1 < |s|
    ensures s[p] <= s[p + 1] <= 16 && s[0] <= 16
  {
  }

  lemma CodeIs(s: seq<nat>, p: nat)
    requires SizesOk(s) && p < |s|
    ensures s[p] <= 16 && (forall i :: 0 <= i < |s| ==> s[i] <= 16) && Code(s, p) * Pow2(16 - s[p]) == Start(s, p)
  {
    hide Pow2, Start;
  }

  lemma Reassociate(x: nat, y: nat, z: nat)
    ensures x * (y * z) == x * y * z
  {
  }

  lemma SameProduct(x: nat, y: nat, d: nat)
    requires d > 0 && x * d == y * d
    ensures x == y
  {
    DivUnique(x * d, d, x, 0);
    DivUnique(y * d, d, y, 0);
  }

  /** By size, and among equal sizes by number. */
  ghost predicate InOrder(size: seq<nat>, list: seq<nat>) {
    (forall i :: 0 <= i < |list| ==> list[i] < |size|)
    && forall i, j :: 0 <= i < j < |list| ==>
      size[list[i]] < size[list[j]] || (size[list[i]] == size[list[j]] && list[i] < list[j])
  }

  lemma OrderConcat(size: seq<nat>, a: seq<nat>, b: seq<nat>)
    requires InOrder(size, a) && InOrder(size, b)
    requires forall i, j :: 0 <= i < |a| && 0 <= j < |b| ==> size[a[i]] < size[b[j]]
    ensures InOrder(size, a + b)
  {
    forall i, j | 0 <= i < j < |a + b|
      ensures size[(a + b)[i]] < size[(a + b)[j]] || (size[(a + b)[i]] == size[(a + b)[j]] && (a + b)[i] < (a + b)[j])
    {
      if i < |a| && j >= |a| {
        assert (a + b)[i] == a[i] && (a + b)[j] == b[j - |a|];
      }
    }
  }

  /** The symbols with codes are listed by size, and those of one size in increasing order. */
  lemma {:induction false} ListedInOrder(size: seq<nat>, l: nat, n: nat)
    requires n <= |size|
    ensures InOrder(size, BySize(size, l, n))
  {
    if l > 0 {
      var a, b := BySize(size, l - 1, n), WithSize(size, l, n);
      assert BySize(size, l, n) == a + b;
      hide BySize, WithSize;
      ListedInOrder(size, l - 1, n);
      WithSizeUp(size, l, n);
      SizesApart(size, a, b, l, n);
      OrderConcat(size, a, b);
    }
  }

  lemma SizesApart(size: seq<nat>, a: seq<nat>, b: seq<nat>, l: nat, n: nat)
    requires l > 0 && n <= |size| && a == BySize(size, l - 1, n) && b == WithSize(size, l, n)
    requires InOrder(size, a) && InOrder(size, b)
    ensures forall i, j :: 0 <= i < |a| && 0 <= j < |b| ==> size[a[i]] < size[b[j]]
  {
    hide BySize, WithSize;
    forall i, j | 0 <= i < |a| && 0 <= j < |b| ensures size[a[i]] < size[b[j]] {
      Smaller(size, l - 1, n, a[i]);
      Exactly(size, l, n, b[j]);
    }
  }

  lemma Smaller(size: seq<nat>, l: nat, n: nat, v: nat)
    requires n <= |size| && v in BySize(size, l, n)
    ensures v < n && size[v] <= l
  {
    BySizeIs(size, l, n);
  }

  lemma Exactly(size: seq<nat>, l: nat, n: nat, v: nat)
    requires n <= |size| && v in WithSize(size, l, n)
    ensures v < n && size[v] == l
  {
    WithSizeIs(size, l, n);
  }

  lemma {:induction false} WithSizeUp(size: seq<nat>, k: nat, n: nat)
    requires n <= |size|
    ensures InOrder(size, WithSize(size, k, n))
  {
    if n > 0 {
      WithSizeUp(size, k, n - 1);
      WithSizeIs(size, k, n - 1);
      var list := WithSize(size, k, n - 1);
      if size[n - 1] == k {
        assert WithSize(size, k, n) == list + [n - 1];
        hide WithSize;
        LastInOrder(size, k, list, n - 1);
      } else {
        assert WithSize(size, k, n) == list;
      }
    }
  }

  lemma LastInOrder(size: seq<nat>, k: nat, list: seq<nat>, x: nat)
    requires InOrder(size, list) && x < |size| && size[x] == k && forall v: nat :: v in list ==> v < x && size[v] == k
    ensures InOrder(size, list + [x])
  {
    forall i | 0 <= i < |list| ensures list[i] < x && size[list[i]] == k {
      assert list[i] in list;
    }
  }

  // ----- Bytes

  /** The last byte is filled with ones; after every byte 0xFF stands a zero. */
  lemma BytesAre(b: Bits, m: nat, x: byte, d: seq<byte>)
    requires m < 8 && (|b| + m) % 8 == 0
    ensures Finished(b) == Stuff(Pack(b + seq(m, _ => true)))
    ensures Stuff([]) == [] && Stuff([x] + d) == (if x == 0xFF then [0xFF, 0x00] else [x]) + Stuff(d)
  {
    assert m == (8 - |b| % 8) % 8 && Padding(|b|) == seq(m, _ => true);
    assert ([x] + d)[1..] == d;
  }

  /** A segment: bytes up to a marker; 0xFF and a zero is a byte 0xFF, and fill bytes 0xFF before are skipped. */
  lemma SegmentBytes(x: byte, t: seq<byte>)
    ensures x != 0xFF ==> Segment([x] + t) == [x] + Segment(t)
    ensures Segment([0xFF, 0x00] + t) == [0xFF] + Segment(t) && Segment([0xFF, 0xFF] + t) == Segment([0xFF] + t)
    ensures 0 < x < 0xFF ==> Segment([0xFF, x] + t) == []
    ensures Segment([]) == Segment([0xFF]) == []
  {
    var a, b, c, e: seq<byte> := [x] + t, [0xFF, 0x00] + t, [0xFF, 0xFF] + t, [0xFF, x] + t;
    assert a[1..] == t && b[1..] == [0x00] + t && b[1..][1..] == t && c[1..] == [0xFF] + t && e[1..] == [x] + t && ([0xFF] + t)[1..] == t;
    assert c[1..][1..] == t && [0xFF][1..] == [];
    assert NextByte(b) == Data(0xFF, t);
    assert NextByte(c) == AfterFF(t) == NextByte([0xFF] + t);
    hide AfterFF;
  }

  // ----- Progressive AC scans

  /** First pass: what coefficient k adds after r zeros. */
  lemma FirstItems(y: seq<int>, k: nat, r: nat, se: nat)
    requires se < |y|
    ensures k > se ==> FirstFrom(y, k, r, se) == BandCode([], r > 0, [])
    ensures k <= se && y[k] == 0 ==> FirstFrom(y, k, r, se) == FirstFrom(y, k + 1, r + 1, se)
    ensures k <= se && y[k] != 0 && r < 16 ==>
      FirstFrom(y, k, r, se) == FirstFrom(y, k + 1, 0, se).(head := FirstValue(r, y[k]) + FirstFrom(y, k + 1, 0, se).head)
    ensures k <= se && y[k] != 0 && r >= 16 ==>
      FirstFrom(y, k, r, se) == FirstFrom(y, k, r - 16, se).(head := [Symbol(0xF0)] + FirstFrom(y, k, r - 16, se).head)
  {
    hide FirstValue;
  }

  /** Refinement: correction bits of known coefficients wait for the next symbol; sixteen zeros are sent only
      before a coefficient that is not beyond the last new one; and a new one is its run, the size 1, and its sign. */
  lemma RefineItems(y: seq<int>, k: nat, r: nat, br: seq<bool>, eob: nat, se: nat)
    requires se < |y|
    ensures k > se ==> RefineFrom(y, k, r, br, eob, se) == BandCode([], r > 0 || br != [], br)
    ensures k <= se && y[k] == 0 ==> RefineFrom(y, k, r, br, eob, se) == RefineFrom(y, k + 1, r + 1, br, eob, se)
    ensures k <= se && y[k] != 0 && r > 15 && k <= eob ==>
      var c := RefineFrom(y, k, r - 16, [], eob, se);
      RefineFrom(y, k, r, br, eob, se) == c.(head := [Symbol(0xF0)] + BitItems(br) + c.head)
    ensures k <= se && !(r > 15 && k <= eob) && (y[k] > 1 || y[k] < -1) ==>
      RefineFrom(y, k, r, br, eob, se) == RefineFrom(y, k + 1, r, br + [y[k] % 2 == 1], eob, se)
    ensures k <= se && !(r > 15 && k <= eob) && (y[k] == 1 || y[k] == -1) ==>
      var c := RefineFrom(y, k + 1, 0, [], eob, se);
      RefineFrom(y, k, r, br, eob, se) == c.(head := [Symbol(16 * r + 1), Raw(if y[k] > 0 then 1 else 0, 1)] + BitItems(br) + c.head)
  {
    if k <= se {
      SameParity(y[k]);
    }
    hide BitItems;
  }

  lemma SameParity(v: int)
    ensures Abs(v) % 2 == v % 2
  {
  }

  /** A run of n blocks: the place of the highest bit of n in the symbol's high four bits, then the bits below it. */
  lemma RunItems(n: nat, k: nat)
    requires Pow2(k) <= n < Pow2(k + 1)
    ensures EobItems(n) == [Symbol(16 * k)] + if k > 0 then [Raw(n - Pow2(k), k)] else []
  {
    SizeIs(n, k + 1);
    assert Pow2(0) == 1 && Pow2(1) == 2;
    if k > 0 {
      Pow2Mono(1, k);
    }
    hide Pow2, NBits;
  }

  /** A block whose band is over before its end goes on with the run before it if it has no symbols of its own,
      and the run has less than 0x7FFF blocks and at most 937 correction bits; else it starts a run. */
  lemma RunsAre(codes: seq<BandCode>, c: BandCode)
    ensures var s, t := RunsOf(codes), RunsOf(codes + [c]);
      && (!c.ended ==> t == Runs(s.us + [Group(c.head, [])], false))
      && (c.ended && !(c.head == [] && s.open && s.us != []) ==> t.us == s.us + [Group(c.head, [c.tail])])
      && (c.ended && c.head == [] && s.open && s.us != [] ==>
           var u := s.us[|s.us| - 1];
           t.us == s.us[..|s.us| - 1] + [Group(u.head, u.tails + [c.tail])])
      && (c.ended ==> (t.open <==> var u := t.us[|t.us| - 1]; |u.tails| < 0x7FFF && |Flat(u.tails)| <= 937))
  {
    RunsSnoc(codes, c);
    hide RunsOf, Flat;
  }
}
