/** The decoder's derived tables (figures C.1, C.2 and F.15 of Rec. ITU-T T.81 and the 8-bit
    lookahead), and the two ways of finding a symbol with them. */
module HuffmanDecode {
  import opened Powers
  import opened HuffmanCodes

  const HUFF_LOOKAHEAD: nat := 8

  datatype DTable = DTable(maxcode: seq<int>, valoffset: seq<int>, lookup: seq<nat>)

  /** Index of the first code of size l. */
  function FirstOf(bits: seq<nat>, l: nat): nat
    requires 1 <= l < |bits|
  {
    |Sizes(bits, l - 1)|
  }

  /** Code p in the lookahead table: every byte that begins with it leads to it. */
  ghost predicate InLookup(t: HuffTbl, s: seq<nat>, lookup: seq<nat>, p: nat)
    requires TblOk(t) && SizesOk(s) && p < |s| <= 256 && |lookup| == 256
  {
    s[p] <= HUFF_LOOKAHEAD ==>
      forall x: nat :: x < 256 && Start(s, p) <= x * 256 < Start(s, p + 1) ==> lookup[x] == s[p] * 256 + t.huffval[p]
  }

  /** Bytes that begin with none of the first n codes lead to "too long". */
  ghost predicate Uncovered(s: seq<nat>, lookup: seq<nat>, n: nat)
    requires SizesOk(s) && n <= |s| && |lookup| == 256
  {
    forall x: nat :: x < 256 && (forall p :: 0 <= p < n && s[p] <= HUFF_LOOKAHEAD ==> !(Start(s, p) <= x * 256 < Start(s, p + 1))) ==>
      lookup[x] == (HUFF_LOOKAHEAD + 1) * 256
  }

  /** The tables are those of t. */
  ghost predicate Derived(t: HuffTbl, d: DTable)
    requires TblOk(t)
  {
    var s := Sizes(t.bits, 16);
    && |s| <= 256 && LeavesRoom(s) && |d.maxcode| == |d.valoffset| == 18 && |d.lookup| == 256
    && (forall l :: 1 <= l <= 16 ==> LengthOk(t, s, d.maxcode, d.valoffset, l))
    && d.maxcode[17] == 0xFFFFF
    && (forall p :: 0 <= p < |s| ==> InLookup(t, s, d.lookup, p))
    && Uncovered(s, d.lookup, |s|)
  }

  /** Largest code of size l, and the distance from code to index. */
  ghost predicate LengthOk(t: HuffTbl, s: seq<nat>, maxcode: seq<int>, valoffset: seq<int>, l: nat)
    requires TblOk(t) && SizesOk(s) && |maxcode| == |valoffset| == 18 && 1 <= l <= 16
  {
    if t.bits[l] == 0 then maxcode[l] == -1 else
    var p := FirstOf(t.bits, l);
    p + t.bits[l] <= |s| && maxcode[l] == Code(s, p + t.bits[l] - 1) && valoffset[l] == p - Code(s, p)
  }

  // ----- Sizes and indexes

  lemma FirstAndLast(t: HuffTbl, l: nat)
    requires TblOk(t) && 1 <= l <= 16
    ensures var s := Sizes(t.bits, 16);
      var p := FirstOf(t.bits, l);
      && p + t.bits[l] <= |s|
      && (forall q :: p <= q < p + t.bits[l] ==> s[q] == l)
      && (forall q :: 0 <= q < p ==> s[q] < l)
      && forall q :: p + t.bits[l] <= q < |s| ==> s[q] > l
  {
    var s := Sizes(t.bits, 16);
    SizesGrow(t.bits, l, 16);
    SizesGrow(t.bits, l - 1, 16);
    var a, b := Sizes(t.bits, l), Sizes(t.bits, l - 1);
    assert a == b + Repeated(l, t.bits[l]);
    assert forall q :: 0 <= q < |a| ==> s[q] == s[..|a|][q] == a[q];
    forall q | |a| <= q < |s| ensures s[q] > l {
      LargerAfter(t.bits, l, 16, q);
    }
    hide Sizes;
    assert forall q :: 0 <= q < |b| ==> a[q] == b[q];
  }

  lemma {:induction false} LargerAfter(bits: seq<nat>, k: nat, l: nat, q: nat)
    requires k <= l < |bits| && |Sizes(bits, k)| <= q < |Sizes(bits, l)|
    ensures Sizes(bits, l)[q] > k
    decreases l - k
  {
    if q < |Sizes(bits, l - 1)| {
      LargerAfter(bits, k, l - 1, q);
    }
  }

  // ----- Bit by bit

  /** Length at which the bit-by-bit search stops in the 17-bit window w, from length l on. */
  function SlowLen(maxcode: seq<int>, w: nat, l: nat): (r: nat)
    requires |maxcode| == 18 && 1 <= l <= 17
    ensures l <= r <= 17
    decreases 17 - l
  {
    if w / Pow2(17 - l) > maxcode[l] && l < 17 then SlowLen(maxcode, w, l + 1) else l
  }

  lemma WindowTop(w: nat, l: nat)
    requires 1 <= l <= 16
    ensures w / Pow2(17 - l) == w / 2 / Pow2(16 - l)
  {
    var p := Pow2(16 - l);
    assert Pow2(17 - l) == 2 * p;
    var q, r := w / 2 / p, w / 2 % p;
    FloorBounds(w / 2, p);
    assert q * (2 * p) == 2 * (q * p);
    DivUnique(w, 2 * p, q, 2 * r + w % 2);
  }

  /** Past the interval of a code, the bits read exceed it. */
  lemma BeyondCode(s: seq<nat>, q: nat, w: nat)
    requires SizesOk(s) && q < |s| && Start(s, q + 1) <= w / 2
    ensures w / Pow2(17 - s[q]) > Code(s, q)
  {
    hide *;
    CodeEnds(s, q);
    WindowTop(w, s[q]);
    FloorAtLeast(w / 2, Pow2(16 - s[q]), Code(s, q) + 1);
  }

  lemma CodeEnds(s: seq<nat>, q: nat)
    requires SizesOk(s) && q < |s|
    ensures 1 <= s[q] <= 16 && Start(s, q + 1) == (Code(s, q) + 1) * Pow2(16 - s[q])
  {
    hide *;
    StartNext(s, q);
    Distribute(Code(s, q), 1, Pow2(16 - s[q]));
  }

  /** Past the codes of size l, the first l bits exceed the largest of them. */
  lemma BeyondLength(t: HuffTbl, d: DTable, l: nat, w: nat)
    requires TblOk(t) && Derived(t, d) && 1 <= l <= 16
    requires FirstOf(t.bits, l) + t.bits[l] <= |Sizes(t.bits, 16)|
    requires Start(Sizes(t.bits, 16), FirstOf(t.bits, l) + t.bits[l]) <= w / 2
    ensures w / Pow2(17 - l) > d.maxcode[l]
  {
    hide Sizes, Code, Start, Pow2, InLookup, Uncovered;
    var s := Sizes(t.bits, 16);
    assert LengthOk(t, s, d.maxcode, d.valoffset, l);
    hide Derived;
    if t.bits[l] == 0 {
      FloorAtLeast(w, Pow2(17 - l), 0);
    } else {
      FirstAndLast(t, l);
      BeyondCode(s, FirstOf(t.bits, l) + t.bits[l] - 1, w);
    }
  }

  /** From any length up to the code's own, the search stops there and the offset leads to
      the code's symbol. */
  lemma {:induction false} SlowFinds(t: HuffTbl, d: DTable, p: nat, w: nat, l: nat)
    requires TblOk(t) && Derived(t, d) && p < |Sizes(t.bits, 16)| && 1 <= l <= Sizes(t.bits, 16)[p]
    requires Begins(w / 2, Code(Sizes(t.bits, 16), p), Sizes(t.bits, 16)[p])
    ensures SlowLen(d.maxcode, w, l) == Sizes(t.bits, 16)[p]
    ensures w / Pow2(17 - Sizes(t.bits, 16)[p]) + d.valoffset[Sizes(t.bits, 16)[p]] == p
    decreases 17 - l
  {
    var s := Sizes(t.bits, 16);
    FirstAndLast(t, l);
    if l < s[p] {
      BeginsIff(s, p, w / 2);
      StartMono(s, FirstOf(t.bits, l) + t.bits[l], p);
      BeyondLength(t, d, l, w);
      SlowFinds(t, d, p, w, l + 1);
    } else {
      SlowStops(t, d, p, w);
    }
  }

  lemma SlowStops(t: HuffTbl, d: DTable, p: nat, w: nat)
    requires TblOk(t) && Derived(t, d) && p < |Sizes(t.bits, 16)|
    requires Begins(w / 2, Code(Sizes(t.bits, 16), p), Sizes(t.bits, 16)[p])
    ensures SlowLen(d.maxcode, w, Sizes(t.bits, 16)[p]) == Sizes(t.bits, 16)[p]
    ensures w / Pow2(17 - Sizes(t.bits, 16)[p]) + d.valoffset[Sizes(t.bits, 16)[p]] == p
  {
    hide *;
    LengthAt(t, d, p);
    var s := Sizes(t.bits, 16);
    var l := s[p];
    var q := FirstOf(t.bits, l);
    FirstAndLast(t, l);
    WindowTop(w, l);
    CodesConsecutive(s, q, p);
    CodesConsecutive(s, p, q + t.bits[l] - 1);
    BeginsTop(w, Code(s, p), l);
    StopsAt(d.maxcode, w, l);
  }

  /** What the tables hold for the length of code p. */
  lemma LengthAt(t: HuffTbl, d: DTable, p: nat)
    requires TblOk(t) && Derived(t, d) && p < |Sizes(t.bits, 16)|
    ensures var s := Sizes(t.bits, 16);
      && SizesOk(s) && |d.maxcode| == |d.valoffset| == 18 && |t.bits| > 16 && 1 <= s[p] <= 16
      && var q := FirstOf(t.bits, s[p]);
         && q <= p < q + t.bits[s[p]] <= |s| && s[q] == s[p] && s[q + t.bits[s[p]] - 1] == s[p]
         && d.maxcode[s[p]] == Code(s, q + t.bits[s[p]] - 1) && d.valoffset[s[p]] == q - Code(s, q)
  {
    var s := Sizes(t.bits, 16);
    assert LengthOk(t, s, d.maxcode, d.valoffset, s[p]);
    FirstAndLast(t, s[p]);
    hide Sizes, Code, Pow2, Start;
  }

  lemma BeginsTop(w: nat, code: nat, l: nat)
    requires 1 <= l <= 16 && Begins(w / 2, code, l) && w / Pow2(17 - l) == w / 2 / Pow2(16 - l)
    ensures w / Pow2(17 - l) == code
  {
    hide Pow2;
  }

  lemma StopsAt(maxcode: seq<int>, w: nat, l: nat)
    requires |maxcode| == 18 && 1 <= l <= 17 && w / Pow2(17 - l) <= maxcode[l]
    ensures SlowLen(maxcode, w, l) == l
  {
    hide Pow2;
  }

  /** If no code begins the window, the search runs into the sentinel. */
  lemma {:induction false} SlowMisses(t: HuffTbl, d: DTable, w: nat, l: nat)
    requires TblOk(t) && Derived(t, d) && 1 <= l <= 17
    requires Start(Sizes(t.bits, 16), |Sizes(t.bits, 16)|) <= w / 2
    ensures SlowLen(d.maxcode, w, l) == 17
    decreases 17 - l
  {
    if l <= 16 {
      FirstAndLast(t, l);
      StartMono(Sizes(t.bits, 16), FirstOf(t.bits, l) + t.bits[l], |Sizes(t.bits, 16)|);
      BeyondLength(t, d, l, w);
      SlowMisses(t, d, w, l + 1);
    }
  }

  lemma {:induction false} SomeCode(s: seq<nat>, n: nat, v: nat) returns (p: nat)
    requires SizesOk(s) && n <= |s| && v < Start(s, n)
    ensures p < n && Start(s, p) <= v < Start(s, p + 1)
  {
    if v >= Start(s, n - 1) {
      p := n - 1;
    } else {
      p := SomeCode(s, n - 1, v);
    }
  }

  // ----- The symbol, and the lookahead

  /** Symbol and length; a bad code counts 17 bits and yields 0. */
  function SlowDecode(t: HuffTbl, d: DTable, w: nat, min: nat): (r: (nat, nat))
    requires TblOk(t) && |d.maxcode| == |d.valoffset| == 18 && 1 <= min <= 17
  {
    var l := SlowLen(d.maxcode, w, min);
    var i := w / Pow2(17 - l) + d.valoffset[l];
    (if l > 16 || !(0 <= i < 256) then 0 else t.huffval[i], l)
  }

  /** HUFF_DECODE with at least eight bits at hand. */
  function LookDecode(t: HuffTbl, d: DTable, w: nat): (r: (nat, nat))
    requires TblOk(t) && |d.maxcode| == |d.valoffset| == 18 && |d.lookup| == 256 && w < 0x20000
  {
    var look := d.lookup[w / 512];
    if look / 256 <= HUFF_LOOKAHEAD then (look % 256, look / 256) else SlowDecode(t, d, w, HUFF_LOOKAHEAD + 1)
  }

  /** Code p decodes to its own symbol, and takes as many bits as it has. */
  lemma CodeDecodes(t: HuffTbl, d: DTable, p: nat, w: nat, min: nat)
    requires TblOk(t) && Derived(t, d) && p < |Sizes(t.bits, 16)| && 1 <= min <= Sizes(t.bits, 16)[p]
    requires Begins(w / 2, Code(Sizes(t.bits, 16), p), Sizes(t.bits, 16)[p])
    ensures SlowDecode(t, d, w, min) == (t.huffval[p], Sizes(t.bits, 16)[p])
  {
    hide Sizes, Code, Pow2, SlowLen;
    SlowFinds(t, d, p, w, min);
  }

  /** The byte at the top of the window. */
  lemma TopByte(s: seq<nat>, p: nat, v: nat)
    requires SizesOk(s) && p < |s| && s[p] <= HUFF_LOOKAHEAD
    ensures Start(s, p) <= v < Start(s, p + 1) <==> Start(s, p) <= v / 256 * 256 < Start(s, p + 1)
  {
    var k := s[p];
    StartAligned(s, p, k);
    StartAligned(s, p + 1, k);
    Pow2Add(HUFF_LOOKAHEAD - k, 8);
    Pow2Table();
    hide Pow2, Start;
    MultipleOf256(Start(s, p), Pow2(HUFF_LOOKAHEAD - k));
    MultipleOf256(Start(s, p + 1), Pow2(HUFF_LOOKAHEAD - k));
  }

  lemma MultipleOf256(x: nat, q: nat)
    requires q > 0 && x % (q * 256) == 0
    ensures x % 256 == 0
  {
    FloorBounds(x, q * 256);
    var n := x / (q * 256);
    assert n * (q * 256) == n * q * 256;
    DivUnique(x, 256, n * q, 0);
  }

  lemma ShortHit(t: HuffTbl, d: DTable, w: nat, p: nat)
    requires TblOk(t) && Derived(t, d) && w < 0x20000 && p < |Sizes(t.bits, 16)| && Sizes(t.bits, 16)[p] <= HUFF_LOOKAHEAD
    requires Start(Sizes(t.bits, 16), p) <= w / 2 < Start(Sizes(t.bits, 16), p + 1)
    ensures LookDecode(t, d, w) == (t.huffval[p], Sizes(t.bits, 16)[p])
  {
    hide *;
    LookupAt(t, d, p);
    var s := Sizes(t.bits, 16);
    TopByte(s, p, w / 2);
    ByteOfWindow(w);
    InLookupAt(t, s, d.lookup, p, w / 512);
    LookHit(t, d, w, s[p]);
  }

  lemma LookupAt(t: HuffTbl, d: DTable, p: nat)
    requires TblOk(t) && Derived(t, d) && p < |Sizes(t.bits, 16)|
    ensures var s := Sizes(t.bits, 16);
      && SizesOk(s) && |s| <= 256 && |d.maxcode| == |d.valoffset| == 18 && |d.lookup| == 256 && InLookup(t, s, d.lookup, p)
      && |t.huffval| > p && t.huffval[p] < 256 && |t.bits| == 17
  {
    hide Sizes, Code, Pow2, Start, LengthOk, Uncovered, InLookup;
  }

  lemma ByteOfWindow(w: nat)
    requires w < 0x20000
    ensures w / 512 < 256 && w / 2 / 256 == w / 512
  {
  }

  lemma InLookupAt(t: HuffTbl, s: seq<nat>, lookup: seq<nat>, p: nat, x: nat)
    requires TblOk(t) && SizesOk(s) && p < |s| <= 256 && |lookup| == 256 && InLookup(t, s, lookup, p)
    requires s[p] <= HUFF_LOOKAHEAD && x < 256 && Start(s, p) <= x * 256 < Start(s, p + 1) && |t.huffval| > p
    ensures lookup[x] == s[p] * 256 + t.huffval[p]
  {
    hide Start;
  }

  lemma LookHit(t: HuffTbl, d: DTable, w: nat, n: nat)
    requires TblOk(t) && |d.maxcode| == |d.valoffset| == 18 && |d.lookup| == 256 && w < 0x20000 && n <= HUFF_LOOKAHEAD
    requires d.lookup[w / 512] / 256 == n
    ensures LookDecode(t, d, w) == (d.lookup[w / 512] % 256, n)
  {
    hide SlowDecode;
  }

  lemma LongHit(t: HuffTbl, d: DTable, w: nat, p: nat)
    requires TblOk(t) && Derived(t, d) && w < 0x20000 && p < |Sizes(t.bits, 16)| && Sizes(t.bits, 16)[p] > HUFF_LOOKAHEAD
    requires Start(Sizes(t.bits, 16), p) <= w / 2 < Start(Sizes(t.bits, 16), p + 1)
    ensures LookDecode(t, d, w) == SlowDecode(t, d, w, HUFF_LOOKAHEAD + 1)
  {
    var s := Sizes(t.bits, 16);
    assert w / 512 == w / 2 / 256;
    hide Sizes, Start, Code, Pow2, SlowLen, InLookup;
    NoShortCode(s, p, w / 2);
    assert Uncovered(s, d.lookup, |s|);
    hide Derived, SlowDecode;
  }

  /** The lookahead path gives the same symbol and the same length as going bit by bit. */
  lemma LookIsSlow(t: HuffTbl, d: DTable, w: nat)
    requires TblOk(t) && Derived(t, d) && w < 0x20000
    ensures LookDecode(t, d, w) == SlowDecode(t, d, w, 1)
  {
    var s := Sizes(t.bits, 16);
    assert LeavesRoom(s);
    hide Sizes, Start, Code, Pow2, SlowDecode, LookDecode, Derived;
    if w / 2 < Start(s, |s|) {
      var p := SomeCode(s, |s|, w / 2);
      BeginsIff(s, p, w / 2);
      CodeDecodes(t, d, p, w, 1);
      if s[p] <= HUFF_LOOKAHEAD {
        ShortHit(t, d, w, p);
      } else {
        LongHit(t, d, w, p);
        CodeDecodes(t, d, p, w, HUFF_LOOKAHEAD + 1);
      }
    } else {
      MissesBoth(t, d, w);
    }
  }

  /** If a long code begins v, no short one begins its top byte. */
  lemma NoShortCode(s: seq<nat>, p: nat, v: nat)
    requires SizesOk(s) && p < |s| && Start(s, p) <= v < Start(s, p + 1) && s[p] > HUFF_LOOKAHEAD
    ensures forall q :: 0 <= q < |s| && s[q] <= HUFF_LOOKAHEAD ==> !(Start(s, q) <= v / 256 * 256 < Start(s, q + 1))
  {
    forall q | 0 <= q < |s| && s[q] <= HUFF_LOOKAHEAD && Start(s, q) <= v / 256 * 256 < Start(s, q + 1) ensures false {
      TopByte(s, q, v);
      BeginsIff(s, p, v);
      BeginsIff(s, q, v);
      BeginsUnique(s, p, q, v);
    }
  }

  lemma MissesBoth(t: HuffTbl, d: DTable, w: nat)
    requires TblOk(t) && Derived(t, d) && w < 0x20000
    requires Start(Sizes(t.bits, 16), |Sizes(t.bits, 16)|) <= w / 2
    ensures LookDecode(t, d, w) == SlowDecode(t, d, w, 1) == (0, 17)
  {
    var s := Sizes(t.bits, 16);
    assert w / 512 == w / 2 / 256;
    SlowMisses(t, d, w, 1);
    SlowMisses(t, d, w, HUFF_LOOKAHEAD + 1);
    hide Sizes, SlowLen, Pow2, Code, Start, InLookup;
    MissesShort(s, w / 2);
    assert Uncovered(s, d.lookup, |s|);
    hide Derived;
  }

  lemma MissesShort(s: seq<nat>, v: nat)
    requires SizesOk(s) && Start(s, |s|) <= v
    ensures forall q :: 0 <= q < |s| && s[q] <= HUFF_LOOKAHEAD ==> !(Start(s, q) <= v / 256 * 256 < Start(s, q + 1))
  {
    forall q | 0 <= q < |s| && s[q] <= HUFF_LOOKAHEAD ensures !(Start(s, q) <= v / 256 * 256 < Start(s, q + 1)) {
      StartMono(s, q + 1, |s|);
      TopByte(s, q, v);
    }
  }

  // ----- jpeg_make_d_derived_tbl

  /** Where code p lies among the lookahead bytes. */
  lemma LookRange(s: seq<nat>, p: nat)
    requires LeavesRoom(s) && p < |s| && s[p] <= HUFF_LOOKAHEAD
    ensures var first, n := Code(s, p) * Pow2(HUFF_LOOKAHEAD - s[p]), Pow2(HUFF_LOOKAHEAD - s[p]);
      Start(s, p) == first * 256 && Start(s, p + 1) == (first + n) * 256 && first + n <= 256
  {
    var c, n := Code(s, p), Pow2(HUFF_LOOKAHEAD - s[p]);
    StartMono(s, p + 1, |s|);
    Pow2Add(HUFF_LOOKAHEAD - s[p], 8);
    Pow2Table();
    assert Start(s, p + 1) == Start(s, p) + Pow2(16 - s[p]);
    hide Pow2, Start, Code;
    Regroup(c, n);
    Distribute(c * n, n, 256);
  }

  lemma Regroup(c: nat, n: nat)
    ensures c * (n * 256) == c * n * 256
  {
  }

  /** The entries of the first n codes, all short, are in place. */
  ghost predicate Looked(t: HuffTbl, s: seq<nat>, lookup: seq<nat>, n: nat)
    requires TblOk(t)
  {
    && SizesOk(s) && n <= |s| <= 256 && |lookup| == 256
    && (forall p :: 0 <= p < n ==> InLookup(t, s, lookup, p))
    && Uncovered(s, lookup, n)
  }

  /** Writing the entries of one more code disturbs none of the others. */
  lemma LookedNext(t: HuffTbl, s: seq<nat>, lookup: seq<nat>, n: nat, next: seq<nat>)
    requires TblOk(t) && Looked(t, s, lookup, n) && n < |s| && s[n] <= HUFF_LOOKAHEAD && |next| == 256
    requires forall x: nat :: x < 256 ==>
      next[x] == if Start(s, n) <= x * 256 < Start(s, n + 1) then s[n] * 256 + t.huffval[n] else lookup[x]
    ensures Looked(t, s, next, n + 1)
  {
    hide Start, Sorted;
    forall p | 0 <= p < n + 1 ensures InLookup(t, s, next, p) {
      if p < n {
        assert InLookup(t, s, lookup, p);
        StartMono(s, p + 1, n);
      }
    }
    forall x: nat | x < 256 && forall p :: 0 <= p < n + 1 && s[p] <= HUFF_LOOKAHEAD ==> !(Start(s, p) <= x * 256 < Start(s, p + 1))
      ensures next[x] == (HUFF_LOOKAHEAD + 1) * 256
    {
      assert !(Start(s, n) <= x * 256 < Start(s, n + 1));
    }
  }

  /** The bytes that begin with one code. */
  method FillEntries(lookup: array<nat>, first: nat, n: nat, value: nat)
    requires lookup.Length == 256 && first + n <= 256
    modifies lookup
    ensures forall x: nat :: x < 256 ==> lookup[x] == if first <= x < first + n then value else old(lookup[x])
  {
    var lookbits: nat := first;
    var ctr: nat := n;
    while ctr > 0
      invariant ctr <= n && lookbits + ctr == first + n
      invariant forall x: nat :: x < 256 ==> lookup[x] == if first <= x < lookbits then value else old(lookup[x])
    {
      lookup[lookbits] := value;
      lookbits := lookbits + 1;
      ctr := ctr - 1;
    }
  }

  method FillCode(t: HuffTbl, ghost s: seq<nat>, l: nat, code: nat, p: nat, lookup: array<nat>)
    requires TblOk(t) && LeavesRoom(s) && lookup.Length == 256 && Looked(t, s, lookup[..], p)
    requires p < |s| && s[p] == l <= HUFF_LOOKAHEAD && code == Code(s, p)
    modifies lookup
    ensures Looked(t, s, lookup[..], p + 1)
  {
    ghost var was := lookup[..];
    LookRange(s, p);
    hide Looked, Start, Code, Pow2;
    FillEntries(lookup, code * Pow2(HUFF_LOOKAHEAD - l), Pow2(HUFF_LOOKAHEAD - l), l * 256 + t.huffval[p]);
    LookedNext(t, s, was, p, lookup[..]);
  }

  lemma CodeAtLength(t: HuffTbl, l: nat, i: nat)
    requires TblOk(t) && 1 <= l <= 16 && i < t.bits[l]
    ensures FirstOf(t.bits, l) + i < |Sizes(t.bits, 16)| && Sizes(t.bits, 16)[FirstOf(t.bits, l) + i] == l
  {
    FirstAndLast(t, l);
    hide Sizes;
  }

  lemma NextFirst(bits: seq<nat>, l: nat)
    requires 1 <= l < |bits| - 1
    ensures FirstOf(bits, l + 1) == FirstOf(bits, l) + bits[l]
  {
  }

  lemma NothingLooked(t: HuffTbl, s: seq<nat>, lookup: seq<nat>)
    requires TblOk(t) && SizesOk(s) && |s| <= 256 && |lookup| == 256
    requires forall x :: 0 <= x < 256 ==> lookup[x] == (HUFF_LOOKAHEAD + 1) * 256
    ensures Looked(t, s, lookup, 0)
  {
  }

  lemma AllLooked(t: HuffTbl, s: seq<nat>, lookup: seq<nat>, n: nat)
    requires TblOk(t) && Looked(t, s, lookup, n) && forall q :: n <= q < |s| ==> s[q] > HUFF_LOOKAHEAD
    ensures Looked(t, s, lookup, |s|)
  {
    hide Start;
  }

  method FillLookup(t: HuffTbl, huffcode: array<nat>) returns (lookup: array<nat>)
    requires TblOk(t) && LeavesRoom(Sizes(t.bits, 16)) && |Sizes(t.bits, 16)| <= 256 && huffcode.Length == 257
    requires forall p :: 0 <= p < |Sizes(t.bits, 16)| ==> huffcode[p] == Code(Sizes(t.bits, 16), p)
    ensures fresh(lookup) && lookup.Length == 256 && Looked(t, Sizes(t.bits, 16), lookup[..], |Sizes(t.bits, 16)|)
  {
    ghost var s := Sizes(t.bits, 16);
    lookup := new nat[256](_ => (HUFF_LOOKAHEAD + 1) * 256);
    NothingLooked(t, s, lookup[..]);
    assert FirstOf(t.bits, 1) == 0;
    hide Sizes, Looked, LeavesRoom, Code, FirstOf;
    var p := 0;
    for l := 1 to HUFF_LOOKAHEAD + 1
      invariant p == FirstOf(t.bits, l) <= |s| && Looked(t, s, lookup[..], p)
    {
      for i := 0 to t.bits[l]
        invariant p == FirstOf(t.bits, l) + i <= |s| && Looked(t, s, lookup[..], p)
      {
        CodeAtLength(t, l, i);
        FillCode(t, s, l, huffcode[p], p, lookup);
        p := p + 1;
      }
      NextFirst(t.bits, l);
    }
    FirstAndLast(t, HUFF_LOOKAHEAD + 1);
    LongerFromHere(t);
    AllLooked(t, s, lookup[..], p);
  }

  lemma LongerFromHere(t: HuffTbl)
    requires TblOk(t)
    ensures forall q :: FirstOf(t.bits, HUFF_LOOKAHEAD + 1) <= q < |Sizes(t.bits, 16)| ==> Sizes(t.bits, 16)[q] > HUFF_LOOKAHEAD
  {
    forall q | FirstOf(t.bits, HUFF_LOOKAHEAD + 1) <= q < |Sizes(t.bits, 16)| ensures Sizes(t.bits, 16)[q] > HUFF_LOOKAHEAD {
      LargerAfter(t.bits, HUFF_LOOKAHEAD, 16, q);
    }
  }

  ghost predicate LengthsOk(t: HuffTbl, s: seq<nat>, maxcode: seq<int>, valoffset: seq<int>, n: nat)
    requires TblOk(t) && SizesOk(s) && n <= 17
  {
    |maxcode| == |valoffset| == 18 && forall l :: 1 <= l < n ==> LengthOk(t, s, maxcode, valoffset, l)
  }

  /** Figure F.15. */
  method FillLengths(t: HuffTbl, huffcode: array<nat>) returns (maxcode: array<int>, valoffset: array<int>)
    requires TblOk(t) && LeavesRoom(Sizes(t.bits, 16)) && |Sizes(t.bits, 16)| <= 256 && huffcode.Length == 257
    requires forall p :: 0 <= p < |Sizes(t.bits, 16)| ==> huffcode[p] == Code(Sizes(t.bits, 16), p)
    ensures fresh(maxcode) && fresh(valoffset) && maxcode.Length == valoffset.Length == 18
    ensures LengthsOk(t, Sizes(t.bits, 16), maxcode[..], valoffset[..], 17) && maxcode[17] == 0xFFFFF
  {
    ghost var s := Sizes(t.bits, 16);
    maxcode := new int[18](_ => 0);
    valoffset := new int[18](_ => 0);
    assert FirstOf(t.bits, 1) == 0;
    hide Sizes, LeavesRoom, Code, FirstOf, LengthOk;
    RoomSizes(s);
    var p := 0;
    for l := 1 to 17
      invariant p <= |s| && (l <= 16 ==> p == FirstOf(t.bits, l)) && LengthsOk(t, s, maxcode[..], valoffset[..], l)
    {
      p := FillLength(t, s, huffcode, l, p, maxcode, valoffset);
      if l < 16 {
        NextFirst(t.bits, l);
      }
    }
    ghost var m, v := maxcode[..], valoffset[..];
    valoffset[17] := 0;
    maxcode[17] := 0xFFFFF;
    forall l | 1 <= l < 17 ensures LengthOk(t, s, maxcode[..], valoffset[..], l) {
      SameLength(t, s, m, v, maxcode[..], valoffset[..], l);
    }
  }

  method FillLength(t: HuffTbl, ghost s: seq<nat>, huffcode: array<nat>, l: nat, first: nat, maxcode: array<int>,
      valoffset: array<int>) returns (p: nat)
    requires TblOk(t) && s == Sizes(t.bits, 16) && SizesOk(s) && |s| <= 256 && huffcode.Length == 257
    requires forall p :: 0 <= p < |s| ==> huffcode[p] == Code(s, p)
    requires 1 <= l <= 16 && first == FirstOf(t.bits, l) && LengthsOk(t, s, maxcode[..], valoffset[..], l)
    requires maxcode != valoffset
    modifies maxcode, valoffset
    ensures p == first + t.bits[l] <= |s| && LengthsOk(t, s, maxcode[..], valoffset[..], l + 1)
  {
    FirstAndLast(t, l);
    hide Sizes, Code, FirstOf;
    ghost var m, v := maxcode[..], valoffset[..];
    p := first;
    if t.bits[l] != 0 {
      valoffset[l] := p - huffcode[p];
      p := p + t.bits[l];
      maxcode[l] := huffcode[p - 1];
    } else {
      maxcode[l] := -1;
    }
    assert LengthOk(t, s, maxcode[..], valoffset[..], l);
    hide LengthOk;
    forall k | 1 <= k < l ensures LengthOk(t, s, maxcode[..], valoffset[..], k) {
      SameLength(t, s, m, v, maxcode[..], valoffset[..], k);
    }
  }

  lemma SameLength(t: HuffTbl, s: seq<nat>, m: seq<int>, v: seq<int>, m2: seq<int>, v2: seq<int>, k: nat)
    requires TblOk(t) && SizesOk(s) && |m| == |v| == |m2| == |v2| == 18 && 1 <= k <= 16
    requires m[k] == m2[k] && v[k] == v2[k] && LengthOk(t, s, m, v, k)
    ensures LengthOk(t, s, m2, v2, k)
  {
  }

  lemma RoomSizes(s: seq<nat>)
    requires LeavesRoom(s)
    ensures SizesOk(s)
  {
  }

  /** A table the decoder accepts; unlike the encoder's check, this one does not mind if a
      symbol is listed twice. */
  ghost predicate Decodable(t: HuffTbl, isDC: bool)
    requires TblOk(t)
  {
    var s := Sizes(t.bits, 16);
    && |s| <= 256
    && LeavesRoom(s)
    && (isDC ==> forall p :: 0 <= p < |s| ==> t.huffval[p] <= 15)
  }

  /** jpeg_make_d_derived_tbl. */
  method MakeDDerived(t: HuffTbl, isDC: bool) returns (r: Result<DTable>)
    requires TblOk(t)
    ensures r.Ok? <==> Decodable(t, isDC)
    ensures r.Ok? ==> Derived(t, r.value)
  {
    var huffsize := new nat[257];
    var huffcode := new nat[257];
    SizesSorted(t.bits, 16);
    ghost var s := Sizes(t.bits, 16);
    hide Sizes, Code, LeavesRoom, Sorted;
    var ok, lastp := MakeSizes(t.bits, huffsize);
    if !ok {
      return BadHuffTable;
    }
    ok := MakeCodes(huffsize, lastp, huffcode);
    if !ok {
      return BadHuffTable;
    }
    assert huffsize[..lastp] == s;
    var maxcode, valoffset := FillLengths(t, huffcode);
    var lookup := FillLookup(t, huffcode);
    if isDC {
      for i := 0 to lastp
        invariant forall p :: 0 <= p < i ==> t.huffval[p] <= 15
      {
        if t.huffval[i] > 15 {
          return BadHuffTable;
        }
      }
    }
    r := Ok(DTable(maxcode[..], valoffset[..], lookup[..]));
    DerivedFrom(t, r.value);
  }

  lemma DerivedFrom(t: HuffTbl, d: DTable)
    requires TblOk(t) && |Sizes(t.bits, 16)| <= 256 && LeavesRoom(Sizes(t.bits, 16))
    requires LengthsOk(t, Sizes(t.bits, 16), d.maxcode, d.valoffset, 17) && d.maxcode[17] == 0xFFFFF
    requires Looked(t, Sizes(t.bits, 16), d.lookup, |Sizes(t.bits, 16)|)
    ensures Derived(t, d)
  {
    hide Sizes, Start;
  }

  /** Every table the encoder accepts the decoder accepts too. */
  lemma UsableIsDecodable(t: HuffTbl, isDC: bool)
    requires TblOk(t) && Usable(t, isDC)
    ensures Decodable(t, isDC)
  {
    hide Sizes, Start;
  }
}
