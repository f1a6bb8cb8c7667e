/** jpeg_gen_optimal_table from counts to the finished table, and that the table can be used. */
module HuffmanTable {
  import opened Powers
  import opened HuffmanCost
  import opened HuffmanForest
  import opened HuffmanDepth
  import opened HuffmanMerge
  import opened HuffmanLimit
  import opened HuffmanCodes

  /** Counts the procedure is meant for: 256 real symbols and the pseudo-symbol, a real symbol
      in use, a total below the search sentinel and byte-sized counts of lengths. */
  ghost predicate GoodCounts(f: seq<nat>) {
    && |f| == NUM_SYMBOLS && f[PSEUDO_SYMBOL] == 1
    && (exists i :: 0 <= i < PSEUDO_SYMBOL && f[i] > 0)
    && Sum(f) <= SENTINEL && Used(f) <= 255
  }

  /** Optimal sizes are positive just for the symbols in use. */
  lemma SizesPositive(f: seq<nat>, size: seq<nat>)
    requires GoodCounts(f) && OptimalSizes(f, size)
    ensures forall k :: 0 <= k < |f| ==> (size[k] > 0 <==> f[k] > 0)
  {
    var i :| 0 <= i < PSEUDO_SYMBOL && f[i] > 0;
    var m :| Fits(f, size, m) && Kraft(f, size, m) == Pow2(m);
    hide Cost, Kraft, Sum, Used;
    forall k | 0 <= k < |f| && f[k] > 0 ensures size[k] > 0 {
      NoEmptyCode(f, size, m, k, if k == PSEUDO_SYMBOL then i else PSEUDO_SYMBOL);
    }
  }

  lemma UnitsOf(f: seq<nat>, size: seq<nat>)
    requires GoodCounts(f) && OptimalSizes(f, size) && forall k :: 0 <= k < |f| ==> size[k] <= MAX_CLEN
    ensures Kraft(f, size, MAX_CLEN) == Pow2(MAX_CLEN)
  {
    var m :| Fits(f, size, m) && Kraft(f, size, m) == Pow2(m);
    hide Cost, Sum, Used, Kraft, Pow2;
    KraftUnits(f, size, m, MAX_CLEN);
  }

  /** Optimal sizes of at most 32 bits, counted, fill the code space. */
  lemma TallyFull(f: seq<nat>, size: seq<nat>)
    requires GoodCounts(f) && OptimalSizes(f, size) && forall k :: 0 <= k < |f| ==> size[k] <= MAX_CLEN
    ensures Full(Tally(size, |size|), MAX_CLEN) && Sum(Tally(size, |size|)) == Used(f)
  {
    SizesPositive(f, size);
    UnitsOf(f, size);
    hide OptimalSizes, GoodCounts, Cost, Sum, KraftOf, Tally, Pow2;
    TallyKraft(f, size, |size|);
    assert Terms(f, size, MAX_CLEN)[..|size|] == Terms(f, size, MAX_CLEN);
    TallyCountsUsed(f, size, |size|);
    assert Ones(f)[..|size|] == Ones(f);
  }

  lemma {:induction false} TallyCountsUsed(f: seq<nat>, size: seq<nat>, n: nat)
    requires |f| == |size| && n <= |size|
    requires forall k :: 0 <= k < |f| ==> size[k] <= MAX_CLEN && (size[k] > 0 <==> f[k] > 0)
    ensures Sum(Tally(size, n)) == Sum(Ones(f)[..n])
  {
    if n == 0 {
      SumZero(Tally(size, 0));
    } else {
      TallyCountsUsed(f, size, n - 1);
      TallyNext(size, n - 1);
      assert Ones(f)[..n][..n - 1] == Ones(f)[..n - 1];
      var t := Tally(size, n - 1);
      SumUpdate(t, size[n - 1], t[size[n - 1]] + 1);
      hide Tally;
    }
  }

  // ----- Counting and listing

  /** Counts the symbols of each code length; ok is false if some length is over 32. */
  method CountSizes(codesize: array<nat>, bits: array<nat>) returns (ok: bool)
    requires bits.Length == MAX_CLEN + 1 && forall k :: 0 <= k < bits.Length ==> bits[k] == 0
    requires bits != codesize
    modifies bits
    ensures ok <==> forall k :: 0 <= k < codesize.Length ==> codesize[k] <= MAX_CLEN
    ensures ok ==> bits[..] == Tally(codesize[..], codesize.Length)
  {
    hide Tally;
    assert bits[..] == Tally(codesize[..], 0) by { NoTally(codesize[..]); }
    for i := 0 to codesize.Length
      invariant forall k :: 0 <= k < i ==> codesize[k] <= MAX_CLEN
      invariant bits[..] == Tally(codesize[..], i)
    {
      if codesize[i] != 0 {
        if codesize[i] > MAX_CLEN {
          return false;
        }
        bits[codesize[i]] := bits[codesize[i]] + 1;
      }
      TallyNext(codesize[..], i);
    }
    ok := true;
  }

  lemma NoTally(size: seq<nat>)
    ensures Tally(size, 0) == seq(MAX_CLEN + 1, _ => 0)
  {
  }

  /** Symbols below n with size k, in increasing order. */
  function WithSize(size: seq<nat>, k: nat, n: nat): (r: seq<nat>)
    requires n <= |size|
    ensures |r| == Count(size, k, n)
  {
    if n == 0 then [] else WithSize(size, k, n - 1) + if size[n - 1] == k then [n - 1] else []
  }

  /** Symbols below n with sizes 1..l, sorted by size. */
  function BySize(size: seq<nat>, l: nat, n: nat): (r: seq<nat>)
    requires n <= |size|
  {
    if l == 0 then [] else BySize(size, l - 1, n) + WithSize(size, l, n)
  }

  lemma {:induction false} WithSizeIs(size: seq<nat>, k: nat, n: nat)
    requires n <= |size|
    ensures forall v: nat :: v in WithSize(size, k, n) <==> v < n && size[v] == k
    ensures Distinct(WithSize(size, k, n))
  {
    if n > 0 {
      WithSizeIs(size, k, n - 1);
      var r := WithSize(size, k, n - 1);
      if size[n - 1] == k {
        assert WithSize(size, k, n) == r + [n - 1];
        hide WithSize, Distinct;
        DistinctSnoc(r, n - 1);
      } else {
        assert WithSize(size, k, n) == r;
        hide WithSize, Distinct;
      }
    }
  }

  lemma DistinctSnoc(r: seq<nat>, x: nat)
    requires Distinct(r) && x !in r
    ensures Distinct(r + [x]) && forall v :: v in r + [x] <==> v in r || v == x
  {
    assert forall i :: 0 <= i < |r| ==> r[i] in r;
  }

  /** Every symbol with a code is listed once. */
  lemma {:induction false} BySizeIs(size: seq<nat>, l: nat, n: nat)
    requires n <= |size|
    ensures forall v: nat :: v in BySize(size, l, n) <==> v < n && 1 <= size[v] <= l
    ensures Distinct(BySize(size, l, n))
  {
    hide *;
    if l == 0 {
      NoneListed(size, n);
      NothingDistinct();
    } else {
      SizeListed(size, l, n);
      BySizeIs(size, l - 1, n);
      WithSizeIs(size, l, n);
      MembersJoin(size, BySize(size, l - 1, n), WithSize(size, l, n), l, n);
    }
  }

  lemma NothingDistinct()
    ensures Distinct([])
  {
  }

  lemma MembersJoin(size: seq<nat>, a: seq<nat>, b: seq<nat>, l: nat, n: nat)
    requires n <= |size| && l > 0 && Distinct(a) && Distinct(b)
    requires forall v: nat :: v in a <==> v < n && 1 <= size[v] <= l - 1
    requires forall v: nat :: v in b <==> v < n && size[v] == l
    ensures Distinct(a + b) && forall v: nat :: v in a + b <==> v < n && 1 <= size[v] <= l
  {
    hide Distinct;
    Apart(size, a, b, l);
    DistinctConcat(a, b);
    forall v: nat ensures v in a + b <==> v < n && 1 <= size[v] <= l {
      assert v in a + b <==> v in a || v in b;
    }
  }

  lemma Apart(size: seq<nat>, a: seq<nat>, b: seq<nat>, l: nat)
    requires (forall v: nat :: v in a ==> v < |size| && size[v] < l) && forall v: nat :: v in b ==> v < |size| && size[v] == l
    ensures forall i, j :: 0 <= i < |a| && 0 <= j < |b| ==> a[i] != b[j]
  {
    forall i, j | 0 <= i < |a| && 0 <= j < |b| ensures a[i] != b[j] {
      assert a[i] in a && b[j] in b;
    }
  }

  lemma DistinctConcat(a: seq<nat>, b: seq<nat>)
    requires Distinct(a) && Distinct(b) && forall i, j :: 0 <= i < |a| && 0 <= j < |b| ==> a[i] != b[j]
    ensures Distinct(a + b)
  {
  }

  lemma {:induction false} BySizeCount(size: seq<nat>, l: nat, n: nat)
    requires n <= |size| && l <= MAX_CLEN
    ensures |BySize(size, l, n)| == Sum(Tally(size, n)[..l + 1])
  {
    if l == 0 {
      assert Tally(size, n)[..1] == [0];
      assert [0][..0] == [];
    } else {
      BySizeCount(size, l - 1, n);
      assert Tally(size, n)[..l + 1][..l] == Tally(size, n)[..l];
    }
  }

  ghost predicate Bytes(s: seq<nat>) {
    forall i :: 0 <= i < |s| ==> s[i] < 256
  }

  /** The first p entries are the list. */
  ghost predicate ListedIn(huffval: array<nat>, p: nat, list: seq<nat>)
    reads huffval
  {
    huffval.Length == 256 && p <= 256 && huffval[..p] == list && Bytes(huffval[..])
  }

  /** Lists the symbols below n with sizes 1..maxlen, sorted by code length. */
  method ListSymbols(codesize: array<nat>, maxlen: nat, n: nat, huffval: array<nat>) returns (p: nat)
    requires n <= codesize.Length && n <= 256 && codesize != huffval
    requires |BySize(codesize[..], maxlen, n)| <= 256 && ListedIn(huffval, 0, [])
    modifies huffval
    ensures ListedIn(huffval, p, BySize(codesize[..], maxlen, n))
  {
    ghost var size := codesize[..];
    hide BySize, ListedIn, WithSize, Count;
    p := 0;
    NoneListed(size, n);
    for i := 1 to maxlen + 1
      invariant ListedIn(huffval, p, BySize(size, i - 1, n))
    {
      ListFits(size, i, maxlen, n);
      SizeListed(size, i, n);
      p := ListOneSize(codesize, i, n, huffval, p, BySize(size, i - 1, n));
    }
  }

  lemma NoneListed(size: seq<nat>, n: nat)
    requires n <= |size|
    ensures BySize(size, 0, n) == []
  {
  }

  lemma SizeListed(size: seq<nat>, i: nat, n: nat)
    requires n <= |size| && i > 0
    ensures BySize(size, i, n) == BySize(size, i - 1, n) + WithSize(size, i, n)
  {
  }

  method ListOneSize(codesize: array<nat>, i: nat, n: nat, huffval: array<nat>, start: nat, ghost list: seq<nat>) returns (p: nat)
    requires n <= codesize.Length && codesize != huffval && n <= 256 && ListedIn(huffval, start, list)
    requires |list| + |WithSize(codesize[..], i, n)| <= 256
    modifies huffval
    ensures ListedIn(huffval, p, list + WithSize(codesize[..], i, n))
  {
    ghost var size := codesize[..];
    p := start;
    for j := 0 to n
      invariant ListedIn(huffval, p, list + WithSize(size, i, j))
    {
      ListGrows(size, i, j, n);
      if codesize[j] == i {
        huffval[p] := j;
        p := p + 1;
      }
    }
  }

  lemma {:induction false} ListGrows(size: seq<nat>, i: nat, j: nat, n: nat)
    requires j < n <= |size|
    ensures |WithSize(size, i, j + 1)| <= |WithSize(size, i, n)|
    decreases n - j
  {
    if j + 1 < n {
      ListGrows(size, i, j + 1, n);
    }
  }

  lemma {:induction false} ListFits(size: seq<nat>, i: nat, maxlen: nat, n: nat)
    requires 1 <= i <= maxlen && n <= |size| && |BySize(size, maxlen, n)| <= 256
    ensures |BySize(size, i - 1, n)| + |WithSize(size, i, n)| <= 256
    decreases maxlen - i
  {
    hide WithSize, Count;
    SizeListed(size, i, n);
    hide BySize;
    if i < maxlen {
      ListFits(size, i + 1, maxlen, n);
    }
  }

  // ----- Code space of the returned counts

  /** The Kraft sum of lengths 1..l in units of 2^-16. */
  function CodeSpace(bits: seq<nat>, l: nat): nat
    requires l < |bits| && l <= 16
  {
    if l == 0 then 0 else CodeSpace(bits, l - 1) + bits[l] * Pow2(16 - l)
  }

  lemma {:induction false} StartConcat(a: seq<nat>, l: nat, n: nat)
    requires l <= 16 && forall i :: 0 <= i < |a| ==> a[i] <= 16
    ensures Start(a + Repeated(l, n), |a| + n) == Start(a, |a|) + n * Pow2(16 - l)
  {
    var s := a + Repeated(l, n);
    if n == 0 {
      assert s == a;
    } else {
      StartConcat(a, l, n - 1);
      StartPrefix(s, a + Repeated(l, n - 1), |a| + n - 1);
      Distribute(n - 1, 1, Pow2(16 - l));
    }
  }

  lemma {:induction false} StartPrefix(s: seq<nat>, t: seq<nat>, n: nat)
    requires n <= |s| && n <= |t| && s[..n] == t[..n]
    requires (forall i :: 0 <= i < |s| ==> s[i] <= 16) && forall i :: 0 <= i < |t| ==> t[i] <= 16
    ensures Start(s, n) == Start(t, n)
  {
    if n > 0 {
      assert s[..n - 1] == s[..n][..n - 1] && t[..n - 1] == t[..n][..n - 1];
      assert s[n - 1] == s[..n][n - 1] && t[n - 1] == t[..n][n - 1];
      StartPrefix(s, t, n - 1);
    }
  }

  /** The codes take up the code space of the counts. */
  lemma {:induction false} StartIsSpace(bits: seq<nat>, l: nat)
    requires l < |bits| && l <= 16
    ensures Start(Sizes(bits, l), |Sizes(bits, l)|) == CodeSpace(bits, l)
  {
    if l > 0 {
      StartIsSpace(bits, l - 1);
      StartConcat(Sizes(bits, l - 1), l, bits[l]);
    }
  }

  lemma {:induction false} SizesCount(bits: seq<nat>, l: nat)
    requires l < |bits| && bits[0] == 0
    ensures |Sizes(bits, l)| == Sum(bits[..l + 1])
  {
    if l == 0 {
      assert bits[..1] == [0];
      assert [0][..0] == [];
    } else {
      SizesCount(bits, l - 1);
      assert bits[..l + 1][..l] == bits[..l];
    }
  }

  lemma {:induction false} SpaceOfKraft(bits: seq<nat>, l: nat)
    requires |bits| == MAX_CLEN + 1 && l <= 16 && bits[0] == 0
    ensures Sum(Weighed(bits)[..l + 1]) == CodeSpace(bits, l) * 0x10000
  {
    if l == 0 {
      assert Weighed(bits)[..1] == [0];
      assert [0][..0] == [];
    } else {
      SpaceOfKraft(bits, l - 1);
      var w := Weighed(bits);
      assert w[..l + 1][..l] == w[..l];
      SameUnit(bits[l], l);
      Distribute(CodeSpace(bits, l - 1), bits[l] * Pow2(16 - l), 0x10000);
    }
  }

  lemma SameUnit(x: nat, l: nat)
    requires l <= 16
    ensures x * Pow2(MAX_CLEN - l) == x * Pow2(16 - l) * 0x10000
  {
    Pow2Add(16 - l, 16);
    Pow2Table();
    hide Pow2;
    assert x * (Pow2(16 - l) * 0x10000) == x * Pow2(16 - l) * 0x10000;
  }

  lemma {:induction false} SumTail(s: seq<nat>, n: nat)
    requires n <= |s| && forall k :: n <= k < |s| ==> s[k] == 0
    ensures Sum(s) == Sum(s[..n])
    decreases |s|
  {
    if n < |s| {
      SumTail(s[..|s| - 1], n);
      assert s[..|s| - 1][..n] == s[..n];
    } else {
      assert s[..n] == s;
    }
  }

  /** Limited counts fill the code space exactly. */
  lemma FullSpace(bits: seq<nat>)
    requires Full(bits, 16)
    ensures CodeSpace(bits, 16) == 0x10000
  {
    SpaceOfKraft(bits, 16);
    Pow2Table();
    Pow2Add(16, 16);
    hide Pow2, CodeSpace;
    SumTail(Weighed(bits), 17);
  }

  lemma {:induction false} SpaceSet(bits: seq<nat>, k: nat, v: nat, l: nat)
    requires l < |bits| && l <= 16 && 1 <= k < |bits|
    ensures CodeSpace(bits[k := v], l) + (if k <= l then bits[k] * Pow2(16 - k) else 0)
         == CodeSpace(bits, l) + (if k <= l then v * Pow2(16 - k) else 0)
  {
    if l > 0 {
      SpaceSet(bits, k, v, l - 1);
      hide Pow2;
    }
  }

  // ----- The whole procedure

  datatype Generated = Generated(t: HuffTbl) | ClenOverflow

  /** Counts from which one of the longest codes has been taken away. */
  ghost predicate OneDropped(bits: seq<nat>, full: seq<nat>, longest: nat)
    requires |bits| == 17 && |full| == MAX_CLEN + 1
  {
    && 1 <= longest <= 16 && full[longest] > 0 && (forall k :: longest < k <= MAX_CLEN ==> full[k] == 0)
    && bits == full[..17][longest := full[longest] - 1]
  }

  /** What jpeg_gen_optimal_table returns for counts f whose optimal sizes are these. */
  ghost predicate FromSizes(f: seq<nat>, size: seq<nat>, t: HuffTbl) {
    && |f| == |size| == NUM_SYMBOLS && TblOk(t)
    && (exists full, longest :: Full(full, 16) && Sum(full) == Used(f) && OneDropped(t.bits, full, longest)
          && Limited(Tally(size, |size|), full))
    && Used(f) > 0 && |BySize(size, MAX_CLEN, PSEUDO_SYMBOL)| == Used(f) - 1 <= 256
    && t.huffval[..Used(f) - 1] == BySize(size, MAX_CLEN, PSEUDO_SYMBOL)
  }

  /** Counts and optimal sizes determine the table: how many codes there are of each length, and for
      which symbols. */
  lemma TableUnique(f: seq<nat>, size: seq<nat>, t: HuffTbl, u: HuffTbl)
    requires FromSizes(f, size, t) && FromSizes(f, size, u)
    ensures t.bits == u.bits && 0 < Used(f) <= 257 && t.huffval[..Used(f) - 1] == u.huffval[..Used(f) - 1]
  {
    hide KraftOf, Limited, Used, Tally, BySize, Sum;
    var a, la :| Full(a, 16) && Sum(a) == Used(f) && OneDropped(t.bits, a, la) && Limited(Tally(size, |size|), a);
    var b, lb :| Full(b, 16) && Sum(b) == Used(f) && OneDropped(u.bits, b, lb) && Limited(Tally(size, |size|), b);
    LimitedUnique(Tally(size, |size|), a, b);
    assert la == lb;
  }

  /** Sizes of at most 16 bits are the lengths in the table, but for one of the longest. */
  lemma ShortSizesStay(f: seq<nat>, size: seq<nat>, t: HuffTbl) returns (longest: nat)
    requires FromSizes(f, size, t) && forall k :: 0 <= k < |size| ==> size[k] <= 16
    ensures |t.bits| == 17 && OneDropped(t.bits, Tally(size, |size|), longest)
  {
    ShortTally(size);
    hide KraftOf, Limited, Used, Tally, BySize, Sum, OneDropped;
    var full, l :| Full(full, 16) && Sum(full) == Used(f) && OneDropped(t.bits, full, l) && Limited(Tally(size, |size|), full);
    LimitedShort(Tally(size, |size|), full);
    longest := l;
  }

  lemma SpaceOfPrefix(bits: seq<nat>, l: nat)
    requires |bits| == MAX_CLEN + 1 && l <= 16
    ensures CodeSpace(bits[..17], l) == CodeSpace(bits, l)
  {
  }

  /** The returned counts leave just the room of one longest code. */
  lemma DroppedSpace(bits: seq<nat>, full: seq<nat>, longest: nat)
    requires |bits| == 17 && Full(full, 16) && OneDropped(bits, full, longest)
    ensures CodeSpace(bits, 16) + Pow2(16 - longest) == 0x10000
    ensures |Sizes(bits, 16)| + 1 == Sum(full)
  {
    FullSpace(full);
    var x := full[longest];
    SpaceSet(full, longest, x - 1, 16);
    Distribute(x, -1, Pow2(16 - longest));
    var less: seq<nat> := full[longest := x - 1];
    assert less[..17] == bits;
    SpaceOfPrefix(less, 16);
    SumUpdate(full, longest, x - 1);
    SumTail(less, 17);
    hide Sum, CodeSpace, Pow2;
    SizesCount(bits, 16);
    assert bits[..17] == bits;
  }

  /** There is room for the all-ones code. */
  lemma GeneratedRoom(f: seq<nat>, size: seq<nat>, t: HuffTbl)
    requires FromSizes(f, size, t)
    ensures |Sizes(t.bits, 16)| == Used(f) - 1 && LeavesRoom(Sizes(t.bits, 16))
  {
    hide Sum, CodeSpace, BySize, OptimalSizes, Used, Sizes, Start, OneDropped, Tally, Sorted, KraftOf;
    var full, longest :| Full(full, 16) && Sum(full) == Used(f) && OneDropped(t.bits, full, longest);
    DroppedSpace(t.bits, full, longest);
    StartIsSpace(t.bits, 16);
    SizesSorted(t.bits, 16);
  }

  lemma ListIs(f: seq<nat>, size: seq<nat>, t: HuffTbl)
    requires FromSizes(f, size, t)
    ensures TblOk(t) && |t.bits| == 17 && 0 < Used(f) <= 257 && t.huffval[..Used(f) - 1] == BySize(size, MAX_CLEN, PSEUDO_SYMBOL)
  {
    hide BySize, Used, Limited, Full, OneDropped, Tally;
  }

  /** Exactly the counted real symbols have codes. */
  lemma GeneratedSymbols(f: seq<nat>, size: seq<nat>, t: HuffTbl)
    requires GoodCounts(f) && OptimalSizes(f, size) && FromSizes(f, size, t)
    requires forall k :: 0 <= k < |size| ==> size[k] <= MAX_CLEN
    ensures var n := |Sizes(t.bits, 16)|;
      n <= 256 && Distinct(t.huffval[..n]) && forall v: nat :: v in t.huffval[..n] <==> v < PSEUDO_SYMBOL && f[v] > 0
  {
    hide *;
    CountsShape(f, size);
    GeneratedRoom(f, size, t);
    BySizeIs(size, MAX_CLEN, PSEUDO_SYMBOL);
    SizesPositive(f, size);
    ListIs(f, size, t);
  }

  /** The encoder accepts a table with room whose listed symbols are distinct and admissible. */
  lemma UsableFrom(t: HuffTbl, isDC: bool, n: nat)
    requires TblOk(t) && n == |Sizes(t.bits, 16)| <= 256 && LeavesRoom(Sizes(t.bits, 16))
    requires Distinct(t.huffval[..n]) && forall v: nat :: v in t.huffval[..n] ==> v <= MaxSymbol(isDC)
    ensures Usable(t, isDC)
  {
    hide Sizes, LeavesRoom;
    var list := t.huffval[..n];
    forall p | 0 <= p < n ensures t.huffval[p] <= MaxSymbol(isDC) {
      assert list[p] in list;
    }
    forall p, q | 0 <= p < q < n ensures t.huffval[p] != t.huffval[q] {
      assert list[p] != list[q];
    }
  }

  /** The table can be used: jpeg_make_c_derived_tbl accepts it, no code is all ones, and
      exactly the counted real symbols have codes. */
  lemma GeneratedUsable(f: seq<nat>, size: seq<nat>, t: HuffTbl, isDC: bool)
    requires GoodCounts(f) && OptimalSizes(f, size) && FromSizes(f, size, t)
    requires forall k :: 0 <= k < |size| ==> size[k] <= MAX_CLEN
    requires forall k :: MaxSymbol(isDC) < k < PSEUDO_SYMBOL ==> f[k] == 0
    ensures TblOk(t) && Usable(t, isDC) && SizesOk(Sizes(t.bits, 16))
    ensures forall v: nat :: v in t.huffval[..|Sizes(t.bits, 16)|] <==> v < PSEUDO_SYMBOL && f[v] > 0
    ensures forall p :: 0 <= p < |Sizes(t.bits, 16)| ==> Code(Sizes(t.bits, 16), p) + 1 < Pow2(Sizes(t.bits, 16)[p])
  {
    hide *;
    CountsShape(f, size);
    GeneratedRoom(f, size, t);
    GeneratedSymbols(f, size, t);
    ListIs(f, size, t);
    NoneAllOnes(Sizes(t.bits, 16));
    SymbolRange(isDC);
    UsableFrom(t, isDC, |Sizes(t.bits, 16)|);
  }

  lemma NoneAllOnes(s: seq<nat>)
    requires LeavesRoom(s)
    ensures SizesOk(s) && forall p :: 0 <= p < |s| ==> Code(s, p) + 1 < Pow2(s[p])
  {
    hide Code, Pow2, Start;
    forall p | 0 <= p < |s| ensures Code(s, p) + 1 < Pow2(s[p]) {
      NotAllOnes(s, p);
    }
  }

  lemma SymbolRange(isDC: bool)
    ensures MaxSymbol(isDC) < PSEUDO_SYMBOL
  {
  }

  /** Takes the pseudo-symbol's code away from the longest length in use. */
  method DropPseudo(bits: array<nat>)
    requires bits.Length == MAX_CLEN + 1 && Full(bits[..], 16)
    modifies bits
    ensures exists longest :: OneDropped(bits[..17], old(bits[..]), longest)
  {
    ghost var full := bits[..];
    SomeLength(full);
    hide Full;
    var i := 16;
    while bits[i] == 0
      invariant 1 <= i <= 16 && forall k :: i < k <= MAX_CLEN ==> bits[k] == 0
      invariant exists k :: 1 <= k <= i && bits[k] > 0
      decreases i
    {
      i := i - 1;
    }
    bits[i] := bits[i] - 1;
    assert OneDropped(bits[..17], full, i);
  }

  lemma SomeLength(bits: seq<nat>)
    requires Full(bits, 16)
    ensures (exists k :: 1 <= k <= 16 && bits[k] > 0) && forall k :: 16 < k <= MAX_CLEN ==> bits[k] == 0
  {
    if forall k :: 1 <= k <= 16 ==> bits[k] == 0 {
      SumZero(Weighed(bits));
    }
  }

  /** The first half of jpeg_gen_optimal_table: optimal code sizes. */
  method FindCodeSizes(freq: array<nat>) returns (codesize: array<nat>)
    requires freq.Length == NUM_SYMBOLS && GoodCounts(freq[..])
    modifies freq
    ensures fresh(codesize) && codesize.Length == NUM_SYMBOLS && OptimalSizes(old(freq[..]), codesize[..])
    ensures codesize[..] == MergedSizes(old(freq[..]))
  {
    codesize := new nat[NUM_SYMBOLS](_ => 0);
    var others := new int[NUM_SYMBOLS](_ => -1);
    assert Sum(freq[..]) <= SENTINEL;
    hide Sum, OptimalSizes, Holds, Grown, First, Second, Used, MergedSizes;
    ghost var F, m := BuildTree(freq, codesize, others);
  }

  /** jpeg_gen_optimal_table.  size holds the optimal code sizes found before limiting. */
  method GenOptimalTable(freq: array<nat>) returns (r: Generated, ghost size: seq<nat>)
    requires freq.Length == NUM_SYMBOLS && GoodCounts(freq[..][PSEUDO_SYMBOL := 1])
    modifies freq
    ensures OptimalSizes(old(freq[..])[PSEUDO_SYMBOL := 1], size) && size == MergedSizes(old(freq[..])[PSEUDO_SYMBOL := 1])
    ensures r.ClenOverflow? <==> exists k :: 0 <= k < |size| && size[k] > MAX_CLEN
    ensures r.Generated? ==> FromSizes(old(freq[..])[PSEUDO_SYMBOL := 1], size, r.t)
  {
    freq[PSEUDO_SYMBOL] := 1;
    ghost var f := freq[..];
    assert f == old(freq[..])[PSEUDO_SYMBOL := 1];
    hide OptimalSizes, FromSizes, GoodCounts, Tally, MergedSizes;
    var codesize := FindCodeSizes(freq);
    size := codesize[..];
    var bits := new nat[MAX_CLEN + 1](_ => 0);
    var ok := CountSizes(codesize, bits);
    if !ok {
      return ClenOverflow, size;
    }
    var t := FinishTable(f, size, codesize, bits);
    r := Generated(t);
  }

  lemma ListedCount(f: seq<nat>, size: seq<nat>)
    requires GoodCounts(f) && OptimalSizes(f, size) && forall k :: 0 <= k < |size| ==> size[k] <= MAX_CLEN
    ensures Used(f) > 0 && |BySize(size, MAX_CLEN, PSEUDO_SYMBOL)| == Used(f) - 1 <= 256
  {
    hide *;
    CountsShape(f, size);
    TallyFull(f, size);
    SizesPositive(f, size);
    BySizeCount(size, MAX_CLEN, PSEUDO_SYMBOL);
    AllButPseudo(size);
  }

  lemma CountsShape(f: seq<nat>, size: seq<nat>)
    requires GoodCounts(f) && OptimalSizes(f, size)
    ensures |f| == |size| == NUM_SYMBOLS == PSEUDO_SYMBOL + 1 && f[PSEUDO_SYMBOL] > 0 && Used(f) <= 255
  {
    hide Sum, Used, Cost;
  }

  lemma AllButPseudo(size: seq<nat>)
    requires |size| == NUM_SYMBOLS == PSEUDO_SYMBOL + 1 && 0 < size[PSEUDO_SYMBOL] <= MAX_CLEN
    ensures |Tally(size, PSEUDO_SYMBOL)| == MAX_CLEN + 1
    ensures Sum(Tally(size, |size|)) == Sum(Tally(size, PSEUDO_SYMBOL)[..MAX_CLEN + 1]) + 1
  {
    var t := Tally(size, PSEUDO_SYMBOL);
    assert t[..MAX_CLEN + 1] == t;
    TallyNext(size, PSEUDO_SYMBOL);
    hide Sum, Tally;
    SumUpdate(t, size[PSEUDO_SYMBOL], t[size[PSEUDO_SYMBOL]] + 1);
  }

  lemma TableShape(f: seq<nat>, size: seq<nat>, t: HuffTbl, full: seq<nat>, longest: nat)
    requires |f| == |size| == NUM_SYMBOLS && 0 < Used(f) <= 255 && Sum(full) == Used(f) && Full(full, 16)
    requires |t.bits| == 17 && OneDropped(t.bits, full, longest)
    requires Limited(Tally(size, |size|), full)
    requires |t.huffval| == 256 && Bytes(t.huffval)
    requires |BySize(size, MAX_CLEN, PSEUDO_SYMBOL)| == Used(f) - 1 <= 256
    requires t.huffval[..Used(f) - 1] == BySize(size, MAX_CLEN, PSEUDO_SYMBOL)
    ensures FromSizes(f, size, t)
  {
    hide Sum, Used, Tally, BySize, Full;
    forall k | 0 <= k < 17 ensures t.bits[k] < 256 {
      FullShape(full);
      SumAtLeast(full, k);
    }
  }

  lemma FullShape(full: seq<nat>)
    requires Full(full, 16)
    ensures |full| == MAX_CLEN + 1
  {
  }

  /** Sizes of at most 16 bits need no limiting. */
  lemma ShortTally(size: seq<nat>)
    requires forall k :: 0 <= k < |size| ==> size[k] <= 16
    ensures forall l :: 16 < l <= MAX_CLEN ==> Tally(size, |size|)[l] == 0
  {
    forall l | 16 < l <= MAX_CLEN ensures Count(size, l, |size|) == 0 {
      CountNone(size, l, |size|);
    }
  }

  lemma {:induction false} CountNone(size: seq<nat>, l: nat, n: nat)
    requires n <= |size| && forall k :: 0 <= k < n ==> size[k] != l
    ensures Count(size, l, n) == 0
  {
    if n > 0 {
      CountNone(size, l, n - 1);
    }
  }

  /** From the counted code lengths to the table. */
  method FinishTable(ghost f: seq<nat>, ghost size: seq<nat>, codesize: array<nat>, bits: array<nat>) returns (t: HuffTbl)
    requires GoodCounts(f) && OptimalSizes(f, size) && codesize[..] == size && |size| == NUM_SYMBOLS
    requires bits.Length == MAX_CLEN + 1 && bits[..] == Tally(size, |size|) && bits != codesize
    requires forall k :: 0 <= k < |size| ==> size[k] <= MAX_CLEN
    modifies bits
    ensures FromSizes(f, size, t)
  {
    TallyFull(f, size);
    ListedCount(f, size);
    hide Sum, OptimalSizes, Used, Tally, BySize, Full, FromSizes;
    LimitLengths(bits);
    ghost var full := bits[..];
    FullShape(full);
    DropPseudo(bits);
    ghost var longest :| OneDropped(bits[..17], full, longest);
    t := FillTable(f, size, codesize, bits, full, longest);
  }

  method FillTable(ghost f: seq<nat>, ghost size: seq<nat>, codesize: array<nat>, bits: array<nat>, ghost full: seq<nat>,
      ghost longest: nat) returns (t: HuffTbl)
    requires codesize[..] == size && |f| == |size| == NUM_SYMBOLS && bits.Length == MAX_CLEN + 1
    requires 0 < Used(f) <= 255 && Sum(full) == Used(f) && Full(full, 16) && |full| == MAX_CLEN + 1
    requires OneDropped(bits[..17], full, longest)
    requires Limited(Tally(size, |size|), full)
    requires |BySize(size, MAX_CLEN, PSEUDO_SYMBOL)| == Used(f) - 1
    ensures FromSizes(f, size, t)
  {
    hide Sum, Used, Tally, BySize, Full, FromSizes, OneDropped;
    var huffval := new nat[256](_ => 0);
    var p := ListSymbols(codesize, MAX_CLEN, PSEUDO_SYMBOL, huffval);
    t := HuffTbl(bits[..17], huffval[..]);
    assert huffval[..][..p] == huffval[..p];
    TableShape(f, size, t, full, longest);
  }
}
