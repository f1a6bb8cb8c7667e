/** Fill bytes before a stuffed zero, which jpeg_fill_bit_buffer accepts and decode_mcu_fast does
    not: a segment whose MCU depends on how many of its bytes are at hand. */
module HuffmanFillBytes {
  import opened Coefficients
  import opened Powers
  import opened Digits
  import opened BitString
  import opened HuffmanCodes
  import opened HuffmanDecode
  import opened HuffmanBlock
  import opened HuffmanReader
  import opened HuffmanSymbols
  import opened HuffmanMcu
  import opened HuffmanLocal
  import opened HuffmanFast
  import opened HuffmanScan
  import opened NaturalOrder

  // ----- Tables with a single code

  /** One code, of k zeros, for symbol v. */
  function OneCode(k: nat, v: nat): (t: HuffTbl)
    ensures |t.bits| == 17 && |t.huffval| == 256
  {
    HuffTbl(seq(17, i => if i == k then 1 else 0), seq(256, i => if i == 0 then v else 0))
  }

  lemma {:induction false} OneCodeSizes(k: nat, v: nat, l: nat)
    requires 1 <= k <= 16 && l <= 16
    ensures Sizes(OneCode(k, v).bits, l) == if l < k then [] else [k]
  {
    if l > 0 {
      OneCodeSizes(k, v, l - 1);
    }
  }

  lemma OneCodeFacts(k: nat, v: nat)
    requires 1 <= k <= 16 && v < 256
    ensures var t := OneCode(k, v);
      TblOk(t) && Sizes(t.bits, 16) == [k] && SizesOk([k]) && LeavesRoom([k]) && t.huffval[0] == v
      && Decodable(t, false) && (v <= 15 ==> Decodable(t, true))
    ensures Start([k], 0) == 0 && Start([k], 1) == Pow2(16 - k) <= 0x8000 && Code([k], 0) == 0
  {
    OneCodeSizes(k, v, 16);
    Pow2Mono(16 - k, 15);
    Pow2Table();
    assert Pow2(16) == 2 * Pow2(15);
    assert Start([k], 1) == Start([k], 0) + Pow2(16 - k);
    ZeroFactor(Code([k], 0), Pow2(16 - k));
  }

  lemma ZeroFactor(x: nat, y: nat)
    requires x * y == 0 && y > 0
    ensures x == 0
  {
  }

  lemma {:induction false} ZeroWindow(b: Bits, k: nat)
    requires forall i :: 0 <= i < k ==> !At(b, i)
    ensures Window(b, k) == 0
  {
    if k > 0 {
      ZeroWindow(b, k - 1);
      assert Ahead(b, k)[..k - 1] == Ahead(b, k - 1);
    }
  }

  lemma OnesWindow(b: Bits, k: nat)
    requires forall i :: 0 <= i < k ==> At(b, i)
    ensures Window(b, k) == Pow2(k) - 1
  {
    OnesBits(k);
    hide Pow2, BitsOf, NumOf;
    assert Ahead(b, k) == seq(k, _ => true);
    NumOfBits(Pow2(k) - 1, k);
  }

  /** Zeros are the code. */
  lemma ReadsCode(x: DecTbl, k: nat, v: nat, b: Bits)
    requires DecTblOk(x) && 1 <= k <= 16 && v < 256 && x.t == OneCode(k, v) && forall i :: 0 <= i < k ==> !At(b, i)
    ensures NextSymbol(x, b) == (v, Drop(b, k))
  {
    OneCodeFacts(k, v);
    ZeroWindow(b, k);
    CodeInWindow(b, k);
    WindowTop(Window(b, 17), k);
    assert Begins(Window(b, 17) / 2, Code([k], 0), k);
    hide Sizes, Code, Pow2, Window, Derived, Drop;
    CodeDecodes(x.t, x.d, 0, Window(b, 17), 1);
    hide SlowDecode;
  }

  /** Seventeen ones are no code; they count as symbol 0. */
  lemma ReadsNothing(x: DecTbl, k: nat, v: nat, b: Bits)
    requires DecTblOk(x) && 1 <= k <= 16 && v < 256 && x.t == OneCode(k, v) && forall i :: 0 <= i < 17 ==> At(b, i)
    ensures NextSymbol(x, b) == (0, Drop(b, 17))
  {
    OneCodeFacts(k, v);
    OnesWindow(b, 17);
    Pow2Table();
    assert Pow2(17) == 2 * Pow2(16);
    hide Sizes, Code, Pow2, Window, Derived, Drop;
    SlowMisses(x.t, x.d, Window(b, 17), 1);
    SlowDecodeIs(x, b);
  }

  // ----- The segment

  const FIRST: seq<byte> := [0, 0xFF, 0xFF, 0, 0xFF, 0, 0xFF, 0]

  function ZeroBytes(n: nat): (r: seq<byte>)
    ensures |r| == n
  {
    seq(n, _ => 0)
  }

  /** A zero byte, three data bytes 0xFF, of which the first has a fill byte, n zero bytes, a marker. */
  function Tricky(n: nat): seq<byte> {
    FIRST + (ZeroBytes(n) + [0xFF, 0xD9])
  }

  lemma {:induction false} ZerosSegment(n: nat, tail: seq<byte>)
    ensures Segment(ZeroBytes(n) + tail) == ZeroBytes(n) + Segment(tail) && Ends(ZeroBytes(n) + tail) == Ends(tail)
  {
    if n == 0 {
      assert ZeroBytes(0) + tail == tail && [] + Segment(tail) == Segment(tail);
    } else {
      var src := ZeroBytes(n) + tail;
      assert src[1..] == ZeroBytes(n - 1) + tail && ZeroBytes(n) == [0] + ZeroBytes(n - 1);
      SegmentStep(src);
      ZerosSegment(n - 1, tail);
    }
  }

  /** The beginning of the segment, whatever follows. */
  lemma FirstSegment(rest: seq<byte>)
    ensures Segment(FIRST + rest) == [0, 0xFF, 0xFF, 0xFF] + Segment(rest) && Ends(FIRST + rest) == Ends(rest)
    ensures FastSegment(FIRST + rest) == [0]
  {
    var s0 := FIRST + rest;
    var s1, s2, s3 := s0[1..], s0[4..], s0[6..];
    assert s0[8..] == rest;
    assert s1[1..] == s0[2..] && s1[1..][1..] == s0[3..] && s1[1..][1..][1..] == s2;
    assert s2[1..] == s0[5..] && s2[1..][1..] == s3;
    assert s3[1..] == s0[7..] && s3[1..][1..] == rest;
    assert NextByte(s0) == Data(0, s1);
    assert AfterFF(s0[3..]) == Data(0xFF, s2);
    assert NextByte(s1) == Data(0xFF, s2);
    assert NextByte(s2) == Data(0xFF, s3);
    assert NextByte(s3) == Data(0xFF, rest);
    assert FastSegment(s1) == [] && FastSegment(s0) == [0] + FastSegment(s1);
    SegmentStep(s0);
    SegmentStep(s1);
    SegmentStep(s2);
    SegmentStep(s3);
    hide Segment, Ends, FastSegment, NextByte;
    assert [0] + ([0xFF] + ([0xFF] + ([0xFF] + Segment(rest)))) == [0, 0xFF, 0xFF, 0xFF] + Segment(rest);
  }

  lemma MarkerEnds()
    ensures Segment([0xFF, 0xD9]) == [] && Ends([0xFF, 0xD9])
  {
    assert [0xFF, 0xD9][1..] == [0xD9];
    assert NextByte([0xFF, 0xD9]).Marker?;
  }

  /** The bits of the data: eight zeros, twenty-four ones, and more. */
  lemma TrickyBits(n: nat)
    ensures Ends(Tricky(n)) && FastSegment(Tricky(n)) == [0]
    ensures var b := Stream(Tricky(n));
      (forall i :: 0 <= i < 8 ==> !At(b, i)) && forall i :: 8 <= i < 32 ==> At(b, i)
  {
    MarkerEnds();
    ZerosSegment(n, [0xFF, 0xD9]);
    FirstSegment(ZeroBytes(n) + [0xFF, 0xD9]);
    var later := Segment(ZeroBytes(n) + [0xFF, 0xD9]);
    hide Segment, Ends, FastSegment;
    UnpackConcat([0, 0xFF, 0xFF, 0xFF], later);
    FirstBits();
  }

  lemma FirstBits()
    ensures var b := Unpack([0, 0xFF, 0xFF, 0xFF]);
      |b| == 32 && (forall i :: 0 <= i < 8 ==> !b[i]) && forall i :: 8 <= i < 32 ==> b[i]
  {
    UnpackCons(0, [0xFF, 0xFF, 0xFF]);
    UnpackCons(0xFF, [0xFF, 0xFF]);
    UnpackCons(0xFF, [0xFF]);
    UnpackCons(0xFF, []);
    assert [0] + [0xFF, 0xFF, 0xFF] == [0, 0xFF, 0xFF, 0xFF] && [0xFF] + [0xFF, 0xFF] == [0xFF, 0xFF, 0xFF];
    assert [0xFF] + [0xFF] == [0xFF, 0xFF] && [0xFF] + [] == [0xFF];
    ZeroBits(8);
    OnesBits(8);
    Pow2Table();
    hide BitsOf, Unpack, Pow2;
    assert Unpack([]) == [] by { hide *; NoBytes(); }
  }

  lemma NoBytes()
    ensures Unpack([]) == []
  {
  }

  // ----- The MCU

  /** One block; a DC code of eight zeros for no difference, an AC code of one zero for a value of
      one bit. */
  ghost predicate TrickyTables(dc: DecTbl, ac: DecTbl) {
    DcTbl(dc) && DecTblOk(ac) && dc.t == OneCode(8, 0) && ac.t == OneCode(1, 1)
  }

  function TrickyCfg(dc: DecTbl, ac: DecTbl): seq<BlockCfg> {
    [BlockCfg(0, dc, ac)]
  }

  /** What comes after the DC code. */
  lemma DcPart(dc: DecTbl, ac: DecTbl, b: Bits, z: Block)
    requires TrickyTables(dc, ac) && forall i :: 0 <= i < 8 ==> !At(b, i)
    ensures McuShape(TrickyCfg(dc, ac), [0], [z])
    ensures var r := DecodeAc(ac, Drop(b, 8), 1, z[0 := 0]);
      DecodeMcu(TrickyCfg(dc, ac), b, [0], [z]) == McuRead([r.0], [0], r.1)
  {
    hide DecTblOk, DcTbl, DecodeAc, DecodeBlock, NextSymbol, OneCode, Drop;
    assert DecTblOk(dc) by { hide *; assert DcTbl(dc); DcIsOk(dc); }
    ReadsCode(dc, 8, 0, b);
    DiffUnfolds(dc, b);
    BlockUnfolds(dc, ac, b, 0, z);
    var cfg := TrickyCfg(dc, ac);
    NoBlocksRead(cfg, b, [0], [z], 0);
    HuffmanLocal.McuUnfolds(cfg, b, [0], [z], 1);
    HuffmanFast.WholeMcu(cfg, b, [0], [z]);
  }

  lemma DcIsOk(x: DecTbl)
    requires DcTbl(x)
    ensures DecTblOk(x)
  {
  }

  /** Coefficients below where decoding goes on stay as they are. */
  lemma KeptBelow(x: DecTbl, b: Bits, k: nat, z: seq<int>, j: nat)
    requires |z| == DCTSIZE2 && j < k && j + 1 < DCTSIZE2
    ensures DecodeAc(x, b, k, z).0[j] == z[j]
  {
    hide DecodeAc, Writes;
    OnlyWritten(x, b, k, z);
    NotWrittenBelow(x, b, k, j);
  }

  lemma {:induction false} NotWrittenBelow(x: DecTbl, b: Bits, k: nat, j: nat)
    requires j < k && j + 1 < DCTSIZE2
    ensures !Writes(x, b, k, j)
    decreases if k < DCTSIZE2 then DCTSIZE2 - k else 0
  {
    hide NextSymbol, Drop;
    if k < DCTSIZE2 {
      var (s, b1) := NextSymbol(x, b);
      if s % 16 > 0 {
        NotWrittenBelow(x, Drop(b1, s % 16), k + s / 16 + 1, j);
      } else if s / 16 == 15 {
        NotWrittenBelow(x, b1, k + 16, j);
      }
    }
  }

  /** In truth, the block ends at once. */
  lemma TrueAc(ac: DecTbl, b: Bits, z: Block)
    requires DecTblOk(ac) && ac.t == OneCode(1, 1) && forall i :: 0 <= i < 17 ==> At(b, i)
    ensures DecodeAc(ac, b, 1, z).0 == z
  {
    hide DecTblOk, DecodeAc, NextSymbol, OneCode;
    ReadsNothing(ac, 1, 1, b);
    AcUnfolds(ac, b, 1, z);
  }

  /** With zeros for data, coefficient 1 is minus one, and the data is not enough. */
  lemma FakeAc(ac: DecTbl, z: Block)
    requires DecTblOk(ac) && ac.t == OneCode(1, 1)
    ensures DecodeAc(ac, [false], 1, z).0[1] == -1 && DecodeAc(ac, [false], 1, z).1 == []
  {
    ReadsCode(ac, 1, 1, [false]);
    AcUnfolds(ac, [false], 1, z);
    ZeroWindow([], 1);
    assert Drop([false], 1) == [] && Drop([], 1) == [] && Pow2(1) == 2 && Pow2(0) == 1;
    hide DecTblOk, DecodeAc, NextSymbol, OneCode, Window, Drop;
    var y := z[1 := ToCoef(Extend(Window([], 1), 1))];
    KeptBelow(ac, [], 2, y, 1);
    AcStaysEmpty(ac, 2, y);
  }

  /** The MCU of the segment, decoded over a block. */
  lemma TrueMcu(dc: DecTbl, ac: DecTbl, n: nat, z: Block)
    requires TrickyTables(dc, ac)
    ensures McuShape(TrickyCfg(dc, ac), [0], [z])
    ensures DecodeMcu(TrickyCfg(dc, ac), Stream(Tricky(n)), [0], [z]).zs == [z[0 := 0]]
  {
    hide Stream, Tricky, Drop, At, DecodeMcu, DecodeAc, OneCode, DecTblOk, DcTbl;
    TrickyBits(n);
    var b := Stream(Tricky(n));
    DcPart(dc, ac, b, z);
    forall i | 0 <= i < 17 ensures At(Drop(b, 8), i) {
      DropAt(b, 8, i);
    }
    TrueAc(ac, Drop(b, 8), z[0 := 0]);
  }

  lemma DropAt(b: Bits, n: nat, i: nat)
    ensures At(Drop(b, n), i) == At(b, n + i)
  {
  }

  /** The MCU as the fast path sees it. */
  lemma FakeMcu(dc: DecTbl, ac: DecTbl, b: Bits, z: Block)
    requires TrickyTables(dc, ac) && |b| == 9 && forall i :: 0 <= i < 9 ==> !b[i]
    ensures McuShape(TrickyCfg(dc, ac), [0], [z])
    ensures var r := DecodeMcu(TrickyCfg(dc, ac), b, [0], [z]);
      |r.zs| == 1 && |r.zs[0]| == 64 && r.zs[0][1] == -1 && r.rest == []
  {
    hide *;
    LastZero(b);
    TablesShape(dc, ac);
    DcPart(dc, ac, b, z);
    FakeAc(ac, z[0 := 0]);
  }

  lemma LastZero(b: Bits)
    requires |b| == 9 && forall i :: 0 <= i < 9 ==> !b[i]
    ensures Drop(b, 8) == [false] && forall i :: 0 <= i < 8 ==> !At(b, i)
  {
  }

  lemma TablesShape(dc: DecTbl, ac: DecTbl)
    requires TrickyTables(dc, ac)
    ensures DecTblOk(ac) && ac.t == OneCode(1, 1) && DCTSIZE2 == 64
  {
    hide OneCode, DcTbl, DecTblOk;
  }

  /** With all bytes at hand the MCU has a coefficient that it does not have with few of them. */
  lemma FillBytesMatter(r: BitReader, dc: DecTbl, ac: DecTbl, n: nat)
    requires TrickyTables(dc, ac) && r.Valid() && r.unreadMarker == 0 && r.bitsLeft == 0 && !r.insufficientData
    requires r.src + r.future == Tricky(n) && r.rest == Stream(Tricky(n))
    ensures McuShape(TrickyCfg(dc, ac), [0], Zeros(1))
    ensures var (cfg, zs) := (TrickyCfg(dc, ac), StartedFrom(r, TrickyCfg(dc, ac), [0], Zeros(1)));
      && McuShape(cfg, [0], zs) && |zs| == 1 && |zs[0]| == 64
      && DecodeMcu(cfg, r.rest, [0], zs).zs == [zs[0][0 := 0]]
      && zs[0][1] == if |r.src| >= BYTES_PER_BLOCK then -1 else 0
  {
    hide *;
    TrickyBits(n);
    ZeroBlock();
    var cfg, z := TrickyCfg(dc, ac), Zeros(1)[0];
    ViewIsZeros(r);
    FakeMcu(dc, ac, FastView(r), z);
    StartsFrom(r, dc, ac, z);
    TrueMcu(dc, ac, n, StartedFrom(r, cfg, [0], [z])[0]);
  }

  lemma ZeroBlock()
    ensures |Zeros(1)| == 1 && Zeros(1) == [Zeros(1)[0]] && Zeros(1)[0][1] == 0
  {
  }

  lemma StartsFrom(r: BitReader, dc: DecTbl, ac: DecTbl, z: Block)
    requires r.Valid() && r.unreadMarker == 0 && !r.insufficientData && McuShape(TrickyCfg(dc, ac), [0], [z])
    requires DecodeMcu(TrickyCfg(dc, ac), FastView(r), [0], [z]).rest == []
    ensures var (cfg, ys) := (TrickyCfg(dc, ac), StartedFrom(r, TrickyCfg(dc, ac), [0], [z]));
      && |ys| == 1 && ys == [ys[0]] && McuShape(cfg, [0], ys)
      && ys == if |r.src| >= BYTES_PER_BLOCK then DecodeMcu(cfg, FastView(r), [0], [z]).zs else [z]
  {
    hide DecodeMcu, FastView, Reads, Stream;
  }

  lemma ViewIsZeros(r: BitReader)
    requires r.bitsLeft == 0 && FastSegment(r.src + r.future) == [0]
    ensures |FastView(r)| == 9 && forall i :: 0 <= i < 9 ==> !FastView(r)[i]
  {
    UnpackCons(0, []);
    assert [0] + [] == [0];
    ZeroBits(8);
    NoBytes();
    hide BitsOf, Unpack;
  }

  // ----- Two deliveries

  /** A reader at the start of the segment, with its first bytes delivered. */
  method TrickyReader(ghost n: nat, first: seq<byte>, later: seq<byte>) returns (r: BitReader)
    requires first + later == Tricky(n)
    ensures fresh(r) && r.Valid() && r.unreadMarker == 0 && r.bitsLeft == 0 && !r.insufficientData
    ensures r.src == first && r.future == later && r.rest == Stream(Tricky(n)) != []
    ensures r.Stocked(8 * |Segment(r.src)|)
  {
    TrickyBits(n);
    hide Tricky, Stream, Segment, Ends, FastSegment;
    r := new BitReader(first, later, false);
    FirstRead(r);
  }

  lemma TrickyCfgOk(dc: DecTbl, ac: DecTbl)
    requires TrickyTables(dc, ac)
    ensures |TrickyCfg(dc, ac)| == 1 && CfgOk(TrickyCfg(dc, ac), 1)
  {
    hide DcTbl, DecTblOk, OneCode;
  }

  /** The attempt: the blocks are what the segment says, over what the fast path left in them. */
  method AttemptOn(r: BitReader, dc: DecTbl, ac: DecTbl, ghost n: nat, ghost stock: int) returns (ok: bool, zs: Mcu)
    requires TrickyTables(dc, ac) && r.Valid() && r.unreadMarker == 0 && r.bitsLeft == 0 && !r.insufficientData
    requires r.src + r.future == Tricky(n) && r.rest == Stream(Tricky(n)) != [] && r.Stocked(stock)
    modifies r
    ensures stock >= 57 + 1984 || old(r.future) == [] ==> ok
    ensures ok ==> |zs| == 1 && |zs[0]| == 64 && zs[0][1] == if |old(r.src)| >= BYTES_PER_BLOCK then -1 else 0
  {
    hide *;
    TrickyCfgOk(dc, ac);
    OneBlocksBits();
    var mem := ClearBlocks(1);
    FillBytesMatter(r, dc, ac, n);
    DecodesNext(TrickyCfg(dc, ac), r.rest, [0], StartedFrom(r, TrickyCfg(dc, ac), [0], Zeros(1)));
    var last;
    ok, last := DecodeMcuEither(r, TrickyCfg(dc, ac), [0], mem, stock);
    zs := [];
    if ok {
      zs := HeldBlocks(mem);
    }
  }

  lemma DecodesNext(cfg: seq<BlockCfg>, b: Bits, last: seq<int>, zs: Mcu)
    requires McuShape(cfg, last, zs) && b != []
    ensures NextMcu(cfg, b, last, zs) == DecodeMcu(cfg, b, last, zs)
  {
    hide DecodeMcu;
  }

  lemma OneBlocksBits()
    ensures BlocksBits(1) == 1984
  {
  }

  /** One attempt at the MCU, with the first bytes of the segment delivered. */
  method AttemptWith(dc: DecTbl, ac: DecTbl, ghost n: nat, first: seq<byte>, later: seq<byte>, ghost stock: int) returns (ok: bool, zs: Mcu)
    requires TrickyTables(dc, ac) && first + later == Tricky(n) && stock == 8 * |Segment(first)|
    ensures ok <== later == [] || stock >= 57 + 1984
    ensures ok ==> |zs| == 1 && |zs[0]| == 64 && zs[0][1] == if |first| >= BYTES_PER_BLOCK then -1 else 0
  {
    hide *;
    var r := TrickyReader(n, first, later);
    ok, zs := AttemptOn(r, dc, ac, n, stock);
  }

  lemma FirstRead(r: BitReader)
    requires r.Valid() && r.unreadMarker == 0
    ensures !r.insufficientData && r.rest != [] && r.Stocked(8 * |Segment(r.src)|)
  {
  }

  /** 400 bytes hold enough for any block. */
  lemma EnoughAtHand(n: nat, first: seq<byte>, later: seq<byte>)
    requires first + later == Tricky(n) && 400 <= |first| < 8 + n
    ensures 8 * |Segment(first)| >= 57 + 1984
  {
    var m := |first| - 8;
    assert Tricky(n)[..|first|] == FIRST + ZeroBytes(m) && (first + later)[..|first|] == first;
    assert ZeroBytes(m) + [] == ZeroBytes(m);
    hide Segment, Ends, FastSegment, Tricky;
    FirstSegment(ZeroBytes(m));
    ZerosSegment(m, []);
    NoSegment();
  }

  lemma NoSegment()
    ensures Segment([]) == []
  {
  }

  /** jpeg_make_d_derived_tbl accepts both tables. */
  method MakeTrickyTables() returns (dc: DecTbl, ac: DecTbl)
    ensures TrickyTables(dc, ac)
  {
    OneCodeFacts(8, 0);
    OneCodeFacts(1, 1);
    hide Sizes, Decodable, OneCode, Derived, TblOk;
    var d := MakeDDerived(OneCode(8, 0), true);
    var a := MakeDDerived(OneCode(1, 1), false);
    dc, ac := DecTbl(OneCode(8, 0), d.value), DecTbl(OneCode(1, 1), a.value);
  }

  /** The same segment, at once and with a first delivery that is too short for the fast path but
      holds the MCU: both attempts succeed, and the MCUs differ in a coefficient. */
  method TwoDeliveries(ghost n: nat, first: seq<byte>, later: seq<byte>) returns (okAtOnce: bool, atOnce: Mcu, okFirst: bool, inPieces: Mcu)
    requires first + later == Tricky(n) && n >= 600 && 400 <= |first| < BYTES_PER_BLOCK
    ensures okAtOnce && |atOnce| == 1 && |atOnce[0]| == 64 && atOnce[0][1] == -1
    ensures okFirst && |inPieces| == 1 && |inPieces[0]| == 64 && inPieces[0][1] == 0
  {
    hide *;
    ThatMany(n);
    EnoughAtHand(n, first, later);
    NothingLater(first + later);
    var dc, ac := MakeTrickyTables();
    okAtOnce, atOnce := AttemptWith(dc, ac, n, first + later, [], 8 * |Segment(first + later)|);
    okFirst, inPieces := AttemptWith(dc, ac, n, first, later, 8 * |Segment(first)|);
  }

  lemma NothingLater(whole: seq<byte>)
    ensures whole + [] == whole
  {
  }

  lemma ThatMany(n: nat)
    ensures BYTES_PER_BLOCK == 512 && |Tricky(n)| == n + 10
  {
  }
}
